/** The last-resort salvage of `repair_json` and `extract_json_blocks`:
    `re.finditer` over the reply with a quoted-key pattern, each match assigned
    into a fresh dict.

    None of the patterns has a look-behind or an anchor, so whether a match
    starts at a position depends only on the text from there on; the scanners
    below therefore work on suffixes. Every group is followed by a character
    its class excludes (a quote after a quoted run, a non-space after `\s*`),
    so the greedy reading is the only one and no backtracking is modelled. */
module Salvage {
  import opened Wrappers
  import opened Strings
  import opened Dicts
  import opened Json

  /** The three `finditer` patterns.
      `StringPairs`: `"((?:[^"\\]|\\.)*)"\s*:\s*"((?:[^"\\]|\\.)*)"`.
      `NumberPairs`: `"((?:[^"\\]|\\.)*)"\s*:\s*([0-9]+(?:\.[0-9]+)?)`.
      `Simple`: `"([^"]+)"\s*:\s*"([^"]*)"|"([^"]+)"\s*:\s*([0-9]+)` (app13.py). */
  datatype Pattern = StringPairs | NumberPairs | Simple

  /** A match: the key and value it yields and the number of characters it spans. */
  datatype Match = Match(key: string, value: Value, len: nat)

  /** The closing quote of `(?:[^"\\]|\\.)*"` read from `i`: a backslash takes the
      next character with it unless that is a newline (`.` stops there). */
  function EscapedEnd(s: string, i: nat): (r: Option<nat>)
    requires i <= |s|
    ensures r.Some? ==> i <= r.value < |s| && s[r.value] == '"'
    decreases |s| - i
  {
    if i == |s| then None
    else if s[i] == '"' then Some(i)
    else if s[i] == '\\' then
      if i + 1 < |s| && s[i + 1] != '\n' then EscapedEnd(s, i + 2) else None
    else EscapedEnd(s, i + 1)
  }

  /** The closing quote of `[^"]*"` read from `i`: the next quote. */
  function QuoteFrom(s: string, i: nat): (r: Option<nat>)
    requires i <= |s|
    ensures r.Some? ==> i <= r.value < |s| && s[r.value] == '"'
    ensures r.Some? ==> forall k :: i <= k < r.value ==> s[k] != '"'
    ensures r.None? ==> forall k :: i <= k < |s| ==> s[k] != '"'
    decreases |s| - i
  {
    if i == |s| then None
    else if s[i] == '"' then Some(i)
    else QuoteFrom(s, i + 1)
  }

  /** `.replace('\\"', '"')`, the only unescaping the salvage does. */
  function Unescape(t: string): string {
    ReplaceAll(t, "\\\"", "\"")
  }

  /** The match of `p` at the start of `s`, if any. */
  function MatchAt(p: Pattern, s: string): (r: Option<Match>)
    ensures r.Some? ==> 0 < r.value.len <= |s| && s[0] == '"'
  {
    if |s| == 0 || s[0] != '"' then None
    else
      match KeyEnd(p, s)
      case None => None
      case Some(ke) => AfterKey(p, s, ke)
  }

  /** The closing quote of the key group: `[^"]+` for `Simple`, the escaped
      form otherwise. */
  function KeyEnd(p: Pattern, s: string): (r: Option<nat>)
    requires |s| > 0
    ensures r.Some? ==> 1 <= r.value < |s| && s[r.value] == '"'
  {
    var ke := if p == Simple then QuoteFrom(s, 1) else EscapedEnd(s, 1);
    if ke.None? || (p == Simple && ke.value == 1) then None else ke
  }

  /** `\s*:\s*` after the key, then the value. The escaped patterns unescape `\"`
      in the key; app13.py takes the key as it stands. */
  function AfterKey(p: Pattern, s: string, ke: nat): (r: Option<Match>)
    requires 1 <= ke < |s|
    ensures r.Some? ==> 0 < r.value.len <= |s|
  {
    var key := if p == Simple then s[1..ke] else Unescape(s[1..ke]);
    var c := SkipSpace(s, ke + 1);
    if c == |s| || s[c] != ':' then None
    else ValueAt(p, s, key, SkipSpace(s, c + 1))
  }

  /** The value group starting at `v`. */
  function ValueAt(p: Pattern, s: string, key: string, v: nat): (r: Option<Match>)
    requires v <= |s|
    ensures r.Some? ==> v < r.value.len <= |s| && r.value.key == key
  {
    match p
    case StringPairs => QuotedValue(s, key, v, true)
    case NumberPairs => NumberValue(s, key, v, true)
    case Simple =>
      var q := QuotedValue(s, key, v, false);
      if q.Some? then q else NumberValue(s, key, v, false)
  }

  /** A quoted value at `v`, in the escaped form (with `\"` unescaped) or in
      app13.py's `[^"]*` form. */
  function QuotedValue(s: string, key: string, v: nat, escaped: bool): (r: Option<Match>)
    requires v <= |s|
    ensures r.Some? ==> v < r.value.len <= |s| && r.value.key == key && r.value.value.Str?
  {
    if v == |s| || s[v] != '"' then None
    else
      var ve := if escaped then EscapedEnd(s, v + 1) else QuoteFrom(s, v + 1);
      if ve.None? then None
      else
        var text := s[v + 1..ve.value];
        Some(Match(key, Str(if escaped then Unescape(text) else text), ve.value + 1))
  }

  /** A number at `v`: digits, then, in the escaped patterns only, an optional
      fraction, which makes the value a float (kept as its digit text). */
  function NumberValue(s: string, key: string, v: nat, fraction: bool): (r: Option<Match>)
    requires v <= |s|
    ensures r.Some? ==> v < r.value.len <= |s| && r.value.key == key
    ensures r.Some? ==> r.value.value.Int? || (fraction && r.value.value.Decimal?)
  {
    var d := DigitRunEnd(s, v);
    if d == v then None
    else if fraction && d + 1 < |s| && s[d] == '.' && IsDigit(s[d + 1]) then
      var e := DigitRunEnd(s, d + 1);
      Some(Match(key, Decimal(s[v..e]), e))
    else Some(Match(key, Int(DigitsValue(s[v..d])), d))
  }

  /** `re.finditer(p, s)`: the key/value pairs of the successive non-overlapping
      matches, left to right. */
  function FindAll(p: Pattern, s: string): seq<(string, Value)>
    decreases |s|
  {
    if |s| == 0 then []
    else
      match MatchAt(p, s)
      case Some(m) => [(m.key, m.value)] + FindAll(p, s[m.len..])
      case None => FindAll(p, s[1..])
  }

  /** The salvage of `repair_json` in the three CJK-aware files: string pairs
      first, then numeric pairs, each assigned in turn, so a numeric pair
      overwrites a string pair with the same key and within each pass the last
      match wins. */
  function SalvageFull(s: string): (r: Dict<Value>)
    ensures ValidDict(r)
    ensures forall k :: (Get(r, k) ==
      if k in Keys(FindAll(NumberPairs, s)) then Some(LastValue(FindAll(NumberPairs, s), k))
      else if k in Keys(FindAll(StringPairs, s)) then Some(LastValue(FindAll(StringPairs, s), k))
      else None)
  {
    var strs := PutAll([], FindAll(StringPairs, s));
    PutAll(strs, FindAll(NumberPairs, s))
  }

  /** The string-pair pass alone, as the final fallback of `extract_json_blocks`. */
  function SalvageStrings(s: string): (r: Dict<Value>)
    ensures ValidDict(r)
    ensures forall k :: (Get(r, k) ==
      if k in Keys(FindAll(StringPairs, s)) then Some(LastValue(FindAll(StringPairs, s), k))
      else None)
  {
    PutAll([], FindAll(StringPairs, s))
  }

  /** The single-pattern salvage of app13.py. */
  function SalvageSimple(s: string): (r: Dict<Value>)
    ensures ValidDict(r)
    ensures forall k :: (Get(r, k) ==
      if k in Keys(FindAll(Simple, s)) then Some(LastValue(FindAll(Simple, s), k)) else None)
  {
    PutAll([], FindAll(Simple, s))
  }

  // ---------------------------------------------------------------------------
  // Round trip: salvaging a rendered object recovers it.

  /** A string the rendering below can quote as is, and no salvage pattern can
      misread: no quote, no backslash, no colon. */
  predicate Plain(w: string) {
    forall i :: 0 <= i < |w| ==> w[i] != '"' && w[i] != '\\' && w[i] != ':'
  }

  /** One `"key": "value"` entry, with the `": "` separator. */
  function Entry(k: string, v: string): string {
    "\"" + k + "\": \"" + v + "\""
  }

  /** The entries of `d`, separated by `", "`. */
  function Entries(d: Dict<string>): string
    decreases |d|
  {
    if |d| == 0 then []
    else if |d| == 1 then Entry(d[0].0, d[0].1)
    else Entry(d[0].0, d[0].1) + ", " + Entries(d[1..])
  }

  /** A JSON-syntax rendering of a string-to-string dict with the `": "` and
      `", "` separators. This is the layout of `json.dumps`, but the strings
      are written as they are: `json.dumps` would escape non-ASCII and
      control characters as `\uXXXX`, which `Plain` strings may hold. */
  function Render(d: Dict<string>): string {
    "{" + Entries(d) + "}"
  }

  predicate PlainDict(d: Dict<string>) {
    forall i :: 0 <= i < |d| ==> Plain(d[i].0) && Plain(d[i].1)
  }

  predicate NoQuote(x: string) {
    forall i :: 0 <= i < |x| ==> x[i] != '"'
  }

  lemma {:induction false} EscapedEndPlain(t: string, i: nat, j: nat)
    requires i <= j < |t| && t[j] == '"'
    requires forall m :: i <= m < j ==> t[m] != '"' && t[m] != '\\'
    ensures EscapedEnd(t, i) == Some(j)
    decreases j - i
  {
    if i < j {
      EscapedEndPlain(t, i + 1, j);
    }
  }

  lemma {:induction false} QuoteFromPlain(t: string, i: nat, j: nat)
    requires i <= j < |t| && t[j] == '"'
    requires forall m :: i <= m < j ==> t[m] != '"'
    ensures QuoteFrom(t, i) == Some(j)
    decreases j - i
  {
    if i < j {
      QuoteFromPlain(t, i + 1, j);
    }
  }

  lemma {:induction false} UnescapePlain(w: string)
    requires forall i :: 0 <= i < |w| ==> w[i] != '\\'
    ensures Unescape(w) == w
    decreases |w|
  {
    if |w| >= 2 {
      assert w[..2] != "\\\"" by { assert w[0] != '\\'; }
      UnescapePlain(w[1..]);
      assert w == [w[0]] + w[1..];
    }
  }

  /** The text after the first entry's key. */
  lemma EntryShape(k: string, v: string, tail: string)
    ensures var t := Entry(k, v) + tail;
      && |Entry(k, v)| == |k| + |v| + 6
      && t[0] == '"' && t[|k| + 1] == '"' && t[|k| + 2] == ':' && t[|k| + 3] == ' '
      && t[|k| + 4] == '"' && t[|k| + |v| + 5] == '"'
      && t[1..|k| + 1] == k && t[|k| + 5..|k| + |v| + 5] == v
      && t[|k| + |v| + 6..] == tail
  {
  }

  /** The key of an entry closes at the quote after it. */
  lemma EntryKeyEnd(p: Pattern, k: string, v: string, tail: string)
    requires Plain(k)
    requires p == Simple ==> |k| > 0
    ensures KeyEnd(p, Entry(k, v) + tail) == Some(|k| + 1)
  {
    var t := Entry(k, v) + tail;
    EntryShape(k, v, tail);
    assert forall m :: 1 <= m < |k| + 1 ==> t[m] == k[m - 1];
    if p == Simple {
      QuoteFromPlain(t, 1, |k| + 1);
    } else {
      EscapedEndPlain(t, 1, |k| + 1);
    }
  }

  /** The key group of an entry reads back as the key, unescaped or not. */
  lemma EntryKeyText(p: Pattern, k: string, v: string, tail: string)
    requires Plain(k)
    ensures var t := Entry(k, v) + tail;
      (if p == Simple then t[1..|k| + 1] else Unescape(t[1..|k| + 1])) == k
  {
    EntryShape(k, v, tail);
    if p != Simple {
      UnescapePlain(k);
    }
  }

  /** The value of an entry is read as a quoted string up to its closing quote. */
  lemma EntryValue(p: Pattern, k: string, v: string, tail: string)
    requires Plain(v)
    ensures QuotedValue(Entry(k, v) + tail, k, |k| + 4, p != Simple)
      == Some(Match(k, Str(v), |Entry(k, v)|))
  {
    var t := Entry(k, v) + tail;
    EntryShape(k, v, tail);
    var vs := |k| + 4;
    var ve := |k| + |v| + 5;
    assert forall m :: vs + 1 <= m < ve ==> t[m] == v[m - vs - 1];
    if p == Simple {
      QuoteFromPlain(t, vs + 1, ve);
    } else {
      EscapedEndPlain(t, vs + 1, ve);
      UnescapePlain(v);
    }
  }

  /** The separator of an entry: the colon right after the key, the value two
      characters on. */
  lemma EntrySeparator(k: string, v: string, tail: string)
    ensures var t := Entry(k, v) + tail;
      && SkipSpace(t, |k| + 2) == |k| + 2 && |k| + 2 < |t| && t[|k| + 2] == ':'
      && SkipSpace(t, |k| + 3) == |k| + 4
  {
    var t := Entry(k, v) + tail;
    EntryShape(k, v, tail);
    assert SkipSpace(t, |k| + 4) == |k| + 4;
  }

  /** The quoted-pair patterns read an entry whole, whatever follows it. */
  lemma MatchEntry(p: Pattern, k: string, v: string, tail: string)
    requires p != NumberPairs
    requires Plain(k) && Plain(v)
    requires p == Simple ==> |k| > 0
    ensures MatchAt(p, Entry(k, v) + tail) == Some(Match(k, Str(v), |Entry(k, v)|))
  {
    var t := Entry(k, v) + tail;
    var ke := |k| + 1;
    EntryShape(k, v, tail);
    EntryKeyEnd(p, k, v, tail);
    EntryKeyText(p, k, v, tail);
    EntrySeparator(k, v, tail);
    EntryValue(p, k, v, tail);
    assert AfterKey(p, t, ke) == ValueAt(p, t, k, ke + 3);
  }

  /** A stretch without quotes yields no match and is skipped. */
  lemma {:induction false} FindAllSkip(p: Pattern, x: string, y: string)
    requires NoQuote(x)
    ensures FindAll(p, x + y) == FindAll(p, y)
    decreases |x|
  {
    if |x| > 0 {
      var s := x + y;
      assert NoQuote(x[1..]) by {
        forall i | 0 <= i < |x[1..]| ensures x[1..][i] != '"' {
          assert x[1..][i] == x[i + 1];
        }
      }
      calc {
        FindAll(p, s);
        { assert s[0] == x[0] != '"'; assert MatchAt(p, s) == None; }
        FindAll(p, s[1..]);
        { assert s[1..] == x[1..] + y; }
        FindAll(p, x[1..] + y);
        { FindAllSkip(p, x[1..], y); }
        FindAll(p, y);
      }
    } else {
      assert x + y == y;
    }
  }

  /** An entry is read whole, and the scan resumes right after it. */
  lemma FindAllAfterEntry(p: Pattern, k: string, v: string, rest: string)
    requires p != NumberPairs
    requires Plain(k) && Plain(v)
    requires p == Simple ==> |k| > 0
    ensures FindAll(p, Entry(k, v) + rest) == [(k, Str(v))] + FindAll(p, rest)
  {
    var e := Entry(k, v);
    MatchEntry(p, k, v, rest);
    assert (e + rest)[|e|..] == rest;
  }

  /** Scanning the entries of a plain dict, then anything else, yields the
      entries as string pairs, then what the rest yields. */
  lemma {:induction false} FindAllEntries(p: Pattern, d: Dict<string>, post: string)
    requires p != NumberPairs && PlainDict(d)
    requires p == Simple ==> forall i :: 0 <= i < |d| ==> |d[i].0| > 0
    ensures FindAll(p, Entries(d) + post) == AsObject(d) + FindAll(p, post)
    decreases |d|
  {
    if |d| == 0 {
      assert Entries(d) + post == post;
      assert AsObject(d) == [];
    } else if |d| == 1 {
      FindAllOnlyEntry(p, d, post);
    } else {
      PlainTail(d);
      KeyedTail(p, d);
      FindAllEntries(p, d[1..], post);
      FindAllEntriesStep(p, d, post);
    }
  }

  /** The keys of the rest of a dict are non-empty when all its keys are. */
  lemma KeyedTail(p: Pattern, d: Dict<string>)
    requires |d| > 0
    requires p == Simple ==> forall i :: 0 <= i < |d| ==> |d[i].0| > 0
    ensures p == Simple ==> forall i :: 0 <= i < |d[1..]| ==> |d[1..][i].0| > 0
  {
    if p == Simple {
      forall i | 0 <= i < |d[1..]| ensures |d[1..][i].0| > 0 {
        assert d[1..][i] == d[i + 1];
      }
    }
  }

  /** The object of a dict: its first pair, then the object of the rest. */
  lemma AsObjectCons(d: Dict<string>)
    requires |d| > 0
    ensures AsObject(d) == [(d[0].0, Str(d[0].1))] + AsObject(d[1..])
  {
  }

  lemma FindAllOnlyEntry(p: Pattern, d: Dict<string>, post: string)
    requires p != NumberPairs && PlainDict(d) && |d| == 1
    requires p == Simple ==> |d[0].0| > 0
    ensures FindAll(p, Entries(d) + post) == AsObject(d) + FindAll(p, post)
  {
    assert Plain(d[0].0) && Plain(d[0].1);
    AsObjectSingle(d);
    FindAllAfterEntry(p, d[0].0, d[0].1, post);
  }

  lemma AsObjectSingle(d: Dict<string>)
    requires |d| == 1
    ensures AsObject(d) == [(d[0].0, Str(d[0].1))]
  {
  }

  /** The inductive step: the first entry is read, the separator skipped. */
  lemma FindAllEntriesStep(p: Pattern, d: Dict<string>, post: string)
    requires p != NumberPairs && |d| > 1 && Plain(d[0].0) && Plain(d[0].1)
    requires p == Simple ==> |d[0].0| > 0
    requires FindAll(p, Entries(d[1..]) + post) == AsObject(d[1..]) + FindAll(p, post)
    ensures FindAll(p, Entries(d) + post) == AsObject(d) + FindAll(p, post)
  {
    var (k, v) := d[0];
    var more := Entries(d[1..]) + post;
    EntriesConsPlus(d, post);
    FindAllEntryThen(p, k, v, more);
    AsObjectCons(d);
    Assoc3([(k, Str(v))], AsObject(d[1..]), FindAll(p, post));
  }

  /** An entry, the `", "` separator, then anything: the entry is read and the
      separator passed over. */
  lemma FindAllEntryThen(p: Pattern, k: string, v: string, more: string)
    requires p != NumberPairs
    requires Plain(k) && Plain(v)
    requires p == Simple ==> |k| > 0
    ensures FindAll(p, Entry(k, v) + (", " + more)) == [(k, Str(v))] + FindAll(p, more)
  {
    FindAllAfterEntry(p, k, v, ", " + more);
    FindAllSkip(p, ", ", more);
  }

  /** The string-pair and app13 scans of a plain rendering, wrapped in any text
      without quotes, give back exactly the rendered pairs. */
  lemma FindAllRendered(p: Pattern, d: Dict<string>, pre: string, post: string)
    requires p != NumberPairs && PlainDict(d) && NoQuote(pre) && NoQuote(post)
    requires p == Simple ==> forall i :: 0 <= i < |d| ==> |d[i].0| > 0
    ensures FindAll(p, pre + Render(d) + post) == AsObject(d)
  {
    assert pre + Render(d) + post == (pre + "{") + (Entries(d) + ("}" + post));
    FindAllSkip(p, pre + "{", Entries(d) + ("}" + post));
    FindAllEntries(p, d, "}" + post);
    FindAllSkip(p, "}" + post, []);
    assert "}" + post + [] == "}" + post;
  }

  /** `\s*` stops at the first non-space character. */
  lemma {:induction false} SkipSpaceStops(s: string, i: nat, j: nat)
    requires i <= j < |s| && !IsSpace(s[j])
    ensures SkipSpace(s, i) <= j
    decreases j - i
  {
    if i < j && IsSpace(s[i]) {
      SkipSpaceStops(s, i + 1, j);
    }
  }

  /** The numeric pattern at a key's opening quote: the value is quoted, not a number. */
  lemma NumberAtEntry(k: string, v: string, rest: string)
    requires Plain(k) && Plain(v)
    ensures MatchAt(NumberPairs, Entry(k, v) + rest) == None
  {
    var t := Entry(k, v) + rest;
    EntryShape(k, v, rest);
    var ke := |k| + 1;
    assert KeyEnd(NumberPairs, t) == Some(ke) by {
      assert forall m :: 1 <= m < ke ==> t[m] == k[m - 1];
      EscapedEndPlain(t, 1, ke);
    }
    assert SkipSpace(t, ke + 1) == ke + 1;
    assert SkipSpace(t, ke + 2) == ke + 3 by {
      assert SkipSpace(t, ke + 3) == ke + 3;
    }
    assert DigitRunEnd(t, ke + 3) == ke + 3;
  }

  /** The numeric pattern at a closing quote followed by a two-character separator
      and the next quoted string: the "key" it reads is the separator, and no colon
      follows it before the next quote at `j`. */
  lemma NumberAtSeparator(t: string, j: nat)
    requires 4 <= j < |t| && t[0] == '"' && t[3] == '"' && t[j] == '"'
    requires t[1] != '"' && t[1] != '\\' && t[2] != '"' && t[2] != '\\'
    requires forall m :: 4 <= m < j ==> t[m] != ':'
    ensures MatchAt(NumberPairs, t) == None
  {
    assert KeyEnd(NumberPairs, t) == Some(3) by {
      EscapedEndPlain(t, 1, 3);
    }
    SkipSpaceStops(t, 4, j);
  }

  /** The numeric pattern at a value's opening quote: a comma or brace follows it. */
  lemma NumberAtValue(v: string, rest: string)
    requires Plain(v) && |rest| > 0 && (rest[0] == ',' || rest[0] == '}')
    ensures MatchAt(NumberPairs, "\"" + v + "\"" + rest) == None
  {
    var t := "\"" + v + "\"" + rest;
    assert forall m :: 1 <= m < |v| + 1 ==> t[m] == v[m - 1];
    assert t[|v| + 1] == '"' && t[|v| + 2] == rest[0];
    assert KeyEnd(NumberPairs, t) == Some(|v| + 1) by {
      EscapedEndPlain(t, 1, |v| + 1);
    }
    assert SkipSpace(t, |v| + 2) == |v| + 2;
  }

  /** The numeric pattern at a quote with no further quote: no key closes. */
  lemma NumberAtLastQuote(rest: string)
    requires NoQuote(rest)
    ensures MatchAt(NumberPairs, "\"" + rest) == None
  {
    var t := "\"" + rest;
    assert forall m :: 1 <= m < |t| ==> t[m] == rest[m - 1];
    assert EscapedEnd(t, 1).None?;
  }

  /** Positions where no match starts are passed over. */
  lemma {:induction false} FindAllSkipUntil(p: Pattern, s: string, j: nat)
    requires j <= |s|
    requires forall i :: 0 <= i < j ==> MatchAt(p, s[i..]) == None
    ensures FindAll(p, s) == FindAll(p, s[j..])
  {
    if j > 0 {
      assert s[0..] == s;
      assert FindAll(p, s) == FindAll(p, s[1..]);
      forall i | 0 <= i < j - 1 ensures MatchAt(p, s[1..][i..]) == None {
        assert s[1..][i..] == s[i + 1..];
      }
      FindAllSkipUntil(p, s[1..], j - 1);
      assert s[1..][j - 1..] == s[j..];
    }
  }

  /** No numeric match starts inside an entry, given what follows it. */
  lemma NumberNotInEntry(k: string, v: string, rest: string, i: nat)
    requires Plain(k) && Plain(v) && |rest| > 0 && (rest[0] == ',' || rest[0] == '}')
    requires MatchAt(NumberPairs, "\"" + rest) == None
    requires i < |Entry(k, v)|
    ensures MatchAt(NumberPairs, (Entry(k, v) + rest)[i..]) == None
  {
    var t := Entry(k, v) + rest;
    EntryShape(k, v, rest);
    if i == 0 {
      assert t[i..] == t;
      NumberAtEntry(k, v, rest);
    } else if i == |k| + 1 {
      var u := t[i..];
      assert u[0] == '"' && u[1] == ':' && u[2] == ' ' && u[3] == '"' && u[4 + |v|] == '"';
      assert forall m :: 4 <= m < 4 + |v| ==> u[m] == v[m - 4];
      NumberAtSeparator(u, 4 + |v|);
    } else if i == |k| + 4 {
      assert t[i..] == "\"" + v + "\"" + rest;
      NumberAtValue(v, rest);
    } else if i == |k| + |v| + 5 {
      assert t[i..] == "\"" + rest;
    } else {
      assert t[i..][0] != '"' by {
        if 1 <= i <= |k| {
          assert t[i] == k[i - 1];
        } else if |k| + 5 <= i < |k| + |v| + 5 {
          assert t[i] == v[i - |k| - 5];
        }
      }
    }
  }

  /** The numeric scan passes over an entry without a match, given what follows. */
  lemma NumberSkipsEntry(k: string, v: string, rest: string)
    requires Plain(k) && Plain(v) && |rest| > 0 && (rest[0] == ',' || rest[0] == '}')
    requires MatchAt(NumberPairs, "\"" + rest) == None
    ensures FindAll(NumberPairs, Entry(k, v) + rest) == FindAll(NumberPairs, rest)
  {
    var t := Entry(k, v) + rest;
    var n := |Entry(k, v)|;
    forall i | 0 <= i < n ensures MatchAt(NumberPairs, t[i..]) == None {
      NumberNotInEntry(k, v, rest, i);
    }
    FindAllSkipUntil(NumberPairs, t, n);
    assert t[n..] == rest;
  }

  lemma PlainTail(d: Dict<string>)
    requires PlainDict(d) && |d| > 0
    ensures PlainDict(d[1..])
  {
    forall i | 0 <= i < |d[1..]| ensures Plain(d[1..][i].0) && Plain(d[1..][i].1) {
      assert d[1..][i] == d[i + 1];
    }
  }

  lemma EntriesCons(d: Dict<string>)
    requires |d| > 0
    ensures Entries(d) == Entry(d[0].0, d[0].1) + (if |d| == 1 then [] else ", " + Entries(d[1..]))
  {
  }

  /** The closing quote of an entry followed by `", "` and a further entry. */
  lemma NumberAtNextEntry(d: Dict<string>, post: string)
    requires PlainDict(d) && |d| > 0
    ensures MatchAt(NumberPairs, "\"" + ", " + Entries(d) + post) == None
  {
    var rest := (if |d| == 1 then [] else ", " + Entries(d[1..])) + post;
    EntriesCons(d);
    assert "\"" + ", " + Entries(d) + post == "\", " + (Entry(d[0].0, d[0].1) + rest);
    NumberAtSeparatorEntry(d[0].0, d[0].1, rest);
  }

  /** The numeric pattern at a closing quote followed by `", "` and an entry. */
  lemma NumberAtSeparatorEntry(k: string, v: string, rest: string)
    requires Plain(k) && Plain(v)
    ensures MatchAt(NumberPairs, "\", " + (Entry(k, v) + rest)) == None
  {
    var e := Entry(k, v);
    var t := "\", " + (e + rest);
    EntryShape(k, v, []);
    assert forall m :: 0 <= m < |e| ==> t[m + 3] == e[m];
    assert t[0] == '"' && t[1] == ',' && t[2] == ' ' && t[3] == '"';
    assert t[4 + |k|] == '"';
    assert forall m :: 4 <= m < 4 + |k| ==> t[m] == k[m - 4];
    NumberAtSeparator(t, 4 + |k|);
  }

  /** One step of the scan below: the first entry is passed over. */
  lemma NumberSkipsFirst(d: Dict<string>, post: string)
    requires PlainDict(d) && |d| > 0 && |post| > 0 && post[0] == '}' && NoQuote(post)
    ensures FindAll(NumberPairs, Entries(d) + post) == FindAll(NumberPairs, Entries(d[1..]) + post)
  {
    if |d| == 1 {
      NumberSkipsOnly(d, post);
    } else {
      NumberSkipsOneOfMany(d, post);
    }
  }

  lemma NumberSkipsOnly(d: Dict<string>, post: string)
    requires PlainDict(d) && |d| == 1 && |post| > 0 && post[0] == '}' && NoQuote(post)
    ensures FindAll(NumberPairs, Entries(d) + post) == FindAll(NumberPairs, Entries(d[1..]) + post)
  {
    var (k, v) := d[0];
    assert Plain(k) && Plain(v);
    NumberAtLastQuote(post);
    NumberSkipsEntry(k, v, post);
    assert Entries(d) == Entry(k, v);
    assert Entries(d[1..]) == [];
    assert Entries(d[1..]) + post == post;
  }

  lemma NumberSkipsOneOfMany(d: Dict<string>, post: string)
    requires PlainDict(d) && |d| > 1 && |post| > 0 && post[0] == '}' && NoQuote(post)
    ensures FindAll(NumberPairs, Entries(d) + post) == FindAll(NumberPairs, Entries(d[1..]) + post)
  {
    assert Plain(d[0].0) && Plain(d[0].1);
    PlainTail(d);
    NumberAtNextEntry(d[1..], post);
    EntriesConsPlus(d, post);
    NumberSkipsHead(d[0].0, d[0].1, Entries(d[1..]) + post);
  }

  lemma EntriesConsPlus(d: Dict<string>, post: string)
    requires |d| > 1
    ensures Entries(d) + post == Entry(d[0].0, d[0].1) + (", " + (Entries(d[1..]) + post))
    ensures "\"" + ", " + Entries(d[1..]) + post == "\"" + (", " + (Entries(d[1..]) + post))
  {
    var e, m := Entry(d[0].0, d[0].1), Entries(d[1..]);
    assert Entries(d) == e + (", " + m) by { EntriesCons(d); }
    Assoc4(e, ", ", m, post);
    Assoc4("\"", ", ", m, post);
  }

  lemma Assoc4(a: string, b: string, c: string, p: string)
    ensures (a + (b + c)) + p == a + (b + (c + p))
    ensures a + b + c + p == a + (b + (c + p))
  {
  }

  /** An entry followed by `", "` is passed over when no match starts at its closing quote. */
  lemma NumberSkipsHead(k: string, v: string, more: string)
    requires Plain(k) && Plain(v)
    requires MatchAt(NumberPairs, "\"" + (", " + more)) == None
    ensures FindAll(NumberPairs, Entry(k, v) + (", " + more)) == FindAll(NumberPairs, more)
  {
    NumberSkipsEntry(k, v, ", " + more);
    assert NoQuote(", ");
    FindAllSkip(NumberPairs, ", ", more);
  }

  /** The numeric scan finds nothing in the entries of a plain dict. */
  lemma {:induction false} NumberSkipsEntries(d: Dict<string>, post: string)
    requires PlainDict(d) && |post| > 0 && post[0] == '}' && NoQuote(post)
    ensures FindAll(NumberPairs, Entries(d) + post) == FindAll(NumberPairs, post)
    decreases |d|
  {
    if |d| == 0 {
      assert Entries(d) + post == post;
    } else {
      NumberSkipsFirst(d, post);
      PlainTail(d);
      NumberSkipsEntries(d[1..], post);
    }
  }

  /** The numeric scan finds nothing in a plain rendering wrapped in text
      without quotes. */
  lemma NumbersRendered(d: Dict<string>, pre: string, post: string)
    requires PlainDict(d) && NoQuote(pre) && NoQuote(post)
    ensures FindAll(NumberPairs, pre + Render(d) + post) == []
  {
    var t := pre + Render(d) + post;
    assert t == (pre + "{") + (Entries(d) + ("}" + post));
    assert NoQuote(pre + "{");
    FindAllSkip(NumberPairs, pre + "{", Entries(d) + ("}" + post));
    assert NoQuote("}" + post);
    NumberSkipsEntries(d, "}" + post);
    FindAllSkip(NumberPairs, "}" + post, []);
    assert "}" + post + [] == "}" + post;
  }

  /** Salvaging a plain rendering, wrapped in any text without quotes, gives back
      exactly the rendered dict, with both the full two-pass salvage and the
      app13.py salvage (for non-empty keys, which its `[^"]+` requires). */
  lemma SalvageRendered(d: Dict<string>, pre: string, post: string)
    requires ValidDict(d) && PlainDict(d) && NoQuote(pre) && NoQuote(post)
    ensures SalvageFull(pre + Render(d) + post) == AsObject(d)
    ensures SalvageStrings(pre + Render(d) + post) == AsObject(d)
    ensures (forall i :: 0 <= i < |d| ==> |d[i].0| > 0) ==>
      SalvageSimple(pre + Render(d) + post) == AsObject(d)
  {
    var t := pre + Render(d) + post;
    FindAllRendered(StringPairs, d, pre, post);
    NumbersRendered(d, pre, post);
    assert [] + AsObject(d) == AsObject(d);
    PutAllFresh([], AsObject(d));
    if forall i :: 0 <= i < |d| ==> |d[i].0| > 0 {
      FindAllRendered(Simple, d, pre, post);
    }
  }
}
