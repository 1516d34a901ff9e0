/** `extract_json_blocks`: cut the reply into `{...}` blocks, decode the ones
    that parse (after light repair), and merge them with later blocks winning. */
module Blocks {
  import opened Wrappers
  import opened Strings
  import opened Dicts
  import opened Json
  import opened TextRepair
  import opened Salvage
  import opened Repair

  predicate IsBrace(c: char) { c == '{' || c == '}' }

  predicate NoBrace(s: string) {
    forall i :: 0 <= i < |s| ==> !IsBrace(s[i])
  }

  // ---------------------------------------------------------------------------
  // Trimming the reply to its braces.

  /** The length of the longest prefix without `{`: where `^[^{]*` stops. */
  function OpenFrom(s: string, i: nat): (j: nat)
    requires i <= |s|
    ensures i <= j <= |s| && (j < |s| ==> s[j] == '{')
    ensures forall k :: i <= k < j ==> s[k] != '{'
    decreases |s| - i
  {
    if i == |s| || s[i] == '{' then i else OpenFrom(s, i + 1)
  }

  /** The start of the longest suffix without `}`: where `[^}]*$` starts. */
  function CloseEnd(s: string, j: nat): (e: nat)
    requires j <= |s|
    ensures e <= j && (e > 0 ==> s[e - 1] == '}')
    ensures forall k :: e <= k < j ==> s[k] != '}'
  {
    if j == 0 || s[j - 1] == '}' then j else CloseEnd(s, j - 1)
  }

  /** `re.sub(r'^[^{]*', '', s)` followed by `re.sub(r'[^}]*$', '', s)`: the
      text from the first `{` through the last `}` after it, or nothing. */
  function TrimToBraces(s: string): (r: string)
    ensures |r| > 0 ==> r[0] == '{' && r[|r| - 1] == '}'
    ensures |r| > 0 <==> exists i, j :: 0 <= i < j < |s| && s[i] == '{' && s[j] == '}'
    ensures |r| > 0 ==> exists i: nat, j: nat :: OuterSpan(s, r, i, j)
  {
    var a := s[OpenFrom(s, 0)..];
    TrimFacts(s);
    TrimSlice(s);
    a[..CloseEnd(a, |a|)]
  }

  /** `r` is `s[i..j + 1]`, with no `{` in `s` before `i` and no `}` after `j`. */
  ghost predicate OuterSpan(s: string, r: string, i: nat, j: nat) {
    && i <= j < |s| && r == s[i..j + 1]
    && (forall k :: 0 <= k < i ==> s[k] != '{')
    && (forall k :: j < k < |s| ==> s[k] != '}')
  }

  /** The trimmed text is the slice from the first `{` through the last `}`. */
  lemma TrimSlice(s: string)
    ensures var i := OpenFrom(s, 0); var a := s[i..]; var r := a[..CloseEnd(a, |a|)];
      |r| > 0 ==> exists j: nat :: OuterSpan(s, r, i, j)
  {
    var i := OpenFrom(s, 0);
    var a := s[i..];
    var e := CloseEnd(a, |a|);
    var r := a[..e];
    if |r| > 0 {
      var j := i + e - 1;
      assert r == s[i..j + 1];
      forall k | j < k < |s| ensures s[k] != '}' {
        assert a[k - i] == s[k];
      }
      assert OuterSpan(s, r, i, j);
    }
  }

  lemma TrimFacts(s: string)
    ensures var i := OpenFrom(s, 0); var a := s[i..]; var r := a[..CloseEnd(a, |a|)];
      (|r| > 0 ==> r[0] == '{' && r[|r| - 1] == '}')
      && (|r| > 0 <==> exists p, q :: 0 <= p < q < |s| && s[p] == '{' && s[q] == '}')
  {
    var i := OpenFrom(s, 0);
    var a := s[i..];
    var r := a[..CloseEnd(a, |a|)];
    if |r| == 0 {
      forall p, q | 0 <= p < q < |s| && s[p] == '{' ensures s[q] != '}' {
        assert a[q - i] == s[q];
      }
    } else {
      assert s[i] == '{';
      assert s[i + |r| - 1] == '}';
    }
  }

  /** The trimming keeps exactly the object when the text before it has no
      `{` and the text after it no `}`. */
  lemma TrimKeepsObject(pre: string, m: string, post: string)
    requires |m| >= 2 && m[0] == '{' && m[|m| - 1] == '}'
    requires forall i :: 0 <= i < |pre| ==> pre[i] != '{'
    requires forall i :: 0 <= i < |post| ==> post[i] != '}'
    ensures TrimToBraces(pre + m + post) == m
  {
    var s := pre + m + post;
    assert OpenFrom(s, 0) == |pre| by {
      assert s[|pre|] == '{';
    }
    var a := s[|pre|..];
    assert a == m + post;
    assert CloseEnd(a, |a|) == |m| by {
      assert a[|m| - 1] == '}';
      assert forall k :: |m| <= k < |a| ==> a[k] == post[k - |m|];
    }
  }

  // ---------------------------------------------------------------------------
  // The brace-depth scan.

  /** What the scan knows at index `i`: outside a block the depth is zero or
      below; inside, the block began with `{` at `start` and `depth` counts the
      braces it still has open. */
  predicate ScanInv(t: string, i: nat, depth: int, start: int) {
    && i <= |t|
    && ((start == -1 && depth <= 0)
        || (0 <= start < i && t[start] == '{' && depth >= 1
            && depth == CountChar(t[start..i], '{') - CountChar(t[start..i], '}')))
  }

  /** A block the scan may emit: it opens with `{`, closes with `}`, and
      holds as many of each. */
  predicate Balanced(b: string) {
    |b| >= 2 && b[0] == '{' && b[|b| - 1] == '}' && CountChar(b, '{') == CountChar(b, '}')
  }

  /** Spans `[a, b)` in order and pairwise disjoint. */
  predicate Ordered(spans: seq<(nat, nat)>) {
    forall k :: 0 <= k < |spans| - 1 ==> spans[k].1 <= spans[k + 1].0
  }

  lemma CountSnoc(s: string, c: char, d: char)
    ensures CountChar(s + [c], d) == CountChar(s, d) + (if c == d then 1 else 0)
  {
    assert (s + [c])[..|s|] == s;
  }

  /** The invariant is kept by a `{`, which opens a block at depth zero. */
  lemma ScanInvOpen(t: string, i: nat, depth: int, start: int)
    requires ScanInv(t, i, depth, start) && i < |t| && t[i] == '{'
    ensures ScanInv(t, i + 1, depth + 1, if depth == 0 then i else start)
  {
    if depth == 0 {
      assert t[i..i + 1] == [] + ['{'];
      CountSnoc([], '{', '{');
      CountSnoc([], '{', '}');
    } else if start != -1 {
      assert t[start..i + 1] == t[start..i] + ['{'];
      CountSnoc(t[start..i], '{', '{');
      CountSnoc(t[start..i], '{', '}');
    }
  }

  /** A `}` that brings an open block back to depth zero closes it balanced. */
  lemma ScanClose(t: string, i: nat, start: int)
    requires ScanInv(t, i, 1, start) && i < |t| && t[i] == '}'
    ensures 0 <= start < i && Balanced(t[start..i + 1])
  {
    assert t[start..i + 1] == t[start..i] + ['}'];
    CountSnoc(t[start..i], '}', '{');
    CountSnoc(t[start..i], '}', '}');
  }

  /** Any other character keeps the invariant with the depth it implies. */
  lemma ScanInvStep(t: string, i: nat, depth: int, start: int)
    requires ScanInv(t, i, depth, start) && i < |t| && t[i] != '{'
    requires t[i] == '}' ==> depth != 1
    ensures ScanInv(t, i + 1, if t[i] == '}' then depth - 1 else depth, start)
  {
    if start != -1 {
      assert t[start..i + 1] == t[start..i] + [t[i]];
      CountSnoc(t[start..i], t[i], '{');
      CountSnoc(t[start..i], t[i], '}');
    }
  }

  /** Spans from index `lo` on: ordered, within the text, and balanced. */
  predicate SpansFrom(t: string, lo: nat, r: seq<(nat, nat)>) {
    && Ordered(r)
    && forall k :: 0 <= k < |r| ==> lo <= r[k].0 < r[k].1 <= |t| && Balanced(t[r[k].0..r[k].1])
  }

  lemma SpansCons(t: string, lo: nat, b: nat, r: seq<(nat, nat)>)
    requires lo < b <= |t| && Balanced(t[lo..b]) && SpansFrom(t, b, r)
    ensures SpansFrom(t, lo, [(lo, b)] + r)
  {
    var x := [(lo, b)] + r;
    forall k | 0 <= k < |x| - 1 ensures x[k].1 <= x[k + 1].0 {
      if k > 0 {
        assert x[k] == r[k - 1] && x[k + 1] == r[k];
      }
    }
  }

  /** The `for i, char in enumerate(text)` loop from index `i` on, returning the
      spans of the blocks it appends. */
  function ScanFrom(t: string, i: nat, depth: int, start: int): (r: seq<(nat, nat)>)
    requires ScanInv(t, i, depth, start)
    ensures SpansFrom(t, if start == -1 then i else start, r)
    decreases |t| - i
  {
    if i == |t| then []
    else if t[i] == '{' then
      ScanInvOpen(t, i, depth, start);
      ScanFrom(t, i + 1, depth + 1, if depth == 0 then i else start)
    else if t[i] == '}' && depth - 1 == 0 && start != -1 then
      ScanClose(t, i, start);
      var rest := ScanFrom(t, i + 1, 0, -1);
      SpansCons(t, start, i + 1, rest);
      [(start, i + 1)] + rest
    else
      ScanInvStep(t, i, depth, start);
      ScanFrom(t, i + 1, if t[i] == '}' then depth - 1 else depth, start)
  }

  /** The blocks of the depth scan, as substrings. */
  function DepthBlocks(t: string): (r: seq<string>)
    ensures forall k :: 0 <= k < |r| ==> Balanced(r[k])
  {
    var spans := ScanFrom(t, 0, 0, -1);
    seq(|spans|, k requires 0 <= k < |spans| => t[spans[k].0..spans[k].1])
  }

  /** An object whose inside holds no brace is a single block. */
  lemma DepthSingle(m: string)
    requires NoBrace(m)
    ensures DepthBlocks("{" + m + "}") == ["{" + m + "}"]
  {
    var t := "{" + m + "}";
    var n := |m| + 1;
    assert forall k :: 1 <= k < n ==> t[k] == m[k - 1];
    ScanSkip(t, 1, n);
    assert t[n] == '}';
    assert ScanFrom(t, n + 1, 0, -1) == [];
    assert ScanFrom(t, n, 1, 0) == [(0, n + 1)];
    assert ScanFrom(t, 0, 0, -1) == ScanFrom(t, 1, 1, 0);
    assert t[0..n + 1] == t;
  }

  lemma {:induction false} ScanSkip(t: string, i: nat, n: nat)
    requires 1 <= i <= n < |t| && t[0] == '{'
    requires forall k :: 1 <= k < n ==> !IsBrace(t[k])
    ensures ScanInv(t, i, 1, 0) && ScanInv(t, n, 1, 0)
    ensures ScanFrom(t, i, 1, 0) == ScanFrom(t, n, 1, 0)
    decreases n - i
  {
    ScanInvInside(t, i);
    ScanInvInside(t, n);
    if i < n {
      ScanSkip(t, i + 1, n);
    }
  }

  lemma {:induction false} ScanInvInside(t: string, i: nat)
    requires 1 <= i <= |t| && t[0] == '{'
    requires forall k :: 1 <= k < i ==> !IsBrace(t[k])
    ensures ScanInv(t, i, 1, 0)
    decreases i
  {
    if i == 1 {
      assert t[0..1] == [] + ['{'];
      CountSnoc([], '{', '{');
      CountSnoc([], '{', '}');
    } else {
      ScanInvInside(t, i - 1);
      assert t[0..i] == t[0..i - 1] + [t[i - 1]];
      CountSnoc(t[0..i - 1], t[i - 1], '{');
      CountSnoc(t[0..i - 1], t[i - 1], '}');
    }
  }

  // ---------------------------------------------------------------------------
  // The fallback `re.findall(r'({[^{]*?})', text)`.

  /** The first brace at or after `i`, or the end. */
  function BraceFrom(s: string, i: nat): (j: nat)
    requires i <= |s|
    ensures i <= j <= |s| && (j < |s| ==> IsBrace(s[j]))
    ensures forall k :: i <= k < j ==> !IsBrace(s[k])
    decreases |s| - i
  {
    if i == |s| || IsBrace(s[i]) then i else BraceFrom(s, i + 1)
  }

  /** A brace pair with nothing but brace-free text between them. */
  predicate Innermost(b: string) {
    |b| >= 2 && b[0] == '{' && b[|b| - 1] == '}' && NoBrace(b[1..|b| - 1])
  }

  /** The lazy `[^{]*?` stops at the first `}`, and fails at a `{` first, so a
      match starts at `{` exactly when the next brace is `}`. Matches do not
      overlap: the search resumes after each one. */
  function FindInnermost(t: string): (r: seq<string>)
    ensures forall k :: 0 <= k < |r| ==> Innermost(r[k])
    decreases |t|
  {
    if |t| == 0 then []
    else if t[0] == '{' && BraceFrom(t, 1) < |t| && t[BraceFrom(t, 1)] == '}' then
      var q := BraceFrom(t, 1);
      InnermostPrefix(t, q);
      [t[..q + 1]] + FindInnermost(t[q + 1..])
    else FindInnermost(t[1..])
  }

  /** A `{`, brace-free text, then a `}` at `q`: the prefix up to `q` is a pair. */
  lemma InnermostPrefix(t: string, q: nat)
    requires 0 < q < |t| && t[0] == '{' && t[q] == '}'
    requires forall k :: 1 <= k < q ==> !IsBrace(t[k])
    ensures Innermost(t[..q + 1])
  {
    var b := t[..q + 1];
    forall i | 0 <= i < |b[1..q]| ensures !IsBrace(b[1..q][i]) {
      assert b[1..q][i] == t[i + 1];
    }
  }

  /** The first brace from `i` is the one at `j` when none comes between. */
  lemma {:induction false} BraceFromReaches(t: string, i: nat, j: nat)
    requires i <= j < |t| && IsBrace(t[j])
    requires forall k :: i <= k < j ==> !IsBrace(t[k])
    ensures BraceFrom(t, i) == j
    decreases j - i
  {
    if i < j {
      BraceFromReaches(t, i + 1, j);
    }
  }

  /** Every innermost pair of the text is found, in order of position. */
  lemma {:induction false} FindInnermostComplete(t: string, p: nat, q: nat)
    requires p < q < |t| && t[p] == '{' && t[q] == '}'
    requires forall k :: p < k < q ==> !IsBrace(t[k])
    ensures t[p..q + 1] in FindInnermost(t)
    decreases |t|
  {
    var e := BraceFrom(t, 1);
    var hit := t[0] == '{' && e < |t| && t[e] == '}';
    if hit && p == 0 {
      InnermostAtStart(t, q);
    } else {
      // Either the match at 0 ends at e and p (a `{`) lies beyond it, or the
      // search moves on by one.
      var c := if hit then e + 1 else 1;
      assert p == 0 ==> e == q;
      assert c <= p;
      InnerShifted(t, c, p, q);
      FindInnermostComplete(t[c..], p - c, q - c);
      InnermostResumes(t, c, t[p..q + 1]);
    }
  }

  /** A pair at the very start is the first match. */
  lemma InnermostAtStart(t: string, q: nat)
    requires 0 < q < |t| && t[0] == '{' && t[q] == '}'
    requires forall k :: 0 < k < q ==> !IsBrace(t[k])
    ensures t[0..q + 1] in FindInnermost(t)
  {
    BraceFromReaches(t, 1, q);
    assert FindInnermost(t)[0] == t[..q + 1];
  }

  /** The search resumes at `c`: after the match at 0, or one on when there is none. */
  lemma InnermostResumes(t: string, c: nat, b: string)
    requires 0 < c <= |t|
    requires c == (if t[0] == '{' && BraceFrom(t, 1) < |t| && t[BraceFrom(t, 1)] == '}'
      then BraceFrom(t, 1) + 1 else 1)
    requires b in FindInnermost(t[c..])
    ensures b in FindInnermost(t)
  {
  }

  /** An innermost pair past `c` is one of the suffix from `c`. */
  lemma InnerShifted(t: string, c: nat, p: nat, q: nat)
    requires c <= p < q < |t| && t[p] == '{' && t[q] == '}'
    requires forall k :: p < k < q ==> !IsBrace(t[k])
    ensures var u := t[c..];
      && p - c < q - c < |u| && u[p - c] == '{' && u[q - c] == '}'
      && (forall k :: p - c < k < q - c ==> !IsBrace(u[k]))
      && u[p - c..q - c + 1] == t[p..q + 1]
  {
    var u := t[c..];
    forall k | p - c < k < q - c ensures !IsBrace(u[k]) {
      assert u[k] == t[k + c];
    }
  }

  // ---------------------------------------------------------------------------
  // Decoding and merging the blocks.

  /** `combined = {}` then `combined.update(block)` for each block. Anything
      but an object makes `update` raise. */
  function Merge(objs: seq<JsonValue>): (r: Outcome<Dict<Value>>)
    ensures r.Ok? <==> forall i :: 0 <= i < |objs| ==> objs[i].JObject?
    ensures r.Raised? ==> r.error == NotAMapping
    ensures r.Ok? ==> ValidDict(r.value)
    decreases |objs|
  {
    if |objs| == 0 then Ok([])
    else
      var n := |objs| - 1;
      assert forall i :: 0 <= i < n ==> objs[..n][i] == objs[i];
      match Merge(objs[..n])
      case Raised(e) => Raised(e)
      case Ok(front) =>
        match objs[n]
        case JOther(_) => Raised(NotAMapping)
        case JObject(f) => Ok(PutAll(front, f))
  }

  /** The decoded value `j` is an object with key `k`. */
  predicate Holds(j: JsonValue, k: string) {
    j.JObject? && k in Keys(j.fields)
  }

  lemma MergeSnoc(objs: seq<JsonValue>)
    requires Merge(objs).Ok? && |objs| > 0
    ensures var n := |objs| - 1;
      && Merge(objs[..n]).Ok? && objs[n].JObject?
      && Merge(objs).value == PutAll(Merge(objs[..n]).value, objs[n].fields)
  {
    var n := |objs| - 1;
    assert forall i :: 0 <= i < n ==> objs[..n][i] == objs[i];
  }

  /** The merge has key `k` exactly when some block has it. */
  predicate KeyFromBlocks(objs: seq<JsonValue>, m: Dict<Value>, k: string) {
    HasKey(m, k) <==> exists i :: 0 <= i < |objs| && Holds(objs[i], k)
  }

  /** The merge takes `k` from the last block that has it. */
  predicate ValueFromLast(objs: seq<JsonValue>, m: Dict<Value>, k: string)
    requires forall i :: 0 <= i < |objs| ==> objs[i].JObject?
  {
    forall i :: (0 <= i < |objs| && Holds(objs[i], k)
      && (forall j :: i < j < |objs| ==> !Holds(objs[j], k))
      ==> Get(m, k) == Some(LastValue(objs[i].fields, k)))
  }

  /** Later blocks win: a merged key comes from the last block that has it,
      and the merge has exactly the keys of the blocks. */
  lemma {:induction false} MergeLaterWins(objs: seq<JsonValue>, k: string)
    requires Merge(objs).Ok?
    ensures KeyFromBlocks(objs, Merge(objs).value, k)
    ensures ValueFromLast(objs, Merge(objs).value, k)
    decreases |objs|
  {
    if |objs| > 0 {
      var n := |objs| - 1;
      var front := objs[..n];
      MergeSnoc(objs);
      MergeLaterWins(front, k);
      assert objs == front + [objs[n]];
      MergeStepKeeps(front, objs[n], Merge(front).value, k);
    }
  }

  lemma MergeStepKeeps(front: seq<JsonValue>, last: JsonValue, m: Dict<Value>, k: string)
    requires ValidDict(m) && last.JObject?
    requires forall i :: 0 <= i < |front| ==> front[i].JObject?
    requires KeyFromBlocks(front, m, k) && ValueFromLast(front, m, k)
    ensures forall i :: 0 <= i < |front + [last]| ==> (front + [last])[i].JObject?
    ensures KeyFromBlocks(front + [last], PutAll(m, last.fields), k)
    ensures ValueFromLast(front + [last], PutAll(m, last.fields), k)
  {
    var objs := front + [last];
    var n := |front|;
    var r := PutAll(m, last.fields);
    assert forall i :: 0 <= i < n ==> objs[i] == front[i];
    assert objs[n] == last;
    if Holds(last, k) {
      assert Get(r, k) == Some(LastValue(last.fields, k));
      forall i | 0 <= i < |objs| && Holds(objs[i], k) && (forall j :: i < j < |objs| ==> !Holds(objs[j], k))
        ensures i == n
      {
      }
    } else {
      assert Get(r, k) == Get(m, k);
      if exists i :: 0 <= i < |objs| && Holds(objs[i], k) {
        var i :| 0 <= i < |objs| && Holds(objs[i], k);
        assert Holds(front[i], k);
      }
      forall i | 0 <= i < |objs| && Holds(objs[i], k) && (forall j :: i < j < |objs| ==> !Holds(objs[j], k))
        ensures Get(r, k) == Some(LastValue(objs[i].fields, k))
      {
        assert i < n;
        assert forall j :: i < j < n ==> !Holds(front[j], k);
      }
    }
  }

  /** A block as the three CJK-aware files decode it: trailing commas before
      `}` dropped and bare keys quoted, then parsed; a block that still fails
      goes through `repair_json`, whose result is kept only when truthy. */
  function DecodeBlock(parse: Parser, b: string): (r: Option<JsonValue>)
    ensures r.Some? && !parse(QuoteKeys(DropTrailingCommas(b, '}'))).Parsed? ==> Truthy(r.value)
  {
    var c := QuoteKeys(DropTrailingCommas(b, '}'));
    match parse(c)
    case Parsed(j) => Some(j)
    case Malformed =>
      match RepairJson(parse, Full, c)
      case Ok(j) => if Truthy(j) then Some(j) else None
      case Raised(_) => None
  }

  /** The values of the blocks that decode, in block order. */
  function DecodeAll(parse: Parser, bs: seq<string>): (r: seq<JsonValue>)
    ensures |r| <= |bs|
  {
    if |bs| == 0 then []
    else
      (match DecodeBlock(parse, bs[0]) case Some(j) => [j] case None => [])
      + DecodeAll(parse, bs[1..])
  }

  /** The strict-parse filter of app13.py: a block is kept when it parses. */
  function ParseAll(parse: Parser, bs: seq<string>): (r: seq<JsonValue>)
    ensures |r| <= |bs|
  {
    if |bs| == 0 then []
    else
      (match parse(bs[0]) case Parsed(j) => [j] case Malformed => [])
      + ParseAll(parse, bs[1..])
  }

  /** The blocks the three CJK-aware files try: the depth scan's, or when it
      finds none, the innermost pairs. */
  function Candidates(t: string): (r: seq<string>)
    ensures forall k :: 0 <= k < |r| ==> Balanced(r[k])
  {
    var bs := DepthBlocks(t);
    if |bs| > 0 then bs
    else
      var ms := FindInnermost(t);
      assert forall k :: 0 <= k < |ms| ==> Balanced(ms[k]) by {
        forall k | 0 <= k < |ms| ensures Balanced(ms[k]) {
          InnermostBalanced(ms[k]);
        }
      }
      ms
  }

  lemma InnermostBalanced(b: string)
    requires Innermost(b)
    ensures Balanced(b)
  {
    var n := |b| - 1;
    var m := b[1..n];
    assert b == ['{'] + m + ['}'];
    CountAbsent(m, '{');
    CountAbsent(m, '}');
    CountCharAppend(['{'] + m, ['}'], '{');
    CountCharAppend(['{'] + m, ['}'], '}');
    CountCharAppend(['{'], m, '{');
    CountCharAppend(['{'], m, '}');
    assert ['{'][..0] == [] && ['}'][..0] == [];
  }

  /** The merge `m` of the object blocks `objs` has exactly their keys, each
      with its value in the last block that has it. */
  ghost predicate LaterWins(objs: seq<JsonValue>, m: Dict<Value>)
    requires forall i :: 0 <= i < |objs| ==> objs[i].JObject?
  {
    forall k :: KeyFromBlocks(objs, m, k) && ValueFromLast(objs, m, k)
  }

  /** A successful merge is the later-wins union of its blocks. */
  lemma MergeIsLaterWins(objs: seq<JsonValue>)
    requires Merge(objs).Ok?
    ensures LaterWins(objs, Merge(objs).value)
  {
    forall k ensures KeyFromBlocks(objs, Merge(objs).value, k) && ValueFromLast(objs, Merge(objs).value, k) {
      MergeLaterWins(objs, k);
    }
  }

  /** Every value in `objs` is an object. */
  predicate AllObjects(objs: seq<JsonValue>) {
    forall i :: 0 <= i < |objs| ==> objs[i].JObject?
  }

  /** `extract_json_blocks` of the three CJK-aware files. An exception inside
      the first phase (a non-object block reaching `update`) is caught and
      leads, like finding nothing, to the string-pair salvage of the trimmed
      text; an empty salvage gives `None`. */
  function ExtractFull(parse: Parser, text: string): (r: Option<Dict<Value>>)
    ensures r.Some? ==> ValidDict(r.value)
    ensures var t := TrimToBraces(text);
      var objs := DecodeAll(parse, Candidates(t));
      && (|objs| > 0 && AllObjects(objs) ==> r.Some? && LaterWins(objs, r.value))
      && (!(|objs| > 0 && AllObjects(objs)) && r.Some? ==> r.value == SalvageStrings(t))
      && (r == None <==> !(|objs| > 0 && AllObjects(objs)) && |SalvageStrings(t)| == 0)
  {
    var t := TrimToBraces(text);
    var objs := DecodeAll(parse, Candidates(t));
    if |objs| > 0 && Merge(objs).Ok? then
      MergeIsLaterWins(objs);
      Some(Merge(objs).value)
    else
      var d := SalvageStrings(t);
      if |d| > 0 then Some(d) else None
  }

  /** `extract_json_blocks` of app13.py: innermost pairs of the raw text, kept
      when they parse strictly; `update` on a non-object raises to the caller. */
  function ExtractLean(parse: Parser, text: string): (r: Outcome<Option<Dict<Value>>>)
    ensures r.Raised? ==> r.error == NotAMapping
    ensures r.Ok? && r.value.Some? ==> ValidDict(r.value.value)
    ensures var objs := ParseAll(parse, FindInnermost(text));
      && (r == Ok(None) <==> |objs| == 0)
      && (r.Raised? <==> !AllObjects(objs))
      && (|objs| > 0 && AllObjects(objs) ==> r.Ok? && r.value.Some? && LaterWins(objs, r.value.value))
  {
    var objs := ParseAll(parse, FindInnermost(text));
    if |objs| == 0 then Ok(None)
    else
      match Merge(objs)
      case Ok(d) => MergeIsLaterWins(objs); Ok(Some(d))
      case Raised(e) => Raised(e)
  }

  /** Without a `{` there is no block and nothing quoted survives the trim, so
      both variants give `None`. */
  lemma ExtractWithoutBraces(parse: Parser, text: string)
    requires forall i :: 0 <= i < |text| ==> text[i] != '{'
    ensures ExtractFull(parse, text) == None
    ensures ExtractLean(parse, text) == Ok(None)
  {
    assert TrimToBraces(text) == [];
    assert FindAll(StringPairs, []) == [];
    NoOpenNoInnermost(text);
  }

  lemma {:induction false} NoOpenNoInnermost(t: string)
    requires forall i :: 0 <= i < |t| ==> t[i] != '{'
    ensures FindInnermost(t) == []
    decreases |t|
  {
    if |t| > 0 {
      NoOpenNoInnermost(t[1..]);
    }
  }

  // ---------------------------------------------------------------------------
  // Round trip: a rendered object in prose is extracted whole.

  /** A plain string with no brace and no comma either. */
  predicate Bare(w: string) {
    Plain(w) && forall i :: 0 <= i < |w| ==> !IsBrace(w[i]) && w[i] != ','
  }

  predicate BareDict(d: Dict<string>) {
    forall i :: 0 <= i < |d| ==> Bare(d[i].0) && Bare(d[i].1)
  }

  /** What the rewrites and the scanners see of a rendering: no brace, every
      colon right after a quote, every comma followed by a space and a quote. */
  predicate Tame(s: string) {
    && NoBrace(s)
    && (forall i :: 0 <= i < |s| && s[i] == ':' ==> i > 0 && s[i - 1] == '"')
    && (forall i :: 0 <= i < |s| && s[i] == ',' ==> i + 2 < |s| && s[i + 1] == ' ' && s[i + 2] == '"')
  }

  lemma EntryTame(k: string, v: string)
    requires Bare(k) && Bare(v)
    ensures Tame(Entry(k, v)) && Entry(k, v)[0] == '"'
  {
    var e := Entry(k, v);
    EntryShape(k, v, []);
    assert e + [] == e;
    forall i | 0 <= i < |e| ensures !IsBrace(e[i]) && e[i] != ',' && (e[i] == ':' ==> i == |k| + 2) {
      if 1 <= i < |k| + 1 {
        assert e[i] == k[i - 1];
      } else if |k| + 5 <= i < |k| + |v| + 5 {
        assert e[i] == v[i - |k| - 5];
      }
    }
  }

  lemma {:induction false} EntriesTame(d: Dict<string>)
    requires BareDict(d)
    ensures Tame(Entries(d))
    ensures |d| > 0 ==> |Entries(d)| > 0 && Entries(d)[0] == '"'
    decreases |d|
  {
    if |d| > 0 {
      EntryTame(d[0].0, d[0].1);
      if |d| > 1 {
        var e := Entry(d[0].0, d[0].1);
        var rest := Entries(d[1..]);
        assert BareDict(d[1..]) by {
          forall i | 0 <= i < |d[1..]| ensures Bare(d[1..][i].0) && Bare(d[1..][i].1) {
            assert d[1..][i] == d[i + 1];
          }
        }
        EntriesTame(d[1..]);
        SeparatedTame(e, rest);
      }
    }
  }

  lemma SeparatedTame(e: string, rest: string)
    requires Tame(e) && Tame(rest) && |e| > 0 && e[0] == '"' && |rest| > 0 && rest[0] == '"'
    ensures Tame(e + ", " + rest) && (e + ", " + rest)[0] == '"'
  {
    var s := e + ", " + rest;
    var n := |e|;
    assert forall i :: 0 <= i < n ==> s[i] == e[i];
    assert s[n] == ',' && s[n + 1] == ' ' && s[n + 2] == '"';
    assert forall i :: n + 2 <= i < |s| ==> s[i] == rest[i - n - 2];
  }

  /** The rendering of a bare dict: no trailing comma, no bare key, and its
      inside is brace-free. */
  lemma RenderTame(d: Dict<string>)
    requires BareDict(d)
    ensures NoBrace(Entries(d))
    ensures !TrailingComma(Render(d), '}') && !BareKey(Render(d))
  {
    var m := Entries(d);
    var s := Render(d);
    EntriesTame(d);
    assert forall i :: 1 <= i < |s| - 1 ==> s[i] == m[i - 1];
    forall i | 0 <= i < |s| && s[i] == ',' ensures !ClosesAt(s, i + 1, '}') {
      assert m[i - 1] == ',';
      assert s[i + 1] == ' ' && s[i + 2] == '"';
      assert SkipSpace(s, i + 1) == i + 2;
    }
    forall i | 0 < i < |s| && s[i] == ':' ensures !IsWordChar(s[i - 1]) {
      assert m[i - 1] == ':';
    }
  }

  /** Text before a first `{` holds no innermost pair. */
  lemma {:induction false} InnermostAfterProse(x: string, y: string)
    requires forall i :: 0 <= i < |x| ==> x[i] != '{'
    ensures FindInnermost(x + y) == FindInnermost(y)
    decreases |x|
  {
    if |x| > 0 {
      assert (x + y)[1..] == x[1..] + y;
      InnermostAfterProse(x[1..], y);
    } else {
      assert x + y == y;
    }
  }

  /** The one block of a rendering decodes to the object, and merging it
      alone gives the object back. */
  lemma RenderedBlock(parse: Parser, d: Dict<string>)
    requires ValidDict(d) && BareDict(d)
    requires parse(Render(d)) == Parsed(JObject(AsObject(d)))
    ensures DecodeAll(parse, [Render(d)]) == [JObject(AsObject(d))]
    ensures ParseAll(parse, [Render(d)]) == [JObject(AsObject(d))]
    ensures Merge([JObject(AsObject(d))]) == Ok(AsObject(d))
  {
    var s := Render(d);
    RenderedDecodes(parse, d);
    assert [s][1..] == [];
    MergeSingle(AsObject(d));
  }

  lemma RenderedDecodes(parse: Parser, d: Dict<string>)
    requires BareDict(d)
    requires parse(Render(d)) == Parsed(JObject(AsObject(d)))
    ensures DecodeBlock(parse, Render(d)) == Some(JObject(AsObject(d)))
  {
    var s := Render(d);
    RenderTame(d);
    DropTrailingCommasIdentity(s, '}');
    QuoteKeysIdentity(s);
  }

  lemma MergeSingle(m: Dict<Value>)
    requires ValidDict(m)
    ensures Merge([JObject(m)]) == Ok(m)
  {
    assert [JObject(m)][..0] == [];
    assert [] + m == m;
    PutAllFresh([], m);
  }

  /** The depth scan and the innermost-pair search both find the rendering
      alone. */
  lemma RenderedCandidates(d: Dict<string>, pre: string, post: string)
    requires BareDict(d) && NoBrace(pre) && NoBrace(post)
    ensures Candidates(TrimToBraces(pre + Render(d) + post)) == [Render(d)]
    ensures FindInnermost(pre + Render(d) + post) == [Render(d)]
  {
    RenderTame(d);
    ObjectCandidates(Entries(d), pre, post);
  }

  /** A brace pair with a brace-free inside, set in brace-free prose. */
  lemma ObjectCandidates(m: string, pre: string, post: string)
    requires NoBrace(m) && NoBrace(pre) && NoBrace(post)
    ensures Candidates(TrimToBraces(pre + ("{" + m + "}") + post)) == ["{" + m + "}"]
    ensures FindInnermost(pre + ("{" + m + "}") + post) == ["{" + m + "}"]
  {
    ObjectDepth(m, pre, post);
    Assoc3(pre, "{" + m + "}", post);
    InnermostAfterProse(pre, "{" + m + "}" + post);
    InnermostObject(m, post);
  }

  /** The depth scan of an object in brace-free prose. */
  lemma ObjectDepth(m: string, pre: string, post: string)
    requires NoBrace(m) && NoBrace(pre) && NoBrace(post)
    ensures Candidates(TrimToBraces(pre + ("{" + m + "}") + post)) == ["{" + m + "}"]
  {
    TrimKeepsObject(pre, "{" + m + "}", post);
    DepthSingle(m);
  }

  /** The innermost-pair search over an object, then brace-free text. */
  lemma InnermostObject(m: string, post: string)
    requires NoBrace(m) && NoBrace(post)
    ensures FindInnermost("{" + m + "}" + post) == ["{" + m + "}"]
  {
    var s := "{" + m + "}";
    var t := s + post;
    forall i | 1 <= i < |s| - 1 ensures !IsBrace(t[i]) {
      assert t[i] == m[i - 1];
    }
    BraceFromReaches(t, 1, |s| - 1);
    assert t[..|s|] == s && t[|s|..] == post;
    NoOpenNoInnermost(post);
  }

  /** A bare object rendered (see `Render`) into brace-free prose is extracted
      whole by both variants, given a parser that decodes the object. */
  lemma ExtractRendered(parse: Parser, d: Dict<string>, pre: string, post: string)
    requires ValidDict(d) && BareDict(d) && NoBrace(pre) && NoBrace(post)
    requires parse(Render(d)) == Parsed(JObject(AsObject(d)))
    ensures ExtractFull(parse, pre + Render(d) + post) == Some(AsObject(d))
    ensures ExtractLean(parse, pre + Render(d) + post) == Ok(Some(AsObject(d)))
  {
    RenderedCandidates(d, pre, post);
    RenderedBlock(parse, d);
  }
}
