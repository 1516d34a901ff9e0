/** The textual rewrites `repair_json` applies to a reply before its second
    parse attempt, each a `re.sub` or a `str` method in the source, written as
    a left-to-right scan. */
module TextRepair {
  import opened Strings

  /** `[\x00-\x1F\x7F]`: the C0 controls and DEL. Newline and tab are included. */
  predicate IsControl(c: char) {
    c as int <= 0x1F || c as int == 0x7F
  }

  /** `re.sub(r'[\x00-\x1F\x7F]', '', s)` */
  function StripControl(s: string): (r: string)
    ensures forall i :: 0 <= i < |r| ==> !IsControl(r[i])
    ensures |r| <= |s|
  {
    if |s| == 0 then []
    else StripControl(s[..|s| - 1]) + (if IsControl(s[|s| - 1]) then [] else [s[|s| - 1]])
  }

  /** The pass changes the text exactly when it holds a control character. */
  lemma {:induction false} StripControlIdentity(s: string)
    ensures StripControl(s) == s <==> forall i :: 0 <= i < |s| ==> !IsControl(s[i])
  {
    if |s| > 0 {
      var n := |s| - 1;
      StripControlIdentity(s[..n]);
      if forall i :: 0 <= i < |s| ==> !IsControl(s[i]) {
        assert forall i :: 0 <= i < n ==> !IsControl(s[..n][i]);
        assert s == s[..n] + [s[n]];
      }
    }
  }

  /** Every character that is not a control character survives, as often as it occurs. */
  lemma {:induction false} StripControlCounts(s: string, c: char)
    requires !IsControl(c)
    ensures CountChar(StripControl(s), c) == CountChar(s, c)
  {
    if |s| > 0 {
      var n := |s| - 1;
      StripControlCounts(s[..n], c);
      var tail := if IsControl(s[n]) then [] else [s[n]];
      CountCharAppend(StripControl(s[..n]), tail, c);
      if IsControl(s[n]) {
        assert StripControl(s) == StripControl(s[..n]);
      }
    }
  }

  predicate IsHex(c: char) {
    IsDigit(c) || ('a' <= c <= 'f') || ('A' <= c <= 'F')
  }

  /** The negative lookahead `(?!["\\/bfnrt]|u[0-9a-fA-F]{4})` fails after the
      backslash at `i`: a JSON escape follows it. */
  predicate EscapeAfter(s: string, i: nat)
    requires i < |s|
  {
    || (i + 1 < |s| && s[i + 1] in "\"\\/bfnrt")
    || (i + 5 < |s| && s[i + 1] == 'u'
        && IsHex(s[i + 2]) && IsHex(s[i + 3]) && IsHex(s[i + 4]) && IsHex(s[i + 5]))
  }

  /** The backslash at `i` matches `(?<!\\)\\(?!…)`: it is not preceded by a
      backslash and does not start an escape. */
  predicate LoneBackslash(s: string, i: nat)
    requires i < |s|
  {
    s[i] == '\\' && (i == 0 || s[i - 1] != '\\') && !EscapeAfter(s, i)
  }

  /** The rewrite of the first `n` characters. Every match is one character wide
      and both look-arounds read the original text, so each position is rewritten
      on its own. */
  function FixBackslashesUpTo(s: string, n: nat): (r: string)
    requires n <= |s|
    ensures |r| >= n
  {
    if n == 0 then []
    else FixBackslashesUpTo(s, n - 1) + (if LoneBackslash(s, n - 1) then "\\\\" else [s[n - 1]])
  }

  /** `re.sub(r'(?<!\\)\\(?!["\\/bfnrt]|u[0-9a-fA-F]{4})', r'\\\\', s)`: a lone
      backslash is doubled. */
  function FixBackslashes(s: string): string {
    FixBackslashesUpTo(s, |s|)
  }

  /** Only backslashes are added: the other characters are kept, in order. */
  lemma FixBackslashesKeepsText(s: string)
    ensures Without(FixBackslashes(s), '\\') == Without(s, '\\')
  {
    FixKeepsTextUpTo(s, |s|);
    assert s[..|s|] == s;
  }

  lemma {:induction false} FixKeepsTextUpTo(s: string, n: nat)
    requires n <= |s|
    ensures Without(FixBackslashesUpTo(s, n), '\\') == Without(s[..n], '\\')
  {
    if n > 0 {
      FixKeepsTextUpTo(s, n - 1);
      FixStepKeepsText(s, n);
    }
  }

  lemma FixStepKeepsText(s: string, n: nat)
    requires 0 < n <= |s|
    requires Without(FixBackslashesUpTo(s, n - 1), '\\') == Without(s[..n - 1], '\\')
    ensures Without(FixBackslashesUpTo(s, n), '\\') == Without(s[..n], '\\')
  {
    var x := s[n - 1];
    var tail := if LoneBackslash(s, n - 1) then "\\\\" else [x];
    RewriteKeepsText(x, LoneBackslash(s, n - 1));
    TakeSnoc(s, n);
    WithoutConcat(FixBackslashesUpTo(s, n - 1), tail, s[..n - 1], [x], '\\');
  }

  /** The replacement of one character has the same non-backslash text. */
  lemma RewriteKeepsText(x: char, lone: bool)
    requires lone ==> x == '\\'
    ensures Without(if lone then "\\\\" else [x], '\\') == Without([x], '\\')
  {
    WithoutSingle(x, '\\');
    if lone {
      assert "\\\\" == ['\\'] + ['\\'];
      WithoutAppend(['\\'], ['\\'], '\\');
    }
  }

  /** The rewrite leaves the text alone exactly when it holds no lone backslash. */
  lemma FixBackslashesIdentity(s: string)
    ensures FixBackslashes(s) == s <==> forall i :: 0 <= i < |s| ==> !LoneBackslash(s, i)
  {
    if forall i :: 0 <= i < |s| ==> !LoneBackslash(s, i) {
      FixIdentityUpTo(s, |s|);
      assert s[..|s|] == s;
    } else {
      var i :| 0 <= i < |s| && LoneBackslash(s, i);
      FixGrows(s, |s|, i);
    }
  }

  lemma {:induction false} FixIdentityUpTo(s: string, n: nat)
    requires n <= |s|
    requires forall i :: 0 <= i < |s| ==> !LoneBackslash(s, i)
    ensures FixBackslashesUpTo(s, n) == s[..n]
  {
    if n > 0 {
      FixIdentityUpTo(s, n - 1);
      assert s[..n] == s[..n - 1] + [s[n - 1]];
    }
  }

  lemma {:induction false} FixGrows(s: string, n: nat, i: nat)
    requires i < n <= |s| && LoneBackslash(s, i)
    ensures |FixBackslashesUpTo(s, n)| > n
  {
    if i < n - 1 {
      FixGrows(s, n - 1, i);
    }
  }

  /** One round of `s.rstrip().rstrip('}').rstrip()`. */
  function TrimCloserRound(s: string): (r: string)
    ensures PrefixOf(r, s)
    ensures forall i :: |r| <= i < |s| ==> s[i] == '}' || IsSpace(s[i])
  {
    var a := RStrip(s);
    var b := RStripChar(a, '}');
    var c := RStrip(b);
    assert forall i :: |c| <= i < |s| ==>
      (|b| <= i < |a| ==> s[i] == a[i]) && (|c| <= i < |b| ==> s[i] == b[i]);
    c
  }

  /** The `for _ in range(times)` loop of rounds. */
  function TrimClosers(s: string, times: nat): (r: string)
    ensures PrefixOf(r, s)
    ensures forall i :: |r| <= i < |s| ==> s[i] == '}' || IsSpace(s[i])
    decreases times
  {
    if times == 0 then s
    else
      var t := TrimCloserRound(s);
      var r := TrimClosers(t, times - 1);
      assert forall i :: |r| <= i < |t| ==> s[i] == t[i];
      r
  }

  /** A string with no `c` counts no `c`. */
  lemma {:induction false} CountAbsent(t: string, c: char)
    requires forall i :: 0 <= i < |t| ==> t[i] != c
    ensures CountChar(t, c) == 0
  {
    if |t| > 0 {
      CountAbsent(t[..|t| - 1], c);
    }
  }

  /** `r` is `s` with closing braces appended, and its braces balance. */
  predicate ClosedUp(s: string, r: string) {
    && PrefixOf(s, r)
    && (forall i :: |s| <= i < |r| ==> r[i] == '}')
    && CountChar(r, '{') == CountChar(r, '}')
  }

  /** `r` is `s` with a tail of `}` and whitespace removed, every `{` kept. */
  predicate TrimmedDown(s: string, r: string) {
    && PrefixOf(r, s)
    && (forall i :: |r| <= i < |s| ==> s[i] == '}' || IsSpace(s[i]))
    && CountChar(r, '{') == CountChar(s, '{')
  }

  /** The brace balancing of `repair_json`: with `d` more `{` than `}`, `d` closing
      braces are appended and the counts become equal; with more `}` than `{`,
      `-d` rounds trim trailing `}` and whitespace, which never removes a `{`. */
  function BalanceBraces(s: string): (r: string)
    ensures CountChar(s, '{') >= CountChar(s, '}') ==> ClosedUp(s, r)
    ensures CountChar(s, '{') < CountChar(s, '}') ==> TrimmedDown(s, r)
  {
    var d := CountChar(s, '{') - CountChar(s, '}');
    if d > 0 then
      ClosersBalance(s, d);
      s + Repeat('}', d)
    else if d < 0 then
      TrimKeepsOpen(s, -d);
      TrimClosers(s, -d)
    else
      assert ClosedUp(s, s);
      s
  }

  lemma ClosersBalance(s: string, d: nat)
    requires d == CountChar(s, '{') - CountChar(s, '}')
    ensures ClosedUp(s, s + Repeat('}', d))
  {
    CountCharAppend(s, Repeat('}', d), '{');
    CountCharAppend(s, Repeat('}', d), '}');
    CountRepeat('}', '{', d);
    CountRepeat('}', '}', d);
  }

  lemma TrimKeepsOpen(s: string, times: nat)
    ensures TrimmedDown(s, TrimClosers(s, times))
  {
    var r := TrimClosers(s, times);
    assert s == r + s[|r|..];
    CountCharAppend(r, s[|r|..], '{');
    CountAbsent(s[|r|..], '{');
  }

  /** Where a `,\s*` starting at `k - 1` would be closed by `close`. */
  predicate ClosesAt(s: string, k: nat, close: char)
    requires k <= |s|
  {
    SkipSpace(s, k) < |s| && s[SkipSpace(s, k)] == close
  }

  /** `re.sub(r',\s*}', '}', s)` (with `close` as `}`) and `re.sub(r',\s*]', ']', s)`
      (with `close` as `]`). The closer is not whitespace, so the greedy `\s*` never
      backtracks: a comma matches exactly when the first non-space character after
      it is the closer. */
  function DropTrailingCommas(s: string, close: char): (r: string)
    requires close == '}' || close == ']'
    ensures |r| <= |s|
    decreases |s|
  {
    if |s| == 0 then []
    else if s[0] == ',' && ClosesAt(s, 1, close) then
      [close] + DropTrailingCommas(s[SkipSpace(s, 1) + 1..], close)
    else [s[0]] + DropTrailingCommas(s[1..], close)
  }

  /** A comma whose next non-space character is the closer. */
  predicate TrailingComma(s: string, close: char) {
    exists i :: 0 <= i < |s| && s[i] == ',' && ClosesAt(s, i + 1, close)
  }

  /** The characters that are neither commas nor whitespace. */
  function Solid(s: string): string {
    if |s| == 0 then []
    else (if s[0] == ',' || IsSpace(s[0]) then [] else [s[0]]) + Solid(s[1..])
  }

  lemma {:induction false} SolidSkip(s: string, j: nat)
    requires j <= |s|
    requires forall k :: 0 <= k < j ==> s[k] == ',' || IsSpace(s[k])
    ensures Solid(s) == Solid(s[j..])
  {
    if j > 0 {
      SolidSkip(s[1..], j - 1);
      assert s[1..][j - 1..] == s[j..];
    }
  }

  lemma {:induction false} SkipSpaceShift(s: string, k: nat)
    requires 1 <= k <= |s|
    ensures SkipSpace(s[1..], k - 1) == SkipSpace(s, k) - 1
    decreases |s| - k
  {
    if k < |s| && IsSpace(s[k]) {
      SkipSpaceShift(s, k + 1);
    }
  }

  lemma SolidCons(x: char, t: string)
    ensures Solid([x] + t) == (if x == ',' || IsSpace(x) then [] else [x]) + Solid(t)
  {
    assert ([x] + t)[1..] == t;
  }

  /** Only commas and whitespace are removed: everything else is kept in order. */
  lemma {:induction false} DropTrailingCommasKeepsText(s: string, close: char)
    requires close == '}' || close == ']'
    ensures Solid(DropTrailingCommas(s, close)) == Solid(s)
    decreases |s|
  {
    if |s| > 0 {
      if s[0] == ',' && ClosesAt(s, 1, close) {
        var j := SkipSpace(s, 1);
        var rest := s[j + 1..];
        var out := DropTrailingCommas(rest, close);
        DropTrailingCommasKeepsText(rest, close);
        assert DropTrailingCommas(s, close) == [close] + out;
        SolidCons(close, out);
        SolidSkip(s, j);
        assert s[j..] == [close] + rest;
        SolidCons(close, rest);
      } else {
        var out := DropTrailingCommas(s[1..], close);
        DropTrailingCommasKeepsText(s[1..], close);
        assert DropTrailingCommas(s, close) == [s[0]] + out;
        SolidCons(s[0], out);
      }
    }
  }

  lemma ClosesAtShift(s: string, k: nat, close: char)
    requires 1 <= k <= |s|
    ensures ClosesAt(s[1..], k - 1, close) <==> ClosesAt(s, k, close)
  {
    SkipSpaceShift(s, k);
    var j := SkipSpace(s, k);
    if j < |s| {
      assert s[1..][j - 1] == s[j];
    }
  }

  /** A trailing comma of `s[1..]` is one of `s`. */
  lemma TrailingCommaTail(s: string, close: char)
    requires |s| > 0
    ensures TrailingComma(s[1..], close) ==> TrailingComma(s, close)
  {
    var t := s[1..];
    if TrailingComma(t, close) {
      var i :| 0 <= i < |t| && t[i] == ',' && ClosesAt(t, i + 1, close);
      ClosesAtShift(s, i + 2, close);
      assert s[i + 1] == ',';
    }
  }

  /** A trailing comma of `s` other than at its head is one of `s[1..]`. */
  lemma TrailingCommaHead(s: string, close: char)
    requires |s| > 0 && !(s[0] == ',' && ClosesAt(s, 1, close))
    ensures TrailingComma(s, close) ==> TrailingComma(s[1..], close)
  {
    var t := s[1..];
    if TrailingComma(s, close) {
      var i :| 0 <= i < |s| && s[i] == ',' && ClosesAt(s, i + 1, close);
      assert i > 0;
      ClosesAtShift(s, i + 1, close);
      assert t[i - 1] == ',';
    }
  }

  /** The rewrite changes the text exactly when some comma is followed, after
      optional whitespace, by the closer. */
  lemma {:induction false} DropTrailingCommasIdentity(s: string, close: char)
    requires close == '}' || close == ']'
    ensures DropTrailingCommas(s, close) == s <==> !TrailingComma(s, close)
    decreases |s|
  {
    if |s| > 0 {
      if s[0] == ',' && ClosesAt(s, 1, close) {
        assert TrailingComma(s, close);
        var rest := s[SkipSpace(s, 1) + 1..];
        assert DropTrailingCommas(s, close) == [close] + DropTrailingCommas(rest, close);
        assert |DropTrailingCommas(s, close)| < |s|;
      } else {
        var t := s[1..];
        TrailingCommaTail(s, close);
        TrailingCommaHead(s, close);
        DropTrailingCommasIdentity(t, close);
        assert DropTrailingCommas(s, close) == [s[0]] + DropTrailingCommas(t, close);
        assert s == [s[0]] + t;
      }
    }
  }

  /** `re.sub(r'([a-zA-Z0-9_]+):', r'"\1":', s)`. A run of word characters followed
      by a colon is quoted. A run not followed by a colon matches at none of its
      positions (the greedy run always ends before the same non-colon), so the scan
      resumes after it. */
  function QuoteKeys(s: string): string
    decreases |s|
  {
    if |s| == 0 then []
    else if IsWordChar(s[0]) then
      var j := WordRunEnd(s, 0);
      if j < |s| && s[j] == ':' then "\"" + s[..j] + "\":" + QuoteKeys(s[j + 1..])
      else s[..j] + QuoteKeys(s[j..])
    else [s[0]] + QuoteKeys(s[1..])
  }

  /** A colon right after a word character. */
  predicate BareKey(s: string) {
    exists i :: 0 < i < |s| && s[i] == ':' && IsWordChar(s[i - 1])
  }

  lemma WithoutQuotedKey(w: string)
    ensures Without("\"" + w + "\":", '"') == Without(w, '"') + ":"
  {
    WithoutAppend("\"" + w, "\":", '"');
    WithoutAppend("\"", w, '"');
    WithoutSingle('"', '"');
    WithoutQuoteColon();
  }

  lemma WithoutQuoteColon()
    ensures Without("\":", '"') == ":"
  {
    assert "\":"[..1] == "\"";
    WithoutSingle('"', '"');
  }

  /** Only double quotes are added: the other characters are kept, in order. */
  lemma {:induction false} QuoteKeysKeepsText(s: string)
    ensures Without(QuoteKeys(s), '"') == Without(s, '"')
    decreases |s|
  {
    if |s| > 0 {
      if IsWordChar(s[0]) {
        var j := WordRunEnd(s, 0);
        if j < |s| && s[j] == ':' {
          QuoteKeysKeepsText(s[j + 1..]);
          QuotedKeyKeepsText(s, j, QuoteKeys(s[j + 1..]));
        } else {
          QuoteKeysKeepsText(s[j..]);
          KeptPrefixKeepsText(s, j, QuoteKeys(s[j..]));
        }
      } else {
        QuoteKeysKeepsText(s[1..]);
        KeptPrefixKeepsText(s, 1, QuoteKeys(s[1..]));
        assert [s[0]] == s[..1];
      }
    }
  }

  /** Quoting the key before the colon at `j` keeps the text. */
  lemma QuotedKeyKeepsText(s: string, j: nat, q: string)
    requires j < |s| && s[j] == ':'
    requires Without(q, '"') == Without(s[j + 1..], '"')
    ensures Without("\"" + s[..j] + "\":" + q, '"') == Without(s, '"')
  {
    var w := s[..j];
    assert Without("\"" + w + "\":", '"') == Without(w + ":", '"') by {
      WithoutQuotedKey(w);
      WithoutAppend(w, ":", '"');
      WithoutSingle(':', '"');
    }
    SplitAt(s, j);
    WithoutConcat("\"" + w + "\":", q, w + ":", s[j + 1..], '"');
  }

  /** Copying the first `j` characters unchanged keeps the text. */
  lemma KeptPrefixKeepsText(s: string, j: nat, q: string)
    requires j <= |s|
    requires Without(q, '"') == Without(s[j..], '"')
    ensures Without(s[..j] + q, '"') == Without(s, '"')
  {
    assert s == s[..j] + s[j..];
    WithoutConcat(s[..j], q, s[..j], s[j..], '"');
  }

  /** The rewrite changes the text exactly when some colon follows a word character. */
  lemma {:induction false} QuoteKeysIdentity(s: string)
    ensures QuoteKeys(s) == s <==> !BareKey(s)
    decreases |s|
  {
    if |s| > 0 {
      if IsWordChar(s[0]) {
        var j := WordRunEnd(s, 0);
        if j < |s| && s[j] == ':' {
          assert j > 0 && IsWordChar(s[j - 1]);
          assert BareKey(s);
          QuoteKeysLength(s[j + 1..]);
        } else {
          QuoteKeysIdentity(s[j..]);
          BareKeyDrop(s, j);
          KeptPrefixIdentity(s, j, QuoteKeys(s[j..]));
        }
      } else {
        QuoteKeysIdentity(s[1..]);
        BareKeyDrop(s, 1);
        assert [s[0]] == s[..1];
        KeptPrefixIdentity(s, 1, QuoteKeys(s[1..]));
      }
    }
  }

  /** No colon after a word character at or before `j`: the bare keys of `s` are
      those after `j`. */
  lemma BareKeyDrop(s: string, j: nat)
    requires 0 < j <= |s|
    requires forall i :: 0 < i <= j && i < |s| ==> !(s[i] == ':' && IsWordChar(s[i - 1]))
    ensures BareKey(s) <==> BareKey(s[j..])
  {
    var t := s[j..];
    if BareKey(s) {
      var i :| 0 < i < |s| && s[i] == ':' && IsWordChar(s[i - 1]);
      assert t[i - j] == ':' && IsWordChar(t[i - j - 1]);
    }
    if BareKey(t) {
      var i :| 0 < i < |t| && t[i] == ':' && IsWordChar(t[i - 1]);
      assert s[i + j] == ':' && IsWordChar(s[i + j - 1]);
    }
  }

  /** With the first `j` characters copied, the text is unchanged exactly when
      the rewrite of the rest is. */
  lemma KeptPrefixIdentity(s: string, j: nat, q: string)
    requires j <= |s|
    ensures s[..j] + q == s <==> q == s[j..]
  {
    if s[..j] + q == s {
      assert forall k :: 0 <= k < |q| ==> q[k] == (s[..j] + q)[j + k];
    }
  }

  lemma {:induction false} QuoteKeysLength(s: string)
    ensures |QuoteKeys(s)| >= |s|
    decreases |s|
  {
    if |s| > 0 {
      if IsWordChar(s[0]) {
        var j := WordRunEnd(s, 0);
        if j < |s| && s[j] == ':' {
          QuoteKeysLength(s[j + 1..]);
        } else {
          QuoteKeysLength(s[j..]);
        }
      } else {
        QuoteKeysLength(s[1..]);
      }
    }
  }

  // ---------------------------------------------------------------------------
  // Braces survive every rewrite.

  lemma {:induction false} CountSolid(s: string, d: char)
    requires d != ',' && !IsSpace(d)
    ensures CountChar(Solid(s), d) == CountChar(s, d)
  {
    if |s| > 0 {
      CountSolid(s[1..], d);
      var h := if s[0] == ',' || IsSpace(s[0]) then [] else [s[0]];
      CountCharAppend(h, Solid(s[1..]), d);
      CountCharAppend([s[0]], s[1..], d);
      assert s == [s[0]] + s[1..];
      assert [s[0]][..0] == [];
    }
  }

  /** A brace is neither a comma, whitespace, a quote nor a backslash, so every
      rewrite keeps the count of each brace. */
  lemma RewritesKeepBraces(s: string, close: char, b: char)
    requires close == '}' || close == ']'
    requires b == '{' || b == '}'
    ensures CountChar(FixBackslashes(s), b) == CountChar(s, b)
    ensures CountChar(StripControl(s), b) == CountChar(s, b)
    ensures CountChar(DropTrailingCommas(s, close), b) == CountChar(s, b)
    ensures CountChar(QuoteKeys(s), b) == CountChar(s, b)
  {
    FixBackslashesKeepsText(s);
    CountAlike(FixBackslashes(s), s, '\\', b);
    StripControlCounts(s, b);
    DropTrailingCommasKeepsText(s, close);
    CountSolid(DropTrailingCommas(s, close), b);
    CountSolid(s, b);
    QuoteKeysKeepsText(s);
    CountAlike(QuoteKeys(s), s, '"', b);
  }
}
