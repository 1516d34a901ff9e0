/** Python `str` primitives the modelled code leans on: whitespace as `str.isspace`
    defines it, `strip`/`rstrip`, `find`, `replace`, `count`, and decimal conversion. */
module Strings {
  import opened Wrappers

  /** Python's `str.isspace` (and the `\s` class of a `str` regex). */
  predicate IsSpace(c: char) {
    var n := c as int;
    || (0x09 <= n <= 0x0D) || (0x1C <= n <= 0x20)
    || n == 0x85 || n == 0xA0 || n == 0x1680
    || (0x2000 <= n <= 0x200A)
    || n == 0x2028 || n == 0x2029 || n == 0x202F || n == 0x205F || n == 0x3000
  }

  predicate IsDigit(c: char) { '0' <= c <= '9' }

  predicate IsAsciiLetter(c: char) { ('a' <= c <= 'z') || ('A' <= c <= 'Z') }

  /** `[a-zA-Z0-9_]`, the key class of the property-name repair. */
  predicate IsWordChar(c: char) { IsAsciiLetter(c) || IsDigit(c) || c == '_' }

  predicate AllSpace(s: string) {
    forall i :: 0 <= i < |s| ==> IsSpace(s[i])
  }

  predicate AllDigits(s: string) {
    forall i :: 0 <= i < |s| ==> IsDigit(s[i])
  }

  /** Where `s.strip()` begins: the end of the leading whitespace. */
  function StripStart(s: string): (i: nat)
    ensures i <= |s| && AllSpace(s[..i])
    ensures i == |s| || !IsSpace(s[i])
  {
    var i := SkipSpace(s, 0);
    assert forall k :: 0 <= k < i ==> s[..i][k] == s[k];
    i
  }

  /** The start of the run of whitespace that ends at `j`, not reaching below `lo`. */
  function TrailStart(s: string, lo: nat, j: nat): (k: nat)
    requires lo <= j <= |s|
    ensures lo <= k <= j
    ensures forall m :: k <= m < j ==> IsSpace(s[m])
    ensures k == lo || !IsSpace(s[k - 1])
    decreases j
  {
    if j > lo && IsSpace(s[j - 1]) then TrailStart(s, lo, j - 1) else j
  }

  /** `s.rstrip()`: `s` without its trailing whitespace. */
  function RStrip(s: string): (r: string)
    ensures |r| <= |s| && r == s[..|r|]
    ensures forall i :: |r| <= i < |s| ==> IsSpace(s[i])
    ensures r == [] || !IsSpace(r[|r| - 1])
  {
    s[..TrailStart(s, 0, |s|)]
  }

  /** Where `s.strip()` ends: the start of the trailing whitespace. */
  function StripEnd(s: string): (j: nat)
    ensures StripStart(s) <= j <= |s| && AllSpace(s[j..])
    ensures j == StripStart(s) || !IsSpace(s[j - 1])
  {
    var j := TrailStart(s, StripStart(s), |s|);
    assert forall k :: 0 <= k < |s| - j ==> s[j..][k] == s[j + k];
    j
  }

  /** `s.strip()`: the slice of `s` between its leading and its trailing
      whitespace, which starts and ends with a non-space character. */
  function Strip(s: string): (r: string)
    ensures |r| == StripEnd(s) - StripStart(s)
    ensures forall k :: 0 <= k < |r| ==> r[k] == s[StripStart(s) + k]
    ensures r == [] || (!IsSpace(r[0]) && !IsSpace(r[|r| - 1]))
  {
    s[StripStart(s)..StripEnd(s)]
  }

  /** `s.rstrip(c)` for a single character `c`. */
  function RStripChar(s: string, c: char): (r: string)
    ensures |r| <= |s| && r == s[..|r|]
    ensures forall i :: |r| <= i < |s| ==> s[i] == c
    ensures r == [] || r[|r| - 1] != c
  {
    if |s| > 0 && s[|s| - 1] == c then RStripChar(s[..|s| - 1], c) else s
  }

  /** A prefix one longer is the shorter prefix and one more element. */
  lemma Assoc3<T>(a: seq<T>, b: seq<T>, c: seq<T>)
    ensures a + (b + c) == a + b + c
  {
  }

  lemma ConcatParts<T>(a: seq<T>, m: seq<T>, b: seq<T>)
    ensures var s := a + m + b;
      s[0..|a|] == a && s[|a|..|a| + |m|] == m && s[|a| + |m|..|s|] == b
  {
  }

  lemma TakeSnoc<T>(s: seq<T>, n: nat)
    requires 0 < n <= |s|
    ensures s[..n] == s[..n - 1] + [s[n - 1]]
  {
  }

  /** A sequence is what precedes index `j`, the element there, and what follows. */
  lemma SplitAt<T>(s: seq<T>, j: nat)
    requires j < |s|
    ensures s == s[..j] + [s[j]] + s[j + 1..]
  {
  }

  /** `p` occurs in `s` starting at index `i`. */
  predicate StartsAt(s: string, i: nat, p: string) {
    i + |p| <= |s| && s[i..i + |p|] == p
  }

  /** `p in s` */
  predicate Contains(s: string, p: string) {
    exists i: nat :: i <= |s| && StartsAt(s, i, p)
  }

  /** `s.find(p, from)`, as an option. */
  function FindFrom(s: string, p: string, from: nat): (r: Option<nat>)
    requires |p| > 0
    ensures r.Some? ==> from <= r.value && StartsAt(s, r.value, p)
    ensures r.Some? ==> forall j: nat :: from <= j < r.value ==> !StartsAt(s, j, p)
    ensures r.None? ==> forall j: nat :: from <= j ==> !StartsAt(s, j, p)
    decreases |s| - from
  {
    if from + |p| > |s| then None
    else if s[from..from + |p|] == p then Some(from)
    else FindFrom(s, p, from + 1)
  }

  function Find(s: string, p: string): (r: Option<nat>)
    requires |p| > 0
    ensures r.Some? <==> Contains(s, p)
    ensures r.Some? ==> StartsAt(s, r.value, p) && forall j: nat :: j < r.value ==> !StartsAt(s, j, p)
  {
    FindFrom(s, p, 0)
  }

  /** The first occurrence is the one with none before it. */
  lemma FindIs(s: string, p: string, i: nat)
    requires |p| > 0 && StartsAt(s, i, p)
    requires forall j: nat :: j < i ==> !StartsAt(s, j, p)
    ensures Find(s, p) == Some(i)
  {
  }

  /** No occurrence from `from` on. */
  lemma FindFromNone(s: string, p: string, from: nat)
    requires |p| > 0
    requires forall j: nat :: from <= j < |s| ==> !StartsAt(s, j, p)
    ensures FindFrom(s, p, from) == None
  {
  }

  /** `a` is a prefix of `b`. */
  predicate PrefixOf(a: string, b: string) {
    |a| <= |b| && b[..|a|] == a
  }

  lemma StartsAtAfter(s: string, k: nat, i: nat, q: string)
    requires k <= |s|
    ensures StartsAt(s[k..], i, q) <==> StartsAt(s, k + i, q)
  {
    if k + i + |q| <= |s| {
      assert s[k..][i..i + |q|] == s[k + i..k + i + |q|];
    }
  }

  lemma TailExcludes(q: string, c: char)
    requires |q| > 0 && c !in q
    ensures c !in q[1..]
  {
    forall j | 0 <= j < |q[1..]| ensures q[1..][j] != c {
      assert q[1..][j] == q[j + 1];
    }
  }

  /** `s.replace(p, r)` for a non-empty pattern: left to right, non-overlapping. */
  function ReplaceAll(s: string, p: string, r: string): string
    requires |p| > 0
  {
    if |s| < |p| then s
    else if s[..|p|] == p then r + ReplaceAll(s[|p|..], p, r)
    else [s[0]] + ReplaceAll(s[1..], p, r)
  }

  /** A prefix free of `c` of `ReplaceAll(x, p, [c])` is a prefix of `x` itself. */
  lemma {:induction false} ReplacePrefixBack(x: string, p: string, c: char, q: string)
    requires |p| > 0 && c !in q
    ensures PrefixOf(q, ReplaceAll(x, p, [c])) ==> PrefixOf(q, x)
  {
    if |q| == 0 || |x| < |p| {
    } else if x[..|p|] == p {
      assert ReplaceAll(x, p, [c])[0] == c;
      assert q[0] in q;
    } else {
      var t := ReplaceAll(x[1..], p, [c]);
      assert ReplaceAll(x, p, [c]) == [x[0]] + t;
      TailExcludes(q, c);
      ReplacePrefixBack(x[1..], p, c, q[1..]);
      if PrefixOf(q, ReplaceAll(x, p, [c])) {
        assert t[..|q| - 1] == q[1..];
        assert x[..|q|] == [x[0]] + x[1..][..|q| - 1];
      }
    }
  }

  /** Replacing `p` by a single character foreign to `p` leaves no occurrence of `p`. */
  lemma {:induction false} ReplaceAllRemoves(s: string, p: string, c: char)
    requires |p| > 0 && c !in p
    ensures !Contains(ReplaceAll(s, p, [c]), p)
  {
    var out := ReplaceAll(s, p, [c]);
    if |s| < |p| {
      forall i: nat | i <= |out| ensures !StartsAt(out, i, p) {
      }
    } else if s[..|p|] == p {
      var t := ReplaceAll(s[|p|..], p, [c]);
      ReplaceAllRemoves(s[|p|..], p, c);
      assert out == [c] + t;
      assert out[1..] == t;
      forall i: nat | i <= |out| ensures !StartsAt(out, i, p) {
        if i == 0 {
          assert p[0] in p;
        } else {
          StartsAtAfter(out, 1, i - 1, p);
        }
      }
    } else {
      var t := ReplaceAll(s[1..], p, [c]);
      ReplaceAllRemoves(s[1..], p, c);
      assert out == [s[0]] + t;
      assert out[1..] == t;
      forall i: nat | i <= |out| ensures !StartsAt(out, i, p) {
        if i == 0 {
          TailExcludes(p, c);
          ReplacePrefixBack(s[1..], p, c, p[1..]);
          if |p| <= |out| {
            assert out[..|p|] == [s[0]] + t[..|p| - 1];
            assert s[..|p|] == [s[0]] + s[1..][..|p| - 1];
          }
        } else {
          StartsAtAfter(out, 1, i - 1, p);
        }
      }
    }
  }

  /** Replacing `p` by a character foreign to `q` creates no new occurrence of `q`. */
  lemma {:induction false} ReplaceAllKeepsAbsent(s: string, p: string, c: char, q: string)
    requires |p| > 0 && |q| > 0 && c !in q
    requires !Contains(s, q)
    ensures !Contains(ReplaceAll(s, p, [c]), q)
  {
    var out := ReplaceAll(s, p, [c]);
    if |s| < |p| {
      assert out == s;
    } else {
      var k: nat := if s[..|p|] == p then |p| else 1;
      var rest := s[k..];
      forall i: nat | i <= |rest| ensures !StartsAt(rest, i, q) {
        StartsAtAfter(s, k, i, q);
      }
      var t := ReplaceAll(rest, p, [c]);
      ReplaceAllKeepsAbsent(rest, p, c, q);
      var head := if s[..|p|] == p then c else s[0];
      assert out == [head] + t;
      assert out[1..] == t;
      forall i: nat | i <= |out| ensures !StartsAt(out, i, q) {
        if i == 0 {
          if s[..|p|] == p {
            assert q[0] in q;
          } else {
            TailExcludes(q, c);
            ReplacePrefixBack(rest, p, c, q[1..]);
            if |q| <= |out| {
              assert out[..|q|] == [s[0]] + t[..|q| - 1];
              if PrefixOf(q[1..], rest) {
                assert s[..|q|] == [s[0]] + rest[..|q| - 1];
              }
            }
            assert !StartsAt(s, 0, q);
          }
        } else {
          StartsAtAfter(out, 1, i - 1, q);
        }
      }
    }
  }

  /** Without an occurrence of `p` the replacement changes nothing. */
  lemma {:induction false} ReplaceAllAbsent(s: string, p: string, r: string)
    requires |p| > 0 && !Contains(s, p)
    ensures ReplaceAll(s, p, r) == s
  {
    if |s| >= |p| {
      assert !StartsAt(s, 0, p);
      forall i: nat | i <= |s[1..]| ensures !StartsAt(s[1..], i, p) {
        StartsAtAfter(s, 1, i, p);
      }
      ReplaceAllAbsent(s[1..], p, r);
      assert s == [s[0]] + s[1..];
    }
  }

  /** An occurrence inside a slice is an occurrence in the whole text. */
  lemma ContainsSlice(s: string, lo: nat, hi: nat, p: string)
    requires lo <= hi <= |s|
    ensures Contains(s[lo..hi], p) ==> Contains(s, p)
  {
    if Contains(s[lo..hi], p) {
      var i: nat :| i <= |s[lo..hi]| && StartsAt(s[lo..hi], i, p);
      assert i + |p| <= hi - lo;
      forall m | 0 <= m < |p| ensures s[lo + i + m] == p[m] {
        assert s[lo..hi][i..i + |p|][m] == p[m];
      }
      assert s[lo + i..lo + i + |p|] == p;
      assert StartsAt(s, lo + i, p);
    }
  }

  /** The end of the run of whitespace starting at `i` (greedy `\s*`). */
  function SkipSpace(s: string, i: nat): (j: nat)
    requires i <= |s|
    ensures i <= j <= |s| && (j == |s| || !IsSpace(s[j]))
    ensures forall k :: i <= k < j ==> IsSpace(s[k])
    decreases |s| - i
  {
    if i < |s| && IsSpace(s[i]) then SkipSpace(s, i + 1) else i
  }

  /** The end of the run of ASCII digits starting at `i` (greedy `[0-9]*`). */
  function DigitRunEnd(s: string, i: nat): (j: nat)
    requires i <= |s|
    ensures i <= j <= |s| && (j == |s| || !IsDigit(s[j]))
    ensures forall k :: i <= k < j ==> IsDigit(s[k])
    decreases |s| - i
  {
    if i < |s| && IsDigit(s[i]) then DigitRunEnd(s, i + 1) else i
  }

  /** The end of the run of `[a-zA-Z0-9_]` characters starting at `i`. */
  function WordRunEnd(s: string, i: nat): (j: nat)
    requires i <= |s|
    ensures i <= j <= |s| && (j == |s| || !IsWordChar(s[j]))
    ensures forall k :: i <= k < j ==> IsWordChar(s[k])
    decreases |s| - i
  {
    if i < |s| && IsWordChar(s[i]) then WordRunEnd(s, i + 1) else i
  }

  /** `s` with every occurrence of `c` removed. */
  function Without(s: string, c: char): (r: string)
    ensures c !in r && |r| <= |s|
  {
    if |s| == 0 then []
    else Without(s[..|s| - 1], c) + (if s[|s| - 1] == c then [] else [s[|s| - 1]])
  }

  lemma {:induction false} WithoutAppend(s: string, t: string, c: char)
    ensures Without(s + t, c) == Without(s, c) + Without(t, c)
    decreases |t|
  {
    if |t| == 0 {
      assert s + t == s;
    } else {
      assert (s + t)[..|s + t| - 1] == s + t[..|t| - 1];
      WithoutAppend(s, t[..|t| - 1], c);
    }
  }

  lemma WithoutConcat(a: string, b: string, a': string, b': string, c: char)
    requires Without(a, c) == Without(a', c) && Without(b, c) == Without(b', c)
    ensures Without(a + b, c) == Without(a' + b', c)
  {
    WithoutAppend(a, b, c);
    WithoutAppend(a', b', c);
  }

  lemma WithoutSingle(x: char, c: char)
    ensures Without([x], c) == if x == c then [] else [x]
  {
    assert [x][..0] == [];
  }

  /** Removing a character that does not occur changes nothing, and only then. */
  lemma {:induction false} WithoutAbsent(s: string, c: char)
    ensures Without(s, c) == s <==> c !in s
  {
    if |s| > 0 {
      var n := |s| - 1;
      assert s == s[..n] + [s[n]];
      WithoutAbsent(s[..n], c);
      if c !in s {
        assert c !in s[..n];
      } else if Without(s, c) == s {
        assert false;
      }
    }
  }

  /** `s.count(c)` for a single character. */
  function CountChar(s: string, c: char): (n: nat)
    ensures n <= |s|
  {
    if |s| == 0 then 0 else CountChar(s[..|s| - 1], c) + (if s[|s| - 1] == c then 1 else 0)
  }

  lemma {:induction false} CountCharAppend(s: string, t: string, c: char)
    ensures CountChar(s + t, c) == CountChar(s, c) + CountChar(t, c)
    decreases |t|
  {
    if |t| == 0 {
      assert s + t == s;
    } else {
      assert (s + t)[..|s + t| - 1] == s + t[..|t| - 1];
      CountCharAppend(s, t[..|t| - 1], c);
    }
  }

  /** Removing `c` leaves the count of every other character unchanged. */
  lemma {:induction false} CountWithout(s: string, c: char, d: char)
    requires c != d
    ensures CountChar(Without(s, c), d) == CountChar(s, d)
  {
    if |s| > 0 {
      var n := |s| - 1;
      CountWithout(s[..n], c, d);
      CountCharAppend(Without(s[..n], c), if s[n] == c then [] else [s[n]], d);
      assert [s[n]][..0] == [];
    }
  }

  /** Texts equal up to `c` agree on the count of every other character. */
  lemma CountAlike(a: string, b: string, c: char, d: char)
    requires c != d && Without(a, c) == Without(b, c)
    ensures CountChar(a, d) == CountChar(b, d)
  {
    CountWithout(a, c, d);
    CountWithout(b, c, d);
  }

  /** A character repeated `n` times (`c * n` in Python). */
  function Repeat(c: char, n: nat): (r: string)
    ensures |r| == n && forall i :: 0 <= i < n ==> r[i] == c
  {
    if n == 0 then [] else Repeat(c, n - 1) + [c]
  }

  lemma {:induction false} CountRepeat(c: char, d: char, n: nat)
    ensures CountChar(Repeat(c, n), d) == if c == d then n else 0
  {
    if n > 0 {
      assert Repeat(c, n)[..n - 1] == Repeat(c, n - 1);
      CountRepeat(c, d, n - 1);
    }
  }

  function DigitChar(d: nat): (c: char)
    requires d < 10
    ensures IsDigit(c) && c as int - '0' as int == d
  {
    ('0' as int + d) as char
  }

  function DigitValue(c: char): (d: nat)
    requires IsDigit(c)
    ensures d < 10 && DigitChar(d) == c
  {
    (c as int - '0' as int)
  }

  /** `str(n)` for a natural number. */
  function NatToString(n: nat): (r: string)
    ensures |r| > 0 && AllDigits(r)
    ensures n > 0 ==> r[0] != '0'
  {
    if n < 10 then [DigitChar(n)] else NatToString(n / 10) + [DigitChar(n % 10)]
  }

  /** The value of a non-empty ASCII digit string, as `int()` reads it. */
  function DigitsValue(s: string): nat
    requires AllDigits(s)
  {
    if |s| == 0 then 0 else 10 * DigitsValue(s[..|s| - 1]) + DigitValue(s[|s| - 1])
  }

  /** `int(s)` restricted to plain ASCII digit strings; anything else raises. */
  function ParseNat(s: string): (r: Outcome<nat>)
    ensures r.Ok? <==> |s| > 0 && AllDigits(s)
  {
    if |s| > 0 && AllDigits(s) then Ok(DigitsValue(s)) else Raised(BadValue(s))
  }

  lemma {:induction false} ParseNatToString(n: nat)
    ensures ParseNat(NatToString(n)) == Ok(n)
  {
    var r := NatToString(n);
    if n >= 10 {
      ParseNatToString(n / 10);
      assert r[..|r| - 1] == NatToString(n / 10);
      assert DigitValue(r[|r| - 1]) == n % 10;
    } else {
      assert r == [DigitChar(n)];
      assert r[..0] == [] && DigitsValue(r[..0]) == 0;
      assert DigitsValue(r) == DigitValue(r[0]) == n;
    }
  }
}
