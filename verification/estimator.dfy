/** The two token estimators used to size translation batches.
    `CjkAware` charges four characters per token for most text and one and a half
    characters per token for Basic CJK Unified Ideographs; `Simple` charges four
    characters per token for everything. Both add one token "to round up". */
module Estimator {
  import opened Wrappers

  datatype Estimator = CjkAware | Simple

  /** The ideograph test of the CJK-aware estimator: both bounds are strict, so
      U+4E00 and U+9FFF themselves are counted as ordinary characters. */
  predicate IsCjk(c: char) {
    0x4E00 < c as int < 0x9FFF
  }

  /** The number of CJK characters of `s`. */
  function CjkCount(s: string): (n: nat)
    ensures n <= |s|
  {
    if |s| == 0 then 0
    else CjkCount(s[..|s| - 1]) + (if IsCjk(s[|s| - 1]) then 1 else 0)
  }

  lemma {:induction false} CjkCountAppend(s: string, t: string)
    ensures CjkCount(s + t) == CjkCount(s) + CjkCount(t)
    decreases |t|
  {
    if |t| == 0 {
      assert s + t == s;
    } else {
      assert (s + t)[..|s + t| - 1] == s + t[..|t| - 1];
      CjkCountAppend(s, t[..|t| - 1]);
    }
  }

  /** The counting loop of the estimator, one character at a time. */
  method CountCjk(s: string) returns (n: nat)
    ensures n == CjkCount(s)
  {
    n := 0;
    var i := 0;
    while i < |s|
      invariant i <= |s|
      invariant n == CjkCount(s[..i])
    {
      assert s[..i + 1][..i] == s[..i];
      if IsCjk(s[i]) {
        n := n + 1;
      }
      i := i + 1;
    }
    assert s[..i] == s;
  }

  /** `estimate_tokens` of the CJK-aware files. `None` costs nothing; otherwise the
      ordinary characters cost a quarter token each and the ideographs two thirds
      of a token each, both rounded down, plus one. */
  function EstimateCjk(t: Option<string>): (n: nat)
    ensures t.None? <==> n == 0
    ensures t.Some? ==> 1 <= n <= |t.value| + 1
  {
    match t
    case None => 0
    case Some(s) =>
      var cjk := CjkCount(s);
      (|s| - cjk) / 4 + (2 * cjk) / 3 + 1
  }

  /** `estimate_tokens` of the simple file: a quarter token per character plus one. */
  function EstimateSimple(t: Option<string>): (n: nat)
    ensures t.None? <==> n == 0
    ensures t.Some? ==> 1 <= n <= |t.value| + 1 && 4 * (n - 1) <= |t.value| < 4 * n
  {
    match t
    case None => 0
    case Some(s) => |s| / 4 + 1
  }

  function Est(e: Estimator, t: Option<string>): (n: nat)
    ensures t.None? <==> n == 0
  {
    match e
    case CjkAware => EstimateCjk(t)
    case Simple => EstimateSimple(t)
  }

  /** The two estimators agree on text without ideographs. */
  lemma EstimatorsAgreeWithoutCjk(s: string)
    requires forall i :: 0 <= i < |s| ==> !IsCjk(s[i])
    ensures EstimateCjk(Some(s)) == EstimateSimple(Some(s))
  {
    NoCjkCount(s);
  }

  lemma {:induction false} NoCjkCount(s: string)
    requires forall i :: 0 <= i < |s| ==> !IsCjk(s[i])
    ensures CjkCount(s) == 0
  {
    if |s| > 0 {
      NoCjkCount(s[..|s| - 1]);
    }
  }

  /** Text made only of ideographs costs two tokens per three characters, plus one. */
  lemma AllCjkEstimate(s: string)
    requires forall i :: 0 <= i < |s| ==> IsCjk(s[i])
    ensures EstimateCjk(Some(s)) == (2 * |s|) / 3 + 1
  {
    AllCjkCount(s);
  }

  lemma {:induction false} AllCjkCount(s: string)
    requires forall i :: 0 <= i < |s| ==> IsCjk(s[i])
    ensures CjkCount(s) == |s|
  {
    if |s| > 0 {
      AllCjkCount(s[..|s| - 1]);
    }
  }

  /** Appending text never lowers either estimate. */
  lemma EstimateMonotone(e: Estimator, s: string, t: string)
    ensures Est(e, Some(s)) <= Est(e, Some(s + t))
  {
    CjkCountAppend(s, t);
    var a, c := |s| - CjkCount(s), CjkCount(s);
    var a', c' := |s + t| - CjkCount(s + t), CjkCount(s + t);
    assert a <= a' && c <= c';
    assert a / 4 <= a' / 4;
    assert (2 * c) / 3 <= (2 * c') / 3;
  }

  /** The cost the packer charges for one key/value pair: both estimates plus ten
      tokens of JSON punctuation. */
  function ItemCost(e: Estimator, item: (string, string)): (n: nat)
    ensures n >= 12
  {
    Est(e, Some(item.0)) + Est(e, Some(item.1)) + 10
  }
}
