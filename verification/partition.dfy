/** `split_dict_into_smart_batches`: the items are stable-sorted by descending estimate
    of their value, then packed greedily into batches. A batch starts at the prompt's
    token count; an item that would push it over the budget closes it and opens a new
    one, unless the batch is still empty, so an oversized item travels alone. */
module Partition {
  import opened Wrappers
  import opened Dicts
  import opened Estimator

  type Item = (string, string)

  /** The sort key: the estimate of the value. */
  function Weight(e: Estimator, it: Item): nat {
    Est(e, Some(it.1))
  }

  predicate SortedDesc(e: Estimator, s: seq<Item>) {
    forall i, j :: 0 <= i < j < |s| ==> Weight(e, s[i]) >= Weight(e, s[j])
  }

  /** The items of `s` of weight `w`, in their order in `s`. */
  function OfWeight(e: Estimator, s: seq<Item>, w: nat): (r: seq<Item>)
    ensures |r| <= |s|
  {
    if |s| == 0 then []
    else (if Weight(e, s[0]) == w then [s[0]] else []) + OfWeight(e, s[1..], w)
  }

  /** Places `x` before the first element not heavier than it, so that `x` precedes
      every element of equal weight. */
  function Insert(e: Estimator, x: Item, s: seq<Item>): (r: seq<Item>)
    requires SortedDesc(e, s)
    ensures SortedDesc(e, r)
    ensures multiset(r) == multiset(s) + multiset{x}
    ensures |r| == |s| + 1
  {
    if |s| == 0 then [x]
    else if Weight(e, s[0]) <= Weight(e, x) then [x] + s
    else
      var t := Insert(e, x, s[1..]);
      InsertBehindHead(e, x, s, t);
      [s[0]] + t
  }

  /** `x` inserted into the tail of `s`, behind a heavier head, keeps the
      order and adds `x` to the multiset. */
  lemma InsertBehindHead(e: Estimator, x: Item, s: seq<Item>, t: seq<Item>)
    requires SortedDesc(e, s) && |s| > 0 && Weight(e, s[0]) > Weight(e, x)
    requires SortedDesc(e, t) && multiset(t) == multiset(s[1..]) + multiset{x}
    ensures SortedDesc(e, [s[0]] + t)
    ensures multiset([s[0]] + t) == multiset(s) + multiset{x}
  {
    assert s == [s[0]] + s[1..];
    HeadOutweighs(e, x, s, t);
    SortedCons(e, s[0], t);
  }

  /** The head of a sorted `s`, heavier than `x`, outweighs every element of
      the tail with `x` added. */
  lemma HeadOutweighs(e: Estimator, x: Item, s: seq<Item>, t: seq<Item>)
    requires SortedDesc(e, s) && |s| > 0 && Weight(e, s[0]) > Weight(e, x)
    requires multiset(t) == multiset(s[1..]) + multiset{x}
    ensures forall k :: 0 <= k < |t| ==> Weight(e, t[k]) <= Weight(e, s[0])
  {
    forall k | 0 <= k < |t| ensures Weight(e, t[k]) <= Weight(e, s[0]) {
      assert t[k] in multiset(t);
      if t[k] != x {
        assert t[k] in multiset(s[1..]);
        var i :| 0 <= i < |s[1..]| && s[1..][i] == t[k];
        assert s[i + 1] == t[k];
      }
    }
  }

  lemma SortedCons(e: Estimator, y: Item, t: seq<Item>)
    requires SortedDesc(e, t)
    requires forall k :: 0 <= k < |t| ==> Weight(e, t[k]) <= Weight(e, y)
    ensures SortedDesc(e, [y] + t)
  {
    var r := [y] + t;
    forall i, j | 0 <= i < j < |r| ensures Weight(e, r[i]) >= Weight(e, r[j]) {
      assert r[j] == t[j - 1];
      if i > 0 {
        assert r[i] == t[i - 1];
      }
    }
  }

  /** `items.sort(key=lambda x: estimate_tokens(x[1]), reverse=True)`; Python's sort
      keeps equal-key items in their original order even when reversed. */
  function Sort(e: Estimator, s: seq<Item>): (r: seq<Item>)
    ensures SortedDesc(e, r)
    ensures multiset(r) == multiset(s)
    ensures |r| == |s|
  {
    if |s| == 0 then []
    else
      assert s == [s[0]] + s[1..];
      Insert(e, s[0], Sort(e, s[1..]))
  }

  lemma {:induction false} InsertOfWeight(e: Estimator, x: Item, s: seq<Item>, w: nat)
    requires SortedDesc(e, s)
    ensures OfWeight(e, Insert(e, x, s), w)
         == (if Weight(e, x) == w then [x] else []) + OfWeight(e, s, w)
  {
    if |s| == 0 {
    } else if Weight(e, s[0]) <= Weight(e, x) {
      assert Insert(e, x, s) == [x] + s;
      OfWeightCons(e, x, s, w);
    } else {
      InsertOfWeight(e, x, s[1..], w);
      var t := Insert(e, x, s[1..]);
      assert Insert(e, x, s) == [s[0]] + t;
      OfWeightBehind(e, x, s, t, w);
    }
  }

  /** Putting `x`'s contribution behind a heavier head: the head, being of
      another weight when `x` counts, does not change the order. */
  lemma OfWeightBehind(e: Estimator, x: Item, s: seq<Item>, t: seq<Item>, w: nat)
    requires |s| > 0 && Weight(e, s[0]) > Weight(e, x)
    requires OfWeight(e, t, w) == (if Weight(e, x) == w then [x] else []) + OfWeight(e, s[1..], w)
    ensures OfWeight(e, [s[0]] + t, w) == (if Weight(e, x) == w then [x] else []) + OfWeight(e, s, w)
  {
    OfWeightCons(e, s[0], t, w);
    OfWeightCons(e, s[0], s[1..], w);
    assert [s[0]] + s[1..] == s;
    var head: seq<Item> := if Weight(e, s[0]) == w then [s[0]] else [];
    var mine: seq<Item> := if Weight(e, x) == w then [x] else [];
    if Weight(e, x) == w {
      assert head == [];
    } else {
      assert mine == [];
    }
  }

  lemma OfWeightCons(e: Estimator, y: Item, t: seq<Item>, w: nat)
    ensures OfWeight(e, [y] + t, w) == (if Weight(e, y) == w then [y] else []) + OfWeight(e, t, w)
  {
    assert ([y] + t)[1..] == t;
  }

  /** Stability: among items of equal weight the sort keeps the input order. */
  lemma {:induction false} SortStable(e: Estimator, s: seq<Item>, w: nat)
    ensures OfWeight(e, Sort(e, s), w) == OfWeight(e, s, w)
  {
    if |s| > 0 {
      SortStable(e, s[1..], w);
      InsertOfWeight(e, s[0], Sort(e, s[1..]), w);
    }
  }

  /** Sorting a dict's items keeps its keys and their values. */
  lemma {:induction false} SortKeepsDict(e: Estimator, s: seq<Item>)
    requires ValidDict(s)
    ensures ValidDict(Sort(e, s))
    ensures forall k :: Get(Sort(e, s), k) == Get(s, k)
  {
    if |s| > 0 {
      Uncons(s);
      SortKeepsDict(e, s[1..]);
      assert Get(Sort(e, s[1..]), s[0].0) == Get(s[1..], s[0].0);
      InsertKeepsDict(e, s[0], Sort(e, s[1..]));
    }
  }

  lemma {:induction false} InsertKeepsDict(e: Estimator, x: Item, s: seq<Item>)
    requires SortedDesc(e, s) && ValidDict(s) && !HasKey(s, x.0)
    ensures ValidDict(Insert(e, x, s))
    ensures forall k :: Get(Insert(e, x, s), k) == Get([x] + s, k)
    decreases |s|, 1
  {
    if |s| == 0 || Weight(e, s[0]) <= Weight(e, x) {
      Cons(x, s);
      DistinctCons(x.0, Keys(s));
    } else {
      InsertKeepsDictStep(e, x, s);
    }
  }

  lemma {:induction false} InsertKeepsDictStep(e: Estimator, x: Item, s: seq<Item>)
    requires SortedDesc(e, s) && ValidDict(s) && !HasKey(s, x.0)
    requires |s| > 0 && Weight(e, s[0]) > Weight(e, x)
    ensures ValidDict(Insert(e, x, s))
    ensures forall k :: Get(Insert(e, x, s), k) == Get([x] + s, k)
    decreases |s|, 0
  {
    var tail := s[1..];
    Uncons(s);
    assert SortedDesc(e, tail);
    InsertKeepsDict(e, x, tail);
    var t := Insert(e, x, tail);
    assert Insert(e, x, s) == [s[0]] + t;
    SwapFront(s[0], x, tail, t);
  }

  /** Moving a pair past the head of a dict changes no lookup. */
  lemma SwapFront(y: Item, x: Item, tail: Dict<string>, t: Dict<string>)
    requires ValidDict(t) && forall k :: Get(t, k) == Get([x] + tail, k)
    requires y.0 != x.0 && !HasKey(tail, y.0)
    ensures ValidDict([y] + t)
    ensures forall k :: Get([y] + t, k) == Get([x] + ([y] + tail), k)
  {
    Cons(y, t);
    Cons(x, tail);
    Cons(y, tail);
    Cons(x, [y] + tail);
    assert Get(t, y.0) == None;
    DistinctCons(y.0, Keys(t));
  }

  function SumCost(e: Estimator, b: seq<Item>): (n: nat)
    ensures n >= 12 * |b|
  {
    if |b| == 0 then 0 else SumCost(e, b[..|b| - 1]) + ItemCost(e, b[|b| - 1])
  }

  function Flatten(bs: seq<seq<Item>>): seq<Item> {
    if |bs| == 0 then [] else bs[0] + Flatten(bs[1..])
  }

  /** The greedy loop over the sorted items, with the open batch `cur` and its running
      count `count`. */
  function Greedy(e: Estimator, items: seq<Item>, maxT: int, promptT: int,
                  cur: seq<Item>, count: int): (bs: seq<seq<Item>>)
    decreases |items|
  {
    if |items| == 0 then (if |cur| > 0 then [cur] else [])
    else
      var c := ItemCost(e, items[0]);
      if count + c > maxT && |cur| > 0 then
        [cur] + Greedy(e, items[1..], maxT, promptT, [items[0]], promptT + c)
      else
        Greedy(e, items[1..], maxT, promptT, cur + [items[0]], count + c)
  }

  /** The batches, read in order, are the items in order. */
  lemma {:induction false} GreedyFlatten(e: Estimator, items: seq<Item>, maxT: int, promptT: int,
                                         cur: seq<Item>, count: int)
    ensures Flatten(Greedy(e, items, maxT, promptT, cur, count)) == cur + items
    decreases |items|
  {
    if |items| == 0 {
      assert cur + items == cur;
      if |cur| > 0 {
        assert Greedy(e, items, maxT, promptT, cur, count) == [cur] + [];
        FlattenCons(cur, []);
      }
    } else {
      var c := ItemCost(e, items[0]);
      HeadTail(items);
      if count + c > maxT && |cur| > 0 {
        var rest := Greedy(e, items[1..], maxT, promptT, [items[0]], promptT + c);
        GreedyFlatten(e, items[1..], maxT, promptT, [items[0]], promptT + c);
        assert Greedy(e, items, maxT, promptT, cur, count) == [cur] + rest;
        FlattenCons(cur, rest);
      } else {
        GreedyFlatten(e, items[1..], maxT, promptT, cur + [items[0]], count + c);
        assert Greedy(e, items, maxT, promptT, cur, count)
          == Greedy(e, items[1..], maxT, promptT, cur + [items[0]], count + c);
        AppendHead(cur, items);
      }
    }
  }

  lemma FlattenCons(b: seq<Item>, bs: seq<seq<Item>>)
    ensures Flatten([b] + bs) == b + Flatten(bs)
  {
    assert ([b] + bs)[1..] == bs;
  }

  lemma AppendHead(cur: seq<Item>, items: seq<Item>)
    requires |items| > 0
    ensures (cur + [items[0]]) + items[1..] == cur + items
  {
  }

  /** Every batch is non-empty, and a batch of two or more items fits the budget. */
  predicate BatchesFit(e: Estimator, bs: seq<seq<Item>>, maxT: int, promptT: int) {
    forall j :: 0 <= j < |bs| ==> |bs[j]| > 0 && (|bs[j]| == 1 || promptT + SumCost(e, bs[j]) <= maxT)
  }

  /** Each batch was closed because the next batch's first item did not fit. */
  predicate ClosedWhenFull(e: Estimator, bs: seq<seq<Item>>, maxT: int, promptT: int)
    requires forall j :: 0 <= j < |bs| ==> |bs[j]| > 0
  {
    forall j :: 0 <= j < |bs| - 1 ==> promptT + SumCost(e, bs[j]) + ItemCost(e, bs[j + 1][0]) > maxT
  }

  /** What the packer guarantees about each batch and each pair of neighbours. */
  predicate WellPacked(e: Estimator, bs: seq<seq<Item>>, maxT: int, promptT: int) {
    BatchesFit(e, bs, maxT, promptT) && ClosedWhenFull(e, bs, maxT, promptT)
  }

  /** The open batch is the start of the first batch produced. */
  lemma {:induction false} GreedyPrefix(e: Estimator, items: seq<Item>, maxT: int, promptT: int,
                                        cur: seq<Item>, count: int)
    requires |cur| > 0
    ensures var bs := Greedy(e, items, maxT, promptT, cur, count);
      |bs| > 0 && |cur| <= |bs[0]| && bs[0][..|cur|] == cur
    decreases |items|
  {
    if |items| > 0 {
      var c := ItemCost(e, items[0]);
      if !(count + c > maxT && |cur| > 0) {
        var cur' := cur + [items[0]];
        GreedyPrefix(e, items[1..], maxT, promptT, cur', count + c);
        var b := Greedy(e, items[1..], maxT, promptT, cur', count + c)[0];
        assert b[..|cur'|][..|cur|] == b[..|cur|];
      }
    }
  }

  lemma {:induction false} GreedyPacked(e: Estimator, items: seq<Item>, maxT: int, promptT: int,
                                        cur: seq<Item>, count: int)
    requires count == promptT + SumCost(e, cur)
    requires |cur| <= 1 || count <= maxT
    ensures WellPacked(e, Greedy(e, items, maxT, promptT, cur, count), maxT, promptT)
    decreases |items|
  {
    if |items| == 0 {
      var bs := Greedy(e, items, maxT, promptT, cur, count);
      assert bs == if |cur| > 0 then [cur] else [];
    } else {
      var c := ItemCost(e, items[0]);
      if count + c > maxT && |cur| > 0 {
        GreedySplitPacked(e, items, maxT, promptT, cur, count);
      } else {
        var cur' := cur + [items[0]];
        assert SumCost(e, cur') == SumCost(e, cur) + c by {
          assert cur'[..|cur'| - 1] == cur;
        }
        GreedyPacked(e, items[1..], maxT, promptT, cur', count + c);
        assert Greedy(e, items, maxT, promptT, cur, count)
            == Greedy(e, items[1..], maxT, promptT, cur', count + c);
      }
    }
  }

  lemma {:induction false} GreedySplitPacked(e: Estimator, items: seq<Item>, maxT: int, promptT: int,
                                             cur: seq<Item>, count: int)
    requires count == promptT + SumCost(e, cur)
    requires |cur| <= 1 || count <= maxT
    requires |items| > 0 && |cur| > 0 && count + ItemCost(e, items[0]) > maxT
    ensures WellPacked(e, Greedy(e, items, maxT, promptT, cur, count), maxT, promptT)
    decreases |items|, 0
  {
    var c := ItemCost(e, items[0]);
    var rest := Greedy(e, items[1..], maxT, promptT, [items[0]], promptT + c);
    assert WellPacked(e, rest, maxT, promptT) by {
      assert SumCost(e, [items[0]]) == c by {
        assert [items[0]][..0] == [];
      }
      GreedyPacked(e, items[1..], maxT, promptT, [items[0]], promptT + c);
    }
    assert |rest| > 0 && rest[0][0] == items[0] by {
      GreedyPrefix(e, items[1..], maxT, promptT, [items[0]], promptT + c);
      assert rest[0][0] == rest[0][..1][0];
    }
    assert Greedy(e, items, maxT, promptT, cur, count) == [cur] + rest;
    WellPackedCons(e, cur, rest, maxT, promptT);
  }

  lemma WellPackedCons(e: Estimator, b: seq<Item>, rest: seq<seq<Item>>, maxT: int, promptT: int)
    requires WellPacked(e, rest, maxT, promptT)
    requires |b| > 0 && (|b| == 1 || promptT + SumCost(e, b) <= maxT)
    requires |rest| > 0 ==> promptT + SumCost(e, b) + ItemCost(e, rest[0][0]) > maxT
    ensures WellPacked(e, [b] + rest, maxT, promptT)
  {
    FitCons(e, b, rest, maxT, promptT);
    ClosedCons(e, b, rest, maxT, promptT);
  }

  lemma FitCons(e: Estimator, b: seq<Item>, rest: seq<seq<Item>>, maxT: int, promptT: int)
    requires BatchesFit(e, rest, maxT, promptT)
    requires |b| > 0 && (|b| == 1 || promptT + SumCost(e, b) <= maxT)
    ensures BatchesFit(e, [b] + rest, maxT, promptT)
  {
    var bs := [b] + rest;
    forall j | 0 <= j < |bs| ensures |bs[j]| > 0 && (|bs[j]| == 1 || promptT + SumCost(e, bs[j]) <= maxT) {
      if j > 0 {
        assert bs[j] == rest[j - 1];
      }
    }
  }

  lemma ClosedCons(e: Estimator, b: seq<Item>, rest: seq<seq<Item>>, maxT: int, promptT: int)
    requires BatchesFit(e, rest, maxT, promptT) && ClosedWhenFull(e, rest, maxT, promptT)
    requires |b| > 0
    requires |rest| > 0 ==> promptT + SumCost(e, b) + ItemCost(e, rest[0][0]) > maxT
    ensures forall j :: 0 <= j < |[b] + rest| ==> |([b] + rest)[j]| > 0
    ensures ClosedWhenFull(e, [b] + rest, maxT, promptT)
  {
    var bs := [b] + rest;
    forall j | 0 <= j < |bs| ensures |bs[j]| > 0 {
      if j > 0 {
        assert bs[j] == rest[j - 1];
      }
    }
    forall j | 0 <= j < |bs| - 1
      ensures promptT + SumCost(e, bs[j]) + ItemCost(e, bs[j + 1][0]) > maxT
    {
      assert bs[j + 1] == rest[j];
      if j > 0 {
        assert bs[j] == rest[j - 1];
      }
    }
  }

  lemma {:induction false} GreedyNonEmpty(e: Estimator, items: seq<Item>, maxT: int, promptT: int,
                                          cur: seq<Item>, count: int)
    requires |cur| > 0
    ensures |Greedy(e, items, maxT, promptT, cur, count)| > 0
    decreases |items|
  {
    if |items| > 0 {
      var c := ItemCost(e, items[0]);
      if !(count + c > maxT && |cur| > 0) {
        GreedyNonEmpty(e, items[1..], maxT, promptT, cur + [items[0]], count + c);
      }
    }
  }

  /** `split_dict_into_smart_batches(input_dict, max_input_tokens, prompt_tokens)`.
      The efficiency report divides by the number of items, so an empty dict raises. */
  function SmartBatches(e: Estimator, d: Dict<string>, maxT: int, promptT: int)
    : (r: Outcome<seq<Dict<string>>>)
    requires ValidDict(d)
    ensures |d| == 0 <==> r == Raised(ZeroDivision)
  {
    if |d| == 0 then Raised(ZeroDivision)
    else Ok(Greedy(e, Sort(e, d), maxT, promptT, [], promptT))
  }

  /** The packer's result: the batches are non-empty, read in order they are the
      items sorted by descending value estimate, every batch of two or more items fits
      the budget, and each batch was closed only because the next item did not fit. */
  lemma SmartBatchesCorrect(e: Estimator, d: Dict<string>, maxT: int, promptT: int)
    requires ValidDict(d) && |d| > 0
    ensures var r := SmartBatches(e, d, maxT, promptT);
      && r.Ok?
      && Flatten(r.value) == Sort(e, d)
      && WellPacked(e, r.value, maxT, promptT)
  {
    assert SumCost(e, []) == 0;
    GreedyFlatten(e, Sort(e, d), maxT, promptT, [], promptT);
    GreedyPacked(e, Sort(e, d), maxT, promptT, [], promptT);
  }

  /** Batches whose concatenation is a dict share no key, and each key of the
      concatenation lies in exactly one batch. */
  function Occurrences(bs: seq<Dict<string>>, k: string): nat {
    if |bs| == 0 then 0 else (if HasKey(bs[0], k) then 1 else 0) + Occurrences(bs[1..], k)
  }

  lemma {:induction false} ExactlyOneBatch(bs: seq<Dict<string>>, k: string)
    requires ValidDict(Flatten(bs))
    ensures Occurrences(bs, k) == if HasKey(Flatten(bs), k) then 1 else 0
  {
    if |bs| > 0 {
      var rest := Flatten(bs[1..]);
      KeysAppend(bs[0], rest);
      var ks := Keys(bs[0]) + Keys(rest);
      assert Keys(rest) == ks[|bs[0]|..];
      assert Distinct(Keys(rest));
      ExactlyOneBatch(bs[1..], k);
      assert Flatten(bs) == bs[0] + rest;
      assert HasKey(Flatten(bs), k) <==> k in ks;
      assert k in ks <==> HasKey(bs[0], k) || HasKey(rest, k);
      if HasKey(bs[0], k) {
        var i :| 0 <= i < |bs[0]| && Keys(bs[0])[i] == k;
        forall j | 0 <= j < |rest| ensures Keys(rest)[j] != k {
          assert ks[i] != ks[|bs[0]| + j];
        }
      }
    }
  }

  /** Every key of the input lands in exactly one batch. */
  lemma EveryKeyInOneBatch(e: Estimator, d: Dict<string>, maxT: int, promptT: int, k: string)
    requires ValidDict(d) && |d| > 0
    ensures Occurrences(SmartBatches(e, d, maxT, promptT).value, k)
         == if HasKey(d, k) then 1 else 0
  {
    SmartBatchesCorrect(e, d, maxT, promptT);
    SortKeepsDict(e, d);
    assert Get(Sort(e, d), k) == Get(d, k);
    ExactlyOneBatch(SmartBatches(e, d, maxT, promptT).value, k);
  }
}
