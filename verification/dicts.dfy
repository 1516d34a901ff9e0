/** Python dicts as insertion-ordered association lists.
    A `Dict<V>` is a sequence of key/value pairs with pairwise-distinct keys; assignment
    to an existing key keeps its position, a new key is appended, and `update` folds
    assignment over the other dict in its order. */
module Dicts {
  import opened Wrappers

  type Dict<V> = seq<(string, V)>

  predicate Distinct<T(==)>(s: seq<T>) {
    forall i, j :: 0 <= i < j < |s| ==> s[i] != s[j]
  }

  function Keys<V>(d: Dict<V>): (ks: seq<string>)
    ensures |ks| == |d| && forall i :: 0 <= i < |d| ==> ks[i] == d[i].0
  {
    seq(|d|, i requires 0 <= i < |d| => d[i].0)
  }

  /** The shape every Python dict has: no key twice. */
  predicate ValidDict<V>(d: Dict<V>) {
    Distinct(Keys(d))
  }

  predicate HasKey<V>(d: Dict<V>, k: string) {
    k in Keys(d)
  }

  function KeySet<V>(d: Dict<V>): (s: set<string>)
    ensures forall k :: k in s <==> HasKey(d, k)
  {
    set k | k in Keys(d)
  }

  /** `d.get(k)`: the value of the first pair with key `k`. */
  function Get<V>(d: Dict<V>, k: string): (r: Option<V>)
    ensures r.Some? <==> HasKey(d, k)
  {
    if |d| == 0 then None
    else if d[0].0 == k then Some(d[0].1)
    else
      KeysUncons(d);
      Get(d[1..], k)
  }

  /** The position of key `k` in `d`. */
  function IndexOf<V>(d: Dict<V>, k: string): (i: nat)
    requires HasKey(d, k)
    ensures i < |d| && d[i].0 == k
    ensures forall j :: 0 <= j < i ==> d[j].0 != k
  {
    if d[0].0 == k then 0
    else
      KeysUncons(d);
      1 + IndexOf(d[1..], k)
  }

  lemma KeysUncons<V>(d: Dict<V>)
    requires |d| > 0
    ensures Keys(d) == [d[0].0] + Keys(d[1..])
  {
  }

  /** In a valid dict the pair at index `i` is what `Get` finds for its key. */
  lemma {:induction false} GetAt<V>(d: Dict<V>, i: nat)
    requires ValidDict(d) && i < |d|
    ensures Get(d, d[i].0) == Some(d[i].1)
  {
    if i > 0 {
      assert Keys(d)[0] != Keys(d)[i];
      assert Keys(d[1..]) == Keys(d)[1..];
      GetAt(d[1..], i - 1);
    }
  }

  /** `d[k] = v` */
  function Put<V>(d: Dict<V>, k: string, v: V): (r: Dict<V>)
    requires ValidDict(d)
    ensures ValidDict(r)
    ensures HasKey(d, k) ==> |r| == |d| && Keys(r) == Keys(d)
    ensures !HasKey(d, k) ==> r == d + [(k, v)]
    ensures Get(r, k) == Some(v)
    ensures forall k' :: k' != k ==> Get(r, k') == Get(d, k')
  {
    if HasKey(d, k) then
      var i := IndexOf(d, k);
      var r := d[i := (k, v)];
      assert Keys(r) == Keys(d);
      GetAt(r, i);
      forall k' | k' != k ensures Get(r, k') == Get(d, k') {
        if HasKey(d, k') {
          var j := IndexOf(d, k');
          GetAt(d, j);
          GetAt(r, j);
        }
      }
      r
    else
      var r := d + [(k, v)];
      assert Keys(r) == Keys(d) + [k];
      GetAt(r, |d|);
      forall k' | k' != k ensures Get(r, k') == Get(d, k') {
        if HasKey(d, k') {
          var j := IndexOf(d, k');
          GetAt(d, j);
          GetAt(r, j);
        }
      }
      r
  }

  /** The value of the last pair of `ps` with key `k`. */
  function LastValue<V>(ps: seq<(string, V)>, k: string): V
    requires k in Keys(ps)
  {
    var n := |ps| - 1;
    assert Keys(ps) == Keys(ps[..n]) + [ps[n].0];
    if ps[n].0 == k then ps[n].1 else LastValue(ps[..n], k)
  }

  /** The last value of a key is the value of one of its pairs. */
  lemma {:induction false} LastValueIn<V>(ps: seq<(string, V)>, k: string)
    requires k in Keys(ps)
    ensures (k, LastValue(ps, k)) in ps
  {
    var n := |ps| - 1;
    assert Keys(ps) == Keys(ps[..n]) + [ps[n].0];
    if ps[n].0 != k {
      LastValueIn(ps[..n], k);
    }
  }

  /** Assigning the pairs `ps` to `d` one after the other, as a `for` loop of
      `d[k] = v` or `dict(ps)` does: the last assignment to a key wins. */
  function PutAll<V>(d: Dict<V>, ps: seq<(string, V)>): (r: Dict<V>)
    requires ValidDict(d)
    ensures ValidDict(r)
    ensures forall k :: Get(r, k) == if k in Keys(ps) then Some(LastValue(ps, k)) else Get(d, k)
  {
    if |ps| == 0 then d
    else
      var n := |ps| - 1;
      assert Keys(ps) == Keys(ps[..n]) + [ps[n].0];
      Put(PutAll(d, ps[..n]), ps[n].0, ps[n].1)
  }

  /** Assignments never move a key already present. */
  lemma {:induction false} PutAllPrefix<V>(d: Dict<V>, ps: seq<(string, V)>)
    requires ValidDict(d)
    ensures |d| <= |PutAll(d, ps)| && Keys(PutAll(d, ps))[..|d|] == Keys(d)
  {
    if |ps| > 0 {
      var n := |ps| - 1;
      var f := PutAll(d, ps[..n]);
      PutAllPrefix(d, ps[..n]);
      var r := Put(f, ps[n].0, ps[n].1);
      PutPrefix(f, ps[n].0, ps[n].1);
      PrefixTrans(Keys(d), Keys(f), Keys(r));
    }
  }

  /** One assignment never moves a key already present. */
  lemma PutPrefix<V>(d: Dict<V>, k: string, v: V)
    requires ValidDict(d)
    ensures |d| <= |Put(d, k, v)| && Keys(Put(d, k, v))[..|d|] == Keys(d)
  {
    if !HasKey(d, k) {
      KeysAppend(d, [(k, v)]);
    }
  }

  lemma PrefixTrans(a: seq<string>, b: seq<string>, c: seq<string>)
    requires |a| <= |b| <= |c| && b[..|a|] == a && c[..|b|] == b
    ensures c[..|a|] == a
  {
    assert c[..|a|] == c[..|b|][..|a|];
  }

  /** Assigning fresh, pairwise-distinct keys appends them in order. */
  lemma {:induction false} PutAllFresh<V>(d: Dict<V>, ps: seq<(string, V)>)
    requires ValidDict(d) && ValidDict(d + ps)
    ensures PutAll(d, ps) == d + ps
  {
    if |ps| > 0 {
      var n := |ps| - 1;
      assert d + ps == (d + ps[..n]) + [ps[n]];
      KeysAppend(d + ps[..n], [ps[n]]);
      KeysAppend(d, ps[..n]);
      KeysAppend(d, ps);
      assert Keys(d + ps[..n]) == Keys(d + ps)[..|d| + n];
      PutAllFresh(d, ps[..n]);
      assert Keys(d + ps)[|d| + n] == ps[n].0;
      assert !HasKey(d + ps[..n], ps[n].0);
    }
  }

  /** Putting the pairs of a dict into an empty one rebuilds it. */
  lemma PutAllEmpty<V>(ps: seq<(string, V)>)
    requires ValidDict(ps)
    ensures PutAll([], ps) == ps
  {
    assert [] + ps == ps;
    PutAllFresh([], ps);
  }

  lemma {:induction false} KeysAppend<V>(a: Dict<V>, b: Dict<V>)
    ensures Keys(a + b) == Keys(a) + Keys(b)
  {
    assert |Keys(a + b)| == |Keys(a) + Keys(b)|;
    forall i | 0 <= i < |a + b| ensures Keys(a + b)[i] == (Keys(a) + Keys(b))[i] {
      if i >= |a| { assert (a + b)[i] == b[i - |a|]; }
    }
  }

  /** In a valid dict the last pair with a key is the only one. */
  lemma {:induction false} LastValueGet<V>(e: Dict<V>, k: string)
    requires ValidDict(e) && HasKey(e, k)
    ensures Get(e, k) == Some(LastValue(e, k))
  {
    var n := |e| - 1;
    assert Keys(e) == Keys(e[..n]) + [e[n].0];
    if e[n].0 == k {
      GetAt(e, n);
    } else {
      assert Keys(e[..n]) == Keys(e)[..n];
      LastValueGet(e[..n], k);
      var i := IndexOf(e[..n], k);
      GetAt(e[..n], i);
      GetAt(e, i);
    }
  }

  /** `d.update(e)` */
  function Update<V>(d: Dict<V>, e: Dict<V>): (r: Dict<V>)
    requires ValidDict(d) && ValidDict(e)
    ensures ValidDict(r)
    ensures forall k :: Get(r, k) == if HasKey(e, k) then Get(e, k) else Get(d, k)
    ensures |d| <= |r| && Keys(r)[..|d|] == Keys(d)
  {
    PutAllPrefix(d, e);
    forall k | HasKey(e, k) ensures Get(e, k) == Some(LastValue(e, k)) {
      LastValueGet(e, k);
    }
    PutAll(d, e)
  }

  /** `dict(items)` */
  function FromItems<V>(items: seq<(string, V)>): (r: Dict<V>)
    ensures ValidDict(r)
    ensures forall k :: Get(r, k) == if k in Keys(items) then Some(LastValue(items, k)) else None
    ensures ValidDict(items) ==> r == items
  {
    assert ValidDict<V>([]);
    var r := PutAll([], items);
    assert ValidDict(items) ==> r == items by {
      if ValidDict(items) {
        assert [] + items == items;
        PutAllFresh([], items);
      }
    }
    r
  }

  /** Putting a pair in front of an association list. */
  lemma Cons<V>(x: (string, V), d: Dict<V>)
    ensures Keys([x] + d) == [x.0] + Keys(d)
    ensures forall k :: Get([x] + d, k) == if k == x.0 then Some(x.1) else Get(d, k)
  {
    var e := [x] + d;
    assert e[1..] == d;
    var ks := Keys(e);
    var rs := [x.0] + Keys(d);
    forall i | 0 <= i < |ks| ensures ks[i] == rs[i] {
      if i > 0 {
        assert e[i] == d[i - 1];
      }
    }
    assert ks == rs;
  }

  lemma DistinctCons<T>(x: T, s: seq<T>)
    requires Distinct(s) && x !in s
    ensures Distinct([x] + s)
  {
    var t := [x] + s;
    forall i, j | 0 <= i < j < |t| ensures t[i] != t[j] {
      assert t[j] == s[j - 1];
      if i > 0 { assert t[i] == s[i - 1]; }
    }
  }

  /** Splitting a valid dict into its first pair and the rest. */
  lemma Uncons<V>(d: Dict<V>)
    requires ValidDict(d) && |d| > 0
    ensures d == [d[0]] + d[1..]
    ensures ValidDict(d[1..]) && !HasKey(d[1..], d[0].0)
    ensures forall k :: HasKey(d, k) <==> k == d[0].0 || HasKey(d[1..], k)
    ensures forall k :: Get(d, k) == if k == d[0].0 then Some(d[0].1) else Get(d[1..], k)
  {
    HeadTail(d);
    TailValid(d);
    HasKeyUncons(d);
  }

  lemma HasKeyUncons<V>(d: Dict<V>)
    requires |d| > 0
    ensures forall k :: HasKey(d, k) <==> k == d[0].0 || HasKey(d[1..], k)
  {
    var ks := Keys(d);
    var ts := Keys(d[1..]);
    forall k ensures k in ks <==> k == d[0].0 || k in ts {
      if k in ks {
        var i :| 0 <= i < |ks| && ks[i] == k;
        if i > 0 {
          assert ts[i - 1] == k;
        }
      }
      if k in ts {
        var i :| 0 <= i < |ts| && ts[i] == k;
        assert ks[i + 1] == k;
      }
    }
  }

  lemma HeadTail<T>(s: seq<T>)
    requires |s| > 0
    ensures s == [s[0]] + s[1..]
  {
  }

  /** The rest of a valid dict is valid and lacks the first key. */
  lemma TailValid<V>(d: Dict<V>)
    requires ValidDict(d) && |d| > 0
    ensures ValidDict(d[1..]) && !HasKey(d[1..], d[0].0)
  {
    var ks := Keys(d);
    var ts := Keys(d[1..]);
    forall i, j | 0 <= i < j < |ts| ensures ts[i] != ts[j] {
      assert ks[i + 1] == ts[i] && ks[j + 1] == ts[j];
    }
    forall j | 0 <= j < |ts| ensures ts[j] != d[0].0 {
      assert ks[j + 1] == ts[j] && ks[0] == d[0].0;
    }
  }

  /** `Get` finds the first pair with the key, so a lookup in a concatenation looks in
      the front part first. */
  lemma {:induction false} GetAppend<V>(a: Dict<V>, b: Dict<V>, k: string)
    ensures HasKey(a + b, k) <==> HasKey(a, k) || HasKey(b, k)
    ensures Get(a + b, k) == if HasKey(a, k) then Get(a, k) else Get(b, k)
  {
    KeysAppend(a, b);
    if |a| == 0 {
      assert a + b == b;
    } else {
      assert Keys(a) == [a[0].0] + Keys(a[1..]);
      assert (a + b)[1..] == a[1..] + b;
      if a[0].0 != k {
        GetAppend(a[1..], b, k);
      }
    }
  }

  lemma DistinctAppend<T>(s: seq<T>, t: seq<T>)
    requires Distinct(s) && Distinct(t) && forall x :: x in t ==> x !in s
    ensures Distinct(s + t)
  {
    var u := s + t;
    forall i, j | 0 <= i < j < |u| ensures u[i] != u[j] {
      if j >= |s| {
        assert u[j] == t[j - |s|] && t[j - |s|] in t;
        if i >= |s| { assert u[i] == t[i - |s|]; } else { assert u[i] == s[i]; }
      }
    }
  }

  /** Two dicts with no key in common concatenate into a dict. */
  lemma AppendDict<V>(a: Dict<V>, b: Dict<V>)
    requires ValidDict(a) && ValidDict(b)
    requires forall k :: HasKey(b, k) ==> !HasKey(a, k)
    ensures ValidDict(a + b)
    ensures forall k :: HasKey(a + b, k) <==> HasKey(a, k) || HasKey(b, k)
    ensures forall k :: Get(a + b, k) == if HasKey(a, k) then Get(a, k) else Get(b, k)
  {
    KeysAppend(a, b);
    forall x | x in Keys(b) ensures x !in Keys(a) {
      assert HasKey(b, x);
    }
    DistinctAppend(Keys(a), Keys(b));
    forall k ensures Get(a + b, k) == if HasKey(a, k) then Get(a, k) else Get(b, k) {
      GetAppend(a, b, k);
    }
  }

  /** Splitting a valid dict into its front and its last pair. */
  lemma Unsnoc<V>(d: Dict<V>)
    requires ValidDict(d) && |d| > 0
    ensures var n := |d| - 1;
      && d == d[..n] + [d[n]]
      && ValidDict(d[..n]) && !HasKey(d[..n], d[n].0)
      && (forall k :: HasKey(d, k) <==> k == d[n].0 || HasKey(d[..n], k))
      && (forall k :: Get(d, k) == if k == d[n].0 then Some(d[n].1) else Get(d[..n], k))
  {
    UnsnocKeys(d);
    UnsnocGet(d);
  }

  lemma UnsnocKeys<V>(d: Dict<V>)
    requires ValidDict(d) && |d| > 0
    ensures var n := |d| - 1;
      d == d[..n] + [d[n]] && ValidDict(d[..n]) && !HasKey(d[..n], d[n].0)
  {
    var n := |d| - 1;
    assert Keys(d[..n]) == Keys(d)[..n];
    forall j | 0 <= j < n ensures Keys(d[..n])[j] != d[n].0 {
      assert Keys(d)[j] != Keys(d)[n];
    }
  }

  lemma UnsnocGet<V>(d: Dict<V>)
    requires ValidDict(d) && |d| > 0
    ensures var n := |d| - 1;
      forall k :: Get(d, k) == if k == d[n].0 then Some(d[n].1) else Get(d[..n], k)
  {
    UnsnocKeys(d);
    var n := |d| - 1;
    var front, x := d[..n], d[n];
    assert d == front + [x];
    assert Keys([x]) == [x.0];
    forall k ensures Get(d, k) == if k == x.0 then Some(x.1) else Get(front, k) {
      GetAppend(front, [x], k);
    }
  }



  /** `{k: d[k] for k in ks if k in d}` for a key list without repetitions. */
  function Restrict<V(==)>(d: Dict<V>, ks: seq<string>): (r: Dict<V>)
    requires ValidDict(d) && Distinct(ks)
    ensures ValidDict(r)
    ensures forall k :: HasKey(r, k) <==> k in ks && HasKey(d, k)
    ensures forall k :: HasKey(r, k) ==> Get(r, k) == Get(d, k)
    ensures |r| <= |ks|
  {
    if |ks| == 0 then []
    else
      var rest := Restrict(d, ks[1..]);
      var v := Get(d, ks[0]);
      assert ks == [ks[0]] + ks[1..];
      assert ks[0] !in ks[1..];
      if v.Some? then
        var r := [(ks[0], v.value)] + rest;
        Cons((ks[0], v.value), rest);
        DistinctCons(ks[0], Keys(rest));
        r
      else rest
  }

  /** The pairs of `d`, in order, whose key satisfies `keep`. */
  function FilterKeys<V(==)>(d: Dict<V>, keep: string -> bool): (r: Dict<V>)
    requires ValidDict(d)
    ensures ValidDict(r)
    ensures forall k :: HasKey(r, k) <==> HasKey(d, k) && keep(k)
    ensures forall k :: HasKey(r, k) ==> Get(r, k) == Get(d, k)
  {
    if |d| == 0 then []
    else
      Cons(d[0], d[1..]);
      assert [d[0]] + d[1..] == d;
      assert forall k :: HasKey(d, k) <==> k == d[0].0 || HasKey(d[1..], k);
      assert !HasKey(d[1..], d[0].0) by {
        assert forall j :: 1 <= j < |d| ==> Keys(d)[0] != Keys(d)[j];
      }
      var rest := FilterKeys(d[1..], keep);
      if keep(d[0].0) then
        Cons(d[0], rest);
        DistinctCons(d[0].0, Keys(rest));
        [d[0]] + rest
      else rest
  }
}
