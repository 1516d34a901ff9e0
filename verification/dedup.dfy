/** `deduplicate_content` and the duplicate fan-out of `translate_text`.
    Keys are grouped by their text in order of first appearance; the first key of a
    group is its representative. Only representatives are translated, and the
    translation of a representative is later copied to the rest of its group. */
module Dedup {
  import opened Wrappers
  import opened Dicts

  type Item = (string, string)

  function Values<V>(d: Dict<V>): (vs: seq<V>)
    ensures |vs| == |d| && forall i :: 0 <= i < |d| ==> vs[i] == d[i].1
  {
    seq(|d|, i requires 0 <= i < |d| => d[i].1)
  }

  // ---------------------------------------------------------------------------
  // Reference definitions

  /** The pairs of `d` whose text does not occur earlier in `d`, in order. */
  function FirstOcc(d: Dict<string>): seq<Item> {
    if |d| == 0 then []
    else
      var n := |d| - 1;
      FirstOcc(d[..n]) + (if d[n].1 in Values(d[..n]) then [] else [d[n]])
  }

  /** The keys of `d` whose text is `w`, in order. */
  function KeysWith(d: Dict<string>, w: string): seq<string> {
    if |d| == 0 then []
    else
      var n := |d| - 1;
      KeysWith(d[..n], w) + (if d[n].1 == w then [d[n].0] else [])
  }

  /** The earliest key of `d` whose text is `w`. */
  function Earliest(d: Dict<string>, w: string): string
    requires w in Values(d)
  {
    KeysWithNonEmpty(d, w);
    KeysWith(d, w)[0]
  }

  lemma {:induction false} KeysWithNonEmpty(d: Dict<string>, w: string)
    requires w in Values(d)
    ensures |KeysWith(d, w)| > 0
  {
    var n := |d| - 1;
    if d[n].1 != w {
      assert Values(d) == Values(d[..n]) + [d[n].1];
      KeysWithNonEmpty(d[..n], w);
    }
  }

  lemma {:induction false} KeysWithAbsent(d: Dict<string>, w: string)
    requires w !in Values(d)
    ensures KeysWith(d, w) == []
  {
    if |d| > 0 {
      var n := |d| - 1;
      assert Values(d) == Values(d[..n]) + [d[n].1];
      KeysWithAbsent(d[..n], w);
    }
  }

  /** A key is listed under `w` exactly when its text is `w`. */
  lemma {:induction false} KeysWithSpec(d: Dict<string>, w: string)
    requires ValidDict(d)
    ensures Distinct(KeysWith(d, w))
    ensures forall k :: k in KeysWith(d, w) <==> HasKey(d, k) && Get(d, k) == Some(w)
  {
    if |d| > 0 {
      var n := |d| - 1;
      Unsnoc(d);
      KeysWithSpec(d[..n], w);
      if d[n].1 == w {
        DistinctSnoc(KeysWith(d[..n], w), d[n].0);
      }
    }
  }

  lemma DistinctSnoc<T>(s: seq<T>, x: T)
    requires Distinct(s) && x !in s
    ensures Distinct(s + [x])
  {
  }

  /** Every text of `d` is the text of exactly one first occurrence. */
  lemma {:induction false} FirstOccValues(d: Dict<string>)
    ensures Distinct(Values(FirstOcc(d)))
    ensures forall w :: w in Values(FirstOcc(d)) <==> w in Values(d)
  {
    if |d| > 0 {
      var n := |d| - 1;
      var x := d[n];
      FirstOccValues(d[..n]);
      assert Values(d) == Values(d[..n]) + [x.1];
      var f := FirstOcc(d[..n]);
      if x.1 !in Values(d[..n]) {
        assert FirstOcc(d) == f + [x];
        assert Values(f + [x]) == Values(f) + [x.1];
        DistinctSnoc(Values(f), x.1);
      } else {
        assert FirstOcc(d) == f;
      }
    }
  }

  /** The first occurrences are pairs of `d`, so they form a dict whose lookups agree
      with `d`. */
  lemma {:induction false} FirstOccSub(d: Dict<string>)
    requires ValidDict(d)
    ensures ValidDict(FirstOcc(d))
    ensures forall k :: HasKey(FirstOcc(d), k) ==> HasKey(d, k) && Get(FirstOcc(d), k) == Get(d, k)
  {
    if |d| > 0 {
      var n := |d| - 1;
      var x := d[n];
      Unsnoc(d);
      FirstOccSub(d[..n]);
      var f := FirstOcc(d[..n]);
      if x.1 !in Values(d[..n]) {
        assert FirstOcc(d) == f + [x];
        assert Keys([x]) == [x.0];
        AppendDict(f, [x]);
      } else {
        assert FirstOcc(d) == f;
      }
    }
  }

  /** The first key listed under the text of a first occurrence is its own key. */
  lemma {:induction false} FirstOccEarliest(d: Dict<string>, i: nat)
    requires i < |FirstOcc(d)|
    ensures FirstOcc(d)[i].1 in Values(d)
    ensures Earliest(d, FirstOcc(d)[i].1) == FirstOcc(d)[i].0
  {
    FirstOccValues(d);
    assert FirstOcc(d)[i].1 in Values(FirstOcc(d)) by {
      assert Values(FirstOcc(d))[i] == FirstOcc(d)[i].1;
    }
    var n := |d| - 1;
    var f := FirstOcc(d[..n]);
    var w := FirstOcc(d)[i].1;
    assert Values(d) == Values(d[..n]) + [d[n].1];
    if i < |f| {
      assert FirstOcc(d)[i] == f[i];
      FirstOccEarliest(d[..n], i);
      KeysWithNonEmpty(d[..n], w);
    } else {
      assert FirstOcc(d)[i] == d[n] && d[n].1 !in Values(d[..n]);
      KeysWithAbsent(d[..n], w);
    }
  }

  // ---------------------------------------------------------------------------
  // The algorithm as written

  /** `content_to_keys`: for each text, in order of first appearance, the keys that
      carry it. An existing text gets the key appended; a new text gets a new list. */
  function ContentToKeys(d: Dict<string>): (g: Dict<seq<string>>)
    ensures ValidDict(g)
  {
    if |d| == 0 then []
    else
      var n := |d| - 1;
      var g := ContentToKeys(d[..n]);
      var (k, v) := d[n];
      if HasKey(g, v) then Put(g, v, Get(g, v).value + [k]) else Put(g, v, [k])
  }

  /** The groups the reference predicts: one per first occurrence. */
  function RefGroups(d: Dict<string>): (g: seq<(string, seq<string>)>)
    ensures |g| == |FirstOcc(d)|
  {
    var f := FirstOcc(d);
    seq(|f|, i requires 0 <= i < |f| => (f[i].1, KeysWith(d, f[i].1)))
  }

  /** `content_to_keys` is exactly the reference grouping. */
  lemma {:induction false} ContentToKeysRef(d: Dict<string>)
    ensures ContentToKeys(d) == RefGroups(d)
  {
    if |d| > 0 {
      var n := |d| - 1;
      ContentToKeysRef(d[..n]);
      FirstOccValues(d[..n]);
      if d[n].1 in Values(d[..n]) {
        GroupSeen(d);
      } else {
        GroupUnseen(d);
      }
    }
  }

  lemma GroupSeen(d: Dict<string>)
    requires |d| > 0
    requires var n := |d| - 1;
      && ContentToKeys(d[..n]) == RefGroups(d[..n])
      && Distinct(Values(FirstOcc(d[..n])))
      && (forall w :: w in Values(FirstOcc(d[..n])) <==> w in Values(d[..n]))
      && d[n].1 in Values(d[..n])
    ensures ContentToKeys(d) == RefGroups(d)
  {
    var n := |d| - 1;
    var front := d[..n];
    var g := ContentToKeys(front);
    RefGroupKeys(front);
    assert HasKey(g, d[n].1);
    var idx := IndexOf(g, d[n].1);
    ContentToKeysSeen(d, idx);
    assert g[idx] == RefGroups(front)[idx];
    RefGroupsSeen(d, idx);
  }

  /** The texts of the reference groups are the first-occurrence texts. */
  lemma RefGroupKeys(d: Dict<string>)
    ensures Keys(RefGroups(d)) == Values(FirstOcc(d))
  {
  }

  /** `content_to_keys` on a text seen before appends the key to its group. */
  lemma ContentToKeysSeen(d: Dict<string>, idx: nat)
    requires |d| > 0
    requires var g := ContentToKeys(d[..|d| - 1]);
      HasKey(g, d[|d| - 1].1) && idx == IndexOf(g, d[|d| - 1].1)
    ensures var n := |d| - 1;
      var g := ContentToKeys(d[..n]);
      ContentToKeys(d) == g[idx := (d[n].1, g[idx].1 + [d[n].0])]
  {
    var n := |d| - 1;
    var g := ContentToKeys(d[..n]);
    GetAt(g, idx);
  }

  /** A text seen before: its group gets the new key at the end. */
  lemma RefGroupsSeen(d: Dict<string>, idx: nat)
    requires |d| > 0
    requires var n := |d| - 1;
      && Distinct(Values(FirstOcc(d[..n])))
      && idx < |FirstOcc(d[..n])| && FirstOcc(d[..n])[idx].1 == d[n].1
    ensures var n := |d| - 1;
      var g := RefGroups(d[..n]);
      RefGroups(d) == g[idx := (d[n].1, g[idx].1 + [d[n].0])]
  {
    var n := |d| - 1;
    var front := d[..n];
    var (k, v) := d[n];
    var f := FirstOcc(front);
    assert v in Values(front) by {
      FirstOccValues(front);
      assert Values(f)[idx] == v;
    }
    assert FirstOcc(d) == f;
    var g := RefGroups(front);
    var ref := RefGroups(d);
    forall j | 0 <= j < |ref| ensures ref[j] == g[idx := (v, g[idx].1 + [k])][j] {
      var w := f[j].1;
      assert ref[j] == (w, KeysWith(d, w));
      assert g[j] == (w, KeysWith(front, w));
      assert KeysWith(d, w) == KeysWith(front, w) + (if v == w then [k] else []);
      if j != idx {
        assert Values(f)[j] != Values(f)[idx];
        assert Values(f)[j] == w && Values(f)[idx] == v;
        assert KeysWith(d, w) == KeysWith(front, w);
      } else {
        assert w == v;
        assert ref[j] == (v, g[idx].1 + [k]);
      }
    }
  }

  lemma GroupUnseen(d: Dict<string>)
    requires |d| > 0
    requires var n := |d| - 1;
      && ContentToKeys(d[..n]) == RefGroups(d[..n])
      && (forall w :: w in Values(FirstOcc(d[..n])) <==> w in Values(d[..n]))
      && d[n].1 !in Values(d[..n])
    ensures ContentToKeys(d) == RefGroups(d)
  {
    var n := |d| - 1;
    var front := d[..n];
    var g := ContentToKeys(front);
    assert Keys(g) == Values(FirstOcc(front));
    assert !HasKey(g, d[n].1);
    assert ContentToKeys(d) == g + [(d[n].1, [d[n].0])];
    forall j | 0 <= j < |FirstOcc(front)| ensures FirstOcc(front)[j].1 != d[n].1 {
      assert Values(FirstOcc(front))[j] == FirstOcc(front)[j].1;
    }
    RefGroupsUnseen(d);
  }

  /** A new text: a new group holding just the new key. */
  lemma RefGroupsUnseen(d: Dict<string>)
    requires |d| > 0
    requires var n := |d| - 1;
      && d[n].1 !in Values(d[..n])
      && forall j :: 0 <= j < |FirstOcc(d[..n])| ==> FirstOcc(d[..n])[j].1 != d[n].1
    ensures var n := |d| - 1;
      RefGroups(d) == RefGroups(d[..n]) + [(d[n].1, [d[n].0])]
  {
    var n := |d| - 1;
    var front := d[..n];
    var (k, v) := d[n];
    var f := FirstOcc(front);
    assert FirstOcc(d) == f + [(k, v)];
    KeysWithAbsent(front, v);
    var g := RefGroups(front);
    var ref := RefGroups(d);
    forall j | 0 <= j < |ref| ensures ref[j] == (g + [(v, [k])])[j] {
      if j < |f| {
        var w := f[j].1;
        assert KeysWith(d, w) == KeysWith(front, w);
      } else {
        assert KeysWith(d, v) == [k];
      }
    }
  }

  /** The group of the `i`-th first occurrence: its text, its keys in order, and the
      first of those keys is the occurrence's own. */
  lemma RefGroupAt(d: Dict<string>, i: nat)
    requires i < |FirstOcc(d)|
    ensures RefGroups(d)[i] == (FirstOcc(d)[i].1, KeysWith(d, FirstOcc(d)[i].1))
    ensures |RefGroups(d)[i].1| > 0 && RefGroups(d)[i].1[0] == FirstOcc(d)[i].0
  {
    FirstOccEarliest(d, i);
    KeysWithNonEmpty(d, FirstOcc(d)[i].1);
  }

  /** Every group of `content_to_keys` has at least one key. */
  predicate GroupsNonEmpty(g: Dict<seq<string>>) {
    forall i :: 0 <= i < |g| ==> |g[i].1| > 0
  }

  lemma RefGroupsNonEmpty(d: Dict<string>)
    ensures GroupsNonEmpty(ContentToKeys(d))
  {
    ContentToKeysRef(d);
    forall i | 0 <= i < |RefGroups(d)| ensures |RefGroups(d)[i].1| > 0 {
      RefGroupAt(d, i);
    }
  }

  /** The `unique_content[keys[0]] = content` assignments, one per group. */
  function RepPairs(g: Dict<seq<string>>): (ps: seq<Item>)
    requires GroupsNonEmpty(g)
    ensures |ps| == |g| && forall i :: 0 <= i < |g| ==> ps[i] == (g[i].1[0], g[i].0)
  {
    seq(|g|, i requires 0 <= i < |g| => (g[i].1[0], g[i].0))
  }

  /** The `duplicates_map[key] = keys[0]` assignments, group after group. */
  function DupPairs(g: Dict<seq<string>>): seq<Item>
    requires GroupsNonEmpty(g)
  {
    if |g| == 0 then []
    else
      var n := |g| - 1;
      DupPairs(g[..n]) + GroupPairs(g[n].1)
  }

  /** Each key of one group, paired with the group's first key. */
  function GroupPairs(keys: seq<string>): (ps: seq<Item>)
    requires |keys| > 0
    ensures Keys(ps) == keys
    ensures forall i :: 0 <= i < |ps| ==> ps[i].1 == keys[0]
  {
    seq(|keys|, i requires 0 <= i < |keys| => (keys[i], keys[0]))
  }

  /** `deduplicate_content(input_dict)`: the representatives with their texts, and the
      map from every key to its representative. */
  function Deduplicate(d: Dict<string>): (r: (Dict<string>, Dict<string>))
    requires ValidDict(d)
    ensures ValidDict(r.0) && ValidDict(r.1)
  {
    var g := ContentToKeys(d);
    RefGroupsNonEmpty(d);
    assert ValidDict<string>([]);
    (PutAll([], RepPairs(g)), PutAll([], DupPairs(g)))
  }

  // ---------------------------------------------------------------------------
  // What deduplication guarantees

  /** `unique_content` is the first occurrence of each text, in input order; so its
      texts are pairwise distinct and each of its keys keeps its own text. */
  lemma UniqueIsFirstOcc(d: Dict<string>)
    requires ValidDict(d)
    ensures Deduplicate(d).0 == FirstOcc(d)
    ensures Distinct(Values(Deduplicate(d).0))
    ensures forall k :: HasKey(Deduplicate(d).0, k) ==> HasKey(d, k) && Get(Deduplicate(d).0, k) == Get(d, k)
  {
    var g := ContentToKeys(d);
    RefGroupsNonEmpty(d);
    ContentToKeysRef(d);
    var f := FirstOcc(d);
    forall i | 0 <= i < |f| ensures RepPairs(g)[i] == f[i] {
      RefGroupAt(d, i);
    }
    assert RepPairs(g) == f;
    FirstOccSub(d);
    FirstOccValues(d);
    assert ValidDict<string>([]);
    assert [] + f == f;
    PutAllFresh([], f);
  }

  /** Facts about the `duplicates_map` assignments of the first `n` groups. */
  lemma {:induction false} DupPairsFacts(d: Dict<string>, n: nat)
    requires ValidDict(d) && n <= |FirstOcc(d)|
    ensures GroupsNonEmpty(RefGroups(d)[..n])
    ensures var ps := DupPairs(RefGroups(d)[..n]);
      && ValidDict(ps)
      && (forall k :: HasKey(ps, k) <==>
            HasKey(d, k) && Get(d, k).value in Values(FirstOcc(d)[..n]))
      && (forall k :: HasKey(ps, k) ==>
            Get(d, k).value in Values(d) && Get(ps, k) == Some(Earliest(d, Get(d, k).value)))
  {
    var G := RefGroups(d);
    var f := FirstOcc(d);
    forall i | 0 <= i < n ensures |G[..n][i].1| > 0 {
      RefGroupAt(d, i);
    }
    if n > 0 {
      DupPairsFacts(d, n - 1);
      assert G[..n][..n - 1] == G[..n - 1];
      DupPairsStep(d, n);
    }
  }

  lemma DupPairsStep(d: Dict<string>, n: nat)
    requires ValidDict(d) && 0 < n <= |FirstOcc(d)|
    requires GroupsNonEmpty(RefGroups(d)[..n])
    requires RefGroups(d)[..n][..n - 1] == RefGroups(d)[..n - 1]
    requires var ps := DupPairs(RefGroups(d)[..n - 1]);
      && ValidDict(ps)
      && (forall k :: HasKey(ps, k) <==>
            HasKey(d, k) && Get(d, k).value in Values(FirstOcc(d)[..n - 1]))
      && (forall k :: HasKey(ps, k) ==>
            Get(d, k).value in Values(d) && Get(ps, k) == Some(Earliest(d, Get(d, k).value)))
    ensures var ps := DupPairs(RefGroups(d)[..n]);
      && ValidDict(ps)
      && (forall k :: HasKey(ps, k) <==>
            HasKey(d, k) && Get(d, k).value in Values(FirstOcc(d)[..n]))
      && (forall k :: HasKey(ps, k) ==>
            Get(d, k).value in Values(d) && Get(ps, k) == Some(Earliest(d, Get(d, k).value)))
  {
    var G := RefGroups(d);
    var f := FirstOcc(d);
    var a := DupPairs(G[..n - 1]);
    var w := f[n - 1].1;
    RefGroupAt(d, n - 1);
    FirstOccEarliest(d, n - 1);
    KeysWithSpec(d, w);
    var b := GroupPairs(KeysWith(d, w));
    assert DupPairs(G[..n]) == a + b;
    FirstOccValues(d);
    assert Values(f[..n]) == Values(f[..n - 1]) + [w];
    assert w !in Values(f[..n - 1]) by {
      forall j | 0 <= j < n - 1 ensures Values(f)[j] != w {
        assert Values(f)[j] != Values(f)[n - 1];
      }
      assert Values(f[..n - 1]) == Values(f)[..n - 1];
    }
    forall k | HasKey(b, k) ensures !HasKey(a, k) {
      assert Get(d, k) == Some(w);
    }
    AppendDict(a, b);
    forall k | HasKey(b, k) ensures Get(b, k) == Some(Earliest(d, w)) {
      GetConst(b, k, Earliest(d, w));
    }
  }

  /** A list of pairs that all carry the same value finds that value for every key. */
  lemma {:induction false} GetConst(ps: seq<Item>, k: string, c: string)
    requires HasKey(ps, k) && forall i :: 0 <= i < |ps| ==> ps[i].1 == c
    ensures Get(ps, k) == Some(c)
  {
    if ps[0].0 != k {
      assert Keys(ps) == [ps[0].0] + Keys(ps[1..]);
      GetConst(ps[1..], k, c);
    }
  }

  /** `duplicates_map` has exactly the keys of the input, and sends every key to the
      earliest key with the same text. */
  lemma DupMapsToEarliest(d: Dict<string>)
    requires ValidDict(d)
    ensures forall k :: HasKey(Deduplicate(d).1, k) <==> HasKey(d, k)
    ensures forall k :: HasKey(d, k) ==>
      Get(d, k).value in Values(d) && Get(Deduplicate(d).1, k) == Some(Earliest(d, Get(d, k).value))
  {
    ContentToKeysRef(d);
    DupPairsAll(d);
    PutAllEmpty(DupPairs(RefGroups(d)));
    ValuesOfKeys(d);
  }

  /** The `duplicates_map` assignments of all the groups. */
  lemma DupPairsAll(d: Dict<string>)
    requires ValidDict(d)
    ensures GroupsNonEmpty(RefGroups(d))
    ensures var ps := DupPairs(RefGroups(d));
      && ValidDict(ps)
      && (forall k :: HasKey(ps, k) <==> HasKey(d, k))
      && (forall k :: HasKey(ps, k) ==>
            Get(d, k).value in Values(d) && Get(ps, k) == Some(Earliest(d, Get(d, k).value)))
  {
    var f := FirstOcc(d);
    var G := RefGroups(d);
    DupPairsFacts(d, |f|);
    assert G[..|f|] == G;
    assert f[..|f|] == f;
    FirstOccValues(d);
    ValuesOfKeys(d);
  }

  /** The text of every key is among the texts. */
  lemma ValuesOfKeys(d: Dict<string>)
    requires ValidDict(d)
    ensures forall k :: HasKey(d, k) ==> Get(d, k).value in Values(d)
  {
    forall k | HasKey(d, k) ensures Get(d, k).value in Values(d) {
      var i := IndexOf(d, k);
      GetAt(d, i);
      assert Values(d)[i] == d[i].1;
    }
  }

  /** Every representative maps to itself, and a key that maps to itself is a
      representative. */
  lemma RepresentativesMapToSelf(d: Dict<string>, k: string)
    requires ValidDict(d)
    ensures HasKey(Deduplicate(d).0, k) <==> HasKey(d, k) && Get(Deduplicate(d).1, k) == Some(k)
  {
    var (u, m) := Deduplicate(d);
    UniqueIsFirstOcc(d);
    DupMapsToEarliest(d);
    FirstOccSub(d);
    var f := FirstOcc(d);
    if HasKey(u, k) {
      var i := IndexOf(f, k);
      FirstOccEarliest(d, i);
      GetAt(f, i);
    }
    if HasKey(d, k) && Get(m, k) == Some(k) {
      var w := Get(d, k).value;
      FirstOccValues(d);
      assert w in Values(f);
      var i :| 0 <= i < |f| && Values(f)[i] == w;
      FirstOccEarliest(d, i);
      assert f[i].0 == k;
      assert Keys(f)[i] == k;
    }
  }

  /** The texts of `duplicates_map` are exactly the representatives; the resume branch
      relies on this set. */
  lemma DupValuesAreRepresentatives(d: Dict<string>, r: string)
    requires ValidDict(d)
    ensures r in Values(Deduplicate(d).1) <==> HasKey(Deduplicate(d).0, r)
  {
    if r in Values(Deduplicate(d).1) {
      DupValueIsRepresentative(d, r);
    }
    if HasKey(Deduplicate(d).0, r) {
      RepresentativeIsDupValue(d, r);
    }
  }

  lemma DupValueIsRepresentative(d: Dict<string>, r: string)
    requires ValidDict(d) && r in Values(Deduplicate(d).1)
    ensures HasKey(Deduplicate(d).0, r)
  {
    var (u, m) := Deduplicate(d);
    DupMapsToEarliest(d);
    var i :| 0 <= i < |m| && Values(m)[i] == r;
    var k := m[i].0;
    assert HasKey(m, k) by { assert Keys(m)[i] == k; }
    GetAt(m, i);
    var w := Get(d, k).value;
    FirstOccValues(d);
    var f := FirstOcc(d);
    assert w in Values(f);
    var j :| 0 <= j < |f| && Values(f)[j] == w;
    FirstOccEarliest(d, j);
    UniqueIsFirstOcc(d);
    assert Keys(u)[j] == r;
  }

  lemma RepresentativeIsDupValue(d: Dict<string>, r: string)
    requires ValidDict(d) && HasKey(Deduplicate(d).0, r)
    ensures r in Values(Deduplicate(d).1)
  {
    var m := Deduplicate(d).1;
    RepresentativesMapToSelf(d, r);
    var i := IndexOf(m, r);
    GetAt(m, i);
    assert Values(m)[i] == r;
  }

  // ---------------------------------------------------------------------------
  // Fan-out

  /** The assignments `full_translated_dict[original_key] = unique_translated_dict[rep_key]`
      for every non-representative whose representative was translated. */
  function FanPairs<V>(u: Dict<V>, dup: Dict<string>): seq<(string, V)> {
    if |dup| == 0 then []
    else
      var n := |dup| - 1;
      var (orig, rep) := dup[n];
      FanPairs(u, dup[..n])
        + (if HasKey(u, rep) && orig != rep then [(orig, Get(u, rep).value)] else [])
  }

  /** The fan-out: a copy of the translated representatives, then one assignment per
      duplicate whose representative was translated. */
  function FanOut<V>(u: Dict<V>, dup: Dict<string>): (full: Dict<V>)
    requires ValidDict(u)
  {
    PutAll(FromItems(u), FanPairs(u, dup))
  }

  /** Whether the fan-out assigns `k`: a duplicate whose representative was translated. */
  predicate Fanned<V>(u: Dict<V>, dup: Dict<string>, k: string) {
    HasKey(dup, k) && Get(dup, k).value != k && HasKey(u, Get(dup, k).value)
  }

  lemma {:induction false} FanPairsSpec<V>(u: Dict<V>, dup: Dict<string>, k: string)
    requires ValidDict(dup)
    ensures k in Keys(FanPairs(u, dup)) <==> Fanned(u, dup, k)
    ensures k in Keys(FanPairs(u, dup)) ==>
      LastValue(FanPairs(u, dup), k) == Get(u, Get(dup, k).value).value
  {
    if |dup| > 0 {
      var n := |dup| - 1;
      Unsnoc(dup);
      FanPairsSpec(u, dup[..n], k);
      FanPairsStep(u, dup, k);
    }
  }

  lemma FanPairsStep<V>(u: Dict<V>, dup: Dict<string>, k: string)
    requires ValidDict(dup) && |dup| > 0
    requires var n := |dup| - 1;
      && ValidDict(dup[..n]) && !HasKey(dup[..n], dup[n].0)
      && (forall k :: HasKey(dup, k) <==> k == dup[n].0 || HasKey(dup[..n], k))
      && (forall k :: Get(dup, k) == if k == dup[n].0 then Some(dup[n].1) else Get(dup[..n], k))
      && (k in Keys(FanPairs(u, dup[..n])) <==> Fanned(u, dup[..n], k))
      && (k in Keys(FanPairs(u, dup[..n])) ==>
            LastValue(FanPairs(u, dup[..n]), k) == Get(u, Get(dup[..n], k).value).value)
    ensures k in Keys(FanPairs(u, dup)) <==> Fanned(u, dup, k)
    ensures k in Keys(FanPairs(u, dup)) ==>
      LastValue(FanPairs(u, dup), k) == Get(u, Get(dup, k).value).value
  {
    var n := |dup| - 1;
    var (orig, rep) := dup[n];
    var front := FanPairs(u, dup[..n]);
    if HasKey(u, rep) && orig != rep {
      var ps := front + [(orig, Get(u, rep).value)];
      assert FanPairs(u, dup) == ps;
      assert ps[..|ps| - 1] == front;
      KeysAppend(front, [(orig, Get(u, rep).value)]);
      if k == orig {
        assert Keys(ps)[|ps| - 1] == k;
        assert LastValue(ps, k) == Get(u, rep).value;
      } else if k in Keys(ps) {
        assert k in Keys(front);
        assert LastValue(ps, k) == LastValue(front, k);
      }
    } else {
      assert FanPairs(u, dup) == front;
    }
  }

  /** After the fan-out every translated key keeps its place, a duplicate whose
      representative was translated carries the representative's translation, and
      every other key keeps its own translation. */
  lemma FanOutSpec<V>(u: Dict<V>, dup: Dict<string>)
    requires ValidDict(u) && ValidDict(dup)
    ensures ValidDict(FanOut(u, dup))
    ensures |u| <= |FanOut(u, dup)| && Keys(FanOut(u, dup))[..|u|] == Keys(u)
    ensures forall k :: (Get(FanOut(u, dup), k)
      == (if Fanned(u, dup, k) then Get(u, Get(dup, k).value) else Get(u, k)))
  {
    var ps := FanPairs(u, dup);
    PutAllPrefix(FromItems(u), ps);
    forall k ensures Get(FanOut(u, dup), k) ==
      (if Fanned(u, dup, k) then Get(u, Get(dup, k).value) else Get(u, k))
    {
      FanPairsSpec(u, dup, k);
    }
  }
}
