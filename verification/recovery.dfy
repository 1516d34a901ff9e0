/** The stand-alone batch recovery system of batch-recovery.py: a recovery
    record, `process_batch`, which records a batch as completed or failed, and
    `retry_failed_batches`, which retries each failed entry in sub-batches of
    half its size and drops the entry only when every sub-batch succeeded. */
module Recovery {
  import opened Wrappers
  import opened Dicts
  import opened Json
  import opened Chunks
  import opened Orchestrator

  /** An entry of `failed_batches`: `batch_index`, `items`, `str(e)` and
      `batch_size`. */
  datatype Entry = Entry(index: string, items: seq<string>, error: Error, size: nat)

  /** The recovery record (languages and start time left out). */
  datatype Record = Record(
    completed: seq<string>,
    failed: seq<Entry>,
    translated: Dict<Value>,
    totalItems: nat)

  /** The translation backend `process_batch` calls, by batch label. */
  type Backend = (string, Dict<string>) -> Outcome<Dict<Value>>

  /** The record of a run that does not resume. */
  function Start(textDict: Dict<string>): (s: Record)
    ensures ValidDict(s.translated) && s.totalItems == |textDict|
    ensures s.completed == [] && s.failed == [] && |s.translated| == 0
  {
    Record([], [], [], |textDict|)
  }

  /** The pair `process_batch` returns, with the record it leaves. */
  datatype Processed = Processed(ok: bool, result: Dict<Value>, record: Record)

  /** `process_batch(batch, index, size)`: on success the result is merged and
      the index recorded as completed; on failure an entry with the batch's
      keys, the error and the size is appended and `(False, {})` returned. */
  function ProcessBatch(tr: Backend, s: Record, batch: Dict<string>, index: string, size: nat)
    : (r: Processed)
    requires ValidDict(s.translated)
    ensures ValidDict(r.record.translated) && r.record.totalItems == s.totalItems
    ensures r.ok <==> tr(index, batch).Ok?
    ensures r.ok ==>
      && r.result == tr(index, batch).value
      && r.record.completed == s.completed + [index]
      && r.record.failed == s.failed
      && (forall k :: HasKey(r.record.translated, k) <==> HasKey(s.translated, k) || k in Keys(r.result))
      && (forall k :: k in Keys(r.result) ==> Get(r.record.translated, k) == Some(LastValue(r.result, k)))
    ensures !r.ok ==>
      && r.result == []
      && r.record == s.(failed := s.failed + [Entry(index, Keys(batch), tr(index, batch).error, size)])
  {
    match tr(index, batch)
    case Ok(res) =>
      Processed(true, res, s.(translated := PutAll(s.translated, res), completed := s.completed + [index]))
    case Raised(e) =>
      Processed(false, [], s.(failed := s.failed + [Entry(index, Keys(batch), e, size)]))
  }

  /** `max(1, original_size // 2)`: half the size, rounded down, and never 0. */
  function RetrySize(size: nat): (r: nat)
    ensures r >= 1
    ensures size >= 2 ==> 2 * r <= size <= 2 * r + 1
    ensures size < 2 ==> r == 1
  {
    if size / 2 >= 1 then size / 2 else 1
  }

  /** The retry items of an entry, in slices of the retry size. */
  function RetrySlices(textDict: Dict<string>, e: Entry): seq<Dict<string>>
    requires ValidDict(textDict)
  {
    Chunk(Pick(textDict, e.items), RetrySize(e.size))
  }

  /** `ceil(len(retry_dict) / new_batch_size)` slices, none empty and none over
      the retry size, that read in order are the retry items: the entry's keys
      still in `text_dict`. */
  lemma RetrySlicesCover(textDict: Dict<string>, e: Entry)
    requires ValidDict(textDict)
    ensures var retry := Pick(textDict, e.items);
      var subs := RetrySlices(textDict, e);
      && Concat(subs) == retry
      && |subs| == CeilDiv(|retry|, RetrySize(e.size))
      && (forall j :: 0 <= j < |subs| ==> 0 < |subs[j]| <= RetrySize(e.size))
      && (forall k :: HasKey(retry, k) <==> k in e.items && HasKey(textDict, k))
  {
    var retry := Pick(textDict, e.items);
    ChunkCovers(retry, RetrySize(e.size));
    ChunkCount(retry, RetrySize(e.size));
  }

  /** Every sub-batch from `i` on succeeds. */
  ghost predicate AllSucceed(tr: Backend, index: string, subs: seq<Dict<string>>, i: nat) {
    forall j :: i <= j < |subs| ==> tr(SubLabel(index, j), subs[j]).Ok?
  }

  datatype Retried = Retried(count: nat, record: Record)

  /** A success is merged once more after `process_batch` returns. */
  function MergeAgain(s: Record, res: Dict<Value>): (t: Record)
    requires ValidDict(s.translated)
    ensures t == s.(translated := t.translated) && ValidDict(t.translated)
    ensures forall k :: HasKey(s.translated, k) ==> HasKey(t.translated, k)
  {
    var d := PutAll(s.translated, res);
    assert forall k :: HasKey(s.translated, k) ==> Get(d, k).Some?;
    s.(translated := d)
  }

  /** The sub-batches `i..` of one entry, counting the successes from `c`.
      Each goes through `process_batch` under the label `f"{index}.{i+1}"`. */
  function RetrySubs(tr: Backend, index: string, subs: seq<Dict<string>>, size: nat,
                     i: nat, c: nat, s: Record): (r: Retried)
    requires i <= |subs| && ValidDict(s.translated)
    ensures ValidDict(r.record.translated) && r.record.totalItems == s.totalItems
    ensures c <= r.count <= c + (|subs| - i)
    ensures s.completed <= r.record.completed && s.failed <= r.record.failed
    ensures forall k :: HasKey(s.translated, k) ==> HasKey(r.record.translated, k)
    decreases |subs| - i
  {
    if i == |subs| then Retried(c, s)
    else
      var p := ProcessBatch(tr, s, subs[i], SubLabel(index, i), size);
      if p.ok then RetrySubs(tr, index, subs, size, i + 1, c + 1, MergeAgain(p.record, p.result))
      else RetrySubs(tr, index, subs, size, i + 1, c, p.record)
  }

  lemma AllSucceedStep(tr: Backend, index: string, subs: seq<Dict<string>>, i: nat)
    requires i < |subs|
    ensures AllSucceed(tr, index, subs, i) <==>
      tr(SubLabel(index, i), subs[i]).Ok? && AllSucceed(tr, index, subs, i + 1)
  {
  }

  /** The count reaches the number of sub-batches exactly when all of them
      succeed. */
  lemma {:induction false} RetrySubsCount(tr: Backend, index: string, subs: seq<Dict<string>>, size: nat,
                                          i: nat, c: nat, s: Record)
    requires i <= |subs| && ValidDict(s.translated)
    ensures RetrySubs(tr, index, subs, size, i, c, s).count == c + (|subs| - i)
        <==> AllSucceed(tr, index, subs, i)
    decreases |subs| - i
  {
    if i < |subs| {
      AllSucceedStep(tr, index, subs, i);
      var p := ProcessBatch(tr, s, subs[i], SubLabel(index, i), size);
      if p.ok {
        RetrySubsCount(tr, index, subs, size, i + 1, c + 1, MergeAgain(p.record, p.result));
      } else {
        var r := RetrySubs(tr, index, subs, size, i + 1, c, p.record);
        assert r.count <= c + (|subs| - i - 1);
      }
    }
  }

  /** When all sub-batches succeed no failed entry is added; otherwise at least
      one is. */
  lemma {:induction false} RetrySubsFailed(tr: Backend, index: string, subs: seq<Dict<string>>, size: nat,
                                           i: nat, c: nat, s: Record)
    requires i <= |subs| && ValidDict(s.translated)
    ensures var r := RetrySubs(tr, index, subs, size, i, c, s);
      && (AllSucceed(tr, index, subs, i) ==> r.record.failed == s.failed)
      && (!AllSucceed(tr, index, subs, i) ==> |r.record.failed| > |s.failed|)
    decreases |subs| - i
  {
    if i < |subs| {
      AllSucceedStep(tr, index, subs, i);
      var p := ProcessBatch(tr, s, subs[i], SubLabel(index, i), size);
      if p.ok {
        RetrySubsFailed(tr, index, subs, size, i + 1, c + 1, MergeAgain(p.record, p.result));
      }
    }
  }

  /** One entry of the snapshot: its sub-batches, then `remove` of the entry
      if and only if every sub-batch succeeded. An entry none of whose keys is
      left in `text_dict` has no sub-batch and is dropped without a call. */
  function RetryEntry(tr: Backend, textDict: Dict<string>, e: Entry, s: Record): (t: Record)
    requires ValidDict(textDict) && ValidDict(s.translated) && e in s.failed
    ensures ValidDict(t.translated) && t.totalItems == s.totalItems
    ensures s.completed <= t.completed
    ensures forall k :: HasKey(s.translated, k) ==> HasKey(t.translated, k)
    ensures AllSucceed(tr, e.index, RetrySlices(textDict, e), 0) ==> t.failed == RemoveFirst(s.failed, e)
    ensures !AllSucceed(tr, e.index, RetrySlices(textDict, e), 0) ==> s.failed < t.failed
    ensures multiset(s.failed) - multiset{e} <= multiset(t.failed)
  {
    var size := RetrySize(e.size);
    var subs := RetrySlices(textDict, e);
    var r := RetrySubs(tr, e.index, subs, size, 0, 0, s);
    RetrySubsCount(tr, e.index, subs, size, 0, 0, s);
    RetrySubsFailed(tr, e.index, subs, size, 0, 0, s);
    if r.count == |subs| then
      assert r.record.failed == s.failed;
      r.record.(failed := RemoveFirst(s.failed, e))
    else
      PrefixMultiset(s.failed, r.record.failed);
      r.record
  }

  lemma PrefixMultiset<T>(a: seq<T>, b: seq<T>)
    requires a <= b
    ensures multiset(a) <= multiset(b)
  {
    assert b == a + b[|a|..];
  }

  /** The backend answers every call. */
  ghost predicate Reliable(tr: Backend) {
    forall id, b :: tr(id, b).Ok?
  }

  /** The entries of the snapshot, in order. Each is still in `failed_batches`
      when its turn comes, so `remove` never raises. */
  function RetryAll(tr: Backend, textDict: Dict<string>, entries: seq<Entry>, s: Record): (t: Record)
    requires ValidDict(textDict) && ValidDict(s.translated)
    requires multiset(entries) <= multiset(s.failed)
    ensures ValidDict(t.translated) && t.totalItems == s.totalItems
    ensures s.completed <= t.completed
    ensures forall k :: HasKey(s.translated, k) ==> HasKey(t.translated, k)
    decreases |entries|
  {
    if |entries| == 0 then s
    else
      var e := entries[0];
      assert entries == [e] + entries[1..];
      assert e in multiset(s.failed);
      RetryAll(tr, textDict, entries[1..], RetryEntry(tr, textDict, e, s))
  }

  /** With a backend that answers every call, exactly the snapshot's entries
      are removed and nothing is added. */
  lemma {:induction false} RetryAllReliable(tr: Backend, textDict: Dict<string>, entries: seq<Entry>, s: Record)
    requires ValidDict(textDict) && ValidDict(s.translated)
    requires multiset(entries) <= multiset(s.failed)
    requires Reliable(tr)
    ensures multiset(RetryAll(tr, textDict, entries, s).failed) == multiset(s.failed) - multiset(entries)
    decreases |entries|
  {
    if |entries| > 0 {
      var e := entries[0];
      HeadInMultiset(entries, s.failed);
      var t := RetryEntry(tr, textDict, e, s);
      RetryEntryReliable(tr, textDict, e, s);
      RetryAllReliable(tr, textDict, entries[1..], t);
      assert RetryAll(tr, textDict, entries, s) == RetryAll(tr, textDict, entries[1..], t);
    }
  }

  /** The first entry is in `failed_batches`, and the rest are in what is
      left once it is removed. */
  lemma HeadInMultiset<T>(entries: seq<T>, failed: seq<T>)
    requires |entries| > 0 && multiset(entries) <= multiset(failed)
    ensures entries[0] in multiset(failed)
    ensures multiset(entries[1..]) <= multiset(failed) - multiset{entries[0]}
    ensures multiset(failed) - multiset(entries)
      == (multiset(failed) - multiset{entries[0]}) - multiset(entries[1..])
  {
    assert entries == [entries[0]] + entries[1..];
  }

  /** With a backend that answers every call, the entry's sub-batches all
      succeed and the entry alone leaves `failed_batches`. */
  lemma RetryEntryReliable(tr: Backend, textDict: Dict<string>, e: Entry, s: Record)
    requires ValidDict(textDict) && ValidDict(s.translated) && e in s.failed
    requires Reliable(tr)
    ensures multiset(RetryEntry(tr, textDict, e, s).failed) == multiset(s.failed) - multiset{e}
  {
    var subs := RetrySlices(textDict, e);
    assert AllSucceed(tr, e.index, subs, 0) by {
      forall j | 0 <= j < |subs| ensures tr(SubLabel(e.index, j), subs[j]).Ok? {
      }
    }
  }

  /** `retry_failed_batches()` over a snapshot of `failed_batches`. */
  function RetryFailedBatches(tr: Backend, textDict: Dict<string>, s: Record): (t: Record)
    requires ValidDict(textDict) && ValidDict(s.translated)
    ensures ValidDict(t.translated) && t.totalItems == s.totalItems
    ensures s.completed <= t.completed
    ensures forall k :: HasKey(s.translated, k) ==> HasKey(t.translated, k)
  {
    RetryAll(tr, textDict, s.failed, s)
  }

  /** With a backend that answers every call, no failed batch is left. */
  lemma RetryFailedBatchesReliable(tr: Backend, textDict: Dict<string>, s: Record)
    requires ValidDict(textDict) && ValidDict(s.translated) && Reliable(tr)
    ensures RetryFailedBatches(tr, textDict, s).failed == []
  {
    RetryAllReliable(tr, textDict, s.failed, s);
    assert multiset(RetryFailedBatches(tr, textDict, s).failed) == multiset{};
  }
}
