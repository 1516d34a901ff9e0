/** The stages of `translate_text` and the recovery state they keep, for the
    four copies of the pipeline. The translation backend is an oracle that
    answers each `translate_batch` call with a result or an exception; the
    recovery file writes are not modelled. */
module Orchestrator {
  import opened Wrappers
  import opened Strings
  import opened Dicts
  import opened Json
  import opened Estimator
  import opened Dedup
  import opened Chunks

  /** The four files that carry a copy of `translate_text`. */
  datatype Flavour = Ultimate | Enhanced | Pptx | App13

  /** `target_language in ["ja", "zh", "ko"]` */
  predicate CjkTarget(lang: string) { lang == "ja" || lang == "zh" || lang == "ko" }

  /** `max_input_tokens` handed to the partitioner. */
  function BatchBudget(f: Flavour, lang: string): nat {
    match f
    case Ultimate => if CjkTarget(lang) then 50000 else 100000
    case Enhanced => if CjkTarget(lang) then 60000 else 120000
    case Pptx => if CjkTarget(lang) then 80000 else 150000
    case App13 => 150000
  }

  const PromptTokens: nat := 2000

  /** app13.py estimates by length alone; the others count CJK characters. */
  function EstimatorOf(f: Flavour): Estimator {
    if f == App13 then Simple else CjkAware
  }

  /** `max_retries` of a main batch: the default of `translate_batch`. */
  function DefaultRetries(f: Flavour): nat {
    if f == Ultimate || f == Enhanced then 3 else 2
  }

  /** `max_retries` passed for sub-batches and the chunked final sweep. */
  const SubRetries: nat := 3

  function MinChunk(f: Flavour): nat {
    if f == Ultimate || f == Enhanced then 3 else 5
  }

  function Divisor(f: Flavour, lang: string): (d: nat)
    ensures d > 0
  {
    match f
    case Ultimate => if CjkTarget(lang) then 20 else 10
    case Enhanced => if CjkTarget(lang) then 10 else 5
    case Pptx => if CjkTarget(lang) then 8 else 4
    case App13 => 4
  }

  /** The sub-batch size for a failed batch of `n` retry items:
      `max(floor, n // divisor)`. Never below 3, and never below 5 in
      pptx_translator.py and app13.py. */
  function ChunkSize(f: Flavour, lang: string, n: nat): (c: nat)
    ensures c >= MinChunk(f) >= 3
    ensures (f == Pptx || f == App13) ==> c >= 5
    ensures c >= n / Divisor(f, lang)
    ensures c == MinChunk(f) || c == n / Divisor(f, lang)
  {
    var q := n / Divisor(f, lang);
    if MinChunk(f) >= q then MinChunk(f) else q
  }

  /** An entry of `failed_batches`; `error` stands for `str(e)`. */
  datatype FailedBatch = FailedBatch(batchId: string, keys: seq<string>, error: Error)

  /** The recovery state kept across runs. */
  datatype State = State(
    completed: seq<string>,
    failed: seq<FailedBatch>,
    translated: Dict<Value>,
    duplicates: Dict<string>,
    totalItems: nat)

  predicate WellFormed(s: State) {
    ValidDict(s.translated) && ValidDict(s.duplicates)
  }

  /** `setup_recovery_system` without a resume file. */
  function Initial(textDict: Dict<string>): (s: State)
    ensures WellFormed(s)
  {
    State([], [], [], [], |textDict|)
  }

  /** `translate_batch(batch, label, ..., max_retries)` as the orchestrator sees
      it: the label, the batch and the retry budget determine the outcome. */
  type Translator = (string, Dict<string>, nat) -> Outcome<Dict<Value>>

  /** The dict the stage works on next to the recovery state:
      `unique_translated_dict` during the batch loops, `full_translated_dict`
      during the final sweep. */
  datatype Progress = Progress(work: Dict<Value>, state: State)

  predicate Good(p: Progress) {
    ValidDict(p.work) && WellFormed(p.state)
  }

  /** The two copies agree, as they do from `unique_translated_dict =
      translated_items.copy()` on. */
  predicate Mirrored(p: Progress) {
    p.work == p.state.translated
  }

  /** A batch result merged into both dicts. */
  function Absorb(p: Progress, res: Dict<Value>): (q: Progress)
    requires Good(p)
    ensures Good(q)
    ensures q.state == p.state.(translated := q.state.translated)
    ensures forall k :: HasKey(q.state.translated, k) <==> HasKey(p.state.translated, k) || k in Keys(res)
    ensures forall k :: HasKey(q.work, k) <==> HasKey(p.work, k) || k in Keys(res)
    ensures forall k :: k in Keys(res) ==> Get(q.work, k) == Some(LastValue(res, k))
    ensures Mirrored(p) ==> Mirrored(q)
  {
    Progress(PutAll(p.work, res), p.state.(translated := PutAll(p.state.translated, res)))
  }

  // ---------------------------------------------------------------------------
  // The work set

  datatype Work = Work(unique: Dict<string>, duplicates: Dict<string>, state: State)

  /** A fresh run deduplicates `text_dict` and stores the map; a resumed run
      (some items already translated) works on the keys that are NOT a value of
      the stored `duplicates_map`, and keeps the stored map. */
  function Setup(textDict: Dict<string>, s: State): (w: Work)
    requires ValidDict(textDict) && WellFormed(s)
    ensures ValidDict(w.unique) && ValidDict(w.duplicates) && WellFormed(w.state)
    ensures w.state == s.(duplicates := w.duplicates)
    ensures |s.translated| > 0 ==> w.duplicates == s.duplicates
    ensures |s.translated| > 0 ==>
      forall k :: HasKey(w.unique, k) <==> HasKey(textDict, k) && k !in Values(s.duplicates)
  {
    if |s.translated| == 0 then
      var (u, dup) := Deduplicate(textDict);
      Work(u, dup, s.(duplicates := dup))
    else
      var reps := Values(s.duplicates);
      Work(FilterKeys(textDict, k => k !in reps), s.duplicates, s)
  }

  /** `remaining_dict`: the work set minus what is already translated. The
      final sweep's `set(text_dict) - set(full_translated_dict)` is the same
      selection, taken in `text_dict` order. */
  function Remaining(u: Dict<string>, translated: Dict<Value>): (r: Dict<string>)
    requires ValidDict(u)
    ensures ValidDict(r)
    ensures forall k :: HasKey(r, k) <==> HasKey(u, k) && !HasKey(translated, k)
    ensures forall k :: HasKey(r, k) ==> Get(r, k) == Get(u, k)
  {
    FilterKeys(u, k => !HasKey(translated, k))
  }

  // ---------------------------------------------------------------------------
  // The main batch loop

  /** `f"batch_{batch_index + 1}"` */
  function BatchId(i: nat): string {
    "batch_" + NatToString(i + 1)
  }

  function FailedIds(fs: seq<FailedBatch>): (ids: seq<string>)
    ensures |ids| == |fs| && forall i :: 0 <= i < |fs| ==> ids[i] == fs[i].batchId
  {
    seq(|fs|, i requires 0 <= i < |fs| => fs[i].batchId)
  }

  /** Batch `id` has been dealt with: completed, or recorded as failed. */
  predicate Handled(s: State, id: string) {
    id in s.completed || id in FailedIds(s.failed)
  }

  /** Batch `i`: skipped when its positional id is already completed, whatever
      it holds; otherwise translated and recorded as completed, or recorded as
      failed with its keys and the error. */
  function MainStep(tr: Translator, retries: nat, batch: Dict<string>, i: nat, p: Progress): (q: Progress)
    requires Good(p)
    ensures Good(q)
    ensures BatchId(i) in p.state.completed ==> q == p
    ensures BatchId(i) !in p.state.completed ==>
      || (q.state.completed == p.state.completed + [BatchId(i)] && q.state.failed == p.state.failed)
      || (q.state.completed == p.state.completed && |q.state.failed| == |p.state.failed| + 1
          && q.state.failed == p.state.failed + [FailedBatch(BatchId(i), Keys(batch), q.state.failed[|p.state.failed|].error)])
    ensures tr(NatToString(i + 1), batch, retries).Ok? && BatchId(i) !in p.state.completed ==>
      forall k :: k in Keys(tr(NatToString(i + 1), batch, retries).value) ==> HasKey(q.state.translated, k)
    ensures Handled(q.state, BatchId(i))
    ensures forall k :: HasKey(p.state.translated, k) ==> HasKey(q.state.translated, k)
    ensures q.state.duplicates == p.state.duplicates && q.state.totalItems == p.state.totalItems
    ensures Mirrored(p) ==> Mirrored(q)
  {
    var id := BatchId(i);
    if id in p.state.completed then p
    else
      match tr(NatToString(i + 1), batch, retries)
      case Ok(res) =>
        var q := Absorb(p, res);
        q.(state := q.state.(completed := q.state.completed + [id]))
      case Raised(e) =>
        var q := p.(state := p.state.(failed := p.state.failed + [FailedBatch(id, Keys(batch), e)]));
        assert FailedIds(q.state.failed)[|p.state.failed|] == id;
        q
  }

  /** The loop over batches `i..`: every batch ends up handled, the lists only
      grow at their ends and no translated key is lost. */
  function MainLoop(tr: Translator, retries: nat, batches: seq<Dict<string>>, i: nat, p: Progress)
    : (q: Progress)
    requires i <= |batches| && Good(p)
    ensures Good(q)
    ensures p.state.completed <= q.state.completed && p.state.failed <= q.state.failed
    ensures forall j :: i <= j < |batches| ==> Handled(q.state, BatchId(j))
    ensures forall k :: HasKey(p.state.translated, k) ==> HasKey(q.state.translated, k)
    ensures q.state.duplicates == p.state.duplicates && q.state.totalItems == p.state.totalItems
    ensures Mirrored(p) ==> Mirrored(q)
    decreases |batches| - i
  {
    if i == |batches| then p
    else
      var p' := MainStep(tr, retries, batches[i], i, p);
      var q := MainLoop(tr, retries, batches, i + 1, p');
      HandledKept(p'.state, q.state, BatchId(i));
      q
  }

  lemma HandledKept(s: State, t: State, id: string)
    requires s.completed <= t.completed && s.failed <= t.failed && Handled(s, id)
    ensures Handled(t, id)
  {
    if id in s.completed {
      var j :| 0 <= j < |s.completed| && s.completed[j] == id;
      assert t.completed[j] == id;
    } else {
      var j :| 0 <= j < |s.failed| && FailedIds(s.failed)[j] == id;
      assert t.failed[j] == s.failed[j];
      assert FailedIds(t.failed)[j] == id;
    }
  }

  // ---------------------------------------------------------------------------
  // Reconciliation of failed batches

  /** `{k: text_dict[k] for k in keys if k in text_dict}` */
  function Pick(d: Dict<string>, keys: seq<string>): (r: Dict<string>)
    requires ValidDict(d)
    ensures ValidDict(r)
    ensures forall k :: HasKey(r, k) <==> k in keys && HasKey(d, k)
    ensures forall k :: HasKey(r, k) ==> Get(r, k) == Get(d, k)
    decreases |keys|
  {
    if |keys| == 0 then []
    else
      var n := |keys| - 1;
      var r := Pick(d, keys[..n]);
      assert keys == keys[..n] + [keys[n]];
      if HasKey(d, keys[n]) then Put(r, keys[n], Get(d, keys[n]).value) else r
  }

  /** `f"{batch_id}_sub_{i+1}"`, recorded when sub-batch `i` succeeds. */
  function SubId(batchId: string, i: nat): string {
    batchId + "_sub_" + NatToString(i + 1)
  }

  /** `f"{batch_id}.{i+1}"`, the label of sub-batch `i`. */
  function SubLabel(batchId: string, i: nat): string {
    batchId + "." + NatToString(i + 1)
  }

  /** The sub-batches of one failed entry, `i..`: a success is merged and
      recorded, a failure is skipped. */
  function RunSubs(tr: Translator, batchId: string, subs: seq<Dict<string>>, i: nat, p: Progress)
    : (q: Progress)
    requires i <= |subs| && Good(p)
    ensures Good(q)
    ensures q.state.failed == p.state.failed && p.state.completed <= q.state.completed
    ensures forall k :: HasKey(p.state.translated, k) ==> HasKey(q.state.translated, k)
    ensures q.state.duplicates == p.state.duplicates && q.state.totalItems == p.state.totalItems
    ensures Mirrored(p) ==> Mirrored(q)
    decreases |subs| - i
  {
    if i == |subs| then p
    else
      var p' := match tr(SubLabel(batchId, i), subs[i], SubRetries)
        case Ok(res) =>
          var a := Absorb(p, res);
          a.(state := a.state.(completed := a.state.completed + [SubId(batchId, i)]))
        case Raised(_) => p;
      RunSubs(tr, batchId, subs, i + 1, p')
  }

  /** The retry items of a failed entry and their consecutive sub-batches. */
  function SubBatches(f: Flavour, lang: string, textDict: Dict<string>, entry: FailedBatch)
    : (subs: seq<Dict<string>>)
    requires ValidDict(textDict)
  {
    var retry := Pick(textDict, entry.keys);
    Chunk(retry, ChunkSize(f, lang, |retry|))
  }

  /** The sub-batches are the retry items, in order, in slices of the chunk
      size, and there are `ceil(n / size)` of them. */
  lemma SubBatchesCover(f: Flavour, lang: string, textDict: Dict<string>, entry: FailedBatch)
    requires ValidDict(textDict)
    ensures var retry := Pick(textDict, entry.keys);
      var size := ChunkSize(f, lang, |retry|);
      && Concat(SubBatches(f, lang, textDict, entry)) == retry
      && |SubBatches(f, lang, textDict, entry)| == CeilDiv(|retry|, size)
      && forall j :: 0 <= j < |SubBatches(f, lang, textDict, entry)| ==>
           0 < |SubBatches(f, lang, textDict, entry)[j]| <= size
  {
    var retry := Pick(textDict, entry.keys);
    var size := ChunkSize(f, lang, |retry|);
    ChunkCovers(retry, size);
    ChunkCount(retry, size);
  }

  /** `list.remove(x)`: drop the first element equal to `x`. */
  function RemoveFirst<T(==)>(fs: seq<T>, x: T): (r: seq<T>)
    requires x in fs
    ensures |r| == |fs| - 1
    ensures multiset(r) == multiset(fs) - multiset{x}
  {
    assert fs == [fs[0]] + fs[1..];
    if fs[0] == x then fs[1..] else [fs[0]] + RemoveFirst(fs[1..], x)
  }

  /** One failed entry: its sub-batches, then its removal, whatever the
      sub-batches did. */
  function ReconcileEntry(tr: Translator, f: Flavour, lang: string, textDict: Dict<string>,
                          entry: FailedBatch, p: Progress): (q: Progress)
    requires ValidDict(textDict) && Good(p) && |p.state.failed| > 0 && p.state.failed[0] == entry
    ensures Good(q)
    ensures q.state.failed == p.state.failed[1..] && p.state.completed <= q.state.completed
    ensures forall k :: HasKey(p.state.translated, k) ==> HasKey(q.state.translated, k)
    ensures q.state.duplicates == p.state.duplicates && q.state.totalItems == p.state.totalItems
    ensures Mirrored(p) ==> Mirrored(q)
  {
    var subs := SubBatches(f, lang, textDict, entry);
    var q := RunSubs(tr, entry.batchId, subs, 0, p);
    q.(state := q.state.(failed := RemoveFirst(q.state.failed, entry)))
  }

  /** `for failed_batch in list(failed_batches)`: every entry of the snapshot
      is processed and removed, so none is left. */
  function Reconcile(tr: Translator, f: Flavour, lang: string, textDict: Dict<string>,
                     entries: seq<FailedBatch>, p: Progress): (q: Progress)
    requires ValidDict(textDict) && Good(p) && p.state.failed == entries
    ensures Good(q)
    ensures q.state.failed == [] && p.state.completed <= q.state.completed
    ensures forall k :: HasKey(p.state.translated, k) ==> HasKey(q.state.translated, k)
    ensures q.state.duplicates == p.state.duplicates && q.state.totalItems == p.state.totalItems
    ensures Mirrored(p) ==> Mirrored(q)
    decreases |entries|
  {
    if |entries| == 0 then p
    else
      var p' := ReconcileEntry(tr, f, lang, textDict, entries[0], p);
      Reconcile(tr, f, lang, textDict, entries[1..], p')
  }

  // ---------------------------------------------------------------------------
  // The final sweep

  function FinalChunkSize(lang: string): nat {
    if CjkTarget(lang) then 50 else 100
  }

  /** `f"final_{chunk_idx + 1}"` when there are several chunks, else `"final"`. */
  function FinalLabel(count: nat, i: nat): string {
    if count > 1 then "final_" + NatToString(i + 1) else "final"
  }

  /** The chunks `i..` of the sweep in ultimate_pptx_translator.py: a failure
      is swallowed, a success merged into the result and the recovery state. */
  function SweepChunks(tr: Translator, cs: seq<Dict<string>>, i: nat, p: Progress): (q: Progress)
    requires i <= |cs| && Good(p)
    ensures Good(q)
    ensures q.state == p.state.(translated := q.state.translated)
    ensures forall k :: HasKey(p.state.translated, k) ==> HasKey(q.state.translated, k)
    ensures forall k :: HasKey(p.work, k) ==> HasKey(q.work, k)
    ensures forall j, k ::
      (i <= j < |cs| && tr(FinalLabel(|cs|, j), cs[j], SubRetries).Ok?
       && k in Keys(tr(FinalLabel(|cs|, j), cs[j], SubRetries).value)) ==> HasKey(q.work, k)
    decreases |cs| - i
  {
    if i == |cs| then p
    else
      var r := tr(FinalLabel(|cs|, i), cs[i], SubRetries);
      var p' := if r.Ok? then Absorb(p, r.value) else p;
      SweepChunks(tr, cs, i + 1, p')
  }

  /** The final sweep over the keys still missing from the result. ultimate
      sends them in chunks of 50 (CJK targets) or 100 through `translate_batch`;
      the other three send them all in one call with no retry. */
  function FinalSweep(tr: Translator, f: Flavour, lang: string, textDict: Dict<string>, p: Progress)
    : (q: Progress)
    requires ValidDict(textDict) && Good(p)
    ensures Good(q)
    ensures q.state == p.state.(translated := q.state.translated)
    ensures forall k :: HasKey(p.state.translated, k) ==> HasKey(q.state.translated, k)
    ensures forall k :: HasKey(p.work, k) ==> HasKey(q.work, k)
  {
    var m := Remaining(textDict, p.work);
    if |m| == 0 then p
    else if f == Ultimate then SweepChunks(tr, Chunk(m, FinalChunkSize(lang)), 0, p)
    else
      match tr("final", m, 0)
      case Ok(res) => Absorb(p, res)
      case Raised(_) => p
  }
}
