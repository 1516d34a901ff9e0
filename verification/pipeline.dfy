/** `translate_text` end to end: setup, the batch loop and reconciliation (or
    the nothing-remaining shortcut), the duplicate fan-out and the final sweep. */
module Pipeline {
  import opened Wrappers
  import opened Dicts
  import opened Json
  import opened Partition
  import opened Dedup
  import opened Chunks
  import opened Orchestrator

  /** The result before the final sweep. When nothing remains it is a plain
      copy of `translated_items`, with no fan-out; otherwise it is the fan-out
      of `translated_items` as the batch loops left it, and no failed batch is
      left over. */
  function BeforeSweep(tr: Translator, f: Flavour, lang: string, textDict: Dict<string>, w: Work)
    : (p: Progress)
    requires ValidDict(textDict) && ValidDict(w.unique) && ValidDict(w.duplicates) && WellFormed(w.state)
    ensures Good(p)
    ensures forall k :: HasKey(w.state.translated, k) ==> HasKey(p.state.translated, k)
    ensures p.state.duplicates == w.state.duplicates && p.state.totalItems == w.state.totalItems
    ensures w.state.completed <= p.state.completed
    ensures |Remaining(w.unique, w.state.translated)| == 0 ==> p == Progress(w.state.translated, w.state)
    ensures |Remaining(w.unique, w.state.translated)| > 0 ==>
      p.state.failed == [] && p.work == FanOut(p.state.translated, w.duplicates)
  {
    var rem := Remaining(w.unique, w.state.translated);
    if |rem| == 0 then Progress(FromItems(w.state.translated), w.state)
    else
      var batches := SmartBatches(EstimatorOf(f), rem, BatchBudget(f, lang), PromptTokens).value;
      var p0 := Progress(w.state.translated, w.state);
      var p1 := MainLoop(tr, DefaultRetries(f), batches, 0, p0);
      var p2 := Reconcile(tr, f, lang, textDict, p1.state.failed, p1);
      FanOutSpec(p2.work, w.duplicates);
      Progress(FanOut(p2.work, w.duplicates), p2.state)
  }

  /** `translate_text(text_dict, ...)` resumed from (or started with) the
      recovery state `s0`: the translated dict and the final recovery state.
      Keys of `translated_items` are never lost and completed ids are only
      appended. When work remains, every failed batch, old or new, is retried
      and removed, so `failed_batches` ends empty; when nothing remains, the
      failed batches of the resumed state are left as they were. */
  function TranslateText(tr: Translator, f: Flavour, lang: string, textDict: Dict<string>, s0: State)
    : (p: Progress)
    requires ValidDict(textDict) && WellFormed(s0)
    ensures Good(p)
    ensures forall k :: HasKey(s0.translated, k) ==> HasKey(p.state.translated, k)
    ensures s0.completed <= p.state.completed && p.state.totalItems == s0.totalItems
    ensures |s0.translated| > 0 ==> p.state.duplicates == s0.duplicates
    ensures var w := Setup(textDict, s0);
      && (|Remaining(w.unique, w.state.translated)| > 0 ==> p.state.failed == [])
      && (|Remaining(w.unique, w.state.translated)| == 0 ==> p.state.failed == s0.failed)
  {
    FinalSweep(tr, f, lang, textDict, BeforeSweep(tr, f, lang, textDict, Setup(textDict, s0)))
  }

  /** On resume with the map a fresh run stored, the work set is exactly the
      keys that are NOT representatives: the translated representatives are
      left out and their duplicates are sent again. */
  lemma ResumeWorksOnDuplicates(textDict: Dict<string>, s0: State, k: string)
    requires ValidDict(textDict) && WellFormed(s0) && |s0.translated| > 0
    requires s0.duplicates == Deduplicate(textDict).1
    ensures HasKey(Setup(textDict, s0).unique, k) <==>
      HasKey(textDict, k) && !HasKey(Deduplicate(textDict).0, k)
  {
    DupValuesAreRepresentatives(textDict, k);
  }

  /** The backend answers every call, with a value for every key of the batch. */
  ghost predicate Answers(o: Outcome<Dict<Value>>, b: Dict<string>) {
    o.Ok? && forall k :: HasKey(b, k) ==> k in Keys(o.value)
  }

  ghost predicate Covers(tr: Translator) {
    forall id, b, n :: Answers(tr(id, b, n), b)
  }

  lemma {:induction false} ConcatKeys(cs: seq<Dict<string>>, k: string)
    requires HasKey(Concat(cs), k)
    ensures exists j :: 0 <= j < |cs| && HasKey(cs[j], k)
  {
    KeysAppend(cs[0], Concat(cs[1..]));
    if !HasKey(cs[0], k) {
      ConcatKeys(cs[1..], k);
      var j :| 0 <= j < |cs[1..]| && HasKey(cs[1..][j], k);
      assert cs[1..][j] == cs[j + 1];
    }
  }

  /** With a backend that always answers in full, the final sweep fills every
      key of `text_dict` that was still missing. */
  lemma SweepCompletes(tr: Translator, f: Flavour, lang: string, textDict: Dict<string>, p: Progress)
    requires ValidDict(textDict) && Good(p) && Covers(tr)
    ensures forall k :: HasKey(textDict, k) ==> HasKey(FinalSweep(tr, f, lang, textDict, p).work, k)
  {
    var m := Remaining(textDict, p.work);
    forall k | HasKey(textDict, k) ensures HasKey(FinalSweep(tr, f, lang, textDict, p).work, k) {
      if HasKey(m, k) {
        if f == Ultimate {
          var cs := Chunk(m, FinalChunkSize(lang));
          ChunkCovers(m, FinalChunkSize(lang));
          ConcatKeys(cs, k);
          var j :| 0 <= j < |cs| && HasKey(cs[j], k);
          assert Answers(tr(FinalLabel(|cs|, j), cs[j], SubRetries), cs[j]);
        } else {
          assert Answers(tr("final", m, 0), m);
        }
      }
    }
  }

  /** Hence, whatever the recovery state, a backend that always answers in full
      leaves no key of `text_dict` untranslated. */
  lemma Completeness(tr: Translator, f: Flavour, lang: string, textDict: Dict<string>, s0: State)
    requires ValidDict(textDict) && WellFormed(s0) && Covers(tr)
    ensures forall k :: HasKey(textDict, k) ==> HasKey(TranslateText(tr, f, lang, textDict, s0).work, k)
  {
    SweepCompletes(tr, f, lang, textDict, BeforeSweep(tr, f, lang, textDict, Setup(textDict, s0)));
  }

  /** A backend that always raises. */
  ghost predicate Down(tr: Translator) {
    forall id, b, n :: tr(id, b, n).Raised?
  }

  /** When nothing remains and the backend is down, the result is
      `translated_items` as stored: a duplicate whose representative is
      translated does not receive that translation. */
  lemma NothingRemainingNoFanOut(tr: Translator, f: Flavour, lang: string, textDict: Dict<string>, s0: State)
    requires ValidDict(textDict) && WellFormed(s0) && Down(tr)
    requires |Remaining(Setup(textDict, s0).unique, s0.translated)| == 0
    ensures TranslateText(tr, f, lang, textDict, s0).work == s0.translated
  {
    var w := Setup(textDict, s0);
    var p := BeforeSweep(tr, f, lang, textDict, w);
    assert p.work == s0.translated;
    DownFinalSweep(tr, f, lang, textDict, p);
  }

  /** A backend that is down leaves the final sweep without effect. */
  lemma DownFinalSweep(tr: Translator, f: Flavour, lang: string, textDict: Dict<string>, p: Progress)
    requires ValidDict(textDict) && Good(p) && Down(tr)
    ensures FinalSweep(tr, f, lang, textDict, p) == p
  {
    var m := Remaining(textDict, p.work);
    if |m| > 0 {
      if f == Ultimate {
        DownSweep(tr, Chunk(m, FinalChunkSize(lang)), 0, p);
      } else {
        assert tr("final", m, 0).Raised?;
      }
    }
  }

  lemma {:induction false} DownSweep(tr: Translator, cs: seq<Dict<string>>, i: nat, p: Progress)
    requires i <= |cs| && Good(p) && Down(tr)
    ensures SweepChunks(tr, cs, i, p) == p
    decreases |cs| - i
  {
    if i < |cs| {
      assert tr(FinalLabel(|cs|, i), cs[i], SubRetries).Raised?;
      DownSweep(tr, cs, i + 1, p);
    }
  }

  /** The final chunks of ultimate_pptx_translator.py: `ceil(n / size)` of them,
      at most `size` keys each, together the missing items in order. */
  lemma FinalChunksPartition(lang: string, m: Dict<string>)
    ensures var cs := Chunk(m, FinalChunkSize(lang));
      && Concat(cs) == m
      && |cs| == CeilDiv(|m|, FinalChunkSize(lang))
      && forall j :: 0 <= j < |cs| ==> 0 < |cs[j]| <= FinalChunkSize(lang)
  {
    ChunkCovers(m, FinalChunkSize(lang));
    ChunkCount(m, FinalChunkSize(lang));
  }
}
