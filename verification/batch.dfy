/** `translate_batch`: up to `max_retries + 1` calls to the model. Each reply is
    unfenced, decoded by the strict parse, `repair_json` and
    `extract_json_blocks` in turn, and its string values are passed through
    `clean_text`. */
module Batch {
  import opened Wrappers
  import opened Strings
  import opened Dicts
  import opened Json
  import opened Repair
  import opened Blocks

  const Fence: string := "```"
  const JsonFence: string := "```json"

  /** The text from `from` up to the next occurrence of `p` at or after `from`,
      or to the end: one element of `s.split(p)`. */
  function Segment(s: string, p: string, from: nat): (r: string)
    requires |p| > 0 && from <= |s|
    ensures !Contains(r, p)
    ensures PrefixOf(r, s[from..])
  {
    var e := match FindFrom(s, p, from) case Some(e) => e case None => |s|;
    SegmentFree(s, p, from, e);
    s[from..e]
  }

  lemma SegmentFree(s: string, p: string, from: nat, e: nat)
    requires |p| > 0 && from <= |s|
    requires e == match FindFrom(s, p, from) case Some(e) => e case None => |s|
    ensures from <= e <= |s|
    ensures !Contains(s[from..e], p)
  {
    forall i: nat | i <= e - from ensures !StartsAt(s[from..e], i, p) {
      if StartsAt(s[from..e], i, p) {
        assert s[from..e][i..i + |p|] == s[from + i..from + i + |p|];
        assert StartsAt(s, from + i, p);
      }
    }
  }

  /** `FindFrom` lands on the first occurrence at or after `from`. */
  lemma FindFromAt(s: string, p: string, from: nat, n: nat)
    requires |p| > 0 && from <= n && StartsAt(s, n, p)
    requires forall j: nat :: from <= j < n ==> !StartsAt(s, j, p)
    ensures FindFrom(s, p, from) == Some(n)
  {
  }

  /** When `q` sits at `from` and is followed by `p` or by the end of the text,
      and `q` cannot hold the first character of `p`, the segment is `q`. */
  lemma SegmentStops(s: string, p: string, from: nat, q: string)
    requires |p| > 0 && from + |q| <= |s| && s[from..from + |q|] == q && p[0] !in q
    requires from + |q| == |s| || StartsAt(s, from + |q|, p)
    ensures Segment(s, p, from) == q
  {
    forall j: nat | from <= j < from + |q| ensures !StartsAt(s, j, p) {
      assert s[j] == q[j - from];
    }
    if StartsAt(s, from + |q|, p) {
      FindFromAt(s, p, from, from + |q|);
    } else {
      assert forall j: nat :: from + |q| <= j ==> !StartsAt(s, j, p);
    }
  }

  /** The payload of a reply: the text after the first "```json" up to the
      following fence, else the segment after the first plain fence, else the
      whole reply; stripped in every case. No fence survives. */
  function Unfence(s: string): (r: string)
    ensures !Contains(r, Fence)
  {
    match Find(s, JsonFence)
    case Some(i) =>
      var inner := Segment(Segment(s, JsonFence, i + |JsonFence|), Fence, 0);
      StripKeepsAbsent(inner, Fence);
      Strip(inner)
    case None =>
      match Find(s, Fence)
      case Some(i) =>
        var inner := Segment(s, Fence, i + |Fence|);
        StripKeepsAbsent(inner, Fence);
        Strip(inner)
      case None =>
        StripKeepsAbsent(s, Fence);
        Strip(s)
  }

  lemma StripKeepsAbsent(s: string, p: string)
    requires !Contains(s, p)
    ensures !Contains(Strip(s), p)
  {
    ContainsSlice(s, StripStart(s), StripEnd(s), p);
  }

  predicate NoTick(s: string) {
    forall i :: 0 <= i < |s| ==> s[i] != '`'
  }

  /** A fence needs three backticks in a row. */
  lemma FenceNeedsTicks(s: string, j: nat, p: string)
    requires |p| >= 3 && p[..3] == Fence
    ensures StartsAt(s, j, p) ==> s[j] == '`' && s[j + 1] == '`' && s[j + 2] == '`'
  {
    if StartsAt(s, j, p) {
      assert s[j..j + |p|][..3] == s[j..j + 3];
    }
  }

  lemma NoTickNoFence(s: string, from: nat, p: string)
    requires |p| >= 3 && p[..3] == Fence && from <= |s| && NoTick(s[from..])
    ensures forall j: nat :: from <= j ==> !StartsAt(s, j, p)
  {
    forall j: nat | from <= j ensures !StartsAt(s, j, p) {
      FenceNeedsTicks(s, j, p);
      if j < |s| {
        assert s[from..][j - from] == s[j];
      }
    }
  }

  /** Behind a prefix without backticks, the first fence-like marker is found
      where it starts. */
  lemma FirstMarker(s: string, n: nat, p: string)
    requires |p| >= 3 && p[..3] == Fence && n <= |s| && NoTick(s[..n]) && StartsAt(s, n, p)
    ensures FindFrom(s, p, 0) == Some(n)
  {
    forall j: nat | j < n ensures !StartsAt(s, j, p) {
      FenceNeedsTicks(s, j, p);
      assert s[..n][j] == s[j];
    }
    FindFromAt(s, p, 0, n);
  }

  /** A reply without backticks is only stripped. */
  lemma UnfenceNoTicks(s: string)
    requires NoTick(s)
    ensures Unfence(s) == Strip(s)
  {
    assert s[0..] == s;
    NoTickNoFence(s, 0, JsonFence);
    NoTickNoFence(s, 0, Fence);
    assert !Contains(s, JsonFence) && !Contains(s, Fence);
  }

  /** After `a` the text is `p`, a fence and `post`, all without other
      backticks: a "```json" marker can only start right after `p`. */
  lemma NoMarkerInside(s: string, a: nat, p: string, post: string)
    requires a <= |s| && s[a..] == p + Fence + post && NoTick(p) && NoTick(post)
    ensures forall j: nat :: a <= j && j != a + |p| ==> !StartsAt(s, j, JsonFence)
  {
    var b := a + |p|;
    forall j: nat | a <= j && j != b ensures !StartsAt(s, j, JsonFence) {
      FenceNeedsTicks(s, j, JsonFence);
      if j < b {
        assert s[j] == s[a..][j - a] == p[j - a];
      } else if j + 2 < |s| {
        assert s[j + 2] == s[a..][j + 2 - a] == post[j + 2 - b - 3];
      }
    }
  }

  /** The payload between the marker at `a - 7` and the closing fence. */
  lemma JsonPayload(s: string, a: nat, p: string, post: string)
    requires a <= |s| && s[a..] == p + Fence + post && NoTick(p) && NoTick(post)
    ensures Segment(Segment(s, JsonFence, a), Fence, 0) == p
  {
    var b := a + |p|;
    assert s[a..b] == s[a..][..|p|] == p;
    assert p[0..|p|] == p;
    if StartsAt(s, b, JsonFence) {
      SegmentStops(s, JsonFence, a, p);
      SegmentStops(p, Fence, 0, p);
    } else {
      NoMarkerInside(s, a, p, post);
      assert FindFrom(s, JsonFence, a).None?;
      var o := s[a..];
      assert Segment(s, JsonFence, a) == o;
      assert o[0..|p|] == p && o[|p|..|p| + 3] == Fence;
      SegmentStops(o, Fence, 0, p);
    }
  }

  /** A payload inside a "```json" block is recovered, stripped, whatever prose
      surrounds the block. */
  lemma UnfenceJsonBlock(pre: string, p: string, post: string)
    requires NoTick(pre) && NoTick(p) && NoTick(post)
    ensures Unfence(pre + JsonFence + p + Fence + post) == Strip(p)
  {
    var s := pre + JsonFence + p + Fence + post;
    var a := |pre| + |JsonFence|;
    assert s[..|pre|] == pre && s[|pre|..a] == JsonFence;
    FirstMarker(s, |pre|, JsonFence);
    assert s[a..] == p + Fence + post;
    JsonPayload(s, a, p, post);
  }

  /** Without a "```json" marker, a payload inside a plain fence is recovered. */
  lemma UnfencePlainBlock(pre: string, p: string, post: string)
    requires NoTick(pre) && NoTick(p)
    requires !Contains(pre + Fence + p + Fence + post, JsonFence)
    ensures Unfence(pre + Fence + p + Fence + post) == Strip(p)
  {
    var s := pre + Fence + p + Fence + post;
    var a := |pre| + 3;
    assert s[..|pre|] == pre && s[|pre|..a] == Fence;
    assert s[a..a + |p|] == p && s[a + |p|..a + |p| + 3] == Fence;
    assert Fence[..3] == Fence;
    FirstMarker(s, |pre|, Fence);
    SegmentStops(s, Fence, a, p);
  }

  const VT: char := '\U{000B}'

  /** None of the three literal escape sequences `clean_text` rewrites. */
  predicate Cleaned(s: string) {
    !Contains(s, "\\n") && !Contains(s, "\\u000b") && !Contains(s, "\\t")
  }

  /** `clean_text`: literal `\n`, `\u000b` and `\t` become newline, vertical
      tab and tab, in that order. */
  function CleanText(s: string): (r: string)
    ensures Cleaned(r)
  {
    var a := ReplaceAll(s, "\\n", "\n");
    var b := ReplaceAll(a, "\\u000b", [VT]);
    var c := ReplaceAll(b, "\\t", "\t");
    ReplaceAllRemoves(s, "\\n", '\n');
    ReplaceAllRemoves(a, "\\u000b", VT);
    ReplaceAllKeepsAbsent(a, "\\u000b", VT, "\\n");
    ReplaceAllRemoves(b, "\\t", '\t');
    ReplaceAllKeepsAbsent(b, "\\t", '\t', "\\n");
    ReplaceAllKeepsAbsent(b, "\\t", '\t', "\\u000b");
    c
  }

  /** Text already free of the three sequences is left as it is. */
  lemma CleanTextKeepsCleaned(s: string)
    requires Cleaned(s)
    ensures CleanText(s) == s
  {
    ReplaceAllAbsent(s, "\\n", "\n");
    ReplaceAllAbsent(s, "\\u000b", [VT]);
    ReplaceAllAbsent(s, "\\t", "\t");
  }

  /** Hence `clean_text` is idempotent. */
  lemma CleanTextIdempotent(s: string)
    ensures CleanText(CleanText(s)) == CleanText(s)
  {
    CleanTextKeepsCleaned(CleanText(s));
  }

  /** Text without a backslash is never changed. */
  lemma CleanTextNoBackslash(s: string)
    requires forall i :: 0 <= i < |s| ==> s[i] != '\\'
    ensures CleanText(s) == s
  {
    forall q: string | |q| > 0 && q[0] == '\\' ensures !Contains(s, q) {
      forall i: nat | i <= |s| ensures !StartsAt(s, i, q) {
        if i + |q| <= |s| {
          assert s[i..i + |q|][0] == s[i];
        }
      }
    }
    CleanTextKeepsCleaned(s);
  }

  /** The `clean_text` pass over a decoded batch: string values are cleaned,
      every other value and every key stays as it is. */
  function CleanValues(d: Dict<Value>): (r: Dict<Value>)
    ensures Keys(r) == Keys(d)
    ensures forall i :: 0 <= i < |d| ==> (r[i].1.Str? <==> d[i].1.Str?)
    ensures forall i :: 0 <= i < |d| && !d[i].1.Str? ==> r[i].1 == d[i].1
    ensures forall i :: 0 <= i < |r| && r[i].1.Str? ==> Cleaned(r[i].1.s)
  {
    seq(|d|, i requires 0 <= i < |d| =>
      (d[i].0, if d[i].1.Str? then Str(CleanText(d[i].1.s)) else d[i].1))
  }

  /** A batch whose strings are already clean comes back unchanged. */
  lemma CleanValuesKeepsCleaned(d: Dict<Value>)
    requires forall i :: 0 <= i < |d| && d[i].1.Str? ==> Cleaned(d[i].1.s)
    ensures CleanValues(d) == d
  {
    forall i | 0 <= i < |d| && d[i].1.Str? ensures CleanValues(d)[i] == d[i] {
      CleanTextKeepsCleaned(d[i].1.s);
    }
  }

  /** How one attempt ended. `Unreadable`: no decoder produced a mapping (the
      loop waits 3 seconds). `Broken`: an exception reached the outer handler
      (the loop waits 5 seconds). */
  datatype Verdict = Decoded(fields: Dict<Value>) | Unreadable | Broken(error: Error)

  /** A reply from the model: its text, or the exception the client raised. */
  datatype Reply = Answer(text: string) | Failure(message: string)

  /** The model, queried once per attempt number. */
  type Api = nat -> Reply

  /** The decoding chain on the unfenced payload: `Ok(None)` when nothing
      truthy came out of the last resort. */
  function DecodeChain(parse: Parser, v: Variant, c: string): (r: Outcome<Option<JsonValue>>)
    ensures parse(c).Parsed? ==> r == Ok(Some(parse(c).value))
    ensures r.Raised? ==> v == Lean && r.error == NotAMapping
    ensures r == Ok(None) ==> !parse(c).Parsed? && RepairJson(parse, v, c).Raised?
    ensures !parse(c).Parsed? && RepairJson(parse, v, c).Ok? ==> r == Ok(Some(RepairJson(parse, v, c).value))
    ensures !parse(c).Parsed? && RepairJson(parse, v, c).Raised? && v == Full ==>
      var e := ExtractFull(parse, c);
      r == if e.Some? && |e.value| > 0 then Ok(Some(JObject(e.value))) else Ok(None)
    ensures !parse(c).Parsed? && RepairJson(parse, v, c).Raised? && v == Lean ==>
      var e := ExtractLean(parse, c);
      && (e.Ok? ==> r == if e.value.Some? && |e.value.value| > 0 then Ok(Some(JObject(e.value.value))) else Ok(None))
      && (e.Raised? ==> r == Raised(e.error))
  {
    match parse(c)
    case Parsed(j) => Ok(Some(j))
    case Malformed =>
      match RepairJson(parse, v, c)
      case Ok(j) => Ok(Some(j))
      case Raised(_) =>
        if v == Full then
          match ExtractFull(parse, c)
          case Some(d) => if |d| > 0 then Ok(Some(JObject(d))) else Ok(None)
          case None => Ok(None)
        else
          match ExtractLean(parse, c)
          case Raised(e) => Raised(e)
          case Ok(Some(d)) => if |d| > 0 then Ok(Some(JObject(d))) else Ok(None)
          case Ok(None) => Ok(None)
  }

  /** One reply read to the end: decoded, cleaned, or the reason it failed.
      A decoded value that is not an object fails at `.items()`. */
  function ReadReply(parse: Parser, v: Variant, text: string): (r: Verdict)
    ensures r.Decoded? ==> forall i :: 0 <= i < |r.fields| && r.fields[i].1.Str? ==> Cleaned(r.fields[i].1.s)
    ensures r.Unreadable? ==> !parse(Unfence(text)).Parsed?
    ensures r.Broken? ==> r.error == NotAMapping
  {
    match DecodeChain(parse, v, Unfence(text))
    case Raised(e) => Broken(e)
    case Ok(None) => Unreadable
    case Ok(Some(JObject(f))) => Decoded(CleanValues(f))
    case Ok(Some(JOther(_))) => Broken(NotAMapping)
  }

  /** A fenced object the strict parse accepts is returned, cleaned. */
  lemma ReadFencedObject(parse: Parser, v: Variant, pre: string, p: string, post: string, f: Dict<Value>)
    requires NoTick(pre) && NoTick(p) && NoTick(post)
    requires parse(Strip(p)) == Parsed(JObject(f))
    ensures ReadReply(parse, v, pre + JsonFence + p + Fence + post) == Decoded(CleanValues(f))
  {
    UnfenceJsonBlock(pre, p, post);
  }

  /** A reply whose payload no decoder can read, and which holds no `{`, is
      unreadable. */
  lemma ReadHopeless(parse: Parser, v: Variant, text: string)
    requires var c := Unfence(text);
      !parse(c).Parsed? && !parse(Mend(v, c)).Parsed? && |SalvageOf(v, c)| == 0
    requires forall i :: 0 <= i < |Unfence(text)| ==> Unfence(text)[i] != '{'
    ensures ReadReply(parse, v, text) == Unreadable
  {
    ExtractWithoutBraces(parse, Unfence(text));
  }

  /** How the loop reads a reply's text; in `translate_batch` it is
      `ReadReply(parse, v, _)`, kept a parameter so the loop's properties hold
      for every decoding chain. */
  type Reader = string -> Verdict

  /** The reader of `translate_batch`. */
  function ChainReader(parse: Parser, v: Variant): (read: Reader)
    ensures forall t :: read(t) == ReadReply(parse, v, t)
  {
    t => ReadReply(parse, v, t)
  }

  /** Attempt number `k`. A client exception skips decoding entirely. */
  function Attempt(read: Reader, api: Api, k: nat): (r: Verdict)
    ensures api(k).Failure? ==> r == Broken(ApiFailure(api(k).message))
    ensures api(k).Answer? ==> r == read(api(k).text)
  {
    match api(k)
    case Failure(m) => Broken(ApiFailure(m))
    case Answer(t) => read(t)
  }

  /** The seconds the loop sleeps after a failed attempt that is not the last. */
  function Pause(x: Verdict): (n: nat)
    requires !x.Decoded?
    ensures n == 3 <==> x.Unreadable?
  {
    if x.Unreadable? then 3 else 5
  }

  /** The exception a failed last attempt lets escape: the first decode error
      when nothing could be read, otherwise the one the handler caught. */
  function Escaping(x: Verdict): (e: Error)
    requires !x.Decoded?
    ensures x.Unreadable? ==> e == DecodeError
  {
    if x.Unreadable? then DecodeError else x.error
  }

  /** What a run of the loop did: its result, the attempts made, and the
      pauses between them. */
  datatype Run = Run(result: Outcome<Dict<Value>>, attempts: nat, pauses: seq<nat>)

  /** The loop over the verdicts of the attempts it may make, in order. */
  function Loop(xs: seq<Verdict>): (run: Run)
    requires |xs| > 0
    ensures 1 <= run.attempts <= |xs| && |run.pauses| == run.attempts - 1
    decreases |xs|
  {
    if xs[0].Decoded? then Run(Ok(xs[0].fields), 1, [])
    else if |xs| == 1 then Run(Raised(Escaping(xs[0])), 1, [])
    else
      var rest := Loop(xs[1..]);
      Run(rest.result, rest.attempts + 1, [Pause(xs[0])] + rest.pauses)
  }

  /** The loop stops at the first decoded attempt and returns it; before it,
      every attempt failed and was followed by its pause; a raising loop made
      every attempt and lets the last attempt's exception escape. */
  lemma {:induction false} LoopSpec(xs: seq<Verdict>)
    requires |xs| > 0
    ensures var run := Loop(xs);
      && (forall k :: 0 <= k < run.attempts - 1 ==> !xs[k].Decoded? && run.pauses[k] == Pause(xs[k]))
      && (run.result.Ok? ==> xs[run.attempts - 1] == Decoded(run.result.value))
      && (run.result.Raised? ==>
            run.attempts == |xs| && !xs[|xs| - 1].Decoded? && run.result.error == Escaping(xs[|xs| - 1]))
    decreases |xs|
  {
    if !xs[0].Decoded? && |xs| > 1 {
      LoopSpec(xs[1..]);
      var run := Loop(xs);
      var rest := Loop(xs[1..]);
      assert run.pauses == [Pause(xs[0])] + rest.pauses;
      forall k | 1 <= k < run.attempts - 1 ensures !xs[k].Decoded? && run.pauses[k] == Pause(xs[k]) {
        assert xs[1..][k - 1] == xs[k];
      }
      if run.result.Ok? {
        assert xs[1..][rest.attempts - 1] == xs[run.attempts - 1];
      }
    }
  }

  /** The loop succeeds iff some attempt decodes. */
  lemma LoopSucceeds(xs: seq<Verdict>)
    requires |xs| > 0
    ensures Loop(xs).result.Ok? <==> exists k :: 0 <= k < |xs| && xs[k].Decoded?
  {
    LoopSpec(xs);
    var run := Loop(xs);
    if run.result.Raised? {
      forall k | 0 <= k < |xs| ensures !xs[k].Decoded? {
        if k < |xs| - 1 {
          assert k < run.attempts - 1;
        }
      }
    } else {
      assert xs[run.attempts - 1].Decoded?;
    }
  }

  /** The verdicts of attempts `0 ..= max_retries`. */
  function Attempts(read: Reader, api: Api, maxRetries: nat): (xs: seq<Verdict>)
    ensures |xs| == maxRetries + 1
    ensures forall k :: 0 <= k <= maxRetries ==> xs[k] == Attempt(read, api, k)
  {
    seq(maxRetries + 1, k requires 0 <= k <= maxRetries => Attempt(read, api, k))
  }

  /** `translate_batch(batch, ..., max_retries)` with the model as `api` and
      `read` decoding each reply. */
  function TranslateBatch(read: Reader, api: Api, maxRetries: nat): (run: Run)
    ensures 1 <= run.attempts <= maxRetries + 1
  {
    Loop(Attempts(read, api, maxRetries))
  }

  /** The loop succeeds iff some attempt within the budget decodes, and then it
      returns the first one that does. */
  lemma TranslateBatchFirstSuccess(read: Reader, api: Api, maxRetries: nat)
    ensures var run := TranslateBatch(read, api, maxRetries);
      && (run.result.Ok? <==> exists k :: 0 <= k <= maxRetries && Attempt(read, api, k).Decoded?)
      && (forall k :: 0 <= k < run.attempts - 1 ==> !Attempt(read, api, k).Decoded?)
      && (run.result.Ok? ==> Attempt(read, api, run.attempts - 1) == Decoded(run.result.value))
      && (run.result.Raised? ==> run.attempts == maxRetries + 1)
  {
    var xs := Attempts(read, api, maxRetries);
    LoopSpec(xs);
    LoopSucceeds(xs);
    if exists k :: 0 <= k <= maxRetries && Attempt(read, api, k).Decoded? {
      var k :| 0 <= k <= maxRetries && Attempt(read, api, k).Decoded?;
      assert xs[k].Decoded?;
    }
  }

  /** With every reply unreadable the loop makes all its attempts, sleeps 3
      seconds between them and raises the decode error. */
  lemma TranslateBatchAllUnreadable(read: Reader, api: Api, maxRetries: nat)
    requires forall k :: 0 <= k <= maxRetries ==> Attempt(read, api, k) == Unreadable
    ensures TranslateBatch(read, api, maxRetries) == Run(Raised(DecodeError), maxRetries + 1, Repeat3(maxRetries))
  {
    var xs := Attempts(read, api, maxRetries);
    var run := Loop(xs);
    LoopSpec(xs);
    TranslateBatchFirstSuccess(read, api, maxRetries);
    assert run.result.Raised?;
    assert run.pauses == Repeat3(maxRetries) by {
      forall k | 0 <= k < maxRetries ensures run.pauses[k] == 3 {
        assert xs[k] == Unreadable;
      }
    }
  }

  function Repeat3(n: nat): (r: seq<nat>)
    ensures |r| == n && forall k :: 0 <= k < n ==> r[k] == 3
  {
    seq(n, _ => 3)
  }

  /** The `for retry in range(max_retries + 1)` loop written as the source
      writes it, over the attempts' verdicts; it keeps the pauses it sleeps. */
  method RetryLoop(xs: seq<Verdict>) returns (result: Outcome<Dict<Value>>, attempts: nat, pauses: seq<nat>)
    requires |xs| > 0
    ensures 1 <= attempts <= |xs| && |pauses| == attempts - 1
    ensures forall k :: 0 <= k < attempts - 1 ==> !xs[k].Decoded? && pauses[k] == Pause(xs[k])
    ensures result.Ok? ==> xs[attempts - 1] == Decoded(result.value)
    ensures result.Raised? ==>
      && attempts == |xs|
      && !xs[|xs| - 1].Decoded?
      && result.error == Escaping(xs[|xs| - 1])
  {
    var retry := 0;
    pauses := [];
    while true
      invariant retry < |xs| && |pauses| == retry
      invariant forall k :: 0 <= k < retry ==> !xs[k].Decoded? && pauses[k] == Pause(xs[k])
      decreases |xs| - retry
    {
      var x := xs[retry];
      if x.Decoded? {
        return Ok(x.fields), retry + 1, pauses;
      }
      if retry == |xs| - 1 {
        return Raised(Escaping(x)), retry + 1, pauses;
      }
      pauses := pauses + [Pause(x)];
      retry := retry + 1;
    }
  }
}
