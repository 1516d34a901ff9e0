/** The before/after comparison of compare_pptx.py: each text element of a deck
    is classified as Japanese, English, mixed or other and counted; the
    comparison lists the English elements left in the translated deck and the
    shapes whose font sizes changed. */
module Compare {
  import opened Wrappers
  import opened Strings

  // ---------------------------------------------------------------------------
  // Classification

  /** The class `has_japanese` searches for: CJK symbols and punctuation,
      hiragana, katakana, half- and full-width forms, and the CJK unified
      ideographs up to U+9FAF. */
  predicate IsJapanese(c: char) {
    var n := c as int;
    || (0x3000 <= n <= 0x303F) || (0x3040 <= n <= 0x309F) || (0x30A0 <= n <= 0x30FF)
    || (0xFF00 <= n <= 0xFF9F) || (0x4E00 <= n <= 0x9FAF)
  }

  /** `has_japanese`: a search for one character of the class. */
  function HasJapanese(t: string): (b: bool)
    ensures b <==> exists i :: 0 <= i < |t| && IsJapanese(t[i])
  {
    if |t| == 0 then false
    else if IsJapanese(t[0]) then true
    else
      var b := HasJapanese(t[1..]);
      assert forall i :: 1 <= i < |t| ==> t[i] == t[1..][i - 1];
      b
  }

  /** `has_english`: a search for `[a-zA-Z]`. */
  function HasEnglish(t: string): (b: bool)
    ensures b <==> exists i :: 0 <= i < |t| && IsAsciiLetter(t[i])
  {
    if |t| == 0 then false
    else if IsAsciiLetter(t[0]) then true
    else
      var b := HasEnglish(t[1..]);
      assert forall i :: 1 <= i < |t| ==> t[i] == t[1..][i - 1];
      b
  }

  datatype Kind = Mixed | Japanese | English | OtherKind

  /** The `text_type` of a text: both kinds of character make it mixed. */
  function Classify(t: string): (k: Kind)
    ensures k == Mixed <==> HasJapanese(t) && HasEnglish(t)
    ensures k == Japanese <==> HasJapanese(t) && !HasEnglish(t)
    ensures k == English <==> !HasJapanese(t) && HasEnglish(t)
    ensures k == OtherKind <==> !HasJapanese(t) && !HasEnglish(t)
  {
    var j := HasJapanese(t);
    var e := HasEnglish(t);
    if j && e then Mixed else if j then Japanese else if e then English else OtherKind
  }

  /** `text[:50] + ("..." if len(text) > 50 else "")` */
  function Preview(t: string): (p: string)
    ensures |p| <= 53
    ensures |t| <= 50 ==> p == t
    ensures |t| > 50 ==> |p| == 53 && p[..50] == t[..50] && p[50..] == "..."
  {
    if |t| > 50 then t[..50] + "..." else t
  }

  // ---------------------------------------------------------------------------
  // The deck as python-pptx shows it

  /** A text frame: its `text` and, per paragraph, the font size of each run
      (`None` when the run has none). */
  datatype Frame = Frame(text: string, paragraphs: seq<seq<Option<int>>>)

  /** A shape: its text frame if it has one, its table (rows of cell frames)
      if it has one. */
  datatype DeckShape = DeckShape(frame: Option<Frame>, table: Option<seq<seq<Frame>>>)

  datatype DeckSlide = DeckSlide(shapes: seq<DeckShape>)

  /** The truthy font sizes of a frame's runs, paragraph by paragraph. */
  function FontSizes(ps: seq<seq<Option<int>>>): (r: seq<int>)
    ensures forall i :: 0 <= i < |r| ==> r[i] != 0
    ensures forall x :: x in r <==> x != 0 && exists p :: p in ps && Some(x) in p
  {
    if |ps| == 0 then [] else RunSizes(ps[0]) + FontSizes(ps[1..])
  }

  /** The sizes of consecutive paragraphs follow one another, in run order. */
  lemma {:induction false} FontSizesAppend(ps: seq<seq<Option<int>>>, qs: seq<seq<Option<int>>>)
    ensures FontSizes(ps + qs) == FontSizes(ps) + FontSizes(qs)
    decreases |ps|
  {
    if |ps| == 0 {
      assert ps + qs == qs;
    } else {
      assert (ps + qs)[1..] == ps[1..] + qs;
      FontSizesAppend(ps[1..], qs);
    }
  }

  /** The sizes of consecutive runs follow one another, in run order. */
  lemma {:induction false} RunSizesAppend(xs: seq<Option<int>>, ys: seq<Option<int>>)
    ensures RunSizes(xs + ys) == RunSizes(xs) + RunSizes(ys)
    decreases |xs|
  {
    if |xs| == 0 {
      assert xs + ys == ys;
    } else {
      assert (xs + ys)[1..] == xs[1..] + ys;
      RunSizesAppend(xs[1..], ys);
    }
  }

  function RunSizes(runs: seq<Option<int>>): (r: seq<int>)
    ensures forall i :: 0 <= i < |r| ==> r[i] != 0
    ensures forall x :: x in r <==> x != 0 && Some(x) in runs
  {
    if |runs| == 0 then []
    else (if runs[0].Some? && runs[0].value != 0 then [runs[0].value] else []) + RunSizes(runs[1..])
  }

  /** An entry of a slide's `shapes` or `tables` list. */
  datatype Info = Info(id: string, text: string, kind: Kind, fontSizes: seq<int>)

  /** The entry of a text frame whose stripped text is not empty. */
  function InfoOf(id: string, f: Frame): (x: Info)
    requires |Strip(f.text)| > 0
    ensures x.id == id && x.kind == Classify(Strip(f.text)) && x.text == Preview(Strip(f.text))
  {
    Info(id, Preview(Strip(f.text)), Classify(Strip(f.text)), FontSizes(f.paragraphs))
  }

  /** `f"slide_{n}_shape_{idx}"` */
  function ShapeId(n: nat, idx: nat): string {
    "slide_" + NatToString(n) + "_shape_" + NatToString(idx)
  }

  /** `f"slide_{n}_table_{idx}_r{row}_c{col}"` */
  function CellInfoId(n: nat, idx: nat, row: nat, col: nat): string {
    "slide_" + NatToString(n) + "_table_" + NatToString(idx) + "_r" + NatToString(row) + "_c" + NatToString(col)
  }

  /** The `shapes` entries of slide `n`, from shape `j` on. */
  function ShapeInfos(n: nat, shapes: seq<DeckShape>, j: nat): (xs: seq<Info>)
    requires j <= |shapes|
    decreases |shapes| - j
  {
    if j == |shapes| then []
    else
      var s := shapes[j];
      (if s.frame.Some? && |Strip(s.frame.value.text)| > 0 then [InfoOf(ShapeId(n, j), s.frame.value)] else [])
      + ShapeInfos(n, shapes, j + 1)
  }

  function RowInfos(n: nat, idx: nat, r: nat, cells: seq<Frame>, c: nat): (xs: seq<Info>)
    requires c <= |cells|
    decreases |cells| - c
  {
    if c == |cells| then []
    else
      (if |Strip(cells[c].text)| > 0 then [InfoOf(CellInfoId(n, idx, r, c), cells[c])] else [])
      + RowInfos(n, idx, r, cells, c + 1)
  }

  function TableInfos(n: nat, idx: nat, rows: seq<seq<Frame>>, r: nat): (xs: seq<Info>)
    requires r <= |rows|
    decreases |rows| - r
  {
    if r == |rows| then [] else RowInfos(n, idx, r, rows[r], 0) + TableInfos(n, idx, rows, r + 1)
  }

  /** The `tables` entries of slide `n`, from shape `j` on. */
  function CellInfos(n: nat, shapes: seq<DeckShape>, j: nat): (xs: seq<Info>)
    requires j <= |shapes|
    decreases |shapes| - j
  {
    if j == |shapes| then []
    else
      (if shapes[j].table.Some? then TableInfos(n, j, shapes[j].table.value, 0) else [])
      + CellInfos(n, shapes, j + 1)
  }

  datatype SlideData = SlideData(num: nat, shapes: seq<Info>, tables: seq<Info>)

  function SlideDataOf(i: nat, s: DeckSlide): SlideData {
    SlideData(i + 1, ShapeInfos(i + 1, s.shapes, 0), CellInfos(i + 1, s.shapes, 0))
  }

  /** Every entry of the report, slide by slide, shapes before cells. */
  function AllInfos(slides: seq<SlideData>): seq<Info> {
    if |slides| == 0 then [] else slides[0].shapes + slides[0].tables + AllInfos(slides[1..])
  }

  // ---------------------------------------------------------------------------
  // Counting

  /** The number of entries of kind `k`. */
  function CountKind(xs: seq<Info>, k: Kind): nat {
    if |xs| == 0 then 0 else CountKind(xs[..|xs| - 1], k) + (if xs[|xs| - 1].kind == k then 1 else 0)
  }

  lemma {:induction false} CountKindAppend(a: seq<Info>, b: seq<Info>, k: Kind)
    ensures CountKind(a + b, k) == CountKind(a, k) + CountKind(b, k)
    decreases |b|
  {
    if |b| == 0 {
      assert a + b == a;
    } else {
      var n := |b| - 1;
      assert (a + b)[..|a + b| - 1] == a + b[..n];
      assert (a + b)[|a + b| - 1] == b[n];
      assert b[..n] == b[..|b| - 1];
      CountKindAppend(a, b[..n], k);
    }
  }

  /** Every entry has exactly one kind: the total is the three counters plus
      the entries of no counter. */
  lemma {:induction false} KindsPartition(xs: seq<Info>)
    ensures |xs| == CountKind(xs, Japanese) + CountKind(xs, English) + CountKind(xs, Mixed) + CountKind(xs, OtherKind)
  {
    if |xs| > 0 {
      KindsPartition(xs[..|xs| - 1]);
    }
  }

  datatype Report = Report(
    slideCount: nat,
    total: nat,
    japanese: nat,
    english: nat,
    mixed: nat,
    slides: seq<SlideData>)

  /** The counters of `analyze_pptx`: one per element, and one of the three
      kind counters for every element that is not "other". */
  method Tally(xs: seq<Info>) returns (total: nat, japanese: nat, english: nat, mixed: nat)
    ensures total == |xs|
    ensures japanese == CountKind(xs, Japanese) && english == CountKind(xs, English)
    ensures mixed == CountKind(xs, Mixed)
    ensures total == japanese + english + mixed + CountKind(xs, OtherKind)
  {
    total, japanese, english, mixed := 0, 0, 0, 0;
    var i := 0;
    while i < |xs|
      invariant i <= |xs| && total == i
      invariant japanese == CountKind(xs[..i], Japanese) && english == CountKind(xs[..i], English)
      invariant mixed == CountKind(xs[..i], Mixed)
    {
      assert xs[..i + 1][..i] == xs[..i];
      total := total + 1;
      match xs[i].kind {
        case Mixed => mixed := mixed + 1;
        case Japanese => japanese := japanese + 1;
        case English => english := english + 1;
        case OtherKind =>
      }
      i := i + 1;
    }
    assert xs[..i] == xs;
    KindsPartition(xs);
  }

  /** `analyze_pptx` over a deck. */
  method Analyze(deck: seq<DeckSlide>) returns (r: Report)
    ensures r.slideCount == |deck| && |r.slides| == |deck|
    ensures forall i :: 0 <= i < |deck| ==> r.slides[i] == SlideDataOf(i, deck[i])
    ensures r.total == |AllInfos(r.slides)|
    ensures r.japanese == CountKind(AllInfos(r.slides), Japanese)
    ensures r.english == CountKind(AllInfos(r.slides), English)
    ensures r.mixed == CountKind(AllInfos(r.slides), Mixed)
  {
    var slides := seq(|deck|, i requires 0 <= i < |deck| => SlideDataOf(i, deck[i]));
    var total, japanese, english, mixed := Tally(AllInfos(slides));
    r := Report(|deck|, total, japanese, english, mixed, slides);
  }

  // ---------------------------------------------------------------------------
  // compare_pptx_files

  /** An entry of `untranslated`. */
  datatype Untranslated = Untranslated(id: string, text: string, slide: nat)

  /** The English entries of `xs`, in order, on slide `slide`. */
  function EnglishOf(xs: seq<Info>, slide: nat): (us: seq<Untranslated>)
    ensures |us| == CountKind(xs, English)
    ensures forall u :: u in us ==> u.slide == slide && exists x :: x in xs && x.kind == English && u.id == x.id && u.text == x.text
    ensures forall x :: x in xs && x.kind == English ==> Untranslated(x.id, x.text, slide) in us
  {
    if |xs| == 0 then []
    else
      var n := |xs| - 1;
      assert xs == xs[..n] + [xs[n]];
      EnglishOf(xs[..n], slide)
      + (if xs[n].kind == English then [Untranslated(xs[n].id, xs[n].text, slide)] else [])
  }

  /** The untranslated list over slides `i..` of the after report. */
  function UntranslatedFrom(slides: seq<SlideData>, i: nat): (us: seq<Untranslated>)
    requires i <= |slides|
    decreases |slides| - i
  {
    if i == |slides| then []
    else EnglishOf(slides[i].shapes, i + 1) + EnglishOf(slides[i].tables, i + 1) + UntranslatedFrom(slides, i + 1)
  }

  /** One entry per English element of the after deck. */
  lemma {:induction false} UntranslatedCount(slides: seq<SlideData>, i: nat)
    requires i <= |slides|
    ensures |UntranslatedFrom(slides, i)| == CountKind(AllInfos(slides[i..]), English)
    decreases |slides| - i
  {
    if i < |slides| {
      UntranslatedCount(slides, i + 1);
      assert slides[i..][1..] == slides[i + 1..];
      var s := slides[i];
      CountKindAppend(s.shapes, s.tables, English);
      CountKindAppend(s.shapes + s.tables, AllInfos(slides[i + 1..]), English);
    }
  }

  /** Every English element of the after deck is listed, with its slide number,
      and nothing else is. */
  lemma UntranslatedExact(after: Report, u: Untranslated)
    ensures u in UntranslatedFrom(after.slides, 0) <==>
      exists i :: 0 <= i < |after.slides| && u.slide == i + 1 &&
        exists x :: (x in after.slides[i].shapes || x in after.slides[i].tables)
          && x.kind == English && u.id == x.id && u.text == x.text
  {
    UntranslatedMember(after.slides, 0, u);
  }

  lemma {:induction false} UntranslatedMember(slides: seq<SlideData>, i: nat, u: Untranslated)
    requires i <= |slides|
    ensures u in UntranslatedFrom(slides, i) <==>
      exists j :: i <= j < |slides| && u.slide == j + 1 &&
        exists x :: (x in slides[j].shapes || x in slides[j].tables)
          && x.kind == English && u.id == x.id && u.text == x.text
    decreases |slides| - i
  {
    if i < |slides| {
      UntranslatedMember(slides, i + 1, u);
    }
  }

  /** An entry of `font_issues`. */
  datatype FontIssue = FontIssue(id: string, beforeText: string, afterText: string,
                                 beforeSizes: seq<int>, afterSizes: seq<int>)

  /** The pair is an issue: same id, both size lists non-empty, and different. */
  predicate Clash(b: Info, a: Info) {
    b.id == a.id && |b.fontSizes| > 0 && |a.fontSizes| > 0 && b.fontSizes != a.fontSizes
  }

  function IssueOf(b: Info, a: Info): FontIssue {
    FontIssue(b.id, b.text, a.text, b.fontSizes, a.fontSizes)
  }

  /** The issues of one before-shape against the after-shapes. */
  function ShapeIssues(b: Info, as_: seq<Info>): (r: seq<FontIssue>)
    ensures forall y :: y in r <==> exists a :: a in as_ && Clash(b, a) && y == IssueOf(b, a)
  {
    if |as_| == 0 then []
    else
      var n := |as_| - 1;
      assert as_ == as_[..n] + [as_[n]];
      ShapeIssues(b, as_[..n]) + (if Clash(b, as_[n]) then [IssueOf(b, as_[n])] else [])
  }

  /** The issues of a pair of slides: shapes only, tables are not compared. */
  function SlideIssues(bs: seq<Info>, as_: seq<Info>): (r: seq<FontIssue>)
    ensures forall y :: y in r <==> exists b, a :: b in bs && a in as_ && Clash(b, a) && y == IssueOf(b, a)
  {
    if |bs| == 0 then []
    else
      var n := |bs| - 1;
      assert bs == bs[..n] + [bs[n]];
      SlideIssues(bs[..n], as_) + ShapeIssues(bs[n], as_)
  }

  /** `font_issues` over the slides paired by `zip`, from pair `i` on. */
  function FontIssues(before: seq<SlideData>, after: seq<SlideData>, i: nat): (r: seq<FontIssue>)
    requires i <= |before| && i <= |after|
    ensures forall y :: y in r <==> exists j, b, a ::
      i <= j < |before| && j < |after| && b in before[j].shapes && a in after[j].shapes
      && Clash(b, a) && y == IssueOf(b, a)
    decreases |before| - i
  {
    if i == |before| || i == |after| then []
    else SlideIssues(before[i].shapes, after[i].shapes) + FontIssues(before, after, i + 1)
  }

  /** The two lists `compare_pptx_files` returns besides the two reports. */
  datatype Comparison = Comparison(before: Report, after: Report, fontIssues: seq<FontIssue>,
                                   untranslated: seq<Untranslated>)

  method CompareDecks(before: seq<DeckSlide>, after: seq<DeckSlide>) returns (c: Comparison)
    ensures |c.before.slides| == |before| && |c.after.slides| == |after|
    ensures forall i :: 0 <= i < |before| ==> c.before.slides[i] == SlideDataOf(i, before[i])
    ensures forall i :: 0 <= i < |after| ==> c.after.slides[i] == SlideDataOf(i, after[i])
    ensures c.before.english == CountKind(AllInfos(c.before.slides), English)
    ensures c.after.english == CountKind(AllInfos(c.after.slides), English)
    ensures c.fontIssues == FontIssues(c.before.slides, c.after.slides, 0)
    ensures c.untranslated == UntranslatedFrom(c.after.slides, 0)
    ensures |c.untranslated| == c.after.english
  {
    var b := Analyze(before);
    var a := Analyze(after);
    UntranslatedCount(a.slides, 0);
    assert a.slides[0..] == a.slides;
    c := Comparison(b, a, FontIssues(b.slides, a.slides, 0), UntranslatedFrom(a.slides, 0));
  }
}
