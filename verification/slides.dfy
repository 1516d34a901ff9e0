/** The Google Slides side of app13.py: `extract_text` over the presentation
    JSON, and the `batchUpdate` requests `update_slides` builds from the
    translated texts. */
module Slides {
  import opened Wrappers
  import opened Strings
  import opened Dicts
  import opened Json
  import opened Chunks

  // ---------------------------------------------------------------------------
  // The presentation JSON

  /** An entry of `textElements`: a `textRun` (its `content` possibly absent)
      or any other kind of element. */
  datatype TextElement = Run(content: Option<string>) | Other

  /** A shape or a table cell: `text` absent, or its `textElements` (absent
      `textElements` read as none). */
  datatype Texted = Texted(text: Option<seq<TextElement>>)

  /** A page element: its `objectId`, its `shape` if any and its `table` if
      any, a table being its rows of cells. */
  datatype Element = Element(objectId: string, shape: Option<Texted>, table: Option<seq<seq<Texted>>>)

  datatype Slide = Slide(elements: seq<Element>)

  /** The concatenated `content` of the text runs, absent content read as "". */
  function RunText(tes: seq<TextElement>): string {
    if |tes| == 0 then ""
    else
      var head := match tes[0]
        case Run(c) => (if c.Some? then c.value else "")
        case Other => "";
      head + RunText(tes[1..])
  }

  /** The stripped text of a shape or cell, "" when it has no `text`. */
  function TextOf(t: Texted): (s: string)
    ensures s == [] || (!IsSpace(s[0]) && !IsSpace(s[|s| - 1]))
  {
    if t.text.Some? then Strip(RunText(t.text.value)) else ""
  }

  /** `f"{objectId}_r{row}_c{col}"`, the key of a table cell. */
  function CellId(objectId: string, row: nat, col: nat): string {
    objectId + "_r" + NatToString(row) + "_c" + NatToString(col)
  }

  /** A text the extraction keeps: non-empty, no surrounding whitespace. */
  ghost predicate Trimmed(s: string) {
    |s| > 0 && !IsSpace(s[0]) && !IsSpace(s[|s| - 1])
  }

  // ---------------------------------------------------------------------------
  // extract_text

  /** The assignments of cells `c..` of row `r`. */
  function RowWrites(o: string, r: nat, cells: seq<Texted>, c: nat): (ws: seq<(string, string)>)
    requires c <= |cells|
    ensures forall w :: w in ws ==>
      Trimmed(w.1) && exists j: nat :: c <= j < |cells| && w == (CellId(o, r, j), TextOf(cells[j]))
    ensures forall j: nat :: c <= j < |cells| && |TextOf(cells[j])| > 0 ==>
      (CellId(o, r, j), TextOf(cells[j])) in ws
    decreases |cells| - c
  {
    if c == |cells| then []
    else
      var t := TextOf(cells[c]);
      var head := if |t| > 0 then [(CellId(o, r, c), t)] else [];
      var rest := RowWrites(o, r, cells, c + 1);
      forall w | w in head + rest
        ensures Trimmed(w.1) && exists j: nat :: c <= j < |cells| && w == (CellId(o, r, j), TextOf(cells[j]))
      {
        if w in head {
          assert w == (CellId(o, r, c), TextOf(cells[c]));
        } else {
          var j: nat :| c + 1 <= j < |cells| && w == (CellId(o, r, j), TextOf(cells[j]));
        }
      }
      head + rest
  }

  /** The assignments of rows `r..` of a table. */
  function TableWrites(o: string, rows: seq<seq<Texted>>, r: nat): (ws: seq<(string, string)>)
    requires r <= |rows|
    ensures forall w :: w in ws ==>
      Trimmed(w.1) && exists i: nat, j: nat :: r <= i < |rows| && j < |rows[i]| && w == (CellId(o, i, j), TextOf(rows[i][j]))
    ensures forall i: nat, j: nat :: r <= i < |rows| && j < |rows[i]| && |TextOf(rows[i][j])| > 0 ==>
      (CellId(o, i, j), TextOf(rows[i][j])) in ws
    decreases |rows| - r
  {
    if r == |rows| then []
    else
      var a := RowWrites(o, r, rows[r], 0);
      var b := TableWrites(o, rows, r + 1);
      forall w | w in a + b
        ensures exists i: nat, j: nat :: r <= i < |rows| && j < |rows[i]| && w == (CellId(o, i, j), TextOf(rows[i][j]))
      {
        if w in a {
          var j: nat :| j < |rows[r]| && w == (CellId(o, r, j), TextOf(rows[r][j]));
        } else {
          var i: nat, j: nat :| r + 1 <= i < |rows| && j < |rows[i]| && w == (CellId(o, i, j), TextOf(rows[i][j]));
        }
      }
      forall i: nat, j: nat | r <= i < |rows| && j < |rows[i]| && |TextOf(rows[i][j])| > 0
        ensures (CellId(o, i, j), TextOf(rows[i][j])) in a + b
      {
        if i == r {
          assert (CellId(o, i, j), TextOf(rows[i][j])) in a;
        } else {
          assert (CellId(o, i, j), TextOf(rows[i][j])) in b;
        }
      }
      a + b
  }

  /** Every pair of `a` is a pair of `b`. */
  ghost predicate Within(a: seq<(string, string)>, b: seq<(string, string)>) {
    forall w :: w in a ==> w in b
  }

  /** The pair `w` is one that element `e` can assign: its shape text under
      its id, or the text of one of its cells under that cell's id. */
  ghost predicate WriteOf(e: Element, w: (string, string)) {
    (e.shape.Some? && w == (e.objectId, TextOf(e.shape.value))) ||
    (e.table.Some? && exists i: nat, j: nat ::
      i < |e.table.value| && j < |e.table.value[i]| && w == (CellId(e.objectId, i, j), TextOf(e.table.value[i][j])))
  }

  /** Element `e` assigns key `k`: a shape or a cell of `e` whose stripped
      text is non-empty goes under `k`. */
  ghost predicate Assigns(e: Element, k: string) {
    (e.shape.Some? && k == e.objectId && |TextOf(e.shape.value)| > 0) ||
    (e.table.Some? && exists i: nat, j: nat ::
      i < |e.table.value| && j < |e.table.value[i]| && k == CellId(e.objectId, i, j) && |TextOf(e.table.value[i][j])| > 0)
  }

  /** The assignments of one element: its shape text under its id, then the
      cells of its table, row by row. */
  function ElementWrites(e: Element): (ws: seq<(string, string)>)
    ensures forall w :: w in ws ==> Trimmed(w.1) && WriteOf(e, w)
    ensures e.shape.Some? && |TextOf(e.shape.value)| > 0 ==> (e.objectId, TextOf(e.shape.value)) in ws
    ensures forall i: nat, j: nat ::
      (e.table.Some? && i < |e.table.value| && j < |e.table.value[i]| && |TextOf(e.table.value[i][j])| > 0) ==>
      (CellId(e.objectId, i, j), TextOf(e.table.value[i][j])) in ws
  {
    var shape := if e.shape.Some? && |TextOf(e.shape.value)| > 0
      then [(e.objectId, TextOf(e.shape.value))] else [];
    var cells := if e.table.Some? then TableWrites(e.objectId, e.table.value, 0) else [];
    shape + cells
  }

  /** The assignments of the elements `j..` of a slide. */
  function SlideWrites(els: seq<Element>, j: nat): (ws: seq<(string, string)>)
    requires j <= |els|
    ensures forall w :: w in ws ==> Trimmed(w.1) && exists m: nat :: j <= m < |els| && WriteOf(els[m], w)
    ensures forall m: nat :: j <= m < |els| ==> Within(ElementWrites(els[m]), ws)
    decreases |els| - j
  {
    if j == |els| then []
    else
      var a := ElementWrites(els[j]);
      var b := SlideWrites(els, j + 1);
      forall w | w in a + b ensures exists m: nat :: j <= m < |els| && WriteOf(els[m], w) {
        if w in a {
          assert WriteOf(els[j], w);
        } else {
          var m: nat :| j + 1 <= m < |els| && WriteOf(els[m], w);
        }
      }
      forall m: nat | j <= m < |els| ensures Within(ElementWrites(els[m]), a + b) {
        if m == j {
          assert Within(a, a + b);
        } else {
          assert Within(ElementWrites(els[m]), b);
        }
      }
      a + b
  }

  /** The assignments of slides `i..`, in the order `extract_text` makes them. */
  function Writes(slides: seq<Slide>, i: nat): (ws: seq<(string, string)>)
    requires i <= |slides|
    ensures forall w :: w in ws ==> Trimmed(w.1)
    ensures forall w :: w in ws ==>
      exists n: nat, m: nat :: i <= n < |slides| && m < |slides[n].elements| && WriteOf(slides[n].elements[m], w)
    ensures forall n: nat, m: nat :: i <= n < |slides| && m < |slides[n].elements| ==>
      Within(ElementWrites(slides[n].elements[m]), ws)
    decreases |slides| - i
  {
    if i == |slides| then []
    else
      var a := SlideWrites(slides[i].elements, 0);
      var b := Writes(slides, i + 1);
      forall w | w in a + b
        ensures exists n: nat, m: nat :: i <= n < |slides| && m < |slides[n].elements| && WriteOf(slides[n].elements[m], w)
      {
        if w in a {
          var m: nat :| m < |slides[i].elements| && WriteOf(slides[i].elements[m], w);
        } else {
          var n: nat, m: nat :| i + 1 <= n < |slides| && m < |slides[n].elements| && WriteOf(slides[n].elements[m], w);
        }
      }
      forall n: nat, m: nat | i <= n < |slides| && m < |slides[n].elements|
        ensures Within(ElementWrites(slides[n].elements[m]), a + b)
      {
        if n == i {
          assert Within(ElementWrites(slides[n].elements[m]), a);
        } else {
          assert Within(ElementWrites(slides[n].elements[m]), b);
        }
      }
      a + b
  }

  /** `extract_text`: `text_dict`, filled by assignments in slide, element,
      row and column order (a later assignment to a key replaces the value).
      The value under a key is the stripped text of a shape or cell of some
      element that the key names. */
  function ExtractText(slides: seq<Slide>): (d: Dict<string>)
    ensures ValidDict(d)
    ensures forall k :: HasKey(d, k) ==> Trimmed(Get(d, k).value)
    ensures forall k :: HasKey(d, k) ==>
      exists n: nat, m: nat :: n < |slides| && m < |slides[n].elements| && WriteOf(slides[n].elements[m], (k, Get(d, k).value))
  {
    var ws := Writes(slides, 0);
    var d := FromItems(ws);
    forall k | HasKey(d, k)
      ensures Trimmed(Get(d, k).value)
      ensures exists n: nat, m: nat :: n < |slides| && m < |slides[n].elements| && WriteOf(slides[n].elements[m], (k, Get(d, k).value))
    {
      LastValueIn(ws, k);
    }
    d
  }

  lemma InWrites(slides: seq<Slide>, n: nat, m: nat, w: (string, string))
    requires n < |slides| && m < |slides[n].elements|
    requires w in ElementWrites(slides[n].elements[m])
    ensures HasKey(ExtractText(slides), w.0)
  {
    var ws := Writes(slides, 0);
    assert Within(ElementWrites(slides[n].elements[m]), ws);
    assert w in ws;
    assert w.0 in Keys(ws);
  }

  /** The keys of `text_dict` are exactly those some element assigns: a
      key whose shapes and cells all strip to "" is absent. */
  lemma ExtractKeys(slides: seq<Slide>, k: string)
    ensures HasKey(ExtractText(slides), k) <==>
      exists n: nat, m: nat :: n < |slides| && m < |slides[n].elements| && Assigns(slides[n].elements[m], k)
  {
    var d := ExtractText(slides);
    if HasKey(d, k) {
      var n: nat, m: nat :| n < |slides| && m < |slides[n].elements| && WriteOf(slides[n].elements[m], (k, Get(d, k).value));
      WriteAssigns(slides[n].elements[m], k, Get(d, k).value);
    }
    if exists n: nat, m: nat :: n < |slides| && m < |slides[n].elements| && Assigns(slides[n].elements[m], k) {
      var n: nat, m: nat :| n < |slides| && m < |slides[n].elements| && Assigns(slides[n].elements[m], k);
      AssignsWrites(slides, n, m, k);
    }
  }

  /** A non-empty pair an element can write is an assignment of its key. */
  lemma WriteAssigns(e: Element, k: string, v: string)
    requires WriteOf(e, (k, v)) && |v| > 0
    ensures Assigns(e, k)
  {
  }

  /** An assignment of element `(n, m)` puts its key in `text_dict`. */
  lemma AssignsWrites(slides: seq<Slide>, n: nat, m: nat, k: string)
    requires n < |slides| && m < |slides[n].elements| && Assigns(slides[n].elements[m], k)
    ensures HasKey(ExtractText(slides), k)
  {
    var e := slides[n].elements[m];
    if e.shape.Some? && k == e.objectId && |TextOf(e.shape.value)| > 0 {
      InWrites(slides, n, m, (k, TextOf(e.shape.value)));
    } else {
      var i: nat, j: nat :| i < |e.table.value| && j < |e.table.value[i]| &&
        k == CellId(e.objectId, i, j) && |TextOf(e.table.value[i][j])| > 0;
      InWrites(slides, n, m, (k, TextOf(e.table.value[i][j])));
    }
  }

  /** The element ids of a deck are pairwise distinct and hold no `_r`. */
  ghost predicate PlainIds(slides: seq<Slide>) {
    (forall n: nat, m: nat :: n < |slides| && m < |slides[n].elements| ==>
      !Contains(slides[n].elements[m].objectId, "_r")) &&
    (forall n: nat, m: nat, n': nat, m': nat ::
      (n < |slides| && m < |slides[n].elements| && n' < |slides| && m' < |slides[n'].elements| &&
       slides[n].elements[m].objectId == slides[n'].elements[m'].objectId) ==> n == n' && m == m')
  }

  /** Every cell id holds `_r`. */
  lemma CellIdHasRowMarker(o: string, row: nat, col: nat)
    ensures Contains(CellId(o, row, col), "_r")
  {
    var id := CellId(o, row, col);
    assert id[|o|..|o| + 2] == "_r";
    assert StartsAt(id, |o|, "_r");
  }

  /** Two cell ids of elements whose ids hold no `_r` meet only when they
      name the same cell. */
  lemma CellIdInjective(o: string, row: nat, col: nat, o': string, row': nat, col': nat)
    requires !Contains(o, "_r") && !Contains(o', "_r")
    requires CellId(o, row, col) == CellId(o', row', col')
    ensures o == o' && row == row' && col == col'
  {
    CellIdRoundTrip(o, row, col);
    CellIdRoundTrip(o', row', col');
  }

  /** With plain ids, only the shape of element `(n, m)` assigns under its id. */
  lemma ShapeKeyOwner(slides: seq<Slide>, n: nat, m: nat, n': nat, m': nat, v: string)
    requires PlainIds(slides)
    requires n < |slides| && m < |slides[n].elements| && n' < |slides| && m' < |slides[n'].elements|
    requires WriteOf(slides[n'].elements[m'], (slides[n].elements[m].objectId, v))
    ensures n' == n && m' == m
    ensures slides[n].elements[m].shape.Some? && v == TextOf(slides[n].elements[m].shape.value)
  {
    var e, e' := slides[n].elements[m], slides[n'].elements[m'];
    assert !Contains(e.objectId, "_r");
    if !(e'.shape.Some? && (e.objectId, v) == (e'.objectId, TextOf(e'.shape.value))) {
      var i: nat, j: nat :| i < |e'.table.value| && j < |e'.table.value[i]| &&
        (e.objectId, v) == (CellId(e'.objectId, i, j), TextOf(e'.table.value[i][j]));
      CellIdHasRowMarker(e'.objectId, i, j);
      assert false;
    }
  }

  /** With plain ids, only the cell `(i, j)` of element `(n, m)` assigns under
      its cell id. */
  lemma CellKeyOwner(slides: seq<Slide>, n: nat, m: nat, i: nat, j: nat, n': nat, m': nat, v: string)
    requires PlainIds(slides)
    requires n < |slides| && m < |slides[n].elements| && n' < |slides| && m' < |slides[n'].elements|
    requires WriteOf(slides[n'].elements[m'], (CellId(slides[n].elements[m].objectId, i, j), v))
    ensures n' == n && m' == m
    ensures var e := slides[n].elements[m];
      e.table.Some? && i < |e.table.value| && j < |e.table.value[i]| && v == TextOf(e.table.value[i][j])
  {
    var e, e' := slides[n].elements[m], slides[n'].elements[m'];
    var k := CellId(e.objectId, i, j);
    assert !Contains(e.objectId, "_r") && !Contains(e'.objectId, "_r");
    if e'.shape.Some? && (k, v) == (e'.objectId, TextOf(e'.shape.value)) {
      CellIdHasRowMarker(e.objectId, i, j);
      assert false;
    } else {
      var i': nat, j': nat :| i' < |e'.table.value| && j' < |e'.table.value[i']| &&
        (k, v) == (CellId(e'.objectId, i', j'), TextOf(e'.table.value[i'][j']));
      CellIdInjective(e.objectId, i, j, e'.objectId, i', j');
    }
  }

  /** With plain ids, the entry under an element's id is its shape's stripped
      text when that is non-empty, and there is none otherwise. */
  lemma ExtractShapeValue(slides: seq<Slide>, n: nat, m: nat)
    requires PlainIds(slides)
    requires n < |slides| && m < |slides[n].elements|
    ensures var e := slides[n].elements[m];
      Get(ExtractText(slides), e.objectId) ==
        if e.shape.Some? && |TextOf(e.shape.value)| > 0 then Some(TextOf(e.shape.value)) else None
  {
    var e := slides[n].elements[m];
    var d := ExtractText(slides);
    if HasKey(d, e.objectId) {
      var v := Get(d, e.objectId).value;
      var n': nat, m': nat :| n' < |slides| && m' < |slides[n'].elements| && WriteOf(slides[n'].elements[m'], (e.objectId, v));
      ShapeKeyOwner(slides, n, m, n', m', v);
    } else if e.shape.Some? && |TextOf(e.shape.value)| > 0 {
      InWrites(slides, n, m, (e.objectId, TextOf(e.shape.value)));
    }
  }

  /** With plain ids, the entry under a cell id is that cell's stripped text
      when the cell exists and its text is non-empty, and there is none
      otherwise. */
  lemma ExtractCellValue(slides: seq<Slide>, n: nat, m: nat, i: nat, j: nat)
    requires PlainIds(slides)
    requires n < |slides| && m < |slides[n].elements|
    ensures var e := slides[n].elements[m];
      Get(ExtractText(slides), CellId(e.objectId, i, j)) ==
        if e.table.Some? && i < |e.table.value| && j < |e.table.value[i]| && |TextOf(e.table.value[i][j])| > 0
        then Some(TextOf(e.table.value[i][j])) else None
  {
    var e := slides[n].elements[m];
    var d := ExtractText(slides);
    var k := CellId(e.objectId, i, j);
    if HasKey(d, k) {
      var v := Get(d, k).value;
      var n': nat, m': nat :| n' < |slides| && m' < |slides[n'].elements| && WriteOf(slides[n'].elements[m'], (k, v));
      CellKeyOwner(slides, n, m, i, j, n', m', v);
    } else if e.table.Some? && i < |e.table.value| && j < |e.table.value[i]| && |TextOf(e.table.value[i][j])| > 0 {
      InWrites(slides, n, m, (k, TextOf(e.table.value[i][j])));
    }
  }

  /** Every shape with text left after stripping has an entry under its id,
      holding that text when the deck's ids are plain. */
  lemma ExtractKeepsShape(slides: seq<Slide>, n: nat, m: nat)
    requires n < |slides| && m < |slides[n].elements|
    requires var e := slides[n].elements[m]; e.shape.Some? && |TextOf(e.shape.value)| > 0
    ensures HasKey(ExtractText(slides), slides[n].elements[m].objectId)
    ensures PlainIds(slides) ==> var e := slides[n].elements[m];
      Get(ExtractText(slides), e.objectId) == Some(TextOf(e.shape.value))
  {
    var e := slides[n].elements[m];
    InWrites(slides, n, m, (e.objectId, TextOf(e.shape.value)));
    if PlainIds(slides) {
      ExtractShapeValue(slides, n, m);
    }
  }

  /** Every table cell with text left after stripping has an entry under its
      cell id, holding that text when the deck's ids are plain. */
  lemma ExtractKeepsCell(slides: seq<Slide>, n: nat, m: nat, i: nat, j: nat)
    requires n < |slides| && m < |slides[n].elements|
    requires var e := slides[n].elements[m];
      e.table.Some? && i < |e.table.value| && j < |e.table.value[i]| && |TextOf(e.table.value[i][j])| > 0
    ensures HasKey(ExtractText(slides), CellId(slides[n].elements[m].objectId, i, j))
    ensures PlainIds(slides) ==> var e := slides[n].elements[m];
      Get(ExtractText(slides), CellId(e.objectId, i, j)) == Some(TextOf(e.table.value[i][j]))
  {
    var e := slides[n].elements[m];
    InWrites(slides, n, m, (CellId(e.objectId, i, j), TextOf(e.table.value[i][j])));
    if PlainIds(slides) {
      ExtractCellValue(slides, n, m, i, j);
    }
  }

  // ---------------------------------------------------------------------------
  // update_slides

  /** What a request addresses: a shape by id, or a cell of a table. */
  datatype Target = ShapeTarget(objectId: string) | CellTarget(objectId: string, row: nat, col: nat)

  /** `deleteText` of the whole text range, or `insertText` at an index. */
  datatype Request = DeleteText(target: Target) | InsertText(target: Target, at: nat, text: Value)

  /** `s` is `a + "_c" + b` where `int(a)` is `row` and `int(b)` is `col`. */
  ghost predicate Coordinates(s: string, row: nat, col: nat) {
    exists a, b :: s == a + "_c" + b && ParseNat(a) == Ok(row) && ParseNat(b) == Ok(col)
  }

  /** The cell coordinates after the first `_r`: `row_col.split('_c')` must
      give exactly two parts, and each must pass `int()`. */
  function ParseCell(base: string, rest: string): (r: Outcome<Target>)
    ensures r.Ok? ==> r.value.CellTarget? && r.value.objectId == base
    ensures r.Ok? ==> Coordinates(rest, r.value.row, r.value.col)
  {
    match Find(rest, "_c")
    case None => Raised(BadValue(rest))
    case Some(j) =>
      if FindFrom(rest, "_c", j + 2).Some? then Raised(BadValue(rest))
      else
        var row :- ParseNat(rest[..j]);
        var col :- ParseNat(rest[j + 2..]);
        assert rest == rest[..j] + "_c" + rest[j + 2..];
        Ok(CellTarget(base, row, col))
  }

  /** The target of a key: an id holding both `_r` and `_c` is read as a cell
      id, split at its first `_r` and then at `_c`; any other id names a shape. */
  function ParseTarget(id: string): (r: Outcome<Target>)
    ensures !(Contains(id, "_r") && Contains(id, "_c")) ==> r == Ok(ShapeTarget(id))
    ensures Contains(id, "_r") && Contains(id, "_c") ==> r.Raised? || r.value.CellTarget?
    ensures r.Ok? && r.value.CellTarget? ==> CellShaped(id, r.value)
  {
    if Contains(id, "_r") && Contains(id, "_c") then
      var i := Find(id, "_r").value;
      var r := ParseCell(id[..i], id[i + 2..]);
      if r.Ok? then JoinCell(id, i, r.value); r else r
    else Ok(ShapeTarget(id))
  }

  /** `id` is `objectId + "_r" + rest` with the coordinates of `t` in `rest`. */
  ghost predicate CellShaped(id: string, t: Target)
    requires t.CellTarget?
  {
    exists rest :: id == t.objectId + "_r" + rest && Coordinates(rest, t.row, t.col)
  }

  lemma JoinCell(id: string, i: nat, t: Target)
    requires StartsAt(id, i, "_r") && Ok(t) == ParseCell(id[..i], id[i + 2..])
    ensures t.CellTarget? && CellShaped(id, t)
  {
    assert id == id[..i] + id[i..i + 2] + id[i + 2..];
  }

  /** The requests of one translated entry: `deleteText` (ALL), then
      `insertText` at index 0. */
  function EntryRequests(t: Target, text: Value): (rs: seq<Request>)
    ensures |rs| == 2 && rs[0] == DeleteText(t) && rs[1].InsertText?
    ensures rs[1].target == t && rs[1].at == 0 && rs[1].text == text
  {
    [DeleteText(t), InsertText(t, 0, text)]
  }

  /** The two requests at pair position `k` of `rs` are those of entry `e`. */
  predicate RequestsAt(rs: seq<Request>, k: nat, e: (string, Value)) {
    2 * k + 1 < |rs| && ParseTarget(e.0).Ok? && rs[2 * k..2 * k + 2] == EntryRequests(ParseTarget(e.0).value, e.1)
  }

  /** The request list of `update_slides` for entries `i..`; the first key
      whose target cannot be read raises, and nothing is sent. */
  function BuildRequests(translated: Dict<Value>, i: nat): (r: Outcome<seq<Request>>)
    requires i <= |translated|
    ensures r.Ok? <==> forall m :: i <= m < |translated| ==> ParseTarget(translated[m].0).Ok?
    ensures r.Ok? ==> |r.value| == 2 * (|translated| - i)
    ensures r.Ok? ==> forall m :: i <= m < |translated| ==> RequestsAt(r.value, m - i, translated[m])
    decreases |translated| - i
  {
    if i == |translated| then Ok([])
    else
      var t :- ParseTarget(translated[i].0);
      var rest :- BuildRequests(translated, i + 1);
      var front := EntryRequests(t, translated[i].1);
      var rs := front + rest;
      forall m | i < m < |translated| ensures RequestsAt(rs, m - i, translated[m]) {
        RequestsShift(front, rest, m - i - 1, translated[m]);
      }
      RequestsFront(front, rest, translated[i]);
      Ok(rs)
  }

  /** The pair position `k` of `rest` is position `k + 1` once the two
      requests of another entry go in front. */
  lemma RequestsShift(front: seq<Request>, rest: seq<Request>, k: nat, e: (string, Value))
    requires |front| == 2 && RequestsAt(rest, k, e)
    ensures RequestsAt(front + rest, k + 1, e)
  {
    assert (front + rest)[2 * (k + 1)..2 * (k + 1) + 2] == rest[2 * k..2 * k + 2];
  }

  lemma RequestsFront(front: seq<Request>, rest: seq<Request>, e: (string, Value))
    requires ParseTarget(e.0).Ok? && front == EntryRequests(ParseTarget(e.0).value, e.1)
    ensures RequestsAt(front + rest, 0, e)
  {
    assert (front + rest)[0..2] == front;
  }

  /** `batch_size = 100` */
  const UpdateBatchSize: nat := 100

  /** The `batchUpdate` calls: the requests in consecutive slices of 100. */
  function UpdateBatches(reqs: seq<Request>): seq<seq<Request>> {
    Chunk(reqs, UpdateBatchSize)
  }

  /** The slices are the requests in order, at most 100 each, and there are
      `ceil(len / 100)` of them. */
  lemma UpdateBatchesCover(reqs: seq<Request>)
    ensures Concat(UpdateBatches(reqs)) == reqs
    ensures |UpdateBatches(reqs)| == CeilDiv(|reqs|, UpdateBatchSize)
    ensures forall j :: 0 <= j < |UpdateBatches(reqs)| ==> 0 < |UpdateBatches(reqs)[j]| <= UpdateBatchSize
  {
    ChunkCovers(reqs, UpdateBatchSize);
    ChunkCount(reqs, UpdateBatchSize);
  }

  // ---------------------------------------------------------------------------
  // Cell ids read back

  /** A marker cannot start where its first character is missing. */
  lemma NoMarkerAt(s: string, j: nat, p: string)
    requires |p| > 0 && j < |s| && s[j] != p[0]
    ensures !StartsAt(s, j, p)
  {
    if j + |p| <= |s| {
      assert s[j..j + |p|][0] == s[j];
    }
  }

  /** The first `_r` of a cell id is the one after the object id, when the
      object id holds none. */
  lemma FirstRowMarker(o: string, rest: string)
    requires !Contains(o, "_r") && |rest| > 0 && rest[0] != 'r'
    ensures Find(o + "_r" + rest, "_r") == Some(|o|)
  {
    var id := o + "_r" + rest;
    assert id[|o|..|o| + 2] == "_r";
    assert StartsAt(id, |o|, "_r");
    forall j: nat | j < |o| ensures !StartsAt(id, j, "_r") {
      if j + 2 <= |o| {
        assert id[j..j + 2] == o[j..j + 2];
        assert !StartsAt(o, j, "_r");
      } else {
        assert id[j + 1] == '_';
      }
    }
  }

  /** Digits hold no `_`, so no `_c` starts among them. */
  lemma NoColumnMarkerIn(s: string, lo: nat, hi: nat)
    requires lo <= hi <= |s| && AllDigits(s[lo..hi])
    ensures forall j: nat :: lo <= j < hi ==> !StartsAt(s, j, "_c")
  {
    forall j: nat | lo <= j < hi ensures !StartsAt(s, j, "_c") {
      assert s[lo..hi][j - lo] == s[j];
      NoMarkerAt(s, j, "_c");
    }
  }

  /** The one `_c` of `R + "_c" + C` for digit strings `R` and `C`. */
  lemma ColumnMarker(rs: string, cs: string)
    requires AllDigits(rs) && AllDigits(cs)
    ensures Find(rs + "_c" + cs, "_c") == Some(|rs|)
    ensures FindFrom(rs + "_c" + cs, "_c", |rs| + 2) == None
  {
    ConcatParts(rs, "_c", cs);
    SoleMarker(rs + "_c" + cs, |rs|);
  }

  /** A `_c` with digits on both sides is the only one. */
  lemma SoleMarker(s: string, n: nat)
    requires n + 2 <= |s| && s[n..n + 2] == "_c"
    requires AllDigits(s[0..n]) && AllDigits(s[n + 2..|s|])
    ensures Find(s, "_c") == Some(n)
    ensures FindFrom(s, "_c", n + 2) == None
  {
    NoColumnMarkerIn(s, 0, n);
    FindIs(s, "_c", n);
    NoColumnMarkerIn(s, n + 2, |s|);
    FindFromNone(s, "_c", n + 2);
  }

  lemma ParseCellRoundTrip(o: string, row: nat, col: nat)
    ensures ParseCell(o, NatToString(row) + "_c" + NatToString(col)) == Ok(CellTarget(o, row, col))
  {
    var rs, cs := NatToString(row), NatToString(col);
    var rest := rs + "_c" + cs;
    ColumnMarker(rs, cs);
    assert rest[..|rs|] == rs && rest[|rs| + 2..] == cs;
    ParseNatToString(row);
    ParseNatToString(col);
  }

  /** Round trip: a key `extract_text` gives a table cell is read back by
      `update_slides` as that cell, as long as the element id holds no `_r`. */
  lemma CellIdRoundTrip(o: string, row: nat, col: nat)
    requires !Contains(o, "_r")
    ensures ParseTarget(CellId(o, row, col)) == Ok(CellTarget(o, row, col))
  {
    var rs, cs := NatToString(row), NatToString(col);
    var rest := rs + "_c" + cs;
    var id := CellId(o, row, col);
    assert id == o + "_r" + rest;
    FirstRowMarker(o, rest);
    assert Contains(id, "_r");
    assert id[|o| + 2 + |rs|..|o| + 2 + |rs| + 2] == "_c";
    assert StartsAt(id, |o| + 2 + |rs|, "_c");
    assert id[..|o|] == o && id[|o| + 2..] == rest;
    ParseCellRoundTrip(o, row, col);
  }

  /** The other way round: a shape id that holds both `_r` and `_c` without
      being a cell id makes `update_slides` raise before any request is sent. */
  lemma ShapeIdReadAsCell()
    ensures ParseTarget("g_c1_run").Raised?
    ensures BuildRequests([("g_c1_run", Str("hello"))], 0).Raised?
  {
    var id := "g_c1_run";
    assert StartsAt(id, 1, "_c") && StartsAt(id, 4, "_r");
    NoMarkerAt(id, 0, "_r");
    assert id[1..3] == "_c";
    NoMarkerAt(id, 2, "_r");
    NoMarkerAt(id, 3, "_r");
    assert Find(id, "_r") == Some(4);
    assert id[6..] == "un";
    assert !StartsAt("un", 0, "_c");
  }
}
