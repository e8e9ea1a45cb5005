/** The page store of pages.php: the pages, tickboxes, destinations and
    audioareas tables and the operations that check and write them.  A
    table is a sequence of rows whose row id is its position plus one;
    pages, tick boxes and audio areas are never removed (a tick box is only
    marked deleted), so SQLite's next row id is always the length plus one. */
module PageStore {
  import opened Options
  import opened RequestValidation
  import PageKeyCodec

  /** $GRID_SCALE: one marker cell is 21 mm, and client coordinates of
      audio areas are hundredths of it. */
  const GridScale: int := 21

  /** $DEBUG: off in deployment. */
  const Debug: bool := false

  /** $DEFAULT_ERROR_MESSAGE */
  const DefaultErrorMessage: string := "query error"

  const PageNotFound: string := "page not found"
  const PageLocked: string := "the page is locked"
  const InvalidPageType: string := "invalid page type"
  const IncorrectPageType: string := "incorrect page type"
  const BoxNotFound: string := "box not found"
  const IncorrectPageId: string := "incorrect page id"
  const PageKeyNotFound: string := "pagekey not found"

  // ---------------------------------------------------------------------
  // Rows

  datatype Page = Page(width: int, height: int, leftCodeX: int, leftCodeY: int,
                       rightCodeX: int, rightCodeY: int, pageType: int, locked: bool)

  datatype TickBox = TickBox(pageId: nat, x: int, y: int, description: string, quantity: int, deleted: bool)

  datatype Destination = Destination(pageId: nat, destination: string)

  datatype AudioArea = AudioArea(pageId: nat, left: int, top: int, right: int, bottom: int,
                                 soundCloudId: string, deleted: bool)

  /** A row together with its row id. */
  datatype BoxRow = BoxRow(id: nat, box: TickBox)
  datatype AreaRow = AreaRow(id: nat, area: AudioArea)

  // ---------------------------------------------------------------------
  // Responses (the arrays that the operations json_encode)

  /** The tempId, x and y that a tick-box response echoes. */
  datatype Echo = Echo(tempId: int, x: int, y: int)

  /** A tick box or audio area as a page lookup lists it (without its page id). */
  datatype BoxView = BoxView(id: nat, x: int, y: int, description: string, quantity: int)
  datatype AreaView = AreaView(id: nat, left: int, top: int, right: int, bottom: int, soundCloudId: string)

  /** What a lookup adds to the page: for a TicQR page its tick boxes and,
      when it has any, its destination (Some(None) is a JSON null); for a
      PaperChains page its audio areas. */
  datatype Content =
    | Untyped
    | TicQR(boxes: seq<BoxView>, destination: Option<Option<string>>)
    | PaperChains(areas: seq<AreaView>)

  datatype Response =
    | Fail(reason: string)
    | Saved(pageKey: string)
    | BoxSaved(id: nat, echo: Option<Echo>)
    | BoxDeleted(id: nat)
    | AreaSaved(id: nat)
    | Details(pageKey: string, page: Page, content: Content)

  /** getErrorJSON: the message is shown only when debugging. */
  function ErrorJson(message: string, debug: bool): (r: Response)
    ensures r.Fail?
    ensures r.reason == message <==> debug || message == DefaultErrorMessage
    ensures !debug ==> r == Fail(DefaultErrorMessage)
  {
    Fail(if debug then message else DefaultErrorMessage)
  }

  // ---------------------------------------------------------------------
  // The checks the operations make before writing

  /** savePageToDB (update) and updatePageType: the page must exist and be
      unlocked. */
  function EditRefusal(page: Option<Page>): (reason: Option<string>)
    ensures reason.None? <==> page.Some? && !page.value.locked
    ensures page.None? ==> reason == Some(PageNotFound)
  {
    if page.None? then Some(PageNotFound)
    else if page.value.locked then Some(PageLocked)
    else None
  }

  /** saveTickBoxToDB, deleteTickBoxFromDB and updatePageDestination: the
      page must exist, be a TicQR page and be unlocked, checked in that
      order. */
  function TicQRRefusal(page: Option<Page>): (reason: Option<string>)
    ensures reason.None? <==> page.Some? && page.value.pageType == 1 && !page.value.locked
    ensures page.None? ==> reason == Some(PageNotFound)
    ensures page.Some? && page.value.pageType != 1 ==> reason == Some(IncorrectPageType)
  {
    if page.None? then Some(PageNotFound)
    else if page.value.pageType != 1 then Some(IncorrectPageType)
    else if page.value.locked then Some(PageLocked)
    else None
  }

  /** The further checks of a tick-box update or delete: the box must exist,
      not be deleted, and belong to the page named. */
  function BoxRefusal(box: Option<TickBox>, pageId: nat): (reason: Option<string>)
    ensures reason.None? <==> box.Some? && box.value.pageId == pageId
    ensures box.None? ==> reason == Some(BoxNotFound)
  {
    if box.None? then Some(BoxNotFound)
    else if box.value.pageId != pageId then Some(IncorrectPageId)
    else None
  }

  /** saveAudioAreaToDB: the page must exist and be a PaperChains page; a
      locked page is accepted. */
  function AudioRefusal(page: Option<Page>): (reason: Option<string>)
    ensures reason.None? <==> page.Some? && page.value.pageType == 2
  {
    if page.None? then Some(PageNotFound)
    else if page.value.pageType != 2 then Some(IncorrectPageType)
    else None
  }

  /** A TicQR write is refused whenever an edit of the page would be. */
  lemma TicQRRefusesLockedAndMissing(page: Option<Page>)
    ensures EditRefusal(page).Some? ==> TicQRRefusal(page).Some?
    ensures page.Some? && page.value.pageType == 1 ==> TicQRRefusal(page) == EditRefusal(page)
  {
  }

  // ---------------------------------------------------------------------
  // Grid-scale conversions

  /** PHP's round(): to the nearest integer, halves away from zero. */
  function Round(q: real): (r: int)
    ensures -0.5 <= r as real - q <= 0.5
    ensures q >= 0.0 ==> r as real - q > -0.5
    ensures q < 0.0 ==> r as real - q < 0.5
  {
    if q >= 0.0 then (q + 0.5).Floor else -((-q + 0.5).Floor)
  }

  /** The three ensures of Round leave no choice: they pin down one integer. */
  lemma RoundIsUnique(q: real, n: int)
    requires -0.5 <= n as real - q <= 0.5
    requires q >= 0.0 ==> n as real - q > -0.5
    requires q < 0.0 ==> n as real - q < 0.5
    ensures n == Round(q)
  {
    var r := Round(q);
    assert -1.0 < n as real - r as real < 1.0;
  }

  /** saveAudioAreaToDB: a client value in hundredths of a grid cell,
      stored as millimetres from the marker origin. */
  function ToMillimetres(v: int, origin: int): int
  {
    Round(v as real * (GridScale as real / 100.0) + origin as real)
  }

  /** lookupPageDetails with scaling: stored millimetres back to hundredths
      of a grid cell from the marker origin. */
  function ToGridUnits(mm: int, origin: int): int
  {
    Round((mm - origin) as real / (GridScale as real / 100.0))
  }

  /** Storing a value and reading it back scaled moves it by at most 2:
      millimetres are too coarse to keep hundredths of 21 mm exactly. */
  lemma GridRoundTripWithinTwo(v: int, origin: int)
    ensures -2 <= ToGridUnits(ToMillimetres(v, origin), origin) - v <= 2
  {
    var m := ToMillimetres(v, origin);
    var q := v as real * (21.0 / 100.0) + origin as real;
    assert -0.5 <= m as real - q <= 0.5;
    var d := (m - origin) as real / (21.0 / 100.0);
    assert d == (m as real - q) * (100.0 / 21.0) + v as real;
    var g := ToGridUnits(m, origin);
    assert -0.5 <= g as real - d <= 0.5;
  }

  /** ...and the loss is real: 1 is stored as 0 mm and read back as 0. */
  lemma GridRoundTripLoses()
    ensures ToMillimetres(1, 0) == 0 && ToGridUnits(0, 0) == 0
  {
  }

  /** duplicatePage copies audio areas through saveAudioAreaToDB, which
      treats the stored millimetres as client values once more: an area at
      100 mm from the origin is copied to 21 mm. */
  lemma DuplicatedAreaIsRescaled()
    ensures ToMillimetres(100, 0) == 21
  {
  }

  // ---------------------------------------------------------------------
  // Reads

  /** getTickBoxesFromDB: the boxes of a page that are not deleted, in row
      order, with their ids. */
  function LiveBoxesIn(rows: seq<TickBox>, pageId: nat): (live: seq<BoxRow>)
    ensures forall k :: 0 <= k < |live| ==>
      1 <= live[k].id <= |rows| && rows[live[k].id - 1] == live[k].box &&
      live[k].box.pageId == pageId && !live[k].box.deleted
    ensures forall j, k :: 0 <= j < k < |live| ==> live[j].id < live[k].id
  {
    if |rows| == 0 then []
    else
      var last := rows[|rows| - 1];
      LiveBoxesIn(rows[..|rows| - 1], pageId) +
        (if last.pageId == pageId && !last.deleted then [BoxRow(|rows|, last)] else [])
  }

  /** getAudioAreasFromDB, likewise. */
  function LiveAreasIn(rows: seq<AudioArea>, pageId: nat): (live: seq<AreaRow>)
    ensures forall k :: 0 <= k < |live| ==>
      1 <= live[k].id <= |rows| && rows[live[k].id - 1] == live[k].area &&
      live[k].area.pageId == pageId && !live[k].area.deleted
    ensures forall j, k :: 0 <= j < k < |live| ==> live[j].id < live[k].id
  {
    if |rows| == 0 then []
    else
      var last := rows[|rows| - 1];
      LiveAreasIn(rows[..|rows| - 1], pageId) +
        (if last.pageId == pageId && !last.deleted then [AreaRow(|rows|, last)] else [])
  }

  /** Every live box of the page is listed. */
  lemma {:induction false} LiveBoxesComplete(rows: seq<TickBox>, pageId: nat, i: nat)
    requires i < |rows| && rows[i].pageId == pageId && !rows[i].deleted
    ensures BoxRow(i + 1, rows[i]) in LiveBoxesIn(rows, pageId)
  {
    if i < |rows| - 1 {
      LiveBoxesComplete(rows[..|rows| - 1], pageId, i);
    }
  }

  /** Every live audio area of the page is listed. */
  lemma {:induction false} LiveAreasComplete(rows: seq<AudioArea>, pageId: nat, i: nat)
    requires i < |rows| && rows[i].pageId == pageId && !rows[i].deleted
    ensures AreaRow(i + 1, rows[i]) in LiveAreasIn(rows, pageId)
  {
    if i < |rows| - 1 {
      LiveAreasComplete(rows[..|rows| - 1], pageId, i);
    }
  }

  /** getDestinationFromDB: the destination of the first row for the page. */
  function DestinationIn(rows: seq<Destination>, pageId: nat): (d: Option<string>)
    ensures d.Some? <==> exists k :: 0 <= k < |rows| && rows[k].pageId == pageId
    ensures d.Some? ==> exists k :: 0 <= k < |rows| && rows[k] == Destination(pageId, d.value)
  {
    if |rows| == 0 then None
    else if rows[0].pageId == pageId then
      assert rows[0] == Destination(pageId, rows[0].destination);
      Some(rows[0].destination)
    else
      var d := DestinationIn(rows[1..], pageId);
      assert forall k :: 1 <= k < |rows| ==> rows[k] == rows[1..][k - 1];
      d
  }

  /** DELETE FROM destinations WHERE pageId = :pageId */
  function WithoutPage(rows: seq<Destination>, pageId: nat): (kept: seq<Destination>)
    ensures forall d :: d in kept ==> d in rows && d.pageId != pageId
    ensures forall d :: d in rows && d.pageId != pageId ==> d in kept
  {
    if |rows| == 0 then []
    else
      var rest := WithoutPage(rows[1..], pageId);
      assert forall d :: d in rows ==> d == rows[0] || d in rows[1..];
      if rows[0].pageId == pageId then rest else [rows[0]] + rest
  }

  /** After updatePageDestination the page's destination is the new one,
      and every other page keeps its own. */
  lemma {:induction false} DestinationAfterUpdate(rows: seq<Destination>, pageId: nat, destination: string, other: nat)
    requires other != pageId
    ensures DestinationIn(WithoutPage(rows, pageId) + [Destination(pageId, destination)], pageId) == Some(destination)
    ensures DestinationIn(WithoutPage(rows, pageId) + [Destination(pageId, destination)], other) == DestinationIn(rows, other)
  {
    var kept := WithoutPage(rows, pageId);
    var after := kept + [Destination(pageId, destination)];
    FirstMatchAfterFilter(rows, kept, pageId, destination);
    FilterKeepsOtherDestination(rows, pageId, other);
    AppendKeepsFirstMatch(kept, Destination(pageId, destination), other);
  }

  lemma FirstMatchAfterFilter(rows: seq<Destination>, kept: seq<Destination>, pageId: nat, destination: string)
    requires kept == WithoutPage(rows, pageId)
    ensures DestinationIn(kept + [Destination(pageId, destination)], pageId) == Some(destination)
  {
    AppendedIsFirstMatch(kept, Destination(pageId, destination));
  }

  lemma {:induction false} AppendedIsFirstMatch(rows: seq<Destination>, extra: Destination)
    requires forall d :: d in rows ==> d.pageId != extra.pageId
    ensures DestinationIn(rows + [extra], extra.pageId) == Some(extra.destination)
  {
    if |rows| > 0 {
      assert rows[0] in rows;
      assert (rows + [extra])[1..] == rows[1..] + [extra];
      assert forall d :: d in rows[1..] ==> d in rows;
      AppendedIsFirstMatch(rows[1..], extra);
    } else {
      assert rows + [extra] == [extra];
    }
  }

  lemma {:induction false} FilterKeepsOtherDestination(rows: seq<Destination>, pageId: nat, other: nat)
    requires other != pageId
    ensures DestinationIn(WithoutPage(rows, pageId), other) == DestinationIn(rows, other)
  {
    if |rows| > 0 {
      FilterKeepsOtherDestination(rows[1..], pageId, other);
    }
  }

  lemma {:induction false} AppendKeepsFirstMatch(rows: seq<Destination>, extra: Destination, other: nat)
    requires extra.pageId != other
    ensures DestinationIn(rows + [extra], other) == DestinationIn(rows, other)
  {
    if |rows| > 0 {
      assert (rows + [extra])[1..] == rows[1..] + [extra];
      AppendKeepsFirstMatch(rows[1..], extra, other);
    } else {
      assert (rows + [extra])[1..] == [];
    }
  }

  /** PHP's empty() on a destination: null, "" and "0" are empty. */
  predicate IsEmptyDestination(d: Option<string>)
  {
    d.None? || d.value == "" || d.value == "0"
  }

  /** The rows duplicatePage writes for the copied tick boxes. */
  function BoxCopies(live: seq<BoxRow>, newPageId: nat): (copies: seq<TickBox>)
    ensures |copies| == |live|
    ensures forall k :: 0 <= k < |live| ==>
      copies[k] == live[k].box.(pageId := newPageId, deleted := false)
  {
    if |live| == 0 then []
    else BoxCopies(live[..|live| - 1], newPageId) + [live[|live| - 1].box.(pageId := newPageId, deleted := false)]
  }

  /** The rows duplicatePage writes for the copied audio areas: each goes
      through saveAudioAreaToDB's conversion again. */
  function AreaCopies(live: seq<AreaRow>, newPageId: nat, page: Page): (copies: seq<AudioArea>)
    ensures |copies| == |live|
    ensures forall k :: 0 <= k < |live| ==> copies[k] == CopiedArea(live[k].area, newPageId, page)
  {
    if |live| == 0 then []
    else AreaCopies(live[..|live| - 1], newPageId, page) + [CopiedArea(live[|live| - 1].area, newPageId, page)]
  }

  function CopiedArea(a: AudioArea, newPageId: nat, page: Page): AudioArea
  {
    AudioArea(newPageId, ToMillimetres(a.left, page.leftCodeX), ToMillimetres(a.top, page.rightCodeY),
              ToMillimetres(a.right, page.leftCodeX), ToMillimetres(a.bottom, page.rightCodeY),
              a.soundCloudId, false)
  }

  /** The tick boxes of a lookup, scaled to grid units when asked. */
  function BoxViews(live: seq<BoxRow>, page: Page, scale: bool): (views: seq<BoxView>)
    ensures |views| == |live|
    ensures forall k :: 0 <= k < |live| ==>
      views[k].id == live[k].id && views[k].description == live[k].box.description &&
      views[k].quantity == live[k].box.quantity
    ensures !scale ==> forall k :: 0 <= k < |live| ==> views[k].x == live[k].box.x && views[k].y == live[k].box.y
    ensures scale ==> forall k :: 0 <= k < |live| ==>
      views[k].x == ToGridUnits(live[k].box.x, page.leftCodeX) &&
      views[k].y == ToGridUnits(live[k].box.y, page.rightCodeY)
  {
    seq(|live|, k requires 0 <= k < |live| =>
      var b := live[k].box;
      BoxView(live[k].id,
              if scale then ToGridUnits(b.x, page.leftCodeX) else b.x,
              if scale then ToGridUnits(b.y, page.rightCodeY) else b.y,
              b.description, b.quantity))
  }

  /** The audio areas of a lookup, scaled to grid units when asked. */
  function AreaViews(live: seq<AreaRow>, page: Page, scale: bool): (views: seq<AreaView>)
    ensures |views| == |live|
    ensures forall k :: 0 <= k < |live| ==> views[k].id == live[k].id && views[k].soundCloudId == live[k].area.soundCloudId
    ensures scale ==> forall k :: 0 <= k < |live| ==>
      views[k].left == ToGridUnits(live[k].area.left, page.leftCodeX) &&
      views[k].top == ToGridUnits(live[k].area.top, page.rightCodeY) &&
      views[k].right == ToGridUnits(live[k].area.right, page.leftCodeX) &&
      views[k].bottom == ToGridUnits(live[k].area.bottom, page.rightCodeY)
    ensures !scale ==> forall k :: 0 <= k < |live| ==>
      views[k].left == live[k].area.left && views[k].top == live[k].area.top &&
      views[k].right == live[k].area.right && views[k].bottom == live[k].area.bottom
  {
    seq(|live|, k requires 0 <= k < |live| =>
      var a := live[k].area;
      if scale then
        AreaView(live[k].id, ToGridUnits(a.left, page.leftCodeX), ToGridUnits(a.top, page.rightCodeY),
                 ToGridUnits(a.right, page.leftCodeX), ToGridUnits(a.bottom, page.rightCodeY), a.soundCloudId)
      else AreaView(live[k].id, a.left, a.top, a.right, a.bottom, a.soundCloudId))
  }

  /** Locks only ever get set: every page locked before is locked after. */
  predicate LocksKept(before: seq<Page>, after: seq<Page>)
  {
    |before| <= |after| && forall i :: 0 <= i < |before| && before[i].locked ==> after[i].locked
  }

  // ---------------------------------------------------------------------
  // The four tables as values, and what each operation makes of them

  datatype Tables = Tables(pages: seq<Page>, tickBoxes: seq<TickBox>, destinations: seq<Destination>,
                           audioAreas: seq<AudioArea>)
  {
    /** getPageFromDB */
    function PageAt(id: int): Option<Page>
    {
      if 1 <= id <= |pages| then Some(pages[id - 1]) else None
    }

    /** getSingleTickBoxFromDB: deleted boxes are not found. */
    function BoxAt(boxId: int): Option<TickBox>
    {
      if 1 <= boxId <= |tickBoxes| && !tickBoxes[boxId - 1].deleted then Some(tickBoxes[boxId - 1]) else None
    }

    /** What lookupPageDetails adds to a page. */
    function ContentOf(pageId: nat, page: Page, scale: bool): Content
    {
      if page.pageType == 1 then
        var live := LiveBoxesIn(tickBoxes, pageId);
        if |live| > 0 then TicQR(BoxViews(live, page, scale), Some(DestinationIn(destinations, pageId)))
        else TicQR([], None)
      else if page.pageType == 2 then PaperChains(AreaViews(LiveAreasIn(audioAreas, pageId), page, scale))
      else Untyped
    }
  }

  /** savePageToDB: no page id inserts a new page of type 0, unlocked; an id
      updates the dimensions and marker positions of an existing, unlocked
      page, and keeps its type. */
  predicate SavePageDone(t: Tables, u: Tables, pageId: Option<nat>, width: int, height: int, leftCodeX: int,
                         leftCodeY: int, rightCodeX: int, rightCodeY: int, r: Response)
  {
    u.tickBoxes == t.tickBoxes && u.destinations == t.destinations && u.audioAreas == t.audioAreas &&
    (pageId.None? ==>
      u.pages == t.pages + [Page(width, height, leftCodeX, leftCodeY, rightCodeX, rightCodeY, 0, false)] &&
      r == Saved(PageKeyCodec.Encode(|u.pages|))) &&
    (pageId.Some? && EditRefusal(t.PageAt(pageId.value)).Some? ==>
      u.pages == t.pages && r == Fail(EditRefusal(t.PageAt(pageId.value)).value)) &&
    (pageId.Some? && EditRefusal(t.PageAt(pageId.value)).None? ==>
      var id := pageId.value;
      u.pages == t.pages[id - 1 := Page(width, height, leftCodeX, leftCodeY, rightCodeX, rightCodeY,
                                        t.pages[id - 1].pageType, false)] &&
      r == Saved(PageKeyCodec.Encode(id)))
  }

  /** updatePageType: the type is checked first, then the page; only the
      type changes. */
  predicate UpdatePageTypeDone(t: Tables, u: Tables, pageId: nat, pageType: int, r: Response)
  {
    u.tickBoxes == t.tickBoxes && u.destinations == t.destinations && u.audioAreas == t.audioAreas &&
    (!IsValidPageType(pageType) ==> u.pages == t.pages && r == Fail(InvalidPageType)) &&
    (IsValidPageType(pageType) && EditRefusal(t.PageAt(pageId)).Some? ==>
      u.pages == t.pages && r == Fail(EditRefusal(t.PageAt(pageId)).value)) &&
    (IsValidPageType(pageType) && EditRefusal(t.PageAt(pageId)).None? ==>
      u.pages == t.pages[pageId - 1 := t.pages[pageId - 1].(pageType := pageType)] &&
      r == Saved(PageKeyCodec.Encode(pageId)))
  }

  /** saveTickBoxToDB: after the page checks, no box id inserts a box (by
      default with an empty description and a quantity of 1); a box id
      updates x and y, and the description and quantity only when both are
      given.  The response echoes tempId, x and y when a tempId was given. */
  predicate SaveTickBoxDone(t: Tables, u: Tables, boxId: Option<int>, pageId: nat, x: int, y: int,
                            description: Option<string>, quantity: Option<int>, tempId: Option<int>, r: Response)
  {
    u.pages == t.pages && u.destinations == t.destinations && u.audioAreas == t.audioAreas &&
    (TicQRRefusal(t.PageAt(pageId)).Some? ==>
      u.tickBoxes == t.tickBoxes && r == Fail(TicQRRefusal(t.PageAt(pageId)).value)) &&
    (TicQRRefusal(t.PageAt(pageId)).None? && boxId.None? ==>
      u.tickBoxes == t.tickBoxes + [TickBox(pageId, x, y, if description.Some? then description.value else "",
                                            if quantity.Some? then quantity.value else 1, false)] &&
      r == BoxSaved(|u.tickBoxes|, EchoOf(tempId, x, y))) &&
    (TicQRRefusal(t.PageAt(pageId)).None? && boxId.Some? && BoxRefusal(t.BoxAt(boxId.value), pageId).Some? ==>
      u.tickBoxes == t.tickBoxes && r == Fail(BoxRefusal(t.BoxAt(boxId.value), pageId).value)) &&
    (TicQRRefusal(t.PageAt(pageId)).None? && boxId.Some? && BoxRefusal(t.BoxAt(boxId.value), pageId).None? ==>
      var i := boxId.value - 1;
      var b := t.tickBoxes[i];
      u.tickBoxes == t.tickBoxes[i := if description.Some? && quantity.Some?
                                      then b.(x := x, y := y, description := description.value, quantity := quantity.value)
                                      else b.(x := x, y := y)] &&
      r == BoxSaved(boxId.value, EchoOf(tempId, x, y)))
  }

  /** deleteTickBoxFromDB: after the page and box checks the box is only
      marked deleted. */
  predicate DeleteTickBoxDone(t: Tables, u: Tables, boxId: int, pageId: nat, r: Response)
  {
    u.pages == t.pages && u.destinations == t.destinations && u.audioAreas == t.audioAreas &&
    (TicQRRefusal(t.PageAt(pageId)).Some? ==>
      u.tickBoxes == t.tickBoxes && r == Fail(TicQRRefusal(t.PageAt(pageId)).value)) &&
    (TicQRRefusal(t.PageAt(pageId)).None? && BoxRefusal(t.BoxAt(boxId), pageId).Some? ==>
      u.tickBoxes == t.tickBoxes && r == Fail(BoxRefusal(t.BoxAt(boxId), pageId).value)) &&
    (TicQRRefusal(t.PageAt(pageId)).None? && BoxRefusal(t.BoxAt(boxId), pageId).None? ==>
      u.tickBoxes == t.tickBoxes[boxId - 1 := t.tickBoxes[boxId - 1].(deleted := true)] &&
      u.BoxAt(boxId).None? && r == BoxDeleted(boxId))
  }

  /** updatePageDestination: the page's destination rows are deleted and one
      row with the new destination is inserted. */
  predicate UpdateDestinationDone(t: Tables, u: Tables, pageId: nat, destination: string, r: Response)
  {
    u.pages == t.pages && u.tickBoxes == t.tickBoxes && u.audioAreas == t.audioAreas &&
    (TicQRRefusal(t.PageAt(pageId)).Some? ==>
      u.destinations == t.destinations && r == Fail(TicQRRefusal(t.PageAt(pageId)).value)) &&
    (TicQRRefusal(t.PageAt(pageId)).None? ==>
      u.destinations == WithoutPage(t.destinations, pageId) + [Destination(pageId, destination)] &&
      r == Saved(PageKeyCodec.Encode(pageId)))
  }

  /** saveAudioAreaToDB: the area is converted from client units to
      millimetres from the markers and inserted, even on a locked page. */
  predicate SaveAudioAreaDone(t: Tables, u: Tables, pageId: nat, left: int, top: int, right: int, bottom: int,
                              soundCloudId: string, r: Response)
  {
    u.pages == t.pages && u.tickBoxes == t.tickBoxes && u.destinations == t.destinations &&
    (AudioRefusal(t.PageAt(pageId)).Some? ==>
      u.audioAreas == t.audioAreas && r == Fail(AudioRefusal(t.PageAt(pageId)).value)) &&
    (AudioRefusal(t.PageAt(pageId)).None? ==>
      var p := t.pages[pageId - 1];
      u.audioAreas == t.audioAreas + [AudioArea(pageId, ToMillimetres(left, p.leftCodeX), ToMillimetres(top, p.rightCodeY),
                                                ToMillimetres(right, p.leftCodeX), ToMillimetres(bottom, p.rightCodeY),
                                                soundCloudId, false)] &&
      r == AreaSaved(|u.audioAreas|))
  }

  /** lookupPageDetails: the page with its content, or "pagekey not found";
      with lockIfExists a page whose type is set is locked first. */
  predicate LookupDone(t: Tables, u: Tables, pageId: Option<nat>, scale: bool, lockIfExists: bool, r: Response)
  {
    u.tickBoxes == t.tickBoxes && u.destinations == t.destinations && u.audioAreas == t.audioAreas &&
    (pageId.None? || t.PageAt(pageId.value).None? ==>
      u.pages == t.pages && r == ErrorJson(PageKeyNotFound, Debug)) &&
    (pageId.Some? && t.PageAt(pageId.value).Some? ==>
      var id := pageId.value;
      var p := t.pages[id - 1];
      u.pages == (if lockIfExists && p.pageType != 0 then t.pages[id - 1 := p.(locked := true)] else t.pages) &&
      r == Details(PageKeyCodec.Encode(id), u.pages[id - 1], u.ContentOf(id, u.pages[id - 1], scale)))
  }

  /** duplicatePage: a new page with the same dimensions, markers and type
      and, for a TicQR page, copies of its live tick boxes and its
      destination unless that is empty; for a PaperChains page, copies of
      its audio areas, converted once more.  The response is the lookup of
      the new page. */
  predicate DuplicateDone(t: Tables, u: Tables, pageId: nat, r: Response)
  {
    (t.PageAt(pageId).None? ==> u == t && r == Fail(PageNotFound)) &&
    (t.PageAt(pageId).Some? ==>
      var p := t.pages[pageId - 1];
      var newId := |t.pages| + 1;
      u.pages == t.pages + [p.(locked := false)] &&
      u.tickBoxes == t.tickBoxes +
        (if p.pageType == 1 then BoxCopies(LiveBoxesIn(t.tickBoxes, pageId), newId) else []) &&
      u.destinations == t.destinations +
        (if p.pageType == 1 && !IsEmptyDestination(DestinationIn(t.destinations, pageId))
         then [Destination(newId, DestinationIn(t.destinations, pageId).value)] else []) &&
      u.audioAreas == t.audioAreas +
        (if p.pageType == 2 then AreaCopies(LiveAreasIn(t.audioAreas, pageId), newId, p) else []) &&
      r == Details(PageKeyCodec.Encode(newId), u.pages[newId - 1], u.ContentOf(newId, u.pages[newId - 1], false)))
  }

  // ---------------------------------------------------------------------
  // The store

  class Store {
    var pages: seq<Page>
    var tickBoxes: seq<TickBox>
    var destinations: seq<Destination>
    var audioAreas: seq<AudioArea>

    /** Every page has one of the three types, every row points at a page,
        and a page has at most one destination row. */
    ghost predicate Valid()
      reads this
    {
      (forall i :: 0 <= i < |pages| ==> IsValidPageType(pages[i].pageType)) &&
      (forall i :: 0 <= i < |tickBoxes| ==> 1 <= tickBoxes[i].pageId <= |pages|) &&
      (forall i :: 0 <= i < |audioAreas| ==> 1 <= audioAreas[i].pageId <= |pages|) &&
      (forall i :: 0 <= i < |destinations| ==> 1 <= destinations[i].pageId <= |pages|) &&
      DistinctPages(destinations)
    }

    constructor ()
      ensures Valid()
      ensures pages == [] && tickBoxes == [] && destinations == [] && audioAreas == []
    {
      pages, tickBoxes, destinations, audioAreas := [], [], [], [];
    }

    /** The tables as they stand. */
    function State(): Tables
      reads this
    {
      Tables(pages, tickBoxes, destinations, audioAreas)
    }

    /** savePageToDB */
    method SavePage(pageId: Option<nat>, width: int, height: int, leftCodeX: int, leftCodeY: int,
                    rightCodeX: int, rightCodeY: int) returns (r: Response)
      requires Valid()
      modifies this
      ensures Valid() && LocksKept(old(pages), pages)
      ensures SavePageDone(old(State()), State(), pageId, width, height, leftCodeX, leftCodeY, rightCodeX, rightCodeY, r)
    {
      if pageId.None? {
        pages := pages + [Page(width, height, leftCodeX, leftCodeY, rightCodeX, rightCodeY, 0, false)];
        var key := PageKeyCodec.GetPageKeyFromId(|pages|);
        r := Saved(key);
        return;
      }
      var id := pageId.value;
      var refusal := EditRefusal(State().PageAt(id));
      if refusal.Some? {
        return Fail(refusal.value);
      }
      pages := pages[id - 1 := Page(width, height, leftCodeX, leftCodeY, rightCodeX, rightCodeY, pages[id - 1].pageType, false)];
      var key := PageKeyCodec.GetPageKeyFromId(id);
      r := Saved(key);
    }

    /** lockPageInDB: the page, if there is one, is locked. */
    method LockPage(pageId: int)
      requires Valid()
      modifies this
      ensures Valid() && LocksKept(old(pages), pages)
      ensures tickBoxes == old(tickBoxes) && destinations == old(destinations) && audioAreas == old(audioAreas)
      ensures pages == if 1 <= pageId <= |old(pages)|
                       then old(pages)[pageId - 1 := old(pages)[pageId - 1].(locked := true)]
                       else old(pages)
    {
      if 1 <= pageId <= |pages| {
        pages := pages[pageId - 1 := pages[pageId - 1].(locked := true)];
      }
    }

    /** updatePageType: any valid type replaces any other while the page is
        unlocked. */
    method UpdatePageType(pageId: nat, pageType: int) returns (r: Response)
      requires Valid()
      modifies this
      ensures Valid() && LocksKept(old(pages), pages)
      ensures UpdatePageTypeDone(old(State()), State(), pageId, pageType, r)
    {
      if !IsValidPageType(pageType) {
        return Fail(InvalidPageType);
      }
      var refusal := EditRefusal(State().PageAt(pageId));
      if refusal.Some? {
        return Fail(refusal.value);
      }
      pages := pages[pageId - 1 := pages[pageId - 1].(pageType := pageType)];
      var key := PageKeyCodec.GetPageKeyFromId(pageId);
      r := Saved(key);
    }

    /** saveTickBoxToDB */
    method SaveTickBox(boxId: Option<int>, pageId: nat, x: int, y: int, description: Option<string>,
                       quantity: Option<int>, tempId: Option<int>) returns (r: Response)
      requires Valid()
      modifies this
      ensures Valid() && pages == old(pages)
      ensures SaveTickBoxDone(old(State()), State(), boxId, pageId, x, y, description, quantity, tempId, r)
    {
      var refusal := TicQRRefusal(State().PageAt(pageId));
      if refusal.Some? {
        return Fail(refusal.value);
      }
      if boxId.None? {
        var box := TickBox(pageId, x, y, if description.Some? then description.value else "",
                           if quantity.Some? then quantity.value else 1, false);
        tickBoxes := tickBoxes + [box];
        r := BoxSaved(|tickBoxes|, EchoOf(tempId, x, y));
        return;
      }
      var id := boxId.value;
      var boxRefusal := BoxRefusal(State().BoxAt(id), pageId);
      if boxRefusal.Some? {
        return Fail(boxRefusal.value);
      }
      var b := tickBoxes[id - 1];
      var updated := if description.Some? && quantity.Some?
                     then b.(x := x, y := y, description := description.value, quantity := quantity.value)
                     else b.(x := x, y := y);
      tickBoxes := tickBoxes[id - 1 := updated];
      r := BoxSaved(id, EchoOf(tempId, x, y));
    }

    /** deleteTickBoxFromDB */
    method DeleteTickBox(boxId: int, pageId: nat) returns (r: Response)
      requires Valid()
      modifies this
      ensures Valid() && pages == old(pages)
      ensures DeleteTickBoxDone(old(State()), State(), boxId, pageId, r)
    {
      var refusal := TicQRRefusal(State().PageAt(pageId));
      if refusal.Some? {
        return Fail(refusal.value);
      }
      var boxRefusal := BoxRefusal(State().BoxAt(boxId), pageId);
      if boxRefusal.Some? {
        return Fail(boxRefusal.value);
      }
      tickBoxes := tickBoxes[boxId - 1 := tickBoxes[boxId - 1].(deleted := true)];
      r := BoxDeleted(boxId);
    }

    /** updatePageDestination */
    method UpdatePageDestination(pageId: nat, destination: string) returns (r: Response)
      requires Valid()
      modifies this
      ensures Valid() && pages == old(pages)
      ensures UpdateDestinationDone(old(State()), State(), pageId, destination, r)
    {
      var refusal := TicQRRefusal(State().PageAt(pageId));
      if refusal.Some? {
        return Fail(refusal.value);
      }
      var kept := WithoutPage(destinations, pageId);
      destinations := kept + [Destination(pageId, destination)];
      WithoutPageKeepsDistinct(old(destinations), pageId);
      AddBackKeepsDistinct(kept, Destination(pageId, destination));
      var key := PageKeyCodec.GetPageKeyFromId(pageId);
      r := Saved(key);
    }

    /** saveAudioAreaToDB */
    method SaveAudioArea(pageId: nat, left: int, top: int, right: int, bottom: int, soundCloudId: string)
      returns (r: Response)
      requires Valid()
      modifies this
      ensures Valid() && pages == old(pages)
      ensures SaveAudioAreaDone(old(State()), State(), pageId, left, top, right, bottom, soundCloudId, r)
    {
      var refusal := AudioRefusal(State().PageAt(pageId));
      if refusal.Some? {
        return Fail(refusal.value);
      }
      var p := pages[pageId - 1];
      audioAreas := audioAreas + [AudioArea(pageId, ToMillimetres(left, p.leftCodeX), ToMillimetres(top, p.rightCodeY),
                                            ToMillimetres(right, p.leftCodeX), ToMillimetres(bottom, p.rightCodeY),
                                            soundCloudId, false)];
      r := AreaSaved(|audioAreas|);
    }

    /** lookupPageDetails */
    method LookupPageDetails(pageId: Option<nat>, scale: bool, lockIfExists: bool) returns (r: Response)
      requires Valid()
      modifies this
      ensures Valid() && LocksKept(old(pages), pages)
      ensures LookupDone(old(State()), State(), pageId, scale, lockIfExists, r)
    {
      if pageId.None? || State().PageAt(pageId.value).None? {
        return ErrorJson(PageKeyNotFound, Debug);
      }
      var id := pageId.value;
      if lockIfExists && pages[id - 1].pageType != 0 {
        LockPage(id);
      }
      var key := PageKeyCodec.GetPageKeyFromId(id);
      r := Details(key, pages[id - 1], State().ContentOf(id, pages[id - 1], scale));
    }

    /** duplicatePage */
    method DuplicatePage(pageId: nat) returns (r: Response)
      requires Valid()
      modifies this
      ensures Valid() && LocksKept(old(pages), pages)
      ensures DuplicateDone(old(State()), State(), pageId, r)
    {
      var current := State().PageAt(pageId);
      if current.None? {
        return Fail(PageNotFound);
      }
      var newId := CopyPage(pageId);
      r := LookupPageDetails(Some(newId), false, false);
    }

    /** duplicatePage up to the final lookup: a new page with the
        original's size, marker positions and type, then its content. */
    method CopyPage(pageId: nat) returns (newId: nat)
      requires Valid() && State().PageAt(pageId).Some?
      modifies this
      ensures Valid() && LocksKept(old(pages), pages)
      ensures newId == |old(pages)| + 1 == |pages|
      ensures var p := old(pages)[pageId - 1];
        pages == old(pages) + [p.(locked := false)] &&
        tickBoxes == old(tickBoxes) +
          (if p.pageType == 1 then BoxCopies(LiveBoxesIn(old(tickBoxes), pageId), newId) else []) &&
        destinations == old(destinations) +
          (if p.pageType == 1 && !IsEmptyDestination(DestinationIn(old(destinations), pageId))
           then [Destination(newId, DestinationIn(old(destinations), pageId).value)] else []) &&
        audioAreas == old(audioAreas) +
          (if p.pageType == 2 then AreaCopies(LiveAreasIn(old(audioAreas), pageId), newId, p) else [])
    {
      var p := pages[pageId - 1];
      var saved := SavePage(None, p.width, p.height, p.leftCodeX, p.leftCodeY, p.rightCodeX, p.rightCodeY);
      PageKeyCodec.RoundTrip(|pages|);
      var decoded := PageKeyCodec.GetIdFromPageKey(saved.pageKey);
      newId := decoded.value;
      var typed := UpdatePageType(newId, p.pageType);
      assert pages == old(pages) + [p.(locked := false)];
      CopyContent(pageId, newId);
    }

    /** The part of duplicatePage that depends on the type: the copied page
        newId already has the original's type. */
    method CopyContent(pageId: nat, newId: nat)
      requires Valid() && 1 <= pageId < newId == |pages|
      requires pages[newId - 1] == pages[pageId - 1].(locked := false)
      requires forall i :: 0 <= i < |destinations| ==> destinations[i].pageId < newId
      modifies this
      ensures Valid() && pages == old(pages)
      ensures var p := pages[pageId - 1];
        tickBoxes == old(tickBoxes) +
          (if p.pageType == 1 then BoxCopies(LiveBoxesIn(old(tickBoxes), pageId), newId) else []) &&
        destinations == old(destinations) +
          (if p.pageType == 1 && !IsEmptyDestination(DestinationIn(old(destinations), pageId))
           then [Destination(newId, DestinationIn(old(destinations), pageId).value)] else []) &&
        audioAreas == old(audioAreas) +
          (if p.pageType == 2 then AreaCopies(LiveAreasIn(old(audioAreas), pageId), newId, p) else [])
    {
      var p := pages[pageId - 1];
      if p.pageType == 1 {
        var live := LiveBoxesIn(tickBoxes, pageId);
        CopyTickBoxes(live, newId);
        CopyDestination(pageId, newId);
      } else if p.pageType == 2 {
        var live := LiveAreasIn(audioAreas, pageId);
        CopyAudioAreas(live, newId);
        CopiesIgnoreLock(live, newId, p);
      }
    }

    /** duplicatePage copies a destination that is not empty. */
    method CopyDestination(pageId: nat, newId: nat)
      requires Valid() && TicQRRefusal(State().PageAt(newId)).None?
      requires forall i :: 0 <= i < |destinations| ==> destinations[i].pageId < newId
      modifies this
      ensures Valid() && pages == old(pages) && tickBoxes == old(tickBoxes) && audioAreas == old(audioAreas)
      ensures destinations == old(destinations) +
        (if !IsEmptyDestination(DestinationIn(old(destinations), pageId))
         then [Destination(newId, DestinationIn(old(destinations), pageId).value)] else [])
    {
      var destination := DestinationIn(destinations, pageId);
      if !IsEmptyDestination(destination) {
        NoDestinationForNewPage(destinations, newId);
        WithoutAbsentPage(destinations, newId);
        var _ := UpdatePageDestination(newId, destination.value);
      }
    }

    /** The foreach of duplicatePage over the original's tick boxes. */
    method CopyTickBoxes(live: seq<BoxRow>, newId: nat)
      requires Valid() && TicQRRefusal(State().PageAt(newId)).None?
      modifies this
      ensures Valid() && pages == old(pages)
      ensures tickBoxes == old(tickBoxes) + BoxCopies(live, newId)
      ensures destinations == old(destinations) && audioAreas == old(audioAreas)
    {
      for k := 0 to |live|
        invariant Valid() && pages == old(pages)
        invariant tickBoxes == old(tickBoxes) + BoxCopies(live[..k], newId)
        invariant destinations == old(destinations) && audioAreas == old(audioAreas)
      {
        var b := live[k].box;
        var _ := SaveTickBox(None, newId, b.x, b.y, Some(b.description), Some(b.quantity), None);
        assert live[..k + 1][..k] == live[..k];
      }
      assert live[..|live|] == live;
    }

    /** The foreach of duplicatePage over the original's audio areas. */
    method CopyAudioAreas(live: seq<AreaRow>, newId: nat)
      requires Valid() && AudioRefusal(State().PageAt(newId)).None?
      modifies this
      ensures Valid() && pages == old(pages)
      ensures audioAreas == old(audioAreas) + AreaCopies(live, newId, pages[newId - 1])
      ensures tickBoxes == old(tickBoxes) && destinations == old(destinations)
    {
      for k := 0 to |live|
        invariant Valid() && pages == old(pages)
        invariant audioAreas == old(audioAreas) + AreaCopies(live[..k], newId, pages[newId - 1])
        invariant tickBoxes == old(tickBoxes) && destinations == old(destinations)
      {
        var a := live[k].area;
        var _ := SaveAudioArea(newId, a.left, a.top, a.right, a.bottom, a.soundCloudId);
        assert live[..k + 1][..k] == live[..k];
      }
      assert live[..|live|] == live;
    }
  }

  /** The duplicate's copies depend on the marker positions, not on the lock. */
  lemma CopiesIgnoreLock(live: seq<AreaRow>, newPageId: nat, page: Page)
    ensures AreaCopies(live, newPageId, page.(locked := false)) == AreaCopies(live, newPageId, page)
  {
  }

  /** No two destination rows name the same page. */
  predicate DistinctPages(rows: seq<Destination>)
  {
    forall i, j :: 0 <= i < j < |rows| ==> rows[i].pageId != rows[j].pageId
  }

  lemma {:induction false} WithoutPageKeepsDistinct(rows: seq<Destination>, pageId: nat)
    requires DistinctPages(rows)
    ensures DistinctPages(WithoutPage(rows, pageId))
  {
    if |rows| > 0 {
      var rest := WithoutPage(rows[1..], pageId);
      assert DistinctPages(rows[1..]) by {
        forall i, j | 0 <= i < j < |rows[1..]|
          ensures rows[1..][i].pageId != rows[1..][j].pageId
        {
          assert rows[1..][i] == rows[i + 1] && rows[1..][j] == rows[j + 1];
        }
      }
      WithoutPageKeepsDistinct(rows[1..], pageId);
      if rows[0].pageId != pageId {
        forall d | d in rest
          ensures d.pageId != rows[0].pageId
        {
          var k :| 0 <= k < |rows[1..]| && rows[1..][k] == d;
          assert rows[k + 1] == d;
        }
        AddFrontKeepsDistinct(rows[0], rest);
      }
    }
  }

  lemma AddFrontKeepsDistinct(first: Destination, rest: seq<Destination>)
    requires DistinctPages(rest)
    requires forall d :: d in rest ==> d.pageId != first.pageId
    ensures DistinctPages([first] + rest)
  {
    var all := [first] + rest;
    forall i, j | 0 <= i < j < |all|
      ensures all[i].pageId != all[j].pageId
    {
      assert all[j] == rest[j - 1];
      if i > 0 {
        assert all[i] == rest[i - 1];
      } else {
        assert rest[j - 1] in rest;
      }
    }
  }

  lemma AddBackKeepsDistinct(rows: seq<Destination>, last: Destination)
    requires DistinctPages(rows)
    requires forall d :: d in rows ==> d.pageId != last.pageId
    ensures DistinctPages(rows + [last])
  {
    var all := rows + [last];
    forall i, j | 0 <= i < j < |all|
      ensures all[i].pageId != all[j].pageId
    {
      assert all[i] == rows[i];
      if j == |rows| {
        assert rows[i] in rows;
      } else {
        assert all[j] == rows[j];
      }
    }
  }

  lemma NoDestinationForNewPage(rows: seq<Destination>, newId: nat)
    requires forall i :: 0 <= i < |rows| ==> rows[i].pageId < newId
    ensures forall d :: d in rows ==> d.pageId != newId
  {
  }

  lemma {:induction false} WithoutAbsentPage(rows: seq<Destination>, pageId: nat)
    requires forall d :: d in rows ==> d.pageId != pageId
    ensures WithoutPage(rows, pageId) == rows
  {
    if |rows| > 0 {
      assert forall d :: d in rows[1..] ==> d in rows;
      WithoutAbsentPage(rows[1..], pageId);
      assert rows == [rows[0]] + rows[1..];
    }
  }

  function EchoOf(tempId: Option<int>, x: int, y: int): Option<Echo>
  {
    if tempId.Some? then Some(Echo(tempId.value, x, y)) else None
  }
}
