/** The editing session of codepaper.js: the tick boxes on the page, the
    selection kept by the mouse and key handlers, the two markers and
    their drag, the snap lists, the modal dialog, and the table of remote
    calls with their success and timeout events.  Pointer positions arrive
    already converted to page millimetres and rounded; timers and the
    JSONP transport become explicit events. */
module Editor {
  import opened Options
  import opened Decimal
  import opened LayoutGeometry
  import RequestValidation

  /** A tick box element: its identity (the Raphael element), its top-left
      corner and the data stored on it.  tempId is set while the box waits
      for its server id; startX/startY are the grab offset of a drag. */
  datatype TickBox = TickBox(handle: nat, x: real, y: real, id: Option<int>, description: string,
                             quantity: int, tempId: Option<int>, hasMoved: bool,
                             startX: real, startY: real)

  /** The query of a JSONP request, as the editor builds it. */
  datatype Request =
    | NewPage(width: real, height: real, leftCodeX: int, leftCodeY: int, rightCodeX: int, rightCodeY: int)
    | UpdatePage(pageKey: string, pageWidth: real, pageHeight: real, leftX: int, leftY: int,
                 rightX: int, rightY: int)
    | NewBox(newX: int, newY: int, newBoxPage: string, newTempId: int)
    | UpdateBox(boxId: Option<int>, boxX: int, boxY: int, boxPage: string)
    | DeleteBox(deleteId: Option<int>, deletePage: string)

  /** A request together with the connection id appended to its URL. */
  datatype Call = Call(connectionId: nat, request: Request)

  /** The reply to a new-box request, as far as reconciliation reads it;
      None where the reply has no such member. */
  datatype Reply = Reply(id: Option<int>, tempId: Option<int>, x: Option<int>, y: Option<int>)

  /** What the pointer went down on. */
  datatype Target = NoElement | Paper | BoxElement(handle: nat)

  const KeyBackspace: int := 8
  const KeyEnter: int := 13
  const KeyEscape: int := 27
  const KeyLeft: int := 37
  const KeyUp: int := 38
  const KeyRight: int := 39
  const KeyDown: int := 40
  const KeyDelete: int := 46

  /** The position of the box with the given handle. */
  function Find(boxes: seq<TickBox>, handle: nat): (k: Option<nat>)
    ensures k.Some? ==> k.value < |boxes| && boxes[k.value].handle == handle
    ensures k.None? ==> forall i :: 0 <= i < |boxes| ==> boxes[i].handle != handle
  {
    if |boxes| == 0 then None
    else if boxes[|boxes| - 1].handle == handle then Some(|boxes| - 1)
    else Find(boxes[..|boxes| - 1], handle)
  }

  function Xs(boxes: seq<TickBox>): (xs: seq<real>)
    ensures |xs| == |boxes| && forall i :: 0 <= i < |boxes| ==> xs[i] == boxes[i].x
  {
    seq(|boxes|, i requires 0 <= i < |boxes| => boxes[i].x)
  }

  function Ys(boxes: seq<TickBox>): (ys: seq<real>)
    ensures |ys| == |boxes| && forall i :: 0 <= i < |boxes| ==> ys[i] == boxes[i].y
  {
    seq(|boxes|, i requires 0 <= i < |boxes| => boxes[i].y)
  }

  /** The values of s without repeats, in order of first occurrence. */
  function Distinct(s: seq<real>): seq<real>
  {
    if |s| == 0 then []
    else
      var d := Distinct(s[..|s| - 1]);
      if s[|s| - 1] in d then d else d + [s[|s| - 1]]
  }

  /** Distinct keeps every value and repeats none. */
  lemma {:induction false} DistinctIsDeduplication(s: seq<real>)
    ensures forall v :: v in Distinct(s) <==> v in s
    ensures forall i, j :: 0 <= i < j < |Distinct(s)| ==> Distinct(s)[i] != Distinct(s)[j]
  {
    if |s| > 0 {
      var init := s[..|s| - 1];
      DistinctIsDeduplication(init);
      assert s == init + [s[|s| - 1]];
    }
  }

  /** Distinct keeps the order in which values first occur. */
  lemma {:induction false} DistinctKeepsFirstOccurrence(s: seq<real>, i: nat, j: nat)
    requires i < j < |s|
    requires s[i] !in s[..i] && s[j] !in s[..j]
    ensures s[i] in Distinct(s) && s[j] in Distinct(s)
    ensures exists a, b :: 0 <= a < b < |Distinct(s)| && Distinct(s)[a] == s[i] && Distinct(s)[b] == s[j]
  {
    var init := s[..|s| - 1];
    DistinctIsDeduplication(s);
    if j < |s| - 1 {
      assert init[..i] == s[..i] && init[..j] == s[..j];
      DistinctKeepsFirstOccurrence(init, i, j);
      var a, b :| 0 <= a < b < |Distinct(init)| && Distinct(init)[a] == s[i] && Distinct(init)[b] == s[j];
      assert Distinct(s)[..|Distinct(init)|] == Distinct(init);
      assert Distinct(s)[a] == s[i] && Distinct(s)[b] == s[j];
    } else {
      DistinctIsDeduplication(init);
      assert s[j] !in init;
      assert s[i] in init;
      var a :| 0 <= a < |Distinct(init)| && Distinct(init)[a] == s[i];
      assert Distinct(s) == Distinct(init) + [s[j]];
      assert Distinct(s)[|Distinct(init)|] == s[j];
    }
  }

  /** The server echoes the connection id of every call unchanged. */
  lemma EchoedConnectionId(n: nat)
    requires n <= RequestValidation.IntMax
    ensures RequestValidation.ConnectionId(Some(NatToString(n))) == n
  {
    RequestValidation.IntValOfNumeral(NatToString(n));
    ValueOfNatToString(n);
  }

  /** updateTickBoxWithId as written compares with ==, so a box without a
      tempId matches a reply without one (undefined == undefined). */
  predicate MatchesReplyAsWritten(box: TickBox, reply: Reply)
  {
    box.tempId == reply.tempId
  }

  /** The intended match: the box that carries the reply's tempId. */
  predicate MatchesReply(box: TickBox, reply: Reply)
  {
    reply.tempId.Some? && box.tempId == reply.tempId
  }

  /** A matched box takes the reply's id and loses its tempId. */
  function ReconciledBox(box: TickBox, reply: Reply): TickBox
  {
    box.(id := reply.id, tempId := None)
  }

  function ReconciledAsWritten(boxes: seq<TickBox>, reply: Reply): (r: seq<TickBox>)
    ensures |r| == |boxes|
    ensures forall i :: 0 <= i < |boxes| ==>
      r[i] == if MatchesReplyAsWritten(boxes[i], reply) then ReconciledBox(boxes[i], reply) else boxes[i]
  {
    seq(|boxes|, i requires 0 <= i < |boxes| =>
      if MatchesReplyAsWritten(boxes[i], reply) then ReconciledBox(boxes[i], reply) else boxes[i])
  }

  /** One box under the intended match. */
  function ReconcileOne(box: TickBox, reply: Reply): TickBox
  {
    if MatchesReply(box, reply) then ReconciledBox(box, reply) else box
  }

  function Reconciled(boxes: seq<TickBox>, reply: Reply): (r: seq<TickBox>)
    ensures |r| == |boxes|
    ensures forall i :: 0 <= i < |boxes| ==> r[i] == ReconcileOne(boxes[i], reply)
  {
    seq(|boxes|, i requires 0 <= i < |boxes| => ReconcileOne(boxes[i], reply))
  }

  /** A reply without a tempId (a refused new box) makes every saved box
      lose its id when matched as written; with the intended match nothing
      changes. */
  lemma FailedReplyWipesSavedIds(boxes: seq<TickBox>, reply: Reply)
    requires reply == Reply(None, None, None, None)
    ensures forall i :: 0 <= i < |boxes| && boxes[i].tempId.None? ==>
      ReconciledAsWritten(boxes, reply)[i].id.None?
    ensures Reconciled(boxes, reply) == boxes
  {
  }

  /** The same, on one saved box with id 7. */
  lemma FailedReplyWipesOneBox()
    ensures var box := TickBox(0, 10.0, 10.0, Some(7), "", 1, None, false, 0.0, 0.0);
      ReconciledAsWritten([box], Reply(None, None, None, None))[0].id == None &&
      Reconciled([box], Reply(None, None, None, None))[0].id == Some(7)
  {
  }

  /** The two matches agree on every reply that carries a tempId. */
  lemma MatchesAgreeWithTempId(box: TickBox, reply: Reply)
    requires reply.tempId.Some?
    ensures MatchesReply(box, reply) <==> MatchesReplyAsWritten(box, reply)
  {
  }

  /** The corrective update a matched box needs when its centre is not where
      the reply says the server stored it. */
  function Correction(box: TickBox, reply: Reply, boxSize: real, pageKey: string): seq<Request>
  {
    var cx, cy := box.x + boxSize / 2.0, box.y + boxSize / 2.0;
    if reply.x.None? || cx != reply.x.value as real || reply.y.None? || cy != reply.y.value as real
    then [UpdateBox(reply.id, RoundHalfUp(cx), RoundHalfUp(cy), pageKey)]
    else []
  }

  /** The update handleMouseUp sends for a released box: only for a box
      that has its server id and has moved, at its rounded centre. */
  function ReleaseRequests(b: TickBox, boxSize: real, pageKey: string): seq<Request>
  {
    if b.tempId.None? && b.hasMoved
    then [UpdateBox(b.id, RoundHalfUp(b.x + boxSize / 2.0), RoundHalfUp(b.y + boxSize / 2.0), pageKey)]
    else []
  }

  /** The boxes after a release: the released box, if still on the page,
      has hasMoved cleared. */
  function ReleasedBoxes(boxes: seq<TickBox>, handle: nat): seq<TickBox>
  {
    var k := Find(boxes, handle);
    if k.None? then boxes else boxes[k.value := boxes[k.value].(hasMoved := false)]
  }

  /** The requests a release sends. */
  function ReleaseCalls(boxes: seq<TickBox>, handle: nat, boxSize: real, pageKey: string): seq<Request>
  {
    var k := Find(boxes, handle);
    if k.None? then [] else ReleaseRequests(boxes[k.value], boxSize, pageKey)
  }

  /** The corrective update one box contributes: none unless it matches. */
  function CorrectionOf(box: TickBox, reply: Reply, boxSize: real, pageKey: string): seq<Request>
  {
    if MatchesReply(box, reply) then Correction(box, reply, boxSize, pageKey) else []
  }

  /** The corrective updates of a reconciliation, in box order. */
  function Corrections(boxes: seq<TickBox>, reply: Reply, boxSize: real, pageKey: string): seq<Request>
  {
    if |boxes| == 0 then []
    else Corrections(boxes[..|boxes| - 1], reply, boxSize, pageKey) +
         CorrectionOf(boxes[|boxes| - 1], reply, boxSize, pageKey)
  }

  lemma CorrectionsStep(boxes: seq<TickBox>, i: nat, reply: Reply, boxSize: real, pageKey: string)
    requires i < |boxes|
    ensures Corrections(boxes[..i + 1], reply, boxSize, pageKey) ==
      Corrections(boxes[..i], reply, boxSize, pageKey) + CorrectionOf(boxes[i], reply, boxSize, pageKey)
  {
    assert boxes[..i + 1][..i] == boxes[..i];
  }

  /** Tick boxes waiting for an id carry different tempIds. */
  predicate UniqueTempIds(boxes: seq<TickBox>)
  {
    forall i, j :: 0 <= i < j < |boxes| && boxes[i].tempId.Some? ==> boxes[i].tempId != boxes[j].tempId
  }

  /** With unique tempIds a reply reconciles at most one box, so it asks
      for at most one corrective update. */
  lemma {:induction false} AtMostOneCorrection(boxes: seq<TickBox>, reply: Reply, boxSize: real, pageKey: string)
    requires UniqueTempIds(boxes)
    ensures |Corrections(boxes, reply, boxSize, pageKey)| <= 1
    ensures (forall i :: 0 <= i < |boxes| ==> !MatchesReply(boxes[i], reply)) ==>
      Corrections(boxes, reply, boxSize, pageKey) == []
  {
    if |boxes| > 0 {
      var init := boxes[..|boxes| - 1];
      assert UniqueTempIds(init);
      AtMostOneCorrection(init, reply, boxSize, pageKey);
      if MatchesReply(boxes[|boxes| - 1], reply) {
        NoOtherMatch(init, boxes, reply);
        AtMostOneCorrection(init, reply, boxSize, pageKey);
      }
    }
  }

  lemma NoOtherMatch(init: seq<TickBox>, boxes: seq<TickBox>, reply: Reply)
    requires |boxes| > 0 && init == boxes[..|boxes| - 1] && UniqueTempIds(boxes)
    requires MatchesReply(boxes[|boxes| - 1], reply)
    ensures forall i :: 0 <= i < |init| ==> !MatchesReply(init[i], reply)
  {
    forall i | 0 <= i < |init|
      ensures !MatchesReply(init[i], reply)
    {
      assert boxes[i] == init[i];
    }
  }

  function Numbered(first: nat, requests: seq<Request>): (calls: seq<Call>)
    ensures |calls| == |requests|
    ensures forall i :: 0 <= i < |calls| ==> calls[i] == Call(first + i, requests[i])
  {
    seq(|requests|, i requires 0 <= i < |requests| => Call(first + i, requests[i]))
  }

  /** The box addTickBox creates: top-left p, no tempId, not moving. */
  function NewTickBox(handle: nat, p: Point, id: Option<int>, description: Option<string>,
                      quantity: Option<int>): TickBox
  {
    TickBox(handle, p.x, p.y, id, if description.Some? then description.value else "",
            if quantity.Some? then quantity.value else 1, None, false, 0.0, 0.0)
  }

  /** A box taken up by the pointer at (px, py): the grab offset is
      recorded and hasMoved cleared. */
  function Grabbed(b: TickBox, px: int, py: int): TickBox
  {
    b.(startX := px as real - b.x, startY := py as real - b.y, hasMoved := false)
  }

  /** A box dragged with the pointer at (px, py): it goes where
      DraggedTickBox puts its grab point and is marked as moved. */
  function DragTo(b: TickBox, snapXs: seq<real>, snapYs: seq<real>, px: int, py: int,
                  paperWidth: real, paperHeight: real, boxSize: real): TickBox
  {
    var p := DraggedTickBox(snapXs, snapYs, px as real - b.startX, py as real - b.startY,
                            paperWidth, paperHeight, boxSize);
    b.(x := p.x, y := p.y, hasMoved := true)
  }

  /** The editor's state (CodePaper.common, .event, .remote and .dialog). */
  class Session {
    const paperWidth: real
    const paperHeight: real
    const tickBoxSize: real
    const qrCodeSize: int
    const pageType: int
    const pageKey: string

    var boxes: seq<TickBox>
    var nextHandle: nat
    var snapXs: seq<real>
    var snapYs: seq<real>
    var selectedTickBox: Option<nat>
    var previousSelectedTickBox: Option<nat>
    var tempId: int

    var leftX: int
    var leftY: int
    var rightX: int
    var rightY: int
    var selectedQRCode: Option<Marker>
    var qrStartX: int
    var qrStartY: int
    var safeArea: Area
    var safeAreaShown: bool
    var pendingRegenerations: nat
    var rightCodeCounts: (real, real)

    var errorCounter: nat
    var errorCalls: map<int, bool>
    var calls: seq<Call>
    var warnings: seq<int>
    var dialogOpen: bool

    ghost predicate Valid()
      reads this`tempId, this`boxes, this`nextHandle, this`calls, this`errorCounter, this`errorCalls
    {
      qrCodeSize > 0 && tempId >= 1 &&
      BoxesValid(boxes, nextHandle, tempId) &&
      CallsValid(calls, errorCounter, errorCalls)
    }

    /** setup for a page: an existing page's markers where they were saved,
        otherwise the default placement, announced to the server with a
        new-page request. */
    constructor (paperWidth: real, paperHeight: real, tickBoxSize: real, qrCodeSize: int, pageType: int,
                 pageKey: string, existing: Option<(int, int, int, int)>)
      requires qrCodeSize > 0
      ensures Valid()
      ensures this.paperWidth == paperWidth && this.paperHeight == paperHeight &&
              this.tickBoxSize == tickBoxSize && this.qrCodeSize == qrCodeSize &&
              this.pageType == pageType && this.pageKey == pageKey
      ensures boxes == [] && nextHandle == 0 && snapXs == [] && snapYs == [] && tempId == 1
      ensures pendingRegenerations == 0 && !safeAreaShown
      ensures selectedTickBox.None? && previousSelectedTickBox.None? && selectedQRCode.None?
      ensures existing.Some? ==> (leftX, leftY, rightX, rightY) == existing.value && calls == []
      ensures existing.None? ==>
        (leftX, leftY) == DefaultLeftMarker(paperHeight, qrCodeSize) &&
        (rightX, rightY) == DefaultRightMarker(paperWidth, qrCodeSize) &&
        calls == [Call(0, NewPage(paperWidth, paperHeight, leftX, leftY, rightX, rightY))]
      ensures var c := rightCodeCounts;
        existing.Some? ==> c == PositionCounts(leftX, leftY, rightX, rightY, qrCodeSize)
      ensures existing.None? ==> rightCodeCounts == (Cells(paperWidth, qrCodeSize) as real, Cells(paperHeight, qrCodeSize) as real)
      ensures errorCalls == (if existing.None? then map[0 := true] else map[]) && warnings == [] && !dialogOpen
    {
      this.paperWidth, this.paperHeight, this.tickBoxSize := paperWidth, paperHeight, tickBoxSize;
      this.qrCodeSize, this.pageType, this.pageKey := qrCodeSize, pageType, pageKey;
      boxes, nextHandle, snapXs, snapYs := [], 0, [], [];
      selectedTickBox, previousSelectedTickBox, tempId := None, None, 1;
      selectedQRCode, qrStartX, qrStartY, safeArea, safeAreaShown := None, 0, 0, Area(0, 0, 0, 0), false;
      pendingRegenerations := 0;
      dialogOpen, warnings := false, [];
      if existing.Some? {
        var (lx, ly, rx, ry) := existing.value;
        leftX, leftY, rightX, rightY := lx, ly, rx, ry;
        rightCodeCounts := PositionCounts(lx, ly, rx, ry, qrCodeSize);
        errorCounter, errorCalls, calls := 0, map[], [];
      } else {
        var (lx, ly) := DefaultLeftMarker(paperHeight, qrCodeSize);
        var (rx, ry) := DefaultRightMarker(paperWidth, qrCodeSize);
        leftX, leftY, rightX, rightY := lx, ly, rx, ry;
        rightCodeCounts := (Cells(paperWidth, qrCodeSize) as real, Cells(paperHeight, qrCodeSize) as real);
        errorCounter, errorCalls := 1, map[0 := true];
        calls := [Call(0, NewPage(paperWidth, paperHeight, lx, ly, rx, ry))];
      }
    }

    // ---- remote calls ----

    /** requestJsonP: the call is tagged with the current counter, marked
        outstanding, and the counter moves on. */
    method RequestJsonP(request: Request)
      requires Valid()
      modifies this`calls, this`errorCounter, this`errorCalls
      ensures Valid()
      ensures calls == old(calls) + [Call(old(errorCounter), request)]
      ensures errorCounter == old(errorCounter) + 1
      ensures errorCalls == old(errorCalls)[old(errorCounter) := true]
      ensures errorCalls == Issued(old(errorCalls), old(errorCounter), errorCounter)
    {
      calls := calls + [Call(errorCounter, request)];
      errorCalls := errorCalls[errorCounter := true];
      errorCounter := errorCounter + 1;
    }

    /** connectionSuccess: the call is no longer outstanding. */
    method ConnectionSuccess(connectionId: int)
      requires Valid()
      modifies this`errorCalls
      ensures Valid()
      ensures errorCalls == old(errorCalls)[connectionId := false]
    {
      errorCalls := errorCalls[connectionId := false];
    }

    /** showConnectionError, when a call's timeout fires: a warning only for
        a call still outstanding. */
    method ShowConnectionError(connectionId: int)
      requires Valid()
      modifies this`dialogOpen, this`warnings
      ensures Valid()
      ensures var outstanding := connectionId in errorCalls && errorCalls[connectionId];
        warnings == old(warnings) + (if outstanding then [connectionId] else []) &&
        dialogOpen == (old(dialogOpen) || outstanding)
    {
      if connectionId in errorCalls && errorCalls[connectionId] {
        ShowDialog();
        warnings := warnings + [connectionId];
      }
    }

    // ---- dialog ----

    function IsShowing(): bool
      reads this
    {
      dialogOpen
    }

    /** dialog.show: any open dialog is replaced. */
    method ShowDialog()
      modifies this`dialogOpen
      ensures dialogOpen
    {
      var _ := CloseDialog();
      dialogOpen := true;
    }

    /** dialog.close: closes the open dialog and says whether there was one. */
    method CloseDialog() returns (closed: bool)
      modifies this`dialogOpen
      ensures closed == old(dialogOpen) && !dialogOpen
    {
      closed := dialogOpen;
      dialogOpen := false;
    }

    // ---- tick boxes ----

    /** updateTickBoxSnapGrid: both lists are emptied, then hold each box's
        x (and y) once, in order of first occurrence. */
    method UpdateTickBoxSnapGrid()
      modifies this`snapXs, this`snapYs
      ensures snapXs == Distinct(Xs(boxes)) && snapYs == Distinct(Ys(boxes))
    {
      while |snapXs| > 0
        decreases |snapXs|
      {
        snapXs := snapXs[..|snapXs| - 1];
      }
      while |snapYs| > 0
        invariant snapXs == []
        decreases |snapYs|
      {
        snapYs := snapYs[..|snapYs| - 1];
      }
      var xs, ys := Xs(boxes), Ys(boxes);
      for i := 0 to |boxes|
        invariant snapXs == Distinct(xs[..i]) && snapYs == Distinct(ys[..i])
      {
        assert xs[..i + 1][..i] == xs[..i] && ys[..i + 1][..i] == ys[..i];
        if boxes[i].x !in snapXs {
          snapXs := snapXs + [boxes[i].x];
        }
        if boxes[i].y !in snapYs {
          snapYs := snapYs + [boxes[i].y];
        }
      }
      assert xs[..|boxes|] == xs && ys[..|boxes|] == ys;
    }

    /** addTickBox: a new element centred on (cx, cy) as far as the edges
        allow, with no id unless one is given, description '' and quantity
        1 by default; the snap lists are rebuilt. */
    method AddTickBox(cx: real, cy: real, id: Option<int>, description: Option<string>, quantity: Option<int>)
      returns (handle: nat)
      requires Valid()
      modifies this`boxes, this`nextHandle, this`snapXs, this`snapYs
      ensures Valid()
      ensures handle == old(nextHandle) && nextHandle == handle + 1
      ensures boxes == old(boxes) + [NewTickBox(handle, TickBoxTopLeft(cx, cy, paperWidth, paperHeight, tickBoxSize),
                                                id, description, quantity)]
      ensures snapXs == Distinct(Xs(boxes)) && snapYs == Distinct(Ys(boxes))
    {
      var p := TickBoxTopLeft(cx, cy, paperWidth, paperHeight, tickBoxSize);
      handle := nextHandle;
      AppendKeepsValid(boxes, NewTickBox(handle, p, id, description, quantity), nextHandle, tempId);
      boxes := boxes + [NewTickBox(handle, p, id, description, quantity)];
      nextHandle := nextHandle + 1;
      UpdateTickBoxSnapGrid();
    }

    /** updateTickBoxWithId, with the intended match: the box carrying the
        reply's tempId takes the server id and drops its tempId, and one
        corrective update goes out when its centre is not where the server
        stored it. */
    method UpdateTickBoxWithId(reply: Reply)
      requires Valid()
      modifies this`boxes, this`calls, this`errorCounter, this`errorCalls
      ensures Valid()
      ensures boxes == Reconciled(old(boxes), reply)
      ensures calls == old(calls) + Numbered(old(errorCounter), Corrections(old(boxes), reply, tickBoxSize, pageKey))
      ensures |calls| <= |old(calls)| + 1
      ensures errorCalls == Issued(old(errorCalls), old(errorCounter), errorCounter)
    {
      var before := boxes;
      var sent: seq<Request> := [];
      for i := 0 to |before|
        invariant |boxes| == |before|
        invariant forall k :: 0 <= k < |before| ==>
          boxes[k] == if k < i then ReconcileOne(before[k], reply) else before[k]
        invariant sent == Corrections(before[..i], reply, tickBoxSize, pageKey)
        invariant calls == old(calls) + Numbered(old(errorCounter), sent)
        invariant errorCounter == old(errorCounter) + |sent|
        invariant errorCalls == Issued(old(errorCalls), old(errorCounter), errorCounter)
        invariant Valid()
      {
        CorrectionsStep(before, i, reply, tickBoxSize, pageKey);
        var counter := errorCounter;
        var more := ReconcileAt(i, reply);
        IssuedTwice(old(errorCalls), old(errorCounter), counter, errorCounter);
        NumberedAppend(old(errorCounter), sent, more);
        sent := sent + more;
      }
      assert before[..|before|] == before;
      assert boxes == Reconciled(before, reply);
      AtMostOneCorrection(before, reply, tickBoxSize, pageKey);
    }

    /** One step of the forEach in updateTickBoxWithId; the result is the
        corrective request it sent, if any. */
    method ReconcileAt(i: nat, reply: Reply) returns (sent: seq<Request>)
      requires Valid() && i < |boxes|
      modifies this`boxes, this`calls, this`errorCounter, this`errorCalls
      ensures Valid()
      ensures sent == CorrectionOf(old(boxes)[i], reply, tickBoxSize, pageKey) && |sent| <= 1
      ensures boxes == old(boxes)[i := ReconcileOne(old(boxes)[i], reply)]
      ensures calls == old(calls) + Numbered(old(errorCounter), sent)
      ensures errorCounter == old(errorCounter) + |sent|
      ensures errorCalls == Issued(old(errorCalls), old(errorCounter), errorCounter)
    {
      sent := [];
      var box := boxes[i];
      if MatchesReply(box, reply) {
        RewriteKeepsValid(boxes, i, ReconciledBox(box, reply), nextHandle, tempId);
        boxes := boxes[i := ReconciledBox(box, reply)];
        sent := Correction(box, reply, tickBoxSize, pageKey);
        if |sent| > 0 {
          RequestJsonP(sent[0]);
        }
      }
      NumberedAppend(old(errorCounter), [], sent);
    }

    /** handleMouseDown on a TicQR page: on the paper a new box is added at
        the pointer, given the next tempId and announced with a new-box
        request; the box under the pointer is selected, its grab offset
        recorded and its hasMoved flag cleared. */
    method HandleMouseDown(target: Target, px: int, py: int)
      requires Valid()
      requires target.BoxElement? ==> Find(boxes, target.handle).Some?
      modifies this`boxes, this`nextHandle, this`snapXs, this`snapYs, this`tempId, this`selectedTickBox,
               this`calls, this`errorCounter, this`errorCalls
      ensures Valid()
      ensures target.NoElement? || pageType != 1 ==>
        boxes == old(boxes) && calls == old(calls) && tempId == old(tempId) &&
        selectedTickBox == old(selectedTickBox)
      ensures target.Paper? && pageType == 1 ==>
        var b := NewTickBox(old(nextHandle), TickBoxTopLeft(px as real, py as real, paperWidth, paperHeight, tickBoxSize),
                            None, None, None);
        boxes == old(boxes) + [Grabbed(b.(tempId := Some(old(tempId))), px, py)] &&
        tempId == old(tempId) + 1 && selectedTickBox == Some(b.handle) &&
        calls == old(calls) + [Call(old(errorCounter), NewBox(px, py, pageKey, old(tempId)))]
      ensures target.BoxElement? && pageType == 1 ==>
        var k := Find(old(boxes), target.handle).value;
        boxes == old(boxes)[k := Grabbed(old(boxes)[k], px, py)] &&
        calls == old(calls) && tempId == old(tempId) && selectedTickBox == Some(target.handle)
      ensures nextHandle == old(nextHandle) + (if target.Paper? && pageType == 1 then 1 else 0)
      ensures target.Paper? && pageType == 1 ==> snapXs == Distinct(Xs(boxes)) && snapYs == Distinct(Ys(boxes))
      ensures !(target.Paper? && pageType == 1) ==> snapXs == old(snapXs) && snapYs == old(snapYs)
      ensures errorCalls == Issued(old(errorCalls), old(errorCounter), errorCounter)
    {
      if target.NoElement? || pageType != 1 {
        return;
      }
      if target.Paper? {
        PlaceTickBox(px, py);
      } else {
        SelectTickBox(target.handle, px, py);
      }
    }

    /** A click on the paper: a pending box is added at the pointer, grabbed
        and selected. */
    method PlaceTickBox(px: int, py: int)
      requires Valid()
      modifies this`boxes, this`nextHandle, this`snapXs, this`snapYs, this`tempId, this`selectedTickBox,
               this`calls, this`errorCounter, this`errorCalls
      ensures Valid()
      ensures var b := NewTickBox(old(nextHandle), TickBoxTopLeft(px as real, py as real, paperWidth, paperHeight, tickBoxSize),
                                  None, None, None);
        boxes == old(boxes) + [Grabbed(b.(tempId := Some(old(tempId))), px, py)] &&
        tempId == old(tempId) + 1 && selectedTickBox == Some(b.handle) &&
        calls == old(calls) + [Call(old(errorCounter), NewBox(px, py, pageKey, old(tempId)))]
      ensures nextHandle == old(nextHandle) + 1
      ensures snapXs == Distinct(Xs(boxes)) && snapYs == Distinct(Ys(boxes))
      ensures errorCalls == Issued(old(errorCalls), old(errorCounter), errorCounter)
    {
      var handle := AddPendingTickBox(px, py);
      GrabTickBox(|boxes| - 1, px, py);
      selectedTickBox := Some(handle);
    }

    /** A click on a box: it is grabbed and selected. */
    method SelectTickBox(handle: nat, px: int, py: int)
      requires Valid() && Find(boxes, handle).Some?
      modifies this`boxes, this`selectedTickBox
      ensures Valid()
      ensures var k := Find(old(boxes), handle).value;
        boxes == old(boxes)[k := Grabbed(old(boxes)[k], px, py)] && selectedTickBox == Some(handle)
    {
      GrabTickBox(Find(boxes, handle).value, px, py);
      selectedTickBox := Some(handle);
    }

    /** The paper branch of handleMouseDown: addTickBox at the pointer, the
        next tempId on the new box, and a new-box request carrying it. */
    method AddPendingTickBox(px: int, py: int) returns (handle: nat)
      requires Valid()
      modifies this`boxes, this`nextHandle, this`snapXs, this`snapYs, this`tempId,
               this`calls, this`errorCounter, this`errorCalls
      ensures Valid()
      ensures handle == old(nextHandle)
      ensures boxes == old(boxes) + [NewTickBox(handle, TickBoxTopLeft(px as real, py as real, paperWidth, paperHeight,
                                                                       tickBoxSize), None, None, None)
                                       .(tempId := Some(old(tempId)))]
      ensures tempId == old(tempId) + 1
      ensures calls == old(calls) + [Call(old(errorCounter), NewBox(px, py, pageKey, old(tempId)))]
      ensures nextHandle == old(nextHandle) + 1
      ensures snapXs == Distinct(Xs(boxes)) && snapYs == Distinct(Ys(boxes))
      ensures errorCalls == Issued(old(errorCalls), old(errorCounter), errorCounter)
    {
      handle := AddTickBox(px as real, py as real, None, None, None);
      var last := |boxes| - 1;
      var t := tempId;
      SetTempIdKeepsValid(boxes, last, nextHandle, t);
      SamePositions(boxes, last, boxes[last].(tempId := Some(t)));
      boxes := boxes[last := boxes[last].(tempId := Some(t))];
      tempId := t + 1;
      RequestJsonP(NewBox(px, py, pageKey, t));
    }

    method GrabTickBox(k: nat, px: int, py: int)
      requires Valid() && k < |boxes|
      modifies this`boxes
      ensures Valid()
      ensures boxes == old(boxes)[k := Grabbed(old(boxes)[k], px, py)]
      ensures Xs(boxes) == Xs(old(boxes)) && Ys(boxes) == Ys(old(boxes))
    {
      RewriteKeepsValid(boxes, k, Grabbed(boxes[k], px, py), nextHandle, tempId);
      SamePositions(boxes, k, Grabbed(boxes[k], px, py));
      boxes := boxes[k := Grabbed(boxes[k], px, py)];
    }

    /** handleMouseMove: a selected box follows the pointer, snapping per
        axis to the snap lists and clamped to the edges, and is marked as
        moved; a selected marker follows the pointer on the grid, inside its
        safe area. */
    method HandleMouseMove(px: int, py: int)
      requires Valid()
      modifies this`boxes, this`leftX, this`leftY, this`rightX, this`rightY
      ensures Valid()
      ensures var k := if selectedTickBox.Some? then Find(old(boxes), selectedTickBox.value) else None;
        boxes == if k.None? then old(boxes)
                 else old(boxes)[k.value := DragTo(old(boxes)[k.value], snapXs, snapYs, px, py,
                                                   paperWidth, paperHeight, tickBoxSize)]
      ensures selectedQRCode == Some(LeftMarker) ==>
        (leftX, leftY) == DraggedMarker(px - qrStartX, py - qrStartY, safeArea, qrCodeSize)
      ensures selectedQRCode == Some(RightMarker) ==>
        (rightX, rightY) == DraggedMarker(px - qrStartX, py - qrStartY, safeArea, qrCodeSize)
      ensures selectedQRCode != Some(LeftMarker) ==> leftX == old(leftX) && leftY == old(leftY)
      ensures selectedQRCode != Some(RightMarker) ==> rightX == old(rightX) && rightY == old(rightY)
    {
      DragTickBox(px, py);
      DragMarker(px, py);
    }

    method DragTickBox(px: int, py: int)
      requires Valid()
      modifies this`boxes
      ensures Valid()
      ensures var k := if selectedTickBox.Some? then Find(old(boxes), selectedTickBox.value) else None;
        boxes == if k.None? then old(boxes)
                 else old(boxes)[k.value := DragTo(old(boxes)[k.value], snapXs, snapYs, px, py,
                                                   paperWidth, paperHeight, tickBoxSize)]
    {
      if selectedTickBox.Some? {
        var found := Find(boxes, selectedTickBox.value);
        if found.Some? {
          var k := found.value;
          var b := boxes[k];
          var nb := DragStep(b, px, py);
          RewriteKeepsValid(boxes, k, nb, nextHandle, tempId);
          boxes := boxes[k := nb];
        }
      }
    }

    /** One drag step of a box, as handleMouseMove computes it: the first
        near snap value per axis, then the edge clamp. */
    method DragStep(b: TickBox, px: int, py: int) returns (moved: TickBox)
      ensures moved == DragTo(b, snapXs, snapYs, px, py, paperWidth, paperHeight, tickBoxSize)
      ensures moved.handle == b.handle && moved.tempId == b.tempId && moved.hasMoved
      ensures StrokeCorrection <= EdgeHigh(paperWidth, tickBoxSize) &&
              StrokeCorrection <= EdgeHigh(paperHeight, tickBoxSize) ==>
        OnPage(Point(moved.x, moved.y), tickBoxSize, paperWidth, paperHeight)
    {
      var x := SnapAxis(snapXs, px as real - b.startX);
      var y := SnapAxis(snapYs, py as real - b.startY);
      x := ClampToEdges(x, paperWidth, tickBoxSize);
      y := ClampToEdges(y, paperHeight, tickBoxSize);
      moved := b.(x := x, y := y, hasMoved := true);
    }

    method DragMarker(px: int, py: int)
      requires Valid()
      modifies this`leftX, this`leftY, this`rightX, this`rightY
      ensures Valid()
      ensures selectedQRCode == Some(LeftMarker) ==>
        (leftX, leftY) == DraggedMarker(px - qrStartX, py - qrStartY, safeArea, qrCodeSize)
      ensures selectedQRCode == Some(RightMarker) ==>
        (rightX, rightY) == DraggedMarker(px - qrStartX, py - qrStartY, safeArea, qrCodeSize)
      ensures selectedQRCode != Some(LeftMarker) ==> leftX == old(leftX) && leftY == old(leftY)
      ensures selectedQRCode != Some(RightMarker) ==> rightX == old(rightX) && rightY == old(rightY)
    {
      if selectedQRCode.Some? {
        var p := DraggedMarker(px - qrStartX, py - qrStartY, safeArea, qrCodeSize);
        if selectedQRCode.value == LeftMarker {
          leftX, leftY := p.0, p.1;
        } else {
          rightX, rightY := p.0, p.1;
        }
      }
    }

    /** handleMouseUp: a selected box becomes the previous selection and is
        released; a marker drag ends and the right code's regeneration is
        scheduled.  Nothing stays selected. */
    method HandleMouseUp()
      requires Valid()
      modifies this`boxes, this`previousSelectedTickBox, this`selectedTickBox, this`selectedQRCode,
               this`snapXs, this`snapYs, this`safeAreaShown, this`pendingRegenerations,
               this`calls, this`errorCounter, this`errorCalls
      ensures Valid()
      ensures selectedTickBox.None? && selectedQRCode.None?
      ensures old(selectedTickBox).None? ==>
        boxes == old(boxes) && calls == old(calls) && previousSelectedTickBox == old(previousSelectedTickBox)
      ensures old(selectedTickBox).Some? ==>
        previousSelectedTickBox == old(selectedTickBox) &&
        snapXs == Distinct(Xs(old(boxes))) && snapYs == Distinct(Ys(old(boxes))) &&
        boxes == ReleasedBoxes(old(boxes), old(selectedTickBox).value) &&
        calls == old(calls) + Numbered(old(errorCounter), ReleaseCalls(old(boxes), old(selectedTickBox).value,
                                                                        tickBoxSize, pageKey))
      ensures pendingRegenerations == old(pendingRegenerations) + (if old(selectedQRCode).Some? then 1 else 0)
      ensures old(selectedQRCode).Some? ==> !safeAreaShown
      ensures old(selectedQRCode).None? ==> safeAreaShown == old(safeAreaShown)
      ensures old(selectedTickBox).None? ==> snapXs == old(snapXs) && snapYs == old(snapYs)
      ensures errorCalls == Issued(old(errorCalls), old(errorCounter), errorCounter)
    {
      if selectedTickBox.Some? {
        ReleaseSelectedTickBox(selectedTickBox.value);
      }
      selectedTickBox := None;
      if selectedQRCode.Some? {
        safeAreaShown := false;
        pendingRegenerations := pendingRegenerations + 1;
      }
      selectedQRCode := None;
    }

    /** The tick-box half of handleMouseUp: the snap lists are rebuilt from
        the current positions, then the box is released. */
    method ReleaseSelectedTickBox(handle: nat)
      requires Valid()
      modifies this`boxes, this`previousSelectedTickBox, this`snapXs, this`snapYs,
               this`calls, this`errorCounter, this`errorCalls
      ensures Valid()
      ensures previousSelectedTickBox == Some(handle)
      ensures snapXs == Distinct(Xs(old(boxes))) && snapYs == Distinct(Ys(old(boxes)))
      ensures boxes == ReleasedBoxes(old(boxes), handle)
      ensures calls == old(calls) + Numbered(old(errorCounter), ReleaseCalls(old(boxes), handle, tickBoxSize, pageKey))
      ensures errorCalls == Issued(old(errorCalls), old(errorCounter), errorCounter)
    {
      UpdateTickBoxSnapGrid();
      ReleaseTickBox(handle);
    }

    /** Releasing a box: a box that has its server id and has moved is sent
        at its rounded centre, and its hasMoved flag is cleared.  (The snap
        lists are rebuilt just before, from the same positions.) */
    method ReleaseTickBox(handle: nat)
      requires Valid()
      modifies this`boxes, this`previousSelectedTickBox, this`calls, this`errorCounter, this`errorCalls
      ensures Valid()
      ensures previousSelectedTickBox == Some(handle)
      ensures boxes == ReleasedBoxes(old(boxes), handle)
      ensures calls == old(calls) + Numbered(old(errorCounter), ReleaseCalls(old(boxes), handle, tickBoxSize, pageKey))
      ensures errorCalls == Issued(old(errorCalls), old(errorCounter), errorCounter)
    {
      previousSelectedTickBox := Some(handle);
      var found := Find(boxes, handle);
      var requests: seq<Request> := [];
      if found.Some? {
        var k := found.value;
        var b := boxes[k];
        requests := ReleaseRequests(b, tickBoxSize, pageKey);
        if |requests| > 0 {
          RequestJsonP(requests[0]);
        }
        RewriteKeepsValid(boxes, k, b.(hasMoved := false), nextHandle, tempId);
        boxes := boxes[k := b.(hasMoved := false)];
      }
      NumberedAppend(old(errorCounter), [], requests);
    }

    /** The timer handleMouseUp sets for a marker drag: the page's marker
        positions go to the server and the right code shows the counts
        worked out from them. */
    method RegenerateRightCode()
      requires Valid() && pendingRegenerations > 0
      modifies this`pendingRegenerations, this`rightCodeCounts, this`calls, this`errorCounter, this`errorCalls
      ensures Valid()
      ensures pendingRegenerations == old(pendingRegenerations) - 1
      ensures calls == old(calls) + [Call(old(errorCounter), UpdatePage(pageKey, paperWidth, paperHeight,
                                                                         leftX, leftY, rightX, rightY))]
      ensures rightCodeCounts == PositionCounts(leftX, leftY, rightX, rightY, qrCodeSize)
      ensures errorCalls == Issued(old(errorCalls), old(errorCounter), errorCounter)
    {
      RequestJsonP(UpdatePage(pageKey, paperWidth, paperHeight, leftX, leftY, rightX, rightY));
      rightCodeCounts := PositionCounts(leftX, leftY, rightX, rightY, qrCodeSize);
      pendingRegenerations := pendingRegenerations - 1;
    }

    /** handleQRMouseDown: the marker under the pointer is selected, its grab
        offset recorded and its safe area worked out from the other
        marker. */
    method HandleQRMouseDown(px: int, py: int, onLeftMarker: bool)
      requires Valid()
      modifies this`selectedQRCode, this`qrStartX, this`qrStartY, this`safeArea, this`safeAreaShown
      ensures Valid()
      ensures selectedQRCode == Some(if onLeftMarker then LeftMarker else RightMarker) && safeAreaShown
      ensures onLeftMarker ==>
        qrStartX == px - leftX && qrStartY == py - leftY &&
        safeArea == SafeArea(LeftMarker, rightX, rightY, paperWidth, paperHeight, qrCodeSize)
      ensures !onLeftMarker ==>
        qrStartX == px - rightX && qrStartY == py - rightY &&
        safeArea == SafeArea(RightMarker, leftX, leftY, paperWidth, paperHeight, qrCodeSize)
    {
      if onLeftMarker {
        selectedQRCode := Some(LeftMarker);
        qrStartX, qrStartY := px - leftX, py - leftY;
        safeArea := SafeArea(LeftMarker, rightX, rightY, paperWidth, paperHeight, qrCodeSize);
      } else {
        selectedQRCode := Some(RightMarker);
        qrStartX, qrStartY := px - rightX, py - rightY;
        safeArea := SafeArea(RightMarker, leftX, leftY, paperWidth, paperHeight, qrCodeSize);
      }
      safeAreaShown := true;
    }

    /** previousBoxIsValid: a previous selection, no dialog open, no tempId
        on the box (a removed element answers undefined) and the e-mail field
        not focused. */
    predicate PreviousBoxIsValid(emailFocused: bool)
      reads this`previousSelectedTickBox, this`dialogOpen, this`boxes
    {
      previousSelectedTickBox.Some? && !dialogOpen && !emailFocused &&
      var k := Find(boxes, previousSelectedTickBox.value);
      k.None? || boxes[k.value].tempId.None?
    }

    /** handleKeyDown.  Delete and Backspace remove the previous selection
        and ask the server to delete it; the arrow keys nudge it by 1 mm;
        Escape closes the dialog or else drops the selection; Enter closes
        the dialog.  The result says whether the key's default action is
        suppressed.  The previous selection is never cleared. */
    method HandleKeyDown(key: int, emailFocused: bool) returns (preventDefault: bool)
      requires Valid()
      modifies this`boxes, this`selectedTickBox, this`dialogOpen, this`calls, this`errorCounter, this`errorCalls
      ensures Valid()
      ensures previousSelectedTickBox == old(previousSelectedTickBox)
      ensures (key == KeyBackspace || key == KeyDelete) ==>
        preventDefault == old(PreviousBoxIsValid(emailFocused)) &&
        (old(PreviousBoxIsValid(emailFocused)) ==> DeleteEffect(old(boxes), old(calls), old(errorCounter))) &&
        (!old(PreviousBoxIsValid(emailFocused)) ==> boxes == old(boxes) && calls == old(calls))
      ensures KeyLeft <= key <= KeyDown ==>
        !preventDefault && NudgeEffect(key, old(PreviousBoxIsValid(emailFocused)), old(boxes), old(calls), old(errorCounter))
      ensures key == KeyEscape ==>
        preventDefault && !dialogOpen && boxes == old(boxes) && calls == old(calls) &&
        selectedTickBox == (if old(dialogOpen) then old(selectedTickBox) else None)
      ensures key == KeyEnter ==>
        preventDefault == old(dialogOpen) && !dialogOpen && boxes == old(boxes) && calls == old(calls)
      ensures !(key in {KeyBackspace, KeyDelete, KeyEscape, KeyEnter} || KeyLeft <= key <= KeyDown) ==>
        !preventDefault && boxes == old(boxes) && calls == old(calls) && dialogOpen == old(dialogOpen)
      ensures key != KeyEscape ==> selectedTickBox == old(selectedTickBox)
      ensures key !in {KeyEscape, KeyEnter} ==> dialogOpen == old(dialogOpen)
      ensures errorCalls == Issued(old(errorCalls), old(errorCounter), errorCounter)
    {
      preventDefault := false;
      var valid := PreviousBoxIsValid(emailFocused);
      if key == KeyBackspace || key == KeyDelete {
        if valid {
          DeletePrevious();
          preventDefault := true;
        }
      } else if KeyLeft <= key <= KeyDown {
        if valid {
          NudgePrevious(key);
        }
      } else if key == KeyEscape {
        var closed := CloseDialog();
        if !closed {
          selectedTickBox := None;
        }
        preventDefault := true;
      } else if key == KeyEnter {
        preventDefault := CloseDialog();
      }
    }

    /** What a delete does: the box (if its element still exists) leaves
        the page, a delete request goes out with its id (none for a removed
        element), and the snap lists are left as they were. */
    ghost predicate DeleteEffect(boxes0: seq<TickBox>, calls0: seq<Call>, counter0: nat)
      reads this`previousSelectedTickBox, this`boxes, this`calls
    {
      previousSelectedTickBox.Some? &&
      var k := Find(boxes0, previousSelectedTickBox.value);
      boxes == (if k.Some? then boxes0[..k.value] + boxes0[k.value + 1..] else boxes0) &&
      calls == calls0 + [Call(counter0, DeleteBox(if k.Some? then boxes0[k.value].id else None, pageKey))]
    }

    /** What an arrow key does: the previous selection, if valid and still
        on the page, moves 1 mm along one axis before the edge clamp, and an
        update goes out only when its centre moved. */
    ghost predicate NudgeEffect(key: int, valid: bool, boxes0: seq<TickBox>, calls0: seq<Call>, counter0: nat)
      reads this`previousSelectedTickBox, this`boxes, this`calls
    {
      var k := if valid && previousSelectedTickBox.Some? then Find(boxes0, previousSelectedTickBox.value) else None;
      if k.None? then boxes == boxes0 && calls == calls0
      else
        var b := boxes0[k.value];
        var p := Nudged(b, key);
        boxes == boxes0[k.value := b.(x := p.x, y := p.y)] &&
        calls == calls0 + (if p.x != b.x || p.y != b.y
                           then [Call(counter0, UpdateBox(b.id, RoundHalfUp(p.x + tickBoxSize / 2.0),
                                                          RoundHalfUp(p.y + tickBoxSize / 2.0), pageKey))]
                           else [])
    }

    /** The top-left corner after an arrow key: one step along the key's
        axis, then the edge clamp. */
    function Nudged(b: TickBox, key: int): (p: Point)
      ensures key == KeyLeft || key == KeyRight ==> p.y == ClampToEdges(b.y, paperHeight, tickBoxSize)
      ensures key == KeyUp || key == KeyDown ==> p.x == ClampToEdges(b.x, paperWidth, tickBoxSize)
      ensures key == KeyLeft ==> p.x == ClampToEdges(b.x - 1.0, paperWidth, tickBoxSize)
      ensures key == KeyRight ==> p.x == ClampToEdges(b.x + 1.0, paperWidth, tickBoxSize)
      ensures key == KeyUp ==> p.y == ClampToEdges(b.y - 1.0, paperHeight, tickBoxSize)
      ensures key == KeyDown ==> p.y == ClampToEdges(b.y + 1.0, paperHeight, tickBoxSize)
    {
      var dx := if key == KeyLeft then -1.0 else if key == KeyRight then 1.0 else 0.0;
      var dy := if key == KeyUp then -1.0 else if key == KeyDown then 1.0 else 0.0;
      Point(ClampToEdges(b.x + dx, paperWidth, tickBoxSize), ClampToEdges(b.y + dy, paperHeight, tickBoxSize))
    }

    method DeletePrevious()
      requires Valid() && previousSelectedTickBox.Some?
      modifies this`boxes, this`calls, this`errorCounter, this`errorCalls
      ensures Valid()
      ensures DeleteEffect(old(boxes), old(calls), old(errorCounter))
      ensures errorCalls == Issued(old(errorCalls), old(errorCounter), errorCounter)
      ensures old(errorCounter) in errorCalls && errorCalls[old(errorCounter)]
    {
      var found := Find(boxes, previousSelectedTickBox.value);
      var id := if found.Some? then boxes[found.value].id else None;
      RequestJsonP(DeleteBox(id, pageKey));
      if found.Some? {
        var k := found.value;
        RemoveKeepsValid(boxes, k, nextHandle, tempId);
        boxes := boxes[..k] + boxes[k + 1..];
      }
    }

    method NudgePrevious(key: int)
      requires Valid() && previousSelectedTickBox.Some?
      modifies this`boxes, this`calls, this`errorCounter, this`errorCalls
      ensures Valid()
      ensures NudgeEffect(key, true, old(boxes), old(calls), old(errorCounter))
      ensures errorCalls == Issued(old(errorCalls), old(errorCounter), errorCounter)
    {
      var found := Find(boxes, previousSelectedTickBox.value);
      if found.None? {
        return;
      }
      var k := found.value;
      var b := boxes[k];
      var p := Nudged(b, key);
      RewriteKeepsValid(boxes, k, b.(x := p.x, y := p.y), nextHandle, tempId);
      boxes := boxes[k := b.(x := p.x, y := p.y)];
      if p.x != b.x || p.y != b.y {
        RequestJsonP(UpdateBox(b.id, RoundHalfUp(p.x + tickBoxSize / 2.0), RoundHalfUp(p.y + tickBoxSize / 2.0),
                               pageKey));
      }
    }
  }

  /** Every box has its own handle, below the next one to be issued, and
      every tempId still waiting is below the next one and unique. */
  predicate BoxesValid(boxes: seq<TickBox>, nextHandle: nat, nextTempId: int)
  {
    (forall i :: 0 <= i < |boxes| ==> boxes[i].handle < nextHandle) &&
    (forall i, j :: 0 <= i < j < |boxes| ==> boxes[i].handle != boxes[j].handle) &&
    (forall i :: 0 <= i < |boxes| && boxes[i].tempId.Some? ==> boxes[i].tempId.value < nextTempId) &&
    UniqueTempIds(boxes)
  }

  /** Call i carries connection id i, and every outstanding call is one
      that was issued. */
  predicate CallsValid(calls: seq<Call>, counter: nat, outstanding: map<int, bool>)
  {
    |calls| == counter &&
    (forall i :: 0 <= i < |calls| ==> calls[i].connectionId == i) &&
    (forall k :: 0 <= k < counter ==> k in outstanding) &&
    (forall k :: k in outstanding && outstanding[k] ==> 0 <= k < counter)
  }

  /** The table of outstanding calls after the calls numbered first up to
      next - 1 were issued: requestJsonP marks each of them outstanding. */
  function Issued(outstanding: map<int, bool>, first: nat, next: nat): map<int, bool>
    decreases next
  {
    if next <= first then outstanding else Issued(outstanding, first, next - 1)[next - 1 := true]
  }

  /** Issuing marks exactly the new calls outstanding: every other entry,
      and so every call still awaiting its reply, is kept as it was. */
  lemma {:induction false} IssuedMarksNewCalls(outstanding: map<int, bool>, first: nat, next: nat, k: int)
    ensures first <= k < next ==> k in Issued(outstanding, first, next) && Issued(outstanding, first, next)[k]
    ensures !(first <= k < next) ==>
      (k in Issued(outstanding, first, next) <==> k in outstanding) &&
      (k in outstanding ==> Issued(outstanding, first, next)[k] == outstanding[k])
    decreases next
  {
    if next > first {
      IssuedMarksNewCalls(outstanding, first, next - 1, k);
    }
  }

  /** Issuing two runs of calls one after the other is issuing both. */
  lemma {:induction false} IssuedTwice(outstanding: map<int, bool>, a: nat, b: nat, c: nat)
    requires a <= b <= c
    ensures Issued(Issued(outstanding, a, b), b, c) == Issued(outstanding, a, c)
    decreases c
  {
    if c > b {
      IssuedTwice(outstanding, a, b, c - 1);
    }
  }

  /** Rewriting a box without moving it leaves the coordinate lists alone. */
  lemma SamePositions(boxes: seq<TickBox>, k: nat, b: TickBox)
    requires k < |boxes| && b.x == boxes[k].x && b.y == boxes[k].y
    ensures Xs(boxes[k := b]) == Xs(boxes) && Ys(boxes[k := b]) == Ys(boxes)
  {
  }

  lemma RewriteKeepsValid(boxes: seq<TickBox>, k: nat, b: TickBox, nextHandle: nat, nextTempId: int)
    requires BoxesValid(boxes, nextHandle, nextTempId) && k < |boxes|
    requires b.handle == boxes[k].handle && (b.tempId == boxes[k].tempId || b.tempId.None?)
    ensures BoxesValid(boxes[k := b], nextHandle, nextTempId)
  {
  }

  lemma AppendKeepsValid(boxes: seq<TickBox>, b: TickBox, nextHandle: nat, nextTempId: int)
    requires BoxesValid(boxes, nextHandle, nextTempId) && b.handle == nextHandle && b.tempId.None?
    ensures BoxesValid(boxes + [b], nextHandle + 1, nextTempId)
  {
  }

  lemma SetTempIdKeepsValid(boxes: seq<TickBox>, k: nat, nextHandle: nat, nextTempId: int)
    requires BoxesValid(boxes, nextHandle, nextTempId) && k < |boxes| && boxes[k].tempId.None?
    ensures BoxesValid(boxes[k := boxes[k].(tempId := Some(nextTempId))], nextHandle, nextTempId + 1)
  {
  }

  lemma RemoveKeepsValid(boxes: seq<TickBox>, k: nat, nextHandle: nat, nextTempId: int)
    requires BoxesValid(boxes, nextHandle, nextTempId) && k < |boxes|
    ensures BoxesValid(boxes[..k] + boxes[k + 1..], nextHandle, nextTempId)
  {
    var after := boxes[..k] + boxes[k + 1..];
    forall i | 0 <= i < |after|
      ensures after[i] == boxes[if i < k then i else i + 1]
    {
    }
  }

  /** After a delete the removed handle names no box, so the previous
      selection that still holds it finds nothing: a second Delete sends a
      delete request without an id and removes nothing. */
  lemma DeletedBoxIsGone(boxes: seq<TickBox>, k: nat, nextHandle: nat, nextTempId: int)
    requires BoxesValid(boxes, nextHandle, nextTempId) && k < |boxes|
    ensures Find(boxes[..k] + boxes[k + 1..], boxes[k].handle).None?
  {
    var after := boxes[..k] + boxes[k + 1..];
    forall i | 0 <= i < |after|
      ensures after[i].handle != boxes[k].handle
    {
      var j := if i < k then i else i + 1;
      assert after[i] == boxes[j] && j != k;
    }
  }

  lemma NumberedAppend(first: nat, sent: seq<Request>, more: seq<Request>)
    requires |more| <= 1
    ensures Numbered(first, sent + more) ==
      Numbered(first, sent) + (if |more| == 0 then [] else [Call(first + |sent|, more[0])])
  {
    if |more| == 0 {
      assert sent + more == sent;
    }
  }
}
