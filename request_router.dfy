/** The request handling at the end of pages.php: the first query parameter
    present picks the operation, its other parameters are checked, and only
    then is the page store touched. */
module RequestRouter {
  import opened Options
  import opened Decimal
  import opened RequestValidation
  import PageKeyCodec
  import opened PageStore

  /** The query string ($_GET): parameter names to values.  The values are
      the byte strings PHP sees, one character per byte. */
  type Params = map<string, string>

  const NoPageKey: string := "pagekey not specified"
  const BadPageAttributes: string := "new/update page attribute invalid or missing"
  const BadDestinationAttributes: string := "update destination attribute invalid or missing"
  const BadTickBoxAttributes: string := "new/update tickbox attribute invalid or missing"
  const BadDeleteAttributes: string := "delete tickbox attribute invalid or missing"
  const BadAudioAttributes: string := "add audio area attribute invalid or missing"
  const BadDuplicateAttributes: string := "duplicate page attribute invalid or missing"
  const NoQuery: string := "no query specified"

  /** The store operation a request asks for, with its arguments as the
      operation receives them, or the reason it is rejected. */
  datatype Action =
    | LookupPage(lookupId: Option<nat>, scale: bool, lock: bool)
    | SavePage(updateId: Option<nat>, width: int, height: int, leftCodeX: int, leftCodeY: int,
               rightCodeX: int, rightCodeY: int)
    | UpdateDestination(pageId: nat, destination: string)
    | UpdateType(pageId: nat, pageType: int)
    | SaveTickBox(boxId: Option<int>, pageId: nat, x: int, y: int, description: Option<string>,
                  quantity: Option<int>, tempId: Option<int>)
    | DeleteTickBox(deletedBoxId: int, pageId: nat)
    | SaveAudioArea(pageId: nat, left: int, top: int, right: int, bottom: int, soundCloudId: string)
    | Duplicate(pageId: nat)
    | Reject(message: string)

  /** isset($_GET[name]) ? $_GET[name] : false */
  function Param(params: Params, name: string): Option<string>
  {
    if name in params then Some(params[name]) else None
  }

  /** PHP's empty() on a string: "" and "0" are empty. */
  predicate IsEmptyString(s: string)
  {
    s == "" || s == "0"
  }

  /** isPositiveOrZeroInteger of a parameter that may be missing. */
  predicate PositiveOrZeroParam(p: Option<string>)
  {
    p.Some? && IsPositiveOrZeroInteger(p.value)
  }

  /** isInteger of a parameter that may be missing. */
  predicate IntegerParam(p: Option<string>)
  {
    p.Some? && IsInteger(p.value)
  }

  /** pow($length, $size - $i) stays a PHP integer up to the exponent 11
      (52^11 < 2^63 <= 52^12), so a key of up to twelve characters decodes
      to an integer unless its value leaves the integer range. */
  const IntegerKeyLength: nat := 12

  /** A longer key meets a float power (0 * a float is a float) and decodes
      to a float; PHP writes a float with the 14 significant digits of its
      precision setting, so an integral float reads back as a plain numeral
      only below 10^14. */
  const PlainFloatLimit: nat := 100_000_000_000_000

  /** getIDFromPageKey of a parameter that may be missing, followed by the
      isPositiveOrZeroInteger check the routes make: None for a missing key,
      for PHP's false, and for a value that decoded to a float whose string
      form is not its integer's (a key worth more than PHP_INT_MAX, or a
      long key worth 10^14 or more). */
  function CheckedPageId(p: Option<string>): (id: Option<nat>)
    ensures id.Some? ==> p.Some? && PageKeyCodec.Decode(p.value) == id && id.value <= IntMax
    ensures p.Some? && PageKeyCodec.Decode(p.value).Some? && PageKeyCodec.Decode(p.value).value < PlainFloatLimit ==>
      id == PageKeyCodec.Decode(p.value)
    ensures p.Some? && |p.value| <= IntegerKeyLength && PageKeyCodec.Decode(p.value).Some? ==>
      (id.Some? <==> PageKeyCodec.Decode(p.value).value <= IntMax)
  {
    if p.None? then None
    else
      match PageKeyCodec.Decode(p.value)
      case None => None
      case Some(n) =>
        if n < PlainFloatLimit || (|p.value| <= IntegerKeyLength && n <= IntMax) then Some(n) else None
  }

  /** The key of every page id in PHP's integer range passes the check. */
  lemma StoredKeyPasses(n: nat)
    requires n <= IntMax
    ensures CheckedPageId(Some(PageKeyCodec.Encode(n))) == Some(n)
  {
    PageKeyCodec.RoundTrip(n);
    if n >= PlainFloatLimit {
      TwelveDigitsExceedIntMax();
      PageKeyCodec.EncodeLength(n, IntegerKeyLength);
    }
  }

  lemma TwelveDigitsExceedIntMax()
    ensures IntMax < PageKeyCodec.Pow(PageKeyCodec.Base, IntegerKeyLength)
  {
    PageKeyCodec.PowTwelve();
  }

  /** Twelve 'Z's are worth 52^12 - 1, more than PHP_INT_MAX: the check
      refuses the key. */
  lemma OverlongKeyRefused()
    ensures CheckedPageId(Some("ZZZZZZZZZZZZ")) == None
  {
    PageKeyCodec.TopKeyValue("ZZZZZZZZZZZZ");
    TwelveDigitsExceedIntMax();
  }

  /** intval of a parameter that may be missing. */
  function IntParam(p: Option<string>): Option<int>
  {
    if p.Some? then Some(IntVal(p.value)) else None
  }

  /** The operation parameters in the order the request handler tests
      them; the names of one group are tested together. */
  const Operations: seq<seq<string>> :=
    [["edit"], ["lookup"], ["new", "update"], ["updatedestination"], ["updatetype"],
     ["newbox", "updatebox"], ["deletebox"], ["newaudio"], ["duplicate"]]

  /** isset of the first name || isset of the next || ... */
  predicate AnyPresent(params: Params, names: seq<string>)
    ensures AnyPresent(params, names) <==> exists n :: n in names && n in params
  {
    |names| > 0 && (names[0] in params || AnyPresent(params, names[1..]))
  }

  /** The position of the first group from position k on with a parameter
      present, or the number of groups when none is. */
  function FirstPresent(params: Params, groups: seq<seq<string>>, k: nat): (i: nat)
    requires k <= |groups|
    ensures k <= i <= |groups|
    ensures forall j :: k <= j < i ==> !AnyPresent(params, groups[j])
    ensures i < |groups| ==> AnyPresent(params, groups[i])
    decreases |groups| - k
  {
    if k == |groups| then k
    else if AnyPresent(params, groups[k]) then k
    else FirstPresent(params, groups, k + 1)
  }

  /** The handler's chain of isset tests, position by position. */
  lemma OperationOrder(params: Params)
    ensures FirstPresent(params, Operations, 0) ==
      if "edit" in params then 0
      else if "lookup" in params then 1
      else if "new" in params || "update" in params then 2
      else if "updatedestination" in params then 3
      else if "updatetype" in params then 4
      else if "newbox" in params || "updatebox" in params then 5
      else if "deletebox" in params then 6
      else if "newaudio" in params then 7
      else if "duplicate" in params then 8
      else 9
  {
    Step(params, 0, ["edit"]);
    Step(params, 1, ["lookup"]);
    Step(params, 2, ["new", "update"]);
    Step(params, 3, ["updatedestination"]);
    Step(params, 4, ["updatetype"]);
    Step(params, 5, ["newbox", "updatebox"]);
    Step(params, 6, ["deletebox"]);
    Step(params, 7, ["newaudio"]);
    Step(params, 8, ["duplicate"]);
  }

  lemma Step(params: Params, k: nat, names: seq<string>)
    requires k < |Operations| && Operations[k] == names
    ensures FirstPresent(params, Operations, k) ==
      if AnyPresent(params, names) then k else FirstPresent(params, Operations, k + 1)
  {
  }

  /** The if / else-if chain of the request handler: the first operation
      parameter present decides. */
  function Route(params: Params): (a: Action)
    ensures "edit" in params ==> (a.LookupPage? && !a.lock) || a == Reject(NoPageKey)
    ensures a.LookupPage? && a.lock ==> "edit" !in params && "lookup" in params
  {
    if "edit" in params then LookupRoute(params["edit"], false)
    else if "lookup" in params then LookupRoute(params["lookup"], true)
    else if "new" in params || "update" in params then PageRoute(params)
    else if "updatedestination" in params then DestinationRoute(params)
    else if "updatetype" in params then TypeRoute(params)
    else if "newbox" in params || "updatebox" in params then TickBoxRoute(params)
    else if "deletebox" in params then DeleteRoute(params)
    else if "newaudio" in params then AudioRoute(params)
    else if "duplicate" in params then DuplicateRoute(params)
    else Reject(NoQuery)
  }

  /** The first operation parameter present, in the handler's order, picks
      the route; with none present the request is refused. */
  lemma RouteFollowsOrder(params: Params)
    ensures var i := FirstPresent(params, Operations, 0);
      (i == 0 ==> "edit" in params && Route(params) == LookupRoute(params["edit"], false)) &&
      (i == 1 ==> "lookup" in params && Route(params) == LookupRoute(params["lookup"], true)) &&
      (i == 2 ==> Route(params) == PageRoute(params)) &&
      (i == 3 ==> Route(params) == DestinationRoute(params)) &&
      (i == 4 ==> Route(params) == TypeRoute(params)) &&
      (i == 5 ==> Route(params) == TickBoxRoute(params)) &&
      (i == 6 ==> Route(params) == DeleteRoute(params)) &&
      (i == 7 ==> Route(params) == AudioRoute(params)) &&
      (i == 8 ==> Route(params) == DuplicateRoute(params)) &&
      (i == 9 ==> Route(params) == Reject(NoQuery))
  {
    OperationOrder(params);
  }

  /** 'edit' shows a page as stored; 'lookup' shows it scaled and locks it. */
  function LookupRoute(query: string, lookup: bool): (a: Action)
    ensures a.LookupPage? <==> !IsEmptyString(query)
    ensures a.LookupPage? ==> a.scale == lookup && a.lock == lookup
  {
    if !IsEmptyString(query) then LookupPage(PageKeyCodec.Decode(query), lookup, lookup)
    else Reject(NoPageKey)
  }

  /** 'new' and 'update': all six sizes and marker positions are required;
      the key of 'update' is decoded without a check. */
  function PageRoute(params: Params): (a: Action)
    ensures a.SavePage? <==>
      PositiveOrZeroParam(Param(params, "width")) && PositiveOrZeroParam(Param(params, "height")) &&
      PositiveOrZeroParam(Param(params, "leftCodeX")) && PositiveOrZeroParam(Param(params, "leftCodeY")) &&
      PositiveOrZeroParam(Param(params, "rightCodeX")) && PositiveOrZeroParam(Param(params, "rightCodeY"))
    ensures a.SavePage? ==>
      a.updateId == (if "update" in params then PageKeyCodec.Decode(params["update"]) else None) &&
      a.width == IntVal(params["width"]) && a.height == IntVal(params["height"]) &&
      a.leftCodeX == IntVal(params["leftCodeX"]) && a.leftCodeY == IntVal(params["leftCodeY"]) &&
      a.rightCodeX == IntVal(params["rightCodeX"]) && a.rightCodeY == IntVal(params["rightCodeY"])
    ensures !a.SavePage? ==> a == Reject(BadPageAttributes)
  {
    var width, height := Param(params, "width"), Param(params, "height");
    var leftCodeX, leftCodeY := Param(params, "leftCodeX"), Param(params, "leftCodeY");
    var rightCodeX, rightCodeY := Param(params, "rightCodeX"), Param(params, "rightCodeY");
    if PositiveOrZeroParam(width) && PositiveOrZeroParam(height) &&
       PositiveOrZeroParam(leftCodeX) && PositiveOrZeroParam(leftCodeY) &&
       PositiveOrZeroParam(rightCodeX) && PositiveOrZeroParam(rightCodeY) then
      var pageId := if "update" in params then PageKeyCodec.Decode(params["update"]) else None;
      SavePage(pageId, IntVal(width.value), IntVal(height.value), IntVal(leftCodeX.value),
               IntVal(leftCodeY.value), IntVal(rightCodeX.value), IntVal(rightCodeY.value))
    else Reject(BadPageAttributes)
  }

  /** 'updatedestination': a key that passes the check, and a destination. */
  function DestinationRoute(params: Params): (a: Action)
    ensures a.UpdateDestination? <==> CheckedPageId(Param(params, "updatedestination")).Some? && "destination" in params
    ensures a.UpdateDestination? ==>
      a.pageId == CheckedPageId(Param(params, "updatedestination")).value && a.destination == params["destination"]
    ensures !a.UpdateDestination? ==> a == Reject(BadDestinationAttributes)
  {
    var pageId := CheckedPageId(Param(params, "updatedestination"));
    var destination := Param(params, "destination");
    if pageId.Some? && destination.Some? then UpdateDestination(pageId.value, destination.value)
    else Reject(BadDestinationAttributes)
  }

  /** 'updatetype': a key that passes the check and a non-negative type;
      refused with the message of 'updatedestination'.  Whether the type is
      one of the three is left to updatePageType. */
  function TypeRoute(params: Params): (a: Action)
    ensures a.UpdateType? <==> CheckedPageId(Param(params, "updatetype")).Some? && PositiveOrZeroParam(Param(params, "type"))
    ensures a.UpdateType? ==>
      a.pageId == CheckedPageId(Param(params, "updatetype")).value && a.pageType == IntVal(params["type"])
    ensures !a.UpdateType? ==> a == Reject(BadDestinationAttributes)
  {
    var pageId := CheckedPageId(Param(params, "updatetype"));
    var pageType := Param(params, "type");
    if pageId.Some? && PositiveOrZeroParam(pageType) then UpdateType(pageId.value, IntVal(pageType.value))
    else Reject(BadDestinationAttributes)
  }

  /** 'newbox' and 'updatebox': x, y and the page's key are required; the
      box id, description, quantity and tempId are passed on when given. */
  function TickBoxRoute(params: Params): (a: Action)
    ensures a.SaveTickBox? <==>
      PositiveOrZeroParam(Param(params, "x")) && PositiveOrZeroParam(Param(params, "y")) &&
      CheckedPageId(Param(params, "page")).Some?
    ensures a.SaveTickBox? ==>
      a.pageId == CheckedPageId(Param(params, "page")).value &&
      a.x == IntVal(params["x"]) && a.y == IntVal(params["y"]) &&
      a.boxId == IntParam(Param(params, "updatebox")) && a.description == Param(params, "description") &&
      a.quantity == IntParam(Param(params, "quantity")) && a.tempId == IntParam(Param(params, "tempId"))
    ensures !a.SaveTickBox? ==> a == Reject(BadTickBoxAttributes)
  {
    var x, y := Param(params, "x"), Param(params, "y");
    var pageId := CheckedPageId(Param(params, "page"));
    if PositiveOrZeroParam(x) && PositiveOrZeroParam(y) && pageId.Some? then
      SaveTickBox(IntParam(Param(params, "updatebox")), pageId.value, IntVal(x.value), IntVal(y.value),
                  Param(params, "description"), IntParam(Param(params, "quantity")),
                  IntParam(Param(params, "tempId")))
    else Reject(BadTickBoxAttributes)
  }

  /** 'deletebox': the box id and the page's key are required. */
  function DeleteRoute(params: Params): (a: Action)
    ensures a.DeleteTickBox? <==>
      PositiveOrZeroParam(Param(params, "deletebox")) && CheckedPageId(Param(params, "page")).Some?
    ensures a.DeleteTickBox? ==>
      a.deletedBoxId == IntVal(params["deletebox"]) && a.pageId == CheckedPageId(Param(params, "page")).value
    ensures !a.DeleteTickBox? ==> a == Reject(BadDeleteAttributes)
  {
    var boxId := Param(params, "deletebox");
    var pageId := CheckedPageId(Param(params, "page"));
    if PositiveOrZeroParam(boxId) && pageId.Some? then DeleteTickBox(IntVal(boxId.value), pageId.value)
    else Reject(BadDeleteAttributes)
  }

  /** 'newaudio': the four edges and the page's key are required; the
      SoundCloud id defaults to the empty string. */
  function AudioRoute(params: Params): (a: Action)
    ensures a.SaveAudioArea? <==>
      IntegerParam(Param(params, "left")) && IntegerParam(Param(params, "top")) &&
      PositiveOrZeroParam(Param(params, "right")) && PositiveOrZeroParam(Param(params, "bottom")) &&
      CheckedPageId(Param(params, "pageId")).Some?
    ensures a.SaveAudioArea? ==>
      a.pageId == CheckedPageId(Param(params, "pageId")).value &&
      a.left == IntVal(params["left"]) && a.top == IntVal(params["top"]) &&
      a.right == IntVal(params["right"]) && a.bottom == IntVal(params["bottom"]) &&
      a.soundCloudId == (if "soundCloudId" in params then params["soundCloudId"] else "")
    ensures !a.SaveAudioArea? ==> a == Reject(BadAudioAttributes)
  {
    var left, top := Param(params, "left"), Param(params, "top");
    var right, bottom := Param(params, "right"), Param(params, "bottom");
    var pageId := CheckedPageId(Param(params, "pageId"));
    if IntegerParam(left) && IntegerParam(top) && PositiveOrZeroParam(right) &&
       PositiveOrZeroParam(bottom) && pageId.Some? then
      var soundCloudId := Param(params, "soundCloudId");
      SaveAudioArea(pageId.value, IntVal(left.value), IntVal(top.value), IntVal(right.value),
                    IntVal(bottom.value), if soundCloudId.Some? then soundCloudId.value else "")
    else Reject(BadAudioAttributes)
  }

  /** 'duplicate': a key that passes the check. */
  function DuplicateRoute(params: Params): (a: Action)
    ensures a.Duplicate? <==> CheckedPageId(Param(params, "duplicate")).Some?
    ensures a.Duplicate? ==> a.pageId == CheckedPageId(Param(params, "duplicate")).value
    ensures !a.Duplicate? ==> a == Reject(BadDuplicateAttributes)
  {
    var pageId := CheckedPageId(Param(params, "duplicate"));
    if pageId.Some? then Duplicate(pageId.value) else Reject(BadDuplicateAttributes)
  }

  /** A value that passed isPositiveOrZeroInteger reaches the store as the
      number it spells, between 0 and PHP_INT_MAX. */
  lemma PositiveOrZeroParamValue(p: Option<string>)
    requires PositiveOrZeroParam(p)
    ensures 0 <= IntVal(p.value) <= IntMax
    ensures p.value == "-0" || p.value == NatToString(IntVal(p.value))
  {
    PositiveOrZeroIntegerExactly(p.value);
    if p.value != "-0" {
      IntValOfNumeral(p.value);
      NatToStringOfValue(p.value);
    } else {
      MinusZeroAccepted();
    }
  }

  /** What the store is asked to write is in PHP's integer range: every
      size, marker position, grid coordinate, page type and deleted box id
      is non-negative; an audio area's left and top, and the updated box id,
      quantity and tempId of a tick-box save (read with intval, unchecked),
      may be negative.  Every page id that went through the key check is a
      PHP integer too. */
  predicate ValuesInRange(a: Action)
  {
    (a.SaveTickBox? ==> (a.boxId.Some? ==> IntMin <= a.boxId.value <= IntMax) &&
                        (a.quantity.Some? ==> IntMin <= a.quantity.value <= IntMax) &&
                        (a.tempId.Some? ==> IntMin <= a.tempId.value <= IntMax)) &&
    ((a.UpdateDestination? || a.UpdateType? || a.SaveTickBox? || a.DeleteTickBox? ||
      a.SaveAudioArea? || a.Duplicate?) ==> a.pageId <= IntMax) &&
    (a.SavePage? ==> 0 <= a.width <= IntMax && 0 <= a.height <= IntMax &&
                     0 <= a.leftCodeX <= IntMax && 0 <= a.leftCodeY <= IntMax &&
                     0 <= a.rightCodeX <= IntMax && 0 <= a.rightCodeY <= IntMax) &&
    (a.SaveTickBox? ==> 0 <= a.x <= IntMax && 0 <= a.y <= IntMax) &&
    (a.DeleteTickBox? ==> 0 <= a.deletedBoxId <= IntMax) &&
    (a.SaveAudioArea? ==> 0 <= a.right <= IntMax && 0 <= a.bottom <= IntMax &&
                          IntMin <= a.left <= IntMax && IntMin <= a.top <= IntMax) &&
    (a.UpdateType? ==> 0 <= a.pageType <= IntMax)
  }

  lemma PageRouteInRange(params: Params)
    ensures ValuesInRange(PageRoute(params))
  {
    if PageRoute(params).SavePage? {
      PositiveOrZeroParamValue(Param(params, "width"));
      PositiveOrZeroParamValue(Param(params, "height"));
      PositiveOrZeroParamValue(Param(params, "leftCodeX"));
      PositiveOrZeroParamValue(Param(params, "leftCodeY"));
      PositiveOrZeroParamValue(Param(params, "rightCodeX"));
      PositiveOrZeroParamValue(Param(params, "rightCodeY"));
    }
  }

  lemma DestinationRouteInRange(params: Params)
    ensures ValuesInRange(DestinationRoute(params))
  {
  }

  lemma DuplicateRouteInRange(params: Params)
    ensures ValuesInRange(DuplicateRoute(params))
  {
  }

  lemma TypeRouteInRange(params: Params)
    ensures ValuesInRange(TypeRoute(params))
  {
    if TypeRoute(params).UpdateType? {
      PositiveOrZeroParamValue(Param(params, "type"));
    }
  }

  lemma TickBoxRouteInRange(params: Params)
    ensures ValuesInRange(TickBoxRoute(params))
  {
    if TickBoxRoute(params).SaveTickBox? {
      PositiveOrZeroParamValue(Param(params, "x"));
      PositiveOrZeroParamValue(Param(params, "y"));
    }
  }

  lemma DeleteRouteInRange(params: Params)
    ensures ValuesInRange(DeleteRoute(params))
  {
    if DeleteRoute(params).DeleteTickBox? {
      PositiveOrZeroParamValue(Param(params, "deletebox"));
    }
  }

  lemma AudioRouteInRange(params: Params)
    ensures ValuesInRange(AudioRoute(params))
  {
    if AudioRoute(params).SaveAudioArea? {
      PositiveOrZeroParamValue(Param(params, "right"));
      PositiveOrZeroParamValue(Param(params, "bottom"));
    }
  }

  /** Whatever the request, the values handed to the store are in range. */
  lemma RoutedValuesInRange(params: Params)
    ensures ValuesInRange(Route(params))
  {
    if "edit" in params || "lookup" in params {
    } else if "new" in params || "update" in params {
      PageRouteInRange(params);
    } else if "updatedestination" in params {
      DestinationRouteInRange(params);
    } else if "updatetype" in params {
      TypeRouteInRange(params);
    } else if "newbox" in params || "updatebox" in params {
      TickBoxRouteInRange(params);
    } else if "deletebox" in params {
      DeleteRouteInRange(params);
    } else if "newaudio" in params {
      AudioRouteInRange(params);
    } else if "duplicate" in params {
      DuplicateRouteInRange(params);
    }
  }

  /** An 'update' whose key does not decode is not refused: it creates a new
      page, as a request without a key would. */
  lemma UndecodableUpdateCreatesPage(params: Params)
    requires "edit" !in params && "lookup" !in params && "update" in params
    requires PageKeyCodec.Decode(params["update"]).None?
    ensures Route(params).SavePage? ==> Route(params).updateId.None?
    ensures Route(params).Reject? ==> Route(params).message == BadPageAttributes
  {
  }

  /** The key of every page the store holds routes a lookup to that page. */
  lemma LookupFindsStoredPage(params: Params, id: nat)
    requires id >= 1 && "edit" in params && params["edit"] == PageKeyCodec.Encode(id)
    ensures Route(params) == LookupPage(Some(id), false, false)
  {
    PageKeyCodec.RoundTrip(id);
  }

  /** What answering an action does: the store operation it names, with its
      arguments, takes the tables from t to u and answers r; a rejected
      request leaves the tables as they were and answers with getErrorJSON. */
  predicate Handled(t: Tables, u: Tables, a: Action, r: Response)
  {
    match a
    case LookupPage(pageId, scale, lock) => LookupDone(t, u, pageId, scale, lock, r)
    case SavePage(pageId, width, height, leftCodeX, leftCodeY, rightCodeX, rightCodeY) =>
      SavePageDone(t, u, pageId, width, height, leftCodeX, leftCodeY, rightCodeX, rightCodeY, r)
    case UpdateDestination(pageId, destination) => UpdateDestinationDone(t, u, pageId, destination, r)
    case UpdateType(pageId, pageType) => UpdatePageTypeDone(t, u, pageId, pageType, r)
    case SaveTickBox(boxId, pageId, x, y, description, quantity, tempId) =>
      SaveTickBoxDone(t, u, boxId, pageId, x, y, description, quantity, tempId, r)
    case DeleteTickBox(boxId, pageId) => DeleteTickBoxDone(t, u, boxId, pageId, r)
    case SaveAudioArea(pageId, left, top, right, bottom, soundCloudId) =>
      SaveAudioAreaDone(t, u, pageId, left, top, right, bottom, soundCloudId, r)
    case Duplicate(pageId) => DuplicateDone(t, u, pageId, r)
    case Reject(message) => u == t && r == ErrorJson(message, Debug)
  }

  /** Handles one request: the routed action is carried out on the store; a
      rejected request changes nothing and, with debugging off, answers
      "query error". */
  method Handle(store: Store, params: Params) returns (r: Response)
    requires store.Valid()
    modifies store
    ensures store.Valid() && LocksKept(old(store.pages), store.pages)
    ensures Handled(old(store.State()), store.State(), Route(params), r)
    ensures Route(params).Reject? ==> store.State() == old(store.State()) && r == Fail(DefaultErrorMessage)
  {
    var action := Route(params);
    match action
    case LookupPage(pageId, scale, lock) =>
      r := store.LookupPageDetails(pageId, scale, lock);
    case SavePage(pageId, width, height, leftCodeX, leftCodeY, rightCodeX, rightCodeY) =>
      r := store.SavePage(pageId, width, height, leftCodeX, leftCodeY, rightCodeX, rightCodeY);
    case UpdateDestination(pageId, destination) =>
      r := store.UpdatePageDestination(pageId, destination);
    case UpdateType(pageId, pageType) =>
      r := store.UpdatePageType(pageId, pageType);
    case SaveTickBox(boxId, pageId, x, y, description, quantity, tempId) =>
      r := store.SaveTickBox(boxId, pageId, x, y, description, quantity, tempId);
    case DeleteTickBox(boxId, pageId) =>
      r := store.DeleteTickBox(boxId, pageId);
    case SaveAudioArea(pageId, left, top, right, bottom, soundCloudId) =>
      r := store.SaveAudioArea(pageId, left, top, right, bottom, soundCloudId);
    case Duplicate(pageId) =>
      r := store.DuplicatePage(pageId);
    case Reject(message) =>
      r := ErrorJson(message, Debug);
  }
}
