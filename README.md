# CodePaper page editor and page server: a Dafny model

CodePaper lays out printable pages for the TicQR and PaperChains paper
interfaces. A page carries two QR code markers: a left one holding the page
key and a right one holding the page's grid dimensions. A TicQR page also
holds tick boxes, which a phone reads back from a photograph. PaperChains
pages hold SoundCloud audio areas.

This project models both halves of the system:

- the browser editor (`codepaper.js`), as a `Session` class. It places,
  drags, snaps, nudges and deletes tick boxes, moves the markers inside
  their safe areas, numbers the JSONP requests it sends, and reconciles
  the server's replies. It also exports the page to PDF (`PdfExport`).
- the PHP page server (`pages.php`):
  - a `Store` class over the four tables (pages, tick boxes, destinations,
    audio areas);
  - the base-52 page-key codec;
  - the request validators and the JSONP wrapper;
  - the router that turns a query string into one store operation.

Modules:

| file | module | models |
|---|---|---|
| options.dfy | `Options` | the optional value used for PHP `false` / JS `undefined` |
| decimal.dfy | `Decimal` | decimal numerals: PHP's `(string)` of an integer and its inverse |
| text.dfy | `Text` | `split` on a separator, as the editor uses it |
| page_key_codec.dfy | `PageKeyCodec` | `getPageKeyFromID` / `getIDFromPageKey` |
| validators.dfy | `RequestValidation` | `is_numeric`, `(int)`, the integer and callback validators, `getErrorJSON`'s neighbour `wrapCallback` |
| page_store.dfy | `PageStore` | the page, tick-box, destination and audio-area tables and every `*ToDB` operation, `duplicatePage`, `lookupPageDetails` |
| request_router.dfy | `RequestRouter` | the query dispatch at the end of `pages.php` |
| layout_geometry.dfy | `LayoutGeometry` | clamping, snapping, marker rounding, safe areas, default marker placement, the dimension code |
| editor.dfy | `Editor` | the editor's event, tick-box, remote and dialog state |
| pdf_export.dfy | `PdfExport` | page format, background image type, the element walk, fill/stroke styles, `hexToRgb` |

Table rows are numbered from 1 in insertion order, as SQLite numbers them.
Pages, tick boxes and audio areas are only ever flagged deleted, never
removed, so row `id` is element `id - 1` of the table's sequence.
Destinations are removed and re-added, so that table is filtered.

## Model

| member | source | states |
|---|---|---|
| Decimal.IntRoundTrip | pages.php:181-183 | reading back the decimal text of any integer gives that integer |
| Decimal.ParseIntInverse | pages.php:181-183 | text that reads as an integer is exactly that integer's canonical decimal text (no leading zeros, no "+", no "-0") |
| Decimal.NatToStringOfValue | pages.php:175-179 | a canonical digit string is the decimal text of its own value |
| Decimal.ValueOfNatToString | pages.php:175-179 | the decimal text of n has value n |
| Decimal.NatToStringInjective | pages.php:175-179 | different naturals have different decimal texts |
| Decimal.IntToString | pages.php:181-183 | the text is non-empty and starts with '-' exactly when the integer is negative |
| Text.IndexOf | codepaper.js:1191 | the first position of a separator, or none exactly when it does not occur |
| Text.Before | codepaper.js:1191 | the first piece of a split: no separator inside, the whole string when there is none, else a proper prefix ending just before the first separator |
| Text.SecondPiece | codepaper.js:1191 | the second piece of a split exists exactly when the separator occurs, and holds no separator |
| Text.PiecesOf | codepaper.js:1191 | splitting a + c + b (with no c in a) gives a as the first piece and b's first piece as the second |
| PageKeyCodec.GetPageKeyFromId | pages.php:196-205 | the digit loop computes the base-52 key Encode(id) |
| PageKeyCodec.Encode | pages.php:196-205 | keys are non-empty letter strings; one letter exactly for ids below 52; a leading 'a' only for 0 |
| PageKeyCodec.GetIdFromPageKey | pages.php:208-218 | the decoding loop computes Decode(key): none for the empty key and for a one-letter non-letter key |
| PageKeyCodec.StrPos | pages.php:208-218 | a letter's base-52 digit, absent exactly for non-letters |
| PageKeyCodec.RoundTrip | pages.php:196-218 | decoding the key of any id gives that id back |
| PageKeyCodec.EncodeInjective | pages.php:196-205 | different ids get different keys |
| PageKeyCodec.DecodeCanonical | pages.php:196-218 | every canonical key decodes, and re-encodes to itself |
| PageKeyCodec.ValueOfEncode | pages.php:196-218 | the positional value of Encode(n) is n |
| PageKeyCodec.EncodeOfValue | pages.php:196-218 | a canonical key is the encoding of its own value |
| PageKeyCodec.EncodeLength | pages.php:196-205 | an id below 52^k has a key of at most k letters |
| PageKeyCodec.TopKeyValue | pages.php:208-218 | a key of k 'Z's is worth 52^k - 1 |
| RequestValidation.LeadingSpaces | pages.php:175-183 | the whitespace prefix that PHP's numeric conversions skip, and no more |
| RequestValidation.DigitRun | pages.php:175-183 | the longest digit prefix |
| RequestValidation.Saturate | pages.php:175-183 | `(int)` of an out-of-range numeral saturates at the 64-bit bounds; in-range values are kept |
| RequestValidation.IntVal | pages.php:175-183 | `(int)` always lies in the 64-bit range |
| RequestValidation.TrimLeadingMinus | pages.php:176 | `ltrim($v, '-')`: a suffix, all removed characters are '-', and the rest does not start with '-' |
| RequestValidation.IntValOfNumeral | pages.php:175-183 | a canonical numeral is numeric, and `(int)` gives its value, saturated |
| RequestValidation.IntValOfNegatedNumeral | pages.php:181-183 | "-" + numeral is numeric and `(int)` gives the negated value, saturated |
| RequestValidation.PositiveOrZeroIntegerExactly | pages.php:175-179 | isPositiveOrZeroInteger accepts exactly "-0" and the canonical numerals up to 2^63-1 |
| RequestValidation.PositiveOrZeroIntegerAccepts | pages.php:175-179 | the accepting direction of the characterisation |
| RequestValidation.NumeralAccepted | pages.php:175-179 | the other direction: every canonical numeral up to 2^63-1 is accepted |
| RequestValidation.MinusZeroAccepted | pages.php:175-179 | "-0" passes isPositiveOrZeroInteger |
| RequestValidation.IntegerExactly | pages.php:181-183 | isInteger accepts exactly the canonical decimal texts of 64-bit integers |
| RequestValidation.PositiveOrZeroIntegerIsInteger | pages.php:175-183 | apart from "-0", what isPositiveOrZeroInteger accepts isInteger accepts too, with the same value |
| RequestValidation.PageTypeParameters | pages.php:153-156 | a page-type parameter passes both checks exactly when it is "0", "1", "2" or "-0" |
| RequestValidation.PageTypeParameterAccepted | pages.php:153-156 | only those four parameters pass both checks |
| RequestValidation.Explode | pages.php:162 | `explode('.', …)` gives at least one piece, and no piece holds a dot |
| RequestValidation.ImplodeExplode | pages.php:162 | joining the pieces with dots gives back the callback |
| RequestValidation.ExplodeWithoutDot | pages.php:162 | a string without a dot is its own only piece |
| RequestValidation.ExplodeKeepsCharacters | pages.php:162 | every character of a piece is in the callback |
| RequestValidation.ReservedWordPassesAsWritten | pages.php:159-171 | "new\n" passes the check as written, though "new" is reserved; the corrected check refuses it |
| RequestValidation.LineFeedIsNeverReserved | pages.php:166 | a name ending in a line feed is never found in the reserved-word list |
| RequestValidation.CallbackChecksAgree | pages.php:159-171 | the corrected check accepts a subset of the check as written, and the two agree on callbacks without a line feed |
| RequestValidation.HtmlSpecialCharsAppend | pages.php:146-148 | escaping distributes over concatenation |
| RequestValidation.ValidCallbackIsUnescaped | pages.php:146-148 | `htmlspecialchars` leaves unchanged any callback the check as written accepts, a final line feed included |
| RequestValidation.SuccessCall | pages.php:143-146 | an accepted "success" name, unescaped, called with `intval` of the id (0 when absent); nothing when it is missing or refused |
| RequestValidation.WrapCallback | pages.php:141-151 | with the callback check as written: no accepted callback gives the JSON as it is; otherwise the success call, then `callback(json);` |
| RequestValidation.ReservedWordWrapped | pages.php:141-151 | as written, the callback "new" plus a line feed wraps the JSON, so the response starts with a reserved word |
| RequestValidation.WrapCallbackWithoutLineFeed | pages.php:141-151 | for names without a line feed the wrapping is decided by the corrected check: accepted names wrap the JSON, all others leave it as it is |
| RequestValidation.WrappedJsonRecoverable | pages.php:141-151 | for any accepted callback the JSON stands unchanged at the end of the response, inside the call's parentheses |
| PageStore.ErrorJson | pages.php:131-138 | always a failure; the message shows only in debug mode or when it is the default one; with debugging off the reason is always "query error" |
| PageStore.EditRefusal | pages.php:257-266 | an edit is refused exactly when the page is missing ("page not found") or locked |
| PageStore.TicQRRefusal | pages.php:420-431 | tick-box and destination edits need an existing, unlocked page of type 1; otherwise "page not found", then "incorrect page type" |
| PageStore.BoxRefusal | pages.php:435-445 | a box edit is refused exactly when the box is missing ("box not found") or on another page |
| PageStore.AudioRefusal | pages.php:651-661 | an audio area needs an existing page of type 2; a locked page is allowed |
| PageStore.TicQRRefusesLockedAndMissing | pages.php:257-266 | whatever an edit refuses, a tick-box edit refuses too; on a type-1 page the two agree |
| PageStore.Round | pages.php:664-667 | PHP `round`: nearest integer, halves away from zero |
| PageStore.RoundIsUnique | pages.php:664-667 | any integer meeting the rounding bounds is Round's result |
| PageStore.GridRoundTripWithinTwo | pages.php:664-667 | storing an audio coordinate in mm and reading it back scaled moves it by at most 2 |
| PageStore.GridRoundTripLoses | pages.php:763-764 | a single witness that the loss is real: coordinate 1 is stored as 0 mm and read back as 0 |
| PageStore.DuplicatedAreaIsRescaled | pages.php:728-736 | a single witness that duplicatePage runs stored mm through the client-unit conversion again: 100 mm is copied as 21 mm |
| PageStore.LiveBoxesIn | pages.php:369-387 | only undeleted boxes of the page, each with its own row id, in increasing id order |
| PageStore.LiveBoxesComplete | pages.php:369-387 | every undeleted box of the page is listed |
| PageStore.LiveAreasIn | pages.php:620-638 | only undeleted audio areas of the page, each with its row id, in increasing id order |
| PageStore.LiveAreasComplete | pages.php:620-638 | every undeleted audio area of the page is listed |
| PageStore.DestinationIn | pages.php:551-569 | a destination is found exactly when a row for the page exists, and it is one of that page's rows |
| PageStore.WithoutPage | pages.php:597-601 | the delete keeps exactly the rows of other pages |
| PageStore.DestinationAfterUpdate | pages.php:571-617 | after an update the page's destination is the new one; every other page's is unchanged |
| PageStore.AppendKeepsFirstMatch | pages.php:551-569 | appending a row for another page does not change a page's destination |
| PageStore.WithoutPageKeepsDistinct | pages.php:571-617 | at most one destination per page is kept by the update |
| PageStore.BoxCopies | pages.php:712-720 | one copy per live box, on the new page, with position, description and quantity kept |
| PageStore.AreaCopies | pages.php:728-736 | one copy per live area, on the new page, converted again by saveAudioAreaToDB |
| PageStore.BoxViews | pages.php:757-768 | one view per box with its id, description and quantity; unscaled positions are the stored ones, scaled positions are the grid units from the left marker's x and the right marker's y |
| PageStore.AreaViews | pages.php:774-790 | one view per area with its id and SoundCloud id; scaled left and right are grid units from the left marker's x, scaled top and bottom from the right marker's y; unscaled coordinates are the stored mm |
| PageStore.Store.constructor | pages.php:62-128 | the tables start empty |
| PageStore.Store.SavePage | pages.php:245-303 | a new page is appended with type 0, unlocked, and its key returned; an update rewrites the geometry of an unlocked page only; a refusal changes nothing |
| PageStore.Store.LockPage | pages.php:306-323 | the page, if it exists, becomes locked; nothing else changes |
| PageStore.Store.UpdatePageType | pages.php:326-366 | an invalid type or refused page changes nothing; otherwise only the type changes |
| PageStore.Store.SaveTickBox | pages.php:409-497 | insert appends a box (description "" and quantity 1 by default) and echoes tempId/x/y; update changes position, and description and quantity only when both are given; refusals change nothing |
| PageStore.Store.DeleteTickBox | pages.php:500-548 | the box is flagged deleted and no longer found; refusals change nothing |
| PageStore.Store.UpdatePageDestination | pages.php:571-617 | the page's old destinations are removed and the new one appended |
| PageStore.Store.SaveAudioArea | pages.php:640-689 | the area is stored in mm from the page's markers, even on a locked page |
| PageStore.Store.LookupPageDetails | pages.php:744-801 | a missing page gives "pagekey not found"; otherwise its key, attributes and content, locking a typed page when asked |
| PageStore.Store.DuplicatePage | pages.php:692-741 | an unlocked copy of the page is appended with its live boxes and destination (type 1) or re-converted audio areas (type 2), and its details returned |
| PageStore.Store.CopyPage | pages.php:697-736 | the new row is the next id, and the content copies as in DuplicatePage |
| PageStore.Store.CopyContent | pages.php:708-739 | the boxes, destination or audio areas of the copy, by page type |
| PageStore.Store.CopyDestination | pages.php:723-726 | a non-empty destination is copied to the new page |
| PageStore.Store.CopyTickBoxes | pages.php:712-720 | the copies are appended in order |
| PageStore.Store.CopyAudioAreas | pages.php:730-735 | the converted copies are appended in order |
| RequestRouter.CheckedPageId | pages.php:175-176 | a key passes `getIDFromPageKey` plus `isPositiveOrZeroInteger` only if it decodes to an id in 0..2^63-1; decoded ids below 10^14 always pass; a key of at most 12 letters passes exactly when its value is at most 2^63-1 |
| RequestRouter.StoredKeyPasses | pages.php:196-218 | Encode(id) of any id up to 2^63-1 passes the check and gives that id back |
| RequestRouter.OverlongKeyRefused | pages.php:208-218 | a single witness: twelve 'Z's are worth more than 2^63-1 and are refused |
| RequestRouter.FirstPresent | pages.php:806-915 | the index of the first operation group with a parameter present: no earlier group has one, and it has one unless none is left |
| RequestRouter.OperationOrder | pages.php:806-915 | the first group present is decided by the handler's chain of `isset` tests, in the order edit, lookup, new/update, updatedestination, updatetype, newbox/updatebox, deletebox, newaudio, duplicate |
| RequestRouter.Route | pages.php:806-915 | "edit" wins and never locks; only "lookup" locks |
| RequestRouter.RouteFollowsOrder | pages.php:806-915 | the first operation parameter present, in the handler's order, selects the sub-route; with none present the request is refused with "no query specified" |
| RequestRouter.LookupRoute | pages.php:806-824 | a lookup exactly for a non-empty key; it is refused with "pagekey not specified" otherwise; lookups scale and lock, edits do neither |
| RequestRouter.PageRoute | pages.php:826-841 | a save exactly when all six sizes and marker positions pass `isPositiveOrZeroInteger`, with their `(int)` values and the unchecked decoded "update" key; otherwise "new/update page attribute invalid or missing" |
| RequestRouter.DestinationRoute | pages.php:843-851 | a destination update exactly when the key passes the check and a destination is given, with that id and destination; otherwise its refusal |
| RequestRouter.TypeRoute | pages.php:853-861 | a type update exactly when the key passes and the type passes `isPositiveOrZeroInteger`, with that id and type; otherwise the destination message the source sends |
| RequestRouter.TickBoxRoute | pages.php:863-876 | a tick-box save exactly when x, y and the page key pass, with their values, the optional box id, description, quantity and tempId; otherwise its refusal |
| RequestRouter.DeleteRoute | pages.php:878-886 | a tick-box delete exactly when the box id and the page key pass, with their values; otherwise its refusal |
| RequestRouter.AudioRoute | pages.php:888-902 | an audio-area save exactly when left and top are integers, right and bottom non-negative and the page key passes, with their values and the SoundCloud id ("" when missing); otherwise its refusal |
| RequestRouter.DuplicateRoute | pages.php:904-911 | a duplicate exactly when the key passes, with that id; otherwise its refusal |
| RequestRouter.PositiveOrZeroParamValue | pages.php:175-179 | a validated parameter's `(int)` is in 0..2^63-1 and its text is that value's decimal (or "-0") |
| RequestRouter.RoutedValuesInRange | pages.php:806-915 | every size, marker position, grid coordinate, page type, deleted box id and checked page id a route passes on lies in 0..2^63-1; an audio area's left and top, and a tick-box save's updated box id, quantity and tempId, lie in the signed 64-bit range |
| RequestRouter.UndecodableUpdateCreatesPage | pages.php:826-841 | an "update" whose key does not decode creates a new page instead of updating one |
| RequestRouter.LookupFindsStoredPage | pages.php:806-813 | "edit" with the key of page id routes to an unlocked, unscaled lookup of that id |
| RequestRouter.Handle | pages.php:806-915 | the routed store operation is carried out with the routed arguments, and the tables and the answer are as that operation's contract states; a refused route answers its error ("query error" with debugging off) and changes nothing; no lock is ever lifted |
| LayoutGeometry.RoundHalfUp | codepaper.js:827-828 | `Math.round`: nearest integer, halves up |
| LayoutGeometry.ClampToEdges | codepaper.js:509-519 | a coordinate inside the page edges is kept; one below the low edge goes to the low edge and one above the high edge to the high edge, the high edge winning when the page is too small for the box |
| LayoutGeometry.TickBoxTopLeft | codepaper.js:506-519 | a new box is centred on the click when it fits, and lies on the page whenever the page can hold the box |
| LayoutGeometry.FirstNear | codepaper.js:794-807 | the first snap line within the snap distance, or none exactly when no line is near |
| LayoutGeometry.SnapAxis | codepaper.js:794-807 | the snap loop ends on a near line or on the unchanged value |
| LayoutGeometry.DraggedTickBox | codepaper.js:786-819 | a dragged box, snapped then clamped, stays on the page |
| LayoutGeometry.SnapSettles | codepaper.js:794-807 | on well-separated lines snapping is idempotent |
| LayoutGeometry.SnapCanMoveOn | codepaper.js:794-807 | a single witness: with lines closer than the snap distance a second snap moves on again |
| LayoutGeometry.Cells | codepaper.js:294-295 | `Math.floor(length / size)`: the cells that fit |
| LayoutGeometry.RoundedQuotient | codepaper.js:827-828 | `Math.round(n / s)` in integer arithmetic |
| LayoutGeometry.RoundToMultiple | codepaper.js:827-828 | a marker coordinate goes to a multiple of the code size, at most half a cell away |
| LayoutGeometry.RoundToMultipleIsNearest | codepaper.js:827-828 | that multiple is the only one so near, ties going up |
| LayoutGeometry.ClampInt | codepaper.js:832-835 | a coordinate inside the area is kept; one below it goes to the low bound and one above it to the high bound, the high bound winning when the area is empty |
| LayoutGeometry.SafeArea | codepaper.js:710-726 | each marker's area keeps a two-cell gap to the other marker |
| LayoutGeometry.DraggedMarker | codepaper.js:821-838 | a dragged marker ends inside its safe area |
| LayoutGeometry.LeftMarkerKeepsApart | codepaper.js:710-726 | the dragged left marker stays at least two cells left of and below the right one |
| LayoutGeometry.RightMarkerKeepsApart | codepaper.js:710-726 | the dragged right marker stays at least two cells right of and above the left one |
| LayoutGeometry.DraggedMarkerOnGrid | codepaper.js:821-838 | a dragged marker stays on the code grid |
| LayoutGeometry.DefaultCountsAreCells | codepaper.js:290-296 | the counts recomputed from the default markers are the cells that fit |
| LayoutGeometry.DefaultPlacementIsSafe | codepaper.js:351-359 | the default markers lie in each other's safe areas |
| LayoutGeometry.DimensionCodeRoundTrip | codepaper.js:42-44 | the dimension code gives back both counts |
| Editor.Find | codepaper.js:735-779 | the index of the box with a handle, or none exactly when there is no such box |
| Editor.Xs | codepaper.js:543-561 | the x coordinates of the boxes, in order |
| Editor.Ys | codepaper.js:543-561 | the y coordinates of the boxes, in order |
| Editor.DistinctIsDeduplication | codepaper.js:543-561 | the snap lines hold every coordinate exactly once |
| Editor.DistinctKeepsFirstOccurrence | codepaper.js:543-561 | snap lines keep the order of first appearance |
| Editor.EchoedConnectionId | pages.php:141-151 | the server echoes the client's connection id unchanged |
| Editor.ReconciledAsWritten | codepaper.js:563-579 | as written, the reply's id goes to every box whose tempId loosely equals the reply's |
| Editor.FailedReplyWipesSavedIds | codepaper.js:566 | as written, a failed reply wipes the id of every saved box; the corrected version changes nothing |
| Editor.FailedReplyWipesOneBox | codepaper.js:566 | a single witness: a concrete saved box whose id a failed reply wipes |
| Editor.MatchesAgreeWithTempId | codepaper.js:566 | with a tempId in the reply, strict and loose matching agree |
| Editor.Reconciled | codepaper.js:563-579 | the corrected update: each box reconciled on its own |
| Editor.AtMostOneCorrection | codepaper.js:569-575 | with unique tempIds a reply leads to at most one position correction, and to none if no box matches |
| Editor.NoOtherMatch | codepaper.js:563-579 | with unique tempIds no earlier box matches the same reply |
| Editor.Numbered | codepaper.js:606-620 | consecutive requests take consecutive connection ids |
| Editor.IssuedMarksNewCalls | codepaper.js:606-630 | issuing calls marks exactly the new connection ids outstanding; every other entry, so every call still awaiting its reply, keeps its state |
| Editor.IssuedTwice | codepaper.js:606-620 | issuing two runs of calls in turn is issuing both |
| Editor.DeletedBoxIsGone | codepaper.js:931-944 | after a delete the box is no longer found |
| Editor.RewriteKeepsValid | codepaper.js:786-819 | rewriting a box with its handle and tempId kept preserves the handle and tempId invariants |
| Editor.AppendKeepsValid | codepaper.js:506-541 | appending a fresh box preserves them |
| Editor.SetTempIdKeepsValid | codepaper.js:745-753 | giving a box the next tempId preserves them |
| Editor.RemoveKeepsValid | codepaper.js:931-944 | removing a box preserves them |
| Editor.Session.constructor | codepaper.js:277-399 | saved markers are used as they are, without requests; otherwise default markers and one "new page" request, marked outstanding, with the dimension counts the cells that fit; no boxes, handles from 0, tempIds from 1, no pending regeneration, safe area hidden, nothing selected |
| Editor.Session.RequestJsonP | codepaper.js:606-620 | the request is sent with the next connection id and marked outstanding; the rest of the call table is kept |
| Editor.Session.ConnectionSuccess | codepaper.js:627-630 | the connection is no longer outstanding |
| Editor.Session.ShowConnectionError | codepaper.js:645-663 | a warning appears exactly when the connection is still outstanding |
| Editor.Session.ShowDialog | codepaper.js:1122-1157 | the dialog is open |
| Editor.Session.CloseDialog | codepaper.js:1164-1171 | reports whether the dialog was open; it is closed afterwards |
| Editor.Session.UpdateTickBoxSnapGrid | codepaper.js:543-561 | the snap lines are the distinct box coordinates, in order |
| Editor.Session.AddTickBox | codepaper.js:506-541 | a box with the next handle is appended on the page, with defaults "" and 1, and the snap lines rebuilt |
| Editor.Session.UpdateTickBoxWithId | codepaper.js:563-579 | boxes are reconciled with the reply, and at most one correction request is sent; the correction is marked outstanding and every other call-table entry is kept |
| Editor.Session.ReconcileAt | codepaper.js:564-577 | one box is reconciled and its correction, if any, sent and marked outstanding; the rest of the call table is kept |
| Editor.Session.HandleMouseDown | codepaper.js:735-779 | on a type-1 page a click on the paper adds a box with the next handle, rebuilds the snap lines and sends "newbox" with a fresh tempId, marked outstanding; a click on a box grabs and selects it; other clicks change nothing; the snap lists, handle counter and call table change only on a paper click |
| Editor.Session.PlaceTickBox | codepaper.js:744-772 | the paper click: a pending box is appended, grabbed and selected, the snap lines rebuilt, and its "newbox" call marked outstanding |
| Editor.Session.SelectTickBox | codepaper.js:755-772 | the box click: only that box is grabbed, and it is selected |
| Editor.Session.AddPendingTickBox | codepaper.js:745-753 | the new box takes the next handle and the next tempId, the snap lines are rebuilt, and the "newbox" request names the tempId and is marked outstanding |
| Editor.Session.GrabTickBox | codepaper.js:755-772 | only the grabbed box changes: its grab offset is stored and it is marked unmoved (HandleMouseDown then selects it) |
| Editor.Session.HandleMouseMove | codepaper.js:781-839 | a selected box is dragged, snapped and kept on the page; a selected marker moves within its safe area on the grid; the other marker stays |
| Editor.Session.DragTickBox | codepaper.js:786-819 | only the selected box moves, keeping its handle and tempId |
| Editor.Session.DragStep | codepaper.js:786-819 | the moved box is the snapped, clamped drag target, and lies on the page |
| Editor.Session.DragMarker | codepaper.js:821-838 | only the selected marker moves |
| Editor.Session.HandleMouseUp | codepaper.js:841-913 | a released box is saved ("updatebox" if it has its id and moved, marked outstanding) and remembered as previous, with the snap lines rebuilt; a released marker hides the safe area and schedules a regeneration; without a box the snap lines stay, without a marker the safe area stays; both selections clear |
| Editor.Session.ReleaseTickBox | codepaper.js:844-862 | the release requests are sent and marked outstanding, and the box becomes the previous selection |
| Editor.Session.ReleaseSelectedTickBox | codepaper.js:844-861 | releasing the selected box rebuilds the snap lines from the positions before the release, marks the box unmoved, appends its release requests (marked outstanding) and makes it the previous selection |
| Editor.Session.RegenerateRightCode | codepaper.js:864-910 | the page geometry is sent, its call marked outstanding, and the dimension counts recomputed from the markers |
| Editor.Session.HandleQRMouseDown | codepaper.js:690-733 | the marker is selected and its safe area computed and shown |
| Editor.Session.HandleKeyDown | codepaper.js:924-988 | delete removes the previous box and sends "deletebox"; arrows nudge it and send "updatebox"; every call sent is marked outstanding and the rest of the call table kept; escape and enter close the dialog and send nothing; other keys do nothing |
| Editor.Session.Nudged | codepaper.js:946-969 | an arrow moves the box by one unit on its axis, clamped to the page |
| Editor.Session.DeletePrevious | codepaper.js:931-944 | the previous box is removed and its delete sent; that call is outstanding, so its timeout would warn |
| Editor.Session.NudgePrevious | codepaper.js:946-969 | the previous box is nudged and its new position sent, marked outstanding |
| PdfExport.PageFormat | codepaper.js:1180-1188 | landscape exactly when wider than high; the format lists the two sides, longer first |
| PdfExport.ImageTypeOfDataUrl | codepaper.js:1191 | the image type is the text between the first '/' and the first ';' |
| PdfExport.PngBackgroundIsAdded | codepaper.js:1189-1198 | a single witness: a PNG data URL is added as a background; no background adds nothing |
| PdfExport.HexToRgb | codepaper.js:1262-1275 | a colour exactly for 3- or 6-digit hex notation, each channel in 0..255 |
| PdfExport.HexRoundTrip | codepaper.js:1262-1275 | `hexToRgb` gives back any colour written as #rrggbb |
| PdfExport.ShorthandDoublesDigits | codepaper.js:1262-1275 | #rgb means #rrggbb, and the '#' is optional |
| PdfExport.FillStyle | codepaper.js:1222-1233 | a valid hex fill sets that colour and style "F"; anything else sets black and no style letter |
| PdfExport.StrokeStyle | codepaper.js:1236-1260 | a stroke with a positive or missing width draws with style "D", in the stroke's hex colour (black when it is invalid), width 1 by default; otherwise black, width 0, no style letter |
| PdfExport.RectCommands | codepaper.js:1203-1219 | a rectangle sets its styles, then draws itself at its own position and size; the style holds "F" exactly when the fill is valid hex, "D" exactly when a stroke is given with a positive or missing width |
| PdfExport.WalkDrawsEachRect | codepaper.js:1203-1219 | the walk draws every rectangle of a set, once each, in order |
| PdfExport.WalkAllDrawsEachRect | codepaper.js:1203-1219 | the same for the whole list of items |

## Left out

- The SQLite database, PDO errors ("database error") and timestamps (`millitime`, dateCreated/dateModified) are not modelled. Every store operation succeeds at the database level.
- `json_encode` output is not modelled. Responses are a `Response` datatype carrying the same fields and reasons.
- Table creation (`initialiseCodeMakerDB`) is reduced to empty tables in `Store.constructor`.
- Column type affinity is not modelled. Values are stored as the integers `intval` gives.
- RequestRouter.TickBoxRoute: the "updatebox" text reaches the store as its `intval`. The source finds the box by `intval` (pages.php:397) but binds the raw text in the UPDATE (pages.php:469) and echoes it raw (pages.php:484). So for text such as "3abc", which SQLite cannot compare with the integer id, the source updates no row yet answers "ok", while the model moves box 3.
- RequestValidation.IsValidCallback: the square-bracket subscripts the pattern allows (`a["x"]`, `a[0]`) are not modelled. The model accepts only dotted identifiers and is therefore stricter. With subscripts refused, `htmlspecialchars` leaves a valid callback unchanged.
- RequestValidation.IsNumeric: PHP's floating numerals ("1.5", "1e3") are recognised, but their `(int)` value follows the leading digit run, not float conversion.
- Editor coordinates are exact reals, not IEEE doubles. Raphael's `getBBox`, with its stroke correction, is a constant.
- The DOM, Raphael and SVG drawing, and QR code generation are not modelled. Neither is picoModal's dialog content, nor the tick-box editor dialog (`showTickBoxEditor`, description and quantity editing).
- JSONP transport and timers are not modelled. Each reply is a call to `UpdateTickBoxWithId`, `ConnectionSuccess` or `ShowConnectionError`, and each expiry of the right-code timer is a call to `RegenerateRightCode`.
- Editor.Session.HandleMouseDown: requires the clicked box to be in the session. A click on an element that is not the paper and not a box has no handler in the source and is `NoElement` here.
- Editor.Session.DeletePrevious: after a delete the source clears a different variable than the one it reads (codepaper.js:941). The previous box therefore stays selected (`previousSelectedTickBox` is unchanged). A second Delete finds no box, still sends "deletebox" with an undefined id (`DeleteBox(None)`) and removes nothing.
- A delete does not rebuild the snap grid, as in the source.
- `updateDocumentWithPageKey` (codepaper.js:450-476) is not modelled: it takes the key from the server's reply to the "new" request and writes it into the document, the URL and the left QR code. Nor is the page's first load. A session starts from the key and the saved markers it is given and has that key from its first request on, whereas in the source the requests sent before that reply (codepaper.js:357-359, 750-752, 880) carry the key "null".
- The page-type chooser `updatePageType` (codepaper.js:478-495) is not modelled: a session's `pageType` is fixed when it is set up, so the type change and its "updatetype" request (retried once after two seconds while no key is known) are not part of the model.
- Raphael's `undefined` data values are options. NaN coordinates are not modelled.
- jsPDF's own drawing is not modelled: the walk produces a list of commands. Images, text and paths are walked but draw nothing here. `addImage` of the background is `AddsBackground`.
- PageKeyCodec.GetIdFromPageKey: query values are byte strings, one character per byte. A key holding a multi-byte UTF-8 character is therefore several non-letters, as `str_split` sees it, and is modelled so only when given as its bytes.
- PageKeyCodec.GetPageKeyFromId: the source computes with `fmod` and `floor` on doubles (pages.php:201-202), so for ids of 2^53 and more its key follows double arithmetic (id 2^53+1 is read as 2^53 and its last letter is index 32, 'G'); the model's key is Encode(id) of the exact id (last letter 'H').
- PageKeyCodec.Decode: an unchecked key ("edit", "lookup", "update") worth more than 2^63-1 is a float in the source; the model keeps its exact value, which names no stored page.
- PageStore.Round, PageStore.ToMillimetres and PageStore.ToGridUnits compute on exact reals, not PHP doubles, so results on the rounding boundary may differ from the source's.

## Findings

| source | as written | input that shows it | evidently intended | confidence | as-written member | corrected member |
|---|---|---|---|---|---|---|
| pages.php:163-168 | the identifier pattern ends in `$`, which also matches before a final line feed, and the reserved-word test then compares the name with its line feed | callback "new\n" (the reserved word `new` followed by a line feed) is accepted | a callback ending in a line feed, or naming a reserved word, is refused | high (not executed) | RequestValidation.ReservedWordPassesAsWritten | RequestValidation.CallbackChecksAgree |
| codepaper.js:566 | a box matches a reply when `box.data('tempId') == result.tempId`, a loose comparison | a failed "newbox" reply carries no tempId; every box already saved has no tempId either, so `undefined == undefined` gives each of them the reply's missing id | only the box whose tempId equals the reply's tempId takes the new id | high (not executed) | Editor.FailedReplyWipesSavedIds | Editor.Session.UpdateTickBoxWithId |
