/** The decisions PDFConverter in codepaper.js makes when it exports a
    page: the page format, whether the background image goes in, which
    page items become rectangles, and the fill and stroke each rectangle
    gets.  What is modelled is the sequence of drawing commands that would
    be issued, not the drawing itself. */
module PdfExport {
  import opened Options
  import opened Text

  datatype Orientation = Portrait | Landscape

  /** The orientation and the two sides as the PDF format receives them. */
  datatype Format = Format(orientation: Orientation, first: real, second: real)

  /** download: landscape exactly when the page is wider than tall, and in
      either case the longer side first. */
  function PageFormat(width: real, height: real): (f: Format)
    ensures f.orientation == Landscape <==> width > height
    ensures f.first >= f.second
    ensures multiset{f.first, f.second} == multiset{width, height}
  {
    if width > height then Format(Landscape, width, height) else Format(Portrait, height, width)
  }

  const SupportedImageTypes: seq<string> := ["jpeg", "jpg", "png"]

  /** backgroundImage.split(';')[0].split('/')[1]: the subtype of a data
      URL's media type, if there is a '/' before the first ';'. */
  function ImageType(dataUrl: string): Option<string>
  {
    SecondPiece(Before(dataUrl, ';'), '/')
  }

  /** Whether the background image is added to the PDF. */
  predicate AddsBackground(backgroundImage: Option<string>)
  {
    backgroundImage.Some? && ImageType(backgroundImage.value).Some? &&
    ImageType(backgroundImage.value).value in SupportedImageTypes
  }

  /** A data URL "data:image/<t>;..." has image type t. */
  lemma ImageTypeOfDataUrl(scheme: string, t: string, rest: string)
    requires ';' !in scheme && '/' !in scheme && ';' !in t && '/' !in t
    ensures ImageType(scheme + "/" + t + ";" + rest) == Some(t)
  {
    var head := scheme + "/" + t;
    assert ';' !in head by {
      assert forall i :: 0 <= i < |head| ==> head[i] in scheme || head[i] == '/' || head[i] in t;
    }
    PiecesOf(head, ';', rest);
    assert head + ";" + rest == head + [';'] + rest;
    PiecesOf(scheme, '/', t);
    assert Before(t, '/') == t;
  }

  /** Only JPEG and PNG backgrounds are exported; a PNG data URL is. */
  lemma PngBackgroundIsAdded(rest: string)
    ensures AddsBackground(Some("data:image/png;" + rest))
    ensures !AddsBackground(None)
  {
    var scheme, png := "data:image", "png";
    SchemeHasNoSeparators();
    ImageTypeOfDataUrl(scheme, png, rest);
    PngPrefix();
    assert SupportedImageTypes[2] == png;
  }

  lemma PngPrefix()
    ensures "data:image" + "/" + "png" + ";" == "data:image/png;"
  {
    var p := "data:image" + "/" + "png" + ";";
    assert |p| == 15;
    forall i | 0 <= i < 15
      ensures p[i] == "data:image/png;"[i]
    {
    }
  }

  lemma SchemeHasNoSeparators()
    ensures ';' !in "data:image" && '/' !in "data:image" && ';' !in "png" && '/' !in "png"
  {
    var scheme, png := "data:image", "png";
    assert forall i :: 0 <= i < |scheme| ==> scheme[i] != ';' && scheme[i] != '/';
    assert forall i :: 0 <= i < |png| ==> png[i] != ';' && png[i] != '/';
  }

  // ---- hexToRgb ----

  predicate IsHexDigit(c: char)
  {
    '0' <= c <= '9' || 'a' <= c <= 'f' || 'A' <= c <= 'F'
  }

  predicate AllHex(s: string)
  {
    forall i :: 0 <= i < |s| ==> IsHexDigit(s[i])
  }

  function HexVal(c: char): (v: nat)
    requires IsHexDigit(c)
    ensures v < 16
  {
    if '0' <= c <= '9' then c as int - '0' as int
    else if 'a' <= c <= 'f' then c as int - 'a' as int + 10
    else c as int - 'A' as int + 10
  }

  datatype Rgb = Rgb(r: nat, g: nat, b: nat)

  predicate IsColour(c: Rgb)
  {
    c.r < 256 && c.g < 256 && c.b < 256
  }

  /** The optional leading '#'. */
  function DropHash(s: string): string
  {
    if |s| > 0 && s[0] == '#' then s[1..] else s
  }

  /** The hex notation of section 4.2.1 of CSS Color Module Level 3, with the
      '#' optional: three or six hex digits, either case. */
  predicate IsHexNotation(s: string)
  {
    var d := DropHash(s);
    (|d| == 3 || |d| == 6) && AllHex(d)
  }

  /** The shorthand rewrite: three digits, with or without '#', become six
      by doubling each digit (and the '#' goes). */
  function ExpandShorthand(hex: string): string
  {
    var d := DropHash(hex);
    if |d| == 3 && AllHex(d) then [d[0], d[0], d[1], d[1], d[2], d[2]] else hex
  }

  function ByteOf(hi: char, lo: char): (v: nat)
    requires IsHexDigit(hi) && IsHexDigit(lo)
    ensures v < 256
  {
    HexVal(hi) * 16 + HexVal(lo)
  }

  /** hexToRgb: the colour a hex notation denotes, or null. */
  function HexToRgb(hex: string): (c: Option<Rgb>)
    ensures c.Some? <==> IsHexNotation(hex)
    ensures c.Some? ==> IsColour(c.value)
  {
    var d := DropHash(ExpandShorthand(hex));
    if |d| == 6 && AllHex(d) then Some(Rgb(ByteOf(d[0], d[1]), ByteOf(d[2], d[3]), ByteOf(d[4], d[5])))
    else None
  }

  function LowerHexDigit(v: nat): (c: char)
    requires v < 16
    ensures IsHexDigit(c) && HexVal(c) == v
  {
    if v < 10 then ('0' as int + v) as char else ('a' as int + v - 10) as char
  }

  function ByteToHex(v: nat): (s: string)
    requires v < 256
    ensures |s| == 2 && AllHex(s) && ByteOf(s[0], s[1]) == v
  {
    [LowerHexDigit(v / 16), LowerHexDigit(v % 16)]
  }

  /** The six-digit notation of a colour. */
  function RgbToHex(c: Rgb): (s: string)
    requires IsColour(c)
    ensures |s| == 7 && s[0] == '#' && AllHex(s[1..])
  {
    "#" + ByteToHex(c.r) + ByteToHex(c.g) + ByteToHex(c.b)
  }

  /** Every colour written out in six digits reads back as itself. */
  lemma HexRoundTrip(c: Rgb)
    requires IsColour(c)
    ensures HexToRgb(RgbToHex(c)) == Some(c)
  {
    var hr, hg, hb := ByteToHex(c.r), ByteToHex(c.g), ByteToHex(c.b);
    var s := RgbToHex(c);
    var d := s[1..];
    assert s == "#" + hr + hg + hb;
    assert DropHash(s) == d && |d| == 6;
    assert ExpandShorthand(s) == s;
    assert d[0] == hr[0] && d[1] == hr[1];
    assert d[2] == hg[0] && d[3] == hg[1];
    assert d[4] == hb[0] && d[5] == hb[1];
  }

  /** '#rgb' denotes the same colour as '#rrggbb'. */
  lemma ShorthandDoublesDigits(r: char, g: char, b: char)
    requires IsHexDigit(r) && IsHexDigit(g) && IsHexDigit(b)
    ensures HexToRgb(['#', r, g, b]) == HexToRgb(['#', r, r, g, g, b, b])
    ensures HexToRgb([r, g, b]) == HexToRgb(['#', r, g, b])
  {
    assert DropHash(['#', r, g, b]) == [r, g, b];
    assert DropHash(['#', r, r, g, g, b, b]) == [r, r, g, g, b, b];
    assert ExpandShorthand(['#', r, g, b]) == [r, r, g, g, b, b];
    assert ExpandShorthand([r, g, b]) == [r, r, g, g, b, b];
    assert ExpandShorthand(['#', r, r, g, g, b, b]) == ['#', r, r, g, g, b, b];
  }

  // ---- page items and drawing commands ----

  /** A page item: a Raphael set, a Raphael element (with the attributes
      the export reads; None where the attribute is null), or anything
      else. */
  datatype Element =
    | Group(members: seq<Element>)
    | Shape(kind: string, x: real, y: real, width: real, height: real,
            fill: Option<string>, stroke: Option<string>, strokeWidth: Option<real>)
    | Unknown

  datatype Command =
    | SetFillColour(fillColour: Rgb)
    | FillBlack   // setFillColor(0): grey level 0, that is black
    | SetDrawColour(drawColour: Rgb)
    | DrawBlack   // setDrawColor(0)
    | SetLineWidth(lineWidth: real)
    | DrawRect(x: real, y: real, width: real, height: real, style: string)

  /** setPDFFill: a fill whose colour can be read sets the fill colour and
      contributes 'F'; anything else sets it to black and contributes nothing. */
  function FillStyle(fill: Option<string>): (r: (seq<Command>, string))
    ensures r.1 == "F" <==> fill.Some? && IsHexNotation(fill.value)
    ensures r.1 == "" || r.1 == "F"
    ensures r.1 == "F" ==> r.0 == [SetFillColour(HexToRgb(fill.value).value)]
    ensures r.1 == "" ==> r.0 == [FillBlack]
  {
    if fill.Some? && HexToRgb(fill.value).Some? then ([SetFillColour(HexToRgb(fill.value).value)], "F")
    else ([FillBlack], "")
  }

  /** setPDFStroke: a stroke of positive width (1 when unset) sets the draw
      colour (black when unreadable) and the line width and contributes
      'D'; otherwise the draw colour is set to black and the width to 0. */
  function StrokeStyle(stroke: Option<string>, strokeWidth: Option<real>): (r: (seq<Command>, string))
    ensures r.1 == "D" <==> stroke.Some? && (strokeWidth.None? || strokeWidth.value > 0.0)
    ensures r.1 == "" || r.1 == "D"
    ensures r.1 == "" ==> r.0 == [DrawBlack, SetLineWidth(0.0)]
    ensures r.1 == "D" ==> |r.0| == 2 && r.0[1] == SetLineWidth(if strokeWidth.Some? then strokeWidth.value else 1.0)
    ensures r.1 == "D" && IsHexNotation(stroke.value) ==> r.0[0] == SetDrawColour(HexToRgb(stroke.value).value)
    ensures r.1 == "D" && !IsHexNotation(stroke.value) ==> r.0[0] == SetDrawColour(Rgb(0, 0, 0))
  {
    if stroke.Some? then
      var width := if strokeWidth.Some? then strokeWidth.value else 1.0;
      if width > 0.0 then
        var colour := HexToRgb(stroke.value);
        ([SetDrawColour(if colour.Some? then colour.value else Rgb(0, 0, 0)), SetLineWidth(width)], "D")
      else ([DrawBlack, SetLineWidth(0.0)], "")
    else ([DrawBlack, SetLineWidth(0.0)], "")
  }

  /** The style letters jsPDF's rect receives. */
  predicate IsStyle(s: string)
  {
    s == "" || s == "F" || s == "D" || s == "FD"
  }

  predicate IsRect(e: Element)
  {
    e.Shape? && e.kind == "rect"
  }

  /** The commands for one rectangle: its fill, its stroke, then the
      rectangle with the two style letters. */
  function RectCommands(e: Element): (cmds: seq<Command>)
    requires e.Shape?
    ensures |cmds| == 4 && cmds[3].DrawRect?
    ensures cmds[3] == DrawRect(e.x, e.y, e.width, e.height, cmds[3].style)
    ensures IsStyle(cmds[3].style)
    ensures 'F' in cmds[3].style <==> e.fill.Some? && IsHexNotation(e.fill.value)
    ensures 'D' in cmds[3].style <==> e.stroke.Some? && (e.strokeWidth.None? || e.strokeWidth.value > 0.0)
    ensures forall i :: 0 <= i < 3 ==> !cmds[i].DrawRect?
  {
    var fill, stroke := FillStyle(e.fill), StrokeStyle(e.stroke, e.strokeWidth);
    StyleLetters(fill.1, stroke.1);
    fill.0 + stroke.0 + [DrawRect(e.x, e.y, e.width, e.height, fill.1 + stroke.1)]
  }

  /** The style is the fill's letter followed by the stroke's. */
  lemma StyleLetters(fillLetter: string, strokeLetter: string)
    requires fillLetter == "" || fillLetter == "F"
    requires strokeLetter == "" || strokeLetter == "D"
    ensures IsStyle(fillLetter + strokeLetter)
    ensures 'F' in fillLetter + strokeLetter <==> fillLetter == "F"
    ensures 'D' in fillLetter + strokeLetter <==> strokeLetter == "D"
  {
    if fillLetter == "F" && strokeLetter == "D" {
      assert fillLetter + strokeLetter == "FD";
    }
  }

  /** addPDFItem: sets are walked member by member, rectangles drawn, and
      every other item skipped. */
  function Walk(e: Element): seq<Command>
    decreases e, 1
  {
    match e
    case Group(members) => WalkAll(members)
    case Shape(_, _, _, _, _, _, _, _) => if IsRect(e) then RectCommands(e) else []
    case Unknown => []
  }

  function WalkAll(items: seq<Element>): seq<Command>
    decreases items, 0
  {
    if |items| == 0 then [] else Walk(items[0]) + WalkAll(items[1..])
  }

  /** The rectangles of an item, in the order a depth-first walk meets them. */
  function Rects(e: Element): (rs: seq<Element>)
    decreases e, 1
    ensures forall i :: 0 <= i < |rs| ==> IsRect(rs[i])
  {
    match e
    case Group(members) => RectsAll(members)
    case Shape(_, _, _, _, _, _, _, _) => if IsRect(e) then [e] else []
    case Unknown => []
  }

  function RectsAll(items: seq<Element>): (rs: seq<Element>)
    decreases items, 0
    ensures forall i :: 0 <= i < |rs| ==> IsRect(rs[i])
  {
    if |items| == 0 then [] else Rects(items[0]) + RectsAll(items[1..])
  }

  /** The rectangles drawn by a command sequence. */
  function Drawn(cmds: seq<Command>): seq<Command>
  {
    if |cmds| == 0 then []
    else (if cmds[0].DrawRect? then [cmds[0]] else []) + Drawn(cmds[1..])
  }

  lemma {:induction false} DrawnAppend(a: seq<Command>, b: seq<Command>)
    ensures Drawn(a + b) == Drawn(a) + Drawn(b)
  {
    if |a| > 0 {
      assert (a + b)[1..] == a[1..] + b;
      DrawnAppend(a[1..], b);
    } else {
      assert a + b == b;
    }
  }

  lemma {:induction false} DrawnOfDraws(cmds: seq<Command>)
    requires forall i :: 0 <= i < |cmds| ==> cmds[i].DrawRect?
    ensures Drawn(cmds) == cmds
  {
    if |cmds| > 0 {
      DrawnOfDraws(cmds[1..]);
    }
  }

  lemma {:induction false} DrawnOfNonDraws(cmds: seq<Command>)
    requires forall i :: 0 <= i < |cmds| ==> !cmds[i].DrawRect?
    ensures Drawn(cmds) == []
  {
    if |cmds| > 0 {
      DrawnOfNonDraws(cmds[1..]);
    }
  }

  /** The rectangles the export draws are exactly the item's rectangles,
      each once, in walk order. */
  lemma {:induction false} WalkDrawsEachRect(e: Element)
    decreases e, 1
    ensures Drawn(Walk(e)) == RectDraws(Rects(e))
  {
    match e
    case Group(members) => WalkAllDrawsEachRect(members);
    case Shape(_, _, _, _, _, _, _, _) =>
      if IsRect(e) {
        var cmds := RectCommands(e);
        assert cmds == cmds[..3] + [cmds[3]];
        DrawnAppend(cmds[..3], [cmds[3]]);
        DrawnOfNonDraws(cmds[..3]);
        DrawnOfDraws([cmds[3]]);
      }
    case Unknown =>
  }

  lemma {:induction false} WalkAllDrawsEachRect(items: seq<Element>)
    decreases items, 0
    ensures Drawn(WalkAll(items)) == RectDraws(RectsAll(items))
  {
    if |items| > 0 {
      WalkDrawsEachRect(items[0]);
      WalkAllDrawsEachRect(items[1..]);
      DrawnAppend(Walk(items[0]), WalkAll(items[1..]));
      RectDrawsAppend(Rects(items[0]), RectsAll(items[1..]));
    }
  }

  /** The DrawRect command each rectangle of rs produces. */
  function RectDraws(rs: seq<Element>): (draws: seq<Command>)
    requires forall i :: 0 <= i < |rs| ==> rs[i].Shape?
    ensures |draws| == |rs|
    ensures forall i :: 0 <= i < |rs| ==>
      draws[i].DrawRect? && draws[i].x == rs[i].x && draws[i].y == rs[i].y &&
      draws[i].width == rs[i].width && draws[i].height == rs[i].height && IsStyle(draws[i].style)
  {
    if |rs| == 0 then [] else [RectCommands(rs[0])[3]] + RectDraws(rs[1..])
  }

  lemma {:induction false} RectDrawsAppend(a: seq<Element>, b: seq<Element>)
    requires forall i :: 0 <= i < |a| ==> a[i].Shape?
    requires forall i :: 0 <= i < |b| ==> b[i].Shape?
    ensures RectDraws(a + b) == RectDraws(a) + RectDraws(b)
  {
    if |a| > 0 {
      assert (a + b)[1..] == a[1..] + b;
      RectDrawsAppend(a[1..], b);
    } else {
      assert a + b == b;
    }
  }
}
