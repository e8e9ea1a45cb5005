/** The request-parameter checks of pages.php and the JSONP wrapping of its
    responses, with PHP 7.0's rules for numeric strings written out (its
    (int) of a string reads only the leading digit run). */
module RequestValidation {
  import opened Options
  import opened Decimal

  /** PHP_INT_MAX and PHP_INT_MIN on a 64-bit build. */
  const IntMax: int := 0x7FFF_FFFF_FFFF_FFFF
  const IntMin: int := -0x8000_0000_0000_0000

  // ---------------------------------------------------------------------
  // PHP numeric strings

  /** The characters PHP skips in front of a number: space, tab, line feed,
      carriage return, vertical tab and form feed. */
  predicate IsPhpSpace(c: char)
  {
    c == ' ' || c == '\t' || c == '\n' || c == '\r' || c == 11 as char || c == 12 as char
  }

  /** How many whitespace characters s starts with. */
  function LeadingSpaces(s: string): (n: nat)
    ensures n <= |s|
    ensures forall i :: 0 <= i < n ==> IsPhpSpace(s[i])
    ensures n < |s| ==> !IsPhpSpace(s[n])
  {
    if |s| > 0 && IsPhpSpace(s[0]) then 1 + LeadingSpaces(s[1..]) else 0
  }

  /** How many digits s starts with. */
  function DigitRun(s: string): (n: nat)
    ensures n <= |s|
    ensures forall i :: 0 <= i < n ==> IsDigit(s[i])
    ensures n < |s| ==> !IsDigit(s[n])
  {
    if |s| > 0 && IsDigit(s[0]) then 1 + DigitRun(s[1..]) else 0
  }

  /** s without its sign character, if it starts with one. */
  function DropSign(s: string): string
  {
    if |s| > 0 && (s[0] == '+' || s[0] == '-') then s[1..] else s
  }

  /** Nothing, or 'e'/'E', an optional sign and at least one digit. */
  predicate IsExponentPart(s: string)
  {
    s == [] || ((s[0] == 'e' || s[0] == 'E') && |DropSign(s[1..])| > 0 && AllDigits(DropSign(s[1..])))
  }

  /** Digits with an optional fraction, or a fraction alone, then an
      optional exponent, and nothing after that. */
  predicate IsUnsignedDecimal(s: string)
  {
    var m := DigitRun(s);
    if m < |s| && s[m] == '.' then
      var f := DigitRun(s[m + 1..]);
      m + f > 0 && IsExponentPart(s[m + 1 + f..])
    else
      m > 0 && IsExponentPart(s[m..])
  }

  /** is_numeric on a string: leading whitespace, an optional sign, then an
      unsigned decimal (PHP 7 refuses trailing whitespace and hexadecimal). */
  predicate IsNumeric(s: string)
  {
    IsUnsignedDecimal(DropSign(s[LeadingSpaces(s)..]))
  }

  /** A value brought into the integer range by capping it at its ends. */
  function Saturate(n: int): (r: int)
    ensures IntMin <= r <= IntMax
    ensures IntMin <= n <= IntMax ==> r == n
  {
    if n > IntMax then IntMax else if n < IntMin then IntMin else n
  }

  /** intval($s) and (int)$s: leading whitespace and one sign are read, then
      the longest run of digits; whatever follows is ignored, and a value
      beyond the integer range is capped. */
  function IntVal(s: string): (r: int)
    ensures IntMin <= r <= IntMax
  {
    var t := s[LeadingSpaces(s)..];
    var d := DropSign(t);
    var magnitude: int := DigitsValue(d[..DigitRun(d)]);
    if |t| > 0 && t[0] == '-' then Saturate(-magnitude) else Saturate(magnitude)
  }

  /** ltrim($s, '-'): every leading '-' removed. */
  function TrimLeadingMinus(s: string): (r: string)
    ensures |r| <= |s| && r == s[|s| - |r|..]
    ensures forall i :: 0 <= i < |s| - |r| ==> s[i] == '-'
    ensures |r| > 0 ==> r[0] != '-'
  {
    if |s| > 0 && s[0] == '-' then TrimLeadingMinus(s[1..]) else s
  }

  /** isPositiveOrZeroInteger on a request string. */
  predicate IsPositiveOrZeroInteger(v: string)
  {
    IsNumeric(v) && IntToString(IntVal(v)) == TrimLeadingMinus(v) && IntVal(v) >= 0
  }

  /** isInteger on a request string. */
  predicate IsInteger(v: string)
  {
    IsNumeric(v) && IntToString(IntVal(v)) == v
  }

  lemma {:induction false} DigitRunOfDigits(s: string)
    requires AllDigits(s)
    ensures DigitRun(s) == |s|
  {
    if |s| > 0 {
      DigitRunOfDigits(s[1..]);
    }
  }

  /** A numeral is numeric and intval reads its value (capped to the
      integer range). */
  lemma IntValOfNumeral(s: string)
    requires IsCanonical(s)
    ensures IsNumeric(s) && IntVal(s) == Saturate(DigitsValue(s))
  {
    DigitRunOfDigits(s);
    assert LeadingSpaces(s) == 0 && DropSign(s) == s;
    assert s[..|s|] == s;
    assert IsExponentPart(s[|s|..]);
  }

  /** The same numeral with a '-' in front is numeric and intval reads its
      negated value. */
  lemma IntValOfNegatedNumeral(s: string)
    requires IsCanonical(s)
    ensures IsNumeric("-" + s) && IntVal("-" + s) == Saturate(0 - DigitsValue(s))
  {
    var m := "-" + s;
    DigitRunOfDigits(s);
    assert LeadingSpaces(m) == 0;
    assert m[0..] == m && DropSign(m) == s;
    assert s[..|s|] == s;
    assert IsExponentPart(s[|s|..]);
  }

  /** A numeric string has at most one '-' in front. */
  lemma NumericSingleMinus(v: string)
    requires IsNumeric(v) && |v| > 0 && v[0] == '-'
    ensures |v| > 1 && v[1] != '-'
  {
  }

  /** What isPositiveOrZeroInteger accepts is "-0" or a numeral without
      leading zeros in the integer range. */
  lemma PositiveOrZeroIntegerAccepts(v: string)
    requires IsPositiveOrZeroInteger(v)
    ensures v == "-0" || (IsCanonical(v) && DigitsValue(v) <= IntMax)
  {
    var k := IntVal(v);
    var w := TrimLeadingMinus(v);
    assert k >= 0 && IntToString(k) == w;
    assert w == NatToString(k);
    ValueOfNatToString(k);
    if |v| > 0 && v[0] == '-' {
      NumericSingleMinus(v);
      SignedAcceptedIsMinusZero(v, w, k);
    }
  }

  /** A '-' in front passes only for zero: "-5" is read as -5. */
  lemma SignedAcceptedIsMinusZero(v: string, w: string, k: int)
    requires |v| > 1 && v[0] == '-' && v[1] != '-'
    requires k == IntVal(v) >= 0 && w == TrimLeadingMinus(v) == NatToString(k)
    ensures v == "-0"
  {
    assert w == v[1..];
    assert v == "-" + w;
    IntValOfNegatedNumeral(w);
    ValueOfNatToString(k);
    SaturatedNegationIsZero(k);
    assert w == NatToString(0);
  }

  lemma SaturatedNegationIsZero(k: int)
    requires k >= 0 && Saturate(0 - k) == k
    ensures k == 0
  {
  }

  /** isPositiveOrZeroInteger accepts exactly "-0" and the numerals without
      leading zeros whose value fits the integer range: so "+5", " 5",
      "5.0", "1e3", "05" and "-5" are all refused. */
  lemma PositiveOrZeroIntegerExactly(v: string)
    ensures IsPositiveOrZeroInteger(v) <==> v == "-0" || (IsCanonical(v) && DigitsValue(v) <= IntMax)
  {
    if IsPositiveOrZeroInteger(v) {
      PositiveOrZeroIntegerAccepts(v);
    }
    if v == "-0" {
      MinusZeroAccepted();
    } else if IsCanonical(v) && DigitsValue(v) <= IntMax {
      NumeralAccepted(v);
    }
  }

  lemma MinusZeroAccepted()
    ensures IsPositiveOrZeroInteger("-0") && IntVal("-0") == 0
  {
    IntValOfNegatedNumeral("0");
    assert "-0" == "-" + "0";
    assert IsNumeric("-0") && IntVal("-0") == 0;
    assert IntToString(0) == "0" == TrimLeadingMinus("-0");
  }

  lemma NumeralAccepted(v: string)
    requires IsCanonical(v) && DigitsValue(v) <= IntMax
    ensures IsPositiveOrZeroInteger(v)
  {
    IntValOfNumeral(v);
    var n := IntVal(v);
    assert n == DigitsValue(v);
    NatToStringOfValue(v);
    assert IntToString(n) == NatToString(n) == v;
    assert IsDigit(v[0]);
    assert TrimLeadingMinus(v) == v;
  }

  /** isInteger accepts exactly what IntToString prints for a value in the
      integer range: "-5" passes, "-0" does not. */
  lemma IntegerExactly(v: string)
    ensures IsInteger(v) <==> ParseInt(v).Some? && IntMin <= ParseInt(v).value <= IntMax
  {
    if IsInteger(v) {
      IntRoundTrip(IntVal(v));
    }
    var p := ParseInt(v);
    if p.Some? && IntMin <= p.value <= IntMax {
      ParsedIsInteger(v, p.value);
    }
  }

  lemma ParsedIsInteger(v: string, n: int)
    requires ParseInt(v) == Some(n) && IntMin <= n <= IntMax
    ensures IsInteger(v)
  {
    ParseIntInverse(v, n);
    IntegerText(n);
  }

  /** The decimal text of every integer in range passes isInteger. */
  lemma IntegerText(n: int)
    requires IntMin <= n <= IntMax
    ensures IsInteger(IntToString(n))
  {
    if n < 0 {
      var w := NatToString(-n);
      assert IntToString(n) == "-" + w;
      ValueOfNatToString(-n);
      NegatedNumeralIsInteger(w);
    } else {
      ValueOfNatToString(n);
      NumeralIsInteger(NatToString(n));
    }
  }

  /* The two lemmas below take the range check as a premise, so that the
     64-bit bounds stay out of the reasoning about strings. */

  lemma NumeralIsInteger(w: string)
    requires IsCanonical(w) && Saturate(DigitsValue(w)) == DigitsValue(w)
    ensures IsInteger(w)
  {
    IntValOfNumeral(w);
    NatToStringOfValue(w);
    IntegerForm(w, DigitsValue(w));
  }

  lemma NegatedNumeralIsInteger(w: string)
    requires IsCanonical(w) && 0 < DigitsValue(w) && Saturate(0 - DigitsValue(w)) == 0 - DigitsValue(w)
    ensures IsInteger("-" + w)
  {
    IntValOfNegatedNumeral(w);
    NatToStringOfValue(w);
    IntegerForm("-" + w, 0 - DigitsValue(w));
  }

  lemma IntegerForm(v: string, n: int)
    requires IsNumeric(v) && IntVal(v) == n && IntToString(n) == v
    ensures IsInteger(v)
  {
  }

  /** Every value isPositiveOrZeroInteger accepts is also accepted by
      isInteger, except "-0". */
  lemma PositiveOrZeroIntegerIsInteger(v: string)
    requires IsPositiveOrZeroInteger(v) && v != "-0"
    ensures IsInteger(v) && IntVal(v) == DigitsValue(v)
  {
    PositiveOrZeroIntegerExactly(v);
    IntValOfNumeral(v);
    NatToStringOfValue(v);
  }

  // ---------------------------------------------------------------------
  // Page types

  /** $PAGE_TYPES: 0 undefined, 1 TicQR, 2 PaperChains. */
  predicate IsValidPageType(t: int)
  {
    t == 0 || t == 1 || t == 2
  }

  /** The type strings the 'updatetype' request lets through to a change of
      type: isPositiveOrZeroInteger first, then isValidPageType. */
  lemma PageTypeParameters(s: string)
    ensures IsPositiveOrZeroInteger(s) && IsValidPageType(IntVal(s)) <==> s == "0" || s == "1" || s == "2" || s == "-0"
  {
    if IsPositiveOrZeroInteger(s) && IsValidPageType(IntVal(s)) {
      PageTypeParameterAccepted(s);
    }
    if s == "0" || s == "1" || s == "2" || s == "-0" {
      PageTypeParameterPasses(s);
    }
  }

  lemma PageTypeParameterPasses(s: string)
    requires s == "0" || s == "1" || s == "2" || s == "-0"
    ensures IsPositiveOrZeroInteger(s) && IsValidPageType(IntVal(s))
  {
    if s == "-0" {
      MinusZeroAccepted();
    } else {
      SingleDigitAccepted(s);
    }
  }

  /** A single digit is accepted, and read as its own value. */
  lemma SingleDigitAccepted(s: string)
    requires |s| == 1 && IsDigit(s[0])
    ensures IsPositiveOrZeroInteger(s) && IntVal(s) == DigitVal(s[0])
  {
    assert IsCanonical(s);
    assert DigitsValue(s) == DigitVal(s[0]) by { assert s[..0] == []; }
    NumeralAccepted(s);
    IntValOfNumeral(s);
  }

  lemma PageTypeParameterAccepted(s: string)
    requires IsPositiveOrZeroInteger(s) && IsValidPageType(IntVal(s))
    ensures s == "0" || s == "1" || s == "2" || s == "-0"
  {
    PositiveOrZeroIntegerAccepts(s);
    if s != "-0" {
      IntValOfNumeral(s);
      assert IntVal(s) == DigitsValue(s);
      SmallNumeral(s);
    }
  }

  /** The numerals of 0, 1 and 2 are single digits. */
  lemma SmallNumeral(s: string)
    requires IsCanonical(s) && DigitsValue(s) <= 2
    ensures s == "0" || s == "1" || s == "2"
  {
    if |s| >= 2 {
      var p := s[..|s| - 1];
      assert p[0] == s[0] && AllDigits(p);
      LeadingNonZeroIsPositive(p);
      assert false;
    }
    assert s == [s[0]];
    assert DigitsValue(s) == DigitVal(s[0]) by { assert s[..0] == []; }
  }

  // ---------------------------------------------------------------------
  // JSONP callback names

  /** explode('.', s). */
  function Explode(s: string): (parts: seq<string>)
    ensures |parts| >= 1
    ensures forall p :: p in parts ==> '.' !in p
  {
    if |s| == 0 then [""]
    else
      var rest := Explode(s[1..]);
      if s[0] == '.' then [""] + rest else [[s[0]] + rest[0]] + rest[1..]
  }

  /** A string without a dot is a single part. */
  lemma {:induction false} ExplodeWithoutDot(s: string)
    requires '.' !in s
    ensures Explode(s) == [s]
  {
    if |s| > 0 {
      assert s[0] != '.';
      assert '.' !in s[1..];
      ExplodeWithoutDot(s[1..]);
      assert s == [s[0]] + s[1..];
    }
  }

  /** implode('.', parts). */
  function Implode(parts: seq<string>): string
  {
    if |parts| == 0 then ""
    else if |parts| == 1 then parts[0]
    else parts[0] + "." + Implode(parts[1..])
  }

  /** Splitting on '.' loses nothing. */
  lemma {:induction false} ImplodeExplode(s: string)
    ensures Implode(Explode(s)) == s
  {
    if |s| > 0 {
      var rest := Explode(s[1..]);
      ImplodeExplode(s[1..]);
      if s[0] == '.' {
        assert s == "." + s[1..];
      } else {
        ImplodeConsChar(s[0], rest);
        assert s == [s[0]] + s[1..];
      }
    }
  }

  /** A character in front of the first part is a character in front of
      the joined string. */
  lemma {:induction false} ImplodeConsChar(c: char, rest: seq<string>)
    requires |rest| >= 1
    ensures Implode([[c] + rest[0]] + rest[1..]) == [c] + Implode(rest)
  {
    var parts := [[c] + rest[0]] + rest[1..];
    var head := rest[0];
    assert parts[0] == [c] + head;
    if |rest| >= 2 {
      var tail := Implode(rest[1..]);
      assert parts[1..] == rest[1..];
      assert Implode(parts) == ([c] + head) + "." + tail;
      assert Implode(rest) == head + "." + tail;
    }
  }

  /** Every character of every part is a character of the input. */
  lemma {:induction false} ExplodeKeepsCharacters(s: string, p: string, c: char)
    requires p in Explode(s) && c in p
    ensures c in s
  {
    if |s| > 0 {
      var rest := Explode(s[1..]);
      if s[0] == '.' {
        assert p in rest;
        ExplodeKeepsCharacters(s[1..], p, c);
      } else if p == [s[0]] + rest[0] {
        if c != s[0] {
          assert c in rest[0];
          ExplodeKeepsCharacters(s[1..], rest[0], c);
        }
      } else {
        assert p in rest;
        ExplodeKeepsCharacters(s[1..], p, c);
      }
    }
  }

  predicate IsIdentifierStart(c: char)
  {
    'a' <= c <= 'z' || 'A' <= c <= 'Z' || c == '_' || c == '$'
  }

  predicate IsIdentifierPart(c: char)
  {
    IsIdentifierStart(c) || IsDigit(c)
  }

  /** The pattern ^[a-zA-Z_$][0-9a-zA-Z_$]*$ read as the authors meant it. */
  predicate IsPlainIdentifier(s: string)
  {
    |s| > 0 && IsIdentifierStart(s[0]) && forall i :: 1 <= i < |s| ==> IsIdentifierPart(s[i])
  }

  /** The same pattern as PCRE runs it: without the D modifier, '$' also
      matches just before a final line feed. */
  predicate MatchesIdentifierPattern(s: string)
  {
    IsPlainIdentifier(s) || (|s| > 1 && s[|s| - 1] == '\n' && IsPlainIdentifier(s[..|s| - 1]))
  }

  /** The keywords of ECMAScript 5.1 section 7.6.1.1. */
  const Keywords: set<string> := {
    "break", "do", "instanceof", "typeof", "case", "else", "new", "var", "catch", "finally",
    "return", "void", "continue", "for", "switch", "while", "debugger", "function", "this",
    "with", "default", "if", "throw", "delete", "in", "try"
  }

  /** The future reserved words of ECMAScript 5.1 section 7.6.1.2, with those
      reserved only in strict mode. */
  const FutureReservedWords: set<string> := {
    "class", "enum", "extends", "super", "const", "export", "import",
    "implements", "let", "private", "public", "yield", "interface", "package", "protected", "static"
  }

  /** The null and boolean literals (sections 7.8.1 and 7.8.2). */
  const LiteralNames: set<string> := {"null", "true", "false"}

  /** The $reserved list of isValidCallback. */
  const ReservedWords: set<string> := Keywords + FutureReservedWords + LiteralNames

  /** isValidCallback as written. */
  predicate IsValidCallbackAsWritten(callback: string)
  {
    forall p :: p in Explode(callback) ==> MatchesIdentifierPattern(p) && p !in ReservedWords
  }

  /** isValidCallback as intended: every dotted part a plain identifier that
      is not a reserved word. */
  predicate IsValidCallback(callback: string)
  {
    forall p :: p in Explode(callback) ==> IsPlainIdentifier(p) && p !in ReservedWords
  }

  /** The check as written lets the reserved word "new" through when a line
      feed follows it, so a response could start with "new\n(". */
  lemma ReservedWordPassesAsWritten()
    ensures IsValidCallbackAsWritten("new\n")
    ensures !IsValidCallback("new\n")
    ensures "new" in ReservedWords
  {
    var name := "new\n";
    ExplodeWithoutDot(name);
    assert |name| == 4 && name[3] == '\n' && name[..3] == "new";
    assert !IsIdentifierPart(name[3]);
    assert name in Explode(name) && !IsPlainIdentifier(name);
    assert IsPlainIdentifier("new");
    assert MatchesIdentifierPattern(name);
    LineFeedIsNeverReserved(name);
  }

  lemma LineFeedIsNeverReserved(s: string)
    requires |s| > 0 && s[|s| - 1] == '\n'
    ensures s !in ReservedWords
  {
    LineFeedIsNoKeyword(s);
    LineFeedIsNoFutureReservedWord(s);
    assert s !in LiteralNames;
  }

  lemma LineFeedIsNoKeyword(s: string)
    requires |s| > 0 && s[|s| - 1] == '\n'
    ensures s !in Keywords
  {
  }

  lemma LineFeedIsNoFutureReservedWord(s: string)
    requires |s| > 0 && s[|s| - 1] == '\n'
    ensures s !in FutureReservedWords
  {
  }

  /** The intended check is the written one with the line-feed case taken
      out; the two differ only on names that hold a line feed. */
  lemma CallbackChecksAgree(callback: string)
    ensures IsValidCallback(callback) ==> IsValidCallbackAsWritten(callback)
    ensures '\n' !in callback ==> (IsValidCallbackAsWritten(callback) <==> IsValidCallback(callback))
  {
    if '\n' !in callback && IsValidCallbackAsWritten(callback) {
      forall p | p in Explode(callback)
        ensures IsPlainIdentifier(p)
      {
        if !IsPlainIdentifier(p) {
          ExplodeKeepsCharacters(callback, p, p[|p| - 1]);
        }
      }
    }
  }

  // ---------------------------------------------------------------------
  // Responses

  /** What htmlspecialchars writes for one character, with PHP 7's default
      flags: '&', '"', '<' and '>' become entities. */
  function EscapeChar(c: char): string
  {
    if c == '&' then "&amp;" else if c == '"' then "&quot;"
    else if c == '<' then "&lt;" else if c == '>' then "&gt;" else [c]
  }

  /** htmlspecialchars. */
  function HtmlSpecialChars(s: string): string
  {
    if |s| == 0 then "" else EscapeChar(s[0]) + HtmlSpecialChars(s[1..])
  }

  lemma {:induction false} HtmlSpecialCharsAppend(a: string, b: string)
    ensures HtmlSpecialChars(a + b) == HtmlSpecialChars(a) + HtmlSpecialChars(b)
  {
    if |a| == 0 {
      assert a + b == b;
    } else {
      assert (a + b)[0] == a[0] && (a + b)[1..] == a[1..] + b;
      HtmlSpecialCharsAppend(a[1..], b);
      calc {
        HtmlSpecialChars(a + b);
        EscapeChar(a[0]) + HtmlSpecialChars(a[1..] + b);
        EscapeChar(a[0]) + (HtmlSpecialChars(a[1..]) + HtmlSpecialChars(b));
        (EscapeChar(a[0]) + HtmlSpecialChars(a[1..])) + HtmlSpecialChars(b);
      }
    }
  }

  /** No character that htmlspecialchars rewrites. */
  predicate IsPlainText(s: string)
  {
    forall i :: 0 <= i < |s| ==> s[i] != '&' && s[i] != '"' && s[i] != '<' && s[i] != '>'
  }

  lemma {:induction false} HtmlSpecialCharsOfPlainText(s: string)
    requires IsPlainText(s)
    ensures HtmlSpecialChars(s) == s
  {
    if |s| > 0 {
      assert IsPlainText(s[1..]) by {
        forall i | 0 <= i < |s| - 1
          ensures s[1..][i] == s[i + 1]
        {
        }
      }
      HtmlSpecialCharsOfPlainText(s[1..]);
    }
  }

  /** A name the pattern accepts, final line feed included, is plain text. */
  lemma PatternMatchIsPlainText(p: string)
    requires MatchesIdentifierPattern(p)
    ensures IsPlainText(p)
  {
    if !IsPlainIdentifier(p) {
      var q := p[..|p| - 1];
      forall i | 0 <= i < |p|
        ensures p[i] != '&' && p[i] != '"' && p[i] != '<' && p[i] != '>'
      {
        if i < |p| - 1 {
          assert p[i] == q[i];
        }
      }
    }
  }

  lemma {:induction false} HtmlSpecialCharsOfImplode(parts: seq<string>)
    requires forall p :: p in parts ==> MatchesIdentifierPattern(p)
    ensures HtmlSpecialChars(Implode(parts)) == Implode(parts)
  {
    if |parts| > 0 {
      assert parts[0] in parts;
      PatternMatchIsPlainText(parts[0]);
      HtmlSpecialCharsOfPlainText(parts[0]);
      if |parts| > 1 {
        assert forall p :: p in parts[1..] ==> p in parts;
        HtmlSpecialCharsOfImplode(parts[1..]);
        HtmlSpecialCharsAppend(parts[0], ".");
        HtmlSpecialCharsAppend(parts[0] + ".", Implode(parts[1..]));
      }
    }
  }

  /** A name that passes the check, even as written, is printed unchanged by
      htmlspecialchars: a final line feed is not escaped. */
  lemma ValidCallbackIsUnescaped(callback: string)
    requires IsValidCallbackAsWritten(callback)
    ensures HtmlSpecialChars(callback) == callback
  {
    ImplodeExplode(callback);
    HtmlSpecialCharsOfImplode(Explode(callback));
  }

  /** The connection id echoed to the success callback: intval of the 'id'
      parameter, and intval(null) == 0 when it is absent. */
  function ConnectionId(id: Option<string>): int
  {
    if id.Some? then IntVal(id.value) else 0
  }

  /** The call of the 'success' function that precedes the callback: the
      name, unchanged by htmlspecialchars, called with the connection id,
      when the check as written accepts it; nothing otherwise. */
  function SuccessCall(success: Option<string>, id: Option<string>): (r: string)
    ensures success.Some? && IsValidCallbackAsWritten(success.value) ==>
      r == success.value + "(" + IntToString(ConnectionId(id)) + ");"
    ensures success.None? || !IsValidCallbackAsWritten(success.value) ==> r == ""
  {
    if success.Some? && IsValidCallbackAsWritten(success.value) then
      ValidCallbackIsUnescaped(success.value);
      HtmlSpecialChars(success.value) + "(" + IntToString(ConnectionId(id)) + ");"
    else ""
  }

  /** wrapCallback, with isValidCallback as written: a valid 'callback'
      turns the JSON text into a call of that function, preceded by the
      success call; otherwise the JSON text is sent as it is. */
  function WrapCallback(callback: Option<string>, success: Option<string>, id: Option<string>, json: string): (r: string)
    ensures callback.None? || !IsValidCallbackAsWritten(callback.value) ==> r == json
    ensures callback.Some? && IsValidCallbackAsWritten(callback.value) ==>
      r == SuccessCall(success, id) + callback.value + "(" + json + ");"
  {
    if callback.Some? && IsValidCallbackAsWritten(callback.value) then
      ValidCallbackIsUnescaped(callback.value);
      SuccessCall(success, id) + HtmlSpecialChars(callback.value) + "(" + json + ");"
    else
      json
  }

  /** The JSON text sits unchanged at the end of a wrapped response, inside
      the call's parentheses. */
  lemma WrappedJsonRecoverable(callback: string, success: Option<string>, id: Option<string>, json: string)
    requires IsValidCallbackAsWritten(callback)
    ensures var r := WrapCallback(Some(callback), success, id, json);
      |r| >= |json| + 2 + |callback| && r[|r| - |json| - 2..] == json + ");" && r[|r| - |json| - 3] == '('
  {
    CallEndsWithArguments(SuccessCall(success, id), callback, json);
  }

  /** prefix + name(args); ends with the arguments and the closing ");". */
  lemma CallEndsWithArguments(prefix: string, name: string, args: string)
    ensures var r := prefix + name + "(" + args + ");";
      |r| >= |args| + 2 + |name| && r[|r| - |args| - 2..] == args + ");" && r[|r| - |args| - 3] == '('
  {
    var head := prefix + name + "(";
    var r := head + args + ");";
    assert r == head + (args + ");");
    assert r[|head|..] == args + ");";
    assert r[|head| - 1] == head[|head| - 1] == '(';
  }

  /** As written, the reserved word "new" with a line feed is used as the
      callback: the response starts with "new", a line feed and "(". */
  lemma ReservedWordWrapped(callback: string, json: string)
    requires callback == "new\n"
    ensures WrapCallback(Some(callback), None, None, json) == callback + "(" + json + ");"
  {
    ReservedWordPassesAsWritten();
    WrapWithoutSuccess(callback, json);
  }

  lemma WrapWithoutSuccess(callback: string, json: string)
    requires IsValidCallbackAsWritten(callback)
    ensures WrapCallback(Some(callback), None, None, json) == callback + "(" + json + ");"
  {
    assert "" + callback == callback;
    assert WrapCallback(Some(callback), None, None, json) == "" + callback + "(" + json + ");";
  }

  /** For names without a line feed, wrapCallback behaves as the intended
      check says: a callback that is a dotted path of non-reserved
      identifiers wraps the JSON text, any other leaves it as it is. */
  lemma WrapCallbackWithoutLineFeed(callback: Option<string>, success: Option<string>, id: Option<string>, json: string)
    requires callback.Some? ==> '\n' !in callback.value
    requires success.Some? ==> '\n' !in success.value
    ensures callback.None? || !IsValidCallback(callback.value) ==> WrapCallback(callback, success, id, json) == json
    ensures callback.Some? && IsValidCallback(callback.value) ==>
      WrapCallback(callback, success, id, json) ==
        (if success.Some? && IsValidCallback(success.value)
         then success.value + "(" + IntToString(ConnectionId(id)) + ");"
         else "") + callback.value + "(" + json + ");"
  {
    if callback.Some? {
      CallbackChecksAgree(callback.value);
    }
    if success.Some? {
      CallbackChecksAgree(success.value);
    }
  }
}
