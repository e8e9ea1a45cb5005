/** The page-key codec of pages.php (getPageKeyFromID / getIDFromPageKey):
    a page's row id written as a base-52 numeral over a fixed alphabet,
    most significant digit first. */
module PageKeyCodec {
  import opened Options

  const Base := 52

  /** $ALLOWED_PAGEKEY_CHARS[k]: the alphabet is 'a'..'z' followed by
      'A'..'Z', so position k holds this character. */
  function Letter(k: int): char
  {
    if 0 <= k < 26 then ('a' as int + k) as char
    else if 26 <= k < 52 then ('A' as int + (k - 26)) as char
    else 'a'
  }

  /** The characters of the key alphabet. */
  predicate IsKeyChar(c: char) { 'a' <= c <= 'z' || 'A' <= c <= 'Z' }

  /** strpos($ALLOWED_PAGEKEY_CHARS, c): the position of c in the alphabet,
      or None (PHP's false) when c is not a key character. */
  function StrPos(c: char): (r: Option<nat>)
    ensures r.Some? ==> r.value < Base && Letter(r.value) == c
    ensures r.None? <==> !IsKeyChar(c)
  {
    if 'a' <= c <= 'z' then Some(c as int - 'a' as int)
    else if 'A' <= c <= 'Z' then Some(c as int - 'A' as int + 26)
    else None
  }

  /** The digit a character stands for when it is used in arithmetic:
      PHP turns a false from strpos into 0. */
  function Digit(c: char): (d: nat)
    ensures d < Base
  {
    match StrPos(c)
    case Some(k) => k
    case None => 0
  }

  function Pow(b: nat, e: nat): nat
  {
    if e == 0 then 1 else b * Pow(b, e - 1)
  }

  /** The value of a key read as a base-52 numeral. */
  function Value(key: string): nat
  {
    if |key| == 0 then 0 else Value(key[..|key| - 1]) * Base + Digit(key[|key| - 1])
  }

  /** The key getPageKeyFromID produces for a row id. */
  function Encode(n: nat): (key: string)
    ensures |key| >= 1
    ensures |key| == 1 <==> n < Base
    ensures key[0] == Letter(0) ==> n == 0
    ensures forall i :: 0 <= i < |key| ==> IsKeyChar(key[i])
  {
    if n < Base then [Letter(n)]
    else Encode(n / Base) + [Letter(n % Base)]
  }

  /** What getIDFromPageKey returns: None stands for PHP's false, which it
      returns for the empty string (strpos with an empty needle) and for a
      one-character key outside the alphabet.  A foreign character anywhere
      else counts as the digit 0, because false + int and false * int are
      integers in PHP. */
  function Decode(key: string): Option<nat>
  {
    if |key| == 0 then None
    else if |key| == 1 && StrPos(key[0]).None? then None
    else Some(Value(key))
  }

  /** A key exactly as Encode writes it: alphabet characters only, and no
      leading 'a' unless the key is "a" itself. */
  predicate IsCanonicalKey(key: string)
  {
    |key| >= 1 && (forall i :: 0 <= i < |key| ==> IsKeyChar(key[i])) &&
    (key[0] != Letter(0) || |key| == 1)
  }

  /** getPageKeyFromID, with its while loop over $integer and $out. */
  method GetPageKeyFromId(integer: nat) returns (key: string)
    ensures key == Encode(integer)
  {
    var rest: nat := integer;
    var out := "";
    while rest > Base - 1
      invariant Encode(rest) + out == Encode(integer)
      decreases rest
    {
      out := [Letter(rest % Base)] + out;
      rest := rest / Base;
    }
    key := [Letter(rest)] + out;
  }

  /** getIDFromPageKey: the last character first, then a foreach over the
      others, each weighted by pow($length, $size - $i). */
  method GetIdFromPageKey(key: string) returns (id: Option<nat>)
    ensures id == Decode(key)
  {
    if |key| == 0 {
      return None;
    }
    var size := |key| - 1;
    var outIsFalse := StrPos(key[size]).None?;
    var out := Digit(key[size]);
    for i := 0 to size
      invariant out == Digit(key[size]) + Pow(Base, size - i + 1) * Value(key[..i])
      invariant outIsFalse == (StrPos(key[size]).None? && i == 0)
    {
      PowStep(size - i);
      ValueStep(key, i);
      var p := Pow(Base, size - i);
      StepArithmetic(p, Value(key[..i]), Digit(key[i]));
      out := out + Digit(key[i]) * p;
      outIsFalse := false;
    }
    assert key[..size + 1] == key;
    id := if outIsFalse then None else Some(out);
  }

  lemma PowStep(e: nat)
    ensures Pow(Base, e + 1) == Base * Pow(Base, e)
  {
  }

  lemma ValueStep(key: string, i: nat)
    requires i < |key|
    ensures Value(key[..i + 1]) == Value(key[..i]) * Base + Digit(key[i])
  {
    assert key[..i + 1][..i] == key[..i];
  }

  lemma StepArithmetic(p: nat, v: nat, d: nat)
    ensures Base * p * v + d * p == p * (v * Base + d)
  {
  }

  /** Reading a key back gives the id it was made from. */
  lemma {:induction false} ValueOfEncode(n: nat)
    ensures Value(Encode(n)) == n
  {
    if n >= Base {
      var k := Encode(n);
      assert k[..|k| - 1] == Encode(n / Base);
      ValueOfEncode(n / Base);
    }
  }

  lemma RoundTrip(n: nat)
    ensures Decode(Encode(n)) == Some(n)
  {
    ValueOfEncode(n);
  }

  /** Distinct ids never share a key. */
  lemma EncodeInjective(m: nat, n: nat)
    requires Encode(m) == Encode(n)
    ensures m == n
  {
    RoundTrip(m);
    RoundTrip(n);
  }

  lemma {:induction false} LeadingDigitNonZero(key: string)
    requires |key| >= 1 && IsKeyChar(key[0]) && key[0] != Letter(0)
    ensures Value(key) >= 1
  {
    if |key| > 1 {
      LeadingDigitNonZero(key[..|key| - 1]);
    }
  }

  /** Every canonical key is the key of the id it decodes to, so the codec
      is a bijection between ids and canonical keys. */
  lemma {:induction false} EncodeOfValue(key: string)
    requires IsCanonicalKey(key)
    ensures Encode(Value(key)) == key
  {
    if |key| > 1 {
      var p := key[..|key| - 1];
      var c := key[|key| - 1];
      assert IsCanonicalKey(p);
      LeadingDigitNonZero(p);
      EncodeOfValue(p);
      var n := Value(key);
      assert n / Base == Value(p) && n % Base == Digit(c);
      assert key == p + [c];
    }
  }

  /** An id below Base^k has a key of at most k characters. */
  lemma {:induction false} EncodeLength(n: nat, k: nat)
    requires k >= 1 && n < Pow(Base, k)
    ensures |Encode(n)| <= k
  {
    if n >= Base {
      assert k >= 2;
      assert n / Base < Pow(Base, k - 1);
      EncodeLength(n / Base, k - 1);
    }
  }

  lemma PowTwelve()
    ensures Pow(Base, 12) == 390877006486250192896
  {
    assert Pow(Base, 1) == 52;
    assert Pow(Base, 2) == 2704;
    assert Pow(Base, 3) == 140608;
    assert Pow(Base, 4) == 7311616;
    assert Pow(Base, 5) == 380204032;
    assert Pow(Base, 6) == 19770609664;
    assert Pow(Base, 7) == 1028071702528;
    assert Pow(Base, 8) == 53459728531456;
    assert Pow(Base, 9) == 2779905883635712;
    assert Pow(Base, 10) == 144555105949057024;
    assert Pow(Base, 11) == 7516865509350965248;
  }

  /** A key of k 'Z's, the last letter of the alphabet, is worth Base^k - 1. */
  lemma {:induction false} TopKeyValue(key: string)
    requires forall i :: 0 <= i < |key| ==> key[i] == 'Z'
    ensures Value(key) == Pow(Base, |key|) - 1
  {
    if |key| > 0 {
      TopKeyValue(key[..|key| - 1]);
      assert Digit(key[|key| - 1]) == Base - 1;
    }
  }

  lemma DecodeCanonical(key: string)
    requires IsCanonicalKey(key)
    ensures Decode(key).Some? && Encode(Decode(key).value) == key
  {
    EncodeOfValue(key);
  }
}
