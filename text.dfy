/** Searching and cutting strings at a separator character. */
module Text {
  import opened Options

  /** indexOf: the position of the first c in s. */
  function IndexOf(s: string, c: char): (i: Option<nat>)
    ensures i.None? <==> c !in s
    ensures i.Some? ==> i.value < |s| && s[i.value] == c && c !in s[..i.value]
  {
    if |s| == 0 then None
    else if s[0] == c then Some(0)
    else match IndexOf(s[1..], c)
      case None => None
      case Some(k) =>
        assert s[..k + 1] == [s[0]] + s[1..][..k];
        Some(k + 1)
  }

  /** s.split(c)[0]: everything before the first c. */
  function Before(s: string, c: char): (head: string)
    ensures c !in head
    ensures c !in s ==> head == s
    ensures c in s ==> |head| < |s| && s[..|head| + 1] == head + [c]
  {
    match IndexOf(s, c)
    case None => s
    case Some(i) => s[..i]
  }

  /** s.split(c)[1]: the piece after the first c, if there is a c. */
  function SecondPiece(s: string, c: char): (piece: Option<string>)
    ensures piece.None? <==> c !in s
    ensures piece.Some? ==> c !in piece.value
  {
    match IndexOf(s, c)
    case None => None
    case Some(i) => Some(Before(s[i + 1..], c))
  }

  /** Where the text before the first c is known, both pieces are. */
  lemma {:induction false} PiecesOf(a: string, c: char, b: string)
    requires c !in a
    ensures IndexOf(a + [c] + b, c) == Some(|a|)
    ensures Before(a + [c] + b, c) == a
    ensures SecondPiece(a + [c] + b, c) == Some(Before(b, c))
  {
    var s := a + [c] + b;
    if |a| > 0 {
      assert s[1..] == a[1..] + [c] + b;
      PiecesOf(a[1..], c, b);
    }
    assert s[..|a|] == a;
    assert s[|a| + 1..] == b;
  }
}
