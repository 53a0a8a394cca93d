/** Reading a tagged corner back: the two "/"-separated fields the face loop appended name the
    face they were appended to, and taking them off gives back the corner as it was. */
module CornerTags {
  import opened Results
  import opened Decimal
  import opened TangentPatch

  /** s split at its last occurrence of c: what comes before it and what comes after it. */
  function SplitAtLast(s: string, c: char): (r: Option<(string, string)>)
    ensures r.None? <==> c !in s
    ensures r.Some? ==> r.value.0 + [c] + r.value.1 == s && c !in r.value.1
  {
    if s == [] then None
    else if s[|s| - 1] == c then
      assert s[..|s| - 1] + [c] + [] == s;
      Some((s[..|s| - 1], []))
    else match SplitAtLast(s[..|s| - 1], c)
      case None =>
        assert s == s[..|s| - 1] + [s[|s| - 1]];
        None
      case Some((x, y)) =>
        assert s == s[..|s| - 1] + [s[|s| - 1]];
        Some((x, y + [s[|s| - 1]]))
  }

  /** The split finds the separator put in last. */
  lemma {:induction false} SplitAtLastAppended(x: string, c: char, y: string)
    requires c !in y
    ensures SplitAtLast(x + [c] + y, c) == Some((x, y))
    decreases |y|
  {
    var s := x + [c] + y;
    if y == [] {
      assert s[..|s| - 1] == x;
    } else {
      var y' := y[..|y| - 1];
      assert s[..|s| - 1] == x + [c] + y';
      assert s[|s| - 1] == y[|y| - 1];
      SplitAtLastAppended(x, c, y');
      assert y' + [y[|y| - 1]] == y;
    }
  }

  /** A corner with its tag taken off: the corner as it was and the two indices the tag names,
      or None when the text does not end in "/digits/digits". */
  function Untag(corner: string): (r: Option<(string, nat, nat)>)
    ensures r.Some? ==> exists d1, d2 :: AllDigits(d1) && AllDigits(d2) && corner == r.value.0 + "/" + d1 + "/" + d2
  {
    match SplitAtLast(corner, '/')
    case None => None
    case Some((front, second)) =>
      match SplitAtLast(front, '/')
      case None => None
      case Some((base, first)) =>
        if first != [] && second != [] && AllDigits(first) && AllDigits(second) then
          assert corner == base + "/" + first + "/" + second;
          Some((base, ValueOf(first), ValueOf(second)))
        else None
  }

  /** The tag the face loop appends to a corner of face k reads back as k twice, and taking it
      off gives back the corner. */
  lemma {:induction false} UntagTag(corner: string, k: nat)
    ensures Untag(corner + Tag(k)) == Some((corner, k, k))
  {
    var d := Dec(k);
    assert '/' !in d by {
      forall i | 0 <= i < |d| ensures d[i] != '/' {
        assert IsDigit(d[i]);
      }
    }
    assert corner + Tag(k) == (corner + "/" + d) + ['/'] + d;
    SplitAtLastAppended(corner + "/" + d, '/', d);
    assert corner + "/" + d == corner + ['/'] + d;
    SplitAtLastAppended(corner, '/', d);
    ValueOfDec(k);
  }

  /** So the tags of different faces differ, whatever the corners. */
  lemma {:induction false} TagsDistinguishFaces(c1: string, c2: string, k1: nat, k2: nat)
    requires c1 + Tag(k1) == c2 + Tag(k2)
    ensures c1 == c2 && k1 == k2
  {
    UntagTag(c1, k1);
    UntagTag(c2, k2);
  }
}
