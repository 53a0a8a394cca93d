/** The searches glb_write_tangent_space runs over the model file's text: std::string::find of a
    two-character marker, and its own cursor loops for the end of the normals, the first face
    line and the space that ends a face corner. */
module TextScan {
  import opened Results

  /** Characters a and b stand at p and p+1. */
  predicate PairAt(s: string, p: int, a: char, b: char) {
    0 <= p && p + 1 < |s| && s[p] == a && s[p + 1] == b
  }

  /** std::string::find of the two-character string [a, b] starting at `from`: the first p >= from
      where it stands, or -1 (npos stored in an int32_t) when there is none. */
  function FindPair(s: string, from: nat, a: char, b: char): (r: int)
    ensures r == -1 || (from <= r && PairAt(s, r, a, b))
    ensures forall p :: from <= p && (r == -1 || p < r) ==> !PairAt(s, p, a, b)
    decreases |s| - from
  {
    if from + 1 >= |s| then -1
    else if s[from] == a && s[from + 1] == b then from
    else FindPair(s, from + 1, a, b)
  }

  /** The first index at or after `from` holding c, or -1 when there is none. */
  function FindChar(s: string, from: nat, c: char): (r: int)
    ensures r == -1 || (from <= r < |s| && s[r] == c)
    ensures forall p :: from <= p < |s| && (r == -1 || p < r) ==> s[p] != c
    decreases |s| - from
  {
    if from >= |s| then -1
    else if s[from] == c then from
    else FindChar(s, from + 1, c)
  }

  /** Where the repeated find of "vn" leaves its cursor when it starts at `from`: two past the last
      "vn" at or after `from`, or `from` itself when there is none. */
  function NormalCursorFrom(s: string, from: nat): (r: nat)
    requires from <= |s|
    ensures r <= |s|
    ensures (r == from && forall p :: from <= p ==> !PairAt(s, p, 'v', 'n'))
         || (from + 2 <= r && PairAt(s, r - 2, 'v', 'n') && forall p :: r - 2 < p ==> !PairAt(s, p, 'v', 'n'))
    decreases |s| - from
  {
    var pos := FindPair(s, from, 'v', 'n');
    if pos == -1 then from else NormalCursorFrom(s, pos + 2)
  }

  /** The cursor after the "vn" loop: two past the start of the last "vn" in the text, 0 if none. */
  function NormalCursor(s: string): (r: nat)
    ensures r <= |s|
    ensures (r == 0 && forall p :: !PairAt(s, p, 'v', 'n'))
         || (2 <= r && PairAt(s, r - 2, 'v', 'n') && forall p :: r - 2 < p ==> !PairAt(s, p, 'v', 'n'))
  {
    NormalCursorFrom(s, 0)
  }

  /** The "vn" loop (glb_tbn_gen.cpp:306-314): find "vn" again and again, each time from two
      past the previous hit, until there is none. */
  method ScanLastNormal(data: string) returns (cursor: nat)
    ensures cursor == NormalCursor(data)
  {
    cursor := 0;
    while true
      invariant cursor <= |data|
      invariant NormalCursorFrom(data, cursor) == NormalCursorFrom(data, 0)
      decreases |data| - cursor
    {
      var pos := FindPair(data, cursor, 'v', 'n');
      if pos == -1 {
        break;
      }
      cursor := pos + 2;
    }
  }

  /** Where the attribute block goes: just past the first "\n\n" at or after `from`; None when
      there is no such pair. */
  function BlankLineEnd(s: string, from: nat): (r: Option<nat>)
    ensures r.None? <==> forall p :: from <= p ==> !PairAt(s, p, '\n', '\n')
    ensures r.Some? ==> from + 2 <= r.value <= |s| && PairAt(s, r.value - 2, '\n', '\n')
    ensures r.Some? ==> forall p :: from <= p < r.value - 2 ==> !PairAt(s, p, '\n', '\n')
  {
    var q := FindPair(s, from, '\n', '\n');
    if q == -1 then None else Some(q + 2)
  }

  /** The blank-line loop (glb_tbn_gen.cpp:316-324) moves one character at a time until it sees
      "\n\n". The source never checks the end of the text; here running out of text is None. */
  method ScanBlankLine(data: string, from: nat) returns (r: Option<nat>)
    ensures r == BlankLineEnd(data, from)
  {
    var pos := from;
    while true
      invariant from <= pos
      invariant forall p :: from <= p < pos ==> !PairAt(data, p, '\n', '\n')
      decreases |data| - pos
    {
      if pos + 1 >= |data| {
        return None;
      }
      if data[pos] == '\n' && data[pos + 1] == '\n' {
        assert PairAt(data, pos, '\n', '\n');
        return Some(pos + 2);
      }
      pos := pos + 1;
    }
  }

  /** Where the face loop starts: the first '\n' followed by 'f'; when there is none, the last
      index of the text (0 for an empty text). */
  function FaceSectionStart(s: string): (r: nat)
    ensures forall p :: 0 <= p < r ==> !PairAt(s, p, '\n', 'f')
    ensures PairAt(s, r, '\n', 'f') || (r == (if |s| == 0 then 0 else |s| - 1) && forall p :: !PairAt(s, p, '\n', 'f'))
  {
    var p := FindPair(s, 0, '\n', 'f');
    if p == -1 then (if |s| == 0 then 0 else |s| - 1) else p
  }

  /** The face-start loop (glb_tbn_gen.cpp:329-340), which stops at length-1 at the latest. */
  method ScanFaceStart(data: string) returns (facePos: nat)
    ensures facePos == FaceSectionStart(data)
  {
    facePos := 0;
    while true
      invariant forall p :: 0 <= p < facePos ==> !PairAt(data, p, '\n', 'f')
      invariant facePos == 0 || facePos < |data|
      decreases |data| - facePos
    {
      if facePos + 1 < |data| {
        if data[facePos] == '\n' && data[facePos + 1] == 'f' {
          assert PairAt(data, facePos, '\n', 'f');
          break;
        } else {
          facePos := facePos + 1;
        }
      } else {
        break;
      }
    }
  }
}

/** Texts in which no line starts with 'f', so the face-start loop cannot stop inside them. */
module FaceFree {
  import opened TextScan

  ghost predicate NoFaceStart(s: string) {
    forall p :: !PairAt(s, p, '\n', 'f')
  }

  /** A face start in x + y lies inside x, inside y, or across the seam. */
  lemma {:induction false} NoFaceStartConcat(x: string, y: string)
    requires NoFaceStart(x) && NoFaceStart(y)
    requires x == [] || y == [] || x[|x| - 1] != '\n' || y[0] != 'f'
    ensures NoFaceStart(x + y)
  {
    forall p | 0 <= p < |x| + |y| - 1 ensures !PairAt(x + y, p, '\n', 'f') {
      if p + 1 < |x| {
        assert !PairAt(x, p, '\n', 'f');
      } else if p >= |x| {
        assert !PairAt(y, p - |x|, '\n', 'f');
      }
    }
  }

  /** A line with no newline but the one that ends it. */
  lemma {:induction false} NoFaceStartLine(body: string)
    requires '\n' !in body
    ensures NoFaceStart(body + "\n")
  {
    forall p | 0 <= p < |body| ensures (body + "\n")[p] != '\n' {
      assert (body + "\n")[p] == body[p];
    }
  }

  /** Cutting a text keeps it free of face starts. */
  lemma {:induction false} NoFaceStartSlice(s: string, i: nat, j: nat)
    requires NoFaceStart(s) && i <= j <= |s|
    ensures NoFaceStart(s[i..j])
  {
    forall p | 0 <= p < j - i - 1 ensures !PairAt(s[i..j], p, '\n', 'f') {
      assert !PairAt(s, i + p, '\n', 'f');
    }
  }
}
