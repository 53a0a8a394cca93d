/** glb_write_tangent_space without its file I/O: it takes the text already read from the model
    file and returns the text to write back, or why it refuses. */
module TangentPatch {
  import opened Results
  import opened Geometry
  import opened Decimal
  import opened TextScan
  import opened Edits
  import opened Attributes

  /** What is spliced into each corner of face number k (1-based): "/k/k", the tangent index and
      the binormal index. */
  function Tag(k: nat): (t: string)
    ensures |t| == 2 + 2 * |Dec(k)|
    ensures ' ' !in t && '\n' !in t
  {
    assert AllDigits(Dec(k));
    "/" + Dec(k) + "/" + Dec(k)
  }

  /** The comment line added after the last face. */
  const Trailer: string := "# Reorganize by glb_tbn_gen\n"

  /** The text being rewritten and the face loop's cursor into it. */
  datatype Doc = Doc(text: string, cursor: nat)

  /** One corner of face number k: splice Tag(k) in before the first space at or after the
      cursor, and leave the cursor one past that space. Fails when no space is left. */
  function CornerSplice(doc: Doc, k: nat): (r: Result<Doc>)
    ensures r.Failure? ==> r.error == MalformedDocument
    ensures r.Success? ==> |r.value.text| == |doc.text| + |Tag(k)| && r.value.cursor <= |r.value.text|
  {
    var s := FindChar(doc.text, doc.cursor, ' ');
    if s == -1 then Failure(MalformedDocument)
    else Success(Doc(Insert(doc.text, s, Tag(k)), s + |Tag(k)| + 1))
  }

  /** What a corner splice does: it fails exactly when no space is left after the cursor;
      otherwise Tag(k) now stands right before the first such space, nothing else changed, the
      text grew by 2 + 2 * len(dec(k)) and the cursor is one past that space. */
  lemma {:induction false} CornerSpliceMeaning(doc: Doc, k: nat)
    ensures CornerSplice(doc, k).Failure? <==> forall p :: doc.cursor <= p < |doc.text| ==> doc.text[p] != ' '
    ensures CornerSplice(doc, k).Success? ==>
      var r := CornerSplice(doc, k).value;
      var s := r.cursor - |Tag(k)| - 1;
      doc.cursor <= s < |doc.text| && doc.text[s] == ' '
      && (forall p :: doc.cursor <= p < s ==> doc.text[p] != ' ')
      && r.text[..s] == doc.text[..s] && r.text[s..s + |Tag(k)|] == Tag(k) && r.text[s + |Tag(k)|..] == doc.text[s..]
      && r.text[r.cursor - 1] == ' '
      && |r.text| == |doc.text| + 2 + 2 * |Dec(k)|
  {
    var s := FindChar(doc.text, doc.cursor, ' ');
    if s != -1 {
      var t := Insert(doc.text, s, Tag(k));
      assert t == doc.text[..s] + Tag(k) + doc.text[s..];
      assert t[s + |Tag(k)|] == doc.text[s];
    }
  }

  /** A corner splice whose cursor reaches a space at `pos`. */
  lemma {:induction false} CornerSpliceAt(text: string, cursor: nat, pos: nat, k: nat)
    requires cursor <= pos < |text| && text[pos] == ' '
    requires forall p :: cursor <= p < pos ==> text[p] != ' '
    ensures CornerSplice(Doc(text, cursor), k) == Success(Doc(Insert(text, pos, Tag(k)), pos + |Tag(k)| + 1))
  {
    assert FindChar(text, cursor, ' ') == pos;
  }

  /** The four inserts of a corner splice put Tag(k) at `at`. */
  lemma {:induction false} TagInserts(s: string, at: nat, k: nat)
    requires at <= |s|
    ensures var d := Dec(k);
      Insert(Insert(Insert(Insert(s, at, "/"), at + 1, d), at + 1 + |d|, "/"), at + 2 + |d|, d)
        == Insert(s, at, Tag(k))
  {
    var d := Dec(k);
    InsertThenInsert(s, at, "/", d);
    InsertThenInsert(s, at, "/" + d, "/");
    InsertThenInsert(s, at, "/" + d + "/", d);
  }

  /** One corner loop of glb_tbn_gen.cpp:346-394: walk to the next space, then four inserts
      ('/', the number, '/', the number). The source never checks the end of the text; here
      running out of text is a MalformedDocument failure. */
  method SpliceCorner(doc: Doc, k: nat) returns (r: Result<Doc>)
    ensures r == CornerSplice(doc, k)
  {
    var text, cursor := doc.text, doc.cursor;
    var pos := cursor;
    while true
      invariant cursor <= pos
      invariant pos == cursor || pos <= |text|
      invariant forall p :: cursor <= p < pos ==> text[p] != ' '
      decreases |text| - pos
    {
      if pos >= |text| {
        return Failure(MalformedDocument);
      }
      if text[pos] == ' ' {
        var temp := Dec(k);
        var len := |temp|;
        var data := Insert(text, pos, "/");
        data := Insert(data, pos + 1, temp);
        data := Insert(data, pos + 1 + len, "/");
        data := Insert(data, pos + 2 + len, temp);
        TagInserts(text, pos, k);
        CornerSpliceAt(text, cursor, pos, k);
        return Success(Doc(data, pos + 3 + len * 2));
      }
      pos := pos + 1;
    }
  }

  /** The number of characters the face loop adds to faces i..n-1: three tags per face. */
  function TagsLength(i: nat, n: nat): nat
    decreases n - i
  {
    if i >= n then 0 else 3 * |Tag(i + 1)| + TagsLength(i + 1, n)
  }

  /** One face, number k: skip "\nf " and splice the three corners. */
  function FaceSplice(doc: Doc, k: nat): (r: Result<Doc>)
    ensures r.Failure? ==> r.error == MalformedDocument
    ensures r.Success? ==> |r.value.text| == |doc.text| + 3 * |Tag(k)| && r.value.cursor <= |r.value.text|
  {
    match CornerSplice(Doc(doc.text, doc.cursor + 3), k)
    case Failure(e) => Failure(e)
    case Success(d1) =>
      match CornerSplice(d1, k)
      case Failure(e) => Failure(e)
      case Success(d2) => CornerSplice(d2, k)
  }

  /** FaceSplice in terms of the three corner splices it runs: it fails with the first ... */
  lemma {:induction false} FaceSpliceFirstFails(doc: Doc, k: nat)
    requires CornerSplice(Doc(doc.text, doc.cursor + 3), k).Failure?
    ensures FaceSplice(doc, k) == Failure(MalformedDocument)
  {
  }

  /** ... or with the second ... */
  lemma {:induction false} FaceSpliceSecondFails(doc: Doc, k: nat, d1: Doc)
    requires CornerSplice(Doc(doc.text, doc.cursor + 3), k) == Success(d1)
    requires CornerSplice(d1, k).Failure?
    ensures FaceSplice(doc, k) == Failure(MalformedDocument)
  {
  }

  /** ... and otherwise it is the third. */
  lemma {:induction false} FaceSpliceByCorners(doc: Doc, k: nat, d1: Doc, d2: Doc)
    requires CornerSplice(Doc(doc.text, doc.cursor + 3), k) == Success(d1)
    requires CornerSplice(d1, k) == Success(d2)
    ensures FaceSplice(doc, k) == CornerSplice(d2, k)
  {
  }

  /** The face loop from face i to face n-1. */
  function SpliceFaces(doc: Doc, i: nat, n: nat): (r: Result<Doc>)
    ensures r.Failure? ==> r.error == MalformedDocument
    ensures r.Success? ==> |r.value.text| == |doc.text| + TagsLength(i, n)
    ensures r.Success? && i < n ==> r.value.cursor <= |r.value.text|
    decreases n - i
  {
    if i >= n then Success(doc)
    else
      var d :- FaceSplice(doc, i + 1);
      SpliceFaces(d, i + 1, n)
  }

  /** Where the attribute block goes: just past the first blank line after the last "vn". */
  function BlockInsertionPoint(data: string): (r: Option<nat>)
    ensures r.None? <==> forall p :: NormalCursor(data) <= p ==> !PairAt(data, p, '\n', '\n')
    ensures r.Some? ==> NormalCursor(data) + 2 <= r.value <= |data| && PairAt(data, r.value - 2, '\n', '\n')
    ensures r.Some? ==> forall p :: NormalCursor(data) <= p < r.value - 2 ==> !PairAt(data, p, '\n', '\n')
  {
    BlankLineEnd(data, NormalCursor(data))
  }

  /** The trailer goes one past the face loop's final cursor (glb_tbn_gen.cpp:396-398). */
  function AppendTrailer(faces: Doc): (r: Result<string>)
    ensures r.Failure? ==> r.error == MalformedDocument
    ensures r.Success? ==> |r.value| == |faces.text| + |Trailer|
  {
    if faces.cursor + 1 > |faces.text| then Failure(MalformedDocument)
    else Success(Insert(faces.text, faces.cursor + 1, Trailer))
  }

  /** The text surgery once the attribute block is built: the block goes after the normals,
      each corner of face i (0-based, faceNum faces) gets "/i+1/i+1", and the trailer goes one
      past the last cursor. A marker that cannot be found is a MalformedDocument failure. */
  function Rewrite(data: string, faceNum: nat, block: string): (r: Result<string>)
    ensures r.Failure? ==> r.error == MalformedDocument
    ensures BlockInsertionPoint(data).None? ==> r.Failure?
    ensures r.Success? ==> |r.value| == |data| + |block| + TagsLength(0, faceNum) + |Trailer|
  {
    match BlockInsertionPoint(data)
    case None => Failure(MalformedDocument)
    case Some(at) =>
      var withBlock := Insert(data, at, block);
      match SpliceFaces(Doc(withBlock, FaceSectionStart(withBlock)), 0, faceNum)
      case Failure(e) => Failure(e)
      case Success(faces) => AppendTrailer(faces)
  }

  /** The whole of glb_write_tangent_space's work on the text: refused with EmptyInput, before
      anything else, when there is no file or no tangent space. */
  function Patch(text: Option<string>, tangents: seq<TangentSpace>, fmt: Float -> string): (r: Result<string>)
    ensures r == Failure(EmptyInput) <==> text.None? || |tangents| == 0
  {
    if text.None? || |tangents| == 0 then Failure(EmptyInput)
    else Rewrite(text.value, |tangents|, AttributeBlock(tangents, fmt))
  }

  /** How Rewrite ends once the face loop has run. */
  lemma {:induction false} RewriteOnceSpliced(data: string, faceNum: nat, block: string, at: nat, faces: Doc)
    requires BlockInsertionPoint(data) == Some(at)
    requires SpliceFaces(Doc(Insert(data, at, block), FaceSectionStart(Insert(data, at, block))), 0, faceNum) == Success(faces)
    ensures Rewrite(data, faceNum, block) == AppendTrailer(faces)
  {
  }

  /** Rewrite when the face loop stops on the newline that ends `front`: the trailer goes
      right after it. */
  lemma {:induction false} RewriteEndsAfter(data: string, faceNum: nat, block: string, at: nat, front: string, rest: string)
    requires BlockInsertionPoint(data) == Some(at) && |front| >= 1
    requires SpliceFaces(Doc(Insert(data, at, block), FaceSectionStart(Insert(data, at, block))), 0, faceNum)
          == Success(Doc(front + rest, |front| - 1))
    ensures Rewrite(data, faceNum, block) == Success(front + Trailer + rest)
  {
    RewriteOnceSpliced(data, faceNum, block, at, Doc(front + rest, |front| - 1));
    InsertAtSeam(front, rest, Trailer);
  }

  /** glb_write_tangent_space (glb_tbn_gen.cpp:225-414) between reading the file and writing it
      back: `text` is None when the path is null. */
  method WriteTangentSpace(text: Option<string>, tangents: seq<TangentSpace>, fmt: Float -> string)
    returns (r: Result<string>)
    ensures r == Patch(text, tangents, fmt)
  {
    if text.None? || |tangents| == 0 {
      return Failure(EmptyInput);
    }
    var block := BuildAttributeBlock(tangents, fmt);
    r := RewriteText(text.value, |tangents|, block);
  }

  /** One round of the face loop (glb_tbn_gen.cpp:343-394): skip "\nf ", then the three corner
      loops of face number k. */
  method SpliceFace(doc: Doc, k: nat) returns (r: Result<Doc>)
    ensures r == FaceSplice(doc, k)
  {
    var corner0 := SpliceCorner(Doc(doc.text, doc.cursor + 3), k);
    if corner0.Failure? {
      FaceSpliceFirstFails(doc, k);
      return Failure(MalformedDocument);
    }
    var corner1 := SpliceCorner(corner0.value, k);
    if corner1.Failure? {
      FaceSpliceSecondFails(doc, k, corner0.value);
      return Failure(MalformedDocument);
    }
    FaceSpliceByCorners(doc, k, corner0.value, corner1.value);
    r := SpliceCorner(corner1.value, k);
  }

  /** The face loop (glb_tbn_gen.cpp:342-394): faceNum rounds from the face section's start,
      stopping at the first corner without a space after it. */
  method SpliceAllFaces(start: Doc, faceNum: nat) returns (r: Result<Doc>)
    ensures r == SpliceFaces(start, 0, faceNum)
  {
    var data, facePos := start.text, start.cursor;
    var i := 0;
    while i < faceNum
      invariant i <= faceNum
      invariant SpliceFaces(Doc(data, facePos), i, faceNum) == SpliceFaces(start, 0, faceNum)
    {
      var face := SpliceFace(Doc(data, facePos), i + 1);
      if face.Failure? {
        return Failure(MalformedDocument);
      }
      data, facePos := face.value.text, face.value.cursor;
      i := i + 1;
    }
    return Success(Doc(data, facePos));
  }

  /** glb_tbn_gen.cpp:305-398: the scans and inserts on the text, given the block. */
  method RewriteText(text: string, faceNum: nat, block: string) returns (r: Result<string>)
    ensures r == Rewrite(text, faceNum, block)
  {
    var lastNormalPos := ScanLastNormal(text);
    var insertAt := ScanBlankLine(text, lastNormalPos);
    if insertAt.None? {
      return Failure(MalformedDocument);
    }
    var data := Insert(text, insertAt.value, block);
    var facePos: nat := ScanFaceStart(data);
    var faces := SpliceAllFaces(Doc(data, facePos), faceNum);
    if faces.Failure? {
      return Failure(MalformedDocument);
    }
    RewriteOnceSpliced(text, faceNum, block, insertAt.value, faces.value);
    facePos := faces.value.cursor + 1;
    if facePos > |faces.value.text| {
      return Failure(MalformedDocument);
    }
    return Success(Insert(faces.value.text, facePos, Trailer));
  }
}
