/** Every successful rewrite only inserts: the block, three tags per face and the trailer, in
    that order, and taking them out again gives back the text that was read. */
module InsertOnly {
  import opened Results
  import opened Geometry
  import opened Decimal
  import opened TextScan
  import opened Edits
  import opened Attributes
  import opened TangentPatch

  /** The insertion a successful corner splice makes. */
  function CornerInsertion(doc: Doc, k: nat): (e: Insertion)
    requires CornerSplice(doc, k).Success?
    ensures e.frag == Tag(k)
    ensures Apply(doc.text, [e]) == Some(CornerSplice(doc, k).value.text)
  {
    var s := FindChar(doc.text, doc.cursor, ' ');
    ApplyOne(doc.text, Insertion(s, Tag(k)));
    Insertion(s, Tag(k))
  }

  /** Three insertions, each taking a text to the next. */
  lemma {:induction false} ApplyThree(t0: string, t1: string, t2: string, t3: string, e0: Insertion, e1: Insertion, e2: Insertion)
    requires Apply(t0, [e0]) == Some(t1) && Apply(t1, [e1]) == Some(t2) && Apply(t2, [e2]) == Some(t3)
    ensures Apply(t0, [e0, e1, e2]) == Some(t3)
  {
    ApplyAppend(t0, [e0], [e1], t1);
    assert [e0] + [e1] == [e0, e1];
    ApplyAppend(t0, [e0, e1], [e2], t2);
    assert [e0, e1] + [e2] == [e0, e1, e2];
  }

  /** A successful face splice is three successful corner splices. */
  lemma {:induction false} FaceSpliceSucceeds(doc: Doc, k: nat)
    requires FaceSplice(doc, k).Success?
    ensures CornerSplice(Doc(doc.text, doc.cursor + 3), k).Success?
    ensures CornerSplice(CornerSplice(Doc(doc.text, doc.cursor + 3), k).value, k).Success?
    ensures FaceSplice(doc, k) == CornerSplice(CornerSplice(CornerSplice(Doc(doc.text, doc.cursor + 3), k).value, k).value, k)
  {
  }

  /** The three insertions of a successful face splice, which together are that splice. */
  function FaceLog(doc: Doc, k: nat): (log: seq<Insertion>)
    requires FaceSplice(doc, k).Success?
    ensures Fragments(log) == [Tag(k), Tag(k), Tag(k)]
    ensures Apply(doc.text, log) == Some(FaceSplice(doc, k).value.text)
  {
    FaceSpliceSucceeds(doc, k);
    var d0 := Doc(doc.text, doc.cursor + 3);
    var d1 := CornerSplice(d0, k).value;
    var d2 := CornerSplice(d1, k).value;
    var e0, e1, e2 := CornerInsertion(d0, k), CornerInsertion(d1, k), CornerInsertion(d2, k);
    ApplyThree(d0.text, d1.text, d2.text, CornerSplice(d2, k).value.text, e0, e1, e2);
    [e0, e1, e2]
  }

  /** The tags of faces i+1 .. n, three of each, in order. */
  function FaceTags(i: nat, n: nat): (tags: seq<string>)
    ensures |tags| == 3 * (if i < n then n - i else 0)
    decreases n - i
  {
    if i >= n then [] else [Tag(i + 1), Tag(i + 1), Tag(i + 1)] + FaceTags(i + 1, n)
  }

  /** The insertions of a successful face loop. */
  function SpliceLog(doc: Doc, i: nat, n: nat): seq<Insertion>
    requires SpliceFaces(doc, i, n).Success?
    decreases n - i
  {
    if i >= n then []
    else FaceLog(doc, i + 1) + SpliceLog(FaceSplice(doc, i + 1).value, i + 1, n)
  }

  /** The face loop is its insertions, which carry the tags of the faces in order. */
  lemma {:induction false} SpliceLogApplies(doc: Doc, i: nat, n: nat)
    requires SpliceFaces(doc, i, n).Success?
    ensures Apply(doc.text, SpliceLog(doc, i, n)) == Some(SpliceFaces(doc, i, n).value.text)
    ensures Fragments(SpliceLog(doc, i, n)) == FaceTags(i, n)
    decreases n - i
  {
    if i < n {
      var d := FaceSplice(doc, i + 1).value;
      SpliceLogApplies(d, i + 1, n);
      ApplyAppend(doc.text, FaceLog(doc, i + 1), SpliceLog(d, i + 1, n), d.text);
      FragmentsAppend(FaceLog(doc, i + 1), SpliceLog(d, i + 1, n));
    }
  }

  /** The insertions of a successful rewrite: the block, the face tags, the trailer. */
  function RewriteLog(data: string, faceNum: nat, block: string): (log: seq<Insertion>)
    requires Rewrite(data, faceNum, block).Success?
  {
    var at := BlockInsertionPoint(data).value;
    var withBlock := Insert(data, at, block);
    var start := Doc(withBlock, FaceSectionStart(withBlock));
    var faces := SpliceFaces(start, 0, faceNum).value;
    [Insertion(at, block)] + SpliceLog(start, 0, faceNum) + [Insertion(faces.cursor + 1, Trailer)]
  }

  /** An insertion, then a log, then another insertion, as one log. */
  lemma {:induction false} LogBetween(data: string, at: nat, block: string, middle: seq<Insertion>, mid: string, pos: nat, out: string)
    requires at <= |data| && Apply(Insert(data, at, block), middle) == Some(mid)
    requires pos <= |mid| && out == Insert(mid, pos, Trailer)
    ensures Apply(data, [Insertion(at, block)] + middle + [Insertion(pos, Trailer)]) == Some(out)
  {
    var first, last := [Insertion(at, block)], [Insertion(pos, Trailer)];
    ApplyOne(data, Insertion(at, block));
    ApplyAppend(data, first, middle, Insert(data, at, block));
    ApplyOne(mid, Insertion(pos, Trailer));
    ApplyAppend(data, first + middle, last, mid);
  }

  /** What the log of a rewrite inserts. */
  lemma {:induction false} FragmentsBetween(at: nat, block: string, middle: seq<Insertion>, pos: nat)
    ensures Fragments([Insertion(at, block)] + middle + [Insertion(pos, Trailer)]) == [block] + Fragments(middle) + [Trailer]
  {
    FragmentsAppend([Insertion(at, block)], middle);
    FragmentsAppend([Insertion(at, block)] + middle, [Insertion(pos, Trailer)]);
  }

  /** An insertion, a log, then the trailer, as one log that undoes and what it inserts. */
  lemma {:induction false} LogWithEnds(data: string, at: nat, block: string, middle: seq<Insertion>, mid: string, pos: nat, out: string)
    requires at <= |data| && Apply(Insert(data, at, block), middle) == Some(mid)
    requires pos <= |mid| && out == Insert(mid, pos, Trailer)
    ensures var log := [Insertion(at, block)] + middle + [Insertion(pos, Trailer)];
      && Apply(data, log) == Some(out) && Undo(out, log) == Some(data)
      && Fragments(log) == [block] + Fragments(middle) + [Trailer]
  {
    LogBetween(data, at, block, middle, mid, pos, out);
    UndoApply(data, [Insertion(at, block)] + middle + [Insertion(pos, Trailer)], out);
    FragmentsBetween(at, block, middle, pos);
  }

  /** An insertion, a successful face loop and the trailer, as one log. */
  lemma {:induction false} LogAround(data: string, at: nat, block: string, start: Doc, faceNum: nat, faces: Doc)
    requires at <= |data| && start.text == Insert(data, at, block)
    requires SpliceFaces(start, 0, faceNum) == Success(faces) && faces.cursor + 1 <= |faces.text|
    ensures var log := [Insertion(at, block)] + SpliceLog(start, 0, faceNum) + [Insertion(faces.cursor + 1, Trailer)];
      var out := Insert(faces.text, faces.cursor + 1, Trailer);
      && Apply(data, log) == Some(out) && Undo(out, log) == Some(data)
      && Fragments(log) == [block] + FaceTags(0, faceNum) + [Trailer]
  {
    SpliceLogApplies(start, 0, faceNum);
    LogWithEnds(data, at, block, SpliceLog(start, 0, faceNum), faces.text, faces.cursor + 1,
      Insert(faces.text, faces.cursor + 1, Trailer));
  }

  /** A successful rewrite is exactly its insertions: applying them to the text that was read
      gives the text written back, removing them from that gives the text read, and they are the
      block, three tags per face and the trailer. */
  lemma {:induction false} RewriteInsertOnly(data: string, faceNum: nat, block: string)
    requires Rewrite(data, faceNum, block).Success?
    ensures Apply(data, RewriteLog(data, faceNum, block)) == Some(Rewrite(data, faceNum, block).value)
    ensures Undo(Rewrite(data, faceNum, block).value, RewriteLog(data, faceNum, block)) == Some(data)
    ensures Fragments(RewriteLog(data, faceNum, block)) == [block] + FaceTags(0, faceNum) + [Trailer]
  {
    var at := BlockInsertionPoint(data).value;
    var faces := SpliceFaces(Doc(Insert(data, at, block), FaceSectionStart(Insert(data, at, block))), 0, faceNum).value;
    RewriteOnceSpliced(data, faceNum, block, at, faces);
    LogAround(data, at, block, Doc(Insert(data, at, block), FaceSectionStart(Insert(data, at, block))), faceNum, faces);
  }

  /** glb_write_tangent_space only ever adds to the model text: whatever it writes back is the
      text it read with the attribute block, the face tags and the trailer inserted. */
  lemma {:induction false} PatchInsertOnly(text: Option<string>, ts: seq<TangentSpace>, fmt: Float -> string)
    requires Patch(text, ts, fmt).Success?
    ensures text.Some? && |ts| > 0
    ensures var block := AttributeBlock(ts, fmt);
      && Rewrite(text.value, |ts|, block).Success?
      && Apply(text.value, RewriteLog(text.value, |ts|, block)) == Some(Patch(text, ts, fmt).value)
      && Undo(Patch(text, ts, fmt).value, RewriteLog(text.value, |ts|, block)) == Some(text.value)
      && Fragments(RewriteLog(text.value, |ts|, block)) == [block] + FaceTags(0, |ts|) + [Trailer]
  {
    RewriteInsertOnly(text.value, |ts|, AttributeBlock(ts, fmt));
  }
}
