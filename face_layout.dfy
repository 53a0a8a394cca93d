/** The face section the rewrite expects, one "f c0 c1 c2 \n" line per face, trailing space
    included, and what the rewrite makes of it. */
module FaceLayout {
  import opened Results
  import opened Decimal
  import opened Geometry
  import opened TextScan
  import opened FaceFree
  import opened Edits
  import opened Attributes
  import opened TangentPatch

  /** A corner token ("v/t/n"): no space and no newline inside. */
  predicate IsToken(t: string) {
    ' ' !in t && '\n' !in t
  }

  /** The three corner tokens of a face line. */
  datatype Face = Face(c0: string, c1: string, c2: string)

  predicate WellFormedFace(f: Face) {
    IsToken(f.c0) && IsToken(f.c1) && IsToken(f.c2)
  }

  predicate AllWellFormed(fs: seq<Face>) {
    forall j :: 0 <= j < |fs| ==> WellFormedFace(fs[j])
  }

  /** A face line without its newline: "f c0 c1 c2 ", each corner followed by a space. */
  function FaceBody(f: Face): string {
    "f " + f.c0 + " " + f.c1 + " " + f.c2 + " "
  }

  function FaceLine(f: Face): string {
    FaceBody(f) + "\n"
  }

  /** Consecutive face lines. */
  function FaceLines(fs: seq<Face>): string {
    if fs == [] then "" else FaceLine(fs[0]) + FaceLines(fs[1..])
  }

  /** Face f with every corner extended by "/k/k". */
  function TaggedFace(f: Face, k: nat): Face {
    Face(f.c0 + Tag(k), f.c1 + Tag(k), f.c2 + Tag(k))
  }

  /** Faces numbered from k on, each tagged with its own number. */
  function TaggedFaces(fs: seq<Face>, k: nat): (ts: seq<Face>)
    ensures |ts| == |fs|
    ensures forall j :: 0 <= j < |fs| ==> ts[j] == TaggedFace(fs[j], k + j)
  {
    if fs == [] then [] else [TaggedFace(fs[0], k)] + TaggedFaces(fs[1..], k + 1)
  }

  /** Tagged corners are still tokens, so tagged faces are still well formed. */
  lemma {:induction false} TaggedFacesWellFormed(fs: seq<Face>, k: nat)
    requires AllWellFormed(fs)
    ensures AllWellFormed(TaggedFaces(fs, k))
  {
    forall j | 0 <= j < |fs| ensures WellFormedFace(TaggedFaces(fs, k)[j]) {
      var t := Tag(k + j);
      assert ' ' !in t && '\n' !in t;
    }
  }

  /** A corner splice at the start of token c, which a space ends. */
  lemma {:induction false} CornerStep(a: string, c: string, rest: string, k: nat)
    requires ' ' !in c
    ensures CornerSplice(Doc(a + c + " " + rest, |a|), k)
         == Success(Doc(a + c + Tag(k) + " " + rest, |a + c + Tag(k) + " "|))
  {
    var text := a + c + " " + rest;
    var s := |a| + |c|;
    assert text[s] == ' ';
    forall p | |a| <= p < s ensures text[p] != ' ' {
      assert text[p] == c[p - |a|];
    }
    CornerSpliceAt(text, |a|, s, k);
    assert text == (a + c) + (" " + rest);
    InsertAtSeam(a + c, " " + rest, Tag(k));
    assert (a + c) + Tag(k) + (" " + rest) == a + c + Tag(k) + " " + rest;
  }

  /** CornerStep with the text, the tagged prefix and the result named. */
  lemma {:induction false} CornerStepAt(text: string, a: string, c: string, rest: string, after: string, out: string, k: nat)
    requires ' ' !in c && text == a + c + " " + rest
    requires after == a + c + Tag(k) + " " && out == after + rest
    ensures CornerSplice(Doc(text, |a|), k) == Success(Doc(out, |after|))
  {
    CornerStep(a, c, rest, k);
  }

  /** A face splice over three space-free corners, each followed by a space. */
  lemma {:induction false} CornersStep(doc: Doc, a0: string, c0: string, c1: string, c2: string, r: string, after: string, k: nat)
    requires ' ' !in c0 && ' ' !in c1 && ' ' !in c2
    requires doc.cursor + 3 == |a0| && doc.text == a0 + c0 + " " + (c1 + " " + (c2 + " " + r))
    requires after == a0 + c0 + Tag(k) + " " + c1 + Tag(k) + " " + c2 + Tag(k) + " "
    ensures FaceSplice(doc, k) == Success(Doc(after + r, |after|))
  {
    var t := Tag(k);
    var a1 := a0 + c0 + t + " ";
    var a2 := a1 + c1 + t + " ";
    var t1 := a1 + c1 + " " + (c2 + " " + r);
    var t2 := a2 + c2 + " " + r;
    Reassoc(a1, c1, c2 + " " + r);
    Reassoc(a2, c2, r);
    CornerStepAt(doc.text, a0, c0, c1 + " " + (c2 + " " + r), a1, t1, k);
    CornerStepAt(t1, a1, c1, c2 + " " + r, a2, t2, k);
    CornerStepAt(t2, a2, c2, r, after, after + r, k);
    FaceSpliceByCorners(doc, k, Doc(t1, |a1|), Doc(t2, |a2|));
  }

  /** s0 < s1 < s2 are the first three spaces after a face's "\nf " skip. */
  predicate FaceSpaces(doc: Doc, s0: nat, s1: nat, s2: nat) {
    && doc.cursor + 3 <= s0 < s1 < s2 < |doc.text|
    && doc.text[s0] == ' ' && doc.text[s1] == ' ' && doc.text[s2] == ' '
    && forall p :: doc.cursor + 3 <= p < s2 && p != s0 && p != s1 ==> doc.text[p] != ' '
  }

  /** The text with t spliced in before positions s0, s1 and s2. */
  function ThreeTagged(text: string, s0: nat, s1: nat, s2: nat, t: string): string
    requires s0 <= s1 <= s2 <= |text|
  {
    text[..s0] + t + text[s0..s1] + t + text[s1..s2] + t + text[s2..]
  }

  lemma {:induction false} NoSpaceBetween(text: string, i: nat, j: nat)
    requires i <= j <= |text| && forall p :: i <= p < j ==> text[p] != ' '
    ensures ' ' !in text[i..j]
  {
    forall q | 0 <= q < j - i ensures text[i..j][q] != ' ' {
      assert text[i..j][q] == text[i + q];
    }
  }

  /** The corner search finds nothing in a space-free rest. */
  lemma {:induction false} NoSpaceAfter(x: string, y: string)
    requires ' ' !in y
    ensures FindChar(x + y, |x|, ' ') == -1
  {
  }

  /** A text cut at three spaces: four slices, the last three opening with their space. */
  lemma {:induction false} CutSlices(text: string, from: nat, s0: nat, s1: nat, s2: nat)
    returns (a0: string, c0: string, c1: string, c2: string, r: string)
    requires from <= s0 < s1 < s2 < |text| && text[s0] == ' ' && text[s1] == ' ' && text[s2] == ' '
    requires forall p :: from <= p < s2 && p != s0 && p != s1 ==> text[p] != ' '
    ensures |a0| == from && ' ' !in c0 && ' ' !in c1 && ' ' !in c2
    ensures text[..s0] == a0 + c0 && text[s0..s1] == " " + c1
    ensures text[s1..s2] == " " + c2 && text[s2..] == " " + r
  {
    a0, c0, c1, c2, r := text[..from], text[from..s0], text[s0 + 1..s1], text[s1 + 1..s2], text[s2 + 1..];
    NoSpaceBetween(text, from, s0);
    NoSpaceBetween(text, s0 + 1, s1);
    NoSpaceBetween(text, s1 + 1, s2);
  }

  /** Four consecutive slices of a text, with and without t between them. */
  lemma {:induction false} Regroup4(text: string, s0: nat, s1: nat, s2: nat, t: string,
                                    a0: string, c0: string, c1: string, c2: string, r: string)
    requires s0 <= s1 <= s2 <= |text|
    requires text[..s0] == a0 + c0 && text[s0..s1] == " " + c1
    requires text[s1..s2] == " " + c2 && text[s2..] == " " + r
    ensures text == a0 + c0 + " " + (c1 + " " + (c2 + " " + r))
    ensures ThreeTagged(text, s0, s1, s2, t) == a0 + c0 + t + " " + c1 + t + " " + c2 + t + " " + r
  {
    assert text == text[..s0] + text[s0..s1] + text[s1..s2] + text[s2..];
  }

  /** text cut into a0 + c0 + " " + c1 + " " + c2 + " " + r with space-free corners c0, c1 and
      c2 starting at `from`; tagged is the same text with t before each of the three spaces and n
      its length up to and including the third. */
  predicate CutAtCorners(text: string, from: nat, t: string, tagged: string, n: nat,
                         a0: string, c0: string, c1: string, c2: string, r: string)
  {
    && |a0| == from && ' ' !in c0 && ' ' !in c1 && ' ' !in c2
    && text == a0 + c0 + " " + (c1 + " " + (c2 + " " + r))
    && tagged == a0 + c0 + t + " " + c1 + t + " " + c2 + t + " " + r
    && n == |a0 + c0 + t + " " + c1 + t + " " + c2 + t + " "|
  }

  /** A text cut at three spaces, before and after the tags go in. */
  lemma {:induction false} CutAtThreeSpaces(doc: Doc, s0: nat, s1: nat, s2: nat, t: string)
    returns (a0: string, c0: string, c1: string, c2: string, r: string)
    requires FaceSpaces(doc, s0, s1, s2)
    ensures CutAtCorners(doc.text, doc.cursor + 3, t, ThreeTagged(doc.text, s0, s1, s2, t), s2 + 3 * |t| + 1,
                         a0, c0, c1, c2, r)
  {
    a0, c0, c1, c2, r := CutSlices(doc.text, doc.cursor + 3, s0, s1, s2);
    Regroup4(doc.text, s0, s1, s2, t, a0, c0, c1, c2, r);
  }

  /** CornersStep stated over a cut text and its tagged form. */
  lemma {:induction false} SpliceCut(doc: Doc, k: nat, tagged: string, n: nat,
                                     a0: string, c0: string, c1: string, c2: string, r: string)
    requires CutAtCorners(doc.text, doc.cursor + 3, Tag(k), tagged, n, a0, c0, c1, c2, r)
    ensures FaceSplice(doc, k) == Success(Doc(tagged, n))
  {
    var t := Tag(k);
    CornersStep(doc, a0, c0, c1, c2, r, a0 + c0 + t + " " + c1 + t + " " + c2 + t + " ", k);
  }

  /** A face with three spaces after the skip: Tag(k) goes in before each. */
  lemma {:induction false} FaceSpliceAtSpaces(doc: Doc, k: nat, s0: nat, s1: nat, s2: nat)
    requires FaceSpaces(doc, s0, s1, s2)
    ensures FaceSplice(doc, k) == Success(Doc(ThreeTagged(doc.text, s0, s1, s2, Tag(k)), s2 + 3 * |Tag(k)| + 1))
  {
    var tagged, n := ThreeTagged(doc.text, s0, s1, s2, Tag(k)), s2 + 3 * |Tag(k)| + 1;
    assert FaceSplice(doc, k) == Success(Doc(tagged, n)) by {
      var a0, c0, c1, c2, r := CutAtThreeSpaces(doc, s0, s1, s2, Tag(k));
      SpliceCut(doc, k, tagged, n, a0, c0, c1, c2, r);
    }
  }

  /** A text cut at its only space at or after `from`. */
  lemma {:induction false} CutAtOneSpace(text: string, from: nat, s0: nat) returns (a0: string, c0: string, r: string)
    requires from <= s0 < |text| && text[s0] == ' '
    requires forall p :: from <= p < |text| && p != s0 ==> text[p] != ' '
    ensures |a0| == from && ' ' !in c0 && ' ' !in r && text == a0 + c0 + " " + r
  {
    a0, c0, r := text[..from], text[from..s0], text[s0 + 1..];
    NoSpaceBetween(text, from, s0);
    NoSpaceBetween(text, s0 + 1, |text|);
    assert text[s0 + 1..|text|] == r;
    assert text[..s0] == a0 + c0;
    assert text[s0..] == " " + r;
    assert text == text[..s0] + text[s0..];
  }

  /** A face with exactly one space after the skip fails at its second corner. */
  lemma {:induction false} OneSpaceOnly(doc: Doc, k: nat, s0: nat)
    requires doc.cursor + 3 <= s0 < |doc.text| && doc.text[s0] == ' '
    requires forall p :: doc.cursor + 3 <= p < |doc.text| && p != s0 ==> doc.text[p] != ' '
    ensures FaceSplice(doc, k) == Failure(MalformedDocument)
  {
    assert FaceSplice(doc, k) == Failure(MalformedDocument) by {
      var t := Tag(k);
      var a0, c0, r := CutAtOneSpace(doc.text, doc.cursor + 3, s0);
      var after := a0 + c0 + t + " ";
      CornerStepAt(doc.text, a0, c0, r, after, after + r, k);
      NoSpaceAfter(after, r);
      FaceSpliceSecondFails(doc, k, Doc(after + r, |after|));
    }
  }

  /** A text cut at its only two spaces at or after `from`. */
  lemma {:induction false} CutAtTwoSpaces(text: string, from: nat, s0: nat, s1: nat)
    returns (a0: string, c0: string, c1: string, r: string)
    requires from <= s0 < s1 < |text| && text[s0] == ' ' && text[s1] == ' '
    requires forall p :: from <= p < |text| && p != s0 && p != s1 ==> text[p] != ' '
    ensures |a0| == from && ' ' !in c0 && ' ' !in c1 && ' ' !in r
    ensures text == a0 + c0 + " " + (c1 + " " + r)
  {
    a0, c0, c1, r := text[..from], text[from..s0], text[s0 + 1..s1], text[s1 + 1..];
    NoSpaceBetween(text, from, s0);
    NoSpaceBetween(text, s0 + 1, s1);
    NoSpaceBetween(text, s1 + 1, |text|);
    assert text[s1 + 1..|text|] == r;
    assert text[..s0] == a0 + c0;
    assert text[s0..s1] == " " + c1;
    assert text[s1..] == " " + r;
    assert text == text[..s0] + text[s0..s1] + text[s1..];
  }

  /** A face splice over a text with only two spaces left fails at the third corner. */
  lemma {:induction false} TwoCornersFail(doc: Doc, k: nat, a0: string, c0: string, c1: string, r: string)
    requires |a0| == doc.cursor + 3 && ' ' !in c0 && ' ' !in c1 && ' ' !in r
    requires doc.text == a0 + c0 + " " + (c1 + " " + r)
    ensures FaceSplice(doc, k) == Failure(MalformedDocument)
  {
    var t := Tag(k);
    var a1 := a0 + c0 + t + " ";
    var a2 := a1 + c1 + t + " ";
    var t1 := a1 + c1 + " " + r;
    Reassoc(a1, c1, r);
    CornerStepAt(doc.text, a0, c0, c1 + " " + r, a1, t1, k);
    CornerStepAt(t1, a1, c1, r, a2, a2 + r, k);
    NoSpaceAfter(a2, r);
    FaceSpliceByCorners(doc, k, Doc(t1, |a1|), Doc(a2 + r, |a2|));
  }

  /** A face with exactly two spaces after the skip fails at its third corner. */
  lemma {:induction false} TwoSpacesOnly(doc: Doc, k: nat, s0: nat, s1: nat)
    requires doc.cursor + 3 <= s0 < s1 < |doc.text| && doc.text[s0] == ' ' && doc.text[s1] == ' '
    requires forall p :: doc.cursor + 3 <= p < |doc.text| && p != s0 && p != s1 ==> doc.text[p] != ' '
    ensures FaceSplice(doc, k) == Failure(MalformedDocument)
  {
    assert FaceSplice(doc, k) == Failure(MalformedDocument) by {
      var a0, c0, c1, r := CutAtTwoSpaces(doc.text, doc.cursor + 3, s0, s1);
      TwoCornersFail(doc, k, a0, c0, c1, r);
    }
  }

  /** What a face splice does: after skipping "\nf " it fails exactly when fewer than three
      spaces are left; otherwise Tag(k) now stands right before each of the first three, nothing
      else changed, and the cursor is one past the third. */
  lemma {:induction false} FaceSpliceMeaning(doc: Doc, k: nat)
    ensures FaceSplice(doc, k).Failure? <==> forall s0: nat, s1: nat, s2: nat :: !FaceSpaces(doc, s0, s1, s2)
    ensures forall s0: nat, s1: nat, s2: nat :: FaceSpaces(doc, s0, s1, s2) ==>
      FaceSplice(doc, k) == Success(Doc(ThreeTagged(doc.text, s0, s1, s2, Tag(k)), s2 + 3 * |Tag(k)| + 1))
  {
    forall s0: nat, s1: nat, s2: nat | FaceSpaces(doc, s0, s1, s2)
      ensures FaceSplice(doc, k) == Success(Doc(ThreeTagged(doc.text, s0, s1, s2, Tag(k)), s2 + 3 * |Tag(k)| + 1))
    {
      FaceSpliceAtSpaces(doc, k, s0, s1, s2);
    }
    var text, from := doc.text, doc.cursor + 3;
    var a := FindChar(text, from, ' ');
    if a == -1 {
      FaceSpliceFirstFails(doc, k);
    } else {
      var b := FindChar(text, a + 1, ' ');
      if b == -1 {
        OneSpaceOnly(doc, k, a);
      } else {
        var c := FindChar(text, b + 1, ' ');
        if c == -1 {
          TwoSpacesOnly(doc, k, a, b);
        } else {
          assert FaceSpaces(doc, a, b, c);
        }
      }
    }
  }

  /** One round of the face loop over a well-formed face line: the cursor starts on the newline
      before it and ends on the newline after it, the line's corners tagged. */
  lemma {:induction false} FaceStep(text: string, a: string, f: Face, rest: string, after: string, k: nat)
    requires WellFormedFace(f) && text == a + "\n" + FaceLine(f) + rest
    requires after == a + "\n" + FaceBody(TaggedFace(f, k))
    ensures FaceSplice(Doc(text, |a|), k) == Success(Doc(after + "\n" + rest, |after|))
  {
    var t := Tag(k);
    assert text == a + "\n" + "f " + f.c0 + " " + (f.c1 + " " + (f.c2 + " " + ("\n" + rest))) by {
      FaceLineOpen(a, f, rest);
    }
    assert after == a + "\n" + "f " + f.c0 + t + " " + f.c1 + t + " " + f.c2 + t + " " by {
      assert TaggedFace(f, k) == Face(f.c0 + t, f.c1 + t, f.c2 + t);
      FaceBodyTagged(a, f, t);
    }
    CornersStep(Doc(text, |a|), a + "\n" + "f ", f.c0, f.c1, f.c2, "\n" + rest, after, k);
    NewlineThen(after, rest);
  }

  // FaceLineOpen, Reassoc, NewlineThen, FaceBodyTagged, Regroup and SpliceTextBefore only
  // regroup strings; they exist to keep their callers' proofs within the solver's resource limit.

  /** A face line, opened up corner by corner. */
  lemma {:induction false} FaceLineOpen(a: string, f: Face, rest: string)
    ensures a + "\n" + FaceLine(f) + rest
         == a + "\n" + "f " + f.c0 + " " + (f.c1 + " " + (f.c2 + " " + ("\n" + rest)))
  {
  }

  lemma {:induction false} Reassoc(x: string, c: string, r: string)
    ensures x + (c + " " + r) == x + c + " " + r
  {
  }

  lemma {:induction false} NewlineThen(x: string, y: string)
    ensures x + ("\n" + y) == x + "\n" + y
  {
  }

  /** The tagged face body, as the three corner splices leave it. */
  lemma {:induction false} FaceBodyTagged(a: string, f: Face, t: string)
    ensures a + "\n" + "f " + f.c0 + t + " " + f.c1 + t + " " + f.c2 + t + " "
         == a + "\n" + FaceBody(Face(f.c0 + t, f.c1 + t, f.c2 + t))
  {
  }

  /** One face of the loop, then the rest. */
  lemma {:induction false} SpliceFacesStep(text: string, cursor: nat, mid: Doc, r: Result<Doc>, i: nat, n: nat)
    requires i < n && FaceSplice(Doc(text, cursor), i + 1) == Success(mid)
    requires SpliceFaces(mid, i + 1, n) == r
    ensures SpliceFaces(Doc(text, cursor), i, n) == r
  {
  }

  /** Tagging the first face and the rest separately. */
  lemma {:induction false} TaggedLinesCons(fs: seq<Face>, k: nat)
    requires fs != []
    ensures FaceLines(TaggedFaces(fs, k)) == FaceBody(TaggedFace(fs[0], k)) + "\n" + FaceLines(TaggedFaces(fs[1..], k + 1))
  {
    var tagged := TaggedFaces(fs, k);
    assert tagged[0] == TaggedFace(fs[0], k);
    assert tagged[1..] == TaggedFaces(fs[1..], k + 1);
  }

  /** Regrouping a text around a face line that the loop just tagged. */
  lemma {:induction false} Regroup(a: string, x: string, y: string)
    ensures (a + "\n" + x) + "\n" + y == a + "\n" + (x + "\n" + y)
  {
  }

  /** The string algebra behind one step of SpliceWellFormed: the untouched text ... */
  lemma {:induction false} SpliceTextBefore(a: string, fs: seq<Face>, b: string, k: nat)
    requires fs != []
    ensures a + "\n" + FaceLines(fs) + b == a + "\n" + FaceLine(fs[0]) + (FaceLines(fs[1..]) + b)
    ensures var a' := a + "\n" + FaceBody(TaggedFace(fs[0], k));
      a' + "\n" + FaceLines(fs[1..]) + b == a' + "\n" + (FaceLines(fs[1..]) + b)
  {
  }

  /** ... and the tagged text. */
  lemma {:induction false} SpliceTextAfter(a: string, fs: seq<Face>, k: nat, a2: string, rest: seq<Face>)
    requires fs != [] && rest == fs[1..] && a2 == a + "\n" + FaceBody(TaggedFace(fs[0], k))
    ensures a + "\n" + FaceLines(TaggedFaces(fs, k)) == a2 + "\n" + FaceLines(TaggedFaces(rest, k + 1))
  {
    TaggedLinesCons(fs, k);
    Regroup(a, FaceBody(TaggedFace(fs[0], k)), FaceLines(TaggedFaces(rest, k + 1)));
  }

  /** The first round of the face loop over consecutive well-formed face lines, and the lines
      it leaves to the rounds after it. */
  lemma {:induction false} HeadFace(text: string, a: string, fs: seq<Face>, b: string, a': string, mid: string, k: nat)
    requires fs != [] && AllWellFormed(fs) && text == a + "\n" + FaceLines(fs) + b
    requires a' == a + "\n" + FaceBody(TaggedFace(fs[0], k)) && mid == a' + "\n" + FaceLines(fs[1..]) + b
    ensures FaceSplice(Doc(text, |a|), k) == Success(Doc(mid, |a'|))
    ensures AllWellFormed(fs[1..])
  {
    var rest := fs[1..];
    SpliceTextBefore(a, fs, b, k);
    FaceStep(text, a, fs[0], FaceLines(rest) + b, a', k);
    forall j | 0 <= j < |rest| ensures WellFormedFace(rest[j]) {
      assert rest[j] == fs[j + 1];
    }
  }

  /** The face loop over consecutive well-formed face lines, the cursor starting on the newline
      before the first (text = a + "\n" + lines + b): every corner of face i is tagged with i+1,
      nothing else changes, and the cursor ends on the newline of the last face line. */
  lemma {:induction false} SpliceWellFormed(text: string, a: string, fs: seq<Face>, b: string, out: string, i: nat, n: nat)
    requires n == i + |fs| && AllWellFormed(fs)
    requires text == a + "\n" + FaceLines(fs) + b
    requires out == a + "\n" + FaceLines(TaggedFaces(fs, i + 1))
    ensures SpliceFaces(Doc(text, |a|), i, n) == Success(Doc(out + b, |out| - 1))
    decreases |fs|
  {
    if fs == [] {
      assert text == out + b;
    } else {
      var rest := fs[1..];
      var a' := a + "\n" + FaceBody(TaggedFace(fs[0], i + 1));
      var mid := a' + "\n" + FaceLines(rest) + b;
      HeadFace(text, a, fs, b, a', mid, i + 1);
      SpliceTextAfter(a, fs, i + 1, a', rest);
      SpliceWellFormed(mid, a', rest, b, out, i + 1, n);
      SpliceFacesStep(text, |a|, Doc(mid, |a'|), Success(Doc(out + b, |out| - 1)), i, n);
    }
  }

  /** The face section starts at the first "\nf": right after x when x + "\n" holds none. */
  lemma {:induction false} FaceSectionStartAt(s: string, x: string, rest: string)
    requires NoFaceStart(x + "\n") && rest != [] && rest[0] == 'f'
    requires s == x + "\n" + rest
    ensures FaceSectionStart(s) == |x|
  {
    assert PairAt(s, |x|, '\n', 'f');
    forall p | 0 <= p < |x| ensures !PairAt(s, p, '\n', 'f') {
      assert !PairAt(x + "\n", p, '\n', 'f');
      assert s[p] == (x + "\n")[p] && s[p + 1] == (x + "\n")[p + 1];
    }
  }

  /** The text in front of the face section once the block is in, and that it holds no "\nf". */
  lemma {:induction false} BlockedHeadFaceFree(head: string, block: string, at: nat)
    requires NoFaceStart(head) && NoFaceStart(block) && (block == [] || block[0] != 'f')
    requires 2 <= at <= |head| && head[at - 1] == '\n'
    ensures NoFaceStart(head[..at] + block + head[at..] + "\n")
  {
    NoFaceStartSlice(head, 0, at);
    NoFaceStartSlice(head, at, |head|);
    assert head[at..|head|] == head[at..];
    NoFaceStartConcat(head[..at], block);
    if at < |head| {
      assert !PairAt(head, at - 1, '\n', 'f');
    }
    NoFaceStartConcat(head[..at] + block, head[at..]);
    NoFaceStartLine("");
    NoFaceStartConcat(head[..at] + block + head[at..], "\n");
  }

  /** The insertion point ends a blank line, so inside the head it follows a newline. */
  lemma {:induction false} InsertionPointAfterNewline(text: string, head: string, at: nat)
    requires BlockInsertionPoint(text) == Some(at) && at <= |head| <= |text| && text[..|head|] == head
    ensures 2 <= at && head[at - 1] == '\n'
  {
    assert PairAt(text, at - 2, '\n', '\n');
    assert text[at - 1] == text[..|head|][at - 1];
  }

  /** Putting the block into the head, the rest of the text untouched. */
  lemma {:induction false} InsertIntoHead(head: string, rest: string, at: nat, block: string)
    requires at <= |head|
    ensures Insert(head + rest, at, block) == head[..at] + block + head[at..] + rest
  {
    assert head + rest == head[..at] + (head[at..] + rest);
    InsertAtSeam(head[..at], head[at..] + rest, block);
  }

  /** The document shape the rewrite is written for: a head holding no "\nf", then a newline
      and at least one well-formed face line, then anything; `at` is where the blank line after
      the normals ends, which BlankLineOutsideFaces places in front of or behind the face lines. */
  ghost predicate WellFormedText(text: string, head: string, faces: seq<Face>, tail: string, at: nat) {
    && |faces| >= 1 && AllWellFormed(faces) && NoFaceStart(head)
    && text == head + "\n" + FaceLines(faces) + tail
    && BlockInsertionPoint(text) == Some(at)
  }

  /** Consecutive face lines hold no blank line: each newline but the last is followed by the
      'f' that opens the next line. */
  lemma {:induction false} FaceLinesNoBlank(fs: seq<Face>)
    requires AllWellFormed(fs)
    ensures forall q :: !PairAt(FaceLines(fs), q, '\n', '\n')
    ensures fs != [] ==> FaceLines(fs)[0] == 'f'
    decreases |fs|
  {
    if fs != [] {
      var body, rest := FaceBody(fs[0]), FaceLines(fs[1..]);
      assert AllWellFormed(fs[1..]) by {
        forall j | 0 <= j < |fs[1..]| ensures WellFormedFace(fs[1..][j]) {
          assert fs[1..][j] == fs[j + 1];
        }
      }
      FaceLinesNoBlank(fs[1..]);
      assert WellFormedFace(fs[0]);
      assert '\n' !in body;
      var s := FaceLines(fs);
      assert s == body + "\n" + rest;
      forall q ensures !PairAt(s, q, '\n', '\n') {
        if 0 <= q < |body| {
          assert s[q] == body[q];
        } else if q == |body| && q + 1 < |s| {
          assert s[q + 1] == rest[0];
        } else if |body| < q && q + 1 < |s| {
          assert s[q] == rest[q - |body| - 1] && s[q + 1] == rest[q - |body|];
          assert !PairAt(rest, q - |body| - 1, '\n', '\n');
        }
      }
    }
  }

  /** The blank line after the normals never ends inside the face lines: it ends in the head, on
      the newline in front of the first face line, or in the tail, at least one character in. */
  lemma {:induction false} BlankLineOutsideFaces(text: string, head: string, faces: seq<Face>, tail: string, at: nat)
    requires |faces| >= 1 && AllWellFormed(faces) && text == head + "\n" + FaceLines(faces) + tail
    requires BlockInsertionPoint(text) == Some(at)
    ensures at <= |head| + 1 || |head| + |FaceLines(faces)| + 2 <= at
  {
    var lines := FaceLines(faces);
    FaceLinesNoBlank(faces);
    forall p | |head| <= p < |head| + |lines| ensures !PairAt(text, p, '\n', '\n') {
      if p == |head| {
        assert text[p + 1] == lines[0];
      } else {
        assert text[p] == lines[p - |head| - 1] && text[p + 1] == lines[p - |head|];
        assert !PairAt(lines, p - |head| - 1, '\n', '\n');
      }
    }
    assert PairAt(text, at - 2, '\n', '\n');
  }

  /** Inserting into the second part of front + tail. */
  lemma {:induction false} InsertIntoTail(front: string, tail: string, off: nat, block: string)
    requires off <= |tail|
    ensures Insert(front + tail, |front| + off, block) == front + Insert(tail, off, block)
  {
    assert (front + tail)[..|front| + off] == front + tail[..off];
    assert (front + tail)[|front| + off..] == tail[off..];
  }

  /** The face section of a text whose head holds no "\nf" starts on the newline after the head. */
  lemma {:induction false} FaceSectionAfterHead(s: string, head: string, faces: seq<Face>, rest: string)
    requires |faces| >= 1 && AllWellFormed(faces) && NoFaceStart(head)
    requires s == head + "\n" + FaceLines(faces) + rest
    ensures FaceSectionStart(s) == |head|
  {
    FaceLinesNoBlank(faces);
    NoFaceStartLine("");
    assert "" + "\n" == "\n";
    NoFaceStartConcat(head, "\n");
    FaceSectionStartAt(s, head, FaceLines(faces) + rest);
  }

  /** Rewrite when the blank line ends in the tail: the face lines are tagged and closed by the
      trailer in front of the tail, and the block goes into the tail. */
  lemma {:induction false} RewriteBlockInTail(text: string, head: string, faces: seq<Face>, tail: string, block: string, at: nat)
    requires WellFormedText(text, head, faces, tail, at) && |head| + 1 + |FaceLines(faces)| <= at
    ensures Rewrite(text, |faces|, block)
         == Success(head + "\n" + FaceLines(TaggedFaces(faces, 1)) + Trailer
                    + Insert(tail, at - (|head| + 1 + |FaceLines(faces)|), block))
  {
    var lines := FaceLines(faces);
    var tail' := Insert(tail, at - (|head| + 1 + |lines|), block);
    var s := Insert(text, at, block);
    assert s == head + "\n" + lines + tail' by {
      InsertIntoTail(head + "\n" + lines, tail, at - (|head| + 1 + |lines|), block);
    }
    FaceSectionAfterHead(s, head, faces, tail');
    var front := head + "\n" + FaceLines(TaggedFaces(faces, 1));
    SpliceFromHead(s, head, faces, tail', front);
    RewriteEndsAfter(text, |faces|, block, at, front, tail');
  }

  /** A block that cannot start a face line wherever it lands after a newline. */
  ghost predicate InertBlock(block: string) {
    NoFaceStart(block) && (block == [] || block[0] != 'f')
  }

  /** A block that is empty or ends its last line. */
  predicate EndsLine(block: string) {
    block == [] || block[|block| - 1] == '\n'
  }

  /** The part in front of the face lines once the block is in, when the block lands inside the
      head: it holds no "\nf" and ends on the newline in front of the first face line. */
  lemma {:induction false} BlockInHead(text: string, head: string, block: string, at: nat, hb: string)
    requires NoFaceStart(head) && InertBlock(block)
    requires |head| < |text| && text[..|head|] == head
    requires BlockInsertionPoint(text) == Some(at) && at <= |head|
    requires hb == Insert(head + "\n", at, block)
    ensures hb == head[..at] + block + head[at..] + "\n"
    ensures NoFaceStart(hb)
  {
    InsertionPointAfterNewline(text, head, at);
    BlockedHeadFaceFree(head, block, at);
    assert (head + "\n")[..at] == head[..at];
    assert (head + "\n")[at..] == head[at..] + "\n";
  }

  /** The same when the blank line ends on the newline in front of the first face line: the
      block then follows that newline and ends its own last line. */
  lemma {:induction false} BlockAfterHead(head: string, block: string, hb: string)
    requires NoFaceStart(head) && InertBlock(block)
    requires hb == Insert(head + "\n", |head| + 1, block)
    ensures hb == head + "\n" + block
    ensures NoFaceStart(hb)
  {
    assert (head + "\n")[..|head| + 1] == head + "\n";
    assert (head + "\n")[|head| + 1..] == [];
    NoFaceStartLine("");
    assert "" + "\n" == "\n";
    NoFaceStartConcat(head, "\n");
    NoFaceStartConcat(head + "\n", block);
  }

  /** Where the block lands on a well-formed text: in front of the face lines, and the face
      section then starts on the newline that ends the part in front of them, hb. */
  lemma {:induction false} BlockPlaced(text: string, head: string, lines: string, tail: string, block: string, at: nat, hb: string)
    requires lines != [] && lines[0] == 'f'
    requires NoFaceStart(head) && InertBlock(block)
    requires text == head + "\n" + lines + tail
    requires BlockInsertionPoint(text) == Some(at) && at <= |head| + 1
    requires at == |head| + 1 ==> EndsLine(block)
    requires hb == Insert(head + "\n", at, block)
    ensures |hb| >= 1 && hb[|hb| - 1] == '\n'
    ensures Insert(text, at, block) == hb + lines + tail
    ensures FaceSectionStart(Insert(text, at, block)) == |hb| - 1
  {
    var rest := lines + tail;
    assert text == (head + "\n") + rest;
    if at <= |head| {
      assert text[..|head|] == head;
      BlockInHead(text, head, block, at, hb);
    } else {
      BlockAfterHead(head, block, hb);
    }
    InsertIntoHead(head + "\n", rest, at, block);
    var h := hb[..|hb| - 1];
    assert hb == h + "\n";
    FaceSectionStartAt(Insert(text, at, block), h, rest);
  }

  /** The face loop over all the faces of a text made of a head, its face lines and a tail. */
  lemma {:induction false} SpliceFromHead(text: string, h: string, faces: seq<Face>, tail: string, front: string)
    requires AllWellFormed(faces) && text == h + "\n" + FaceLines(faces) + tail
    requires front == h + "\n" + FaceLines(TaggedFaces(faces, 1))
    ensures |front| >= 1
    ensures SpliceFaces(Doc(text, |h|), 0, |faces|) == Success(Doc(front + tail, |front| - 1))
  {
    assert SpliceFaces(Doc(text, |h|), 0, |faces|) == Success(Doc(front + tail, |front| - 1)) by {
      SpliceWellFormed(text, h, faces, tail, front, 0, |faces|);
    }
  }

  /** SpliceFromHead with the newline in front of the face lines kept in the prefix. */
  lemma {:induction false} SpliceAfterLine(text: string, hb: string, faces: seq<Face>, tail: string, front: string)
    requires |hb| >= 1 && hb[|hb| - 1] == '\n'
    requires AllWellFormed(faces) && text == hb + FaceLines(faces) + tail
    requires front == hb + FaceLines(TaggedFaces(faces, 1))
    ensures |front| >= 1
    ensures SpliceFaces(Doc(text, |hb| - 1), 0, |faces|) == Success(Doc(front + tail, |front| - 1))
  {
    var h := hb[..|hb| - 1];
    assert hb == h + "\n";
    SpliceFromHead(text, h, faces, tail, front);
  }

  /** The face loop over a well-formed text once the block is in: it runs from the newline in
      front of the first face line and stops on the newline of the last one, the end of `front`. */
  lemma {:induction false} SplicedAfterBlock(text: string, head: string, faces: seq<Face>, tail: string, block: string, at: nat, front: string)
    requires WellFormedText(text, head, faces, tail, at) && InertBlock(block) && at <= |head| + 1
    requires at == |head| + 1 ==> EndsLine(block)
    requires front == Insert(head + "\n", at, block) + FaceLines(TaggedFaces(faces, 1))
    ensures |front| >= 1
    ensures SpliceFaces(Doc(Insert(text, at, block), FaceSectionStart(Insert(text, at, block))), 0, |faces|)
         == Success(Doc(front + tail, |front| - 1))
  {
    var hb := Insert(head + "\n", at, block);
    BlockPlaced(text, head, FaceLines(faces), tail, block, at, hb);
    SpliceAfterLine(Insert(text, at, block), hb, faces, tail, front);
  }

  /** Rewrite on a text whose face section is well formed and ends the part in front of `tail`:
      the corners of face i (from 1) are tagged "/i/i" and the trailer follows the last face
      line. The block goes in at the insertion point: in front of the face lines when the blank
      line ends there, else into the tail. */
  lemma {:induction false} RewriteWellFormed(text: string, head: string, faces: seq<Face>, tail: string, block: string, at: nat)
    requires WellFormedText(text, head, faces, tail, at) && InertBlock(block)
    requires at == |head| + 1 ==> EndsLine(block)
    ensures Rewrite(text, |faces|, block).Success?
    ensures at <= |head| + 1 || |head| + |FaceLines(faces)| + 2 <= at
    ensures AllWellFormed(TaggedFaces(faces, 1))
    ensures at <= |head| + 1 ==>
      (Rewrite(text, |faces|, block)
       == Success(Insert(head + "\n", at, block) + FaceLines(TaggedFaces(faces, 1)) + Trailer + tail))
    ensures |head| + 1 + |FaceLines(faces)| <= at ==>
      (Rewrite(text, |faces|, block)
       == Success(head + "\n" + FaceLines(TaggedFaces(faces, 1)) + Trailer
                  + Insert(tail, at - (|head| + 1 + |FaceLines(faces)|), block)))
  {
    BlankLineOutsideFaces(text, head, faces, tail, at);
    TaggedFacesWellFormed(faces, 1);
    if at <= |head| + 1 {
      var front := Insert(head + "\n", at, block) + FaceLines(TaggedFaces(faces, 1));
      SplicedAfterBlock(text, head, faces, tail, block, at, front);
      RewriteEndsAfter(text, |faces|, block, at, front, tail);
    } else {
      RewriteBlockInTail(text, head, faces, tail, block, at);
    }
  }

  /** glb_write_tangent_space end to end on a well-formed document: the attribute block built
      from the tangent spaces goes in after the blank line, every face corner is tagged with its
      face number and the trailer closes the face section; nothing else changes. */
  lemma {:induction false} PatchWellFormed(text: string, head: string, faces: seq<Face>, tail: string, ts: seq<TangentSpace>, fmt: Float -> string, at: nat)
    requires WellFormedText(text, head, faces, tail, at) && |ts| == |faces| && NoNewlineFormat(fmt)
    ensures Patch(Some(text), ts, fmt).Success?
    ensures at <= |head| + 1 || |head| + |FaceLines(faces)| + 2 <= at
    ensures AllWellFormed(TaggedFaces(faces, 1))
    ensures at <= |head| + 1 ==>
      (Patch(Some(text), ts, fmt)
       == Success(Insert(head + "\n", at, AttributeBlock(ts, fmt)) + FaceLines(TaggedFaces(faces, 1)) + Trailer + tail))
    ensures |head| + 1 + |FaceLines(faces)| <= at ==>
      (Patch(Some(text), ts, fmt)
       == Success(head + "\n" + FaceLines(TaggedFaces(faces, 1)) + Trailer
                  + Insert(tail, at - (|head| + 1 + |FaceLines(faces)|), AttributeBlock(ts, fmt))))
  {
    AttributeBlockFaceFree(ts, fmt);
    assert InertBlock(AttributeBlock(ts, fmt)) && EndsLine(AttributeBlock(ts, fmt));
    RewriteWellFormed(text, head, faces, tail, AttributeBlock(ts, fmt), at);
    assert Patch(Some(text), ts, fmt) == Rewrite(text, |faces|, AttributeBlock(ts, fmt));
  }
}
