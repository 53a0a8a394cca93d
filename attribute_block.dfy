/** The vtan/vbi records glb_write_tangent_space builds before it touches the text. */
module Attributes {
  import opened Geometry
  import opened Decimal
  import opened FaceFree

  /** `%f` never prints a newline. */
  ghost predicate NoNewlineFormat(fmt: Float -> string) {
    forall x :: '\n' !in fmt(x)
  }

  /** One record: the tag, then the three components as `%f` prints them, space-separated. */
  function RecordLine(tag: string, v: Vector, fmt: Float -> string): string {
    tag + " " + fmt(v.x) + " " + fmt(v.y) + " " + fmt(v.z) + "\n"
  }

  /** The records of vs, one line each, in the order of vs. */
  function Records(tag: string, vs: seq<Vector>, fmt: Float -> string): (r: string)
    ensures r == [] <==> vs == []
    ensures vs != [] ==> r[|r| - 1] == '\n'
  {
    if vs == [] then "" else Records(tag, vs[..|vs| - 1], fmt) + RecordLine(tag, vs[|vs| - 1], fmt)
  }

  function Tangents(ts: seq<TangentSpace>): (vs: seq<Vector>)
    ensures |vs| == |ts| && forall i :: 0 <= i < |ts| ==> vs[i] == ts[i].tangent
  {
    seq(|ts|, i requires 0 <= i < |ts| => ts[i].tangent)
  }

  function Binormals(ts: seq<TangentSpace>): (vs: seq<Vector>)
    ensures |vs| == |ts| && forall i :: 0 <= i < |ts| ==> vs[i] == ts[i].binormal
  {
    seq(|ts|, i requires 0 <= i < |ts| => ts[i].binormal)
  }

  /** The comment that closes a block, `# N kind (Gen by glb_tbn_gen)`, and a blank line. */
  function CountComment(n: nat, kind: string): (c: string)
    ensures |c| > 2 + |Dec(n)| + 2 && c[..2] == "# " && c[2 + |Dec(n)|] == ' ' && c[|c| - 2..] == "\n\n"
    ensures AllDigits(c[2..2 + |Dec(n)|]) && ValueOf(c[2..2 + |Dec(n)|]) == n
  {
    var d := Dec(n);
    ValueOfDec(n);
    var c := "# " + d + " " + kind + " (Gen by glb_tbn_gen)\n\n";
    assert c[2..2 + |d|] == d by {
      assert c == ("# " + d) + (" " + kind + " (Gen by glb_tbn_gen)\n\n");
    }
    c
  }

  /** The text inserted after the normals: all tangent records and their count, then all
      binormal records and their count. */
  function AttributeBlock(ts: seq<TangentSpace>, fmt: Float -> string): (b: string)
    ensures |b| >= 4 && b[|b| - 2..] == "\n\n"
  {
    Records("vtan", Tangents(ts), fmt) + CountComment(|ts|, "tangents")
      + Records("vbi", Binormals(ts), fmt) + CountComment(|ts|, "binormals")
  }

  /** One of the two `+=` loops of glb_tbn_gen.cpp:255-272 and 278-295: a record per vector. */
  method BuildRecords(tag: string, vs: seq<Vector>, fmt: Float -> string) returns (records: string)
    ensures records == Records(tag, vs, fmt)
  {
    records := "";
    var i := 0;
    while i < |vs|
      invariant i <= |vs|
      invariant records == Records(tag, vs[..i], fmt)
    {
      var line := tag + " ";
      line := line + fmt(vs[i].x) + " ";
      line := line + fmt(vs[i].y) + " ";
      line := line + fmt(vs[i].z) + "\n";
      assert line == RecordLine(tag, vs[i], fmt);
      assert vs[..i + 1][..i] == vs[..i];
      records := records + line;
      i := i + 1;
    }
    assert vs[..i] == vs;
  }

  /** glb_tbn_gen.cpp:252-303: the tangent records and their count, then the binormal records and
      their count. */
  method BuildAttributeBlock(tangents: seq<TangentSpace>, fmt: Float -> string) returns (block: string)
    ensures block == AttributeBlock(tangents, fmt)
  {
    var vtanStr := BuildRecords("vtan", Tangents(tangents), fmt);
    vtanStr := vtanStr + CountComment(|tangents|, "tangents");
    var vbiStr := BuildRecords("vbi", Binormals(tangents), fmt);
    vbiStr := vbiStr + CountComment(|tangents|, "binormals");
    block := vtanStr + vbiStr;
  }

  /** Records of a concatenation are the records of each part, in order; in particular entry i
      comes after the records of entries 0..i-1 and before those of the rest. */
  lemma {:induction false} RecordsAppend(tag: string, a: seq<Vector>, b: seq<Vector>, fmt: Float -> string)
    ensures Records(tag, a + b, fmt) == Records(tag, a, fmt) + Records(tag, b, fmt)
    decreases |b|
  {
    if b == [] {
      assert a + b == a;
    } else {
      var b', last := b[..|b| - 1], b[|b| - 1];
      var ab := a + b;
      assert ab[..|ab| - 1] == a + b';
      assert ab[|ab| - 1] == last;
      var line := RecordLine(tag, last, fmt);
      calc {
        Records(tag, ab, fmt);
        Records(tag, a + b', fmt) + line;
        { RecordsAppend(tag, a, b', fmt); }
        Records(tag, a, fmt) + Records(tag, b', fmt) + line;
        Records(tag, a, fmt) + (Records(tag, b', fmt) + line);
      }
    }
  }

  /** Entry i's record line stands between the records before it and those after it. */
  lemma {:induction false} RecordOfEntry(tag: string, vs: seq<Vector>, fmt: Float -> string, i: nat)
    requires i < |vs|
    ensures Records(tag, vs, fmt)
         == Records(tag, vs[..i], fmt) + RecordLine(tag, vs[i], fmt) + Records(tag, vs[i + 1..], fmt)
  {
    assert vs == vs[..i] + [vs[i]] + vs[i + 1..];
    RecordsAppend(tag, vs[..i] + [vs[i]], vs[i + 1..], fmt);
    RecordsAppend(tag, vs[..i], [vs[i]], fmt);
    assert [vs[i]][..0] == [];
  }

  function CountChar(s: string, c: char): nat
  {
    if s == [] then 0 else CountChar(s[..|s| - 1], c) + (if s[|s| - 1] == c then 1 else 0)
  }

  lemma {:induction false} CountCharAppend(x: string, y: string, c: char)
    ensures CountChar(x + y, c) == CountChar(x, c) + CountChar(y, c)
    decreases |y|
  {
    if y == [] {
      assert x + y == x;
    } else {
      var y' := y[..|y| - 1];
      assert (x + y)[..|x + y| - 1] == x + y';
      assert (x + y)[|x + y| - 1] == y[|y| - 1];
      CountCharAppend(x, y', c);
    }
  }

  lemma {:induction false} CountCharAbsent(s: string, c: char)
    requires c !in s
    ensures CountChar(s, c) == 0
    decreases |s|
  {
    if s != [] {
      assert s[..|s| - 1] + [s[|s| - 1]] == s;
      CountCharAbsent(s[..|s| - 1], c);
    }
  }

  lemma {:induction false} RecordLineIsOneLine(tag: string, v: Vector, fmt: Float -> string)
    requires NoNewlineFormat(fmt) && '\n' !in tag
    ensures RecordLine(tag, v, fmt) == tag + " " + fmt(v.x) + " " + fmt(v.y) + " " + fmt(v.z) + "\n"
    ensures '\n' !in tag + " " + fmt(v.x) + " " + fmt(v.y) + " " + fmt(v.z)
  {
    assert '\n' !in fmt(v.x) && '\n' !in fmt(v.y) && '\n' !in fmt(v.z);
  }

  /** With a newline-free `%f`, the records of vs are exactly |vs| lines. */
  lemma {:induction false} RecordsLineCount(tag: string, vs: seq<Vector>, fmt: Float -> string)
    requires NoNewlineFormat(fmt) && '\n' !in tag
    ensures CountChar(Records(tag, vs, fmt), '\n') == |vs|
    decreases |vs|
  {
    if vs != [] {
      var v := vs[|vs| - 1];
      RecordsLineCount(tag, vs[..|vs| - 1], fmt);
      RecordLineIsOneLine(tag, v, fmt);
      var body := tag + " " + fmt(v.x) + " " + fmt(v.y) + " " + fmt(v.z);
      CountCharAbsent(body, '\n');
      CountCharAppend(body, "\n", '\n');
      CountCharAppend(Records(tag, vs[..|vs| - 1], fmt), RecordLine(tag, v, fmt), '\n');
    }
  }

  lemma {:induction false} CountCommentLineCount(n: nat, kind: string)
    requires '\n' !in kind
    ensures CountChar(CountComment(n, kind), '\n') == 2
  {
    var body := "# " + Dec(n) + " " + kind + " (Gen by glb_tbn_gen)";
    assert '\n' !in Dec(n);
    assert CountComment(n, kind) == body + "\n\n";
    CountCharAbsent(body, '\n');
    CountCharAppend(body, "\n\n", '\n');
  }

  /** With a newline-free `%f`, the block is 2N + 4 lines: N tangent records, their count and a
      blank line, N binormal records, their count and a blank line. */
  lemma {:induction false} AttributeBlockLineCount(ts: seq<TangentSpace>, fmt: Float -> string)
    requires NoNewlineFormat(fmt)
    ensures CountChar(AttributeBlock(ts, fmt), '\n') == 2 * |ts| + 4
  {
    var a, b := Records("vtan", Tangents(ts), fmt), CountComment(|ts|, "tangents");
    var c, d := Records("vbi", Binormals(ts), fmt), CountComment(|ts|, "binormals");
    assert CountChar(a, '\n') == |ts| by {
      RecordsLineCount("vtan", Tangents(ts), fmt);
    }
    assert CountChar(c, '\n') == |ts| by {
      RecordsLineCount("vbi", Binormals(ts), fmt);
    }
    assert CountChar(b, '\n') == 2 by {
      CountCommentLineCount(|ts|, "tangents");
    }
    assert CountChar(d, '\n') == 2 by {
      CountCommentLineCount(|ts|, "binormals");
    }
    CountCharFour(a, b, c, d, '\n');
  }

  lemma {:induction false} CountCharFour(a: string, b: string, c: string, d: string, ch: char)
    ensures CountChar(a + b + c + d, ch) == CountChar(a, ch) + CountChar(b, ch) + CountChar(c, ch) + CountChar(d, ch)
  {
    CountCharAppend(a, b, ch);
    CountCharAppend(a + b, c, ch);
    CountCharAppend(a + b + c, d, ch);
  }

  /** Non-empty records start with the first character of the tag. */
  lemma {:induction false} RecordsStart(tag: string, vs: seq<Vector>, fmt: Float -> string)
    requires |tag| > 0
    ensures Records(tag, vs, fmt) == [] <==> vs == []
    ensures vs != [] ==> Records(tag, vs, fmt)[0] == tag[0]
    decreases |vs|
  {
    if vs != [] {
      RecordsStart(tag, vs[..|vs| - 1], fmt);
    }
  }

  lemma {:induction false} RecordsFaceFree(tag: string, vs: seq<Vector>, fmt: Float -> string)
    requires NoNewlineFormat(fmt) && '\n' !in tag && |tag| > 0 && tag[0] != 'f'
    ensures NoFaceStart(Records(tag, vs, fmt))
    decreases |vs|
  {
    if vs != [] {
      var v := vs[|vs| - 1];
      RecordsFaceFree(tag, vs[..|vs| - 1], fmt);
      RecordLineIsOneLine(tag, v, fmt);
      NoFaceStartLine(tag + " " + fmt(v.x) + " " + fmt(v.y) + " " + fmt(v.z));
      NoFaceStartConcat(Records(tag, vs[..|vs| - 1], fmt), RecordLine(tag, v, fmt));
    }
  }

  lemma {:induction false} CountCommentFaceFree(n: nat, kind: string)
    requires '\n' !in kind
    ensures NoFaceStart(CountComment(n, kind))
  {
    var body := "# " + Dec(n) + " " + kind + " (Gen by glb_tbn_gen)";
    assert '\n' !in Dec(n);
    assert CountComment(n, kind) == (body + "\n") + "\n";
    NoFaceStartLine(body);
    NoFaceStartConcat(body + "\n", "\n");
  }

  /** With a newline-free `%f`, no line of the block starts with 'f', and the block starts with
      'v' and ends with a newline: it can never be mistaken for the face section. */
  lemma {:induction false} AttributeBlockFaceFree(ts: seq<TangentSpace>, fmt: Float -> string)
    requires NoNewlineFormat(fmt)
    ensures NoFaceStart(AttributeBlock(ts, fmt))
    ensures |AttributeBlock(ts, fmt)| >= 2
    ensures AttributeBlock(ts, fmt)[0] != 'f'
    ensures AttributeBlock(ts, fmt)[|AttributeBlock(ts, fmt)| - 1] == '\n'
  {
    var a, b := Records("vtan", Tangents(ts), fmt), CountComment(|ts|, "tangents");
    var c, d := Records("vbi", Binormals(ts), fmt), CountComment(|ts|, "binormals");
    assert NoFaceStart(a) && (a == [] || a[0] == 'v') by {
      RecordsFaceFree("vtan", Tangents(ts), fmt);
      RecordsStart("vtan", Tangents(ts), fmt);
    }
    assert NoFaceStart(c) && (c == [] || c[0] == 'v') by {
      RecordsFaceFree("vbi", Binormals(ts), fmt);
      RecordsStart("vbi", Binormals(ts), fmt);
    }
    assert NoFaceStart(b) && NoFaceStart(d) by {
      CountCommentFaceFree(|ts|, "tangents");
      CountCommentFaceFree(|ts|, "binormals");
    }
    SectionsFaceFree(a, b, c, d);
  }

  /** Records (empty or starting with 'v') and count comments put together, none of them
      holding a face start. */
  lemma {:induction false} SectionsFaceFree(a: string, b: string, c: string, d: string)
    requires NoFaceStart(a) && NoFaceStart(b) && NoFaceStart(c) && NoFaceStart(d)
    requires a == [] || a[0] == 'v'
    requires c == [] || c[0] == 'v'
    requires |b| >= 2 && b[0] == '#' && b[|b| - 1] == '\n'
    requires |d| >= 2 && d[0] == '#' && d[|d| - 1] == '\n'
    ensures NoFaceStart(a + b + c + d)
    ensures (a + b + c + d)[0] != 'f'
    ensures (a + b + c + d)[|a + b + c + d| - 1] == '\n'
  {
    NoFaceStartConcat(a, b);
    NoFaceStartConcat(a + b, c);
    NoFaceStartConcat(a + b + c, d);
  }
}
