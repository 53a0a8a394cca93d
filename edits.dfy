/** Text changed by insertions only, and how to take the insertions out again. */
module Edits {
  import opened Results

  /** std::string::insert(at, frag): frag now stands at `at`, the text around it is unchanged. */
  function Insert(s: string, at: nat, frag: string): (r: string)
    requires at <= |s|
    ensures |r| == |s| + |frag|
  {
    s[..at] + frag + s[at..]
  }

  /** What an insertion does: the text before `at` is unchanged, frag follows it, and then the
      rest of the text, unchanged. */
  lemma {:induction false} InsertMeaning(s: string, at: nat, frag: string)
    requires at <= |s|
    ensures Insert(s, at, frag)[..at] == s[..at]
    ensures Insert(s, at, frag)[at..at + |frag|] == frag
    ensures Insert(s, at, frag)[at + |frag|..] == s[at..]
  {
    var r := Insert(s, at, frag);
    assert r == s[..at] + frag + s[at..];
  }

  /** Inserting a then, right after it, b is inserting a + b. */
  lemma {:induction false} InsertThenInsert(s: string, at: nat, a: string, b: string)
    requires at <= |s|
    ensures Insert(Insert(s, at, a), at + |a|, b) == Insert(s, at, a + b)
  {
    var t := Insert(s, at, a);
    assert t[..at + |a|] == s[..at] + a;
    assert t[at + |a|..] == s[at..];
  }

  /** Inserting at the seam of x + y puts the fragment between them. */
  lemma {:induction false} InsertAtSeam(x: string, y: string, frag: string)
    ensures Insert(x + y, |x|, frag) == x + frag + y
  {
    assert (x + y)[..|x|] == x;
    assert (x + y)[|x|..] == y;
  }

  datatype Insertion = Insertion(at: nat, frag: string)

  /** The text after the insertions of the log, in order, each at a position of the text as it is
      at that moment; None when a position lies past the end. */
  function Apply(s: string, log: seq<Insertion>): Option<string>
  {
    if log == [] then Some(s)
    else match Apply(s, log[..|log| - 1])
      case None => None
      case Some(u) =>
        var e := log[|log| - 1];
        if e.at <= |u| then Some(Insert(u, e.at, e.frag)) else None
  }

  /** Takes e.frag out at e.at, provided it stands there. */
  function Remove(t: string, e: Insertion): Option<string>
  {
    if e.at + |e.frag| <= |t| && t[e.at..e.at + |e.frag|] == e.frag
    then Some(t[..e.at] + t[e.at + |e.frag|..])
    else None
  }

  /** Takes the insertions of the log out of t again, the last one first. */
  function Undo(t: string, log: seq<Insertion>): Option<string>
    decreases |log|
  {
    if log == [] then Some(t)
    else match Remove(t, log[|log| - 1])
      case None => None
      case Some(u) => Undo(u, log[..|log| - 1])
  }

  function Fragments(log: seq<Insertion>): seq<string>
  {
    seq(|log|, i requires 0 <= i < |log| => log[i].frag)
  }

  /** Removing what was just inserted gives back the text. */
  lemma {:induction false} RemoveInsert(s: string, at: nat, frag: string)
    requires at <= |s|
    ensures Remove(Insert(s, at, frag), Insertion(at, frag)) == Some(s)
  {
    var t := Insert(s, at, frag);
    assert t[..at] + t[at + |frag|..] == s;
  }

  /** Deleting the inserted fragments, last first, recovers the original text. */
  lemma {:induction false} UndoApply(s: string, log: seq<Insertion>, t: string)
    requires Apply(s, log) == Some(t)
    ensures Undo(t, log) == Some(s)
  {
    if log != [] {
      var init, e := log[..|log| - 1], log[|log| - 1];
      var u := Apply(s, init).value;
      assert t == Insert(u, e.at, e.frag);
      RemoveInsert(u, e.at, e.frag);
      UndoApply(s, init, u);
    }
  }

  /** A log of one insertion. */
  lemma {:induction false} ApplyOne(s: string, e: Insertion)
    requires e.at <= |s|
    ensures Apply(s, [e]) == Some(Insert(s, e.at, e.frag))
  {
    assert [e][..0] == [];
  }

  /** Applying two logs one after the other is applying their concatenation. */
  lemma {:induction false} ApplyAppend(s: string, l1: seq<Insertion>, l2: seq<Insertion>, u: string)
    requires Apply(s, l1) == Some(u)
    ensures Apply(s, l1 + l2) == Apply(u, l2)
  {
    if l2 != [] {
      var l2' := l2[..|l2| - 1];
      assert (l1 + l2)[..|l1 + l2| - 1] == l1 + l2';
      assert (l1 + l2)[|l1 + l2| - 1] == l2[|l2| - 1];
      ApplyAppend(s, l1, l2', u);
    } else {
      assert l1 + l2 == l1;
    }
  }

  lemma {:induction false} FragmentsAppend(l1: seq<Insertion>, l2: seq<Insertion>)
    ensures Fragments(l1 + l2) == Fragments(l1) + Fragments(l2)
  {
  }
}
