/** The abstract value of a composite tree and its textual rendering.

    A tree is either a leaf (`Hoja`) or a branch (`Rama`) holding an ordered
    list of subtrees.  `Render` is the reference definition of what the
    object-level `Operacion` produces: a leaf is the word "Hoja", a branch is
    "Rama(" followed by its children's renderings separated by "+" and then ")".
 */
module Arboles {

  datatype Arbol = Hoja | Rama(subarboles: seq<Arbol>)

  /** Joins the parts with "+" between consecutive parts and none after the last.
      Defined from the back, the way the rendering loop grows its result. */
  function Join(parts: seq<string>): (s: string)
  {
    if |parts| == 0 then ""
    else if |parts| == 1 then parts[0]
    else Join(parts[..|parts| - 1]) + "+" + parts[|parts| - 1]
  }

  /** The renderings of a list of trees, element by element. */
  function RenderAll(ts: seq<Arbol>): (rs: seq<string>)
    ensures |rs| == |ts|
    decreases ts, 0
  {
    if |ts| == 0 then [] else RenderAll(ts[..|ts| - 1]) + [Render(ts[|ts| - 1])]
  }

  /** The text a tree renders as. */
  function Render(t: Arbol): (s: string)
    decreases t, 1
  {
    match t
    case Hoja => "Hoja"
    case Rama(cs) => "Rama(" + Join(RenderAll(cs)) + ")"
  }

  /** Number of occurrences of character `c` in `s`. */
  function Count(s: string, c: char): (n: nat)
    ensures n <= |s|
  {
    if |s| == 0 then 0 else Count(s[..|s| - 1], c) + (if s[|s| - 1] == c then 1 else 0)
  }

  /** Total number of occurrences of `c` over all parts. */
  function CountAll(parts: seq<string>, c: char): (n: nat)
  {
    if |parts| == 0 then 0 else CountAll(parts[..|parts| - 1], c) + Count(parts[|parts| - 1], c)
  }

  // ---------------------------------------------------------------------------
  // Properties of the rendering
  // ---------------------------------------------------------------------------

  /** The i-th rendering is the rendering of the i-th tree. */
  lemma {:induction false} RenderAllAt(ts: seq<Arbol>, i: nat)
    requires i < |ts|
    ensures RenderAll(ts)[i] == Render(ts[i])
    decreases |ts|
  {
    if i < |ts| - 1 {
      RenderAllAt(ts[..|ts| - 1], i);
    }
  }

  /** Rendering one more child of a prefix appends exactly that child's rendering. */
  lemma RenderAllGrow(ts: seq<Arbol>, i: nat)
    requires i < |ts|
    ensures RenderAll(ts[..i + 1]) == RenderAll(ts[..i]) + [Render(ts[i])]
  {
    assert ts[..i + 1][..i] == ts[..i];
  }

  /** Rendering a list with one more tree appends that tree's rendering. */
  lemma RenderAllSnoc(ts: seq<Arbol>, t: Arbol)
    ensures RenderAll(ts + [t]) == RenderAll(ts) + [Render(t)]
  {
    assert (ts + [t])[..|ts|] == ts;
  }

  /** Joining one more part adds a separator first unless it is the first part. */
  lemma JoinSnoc(parts: seq<string>, x: string)
    ensures Join(parts + [x]) == if |parts| == 0 then x else Join(parts) + "+" + x
  {
    assert (parts + [x])[..|parts|] == parts;
  }

  /** Read from the front: the first part, a separator, then the remaining parts joined. */
  lemma {:induction false} JoinHead(parts: seq<string>)
    requires |parts| >= 2
    ensures Join(parts) == parts[0] + "+" + Join(parts[1..])
    decreases |parts|
  {
    var n := |parts|;
    if n == 2 {
      assert parts[1..] == [parts[1]];
    } else {
      JoinHead(parts[..n - 1]);
      assert parts[..n - 1][1..] == parts[1..][..n - 2];
      assert parts[..n - 1][0] == parts[0];
    }
  }

  /** The renderings of all but the first tree are the tail of the renderings. */
  lemma RenderAllTail(cs: seq<Arbol>)
    requires |cs| > 0
    ensures RenderAll(cs)[1..] == RenderAll(cs[1..])
  {
    forall i | 0 <= i < |cs| - 1
      ensures RenderAll(cs)[1..][i] == RenderAll(cs[1..])[i]
    {
      RenderAllAt(cs, i + 1);
      RenderAllAt(cs[1..], i);
    }
  }

  /** The joined renderings of two or more trees, read from the front. */
  lemma JoinRenderAllHead(cs: seq<Arbol>)
    requires |cs| >= 2
    ensures Join(RenderAll(cs)) == Render(cs[0]) + "+" + Join(RenderAll(cs[1..]))
  {
    RenderAllAt(cs, 0);
    JoinHead(RenderAll(cs));
    RenderAllTail(cs);
  }

  lemma {:induction false} CountConcat(a: string, b: string, c: char)
    ensures Count(a + b, c) == Count(a, c) + Count(b, c)
    decreases |b|
  {
    if |b| > 0 {
      assert (a + b)[..|a + b| - 1] == a + b[..|b| - 1];
      CountConcat(a, b[..|b| - 1], c);
    } else {
      assert a + b == a;
    }
  }

  /** Joining n > 0 parts adds exactly n - 1 separators to those inside the parts. */
  lemma {:induction false} JoinSeparators(parts: seq<string>)
    requires |parts| > 0
    ensures Count(Join(parts), '+') == CountAll(parts, '+') + |parts| - 1
    decreases |parts|
  {
    var n := |parts|;
    if n > 1 {
      JoinSeparators(parts[..n - 1]);
      CountConcat(Join(parts[..n - 1]), "+", '+');
      CountConcat(Join(parts[..n - 1]) + "+", parts[n - 1], '+');
      assert Count("+", '+') == 1 by {
        assert "+"[..0] == "";
      }
    }
  }

  /** A branch with no children renders as "Rama()". */
  lemma RenderEmptyBranch()
    ensures Render(Rama([])) == "Rama()"
  {
  }

  /** A branch with children c1..cn (n > 0) renders as "Rama(" r1 "+" ... "+" rn ")":
      it opens with the first child's rendering, and it closes with the last
      child's rendering followed by ")", so no separator follows the last child. */
  lemma BranchShape(cs: seq<Arbol>)
    requires |cs| > 0
    ensures |cs| == 1 ==> Render(Rama(cs)) == "Rama(" + Render(cs[0]) + ")"
    ensures |cs| > 1 ==> Render(Rama(cs)) == "Rama(" + Render(cs[0]) + "+" + Join(RenderAll(cs[1..])) + ")"
    ensures |cs| > 1 ==> Render(Rama(cs)) == "Rama(" + Join(RenderAll(cs[..|cs| - 1])) + "+" + Render(cs[|cs| - 1]) + ")"
  {
    RenderAllAt(cs, 0);
    if |cs| > 1 {
      JoinRenderAllHead(cs);
    }
  }

  /** In the rendering of a branch with n children, the "+" separators are those
      inside the children's renderings plus exactly n - 1 at the top level. */
  lemma BranchSeparators(cs: seq<Arbol>)
    ensures Count(Render(Rama(cs)), '+') ==
            CountAll(RenderAll(cs), '+') + (if |cs| == 0 then 0 else |cs| - 1)
  {
    var inner := Join(RenderAll(cs));
    CountConcat("Rama(" + inner, ")", '+');
    CountConcat("Rama(", inner, '+');
    assert Count("Rama(", '+') == 0 by {
      assert "Rama("[..4] == "Rama";
      assert "Rama"[..3] == "Ram";
      assert "Ram"[..2] == "Ra";
      assert "Ra"[..1] == "R";
      assert "R"[..0] == "";
    }
    assert Count(")", '+') == 0 by {
      assert ")"[..0] == "";
    }
    if |cs| > 0 {
      JoinSeparators(RenderAll(cs));
    }
  }
}
