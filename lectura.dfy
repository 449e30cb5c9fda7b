/** Reading a rendering back.

    The text `Render` produces follows the grammar
        tree  ::= "Hoja" | "Rama(" ")" | "Rama(" tree ("+" tree)* ")"
    and the reader below parses it.  Reading a rendering gives back the tree it
    came from, so the text a composite reports determines the whole tree: its
    shape, the variant of every node and the order of every child list.
 */
module Lectura {
  import opened Arboles

  datatype LecturaArbol = ArbolLeido(arbol: Arbol, resto: string) | FalloArbol
  datatype LecturaLista = ListaLeida(arboles: seq<Arbol>, resto: string) | FalloLista

  /** `s` begins with `p`. */
  predicate StartsWith(s: string, p: string)
  {
    |p| <= |s| && s[..|p|] == p
  }

  /** Reads one tree from the front of `s`; on success the unread rest is a
      proper suffix of `s`. */
  function LeerArbol(s: string): (l: LecturaArbol)
    ensures l.ArbolLeido? ==> |l.resto| < |s| && l.resto == s[|s| - |l.resto|..]
    decreases |s|, 0
  {
    if StartsWith(s, "Hoja") then ArbolLeido(Hoja, s[4..])
    else if StartsWith(s, "Rama()") then ArbolLeido(Rama([]), s[6..])
    else if StartsWith(s, "Rama(") then
      match LeerLista(s[5..])
      case ListaLeida(ts, r) => ArbolLeido(Rama(ts), r)
      case FalloLista => FalloArbol
    else FalloArbol
  }

  /** Reads `tree ("+" tree)* ")"` from the front of `s`. */
  function LeerLista(s: string): (l: LecturaLista)
    ensures l.ListaLeida? ==> |l.resto| < |s| && l.resto == s[|s| - |l.resto|..]
    decreases |s|, 1
  {
    match LeerArbol(s)
    case FalloArbol => FalloLista
    case ArbolLeido(t, r) =>
      if |r| > 0 && r[0] == ')' then ListaLeida([t], r[1..])
      else if |r| > 0 && r[0] == '+' then
        match LeerLista(r[1..])
        case ListaLeida(ts, r2) => ListaLeida([t] + ts, r2)
        case FalloLista => FalloLista
      else FalloLista
  }

  lemma StartsWithConcat(p: string, x: string)
    ensures StartsWith(p + x, p) && (p + x)[|p|..] == x
  {
    assert (p + x)[..|p|] == p;
  }

  lemma LeerHoja(rest: string)
    ensures LeerArbol("Hoja" + rest) == ArbolLeido(Hoja, rest)
  {
    StartsWithConcat("Hoja", rest);
  }

  lemma LeerRamaVacia(rest: string)
    ensures LeerArbol("Rama()" + rest) == ArbolLeido(Rama([]), rest)
  {
    var s := "Rama()" + rest;
    StartsWithConcat("Rama()", rest);
    assert s[..4][0] != "Hoja"[0];
  }

  lemma LeerRama(x: string)
    requires |x| > 0 && x[0] != ')'
    ensures LeerArbol("Rama(" + x) ==
            match LeerLista(x)
            case ListaLeida(ts, r) => ArbolLeido(Rama(ts), r)
            case FalloLista => FalloArbol
  {
    var s := "Rama(" + x;
    StartsWithConcat("Rama(", x);
    assert s[..4][0] != "Hoja"[0];
    assert s[..6][5] == x[0] != "Rama()"[5];
  }

  /** Reading a rendering followed by any text gives back the tree and that text. */
  lemma {:induction false} LeerRender(t: Arbol, rest: string)
    ensures LeerArbol(Render(t) + rest) == ArbolLeido(t, rest)
    decreases t, 1
  {
    match t
    case Hoja =>
      LeerHoja(rest);
    case Rama(cs) =>
      if |cs| == 0 {
        assert Render(t) + rest == "Rama()" + rest;
        LeerRamaVacia(rest);
      } else {
        var x := Join(RenderAll(cs)) + ")" + rest;
        assert Render(t) + rest == "Rama(" + x;
        RenderAllAt(cs, 0);
        RenderStart(cs[0]);
        JoinFirst(RenderAll(cs));
        assert x[0] == Join(RenderAll(cs))[0];
        LeerRama(x);
        LeerRenderAll(cs, rest);
      }
  }

  /** Reading the joined renderings of a non-empty list, then ")" and any text,
      gives back the list and that text. */
  lemma {:induction false} LeerRenderAll(cs: seq<Arbol>, rest: string)
    requires |cs| > 0
    ensures LeerLista(Join(RenderAll(cs)) + ")" + rest) == ListaLeida(cs, rest)
    decreases cs, 1
  {
    if |cs| == 1 {
      LeerRenderAllOne(cs, rest);
    } else {
      var tail := Join(RenderAll(cs[1..])) + ")" + rest;
      var whole := Join(RenderAll(cs)) + ")" + rest;
      assert whole == Render(cs[0]) + "+" + tail by {
        JoinRenderAllHead(cs);
        Reassoc(Join(RenderAll(cs)), Render(cs[0]), Join(RenderAll(cs[1..])), rest);
      }
      assert LeerLista(tail) == ListaLeida(cs[1..], rest) by {
        LeerRenderAll(cs[1..], rest);
      }
      LeerSiguiente(cs[0], tail, cs[1..], rest);
      assert [cs[0]] + cs[1..] == cs;
    }
  }

  lemma {:induction false} LeerRenderAllOne(cs: seq<Arbol>, rest: string)
    requires |cs| == 1
    ensures LeerLista(Join(RenderAll(cs)) + ")" + rest) == ListaLeida(cs, rest)
    decreases cs, 0
  {
    RenderAllAt(cs, 0);
    LeerUltimo(cs[0], rest);
    assert cs == [cs[0]];
  }

  lemma Reassoc(j: string, r0: string, j1: string, rest: string)
    requires j == r0 + "+" + j1
    ensures j + ")" + rest == r0 + "+" + (j1 + ")" + rest)
  {
  }

  /** A last element: its rendering, ")" and any text. */
  lemma {:induction false} LeerUltimo(t: Arbol, rest: string)
    ensures LeerLista(Render(t) + ")" + rest) == ListaLeida([t], rest)
    decreases t, 2
  {
    LeerRender(t, ")" + rest);
    assert Render(t) + ")" + rest == Render(t) + (")" + rest);
    assert (")" + rest)[1..] == rest;
  }

  /** An element followed by "+" and a list that reads back: the whole reads back. */
  lemma {:induction false} LeerSiguiente(t: Arbol, tail: string, ts: seq<Arbol>, rest: string)
    requires LeerLista(tail) == ListaLeida(ts, rest)
    ensures LeerLista(Render(t) + "+" + tail) == ListaLeida([t] + ts, rest)
    decreases t, 2
  {
    LeerRender(t, "+" + tail);
    assert Render(t) + "+" + tail == Render(t) + ("+" + tail);
    assert ("+" + tail)[1..] == tail;
  }

  /** Every rendering starts with a letter, never with ")". */
  lemma RenderStart(t: Arbol)
    ensures |Render(t)| > 0 && Render(t)[0] != ')'
  {
    match t
    case Hoja =>
      assert Render(t) == "Hoja";
    case Rama(cs) =>
      assert Render(t)[0] == "Rama("[0];
  }

  /** A join of non-empty parts starts with the first part's first character. */
  lemma JoinFirst(parts: seq<string>)
    requires |parts| > 0 && |parts[0]| > 0
    ensures |Join(parts)| > 0 && Join(parts)[0] == parts[0][0]
  {
    if |parts| >= 2 {
      JoinHead(parts);
    }
  }

  /** Distinct trees render differently: the reported text determines the tree. */
  lemma RenderInjective(t1: Arbol, t2: Arbol)
    requires Render(t1) == Render(t2)
    ensures t1 == t2
  {
    LeerRender(t1, "");
    LeerRender(t2, "");
    assert Render(t1) + "" == Render(t2) + "";
  }
}
