/** Client code that works with components only through the shared interface,
    and the demonstration tree the program builds. */
module Cliente {
  import opened Arboles
  import opened Listas
  import opened Composite

  /** `CodigoCliente2`: attaches `c2` to `c1` only when `c1` says it is a
      composite, then yields `c1`'s rendering (the text the client reports).
      The guard makes the base default's failure unreachable: the add done here
      always succeeds. */
  method CodigoCliente2(c1: Componente, c2: Componente) returns (resultado: string)
    requires c1.Valid()
    requires c1.EsCompuesto() ==> c2.Valid() && c1 !in c2.Repr
    modifies c1
    ensures c1.Valid()
    ensures c1.EsCompuesto() ==>
      c1.hijos == old(c1.hijos) + [c2] && c1.Repr == old(c1.Repr) + c2.Repr &&
      c1.Model == Rama(old(c1.Model).subarboles + [c2.Model])
    ensures !c1.EsCompuesto() ==>
      c1.hijos == old(c1.hijos) && c1.Model == old(c1.Model) && c1.Repr == old(c1.Repr)
    ensures resultado == Render(c1.Model)
  {
    if c1.EsCompuesto() {
      var res := c1.Agregar(c2);
      assert res == Hecho;
    }
    resultado := c1.Operacion();
  }

  /** Adding a component that is not yet a child and then removing it restores
      the child list, and with it the tree and its rendering. */
  method AgregarLuegoEliminar(n: Componente, c: Componente)
    requires n.Valid() && n.EsCompuesto()
    requires c.Valid() && n !in c.Repr && c !in n.hijos
    modifies n
    ensures n.Valid()
    ensures n.hijos == old(n.hijos) && n.Model == old(n.Model)
    ensures Render(n.Model) == old(Render(n.Model))
  {
    ghost var antes := n.Model.subarboles;
    var r1 := n.Agregar(c);
    ghost var durante := n.Model.subarboles;
    assert durante == antes + [c.Model];
    var r2 := n.Eliminar(c);
    RemoveFirstAfterAppend(old(n.hijos), c);
    assert c in old(n.hijos) + [c];
    IndexOfAppended(old(n.hijos), c);
    assert RemoveAt(durante, |antes|) == antes;
  }

  /** Once a child is removed, its objects leave the parent's footprint: a
      branch `b` added to `a` and removed again can then take `a` as its own
      child, and `b` reports the rendering of a branch holding an empty branch. */
  method ReagregarTrasEliminar() returns (r: string)
    ensures r == "Rama(Rama())"
  {
    var a := new Componente.Compuesto();
    var b := new Componente.Compuesto();
    var _ := a.Agregar(b);
    var _ := a.Eliminar(b);
    r := CodigoCliente2(b, a);
    RenderOne(Rama([]));
    RenderEmptyBranch();
  }

  /** The tree the program assembles: a root with two branches, the first
      holding two leaves and the second one leaf. */
  function DemoTree(): (t: Arbol)
  {
    Rama([Rama([Hoja, Hoja]), Rama([Hoja])])
  }

  /** A branch with one child. */
  lemma RenderOne(a: Arbol)
    ensures Render(Rama([a])) == "Rama(" + Render(a) + ")"
  {
    RenderAllSnoc([], a);
  }

  /** The joined renderings of two trees. */
  lemma JoinTwo(a: Arbol, b: Arbol)
    ensures Join(RenderAll([a, b])) == Render(a) + "+" + Render(b)
  {
    RenderAllSnoc([], a);
    RenderAllSnoc([a], b);
    assert [a] + [b] == [a, b];
    assert RenderAll([a, b]) == [Render(a)] + [Render(b)];
    JoinSnoc([Render(a)], Render(b));
    assert Join([Render(a)]) == Render(a);
  }

  /** A branch with two children. */
  lemma RenderTwo(a: Arbol, b: Arbol)
    ensures Render(Rama([a, b])) == "Rama(" + Render(a) + "+" + Render(b) + ")"
  {
    JoinTwo(a, b);
  }

  /** A branch with three children. */
  lemma RenderThree(a: Arbol, b: Arbol, c: Arbol)
    ensures Render(Rama([a, b, c])) == "Rama(" + Render(a) + "+" + Render(b) + "+" + Render(c) + ")"
  {
    var cs := [a, b, c];
    BranchShape(cs);
    assert cs[..2] == [a, b];
    JoinTwo(a, b);
  }

  /** The program's first branch: two leaves. */
  lemma DemoFirstBranch()
    ensures Render(Rama([Hoja, Hoja])) == "Rama(Hoja+Hoja)"
  {
    RenderTwo(Hoja, Hoja);
  }

  /** The program's second branch: one leaf. */
  lemma DemoSecondBranch()
    ensures Render(Rama([Hoja])) == "Rama(Hoja)"
  {
    RenderOne(Hoja);
  }

  /** The renderings the program reports for its tree, before and after the
      guarded add of a leaf to the root. */
  lemma DemoRenderings()
    ensures Render(DemoTree()) == "Rama(Rama(Hoja+Hoja)+Rama(Hoja))"
    ensures Render(Rama(DemoTree().subarboles + [Hoja])) == "Rama(Rama(Hoja+Hoja)+Rama(Hoja)+Hoja)"
  {
    var x, y := "Rama(Hoja+Hoja)", "Rama(Hoja)";
    assert "Rama(" + x + "+" + y + ")" == "Rama(Rama(Hoja+Hoja)+Rama(Hoja))";
    assert "Rama(" + x + "+" + y + "+" + "Hoja" + ")" == "Rama(Rama(Hoja+Hoja)+Rama(Hoja)+Hoja)";
    var b1, b2 := Rama([Hoja, Hoja]), Rama([Hoja]);
    DemoFirstBranch();
    DemoSecondBranch();
    RenderTwo(b1, b2);
    RenderThree(b1, b2, Hoja);
    assert DemoTree().subarboles + [Hoja] == [b1, b2, Hoja];
  }

  /** A new branch holding the given number of new leaves (one or two). */
  method NuevaRama(hojas: nat) returns (rama: Componente)
    requires 1 <= hojas <= 2
    ensures rama.Valid() && fresh(rama.Repr) && rama.EsCompuesto()
    ensures rama.Model == if hojas == 1 then Rama([Hoja]) else Rama([Hoja, Hoja])
  {
    rama := new Componente.Compuesto();
    var h1 := new Componente.Hoja();
    var _ := rama.Agregar(h1);
    if hojas == 2 {
      var h2 := new Componente.Hoja();
      var _ := rama.Agregar(h2);
    }
  }

  /** The program's tree, assembled with `Agregar` as the program does it. */
  method NuevoArbol() returns (arbol: Componente)
    ensures arbol.Valid() && fresh(arbol.Repr) && arbol.EsCompuesto()
    ensures arbol.Model == DemoTree()
  {
    arbol := new Componente.Compuesto();
    var rama1 := NuevaRama(2);
    var rama2 := NuevaRama(1);
    var _ := arbol.Agregar(rama1);
    var _ := arbol.Agregar(rama2);
  }

  /** The program's scenario on objects: a lone leaf, then the assembled tree,
      then the same tree after `CodigoCliente2` attaches that leaf to the root. */
  method Escenario() returns (simple: string, arbolInicial: string, arbolFinal: string)
    ensures simple == "Hoja"
    ensures arbolInicial == "Rama(Rama(Hoja+Hoja)+Rama(Hoja))"
    ensures arbolFinal == "Rama(Rama(Hoja+Hoja)+Rama(Hoja)+Hoja)"
  {
    var hoja := new Componente.Hoja();
    simple := hoja.Operacion();
    var arbol := NuevoArbol();
    arbolInicial := arbol.Operacion();
    arbolFinal := CodigoCliente2(arbol, hoja);
    DemoRenderings();
  }
}
