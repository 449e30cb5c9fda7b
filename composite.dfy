/** The object tree of the Composite pattern.

    The abstract base `Componente` and its two concrete subclasses `Hoja` and
    `Compuesto` become one class whose constant `Variante` says which subclass an
    object is; every virtual call dispatches on it.  A `Compuesto` owns an
    ordered, mutable list of children (`hijos`), which `Agregar` and `Eliminar`
    change in place.  The inherited base behaviour of `Agregar`/`Eliminar`, which
    throws NotImplementedException, is the result `NoImplementado`.

    Ghost state, in the manner of a footprint: `Repr` holds every object this
    node reaches (itself and its children's footprints); `Eliminar` recomputes
    it from the remaining children, so a removed child's objects leave it.
    `Model` is the abstract tree (`Arboles.Arbol`) the node stands for.
    `Valid()` ties both to the real fields and keeps the structure acyclic, so
    the recursive `Operacion` terminates.
 */
module Composite {
  import opened Arboles
  import opened Listas

  datatype Variante = VarianteHoja | VarianteCompuesto

  /** Outcome of a child-management call: done, or the base default's
      NotImplementedException. */
  datatype Resultado = Hecho | NoImplementado

  class Componente {
    const variante: Variante
    var hijos: seq<Componente>

    ghost var Repr: set<object>
    ghost var Model: Arbol

    ghost predicate Valid()
      reads this, Repr
      decreases Repr
    {
      this in Repr &&
      (variante == VarianteHoja ==> hijos == [] && Model == Arboles.Hoja) &&
      (variante == VarianteCompuesto ==>
        Model.Rama? && |Model.subarboles| == |hijos| &&
        forall i :: 0 <= i < |hijos| ==>
          hijos[i] in Repr && hijos[i].Repr <= Repr && this !in hijos[i].Repr &&
          hijos[i].Valid() && hijos[i].Model == Model.subarboles[i])
    }

    /** `new Hoja()`: a leaf. */
    constructor Hoja()
      ensures Valid() && fresh(Repr)
      ensures variante == VarianteHoja && !EsCompuesto()
      ensures hijos == [] && Model == Arboles.Hoja
    {
      variante := VarianteHoja;
      hijos := [];
      Repr := {this};
      Model := Arboles.Hoja;
    }

    /** `new Compuesto()`: a branch with an empty child list. */
    constructor Compuesto()
      ensures Valid() && fresh(Repr)
      ensures variante == VarianteCompuesto && EsCompuesto()
      ensures hijos == [] && Model == Rama([])
    {
      variante := VarianteCompuesto;
      hijos := [];
      Repr := {this};
      Model := Rama([]);
    }

    /** `EsCompuesto`: Hoja overrides it to answer false; Compuesto keeps the
        base default, true.  Child management succeeds exactly when it is true. */
    predicate EsCompuesto()
    {
      match variante
      case VarianteHoja => false
      case VarianteCompuesto => true
    }

    /** `Agregar`: a Compuesto appends `c` at the end of its children; on a Hoja
        the base default fails and nothing changes.  Adding `c` must not close a
        cycle (`this` is not reachable from `c`). */
    method Agregar(c: Componente) returns (res: Resultado)
      requires Valid()
      requires EsCompuesto() ==> c.Valid() && this !in c.Repr
      modifies this
      ensures Valid()
      ensures res == Hecho <==> EsCompuesto()
      ensures res == NoImplementado ==>
        hijos == old(hijos) && Model == old(Model) && Repr == old(Repr)
      ensures res == Hecho ==>
        hijos == old(hijos) + [c] && Repr == old(Repr) + c.Repr &&
        Model == Rama(old(Model).subarboles + [c.Model])
    {
      if !EsCompuesto() {
        return NoImplementado;
      }
      hijos := hijos + [c];
      Repr := Repr + c.Repr;
      Model := Rama(Model.subarboles + [c.Model]);
      res := Hecho;
      forall i | 0 <= i < |hijos|
        ensures hijos[i].Valid() && hijos[i].Model == Model.subarboles[i]
      {
        if i < |hijos| - 1 {
          assert hijos[i] == old(hijos)[i];
          assert old(hijos[i].Valid());
        }
      }
    }

    /** `Eliminar`: a Compuesto removes the first occurrence of `c` (by
        reference) from its children, and changes nothing if `c` is not one of
        them; on a Hoja the base default fails and nothing changes. */
    method Eliminar(c: Componente) returns (res: Resultado)
      requires Valid()
      modifies this
      ensures Valid() && Repr <= old(Repr)
      ensures res == Hecho <==> EsCompuesto()
      ensures res == NoImplementado ==>
        hijos == old(hijos) && Model == old(Model) && Repr == old(Repr)
      ensures res == Hecho ==>
        hijos == RemoveFirst(old(hijos), c) &&
        Repr == (if c in old(hijos) then {this} + ReprHijos(hijos) else old(Repr)) &&
        Model == Rama(if c in old(hijos) then RemoveAt(old(Model).subarboles, IndexOf(old(hijos), c))
                      else old(Model).subarboles)
    {
      if !EsCompuesto() {
        return NoImplementado;
      }
      var k := IndexOf(hijos, c);
      if k != -1 {
        var quedan := RemoveAt(hijos, k);
        ghost var arboles := RemoveAt(Model.subarboles, k);
        QuitarHijo(k, quedan, arboles);
        Repr := {this} + ReprHijos(quedan);
        hijos := quedan;
        Model := Rama(arboles);
      }
      res := Hecho;
    }

    /** Removing the child at position `k` keeps every remaining child valid,
        outside `this` and inside the shrunk footprint, with its tree in step. */
    lemma QuitarHijo(k: nat, quedan: seq<Componente>, arboles: seq<Arbol>)
      requires Valid() && EsCompuesto() && k < |hijos|
      requires quedan == RemoveAt(hijos, k) && arboles == RemoveAt(Model.subarboles, k)
      ensures ReprHijos(quedan) <= Repr && |arboles| == |quedan|
      ensures forall i :: 0 <= i < |quedan| ==>
        quedan[i] != this && this !in quedan[i].Repr && quedan[i].Valid() &&
        quedan[i].Model == arboles[i] && quedan[i].Repr <= ReprHijos(quedan) &&
        quedan[i] in ReprHijos(quedan)
    {
      forall i | 0 <= i < |quedan|
        ensures quedan[i].Repr <= Repr && this !in quedan[i].Repr && quedan[i].Valid()
        ensures quedan[i] in quedan[i].Repr && quedan[i] != this && quedan[i].Model == arboles[i]
      {
        var j := if i < k then i else i + 1;
        assert quedan[i] == hijos[j];
      }
      ReprHijosWithin(quedan, Repr);
      ReprHijosCovers(quedan);
    }

    /** `Operacion`: a Hoja gives "Hoja"; a Compuesto walks its children in
        order, appending each child's result and a "+" after every child but the
        last, between "Rama(" and ")".  The result is the rendering of the
        abstract tree. */
    method Operacion() returns (r: string)
      requires Valid()
      ensures r == Render(Model)
      ensures !EsCompuesto() ==> r == "Hoja"
      decreases Repr
    {
      if !EsCompuesto() {
        return "Hoja";
      }
      ghost var ts := Model.subarboles;
      var n := |hijos|;
      var i := 0;
      var resultado := "Rama(";
      while i < n
        invariant 0 <= i <= n
        invariant resultado == "Rama(" + Join(RenderAll(ts[..i])) + (if 0 < i < n then "+" else "")
      {
        assert hijos[i].Repr < Repr;
        var parte := hijos[i].Operacion();
        LoopStep(ts, i, resultado, parte);
        resultado := resultado + parte;
        if i != n - 1 {
          resultado := resultado + "+";
        }
        i := i + 1;
      }
      assert ts[..i] == ts;
      r := resultado + ")";
    }
  }

  /** The union of the footprints of the given components. */
  ghost function ReprHijos(hs: seq<Componente>): (r: set<object>)
    reads set i | 0 <= i < |hs| :: hs[i]
  {
    if hs == [] then {} else ReprHijos(hs[..|hs| - 1]) + hs[|hs| - 1].Repr
  }

  /** Every component's footprint lies within the union. */
  lemma {:induction false} ReprHijosCovers(hs: seq<Componente>)
    ensures forall i :: 0 <= i < |hs| ==> hs[i].Repr <= ReprHijos(hs)
    decreases |hs|
  {
    if hs != [] {
      var n := |hs|;
      ReprHijosCovers(hs[..n - 1]);
      assert forall i :: 0 <= i < n - 1 ==> hs[..n - 1][i] == hs[i];
    }
  }

  /** The union lies within any set that holds every component's footprint. */
  lemma {:induction false} ReprHijosWithin(hs: seq<Componente>, cota: set<object>)
    requires forall i :: 0 <= i < |hs| ==> hs[i].Repr <= cota
    ensures ReprHijos(hs) <= cota
    decreases |hs|
  {
    if hs != [] {
      var n := |hs|;
      assert forall i :: 0 <= i < n - 1 ==> hs[..n - 1][i] == hs[i];
      ReprHijosWithin(hs[..n - 1], cota);
    }
  }

  /** One iteration of the rendering loop: appending the i-th child's rendering,
      and a separator unless it is the last child, extends the invariant to i + 1. */
  lemma LoopStep(ts: seq<Arbol>, i: nat, acc: string, parte: string)
    requires i < |ts|
    requires acc == "Rama(" + Join(RenderAll(ts[..i])) + (if 0 < i < |ts| then "+" else "")
    requires parte == Render(ts[i])
    ensures acc + parte + (if i != |ts| - 1 then "+" else "") ==
            "Rama(" + Join(RenderAll(ts[..i + 1])) + (if 0 < i + 1 < |ts| then "+" else "")
  {
    RenderAllGrow(ts, i);
    JoinSnoc(RenderAll(ts[..i]), parte);
  }
}
