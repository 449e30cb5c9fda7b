# Composite tree (PatronesEstructurales_Composite) in Dafny

This project models the conceptual Composite pattern of `Composite.cs`: an
abstract `Componente` with two concrete variants, the leaf `Hoja` and the
branch `Compuesto`, where a branch owns an ordered, mutable list of children
and every node answers `Operacion()` with a text built by walking the tree.

Modules:

- `Arboles` (`arboles.dfy`): the abstract tree `Arbol = Hoja | Rama(subarboles)`,
  its reference rendering `Render` (a leaf is `"Hoja"`, a branch is `"Rama("`,
  the children's renderings joined by `"+"`, then `")"`), and lemmas about the
  shape of a rendering and the number of `"+"` separators.
- `Lectura` (`lectura.dfy`): a reader for that text, and the proof that reading a
  rendering gives back the tree, so `Render` is injective.
- `Listas` (`listas.dfy`): the child list as a sequence; `IndexOf` and
  `RemoveFirst` model `List<T>.Remove` (first occurrence, compared by reference,
  nothing happens when absent).
- `Composite` (`composite.dfy`): the class `Componente`. The C# class hierarchy
  becomes one class whose constant `variante` says whether the object is a
  `Hoja` or a `Compuesto`; the two C# constructors are the named constructors
  `Hoja` and `Compuesto`. `Agregar` and `Eliminar` change the `hijos` field in
  place; `Operacion` runs the source's `foreach` loop with its counter `i` and
  accumulator, and is proved equal to `Render` of the node's abstract tree.
  Ghost fields `Repr` (a footprint holding every object the node reaches) and
  `Model` (the abstract tree) are tied to the real fields by `Valid()`, which
  also keeps the object graph acyclic. `Agregar` adds the new child's
  footprint; `Eliminar` recomputes the footprint from the remaining children,
  so a removed child's objects leave it.
- `Cliente` (`cliente.dfy`): `CodigoCliente2`, the add-then-remove round trip on
  objects, and the program's own scenario with the renderings it reports.

The base class's `Agregar`/`Eliminar` throw `NotImplementedException`; here
they return `NoImplementado` and leave the node unchanged. `EsCompuesto()` is
false for a `Hoja` (its override) and true for a `Compuesto` (the base default).

The tokens are the ones the code uses (`"Hoja"`, `"Rama("`, `"+"`, `")"`).

## Model

| member | source | states |
|---|---|---|
| `Composite.Componente.Hoja` | Composite.cs:35-46 | a new leaf is valid, has no children, stands for the tree `Hoja` and reports `EsCompuesto()` false |
| `Composite.Componente.Compuesto` | Composite.cs:49-51 | a new branch is valid, has an empty child list, stands for `Rama([])` and reports `EsCompuesto()` true through the base default (Composite.cs:26-29) |
| `Composite.Componente.Agregar` | Composite.cs:53-56 | on a composite, appends the child at the end (old list plus the child; the tree gains that child's tree as last subtree); on a leaf, fails with the base default's error and changes nothing; it succeeds exactly when `EsCompuesto()` holds |
| `Composite.Componente.Eliminar` | Composite.cs:58-61 | on a composite, the new list is the old one without the first occurrence (by reference) of the child, and unchanged when the child is absent; the tree loses exactly the matching subtree; after a removal the footprint is the node plus the remaining children's footprints, within the old one; on a leaf, fails and changes nothing |
| `Composite.Componente.Operacion` | Composite.cs:64-80 | the loop's result equals `Render` of the node's tree; a leaf always yields `"Hoja"` |
| `Composite.LoopStep` | Composite.cs:69-77 | one loop iteration (append the child's text, then `"+"` unless it is the last child) carries the loop invariant from i to i + 1 |
| `Arboles.RenderEmptyBranch` | Composite.cs:66-79 | a branch with no children renders as `"Rama()"` |
| `Arboles.BranchShape` | Composite.cs:64-79 | a branch with children c1..cn renders as `"Rama("`, r1, `"+"`, ..., `"+"`, rn, `")"`: it starts with the first child's text and ends with the last child's text and `")"`, children in list order |
| `Arboles.JoinSeparators` | Composite.cs:72-75 | joining n > 0 texts inserts exactly n - 1 separators |
| `Arboles.BranchSeparators` | Composite.cs:66-79 | the `"+"` in a branch's rendering are those inside the children's renderings plus exactly n - 1 at the top level |
| `Arboles.JoinHead` | Composite.cs:69-77 | the back-to-front join equals the front-to-back reading: first text, `"+"`, the rest joined |
| `Arboles.RenderAllAt` | Composite.cs:69-71 | the i-th child's text is the rendering of the i-th child |
| `Lectura.LeerRender` | Composite.cs:64-79 | reading back a rendering followed by any text yields the original tree and that text |
| `Lectura.RenderInjective` | Composite.cs:64-79 | two trees with the same rendering are the same tree: the reported text determines shape and child order |
| `Listas.IndexOf` | Composite.cs:60 | the position found is the first occurrence of the element, or -1 exactly when it is absent |
| `Listas.RemoveFirstSpec` | Composite.cs:58-61 | removal leaves the list unchanged when the element is absent, otherwise drops exactly the first occurrence and keeps all other elements in order (one element fewer, multiset minus that element) |
| `Listas.RemoveFirstAfterAppend` | Composite.cs:53-61 | appending an element that was not in the list and then removing it restores the list |
| `Cliente.CodigoCliente2` | Composite.cs:91-98 | adds the second component only when the first reports `EsCompuesto()`, the add then always succeeds (the first component's footprint grows by the second's), and the result is the rendering of the (possibly grown) first component |
| `Cliente.ReagregarTrasEliminar` | Composite.cs:53-61 | a branch added to another and removed again can take that other branch as its child through `CodigoCliente2`, and then renders as `"Rama(Rama())"` |
| `Cliente.AgregarLuegoEliminar` | Composite.cs:53-61 | `Agregar(c)` then `Eliminar(c)` on a composite, with `c` not already a child, restores the child list, the tree and its rendering |
| `Cliente.DemoRenderings` | Composite.cs:113-125 | the program's tree renders as `"Rama(Rama(Hoja+Hoja)+Rama(Hoja))"`, and with a leaf added to the root as `"Rama(Rama(Hoja+Hoja)+Rama(Hoja)+Hoja)"` |
| `Cliente.NuevaRama` | Composite.cs:114-118 | a new branch with one or two new leaves added through `Agregar` stands for `Rama([Hoja])` or `Rama([Hoja, Hoja])` |
| `Cliente.NuevoArbol` | Composite.cs:113-120 | the program's tree assembled through `Agregar` stands for `Rama([Rama([Hoja, Hoja]), Rama([Hoja])])` |
| `Cliente.Escenario` | Composite.cs:105-125 | on objects: the lone leaf yields `"Hoja"`, the tree yields `"Rama(Rama(Hoja+Hoja)+Rama(Hoja))"`, and after `CodigoCliente2` adds the leaf it yields `"Rama(Rama(Hoja+Hoja)+Rama(Hoja)+Hoja)"` |

## Left out

- Console output: `CodigoCliente` and the `Console.WriteLine` calls of `CodigoCliente2` and `Main` only print; `CodigoCliente2` and `Escenario` return the text that would be printed, without the `"Resultado: "` prefix.
- Exceptions: the base default's `NotImplementedException` is the result `NoImplementado`; propagation of an exception is not modelled.
- Composite.Componente.Agregar: requires that the added component does not reach the receiver (no cycle); the code accepts such an add, after which `Operacion` recurses without end.
- Composite.Componente.Operacion: requires `Valid()`, i.e. a finite acyclic structure whose every node is consistent; changing a node that is already some other node's child leaves that parent's ghost tree out of date, so sharing a mutable subtree between parents (aliasing) is not modelled beyond what `Valid()` allows.
- Cliente.CodigoCliente2: inherits the same acyclicity requirement when the first component is a composite.
- Composite.Componente.Agregar, Composite.Componente.Operacion: a child is a non-null `Componente`; in the code `Agregar(null)` is accepted and the later `Operacion` fails with a NullReferenceException when it reaches that child (Composite.cs:71), as does `CodigoCliente2` with a null first argument (Composite.cs:93). Null references are not modelled.
- Composite.Componente.Agregar: adds the child's footprint to the node's; `Valid()` asks only that `Repr` hold every reachable object, so the model does not state that `Repr` is exactly the reachable set (the constructors, `Agregar` and `Eliminar` each keep it exact when it was exact before, but no invariant records it).
- Subclasses other than `Hoja` and `Compuesto` (which would inherit `EsCompuesto() == true` together with the throwing `Agregar`) do not exist in the code and are not modelled.
- The `bool` returned by `List.Remove` is discarded by the code and not modelled; no `Equals` override exists, so children are compared by reference.
