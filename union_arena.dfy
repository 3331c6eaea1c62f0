/**
 * The objects `unions-to-interfaces` works on. The JavaScript shares and mutates type
 * objects and memoises on their identity, so the model keeps them in an arena of cells
 * addressed by `Id`, and node objects likewise; this module holds the arena, what it
 * denotes, and the relations between two states of it.
 */
module UnionArena {
  import opened Wrappers
  import opened SemanticTypes
  import Text

  /** The identity of a type object or of a node object. */
  type Id = nat

  /** A type object `{kind, argument}`; the argument of a wrapper or a union refers to other type objects. */
  datatype Cell =
    | ValueCell(tag: string)
    | EnumCell(name: string)
    | NodeCell(name: string)
    | NamedCell(alias: string)
    | NullableCell(arg: Id)
    | ListCell(arg: Id)
    | UnionCell(members: seq<Id>)

  /** An attribute object `{name, type, inherited}`. */
  datatype Attr = Attr(name: string, typ: Id, inherited: bool)

  /** A node object `{parents, children, attributes}`. */
  datatype NodeObject = NodeObject(parents: seq<string>, children: seq<string>, attributes: seq<Attr>)

  const EmptyNode := NodeObject([], [], [])

  /*
   * ---------- The arena of type objects ----------
   */

  /** The arguments of `id` lie strictly lower in `rank`: the objects form no cycle. */
  ghost predicate Below(cells: map<Id, Cell>, rank: Id -> nat, id: Id)
    requires id in cells
  {
    match cells[id]
    case NullableCell(a) => a in cells && rank(a) < rank(id)
    case ListCell(a) => a in cells && rank(a) < rank(id)
    case UnionCell(ms) => forall m <- ms :: m in cells && rank(m) < rank(id)
    case _ => true
  }

  ghost predicate Shaped(cells: map<Id, Cell>, rank: Id -> nat)
  {
    forall id <- cells :: Below(cells, rank, id)
  }

  /** Every typedef names a type object, and a reference to a typedef lies above its target. */
  ghost predicate NamedRanked(cells: map<Id, Cell>, rank: Id -> nat, namedTypes: map<string, Id>)
  {
    && (forall n <- namedTypes :: namedTypes[n] in cells)
    && (forall id <- cells :: cells[id].NamedCell? && cells[id].alias in namedTypes ==>
          rank(namedTypes[cells[id].alias]) < rank(id))
  }

  /** The type an object stands for, read through its arguments. */
  function Denote(cells: map<Id, Cell>, ghost rank: Id -> nat, id: Id): SemanticType
    requires Shaped(cells, rank) && id in cells
    decreases rank(id)
  {
    match cells[id]
    case ValueCell(tag) => Value(tag)
    case EnumCell(n) => Enum(n)
    case NodeCell(n) => Node(n)
    case NamedCell(a) => NamedType(a)
    case NullableCell(a) => Nullable(Denote(cells, rank, a))
    case ListCell(a) => List(Denote(cells, rank, a))
    case UnionCell(ms) => Union(seq(|ms|, k requires 0 <= k < |ms| => Denote(cells, rank, ms[k])))
  }

  /** A cleaned object: a value, an enum or a node, or a wrapper around a cleaned object. */
  ghost predicate CleanCell(c: Cell, clean: set<Id>)
  {
    match c
    case ValueCell(_) => true
    case EnumCell(_) => true
    case NodeCell(_) => true
    case NullableCell(a) => a in clean
    case ListCell(a) => a in clean
    case _ => false
  }

  ghost predicate Closed(cells: map<Id, Cell>, clean: set<Id>)
  {
    forall id <- clean :: id in cells && CleanCell(cells[id], clean)
  }

  /**
   * `seen` maps each object met to a cleaned result no higher than it; a cleaned
   * wrapper has been met, so it is never written again.
   */
  ghost predicate Memoised(cells: map<Id, Cell>, rank: Id -> nat, seen: map<Id, Id>, clean: set<Id>)
  {
    && Closed(cells, clean)
    && (forall id <- seen :: id in cells && seen[id] in clean && rank(seen[id]) <= rank(id))
    && (forall id <- clean :: cells[id].NullableCell? || cells[id].ListCell? ==> id in seen)
  }

  /** Recording a cleaned or a base object for an object that is not a wrapper keeps the memo sound. */
  lemma MemoRecord(cells: map<Id, Cell>, rank: Id -> nat, seen: map<Id, Id>, clean: set<Id>, t: Id, v: Id)
    requires Memoised(cells, rank, seen, clean) && t in cells && !(cells[t].NullableCell? || cells[t].ListCell?)
    requires v in clean || (v in cells && (cells[v].ValueCell? || cells[v].EnumCell? || cells[v].NodeCell?))
    requires rank(v) <= rank(t)
    ensures Memoised(cells, rank, seen[t := v], clean + {v})
  {
  }

  /** A cleaned object stands for a type with no union and no typedef reference at any depth. */
  lemma {:induction false} CleanIsUnionFree(cells: map<Id, Cell>, rank: Id -> nat, clean: set<Id>, id: Id)
    requires Shaped(cells, rank) && Closed(cells, clean) && id in clean
    ensures UnionFree(Denote(cells, rank, id))
    decreases rank(id)
  {
    match cells[id]
    case NullableCell(a) => CleanIsUnionFree(cells, rank, clean, a);
    case ListCell(a) => CleanIsUnionFree(cells, rank, clean, a);
    case _ =>
  }

  /** `t.argument` used as a key of `nodes`: a name, or an object that is never a key. */
  function ArgumentName(c: Cell): (r: Option<string>)
    ensures r.Some? <==> !(c.NullableCell? || c.ListCell? || c.UnionCell?)
  {
    match c
    case ValueCell(tag) => Some(tag)
    case EnumCell(n) => Some(n)
    case NodeCell(n) => Some(n)
    case NamedCell(a) => Some(a)
    case _ => None
  }

  const ObjectText := "[object Object]"

  /** `String(t.argument)`: a name, or what JavaScript prints for an object or an array of objects. */
  function ArgumentText(c: Cell): string
  {
    match c
    case UnionCell(ms) => Text.Join(seq(|ms|, _ => ObjectText), ",")
    case _ => if ArgumentName(c).Some? then ArgumentName(c).value else ObjectText
  }

  /** `type.argument.map(t => t.argument).join('')`: the name of the node that replaces a union. */
  function UnionName(cells: map<Id, Cell>, ms: seq<Id>): (r: string)
    requires forall m <- ms :: m in cells
    ensures (forall m <- ms :: ArgumentName(cells[m]).Some?) ==> r == Text.Join(MemberNames(cells, ms), "")
  {
    if ms == [] then ""
    else
      var rest := UnionName(cells, ms[1..]);
      if |ms| == 1 then ArgumentText(cells[ms[0]])
      else ArgumentText(cells[ms[0]]) + rest
  }

  /** The names of the members of a union, all of a named kind. */
  function MemberNames(cells: map<Id, Cell>, ms: seq<Id>): (r: seq<string>)
    requires forall m <- ms :: m in cells && ArgumentName(cells[m]).Some?
    ensures |r| == |ms| && forall k :: 0 <= k < |ms| ==> r[k] == ArgumentName(cells[ms[k]]).value
  {
    if ms == [] then [] else [ArgumentName(cells[ms[0]]).value] + MemberNames(cells, ms[1..])
  }

  /** `if (parents.indexOf(p) === -1) parents.push(p)`. */
  function AddOnce(s: seq<string>, x: string): (r: seq<string>)
    ensures x in r && forall y :: y in r <==> y in s || y == x
    ensures Text.Distinct(s) ==> Text.Distinct(r)
    ensures x in s ==> r == s
  {
    if x in s then s else s + [x]
  }

  /** Two states of one object: a wrapper keeps its kind, every other object keeps everything. */
  predicate SameShape(c0: Cell, c1: Cell)
  {
    match c0
    case NullableCell(_) => c1.NullableCell?
    case ListCell(_) => c1.ListCell?
    case _ => c1 == c0
  }

  /*
   * ---------- Wiring a union's members ----------
   */

  /**
   * `inherits(child, parent)` on the node objects: `child` gains `parent` once in its
   * `parents`, and `parent` gains `child` in its `children` every time.
   */
  function Link(objects: map<Id, NodeObject>, nodes: map<string, Id>, child: string, parent: string): (r: map<Id, NodeObject>)
    requires child in nodes && parent in nodes && nodes[child] in objects && nodes[parent] in objects
    ensures r.Keys == objects.Keys
    ensures forall o <- objects :: r[o] == NodeObject(
      if o == nodes[child] then AddOnce(objects[o].parents, parent) else objects[o].parents,
      if o == nodes[parent] then objects[o].children + [child] else objects[o].children,
      objects[o].attributes)
  {
    var c := nodes[child];
    var once := objects[c := objects[c].(parents := AddOnce(objects[c].parents, parent))];
    var p := nodes[parent];
    once[p := once[p].(children := once[p].children + [child])]
  }

  /** Every node object named in `nodes` exists. */
  ghost predicate Present(objects: map<Id, NodeObject>, nodes: map<string, Id>)
  {
    forall k <- nodes :: nodes[k] in objects
  }

  /**
   * `inherits(c, parent)` for each `c` of `children`, in order, stated in closed form:
   * each child's object gains `parent` once among its `parents`, the parent's object
   * gains exactly `children`, duplicates included, and nothing else changes.
   */
  ghost function Wired(objects: map<Id, NodeObject>, nodes: map<string, Id>, children: seq<string>, parent: string): map<Id, NodeObject>
    requires parent in nodes
  {
    map o | o in objects :: NodeObject(
      if Names(nodes, children, o) then AddOnce(objects[o].parents, parent) else objects[o].parents,
      if o == nodes[parent] then objects[o].children + children else objects[o].children,
      objects[o].attributes)
  }

  /** Some name of `children` is the node of object `o`. */
  ghost predicate Names(nodes: map<string, Id>, children: seq<string>, o: Id)
  {
    exists c <- children :: c in nodes && nodes[c] == o
  }

  lemma NamesSnoc(nodes: map<string, Id>, children: seq<string>, c: string, o: Id)
    requires c in nodes
    ensures Names(nodes, children + [c], o) <==> Names(nodes, children, o) || nodes[c] == o
  {
    if Names(nodes, children, o) {
      var x :| x in children && x in nodes && nodes[x] == o;
      assert x in children + [c];
    }
    if nodes[c] == o {
      assert c in children + [c];
    }
  }

  /** Wiring one more child is one more `inherits`. */
  lemma WiredSnoc(objects: map<Id, NodeObject>, nodes: map<string, Id>, children: seq<string>, c: string, parent: string)
    requires Present(objects, nodes) && parent in nodes && c in nodes
    ensures Present(Wired(objects, nodes, children, parent), nodes)
    ensures Link(Wired(objects, nodes, children, parent), nodes, c, parent) == Wired(objects, nodes, children + [c], parent)
  {
    var l := Link(Wired(objects, nodes, children, parent), nodes, c, parent);
    var w1 := Wired(objects, nodes, children + [c], parent);
    forall o | o in objects
      ensures l[o] == w1[o]
    {
      WiredSnocAt(objects, nodes, children, c, parent, o);
    }
    assert l.Keys == w1.Keys;
  }

  lemma WiredSnocAt(objects: map<Id, NodeObject>, nodes: map<string, Id>, children: seq<string>, c: string, parent: string, o: Id)
    requires Present(objects, nodes) && parent in nodes && c in nodes && o in objects
    ensures Present(Wired(objects, nodes, children, parent), nodes)
    ensures Link(Wired(objects, nodes, children, parent), nodes, c, parent)[o] == Wired(objects, nodes, children + [c], parent)[o]
  {
    var w := Wired(objects, nodes, children, parent);
    var l := Link(w, nodes, c, parent);
    var w1 := Wired(objects, nodes, children + [c], parent);
    NamesSnoc(nodes, children, c, o);
    assert l[o].parents == w1[o].parents by {
      if o == nodes[c] && Names(nodes, children, o) {
        assert parent in w[o].parents;
      }
    }
    assert l[o].children == w1[o].children by {
      if o == nodes[parent] {
        assert objects[o].children + children + [c] == objects[o].children + (children + [c]);
      }
    }
  }

  /** Wiring adds no node object and changes no attribute list. */
  lemma WiredKeeps(objects: map<Id, NodeObject>, nodes: map<string, Id>, children: seq<string>, parent: string)
    requires parent in nodes
    ensures Wired(objects, nodes, children, parent).Keys == objects.Keys
    ensures forall o <- objects :: Wired(objects, nodes, children, parent)[o].attributes == objects[o].attributes
  {
  }

  lemma WiredNone(objects: map<Id, NodeObject>, nodes: map<string, Id>, parent: string)
    requires parent in nodes
    ensures Wired(objects, nodes, [], parent) == objects
  {
    var w := Wired(objects, nodes, [], parent);
    assert forall o <- objects :: w[o] == objects[o];
  }

  /** Every wired child lists the parent among its `parents`. */
  lemma WiredParents(objects: map<Id, NodeObject>, nodes: map<string, Id>, children: seq<string>, parent: string)
    requires Present(objects, nodes) && parent in nodes && forall c <- children :: c in nodes
    ensures forall c <- children :: parent in Wired(objects, nodes, children, parent)[nodes[c]].parents
  {
  }

  /** After wiring, every child's object lists the parent, and the parent's object has gained the children. */
  lemma WiredLinks(objects: map<Id, NodeObject>, nodes: map<string, Id>, children: seq<string>, parent: string)
    requires Present(objects, nodes) && parent in nodes && forall c <- children :: c in nodes
    ensures forall c <- children ::
      nodes[c] in Wired(objects, nodes, children, parent) && parent in Wired(objects, nodes, children, parent)[nodes[c]].parents
    ensures nodes[parent] in Wired(objects, nodes, children, parent)
      && Wired(objects, nodes, children, parent)[nodes[parent]].children == objects[nodes[parent]].children + children
  {
  }

  /** No node object lists a parent twice. */
  ghost predicate ParentsDistinct(objects: map<Id, NodeObject>)
  {
    forall o <- objects :: Text.Distinct(objects[o].parents)
  }

  /** Wiring never makes a parent appear twice in any `parents` list. */
  lemma WiredParentsDistinct(objects: map<Id, NodeObject>, nodes: map<string, Id>, children: seq<string>, parent: string)
    requires parent in nodes && ParentsDistinct(objects)
    ensures ParentsDistinct(Wired(objects, nodes, children, parent))
  {
  }

  /**
   * The members a union can be wired with: named ones whose name is a node, and, when
   * `checkKind`, only of the kind `node` or `namedType`.
   */
  ghost predicate Wireable(cells: map<Id, Cell>, names: set<string>, ms: seq<Id>, checkKind: bool)
    requires forall m <- ms :: m in cells
  {
    forall m <- ms :: MemberWireable(cells[m], names, checkKind)
  }

  predicate MemberWireable(c: Cell, names: set<string>, checkKind: bool)
  {
    && (!checkKind || c.NodeCell? || c.NamedCell?)
    && ArgumentName(c).Some? && ArgumentName(c).value in names
  }

  const NoParents := "Cannot read property 'parents' of undefined"
  const Unhandled := "Union of unhandled type"
  const NoKind := "Cannot read property 'kind' of undefined"
  const NotReached := "Not reached"

  /**
   * What wiring `ms` throws: the error of the first member that cannot be wired, a
   * kind check coming before the lookup of the member's name.
   */
  function WireFault(cells: map<Id, Cell>, names: set<string>, ms: seq<Id>, checkKind: bool): (r: Option<string>)
    requires forall m <- ms :: m in cells
    ensures r.None? <==> Wireable(cells, names, ms, checkKind)
    ensures r.Some? ==> r.value == Unhandled || r.value == NoParents
    ensures r != Some(NotReached)
  {
    if ms == [] then None
    else if checkKind && !(cells[ms[0]].NodeCell? || cells[ms[0]].NamedCell?) then Some(Unhandled)
    else if !MemberWireable(cells[ms[0]], names, checkKind) then Some(NoParents)
    else
      var rest := WireFault(cells, names, ms[1..], checkKind);
      assert forall m <- ms :: m == ms[0] || m in ms[1..];
      rest
  }

  lemma WireableSnoc(cells: map<Id, Cell>, names: set<string>, ms: seq<Id>, m: Id, checkKind: bool)
    requires forall x <- ms :: x in cells
    requires m in cells && Wireable(cells, names, ms, checkKind) && MemberWireable(cells[m], names, checkKind)
    ensures forall x <- ms + [m] :: x in cells
    ensures Wireable(cells, names, ms + [m], checkKind)
  {
  }

  lemma MemberNamesSnoc(cells: map<Id, Cell>, ms: seq<Id>, m: Id)
    requires forall x <- ms + [m] :: x in cells && ArgumentName(cells[x]).Some?
    ensures MemberNames(cells, ms + [m]) == MemberNames(cells, ms) + [ArgumentName(cells[m]).value]
  {
  }

  /** `nodes` with its insertion order; every attribute has a type object. */
  ghost predicate NodeTable(cells: map<Id, Cell>, nodes: map<string, Id>, order: seq<string>, objects: map<Id, NodeObject>)
  {
    && Text.Distinct(order) && (forall k :: k in nodes <==> k in order)
    && Present(objects, nodes)
    && (forall o <- objects, a <- objects[o].attributes :: a.typ in cells)
  }

  /** Changing only `parents` and `children` keeps the node table. */
  lemma NodeTableLinks(cells: map<Id, Cell>, nodes: map<string, Id>, order: seq<string>, objects: map<Id, NodeObject>, objects1: map<Id, NodeObject>)
    requires NodeTable(cells, nodes, order, objects)
    requires objects1.Keys == objects.Keys && forall o <- objects :: objects1[o].attributes == objects[o].attributes
    ensures NodeTable(cells, nodes, order, objects1)
  {
  }

  /**
   * `type.argument.forEach(t => ... inherits(t.argument, name))` on the node objects:
   * wires each member in order, and with `checkKind` first rejects a member that is
   * neither a node nor a named type. A member whose name is not a node makes `inherits`
   * throw; the members before it stay wired.
   */
  method WireAll(cells: map<Id, Cell>, nodes: map<string, Id>, objects: map<Id, NodeObject>, parent: string, ms: seq<Id>, checkKind: bool)
    returns (r: Result<()>, objs: map<Id, NodeObject>)
    requires Present(objects, nodes) && parent in nodes && forall m <- ms :: m in cells
    ensures objs.Keys == objects.Keys && forall o <- objects :: objs[o].attributes == objects[o].attributes
    ensures r == (match WireFault(cells, nodes.Keys, ms, checkKind) case None => Success(()) case Some(e) => Failure(e))
    ensures r.Success? ==> objs == Wired(objects, nodes, MemberNames(cells, ms), parent)
  {
    objs := objects;
    var k := 0;
    ghost var names: seq<string> := [];
    WiredNone(objects, nodes, parent);
    while k < |ms|
      invariant k <= |ms| && Wireable(cells, nodes.Keys, ms[..k], checkKind)
      invariant WireFault(cells, nodes.Keys, ms, checkKind) == WireFault(cells, nodes.Keys, ms[k..], checkKind)
      invariant names == MemberNames(cells, ms[..k])
      invariant objs == Wired(objects, nodes, names, parent)
    {
      assert ms[k..][1..] == ms[k + 1..];
      var c := cells[ms[k]];
      var child := ArgumentName(c);
      if (checkKind && !(c.NodeCell? || c.NamedCell?)) || child.None? || child.value !in nodes {
        WiredKeeps(objects, nodes, names, parent);
        return Failure(if checkKind && !(c.NodeCell? || c.NamedCell?) then Unhandled else NoParents), objs;
      }
      Text.TakeSnoc(ms, k);
      WireableSnoc(cells, nodes.Keys, ms[..k], ms[k], checkKind);
      MemberNamesSnoc(cells, ms[..k], ms[k]);
      WiredSnoc(objects, nodes, names, child.value, parent);
      objs := Link(objs, nodes, child.value, parent);
      names := names + [child.value];
      k := k + 1;
    }
    assert ms[..k] == ms;
    WiredKeeps(objects, nodes, names, parent);
    return Success(()), objs;
  }

  /*
   * ---------- The transform's state ----------
   */

  /** The whole mutable state, as a value. */
  datatype State = State(
    cells: map<Id, Cell>,
    next: Id,
    nodes: map<string, Id>,
    order: seq<string>,
    objects: map<Id, NodeObject>,
    namedTypes: map<string, Id>,
    seen: map<Id, Id>,
    clean: set<Id>)

  /** The type objects form no cycle, and `next` is a fresh identity of rank 0. */
  ghost predicate Typed(s: State, rank: Id -> nat)
  {
    && Shaped(s.cells, rank) && NamedRanked(s.cells, rank, s.namedTypes)
    && (forall id <- s.cells :: id < s.next) && (forall o <- s.objects :: o < s.next)
    && (forall id | s.next <= id :: rank(id) == 0)
  }

  /** The invariant of the transform's state. */
  ghost predicate Sound(s: State, rank: Id -> nat)
  {
    Typed(s, rank) && NodeTable(s.cells, s.nodes, s.order, s.objects) && Memoised(s.cells, rank, s.seen, s.clean)
  }

  /** The union objects `addUnions` has not yet met. */
  ghost function Unseen(cells: map<Id, Cell>, seen: map<Id, Id>): set<Id>
  {
    set id | id in cells && cells[id].UnionCell? && id !in seen
  }

  /**
   * What `addUnions` may change: memo entries are only added, cleaned objects stay
   * cleaned, a node name keeps its object or gets a fresh one, names are only appended
   * to the insertion order, the typedefs stay, no attribute list changes and new node
   * objects have none. A new node name costs one union met.
   */
  ghost predicate Grew(s0: State, s1: State)
  {
    && (forall id <- s0.seen :: id in s1.seen && s1.seen[id] == s0.seen[id])
    && s0.clean <= s1.clean
    && s0.objects.Keys <= s1.objects.Keys
    && (forall o <- s0.objects :: s1.objects[o].attributes == s0.objects[o].attributes)
    && (forall o <- s1.objects :: o !in s0.objects ==> s1.objects[o].attributes == [])
    && (forall k <- s0.nodes :: k in s1.nodes && (s1.nodes[k] == s0.nodes[k] || s1.nodes[k] !in s0.objects))
    && s0.order <= s1.order
    && s1.namedTypes == s0.namedTypes
    && Unseen(s1.cells, s1.seen) <= Unseen(s0.cells, s0.seen)
    && (|s1.order| > |s0.order| ==> Unseen(s1.cells, s1.seen) < Unseen(s0.cells, s0.seen))
  }

  /**
   * Objects are never removed, only objects of rank at most `bound` were written or
   * met, and what was written is a wrapper.
   */
  ghost predicate Frozen(s0: State, s1: State, rank: Id -> nat, bound: nat)
  {
    && (forall id <- s0.cells :: id in s1.cells && (s1.cells[id] != s0.cells[id] ==>
          rank(id) <= bound && (s1.cells[id].NullableCell? || s1.cells[id].ListCell?)))
    && (forall id <- s1.seen :: id in s0.seen || rank(id) <= bound)
  }

  /** One visit of `addUnions` to an object of rank `bound`. */
  ghost predicate Evolved(s0: State, s1: State, rank: Id -> nat, bound: nat)
  {
    Grew(s0, s1) && Frozen(s0, s1, rank, bound)
  }

  /** `addUnions(t)` returned `v`: the state is sound, `t` is memoised to the clean `v`, and the visit kept to rank `rank(t)`. */
  ghost predicate Visited(s0: State, s1: State, rank: Id -> nat, t: Id, v: Id)
  {
    Sound(s1, rank) && t in s1.seen && s1.seen[t] == v && v in s1.clean && Evolved(s0, s1, rank, rank(t))
  }

  lemma EvolvedTrans(s0: State, s1: State, s2: State, rank: Id -> nat, b1: nat, b2: nat, bound: nat)
    requires Evolved(s0, s1, rank, b1) && Evolved(s1, s2, rank, b2) && b1 <= bound && b2 <= bound
    ensures Evolved(s0, s2, rank, bound)
  {
  }

  /** `seen.set(t, v)` for an object that is not a wrapper, met for the first time. */
  lemma RecordStep(s: State, rank: Id -> nat, t: Id, v: Id)
    requires Sound(s, rank) && t in s.cells && t !in s.seen && !(s.cells[t].NullableCell? || s.cells[t].ListCell?)
    requires v in s.clean || (v in s.cells && (s.cells[v].ValueCell? || s.cells[v].EnumCell? || s.cells[v].NodeCell?))
    requires rank(v) <= rank(t)
    ensures var s1 := s.(seen := s.seen[t := v], clean := s.clean + {v});
      Sound(s1, rank) && Evolved(s, s1, rank, rank(t))
  {
    MemoRecord(s.cells, rank, s.seen, s.clean, t, v);
    assert Unseen(s.cells, s.seen[t := v]) == Unseen(s.cells, s.seen) - {t};
  }

  /** `type.argument = ...; seen.set(type, type)` for a wrapper met for the first time. */
  lemma WrapStep(s: State, rank: Id -> nat, t: Id, w: Cell)
    requires Sound(s, rank) && t in s.cells && t !in s.seen && SameShape(s.cells[t], w)
    requires (w.NullableCell? || w.ListCell?) && w.arg in s.clean && rank(w.arg) < rank(t)
    ensures var s1 := s.(cells := s.cells[t := w], seen := s.seen[t := t], clean := s.clean + {t});
      Sound(s1, rank) && Evolved(s, s1, rank, rank(t))
  {
    WrapSound(s, rank, t, w);
    WrapGrew(s, rank, t, w);
  }

  lemma WrapSound(s: State, rank: Id -> nat, t: Id, w: Cell)
    requires Sound(s, rank) && t in s.cells && t !in s.seen && SameShape(s.cells[t], w)
    requires (w.NullableCell? || w.ListCell?) && w.arg in s.clean && rank(w.arg) < rank(t)
    ensures Sound(s.(cells := s.cells[t := w], seen := s.seen[t := t], clean := s.clean + {t}), rank)
  {
    WrapTyped(s, rank, t, w);
    WrapMemo(s.cells, rank, s.seen, s.clean, t, w);
  }

  lemma WrapTyped(s: State, rank: Id -> nat, t: Id, w: Cell)
    requires Typed(s, rank) && t in s.cells && SameShape(s.cells[t], w)
    requires (w.NullableCell? || w.ListCell?) && w.arg in s.cells && rank(w.arg) < rank(t)
    ensures Typed(s.(cells := s.cells[t := w]), rank)
  {
    var cells1 := s.cells[t := w];
    ShapedWrite(s.cells, rank, t, w);
    assert NamedRanked(cells1, rank, s.namedTypes) by {
      forall id <- cells1 | cells1[id].NamedCell? && cells1[id].alias in s.namedTypes
        ensures rank(s.namedTypes[cells1[id].alias]) < rank(id)
      {
        assert id != t;
      }
    }
  }

  lemma WrapMemo(cells: map<Id, Cell>, rank: Id -> nat, seen: map<Id, Id>, clean: set<Id>, t: Id, w: Cell)
    requires Memoised(cells, rank, seen, clean) && t in cells && t !in seen && SameShape(cells[t], w)
    requires (w.NullableCell? || w.ListCell?) && w.arg in clean
    ensures Memoised(cells[t := w], rank, seen[t := t], clean + {t})
  {
    var cells1 := cells[t := w];
    assert t !in clean;
    forall id <- clean + {t}
      ensures id in cells1 && CleanCell(cells1[id], clean + {t})
    {
      if id != t {
        assert CleanCell(cells[id], clean);
      }
    }
  }

  lemma WrapGrew(s: State, rank: Id -> nat, t: Id, w: Cell)
    requires Memoised(s.cells, rank, s.seen, s.clean) && t in s.cells && t !in s.seen && SameShape(s.cells[t], w)
    requires w.NullableCell? || w.ListCell?
    ensures Evolved(s, s.(cells := s.cells[t := w], seen := s.seen[t := t], clean := s.clean + {t}), rank, rank(t))
  {
    assert Unseen(s.cells[t := w], s.seen[t := t]) == Unseen(s.cells, s.seen) - {t};
  }

  /**
   * A whole visit to a wrapper `t`: its argument `a` was visited from `s0` to `s1`, then
   * `t` takes the argument's replacement and is recorded as its own.
   */
  lemma WrapVisit(s0: State, s1: State, s2: State, rank: Id -> nat, t: Id, w: Cell)
    requires t in s0.cells && t !in s0.seen && (s0.cells[t].NullableCell? || s0.cells[t].ListCell?)
    requires rank(s0.cells[t].arg) < rank(t) && (w.NullableCell? || w.ListCell?) && SameShape(s0.cells[t], w)
    requires s2 == s1.(cells := s1.cells[t := w], seen := s1.seen[t := t], clean := s1.clean + {t})
    ensures Visited(s0, s1, rank, s0.cells[t].arg, w.arg) ==>
      && Visited(s0, s2, rank, t, t) && SameShape(s0.cells[t], s2.cells[t])
      && s0.cells[t].arg in s2.seen && s2.cells[t].arg == s2.seen[s0.cells[t].arg]
  {
    if !Visited(s0, s1, rank, s0.cells[t].arg, w.arg) {
      return;
    }
    var a := s0.cells[t].arg;
    assert t in s1.cells && s1.cells[t] == s0.cells[t];
    assert t !in s1.seen;
    WrapStep(s1, rank, t, w);
    EvolvedTrans(s0, s1, s2, rank, rank(a), rank(t), rank(t));
  }

  /** A whole visit to a typedef reference `t`: its target was visited from `s0` to `s1` and gave `v`, which `t` records. */
  lemma NamedVisit(s0: State, s1: State, s2: State, rank: Id -> nat, t: Id, child: Id, v: Id)
    requires t in s0.cells && t !in s0.seen && s0.cells[t].NamedCell?
    requires s0.cells[t].alias in s0.namedTypes && s0.namedTypes[s0.cells[t].alias] == child
    requires Sound(s0, rank) && s2 == s1.(seen := s1.seen[t := v], clean := s1.clean + {v})
    ensures Visited(s0, s1, rank, child, v) ==> Visited(s0, s2, rank, t, v) && child in s2.seen && s2.seen[child] == v
  {
    if !Visited(s0, s1, rank, child, v) {
      return;
    }
    assert rank(child) < rank(t);
    assert t in s1.cells && s1.cells[t] == s0.cells[t];
    assert t !in s1.seen;
    assert rank(v) <= rank(child);
    RecordStep(s1, rank, t, v);
    EvolvedTrans(s0, s1, s2, rank, rank(child), rank(t), rank(t));
  }

  /** `nodes.set(name, {children: [], parents: [], attributes: []})` with a fresh identity. */
  function WithNode(s: State, name: string): (r: State)
    ensures r.nodes.Keys == s.nodes.Keys + {name}
  {
    State(s.cells, s.next + 1, s.nodes[name := s.next], if name in s.nodes then s.order else s.order + [name],
          s.objects[s.next := EmptyNode], s.namedTypes, s.seen, s.clean)
  }

  lemma NewNodeStep(s: State, rank: Id -> nat, name: string)
    requires Sound(s, rank)
    ensures Sound(WithNode(s, name), rank)
  {
    if name !in s.nodes {
      Text.DistinctAppend(s.order, name);
    }
  }

  /** `{kind: 'node', argument: name}`: a new type object with a fresh identity. */
  lemma FreshNodeStep(s: State, rank: Id -> nat, name: string)
    requires Sound(s, rank)
    ensures s.next !in s.cells && rank(s.next) == 0
    ensures Sound(s.(cells := s.cells[s.next := NodeCell(name)], next := s.next + 1), rank)
  {
    var cells1 := s.cells[s.next := NodeCell(name)];
    ShapedAdd(s.cells, rank, s.next, NodeCell(name));
    assert Memoised(cells1, rank, s.seen, s.clean) by {
      forall id <- s.clean
        ensures id in cells1 && CleanCell(cells1[id], s.clean)
      {
        assert CleanCell(s.cells[id], s.clean);
      }
    }
  }

  /** Wiring, which changes only `parents` and `children`, keeps the state sound. */
  lemma LinkStep(s: State, rank: Id -> nat, objects1: map<Id, NodeObject>)
    requires Sound(s, rank)
    requires objects1.Keys == s.objects.Keys && forall o <- s.objects :: objects1[o].attributes == s.objects[o].attributes
    ensures Sound(s.(objects := objects1), rank)
  {
    NodeTableLinks(s.cells, s.nodes, s.order, s.objects, objects1);
  }

  /**
   * The state after an inline union `t` is met: the node object for `name` wired into
   * `objs`, the new type object `{kind: 'node', argument: name}` and its memo entry.
   */
  function UnionResult(s: State, t: Id, name: string, objs: map<Id, NodeObject>): State
  {
    State(s.cells[s.next + 1 := NodeCell(name)], s.next + 2, s.nodes[name := s.next],
          if name in s.nodes then s.order else s.order + [name], objs, s.namedTypes,
          s.seen[t := s.next + 1], s.clean + {s.next + 1})
  }

  /** Meeting an inline union adds one node name at most and meets one union. */
  lemma UnionGrew(s: State, rank: Id -> nat, t: Id, name: string, objs: map<Id, NodeObject>)
    requires Typed(s, rank) && t in s.cells && s.cells[t].UnionCell? && t !in s.seen
    requires objs.Keys == s.objects.Keys + {s.next} && objs[s.next].attributes == []
    requires forall x <- s.objects :: objs[x].attributes == s.objects[x].attributes
    ensures Evolved(s, UnionResult(s, t, name, objs), rank, rank(t))
  {
    assert s.next + 1 !in s.cells && s.next !in s.objects;
    UnseenAdd(s.cells, s.seen, t, s.next + 1, NodeCell(name));
  }

  /** Recording a union as met, and adding an object that is no union, takes exactly that union out of `Unseen`. */
  lemma UnseenAdd(cells: map<Id, Cell>, seen: map<Id, Id>, t: Id, id: Id, c: Cell)
    requires t in cells && cells[t].UnionCell? && t !in seen && id !in cells && !c.UnionCell?
    ensures t in Unseen(cells, seen)
    ensures Unseen(cells[id := c], seen[t := id]) == Unseen(cells, seen) - {t}
  {
    var cells1, seen1 := cells[id := c], seen[t := id];
    forall x
      ensures x in Unseen(cells1, seen1) <==> x in Unseen(cells, seen) - {t}
    {
      if x == id {
        assert x !in Unseen(cells, seen);
      } else if x != t {
        assert x in cells1 <==> x in cells;
        assert x in seen1 <==> x in seen;
      }
    }
  }

  /**
   * The inline union `t` was replaced by the new type object `id` naming a node whose
   * children are the members' names, in order, and which every member has as a parent.
   */
  ghost predicate UnionWired(s0: State, s1: State, t: Id, id: Id, name: string)
    requires t in s0.cells && s0.cells[t].UnionCell? && forall m <- s0.cells[t].members :: m in s0.cells
  {
    var ms := s0.cells[t].members;
    && id !in s0.cells && id in s1.cells && s1.cells[id] == NodeCell(name)
    && name in s1.nodes && s1.nodes[name] !in s0.objects && s1.nodes[name] in s1.objects
    && (forall m <- ms :: ArgumentName(s0.cells[m]).Some? && ArgumentName(s0.cells[m]).value in s1.nodes
         && s1.nodes[ArgumentName(s0.cells[m]).value] in s1.objects
         && name in s1.objects[s1.nodes[ArgumentName(s0.cells[m]).value]].parents)
    && s1.objects[s1.nodes[name]].children == MemberNames(s0.cells, ms)
  }

  /**
   * A whole visit to an inline union `t`: a node object for `name`, wired to every
   * member, and a new type object naming it recorded as the replacement of `t`.
   */
  lemma UnionVisit(s: State, rank: Id -> nat, t: Id, name: string, objs: map<Id, NodeObject>)
    requires Sound(s, rank) && t in s.cells && t !in s.seen && s.cells[t].UnionCell?
    requires var ms := s.cells[t].members;
      && Wireable(s.cells, s.nodes.Keys + {name}, ms, true)
      && objs == Wired(WithNode(s, name).objects, WithNode(s, name).nodes, MemberNames(s.cells, ms), name)
    ensures var s4 := UnionResult(s, t, name, objs);
      Visited(s, s4, rank, t, s.next + 1) && UnionWired(s, s4, t, s.next + 1, name)
  {
    WiredWithNode(s, name, MemberNames(s.cells, s.cells[t].members), objs);
    UnionVisited(s, rank, t, name, objs);
    UnionJoined(s, UnionResult(s, t, name, objs), t, name, objs, true);
  }

  /** Wiring the children of a new node object keeps every object's attributes, and the new object has none. */
  lemma WiredWithNode(s: State, name: string, ns: seq<string>, objs: map<Id, NodeObject>)
    requires s.next !in s.objects && objs == Wired(WithNode(s, name).objects, WithNode(s, name).nodes, ns, name)
    ensures objs.Keys == s.objects.Keys + {s.next} && objs[s.next].attributes == []
    ensures forall x <- s.objects :: objs[x].attributes == s.objects[x].attributes
  {
    var s1 := WithNode(s, name);
    WiredKeeps(s1.objects, s1.nodes, ns, name);
  }

  lemma UnionVisited(s: State, rank: Id -> nat, t: Id, name: string, objs: map<Id, NodeObject>)
    requires Sound(s, rank) && t in s.cells && t !in s.seen && s.cells[t].UnionCell?
    requires objs.Keys == s.objects.Keys + {s.next} && objs[s.next].attributes == []
    requires forall x <- s.objects :: objs[x].attributes == s.objects[x].attributes
    ensures Visited(s, UnionResult(s, t, name, objs), rank, t, s.next + 1)
  {
    UnionSound(s, rank, t, name, objs);
    UnionGrew(s, rank, t, name, objs);
    UnionRecorded(s, t, name, objs);
  }

  lemma UnionRecorded(s: State, t: Id, name: string, objs: map<Id, NodeObject>)
    ensures var u := UnionResult(s, t, name, objs); t in u.seen && u.seen[t] == s.next + 1 && s.next + 1 in u.clean
  {
  }

  /** The node object of a union met at `t` (inline, or a typedef when not `checkKind`) is wired to its members in `s1`. */
  lemma UnionJoined(s: State, s1: State, t: Id, name: string, objs: map<Id, NodeObject>, checkKind: bool)
    requires Present(s.objects, s.nodes) && s.next !in s.objects && s.next + 1 !in s.cells
    requires t in s.cells && s.cells[t].UnionCell? && forall m <- s.cells[t].members :: m in s.cells
    requires var ms := s.cells[t].members;
      && Wireable(s.cells, s.nodes.Keys + {name}, ms, checkKind)
      && objs == Wired(WithNode(s, name).objects, WithNode(s, name).nodes, MemberNames(s.cells, ms), name)
    requires s1.cells == s.cells[s.next + 1 := NodeCell(name)] && s1.nodes == s.nodes[name := s.next] && s1.objects == objs
    ensures UnionWired(s, s1, t, s.next + 1, name)
  {
    var w := WithNode(s, name);
    var ns := MemberNames(s.cells, s.cells[t].members);
    MemberNamesKnown(s.cells, w.nodes.Keys, s.cells[t].members, checkKind);
    WiredLinks(w.objects, w.nodes, ns, name);
    assert w.nodes[name] == s.next && w.objects[s.next].children == [];
    assert objs[s.next].children == ns by {
      assert [] + ns == ns;
    }
    UnionLinked(s, s1, t, name, objs, checkKind);
  }

  lemma UnionLinked(s: State, s1: State, t: Id, name: string, objs: map<Id, NodeObject>, checkKind: bool)
    requires s.next !in s.objects && s.next + 1 !in s.cells
    requires t in s.cells && s.cells[t].UnionCell? && forall m <- s.cells[t].members :: m in s.cells
    requires var ms := s.cells[t].members; var nodes1 := s.nodes[name := s.next];
      && Wireable(s.cells, s.nodes.Keys + {name}, ms, checkKind)
      && (forall c <- MemberNames(s.cells, ms) :: c in nodes1 && nodes1[c] in objs && name in objs[nodes1[c]].parents)
      && s.next in objs && objs[s.next].children == MemberNames(s.cells, ms)
    requires s1.cells == s.cells[s.next + 1 := NodeCell(name)] && s1.nodes == s.nodes[name := s.next] && s1.objects == objs
    ensures UnionWired(s, s1, t, s.next + 1, name)
  {
    MemberNamesIn(s.cells, s.cells[t].members);
  }

  lemma MemberNamesKnown(cells: map<Id, Cell>, names: set<string>, ms: seq<Id>, checkKind: bool)
    requires forall m <- ms :: m in cells
    requires Wireable(cells, names, ms, checkKind)
    ensures forall c <- MemberNames(cells, ms) :: c in names
  {
  }

  lemma MemberNamesIn(cells: map<Id, Cell>, ms: seq<Id>)
    requires forall m <- ms :: m in cells && ArgumentName(cells[m]).Some?
    ensures forall m <- ms :: ArgumentName(cells[m]).value in MemberNames(cells, ms)
  {
    var ns := MemberNames(cells, ms);
    forall m <- ms
      ensures ArgumentName(cells[m]).value in ns
    {
      var k :| 0 <= k < |ms| && ms[k] == m;
      assert ns[k] == ArgumentName(cells[m]).value;
    }
  }

  /** The state after an inline union is met is sound, whatever the wiring did to `parents` and `children`. */
  lemma UnionSound(s: State, rank: Id -> nat, t: Id, name: string, objs: map<Id, NodeObject>)
    requires Sound(s, rank) && t in s.cells && t !in s.seen && s.cells[t].UnionCell?
    requires objs.Keys == s.objects.Keys + {s.next} && objs[s.next].attributes == []
    requires forall x <- s.objects :: objs[x].attributes == s.objects[x].attributes
    ensures Sound(UnionResult(s, t, name, objs), rank)
  {
    var s1 := UnionResult(s, t, name, objs);
    UnionTyped(s, rank, t, name, objs);
    UnionTable(s, rank, t, name, objs);
    UnionMemo(s, rank, t, name, objs);
  }

  lemma UnionTyped(s: State, rank: Id -> nat, t: Id, name: string, objs: map<Id, NodeObject>)
    requires Typed(s, rank) && objs.Keys == s.objects.Keys + {s.next}
    ensures Typed(UnionResult(s, t, name, objs), rank)
  {
    CellAdded(s.cells, rank, s.namedTypes, s.next + 1, NodeCell(name));
  }

  lemma UnionTable(s: State, rank: Id -> nat, t: Id, name: string, objs: map<Id, NodeObject>)
    requires NodeTable(s.cells, s.nodes, s.order, s.objects)
    requires objs.Keys == s.objects.Keys + {s.next} && objs[s.next].attributes == []
    requires forall x <- s.objects :: objs[x].attributes == s.objects[x].attributes
    ensures var s1 := UnionResult(s, t, name, objs); NodeTable(s1.cells, s1.nodes, s1.order, s1.objects)
  {
    if name !in s.nodes {
      Text.DistinctAppend(s.order, name);
    }
  }

  lemma UnionMemo(s: State, rank: Id -> nat, t: Id, name: string, objs: map<Id, NodeObject>)
    requires Memoised(s.cells, rank, s.seen, s.clean) && s.next + 1 !in s.cells && rank(s.next + 1) == 0
    requires t in s.cells && s.cells[t].UnionCell?
    ensures var s1 := UnionResult(s, t, name, objs); Memoised(s1.cells, rank, s1.seen, s1.clean)
  {
    var cells1 := s.cells[s.next + 1 := NodeCell(name)];
    MemoAdd(s.cells, rank, s.seen, s.clean, s.next + 1, NodeCell(name));
    MemoRecord(cells1, rank, s.seen, s.clean, t, s.next + 1);
  }

  /** Adding an object keeps the memo sound. */
  lemma MemoAdd(cells: map<Id, Cell>, rank: Id -> nat, seen: map<Id, Id>, clean: set<Id>, id: Id, c: Cell)
    requires Memoised(cells, rank, seen, clean) && id !in cells
    ensures Memoised(cells[id := c], rank, seen, clean)
  {
    forall x <- clean
      ensures x in cells[id := c] && CleanCell(cells[id := c][x], clean)
    {
      assert CleanCell(cells[x], clean);
    }
  }

  /** A new object that refers to nothing keeps the arena acyclic and the typedefs ranked. */
  lemma CellAdded(cells: map<Id, Cell>, rank: Id -> nat, namedTypes: map<string, Id>, id: Id, c: Cell)
    requires Shaped(cells, rank) && NamedRanked(cells, rank, namedTypes)
    requires id !in cells && (c.ValueCell? || c.EnumCell? || c.NodeCell?)
    ensures Shaped(cells[id := c], rank) && NamedRanked(cells[id := c], rank, namedTypes)
  {
    ShapedAdd(cells, rank, id, c);
  }

  /** A wrapper whose argument is replaced by a lower object keeps the arena acyclic. */
  lemma ShapedWrite(cells: map<Id, Cell>, rank: Id -> nat, t: Id, c: Cell)
    requires Shaped(cells, rank) && t in cells
    requires c.NullableCell? || c.ListCell?
    requires c.arg in cells && rank(c.arg) < rank(t)
    ensures Shaped(cells[t := c], rank)
  {
    var after := cells[t := c];
    forall id <- after
      ensures Below(after, rank, id)
    {
      assert Below(cells, rank, id);
    }
  }

  /** A new object that refers to nothing keeps the arena acyclic. */
  lemma ShapedAdd(cells: map<Id, Cell>, rank: Id -> nat, id: Id, c: Cell)
    requires Shaped(cells, rank) && id !in cells
    requires !(c.NullableCell? || c.ListCell? || c.UnionCell?)
    ensures Shaped(cells[id := c], rank)
  {
    var after := cells[id := c];
    forall x <- after
      ensures Below(after, rank, x)
    {
      if x != id {
        assert Below(cells, rank, x);
      }
    }
  }

  /*
   * ---------- Union typedefs ----------
   */

  /** No typedef names a union object. */
  ghost predicate NoUnionTypedef(s: State)
  {
    forall n <- s.namedTypes :: s.namedTypes[n] in s.cells && !s.cells[s.namedTypes[n]].UnionCell?
  }

  /** A visit writes only wrappers and keeps the typedefs, so it never brings a union typedef back. */
  lemma EvolvedNoUnionTypedef(s0: State, s1: State, rank: Id -> nat, bound: nat)
    requires NoUnionTypedef(s0) && Evolved(s0, s1, rank, bound)
    ensures NoUnionTypedef(s1)
  {
    forall n <- s1.namedTypes
      ensures s1.namedTypes[n] in s1.cells && !s1.cells[s1.namedTypes[n]].UnionCell?
    {
      assert s1.namedTypes[n] == s0.namedTypes[n];
    }
  }

  /**
   * `nodes.set(name, ...)`, the members wired, and `namedTypes.set(name, {kind: 'node',
   * argument: name})` with a fresh object: the typedef pass's step for a union typedef.
   */
  function TypedefResult(s: State, name: string, objs: map<Id, NodeObject>): State
  {
    State(s.cells[s.next + 1 := NodeCell(name)], s.next + 2, s.nodes[name := s.next], s.order + [name], objs,
          s.namedTypes[name := s.next + 1], s.seen, s.clean)
  }

  lemma TypedefSound(s: State, rank: Id -> nat, name: string, objs: map<Id, NodeObject>)
    requires name in s.namedTypes && name !in s.nodes
    requires objs.Keys == s.objects.Keys + {s.next} && objs[s.next].attributes == []
    requires forall x <- s.objects :: objs[x].attributes == s.objects[x].attributes
    ensures Sound(s, rank) ==> Sound(TypedefResult(s, name, objs), rank)
  {
    if Sound(s, rank) {
      TypedefTyped(s, rank, name, objs);
      TypedefTable(s, name, objs);
      MemoAdd(s.cells, rank, s.seen, s.clean, s.next + 1, NodeCell(name));
    }
  }

  lemma TypedefTyped(s: State, rank: Id -> nat, name: string, objs: map<Id, NodeObject>)
    requires Typed(s, rank) && name in s.namedTypes && objs.Keys == s.objects.Keys + {s.next}
    ensures Typed(TypedefResult(s, name, objs), rank)
  {
    var id := s.next + 1;
    var cells1 := s.cells[id := NodeCell(name)];
    CellAdded(s.cells, rank, s.namedTypes, id, NodeCell(name));
    Retarget(cells1, rank, s.namedTypes, name, id);
  }

  /** Pointing a typedef at a fresh object of rank 0 keeps every reference to it above its target. */
  lemma Retarget(cells: map<Id, Cell>, rank: Id -> nat, namedTypes: map<string, Id>, name: string, id: Id)
    requires NamedRanked(cells, rank, namedTypes) && name in namedTypes && id in cells && rank(id) == 0
    ensures NamedRanked(cells, rank, namedTypes[name := id])
  {
    var after := namedTypes[name := id];
    forall x <- cells | cells[x].NamedCell? && cells[x].alias in after
      ensures rank(after[cells[x].alias]) < rank(x)
    {
      assert rank(namedTypes[cells[x].alias]) < rank(x);
    }
  }

  lemma TypedefTable(s: State, name: string, objs: map<Id, NodeObject>)
    requires NodeTable(s.cells, s.nodes, s.order, s.objects) && name !in s.nodes
    requires objs.Keys == s.objects.Keys + {s.next} && objs[s.next].attributes == []
    requires forall x <- s.objects :: objs[x].attributes == s.objects[x].attributes
    ensures var s1 := TypedefResult(s, name, objs); NodeTable(s1.cells, s1.nodes, s1.order, s1.objects)
  {
    Text.DistinctAppend(s.order, name);
  }

  /** What the step for typedef `name` keeps: old objects, node names, the other typedefs and the memo. */
  ghost predicate Extended(s: State, s1: State, name: string)
  {
    && (forall id <- s.cells :: id in s1.cells && s1.cells[id] == s.cells[id])
    && (forall k <- s.nodes :: k in s1.nodes && s1.nodes[k] == s.nodes[k])
    && (forall o <- s.objects :: o in s1.objects && s1.objects[o].attributes == s.objects[o].attributes)
    && s1.namedTypes.Keys == s.namedTypes.Keys
    && (forall n <- s.namedTypes :: n != name ==> s1.namedTypes[n] == s.namedTypes[n])
    && s1.seen == s.seen && s1.clean == s.clean
  }

  lemma TypedefExtended(s: State, name: string, objs: map<Id, NodeObject>)
    requires s.next + 1 !in s.cells && name in s.namedTypes && name !in s.nodes
    requires s.objects.Keys <= objs.Keys && forall x <- s.objects :: objs[x].attributes == s.objects[x].attributes
    ensures Extended(s, TypedefResult(s, name, objs), name)
    ensures TypedefResult(s, name, objs).namedTypes[name] == s.next + 1
    ensures TypedefResult(s, name, objs).cells[s.next + 1] == NodeCell(name)
  {
  }

  /** A whole step for a union typedef `name`: the new state is sound and keeps what `Extended` names. */
  lemma TypedefSettled(s: State, rank: Id -> nat, name: string, objs: map<Id, NodeObject>)
    requires Sound(s, rank) && name in s.namedTypes && name !in s.nodes
    requires objs.Keys == s.objects.Keys + {s.next} && objs[s.next].attributes == []
    requires forall x <- s.objects :: objs[x].attributes == s.objects[x].attributes
    ensures Sound(TypedefResult(s, name, objs), rank)
    ensures var s1 := TypedefResult(s, name, objs);
      && Extended(s, s1, name)
      && name in s1.namedTypes && s1.namedTypes[name] == s.next + 1
      && s.next + 1 in s1.cells && s1.cells[s.next + 1] == NodeCell(name)
  {
    TypedefSound(s, rank, name, objs);
    TypedefExtended(s, name, objs);
  }

  lemma TypedefJoined(s: State, t: Id, name: string, objs: map<Id, NodeObject>)
    requires Present(s.objects, s.nodes) && s.next !in s.objects && s.next + 1 !in s.cells
    requires t in s.cells && s.cells[t].UnionCell? && forall m <- s.cells[t].members :: m in s.cells
    requires var ms := s.cells[t].members;
      && Wireable(s.cells, s.nodes.Keys + {name}, ms, false)
      && objs == Wired(WithNode(s, name).objects, WithNode(s, name).nodes, MemberNames(s.cells, ms), name)
    ensures UnionWired(s, TypedefResult(s, name, objs), t, s.next + 1, name)
  {
    UnionJoined(s, TypedefResult(s, name, objs), t, name, objs, false);
  }

  /** A union typedef whose name is already a node. */
  ghost predicate Collides(s: State, n: string)
    requires n in s.namedTypes && s.namedTypes[n] in s.cells
  {
    s.cells[s.namedTypes[n]].UnionCell? && n in s.nodes
  }

  /** After the typedef pass, a union typedef `n` names a node `n`; any other typedef is as it was. */
  ghost predicate Replaced(s0: State, s: State, n: string)
    requires n in s0.namedTypes && s0.namedTypes[n] in s0.cells
  {
    && n in s.namedTypes && s.namedTypes[n] in s.cells
    && if s0.cells[s0.namedTypes[n]].UnionCell? then s.cells[s.namedTypes[n]] == NodeCell(n) && n in s.nodes
       else s.namedTypes[n] == s0.namedTypes[n]
  }

  /** The typedef pass from `s0` has handled `typedefs[..i]` and reached `s`. */
  ghost predicate TypedefsSoFar(s0: State, s: State, typedefs: seq<string>, i: nat)
    requires i <= |typedefs| && forall n <- typedefs :: n in s0.namedTypes && s0.namedTypes[n] in s0.cells
  {
    && s.namedTypes.Keys == s0.namedTypes.Keys && s.seen == s0.seen && s.clean == s0.clean
    && (forall id <- s0.cells :: id in s.cells && s.cells[id] == s0.cells[id])
    && (forall k <- s0.nodes :: k in s.nodes && s.nodes[k] == s0.nodes[k])
    && (forall o <- s0.objects :: o in s.objects && s.objects[o].attributes == s0.objects[o].attributes)
    && (forall k | i <= k < |typedefs| :: s.namedTypes[typedefs[k]] == s0.namedTypes[typedefs[k]])
    && (forall k | 0 <= k < i :: Replaced(s0, s, typedefs[k]) && !Collides(s0, typedefs[k]))
  }

  lemma TypedefsStart(s0: State, typedefs: seq<string>)
    requires forall n <- typedefs :: n in s0.namedTypes && s0.namedTypes[n] in s0.cells
    ensures TypedefsSoFar(s0, s0, typedefs, 0)
  {
  }

  /** A typedef that is no union is passed over. */
  lemma TypedefsSkip(s0: State, s: State, typedefs: seq<string>, i: nat)
    requires i < |typedefs| && forall n <- typedefs :: n in s0.namedTypes && s0.namedTypes[n] in s0.cells
    ensures TypedefsSoFar(s0, s, typedefs, i) && !s.cells[s.namedTypes[typedefs[i]]].UnionCell? ==>
      TypedefsSoFar(s0, s, typedefs, i + 1)
  {
    var n := typedefs[i];
    if TypedefsSoFar(s0, s, typedefs, i) {
      assert s.namedTypes[n] == s0.namedTypes[n];
    }
  }

  /** A union typedef whose name was no node has become one. */
  lemma TypedefsNext(s0: State, s: State, s2: State, typedefs: seq<string>, i: nat)
    requires i < |typedefs| && Text.Distinct(typedefs)
    requires forall n <- typedefs :: n in s0.namedTypes && s0.namedTypes[n] in s0.cells
    requires var n := typedefs[i]; n in s.namedTypes && s.namedTypes[n] in s.cells
    ensures var n := typedefs[i];
      && TypedefsSoFar(s0, s, typedefs, i) && s.cells[s.namedTypes[n]].UnionCell? && n !in s.nodes
      && Extended(s, s2, n) && n in s2.namedTypes && s2.namedTypes[n] == s.next + 1
      && s.next + 1 in s2.cells && s2.cells[s.next + 1] == NodeCell(n) && n in s2.nodes
      ==> TypedefsSoFar(s0, s2, typedefs, i + 1)
  {
    var n := typedefs[i];
    if !(TypedefsSoFar(s0, s, typedefs, i) && s.cells[s.namedTypes[n]].UnionCell? && n !in s.nodes
      && Extended(s, s2, n) && n in s2.namedTypes && s2.namedTypes[n] == s.next + 1
      && s.next + 1 in s2.cells && s2.cells[s.next + 1] == NodeCell(n) && n in s2.nodes) {
      return;
    }
    assert s.namedTypes[n] == s0.namedTypes[n];
    forall k | 0 <= k < i
      ensures Replaced(s0, s2, typedefs[k]) && !Collides(s0, typedefs[k])
    {
      var m := typedefs[k];
      assert m != n;
      assert Replaced(s0, s, m);
      assert s2.namedTypes[m] == s.namedTypes[m];
    }
    forall k | i + 1 <= k < |typedefs|
      ensures s2.namedTypes[typedefs[k]] == s0.namedTypes[typedefs[k]]
    {
      assert typedefs[k] != n;
    }
  }

  /** Once every typedef is handled, no typedef names a union. */
  lemma TypedefsDone(s0: State, s: State, typedefs: seq<string>)
    requires forall n :: n in s0.namedTypes <==> n in typedefs
    requires forall n <- typedefs :: n in s0.namedTypes && s0.namedTypes[n] in s0.cells
    requires TypedefsSoFar(s0, s, typedefs, |typedefs|)
    ensures forall n <- s0.namedTypes :: Replaced(s0, s, n) && !Collides(s0, n)
    ensures NoUnionTypedef(s) && s0.nodes.Keys <= s.nodes.Keys
    ensures forall k <- s0.nodes :: k in s.nodes && s.nodes[k] == s0.nodes[k]
    ensures forall o <- s0.objects :: o in s.objects && s.objects[o].attributes == s0.objects[o].attributes
  {
    forall n <- s0.namedTypes
      ensures Replaced(s0, s, n) && !Collides(s0, n)
    {
      var k :| 0 <= k < |typedefs| && typedefs[k] == n;
    }
    forall n <- s.namedTypes
      ensures s.namedTypes[n] in s.cells && !s.cells[s.namedTypes[n]].UnionCell?
    {
      assert n in s0.namedTypes && Replaced(s0, s, n);
    }
  }

  /*
   * ---------- The attribute pass ----------
   */

  /** `a1` is `a0` with some attribute types replaced by cleaned objects. */
  ghost predicate Retyped(a0: seq<Attr>, a1: seq<Attr>, clean: set<Id>)
  {
    && |a1| == |a0|
    && forall j :: 0 <= j < |a0| ==>
         && a1[j].name == a0[j].name && a1[j].inherited == a0[j].inherited
         && (a1[j].typ == a0[j].typ || a1[j].typ in clean)
  }

  /**
   * What the attribute pass may change: as `Grew` and `Frozen` allow for `addUnions`,
   * except that an attribute of an existing node object may now have a cleaned type.
   */
  ghost predicate Touched(s0: State, s1: State)
  {
    && (forall id <- s0.cells :: id in s1.cells && (s1.cells[id] != s0.cells[id] ==>
          s1.cells[id].NullableCell? || s1.cells[id].ListCell?))
    && (forall id <- s0.seen :: id in s1.seen && s1.seen[id] == s0.seen[id])
    && s0.clean <= s1.clean
    && s0.objects.Keys <= s1.objects.Keys
    && (forall o <- s0.objects :: Retyped(s0.objects[o].attributes, s1.objects[o].attributes, s1.clean))
    && (forall o <- s1.objects :: o !in s0.objects ==> s1.objects[o].attributes == [])
    && (forall k <- s0.nodes :: k in s1.nodes && (s1.nodes[k] == s0.nodes[k] || s1.nodes[k] !in s0.objects))
    && s0.order <= s1.order
    && s1.namedTypes == s0.namedTypes
    && Unseen(s1.cells, s1.seen) <= Unseen(s0.cells, s0.seen)
    && (|s1.order| > |s0.order| ==> Unseen(s1.cells, s1.seen) < Unseen(s0.cells, s0.seen))
  }

  lemma TouchedRefl(s: State)
    ensures Touched(s, s)
  {
    forall o <- s.objects
      ensures Retyped(s.objects[o].attributes, s.objects[o].attributes, s.clean)
    {
    }
  }

  /** A visit of `addUnions` touches no attribute. */
  lemma EvolvedTouched(s0: State, s1: State, rank: Id -> nat, bound: nat)
    requires Evolved(s0, s1, rank, bound)
    ensures Touched(s0, s1)
  {
    forall o <- s0.objects
      ensures Retyped(s0.objects[o].attributes, s1.objects[o].attributes, s1.clean)
    {
      assert s1.objects[o].attributes == s0.objects[o].attributes;
    }
  }

  lemma TouchedTrans(s0: State, s1: State, s2: State)
    requires Touched(s0, s1) && Touched(s1, s2)
    ensures Touched(s0, s2)
  {
    forall o <- s0.objects
      ensures Retyped(s0.objects[o].attributes, s2.objects[o].attributes, s2.clean)
    {
      var a0, a1, a2 := s0.objects[o].attributes, s1.objects[o].attributes, s2.objects[o].attributes;
      assert Retyped(a0, a1, s1.clean) && Retyped(a1, a2, s2.clean);
    }
    assert |s1.order| >= |s0.order| && |s2.order| >= |s1.order|;
  }

  /** The pass changes no typedef and writes only wrappers, so no typedef comes to name a union. */
  lemma TouchedNoUnionTypedef(s0: State, s1: State)
    requires Touched(s0, s1)
    ensures NoUnionTypedef(s0) ==> NoUnionTypedef(s1)
  {
    if NoUnionTypedef(s0) {
      forall n <- s1.namedTypes
        ensures s1.namedTypes[n] in s1.cells && !s1.cells[s1.namedTypes[n]].UnionCell?
      {
        assert n in s0.namedTypes;
      }
    }
  }

  /** `n.attributes[j].type = c` on the node object `o`. */
  function Retype(s: State, o: Id, j: nat, c: Id): (r: State)
    requires o in s.objects && j < |s.objects[o].attributes|
    ensures r.objects.Keys == s.objects.Keys
    ensures r.objects[o].attributes == s.objects[o].attributes[j := s.objects[o].attributes[j].(typ := c)]
    ensures forall x <- s.objects :: x != o ==> r.objects[x] == s.objects[x]
  {
    var n := s.objects[o];
    s.(objects := s.objects[o := n.(attributes := n.attributes[j := n.attributes[j].(typ := c)])])
  }

  /** Writing a cleaned object into an attribute keeps the state sound and is a touch. */
  lemma RetypeStep(s: State, rank: Id -> nat, o: Id, j: nat, c: Id)
    requires o in s.objects && j < |s.objects[o].attributes| && c in s.clean
    ensures Touched(s, Retype(s, o, j, c))
    ensures Sound(s, rank) ==> Sound(Retype(s, o, j, c), rank)
  {
    var s1 := Retype(s, o, j, c);
    forall x <- s.objects
      ensures Retyped(s.objects[x].attributes, s1.objects[x].attributes, s1.clean)
    {
    }
    if Sound(s, rank) {
      assert c in s.cells;
      forall x <- s1.objects, a <- s1.objects[x].attributes
        ensures a.typ in s1.cells
      {
        if x == o {
          var k :| 0 <= k < |s1.objects[o].attributes| && s1.objects[o].attributes[k] == a;
          if k != j {
            assert a in s.objects[o].attributes;
          }
        }
      }
    }
  }

  /** Every attribute of node object `o` has a cleaned type. */
  ghost predicate CleanObject(s: State, o: Id)
  {
    o in s.objects && forall a <- s.objects[o].attributes :: a.typ in s.clean
  }

  /**
   * The attributes of node object `o`, below index `j`, carry the memoised rewrite of
   * their type in `s0`, and the rest are as in `s0`.
   */
  ghost predicate RewrittenUpTo(s0: State, s: State, o: Id, j: nat)
  {
    && o in s0.objects && o in s.objects
    && var a0, a := s0.objects[o].attributes, s.objects[o].attributes;
    && |a| == |a0| && j <= |a0|
    && (forall k :: 0 <= k < j ==> a0[k].typ in s.seen && a[k] == a0[k].(typ := s.seen[a0[k].typ]))
    && (forall k :: j <= k < |a0| ==> a[k] == a0[k])
  }

  lemma RewrittenStart(s: State, o: Id)
    requires o in s.objects
    ensures RewrittenUpTo(s, s, o, 0)
  {
  }

  /**
   * One attribute of `o`: `addUnions` took `s` to `s1` and gave `c` for the attribute's
   * type, and the attribute now holds `c`.
   */
  lemma AttributeStep(s0: State, s: State, s1: State, rank: Id -> nat, o: Id, j: nat, c: Id)
    requires RewrittenUpTo(s0, s, o, j) && j < |s.objects[o].attributes|
    ensures var t := s.objects[o].attributes[j].typ;
      Touched(s0, s) && Visited(s, s1, rank, t, c) ==>
        && o in s1.objects && j < |s1.objects[o].attributes|
        && Touched(s0, Retype(s1, o, j, c)) && Sound(Retype(s1, o, j, c), rank)
        && RewrittenUpTo(s0, Retype(s1, o, j, c), o, j + 1)
  {
    var t := s.objects[o].attributes[j].typ;
    if Touched(s0, s) && Visited(s, s1, rank, t, c) {
      AttributeTouched(s0, s, s1, rank, o, j, c);
      RewrittenNext(s0, s, s1, o, j, c);
    }
  }

  lemma AttributeTouched(s0: State, s: State, s1: State, rank: Id -> nat, o: Id, j: nat, c: Id)
    requires o in s.objects && j < |s.objects[o].attributes|
    requires Touched(s0, s) && Visited(s, s1, rank, s.objects[o].attributes[j].typ, c)
    ensures o in s1.objects && s1.objects[o].attributes == s.objects[o].attributes
    ensures Touched(s0, Retype(s1, o, j, c)) && Sound(Retype(s1, o, j, c), rank)
  {
    var t := s.objects[o].attributes[j].typ;
    RetypeStep(s1, rank, o, j, c);
    EvolvedTouched(s, s1, rank, rank(t));
    TouchedTrans(s, s1, Retype(s1, o, j, c));
    TouchedTrans(s0, s, Retype(s1, o, j, c));
  }

  lemma RewrittenNext(s0: State, s: State, s1: State, o: Id, j: nat, c: Id)
    requires RewrittenUpTo(s0, s, o, j) && j < |s.objects[o].attributes|
    requires o in s1.objects && s1.objects[o].attributes == s.objects[o].attributes
    requires forall id <- s.seen :: id in s1.seen && s1.seen[id] == s.seen[id]
    requires var t := s.objects[o].attributes[j].typ; t in s1.seen && s1.seen[t] == c
    ensures RewrittenUpTo(s0, Retype(s1, o, j, c), o, j + 1)
  {
    var s2 := Retype(s1, o, j, c);
    forall k | 0 <= k < j + 1
      ensures s0.objects[o].attributes[k].typ in s2.seen
      ensures s2.objects[o].attributes[k] == s0.objects[o].attributes[k].(typ := s2.seen[s0.objects[o].attributes[k].typ])
    {
      if k == j {
        assert s0.objects[o].attributes[k] == s.objects[o].attributes[j];
      }
    }
  }

  /** Once every attribute of `o` is rewritten, all of them are cleaned. */
  lemma RewrittenClean(s0: State, s: State, rank: Id -> nat, o: Id)
    requires Sound(s, rank) && o in s0.objects && RewrittenUpTo(s0, s, o, |s0.objects[o].attributes|)
    ensures CleanObject(s, o)
  {
    var a0, a := s0.objects[o].attributes, s.objects[o].attributes;
    forall x <- a
      ensures x.typ in s.clean
    {
      var k :| 0 <= k < |a| && a[k] == x;
      assert a0[k].typ in s.seen;
    }
  }

  /** The node objects of the first `i` names in insertion order are cleaned. */
  ghost predicate CleanUpTo(s: State, i: nat)
  {
    i <= |s.order| && forall k :: 0 <= k < i ==> s.order[k] in s.nodes && CleanObject(s, s.nodes[s.order[k]])
  }

  /**
   * The node `order[i]` was handled from `s` to `s1`: the names before it stay cleaned,
   * since a touch only cleans attributes, and a name set anew has a fresh object without attributes.
   */
  lemma NodeStep(s: State, s1: State, rank: Id -> nat, i: nat)
    requires CleanUpTo(s, i) && i < |s.order| && s.order[i] in s.nodes
    requires Touched(s, s1) && Present(s1.objects, s1.nodes)
    requires CleanObject(s1, s.nodes[s.order[i]])
    ensures CleanUpTo(s1, i + 1)
  {
    forall k | 0 <= k < i + 1
      ensures s1.order[k] in s1.nodes && CleanObject(s1, s1.nodes[s1.order[k]])
    {
      var n := s.order[k];
      assert s1.order[k] == n;
      var x := s1.nodes[n];
      if x !in s.objects {
        assert s1.objects[x].attributes == [];
      } else if k < i {
        assert x == s.nodes[n];
        assert Retyped(s.objects[x].attributes, s1.objects[x].attributes, s1.clean);
        forall a <- s1.objects[x].attributes
          ensures a.typ in s1.clean
        {
          var m :| 0 <= m < |s1.objects[x].attributes| && s1.objects[x].attributes[m] == a;
          assert s.objects[x].attributes[m] in s.objects[x].attributes;
        }
      }
    }
  }

  /** After the last name in insertion order, every node object is cleaned. */
  lemma CleanAll(s: State, rank: Id -> nat)
    requires Sound(s, rank) && CleanUpTo(s, |s.order|)
    ensures forall n <- s.nodes :: CleanObject(s, s.nodes[n])
  {
    forall n <- s.nodes
      ensures CleanObject(s, s.nodes[n])
    {
      var k :| 0 <= k < |s.order| && s.order[k] == n;
    }
  }

  /*
   * ---------- The graph a state stands for ----------
   */

  function NodeDeclOf(cells: map<Id, Cell>, ghost rank: Id -> nat, n: NodeObject): (d: NodeDecl)
    requires Shaped(cells, rank) && forall a <- n.attributes :: a.typ in cells
    ensures d.parents == n.parents && d.children == n.children && |d.attributes| == |n.attributes|
    ensures forall k :: 0 <= k < |n.attributes| ==>
      d.attributes[k] == Attribute(n.attributes[k].name, Denote(cells, rank, n.attributes[k].typ), n.attributes[k].inherited)
  {
    var attrs := n.attributes;
    NodeDecl(n.parents, n.children,
      seq(|attrs|, k requires 0 <= k < |attrs| => Attribute(attrs[k].name, Denote(cells, rank, attrs[k].typ), attrs[k].inherited)))
  }

  /** The node graph `nodes` stands for, each attribute type read as the type it denotes. */
  function ToGraph(s: State, ghost rank: Id -> nat): (g: Graph)
    requires Shaped(s.cells, rank) && NodeTable(s.cells, s.nodes, s.order, s.objects)
    ensures WellFormed(g) && g.order == s.order && g.nodes.Keys == s.nodes.Keys
  {
    Graph(map n | n in s.nodes :: NodeDeclOf(s.cells, rank, s.objects[s.nodes[n]]), s.order)
  }

  /** When every node object is cleaned, no attribute of the graph has a union or a typedef reference in its type. */
  lemma GraphUnionFree(s: State, rank: Id -> nat)
    requires Sound(s, rank)
    ensures (forall n <- s.nodes :: CleanObject(s, s.nodes[n])) ==>
      var g := ToGraph(s, rank);
      forall n <- g.nodes, a <- g.nodes[n].attributes :: UnionFree(a.typ)
  {
    if !(forall n <- s.nodes :: CleanObject(s, s.nodes[n])) {
      return;
    }
    var g := ToGraph(s, rank);
    forall n <- g.nodes, a <- g.nodes[n].attributes
      ensures UnionFree(a.typ)
    {
      var x := s.objects[s.nodes[n]];
      var k :| 0 <= k < |g.nodes[n].attributes| && g.nodes[n].attributes[k] == a;
      assert x.attributes[k] in x.attributes;
      CleanIsUnionFree(s.cells, rank, s.clean, x.attributes[k].typ);
    }
  }
}
