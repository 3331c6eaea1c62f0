/**
 * `unions-to-interfaces`: rewrites the resolved node graph so that no attribute type
 * is a union or a reference to a typedef. Every union becomes an interface node whose
 * children are the union's members.
 *
 * The script keeps its state in variables its inner functions close over (`nodes`,
 * `namedTypes`, `seen`) and in the objects they reach; here that state is one `State`
 * value, which each method receives and returns in its new form.
 */
module UnionElimination {
  import opened Wrappers
  import opened SemanticTypes
  import opened UnionArena
  import Text

  /** What the walk of `addUnions` can throw. */
  predicate WalkError(e: string)
  {
    e == Unhandled || e == NoParents || e == NoKind || e == NotReached
  }

  /**
   * `addUnions(type)`: the object that replaces `type`, memoised on its identity. A
   * second visit returns the recorded result and changes nothing; a value, an enum or
   * a node is its own replacement.
   */
  method AddUnions(s: State, ghost rank: Id -> nat, t: Id) returns (r: Result<Id>, s1: State)
    requires Sound(s, rank) && t in s.cells
    ensures t in s.seen ==> r == Success(s.seen[t]) && s1 == s
    ensures t !in s.seen && (s.cells[t].ValueCell? || s.cells[t].EnumCell? || s.cells[t].NodeCell?) ==> r == Success(t)
    ensures r.Success? ==> Visited(s, s1, rank, t, r.value)
    ensures r.Failure? ==> WalkError(r.error)
    ensures NoUnionTypedef(s) ==> r != Failure(NotReached)
    decreases rank(t), 1
  {
    if t in s.seen {
      return Success(s.seen[t]), s;
    }
    match s.cells[t]
    case NullableCell(_) => r, s1 := RewriteWrapper(s, rank, t);
    case ListCell(_) => r, s1 := RewriteWrapper(s, rank, t);
    case NamedCell(_) => r, s1 := RewriteNamed(s, rank, t);
    case UnionCell(_) => r, s1 := RewriteUnion(s, rank, t);
    case _ =>
      RecordStep(s, rank, t, t);
      r, s1 := Success(t), s.(seen := s.seen[t := t], clean := s.clean + {t});
  }

  /** A nullable or list object keeps its identity and kind; its argument becomes the rewritten argument. */
  method RewriteWrapper(s: State, ghost rank: Id -> nat, t: Id) returns (r: Result<Id>, s2: State)
    requires Sound(s, rank) && t in s.cells && t !in s.seen && (s.cells[t].NullableCell? || s.cells[t].ListCell?)
    ensures r.Success? ==> Visited(s, s2, rank, t, r.value)
    ensures r.Success? ==> (r.value == t && SameShape(s.cells[t], s2.cells[t])
      && s.cells[t].arg in s2.seen && s2.cells[t].arg == s2.seen[s.cells[t].arg])
    ensures r.Failure? ==> WalkError(r.error)
    ensures NoUnionTypedef(s) ==> r != Failure(NotReached)
    decreases rank(t), 0
  {
    var a := s.cells[t].arg;
    assert Below(s.cells, rank, t);
    var c, s1 := AddUnions(s, rank, a);
    if c.Failure? {
      return c, s1;
    }
    var w := if s.cells[t].NullableCell? then NullableCell(c.value) else ListCell(c.value);
    s2 := s1.(cells := s1.cells[t := w], seen := s1.seen[t := t], clean := s1.clean + {t});
    WrapVisit(s, s1, s2, rank, t, w);
    r := Success(t);
  }

  /**
   * A reference to a typedef becomes the rewrite of the typedef's type; an unknown
   * name, or a typedef that is still a union, makes the script throw.
   */
  method RewriteNamed(s: State, ghost rank: Id -> nat, t: Id) returns (r: Result<Id>, s2: State)
    requires Sound(s, rank) && t in s.cells && t !in s.seen && s.cells[t].NamedCell?
    ensures s.cells[t].alias !in s.namedTypes ==> r == Failure(NoKind)
    ensures s.cells[t].alias in s.namedTypes && s.cells[s.namedTypes[s.cells[t].alias]].UnionCell? ==> r == Failure(NotReached)
    ensures r.Success? ==> Visited(s, s2, rank, t, r.value)
    ensures r.Success? ==> (s.cells[t].alias in s.namedTypes && s.namedTypes[s.cells[t].alias] in s2.seen
      && r.value == s2.seen[s.namedTypes[s.cells[t].alias]])
    ensures r.Failure? ==> WalkError(r.error)
    ensures NoUnionTypedef(s) ==> r != Failure(NotReached)
    decreases rank(t), 0
  {
    var alias := s.cells[t].alias;
    if alias !in s.namedTypes {
      return Failure(NoKind), s;
    }
    var child := s.namedTypes[alias];
    if s.cells[child].UnionCell? {
      return Failure(NotReached), s;
    }
    var c, s1 := AddUnions(s, rank, child);
    if c.Failure? {
      return c, s1;
    }
    s2 := s1.(seen := s1.seen[t := c.value], clean := s1.clean + {c.value});
    NamedVisit(s, s1, s2, rank, t, child, c.value);
    r := c;
  }

  /**
   * An inline union becomes a new node named by its members' names run together,
   * with every member wired as its child, and the type `{kind: 'node'}` of that name.
   * The name is set in `nodes` whether or not it is already there.
   */
  method RewriteUnion(s: State, ghost rank: Id -> nat, t: Id) returns (r: Result<Id>, s4: State)
    requires Sound(s, rank) && t in s.cells && t !in s.seen && s.cells[t].UnionCell?
    ensures var ms := s.cells[t].members; var fault := WireFault(s.cells, s.nodes.Keys + {UnionName(s.cells, ms)}, ms, true);
      && (r.Success? <==> fault.None?)
      && (r.Failure? ==> fault == Some(r.error))
    ensures r.Success? ==> Visited(s, s4, rank, t, r.value)
    ensures r.Success? ==> UnionWired(s, s4, t, r.value, UnionName(s.cells, s.cells[t].members))
    ensures r.Failure? ==> WalkError(r.error)
    ensures r != Failure(NotReached)
    decreases rank(t), 0
  {
    var ms := s.cells[t].members;
    var name := UnionName(s.cells, ms);
    var s1 := WithNode(s, name);
    NewNodeStep(s, rank, name);
    assert Below(s.cells, rank, t);
    var w, objs := WireAll(s1.cells, s1.nodes, s1.objects, name, ms, true);
    if w.Failure? {
      return Failure(w.error), s1.(objects := objs);
    }
    s4 := UnionResult(s, t, name, objs);
    UnionVisit(s, rank, t, name, objs);
    r := Success(s.next + 1);
  }

  /*
   * ---------- The typedef pass ----------
   */

  function NodeExists(name: string): (e: string)
    ensures e != NotReached
  {
    var e := "Node named " + name + " already exists!";
    assert e[2] != NotReached[2];
    e
  }

  /**
   * A union typedef `name` that is not yet a node becomes one, wired to its members
   * without a kind check, and the typedef becomes `{kind: 'node', argument: name}`.
   */
  method AddTypedefNode(s: State, ghost rank: Id -> nat, name: string) returns (r: Result<()>, s1: State)
    requires Sound(s, rank) && name in s.namedTypes && name !in s.nodes && s.cells[s.namedTypes[name]].UnionCell?
    ensures var fault := WireFault(s.cells, s.nodes.Keys + {name}, s.cells[s.namedTypes[name]].members, false);
      && (r.Success? <==> fault.None?)
      && (r.Failure? ==> fault == Some(r.error))
    ensures r.Success? ==> Sound(s1, rank) && Extended(s, s1, name)
    ensures r.Success? ==>
      && name in s1.namedTypes && s1.namedTypes[name] == s.next + 1
      && s.next + 1 in s1.cells && s1.cells[s.next + 1] == NodeCell(name)
      && UnionWired(s, s1, s.namedTypes[name], s.next + 1, name)
  {
    var t := s.namedTypes[name];
    var ms := s.cells[t].members;
    var w := WithNode(s, name);
    NewNodeStep(s, rank, name);
    assert Below(s.cells, rank, t);
    var k, objs := WireAll(w.cells, w.nodes, w.objects, name, ms, false);
    if k.Failure? {
      return Failure(k.error), w.(objects := objs);
    }
    WiredWithNode(s, name, MemberNames(s.cells, ms), objs);
    s1 := TypedefResult(s, name, objs);
    TypedefSettled(s, rank, name, objs);
    TypedefJoined(s, t, name, objs);
    r := Success(());
  }

  /**
   * One iteration of `namedTypes.forEach(...)`: the typedef `typedefs[i]` is skipped
   * unless it is a union, and a union typedef whose name is already a node stops the pass.
   */
  method AddTypedef(s0: State, s: State, ghost rank: Id -> nat, typedefs: seq<string>, i: nat) returns (r: Result<()>, s2: State)
    requires i < |typedefs| && Text.Distinct(typedefs)
    requires forall n <- typedefs :: n in s0.namedTypes && s0.namedTypes[n] in s0.cells
    requires Sound(s, rank) && TypedefsSoFar(s0, s, typedefs, i)
    ensures r != Failure(NotReached)
    ensures var t := s.namedTypes[typedefs[i]];
      s.cells[t].UnionCell? && typedefs[i] in s.nodes ==> r == Failure(NodeExists(typedefs[i]))
    ensures r.Failure? ==> r.error == Unhandled || r.error == NoParents || r.error == NodeExists(typedefs[i])
    ensures r.Success? ==> Sound(s2, rank) && TypedefsSoFar(s0, s2, typedefs, i + 1)
  {
    var name := typedefs[i];
    if !s.cells[s.namedTypes[name]].UnionCell? {
      TypedefsSkip(s0, s, typedefs, i);
      return Success(()), s;
    }
    if name in s.nodes {
      return Failure(NodeExists(name)), s;
    }
    r, s2 := AddTypedefNode(s, rank, name);
    if r.Success? {
      TypedefsNext(s0, s, s2, typedefs, i);
    }
  }

  /**
   * `namedTypes.forEach(...)` over the typedefs in insertion order `typedefs`: every
   * union typedef becomes a node of its name, and the pass fails on the first union
   * typedef whose name is already a node or whose members cannot be wired.
   */
  method AddUnionTypedefs(s0: State, ghost rank: Id -> nat, typedefs: seq<string>) returns (r: Result<()>, s: State)
    requires Sound(s0, rank) && Text.Distinct(typedefs) && forall n :: n in s0.namedTypes <==> n in typedefs
    ensures r != Failure(NotReached)
    ensures (exists n <- s0.namedTypes :: Collides(s0, n)) ==> r.Failure?
    ensures r.Failure? ==> r.error == Unhandled || r.error == NoParents || exists n <- s0.namedTypes :: r.error == NodeExists(n)
    ensures r.Success? ==> Sound(s, rank) && NoUnionTypedef(s) && s.seen == s0.seen && s.clean == s0.clean
    ensures r.Success? ==> s0.nodes.Keys <= s.nodes.Keys && forall n <- s0.namedTypes :: Replaced(s0, s, n)
    ensures r.Success? ==> forall k <- s0.nodes :: k in s.nodes && s.nodes[k] == s0.nodes[k]
    ensures r.Success? ==> forall o <- s0.objects :: o in s.objects && s.objects[o].attributes == s0.objects[o].attributes
  {
    r, s := Success(()), s0;
    assert forall n <- typedefs :: n in s0.namedTypes && s0.namedTypes[n] in s0.cells;
    TypedefsStart(s0, typedefs);
    var i := 0;
    while i < |typedefs| && r.Success?
      invariant i <= |typedefs| && r != Failure(NotReached)
      invariant r.Failure? ==> r.error == Unhandled || r.error == NoParents || exists n <- s0.namedTypes :: r.error == NodeExists(n)
      invariant r.Success? ==> Sound(s, rank) && TypedefsSoFar(s0, s, typedefs, i)
    {
      r, s := AddTypedef(s0, s, rank, typedefs, i);
      i := i + 1;
    }
    if r.Success? {
      TypedefsDone(s0, s, typedefs);
    }
  }

  /*
   * ---------- The attribute pass ----------
   */

  /**
   * `n.attributes.forEach((a, i) => {n.attributes[i].type = addUnions(a.type);})` on the
   * node object `o`: each attribute, in order, takes the memoised rewrite of its type.
   */
  method RewriteAttributes(s0: State, ghost rank: Id -> nat, o: Id) returns (r: Result<()>, s: State)
    requires Sound(s0, rank) && o in s0.objects
    ensures NoUnionTypedef(s0) ==> r != Failure(NotReached)
    ensures r.Failure? ==> WalkError(r.error)
    ensures r.Success? ==> Sound(s, rank) && Touched(s0, s)
    ensures r.Success? ==> RewrittenUpTo(s0, s, o, |s0.objects[o].attributes|)
  {
    r, s := Success(()), s0;
    TouchedRefl(s0);
    RewrittenStart(s0, o);
    var len := |s.objects[o].attributes|;
    var j := 0;
    while j < len && r.Success?
      invariant j <= len == |s0.objects[o].attributes|
      invariant r.Success? ==> Sound(s, rank) && Touched(s0, s) && RewrittenUpTo(s0, s, o, j)
      invariant r.Failure? ==> WalkError(r.error)
      invariant NoUnionTypedef(s0) ==> r != Failure(NotReached)
    {
      var c, s1 := AddUnions(s, rank, s.objects[o].attributes[j].typ);
      TouchedNoUnionTypedef(s0, s);
      if c.Failure? {
        r := Failure(c.error);
      } else {
        AttributeStep(s0, s, s1, rank, o, j, c.value);
        s := Retype(s1, o, j, c.value);
      }
      j := j + 1;
    }
  }

  /**
   * The turn of the `i`-th name in insertion order: its node object, read from `nodes`
   * now, has its attributes rewritten, and the names before it stay cleaned.
   */
  method RewriteNode(s0: State, s: State, ghost rank: Id -> nat, i: nat) returns (r: Result<()>, s1: State)
    requires i < |s.order| && Sound(s, rank) && Touched(s0, s) && CleanUpTo(s, i)
    ensures NoUnionTypedef(s0) ==> r != Failure(NotReached)
    ensures r.Failure? ==> WalkError(r.error)
    ensures r.Success? ==> Sound(s1, rank) && Touched(s0, s1) && CleanUpTo(s1, i + 1)
    ensures r.Success? ==>
      (Unseen(s1.cells, s1.seen) < Unseen(s.cells, s.seen)
       || (Unseen(s1.cells, s1.seen) == Unseen(s.cells, s.seen) && |s1.order| == |s.order|))
  {
    var o := s.nodes[s.order[i]];
    r, s1 := RewriteAttributes(s, rank, o);
    TouchedNoUnionTypedef(s0, s);
    if r.Success? {
      RewrittenClean(s, s1, rank, o);
      NodeStep(s, s1, rank, i);
      TouchedTrans(s0, s, s1);
    }
  }

  /**
   * `nodes.forEach(n => ...)`: the nodes in insertion order, including those `addUnions`
   * adds on the way, each read from `nodes` when its turn comes.
   */
  method RewriteNodes(s0: State, ghost rank: Id -> nat) returns (r: Result<()>, s: State)
    requires Sound(s0, rank)
    ensures NoUnionTypedef(s0) ==> r != Failure(NotReached)
    ensures r.Failure? ==> WalkError(r.error)
    ensures r.Success? ==> Sound(s, rank) && Touched(s0, s)
    ensures r.Success? ==> forall n <- s.nodes :: CleanObject(s, s.nodes[n])
  {
    r, s := Success(()), s0;
    TouchedRefl(s0);
    var i := 0;
    while i < |s.order| && r.Success?
      invariant r.Success? ==> Sound(s, rank) && Touched(s0, s) && CleanUpTo(s, i)
      invariant NoUnionTypedef(s0) ==> r != Failure(NotReached)
      invariant r.Failure? ==> WalkError(r.error)
      decreases Unseen(s.cells, s.seen), |s.order| - i
    {
      var s1;
      r, s1 := RewriteNode(s0, s, rank, i);
      if r.Success? {
        s := s1;
      }
      i := i + 1;
    }
    if r.Success? {
      CleanAll(s, rank);
    }
  }

  /*
   * ---------- The whole transform ----------
   */

  /** The node names present after the typedef pass, the union typedefs among them, survive the attribute pass. */
  lemma TypedefNodesKept(s0: State, s1: State, s2: State)
    requires forall n <- s0.namedTypes :: s0.namedTypes[n] in s0.cells
    requires (s0.nodes.Keys <= s1.nodes.Keys && forall n <- s0.namedTypes :: Replaced(s0, s1, n)) && Touched(s1, s2)
    ensures s0.nodes.Keys <= s2.nodes.Keys
    ensures forall n <- s0.namedTypes :: s0.cells[s0.namedTypes[n]].UnionCell? ==> n in s2.nodes
  {
    forall n <- s0.namedTypes | s0.cells[s0.namedTypes[n]].UnionCell?
      ensures n in s2.nodes
    {
      assert Replaced(s0, s1, n);
    }
  }

  /** Attributes that match `a0` one for one, by name and inherited flag. */
  predicate SameSlots(a0: seq<Attr>, a: seq<Attribute>)
  {
    |a| == |a0| && forall j :: 0 <= j < |a0| ==> a[j].name == a0[j].name && a[j].inherited == a0[j].inherited
  }

  /** One node of the input, followed through both passes into the graph. */
  lemma NodeCarried(s0: State, s1: State, s2: State, rank: Id -> nat, n: string)
    requires Sound(s0, rank) && Sound(s2, rank) && n in s0.nodes
    requires n in s1.nodes && s1.nodes[n] == s0.nodes[n]
    requires s0.nodes[n] in s1.objects && s1.objects[s0.nodes[n]].attributes == s0.objects[s0.nodes[n]].attributes
    requires Touched(s1, s2)
    ensures s0.nodes[n] in s0.objects && n in ToGraph(s2, rank).nodes
    ensures var a := ToGraph(s2, rank).nodes[n].attributes;
      SameSlots(s0.objects[s0.nodes[n]].attributes, a) || a == []
  {
    var o := s0.nodes[n];
    assert Present(s0.objects, s0.nodes);
    assert Present(s2.objects, s2.nodes);
    var x := s2.objects[s2.nodes[n]];
    assert ToGraph(s2, rank).nodes[n] == NodeDeclOf(s2.cells, rank, x);
    if s2.nodes[n] == o {
      assert Retyped(s1.objects[o].attributes, x.attributes, s2.clean);
    } else {
      assert s2.nodes[n] !in s1.objects;
    }
  }

  /**
   * Every node of the input is in the graph with its attributes in place, their types
   * rewritten, unless an inline union took its name and an empty node object replaced it.
   */
  lemma AttributesCarried(s0: State, s1: State, s2: State, rank: Id -> nat)
    requires Sound(s0, rank) && Sound(s2, rank)
    requires forall k <- s0.nodes :: k in s1.nodes && s1.nodes[k] == s0.nodes[k]
    requires forall o <- s0.objects :: o in s1.objects && s1.objects[o].attributes == s0.objects[o].attributes
    requires Touched(s1, s2)
    ensures var g := ToGraph(s2, rank);
      forall n <- s0.nodes :: s0.nodes[n] in s0.objects && n in g.nodes
        && (SameSlots(s0.objects[s0.nodes[n]].attributes, g.nodes[n].attributes) || g.nodes[n].attributes == [])
  {
    forall n <- s0.nodes
      ensures s0.nodes[n] in s0.objects && n in ToGraph(s2, rank).nodes
        && (SameSlots(s0.objects[s0.nodes[n]].attributes, ToGraph(s2, rank).nodes[n].attributes)
            || ToGraph(s2, rank).nodes[n].attributes == [])
    {
      assert Present(s0.objects, s0.nodes);
      NodeCarried(s0, s1, s2, rank, n);
    }
  }

  /** The object the transform returns: `{nodes, enums}`. */
  datatype Interfaces = Interfaces(graph: Graph, enums: map<string, seq<string>>)

  /**
   * The exported function on `{nodes, enums, namedTypes}`, whose typedefs were inserted
   * in the order `typedefs`; `addUnions` starts with nothing met. A success holds every
   * node (the union typedefs among them), no attribute type in it has a union or a
   * typedef reference, and the unreachable throw is indeed never reached.
   */
  method Transform(s0: State, ghost rank: Id -> nat, typedefs: seq<string>, enums: map<string, seq<string>>)
    returns (r: Result<Interfaces>)
    requires Sound(s0, rank) && s0.seen == map[] && s0.clean == {}
    requires Text.Distinct(typedefs) && forall n :: n in s0.namedTypes <==> n in typedefs
    ensures r != Failure(NotReached)
    ensures (exists n <- s0.namedTypes :: Collides(s0, n)) ==> r.Failure?
    ensures r.Failure? ==> (r.error == Unhandled || r.error == NoParents || r.error == NoKind
      || exists n <- s0.namedTypes :: r.error == NodeExists(n))
    ensures r.Success? ==> WellFormed(r.value.graph) && r.value.enums == enums
    ensures r.Success? ==> s0.nodes.Keys <= r.value.graph.nodes.Keys
    ensures r.Success? ==> forall n <- s0.namedTypes :: s0.cells[s0.namedTypes[n]].UnionCell? ==> n in r.value.graph.nodes
    ensures r.Success? ==> forall n <- r.value.graph.nodes, a <- r.value.graph.nodes[n].attributes :: UnionFree(a.typ)
    ensures r.Success? ==> forall n <- s0.nodes :: (s0.nodes[n] in s0.objects && n in r.value.graph.nodes
      && (SameSlots(s0.objects[s0.nodes[n]].attributes, r.value.graph.nodes[n].attributes) || r.value.graph.nodes[n].attributes == []))
  {
    var t, s1 := AddUnionTypedefs(s0, rank, typedefs);
    if t.Failure? {
      return Failure(t.error);
    }
    var u, s2 := RewriteNodes(s1, rank);
    if u.Failure? {
      return Failure(u.error);
    }
    GraphUnionFree(s2, rank);
    TypedefNodesKept(s0, s1, s2);
    AttributesCarried(s0, s1, s2, rank);
    r := Success(Interfaces(ToGraph(s2, rank), enums));
  }
}
