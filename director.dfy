/**
 * The director generators: for every type shape a reducer walk can meet, starting from
 * `Program`, one static method that hands the value to the right reducer method.
 * `Table` is the memo/worklist (`methods`) that `direct` fills; the plain and the thunked
 * tables are two tables built the same way with a different `thunked` flag, and the older
 * single-table director is the plain one.
 */
module Director {
  import opened Wrappers
  import opened SemanticTypes
  import Utilities
  import Text

  /** The node every table is grown from. */
  const Root := "Program"

  /** `methodNameFor`; the name only looks two wrappers deep and reads the `argument` under them. */
  function MethodNameFor(t: SemanticType): (r: Result<string>)
    ensures r.Success? <==> t.Nullable? || t.List? || t.Node?
  {
    match t
    case Nullable(a) =>
      if a.List? then Success("reduceMaybeList" + ArgText(a.argument)) else Success("reduceMaybe" + ArgText(a))
    case List(a) =>
      if a.Nullable? then Success("reduceListMaybe" + ArgText(a.argument)) else Success("reduceList" + ArgText(a))
    case Node(n) => Success("reduce" + n)
    case _ => Failure("Not reached")
  }

  /*
   * ---------- The five names, and reading a name back ----------
   */

  /** A node name that does not itself begin like one of the wrapper words. */
  predicate Unprefixed(x: string)
  {
    !Text.HasPrefix(x, "Maybe") && !Text.HasPrefix(x, "List")
  }

  /** Reads a method name back into the shape it was made for, trying the longer wrapper words first. */
  function ParseMethodName(s: string): Option<SemanticType>
  {
    if !Text.HasPrefix(s, "reduce") then None
    else
      var rest := s[6..];
      if Text.HasPrefix(rest, "MaybeList") then Some(Nullable(List(Node(rest[9..]))))
      else if Text.HasPrefix(rest, "Maybe") then Some(Nullable(Node(rest[5..])))
      else if Text.HasPrefix(rest, "ListMaybe") then Some(List(Nullable(Node(rest[9..]))))
      else if Text.HasPrefix(rest, "List") then Some(List(Node(rest[4..])))
      else Some(Node(rest))
  }

  lemma PrefixOfConcat(p: string, x: string)
    ensures Text.HasPrefix(p + x, p) && (p + x)[|p|..] == x
  {
  }

  lemma PrefixCancel(p: string, x: string, q: string)
    ensures Text.HasPrefix(p + x, p + q) <==> Text.HasPrefix(x, q)
  {
    if |q| <= |x| {
      assert (p + x)[..|p| + |q|] == p + x[..|q|];
      assert (p + x[..|q|])[|p|..] == x[..|q|] && (p + q)[|p|..] == q;
    }
  }

  lemma PrefixShorter(s: string, p: string, q: string)
    requires Text.HasPrefix(s, p + q)
    ensures Text.HasPrefix(s, p)
  {
    assert s[..|p|] == s[..|p| + |q|][..|p|];
  }

  lemma PrefixMismatch(s: string, p: string)
    requires |s| > 0 && |p| > 0 && s[0] != p[0]
    ensures !Text.HasPrefix(s, p)
  {
  }

  lemma WordsJoin()
    ensures "MaybeList" == "Maybe" + "List" && "ListMaybe" == "List" + "Maybe"
    ensures "reduceMaybeList" == "reduce" + "MaybeList" && "reduceMaybe" == "reduce" + "Maybe"
    ensures "reduceListMaybe" == "reduce" + "ListMaybe" && "reduceList" == "reduce" + "List"
  {
    assert forall i | 0 <= i < 15 :: "reduceMaybeList"[i] == ("reduce" + "MaybeList")[i];
    assert forall i | 0 <= i < 11 :: "reduceMaybe"[i] == ("reduce" + "Maybe")[i];
    assert forall i | 0 <= i < 15 :: "reduceListMaybe"[i] == ("reduce" + "ListMaybe")[i];
    assert forall i | 0 <= i < 10 :: "reduceList"[i] == ("reduce" + "List")[i];
    assert forall i | 0 <= i < 9 :: "MaybeList"[i] == ("Maybe" + "List")[i];
    assert forall i | 0 <= i < 9 :: "ListMaybe"[i] == ("List" + "Maybe")[i];
  }

  /** The text after `reduce` in the name of a shape. */
  lemma NameAfterReduce(t: SemanticType)
    requires Shape(t)
    ensures MethodNameFor(t).Success? && Text.HasPrefix(MethodNameFor(t).value, "reduce")
    ensures MethodNameFor(t).value[6..] == WrapperWords(t) + Innermost(t).name
  {
    var x := Innermost(t).name;
    var w := WrapperWords(t);
    WordsJoin();
    if t.Nullable? && t.argument.List? {
      assert "reduceMaybeList" + x == "reduce" + ("MaybeList" + x);
    } else if t.Nullable? {
      assert "reduceMaybe" + x == "reduce" + ("Maybe" + x);
    } else if t.List? && t.argument.Nullable? {
      assert "reduceListMaybe" + x == "reduce" + ("ListMaybe" + x);
    } else if t.List? {
      assert "reduceList" + x == "reduce" + ("List" + x);
    } else {
      assert "reduce" + x == "reduce" + ("" + x);
    }
    PrefixOfConcat("reduce", w + x);
  }

  function WrapperWords(t: SemanticType): string
  {
    match t
    case Nullable(List(_)) => "MaybeList"
    case Nullable(_) => "Maybe"
    case List(Nullable(_)) => "ListMaybe"
    case List(_) => "List"
    case _ => ""
  }

  /**
   * For node names that do not begin with `Maybe` or `List`, the five naming rules give
   * a name that reads back into its shape; so different shapes get different methods.
   */
  lemma MethodNameRoundTrip(t: SemanticType)
    requires Shape(t) && Unprefixed(Innermost(t).name)
    ensures MethodNameFor(t).Success?
    ensures ParseMethodName(MethodNameFor(t).value) == Some(t)
  {
    NameAfterReduce(t);
    var x := Innermost(t).name;
    var rest := MethodNameFor(t).value[6..];
    WordsJoin();
    if t.Nullable? && t.argument.List? {
      PrefixOfConcat("MaybeList", x);
    } else if t.Nullable? {
      PrefixCancel("Maybe", x, "List");
      PrefixOfConcat("Maybe", x);
    } else if t.List? && t.argument.Nullable? {
      PrefixMismatch(rest, "MaybeList");
      PrefixMismatch(rest, "Maybe");
      PrefixOfConcat("ListMaybe", x);
    } else if t.List? {
      PrefixMismatch(rest, "MaybeList");
      PrefixMismatch(rest, "Maybe");
      PrefixCancel("List", x, "Maybe");
      PrefixOfConcat("List", x);
    } else {
      assert rest == x;
      if Text.HasPrefix(x, "MaybeList") {
        PrefixShorter(x, "Maybe", "List");
      }
      if Text.HasPrefix(x, "ListMaybe") {
        PrefixShorter(x, "List", "Maybe");
      }
    }
  }

  lemma MethodNameInjective(t1: SemanticType, t2: SemanticType)
    requires Shape(t1) && Unprefixed(Innermost(t1).name)
    requires Shape(t2) && Unprefixed(Innermost(t2).name)
    requires MethodNameFor(t1) == MethodNameFor(t2)
    ensures t1 == t2
  {
    MethodNameRoundTrip(t1);
    MethodNameRoundTrip(t2);
  }

  /** Without the naming condition two shapes can share a method, and the memo keeps only the first. */
  lemma MethodNameCollision()
    ensures MethodNameFor(Nullable(Node("ListA"))) == MethodNameFor(Nullable(List(Node("A"))))
  {
    assert "reduceMaybe" + "ListA" == "reduceMaybeList" + "A";
  }

  /*
   * ---------- Java types and arguments ----------
   */

  /** The director's own `toJavaType`: only nullables and lists around a node can be written. */
  function ToJavaType(t: SemanticType): (r: Result<string>)
    ensures r.Success? <==> Innermost(t).Node?
    ensures r.Success? ==> r == Utilities.ToJavaType(t, None)
  {
    match t
    case Nullable(a) =>
      (match ToJavaType(a)
       case Success(s) => Success("Maybe<" + s + ">")
       case Failure(e) => Failure(e))
    case List(a) =>
      (match ToJavaType(a)
       case Success(s) => Success("ImmutableList<" + s + ">")
       case Failure(e) => Failure(e))
    case Node(n) => Success(n)
    case _ => Failure("Not reached")
  }

  /** What one reduced node stands for in a table: a state, or a suspended state when thunked. */
  function Slot(thunked: bool): string
  {
    if thunked then "Supplier<State>" else "State"
  }

  /** `innerType` of the nullable case. */
  function MaybeElement(a: SemanticType, thunked: bool): string
  {
    if a.List? then "ImmutableList<" + Slot(thunked) + ">" else Slot(thunked)
  }

  /** `innerType` of the list case. */
  function ListElement(a: SemanticType, thunked: bool): string
  {
    if a.Nullable? then "Maybe<" + Slot(thunked) + ">" else Slot(thunked)
  }

  /** The element type a wrapper method returns is the argument's Java type with each node read as one slot. */
  lemma ElementTypes(t: SemanticType, thunked: bool)
    requires Shape(t) && (t.Nullable? || t.List?)
    ensures Utilities.ToJavaType(t.argument, Some(Slot(thunked))).Success?
    ensures t.Nullable? ==> MaybeElement(t.argument, thunked) == Utilities.ToJavaType(t.argument, Some(Slot(thunked))).value
    ensures t.List? ==> ListElement(t.argument, thunked) == Utilities.ToJavaType(t.argument, Some(Slot(thunked))).value
  {
  }

  /** A call `method(reducer, target)`, suspended as `() -> …` when `thunk` is set. */
  datatype Call = Call(thunk: bool, callee: string, target: string)

  function Render(c: Call): string
  {
    (if c.thunk then "() -> " else "") + c.callee + "(reducer, " + c.target + ")"
  }

  /** `toArgument`: only a node argument is suspended, and only in the thunked table. */
  function ToArgument(t: SemanticType, target: string, thunked: bool): (r: Result<Call>)
    ensures r.Success? <==> MethodNameFor(t).Success?
    ensures r.Success? ==> r.value.callee == MethodNameFor(t).value && r.value.target == target
    ensures r.Success? ==> (r.value.thunk <==> thunked && t.Node?)
  {
    match MethodNameFor(t)
    case Failure(e) => Failure(e)
    case Success(m) => Success(Call(thunked && t.Node?, m, target))
  }

  /** The arguments after `node` in a leaf's reducer call: one per attribute, reading `node.<field>`. */
  function Arguments(attrs: seq<Attribute>, thunked: bool): (r: Result<seq<Call>>)
    ensures r.Success? <==> forall a <- attrs :: MethodNameFor(a.typ).Success?
    ensures r.Success? ==> |r.value| == |attrs|
    ensures r.Success? ==> forall i :: 0 <= i < |attrs| ==>
      r.value[i] == ToArgument(attrs[i].typ, "node." + Utilities.Sanitize(attrs[i].name), thunked).value
  {
    if attrs == [] then Success([])
    else
      match ToArgument(attrs[0].typ, "node." + Utilities.Sanitize(attrs[0].name), thunked)
      case Failure(e) => Failure(e)
      case Success(c) =>
        match Arguments(attrs[1..], thunked)
        case Failure(e) => Failure(e)
        case Success(cs) =>
          assert forall a <- attrs :: a == attrs[0] || a in attrs[1..];
          Success([c] + cs)
  }

  /*
   * ---------- One generated method ----------
   */

  datatype Body =
    | MapMaybe(element: string, call: Call)   // maybe.map(x -> call)
    | MapList(element: string, call: Call)    // list.map(x -> call)
    | Dispatch(children: seq<string>)         // an instanceof test per child, then "Not reached"
    | Reduce(node: string, args: seq<Call>)   // reducer.reduce<node>(node, args…)

  /** A static method: its name, the type it walks, that type in Java, and what it returns. */
  datatype Method = Method(name: string, param: SemanticType, paramType: string, body: Body)

  /** The method `direct` writes for `t`, once the methods it calls exist. */
  function Generate(g: Graph, t: SemanticType, thunked: bool): (r: Result<Method>)
    ensures r.Success? ==> MethodNameFor(t) == Success(r.value.name) && r.value.param == t
  {
    match t
    case Nullable(a) =>
      var name :- MethodNameFor(t);
      var jt :- ToJavaType(t);
      var call :- ToArgument(a, "x", thunked);
      Success(Method(name, t, jt, MapMaybe(MaybeElement(a, thunked), call)))
    case List(a) =>
      var name :- MethodNameFor(t);
      var jt :- ToJavaType(t);
      var call :- ToArgument(a, "x", thunked);
      Success(Method(name, t, jt, MapList(ListElement(a, thunked), call)))
    case Node(n) =>
      if n !in g.nodes then Failure("Cannot read property 'children' of undefined")
      else if g.nodes[n].children != [] then Success(Method("reduce" + n, t, n, Dispatch(g.nodes[n].children)))
      else
        var attrs :- Utilities.StatefulAttributes(g.nodes[n].attributes);
        var args :- Arguments(attrs, thunked);
        Success(Method("reduce" + n, t, n, Reduce(n, args)))
    case _ => Failure("Not reached")
  }

  /** The other methods a method calls. */
  function Deps(m: Method): (r: seq<string>)
  {
    match m.body
    case MapMaybe(_, c) => [c.callee]
    case MapList(_, c) => [c.callee]
    case Dispatch(cs) => seq(|cs|, i requires 0 <= i < |cs| => "reduce" + cs[i])
    case Reduce(_, args) => seq(|args|, i requires 0 <= i < |args| => args[i].callee)
  }

  /**
   * What the instanceof chain of a dispatch method does with a node whose class is one of
   * `isA`: the first child in declared order that matches is reduced, and a node matching
   * none of them is "Not reached".
   */
  /** `children[j]` is the first of `children` in `isA`. */
  predicate FirstMatch(children: seq<string>, isA: set<string>, j: int)
  {
    0 <= j < |children| && children[j] in isA && forall i :: 0 <= i < j ==> children[i] !in isA
  }

  function Select(children: seq<string>, isA: set<string>): (r: Result<string>)
    ensures r.Failure? <==> forall c <- children :: c !in isA
    ensures r.Success? ==> exists j :: FirstMatch(children, isA, j) && r.value == "reduce" + children[j]
  {
    if children == [] then Failure("Not reached")
    else if children[0] in isA then Success("reduce" + children[0])
    else
      var r := Select(children[1..], isA);
      assert forall c <- children :: c == children[0] || c in children[1..];
      if r.Success? then
        var j :| FirstMatch(children[1..], isA, j) && r.value == "reduce" + children[1..][j];
        assert FirstMatch(children, isA, j + 1);
        r
      else r
  }

  /** A dispatch method calls exactly the method its test selects, which is among the ones it depends on. */
  lemma SelectAmongDeps(g: Graph, t: SemanticType, thunked: bool, isA: set<string>)
    requires Generate(g, t, thunked).Success? && Generate(g, t, thunked).value.body.Dispatch?
    ensures Select(Generate(g, t, thunked).value.body.children, isA).Success? ==>
      Select(Generate(g, t, thunked).value.body.children, isA).value in Deps(Generate(g, t, thunked).value)
  {
    var cs := Generate(g, t, thunked).value.body.children;
    var r := Select(cs, isA);
    if r.Success? {
      var j :| FirstMatch(cs, isA, j) && r.value == "reduce" + cs[j];
      assert Deps(Generate(g, t, thunked).value)[j] == r.value;
    }
  }

  /** A leaf's reducer call: `node` and then one argument per stateful attribute, in attribute order. */
  lemma LeafCall(g: Graph, n: string, thunked: bool)
    requires n in g.nodes && g.nodes[n].children == []
    requires Generate(g, Node(n), thunked).Success?
    ensures Utilities.StatefulAttributes(g.nodes[n].attributes).Success?
    ensures var attrs := Utilities.StatefulAttributes(g.nodes[n].attributes).value;
      var body := Generate(g, Node(n), thunked).value.body;
      body.Reduce? && body.node == n && |body.args| == |attrs|
      && forall i :: 0 <= i < |attrs| ==>
        body.args[i].callee == MethodNameFor(attrs[i].typ).value
        && body.args[i].target == "node." + Utilities.Sanitize(attrs[i].name)
        && (body.args[i].thunk <==> thunked && attrs[i].typ.Node?)
  {
  }

  /*
   * ---------- The table ----------
   */

  /** Every type `direct` can be asked about: the root, every child named in the graph, and every part of an attribute type. */
  ghost function Types(g: Graph): set<SemanticType>
  {
    {Node(Root)}
    + (set n, c | n in g.nodes && c in g.nodes[n].children :: Node(c))
    + (set t, s | t in AttributeTypes(g) && s in Subterms(t) :: s)
  }

  ghost function AttributeTypes(g: Graph): set<SemanticType>
  {
    set n, a | n in g.nodes && a in g.nodes[n].attributes :: a.typ
  }

  /**
   * A graph `direct` can walk from the root without throwing: the root and every child
   * named are nodes of it, every attribute's statefulness can be decided, and under the
   * wrappers of every stateful attribute lies a node of the graph.
   */
  ghost predicate Directable(g: Graph)
  {
    && Root in g.nodes
    && (forall n <- g.nodes, c <- g.nodes[n].children :: c in g.nodes)
    && (forall n <- g.nodes :: Utilities.StatefulAttributes(g.nodes[n].attributes).Success?)
    && (forall n <- g.nodes, a <- g.nodes[n].attributes :: Utilities.IsStateful(a.typ) == Success(true) ==> Reaches(g, a.typ))
  }

  /** Under the wrappers of `t` lies a node of `g`. */
  ghost predicate Reaches(g: Graph, t: SemanticType)
  {
    Innermost(t).Node? && Innermost(t).name in g.nodes
  }

  /** Every method name a table over `g` can hold. */
  ghost function Names(g: Graph): set<string>
  {
    set t | t in Types(g) && MethodNameFor(t).Success? :: MethodNameFor(t).value
  }

  lemma NameInNames(g: Graph, t: SemanticType)
    requires t in Types(g) && MethodNameFor(t).Success?
    ensures MethodNameFor(t).value in Names(g)
  {
  }

  lemma ArgumentInTypes(g: Graph, t: SemanticType)
    requires t in Types(g) && (t.Nullable? || t.List?)
    ensures t.argument in Types(g)
  {
    var u :| u in AttributeTypes(g) && t in Subterms(u);
    SubtermsClosed(u, t);
  }

  lemma ChildInTypes(g: Graph, n: string, c: string)
    requires n in g.nodes && c in g.nodes[n].children
    ensures Node(c) in Types(g)
  {
  }

  lemma AttributeInTypes(g: Graph, n: string, a: Attribute)
    requires n in g.nodes && a in g.nodes[n].attributes
    ensures a.typ in Types(g)
  {
    assert a.typ in AttributeTypes(g);
    assert a.typ in Subterms(a.typ);
  }

  lemma {:induction false} SubsetSize(a: set<string>, b: set<string>)
    requires a <= b
    ensures |a| <= |b|
    decreases a
  {
    if a != {} {
      var x :| x in a;
      SubsetSize(a - {x}, b - {x});
    }
  }

  /** Reserving a name of `u` that was not yet taken leaves fewer names to take. */
  lemma Progress(u: set<string>, k0: set<string>, x: string, k: set<string>)
    requires x in u && x !in k0 && k0 + {x} <= k
    ensures |u - k| < |u - k0|
  {
    SubsetSize(u - k, (u - k0) - {x});
  }

  lemma NoRegress(u: set<string>, k0: set<string>, k: set<string>)
    requires k0 <= k
    ensures |u - k| <= |u - k0|
  {
    SubsetSize(u - k, u - k0);
  }

  /** The table holds the method of every node in `cs`. */
  ghost predicate ChildrenDone(cs: seq<string>, keys: set<string>)
  {
    cs == [] || (ChildrenDone(cs[..|cs| - 1], keys) && "reduce" + cs[|cs| - 1] in keys)
  }

  lemma {:induction false} ChildrenDoneGrow(cs: seq<string>, k1: set<string>, k2: set<string>)
    requires ChildrenDone(cs, k1) && k1 <= k2
    ensures ChildrenDone(cs, k2)
  {
    if cs != [] {
      ChildrenDoneGrow(cs[..|cs| - 1], k1, k2);
    }
  }

  lemma {:induction false} ChildrenDoneAt(cs: seq<string>, keys: set<string>, j: int)
    requires ChildrenDone(cs, keys) && 0 <= j < |cs|
    ensures "reduce" + cs[j] in keys
  {
    if j < |cs| - 1 {
      ChildrenDoneAt(cs[..|cs| - 1], keys, j);
    }
  }

  lemma ChildrenDoneStep(cs: seq<string>, i: int, k1: set<string>, k2: set<string>)
    requires 0 <= i < |cs| && ChildrenDone(cs[..i], k1) && k1 <= k2 && "reduce" + cs[i] in k2
    ensures ChildrenDone(cs[..i + 1], k2)
  {
    ChildrenDoneGrow(cs[..i], k1, k2);
    assert cs[..i + 1][..i] == cs[..i];
  }

  /** A dispatch method over reserved children calls only reserved methods. */
  lemma DispatchDeps(m: Method, methods: map<string, Option<Method>>)
    requires m.body.Dispatch? && ChildrenDone(m.body.children, methods.Keys)
    ensures DepsIn(m, methods)
  {
    forall j | 0 <= j < |Deps(m)|
      ensures Deps(m)[j] in methods
    {
      ChildrenDoneAt(m.body.children, methods.Keys, j);
    }
  }

  /** A reduce method whose arguments' callees are reserved calls only reserved methods. */
  lemma ReduceDeps(m: Method, methods: map<string, Option<Method>>)
    requires m.body.Reduce? && forall i :: 0 <= i < |m.body.args| ==> m.body.args[i].callee in methods
    ensures DepsIn(m, methods)
  {
  }

  /** The table holds a method for the type of every attribute in `attrs`. */
  ghost predicate AttributesDone(attrs: seq<Attribute>, keys: set<string>)
  {
    attrs == [] || (AttributesDone(attrs[..|attrs| - 1], keys) && Directed(attrs[|attrs| - 1].typ, keys))
  }

  lemma {:induction false} AttributesDoneGrow(attrs: seq<Attribute>, k1: set<string>, k2: set<string>)
    requires AttributesDone(attrs, k1) && k1 <= k2
    ensures AttributesDone(attrs, k2)
  {
    if attrs != [] {
      AttributesDoneGrow(attrs[..|attrs| - 1], k1, k2);
    }
  }

  lemma {:induction false} AttributesDoneAt(attrs: seq<Attribute>, keys: set<string>, j: int)
    requires AttributesDone(attrs, keys) && 0 <= j < |attrs|
    ensures Directed(attrs[j].typ, keys)
  {
    if j < |attrs| - 1 {
      AttributesDoneAt(attrs[..|attrs| - 1], keys, j);
    }
  }

  lemma AttributesDoneStep(attrs: seq<Attribute>, i: int, k1: set<string>, k2: set<string>)
    requires 0 <= i < |attrs| && AttributesDone(attrs[..i], k1) && k1 <= k2 && Directed(attrs[i].typ, k2)
    ensures AttributesDone(attrs[..i + 1], k2)
  {
    AttributesDoneGrow(attrs[..i], k1, k2);
    assert attrs[..i + 1][..i] == attrs[..i];
  }

  /** Once every attribute type is directed, the leaf's argument list exists and calls only directed methods. */
  lemma ArgumentsDirected(attrs: seq<Attribute>, thunked: bool, keys: set<string>)
    requires AttributesDone(attrs, keys)
    ensures Arguments(attrs, thunked).Success?
    ensures forall i :: 0 <= i < |attrs| ==> Arguments(attrs, thunked).value[i].callee in keys
  {
    forall j | 0 <= j < |attrs|
      ensures Directed(attrs[j].typ, keys)
    {
      AttributesDoneAt(attrs, keys, j);
    }
  }

  /** `m` is what `direct` writes under the name `k`. */
  ghost predicate Fits(g: Graph, thunked: bool, k: string, m: Method)
  {
    m.name == k && Generate(g, m.param, thunked) == Success(m)
  }

  ghost predicate DepsIn(m: Method, methods: map<string, Option<Method>>)
  {
    forall i :: 0 <= i < |Deps(m)| ==> Deps(m)[i] in methods
  }

  /**
   * The memo: names are reserved (`None`) before their method is built; a built method
   * is what `Generate` gives for its type, and every method it calls has been reserved.
   */
  ghost predicate TableInv(g: Graph, thunked: bool, methods: map<string, Option<Method>>)
  {
    forall k {:trigger Entry(methods, k)} :: Entry(methods, k).Some? ==>
      Fits(g, thunked, k, Entry(methods, k).value) && DepsIn(Entry(methods, k).value, methods)
  }

  /** The finished method under `k`, if any. */
  ghost function Entry(methods: map<string, Option<Method>>, k: string): Option<Method>
  {
    if k in methods then methods[k] else None
  }

  lemma ReserveKeeps(g: Graph, thunked: bool, methods: map<string, Option<Method>>, name: string)
    requires TableInv(g, thunked, methods) && name !in methods
    ensures TableInv(g, thunked, methods[name := None])
  {
    var after := methods[name := None];
    forall k | Entry(after, k).Some?
      ensures Fits(g, thunked, k, Entry(after, k).value) && DepsIn(Entry(after, k).value, after)
    {
      assert Entry(after, k) == Entry(methods, k);
    }
  }

  lemma StoreKeeps(g: Graph, thunked: bool, methods: map<string, Option<Method>>, name: string, m: Method)
    requires TableInv(g, thunked, methods) && name in methods && Fits(g, thunked, name, m) && DepsIn(m, methods)
    ensures TableInv(g, thunked, methods[name := Some(m)])
  {
    var after := methods[name := Some(m)];
    assert after.Keys == methods.Keys;
    forall k | Entry(after, k).Some?
      ensures Fits(g, thunked, k, Entry(after, k).value) && DepsIn(Entry(after, k).value, after)
    {
      if k != name {
        assert Entry(after, k) == Entry(methods, k);
      }
    }
  }

  /** Earlier entries survive unchanged: a name is written at most once. */
  ghost predicate Kept(m0: map<string, Option<Method>>, m1: map<string, Option<Method>>)
  {
    forall k <- m0 :: k in m1 && m1[k] == m0[k]
  }

  lemma Chain(m0: map<string, Option<Method>>, m1: map<string, Option<Method>>, m2: map<string, Option<Method>>)
    requires Kept(m0, m1) && Kept(m1, m2)
    ensures Kept(m0, m2) && m0.Keys <= m1.Keys <= m2.Keys
  {
  }

  lemma ChainFilled(m0: map<string, Option<Method>>, m1: map<string, Option<Method>>, m2: map<string, Option<Method>>)
    requires Kept(m1, m2) && Filled(m0, m1) && Filled(m1, m2)
    ensures Filled(m0, m2)
  {
  }

  /** The table holds a method for `t`. */
  ghost predicate Directed(t: SemanticType, names: set<string>)
  {
    MethodNameFor(t).Success? && MethodNameFor(t).value in names
  }

  /** Every entry added since `m0` is a finished method. */
  ghost predicate Filled(m0: map<string, Option<Method>>, m1: map<string, Option<Method>>)
  {
    forall k <- m1 :: k !in m0 ==> m1[k].Some?
  }

  class Table {
    const graph: Graph
    const thunked: bool
    /** `methods`: name to generated method, `None` while it is being generated. */
    var methods: map<string, Option<Method>>

    ghost predicate Valid()
      reads this
    {
      TableInv(graph, thunked, methods)
    }

    constructor(g: Graph, thunked: bool)
      ensures graph == g && this.thunked == thunked && methods == map[]
      ensures Valid()
    {
      graph := g;
      this.thunked := thunked;
      methods := map[];
    }

    /** `methods.set(name, null)`. */
    method Reserve(name: string)
      requires Valid() && name !in methods
      modifies this
      ensures methods == old(methods)[name := None]
      ensures Valid()
    {
      ReserveKeeps(graph, thunked, methods, name);
      methods := methods[name := None];
    }

    /** `methods.set(name, method)` over a reservation, once the callees are reserved. */
    method Store(name: string, m: Method)
      requires Valid() && name in methods && Fits(graph, thunked, name, m) && DepsIn(m, methods)
      modifies this
      ensures methods == old(methods)[name := Some(m)]
      ensures Valid()
    {
      StoreKeeps(graph, thunked, methods, name, m);
      methods := methods[name := Some(m)];
    }

    /** `direct(type)`: makes sure a method for `t` and everything it calls is in the table. */
    method Direct(t: SemanticType) returns (r: Result<()>)
      requires Valid() && t in Types(graph)
      modifies this
      ensures Valid() && Kept(old(methods), methods) && old(methods).Keys <= methods.Keys
      ensures r.Success? ==> MethodNameFor(t).Success? && MethodNameFor(t).value in methods
      ensures r.Success? ==> Filled(old(methods), methods)
      ensures Directable(graph) && Reaches(graph, t) ==> r.Success?
      decreases |Names(graph) - methods.Keys|, 0
    {
      var name :- MethodNameFor(t);
      if name in methods {
        return Success(());
      }
      ghost var m0 := methods;
      NameInNames(graph, t);
      Reserve(name);
      Progress(Names(graph), m0.Keys, name, methods.Keys);
      if t.Nullable? || t.List? {
        ArgumentInTypes(graph, t);
        r := DirectWrapper(t, name);
      } else {
        r := DirectNodeType(t.name, name);
      }
    }

    /** The nullable and list cases of `direct`, after `name` has been reserved. */
    method DirectWrapper(t: SemanticType, name: string) returns (r: Result<()>)
      requires Valid() && (t.Nullable? || t.List?) && t.argument in Types(graph)
      requires MethodNameFor(t) == Success(name) && name in methods && methods[name] == None
      modifies this
      ensures Valid() && Kept(old(methods) - {name}, methods) && name in methods
      ensures r.Success? ==> methods[name].Some? && Filled(old(methods), methods)
      ensures Directable(graph) && Reaches(graph, t) ==> r.Success?
      decreases |Names(graph) - methods.Keys|, 2
    {
      var res := Direct(t.argument);
      if res.Failure? {
        return Failure(res.error);
      }
      var jt :- ToJavaType(t);
      var call := ToArgument(t.argument, "x", thunked).value;
      var m := if t.Nullable?
        then Method(name, t, jt, MapMaybe(MaybeElement(t.argument, thunked), call))
        else Method(name, t, jt, MapList(ListElement(t.argument, thunked), call));
      assert Deps(m) == [call.callee];
      Store(name, m);
      return Success(());
    }

    /** The node case of `direct`, after `name` has been reserved. */
    method DirectNodeType(n: string, name: string) returns (r: Result<()>)
      requires Valid() && name == "reduce" + n && name in methods && methods[name] == None
      modifies this
      ensures Valid() && Kept(old(methods) - {name}, methods) && name in methods
      ensures r.Success? ==> methods[name].Some? && Filled(old(methods), methods)
      ensures Directable(graph) && n in graph.nodes ==> r.Success?
      decreases |Names(graph) - methods.Keys|, 4
    {
      if n !in graph.nodes {
        return Failure("Cannot read property 'children' of undefined");
      }
      var children := graph.nodes[n].children;
      var m: Method;
      if children != [] {
        var res := DirectChildren(n);
        if res.Failure? {
          return Failure(res.error);
        }
        m := Method(name, Node(n), n, Dispatch(children));
        DispatchDeps(m, methods);
      } else {
        var args :- NodeReducer(n);
        m := Method(name, Node(n), n, Reduce(n, args));
        ReduceDeps(m, methods);
      }
      Store(name, m);
      return Success(());
    }

    /** `node.children.forEach(directNode)`. */
    method DirectChildren(n: string) returns (r: Result<()>)
      requires Valid() && n in graph.nodes
      modifies this
      ensures Valid() && Kept(old(methods), methods)
      ensures r.Success? ==> Filled(old(methods), methods)
      ensures r.Success? ==> ChildrenDone(graph.nodes[n].children, methods.Keys)
      ensures Directable(graph) ==> r.Success?
      decreases |Names(graph) - methods.Keys|, 3
    {
      var children := graph.nodes[n].children;
      ghost var m0 := methods;
      var i := 0;
      while i < |children|
        invariant 0 <= i <= |children|
        invariant Valid() && Kept(m0, methods) && Filled(m0, methods)
        invariant ChildrenDone(children[..i], methods.Keys)
      {
        NoRegress(Names(graph), m0.Keys, methods.Keys);
        ghost var before := methods;
        var res := DirectChild(n, i);
        Chain(m0, before, methods);
        if res.Failure? {
          return Failure(res.error);
        }
        ChainFilled(m0, before, methods);
        i := i + 1;
      }
      assert children[..i] == children;
      return Success(());
    }

    /** One step of the children loop: directs the `i`th child, keeping the earlier ones done. */
    method DirectChild(n: string, i: int) returns (r: Result<()>)
      requires Valid() && n in graph.nodes && 0 <= i < |graph.nodes[n].children|
      requires ChildrenDone(graph.nodes[n].children[..i], methods.Keys)
      modifies this
      ensures Valid() && Kept(old(methods), methods)
      ensures r.Success? ==> Filled(old(methods), methods)
      ensures r.Success? ==> ChildrenDone(graph.nodes[n].children[..i + 1], methods.Keys)
      ensures Directable(graph) ==> r.Success?
      decreases |Names(graph) - methods.Keys|, 2
    {
      var children := graph.nodes[n].children;
      ChildInTypes(graph, n, children[i]);
      ghost var before := methods;
      r := DirectNode(children[i]);
      if r.Success? {
        ChildrenDoneStep(children, i, before.Keys, methods.Keys);
      }
    }

    /** `directNode(name)`. */
    method DirectNode(c: string) returns (r: Result<()>)
      requires Valid() && Node(c) in Types(graph)
      modifies this
      ensures Valid() && Kept(old(methods), methods) && old(methods).Keys <= methods.Keys
      ensures r.Success? ==> "reduce" + c in methods && Filled(old(methods), methods)
      ensures Directable(graph) && c in graph.nodes ==> r.Success?
      decreases |Names(graph) - methods.Keys|, 1
    {
      r := Direct(Node(c));
    }

    /** `nodeReducer(type)`: directs every stateful attribute type, then lists the leaf's reducer arguments. */
    method NodeReducer(n: string) returns (r: Result<seq<Call>>)
      requires Valid() && n in graph.nodes
      modifies this
      ensures Valid() && Kept(old(methods), methods)
      ensures r.Success? ==> Filled(old(methods), methods)
      ensures r.Success? ==> Utilities.StatefulAttributes(graph.nodes[n].attributes).Success?
      ensures r.Success? ==> Arguments(Utilities.StatefulAttributes(graph.nodes[n].attributes).value, thunked) == Success(r.value)
      ensures r.Success? ==> forall i :: 0 <= i < |r.value| ==> r.value[i].callee in methods
      ensures Directable(graph) ==> r.Success?
      decreases |Names(graph) - methods.Keys|, 2
    {
      var attrs :- Utilities.StatefulAttributes(graph.nodes[n].attributes);
      ghost var m0 := methods;
      var i := 0;
      while i < |attrs|
        invariant 0 <= i <= |attrs|
        invariant Valid() && Kept(m0, methods) && Filled(m0, methods)
        invariant AttributesDone(attrs[..i], methods.Keys)
      {
        NoRegress(Names(graph), m0.Keys, methods.Keys);
        ghost var before := methods;
        var res := DirectAttribute(n, attrs, i);
        Chain(m0, before, methods);
        if res.Failure? {
          return Failure(res.error);
        }
        ChainFilled(m0, before, methods);
        i := i + 1;
      }
      assert attrs[..i] == attrs;
      ArgumentsDirected(attrs, thunked, methods.Keys);
      return Success(Arguments(attrs, thunked).value);
    }

    /** One step of the attribute loop: directs the type of `attrs[i]`, keeping the earlier ones done. */
    method DirectAttribute(n: string, attrs: seq<Attribute>, i: int) returns (r: Result<()>)
      requires Valid() && n in graph.nodes && 0 <= i < |attrs|
      requires forall a <- attrs :: a in graph.nodes[n].attributes
      requires AttributesDone(attrs[..i], methods.Keys)
      modifies this
      ensures Valid() && Kept(old(methods), methods)
      ensures r.Success? ==> Filled(old(methods), methods)
      ensures r.Success? ==> AttributesDone(attrs[..i + 1], methods.Keys)
      ensures Directable(graph) && Utilities.IsStateful(attrs[i].typ) == Success(true) ==> r.Success?
      decreases |Names(graph) - methods.Keys|, 1
    {
      AttributeInTypes(graph, n, attrs[i]);
      ghost var before := methods;
      r := Direct(attrs[i].typ);
      if r.Success? {
        AttributesDoneStep(attrs, i, before.Keys, methods.Keys);
      }
    }
  }

  /*
   * ---------- Assembly ----------
   */

  function MethodNames(ms: seq<Method>): (r: seq<string>)
    ensures |r| == |ms| && forall i :: 0 <= i < |ms| ==> r[i] == ms[i].name
  {
    seq(|ms|, i requires 0 <= i < |ms| => ms[i].name)
  }

  /**
   * A director class: methods sorted by name, one per name, each the method `direct`
   * writes for its type, the root's among them, and every method called defined.
   */
  ghost predicate Assembled(g: Graph, thunked: bool, ms: seq<Method>)
  {
    Text.Ordered(MethodNames(ms)) && Text.Distinct(MethodNames(ms))
    && "reduce" + Root in MethodNames(ms)
    && (forall i :: 0 <= i < |ms| ==> Fits(g, thunked, ms[i].name, ms[i]))
    && (forall i :: 0 <= i < |ms| ==> forall d <- Deps(ms[i]) :: d in MethodNames(ms))
  }

  /** The finished methods under `names`, in that order. */
  function Listed(methods: map<string, Option<Method>>, names: seq<string>): (r: seq<Method>)
    requires forall k <- names :: k in methods && methods[k].Some?
    ensures |r| == |names| && forall i :: 0 <= i < |names| ==> Some(r[i]) == methods[names[i]]
  {
    if names == [] then [] else [methods[names[0]].value] + Listed(methods, names[1..])
  }

  /** A table grown to completion, listed by its sorted names, is a director class. */
  lemma ListedAssembled(g: Graph, thunked: bool, methods: map<string, Option<Method>>, names: seq<string>)
    requires TableInv(g, thunked, methods) && Filled(map[], methods) && "reduce" + Root in methods
    requires Text.Ordered(names) && Text.Distinct(names) && forall k :: k in names <==> k in methods
    ensures Assembled(g, thunked, Listed(methods, names))
  {
    var ms := Listed(methods, names);
    ListedFits(g, thunked, methods, names);
    assert MethodNames(ms) == names;
    forall i, d | 0 <= i < |ms| && d in Deps(ms[i])
      ensures d in names
    {
      var j :| 0 <= j < |Deps(ms[i])| && Deps(ms[i])[j] == d;
      assert d in methods;
    }
  }

  lemma ListedFits(g: Graph, thunked: bool, methods: map<string, Option<Method>>, names: seq<string>)
    requires TableInv(g, thunked, methods) && forall k <- names :: k in methods && methods[k].Some?
    ensures forall i :: 0 <= i < |names| ==>
      Listed(methods, names)[i].name == names[i] && Fits(g, thunked, names[i], Listed(methods, names)[i])
    ensures forall i :: 0 <= i < |names| ==> DepsIn(Listed(methods, names)[i], methods)
  {
    var ms := Listed(methods, names);
    forall i | 0 <= i < |ms|
      ensures ms[i].name == names[i] && Fits(g, thunked, names[i], ms[i]) && DepsIn(ms[i], methods)
    {
      assert Entry(methods, names[i]) == Some(ms[i]);
    }
  }

  /** Builds one table from `Program` and lists it as `Array.from(methods.keys()).sort()` does. */
  method Build(g: Graph, thunked: bool) returns (r: Result<seq<Method>>)
    ensures r.Success? ==> Assembled(g, thunked, r.value)
    ensures Directable(g) ==> r.Success?
  {
    var table := new Table(g, thunked);
    var res := table.DirectNode(Root);
    if res.Failure? {
      return Failure(res.error);
    }
    var methods := table.methods;
    var keys := Text.KeysOf(methods.Keys);
    var names := Text.Sort(keys);
    Text.SortDistinct(keys);
    var ms := Listed(methods, names);
    ListedAssembled(g, thunked, methods, names);
    return Success(ms);
  }

  /** The plain `Director` and the `ThunkedDirector`, each grown from `Program` in a table of its own. */
  method BuildBoth(g: Graph) returns (plain: Result<seq<Method>>, thunked: Result<seq<Method>>)
    ensures plain.Success? ==> Assembled(g, false, plain.value)
    ensures thunked.Success? ==> Assembled(g, true, thunked.value)
    ensures Directable(g) ==> plain.Success? && thunked.Success?
  {
    plain := Build(g, false);
    thunked := Build(g, true);
  }

  /** A built method calls nothing suspended unless its table is thunked. */
  lemma PlainCallsUnsuspended(g: Graph, t: SemanticType)
    requires Generate(g, t, false).Success?
    ensures var b := Generate(g, t, false).value.body;
      (b.MapMaybe? || b.MapList? ==> !b.call.thunk)
      && (b.Reduce? ==> forall i :: 0 <= i < |b.args| ==> !b.args[i].thunk)
  {
    var b := Generate(g, t, false).value.body;
    if b.Reduce? {
      LeafCall(g, t.name, false);
    }
  }
}
