/**
 * The `Deserializer` generator: one `case` per leaf that rebuilds the node from a JSON
 * object, and the private helpers the wrapped attribute types need, made once per name
 * in the `deserializers` map and written out in the order they were first asked for.
 */
module Deserializers {
  import opened Wrappers
  import opened SemanticTypes
  import Utilities
  import Text
  import Emit

  /*
   * ---------- Helpers ----------
   */

  /** What a helper builds from its JSON element. */
  datatype HelperKind = ListOfMaybeNodes | ListOfNodes | MaybeNode | MaybeValue

  /** A `private static` helper: its name, its Java return type, what it builds, and the element type it casts to or reads. */
  datatype Helper = Helper(name: string, javaType: string, kind: HelperKind, base: string)

  function HelperPrefix(k: HelperKind): string
  {
    match k
    case ListOfMaybeNodes => "deserializeListMaybe"
    case ListOfNodes => "deserializeList"
    case MaybeNode => "deserializeMaybe"
    case MaybeValue => "deserializeMaybe"
  }

  function MakeHelper(t: SemanticType, k: HelperKind, base: string): (r: Result<Helper>)
  {
    var jt :- Utilities.ToJavaType(t, None);
    Success(Helper(HelperPrefix(k) + base, jt, k, base))
  }

  /** The helper `makeDeserializer` defines for a type, or the error it throws. */
  function HelperFor(t: SemanticType): (r: Result<Helper>)
    ensures r.Success? ==> r.value.name == HelperPrefix(r.value.kind) + r.value.base
    ensures r.Success? ==> Utilities.ToJavaType(t, None) == Success(r.value.javaType)
  {
    if t.List? && t.argument.Nullable? && t.argument.argument.Node? then MakeHelper(t, ListOfMaybeNodes, t.argument.argument.name)
    else if t.List? && t.argument.Node? then MakeHelper(t, ListOfNodes, t.argument.name)
    else if t.Nullable? && t.argument.Node? then MakeHelper(t, MaybeNode, t.argument.name)
    else if t.Nullable? && t.argument.Value? then
      var base :- Utilities.ToJavaType(t.argument, None);
      MakeHelper(t, MaybeValue, base)
    else Failure("Unhandled type")
  }

  predicate KnownValue(t: SemanticType)
  {
    t.Value? && (t.tag == "string" || t.tag == "boolean" || t.tag == "double")
  }

  /** The wrapped node shapes a helper is made for: all but a bare node and a nullable list. */
  predicate HelperShape(t: SemanticType)
  {
    Shape(t) && !t.Node? && !(t.Nullable? && t.argument.List?)
  }

  /**
   * A helper exists for a list of nodes, a list of nullable nodes, a nullable node and a
   * nullable known value, and for nothing else (a nullable list of nodes is not handled);
   * a node helper casts to the node under the wrappers.
   */
  lemma HelperForDefined(t: SemanticType)
    ensures HelperFor(t).Success? <==> HelperShape(t) || (t.Nullable? && KnownValue(t.argument))
    ensures HelperShape(t) ==> HelperFor(t).value.kind != MaybeValue && HelperFor(t).value.base == Innermost(t).name
  {
    if t.List? && t.argument.Nullable? && t.argument.argument.Node? {
      assert Innermost(t) == Innermost(t.argument) == Innermost(t.argument.argument);
      assert Utilities.ToJavaType(t.argument, None).Success?;
    } else if t.Nullable? && t.argument.Value? {
      assert Utilities.ToJavaType(t.argument, None).Success? <==> KnownValue(t.argument);
    } else if (t.List? || t.Nullable?) && t.argument.Node? {
      assert Innermost(t) == t.argument;
      assert Utilities.ToJavaType(t, None).Success?;
    }
  }

  /** A node name that cannot be read as another helper's: no leading `Maybe`, no Java value type. */
  predicate ClashFree(t: SemanticType)
  {
    Innermost(t).Node? ==> (!Text.HasPrefix(Innermost(t).name, "Maybe")
      && Innermost(t).name != "String" && Innermost(t).name != "boolean" && Innermost(t).name != "double")
  }

  lemma SameStart(p: string, x: string, q: string, y: string)
    requires p + x == q + y && |p| <= |q|
    ensures q[..|p|] == p && x == q[|p|..] + y
  {
    assert (p + x)[..|p|] == p;
    assert (q + y)[..|p|] == q[..|p|];
    assert x == (p + x)[|p|..];
    assert (q + y)[|p|..] == q[|p|..] + y;
  }

  lemma PrefixesApart(k1: HelperKind, k2: HelperKind, x: string, y: string)
    requires HelperPrefix(k1) + x == HelperPrefix(k2) + y
    requires !Text.HasPrefix(y, "Maybe") || k2 == MaybeNode || k2 == MaybeValue
    requires !Text.HasPrefix(x, "Maybe") || k1 == MaybeNode || k1 == MaybeValue
    ensures HelperPrefix(k1) == HelperPrefix(k2) && x == y
  {
    var p1, p2 := HelperPrefix(k1), HelperPrefix(k2);
    if p1 == p2 {
      SameStart(p1, x, p2, y);
      assert p2[|p1|..] == [];
    } else if k1 == ListOfNodes && k2 == ListOfMaybeNodes {
      SameStart(p1, x, p2, y);
      assert false;
    } else if k1 == ListOfMaybeNodes && k2 == ListOfNodes {
      SameStart(p2, y, p1, x);
      assert false;
    } else {
      SameEleventh(p1, x, p2, y);
      assert false;
    }
  }

  lemma SameEleventh(p: string, x: string, q: string, y: string)
    requires p + x == q + y && |p| > 11 && |q| > 11
    ensures p[11] == q[11]
  {
    assert (p + x)[11] == p[11] && (q + y)[11] == q[11];
  }

  /**
   * The memo is sound: two types whose node names cannot be confused get helpers with
   * different names, so `deserializers.has(name)` only ever finds the type's own helper.
   */
  lemma HelperNamesDistinct(t1: SemanticType, t2: SemanticType)
    requires HelperFor(t1).Success? && HelperFor(t2).Success?
    requires ClashFree(t1) && ClashFree(t2)
    requires HelperFor(t1).value.name == HelperFor(t2).value.name
    ensures t1 == t2
  {
    var h1, h2 := HelperFor(t1).value, HelperFor(t2).value;
    HelperForDefined(t1);
    HelperForDefined(t2);
    PrefixesApart(h1.kind, h2.kind, h1.base, h2.base);
    if h1.kind == MaybeValue || h2.kind == MaybeValue {
      assert h1.kind == MaybeValue && h2.kind == MaybeValue;
    }
  }

  /** As written the names can meet: a list of nodes `MaybeFoo` and a list of nullable `Foo` share a helper name. */
  lemma HelperNameCollision()
    ensures HelperFor(List(Node("MaybeFoo"))).value.name == HelperFor(List(Nullable(Node("Foo")))).value.name
    ensures HelperFor(List(Node("MaybeFoo"))).value != HelperFor(List(Nullable(Node("Foo")))).value
  {
    assert "deserializeList" + "MaybeFoo" == "deserializeListMaybe" + "Foo";
  }

  /*
   * ---------- Attribute expressions ----------
   */

  /** The constructor argument that reads one attribute out of `jsonObject`, keyed by the attribute name. */
  datatype Expr =
    | CallHelper(helper: string, key: string)
    | GetAsString(key: string)
    | GetAsBoolean(key: string)
    | GetAsDouble(key: string)
    | CastNode(node: string, key: string)
    | DeserializeEnum(enumName: string, key: string)

  /** `deserializer(attr)`, with the name of the helper it would call. */
  function ExprFor(a: Attribute): (r: Result<Expr>)
    ensures r.Success? ==> r.value.key == a.name
  {
    match a.typ
    case List(_) =>
      var h :- HelperFor(a.typ);
      Success(CallHelper(h.name, a.name))
    case Nullable(_) =>
      var h :- HelperFor(a.typ);
      Success(CallHelper(h.name, a.name))
    case Value(tag) =>
      if tag == "string" then Success(GetAsString(a.name))
      else if tag == "boolean" then Success(GetAsBoolean(a.name))
      else if tag == "double" then Success(GetAsDouble(a.name))
      else Failure("unreachable")
    case Node(n) => Success(CastNode(n, a.name))
    case Enum(n) => Success(DeserializeEnum(n, a.name))
    case _ => Failure("Unhandled type")
  }

  /**
   * An attribute can be read back exactly when it is a node, a node in a shape a helper
   * is made for, an enum, a known value or a nullable known value; every node it
   * rebuilds is cast to the node type under the wrappers.
   */
  lemma ExprForDefined(a: Attribute)
    ensures ExprFor(a).Success? <==> (a.typ.Node? || HelperShape(a.typ)
      || a.typ.Enum? || KnownValue(a.typ) || (a.typ.Nullable? && KnownValue(a.typ.argument)))
    ensures a.typ.Node? ==> ExprFor(a) == Success(CastNode(Innermost(a.typ).name, a.name))
    ensures HelperShape(a.typ) ==> (ExprFor(a) == Success(CallHelper(HelperFor(a.typ).value.name, a.name))
      && HelperFor(a.typ).value.base == Innermost(a.typ).name)
  {
    HelperForDefined(a.typ);
  }

  /** The attribute expressions of a node, in attribute order; the first that cannot be made fails. */
  function ExprsOf(attrs: seq<Attribute>): (r: Result<seq<Expr>>)
    ensures r.Success? <==> forall i :: 0 <= i < |attrs| ==> ExprFor(attrs[i]).Success?
    ensures r.Success? ==> |r.value| == |attrs| && forall i :: 0 <= i < |attrs| ==> ExprFor(attrs[i]) == Success(r.value[i])
  {
    if attrs == [] then Success([])
    else
      var last := attrs[|attrs| - 1];
      match ExprsOf(attrs[..|attrs| - 1])
      case Failure(e) => Failure(e)
      case Success(xs) =>
        match ExprFor(last)
        case Failure(e) => Failure(e)
        case Success(x) =>
          Success(xs + [x])
  }

  /** `case "<node>": return new <node>(args…);`. */
  datatype Case = Case(node: string, args: seq<Expr>)

  /** The case of one leaf. */
  function CaseFor(n: string, d: NodeDecl): (r: Result<Case>)
    ensures r.Success? <==> ExprsOf(d.attributes).Success?
    ensures r.Success? ==> r.value.node == n && |r.value.args| == |d.attributes|
  {
    var args :- ExprsOf(d.attributes);
    Success(Case(n, args))
  }

  /*
   * ---------- The helper table and what a run does to it ----------
   */

  /** The contents of `deserializers`: helpers by name, and the order the names were first set. */
  datatype Store = Store(helpers: map<string, Helper>, order: seq<string>)

  ghost predicate StoreValid(s: Store)
  {
    Text.Distinct(s.order) && (forall k :: k in s.helpers <==> k in s.order)
    && forall k <- s.helpers :: s.helpers[k].name == k
  }

  /** `makeDeserializer(t)` on the table: a new name is set with its helper, a known one is left as it is. */
  function Ask(s: Store, t: SemanticType): (r: Store)
    ensures s.helpers.Keys <= r.helpers.Keys
    ensures HelperFor(t).Success? ==> HelperFor(t).value.name in r.helpers
  {
    match HelperFor(t)
    case Failure(_) => s
    case Success(h) =>
      if h.name in s.helpers then s
      else Store(s.helpers[h.name := h], s.order + [h.name])
  }

  lemma AskValid(s: Store, t: SemanticType)
    requires StoreValid(s)
    ensures StoreValid(Ask(s, t))
  {
    if HelperFor(t).Success? && HelperFor(t).value.name !in s.helpers {
      Text.DistinctAppend(s.order, HelperFor(t).value.name);
    }
  }

  /** `deserializer(attr)` only consults the table for a list or a nullable. */
  function AskFor(s: Store, a: Attribute): (r: Store)
  {
    if a.typ.List? || a.typ.Nullable? then Ask(s, a.typ) else s
  }

  /** What a run yields, and the table it leaves. */
  datatype Run<T> = Run(result: Result<T>, store: Store)

  /** `attributes.map(deserializer)` from the table `s`: it stops at the first attribute that throws. */
  function Exprs(s: Store, attrs: seq<Attribute>): (r: Run<seq<Expr>>)
  {
    if attrs == [] then Run(Success([]), s)
    else
      var before := Exprs(s, attrs[..|attrs| - 1]);
      if before.result.Failure? then before
      else
        var last := attrs[|attrs| - 1];
        var after := AskFor(before.store, last);
        match ExprFor(last)
        case Failure(e) => Run(Failure(e), after)
        case Success(x) => Run(Success(before.result.value + [x]), after)
  }

  /** The leaf loop from the table `s`: it stops at the first leaf that throws. */
  function Cases(s: Store, g: Graph, names: seq<string>): (r: Run<seq<Case>>)
    requires forall n <- names :: n in g.nodes
  {
    if names == [] then Run(Success([]), s)
    else
      var before := Cases(s, g, names[..|names| - 1]);
      var n := names[|names| - 1];
      if before.result.Failure? || g.nodes[n].children != [] then before
      else
        var args := Exprs(before.store, g.nodes[n].attributes);
        match args.result
        case Failure(e) => Run(Failure(e), args.store)
        case Success(xs) => Run(Success(before.result.value + [Case(n, xs)]), args.store)
  }

  /** The helper names an expression list calls. */
  function Called(xs: seq<Expr>): (r: set<string>)
  {
    set i | 0 <= i < |xs| && xs[i].CallHelper? :: xs[i].helper
  }

  /** The helper names a case list calls. */
  function CalledBy(cs: seq<Case>): (r: set<string>)
  {
    if cs == [] then {} else CalledBy(cs[..|cs| - 1]) + Called(cs[|cs| - 1].args)
  }

  lemma CalledSnoc(xs: seq<Expr>, x: Expr)
    ensures Called(xs + [x]) == Called(xs) + (if x.CallHelper? then {x.helper} else {})
  {
    var ys := xs + [x];
    assert forall i :: 0 <= i < |xs| ==> ys[i] == xs[i];
    assert ys[|xs|] == x;
  }

  /** The expressions `attributes.map(deserializer)` yields do not depend on the table. */
  lemma {:induction false} ExprsResult(s: Store, attrs: seq<Attribute>)
    ensures Exprs(s, attrs).result == ExprsOf(attrs)
  {
    if attrs != [] {
      ExprsResult(s, attrs[..|attrs| - 1]);
    }
  }

  /** The helpers a successful `deserializer(attr)` adds to the table: the one it calls, if any. */
  lemma AskForKeys(s: Store, a: Attribute)
    requires ExprFor(a).Success?
    ensures AskFor(s, a).helpers.Keys
      == s.helpers.Keys + (if ExprFor(a).value.CallHelper? then {ExprFor(a).value.helper} else {})
  {
  }

  lemma AskForValid(s: Store, a: Attribute)
    requires StoreValid(s)
    ensures StoreValid(AskFor(s, a)) && s.helpers.Keys <= AskFor(s, a).helpers.Keys
  {
    AskValid(s, a.typ);
  }

  /** One more attribute: nothing after a failure, otherwise its table update and its expression. */
  lemma ExprsLast(s: Store, attrs: seq<Attribute>)
    requires attrs != []
    ensures var before := Exprs(s, attrs[..|attrs| - 1]);
      before.result.Success? ==> Exprs(s, attrs).store == AskFor(before.store, attrs[|attrs| - 1])
    ensures var before := Exprs(s, attrs[..|attrs| - 1]);
      before.result.Success? && ExprFor(attrs[|attrs| - 1]).Success? ==>
        Exprs(s, attrs).result == Success(before.result.value + [ExprFor(attrs[|attrs| - 1]).value])
    ensures var before := Exprs(s, attrs[..|attrs| - 1]);
      before.result.Failure? ==> Exprs(s, attrs) == before
  {
  }

  /** The table stays valid and keeps what it had; on success it gains exactly the helpers called. */
  lemma {:induction false} ExprsStore(s: Store, attrs: seq<Attribute>)
    requires StoreValid(s)
    ensures StoreValid(Exprs(s, attrs).store)
    ensures s.helpers.Keys <= Exprs(s, attrs).store.helpers.Keys
    ensures Exprs(s, attrs).result.Success? ==>
      Exprs(s, attrs).store.helpers.Keys == s.helpers.Keys + Called(Exprs(s, attrs).result.value)
  {
    if attrs != [] {
      var init := attrs[..|attrs| - 1];
      var last := attrs[|attrs| - 1];
      ExprsStore(s, init);
      ExprsLast(s, attrs);
      var before := Exprs(s, init);
      if before.result.Success? {
        AskForValid(before.store, last);
        if ExprFor(last).Success? {
          var x := ExprFor(last).value;
          CalledSnoc(before.result.value, x);
          AskForKeys(before.store, last);
        }
      }
    }
  }

  /** The leaf loop yields exactly the cases of the per-leaf walk, whatever the table holds. */
  lemma {:induction false} CasesResult(s: Store, g: Graph, names: seq<string>)
    requires forall n <- names :: n in g.nodes
    ensures Cases(s, g, names).result == Emit.Emitted(g, names, CaseFor)
  {
    if names != [] {
      var init := names[..|names| - 1];
      var n := names[|names| - 1];
      CasesResult(s, g, init);
      var before := Cases(s, g, init);
      if before.result.Success? && g.nodes[n].children == [] {
        ExprsResult(before.store, g.nodes[n].attributes);
      }
    }
  }

  /** One more name: nothing after a failure or for a node with children, otherwise the leaf's run. */
  lemma CasesLast(s: Store, g: Graph, names: seq<string>)
    requires names != [] && forall n <- names :: n in g.nodes
    ensures var before := Cases(s, g, names[..|names| - 1]); var n := names[|names| - 1];
      before.result.Failure? || g.nodes[n].children != [] ==> Cases(s, g, names) == before
    ensures var before := Cases(s, g, names[..|names| - 1]); var n := names[|names| - 1];
      var args := Exprs(before.store, g.nodes[n].attributes);
      before.result.Success? && g.nodes[n].children == [] ==> (Cases(s, g, names).store == args.store
        && (args.result.Success? ==> Cases(s, g, names).result == Success(before.result.value + [Case(n, args.result.value)])))
  {
  }

  lemma CalledBySnoc(cs: seq<Case>, c: Case)
    ensures CalledBy(cs + [c]) == CalledBy(cs) + Called(c.args)
  {
    assert (cs + [c])[..|cs|] == cs;
  }

  /** On success the leaf loop leaves a valid table that gained exactly the helpers its cases call. */
  lemma {:induction false} CasesStore(s: Store, g: Graph, names: seq<string>)
    requires StoreValid(s)
    requires forall n <- names :: n in g.nodes
    ensures StoreValid(Cases(s, g, names).store)
    ensures s.helpers.Keys <= Cases(s, g, names).store.helpers.Keys
    ensures Cases(s, g, names).result.Success? ==>
      Cases(s, g, names).store.helpers.Keys == s.helpers.Keys + CalledBy(Cases(s, g, names).result.value)
  {
    if names != [] {
      var init := names[..|names| - 1];
      var n := names[|names| - 1];
      CasesStore(s, g, init);
      CasesLast(s, g, names);
      var before := Cases(s, g, init);
      if before.result.Success? && g.nodes[n].children == [] {
        ExprsStore(before.store, g.nodes[n].attributes);
        var args := Exprs(before.store, g.nodes[n].attributes);
        if args.result.Success? {
          CalledBySnoc(before.result.value, Case(n, args.result.value));
        }
      }
    }
  }

  /** Once an expression list has failed, further attributes change neither the result nor the table. */
  lemma {:induction false} ExprsFailureStays(s: Store, attrs: seq<Attribute>, k: int)
    requires 0 <= k <= |attrs| && Exprs(s, attrs[..k]).result.Failure?
    ensures Exprs(s, attrs) == Exprs(s, attrs[..k])
    decreases |attrs| - k
  {
    if k < |attrs| {
      assert attrs[..k + 1][..k] == attrs[..k];
      ExprsFailureStays(s, attrs, k + 1);
    } else {
      assert attrs[..k] == attrs;
    }
  }

  lemma ExprsStep(s: Store, attrs: seq<Attribute>, i: int)
    requires 0 <= i < |attrs| && Exprs(s, attrs[..i]).result.Success?
    ensures Exprs(s, attrs[..i + 1]).store == AskFor(Exprs(s, attrs[..i]).store, attrs[i])
    ensures ExprFor(attrs[i]).Failure? ==> Exprs(s, attrs[..i + 1]).result == Failure(ExprFor(attrs[i]).error)
    ensures ExprFor(attrs[i]).Success? ==>
      Exprs(s, attrs[..i + 1]).result == Success(Exprs(s, attrs[..i]).result.value + [ExprFor(attrs[i]).value])
  {
    assert attrs[..i + 1][..i] == attrs[..i] && attrs[..i + 1][i] == attrs[i];
  }

  lemma {:induction false} CasesFailureStays(s: Store, g: Graph, names: seq<string>, k: int)
    requires forall n <- names :: n in g.nodes
    requires 0 <= k <= |names| && Cases(s, g, names[..k]).result.Failure?
    ensures Cases(s, g, names) == Cases(s, g, names[..k])
    decreases |names| - k
  {
    if k < |names| {
      assert names[..k + 1][..k] == names[..k];
      CasesFailureStays(s, g, names, k + 1);
    } else {
      assert names[..k] == names;
    }
  }

  lemma CasesStep(s: Store, g: Graph, names: seq<string>, i: int)
    requires forall n <- names :: n in g.nodes
    requires 0 <= i < |names| && Cases(s, g, names[..i]).result.Success?
    ensures g.nodes[names[i]].children != [] ==> Cases(s, g, names[..i + 1]) == Cases(s, g, names[..i])
    ensures g.nodes[names[i]].children == [] ==>
      var args := Exprs(Cases(s, g, names[..i]).store, g.nodes[names[i]].attributes);
      Cases(s, g, names[..i + 1]).store == args.store
      && (args.result.Failure? ==> Cases(s, g, names[..i + 1]).result == Failure(args.result.error))
      && (args.result.Success? ==>
        Cases(s, g, names[..i + 1]).result == Success(Cases(s, g, names[..i]).result.value + [Case(names[i], args.result.value)]))
  {
    assert names[..i + 1][..i] == names[..i] && names[..i + 1][i] == names[i];
  }

  /** The helpers in the order their names were first set. */
  function InOrder(s: Store): (r: seq<Helper>)
    requires forall k <- s.order :: k in s.helpers
    ensures |r| == |s.order| && forall i :: 0 <= i < |s.order| ==> r[i] == s.helpers[s.order[i]]
    decreases |s.order|
  {
    if s.order == [] then []
    else InOrder(Store(s.helpers, s.order[..|s.order| - 1])) + [s.helpers[s.order[|s.order| - 1]]]
  }

  /*
   * ---------- The generator ----------
   */

  /** The `deserializers` map of the generator. */
  class Table {
    var helpers: map<string, Helper>
    var order: seq<string>

    function Contents(): Store
      reads this
    {
      Store(helpers, order)
    }

    ghost predicate Valid()
      reads this
    {
      StoreValid(Contents())
    }

    constructor()
      ensures Valid() && Contents() == Store(map[], [])
    {
      helpers := map[];
      order := [];
    }

    /** `makeDeserializer`: the helper's name, setting the helper the first time the name is asked for. */
    method MakeDeserializer(t: SemanticType) returns (r: Result<string>)
      requires Valid()
      modifies this
      ensures Valid() && Contents() == Ask(old(Contents()), t)
      ensures r.Success? <==> HelperFor(t).Success?
      ensures r.Success? ==> r.value == HelperFor(t).value.name && r.value in helpers
      ensures r.Failure? ==> r.error == HelperFor(t).error
    {
      AskValid(Contents(), t);
      var h := HelperFor(t);
      if h.Failure? {
        return Failure(h.error);
      }
      var name := h.value.name;
      if name !in helpers {
        helpers := helpers[name := h.value];
        order := order + [name];
      }
      return Success(name);
    }

    /** `deserializer(attr)`. */
    method Deserializer(a: Attribute) returns (r: Result<Expr>)
      requires Valid()
      modifies this
      ensures Valid() && Contents() == AskFor(old(Contents()), a)
      ensures r == ExprFor(a)
    {
      match a.typ
      case List(_) =>
        var name :- MakeDeserializer(a.typ);
        return Success(CallHelper(name, a.name));
      case Nullable(_) =>
        var name :- MakeDeserializer(a.typ);
        return Success(CallHelper(name, a.name));
      case Value(tag) =>
        if tag == "string" {
          return Success(GetAsString(a.name));
        } else if tag == "boolean" {
          return Success(GetAsBoolean(a.name));
        } else if tag == "double" {
          return Success(GetAsDouble(a.name));
        }
        return Failure("unreachable");
      case Node(n) =>
        return Success(CastNode(n, a.name));
      case Enum(n) =>
        return Success(DeserializeEnum(n, a.name));
      case _ =>
        return Failure("Unhandled type");
    }

    /** `type.attributes.map(deserializer)`. */
    method Attributes(attrs: seq<Attribute>) returns (r: Result<seq<Expr>>)
      requires Valid()
      modifies this
      ensures Valid() && Run(r, Contents()) == Exprs(old(Contents()), attrs)
    {
      ghost var s0 := Contents();
      var xs: seq<Expr> := [];
      var i := 0;
      while i < |attrs|
        invariant 0 <= i <= |attrs| && Valid()
        invariant Exprs(s0, attrs[..i]) == Run(Success(xs), Contents())
      {
        ExprsStep(s0, attrs, i);
        var x := Deserializer(attrs[i]);
        if x.Failure? {
          ExprsFailureStays(s0, attrs, i + 1);
          return Failure(x.error);
        }
        xs := xs + [x.value];
        i := i + 1;
      }
      assert attrs[..i] == attrs;
      return Success(xs);
    }

    /** One more name of the leaf loop: a leaf adds its case, or ends the loop with its error. */
    method LeafStep(ghost s0: Store, g: Graph, names: seq<string>, i: int, cases: seq<Case>) returns (r: Result<seq<Case>>)
      requires Valid() && forall n <- names :: n in g.nodes
      requires 0 <= i < |names| && Cases(s0, g, names[..i]) == Run(Success(cases), Contents())
      modifies this
      ensures Valid() && Cases(s0, g, names[..i + 1]) == Run(r, Contents())
    {
      CasesStep(s0, g, names, i);
      var n := names[i];
      if g.nodes[n].children != [] {
        return Success(cases);
      }
      var xs := Attributes(g.nodes[n].attributes);
      if xs.Failure? {
        return Failure(xs.error);
      }
      return Success(cases + [Case(n, xs.value)]);
    }

    /** The leaf loop over the sorted node names. */
    method Leaves(g: Graph) returns (r: Result<seq<Case>>)
      requires Valid() && WellFormed(g)
      modifies this
      ensures Valid() && Run(r, Contents()) == Cases(old(Contents()), g, Text.Sort(g.order))
    {
      ghost var s0 := Contents();
      var names := Text.Sort(g.order);
      var cases: seq<Case> := [];
      var i := 0;
      while i < |names|
        invariant 0 <= i <= |names| && Valid()
        invariant Cases(s0, g, names[..i]) == Run(Success(cases), Contents())
      {
        var step := LeafStep(s0, g, names, i, cases);
        if step.Failure? {
          CasesFailureStays(s0, g, names, i + 1);
          return step;
        }
        cases := step.value;
        i := i + 1;
      }
      assert names[..i] == names;
      return Success(cases);
    }
  }

  /** `Deserializer.java`: the helpers in the order they were first set, then the cases. */
  datatype DeserializerFile = DeserializerFile(helpers: seq<Helper>, cases: seq<Case>)

  /** The file's helpers are named apart, and are exactly the ones its cases call. */
  ghost predicate Complete(f: DeserializerFile)
  {
    (forall i, j :: 0 <= i < j < |f.helpers| ==> f.helpers[i].name != f.helpers[j].name)
    && forall name :: name in CalledBy(f.cases) <==> exists h <- f.helpers :: h.name == name
  }

  /** Listing a valid table names each helper by its key, in the order the keys were set. */
  lemma InOrderNames(s: Store)
    requires StoreValid(s)
    ensures forall i :: 0 <= i < |InOrder(s)| ==> InOrder(s)[i].name == s.order[i]
  {
  }

  /** Listing a valid table that holds exactly the helpers the cases call completes the file. */
  lemma InOrderCovers(s: Store, cases: seq<Case>)
    requires StoreValid(s) && s.helpers.Keys == CalledBy(cases)
    ensures Complete(DeserializerFile(InOrder(s), cases))
  {
    var hs := InOrder(s);
    InOrderNames(s);
    forall name | name in s.helpers
      ensures exists h <- hs :: h.name == name
    {
      var k :| 0 <= k < |s.order| && s.order[k] == name;
      assert hs[k] in hs;
    }
  }

  /**
   * The generated file holds one case per leaf as the per-leaf walk makes them, and
   * exactly the helpers those cases call, each once, each under its own name.
   */
  method Generate(g: Graph) returns (r: Result<DeserializerFile>)
    requires WellFormed(g)
    ensures r.Success? <==> Emit.Emitted(g, Text.Sort(g.order), CaseFor).Success?
    ensures r.Success? ==> r.value.cases == Emit.Emitted(g, Text.Sort(g.order), CaseFor).value
    ensures r.Success? ==> Complete(r.value)
  {
    var table := new Table();
    CasesResult(table.Contents(), g, Text.Sort(g.order));
    CasesStore(table.Contents(), g, Text.Sort(g.order));
    var cases := table.Leaves(g);
    if cases.Failure? {
      return Failure(cases.error);
    }
    InOrderCovers(table.Contents(), cases.value);
    r := Success(DeserializerFile(InOrder(table.Contents()), cases.value));
  }
}
