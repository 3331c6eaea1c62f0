/**
 * The generator of the AST data classes. Each node of the interface graph becomes either a
 * Java interface (no attributes of its own and at least one child) or a class: abstract when
 * it has children, with a field per own attribute, a constructor over every attribute, and
 * `equals` and `hashCode` over every attribute. Each descriptor here stands for the Java text
 * written for one node.
 */
module AstClasses {
  import opened Wrappers
  import opened SemanticTypes
  import Utilities
  import Text

  /** `isJavaInterfaceType`: a node with no attributes and at least one child. */
  predicate IsInterface(d: NodeDecl)
  {
    |d.attributes| == 0 && |d.children| != 0
  }

  /** `isJavaInterfaceType(name)`: looking up a name that is not a node throws. */
  function IsJavaInterface(g: Graph, name: string): (r: Result<bool>)
    ensures r.Success? <==> name in g.nodes
    ensures r.Success? ==> (r.value <==> IsInterface(g.nodes[name]))
  {
    if name in g.nodes then Success(IsInterface(g.nodes[name])) else Failure("TypeError")
  }

  /*
   * ---------- Java types ----------
   */

  /** `toJavaType` of this generator: an enum is written as its own name. */
  function JavaType(t: SemanticType): (r: Result<string>)
  {
    match t
    case Nullable(a) =>
      (match JavaType(a)
       case Success(s) => Success("Maybe<" + s + ">")
       case Failure(e) => Failure(e))
    case List(a) =>
      (match JavaType(a)
       case Success(s) => Success("ImmutableList<" + s + ">")
       case Failure(e) => Failure(e))
    case Value(tag) =>
      if tag == "string" then Success("String")
      else if tag == "boolean" then Success("boolean")
      else if tag == "double" then Success("double")
      else Failure("Unhandled value type " + tag)
    case Node(n) => Success(n)
    case Enum(n) => Success(n)
    case _ => Failure("Not reached")
  }

  /** The type with every enum read as a node of the same name. */
  function EnumsAsNodes(t: SemanticType): (r: SemanticType)
    ensures UnionFree(t) ==> UnionFree(r)
  {
    match t
    case Nullable(a) => Nullable(EnumsAsNodes(a))
    case List(a) => List(EnumsAsNodes(a))
    case Enum(n) => Node(n)
    case _ => t
  }

  /**
   * The shared `toJavaType` with enums written as nodes: the two renderings differ only in
   * accepting enums, and so read back the same way.
   */
  lemma {:induction false} JavaTypeEnumsAsNodes(t: SemanticType)
    ensures JavaType(t) == Utilities.ToJavaType(EnumsAsNodes(t), None)
  {
    match t
    case Nullable(a) => JavaTypeEnumsAsNodes(a);
    case List(a) => JavaTypeEnumsAsNodes(a);
    case _ =>
  }

  /** After union elimination only an unknown value tag makes the rendering fail. */
  lemma {:induction false} JavaTypeDefined(t: SemanticType)
    requires UnionFree(t)
    ensures JavaType(t).Failure? <==> Innermost(t).Value? && Innermost(t).tag !in {"string", "boolean", "double"}
  {
    match t
    case Nullable(a) => JavaTypeDefined(a);
    case List(a) => JavaTypeDefined(a);
    case _ =>
  }

  /*
   * ---------- Attributes after the in-place rewrite ----------
   */

  /** An attribute after `a.name = sanitize(a.name); a.type = toJavaType(a.type)`. */
  datatype JavaAttr = JavaAttr(name: string, javaType: string, inherited: bool)

  /** Every attribute rewritten, in order; the first type that cannot be rendered throws. */
  function JavaAttrs(attrs: seq<Attribute>): (r: Result<seq<JavaAttr>>)
    ensures r.Success? <==> forall a <- attrs :: JavaType(a.typ).Success?
    ensures r.Success? ==> |r.value| == |attrs| && forall i :: 0 <= i < |attrs| ==>
      r.value[i] == JavaAttr(Utilities.Sanitize(attrs[i].name), JavaType(attrs[i].typ).value, attrs[i].inherited)
  {
    if attrs == [] then Success([])
    else
      match JavaType(attrs[0].typ)
      case Failure(e) => Failure(e)
      case Success(jt) =>
        match JavaAttrs(attrs[1..])
        case Failure(e) => Failure(e)
        case Success(rest) =>
          assert forall a <- attrs :: a == attrs[0] || a in attrs[1..];
          Success([JavaAttr(Utilities.Sanitize(attrs[0].name), jt, attrs[0].inherited)] + rest)
  }

  function Names(attrs: seq<JavaAttr>): (r: seq<string>)
    ensures |r| == |attrs| && forall i :: 0 <= i < |attrs| ==> r[i] == attrs[i].name
  {
    if attrs == [] then [] else [attrs[0].name] + Names(attrs[1..])
  }

  /** The attributes with the given `inherited` flag, in order. */
  function WithFlag(attrs: seq<JavaAttr>, inherited: bool): (r: seq<JavaAttr>)
    ensures forall a :: a in r <==> a in attrs && a.inherited == inherited
  {
    if attrs == [] then []
    else (if attrs[0].inherited == inherited then [attrs[0]] else []) + WithFlag(attrs[1..], inherited)
  }

  /** Splitting by the flag loses and duplicates nothing. */
  lemma {:induction false} SplitNames(attrs: seq<JavaAttr>)
    ensures multiset(Names(WithFlag(attrs, true))) + multiset(Names(WithFlag(attrs, false))) == multiset(Names(attrs))
  {
    if attrs != [] {
      SplitNames(attrs[1..]);
      SplitStep(attrs, true);
      SplitStep(attrs, false);
    }
  }

  /** The first attribute goes to the side its flag names. */
  lemma {:induction false} SplitStep(attrs: seq<JavaAttr>, flag: bool)
    requires attrs != []
    ensures multiset(Names(attrs)) == multiset{attrs[0].name} + multiset(Names(attrs[1..]))
    ensures multiset(Names(WithFlag(attrs, flag)))
      == (if attrs[0].inherited == flag then multiset{attrs[0].name} else multiset{}) + multiset(Names(WithFlag(attrs[1..], flag)))
  {
    var a := attrs[0];
    var w := WithFlag(attrs[1..], flag);
    assert Names(attrs) == [a.name] + Names(attrs[1..]);
    if a.inherited == flag {
      assert WithFlag(attrs, flag) == [a] + w;
      NamesCons(a, w);
    } else {
      assert WithFlag(attrs, flag) == w;
    }
  }

  /** `Names` of a list with a known head. */
  lemma NamesCons(a: JavaAttr, rest: seq<JavaAttr>)
    ensures Names([a] + rest) == [a.name] + Names(rest)
  {
    assert ([a] + rest)[1..] == rest;
  }

  /*
   * ---------- Classes ----------
   */

  /** `public final <type> <name>;`. */
  datatype JavaField = JavaField(javaType: string, name: string)

  /** A constructor parameter; every type but `boolean` is annotated `@NotNull`. */
  datatype CtorParam = CtorParam(notNull: bool, javaType: string, name: string)

  /** One conjunct of `equals`: `==` for the primitive types, `.equals` for the others. */
  datatype Comparison = ByValue(name: string) | ByEquals(name: string)

  datatype ClassDecl = ClassDecl(
    name: string,
    isAbstract: bool,
    superclass: Option<string>,
    interfaces: seq<string>,
    fields: seq<JavaField>,
    params: seq<CtorParam>,
    superArgs: Option<seq<string>>,
    assignments: seq<string>,
    equals: seq<Comparison>,
    hashed: seq<string>)

  /** `parents.filter(isJavaInterfaceType)` and the rest, in order; an unknown parent throws. */
  function Partition(g: Graph, parents: seq<string>): (r: Result<(seq<string>, seq<string>)>)
    ensures r.Success? <==> forall p <- parents :: p in g.nodes
    ensures r.Success? ==> (forall p :: p in r.value.0 <==> p in parents && p in g.nodes && IsInterface(g.nodes[p]))
    ensures r.Success? ==> (forall p :: p in r.value.1 <==> p in parents && p in g.nodes && !IsInterface(g.nodes[p]))
    ensures r.Success? ==> |r.value.0| + |r.value.1| == |parents|
    ensures r.Success? && r.value.1 == [] ==> r.value.0 == parents
    ensures r.Failure? ==> r.error == "TypeError"
  {
    if parents == [] then Success(([], []))
    else
      var p := parents[0];
      if p !in g.nodes then Failure("TypeError")
      else
        match Partition(g, parents[1..])
        case Failure(e) => Failure(e)
        case Success(split) =>
          assert forall q <- parents :: q == p || q in parents[1..];
          if IsInterface(g.nodes[p]) then Success(([p] + split.0, split.1))
          else Success((split.0, [p] + split.1))
  }

  function FieldsOf(attrs: seq<JavaAttr>): (r: seq<JavaField>)
    ensures |r| == |attrs| && forall i :: 0 <= i < |attrs| ==> r[i] == JavaField(attrs[i].javaType, attrs[i].name)
  {
    if attrs == [] then [] else [JavaField(attrs[0].javaType, attrs[0].name)] + FieldsOf(attrs[1..])
  }

  function ParamOf(a: JavaAttr): (r: CtorParam)
    ensures r.notNull <==> a.javaType != "boolean"
  {
    CtorParam(a.javaType != "boolean", a.javaType, a.name)
  }

  function ParamsOf(attrs: seq<JavaAttr>): (r: seq<CtorParam>)
    ensures |r| == |attrs| && forall i :: 0 <= i < |attrs| ==> r[i] == ParamOf(attrs[i])
  {
    if attrs == [] then [] else [ParamOf(attrs[0])] + ParamsOf(attrs[1..])
  }

  function ComparisonOf(a: JavaAttr): (r: Comparison)
    ensures r.name == a.name
    ensures r.ByValue? <==> a.javaType == "boolean" || a.javaType == "double"
  {
    if a.javaType == "boolean" || a.javaType == "double" then ByValue(a.name) else ByEquals(a.name)
  }

  function ComparisonsOf(attrs: seq<JavaAttr>): (r: seq<Comparison>)
    ensures |r| == |attrs| && forall i :: 0 <= i < |attrs| ==> r[i] == ComparisonOf(attrs[i])
  {
    if attrs == [] then [] else [ComparisonOf(attrs[0])] + ComparisonsOf(attrs[1..])
  }

  /** The class written for a node that is not an interface. */
  function ClassFor(g: Graph, n: string, d: NodeDecl): (r: Result<ClassDecl>)
    ensures r.Success? <==> (Partition(g, d.parents).Success? && |Partition(g, d.parents).value.1| <= 1
      && JavaAttrs(d.attributes).Success?)
    ensures r.Success? ==> r.value.name == n && (r.value.isAbstract <==> d.children != [])
    ensures r.Success? ==> (r.value.superArgs.Some? <==> r.value.superclass.Some?)
  {
    var split :- Partition(g, d.parents);
    if |split.1| > 1 then Failure(n + " extends multiple types")
    else
      var attrs :- JavaAttrs(d.attributes);
      var ex := if |split.1| == 1 then Some(split.1[0]) else None;
      var own := WithFlag(attrs, false);
      Success(ClassDecl(
        n,
        d.children != [],
        ex,
        split.0,
        FieldsOf(own),
        ParamsOf(attrs),
        if ex.Some? then Some(Names(WithFlag(attrs, true))) else None,
        Names(own),
        ComparisonsOf(attrs),
        Names(attrs)))
  }

  /**
   * Interface parents are implemented and at most one other parent is extended; a class with
   * children is abstract; only own attributes become fields; `super` receives the inherited
   * attributes and only when a parent is extended; the constructor takes, `equals` compares
   * and `hashCode` mixes every attribute in attribute order.
   */
  lemma ClassShape(g: Graph, n: string, d: NodeDecl)
    requires ClassFor(g, n, d).Success?
    ensures var c := ClassFor(g, n, d).value;
      var attrs := JavaAttrs(d.attributes).value;
      (forall p :: p in c.interfaces <==> p in d.parents && IsInterface(g.nodes[p]))
      && (forall p :: (c.superclass == Some(p)) <==> p in d.parents && !IsInterface(g.nodes[p]))
      && c.fields == FieldsOf(WithFlag(attrs, false))
      && (c.superArgs.Some? ==> c.superArgs.value == Names(WithFlag(attrs, true)))
      && c.assignments == Names(WithFlag(attrs, false))
      && |c.params| == |d.attributes| && |c.equals| == |d.attributes| && c.hashed == Names(attrs)
      && c.params == ParamsOf(attrs) && c.equals == ComparisonsOf(attrs)
  {
    var split := Partition(g, d.parents).value;
    if |split.1| == 1 {
      assert split.1[0] in split.1;
      forall p
        ensures p in split.1 <==> p == split.1[0]
      {
      }
    }
  }

  /**
   * When a parent is extended, the `super` call and the field assignments together use every
   * constructor parameter exactly once.
   */
  lemma CtorUsesEveryParam(g: Graph, n: string, d: NodeDecl)
    requires ClassFor(g, n, d).Success? && ClassFor(g, n, d).value.superclass.Some?
    ensures var c := ClassFor(g, n, d).value;
      multiset(c.superArgs.value + c.assignments) == multiset(Names(JavaAttrs(d.attributes).value))
  {
    SplitNames(JavaAttrs(d.attributes).value);
  }

  /** A class fails on an unknown parent, on a second non-interface parent, and on a type it cannot render. */
  lemma ClassFailures(g: Graph, n: string, d: NodeDecl)
    ensures (exists p <- d.parents :: p !in g.nodes) ==> ClassFor(g, n, d) == Failure("TypeError")
    ensures Partition(g, d.parents).Success? && |Partition(g, d.parents).value.1| > 1
      ==> ClassFor(g, n, d) == Failure(n + " extends multiple types")
  {
  }

  /*
   * ---------- Interfaces ----------
   */

  datatype InterfaceDecl = InterfaceDecl(name: string, parents: seq<string>)

  /** The interface written for an interface node: all its parents must be interfaces. */
  function InterfaceFor(g: Graph, n: string, d: NodeDecl): (r: Result<InterfaceDecl>)
    ensures r.Success? <==> forall p <- d.parents :: p in g.nodes && IsInterface(g.nodes[p])
    ensures r.Success? ==> r.value == InterfaceDecl(n, d.parents)
  {
    var split :- Partition(g, d.parents);
    if |split.0| != |d.parents| then
      assert |split.1| > 0;
      assert split.1[0] in split.1;
      Failure("Interface type " + n + " extends some type")
    else
      Success(InterfaceDecl(n, split.0))
  }

  /*
   * ---------- The generator ----------
   */

  /** The names among `names` whose node is, or is not, an interface, in order. */
  function Select(g: Graph, names: seq<string>, interfaces: bool): (r: seq<string>)
    requires forall n <- names :: n in g.nodes
    ensures forall n :: n in r <==> n in names && IsInterface(g.nodes[n]) == interfaces
    ensures forall n <- r :: n in g.nodes
  {
    if names == [] then []
    else (if IsInterface(g.nodes[names[0]]) == interfaces then [names[0]] else []) + Select(g, names[1..], interfaces)
  }

  /**
   * Every name built in order; the first failure ends the run, and earlier successes are
   * kept only as files already written.
   */
  method BuildAll<T>(names: seq<string>, build: string -> Result<T>) returns (r: Result<seq<T>>)
    ensures r.Success? <==> forall i :: 0 <= i < |names| ==> build(names[i]).Success?
    ensures r.Success? ==> |r.value| == |names| && forall i :: 0 <= i < |names| ==> build(names[i]) == Success(r.value[i])
    ensures r.Failure? ==> exists i :: (0 <= i < |names| && build(names[i]) == Failure(r.error)
      && forall j :: 0 <= j < i ==> build(names[j]).Success?)
  {
    var built: seq<T> := [];
    for i := 0 to |names|
      invariant |built| == i && forall j :: 0 <= j < i ==> build(names[j]) == Success(built[j])
    {
      var b := build(names[i]);
      if b.Failure? {
        return Failure(b.error);
      }
      built := built + [b.value];
    }
    r := Success(built);
  }

  /** The two loops: the classes first, then the interfaces, each in the map's insertion order. */
  method Generate(g: Graph) returns (classes: Result<seq<ClassDecl>>, interfaces: Result<seq<InterfaceDecl>>)
    requires forall n <- g.order :: n in g.nodes
    ensures var names := Select(g, g.order, false);
      classes.Success? <==> forall i :: 0 <= i < |names| ==> ClassFor(g, names[i], g.nodes[names[i]]).Success?
    ensures var names := Select(g, g.order, false);
      classes.Success? ==> (|classes.value| == |names|
      && forall i :: 0 <= i < |names| ==> ClassFor(g, names[i], g.nodes[names[i]]) == Success(classes.value[i]))
    ensures classes.Failure? ==> interfaces.Failure? && interfaces.error == classes.error
    ensures var names := Select(g, g.order, true);
      classes.Success? ==> (interfaces.Success? <==> forall i :: 0 <= i < |names| ==> InterfaceFor(g, names[i], g.nodes[names[i]]).Success?)
    ensures var names := Select(g, g.order, true);
      classes.Success? && interfaces.Success? ==> (|interfaces.value| == |names|
      && forall i :: 0 <= i < |names| ==> interfaces.value[i] == InterfaceDecl(names[i], g.nodes[names[i]].parents))
  {
    var classNames := Select(g, g.order, false);
    classes := BuildAll(classNames, n => if n in g.nodes then ClassFor(g, n, g.nodes[n]) else Failure("TypeError"));
    if classes.Failure? {
      return classes, Failure(classes.error);
    }
    var interfaceNames := Select(g, g.order, true);
    interfaces := BuildAll(interfaceNames, n => if n in g.nodes then InterfaceFor(g, n, g.nodes[n]) else Failure("TypeError"));
  }
}
