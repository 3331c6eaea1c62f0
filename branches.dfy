/**
 * The `Branch` generator: one Java class per (leaf node, stateful attribute), each of which
 * steps from a node to one of its children, and the semantics of the generated classes on
 * Java values. The way a child is reached is shared with the `ASTPath` generator.
 */
module Branches {
  import opened Wrappers
  import opened SemanticTypes
  import Text
  import Utilities

  /*
   * ---------- base ----------
   */

  /** The `argument` of a type with no wrapper: a name, or the member array of a union. */
  datatype Argument = Name(name: string) | Members(members: seq<SemanticType>)

  function ArgumentOf(t: SemanticType): (r: Argument)
    requires !t.Nullable? && !t.List?
    ensures r.Members? <==> t.Union?
  {
    match t
    case Value(tag) => Name(tag)
    case Enum(n) => Name(n)
    case Node(n) => Name(n)
    case NamedType(n) => Name(n)
    case Union(ms) => Members(ms)
  }

  /** `base`: the argument of the type under every list and nullable wrapper. */
  function Base(t: SemanticType): (r: Argument)
    ensures r == ArgumentOf(Innermost(t))
    ensures r.Members? <==> Innermost(t).Union?
  {
    if t.List? || t.Nullable? then Base(t.argument) else ArgumentOf(t)
  }

  /** The wrappers are looked through in any order and any number. */
  lemma BaseThroughWrappers(t: SemanticType)
    ensures Base(List(t)) == Base(t) && Base(Nullable(t)) == Base(t)
  {
  }

  /*
   * ---------- How a child is reached ----------
   */

  /**
   * The four bodies of `step`/`apply`: the n-th element of a list of nullables with the inner
   * `Maybe` flattened, the n-th element of a list, a nullable field as it is, and any other
   * field wrapped in `Maybe.of`.
   */
  datatype AccessKind = FlattenedElement | Element | MaybeField | PlainField

  /** The list case comes first, so a list of nullables is never taken for a nullable. */
  function KindOf(t: SemanticType): (r: AccessKind)
    ensures r.FlattenedElement? <==> t.List? && t.argument.Nullable?
    ensures r.Element? <==> t.List? && !t.argument.Nullable?
    ensures r.MaybeField? <==> t.Nullable?
    ensures r.PlainField? <==> !t.List? && !t.Nullable?
  {
    if t.List? && t.argument.Nullable? then FlattenedElement
    else if t.List? then Element
    else if t.Nullable? then MaybeField
    else PlainField
  }

  /** Whether the generated class takes an index: exactly for list attributes. */
  predicate Indexed(k: AccessKind)
  {
    k.FlattenedElement? || k.Element?
  }

  lemma IndexedIffList(t: SemanticType)
    ensures Indexed(KindOf(t)) <==> t.List?
  {
  }

  /*
   * ---------- Java values ----------
   */

  /** A value of the generated Java AST: an instance of a node class, a `Maybe`, an `ImmutableList`, or a primitive. */
  datatype JavaValue =
    | Instance(cls: string, fields: map<string, JavaValue>)
    | MaybeOf(content: Option<JavaValue>)
    | ListOf(elements: seq<JavaValue>)
    | Primitive(text: string)

  /** `ImmutableList.index(i)`: the element when `i` is in range, empty otherwise (negative indices included). */
  function At(xs: seq<JavaValue>, i: int): (r: Option<JavaValue>)
    ensures r.Some? <==> 0 <= i < |xs|
    ensures r.Some? ==> r.value == xs[i]
  {
    if 0 <= i < |xs| then Some(xs[i]) else None
  }

  /**
   * The body of a generated `step`/`apply`: empty unless the value is an instance of the owning
   * leaf class, then the child the access kind selects. An instance whose field is missing or
   * has the wrong shape is not a well-typed Java value; it is given the empty result.
   */
  function Access(kind: AccessKind, owner: string, field: string, index: int, v: JavaValue): (r: Option<JavaValue>)
    ensures !(v.Instance? && v.cls == owner) ==> r == None
    ensures r.Some? ==> v.Instance? && field in v.fields
  {
    if !(v.Instance? && v.cls == owner) || field !in v.fields then None
    else
      var f := v.fields[field];
      match kind
      case FlattenedElement =>
        if !f.ListOf? then None
        else (match At(f.elements, index) case Some(MaybeOf(o)) => o case _ => None)
      case Element => if f.ListOf? then At(f.elements, index) else None
      case MaybeField => if f.MaybeOf? then f.content else None
      case PlainField => Some(f)
  }

  /**
   * Stepping never invents a value: the child is the field itself, one of the list's
   * elements, or the content of the field's or of an element's `Maybe`.
   */
  lemma AccessFindsChild(kind: AccessKind, owner: string, field: string, index: int, v: JavaValue)
    requires Access(kind, owner, field, index, v).Some?
    ensures var c := Access(kind, owner, field, index, v).value;
      var f := v.fields[field];
      c == f || MaybeOf(Some(c)) == f
      || (f.ListOf? && 0 <= index < |f.elements| && (f.elements[index] == c || f.elements[index] == MaybeOf(Some(c))))
  {
  }

  /** The indexed accesses at 0 .. n-1 read a list back element by element, and nothing outside it. */
  lemma {:induction false} ElementsEnumerate(owner: string, field: string, v: JavaValue)
    requires v.Instance? && v.cls == owner && field in v.fields && v.fields[field].ListOf?
    ensures var xs := v.fields[field].elements;
      seq(|xs|, i => Access(Element, owner, field, i, v)) == seq(|xs|, i requires 0 <= i < |xs| => Some(xs[i]))
    ensures forall i :: (i < 0 || i >= |v.fields[field].elements|) ==> Access(Element, owner, field, i, v) == None
  {
    var xs := v.fields[field].elements;
    var a := seq(|xs|, i => Access(Element, owner, field, i, v));
    var b := seq(|xs|, i requires 0 <= i < |xs| => Some(xs[i]));
    forall i | 0 <= i < |xs|
      ensures a[i] == b[i]
    {
      assert At(xs, i) == Some(xs[i]);
    }
  }

  /** On a list of nullables an absent element and an index out of range look the same. */
  lemma FlattenedHidesAbsent(owner: string, field: string, v: JavaValue)
    requires v.Instance? && v.cls == owner && field in v.fields
    requires v.fields[field] == ListOf([MaybeOf(None)])
    ensures Access(FlattenedElement, owner, field, 0, v) == None
    ensures Access(FlattenedElement, owner, field, 1, v) == None
  {
  }

  /*
   * ---------- Generic generation over attributes and leaves ----------
   */

  /** `attrs.forEach(...)` of a builder that may throw: every result in order, or the first error. */
  function Collect<T>(attrs: seq<Attribute>, build: Attribute -> Result<T>): (r: Result<seq<T>>)
    ensures r.Success? <==> forall a <- attrs :: build(a).Success?
    ensures r.Success? ==> |r.value| == |attrs| && forall i :: 0 <= i < |attrs| ==> build(attrs[i]) == Success(r.value[i])
    ensures r.Failure? ==> exists a <- attrs :: build(a) == Failure(r.error)
  {
    if attrs == [] then Success([])
    else
      match build(attrs[0])
      case Failure(e) => Failure(e)
      case Success(x) =>
        match Collect(attrs[1..], build)
        case Failure(e) =>
          assert forall a <- attrs[1..] :: a in attrs;
          Failure(e)
        case Success(rest) =>
          assert forall a <- attrs :: a == attrs[0] || a in attrs[1..];
          Success([x] + rest)
  }

  /** The outer loop over the sorted leaves: the per-leaf classes concatenated, or the first error. */
  function OverLeaves<T(!new)>(leaves: seq<string>, perLeaf: string -> Result<seq<T>>): (r: Result<seq<T>>)
    ensures r.Success? <==> forall n <- leaves :: perLeaf(n).Success?
    ensures r.Success? ==> forall x :: x in r.value <==> exists n <- leaves :: x in perLeaf(n).value
  {
    if leaves == [] then Success([])
    else
      var init := leaves[..|leaves| - 1];
      var last := leaves[|leaves| - 1];
      assert forall n <- leaves :: n in init || n == last;
      match OverLeaves(init, perLeaf)
      case Failure(e) => Failure(e)
      case Success(done) =>
        match perLeaf(last)
        case Failure(e) => Failure(e)
        case Success(more) => Success(done + more)
  }

  /** The loop itself: the classes accumulate leaf by leaf; a throw ends the run with nothing written. */
  method GenerateOver<T(!new)>(leaves: seq<string>, perLeaf: string -> Result<seq<T>>) returns (r: Result<seq<T>>)
    ensures r == OverLeaves(leaves, perLeaf)
  {
    var classes: seq<T> := [];
    for i := 0 to |leaves|
      invariant OverLeaves(leaves[..i], perLeaf) == Success(classes)
    {
      assert leaves[..i + 1][..i] == leaves[..i];
      var more := perLeaf(leaves[i]);
      if more.Failure? {
        FailureSticks(leaves, i + 1, perLeaf);
        return Failure(more.error);
      }
      classes := classes + more.value;
    }
    assert leaves[..|leaves|] == leaves;
    r := Success(classes);
  }

  /** Once a prefix of the leaves fails, the whole run fails with that error. */
  lemma {:induction false} FailureSticks<T(!new)>(leaves: seq<string>, k: nat, perLeaf: string -> Result<seq<T>>)
    requires k <= |leaves| && OverLeaves(leaves[..k], perLeaf).Failure?
    ensures OverLeaves(leaves, perLeaf) == OverLeaves(leaves[..k], perLeaf)
    decreases |leaves|
  {
    if k == |leaves| {
      assert leaves[..k] == leaves;
    } else {
      var init := leaves[..|leaves| - 1];
      assert init[..k] == leaves[..k];
      FailureSticks(init, k, perLeaf);
    }
  }

  /*
   * ---------- The Branch classes ----------
   */

  /** One generated class: its name, the leaf it steps from, the (sanitised) field it reads, and how. */
  datatype BranchDecl = BranchDecl(name: string, owner: string, field: string, kind: AccessKind)

  /** `${typeName}${cap(a.name)}`; `name[0]` of an empty name is undefined and throws. */
  function BranchFor(typeName: string, a: Attribute): (r: Result<BranchDecl>)
    ensures r.Success? <==> a.name != []
    ensures r.Failure? ==> r.error == "TypeError"
    ensures r.Success? ==> r.value.owner == typeName && r.value.kind == KindOf(a.typ)
    ensures r.Success? ==> r.value.field == Utilities.Sanitize(a.name) && r.value.field != "super"
    ensures r.Success? ==> Text.HasPrefix(r.value.name, typeName) && |r.value.name| == |typeName| + |a.name|
    ensures r.Success? ==> r.value.name == typeName + Text.Capitalize(a.name).value
  {
    match Text.Capitalize(a.name)
    case None => Failure("TypeError")
    case Some(c) => Success(BranchDecl(typeName + c, typeName, Utilities.Sanitize(a.name), KindOf(a.typ)))
  }

  /** The branches of one leaf: its stateful attributes, in attribute order. */
  function LeafBranches(typeName: string, attrs: seq<Attribute>): (r: Result<seq<BranchDecl>>)
  {
    var stateful :- Utilities.StatefulAttributes(attrs);
    Collect(stateful, a => BranchFor(typeName, a))
  }

  /** Every class of a leaf is for one of its stateful attributes. */
  lemma LeafBranchesSound(typeName: string, attrs: seq<Attribute>, d: BranchDecl)
    requires LeafBranches(typeName, attrs).Success? && d in LeafBranches(typeName, attrs).value
    ensures exists a <- attrs :: Utilities.IsStateful(a.typ) == Success(true) && BranchFor(typeName, a) == Success(d)
  {
    var stateful := Utilities.StatefulAttributes(attrs).value;
    var ds := Collect(stateful, a => BranchFor(typeName, a)).value;
    var i :| 0 <= i < |ds| && ds[i] == d;
    assert stateful[i] in stateful;
  }

  /** Every stateful attribute of a leaf gets a class. */
  lemma LeafBranchesComplete(typeName: string, attrs: seq<Attribute>, a: Attribute)
    requires LeafBranches(typeName, attrs).Success?
    requires a in attrs && Utilities.IsStateful(a.typ) == Success(true)
    ensures BranchFor(typeName, a).Success? && BranchFor(typeName, a).value in LeafBranches(typeName, attrs).value
  {
    var stateful := Utilities.StatefulAttributes(attrs).value;
    var ds := Collect(stateful, a => BranchFor(typeName, a)).value;
    var i :| 0 <= i < |stateful| && stateful[i] == a;
    assert ds[i] == BranchFor(typeName, a).value;
  }

  /** A leaf fails when a type is a union or a named type, or when a stateful attribute has an empty name. */
  lemma LeafBranchesFail(typeName: string, attrs: seq<Attribute>)
    ensures LeafBranches(typeName, attrs).Success? <==>
      (forall a <- attrs :: Utilities.IsStateful(a.typ).Success?)
      && (forall a <- attrs :: Utilities.IsStateful(a.typ) == Success(true) ==> a.name != [])
  {
    if Utilities.StatefulAttributes(attrs).Success? {
      var stateful := Utilities.StatefulAttributes(attrs).value;
      assert (forall a <- stateful :: a.name != []) <==>
        (forall a <- attrs :: Utilities.IsStateful(a.typ) == Success(true) ==> a.name != []);
    }
  }

  function BranchesOf(g: Graph, n: string): Result<seq<BranchDecl>>
  {
    if n in g.nodes then LeafBranches(n, g.nodes[n].attributes) else Success([])
  }

  /** The content of `Branch.java`: the branches of every leaf, leaves in sorted order. */
  function AllBranches(g: Graph): Result<seq<BranchDecl>>
    requires WellFormed(g)
  {
    OverLeaves(SortedLeaves(g), n => BranchesOf(g, n))
  }

  /** The generator's loop computes exactly that content. */
  method Generate(g: Graph) returns (r: Result<seq<BranchDecl>>)
    requires WellFormed(g)
    ensures r == AllBranches(g)
  {
    r := GenerateOver(SortedLeaves(g), n => BranchesOf(g, n));
  }

  /** Branches exist only for leaves and only for their stateful attributes. */
  lemma AllBranchesSound(g: Graph, d: BranchDecl)
    requires WellFormed(g) && AllBranches(g).Success? && d in AllBranches(g).value
    ensures d.owner in g.nodes && g.nodes[d.owner].children == []
    ensures exists a <- g.nodes[d.owner].attributes :: Utilities.IsStateful(a.typ) == Success(true) && BranchFor(d.owner, a) == Success(d)
  {
    var n :| n in SortedLeaves(g) && d in BranchesOf(g, n).value;
    LeafBranchesSound(n, g.nodes[n].attributes, d);
  }

  /** Every stateful attribute of every leaf has a branch. */
  lemma AllBranchesComplete(g: Graph, n: string, a: Attribute)
    requires WellFormed(g) && AllBranches(g).Success?
    requires n in g.nodes && g.nodes[n].children == [] && a in g.nodes[n].attributes
    requires Utilities.IsStateful(a.typ) == Success(true)
    ensures BranchFor(n, a).Success? && BranchFor(n, a).value in AllBranches(g).value
  {
    assert n in SortedLeaves(g);
    LeafBranchesComplete(n, g.nodes[n].attributes, a);
  }

  /**
   * Class names are not one-to-one: a leaf `A` with attribute `bC` and a leaf `AB` with
   * attribute `c` both give `ABC`.
   */
  lemma BranchNamesCollide()
    ensures var x := BranchFor("A", Attribute("bC", Node("N"), false));
      var y := BranchFor("AB", Attribute("c", Node("N"), false));
      x.Success? && y.Success? && x.value.name == y.value.name && x.value.owner != y.value.owner
  {
    assert Text.UpperChar('b') == 'B' && Text.UpperChar('c') == 'C';
    assert "bC"[1..] == "C" && ['B'] + "C" == "BC" && ['C'] + "c"[1..] == "C";
    assert Text.Capitalize("bC") == Some("BC");
    assert Text.Capitalize("c") == Some("C");
  }

  /*
   * ---------- Branch objects: step, equals and hashCode ----------
   */

  /** An instance of a generated class; only the classes of list attributes carry an index. */
  datatype Branch = Trivial(decl: BranchDecl) | IndexedAt(decl: BranchDecl, index: int)

  /** `${name}_(...)`: the static factory passes the index exactly when the class takes one. */
  function Make(d: BranchDecl, index: int): (b: Branch)
    ensures b.decl == d && (b.IndexedAt? <==> Indexed(d.kind))
    ensures b.IndexedAt? ==> b.index == index
  {
    if Indexed(d.kind) then IndexedAt(d, index) else Trivial(d)
  }

  predicate WellMade(b: Branch)
  {
    b.IndexedAt? <==> Indexed(b.decl.kind)
  }

  function IndexOf(b: Branch): int
  {
    if b.IndexedAt? then b.index else 0
  }

  function Step(b: Branch, node: JavaValue): (r: Option<JavaValue>)
    ensures !(node.Instance? && node.cls == b.decl.owner) ==> r == None
  {
    Access(b.decl.kind, b.decl.owner, b.decl.field, IndexOf(b), node)
  }

  /** `equals`: the same class, and for an `IndexedBranch` the same index. */
  predicate Equals(x: Branch, y: Branch)
  {
    x.decl.name == y.decl.name && (x.IndexedAt? && y.IndexedAt? ==> x.index == y.index)
  }

  /** `hashCode`: `Objects.hash(getClass())`, with the index for an `IndexedBranch`. */
  function Hash(b: Branch): (string, Option<int>)
  {
    (b.decl.name, if b.IndexedAt? then Some(b.index) else None)
  }

  /** In a set of declarations, a class name stands for one declaration. */
  predicate NamesUnique(table: seq<BranchDecl>)
  {
    forall i, j :: 0 <= i < |table| && 0 <= j < |table| && table[i].name == table[j].name ==> table[i] == table[j]
  }

  /**
   * When class names are unique, `equals` is an equivalence, equal branches have equal hash codes,
   * and equal branches step alike from every node.
   */
  lemma EqualsSound(table: seq<BranchDecl>, x: Branch, y: Branch, z: Branch)
    requires NamesUnique(table) && x.decl in table && y.decl in table && z.decl in table
    requires WellMade(x) && WellMade(y) && WellMade(z)
    ensures Equals(x, x)
    ensures Equals(x, y) ==> Equals(y, x)
    ensures Equals(x, y) && Equals(y, z) ==> Equals(x, z)
    ensures Equals(x, y) ==> Hash(x) == Hash(y)
    ensures Equals(x, y) ==> forall node :: Step(x, node) == Step(y, node)
  {
    if Equals(x, y) {
      SameDecl(table, x.decl, y.decl);
    }
    if Equals(y, z) {
      SameDecl(table, y.decl, z.decl);
    }
  }

  lemma SameDecl(table: seq<BranchDecl>, d: BranchDecl, e: BranchDecl)
    requires NamesUnique(table) && d in table && e in table && d.name == e.name
    ensures d == e
  {
    var i :| 0 <= i < |table| && table[i] == d;
    var j :| 0 <= j < |table| && table[j] == e;
  }

  /** Without unique names the contract breaks: equal branches of two colliding classes step from different leaves. */
  lemma EqualsNeedsUniqueNames()
    ensures var x := Trivial(BranchFor("A", Attribute("bC", Node("N"), false)).value);
      var y := Trivial(BranchFor("AB", Attribute("c", Node("N"), false)).value);
      var node := Instance("A", map["bC" := Instance("N", map[])]);
      Equals(x, y) && Step(x, node) != Step(y, node)
  {
    BranchNamesCollide();
    var node := Instance("A", map["bC" := Instance("N", map[])]);
    assert Utilities.Sanitize("bC") == "bC";
  }
}
