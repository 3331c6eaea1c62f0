/**
 * The `ASTPath` generator: one Java class per (leaf node, attribute), stateful or not, whose
 * `apply` reads that attribute from an instance of the leaf and whose `propertyName` names it.
 */
module AstPaths {
  import opened Wrappers
  import opened SemanticTypes
  import Text
  import Utilities
  import Branches

  /*
   * ---------- Names ----------
   */

  /** `${typeName}_${cap(a.name)}`; an empty attribute name throws. */
  function PathName(typeName: string, attrName: string): (r: Result<string>)
    ensures r.Success? <==> attrName != []
    ensures r.Failure? ==> r.error == "TypeError"
    ensures r.Success? ==> |r.value| == |typeName| + 1 + |attrName|
  {
    match Text.Capitalize(attrName)
    case None => Failure("TypeError")
    case Some(c) => Success(typeName + "_" + c)
  }

  /**
   * The underscore keeps the parts apart: for type names without `_`, equal class names come
   * from the same leaf and the same capitalised attribute name.
   */
  lemma PathNamesInjective(n1: string, a1: string, n2: string, a2: string)
    requires '_' !in n1 && '_' !in n2
    requires PathName(n1, a1).Success? && PathName(n2, a2).Success?
    requires PathName(n1, a1).value == PathName(n2, a2).value
    ensures n1 == n2 && Text.Capitalize(a1) == Text.Capitalize(a2)
  {
    var c1 := Text.Capitalize(a1).value;
    var c2 := Text.Capitalize(a2).value;
    var s := PathName(n1, a1).value;
    assert s == n1 + "_" + c1 && s == n2 + "_" + c2;
    FirstUnderscore(n1, c1);
    FirstUnderscore(n2, c2);
    assert n1 == s[..|n1|] == n2;
    assert c1 == s[|n1| + 1..] == c2;
  }

  /** The first `_` of a name built from an underscore-free type name is the separator. */
  lemma FirstUnderscore(n: string, c: string)
    requires '_' !in n
    ensures '_' in n + "_" + c && Text.FirstIndexOf(n + "_" + c, '_') == |n|
  {
    var s := n + "_" + c;
    assert s[|n|] == '_';
    assert s[..|n|] == n;
  }

  /*
   * ---------- The return type ----------
   */

  /** What `year` renders as: the utility module does not export it, so it is `undefined`. */
  const YearAsWritten := "undefined"

  /** The package the operator enums live in, for the given text of the year. */
  function OperatorsPackage(yearText: string): string
  {
    "com.shapesecurity.shift.es" + yearText + ".ast.operators."
  }

  /** `type.argument` used as a string: only a value, enum, node or named type has a name there. */
  function NameArgument(t: SemanticType): (r: Result<string>)
    ensures r.Success? <==> !t.Nullable? && !t.List? && !t.Union?
    ensures r.Success? ==> Branches.ArgumentOf(t) == Branches.Name(r.value)
    ensures r.Failure? ==> r.error == "TypeError"
  {
    match t
    case Value(tag) => Success(tag)
    case Enum(n) => Success(n)
    case Node(n) => Success(n)
    case NamedType(n) => Success(n)
    case _ => Failure("TypeError")
  }

  /** The three-way choice of the argument to read: two levels down for a list of nullables, one for a list or a nullable. */
  function RawReturnType(t: SemanticType): Result<string>
  {
    if t.List? && t.argument.Nullable? then NameArgument(t.argument.argument)
    else if t.List? || t.Nullable? then NameArgument(t.argument)
    else NameArgument(t)
  }

  /** The first letter upper-cased, then package-qualified for an enum whose name ends in `Operator`. */
  function ReturnTypeIn(yearText: string, t: SemanticType): Result<string>
  {
    var raw :- RawReturnType(t);
    match Text.Capitalize(raw)
    case None => Failure("TypeError")
    case Some(c) =>
      if t.Enum? && Text.HasSuffix(c, "Operator") then Success(OperatorsPackage(yearText) + c) else Success(c)
  }

  /** The return type as the script writes it. */
  function ReturnTypeAsWritten(t: SemanticType): Result<string>
  {
    ReturnTypeIn(YearAsWritten, t)
  }

  /** The return type with the year the generated package is evidently meant to carry. */
  function ReturnType(year: nat, t: SemanticType): Result<string>
  {
    ReturnTypeIn(Text.IntToString(year), t)
  }

  predicate Wrapper(t: SemanticType)
  {
    t.List? || t.Nullable?
  }

  /** The wrappings the ternary reads through: none, one list or nullable, or a list of nullables. */
  predicate Handled(t: SemanticType)
  {
    match t
    case List(Nullable(x)) => !Wrapper(x)
    case List(x) => !Wrapper(x)
    case Nullable(x) => !Wrapper(x)
    case _ => true
  }

  /**
   * The return type is the capitalised name of the innermost type, as `base` finds it. It fails
   * exactly for deeper wrappings, for a union inside, and for an empty name.
   */
  lemma ReturnTypeIsBase(yearText: string, t: SemanticType)
    ensures ReturnTypeIn(yearText, t).Success? <==>
      Handled(t) && Branches.Base(t).Name? && Branches.Base(t).name != []
    ensures ReturnTypeIn(yearText, t).Success? ==>
      var c := Text.Capitalize(Branches.Base(t).name).value;
      ReturnTypeIn(yearText, t).value == if t.Enum? && Text.HasSuffix(c, "Operator") then OperatorsPackage(yearText) + c else c
  {
    match t
    case List(Nullable(x)) =>
    case List(x) =>
    case Nullable(x) =>
    case _ =>
  }

  /** A nullable list of nodes is a shape the other generators accept, but this one throws on it. */
  lemma NullableListUnsupported(yearText: string)
    ensures Shape(Nullable(List(Node("N"))))
    ensures ReturnTypeIn(yearText, Nullable(List(Node("N")))).Failure?
  {
  }

  /** As written, an operator enum is qualified with the package segment `esundefined`, which names no year. */
  lemma OperatorPackageUndefined()
    ensures ReturnTypeAsWritten(Enum("BinaryOperator"))
      == Success("com.shapesecurity.shift.es" + "undefined" + ".ast.operators." + "BinaryOperator")
    ensures Text.ParseInt(YearAsWritten).None?
  {
    var c := "BinaryOperator";
    assert Text.UpperChar('B') == 'B';
    assert [c[0]] + c[1..] == c;
    assert c[|c| - 8..] == "Operator";
  }

  /** Upper-casing the first letter keeps a suffix that does not reach it. */
  lemma CapitalizeKeepsOperator(n: string)
    requires Text.HasSuffix(n, "Operator")
    ensures Text.HasSuffix(Text.Capitalize(n).value, "Operator")
  {
    var c := Text.Capitalize(n).value;
    if |n| == 8 {
      assert n == "Operator";
      assert Text.UpperChar('O') == 'O';
      assert c == "Operator";
    } else {
      assert c[|c| - 8..] == c[1..][|c| - 9..] == n[1..][|n| - 9..] == n[|n| - 8..];
    }
  }

  /** An operator enum is qualified with the package of the year it is given. */
  lemma OperatorQualified(yearText: string, n: string)
    requires Text.HasSuffix(n, "Operator")
    ensures ReturnTypeIn(yearText, Enum(n)) == Success(OperatorsPackage(yearText) + Text.Capitalize(n).value)
  {
    CapitalizeKeepsOperator(n);
  }

  /** With the year supplied, the package segment after `es` reads back as that year. */
  lemma OperatorPackageNamesYear(year: nat, n: string)
    requires Text.HasSuffix(n, "Operator")
    ensures ReturnType(year, Enum(n)) == Success(OperatorsPackage(Text.IntToString(year)) + Text.Capitalize(n).value)
    ensures Text.ParseInt(Text.IntToString(year)) == Some(year)
  {
    OperatorQualified(Text.IntToString(year), n);
    Text.IntToStringRoundTrip(year);
  }

  /*
   * ---------- The ASTPath classes ----------
   */

  /**
   * One generated class: its name, its leaf, the attribute's own name (for `propertyName`), the
   * sanitised field `apply` reads, how it reads it, the `Maybe` it returns, whether it extends
   * `IndexedPath` rather than `TrivialPath`, and whether it is made by an index-taking factory
   * rather than held in one shared constant.
   */
  datatype PathDecl = PathDecl(
    name: string,
    owner: string,
    attrName: string,
    field: string,
    kind: Branches.AccessKind,
    returnType: string,
    indexedSuperclass: bool,
    factory: bool)

  function PathFor(yearText: string, typeName: string, a: Attribute): (r: Result<PathDecl>)
    ensures r.Success? <==> a.name != [] && ReturnTypeIn(yearText, a.typ).Success?
    ensures r.Success? ==> (r.value.owner == typeName && r.value.attrName == a.name
      && r.value.field == Utilities.Sanitize(a.name) && r.value.kind == Branches.KindOf(a.typ)
      && r.value.name == PathName(typeName, a.name).value && r.value.returnType == ReturnTypeIn(yearText, a.typ).value)
    ensures r.Success? ==> (r.value.indexedSuperclass <==> a.typ.List?) && (r.value.factory <==> a.typ.List?)
    ensures r.Success? ==> (r.value.indexedSuperclass <==> Branches.Indexed(r.value.kind))
  {
    var name :- PathName(typeName, a.name);
    var returnType :- ReturnTypeIn(yearText, a.typ);
    var isList := a.typ.List?;
    Success(PathDecl(name, typeName, a.name, Utilities.Sanitize(a.name), Branches.KindOf(a.typ), returnType, isList, isList))
  }

  /** The paths of one leaf: every attribute, in attribute order. */
  function LeafPaths(yearText: string, typeName: string, attrs: seq<Attribute>): Result<seq<PathDecl>>
  {
    Branches.Collect(attrs, a => PathFor(yearText, typeName, a))
  }

  function PathsOf(yearText: string, g: Graph, n: string): Result<seq<PathDecl>>
  {
    if n in g.nodes then LeafPaths(yearText, n, g.nodes[n].attributes) else Success([])
  }

  /** The content of `ASTPath.java`: the paths of every leaf, leaves in sorted order. */
  function AllPaths(yearText: string, g: Graph): Result<seq<PathDecl>>
    requires WellFormed(g)
  {
    Branches.OverLeaves(SortedLeaves(g), n => PathsOf(yearText, g, n))
  }

  /**
   * The generator's loop, with `year` as the script reads it: operator enums are qualified
   * with the `esundefined` package.
   */
  method Generate(g: Graph) returns (r: Result<seq<PathDecl>>)
    requires WellFormed(g)
    ensures r == AllPaths(YearAsWritten, g)
  {
    r := Branches.GenerateOver(SortedLeaves(g), n => PathsOf(YearAsWritten, g, n));
  }

  /** Every path of a leaf is for one of its attributes. */
  lemma LeafPathsSound(yearText: string, typeName: string, attrs: seq<Attribute>, p: PathDecl)
    requires LeafPaths(yearText, typeName, attrs).Success? && p in LeafPaths(yearText, typeName, attrs).value
    ensures exists a <- attrs :: PathFor(yearText, typeName, a) == Success(p)
  {
    var ps := LeafPaths(yearText, typeName, attrs).value;
    var i :| 0 <= i < |ps| && ps[i] == p;
    assert attrs[i] in attrs;
  }

  /** Every attribute of a leaf gets a path. */
  lemma LeafPathsComplete(yearText: string, typeName: string, attrs: seq<Attribute>, a: Attribute)
    requires LeafPaths(yearText, typeName, attrs).Success? && a in attrs
    ensures PathFor(yearText, typeName, a).Success? && PathFor(yearText, typeName, a).value in LeafPaths(yearText, typeName, attrs).value
  {
    var ps := LeafPaths(yearText, typeName, attrs).value;
    var i :| 0 <= i < |attrs| && attrs[i] == a;
    assert ps[i] == PathFor(yearText, typeName, a).value;
  }

  /** Paths exist only for leaves, one per attribute. */
  lemma AllPathsSound(yearText: string, g: Graph, p: PathDecl)
    requires WellFormed(g) && AllPaths(yearText, g).Success? && p in AllPaths(yearText, g).value
    ensures p.owner in g.nodes && g.nodes[p.owner].children == []
    ensures exists a <- g.nodes[p.owner].attributes :: PathFor(yearText, p.owner, a) == Success(p)
  {
    var n :| n in SortedLeaves(g) && p in PathsOf(yearText, g, n).value;
    LeafPathsSound(yearText, n, g.nodes[n].attributes, p);
  }

  /** Every attribute of every leaf has a path, whether or not it is stateful. */
  lemma AllPathsComplete(yearText: string, g: Graph, n: string, a: Attribute)
    requires WellFormed(g) && AllPaths(yearText, g).Success?
    requires n in g.nodes && g.nodes[n].children == [] && a in g.nodes[n].attributes
    ensures PathFor(yearText, n, a).Success? && PathFor(yearText, n, a).value in AllPaths(yearText, g).value
  {
    assert n in SortedLeaves(g);
    LeafPathsComplete(yearText, n, g.nodes[n].attributes, a);
  }

  /** For a stateful attribute, the path and the branch read the same field the same way. */
  lemma BranchPathAgree(yearText: string, n: string, a: Attribute, index: int, v: Branches.JavaValue)
    requires Branches.BranchFor(n, a).Success? && PathFor(yearText, n, a).Success?
    ensures var b := Branches.BranchFor(n, a).value;
      var p := PathFor(yearText, n, a).value;
      b.owner == p.owner && b.field == p.field && b.kind == p.kind
      && Branches.Step(Branches.Make(b, index), v) == Apply(Make(p, index), v)
  {
  }

  /*
   * ---------- Path objects: apply, propertyName, equals and hashCode ----------
   */

  datatype Path = TrivialAt(decl: PathDecl) | IndexedAt(decl: PathDecl, index: int)

  /** The factory for a list attribute, the shared constant otherwise. */
  function Make(d: PathDecl, index: int): (p: Path)
    ensures p.decl == d && (p.IndexedAt? <==> d.factory)
    ensures p.IndexedAt? ==> p.index == index
  {
    if d.factory then IndexedAt(d, index) else TrivialAt(d)
  }

  predicate WellMade(p: Path)
  {
    (p.IndexedAt? <==> p.decl.factory) && (p.decl.factory <==> Branches.Indexed(p.decl.kind))
  }

  function IndexOf(p: Path): int
  {
    if p.IndexedAt? then p.index else 0
  }

  function Apply(p: Path, source: Branches.JavaValue): (r: Option<Branches.JavaValue>)
    ensures !(source.Instance? && source.cls == p.decl.owner) ==> r == None
  {
    Branches.Access(p.decl.kind, p.decl.owner, p.decl.field, IndexOf(p), source)
  }

  /** The attribute's own name, with `[index]` for a list; it is not sanitised. */
  function PropertyName(p: Path): string
  {
    if p.IndexedAt? then p.decl.attrName + "[" + Text.IntToString(p.index) + "]" else p.decl.attrName
  }

  predicate Equals(x: Path, y: Path)
  {
    x.decl.name == y.decl.name && (x.IndexedAt? && y.IndexedAt? ==> x.index == y.index)
  }

  function Hash(p: Path): (string, Option<int>)
  {
    (p.decl.name, if p.IndexedAt? then Some(p.index) else None)
  }

  predicate NamesUnique(table: seq<PathDecl>)
  {
    forall i, j :: 0 <= i < |table| && 0 <= j < |table| && table[i].name == table[j].name ==> table[i] == table[j]
  }

  lemma SameDecl(table: seq<PathDecl>, d: PathDecl, e: PathDecl)
    requires NamesUnique(table) && d in table && e in table && d.name == e.name
    ensures d == e
  {
    var i :| 0 <= i < |table| && table[i] == d;
    var j :| 0 <= j < |table| && table[j] == e;
  }

  /**
   * When class names are unique, `equals` is an equivalence, equal paths hash alike, apply
   * alike to every source, and have the same property name.
   */
  lemma EqualsSound(table: seq<PathDecl>, x: Path, y: Path, z: Path)
    requires NamesUnique(table) && x.decl in table && y.decl in table && z.decl in table
    requires WellMade(x) && WellMade(y) && WellMade(z)
    ensures Equals(x, x)
    ensures Equals(x, y) ==> Equals(y, x)
    ensures Equals(x, y) && Equals(y, z) ==> Equals(x, z)
    ensures Equals(x, y) ==> Hash(x) == Hash(y) && PropertyName(x) == PropertyName(y)
    ensures Equals(x, y) ==> forall source :: Apply(x, source) == Apply(y, source)
  {
    if Equals(x, y) {
      SameDecl(table, x.decl, y.decl);
    }
    if Equals(y, z) {
      SameDecl(table, y.decl, z.decl);
    }
  }

  /** Two paths of one class are equal exactly when their property names are. */
  lemma EqualsIffPropertyName(x: Path, y: Path)
    requires x.decl == y.decl && WellMade(x) && WellMade(y)
    ensures Equals(x, y) <==> PropertyName(x) == PropertyName(y)
  {
    if x.IndexedAt? && PropertyName(x) == PropertyName(y) {
      var n := x.decl.attrName;
      var sx := Text.IntToString(x.index);
      var sy := Text.IntToString(y.index);
      var px := n + "[" + sx + "]";
      var py := n + "[" + sy + "]";
      assert px[|n| + 1..|px| - 1] == sx;
      assert py[|n| + 1..|py| - 1] == sy;
      Text.IntToStringRoundTrip(x.index);
      Text.IntToStringRoundTrip(y.index);
    }
  }
}
