/**
 * The semantic type language the resolver produces and every generator consumes,
 * and the node graph the generators read.
 */
module SemanticTypes {
  import opened Wrappers
  import Text

  /** `{kind, argument}` objects; a union keeps its member list in `argument` too. */
  datatype SemanticType =
    | Value(tag: string)
    | Enum(name: string)
    | Node(name: string)
    | NamedType(alias: string)
    | Nullable(argument: SemanticType)
    | List(argument: SemanticType)
    | Union(members: seq<SemanticType>)

  datatype Attribute = Attribute(name: string, typ: SemanticType, inherited: bool)

  /** A node of the interface graph after union elimination. */
  datatype NodeDecl = NodeDecl(parents: seq<string>, children: seq<string>, attributes: seq<Attribute>)

  /** `nodes` is a JavaScript Map; `order` is its insertion order. */
  datatype Graph = Graph(nodes: map<string, NodeDecl>, order: seq<string>)

  ghost predicate WellFormed(g: Graph)
  {
    Text.Distinct(g.order) && (forall k :: k in g.nodes <==> k in g.order)
  }

  /** No union and no reference to a named type anywhere inside. */
  predicate UnionFree(t: SemanticType)
  {
    match t
    case Union(_) => false
    case NamedType(_) => false
    case Nullable(a) => UnionFree(a)
    case List(a) => UnionFree(a)
    case _ => true
  }

  /** The type itself and every type reached through `argument` of a nullable or a list. */
  function Subterms(t: SemanticType): (r: set<SemanticType>)
    ensures t in r
  {
    match t
    case Nullable(a) => {t} + Subterms(a)
    case List(a) => {t} + Subterms(a)
    case _ => {t}
  }

  lemma {:induction false} SubtermsClosed(t: SemanticType, s: SemanticType)
    requires s in Subterms(t)
    ensures (s.Nullable? || s.List?) ==> s.argument in Subterms(t)
  {
    match t
    case Nullable(a) =>
      if s != t {
        SubtermsClosed(a, s);
      }
    case List(a) =>
      if s != t {
        SubtermsClosed(a, s);
      }
    case _ =>
  }

  lemma {:induction false} SubtermsUnionFree(t: SemanticType, s: SemanticType)
    requires UnionFree(t) && s in Subterms(t)
    ensures UnionFree(s)
  {
    match t
    case Nullable(a) =>
      if s != t {
        SubtermsUnionFree(a, s);
      }
    case List(a) =>
      if s != t {
        SubtermsUnionFree(a, s);
      }
    case _ =>
  }

  /** The type under all outer nullable wrappers. */
  function StripNullable(t: SemanticType): (r: SemanticType)
    ensures !r.Nullable?
    ensures UnionFree(t) ==> UnionFree(r)
  {
    if t.Nullable? then StripNullable(t.argument) else t
  }

  /** The type under all nullable and list wrappers. */
  function Innermost(t: SemanticType): (r: SemanticType)
    ensures !r.Nullable? && !r.List?
    ensures r in Subterms(t)
  {
    if t.Nullable? || t.List? then Innermost(t.argument) else t
  }

  /** The attributes of a node that are not inherited from a parent. */
  function OwnAttributes(attrs: seq<Attribute>): (r: seq<Attribute>)
    ensures forall a :: a in r <==> a in attrs && !a.inherited
    ensures |r| <= |attrs|
  {
    if attrs == [] then []
    else (if attrs[0].inherited then [] else [attrs[0]]) + OwnAttributes(attrs[1..])
  }

  /** What a template prints for an object: every type object is one. */
  const ObjectText := "[object Object]"

  /** `${t.argument}` in a template literal: a name, a tag, an object, or an array joined by commas. */
  function ArgText(t: SemanticType): string
  {
    match t
    case Value(tag) => tag
    case Enum(n) => n
    case Node(n) => n
    case NamedType(n) => n
    case Nullable(_) => ObjectText
    case List(_) => ObjectText
    case Union(ms) => ObjectsText(|ms|)
  }

  /** An array of `n` objects in a template: their texts joined by commas. */
  function ObjectsText(n: nat): string
  {
    if n == 0 then "" else if n == 1 then ObjectText else ObjectsText(n - 1) + "," + ObjectText
  }

  /** The shapes a resolved attribute type can take around a node. */
  predicate Shape(t: SemanticType)
    ensures Shape(t) ==> Innermost(t).Node?
  {
    match t
    case Node(_) => true
    case Nullable(Node(_)) => true
    case Nullable(List(Node(_))) => true
    case List(Node(_)) => true
    case List(Nullable(Node(_))) => true
    case _ => false
  }

  /** The names of the leaves (nodes with no children), sorted as `Array.from(nodes.keys()).sort()`. */
  function SortedLeaves(g: Graph): (r: seq<string>)
    requires WellFormed(g)
    ensures Text.Ordered(r) && Text.Distinct(r)
    ensures forall n :: n in r <==> n in g.nodes && g.nodes[n].children == []
  {
    Text.SortDistinct(g.order);
    LeavesOrdered(g, Text.Sort(g.order));
    LeavesAmong(g, Text.Sort(g.order))
  }

  /** The names in `names` whose node has no children, in the same order. */
  function LeavesAmong(g: Graph, names: seq<string>): (r: seq<string>)
    requires forall n <- names :: n in g.nodes
    ensures Text.Distinct(names) ==> Text.Distinct(r)
    ensures forall n :: n in r <==> n in names && g.nodes[n].children == []
    ensures |r| <= |names|
  {
    if names == [] then []
    else
      var n := names[|names| - 1];
      var rest := LeavesAmong(g, names[..|names| - 1]);
      if g.nodes[n].children == [] then
        assert Text.Distinct(names) ==> n !in names[..|names| - 1];
        if Text.Distinct(names) then
          Text.DistinctAppend(rest, n);
          rest + [n]
        else rest + [n]
      else
        rest
  }

  lemma {:induction false} LeavesOrdered(g: Graph, names: seq<string>)
    requires forall n <- names :: n in g.nodes
    requires Text.Ordered(names)
    ensures Text.Ordered(LeavesAmong(g, names))
  {
    if names != [] {
      var init := names[..|names| - 1];
      LeavesOrdered(g, init);
      var rest := LeavesAmong(g, init);
      var n := names[|names| - 1];
      if g.nodes[n].children == [] {
        forall i, j | 0 <= i < j < |rest + [n]|
          ensures !Text.Below((rest + [n])[j], (rest + [n])[i])
        {
          if j == |rest| {
            assert rest[i] in rest;
            assert rest[i] in init;
            var k :| 0 <= k < |init| && init[k] == rest[i];
            assert names[k] == rest[i];
          }
        }
      }
    }
  }
}
