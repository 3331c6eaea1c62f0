/**
 * `idlTypeToType`: turns a WebIDL type as parsed by webidl2 into a semantic type,
 * resolving names against the interfaces, value types, already-resolved typedefs
 * and enums, in that order of priority.
 */
module IdlResolution {
  import opened Wrappers
  import opened SemanticTypes

  /** The fields of a webidl2 type object that the resolver looks at. `arrayDepth` stands for `array` and is 0 when absent. */
  datatype IdlType = IdlType(
    sequence: bool,
    generic: bool,
    nullable: bool,
    arrayDepth: nat,
    union: bool,
    nullableArray: seq<bool>,
    idlType: IdlBody)

  /** `idlType` is a type name (a string) or, for a union, the array of member types. */
  datatype IdlBody = Named(name: string) | Members(members: seq<IdlType>)

  /** The names visible to the resolver: node names, resolved typedef names and enum names. */
  datatype Scope = Scope(nodes: set<string>, namedTypes: set<string>, enums: set<string>)

  /** `valueTypes`: the three WebIDL primitives the specification uses. */
  function ValueType(name: string): Option<SemanticType>
  {
    if name == "DOMString" then Some(Value("string"))
    else if name == "boolean" then Some(Value("boolean"))
    else if name == "double" then Some(Value("double"))
    else None
  }

  function ResolveName(sc: Scope, name: string): (r: Result<SemanticType>)
  {
    if name in sc.nodes then Success(Node(name))
    else if ValueType(name).Some? then Success(ValueType(name).value)
    else if name in sc.namedTypes then Success(NamedType(name))
    else if name in sc.enums then Success(Enum(name))
    else Failure("Unidentified type " + name)
  }

  predicate IsSimple(t: IdlType)
  {
    !t.sequence && !t.generic && !t.nullable && t.arrayDepth == 0 && !t.union && t.idlType.Named?
  }

  /** `t.nullableArray[0]`: an absent first entry reads as `undefined`, which is false. */
  predicate FirstNullable(t: IdlType)
  {
    |t.nullableArray| > 0 && t.nullableArray[0]
  }

  /** `members.map(idlTypeToType)`: the first member that fails makes the whole map fail. */
  function Collect(rs: seq<Result<SemanticType>>): (r: Result<seq<SemanticType>>)
    ensures r.Success? <==> forall k :: 0 <= k < |rs| ==> rs[k].Success?
    ensures r.Success? ==> |r.value| == |rs| && forall k :: 0 <= k < |rs| ==> r.value[k] == rs[k].value
  {
    if rs == [] then Success([])
    else
      match rs[0]
      case Failure(e) => Failure(e)
      case Success(v) =>
        match Collect(rs[1..])
        case Failure(e) => Failure(e)
        case Success(vs) => Success([v] + vs)
  }

  function ResolveMembers(sc: Scope, t: IdlType): (r: Result<seq<SemanticType>>)
    requires t.idlType.Members?
    decreases t, 0
  {
    var ms := t.idlType.members;
    Collect(seq(|ms|, k requires 0 <= k < |ms| => Resolve(sc, ms[k])))
  }

  function Resolve(sc: Scope, t: IdlType): (r: Result<SemanticType>)
    decreases t, 1
  {
    if IsSimple(t) then ResolveName(sc, t.idlType.name)
    else if t.nullable then
      if t.union then
        if t.sequence || t.generic || t.arrayDepth != 0 || !t.idlType.Members? then
          Failure("Complex nullable-union type")
        else
          match ResolveMembers(sc, t)
          case Failure(e) => Failure(e)
          case Success(ms) => Success(Nullable(Union(ms)))
      else if t.sequence || t.generic || t.arrayDepth != 0 || t.union || !t.idlType.Named? then
        Failure("Complex nullable type")
      else
        match ResolveName(sc, t.idlType.name)
        case Failure(e) => Failure(e)
        case Success(a) => Success(Nullable(a))
    else if t.arrayDepth == 1 then
      if t.union then
        if t.sequence || t.generic || t.nullable || !t.idlType.Members? then
          Failure("Complex array-of-union type")
        else
          match ResolveMembers(sc, t)
          case Failure(e) => Failure(e)
          case Success(ms) => Success(if FirstNullable(t) then List(Nullable(Union(ms))) else List(Union(ms)))
      else if t.sequence || t.generic || t.nullable || t.union || !t.idlType.Named? then
        Failure("Complex array type")
      else
        match ResolveName(sc, t.idlType.name)
        case Failure(e) => Failure(e)
        case Success(a) => Success(if FirstNullable(t) then List(Nullable(a)) else List(a))
    else if t.union then
      if t.sequence || t.generic || t.nullable || t.arrayDepth != 0 || !t.idlType.Members? then
        Failure("Complex union type")
      else
        match ResolveMembers(sc, t)
        case Failure(e) => Failure(e)
        case Success(ms) => Success(Union(ms))
    else Failure("Unsupported IDL type")
  }

  /*
   * ---------- What the resolver can produce, and the IDL that produces it ----------
   */

  /** A name resolves to `core` exactly when no higher-priority kind claims the name. */
  predicate NameFor(sc: Scope, core: SemanticType)
  {
    match core
    case Node(n) => n in sc.nodes
    case Value(tag) => (tag == "string" || tag == "boolean" || tag == "double") && NameOf(core) !in sc.nodes
    case NamedType(a) => a !in sc.nodes && ValueType(a).None? && a in sc.namedTypes
    case Enum(e) => e !in sc.nodes && ValueType(e).None? && e !in sc.namedTypes && e in sc.enums
    case _ => false
  }

  function NameOf(core: SemanticType): string
  {
    match core
    case Node(n) => n
    case Value(tag) => if tag == "string" then "DOMString" else tag
    case NamedType(a) => a
    case Enum(e) => e
    case _ => ""
  }

  /** A type written directly as a name or a union. */
  predicate Base(sc: Scope, t: SemanticType)
    decreases t, 0
  {
    NameFor(sc, t) || (t.Union? && forall k :: 0 <= k < |t.members| ==> Expressible(sc, t.members[k]))
  }

  /** The types IDL can spell: a base type, `T?`, `T[]` or `T?[]` over a base type. */
  predicate Expressible(sc: Scope, t: SemanticType)
    decreases t, 1
  {
    Base(sc, t)
    || (t.Nullable? && Base(sc, t.argument))
    || (t.List? && Base(sc, t.argument))
    || (t.List? && t.argument.Nullable? && Base(sc, t.argument.argument))
  }

  function Plain(body: IdlBody): IdlType
  {
    IdlType(false, false, false, 0, false, [], body)
  }

  function BaseBody(t: SemanticType): IdlBody
    decreases t, 0
  {
    if t.Union? then Members(seq(|t.members|, k requires 0 <= k < |t.members| => Unparse(t.members[k])))
    else Named(NameOf(t))
  }

  /** Writes a type back as webidl2 would parse it. */
  function Unparse(t: SemanticType): IdlType
    decreases t, 1
  {
    match t
    case Nullable(a) => IdlType(false, false, true, 0, a.Union?, [], BaseBody(a))
    case List(Nullable(a)) => IdlType(false, false, false, 1, a.Union?, [true], BaseBody(a))
    case List(a) => IdlType(false, false, false, 1, a.Union?, [false], BaseBody(a))
    case _ => IdlType(false, false, false, 0, t.Union?, [], BaseBody(t))
  }

  lemma NameRoundTrip(sc: Scope, core: SemanticType)
    requires NameFor(sc, core)
    ensures ResolveName(sc, NameOf(core)) == Success(core)
  {
  }

  lemma {:induction false} MembersRoundTrip(sc: Scope, t: SemanticType, u: IdlType)
    requires t.Union? && Base(sc, t)
    requires u.idlType == BaseBody(t)
    ensures ResolveMembers(sc, u) == Success(t.members)
    decreases t, 0
  {
    var ms := t.members;
    var us := u.idlType.members;
    forall k | 0 <= k < |ms|
      ensures Resolve(sc, us[k]) == Success(ms[k])
    {
      ResolveUnparse(sc, ms[k]);
    }
    var rs := seq(|us|, k requires 0 <= k < |us| => Resolve(sc, us[k]));
    assert forall k :: 0 <= k < |rs| ==> rs[k] == Success(ms[k]);
    assert ResolveMembers(sc, u) == Collect(rs);
    assert Collect(rs).value == ms;
  }

  /** Resolving the IDL spelling of an expressible type gives the type back. */
  lemma {:induction false} ResolveUnparse(sc: Scope, t: SemanticType)
    requires Expressible(sc, t)
    ensures Resolve(sc, Unparse(t)) == Success(t)
    decreases t, 1
  {
    var u := Unparse(t);
    var core := if t.Nullable? then t.argument
      else if t.List? && t.argument.Nullable? then t.argument.argument
      else if t.List? then t.argument
      else t;
    if t.Nullable? || t.List? {
      assert !Base(sc, t) by {
        assert !NameFor(sc, t);
      }
      if t.List? && t.argument.Nullable? {
        assert !Base(sc, t.argument) by {
          assert !NameFor(sc, t.argument);
        }
      }
    }
    assert Base(sc, core);
    if core.Union? {
      MembersRoundTrip(sc, core, u);
    } else {
      NameRoundTrip(sc, core);
    }
  }

  lemma {:induction false} MembersExpressible(sc: Scope, t: IdlType, ms: seq<SemanticType>)
    requires t.idlType.Members? && ResolveMembers(sc, t) == Success(ms)
    ensures forall k :: 0 <= k < |ms| ==> Expressible(sc, ms[k])
    decreases t, 0
  {
    var us := t.idlType.members;
    var rs := seq(|us|, k requires 0 <= k < |us| => Resolve(sc, us[k]));
    assert ResolveMembers(sc, t) == Collect(rs);
    forall k | 0 <= k < |ms|
      ensures Expressible(sc, ms[k])
    {
      assert rs[k] == Resolve(sc, us[k]);
      ResolvedExpressible(sc, us[k]);
    }
  }

  lemma NameResolvesToName(sc: Scope, name: string)
    requires ResolveName(sc, name).Success?
    ensures NameFor(sc, ResolveName(sc, name).value)
  {
  }

  /** Everything the resolver produces is expressible: the round trip covers all its results. */
  lemma {:induction false} ResolvedExpressible(sc: Scope, t: IdlType)
    requires Resolve(sc, t).Success?
    ensures Expressible(sc, Resolve(sc, t).value)
    decreases t, 1
  {
    if t.idlType.Members? && (t.union && (t.nullable || t.arrayDepth == 1 || (!t.sequence && !t.generic && t.arrayDepth == 0))) {
      MembersExpressible(sc, t, ResolveMembers(sc, t).value);
    } else if t.idlType.Named? {
      NameResolvesToName(sc, t.idlType.name);
    }
  }

  /** Sequences, generics and nested arrays are never supported. */
  lemma UnsupportedShapes(sc: Scope, t: IdlType)
    requires t.sequence || t.generic || t.arrayDepth >= 2
    ensures Resolve(sc, t).Failure?
  {
  }
}
