/**
 * `consume-spec`: reads the parsed WebIDL declarations into the node graph, the enums
 * and the typedefs, marks the leaves, resolves the typedefs and computes the
 * attribute list of every node.
 */
module SpecConsumer {
  import opened Wrappers
  import opened SemanticTypes
  import opened IdlResolution
  import AttributeSort
  import AttributeOrder
  import Text

  /** An interface member: its name and its webidl2 type. */
  datatype Member = Member(name: string, idlType: IdlType)

  /** The declaration kinds webidl2 reports; any other kind is `Unsupported`. */
  datatype Declaration =
    | Interface(name: string, inheritance: Option<string>, members: seq<Member>)
    | Implements(target: string, implements: string)
    | Typedef(name: string, idlType: IdlType)
    | EnumDecl(name: string, values: seq<string>)
    | Unsupported

  /*
   * ---------- The declaration loop ----------
   */

  /**
   * What the declaration loop has built: the `nodes` Map (its key order, and each
   * node's `parents`), `idlTypes`, `superTypes`, `namedTypesIDL` (with its key order)
   * and `enums`. Every node created by the loop has `isLeaf` true.
   */
  datatype Declared = Declared(
    nodeOrder: seq<string>,
    parents: map<string, seq<string>>,
    idlTypes: map<string, seq<Member>>,
    superTypes: set<string>,
    typedefOrder: seq<string>,
    namedTypesIDL: map<string, IdlType>,
    enums: map<string, seq<string>>)

  const NoDeclarations := Declared([], map[], map[], {}, [], map[], map[])

  /** The Maps' key orders list their keys once each, and every parent is recorded as a supertype. */
  ghost predicate DeclaredValid(st: Declared)
  {
    && Text.Distinct(st.nodeOrder)
    && (forall k :: k in st.parents <==> k in st.nodeOrder)
    && st.idlTypes.Keys == st.parents.Keys
    && Text.Distinct(st.typedefOrder)
    && (forall k :: k in st.namedTypesIDL <==> k in st.typedefOrder)
    && (forall k, p :: k in st.parents && p in st.parents[k] ==> p in st.superTypes)
  }

  /** One iteration of the declaration loop; a failure is the exception it throws. */
  function Declare(st: Declared, d: Declaration): (r: Result<Declared>)
  {
    match d
    case Interface(n, inh, ms) =>
      Success(st.(
        nodeOrder := if n in st.parents then st.nodeOrder else st.nodeOrder + [n],
        parents := st.parents[n := if inh.Some? then [inh.value] else []],
        idlTypes := st.idlTypes[n := ms],
        superTypes := if inh.Some? then st.superTypes + {inh.value} else st.superTypes))
    case Implements(t, p) =>
      if t !in st.parents then Failure("Cannot read property 'parents' of undefined")
      else Success(st.(parents := st.parents[t := st.parents[t] + [p]], superTypes := st.superTypes + {p}))
    case Typedef(n, t) =>
      if n in st.enums || n in st.namedTypesIDL then Failure("Attempting to redefine type " + n)
      else Success(st.(typedefOrder := st.typedefOrder + [n], namedTypesIDL := st.namedTypesIDL[n := t]))
    case EnumDecl(n, vs) =>
      if n in st.enums || n in st.namedTypesIDL then Failure("Attempting to redefine enum " + n)
      else Success(st.(enums := st.enums[n := vs]))
    case Unsupported => Failure("Unsupported type [object Object]")
  }

  /** The whole declaration loop over `ds`. */
  function DeclareAll(ds: seq<Declaration>): Result<Declared>
  {
    if ds == [] then Success(NoDeclarations)
    else
      match DeclareAll(ds[..|ds| - 1])
      case Failure(e) => Failure(e)
      case Success(st) => Declare(st, ds[|ds| - 1])
  }

  /** One step keeps the state well formed. */
  lemma DeclareValid(st: Declared, d: Declaration)
    requires DeclaredValid(st) && Declare(st, d).Success?
    ensures DeclaredValid(Declare(st, d).value)
  {
    match d
    case Interface(n, inh, ms) => InterfaceValid(st, n, inh, ms);
    case Implements(t, p) => ImplementsValid(st, t, p);
    case Typedef(n, t) => TypedefValid(st, n, t);
    case EnumDecl(n, vs) =>
  }

  lemma InterfaceValid(st: Declared, n: string, inh: Option<string>, ms: seq<Member>)
    requires DeclaredValid(st)
    ensures DeclaredValid(Declare(st, Interface(n, inh, ms)).value)
  {
    var r := Declare(st, Interface(n, inh, ms)).value;
    if n !in st.parents {
      Text.DistinctAppend(st.nodeOrder, n);
      assert r.nodeOrder == st.nodeOrder + [n];
    }
    assert r.parents.Keys == st.parents.Keys + {n};
    forall k, p | k in r.parents && p in r.parents[k]
      ensures p in r.superTypes
    {
      if k != n {
        assert p in st.parents[k];
      }
    }
  }

  lemma ImplementsValid(st: Declared, t: string, p: string)
    requires DeclaredValid(st) && Declare(st, Implements(t, p)).Success?
    ensures DeclaredValid(Declare(st, Implements(t, p)).value)
  {
    var r := Declare(st, Implements(t, p)).value;
    assert r.parents.Keys == st.parents.Keys;
    forall k, q | k in r.parents && q in r.parents[k]
      ensures q in r.superTypes
    {
      if k != t {
        assert q in st.parents[k];
      } else if q != p {
        assert q in st.parents[t] + [p];
        assert q in st.parents[t];
      }
    }
  }

  lemma TypedefValid(st: Declared, n: string, t: IdlType)
    requires DeclaredValid(st) && Declare(st, Typedef(n, t)).Success?
    ensures DeclaredValid(Declare(st, Typedef(n, t)).value)
  {
    Text.DistinctAppend(st.typedefOrder, n);
  }

  /** The loop's state is well formed after every prefix of the declarations. */
  lemma {:induction false} DeclareAllValid(ds: seq<Declaration>)
    requires DeclareAll(ds).Success?
    ensures DeclaredValid(DeclareAll(ds).value)
  {
    if ds != [] {
      DeclareAllValid(ds[..|ds| - 1]);
      DeclareValid(DeclareAll(ds[..|ds| - 1]).value, ds[|ds| - 1]);
    }
  }

  lemma DeclareAllSnoc(ds: seq<Declaration>, d: Declaration)
    ensures DeclareAll(ds + [d]) == (match DeclareAll(ds) case Failure(e) => Failure(e) case Success(st) => Declare(st, d))
  {
    assert (ds + [d])[..|ds|] == ds;
  }

  /** Once a prefix of the declarations fails, the whole loop fails. */
  lemma {:induction false} PrefixFailure(ds: seq<Declaration>, i: nat)
    requires i <= |ds| && DeclareAll(ds[..i]).Failure?
    ensures DeclareAll(ds).Failure?
    decreases |ds| - i
  {
    if i < |ds| {
      Text.TakeSnoc(ds, i);
      DeclareAllSnoc(ds[..i], ds[i]);
      PrefixFailure(ds, i + 1);
    } else {
      assert ds[..i] == ds;
    }
  }

  /** The names a declaration makes a supertype of some node. */
  function Mentioned(d: Declaration): set<string>
  {
    if d.Interface? && d.inheritance.Some? then {d.inheritance.value}
    else if d.Implements? then {d.implements}
    else {}
  }

  /** The names some declaration inherits from or implements. */
  function SuperTypeNames(ds: seq<Declaration>): set<string>
  {
    set i, n | 0 <= i < |ds| && n in Mentioned(ds[i]) :: n
  }

  /** The names of the declared interfaces. */
  function InterfaceNames(ds: seq<Declaration>): set<string>
  {
    set i | 0 <= i < |ds| && ds[i].Interface? :: ds[i].name
  }

  lemma NamesSnoc(ds: seq<Declaration>, d: Declaration)
    ensures InterfaceNames(ds + [d]) == InterfaceNames(ds) + (if d.Interface? then {d.name} else {})
    ensures SuperTypeNames(ds + [d]) == SuperTypeNames(ds) + Mentioned(d)
  {
    var ds' := ds + [d];
    assert forall i :: 0 <= i < |ds| ==> ds'[i] == ds[i];
    assert ds'[|ds|] == d;
    if d.Interface? {
      assert d.name in InterfaceNames(ds');
    }
    forall n | n in Mentioned(d)
      ensures n in SuperTypeNames(ds')
    {
      assert n in Mentioned(ds'[|ds|]);
    }
  }

  lemma DeclareNames(st: Declared, d: Declaration)
    requires Declare(st, d).Success?
    ensures Declare(st, d).value.parents.Keys == st.parents.Keys + (if d.Interface? then {d.name} else {})
    ensures Declare(st, d).value.superTypes == st.superTypes + Mentioned(d)
  {
    var r := Declare(st, d).value;
    match d
    case Interface(n, inh, ms) =>
      assert r.parents.Keys == st.parents.Keys + {n};
    case Implements(t, p) =>
      assert r.parents.Keys == st.parents.Keys;
    case Typedef(n, t) =>
    case EnumDecl(n, vs) =>
  }

  /**
   * After the loop, the nodes are exactly the declared interfaces and the supertypes
   * exactly the names that some interface inherits from or some `implements` names.
   */
  lemma {:induction false} DeclaredNames(ds: seq<Declaration>)
    requires DeclareAll(ds).Success?
    ensures DeclareAll(ds).value.parents.Keys == InterfaceNames(ds)
    ensures DeclareAll(ds).value.superTypes == SuperTypeNames(ds)
  {
    if ds != [] {
      var init, d := ds[..|ds| - 1], ds[|ds| - 1];
      assert ds == init + [d];
      DeclareAllSnoc(init, d);
      DeclaredNames(init);
      NamesSnoc(init, d);
      DeclareNames(DeclareAll(init).value, d);
    }
  }

  /** One step keeps every typedef and enum name and registers the one it declares. */
  lemma DeclareAliases(st: Declared, d: Declaration)
    requires Declare(st, d).Success?
    ensures st.namedTypesIDL.Keys + st.enums.Keys <= Declare(st, d).value.namedTypesIDL.Keys + Declare(st, d).value.enums.Keys
    ensures d.Typedef? || d.EnumDecl? ==> d.name in Declare(st, d).value.namedTypesIDL || d.name in Declare(st, d).value.enums
  {
  }

  /** Names the loop has registered as typedefs or enums. */
  lemma {:induction false} AliasesKept(ds: seq<Declaration>, i: nat)
    requires i < |ds| && DeclareAll(ds).Success?
    requires ds[i].Typedef? || ds[i].EnumDecl?
    ensures ds[i].name in DeclareAll(ds).value.namedTypesIDL || ds[i].name in DeclareAll(ds).value.enums
  {
    var init, d := ds[..|ds| - 1], ds[|ds| - 1];
    assert ds == init + [d];
    DeclareAllSnoc(init, d);
    DeclareAliases(DeclareAll(init).value, d);
    if i < |ds| - 1 {
      assert init[i] == ds[i];
      AliasesKept(init, i);
    }
  }

  /** A step that fails after a prefix that succeeds makes the whole loop fail. */
  lemma StepFailure(ds: seq<Declaration>, j: nat)
    requires j < |ds| && DeclareAll(ds[..j]).Success?
    requires Declare(DeclareAll(ds[..j]).value, ds[j]).Failure?
    ensures DeclareAll(ds).Failure?
  {
    Text.TakeSnoc(ds, j);
    DeclareAllSnoc(ds[..j], ds[j]);
    PrefixFailure(ds, j + 1);
  }

  /** A typedef or enum name declared twice, as either kind, makes the loop throw. */
  lemma RedefinitionFails(ds: seq<Declaration>, i: nat, j: nat)
    requires i < j < |ds|
    requires ds[i].Typedef? || ds[i].EnumDecl?
    requires ds[j].Typedef? || ds[j].EnumDecl?
    requires ds[i].name == ds[j].name
    ensures DeclareAll(ds).Failure?
  {
    var pre := ds[..j];
    if DeclareAll(pre).Failure? {
      PrefixFailure(ds, j);
    } else {
      assert pre[i] == ds[i];
      AliasesKept(pre, i);
      StepFailure(ds, j);
    }
  }

  /** A name that no interface declaration carries is not a node after the loop. */
  lemma NotDeclaredYet(pre: seq<Declaration>, t: string)
    requires DeclareAll(pre).Success?
    requires forall i :: 0 <= i < |pre| ==> !(pre[i].Interface? && pre[i].name == t)
    ensures t !in DeclareAll(pre).value.parents
  {
    DeclaredNames(pre);
    assert t !in InterfaceNames(pre);
  }

  /** An `implements` whose target is not yet declared makes the loop throw. */
  lemma ImplementsBeforeInterfaceFails(ds: seq<Declaration>, j: nat)
    requires j < |ds| && ds[j].Implements?
    requires forall i :: 0 <= i < j ==> !(ds[i].Interface? && ds[i].name == ds[j].target)
    ensures DeclareAll(ds).Failure?
  {
    var pre := ds[..j];
    if DeclareAll(pre).Failure? {
      PrefixFailure(ds, j);
    } else {
      forall i | 0 <= i < |pre|
        ensures !(pre[i].Interface? && pre[i].name == ds[j].target)
      {
        assert pre[i] == ds[i];
      }
      NotDeclaredYet(pre, ds[j].target);
      StepFailure(ds, j);
    }
  }

  /*
   * ---------- Typedef resolution ----------
   */

  /** The scope the `i`-th typedef is resolved in: every node, the typedefs before it, every enum. */
  function TypedefScope(st: Declared, i: nat): Scope
    requires i <= |st.typedefOrder|
  {
    Scope(st.parents.Keys, Text.Elements(st.typedefOrder[..i]), st.enums.Keys)
  }

  /** What the typedef pass needs of the declarations: each typedef listed once, with its IDL type. */
  predicate TypedefsListed(st: Declared)
  {
    Text.Distinct(st.typedefOrder) && forall k <- st.typedefOrder :: k in st.namedTypesIDL
  }

  /**
   * `namedTypes` after the first `i` typedefs: each resolved, in declaration order, in a
   * scope whose typedef names are those already resolved.
   */
  function ResolveTypedefsUpTo(st: Declared, i: nat): Result<map<string, SemanticType>>
    requires i <= |st.typedefOrder| && TypedefsListed(st)
  {
    if i == 0 then Success(map[])
    else
      var prev :- ResolveTypedefsUpTo(st, i - 1);
      var n := st.typedefOrder[i - 1];
      var t :- Resolve(Scope(st.parents.Keys, prev.Keys, st.enums.Keys), st.namedTypesIDL[n]);
      Success(prev[n := t])
  }

  /** The typedef pass defines exactly the typedefs it has gone through. */
  lemma {:induction false} TypedefsResolvedKeys(st: Declared, i: nat)
    requires i <= |st.typedefOrder| && TypedefsListed(st)
    requires ResolveTypedefsUpTo(st, i).Success?
    ensures ResolveTypedefsUpTo(st, i).value.Keys == Text.Elements(st.typedefOrder[..i])
  {
    if i > 0 {
      TypedefsResolvedKeys(st, i - 1);
      var n := st.typedefOrder[i - 1];
      var prev := ResolveTypedefsUpTo(st, i - 1).value;
      var t := Resolve(Scope(st.parents.Keys, prev.Keys, st.enums.Keys), st.namedTypesIDL[n]);
      assert ResolveTypedefsUpTo(st, i).value == prev[n := t.value];
      assert st.typedefOrder[..i] == st.typedefOrder[..i - 1] + [n];
      assert Text.Elements(st.typedefOrder[..i]) == Text.Elements(st.typedefOrder[..i - 1]) + {n};
    }
  }

  /** One step of the typedef pass: the `i`-th typedef is resolved in `TypedefScope(st, i)`. */
  lemma TypedefStep(st: Declared, i: nat)
    requires i < |st.typedefOrder| && TypedefsListed(st)
    requires ResolveTypedefsUpTo(st, i).Success?
    ensures ResolveTypedefsUpTo(st, i + 1) ==
      (var t := Resolve(TypedefScope(st, i), st.namedTypesIDL[st.typedefOrder[i]]);
       if t.Failure? then Failure(t.error) else Success(ResolveTypedefsUpTo(st, i).value[st.typedefOrder[i] := t.value]))
  {
    TypedefsResolvedKeys(st, i);
  }

  /**
   * The typedef pass succeeds exactly when every typedef resolves in the scope of the
   * typedefs declared before it.
   */
  lemma {:induction false} TypedefsResolvedExactly(st: Declared, i: nat)
    requires i <= |st.typedefOrder| && TypedefsListed(st)
    ensures ResolveTypedefsUpTo(st, i).Success? <==>
      forall j :: 0 <= j < i ==> Resolve(TypedefScope(st, j), st.namedTypesIDL[st.typedefOrder[j]]).Success?
  {
    if i > 0 {
      TypedefsResolvedExactly(st, i - 1);
      if ResolveTypedefsUpTo(st, i - 1).Success? {
        TypedefStep(st, i - 1);
      }
    }
  }

  /** After the typedef pass, each typedef is mapped to its resolution in its own scope. */
  lemma {:induction false} TypedefsResolvedValues(st: Declared, i: nat, j: nat)
    requires j < i <= |st.typedefOrder| && TypedefsListed(st)
    requires ResolveTypedefsUpTo(st, i).Success?
    ensures st.typedefOrder[j] in ResolveTypedefsUpTo(st, i).value
    ensures Resolve(TypedefScope(st, j), st.namedTypesIDL[st.typedefOrder[j]]) == Success(ResolveTypedefsUpTo(st, i).value[st.typedefOrder[j]])
  {
    TypedefStep(st, i - 1);
    if j < i - 1 {
      TypedefsResolvedValues(st, i - 1, j);
      assert st.typedefOrder[j] != st.typedefOrder[i - 1];
    }
  }

  /**
   * A typedef that is written as the bare name of itself or of a typedef declared after
   * it, where that name is no node, value type or enum, cannot be resolved.
   */
  lemma ForwardReferenceFails(st: Declared, i: nat, j: nat)
    requires TypedefsListed(st)
    requires i <= j < |st.typedefOrder|
    requires st.typedefOrder[j] !in st.parents && ValueType(st.typedefOrder[j]).None? && st.typedefOrder[j] !in st.enums
    ensures Resolve(TypedefScope(st, i), Plain(Named(st.typedefOrder[j]))).Failure?
  {
    forall k | 0 <= k < i
      ensures st.typedefOrder[..i][k] != st.typedefOrder[j]
    {
      assert st.typedefOrder[..i][k] == st.typedefOrder[k];
    }
  }

  /*
   * ---------- Attributes ----------
   */

  /** `members.filter(t => t.name !== 'type')`. */
  function OwnMembers(ms: seq<Member>): (r: seq<Member>)
    ensures forall m :: m in r <==> m in ms && m.name != "type"
    ensures |r| <= |ms|
  {
    if ms == [] then []
    else (if ms[0].name == "type" then [] else [ms[0]]) + OwnMembers(ms[1..])
  }

  /** `map(t => ({name: t.name, type: idlTypeToType(t.idlType), inherited: false}))`, failing at the first member that does not resolve. */
  function ResolveMembers(sc: Scope, own: seq<Member>): (r: Result<seq<Attribute>>)
    ensures r.Success? <==> forall m <- own :: Resolve(sc, m.idlType).Success?
    ensures r.Success? ==> |r.value| == |own| && forall i :: 0 <= i < |own| ==>
      r.value[i].name == own[i].name && !r.value[i].inherited && Resolve(sc, own[i].idlType) == Success(r.value[i].typ)
  {
    if own == [] then Success([])
    else
      assert forall m <- own :: m == own[0] || m in own[1..];
      match Resolve(sc, own[0].idlType)
      case Failure(e) => Failure(e)
      case Success(t) =>
        var rest :- ResolveMembers(sc, own[1..]);
        Success([Attribute(own[0].name, t, false)] + rest)
  }

  /**
   * The own members of an interface except one named `type`, resolved, flagged not inherited:
   * one attribute per such member, in member order.
   */
  function DeclaredAttributes(sc: Scope, ms: seq<Member>): (r: Result<seq<Attribute>>)
    ensures r.Success? <==> forall m <- ms :: m.name != "type" ==> Resolve(sc, m.idlType).Success?
    ensures r.Success? ==> forall a <- r.value ::
      (!a.inherited && a.name != "type" && exists m <- ms :: m.name == a.name && Resolve(sc, m.idlType) == Success(a.typ))
    ensures r.Success? ==> |r.value| == |OwnMembers(ms)|
    ensures r.Success? ==> forall i :: 0 <= i < |r.value| ==>
      r.value[i].name == OwnMembers(ms)[i].name && !r.value[i].inherited
      && Resolve(sc, OwnMembers(ms)[i].idlType) == Success(r.value[i].typ)
  {
    var own := OwnMembers(ms);
    var r := ResolveMembers(sc, own);
    if r.Success? then
      forall a <- r.value
        ensures !a.inherited && a.name != "type" && exists m <- ms :: m.name == a.name && Resolve(sc, m.idlType) == Success(a.typ)
      {
        var i :| 0 <= i < |r.value| && r.value[i] == a;
        assert own[i] in own;
      }
      r
    else
      r
  }

  /** A parent's attributes as copied into a child: same name and type, flagged inherited. */
  function Inherit(xs: seq<Attribute>): seq<Attribute>
  {
    seq(|xs|, k requires 0 <= k < |xs| => xs[k].(inherited := true))
  }

  /** The inherited part of an attribute list: the parents' lists in parent order. */
  function InheritedFrom(attrs: map<string, seq<Attribute>>, ps: seq<string>): seq<Attribute>
    requires forall p <- ps :: p in attrs
  {
    if ps == [] then []
    else
      var init := ps[..|ps| - 1];
      var p := ps[|ps| - 1];
      assert forall q <- init :: q in ps;
      InheritedFrom(attrs, init) + Inherit(attrs[p])
  }

  /** Only the lists of the given parents matter. */
  lemma {:induction false} InheritedFromFrame(a: map<string, seq<Attribute>>, b: map<string, seq<Attribute>>, ps: seq<string>)
    requires forall p <- ps :: p in a && p in b && a[p] == b[p]
    ensures InheritedFrom(a, ps) == InheritedFrom(b, ps)
  {
    if ps != [] {
      InheritedFromFrame(a, b, ps[..|ps| - 1]);
    }
  }

  lemma InheritedFromSnoc(a: map<string, seq<Attribute>>, ps: seq<string>, p: string)
    requires forall q <- ps :: q in a
    requires p in a
    ensures InheritedFrom(a, ps + [p]) == InheritedFrom(a, ps) + Inherit(a[p])
  {
    assert (ps + [p])[..|ps|] == ps;
  }

  /**
   * The sort at the end of `setAttrs`. With fewer than two attributes the comparator is
   * never called, so a missing order section only fails for two or more.
   */
  function Arrange(order: Option<seq<string>>, xs: seq<Attribute>): (r: Result<seq<Attribute>>)
    ensures r.Success? <==> |xs| < 2 || order.Some?
    ensures r.Success? ==> multiset(r.value) == multiset(xs)
    ensures r.Success? && order.Some? ==> AttributeSort.SortedBy(order.value, r.value)
  {
    if |xs| < 2 then
      if order.Some? then Success(AttributeSort.SortByOrder(order.value, xs)) else Success(xs)
    else if order.None? then Failure("Cannot read property 'indexOf' of undefined")
    else Success(AttributeSort.SortByOrder(order.value, xs))
  }

  /** What `setAttrs` does not change: the graph, the member lists, the scope and the order sections. */
  datatype Env = Env(parents: map<string, seq<string>>, idlTypes: map<string, seq<Member>>, scope: Scope, attrOrders: map<string, seq<string>>)

  /** The attribute list `setAttrs(k)` computes from the current lists of `k`'s parents. */
  function Expected(env: Env, attrs: map<string, seq<Attribute>>, k: string): Result<seq<Attribute>>
    requires k in env.parents && k in env.idlTypes
    requires forall p <- env.parents[k] :: p in attrs
  {
    var own :- DeclaredAttributes(env.scope, env.idlTypes[k]);
    Arrange(if k in env.attrOrders then Some(env.attrOrders[k]) else None, InheritedFrom(attrs, env.parents[k]) + own)
  }

  /**
   * Enough for `setAttrs` to succeed on every node: its own members resolve, and it has an
   * order section unless it has no parents and fewer than two own members, so that the sort
   * never calls its comparator.
   */
  predicate Attributable(env: Env)
  {
    forall k <- env.parents ::
      && k in env.idlTypes
      && DeclaredAttributes(env.scope, env.idlTypes[k]).Success?
      && (k in env.attrOrders || (env.parents[k] == [] && |OwnMembers(env.idlTypes[k])| < 2))
  }

  /*
   * ---------- Cycles in the parent graph ----------
   */

  /** Each name in `path` after the first is a parent of the one before it. */
  ghost predicate ParentPath(parents: map<string, seq<string>>, path: seq<string>)
    decreases |path|
  {
    |path| < 2 || (path[0] in parents && path[1] in parents[path[0]] && ParentPath(parents, path[1..]))
  }

  /** `path` leads from `n` back to `n` through at least one parent edge. */
  ghost predicate IsCycle(parents: map<string, seq<string>>, n: string, path: seq<string>)
  {
    |path| >= 2 && path[0] == n && path[|path| - 1] == n && ParentPath(parents, path)
  }

  /** `n` is its own ancestor. */
  ghost predicate OnCycle(parents: map<string, seq<string>>, n: string)
  {
    exists path :: IsCycle(parents, n, path)
  }

  /**
   * The chain of `setAttrs` calls in progress: each one working on a parent of the one
   * below it, and `name`, the node being entered, a parent of the topmost.
   */
  ghost predicate Chain(parents: map<string, seq<string>>, stack: seq<string>, name: string)
  {
    ParentPath(parents, stack + [name])
  }

  /** The part of a chain from position `j` on, closed by `name`, is a parent path. */
  lemma {:induction false} ChainSuffix(parents: map<string, seq<string>>, stack: seq<string>, name: string, j: nat)
    requires Chain(parents, stack, name) && j <= |stack|
    ensures ParentPath(parents, stack[j..] + [name])
  {
    if j > 0 {
      var s := stack[j - 1..] + [name];
      ChainSuffix(parents, stack, name, j - 1);
      assert s[1..] == stack[j..] + [name];
    }
  }

  /** A parent path extended by a parent of its last name. */
  lemma {:induction false} ParentPathSnoc(parents: map<string, seq<string>>, path: seq<string>, x: string)
    requires ParentPath(parents, path) && |path| > 0
    requires path[|path| - 1] in parents && x in parents[path[|path| - 1]]
    ensures ParentPath(parents, path + [x])
    decreases |path|
  {
    if |path| > 1 {
      ParentPathSnoc(parents, path[1..], x);
      assert (path + [x])[1..] == path[1..] + [x];
    }
  }

  /** Entering a parent of `name` extends the chain of calls by `name`. */
  lemma ChainPush(parents: map<string, seq<string>>, stack: seq<string>, name: string, p: string)
    requires Chain(parents, stack, name) && name in parents && p in parents[name]
    ensures Chain(parents, stack + [name], p)
  {
    ParentPathSnoc(parents, stack + [name], p);
  }

  /** Meeting a call in progress while visiting a parent of `name` means `name` is on a cycle. */
  lemma CycleThroughChain(parents: map<string, seq<string>>, stack: seq<string>, name: string, p: string)
    requires Chain(parents, stack, name) && name in parents
    requires p in parents[name] && p in stack + [name]
    ensures OnCycle(parents, name)
  {
    var j :| 0 <= j <= |stack| && (stack + [name])[j] == p;
    ChainSuffix(parents, stack, name, j);
    var tail := stack[j..] + [name];
    var path := [name] + tail;
    assert path[1..] == tail && tail[0] == p;
    assert IsCycle(parents, name, path);
  }

  /** A node whose `setAttrs` has returned. */
  ghost predicate Complete(attrs: map<string, seq<Attribute>>, stack: seq<string>, k: string)
  {
    k in attrs && k !in stack
  }

  /**
   * If `k` is complete and not its own ancestor, its parents are complete and it holds
   * exactly the list `setAttrs` computes from theirs.
   */
  ghost predicate SettledAt(env: Env, attrs: map<string, seq<Attribute>>, stack: seq<string>, k: string)
  {
    k in env.parents && Complete(attrs, stack, k) && !OnCycle(env.parents, k) ==>
      && k in env.idlTypes
      && (forall p <- env.parents[k] :: Complete(attrs, stack, p))
      && Expected(env, attrs, k) == Success(attrs[k])
  }

  ghost predicate Settled(env: Env, attrs: map<string, seq<Attribute>>, stack: seq<string>)
  {
    forall k :: SettledAt(env, attrs, stack, k)
  }

  /** Writing the list of a node in progress disturbs no completed node. */
  lemma SettledAfterWrite(env: Env, attrs: map<string, seq<Attribute>>, stack: seq<string>, n: string, v: seq<Attribute>)
    requires Settled(env, attrs, stack) && n in stack
    ensures Settled(env, attrs[n := v], stack)
  {
    var attrs' := attrs[n := v];
    forall k
      ensures SettledAt(env, attrs', stack, k)
    {
      assert SettledAt(env, attrs, stack, k);
      if k in env.parents && Complete(attrs', stack, k) && !OnCycle(env.parents, k) {
        InheritedFromFrame(attrs, attrs', env.parents[k]);
      }
    }
  }

  /** Entering `setAttrs(n)` for a node without a list, and giving it an empty one. */
  lemma SettledAfterPush(env: Env, attrs: map<string, seq<Attribute>>, stack: seq<string>, n: string)
    requires Settled(env, attrs, stack) && n !in attrs
    ensures Settled(env, attrs[n := []], stack + [n])
  {
    var attrs' := attrs[n := []];
    forall k
      ensures SettledAt(env, attrs', stack + [n], k)
    {
      assert SettledAt(env, attrs, stack, k);
      if k in env.parents && Complete(attrs', stack + [n], k) && !OnCycle(env.parents, k) {
        assert Complete(attrs, stack, k);
        forall p <- env.parents[k]
          ensures Complete(attrs', stack + [n], p)
        {
          assert Complete(attrs, stack, p);
        }
        InheritedFromFrame(attrs, attrs', env.parents[k]);
      }
    }
  }

  /** Leaving `setAttrs(n)`: `n` is complete, and settled unless it is its own ancestor. */
  lemma SettledAfterPop(env: Env, attrs: map<string, seq<Attribute>>, stack: seq<string>, n: string)
    requires Settled(env, attrs, stack + [n]) && n in attrs && n !in stack
    requires SettledAt(env, attrs, stack, n)
    ensures Settled(env, attrs, stack)
  {
    forall k
      ensures SettledAt(env, attrs, stack, k)
    {
      if k != n {
        assert SettledAt(env, attrs, stack + [n], k);
      }
    }
  }

  /** Every parent named in the graph is itself a node. */
  ghost predicate Linked(parents: map<string, seq<string>>)
  {
    forall k <- parents, p <- parents[k] :: p in parents
  }

  /**
   * Inside `setAttrs(name)` after its first `i` parents: those parents are complete, and
   * unless `name` is its own ancestor none of them is a call in progress and the list
   * written so far, `acc`, is what they pass on.
   */
  ghost predicate Gathered(env: Env, attrs: map<string, seq<Attribute>>, stack: seq<string>, name: string, i: nat, acc: seq<Attribute>)
  {
    && name in env.parents && i <= |env.parents[name]|
    && name in attrs && attrs[name] == acc
    && (forall p <- env.parents[name][..i] :: p in attrs)
    && (!OnCycle(env.parents, name) ==>
          && (forall p <- env.parents[name][..i] :: p !in stack + [name])
          && acc == InheritedFrom(attrs, env.parents[name][..i]))
    && Settled(env, attrs, stack + [name])
  }

  /** Every list in `a` is still in `b`, unchanged unless it is the list of `n`. */
  ghost predicate Kept(a: map<string, seq<Attribute>>, b: map<string, seq<Attribute>>, n: string)
  {
    forall k <- a :: k in b && (k != n ==> b[k] == a[k])
  }

  /** Visiting parent `i` and appending its inherited list keeps `Gathered`. */
  lemma ParentGathered(env: Env, before: map<string, seq<Attribute>>, after: map<string, seq<Attribute>>, stack: seq<string>, name: string, i: nat, acc: seq<Attribute>)
    requires Gathered(env, before, stack, name, i, acc) && i < |env.parents[name]|
    requires Chain(env.parents, stack, name)
    requires forall k <- before :: k in after && after[k] == before[k]
    requires env.parents[name][i] in after && Settled(env, after, stack + [name])
    ensures Gathered(env, after[name := acc + Inherit(after[env.parents[name][i]])], stack, name, i + 1,
                     acc + Inherit(after[env.parents[name][i]]))
  {
    var ps := env.parents[name];
    var p := ps[i];
    var acc' := acc + Inherit(after[p]);
    var attrs := after[name := acc'];
    assert ps[..i + 1] == ps[..i] + [p];
    if !OnCycle(env.parents, name) {
      if p in stack + [name] {
        CycleThroughChain(env.parents, stack, name, p);
      }
      InheritedFromFrame(before, after, ps[..i]);
      InheritedFromSnoc(after, ps[..i], p);
      InheritedFromFrame(after, attrs, ps[..i + 1]);
    }
    SettledAfterWrite(env, after, stack + [name], name, acc');
  }

  /** The last write of `setAttrs(name)`, the sorted list, settles `name` and ends its call. */
  lemma NameSettled(env: Env, attrs: map<string, seq<Attribute>>, stack: seq<string>, name: string, acc: seq<Attribute>, own: seq<Attribute>, v: seq<Attribute>)
    requires name in env.parents && name in env.idlTypes && name !in stack
    requires Gathered(env, attrs, stack, name, |env.parents[name]|, acc)
    requires DeclaredAttributes(env.scope, env.idlTypes[name]) == Success(own)
    requires Arrange(if name in env.attrOrders then Some(env.attrOrders[name]) else None, acc + own) == Success(v)
    ensures Settled(env, attrs[name := v], stack)
  {
    var ps := env.parents[name];
    var attrs' := attrs[name := v];
    assert ps[..|ps|] == ps;
    SettledAfterWrite(env, attrs, stack + [name], name, v);
    if !OnCycle(env.parents, name) {
      InheritedFromFrame(attrs, attrs', ps);
    }
    assert SettledAt(env, attrs', stack, name);
    SettledAfterPop(env, attrs', stack, name);
  }

  /*
   * ---------- The consumer's state ----------
   */

  /** The module-level Maps and Sets of `consume-spec`, filled step by step. */
  class Consumer {
    var nodeOrder: seq<string>
    var parents: map<string, seq<string>>
    var isLeaf: map<string, bool>
    var attributes: map<string, seq<Attribute>>
    var idlTypes: map<string, seq<Member>>
    var superTypes: set<string>
    var typedefOrder: seq<string>
    var namedTypesIDL: map<string, IdlType>
    var namedTypes: map<string, SemanticType>
    var enums: map<string, seq<string>>
    const attrOrders: map<string, seq<string>>

    /** The declaration-loop part of the state. */
    function Declarations(): Declared
      reads this`nodeOrder, this`parents, this`idlTypes, this`superTypes, this`typedefOrder, this`namedTypesIDL, this`enums
    {
      Declared(nodeOrder, parents, idlTypes, superTypes, typedefOrder, namedTypesIDL, enums)
    }

    /** What `setAttrs` reads and does not change. */
    function Environment(): Env
      reads this`parents, this`idlTypes, this`namedTypes, this`enums
    {
      Env(parents, idlTypes, Scope(parents.Keys, namedTypes.Keys, enums.Keys), attrOrders)
    }

    constructor (attrOrders: map<string, seq<string>>)
      ensures Declarations() == NoDeclarations
      ensures isLeaf == map[] && attributes == map[] && namedTypes == map[] && this.attrOrders == attrOrders
    {
      nodeOrder, parents, isLeaf, attributes, idlTypes := [], map[], map[], map[], map[];
      superTypes, typedefOrder, namedTypesIDL, namedTypes, enums := {}, [], map[], map[], map[];
      this.attrOrders := attrOrders;
    }

    /** `inherits`: appends a parent to a declared node; an undeclared node makes it throw. */
    method Inherits(t: string, p: string) returns (r: Result<()>)
      modifies this`parents
      ensures r.Success? <==> t in old(parents)
      ensures parents == if r.Success? then old(parents)[t := old(parents)[t] + [p]] else old(parents)
    {
      if t !in parents {
        return Failure("Cannot read property 'parents' of undefined");
      }
      parents := parents[t := parents[t] + [p]];
      return Success(());
    }

    /** `addNamedType`: a name already used by a typedef or an enum makes it throw. */
    method AddNamedType(n: string, t: IdlType) returns (r: Result<()>)
      modifies this`typedefOrder, this`namedTypesIDL
      ensures r.Success? <==> Declare(old(Declarations()), Typedef(n, t)).Success?
      ensures r.Success? ==> Declarations() == Declare(old(Declarations()), Typedef(n, t)).value
    {
      if n in enums || n in namedTypesIDL {
        return Failure("Attempting to redefine type " + n);
      }
      typedefOrder := typedefOrder + [n];
      namedTypesIDL := namedTypesIDL[n := t];
      return Success(());
    }

    /** `addEnum`: a name already used by a typedef or an enum makes it throw. */
    method AddEnum(n: string, vs: seq<string>) returns (r: Result<()>)
      modifies this`enums
      ensures r.Success? <==> Declare(old(Declarations()), EnumDecl(n, vs)).Success?
      ensures r.Success? ==> Declarations() == Declare(old(Declarations()), EnumDecl(n, vs)).value
    {
      if n in enums || n in namedTypesIDL {
        return Failure("Attempting to redefine enum " + n);
      }
      enums := enums[n := vs];
      return Success(());
    }

    /** `nodes.set(n, {isLeaf: true, parents: []})` and `idlTypes.set(n, members)`. */
    method AddNode(n: string, ms: seq<Member>)
      modifies this`nodeOrder, this`parents, this`isLeaf, this`idlTypes
      ensures nodeOrder == if n in old(parents) then old(nodeOrder) else old(nodeOrder) + [n]
      ensures parents == old(parents)[n := []] && isLeaf == old(isLeaf)[n := true]
      ensures idlTypes == old(idlTypes)[n := ms]
    {
      idlTypes := idlTypes[n := ms];
      if n !in parents {
        nodeOrder := nodeOrder + [n];
      }
      parents := parents[n := []];
      isLeaf := isLeaf[n := true];
    }

    /** Every node has a leaf flag, and every flag is still `true`. */
    predicate FreshLeaves()
      reads this`isLeaf, this`parents
    {
      isLeaf.Keys == parents.Keys && forall k <- isLeaf :: isLeaf[k]
    }

    /** An interface declaration: a fresh leaf node, replacing any node of that name. */
    method DeclareInterface(n: string, inh: Option<string>, ms: seq<Member>)
      modifies this`nodeOrder, this`parents, this`isLeaf, this`idlTypes, this`superTypes
      requires FreshLeaves()
      ensures Declarations() == Declare(old(Declarations()), Interface(n, inh, ms)).value
      ensures isLeaf == old(isLeaf)[n := true] && FreshLeaves()
    {
      ghost var expected := Declare(Declarations(), Interface(n, inh, ms)).value;
      AddNode(n, ms);
      if inh.Some? {
        var r := Inherits(n, inh.value);
        assert [] + [inh.value] == [inh.value];
        superTypes := superTypes + {inh.value};
      }
      assert nodeOrder == expected.nodeOrder && parents == expected.parents;
      assert idlTypes == expected.idlTypes && superTypes == expected.superTypes;
    }

    /** An `implements` declaration: one more parent for an existing node. */
    method DeclareImplements(t: string, p: string) returns (r: Result<()>)
      modifies this`parents, this`superTypes
      ensures r.Success? <==> Declare(old(Declarations()), Implements(t, p)).Success?
      ensures r.Success? ==> Declarations() == Declare(old(Declarations()), Implements(t, p)).value
      ensures parents.Keys == old(parents).Keys
    {
      r := Inherits(t, p);
      if r.Success? {
        superTypes := superTypes + {p};
      }
    }

    /** The body of the declaration loop for one declaration. */
    method DeclareOne(d: Declaration) returns (r: Result<()>)
      modifies this`nodeOrder, this`parents, this`isLeaf, this`idlTypes, this`superTypes, this`typedefOrder, this`namedTypesIDL, this`enums
      ensures r.Success? <==> Declare(old(Declarations()), d).Success?
      ensures r.Success? ==> Declarations() == Declare(old(Declarations()), d).value
      requires FreshLeaves()
      ensures FreshLeaves()
    {
      match d {
        case Interface(n, inh, ms) =>
          DeclareInterface(n, inh, ms);
          r := Success(());
        case Implements(t, p) =>
          r := DeclareImplements(t, p);
        case Typedef(n, t) =>
          r := AddNamedType(n, t);
        case EnumDecl(n, vs) =>
          r := AddEnum(n, vs);
        case Unsupported =>
          r := Failure("Unsupported type [object Object]");
      }
    }

    /** The `for (let type of Spec)` loop. */
    method ReadDeclarations(ds: seq<Declaration>) returns (r: Result<()>)
      requires Declarations() == NoDeclarations && isLeaf == map[]
      modifies this`nodeOrder, this`parents, this`isLeaf, this`idlTypes, this`superTypes, this`typedefOrder, this`namedTypesIDL, this`enums
      ensures r.Success? <==> DeclareAll(ds).Success?
      ensures r.Success? ==> Declarations() == DeclareAll(ds).value
      ensures r.Success? ==> FreshLeaves()
    {
      var i := 0;
      while i < |ds|
        invariant 0 <= i <= |ds|
        invariant DeclareAll(ds[..i]) == Success(Declarations())
        invariant FreshLeaves()
      {
        Text.TakeSnoc(ds, i);
        DeclareAllSnoc(ds[..i], ds[i]);
        var step := DeclareOne(ds[i]);
        if step.Failure? {
          PrefixFailure(ds, i + 1);
          return step;
        }
        i := i + 1;
      }
      assert ds[..i] == ds;
      return Success(());
    }

    /** `superTypes.forEach(t => nodes.get(t).isLeaf = false)`: throws on a supertype that is no node. */
    method MarkLeaves() returns (r: Result<()>)
      requires isLeaf.Keys == parents.Keys
      modifies this`isLeaf
      ensures r.Success? <==> superTypes <= parents.Keys
      ensures r.Success? ==> isLeaf == map k | k in parents :: k !in superTypes
    {
      var todo := superTypes;
      var leaf := map k | k in parents :: true;
      while todo != {}
        invariant todo <= superTypes
        invariant superTypes - todo <= parents.Keys
        invariant leaf == map k | k in parents :: k !in superTypes - todo
        decreases |todo|
      {
        var t :| t in todo;
        if t !in parents {
          return Failure("Cannot set property 'isLeaf' of undefined");
        }
        leaf := leaf[t := false];
        todo := todo - {t};
      }
      isLeaf := leaf;
      return Success(());
    }

    /** `namedTypesIDL.forEach((v, k) => namedTypes.set(k, idlTypeToType(v)))`. */
    method ResolveTypedefs() returns (r: Result<()>)
      requires TypedefsListed(Declarations()) && namedTypes == map[]
      modifies this`namedTypes
      ensures r.Success? <==> ResolveTypedefsUpTo(Declarations(), |typedefOrder|).Success?
      ensures r.Success? ==> ResolveTypedefsUpTo(Declarations(), |typedefOrder|) == Success(namedTypes)
    {
      ghost var st := Declarations();
      var order, idl, nodes, enumNames := typedefOrder, namedTypesIDL, parents.Keys, enums.Keys;
      var resolved: map<string, SemanticType> := map[];
      var i := 0;
      while i < |order|
        invariant 0 <= i <= |order|
        invariant ResolveTypedefsUpTo(st, i) == Success(resolved)
      {
        var n := order[i];
        var t := Resolve(Scope(nodes, resolved.Keys, enumNames), idl[n]);
        if t.Failure? {
          TypedefsFail(st, i + 1);
          return Failure(t.error);
        }
        resolved := resolved[n := t.value];
        i := i + 1;
      }
      namedTypes := resolved;
      return Success(());
    }

    /**
     * `setAttrs(name)`. `stack` lists the calls in progress, outermost first. Lists
     * already set are never touched again; the list of a node that is not its own
     * ancestor is, once its call returns, the inherited lists of its parents followed
     * by its own members, sorted by its order section.
     */
    method SetAttrs(name: string, ghost stack: seq<string>) returns (r: Result<()>)
      requires name in parents && parents.Keys == idlTypes.Keys && attributes.Keys <= parents.Keys && Linked(parents)
      requires Chain(parents, stack, name) && forall k <- stack :: k in attributes
      requires Settled(Environment(), attributes, stack)
      modifies this`attributes
      ensures attributes.Keys <= parents.Keys
      ensures forall k <- old(attributes) :: k in attributes && attributes[k] == old(attributes[k])
      ensures r.Success? ==> name in attributes && Settled(Environment(), attributes, stack)
      ensures Attributable(Environment()) ==> r.Success?
      decreases parents.Keys - attributes.Keys, 0
    {
      if name in attributes {
        return Success(());
      }
      SettledAfterPush(Environment(), attributes, stack, name);
      ghost var pending := parents.Keys - attributes.Keys;
      attributes := attributes[name := []];
      assert parents.Keys - attributes.Keys == pending - {name};
      var inherited := InheritParents(name, stack);
      if inherited.Failure? {
        return Failure(inherited.error);
      }
      var acc := inherited.value;
      var own := DeclaredAttributes(Scope(parents.Keys, namedTypes.Keys, enums.Keys), idlTypes[name]);
      if own.Failure? {
        return Failure(own.error);
      }
      var sorted := Arrange(if name in attrOrders then Some(attrOrders[name]) else None, acc + own.value);
      if sorted.Failure? {
        return Failure(sorted.error);
      }
      NameSettled(Environment(), attributes, stack, name, acc, own.value, sorted.value);
      attributes := attributes[name := sorted.value];
      return Success(());
    }

    /** The loop of `setAttrs(name)` over the parents, writing the growing list after each one. */
    method InheritParents(name: string, ghost stack: seq<string>) returns (r: Result<seq<Attribute>>)
      requires name in parents && parents.Keys == idlTypes.Keys && attributes.Keys <= parents.Keys && Linked(parents)
      requires Chain(parents, stack, name) && name !in stack && forall k <- stack :: k in attributes
      requires Gathered(Environment(), attributes, stack, name, 0, [])
      modifies this`attributes
      ensures attributes.Keys <= parents.Keys
      ensures Kept(old(attributes), attributes, name)
      ensures r.Success? ==> Gathered(Environment(), attributes, stack, name, |parents[name]|, r.value)
      ensures parents[name] == [] ==> r == Success([])
      ensures Attributable(Environment()) ==> r.Success?
      decreases parents.Keys - attributes.Keys, 2
    {
      ghost var entry := attributes;
      ghost var env := Environment();
      var ps := parents[name];
      var acc: seq<Attribute> := [];
      var i := 0;
      while i < |ps|
        invariant 0 <= i <= |ps|
        invariant attributes.Keys <= parents.Keys
        invariant Kept(entry, attributes, name)
        invariant Gathered(env, attributes, stack, name, i, acc)
        invariant ps == [] ==> acc == []
      {
        var step := InheritParent(name, stack, i, acc);
        if step.Failure? {
          return Failure(step.error);
        }
        acc := step.value;
        i := i + 1;
      }
      return Success(acc);
    }

    /** One turn of that loop: `setAttrs` on parent `i`, then its inherited list appended and written. */
    method InheritParent(name: string, ghost stack: seq<string>, i: nat, acc: seq<Attribute>) returns (r: Result<seq<Attribute>>)
      requires name in parents && parents.Keys == idlTypes.Keys && attributes.Keys <= parents.Keys && Linked(parents)
      requires Chain(parents, stack, name) && name !in stack && forall k <- stack :: k in attributes
      requires i < |parents[name]| && Gathered(Environment(), attributes, stack, name, i, acc)
      modifies this`attributes
      ensures attributes.Keys <= parents.Keys
      ensures Kept(old(attributes), attributes, name)
      ensures r.Success? ==> Gathered(Environment(), attributes, stack, name, i + 1, r.value)
      ensures Attributable(Environment()) ==> r.Success?
      decreases parents.Keys - attributes.Keys, 1
    {
      var p := parents[name][i];
      ghost var before := attributes;
      ChainPush(parents, stack, name, p);
      var sub := SetAttrs(p, stack + [name]);
      if sub.Failure? {
        return Failure(sub.error);
      }
      ParentGathered(Environment(), before, attributes, stack, name, i, acc);
      var acc' := acc + Inherit(attributes[p]);
      attributes := attributes[name := acc'];
      return Success(acc');
    }

    /** `{nodes, enums, namedTypes}` once every pass has succeeded. */
    method Export(ghost ds: seq<Declaration>) returns (out: Consumed)
      requires DeclareAll(ds) == Success(Declarations()) && DeclaredValid(Declarations())
      requires parents.Keys == InterfaceNames(ds) && superTypes == SuperTypeNames(ds)
      requires superTypes <= parents.Keys && isLeaf == map k | k in parents :: k !in superTypes
      requires ResolveTypedefsUpTo(Declarations(), |typedefOrder|) == Success(namedTypes)
      requires attributes.Keys == parents.Keys && Settled(Environment(), attributes, [])
      ensures Describes(ds, attrOrders, out)
    {
      out := Consumed(map k | k in parents :: NodeEntry(isLeaf[k], parents[k], attributes[k]), nodeOrder, enums, namedTypes);
      assert AttributesOf(out) == attributes;
    }

    /** The passes after the declaration loop: the leaves, the typedefs, `setAttrs` for every node and the export. */
    method Finish(ghost ds: seq<Declaration>) returns (r: Result<Consumed>)
      requires DeclareAll(ds) == Success(Declarations()) && FreshLeaves()
      requires attributes == map[] && namedTypes == map[]
      modifies this`isLeaf, this`namedTypes, this`attributes
      ensures r.Success? ==> Describes(ds, attrOrders, r.value)
      ensures Consumable(ds, attrOrders) ==> r.Success?
    {
      DeclareAllValid(ds);
      DeclaredNames(ds);
      var leaves := MarkLeaves();
      if leaves.Failure? {
        return Failure(leaves.error);
      }
      var typedefs := ResolveTypedefs();
      if typedefs.Failure? {
        return Failure(typedefs.error);
      }
      var attrs := SetAllAttrs();
      if attrs.Failure? {
        return Failure(attrs.error);
      }
      var out := Export(ds);
      return Success(out);
    }

    /** `for (let name of nodes.keys()) setAttrs(name)`. */
    method SetAllAttrs() returns (r: Result<()>)
      requires Text.Distinct(nodeOrder) && (forall k :: k in parents <==> k in nodeOrder)
      requires parents.Keys == idlTypes.Keys && attributes == map[]
      requires Linked(parents)
      modifies this`attributes
      ensures r.Success? ==> attributes.Keys == parents.Keys && Settled(Environment(), attributes, [])
      ensures Attributable(Environment()) ==> r.Success?
    {
      var i := 0;
      while i < |nodeOrder|
        invariant 0 <= i <= |nodeOrder|
        invariant attributes.Keys <= parents.Keys
        invariant forall k <- nodeOrder[..i] :: k in attributes
        invariant Settled(Environment(), attributes, [])
      {
        var sub := SetAttrs(nodeOrder[i], []);
        if sub.Failure? {
          return sub;
        }
        assert nodeOrder[..i + 1] == nodeOrder[..i] + [nodeOrder[i]];
        i := i + 1;
      }
      assert nodeOrder[..i] == nodeOrder;
      return Success(());
    }
  }

  /** Once one typedef fails, the whole typedef pass fails. */
  lemma {:induction false} TypedefsFail(st: Declared, i: nat)
    requires 0 < i <= |st.typedefOrder| && TypedefsListed(st)
    requires ResolveTypedefsUpTo(st, i).Failure?
    ensures ResolveTypedefsUpTo(st, |st.typedefOrder|).Failure?
    decreases |st.typedefOrder| - i
  {
    if i < |st.typedefOrder| {
      TypedefsFail(st, i + 1);
    }
  }

  /*
   * ---------- The whole script ----------
   */

  /** A node as exported: its leaf flag, its parents and its attributes. */
  datatype NodeEntry = NodeEntry(isLeaf: bool, parents: seq<string>, attributes: seq<Attribute>)

  /** What the module exports: the nodes (and their Map order), the enums and the resolved typedefs. */
  datatype Consumed = Consumed(
    nodes: map<string, NodeEntry>,
    order: seq<string>,
    enums: map<string, seq<string>>,
    namedTypes: map<string, SemanticType>)

  /** The lists of every node, as a map. */
  function AttributesOf(out: Consumed): (r: map<string, seq<Attribute>>)
    ensures r.Keys == out.nodes.Keys
  {
    map k | k in out.nodes :: out.nodes[k].attributes
  }

  /**
   * What a successful run exports for declarations `ds` and order sections `orders`:
   * the nodes are the declared interfaces in declaration order, each with the parents
   * the declarations give it and a leaf flag that is false exactly for the names some
   * declaration inherits from or implements; the typedefs are resolved in declaration
   * order; and the list of every node that is not its own ancestor is its parents'
   * lists (flagged inherited) followed by its own members, sorted by its section.
   */
  ghost predicate Describes(ds: seq<Declaration>, orders: map<string, seq<string>>, out: Consumed)
  {
    && DeclareAll(ds).Success?
    && var st := DeclareAll(ds).value;
    && out.order == st.nodeOrder
    && out.nodes.Keys == InterfaceNames(ds)
    && out.enums == st.enums
    && SuperTypeNames(ds) <= out.nodes.Keys
    && (forall k <- out.nodes :: k in st.parents && out.nodes[k].parents == st.parents[k])
    && (forall k <- out.nodes :: out.nodes[k].isLeaf <==> k !in SuperTypeNames(ds))
    && TypedefsListed(st)
    && ResolveTypedefsUpTo(st, |st.typedefOrder|) == Success(out.namedTypes)
    && Settled(Env(st.parents, st.idlTypes, Scope(st.parents.Keys, out.namedTypes.Keys, st.enums.Keys), orders), AttributesOf(out), [])
  }

  /**
   * Enough for the passes after the declaration loop to succeed: every supertype is a node,
   * every typedef resolves in its scope, and `setAttrs` succeeds on every node in the scope
   * of the nodes, the resolved typedefs and the enums. (`TypedefsListed` always holds after
   * the loop, by `DeclareAllValid`.)
   */
  ghost predicate Consumable(ds: seq<Declaration>, orders: map<string, seq<string>>)
  {
    && DeclareAll(ds).Success?
    && var st := DeclareAll(ds).value;
    && SuperTypeNames(ds) <= InterfaceNames(ds)
    && TypedefsListed(st)
    && ResolveTypedefsUpTo(st, |st.typedefOrder|).Success?
    && var named := ResolveTypedefsUpTo(st, |st.typedefOrder|).value;
    && Attributable(Env(st.parents, st.idlTypes, Scope(st.parents.Keys, named.Keys, st.enums.Keys), orders))
  }

  /** The whole script: the order file, the declaration loop, the leaves, the typedefs and `setAttrs` for every node. */
  method Consume(ds: seq<Declaration>, orderFile: string) returns (r: Result<Consumed>)
    ensures AttributeOrder.AttrOrderOf(orderFile).Failure? || DeclareAll(ds).Failure? ==> r.Failure?
    ensures r.Success? ==> AttributeOrder.AttrOrderOf(orderFile).Success? && Describes(ds, AttributeOrder.AttrOrderOf(orderFile).value, r.value)
    ensures AttributeOrder.AttrOrderOf(orderFile).Success? && Consumable(ds, AttributeOrder.AttrOrderOf(orderFile).value) ==> r.Success?
  {
    var orders := AttributeOrder.ParseAttrOrder(orderFile);
    if orders.Failure? {
      return Failure(orders.error);
    }
    var c := new Consumer(orders.value);
    var declared := c.ReadDeclarations(ds);
    if declared.Failure? {
      return Failure(declared.error);
    }
    r := c.Finish(ds);
  }
}
