/**
 * The per-leaf reducer generators: the `Reducer` and `ThunkedReducer` interfaces, the
 * `MonoidalReducer` and its return expression, the `ReconstructingReducer`, the
 * `Serializer`, the `Flattener` and the `RangeCheckerReducer`. Each one is the walk of
 * `Emit.EmitLeaves` with one of the leaf entries below.
 */
module Reducers {
  import opened Wrappers
  import opened SemanticTypes
  import Utilities
  import Text

  /*
   * ---------- Parameters ----------
   */

  /** A parameter after `node`: its Java type and its (sanitised) name. */
  datatype Param = Param(javaType: string, name: string)

  /** How a generator writes a parameter type: with nodes read as `slot`, or as a suspended state. */
  datatype Rendering = Slot(slot: string) | Thunked

  /** `thunkName`: wrappers are kept and whatever is under them becomes a `Supplier<State>`. */
  function ThunkName(t: SemanticType): (r: Result<string>)
  {
    match t
    case Nullable(a) =>
      (match ThunkName(a)
       case Success(s) => Success("Maybe<" + s + ">")
       case Failure(e) => Failure(e))
    case List(a) =>
      (match ThunkName(a)
       case Success(s) => Success("ImmutableList<" + s + ">")
       case Failure(e) => Failure(e))
    case NamedType(_) => Failure("Not reached")
    case Union(_) => Failure("Not reached")
    case _ => Success("Supplier<State>")
  }

  /**
   * `thunkName` fails exactly on a union or a named type under the wrappers, and on a
   * type with a node inside it is `toJavaType` with the node read as `Supplier<State>`.
   */
  lemma {:induction false} ThunkNameByInnermost(t: SemanticType)
    ensures ThunkName(t).Failure? <==> Innermost(t).Union? || Innermost(t).NamedType?
    ensures Innermost(t).Node? ==> ThunkName(t) == Utilities.ToJavaType(t, Some("Supplier<State>"))
  {
    if t.Nullable? || t.List? {
      ThunkNameByInnermost(t.argument);
    }
  }

  function ParamType(t: SemanticType, rendering: Rendering): Result<string>
  {
    match rendering
    case Slot(s) => Utilities.ToJavaType(t, Some(s))
    case Thunked => ThunkName(t)
  }

  /** The type with every node in it replaced by the node `slot`. */
  function ReplaceNodes(t: SemanticType, slot: string): (r: SemanticType)
  {
    match t
    case Nullable(a) => Nullable(ReplaceNodes(a, slot))
    case List(a) => List(ReplaceNodes(a, slot))
    case Node(_) => Node(slot)
    case _ => t
  }

  /**
   * A parameter type with a slot is the attribute's Java type with every node written as
   * the slot; for a plain slot such as `State` it reads back as exactly that type.
   */
  lemma {:induction false} SlotReplacesNodes(t: SemanticType, slot: string)
    ensures ParamType(t, Slot(slot)) == Utilities.ToJavaType(ReplaceNodes(t, slot), None)
    ensures Utilities.Renderable(ReplaceNodes(t, slot)) ==> (ParamType(t, Slot(slot)).Success?
      && Utilities.ParseJavaType(ParamType(t, Slot(slot)).value) == Some(ReplaceNodes(t, slot)))
  {
    if t.Nullable? || t.List? {
      SlotReplacesNodes(t.argument, slot);
    }
    if Utilities.Renderable(ReplaceNodes(t, slot)) {
      Utilities.JavaTypeRoundTrip(ReplaceNodes(t, slot));
    }
  }

  /** One parameter per attribute of `attrs`, in order; the first type that cannot be written fails. */
  function ParamsOf(attrs: seq<Attribute>, rendering: Rendering): (r: Result<seq<Param>>)
    ensures r.Success? <==> forall a <- attrs :: ParamType(a.typ, rendering).Success?
    ensures r.Success? ==> |r.value| == |attrs| && forall i :: 0 <= i < |attrs| ==>
      r.value[i] == Param(ParamType(attrs[i].typ, rendering).value, Utilities.Sanitize(attrs[i].name))
  {
    if attrs == [] then Success([])
    else
      match ParamType(attrs[0].typ, rendering)
      case Failure(e) => Failure(e)
      case Success(jt) =>
        match ParamsOf(attrs[1..], rendering)
        case Failure(e) => Failure(e)
        case Success(ps) =>
          assert forall a <- attrs :: a == attrs[0] || a in attrs[1..];
          Success([Param(jt, Utilities.Sanitize(attrs[0].name))] + ps)
  }

  /** `reduce<node>(<node> node, params…)`. */
  datatype Signature = Signature(node: string, params: seq<Param>)

  /**
   * A leaf's method takes the node and then one parameter per stateful attribute, in
   * attribute order, named by the sanitised attribute name.
   */
  function SignatureOf(n: string, d: NodeDecl, rendering: Rendering): (r: Result<Signature>)
    ensures r.Success? <==> (Utilities.StatefulAttributes(d.attributes).Success?
      && forall a <- Utilities.StatefulAttributes(d.attributes).value :: ParamType(a.typ, rendering).Success?)
    ensures r.Success? ==> (r.value.node == n
      && |r.value.params| == |Utilities.StatefulAttributes(d.attributes).value|
      && forall i :: 0 <= i < |r.value.params| ==>
        r.value.params[i].name == Utilities.Sanitize(Utilities.StatefulAttributes(d.attributes).value[i].name))
  {
    var attrs :- Utilities.StatefulAttributes(d.attributes);
    var ps :- ParamsOf(attrs, rendering);
    Success(Signature(n, ps))
  }

  /**
   * The `Reducer<State>` entry of a leaf: each stateful attribute's parameter has the
   * attribute's own Java type with every node in it written as `State`, and reads back as
   * that type when it can be written at all.
   */
  function ReducerEntry(n: string, d: NodeDecl): (r: Result<Signature>)
    ensures r.Success? <==> (Utilities.StatefulAttributes(d.attributes).Success?
      && forall a <- Utilities.StatefulAttributes(d.attributes).value ::
        Utilities.ToJavaType(ReplaceNodes(a.typ, "State"), None).Success?)
    ensures r.Success? ==> var attrs := Utilities.StatefulAttributes(d.attributes).value;
      r.value.node == n && |r.value.params| == |attrs|
      && forall i :: 0 <= i < |attrs| ==> (r.value.params[i] ==
        Param(Utilities.ToJavaType(ReplaceNodes(attrs[i].typ, "State"), None).value, Utilities.Sanitize(attrs[i].name)))
    ensures r.Success? ==> var attrs := Utilities.StatefulAttributes(d.attributes).value;
      forall i :: 0 <= i < |attrs| && Utilities.Renderable(ReplaceNodes(attrs[i].typ, "State")) ==>
        Utilities.ParseJavaType(r.value.params[i].javaType) == Some(ReplaceNodes(attrs[i].typ, "State"))
  {
    forall t: SemanticType
      ensures ParamType(t, Slot("State")) == Utilities.ToJavaType(ReplaceNodes(t, "State"), None)
      ensures Utilities.Renderable(ReplaceNodes(t, "State")) ==> (ParamType(t, Slot("State")).Success?
        && Utilities.ParseJavaType(ParamType(t, Slot("State")).value) == Some(ReplaceNodes(t, "State")))
    {
      SlotReplacesNodes(t, "State");
    }
    SignatureOf(n, d, Slot("State"))
  }

  /** The type with wrappers kept and whatever is under them, bar a union or a named type, a `Supplier<State>`. */
  function Suspend(t: SemanticType): (r: SemanticType)
  {
    match t
    case Nullable(a) => Nullable(Suspend(a))
    case List(a) => List(Suspend(a))
    case Union(_) => t
    case NamedType(_) => t
    case _ => Node("Supplier<State>")
  }

  /** `thunkName` is `toJavaType` of the suspended type, failures included. */
  lemma {:induction false} ThunkNameSuspends(t: SemanticType)
    ensures ThunkName(t) == Utilities.ToJavaType(Suspend(t), None)
  {
    if t.Nullable? || t.List? {
      ThunkNameSuspends(t.argument);
    }
  }

  /**
   * The `ThunkedReducer<State>` entry of a leaf: each stateful attribute's parameter keeps the
   * attribute's wrappers around a `Supplier<State>`; an attribute with a union or a named
   * type under its wrappers makes the entry fail.
   */
  function ThunkedReducerEntry(n: string, d: NodeDecl): (r: Result<Signature>)
    ensures r.Success? <==> (Utilities.StatefulAttributes(d.attributes).Success?
      && forall a <- Utilities.StatefulAttributes(d.attributes).value ::
        !Innermost(a.typ).Union? && !Innermost(a.typ).NamedType?)
    ensures r.Success? ==> var attrs := Utilities.StatefulAttributes(d.attributes).value;
      r.value.node == n && |r.value.params| == |attrs|
      && forall i :: 0 <= i < |attrs| ==> (Utilities.ToJavaType(Suspend(attrs[i].typ), None).Success?
        && r.value.params[i] == Param(Utilities.ToJavaType(Suspend(attrs[i].typ), None).value, Utilities.Sanitize(attrs[i].name)))
  {
    forall t: SemanticType
      ensures ParamType(t, Thunked) == Utilities.ToJavaType(Suspend(t), None)
      ensures ParamType(t, Thunked).Success? <==> !Innermost(t).Union? && !Innermost(t).NamedType?
    {
      ThunkNameSuspends(t);
      ThunkNameByInnermost(t);
    }
    SignatureOf(n, d, Thunked)
  }

  /*
   * ---------- The monoidal return expression ----------
   */

  /** The wrapper shape `red` looks at. */
  datatype Wrapping = Bare | Opt | Many | ManyOpt

  function WrappingOf(t: SemanticType): (r: Wrapping)
    ensures IsList(r) <==> t.List?
    ensures r == ManyOpt <==> t.List? && t.argument.Nullable?
  {
    if t.Nullable? then Opt
    else if t.List? && t.argument.Nullable? then ManyOpt
    else if t.List? then Many
    else Bare
  }

  predicate IsList(w: Wrapping)
  {
    w == Many || w == ManyOpt
  }

  /** `red(attr)`: the expression giving one attribute's state. */
  datatype Red = Red(wrapping: Wrapping, field: string)

  function RedOf(a: Attribute): (r: Red)
    ensures r.field == Utilities.Sanitize(a.name)
  {
    Red(WrappingOf(a.typ), Utilities.Sanitize(a.name))
  }

  function RedText(r: Red): string
  {
    match r.wrapping
    case Opt => "o(" + r.field + ")"
    case ManyOpt => "fold(Maybe.catMaybes(" + r.field + "))"
    case Many => "fold(" + r.field + ")"
    case Bare => r.field
  }

  function RedsOf(attrs: seq<Attribute>): (r: seq<Red>)
    ensures |r| == |attrs| && forall i :: 0 <= i < |attrs| ==> r[i] == RedOf(attrs[i])
  {
    if attrs == [] then [] else [RedOf(attrs[0])] + RedsOf(attrs[1..])
  }

  /** `this.identity()`, `red(a)`, `fold1(list, red(first))` or `append(red(a), red(b), …)`. */
  datatype Combination = Identity | Single(red: Red) | Fold1(list: string, first: Red) | AppendAll(reds: seq<Red>)

  /** Two states, a non-list then a list of nullables: the shape the written rule gets wrong. */
  predicate Fold1OverMaybes(reds: seq<Red>)
  {
    |reds| == 2 && reds[1].wrapping == ManyOpt && !IsList(reds[0].wrapping)
  }

  /** The rule as written: the `fold1` shortcut is taken for any list as the second of two. */
  function CombineAsWritten(reds: seq<Red>): (r: Combination)
    ensures !Fold1OverMaybes(reds) ==> r == Combine(reds)
    ensures Fold1OverMaybes(reds) ==> r == Fold1(reds[1].field, reds[0])
  {
    if |reds| == 0 then Identity
    else if |reds| == 1 then Single(reds[0])
    else if |reds| == 2 && IsList(reds[1].wrapping) && !IsList(reds[0].wrapping) then Fold1(reds[1].field, reds[0])
    else AppendAll(reds)
  }

  /** The rule with the `fold1` shortcut kept to lists of states. */
  function Combine(reds: seq<Red>): (r: Combination)
    ensures r.Identity? <==> reds == []
    ensures r.Single? ==> |reds| == 1 && r.red == reds[0]
    ensures r.Fold1? ==> (|reds| == 2 && reds[1].wrapping == Many && !IsList(reds[0].wrapping)
      && r.list == reds[1].field && r.first == reds[0])
    ensures r.AppendAll? ==> |reds| >= 2 && r.reds == reds
  {
    if |reds| == 0 then Identity
    else if |reds| == 1 then Single(reds[0])
    else if |reds| == 2 && reds[1].wrapping == Many && !IsList(reds[0].wrapping) then Fold1(reds[1].field, reds[0])
    else AppendAll(reds)
  }

  /*
   * What the expressions compute, for a state type `S` with `append` and `identity`.
   */

  /** The value a stateful argument carries at run time. */
  datatype Arg<S> = One(state: S) | Maybe(maybe: Option<S>) | Seq(states: seq<S>) | SeqMaybe(entries: seq<Option<S>>)

  predicate Matches<S>(w: Wrapping, a: Arg<S>)
  {
    match w
    case Bare => a.One?
    case Opt => a.Maybe?
    case Many => a.Seq?
    case ManyOpt => a.SeqMaybe?
  }

  ghost predicate IsMonoid<S(!new)>(append: (S, S) -> S, identity: S)
  {
    (forall a, b, c :: append(append(a, b), c) == append(a, append(b, c)))
    && (forall a :: append(identity, a) == a)
    && (forall a :: append(a, identity) == a)
  }

  /** `as.foldLeft(this::append, acc)`. */
  function FoldLeft<S>(xs: seq<S>, acc: S, append: (S, S) -> S): S
  {
    if xs == [] then acc else append(FoldLeft(xs[..|xs| - 1], acc, append), xs[|xs| - 1])
  }

  /** `Maybe.catMaybes`: the present entries, in order. */
  function CatMaybes<S>(xs: seq<Option<S>>): (r: seq<S>)
    ensures |r| <= |xs|
  {
    if xs == [] then []
    else (if xs[0].Some? then [xs[0].value] else []) + CatMaybes(xs[1..])
  }

  /** The state `red(attr)` evaluates to. */
  function RedValue<S>(a: Arg<S>, append: (S, S) -> S, identity: S): S
  {
    match a
    case One(s) => s
    case Maybe(m) => m.GetOr(identity)
    case Seq(xs) => FoldLeft(xs, identity, append)
    case SeqMaybe(xs) => FoldLeft(CatMaybes(xs), identity, append)
  }

  function Values<S>(args: seq<Arg<S>>, append: (S, S) -> S, identity: S): (r: seq<S>)
    ensures |r| == |args| && forall i :: 0 <= i < |args| ==> r[i] == RedValue(args[i], append, identity)
  {
    if args == [] then [] else [RedValue(args[0], append, identity)] + Values(args[1..], append, identity)
  }

  /** What a monoidal reducer is meant to return: every attribute's state appended, in order. */
  function Total<S>(args: seq<Arg<S>>, append: (S, S) -> S, identity: S): S
  {
    FoldLeft(Values(args, append, identity), identity, append)
  }

  /** What the written expression returns; `None` where it does not type-check. */
  function Evaluate<S>(c: Combination, args: seq<Arg<S>>, append: (S, S) -> S, identity: S): Option<S>
  {
    match c
    case Identity => Some(identity)
    case Single(_) => if |args| == 1 then Some(RedValue(args[0], append, identity)) else None
    case Fold1(_, _) =>
      if |args| == 2 && args[1].Seq? then Some(FoldLeft(args[1].states, RedValue(args[0], append, identity), append)) else None
    case AppendAll(_) =>
      if |args| >= 1 then Some(FoldLeft(Values(args[1..], append, identity), RedValue(args[0], append, identity), append)) else None
  }

  lemma {:induction false} FoldFrom<S(!new)>(xs: seq<S>, a: S, append: (S, S) -> S, identity: S)
    requires IsMonoid(append, identity)
    ensures FoldLeft(xs, a, append) == append(a, FoldLeft(xs, identity, append))
  {
    if xs != [] {
      var init := xs[..|xs| - 1];
      FoldFrom(init, a, append, identity);
      var rest := FoldLeft(init, identity, append);
      assert append(append(a, rest), xs[|xs| - 1]) == append(a, append(rest, xs[|xs| - 1]));
    }
  }

  lemma {:induction false} FoldCons<S>(x: S, xs: seq<S>, a: S, append: (S, S) -> S)
    ensures FoldLeft([x] + xs, a, append) == FoldLeft(xs, append(a, x), append)
  {
    if xs != [] {
      var init := xs[..|xs| - 1];
      assert ([x] + xs)[..|[x] + xs| - 1] == [x] + init;
      FoldCons(x, init, a, append);
    }
  }

  /**
   * In any monoid the return expression computes every stateful attribute's state
   * appended in attribute order: `fold1` and the one-argument case are shortcuts for it.
   */
  /** The total starts with the first attribute's state, since the identity in front of it vanishes. */
  lemma TotalFirst<S(!new)>(args: seq<Arg<S>>, append: (S, S) -> S, identity: S)
    requires IsMonoid(append, identity) && |args| >= 1
    ensures Total(args, append, identity)
      == FoldLeft(Values(args[1..], append, identity), RedValue(args[0], append, identity), append)
  {
    var vs := Values(args, append, identity);
    assert vs == [vs[0]] + Values(args[1..], append, identity);
    FoldCons(vs[0], Values(args[1..], append, identity), identity, append);
  }

  /** `fold1(list, first)` is `first` appended to the fold of the list. */
  lemma Fold1Sound<S(!new)>(args: seq<Arg<S>>, append: (S, S) -> S, identity: S)
    requires IsMonoid(append, identity) && |args| == 2 && args[1].Seq?
    ensures FoldLeft(args[1].states, RedValue(args[0], append, identity), append)
      == FoldLeft(Values(args[1..], append, identity), RedValue(args[0], append, identity), append)
  {
    var v0 := RedValue(args[0], append, identity);
    assert Values(args[1..], append, identity) == [] + [RedValue(args[1], append, identity)];
    FoldFrom(args[1].states, v0, append, identity);
  }

  /**
   * In any monoid the return expression computes every stateful attribute's state
   * appended in attribute order: `fold1` and the one-argument case are shortcuts for it.
   */
  lemma MonoidalSound<S(!new)>(reds: seq<Red>, args: seq<Arg<S>>, append: (S, S) -> S, identity: S)
    requires IsMonoid(append, identity)
    requires |args| == |reds| && forall i :: 0 <= i < |reds| ==> Matches(reds[i].wrapping, args[i])
    ensures Evaluate(Combine(reds), args, append, identity) == Some(Total(args, append, identity))
  {
    if |args| >= 1 {
      TotalFirst(args, append, identity);
      if Combine(reds).Fold1? {
        Fold1Sound(args, append, identity);
      }
    }
  }

  /** As written, two attributes `(node, list of nullable)` get `fold1` over a list of `Maybe`s, which has no value. */
  lemma CombineAsWrittenIllTyped<S>(x: S, y: S, append: (S, S) -> S, identity: S)
    ensures CombineAsWritten([Red(Bare, "a"), Red(ManyOpt, "b")]) == Fold1("b", Red(Bare, "a"))
    ensures Evaluate(CombineAsWritten([Red(Bare, "a"), Red(ManyOpt, "b")]), [One(x), SeqMaybe([Some(y)])], append, identity) == None
    ensures Evaluate(Combine([Red(Bare, "a"), Red(ManyOpt, "b")]), [One(x), SeqMaybe([Some(y)])], append, identity).Some?
  {
  }

  /**
   * The return expression as written computes the same total in any monoid, except on the
   * ill-typed shape, where it has no value.
   */
  lemma MonoidalAsWrittenSound<S(!new)>(reds: seq<Red>, args: seq<Arg<S>>, append: (S, S) -> S, identity: S)
    requires IsMonoid(append, identity)
    requires |args| == |reds| && forall i :: 0 <= i < |reds| ==> Matches(reds[i].wrapping, args[i])
    ensures Evaluate(CombineAsWritten(reds), args, append, identity)
      == if Fold1OverMaybes(reds) then None else Some(Total(args, append, identity))
  {
    if Fold1OverMaybes(reds) {
      assert args[1].SeqMaybe?;
    } else {
      MonoidalSound(reds, args, append, identity);
    }
  }

  /**
   * `rv`: the return expression of a monoidal leaf method, read off its stateful attributes:
   * `identity()` for none, `red` for one, `fold1` for a non-list then a list, and
   * otherwise `append` over every attribute's `red` in order.
   */
  function MonoidalReturn(stateful: seq<Attribute>): (r: Combination)
    ensures r.Identity? <==> stateful == []
    ensures r.Single? <==> |stateful| == 1
    ensures r.Single? ==> r.red == RedOf(stateful[0])
    ensures r.Fold1? <==> |stateful| == 2 && stateful[1].typ.List? && !stateful[0].typ.List?
    ensures r.Fold1? ==> r.list == Utilities.Sanitize(stateful[1].name) && r.first == RedOf(stateful[0])
    ensures r.AppendAll? ==> r.reds == RedsOf(stateful)
  {
    CombineAsWritten(RedsOf(stateful))
  }

  datatype MonoidalMethod = MonoidalMethod(signature: Signature, result: Combination)

  /** The `MonoidalReducer<State>` entry of a leaf. */
  function MonoidalEntry(n: string, d: NodeDecl): (r: Result<MonoidalMethod>)
    ensures r.Success? <==> SignatureOf(n, d, Slot("State")).Success?
    ensures r.Success? ==> (r.value.signature == SignatureOf(n, d, Slot("State")).value
      && r.value.result == MonoidalReturn(Utilities.StatefulAttributes(d.attributes).value))
  {
    var sig :- SignatureOf(n, d, Slot("State"));
    var attrs := Utilities.StatefulAttributes(d.attributes).value;
    Success(MonoidalMethod(sig, MonoidalReturn(attrs)))
  }

  /*
   * ---------- The reconstructing reducer ----------
   */

  /** A constructor argument: a copied field, a re-cast state, or a state mapped once or twice to a cast. */
  datatype CloneArg =
    | Copied(field: string)              // node.<field>
    | MappedOnce(field: string, cast: string)   // field.map(x -> (cast) x)
    | MappedTwice(field: string, cast: string)  // field.map(x -> x.map(y -> (cast) y))
    | Cast(cast: string, field: string)         // (cast) field

  /** `cloneAttribute`; its own "Not reached" case is the stateful shapes it does not list. */
  function CloneAttribute(a: Attribute): (r: Result<CloneArg>)
  {
    var f := Utilities.Sanitize(a.name);
    match Utilities.IsStateful(a.typ)
    case Failure(e) => Failure(e)
    case Success(stateful) =>
      if !stateful then Success(Copied(f))
      else if a.typ.Nullable? then
        if a.typ.argument.List? then Success(MappedTwice(f, ArgText(a.typ.argument.argument)))
        else Success(MappedOnce(f, ArgText(a.typ.argument)))
      else if a.typ.List? then
        if a.typ.argument.Nullable? then Success(MappedTwice(f, ArgText(a.typ.argument.argument)))
        else Success(MappedOnce(f, ArgText(a.typ.argument)))
      else if a.typ.Node? then Success(Cast(ArgText(a.typ), f))
      else Failure("Not reached")
  }

  /** `cloneAttribute` only fails where `isStatefulType` does: its "Not reached" branch is dead. */
  lemma CloneAttributeDefined(a: Attribute)
    ensures CloneAttribute(a).Failure? <==> Utilities.IsStateful(a.typ).Failure?
    ensures Utilities.IsStateful(a.typ) == Success(false) ==> CloneAttribute(a) == Success(Copied(Utilities.Sanitize(a.name)))
  {
    Utilities.IsStatefulByCore(a.typ);
    if a.typ.Nullable? && Utilities.IsStateful(a.typ) == Success(true) {
      assert StripNullable(a.typ) == StripNullable(a.typ.argument);
    }
  }

  /**
   * On the shapes a node attribute takes, every state is cast to the innermost node, mapped
   * twice under two wrappers, once under one, and cast directly for a bare node.
   */
  lemma CloneCastsInnermost(a: Attribute)
    requires Shape(a.typ)
    ensures CloneAttribute(a).Success?
    ensures var c := CloneAttribute(a).value;
      !c.Copied? && c.cast == Innermost(a.typ).name && c.field == Utilities.Sanitize(a.name)
      && (a.typ.Node? <==> c.Cast?)
      && ((a.typ.Nullable? || a.typ.List?) && (a.typ.argument.Nullable? || a.typ.argument.List?) <==> c.MappedTwice?)
  {
    if a.typ.Nullable? || a.typ.List? {
      var inner := a.typ.argument;
      if inner.Nullable? || inner.List? {
        assert Innermost(a.typ) == Innermost(inner) == inner.argument;
        assert Utilities.IsStateful(a.typ) == Success(true);
        assert CloneAttribute(a) == Success(MappedTwice(Utilities.Sanitize(a.name), inner.argument.name));
      } else {
        assert Innermost(a.typ) == inner;
        assert Utilities.IsStateful(a.typ) == Success(true);
        assert CloneAttribute(a) == Success(MappedOnce(Utilities.Sanitize(a.name), inner.name));
      }
    }
  }

  /** Every attribute, in order, cloned; the first that cannot be fails. */
  function CloneArgs(attrs: seq<Attribute>): (r: Result<seq<CloneArg>>)
    ensures r.Success? <==> forall a <- attrs :: CloneAttribute(a).Success?
    ensures r.Success? ==> |r.value| == |attrs| && forall i :: 0 <= i < |attrs| ==> r.value[i] == CloneAttribute(attrs[i]).value
  {
    if attrs == [] then Success([])
    else
      match CloneAttribute(attrs[0])
      case Failure(e) => Failure(e)
      case Success(c) =>
        match CloneArgs(attrs[1..])
        case Failure(e) => Failure(e)
        case Success(cs) =>
          assert forall a <- attrs :: a == attrs[0] || a in attrs[1..];
          Success([c] + cs)
  }

  /** `return new <node>(args…)` under the return type `cloneReturnTypes.get(node)`. */
  datatype CloneMethod = CloneMethod(returnType: string, signature: Signature, args: seq<CloneArg>)

  /** The declared return type: the one given for the node, or `undefined` in the text when there is none. */
  function ReturnTypeOf(returnTypes: map<string, string>, n: string): (r: string)
    ensures n in returnTypes ==> r == returnTypes[n]
  {
    if n in returnTypes then returnTypes[n] else "undefined"
  }

  /**
   * The `ReconstructingReducer` entry of a leaf: parameters as in `Reducer<Node>`, and a
   * constructor call that receives every attribute, stateful or not, in attribute order.
   */
  function CloneEntry(returnTypes: map<string, string>, n: string, d: NodeDecl): (r: Result<CloneMethod>)
    ensures r.Success? ==> (SignatureOf(n, d, Slot("Node")).Success?
      && r.value.signature == SignatureOf(n, d, Slot("Node")).value)
    ensures r.Success? ==> (|r.value.args| == |d.attributes|
      && forall i :: 0 <= i < |d.attributes| ==> CloneAttribute(d.attributes[i]) == Success(r.value.args[i]))
    ensures r.Success? ==> r.value.returnType == ReturnTypeOf(returnTypes, n)
  {
    var sig :- SignatureOf(n, d, Slot("Node"));
    var args :- CloneArgs(d.attributes);
    Success(CloneMethod(ReturnTypeOf(returnTypes, n), sig, args))
  }

  /*
   * ---------- The serializer ----------
   */

  /** The `JsonObjectBuilder` method for a field: the overload names exist because of type erasure. */
  datatype Adder = Add | AddListMaybe | AddMaybeString

  /** `whichAdd`. */
  function WhichAdd(t: SemanticType): (r: Adder)
    ensures r == AddListMaybe <==> t.List? && t.argument.Nullable?
    ensures r == AddMaybeString <==> t == Nullable(Value("string"))
  {
    if t.List? && t.argument.Nullable? then AddListMaybe
    else if t.Nullable? && t.argument.Value? && t.argument.tag == "string" then AddMaybeString
    else Add
  }

  /** `.add…("key", value)`. */
  datatype JsonField = JsonField(adder: Adder, key: string, value: string)

  /** The property one attribute becomes: a state from the parameter, anything else read off the node. */
  function FieldOf(a: Attribute): (r: Result<JsonField>)
    ensures r.Success? <==> Utilities.IsStateful(a.typ).Success?
    ensures r.Success? ==> r.value.adder == WhichAdd(a.typ) && r.value.key == a.name
    ensures r.Success? ==> (r.value.value == Utilities.Sanitize(a.name) <== Utilities.IsStateful(a.typ).value)
    ensures r.Success? ==> (r.value.value == "node." + a.name <== !Utilities.IsStateful(a.typ).value)
  {
    var stateful :- Utilities.IsStateful(a.typ);
    Success(JsonField(WhichAdd(a.typ), a.name, if stateful then Utilities.Sanitize(a.name) else "node." + a.name))
  }

  function JsonFields(attrs: seq<Attribute>): (r: Result<seq<JsonField>>)
    ensures r.Success? <==> forall a <- attrs :: Utilities.IsStateful(a.typ).Success?
    ensures r.Success? ==> |r.value| == |attrs| && forall i :: 0 <= i < |attrs| ==> FieldOf(attrs[i]) == Success(r.value[i])
  {
    if attrs == [] then Success([])
    else
      match FieldOf(attrs[0])
      case Failure(e) => Failure(e)
      case Success(f) =>
        match JsonFields(attrs[1..])
        case Failure(e) => Failure(e)
        case Success(fs) =>
          assert forall a <- attrs :: a == attrs[0] || a in attrs[1..];
          Success([f] + fs)
  }

  /** `return b("<node>").add…(…)….done()`. */
  datatype SerializerMethod = SerializerMethod(signature: Signature, fields: seq<JsonField>)

  /** The `Serializer` entry of a leaf: one JSON property per attribute, keyed by its unsanitised name. */
  function SerializerEntry(n: string, d: NodeDecl): (r: Result<SerializerMethod>)
    ensures r.Success? ==> (SignatureOf(n, d, Slot("StringBuilder")).Success?
      && r.value.signature == SignatureOf(n, d, Slot("StringBuilder")).value)
    ensures r.Success? ==> (|r.value.fields| == |d.attributes|
      && forall i :: 0 <= i < |d.attributes| ==> r.value.fields[i].key == d.attributes[i].name)
  {
    var fs :- JsonFields(d.attributes);
    var sig :- SignatureOf(n, d, Slot("StringBuilder"));
    Success(SerializerMethod(sig, fs))
  }

  /**
   * The serializer never names a state it was not given: every stateful attribute's
   * property is read from one of the method's parameters.
   */
  lemma SerializerReadsParams(n: string, d: NodeDecl)
    requires SerializerEntry(n, d).Success?
    ensures var m := SerializerEntry(n, d).value;
      forall i :: 0 <= i < |d.attributes| && Utilities.IsStateful(d.attributes[i].typ) == Success(true) ==>
        exists j :: 0 <= j < |m.signature.params| && m.signature.params[j].name == m.fields[i].value
  {
    var m := SerializerEntry(n, d).value;
    var stateful := Utilities.StatefulAttributes(d.attributes).value;
    forall i | 0 <= i < |d.attributes| && Utilities.IsStateful(d.attributes[i].typ) == Success(true)
      ensures exists j :: 0 <= j < |m.signature.params| && m.signature.params[j].name == m.fields[i].value
    {
      assert d.attributes[i] in stateful;
      var j :| 0 <= j < |stateful| && stateful[j] == d.attributes[i];
      assert m.signature.params[j].name == m.fields[i].value;
    }
  }

  /*
   * ---------- The flattener and the range checker ----------
   */

  /** `ImmutableList.of(node)`, or that followed by `super.reduce<node>(node, args…)`. */
  datatype FlatBody = OnlyNode | NodeThenSuper(args: seq<string>)

  datatype FlattenerMethod = FlattenerMethod(signature: Signature, body: FlatBody)

  function FieldNames(attrs: seq<Attribute>): (r: seq<string>)
    ensures |r| == |attrs| && forall i :: 0 <= i < |attrs| ==> r[i] == Utilities.Sanitize(attrs[i].name)
  {
    if attrs == [] then [] else [Utilities.Sanitize(attrs[0].name)] + FieldNames(attrs[1..])
  }

  /** The `Flattener` entry of a leaf. */
  function FlattenerEntry(n: string, d: NodeDecl): (r: Result<FlattenerMethod>)
    ensures r.Success? ==> (SignatureOf(n, d, Slot("ImmutableList<Node>")).Success?
      && r.value.signature == SignatureOf(n, d, Slot("ImmutableList<Node>")).value)
    ensures r.Success? ==> var attrs := Utilities.StatefulAttributes(d.attributes).value;
      (r.value.body.OnlyNode? <==> attrs == [])
      && (r.value.body.NodeThenSuper? ==> r.value.body.args == FieldNames(attrs))
  {
    var sig :- SignatureOf(n, d, Slot("ImmutableList<Node>"));
    var attrs := Utilities.StatefulAttributes(d.attributes).value;
    Success(FlattenerMethod(sig, if |sig.params| == 0 then OnlyNode else NodeThenSuper(FieldNames(attrs))))
  }

  /** The list a flattener method returns, with the list monoid of its superclass. */
  function Flatten<N(!new)>(body: FlatBody, node: N, reds: seq<Red>, args: seq<Arg<seq<N>>>): Option<seq<N>>
  {
    match body
    case OnlyNode => Some([node])
    case NodeThenSuper(_) =>
      match Evaluate(CombineAsWritten(reds), args, (a: seq<N>, b: seq<N>) => a + b, [])
      case Some(rest) => Some([node] + rest)
      case None => None
  }

  lemma ListMonoid<N(!new)>()
    ensures IsMonoid((a: seq<N>, b: seq<N>) => a + b, [])
  {
    forall a: seq<N>, b: seq<N>, c: seq<N>
      ensures (a + b) + c == a + (b + c)
    {
      assert (a + b) + c == a + (b + c);
    }
    forall a: seq<N>
      ensures [] + a == a && a + [] == a
    {
      assert [] + a == a && a + [] == a;
    }
  }

  /**
   * Both branches of a flattener method return the node followed by every stateful
   * attribute's nodes in order: with no attributes that list is just the node. The one
   * exception is the ill-typed `fold1` shape, which has no value.
   */
  lemma FlattenerPrepends<N(!new)>(body: FlatBody, node: N, reds: seq<Red>, args: seq<Arg<seq<N>>>)
    requires body.OnlyNode? ==> reds == []
    requires |args| == |reds| && forall i :: 0 <= i < |reds| ==> Matches(reds[i].wrapping, args[i])
    ensures Flatten(body, node, reds, args)
      == if Fold1OverMaybes(reds) then None else Some([node] + Total(args, (a: seq<N>, b: seq<N>) => a + b, []))
  {
    var append := (a: seq<N>, b: seq<N>) => a + b;
    ListMonoid<N>();
    if body.OnlyNode? {
      assert Total(args, append, []) == [];
      assert [node] + [] == [node];
    } else {
      MonoidalAsWrittenSound(reds, args, append, []);
    }
  }

  /** `accept(node, super.reduce<node>(node, args…))`. */
  datatype RangeMethod = RangeMethod(signature: Signature, superArgs: seq<string>)

  /** The `RangeCheckerReducer` entry of a leaf. */
  function RangeEntry(n: string, d: NodeDecl): (r: Result<RangeMethod>)
    ensures r.Success? ==> (SignatureOf(n, d, Slot("RangeChecker")).Success?
      && r.value.signature == SignatureOf(n, d, Slot("RangeChecker")).value
      && r.value.superArgs == FieldNames(Utilities.StatefulAttributes(d.attributes).value)
      && |r.value.superArgs| == |r.value.signature.params|)
  {
    var sig :- SignatureOf(n, d, Slot("RangeChecker"));
    Success(RangeMethod(sig, FieldNames(Utilities.StatefulAttributes(d.attributes).value)))
  }
}
