/**
 * The first reducer generator. It reads the node table of the `shift-spec` package directly
 * and writes the `Reducer` interface, the `MonoidalReducer` and the `CloneReducer`, one method
 * per entry of the table in sorted order. Its types are the package's type objects, told apart
 * by `typeName`, not the semantic types the later generators use.
 */
module LegacyReducers {
  import opened Wrappers
  import Text
  import Utilities
  import SemanticTypes
  import Reducers

  /*
   * ---------- The package's types ----------
   */

  /**
   * A type object of the package. `Maybe` and `List` carry their `argument` and `Union` its
   * `arguments`; a union also carries the identity of its object, because the generator
   * compares type objects with `===`. Every other type is known by its `typeName` alone:
   * `Boolean`, `Number`, `String`, `Enum`, or the name of a node type.
   */
  datatype SpecType =
    | Maybe(argument: SpecType)
    | List(argument: SpecType)
    | Union(ref: nat, arguments: seq<SpecType>)
    | Leaf(typeName: string)

  function TypeName(t: SpecType): string
  {
    match t
    case Maybe(_) => "Maybe"
    case List(_) => "List"
    case Union(_, _) => "Union"
    case Leaf(n) => n
  }

  datatype Field = Field(name: string, typ: SpecType)

  /** An entry of the package's table: a node type and its fields, the `type` field included. */
  datatype SpecNode = SpecNode(typeName: string, fields: seq<Field>)

  /*
   * ---------- Java types of the parameters ----------
   */

  /** The second argument of `name`: absent or empty means `State`. */
  function DefaultName(def: Option<string>): (r: string)
    ensures r != ""
    ensures def.Some? && def.value != "" ==> r == def.value
    ensures def.None? || def.value == "" ==> r == "State"
  {
    if def.None? || def.value == "" then "State" else def.value
  }

  /** `name(type, def)`: the wrappers around the state type. */
  function Name(t: SpecType, def: Option<string>): string
  {
    match t
    case Maybe(a) => "Maybe<" + Name(a, def) + ">"
    case List(a) => "ImmutableList<" + Name(a, def) + ">"
    case _ => DefaultName(def)
  }

  /** The wrappers of a type around a node named `d`: what `Name` keeps of a type. */
  function Skeleton(t: SpecType, d: string): (r: SemanticTypes.SemanticType)
  {
    match t
    case Maybe(a) => SemanticTypes.Nullable(Skeleton(a, d))
    case List(a) => SemanticTypes.List(Skeleton(a, d))
    case _ => SemanticTypes.Node(d)
  }

  /**
   * The parameter type reads back into the `Maybe`/`List` wrappers of the field's type around
   * the state type: every other type, a union or a node or a value, becomes the state type.
   */
  lemma {:induction false} NameReadsBack(t: SpecType, def: Option<string>)
    requires Utilities.PlainName(DefaultName(def))
    ensures Utilities.ParseJavaType(Name(t, def)) == Some(Skeleton(t, DefaultName(def)))
  {
    match t
    case Maybe(a) =>
      NameReadsBack(a, def);
      Utilities.ParseMaybe(Name(a, def));
    case List(a) =>
      NameReadsBack(a, def);
      Utilities.ParseImmutableList(Name(a, def));
    case _ =>
      Utilities.ParsePlainNode(DefaultName(def));
  }

  /** Two fields get the same parameter type exactly when their wrappers agree. */
  lemma NameInjective(t1: SpecType, t2: SpecType, def: Option<string>)
    requires Utilities.PlainName(DefaultName(def))
    ensures Name(t1, def) == Name(t2, def) <==> Skeleton(t1, DefaultName(def)) == Skeleton(t2, DefaultName(def))
  {
    NameReadsBack(t1, def);
    NameReadsBack(t2, def);
    if Skeleton(t1, DefaultName(def)) == Skeleton(t2, DefaultName(def)) {
      SkeletonDeterminesName(t1, t2, def);
    }
  }

  lemma {:induction false} SkeletonDeterminesName(t1: SpecType, t2: SpecType, def: Option<string>)
    requires Skeleton(t1, DefaultName(def)) == Skeleton(t2, DefaultName(def))
    ensures Name(t1, def) == Name(t2, def)
  {
    if t1.Maybe? || t1.List? {
      SkeletonDeterminesName(t1.argument, t2.argument, def);
    }
  }

  /*
   * ---------- Which fields carry state ----------
   */

  /** The `typeName`s of fields that never carry state. */
  predicate Plain(n: string)
  {
    n == "Boolean" || n == "Number" || n == "String" || n == "Enum"
  }

  /** `isStatefulType(type)`. */
  function IsStatefulSpec(t: SpecType): bool
  {
    match t
    case Maybe(a) => IsStatefulSpec(a)
    case Leaf(n) => !Plain(n)
    case _ => true
  }

  /** The type under all outer `Maybe` wrappers. */
  function StripMaybe(t: SpecType): (r: SpecType)
    ensures !r.Maybe?
  {
    if t.Maybe? then StripMaybe(t.argument) else t
  }

  /**
   * A field carries state unless, under its `Maybe` wrappers, it is a boolean, a number, a
   * string or an enum: a list carries state whatever it holds, and so does a union.
   */
  lemma {:induction false} IsStatefulSpecByCore(t: SpecType)
    ensures IsStatefulSpec(t) <==> !(StripMaybe(t).Leaf? && Plain(StripMaybe(t).typeName))
  {
    if t.Maybe? {
      IsStatefulSpecByCore(t.argument);
    }
  }

  /** `fields.filter(f => f.name !== 'type')`. */
  function NonTypeFields(fields: seq<Field>): (r: seq<Field>)
    ensures forall f :: f in r <==> f in fields && f.name != "type"
    ensures |r| <= |fields|
  {
    if fields == [] then []
    else (if fields[0].name == "type" then [] else [fields[0]]) + NonTypeFields(fields[1..])
  }

  /** `fields.filter(f => f.name !== 'type' && isStatefulType(f.type))`. */
  function StatefulFields(fields: seq<Field>): (r: seq<Field>)
    ensures forall f :: f in r <==> f in fields && f.name != "type" && IsStatefulSpec(f.typ)
    ensures |r| <= |fields|
  {
    if fields == [] then []
    else (if fields[0].name != "type" && IsStatefulSpec(fields[0].typ) then [fields[0]] else []) + StatefulFields(fields[1..])
  }

  /** One parameter per field: its type through `name`, its name through `sanitize`. */
  function ParamsOf(fields: seq<Field>, def: Option<string>): (r: seq<Reducers.Param>)
    ensures |r| == |fields|
    ensures forall i :: 0 <= i < |fields| ==> r[i] == Reducers.Param(Name(fields[i].typ, def), Utilities.Sanitize(fields[i].name))
  {
    if fields == [] then [] else [Reducers.Param(Name(fields[0].typ, def), Utilities.Sanitize(fields[0].name))] + ParamsOf(fields[1..], def)
  }

  /*
   * ---------- The three generated classes ----------
   */

  /** The `Reducer<State>` method of an entry: the node, then one state per stateful field. */
  function ReducerEntry(n: SpecNode): (r: Reducers.Signature)
    ensures r.node == n.typeName
    ensures |r.params| == |StatefulFields(n.fields)|
    ensures forall p <- r.params :: p.name != "type"
    ensures var sf := StatefulFields(n.fields);
      forall i :: 0 <= i < |r.params| ==>
        r.params[i].name == Utilities.Sanitize(sf[i].name)
        && Utilities.ParseJavaType(r.params[i].javaType) == Some(Skeleton(sf[i].typ, "State"))
  {
    var sf := StatefulFields(n.fields);
    var params := ParamsOf(sf, None);
    forall i | 0 <= i < |params|
      ensures params[i].name != "type"
      ensures Utilities.ParseJavaType(params[i].javaType) == Some(Skeleton(sf[i].typ, "State"))
    {
      assert sf[i] in sf;
      NameReadsBack(sf[i].typ, None);
    }
    Reducers.Signature(n.typeName, params)
  }

  /** The wrapper shape `red` looks at, read off `typeName`s. */
  function WrappingOf(t: SpecType): (r: Reducers.Wrapping)
    ensures Reducers.IsList(r) <==> t.List?
  {
    match t
    case Maybe(_) => Reducers.Opt
    case List(a) => if a.Maybe? then Reducers.ManyOpt else Reducers.Many
    case _ => Reducers.Bare
  }

  function RedOf(f: Field): (r: Reducers.Red)
    ensures r.field == Utilities.Sanitize(f.name)
  {
    Reducers.Red(WrappingOf(f.typ), Utilities.Sanitize(f.name))
  }

  function RedsOf(fields: seq<Field>): (r: seq<Reducers.Red>)
    ensures |r| == |fields| && forall i :: 0 <= i < |fields| ==> r[i] == RedOf(fields[i])
  {
    if fields == [] then [] else [RedOf(fields[0])] + RedsOf(fields[1..])
  }

  /**
   * The `MonoidalReducer` method of an entry, with the return rule of the later generator
   * as written: `identity()`, `red` of the one field, `fold1` for a non-list then a list, or
   * `append` over every field's `red` in order.
   */
  function MonoidalEntry(n: SpecNode): (r: Reducers.MonoidalMethod)
    ensures r.signature == ReducerEntry(n)
    ensures var sf := StatefulFields(n.fields);
      (r.result.Identity? <==> sf == [])
      && (r.result.Single? <==> |sf| == 1)
      && (r.result.Fold1? <==> |sf| == 2 && sf[1].typ.List? && !sf[0].typ.List?)
      && (r.result.Fold1? ==> r.result.list == Utilities.Sanitize(sf[1].name) && r.result.first == RedOf(sf[0]))
      && (r.result.AppendAll? ==> r.result.reds == RedsOf(sf))
  {
    Reducers.MonoidalMethod(ReducerEntry(n), Reducers.CombineAsWritten(RedsOf(StatefulFields(n.fields))))
  }

  /**
   * For any monoid, a monoidal method returns its states appended in field order, each
   * optional state defaulting to the identity and each list folded; the one exception is
   * a non-list then a list of optional states, whose `fold1` has no value.
   */
  lemma MonoidalAppendsInOrder<S(!new)>(n: SpecNode, args: seq<Reducers.Arg<S>>, append: (S, S) -> S, identity: S)
    requires Reducers.IsMonoid(append, identity)
    requires var reds := RedsOf(StatefulFields(n.fields));
      |args| == |reds| && forall i :: 0 <= i < |reds| ==> Reducers.Matches(reds[i].wrapping, args[i])
    ensures Reducers.Evaluate(MonoidalEntry(n).result, args, append, identity)
      == if Reducers.Fold1OverMaybes(RedsOf(StatefulFields(n.fields))) then None else Some(Reducers.Total(args, append, identity))
  {
    Reducers.MonoidalAsWrittenSound(RedsOf(StatefulFields(n.fields)), args, append, identity);
  }

  /*
   * ---------- Casts in the CloneReducer ----------
   */

  /**
   * The seven union objects `deUnion` recognises by identity, read from fixed fields of the
   * table. Two of them are `.argument.argument` of a field's type and are `undefined` when
   * that type is not wrapped twice.
   */
  datatype KnownTypes = KnownTypes(
    expression: Option<SpecType>,
    statement: Option<SpecType>,
    assignmentTarget: Option<SpecType>,
    assignmentTargetWithDefault: Option<SpecType>,
    bindingWithDefault: Option<SpecType>,
    propertyName: Option<SpecType>,
    simpleAssignmentTarget: Option<SpecType>)

  /** `Spec[node].fields[i].type`; a missing entry or field throws when the script loads. */
  function FieldType(spec: map<string, SpecNode>, node: string, i: nat): (r: Result<SpecType>)
    ensures r.Success? <==> node in spec && i < |spec[node].fields|
  {
    if node in spec && i < |spec[node].fields| then Success(spec[node].fields[i].typ)
    else Failure("TypeError")
  }

  /** `t.argument.argument`: `undefined` unless both levels are wrapped, and a throw when the outer one is not. */
  function ArgumentOfArgument(t: SpecType): (r: Result<Option<SpecType>>)
    ensures r.Success? <==> (t.Maybe? || t.List?)
    ensures r.Success? && r.value.Some? ==> (t.argument.Maybe? || t.argument.List?) && r.value.value == t.argument.argument
  {
    if !(t.Maybe? || t.List?) then Failure("TypeError")
    else if t.argument.Maybe? || t.argument.List? then Success(Some(t.argument.argument))
    else Success(None)
  }

  function KnownTypesOf(spec: map<string, SpecNode>): (r: Result<KnownTypes>)
    ensures r.Success? ==> r.value.expression.Some? && FieldType(spec, "ExpressionStatement", 1) == Success(r.value.expression.value)
    ensures r.Success? ==> r.value.statement.Some? && FieldType(spec, "LabeledStatement", 2) == Success(r.value.statement.value)
    ensures r.Success? ==> r.value.assignmentTarget.Some? && FieldType(spec, "AssignmentExpression", 1) == Success(r.value.assignmentTarget.value)
    ensures FieldType(spec, "ExpressionStatement", 1).Failure? ==> r.Failure?
  {
    var expression :- FieldType(spec, "ExpressionStatement", 1);
    var statement :- FieldType(spec, "LabeledStatement", 2);
    var assignmentTarget :- FieldType(spec, "AssignmentExpression", 1);
    var atOuter :- FieldType(spec, "ArrayAssignmentTarget", 1);
    var atwd :- ArgumentOfArgument(atOuter);
    var bOuter :- FieldType(spec, "ArrayBinding", 1);
    var bbwd :- ArgumentOfArgument(bOuter);
    var propertyName :- FieldType(spec, "BindingPropertyProperty", 1);
    var simple :- FieldType(spec, "UpdateExpression", 3);
    Success(KnownTypes(Some(expression), Some(statement), Some(assignmentTarget), atwd, bbwd, Some(propertyName), Some(simple)))
  }

  /** `eq(t, known)`: the same object; `undefined` is no type's object. */
  predicate Is(t: SpecType, known: Option<SpecType>)
  {
    known == Some(t)
  }

  /**
   * The cases of the `switch` on the concatenated member names. Each case is written as the
   * member names it concatenates, with the name of the interface it returns.
   */
  const Renames: seq<(seq<string>, string)> := [
      (["ObjectBinding", "ArrayBinding", "BindingIdentifier"], "Binding"),
      (["ObjectAssignmentTarget", "ArrayAssignmentTarget", "BindingIdentifier", "ComputedMemberAssignmentTarget", "StaticMemberAssignmentTarget"], "AssignmentTarget"),
      (["ObjectAssignmentTarget", "ArrayAssignmentTarget", "BindingIdentifier", "ComputedMemberAssignmentTarget", "StaticMemberAssignmentTarget", "AssignmentTargetWithDefault"], "AssignmentTargetAssignmentTargetWithDefault"),
      (["ObjectBinding", "ArrayBinding", "BindingIdentifier", "BindingWithDefault"], "BindingBindingWithDefault"),
      (["DoWhileStatement", "ForInStatement", "ForOfStatement", "ForStatement", "WhileStatement", "ClassDeclaration", "BlockStatement", "BreakStatement", "ContinueStatement", "DebuggerStatement", "EmptyStatement", "ExpressionStatement", "IfStatement", "LabeledStatement", "ReturnStatement", "SwitchStatement", "SwitchStatementWithDefault", "ThrowStatement", "TryCatchStatement", "TryFinallyStatement", "VariableDeclarationStatement", "WithStatement", "FunctionDeclaration"], "Statement"),
      (["BindingIdentifier", "ComputedMemberAssignmentTarget", "StaticMemberAssignmentTarget"], "SimpleAssignmentTarget"),
      (["VariableDeclaration", "ObjectAssignmentTarget", "ArrayAssignmentTarget", "BindingIdentifier", "ComputedMemberAssignmentTarget", "StaticMemberAssignmentTarget"], "VariableDeclarationAssignmentTarget"),
      (["Import", "ImportNamespace"], "ImportDeclaration"),
      (["ExportAllFrom", "ExportFrom", "ExportLocals", "Export", "ExportDefault"], "ExportDeclaration"),
      (["MethodDefinition", "DataProperty", "ShorthandProperty"], "ObjectProperty"),
      (["Method", "Getter", "Setter"], "MethodDefinition"),
      (["AssignmentTargetPropertyIdentifier", "AssignmentTargetPropertyProperty"], "AssignmentTargetProperty"),
      (["BindingPropertyIdentifier", "BindingPropertyProperty"], "BindingProperty")
    ]

  /** The interface name of the first case from `i` on that spells `rv`; `rv` itself when none does. */
  function RenamedFrom(rv: string, i: nat): string
    decreases |Renames| - i
  {
    if i >= |Renames| then rv
    else if Text.Join(Renames[i].0, "") == rv then Renames[i].1
    else RenamedFrom(rv, i + 1)
  }

  /** The `switch`: a listed concatenation gets its interface's name; any other stays as it is. */
  function Renamed(rv: string): string
  {
    RenamedFrom(rv, 0)
  }

  /** Every case concatenates at least one member name of six letters or more. */
  lemma CasesLong()
    ensures forall i :: 0 <= i < |Renames| ==> |Renames[i].0| > 0 && |Renames[i].0[0]| >= 6
  {
  }

  lemma JoinAtLeastFirst(ws: seq<string>)
    requires |ws| > 0
    ensures |Text.Join(ws, "")| >= |ws[0]|
  {
  }

  lemma {:induction false} RenamedFromShort(rv: string, i: nat)
    requires |rv| < 6
    ensures RenamedFrom(rv, i) == rv
    decreases |Renames| - i
  {
    if i < |Renames| {
      CasesLong();
      JoinAtLeastFirst(Renames[i].0);
      RenamedFromShort(rv, i + 1);
    }
  }

  /** A concatenation shorter than every case is kept as it is. */
  lemma RenamedShort(rv: string)
    requires |rv| < 6
    ensures Renamed(rv) == rv
  {
    RenamedFromShort(rv, 0);
  }

  /**
   * `deUnion` as written: the second test compares with the expression type again, so it
   * never returns `Statement`, and the assignment-target test has no `return`, so that type
   * goes on to the later tests.
   */
  function DeUnionAsWritten(k: KnownTypes, t: SpecType): (r: string)
    ensures !t.Union? && !IsKnown(k, t) ==> r == TypeName(t)
    decreases t
  {
    if Is(t, k.expression) then "Expression"
    else if Is(t, k.propertyName) then "PropertyName"
    else if Is(t, k.simpleAssignmentTarget) then "SimpleAssignmentTarget"
    else if Is(t, k.assignmentTargetWithDefault) then "AssignmentTargetAssignmentTargetWithDefault"
    else if Is(t, k.bindingWithDefault) then "BindingBindingWithDefault"
    else if t.Union? then Renamed(JoinAsWritten(k, t.arguments))
    else TypeName(t)
  }

  function JoinAsWritten(k: KnownTypes, ms: seq<SpecType>): string
    decreases ms
  {
    if ms == [] then "" else DeUnionAsWritten(k, ms[0]) + JoinAsWritten(k, ms[1..])
  }

  /** `deUnion` with the statement type compared and the assignment-target case returning. */
  function DeUnion(k: KnownTypes, t: SpecType): (r: string)
    ensures !t.Union? && !IsKnown(k, t) ==> r == TypeName(t)
    decreases t
  {
    if Is(t, k.expression) then "Expression"
    else if Is(t, k.statement) then "Statement"
    else if Is(t, k.assignmentTarget) then "AssignmentTarget"
    else if Is(t, k.propertyName) then "PropertyName"
    else if Is(t, k.simpleAssignmentTarget) then "SimpleAssignmentTarget"
    else if Is(t, k.assignmentTargetWithDefault) then "AssignmentTargetAssignmentTargetWithDefault"
    else if Is(t, k.bindingWithDefault) then "BindingBindingWithDefault"
    else if t.Union? then Renamed(Join(k, t.arguments))
    else TypeName(t)
  }

  function Join(k: KnownTypes, ms: seq<SpecType>): string
    decreases ms
  {
    if ms == [] then "" else DeUnion(k, ms[0]) + Join(k, ms[1..])
  }

  predicate IsKnown(k: KnownTypes, t: SpecType)
  {
    Is(t, k.expression) || Is(t, k.statement) || Is(t, k.assignmentTarget) || Is(t, k.propertyName)
    || Is(t, k.simpleAssignmentTarget) || Is(t, k.assignmentTargetWithDefault) || Is(t, k.bindingWithDefault)
  }

  /** Whether `s` is `t` or one of its members, at any depth of unions: what `deUnion` visits. */
  predicate Reaches(t: SpecType, s: SpecType)
    decreases t
  {
    t == s || (t.Union? && exists i :: 0 <= i < |t.arguments| && Reaches(t.arguments[i], s))
  }

  /** Neither the statement type nor the assignment-target type occurs where `deUnion` looks. */
  predicate Avoids(k: KnownTypes, t: SpecType)
  {
    (k.statement.Some? ==> !Reaches(t, k.statement.value))
    && (k.assignmentTarget.Some? ==> !Reaches(t, k.assignmentTarget.value))
  }

  /** The seven known types, in the order `deUnion` tests them. */
  function KnownList(k: KnownTypes): seq<Option<SpecType>>
  {
    [k.expression, k.statement, k.assignmentTarget, k.propertyName, k.simpleAssignmentTarget,
     k.assignmentTargetWithDefault, k.bindingWithDefault]
  }

  /** With seven different objects, each known type gets the name of its interface. */
  lemma DeUnionKnown(k: KnownTypes)
    requires forall o <- KnownList(k) :: o.Some?
    requires Text.Distinct(KnownList(k))
    ensures DeUnion(k, k.expression.value) == "Expression"
    ensures DeUnion(k, k.statement.value) == "Statement"
    ensures DeUnion(k, k.assignmentTarget.value) == "AssignmentTarget"
    ensures DeUnion(k, k.propertyName.value) == "PropertyName"
    ensures DeUnion(k, k.simpleAssignmentTarget.value) == "SimpleAssignmentTarget"
    ensures DeUnion(k, k.assignmentTargetWithDefault.value) == "AssignmentTargetAssignmentTargetWithDefault"
    ensures DeUnion(k, k.bindingWithDefault.value) == "BindingBindingWithDefault"
  {
    var l := KnownList(k);
    assert l[0] != l[1] && l[0] != l[2] && l[1] != l[2] && l[3] != l[0] && l[3] != l[1] && l[3] != l[2];
    assert l[4] != l[0] && l[4] != l[1] && l[4] != l[2] && l[4] != l[3];
    assert l[5] != l[0] && l[5] != l[1] && l[5] != l[2] && l[5] != l[3] && l[5] != l[4];
    assert l[6] != l[0] && l[6] != l[1] && l[6] != l[2] && l[6] != l[3] && l[6] != l[4] && l[6] != l[5];
  }

  /**
   * Wherever neither the statement type nor the assignment-target type is reached, the
   * function as written and the corrected one agree.
   */
  lemma {:induction false} AsWrittenAgrees(k: KnownTypes, t: SpecType)
    requires Avoids(k, t)
    ensures DeUnionAsWritten(k, t) == DeUnion(k, t)
    decreases t
  {
    if t.Union? && !IsKnown(k, t) {
      forall i | 0 <= i < |t.arguments|
        ensures Avoids(k, t.arguments[i])
      {
        AvoidsMember(k, t, i);
      }
      JoinAgrees(k, t.arguments);
    }
  }

  lemma AvoidsMember(k: KnownTypes, t: SpecType, i: int)
    requires t.Union? && 0 <= i < |t.arguments| && Avoids(k, t)
    ensures Avoids(k, t.arguments[i])
  {
  }

  lemma {:induction false} JoinAgrees(k: KnownTypes, ms: seq<SpecType>)
    requires forall i :: 0 <= i < |ms| ==> Avoids(k, ms[i])
    ensures JoinAsWritten(k, ms) == Join(k, ms)
    decreases ms
  {
    if ms != [] {
      AsWrittenAgrees(k, ms[0]);
      JoinAgrees(k, ms[1..]);
    }
  }

  /**
   * As written, a statement type whose members do not spell out the listed concatenation is
   * named after its members, and so is an assignment-target type.
   */
  lemma StatementMisnamed()
    ensures var st := Union(2, [Leaf("A"), Leaf("B")]);
      var at := Union(3, [Leaf("C")]);
      var k := KnownTypes(Some(Union(1, [Leaf("E")])), Some(st), Some(at), None, None, None, None);
      DeUnionAsWritten(k, st) == "AB" && DeUnion(k, st) == "Statement"
      && DeUnionAsWritten(k, at) == "C" && DeUnion(k, at) == "AssignmentTarget"
  {
    var st := Union(2, [Leaf("A"), Leaf("B")]);
    var at := Union(3, [Leaf("C")]);
    var k := KnownTypes(Some(Union(1, [Leaf("E")])), Some(st), Some(at), None, None, None, None);
    assert JoinAsWritten(k, [Leaf("B")]) == "B";
    assert JoinAsWritten(k, st.arguments) == "AB";
    RenamedShort("AB");
    assert JoinAsWritten(k, at.arguments) == "C";
    RenamedShort("C");
  }

  /**
   * As written, the statement type and the assignment-target type still get their names
   * exactly when their members run together to the switch's case for that name: the
   * `switch` masks the two broken tests for such a union.
   */
  lemma SwitchMasksKnownUnions(k: KnownTypes)
    requires forall o <- KnownList(k) :: o.Some?
    requires Text.Distinct(KnownList(k))
    requires var st := k.statement.value; st.Union? && forall i :: 0 <= i < |st.arguments| ==> Avoids(k, st.arguments[i])
    requires var at := k.assignmentTarget.value; at.Union? && forall i :: 0 <= i < |at.arguments| ==> Avoids(k, at.arguments[i])
    ensures DeUnionAsWritten(k, k.statement.value) == DeUnion(k, k.statement.value)
      <==> Renamed(Join(k, k.statement.value.arguments)) == "Statement"
    ensures DeUnionAsWritten(k, k.assignmentTarget.value) == DeUnion(k, k.assignmentTarget.value)
      <==> Renamed(Join(k, k.assignmentTarget.value.arguments)) == "AssignmentTarget"
  {
    DeUnionKnown(k);
    var l := KnownList(k);
    assert l[1] != l[0] && l[1] != l[3] && l[1] != l[4] && l[1] != l[5] && l[1] != l[6];
    assert l[2] != l[0] && l[2] != l[3] && l[2] != l[4] && l[2] != l[5] && l[2] != l[6];
    JoinAgrees(k, k.statement.value.arguments);
    JoinAgrees(k, k.assignmentTarget.value.arguments);
  }

  /** `cl(field)`: how the `CloneReducer` passes a field to the node's constructor. */
  function Cl(k: KnownTypes, f: Field): (r: Reducers.CloneArg)
    ensures r.field == Utilities.Sanitize(f.name)
    ensures r.Copied? <==> !IsStatefulSpec(f.typ)
  {
    var n := Utilities.Sanitize(f.name);
    if !IsStatefulSpec(f.typ) then Reducers.Copied(n)
    else
      match f.typ
      case List(a) =>
        if a.Maybe? then Reducers.MappedTwice(n, DeUnionAsWritten(k, a.argument))
        else Reducers.MappedOnce(n, DeUnionAsWritten(k, a))
      case Maybe(a) => Reducers.MappedOnce(n, DeUnionAsWritten(k, a))
      case _ => Reducers.Cast(DeUnionAsWritten(k, f.typ), n)
  }

  /**
   * A state is cast to the union or node under one list or `Maybe`, or under a list of
   * `Maybe`s; an optional list is cast to `List` itself.
   */
  lemma ClCastsElement(k: KnownTypes, f: Field, name: string)
    ensures f.typ == List(Maybe(Leaf(name))) && !Plain(name) && !IsKnown(k, Leaf(name))
      ==> Cl(k, f) == Reducers.MappedTwice(Utilities.Sanitize(f.name), name)
    ensures f.typ == Maybe(Leaf(name)) && !Plain(name) && !IsKnown(k, Leaf(name))
      ==> Cl(k, f) == Reducers.MappedOnce(Utilities.Sanitize(f.name), name)
    ensures f.typ == Maybe(List(Leaf(name))) && !IsKnown(k, List(Leaf(name)))
      ==> Cl(k, f) == Reducers.MappedOnce(Utilities.Sanitize(f.name), "List")
  {
    if f.typ == Maybe(Leaf(name)) && !Plain(name) && !IsKnown(k, Leaf(name)) {
      assert IsStatefulSpec(f.typ) && DeUnionAsWritten(k, Leaf(name)) == name;
    }
    if f.typ == Maybe(List(Leaf(name))) && !IsKnown(k, List(Leaf(name))) {
      assert IsStatefulSpec(f.typ) && DeUnionAsWritten(k, List(Leaf(name))) == "List";
    }
  }

  function ClArgs(k: KnownTypes, fields: seq<Field>): (r: seq<Reducers.CloneArg>)
    ensures |r| == |fields| && forall i :: 0 <= i < |fields| ==> r[i] == Cl(k, fields[i])
  {
    if fields == [] then [] else [Cl(k, fields[0])] + ClArgs(k, fields[1..])
  }

  /**
   * The `CloneReducer` method of an entry: `Reducer<Node>` parameters, the node's own type as
   * return type, and a constructor call over every field but `type`.
   */
  function CloneEntry(k: KnownTypes, n: SpecNode): (r: Reducers.CloneMethod)
    ensures r.returnType == n.typeName && r.signature.node == n.typeName
    ensures |r.signature.params| == |StatefulFields(n.fields)|
    ensures var sf := StatefulFields(n.fields);
      forall j :: 0 <= j < |r.signature.params| ==>
        r.signature.params[j].name == Utilities.Sanitize(sf[j].name)
        && Utilities.ParseJavaType(r.signature.params[j].javaType) == Some(Skeleton(sf[j].typ, "Node"))
    ensures var nt := NonTypeFields(n.fields);
      |r.args| == |nt| && forall i :: 0 <= i < |nt| ==> r.args[i] == Cl(k, nt[i])
  {
    var sf := StatefulFields(n.fields);
    var params := ParamsOf(sf, Some("Node"));
    forall j | 0 <= j < |params|
      ensures Utilities.ParseJavaType(params[j].javaType) == Some(Skeleton(sf[j].typ, "Node"))
    {
      NameReadsBack(sf[j].typ, Some("Node"));
    }
    Reducers.CloneMethod(n.typeName, Reducers.Signature(n.typeName, params), ClArgs(k, NonTypeFields(n.fields)))
  }

  /**
   * The constructor call reads nothing but parameters and fields of `node`: a re-cast
   * argument names a parameter of its method.
   */
  lemma CloneReadsOnlyParams(k: KnownTypes, n: SpecNode, i: int)
    requires var c := CloneEntry(k, n); 0 <= i < |c.args| && !c.args[i].Copied?
    ensures var c := CloneEntry(k, n);
      exists j :: 0 <= j < |c.signature.params| && c.signature.params[j].name == c.args[i].field
  {
    var nt := NonTypeFields(n.fields);
    var sf := StatefulFields(n.fields);
    var ps := ParamsOf(sf, Some("Node"));
    assert Cl(k, nt[i]) == CloneEntry(k, n).args[i];
    assert nt[i] in sf;
    var j :| 0 <= j < |sf| && sf[j] == nt[i];
    assert ps[j].name == Utilities.Sanitize(sf[j].name);
  }

  /** Every parameter of the method is read by the constructor call. */
  lemma CloneReadsEveryParam(k: KnownTypes, n: SpecNode, j: int)
    requires 0 <= j < |CloneEntry(k, n).signature.params|
    ensures var c := CloneEntry(k, n);
      exists i :: 0 <= i < |c.args| && !c.args[i].Copied? && c.args[i].field == c.signature.params[j].name
  {
    var nt := NonTypeFields(n.fields);
    var sf := StatefulFields(n.fields);
    var ps := ParamsOf(sf, Some("Node"));
    assert sf[j] in nt;
    var i :| 0 <= i < |nt| && nt[i] == sf[j];
    var args := ClArgs(k, nt);
    assert args[i] == Cl(k, nt[i]);
    assert ps[j].name == Utilities.Sanitize(sf[j].name);
  }

  /*
   * ---------- The generator ----------
   */

  /** `Object.keys(Spec).sort()`. */
  method SortedKeys(spec: map<string, SpecNode>) returns (names: seq<string>)
    ensures Text.Ordered(names) && Text.Distinct(names) && forall n :: n in names <==> n in spec
  {
    var keys := Text.KeysOf(spec.Keys);
    names := Text.Sort(keys);
    Text.SortDistinct(keys);
  }

  /**
   * The loop of each of the three files: the method of every entry, in the order of `names`.
   */
  method EntriesOf<T>(spec: map<string, SpecNode>, names: seq<string>, entry: SpecNode -> T) returns (methods: seq<T>)
    requires forall n <- names :: n in spec
    ensures |methods| == |names| && forall i :: 0 <= i < |names| ==> methods[i] == entry(spec[names[i]])
  {
    methods := [];
    for i := 0 to |names|
      invariant |methods| == i && forall j :: 0 <= j < i ==> methods[j] == entry(spec[names[j]])
    {
      methods := methods + [entry(spec[names[i]])];
    }
  }

  /**
   * The script: the `Reducer` and `MonoidalReducer` methods of every entry in sorted order,
   * each file written as soon as its loop ends; then the known union types, which throw when
   * the table lacks one of their fields, so that only the `CloneReducer` file is lost; then
   * the `CloneReducer` methods.
   */
  method Generate(spec: map<string, SpecNode>)
    returns (names: seq<string>, reducer: seq<Reducers.Signature>, monoidal: seq<Reducers.MonoidalMethod>,
             clone: Result<seq<Reducers.CloneMethod>>)
    ensures Text.Ordered(names) && Text.Distinct(names) && forall n :: n in names <==> n in spec
    ensures |reducer| == |names| && forall i :: 0 <= i < |names| ==> reducer[i] == ReducerEntry(spec[names[i]])
    ensures |monoidal| == |names| && forall i :: 0 <= i < |names| ==> monoidal[i] == MonoidalEntry(spec[names[i]])
    ensures clone.Success? <==> KnownTypesOf(spec).Success?
    ensures clone.Failure? ==> clone.error == KnownTypesOf(spec).error
    ensures clone.Success? ==> |clone.value| == |names|
    ensures clone.Success? ==>
      forall i :: 0 <= i < |names| ==> clone.value[i] == CloneEntry(KnownTypesOf(spec).value, spec[names[i]])
  {
    names := SortedKeys(spec);
    reducer := EntriesOf(spec, names, ReducerEntry);
    monoidal := EntriesOf(spec, names, MonoidalEntry);
    var known := KnownTypesOf(spec);
    if known.Failure? {
      return names, reducer, monoidal, Failure(known.error);
    }
    var methods := EntriesOf(spec, names, n => CloneEntry(known.value, n));
    clone := Success(methods);
  }

  /** The sorted order is fixed by the keys alone. */
  lemma NamesDetermined(spec: map<string, SpecNode>, a: seq<string>, b: seq<string>)
    requires Text.Ordered(a) && Text.Distinct(a) && forall n :: n in a <==> n in spec
    requires Text.Ordered(b) && Text.Distinct(b) && forall n :: n in b <==> n in spec
    ensures a == b
  {
    DistinctSameElements(a, b);
    Text.OrderedUnique(a, b);
  }

  lemma DistinctSameElements(a: seq<string>, b: seq<string>)
    requires Text.Distinct(a) && Text.Distinct(b) && forall n :: n in a <==> n in b
    ensures multiset(a) == multiset(b)
  {
    forall x
      ensures multiset(a)[x] == multiset(b)[x]
    {
      Text.DistinctCount(a, x);
      Text.DistinctCount(b, x);
      if x in a {
        assert x in multiset(a) && x in multiset(b);
      } else {
        assert x !in multiset(a) && x !in multiset(b);
      }
    }
  }
}
