# shift-spec-java generator core, modelled in Dafny

shift-spec-java generates the Java definition of the Shift ECMAScript AST.
Its input is the Shift WebIDL grammar together with an attribute-order file.
Its output is the AST classes, the directors, the reducer family, the branch
and path accessors, and the JSON deserializer. This project models the logic
that decides what those Java sources contain. It does not model the Java text.

The model follows the stages of the generator, each modelled on its own: no lemma
composes them. The union pass and the emitters take a node graph with `children`
lists as their input. The repository's `consume-spec.js` exports no `children`; the
build scripts instead load the published `shift-spec-consumer` package, which is not
part of this model.

- **Type resolution** (`consume-spec.js`; modules `AttributeOrder`,
  `AttributeSort`, `IdlResolution`, `SpecConsumer`). The attribute-order file
  is parsed into sections. The WebIDL declarations are read into the node
  table, the typedefs and the enums. Leaves are marked, and every IDL type is
  resolved into the closed semantic type of `SemanticTypes`. Each node's
  attribute list is computed once: inherited attributes first, then its own
  members, then a stable sort by the order section.
- **Union elimination** (`unions-to-interfaces.js`; modules `UnionArena`,
  `UnionElimination`). The script mutates shared type objects and memoises on
  their identity. The model therefore keeps those objects in an arena of cells
  addressed by identity. `UnionElimination.Transform` proves the pass's
  post-condition: no attribute type left in the graph has a union or a typedef
  reference at any depth.
- **Emitter decisions**:
  - `Utilities`: the shared `isStatefulType`, `sanitize` and `toJavaType`.
  - `Director`: both directors, with their memoised worklist of dispatch
    methods.
  - `Reducers`: the reducer, thunked reducer, monoidal, clone, flattener and
    reconstructing-reducer rules.
  - `Deserializers`: the deserializer memo.
  - `RangeChecker`: the range-checker monoid.
  - `LegacyReducers`: the older `reducer.js`.
  - `AstClasses`: the class/interface split and the fields, constructor and
    `equals` of the AST classes.
  - `Branches` and `AstPaths`: the accessor kinds, names, return types and
    equality contracts.
  - `Emit`: the sorted per-leaf loop the emitters share.

The emitters return structured descriptors rather than Java text. These are
method names, parameter lists, return rules, and the fields of the generated
classes.

Where the code differs from what one might expect, the model follows the code:
- An inline union's node is re-created by `nodes.set` each time its name is
  met. It is not deduplicated by member signature (unions-to-interfaces.js:62).
- An attribute missing from its node's order section is not a configuration
  error. It gets index -1 and sorts first (consume-spec.js:139).
- A node without an order section only fails when it has two or more
  attributes. Only then does the sort call its comparator.

## Model

| member | source | states |
|---|---|---|
| Text.Sort | branch.js:108 | `Array.prototype.sort` with no comparator: the result is ordered and is a permutation of the input |
| Text.OrderedUnique | branch.js:108 | two ordered permutations of the same strings are equal, so the sorted key order does not depend on the sorting algorithm |
| Text.SortDistinct | scripts/build/reducer.js:47 | sorting the keys of a Map keeps them distinct |
| Text.KeysOf | ast.js:302 | `Array.from(nodes.keys())` lists exactly the keys, each once |
| Text.Split | consume-spec.js:28 | `f.split('\n')`: at least one piece, no piece holds the separator, and joining the pieces with it gives `f` back |
| Text.TrimStartSpec | consume-spec.js:29 | `trim` drops exactly the leading white space: the result is a suffix, does not start with white space, and everything dropped is white space |
| Text.TrimEndSpec | consume-spec.js:29 | likewise for the trailing white space |
| Text.TrimEnds | consume-spec.js:29 | a trimmed line neither starts nor ends with white space |
| Text.TrimIdempotent | consume-spec.js:29 | trimming twice is trimming once |
| Text.Capitalize | branch.js:53-55 | `cap`: undefined (None) exactly for the empty name; otherwise the same length, the same tail, and a first character that is not a lower-case letter |
| Text.CapitalizeIdempotent | scripts/build/ast-path.js:13-15 | capitalising a capitalised name changes nothing |
| Text.IntToStringRoundTrip | scripts/build/ast-path.js:125-127 | the decimal text of an index parses back to that index |
| SemanticTypes.SubtermsClosed | consume-spec.js:146-156 | a nullable or list reachable from a type has its argument reachable too |
| SemanticTypes.SubtermsUnionFree | unions-to-interfaces.js:79-83 | every part of a union-free type is union-free |
| SemanticTypes.StripNullable | scripts/lib/utilities.js:16-17 | the type under the outer nullables is no nullable, and is union-free when the type is |
| SemanticTypes.Innermost | branch.js:99-103 | `base`: the type under all list and nullable wrappers is neither, and is a part of the type |
| SemanticTypes.OwnAttributes | ast.js:316 | the own attributes are exactly the attributes not flagged inherited |
| SemanticTypes.Shape | scripts/build/director.js:56-73 | the attribute shapes the directors name (a node, `Maybe`, `List`, `Maybe<List>`, `List<Maybe>` of a node) all have a node innermost |
| SemanticTypes.SortedLeaves | branch.js:108 | the sorted node names filtered to leaves: ordered, distinct, and exactly the nodes without children |
| SemanticTypes.LeavesAmong | scripts/build/flattener.js:50-52 | filtering names to leaves keeps exactly the names whose node has no children, in order, without duplicates |
| SemanticTypes.LeavesOrdered | scripts/build/reducer.js:47-49 | filtering an ordered list of names keeps it ordered |
| IdlResolution.Collect | consume-spec.js:200 | `members.map(idlTypeToType)` succeeds exactly when every member resolves, and then gives every member's type in order |
| IdlResolution.NameRoundTrip | consume-spec.js:175-189 | a name resolves to a node, value, typedef or enum type exactly as the priority order says: a node beats a value type, which beats a typedef, which beats an enum |
| IdlResolution.NameResolvesToName | consume-spec.js:175-189 | whatever a name resolves to is a type that the priority order assigns to that name |
| IdlResolution.MembersRoundTrip | consume-spec.js:227-232 | resolving the member list of a union spelt in IDL gives back the union's members |
| IdlResolution.ResolveUnparse | consume-spec.js:174-235 | every type IDL can spell (a name or union, `T?`, `T[]` or `T?[]` of one, with a nullable union) resolves from its spelling back to itself |
| IdlResolution.MembersExpressible | consume-spec.js:200 | every resolved union member is a type IDL can spell |
| IdlResolution.ResolvedExpressible | consume-spec.js:191-232 | every successful resolution is one of those spellable shapes, so the round trip covers every result |
| IdlResolution.UnsupportedShapes | consume-spec.js:197-234 | sequences, generics and arrays of depth two or more always fail |
| AttributeOrder.HeaderName | consume-spec.js:32 | a line matched as `[Name]` is exactly `"[" + Name + "]"` with no `]` inside the name |
| AttributeOrder.HeaderNameComplete | consume-spec.js:32 | every bracketed name without a `]` inside is matched |
| AttributeOrder.Step | consume-spec.js:29-37 | one line keeps the parser's state consistent: the open section is always a recorded one |
| AttributeOrder.Run | consume-spec.js:28-38 | the loop keeps that consistency |
| AttributeOrder.ParseAttrOrder | consume-spec.js:25-40 | the loop with its `current` array returns the map (or the error) that the section semantics define |
| AttributeOrder.FailureKept | consume-spec.js:28-38 | once a prefix of the lines throws, the whole file throws the same error |
| AttributeOrder.RunAppend | consume-spec.js:28-38 | parsing two pieces in turn is parsing their concatenation |
| AttributeOrder.BlankLineIgnored | consume-spec.js:30 | a blank line anywhere does not change the result |
| AttributeOrder.BlanksKeepState | consume-spec.js:30 | a run of blank lines leaves the state as it was |
| AttributeOrder.SectionRecorded | consume-spec.js:31-37 | a header followed by attribute lines records exactly those lines, trimmed and in file order, under the name. It replaces an earlier section of that name and leaves the others alone |
| AttributeOrder.SectionExtended | consume-spec.js:36 | one more attribute line appends its trimmed text to the open section |
| AttributeOrder.ContentBeforeHeaderFails | consume-spec.js:36 | an attribute line with only blank lines before it makes the parse fail |
| AttributeOrder.TrimAll | consume-spec.js:29 | every line trimmed, in order |
| AttributeSort.IndexOf | consume-spec.js:139 | `indexOf`: -1 exactly for an unlisted name, otherwise the first position of the name |
| AttributeSort.InsertBy | consume-spec.js:139 | inserting into a sorted list keeps it sorted and adds exactly that element |
| AttributeSort.SortByOrder | consume-spec.js:138-139 | the sort by order index gives a sorted permutation of the attributes |
| AttributeSort.SortByOrderStable | consume-spec.js:139 | stability: attributes with the same index keep their relative order |
| AttributeSort.InsertByWithKey | consume-spec.js:139 | inserting an element puts it before every element of its own index |
| AttributeSort.SortedUnlistedFirst | consume-spec.js:139 | in a sorted list an unlisted attribute stands before every listed one |
| AttributeSort.UnlistedFirst | consume-spec.js:139 | the sort puts every attribute missing from the order section before every listed one |
| SpecConsumer.DeclareAllValid | consume-spec.js:92-113 | after every prefix of the declarations, each Map's key order lists its keys once and every parent is a supertype |
| SpecConsumer.DeclaredNames | consume-spec.js:92-113 | after the loop the nodes are exactly the declared interfaces, and the supertypes exactly the names inherited from or implemented |
| SpecConsumer.AliasesKept | consume-spec.js:106-109 | every typedef and enum declared is registered under its name |
| SpecConsumer.PrefixFailure | consume-spec.js:92-113 | a throw part-way through ends the whole loop |
| SpecConsumer.StepFailure | consume-spec.js:92-113 | a declaration that throws after a successful prefix makes the loop throw |
| SpecConsumer.RedefinitionFails | consume-spec.js:69-81 | a name declared twice as a typedef or an enum, in any combination, throws |
| SpecConsumer.NotDeclaredYet | consume-spec.js:93-98 | only interface declarations create nodes |
| SpecConsumer.ImplementsBeforeInterfaceFails | consume-spec.js:103-105 | an `implements` whose target is not yet a node throws in `inherits` |
| SpecConsumer.TypedefsResolvedKeys | consume-spec.js:116 | the typedef pass defines exactly the typedefs it has gone through |
| SpecConsumer.TypedefStep | consume-spec.js:116 | each typedef is resolved in the scope of every node, the typedefs before it and every enum |
| SpecConsumer.TypedefsResolvedExactly | consume-spec.js:116 | the pass succeeds exactly when every typedef resolves in its own scope |
| SpecConsumer.TypedefsResolvedValues | consume-spec.js:116 | after the pass each typedef maps to its resolution |
| SpecConsumer.TypedefsFail | consume-spec.js:116 | one typedef that fails makes the whole pass fail |
| SpecConsumer.ForwardReferenceFails | consume-spec.js:116 | a typedef spelt as the bare name of itself or of a later typedef, where no node, value or enum has that name, does not resolve |
| SpecConsumer.OwnMembers | consume-spec.js:133 | exactly the members not named `type` |
| SpecConsumer.ResolveMembers | consume-spec.js:133-137 | resolving the members in order succeeds exactly when each one resolves; then the i-th attribute carries the i-th member's name and resolved type, flagged not inherited |
| SpecConsumer.DeclaredAttributes | consume-spec.js:133-137 | this succeeds exactly when each own member except `type` resolves; then the i-th attribute has the name of the i-th such member, in member order, its resolved type, and is flagged not inherited |
| SpecConsumer.InheritedFromFrame | consume-spec.js:124-131 | the inherited part depends only on the lists of the node's own parents |
| SpecConsumer.InheritedFromSnoc | consume-spec.js:124-131 | each parent adds its list, flagged inherited, after those of the earlier parents |
| SpecConsumer.Arrange | consume-spec.js:138-139 | the final sort fails exactly when there is no order section and at least two attributes; otherwise it gives a permutation sorted by order index |
| SpecConsumer.ChainSuffix | consume-spec.js:125 | the `setAttrs` calls in progress form a parent path |
| SpecConsumer.CycleThroughChain | consume-spec.js:121-125 | meeting a call in progress again means the node is its own ancestor, which is the only case where `setAttrs` sees a partial list |
| SpecConsumer.AttributesOf | consume-spec.js:247 | the exported attribute lists cover exactly the exported nodes |
| SpecConsumer.Consumer.constructor | consume-spec.js:84-89 | the Maps and Sets start empty |
| SpecConsumer.Consumer.Inherits | consume-spec.js:65-67 | `inherits` appends the parent to a declared node's parents, and throws for an undeclared node |
| SpecConsumer.Consumer.AddNamedType | consume-spec.js:69-74 | `addNamedType` records the typedef unless the name is taken by a typedef or an enum, in which case it throws |
| SpecConsumer.Consumer.AddEnum | consume-spec.js:76-81 | `addEnum` likewise |
| SpecConsumer.Consumer.AddNode | consume-spec.js:94-98 | the node is set to a fresh leaf with no parents, its members are recorded, and a new name is added to the key order |
| SpecConsumer.Consumer.DeclareInterface | consume-spec.js:93-102 | an interface becomes a fresh leaf node, with its parent added as a parent and a supertype |
| SpecConsumer.Consumer.DeclareImplements | consume-spec.js:103-105 | an `implements` adds a parent and a supertype, and creates no node |
| SpecConsumer.Consumer.DeclareOne | consume-spec.js:92-112 | one loop iteration does what the declaration semantics say, and throws on an unsupported kind |
| SpecConsumer.Consumer.ReadDeclarations | consume-spec.js:92-113 | the loop leaves the state the declaration semantics define, with every node still a leaf |
| SpecConsumer.Consumer.MarkLeaves | consume-spec.js:115 | succeeds exactly when every supertype is a node; afterwards a node is a leaf exactly when it is no supertype |
| SpecConsumer.Consumer.ResolveTypedefs | consume-spec.js:116 | `namedTypes` ends as the typedef pass defines it, and the loop fails exactly when the pass does |
| SpecConsumer.Consumer.SetAttrs | consume-spec.js:119-140 | a list already set is never touched again. Once the call returns, a node that is not its own ancestor holds its parents' inherited lists, then its own members, sorted. The call succeeds whenever every node's own members resolve and every node has an order section, except a parentless node with fewer than two own members (`Attributable`) |
| SpecConsumer.Consumer.InheritParents | consume-spec.js:124-131 | the loop over the parents writes the growing inherited list after each parent |
| SpecConsumer.Consumer.InheritParent | consume-spec.js:125-130 | one parent: `setAttrs` on it, then its list appended, flagged inherited |
| SpecConsumer.Consumer.SetAllAttrs | consume-spec.js:238-240 | every node gets a list, and every list is the one the attribute semantics define; the loop succeeds whenever `Attributable` holds |
| SpecConsumer.Consumer.Export | consume-spec.js:247 | the exported nodes, enums and typedefs are those the declarations and order sections determine |
| SpecConsumer.Consumer.Finish | consume-spec.js:115-247 | the passes after the declaration loop export what the declarations determine, and succeed whenever every supertype is a node, every typedef resolves, and `Attributable` holds in the resolved scope (`Consumable`) |
| SpecConsumer.Consume | consume-spec.js:22-247 | the whole script fails when the order file or the declaration loop does, and succeeds when both succeed and `Consumable` holds; on success it exports the nodes in declaration order with their parents, leaf flags and attribute lists, and the enums and typedefs |
| Utilities.IsStatefulByCore | scripts/lib/utilities.js:12-27 | `isStatefulType` (also scripts/build/director.js:38-53 and director.js:35-50): under the outer nullables, true exactly for a list or a node, false exactly for a value or an enum, and a throw exactly for a union or a named type |
| Utilities.IsStatefulDefined | scripts/lib/utilities.js:12-27 | after union elimination the question never throws |
| Utilities.StatefulAttributes | scripts/build/director.js:94 | `attributes.filter(isStatefulType)`: exactly the stateful attributes, in order; it throws exactly when some check throws |
| Utilities.Sanitize | scripts/lib/utilities.js:29-31 | `sanitize` (also scripts/build/director.js:33-36): the result is never `super`, and every other name is kept |
| Utilities.SanitizeNotInjective | scripts/lib/utilities.js:29-31 | fields `super` and `_super` would get the same Java name |
| Utilities.ToJavaTypeDefined | scripts/lib/utilities.js:33-55 | rendering succeeds exactly when the innermost type is a node or a `string`, `boolean` or `double` value. An enum, union or named type there gives "Not reached", an unknown value tag its own message, and a node renders as the replacement name when one is given |
| Utilities.JavaTypeRoundTrip | scripts/lib/utilities.js:35-48 | without a replacement name, `Maybe<…>` and `ImmutableList<…>` keep the nesting: the Java type reads back into the type it was written from |
| Utilities.JavaTypeInjective | scripts/lib/utilities.js:35-48 | two different renderable types never get the same Java type |
| Director.MethodNameFor | scripts/build/director.js:56-73 | `methodNameFor` (also director.js:56-74): a name exactly for a nullable, a list or a node; every other kind throws |
| Director.NameAfterReduce | scripts/build/director.js:56-73 | on a director shape the name is `reduce`, then `Maybe`, `List`, `MaybeList` or `ListMaybe` as the wrappers say, then the node name |
| Director.MethodNameRoundTrip | scripts/build/director.js:56-73 | for node names that do not begin with `Maybe` or `List`, the name reads back into its shape |
| Director.MethodNameInjective | scripts/build/director.js:56-73 | under the same condition different shapes get different methods |
| Director.MethodNameCollision | scripts/build/director.js:56-73 | without it `Maybe<ListA>` and `Maybe<List<A>>` share `reduceMaybeListA`, and the memo keeps only the first |
| Director.ToJavaType | scripts/build/director.js:75-86 | the director's `toJavaType` (also director.js:76-87) succeeds exactly when a node is innermost, and then agrees with the shared `toJavaType` |
| Director.ElementTypes | scripts/build/director.js:115-132 | the element type of a wrapper method is the argument's Java type with each node read as `State` or `Supplier<State>` |
| Director.ToArgument | scripts/build/director.js:88-90 | `toArgument` calls the method named for the type on the given target, and suspends the call as `() ->` exactly in the thunked table for a node |
| Director.Arguments | scripts/build/director.js:98 | the reducer arguments after `node`: one per attribute, each `toArgument` of `node.<sanitized field>`; it succeeds exactly when every attribute type has a method name |
| Director.Generate | scripts/build/director.js:106-171 | the method written for a type carries the name `methodNameFor` gives it and walks that type |
| Director.Select | scripts/build/director.js:151-158 | the `instanceof` chain (also director.js:160-166) reduces the first child, in declared order, whose class the node has; a node of none of them is "Not reached" |
| Director.SelectAmongDeps | scripts/build/director.js:151-158 | the child a dispatch method selects is one whose method it depends on |
| Director.LeafCall | scripts/build/director.js:92-99 | `nodeReducer` (also director.js:89-95): `node`, then one argument per stateful attribute in attribute order, each calling the method for its type on `node.<field>` and suspended exactly for a node in the thunked table |
| Director.ArgumentsDirected | scripts/build/director.js:95-98 | once every stateful attribute type is directed, the leaf's arguments exist and call only methods in the table |
| Director.DispatchDeps | scripts/build/director.js:151-152 | a dispatch method over reserved children calls only reserved methods |
| Director.ReduceDeps | scripts/build/director.js:161 | a leaf's method whose argument methods are reserved calls only reserved methods |
| Director.Progress | scripts/build/director.js:108-109 | reserving a name not yet in the table leaves fewer names to reserve, which bounds the recursion |
| Director.ReserveKeeps | scripts/build/director.js:109 | reserving a name keeps the memo invariant |
| Director.StoreKeeps | scripts/build/director.js:171 | storing the method built for a reserved name, once its callees are reserved, keeps the memo invariant |
| Director.Table.constructor | scripts/build/director.js:175 | a table starts empty (also the module-level `methods`, director.js:53) |
| Director.Table.Reserve | scripts/build/director.js:109 | `methods.set(name, null)` |
| Director.Table.Store | scripts/build/director.js:171 | `methods.set(name, method)` |
| Director.Table.Direct | scripts/build/director.js:106-172 | `direct` (also director.js:101-179): a name already present returns at once; earlier entries are never overwritten; on success the type's method is in the table and every entry added is a finished method; on such a graph it succeeds for every type that wraps a node of the graph |
| Director.Table.DirectWrapper | scripts/build/director.js:113-142 | the nullable and list cases: the argument is directed first, then the method is stored |
| Director.Table.DirectNodeType | scripts/build/director.js:143-166 | the node case: children are directed and dispatched, a leaf gets its reducer call |
| Director.Table.DirectChildren | scripts/build/director.js:152 | every child of the node gets its method |
| Director.Table.DirectChild | scripts/build/director.js:152 | one child more is directed, and the earlier ones stay done |
| Director.Table.DirectNode | scripts/build/director.js:102-104 | `directNode(c)` leaves `reduce` + `c` in the table |
| Director.Table.NodeReducer | scripts/build/director.js:92-100 | every stateful attribute type is directed, then the argument list is the one `Arguments` defines, calling only methods in the table |
| Director.Table.DirectAttribute | scripts/build/director.js:95-97 | one attribute more is directed, and the earlier ones stay done |
| Director.MethodNames | scripts/build/director.js:210 | the names of a list of methods, in order |
| Director.Listed | scripts/build/director.js:210 | the methods under a list of names, in that order |
| Director.ListedAssembled | scripts/build/director.js:210 | a finished table listed by its sorted names is a director class: sorted, one method per name, each the one built for its type, the root's among them, every callee defined |
| Director.Build | scripts/build/director.js:175-178 | one table grown from `Program` (also director.js:181, 213) and listed in sorted order is such a class; it succeeds whenever `Program` and every child named are nodes, every attribute's statefulness is decided, and every stateful attribute wraps a node of the graph |
| Director.BuildBoth | scripts/build/director.js:175-178 | the plain and thunked tables are built independently, each is a director class, and both succeed on such a graph |
| Director.PlainCallsUnsuspended | scripts/build/director.js:89 | nothing in the plain table is suspended |
| Emit.EmittedLeaves | scripts/build/reducer.js:47-49 | a per-leaf generator (the same loop at reducer.js lines 99, 185, 261, 463, 772, 816 and 905, scripts/build/flattener.js:50-52 and scripts/build/reducer-clone.js:66-68) succeeds exactly when every leaf's entry can be made, and then holds one entry per leaf, in sorted leaf order |
| Emit.EmittedFirstFailure | scripts/build/reducer.js:47-49 | a failing generator fails with the error of the first leaf, in sorted order, whose entry cannot be made |
| Emit.EmittedFailureStays | scripts/build/reducer.js:47-49 | once the walk has thrown, later names change nothing |
| Emit.EmittedStep | scripts/build/reducer.js:47-49 | one more name: a node with children adds nothing, a leaf adds its entry or throws |
| Emit.EmitLeaves | scripts/build/reducer.js:47-64 | the loop over the sorted keys returns exactly what the walk defines |
| Reducers.ThunkNameByInnermost | scripts/build/reducer.js:85-97 | `thunkName` throws exactly on a union or named type under the wrappers; with a node innermost it is `toJavaType` with the node written `Supplier<State>` |
| Reducers.SlotReplacesNodes | scripts/build/reducer.js:51 | a parameter type written with a slot such as `State` is the attribute's Java type with every node replaced by the slot, and reads back as that type |
| Reducers.ParamsOf | scripts/build/reducer.js:51 | one parameter per attribute, in order, named by the sanitised attribute name; it fails exactly when some type cannot be written |
| Reducers.SignatureOf | scripts/build/reducer.js:51-63 | a leaf's method takes the node, then one parameter per stateful attribute in attribute order, named by the sanitised name |
| Reducers.ReducerEntry | scripts/build/reducer.js:47-64 | the `Reducer` entry exists exactly when every stateful attribute's type, with its nodes replaced by `State`, can be written in Java; each parameter is that Java type under the sanitised attribute name, and a renderable one reads back as the replaced type |
| Reducers.ThunkNameSuspends | scripts/build/reducer.js:85-97 | `thunkName` is `toJavaType` of the type whose wrappers are kept and whose innermost non-union, non-typedef type becomes `Supplier<State>`, failures included |
| Reducers.ThunkedReducerEntry | scripts/build/reducer.js:99-116 | the `ThunkedReducer` entry exists exactly when no stateful attribute has a union or a named type under its wrappers; each parameter keeps the attribute's wrappers around `Supplier<State>` |
| Reducers.RedOf | scripts/build/reducer.js:171-183 | `red(attr)` reads the sanitised field |
| Reducers.RedsOf | scripts/build/reducer.js:212 | `attrs.map(red)`, in order |
| Reducers.WrappingOf | scripts/build/reducer.js:171-183 | the shape `red` looks at is a list exactly for a list type, and a list of optional states exactly for a list of nullables |
| Reducers.CombineAsWritten | scripts/build/reducer.js:205-213 | the return rule as written agrees with the corrected rule everywhere except two attributes whose second is a list of nullables, where it still takes `fold1` |
| Reducers.Combine | scripts/build/reducer.js:205-213 | the return rule: `identity()` exactly for no stateful attribute, `red(a)` for one, `fold1(list, red(first))` only for two where the second is a list of states and the first no list, and otherwise `append` over all in order |
| Reducers.CatMaybes | scripts/build/reducer.js:177 | `Maybe.catMaybes` keeps at most the entries it is given |
| Reducers.Values | scripts/build/reducer.js:212 | each attribute's `red` value, in order |
| Reducers.FoldFrom | scripts/build/reducer.js:210 | in a monoid, folding from a start is the start appended to the fold from the identity |
| Reducers.FoldCons | scripts/build/reducer.js:210 | folding a list with one more element in front appends that element first |
| Reducers.TotalFirst | scripts/build/reducer.js:205-213 | the total of all attribute states is the fold of the rest, started from the first attribute's state |
| Reducers.Fold1Sound | scripts/build/reducer.js:210 | `fold1(list, first)` over a list of states is `first` followed by the list's states |
| Reducers.MonoidalSound | scripts/build/reducer.js:205-213 | in any monoid the corrected return expression evaluates to every stateful attribute's state appended in attribute order |
| Reducers.CombineAsWrittenIllTyped | scripts/build/reducer.js:209-210 | as written, `(node, list of nullable node)` takes `fold1` over a list of `Maybe`s, which has no value; the corrected rule gives one |
| Reducers.MonoidalAsWrittenSound | scripts/build/reducer.js:205-213 | in any monoid the return expression as written evaluates to every stateful attribute's state appended in attribute order, except for a non-list then a list of nullables, where it has no value |
| Reducers.MonoidalReturn | scripts/build/reducer.js:204-213 | `rv` as written: `identity()` exactly for no stateful attribute, `red` of the one attribute for one, `fold1(list, red(first))` exactly for two whose second is a list and whose first is not, and otherwise `append` over every attribute's `red` in order |
| Reducers.MonoidalEntry | scripts/build/reducer.js:185-218 | the `MonoidalReducer` entry: the `State` signature and that return expression; it fails exactly when the signature does |
| Reducers.CloneAttributeDefined | scripts/build/reducer.js:237-259 | `cloneAttribute` (also scripts/build/reducer-clone.js:42-64) fails only where `isStatefulType` does, so its own "Not reached" is dead; a field that is not stateful is copied as `node.<field>` |
| Reducers.CloneCastsInnermost | scripts/build/reducer-clone.js:46-60 | on the node shapes every state is cast to the innermost node: mapped twice under two wrappers, once under one, cast directly for a bare node |
| Reducers.CloneArgs | scripts/build/reducer.js:281 | every attribute, stateful or not, cloned in attribute order |
| Reducers.ReturnTypeOf | scripts/build/reducer-clone.js:76 | the declared return type is the one `cloneReturnTypes` gives for the node |
| Reducers.CloneEntry | scripts/build/reducer-clone.js:66-89 | the `ReconstructingReducer` entry (also scripts/build/reducer.js:261-284): the signature with nodes read as `Node`, a constructor call receiving every attribute in attribute order, and the given return type |
| Reducers.WhichAdd | scripts/build/reducer.js:454-461 | `addListMaybe` exactly for a list of nullables, `addMaybeString` exactly for a nullable string, `add` otherwise |
| Reducers.FieldOf | scripts/build/reducer.js:477 | one JSON property per attribute under its unsanitised name, written with `whichAdd`: a stateful attribute reads the parameter, any other reads `node.<name>` |
| Reducers.JsonFields | scripts/build/reducer.js:477 | every attribute, in order, becomes its property |
| Reducers.SerializerEntry | scripts/build/reducer.js:463-480 | the `Serializer` entry: the `StringBuilder` signature and one property per attribute keyed by its name |
| Reducers.SerializerReadsParams | scripts/build/reducer.js:472-477 | every stateful attribute's property reads one of the method's own parameters |
| Reducers.FieldNames | scripts/build/reducer.js:832 | the sanitised names of the stateful attributes, in order |
| Reducers.FlattenerEntry | scripts/build/flattener.js:50-71 | the `Flattener` entry (also scripts/build/reducer.js:816-837): `ImmutableList<Node>` parameters; the singleton body exactly when there is no stateful attribute, otherwise the superclass call with every parameter in order |
| Reducers.ListMonoid | scripts/build/flattener.js:66 | list append with the empty list is a monoid |
| Reducers.FlattenerPrepends | scripts/build/flattener.js:61-66 | both bodies return the node followed by every stateful attribute's nodes in order, except on the ill-typed `fold1` shape of the superclass, which has no value |
| Reducers.RangeEntry | scripts/build/reducer.js:905-921 | the `RangeCheckerReducer` entry: `RangeChecker` parameters, and `accept` over the superclass call with every parameter in order |
| Deserializers.HelperFor | scripts/build/reducer.js:660-744 | the helper `makeDeserializer` defines is named by its kind's prefix and its base type, and declares the type's Java type |
| Deserializers.HelperForDefined | scripts/build/reducer.js:660-744 | a helper exists for a list of nodes, a list of nullable nodes, a nullable node and a nullable known value, and for nothing else: a nullable list of nodes throws "Unhandled type". A node helper casts to the node under the wrappers |
| Deserializers.HelperNamesDistinct | scripts/build/reducer.js:668 | two different types whose node names cannot be confused get helpers with different names, so `deserializers.has(name)` only finds the type's own helper |
| Deserializers.HelperNameCollision | scripts/build/reducer.js:667-690 | as written a list of `MaybeFoo` and a list of nullable `Foo` share the name `deserializeListMaybeFoo` although their helpers differ |
| Deserializers.ExprFor | scripts/build/reducer.js:748-770 | `deserializer(attr)` reads the property keyed by the attribute name |
| Deserializers.ExprForDefined | scripts/build/reducer.js:748-770 | an attribute can be read exactly when it is a node, a node in a helper shape, an enum, a known value or a nullable known value. A node is cast to its type, and a wrapped node calls the helper for its shape |
| Deserializers.ExprsOf | scripts/build/reducer.js:776 | `attributes.map(deserializer)`: one expression per attribute, in order; it fails exactly when one does |
| Deserializers.CaseFor | scripts/build/reducer.js:776-780 | the case of a leaf names the leaf and passes one expression per attribute |
| Deserializers.Ask | scripts/build/reducer.js:668-670 | asking the memo for a type keeps every earlier helper and leaves the type's helper in it |
| Deserializers.AskValid | scripts/build/reducer.js:668-670 | asking keeps the memo's order and keys in step, each helper under its own name |
| Deserializers.ExprsResult | scripts/build/reducer.js:776 | the expressions do not depend on what the memo already holds |
| Deserializers.AskForKeys | scripts/build/reducer.js:752 | a successful `deserializer(attr)` adds to the memo only the helper it calls |
| Deserializers.ExprsStore | scripts/build/reducer.js:776 | on success the memo gains exactly the helpers the expressions call, and stays valid |
| Deserializers.ExprsStep | scripts/build/reducer.js:776 | one more attribute: its memo update, then its expression or its error |
| Deserializers.ExprsFailureStays | scripts/build/reducer.js:776 | after a throw, further attributes change neither the result nor the memo |
| Deserializers.CasesResult | scripts/build/reducer.js:772-781 | the leaf loop gives exactly the cases of the per-leaf walk, whatever the memo holds |
| Deserializers.CasesStore | scripts/build/reducer.js:772-781 | on success the leaf loop leaves a valid memo that gained exactly the helpers its cases call |
| Deserializers.CasesStep | scripts/build/reducer.js:772-781 | one more name: nothing for a node with children, otherwise the leaf's case or its error |
| Deserializers.CasesFailureStays | scripts/build/reducer.js:772-781 | after a throw, later names change nothing |
| Deserializers.InOrder | scripts/build/reducer.js:783 | `deserializers.values()`: the helpers in the order their names were first set |
| Deserializers.InOrderNames | scripts/build/reducer.js:783 | that listing names each helper by its key, in insertion order |
| Deserializers.InOrderCovers | scripts/build/reducer.js:783 | a valid memo holding exactly the helpers the cases call makes a complete file |
| Deserializers.Table.constructor | scripts/build/reducer.js:658 | the memo starts empty |
| Deserializers.Table.MakeDeserializer | scripts/build/reducer.js:660-744 | returns the helper's name, sets the helper the first time the name is asked for, and throws exactly when no helper exists |
| Deserializers.Table.Deserializer | scripts/build/reducer.js:748-770 | returns the attribute's expression, consulting the memo only for a list or a nullable |
| Deserializers.Table.Attributes | scripts/build/reducer.js:776 | maps every attribute in order, with the memo updates the walk defines |
| Deserializers.Table.LeafStep | scripts/build/reducer.js:772-780 | one iteration of the leaf loop |
| Deserializers.Table.Leaves | scripts/build/reducer.js:772-781 | the loop over the sorted node names |
| Deserializers.Generate | scripts/build/reducer.js:658-789 | the file has one case per leaf, as the per-leaf walk makes them, and exactly the helpers those cases call, each once, under distinct names, in insertion order; it fails exactly when the walk does |
| RangeChecker.Append | scripts/build/reducer.js:887-889 | `append(a, b)` passes its assertion exactly when `a.end <= b.start`, and then gives `(a.start, b.end)` |
| RangeChecker.Accept | scripts/build/reducer.js:865-875 | `accept` succeeds exactly when the node has a span with `start <= end` that encloses the inner range, and then returns that span |
| RangeChecker.AcceptIdentity | scripts/build/reducer.js:882 | a node with no state is accepted by any well-formed span of its own |
| RangeChecker.IdentityNotNeutral | scripts/build/reducer.js:882 | `(MAX_VALUE, MIN_VALUE)` is neutral on neither side of `append` |
| RangeChecker.OverlapUndetected | scripts/build/reducer.js:882-889 | with the identity between them, the overlapping ranges `[0, 10)` and `[5, 8)` are appended without complaint |
| RangeChecker.EscapeUndetected | scripts/build/reducer.js:865-889 | with the identity in front, a child `[0, 7)` starting before its parent `[5, 8)` is accepted |
| RangeChecker.ExtentMonoid | scripts/build/reducer.js:878-891 | with an empty range as identity, checked append is a monoid |
| RangeChecker.EmptyTransparent | scripts/build/reducer.js:878-891 | an empty range between two others leaves their order checked |
| RangeChecker.AcceptExtent | scripts/build/reducer.js:865-875 | `accept` over an extent: the span must be well formed and enclose the inner range when there is one |
| RangeChecker.Spans | scripts/build/reducer.js:917 | the ranges among the children's extents, in order |
| RangeChecker.ChainedSnoc | scripts/build/reducer.js:888 | one more range keeps the chain ordered exactly when it starts after the last one ends |
| RangeChecker.ConcatChecksNeighbours | scripts/build/reducer.js:887-889 | appending the children's extents succeeds exactly when every range ends before the next range starts, whatever empty extents lie between, and then covers them all |
| RangeChecker.LeafRange | scripts/build/reducer.js:917 | what a leaf's `super.reduce…` hands to `accept` is the children's extents appended in attribute order, except on the ill-typed `fold1` shape, which has no value |
| LegacyReducers.DefaultName | reducer.js:24 | an absent or empty default is `State`, any other is kept |
| LegacyReducers.NameReadsBack | reducer.js:23-34 | `name(type, def)` keeps the `Maybe`/`List` wrappers of the field's type around the default: the parameter type reads back into exactly those wrappers, and every other type becomes the default |
| LegacyReducers.NameInjective | reducer.js:23-34 | two fields get the same parameter type exactly when their wrappers agree |
| LegacyReducers.SkeletonDeterminesName | reducer.js:23-34 | the wrappers alone determine the parameter type |
| LegacyReducers.StripMaybe | reducer.js:43-44 | the type under the outer `Maybe`s is no `Maybe` |
| LegacyReducers.IsStatefulSpecByCore | reducer.js:36-48 | a field carries state unless it is a `Boolean`, `Number`, `String` or `Enum` under its `Maybe`s; a `List` always does, and so does a union |
| LegacyReducers.NonTypeFields | reducer.js:363 | exactly the fields not named `type` |
| LegacyReducers.StatefulFields | reducer.js:86 | exactly the fields not named `type` that carry state, in order |
| LegacyReducers.ParamsOf | reducer.js:86 | one parameter per field: its type through `name`, its name through `sanitize` (reducer.js:50-52) |
| LegacyReducers.ReducerEntry | reducer.js:84-99 | the `Reducer` method of an entry takes the node, then for the i-th stateful field a parameter under its sanitised name, none named `type`, whose Java type reads back as the field's `Maybe`/`List` wrappers around `State` |
| LegacyReducers.WrappingOf | reducer.js:174-186 | the shape `red` looks at is a list exactly when the field's `typeName` is `List` |
| LegacyReducers.RedOf | reducer.js:174-186 | `red(field)` reads the sanitised field |
| LegacyReducers.RedsOf | reducer.js:213 | `fields.map(red)`, in order |
| LegacyReducers.MonoidalEntry | reducer.js:188-219 | the `MonoidalReducer` method: the `Reducer` signature, and the return rule as written: `identity()` for no stateful field, `red` for one, `fold1` exactly for a non-list then a list, otherwise `append` over every field's `red` in order |
| LegacyReducers.MonoidalAppendsInOrder | reducer.js:205-214 | in any monoid, that method returns its states appended in field order, each optional state defaulting to the identity and each list folded; a non-list then a list of optional states has no value |
| LegacyReducers.FieldType | reducer.js:261-267 | `Spec[node].fields[i].type` exists exactly when the entry and the field do; otherwise loading throws |
| LegacyReducers.ArgumentOfArgument | reducer.js:264-265 | `.argument.argument` throws when the type is not wrapped, and is `undefined` unless it is wrapped twice |
| LegacyReducers.KnownTypesOf | reducer.js:261-267 | the known union objects are read from their fixed fields, and the script throws when the first of those fields is missing |
| LegacyReducers.RenamedShort | reducer.js:283-312 | a concatenation shorter than every listed case is returned as it is |
| LegacyReducers.DeUnionAsWritten | reducer.js:273-316 | `deUnion` as written: a type that is neither a union nor a known type gets its `typeName` |
| LegacyReducers.DeUnion | reducer.js:273-316 | `deUnion` with the statement test and the assignment-target `return` restored: a type that is neither a union nor a known type gets its `typeName` |
| LegacyReducers.DeUnionKnown | reducer.js:274-280 | with seven distinct known objects, each gets the name of its interface, `Statement` and `AssignmentTarget` included |
| LegacyReducers.AsWrittenAgrees | reducer.js:273-316 | wherever neither the statement type nor the assignment-target type is reached, `deUnion` as written and the corrected one agree |
| LegacyReducers.StatementMisnamed | reducer.js:275-276 | as written, a statement type and an assignment-target type whose members run together to no case of the switch are named after their members |
| LegacyReducers.SwitchMasksKnownUnions | reducer.js:281-312 | as written, the statement type and the assignment-target type still get their names exactly when their members run together to the switch's case for that name |
| LegacyReducers.Cl | reducer.js:318-329 | `cl(field)`, with `deUnion` as written, reads the sanitised field, and copies it from `node` exactly when it carries no state |
| LegacyReducers.ClCastsElement | reducer.js:331-343 | a list of `Maybe`s is mapped twice to its element, a `Maybe` once, and an optional list is cast to `List` |
| LegacyReducers.ClArgs | reducer.js:363 | every field, in order, through `cl` |
| LegacyReducers.CloneEntry | reducer.js:345-366 | the `CloneReducer` method returns the node's own type; for the j-th stateful field it takes a parameter under its sanitised name whose Java type reads back as the field's wrappers around `Node`; its i-th constructor argument is `cl` of the i-th field not named `type` |
| LegacyReducers.CloneReadsOnlyParams | reducer.js:363 | every re-cast argument names a parameter of its method |
| LegacyReducers.CloneReadsEveryParam | reducer.js:363 | every parameter of the method is read by the constructor call |
| LegacyReducers.SortedKeys | reducer.js:84 | `Object.keys(Spec).sort()`: every key once, in order |
| LegacyReducers.EntriesOf | reducer.js:84-99 | each file's loop makes the method of every entry, in the given order |
| LegacyReducers.Generate | reducer.js:84-370 | `Reducer.java` and `MonoidalReducer.java` list the methods of every entry in sorted order and are written whatever follows; the `CloneReducer` methods exist exactly when every known type's field is present, and otherwise the script throws the missing field's error |
| LegacyReducers.NamesDetermined | reducer.js:84 | the sorted order is fixed by the keys alone |
| AstClasses.IsJavaInterface | ast.js:247-250 | looking a name up succeeds exactly when it is a node, and the node is an interface exactly when it has no attributes and at least one child |
| AstClasses.EnumsAsNodes | ast.js:269-271 | reading enums as nodes keeps a union-free type union-free |
| AstClasses.JavaTypeEnumsAsNodes | ast.js:252-276 | this file's `toJavaType` renders every type as the shared one does once enums are read as nodes |
| AstClasses.JavaTypeDefined | ast.js:252-276 | after union elimination the rendering throws exactly when the innermost type is a value other than `string`, `boolean` or `double` |
| AstClasses.JavaAttrs | ast.js:313-314 | every attribute is renamed by `sanitize` (ast.js:242-245) and retyped in order; the rewrite succeeds exactly when every type renders |
| AstClasses.Names | ast.js:320-321 | one name per attribute, in order |
| AstClasses.WithFlag | ast.js:316 | exactly the attributes with the given `inherited` flag |
| AstClasses.SplitNames | ast.js:316-321 | the inherited and the own attributes together are all the attributes, none lost or repeated |
| AstClasses.Partition | ast.js:305-307 | the interface parents and the other parents, together as many as the parents; an unknown parent throws |
| AstClasses.FieldsOf | ast.js:316 | one field per attribute, with its type and name |
| AstClasses.ParamOf | ast.js:326 | a constructor parameter is `@NotNull` exactly when its type is not `boolean` |
| AstClasses.ParamsOf | ast.js:326 | one parameter per attribute, in order |
| AstClasses.ComparisonOf | ast.js:341 | `equals` compares an attribute with `==` exactly when its type is `boolean` or `double` |
| AstClasses.ComparisonsOf | ast.js:345 | one comparison per attribute, in order |
| AstClasses.ClassFor | ast.js:302-367 | a class is written exactly when every parent is known, at most one parent is not an interface and every type renders; it is abstract exactly when the node has children, and calls `super` exactly when it extends a parent |
| AstClasses.ClassShape | ast.js:305-355 | interface parents are implemented, the other parent extended; the own attributes become fields and assignments, the inherited ones go to `super`; the constructor parameters are `ParamsOf` and the `equals` comparisons `ComparisonsOf` of every attribute in order (`@NotNull` unless `boolean`, ast.js:326; `==` for `boolean` and `double`, ast.js:341-345), and `hashCode` mixes every attribute |
| AstClasses.CtorUsesEveryParam | ast.js:320-321 | with a superclass, `super` and the assignments use every constructor parameter exactly once |
| AstClasses.ClassFailures | ast.js:305-310 | an unknown parent throws a `TypeError`; a second non-interface parent throws `<name> extends multiple types` |
| AstClasses.InterfaceFor | ast.js:370-396 | an interface is written exactly when every parent is an interface, and it extends all of them |
| AstClasses.Select | ast.js:302 | exactly the listed nodes that are, or are not, interfaces |
| AstClasses.BuildAll | ast.js:302-367 | every name is built in order; the run fails with the first failure and otherwise returns every result |
| AstClasses.Generate | ast.js:302-396 | the classes for every non-interface node in insertion order, then the interfaces for the others; a failing class stops the script before any interface |
| Branches.Base | branch.js:99-103 | `base` reads the argument of the type under every wrapper, and that is a member list exactly when the innermost type is a union |
| Branches.BaseThroughWrappers | branch.js:99-103 | a list or a nullable wrapper does not change `base` |
| Branches.KindOf | branch.js:115-117 | the four kinds of step: a list of nullables, any other list, a nullable, and any other type, each exactly as the flags say |
| Branches.IndexedIffList | branch.js:121-122 | a generated class takes an index exactly when its attribute is a list |
| Branches.At | branch.js:149 | `index(i)` gives the element exactly when `i` is in range |
| Branches.Access | branch.js:135-166 | a step from anything but an instance of the owning leaf is empty, and a result comes from the field the class reads |
| Branches.AccessFindsChild | branch.js:128-167 | a step returns the field itself, an element of it, or the content of the field's or an element's `Maybe`, and nothing else |
| Branches.ElementsEnumerate | branch.js:140-151 | the indexed steps at 0 .. n-1 read a list back element by element, and every other index is empty |
| Branches.FlattenedHidesAbsent | branch.js:137 | on a list of nullables an absent element and an index out of range both step to empty |
| Branches.Collect | branch.js:114-171 | building each attribute in order gives every result, or the first error |
| Branches.OverLeaves | branch.js:108-172 | the classes of every leaf are collected, and a throw in any leaf fails the whole file |
| Branches.GenerateOver | branch.js:108-172 | the loop over the leaves computes exactly `OverLeaves` |
| Branches.FailureSticks | branch.js:108-172 | once a prefix of the leaves throws, the whole run throws the same error |
| Branches.BranchFor | branch.js:119-124 | the class name is the leaf name followed by the capitalised attribute name (`cap`, branch.js:53-55), reads the sanitised field (never `super`) and steps by the attribute's kind; an empty attribute name throws |
| Branches.LeafBranchesSound | branch.js:110-112 | every class of a leaf is for one of its stateful attributes (`isStatefulType`, branch.js:32-47) |
| Branches.LeafBranchesComplete | branch.js:112-114 | every stateful attribute of a leaf gets its class |
| Branches.LeafBranchesFail | branch.js:32-47 | a leaf fails exactly when one of its types is a union or a named type, or when a stateful attribute has an empty name |
| Branches.Generate | branch.js:108-199 | the generator's loop computes exactly the classes of every leaf, leaves in sorted order |
| Branches.AllBranchesSound | branch.js:108-112 | classes exist only for leaves, and only for their stateful attributes |
| Branches.AllBranchesComplete | branch.js:108-114 | every stateful attribute of every leaf has a class |
| Branches.BranchNamesCollide | branch.js:119 | class names are not one-to-one: leaf `A` with attribute `bC` and leaf `AB` with attribute `c` both give `ABC` |
| Branches.Make | branch.js:120-124 | the static factory passes the index exactly when the class takes one |
| Branches.Step | branch.js:135-166 | a step from anything but an instance of the owning leaf is empty |
| Branches.EqualsSound | branch.js:84-96 | with unique class names, `equals` (and `IndexedBranch.equals`, branch.js:184-195) is an equivalence, equal branches hash alike and step alike from every node |
| Branches.SameDecl | branch.js:119 | with unique class names, a name stands for one declaration |
| Branches.EqualsNeedsUniqueNames | branch.js:88-91 | without unique names equal branches may step from different leaves |
| AstPaths.PathName | scripts/build/ast-path.js:83 | `${typeName}_${cap(a.name)}` (`cap`, scripts/build/ast-path.js:13-15) is one longer than its parts, and an empty attribute name throws |
| AstPaths.PathNamesInjective | scripts/build/ast-path.js:83 | for type names without `_`, equal class names come from the same leaf and the same capitalised attribute name |
| AstPaths.NameArgument | scripts/build/ast-path.js:96-100 | the argument read as a name exists exactly for a type that is not a list, a nullable or a union |
| AstPaths.ReturnTypeIsBase | scripts/build/ast-path.js:96-108 | the return type is the capitalised name of the innermost type, qualified with the operators package for an enum ending in `Operator`; it fails exactly for deeper wrappings, a union inside, or an empty name |
| AstPaths.NullableListUnsupported | scripts/build/ast-path.js:96-100 | a nullable list of nodes, a shape the other generators accept, makes this one throw |
| AstPaths.OperatorPackageUndefined | scripts/build/ast-path.js:106-108 | as written an operator enum is qualified with the package segment `esundefined`, which names no year |
| AstPaths.CapitalizeKeepsOperator | scripts/build/ast-path.js:103-106 | upper-casing the first letter keeps the `Operator` suffix |
| AstPaths.OperatorQualified | scripts/build/ast-path.js:106-108 | an operator enum is qualified with the package of the year it is given |
| AstPaths.OperatorPackageNamesYear | scripts/build/ast-path.js:19 | with the year supplied, the package segment after `es` reads back as that year |
| AstPaths.PathFor | scripts/build/ast-path.js:78-169 | a class exists exactly when the name is not empty and the return type can be written; it reads the sanitised field by the attribute's kind, extends `IndexedPath` and has a factory exactly for a list |
| AstPaths.Generate | scripts/build/ast-path.js:72-170 | the generator's loop, with `year` read as the script reads it (`undefined`), computes exactly the paths of every leaf, leaves in sorted order |
| AstPaths.LeafPathsSound | scripts/build/ast-path.js:76-78 | every path of a leaf is for one of its attributes |
| AstPaths.LeafPathsComplete | scripts/build/ast-path.js:76-78 | every attribute of a leaf gets a path |
| AstPaths.AllPathsSound | scripts/build/ast-path.js:72-78 | paths exist only for leaves, one per attribute |
| AstPaths.AllPathsComplete | scripts/build/ast-path.js:72-78 | every attribute of every leaf has a path, stateful or not |
| AstPaths.BranchPathAgree | scripts/build/ast-path.js:119-163 | for a stateful attribute the path and the `Branch` class read the same field the same way and step alike from every value |
| AstPaths.Make | scripts/build/ast-path.js:84-94 | a list attribute gets an indexed factory, any other a shared constant |
| AstPaths.Apply | scripts/build/ast-path.js:120-163 | `apply` to anything but an instance of the owning leaf is empty |
| AstPaths.SameDecl | scripts/build/ast-path.js:83 | with unique class names, a name stands for one declaration |
| AstPaths.EqualsSound | scripts/build/ast-path.js:33-62 | with unique class names, `equals` is an equivalence, and equal paths hash alike, apply alike and have the same property name |
| AstPaths.EqualsIffPropertyName | scripts/build/ast-path.js:125-127 | two paths of one class are equal exactly when their property names are |
| UnionArena.CleanIsUnionFree | unions-to-interfaces.js:44-77 | an object `addUnions` has produced stands for a type with no union and no typedef reference at any depth |
| UnionArena.MemoRecord | unions-to-interfaces.js:75 | recording a result for an object met for the first time keeps the memo sound |
| UnionArena.ArgumentName | unions-to-interfaces.js:61 | `t.argument` is a name exactly for an object that is not a wrapper or a union |
| UnionArena.UnionName | unions-to-interfaces.js:61 | the node replacing a union is named by its members' names run together |
| UnionArena.MemberNames | unions-to-interfaces.js:61 | one name per member, in order |
| UnionArena.AddOnce | unions-to-interfaces.js:25-28 | the parent is added to `parents` only when it is not there yet, so a list without repeats stays so |
| UnionArena.Link | unions-to-interfaces.js:24-30 | `inherits(child, parent)` changes no other object and no attribute list |
| UnionArena.WiredKeeps | unions-to-interfaces.js:24-30 | wiring adds no node object and changes no attribute list |
| UnionArena.WiredParents | unions-to-interfaces.js:24-30 | after wiring, every child lists the parent |
| UnionArena.WiredLinks | unions-to-interfaces.js:29 | after wiring, the parent has gained every child |
| UnionArena.WiredParentsDistinct | unions-to-interfaces.js:26 | wiring never makes a parent appear twice in a `parents` list |
| UnionArena.WireFault | unions-to-interfaces.js:63-69 | wiring fails exactly when a member cannot be wired, with the unhandled-type error or the missing-node `TypeError`, never `Not reached` |
| UnionArena.WireAll | unions-to-interfaces.js:63-69 | the loop over the members wires them in order, keeps every object and attribute list, and fails exactly as `WireFault` says |
| UnionArena.RecordStep | unions-to-interfaces.js:72-76 | `seen.set(t, ret)` for a value, enum, node or typedef reference keeps the state sound |
| UnionArena.WrapStep | unions-to-interfaces.js:48-52 | writing a wrapper's rewritten argument and recording the wrapper as its own result keeps the state sound |
| UnionArena.WrapVisit | unions-to-interfaces.js:48-52 | a whole visit to a wrapper: once its argument is visited, the wrapper itself is |
| UnionArena.NamedVisit | unions-to-interfaces.js:53-59 | a whole visit to a typedef reference: once its target is visited, the reference records the same result |
| UnionArena.WithNode | unions-to-interfaces.js:62 | `nodes.set(name, ...)` adds exactly that name |
| UnionArena.UnseenAdd | unions-to-interfaces.js:60-75 | meeting a union takes exactly that union out of the ones not yet met |
| UnionArena.UnionVisit | unions-to-interfaces.js:60-71 | a whole visit to an inline union: a node of the members' names, wired to each member, and a new node type recorded as its replacement |
| UnionArena.EvolvedNoUnionTypedef | unions-to-interfaces.js:44-77 | a visit changes no typedef, so it never brings a union typedef back |
| UnionArena.TypedefsDone | unions-to-interfaces.js:32-41 | after the typedef pass no typedef names a union, each union typedef names the node of its name, and the old nodes stay |
| UnionArena.CleanAll | unions-to-interfaces.js:79-81 | after the last node in insertion order, every node object has only rewritten attribute types |
| UnionArena.ToGraph | unions-to-interfaces.js:83 | the returned `nodes` is a well-formed graph with the same names in the same order |
| UnionArena.GraphUnionFree | unions-to-interfaces.js:79-83 | once every node object is rewritten, no attribute type in the graph has a union or a typedef reference |
| UnionElimination.AddUnions | unions-to-interfaces.js:44-77 | a second visit returns the recorded result and changes nothing; a value, enum or node is its own replacement; every success memoises a union-free object; with no union typedef left, `Not reached` is never thrown |
| UnionElimination.RewriteWrapper | unions-to-interfaces.js:48-52 | a nullable or list object keeps its identity and kind, and its argument becomes the rewritten argument |
| UnionElimination.RewriteNamed | unions-to-interfaces.js:53-59 | a reference becomes the rewrite of its typedef's type; an unknown name throws a `TypeError` and a typedef that is still a union throws `Not reached` |
| UnionElimination.RewriteUnion | unions-to-interfaces.js:60-71 | an inline union becomes a node named by its members, wired to every member, and fails exactly as wiring does |
| UnionElimination.NodeExists | unions-to-interfaces.js:35 | the collision error is never `Not reached` |
| UnionElimination.AddTypedefNode | unions-to-interfaces.js:37-39 | a union typedef becomes a node wired to its members without a kind check, and the typedef now names that node |
| UnionElimination.AddTypedef | unions-to-interfaces.js:33-40 | one step of the typedef pass: a union typedef whose name is already a node throws `Node named <name> already exists!` |
| UnionElimination.AddUnionTypedefs | unions-to-interfaces.js:32-41 | the typedef pass fails when any union typedef collides with a node; on success no typedef names a union and every union typedef names its node |
| UnionElimination.RewriteAttributes | unions-to-interfaces.js:80 | every attribute of a node, in order, takes the memoised rewrite of its type |
| UnionElimination.RewriteNode | unions-to-interfaces.js:79-81 | one node's turn keeps the earlier nodes rewritten and either meets a new union or adds no name |
| UnionElimination.RewriteNodes | unions-to-interfaces.js:79-81 | the attribute pass, over nodes added on the way too, leaves every node object with only rewritten attribute types |
| UnionElimination.TypedefNodesKept | unions-to-interfaces.js:32-81 | the nodes present after the typedef pass, union typedefs included, survive the attribute pass |
| UnionElimination.NodeCarried | unions-to-interfaces.js:79-81 | one input node reaches the graph with its attributes in place by name and inherited flag, or as the empty node an inline union of the same name put there |
| UnionElimination.AttributesCarried | unions-to-interfaces.js:32-83 | every input node reaches the graph with its attributes in place by name and inherited flag, or as the empty node an inline union of the same name put there |
| UnionElimination.Transform | unions-to-interfaces.js:19-84 | the transform never throws `Not reached`; it fails on a typedef collision, and any failure is a union member of the wrong kind, a member name that is no node, an unknown typedef name, or a colliding typedef; on success it returns every node, union typedefs included, each input node's attributes in place by name and inherited flag (or replaced by an inline union's empty node), with no union in any attribute type, and the enums unchanged |

## Left out

- File system and module loading are not modelled: reading the grammar and the order file, `ensureDir`, `fs.writeFile`, output directories, and `require` of the spec packages. The parse tree and the order-file text are inputs.
- The `webidl2` parser is not modelled. The IDL parse tree is an input datatype (`IdlResolution`). The `shift-spec` package's `Spec` object, which the older `reducer.js` reads, is an input table (`LegacyReducers`).
- Composition of the stages is not modelled: no lemma shows that what `SpecConsumer.Consume` exports is a valid starting state for `UnionElimination.Transform`. The union pass and the emitters read `children` lists (ast.js:249, ast.js:359), which `consume-spec.js` does not export; the build scripts load the `shift-spec-consumer` package instead, and that package is not part of this model.
- `find-max-super` is not part of this model. The clone return types it computes are an input map.
- Fixed Java text is not modelled: license headers, `makeHeader`, imports, annotations, the `extraMethods` table of ast.js, and the hand-written bodies around the generated methods. The emitters return descriptors instead of text.
- The runtime behaviour of the generated Java is not modelled: Gson parsing, the operator string switches, and enum `getName()`. No deserialize/serialize round trip is claimed. The fixed operator table maps `"&"` to `LogicalAnd` (scripts/build/reducer.js:527-528), and an unknown `type` yields `null` (scripts/build/reducer.js:787).
- `console.log` output (ast.js:382-383, director.js:71) is not modelled. Only the throw that follows it is.
- The union elimination works on values, not on a class. Shared objects are cells of an arena addressed by identity, so in-place writes and the memo on identity are kept. Aliasing beyond those identities is not modelled.
- UnionElimination.Transform: it ties each output attribute to the input one by position, name and inherited flag, and states that its type has no union or typedef reference. It does not state which union-free type replaces a given input type: the memoised rewrite is tracked per type object, not as a function on types.
- UnionElimination.Transform: it does not promise that node names stay unique. An inline union whose name is already a node replaces that node's object, as `nodes.set` does (unions-to-interfaces.js:62).
- The directors' JavaScript `Map` keeps insertion order, and `Director.Table` does not. The table is read through its sorted keys, as the assembly step sorts them anyway.
- Branches.EqualsSound and AstPaths.EqualsSound: each needs class names that are unique in the generated file. Branches.BranchNamesCollide and Branches.EqualsNeedsUniqueNames show that this can fail.
- Branches.At: it models `ImmutableList.index` of the functional library, which is not part of this model, as "the element when the index is in range, otherwise empty".
- Branches.Step and AstPaths.Apply: their own contracts state only the empty result for a foreign node. Branches.AccessFindsChild, Branches.ElementsEnumerate and AstPaths.BranchPathAgree state what a step returns.
- In the older `reducer.js`, a package type whose `typeName` is `Maybe`, `List` or `Union` always carries its argument or arguments. Malformed type objects of those names are not modelled.
- AstPaths.ReturnTypeIsBase: a nullable list makes the return-type expression read a missing property and throw (AstPaths.NullableListUnsupported). The model keeps that failure instead of guessing an intended type.
- Ill-typed Java values are outside the model. `Branches.Access` gives them no child.
- Reducers.FlattenerPrepends, RangeChecker.LeafRange and LegacyReducers.MonoidalAppendsInOrder: on a leaf whose stateful attributes are a non-list then a list of nullables, the generated `fold1` call does not type-check in Java (Reducers.CombineAsWrittenIllTyped). These lemmas give no value there instead of guessing what the compiled code would do.
- SpecConsumer.Consume, SpecConsumer.Consumer.Finish, SpecConsumer.Consumer.SetAllAttrs and SpecConsumer.Consumer.SetAttrs: the success condition (`Consumable`, `Attributable`) is sufficient, not necessary. The condition asks for an order section on every node that has parents or two or more own members. A node without a section also sorts without failing when its inherited and own attributes number fewer than two in all; that case is not covered.
- Director.Build, Director.BuildBoth and Director.Table.Direct: the success condition is sufficient, not necessary. A bad node that `Program` cannot reach does not make the build fail.
- Text.Sort: it compares strings by code point. `Array.prototype.sort` compares UTF-16 code units, and the two orders differ only for characters above U+FFFF, which WebIDL identifiers do not contain.
- Text.Capitalize and Text.UpperChar: they upper-case the ASCII letters `a` to `z` only. The other mappings of `toUpperCase` (`é` to `É`, `ß` to `SS`) are not modelled; WebIDL identifiers are ASCII.
- Error messages: a thrown `Error` whose message ends in `JSON.stringify` of the offending type (consume-spec.js:198-234, scripts/build/reducer.js:743) is modelled with its fixed prefix only.
- Integers are unbounded. The range checker's `int` bounds appear only as the two constants of its identity.

## Findings

| source | as written | input that shows it | evidently intended | confidence | as-written member | corrected member |
|---|---|---|---|---|---|---|
| scripts/build/reducer.js:882-889 | the range-checker monoid's identity is `(Integer.MAX_VALUE, Integer.MIN_VALUE)`, and `append` checks only `a.end <= b.start` | `[0, 10)`, then the identity, then `[5, 8)`: both appends pass, and the overlap is never reported | an identity that is neutral on both sides, so appending checks neighbouring ranges whatever identities lie between them | medium, not executed | RangeChecker.OverlapUndetected | RangeChecker.ConcatChecksNeighbours |
| scripts/build/reducer.js:209-210 | a node whose two stateful attributes are a non-list then a list takes `fold1(list, red(first))` even when the list holds nullables; the older reducer.js:210-211 has the same rule. The generator members (`Reducers.MonoidalEntry`, `LegacyReducers.MonoidalEntry`, `Reducers.Flatten`) keep the rule as written | a leaf with attributes `(node, list of nullable node)`: `fold1` over a list of `Maybe` has no `State` value | apply the `fold1` shortcut only when the list holds states, and otherwise append `red` of each attribute | medium, not executed | Reducers.CombineAsWrittenIllTyped | Reducers.MonoidalSound |
| reducer.js:274-276 | the second test compares with the expression type again, and the assignment-target test has no `return` | a statement union type whose members run together to no case of the switch, say members `A` and `B`: it is named `AB`, not `Statement`. When the members run together to the listed case, the switch at reducer.js:292-293 (and 286-287 for the assignment target) still gives the intended name (LegacyReducers.SwitchMasksKnownUnions) | `Statement` for the statement type and `AssignmentTarget` for the assignment-target type, whatever their members | low, not executed; masked for the member lists the switch names | LegacyReducers.StatementMisnamed | LegacyReducers.DeUnionKnown |
| scripts/build/ast-path.js:106-108 | `year` is imported from the utilities module, which does not export it (scripts/lib/utilities.js:84-93) | an enum named `BinaryOperator`: it is qualified as `com.shapesecurity.shift.esundefined.ast.operators.BinaryOperator` | the package of the ECMAScript year the files are generated for | medium, not executed | AstPaths.OperatorPackageUndefined | AstPaths.OperatorPackageNamesYear |
