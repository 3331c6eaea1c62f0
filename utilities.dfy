/**
 * Helpers every generator script uses: whether an attribute carries reducer state,
 * renaming the Java keyword `super`, and rendering a semantic type as a Java type.
 */
module Utilities {
  import opened Wrappers
  import opened SemanticTypes

  /**
   * Whether a field of this type contributes to a reducer's state. Only the outer
   * nullable wrappers are looked through: a list is stateful whatever it holds.
   */
  function IsStateful(t: SemanticType): (r: Result<bool>)
  {
    match t
    case Value(_) => Success(false)
    case Enum(_) => Success(false)
    case Nullable(a) => IsStateful(a)
    case List(_) => Success(true)
    case Node(_) => Success(true)
    case _ => Failure("Not reached")
  }

  /**
   * A type is stateful exactly when, under its nullable wrappers, it is a list or a node;
   * it is not stateful when it is a value or an enum there; and the question fails
   * exactly when a union or a named type sits there.
   */
  lemma {:induction false} IsStatefulByCore(t: SemanticType)
    ensures IsStateful(t) == Success(true) <==> (StripNullable(t).List? || StripNullable(t).Node?)
    ensures IsStateful(t) == Success(false) <==> (StripNullable(t).Value? || StripNullable(t).Enum?)
    ensures IsStateful(t).Failure? <==> (StripNullable(t).Union? || StripNullable(t).NamedType?)
  {
    if t.Nullable? {
      IsStatefulByCore(t.argument);
    }
  }

  /** After union elimination the question never fails. */
  lemma IsStatefulDefined(t: SemanticType)
    requires UnionFree(t)
    ensures IsStateful(t).Success?
  {
    IsStatefulByCore(t);
  }

  /** Keeps `filter(isStatefulType)`: the stateful attributes, in order; fails as soon as one check fails. */
  function StatefulAttributes(attrs: seq<Attribute>): (r: Result<seq<Attribute>>)
    ensures r.Success? <==> forall a <- attrs :: IsStateful(a.typ).Success?
    ensures r.Success? ==> forall a :: a in r.value <==> a in attrs && IsStateful(a.typ) == Success(true)
    ensures r.Success? ==> |r.value| <= |attrs|
  {
    if attrs == [] then Success([])
    else
      match IsStateful(attrs[0].typ)
      case Failure(e) => Failure(e)
      case Success(keep) =>
        match StatefulAttributes(attrs[1..])
        case Failure(e) => Failure(e)
        case Success(rest) =>
          assert attrs == [attrs[0]] + attrs[1..];
          Success(if keep then [attrs[0]] + rest else rest)
  }

  /** `super` is a Java keyword; every other name is kept. */
  function Sanitize(name: string): (r: string)
    ensures r != "super"
    ensures name != "super" ==> r == name
  {
    if name == "super" then "_super" else name
  }

  /** Renaming is not one-to-one: fields `super` and `_super` would get the same Java name. */
  lemma SanitizeNotInjective()
    ensures Sanitize("super") == Sanitize("_super")
  {
  }

  /** Renders a type in Java; node types become `nodeType` when one is supplied. */
  function ToJavaType(t: SemanticType, nodeType: Option<string>): (r: Result<string>)
  {
    match t
    case Nullable(a) =>
      (match ToJavaType(a, nodeType)
       case Success(s) => Success("Maybe<" + s + ">")
       case Failure(e) => Failure(e))
    case List(a) =>
      (match ToJavaType(a, nodeType)
       case Success(s) => Success("ImmutableList<" + s + ">")
       case Failure(e) => Failure(e))
    case Node(n) => Success(nodeType.GetOr(n))
    case Value(tag) =>
      if tag == "string" then Success("String")
      else if tag == "boolean" then Success("boolean")
      else if tag == "double" then Success("double")
      else Failure("Unhandled value type " + tag)
    case _ => Failure("Not reached")
  }

  /**
   * Rendering succeeds exactly when the innermost type is a node or one of the three known value
   * types; an enum, a union or a named type there fails with "Not reached", an unknown tag with its
   * own message. A node renders as the replacement when one is given.
   */
  lemma {:induction false} ToJavaTypeDefined(t: SemanticType, nodeType: Option<string>)
    ensures ToJavaType(t, nodeType).Success? <==>
      Innermost(t).Node? || (Innermost(t).Value? && Innermost(t).tag in ["string", "boolean", "double"])
    ensures (Innermost(t).Enum? || Innermost(t).Union? || Innermost(t).NamedType?) ==>
      ToJavaType(t, nodeType) == Failure("Not reached")
    ensures Innermost(t).Value? && Innermost(t).tag !in ["string", "boolean", "double"] ==>
      ToJavaType(t, nodeType) == Failure("Unhandled value type " + Innermost(t).tag)
    ensures t.Node? ==> ToJavaType(t, nodeType) == Success(if nodeType.Some? then nodeType.value else t.name)
  {
    if t.Nullable? || t.List? {
      ToJavaTypeDefined(t.argument, nodeType);
    }
  }

  /** A node name that cannot be confused with a Java value type or a generic type. */
  predicate PlainName(n: string)
  {
    '<' !in n && '>' !in n && n != "String" && n != "boolean" && n != "double"
  }

  /** Types `ToJavaType` can render: nullables and lists of known values and plainly named nodes. */
  predicate Renderable(t: SemanticType)
  {
    match t
    case Nullable(a) => Renderable(a)
    case List(a) => Renderable(a)
    case Node(n) => PlainName(n)
    case Value(tag) => tag == "string" || tag == "boolean" || tag == "double"
    case _ => false
  }

  /** Reads a Java type written by `ToJavaType` back into the semantic type. */
  function ParseJavaType(s: string): Option<SemanticType>
    decreases |s|
  {
    if s == "String" then Some(Value("string"))
    else if s == "boolean" then Some(Value("boolean"))
    else if s == "double" then Some(Value("double"))
    else if |s| > 6 && s[..6] == "Maybe<" && s[|s| - 1] == '>' then
      (match ParseJavaType(s[6..|s| - 1])
       case Some(a) => Some(Nullable(a))
       case None => None)
    else if |s| > 14 && s[..14] == "ImmutableList<" && s[|s| - 1] == '>' then
      (match ParseJavaType(s[14..|s| - 1])
       case Some(a) => Some(List(a))
       case None => None)
    else if '<' !in s && '>' !in s then Some(Node(s))
    else None
  }

  lemma ParseMaybe(x: string)
    ensures ParseJavaType("Maybe<" + x + ">")
         == match ParseJavaType(x) case Some(a) => Some(Nullable(a)) case None => None
  {
    var s := "Maybe<" + x + ">";
    assert s[0] == 'M' && s[..6] == "Maybe<" && s[6..|s| - 1] == x && s[|s| - 1] == '>';
    assert s != "String" && s != "boolean" && s != "double" by {
      assert "String"[0] == 'S' && "boolean"[0] == 'b' && "double"[0] == 'd';
    }
  }

  lemma ParseImmutableList(x: string)
    ensures ParseJavaType("ImmutableList<" + x + ">")
         == match ParseJavaType(x) case Some(a) => Some(List(a)) case None => None
  {
    var s := "ImmutableList<" + x + ">";
    assert s[0] == 'I' && s[..14] == "ImmutableList<" && s[14..|s| - 1] == x && s[|s| - 1] == '>';
    assert s[..6] != "Maybe<" by {
      assert s[..6][0] == 'I';
    }
    assert s != "String" && s != "boolean" && s != "double" by {
      assert "String"[0] == 'S' && "boolean"[0] == 'b' && "double"[0] == 'd';
    }
  }

  lemma ParsePlainNode(n: string)
    requires PlainName(n)
    ensures ParseJavaType(n) == Some(Node(n))
  {
  }

  /**
   * Without a node replacement the Java type is unambiguous: it reads back into the
   * type it was written from, so two different renderable types never share a Java type.
   */
  lemma {:induction false} JavaTypeRoundTrip(t: SemanticType)
    requires Renderable(t)
    ensures ToJavaType(t, None).Success?
    ensures ParseJavaType(ToJavaType(t, None).value) == Some(t)
  {
    match t
    case Nullable(a) =>
      JavaTypeRoundTrip(a);
      ParseMaybe(ToJavaType(a, None).value);
    case List(a) =>
      JavaTypeRoundTrip(a);
      ParseImmutableList(ToJavaType(a, None).value);
    case Node(n) =>
      ParsePlainNode(n);
    case Value(_) =>
  }

  lemma JavaTypeInjective(t1: SemanticType, t2: SemanticType)
    requires Renderable(t1) && Renderable(t2)
    requires ToJavaType(t1, None) == ToJavaType(t2, None)
    ensures t1 == t2
  {
    JavaTypeRoundTrip(t1);
    JavaTypeRoundTrip(t2);
  }
}
