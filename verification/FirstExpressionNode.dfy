/**
 * The expression node for `First` and `FirstOrDefault`: a terminal node of a parsed query chain.
 * It turns into a first-element result operator and, since no data streams out of it, refuses
 * to resolve any expression in terms of its input.
 */
module FirstExpressionNode {
  import opened Wrappers

  datatype DeclaringClass = Queryable | Enumerable

  /** A query method as the parser sees it: declaring class, name, and whether it takes a predicate. */
  datatype MethodSignature = MethodSignature(DeclaringClass: DeclaringClass, Name: string, HasPredicate: bool)

  /** The method forms this node stands for. */
  const SupportedMethods: seq<MethodSignature> := [
    MethodSignature(Queryable, "First", false),
    MethodSignature(Queryable, "First", true),
    MethodSignature(Queryable, "FirstOrDefault", false),
    MethodSignature(Queryable, "FirstOrDefault", true),
    MethodSignature(Enumerable, "First", false),
    MethodSignature(Enumerable, "First", true),
    MethodSignature(Enumerable, "FirstOrDefault", false),
    MethodSignature(Enumerable, "FirstOrDefault", true)
  ]

  /**
   * Exactly eight distinct forms are supported: `First` and `FirstOrDefault`, with and without a
   * predicate, on both declaring classes.
   */
  lemma SupportedMethodsAreTheFirstForms(m: MethodSignature)
    ensures m in SupportedMethods <==> m.Name == "First" || m.Name == "FirstOrDefault"
    ensures |SupportedMethods| == 8
    ensures forall i, j :: 0 <= i < j < |SupportedMethods| ==> SupportedMethods[i] != SupportedMethods[j]
  {
    if m.Name == "First" || m.Name == "FirstOrDefault" {
      match m.DeclaringClass
      case Queryable =>
        if m.Name == "First" {
          assert m == SupportedMethods[if m.HasPredicate then 1 else 0];
        } else {
          assert m == SupportedMethods[if m.HasPredicate then 3 else 2];
        }
      case Enumerable =>
        if m.Name == "First" {
          assert m == SupportedMethods[if m.HasPredicate then 5 else 4];
        } else {
          assert m == SupportedMethods[if m.HasPredicate then 7 else 6];
        }
    }
  }

  /** What the parser recorded about the method call this node was made from. */
  datatype ParseInfo = ParseInfo(AssociatedIdentifier: string, ParsedMethod: MethodSignature)

  /** A result-operator node: its parse information, an optional predicate and an optional selector. */
  datatype Node<Lambda> = Node(ParseInfo: ParseInfo, OptionalPredicate: Option<Lambda>, OptionalSelector: Option<Lambda>)

  /** A first node keeps the predicate it is given and never has a selector. */
  function NewFirstExpressionNode<Lambda>(parseInfo: ParseInfo, optionalPredicate: Option<Lambda>): (n: Node<Lambda>)
    ensures n.ParseInfo == parseInfo
    ensures n.OptionalPredicate == optionalPredicate
    ensures n.OptionalSelector == None
  {
    Node(parseInfo, optionalPredicate, None)
  }

  datatype NodeError =
    | ArgumentNull(ParameterName: string)
    | ResolveNotSupported

  /**
   * Resolving through a first node always fails: a missing input parameter or expression is
   * reported first, in that order; otherwise resolution is not supported.
   */
  function Resolve<Lambda, Parameter, Expression>(node: Node<Lambda>, inputParameter: Option<Parameter>, expressionToBeResolved: Option<Expression>)
    : (r: Result<Expression, NodeError>)
    ensures r.Failure?
    ensures r.error == ArgumentNull("inputParameter") <==> inputParameter.None?
    ensures r.error == ArgumentNull("expressionToBeResolved") <==> inputParameter.Some? && expressionToBeResolved.None?
    ensures r.error == ResolveNotSupported <==> inputParameter.Some? && expressionToBeResolved.Some?
  {
    if inputParameter.None? then Failure(ArgumentNull("inputParameter"))
    else if expressionToBeResolved.None? then Failure(ArgumentNull("expressionToBeResolved"))
    else Failure(ResolveNotSupported)
  }

  /** The first-element result operator; it may return a default value for an empty sequence. */
  datatype FirstResultOperator = FirstResultOperator(ReturnDefaultWhenEmpty: bool)

  predicate EndsWith(s: string, suffix: string) {
    |suffix| <= |s| && s[|s| - |suffix|..] == suffix
  }

  /** The result operator of a first node: `FirstOrDefault` returns a default, `First` does not. */
  function CreateResultOperator<Lambda>(node: Node<Lambda>): (r: FirstResultOperator)
    ensures node.ParseInfo.ParsedMethod.Name == "FirstOrDefault" ==> r.ReturnDefaultWhenEmpty
    ensures node.ParseInfo.ParsedMethod.Name == "First" ==> !r.ReturnDefaultWhenEmpty
  {
    var name := node.ParseInfo.ParsedMethod.Name;
    assert name == "FirstOrDefault" ==> name[|name| - 9..] == "OrDefault";
    FirstResultOperator(EndsWith(name, "OrDefault"))
  }

  /** The flag is set exactly when the method name is some name followed by "OrDefault". */
  lemma ResultOperatorFlagFollowsSuffix<Lambda>(node: Node<Lambda>, prefix: string)
    ensures
      var name := node.ParseInfo.ParsedMethod.Name;
      CreateResultOperator(node).ReturnDefaultWhenEmpty <==> |name| >= 9 && name == name[..|name| - 9] + "OrDefault"
    ensures node.ParseInfo.ParsedMethod.Name == prefix + "OrDefault" ==> CreateResultOperator(node).ReturnDefaultWhenEmpty
  {
    var name := node.ParseInfo.ParsedMethod.Name;
    if name == prefix + "OrDefault" {
      assert name[|name| - 9..] == "OrDefault";
    }
  }

  /** For the supported methods, only `FirstOrDefault` returns a default when the input is empty. */
  lemma ResultOperatorOfSupportedMethod<Lambda>(node: Node<Lambda>)
    requires node.ParseInfo.ParsedMethod in SupportedMethods
    ensures CreateResultOperator(node).ReturnDefaultWhenEmpty <==> node.ParseInfo.ParsedMethod.Name == "FirstOrDefault"
  {
    SupportedMethodsAreTheFirstForms(node.ParseInfo.ParsedMethod);
    var name := node.ParseInfo.ParsedMethod.Name;
    if name == "FirstOrDefault" {
      assert name[|name| - 9..] == "OrDefault";
    }
  }
}
