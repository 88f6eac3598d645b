/**
 * The fluent builder: `Some.Element`, `Some.String`, `Some.Array`,
 * `.Named` and `Pact.JsonContent.With`, and the entry point
 * `CreateV2MatchingRules` that compiles a body from `$.body`.
 */
module Builders {
  import opened Wrappers
  import opened Paths
  import opened Templates
  import opened Compiler

  /** The canonical patterns behind `LikeGuid` and `LikeDateTime`; their text is not modelled. */
  datatype RegexConstants = RegexConstants(guid: string, dateTime: string)

  /** A template node with the name it takes once placed in an object. */
  datatype Element = Element(node: Node, name: Option<string>) {
    /** Gives the element the name it takes in an object; its template is untouched. */
    function Named(name: string): (r: Element)
      ensures r.name == Some(name) && r.node == node
    {
      Element(node, Some(name))
    }
  }

  /** `Some.Element.Like`. */
  function ElementLike(example: Json): (r: Element)
    ensures r.name.None? && r.node.Like? && r.node.example == example
    ensures OwnRule(r.node) == Some(TypeRule) && RuleCount(r.node) == 1
  {
    Element(Like(example), None)
  }

  /** `Some.Element.WithTheExactValue`. */
  function ElementWithTheExactValue(value: Json): (r: Element)
    ensures r.name.None? && Unconstrained(r.node) && RuleCount(r.node) == 0
  {
    Element(Exact(value), None)
  }

  /** `Some.String.Like`. */
  function StringLike(example: string): (r: Element)
    ensures r.name.None? && r.node.Like? && r.node.example == String(example)
    ensures OwnRule(r.node) == Some(TypeRule) && RuleCount(r.node) == 1
  {
    Element(Like(String(example)), None)
  }

  /** `Some.String.LikeRegex`. */
  function StringLikeRegex(example: string, pattern: string): (r: Element)
    ensures r.name.None? && OwnRule(r.node) == Some(RegexRule(pattern)) && RuleCount(r.node) == 1
  {
    Element(Regexed(example, pattern), None)
  }

  /** `Some.String.LikeGuid`. */
  function StringLikeGuid(example: string, regexes: RegexConstants): (r: Element)
    ensures r.name.None? && OwnRule(r.node) == Some(RegexRule(regexes.guid)) && RuleCount(r.node) == 1
  {
    StringLikeRegex(example, regexes.guid)
  }

  /** `Some.String.LikeDateTime`. */
  function StringLikeDateTime(example: string, regexes: RegexConstants): (r: Element)
    ensures r.name.None? && OwnRule(r.node) == Some(RegexRule(regexes.dateTime)) && RuleCount(r.node) == 1
  {
    StringLikeRegex(example, regexes.dateTime)
  }

  /** `Some.Array` before its element is given: a name and a minimum, both optional. */
  datatype ArrayBuilder = ArrayBuilder(name: Option<string>, min: Option<nat>) {
    function Named(name: string): (r: ArrayBuilder)
      ensures r.name == Some(name) && r.min == min
    {
      ArrayBuilder(Some(name), min)
    }

    function ContainingAtLeast(n: nat): (r: ArrayBuilder)
      ensures r.min == Some(n) && r.name == name
    {
      ArrayBuilder(name, Some(n))
    }

    /**
     * Constrains the first element only: the array has a rule of its own
     * exactly when a minimum was given.
     */
    function Of(element: Element): (r: Element)
      ensures r.name == name && r.node.ArrayOf? && r.node.element == element.node && !r.node.everyElement
      ensures OwnRule(r.node) == (if min.Some? then Some(MinRule(min.value)) else None)
      ensures RuleCount(r.node) == RuleCount(element.node) + (if min.Some? then 1 else 0)
    {
      Element(ArrayOf(element.node, min, false), name)
    }

    /**
     * Constrains every element: the array always has a rule of its own, with
     * the given minimum or 1.
     */
    function InWhichEveryElementIs(element: Element): (r: Element)
      ensures r.name == name && r.node.ArrayOf? && r.node.element == element.node && r.node.everyElement
      ensures OwnRule(r.node) == Some(MinRule(min.GetOr(1)))
      ensures RuleCount(r.node) == RuleCount(element.node) + 1
    {
      Element(ArrayOf(element.node, min, true), name)
    }
  }

  const SomeArray := ArrayBuilder(None, None)

  /** A body of several elements in which the element at `index` has no name. */
  datatype BuildError = UnnamedMember(index: nat)

  /** The elements of a body, to become the members of its top-level object. */
  function ToMembers(es: seq<Element>, offset: nat): (r: Result<seq<Member>, BuildError>)
    ensures r.Ok? <==> forall i :: 0 <= i < |es| ==> es[i].name.Some?
    ensures r.Ok? ==> (|r.value| == |es|
      && forall i :: 0 <= i < |es| ==> r.value[i] == Member(es[i].name.value, es[i].node))
    ensures r.Err? ==> var j := r.error.index - offset;
      && offset <= r.error.index < offset + |es|
      && es[j].name.None?
      && forall i :: 0 <= i < j ==> es[i].name.Some?
    decreases es
  {
    if es == [] then Ok([])
    else if es[0].name.None? then Err(UnnamedMember(offset))
    else
      match ToMembers(es[1..], offset + 1)
      case Err(e) => Err(e)
      case Ok(rest) => Ok([Member(es[0].name.value, es[0].node)] + rest)
  }

  /** `Pact.JsonContent.With(...)`: a body built from elements. */
  datatype JsonContent = JsonContent(elements: seq<Element>) {

    /**
     * A single unnamed element is the whole body; otherwise every element
     * must be named and the body is the object of those members.
     */
    function Body(): (r: Result<Node, BuildError>)
      ensures |elements| == 1 && elements[0].name.None? ==> r == Ok(elements[0].node)
      ensures !(|elements| == 1 && elements[0].name.None?) ==>
        (r.Ok? <==> forall i :: 0 <= i < |elements| ==> elements[i].name.Some?)
      ensures !(|elements| == 1 && elements[0].name.None?) && r.Ok? ==>
        r.value.Object? && |r.value.members| == |elements|
        && forall i :: 0 <= i < |elements| ==>
          r.value.members[i] == Member(elements[i].name.value, elements[i].node)
    {
      if |elements| == 1 && elements[0].name.None? then Ok(elements[0].node)
      else
        match ToMembers(elements, 0)
        case Err(e) => Err(e)
        case Ok(ms) => Ok(Object(ms))
    }

    /** The `matchingRules` of the body, keyed from `$.body`. */
    function CreateV2MatchingRules(): (r: Result<Rules, BuildError>)
      ensures r.Ok? <==> Body().Ok?
      ensures r.Ok? ==> Below(BodyPath, r.value)
    {
      match Body()
      case Err(e) => Err(e)
      case Ok(n) => Ok(Compile(n, BodyPath))
    }
  }

  /** `Pact.JsonContent.With`: a lone unnamed element is the whole body. */
  function With(elements: seq<Element>): (r: JsonContent)
    ensures r.elements == elements
    ensures |elements| == 1 && elements[0].name.None? ==> r.Body() == Ok(elements[0].node)
  {
    JsonContent(elements)
  }

  /** `.Named` may be applied to the array builder or to the finished array alike. */
  lemma NamedOrderIrrelevant(b: ArrayBuilder, element: Element, name: string, n: nat)
    ensures b.Named(name).InWhichEveryElementIs(element) == b.InWhichEveryElementIs(element).Named(name)
    ensures b.Named(name).Of(element) == b.Of(element).Named(name)
    ensures b.Named(name).ContainingAtLeast(n) == b.ContainingAtLeast(n).Named(name)
  {
  }

  /** A body of a well-formed tree gets exactly as many rules as it asks for. */
  lemma RulesCount(content: JsonContent)
    requires content.Body().Ok? && WellFormed(content.Body().value)
    ensures content.CreateV2MatchingRules().Ok?
    ensures |content.CreateV2MatchingRules().value| == RuleCount(content.Body().value)
  {
    RuleCountExact(content.Body().value, BodyPath);
  }

  /** A body whose templates only fix exact values compiles to no rules, and only such a body does. */
  lemma NoRulesIffExact(content: JsonContent)
    requires content.Body().Ok?
    ensures content.CreateV2MatchingRules() == Ok(map[]) <==> Unconstrained(content.Body().value)
  {
    EmptyIffUnconstrained(content.Body().value, BodyPath);
  }

  /** One type-matched member named `name` compiles to one `type` rule at `$.body.name`. */
  lemma NamedLikeRule(name: string, example: Json)
    ensures With([ElementLike(example).Named(name)]).CreateV2MatchingRules()
      == Ok(map[MemberPath(BodyPath, name) := TypeRule])
  {
    var e := ElementLike(example).Named(name);
    var r := ToMembers([e], 0);
    assert r.Ok?;
    assert r.value[0] == Member(name, Like(example));
    assert r.value == [Member(name, Like(example))];
    CompileOneMember(Member(name, Like(example)), BodyPath);
  }

  /** The stored pattern is the one given, whatever the example string. */
  lemma RegexKeepsPattern(example: string, pattern: string)
    ensures With([StringLikeRegex(example, pattern)]).CreateV2MatchingRules()
      == Ok(map[BodyPath := RegexRule(pattern)])
  {
  }
}
