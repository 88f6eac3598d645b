/**
 * The outcomes asserted by the unit tests of `CreateV2MatchingRules`, each
 * stated as the whole rule set the compiler produces.
 */
module CreateV2MatchingRulesTests {
  import opened Wrappers
  import opened Paths
  import opened Templates
  import opened Compiler
  import opened Builders

  const HelloWorld := "Hello world"

  lemma SimpleValue()
    ensures With([ElementLike(String(HelloWorld))]).CreateV2MatchingRules()
      == Ok(map["$.body" := TypeRule])
  {
  }

  lemma NamedValueInObject()
    ensures With([ElementLike(String(HelloWorld)).Named("greeting")]).CreateV2MatchingRules()
      == Ok(map["$.body.greeting" := TypeRule])
  {
    NamedLikeRule("greeting", String(HelloWorld));
    assert MemberPath(BodyPath, "greeting") == "$.body.greeting";
  }

  lemma ExactValue()
    ensures With([ElementWithTheExactValue(String(HelloWorld))]).CreateV2MatchingRules() == Ok(map[])
  {
  }

  lemma ElementWithinArray()
    ensures With([SomeArray.Named("anArray").Of(ElementLike(String(HelloWorld)))]).CreateV2MatchingRules()
      == Ok(map["$.body.anArray[0]" := TypeRule])
  {
    var e := SomeArray.Named("anArray").Of(ElementLike(String(HelloWorld)));
    assert ToMembers([e], 0).value == [Member("anArray", e.node)];
    CompileOneMember(Member("anArray", e.node), BodyPath);
    assert MemberPath(BodyPath, "anArray") == "$.body.anArray";
    assert FirstElementPath("$.body.anArray") == "$.body.anArray[0]";
  }

  lemma ElementWithinArrayWithMin()
    ensures var r := With([SomeArray.Named("anArray").ContainingAtLeast(2).Of(ElementLike(String(HelloWorld)))]).CreateV2MatchingRules();
      && r == Ok(map["$.body.anArray" := MinRule(2), "$.body.anArray[0]" := TypeRule])
      && |r.value| == 2
  {
    var e := SomeArray.Named("anArray").ContainingAtLeast(2).Of(ElementLike(String(HelloWorld)));
    assert ToMembers([e], 0).value == [Member("anArray", e.node)];
    CompileOneMember(Member("anArray", e.node), BodyPath);
    assert MemberPath(BodyPath, "anArray") == "$.body.anArray";
    assert FirstElementPath("$.body.anArray") == "$.body.anArray[0]";
    assert Compile(e.node, "$.body.anArray") == map["$.body.anArray" := MinRule(2), "$.body.anArray[0]" := TypeRule];
  }

  lemma Regex()
    ensures With([StringLikeRegex(HelloWorld, "Hello.*")]).CreateV2MatchingRules()
      == Ok(map["$.body" := RegexRule("Hello.*")])
  {
  }

  lemma GuidRegex(regexes: RegexConstants)
    ensures With([StringLikeGuid("e5dfa73c-4398-440a-8094-69e61326f7f9", regexes)]).CreateV2MatchingRules()
      == Ok(map["$.body" := RegexRule(regexes.guid)])
  {
  }

  lemma DateTimeRegex(regexes: RegexConstants)
    ensures With([StringLikeDateTime("2020-06-01T13:05:30", regexes)]).CreateV2MatchingRules()
      == Ok(map["$.body" := RegexRule(regexes.dateTime)])
  {
  }

  lemma ArrayWithStar()
    ensures var r := With([SomeArray.Named("anArray").InWhichEveryElementIs(ElementLike(String(HelloWorld)))]).CreateV2MatchingRules();
      && r == Ok(map["$.body.anArray[*]" := TypeRule, "$.body.anArray" := MinRule(1)])
      && |r.value| == 2
  {
    var e := SomeArray.Named("anArray").InWhichEveryElementIs(ElementLike(String(HelloWorld)));
    assert ToMembers([e], 0).value == [Member("anArray", e.node)];
    CompileOneMember(Member("anArray", e.node), BodyPath);
    assert MemberPath(BodyPath, "anArray") == "$.body.anArray";
    assert EveryElementPath("$.body.anArray") == "$.body.anArray[*]";
  }

  lemma ArrayWithStarVariation()
    ensures var r := With([SomeArray.InWhichEveryElementIs(ElementLike(String(HelloWorld))).Named("anArray")]).CreateV2MatchingRules();
      && r == Ok(map["$.body.anArray[*]" := TypeRule, "$.body.anArray" := MinRule(1)])
      && |r.value| == 2
  {
    NamedOrderIrrelevant(SomeArray, ElementLike(String(HelloWorld)), "anArray", 1);
    ArrayWithStar();
  }

  lemma SimpleString()
    ensures With([StringLike(HelloWorld).Named("greeting")]).CreateV2MatchingRules()
      == Ok(map["$.body.greeting" := TypeRule])
  {
    NamedLikeRule("greeting", String(HelloWorld));
    assert MemberPath(BodyPath, "greeting") == "$.body.greeting";
  }
}
