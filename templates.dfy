/**
 * The body template: an immutable tree that says, location by location,
 * how strictly an actual JSON body must follow the example.
 */
module Templates {
  import opened Wrappers
  import opened Paths

  /** Example JSON values carried by the template (numbers as integers). */
  datatype Json =
    | Null
    | Bool(b: bool)
    | Number(n: int)
    | String(s: string)
    | JArray(items: seq<Json>)
    | JObject(fields: seq<(string, Json)>)

  datatype Node =
    | Exact(value: Json)                                     // compared by equality
    | Like(example: Json)                                    // same JSON type as the example
    | Regexed(sample: string, pattern: string)               // a string matching the pattern
    | ArrayOf(element: Node, min: Option<nat>, everyElement: bool)
    | Object(members: seq<Member>)

  datatype Member = Member(name: string, node: Node)

  datatype MatcherType = Type | Regex

  /** One entry of the `matchingRules` section of a version 2 pact. */
  datatype MatchingRule = MatchingRule(matcherType: MatcherType, regex: Option<string>, min: Option<nat>)

  const TypeRule := MatchingRule(Type, None, None)

  function RegexRule(pattern: string): MatchingRule {
    MatchingRule(Regex, Some(pattern), None)
  }

  function MinRule(min: nat): MatchingRule {
    MatchingRule(Type, None, Some(min))
  }

  /** A rule as the version 2 format allows it: a pattern exactly for `regex`, a minimum only for `type`. */
  predicate Shaped(rule: MatchingRule) {
    && (rule.matcherType == Regex <==> rule.regex.Some?)
    && (rule.min.Some? ==> rule.matcherType == Type)
  }

  /** The rule a node puts at its own location, if any. */
  function OwnRule(n: Node): Option<MatchingRule> {
    match n
    case Exact(_) => None
    case Like(_) => Some(TypeRule)
    case Regexed(_, pattern) => Some(RegexRule(pattern))
    case ArrayOf(_, min, everyElement) =>
      if everyElement then Some(MinRule(min.GetOr(1)))
      else if min.Some? then Some(MinRule(min.value))
      else None
    case Object(_) => None
  }

  /** A tree that constrains nothing beyond equality with its example. */
  predicate Unconstrained(n: Node) {
    match n
    case Exact(_) => true
    case Like(_) => false
    case Regexed(_, _) => false
    case ArrayOf(e, min, everyElement) => !everyElement && min.None? && Unconstrained(e)
    case Object(ms) => forall i :: 0 <= i < |ms| ==> Unconstrained(ms[i].node)
  }

  /** How many rules a tree asks for: one per own rule, over the whole tree. */
  function RuleCount(n: Node): nat {
    match n
    case Exact(_) => 0
    case Like(_) => 1
    case Regexed(_, _) => 1
    case ArrayOf(e, min, everyElement) => RuleCount(e) + (if everyElement || min.Some? then 1 else 0)
    case Object(ms) => MembersRuleCount(ms)
  }

  function MembersRuleCount(ms: seq<Member>): nat {
    if ms == [] then 0 else RuleCount(ms[0].node) + MembersRuleCount(ms[1..])
  }

  /** Member names of every object are identifiers and distinct within their object. */
  predicate WellFormed(n: Node) {
    match n
    case Exact(_) => true
    case Like(_) => true
    case Regexed(_, _) => true
    case ArrayOf(e, _, _) => WellFormed(e)
    case Object(ms) =>
      && (forall i :: 0 <= i < |ms| ==> IsIdentifier(ms[i].name) && WellFormed(ms[i].node))
      && (forall i, j :: 0 <= i < j < |ms| ==> ms[i].name != ms[j].name)
  }

  /** The same tree with every example replaced by a fixed placeholder. */
  function Skeleton(n: Node): Node {
    match n
    case Exact(_) => Exact(Null)
    case Like(_) => Like(Null)
    case Regexed(_, pattern) => Regexed("", pattern)
    case ArrayOf(e, min, everyElement) => ArrayOf(Skeleton(e), min, everyElement)
    case Object(ms) => Object(MembersSkeleton(ms))
  }

  function MembersSkeleton(ms: seq<Member>): seq<Member> {
    if ms == [] then [] else [Member(ms[0].name, Skeleton(ms[0].node))] + MembersSkeleton(ms[1..])
  }
}
