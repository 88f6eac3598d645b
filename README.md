# ComPact: version 2 matching-rule compiler

ComPact lets a consumer describe the body it expects from a provider as a
template. The template is built fluently: `Some.Element.Like`,
`Some.Element.WithTheExactValue`, `Some.String.Like` / `LikeRegex` /
`LikeGuid` / `LikeDateTime`, `Some.Array.Of` / `ContainingAtLeast` /
`InWhichEveryElementIs`, `.Named`, and `Pact.JsonContent.With`. The method
`CreateV2MatchingRules` compiles such a body into the `matchingRules`
dictionary of a version 2 pact. Each key is a path from `$.body`. Each value
is a rule: a matcher type (`type` or `regex`), an optional pattern and an
optional minimum.

This project models that compiler and proves properties of it:

- `wrappers.dfy`: `Option` and `Result`.
- `paths.dfy`: the path notation. A path starts at `$.body` and grows by
  `.name`, `[0]` and `[*]`. `Extends` says that a key lies at or below a
  path. Lemmas prove that distinct identifier member names (names without
  `.` or `[`) address disjoint locations, and so do the two element
  segments `[0]` and `[*]`.
- `templates.dfy`: the template tree (`Node`), the example values (`Json`)
  and the rule record (`MatchingRule`). It also holds the reference
  definitions that the compiler is checked against. `OwnRule` is the rule a
  node puts at its own location. `RuleCount` is the number of rules a tree
  asks for. `Unconstrained` holds for a tree that fixes only exact values.
- `compiler.dfy`: `Compile`, the recursive descent from a path, and the
  lemmas that connect it to those reference definitions.
- `builders.dfy`: the fluent builder and `CreateV2MatchingRules`.
- `create_v2_matching_rules_tests.dfy`: one lemma per unit test. Each
  lemma states the whole rule set that the test inspects.

The compiler's own source is not part of this model. Its behaviour comes from
the assertions in `ComPact.UnitTests/Builders/CreateV2MatchingRulesTests.cs`.
The model resolves the rest as follows:

- A body of one unnamed element is that element at `$.body`. Otherwise every
  element must be named, and the body is an object of those members at
  `$.body.<name>`.
- If an element is unnamed in a body of several elements, the result is the
  error `UnnamedMember`.
- An array built with `Of` puts its element's rules under `[0]`. It has a
  rule of its own only when `ContainingAtLeast` gave a minimum.
- An array built with `InWhichEveryElementIs` puts its element's rules under
  `[*]` and nothing under `[0]`. It always has a rule of its own, whose
  minimum is 1 unless `ContainingAtLeast` gave another.
- If two members of one object share a key, the later member's rule wins.
  No unit test covers this case; it is a choice of this model (see "## Left out").

Two of these rules rest directly on test lines:

- `ArrayWithStar` (line 104) counts exactly two rules for an every-element
  array of a Like element: `[*]` and the array itself. So an every-element
  array puts nothing at `[0]`.
- `ElementWithinArrayWithMin` (lines 58-60) finds a `type` rule with
  minimum 2 at the array's own path beside the `[0]` rule. So an array with
  an explicit minimum adds a rule of its own, and `RuleCount` counts it.

`RegexConstants.Guid` and `RegexConstants.DateTime` are modelled as the two
fields of a `RegexConstants` value passed to `StringLikeGuid` and
`StringLikeDateTime`. The lemmas about them hold for every choice of the
two patterns.

## Model

| member | source | states |
|---|---|---|
| `Compiler.Compile` | ComPact.UnitTests/Builders/CreateV2MatchingRulesTests.cs:16-18 | every key it produces lies at or below the starting path, and every rule has the version 2 shape: a pattern exactly when the matcher is `regex`, and a minimum only on a `type` rule |
| `Compiler.CompileMembers` | ComPact.UnitTests/Builders/CreateV2MatchingRulesTests.cs:24-28 | the rules of an object's members lie strictly below the object's path, never at the path itself |
| `Compiler.OwnRuleAtPath` | ComPact.UnitTests/Builders/CreateV2MatchingRulesTests.cs:64-73 | for every template, the rule at the template's own path is exactly `OwnRule`: `type` for Like, `regex` with the given pattern for a regex template, `type` with the minimum for a constrained array, and none otherwise |
| `Compiler.EmptyIffUnconstrained` | ComPact.UnitTests/Builders/CreateV2MatchingRulesTests.cs:31-39 | a template compiles to the empty rule set if and only if it fixes nothing except exact values |
| `Compiler.RuleCountExact` | ComPact.UnitTests/Builders/CreateV2MatchingRulesTests.cs:51-62 | when member names are identifiers and distinct, the number of rules equals `RuleCount`: one per Like, regex or constrained-array node, so no two locations share a key |
| `Compiler.MemberRulesKept` | ComPact.UnitTests/Builders/CreateV2MatchingRulesTests.cs:21-29 | in a well-formed object, every rule of a member compiled at `.name` appears unchanged in the object's rule set |
| `Compiler.EveryElementRules` | ComPact.UnitTests/Builders/CreateV2MatchingRulesTests.cs:97-107 | an every-element array has a `type` rule with minimum 1, or with the explicit minimum, at its own path; every rule of its element compiled at `[*]` appears unchanged, the element's own rule at `[*]` among them; no key lies at or below `[0]` |
| `Compiler.FirstElementRules` | ComPact.UnitTests/Builders/CreateV2MatchingRulesTests.cs:41-62 | any other array keeps every rule of its element compiled at `[0]` unchanged, the element's own rule at `[0]` among them, and has no key at or below `[*]`; it has a rule of its own (`type`, with the minimum) exactly when a minimum was given |
| `Compiler.ExamplesIgnored` | ComPact.UnitTests/Builders/CreateV2MatchingRulesTests.cs:75-95 | replacing every example value by a placeholder leaves the rule set unchanged: only the shape of the template matters |
| `Compiler.NonIdentifierNamesCollide` | ComPact.UnitTests/Builders/CreateV2MatchingRulesTests.cs:44-48 | a member `a` holding an array and a member named `a[0]` ask for two rules but produce one key, `$.body.a[0]`; this is why `RuleCountExact` requires identifier names |
| `Builders.ToMembers` | ComPact.UnitTests/Builders/CreateV2MatchingRulesTests.cs:24-28 | the elements become object members, in order and with their names, exactly when every element is named; otherwise the error names the first unnamed element |
| `Builders.JsonContent.Body` | ComPact.UnitTests/Builders/CreateV2MatchingRulesTests.cs:14-28 | one unnamed element is the body itself; otherwise the body is an object whose members are the elements with their names, and this succeeds exactly when every element is named |
| `Builders.JsonContent.CreateV2MatchingRules` | ComPact.UnitTests/Builders/CreateV2MatchingRulesTests.cs:16-18 | compilation succeeds exactly when the body could be built, and every key then lies at or below `$.body` |
| `Builders.ElementLike` | ComPact.UnitTests/Builders/CreateV2MatchingRulesTests.cs:14 | `Some.Element.Like` gives an unnamed Like node carrying the example, whose own rule is `type` and which asks for exactly one rule; the test lemmas pin down its compiled rules |
| `Builders.ElementWithTheExactValue` | ComPact.UnitTests/Builders/CreateV2MatchingRulesTests.cs:34 | `Some.Element.WithTheExactValue` gives an unnamed node that constrains nothing beyond equality and asks for no rule |
| `Builders.StringLike` | ComPact.UnitTests/Builders/CreateV2MatchingRulesTests.cs:124 | `Some.String.Like` gives an unnamed Like node with the string as example, own rule `type`, exactly one rule |
| `Builders.StringLikeRegex` | ComPact.UnitTests/Builders/CreateV2MatchingRulesTests.cs:67 | `Some.String.LikeRegex` gives an unnamed node whose own rule is `regex` with the given pattern, exactly one rule |
| `Builders.StringLikeGuid` | ComPact.UnitTests/Builders/CreateV2MatchingRulesTests.cs:78 | `Some.String.LikeGuid` gives an unnamed node whose own rule is `regex` with the canonical GUID pattern, exactly one rule |
| `Builders.StringLikeDateTime` | ComPact.UnitTests/Builders/CreateV2MatchingRulesTests.cs:89 | `Some.String.LikeDateTime` gives an unnamed node whose own rule is `regex` with the canonical date-time pattern, exactly one rule |
| `Builders.Element.Named` | ComPact.UnitTests/Builders/CreateV2MatchingRulesTests.cs:24 | `.Named` on a finished element sets its name and leaves its template untouched; the test lemmas pin down where its rules then go |
| `Builders.ArrayBuilder.Named` | ComPact.UnitTests/Builders/CreateV2MatchingRulesTests.cs:44 | `.Named` on the array builder sets the name and keeps the minimum; the test lemmas pin down the resulting keys |
| `Builders.ArrayBuilder.ContainingAtLeast` | ComPact.UnitTests/Builders/CreateV2MatchingRulesTests.cs:54 | `ContainingAtLeast(n)` sets the minimum to `n` and keeps the name |
| `Builders.ArrayBuilder.Of` | ComPact.UnitTests/Builders/CreateV2MatchingRulesTests.cs:44 | `Of` makes an array that constrains its first element only; it has a rule of its own (`type`, with the minimum) exactly when a minimum was given, and asks for one rule more than its element exactly then |
| `Builders.ArrayBuilder.InWhichEveryElementIs` | ComPact.UnitTests/Builders/CreateV2MatchingRulesTests.cs:100 | `InWhichEveryElementIs` makes an array that constrains every element; it always has a rule of its own with the given minimum or 1, and asks for one rule more than its element |
| `Builders.With` | ComPact.UnitTests/Builders/CreateV2MatchingRulesTests.cs:14 | `Pact.JsonContent.With` keeps the elements in order, and a lone unnamed element is the whole body; the test lemmas pin down the rest |
| `Builders.NamedOrderIrrelevant` | ComPact.UnitTests/Builders/CreateV2MatchingRulesTests.cs:100-118 | `.Named` gives the same template whether it is applied to the array builder or to the finished array (`Of` or `InWhichEveryElementIs`), and commutes with `ContainingAtLeast(n)` for every `n` |
| `Builders.RulesCount` | ComPact.UnitTests/Builders/CreateV2MatchingRulesTests.cs:54-58 | the size of the rule set of a well-formed body equals `RuleCount` of the body |
| `Builders.NoRulesIffExact` | ComPact.UnitTests/Builders/CreateV2MatchingRulesTests.cs:34-38 | a body compiles to no rules if and only if its template fixes nothing except exact values |
| `Builders.NamedLikeRule` | ComPact.UnitTests/Builders/CreateV2MatchingRulesTests.cs:24-28 | for any name and any example, a named Like element compiles to exactly one `type` rule, at `$.body.<name>` |
| `Builders.RegexKeepsPattern` | ComPact.UnitTests/Builders/CreateV2MatchingRulesTests.cs:67-72 | for any example and any pattern, a regex element at the root compiles to exactly one rule at `$.body`, with matcher `regex` and the given pattern |
| `CreateV2MatchingRulesTests.SimpleValue` | ComPact.UnitTests/Builders/CreateV2MatchingRulesTests.cs:11-19 | `Like` at the root gives exactly `{$.body: type}` |
| `CreateV2MatchingRulesTests.NamedValueInObject` | ComPact.UnitTests/Builders/CreateV2MatchingRulesTests.cs:21-29 | `Like(...).Named("greeting")` gives exactly `{$.body.greeting: type}` |
| `CreateV2MatchingRulesTests.ExactValue` | ComPact.UnitTests/Builders/CreateV2MatchingRulesTests.cs:31-39 | `WithTheExactValue` gives the empty rule set |
| `CreateV2MatchingRulesTests.ElementWithinArray` | ComPact.UnitTests/Builders/CreateV2MatchingRulesTests.cs:41-49 | an array named `anArray` of a Like element gives exactly `{$.body.anArray[0]: type}` |
| `CreateV2MatchingRulesTests.ElementWithinArrayWithMin` | ComPact.UnitTests/Builders/CreateV2MatchingRulesTests.cs:51-62 | `ContainingAtLeast(2).Of(Like)` gives exactly two rules: `$.body.anArray` with `type` and minimum 2, and `$.body.anArray[0]` with `type` |
| `CreateV2MatchingRulesTests.Regex` | ComPact.UnitTests/Builders/CreateV2MatchingRulesTests.cs:64-73 | `LikeRegex("Hello world", "Hello.*")` gives exactly `{$.body: regex "Hello.*"}` |
| `CreateV2MatchingRulesTests.GuidRegex` | ComPact.UnitTests/Builders/CreateV2MatchingRulesTests.cs:75-84 | `LikeGuid` gives exactly `{$.body: regex}` with the canonical GUID pattern, whatever that pattern is |
| `CreateV2MatchingRulesTests.DateTimeRegex` | ComPact.UnitTests/Builders/CreateV2MatchingRulesTests.cs:86-95 | `LikeDateTime` gives exactly `{$.body: regex}` with the canonical date-time pattern, whatever that pattern is |
| `CreateV2MatchingRulesTests.ArrayWithStar` | ComPact.UnitTests/Builders/CreateV2MatchingRulesTests.cs:97-107 | `Named("anArray").InWhichEveryElementIs(Like)` gives exactly two rules: `$.body.anArray[*]` with `type`, and `$.body.anArray` with minimum 1 |
| `CreateV2MatchingRulesTests.ArrayWithStarVariation` | ComPact.UnitTests/Builders/CreateV2MatchingRulesTests.cs:109-119 | applying `.Named` after `InWhichEveryElementIs` gives the same two rules |
| `CreateV2MatchingRulesTests.SimpleString` | ComPact.UnitTests/Builders/CreateV2MatchingRulesTests.cs:121-129 | `Some.String.Like(...).Named("greeting")` gives exactly `{$.body.greeting: type}` |

## Left out

- The example body that the compiler also renders, and its JSON serialisation: no unit test asserts them. Example values are carried in the template but never rendered.
- The request/response matcher (`IRequestResponseMatcher`) decides matches at request time, which is outside the compiler, and is not modelled; `MockProviderServiceStartup` only calls it.
- `MockProviderServiceStartup`: ASP.NET Core host wiring that hands each request to the matcher. It is I/O with no logic of its own.
- The text of `RegexConstants.Guid` and `RegexConstants.DateTime`, and regex evaluation: the patterns are parameters and are never interpreted.
- `ArrayBuilder.ContainingAtLeast` takes a natural number, so a negative minimum cannot be expressed.
- JSON numbers are integers; floating-point examples are not modelled.
- An array missing its element template is a configuration error, and it cannot arise here. `Of` and `InWhichEveryElementIs` are the only ways to finish an array, and both take the element.
- Nested objects: `Node.Object` can appear anywhere in a tree, but the only builder for objects in this model is `With` at the top level. A nested-object builder is not part of this model.
- `Compiler.RuleCountExact`: proved only for identifier member names that are distinct within their object. `Compiler.NonIdentifierNamesCollide` shows that other names can share a key.
- `Builders.RulesCount`: proved only for identifier member names that are distinct within their object, for the same reason.
- `Compiler.MemberRulesKept`: proved only for identifier member names that are distinct within their object. With a repeated name, a later member's rule replaces an earlier one at the same key.
- Repeated member names: the model keeps the later member's rule and drops the earlier one. This is a modelling choice: no unit test covers it, and the real builder may reject such a body instead.
