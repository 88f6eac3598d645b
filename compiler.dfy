/**
 * The version 2 matching-rule compiler: a recursive descent over the
 * template that emits one path-indexed rule per constrained location.
 */
module Compiler {
  import opened Wrappers
  import opened Paths
  import opened Templates

  type Rules = map<Path, MatchingRule>

  /** Every key lies at or below `path`, and every rule has the version 2 shape. */
  predicate Below(path: Path, r: Rules) {
    forall k | k in r :: Extends(path, k) && Shaped(r[k])
  }

  /**
   * Compiles the template `n` found at `path`. Every-element arrays put
   * their element's rules under `[*]`, other arrays under `[0]`; members of
   * an object go under `.name`, a later member winning on a repeated key.
   */
  function Compile(n: Node, path: Path): (r: Rules)
    ensures Below(path, r)
    decreases n
  {
    match n
    case Exact(_) => map[]
    case Like(_) => map[path := TypeRule]
    case Regexed(_, pattern) => map[path := RegexRule(pattern)]
    case ArrayOf(e, min, everyElement) =>
      if everyElement then
        var inner := Compile(e, EveryElementPath(path));
        AllExtendThroughSegment(inner, path, "[*]");
        inner[path := MinRule(min.GetOr(1))]
      else
        var inner := Compile(e, FirstElementPath(path));
        AllExtendThroughSegment(inner, path, "[0]");
        if min.Some? then inner[path := MinRule(min.value)] else inner
    case Object(ms) => CompileMembers(ms, path)
  }

  /** The rules of the object members `ms`, merged. */
  function CompileMembers(ms: seq<Member>, path: Path): (r: Rules)
    ensures forall k | k in r :: Extends(path, k) && k != path && Shaped(r[k])
    decreases ms
  {
    if ms == [] then map[]
    else
      var first := Compile(ms[0].node, MemberPath(path, ms[0].name));
      AllExtendThroughSegment(first, path, "." + ms[0].name);
      first + CompileMembers(ms[1..], path)
  }

  function Lookup(r: Rules, key: Path): Option<MatchingRule> {
    if key in r then Some(r[key]) else None
  }

  /** Merging rule sets over disjoint keys loses none of them. */
  lemma DisjointUnionSize(a: Rules, b: Rules)
    requires a.Keys !! b.Keys
    ensures |a + b| == |a| + |b|
  {
    assert (a + b).Keys == a.Keys + b.Keys;
    assert |a.Keys + b.Keys| == |a.Keys| + |b.Keys|;
  }

  /** The rule at a node's own location is exactly the one the node asks for. */
  lemma {:induction false} OwnRuleAtPath(n: Node, path: Path)
    ensures Lookup(Compile(n, path), path) == OwnRule(n)
  {
    match n
    case ArrayOf(e, min, everyElement) =>
      if !everyElement {
        assert path !in Compile(e, FirstElementPath(path));
      }
    case Object(ms) =>
      assert path !in CompileMembers(ms, path);
    case _ =>
  }

  /** A tree compiles to no rules at all exactly when it constrains nothing beyond equality. */
  lemma {:induction false} EmptyIffUnconstrained(n: Node, path: Path)
    ensures Compile(n, path) == map[] <==> Unconstrained(n)
    decreases n
  {
    match n
    case Exact(_) =>
    case Like(_) =>
      assert path in Compile(n, path);
    case Regexed(_, _) =>
      assert path in Compile(n, path);
    case ArrayOf(e, min, everyElement) =>
      if everyElement || min.Some? {
        assert path in Compile(n, path);
      } else {
        EmptyIffUnconstrained(e, FirstElementPath(path));
      }
    case Object(ms) =>
      MembersEmptyIffUnconstrained(ms, path);
  }

  lemma {:induction false} MembersEmptyIffUnconstrained(ms: seq<Member>, path: Path)
    ensures CompileMembers(ms, path) == map[] <==> forall i :: 0 <= i < |ms| ==> Unconstrained(ms[i].node)
    decreases ms
  {
    if ms != [] {
      var first := Compile(ms[0].node, MemberPath(path, ms[0].name));
      var rest := CompileMembers(ms[1..], path);
      EmptyIffUnconstrained(ms[0].node, MemberPath(path, ms[0].name));
      MembersEmptyIffUnconstrained(ms[1..], path);
      assert CompileMembers(ms, path) == first + rest;
      assert (first + rest == map[]) <==> (first == map[] && rest == map[]) by {
        if first + rest == map[] {
          assert first.Keys <= (first + rest).Keys && rest.Keys <= (first + rest).Keys;
        }
      }
      assert (forall i :: 0 <= i < |ms| ==> Unconstrained(ms[i].node))
        <==> Unconstrained(ms[0].node) && (forall i :: 0 <= i < |ms[1..]| ==> Unconstrained(ms[1..][i].node)) by {
        if forall i :: 0 <= i < |ms[1..]| ==> Unconstrained(ms[1..][i].node) {
          forall i | 1 <= i < |ms| ensures Unconstrained(ms[i].node) {
            assert ms[i] == ms[1..][i - 1];
          }
        }
      }
    }
  }

  /** No rule of the members `ms` lies below a member name that none of them carries. */
  lemma {:induction false} MembersAvoid(ms: seq<Member>, path: Path, name: string)
    requires IsIdentifier(name)
    requires forall i :: 0 <= i < |ms| ==> IsIdentifier(ms[i].name) && ms[i].name != name
    ensures forall k | k in CompileMembers(ms, path) :: !Extends(MemberPath(path, name), k)
    decreases ms
  {
    if ms != [] {
      var first := Compile(ms[0].node, MemberPath(path, ms[0].name));
      MembersAvoid(ms[1..], path, name);
      forall k | k in first ensures !Extends(MemberPath(path, name), k) {
        DistinctMembersDisjoint(path, ms[0].name, name, k);
      }
    }
  }

  /** A well-formed tree gets exactly one rule per rule it asks for: no two locations share a key. */
  lemma {:induction false} RuleCountExact(n: Node, path: Path)
    requires WellFormed(n)
    ensures |Compile(n, path)| == RuleCount(n)
    decreases n
  {
    match n
    case Exact(_) =>
    case Like(_) =>
    case Regexed(_, _) =>
    case ArrayOf(e, min, everyElement) =>
      var seg := if everyElement then EveryElementPath(path) else FirstElementPath(path);
      RuleCountExact(e, seg);
      assert path !in Compile(e, seg);
    case Object(ms) =>
      MembersRuleCountExact(ms, path);
  }

  lemma {:induction false} MembersRuleCountExact(ms: seq<Member>, path: Path)
    requires WellFormed(Object(ms))
    ensures |CompileMembers(ms, path)| == MembersRuleCount(ms)
    decreases ms
  {
    if ms != [] {
      var p0 := MemberPath(path, ms[0].name);
      var first := Compile(ms[0].node, p0);
      var rest := CompileMembers(ms[1..], path);
      assert WellFormed(Object(ms[1..])) by {
        forall i, j | 0 <= i < j < |ms[1..]| ensures ms[1..][i].name != ms[1..][j].name {
          assert ms[1..][i] == ms[i + 1] && ms[1..][j] == ms[j + 1];
        }
      }
      RuleCountExact(ms[0].node, p0);
      MembersRuleCountExact(ms[1..], path);
      MembersAvoid(ms[1..], path, ms[0].name);
      assert first.Keys !! rest.Keys;
      DisjointUnionSize(first, rest);
    }
  }

  /**
   * In a well-formed object every member's rules reach the object's rule set
   * unchanged: no other member overrides them.
   */
  lemma {:induction false} MemberRulesKept(ms: seq<Member>, path: Path, i: nat)
    requires WellFormed(Object(ms)) && i < |ms|
    ensures forall k | k in Compile(ms[i].node, MemberPath(path, ms[i].name)) ::
      Lookup(CompileMembers(ms, path), k) == Some(Compile(ms[i].node, MemberPath(path, ms[i].name))[k])
    decreases ms
  {
    var first := Compile(ms[0].node, MemberPath(path, ms[0].name));
    var rest := CompileMembers(ms[1..], path);
    assert WellFormed(Object(ms[1..])) by {
      forall a, b | 0 <= a < b < |ms[1..]| ensures ms[1..][a].name != ms[1..][b].name {
        assert ms[1..][a] == ms[a + 1] && ms[1..][b] == ms[b + 1];
      }
    }
    if i == 0 {
      MembersAvoid(ms[1..], path, ms[0].name);
    } else {
      MemberRulesKept(ms[1..], path, i - 1);
      assert ms[1..][i - 1] == ms[i];
    }
  }

  /**
   * An every-element array: the array's own rule carries the minimum (1 by
   * default), every rule of the element compiled at `[*]` is kept unchanged,
   * the element's own rule among them, and nothing sits at or below `[0]`.
   */
  lemma {:induction false} EveryElementRules(e: Node, min: Option<nat>, path: Path)
    ensures var r := Compile(ArrayOf(e, min, true), path);
      && Lookup(r, path) == Some(MinRule(min.GetOr(1)))
      && Lookup(r, EveryElementPath(path)) == OwnRule(e)
      && (forall k | k in Compile(e, EveryElementPath(path)) ::
            Lookup(r, k) == Some(Compile(e, EveryElementPath(path))[k]))
      && forall k | k in r :: !Extends(FirstElementPath(path), k)
  {
    var inner := Compile(e, EveryElementPath(path));
    OwnRuleAtPath(e, EveryElementPath(path));
    assert path !in inner;
    forall k | k in inner ensures !Extends(FirstElementPath(path), k) {
      ElementPathsDisjoint(path, k);
    }
  }

  /**
   * Any other array: every rule of the element compiled at `[0]` is kept
   * unchanged, the element's own rule among them; nothing sits at or below
   * `[*]`; and the array has a rule of its own exactly when a minimum was given.
   */
  lemma {:induction false} FirstElementRules(e: Node, min: Option<nat>, path: Path)
    ensures var r := Compile(ArrayOf(e, min, false), path);
      && Lookup(r, path) == (if min.Some? then Some(MinRule(min.value)) else None)
      && Lookup(r, FirstElementPath(path)) == OwnRule(e)
      && (forall k | k in Compile(e, FirstElementPath(path)) ::
            Lookup(r, k) == Some(Compile(e, FirstElementPath(path))[k]))
      && forall k | k in r :: !Extends(EveryElementPath(path), k)
  {
    var inner := Compile(e, FirstElementPath(path));
    OwnRuleAtPath(e, FirstElementPath(path));
    assert path !in inner;
    forall k | k in inner ensures !Extends(EveryElementPath(path), k) {
      ElementPathsDisjoint(path, k);
    }
  }

  /** Example values never influence the rules: only the shape of the template does. */
  lemma {:induction false} ExamplesIgnored(n: Node, path: Path)
    ensures Compile(Skeleton(n), path) == Compile(n, path)
    decreases n
  {
    match n
    case ArrayOf(e, min, everyElement) =>
      ExamplesIgnored(e, if everyElement then EveryElementPath(path) else FirstElementPath(path));
    case Object(ms) =>
      MembersExamplesIgnored(ms, path);
    case _ =>
  }

  lemma {:induction false} MembersExamplesIgnored(ms: seq<Member>, path: Path)
    ensures CompileMembers(MembersSkeleton(ms), path) == CompileMembers(ms, path)
    decreases ms
  {
    if ms != [] {
      var sk := MembersSkeleton(ms);
      assert sk[0] == Member(ms[0].name, Skeleton(ms[0].node)) && sk[1..] == MembersSkeleton(ms[1..]);
      ExamplesIgnored(ms[0].node, MemberPath(path, ms[0].name));
      MembersExamplesIgnored(ms[1..], path);
    }
  }

  /** An object of one member holds exactly that member's rules. */
  lemma CompileOneMember(m: Member, path: Path)
    ensures CompileMembers([m], path) == Compile(m.node, MemberPath(path, m.name))
  {
    assert [m][1..] == [];
  }

  /**
   * Why `RuleCountExact` needs identifier names: a member `a` holding an
   * array and a member literally named `a[0]` both claim `$.body.a[0]`.
   */
  lemma NonIdentifierNamesCollide()
    ensures var n := Object([Member("a", ArrayOf(Like(Null), None, false)), Member("a[0]", Like(Null))]);
      && !WellFormed(n)
      && RuleCount(n) == 2
      && Compile(n, BodyPath) == map["$.body.a[0]" := TypeRule]
  {
    var ms := [Member("a", ArrayOf(Like(Null), None, false)), Member("a[0]", Like(Null))];
    assert !IsIdentifier(ms[1].name) by { assert IsSeparator(ms[1].name[1]); }
    assert ms[1..][1..] == [];
    assert FirstElementPath(MemberPath(BodyPath, "a")) == "$.body.a[0]";
    assert MemberPath(BodyPath, "a[0]") == "$.body.a[0]";
  }
}
