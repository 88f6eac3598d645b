/**
 * Path notation of the Pact Specification version 2: a rule key starts at
 * `$.body` and grows by object-member segments `.name`, the first-element
 * segment `[0]` and the every-element segment `[*]`.
 */
module Paths {

  type Path = string

  const BodyPath: Path := "$.body"

  function MemberPath(path: Path, name: string): Path
  {
    path + "." + name
  }

  function FirstElementPath(path: Path): Path
  {
    path + "[0]"
  }

  function EveryElementPath(path: Path): Path
  {
    path + "[*]"
  }

  /** The characters that open a new segment. */
  predicate IsSeparator(c: char) {
    c == '.' || c == '['
  }

  /** A member name that cannot be mistaken for several segments. */
  predicate IsIdentifier(name: string) {
    forall i :: 0 <= i < |name| ==> !IsSeparator(name[i])
  }

  /**
   * `key` addresses `path` itself or a location below it: `path` is a prefix
   * of `key` that ends on a segment boundary.
   */
  predicate Extends(path: Path, key: Path) {
    |path| <= |key| && key[..|path|] == path && (|key| == |path| || IsSeparator(key[|path|]))
  }

  /** A key below `path + seg`, where `seg` is one whole segment, is strictly below `path`. */
  lemma ExtendsThroughSegment(path: Path, seg: string, key: Path)
    requires |seg| > 0 && IsSeparator(seg[0])
    requires Extends(path + seg, key)
    ensures Extends(path, key) && key != path
  {
    assert key[..|path|] == (key[..|path + seg|])[..|path|];
    assert key[|path|] == (path + seg)[|path|] == seg[0];
  }

  /** Every key of `keys` that lies below `path + seg` lies strictly below `path`. */
  lemma AllExtendThroughSegment<V>(m: map<Path, V>, path: Path, seg: string)
    requires |seg| > 0 && IsSeparator(seg[0])
    requires forall k | k in m :: Extends(path + seg, k)
    ensures forall k | k in m :: Extends(path, k) && k != path
  {
    forall k | k in m
      ensures Extends(path, k) && k != path
    {
      ExtendsThroughSegment(path, seg, k);
    }
  }

  /** Two distinct identifier members of one path address disjoint locations. */
  lemma {:induction false} DistinctMembersDisjoint(path: Path, a: string, b: string, key: Path)
    requires IsIdentifier(a) && IsIdentifier(b) && a != b
    requires Extends(MemberPath(path, a), key)
    ensures !Extends(MemberPath(path, b), key)
  {
    var pa, pb := MemberPath(path, a), MemberPath(path, b);
    if |pa| < |pb| {
      assert !IsSeparator(pb[|pa|]) by { assert pb[|pa|] == b[|pa| - |path| - 1]; }
      assert |key| >= |pb| ==> key[..|pb|][|pa|] == key[|pa|] != pb[|pa|];
    } else if |pa| == |pb| {
      assert pa != pb by { assert pa[|path| + 1..] == a && pb[|path| + 1..] == b; }
      assert key[..|pa|] == pa;
    } else {
      assert !IsSeparator(pa[|pb|]) by { assert pa[|pb|] == a[|pb| - |path| - 1]; }
      assert key[|pb|] == key[..|pa|][|pb|] == pa[|pb|];
    }
  }

  /** `[0]` and `[*]` below one path never address the same location. */
  lemma {:induction false} ElementPathsDisjoint(path: Path, key: Path)
    ensures !(Extends(EveryElementPath(path), key) && Extends(FirstElementPath(path), key))
  {
    var i := |path| + 1;
    if |key| >= |path| + 3 {
      assert EveryElementPath(path)[i] == '*' && FirstElementPath(path)[i] == '0';
      assert key[..|path| + 3][i] == key[i];
    }
  }
}
