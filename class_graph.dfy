/**
  The class-derivation graph that Python maintains for a class hierarchy: for
  every class the list `cls.__subclasses__()` returns, in the order the
  subclasses were created. Classes are left abstract (type parameter `C`); a
  class that is absent from the map has no subclasses.

  Python creates a subclass after all of its bases, so the graph has no
  cycle. The model makes that explicit with a `rank` per class that strictly
  drops from every class to each of its direct subclasses (for instance the
  length of the longest chain below the class).
*/
module ClassGraph {

  datatype Hierarchy<C> = Hierarchy(subclasses: map<C, seq<C>>, rank: map<C, nat>)

  /** `cls.__subclasses__()`: the direct subclasses of `cls`, in order. */
  function Subclasses<C>(h: Hierarchy<C>, cls: C): seq<C> {
    if cls in h.subclasses then h.subclasses[cls] else []
  }

  /** The rank of `cls`; a class absent from the rank map has rank 0. */
  function Rank<C>(h: Hierarchy<C>, cls: C): nat {
    if cls in h.rank then h.rank[cls] else 0
  }

  /** The rank strictly drops along every subclass link, so no class derives from itself. */
  predicate Valid<C>(h: Hierarchy<C>) {
    forall cls, i :: cls in h.subclasses && 0 <= i < |h.subclasses[cls]| ==>
      Rank(h, h.subclasses[cls][i]) < Rank(h, cls)
  }

  /** Every class occurs at most once in all subclass lists together: it has at
      most one direct base, and it is listed once under that base. */
  predicate SingleInheritance<C>(h: Hierarchy<C>) {
    forall a, b, i, j ::
      a in h.subclasses && b in h.subclasses &&
      0 <= i < |h.subclasses[a]| && 0 <= j < |h.subclasses[b]| &&
      h.subclasses[a][i] == h.subclasses[b][j]
      ==> a == b && i == j
  }

  /** No class is listed twice in one subclass list. Python refuses a class
      statement that names the same base twice, so every real hierarchy has
      this property; single inheritance implies it. */
  predicate NoRepeatedSubclass<C>(h: Hierarchy<C>) {
    forall cls, i, j :: cls in h.subclasses && 0 <= i < j < |h.subclasses[cls]| ==>
      h.subclasses[cls][i] != h.subclasses[cls][j]
  }

  /** `p` is a derivation path: each class in it is a direct subclass of the one before. */
  predicate IsChain<C>(h: Hierarchy<C>, p: seq<C>) {
    |p| <= 1 || (p[1] in Subclasses(h, p[0]) && IsChain(h, p[1..]))
  }

  /** `x` is a proper, transitive subclass of `cls`: some derivation path of at
      least one link leads from `cls` to `x`. */
  ghost predicate DescendsFrom<C(!new)>(h: Hierarchy<C>, x: C, cls: C) {
    exists p :: IsChain(h, p) && |p| >= 2 && p[0] == cls && p[|p| - 1] == x
  }

  lemma SubclassIsLower<C>(h: Hierarchy<C>, cls: C, sub: C)
    requires Valid(h) && sub in Subclasses(h, cls)
    ensures Rank(h, sub) < Rank(h, cls)
  {
    var i :| 0 <= i < |Subclasses(h, cls)| && Subclasses(h, cls)[i] == sub;
  }

  lemma {:induction false} ChainStep<C>(h: Hierarchy<C>, p: seq<C>, i: nat)
    requires IsChain(h, p) && i + 1 < |p|
    ensures p[i + 1] in Subclasses(h, p[i])
  {
    if i > 0 {
      ChainStep(h, p[1..], i - 1);
    }
  }

  lemma ChainCons<C>(h: Hierarchy<C>, cls: C, p: seq<C>)
    requires IsChain(h, p) && |p| >= 1 && p[0] in Subclasses(h, cls)
    ensures IsChain(h, [cls] + p)
  {
    assert ([cls] + p)[1..] == p;
  }

  /** Along a derivation path the rank strictly drops, so a path never returns to a class. */
  lemma {:induction false} ChainDescends<C>(h: Hierarchy<C>, p: seq<C>, i: nat, j: nat)
    requires Valid(h) && IsChain(h, p) && i < j < |p|
    ensures Rank(h, p[j]) < Rank(h, p[i])
  {
    ChainStep(h, p, j - 1);
    SubclassIsLower(h, p[j - 1], p[j]);
    if i < j - 1 {
      ChainDescends(h, p, i, j - 1);
    }
  }

  /** Under single inheritance a class has at most one direct base. */
  lemma UniqueBase<C>(h: Hierarchy<C>, a: C, b: C, x: C)
    requires SingleInheritance(h)
    requires x in Subclasses(h, a) && x in Subclasses(h, b)
    ensures a == b
  {
    var i :| 0 <= i < |Subclasses(h, a)| && Subclasses(h, a)[i] == x;
    var j :| 0 <= j < |Subclasses(h, b)| && Subclasses(h, b)[j] == x;
  }

  /** Under single inheritance two derivation paths that end in the same class
      agree position by position, aligned at their ends. */
  lemma {:induction false} ChainsMeetAt<C>(h: Hierarchy<C>, p: seq<C>, q: seq<C>, k: nat)
    requires SingleInheritance(h) && IsChain(h, p) && IsChain(h, q)
    requires 1 <= |p| <= |q| && p[|p| - 1] == q[|q| - 1] && k < |p|
    ensures p[k] == q[|q| - |p| + k]
    decreases |p| - k
  {
    if k < |p| - 1 {
      var d := |q| - |p|;
      ChainsMeetAt(h, p, q, k + 1);
      ChainStep(h, p, k);
      ChainStep(h, q, d + k);
      UniqueBase(h, p[k], q[d + k], p[k + 1]);
    }
  }

  lemma SuffixFromIndices<C>(p: seq<C>, q: seq<C>)
    requires |p| <= |q| && forall k :: 0 <= k < |p| ==> p[k] == q[|q| - |p| + k]
    ensures p == q[|q| - |p|..]
  {
  }

  /** Under single inheritance two derivation paths that end in the same class
      agree: the shorter one is a suffix of the longer one. */
  lemma ChainsMeet<C>(h: Hierarchy<C>, p: seq<C>, q: seq<C>)
    requires SingleInheritance(h) && IsChain(h, p) && IsChain(h, q)
    requires 1 <= |p| <= |q| && p[|p| - 1] == q[|q| - 1]
    ensures p == q[|q| - |p|..]
  {
    forall k | 0 <= k < |p| ensures p[k] == q[|q| - |p| + k] {
      ChainsMeetAt(h, p, q, k);
    }
    SuffixFromIndices(p, q);
  }
}
