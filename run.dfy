/**
  The entity-type registry of the service's start-up script: `model_classes()`
  and its inner generator `recursive_subclasses(cls)`, which walks the
  class-derivation graph below `BaseModel`. For each direct subclass, in
  order, it yields everything below that subclass and then the subclass
  itself. A generator is modelled by the finite sequence it yields.
*/
module Run {
  import opened ClassGraph
  import opened Seqs

  /** `recursive_subclasses(cls)`: the sequence the generator yields. Every
      class it yields lies strictly below `cls`. */
  function RecursiveSubclasses<C>(h: Hierarchy<C>, cls: C): (r: seq<C>)
    requires Valid(h)
    ensures forall x :: x in r ==> Rank(h, x) < Rank(h, cls)
    decreases Rank(h, cls), 1
  {
    YieldsFrom(h, cls, 0)
  }

  /** What the `for` loop over `cls.__subclasses__()` yields from the `i`-th
      subclass on: for each subclass, the recursion below it, then the
      subclass itself. */
  function YieldsFrom<C>(h: Hierarchy<C>, cls: C, i: nat): (r: seq<C>)
    requires Valid(h) && i <= |Subclasses(h, cls)|
    ensures forall x :: x in r ==> Rank(h, x) < Rank(h, cls)
    decreases Rank(h, cls), 0, |Subclasses(h, cls)| - i
  {
    if i == |Subclasses(h, cls)| then []
    else
      var sub := Subclasses(h, cls)[i];
      SubclassIsLower(h, cls, sub);
      RecursiveSubclasses(h, sub) + [sub] + YieldsFrom(h, cls, i + 1)
  }

  /** `model_classes()`: re-yields `recursive_subclasses(BaseModel)` unchanged.
      `BaseModel` itself is never yielded, and a class is yielded exactly when
      it is a proper transitive subclass of `BaseModel`. */
  function ModelClasses<C(!new)>(h: Hierarchy<C>, baseModel: C): (r: seq<C>)
    requires Valid(h)
    ensures baseModel !in r
    ensures forall x :: x in r <==> DescendsFrom(h, x, baseModel)
  {
    Registry(h, baseModel);
    RecursiveSubclasses(h, baseModel)
  }

  /** The block one direct subclass contributes: what lies below it, then itself. */
  function Block<C>(h: Hierarchy<C>, cls: C, k: nat): seq<C>
    requires Valid(h) && k < |Subclasses(h, cls)|
  {
    SubclassIsLower(h, cls, Subclasses(h, cls)[k]);
    RecursiveSubclasses(h, Subclasses(h, cls)[k]) + [Subclasses(h, cls)[k]]
  }

  /** The blocks of all direct subclasses of `cls`, in their given order. */
  function Blocks<C>(h: Hierarchy<C>, cls: C): (r: seq<seq<C>>)
    requires Valid(h)
    ensures |r| == |Subclasses(h, cls)|
  {
    seq(|Subclasses(h, cls)|, k requires 0 <= k < |Subclasses(h, cls)| => Block(h, cls, k))
  }

  // ---------------------------------------------------------------------------
  // Where each yielded class comes from

  /** Everything the loop yields from index `i` on belongs to the block of some
      subclass at index `k >= i`. */
  lemma {:induction false} YieldsFromMember<C>(h: Hierarchy<C>, cls: C, i: nat, x: C) returns (k: nat)
    requires Valid(h) && i <= |Subclasses(h, cls)| && x in YieldsFrom(h, cls, i)
    ensures i <= k < |Subclasses(h, cls)| && x in Block(h, cls, k)
    decreases |Subclasses(h, cls)| - i
  {
    var sub := Subclasses(h, cls)[i];
    assert YieldsFrom(h, cls, i) == Block(h, cls, i) + YieldsFrom(h, cls, i + 1);
    if x in Block(h, cls, i) {
      k := i;
    } else {
      k := YieldsFromMember(h, cls, i + 1, x);
    }
  }

  /** The loop from index `i` on yields the whole block of every subclass at index `k >= i`. */
  lemma {:induction false} YieldsFromContains<C>(h: Hierarchy<C>, cls: C, i: nat, k: nat, x: C)
    requires Valid(h) && i <= k < |Subclasses(h, cls)| && x in Block(h, cls, k)
    ensures x in YieldsFrom(h, cls, i)
    decreases k - i
  {
    assert YieldsFrom(h, cls, i) == Block(h, cls, i) + YieldsFrom(h, cls, i + 1);
    if i < k {
      YieldsFromContains(h, cls, i + 1, k, x);
    }
  }

  // ---------------------------------------------------------------------------
  // Soundness and completeness against derivation paths

  /** Soundness: every class yielded below `cls` is reached from `cls` by a
      derivation path, which the lemma returns. */
  lemma {:induction false} Soundness<C>(h: Hierarchy<C>, cls: C, x: C) returns (p: seq<C>)
    requires Valid(h) && x in RecursiveSubclasses(h, cls)
    ensures IsChain(h, p) && |p| >= 2 && p[0] == cls && p[|p| - 1] == x
    decreases Rank(h, cls)
  {
    var k := YieldsFromMember(h, cls, 0, x);
    var sub := Subclasses(h, cls)[k];
    SubclassIsLower(h, cls, sub);
    if x == sub {
      p := [cls, sub];
      assert p[1..] == [sub];
    } else {
      var q := Soundness(h, sub, x);
      ChainCons(h, cls, q);
      p := [cls] + q;
    }
  }

  /** Completeness: every class a derivation path reaches from `cls` is yielded below `cls`. */
  lemma {:induction false} Completeness<C>(h: Hierarchy<C>, cls: C, x: C, p: seq<C>)
    requires Valid(h) && IsChain(h, p) && |p| >= 2 && p[0] == cls && p[|p| - 1] == x
    ensures x in RecursiveSubclasses(h, cls)
    decreases |p|
  {
    var sub := p[1];
    var k :| 0 <= k < |Subclasses(h, cls)| && Subclasses(h, cls)[k] == sub;
    if |p| == 2 {
      assert x in Block(h, cls, k);
    } else {
      Completeness(h, sub, x, p[1..]);
      assert x in Block(h, cls, k);
    }
    YieldsFromContains(h, cls, 0, k, x);
  }

  /** The registry yields exactly the proper transitive subclasses of `cls`. */
  lemma Registry<C(!new)>(h: Hierarchy<C>, cls: C)
    requires Valid(h)
    ensures forall x :: x in RecursiveSubclasses(h, cls) <==> DescendsFrom(h, x, cls)
  {
    forall x ensures x in RecursiveSubclasses(h, cls) <==> DescendsFrom(h, x, cls) {
      if x in RecursiveSubclasses(h, cls) {
        var p := Soundness(h, cls, x);
      }
      if DescendsFrom(h, x, cls) {
        var p :| IsChain(h, p) && |p| >= 2 && p[0] == cls && p[|p| - 1] == x;
        Completeness(h, cls, x, p);
      }
    }
  }

  // ---------------------------------------------------------------------------
  // Ordering

  /** Sibling ordering: the traversal is the concatenation, over the direct
      subclasses in their given order, of (traversal below the subclass)
      followed by the subclass. */
  lemma SiblingOrder<C>(h: Hierarchy<C>, cls: C)
    requires Valid(h)
    ensures RecursiveSubclasses(h, cls) == Concat(Blocks(h, cls))
  {
    YieldsFromIsConcat(h, cls, 0);
    assert Blocks(h, cls)[0..] == Blocks(h, cls);
  }

  lemma {:induction false} YieldsFromIsConcat<C>(h: Hierarchy<C>, cls: C, i: nat)
    requires Valid(h) && i <= |Subclasses(h, cls)|
    ensures YieldsFrom(h, cls, i) == Concat(Blocks(h, cls)[i..])
    decreases |Subclasses(h, cls)| - i
  {
    var bs := Blocks(h, cls);
    if i < |Subclasses(h, cls)| {
      YieldsFromIsConcat(h, cls, i + 1);
      assert bs[i..][0] == Block(h, cls, i);
      assert bs[i..][1..] == bs[i + 1..];
    }
  }

  /** In `out`, the positions right before position `i` hold exactly the
      traversal below the class at position `i`. */
  predicate BelowPrecedes<C>(h: Hierarchy<C>, out: seq<C>, i: nat)
    requires Valid(h) && i < |out|
  {
    var below := RecursiveSubclasses(h, out[i]);
    |below| <= i && out[i - |below|..i] == below
  }

  /** Post-order: right before each yielded class stands exactly the traversal
      below that class. */
  lemma {:induction false} PostOrder<C>(h: Hierarchy<C>, cls: C, i: nat)
    requires Valid(h) && i < |RecursiveSubclasses(h, cls)|
    ensures BelowPrecedes(h, RecursiveSubclasses(h, cls), i)
    decreases Rank(h, cls), 1
  {
    PostOrderFrom(h, cls, 0, i);
  }

  lemma {:induction false} PostOrderFrom<C>(h: Hierarchy<C>, cls: C, k: nat, i: nat)
    requires Valid(h) && k <= |Subclasses(h, cls)| && i < |YieldsFrom(h, cls, k)|
    ensures BelowPrecedes(h, YieldsFrom(h, cls, k), i)
    decreases Rank(h, cls), 0, |Subclasses(h, cls)| - k
  {
    var sub := Subclasses(h, cls)[k];
    SubclassIsLower(h, cls, sub);
    var a, b := RecursiveSubclasses(h, sub), YieldsFrom(h, cls, k + 1);
    var out := YieldsFrom(h, cls, k);
    assert out == a + [sub] + b;
    if i < |a| {
      PostOrder(h, sub, i);
      PrecedesInLeft(h, out, a, sub, b, i);
    } else if i == |a| {
      PrecedesAtMiddle(h, out, a, sub, b);
    } else {
      PostOrderFrom(h, cls, k + 1, i - |a| - 1);
      PrecedesInRight(h, out, a, sub, b, i);
    }
  }

  lemma PrecedesInLeft<C>(h: Hierarchy<C>, out: seq<C>, a: seq<C>, x: C, b: seq<C>, i: nat)
    requires Valid(h) && out == a + [x] + b && i < |a| && BelowPrecedes(h, a, i)
    ensures BelowPrecedes(h, out, i)
  {
    var below := RecursiveSubclasses(h, a[i]);
    assert out[i] == a[i];
    assert out[i - |below|..i] == a[i - |below|..i];
  }

  lemma PrecedesAtMiddle<C>(h: Hierarchy<C>, out: seq<C>, a: seq<C>, x: C, b: seq<C>)
    requires Valid(h) && out == a + [x] + b && a == RecursiveSubclasses(h, x)
    ensures BelowPrecedes(h, out, |a|)
  {
    assert out[|a|] == x;
    assert out[0..|a|] == a;
  }

  lemma PrecedesInRight<C>(h: Hierarchy<C>, out: seq<C>, a: seq<C>, x: C, b: seq<C>, i: nat)
    requires Valid(h) && out == a + [x] + b && |a| < i < |out| && BelowPrecedes(h, b, i - |a| - 1)
    ensures BelowPrecedes(h, out, i)
  {
    var j := i - |a| - 1;
    var below := RecursiveSubclasses(h, b[j]);
    assert out[i] == b[j];
    assert out[i - |below|..i] == b[j - |below|..j];
  }

  /** Every class is yielded after all of its own descendants: for the class at
      position `i` and any class `x` derived from it, `x` occurs at an earlier
      position `j`, which the lemma returns. */
  lemma EmittedAfterDescendants<C(!new)>(h: Hierarchy<C>, cls: C, i: nat, x: C) returns (j: nat)
    requires Valid(h) && i < |RecursiveSubclasses(h, cls)|
    requires DescendsFrom(h, x, RecursiveSubclasses(h, cls)[i])
    ensures j < i && RecursiveSubclasses(h, cls)[j] == x
  {
    var out := RecursiveSubclasses(h, cls);
    var below := RecursiveSubclasses(h, out[i]);
    assert x in below by {
      Registry(h, out[i]);
    }
    PostOrder(h, cls, i);
    j := FindInSlice(out, i - |below|, i, x);
  }

  // ---------------------------------------------------------------------------
  // Multiplicity

  /** The derivation paths from `cls` down to `x`, in the order the loop walks
      them: for each direct subclass in order, the one-link path if that
      subclass is `x`, then the paths that continue through it. A path is
      listed once per list entry it runs through, so a class listed twice in
      one subclass list would make its paths appear twice. */
  function Paths<C>(h: Hierarchy<C>, cls: C, x: C): seq<seq<C>>
    requires Valid(h)
    decreases Rank(h, cls), 1
  {
    PathsFrom(h, cls, 0, x)
  }

  function PathsFrom<C>(h: Hierarchy<C>, cls: C, i: nat, x: C): seq<seq<C>>
    requires Valid(h) && i <= |Subclasses(h, cls)|
    decreases Rank(h, cls), 0, |Subclasses(h, cls)| - i
  {
    if i == |Subclasses(h, cls)| then []
    else
      var sub := Subclasses(h, cls)[i];
      SubclassIsLower(h, cls, sub);
      (if sub == x then [[cls, sub]] else []) + PrependAll(cls, Paths(h, sub, x)) + PathsFrom(h, cls, i + 1, x)
  }

  /** A path that continues through `sub` is `cls` followed by a path from `sub`. */
  lemma ThroughSubclass<C>(h: Hierarchy<C>, cls: C, sub: C, x: C, p: seq<C>) returns (q: seq<C>)
    requires Valid(h) && p in PrependAll(cls, Paths(h, sub, x))
    ensures q in Paths(h, sub, x) && p == [cls] + q
  {
    var m :| 0 <= m < |Paths(h, sub, x)| && PrependAll(cls, Paths(h, sub, x))[m] == p;
    q := Paths(h, sub, x)[m];
  }

  /** Every listed path is a derivation path from `cls` to `x`. */
  lemma {:induction false} PathsSound<C>(h: Hierarchy<C>, cls: C, x: C, p: seq<C>)
    requires Valid(h) && p in Paths(h, cls, x)
    ensures IsChain(h, p) && |p| >= 2 && p[0] == cls && p[|p| - 1] == x
    decreases Rank(h, cls), 1
  {
    var k := PathsFromMember(h, cls, 0, x, p);
  }

  /** A path listed by the loop from index `i` on runs through the subclass at
      some index `k >= i`, which the lemma returns. */
  lemma {:induction false} PathsFromMember<C>(h: Hierarchy<C>, cls: C, i: nat, x: C, p: seq<C>) returns (k: nat)
    requires Valid(h) && i <= |Subclasses(h, cls)| && p in PathsFrom(h, cls, i, x)
    ensures i <= k < |Subclasses(h, cls)| && |p| >= 2 && p[1] == Subclasses(h, cls)[k]
    ensures IsChain(h, p) && p[0] == cls && p[|p| - 1] == x
    decreases Rank(h, cls), 0, |Subclasses(h, cls)| - i
  {
    var sub := Subclasses(h, cls)[i];
    SubclassIsLower(h, cls, sub);
    var one := if sub == x then [[cls, sub]] else [];
    var through := PrependAll(cls, Paths(h, sub, x));
    assert PathsFrom(h, cls, i, x) == one + through + PathsFrom(h, cls, i + 1, x);
    if p in one {
      k := i;
      assert p[1..] == [sub];
    } else if p in through {
      k := i;
      var q := ThroughSubclass(h, cls, sub, x, p);
      PathsSound(h, sub, x, q);
      ChainCons(h, cls, q);
    } else {
      k := PathsFromMember(h, cls, i + 1, x, p);
    }
  }

  /** A path listed by the loop from index `k` on is also listed from any earlier index. */
  lemma {:induction false} PathsFromSuffix<C>(h: Hierarchy<C>, cls: C, i: nat, k: nat, x: C, p: seq<C>)
    requires Valid(h) && i <= k <= |Subclasses(h, cls)| && p in PathsFrom(h, cls, k, x)
    ensures p in PathsFrom(h, cls, i, x)
    decreases k - i
  {
    if i < k {
      PathsFromSuffix(h, cls, i + 1, k, x, p);
      var sub := Subclasses(h, cls)[i];
      SubclassIsLower(h, cls, sub);
      var one := if sub == x then [[cls, sub]] else [];
      assert PathsFrom(h, cls, i, x) == one + PrependAll(cls, Paths(h, sub, x)) + PathsFrom(h, cls, i + 1, x);
    }
  }

  /** Every derivation path from `cls` to `x` is listed. */
  lemma {:induction false} PathsComplete<C>(h: Hierarchy<C>, cls: C, x: C, p: seq<C>)
    requires Valid(h) && IsChain(h, p) && |p| >= 2 && p[0] == cls && p[|p| - 1] == x
    ensures p in Paths(h, cls, x)
    decreases |p|
  {
    var sub := p[1];
    var k :| 0 <= k < |Subclasses(h, cls)| && Subclasses(h, cls)[k] == sub;
    SubclassIsLower(h, cls, sub);
    var one := if sub == x then [[cls, sub]] else [];
    var through := PrependAll(cls, Paths(h, sub, x));
    assert PathsFrom(h, cls, k, x) == one + through + PathsFrom(h, cls, k + 1, x);
    if |p| == 2 {
      assert p == [cls, sub];
      assert p in one;
    } else {
      PathsComplete(h, sub, x, p[1..]);
      var m :| 0 <= m < |Paths(h, sub, x)| && Paths(h, sub, x)[m] == p[1..];
      assert through[m] == [cls] + p[1..] == p;
    }
    PathsFromSuffix(h, cls, 0, k, x, p);
  }

  /** A sequence is listed exactly when it is a derivation path from `cls` to `x` (both directions). */
  lemma PathsExact<C>(h: Hierarchy<C>, cls: C, x: C, p: seq<C>)
    requires Valid(h)
    ensures p in Paths(h, cls, x) <==> IsChain(h, p) && |p| >= 2 && p[0] == cls && p[|p| - 1] == x
  {
    if p in Paths(h, cls, x) {
      PathsSound(h, cls, x, p);
    }
    if IsChain(h, p) && |p| >= 2 && p[0] == cls && p[|p| - 1] == x {
      PathsComplete(h, cls, x, p);
    }
  }

  /** When no subclass list repeats a class, no derivation path is listed twice. */
  lemma {:induction false} PathsDistinct<C>(h: Hierarchy<C>, cls: C, x: C)
    requires Valid(h) && NoRepeatedSubclass(h)
    ensures Distinct(Paths(h, cls, x))
    decreases Rank(h, cls), 1
  {
    PathsFromDistinct(h, cls, 0, x);
  }

  lemma {:induction false} PathsFromDistinct<C>(h: Hierarchy<C>, cls: C, i: nat, x: C)
    requires Valid(h) && NoRepeatedSubclass(h) && i <= |Subclasses(h, cls)|
    ensures Distinct(PathsFrom(h, cls, i, x))
    decreases Rank(h, cls), 0, |Subclasses(h, cls)| - i
  {
    if i < |Subclasses(h, cls)| {
      var subs := Subclasses(h, cls);
      var sub := subs[i];
      SubclassIsLower(h, cls, sub);
      var one: seq<seq<C>> := if sub == x then [[cls, sub]] else [];
      var through := PrependAll(cls, Paths(h, sub, x));
      var rest := PathsFrom(h, cls, i + 1, x);
      PathsDistinct(h, sub, x);
      PrependDistinct(cls, Paths(h, sub, x));
      forall p | p in one ensures p !in through {
        if p in through {
          var q := ThroughSubclass(h, cls, sub, x, p);
          PathsSound(h, sub, x, q);
        }
      }
      DistinctAppend(one, through);
      PathsFromDistinct(h, cls, i + 1, x);
      forall p | p in one + through ensures p !in rest {
        assert |p| >= 2 && p[1] == sub by {
          if p in through {
            var q := ThroughSubclass(h, cls, sub, x, p);
            PathsSound(h, sub, x, q);
            assert p[1] == q[0];
          }
        }
        if p in rest {
          var k := PathsFromMember(h, cls, i + 1, x, p);
          assert false;
        }
      }
      DistinctAppend(one + through, rest);
      assert PathsFrom(h, cls, i, x) == (one + through) + rest;
    }
  }

  /** A class is yielded once per listed derivation path that reaches it from `cls`. */
  lemma {:induction false} Multiplicity<C>(h: Hierarchy<C>, cls: C, x: C)
    requires Valid(h)
    ensures multiset(RecursiveSubclasses(h, cls))[x] == |Paths(h, cls, x)|
    decreases Rank(h, cls), 1
  {
    MultiplicityFrom(h, cls, 0, x);
  }

  lemma {:induction false} MultiplicityFrom<C>(h: Hierarchy<C>, cls: C, i: nat, x: C)
    requires Valid(h) && i <= |Subclasses(h, cls)|
    ensures multiset(YieldsFrom(h, cls, i))[x] == |PathsFrom(h, cls, i, x)|
    decreases Rank(h, cls), 0, |Subclasses(h, cls)| - i
  {
    if i < |Subclasses(h, cls)| {
      var sub := Subclasses(h, cls)[i];
      SubclassIsLower(h, cls, sub);
      Multiplicity(h, sub, x);
      MultiplicityFrom(h, cls, i + 1, x);
      var a, b := RecursiveSubclasses(h, sub), YieldsFrom(h, cls, i + 1);
      assert YieldsFrom(h, cls, i) == a + [sub] + b;
      assert multiset(a + [sub] + b) == multiset(a) + multiset([sub]) + multiset(b);
      var one: seq<seq<C>> := if sub == x then [[cls, sub]] else [];
      assert PathsFrom(h, cls, i, x) == one + PrependAll(cls, Paths(h, sub, x)) + PathsFrom(h, cls, i + 1, x);
    }
  }

  /** As Python guarantees, no subclass list repeats a class; then every class
      is yielded exactly as many times as there are derivation paths from
      `cls` to it. */
  lemma DerivationPathCount<C(!new)>(h: Hierarchy<C>, cls: C, x: C, paths: set<seq<C>>)
    requires Valid(h) && NoRepeatedSubclass(h)
    requires forall p :: p in paths <==> IsChain(h, p) && |p| >= 2 && p[0] == cls && p[|p| - 1] == x
    ensures multiset(RecursiveSubclasses(h, cls))[x] == |paths|
  {
    var ps := Paths(h, cls, x);
    Multiplicity(h, cls, x);
    PathsDistinct(h, cls, x);
    DistinctCardinality(ps);
    forall p ensures p in Elements(ps) <==> p in paths {
      PathsExact(h, cls, x, p);
    }
    assert Elements(ps) == paths;
  }

  /** Under single inheritance the blocks of two different direct subclasses share no class. */
  lemma BlocksDisjoint<C>(h: Hierarchy<C>, cls: C, i: nat, j: nat, x: C)
    requires Valid(h) && SingleInheritance(h)
    requires i < |Subclasses(h, cls)| && j < |Subclasses(h, cls)| && i != j
    requires x in Block(h, cls, i)
    ensures x !in Block(h, cls, j)
  {
    if x in Block(h, cls, j) {
      var p := BlockChain(h, cls, i, x);
      var q := BlockChain(h, cls, j, x);
      if |p| <= |q| {
        SameStartChains(h, p, q);
      } else {
        SameStartChains(h, q, p);
      }
      assert false;
    }
  }

  /** A class in the block of the `k`-th subclass is reached by a derivation path through it. */
  lemma BlockChain<C>(h: Hierarchy<C>, cls: C, k: nat, x: C) returns (p: seq<C>)
    requires Valid(h) && k < |Subclasses(h, cls)| && x in Block(h, cls, k)
    ensures IsChain(h, p) && |p| >= 2 && p[0] == cls && p[1] == Subclasses(h, cls)[k] && p[|p| - 1] == x
  {
    var sub := Subclasses(h, cls)[k];
    SubclassIsLower(h, cls, sub);
    if x == sub {
      p := [cls, sub];
      assert p[1..] == [sub];
    } else {
      var q := Soundness(h, sub, x);
      ChainCons(h, cls, q);
      p := [cls] + q;
    }
  }

  /** Two derivation paths from the same class to the same class, under single
      inheritance, are equal. */
  lemma SameStartChains<C>(h: Hierarchy<C>, p: seq<C>, q: seq<C>)
    requires Valid(h) && SingleInheritance(h) && IsChain(h, p) && IsChain(h, q)
    requires 1 <= |p| <= |q| && p[0] == q[0] && p[|p| - 1] == q[|q| - 1]
    ensures p == q
  {
    ChainsMeet(h, p, q);
    var k := |q| - |p|;
    if k > 0 {
      assert q[k] == p[0];
      ChainDescends(h, q, 0, k);
      assert false;
    }
  }

  /** Under single inheritance the traversal yields no class twice. */
  lemma {:induction false} NoDuplicates<C>(h: Hierarchy<C>, cls: C)
    requires Valid(h) && SingleInheritance(h)
    ensures Distinct(RecursiveSubclasses(h, cls))
    decreases Rank(h, cls), 1
  {
    NoDuplicatesFrom(h, cls, 0);
  }

  lemma {:induction false} NoDuplicatesFrom<C>(h: Hierarchy<C>, cls: C, i: nat)
    requires Valid(h) && SingleInheritance(h) && i <= |Subclasses(h, cls)|
    ensures Distinct(YieldsFrom(h, cls, i))
    decreases Rank(h, cls), 0, |Subclasses(h, cls)| - i
  {
    if i < |Subclasses(h, cls)| {
      var sub := Subclasses(h, cls)[i];
      SubclassIsLower(h, cls, sub);
      var a, b := RecursiveSubclasses(h, sub), YieldsFrom(h, cls, i + 1);
      NoDuplicates(h, sub);
      DistinctAppend(a, [sub]);
      NoDuplicatesFrom(h, cls, i + 1);
      forall x | x in Block(h, cls, i) ensures x !in b {
        if x in b {
          var k := YieldsFromMember(h, cls, i + 1, x);
          BlocksDisjoint(h, cls, i, k, x);
        }
      }
      DistinctAppend(a + [sub], b);
      assert YieldsFrom(h, cls, i) == (a + [sub]) + b;
    }
  }

  /** Under single inheritance each proper descendant of `cls` is yielded
      exactly once, and nothing else is yielded. */
  lemma ExactlyOnce<C(!new)>(h: Hierarchy<C>, cls: C, x: C)
    requires Valid(h) && SingleInheritance(h)
    ensures multiset(RecursiveSubclasses(h, cls))[x] == if DescendsFrom(h, x, cls) then 1 else 0
  {
    NoDuplicates(h, cls);
    DistinctMultiplicity(RecursiveSubclasses(h, cls), x);
    Registry(h, cls);
  }

  /** Under single inheritance the number of yielded classes is the number of
      proper descendants of `cls`. */
  lemma DescendantCount<C(!new)>(h: Hierarchy<C>, cls: C, descendants: set<C>)
    requires Valid(h) && SingleInheritance(h)
    requires forall x :: x in descendants <==> DescendsFrom(h, x, cls)
    ensures |RecursiveSubclasses(h, cls)| == |descendants|
  {
    var out := RecursiveSubclasses(h, cls);
    NoDuplicates(h, cls);
    DistinctCardinality(out);
    Registry(h, cls);
    assert Elements(out) == descendants;
  }

  // ---------------------------------------------------------------------------
  // Dependence on the order of the subclass lists

  /** Two hierarchies whose subclass lists hold the same classes, in any order or repetition. */
  ghost predicate SameLinks<C(!new)>(h1: Hierarchy<C>, h2: Hierarchy<C>) {
    forall cls, x :: x in Subclasses(h1, cls) <==> x in Subclasses(h2, cls)
  }

  lemma {:induction false} ChainSameLinks<C(!new)>(h1: Hierarchy<C>, h2: Hierarchy<C>, p: seq<C>)
    requires SameLinks(h1, h2) && IsChain(h1, p)
    ensures IsChain(h2, p)
  {
    if |p| > 1 {
      ChainSameLinks(h1, h2, p[1..]);
    }
  }

  /** Which classes get yielded depends only on the subclass links, not on the
      order in which `__subclasses__()` lists them. */
  lemma OrderIndependence<C(!new)>(h1: Hierarchy<C>, h2: Hierarchy<C>, cls: C, x: C)
    requires Valid(h1) && Valid(h2) && SameLinks(h1, h2)
    requires x in RecursiveSubclasses(h1, cls)
    ensures x in RecursiveSubclasses(h2, cls)
  {
    var p := Soundness(h1, cls, x);
    ChainSameLinks(h1, h2, p);
    Completeness(h2, cls, x, p);
  }
}
