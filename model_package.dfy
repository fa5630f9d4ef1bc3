/**
  The service's own entity hierarchy, as the `model` package declares it:
  `Hobby`, `Author` and `AuthorXHobby` derive from `BaseModel` directly,
  `Readable` does too, and `Book` and `Magazine` derive from `Readable`.
  The subclass lists are in definition order (`hobby` is imported by
  `author`, which `readable` imports); which order Python actually sees
  depends on import side effects, so the set-level results below are also
  proved for every other order of the same lists.
*/
module ModelPackage {
  import opened ClassGraph
  import opened Run

  datatype Entity = BaseModel | Hobby | Author | AuthorXHobby | Readable | Book | Magazine

  const Package: Hierarchy<Entity> := Hierarchy(
    map[BaseModel := [Hobby, Author, AuthorXHobby, Readable], Readable := [Book, Magazine]],
    map[BaseModel := 2, Readable := 1])

  /** The tables `db.create_tables(model_classes())` is asked to create. */
  const Tables: set<Entity> := {Hobby, Author, AuthorXHobby, Readable, Book, Magazine}

  lemma PackageValid()
    ensures Valid(Package)
  {
  }

  /** Every entity has one base class. */
  lemma PackageSingleInheritance()
    ensures SingleInheritance(Package)
  {
    var subs := Package.subclasses;
    assert subs.Keys == {BaseModel, Readable};
    forall a, b, i, j |
      a in subs && b in subs && 0 <= i < |subs[a]| && 0 <= j < |subs[b]| && subs[a][i] == subs[b][j]
      ensures a == b && i == j
    {
      assert a == BaseModel || a == Readable;
      assert b == BaseModel || b == Readable;
    }
  }

  /** For the package's definition order the registry yields the five entities
      and the intermediate class `Readable`, `Readable` after both of its
      subclasses, each once; `BaseModel` itself is not yielded. */
  lemma PackageModelClasses()
    ensures Valid(Package)
    ensures ModelClasses(Package, BaseModel) == [Hobby, Author, AuthorXHobby, Book, Magazine, Readable]
  {
    BaseModelTraversal();
  }

  lemma BaseModelTraversal()
    ensures Valid(Package)
    ensures RecursiveSubclasses(Package, BaseModel) == [Hobby, Author, AuthorXHobby, Book, Magazine, Readable]
  {
    PackageValid();
    ReadableTraversal();
    assert YieldsFrom(Package, BaseModel, 3) == [Book, Magazine, Readable];
  }

  /** Below `Readable` the registry yields `Book`, then `Magazine`. */
  lemma ReadableTraversal()
    ensures Valid(Package) && RecursiveSubclasses(Package, Readable) == [Book, Magazine]
  {
    PackageValid();
  }

  /** Whatever order `__subclasses__()` lists the same classes in, the registry
      yields exactly the six classes of `Tables`. */
  lemma TablesInAnyOrder(h: Hierarchy<Entity>)
    requires Valid(h) && SameLinks(h, Package)
    ensures forall x :: x in ModelClasses(h, BaseModel) <==> x in Tables
  {
    PackageModelClasses();
    forall x ensures x in ModelClasses(h, BaseModel) <==> x in ModelClasses(Package, BaseModel) {
      if x in ModelClasses(h, BaseModel) {
        OrderIndependence(h, Package, BaseModel, x);
      }
      if x in ModelClasses(Package, BaseModel) {
        SameLinksSymmetric(h, Package);
        OrderIndependence(Package, h, BaseModel, x);
      }
    }
  }

  lemma SameLinksSymmetric<C(!new)>(h1: Hierarchy<C>, h2: Hierarchy<C>)
    requires SameLinks(h1, h2)
    ensures SameLinks(h2, h1)
  {
  }

  /** Whatever order the subclass lists are in, wherever `Readable` is yielded,
      `Book` and `Magazine` have been yielded before it. */
  lemma ReadableAfterItsSubclasses(h: Hierarchy<Entity>, i: nat)
    requires Valid(h) && SameLinks(h, Package)
    requires i < |ModelClasses(h, BaseModel)| && ModelClasses(h, BaseModel)[i] == Readable
    ensures Book in ModelClasses(h, BaseModel)[..i] && Magazine in ModelClasses(h, BaseModel)[..i]
  {
    var out := ModelClasses(h, BaseModel);
    assert Book in Subclasses(h, Readable) && Magazine in Subclasses(h, Readable) by {
      assert Book in Subclasses(Package, Readable) && Magazine in Subclasses(Package, Readable);
    }
    var toBook, toMagazine := [Readable, Book], [Readable, Magazine];
    assert toBook[1..] == [Book] && toMagazine[1..] == [Magazine];
    assert IsChain(h, toBook) && IsChain(h, toMagazine);
    var j := EmittedAfterDescendants(h, BaseModel, i, Book);
    var k := EmittedAfterDescendants(h, BaseModel, i, Magazine);
    assert out[..i][j] == Book && out[..i][k] == Magazine;
  }
}

/**
  Under multiple inheritance a class is yielded once per derivation path:
  with `class Left(Top)`, `class Right(Top)` and `class Bottom(Left, Right)`,
  `Bottom` appears in both `Left.__subclasses__()` and
  `Right.__subclasses__()` and is yielded twice below `Top`.
*/
module Diamond {
  import opened ClassGraph
  import opened Run
  import Seqs

  datatype Shape = Top | Left | Right | Bottom

  const Hier: Hierarchy<Shape> := Hierarchy(
    map[Top := [Left, Right], Left := [Bottom], Right := [Bottom]],
    map[Top := 2, Left := 1, Right := 1])

  lemma DiamondValid()
    ensures Valid(Hier)
  {
  }

  /** `Bottom` has two direct bases. */
  lemma NotSingleInheritance()
    ensures !SingleInheritance(Hier)
  {
    assert Hier.subclasses[Left][0] == Hier.subclasses[Right][0];
  }

  /** `Bottom` is yielded once below `Left` and once below `Right`. */
  lemma BottomTwice()
    ensures Valid(Hier)
    ensures RecursiveSubclasses(Hier, Top) == [Bottom, Left, Bottom, Right]
  {
    DiamondValid();
  }

  /** No subclass list of the diamond repeats a class. */
  lemma DiamondNoRepeatedSubclass()
    ensures NoRepeatedSubclass(Hier)
  {
  }

  /** Exactly two derivation paths lead from `Top` to `Bottom`: one through
      `Left` and one through `Right`. */
  lemma BottomPaths(p: seq<Shape>)
    ensures IsChain(Hier, p) && |p| >= 2 && p[0] == Top && p[|p| - 1] == Bottom
      <==> p == [Top, Left, Bottom] || p == [Top, Right, Bottom]
  {
    DiamondValid();
    PathsExact(Hier, Top, Bottom, p);
    TopToBottom();
  }

  lemma TopToBottom()
    ensures Valid(Hier) && Paths(Hier, Top, Bottom) == [[Top, Left, Bottom], [Top, Right, Bottom]]
  {
    DiamondValid();
    SideToBottom();
    assert Subclasses(Hier, Top) == [Left, Right];
    OnTop(Left);
    OnTop(Right);
    assert PathsFrom(Hier, Top, 2, Bottom) == [];
    assert Subclasses(Hier, Top)[1] == Right;
    assert PathsFrom(Hier, Top, 1, Bottom) == [] + Seqs.PrependAll(Top, Paths(Hier, Right, Bottom)) + PathsFrom(Hier, Top, 2, Bottom);
    assert PathsFrom(Hier, Top, 1, Bottom) == [[Top, Right, Bottom]];
    assert PathsFrom(Hier, Top, 0, Bottom) == [[Top, Left, Bottom], [Top, Right, Bottom]];
  }

  lemma OnTop(side: Shape)
    ensures Seqs.PrependAll(Top, [[side, Bottom]]) == [[Top, side, Bottom]]
  {
    var r := Seqs.PrependAll(Top, [[side, Bottom]]);
    assert |r| == 1 && r[0] == [Top] + [side, Bottom];
    assert [Top] + [side, Bottom] == [Top, side, Bottom];
  }

  lemma SideToBottom()
    ensures Valid(Hier) && Paths(Hier, Left, Bottom) == [[Left, Bottom]] && Paths(Hier, Right, Bottom) == [[Right, Bottom]]
  {
    DiamondValid();
  }

  /** The two derivation paths from `Top` to `Bottom`. */
  const BottomChains: set<seq<Shape>> := {[Top, Left, Bottom], [Top, Right, Bottom]}

  lemma BottomChainsExact()
    ensures forall p :: p in BottomChains <==> IsChain(Hier, p) && |p| >= 2 && p[0] == Top && p[|p| - 1] == Bottom
  {
    forall p ensures p in BottomChains <==> IsChain(Hier, p) && |p| >= 2 && p[0] == Top && p[|p| - 1] == Bottom {
      BottomPaths(p);
    }
  }

  lemma TwoBottomChains()
    ensures |BottomChains| == 2
  {
    assert [Top, Left, Bottom][1] != [Top, Right, Bottom][1];
  }

  /** `Bottom` is yielded once per derivation path, twice in all. */
  lemma BottomOncePerPath()
    ensures Valid(Hier) && multiset(RecursiveSubclasses(Hier, Top))[Bottom] == |BottomChains|
  {
    DiamondValid();
    DiamondNoRepeatedSubclass();
    BottomChainsExact();
    DerivationPathCount(Hier, Top, Bottom, BottomChains);
  }
}
