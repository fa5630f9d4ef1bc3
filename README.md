# Entity-type registry of the flask-peewee-marshmallow demo, in Dafny

The demo is a small catalog service. It has authors, hobbies, the relation
between them, and "readables" that are either books or magazines. Almost
all of it is declarations for Flask, peewee and marshmallow. The one piece
of self-written logic is the start-up registry in `src/run.py`.
`model_classes()` and its inner generator `recursive_subclasses(cls)` walk
the class-derivation graph below `BaseModel`. The result is handed to
`db.create_tables`, so each class yielded gets a table.

This project models that traversal and proves its properties:

- `seqs.dfy` (module `Seqs`): helpers for duplicate-free sequences, slices and concatenation.
- `class_graph.dfy` (module `ClassGraph`): the hierarchy the traversal reads.
  - `Hierarchy<C>` maps each class to its `__subclasses__()` list, in order.
    A class missing from the map has no subclasses.
  - `Valid` holds when a rank strictly drops along every subclass link. This
    is the acyclicity Python guarantees, because a subclass is created after
    its bases.
  - Multiple inheritance can be expressed: one class can sit in several lists.
  - `IsChain` and `DescendsFrom` give an independent meaning to "proper
    transitive subclass": a path of one or more subclass links.
  - `SingleInheritance` holds when every class appears at most once across
    all subclass lists.
  - `NoRepeatedSubclass` holds when no single subclass list names a class
    twice. Python refuses `class C(A, A)`, so every real hierarchy has it.
- `run.dfy` (module `Run`): the traversal and the lemmas about it.
  - `RecursiveSubclasses` is the sequence the generator yields.
  - `YieldsFrom` is what its `for` loop yields from the `i`-th subclass on.
  - `ModelClasses` is `model_classes()`.
  - `Paths` lists the derivation paths from a class down to another one, in
    the order the loop walks them.
  - The lemmas cover soundness, completeness, post-order, sibling order,
    multiplicity (one occurrence per derivation path), uniqueness under
    single inheritance, and independence from list order.
- `model_package.dfy` (modules `ModelPackage` and `Diamond`):
  - `ModelPackage` holds the service's own hierarchy (`Hobby`, `Author`,
    `AuthorXHobby` and `Readable` below `BaseModel`; `Book` and `Magazine`
    below `Readable`) and the set of tables the registry yields for it.
  - `Diamond` is a small multiple-inheritance hierarchy in which one class is
    yielded twice.

Two points where the code does less, or more, than a quick reading suggests:

- The code yields the intermediate class `Readable` as well as the five
  entity types that hold data (Author, Hobby, AuthorXHobby, Book, Magazine).
  Six classes therefore get tables, not five.
  `ModelPackage.PackageModelClasses` proves the six, with `Readable` after
  `Book` and `Magazine`. The code does want that table: `src/app.py` queries
  `Readable` (`/readables`), and the older `src/model.py:109` lists
  `Readable` among the tables it creates.
- "Every concrete type is yielded exactly once" is proved under single
  inheritance (`Run.ExactlyOnce`). In general a class is yielded once per
  derivation path reaching it (`Run.DerivationPathCount`); in the diamond
  `Diamond` that is twice (`Diamond.BottomOncePerPath`). Single inheritance
  is sufficient, not necessary: a class whose second base lies outside the
  traversed subtree still has one path and is yielded once.

## Model

| member | source | states |
|---|---|---|
| `Run.RecursiveSubclasses` | src/run.py:8-11 | every class the generator yields lies strictly below `cls` in the derivation order, so the recursion terminates and never yields `cls` itself |
| `Run.YieldsFrom` | src/run.py:9-11 | what the loop yields from any subclass index on also lies strictly below `cls` |
| `Run.ModelClasses` | src/run.py:7-13 | `model_classes()` never yields `BaseModel`, and it yields a class exactly when that class is a proper transitive subclass of `BaseModel` |
| `Run.Soundness` | src/run.py:9-11 | every class yielded below `cls` is reached from `cls` by a path of subclass links; the lemma returns that path |
| `Run.Completeness` | src/run.py:9-11 | every class reached from `cls` by a path of one or more subclass links is yielded below `cls` |
| `Run.Registry` | src/run.py:8-11 | membership in `recursive_subclasses(cls)` is equivalent to being a proper transitive subclass of `cls` (both directions) |
| `Run.SiblingOrder` | src/run.py:9-11 | the output is the concatenation, over the direct subclasses in their given order, of (traversal below the subclass) followed by the subclass |
| `Run.YieldsFromIsConcat` | src/run.py:9-11 | the loop's output from index `i` on is the concatenation of the blocks of the subclasses from index `i` on |
| `Run.PostOrder` | src/run.py:10-11 | at each position of the output, the positions just before it hold exactly the traversal below the class at that position (`BelowPrecedes`) |
| `Run.PostOrderFrom` | src/run.py:10-11 | the same post-order fact for the loop's output from any subclass index on |
| `Run.EmittedAfterDescendants` | src/run.py:10-11 | every proper descendant of a yielded class is yielded at an earlier position; the lemma returns that position |
| `Run.YieldsFromMember` | src/run.py:9-11 | a class the loop yields from index `i` on comes from the block of some subclass at index `k >= i`; the lemma returns `k` |
| `Run.YieldsFromContains` | src/run.py:9-11 | the loop from index `i` on yields every class in the block of each subclass at index `k >= i` |
| `Run.Multiplicity` | src/run.py:9-11 | a class occurs in the output exactly as many times as `Paths` lists a derivation path to it from `cls` |
| `Run.MultiplicityFrom` | src/run.py:9-11 | the same count for the loop's output from any subclass index on |
| `Run.PathsSound` | src/run.py:9-11 | every sequence `Paths` lists is a derivation path (`IsChain`) from `cls` to `x` |
| `Run.PathsFromMember` | src/run.py:9-11 | a path listed by the loop from index `i` on is a derivation path whose second class is the subclass at some index `k >= i`; the lemma returns `k` |
| `Run.PathsComplete` | src/run.py:9-11 | every derivation path from `cls` to `x` is listed by `Paths` |
| `Run.PathsExact` | src/run.py:9-11 | a sequence is listed by `Paths` exactly when it is a derivation path from `cls` to `x` (both directions) |
| `Run.PathsDistinct` | src/run.py:9-11 | when no subclass list repeats a class, `Paths` lists no derivation path twice |
| `Run.DerivationPathCount` | src/run.py:9-11 | when no subclass list repeats a class, the number of times a class is yielded equals the size of the set of derivation paths from `cls` to it |
| `Run.BlocksDisjoint` | src/run.py:9-11 | under single inheritance, the blocks of two different direct subclasses share no class |
| `Run.NoDuplicates` | src/run.py:9-11 | under single inheritance the output has no repeated class |
| `Run.ExactlyOnce` | src/run.py:9-11 | under single inheritance every proper descendant of `cls` occurs exactly once and every other class never |
| `Run.DescendantCount` | src/run.py:9-11 | under single inheritance the output length equals the number of proper descendants of `cls` |
| `Run.OrderIndependence` | src/run.py:9 | which classes are yielded depends only on the subclass links, not on the order `__subclasses__()` lists them in |
| `ClassGraph.ChainsMeet` | src/run.py:9 | under single inheritance, of two derivation paths ending in the same class, the shorter is a suffix of the longer |
| `ClassGraph.ChainDescends` | src/run.py:9 | the rank strictly drops along a derivation path, so no path returns to a class |
| `ModelPackage.PackageValid` | src/model/readable.py:8 | the package's hierarchy, as the class statements `src/model/hobby.py:7`, `src/model/author.py:8`, `src/model/author.py:28`, `src/model/readable.py:8`, `src/model/book.py:7` and `src/model/magazine.py:7` declare it, is acyclic: the rank drops along every subclass link |
| `ModelPackage.PackageSingleInheritance` | src/model/author.py:8-28 | every entity of the package has exactly one base class and is listed once under it, as the class statements `src/model/hobby.py:7`, `src/model/author.py:8`, `src/model/author.py:28`, `src/model/readable.py:8`, `src/model/book.py:7` and `src/model/magazine.py:7` declare |
| `ModelPackage.ReadableTraversal` | src/run.py:9-11 | below `Readable` (subclassed by `src/model/book.py:7` and `src/model/magazine.py:7`) the registry yields `Book`, then `Magazine` |
| `ModelPackage.BaseModelTraversal` | src/run.py:8-11 | `recursive_subclasses(BaseModel)` for the package yields `[Hobby, Author, AuthorXHobby, Book, Magazine, Readable]` |
| `ModelPackage.PackageModelClasses` | src/run.py:12-17 | for the package's hierarchy the registry yields `[Hobby, Author, AuthorXHobby, Book, Magazine, Readable]`: six tables, `Readable` after both its subclasses, `BaseModel` not among them |
| `ModelPackage.TablesInAnyOrder` | src/run.py:17 | for every order of the package's subclass lists, the classes yielded are exactly {Author, AuthorXHobby, Hobby, Readable, Book, Magazine} |
| `ModelPackage.ReadableAfterItsSubclasses` | src/run.py:10-11 | for every order of the package's subclass lists, wherever `Readable` is yielded, its subclasses `Book` (`src/model/book.py:7`) and `Magazine` (`src/model/magazine.py:7`) were yielded before it |
| `Diamond.BottomTwice` | src/run.py:9-11 | with `Bottom(Left, Right)` below `Top`, the traversal of `Top` is `[Bottom, Left, Bottom, Right]` |
| `Diamond.BottomPaths` | src/run.py:9-11 | in that hierarchy a sequence is a derivation path from `Top` to `Bottom` exactly when it is `[Top, Left, Bottom]` or `[Top, Right, Bottom]` |
| `Diamond.BottomOncePerPath` | src/run.py:9-11 | `Bottom` is yielded below `Top` as many times as there are derivation paths to it, the two of `BottomChains` |

## Left out

- Generators: `recursive_subclasses` and `model_classes` are lazy generators. The model uses the finite sequence they would yield if run to the end. Laziness does not change what `db.create_tables` receives.
- How `__subclasses__()` gets populated is left out. It depends on which modules Python has imported, and `model` can resolve either to `src/model.py` or to the `src/model/` package. The subclass lists are an input (`Hierarchy`). The order used in `ModelPackage.Package` is one plausible definition order, and the set-level results are proved for every order.
- `__subclasses__()` holds weak references, so a class that is garbage-collected drops out of it. Such classes are not modelled.
- Table creation (`db.create_tables`, `src/run.py:17`, `src/model.py:107-109`) and the dev server (`src/run.py:18`) are database and network I/O.
- The HTTP routes of `src/app.py` are left out. Listing, getting, deleting and the 404 answers are peewee queries against SQLite.
- The marshmallow schemas and peewee fields in `src/model/*.py` and `src/model.py` are left out. Validation, post-load factories, dumping, defaults and foreign keys are all behaviour of those libraries. These files only supply the class tree.
- Python's generator nesting raises `RecursionError` for a hierarchy deeper than the interpreter's recursion limit. The Dafny functions are total and do not model that error path.
- Run.Multiplicity: counts one occurrence per entry of `Paths`, which lists a path once per list entry it runs through. It is proved equal to the number of distinct derivation paths when no subclass list repeats a class (`Run.DerivationPathCount`), which Python guarantees. A repeated entry such as `Top := [A, A]` lists the paths through it twice.
- The random identifier (`uuid4`, `src/model/base_model.py:25`) is randomness from the standard library.
