/** The tree chart of notes: one root "My Notes", one child per distinct category (in order of first
    appearance, coloured by the position of its first note), and under each category one leaf per
    note, carrying the note's id. A click on a node opens its note when it has one. */
module TreeChart {
  import opened Wrappers
  import Seqs

  /** A note as the chart reads it; the category may be missing. */
  datatype Note = Note(id: string, title: string, category: Option<string>)

  /** A chart node: the root, a category, or a note leaf (the only kind with a note id). */
  datatype TreeNode = TreeNode(name: string, children: seq<TreeNode>, color: Option<string>, noteId: Option<string>)

  const RootName := "My Notes"
  const RootColor := "#333"
  const Uncategorized := "Uncategorized"

  /** The chart's seven colours. */
  const Palette: seq<string> := ["#d62728", "#1f77b4", "#2ca02c", "#ff7f0e", "#9467bd", "#8c564b", "#e377c2"]

  function PaletteColor(i: nat): string
  {
    Palette[i % |Palette|]
  }

  /** `category || "Uncategorized"`: a missing or empty category groups under "Uncategorized". */
  function CategoryOf(): Note -> string
  {
    (n: Note) => if n.category.Some? && n.category.value != "" then n.category.value else Uncategorized
  }

  /** The categories in order of first appearance. */
  function Categories(notes: seq<Note>): seq<string>
  {
    Seqs.FirstKeys(notes, CategoryOf())
  }

  /** The position of the first note of category `c` (0 when there is none). */
  function FirstIndex(notes: seq<Note>, c: string): nat
  {
    Seqs.FindFirst(notes, (n: Note) => CategoryOf()(n) == c).GetOr(0)
  }

  /** The leaf for note `i`: its title, its id and the colour of its own position. */
  function LeafFor(notes: seq<Note>, i: nat): TreeNode
    requires i < |notes|
  {
    TreeNode(notes[i].title, [], Some(PaletteColor(i)), Some(notes[i].id))
  }

  /** The leaves of category `c` among the first `n` notes, in note order. */
  function LeavesFor(notes: seq<Note>, c: string, n: nat): seq<TreeNode>
    requires n <= |notes|
  {
    if n == 0 then []
    else LeavesFor(notes, c, n - 1) + (if CategoryOf()(notes[n - 1]) == c then [LeafFor(notes, n - 1)] else [])
  }

  /** A category none of the first `n` notes has has no leaves yet. */
  lemma {:induction false} LeavesForNone(notes: seq<Note>, c: string, n: nat)
    requires n <= |notes|
    requires forall m :: 0 <= m < n ==> CategoryOf()(notes[m]) != c
    ensures LeavesFor(notes, c, n) == []
  {
    if n > 0 {
      LeavesForNone(notes, c, n - 1);
    }
  }

  /** The category node for `c` once the first `n` notes are placed. */
  function CategoryNode(notes: seq<Note>, c: string, n: nat): TreeNode
    requires n <= |notes|
  {
    TreeNode(c, LeavesFor(notes, c, n), Some(PaletteColor(FirstIndex(notes, c))), None)
  }

  /** The chart the view builds: the reference definition the builder is proved against. */
  function TreeOf(notes: seq<Note>): TreeNode
  {
    TreeNode(RootName, NodesAt(notes, Categories(notes), |notes|), Some(RootColor), None)
  }

  /** Finds `c` among the categories seen so far. */
  function IndexOf(cs: seq<string>, c: string): (r: Option<nat>)
    ensures r.Some? ==> r.value < |cs| && cs[r.value] == c
    ensures r.None? ==> c !in cs
  {
    Seqs.FindFirst(cs, (x: string) => x == c)
  }

  /** Placing note `i` grows only its own category's node, by that note's leaf. */
  lemma PlaceOne(notes: seq<Note>, c: string, i: nat)
    requires i < |notes|
    ensures CategoryNode(notes, c, i + 1) ==
      if c == CategoryOf()(notes[i]) then CategoryNode(notes, c, i).(children := CategoryNode(notes, c, i).children + [LeafFor(notes, i)])
      else CategoryNode(notes, c, i)
  {
  }

  /** The category nodes for `cats` once the first `i` notes are placed. */
  function NodesAt(notes: seq<Note>, cats: seq<string>, i: nat): seq<TreeNode>
    requires i <= |notes|
  {
    seq(|cats|, j requires 0 <= j < |cats| => CategoryNode(notes, cats[j], i))
  }

  /** The first note of a category creates its node, coloured by that note's position. */
  lemma NewCategoryStep(notes: seq<Note>, cats: seq<string>, i: nat)
    requires i < |notes| && cats == Categories(notes[..i])
    requires CategoryOf()(notes[i]) !in cats
    ensures cats + [CategoryOf()(notes[i])] == Categories(notes[..i + 1])
    ensures NodesAt(notes, cats + [CategoryOf()(notes[i])], i) ==
      NodesAt(notes, cats, i) + [TreeNode(CategoryOf()(notes[i]), [], Some(PaletteColor(i)), None)]
  {
    var c := CategoryOf()(notes[i]);
    assert notes[..i + 1] == notes[..i] + [notes[i]];
    Seqs.FirstKeysSnoc(notes[..i], notes[i], CategoryOf());
    Seqs.FirstKeysDistinctAndComplete(notes[..i], CategoryOf());
    forall m | 0 <= m < i ensures CategoryOf()(notes[m]) != c {
      assert notes[..i][m] == notes[m];
    }
    LeavesForNone(notes, c, i);
    assert FirstIndex(notes, c) == i;
  }

  /** A later note of a known category adds no category. */
  lemma KnownCategoryStep(notes: seq<Note>, cats: seq<string>, i: nat)
    requires i < |notes| && cats == Categories(notes[..i])
    requires CategoryOf()(notes[i]) in cats
    ensures cats == Categories(notes[..i + 1])
  {
    assert notes[..i + 1] == notes[..i] + [notes[i]];
    Seqs.FirstKeysSnoc(notes[..i], notes[i], CategoryOf());
  }

  /** Pushing note `i`'s leaf onto node `j`, the node of its category, places it. */
  lemma PlaceAll(notes: seq<Note>, cats: seq<string>, i: nat, j: nat)
    requires i < |notes| && cats == Categories(notes[..i + 1])
    requires j < |cats| && cats[j] == CategoryOf()(notes[i])
    ensures var nodes := NodesAt(notes, cats, i);
      NodesAt(notes, cats, i + 1) == nodes[j := nodes[j].(children := nodes[j].children + [LeafFor(notes, i)])]
  {
    Seqs.FirstKeysDistinctAndComplete(notes[..i + 1], CategoryOf());
    forall k | 0 <= k < |cats| ensures CategoryNode(notes, cats[k], i + 1) ==
      if k == j then CategoryNode(notes, cats[k], i).(children := CategoryNode(notes, cats[k], i).children + [LeafFor(notes, i)])
      else CategoryNode(notes, cats[k], i)
    {
      PlaceOne(notes, cats[k], i);
    }
  }

  /** The `forEach` of `fetchNotes`: the first note of a category creates its node, coloured by that
      note's position; every note then pushes its leaf onto its category's node. */
  method BuildTree(notes: seq<Note>) returns (root: TreeNode)
    ensures root == TreeOf(notes)
  {
    var cats: seq<string> := [];
    var nodes: seq<TreeNode> := [];
    for i := 0 to |notes|
      invariant cats == Categories(notes[..i])
      invariant nodes == NodesAt(notes, cats, i)
    {
      var c := CategoryOf()(notes[i]);
      var found := IndexOf(cats, c);
      var j: nat;
      if found.None? {
        NewCategoryStep(notes, cats, i);
        cats := cats + [c];
        nodes := nodes + [TreeNode(c, [], Some(PaletteColor(i)), None)];
        j := |nodes| - 1;
      } else {
        KnownCategoryStep(notes, cats, i);
        j := found.value;
      }
      PlaceAll(notes, cats, i, j);
      nodes := nodes[j := nodes[j].(children := nodes[j].children + [LeafFor(notes, i)])];
    }
    assert notes[..|notes|] == notes;
    root := TreeNode(RootName, nodes, Some(RootColor), None);
  }

  /** The sum of the leaf counts of some category nodes. */
  function LeafTotal(nodes: seq<TreeNode>): nat
  {
    if |nodes| == 0 then 0 else LeafTotal(nodes[..|nodes| - 1]) + |nodes[|nodes| - 1].children|
  }

  /** How many of the categories `cs` are `c`. */
  function Occurrences(cs: seq<string>, c: string): nat
  {
    if |cs| == 0 then 0 else Occurrences(cs[..|cs| - 1], c) + (if cs[|cs| - 1] == c then 1 else 0)
  }

  /** The number of leaves the categories `cs` hold after the first `n` notes. */
  function CountLeaves(notes: seq<Note>, cs: seq<string>, n: nat): nat
    requires n <= |notes|
  {
    if |cs| == 0 then 0 else CountLeaves(notes, cs[..|cs| - 1], n) + |LeavesFor(notes, cs[|cs| - 1], n)|
  }

  /** The leaf total of the category nodes is the count of their leaves. */
  lemma {:induction false} LeafTotalIsCount(notes: seq<Note>, cs: seq<string>, n: nat)
    requires n <= |notes|
    ensures LeafTotal(NodesAt(notes, cs, n)) == CountLeaves(notes, cs, n)
    decreases |cs|
  {
    if |cs| > 0 {
      var init := cs[..|cs| - 1];
      LeafTotalIsCount(notes, init, n);
      NodesAtPrefix(notes, cs, n);
    }
  }

  /** Dropping the last category drops its node. */
  lemma NodesAtPrefix(notes: seq<Note>, cs: seq<string>, n: nat)
    requires n <= |notes| && |cs| > 0
    ensures NodesAt(notes, cs, n)[..|cs| - 1] == NodesAt(notes, cs[..|cs| - 1], n)
    ensures NodesAt(notes, cs, n)[|cs| - 1].children == LeavesFor(notes, cs[|cs| - 1], n)
  {
  }

  /** Placing note `n - 1` adds one leaf for each entry of `cs` that is its category. */
  lemma {:induction false} LeafCountStep(notes: seq<Note>, cs: seq<string>, n: nat)
    requires 0 < n <= |notes|
    ensures CountLeaves(notes, cs, n) == CountLeaves(notes, cs, n - 1) + Occurrences(cs, CategoryOf()(notes[n - 1]))
    decreases |cs|
  {
    if |cs| > 0 {
      LeafCountStep(notes, cs[..|cs| - 1], n);
    }
  }

  /** Before any note is placed there are no leaves. */
  lemma {:induction false} ZeroLeaves(notes: seq<Note>, cs: seq<string>)
    ensures CountLeaves(notes, cs, 0) == 0
    decreases |cs|
  {
    if |cs| > 0 {
      ZeroLeaves(notes, cs[..|cs| - 1]);
    }
  }

  /** Distinct categories covering the first `n` notes hold `n` leaves between them. */
  lemma {:induction false} LeafCount(notes: seq<Note>, cs: seq<string>, n: nat)
    requires n <= |notes|
    requires forall i, j :: 0 <= i < j < |cs| ==> cs[i] != cs[j]
    requires forall m :: 0 <= m < n ==> CategoryOf()(notes[m]) in cs
    ensures CountLeaves(notes, cs, n) == n
    decreases n
  {
    if n == 0 {
      ZeroLeaves(notes, cs);
    } else {
      LeafCount(notes, cs, n - 1);
      LeafCountSucc(notes, cs, n, CategoryOf()(notes[n - 1]));
    }
  }

  lemma LeafCountSucc(notes: seq<Note>, cs: seq<string>, n: nat, c: string)
    requires 0 < n <= |notes| && c == CategoryOf()(notes[n - 1])
    requires forall i, j :: 0 <= i < j < |cs| ==> cs[i] != cs[j]
    requires c in cs && CountLeaves(notes, cs, n - 1) == n - 1
    ensures CountLeaves(notes, cs, n) == n
  {
    LeafCountStep(notes, cs, n);
    OccursOnce(cs, c);
  }

  /** A member of a sequence without repeats occurs in it once. */
  lemma {:induction false} OccursOnce(cs: seq<string>, c: string)
    requires forall i, j :: 0 <= i < j < |cs| ==> cs[i] != cs[j]
    requires c in cs
    ensures Occurrences(cs, c) == 1
    decreases |cs|
  {
    var init := cs[..|cs| - 1];
    if cs[|cs| - 1] == c {
      NotOccurring(init, c);
    } else {
      assert c in init;
      OccursOnce(init, c);
    }
  }

  lemma {:induction false} NotOccurring(cs: seq<string>, c: string)
    requires c !in cs
    ensures Occurrences(cs, c) == 0
    decreases |cs|
  {
    if |cs| > 0 {
      NotOccurring(cs[..|cs| - 1], c);
    }
  }

  /** The shape of the chart: a single root "My Notes" without a note id whose children are the
      category nodes, one per distinct category, none with a note id, each coloured by the position
      of its category's first note. */
  lemma TreeShape(notes: seq<Note>)
    ensures TreeOf(notes).name == RootName && TreeOf(notes).noteId.None?
    ensures var cs := TreeOf(notes).children;
      forall i, j :: 0 <= i < j < |cs| ==> cs[i].name != cs[j].name
    ensures var cs := TreeOf(notes).children;
      forall m :: 0 <= m < |notes| ==> exists j :: 0 <= j < |cs| && cs[j].name == CategoryOf()(notes[m])
    ensures var cs := TreeOf(notes).children;
      forall j :: 0 <= j < |cs| ==> exists m :: 0 <= m < |notes| && cs[j].name == CategoryOf()(notes[m])
    ensures var cs := TreeOf(notes).children;
      forall j :: 0 <= j < |cs| ==> cs[j].noteId.None? && cs[j].color == Some(PaletteColor(FirstIndex(notes, cs[j].name)))
  {
    ChildrenDistinct(notes);
    NoteCategoriesAreChildren(notes);
    ChildrenAreNoteCategories(notes);
    ChildrenColours(notes);
  }

  /** No child of the root carries a note id, and each is coloured by its category's first note. */
  lemma ChildrenColours(notes: seq<Note>)
    ensures var cs := TreeOf(notes).children;
      forall j :: 0 <= j < |cs| ==> cs[j].noteId.None? && cs[j].color == Some(PaletteColor(FirstIndex(notes, cs[j].name)))
  {
  }

  /** No two children of the root share a name. */
  lemma ChildrenDistinct(notes: seq<Note>)
    ensures var cs := TreeOf(notes).children;
      forall i, j :: 0 <= i < j < |cs| ==> cs[i].name != cs[j].name
  {
    var cats := Categories(notes);
    Seqs.FirstKeysDistinctAndComplete(notes, CategoryOf());
    var cs := TreeOf(notes).children;
    assert forall j :: 0 <= j < |cs| ==> cs[j].name == cats[j];
  }

  /** Every note's category is the name of some child of the root. */
  lemma NoteCategoriesAreChildren(notes: seq<Note>)
    ensures var cs := TreeOf(notes).children;
      forall m :: 0 <= m < |notes| ==> exists j :: 0 <= j < |cs| && cs[j].name == CategoryOf()(notes[m])
  {
    var cats := Categories(notes);
    Seqs.FirstKeysDistinctAndComplete(notes, CategoryOf());
    var cs := TreeOf(notes).children;
    forall m | 0 <= m < |notes| ensures exists j :: 0 <= j < |cs| && cs[j].name == CategoryOf()(notes[m]) {
      assert CategoryOf()(notes[m]) in cats;
      var j :| 0 <= j < |cats| && cats[j] == CategoryOf()(notes[m]);
      assert cs[j].name == cats[j];
    }
  }

  /** Every child of the root is the category of some note. */
  lemma ChildrenAreNoteCategories(notes: seq<Note>)
    ensures var cs := TreeOf(notes).children;
      forall j :: 0 <= j < |cs| ==> exists m :: 0 <= m < |notes| && cs[j].name == CategoryOf()(notes[m])
  {
    var cats := Categories(notes);
    var cs := TreeOf(notes).children;
    forall j | 0 <= j < |cs| ensures exists m :: 0 <= m < |notes| && cs[j].name == CategoryOf()(notes[m]) {
      Seqs.FirstKeysDistinctAndComplete(notes, CategoryOf());
      assert cs[j].name == cats[j];
      assert cats[j] in cats;
    }
  }

  /** The chart holds as many leaves as there are notes. */
  lemma TreeLeafTotal(notes: seq<Note>)
    ensures LeafTotal(TreeOf(notes).children) == |notes|
  {
    var cats := Categories(notes);
    Seqs.FirstKeysDistinctAndComplete(notes, CategoryOf());
    forall m | 0 <= m < |notes| ensures CategoryOf()(notes[m]) in cats {
      assert exists k :: 0 <= k < |notes| && CategoryOf()(notes[k]) == CategoryOf()(notes[m]);
    }
    LeafCount(notes, cats, |notes|);
    LeafTotalIsCount(notes, cats, |notes|);
  }

  /** The category's colour is the palette entry at the position of its first note, modulo seven. */
  lemma CategoryColorIsFirstPosition(notes: seq<Note>, m: nat)
    requires m < |notes| && forall k :: 0 <= k < m ==> CategoryOf()(notes[k]) != CategoryOf()(notes[m])
    ensures FirstIndex(notes, CategoryOf()(notes[m])) == m
    ensures PaletteColor(FirstIndex(notes, CategoryOf()(notes[m]))) == Palette[m % 7]
  {
  }

  /** Each note's leaf sits under its own category: it is among that category's leaves, and it
      carries the note's title and id. */
  lemma {:induction false} LeafUnderOwnCategory(notes: seq<Note>, m: nat, n: nat)
    requires m < n <= |notes|
    ensures LeafFor(notes, m) in LeavesFor(notes, CategoryOf()(notes[m]), n)
    ensures LeafFor(notes, m).name == notes[m].title && LeafFor(notes, m).noteId == Some(notes[m].id)
    decreases n
  {
    if m < n - 1 {
      LeafUnderOwnCategory(notes, m, n - 1);
    }
  }

  /** `handleChartClick`: a node with a note id opens that note; the root and the categories open
      nothing. */
  function HandleChartClick(node: TreeNode): (route: Option<string>)
    ensures route.Some? <==> node.noteId.Some? && node.noteId.value != ""
    ensures route.Some? ==> route.value == "/note/" + node.noteId.value
  {
    if node.noteId.Some? && node.noteId.value != "" then Some("/note/" + node.noteId.value) else None
  }

  /** Clicking the root or a category node never navigates; clicking a leaf opens its note. */
  lemma ClickOnlyOnLeaves(notes: seq<Note>, j: nat, m: nat)
    requires j < |Categories(notes)| && m < |notes| && notes[m].id != ""
    ensures HandleChartClick(TreeOf(notes)).None?
    ensures HandleChartClick(TreeOf(notes).children[j]).None?
    ensures HandleChartClick(LeafFor(notes, m)) == Some("/note/" + notes[m].id)
  {
  }

  // ---------------------------------------------------------------- the code as written

  /** The property names every plain JavaScript object inherits. */
  const InheritedNames: set<string> := {
    "constructor", "__proto__", "hasOwnProperty", "isPrototypeOf", "propertyIsEnumerable",
    "toString", "toLocaleString", "valueOf", "__defineGetter__", "__defineSetter__",
    "__lookupGetter__", "__lookupSetter__"}

  /** What reading `categoryMap[c]` finds on the plain object: the category node at position `j`
      of the object's own properties (kept in insertion order), a value every object inherits
      (truthy, but without `children`), or nothing (`undefined`). */
  datatype Prop = Own(j: nat) | Inherited | Missing

  function Lookup(cats: seq<string>, c: string): (p: Prop)
    ensures p.Own? ==> p.j < |cats| && cats[p.j] == c
    ensures p.Inherited? <==> c !in cats && c in InheritedNames
    ensures p.Missing? <==> c !in cats && c !in InheritedNames
  {
    match IndexOf(cats, c)
    case Some(j) => Own(j)
    case None => if c in InheritedNames then Inherited else Missing
  }

  const PushFailed := "TypeError: Cannot read properties of undefined (reading 'push')"

  /** The first `n` steps of the `forEach` as written, on the category map's own keys and values: a
      category whose lookup is falsy gets a new node; then the leaf is pushed onto
      `categoryMap[category].children`, which throws unless the lookup finds an own node. */
  function PlaceAsWritten(notes: seq<Note>, n: nat): (r: Result<(seq<string>, seq<TreeNode>)>)
    requires n <= |notes|
    ensures r.Success? ==> |r.value.0| == |r.value.1|
  {
    if n == 0 then Success(([], []))
    else
      var placed :- PlaceAsWritten(notes, n - 1);
      var c := CategoryOf()(notes[n - 1]);
      var created :=
        if Lookup(placed.0, c).Missing? then
          (placed.0 + [c], placed.1 + [TreeNode(c, [], Some(PaletteColor(n - 1)), None)])
        else placed;
      match Lookup(created.0, c)
      case Own(j) =>
        Success((created.0, created.1[j := created.1[j].(children := created.1[j].children + [LeafFor(notes, n - 1)])]))
      case _ => Failure(PushFailed)
  }

  /** Some note among the first `n` has a category named like an inherited property. */
  predicate InheritedBy(notes: seq<Note>, n: nat)
    requires n <= |notes|
  {
    exists m :: 0 <= m < n && CategoryOf()(notes[m]) in InheritedNames
  }

  /** The first `n` steps as written throw exactly when some category so far is an inherited
      name, and until then they hold the categories and the nodes of the reference chart. */
  predicate AgreesAt(notes: seq<Note>, n: nat)
    requires n <= |notes|
  {
    && (PlaceAsWritten(notes, n).Failure? <==> InheritedBy(notes, n))
    && (PlaceAsWritten(notes, n).Success? ==>
          PlaceAsWritten(notes, n).value == (Categories(notes[..n]), NodesAt(notes, Categories(notes[..n]), n)))
  }

  /** The steps as written throw exactly when some category so far is an inherited name; until then
      they hold the categories and the nodes of the reference chart. */
  lemma {:induction false} PlaceAsWrittenAgrees(notes: seq<Note>, n: nat)
    requires n <= |notes|
    ensures PlaceAsWritten(notes, n).Failure? <==>
      exists m :: 0 <= m < n && CategoryOf()(notes[m]) in InheritedNames
    ensures PlaceAsWritten(notes, n).Success? ==>
      PlaceAsWritten(notes, n).value == (Categories(notes[..n]), NodesAt(notes, Categories(notes[..n]), n))
    decreases n
  {
    Agreement(notes, n);
  }

  lemma {:induction false} Agreement(notes: seq<Note>, n: nat)
    requires n <= |notes|
    ensures AgreesAt(notes, n)
    decreases n
  {
    if n == 0 {
      NothingPlaced(notes);
    } else {
      Agreement(notes, n - 1);
      AgreementStep(notes, n);
    }
  }

  /** Before the first note the map is empty, as is the reference chart. */
  lemma NothingPlaced(notes: seq<Note>)
    ensures AgreesAt(notes, 0)
  {
    assert notes[..0] == [];
    assert Seqs.DedupBy(notes[..0], CategoryOf()) == [];
    assert Categories(notes[..0]) == [];
    assert NodesAt(notes, [], 0) == [];
  }

  /** One more step keeps the agreement. */
  lemma AgreementStep(notes: seq<Note>, n: nat)
    requires 0 < n <= |notes| && AgreesAt(notes, n - 1)
    ensures AgreesAt(notes, n)
  {
    if PlaceAsWritten(notes, n - 1).Failure? {
      FailureStays(notes, n);
    } else if CategoryOf()(notes[n - 1]) in InheritedNames {
      InheritedStep(notes, n);
    } else {
      OrdinaryStep(notes, n);
      StillNoInherited(notes, n);
    }
  }

  lemma StillNoInherited(notes: seq<Note>, n: nat)
    requires 0 < n <= |notes| && CategoryOf()(notes[n - 1]) !in InheritedNames && !InheritedBy(notes, n - 1)
    ensures !InheritedBy(notes, n)
  {
  }

  /** Once a step has thrown, the `forEach` is abandoned. */
  lemma FailureStays(notes: seq<Note>, n: nat)
    requires 0 < n <= |notes| && PlaceAsWritten(notes, n - 1).Failure? && InheritedBy(notes, n - 1)
    ensures PlaceAsWritten(notes, n).Failure? && InheritedBy(notes, n)
  {
    var m :| 0 <= m < n - 1 && CategoryOf()(notes[m]) in InheritedNames;
    assert 0 <= m < n;
  }

  /** A note whose category is an inherited name, after notes of ordinary categories only, throws. */
  lemma InheritedStep(notes: seq<Note>, n: nat)
    requires 0 < n <= |notes| && CategoryOf()(notes[n - 1]) in InheritedNames && !InheritedBy(notes, n - 1)
    requires PlaceAsWritten(notes, n - 1) == Success((Categories(notes[..n - 1]), NodesAt(notes, Categories(notes[..n - 1]), n - 1)))
    ensures PlaceAsWritten(notes, n).Failure? && InheritedBy(notes, n)
  {
    var i := n - 1;
    var cats := Categories(notes[..i]);
    var c := CategoryOf()(notes[i]);
    Seqs.FirstKeysMember(notes[..i], CategoryOf(), c);
    assert c !in cats;
    assert Lookup(cats, c).Inherited?;
    assert 0 <= i < n;
  }

  /** A note of an ordinary category takes the same step as the reference build. */
  lemma OrdinaryStep(notes: seq<Note>, n: nat)
    requires 0 < n <= |notes| && CategoryOf()(notes[n - 1]) !in InheritedNames
    requires PlaceAsWritten(notes, n - 1) == Success((Categories(notes[..n - 1]), NodesAt(notes, Categories(notes[..n - 1]), n - 1)))
    ensures PlaceAsWritten(notes, n) == Success((Categories(notes[..n]), NodesAt(notes, Categories(notes[..n]), n)))
  {
    var i := n - 1;
    var cats := Categories(notes[..i]);
    var c := CategoryOf()(notes[i]);
    var found := Lookup(cats, c);
    if found.Missing? {
      NewCategoryStep(notes, cats, i);
      var j := Lookup(cats + [c], c).j;
      PlaceAll(notes, cats + [c], i, j);
    } else {
      KnownCategoryStep(notes, cats, i);
      PlaceAll(notes, cats, i, found.j);
    }
  }

  /** The build as written: `categoryMap` is a plain object, so for a category named like an
      inherited property `categoryMap[category]` is already truthy, no node is created, and pushing
      the leaf onto its missing `children` throws a TypeError that abandons the chart. It throws
      exactly when some note's category is such a name, and otherwise builds the reference chart. */
  function BuildTreeAsWritten(notes: seq<Note>): (r: Result<TreeNode>)
    ensures r.Failure? <==> exists m :: 0 <= m < |notes| && CategoryOf()(notes[m]) in InheritedNames
    ensures r.Success? ==> r.value == TreeOf(notes)
  {
    PlaceAsWrittenAgrees(notes, |notes|);
    assert notes[..|notes|] == notes;
    var placed :- PlaceAsWritten(notes, |notes|);
    Success(TreeNode(RootName, placed.1, Some(RootColor), None))
  }

  /** A single note in category "constructor" leaves the chart empty as written, while the intended
      chart has one "constructor" category holding the note. */
  lemma ConstructorCategoryBreaksChart()
    ensures var notes := [Note("n1", "Two Sum", Some("constructor"))];
      && BuildTreeAsWritten(notes).Failure?
      && |TreeOf(notes).children| == 1
      && TreeOf(notes).children[0].name == "constructor"
      && LeafTotal(TreeOf(notes).children) == 1
  {
    var notes := [Note("n1", "Two Sum", Some("constructor"))];
    assert CategoryOf()(notes[0]) == "constructor";
    TreeLeafTotal(notes);
    Seqs.FirstKeysDistinctAndComplete(notes, CategoryOf());
    assert Seqs.DedupBy(notes, CategoryOf()) == notes by {
      assert notes[..0] == [];
    }
  }
}
