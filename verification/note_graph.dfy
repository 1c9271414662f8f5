/** The force-graph view of notes: one node per distinct category, coloured with the next unused
    colour of the ten-colour scheme, one grey node per note, and one link from each note's category
    node to the note's node. Clicking a note node opens the note. */
module NoteGraph {
  import opened Wrappers
  import Seqs

  datatype Note = Note(id: string, title: string, category: string)

  datatype GraphNode = GraphNode(id: string, name: string, isCategory: bool, color: string)

  datatype Link = Link(source: string, target: string)

  /** The graph under construction, with the two sets the construction remembers. */
  datatype Graph = Graph(nodes: seq<GraphNode>, links: seq<Link>, categorySet: set<string>, usedColors: set<string>)

  /** d3's ten-colour categorical scheme. */
  const SchemeCategory10: seq<string> := [
    "#1f77b4", "#ff7f0e", "#2ca02c", "#d62728", "#9467bd",
    "#8c564b", "#e377c2", "#7f7f7f", "#bcbd22", "#17becf"]

  /** The colour handed out once the palette is used up. */
  const Exhausted := "#000000"

  /** The grey of every note node. */
  const NoteColor := "#888888"

  const EmptyGraph := Graph([], [], {}, {})

  /** `palette[i]` is the first palette colour not yet used. */
  ghost predicate FirstUnused(palette: seq<string>, used: set<string>, i: int)
  {
    0 <= i < |palette| && palette[i] !in used && forall j :: 0 <= j < i ==> palette[j] in used
  }

  /** `getNextColor`: the first palette colour not yet used, now recorded as used; black, recording
      nothing, when every palette colour is taken. */
  function NextColor(palette: seq<string>, used: set<string>): (r: (string, set<string>))
    ensures (forall i :: 0 <= i < |palette| ==> palette[i] in used) ==> r == (Exhausted, used)
    ensures (exists i :: 0 <= i < |palette| && palette[i] !in used) ==>
      exists i :: FirstUnused(palette, used, i) && r == (palette[i], used + {palette[i]})
  {
    match Seqs.FindFirst(palette, (c: string) => c !in used)
    case None => (Exhausted, used)
    case Some(i) =>
      assert FirstUnused(palette, used, i);
      (palette[i], used + {palette[i]})
  }

  /** One step of the `forEach`: a category seen for the first time gets its node and the next
      colour; then the note gets its grey node and a link from its category. */
  function AddNote(g: Graph, note: Note): (r: Graph)
    ensures r.links == g.links + [Link(note.category, note.id)]
    ensures r.categorySet == g.categorySet + {note.category}
    ensures note.category in g.categorySet ==> r.usedColors == g.usedColors
    ensures note.category in g.categorySet ==> r.nodes == g.nodes + [GraphNode(note.id, note.title, false, NoteColor)]
    ensures note.category !in g.categorySet ==>
      r.nodes == g.nodes + [GraphNode(note.category, note.category, true, NextColor(SchemeCategory10, g.usedColors).0)]
                         + [GraphNode(note.id, note.title, false, NoteColor)]
  {
    var withCategory :=
      if note.category in g.categorySet then g
      else
        var (color, used) := NextColor(SchemeCategory10, g.usedColors);
        g.(nodes := g.nodes + [GraphNode(note.category, note.category, true, color)],
           categorySet := g.categorySet + {note.category},
           usedColors := used);
    withCategory.(nodes := withCategory.nodes + [GraphNode(note.id, note.title, false, NoteColor)],
                  links := withCategory.links + [Link(note.category, note.id)])
  }

  /** The graph built from the notes in order. */
  function BuildGraph(notes: seq<Note>): Graph
  {
    if |notes| == 0 then EmptyGraph else AddNote(BuildGraph(notes[..|notes| - 1]), notes[|notes| - 1])
  }

  // ---------------------------------------------------------------- the reference description

  function CategoryKey(): Note -> string
  {
    (n: Note) => n.category
  }

  /** The categories in order of first appearance. */
  function Categories(notes: seq<Note>): seq<string>
  {
    Seqs.FirstKeys(notes, CategoryKey())
  }

  /** The colour of the `k`-th category: the `k`-th palette colour, black past the end. */
  function ColorIn(palette: seq<string>, k: nat): string
  {
    if k < |palette| then palette[k] else Exhausted
  }

  /** The colours used once `k` categories have been coloured. */
  function UsedIn(palette: seq<string>, k: nat): set<string>
  {
    set i | 0 <= i < k && i < |palette| :: palette[i]
  }

  function ColorAt(k: nat): string
  {
    ColorIn(SchemeCategory10, k)
  }

  function UsedAfter(k: nat): set<string>
  {
    UsedIn(SchemeCategory10, k)
  }

  ghost predicate Distinct(palette: seq<string>)
  {
    forall i, j :: 0 <= i < j < |palette| ==> palette[i] != palette[j]
  }

  function CategoryNodesOf(cs: seq<string>): seq<GraphNode>
  {
    seq(|cs|, k requires 0 <= k < |cs| => GraphNode(cs[k], cs[k], true, ColorAt(k)))
  }

  function NoteNodesOf(notes: seq<Note>): seq<GraphNode>
  {
    seq(|notes|, m requires 0 <= m < |notes| => GraphNode(notes[m].id, notes[m].title, false, NoteColor))
  }

  function LinksOf(notes: seq<Note>): seq<Link>
  {
    seq(|notes|, m requires 0 <= m < |notes| => Link(notes[m].category, notes[m].id))
  }

  function IsCategoryNode(): GraphNode -> bool
  {
    (n: GraphNode) => n.isCategory
  }

  function IsNoteNode(): GraphNode -> bool
  {
    (n: GraphNode) => !n.isCategory
  }

  // ---------------------------------------------------------------- the colour sequence

  lemma PaletteDistinct()
    ensures Distinct(SchemeCategory10) && Exhausted !in SchemeCategory10
  {
  }

  /** There is only one first unused colour. */
  lemma FirstUnusedUnique(p: seq<string>, used: set<string>, i: int, k: int)
    requires FirstUnused(p, used, i) && FirstUnused(p, used, k)
    ensures i == k
  {
  }

  /** Different categories within the palette get different colours, none of them black. */
  lemma ColorsDistinctIn(p: seq<string>, i: nat, j: nat)
    requires Distinct(p) && Exhausted !in p && i < j < |p|
    ensures ColorIn(p, i) != ColorIn(p, j) && ColorIn(p, i) != Exhausted
  {
  }

  /** With a palette without repeats, the `k`-th call of `getNextColor` hands out the `k`-th
      palette colour, and black once all are used. */
  lemma NextColorIn(p: seq<string>, k: nat)
    requires Distinct(p)
    ensures NextColor(p, UsedIn(p, k)) == (ColorIn(p, k), UsedIn(p, k + 1))
  {
    var used := UsedIn(p, k);
    if k < |p| {
      assert p[k] !in used;
      assert FirstUnused(p, used, k) by {
        forall j | 0 <= j < k ensures p[j] in used { }
      }
      assert exists i :: 0 <= i < |p| && p[i] !in used;
      var i :| FirstUnused(p, used, i) && NextColor(p, used) == (p[i], used + {p[i]});
      FirstUnusedUnique(p, used, i, k);
      assert used + {p[k]} == UsedIn(p, k + 1);
    } else {
      forall i | 0 <= i < |p| ensures p[i] in used { }
      assert UsedIn(p, k + 1) == used;
    }
  }

  /** The `k`-th call of `getNextColor` hands out the `k`-th scheme colour, and black from the
      eleventh call on. */
  lemma NextColorAt(k: nat)
    ensures NextColor(SchemeCategory10, UsedAfter(k)) == (ColorAt(k), UsedAfter(k + 1))
  {
    PaletteDistinct();
    NextColorIn(SchemeCategory10, k);
  }

  /** The graph built so far agrees with the reference description of `notes`: the remembered
      categories and colours, the links, and the category nodes in order. */
  ghost predicate Matches(g: Graph, notes: seq<Note>)
  {
    var cs := Categories(notes);
    && (forall c :: c in g.categorySet <==> c in cs)
    && g.usedColors == UsedAfter(|cs|)
    && g.links == LinksOf(notes)
    && Seqs.Filter(g.nodes, IsCategoryNode()) == CategoryNodesOf(cs)
  }

  /** A note of a category already seen adds only its node and its link. */
  lemma AddKnownCategory(g: Graph, notes: seq<Note>, n: Note)
    requires Matches(g, notes) && n.category in g.categorySet
    ensures Matches(AddNote(g, n), notes + [n])
  {
    Seqs.FirstKeysSnoc(notes, n, CategoryKey());
    var cs := Categories(notes);
    assert Categories(notes + [n]) == cs + [] == cs;
    Seqs.FilterSnoc(g.nodes, GraphNode(n.id, n.title, false, NoteColor), IsCategoryNode());
    assert LinksOf(notes + [n]) == LinksOf(notes) + [Link(n.category, n.id)];
  }

  /** A new category joins the remembered categories and takes the next colour. */
  lemma AddNewCategorySets(g: Graph, notes: seq<Note>, n: Note)
    requires Matches(g, notes) && n.category !in g.categorySet
    ensures Categories(notes + [n]) == Categories(notes) + [n.category]
    ensures forall c :: c in AddNote(g, n).categorySet <==> c in Categories(notes + [n])
    ensures AddNote(g, n).usedColors == UsedAfter(|Categories(notes + [n])|)
    ensures AddNote(g, n).links == LinksOf(notes + [n])
  {
    Seqs.FirstKeysSnoc(notes, n, CategoryKey());
    NextColorAt(|Categories(notes)|);
    assert LinksOf(notes + [n]) == LinksOf(notes) + [Link(n.category, n.id)];
  }

  /** A note of a new category adds the category's node, in the next colour, before its own. */
  lemma AddNewCategory(g: Graph, notes: seq<Note>, n: Note)
    requires Matches(g, notes) && n.category !in g.categorySet
    ensures Matches(AddNote(g, n), notes + [n])
  {
    AddNewCategorySets(g, notes, n);
    var cs := Categories(notes);
    NextColorAt(|cs|);
    var catNode := GraphNode(n.category, n.category, true, ColorAt(|cs|));
    var noteNode := GraphNode(n.id, n.title, false, NoteColor);
    FilterNewCategory(g.nodes, catNode, noteNode);
    CategoryNodesSnoc(cs, n.category);
  }

  /** The graph built from the notes matches their reference description. */
  lemma {:induction false} BuildGraphMatches(notes: seq<Note>)
    ensures Matches(BuildGraph(notes), notes)
    decreases |notes|
  {
    if |notes| == 0 {
      assert Categories(notes) == [];
      assert UsedAfter(0) == {};
    } else {
      var init := notes[..|notes| - 1];
      var n := notes[|notes| - 1];
      assert notes == init + [n];
      BuildGraphMatches(init);
      if n.category in BuildGraph(init).categorySet {
        AddKnownCategory(BuildGraph(init), init, n);
      } else {
        AddNewCategory(BuildGraph(init), init, n);
      }
    }
  }

  /** The category nodes, in order, are one per distinct category with the `k`-th palette colour. */
  lemma BuildGraphCategoryNodes(notes: seq<Note>)
    ensures Seqs.Filter(BuildGraph(notes).nodes, IsCategoryNode()) == CategoryNodesOf(Categories(notes))
  {
    BuildGraphMatches(notes);
  }

  lemma FilterNewCategory(nodes: seq<GraphNode>, catNode: GraphNode, noteNode: GraphNode)
    requires catNode.isCategory && !noteNode.isCategory
    ensures Seqs.Filter(nodes + [catNode] + [noteNode], IsCategoryNode()) == Seqs.Filter(nodes, IsCategoryNode()) + [catNode]
    ensures Seqs.Filter(nodes + [catNode] + [noteNode], IsNoteNode()) == Seqs.Filter(nodes, IsNoteNode()) + [noteNode]
  {
    Seqs.FilterSnoc(nodes, catNode, IsCategoryNode());
    Seqs.FilterSnoc(nodes + [catNode], noteNode, IsCategoryNode());
    Seqs.FilterSnoc(nodes, catNode, IsNoteNode());
    Seqs.FilterSnoc(nodes + [catNode], noteNode, IsNoteNode());
  }

  lemma CategoryNodesSnoc(cs: seq<string>, c: string)
    ensures CategoryNodesOf(cs + [c]) == CategoryNodesOf(cs) + [GraphNode(c, c, true, ColorAt(|cs|))]
  {
  }

  /** Adding a note adds exactly its grey node to the note nodes. */
  lemma AddNoteNoteNodes(g: Graph, n: Note)
    ensures Seqs.Filter(AddNote(g, n).nodes, IsNoteNode()) ==
      Seqs.Filter(g.nodes, IsNoteNode()) + [GraphNode(n.id, n.title, false, NoteColor)]
  {
    var noteNode := GraphNode(n.id, n.title, false, NoteColor);
    if n.category in g.categorySet {
      Seqs.FilterSnoc(g.nodes, noteNode, IsNoteNode());
    } else {
      var catNode := AddNote(g, n).nodes[|g.nodes|];
      FilterNewCategory(g.nodes, catNode, noteNode);
    }
  }

  /** The note nodes, in order, are one grey node per note. */
  lemma {:induction false} BuildGraphNoteNodes(notes: seq<Note>)
    ensures Seqs.Filter(BuildGraph(notes).nodes, IsNoteNode()) == NoteNodesOf(notes)
    decreases |notes|
  {
    if |notes| > 0 {
      var init := notes[..|notes| - 1];
      var n := notes[|notes| - 1];
      BuildGraphNoteNodes(init);
      AddNoteNoteNodes(BuildGraph(init), n);
      assert NoteNodesOf(notes) == NoteNodesOf(init) + [GraphNode(n.id, n.title, false, NoteColor)];
    }
  }

  // ---------------------------------------------------------------- consequences

  /** No two category nodes share an id, and there is one for every category of the notes. */
  lemma CategoryNodesDistinct(notes: seq<Note>)
    ensures var cats := Seqs.Filter(BuildGraph(notes).nodes, IsCategoryNode());
      forall i, j :: 0 <= i < j < |cats| ==> cats[i].id != cats[j].id
    ensures var cats := Seqs.Filter(BuildGraph(notes).nodes, IsCategoryNode());
      forall m :: 0 <= m < |notes| ==> exists k :: 0 <= k < |cats| && cats[k].id == notes[m].category
  {
    BuildGraphCategoryNodes(notes);
    var cs := Categories(notes);
    Seqs.FirstKeysDistinctAndComplete(notes, CategoryKey());
    var cats := CategoryNodesOf(cs);
    forall m | 0 <= m < |notes| ensures exists k :: 0 <= k < |cats| && cats[k].id == notes[m].category {
      assert CategoryKey()(notes[m]) in cs;
      var k :| 0 <= k < |cs| && cs[k] == notes[m].category;
      assert cats[k].id == cs[k];
    }
  }

  /** There is one link per note, from the note's category to the note, and the category's node is
      already in the graph when the link is added. */
  lemma LinksFromCategories(notes: seq<Note>, m: nat)
    requires m < |notes|
    ensures |BuildGraph(notes).links| == |notes|
    ensures BuildGraph(notes).links[m] == Link(notes[m].category, notes[m].id)
    ensures var before := BuildGraph(notes[..m + 1]).nodes;
      exists k :: 0 <= k < |before| && before[k].isCategory && before[k].id == notes[m].category
  {
    BuildGraphMatches(notes);
    var prefix := notes[..m + 1];
    CategoryNodesDistinct(prefix);
    var cats := Seqs.Filter(BuildGraph(prefix).nodes, IsCategoryNode());
    assert prefix[m] == notes[m];
    var k :| 0 <= k < |cats| && cats[k].id == notes[m].category;
    assert cats[k] in BuildGraph(prefix).nodes;
  }

  /** Every node that is not a category node is a grey note node, one per note. */
  lemma NoteNodesGrey(notes: seq<Note>)
    ensures var ns := Seqs.Filter(BuildGraph(notes).nodes, IsNoteNode());
      |ns| == |notes| && forall m :: 0 <= m < |ns| ==> ns[m].id == notes[m].id && ns[m].color == NoteColor
  {
    BuildGraphNoteNodes(notes);
  }

  /** The first ten category nodes each have their own colour, none of them black, however many
      categories follow. */
  lemma DistinctColorsWithinPalette(notes: seq<Note>, i: nat, j: nat)
    requires i < j < |Categories(notes)| && j < |SchemeCategory10|
    ensures var cats := Seqs.Filter(BuildGraph(notes).nodes, IsCategoryNode());
      j < |cats| && cats[i].color != cats[j].color && cats[i].color != Exhausted && cats[j].color != Exhausted
  {
    BuildGraphCategoryNodes(notes);
    PaletteDistinct();
    ColorsDistinctIn(SchemeCategory10, i, j);
    if j + 1 < |SchemeCategory10| {
      ColorsDistinctIn(SchemeCategory10, j, j + 1);
    } else {
      ColorsDistinctIn(SchemeCategory10, j - 1, j);
    }
  }

  /** From the eleventh category on, the category nodes are black. */
  lemma BlackWhenExhausted(notes: seq<Note>, k: nat)
    requires |SchemeCategory10| <= k < |Categories(notes)|
    ensures |Seqs.Filter(BuildGraph(notes).nodes, IsCategoryNode())| == |Categories(notes)|
    ensures Seqs.Filter(BuildGraph(notes).nodes, IsCategoryNode())[k].color == Exhausted
  {
    BuildGraphCategoryNodes(notes);
  }

  /** `onNodeClick`: a note node opens its note; a category node does nothing. */
  function HandleNodeClick(node: GraphNode): (route: Option<string>)
    ensures route.Some? <==> !node.isCategory
    ensures route.Some? ==> route.value == "/note/" + node.id
  {
    if !node.isCategory then Some("/note/" + node.id) else None
  }

  /** Clicking the `m`-th note node opens the `m`-th note. */
  lemma ClickOpensNote(notes: seq<Note>, m: nat)
    requires m < |notes|
    ensures var ns := Seqs.Filter(BuildGraph(notes).nodes, IsNoteNode());
      m < |ns| && HandleNodeClick(ns[m]) == Some("/note/" + notes[m].id)
  {
    BuildGraphNoteNodes(notes);
  }
}
