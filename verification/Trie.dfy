/**
  The autocomplete trie: linked nodes walked and extended in place. `entries` is the flat table the trie stands for:
  for each inserted (phrase, item) pair the last display text and the highest weight.
 */
module Tries {
  import opened Types
  import opened Sorting

  type ItemId = string

  datatype Payload = Payload(itemId: ItemId, text: string, weight: real)

  datatype Shown = Shown(text: string, weight: real)

  /** The way from the root to a node. */
  datatype Path = Root | Step(up: Path, c: char)

  function PathOf(s: string): Path {
    if s == "" then Root else Step(PathOf(s[..|s| - 1]), s[|s| - 1])
  }

  predicate Extends(p: Path, prefix: Path) {
    p == prefix || (p.Step? && Extends(p.up, prefix))
  }

  type Table = map<(Path, ItemId), Shown>

  function Max(a: real, b: real): real {
    if a >= b then a else b
  }

  function Inserted(table: Table, phrase: Path, item: ItemId, text: string, weight: real): Table {
    table[(phrase, item) := Shown(text, if (phrase, item) in table then Max(table[(phrase, item)].weight, weight) else weight)]
  }

  class TrieNode {
    var children: map<char, TrieNode>
    var isEndOfWord: bool
    var payloads: seq<Payload>
    ghost const path: Path

    constructor (ghost path: Path)
      ensures children == map[] && View() == NodeView({}, false, []) && this.path == path
    {
      this.path := path;
      children, isEndOfWord, payloads := map[], false, [];
    }

    ghost function View(): NodeView
      reads this
    {
      NodeView(children.Keys, isEndOfWord, payloads)
    }
  }

  /** A node's fields without the links: which letters lead on, and what it holds. */
  datatype NodeView = NodeView(letters: set<char>, isEndOfWord: bool, payloads: seq<Payload>)

  type Nodes = map<Path, TrieNode>
  type Views = map<Path, NodeView>

  /** `nodes` holds every node under its path, `views` is what their fields hold, and the links follow the paths. */
  ghost predicate Mirrors(root: TrieNode, nodes: Nodes, views: Views)
    reads nodes.Values
  {
    && nodes.Keys == views.Keys
    && Root in nodes && nodes[Root] == root
    && (forall p :: p in nodes ==> nodes[p].path == p && nodes[p].View() == views[p] && Linked(nodes, p, nodes[p].children))
  }

  /** The links of a node lead to the nodes of the paths one letter longer. */
  ghost predicate Linked(nodes: Nodes, p: Path, children: map<char, TrieNode>) {
    forall c :: c in children ==> Step(p, c) in nodes && children[c] == nodes[Step(p, c)]
  }

  /** The paths form a tree: each one is a letter of the path above it. */
  ghost predicate Shape(views: Views) {
    forall p {:trigger Hangs(views, p)} :: p in views ==> Hangs(views, p)
  }

  /** The path above is there, and has the letter. */
  ghost predicate Hangs(views: Views, p: Path) {
    p.Step? ==> p.up in views && p.c in views[p.up].letters
  }

  predicate HasItem(payloads: seq<Payload>, item: ItemId) {
    exists i :: 0 <= i < |payloads| && payloads[i].itemId == item
  }

  /** A payload list shows exactly the table's rows for its phrase, one per item. */
  ghost predicate Lists(payloads: seq<Payload>, table: Table, phrase: Path) {
    && (forall i, j :: 0 <= i < j < |payloads| ==> payloads[i].itemId != payloads[j].itemId)
    && (forall i :: 0 <= i < |payloads| ==>
          (phrase, payloads[i].itemId) in table && table[(phrase, payloads[i].itemId)] == Shown(payloads[i].text, payloads[i].weight))
    && (forall item :: (phrase, item) in table ==> HasItem(payloads, item))
  }

  ghost predicate Content(views: Views, table: Table) {
    && (forall p :: p in views ==> Lists(views[p].payloads, table, p) && (views[p].isEndOfWord <==> views[p].payloads != []))
    && (forall p, item :: (p, item) in table ==> p in views)
  }

  ghost function Grown(views: Views, prefix: Path, c: char): Views
    requires prefix in views
  {
    views[prefix := views[prefix].(letters := views[prefix].letters + {c})][Step(prefix, c) := NodeView({}, false, [])]
  }

  /** Hanging a new empty node under an existing one. */
  lemma GrowKeepsShape(views: Views, prefix: Path, c: char)
    requires Shape(views) && prefix in views && c !in views[prefix].letters
    ensures Step(prefix, c) !in views && Shape(Grown(views, prefix, c))
  {
    var views' := Grown(views, prefix, c);
    assert Step(prefix, c) in views ==> Hangs(views, Step(prefix, c));
    forall p | p in views' ensures Hangs(views', p) {
      if p != Step(prefix, c) {
        assert Hangs(views, p);
      }
    }
  }

  lemma GrowKeepsContent(views: Views, table: Table, prefix: Path, c: char)
    requires Content(views, table) && prefix in views && Step(prefix, c) !in views
    ensures Content(Grown(views, prefix, c), table)
  {
    var views' := Grown(views, prefix, c);
    forall p | p in views' ensures Lists(views'[p].payloads, table, p) && (views'[p].isEndOfWord <==> views'[p].payloads != []) {
      if p != Step(prefix, c) {
        assert Lists(views[p].payloads, table, p);
      }
    }
  }

  /** The first position of an item, or the length if it has none. */
  function IndexOf(payloads: seq<Payload>, item: ItemId): (k: nat)
    ensures k <= |payloads|
    ensures k < |payloads| ==> payloads[k].itemId == item
    ensures forall i :: 0 <= i < k ==> payloads[i].itemId != item
  {
    if payloads == [] || payloads[0].itemId == item then 0 else 1 + IndexOf(payloads[1..], item)
  }

  lemma FirstAt(payloads: seq<Payload>, item: ItemId, i: nat)
    requires i <= |payloads| && forall k :: 0 <= k < i ==> payloads[k].itemId != item
    requires i < |payloads| ==> payloads[i].itemId == item
    ensures IndexOf(payloads, item) == i
  {
  }

  function Upserted(payloads: seq<Payload>, payload: Payload): seq<Payload> {
    var k := IndexOf(payloads, payload.itemId);
    if k < |payloads| then payloads[k := payload.(weight := Max(payloads[k].weight, payload.weight))]
    else payloads + [payload]
  }

  ghost function Deposited(views: Views, phrase: Path, payload: Payload): Views
    requires phrase in views
  {
    views[phrase := NodeView(views[phrase].letters, true, Upserted(views[phrase].payloads, payload))]
  }

  lemma DepositKeepsShape(views: Views, phrase: Path, payload: Payload)
    requires Shape(views) && phrase in views
    ensures Shape(Deposited(views, phrase, payload))
  {
    forall p | p in views ensures Hangs(Deposited(views, phrase, payload), p) {
      assert Hangs(views, p);
    }
  }

  lemma UpsertLists(payloads: seq<Payload>, table: Table, phrase: Path, payload: Payload)
    requires Lists(payloads, table, phrase)
    ensures Lists(Upserted(payloads, payload), Inserted(table, phrase, payload.itemId, payload.text, payload.weight), phrase)
    ensures (phrase, payload.itemId) in table <==> HasItem(payloads, payload.itemId)
  {
    var k := IndexOf(payloads, payload.itemId);
    var r := Upserted(payloads, payload);
    var table' := Inserted(table, phrase, payload.itemId, payload.text, payload.weight);
    assert (phrase, payload.itemId) in table <==> k < |payloads|;
    assert r[k].itemId == payload.itemId;
    forall item | (phrase, item) in table' ensures HasItem(r, item) {
      if item != payload.itemId {
        assert (phrase, item) in table;
        var i :| 0 <= i < |payloads| && payloads[i].itemId == item;
        assert r[i].itemId == item;
      }
    }
  }

  lemma DepositKeepsContent(views: Views, table: Table, phrase: Path, payload: Payload)
    requires Content(views, table) && phrase in views
    ensures Content(Deposited(views, phrase, payload), Inserted(table, phrase, payload.itemId, payload.text, payload.weight))
    ensures (phrase, payload.itemId) in table <==> HasItem(views[phrase].payloads, payload.itemId)
  {
    var views' := Deposited(views, phrase, payload);
    var table' := Inserted(table, phrase, payload.itemId, payload.text, payload.weight);
    UpsertLists(views[phrase].payloads, table, phrase, payload);
    forall p | p in views' ensures Lists(views'[p].payloads, table', p) && (views'[p].isEndOfWord <==> views'[p].payloads != []) {
      if p != phrase {
        assert Lists(views[p].payloads, table, p);
      }
    }
  }

  /** A tree of node contents together with the table it amounts to. */
  datatype Picture0 = Picture(views: Views, entries: Table)

  type Picture = p: Picture0 | Shape(p.views) && Content(p.views, p.entries)
    ghost witness Picture(map[Root := NodeView({}, false, [])], map[])

  ghost function Grow(p: Picture, prefix: Path, c: char): (r: Picture)
    requires prefix in p.views && c !in p.views[prefix].letters
    ensures Step(prefix, c) !in p.views
  {
    GrowKeepsShape(p.views, prefix, c);
    GrowKeepsContent(p.views, p.entries, prefix, c);
    Picture(Grown(p.views, prefix, c), p.entries)
  }

  ghost function Place(p: Picture, phrase: Path, payload: Payload): (r: Picture)
    requires phrase in p.views
    ensures (phrase, payload.itemId) in p.entries <==> HasItem(p.views[phrase].payloads, payload.itemId)
  {
    DepositKeepsContent(p.views, p.entries, phrase, payload);
    DepositKeepsShape(p.views, phrase, payload);
    Picture(Deposited(p.views, phrase, payload), Inserted(p.entries, phrase, payload.itemId, payload.text, payload.weight))
  }

  /** The linked nodes by path, and the picture they draw. */
  datatype Model = Model(nodes: Nodes, picture: Picture)

  /** Makes the new node `child` the child of `node` for `c`. */
  method Link(root: TrieNode, ghost nodes: Nodes, ghost views: Views, node: TrieNode, ghost prefix: Path, c: char, child: TrieNode)
    requires Mirrors(root, nodes, views) && prefix in nodes && nodes[prefix] == node
    requires c !in node.children && Step(prefix, c) !in nodes
    requires child !in nodes.Values && child.path == Step(prefix, c) && child.View() == NodeView({}, false, [])
    modifies node
    ensures Mirrors(root, nodes[Step(prefix, c) := child], Grown(views, prefix, c))
  {
    ghost var nodes' := nodes[Step(prefix, c) := child];
    forall p | p in nodes ensures Linked(nodes', p, nodes[p].children) && nodes[p] != child && (p != prefix ==> nodes[p] != node) {
      LinkedStill(nodes, p, nodes[p].children, Step(prefix, c), child);
    }
    LinkedToo(nodes, prefix, node.children, c, child);
    LettersGrow(node.children, c, child);
    assert node.View() == views[prefix];
    node.children := node.children[c := child];
    ghost var views' := Grown(views, prefix, c);
    KeysGrow(nodes, views, prefix, c, child);
    forall p | p in nodes' ensures nodes'[p].path == p && nodes'[p].View() == views'[p] && Linked(nodes', p, nodes'[p].children) {
      if p == prefix {
        assert node.View() == views'[p];
      } else if p != Step(prefix, c) {
        assert nodes'[p] == nodes[p];
      }
    }
  }

  lemma KeysGrow(nodes: Nodes, views: Views, prefix: Path, c: char, child: TrieNode)
    requires nodes.Keys == views.Keys && prefix in views
    ensures nodes[Step(prefix, c) := child].Keys == Grown(views, prefix, c).Keys
  {
  }

  lemma LettersGrow(children: map<char, TrieNode>, c: char, child: TrieNode)
    ensures children[c := child].Keys == children.Keys + {c}
  {
  }

  lemma LinkedStill(nodes: Nodes, p: Path, children: map<char, TrieNode>, q: Path, child: TrieNode)
    requires Linked(nodes, p, children) && q !in nodes
    ensures Linked(nodes[q := child], p, children)
  {
  }

  lemma LinkedToo(nodes: Nodes, p: Path, children: map<char, TrieNode>, c: char, child: TrieNode)
    requires Linked(nodes, p, children) && Step(p, c) !in nodes
    ensures Linked(nodes[Step(p, c) := child], p, children[c := child])
  {
  }

  /** Hangs a new node under `node`, which has no child for `c`. */
  method Attach(root: TrieNode, ghost m: Model, node: TrieNode, ghost prefix: Path, c: char)
    returns (child: TrieNode, ghost m': Model)
    requires Mirrors(root, m.nodes, m.picture.views) && prefix in m.nodes && m.nodes[prefix] == node && c !in node.children
    modifies node
    ensures Mirrors(root, m'.nodes, m'.picture.views) && m'.picture.entries == m.picture.entries
    ensures fresh(child) && m'.nodes == m.nodes[Step(prefix, c) := child]
  {
    assert node.View() == m.picture.views[prefix];
    ghost var grown := Grow(m.picture, prefix, c);
    child := new TrieNode(Step(prefix, c));
    Link(root, m.nodes, m.picture.views, node, prefix, c, child);
    m' := Model(m.nodes[Step(prefix, c) := child], grown);
  }

  /** The child of `node` for `c`, created if missing. */
  method Descend(root: TrieNode, ghost m: Model, node: TrieNode, ghost prefix: Path, c: char)
    returns (next: TrieNode, ghost m': Model)
    requires Mirrors(root, m.nodes, m.picture.views) && prefix in m.nodes && m.nodes[prefix] == node
    modifies node
    ensures Mirrors(root, m'.nodes, m'.picture.views) && m'.picture.entries == m.picture.entries
    ensures m'.nodes.Values <= m.nodes.Values + {next} && (next in m.nodes.Values || fresh(next))
    ensures Step(prefix, c) in m'.nodes && m'.nodes[Step(prefix, c)] == next
  {
    if c !in node.children {
      next, m' := Attach(root, m, node, prefix, c);
    } else {
      assert Step(prefix, c) in m.nodes;
      next, m' := node.children[c], m;
    }
  }

  lemma OneStepLonger(phrase: string, i: nat)
    requires i < |phrase|
    ensures PathOf(phrase[..i + 1]) == Step(PathOf(phrase[..i]), phrase[i])
  {
    assert phrase[..i + 1][..i] == phrase[..i];
  }

  /** The node of a phrase, with the missing nodes on the way created. */
  method Walk(root: TrieNode, ghost m: Model, phrase: string) returns (node: TrieNode, ghost m': Model)
    requires Mirrors(root, m.nodes, m.picture.views)
    modifies m.nodes.Values
    ensures Mirrors(root, m'.nodes, m'.picture.views) && m'.picture.entries == m.picture.entries
    ensures fresh(m'.nodes.Values - m.nodes.Values)
    ensures PathOf(phrase) in m'.nodes && m'.nodes[PathOf(phrase)] == node
  {
    node, m' := root, m;
    for i := 0 to |phrase|
      invariant Mirrors(root, m'.nodes, m'.picture.views) && m'.picture.entries == m.picture.entries
      invariant fresh(m'.nodes.Values - m.nodes.Values)
      invariant PathOf(phrase[..i]) in m'.nodes && m'.nodes[PathOf(phrase[..i])] == node
    {
      OneStepLonger(phrase, i);
      assert node in m'.nodes.Values;
      node, m' := Descend(root, m', node, PathOf(phrase[..i]), phrase[i]);
    }
    assert phrase[..|phrase|] == phrase;
  }

  /** Adds a payload at a node, or renews the one its item already has there. */
  method Deposit(root: TrieNode, ghost m: Model, node: TrieNode, ghost phrase: Path, payload: Payload)
    returns (known: bool, ghost m': Model)
    requires Mirrors(root, m.nodes, m.picture.views) && phrase in m.nodes && m.nodes[phrase] == node
    modifies node
    ensures Mirrors(root, m'.nodes, m'.picture.views) && m' == Model(m.nodes, Place(m.picture, phrase, payload))
    ensures known <==> (phrase, payload.itemId) in m.picture.entries
  {
    known := Rewrite(root, m.nodes, m.picture.views, node, phrase, payload);
    m' := Model(m.nodes, Place(m.picture, phrase, payload));
  }

  method Rewrite(root: TrieNode, ghost nodes: Nodes, ghost views: Views, node: TrieNode, ghost phrase: Path, payload: Payload)
    returns (known: bool)
    requires Mirrors(root, nodes, views) && phrase in nodes && nodes[phrase] == node
    modifies node
    ensures Mirrors(root, nodes, Deposited(views, phrase, payload))
    ensures known == HasItem(views[phrase].payloads, payload.itemId)
  {
    assert node.View() == views[phrase];
    known := Renew(node, payload);
  }

  /** The loop over a node's payloads: the first one of the same item is renewed with the higher weight. */
  method Renew(node: TrieNode, payload: Payload) returns (known: bool)
    modifies node
    ensures node.children == old(node.children)
    ensures node.View() == NodeView(node.children.Keys, true, Upserted(old(node.payloads), payload))
    ensures known == HasItem(old(node.payloads), payload.itemId)
  {
    ghost var before := node.payloads;
    node.isEndOfWord := true;
    for i := 0 to |node.payloads|
      invariant node.payloads == before && node.children == old(node.children) && node.isEndOfWord
      invariant forall k :: 0 <= k < i ==> before[k].itemId != payload.itemId
    {
      if node.payloads[i].itemId == payload.itemId {
        FirstAt(before, payload.itemId, i);
        node.payloads := node.payloads[i := payload.(weight := Max(node.payloads[i].weight, payload.weight))];
        return true;
      }
    }
    FirstAt(before, payload.itemId, |before|);
    node.payloads := node.payloads + [payload];
    known := false;
  }

  class AutocompleteTrie {
    const normalize: string -> string
    const root: TrieNode
    var totalEntries: nat
    ghost var model: Model

    ghost predicate Valid()
      reads this, model.nodes.Values
    {
      Mirrors(root, model.nodes, model.picture.views) && totalEntries == |Entries()|
    }

    ghost function Entries(): Table
      reads this
    {
      model.picture.entries
    }

    constructor (normalize: string -> string)
      ensures Valid() && fresh(model.nodes.Values) && this.normalize == normalize && Entries() == map[]
    {
      this.normalize := normalize;
      var r := new TrieNode(Root);
      root, totalEntries := r, 0;
      model := Model(map[Root := r], Picture(map[Root := NodeView({}, false, [])], map[]));
    }

    /** A phrase that normalises to nothing is ignored. */
    method Insert(phrase: string, itemId: ItemId, displayText: string, weight: real)
      requires Valid()
      modifies this, model.nodes.Values
      ensures Valid() && fresh(model.nodes.Values - old(model.nodes.Values))
      ensures Entries() == if normalize(phrase) == "" then old(Entries())
                           else Inserted(old(Entries()), PathOf(normalize(phrase)), itemId, displayText, weight)
    {
      var normalized := normalize(phrase);
      if normalized == "" {
        return;
      }
      var node, m := Walk(root, model, normalized);
      assert node in m.nodes.Values;
      var known, m' := Deposit(root, m, node, PathOf(normalized), Payload(itemId, displayText, weight));
      Commit(known, m');
    }

    method Commit(known: bool, ghost m: Model)
      requires Mirrors(root, m.nodes, m.picture.views)
      requires totalEntries + (if known then 0 else 1) == |m.picture.entries|
      modifies this
      ensures Valid() && model == m
    {
      if !known {
        totalEntries := totalEntries + 1;
      }
      model := m;
    }
 
    /** The number of distinct (phrase, item) pairs inserted. */
    function Size(): (n: nat)
      requires Valid()
      reads this, model.nodes.Values
      ensures n == |Entries()|
    {
      totalEntries
    }

    /**
      The flat scan's answer: every item with an inserted phrase under the prefix, once, at its highest weight, in order
      of falling weight and then text, cut at the limit. An empty prefix gives nothing, one that is only blank gives all.
     */
    method SearchPrefix(prefix: string, limit: int) returns (hits: seq<Hit>, ghost ranked: seq<Hit>)
      requires Valid()
      ensures prefix == "" ==> hits == []
      ensures prefix != "" ==> Answers(ranked, Entries(), PathOf(normalize(prefix))) && hits == Cut(ranked, limit)
    {
      if prefix == "" {
        return [], [];
      }
      var sorted := Suggest(root, model, normalize(prefix));
      ranked := sorted;
      hits := Cut(sorted, limit);
    }
  }

  method Suggest(root: TrieNode, ghost m: Model, prefix: string) returns (ranked: seq<Hit>)
    requires Mirrors(root, m.nodes, m.picture.views)
    ensures Answers(ranked, m.picture.entries, PathOf(prefix))
  {
    var node := Find(root, m, prefix);
    if node == null {
      return [];
    }
    var best := Gather(root, m, node, PathOf(prefix));
    var rows := Rows(best);
    BestRowsAnswer(rows, best, m.picture.entries, PathOf(prefix), m.picture.views);
    ranked := Sort(rows, Before);
  }

  // ---- what a search answers

  datatype Hit = Hit(id: ItemId, text: string, weight: real)

  /** Text order: by the first character that differs. */
  predicate TextLess(a: string, b: string) {
    b != "" && (a == "" || a[0] < b[0] || (a[0] == b[0] && TextLess(a[1..], b[1..])))
  }

  predicate Before(a: Hit, b: Hit) {
    a.weight > b.weight || (a.weight == b.weight && TextLess(a.text, b.text))
  }

  ghost predicate Row(table: Table, q: Path, item: ItemId, p: Path) {
    Extends(p, q) && (p, item) in table
  }

  ghost predicate Matches(table: Table, q: Path, item: ItemId) {
    exists p :: Row(table, q, item, p)
  }

  /** The hit is one of its item's rows under `q`, and no other of them weighs more. */
  ghost predicate Heaviest(table: Table, q: Path, h: Hit) {
    && (exists p :: Row(table, q, h.id, p) && table[(p, h.id)] == Shown(h.text, h.weight))
    && (forall p :: Row(table, q, h.id, p) ==> table[(p, h.id)].weight <= h.weight)
  }

  ghost predicate ListedHit(hits: seq<Hit>, item: ItemId) {
    exists i :: 0 <= i < |hits| && hits[i].id == item
  }

  ghost predicate Answers(ranked: seq<Hit>, table: Table, q: Path) {
    && Sorted(ranked, Before)
    && DistinctBy(ranked, (h: Hit) => h.id)
    && (forall item :: ListedHit(ranked, item) <==> Matches(table, q, item))
    && (forall h :: h in ranked ==> Heaviest(table, q, h))
  }

  lemma {:induction false} TextLessAsymmetric(a: string, b: string)
    ensures TextLess(a, b) ==> !TextLess(b, a)
  {
    if a != "" && b != "" {
      TextLessAsymmetric(a[1..], b[1..]);
    }
  }

  lemma {:induction false} TextNotLessTransitive(a: string, b: string, c: string)
    ensures !TextLess(a, b) && !TextLess(b, c) ==> !TextLess(a, c)
  {
    if a != "" && b != "" && c != "" {
      TextNotLessTransitive(a[1..], b[1..], c[1..]);
    }
  }

  lemma BeforeIsStrictWeakOrder()
    ensures StrictWeakOrder(Before)
  {
    forall a, b | Before(a, b) ensures !Before(b, a) {
      TextLessAsymmetric(a.text, b.text);
    }
    forall a, b, c | !Before(a, b) && !Before(b, c) ensures !Before(a, c) {
      TextNotLessTransitive(a.text, b.text, c.text);
    }
  }

  /** Text order told by positions: at the first difference the smaller character, or the end, comes first. */
  ghost predicate DiffersAt(a: string, b: string, k: nat) {
    && k <= |a| && k < |b| && a[..k] == b[..k]
    && (k == |a| || a[k] < b[k])
  }

  lemma TextLessIff(a: string, b: string)
    ensures TextLess(a, b) <==> exists k: nat :: DiffersAt(a, b, k)
  {
    if TextLess(a, b) {
      var k := FirstDifference(a, b);
    }
    if k: nat :| DiffersAt(a, b, k) {
      DifferenceDecides(a, b, k);
    }
  }

  lemma {:induction false} FirstDifference(a: string, b: string) returns (k: nat)
    requires TextLess(a, b)
    ensures DiffersAt(a, b, k)
  {
    k := 0;
    if a != "" && a[0] == b[0] {
      var rest := FirstDifference(a[1..], b[1..]);
      k := rest + 1;
      assert a[..k] == [a[0]] + a[1..][..rest] && b[..k] == [b[0]] + b[1..][..rest];
    }
  }

  lemma {:induction false} DifferenceDecides(a: string, b: string, k: nat)
    requires DiffersAt(a, b, k)
    ensures TextLess(a, b)
  {
    if k > 0 {
      assert a[0] == a[..k][0] == b[..k][0] == b[0];
      assert a[1..][..k - 1] == a[..k][1..] && b[1..][..k - 1] == b[..k][1..];
      DifferenceDecides(a[1..], b[1..], k - 1);
    }
  }

  /** Heavier answers come first, and of equal weight the one whose text is not greater. */
  lemma AnswersByWeightThenText(ranked: seq<Hit>, table: Table, q: Path, i: nat, j: nat)
    requires Answers(ranked, table, q) && i < j < |ranked|
    ensures ranked[i].weight >= ranked[j].weight
    ensures ranked[i].weight == ranked[j].weight ==> forall k: nat :: !DiffersAt(ranked[j].text, ranked[i].text, k)
  {
    TextLessIff(ranked[j].text, ranked[i].text);
  }

  // ---- paths

  lemma {:induction false} ExtendsTransitive(a: Path, b: Path, c: Path)
    requires Extends(a, b) && Extends(b, c)
    ensures Extends(a, c)
  {
    if a != b {
      ExtendsTransitive(a.up, b, c);
    }
  }

  lemma {:induction false} CommonExtension(x: Path, a: Path, b: Path)
    requires Extends(x, a) && Extends(x, b)
    ensures Extends(a, b) || Extends(b, a)
  {
    if x != a && x != b {
      CommonExtension(x.up, a, b);
    }
  }

  function Depth(p: Path): nat {
    if p.Root? then 0 else 1 + Depth(p.up)
  }

  lemma {:induction false} ExtendsDeeper(p: Path, q: Path)
    requires Extends(p, q)
    ensures Depth(p) >= Depth(q) && (Depth(p) == Depth(q) ==> p == q)
  {
    if p != q {
      ExtendsDeeper(p.up, q);
    }
  }

  /** Paths are prefixes exactly when the strings are. */
  lemma {:induction false} ExtendsIsPrefix(s: string, q: string)
    ensures Extends(PathOf(s), PathOf(q)) <==> q <= s
    ensures PathOf(s) == PathOf(q) <==> s == q
    decreases |s| + |q|
  {
    if s != "" {
      ExtendsIsPrefix(s[..|s| - 1], q);
      if q != "" {
        ExtendsIsPrefix(s[..|s| - 1], q[..|q| - 1]);
        assert s == s[..|s| - 1] + [s[|s| - 1]] && q == q[..|q| - 1] + [q[|q| - 1]];
      }
    }
  }

  lemma {:induction false} AncestorsPresent(views: Views, p: Path, q: Path)
    requires Shape(views) && p in views && Extends(p, q)
    ensures q in views
  {
    assert Hangs(views, p);
    if p != q {
      AncestorsPresent(views, p.up, q);
    }
  }

  /** A node strictly below `p` is below one of `p`'s letters. */
  lemma {:induction false} BelowALetter(views: Views, x: Path, p: Path) returns (c: char)
    requires Shape(views) && x in views && Extends(x, p) && x != p
    ensures p in views && c in views[p].letters && Extends(x, Step(p, c))
  {
    AncestorsPresent(views, x, p);
    assert Hangs(views, x);
    if x.up == p {
      c := x.c;
    } else {
      c := BelowALetter(views, x.up, p);
    }
  }

  /** Following the prefix; null when a letter is missing, and then nothing lies under the prefix. */
  method Find(root: TrieNode, ghost m: Model, prefix: string) returns (node: TrieNode?)
    requires Mirrors(root, m.nodes, m.picture.views)
    ensures node != null ==> PathOf(prefix) in m.nodes && m.nodes[PathOf(prefix)] == node
    ensures node == null ==> Answers([], m.picture.entries, PathOf(prefix))
  {
    node := root;
    ghost var path := Root;
    for i := 0 to |prefix|
      invariant node != null && path == PathOf(prefix[..i]) && path in m.nodes && m.nodes[path] == node
    {
      assert prefix[..i + 1][..i] == prefix[..i];
      if prefix[i] !in node.children {
        NothingUnder(m, prefix, i);
        return null;
      }
      path := Step(path, prefix[i]);
      node := node.children[prefix[i]];
    }
    assert prefix[..|prefix|] == prefix;
  }

  lemma NothingUnder(m: Model, prefix: string, i: nat)
    requires i < |prefix| && PathOf(prefix[..i]) in m.picture.views
    requires prefix[i] !in m.picture.views[PathOf(prefix[..i])].letters
    ensures Answers([], m.picture.entries, PathOf(prefix))
  {
    var views, table := m.picture.views, m.picture.entries;
    assert prefix[..i + 1][..i] == prefix[..i];
    var missing := PathOf(prefix[..i + 1]);
    assert missing.up == PathOf(prefix[..i]) && missing.c == prefix[i];
    assert missing in views ==> Hangs(views, missing);
    assert missing !in views;
    ExtendsIsPrefix(prefix, prefix[..i + 1]);
    forall item, p ensures !Row(table, PathOf(prefix), item, p) {
      if Row(table, PathOf(prefix), item, p) {
        ExtendsTransitive(p, PathOf(prefix), missing);
        AncestorsPresent(views, p, missing);
      }
    }
  }

  // ---- the best row of each item over a set of nodes

  type Best = map<ItemId, Shown>

  function Improve(best: Best, p: Payload): Best {
    if p.itemId !in best || p.weight > best[p.itemId].weight then best[p.itemId := Shown(p.text, p.weight)] else best
  }

  ghost predicate SeenRow(table: Table, seen: set<Path>, item: ItemId, p: Path) {
    p in seen && (p, item) in table
  }

  ghost predicate BestOver(best: Best, table: Table, seen: set<Path>) {
    && (forall item :: item in best <==> exists p :: SeenRow(table, seen, item, p))
    && (forall item :: item in best ==> exists p :: SeenRow(table, seen, item, p) && table[(p, item)] == best[item])
    && (forall item, p :: item in best && SeenRow(table, seen, item, p) ==> table[(p, item)].weight <= best[item].weight)
  }

  ghost predicate ImprovedAt(best: Best, p: Payload, after: Best) {
    p.itemId in after && after[p.itemId] == Improve(best, p)[p.itemId]
  }

  /** `after` is `best` improved by the payloads, each of another item. */
  ghost predicate Improved(best: Best, payloads: seq<Payload>, after: Best) {
    && (forall i :: 0 <= i < |payloads| ==> ImprovedAt(best, payloads[i], after))
    && (forall item :: !HasItem(payloads, item) ==> (item in after <==> item in best) && (item in best ==> after[item] == best[item]))
  }

  method Absorb(best: Best, payloads: seq<Payload>) returns (after: Best)
    requires forall i, j :: 0 <= i < j < |payloads| ==> payloads[i].itemId != payloads[j].itemId
    ensures Improved(best, payloads, after)
  {
    after := best;
    for k := 0 to |payloads|
      invariant Improved(best, payloads[..k], after)
    {
      assert payloads[..k + 1] == payloads[..k] + [payloads[k]];
      ImprovedOneMore(best, payloads[..k], payloads[k], after);
      after := Improve(after, payloads[k]);
    }
    assert payloads[..|payloads|] == payloads;
  }

  lemma ImprovedOneMore(best: Best, done: seq<Payload>, p: Payload, after: Best)
    requires Improved(best, done, after) && !HasItem(done, p.itemId)
    ensures Improved(best, done + [p], Improve(after, p))
  {
    var next := done + [p];
    forall i | 0 <= i < |next| ensures ImprovedAt(best, next[i], Improve(after, p)) {
      if i < |done| {
        assert ImprovedAt(best, done[i], after);
      }
    }
    forall item ensures HasItem(next, item) <==> HasItem(done, item) || item == p.itemId {
      OneMoreItem(done, p, item);
    }
  }

  lemma OneMoreItem(payloads: seq<Payload>, p: Payload, item: ItemId)
    ensures HasItem(payloads + [p], item) <==> HasItem(payloads, item) || item == p.itemId
  {
    assert (payloads + [p])[|payloads|] == p;
    if i :| 0 <= i < |payloads| && payloads[i].itemId == item {
      assert (payloads + [p])[i].itemId == item;
    }
  }

  lemma ImprovedIsBest(best: Best, payloads: seq<Payload>, after: Best, table: Table, seen: set<Path>, p: Path)
    requires BestOver(best, table, seen) && Lists(payloads, table, p) && Improved(best, payloads, after) && p !in seen
    ensures BestOver(after, table, seen + {p})
  {
    var seen' := seen + {p};
    forall item
      ensures item in after <==> exists x :: SeenRow(table, seen', item, x)
      ensures item in after ==> exists x :: SeenRow(table, seen', item, x) && table[(x, item)] == after[item]
      ensures item in after ==> forall x :: SeenRow(table, seen', item, x) ==> table[(x, item)].weight <= after[item].weight
    {
      forall x ensures SeenRow(table, seen', item, x) <==> SeenRow(table, seen, item, x) || (x == p && (p, item) in table) {}
      assert HasItem(payloads, item) <==> (p, item) in table;
      if HasItem(payloads, item) {
        var i :| 0 <= i < |payloads| && payloads[i].itemId == item;
        assert ImprovedAt(best, payloads[i], after);
        assert SeenRow(table, seen', item, p) && table[(p, item)] == Shown(payloads[i].text, payloads[i].weight);
        if item in best {
          var x :| SeenRow(table, seen, item, x) && table[(x, item)] == best[item];
          assert SeenRow(table, seen', item, x);
        }
      } else if item in best {
        var x :| SeenRow(table, seen, item, x) && table[(x, item)] == best[item];
        assert SeenRow(table, seen', item, x);
      }
    }
  }

  // ---- the traversal

  ghost predicate OnStack(paths: seq<Path>, p: Path) {
    exists i :: 0 <= i < |paths| && Extends(p, paths[i])
  }

  /** Every node under `q` is seen or under a stacked one; stacked subtrees are disjoint from each other and from `seen`. */
  ghost predicate Frontier(views: Views, q: Path, paths: seq<Path>, seen: set<Path>) {
    && (forall p :: p in seen ==> p in views && Extends(p, q))
    && (forall i :: 0 <= i < |paths| ==> paths[i] in views && Extends(paths[i], q))
    && (forall p :: p in views && Extends(p, q) ==> p in seen || OnStack(paths, p))
    && (forall p :: p in seen ==> !OnStack(paths, p))
    && (forall i, j :: 0 <= i < |paths| && 0 <= j < |paths| && i != j ==> !Extends(paths[i], paths[j]))
  }

  function Steps(p: Path, letters: seq<char>): seq<Path> {
    if letters == [] then [] else Steps(p, letters[..|letters| - 1]) + [Step(p, letters[|letters| - 1])]
  }

  lemma {:induction false} StepsAt(p: Path, letters: seq<char>)
    ensures |Steps(p, letters)| == |letters|
    ensures forall i :: 0 <= i < |letters| ==> Steps(p, letters)[i] == Step(p, letters[i])
  {
    if letters != [] {
      StepsAt(p, letters[..|letters| - 1]);
    }
  }

  ghost predicate Lettering(letters: seq<char>, chars: set<char>) {
    && (forall c :: c in letters <==> c in chars)
    && (forall i, j :: 0 <= i < j < |letters| ==> letters[i] != letters[j])
  }

  lemma StackedIsBelow(rest: seq<Path>, p: Path, q: Path, letters: seq<char>, i: nat)
    requires Extends(p, q) && i < |letters|
    ensures |Steps(p, letters)| == |letters|
    ensures var a := (rest + Steps(p, letters))[|rest| + i];
            a == Step(p, letters[i]) && Extends(a, q) && Extends(a, p) && !Extends(p, a)
  {
    StepsAt(p, letters);
    var a := Step(p, letters[i]);
    ExtendsTransitive(a, p, q);
    if Extends(p, a) {
      ExtendsDeeper(p, a);
    }
  }

  /** A node not yet seen and not the popped one is still under a stacked one. */
  lemma StillOnStack(views: Views, rest: seq<Path>, p: Path, letters: seq<char>, x: Path)
    requires Shape(views) && Grounded(views) && p in views && x in views && Lettering(letters, views[p].letters)
    requires OnStack(rest + [p], x) && x != p
    ensures OnStack(rest + Steps(p, letters), x)
  {
    var before, after := rest + [p], rest + Steps(p, letters);
    StepsAt(p, letters);
    var i :| 0 <= i < |before| && Extends(x, before[i]);
    if i < |rest| {
      assert after[i] == before[i];
    } else {
      var c := BelowALetter(views, x, p);
      var k :| 0 <= k < |letters| && letters[k] == c;
      assert after[|rest| + k] == Step(p, c);
    }
  }

  /** And a seen one is still under none. */
  lemma StillOffStack(rest: seq<Path>, p: Path, letters: seq<char>, x: Path)
    requires !OnStack(rest + [p], x) || (x == p && forall i :: 0 <= i < |rest| ==> !Extends(p, rest[i]))
    ensures !OnStack(rest + Steps(p, letters), x)
  {
    var before, after := rest + [p], rest + Steps(p, letters);
    StepsAt(p, letters);
    forall i | 0 <= i < |after| ensures !Extends(x, after[i]) {
      if Extends(x, after[i]) {
        if i < |rest| {
          assert Extends(x, before[i]);
        } else {
          StackedIsBelow(rest, p, p, letters, i - |rest|);
          ExtendsTransitive(x, after[i], p);
          assert Extends(x, before[|rest|]);
        }
        assert OnStack(before, x);
      }
    }
  }

  /** Seeing the popped node and stacking its children. */
  lemma PopKeepsFrontier(views: Views, q: Path, rest: seq<Path>, p: Path, seen: set<Path>, letters: seq<char>)
    requires Shape(views) && Grounded(views) && Frontier(views, q, rest + [p], seen) && p in views
    requires Lettering(letters, views[p].letters)
    ensures p !in seen && Extends(p, q)
    ensures Frontier(views, q, rest + Steps(p, letters), seen + {p})
  {
    var before, after := rest + [p], rest + Steps(p, letters);
    StepsAt(p, letters);
    assert before[|rest|] == p;
    assert OnStack(before, p);
    forall i | 0 <= i < |rest| ensures rest[i] in views && Extends(rest[i], q) && !Extends(rest[i], p) && !Extends(p, rest[i]) {
      assert before[i] == rest[i];
    }
    forall i | 0 <= i < |after| ensures after[i] in views && Extends(after[i], q) {
      if i >= |rest| {
        StackedIsBelow(rest, p, q, letters, i - |rest|);
        assert letters[i - |rest|] in letters;
      }
    }
    forall x | x in views && Extends(x, q) ensures x in seen + {p} || OnStack(after, x) {
      if x !in seen + {p} {
        StillOnStack(views, rest, p, letters, x);
      }
    }
    forall x | x in seen + {p} ensures !OnStack(after, x) {
      StillOffStack(rest, p, letters, x);
    }
    forall i, j | 0 <= i < |rest| && 0 <= j < |rest| && i != j ensures !Extends(rest[i], rest[j]) {
      assert before[i] == rest[i] && before[j] == rest[j];
    }
    forall i, j | 0 <= i < |after| && 0 <= j < |after| && i != j ensures !Extends(after[i], after[j]) {
      StackedApart(rest, p, letters, i, j);
    }
  }

  lemma StackedApart(rest: seq<Path>, p: Path, letters: seq<char>, i: nat, j: nat)
    requires forall a, b :: 0 <= a < |rest| && 0 <= b < |rest| && a != b ==> !Extends(rest[a], rest[b])
    requires forall a :: 0 <= a < |rest| ==> !Extends(rest[a], p) && !Extends(p, rest[a])
    requires forall a, b :: 0 <= a < b < |letters| ==> letters[a] != letters[b]
    requires i < |rest + Steps(p, letters)| && j < |rest + Steps(p, letters)| && i != j
    ensures !Extends((rest + Steps(p, letters))[i], (rest + Steps(p, letters))[j])
  {
    StepsAt(p, letters);
    var after := rest + Steps(p, letters);
    var a, b := after[i], after[j];
    if i < |rest| && j >= |rest| {
      if Extends(a, b) {
        ExtendsTransitive(a, b, p);
      }
    } else if i >= |rest| && j < |rest| {
      assert Extends(a, p) && a.up == p;
    } else if i >= |rest| && Extends(a, b) {
      ExtendsDeeper(a, b);
      assert Depth(a) == Depth(b);
    }
  }

  /** Every letter leads to a node. */
  ghost predicate Grounded(views: Views) {
    forall p, c {:trigger Step(p, c)} :: p in views && c in views[p].letters ==> Step(p, c) in views
  }

  lemma LinksAreGrounded(root: TrieNode, nodes: Nodes, views: Views)
    requires Mirrors(root, nodes, views)
    ensures Grounded(views)
  {
    forall p, c {:trigger Step(p, c)} | p in views && c in views[p].letters ensures Step(p, c) in views {
      assert nodes[p].View() == views[p];
    }
  }

  /** The stacked nodes are those of the stacked paths. */
  ghost predicate Stacks(nodes: Nodes, stack: seq<TrieNode>, paths: seq<Path>) {
    |stack| == |paths| && forall i :: 0 <= i < |paths| ==> paths[i] in nodes && nodes[paths[i]] == stack[i]
  }

  method PushChildren(root: TrieNode, ghost nodes: Nodes, ghost views: Views, node: TrieNode, ghost p: Path,
                      stack: seq<TrieNode>, ghost paths: seq<Path>)
    returns (stack': seq<TrieNode>, ghost letters: seq<char>)
    requires Mirrors(root, nodes, views) && p in nodes && nodes[p] == node && Stacks(nodes, stack, paths)
    ensures Lettering(letters, views[p].letters) && Stacks(nodes, stack', paths + Steps(p, letters))
  {
    stack', letters := stack, [];
    assert node.View() == views[p];
    var left := node.children.Keys;
    while left != {}
      invariant left <= node.children.Keys
      invariant Lettering(letters, node.children.Keys - left)
      invariant Stacks(nodes, stack', paths + Steps(p, letters))
      decreases left
    {
      var c :| c in left;
      assert Step(p, c) in nodes;
      ghost var letters' := letters + [c];
      assert letters'[..|letters|] == letters;
      assert paths + Steps(p, letters') == (paths + Steps(p, letters)) + [Step(p, c)];
      stack', left, letters := stack' + [node.children[c]], left - {c}, letters';
    }
  }

  ghost function Under(views: Views, q: Path): set<Path> {
    set p | p in views && Extends(p, q)
  }

  lemma StartFrontier(views: Views, q: Path)
    requires q in views
    ensures Frontier(views, q, [q], {})
  {
    forall p | Extends(p, q) ensures OnStack([q], p) {
      assert Extends(p, [q][0]);
    }
  }

  lemma EmptyStackMeansAll(views: Views, q: Path, seen: set<Path>)
    requires Frontier(views, q, [], seen)
    ensures seen == Under(views, q)
  {
    forall p | p in Under(views, q) ensures p in seen {
      assert !OnStack([], p);
    }
  }

  /** The traversal by an explicit stack, keeping the best row of every item met. */
  method Gather(root: TrieNode, ghost m: Model, start: TrieNode, ghost q: Path) returns (best: Best)
    requires Mirrors(root, m.nodes, m.picture.views) && q in m.nodes && m.nodes[q] == start
    ensures BestOver(best, m.picture.entries, Under(m.picture.views, q))
  {
    ghost var views := m.picture.views;
    best := map[];
    var stack := [start];
    ghost var paths, seen: set<Path> := [q], {};
    StartFrontier(views, q);
    while stack != []
      invariant Stacks(m.nodes, stack, paths) && Frontier(views, q, paths, seen)
      invariant BestOver(best, m.picture.entries, seen)
      decreases Under(views, q) - seen
    {
      ghost var p := paths[|paths| - 1];
      best, stack, paths := PopAndPush(root, m, q, best, stack, paths, seen);
      seen := seen + {p};
    }
    EmptyStackMeansAll(views, q, seen);
  }

  method PopAndPush(
    root: TrieNode, ghost m: Model, ghost q: Path, best: Best, stack: seq<TrieNode>, ghost paths: seq<Path>, ghost seen: set<Path>)
    returns (best': Best, stack': seq<TrieNode>, ghost paths': seq<Path>)
    requires Mirrors(root, m.nodes, m.picture.views) && stack != []
    requires Stacks(m.nodes, stack, paths) && Frontier(m.picture.views, q, paths, seen)
    requires BestOver(best, m.picture.entries, seen)
    ensures paths[|paths| - 1] !in seen && paths[|paths| - 1] in Under(m.picture.views, q)
    ensures Stacks(m.nodes, stack', paths') && Frontier(m.picture.views, q, paths', seen + {paths[|paths| - 1]})
    ensures BestOver(best', m.picture.entries, seen + {paths[|paths| - 1]})
  {
    var n := |stack| - 1;
    ghost var rest, p := paths[..n], paths[n];
    var curr := stack[n];
    assert paths == rest + [p];
    assert curr.View() == m.picture.views[p];
    ghost var letters;
    stack', letters := PushChildren(root, m.nodes, m.picture.views, curr, p, stack[..n], rest);
    LinksAreGrounded(root, m.nodes, m.picture.views);
    PopKeepsFrontier(m.picture.views, q, rest, p, seen, letters);
    best' := Visit(best, curr, m.picture.entries, seen, p);
    paths' := rest + Steps(p, letters);
  }

  method Visit(best: Best, node: TrieNode, ghost table: Table, ghost seen: set<Path>, ghost p: Path) returns (after: Best)
    requires BestOver(best, table, seen) && p !in seen
    requires Lists(node.payloads, table, p) && (node.isEndOfWord <==> node.payloads != [])
    ensures BestOver(after, table, seen + {p})
  {
    after := best;
    if node.isEndOfWord {
      after := Absorb(best, node.payloads);
    }
    ImprovedIsBest(best, node.payloads, after, table, seen, p);
  }

  method Rows(best: Best) returns (rows: seq<Hit>)
    ensures DistinctBy(rows, (h: Hit) => h.id)
    ensures forall item :: ListedHit(rows, item) <==> item in best
    ensures forall h :: h in rows ==> h.id in best && best[h.id] == Shown(h.text, h.weight)
  {
    rows := [];
    var left := best.Keys;
    while left != {}
      invariant left <= best.Keys
      invariant DistinctBy(rows, (h: Hit) => h.id)
      invariant forall item :: ListedHit(rows, item) <==> item in best.Keys - left
      invariant forall h :: h in rows ==> h.id in best && best[h.id] == Shown(h.text, h.weight)
      decreases left
    {
      var item :| item in left;
      var h := Hit(item, best[item].text, best[item].weight);
      assert !ListedHit(rows, item);
      ListedOneMore(rows, h);
      rows, left := rows + [h], left - {item};
    }
  }

  lemma ListedOneMore(rows: seq<Hit>, h: Hit)
    ensures forall item :: ListedHit(rows + [h], item) <==> ListedHit(rows, item) || item == h.id
  {
    forall item ensures ListedHit(rows + [h], item) <==> ListedHit(rows, item) || item == h.id {
      assert (rows + [h])[|rows|] == h;
      if i :| 0 <= i < |rows| && rows[i].id == item {
        assert (rows + [h])[i].id == item;
      }
    }
  }

  lemma SortListsTheSame(rows: seq<Hit>)
    ensures forall h :: h in Sort(rows, Before) <==> h in rows
    ensures forall item :: ListedHit(Sort(rows, Before), item) <==> ListedHit(rows, item)
  {
    var ranked := Sort(rows, Before);
    BeforeIsStrictWeakOrder();
    SortIsStable(rows, Before);
    PermutationKeepsMembers(rows, ranked);
    forall item ensures ListedHit(ranked, item) <==> ListedHit(rows, item) {
      if i :| 0 <= i < |rows| && rows[i].id == item { assert rows[i] in ranked; }
      if i :| 0 <= i < |ranked| && ranked[i].id == item { assert ranked[i] in rows; }
    }
  }

  /** What was kept as best among the nodes under `q` matches there, and is the heaviest that does. */
  lemma BestIsHeaviest(best: Best, table: Table, q: Path, views: Views, item: ItemId)
    requires BestOver(best, table, Under(views, q)) && Content(views, table)
    ensures item in best <==> Matches(table, q, item)
    ensures item in best ==> Heaviest(table, q, Hit(item, best[item].text, best[item].weight))
  {
    var seen := Under(views, q);
    forall p ensures SeenRow(table, seen, item, p) <==> Row(table, q, item, p) {}
    if p :| Row(table, q, item, p) {
      assert SeenRow(table, seen, item, p);
    }
    if item in best {
      var p :| SeenRow(table, seen, item, p) && table[(p, item)] == best[item];
      assert Row(table, q, item, p);
    }
  }

  lemma BestRowsAnswer(rows: seq<Hit>, best: Best, table: Table, q: Path, views: Views)
    requires BestOver(best, table, Under(views, q)) && Content(views, table)
    requires DistinctBy(rows, (h: Hit) => h.id)
    requires forall item :: ListedHit(rows, item) <==> item in best
    requires forall h :: h in rows ==> h.id in best && best[h.id] == Shown(h.text, h.weight)
    ensures Answers(Sort(rows, Before), table, q)
  {
    BeforeIsStrictWeakOrder();
    SortIsStable(rows, Before);
    PermutationKeepsDistinct(rows, Sort(rows, Before), (h: Hit) => h.id);
    SortListsTheSame(rows);
    forall item
      ensures ListedHit(rows, item) <==> Matches(table, q, item)
      ensures item in best ==> Heaviest(table, q, Hit(item, best[item].text, best[item].weight))
    {
      BestIsHeaviest(best, table, q, views, item);
    }
    forall h | h in Sort(rows, Before) ensures Heaviest(table, q, h) {
      assert h == Hit(h.id, best[h.id].text, best[h.id].weight);
    }
  }

  // ---- the table after a run of inserts, and searches in terms of strings

  /** An insertion with its phrase already normalised. */
  datatype Insertion = Insertion(phrase: string, item: ItemId, text: string, weight: real)

  function TableAfter(run: seq<Insertion>): Table {
    if run == [] then map[]
    else
      var before, last := TableAfter(run[..|run| - 1]), run[|run| - 1];
      if last.phrase == "" then before else Inserted(before, PathOf(last.phrase), last.item, last.text, last.weight)
  }

  ghost predicate Names(i: Insertion, phrase: string, item: ItemId) {
    i.phrase == phrase && phrase != "" && i.item == item
  }

  ghost predicate Enters(run: seq<Insertion>, phrase: string, item: ItemId) {
    exists k :: 0 <= k < |run| && Names(run[k], phrase, item)
  }

  /** The row of a pair holds the highest weight it was inserted with. */
  ghost predicate RowIsMaximum(run: seq<Insertion>, phrase: string, item: ItemId, weight: real) {
    && (exists k :: 0 <= k < |run| && Names(run[k], phrase, item) && run[k].weight == weight)
    && (forall k :: 0 <= k < |run| && Names(run[k], phrase, item) ==> run[k].weight <= weight)
  }

  lemma {:induction false} TableHoldsMaxima(run: seq<Insertion>, phrase: string, item: ItemId)
    ensures (PathOf(phrase), item) in TableAfter(run) <==> Enters(run, phrase, item)
    ensures Enters(run, phrase, item) ==> RowIsMaximum(run, phrase, item, TableAfter(run)[(PathOf(phrase), item)].weight)
  {
    if run != [] {
      var n := |run| - 1;
      var before, last := run[..n], run[n];
      TableHoldsMaxima(before, phrase, item);
      ExtendsIsPrefix(phrase, last.phrase);
      assert forall k :: 0 <= k < n ==> run[k] == before[k];
      assert Enters(run, phrase, item) <==> Enters(before, phrase, item) || Names(last, phrase, item) by {
        if Names(last, phrase, item) { assert Names(run[n], phrase, item); }
        if k :| 0 <= k < n && Names(before[k], phrase, item) { assert Names(run[k], phrase, item); }
      }
      if Enters(run, phrase, item) {
        var weight := TableAfter(run)[(PathOf(phrase), item)].weight;
        if Enters(before, phrase, item) {
          var prior := TableAfter(before)[(PathOf(phrase), item)].weight;
          var k :| 0 <= k < n && Names(before[k], phrase, item) && before[k].weight == prior;
          assert Names(run[k], phrase, item) && run[k].weight == prior;
        }
        assert Names(last, phrase, item) ==> Names(run[n], phrase, item);
      }
    }
  }

  /** And the text of its last insertion. */
  lemma {:induction false} TableHoldsLastText(run: seq<Insertion>, phrase: string, item: ItemId) returns (k: nat)
    requires Enters(run, phrase, item)
    ensures k < |run| && Names(run[k], phrase, item) && forall j :: k < j < |run| ==> !Names(run[j], phrase, item)
    ensures (PathOf(phrase), item) in TableAfter(run) && TableAfter(run)[(PathOf(phrase), item)].text == run[k].text
  {
    var n := |run| - 1;
    ExtendsIsPrefix(phrase, run[n].phrase);
    if Names(run[n], phrase, item) {
      k := n;
    } else {
      var j :| 0 <= j < |run| && Names(run[j], phrase, item);
      assert Names(run[..n][j], phrase, item);
      k := TableHoldsLastText(run[..n], phrase, item);
    }
  }

  lemma {:induction false} KeysAreInserted(run: seq<Insertion>, p: Path, item: ItemId)
    requires (p, item) in TableAfter(run)
    ensures exists k :: 0 <= k < |run| && Names(run[k], run[k].phrase, item) && p == PathOf(run[k].phrase)
  {
    var n := |run| - 1;
    if run[n].phrase != "" && run[n].item == item && p == PathOf(run[n].phrase) {
      assert Names(run[n], run[n].phrase, item);
    } else {
      KeysAreInserted(run[..n], p, item);
      var k :| 0 <= k < n && Names(run[..n][k], run[..n][k].phrase, item) && p == PathOf(run[..n][k].phrase);
      assert Names(run[k], run[k].phrase, item);
    }
  }

  ghost predicate InsertedUnder(run: seq<Insertion>, k: nat, prefix: string, item: ItemId) {
    k < |run| && Names(run[k], run[k].phrase, item) && prefix <= run[k].phrase
  }

  lemma InsertedUnderIsRow(run: seq<Insertion>, k: nat, prefix: string, item: ItemId)
    requires InsertedUnder(run, k, prefix, item)
    ensures Row(TableAfter(run), PathOf(prefix), item, PathOf(run[k].phrase))
    ensures run[k].weight <= TableAfter(run)[(PathOf(run[k].phrase), item)].weight
  {
    TableHoldsMaxima(run, run[k].phrase, item);
    ExtendsIsPrefix(run[k].phrase, prefix);
  }

  lemma RowIsInsertedUnder(run: seq<Insertion>, prefix: string, item: ItemId, p: Path) returns (k: nat)
    requires Row(TableAfter(run), PathOf(prefix), item, p)
    ensures InsertedUnder(run, k, prefix, item) && run[k].weight == TableAfter(run)[(p, item)].weight
  {
    KeysAreInserted(run, p, item);
    var j :| 0 <= j < |run| && Names(run[j], run[j].phrase, item) && p == PathOf(run[j].phrase);
    TableHoldsMaxima(run, run[j].phrase, item);
    ExtendsIsPrefix(run[j].phrase, prefix);
    k :| 0 <= k < |run| && Names(run[k], run[j].phrase, item) && run[k].weight == TableAfter(run)[(p, item)].weight;
  }

  /** After any inserts, the items found under a prefix are those inserted under it. */
  lemma SearchFindsTheInserted(run: seq<Insertion>, prefix: string, item: ItemId)
    ensures Matches(TableAfter(run), PathOf(prefix), item) <==> exists k: nat :: InsertedUnder(run, k, prefix, item)
  {
    if k: nat :| InsertedUnder(run, k, prefix, item) {
      InsertedUnderIsRow(run, k, prefix, item);
    }
    if p :| Row(TableAfter(run), PathOf(prefix), item, p) {
      var k := RowIsInsertedUnder(run, prefix, item, p);
    }
  }

  /** And each comes with the highest weight it was inserted with under the prefix. */
  lemma SearchIsFlatScan(run: seq<Insertion>, prefix: string, h: Hit)
    requires Heaviest(TableAfter(run), PathOf(prefix), h)
    ensures exists k: nat :: InsertedUnder(run, k, prefix, h.id) && run[k].weight == h.weight
    ensures forall k: nat :: InsertedUnder(run, k, prefix, h.id) ==> run[k].weight <= h.weight
  {
    var table, q := TableAfter(run), PathOf(prefix);
    var p :| Row(table, q, h.id, p) && table[(p, h.id)] == Shown(h.text, h.weight);
    var j := RowIsInsertedUnder(run, prefix, h.id, p);
    forall k: nat | InsertedUnder(run, k, prefix, h.id) ensures run[k].weight <= h.weight {
      InsertedUnderIsRow(run, k, prefix, h.id);
    }
  }

  /** Its text is that of the last insertion of the item under some phrase with the prefix. */
  lemma SearchShowsLastText(run: seq<Insertion>, prefix: string, h: Hit) returns (k: nat)
    requires Heaviest(TableAfter(run), PathOf(prefix), h)
    ensures InsertedUnder(run, k, prefix, h.id) && run[k].text == h.text
    ensures forall j :: k < j < |run| ==> !Names(run[j], run[k].phrase, h.id)
  {
    var table, q := TableAfter(run), PathOf(prefix);
    var p :| Row(table, q, h.id, p) && table[(p, h.id)] == Shown(h.text, h.weight);
    KeysAreInserted(run, p, h.id);
    var j :| 0 <= j < |run| && Names(run[j], run[j].phrase, h.id) && p == PathOf(run[j].phrase);
    k := TableHoldsLastText(run, run[j].phrase, h.id);
    ExtendsIsPrefix(run[j].phrase, prefix);
  }
}
