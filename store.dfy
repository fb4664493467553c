/** Block admission and the block store: `extractWikiBlocks`,
    `extractAceLines`, `collectVisibleBlocks`, `CONTENT_POOL` and
    `getSortedBlocks`. The pure part (`Pool`, the candidate functions and
    the passes over them) specifies the `BlockStore` class, which updates
    its map and its insertion order in place as content.js does. */
module Store {

  import opened Wrappers
  import opened Strings
  import opened Blocks
  import opened Classify
  import opened InlineText

  // ---------------------------------------------------------------------
  // The node records an extraction pass walks

  /** The result of `node.closest(selector)`: no such block, the node
      itself, or a proper ancestor. */
  datatype Closest = NoMatch | SelfMatch | AncestorMatch

  /** A wiki block node: its class name, its `data-block-id` attribute,
      the nearest table block and quote block at or above it, the address
      of its first `img`, the child nodes of its `.text-editor` descendant
      if it has one, and its own child nodes. */
  datatype WikiNode = WikiNode(
    className: string,
    blockId: Option<string>,
    closestTable: Closest,
    closestQuote: Closest,
    img: Option<string>,
    textEditor: Option<seq<Inline>>,
    children: seq<Inline>)

  /** An ace editor line: its class name, the address of its first `img`,
      and its child nodes. */
  datatype AceLine = AceLine(className: string, img: Option<string>, children: seq<Inline>)

  /** What is rendered at one moment: the wiki block nodes and the ace lines
      that the two `querySelectorAll` calls return, in document order. */
  datatype Snapshot = Snapshot(wiki: seq<WikiNode>, ace: seq<AceLine>)

  // ---------------------------------------------------------------------
  // Admission of one node

  /** A non-table node inside a table block, or a node inside (not at) a
      quote block: skipped so that nested structure is not counted twice. */
  predicate NestedExcluded(n: WikiNode) {
    (n.closestTable != NoMatch && !Contains(n.className, "table"))
    || n.closestQuote == AncestorMatch
  }

  /** `node.querySelector('.text-editor') || node`, as its child list. */
  function TextRoot(n: WikiNode): seq<Inline> {
    if n.textEditor.Some? then n.textEditor.value else n.children
  }

  function WikiText(n: WikiNode): string {
    FlattenAll(TextRoot(n))
  }

  /** `data-block-id`, or `wiki_<index>` when it is missing or empty. */
  function WikiId(n: WikiNode, index: nat): string {
    if Truthy(n.blockId) then n.blockId.value else "wiki_" + NatToString(index)
  }

  function AceId(index: nat): string {
    "ace_" + NatToString(index)
  }

  /** What every stored block satisfies: no garbage, text unless it is an
      image with an address, never a divider, no ordinal yet. */
  predicate Clean(b: Block) {
    !IsGarbageContent(b.content)
    && (b.content != "" || (b.kind == Image && b.src.Some?))
    && b.kind != Divider
    && b.index.None?
  }

  /** The block a wiki node at position `index` yields when its id is not
      yet stored, or `None` when some filter rejects it. */
  function WikiCandidate(n: WikiNode, index: nat): (r: Option<Block>)
    ensures r.Some? ==> r.value.id == WikiId(n, index) && Clean(r.value)
  {
    if NestedExcluded(n) then None
    else
      match IdentifyType(n.className, n.img)
      case None => None
      case Some(t) =>
        var text := WikiText(n);
        if IsGarbageContent(text) then None
        else if text == "" && t.kind != Image && t.kind != Divider then None
        else Some(Block(WikiId(n, index), t.kind, t.level, text, t.src, None))
  }

  /** A wiki node is admitted exactly when it is not nested inside a table
      or quote block, it is classified, its text is not garbage, and it
      shows text unless it is an image (a divider is never produced). */
  lemma WikiAdmission(n: WikiNode, index: nat)
    ensures WikiCandidate(n, index).Some? <==>
      && !NestedExcluded(n)
      && IdentifyType(n.className, n.img).Some?
      && !IsGarbageContent(WikiText(n))
      && (PlainTextAll(TextRoot(n)) != "" || IdentifyType(n.className, n.img).value.kind == Image)
    ensures WikiCandidate(n, index).Some? ==>
      var b := WikiCandidate(n, index).value;
      var t := IdentifyType(n.className, n.img).value;
      b.kind == t.kind && b.level == t.level && b.src == t.src && b.content == WikiText(n)
  {
  }

  /** The block an ace line at position `index` yields, or `None`. */
  function AceCandidate(l: AceLine, index: nat): (r: Option<Block>)
    ensures r.Some? ==> r.value.id == AceId(index) && Clean(r.value)
  {
    var t := AceType(l.className, l.img);
    var text := FlattenAll(l.children);
    if IsGarbageContent(text) then None
    else if text == "" && !Truthy(t.src) then None
    else Some(Block(AceId(index), t.kind, t.level, text, t.src, None))
  }

  /** An ace line is admitted exactly when its text is not garbage and it
      shows text or is a gallery line whose image has an address. */
  lemma AceAdmission(l: AceLine, index: nat)
    ensures AceCandidate(l, index).Some? <==>
      && !IsGarbageContent(FlattenAll(l.children))
      && (PlainTextAll(l.children) != "" || (AceType(l.className, l.img).kind == Image && Truthy(l.img)))
    ensures AceCandidate(l, index).Some? ==>
      var b := AceCandidate(l, index).value;
      var t := AceType(l.className, l.img);
      b.kind == t.kind && b.level == t.level && b.src == t.src && b.content == FlattenAll(l.children)
  {
  }

  // ---------------------------------------------------------------------
  // The store as a value

  /** The map and its insertion order. */
  datatype Pool = Pool(blocks: map<string, Block>, order: seq<string>)

  const EmptyPool: Pool := Pool(map[], [])

  predicate Distinct(s: seq<string>) {
    forall i, j :: 0 <= i < j < |s| ==> s[i] != s[j]
  }

  /** The order lists each key once, and each stored block is clean and
      stored under its own id. */
  ghost predicate PoolValid(p: Pool) {
    && Distinct(p.order)
    && (forall k :: k in p.blocks <==> k in p.order)
    && (forall k | k in p.blocks :: p.blocks[k].id == k && Clean(p.blocks[k]))
  }

  /** `Array.from(CONTENT_POOL.values())`: the blocks in insertion order. */
  function Values(p: Pool): (bs: seq<Block>)
    requires PoolValid(p)
    ensures |bs| == |p.order|
    ensures forall i :: 0 <= i < |bs| ==> bs[i] == p.blocks[p.order[i]] && bs[i].id == p.order[i]
    ensures forall i :: 0 <= i < |bs| ==> Clean(bs[i])
    ensures forall i, j :: 0 <= i < j < |bs| ==> bs[i].id != bs[j].id
  {
    seq(|p.order|, i requires 0 <= i < |p.order| => p.blocks[p.order[i]])
  }

  /** One candidate: stored unless it is `None` or its id is present. */
  function Add(p: Pool, c: Option<Block>): Pool {
    if c.None? || c.value.id in p.blocks then p
    else Pool(p.blocks[c.value.id := c.value], p.order + [c.value.id])
  }

  function AddAll(p: Pool, cs: seq<Option<Block>>): Pool {
    if cs == [] then p else Add(AddAll(p, cs[..|cs| - 1]), cs[|cs| - 1])
  }

  predicate CleanCandidates(cs: seq<Option<Block>>) {
    forall i :: 0 <= i < |cs| && cs[i].Some? ==> Clean(cs[i].value)
  }

  /** Candidate `i` carries the id `k`. */
  predicate Hits(cs: seq<Option<Block>>, i: int, k: string) {
    0 <= i < |cs| && cs[i].Some? && cs[i].value.id == k
  }

  function WikiCandidates(ns: seq<WikiNode>): (cs: seq<Option<Block>>)
    ensures |cs| == |ns| && CleanCandidates(cs)
  {
    seq(|ns|, i requires 0 <= i < |ns| => WikiCandidate(ns[i], i))
  }

  function AceCandidates(ls: seq<AceLine>): (cs: seq<Option<Block>>)
    ensures |cs| == |ls| && CleanCandidates(cs)
  {
    seq(|ls|, i requires 0 <= i < |ls| => AceCandidate(ls[i], i))
  }

  /** One run of `extractWikiBlocks(nodes)` over the store `p`. */
  function WikiPass(p: Pool, ns: seq<WikiNode>): Pool {
    AddAll(p, WikiCandidates(ns))
  }

  /** One run of `extractAceLines(nodes)` over the store `p`. */
  function AcePass(p: Pool, ls: seq<AceLine>): Pool {
    AddAll(p, AceCandidates(ls))
  }

  /** `collectVisibleBlocks()`: wiki blocks when any are rendered, else
      ace lines when any are rendered, else nothing. */
  function Collect(p: Pool, s: Snapshot): Pool {
    if |s.wiki| > 0 then WikiPass(p, s.wiki)
    else if |s.ace| > 0 then AcePass(p, s.ace)
    else p
  }

  /** Collection passes over successive snapshots. */
  function CollectAll(p: Pool, snaps: seq<Snapshot>): Pool {
    if snaps == [] then p else Collect(CollectAll(p, snaps[..|snaps| - 1]), snaps[|snaps| - 1])
  }

  // ---------------------------------------------------------------------
  // Properties of the passes

  lemma AddValid(p: Pool, c: Option<Block>)
    requires PoolValid(p) && (c.Some? ==> Clean(c.value))
    ensures PoolValid(Add(p, c))
  {
    if c.Some? && c.value.id !in p.blocks {
      var r := Add(p, c);
      forall i, j | 0 <= i < j < |r.order| ensures r.order[i] != r.order[j] {
        if j == |p.order| {
          assert r.order[i] == p.order[i];
        }
      }
    }
  }

  /** The store stays well formed. */
  lemma {:induction false} AddAllValid(p: Pool, cs: seq<Option<Block>>)
    requires PoolValid(p) && CleanCandidates(cs)
    ensures PoolValid(AddAll(p, cs))
    decreases |cs|
  {
    if cs != [] {
      AddAllValid(p, cs[..|cs| - 1]);
      AddValid(AddAll(p, cs[..|cs| - 1]), cs[|cs| - 1]);
    }
  }

  /** First write wins: a stored block is never replaced, and the old
      insertion order is kept as a prefix. */
  lemma {:induction false} AddAllKeeps(p: Pool, cs: seq<Option<Block>>)
    ensures forall k | k in p.blocks :: k in AddAll(p, cs).blocks && AddAll(p, cs).blocks[k] == p.blocks[k]
    ensures |p.order| <= |AddAll(p, cs).order| && AddAll(p, cs).order[..|p.order|] == p.order
    decreases |cs|
  {
    if cs != [] {
      AddAllKeeps(p, cs[..|cs| - 1]);
      var q := AddAll(p, cs[..|cs| - 1]);
      assert Add(q, cs[|cs| - 1]).order[..|q.order|] == q.order;
    }
  }

  /** After a pass, an id is stored exactly when it was stored before or
      some candidate carries it. */
  lemma {:induction false} AddAllMembership(p: Pool, cs: seq<Option<Block>>, k: string)
    ensures k in AddAll(p, cs).blocks <==> k in p.blocks || exists i :: Hits(cs, i, k)
    decreases |cs|
  {
    if cs != [] {
      var cs' := cs[..|cs| - 1];
      var c := cs[|cs| - 1];
      AddAllMembership(p, cs', k);
      forall i | Hits(cs', i, k) ensures Hits(cs, i, k) {
        assert cs'[i] == cs[i];
      }
      forall i | Hits(cs, i, k) && i < |cs| - 1 ensures Hits(cs', i, k) {
        assert cs'[i] == cs[i];
      }
      assert Hits(cs, |cs| - 1, k) <==> c.Some? && c.value.id == k;
      assert k in AddAll(p, cs).blocks <==> k in AddAll(p, cs').blocks || (c.Some? && c.value.id == k);
    }
  }

  /** A new id holds the block of the first candidate that carries it. */
  lemma {:induction false} AddAllFirstWins(p: Pool, cs: seq<Option<Block>>, i: int)
    requires 0 <= i < |cs| && cs[i].Some? && cs[i].value.id !in p.blocks
    requires forall j :: 0 <= j < i ==> !Hits(cs, j, cs[i].value.id)
    ensures cs[i].value.id in AddAll(p, cs).blocks
    ensures AddAll(p, cs).blocks[cs[i].value.id] == cs[i].value
    decreases |cs|
  {
    var k := cs[i].value.id;
    var cs' := cs[..|cs| - 1];
    if i == |cs| - 1 {
      forall j ensures !Hits(cs', j, k) {
        if 0 <= j < |cs'| {
          assert cs'[j] == cs[j] && !Hits(cs, j, k);
        }
      }
      AddAllMembership(p, cs', k);
    } else {
      assert cs'[i] == cs[i];
      forall j | 0 <= j < i ensures !Hits(cs', j, k) {
        assert !Hits(cs, j, k);
      }
      AddAllFirstWins(p, cs', i);
    }
  }

  /** A pass whose every candidate id is already stored changes nothing. */
  lemma {:induction false} AddAllPresent(p: Pool, cs: seq<Option<Block>>)
    requires forall i :: 0 <= i < |cs| && cs[i].Some? ==> cs[i].value.id in p.blocks
    ensures AddAll(p, cs) == p
    decreases |cs|
  {
    if cs != [] {
      AddAllPresent(p, cs[..|cs| - 1]);
    }
  }

  /** Repeating a pass over the same candidates changes nothing. */
  lemma AddAllIdempotent(p: Pool, cs: seq<Option<Block>>)
    ensures AddAll(AddAll(p, cs), cs) == AddAll(p, cs)
  {
    forall i | 0 <= i < |cs| && cs[i].Some? ensures cs[i].value.id in AddAll(p, cs).blocks {
      AddAllMembership(p, cs, cs[i].value.id);
      assert Hits(cs, i, cs[i].value.id);
    }
    AddAllPresent(AddAll(p, cs), cs);
  }

  /** Keys appended after an old order are not in it. */
  lemma SuffixFresh(old_: seq<string>, now: seq<string>)
    requires Distinct(now) && |old_| <= |now| && now[..|old_|] == old_
    ensures forall b :: |old_| <= b < |now| ==> now[b] !in old_
  {
    forall b | |old_| <= b < |now| ensures now[b] !in old_ {
      forall m | 0 <= m < |old_| ensures old_[m] != now[b] {
        assert now[m] == old_[m];
      }
    }
  }

  /** A pass is the pass over all but the last candidate, then the last
      candidate: the order only grows, by at most that candidate's id, and
      every id appended by the shorter pass is new to `p`. */
  lemma AddAllLastStep(p: Pool, cs: seq<Option<Block>>)
    requires PoolValid(p) && CleanCandidates(cs) && cs != []
    ensures var q := AddAll(p, cs[..|cs| - 1]);
      && PoolValid(q)
      && AddAll(p, cs) == Add(q, cs[|cs| - 1])
      && |p.order| <= |q.order| <= |AddAll(p, cs).order| <= |q.order| + 1
      && AddAll(p, cs).order[..|q.order|] == q.order
      && (forall x :: |p.order| <= x < |q.order| ==> q.order[x] in q.blocks && q.order[x] !in p.blocks)
  {
    var cs' := cs[..|cs| - 1];
    var q := AddAll(p, cs');
    AddAllValid(p, cs');
    AddAllKeeps(p, cs');
    SuffixFresh(p.order, q.order);
    assert Add(q, cs[|cs| - 1]).order[..|q.order|] == q.order;
  }

  /** The ids a pass appends come in the order of their first candidates:
      a later id in the store order never has a candidate before the first
      candidate of an earlier one. */
  lemma {:induction false} AddAllOrder(p: Pool, cs: seq<Option<Block>>, a: int, b: int, i: int)
    requires PoolValid(p) && CleanCandidates(cs)
    requires |p.order| <= a < b < |AddAll(p, cs).order|
    requires Hits(cs, i, AddAll(p, cs).order[b])
    ensures exists j :: j < i && Hits(cs, j, AddAll(p, cs).order[a])
    decreases |cs|, 1
  {
    if b < |AddAll(p, cs[..|cs| - 1]).order| {
      AddAllOrderEarlier(p, cs, a, b, i);
    } else {
      AddAllOrderLast(p, cs, a, b, i);
    }
  }

  /** `AddAllOrder` when both ids were already appended before the last
      candidate. */
  lemma {:induction false} AddAllOrderEarlier(p: Pool, cs: seq<Option<Block>>, a: int, b: int, i: int)
    requires PoolValid(p) && CleanCandidates(cs) && cs != []
    requires |p.order| <= a < b < |AddAll(p, cs[..|cs| - 1]).order|
    requires b < |AddAll(p, cs).order| && Hits(cs, i, AddAll(p, cs).order[b])
    ensures exists j :: j < i && Hits(cs, j, AddAll(p, cs).order[a])
    decreases |cs|, 0
  {
    var cs' := cs[..|cs| - 1];
    var q := AddAll(p, cs');
    var r := AddAll(p, cs);
    AddAllLastStep(p, cs);
    assert r.order[a] == q.order[a] && r.order[b] == q.order[b];
    var i' := i;
    if i == |cs| - 1 {
      AddAllMembership(p, cs', q.order[b]);
      i' :| Hits(cs', i', q.order[b]);
    } else {
      assert cs'[i] == cs[i];
    }
    assert Hits(cs', i', q.order[b]) && i' <= i;
    AddAllOrder(p, cs', a, b, i');
    var j :| j < i' && Hits(cs', j, q.order[a]);
    assert cs'[j] == cs[j];
    assert Hits(cs, j, r.order[a]);
  }

  /** `AddAllOrder` when the later id is the one the last candidate
      appends. */
  lemma AddAllOrderLast(p: Pool, cs: seq<Option<Block>>, a: int, b: int, i: int)
    requires PoolValid(p) && CleanCandidates(cs) && cs != []
    requires |p.order| <= a < b && |AddAll(p, cs[..|cs| - 1]).order| <= b < |AddAll(p, cs).order|
    requires Hits(cs, i, AddAll(p, cs).order[b])
    ensures exists j :: j < i && Hits(cs, j, AddAll(p, cs).order[a])
  {
    var cs' := cs[..|cs| - 1];
    var q := AddAll(p, cs');
    var r := AddAll(p, cs);
    AddAllLastStep(p, cs);
    var x := r.order[b];
    assert b == |q.order| && x == cs[|cs| - 1].value.id && x !in q.blocks;
    AddAllMembership(p, cs', x);
    assert !Hits(cs', i, x);
    assert i == |cs| - 1;
    assert r.order[a] == q.order[a];
    AddAllMembership(p, cs', q.order[a]);
    var j :| Hits(cs', j, q.order[a]);
    assert cs'[j] == cs[j];
    assert Hits(cs, j, r.order[a]);
  }

  lemma CollectValid(p: Pool, s: Snapshot)
    requires PoolValid(p)
    ensures PoolValid(Collect(p, s))
  {
    AddAllValid(p, WikiCandidates(s.wiki));
    AddAllValid(p, AceCandidates(s.ace));
  }

  lemma {:induction false} CollectAllValid(p: Pool, snaps: seq<Snapshot>)
    requires PoolValid(p)
    ensures PoolValid(CollectAll(p, snaps))
    decreases |snaps|
  {
    if snaps != [] {
      CollectAllValid(p, snaps[..|snaps| - 1]);
      CollectValid(CollectAll(p, snaps[..|snaps| - 1]), snaps[|snaps| - 1]);
    }
  }

  /** Collecting twice from an unchanged view gives the store that
      collecting once gives. */
  lemma CollectIdempotent(p: Pool, s: Snapshot)
    ensures Collect(Collect(p, s), s) == Collect(p, s)
  {
    AddAllIdempotent(p, WikiCandidates(s.wiki));
    AddAllIdempotent(p, AceCandidates(s.ace));
  }

  /** Any number of passes over one unchanged view equal a single pass. */
  lemma {:induction false} CollectAllUnchangedView(p: Pool, snaps: seq<Snapshot>, s: Snapshot)
    requires |snaps| >= 1 && forall k :: 0 <= k < |snaps| ==> snaps[k] == s
    ensures CollectAll(p, snaps) == Collect(p, s)
    decreases |snaps|
  {
    var front := snaps[..|snaps| - 1];
    if |front| == 0 {
      assert CollectAll(p, front) == p;
    } else {
      CollectAllUnchangedView(p, front, s);
      CollectIdempotent(p, s);
    }
  }

  /** Between passes a stored block never changes and the order only grows. */
  lemma {:induction false} CollectAllKeeps(p: Pool, snaps: seq<Snapshot>)
    ensures forall k | k in p.blocks :: k in CollectAll(p, snaps).blocks && CollectAll(p, snaps).blocks[k] == p.blocks[k]
    ensures |p.order| <= |CollectAll(p, snaps).order| && CollectAll(p, snaps).order[..|p.order|] == p.order
    decreases |snaps|
  {
    if snaps != [] {
      var front := snaps[..|snaps| - 1];
      var s := snaps[|snaps| - 1];
      var q := CollectAll(p, front);
      CollectAllKeeps(p, front);
      AddAllKeeps(q, WikiCandidates(s.wiki));
      AddAllKeeps(q, AceCandidates(s.ace));
      var r := Collect(q, s);
      assert r.order[..|p.order|] == r.order[..|q.order|][..|p.order|];
    }
  }

  // ---------------------------------------------------------------------
  // The store as content.js keeps it

  /** `CONTENT_POOL`: a `Map` from block id to block, iterated in
      insertion order. */
  class BlockStore {
    var blocks: map<string, Block>
    var order: seq<string>

    function State(): Pool
      reads this
    {
      Pool(blocks, order)
    }

    constructor ()
      ensures State() == EmptyPool
    {
      blocks := map[];
      order := [];
    }

    /** `CONTENT_POOL.clear()`. */
    method Clear()
      modifies this
      ensures State() == EmptyPool
    {
      blocks := map[];
      order := [];
    }

    /** `CONTENT_POOL.has(id)`. */
    method Has(id: string) returns (present: bool)
      ensures present <==> id in blocks
    {
      present := id in blocks;
    }

    /** `CONTENT_POOL.set(id, b)`: a new key goes to the end of the order;
        an existing key gets the new value and keeps its position. */
    method Set(id: string, b: Block)
      modifies this
      ensures blocks == old(blocks)[id := b]
      ensures order == if id in old(blocks) then old(order) else old(order) + [id]
    {
      if id !in blocks {
        order := order + [id];
      }
      blocks := blocks[id := b];
    }

    /** One turn of `extractWikiBlocks`: the wiki node at position `i`. */
    method AdmitWikiNode(node: WikiNode, i: nat)
      modifies this
      ensures State() == Add(old(State()), WikiCandidate(node, i))
    {
      var tableNested := node.closestTable != NoMatch && !Contains(node.className, "table");
      var quoteNested := node.closestQuote == AncestorMatch;
      if !tableNested && !quoteNested {
        var id := if Truthy(node.blockId) then node.blockId.value else "wiki_" + NatToString(i);
        var present := Has(id);
        if !present {
          var typeInfo := IdentifyType(node.className, node.img);
          if typeInfo.Some? {
            var textContent := ExtractFormattedText(TextRoot(node));
            if !IsGarbageContent(textContent)
               && (textContent != "" || typeInfo.value.kind == Image || typeInfo.value.kind == Divider)
            {
              Set(id, Block(id, typeInfo.value.kind, typeInfo.value.level, textContent, typeInfo.value.src, None));
            }
          }
        }
      }
    }

    /** `extractWikiBlocks(nodes)`. */
    method ExtractWikiBlocks(nodes: seq<WikiNode>)
      modifies this
      ensures State() == WikiPass(old(State()), nodes)
    {
      ghost var cs := WikiCandidates(nodes);
      var i := 0;
      while i < |nodes|
        invariant 0 <= i <= |nodes|
        invariant State() == AddAll(old(State()), cs[..i])
      {
        assert cs[..i + 1][..i] == cs[..i];
        AdmitWikiNode(nodes[i], i);
        i := i + 1;
      }
      assert cs[..i] == cs;
    }

    /** One turn of `extractAceLines`: the ace line at position `i`. */
    method AdmitAceLine(node: AceLine, i: nat)
      modifies this
      ensures State() == Add(old(State()), AceCandidate(node, i))
    {
      var id := "ace_" + NatToString(i);
      var present := Has(id);
      if !present {
        var t := AceType(node.className, node.img);
        var textContent := ExtractFormattedText(node.children);
        if !IsGarbageContent(textContent) && (textContent != "" || Truthy(t.src)) {
          Set(id, Block(id, t.kind, t.level, textContent, t.src, None));
        }
      }
    }

    /** `extractAceLines(nodes)`. */
    method ExtractAceLines(nodes: seq<AceLine>)
      modifies this
      ensures State() == AcePass(old(State()), nodes)
    {
      ghost var cs := AceCandidates(nodes);
      var i := 0;
      while i < |nodes|
        invariant 0 <= i <= |nodes|
        invariant State() == AddAll(old(State()), cs[..i])
      {
        assert cs[..i + 1][..i] == cs[..i];
        AdmitAceLine(nodes[i], i);
        i := i + 1;
      }
      assert cs[..i] == cs;
    }

    /** `collectVisibleBlocks()` over what is rendered now. */
    method CollectVisibleBlocks(s: Snapshot)
      modifies this
      ensures State() == Collect(old(State()), s)
    {
      if |s.wiki| > 0 {
        ExtractWikiBlocks(s.wiki);
        return;
      }
      if |s.ace| > 0 {
        ExtractAceLines(s.ace);
      }
    }

    /** `getSortedBlocks()`: the stored blocks in insertion order. */
    method GetSortedBlocks() returns (bs: seq<Block>)
      requires PoolValid(State())
      ensures |bs| == |order|
      ensures forall i :: 0 <= i < |bs| ==> bs[i].id == order[i] && bs[i] == blocks[order[i]]
    {
      bs := Values(State());
    }
  }
}
