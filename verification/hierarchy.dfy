/** The harmonic tree of `hierarchical_tension_last` (backend/jass/tonal_tension/hierarchy.py):
    one leaf region per chord, adjacent regions merged by prioritised rules, the remaining
    regions folded left into ROOT nodes, and the heads of the last chord's ancestors
    collected. The final average of TIS distances over those heads is not modelled. */
module Hierarchy {
  import opened Wrappers

  /** `Node.kind`: tonic, dominant and subdominant regions, and the fold's ROOT nodes. */
  datatype Kind = TR | DR | SR | ROOT

  /** `{"t": "TR", "s": "SR", "d": "DR"}.get(f)`. */
  function Region(f: string): Option<Kind> {
    if f == "t" then Some(TR) else if f == "s" then Some(SR) else if f == "d" then Some(DR) else None
  }

  /** `{"t": 0, "s": 1, "d": 2}.get(f, 9)`. */
  function Prio(f: string): int {
    if f == "t" then 0 else if f == "s" then 1 else if f == "d" then 2 else 9
  }

  /** `stable_head(a, b)`: the position whose (function priority, key distance) pair is
      smaller in Python's tuple order; on a tie the left position `a` is kept. */
  function StableHead(labels: seq<string>, dists: seq<real>, a: int, b: int): (r: int)
    requires 0 <= a < |labels| && 0 <= b < |labels| && |dists| == |labels|
    ensures r == a || r == b
    ensures Prio(labels[a]) < Prio(labels[b]) ==> r == a
    ensures Prio(labels[b]) < Prio(labels[a]) ==> r == b
    ensures Prio(labels[a]) == Prio(labels[b]) ==> (r == a <==> dists[a] <= dists[b])
  {
    var pa, pb := Prio(labels[a]), Prio(labels[b]);
    if pa < pb || (pa == pb && dists[a] <= dists[b]) then a else b
  }

  // ---------------------------------------------------------------------------------------
  // The node list as a list of spans

  /** The part of a node the merge rules read: its kind, its span `[start, end)` and the
      position of its head chord. */
  datatype Span = Span(kind: Kind, start: int, end: int, head: int)

  /** Adjacent spans, in order, covering `[lo, hi)`, each holding its head. */
  predicate Tiles(ns: seq<Span>, lo: int, hi: int) {
    (ns == [] ==> lo == hi) &&
    (ns != [] ==> ns[0].start == lo && ns[|ns| - 1].end == hi) &&
    (forall k :: 0 <= k < |ns| ==> lo <= ns[k].start <= ns[k].head < ns[k].end <= hi) &&
    (forall k :: 0 <= k < |ns| - 1 ==> ns[k].end == ns[k + 1].start)
  }

  /** `merge(i, kind, head_pos)` on the spans: nodes i and i+1 are replaced by one node
      spanning both. */
  function MergeAt(ns: seq<Span>, i: int, kind: Kind, head: int): seq<Span>
    requires 0 <= i < |ns| - 1
  {
    ns[..i] + [Span(kind, ns[i].start, ns[i + 1].end, head)] + ns[i + 2..]
  }

  /** The nodes after a merge, position by position. */
  lemma MergeAtAt(ns: seq<Span>, i: int, kind: Kind, head: int)
    requires 0 <= i < |ns| - 1
    ensures |MergeAt(ns, i, kind, head)| == |ns| - 1
    ensures forall k :: 0 <= k < i ==> MergeAt(ns, i, kind, head)[k] == ns[k]
    ensures MergeAt(ns, i, kind, head)[i] == Span(kind, ns[i].start, ns[i + 1].end, head)
    ensures forall k :: i < k < |ns| - 1 ==> MergeAt(ns, i, kind, head)[k] == ns[k + 1]
  {
  }

  /** A merge whose head lies in the two merged spans keeps the list a tiling of the same
      range, one node shorter. */
  lemma MergeTiles(ns: seq<Span>, lo: int, hi: int, i: int, kind: Kind, head: int)
    requires Tiles(ns, lo, hi) && 0 <= i < |ns| - 1
    requires ns[i].start <= head < ns[i + 1].end
    ensures |MergeAt(ns, i, kind, head)| == |ns| - 1
    ensures Tiles(MergeAt(ns, i, kind, head), lo, hi)
  {
    var x := Span(kind, ns[i].start, ns[i + 1].end, head);
    var r := MergeAt(ns, i, kind, head);
    assert forall k :: 0 <= k < |r| ==> r[k] == if k < i then ns[k] else if k == i then x else ns[k + 1];
  }

  /** Nodes k and k+1 have kinds a and b. */
  predicate PairAt(ns: seq<Span>, k: int, a: Kind, b: Kind) {
    0 <= k && k + 1 < |ns| && ns[k].kind == a && ns[k + 1].kind == b
  }

  /** The first k >= i with an a·b pair at k. */
  function FindFrom(ns: seq<Span>, a: Kind, b: Kind, i: nat): (r: Option<nat>)
    ensures r.Some? ==> i <= r.value && PairAt(ns, r.value, a, b)
    ensures r.Some? ==> forall k :: i <= k < r.value ==> !PairAt(ns, k, a, b)
    ensures r.None? ==> forall k :: i <= k ==> !PairAt(ns, k, a, b)
    decreases |ns| - i
  {
    if i + 1 >= |ns| then None
    else if PairAt(ns, i, a, b) then Some(i)
    else FindFrom(ns, a, b, i + 1)
  }

  /** The scan `for i in range(len(nodes) - 1)` for the leftmost a·b pair. */
  function FindPair(ns: seq<Span>, a: Kind, b: Kind): Option<nat> {
    FindFrom(ns, a, b, 0)
  }

  /** A merge: the position of its left node, the new kind and the new head. */
  datatype Rule = Rule(at: nat, kind: Kind, head: int)

  /** The merge one pass of the rule loop makes: SR·DR becomes DR with the right head;
      failing that DR·TR becomes TR with the right head; failing that TR·DR becomes TR
      with the left head. */
  function NextRule(ns: seq<Span>): (r: Option<Rule>)
    ensures r.Some? ==> r.value.at + 1 < |ns|
    ensures r.Some? ==> r.value.head == ns[r.value.at].head || r.value.head == ns[r.value.at + 1].head
  {
    var sd := FindPair(ns, SR, DR);
    if sd.Some? then Some(Rule(sd.value, DR, ns[sd.value + 1].head))
    else
      var dt := FindPair(ns, DR, TR);
      if dt.Some? then Some(Rule(dt.value, TR, ns[dt.value + 1].head))
      else
        var td := FindPair(ns, TR, DR);
        if td.Some? then Some(Rule(td.value, TR, ns[td.value].head))
        else None
  }

  /** The rule priority: the leftmost SR·DR pair merges first into DR with the right head;
      only without one the leftmost DR·TR pair merges into TR with the right head; only
      without both the leftmost TR·DR pair merges into TR with the left head; without any
      of the three the loop stops. */
  lemma RulePriority(ns: seq<Span>)
    ensures (exists k :: PairAt(ns, k, SR, DR)) ==>
      var i := NextRule(ns).value.at;
      NextRule(ns) == Some(Rule(i, DR, ns[i + 1].head)) && PairAt(ns, i, SR, DR) &&
      forall k :: 0 <= k < i ==> !PairAt(ns, k, SR, DR)
    ensures (forall k :: !PairAt(ns, k, SR, DR)) && (exists k :: PairAt(ns, k, DR, TR)) ==>
      var i := NextRule(ns).value.at;
      NextRule(ns) == Some(Rule(i, TR, ns[i + 1].head)) && PairAt(ns, i, DR, TR) &&
      forall k :: 0 <= k < i ==> !PairAt(ns, k, DR, TR)
    ensures (forall k :: !PairAt(ns, k, SR, DR) && !PairAt(ns, k, DR, TR)) && (exists k :: PairAt(ns, k, TR, DR)) ==>
      var i := NextRule(ns).value.at;
      NextRule(ns) == Some(Rule(i, TR, ns[i].head)) && PairAt(ns, i, TR, DR) &&
      forall k :: 0 <= k < i ==> !PairAt(ns, k, TR, DR)
    ensures NextRule(ns).None? <==> forall k :: !PairAt(ns, k, SR, DR) && !PairAt(ns, k, DR, TR) && !PairAt(ns, k, TR, DR)
  {
  }

  /** The whole rule loop: merges by `NextRule` until none applies. */
  function Reduce(ns: seq<Span>): seq<Span>
    decreases |ns|
  {
    match NextRule(ns)
    case None => ns
    case Some(rule) => Reduce(MergeAt(ns, rule.at, rule.kind, rule.head))
  }

  /** The rule loop keeps a tiling of the same range, never lengthens the list, and stops
      at a list to which no rule applies. */
  lemma {:induction false} ReduceTiles(ns: seq<Span>, lo: int, hi: int)
    requires Tiles(ns, lo, hi)
    ensures Tiles(Reduce(ns), lo, hi) && |Reduce(ns)| <= |ns| && NextRule(Reduce(ns)).None?
    decreases |ns|
  {
    var rule := NextRule(ns);
    if rule.Some? {
      var r := rule.value;
      MergeTiles(ns, lo, hi, r.at, r.kind, r.head);
      ReduceTiles(MergeAt(ns, r.at, r.kind, r.head), lo, hi);
    }
  }

  /** The ROOT fold: the first two nodes merge into a ROOT node headed by `stable_head`
      of their heads, until one node is left. */
  function FoldRoot(ns: seq<Span>, labels: seq<string>, dists: seq<real>): seq<Span>
    requires Tiles(ns, 0, |labels|) && |dists| == |labels|
    decreases |ns|
  {
    if |ns| <= 1 then ns
    else
      var head := StableHead(labels, dists, ns[0].head, ns[1].head);
      MergeTiles(ns, 0, |labels|, 0, ROOT, head);
      FoldRoot(MergeAt(ns, 0, ROOT, head), labels, dists)
  }

  /** The fold leaves a single node spanning all chords; it is a ROOT node unless the rule
      loop already left a single node. */
  lemma {:induction false} FoldRootSingle(ns: seq<Span>, labels: seq<string>, dists: seq<real>)
    requires Tiles(ns, 0, |labels|) && |dists| == |labels| && labels != []
    ensures var r := FoldRoot(ns, labels, dists);
      |r| == 1 && r[0].start == 0 && r[0].end == |labels| && 0 <= r[0].head < |labels| &&
      (|ns| > 1 ==> r[0].kind == ROOT)
    decreases |ns|
  {
    if |ns| > 1 {
      var head := StableHead(labels, dists, ns[0].head, ns[1].head);
      MergeTiles(ns, 0, |labels|, 0, ROOT, head);
      var m := MergeAt(ns, 0, ROOT, head);
      FoldRootSingle(m, labels, dists);
      if |m| == 1 {
        assert m[0].kind == ROOT;
      }
    }
  }

  /** The head a merge at position i gives the node holding the last chord: a merge of
      the last two nodes makes the new node the parent of the last one. */
  function Absorbed(ns: seq<Span>, i: int, head: int): seq<int> {
    if i == |ns| - 2 then [head] else []
  }

  /** The heads of the rule loop's merges that take in the last node, in the order they
      are made: the heads of the last chord's ancestors made by the rules, nearest first. */
  function ReduceTrace(ns: seq<Span>): seq<int>
    decreases |ns|
  {
    match NextRule(ns)
    case None => []
    case Some(rule) => Absorbed(ns, rule.at, rule.head) + ReduceTrace(MergeAt(ns, rule.at, rule.kind, rule.head))
  }

  lemma TraceAssoc(h0: seq<int>, x: seq<int>, rest: seq<int>, h1: seq<int>)
    requires h1 == h0 + x
    ensures h1 + rest == h0 + (x + rest)
  {
  }

  /** The same for the ROOT fold. */
  function FoldTrace(ns: seq<Span>, labels: seq<string>, dists: seq<real>): seq<int>
    requires Tiles(ns, 0, |labels|) && |dists| == |labels|
    decreases |ns|
  {
    if |ns| <= 1 then []
    else
      var head := StableHead(labels, dists, ns[0].head, ns[1].head);
      MergeTiles(ns, 0, |labels|, 0, ROOT, head);
      Absorbed(ns, 0, head) + FoldTrace(MergeAt(ns, 0, ROOT, head), labels, dists)
  }

  /** The fold, merging from the left, takes in the last node only at its final merge:
      it adds exactly one ancestor, the ROOT node, with the root's head. */
  lemma {:induction false} FoldTraceRoot(ns: seq<Span>, labels: seq<string>, dists: seq<real>)
    requires Tiles(ns, 0, |labels|) && |dists| == |labels|
    ensures |ns| <= 1 ==> FoldTrace(ns, labels, dists) == []
    ensures |ns| > 1 ==>
      |FoldRoot(ns, labels, dists)| == 1 && FoldTrace(ns, labels, dists) == [FoldRoot(ns, labels, dists)[0].head]
    decreases |ns|
  {
    if |ns| > 1 {
      FoldRootSingle(ns, labels, dists);
      var head := StableHead(labels, dists, ns[0].head, ns[1].head);
      MergeTiles(ns, 0, |labels|, 0, ROOT, head);
      var m := MergeAt(ns, 0, ROOT, head);
      FoldTraceRoot(m, labels, dists);
      if |ns| == 2 {
        assert m[0].head == head;
      }
    }
  }

  /** The heads of every ancestor of the last chord's leaf, nearest first: those the rule
      loop makes, then the fold's. */
  function LastTrace(kinds: seq<Kind>, labels: seq<string>, dists: seq<real>): seq<int>
    requires |kinds| == |labels| == |dists|
  {
    ReduceTiles(LeafSpans(kinds), 0, |kinds|);
    ReduceTrace(LeafSpans(kinds)) + FoldTrace(Reduce(LeafSpans(kinds)), labels, dists)
  }

  // ---------------------------------------------------------------------------------------
  // Collecting the parent heads

  /** The `parent_heads` loop over a list of heads: heads equal to `skip` (the last chord)
      are dropped and a head equal to the previously kept one is not repeated. */
  function Collect(hs: seq<int>, skip: int): seq<int>
    decreases |hs|
  {
    if hs == [] then []
    else
      var m := |hs| - 1;
      var prev := Collect(hs[..m], skip);
      if hs[m] != skip && (prev == [] || prev[|prev| - 1] != hs[m]) then prev + [hs[m]] else prev
  }

  /** Every kept head is one of the heads and not `skip`, and no two adjacent kept heads
      are equal. */
  lemma {:induction false} CollectSound(hs: seq<int>, skip: int)
    ensures forall k :: 0 <= k < |Collect(hs, skip)| ==> Collect(hs, skip)[k] != skip && Collect(hs, skip)[k] in hs
    ensures forall k :: 0 <= k < |Collect(hs, skip)| - 1 ==> Collect(hs, skip)[k] != Collect(hs, skip)[k + 1]
    decreases |hs|
  {
    if hs != [] {
      var m := |hs| - 1;
      CollectSound(hs[..m], skip);
      assert hs == hs[..m] + [hs[m]];
      var prev := Collect(hs[..m], skip);
      forall k | 0 <= k < |prev|
        ensures prev[k] in hs
      {
        assert prev[k] in hs[..m];
      }
    }
  }

  /** One more head: kept unless it is `skip` or repeats the last kept head. */
  lemma CollectSnoc(hs: seq<int>, x: int, skip: int)
    ensures var prev := Collect(hs, skip);
      Collect(hs + [x], skip) == if x != skip && (prev == [] || prev[|prev| - 1] != x) then prev + [x] else prev
  {
    assert (hs + [x])[..|hs|] == hs;
  }

  /** Every head other than `skip` is kept (only repeats are dropped), so the list is empty
      exactly when every head is `skip`. */
  lemma {:induction false} CollectComplete(hs: seq<int>, skip: int)
    ensures forall x :: x in hs && x != skip ==> x in Collect(hs, skip)
    ensures Collect(hs, skip) == [] <==> forall x :: x in hs ==> x == skip
    decreases |hs|
  {
    CollectSound(hs, skip);
    if hs != [] {
      var m := |hs| - 1;
      CollectComplete(hs[..m], skip);
      assert hs == hs[..m] + [hs[m]];
      var prev := Collect(hs[..m], skip);
      var r := Collect(hs, skip);
      assert forall x :: x in prev ==> x in r;
      if hs[m] != skip {
        assert hs[m] in r;
      }
    }
  }

  // ---------------------------------------------------------------------------------------
  // Nodes in an arena

  /** A `Node` object. Objects are kept in an arena and refer to each other by position;
      `left`, `right` and `parent` are `None` where the source has `None`. */
  datatype Node = Node(kind: Kind, start: int, end: int, head: int,
                       left: Option<nat>, right: Option<nat>, parent: Option<nat>)

  function SpanOf(x: Node): Span {
    Span(x.kind, x.start, x.end, x.head)
  }

  predicate InArena(arena: seq<Node>, nodes: seq<nat>) {
    forall k :: 0 <= k < |nodes| ==> nodes[k] < |arena|
  }

  predicate Distinct(nodes: seq<nat>) {
    forall j, k :: 0 <= j < k < |nodes| ==> nodes[j] != nodes[k]
  }

  /** The spans of the working list `nodes`. */
  function Spans(arena: seq<Node>, nodes: seq<nat>): (r: seq<Span>)
    requires InArena(arena, nodes)
    ensures |r| == |nodes| && forall k :: 0 <= k < |nodes| ==> r[k] == SpanOf(arena[nodes[k]])
  {
    seq(|nodes|, k requires 0 <= k < |nodes| => SpanOf(arena[nodes[k]]))
  }

  /** Every node lies within the chords `[0, n)` and holds its head. */
  predicate SpansIn(arena: seq<Node>, n: int) {
    forall p :: 0 <= p < |arena| ==> 0 <= arena[p].start <= arena[p].head < arena[p].end <= n
  }

  /** A parent was made after its child and spans it. */
  predicate ParentsUp(arena: seq<Node>) {
    forall p :: 0 <= p < |arena| ==> ParentOk(arena, p)
  }

  predicate ParentOk(arena: seq<Node>, p: int)
    requires 0 <= p < |arena|
  {
    match arena[p].parent
    case None => true
    case Some(q) => p < q < |arena| && arena[q].start <= arena[p].start && arena[p].end <= arena[q].end
  }

  /** The nodes without a parent are exactly those in the working list. */
  predicate RootsListed(arena: seq<Node>, nodes: seq<nat>) {
    forall p :: 0 <= p < |arena| ==> (arena[p].parent.None? <==> p in nodes)
  }

  /** The first n nodes made are the leaves, `leaf_nodes`, one per chord. */
  predicate Leaves(arena: seq<Node>, n: int) {
    0 <= n <= |arena| && forall i :: 0 <= i < n ==> arena[i].start == i && arena[i].end == i + 1
  }

  /** The invariant of the node objects during `hierarchical_tension_last`. */
  ghost predicate Forest(arena: seq<Node>, nodes: seq<nat>, n: int) {
    InArena(arena, nodes) && Distinct(nodes) && Tiles(Spans(arena, nodes), 0, n) &&
    SpansIn(arena, n) && ParentsUp(arena) && RootsListed(arena, nodes) && Leaves(arena, n)
  }

  /** The nodes met following `parent` links from `from` (nothing for `None`). */
  function Path(arena: seq<Node>, from: Option<nat>): (r: seq<nat>)
    requires ParentsUp(arena) && (from.Some? ==> from.value < |arena|)
    ensures forall k :: 0 <= k < |r| ==> r[k] < |arena|
    ensures from.Some? ==> r != [] && r[0] == from.value
    decreases if from.Some? then |arena| - from.value else 0
  {
    match from
    case None => []
    case Some(p) =>
      assert ParentOk(arena, p);
      [p] + Path(arena, arena[p].parent)
  }

  /** The heads of a list of nodes. */
  function HeadsOf(arena: seq<Node>, ps: seq<nat>): (r: seq<int>)
    requires forall k :: 0 <= k < |ps| ==> ps[k] < |arena|
    ensures |r| == |ps| && forall k :: 0 <= k < |ps| ==> r[k] == arena[ps[k]].head
  {
    seq(|ps|, k requires 0 <= k < |ps| => arena[ps[k]].head)
  }

  /** Each node on a path is the parent of the one before, and the last has no parent. */
  lemma {:induction false} PathChain(arena: seq<Node>, from: Option<nat>)
    requires ParentsUp(arena) && (from.Some? ==> from.value < |arena|)
    ensures var a := Path(arena, from);
      (forall k :: 0 <= k < |a| - 1 ==> arena[a[k]].parent == Some(a[k + 1])) &&
      (a != [] ==> arena[a[|a| - 1]].parent.None?)
    decreases if from.Some? then |arena| - from.value else 0
  {
    match from
    case None =>
    case Some(p) =>
      assert ParentOk(arena, p);
      PathChain(arena, arena[p].parent);
  }

  lemma HeadsSnoc(arena: seq<Node>, ps: seq<nat>, p: nat)
    requires (forall k :: 0 <= k < |ps| ==> ps[k] < |arena|) && p < |arena|
    ensures HeadsOf(arena, ps + [p]) == HeadsOf(arena, ps) + [arena[p].head]
  {
  }

  /** Part way up a path: `done` has been visited and the walk is at `current`. */
  ghost predicate Walked(arena: seq<Node>, done: seq<nat>, current: Option<nat>, full: seq<nat>) {
    ParentsUp(arena) && (current.Some? ==> current.value < |arena|) &&
    (forall k :: 0 <= k < |done| ==> done[k] < |arena|) &&
    done + Path(arena, current) == full
  }

  /** One step of the walk: visiting `c` moves on to its parent, and the collected heads
      grow as `Collect` says. */
  lemma WalkStep(arena: seq<Node>, done: seq<nat>, c: nat, full: seq<nat>, skip: int)
    requires Walked(arena, done, Some(c), full)
    ensures Walked(arena, done + [c], arena[c].parent, full)
    ensures |Path(arena, arena[c].parent)| < |Path(arena, Some(c))|
    ensures var prev := Collect(HeadsOf(arena, done), skip);
      var x := arena[c].head;
      Collect(HeadsOf(arena, done + [c]), skip) ==
        if x != skip && (prev == [] || prev[|prev| - 1] != x) then prev + [x] else prev
  {
    assert ParentOk(arena, c);
    var rest := Path(arena, arena[c].parent);
    assert Path(arena, Some(c)) == [c] + rest;
    assert done + [c] + rest == done + ([c] + rest);
    HeadsSnoc(arena, done, c);
    CollectSnoc(HeadsOf(arena, done), arena[c].head, skip);
  }

  /** The `while current is not None` walk from the parent of node p, keeping each head
      that is not p and not equal to the head kept just before. */
  method WalkHeads(arena: seq<Node>, p: nat) returns (heads: seq<int>)
    requires ParentsUp(arena) && p < |arena|
    ensures heads == Collect(HeadsOf(arena, Path(arena, Some(p))[1..]), p)
  {
    assert ParentOk(arena, p);
    ghost var full := Path(arena, Some(p))[1..];
    assert full == Path(arena, arena[p].parent);
    heads := [];
    var current: Option<nat> := arena[p].parent;
    ghost var done: seq<nat> := [];
    while current.Some?
      invariant Walked(arena, done, current, full)
      invariant heads == Collect(HeadsOf(arena, done), p)
      decreases |Path(arena, current)|
    {
      var c := current.value;
      var hp := arena[c].head;
      WalkStep(arena, done, c, full, p);
      if hp != p && (heads == [] || heads[|heads| - 1] != hp) {
        heads := heads + [hp];
      }
      done := done + [c];
      current := arena[c].parent;
    }
    assert Path(arena, current) == [];
    assert done + [] == done;
  }

  /** Walking up from node p ends at a node of the working list, and every node on the
      way spans p. */
  lemma {:induction false} PathToRoot(arena: seq<Node>, nodes: seq<nat>, p: nat)
    requires ParentsUp(arena) && RootsListed(arena, nodes) && p < |arena|
    ensures var a := Path(arena, Some(p));
      a[|a| - 1] in nodes &&
      forall k :: 0 <= k < |a| ==> arena[a[k]].start <= arena[p].start && arena[p].end <= arena[a[k]].end
    decreases |arena| - p
  {
    match arena[p].parent
    case None =>
    case Some(q) =>
      assert ParentOk(arena, p);
      PathToRoot(arena, nodes, q);
  }

  // ---------------------------------------------------------------------------------------
  // One merge on the arena

  /** The working list after merging positions i and i+1 into the new node m. */
  function MergedList(nodes: seq<nat>, i: int, m: nat): seq<nat>
    requires 0 <= i < |nodes| - 1
  {
    nodes[..i] + [m] + nodes[i + 2..]
  }

  /** The arena after `new.set_children(a, b)` for the new node made from positions i and i+1. */
  function MergedArena(arena: seq<Node>, nodes: seq<nat>, i: int, kind: Kind, head: int): seq<Node>
    requires InArena(arena, nodes) && 0 <= i < |nodes| - 1
  {
    var l, r, m := nodes[i], nodes[i + 1], |arena|;
    arena[l := arena[l].(parent := Some(m))][r := arena[r].(parent := Some(m))] +
      [Node(kind, arena[l].start, arena[r].end, head, Some(l), Some(r), None)]
  }

  lemma MergedListAt(nodes: seq<nat>, i: int, m: nat)
    requires 0 <= i < |nodes| - 1
    ensures |MergedList(nodes, i, m)| == |nodes| - 1
    ensures forall k :: 0 <= k < |nodes| - 1 ==>
      MergedList(nodes, i, m)[k] == if k < i then nodes[k] else if k == i then m else nodes[k + 1]
  {
  }

  /** Which nodes remain in the working list after a merge. */
  lemma MergedListMembers(nodes: seq<nat>, i: int, m: nat, p: nat)
    requires Distinct(nodes) && 0 <= i < |nodes| - 1
    ensures p in MergedList(nodes, i, m) <==> p == m || (p in nodes && p != nodes[i] && p != nodes[i + 1])
  {
    var ms := MergedList(nodes, i, m);
    MergedListAt(nodes, i, m);
    if p in nodes && p != nodes[i] && p != nodes[i + 1] {
      var j :| 0 <= j < |nodes| && nodes[j] == p;
      if j < i {
        assert ms[j] == p;
      } else {
        assert ms[j - 1] == p;
      }
    }
    if p in ms && p != m {
      var j :| 0 <= j < |ms| && ms[j] == p;
      if j < i {
        assert nodes[j] == p;
      } else {
        assert nodes[j + 1] == p;
      }
    }
  }

  /** The merge seen on the spans: the working list becomes `MergeAt` of the old one. */
  lemma MergedSpans(arena: seq<Node>, nodes: seq<nat>, i: int, kind: Kind, head: int)
    requires InArena(arena, nodes) && Distinct(nodes) && 0 <= i < |nodes| - 1
    ensures InArena(MergedArena(arena, nodes, i, kind, head), MergedList(nodes, i, |arena|))
    ensures Spans(MergedArena(arena, nodes, i, kind, head), MergedList(nodes, i, |arena|)) ==
      MergeAt(Spans(arena, nodes), i, kind, head)
  {
    var a2 := MergedArena(arena, nodes, i, kind, head);
    var n2 := MergedList(nodes, i, |arena|);
    var ss := Spans(arena, nodes);
    MergedListAt(nodes, i, |arena|);
    MergedNew(arena, nodes, i, kind, head);
    MergeAtAt(ss, i, kind, head);
    assert InArena(a2, n2);
    var lhs := Spans(a2, n2);
    forall k | 0 <= k < |n2|
      ensures lhs[k] == MergeAt(ss, i, kind, head)[k]
    {
      if k != i {
        MergedArenaAt(arena, nodes, i, kind, head, nodes[if k < i then k else k + 1]);
      }
    }
  }

  /** The merge keeps the node list duplicate-free. */
  lemma MergedDistinct(arena: seq<Node>, nodes: seq<nat>, i: int)
    requires InArena(arena, nodes) && Distinct(nodes) && 0 <= i < |nodes| - 1
    ensures Distinct(MergedList(nodes, i, |arena|))
  {
    MergedListAt(nodes, i, |arena|);
  }

  /** The merged node spans positions i and i+1 and holds its head, within the chords. */
  lemma MergedNodeSpan(arena: seq<Node>, nodes: seq<nat>, n: int, i: int, kind: Kind, head: int)
    requires InArena(arena, nodes) && Tiles(Spans(arena, nodes), 0, n) && 0 <= i < |nodes| - 1
    requires arena[nodes[i]].start <= head < arena[nodes[i + 1]].end
    ensures var x := MergedArena(arena, nodes, i, kind, head)[|arena|];
      0 <= x.start <= x.head < x.end <= n &&
      x.start == arena[nodes[i]].start && x.end == arena[nodes[i + 1]].end &&
      arena[nodes[i]].end == arena[nodes[i + 1]].start
  {
    var ss := Spans(arena, nodes);
    assert ss[i].end == ss[i + 1].start;
    assert 0 <= ss[i].start <= ss[i].end && ss[i + 1].end <= n;
  }

  /** The merge keeps spans within the chords and the leaves in place. */
  lemma MergedSpansIn(arena: seq<Node>, nodes: seq<nat>, n: int, i: int, kind: Kind, head: int)
    requires InArena(arena, nodes) && Tiles(Spans(arena, nodes), 0, n) && 0 <= i < |nodes| - 1
    requires SpansIn(arena, n) && Leaves(arena, n)
    requires arena[nodes[i]].start <= head < arena[nodes[i + 1]].end
    ensures var a2 := MergedArena(arena, nodes, i, kind, head);
      SpansIn(a2, n) && Leaves(a2, n)
  {
    var a2 := MergedArena(arena, nodes, i, kind, head);
    MergedNodeSpan(arena, nodes, n, i, kind, head);
    assert forall p :: 0 <= p < |arena| ==> SpanOf(a2[p]) == SpanOf(arena[p]);
  }

  /** The merge keeps parent links pointing up to enclosing nodes. */
  lemma MergedParents(arena: seq<Node>, nodes: seq<nat>, n: int, i: int, kind: Kind, head: int)
    requires InArena(arena, nodes) && Tiles(Spans(arena, nodes), 0, n) && 0 <= i < |nodes| - 1
    requires SpansIn(arena, n) && ParentsUp(arena)
    requires arena[nodes[i]].start <= head < arena[nodes[i + 1]].end
    ensures ParentsUp(MergedArena(arena, nodes, i, kind, head))
  {
    var a2 := MergedArena(arena, nodes, i, kind, head);
    var l, r, m := nodes[i], nodes[i + 1], |arena|;
    MergedNodeSpan(arena, nodes, n, i, kind, head);
    forall p | 0 <= p < |a2|
      ensures ParentOk(a2, p)
    {
      if p == l || p == r {
        assert a2[p].parent.value == m && SpanOf(a2[p]) == SpanOf(arena[p]);
        assert arena[l].start <= arena[p].start && arena[p].end <= arena[r].end;
      } else if p < |arena| {
        assert a2[p] == arena[p] && ParentOk(arena, p);
        if arena[p].parent.Some? {
          var q := arena[p].parent.value;
          assert SpanOf(a2[q]) == SpanOf(arena[q]);
        }
      }
    }
  }

  /** After the merge the nodes without a parent are exactly the new working list. */
  lemma MergedRoots(arena: seq<Node>, nodes: seq<nat>, i: int, kind: Kind, head: int)
    requires InArena(arena, nodes) && Distinct(nodes) && RootsListed(arena, nodes) && 0 <= i < |nodes| - 1
    ensures RootsListed(MergedArena(arena, nodes, i, kind, head), MergedList(nodes, i, |arena|))
  {
    var a2 := MergedArena(arena, nodes, i, kind, head);
    forall p | 0 <= p < |a2|
      ensures a2[p].parent.None? <==> p in MergedList(nodes, i, |arena|)
    {
      MergedListMembers(nodes, i, |arena|, p);
    }
  }

  /** One merge keeps the forest invariant and acts on the spans as `MergeAt`. */
  lemma MergedForest(arena: seq<Node>, nodes: seq<nat>, n: int, i: int, kind: Kind, head: int)
    requires Forest(arena, nodes, n) && 0 <= i < |nodes| - 1
    requires arena[nodes[i]].start <= head < arena[nodes[i + 1]].end
    ensures InArena(MergedArena(arena, nodes, i, kind, head), MergedList(nodes, i, |arena|))
    ensures Forest(MergedArena(arena, nodes, i, kind, head), MergedList(nodes, i, |arena|), n)
    ensures Spans(MergedArena(arena, nodes, i, kind, head), MergedList(nodes, i, |arena|)) ==
      MergeAt(Spans(arena, nodes), i, kind, head)
  {
    MergedSpans(arena, nodes, i, kind, head);
    MergedDistinct(arena, nodes, i);
    MergedSpansIn(arena, nodes, n, i, kind, head);
    MergedParents(arena, nodes, n, i, kind, head);
    MergedRoots(arena, nodes, i, kind, head);
    MergeTiles(Spans(arena, nodes), 0, n, i, kind, head);
  }

  /** Both heads of an adjacent pair lie in the pair's joint span. */
  lemma PairHeads(ns: seq<Span>, lo: int, hi: int, i: int)
    requires Tiles(ns, lo, hi) && 0 <= i < |ns| - 1
    ensures ns[i].start <= ns[i].head < ns[i + 1].end && ns[i].start <= ns[i + 1].head < ns[i + 1].end
  {
    assert ns[i].end == ns[i + 1].start;
  }

  /** The leaf of chord i. */
  function Leaf(kind: Kind, i: int): Node {
    Node(kind, i, i + 1, i, None, None, None)
  }

  /** One parentless leaf per chord, each alone in the working list, is a forest. */
  lemma LeavesForest(kinds: seq<Kind>)
    ensures var arena := seq(|kinds|, i requires 0 <= i < |kinds| => Leaf(kinds[i], i));
      var nodes := seq(|kinds|, i requires 0 <= i < |kinds| => i as nat);
      Forest(arena, nodes, |kinds|)
  {
    var arena := seq(|kinds|, i requires 0 <= i < |kinds| => Leaf(kinds[i], i));
    var nodes := seq(|kinds|, i requires 0 <= i < |kinds| => i as nat);
    var ss := Spans(arena, nodes);
    assert forall k :: 0 <= k < |ss| ==> ss[k] == Span(kinds[k], k, k + 1, k);
    forall p | 0 <= p < |arena|
      ensures arena[p].parent.None? <==> p in nodes
    {
      assert nodes[p] == p;
    }
  }

  // ---------------------------------------------------------------------------------------
  // The ancestors of the last leaf

  /** `path` is the walk up the parent links from the last chord's leaf: it starts at the
      leaf, each node on it is the parent of the one before, and it ends at the last node of
      the working list, which has no parent; `tr` is the heads of the nodes after the leaf. */
  ghost predicate LastChain(arena: seq<Node>, nodes: seq<nat>, n: int, path: seq<nat>, tr: seq<int>) {
    0 < n <= |arena| && nodes != [] && path != [] && path[0] == n - 1 &&
    (forall k :: 0 <= k < |path| ==> path[k] < |arena|) &&
    (forall k :: 0 <= k < |path| - 1 ==> arena[path[k]].parent == Some(path[k + 1])) &&
    arena[path[|path| - 1]].parent.None? && path[|path| - 1] == nodes[|nodes| - 1] &&
    |tr| == |path| - 1 && (forall k :: 0 <= k < |tr| ==> tr[k] == arena[path[k + 1]].head)
  }

  /** The walk after a merge at position `i` of a working list of `count` nodes, `m` being
      the new node: it grows by the new node when the merge takes in the last node. */
  function WalkAfter(path: seq<nat>, i: int, count: int, m: nat): seq<nat> {
    if i == count - 2 then path + [m] else path
  }

  /** From position `j` on, such a chain is exactly the walk up the parent links. */
  lemma {:induction false} ChainIsPath(arena: seq<Node>, path: seq<nat>, j: nat)
    requires ParentsUp(arena) && j < |path|
    requires forall k :: 0 <= k < |path| ==> path[k] < |arena|
    requires forall k :: 0 <= k < |path| - 1 ==> arena[path[k]].parent == Some(path[k + 1])
    requires arena[path[|path| - 1]].parent.None?
    ensures Path(arena, Some(path[j])) == path[j..]
    decreases |path| - j
  {
    if j == |path| - 1 {
      assert Path(arena, arena[path[j]].parent) == [];
    } else {
      ChainIsPath(arena, path, j + 1);
      assert path[j..] == [path[j]] + path[j + 1..];
    }
  }

  /** The chain is the walk from the last leaf, and `tr` the heads met after the leaf. */
  lemma ChainPath(arena: seq<Node>, nodes: seq<nat>, n: int, path: seq<nat>, tr: seq<int>)
    requires ParentsUp(arena) && LastChain(arena, nodes, n, path, tr)
    ensures n - 1 < |arena| && Path(arena, Some(n - 1)) == path && HeadsOf(arena, path[1..]) == tr
  {
    ChainIsPath(arena, path, 0);
    assert path[0..] == path;
  }

  /** A merge keeps every older node's head, and changes only the parents of the two
      merged nodes, which become the new node. */
  lemma MergedArenaAt(arena: seq<Node>, nodes: seq<nat>, i: int, kind: Kind, head: int, p: nat)
    requires InArena(arena, nodes) && 0 <= i < |nodes| - 1 && p < |arena|
    ensures var a2 := MergedArena(arena, nodes, i, kind, head);
      |a2| == |arena| + 1 && a2[p].head == arena[p].head &&
      (p != nodes[i] && p != nodes[i + 1] ==> a2[p] == arena[p]) &&
      (p == nodes[i] || p == nodes[i + 1] ==> a2[p].parent == Some(|arena|)) &&
      SpanOf(a2[p]) == SpanOf(arena[p])
  {
  }

  /** The node a merge makes carries the merge's head and has no parent. */
  lemma MergedNew(arena: seq<Node>, nodes: seq<nat>, i: int, kind: Kind, head: int)
    requires InArena(arena, nodes) && 0 <= i < |nodes| - 1
    ensures var a2 := MergedArena(arena, nodes, i, kind, head);
      |a2| == |arena| + 1 && a2[|arena|].head == head && a2[|arena|].parent.None? &&
      SpanOf(a2[|arena|]) == Span(kind, arena[nodes[i]].start, arena[nodes[i + 1]].end, head)
  {
  }

  /** The nodes of the chain before its end have parents, so they are not in the working
      list, and a merge keeps them as they were. */
  lemma MergedChainInner(arena: seq<Node>, nodes: seq<nat>, n: int, i: int, kind: Kind, head: int,
                         path: seq<nat>, tr: seq<int>)
    requires InArena(arena, nodes) && RootsListed(arena, nodes) && 0 <= i < |nodes| - 1
    requires LastChain(arena, nodes, n, path, tr)
    ensures forall k :: 0 <= k < |path| - 1 ==> MergedArena(arena, nodes, i, kind, head)[path[k]] == arena[path[k]]
  {
    assert nodes[i] in nodes && nodes[i + 1] in nodes;
    forall k | 0 <= k < |path| - 1
      ensures MergedArena(arena, nodes, i, kind, head)[path[k]] == arena[path[k]]
    {
      var p := path[k];
      assert arena[p].parent == Some(path[k + 1]);
      MergedArenaAt(arena, nodes, i, kind, head, p);
    }
  }

  /** A merge of the last two nodes makes the new node the chain's new end. */
  lemma MergedChainLast(arena: seq<Node>, nodes: seq<nat>, n: int, kind: Kind, head: int,
                        path: seq<nat>, tr: seq<int>)
    requires InArena(arena, nodes) && RootsListed(arena, nodes) && |nodes| >= 2
    requires LastChain(arena, nodes, n, path, tr)
    ensures LastChain(MergedArena(arena, nodes, |nodes| - 2, kind, head),
      MergedList(nodes, |nodes| - 2, |arena|), n, path + [|arena|],
      tr + Absorbed(Spans(arena, nodes), |nodes| - 2, head))
  {
    var i := |nodes| - 2;
    var a2 := MergedArena(arena, nodes, i, kind, head);
    var n2 := MergedList(nodes, i, |arena|);
    var path2, tr2 := path + [|arena|], tr + [head];
    MergedChainInner(arena, nodes, n, i, kind, head, path, tr);
    MergedArenaAt(arena, nodes, i, kind, head, path[|path| - 1]);
    MergedNew(arena, nodes, i, kind, head);
    MergedListAt(nodes, i, |arena|);
    forall k | 0 <= k < |path2| - 1
      ensures a2[path2[k]].parent == Some(path2[k + 1])
    {
      if k < |path| - 1 {
        assert arena[path[k]].parent == Some(path[k + 1]);
      }
    }
    forall k | 0 <= k < |tr2|
      ensures tr2[k] == a2[path2[k + 1]].head
    {
      if k < |tr| {
        MergedArenaAt(arena, nodes, i, kind, head, path[k + 1]);
      }
    }
    assert LastChain(a2, n2, n, path2, tr2);
  }

  /** A merge elsewhere leaves the chain as it is. */
  lemma MergedChainOther(arena: seq<Node>, nodes: seq<nat>, n: int, i: int, kind: Kind, head: int,
                         path: seq<nat>, tr: seq<int>)
    requires InArena(arena, nodes) && Distinct(nodes) && RootsListed(arena, nodes) && 0 <= i < |nodes| - 2
    requires LastChain(arena, nodes, n, path, tr)
    ensures LastChain(MergedArena(arena, nodes, i, kind, head), MergedList(nodes, i, |arena|), n,
      path, tr + Absorbed(Spans(arena, nodes), i, head))
  {
    var a2 := MergedArena(arena, nodes, i, kind, head);
    var n2 := MergedList(nodes, i, |arena|);
    MergedChainInner(arena, nodes, n, i, kind, head, path, tr);
    MergedArenaAt(arena, nodes, i, kind, head, path[|path| - 1]);
    MergedListAt(nodes, i, |arena|);
    forall k | 0 <= k < |path| - 1
      ensures a2[path[k]].parent == Some(path[k + 1])
    {
      assert arena[path[k]].parent == Some(path[k + 1]);
    }
    forall k | 0 <= k < |tr|
      ensures tr[k] == a2[path[k + 1]].head
    {
      MergedArenaAt(arena, nodes, i, kind, head, path[k + 1]);
    }
    assert tr + Absorbed(Spans(arena, nodes), i, head) == tr;
    assert LastChain(a2, n2, n, path, tr);
  }

  /** A merge keeps the chain, extended by the new node when it takes in the last node. */
  lemma MergedChain(arena: seq<Node>, nodes: seq<nat>, n: int, i: int, kind: Kind, head: int,
                    path: seq<nat>, tr: seq<int>)
    requires InArena(arena, nodes) && Distinct(nodes) && RootsListed(arena, nodes) && 0 <= i < |nodes| - 1
    requires LastChain(arena, nodes, n, path, tr)
    ensures LastChain(MergedArena(arena, nodes, i, kind, head), MergedList(nodes, i, |arena|), n,
      WalkAfter(path, i, |nodes|, |arena|), tr + Absorbed(Spans(arena, nodes), i, head))
  {
    if i == |nodes| - 2 {
      MergedChainLast(arena, nodes, n, kind, head, path, tr);
    } else {
      MergedChainOther(arena, nodes, n, i, kind, head, path, tr);
      assert path + [] == path;
    }
  }

  /** Before any merge the last leaf has no ancestors and is the last node. */
  lemma LeavesLastChain(kinds: seq<Kind>)
    requires kinds != []
    ensures var arena := seq(|kinds|, i requires 0 <= i < |kinds| => Leaf(kinds[i], i));
      var nodes := seq(|kinds|, i requires 0 <= i < |kinds| => i as nat);
      LastChain(arena, nodes, |kinds|, [|kinds| - 1], [])
  {
  }

  /** The invariant of the node objects, with the heads of the last leaf's ancestors. */
  ghost predicate TreeState(arena: seq<Node>, nodes: seq<nat>, n: int, path: seq<nat>, tr: seq<int>) {
    Forest(arena, nodes, n) && (n > 0 ==> LastChain(arena, nodes, n, path, tr))
  }

  /** One merge of two adjacent nodes, with the head of one of them, keeps the invariant
      and acts on the spans as `MergeAt`. */
  lemma MergedState(arena: seq<Node>, nodes: seq<nat>, n: int, i: int, kind: Kind, head: int,
                     path: seq<nat>, tr: seq<int>)
    requires TreeState(arena, nodes, n, path, tr) && 0 <= i < |nodes| - 1
    requires head == arena[nodes[i]].head || head == arena[nodes[i + 1]].head
    ensures InArena(MergedArena(arena, nodes, i, kind, head), MergedList(nodes, i, |arena|))
    ensures TreeState(MergedArena(arena, nodes, i, kind, head), MergedList(nodes, i, |arena|), n,
      WalkAfter(path, i, |nodes|, |arena|), tr + Absorbed(Spans(arena, nodes), i, head))
    ensures Spans(MergedArena(arena, nodes, i, kind, head), MergedList(nodes, i, |arena|)) ==
      MergeAt(Spans(arena, nodes), i, kind, head)
  {
    PairHeads(Spans(arena, nodes), 0, n, i);
    MergedForest(arena, nodes, n, i, kind, head);
    if n > 0 {
      MergedChain(arena, nodes, n, i, kind, head, path, tr);
    }
  }

  /** The node objects of one `hierarchical_tension_last` call: the arena of every node
      made so far, the working list `nodes` (positions in the arena) and the number of
      leaves; the leaves are the first `n` nodes, `leaf_nodes`. */
  class Tree {
    var arena: seq<Node>
    var nodes: seq<nat>
    var n: nat
    /** The walk from the last leaf up to the working list, and the heads of the last
        leaf's ancestors on it, nearest first. */
    ghost var lastPath: seq<nat>
    ghost var lastHeads: seq<int>

    ghost predicate Valid()
      reads this
    {
      TreeState(arena, nodes, n, lastPath, lastHeads)
    }

    /** The nodes after the leaf loop: one leaf per chord, of the given kinds, making up
        both the working list and `leaf_nodes`. */
    constructor (kinds: seq<Kind>)
      ensures Valid() && n == |kinds| && lastHeads == []
      ensures arena == seq(|kinds|, i requires 0 <= i < |kinds| => Leaf(kinds[i], i))
      ensures nodes == seq(|kinds|, i requires 0 <= i < |kinds| => i as nat)
    {
      LeavesForest(kinds);
      if kinds != [] {
        LeavesLastChain(kinds);
      }
      lastPath := if kinds == [] then [] else [|kinds| - 1];
      lastHeads := [];
      arena := seq(|kinds|, i requires 0 <= i < |kinds| => Leaf(kinds[i], i));
      nodes := seq(|kinds|, i requires 0 <= i < |kinds| => i as nat);
      n := |kinds|;
    }

    /** `merge(i, kind, head_pos)` and the fold's merge: a new node over positions i and
        i+1, made their parent, replacing both in the working list. */
    method Merge(i: nat, kind: Kind, head: int)
      requires Valid() && i + 1 < |nodes|
      requires head == arena[nodes[i]].head || head == arena[nodes[i + 1]].head
      modifies this
      ensures Valid() && n == old(n)
      ensures arena == MergedArena(old(arena), old(nodes), i, kind, head)
      ensures nodes == MergedList(old(nodes), i, |old(arena)|)
      ensures Spans(arena, nodes) == MergeAt(old(Spans(arena, nodes)), i, kind, head)
      ensures lastHeads == old(lastHeads) + Absorbed(old(Spans(arena, nodes)), i, head)
    {
      var l, r, m := nodes[i], nodes[i + 1], |arena|;
      var x := Node(kind, arena[l].start, arena[r].end, head, Some(l), Some(r), None);
      var arena' := arena[l := arena[l].(parent := Some(m))][r := arena[r].(parent := Some(m))] + [x];
      var nodes' := nodes[..i] + [m] + nodes[i + 2..];
      ghost var path' := WalkAfter(lastPath, i, |nodes|, m);
      ghost var heads' := lastHeads + Absorbed(Spans(arena, nodes), i, head);
      MergedState(arena, nodes, n, i, kind, head, lastPath, lastHeads);
      assert arena' == MergedArena(arena, nodes, i, kind, head);
      assert nodes' == MergedList(nodes, i, m);
      arena, nodes, lastPath, lastHeads := arena', nodes', path', heads';
    }

    /** One `for i in range(len(nodes) - 1)` scan for the leftmost a·b pair. */
    method ScanPair(a: Kind, b: Kind) returns (r: Option<nat>)
      requires Valid()
      ensures r == FindPair(Spans(arena, nodes), a, b)
    {
      ghost var ss := Spans(arena, nodes);
      var i := 0;
      while i + 1 < |nodes|
        invariant FindFrom(ss, a, b, i) == FindPair(ss, a, b)
        decreases |nodes| - i
      {
        if arena[nodes[i]].kind == a && arena[nodes[i + 1]].kind == b {
          return Some(i);
        }
        i := i + 1;
      }
      return None;
    }

    /** One pass of the rule loop's body: the three scans in priority order, merging at
        the first pair found. */
    method RulePass() returns (changed: bool)
      requires Valid()
      modifies this
      ensures Valid() && n == old(n)
      ensures changed <==> NextRule(old(Spans(arena, nodes))).Some?
      ensures !changed ==> Spans(arena, nodes) == old(Spans(arena, nodes)) && lastHeads == old(lastHeads)
      ensures changed ==> var rule := NextRule(old(Spans(arena, nodes))).value;
        Spans(arena, nodes) == MergeAt(old(Spans(arena, nodes)), rule.at, rule.kind, rule.head) &&
        lastHeads == old(lastHeads) + Absorbed(old(Spans(arena, nodes)), rule.at, rule.head)
    {
      var i := ScanPair(SR, DR);
      if i.Some? {
        Merge(i.value, DR, arena[nodes[i.value + 1]].head);
        return true;
      }
      i := ScanPair(DR, TR);
      if i.Some? {
        Merge(i.value, TR, arena[nodes[i.value + 1]].head);
        return true;
      }
      i := ScanPair(TR, DR);
      if i.Some? {
        Merge(i.value, TR, arena[nodes[i.value]].head);
        return true;
      }
      return false;
    }

    /** The `while changed and len(nodes) > 1` rule loop. */
    method ApplyRules()
      requires Valid()
      modifies this
      ensures Valid() && n == old(n)
      ensures Spans(arena, nodes) == Reduce(old(Spans(arena, nodes)))
      ensures lastHeads == old(lastHeads) + ReduceTrace(old(Spans(arena, nodes)))
    {
      var changed := true;
      while changed && |nodes| > 1
        invariant Valid() && n == old(n)
        invariant Reduce(Spans(arena, nodes)) == Reduce(old(Spans(arena, nodes)))
        invariant lastHeads + ReduceTrace(Spans(arena, nodes)) == old(lastHeads) + ReduceTrace(old(Spans(arena, nodes)))
        invariant !changed ==> NextRule(Spans(arena, nodes)).None?
        decreases |nodes| + (if changed then 1 else 0)
      {
        ghost var before, heads0 := Spans(arena, nodes), lastHeads;
        changed := RulePass();
        if changed {
          var rule := NextRule(before).value;
          TraceAssoc(heads0, Absorbed(before, rule.at, rule.head), ReduceTrace(Spans(arena, nodes)), lastHeads);
        }
      }
      if |nodes| <= 1 {
        assert NextRule(Spans(arena, nodes)).None?;
      }
      assert ReduceTrace(Spans(arena, nodes)) == [];
    }

    /** The ROOT fold `while len(nodes) > 1`. */
    method FoldRoots(labels: seq<string>, dists: seq<real>)
      requires Valid() && |labels| == n && |dists| == n
      modifies this
      ensures Valid() && n == old(n)
      ensures Spans(arena, nodes) == FoldRoot(old(Spans(arena, nodes)), labels, dists)
      ensures lastHeads == old(lastHeads) + FoldTrace(old(Spans(arena, nodes)), labels, dists)
    {
      while |nodes| > 1
        invariant Valid() && n == old(n)
        invariant FoldRoot(Spans(arena, nodes), labels, dists) == FoldRoot(old(Spans(arena, nodes)), labels, dists)
        invariant lastHeads + FoldTrace(Spans(arena, nodes), labels, dists) ==
          old(lastHeads) + FoldTrace(old(Spans(arena, nodes)), labels, dists)
        decreases |nodes|
      {
        ghost var before, heads0 := Spans(arena, nodes), lastHeads;
        var head := StableHead(labels, dists, arena[nodes[0]].head, arena[nodes[1]].head);
        Merge(0, ROOT, head);
        TraceAssoc(heads0, Absorbed(before, 0, head), FoldTrace(Spans(arena, nodes), labels, dists), lastHeads);
      }
    }
  }

  /** Every head of a node of the arena is a chord position in `[0, n)`. */
  lemma HeadsInRange(arena: seq<Node>, ps: seq<nat>, n: int)
    requires SpansIn(arena, n) && forall k :: 0 <= k < |ps| ==> ps[k] < |arena|
    ensures forall x :: x in HeadsOf(arena, ps) ==> 0 <= x < n
  {
  }

  /** The kinds of the leaves, one per label, when every label names a region. */
  function Kinds(labels: seq<string>): (r: seq<Kind>)
    requires forall i :: 0 <= i < |labels| ==> Region(labels[i]).Some?
    ensures |r| == |labels| && forall i :: 0 <= i < |labels| ==> Region(labels[i]) == Some(r[i])
  {
    seq(|labels|, i requires 0 <= i < |labels| => Region(labels[i]).value)
  }

  /** The leaf loop's labels: the region kind of each chord; an unknown label raises
      `ValueError`. */
  method LeafKinds(labels: seq<string>) returns (r: Result<seq<Kind>>)
    ensures r.Err? <==> exists i :: 0 <= i < |labels| && Region(labels[i]).None?
    ensures r.Err? ==> r.error == ValueError
    ensures r.Ok? ==> |r.value| == |labels| && forall i :: 0 <= i < |labels| ==> Region(labels[i]) == Some(r.value[i])
  {
    var kinds: seq<Kind> := [];
    for i := 0 to |labels|
      invariant |kinds| == i && forall k :: 0 <= k < i ==> Region(labels[k]) == Some(kinds[k])
    {
      var k := Region(labels[i]);
      if k.None? {
        return Err(ValueError);
      }
      kinds := kinds + [k.value];
    }
    return Ok(kinds);
  }

  /** The spans of the leaves: chord i alone, of the given kind, heading itself. */
  function LeafSpans(kinds: seq<Kind>): (r: seq<Span>)
    ensures Tiles(r, 0, |kinds|)
  {
    seq(|kinds|, i requires 0 <= i < |kinds| => Span(kinds[i], i, i + 1, i))
  }

  /** The tree over leaves of the given kinds: the rule loop and then the ROOT fold leave a
      single node spanning every chord, whose spans are `FoldRoot` of `Reduce` of the
      leaves. */
  method BuildTree(kinds: seq<Kind>, labels: seq<string>, dists: seq<real>) returns (t: Tree)
    requires |kinds| == |labels| == |dists| > 0
    ensures fresh(t) && t.Valid() && t.n == |kinds|
    ensures Tiles(Reduce(LeafSpans(kinds)), 0, |kinds|)
    ensures Spans(t.arena, t.nodes) == FoldRoot(Reduce(LeafSpans(kinds)), labels, dists)
    ensures |t.nodes| == 1 && t.arena[t.nodes[0]].start == 0 && t.arena[t.nodes[0]].end == |kinds|
    ensures HeadsOf(t.arena, Path(t.arena, Some(|kinds| - 1))[1..]) == LastTrace(kinds, labels, dists)
  {
    t := new Tree(kinds);
    assert Spans(t.arena, t.nodes) == LeafSpans(kinds);
    ReduceTiles(LeafSpans(kinds), 0, |kinds|);
    t.ApplyRules();
    assert t.lastHeads == ReduceTrace(LeafSpans(kinds));
    t.FoldRoots(labels, dists);
    FoldRootSingle(Reduce(LeafSpans(kinds)), labels, dists);
    TreeChain(t.arena, t.nodes, t.n, t.lastPath, t.lastHeads);
    assert t.lastHeads == LastTrace(kinds, labels, dists);
  }

  /** In the invariant, the walk from the last leaf is the chain and `tr` the heads met. */
  lemma TreeChain(arena: seq<Node>, nodes: seq<nat>, n: int, path: seq<nat>, tr: seq<int>)
    requires TreeState(arena, nodes, n, path, tr) && n > 0
    ensures n - 1 < |arena| && ParentsUp(arena) && HeadsOf(arena, Path(arena, Some(n - 1))[1..]) == tr
  {
    ChainPath(arena, nodes, n, path, tr);
  }

  /** The collected heads of the walk from node p are positions in `[0, bound)` other than
      p, never twice in a row. */
  lemma WalkedHeads(arena: seq<Node>, p: nat, bound: int)
    requires ParentsUp(arena) && SpansIn(arena, bound) && p < |arena|
    ensures forall k :: 0 <= k < |Collect(HeadsOf(arena, Path(arena, Some(p))[1..]), p)| ==>
      0 <= Collect(HeadsOf(arena, Path(arena, Some(p))[1..]), p)[k] < bound &&
      Collect(HeadsOf(arena, Path(arena, Some(p))[1..]), p)[k] != p
    ensures forall k :: 0 <= k < |Collect(HeadsOf(arena, Path(arena, Some(p))[1..]), p)| - 1 ==>
      Collect(HeadsOf(arena, Path(arena, Some(p))[1..]), p)[k] != Collect(HeadsOf(arena, Path(arena, Some(p))[1..]), p)[k + 1]
  {
    var path := Path(arena, Some(p))[1..];
    CollectSound(HeadsOf(arena, path), p);
    HeadsInRange(arena, path, bound);
  }

  /** Building the tree over leaves of the given kinds and walking up from the last
      chord: the heads kept are those of the last chord's ancestors in the order the
      merges made them, so chord positions before the last one, never twice in a row. */
  method TreeHeads(kinds: seq<Kind>, labels: seq<string>, dists: seq<real>) returns (heads: seq<int>)
    requires |kinds| == |labels| == |dists| > 0
    ensures heads == Collect(LastTrace(kinds, labels, dists), |kinds| - 1)
    ensures forall k :: 0 <= k < |heads| ==> 0 <= heads[k] < |kinds| - 1
    ensures forall k :: 0 <= k < |heads| - 1 ==> heads[k] != heads[k + 1]
  {
    var t := BuildTree(kinds, labels, dists);
    var arena := t.arena;
    var last := |kinds| - 1;
    heads := WalkHeads(arena, last);
    WalkedHeads(arena, last, |kinds|);
  }

  /** The tree part of `hierarchical_tension_last` over `n` chords (`n == len(tis_list)`):
      the heads whose TIS distances the source averages. Fewer than two chords give no
      heads; unequal lengths or a label other than "t", "s", "d" give `ValueError`;
      otherwise the heads are chord positions before the last chord, with no head twice
      in a row. */
  method HierarchicalHeads(n: nat, labels: seq<string>, dists: seq<real>) returns (r: Result<seq<int>>)
    ensures n <= 1 ==> r == Ok([])
    ensures n > 1 ==>
      (r.Err? <==> |labels| != n || |dists| != n || exists i :: 0 <= i < |labels| && Region(labels[i]).None?)
    ensures r.Err? ==> r.error == ValueError
    ensures r.Ok? ==> forall k :: 0 <= k < |r.value| ==> 0 <= r.value[k] < n - 1
    ensures r.Ok? ==> forall k :: 0 <= k < |r.value| - 1 ==> r.value[k] != r.value[k + 1]
    ensures n > 1 && r.Ok? ==> r.value == Collect(LastTrace(Kinds(labels), labels, dists), n - 1)
  {
    if n <= 1 {
      return Ok([]);
    }
    if |labels| != n || |dists| != n {
      return Err(ValueError);
    }
    var kinds := LeafKinds(labels);
    if kinds.Err? {
      return Err(ValueError);
    }
    assert kinds.value == Kinds(labels);
    var heads := TreeHeads(kinds.value, labels, dists);
    return Ok(heads);
  }
}
