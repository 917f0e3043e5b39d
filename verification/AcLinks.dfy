/** Failure and output links: a breadth-first pass over the trie. */
module AcLinks {
  import opened Common
  import opened AcTheory
  import opened AcTrie
  import opened Counting

  /** The runtime node record; -1 stands for "none". */
  datatype Node = Node(fail: int, out: int, outLink: int, edgeFirst: int, edgeN: int)

  /** `l` is the node of the longest pattern that is a suffix of `s`, or -1. */
  ghost predicate OutLinkOk(t: Trie, pats: map<Str, int>, l: int, s: Str) {
    if l == -1 then LongestHit(pats, s) == None
    else 0 <= l < |t.words| && LongestHit(pats, s) == Some(t.words[l])
  }

  /** The links of the node spelling `w`: `fail` spells the longest proper suffix of `w` that is a
      trie path; `outLink` is the longest pattern that is a proper suffix of `w`. */
  ghost predicate LinksOk(t: Trie, pats: map<Str, int>, n: Node, w: Str) {
    && w != [] && [] in t.words
    && 0 <= n.fail < |t.words|
    && t.words[n.fail] == Longest(t.words, w[1..])
    && OutLinkOk(t, pats, n.outLink, w[1..])
  }

  ghost predicate NodeLinked(t: Trie, pats: map<Str, int>, nodes: seq<Node>, x: int) {
    0 <= x < |nodes| == |t.words| && LinksOk(t, pats, nodes[x], t.words[x])
  }

  ghost predicate OutsOk(t: Trie, pats: map<Str, int>, nodes: seq<Node>) {
    && |nodes| == |t.words|
    && (forall p :: p in pats ==> p != [] && p in t.words && pats[p] >= 0)
    && (forall u {:trigger nodes[u]} :: 0 <= u < |nodes| ==>
          nodes[u].out == (if t.words[u] in pats then pats[t.words[u]] else -1))
  }

  ghost predicate RootOk(nodes: seq<Node>) {
    0 < |nodes| && nodes[0].outLink == -1
  }

  /** Depth of a node. */
  ghost function D(t: Trie, u: int): nat {
    if 0 <= u < |t.words| then |t.words[u]| else 0
  }

  // ----- the queue discipline

  /** In order of depth, and at most one level ahead of the node being expanded. */
  ghost predicate ByDepth(t: Trie, q: seq<int>, h: int)
    requires 0 <= h < |q|
  {
    && (forall j, k :: 0 <= j < k < |q| ==> D(t, q[j]) <= D(t, q[k]))
    && (forall j :: 0 <= j < |q| ==> D(t, q[j]) <= D(t, q[h]) + 1)
  }

  /** `x` hangs from an expanded node, or by one of the first `i` edges of `q[h]`. */
  ghost predicate Discovered(t: Trie, q: seq<int>, h: int, i: int, x: int)
    requires |t.words| == |t.parent| == |t.kids| && 0 <= h < |q| && 0 < x < |t.words|
    requires 0 <= q[h] < |t.words| && 0 <= i <= |t.kids[q[h]]|
  {
    || t.parent[x] in q[..h]
    || (t.parent[x] == q[h] && t.words[x] != [] && Edge(Last(t.words[x]), x) in t.kids[q[h]][..i])
  }

  ghost predicate QueuedIffDiscovered(t: Trie, q: seq<int>, h: int, i: int)
    requires |t.words| == |t.parent| == |t.kids| && 0 <= h < |q|
    requires 0 <= q[h] < |t.words| && 0 <= i <= |t.kids[q[h]]|
  {
    forall x :: 0 < x < |t.words| ==> (x in q <==> Discovered(t, q, h, i, x))
  }

  /** Ghost queue with the root in front: nodes `q[..h]` are expanded, `q[h]` has its
      first `i` edges expanded. */
  ghost predicate Queue(t: Trie, q: seq<int>, h: int, i: int)
    requires |t.words| == |t.parent| == |t.kids|
  {
    && 0 <= h < |q| && q[0] == 0 && Distinct(q) && Below(q, |t.words|)
    && ByDepth(t, q, h)
    && 0 <= i <= |t.kids[q[h]]|
    && QueuedIffDiscovered(t, q, h, i)
  }

  lemma QueueStart(t: Trie)
    requires Shape(t)
    ensures Queue(t, [0], 0, 0)
  {
    assert t.kids[0][..0] == [];
  }

  /** Expanding edge `i` of `q[h]` appends a node that was not queued before. */
  lemma QueuePush(t: Trie, q: seq<int>, h: int, i: int)
    requires Shape(t) && Queue(t, q, h, i) && i < |t.kids[q[h]]|
    ensures var e := t.kids[q[h]][i];
            0 < e.to < |t.words| && t.words[e.to] == t.words[q[h]] + [e.c] && e.to !in q
            && Queue(t, q + [e.to], h, i + 1)
  {
    var u, e := q[h], t.kids[q[h]][i];
    var v := e.to;
    assert e in t.kids[u] && EdgeOk(t, u, e);
    LongerByOneIsChild(t, u, e.c, v);
    assert Last(t.words[v]) == e.c;
    assert !Discovered(t, q, h, i, v) by {
      assert SortedEdges(t.kids[u]);
    }
    QueuePushDiscovers(t, q, h, i, v);
  }

  lemma QueuePushDiscovers(t: Trie, q: seq<int>, h: int, i: int, v: int)
    requires |t.words| == |t.parent| == |t.kids|
    requires 0 <= h < |q| && 0 <= q[h] < |t.words| && 0 <= i < |t.kids[q[h]]|
    requires QueuedIffDiscovered(t, q, h, i)
    requires t.kids[q[h]][i].to == v && 0 < v < |t.words| && t.parent[v] == q[h]
    requires t.words[v] != [] && Last(t.words[v]) == t.kids[q[h]][i].c
    ensures QueuedIffDiscovered(t, q + [v], h, i + 1)
  {
    assert (q + [v])[..h] == q[..h];
    assert t.kids[q[h]][..i + 1] == t.kids[q[h]][..i] + [t.kids[q[h]][i]];
  }

  /** With all edges of `q[h]` expanded the head moves on. */
  lemma QueuePop(t: Trie, q: seq<int>, h: int, i: int)
    requires Shape(t) && Queue(t, q, h, i) && i == |t.kids[q[h]]| && h + 1 < |q|
    ensures Queue(t, q, h + 1, 0)
  {
    forall x | 0 < x < |t.words|
      ensures x in q <==> Discovered(t, q, h + 1, 0, x)
    {
      AllEdgesDiscover(t, q, h, i, x);
      assert q[..h + 1] == q[..h] + [q[h]];
    }
  }

  lemma AllEdgesDiscover(t: Trie, q: seq<int>, h: int, i: int, x: int)
    requires Shape(t) && Queue(t, q, h, i) && i == |t.kids[q[h]]| && 0 < x < |t.words|
    ensures x in q <==> t.parent[x] in q[..h] || t.parent[x] == q[h]
  {
    ParentSpells(t, x);
    assert t.kids[q[h]][..i] == t.kids[q[h]];
  }

  /** Everything no deeper than the node being expanded is already queued. */
  lemma {:induction false} LevelComplete(t: Trie, q: seq<int>, h: int, i: int, x: int)
    requires Shape(t) && Queue(t, q, h, i) && 0 <= x < |t.words| && D(t, x) <= D(t, q[h])
    ensures x in q
    decreases x
  {
    if x > 0 {
      ParentSpells(t, x);
      LevelComplete(t, q, h, i, t.parent[x]);
      var k :| 0 <= k < |q| && q[k] == t.parent[x];
      assert k < h;
      assert q[k] in q[..h];
      assert Discovered(t, q, h, i, x);
    }
  }

  /** When the last queued node is expanded, every node has been queued. */
  lemma {:induction false} QueueComplete(t: Trie, q: seq<int>, h: int, i: int, x: int)
    requires Shape(t) && Queue(t, q, h, i) && h == |q| - 1 && i == |t.kids[q[h]]| && 0 <= x < |t.words|
    ensures x in q
    decreases x
  {
    if x > 0 {
      ParentSpells(t, x);
      QueueComplete(t, q, h, i, t.parent[x]);
      assert q == q[..h] + [q[h]];
      AllEdgesDiscover(t, q, h, i, x);
    }
  }

  // ----- the links themselves

  /** All nodes of depth at most `d` (root apart) have their links. */
  ghost predicate LinkedTo(t: Trie, pats: map<Str, int>, nodes: seq<Node>, d: int) {
    forall x {:trigger NodeLinked(t, pats, nodes, x)} ::
      0 < x < |t.words| && D(t, x) <= d ==> NodeLinked(t, pats, nodes, x)
  }

  /** Build-time goto with failure fallback. */
  method BGotoFail(nodes: seq<Node>, kids: seq<seq<Edge>>, s0: int, c: Byte,
                   ghost t: Trie, ghost pats: map<Str, int>) returns (r: int)
    requires Shape(t) && kids == t.kids && |nodes| == |t.words| && 0 <= s0 < |t.words|
    requires LinkedTo(t, pats, nodes, D(t, s0))
    ensures 0 <= r < |t.words| && t.words[r] == Longest(t.words, t.words[s0] + [c])
  {
    ShapeIsPrefixClosed(t);
    var s := s0;
    while true
      invariant 0 <= s < |t.words| && D(t, s) <= D(t, s0)
      invariant Longest(t.words, t.words[s] + [c]) == Longest(t.words, t.words[s0] + [c])
      decreases D(t, s)
    {
      EdgesHaveTargets(t, s);
      var nx := BGoto(kids[s], c);
      LookupSpells(t, s, c, nx);
      if nx != -1 { return nx; }
      MissedEdge(t, s, c);
      if s == 0 { return 0; }
      assert NodeLinked(t, pats, nodes, s);
      s := nodes[s].fail;
    }
  }

  lemma EdgesHaveTargets(t: Trie, u: int)
    requires Shape(t) && 0 <= u < |t.words|
    ensures SortedEdges(t.kids[u]) && forall e :: e in t.kids[u] ==> 0 < e.to < |t.words|
  {
    forall e | e in t.kids[u]
      ensures 0 < e.to < |t.words|
    {
      assert EdgeOk(t, u, e);
    }
  }

  /** On a missing edge the search may continue from the longest proper suffix. */
  lemma MissedEdge(t: Trie, s: int, c: Byte)
    requires Shape(t) && 0 <= s < |t.words| && t.words[s] + [c] !in t.words
    ensures [] in t.words
    ensures s == 0 ==> Longest(t.words, t.words[s] + [c]) == []
    ensures s != 0 ==> t.words[s] != [] && Longest(t.words, t.words[s] + [c])
                       == Longest(t.words, Longest(t.words, t.words[s][1..]) + [c])
  {
    ShapeIsPrefixClosed(t);
    var w := t.words[s];
    if s == 0 {
      assert (w + [c])[1..] == [];
    } else {
      ParentSpells(t, s);
      assert (w + [c])[1..] == w[1..] + [c];
      LongestStep(t.words, w[1..], c);
    }
  }

  /** The failure string of a child, from the failure string of its parent. */
  lemma FailOfChild(words: seq<Str>, w: Str, c: Byte)
    requires PrefixClosed(words) && w != []
    ensures Longest(words, Longest(words, w[1..]) + [c]) == Longest(words, (w + [c])[1..])
  {
    assert (w + [c])[1..] == w[1..] + [c];
    LongestStep(words, w[1..], c);
  }

  /** The links computed for a child through its failure node `vf`. */
  lemma ChildLinks(t: Trie, pats: map<Str, int>, nodes: seq<Node>, w: Str, vf: int, n: Node)
    requires OutsOk(t, pats, nodes) && RootOk(nodes) && t.words[0] == []
    requires w != [] && 0 <= vf < |t.words| && [] in t.words
    requires t.words[vf] == Longest(t.words, w[1..])
    requires vf != 0 ==> NodeLinked(t, pats, nodes, vf)
    requires n.fail == vf && n.outLink == if nodes[vf].out != -1 then vf else nodes[vf].outLink
    ensures LinksOk(t, pats, n, w)
  {
    HitsOfLongest(t.words, pats, w[1..]);
    NearestOutput(t, pats, nodes, vf);
  }

  /** A node with an output is its own nearest output; otherwise its output link is. */
  lemma NearestOutput(t: Trie, pats: map<Str, int>, nodes: seq<Node>, u: int)
    requires OutsOk(t, pats, nodes) && RootOk(nodes) && 0 <= u < |t.words| && t.words[0] == []
    requires [] in t.words && (u != 0 ==> NodeLinked(t, pats, nodes, u))
    ensures OutLinkOk(t, pats, if nodes[u].out != -1 then u else nodes[u].outLink, t.words[u])
  {
    assert nodes[u].out == (if t.words[u] in pats then pats[t.words[u]] else -1);
  }

  lemma RootChildLinks(t: Trie, pats: map<Str, int>, nodes: seq<Node>, c: Byte, v: int, n: Node)
    requires Shape(t) && OutsOk(t, pats, nodes) && RootOk(nodes)
    requires 0 < v < |t.words| && t.words[v] == [c]
    requires n.fail == 0 && n.outLink == if nodes[0].out != -1 then 0 else nodes[0].outLink
    ensures [] in t.words && LinksOk(t, pats, n, t.words[v])
  {
    assert t.words[0] in t.words;
    assert t.words[v][1..] == [];
  }

  ghost predicate Linked(t: Trie, pats: map<Str, int>, nodes: seq<Node>, q: seq<int>) {
    forall x {:trigger NodeLinked(t, pats, nodes, x)} ::
      0 < x < |t.words| && x in q ==> NodeLinked(t, pats, nodes, x)
  }

  /** Everything but the links is untouched. */
  ghost predicate SameBesidesLinks(a: seq<Node>, b: seq<Node>) {
    && |a| == |b|
    && (forall u :: 0 <= u < |a| ==> b[u] == a[u].(fail := b[u].fail, outLink := b[u].outLink))
    && (0 < |a| ==> b[0] == a[0])
  }

  lemma PushKeepsLinked(t: Trie, pats: map<Str, int>, nodes: seq<Node>, q: seq<int>, v: int, n: Node)
    requires Shape(t) && |nodes| == |t.words| && Linked(t, pats, nodes, q)
    requires 0 < v < |t.words| && t.words[v] != [] && [] in t.words && LinksOk(t, pats, n, t.words[v])
    ensures Linked(t, pats, nodes[v := n], q + [v])
  {
    forall x | 0 < x < |t.words| && x in q + [v]
      ensures NodeLinked(t, pats, nodes[v := n], x)
    {
      assert x != v ==> NodeLinked(t, pats, nodes, x);
    }
  }

  lemma QueueFits(t: Trie, q: seq<int>, h: int, i: int)
    requires Shape(t) && Queue(t, q, h, i)
    ensures |q| <= |t.words|
  {
    Pigeonhole(q, |t.words|);
  }

  /** Body of the depth-one loop: link the root's `i`-th child. */
  method LinkRootChild(nodes0: seq<Node>, nodes: seq<Node>, kids: seq<seq<Edge>>, i: int,
                       ghost q: seq<int>, ghost t: Trie, ghost pats: map<Str, int>)
    returns (nodes': seq<Node>, ghost q': seq<int>)
    requires Shape(t) && kids == t.kids && OutsOk(t, pats, nodes0) && RootOk(nodes0)
    requires SameBesidesLinks(nodes0, nodes) && Linked(t, pats, nodes, q)
    requires Queue(t, q, 0, i) && i < |kids[0]|
    ensures q' == q + [kids[0][i].to] && Queue(t, q', 0, i + 1) && |q'| <= |nodes|
    ensures SameBesidesLinks(nodes0, nodes') && Linked(t, pats, nodes', q')
  {
    var v := kids[0][i].to;
    QueuePush(t, q, 0, i);
    assert kids[0][i] in t.kids[0] && EdgeOk(t, 0, kids[0][i]);
    var n := nodes[v].(fail := 0, outLink := if nodes[0].out != -1 then 0 else nodes[0].outLink);
    RootChildLinks(t, pats, nodes0, kids[0][i].c, v, n);
    nodes' := nodes[v := n];
    q' := q + [v];
    PushKeepsLinked(t, pats, nodes, q, v, n);
    QueueFits(t, q', 0, i + 1);
  }

  /** Body of the main loop: link `u`'s `i`-th child through `u`'s failure node `f`. */
  method LinkChild(nodes0: seq<Node>, nodes: seq<Node>, kids: seq<seq<Edge>>, u: int, f: int, i: int,
                   ghost q: seq<int>, ghost h: int, ghost t: Trie, ghost pats: map<Str, int>)
    returns (nodes': seq<Node>, ghost q': seq<int>)
    requires Shape(t) && kids == t.kids && OutsOk(t, pats, nodes0) && RootOk(nodes0)
    requires SameBesidesLinks(nodes0, nodes) && Linked(t, pats, nodes, q)
    requires Queue(t, q, h, i) && 0 < h && u == q[h] && i < |kids[u]| && f == nodes[u].fail
    ensures q' == q + [kids[u][i].to] && Queue(t, q', h, i + 1) && |q'| <= |nodes|
    ensures SameBesidesLinks(nodes0, nodes') && Linked(t, pats, nodes', q') && nodes'[u] == nodes[u]
  {
    var c, v := kids[u][i].c, kids[u][i].to;
    ParentIsLinked(t, pats, nodes, q, h, i);
    var vf := BGotoFail(nodes, kids, f, c, t, pats);
    QueuePush(t, q, h, i);
    var n := nodes[v].(fail := vf, outLink := if nodes[vf].out != -1 then vf else nodes[vf].outLink);
    nodes', q' := nodes[v := n], q + [v];
    OutsStay(t, pats, nodes0, nodes);
    ChildIsLinked(t, pats, nodes, u, c, v, vf, n);
    PushKeepsLinked(t, pats, nodes, q, v, n);
    QueueFits(t, q', h, i + 1);
  }

  lemma ParentIsLinked(t: Trie, pats: map<Str, int>, nodes: seq<Node>, q: seq<int>, h: int, i: int)
    requires Shape(t) && |nodes| == |t.words| && Queue(t, q, h, i) && 0 < h && Linked(t, pats, nodes, q)
    ensures [] in t.words && 0 < q[h] && t.words[q[h]] != []
    ensures NodeLinked(t, pats, nodes, q[h])
    ensures LinkedTo(t, pats, nodes, D(t, q[h]))
    ensures LinkedTo(t, pats, nodes, D(t, nodes[q[h]].fail))
  {
    var u := q[h];
    assert q[0] != q[h] && u in q;
    ShapeIsPrefixClosed(t);
    ShallowAreLinked(t, pats, nodes, q, h, i);
    assert NodeLinked(t, pats, nodes, u);
    assert |Longest(t.words, t.words[u][1..])| < |t.words[u]|;
  }

  lemma ChildIsLinked(t: Trie, pats: map<Str, int>, nodes: seq<Node>, u: int, c: Byte, v: int, vf: int, n: Node)
    requires Shape(t) && OutsOk(t, pats, nodes) && RootOk(nodes) && LinkedTo(t, pats, nodes, D(t, u))
    requires 0 < u < |t.words| && 0 < v < |t.words| && t.words[v] == t.words[u] + [c] && t.words[u] != []
    requires [] in t.words && 0 <= vf < |t.words|
    requires t.words[vf] == Longest(t.words, Longest(t.words, t.words[u][1..]) + [c])
    requires n.fail == vf && n.outLink == if nodes[vf].out != -1 then vf else nodes[vf].outLink
    ensures LinksOk(t, pats, n, t.words[v])
  {
    FailIsShallow(t, u, c, vf);
    assert vf != 0 ==> NodeLinked(t, pats, nodes, vf);
    ShapeIsPrefixClosed(t);
    FailOfChild(t.words, t.words[u], c);
    ChildLinks(t, pats, nodes, t.words[v], vf, n);
  }

  lemma OutsStay(t: Trie, pats: map<Str, int>, a: seq<Node>, b: seq<Node>)
    requires OutsOk(t, pats, a) && RootOk(a) && SameBesidesLinks(a, b)
    ensures OutsOk(t, pats, b) && RootOk(b)
  {
    forall u | 0 <= u < |b|
      ensures b[u].out == a[u].out
    {
    }
  }

  lemma ShallowAreLinked(t: Trie, pats: map<Str, int>, nodes: seq<Node>, q: seq<int>, h: int, i: int)
    requires Shape(t) && |nodes| == |t.words| && Queue(t, q, h, i) && Linked(t, pats, nodes, q)
    ensures LinkedTo(t, pats, nodes, D(t, q[h]))
  {
    forall x | 0 < x < |t.words| && D(t, x) <= D(t, q[h])
      ensures NodeLinked(t, pats, nodes, x)
    {
      LevelComplete(t, q, h, i, x);
    }
  }

  /** The failure node of a child is no deeper than its parent. */
  lemma FailIsShallow(t: Trie, u: int, c: Byte, vf: int)
    requires Shape(t) && [] in t.words && 0 < u < |t.words| && 0 <= vf < |t.words| && t.words[u] != []
    requires t.words[vf] == Longest(t.words, Longest(t.words, t.words[u][1..]) + [c])
    ensures D(t, vf) <= D(t, u)
  {
    assert |Longest(t.words, t.words[u][1..])| <= |t.words[u]| - 1;
  }

  lemma BfsDone(t: Trie, q: seq<int>, h: int, i: int)
    requires Shape(t) && Queue(t, q, h, i) && h == |q| - 1 && i == |t.kids[q[h]]|
    ensures |q| == |t.words| && forall x :: 0 <= x < |t.words| ==> x in q
    ensures forall x :: x in q[1..] <==> 0 < x < |t.words|
  {
    forall x | 0 <= x < |t.words|
      ensures x in q
    {
      QueueComplete(t, q, h, i, x);
    }
    PigeonholeExact(q, |t.words|);
    assert q == [0] + q[1..];
    forall x
      ensures x in q[1..] <==> 0 < x < |t.words|
    {
      if x in q[1..] {
        var j :| 0 <= j < |q[1..]| && q[1..][j] == x;
        assert q[j + 1] == x && q[0] != q[j + 1];
      }
      assert 0 < x < |t.words| ==> x in q;
    }
  }

  /** The queue buffer holds the ghost queue, root left out. */
  ghost predicate Mirrors(queue: array<int>, tail: int, q: seq<int>)
    reads queue
  {
    0 <= tail <= queue.Length && |q| == tail + 1 && forall j :: 0 <= j < tail ==> queue[j] == q[j + 1]
  }

  /** First loop of the build: the root's children fail to the root. */
  method LinkRootChildren(nodes0: seq<Node>, kids: seq<seq<Edge>>, queue: array<int>,
                          ghost t: Trie, ghost pats: map<Str, int>)
    returns (nodes: seq<Node>, tail: int, ghost q: seq<int>)
    requires Shape(t) && kids == t.kids && OutsOk(t, pats, nodes0) && RootOk(nodes0)
    requires queue.Length == |nodes0|
    modifies queue
    ensures SameBesidesLinks(nodes0, nodes) && Linked(t, pats, nodes, q)
    ensures tail < queue.Length && Mirrors(queue, tail, q) && Queue(t, q, 0, |kids[0]|)
  {
    nodes, tail, q := nodes0, 0, [0];
    QueueStart(t);
    var i := 0;
    while i < |kids[0]|
      invariant 0 <= i <= |kids[0]| && tail < queue.Length
      invariant Mirrors(queue, tail, q) && Queue(t, q, 0, i)
      invariant SameBesidesLinks(nodes0, nodes) && Linked(t, pats, nodes, q)
    {
      var v := kids[0][i].to;
      nodes, q := LinkRootChild(nodes0, nodes, kids, i, q, t, pats);
      queue[tail] := v;
      tail := tail + 1;
      i := i + 1;
    }
  }

  /** Inner loop of the build: link and queue all children of `u`, the node at `q[h]`. */
  method LinkChildren(nodes0: seq<Node>, before: seq<Node>, kids: seq<seq<Edge>>, queue: array<int>, tail0: int, u: int,
                      ghost q0: seq<int>, ghost h: int, ghost t: Trie, ghost pats: map<Str, int>)
    returns (nodes: seq<Node>, tail: int, ghost q: seq<int>)
    requires Shape(t) && kids == t.kids && OutsOk(t, pats, nodes0) && RootOk(nodes0)
    requires queue.Length == |nodes0| && tail0 < queue.Length && Mirrors(queue, tail0, q0)
    requires Queue(t, q0, h, 0) && 0 < h && u == q0[h]
    requires SameBesidesLinks(nodes0, before) && Linked(t, pats, before, q0)
    modifies queue
    ensures SameBesidesLinks(nodes0, nodes) && Linked(t, pats, nodes, q)
    ensures tail0 <= tail < queue.Length && Mirrors(queue, tail, q)
    ensures h < |q| && q[h] == u && Queue(t, q, h, |kids[u]|)
  {
    nodes, tail, q := before, tail0, q0;
    var f := nodes[u].fail;
    var i := 0;
    while i < |kids[u]|
      invariant 0 <= i <= |kids[u]| && tail0 <= tail < queue.Length
      invariant Mirrors(queue, tail, q) && Queue(t, q, h, i) && q[h] == u
      invariant SameBesidesLinks(nodes0, nodes) && Linked(t, pats, nodes, q) && f == nodes[u].fail
    {
      var v := kids[u][i].to;
      nodes, q := LinkChild(nodes0, nodes, kids, u, f, i, q, h, t, pats);
      queue[tail] := v;
      tail := tail + 1;
      i := i + 1;
    }
  }

  /** The breadth-first pass of the build: every node gets the right links, every
      non-root node is queued exactly once, and the queue never outgrows its buffer. */
  method ComputeLinks(nodes0: seq<Node>, kids: seq<seq<Edge>>, ghost t: Trie, ghost pats: map<Str, int>)
    returns (nodes: seq<Node>, tail: int, ghost q: seq<int>)
    requires Shape(t) && kids == t.kids && OutsOk(t, pats, nodes0) && RootOk(nodes0)
    ensures SameBesidesLinks(nodes0, nodes)
    ensures forall u {:trigger NodeLinked(t, pats, nodes, u)} :: 0 < u < |nodes| ==> NodeLinked(t, pats, nodes, u)
    ensures tail == |nodes| - 1 == |q|
    ensures forall x :: x in q <==> 0 < x < |nodes|
    ensures forall j, k :: 0 <= j < k < |q| ==> q[j] != q[k] && D(t, q[j]) <= D(t, q[k])
  {
    var queue := new int[|nodes0|];
    var head := 0;
    nodes, tail, q := LinkRootChildren(nodes0, kids, queue, t, pats);
    while head < tail
      invariant 0 <= head <= tail < queue.Length && Mirrors(queue, tail, q)
      invariant Below(q, |kids|) && Queue(t, q, head, |kids[q[head]]|)
      invariant SameBesidesLinks(nodes0, nodes) && Linked(t, pats, nodes, q)
      decreases queue.Length - head
    {
      QueuePop(t, q, head, |kids[q[head]]|);
      var u := queue[head];
      head := head + 1;
      nodes, tail, q := LinkChildren(nodes0, nodes, kids, queue, tail, u, q, head, t, pats);
    }
    BfsDone(t, q, head, |kids[q[head]]|);
    q := q[1..];
  }
}
