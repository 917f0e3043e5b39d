/** The multi-pattern matcher: build a trie from patterns, link it, freeze its edges
    into one array, then scan texts in one piece or as a stream. */
module AhoCorasick {
  import opened Common
  import opened AcTheory
  import opened CaseFold
  import opened AcTrie
  import opened AcLinks

  ghost predicate PrefixOfSome(s: Str, pats: map<Str, int>) {
    s == [] || exists p :: p in pats && s <= p
  }

  /** Every trie path is a prefix of a pattern (or of `extra`, being added). */
  ghost predicate PathsOk(words: seq<Str>, pats: map<Str, int>, extra: Str) {
    forall x {:trigger words[x]} :: 0 <= x < |words| ==> PrefixOfSome(words[x], pats) || words[x] <= extra
  }

  // ----- freezing

  /** Node `u`'s run in the flat edge array is its build-time list. */
  ghost predicate Frozen(nodes: seq<Node>, edges: seq<Edge>, kids: seq<seq<Edge>>, u: int) {
    && 0 <= u < |nodes| == |kids|
    && nodes[u].edgeN == |kids[u]|
    && 0 <= nodes[u].edgeFirst <= nodes[u].edgeFirst + nodes[u].edgeN <= |edges|
    && edges[nodes[u].edgeFirst..nodes[u].edgeFirst + nodes[u].edgeN] == kids[u]
  }

  ghost function TotalEdges(kids: seq<seq<Edge>>): nat {
    if kids == [] then 0 else TotalEdges(kids[..|kids| - 1]) + |kids[|kids| - 1]|
  }

  lemma {:induction false} TotalEdgesMonotone(kids: seq<seq<Edge>>, u: nat)
    requires u < |kids|
    ensures TotalEdges(kids[..u]) + |kids[u]| == TotalEdges(kids[..u + 1]) <= TotalEdges(kids)
    decreases |kids|
  {
    assert kids[..u + 1][..u] == kids[..u];
    if u == |kids| - 1 {
      assert kids[..u + 1] == kids;
    } else {
      TotalEdgesMonotone(kids[..|kids| - 1], u);
      assert kids[..|kids| - 1][..u + 1] == kids[..u + 1];
    }
  }

  ghost predicate SameBesidesRuns(a: seq<Node>, b: seq<Node>) {
    |a| == |b| && forall u :: 0 <= u < |a| ==> b[u] == a[u].(edgeFirst := b[u].edgeFirst, edgeN := b[u].edgeN)
  }

  /** Flatten the per-node edge lists into one exactly-sized array. */
  method Freeze(nodes0: seq<Node>, kids: seq<seq<Edge>>) returns (nodes: seq<Node>, edges: seq<Edge>)
    requires |nodes0| == |kids|
    ensures SameBesidesRuns(nodes0, nodes) && |edges| == TotalEdges(kids)
    ensures forall u {:trigger Frozen(nodes, edges, kids, u)} :: 0 <= u < |kids| ==> Frozen(nodes, edges, kids, u)
  {
    var total := 0;
    for u := 0 to |kids|
      invariant total == TotalEdges(kids[..u])
    {
      TotalEdgesMonotone(kids, u);
      total := total + |kids[u]|;
    }
    assert kids[..|kids|] == kids;
    nodes := nodes0;
    var flat := new Edge[total];
    var off := 0;
    for u := 0 to |kids|
      invariant off == TotalEdges(kids[..u]) <= total
      invariant SameBesidesRuns(nodes0, nodes)
      invariant forall x {:trigger Frozen(nodes, flat[..off], kids, x)} :: 0 <= x < u ==> Frozen(nodes, flat[..off], kids, x)
    {
      TotalEdgesMonotone(kids, u);
      ghost var before, nodes', off' := flat[..off], nodes, off;
      nodes := nodes[u := nodes[u].(edgeFirst := off, edgeN := |kids[u]|)];
      forall k | 0 <= k < |kids[u]| {
        flat[off + k] := kids[u][k];
      }
      off := off + |kids[u]|;
      assert flat[..off] == before + kids[u];
      FreezeStep(nodes', nodes, before, kids, u);
    }
    edges := flat[..];
    assert edges == flat[..off];
  }

  lemma FreezeStep(nodes: seq<Node>, nodes': seq<Node>, before: seq<Edge>, kids: seq<seq<Edge>>, u: int)
    requires 0 <= u < |nodes| == |kids|
    requires forall x {:trigger Frozen(nodes, before, kids, x)} :: 0 <= x < u ==> Frozen(nodes, before, kids, x)
    requires nodes' == nodes[u := nodes[u].(edgeFirst := |before|, edgeN := |kids[u]|)]
    ensures forall x {:trigger Frozen(nodes', before + kids[u], kids, x)} :: 0 <= x <= u ==>
              Frozen(nodes', before + kids[u], kids, x)
  {
    forall x | 0 <= x <= u
      ensures Frozen(nodes', before + kids[u], kids, x)
    {
      if x < u {
        assert Frozen(nodes, before, kids, x);
        var lo, hi := nodes[x].edgeFirst, nodes[x].edgeFirst + nodes[x].edgeN;
        assert (before + kids[u])[lo..hi] == before[lo..hi];
      }
    }
  }

  // ----- growing the trie

  lemma ExtendKeepsOuts(t: Trie, pats: map<Str, int>, nodes: seq<Node>, u: int, c: Byte, es: seq<Edge>, n: Node)
    requires OutsOk(t, pats, nodes) && 0 <= u < |t.words| == |t.kids| && t.words[u] + [c] !in t.words && n.out == -1
    ensures OutsOk(Extend(t, u, c, es), pats, nodes + [n])
  {
    var t' := Extend(t, u, c, es);
    assert forall p :: p in t.words ==> p in t'.words;
  }

  /** Recording a pattern at the node that spells it. */
  lemma RecordPattern(t: Trie, pats: map<Str, int>, nodes: seq<Node>, u: int, id: nat)
    requires Shape(t) && OutsOk(t, pats, nodes) && 0 <= u < |t.words| && t.words[u] != []
    ensures OutsOk(t, pats[t.words[u] := id], nodes[u := nodes[u].(out := id)])
  {
    forall x | 0 <= x < |nodes| && t.words[x] == t.words[u]
      ensures x == u
    {
      SameWordSameNode(t, x, u);
    }
  }

  lemma RecordPath(words: seq<Str>, pats: map<Str, int>, w: Str, id: nat)
    requires PathsOk(words, pats, w)
    ensures PathsOk(words, pats[w := id], [])
  {
    var pats' := pats[w := id];
    forall x | 0 <= x < |words|
      ensures PrefixOfSome(words[x], pats')
    {
      if words[x] <= w {
        assert w in pats' && words[x] <= w;
      } else if words[x] != [] {
        var p :| p in pats && words[x] <= p;
        assert p in pats' && words[x] <= p;
      }
    }
  }

  lemma NoEdgeYet(t: Trie, u: int, c: Byte)
    requires Shape(t) && 0 <= u < |t.words| && t.words[u] + [c] !in t.words
    ensures SortedEdges(t.kids[u]) && forall e :: e in t.kids[u] ==> e.c != c
  {
    forall e | e in t.kids[u]
      ensures e.c != c
    {
      assert EdgeOk(t, u, e) && t.words[e.to] in t.words;
    }
  }

  lemma RunsKeepLinks(t: Trie, pats: map<Str, int>, a: seq<Node>, b: seq<Node>)
    requires OutsOk(t, pats, a) && RootOk(a) && SameBesidesRuns(a, b)
    requires forall u {:trigger NodeLinked(t, pats, a, u)} :: 0 < u < |a| ==> NodeLinked(t, pats, a, u)
    ensures OutsOk(t, pats, b) && RootOk(b)
    ensures forall u {:trigger NodeLinked(t, pats, b, u)} :: 0 < u < |b| ==> NodeLinked(t, pats, b, u)
  {
    forall u | 0 < u < |b|
      ensures NodeLinked(t, pats, b, u)
    {
      assert NodeLinked(t, pats, a, u);
    }
  }

  /** Allocate a node and hang it under `u` on byte `c`. */
  method Grow(nodes0: seq<Node>, kids0: seq<seq<Edge>>, u: int, c: Byte, ghost t0: Trie, ghost pats: map<Str, int>)
    returns (nodes: seq<Node>, kids: seq<seq<Edge>>, v: int, ghost t: Trie)
    requires Shape(t0) && OutsOk(t0, pats, nodes0) && RootOk(nodes0) && kids0 == t0.kids
    requires 0 <= u < |t0.words| && t0.words[u] + [c] !in t0.words
    ensures Shape(t) && OutsOk(t, pats, nodes) && RootOk(nodes) && kids == t.kids
    ensures v == |t0.words| && t.words == t0.words + [t0.words[u] + [c]]
  {
    NoEdgeYet(t0, u, c);
    var n := Node(-1, -1, -1, -1, 0);
    v, nodes, kids := |nodes0|, nodes0 + [n], kids0 + [[]];
    var es := BEdgeAdd(kids[u], c, v);
    kids := kids[u := es];
    t := Extend(t0, u, c, es);
    ExtendKeepsShape(t0, u, c, es);
    ExtendKeepsOuts(t0, pats, nodes0, u, c, es, n);
  }

  /** The child of `u` on byte `c`, grown if it is missing; `w` is the pattern being added. */
  method Child(nodes0: seq<Node>, kids0: seq<seq<Edge>>, u: int, c: Byte, ghost t0: Trie, ghost pats: map<Str, int>, ghost w: Str)
    returns (nodes: seq<Node>, kids: seq<seq<Edge>>, v: int, ghost t: Trie)
    requires Shape(t0) && OutsOk(t0, pats, nodes0) && RootOk(nodes0) && kids0 == t0.kids && PathsOk(t0.words, pats, w)
    requires 0 <= u < |t0.words| && t0.words[u] + [c] <= w
    ensures Shape(t) && OutsOk(t, pats, nodes) && RootOk(nodes) && kids == t.kids && PathsOk(t.words, pats, w)
    ensures t0.words <= t.words && 0 <= v < |t.words| && t.words[v] == t0.words[u] + [c]
  {
    nodes, kids, t := nodes0, kids0, t0;
    EdgesHaveTargets(t, u);
    v := BGoto(kids[u], c);
    LookupSpells(t, u, c, v);
    if v == -1 {
      nodes, kids, v, t := Grow(nodes, kids, u, c, t, pats);
    }
  }

  lemma {:induction false} OneMore(w: Str, i: nat)
    requires i < |w|
    ensures w[..i] + [w[i]] == w[..i + 1] <= w
  {
  }

  /** Walk the trie along a pattern, growing it where the path ends. */
  method Insert(nodes0: seq<Node>, kids0: seq<seq<Edge>>, nocase: bool, pat: Str, ghost t0: Trie, ghost pats: map<Str, int>)
    returns (nodes: seq<Node>, kids: seq<seq<Edge>>, u: int, ghost t: Trie)
    requires Shape(t0) && OutsOk(t0, pats, nodes0) && RootOk(nodes0) && kids0 == t0.kids && PathsOk(t0.words, pats, [])
    ensures Shape(t) && OutsOk(t, pats, nodes) && RootOk(nodes) && kids == t.kids && t0.words <= t.words
    ensures 0 <= u < |t.words| && t.words[u] == NormAll(nocase, pat) && PathsOk(t.words, pats, NormAll(nocase, pat))
  {
    nodes, kids, u, t := nodes0, kids0, 0, t0;
    ghost var w := NormAll(nocase, pat);
    for i := 0 to |pat|
      invariant Shape(t) && OutsOk(t, pats, nodes) && RootOk(nodes) && kids == t.kids
      invariant t0.words <= t.words && PathsOk(t.words, pats, w)
      invariant 0 <= u < |t.words| && t.words[u] == w[..i]
    {
      var c := Norm(nocase, pat[i]);
      OneMore(w, i);
      nodes, kids, u, t := Child(nodes, kids, u, c, t, pats, w);
    }
  }

  /** Insert a pattern and record its id at the node that spells it. */
  method InsertPattern(nodes0: seq<Node>, kids0: seq<seq<Edge>>, nocase: bool, pat: Str, id: nat,
                       ghost t0: Trie, ghost pats: map<Str, int>)
    returns (nodes: seq<Node>, kids: seq<seq<Edge>>, ghost t: Trie)
    requires pat != [] && Shape(t0) && OutsOk(t0, pats, nodes0) && RootOk(nodes0) && kids0 == t0.kids
    requires PathsOk(t0.words, pats, [])
    ensures Shape(t) && RootOk(nodes) && kids == t.kids && t0.words <= t.words
    ensures OutsOk(t, pats[NormAll(nocase, pat) := id], nodes) && PathsOk(t.words, pats[NormAll(nocase, pat) := id], [])
  {
    var u;
    nodes, kids, u, t := Insert(nodes0, kids0, nocase, pat, t0, pats);
    RecordPattern(t, pats, nodes, u, id);
    RecordPath(t.words, pats, NormAll(nocase, pat), id);
    nodes := nodes[u := nodes[u].(out := id)];
  }

  // ----- scanning

  /** A linked and frozen automaton. */
  ghost predicate Ready(t: Trie, pats: map<Str, int>, nodes: seq<Node>, edges: seq<Edge>) {
    && Shape(t) && OutsOk(t, pats, nodes) && RootOk(nodes)
    && (forall u {:trigger Frozen(nodes, edges, t.kids, u)} :: 0 <= u < |nodes| ==> Frozen(nodes, edges, t.kids, u))
    && (forall u {:trigger NodeLinked(t, pats, nodes, u)} :: 0 < u < |nodes| ==> NodeLinked(t, pats, nodes, u))
  }

  /** Runtime goto over the flat edge array; agrees with the build-time lookup. */
  method Goto(nodes: seq<Node>, edges: seq<Edge>, s: int, c: Byte, ghost kids: seq<seq<Edge>>) returns (r: int)
    requires Frozen(nodes, edges, kids, s) && SortedEdges(kids[s]) && forall e :: e in kids[s] ==> e.to != -1
    ensures LookupOk(kids[s], c, r)
  {
    var first, n := nodes[s].edgeFirst, nodes[s].edgeN;
    r := BGoto(edges[first..first + n], c);
  }

  /** One byte of a scan: follow failure links until an edge fits. Each hop is paid
      for by a level of depth, and a byte buys back at most one level. */
  method Advance(nodes: seq<Node>, edges: seq<Edge>, st0: int, c: Byte, ghost t: Trie, ghost pats: map<Str, int>)
    returns (st: int, ghost hops: nat)
    requires Ready(t, pats, nodes, edges) && 0 <= st0 < |nodes|
    ensures [] in t.words && 0 <= st < |nodes| && t.words[st] == Longest(t.words, t.words[st0] + [c])
    ensures hops + D(t, st) <= D(t, st0) + 1
  {
    ShapeIsPrefixClosed(t);
    st, hops := st0, 0;
    var nx := Step(nodes, edges, st, c, t, pats);
    while nx == -1 && st != 0
      invariant 0 <= st < |nodes| && hops + D(t, st) <= D(t, st0)
      invariant Longest(t.words, t.words[st] + [c]) == Longest(t.words, t.words[st0] + [c])
      invariant nx == -1 <==> t.words[st] + [c] !in t.words
      invariant nx != -1 ==> 0 < nx < |nodes| && t.words[nx] == t.words[st] + [c]
      decreases D(t, st)
    {
      MissedEdge(t, st, c);
      assert NodeLinked(t, pats, nodes, st);
      st, hops := nodes[st].fail, hops + 1;
      nx := Step(nodes, edges, st, c, t, pats);
    }
    if nx == -1 {
      MissedEdge(t, st, c);
    }
    st := if nx >= 0 then nx else 0;
  }

  /** A goto, read as a question about trie paths. */
  method Step(nodes: seq<Node>, edges: seq<Edge>, s: int, c: Byte, ghost t: Trie, ghost pats: map<Str, int>) returns (nx: int)
    requires Ready(t, pats, nodes, edges) && 0 <= s < |nodes|
    ensures nx == -1 <==> t.words[s] + [c] !in t.words
    ensures nx != -1 ==> 0 < nx < |nodes| && t.words[nx] == t.words[s] + [c]
  {
    EdgesHaveTargets(t, s);
    assert Frozen(nodes, edges, t.kids, s);
    nx := Goto(nodes, edges, s, c, t.kids);
    LookupSpells(t, s, c, nx);
  }

  /** Report everything that ends at a node, until the callback says stop. */
  method Emit(nodes: seq<Node>, edges: seq<Edge>, st: int, end: int, stopAt: nat, served0: seq<Match>,
              ghost t: Trie, ghost pats: map<Str, int>)
    returns (served: seq<Match>, stopped: bool)
    requires Ready(t, pats, nodes, edges) && 0 <= st < |nodes| && (0 < stopAt ==> |served0| < stopAt)
    ensures var full := served0 + Due(t, pats, st, end);
            if stopped then served <= full && |served| == stopAt > 0 && served[stopAt - 1].end == end
            else served == full && (0 < stopAt ==> |served| < stopAt)
  {
    var u := st;
    served := served0;
    ghost var full := served0 + Due(t, pats, st, end);
    while u != -1
      invariant -1 <= u < |nodes| && (0 < stopAt ==> |served| < stopAt)
      invariant full == served + Due(t, pats, u, end)
      decreases if u == -1 then 0 else 1 + D(t, u)
    {
      assert u != 0 ==> NodeLinked(t, pats, nodes, u);
      DueAtNode(t, pats, nodes, u, end);
      ghost var m, due := Match(nodes[u].out, end), Due(t, pats, nodes[u].outLink, end);
      assert served + ([m] + due) == (served + [m]) + due;
      if nodes[u].out != -1 {
        served := served + [Match(nodes[u].out, end)];
        if |served| == stopAt { return served, true; }
      }
      u := nodes[u].outLink;
    }
    return served, false;
  }

  /** One byte of the scanning loop, at position `i` of `whole`: the new state and the reports so
      far, or the reports up to the callback's first non-zero answer. */
  method ScanByte(nodes: seq<Node>, edges: seq<Edge>, st0: int, c: Byte, end: int, stopAt: nat, served0: seq<Match>,
                  ghost start: Str, ghost whole: Str, ghost i: nat, ghost off: int, ghost t: Trie, ghost pats: map<Str, int>)
    returns (st: int, served: seq<Match>, stopped: bool, ghost hops: nat)
    requires Ready(t, pats, nodes, edges) && 0 <= st0 < |nodes| && [] in t.words
    requires i < |whole| && c == whole[i] && end == off + i && (0 < stopAt ==> |served0| < stopAt)
    requires t.words[st0] == Longest(t.words, start + whole[..i]) && served0 == Scan(pats, start, whole[..i], off)
    ensures 0 <= st < |nodes| && t.words[st] == Longest(t.words, start + whole[..i + 1])
    ensures hops + D(t, st) <= D(t, st0) + 1
    ensures if stopped then served == Served(Scan(pats, start, whole, off), stopAt)
                            && |served| == stopAt > 0 && served[stopAt - 1].end == end
            else served == Scan(pats, start, whole[..i + 1], off) && (0 < stopAt ==> |served| < stopAt)
  {
    ShapeIsPrefixClosed(t);
    st, hops := Advance(nodes, edges, st0, c, t, pats);
    StepScan(t, pats, start, whole, i, off, st0, st);
    served, stopped := Emit(nodes, edges, st, end, stopAt, served0, t, pats);
    if stopped {
      StopInside(pats, start, whole, i + 1, off, served);
    }
  }

  /** The scanning loop: `used` bytes were read, all of them unless the callback stopped it, and then
      those up to the report that did. */
  method ScanChunk(nodes: seq<Node>, edges: seq<Edge>, nocase: bool, st0: int, text: Str, off: int,
                   stopAt: nat, ghost t: Trie, ghost pats: map<Str, int>)
    returns (hits: int, st: int, served: seq<Match>, ghost used: nat, ghost hops: nat)
    requires Ready(t, pats, nodes, edges) && 0 <= st0 < |nodes|
    ensures hits == |served| && served == Served(Scan(pats, t.words[st0], NormAll(nocase, text), off), stopAt)
    ensures used == (if |served| == stopAt > 0 then served[stopAt - 1].end - off + 1 else |text|) <= |text|
    ensures [] in t.words && 0 <= st < |nodes|
    ensures t.words[st] == Longest(t.words, t.words[st0] + NormAll(nocase, text)[..used])
    ensures hops + D(t, st) <= D(t, st0) + used
  {
    ghost var start, whole := t.words[st0], NormAll(nocase, text);
    hits, st, served, used, hops := 0, st0, [], 0, 0;
    ShapeIsPrefixClosed(t);
    assert start + whole[..0] == start && whole[..0] == [];
    var i := 0;
    while i < |text|
      invariant 0 <= i == used <= |text| && 0 <= st < |nodes|
      invariant t.words[st] == Longest(t.words, start + whole[..i])
      invariant hits == |served| && served == Scan(pats, start, whole[..i], off)
      invariant 0 < stopAt ==> |served| < stopAt
      invariant hops + D(t, st) <= |start| + i
    {
      ghost var h;
      var stopped;
      st, served, stopped, h := ScanByte(nodes, edges, st, Norm(nocase, text[i]), off + i, stopAt, served,
                                         start, whole, i, off, t, pats);
      hits, i, hops := |served|, i + 1, hops + h;
      used := i;
      if stopped { return; }
    }
    assert whole[..used] == whole;
  }

  /** Reports still due when the output walk stands at `u`. */
  ghost function Due(t: Trie, pats: map<Str, int>, u: int, end: int): seq<Match>
    requires -1 <= u < |t.words|
  {
    if u == -1 then [] else Tag(Hits(pats, t.words[u]), end)
  }

  /** What ends at a node is its own output followed by what ends at its output link. */
  lemma DueAtNode(t: Trie, pats: map<Str, int>, nodes: seq<Node>, u: int, end: int)
    requires 0 <= u < |nodes| && t.words != [] && t.words[0] == [] && OutsOk(t, pats, nodes) && RootOk(nodes)
    requires u != 0 ==> NodeLinked(t, pats, nodes, u)
    ensures -1 <= nodes[u].outLink < |nodes|
    ensures nodes[u].outLink != -1 ==> D(t, nodes[u].outLink) < D(t, u)
    ensures Due(t, pats, u, end) == (if nodes[u].out != -1 then [Match(nodes[u].out, end)] else [])
                                    + Due(t, pats, nodes[u].outLink, end)
  {
    if u != 0 {
      var w := t.words[u];
      HitsViaLongestHit(pats, w[1..]);
      TagConcat(if w in pats then [pats[w]] else [], Hits(pats, w[1..]), end);
      assert nodes[u].out == (if w in pats then pats[w] else -1);
      assert w in pats ==> pats[w] >= 0;
    }
  }

  /** One more byte, on the side of the specification. */
  lemma StepScan(t: Trie, pats: map<Str, int>, start: Str, whole: Str, i: int, off: int, st: int, st': int)
    requires PrefixClosed(t.words) && 0 <= i < |whole| && 0 <= st < |t.words| && 0 <= st' < |t.words|
    requires forall p :: p in pats ==> p in t.words
    requires t.words[st] == Longest(t.words, start + whole[..i])
    requires t.words[st'] == Longest(t.words, t.words[st] + [whole[i]])
    ensures t.words[st'] == Longest(t.words, start + whole[..i + 1])
    ensures Scan(pats, start, whole[..i + 1], off)
            == Scan(pats, start, whole[..i], off) + Tag(Hits(pats, t.words[st']), off + i)
  {
    assert start + whole[..i + 1] == (start + whole[..i]) + [whole[i]];
    LongestStep(t.words, start + whole[..i], whole[i]);
    HitsOfLongest(t.words, pats, start + whole[..i + 1]);
    assert whole[..i + 1][..i] == whole[..i];
  }

  /** A scan stopped inside the text has served a prefix of the whole scan. */
  lemma StopInside(pats: map<Str, int>, start: Str, whole: Str, k: nat, off: int, served: seq<Match>)
    requires k <= |whole| && served <= Scan(pats, start, whole[..k], off)
    ensures served <= Scan(pats, start, whole, off)
  {
    assert whole == whole[..k] + whole[k..];
    ScanConcat(pats, start, whole[..k], whole[k..], off);
  }

  ghost function Joined(chunks: seq<Str>): Str {
    if chunks == [] then [] else Joined(chunks[..|chunks| - 1]) + chunks[|chunks| - 1]
  }

  /** One chunk scanned from the state that stands for `seen` continues the scan of `seen`. */
  lemma NextChunk(t: Trie, pats: map<Str, int>, seen: Str, chunk: Str, st: int, used: nat)
    requires PrefixClosed(t.words) && forall p :: p in pats ==> p in t.words
    requires used == |chunk| && 0 <= st < |t.words|
    requires t.words[st] == Longest(t.words, Longest(t.words, seen) + chunk[..used])
    ensures t.words[st] == Longest(t.words, seen + chunk)
    ensures Scan(pats, [], seen + chunk, 0)
            == Scan(pats, [], seen, 0) + Scan(pats, Longest(t.words, seen), chunk, |seen|)
  {
    assert chunk[..used] == chunk;
    LongestChunk(t.words, seen, chunk);
    ScanFromLongest(t.words, pats, seen, chunk, |seen|);
    ScanConcat(pats, [], seen, chunk, 0);
    assert [] + seen == seen;
  }

  class Automaton {
    var nodes: seq<Node>
    var scratch: seq<seq<Edge>>  // per-node edge lists, emptied by Build
    var edges: seq<Edge>         // all edges, filled by Build
    var nocase: bool
    var built: bool
    ghost var trie: Trie
    ghost var added: seq<(Str, int)>  // the accepted additions, as given
    ghost var pats: map<Str, int>     // normalised content -> id last added for it

    ghost predicate Valid()
      reads this
    {
      && Shape(trie) && OutsOk(trie, pats, nodes) && RootOk(nodes) && PathsOk(trie.words, pats, [])
      && pats == PatternMap(nocase, added) && NoneEmpty(added)
      && (if built then Ready(trie, pats, nodes, edges) else scratch == trie.kids)
    }

    constructor (fold: bool)
      ensures Valid() && !built && nocase == fold && pats == map[] && added == [] && trie.words == [[]]
    {
      nodes := [Node(-1, -1, -1, -1, 0)];
      scratch := [[]];
      edges := [];
      nocase := fold;
      built := false;
      trie := Trie([[]], [0], [[]]);
      pats, added := map[], [];
    }

    /** Add a pattern; -1 when the automaton is frozen, the pattern empty or the id negative. */
    method AddPattern(pat: Str, id: int) returns (r: int)
      requires Valid()
      modifies this
      ensures Valid() && nocase == old(nocase) && built == old(built)
      ensures r == if built || pat == [] || id < 0 then -1 else 0
      ensures added == if r == 0 then old(added) + [(pat, id)] else old(added)
      ensures r == -1 ==> pats == old(pats) && trie == old(trie) && nodes == old(nodes)
      ensures r == 0 ==> pats == old(pats)[NormAll(nocase, pat) := id] && old(trie.words) <= trie.words
    {
      if built || |pat| <= 0 || id < 0 { return -1; }
      OneMoreAdded(nocase, added, pat, id);
      nodes, scratch, trie := InsertPattern(nodes, scratch, nocase, pat, id, trie, pats);
      pats, added := pats[NormAll(nocase, pat) := id], added + [(pat, id)];
      return 0;
    }

    /** Link and freeze the automaton; a second call does nothing. */
    method Build() returns (r: int)
      requires Valid()
      modifies this
      ensures Valid() && built && r == 0
      ensures nocase == old(nocase) && added == old(added) && pats == old(pats) && trie == old(trie)
      ensures old(built) ==> nodes == old(nodes) && edges == old(edges)
    {
      if built { return 0; }
      var linked, tail, q := ComputeLinks(nodes, scratch, trie, pats);
      OutsStay(trie, pats, nodes, linked);
      var frozen, flat := Freeze(linked, scratch);
      RunsKeepLinks(trie, pats, linked, frozen);
      nodes, scratch, edges, built := frozen, [], flat, true;
      return 0;
    }

    /** Scan a chunk from a carried state (an unusable state means the root). The
        reports, the new state and the number of failure hops are those of the
        string the state stands for, followed by the chunk. */
    method SearchStream(state0: int, text: Str, off: int, stopAt: nat)
      returns (hits: int, state: int, served: seq<Match>, ghost used: nat, ghost hops: nat)
      requires Valid()
      ensures !built ==> hits == -1 && state == state0 && served == []
      ensures built ==>
                var start := if 0 <= state0 < |nodes| then trie.words[state0] else [];
                var whole := NormAll(nocase, text);
                && hits == |served| && served == Served(Scan(pats, start, whole, off), stopAt)
                && used == (if |served| == stopAt > 0 then served[stopAt - 1].end - off + 1 else |text|) <= |text|
                && [] in trie.words
                && 0 <= state < |nodes| && trie.words[state] == Longest(trie.words, start + whole[..used])
                && hops + D(trie, state) <= |start| + used
    {
      if !built { return -1, state0, [], 0, 0; }
      var st := if 0 <= state0 < |nodes| then state0 else 0;
      hits, state, served, used, hops := ScanChunk(nodes, edges, nocase, st, text, off, stopAt, trie, pats);
    }

    /** Scan a whole text: the reports are the occurrences, up to letter case when
        folding, of the additions that still stand, cut where the callback says stop. */
    method Search(text: Str, stopAt: nat)
      returns (hits: int, served: seq<Match>, ghost hops: nat, ghost who: seq<(int, int)>)
      requires Valid()
      ensures !built ==> hits == -1 && served == []
      ensures built ==> hits == |served| && hops <= |text|
                        && served == Served(Scan(pats, [], NormAll(nocase, text), 0), stopAt)
      ensures built ==> Occurrences(nocase, added, text, who) && Tells(added, who, served)
                        && |served| == (if stopAt == 0 || |who| < stopAt then |who| else stopAt)
    {
      who := ReportsUpToCase(nocase, added, text);
      var state;
      ghost var used;
      hits, state, served, used, hops := SearchStream(0, text, 0, stopAt);
    }

    /** Feeding a stream piece by piece, carrying the state and the offset, reports what
        one scan of the whole stream reports, at a total cost of one hop a byte. */
    method SearchChunks(chunks: seq<Str>)
      returns (served: seq<Match>, state: int, ghost hops: nat, ghost who: seq<(int, int)>)
      requires Valid() && built
      ensures served == Scan(pats, [], NormAll(nocase, Joined(chunks)), 0)
      ensures [] in trie.words && 0 <= state < |nodes|
      ensures trie.words[state] == Longest(trie.words, NormAll(nocase, Joined(chunks)))
      ensures hops + D(trie, state) <= |Joined(chunks)|
      ensures Occurrences(nocase, added, Joined(chunks), who) && Tells(added, who, served) && |served| == |who|
    {
      served, state, hops := [], 0, 0;
      ghost var seen: Str := [];
      ShapeIsPrefixClosed(trie);
      var k, off := 0, 0;
      while k < |chunks|
        invariant 0 <= k <= |chunks| && 0 <= state < |nodes| && off == |seen|
        invariant seen == NormAll(nocase, Joined(chunks[..k]))
        invariant served == Scan(pats, [], seen, 0) && trie.words[state] == Longest(trie.words, seen)
        invariant hops + D(trie, state) <= |seen|
      {
        ghost var chunk, used, h := NormAll(nocase, chunks[k]), 0, 0;
        var hits, part;
        hits, state, part, used, h := SearchStream(state, chunks[k], off, 0);
        NextChunk(trie, pats, seen, chunk, state, used);
        assert chunks[..k + 1][..k] == chunks[..k];
        NormConcat(nocase, Joined(chunks[..k]), chunks[k]);
        served, off, k := served + part, off + |chunks[k]|, k + 1;
        seen, hops := seen + chunk, hops + h;
      }
      assert chunks[..k] == chunks;
      who := ReportsUpToCase(nocase, added, Joined(chunks));
    }
  }
}
