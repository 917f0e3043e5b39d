/** The build-time trie: per-node edge lists kept sorted by byte, and the strings
    that the nodes spell. */
module AcTrie {
  import opened Common
  import opened AcTheory

  /** One trie edge: on byte `c` go to node `to`. */
  datatype Edge = Edge(c: Byte, to: int)

  /** The ghost reading of a trie: `words[u]` is the string node `u` spells,
      `parent[u]` the node it hangs from, `kids[u]` its edge list. */
  datatype Trie = Trie(words: seq<Str>, parent: seq<int>, kids: seq<seq<Edge>>)

  ghost predicate SortedEdges(es: seq<Edge>) {
    forall i, j :: 0 <= i < j < |es| ==> es[i].c < es[j].c
  }

  ghost function Last(w: Str): Byte
    requires w != []
  {
    w[|w| - 1]
  }

  /** Node `v` hangs from an older node by an edge on its last byte. */
  ghost predicate InTree(t: Trie, v: int)
    requires 0 <= v < |t.words| == |t.parent| == |t.kids|
  {
    && 0 <= t.parent[v] < v
    && t.words[v] != []
    && Edge(Last(t.words[v]), v) in t.kids[t.parent[v]]
  }

  /** An edge leads to the node spelling one more byte. */
  ghost predicate EdgeOk(t: Trie, u: int, e: Edge)
    requires 0 <= u < |t.words|
  {
    0 < e.to < |t.words| && t.words[e.to] == t.words[u] + [e.c]
  }

  /** Two nodes spell different strings. */
  ghost predicate Apart(t: Trie, u: int, v: int)
    requires 0 <= u < |t.words| && 0 <= v < |t.words|
  {
    t.words[u] != t.words[v]
  }

  ghost predicate Shape(t: Trie) {
    && 0 < |t.words| == |t.parent| == |t.kids|
    && t.words[0] == []
    && (forall u, v {:trigger Apart(t, u, v)} :: 0 <= u < v < |t.words| ==> Apart(t, u, v))
    && (forall u :: 0 <= u < |t.words| ==> SortedEdges(t.kids[u]))
    && (forall u, e :: 0 <= u < |t.words| && e in t.kids[u] ==> EdgeOk(t, u, e))
    && (forall v {:trigger InTree(t, v)} :: 0 < v < |t.words| ==> InTree(t, v))
  }

  lemma ParentSpells(t: Trie, v: int)
    requires Shape(t) && 0 < v < |t.words|
    ensures 0 <= t.parent[v] < v && t.words[v] != []
    ensures t.words[v] == t.words[t.parent[v]] + [Last(t.words[v])]
    ensures Edge(Last(t.words[v]), v) in t.kids[t.parent[v]]
  {
    assert InTree(t, v);
    assert EdgeOk(t, t.parent[v], Edge(Last(t.words[v]), v));
  }

  lemma ShapeIsPrefixClosed(t: Trie)
    requires Shape(t)
    ensures PrefixClosed(t.words)
  {
    assert t.words[0] in t.words;
    forall s: Str, c: Byte | s + [c] in t.words
      ensures s in t.words
    {
      var v :| 0 <= v < |t.words| && t.words[v] == s + [c];
      ParentSpells(t, v);
      assert s == t.words[v][..|t.words[v]| - 1] == t.words[t.parent[v]];
    }
  }

  /** The answer of an edge lookup: the target of the edge on `c`, or -1. */
  ghost predicate LookupOk(es: seq<Edge>, c: Byte, r: int) {
    if r == -1 then forall e :: e in es ==> e.c != c else Edge(c, r) in es
  }

  /** Distinct nodes spell distinct strings. */
  lemma SameWordSameNode(t: Trie, u: int, v: int)
    requires Shape(t) && 0 <= u < |t.words| && 0 <= v < |t.words| && t.words[u] == t.words[v]
    ensures u == v
  {
    assert u < v ==> Apart(t, u, v);
    assert v < u ==> Apart(t, v, u);
  }

  /** A node spelling one byte more than `u` is `u`'s child. */
  lemma LongerByOneIsChild(t: Trie, u: int, c: Byte, v: int)
    requires Shape(t) && 0 <= u < |t.words| && 0 <= v < |t.words| && t.words[v] == t.words[u] + [c]
    ensures Edge(c, v) in t.kids[u] && 0 < v && t.parent[v] == u
  {
    ParentSpells(t, v);
    assert t.words[v][..|t.words[v]| - 1] == t.words[t.parent[v]];
    assert t.words[v][..|t.words[v]| - 1] == t.words[u];
    SameWordSameNode(t, u, t.parent[v]);
  }

  /** An edge lookup decides whether the extended string is a trie path. */
  lemma LookupSpells(t: Trie, u: int, c: Byte, r: int)
    requires Shape(t) && 0 <= u < |t.words| && LookupOk(t.kids[u], c, r)
    ensures r == -1 <==> t.words[u] + [c] !in t.words
    ensures r != -1 ==> 0 < r < |t.words| && t.words[r] == t.words[u] + [c]
  {
    if r != -1 {
      assert EdgeOk(t, u, Edge(c, r));
    }
    forall v | 0 <= v < |t.words| && t.words[v] == t.words[u] + [c]
      ensures Edge(c, v) in t.kids[u]
    {
      LongerByOneIsChild(t, u, c, v);
    }
  }

  /** Build-time goto: binary search of one node's edge list. */
  method BGoto(es: seq<Edge>, c: Byte) returns (r: int)
    requires SortedEdges(es) && forall e :: e in es ==> e.to != -1
    ensures LookupOk(es, c, r)
  {
    var lo, hi := 0, |es| - 1;
    while lo <= hi
      invariant 0 <= lo <= |es| && -1 <= hi < |es|
      invariant forall i :: 0 <= i < lo ==> es[i].c < c
      invariant forall i :: hi < i < |es| ==> c < es[i].c
      decreases hi - lo + 1
    {
      var mid := (lo + hi) / 2;
      if es[mid].c == c { return es[mid].to; }
      if es[mid].c < c { lo := mid + 1; } else { hi := mid - 1; }
    }
    return -1;
  }

  /** Insert an edge, shifting the larger ones up by one. */
  method BEdgeAdd(es: seq<Edge>, c: Byte, v: int) returns (r: seq<Edge>)
    requires SortedEdges(es) && forall e :: e in es ==> e.c != c
    ensures SortedEdges(r)
    ensures forall e :: e in r <==> e in es || e == Edge(c, v)
  {
    var pos := 0;
    while pos < |es| && es[pos].c < c
      invariant 0 <= pos <= |es|
      invariant forall i :: 0 <= i < pos ==> es[i].c < c
    {
      pos := pos + 1;
    }
    assert forall i :: pos <= i < |es| ==> c < es[i].c by {
      assert pos < |es| ==> es[pos] in es;
    }
    r := es[..pos] + [Edge(c, v)] + es[pos..];
    InsertAt(es, pos, Edge(c, v));
  }

  lemma InsertAt(es: seq<Edge>, pos: nat, e: Edge)
    requires pos <= |es| && SortedEdges(es)
    requires forall i :: 0 <= i < pos ==> es[i].c < e.c
    requires forall i :: pos <= i < |es| ==> e.c < es[i].c
    ensures SortedEdges(es[..pos] + [e] + es[pos..])
    ensures forall x :: x in es[..pos] + [e] + es[pos..] <==> x in es || x == e
  {
    assert es == es[..pos] + es[pos..];
  }

  /** The trie after hanging a new node under `u` on byte `c`; `es` is `u`'s new edge list. */
  ghost function Extend(t: Trie, u: int, c: Byte, es: seq<Edge>): Trie
    requires 0 <= u < |t.words| == |t.kids|
  {
    Trie(t.words + [t.words[u] + [c]], t.parent + [u], t.kids[u := es] + [[]])
  }

  lemma ExtendKeepsShape(t: Trie, u: int, c: Byte, es: seq<Edge>)
    requires Shape(t) && 0 <= u < |t.words| && t.words[u] + [c] !in t.words
    requires SortedEdges(es) && forall e :: e in es <==> e in t.kids[u] || e == Edge(c, |t.words|)
    ensures Shape(Extend(t, u, c, es))
  {
    var t', n := Extend(t, u, c, es), |t.words|;
    forall v | 0 < v < |t'.words|
      ensures InTree(t', v)
    {
      if v < n {
        assert InTree(t, v);
      } else {
        assert Last(t'.words[n]) == c;
      }
    }
    forall w, e | 0 <= w < |t'.words| && e in t'.kids[w]
      ensures EdgeOk(t', w, e)
    {
      if w < n && e in t.kids[w] {
        assert EdgeOk(t, w, e);
      }
    }
    forall v, w | 0 <= v < w < |t'.words|
      ensures Apart(t', v, w)
    {
      if w == n {
        assert t.words[v] in t.words;
      } else {
        assert Apart(t, v, w);
      }
    }
  }
}
