/** The per-flow initial-window cache: a 4-way set-associative table with oldest-stamp
    eviction and lookup in both directions, against "the four most recently stored
    distinct flows of each bucket". */
module IwinCache {
  import opened Common
  import opened Counting

  const BUCKETS: int := 16384
  const WAYS: int := 4
  const STAMP_LIMIT: int := 0x1_0000_0000

  datatype Flow = Flow(proto: bv8, sip: bv32, dip: bv32, sp: bv16, dp: bv16)

  function Reverse(f: Flow): Flow {
    Flow(f.proto, f.dip, f.sip, f.dp, f.sp)
  }

  /** FNV-1a over words. */
  function Fnv(h: bv32, words: seq<bv32>): bv32
    decreases |words|
  {
    if words == [] then h else Fnv((h ^ words[0]) * 16777619, words[1..])
  }

  function Bucket(f: Flow): (b: int)
    ensures 0 <= b < BUCKETS
  {
    var h := Fnv(2166136261, [f.sip, f.dip, f.sp as bv32, f.dp as bv32, f.proto as bv32]);
    (h & 16383) as int
  }

  /** Two hashes worked out: of the flow of zeros, and of one whose five fields all differ. */
  lemma {:induction false} HashSamples()
    ensures Bucket(Flow(0, 0, 0, 0, 0)) == 4111 && Bucket(Flow(17, 1, 2, 3, 4)) == 8708
  {
    assert Fnv(2166136261, [0, 0, 0, 0, 0]) == 303091727;
    assert Fnv(2166136261, [1, 2, 3, 4, 17]) == 3018138116;
  }

  // ----- the simple model: a log of stores

  datatype Store = Store(flow: Flow, win: nat)

  ghost function Without(fs: seq<Flow>, f: Flow): seq<Flow> {
    if fs == [] then [] else (if fs[0] == f then [] else [fs[0]]) + Without(fs[1..], f)
  }

  /** The distinct flows of bucket `b`, most recently stored first. */
  ghost function Recent(log: seq<Store>, b: int): seq<Flow> {
    if log == [] then []
    else
      var n := |log| - 1;
      if Bucket(log[n].flow) == b then [log[n].flow] + Without(Recent(log[..n], b), log[n].flow)
      else Recent(log[..n], b)
  }

  /** Number of stores up to and including the last one of `f`; 0 if there is none. */
  ghost function LastStore(log: seq<Store>, f: Flow): nat {
    if log == [] then 0 else if log[|log| - 1].flow == f then |log| else LastStore(log[..|log| - 1], f)
  }

  ghost function Cap(fs: seq<Flow>): seq<Flow> {
    if |fs| <= WAYS then fs else fs[..WAYS]
  }

  /** The flows that bucket `b` should hold. */
  ghost function Top(log: seq<Store>, b: int): seq<Flow> {
    Cap(Recent(log, b))
  }

  ghost predicate Cached(log: seq<Store>, f: Flow) {
    f in Top(log, Bucket(f))
  }

  lemma {:induction false} LastStoreBound(log: seq<Store>, f: Flow)
    ensures LastStore(log, f) <= |log|
    ensures LastStore(log, f) > 0 ==> log[LastStore(log, f) - 1].flow == f
    decreases |log|
  {
    if log != [] {
      LastStoreBound(log[..|log| - 1], f);
    }
  }

  /** The window of the last store of `f`. */
  ghost function LatestWin(log: seq<Store>, f: Flow): (r: int)
    ensures r == -1 <==> LastStore(log, f) == 0
  {
    LastStoreBound(log, f);
    if LastStore(log, f) == 0 then -1 else log[LastStore(log, f) - 1].win
  }

  /** The last store is of the flow, and no store behind it is; without any the number is 0. */
  lemma {:induction false} LastStoreIsTheLast(log: seq<Store>, f: Flow)
    ensures var n := LastStore(log, f);
            && 0 <= n <= |log| && (n > 0 ==> log[n - 1].flow == f) && forall i :: n <= i < |log| ==> log[i].flow != f
    decreases |log|
  {
    if log != [] {
      LastStoreIsTheLast(log[..|log| - 1], f);
    }
  }

  lemma {:induction false} WithoutMembers(fs: seq<Flow>, f: Flow)
    ensures forall x :: x in Without(fs, f) <==> x in fs && x != f
    ensures f !in fs ==> Without(fs, f) == fs
  {
    if fs != [] {
      WithoutMembers(fs[1..], f);
      assert fs == [fs[0]] + fs[1..];
    }
  }

  lemma {:induction false} WithoutSplit(a: seq<Flow>, b: seq<Flow>, f: Flow)
    ensures Without(a + b, f) == Without(a, f) + Without(b, f)
  {
    if a == [] {
      assert a + b == b;
    } else {
      var h, rest := if a[0] == f then [] else [a[0]], a[1..];
      WithoutSplit(rest, b, f);
      assert (a + b)[1..] == rest + b;
      assert Without(a + b, f) == h + Without(rest + b, f) && Without(a, f) == h + Without(rest, f);
      Regroup(h, Without(rest, f), Without(b, f));
    }
  }

  /** Strictly decreasing last stores: the list is duplicate-free and in order of recency. */
  ghost predicate ByRecency(log: seq<Store>, fs: seq<Flow>) {
    forall i, j :: 0 <= i < j < |fs| ==> LastStore(log, fs[i]) > LastStore(log, fs[j])
  }

  lemma {:induction false} WithoutByRecency(log: seq<Store>, fs: seq<Flow>, f: Flow)
    requires ByRecency(log, fs)
    ensures ByRecency(log, Without(fs, f))
  {
    if fs != [] {
      WithoutByRecency(log, fs[1..], f);
      WithoutMembers(fs[1..], f);
      forall j | 0 <= j < |Without(fs[1..], f)|
        ensures LastStore(log, fs[0]) > LastStore(log, Without(fs[1..], f)[j])
      {
        assert Without(fs[1..], f)[j] in fs[1..];
      }
    }
  }

  /** What `Recent` is: exactly the flows of the bucket that were ever stored, each
      once, in decreasing order of their last store. */
  lemma {:induction false} RecentIsTheRecencyOrder(log: seq<Store>, b: int)
    ensures ByRecency(log, Recent(log, b))
    ensures forall f :: f in Recent(log, b) <==> LastStore(log, f) > 0 && Bucket(f) == b
    decreases |log|
  {
    if log != [] {
      var n := |log| - 1;
      var init, g := log[..n], log[n].flow;
      RecentIsTheRecencyOrder(init, b);
      var r := Recent(init, b);
      WithoutMembers(r, g);
      WithoutByRecency(init, r, g);
      if Bucket(g) == b {
        RecencyGrows(log, Without(r, g));
        assert Recent(log, b) == [g] + Without(r, g);
      } else {
        RecencyGrows(log, r);
      }
    }
  }

  /** A list without the last-stored flow keeps its order, below that flow. */
  lemma RecencyGrows(log: seq<Store>, rest: seq<Flow>)
    requires log != [] && log[|log| - 1].flow !in rest && ByRecency(log[..|log| - 1], rest)
    ensures ByRecency(log, rest)
    ensures ByRecency(log, [log[|log| - 1].flow] + rest)
  {
    var init, g := log[..|log| - 1], log[|log| - 1].flow;
    forall i | 0 <= i < |rest|
      ensures LastStore(log, rest[i]) == LastStore(init, rest[i]) < |log|
    {
      assert rest[i] in rest;
      LastStoreBound(init, rest[i]);
    }
    assert LastStore(log, g) == |log|;
  }

  lemma {:induction false} RemoveAt(r: seq<Flow>, j: nat)
    requires j < |r| && r[j] !in r[..j] && r[j] !in r[j + 1..]
    ensures Without(r, r[j]) == r[..j] + r[j + 1..]
  {
    var f, front, tail := r[j], r[..j], r[j..];
    WithoutSplit(front, tail, f);
    assert r == front + tail;
    WithoutMembers(front, f);
    RemoveFirst(tail, r[j + 1..], f);
  }

  lemma {:induction false} RemoveFirst(tail: seq<Flow>, rest: seq<Flow>, f: Flow)
    requires tail != [] && tail[0] == f && tail[1..] == rest && f !in rest
    ensures Without(tail, f) == rest
  {
    WithoutMembers(rest, f);
    assert Without(tail, f) == [] + Without(rest, f);
  }

  lemma RecencyMeansDistinct(log: seq<Store>, r: seq<Flow>, j: nat)
    requires ByRecency(log, r) && j < |r|
    ensures r[j] !in r[..j] && r[j] !in r[j + 1..]
  {
  }

  /** Storing a flow that stood at position `j` moves it to the front. */
  lemma MoveToFront(log: seq<Store>, b: int, s: Store, j: nat)
    requires Bucket(s.flow) == b && j < |Recent(log, b)| && Recent(log, b)[j] == s.flow
    ensures Recent(log + [s], b) == [s.flow] + (Recent(log, b)[..j] + Recent(log, b)[j + 1..])
  {
    RecentIsTheRecencyOrder(log, b);
    RecencyMeansDistinct(log, Recent(log, b), j);
    RemoveAt(Recent(log, b), j);
    assert (log + [s])[..|log|] == log;
  }

  /** Storing a new flow puts it in front. */
  lemma PushFront(log: seq<Store>, b: int, s: Store)
    requires Bucket(s.flow) == b && s.flow !in Recent(log, b)
    ensures Recent(log + [s], b) == [s.flow] + Recent(log, b)
  {
    assert (log + [s])[..|log|] == log;
    WithoutMembers(Recent(log, b), s.flow);
  }

  lemma SnocLast(log: seq<Store>, s: Store, f: Flow)
    ensures LastStore(log + [s], f) == if s.flow == f then |log| + 1 else LastStore(log, f)
    ensures LatestWin(log + [s], f) == if s.flow == f then s.win else LatestWin(log, f)
  {
    assert (log + [s])[..|log|] == log;
    LastStoreBound(log, f);
  }

  lemma CapMove(r: seq<Flow>, j: nat)
    requires j < |Cap(r)|
    ensures Cap([r[j]] + (r[..j] + r[j + 1..])) == [r[j]] + (Cap(r)[..j] + Cap(r)[j + 1..])
    ensures forall f :: f in Cap(r)[..j] + Cap(r)[j + 1..] ==> f in r[..j] || f in r[j + 1..]
  {
    assert Cap(r)[..j] == r[..j];
    var a, b := Cap(r)[j + 1..], r[j + 1..];
    assert forall i :: 0 <= i < |a| ==> a[i] == b[i];
  }

  lemma CapReplace(r: seq<Flow>, r': seq<Flow>, f: Flow, k: nat)
    requires k == (if |Cap(r)| == WAYS then WAYS - 1 else |Cap(r)|)
    requires (|r'| == |r| || (|r| >= WAYS && |r'| == |r| - 1)) && r'[..k] == r[..k]
    ensures Cap([f] + r') == [f] + Cap(r)[..k]
  {
    assert ([f] + r')[..k + 1] == [f] + r'[..k];
  }

  /** `Top` after storing a flow that is in it ... */
  lemma TopAfterRefresh(log: seq<Store>, b: int, s: Store, j: nat)
    requires Bucket(s.flow) == b && j < |Top(log, b)| && Top(log, b)[j] == s.flow
    ensures Top(log + [s], b) == [s.flow] + (Top(log, b)[..j] + Top(log, b)[j + 1..])
    ensures s.flow !in Top(log, b)[..j] + Top(log, b)[j + 1..]
  {
    MoveToFront(log, b, s, j);
    RecentIsTheRecencyOrder(log, b);
    RecencyMeansDistinct(log, Recent(log, b), j);
    CapMove(Recent(log, b), j);
  }

  /** ... and after storing one that is not. */
  lemma TopAfterReplace(log: seq<Store>, b: int, s: Store, k: nat)
    requires Bucket(s.flow) == b && s.flow !in Top(log, b)
    requires k == if |Top(log, b)| == WAYS then WAYS - 1 else |Top(log, b)|
    ensures Top(log + [s], b) == [s.flow] + Top(log, b)[..k]
  {
    var r := Recent(log, b);
    if s.flow in r {
      var j :| 0 <= j < |r| && r[j] == s.flow;
      BelowTheCap(r, j);
      MoveToFront(log, b, s, j);
      assert (r[..j] + r[j + 1..])[..k] == r[..k];
      CapReplace(r, r[..j] + r[j + 1..], s.flow, k);
    } else {
      PushFront(log, b, s);
      CapReplace(r, r, s.flow, k);
    }
  }

  lemma BelowTheCap(r: seq<Flow>, j: nat)
    requires j < |r| && r[j] !in Cap(r)
    ensures WAYS <= j
  {
    assert forall i :: 0 <= i < |Cap(r)| ==> Cap(r)[i] == r[i];
  }

  // ----- one set of four ways

  datatype Entry = Entry(flow: Flow, used: bool, win: int, stamp: int)

  /** The `i`-th way in `order` holds the `i`-th of `top`, with its latest window and
      with its last store for a stamp. */
  ghost predicate HoldsAt(row: seq<Entry>, order: seq<int>, log: seq<Store>, top: seq<Flow>, i: int) {
    && 0 <= i < |order| && i < |top| && 0 <= order[i] < |row|
    && row[order[i]] == Entry(top[i], true, LatestWin(log, top[i]), LastStore(log, top[i]))
  }

  ghost predicate WayList(order: seq<int>) {
    Below(order, WAYS) && Distinct(order)
  }

  /** `order` lists the used ways of `row` in the order of `top`. */
  ghost predicate Matches(row: seq<Entry>, order: seq<int>, log: seq<Store>, top: seq<Flow>) {
    && |row| == WAYS && |order| == |top| && WayList(order)
    && (forall i {:trigger HoldsAt(row, order, log, top, i)} :: 0 <= i < |order| ==> HoldsAt(row, order, log, top, i))
    && (forall w :: 0 <= w < WAYS && w !in order ==> !row[w].used)
  }

  /** The set holds exactly the `Top` flows of its bucket, each with its latest window. */
  ghost predicate RowOk(row: seq<Entry>, log: seq<Store>, b: int) {
    exists order :: Matches(row, order, log, Top(log, b))
  }

  predicate Keeps(e: Entry, f: Flow) {
    e.used && e.flow == f
  }

  /** The way a store takes: the first that holds the flow already, else the first free one, else the
      first of those with the smallest stamp. */
  ghost predicate IsTarget(row: seq<Entry>, f: Flow, w: int) {
    && 0 <= w < |row|
    && if Keeps(row[w], f) then forall v :: 0 <= v < w ==> !Keeps(row[v], f)
       else
         && (forall v :: 0 <= v < |row| ==> !Keeps(row[v], f))
         && if !row[w].used then forall v :: 0 <= v < w ==> row[v].used
            else forall v :: 0 <= v < |row| ==>
                   row[v].used && row[w].stamp <= row[v].stamp && (v < w ==> row[w].stamp < row[v].stamp)
  }

  /** The scan for a way. */
  method ChooseWay(row: seq<Entry>, f: Flow) returns (w: int)
    requires |row| == WAYS && forall v :: 0 <= v < |row| ==> 0 <= row[v].stamp < STAMP_LIMIT
    ensures IsTarget(row, f, w)
  {
    var victim, oldestW, oldest := -1, 0, STAMP_LIMIT - 1;
    var v := 0;
    while v < WAYS
      invariant 0 <= v <= WAYS && 0 <= oldestW < WAYS
      invariant forall x :: 0 <= x < v ==> !Keeps(row[x], f)
      invariant forall x :: 0 <= x < v ==> oldest <= row[x].stamp && (x < oldestW ==> oldest < row[x].stamp)
      invariant oldest == row[oldestW].stamp || (oldest == STAMP_LIMIT - 1 && oldestW == 0)
      invariant oldestW == 0 || oldestW < v
      invariant -1 <= victim < v && forall x :: 0 <= x < (if victim == -1 then v else victim) ==> row[x].used
      invariant victim != -1 ==> !row[victim].used
    {
      var e := row[v];
      if e.used && e.flow == f { return v; }
      if !e.used && victim < 0 { victim := v; }
      if e.stamp < oldest { oldest, oldestW := e.stamp, v; }
      v := v + 1;
    }
    w := if victim >= 0 then victim else oldestW;
  }

  /** A new entry in front of the ways `kept` for the flows `rest`. */
  lemma FrontMatches(row: seq<Entry>, kept: seq<int>, rest: seq<Flow>, log: seq<Store>, s: Store, w: int)
    requires |row| == WAYS && 0 <= w < WAYS && |kept| == |rest| && WayList([w] + kept)
    requires forall i {:trigger HoldsAt(row, kept, log, rest, i)} :: 0 <= i < |kept| ==> HoldsAt(row, kept, log, rest, i)
    requires s.flow !in rest
    requires forall v :: 0 <= v < WAYS && v !in [w] + kept ==> !row[v].used
    ensures Matches(row[w := Entry(s.flow, true, s.win, |log| + 1)], [w] + kept, log + [s], [s.flow] + rest)
  {
    var row', order, top := row[w := Entry(s.flow, true, s.win, |log| + 1)], [w] + kept, [s.flow] + rest;
    assert order[0] == w;
    forall i | 0 <= i < |order|
      ensures HoldsAt(row', order, log + [s], top, i)
    {
      SnocLast(log, s, top[i]);
      if i > 0 {
        assert HoldsAt(row, kept, log, rest, i - 1);
        assert order[0] != order[i] && rest[i - 1] in rest;
      }
    }
  }

  /** A way moved to the front: the same ways, still distinct. */
  lemma {:induction false} FrontWays(order: seq<int>, j: nat, kept: seq<int>)
    requires WayList(order) && j < |order| && kept == order[..j] + order[j + 1..]
    ensures WayList([order[j]] + kept) && forall w :: w in [order[j]] + kept <==> w in order
  {
    var front := [order[j]] + kept;
    forall i | 0 <= i < |kept|
      ensures kept[i] == order[if i < j then i else i + 1]
    {
    }
    assert order == order[..j] + [order[j]] + order[j + 1..];
  }

  /** Refresh: the way already holds the flow. */
  lemma RefreshRow(row: seq<Entry>, order: seq<int>, log: seq<Store>, top: seq<Flow>, s: Store, j: nat)
    requires Matches(row, order, log, top) && j < |order| && s.flow !in top[..j] + top[j + 1..]
    ensures Matches(row[order[j] := Entry(s.flow, true, s.win, |log| + 1)], [order[j]] + (order[..j] + order[j + 1..]),
                    log + [s], [s.flow] + (top[..j] + top[j + 1..]))
  {
    var kept, rest := order[..j] + order[j + 1..], top[..j] + top[j + 1..];
    forall i | 0 <= i < |kept|
      ensures HoldsAt(row, kept, log, rest, i)
    {
      var at := if i < j then i else i + 1;
      assert HoldsAt(row, order, log, top, at) && kept[i] == order[at] && rest[i] == top[at];
    }
    FrontWays(order, j, kept);
    FrontMatches(row, kept, rest, log, s, order[j]);
  }

  /** Replace: way `w` is taken from the end of the order, or is free. */
  lemma ReplaceRow(row: seq<Entry>, order: seq<int>, log: seq<Store>, top: seq<Flow>, s: Store, w: int, k: nat)
    requires Matches(row, order, log, top) && s.flow !in top && 0 <= w < WAYS && k <= |order| && k < WAYS
    requires w !in order[..k] && (k < |order| ==> k + 1 == |order| && w == order[k])
    ensures Matches(row[w := Entry(s.flow, true, s.win, |log| + 1)], [w] + order[..k], log + [s], [s.flow] + top[..k])
  {
    forall i | 0 <= i < k
      ensures HoldsAt(row, order[..k], log, top[..k], i)
    {
      assert HoldsAt(row, order, log, top, i);
    }
    assert order == order[..k] + order[k..];
    FrontMatches(row, order[..k], top[..k], log, s, w);
  }

  /** The smallest stamp in a full set belongs to the least recent flow. */
  lemma OldestIsLast(row: seq<Entry>, order: seq<int>, log: seq<Store>, top: seq<Flow>, w: int)
    requires Matches(row, order, log, top) && 0 <= w < WAYS && ByRecency(log, top)
    requires forall v :: 0 <= v < WAYS ==> row[v].used && row[w].stamp <= row[v].stamp
    ensures |order| == WAYS && w == order[WAYS - 1]
  {
    assert forall v :: 0 <= v < WAYS ==> v in order;
    PigeonholeExact(order, WAYS);
    assert w in order;
    var j :| 0 <= j < |order| && order[j] == w;
    assert HoldsAt(row, order, log, top, j) && HoldsAt(row, order, log, top, WAYS - 1);
  }

  /** A store keeps its own set right ... */
  lemma StoreRow(row: seq<Entry>, log: seq<Store>, b: int, s: Store, w: int)
    requires RowOk(row, log, b) && Bucket(s.flow) == b && IsTarget(row, s.flow, w)
    ensures RowOk(row[w := Entry(s.flow, true, s.win, |log| + 1)], log + [s], b)
  {
    var top := Top(log, b);
    var order :| Matches(row, order, log, top);
    if row[w].used && row[w].flow == s.flow {
      assert w in order;
      var j :| 0 <= j < |order| && order[j] == w;
      assert HoldsAt(row, order, log, top, j);
      TopAfterRefresh(log, b, s, j);
      RefreshRow(row, order, log, top, s, j);
    } else {
      NotInTop(row, order, log, top, s.flow);
      var k := if |top| == WAYS then WAYS - 1 else |top|;
      TopAfterReplace(log, b, s, k);
      if row[w].used {
        RecentIsTheRecencyOrder(log, b);
        OldestIsLast(row, order, log, top, w);
      } else {
        UnusedIsUnlisted(row, order, log, top, w);
        Pigeonhole([w] + order, WAYS);
      }
      ReplaceRow(row, order, log, top, s, w, k);
    }
  }

  lemma NotInTop(row: seq<Entry>, order: seq<int>, log: seq<Store>, top: seq<Flow>, f: Flow)
    requires Matches(row, order, log, top)
    requires forall v :: 0 <= v < |row| ==> !Keeps(row[v], f)
    ensures f !in top
  {
    forall i | 0 <= i < |top|
      ensures top[i] != f
    {
      assert HoldsAt(row, order, log, top, i);
    }
  }

  lemma UnusedIsUnlisted(row: seq<Entry>, order: seq<int>, log: seq<Store>, top: seq<Flow>, w: int)
    requires Matches(row, order, log, top) && 0 <= w < WAYS && !row[w].used
    ensures w !in order
  {
    forall i | 0 <= i < |order|
      ensures order[i] != w
    {
      assert HoldsAt(row, order, log, top, i);
    }
  }

  /** ... and every other set. */
  lemma OtherRow(row: seq<Entry>, log: seq<Store>, b: int, s: Store)
    requires RowOk(row, log, b) && Bucket(s.flow) != b
    ensures RowOk(row, log + [s], b)
  {
    var top := Top(log, b);
    var order :| Matches(row, order, log, top);
    assert Top(log + [s], b) == top by {
      assert (log + [s])[..|log|] == log;
    }
    RecentIsTheRecencyOrder(log, b);
    forall i | 0 <= i < |order|
      ensures HoldsAt(row, order, log + [s], top, i)
    {
      assert HoldsAt(row, order, log, top, i) && top[i] in Recent(log, b);
      SnocLast(log, s, top[i]);
    }
    assert Matches(row, order, log + [s], top);
  }

  // ----- what holds whatever the stamps are

  /** The used ways hold distinct flows of the bucket, each with its latest window. */
  ghost predicate RowSafe(row: seq<Entry>, log: seq<Store>, b: int) {
    && |row| == WAYS
    && (forall w {:trigger WaySafe(row, log, b, w)} :: 0 <= w < WAYS ==> WaySafe(row, log, b, w))
    && (forall v, w {:trigger WaysApart(row, v, w)} :: 0 <= v < w < WAYS ==> WaysApart(row, v, w))
  }

  ghost predicate WaySafe(row: seq<Entry>, log: seq<Store>, b: int, w: int)
    requires 0 <= w < |row|
  {
    var e := row[w];
    e.used ==>
      && Bucket(e.flow) == b && LastStore(log, e.flow) > 0 && e.win == LatestWin(log, e.flow)
      && e.stamp == LastStore(log, e.flow) % STAMP_LIMIT
  }

  ghost predicate WaysApart(row: seq<Entry>, v: int, w: int)
    requires 0 <= v < |row| && 0 <= w < |row|
  {
    row[v].used && row[w].used ==> row[v].flow != row[w].flow
  }

  ghost predicate Holds(row: seq<Entry>, f: Flow) {
    exists w :: 0 <= w < |row| && Keeps(row[w], f)
  }

  lemma {:induction false} SafeStore(row: seq<Entry>, log: seq<Store>, b: int, s: Store, w: int, stamp: int)
    requires RowSafe(row, log, b) && Bucket(s.flow) == b && IsTarget(row, s.flow, w)
    requires stamp == (|log| + 1) % STAMP_LIMIT
    ensures var row' := row[w := Entry(s.flow, true, s.win, stamp)];
            RowSafe(row', log + [s], b) && Holds(row', s.flow)
  {
    var row' := row[w := Entry(s.flow, true, s.win, stamp)];
    SnocLast(log, s, s.flow);
    forall v | 0 <= v < WAYS && v != w
      ensures !Keeps(row[v], s.flow)
    {
      assert v < w ==> WaysApart(row, v, w);
      assert w < v ==> WaysApart(row, w, v);
    }
    forall v | 0 <= v < WAYS
      ensures WaySafe(row', log + [s], b, v)
    {
      assert WaySafe(row, log, b, v);
      SnocLast(log, s, row[v].flow);
    }
    forall u, v | 0 <= u < v < WAYS
      ensures WaysApart(row', u, v)
    {
      assert WaysApart(row, u, v);
    }
    assert Keeps(row'[w], s.flow);
  }

  lemma {:induction false} SafeElsewhere(row: seq<Entry>, log: seq<Store>, b: int, s: Store)
    requires RowSafe(row, log, b) && Bucket(s.flow) != b
    ensures RowSafe(row, log + [s], b)
  {
    forall v | 0 <= v < WAYS
      ensures WaySafe(row, log + [s], b, v)
    {
      assert WaySafe(row, log, b, v);
      SnocLast(log, s, row[v].flow);
    }
  }

  // ----- all sets together

  type Rows = seq<seq<Entry>>

  /** Every set holds the reference list of its bucket. */
  ghost predicate AllOk(rows: Rows, log: seq<Store>) {
    forall b {:trigger RowOk(rows[b], log, b)} :: 0 <= b < |rows| ==> RowOk(rows[b], log, b)
  }

  ghost predicate AllSafe(rows: Rows, log: seq<Store>) {
    forall b {:trigger RowSafe(rows[b], log, b)} :: 0 <= b < |rows| ==> RowSafe(rows[b], log, b)
  }

  ghost predicate AllStamped(rows: Rows) {
    forall b {:trigger Stamped(rows[b])} :: 0 <= b < |rows| ==> Stamped(rows[b])
  }

  ghost predicate Stamped(row: seq<Entry>) {
    |row| == WAYS && forall w :: 0 <= w < WAYS ==> 0 <= row[w].stamp < STAMP_LIMIT
  }

  /** The rows after a store into way `w` of the flow's set. */
  ghost function AfterStore(rows: Rows, s: Store, w: int, stamp: int): Rows
    requires Bucket(s.flow) < |rows| && 0 <= w < |rows[Bucket(s.flow)]|
  {
    var b := Bucket(s.flow);
    rows[b := rows[b][w := Entry(s.flow, true, s.win, stamp)]]
  }

  lemma {:induction false} StoreAllOk(rows: Rows, log: seq<Store>, s: Store, w: int)
    requires Bucket(s.flow) < |rows| && AllOk(rows, log) && IsTarget(rows[Bucket(s.flow)], s.flow, w)
    ensures AllOk(AfterStore(rows, s, w, |log| + 1), log + [s])
  {
    var rows' := AfterStore(rows, s, w, |log| + 1);
    forall b | 0 <= b < |rows'|
      ensures RowOk(rows'[b], log + [s], b)
    {
      assert RowOk(rows[b], log, b);
      if b == Bucket(s.flow) { StoreRow(rows[b], log, b, s, w); } else { OtherRow(rows[b], log, b, s); }
    }
  }

  lemma {:induction false} StoreAllSafe(rows: Rows, log: seq<Store>, s: Store, w: int, stamp: int)
    requires Bucket(s.flow) < |rows| && AllSafe(rows, log) && IsTarget(rows[Bucket(s.flow)], s.flow, w)
    requires stamp == (|log| + 1) % STAMP_LIMIT
    ensures AllSafe(AfterStore(rows, s, w, stamp), log + [s])
    ensures Holds(AfterStore(rows, s, w, stamp)[Bucket(s.flow)], s.flow)
  {
    var rows' := AfterStore(rows, s, w, stamp);
    assert RowSafe(rows[Bucket(s.flow)], log, Bucket(s.flow));
    SafeStore(rows[Bucket(s.flow)], log, Bucket(s.flow), s, w, stamp);
    forall b | 0 <= b < |rows'|
      ensures RowSafe(rows'[b], log + [s], b)
    {
      assert RowSafe(rows[b], log, b);
      if b != Bucket(s.flow) { SafeElsewhere(rows[b], log, b, s); }
    }
  }

  lemma {:induction false} StoreAllStamped(rows: Rows, s: Store, w: int, stamp: int)
    requires Bucket(s.flow) < |rows| && AllStamped(rows) && 0 <= w < WAYS && 0 <= stamp < STAMP_LIMIT
    requires |rows[Bucket(s.flow)]| == WAYS
    ensures AllStamped(AfterStore(rows, s, w, stamp))
  {
    var rows' := AfterStore(rows, s, w, stamp);
    forall b | 0 <= b < |rows'|
      ensures Stamped(rows'[b])
    {
      assert Stamped(rows[b]);
    }
  }

  lemma {:induction false} NextStamp(n: nat)
    ensures (n % STAMP_LIMIT + 1) % STAMP_LIMIT == (n + 1) % STAMP_LIMIT
    ensures n + 1 < STAMP_LIMIT ==> (n + 1) % STAMP_LIMIT == n + 1
  {
  }

  // ----- the table

  class Table {
    const ways: array2<Entry>
    var stamp: int
    ghost var log: seq<Store>  // every store so far

    ghost function Row(b: int): seq<Entry>
      requires ways.Length0 == BUCKETS && ways.Length1 == WAYS && 0 <= b < BUCKETS
      reads ways
    {
      [ways[b, 0], ways[b, 1], ways[b, 2], ways[b, 3]]
    }

    ghost function Sets(): (rows: Rows)
      requires ways.Length0 == BUCKETS && ways.Length1 == WAYS
      reads ways
      ensures |rows| == BUCKETS && forall b :: 0 <= b < BUCKETS ==> rows[b] == Row(b)
    {
      seq(BUCKETS, b requires 0 <= b < BUCKETS && ways.Length0 == BUCKETS && ways.Length1 == WAYS reads ways => Row(b))
    }

    ghost predicate Valid()
      reads this, ways
    {
      && ways.Length0 == BUCKETS && ways.Length1 == WAYS
      && stamp == |log| % STAMP_LIMIT
      && AllStamped(Sets()) && AllSafe(Sets(), log)
      && (|log| < STAMP_LIMIT ==> AllOk(Sets(), log))
    }

    /** The zeroed static table. */
    constructor ()
      ensures Valid() && log == [] && fresh(ways) && ways.Length0 == 16384 && ways.Length1 == 4
    {
      ways := new Entry[BUCKETS, WAYS]((b, w) => Entry(Flow(0, 0, 0, 0, 0), false, 0, 0));
      stamp := 0;
      log := [];
      new;
      forall b | 0 <= b < BUCKETS
        ensures RowOk(Sets()[b], log, b)
      {
        assert Matches(Row(b), [], log, Top(log, b));
      }
    }

    /** Store a window; a negative one is ignored. */
    method Put(f: Flow, win: int)
      requires Valid()
      modifies this, ways
      ensures Valid() && log == if win < 0 then old(log) else old(log) + [Store(f, win)]
      ensures win >= 0 ==> Holds(Row(Bucket(f)), f)
      ensures stamp == |log| % 0x1_0000_0000
    {
      if win < 0 { return; }
      ghost var rows, s := Sets(), Store(f, win);
      NextStamp(|log|);
      ghost var w := Overwrite(f, win);
      StoreAllStamped(rows, s, w, stamp);
      StoreAllSafe(rows, log, s, w, stamp);
      if |log| + 1 < STAMP_LIMIT { StoreAllOk(rows, log, s, w); }
      log := log + [s];
    }

    /** Choose a way of the flow's set and overwrite it, with the next stamp. */
    method Overwrite(f: Flow, win: nat) returns (ghost w: int)
      requires ways.Length0 == BUCKETS && ways.Length1 == WAYS && AllStamped(Sets())
      modifies this`stamp, ways
      ensures stamp == (old(stamp) + 1) % STAMP_LIMIT
      ensures IsTarget(old(Sets())[Bucket(f)], f, w)
      ensures Sets() == AfterStore(old(Sets()), Store(f, win), w, stamp)
    {
      var b := Bucket(f);
      var set' := [ways[b, 0], ways[b, 1], ways[b, 2], ways[b, 3]];
      assert Stamped(Sets()[b]);
      var way := ChooseWay(set', f);
      stamp := (stamp + 1) % STAMP_LIMIT;
      Install(b, way, Entry(f, true, win, stamp));
      w := way;
    }

    method Install(b: int, w: int, e: Entry)
      requires ways.Length0 == BUCKETS && ways.Length1 == WAYS && 0 <= b < BUCKETS && 0 <= w < WAYS
      modifies ways
      ensures Sets() == old(Sets())[b := old(Row(b))[w := e]]
    {
      ghost var rows := Sets();
      ways[b, w] := e;
      assert Row(b) == rows[b][w := e];
    }

    /** One direction: the latest window of a flow its set holds, else -1. As long as the stamp has
        not wrapped, the flows held are those of the reference. */
    method Lookup(f: Flow) returns (r: int)
      requires Valid()
      ensures r == if Holds(Row(Bucket(f)), f) then LatestWin(log, f) else -1
      ensures |log| < 0x1_0000_0000 ==> (Holds(Row(Bucket(f)), f) <==> Cached(log, f))
    {
      var b := Bucket(f);
      assert RowSafe(Sets()[b], log, b);
      if |log| < STAMP_LIMIT {
        assert RowOk(Sets()[b], log, b);
        RowAnswers(Row(b), log, b, f);
      }
      for w := 0 to WAYS
        invariant forall v :: 0 <= v < w ==> !Keeps(Row(b)[v], f)
      {
        var e := ways[b, w];
        assert e == Row(b)[w] && WaySafe(Row(b), log, b, w);
        if e.used && e.flow == f {
          assert Keeps(Row(b)[w], f);
          return e.win;
        }
      }
      return -1;
    }

    /** Either direction, the given one first. */
    method Get(f: Flow) returns (r: int)
      requires Valid()
      ensures r == if Holds(Row(Bucket(f)), f) then LatestWin(log, f)
                   else if Holds(Row(Bucket(Reverse(f))), Reverse(f)) then LatestWin(log, Reverse(f)) else -1
      ensures |log| < 0x1_0000_0000 ==>
                r == Answer(log, f) && (r == -1 <==> !Cached(log, f) && !Cached(log, Reverse(f)))
    {
      HeldWindowIsPresent(f);
      HeldWindowIsPresent(Reverse(f));
      r := Lookup(f);
      if r < 0 {
        r := Lookup(Reverse(f));
      }
    }

    lemma HeldWindowIsPresent(f: Flow)
      requires Valid()
      ensures Holds(Row(Bucket(f)), f) ==> LatestWin(log, f) >= 0
    {
      var row := Row(Bucket(f));
      assert RowSafe(Sets()[Bucket(f)], log, Bucket(f));
      if Holds(row, f) {
        var w :| 0 <= w < |row| && Keeps(row[w], f);
        assert WaySafe(row, log, Bucket(f), w);
        LastStoreBound(log, f);
      }
    }
  }

  lemma RowAnswers(row: seq<Entry>, log: seq<Store>, b: int, f: Flow)
    requires RowOk(row, log, b)
    ensures |row| == WAYS
    ensures Holds(row, f) <==> f in Top(log, b)
  {
    var top := Top(log, b);
    var order :| Matches(row, order, log, top);
    forall w | 0 <= w < WAYS && row[w].used && row[w].flow == f
      ensures f in top && row[w].win == LatestWin(log, f)
    {
      assert w in order;
      var j :| 0 <= j < |order| && order[j] == w;
      assert HoldsAt(row, order, log, top, j);
    }
    if f in top {
      var i :| 0 <= i < |top| && top[i] == f;
      assert HoldsAt(row, order, log, top, i);
    }
  }

  // ----- how long an entry lives

  /** The flows of bucket `b` among some stores. */
  ghost function Stored(later: seq<Store>, b: int): set<Flow> {
    set s | s in later && Bucket(s.flow) == b :: s.flow
  }

  lemma {:induction false} LastStoreConcat(log: seq<Store>, later: seq<Store>, g: Flow)
    ensures (exists s :: s in later && s.flow == g) ==> LastStore(log + later, g) > |log|
    ensures !(exists s :: s in later && s.flow == g) ==> LastStore(log + later, g) == LastStore(log, g) <= |log|
    decreases |later|
  {
    LastStoreBound(log, g);
    if later == [] {
      assert log + later == log;
    } else {
      var n := |later| - 1;
      LastStoreConcat(log, later[..n], g);
      assert (log + later)[..|log + later| - 1] == log + later[..n];
      assert later == later[..n] + [later[n]];
    }
  }

  ghost function FlowsOf(fs: seq<Flow>): set<Flow> {
    set f | f in fs
  }

  lemma {:induction false} DistinctFlows(log: seq<Store>, fs: seq<Flow>)
    requires ByRecency(log, fs)
    ensures |FlowsOf(fs)| == |fs|
    decreases |fs|
  {
    if fs != [] {
      var n := |fs| - 1;
      var init, last := fs[..n], fs[n];
      DistinctFlows(log, init);
      assert last !in init;
      OneFlowMore(init, last);
      assert fs == init + [last];
    }
  }

  lemma {:induction false} OneFlowMore(init: seq<Flow>, last: Flow)
    requires last !in init
    ensures |FlowsOf(init + [last])| == |FlowsOf(init)| + 1
  {
    assert FlowsOf(init + [last]) == FlowsOf(init) + {last};
  }

  /** In a recency list, what stands before position `i` was stored later. */
  lemma BeforeIsNewer(log: seq<Store>, r: seq<Flow>, i: nat, newer: set<Flow>)
    requires ByRecency(log, r) && i < |r|
    requires forall g :: g in newer <==> g in r && LastStore(log, g) > LastStore(log, r[i])
    ensures i == |newer|
  {
    DistinctFlows(log, r[..i]);
    assert newer == set g | g in r[..i];
  }

  /** An entry lives until its bucket has seen four other flows, and no longer; while
      it lives it answers with the window last stored for it. */
  lemma EntryLivesUntilFourOthers(log: seq<Store>, f: Flow, win: nat, later: seq<Store>)
    requires forall s :: s in later ==> s.flow != f
    ensures Cached(log + [Store(f, win)] + later, f) <==> |Stored(later, Bucket(f))| < 4
    ensures LatestWin(log + [Store(f, win)] + later, f) == win
  {
    var mid := log + [Store(f, win)];
    var whole, b := mid + later, Bucket(f);
    SnocLast(log, Store(f, win), f);
    LastStoreConcat(mid, later, f);
    RecentIsTheRecencyOrder(whole, b);
    var r := Recent(whole, b);
    assert f in r;
    var i :| 0 <= i < |r| && r[i] == f;
    forall g
      ensures g in Stored(later, b) <==> g in r && LastStore(whole, g) > LastStore(whole, f)
    {
      LastStoreConcat(mid, later, g);
    }
    BeforeIsNewer(whole, r, i, Stored(later, b));
    RecencyMeansDistinct(whole, r, i);
    InCapExactly(r, i);
  }

  /** What a lookup in both directions answers after some stores. */
  ghost function Answer(log: seq<Store>, f: Flow): int {
    if Cached(log, f) then LatestWin(log, f)
    else if Cached(log, Reverse(f)) then LatestWin(log, Reverse(f)) else -1
  }

  lemma {:induction false} NeverStored(log: seq<Store>, f: Flow)
    requires forall s :: s in log ==> s.flow != f
    ensures !Cached(log, f)
  {
    RecentIsTheRecencyOrder(log, Bucket(f));
    LastStoreBound(log, f);
    assert LastStore(log, f) == 0;
  }

  /** The window of a connection's first packet is found from either side, client to server or
      server to client, until its set has seen four other flows. */
  lemma {:induction false} BothSidesFindTheWindow(log: seq<Store>, p: bv8, a: bv32, b: bv32, x: bv16, y: bv16, win: nat, later: seq<Store>)
    requires forall s :: s in later ==> s.flow != Flow(p, a, b, x, y)
    requires forall s :: s in log + later ==> s.flow != Flow(p, b, a, y, x)
    ensures var stores, n := log + [Store(Flow(p, a, b, x, y), win)] + later, |Stored(later, Bucket(Flow(p, a, b, x, y)))|;
            && Answer(stores, Flow(p, a, b, x, y)) == (if n < 4 then win else -1)
            && Answer(stores, Flow(p, b, a, y, x)) == (if n < 4 then win else -1)
  {
    var f, reply := Flow(p, a, b, x, y), Flow(p, b, a, y, x);
    var stores := log + [Store(f, win)] + later;
    EntryLivesUntilFourOthers(log, f, win, later);
    if reply != f {
      forall s | s in stores
        ensures s.flow != reply
      {
        assert s in log + later || s == Store(f, win);
      }
      NeverStored(stores, reply);
    }
  }

  /** A flow that stands once in a list is among the first four exactly by its position. */
  lemma {:induction false} InCapExactly(r: seq<Flow>, i: nat)
    requires i < |r| && r[i] !in r[..i] && r[i] !in r[i + 1..]
    ensures r[i] in Cap(r) <==> i < WAYS
  {
    forall j | 0 <= j < |Cap(r)| && j != i
      ensures Cap(r)[j] != r[i]
    {
      assert Cap(r)[j] == r[j];
      assert j < i ==> r[..i][j] == r[j];
      assert j > i ==> r[i + 1..][j - i - 1] == r[j];
    }
    if i < WAYS { assert Cap(r)[i] == r[i]; }
  }

  /** Later within one round of the counter: its value is larger exactly if it has not wrapped between. */
  lemma {:induction false} StampOrder(a: nat, b: nat)
    requires a < b < a + STAMP_LIMIT
    ensures a % STAMP_LIMIT != b % STAMP_LIMIT
    ensures a % STAMP_LIMIT < b % STAMP_LIMIT <==> a / STAMP_LIMIT == b / STAMP_LIMIT
  {
    var qa, qb := a / STAMP_LIMIT, b / STAMP_LIMIT;
    assert a == qa * STAMP_LIMIT + a % STAMP_LIMIT && b == qb * STAMP_LIMIT + b % STAMP_LIMIT;
    assert qb == qa || qb == qa + 1;
  }

  /** The stamp of way `o` comes before that of way `v`: smaller, or equal and found first. */
  ghost predicate StampedBefore(row: seq<Entry>, log: seq<Store>, o: int, v: int)
    requires 0 <= o < |row| && 0 <= v < |row|
  {
    var a, b := LastStore(log, row[o].flow) % STAMP_LIMIT, LastStore(log, row[v].flow) % STAMP_LIMIT;
    a < b || (a == b && o < v)
  }

  /** Which entry of a full set a new flow takes the place of, whatever the counter has done: the one
      whose last store, reduced to 32 bits, comes first. */
  lemma {:induction false} EvictsExactly(row: seq<Entry>, log: seq<Store>, b: int, f: Flow, w: int, o: int)
    requires RowSafe(row, log, b) && IsTarget(row, f, w) && 0 <= o < WAYS
    requires forall v :: 0 <= v < WAYS ==> row[v].used && row[v].flow != f
    ensures w == o <==> forall v {:trigger StampedBefore(row, log, o, v)} :: 0 <= v < WAYS && v != o ==> StampedBefore(row, log, o, v)
  {
    forall v | 0 <= v < WAYS
      ensures row[v].stamp == LastStore(log, row[v].flow) % STAMP_LIMIT
    {
      assert WaySafe(row, log, b, v);
    }
    if w != o {
      assert !StampedBefore(row, log, o, w);
    }
  }

  /** Way `o` holds the least recently stored flow, and the others were stored within one round of the
      counter after it. */
  ghost predicate OldestInOneRound(row: seq<Entry>, log: seq<Store>, o: int) {
    && 0 <= o < |row|
    && forall v {:trigger LastStore(log, row[v].flow)} :: 0 <= v < |row| && v != o ==>
         LastStore(log, row[o].flow) < LastStore(log, row[v].flow) < LastStore(log, row[o].flow) + STAMP_LIMIT
  }

  /** The counter has not wrapped between the oldest store of the set and the store in way `v`. */
  ghost predicate SameRound(row: seq<Entry>, log: seq<Store>, o: int, v: int)
    requires 0 <= o < |row| && 0 <= v < |row|
  {
    LastStore(log, row[o].flow) / STAMP_LIMIT == LastStore(log, row[v].flow) / STAMP_LIMIT
  }

  /** Within one round of the counter: the oldest entry goes if and only if the counter has not wrapped
      between the stores that the set holds. */
  lemma {:induction false} EvictsTheOldestWithinARound(row: seq<Entry>, log: seq<Store>, b: int, f: Flow, w: int, o: int)
    requires RowSafe(row, log, b) && OldestInOneRound(row, log, o) && IsTarget(row, f, w)
    requires forall v :: 0 <= v < WAYS ==> row[v].used && row[v].flow != f
    ensures w == o <==> forall v {:trigger SameRound(row, log, o, v)} :: 0 <= v < WAYS ==> SameRound(row, log, o, v)
  {
    forall v | 0 <= v < WAYS && v != o
      ensures StampedBefore(row, log, o, v) <==> SameRound(row, log, o, v)
    {
      StampOrder(LastStore(log, row[o].flow), LastStore(log, row[v].flow));
    }
    EvictsExactly(row, log, b, f, w, o);
    assert SameRound(row, log, o, o);
  }

  // ----- a counter that wraps

  /** The set after three stores before the counter wraps and one at the wrap, in an unused set. */
  ghost function WrappedRow(a: Store, b: Store, c: Store, newest: Store): seq<Entry> {
    [Entry(a.flow, true, a.win, STAMP_LIMIT - 3), Entry(b.flow, true, b.win, STAMP_LIMIT - 2),
     Entry(c.flow, true, c.win, STAMP_LIMIT - 1), Entry(newest.flow, true, newest.win, 0)]
  }

  ghost predicate Unused(row: seq<Entry>) {
    |row| == WAYS && forall w :: 0 <= w < WAYS ==> !row[w].used
  }

  /** Four flows of one bucket, the last of them stored as the counter wraps: these stores lead to that
      set, and the next new flow takes the place of the newest entry. */
  lemma {:induction false} WrappedStampEvictsTheNewest(row: seq<Entry>, log: seq<Store>, k: int, a: Store, b: Store, c: Store, newest: Store, f: Flow)
    requires Unused(row) && |log| == 0x1_0000_0000 - 4
    requires Bucket(a.flow) == Bucket(b.flow) == Bucket(c.flow) == Bucket(newest.flow) == k
    requires a.flow != b.flow && a.flow != c.flow && a.flow != newest.flow
    requires b.flow != c.flow && b.flow != newest.flow && c.flow != newest.flow
    requires f != a.flow && f != b.flow && f != c.flow && f != newest.flow
    ensures RowSafe(WrappedRow(a, b, c, newest), log + [a] + [b] + [c] + [newest], k)
    ensures forall w :: IsTarget(WrappedRow(a, b, c, newest), f, w) <==> w == 3
  {
    var row3 := ThreeBefore(row, log, k, a, b, c);
    FirstFree(row3, log + [a] + [b] + [c], k, newest, 3, 0);
    assert row3[3 := Entry(newest.flow, true, newest.win, 0)] == WrappedRow(a, b, c, newest);
    NewestIsTheTarget(WrappedRow(a, b, c, newest), f);
  }

  lemma {:induction false} ThreeBefore(row: seq<Entry>, log: seq<Store>, k: int, a: Store, b: Store, c: Store) returns (row3: seq<Entry>)
    requires Unused(row) && |log| == STAMP_LIMIT - 4 && Bucket(a.flow) == Bucket(b.flow) == Bucket(c.flow) == k
    requires a.flow != b.flow && a.flow != c.flow && b.flow != c.flow
    ensures |row3| == WAYS && !row3[3].used && RowSafe(row3, log + [a] + [b] + [c], k)
    ensures row3[0] == Entry(a.flow, true, a.win, STAMP_LIMIT - 3) && row3[1] == Entry(b.flow, true, b.win, STAMP_LIMIT - 2)
    ensures row3[2] == Entry(c.flow, true, c.win, STAMP_LIMIT - 1)
  {
    var row1 := row[0 := Entry(a.flow, true, a.win, STAMP_LIMIT - 3)];
    var row2 := row1[1 := Entry(b.flow, true, b.win, STAMP_LIMIT - 2)];
    row3 := row2[2 := Entry(c.flow, true, c.win, STAMP_LIMIT - 1)];
    FirstFree(row, log, k, a, 0, STAMP_LIMIT - 3);
    FirstFree(row1, log + [a], k, b, 1, STAMP_LIMIT - 2);
    FirstFree(row2, log + [a] + [b], k, c, 2, STAMP_LIMIT - 1);
  }

  lemma {:induction false} NewestIsTheTarget(row: seq<Entry>, f: Flow)
    requires |row| == WAYS && row[3].stamp == 0 && forall v :: 0 <= v < WAYS ==> row[v].used && row[v].flow != f
    requires forall v :: 0 <= v < 3 ==> row[v].stamp > 0
    ensures forall w :: IsTarget(row, f, w) <==> w == 3
  {
  }

  /** A new flow goes into the first free way. */
  lemma {:induction false} FirstFree(row: seq<Entry>, log: seq<Store>, k: int, s: Store, w: int, stamp: int)
    requires |row| == WAYS && 0 <= w < WAYS && stamp == (|log| + 1) % STAMP_LIMIT && Bucket(s.flow) == k
    requires (forall v :: 0 <= v < w ==> row[v].used && row[v].flow != s.flow) && (forall v :: w <= v < WAYS ==> !row[v].used)
    requires w == 0 || RowSafe(row, log, k)
    ensures IsTarget(row, s.flow, w) && RowSafe(row[w := Entry(s.flow, true, s.win, stamp)], log + [s], k)
  {
    assert RowSafe(row, log, k);
    SafeStore(row, log, k, s, w, stamp);
  }
}
