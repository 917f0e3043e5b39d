/** Netlink attributes as byte strings: the encoding, the walk over a region, and what
    the walk finds in what was encoded. */
module NetlinkFormat {
  import opened Common

  const HDRLEN: int := 4
  const NESTED: int := 0x8000
  const TYPE_MASK: int := 0x4000  // types are taken modulo this

  function Le16(x: int): Bytes
    requires 0 <= x < 0x1_0000
  {
    [x % 256, x / 256]
  }

  function FromLe16(lo: Byte, hi: Byte): int {
    lo as int + hi as int * 256
  }

  function Be16(x: int): Bytes
    requires 0 <= x < 0x1_0000
  {
    [x / 256, x % 256]
  }

  function FromBe16(b: Bytes): int
    requires |b| >= 2
  {
    b[0] as int * 256 + b[1] as int
  }

  function Be32(x: int): Bytes
    requires 0 <= x < 0x1_0000_0000
  {
    Be16(x / 0x1_0000) + Be16(x % 0x1_0000)
  }

  function FromBe32(b: Bytes): int
    requires |b| >= 4
  {
    0x1_0000 * FromBe16(b[..2]) + FromBe16(b[2..4])
  }

  lemma WordRoundTrips(x: int)
    requires 0 <= x < 0x1_0000
    ensures FromLe16(Le16(x)[0], Le16(x)[1]) == x
    ensures FromBe16(Be16(x)) == x
  {
  }

  lemma Be32RoundTrips(x: int)
    requires 0 <= x < 0x1_0000_0000
    ensures FromBe32(Be32(x)) == x
  {
    var hi, lo := x / 0x1_0000, x % 0x1_0000;
    assert Be32(x)[..2] == Be16(hi) && Be32(x)[2..4] == Be16(lo);
    WordRoundTrips(hi);
    WordRoundTrips(lo);
  }

  /** Round up to a multiple of four. */
  function Align(n: nat): (r: nat)
    ensures n <= r < n + 4 && r % 4 == 0
  {
    (n + 3) / 4 * 4
  }

  function Zeros(n: nat): (r: Bytes)
    ensures |r| == n && forall i :: 0 <= i < n ==> r[i] == 0
  {
    seq(n, _ => 0)
  }

  /** One attribute: length, type, payload, padding. The length does not count the padding, and is
      cut to 16 bits. */
  function Attr(typ: int, payload: Bytes): (r: Bytes)
    requires 0 <= typ < 0x1_0000
    ensures |r| == Align(HDRLEN + |payload|)
  {
    Le16(Low16(HDRLEN + |payload|)) + Le16(typ) + payload + Zeros(Align(HDRLEN + |payload|) - HDRLEN - |payload|)
  }

  function Low16(n: nat): (r: int)
    ensures 0 <= r < 0x1_0000 && (n - r) % 0x1_0000 == 0 && (n < 0x1_0000 ==> r == n)
  {
    n % 0x1_0000
  }

  /** A list of attributes. */
  datatype Attrs = Done | Then(typ: int, payload: Bytes, rest: Attrs)

  predicate Encodable(attrs: Attrs) {
    match attrs
    case Done => true
    case Then(typ, payload, rest) => 0 <= typ < 0x1_0000 && HDRLEN + |payload| < 0x1_0000 && Encodable(rest)
  }

  /** A region: attributes back to back. */
  function Encode(attrs: Attrs): Bytes
    requires Encodable(attrs)
  {
    match attrs case Done => [] case Then(typ, payload, rest) => Attr(typ, payload) + Encode(rest)
  }

  // ----- the walk

  function LenAt(data: Bytes, at: nat): int
    requires at + HDRLEN <= |data|
  {
    FromLe16(data[at], data[at + 1])
  }

  function TypeAt(data: Bytes, at: nat): int
    requires at + HDRLEN <= |data|
  {
    FromLe16(data[at + 2], data[at + 3]) % TYPE_MASK
  }

  /** A whole attribute stands at `at`, its padding apart. */
  /** A header's length is its first two bytes, low one first; its type the next two without the
      two top bits. */
  lemma {:induction false} HeaderFields(data: Bytes, at: nat)
    requires at + 4 <= |data|
    ensures LenAt(data, at) == data[at] + 256 * (data[at + 1] as int)
    ensures TypeAt(data, at) == data[at + 2] + 256 * (data[at + 3] as int % 64)
  {
  }

  predicate HeaderAt(data: Bytes, at: nat) {
    at + HDRLEN <= |data| && HDRLEN <= LenAt(data, at) <= |data| - at
  }

  /** `part` stands in `data` at position `at`. */
  ghost predicate StandsAt(data: Bytes, at: nat, part: Bytes) {
    at + |part| <= |data| && forall k {:trigger part[k]} :: 0 <= k < |part| ==> data[at + k] == part[k]
  }

  /** The well-formed attributes met by walking over `data` from `at` on, types masked. */
  ghost predicate IsWalk(data: Bytes, at: nat, attrs: Attrs)
    decreases attrs
  {
    match attrs
    case Done => !HeaderAt(data, at)
    case Then(typ, p, rest) =>
      && HeaderAt(data, at) && typ == TypeAt(data, at) && HDRLEN + |p| == LenAt(data, at)
      && StandsAt(data, at + HDRLEN, p) && IsWalk(data, at + Align(HDRLEN + |p|), rest)
  }

  lemma {:induction false} WalkExists(data: Bytes, at: nat)
    ensures exists a :: IsWalk(data, at, a)
    decreases |data| - at
  {
    if HeaderAt(data, at) {
      var n := LenAt(data, at);
      var p := data[at + HDRLEN..at + n];
      WalkExists(data, at + Align(n));
      var rest :| IsWalk(data, at + Align(n), rest);
      SliceStands(data, at + HDRLEN, at + n);
      assert IsWalk(data, at, Then(TypeAt(data, at), p, rest));
    } else {
      assert IsWalk(data, at, Done);
    }
  }

  lemma {:induction false} WalkIsUnique(data: Bytes, at: nat, a: Attrs, b: Attrs)
    requires IsWalk(data, at, a) && IsWalk(data, at, b)
    ensures a == b
    decreases a
  {
    if a.Then? {
      SameBytes(data, at + HDRLEN, a.payload, b.payload);
      WalkIsUnique(data, at + Align(HDRLEN + |a.payload|), a.rest, b.rest);
    }
  }

  lemma {:induction false} SameBytes(data: Bytes, at: nat, a: Bytes, b: Bytes)
    requires StandsAt(data, at, a) && StandsAt(data, at, b) && |a| == |b|
    ensures a == b
  {
    forall k | 0 <= k < |a|
      ensures a[k] == b[k]
    {
    }
  }

  /** The attributes of a region. */
  ghost function AttrsOf(data: Bytes): (a: Attrs)
    ensures IsWalk(data, 0, a)
  {
    WalkExists(data, 0);
    var a :| IsWalk(data, 0, a);
    a
  }

  /** The payload of the first attribute of the wanted type in a list. */
  ghost function First(attrs: Attrs, want: int): Option<Bytes> {
    match attrs
    case Done => None
    case Then(typ, payload, rest) => if typ == want then Some(payload) else First(rest, want)
  }

  ghost function Find(data: Bytes, want: int): Option<Bytes> {
    First(AttrsOf(data), want)
  }

  /** Where the payload of the first attribute of the wanted type starts, or -1. */
  ghost function WhereIn(attrs: Attrs, want: int): (r: int)
    ensures -1 <= r && (r == -1 <==> First(attrs, want) == None)
  {
    match attrs
    case Done => -1
    case Then(typ, payload, rest) =>
      if typ == want then HDRLEN
      else if WhereIn(rest, want) == -1 then -1
      else Align(HDRLEN + |payload|) + WhereIn(rest, want)
  }

  ghost function Where(data: Bytes, want: int): (r: int)
    ensures -1 <= r && (r == -1 <==> Find(data, want) == None)
  {
    WhereIn(AttrsOf(data), want)
  }

  // ----- positions

  lemma {:induction false} StandsInside(data: Bytes, base: nat, nest: Bytes, at: nat, part: Bytes)
    requires StandsAt(data, base, nest) && StandsAt(nest, at, part)
    ensures StandsAt(data, base + at, part)
  {
    forall k | 0 <= k < |part|
      ensures data[base + at + k] == part[k]
    {
      assert nest[at + k] == part[k];
    }
  }

  lemma {:induction false} SliceStands(data: Bytes, from: nat, to: nat)
    requires from <= to <= |data|
    ensures StandsAt(data, from, data[from..to])
  {
  }

  lemma {:induction false} StandingIsSlice(data: Bytes, at: nat, part: Bytes)
    requires StandsAt(data, at, part)
    ensures data[at..at + |part|] == part
  {
  }

  /** The payloads of attributes laid out from `base` on stand in the region. */
  ghost predicate Lies(region: Bytes, base: nat, attrs: Attrs)
    decreases attrs
  {
    match attrs
    case Done => true
    case Then(_, p, rest) => StandsAt(region, base + HDRLEN, p) && Lies(region, base + Align(HDRLEN + |p|), rest)
  }

  /** The walk over a stretch of a region lies there. */
  lemma {:induction false} WalkLies(region: Bytes, base: nat, data: Bytes, at: nat, attrs: Attrs)
    requires StandsAt(region, base, data) && IsWalk(data, at, attrs)
    ensures Lies(region, base + at, attrs)
    decreases attrs
  {
    if attrs.Then? {
      var p, n := attrs.payload, Align(HDRLEN + |attrs.payload|);
      StandsInside(region, base, data, at + HDRLEN, p);
      assert base + (at + HDRLEN) == (base + at) + HDRLEN && base + (at + n) == (base + at) + n;
      WalkLies(region, base, data, at + n, attrs.rest);
    }
  }

  lemma {:induction false} FoundWhereItLies(region: Bytes, base: nat, attrs: Attrs, want: int)
    requires Lies(region, base, attrs) && First(attrs, want).Some?
    ensures StandsAt(region, base + WhereIn(attrs, want), First(attrs, want).value)
    decreases attrs
  {
    if attrs.typ != want {
      var n := Align(HDRLEN + |attrs.payload|);
      FoundWhereItLies(region, base + n, attrs.rest, want);
      assert base + WhereIn(attrs, want) == (base + n) + WhereIn(attrs.rest, want);
    }
  }

  /** A stretch of a region holds what the walk over it finds. */
  lemma {:induction false} StretchLies(region: Bytes, base: nat, data: Bytes)
    requires StandsAt(region, base, data)
    ensures Lies(region, base, AttrsOf(data))
  {
    WalkLies(region, base, data, 0, AttrsOf(data));
  }

  // ----- the reader

  /** The attribute walk of the reader: position and length of the payload found, or -1. */
  method FindAttr(data: Bytes, want: int) returns (pos: int, plen: int)
    ensures pos == Where(data, want) && (pos == -1 <==> Find(data, want) == None)
    ensures pos != -1 ==> 0 <= pos <= pos + plen <= |data| && Find(data, want) == Some(data[pos..pos + plen])
  {
    pos, plen := Search(data, want, AttrsOf(data));
    if pos != -1 {
      StretchLies(data, 0, data);
      FoundWhereItLies(data, 0, AttrsOf(data), want);
      StandingIsSlice(data, pos, Find(data, want).value);
    }
  }

  method Search(data: Bytes, want: int, ghost attrs: Attrs) returns (pos: int, plen: int)
    requires IsWalk(data, 0, attrs)
    ensures pos == WhereIn(attrs, want)
    ensures pos != -1 ==> plen == |First(attrs, want).value|
  {
    var at, len := 0, |data|;
    ghost var rest := attrs;
    while len >= HDRLEN
      invariant 0 <= at && len == |data| - at && IsWalk(data, at, rest) && First(attrs, want) == First(rest, want)
      invariant WhereIn(attrs, want) == if WhereIn(rest, want) == -1 then -1 else at + WhereIn(rest, want)
      decreases len
    {
      var alen := LenAt(data, at);
      if alen < HDRLEN || alen > len { return -1, 0; }
      if TypeAt(data, at) == want { return at + HDRLEN, alen - HDRLEN; }
      len := len - Align(alen);
      at := at + Align(alen);
      rest := rest.rest;
    }
    return -1, 0;
  }

  // ----- encoding, then walking

  /** A walk over the end of something longer. */
  lemma {:induction false} WalkBehind(d: Bytes, n: nat, data: Bytes, at: nat, attrs: Attrs)
    requires IsWalk(data, at, attrs) && StandsAt(d, n, data) && |d| == n + |data|
    ensures IsWalk(d, n + at, attrs)
    decreases attrs
  {
    HeaderBehind(d, n, data, at);
    if attrs.Then? {
      var p, m := attrs.payload, Align(HDRLEN + |attrs.payload|);
      StandsInside(d, n, data, at + HDRLEN, p);
      WalkBehind(d, n, data, at + m, attrs.rest);
      assert n + (at + HDRLEN) == (n + at) + HDRLEN && n + (at + m) == (n + at) + m;
    }
  }

  lemma {:induction false} HeaderBehind(d: Bytes, n: nat, data: Bytes, at: nat)
    requires StandsAt(d, n, data) && |d| == n + |data|
    ensures HeaderAt(d, n + at) <==> HeaderAt(data, at)
    ensures HeaderAt(data, at) ==> LenAt(d, n + at) == LenAt(data, at) && TypeAt(d, n + at) == TypeAt(data, at)
  {
    if at + HDRLEN <= |data| {
      assert d[n + at] == data[at] && d[n + (at + 1)] == data[at + 1];
      assert d[n + (at + 2)] == data[at + 2] && d[n + (at + 3)] == data[at + 3];
    }
  }

  lemma {:induction false} BehindStands(front: Bytes, data: Bytes)
    ensures StandsAt(front + data, |front|, data)
  {
  }

  /** The parts of a written attribute, whatever follows it. */
  lemma {:induction false} AttrParts(typ: int, payload: Bytes, rest: Bytes)
    requires 0 <= typ < 0x1_0000 && HDRLEN + |payload| < 0x1_0000
    ensures var d := Attr(typ, payload) + rest;
            && HeaderAt(d, 0) && LenAt(d, 0) == HDRLEN + |payload| && TypeAt(d, 0) == typ % TYPE_MASK
            && StandsAt(d, HDRLEN, payload)
  {
    var n := HDRLEN + |payload|;
    var h, d := Le16(n) + Le16(typ), Attr(typ, payload) + rest;
    WordRoundTrips(n);
    WordRoundTrips(typ);
    assert d[0] == h[0] == Le16(n)[0] && d[1] == h[1] == Le16(n)[1] && d[2] == h[2] == Le16(typ)[0] && d[3] == h[3] == Le16(typ)[1];
    forall k | 0 <= k < |payload|
      ensures d[HDRLEN + k] == payload[k]
    {
    }
  }

  /** A written attribute in front of anything is walked first, and the walk goes on behind it. */
  lemma {:induction false} AttrInFront(typ: int, payload: Bytes, rest: Bytes)
    requires 0 <= typ < 0x1_0000 && HDRLEN + |payload| < 0x1_0000
    ensures AttrsOf(Attr(typ, payload) + rest) == Then(typ % TYPE_MASK, payload, AttrsOf(rest))
  {
    AttrParts(typ, payload, rest);
    BehindStands(Attr(typ, payload), rest);
    FirstOfWalk(Attr(typ, payload) + rest, typ % TYPE_MASK, payload, rest);
  }

  lemma {:induction false} FirstOfWalk(d: Bytes, typ: int, payload: Bytes, rest: Bytes)
    requires HeaderAt(d, 0) && LenAt(d, 0) == HDRLEN + |payload| && TypeAt(d, 0) == typ && StandsAt(d, HDRLEN, payload)
    requires StandsAt(d, Align(HDRLEN + |payload|), rest) && |d| == Align(HDRLEN + |payload|) + |rest|
    ensures AttrsOf(d) == Then(typ, payload, AttrsOf(rest))
  {
    WalkBehind(d, Align(HDRLEN + |payload|), rest, 0, AttrsOf(rest));
    WalkIsUnique(d, 0, AttrsOf(d), Then(typ, payload, AttrsOf(rest)));
  }

  ghost function Masked(attrs: Attrs): Attrs {
    match attrs case Done => Done case Then(typ, payload, rest) => Then(typ % 16384, payload, Masked(rest))
  }

  /** Round trip: the walk over an encoded region reads every attribute back, in order. */
  lemma {:induction false} WalkReadsEncodedBack(attrs: Attrs)
    requires Encodable(attrs)
    ensures AttrsOf(Encode(attrs)) == Masked(attrs)
  {
    if attrs.Then? {
      WalkReadsEncodedBack(attrs.rest);
      AttrInFront(attrs.typ, attrs.payload, Encode(attrs.rest));
    }
  }

  lemma {:induction false} FindInFront(typ: int, payload: Bytes, rest: Bytes, want: int)
    requires 0 <= typ < 0x1_0000 && HDRLEN + |payload| < 0x1_0000
    ensures Find(Attr(typ, payload) + rest, want) == if typ % TYPE_MASK == want then Some(payload) else Find(rest, want)
  {
    AttrInFront(typ, payload, rest);
  }

  lemma {:induction false} FindInOne(typ: int, payload: Bytes, want: int)
    requires 0 <= typ < 0x1_0000 && HDRLEN + |payload| < 0x1_0000
    ensures Find(Attr(typ, payload), want) == if typ % TYPE_MASK == want then Some(payload) else None
  {
    FindInFront(typ, payload, [], want);
    assert Attr(typ, payload) + [] == Attr(typ, payload);
  }
}
