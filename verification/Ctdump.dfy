/** The conntrack query: building a CT_GET request in a byte buffer with nested,
    back-patched attributes, and parsing the tuple out of an attribute region. */
module Ctdump {
  import opened Common
  import opened NetlinkFormat

  const CTA_TUPLE_ORIG: int := 1
  const CTA_TUPLE_IP: int := 1
  const CTA_IP_V4_SRC: int := 1
  const CTA_IP_V4_DST: int := 2
  const CTA_TUPLE_PROTO: int := 2
  const CTA_PROTO_NUM: int := 1
  const CTA_PROTO_SRC_PORT: int := 2
  const CTA_PROTO_DST_PORT: int := 3
  const IPPROTO_TCP: int := 6
  const IPPROTO_UDP: int := 17
  const AF_INET: int := 2
  const PREAMBLE: int := 20  // nlmsghdr and nfgenmsg

  type u8 = x: int | 0 <= x < 256
  type u16 = x: int | 0 <= x < 0x1_0000
  type u32 = x: int | 0 <= x < 0x1_0000_0000

  datatype Tuple = Tuple(src: u32, dst: u32, sport: u16, dport: u16, proto: u8)

  predicate HasPorts(proto: u8) {
    proto == IPPROTO_TCP || proto == IPPROTO_UDP
  }

  // ----- what is to be written

  function IpAttrs(t: Tuple): (r: Bytes)
    ensures |r| == 16
  {
    Attr(CTA_IP_V4_SRC, Be32(t.src)) + Attr(CTA_IP_V4_DST, Be32(t.dst))
  }

  function PortAttrs(t: Tuple): (r: Bytes)
    ensures |r| == if HasPorts(t.proto) then 16 else 0
  {
    if HasPorts(t.proto) then Attr(CTA_PROTO_SRC_PORT, Be16(t.sport)) + Attr(CTA_PROTO_DST_PORT, Be16(t.dport)) else []
  }

  function ProtoAttrs(t: Tuple): (r: Bytes)
    ensures |r| == if HasPorts(t.proto) then 24 else 8
  {
    Attr(CTA_PROTO_NUM, [t.proto]) + PortAttrs(t)
  }

  function TupleAttrs(t: Tuple): (r: Bytes)
    ensures |r| == if HasPorts(t.proto) then 48 else 32
  {
    Attr(CTA_TUPLE_IP + NESTED, IpAttrs(t)) + Attr(CTA_TUPLE_PROTO + NESTED, ProtoAttrs(t))
  }

  /** The attribute region of a request. */
  function RequestAttrs(t: Tuple): (r: Bytes)
    ensures |r| == if HasPorts(t.proto) then 52 else 36
  {
    Attr(CTA_TUPLE_ORIG + NESTED, TupleAttrs(t))
  }

  /** nlmsghdr (length, type, flags, sequence, pid) and nfgenmsg (family, version, resource id). */
  function Preamble(total: u16): (r: Bytes)
    ensures |r| == PREAMBLE
  {
    Le16(total) + [0, 0] + Le16(0x101) + Le16(1) + [1, 0, 0, 0] + [0, 0, 0, 0] + [AF_INET, 0, 0, 0]
  }

  // ----- parsing

  /** A field of fixed width: not there, read, or reaching behind the end of the region. The parser
      does not look at the attribute's own length. */
  datatype Field = Absent | Read(bytes: Bytes) | Outside

  /** The field of a nest whose attributes lie from `base` on in the region. */
  ghost function FieldAt(region: Bytes, base: nat, nest: Attrs, want: int, width: nat): Field {
    var at := WhereIn(nest, want);
    if at == -1 then Absent
    else if base + at + width <= |region| then Read(region[base + at..base + at + width])
    else Outside
  }

  datatype Fields = Fields(src: Field, dst: Field, num: Field, sport: Field, dport: Field)

  /** A nested attribute: where its payload starts, and the attributes in it. */
  datatype Nest = NoNest | Nest(at: nat, attrs: Attrs)

  ghost function NestIn(attrs: Attrs, want: int): Nest {
    match First(attrs, want) case None => NoNest case Some(p) => Nest(WhereIn(attrs, want), AttrsOf(p))
  }

  ghost function TupleOf(region: Bytes): Nest {
    NestIn(AttrsOf(region), CTA_TUPLE_ORIG)
  }

  /** The fields of the nests of a tuple that starts at `base`. */
  ghost function IpFields(region: Bytes, base: nat, ip: Nest): (Field, Field) {
    match ip
    case NoNest => (Absent, Absent)
    case Nest(at, b) => (FieldAt(region, base + at, b, CTA_IP_V4_SRC, 4), FieldAt(region, base + at, b, CTA_IP_V4_DST, 4))
  }

  ghost function ProtoFields(region: Bytes, base: nat, pr: Nest): (Field, Field, Field) {
    match pr
    case NoNest => (Absent, Absent, Absent)
    case Nest(at, b) =>
      (FieldAt(region, base + at, b, CTA_PROTO_NUM, 1), FieldAt(region, base + at, b, CTA_PROTO_SRC_PORT, 2),
       FieldAt(region, base + at, b, CTA_PROTO_DST_PORT, 2))
  }

  /** The five fields of a region whose tuple is `t`. */
  ghost function FieldsIn(region: Bytes, t: Nest): Fields
    requires t.Nest?
  {
    var (s, d) := IpFields(region, t.at, NestIn(t.attrs, CTA_TUPLE_IP));
    var (n, sp, dp) := ProtoFields(region, t.at, NestIn(t.attrs, CTA_TUPLE_PROTO));
    Fields(s, d, n, sp, dp)
  }

  ghost predicate Inside(fs: Fields) {
    fs.src != Outside && fs.dst != Outside && fs.num != Outside && fs.sport != Outside && fs.dport != Outside
  }

  function Value8(f: Field): u8 {
    if f.Read? && |f.bytes| >= 1 then f.bytes[0] else 0
  }

  function Value16(f: Field): int {
    if f.Read? && |f.bytes| >= 2 then FromBe16(f.bytes) else 0
  }

  function Value32(f: Field): int {
    if f.Read? && |f.bytes| >= 4 then FromBe32(f.bytes) else 0
  }

  /** A nested payload found by the parser. */
  datatype Part = NoPart | Part(at: nat, bytes: Bytes)

  ghost function View(p: Part): Nest {
    match p case NoPart => NoNest case Part(at, b) => Nest(at, AttrsOf(b))
  }

  /** Read a field of the nest at `base`. */
  method ReadField(region: Bytes, base: nat, nest: Bytes, want: int, width: nat) returns (f: Field)
    ensures f == FieldAt(region, base, AttrsOf(nest), want, width)
  {
    var at, len := FindAttr(nest, want);
    if at == -1 { return Absent; }
    if base + at + width > |region| { return Outside; }
    return Read(region[base + at..base + at + width]);
  }

  method FindNest(data: Bytes, want: int) returns (p: Part)
    ensures View(p) == NestIn(AttrsOf(data), want)
  {
    var at, len := FindAttr(data, want);
    if at == -1 { return NoPart; }
    return Part(at, data[at..at + len]);
  }

  /** Parse the tuple of any attribute region into a zeroed record; -1 when there is none. The reads
      stay inside the region exactly when none of the five fields reaches behind its end. */
  method ParseTuple(attrs: Bytes) returns (r: int, f: Tuple, inside: bool)
    ensures r == if TupleOf(attrs).Nest? then 0 else -1
    ensures r == -1 ==> inside && f == Tuple(0, 0, 0, 0, 0)
    ensures r == 0 ==>
              var fs := FieldsIn(attrs, TupleOf(attrs));
              && (inside <==> Inside(fs)) && (inside <==> Outside !in {fs.src, fs.dst, fs.num, fs.sport, fs.dport})
              && f == Tuple(Value32(fs.src), Value32(fs.dst), Value16(fs.sport), Value16(fs.dport), Value8(fs.num))
              && (fs.src == Absent ==> f.src == 0) && (fs.dst == Absent ==> f.dst == 0) && (fs.num == Absent ==> f.proto == 0)
              && (fs.sport == Absent ==> f.sport == 0) && (fs.dport == Absent ==> f.dport == 0)
  {
    var tuple := FindNest(attrs, CTA_TUPLE_ORIG);
    if tuple.NoPart? { return -1, Tuple(0, 0, 0, 0, 0), true; }
    f, inside := ParseNest(attrs, tuple);
    return 0, f, inside;
  }

  method ParseNest(region: Bytes, tuple: Part) returns (f: Tuple, inside: bool)
    requires tuple.Part?
    ensures var fs := FieldsIn(region, View(tuple));
            && (inside <==> Inside(fs))
            && f == Tuple(Value32(fs.src), Value32(fs.dst), Value16(fs.sport), Value16(fs.dport), Value8(fs.num))
  {
    var ip := FindNest(tuple.bytes, CTA_TUPLE_IP);
    var pr := FindNest(tuple.bytes, CTA_TUPLE_PROTO);
    var s, d := ParseIp(region, tuple.at, ip);
    var n, sp, dp := ParseProto(region, tuple.at, pr);
    inside := s != Outside && d != Outside && n != Outside && sp != Outside && dp != Outside;
    f := Tuple(Value32(s), Value32(d), Value16(sp), Value16(dp), Value8(n));
  }

  method ParseIp(region: Bytes, base: nat, ip: Part) returns (src: Field, dst: Field)
    ensures (src, dst) == IpFields(region, base, View(ip))
  {
    src, dst := Absent, Absent;
    if ip.Part? {
      src := ReadField(region, base + ip.at, ip.bytes, CTA_IP_V4_SRC, 4);
      dst := ReadField(region, base + ip.at, ip.bytes, CTA_IP_V4_DST, 4);
    }
  }

  method ParseProto(region: Bytes, base: nat, pr: Part) returns (num: Field, sport: Field, dport: Field)
    ensures (num, sport, dport) == ProtoFields(region, base, View(pr))
  {
    num, sport, dport := Absent, Absent, Absent;
    if pr.Part? {
      num := ReadField(region, base + pr.at, pr.bytes, CTA_PROTO_NUM, 1);
      sport := ReadField(region, base + pr.at, pr.bytes, CTA_PROTO_SRC_PORT, 2);
      dport := ReadField(region, base + pr.at, pr.bytes, CTA_PROTO_DST_PORT, 2);
    }
  }

  // ----- values kept at full width

  ghost predicate Wide(nest: Attrs, want: int, width: nat) {
    First(nest, want).Some? ==> |First(nest, want).value| >= width
  }

  ghost predicate WideIp(ip: Attrs) {
    Wide(ip, CTA_IP_V4_SRC, 4) && Wide(ip, CTA_IP_V4_DST, 4)
  }

  ghost predicate WideProto(pr: Attrs) {
    Wide(pr, CTA_PROTO_NUM, 1) && Wide(pr, CTA_PROTO_SRC_PORT, 2) && Wide(pr, CTA_PROTO_DST_PORT, 2)
  }

  ghost predicate WideNests(ip: Nest, pr: Nest) {
    (ip.Nest? ==> WideIp(ip.attrs)) && (pr.Nest? ==> WideProto(pr.attrs))
  }

  /** The sender keeps each value at its full width. */
  ghost predicate FullWidth(attrs: Bytes) {
    var t := TupleOf(attrs);
    t.Nest? ==> WideNests(NestIn(t.attrs, CTA_TUPLE_IP), NestIn(t.attrs, CTA_TUPLE_PROTO))
  }

  /** The first `width` bytes of an attribute's payload, if it is there. */
  ghost function Payload(nest: Attrs, want: int, width: nat): Field
    requires Wide(nest, want, width)
  {
    match First(nest, want) case None => Absent case Some(p) => Read(p[..width])
  }

  lemma {:induction false} SameStart(region: Bytes, at: nat, part: Bytes, width: nat)
    requires StandsAt(region, at, part) && width <= |part|
    ensures region[at..at + width] == part[..width]
  {
  }

  /** A field whose attribute is at least as long as the read is the start of the payload. */
  lemma {:induction false} WideFieldIsPayload(region: Bytes, base: nat, nest: Attrs, want: int, width: nat)
    requires Lies(region, base, nest) && Wide(nest, want, width)
    ensures FieldAt(region, base, nest, want, width) == Payload(nest, want, width)
  {
    if First(nest, want).Some? {
      FoundWhereItLies(region, base, nest, want);
      SameStart(region, base + WhereIn(nest, want), First(nest, want).value, width);
    }
  }

  /** Where a field comes from: from its own attribute if and only if that is at least as wide as the
      read, else the read runs on into what follows; and it leaves the region if and only if fewer
      bytes follow the attribute than it lacks. */
  lemma {:induction false} FieldExactly(region: Bytes, base: nat, nest: Attrs, want: int, width: nat)
    requires Lies(region, base, nest) && First(nest, want).Some?
    ensures var p, f := First(nest, want).value, FieldAt(region, base, nest, want, width);
            var behind := |region| - (base + WhereIn(nest, want) + |p|);
            && behind >= 0
            && (f.Read? && f.bytes <= p <==> |p| >= width)
            && (f == Outside <==> behind < width - |p|)
  {
    FoundWhereItLies(region, base, nest, want);
    var p := First(nest, want).value;
    if |p| >= width { SameStart(region, base + WhereIn(nest, want), p, width); }
  }

  lemma {:induction false} WideIpFields(region: Bytes, base: nat, at: nat, ip: Attrs)
    requires Lies(region, base + at, ip) && WideIp(ip)
    ensures IpFields(region, base, Nest(at, ip)) == (Payload(ip, CTA_IP_V4_SRC, 4), Payload(ip, CTA_IP_V4_DST, 4))
  {
    WideFieldIsPayload(region, base + at, ip, CTA_IP_V4_SRC, 4);
    WideFieldIsPayload(region, base + at, ip, CTA_IP_V4_DST, 4);
  }

  lemma {:induction false} WideProtoFields(region: Bytes, base: nat, at: nat, pr: Attrs)
    requires Lies(region, base + at, pr) && WideProto(pr)
    ensures ProtoFields(region, base, Nest(at, pr))
            == (Payload(pr, CTA_PROTO_NUM, 1), Payload(pr, CTA_PROTO_SRC_PORT, 2), Payload(pr, CTA_PROTO_DST_PORT, 2))
  {
    WideFieldIsPayload(region, base + at, pr, CTA_PROTO_NUM, 1);
    WideFieldIsPayload(region, base + at, pr, CTA_PROTO_SRC_PORT, 2);
    WideFieldIsPayload(region, base + at, pr, CTA_PROTO_DST_PORT, 2);
  }

  ghost predicate NestLies(region: Bytes, base: nat, n: Nest) {
    n.Nest? ==> Lies(region, base + n.at, n.attrs)
  }

  lemma {:induction false} FoundNestLies(region: Bytes, base: nat, attrs: Attrs, want: int)
    requires Lies(region, base, attrs)
    ensures NestLies(region, base, NestIn(attrs, want))
  {
    if First(attrs, want).Some? {
      FoundWhereItLies(region, base, attrs, want);
      StretchLies(region, base + WhereIn(attrs, want), First(attrs, want).value);
    }
  }

  lemma {:induction false} WideIsInside(region: Bytes, base: nat, ip: Nest, pr: Nest)
    requires NestLies(region, base, ip) && NestLies(region, base, pr) && WideNests(ip, pr)
    ensures var (s, d) := IpFields(region, base, ip); s != Outside && d != Outside
    ensures var (n, sp, dp) := ProtoFields(region, base, pr); n != Outside && sp != Outside && dp != Outside
  {
    if ip.Nest? { WideIpFields(region, base, ip.at, ip.attrs); }
    if pr.Nest? { WideProtoFields(region, base, pr.at, pr.attrs); }
  }

  lemma {:induction false} TupleLies(region: Bytes)
    ensures NestLies(region, 0, TupleOf(region))
  {
    StretchLies(region, 0, region);
    FoundNestLies(region, 0, AttrsOf(region), CTA_TUPLE_ORIG);
  }

  /** On values kept at full width the parser stays inside the region. */
  lemma {:induction false} FullWidthIsInside(attrs: Bytes)
    requires FullWidth(attrs) && TupleOf(attrs).Nest?
    ensures Inside(FieldsIn(attrs, TupleOf(attrs)))
  {
    TupleLies(attrs);
    TupleIsInside(attrs, TupleOf(attrs));
  }

  lemma {:induction false} TupleIsInside(region: Bytes, t: Nest)
    requires t.Nest? && Lies(region, t.at, t.attrs)
    requires WideNests(NestIn(t.attrs, CTA_TUPLE_IP), NestIn(t.attrs, CTA_TUPLE_PROTO))
    ensures Inside(FieldsIn(region, t))
  {
    FoundNestLies(region, t.at, t.attrs, CTA_TUPLE_IP);
    FoundNestLies(region, t.at, t.attrs, CTA_TUPLE_PROTO);
    WideIsInside(region, t.at, NestIn(t.attrs, CTA_TUPLE_IP), NestIn(t.attrs, CTA_TUPLE_PROTO));
  }

  // ----- a message that takes the parser out of its region

  lemma {:induction false} OneAttr(typ: int, payload: Bytes)
    requires 0 <= typ < 0x1_0000 && HDRLEN + |payload| < 0x1_0000
    ensures AttrsOf(Attr(typ, payload)) == Then(typ % TYPE_MASK, payload, AttrsOf([])) && AttrsOf([]) == Done
  {
    AttrInFront(typ, payload, []);
    assert Attr(typ, payload) + [] == Attr(typ, payload);
  }

  /** A message of nothing but a source address attribute, in its nests. */
  function OneAddress(addr: Bytes): Bytes {
    Attr(CTA_TUPLE_ORIG + NESTED, Attr(CTA_TUPLE_IP + NESTED, SourceAttr(addr)))
  }

  function SourceAttr(addr: Bytes): (r: Bytes)
    ensures |r| == 4 + Align(|addr|)
  {
    Attr(CTA_IP_V4_SRC, addr)
  }

  /** Parsing it reads behind the region, which is then twelve bytes long, exactly when the address is
      missing. One to three bytes are completed with their padding. */
  lemma {:induction false} MissingAddressLeavesTheRegion(addr: Bytes)
    requires |addr| < 0xFFF0
    ensures TupleOf(OneAddress(addr)).Nest? && |OneAddress(addr)| == 12 + Align(|addr|)
    ensures Inside(FieldsIn(OneAddress(addr), TupleOf(OneAddress(addr)))) <==> addr != []
  {
    var src := SourceAttr(addr);
    OneAttr(CTA_IP_V4_SRC, addr);
    WrappedTwice(src, Align(|addr|));
    OneAddressNests(OneAddress(addr), Attr(CTA_TUPLE_IP + NESTED, src), src, addr);
  }

  lemma {:induction false} WrappedTwice(src: Bytes, n: nat)
    requires |src| == 4 + n && n % 4 == 0 && n <= 0xFFF0
    ensures var ip := Attr(CTA_TUPLE_IP + NESTED, src);
            var m := Attr(CTA_TUPLE_ORIG + NESTED, ip);
            && |m| == 12 + n && AttrsOf(m) == Then(CTA_TUPLE_ORIG, ip, Done) && AttrsOf(ip) == Then(CTA_TUPLE_IP, src, Done)
  {
    OneAttr(CTA_TUPLE_IP + NESTED, src);
    OneAttr(CTA_TUPLE_ORIG + NESTED, Attr(CTA_TUPLE_IP + NESTED, src));
  }

  lemma {:induction false} OneAddressNests(m: Bytes, ip: Bytes, src: Bytes, addr: Bytes)
    requires |m| == 12 + Align(|addr|) && AttrsOf(m) == Then(CTA_TUPLE_ORIG, ip, Done)
    requires AttrsOf(ip) == Then(CTA_TUPLE_IP, src, Done) && AttrsOf(src) == Then(CTA_IP_V4_SRC, addr, Done)
    ensures TupleOf(m).Nest? && (Inside(FieldsIn(m, TupleOf(m))) <==> addr != [])
  {
    assert TupleOf(m) == Nest(4, AttrsOf(ip));
    assert NestIn(AttrsOf(ip), CTA_TUPLE_IP) == Nest(4, AttrsOf(src));
    assert NestIn(AttrsOf(ip), CTA_TUPLE_PROTO) == NoNest;
    assert FieldAt(m, 8, AttrsOf(src), CTA_IP_V4_SRC, 4) == Outside <==> addr == [];
    assert FieldAt(m, 8, AttrsOf(src), CTA_IP_V4_DST, 4) == Absent;
  }

  // ----- what the parser finds in what is written

  /** Two attributes of different types, one behind the other. */
  lemma {:induction false} PairReadsBack(t1: int, p1: Bytes, t2: int, p2: Bytes, w1: int, w2: int)
    requires 0 <= t1 < 0x1_0000 && 0 <= t2 < 0x1_0000 && HDRLEN + |p1| < 0x1_0000 && HDRLEN + |p2| < 0x1_0000
    requires w1 == t1 % TYPE_MASK && w2 == t2 % TYPE_MASK && w1 != w2
    ensures Find(Attr(t1, p1) + Attr(t2, p2), w1) == Some(p1) && Find(Attr(t1, p1) + Attr(t2, p2), w2) == Some(p2)
  {
    FindInFront(t1, p1, Attr(t2, p2), w1);
    FindInFront(t1, p1, Attr(t2, p2), w2);
    FindInOne(t2, p2, w2);
  }

  lemma IpAttrsReadBack(t: Tuple)
    ensures Find(IpAttrs(t), CTA_IP_V4_SRC) == Some(Be32(t.src)) && Find(IpAttrs(t), CTA_IP_V4_DST) == Some(Be32(t.dst))
  {
    PairReadsBack(CTA_IP_V4_SRC, Be32(t.src), CTA_IP_V4_DST, Be32(t.dst), CTA_IP_V4_SRC, CTA_IP_V4_DST);
  }

  lemma ProtoAttrsReadBack(t: Tuple)
    ensures Find(ProtoAttrs(t), CTA_PROTO_NUM) == Some([t.proto])
    ensures HasPorts(t.proto) ==> Find(ProtoAttrs(t), CTA_PROTO_SRC_PORT) == Some(Be16(t.sport))
                                  && Find(ProtoAttrs(t), CTA_PROTO_DST_PORT) == Some(Be16(t.dport))
    ensures !HasPorts(t.proto) ==> Find(ProtoAttrs(t), CTA_PROTO_SRC_PORT) == Find(ProtoAttrs(t), CTA_PROTO_DST_PORT) == None
  {
    FindInFront(CTA_PROTO_NUM, [t.proto], PortAttrs(t), CTA_PROTO_NUM);
    FindInFront(CTA_PROTO_NUM, [t.proto], PortAttrs(t), CTA_PROTO_SRC_PORT);
    FindInFront(CTA_PROTO_NUM, [t.proto], PortAttrs(t), CTA_PROTO_DST_PORT);
    if HasPorts(t.proto) {
      PairReadsBack(CTA_PROTO_SRC_PORT, Be16(t.sport), CTA_PROTO_DST_PORT, Be16(t.dport), CTA_PROTO_SRC_PORT, CTA_PROTO_DST_PORT);
    }
  }

  lemma RequestReadsBack(t: Tuple)
    ensures Find(RequestAttrs(t), CTA_TUPLE_ORIG) == Some(TupleAttrs(t))
    ensures Find(TupleAttrs(t), CTA_TUPLE_IP) == Some(IpAttrs(t))
    ensures Find(TupleAttrs(t), CTA_TUPLE_PROTO) == Some(ProtoAttrs(t))
  {
    FindInOne(CTA_TUPLE_ORIG + NESTED, TupleAttrs(t), CTA_TUPLE_ORIG);
    PairReadsBack(CTA_TUPLE_IP + NESTED, IpAttrs(t), CTA_TUPLE_PROTO + NESTED, ProtoAttrs(t), CTA_TUPLE_IP, CTA_TUPLE_PROTO);
  }

  lemma {:induction false} AttrsAreWide(t: Tuple)
    ensures WideIp(AttrsOf(IpAttrs(t))) && WideProto(AttrsOf(ProtoAttrs(t)))
  {
    IpAttrsReadBack(t);
    ProtoAttrsReadBack(t);
  }

  /** The nests of a request's tuple. */
  lemma {:induction false} RequestNests(t: Tuple)
    ensures TupleOf(RequestAttrs(t)).Nest? && TupleOf(RequestAttrs(t)).attrs == AttrsOf(TupleAttrs(t))
    ensures var ip := NestIn(AttrsOf(TupleAttrs(t)), CTA_TUPLE_IP); ip.Nest? && ip.attrs == AttrsOf(IpAttrs(t))
    ensures var pr := NestIn(AttrsOf(TupleAttrs(t)), CTA_TUPLE_PROTO); pr.Nest? && pr.attrs == AttrsOf(ProtoAttrs(t))
  {
    RequestReadsBack(t);
  }

  lemma {:induction false} RequestIsFullWidth(t: Tuple)
    ensures FullWidth(RequestAttrs(t))
  {
    RequestNests(t);
    AttrsAreWide(t);
  }

  // ----- writing

  /** Copy bytes into a buffer. */
  method Store(buf: array<Byte>, off: nat, bytes: Bytes)
    requires off + |bytes| <= buf.Length
    modifies buf
    ensures buf[..off] == old(buf[..off]) && buf[off..off + |bytes|] == bytes
    ensures buf[off + |bytes|..] == old(buf[off + |bytes|..])
  {
    forall k | 0 <= k < |bytes| {
      buf[off + k] := bytes[k];
    }
  }

  /** What a store of `n` bytes at `off` leaves of the first `cur` bytes. */
  lemma {:induction false} StoredBelow(was: Bytes, now: Bytes, off: nat, n: nat, cur: nat)
    requires |was| == |now| && off + n <= cur <= |was|
    requires now[..off] == was[..off] && now[off + n..] == was[off + n..]
    ensures now[..cur][..off] == was[..cur][..off] && now[..cur][off..off + n] == now[off..off + n]
    ensures now[..cur][off + n..] == was[..cur][off + n..]
  {
    assert now[..cur][..off] == now[..off] && was[..cur][..off] == was[..off];
    assert now[..cur][off + n..] == now[off + n..][..cur - off - n];
    assert was[..cur][off + n..] == was[off + n..][..cur - off - n];
  }

  /** Append bytes: what was before stays. */
  method Append(buf: array<Byte>, off: nat, bytes: Bytes)
    requires off + |bytes| <= buf.Length
    modifies buf
    ensures buf[..off + |bytes|] == old(buf[..off]) + bytes
  {
    Store(buf, off, bytes);
    assert buf[..off + |bytes|] == buf[..off] + buf[off..off + |bytes|];
  }

  /** Write an attribute, or -1 when it does not fit. */
  method PutRaw(buf: array<Byte>, off: nat, cap: nat, typ: u16, data: Bytes) returns (off': int)
    requires off <= cap <= buf.Length
    modifies buf
    ensures off' == if off + Align(HDRLEN + |data|) > cap then -1 else off + Align(HDRLEN + |data|)
    ensures off' != -1 ==> buf[..off'] == old(buf[..off]) + Attr(typ, data)
  {
    var align := Align(HDRLEN + |data|);
    if off + align > cap { return -1; }
    ghost var before := buf[..off];
    var header, pad := Le16(Low16(HDRLEN + |data|)) + Le16(typ), Zeros(align - HDRLEN - |data|);
    Append(buf, off, header);
    Append(buf, off + HDRLEN, data);
    Append(buf, off + HDRLEN + |data|, pad);
    assert (before + header) + data + pad == before + (header + data + pad);
    return off + align;
  }

  /** Open a nested attribute with a length to be patched, or -1. */
  method NestStart(buf: array<Byte>, off: nat, cap: nat, typ: u16) returns (off': int)
    requires off <= cap <= buf.Length && typ < NESTED
    modifies buf
    ensures off' == if off + HDRLEN > cap then -1 else off + HDRLEN
    ensures off' != -1 ==> buf[..off'] == old(buf[..off]) + (Le16(HDRLEN) + Le16(typ + NESTED))
  {
    if off + HDRLEN > cap { return -1; }
    Append(buf, off, Le16(HDRLEN) + Le16(typ + NESTED));
    return off + HDRLEN;
  }

  /** Close a nested attribute: patch its length to reach `cur`. */
  method NestEnd(buf: array<Byte>, nest: nat, cur: nat, ghost before: Bytes, ghost typ: u16, ghost payload: Bytes)
    requires nest == |before| && cur == nest + HDRLEN + |payload| <= buf.Length && |payload| % 4 == 0
    requires HDRLEN + |payload| < 0x1_0000 && typ < NESTED
    requires buf[..cur] == before + (Le16(HDRLEN) + Le16(typ + NESTED)) + payload
    modifies buf
    ensures buf[..cur] == before + Attr(typ + NESTED, payload)
  {
    ghost var was := buf[..];
    assert was[..cur] == before + (Le16(HDRLEN) + Le16(typ + NESTED)) + payload;
    Store(buf, nest, Le16(cur - nest));
    ghost var now := buf[..];
    assert now[..nest] == was[..nest] && now[nest + 2..] == was[nest + 2..] && now[nest..nest + 2] == Le16(cur - nest);
    StoredBelow(was, now, nest, 2, cur);
    PatchedPrefix(before, Le16(HDRLEN), Le16(typ + NESTED), payload, Le16(cur - nest), was[..cur], now[..cur]);
    PayloadIsAligned(typ + NESTED, payload);
    assert before + (Le16(cur - nest) + Le16(typ + NESTED) + payload) == before + Le16(cur - nest) + Le16(typ + NESTED) + payload;
  }

  /** Replacing the two length bytes in a written region. */
  lemma PatchedPrefix(before: Bytes, len0: Bytes, typ: Bytes, payload: Bytes, len1: Bytes, was: Bytes, now: Bytes)
    requires |len0| == |len1| == 2 && |now| == |was| && was == before + (len0 + typ) + payload
    requires now[..|before|] == was[..|before|] && now[|before|..|before| + 2] == len1
    requires now[|before| + 2..] == was[|before| + 2..]
    ensures now == before + len1 + typ + payload
  {
    assert now == now[..|before|] + now[|before|..|before| + 2] + now[|before| + 2..];
    assert was[|before| + 2..] == typ + payload;
    assert was[..|before|] == before;
  }

  /** An aligned payload needs no padding. */
  lemma PayloadIsAligned(typ: u16, payload: Bytes)
    requires |payload| % 4 == 0 && HDRLEN + |payload| < 0x1_0000
    ensures Attr(typ, payload) == Le16(HDRLEN + |payload|) + Le16(typ) + payload
  {
    assert Align(HDRLEN + |payload|) == HDRLEN + |payload|;
  }

  method PutIp(buf: array<Byte>, off: nat, cap: nat, t: Tuple) returns (off': int)
    requires off <= cap <= buf.Length
    modifies buf
    ensures off' == if off + 20 > cap then -1 else off + 20
    ensures off' != -1 ==> buf[..off'] == old(buf[..off]) + Attr(CTA_TUPLE_IP + NESTED, IpAttrs(t))
  {
    ghost var before := buf[..off];
    ghost var open := Le16(HDRLEN) + Le16(CTA_TUPLE_IP + NESTED);
    off' := NestStart(buf, off, cap, CTA_TUPLE_IP);
    if off' == -1 { return -1; }
    off' := PutRaw(buf, off', cap, CTA_IP_V4_SRC, Be32(t.src));
    if off' == -1 { return -1; }
    off' := PutRaw(buf, off', cap, CTA_IP_V4_DST, Be32(t.dst));
    if off' == -1 { return -1; }
    assert buf[..off'] == before + open + IpAttrs(t) by {
      Regroup(before + open, Attr(CTA_IP_V4_SRC, Be32(t.src)), Attr(CTA_IP_V4_DST, Be32(t.dst)));
    }
    NestEnd(buf, off, off', before, CTA_TUPLE_IP, IpAttrs(t));
  }

  method PutPorts(buf: array<Byte>, off: nat, cap: nat, t: Tuple) returns (off': int)
    requires off <= cap <= buf.Length
    modifies buf
    ensures off' == if off + |PortAttrs(t)| > cap then -1 else off + |PortAttrs(t)|
    ensures off' != -1 ==> buf[..off'] == old(buf[..off]) + PortAttrs(t)
  {
    off' := off;
    if HasPorts(t.proto) {
      off' := PutRaw(buf, off', cap, CTA_PROTO_SRC_PORT, Be16(t.sport));
      if off' == -1 { return -1; }
      off' := PutRaw(buf, off', cap, CTA_PROTO_DST_PORT, Be16(t.dport));
      Regroup(old(buf[..off]), Attr(CTA_PROTO_SRC_PORT, Be16(t.sport)), Attr(CTA_PROTO_DST_PORT, Be16(t.dport)));
    }
  }

  method PutProto(buf: array<Byte>, off: nat, cap: nat, t: Tuple) returns (off': int)
    requires off <= cap <= buf.Length
    modifies buf
    ensures off' == if off + HDRLEN + |ProtoAttrs(t)| > cap then -1 else off + HDRLEN + |ProtoAttrs(t)|
    ensures off' != -1 ==> buf[..off'] == old(buf[..off]) + Attr(CTA_TUPLE_PROTO + NESTED, ProtoAttrs(t))
  {
    ghost var before := buf[..off];
    ghost var open := Le16(HDRLEN) + Le16(CTA_TUPLE_PROTO + NESTED);
    off' := NestStart(buf, off, cap, CTA_TUPLE_PROTO);
    if off' == -1 { return -1; }
    off' := PutRaw(buf, off', cap, CTA_PROTO_NUM, [t.proto]);
    if off' == -1 { return -1; }
    off' := PutPorts(buf, off', cap, t);
    if off' == -1 { return -1; }
    assert buf[..off'] == before + open + ProtoAttrs(t) by {
      Regroup(before + open, Attr(CTA_PROTO_NUM, [t.proto]), PortAttrs(t));
    }
    NestEnd(buf, off, off', before, CTA_TUPLE_PROTO, ProtoAttrs(t));
  }

  method PutTuple(buf: array<Byte>, off: nat, cap: nat, t: Tuple) returns (off': int)
    requires off <= cap <= buf.Length
    modifies buf
    ensures off' == if off + |RequestAttrs(t)| > cap then -1 else off + |RequestAttrs(t)|
    ensures off' != -1 ==> buf[..off'] == old(buf[..off]) + RequestAttrs(t)
  {
    ghost var before := buf[..off];
    ghost var open := Le16(HDRLEN) + Le16(CTA_TUPLE_ORIG + NESTED);
    ghost var ip, pr := Attr(CTA_TUPLE_IP + NESTED, IpAttrs(t)), Attr(CTA_TUPLE_PROTO + NESTED, ProtoAttrs(t));
    off' := NestStart(buf, off, cap, CTA_TUPLE_ORIG);
    if off' == -1 { return -1; }
    off' := PutIp(buf, off', cap, t);
    if off' == -1 { return -1; }
    off' := PutProto(buf, off', cap, t);
    if off' == -1 { return -1; }
    assert buf[..off'] == before + open + TupleAttrs(t) by {
      Regroup(before + open, ip, pr);
    }
    NestEnd(buf, off, off', before, CTA_TUPLE_ORIG, TupleAttrs(t));
  }

  /** Build a CT_GET request: -1 exactly when the buffer is too small, else the length. */
  method BuildCtGet(buf: array<Byte>, cap: nat, t: Tuple) returns (r: int)
    requires cap <= buf.Length
    modifies buf
    ensures r == if cap < PREAMBLE + |RequestAttrs(t)| then -1 else PREAMBLE + |RequestAttrs(t)|
    ensures r != -1 ==> buf[..r] == Preamble(r) + RequestAttrs(t)
    ensures r == if cap < |Wire(t)| then -1 else |Wire(t)|
    ensures r != -1 ==> buf[..r] == Wire(t)
  {
    RequestOnTheWire(t);
    Store(buf, 0, Zeros(cap));
    if PREAMBLE > cap { return -1; }
    PutFamily(buf, cap);
    ghost var blank := buf[..PREAMBLE];
    var off := PutTuple(buf, PREAMBLE, cap, t);
    if off == -1 { return -1; }
    PutHeader(buf, off, blank, RequestAttrs(t));
    return off;
  }

  /** A request byte by byte: a CT_GET message
      (message type 0x0101, flags 1, sequence number 1, family 2), and in it, nested, the tuple with
      its addresses, protocol and, for TCP and UDP, ports in network byte order. */
  function Wire(t: Tuple): Bytes {
    if t.proto == 6 || t.proto == 17 then WireHeader(72, 52) + (WireIp(t.src, t.dst) + WireWithPorts(t))
    else WireHeader(56, 36) + (WireIp(t.src, t.dst) + WireWithoutPorts(t))
  }

  function WireHeader(total: Byte, tuple: Byte): Bytes {
    [total, 0, 0, 0, 1, 1, 1, 0, 1, 0, 0, 0, 0, 0, 0, 0, 2, 0, 0, 0] + [tuple, 0, 1, 128]
  }

  function WireIp(src: u32, dst: u32): Bytes {
    [20, 0, 1, 128]
    + [8, 0, 1, 0, src / 65536 / 256, src / 65536 % 256, src % 65536 / 256, src % 65536 % 256]
    + [8, 0, 2, 0, dst / 65536 / 256, dst / 65536 % 256, dst % 65536 / 256, dst % 65536 % 256]
  }

  function WireWithPorts(t: Tuple): Bytes {
    [28, 0, 2, 128] + [5, 0, 1, 0, t.proto, 0, 0, 0]
    + [6, 0, 2, 0, t.sport / 256, t.sport % 256, 0, 0] + [6, 0, 3, 0, t.dport / 256, t.dport % 256, 0, 0]
  }

  function WireWithoutPorts(t: Tuple): Bytes {
    [12, 0, 2, 128] + [5, 0, 1, 0, t.proto, 0, 0, 0]
  }

  lemma {:induction false} AddressBytes(x: u32)
    ensures Be32(x) == [x / 65536 / 256, x / 65536 % 256, x % 65536 / 256, x % 65536 % 256]
  {
  }

  lemma {:induction false} IpOnTheWire(t: Tuple)
    ensures Attr(CTA_TUPLE_IP + NESTED, IpAttrs(t)) == WireIp(t.src, t.dst)
  {
    AddressBytes(t.src);
    AddressBytes(t.dst);
  }

  lemma {:induction false} PortsOnTheWire(t: Tuple)
    requires t.proto == 6 || t.proto == 17
    ensures Attr(CTA_TUPLE_PROTO + NESTED, ProtoAttrs(t)) == WireWithPorts(t)
  {
    ShortAttrs(t);
    NestedHeader(ProtoAttrs(t), 28);
  }

  lemma {:induction false} ShortAttrs(t: Tuple)
    ensures Attr(CTA_PROTO_NUM, [t.proto]) == [5, 0, 1, 0, t.proto, 0, 0, 0]
    ensures Attr(CTA_PROTO_SRC_PORT, Be16(t.sport)) == [6, 0, 2, 0, t.sport / 256, t.sport % 256, 0, 0]
    ensures Attr(CTA_PROTO_DST_PORT, Be16(t.dport)) == [6, 0, 3, 0, t.dport / 256, t.dport % 256, 0, 0]
  {
  }

  lemma {:induction false} NestedHeader(payload: Bytes, n: Byte)
    requires n == |payload| + 4 && n % 4 == 0
    ensures Attr(CTA_TUPLE_PROTO + NESTED, payload) == [n, 0, 2, 128] + payload
  {
    PayloadIsAligned(CTA_TUPLE_PROTO + NESTED, payload);
  }

  lemma {:induction false} NoPortsOnTheWire(t: Tuple)
    requires t.proto != 6 && t.proto != 17
    ensures Attr(CTA_TUPLE_PROTO + NESTED, ProtoAttrs(t)) == WireWithoutPorts(t)
  {
    ShortAttrs(t);
    NestedHeader(ProtoAttrs(t), 12);
  }

  lemma {:induction false} HeaderOnTheWire(total: Byte, tuple: Byte, payload: Bytes)
    requires tuple == |payload| + 4 && |payload| % 4 == 0
    ensures Preamble(total) + Attr(CTA_TUPLE_ORIG + NESTED, payload) == WireHeader(total, tuple) + payload
  {
    PayloadIsAligned(CTA_TUPLE_ORIG + NESTED, payload);
    var head := Le16(tuple) + Le16(CTA_TUPLE_ORIG + NESTED);
    assert head == [tuple, 0, 1, 128];
    assert Preamble(total) == [total, 0, 0, 0, 1, 1, 1, 0, 1, 0, 0, 0, 0, 0, 0, 0, 2, 0, 0, 0];
    assert Preamble(total) + (head + payload) == (Preamble(total) + head) + payload;
  }

  /** The nested attributes behind their header are these bytes. */
  lemma {:induction false} RequestOnTheWire(t: Tuple)
    ensures |Wire(t)| == PREAMBLE + |RequestAttrs(t)| == if t.proto == 6 || t.proto == 17 then 72 else 56
    ensures Preamble(|Wire(t)|) + RequestAttrs(t) == Wire(t)
  {
    IpOnTheWire(t);
    if t.proto == 6 || t.proto == 17 {
      PortsOnTheWire(t);
      HeaderOnTheWire(72, 52, TupleAttrs(t));
    } else {
      NoPortsOnTheWire(t);
      HeaderOnTheWire(56, 36, TupleAttrs(t));
    }
  }

  /** The nfgenmsg behind the header, in a zeroed buffer. */
  method PutFamily(buf: array<Byte>, cap: nat)
    requires PREAMBLE <= cap <= buf.Length && buf[0..cap] == Zeros(cap)
    modifies buf
    ensures buf[..PREAMBLE][12..] == [0, 0, 0, 0] + [AF_INET, 0, 0, 0]
  {
    assert buf[..16] == buf[0..cap][..16] == Zeros(16);
    Store(buf, 16, [AF_INET, 0, 0, 0]);
    ghost var blank := buf[..PREAMBLE];
    assert blank[..16] == buf[..16] && blank[12..16] == Zeros(16)[12..] == [0, 0, 0, 0] && blank[16..] == buf[16..20];
    assert blank[12..] == blank[12..16] + blank[16..];
  }

  /** The nlmsghdr, over the first twelve bytes. */
  method PutHeader(buf: array<Byte>, off: nat, ghost blank: Bytes, ghost attrs: Bytes)
    requires PREAMBLE <= off <= buf.Length && off < 0x1_0000 && |blank| == PREAMBLE && buf[..off] == blank + attrs
    requires blank[12..] == [0, 0, 0, 0] + [AF_INET, 0, 0, 0]
    modifies buf
    ensures buf[..off] == Preamble(off) + attrs
  {
    ghost var was := buf[..];
    assert was[..off] == buf[..off];
    var header := Le16(off) + [0, 0] + Le16(0x101) + Le16(1) + [1, 0, 0, 0];
    Store(buf, 0, header);
    ghost var now := buf[..];
    assert now[..0] == was[..0] && now[12..] == was[12..] && now[0..12] == header;
    StoredBelow(was, now, 0, 12, off);
    assert now[..off] == buf[..off] && now[..off][..12] == now[..off][0..12];
    PatchedHeader(header, blank, attrs, was[..off], now[..off]);
    assert Preamble(off) == header + blank[12..];
  }

  /** The message header is written last, over the first twelve bytes. */
  lemma PatchedHeader(header: Bytes, blank: Bytes, attrs: Bytes, was: Bytes, now: Bytes)
    requires |header| == 12 && |blank| == PREAMBLE && |now| == |was| && was == blank + attrs
    requires now[..12] == header && now[12..] == was[12..]
    ensures now == header + blank[12..] + attrs
  {
    assert now == now[..12] + now[12..];
    assert was[12..] == blank[12..] + attrs;
  }

  /** Round trip: a request fits a 512-byte buffer, and parsing its attribute region gives
      back its tuple, the ports of a protocol without ports reading as zero. */
  method RoundTrip(t: Tuple) returns (r: int, f: Tuple)
    ensures r == 0 && f == if t.proto == 6 || t.proto == 17 then t else t.(sport := 0, dport := 0)
  {
    var buf := new Byte[512];
    var n := BuildCtGet(buf, 512, t);
    assert buf[PREAMBLE..n] == RequestAttrs(t);
    RequestFields(t);
    var inside;
    r, f, inside := ParseTuple(buf[PREAMBLE..n]);
  }

  ghost predicate IpIs(fs: (Field, Field), t: Tuple) {
    Value32(fs.0) == t.src && Value32(fs.1) == t.dst
  }

  ghost predicate ProtoIs(fs: (Field, Field, Field), t: Tuple) {
    && Value8(fs.0) == t.proto && Value16(fs.1) == (if HasPorts(t.proto) then t.sport else 0)
    && Value16(fs.2) == (if HasPorts(t.proto) then t.dport else 0)
  }

  /** The fields of a request are its tuple's values. */
  lemma {:induction false} RequestFields(t: Tuple)
    ensures TupleOf(RequestAttrs(t)).Nest?
    ensures var fs := FieldsIn(RequestAttrs(t), TupleOf(RequestAttrs(t)));
            Inside(fs) && IpIs((fs.src, fs.dst), t) && ProtoIs((fs.num, fs.sport, fs.dport), t)
  {
    var attrs := RequestAttrs(t);
    RequestNests(t);
    RequestIsFullWidth(t);
    FullWidthIsInside(attrs);
    TupleLies(attrs);
    NestValues(attrs, TupleOf(attrs).at, AttrsOf(TupleAttrs(t)), t);
  }

  lemma {:induction false} NestValues(region: Bytes, base: nat, tuple: Attrs, t: Tuple)
    requires tuple == AttrsOf(TupleAttrs(t)) && Lies(region, base, tuple)
    ensures IpIs(IpFields(region, base, NestIn(tuple, CTA_TUPLE_IP)), t)
    ensures ProtoIs(ProtoFields(region, base, NestIn(tuple, CTA_TUPLE_PROTO)), t)
  {
    RequestNests(t);
    FoundNestLies(region, base, tuple, CTA_TUPLE_IP);
    FoundNestLies(region, base, tuple, CTA_TUPLE_PROTO);
    IpNestValues(region, base, NestIn(tuple, CTA_TUPLE_IP), t);
    ProtoNestValues(region, base, NestIn(tuple, CTA_TUPLE_PROTO), t);
  }

  lemma {:induction false} IpNestValues(region: Bytes, base: nat, ip: Nest, t: Tuple)
    requires ip.Nest? && ip.attrs == AttrsOf(IpAttrs(t)) && NestLies(region, base, ip)
    ensures IpIs(IpFields(region, base, ip), t)
  {
    IpValues(region, base, ip.at, ip.attrs, t);
  }

  lemma {:induction false} ProtoNestValues(region: Bytes, base: nat, pr: Nest, t: Tuple)
    requires pr.Nest? && pr.attrs == AttrsOf(ProtoAttrs(t)) && NestLies(region, base, pr)
    ensures ProtoIs(ProtoFields(region, base, pr), t)
  {
    ProtoValues(region, base, pr.at, pr.attrs, t);
  }

  lemma {:induction false} IpValues(region: Bytes, base: nat, at: nat, ip: Attrs, t: Tuple)
    requires ip == AttrsOf(IpAttrs(t)) && Lies(region, base + at, ip)
    ensures IpIs(IpFields(region, base, Nest(at, ip)), t)
  {
    IpAttrsReadBack(t);
    AttrsAreWide(t);
    WideIpFields(region, base, at, ip);
    Be32RoundTrips(t.src);
    Be32RoundTrips(t.dst);
    assert Be32(t.src)[..4] == Be32(t.src) && Be32(t.dst)[..4] == Be32(t.dst);
  }

  lemma {:induction false} ProtoValues(region: Bytes, base: nat, at: nat, pr: Attrs, t: Tuple)
    requires pr == AttrsOf(ProtoAttrs(t)) && Lies(region, base + at, pr)
    ensures ProtoIs(ProtoFields(region, base, Nest(at, pr)), t)
  {
    ProtoAttrsReadBack(t);
    AttrsAreWide(t);
    WideProtoFields(region, base, at, pr);
    WordRoundTrips(t.sport);
    WordRoundTrips(t.dport);
    assert Be16(t.sport)[..2] == Be16(t.sport) && Be16(t.dport)[..2] == Be16(t.dport);
  }
}
