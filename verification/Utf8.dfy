/** Characters as UTF-8 byte sequences (sections 3 and 4 of RFC 3629). */
module Utf8 {
  import opened Common

  /** A continuation byte: the two top bits are 10. */
  predicate Cont(b: Byte) {
    0x80 <= b < 0xC0
  }

  /** The length that a first byte announces. */
  function ByteCount(c: Byte): (n: int)
    ensures 1 <= n <= 4
  {
    if 0xC0 <= c < 0xE0 then 2
    else if 0xE0 <= c < 0xF0 then 3
    else if 0xF0 <= c < 0xF8 then 4
    else 1
  }

  /** The well-formed sequences of RFC 3629: shortest forms, no surrogates, up to U+10FFFF. */
  predicate WellFormed(c: seq<Byte>) {
    || (|c| == 1 && c[0] < 0x80)
    || (|c| == 2 && 0xC2 <= c[0] <= 0xDF && Cont(c[1]))
    || (|c| == 3 && Cont(c[1]) && Cont(c[2])
        && (|| (c[0] == 0xE0 && 0xA0 <= c[1])
            || 0xE1 <= c[0] <= 0xEC
            || (c[0] == 0xED && c[1] <= 0x9F)
            || 0xEE <= c[0] <= 0xEF))
    || (|c| == 4 && Cont(c[1]) && Cont(c[2]) && Cont(c[3])
        && (|| (c[0] == 0xF0 && 0x90 <= c[1])
            || 0xF1 <= c[0] <= 0xF3
            || (c[0] == 0xF4 && c[1] <= 0x8F)))
  }

  /** What the editor relies on: the first byte gives the length, the others continue it. */
  predicate Shaped(c: seq<Byte>) {
    && c != [] && |c| == ByteCount(c[0]) && !Cont(c[0])
    && forall i :: 0 < i < |c| ==> Cont(c[i])
  }

  lemma WellFormedIsShaped(c: seq<Byte>)
    requires WellFormed(c)
    ensures Shaped(c)
    ensures |c| > 1 ==> c[0] >= 0xC2
  {
  }

  /** The tests the editor makes, on the top bits of a byte. */
  lemma TopBits(b: Byte)
    ensures Cont(b) <==> b / 64 == 2
    ensures ByteCount(b) == if b / 32 == 6 then 2 else if b / 16 == 14 then 3 else if b / 8 == 30 then 4 else 1
  {
  }

  /** The number a character stands for: what its bytes carry below their length marks. */
  function CodePoint(c: seq<Byte>): int
    requires 1 <= |c| <= 4
  {
    var first: int := c[0];
    match |c|
    case 1 => first
    case 2 => More(first - 192, c[1])
    case 3 => More(More(first - 224, c[1]), c[2])
    case _ => More(More(More(first - 240, c[1]), c[2]), c[3])
  }

  /** Six more bits, from a continuation byte. */
  function More(u: int, b: int): int {
    u * 64 + (b - 128)
  }

  /** The shortest encoding of a number below 2^21 (section 3 of RFC 3629). */
  function Encode(u: nat): (c: seq<Byte>)
    requires u < 0x200000
    ensures 1 <= |c| <= 4
  {
    if u < 0x80 then [u]
    else if u < 0x800 then [192 + u / 64, 128 + u % 64]
    else if u < 0x10000 then [224 + u / 64 / 64, 128 + u / 64 % 64, 128 + u % 64]
    else [240 + u / 64 / 64 / 64, 128 + u / 64 / 64 % 64, 128 + u / 64 % 64, 128 + u % 64]
  }

  predicate IsScalar(u: int) {
    0 <= u < 0xD800 || 0xE000 <= u < 0x110000
  }

  lemma {:induction false} MoreUndone(u: nat, b: Byte)
    requires Cont(b)
    ensures More(u, b) / 64 == u && 128 + More(u, b) % 64 == b
  {
  }

  /** A well-formed sequence is the encoding of its number, which is a character's. */
  lemma {:induction false} WellFormedIsEncoded(c: seq<Byte>)
    requires WellFormed(c)
    ensures IsScalar(CodePoint(c)) && Encode(CodePoint(c)) == c
  {
    var first: int := c[0];
    if |c| == 2 {
      MoreUndone(first - 192, c[1]);
    } else if |c| == 3 {
      var u := first - 224;
      MoreUndone(u, c[1]);
      MoreUndone(More(u, c[1]), c[2]);
    } else if |c| == 4 {
      var u := first - 240;
      MoreUndone(u, c[1]);
      MoreUndone(More(u, c[1]), c[2]);
      MoreUndone(More(More(u, c[1]), c[2]), c[3]);
    }
  }

  /** And every character's number has one: the well-formed sequences are those of RFC 3629. */
  lemma {:induction false} EncodedIsWellFormed(u: nat)
    requires IsScalar(u)
    ensures WellFormed(Encode(u)) && CodePoint(Encode(u)) == u
  {
    var a := u / 64;
    assert More(a, 128 + u % 64) == u;
    if u >= 0x800 {
      var b := a / 64;
      assert More(b, 128 + a % 64) == a;
      if u >= 0x10000 {
        assert More(b / 64, 128 + b % 64) == b;
      }
    }
  }
}
