/** The line editor seen as a zipper over whole characters, and when the byte buffer is one. */
module CharZipper {
  import opened Common
  import opened Utf8
  import opened LineEditor

  type Char = seq<Byte>

  /** A list of characters; the head is the one next to the cursor. */
  datatype Chars = Nil | Cons(head: Char, tail: Chars)

  datatype CharZip = CharZip(before: Chars, after: Chars)

  // ----- keys and what they do to characters

  datatype Direction = ToLeft | ToRight | ToHome | ToEnd

  datatype Key =
    | Typed(c: Char)
    | Arrow(app: bool, to: Direction)
    | Delete
    | Backspace(ctrlH: bool)
    | CtrlA | CtrlD | CtrlE | CtrlU | CtrlW | Help
    | Foreign(bytes: seq<Byte>)

  /** A character that reaches the line: printable, and neither DEL nor the help key. */
  predicate Typable(c: Char) {
    WellFormed(c) && c[0] >= 32 && c[0] != 127 && c[0] != 63
  }

  /** What a terminal sends for keys without a meaning: a control byte that names nothing, or
      an escape sequence that is no arrow, Home, End or Delete. */
  predicate Meaningless(bytes: seq<Byte>) {
    || (|bytes| == 1 && bytes[0] < 32 && bytes[0] !in {1, 3, 4, 5, 8, 9, 10, 13, 21, 23, 27})
    || (|bytes| == 3 && bytes[0] == 27 && bytes[1] != 79 && bytes[1] != 91)
    || (|bytes| == 3 && bytes[0] == 27 && (bytes[1] == 79 || bytes[1] == 91)
        && bytes[2] !in {65, 66, 67, 68, 70, 72} && !(bytes[1] == 91 && bytes[2] == 51))
    || (|bytes| == 4 && bytes[..3] == [27, 91, 51] && bytes[3] != 126)
  }

  /** The bytes a terminal sends. */
  function Sent(k: Key): (r: seq<Byte>) {
    match k
    case Typed(c) => c
    case Arrow(app, to) =>
      [27, if app then 79 else 91, ArrowByte(to)]
    case Delete => [27, 91, 51, 126]
    case Backspace(ctrlH) => [if ctrlH then 8 else 127]
    case CtrlA => [1]
    case CtrlD => [4]
    case CtrlE => [5]
    case CtrlU => [21]
    case CtrlW => [23]
    case Help => [63]
    case Foreign(bytes) => bytes
  }

  /** All of `from` moved over onto `onto`, one character at a time. */
  function Shift(from: Chars, onto: Chars): Chars {
    match from
    case Nil => onto
    case Cons(c, t) => Shift(t, Cons(c, onto))
  }

  function SkipSpaces(cs: Chars): Chars {
    if cs.Cons? && cs.head == [32] then SkipSpaces(cs.tail) else cs
  }

  function SkipWord(cs: Chars): Chars {
    if cs.Cons? && cs.head != [32] then SkipWord(cs.tail) else cs
  }

  /** The editor as its user knows it. A typed character is dropped when the line is full. */
  function Do(z: CharZip, k: Key): CharZip {
    match k
    case Typed(c) => if Length(z) == 511 then z else CharZip(Cons(c, z.before), z.after)
    case Arrow(_, ToLeft) => if z.before.Cons? then CharZip(z.before.tail, Cons(z.before.head, z.after)) else z
    case Arrow(_, ToRight) => if z.after.Cons? then CharZip(Cons(z.after.head, z.before), z.after.tail) else z
    case Arrow(_, ToHome) => CharZip(Nil, Shift(z.before, z.after))
    case Arrow(_, ToEnd) => CharZip(Shift(z.after, z.before), Nil)
    case Delete => if z.after.Cons? then CharZip(z.before, z.after.tail) else z
    case Backspace(_) => if z.before.Cons? then CharZip(z.before.tail, z.after) else z
    case CtrlA => CharZip(Nil, Shift(z.before, z.after))
    case CtrlD => if z.after.Cons? then CharZip(z.before, z.after.tail) else z
    case CtrlE => CharZip(Shift(z.after, z.before), Nil)
    case CtrlU => CharZip(Nil, Nil)
    case CtrlW => CharZip(SkipWord(SkipSpaces(z.before)), z.after)
    case Help => z
    case Foreign(_) => z
  }

  // ----- characters as bytes

  function Behind(cs: Chars): seq<Byte> {
    match cs case Nil => [] case Cons(c, t) => Behind(t) + c
  }

  function Ahead(cs: Chars): seq<Byte> {
    match cs case Nil => [] case Cons(c, t) => c + Ahead(t)
  }

  function ZipOf(z: CharZip): Zip {
    Zip(Behind(z.before), Ahead(z.after))
  }

  function Length(z: CharZip): nat {
    |Behind(z.before)| + |Ahead(z.after)|
  }

  predicate AllFormed(cs: Chars) {
    cs.Cons? ==> WellFormed(cs.head) && AllFormed(cs.tail)
  }

  predicate Sound(z: CharZip) {
    AllFormed(z.before) && AllFormed(z.after) && Length(z) < 512
  }

  /** There is room for all of a typed character, or for none of it. */
  predicate Fits(z: CharZip, k: Key) {
    && (k.Typed? ==> Typable(k.c) && (Length(z) + |k.c| < 512 || Length(z) == 511))
    && (k.Foreign? ==> Meaningless(k.bytes))
  }

  // ----- one character back, one character ahead

  lemma {:induction false} StartOfLast(front: seq<Byte>, c: Char, i: nat)
    requires Shaped(c) && i < |c|
    ensures CharStart(front + c, |front| + i) == |front|
    decreases i
  {
    if i > 0 {
      assert (front + c)[|front| + i] == c[i];
      StartOfLast(front, c, i - 1);
    } else {
      assert (front + c)[|front|] == c[0];
    }
  }

  lemma {:induction false} EndOfFirst(c: Char, rest: Chars, i: nat)
    requires Shaped(c) && AllFormed(rest) && 1 <= i <= |c|
    ensures CharEnd(c + Ahead(rest), i) == |c|
    decreases |c| - i
  {
    var s := c + Ahead(rest);
    if i < |c| {
      assert s[i] == c[i];
      EndOfFirst(c, rest, i + 1);
    } else if rest.Cons? {
      WellFormedIsShaped(rest.head);
      assert s[i] == rest.head[0];
    }
  }

  lemma {:induction false} OneBack(z: CharZip)
    requires Sound(z)
    ensures Left(ZipOf(z)) == ZipOf(Do(z, Arrow(false, ToLeft)))
    ensures DeleteBehind(ZipOf(z)) == ZipOf(Do(z, Backspace(false)))
  {
    if z.before.Cons? {
      LastChar(z.before);
    }
  }

  /** The last character of a text, found from its bytes. */
  lemma {:induction false} LastChar(cs: Chars)
    requires cs.Cons? && AllFormed(cs)
    ensures var s, k := Behind(cs), |Behind(cs.tail)|;
            && s != [] && CharStart(s, |s| - 1) == k && s[..k] == Behind(cs.tail) && s[k..] == cs.head
  {
    var c, t := cs.head, Behind(cs.tail);
    WellFormedIsShaped(c);
    StartOfLast(t, c, |c| - 1);
  }

  lemma {:induction false} OneAhead(z: CharZip)
    requires Sound(z)
    ensures Right(ZipOf(z)) == ZipOf(Do(z, Arrow(false, ToRight)))
    ensures DeleteAhead(ZipOf(z)) == ZipOf(Do(z, Delete))
  {
    if z.after.Cons? {
      var c, t := z.after.head, z.after.tail;
      WellFormedIsShaped(c);
      EndOfFirst(c, t, 1);
      assert (c + Ahead(t))[..|c|] == c && (c + Ahead(t))[|c|..] == Ahead(t);
    }
  }

  // ----- all the way

  lemma {:induction false} ShiftBytes(from: Chars, onto: Chars)
    ensures Ahead(Shift(from, onto)) == Behind(from) + Ahead(onto)
    ensures Behind(Shift(from, onto)) == Behind(onto) + Ahead(from)
    decreases from
  {
    match from
    case Nil =>
      assert [] + Ahead(onto) == Ahead(onto) && Behind(onto) + [] == Behind(onto);
    case Cons(c, t) =>
      ShiftBytes(t, Cons(c, onto));
      assert Behind(t) + (c + Ahead(onto)) == (Behind(t) + c) + Ahead(onto);
      assert (Behind(onto) + c) + Ahead(t) == Behind(onto) + (c + Ahead(t));
  }

  lemma {:induction false} ShiftFormed(from: Chars, onto: Chars)
    requires AllFormed(from) && AllFormed(onto)
    ensures AllFormed(Shift(from, onto))
    decreases from
  {
    if from.Cons? { ShiftFormed(from.tail, Cons(from.head, onto)); }
  }

  lemma {:induction false} GoFar(z: CharZip)
    requires Sound(z)
    ensures Home(ZipOf(z)) == ZipOf(Do(z, CtrlA))
    ensures End(ZipOf(z)) == ZipOf(Do(z, CtrlE))
  {
    ShiftBytes(z.before, z.after);
    ShiftBytes(z.after, z.before);
  }

  // ----- words

  /** A space is one byte, and no other character holds that byte. */
  lemma {:induction false} SpaceIsAlone(c: Char)
    requires WellFormed(c)
    ensures c != [32] ==> forall i :: 0 <= i < |c| ==> c[i] != 32
  {
    WellFormedIsShaped(c);
    if |c| == 1 { assert c == [c[0]]; }
  }

  /** `part` is a prefix of `whole`. */
  predicate Begins(part: seq<Byte>, whole: seq<Byte>) {
    |part| <= |whole| && whole[..|part|] == part
  }

  lemma {:induction false} SpacesBack(cs: Chars, rest: seq<Byte>)
    requires AllFormed(cs)
    ensures SpacesStart(Behind(cs) + rest, |Behind(cs)|) == |Behind(SkipSpaces(cs))|
    decreases cs
  {
    if cs.Cons? {
      var c, t := cs.head, Behind(cs.tail);
      var s := t + c + rest;
      WellFormedIsShaped(c);
      SpaceIsAlone(c);
      assert s[|t| + |c| - 1] == c[|c| - 1];
      if c == [32] {
        SpacesBack(cs.tail, c + rest);
        assert s == t + (c + rest);
      }
    }
  }

  lemma {:induction false} SkipsKeep(cs: Chars)
    requires AllFormed(cs)
    ensures Begins(Behind(SkipSpaces(cs)), Behind(cs)) && AllFormed(SkipSpaces(cs))
    ensures Begins(Behind(SkipWord(cs)), Behind(cs)) && AllFormed(SkipWord(cs))
    decreases cs
  {
    if cs.Cons? { SkipsKeep(cs.tail); }
  }

  lemma {:induction false} InsideWord(s: seq<Byte>, at: nat, n: nat)
    requires at + n <= |s| && forall j :: at <= j < at + n ==> s[j] != 32
    ensures WordStart(s, at + n) == WordStart(s, at)
    decreases n
  {
    if n > 0 { InsideWord(s, at, n - 1); }
  }

  lemma {:induction false} WordBack(cs: Chars, rest: seq<Byte>)
    requires AllFormed(cs)
    ensures WordStart(Behind(cs) + rest, |Behind(cs)|) == |Behind(SkipWord(cs))|
    decreases cs
  {
    if cs.Cons? {
      var c, t := cs.head, Behind(cs.tail);
      var s := t + c + rest;
      if c == [32] {
        assert s[|t|] == 32;
      } else {
        SpaceIsAlone(c);
        WordBack(cs.tail, c + rest);
        assert s == t + (c + rest);
        InsideWord(s, |t|, |c|);
      }
    }
  }

  lemma {:induction false} EraseOneWord(z: CharZip)
    requires Sound(z)
    ensures DeleteWord(ZipOf(z)) == ZipOf(Do(z, CtrlW))
    ensures AllFormed(SkipWord(SkipSpaces(z.before)))
  {
    var b, m := z.before, SkipSpaces(z.before);
    SkipsKeep(b);
    SkipsKeep(m);
    WordStartIs(Behind(b), b);
    PrefixOfPrefix(Behind(SkipWord(m)), Behind(m), Behind(b));
  }

  lemma {:induction false} WordStartIs(s: seq<Byte>, b: Chars)
    requires AllFormed(b) && s == Behind(b)
    ensures WordStart(s, SpacesStart(s, |s|)) == |Behind(SkipWord(SkipSpaces(b)))|
  {
    var m := SkipSpaces(b);
    SpacesBack(b, []);
    assert Behind(b) + [] == s;
    SkipsKeep(b);
    WordBack(m, s[|Behind(m)|..]);
    assert s == Behind(m) + s[|Behind(m)|..];
  }

  lemma {:induction false} PrefixOfPrefix(a: seq<Byte>, b: seq<Byte>, c: seq<Byte>)
    requires Begins(a, b) && Begins(b, c)
    ensures Begins(a, c)
  {
    assert c[..|a|] == c[..|b|][..|a|];
  }

  // ----- one key

  lemma {:induction false} DoIsSound(z: CharZip, k: Key)
    requires Sound(z) && Fits(z, k)
    ensures Sound(Do(z, k))
  {
    match k
    case Arrow(_, ToHome) => ShiftBytes(z.before, z.after); ShiftFormed(z.before, z.after);
    case Arrow(_, ToEnd) => ShiftBytes(z.after, z.before); ShiftFormed(z.after, z.before);
    case CtrlA => ShiftBytes(z.before, z.after); ShiftFormed(z.before, z.after);
    case CtrlE => ShiftBytes(z.after, z.before); ShiftFormed(z.after, z.before);
    case CtrlW => EraseOneWord(z);
    case _ =>
  }

  lemma {:induction false} EmptyLine(z: CharZip)
    requires Sound(z)
    ensures ZipOf(z).Size() == Length(z)
    ensures Length(z) == 0 <==> z == CharZip(Nil, Nil)
  {
    if z.before.Cons? { WellFormedIsShaped(z.before.head); }
    if z.after.Cons? { WellFormedIsShaped(z.after.head); }
  }

  predicate IsControl(k: Key) {
    !k.Typed? && !k.Arrow? && !k.Delete? && !k.Foreign?
  }

  lemma {:induction false} ControlIsItsByte(z: CharZip, k: Key, input: seq<Byte>)
    requires Sound(z) && IsControl(k) && !(k == CtrlD && z == CharZip(Nil, Nil))
    requires input != [] && input[0] == Sent(k)[0]
    ensures Press(ZipOf(z), input) == Turn(ZipOf(Do(z, k)), 1, Open)
  {
    var b := ZipOf(z);
    if k.Backspace? {
      OneBack(z);
      assert Press(b, input) == Turn(DeleteBehind(b), 1, Open);
    } else if k.CtrlD? {
      EmptyLine(z);
      OneAhead(z);
      assert Press(b, input) == Turn(DeleteAhead(b), 1, Open);
    } else if k.CtrlW? {
      EraseOneWord(z);
      assert Press(b, input) == Turn(DeleteWord(b), 1, Open);
    } else if k.CtrlA? || k.CtrlE? {
      GoFar(z);
    }
  }

  function ArrowByte(to: Direction): Byte {
    match to case ToLeft => 68 case ToRight => 67 case ToHome => 72 case ToEnd => 70
  }

  /** The escape sequence of an arrow, on bytes. */
  lemma {:induction false} ArrowTurn(b: Zip, to: Direction, input: seq<Byte>)
    requires |input| >= 3 && input[0] == 27 && (input[1] == 79 || input[1] == 91) && input[2] == ArrowByte(to)
    ensures Press(b, input) == Turn(match to case ToLeft => Left(b) case ToRight => Right(b) case ToHome => Home(b) case ToEnd => End(b), 3, Open)
  {
    assert Press(b, input) == Escape(b, input);
  }

  lemma {:induction false} ArrowOnChars(z: CharZip, app: bool, to: Direction)
    requires Sound(z)
    ensures var b := ZipOf(z);
            (match to case ToLeft => Left(b) case ToRight => Right(b) case ToHome => Home(b) case ToEnd => End(b))
            == ZipOf(Do(z, Arrow(app, to)))
  {
    match to
    case ToRight => OneAhead(z);
    case ToLeft => OneBack(z);
    case ToHome => GoFar(z);
    case ToEnd => GoFar(z);
  }

  lemma {:induction false} ArrowIsItsBytes(z: CharZip, k: Key, input: seq<Byte>)
    requires Sound(z) && k.Arrow? && |input| >= 3
    requires input[0] == Sent(k)[0] && input[1] == Sent(k)[1] && input[2] == Sent(k)[2]
    ensures Press(ZipOf(z), input) == Turn(ZipOf(Do(z, k)), 3, Open)
  {
    ArrowTurn(ZipOf(z), k.to, input);
    ArrowOnChars(z, k.app, k.to);
  }

  lemma {:induction false} DeleteIsItsBytes(z: CharZip, input: seq<Byte>)
    requires Sound(z) && |input| >= 4
    requires input[0] == 27 && input[1] == 91 && input[2] == 51 && input[3] == 126
    ensures Press(ZipOf(z), input) == Turn(ZipOf(Do(z, Delete)), 4, Open)
  {
    OneAhead(z);
  }

  /** Bytes without a meaning are read whole and change nothing. */
  lemma {:induction false} ForeignIsIgnored(z: Zip, bytes: seq<Byte>, input: seq<Byte>)
    requires Meaningless(bytes) && bytes <= input
    ensures Press(z, input) == Turn(z, |bytes|, Open)
  {
    assert input[0] == bytes[0];
    if |bytes| > 1 {
      assert Press(z, input) == Escape(z, input) by { assert bytes[0] == 27; }
      assert input[1] == bytes[1] && input[2] == bytes[2];
      if |bytes| == 4 {
        assert input[3] == bytes[3] && bytes[..3][1] == 91 && bytes[..3][2] == 51;
      }
    }
  }

  /** A key other than a typed character does to the bytes what it does to the characters. */
  lemma {:induction false} KeyIsItsBytes(z: CharZip, k: Key, input: seq<Byte>)
    requires Sound(z) && !k.Typed? && !(k == CtrlD && z == CharZip(Nil, Nil))
    requires Sent(k) <= input && (k.Foreign? ==> Meaningless(k.bytes))
    ensures Press(ZipOf(z), input) == Turn(ZipOf(Do(z, k)), |Sent(k)|, Open)
  {
    if k.Foreign? {
      ForeignIsIgnored(ZipOf(z), k.bytes, input);
      return;
    }
    assert input[0] == Sent(k)[0];
    if IsControl(k) {
      ControlIsItsByte(z, k, input);
    } else if k.Arrow? {
      assert input[1] == Sent(k)[1] && input[2] == Sent(k)[2];
      ArrowIsItsBytes(z, k, input);
    } else {
      assert input[1] == Sent(k)[1] && input[2] == Sent(k)[2] && input[3] == Sent(k)[3];
      DeleteIsItsBytes(z, input);
    }
  }

  /** A typed character that fits goes in whole. */
  lemma {:induction false} TypedIsItsBytes(z: CharZip, c: Char, input: seq<Byte>)
    requires Sound(z) && Typable(c) && c <= input && Length(z) + |c| < 512
    ensures Press(ZipOf(z), input) == Turn(ZipOf(Do(z, Typed(c))), |c|, Open)
  {
    WellFormedIsShaped(c);
    assert input[0] == c[0] && input[..|c|] == c;
  }

  /** A full line ignores a byte. */
  lemma {:induction false} FullLineIgnores(z: Zip, input: seq<Byte>)
    requires z.Size() == 511 && input != [] && input[0] >= 32 && input[0] != 127
    ensures Press(z, input) == Turn(z, 1, Open)
  {
  }

  // ----- and only those

  /** A line can be read as characters in one way only. */
  lemma {:induction false} SameStart(a: Chars, b: Chars, rest: seq<Byte>)
    requires AllFormed(a) && AllFormed(b) && |Ahead(a)| <= |Ahead(b)|
    requires Ahead(b) == Ahead(a) + rest
    ensures exists t :: AllFormed(t) && rest == Ahead(t)
    decreases a
  {
    if a.Nil? {
      assert Ahead(a) + rest == rest;
    } else {
      WellFormedIsShaped(a.head);
      assert Ahead(b)[0] == a.head[0];
      WellFormedIsShaped(b.head);
      var n := |a.head|;
      assert Ahead(b) == a.head + (Ahead(a.tail) + rest);
      assert Ahead(b)[n..] == Ahead(a.tail) + rest == Ahead(b.tail);
      SameStart(a.tail, b.tail, rest);
    }
  }

  /** Part of a character is not made of characters. */
  lemma {:induction false} PartIsNotWhole(c: Char, n: nat, cs: Chars)
    requires Shaped(c) && 0 < n < |c| && AllFormed(cs)
    ensures c[..n] != Ahead(cs)
  {
    if cs.Cons? {
      WellFormedIsShaped(cs.head);
      assert Ahead(cs)[0] == cs.head[0];
    }
  }

  ghost predicate IsWhole(z: Zip) {
    exists c :: Sound(c) && ZipOf(c) == z
  }

  /** The same characters, the first one first. */
  lemma {:induction false} ReadForward(cs: Chars) returns (f: Chars)
    requires AllFormed(cs)
    ensures AllFormed(f) && Ahead(f) == Behind(cs)
  {
    f := Shift(cs, Nil);
    ShiftBytes(cs, Nil);
    ShiftFormed(cs, Nil);
    assert Behind(cs) + Ahead(Nil) == Behind(cs);
  }

  lemma {:induction false} NoPartBehind(a: Chars, b: Chars, c: Char, n: nat)
    requires AllFormed(a) && AllFormed(b) && Shaped(c) && 0 < n < |c|
    ensures Behind(b) != Behind(a) + c[..n]
  {
    var front := ReadForward(a);
    var all := ReadForward(b);
    if Ahead(all) == Ahead(front) + c[..n] {
      SameStart(front, all, c[..n]);
      var t :| AllFormed(t) && c[..n] == Ahead(t);
      PartIsNotWhole(c, n, t);
    }
  }

  lemma {:induction false} TornIsNotWhole(z: CharZip, c: Char, n: nat)
    requires Sound(z) && Shaped(c) && 0 < n < |c|
    ensures !IsWhole(Zip(ZipOf(z).before + c[..n], ZipOf(z).after))
  {
    forall w | Sound(w)
      ensures ZipOf(w).before != ZipOf(z).before + c[..n]
    {
      NoPartBehind(z.before, w.before, c, n);
    }
  }
}
