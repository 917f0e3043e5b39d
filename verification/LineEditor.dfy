/** The in-place line editor: a fixed buffer with a length and a cursor, driven by a byte stream. */
module LineEditor {
  import opened Common
  import opened Utf8

  const MAX_LINE: int := 512

  const SPACE: Byte := 32
  const QUESTION: Byte := 63
  const ESC: Byte := 27
  const DEL: Byte := 127
  const CSI: Byte := 91   // '['
  const SS3: Byte := 79   // 'O'
  const TILDE: Byte := 126

  /** The bytes before the cursor and the bytes from the cursor on. */
  datatype Zip = Zip(before: seq<Byte>, after: seq<Byte>) {
    function Size(): nat {
      |before| + |after|
    }
  }

  // ----- scans

  /** The first byte of the character that byte `i` belongs to: back over continuation bytes. */
  function CharStart(s: seq<Byte>, i: nat): (k: nat)
    requires i < |s|
    ensures k <= i
  {
    if i > 0 && Cont(s[i]) then CharStart(s, i - 1) else i
  }

  function CharEnd(s: seq<Byte>, i: nat): (k: nat)
    requires i <= |s|
    ensures i <= k <= |s|
    decreases |s| - i
  {
    if i < |s| && Cont(s[i]) then CharEnd(s, i + 1) else i
  }

  function SpacesStart(s: seq<Byte>, i: nat): (k: nat)
    requires i <= |s|
    ensures k <= i
  {
    if i > 0 && s[i - 1] == SPACE then SpacesStart(s, i - 1) else i
  }

  function WordStart(s: seq<Byte>, i: nat): (k: nat)
    requires i <= |s|
    ensures k <= i
  {
    if i > 0 && s[i - 1] != SPACE then WordStart(s, i - 1) else i
  }

  // ----- one keystroke on the zipper

  function Left(z: Zip): (r: Zip)
    ensures r.Size() == z.Size()
  {
    if z.before == [] then z
    else
      var k := CharStart(z.before, |z.before| - 1);
      Zip(z.before[..k], z.before[k..] + z.after)
  }

  function Right(z: Zip): (r: Zip)
    ensures r.Size() == z.Size()
  {
    if z.after == [] then z
    else
      var k := CharEnd(z.after, 1);
      Zip(z.before + z.after[..k], z.after[k..])
  }

  function DeleteAhead(z: Zip): (r: Zip)
    ensures r.Size() <= z.Size()
  {
    if z.after == [] then z else Zip(z.before, z.after[CharEnd(z.after, 1)..])
  }

  function DeleteBehind(z: Zip): (r: Zip)
    ensures r.Size() <= z.Size()
  {
    if z.before == [] then z else Zip(z.before[..CharStart(z.before, |z.before| - 1)], z.after)
  }

  function DeleteWord(z: Zip): (r: Zip)
    ensures r.Size() <= z.Size()
  {
    Zip(z.before[..WordStart(z.before, SpacesStart(z.before, |z.before|))], z.after)
  }

  /** Moving the cursor leaves the line alone. */
  lemma {:induction false} MovesKeepTheLine(z: Zip)
    ensures Left(z).before + Left(z).after == z.before + z.after
    ensures Right(z).before + Right(z).after == z.before + z.after
  {
    if z.before != [] {
      var k := CharStart(z.before, |z.before| - 1);
      assert z.before[..k] + (z.before[k..] + z.after) == z.before + z.after;
    }
    if z.after != [] {
      var k := CharEnd(z.after, 1);
      assert (z.before + z.after[..k]) + z.after[k..] == z.before + z.after;
    }
  }

  function Home(z: Zip): Zip {
    Zip([], z.before + z.after)
  }

  function End(z: Zip): Zip {
    Zip(z.before + z.after, [])
  }

  // ----- one turn of the reading loop

  datatype Ending = Open | Entered | Cancelled | Eof | Recall

  /** The line after a turn, the bytes it read, and whether editing goes on (`Open`). `Recall` says
      that the key was Tab or a history arrow, which put another line in its place. */
  datatype Turn = Turn(z: Zip, used: nat, ending: Ending)

  function Min(a: int, b: int): int {
    if a < b then a else b
  }

  function Press(z: Zip, input: seq<Byte>): (t: Turn)
    requires input != []
    ensures 0 < t.used <= |input|
    ensures z.Size() < MAX_LINE ==> t.z.Size() < MAX_LINE
  {
    var c := input[0];
    if c == 13 || c == 10 then Turn(z, 1, Entered)
    else if c == 3 then Turn(Zip([], []), 1, Cancelled)
    else if c == 1 then Turn(Home(z), 1, Open)
    else if c == 4 then if z.Size() == 0 then Turn(z, 1, Eof) else Turn(DeleteAhead(z), 1, Open)
    else if c == 5 then Turn(End(z), 1, Open)
    else if c == 21 then Turn(Zip([], []), 1, Open)
    else if c == 23 then Turn(DeleteWord(z), 1, Open)
    else if c == ESC then Escape(z, input)
    else if c == DEL || c == 8 then Turn(DeleteBehind(z), 1, Open)
    else if c == 9 then Turn(z, 1, Recall)
    else if c == QUESTION || c < 32 || z.Size() >= MAX_LINE - 1 then Turn(z, 1, Open)
    else
      var got := Min(Min(ByteCount(c), |input|), MAX_LINE - 1 - z.Size());
      Turn(Zip(z.before + input[..got], z.after), got, Open)
  }

  function Escape(z: Zip, input: seq<Byte>): (t: Turn)
    requires input != []
    ensures 0 < t.used <= |input|
    ensures z.Size() < MAX_LINE ==> t.z.Size() < MAX_LINE
  {
    if |input| < 3 then Turn(z, |input|, Open)
    else if input[1] != CSI && input[1] != SS3 then Turn(z, 3, Open)
    else if input[2] == 65 || input[2] == 66 then Turn(z, 3, Recall)
    else if input[2] == 67 then Turn(Right(z), 3, Open)
    else if input[2] == 68 then Turn(Left(z), 3, Open)
    else if input[2] == 72 then Turn(Home(z), 3, Open)
    else if input[2] == 70 then Turn(End(z), 3, Open)
    else if input[1] == CSI && input[2] == 51 && |input| > 3 then
      Turn(if input[3] == TILDE then DeleteAhead(z) else z, 4, Open)
    else Turn(z, 3, Open)
  }

  lemma {:induction false} Terminated(t: seq<Byte>, text: seq<Byte>)
    requires t == text + [0]
    ensures t[..|text|] == text && t[|text|] == 0
  {
  }

  lemma {:induction false} Inserted(was: seq<Byte>, mid: seq<Byte>, now: seq<Byte>, at: nat, ins: seq<Byte>, tail: seq<Byte>)
    requires |was| == |mid| == |now| && at + |ins| + |tail| <= |now|
    requires mid[..at + |ins|] == was[..at + |ins|] && mid[at + |ins|..at + |ins| + |tail|] == tail
    requires now[..at] == mid[..at] && now[at..at + |ins|] == ins && now[at + |ins|..] == mid[at + |ins|..]
    ensures now[..at + |ins|] == was[..at] + ins && now[at + |ins|..at + |ins| + |tail|] == tail
  {
    var n := at + |ins|;
    assert was[..at] == was[..n][..at] && mid[..at] == mid[..n][..at];
    assert now[..n] == now[..at] + now[at..n];
    assert now[n..n + |tail|] == now[n..][..|tail|] && mid[n..n + |tail|] == mid[n..][..|tail|];
  }

  // ----- the buffer

  class Line {
    const buf: array<Byte>
    var pos: nat
    var cursor: nat

    ghost predicate Valid()
      reads this, buf
    {
      buf.Length == MAX_LINE && cursor <= pos < MAX_LINE && buf[pos] == 0
    }

    ghost function Value(): (z: Zip)
      requires Valid()
      reads this, buf
      ensures z.Size() == pos
    {
      Zip(buf[..cursor], buf[cursor..pos])
    }

    constructor ()
      ensures Valid() && Value() == Zip([], []) && fresh(buf)
    {
      buf := new Byte[MAX_LINE](_ => 0);
      pos, cursor := 0, 0;
    }

    /** Copies bytes into the buffer. */
    method Write(at: nat, bytes: seq<Byte>)
      requires at + |bytes| <= buf.Length
      modifies buf
      ensures buf[..at] == old(buf[..at]) && buf[at..at + |bytes|] == bytes
      ensures buf[at + |bytes|..] == old(buf[at + |bytes|..])
    {
      forall k | 0 <= k < |bytes| {
        buf[at + k] := bytes[k];
      }
    }

    /** Moves the tail at `to`, with its terminator, down to `from`. */
    method CutOut(from: nat, to: nat)
      requires Valid() && from <= to <= pos && (cursor == from || cursor == to)
      modifies this, buf
      ensures Valid() && cursor == from && pos == old(pos) - (to - from)
      ensures buf[..from] == old(buf[..from]) && buf[from..pos] == old(buf[to..pos])
    {
      var tail := buf[to..pos + 1];
      Write(from, tail);
      assert buf[from..from + |tail|][|tail| - 1] == 0;
      pos := pos - (to - from);
      cursor := from;
      assert buf[from..pos] == tail[..|tail| - 1];
    }

    /** The position behind the character at the cursor. */
    method AfterChar() returns (next: nat)
      requires Valid() && cursor < pos
      ensures cursor < next <= pos && next - cursor == CharEnd(Value().after, 1)
    {
      ghost var after := Value().after;
      next := cursor + 1;
      while next < pos && Cont(buf[next])
        invariant cursor < next <= pos
        invariant CharEnd(after, next - cursor) == CharEnd(after, 1)
      {
        assert after[next - cursor] == buf[next];
        next := next + 1;
      }
    }

    /** The position of the character before the cursor. */
    method BeforeChar() returns (prev: nat)
      requires Valid() && cursor > 0
      ensures prev < cursor && prev == CharStart(Value().before, cursor - 1)
    {
      ghost var before := Value().before;
      prev := cursor - 1;
      while prev > 0 && Cont(buf[prev])
        invariant prev < cursor
        invariant CharStart(before, prev) == CharStart(before, cursor - 1)
      {
        assert before[prev] == buf[prev];
        prev := prev - 1;
      }
    }

    method MoveLeft()
      requires Valid()
      modifies this
      ensures Valid() && Value() == Left(old(Value()))
    {
      if cursor > 0 {
        ghost var z := Value();
        var prev := BeforeChar();
        assert buf[..prev] == z.before[..prev];
        assert buf[prev..pos] == z.before[prev..] + z.after;
        cursor := prev;
      }
    }

    method MoveRight()
      requires Valid()
      modifies this
      ensures Valid() && Value() == Right(old(Value()))
    {
      if cursor < pos {
        ghost var z := Value();
        var next := AfterChar();
        assert buf[..next] == z.before + z.after[..next - cursor];
        assert buf[next..pos] == z.after[next - cursor..];
        cursor := next;
      }
    }

    method DeleteNext()
      requires Valid()
      modifies this, buf
      ensures Valid() && Value() == DeleteAhead(old(Value()))
    {
      if cursor < pos {
        ghost var z := Value();
        var next := AfterChar();
        assert buf[next..pos] == z.after[next - cursor..];
        CutOut(cursor, next);
      }
    }

    method Backspace()
      requires Valid()
      modifies this, buf
      ensures Valid() && Value() == DeleteBehind(old(Value()))
    {
      if cursor > 0 {
        ghost var z := Value();
        var prev := BeforeChar();
        assert buf[..prev] == z.before[..prev];
        CutOut(prev, cursor);
      }
    }

    method EraseWord()
      requires Valid()
      modifies this, buf
      ensures Valid() && Value() == DeleteWord(old(Value()))
    {
      if cursor > 0 {
        ghost var z := Value();
        var start := cursor;
        while start > 0 && buf[start - 1] == SPACE
          invariant 0 <= start <= cursor
          invariant SpacesStart(z.before, start) == SpacesStart(z.before, |z.before|)
        {
          start := start - 1;
        }
        while start > 0 && buf[start - 1] != SPACE
          invariant 0 <= start <= cursor
          invariant WordStart(z.before, start) == WordStart(z.before, SpacesStart(z.before, |z.before|))
        {
          start := start - 1;
        }
        assert buf[..start] == z.before[..start];
        CutOut(start, cursor);
      }
    }

    /** Puts another text in the line, the cursor behind it. */
    method Show(text: seq<Byte>)
      requires Valid() && |text| < MAX_LINE
      modifies this, buf
      ensures Valid() && Value() == Zip(text, [])
    {
      Write(0, text);
      assert buf[0..|text|] == buf[..|text|];
      pos, cursor := |text|, |text|;
      ghost var shown := buf[..|text|];
      buf[pos] := 0;
      assert buf[..cursor] == shown;
    }

    method Clear()
      requires Valid()
      modifies this, buf
      ensures Valid() && Value() == Zip([], [])
    {
      buf[0] := 0;
      pos, cursor := 0, 0;
    }

    /** Moves the tail, with its terminator, up, and copies the bytes into the gap. */
    method Insert(ins: seq<Byte>)
      requires Valid() && pos + |ins| < MAX_LINE
      modifies this, buf
      ensures Valid() && Value() == Zip(old(Value()).before + ins, old(Value()).after)
    {
      ghost var z := Value();
      var tail := buf[cursor..pos + 1];
      assert tail == z.after + [0];
      Splice(cursor, ins, tail);
      pos, cursor := pos + |ins|, cursor + |ins|;
      Terminated(buf[cursor..pos + 1], z.after);
      assert buf[cursor..pos] == buf[cursor..pos + 1][..|z.after|] && buf[pos] == buf[cursor..pos + 1][|z.after|];
    }

    /** Two copies: the tail to its new place, then the bytes into the gap. */
    method Splice(at: nat, ins: seq<Byte>, tail: seq<Byte>)
      requires at + |ins| + |tail| <= buf.Length
      modifies buf
      ensures buf[..at + |ins|] == old(buf[..at]) + ins && buf[at + |ins|..at + |ins| + |tail|] == tail
    {
      var n := at + |ins|;
      ghost var was := buf[..];
      Write(n, tail);
      ghost var mid := buf[..];
      Write(at, ins);
      ghost var now := buf[..];
      assert mid[..n] == was[..n] && mid[n..n + |tail|] == tail;
      assert now[..at] == mid[..at] && now[at..n] == ins && now[n..] == mid[n..];
      Inserted(was, mid, now, at, ins, tail);
      assert buf[..n] == now[..n] && buf[n..n + |tail|] == now[n..n + |tail|];
    }

    /** The bytes of one typed character, as far as there is input and room for them. */
    method ReadChar(input: seq<Byte>) returns (got: nat)
      requires Valid() && input != [] && pos < MAX_LINE - 1
      ensures got == Min(Min(ByteCount(input[0]), |input|), MAX_LINE - 1 - pos)
    {
      var bytes := ByteCount(input[0]);
      got := 1;
      while got < bytes && pos + got < MAX_LINE - 1
        invariant 1 <= got <= |input| && got <= bytes && pos + got <= MAX_LINE - 1
      {
        if got == |input| { break; }
        got := got + 1;
      }
    }

    method ReadKey(input: seq<Byte>) returns (used: nat, ending: Ending)
      requires Valid() && input != []
      modifies this, buf
      ensures Valid() && Turn(Value(), used, ending) == Press(old(Value()), input)
    {
      var c := input[0];
      used, ending := 1, Open;
      if c == 13 || c == 10 {
        ending := Entered;
      } else if c == 3 {
        Clear();
        ending := Cancelled;
      } else if c == 1 {
        GoHome();
      } else if c == 4 {
        if pos == 0 { ending := Eof; } else { DeleteNext(); }
      } else if c == 5 {
        GoEnd();
      } else if c == 21 {
        Clear();
      } else if c == 23 {
        EraseWord();
      } else if c == ESC {
        used, ending := EscapeKey(input);
      } else if c == DEL || c == 8 {
        Backspace();
      } else if c == 9 {
        ending := Recall;
      } else if c != QUESTION && c >= 32 && pos < MAX_LINE - 1 {
        used := ReadChar(input);
        Insert(input[..used]);
      }
    }

    method GoHome()
      requires Valid()
      modifies this
      ensures Valid() && Value() == Home(old(Value()))
    {
      if cursor > 0 { cursor := 0; }
    }

    method GoEnd()
      requires Valid()
      modifies this
      ensures Valid() && Value() == End(old(Value()))
    {
      if cursor < pos { cursor := pos; }
    }

    method EscapeKey(input: seq<Byte>) returns (used: nat, ending: Ending)
      requires Valid() && input != []
      modifies this, buf
      ensures Valid() && Turn(Value(), used, ending) == Escape(old(Value()), input)
    {
      ending := Open;
      if |input| < 3 { return |input|, Open; }
      used := 3;
      if input[1] == CSI || input[1] == SS3 {
        if input[2] == 65 || input[2] == 66 {
          ending := Recall;
        } else if input[2] == 67 {
          MoveRight();
        } else if input[2] == 68 {
          MoveLeft();
        } else if input[2] == 72 {
          GoHome();
        } else if input[2] == 70 {
          GoEnd();
        } else if input[1] == CSI && input[2] == 51 && |input| > 3 {
          used := 4;
          if input[3] == TILDE { DeleteNext(); }
        }
      }
    }
  }
}
