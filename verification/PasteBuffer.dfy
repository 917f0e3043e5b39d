/** Serving pasted lines: bytes are drained from the terminal in arbitrary pieces into a
    buffer, and lines are taken from it one at a time. */
module PasteBuffer {
  import opened Common

  const MAX_LINE: int := 512
  const BUF_SIZE: int := 4096

  predicate IsEol(b: Byte) {
    b == 10 || b == 13
  }

  predicate IsBlank(b: Byte) {
    b == 32 || b == 9
  }

  // ----- the specification: the lines of a stream

  ghost function Strip(s: Bytes): Bytes {
    if s == [] || !IsBlank(s[0]) then s else Strip(s[1..])
  }

  function Cut(s: Bytes): Bytes {
    if |s| >= MAX_LINE then s[..MAX_LINE - 1] else s
  }

  /** The line made of a stretch of text: none if blank, else stripped and cut. */
  ghost function LineOf(raw: Bytes): seq<Bytes> {
    if Strip(raw) == [] then [] else [Cut(Strip(raw))]
  }

  /** The complete lines of a stream, `cur` being the text of the line it starts in. */
  ghost function LinesFrom(cur: Bytes, s: Bytes): seq<Bytes>
    decreases |s|
  {
    if s == [] then []
    else if IsEol(s[0]) then LineOf(cur) + LinesFrom([], s[1..])
    else LinesFrom(cur + [s[0]], s[1..])
  }

  /** The text of the unfinished line at the end of a stream. */
  ghost function Unfinished(cur: Bytes, s: Bytes): Bytes
    decreases |s|
  {
    if s == [] then cur else if IsEol(s[0]) then Unfinished([], s[1..]) else Unfinished(cur + [s[0]], s[1..])
  }

  ghost predicate NoEol(s: Bytes) {
    forall i :: 0 <= i < |s| ==> !IsEol(s[i])
  }

  ghost function Lines(s: Bytes): seq<Bytes> {
    LinesFrom([], s)
  }

  /** A stretch of stream that ends on a line end (or is empty). */
  ghost predicate AtBoundary(s: Bytes) {
    Unfinished([], s) == []
  }

  // ----- what the specification allows

  /** Lines of a concatenation: the unfinished line carries over. */
  lemma {:induction false} LinesFromSplit(cur: Bytes, a: Bytes, b: Bytes)
    ensures LinesFrom(cur, a + b) == LinesFrom(cur, a) + LinesFrom(Unfinished(cur, a), b)
    ensures Unfinished(cur, a + b) == Unfinished(Unfinished(cur, a), b)
    decreases |a|
  {
    if a == [] {
      assert a + b == b;
    } else {
      var cur' := if IsEol(a[0]) then [] else cur + [a[0]];
      assert (a + b)[1..] == a[1..] + b;
      LinesFromSplit(cur', a[1..], b);
    }
  }

  lemma {:induction false} LinesSplit(a: Bytes, b: Bytes)
    requires AtBoundary(a)
    ensures Lines(a + b) == Lines(a) + Lines(b) && (AtBoundary(b) ==> AtBoundary(a + b))
  {
    LinesFromSplit([], a, b);
  }

  /** Text without a line end holds no complete line. */
  lemma {:induction false} PlainText(cur: Bytes, s: Bytes)
    requires NoEol(s)
    ensures LinesFrom(cur, s) == [] && Unfinished(cur, s) == cur + s
    decreases |s|
  {
    if s != [] {
      PlainText(cur + [s[0]], s[1..]);
      assert (cur + [s[0]]) + s[1..] == cur + s;
    }
  }

  /** One stretch of text and its line end, a CR-LF pair counting as one. */
  lemma {:induction false} OneLine(raw: Bytes, end: Bytes)
    requires NoEol(raw)
    requires end in {[10], [13], [13, 10]}
    ensures Lines(raw + end) == LineOf(raw) && AtBoundary(raw + end)
  {
    PlainText([], raw);
    assert [] + raw == raw;
    LinesFromSplit([], raw, end);
    EndOfLine(raw, end);
  }

  lemma {:induction false} EndOfLine(cur: Bytes, end: Bytes)
    requires end in {[10], [13], [13, 10]}
    ensures LinesFrom(cur, end) == LineOf(cur) && Unfinished(cur, end) == []
  {
    var rest := end[1..];
    assert rest == [] || rest == [10];
    if rest == [10] {
      assert rest[1..] == [];
    }
    assert LineOf([]) == [];
  }

  lemma {:induction false} StripIs(s: Bytes, k: nat)
    requires k <= |s| && (k < |s| ==> !IsBlank(s[k])) && forall i :: 0 <= i < k ==> IsBlank(s[i])
    ensures Strip(s) == s[k..]
    decreases |s|
  {
    if k > 0 {
      StripIs(s[1..], k - 1);
    }
  }

  lemma Cuts(s: Bytes, i: nat, j: nat, k: nat, l: nat)
    requires i <= j <= k <= l <= |s|
    ensures s[i..l] == (s[i..j] + s[j..k]) + s[k..l]
  {
  }

  lemma {:induction false} TakeMore(before: Bytes, input: Bytes, taken: nat, n: nat)
    requires taken + n <= |input|
    ensures (before + input[..taken]) + input[taken..taken + n] == before + input[..taken + n]
  {
    assert input[..taken] + input[taken..taken + n] == input[..taken + n];
    Regroup(before, input[..taken], input[taken..taken + n]);
  }

  class Paste {
    const buf: array<Byte>
    var pos: int
    var len: int
    ghost var drained: Bytes       // every byte ever taken from the terminal
    ghost var served: seq<Bytes>   // every line handed out
    ghost var consumed: Bytes      // the part of `drained` behind `pos`

    ghost predicate Valid()
      reads this, buf
    {
      && buf.Length == BUF_SIZE && 0 <= pos <= len <= BUF_SIZE
      && drained == consumed + buf[pos..len]
      && AtBoundary(consumed) && served == Lines(consumed)
    }

    /** The bytes still waiting. */
    ghost function Pending(): Bytes
      requires 0 <= pos <= len <= buf.Length
      reads this, buf
    {
      buf[pos..len]
    }

    constructor ()
      ensures Valid() && fresh(buf) && drained == [] && served == []
    {
      buf := new Byte[BUF_SIZE];
      pos, len := 0, 0;
      drained, served, consumed := [], [], [];
    }

    /** Shift the unread bytes to the front of the buffer. */
    method Compact()
      requires Valid()
      modifies this`pos, this`len, buf
      ensures Valid() && pos == 0 && len == |old(Pending())| && Pending() == old(Pending())
    {
      if 0 < pos < len {
        ghost var was := buf[pos..len];
        forall k | 0 <= k < len - pos {
          buf[k] := buf[pos + k];
        }
        len := len - pos;
        pos := 0;
        assert buf[pos..len] == was;
      } else if pos >= len {
        len, pos := 0, 0;
      }
    }

    /** Take what the terminal has, read by read; `sizes` is what the reads return, a zero
        ending the drain. Returns how many bytes of `input` were taken. */
    method Drain(input: Bytes, sizes: seq<nat>) returns (taken: nat)
      requires Valid()
      modifies this, buf
      ensures Valid() && taken <= |input|
      ensures served == old(served) && drained == old(drained) + input[..taken]
      ensures Pending() == old(Pending()) + input[..taken]
      ensures |sizes| >= |input| && (forall k :: 0 <= k < |sizes| ==> sizes[k] > 0) ==>
                taken == |input| || |Pending()| == 4096
    {
      Compact();
      ghost var before := Pending();
      assert buf[..len] == before;
      taken := ReadAll(input, sizes);
      Regroup(consumed, before, input[..taken]);
      drained := drained + input[..taken];
      assert buf[pos..len] == buf[..len];
    }

    /** Read until the buffer is full, nothing is left, or a read fails. */
    method ReadAll(input: Bytes, sizes: seq<nat>) returns (taken: nat)
      requires buf.Length == BUF_SIZE && pos == 0 && 0 <= len <= BUF_SIZE
      modifies this`len, buf
      ensures 0 <= len <= BUF_SIZE && taken <= |input| && buf[..len] == old(buf[..len]) + input[..taken]
      ensures |sizes| >= |input| && (forall k :: 0 <= k < |sizes| ==> sizes[k] > 0) ==> taken == |input| || len == BUF_SIZE
    {
      ghost var before := buf[..len];
      taken := 0;
      var k := 0;
      while len < BUF_SIZE && k < |sizes|
        invariant 0 <= len <= BUF_SIZE && 0 <= k <= |sizes| && k <= taken <= |input|
        invariant buf[..len] == before + input[..taken]
      {
        var n := ReadSome(input, taken, sizes[k]);
        if n <= 0 { break; }
        TakeMore(before, input, taken, n);
        taken, k := taken + n, k + 1;
      }
    }

    /** One read: up to `size` bytes, as many as there are and fit. */
    method ReadSome(input: Bytes, taken: nat, size: nat) returns (n: nat)
      requires buf.Length == BUF_SIZE && pos == 0 && 0 <= len < BUF_SIZE && taken <= |input|
      modifies this`len, buf
      ensures taken + n <= |input| && len == old(len) + n <= BUF_SIZE
      ensures n == 0 <==> size == 0 || taken == |input|
      ensures buf[..len] == old(buf[..len]) + input[taken..taken + n]
    {
      n := size;
      if n > BUF_SIZE - len { n := BUF_SIZE - len; }
      if n > |input| - taken { n := |input| - taken; }
      Fill(input[taken..taken + n]);
    }

    method Fill(bytes: Bytes)
      requires buf.Length == BUF_SIZE && pos == 0 && 0 <= len <= len + |bytes| <= BUF_SIZE
      modifies this`len, buf
      ensures len == old(len) + |bytes| && buf[..len] == old(buf[..len]) + bytes
    {
      forall k | 0 <= k < |bytes| {
        buf[len + k] := bytes[k];
      }
      len := len + |bytes|;
    }

    /** Index of the next CR or LF, or -1. */
    method FindEol() returns (eol: int)
      requires 0 <= pos <= len <= buf.Length
      ensures eol == -1 ==> forall i :: pos <= i < len ==> !IsEol(buf[i])
      ensures eol != -1 ==> pos <= eol < len && IsEol(buf[eol]) && forall i :: pos <= i < eol ==> !IsEol(buf[i])
    {
      var i := pos;
      while i < len
        invariant pos <= i <= len && forall j :: pos <= j < i ==> !IsEol(buf[j])
      {
        if IsEol(buf[i]) { return i; }
        i := i + 1;
      }
      return -1;
    }

    method SkipBlanks(start0: int, eol: int) returns (start: int)
      requires 0 <= start0 <= eol <= buf.Length
      ensures start0 <= start <= eol && Strip(buf[start0..eol]) == buf[start..eol]
    {
      start := start0;
      while start < eol && IsBlank(buf[start])
        invariant start0 <= start <= eol && forall i :: start0 <= i < start ==> IsBlank(buf[i])
      {
        start := start + 1;
      }
      StripIs(buf[start0..eol], start - start0);
      assert buf[start0..eol][start - start0..] == buf[start..eol];
    }

    /** Step over the text up to `eol` and its line end, a CR-LF pair counting as one. */
    method StepOver(eol: int)
      requires Valid() && pos <= eol < len && IsEol(buf[eol]) && forall i :: pos <= i < eol ==> !IsEol(buf[i])
      modifies this`pos, this`consumed, this`served
      ensures Valid() && old(pos) < pos
      ensures served == old(served) + LineOf(buf[old(pos)..eol])
    {
      ghost var start := pos;
      pos := eol + 1;
      if pos < len && buf[eol] == 13 && buf[pos] == 10 { pos := pos + 1; }
      ghost var raw, end := buf[start..eol], buf[eol..pos];
      assert end == if pos == eol + 2 then [13, 10] else [buf[eol]];
      OneLine(raw, end);
      LinesSplit(consumed, raw + end);
      Cuts(buf[..], start, eol, pos, len);
      Regroup(consumed, raw + end, Pending());
      consumed := consumed + (raw + end);
      served := Lines(consumed);
    }

    /** Pull the next line. A line comes out exactly when some complete line of the whole
        stream has not been served yet, and then it is the next one. */
    method ExtractLine() returns (got: bool, line: Bytes)
      requires Valid()
      modifies this`pos, this`consumed, this`served
      ensures Valid() && got == (|old(served)| < |Lines(drained)|)
      ensures got ==> line == Lines(drained)[|old(served)|] && served == old(served) + [line]
      ensures !got ==> served == old(served) == Lines(drained) && NoEol(Pending())
    {
      line := [];
      while pos < len
        invariant Valid() && served == old(served)
        decreases len - pos
      {
        var start := pos;
        var eol := FindEol();
        if eol < 0 { break; }
        StepOver(eol);
        start := SkipBlanks(start, eol);
        if eol - start > 0 {
          line := Cut(buf[start..eol]);
          LinesSplit(consumed, Pending());
          return true, line;
        }
      }
      PlainText([], Pending());
      LinesSplit(consumed, Pending());
      return false, [];
    }

    /** The start of a read without a complete line: the unfinished one leaves the buffer. It goes to
        the edit line, stripped, if its raw length is below 511, and is dropped otherwise. */
    method TakeFragment() returns (seed: Bytes)
      requires Valid() && served == Lines(drained)
      modifies this`pos, this`len, this`drained
      ensures Valid() && Pending() == [] && served == old(served) == Lines(drained)
      ensures old(drained) == drained + old(Pending())
      ensures seed == Seed(old(Pending()))
    {
      seed := [];
      if pos < len {
        if len - pos < MAX_LINE - 1 {
          var s := SkipBlanks(pos, len);
          seed := buf[s..len];
        }
        pos, len := 0, 0;
      }
      drained := consumed;
      assert consumed + [] == consumed;
    }

    /** One batch, as the reading loop serves it: a drain into the empty buffer, then a line a call
        until there is none, then the fragment. The buffer is empty again before the next drain. */
    method ServeBatch(input: Bytes, sizes: seq<nat>) returns (lines: seq<Bytes>, seed: Bytes, taken: nat)
      requires Valid() && Pending() == [] && served == Lines(drained)
      modifies this, buf
      ensures Valid() && Pending() == [] && served == Lines(drained) && taken <= |input|
      ensures lines == Lines(input[..taken]) && seed == Seed(Unfinished([], input[..taken]))
    {
      ghost var before, start := drained, served;
      assert consumed + [] == consumed == before;
      taken := Drain(input, sizes);
      LinesFromSplit([], before, input[..taken]);
      lines := [];
      var more, line := true, [];
      while more
        invariant Valid() && served == start + lines && drained == before + input[..taken]
        invariant !more ==> served == Lines(drained) && NoEol(Pending())
        decreases |Lines(drained)| - |served|, more
      {
        more, line := ExtractLine();
        if more { lines := lines + [line]; }
      }
      WaitingIsUnfinished(consumed, Pending());
      SameBehind(start, lines, Lines(input[..taken]));
      seed := TakeFragment();
    }
  }

  /** What the edit line gets of an unfinished line. */
  ghost function Seed(raw: Bytes): Bytes {
    if |raw| < MAX_LINE - 1 then Strip(raw) else []
  }

  ghost predicate AllBlank(s: Bytes) {
    forall i :: 0 <= i < |s| ==> IsBlank(s[i])
  }

  lemma {:induction false} StripsToNothing(s: Bytes)
    ensures Strip(s) == [] <==> AllBlank(s)
    decreases |s|
  {
    if s != [] && IsBlank(s[0]) {
      StripsToNothing(s[1..]);
      assert AllBlank(s[1..]) ==> forall i :: 0 < i < |s| ==> s[i] == s[1..][i - 1];
    }
  }

  /** An unfinished line reaches the edit line if and only if its raw length, blanks included, is
      below 511 and it is not all blanks; then it arrives whole but for the blanks in front. */
  lemma {:induction false} FragmentSurvives(raw: Bytes)
    ensures Seed(raw) != [] <==> |raw| < 511 && exists i :: 0 <= i < |raw| && raw[i] != 32 && raw[i] != 9
    ensures Seed(raw) == Strip(raw) <==> |raw| < 511 || AllBlank(raw)
  {
    StripsToNothing(raw);
  }

  lemma {:induction false} SameBehind(front: seq<Bytes>, a: seq<Bytes>, b: seq<Bytes>)
    requires front + a == front + b
    ensures a == b
  {
    assert a == (front + a)[|front|..] && b == (front + b)[|front|..];
  }

  /** Bytes waiting behind a line boundary without a line end are the unfinished line. */
  lemma {:induction false} WaitingIsUnfinished(consumed: Bytes, waiting: Bytes)
    requires AtBoundary(consumed) && NoEol(waiting)
    ensures Unfinished([], consumed + waiting) == waiting
  {
    LinesFromSplit([], consumed, waiting);
    PlainText([], waiting);
    assert [] + waiting == waiting;
  }

  // ----- what was pasted comes out

  /** A pasted line: some blanks, a text, and the line end as the terminal sends it. */
  datatype Pasted = Pasted(blanks: Bytes, text: Bytes, end: Bytes)

  ghost predicate IsPasted(l: Pasted) {
    && (forall i :: 0 <= i < |l.blanks| ==> l.blanks[i] == 32 || l.blanks[i] == 9)
    && (forall i :: 0 <= i < |l.text| ==> l.text[i] != 10 && l.text[i] != 13)
    && (l.text != [] ==> l.text[0] != 32 && l.text[0] != 9)
    && l.end in {[10], [13], [13, 10]}
  }

  ghost predicate AllPasted(ls: seq<Pasted>) {
    forall i {:trigger ls[i]} :: 0 <= i < |ls| ==> IsPasted(ls[i])
  }

  ghost function Stream(ls: seq<Pasted>): Bytes {
    if ls == [] then [] else Stream(ls[..|ls| - 1]) + (ls[|ls| - 1].blanks + ls[|ls| - 1].text + ls[|ls| - 1].end)
  }

  /** The texts, without the empty ones; of a text longer than 511 bytes its first 511. */
  ghost function Texts(ls: seq<Pasted>): seq<Bytes> {
    if ls == [] then []
    else
      var t := ls[|ls| - 1].text;
      Texts(ls[..|ls| - 1]) + if t == [] then [] else if |t| <= 511 then [t] else [t[..511]]
  }

  lemma {:induction false} OnePasted(l: Pasted)
    requires IsPasted(l)
    ensures AtBoundary(l.blanks + l.text + l.end)
    ensures Lines(l.blanks + l.text + l.end) == if l.text == [] then [] else if |l.text| <= 511 then [l.text] else [l.text[..511]]
  {
    var raw := l.blanks + l.text;
    OneLine(raw, l.end);
    StripIs(raw, |l.blanks|);
    assert raw[|l.blanks|..] == l.text;
  }

  /** Whatever lines are pasted, with whatever line ends, come out as their texts, in order. */
  lemma {:induction false} PastedComesOut(ls: seq<Pasted>)
    requires AllPasted(ls)
    ensures Lines(Stream(ls)) == Texts(ls) && AtBoundary(Stream(ls))
    decreases |ls|
  {
    if ls != [] {
      var n := |ls| - 1;
      PastedComesOut(ls[..n]);
      OnePasted(ls[n]);
      LinesSplit(Stream(ls[..n]), ls[n].blanks + ls[n].text + ls[n].end);
    }
  }
}
