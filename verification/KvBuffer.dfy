/** The configure mode's in-memory key/value buffer, and the text reader beside it. */
module KvBuffer {
  import opened Common
  import opened Assoc
  import opened KvText

  /** Linear search for a key. */
  method FindKey(es: Entries, key: string) returns (r: int)
    ensures r == IndexOf(es, key)
  {
    for i := 0 to |es|
      invariant forall j :: 0 <= j < i ==> es[j].key != key
    {
      if es[i].key == key { return i; }
    }
    return -1;
  }

  /** End of the line that starts at `p`. */
  method FindEol(data: string, p: nat) returns (eol: nat)
    requires p <= |data|
    ensures p <= eol <= |data| && OneLine(data[p..eol]) && (eol < |data| ==> data[eol] == '\n')
  {
    eol := p;
    while eol < |data| && data[eol] != '\n'
      invariant p <= eol <= |data| && forall i :: p <= i < eol ==> data[i] != '\n'
    {
      eol := eol + 1;
    }
  }

  method FindEq(l: string) returns (n: nat)
    ensures n == EqAt(l)
  {
    n := 0;
    while n < |l| && l[n] != '='
      invariant n <= |l| && forall i :: 0 <= i < n ==> l[i] != '='
    {
      n := n + 1;
    }
  }

  /** What is left of a text after the line ending at `eol`. */
  lemma NextLine(data: string, p: nat, eol: nat)
    requires p <= eol <= |data| && OneLine(data[p..eol]) && (eol < |data| ==> data[eol] == '\n')
    ensures eol < |data| ==> LinesOf(data[p..]) == Line(data[p..eol], LinesOf(data[eol + 1..]))
    ensures eol == |data| && p < eol ==> LinesOf(data[p..]) == Line(data[p..eol], End)
  {
    if eol < |data| {
      FirstLine(data[p..eol], data[eol + 1..]);
      assert data[p..] == data[p..eol] + ("\n" + data[eol + 1..]);
    } else {
      FirstLine(data[p..eol], "");
      assert data[p..] == data[p..eol];
    }
  }

  /** What setting a key does to a valid list. */
  lemma {:induction false} SetLaws(es: Entries, key: string, val: string)
    requires KvOk(es) && AllSized(es)
    ensures var r := SetTo(es, key, val);
            && (KvOk(r) <==> Settable(es, key)) && AllSized(r)
            && (IndexOf(es, key) >= 0 <==> key in AsMap(es)) && |es| == |AsMap(es)|
            && (|key| < 64 && (IndexOf(es, key) >= 0 || |es| < 64)
                ==> AsMap(r) == AsMap(es)[key := Clip(val, 511)])
            && (AllPlain(es) && PlainKey(key) && OneLine(val) ==> AllPlain(r))
  {
    SetKeepsKeysDistinct(es, key, val);
    SetToIsSized(es, key, val);
    LookupIsMap(es, key);
    SizeIsMapSize(es);
    if |key| < 64 {
      ShortKeysUpdate(es, key, val);
      PutIsUpdate(es, key, Clip(val, 511), 64);
      if AllPlain(es) && PlainKey(key) && OneLine(val) {
        PutKeepsPlain(es, Pair(key, Clip(val, 511)));
      }
    }
  }

  class Buffer {
    var entries: Entries
    var modified: bool

    ghost predicate Valid()
      reads this
    {
      KvOk(entries) && AllSized(entries)
    }

    constructor ()
      ensures Valid() && entries == [] && !modified
    {
      entries, modified := [], false;
    }

    method Get(key: string) returns (r: Option<string>)
      requires Valid()
      ensures r == if key in AsMap(entries) then Some(AsMap(entries)[key]) else None
    {
      LookupIsMap(entries, key);
      var i := FindKey(entries, key);
      return if i >= 0 then Some(entries[i].val) else None;
    }

    /** Set a key of any length: overwrite, append, or -1 when the buffer is full. The buffer stays
        valid exactly when the key is settable; a short key always is, and updates the map. */
    method Set(key: string, val: string) returns (r: int)
      requires Valid()
      modifies this
      ensures entries == SetTo(old(entries), key, val)
      ensures r == if IndexOf(old(entries), key) >= 0 || |old(entries)| < 64 then 0 else -1
      ensures modified == (old(modified) || r == 0)
      ensures Valid() <==> Settable(old(entries), key)
      ensures |key| < 64 ==>
                && r == (if key in old(AsMap(entries)) || |old(AsMap(entries))| < 64 then 0 else -1)
                && (r == 0 ==> AsMap(entries) == old(AsMap(entries))[key := Clip(val, 511)])
      ensures AllPlain(old(entries)) && PlainKey(key) && OneLine(val) ==> AllPlain(entries)
    {
      SetLaws(entries, key, val);
      var i := FindKey(entries, key);
      if i >= 0 {
        entries := entries[i := Pair(entries[i].key, Clip(val, MAX_VAL - 1))];
        modified := true;
        return 0;
      }
      if |entries| < MAX_ENTRIES {
        entries := entries + [Pair(Clip(key, MAX_KEY - 1), Clip(val, MAX_VAL - 1))];
        modified := true;
        return 0;
      }
      return -1;
    }

    /** Delete a key. */
    method Unset(key: string)
      requires Valid()
      modifies this
      ensures Valid() && AsMap(entries) == old(AsMap(entries)) - {key}
      ensures modified == (old(modified) || key in old(AsMap(entries)))
      ensures AllPlain(old(entries)) ==> AllPlain(entries)
    {
      RemoveIsDelete(entries, key);
      LookupIsMap(entries, key);
      RemovedArePairs(entries, key);
      Close(key);
    }

    /** The deletion itself: shift the entries behind the key down by one. */
    method Close(key: string)
      modifies this
      ensures entries == Remove(old(entries), key)
      ensures modified == (old(modified) || IndexOf(old(entries), key) >= 0)
    {
      var i := FindKey(entries, key);
      if i >= 0 {
        entries := entries[..i] + entries[i + 1..];
        modified := true;
      }
    }

    /** Read text into the buffer, line by line. */
    method Parse(data: string)
      requires Valid()
      modifies this`entries
      ensures Valid() && entries == ApplyLines(old(entries), LinesOf(data))
      ensures AllPlain(old(entries)) ==> AllPlain(entries)
    {
      LinesAreLines([], data);
      if AllPlain(entries) { ParsedIsPlain(entries, LinesOf(data)); }
      ParseFrom(data, LinesOf(data));
    }

    method ParseFrom(data: string, ghost lines: Lines)
      requires Valid() && lines == LinesOf(data)
      modifies this`entries
      ensures Valid() && entries == ApplyLines(old(entries), lines)
    {
      var p := 0;
      ghost var goal, ls := ApplyLines(entries, lines), lines;
      assert data[0..] == data;
      while p < |data|
        invariant 0 <= p <= |data| && Valid()
        invariant ls == LinesOf(data[p..]) && ApplyLines(entries, ls) == goal
      {
        var eol := FindEol(data, p);
        NextLine(data, p, eol);
        ParseLine(data[p..eol]);
        ls := ls.rest;
        if eol == |data| { return; }
        p := eol + 1;
      }
      assert data[p..] == [];
    }

    method ParseLine(l: string)
      requires Valid()
      modifies this`entries
      ensures Valid() && entries == ApplyLine(old(entries), l)
    {
      SizedLine(entries, l);
      var n := FindEq(l);
      if 0 < n < |l| && n < MAX_KEY {
        var k, v := l[..n], Clip(l[n + 1..], MAX_VAL - 1);
        PutIsUpdate(entries, k, v, 64);
        var slot := FindKey(entries, k);
        if slot < 0 {
          if |entries| >= MAX_ENTRIES { return; }
          entries := entries + [Pair(k, v)];
        } else {
          entries := entries[slot := Pair(k, v)];
        }
      }
    }

    /** Write the entries line by line into the caller's buffer. The result is the length of the lines
        that fit with their terminator; the buffer is left with the next line too, cut at its end. With
        nothing to write the buffer is not touched. */
    method Serialize(out: array<char>) returns (n: nat)
      modifies out
      ensures entries == [] || out.Length == 0 ==> out[..] == old(out[..]) && n == 0
      ensures out.Length > 0 ==> n == |TextOf(entries[..Whole(entries, out.Length - 1)])|
      ensures entries != [] && out.Length > 0 ==> HoldsText(out[..], Clip(TextOf(entries), out.Length - 1))
    {
      n := WriteLines(entries, out);
    }
  }

  method WriteLines(es: Entries, out: array<char>) returns (n: nat)
    modifies out
    ensures es == [] || out.Length == 0 ==> out[..] == old(out[..]) && n == 0
    ensures out.Length > 0 ==> n == |TextOf(es[..Whole(es, out.Length - 1)])|
    ensures es != [] && out.Length > 0 ==> HoldsText(out[..], Clip(TextOf(es), out.Length - 1))
  {
    n := 0;
    if out.Length == 0 { return; }
    var i := 0;
    ghost var text: string := "";
    while i < |es|
      invariant 0 <= i <= |es| && text == TextOf(es[..i]) && n == |text| < out.Length
      invariant i == 0 ==> out[..] == old(out[..])
      invariant StartsWith(out[..], text) && (i > 0 ==> HoldsText(out[..], text))
    {
      var fits := WriteLine(es, i, out, n, text);
      if !fits { return; }
      OneLineMore(es, i);
      n, i, text := n + |LineFor(es[i])|, i + 1, text + LineFor(es[i]);
    }
    AllWritten(es, i, out.Length);
  }

  /** One line: it fits, or the text is cut inside it. */
  method WriteLine(es: Entries, i: nat, out: array<char>, n: nat, ghost text: string) returns (fits: bool)
    requires i < |es| && text == TextOf(es[..i]) && n == |text| < out.Length && StartsWith(out[..], text)
    modifies out
    ensures fits <==> n + |LineFor(es[i])| < out.Length
    ensures fits ==> HoldsText(out[..], text + LineFor(es[i]))
    ensures !fits ==> Whole(es, out.Length - 1) == i && HoldsText(out[..], Clip(TextOf(es), out.Length - 1))
  {
    var line := LineFor(es[i]);
    Snprintf(out, n, line, text);
    fits := n + |line| < out.Length;
    if !fits { CutHere(es, i, out.Length - 1); }
  }

  lemma {:induction false} OneLineMore(es: Entries, i: nat)
    requires i < |es|
    ensures TextOf(es[..i + 1]) == TextOf(es[..i]) + LineFor(es[i])
  {
    TextSnoc(es[..i], es[i]);
    assert es[..i + 1] == es[..i] + [es[i]];
  }

  /** Line `i` does not fit into `n` characters: the text is cut inside it. */
  lemma {:induction false} CutHere(es: Entries, i: nat, n: nat)
    requires i < |es| && |TextOf(es[..i])| <= n < |TextOf(es[..i])| + |LineFor(es[i])|
    ensures Whole(es, n) == i && TextOf(es[..i]) + Clip(LineFor(es[i]), n - |TextOf(es[..i])|) == Clip(TextOf(es), n)
  {
    OneLineMore(es, i);
    WholeIs(es, n, i);
    CutText(es, n);
  }

  lemma {:induction false} AllWritten(es: Entries, i: nat, size: nat)
    requires i == |es| && (|TextOf(es[..i])| < size || i == 0)
    ensures es[..i] == es && (size > 0 ==> Whole(es, size - 1) == i && Clip(TextOf(es), size - 1) == TextOf(es))
  {
    assert es[..i] == es;
    if size > 0 { WholeIs(es, size - 1, i); }
  }

  ghost predicate StartsWith(buf: string, text: string) {
    |text| <= |buf| && buf[..|text|] == text
  }

  /** A C string stands at the start of the buffer. */
  ghost predicate HoldsText(buf: string, text: string) {
    |text| < |buf| && buf[..|text|] == text && buf[|text|] == '\0'
  }

  /** Print a line behind `at` characters: as much of it as leaves room for the terminator. */
  method Snprintf(out: array<char>, at: nat, line: string, ghost before: string)
    requires at < out.Length && at == |before| && StartsWith(out[..], before)
    modifies out
    ensures HoldsText(out[..], before + Clip(line, out.Length - at - 1))
  {
    var part := Clip(line, out.Length - at - 1);
    assert out[..at] == out[..][..at];
    forall k | 0 <= k < |part| {
      out[at + k] := part[k];
    }
    assert out[..at] == before && out[at..at + |part|] == part;
    assert out[..at + |part|] == out[..at] + out[at..at + |part|];
    ghost var text := out[..at + |part|];
    out[at + |part|] := '\0';
    assert out[..at + |part|] == text;
    assert out[..][..at + |part|] == out[..at + |part|];
  }

  /** How many entries fit, by what fits and what does not. */
  lemma {:induction false} WholeIs(es: Entries, n: nat, k: nat)
    requires k <= |es| && |TextOf(es[..k])| <= n && (k < |es| ==> |TextOf(es[..k + 1])| > n)
    ensures Whole(es, n) == k
  {
    var w := Whole(es, n);
    if w < k {
      NextIsCut(es, n);
      assert es[..k][..w + 1] == es[..w + 1];
      PrefixTextIsShorter(es[..k], w + 1);
    } else if k < w {
      assert es[..w][..k + 1] == es[..k + 1];
      PrefixTextIsShorter(es[..w], k + 1);
    }
  }

  // ----- saving

  ghost predicate NoNul(s: string) {
    forall i :: 0 <= i < |s| ==> s[i] != '\0'
  }

  /** Position of the first terminator, or the length. */
  ghost function FirstNul(buf: string): (n: nat)
    ensures n <= |buf| && NoNul(buf[..n]) && (n < |buf| ==> buf[n] == '\0')
  {
    if buf == [] || buf[0] == '\0' then 0
    else
      var n := 1 + FirstNul(buf[1..]);
      assert buf[..n] == [buf[0]] + buf[1..][..n - 1];
      n
  }

  /** The C string in a buffer; none if there is no terminator in it. */
  ghost function CText(buf: string): Option<string> {
    if FirstNul(buf) < |buf| then Some(buf[..FirstNul(buf)]) else None
  }

  lemma {:induction false} CTextIs(buf: string, text: string)
    requires HoldsText(buf, text) && NoNul(text)
    ensures CText(buf) == Some(text)
  {
    var n := FirstNul(buf);
    assert forall i :: 0 <= i < |text| ==> buf[i] == buf[..|text|][i];
    assert forall i :: 0 <= i < n ==> buf[i] == buf[..n][i];
  }

  /** The text of the entries, being made of C strings. */
  ghost predicate CStrings(es: Entries) {
    NoNul(TextOf(es))
  }

  /** Where the buffer's text ends, as the callers find it: at its first terminator. */
  method TextIn(out: array<char>) returns (text: Option<string>)
    ensures text == CText(out[..])
  {
    for i := 0 to out.Length
      invariant NoNul(out[..i])
    {
      if out[i] == '\0' {
        CTextIs(out[..], out[..i]);
        return Some(out[..i]);
      }
    }
    assert out[..out.Length] == out[..];
    return None;
  }

  lemma {:induction false} RemovedArePairs(es: Entries, key: string)
    ensures AllSized(es) ==> AllSized(Remove(es, key))
    ensures AllPlain(es) ==> AllPlain(Remove(es, key))
  {
    var r := Remove(es, key);
    forall i | 0 <= i < |r|
      ensures AllSized(es) ==> Sized(r[i])
    {
      var j := RemovedFrom(es, key, i);
      assert AllSized(es) ==> Sized(es[j]);
    }
    forall i | 0 <= i < |r|
      ensures AllPlain(es) ==> Plain(r[i])
    {
      var j := RemovedFrom(es, key, i);
      assert AllPlain(es) ==> Plain(es[j]);
    }
  }

  lemma {:induction false} RemovedFrom(es: Entries, key: string, i: nat) returns (j: nat)
    requires i < |Remove(es, key)|
    ensures j < |es| && Remove(es, key)[i] == es[j]
  {
    var at := IndexOf(es, key);
    j := if at < 0 || i < at then i else i + 1;
  }

  /** Saving, as every caller does it: write into a buffer and send what `strlen` finds there. It is the
      text of the entries cut at the end of the buffer; without entries it is whatever stood there. */
  method Save(b: Buffer, out: array<char>) returns (text: Option<string>)
    requires CStrings(b.entries)
    modifies out
    ensures b.entries != [] && out.Length > 0 ==> text == Some(Clip(TextOf(b.entries), out.Length - 1))
    ensures b.entries == [] ==> text == CText(old(out[..]))
  {
    var n := b.Serialize(out);
    text := TextIn(out);
    if b.entries != [] && out.Length > 0 {
      CTextIs(out[..], Clip(TextOf(b.entries), out.Length - 1));
    }
  }

  /** Saving and loading a buffer gives it back if and only if its entries are plain (no empty key, no
      '=' in a key, no line end) and their text is at most as long as the save buffer. Plain entries
      come back up to the cut: the next value cut off, the later entries lost. */
  method SaveThenLoad(b: Buffer, out: array<char>) returns (c: Buffer)
    requires b.Valid() && CStrings(b.entries)
    modifies out
    ensures fresh(c) && c.Valid()
    ensures b.entries != [] && out.Length > 0 ==> Survives(b.entries, out.Length, c.entries)
  {
    var text := Save(b, out);
    c := Load(if text.Some? then text.value else "");
    if b.entries != [] && out.Length > 0 { SavedReadsBack(b.entries, out.Length); }
  }

  method Load(text: string) returns (c: Buffer)
    ensures fresh(c) && c.Valid() && c.entries == ApplyLines([], LinesOf(text))
  {
    c := new Buffer();
    c.Parse(text);
  }

  /** What comes back of some entries through a save buffer of `size` characters. */
  ghost predicate Survives(es: Entries, size: nat, back: Entries)
    requires size > 0
  {
    && (AllPlain(es) ==> back == Kept(es, size - 1))
    && (back == es <==> AllPlain(es) && |TextOf(es)| <= size)
  }

  lemma {:induction false} SavedReadsBack(es: Entries, size: nat)
    requires KvOk(es) && es != [] && size > 0
    ensures Survives(es, size, ApplyLines([], LinesOf(Clip(TextOf(es), size - 1))))
  {
    var text := Clip(TextOf(es), size - 1);
    ReadIsPlain(text);
    if AllPlain(es) { CutReadsBack(es, size - 1); }
    SurvivesIf(es, size, ApplyLines([], LinesOf(text)));
  }

  lemma {:induction false} ReadIsPlain(text: string)
    ensures AllPlain(ApplyLines([], LinesOf(text)))
  {
    LinesAreLines([], text);
    ParsedIsPlain([], LinesOf(text));
  }

  lemma {:induction false} SurvivesIf(es: Entries, size: nat, back: Entries)
    requires es != [] && size > 0 && AllPlain(back) && (AllPlain(es) ==> back == Kept(es, size - 1))
    ensures Survives(es, size, back)
  {
    KeptIsAll(es, size - 1);
  }

  /** Of the returned length alone: it gives back the entries it holds if and only if they are plain. */
  lemma {:induction false} ReturnedLengthReadsBack(es: Entries, k: nat)
    requires KvOk(es) && k <= |es|
    ensures ApplyLines([], LinesOf(TextOf(es[..k]))) == es[..k] <==> AllPlain(es[..k])
  {
    if AllPlain(es[..k]) { PrefixReadsBack(es, k); }
    ReadIsPlain(TextOf(es[..k]));
  }

  lemma {:induction false} PrefixReadsBack(es: Entries, k: nat)
    requires KvOk(es) && k <= |es| && AllPlain(es[..k])
    ensures ApplyLines([], LinesOf(TextOf(es[..k]))) == es[..k]
  {
    var front := es[..k];
    assert [] + front == front;
    PrefixIsDistinct(es, k);
    WrittenReadsBack([], front);
  }

  lemma {:induction false} PrefixTextIsShorter(es: Entries, k: nat)
    requires k <= |es|
    ensures |TextOf(es[..k])| <= |TextOf(es)|
    decreases |es| - k
  {
    if k == |es| {
      assert es[..k] == es;
    } else {
      assert es[..k + 1] == es[..k] + [es[k]];
      TextSnoc(es[..k], es[k]);
      PrefixTextIsShorter(es, k + 1);
    }
  }

  /** The stand-alone reader: the value of the first line starting with "key=", cut to the
      caller's buffer, or nothing. */
  method KvGet(data: string, key: string, outsz: nat) returns (out: string)
    requires outsz > 0
    ensures out == if key == "" || FirstValue(LinesOf(data), key) == None then ""
                   else Clip(FirstValue(LinesOf(data), key).value, outsz - 1)
  {
    if key == "" { return ""; }
    var p := 0;
    assert data[0..] == data;
    while p < |data|
      invariant 0 <= p <= |data| && FirstValue(LinesOf(data), key) == FirstValue(LinesOf(data[p..]), key)
    {
      var eol := FindEol(data, p);
      NextLine(data, p, eol);
      var l := data[p..eol];
      if |l| >= |key| + 1 && l[..|key|] == key && l[|key|] == '=' {
        return Clip(l[|key| + 1..], outsz - 1);
      }
      if eol == |data| { return ""; }
      p := eol + 1;
    }
    assert data[p..] == [];
    return "";
  }
}
