/** The "key=value" text format: lines, assignments, and the two readers' views of it.
    Strings hold no terminator. */
module KvText {
  import opened Common
  import opened Assoc

  const MAX_ENTRIES: int := 64
  const MAX_KEY: int := 64
  const MAX_VAL: int := 512

  type Entries = seq<Pair<string, string>>

  function Clip(s: string, n: nat): (r: string)
    ensures r <= s && |r| == if |s| <= n then |s| else n
  {
    if |s| > n then s[..n] else s
  }

  // ----- lines

  datatype Lines = End | Line(text: string, rest: Lines)

  /** The lines of a text, `cur` being the part of the first one already read. */
  ghost function LinesFrom(cur: string, s: string): Lines
    decreases |s|
  {
    if s == [] then (if cur == [] then End else Line(cur, End))
    else if s[0] == '\n' then Line(cur, LinesFrom([], s[1..]))
    else LinesFrom(cur + [s[0]], s[1..])
  }

  ghost function LinesOf(s: string): Lines {
    LinesFrom([], s)
  }

  ghost predicate OneLine(s: string) {
    forall i :: 0 <= i < |s| ==> s[i] != '\n'
  }

  lemma {:induction false} PlainPrefix(cur: string, l: string, rest: string)
    requires OneLine(l)
    ensures LinesFrom(cur, l + rest) == LinesFrom(cur + l, rest)
    decreases |l|
  {
    if l == [] {
      assert l + rest == rest && cur + l == cur;
    } else {
      PlainPrefix(cur + [l[0]], l[1..], rest);
      assert (l + rest)[1..] == l[1..] + rest;
      assert (cur + [l[0]]) + l[1..] == cur + l;
    }
  }

  /** A finished line in front, or an unfinished one alone. */
  lemma {:induction false} FirstLine(l: string, rest: string)
    requires OneLine(l)
    ensures LinesOf(l + ("\n" + rest)) == Line(l, LinesOf(rest))
    ensures LinesOf(l) == if l == [] then End else Line(l, End)
  {
    PlainPrefix([], l, "\n" + rest);
    PlainPrefix([], l, []);
    assert [] + l == l && l + [] == l;
    assert ("\n" + rest)[1..] == rest;
  }

  // ----- assignments

  /** Position of the first '=', or the length. */
  ghost function EqAt(l: string): (n: nat)
    ensures n <= |l| && (n < |l| ==> l[n] == '=')
    ensures forall i :: 0 <= i < n ==> l[i] != '='
  {
    if l == [] || l[0] == '=' then 0 else 1 + EqAt(l[1..])
  }

  lemma EqAtIs(l: string, n: nat)
    requires n < |l| && l[n] == '=' && forall i :: 0 <= i < n ==> l[i] != '='
    ensures EqAt(l) == n
  {
  }

  /** What a line assigns: nothing without '=', with an empty key, or with a key too long. */
  ghost function Assignment(l: string): Option<Pair<string, string>> {
    var n := EqAt(l);
    if 0 < n < |l| && n < 64 then Some(Pair(l[..n], Clip(l[n + 1..], 511))) else None
  }

  ghost function ApplyLine(es: Entries, l: string): Entries {
    match Assignment(l)
    case None => es
    case Some(p) => Put(es, p.key, p.val, 64)
  }

  /** The entries after reading lines into a buffer. */
  ghost function ApplyLines(es: Entries, ls: Lines): Entries
    decreases ls
  {
    match ls case End => es case Line(l, rest) => ApplyLines(ApplyLine(es, l), rest)
  }

  // ----- writing

  function LineFor(p: Pair<string, string>): string {
    p.key + ("=" + (p.val + "\n"))
  }

  ghost function TextOf(es: Entries): string {
    if es == [] then "" else LineFor(es[0]) + TextOf(es[1..])
  }

  lemma {:induction false} TextSnoc(es: Entries, p: Pair<string, string>)
    ensures TextOf(es + [p]) == TextOf(es) + LineFor(p)
    decreases |es|
  {
    if es == [] {
      assert (es + [p])[1..] == [];
    } else {
      TextSnoc(es[1..], p);
      assert (es + [p])[1..] == es[1..] + [p];
      Regroup(LineFor(es[0]), TextOf(es[1..]), LineFor(p));
    }
  }

  ghost predicate PlainKey(key: string) {
    0 < |key| < 64 && OneLine(key) && forall i :: 0 <= i < |key| ==> key[i] != '='
  }

  /** A pair that survives the text format. */
  ghost predicate Plain(p: Pair<string, string>) {
    PlainKey(p.key) && |p.val| < 512 && OneLine(p.val)
  }

  ghost predicate AllPlain(es: Entries) {
    forall i {:trigger Plain(es[i])} :: 0 <= i < |es| ==> Plain(es[i])
  }

  lemma {:induction false} AssignmentOfLine(p: Pair<string, string>)
    requires Plain(p)
    ensures OneLine(p.key + ("=" + p.val)) && Assignment(p.key + ("=" + p.val)) == Some(p)
    ensures LineFor(p) == (p.key + ("=" + p.val)) + "\n"
  {
    var l := p.key + ("=" + p.val);
    EqAtIs(l, |p.key|);
    assert l[..|p.key|] == p.key && l[|p.key| + 1..] == p.val;
    Regroup("=", p.val, "\n");
    Regroup(p.key, "=" + p.val, "\n");
  }

  /** Reading back what was written appends exactly the written pairs. */
  lemma {:induction false} WrittenReadsBack(es: Entries, more: Entries)
    requires DistinctKeys(es + more) && |es + more| <= 64 && AllPlain(more)
    ensures ApplyLines(es, LinesOf(TextOf(more))) == es + more
    decreases |more|
  {
    if more == [] {
      assert es + more == es;
    } else {
      var p, rest := more[0], more[1..];
      assert Plain(p);
      AssignmentOfLine(p);
      FirstLine(p.key + ("=" + p.val), TextOf(rest));
      Regroup(p.key + ("=" + p.val), "\n", TextOf(rest));
      NewKeyAppends(es, more);
      assert (es + [p]) + rest == es + more;
      forall i | 0 <= i < |rest|
        ensures Plain(rest[i])
      {
        assert Plain(more[i + 1]);
      }
      WrittenReadsBack(es + [p], rest);
    }
  }

  lemma {:induction false} NewKeyAppends(es: Entries, more: Entries)
    requires DistinctKeys(es + more) && more != [] && |es + more| <= 64
    ensures Put(es, more[0].key, more[0].val, 64) == es + [more[0]]
  {
    var all := es + more;
    assert all[|es|] == more[0];
    forall i | 0 <= i < |es|
      ensures es[i].key != more[0].key
    {
      assert all[i] == es[i] && Differ(all, i, |es|);
    }
  }

  // ----- the other reader: first line that starts with "key="

  ghost predicate Assigns(l: string, key: string) {
    |l| > |key| && l[..|key|] == key && l[|key|] == '='
  }

  ghost function FirstValue(ls: Lines, key: string): (r: Option<string>)
    ensures r.Some? <==> Mentions(ls, key)
  {
    match ls
    case End => None
    case Line(l, rest) => if Assigns(l, key) then Some(l[|key| + 1..]) else FirstValue(rest, key)
  }

  ghost predicate Mentions(ls: Lines, key: string) {
    match ls case End => false case Line(l, rest) => Assigns(l, key) || Mentions(rest, key)
  }

  ghost predicate SearchKey(key: string) {
    0 < |key| < 64 && forall i :: 0 <= i < |key| ==> key[i] != '='
  }

  /** For a key without '=', starting with "key=" is assigning to the key. */
  lemma {:induction false} AssignsMeansAssignment(l: string, key: string)
    requires SearchKey(key)
    ensures Assigns(l, key) ==> Assignment(l) == Some(Pair(key, Clip(l[|key| + 1..], 511)))
    ensures !Assigns(l, key) && Assignment(l).Some? ==> Assignment(l).value.key != key
  {
    if Assigns(l, key) {
      assert forall i :: 0 <= i < |key| ==> l[i] == l[..|key|][i];
      EqAtIs(l, |key|);
    }
  }

  ghost function Lookup(es: Entries, key: string): Option<string> {
    if IndexOf(es, key) >= 0 then Some(es[IndexOf(es, key)].val) else None
  }

  ghost predicate KvOk(es: Entries) {
    DistinctKeys(es) && |es| <= 64
  }

  lemma {:induction false} LookupAfterPut(es: Entries, k: string, v: string, key: string)
    requires KvOk(es)
    ensures KvOk(Put(es, k, v, 64)) && |es| <= |Put(es, k, v, 64)|
    ensures Lookup(Put(es, k, v, 64), key)
            == if key == k && (Lookup(es, k).Some? || |es| < 64) then Some(v) else Lookup(es, key)
  {
    PutIsUpdate(es, k, v, 64);
    if IndexOf(es, k) >= 0 || |es| < 64 {
      PutLookup(es, k, v, 64, key);
    }
  }

  lemma {:induction false} LookupAfterLine(es: Entries, l: string, key: string)
    requires KvOk(es) && SearchKey(key)
    ensures KvOk(ApplyLine(es, l)) && |es| <= |ApplyLine(es, l)|
    ensures Lookup(ApplyLine(es, l), key)
            == if Assigns(l, key) && (Lookup(es, key).Some? || |es| < 64)
               then Some(Clip(l[|key| + 1..], 511)) else Lookup(es, key)
  {
    AssignsMeansAssignment(l, key);
    match Assignment(l)
    case None =>
    case Some(p) => LookupAfterPut(es, p.key, p.val, key);
  }

  /** Lines that do not mention the key leave its lookup alone. */
  lemma {:induction false} UnmentionedStays(es: Entries, ls: Lines, key: string)
    requires KvOk(es) && SearchKey(key) && !Mentions(ls, key)
    ensures KvOk(ApplyLines(es, ls)) && Lookup(ApplyLines(es, ls), key) == Lookup(es, key)
    ensures FirstValue(ls, key) == None
    decreases ls
  {
    if ls.Line? {
      LookupAfterLine(es, ls.text, key);
      UnmentionedStays(ApplyLine(es, ls.text), ls.rest, key);
    }
  }

  /** The value of the last line that assigns the key. */
  ghost function LastValue(ls: Lines, key: string): (r: Option<string>)
    ensures r.Some? <==> Mentions(ls, key)
  {
    match ls
    case End => None
    case Line(l, rest) =>
      if Assigns(l, key) && !Mentions(rest, key) then Some(l[|key| + 1..]) else LastValue(rest, key)
  }

  /** Reading `ls` into `es`, there is a free slot when the key is first mentioned. */
  ghost predicate RoomFor(es: Entries, ls: Lines, key: string)
    decreases ls
  {
    match ls
    case End => true
    case Line(l, rest) => if Assigns(l, key) then |es| < 64 else RoomFor(ApplyLine(es, l), rest, key)
  }

  /** A held key takes every later value: the last one stays. */
  lemma {:induction false} HeldTakesTheLast(es: Entries, ls: Lines, key: string)
    requires KvOk(es) && SearchKey(key) && Lookup(es, key).Some?
    ensures Lookup(ApplyLines(es, ls), key)
            == if Mentions(ls, key) then Some(Clip(LastValue(ls, key).value, 511)) else Lookup(es, key)
    decreases ls
  {
    if ls.Line? {
      LookupAfterLine(es, ls.text, key);
      HeldTakesTheLast(ApplyLine(es, ls.text), ls.rest, key);
    }
  }

  /** A full buffer takes no new key, and stays full. */
  lemma {:induction false} FullTakesNone(es: Entries, ls: Lines, key: string)
    requires KvOk(es) && SearchKey(key) && Lookup(es, key) == None && |es| == 64
    ensures Lookup(ApplyLines(es, ls), key) == None
    decreases ls
  {
    if ls.Line? {
      LookupAfterLine(es, ls.text, key);
      FullTakesNone(ApplyLine(es, ls.text), ls.rest, key);
    }
  }

  /** What parsing any text leaves under a key that was not held: its last value, clipped, if there
      was a slot at its first mention, and nothing otherwise. */
  lemma {:induction false} BufferTakesTheLast(es: Entries, ls: Lines, key: string)
    requires KvOk(es) && SearchKey(key) && Lookup(es, key) == None
    ensures Lookup(ApplyLines(es, ls), key)
            == if Mentions(ls, key) && RoomFor(es, ls, key) then Some(Clip(LastValue(ls, key).value, 511)) else None
    decreases ls
  {
    if ls.Line? {
      LookupAfterLine(es, ls.text, key);
      var es' := ApplyLine(es, ls.text);
      if !Assigns(ls.text, key) {
        BufferTakesTheLast(es', ls.rest, key);
      } else if |es| < 64 {
        HeldTakesTheLast(es', ls.rest, key);
      } else {
        FullTakesNone(es', ls.rest, key);
      }
    }
  }

  /** The two readers of a text agree on a key if and only if it is not mentioned, or there was a
      slot for it and its last value, clipped, is its first; and up to clipping, if and only if the
      clipped values are the same. */
  lemma {:induction false} ReadersAgree(ls: Lines, key: string)
    requires SearchKey(key)
    ensures var first, last := FirstValue(ls, key), LastValue(ls, key);
            var held := Lookup(ApplyLines([], ls), key);
            && (held == first <==>
                !Mentions(ls, key) || (RoomFor([], ls, key) && Clip(last.value, 511) == first.value))
            && (Mentions(ls, key) ==>
                (held == Some(Clip(first.value, 511)) <==>
                 RoomFor([], ls, key) && Clip(last.value, 511) == Clip(first.value, 511)))
  {
    BufferTakesTheLast([], ls, key);
  }

  /** A key mentioned once has one value, first and last. */
  lemma {:induction false} MentionedOnce(ls: Lines, key: string)
    requires Times(ls, key) == 1
    ensures Mentions(ls, key) && FirstValue(ls, key) == LastValue(ls, key)
    decreases ls
  {
    if Assigns(ls.text, key) {
      NotAtAll(ls.rest, key);
    } else {
      MentionedOnce(ls.rest, key);
    }
  }

  ghost function Times(ls: Lines, key: string): nat {
    match ls case End => 0 case Line(l, rest) => (if Assigns(l, key) then 1 else 0) + Times(rest, key)
  }

  lemma {:induction false} NotAtAll(ls: Lines, key: string)
    ensures Times(ls, key) == 0 <==> !Mentions(ls, key)
    decreases ls
  {
    if ls.Line? { NotAtAll(ls.rest, key); }
  }

  /** Two lines of a text give one key two values: the first wins for one reader, the last for the
      other, so they differ unless the last, clipped, is the first. */
  lemma {:induction false} RepeatedKeysDisagree(key: string, a: string, b: string)
    requires PlainKey(key) && OneLine(a) && OneLine(b)
    ensures var ls := LinesOf((key + ("=" + a)) + ("\n" + (key + ("=" + b))));
            FirstValue(ls, key) == Some(a) && Lookup(ApplyLines([], ls), key) == Some(Clip(b, 511))
  {
    var l1, l2 := key + ("=" + a), key + ("=" + b);
    AssigningLine(key, a);
    AssigningLine(key, b);
    FirstLine(l1, l2);
    FirstLine(l2, "");
    var ls := Line(l1, Line(l2, End));
    assert LastValue(Line(l2, End), key) == Some(b);
    BufferTakesTheLast([], ls, key);
  }

  lemma {:induction false} AssigningLine(key: string, v: string)
    ensures var l := key + ("=" + v);
            Assigns(l, key) && l[|key| + 1..] == v && (OneLine(key) && OneLine(v) ==> OneLine(l))
  {
  }

  // ----- setting a key

  /** The list after `set`: the key is compared whole and stored cut. */
  function SetTo(es: Entries, key: string, val: string): Entries {
    var i, v := IndexOf(es, key), Clip(val, 511);
    if i >= 0 then es[i := Pair(es[i].key, v)]
    else if |es| < 64 then es + [Pair(Clip(key, 63), v)]
    else es
  }

  ghost predicate Sized(p: Pair<string, string>) {
    |p.key| < 64 && |p.val| < 512
  }

  ghost predicate AllSized(es: Entries) {
    forall i {:trigger Sized(es[i])} :: 0 <= i < |es| ==> Sized(es[i])
  }

  lemma {:induction false} SetToIsSized(es: Entries, key: string, val: string)
    requires AllSized(es)
    ensures AllSized(SetTo(es, key, val))
  {
    var r := SetTo(es, key, val);
    forall i | 0 <= i < |r|
      ensures Sized(r[i])
    {
      if i < |es| { assert Sized(es[i]); }
    }
  }

  /** Short keys: the list is updated as the map is. */
  lemma {:induction false} ShortKeysUpdate(es: Entries, key: string, val: string)
    requires |key| < 64
    ensures SetTo(es, key, val) == Put(es, key, Clip(val, 511), 64)
  {
  }

  /** Can the key be set without storing some key twice? */
  predicate Settable(es: Entries, key: string) {
    |key| < 64 || |es| == 64 || IndexOf(es, Clip(key, 63)) < 0
  }

  /** Setting a key keeps the keys distinct if and only if it is short, or the buffer is full, or
      its first 63 characters are not held. */
  lemma {:induction false} SetKeepsKeysDistinct(es: Entries, key: string, val: string)
    requires KvOk(es) && AllSized(es)
    ensures DistinctKeys(SetTo(es, key, val)) <==> Settable(es, key)
  {
    var stored, r := Clip(key, 63), SetTo(es, key, val);
    if |key| < 64 {
      ShortKeysUpdate(es, key, val);
      PutKeepsDistinct(es, key, Clip(val, 511), 64);
    } else {
      forall i | 0 <= i < |es|
        ensures es[i].key != key
      {
        assert Sized(es[i]);
      }
      if |es| < 64 {
        if IndexOf(es, stored) < 0 {
          PutKeepsDistinct(es, stored, Clip(val, 511), 64);
        } else {
          var i := IndexOf(es, stored);
          assert r[i] == es[i] && !Differ(r, i, |es|);
        }
      }
    }
  }

  /** So a long key set twice is stored twice. */
  lemma {:induction false} LongKeysDuplicate(key: string, a: string, b: string)
    requires |key| >= 64
    ensures !DistinctKeys(SetTo(SetTo([], key, a), key, b))
  {
    var stored := Clip(key, 63);
    var es := [Pair(stored, Clip(a, 511))];
    assert SetTo([], key, a) == es;
    assert |stored| < |key| && IndexOf(es, key) == -1;
    assert !Differ(es + [Pair(stored, Clip(b, 511))], 0, 1);
  }

  // ----- a text that was cut off

  /** Whole lines and then a rest: the lines are read, and then the rest. */
  lemma {:induction false} ReadsOnBehind(es: Entries, more: Entries, tail: string)
    requires DistinctKeys(es + more) && |es + more| <= 64 && AllPlain(more)
    ensures ApplyLines(es, LinesOf(TextOf(more) + tail)) == ApplyLines(es + more, LinesOf(tail))
    decreases |more|
  {
    if more == [] {
      assert es + more == es && TextOf(more) + tail == tail;
    } else {
      var p, rest := more[0], more[1..];
      var l := p.key + ("=" + p.val);
      assert Plain(p);
      AssignmentOfLine(p);
      FirstLine(l, TextOf(rest) + tail);
      Regroup(LineFor(p), TextOf(rest), tail);
      Regroup(l, "\n", TextOf(rest) + tail);
      NewKeyAppends(es, more);
      assert (es + [p]) + rest == es + more;
      forall i | 0 <= i < |rest|
        ensures Plain(rest[i])
      {
        assert Plain(more[i + 1]);
      }
      ReadsOnBehind(es + [p], rest, tail);
    }
  }

  /** What is read of an entry of which the first `m` characters are left: nothing without its '=',
      else the key with what is left of the value. */
  function Remnant(p: Pair<string, string>, m: nat): Entries {
    if m <= |p.key| then [] else [Pair(p.key, Clip(p.val, m - |p.key| - 1))]
  }

  lemma {:induction false} RemnantReads(es: Entries, p: Pair<string, string>, m: nat)
    requires Plain(p) && m < |LineFor(p)| && DistinctKeys(es + [p]) && |es + [p]| <= 64
    ensures ApplyLines(es, LinesOf(LineFor(p)[..m])) == es + Remnant(p, m)
  {
    CutLine(p, m);
    if m > |p.key| {
      NewKeyAppends(es, [p]);
      AloneAppends(es, Pair(p.key, Clip(p.val, m - |p.key| - 1)));
    } else {
      AloneIgnored(es, LineFor(p)[..m]);
    }
  }

  /** A text without '=' and line end is not read. */
  lemma {:induction false} AloneIgnored(es: Entries, tail: string)
    requires OneLine(tail) && EqAt(tail) == |tail|
    ensures ApplyLines(es, LinesOf(tail)) == es == es + []
  {
    FirstLine(tail, "");
    if tail != [] {
      assert Assignment(tail) == None;
      assert LinesOf(tail) == Line(tail, End);
    }
  }

  /** One assignment of a new key, without a line end, is read. */
  lemma {:induction false} AloneAppends(es: Entries, q: Pair<string, string>)
    requires Plain(q) && IndexOf(es, q.key) == -1 && |es| < 64
    ensures ApplyLines(es, LinesOf(q.key + ("=" + q.val))) == es + [q]
  {
    AssignmentOfLine(q);
    FirstLine(q.key + ("=" + q.val), "");
  }

  /** A cut line, as text: a start of the key, or the key with a start of the value. */
  lemma {:induction false} CutLine(p: Pair<string, string>, m: nat)
    requires Plain(p) && m < |LineFor(p)|
    ensures OneLine(LineFor(p)[..m])
    ensures m <= |p.key| ==> EqAt(LineFor(p)[..m]) == m
    ensures m > |p.key| ==> LineFor(p)[..m] == p.key + ("=" + Clip(p.val, m - |p.key| - 1))
  {
    AssignmentOfLine(p);
    var l, tail := p.key + ("=" + p.val), LineFor(p)[..m];
    assert tail == l[..m];
    if m <= |p.key| {
      assert forall i :: 0 <= i < m ==> tail[i] == p.key[i];
    }
  }

  /** The entries of a buffer's text that end before position `n`. */
  ghost function Whole(es: Entries, n: nat): (k: nat)
    ensures k <= |es| && |TextOf(es[..k])| <= n
    decreases |es|
  {
    if |TextOf(es)| <= n then assert es[..|es|] == es; |es|
    else
      var k := Whole(es[..|es| - 1], n);
      assert es[..|es| - 1][..k] == es[..k];
      k
  }

  lemma {:induction false} NextIsCut(es: Entries, n: nat)
    requires Whole(es, n) < |es|
    ensures |TextOf(es[..Whole(es, n) + 1])| > n
    decreases |es|
  {
    var init, k := es[..|es| - 1], Whole(es, n);
    assert k == Whole(init, n);
    if k < |init| {
      NextIsCut(init, n);
      assert init[..k + 1] == es[..k + 1];
    } else {
      assert es[..k + 1] == es;
    }
  }

  /** What is read of a buffer's text when only its first `n` characters are left. */
  ghost function Kept(es: Entries, n: nat): Entries {
    var k := Whole(es, n);
    if k == |es| then es else es[..k] + Remnant(es[k], n - |TextOf(es[..k])|)
  }

  lemma {:induction false} TextSplits(es: Entries, k: nat)
    requires k <= |es|
    ensures TextOf(es) == TextOf(es[..k]) + TextOf(es[k..])
    decreases k
  {
    if k == 0 {
      assert es[..0] == [] && es[0..] == es;
    } else {
      TextSplits(es[1..], k - 1);
      assert es[1..][..k - 1] == es[..k][1..] && es[1..][k - 1..] == es[k..];
      Regroup(LineFor(es[0]), TextOf(es[..k][1..]), TextOf(es[k..]));
    }
  }

  /** Where the text is cut: behind whole lines, inside the next one. */
  lemma {:induction false} CutText(es: Entries, n: nat)
    requires Whole(es, n) < |es|
    ensures var k, m := Whole(es, n), n - |TextOf(es[..Whole(es, n)])|;
            m < |LineFor(es[k])| && n < |TextOf(es)| && TextOf(es)[..n] == TextOf(es[..k]) + LineFor(es[k])[..m]
  {
    var k := Whole(es, n);
    var front, line, rest := TextOf(es[..k]), LineFor(es[k]), TextOf(es[k + 1..]);
    NextIsCut(es, n);
    TextSnoc(es[..k], es[k]);
    assert es[..k + 1] == es[..k] + [es[k]];
    TextSplits(es, k);
    assert es[k..][1..] == es[k + 1..];
    assert TextOf(es[k..]) == line + rest;
    CutInside(front, line, rest, n);
  }

  lemma {:induction false} CutInside(front: string, line: string, rest: string, n: nat)
    requires |front| <= n < |front| + |line|
    ensures (front + (line + rest))[..n] == front + line[..n - |front|]
  {
  }

  /** Reading back a cut text of plain entries. */
  lemma {:induction false} CutReadsBack(es: Entries, n: nat)
    requires KvOk(es) && AllPlain(es)
    ensures ApplyLines([], LinesOf(Clip(TextOf(es), n))) == Kept(es, n)
  {
    var k := Whole(es, n);
    if k == |es| {
      assert es[..k] == es && [] + es == es;
      WrittenReadsBack([], es);
    } else {
      var m := n - |TextOf(es[..k])|;
      CutText(es, n);
      PlainPrefixOf(es, k);
      assert Plain(es[k]);
      PrefixIsDistinct(es, k + 1);
      assert es[..k + 1] == es[..k] + [es[k]];
      FrontAndRemnant(es[..k], es[k], m);
    }
  }

  lemma {:induction false} FrontAndRemnant(front: Entries, p: Pair<string, string>, m: nat)
    requires AllPlain(front) && Plain(p) && DistinctKeys(front + [p]) && |front + [p]| <= 64 && m < |LineFor(p)|
    ensures ApplyLines([], LinesOf(TextOf(front) + LineFor(p)[..m])) == front + Remnant(p, m)
  {
    assert [] + front == front && (front + [p])[..|front|] == front;
    PrefixIsDistinct(front + [p], |front|);
    ReadsOnBehind([], front, LineFor(p)[..m]);
    RemnantReads(front, p, m);
  }

  lemma {:induction false} PlainPrefixOf(es: Entries, k: nat)
    requires AllPlain(es) && k <= |es|
    ensures AllPlain(es[..k])
  {
    forall i | 0 <= i < k
      ensures Plain(es[..k][i])
    {
      assert Plain(es[i]);
    }
  }

  /** A cut text gives the whole buffer back if and only if at most its last line end is missing. */
  lemma {:induction false} KeptIsAll(es: Entries, n: nat)
    requires es != []
    ensures Kept(es, n) == es <==> |TextOf(es)| <= n + 1
  {
    var k := Whole(es, n);
    if k < |es| {
      CutText(es, n);
      if k + 1 < |es| { MoreIsLost(es, n, k); } else { LastIsCut(es, n, k); }
    }
  }

  /** Cut before the last entry: it is lost, and more than a line end is missing. */
  lemma {:induction false} MoreIsLost(es: Entries, n: nat, k: nat)
    requires k == Whole(es, n) && k + 1 < |es|
    ensures Kept(es, n) != es && |TextOf(es)| > n + 1
  {
    NextIsCut(es, n);
    TextSplits(es, k + 1);
    var rest := es[k + 1..];
    assert |TextOf(rest)| >= |LineFor(rest[0])| >= 2;
    assert |Kept(es, n)| <= k + 1;
  }

  /** Cut inside the last entry. */
  lemma {:induction false} LastIsCut(es: Entries, n: nat, k: nat)
    requires k == Whole(es, n) && k + 1 == |es|
    requires n - |TextOf(es[..k])| < |LineFor(es[k])|
    ensures Kept(es, n) == es <==> |TextOf(es)| <= n + 1
  {
    TextSnoc(es[..k], es[k]);
    assert es == es[..k] + [es[k]];
    LastKept(es, k, n - |TextOf(es[..k])|);
  }

  lemma {:induction false} LastKept(es: Entries, k: nat, m: nat)
    requires k + 1 == |es| && m < |LineFor(es[k])|
    ensures es[..k] + Remnant(es[k], m) == es <==> m + 1 == |LineFor(es[k])|
  {
    var p := es[k];
    assert es == es[..k] + [p];
    if m > |p.key| {
      var v := Clip(p.val, m - |p.key| - 1);
      assert (es[..k] + [Pair(p.key, v)])[k].val == v;
    }
  }

  // ----- which buffers survive the text format

  ghost predicate AllOneLine(ls: Lines) {
    ls.Line? ==> OneLine(ls.text) && AllOneLine(ls.rest)
  }

  lemma {:induction false} LinesAreLines(cur: string, s: string)
    requires OneLine(cur)
    ensures AllOneLine(LinesFrom(cur, s))
    decreases |s|
  {
    if s != [] {
      LinesAreLines(if s[0] == '\n' then [] else cur + [s[0]], s[1..]);
    }
  }

  lemma {:induction false} PutKeepsPlain(es: Entries, p: Pair<string, string>)
    requires AllPlain(es) && Plain(p)
    ensures AllPlain(Put(es, p.key, p.val, 64))
  {
    var r := Put(es, p.key, p.val, 64);
    forall i | 0 <= i < |r|
      ensures Plain(r[i])
    {
      if i < |es| { assert Plain(es[i]); }
    }
  }

  /** Only pairs that survive the format are ever read from a text. */
  lemma {:induction false} ParsedIsPlain(es: Entries, ls: Lines)
    requires AllPlain(es) && AllOneLine(ls)
    ensures AllPlain(ApplyLines(es, ls))
    decreases ls
  {
    if ls.Line? {
      LineIsPlain(es, ls.text);
      ParsedIsPlain(ApplyLine(es, ls.text), ls.rest);
    }
  }

  lemma {:induction false} LineIsPlain(es: Entries, l: string)
    requires AllPlain(es) && OneLine(l)
    ensures AllPlain(ApplyLine(es, l))
  {
    if Assignment(l).Some? {
      assert Plain(Assignment(l).value);
      PutKeepsPlain(es, Assignment(l).value);
    }
  }

  lemma {:induction false} SizedLine(es: Entries, l: string)
    requires AllSized(es)
    ensures AllSized(ApplyLine(es, l))
  {
    var r := ApplyLine(es, l);
    forall i | 0 <= i < |r|
      ensures Sized(r[i])
    {
      if i < |es| { assert Sized(es[i]); }
    }
  }
}
