/** The resolver's result buffer: 512 bytes, written word by word, and what its size does to the
    resolved command. */
module AbbrevBuffer {
  import opened Common
  import opened Words
  import opened Abbrev

  const MAX_LINE: int := 512

  function AddWord(front: string, w: Word): string {
    if front == [] then w else front + (" " + w)
  }

  /** Room for the word, its space and the terminator? */
  predicate Fits(t: string, w: Word) {
    |AddWord(t, w)| < MAX_LINE
  }

  /** The text after one word: the space goes in without a test, a word that does not fit is dropped. */
  function Append(t: string, w: Word): string {
    if Fits(t, w) then AddWord(t, w) else AddWord(t, [])
  }

  /** In numbers: a word goes in behind a space while text, space and word have at most 511
      characters; else the space alone does. */
  lemma {:induction false} AppendExactly(t: string, w: Word)
    ensures t != [] ==> Append(t, w) == if |t| + 1 + |w| <= 511 then t + " " + w else t + " "
    ensures Append([], w) == if |w| <= 511 then w else []
  {
  }

  /** `Overrun`: the terminator was to be stored behind the buffer's last byte. */
  datatype Outcome = Written(text: string) | Refused | Overrun

  /** Words written one after the other. */
  ghost function Pass(t: string, ws: seq<Word>): Outcome
    decreases |ws|
  {
    if |t| >= MAX_LINE then Overrun
    else if ws == [] then Written(t)
    else Pass(Append(t, ws[0]), ws[1..])
  }

  /** Resolution as far as the buffer lets it: behind a dropped word nothing is resolved any more. */
  ghost function Bounded(reg: Paths, done: seq<Word>, t: string, input: seq<Word>): Outcome
    decreases |input|
  {
    if |t| >= MAX_LINE then Overrun
    else if input == [] then Written(t)
    else match Choice(reg, done, input[0])
      case Some(c) =>
        if Fits(t, c) then Bounded(reg, done + [c], Append(t, c), input[1..]) else Pass(Append(t, c), input[1..])
      case None => if |Extensions(reg, done, input[0])| > 1 then Refused else Pass(t, input)
  }

  /** What the resolver answers to a typed line. */
  ghost function Answer(comps: seq<string>, input: string): Outcome {
    Bounded(Registry(comps), [], [], WordsOf(input))
  }

  // ----- what the buffer does to the result

  lemma {:induction false} JoinSnoc(front: string, ws: seq<Word>, w: Word)
    ensures JoinFrom(front, ws + [w]) == AddWord(JoinFrom(front, ws), w)
    decreases |ws|
  {
    if ws == [] {
      assert (ws + [w])[1..] == [];
    } else {
      JoinSnoc(AddWord(front, ws[0]), ws[1..], w);
      assert (ws + [w])[1..] == ws[1..] + [w];
    }
  }

  lemma {:induction false} JoinFromGrows(front: string, ws: seq<Word>)
    ensures |front| <= |JoinFrom(front, ws)|
    decreases |ws|
  {
    if ws != [] { JoinFromGrows(AddWord(front, ws[0]), ws[1..]); }
  }

  lemma {:induction false} JoinSplit(front: string, a: seq<Word>, b: seq<Word>)
    ensures JoinFrom(front, a + b) == JoinFrom(JoinFrom(front, a), b)
    decreases |a|
  {
    if a == [] {
      assert a + b == b;
    } else {
      JoinSplit(AddWord(front, a[0]), a[1..], b);
      assert (a + b)[1..] == a[1..] + b;
    }
  }

  /** Some of the words never take more room than all of them. */
  lemma {:induction false} JoinGrows(a: seq<Word>, ws: seq<Word>)
    requires a <= ws
    ensures |Join(a)| <= |Join(ws)|
  {
    JoinSplit([], a, ws[|a|..]);
    assert a + ws[|a|..] == ws;
    JoinFromGrows(Join(a), ws[|a|..]);
  }

  /** Words that fit all together are written as they are. */
  lemma {:induction false} PassWhenItFits(t: string, ws: seq<Word>)
    requires |JoinFrom(t, ws)| < 512
    ensures Pass(t, ws) == Written(JoinFrom(t, ws))
    decreases |ws|
  {
    JoinFromGrows(t, ws);
    if ws != [] {
      JoinFromGrows(AddWord(t, ws[0]), ws[1..]);
      PassWhenItFits(AddWord(t, ws[0]), ws[1..]);
    }
  }

  lemma {:induction false} PassIsShort(t: string, ws: seq<Word>)
    ensures Pass(t, ws) != Refused && (Pass(t, ws).Written? ==> |Pass(t, ws).text| < 512)
    decreases |ws|
  {
    if |t| < MAX_LINE && ws != [] { PassIsShort(Append(t, ws[0]), ws[1..]); }
  }

  /** The answer is the resolved text if and only if that text fits the buffer with its terminator;
      an ambiguity is noticed if and only if the words before it fit. */
  lemma {:induction false} ExactWhenItFits(reg: Paths, done: seq<Word>, input: seq<Word>)
    requires |Join(done)| < 512
    ensures var b, r := Bounded(reg, done, Join(done), input), Resolve(reg, done, input);
            && (r.Resolved? ==> (b == Written(Join(r.words)) <==> |Join(r.words)| < 512))
            && (b == Refused <==> r.Ambiguous? && |Join(r.done)| < 512)
    decreases |input|
  {
    if input != [] {
      var t, r, rest := Join(done), Resolve(reg, done, input), input[1..];
      match Choice(reg, done, input[0])
      case None =>
        JoinSplit([], done, input);
        PassIsShort(t, input);
        if |Join(done + input)| < MAX_LINE { PassWhenItFits(t, input); }
      case Some(c) =>
        JoinSnoc([], done, c);
        if Fits(t, c) {
          ExactWhenItFits(reg, done + [c], rest);
        } else {
          PassIsShort(Append(t, c), rest);
          ResolveKeeps(reg, done + [c], rest);
          JoinGrows(done + [c], if r.Resolved? then r.words else r.done);
        }
    }
  }

  lemma {:induction false} ResolveKeeps(reg: Paths, done: seq<Word>, input: seq<Word>)
    ensures var r := Resolve(reg, done, input); done <= if r.Resolved? then r.words else r.done
    decreases |input|
  {
    if input != [] && Choice(reg, done, input[0]).Some? {
      ResolveKeeps(reg, done + [Choice(reg, done, input[0]).value], input[1..]);
    }
  }

  /** The words resolved before the first that is dropped or has no candidate, that one included if dropped. */
  ghost function Front(reg: Paths, done: seq<Word>, t: string, input: seq<Word>): seq<Word>
    decreases |input|
  {
    if |t| >= MAX_LINE || input == [] then done
    else match Choice(reg, done, input[0])
      case Some(c) => if Fits(t, c) then Front(reg, done + [c], Append(t, c), input[1..]) else done + [c]
      case None => done
  }

  /** The words handed to the buffer, one after the other. */
  ghost function Attempts(reg: Paths, done: seq<Word>, t: string, input: seq<Word>): seq<Word>
    decreases |input|
  {
    if |t| >= MAX_LINE || input == [] then input
    else match Choice(reg, done, input[0])
      case Some(c) => [c] + (if Fits(t, c) then Attempts(reg, done + [c], Append(t, c), input[1..]) else input[1..])
      case None => input
  }

  lemma {:induction false} BoundedIsPass(reg: Paths, done: seq<Word>, t: string, input: seq<Word>)
    ensures var b := Bounded(reg, done, t, input); b != Refused ==> b == Pass(t, Attempts(reg, done, t, input))
    decreases |input|
  {
    if |t| < MAX_LINE && input != [] && Choice(reg, done, input[0]).Some? {
      var c := Choice(reg, done, input[0]).value;
      var ws := Attempts(reg, done, t, input);
      if Fits(t, c) {
        BoundedIsPass(reg, done + [c], Append(t, c), input[1..]);
        assert ws[1..] == Attempts(reg, done + [c], Append(t, c), input[1..]);
      } else {
        assert ws[1..] == input[1..];
      }
    }
  }

  lemma {:induction false} FrontAfter(reg: Paths, done: seq<Word>, t: string, input: seq<Word>, rest: seq<Word>)
    requires Chain(reg, done, input) && rest == input[|done|..]
    ensures var p := Front(reg, done, t, rest);
            Chain(reg, p, input) && done + Attempts(reg, done, t, rest) == p + input[|p|..]
    decreases |rest|
  {
    if |t| < MAX_LINE && rest != [] && Choice(reg, done, rest[0]).Some? {
      var c, rest' := Choice(reg, done, rest[0]).value, rest[1..];
      ChainGrows(reg, done, input);
      assert rest' == input[|done| + 1..];
      if Fits(t, c) {
        FrontAfter(reg, done + [c], Append(t, c), input, rest');
        Regroup(done, [c], Attempts(reg, done + [c], Append(t, c), rest'));
      } else {
        Regroup(done, [c], rest');
      }
    }
  }

  /** What is written in every other case too: the front of the command resolved by a chain of
      choices, the rest as typed, word by word into the buffer. */
  lemma {:induction false} WhatIsWritten(reg: Paths, input: seq<Word>)
    ensures var p := Front(reg, [], [], input);
            && Chain(reg, p, input) && Attempts(reg, [], [], input) == p + input[|p|..]
            && (Bounded(reg, [], [], input) != Refused
                ==> Bounded(reg, [], [], input) == Pass([], p + input[|p|..]))
  {
    BoundedIsPass(reg, [], [], input);
    FrontAfter(reg, [], [], input, input);
    assert [] + Attempts(reg, [], [], input) == Attempts(reg, [], [], input);
  }

  /** The buffer's contents after some words. */
  ghost function Wrote(t: string, ws: seq<Word>): string
    decreases |ws|
  {
    if ws == [] then t else Append(Wrote(t, ws[..|ws| - 1]), ws[|ws| - 1])
  }

  lemma {:induction false} WroteSplit(t: string, w: Word, ws: seq<Word>)
    ensures Wrote(t, [w] + ws) == Wrote(Append(t, w), ws)
    decreases |ws|
  {
    if ws == [] {
      assert [w] + ws == [w] && [w][..0] == [];
      assert Wrote(t, [w][..0]) == t;
    } else {
      var n := |ws| - 1;
      WroteSplit(t, w, ws[..n]);
      assert ([w] + ws)[..n + 1] == [w] + ws[..n] && ([w] + ws)[n + 1] == ws[n];
    }
  }

  /** The last byte of the buffer is reached with a word still to come. */
  ghost predicate FullBefore(t: string, ws: seq<Word>, k: nat) {
    k < |ws| && |Wrote(t, ws[..k])| == 511
  }

  /** Writing leaves the buffer exactly when it is full to its last byte before the last word. */
  lemma {:induction false} OverrunExactly(t: string, ws: seq<Word>)
    requires |t| < 512
    ensures Pass(t, ws) == Overrun <==> exists k: nat :: FullBefore(t, ws, k)
    decreases |ws|
  {
    if ws != [] {
      var w, rest := ws[0], ws[1..];
      assert ws[..0] == [];
      forall k | 0 <= k < |rest|
        ensures FullBefore(t, ws, k + 1) <==> FullBefore(Append(t, w), rest, k)
      {
        assert ws[..k + 1] == [w] + rest[..k];
        WroteSplit(t, w, rest[..k]);
      }
      if |t| == MAX_LINE - 1 {
        assert FullBefore(t, ws, 0);
      } else {
        assert !FullBefore(t, ws, 0);
        OverrunExactly(Append(t, w), rest);
        if k: nat :| FullBefore(t, ws, k) {
          assert FullBefore(Append(t, w), rest, k - 1);
        }
        if k: nat :| FullBefore(Append(t, w), rest, k) {
          assert FullBefore(t, ws, k + 1);
        }
      }
    }
  }

  /** A chain of choices that fits the buffer leads to an ambiguous word. */
  ghost predicate AmbiguityInReach(reg: Paths, input: seq<Word>) {
    exists p :: LeadsToAmbiguity(reg, input, p) && |Join(p)| < 512
  }

  lemma {:induction false} RefusesExactly(reg: Paths, input: seq<Word>)
    ensures Bounded(reg, [], [], input) == Refused <==> AmbiguityInReach(reg, input)
  {
    ExactWhenItFits(reg, [], input);
    var r := Resolve(reg, [], input);
    if r.Ambiguous? {
      FailsExactlyWhenAmbiguous(reg, input, r.done);
      assert LeadsToAmbiguity(reg, input, r.done);
    }
    if AmbiguityInReach(reg, input) {
      var p :| LeadsToAmbiguity(reg, input, p) && |Join(p)| < 512;
      FailsExactlyWhenAmbiguous(reg, input, p);
    }
  }

  /** The resolver writes behind its buffer if and only if no ambiguity stops it and the buffer is full
      to its last byte with a word still to come. */
  lemma {:induction false} AnswerOverrunsExactly(reg: Paths, input: seq<Word>)
    ensures Bounded(reg, [], [], input) == Overrun
            <==> !AmbiguityInReach(reg, input) && exists k: nat :: FullBefore([], Attempts(reg, [], [], input), k)
  {
    RefusesExactly(reg, input);
    BoundedIsPass(reg, [], [], input);
    OverrunExactly([], Attempts(reg, [], [], input));
  }

  // ----- a line that overruns the buffer

  ghost function Zs(n: nat): seq<Word> {
    if n == 0 then [] else Zs(n - 1) + ["z"]
  }

  ghost function ZText(front: string, n: nat): string {
    if n == 0 then front else ZText(front, n - 1) + (" " + "z")
  }

  lemma {:induction false} ZWords(front: string, n: nat)
    ensures WordsOf(ZText(front, n)) == WordsOf(front) + Zs(n) && |ZText(front, n)| == |front| + 2 * n
    decreases n
  {
    if n > 0 {
      ZWords(front, n - 1);
      WordBehind([], ZText(front, n - 1), "z");
    }
  }

  lemma {:induction false} ZsFirst(n: nat)
    ensures |Zs(n)| == n && (n > 0 ==> Zs(n)[0] == "z" && Zs(n)[1..] == Zs(n - 1))
  {
    if n > 1 { ZsFirst(n - 1); }
  }

  /** One-letter words behind a text of odd length end on the last byte, and one more is too many. */
  lemma {:induction false} ZsOverrun(t: string, n: nat)
    requires |t| % 2 == 1 && |t| < 512
    ensures Pass(t, Zs(n)) == Overrun <==> |t| + 2 * n >= 512
    decreases n
  {
    ZsFirst(n);
    if n > 0 && |t| < MAX_LINE - 1 {
      ZsOverrun(AddWord(t, "z"), n - 1);
    } else if n > 0 {
      assert Pass(Append(t, "z"), Zs(n - 1)) == Overrun;
    }
  }

  /** Where "conf" stands for `configure`, and no word after it starts with "z". */
  ghost predicate KnowsConfigure(reg: Paths) {
    && Choice(reg, [], "conf") == Some("configure")
    && Choice(reg, ["configure"], "z") == None && Extensions(reg, ["configure"], "z") == {}
  }

  /** Whatever else is registered, "conf" and `n` times " z" overrun the buffer from n = 252 on, at 508
      characters typed. */
  lemma {:induction false} ALineThatOverruns(comps: seq<string>, n: nat)
    requires KnowsConfigure(Registry(comps))
    ensures |ZText("conf", n)| == 4 + 2 * n
    ensures Answer(comps, ZText("conf", n)) == Overrun <==> n >= 252
  {
    var reg, input := Registry(comps), ["conf"] + Zs(n);
    ZWords("conf", n);
    WordIsOneWord("conf");
    ZsFirst(n);
    assert input[1..] == Zs(n);
    assert [] + ["configure"] == ["configure"];
    ZsOverrun("configure", n);
    assert Bounded(reg, ["configure"], "configure", Zs(n)) == Pass("configure", Zs(n));
  }

  /** The smallest such registry. */
  lemma {:induction false} OnlyConfigure(reg: Paths)
    requires reg == Registry(["configure"])
    ensures KnowsConfigure(reg)
  {
    WordIsOneWord("configure");
    assert reg == {["configure"]} by {
      assert ["configure"][0] == "configure";
    }
    assert Next(reg, []) == {"configure"} by {
      assert ["configure"][..0] == [];
    }
    assert Extends("conf", "configure") && "conf" != "configure";
    assert Extensions(reg, [], "conf") == {"configure"};
    assert Next(reg, ["configure"]) == {};
    assert Extensions(reg, ["configure"], "z") == {};
  }

  lemma {:induction false} WordIsOneWord(w: string)
    requires IsWord(w)
    ensures WordsOf(w) == [w]
  {
    WordAhead([], w, []);
    assert w + [] == w && [] + w == w;
  }

  // ----- the scanning code

  /** One word into the buffer; `over` when the terminator has no place left in it. */
  method Put(buf: array<char>, rpos: nat, w: Word) returns (rpos': nat, over: bool)
    requires buf.Length == 512 && rpos < 512
    modifies buf
    ensures over <==> |Append(old(buf[..rpos]), w)| >= 512
    ensures !over ==> rpos' < 512 && buf[..rpos'] == Append(old(buf[..rpos]), w)
  {
    ghost var t := buf[..rpos];
    rpos' := rpos;
    if rpos' > 0 {
      buf[rpos'] := ' ';
      rpos' := rpos' + 1;
    }
    assert buf[..rpos'] == AddWord(t, []);
    if rpos' + |w| < MAX_LINE {
      forall k | 0 <= k < |w| {
        buf[rpos' + k] := w[k];
      }
      ghost var s := AddWord(t, []);
      assert buf[..rpos'] == s;
      rpos' := rpos' + |w|;
      assert buf[..rpos'] == s + w;
      assert s + w == AddWord(t, w);
    }
    over := rpos' >= MAX_LINE;
    if !over {
      ghost var s := buf[..rpos'];
      buf[rpos'] := '\0';
      assert buf[..rpos'] == s;
    }
  }

  /** No match: the remaining words are taken as they are. */
  method PassThrough(input: string, buf: array<char>, rpos0: nat, depth: nat, nwords: nat) returns (rpos: nat, over: bool)
    requires 1 <= depth <= nwords == |WordsOf(input)| && buf.Length == 512 && rpos0 < 512
    modifies buf
    ensures rpos < 512
    ensures Pass(old(buf[..rpos0]), WordsOf(input)[depth - 1..]) == if over then Overrun else Written(buf[..rpos])
  {
    ghost var words := WordsOf(input);
    ghost var goal := Pass(buf[..rpos0], words[depth - 1..]);
    rpos, over := rpos0, false;
    for d := depth to nwords + 1
      invariant rpos < MAX_LINE && goal == Pass(buf[..rpos], words[d - 1..])
    {
      var s, l := NthWord(input, d);
      assert words[d - 1..][0] == words[d - 1] && words[d - 1..][1..] == words[d..];
      var next;
      next, over := Put(buf, rpos, input[s..s + l]);
      if over { return; }
      rpos := next;
    }
    assert words[nwords..] == [];
  }

  /** The words of a text are those the buffer holds, however many spaces end it. */
  lemma {:induction false} SpaceBehind(cur: string, t: string)
    ensures WordsFrom(cur, t + " ") == WordsFrom(cur, t)
    decreases |t|
  {
    if t == [] {
      assert t + " " == " " && " "[1..] == [];
      assert Finish(cur) + [] == Finish(cur);
    } else {
      assert (t + " ")[1..] == t[1..] + " ";
      SpaceBehind(if t[0] == ' ' then [] else cur + [t[0]], t[1..]);
    }
  }

  /** The words held after a word has been chosen: one more, or as before when it is dropped. */
  lemma {:induction false} WordsAfter(t: string, done: seq<Word>, c: Word)
    requires WordsOf(t) == done && IsWord(c)
    ensures WordsOf(Append(t, c)) == if Fits(t, c) then done + [c] else done
  {
    if Fits(t, c) {
      if t == [] { WordIsOneWord(c); } else { WordBehind([], t, c); }
    } else if t != [] {
      assert " " + [] == " ";
      SpaceBehind([], t);
    }
  }

  /** The resolver: -1 for an ambiguous command, else the text that `Answer` gives, cut to the
      caller's buffer. `over`: it has written behind its own buffer. */
  method ResolveCmd(comps: seq<string>, input: string, outSize: nat) returns (r: int, output: string, over: bool)
    ensures over <==> Answer(comps, input) == Overrun
    ensures !over ==> r == if Answer(comps, input) == Refused then -1 else 0
    ensures Answer(comps, input).Written? ==> output == Shown(Answer(comps, input).text, outSize)
  {
    var buf := new char[MAX_LINE](_ => '\0');
    var rpos: nat := 0;
    r, output, over := 0, [], false;
    ghost var reg, words, goal := Registry(comps), WordsOf(input), Answer(comps, input);
    ghost var done: seq<Word> := [];
    ghost var dropped := false;
    var nwords := WordCount(input);
    assert words[0..] == words && buf[..0] == [];
    for depth := 1 to nwords + 1
      invariant rpos < MAX_LINE && r == 0 && !over
      invariant OnTheWay(comps, words, buf[..rpos], depth, done, dropped, goal)
    {
      var s, l := NthWord(input, depth);
      var iw := input[s..s + l];
      var exact, word, cands := Candidates(comps, buf[..rpos], done, depth, iw);
      Decide(comps, words, buf[..rpos], depth, done, dropped, goal, exact, word, cands);
      if exact || |cands| == 1 {
        ghost var t := buf[..rpos];
        var c := if exact then word else cands[0];
        rpos, over := Put(buf, rpos, c);
        if over { return; }
        if Fits(t, c) { done := done + [c]; } else { dropped := true; }
      } else if |cands| > 1 {
        r := -1;
        return;
      } else {
        rpos, over := PassThrough(input, buf, rpos, depth, nwords);
        output := Shown(buf[..rpos], outSize);
        return;
      }
    }
    assert words[nwords..] == [];
    output := Shown(buf[..rpos], outSize);
  }

  /** The state before a depth: what the buffer holds leads to `goal`, and its words are the ones
      resolved so far, all but the last if that one was dropped. */
  ghost predicate OnTheWay(comps: seq<string>, words: seq<Word>, t: string, depth: nat, done: seq<Word>, dropped: bool, goal: Outcome) {
    && 1 <= depth <= |words| + 1 && |t| < 512 && WordsOf(t) == done
    && |done| == (if dropped then depth - 2 else depth - 1)
    && goal == if dropped then Pass(t, words[depth - 1..]) else Bounded(Registry(comps), done, t, words[depth - 1..])
  }

  /** What each decision at a depth means. */
  lemma {:induction false} Decide(comps: seq<string>, words: seq<Word>, t: string, depth: nat, done: seq<Word>, dropped: bool,
                                  goal: Outcome, exact: bool, word: Word, cands: seq<Word>)
    requires depth <= |words| && OnTheWay(comps, words, t, depth, done, dropped, goal)
    requires dropped ==> !exact && cands == []
    requires !dropped ==> (exact <==> words[depth - 1] in Next(Registry(comps), done))
    requires exact ==> word == Cut(words[depth - 1])
    requires !dropped && !exact ==> Collected(cands, Extensions(Registry(comps), done, words[depth - 1]))
    ensures exact || |cands| == 1 ==>
              var c := if exact then word else cands[0];
              var t' := Append(t, c);
              && !dropped && (|t'| >= 512 ==> goal == Overrun)
              && (|t'| < 512 ==> OnTheWay(comps, words, t', depth + 1, if Fits(t, c) then done + [c] else done, !Fits(t, c), goal))
    ensures !exact && |cands| > 1 ==> goal == Refused
    ensures !exact && cands == [] ==> goal == Pass(t, words[depth - 1..])
  {
    var reg, w, rest := Registry(comps), words[depth - 1], words[depth - 1..];
    assert rest[0] == w && rest[1..] == words[depth..];
    if !dropped {
      if !exact { CollectedCounts(cands, Extensions(reg, done, w)); }
      if exact || |cands| == 1 {
        var c := if exact then word else cands[0];
        assert Choice(reg, done, w) == Some(c);
        ChoiceIsWord(comps, done, w);
        WordsAfter(t, done, c);
      }
    }
  }

  /** A text as a buffer of `size` characters shows it. */
  function Shown(t: string, size: nat): (r: string)
    ensures r <= t && |r| == if |t| < size then |t| else if size == 0 then 0 else size - 1
  {
    if |t| < size then t else if size == 0 then [] else t[..size - 1]
  }

  // ----- a resolved command, typed again

  lemma {:induction false} ResolvedAreWords(comps: seq<string>, done: seq<Word>, input: seq<Word>)
    requires AllWords(done) && AllWords(input)
    ensures var r := Resolve(Registry(comps), done, input); r.Resolved? ==> AllWords(r.words)
    decreases |input|
  {
    if input != [] {
      if Choice(Registry(comps), done, input[0]).Some? {
        ChoiceIsWord(comps, done, input[0]);
        forall i | 0 <= i < |input[1..]|
          ensures IsWord(input[1..][i])
        {
          assert IsWord(input[i + 1]);
        }
        ResolvedAreWords(comps, done + [Choice(Registry(comps), done, input[0]).value], input[1..]);
      } else {
        forall i | 0 <= i < |done + input|
          ensures IsWord((done + input)[i])
        {
          assert i >= |done| ==> IsWord(input[i - |done|]);
        }
      }
    }
  }

  /** The answer to a command that resolves to a text that fits is that text, and typing the text
      again gives the same answer. */
  lemma {:induction false} ResolvedTextIsStable(comps: seq<string>, input: string)
    ensures var r := Resolve(Registry(comps), [], WordsOf(input));
            r.Resolved? && |Join(r.words)| < 512 ==>
              Answer(comps, input) == Written(Join(r.words)) == Answer(comps, Join(r.words))
  {
    var reg, r := Registry(comps), Resolve(Registry(comps), [], WordsOf(input));
    if r.Resolved? && |Join(r.words)| < 512 {
      SplitGivesWords([], input);
      ResolvedAreWords(comps, [], WordsOf(input));
      SplitOfJoin(r.words);
      ResolveIsIdempotent(reg, [], WordsOf(input));
      assert r.words[0..] == r.words;
      ExactWhenItFits(reg, [], WordsOf(input));
      ExactWhenItFits(reg, [], r.words);
    }
  }
}
