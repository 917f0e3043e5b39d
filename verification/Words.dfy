/** Splitting a command line into words at spaces, and finding the n-th word by scanning. */
module Words {
  import opened Common

  /** The words of a text, `cur` being the part of the first one already read. */
  ghost function WordsFrom(cur: string, s: string): seq<string>
    decreases |s|
  {
    if s == [] then Finish(cur)
    else if s[0] == ' ' then Finish(cur) + WordsFrom([], s[1..])
    else WordsFrom(cur + [s[0]], s[1..])
  }

  ghost function Finish(cur: string): seq<string> {
    if cur == [] then [] else [cur]
  }

  ghost function WordsOf(s: string): seq<string> {
    WordsFrom([], s)
  }

  /** A word: not empty, no space in it. */
  ghost predicate IsWord(w: string) {
    w != [] && forall i :: 0 <= i < |w| ==> w[i] != ' '
  }

  ghost predicate AllWords(ws: seq<string>) {
    forall i {:trigger IsWord(ws[i])} :: 0 <= i < |ws| ==> IsWord(ws[i])
  }

  // ----- scanning

  lemma {:induction false} ScanStep(s: string, i: nat, cur: string)
    requires i < |s|
    ensures s[i] == ' ' ==> WordsFrom(cur, s[i..]) == Finish(cur) + WordsFrom([], s[i + 1..])
    ensures s[i] != ' ' ==> WordsFrom(cur, s[i..]) == WordsFrom(cur + [s[i]], s[i + 1..])
  {
    assert s[i..][1..] == s[i + 1..];
  }

  method WordCount(s: string) returns (n: nat)
    ensures n == |WordsOf(s)|
  {
    n := 0;
    var inWord := false;
    ghost var done, cur: string := [], [];
    assert s[0..] == s;
    for i := 0 to |s|
      invariant WordsOf(s) == done + WordsFrom(cur, s[i..])
      invariant inWord == (cur != []) && n == |done| + (if inWord then 1 else 0)
    {
      ScanStep(s, i, cur);
      if s[i] == ' ' {
        ghost var was := done;
        inWord := false;
        done, cur := done + Finish(cur), [];
        assert was + (Finish(cur) + WordsFrom([], s[i + 1..])) == was + Finish(cur) + WordsFrom([], s[i + 1..]);
      } else {
        if !inWord { inWord, n := true, n + 1; }
        cur := cur + [s[i]];
      }
    }
    assert s[|s|..] == [];
  }

  /** Up to position `i`: the finished words, and the one being read, which starts at `start`. */
  ghost predicate Scanned(s: string, i: nat, done: seq<string>, cur: string, start: nat)
    requires i <= |s|
  {
    && WordsOf(s) == done + WordsFrom(cur, s[i..])
    && start <= i && (cur != [] ==> cur == s[start..i])
  }

  lemma {:induction false} ScannedStep(s: string, i: nat, done: seq<string>, cur: string, start: nat)
    requires i < |s| && Scanned(s, i, done, cur, start)
    ensures s[i] == ' ' ==> Scanned(s, i + 1, done + Finish(cur), [], start)
    ensures s[i] != ' ' ==> Scanned(s, i + 1, done, cur + [s[i]], if cur == [] then i else start)
    ensures s[i] == ' ' && cur != [] ==> |WordsOf(s)| > |done| && WordsOf(s)[|done|] == s[start..i]
  {
    ScanStep(s, i, cur);
    if s[i] == ' ' {
      Regroup(done, Finish(cur), WordsFrom([], s[i + 1..]));
    } else if cur != [] {
      assert s[start..i] + [s[i]] == s[start..i + 1];
    }
  }

  lemma {:induction false} ScannedAll(s: string, done: seq<string>, cur: string, start: nat)
    requires Scanned(s, |s|, done, cur, start)
    ensures WordsOf(s) == done + Finish(cur)
  {
    assert s[|s|..] == [];
  }

  /** Position and length of the n-th word (from 1), or -1 when there is none. */
  method NthWord(s: string, n: int) returns (start: int, wlen: nat)
    ensures start == -1 <==> !(1 <= n <= |WordsOf(s)|)
    ensures start != -1 ==> 0 <= start <= start + wlen <= |s| && s[start..start + wlen] == WordsOf(s)[n - 1]
  {
    var idx, inWord, i := 0, false, 0;
    start := 0;
    ghost var done: seq<string> := [];
    ghost var cur: string := [];
    assert s[0..] == s;
    while i < |s|
      invariant 0 <= start <= i <= |s| && Scanned(s, i, done, cur, start)
      invariant inWord == (cur != []) && idx == |done| + (if inWord then 1 else 0)
      invariant |done| < n || n <= 0
    {
      ScannedStep(s, i, done, cur, start);
      if s[i] == ' ' {
        if inWord && idx == n { return start, i - start; }
        done, cur, inWord := done + Finish(cur), [], false;
      } else {
        if !inWord { inWord, idx, start := true, idx + 1, i; }
        cur := cur + [s[i]];
      }
      i := i + 1;
    }
    ScannedAll(s, done, cur, start);
    if inWord && idx == n { return start, i - start; }
    return -1, 0;
  }

  // ----- joining

  /** The words with single spaces between them, behind `front`. */
  ghost function JoinFrom(front: string, ws: seq<string>): string
    decreases |ws|
  {
    if ws == [] then front
    else JoinFrom(if front == [] then ws[0] else front + (" " + ws[0]), ws[1..])
  }

  ghost function Join(ws: seq<string>): string {
    JoinFrom([], ws)
  }

  lemma {:induction false} WordAhead(cur: string, w: string, rest: string)
    requires forall i :: 0 <= i < |w| ==> w[i] != ' '
    ensures WordsFrom(cur, w + rest) == WordsFrom(cur + w, rest)
    decreases |w|
  {
    if w == [] {
      assert w + rest == rest && cur + w == cur;
    } else {
      WordAhead(cur + [w[0]], w[1..], rest);
      assert (w + rest)[1..] == w[1..] + rest && (cur + [w[0]]) + w[1..] == cur + w;
    }
  }

  /** Adding a word behind a space adds a word. */
  lemma {:induction false} WordBehind(cur: string, front: string, w: string)
    requires IsWord(w)
    ensures WordsFrom(cur, front + (" " + w)) == WordsFrom(cur, front) + [w]
    decreases |front|
  {
    if front == [] {
      assert front + (" " + w) == " " + w && (" " + w)[1..] == w;
      WordAhead([], w, []);
      assert w + [] == w && [] + w == w;
    } else {
      var cur' := if front[0] == ' ' then [] else cur + [front[0]];
      assert (front + (" " + w))[1..] == front[1..] + (" " + w);
      WordBehind(cur', front[1..], w);
      if front[0] == ' ' {
        Regroup(Finish(cur), WordsFrom([], front[1..]), [w]);
      }
    }
  }

  lemma {:induction false} JoinFromSplits(front: string, ws: seq<string>)
    requires AllWords(ws)
    ensures WordsOf(JoinFrom(front, ws)) == WordsOf(front) + ws
    decreases |ws|
  {
    if ws != [] {
      var w := ws[0];
      assert IsWord(w);
      var next := if front == [] then w else front + (" " + w);
      if front == [] {
        WordAhead([], w, []);
        assert w + [] == w && [] + w == w;
      } else {
        WordBehind([], front, w);
      }
      forall i | 0 <= i < |ws[1..]|
        ensures IsWord(ws[1..][i])
      {
        assert IsWord(ws[i + 1]);
      }
      JoinFromSplits(next, ws[1..]);
      assert ws == [w] + ws[1..];
    }
  }

  /** Splitting undoes joining. */
  lemma {:induction false} SplitOfJoin(ws: seq<string>)
    requires AllWords(ws)
    ensures WordsOf(Join(ws)) == ws
  {
    JoinFromSplits([], ws);
  }

  lemma {:induction false} SplitGivesWords(cur: string, s: string)
    requires cur == [] || IsWord(cur)
    ensures AllWords(WordsFrom(cur, s))
    decreases |s|
  {
    if s != [] {
      if s[0] == ' ' {
        SplitGivesWords([], s[1..]);
        var rest := WordsFrom([], s[1..]);
        forall i | 0 <= i < |Finish(cur) + rest|
          ensures IsWord((Finish(cur) + rest)[i])
        {
          var n := |Finish(cur)|;
          assert i >= n ==> IsWord(rest[i - n]);
        }
      } else {
        SplitGivesWords(cur + [s[0]], s[1..]);
      }
    }
  }

  // ----- words at any spacing

  ghost predicate AllSpaces(s: string) {
    forall i :: 0 <= i < |s| ==> s[i] == ' '
  }

  /** Words with spaces behind them, as many as `gaps` says. */
  ghost function Spaced(ws: seq<string>, gaps: seq<string>): string
    requires |ws| == |gaps|
    decreases |ws|
  {
    if ws == [] then "" else ws[0] + (gaps[0] + Spaced(ws[1..], gaps[1..]))
  }

  lemma {:induction false} SpacesAhead(cur: string, gap: string, rest: string)
    requires AllSpaces(gap) && gap != []
    ensures WordsFrom(cur, gap + rest) == Finish(cur) + WordsFrom([], rest)
    decreases |gap|
  {
    assert (gap + rest)[1..] == gap[1..] + rest;
    if |gap| > 1 {
      SpacesAhead([], gap[1..], rest);
    } else {
      assert gap[1..] + rest == rest;
    }
  }

  /** The words of a text are found whatever the number of spaces before, between and behind them. */
  lemma {:induction false} SplitOfSpaced(front: string, ws: seq<string>, gaps: seq<string>)
    requires AllSpaces(front) && AllWords(ws) && |ws| == |gaps|
    requires forall i {:trigger AllSpaces(gaps[i])} :: 0 <= i < |gaps| ==> AllSpaces(gaps[i]) && (gaps[i] != [] || i == |gaps| - 1)
    ensures WordsOf(front + Spaced(ws, gaps)) == ws
    decreases |ws|
  {
    var text := Spaced(ws, gaps);
    if front != [] {
      SpacesAhead([], front, text);
    } else {
      assert front + text == text;
    }
    if ws != [] {
      var rest := Spaced(ws[1..], gaps[1..]);
      assert IsWord(ws[0]) && AllSpaces(gaps[0]);
      AllWordsTail(ws);
      SplitOfSpaced([], ws[1..], gaps[1..]);
      assert [] + rest == rest;
      WordAhead([], ws[0], gaps[0] + rest);
      assert [] + ws[0] == ws[0];
      if gaps[0] != [] {
        SpacesAhead(ws[0], gaps[0], rest);
      }
    }
  }

  lemma {:induction false} AllWordsTail(ws: seq<string>)
    requires AllWords(ws) && ws != []
    ensures AllWords(ws[1..])
  {
    forall i | 0 <= i < |ws[1..]|
      ensures IsWord(ws[1..][i])
    {
      assert IsWord(ws[i + 1]);
    }
  }
}
