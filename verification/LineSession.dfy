/** A whole reading session: the line editor with the history arrows and Tab, over a byte stream. */
module LineSession {
  import opened Common
  import opened Utf8
  import opened LineEditor

  // ----- strings as C copies them

  function CStr(s: Bytes): (r: Bytes)
    ensures |r| <= |s|
  {
    if s == [] || s[0] == 0 then [] else [s[0]] + CStr(s[1..])
  }

  /** A string copied into a line buffer. */
  function Copy(s: Bytes): (r: Bytes)
    ensures |r| < MAX_LINE
  {
    if |CStr(s)| < MAX_LINE then CStr(s) else CStr(s)[..MAX_LINE - 1]
  }

  /** A copy is what stands in front of the first zero byte, or its first 511 bytes. */
  lemma {:induction false} CopyStopsAtZero(s: Bytes, rest: Bytes)
    requires forall i :: 0 <= i < |s| ==> s[i] != 0
    ensures CStr(s) == s && CStr(s + [0] + rest) == s
    ensures |s| <= 511 ==> Copy(s) == s && Copy(s + [0] + rest) == s
    ensures |s| > 511 ==> |Copy(s)| == 511 && Copy(s) <= s && Copy(s + [0] + rest) == Copy(s)
    decreases |s|
  {
    if s != [] {
      CopyStopsAtZero(s[1..], rest);
      assert s == [s[0]] + s[1..];
      assert (s + [0] + rest)[1..] == s[1..] + [0] + rest;
    }
  }

  // ----- history and completion

  /** What the session draws on: the saved lines, oldest first, and the completions of a line. */
  datatype Env = Env(hist: seq<Bytes>, complete: Bytes -> seq<Bytes>)

  datatype Tab = Idle | Cycling(matches: seq<Bytes>, idx: nat)

  /** The line, the place in the history (its length: none), the line put aside, and Tab's state. */
  datatype Editor = Editor(z: Zip, at: nat, saved: Bytes, tab: Tab)

  function TextOf(z: Zip): Bytes {
    z.before + z.after
  }

  function Shown(s: Bytes): Zip {
    Zip(Copy(s), [])
  }

  /** Up: one line back; the line being typed is put aside first. */
  function Older(env: Env, e: Editor): (r: Editor)
    requires e.at <= |env.hist|
    ensures r.at <= |env.hist| && (e.z.Size() < MAX_LINE ==> r.z.Size() < MAX_LINE)
  {
    var saved := if e.at == |env.hist| then Copy(TextOf(e.z)) else e.saved;
    if e.at > 0 then Editor(Shown(env.hist[e.at - 1]), e.at - 1, saved, Idle)
    else Editor(e.z, e.at, saved, Idle)
  }

  /** Down: one line on; behind the newest comes the line put aside. */
  function Newer(env: Env, e: Editor): (r: Editor)
    requires e.at <= |env.hist|
    ensures r.at <= |env.hist| && (e.z.Size() < MAX_LINE ==> r.z.Size() < MAX_LINE)
  {
    if e.at == |env.hist| then e.(tab := Idle)
    else Editor(Shown(if e.at + 1 == |env.hist| then e.saved else env.hist[e.at + 1]), e.at + 1, e.saved, Idle)
  }

  /** Tab: the completions of the line, one after the other, round and round. */
  function Complete(env: Env, e: Editor): (r: Editor)
    ensures r.at == e.at && (e.z.Size() < MAX_LINE ==> r.z.Size() < MAX_LINE)
  {
    var ms := if e.tab == Idle then env.complete(Copy(TextOf(e.z))) else e.tab.matches;
    var i := if e.tab == Idle then 0 else e.tab.idx + 1;
    if |ms| == 0 then e.(tab := Cycling(ms, i))
    else
      var j := if i < |ms| then i else 0;
      Editor(Shown(ms[j]), e.at, e.saved, Cycling(ms, j))
  }

  /** Keys that end a round of completions: typing, erasing, help. */
  predicate EndsTab(c: Byte) {
    c == 21 || c == 23 || c == 8 || c >= 32
  }

  // ----- one turn and a whole run

  datatype Step = Step(e: Editor, used: nat, ending: Ending)

  function KeyStep(env: Env, e: Editor, input: Bytes): (t: Step)
    requires e.at <= |env.hist| && input != []
    ensures 0 < t.used <= |input| && t.e.at <= |env.hist|
    ensures e.z.Size() < MAX_LINE ==> t.e.z.Size() < MAX_LINE
  {
    var t := Press(e.z, input);
    if t.ending == Recall then Step(Recalled(env, e, input), t.used, Open)
    else Step(Editor(t.z, e.at, e.saved, if EndsTab(input[0]) then Idle else e.tab), t.used, t.ending)
  }

  function Recalled(env: Env, e: Editor, input: Bytes): (r: Editor)
    requires e.at <= |env.hist| && input != []
    ensures r.at <= |env.hist| && (e.z.Size() < MAX_LINE ==> r.z.Size() < MAX_LINE)
  {
    if input[0] == 9 then Complete(env, e)
    else if |input| > 2 && input[2] == 65 then Older(env, e)
    else Newer(env, e)
  }

  lemma {:induction false} RecallLeavesTheLine(z: Zip, input: Bytes)
    requires input != [] && Press(z, input).ending == Recall
    ensures Press(z, input).z == z
  {
  }

  datatype Outcome = Outcome(e: Editor, ending: Ending)

  function Run(env: Env, e: Editor, input: Bytes): (r: Outcome)
    requires e.at <= |env.hist|
    ensures r.e.at <= |env.hist| && (e.z.Size() < MAX_LINE ==> r.e.z.Size() < MAX_LINE)
    decreases |input|
  {
    if input == [] then Outcome(e, Open)
    else
      var t := KeyStep(env, e, input);
      if t.ending == Open then Run(env, t.e, input[t.used..]) else Outcome(t.e, t.ending)
  }

  /** What a reader of lines gets: the line on Enter, an empty one on Ctrl-C, otherwise the
      end of input. */
  function Answer(r: Outcome): Option<Bytes> {
    match r.ending
    case Entered => Some(Copy(TextOf(r.e.z)))
    case Cancelled => Some([])
    case _ => None
  }

  /** Enter ends any run with the line as it stands, Ctrl-C with an empty one, and Ctrl-D ends
      it on an empty line only; no byte behind them is looked at. */
  lemma {:induction false} EndOfLine(env: Env, e: Editor, c: Byte, rest: Bytes)
    requires e.at <= |env.hist|
    ensures var r := Run(env, e, [c] + rest);
            && (c == 13 || c == 10 ==> r.ending == Entered && r.e.z == e.z && r.e.at == e.at && r.e.saved == e.saved)
            && (c == 3 ==> r.ending == Cancelled && TextOf(r.e.z) == [])
            && (c == 4 && TextOf(e.z) == [] ==> r.ending == Eof && TextOf(r.e.z) == [])
            && (c == 4 && TextOf(e.z) != [] ==> r == Run(env, e.(z := DeleteAhead(e.z)), rest))
  {
    var input := [c] + rest;
    assert input[0] == c && input[1..] == rest;
  }

  // ----- the session itself

  class Session {
    const line: Line
    var at: nat
    var saved: Bytes
    var tab: Tab

    ghost predicate Valid(env: Env)
      reads this, line, line.buf
    {
      line.Valid() && at <= |env.hist|
    }

    ghost function State(): Editor
      requires line.Valid()
      reads this, line, line.buf
    {
      Editor(line.Value(), at, saved, tab)
    }

    /** A session starts with the fragment a paste has left, if any. */
    constructor (env: Env, seed: Bytes)
      requires |seed| < MAX_LINE - 1
      ensures Valid(env) && fresh(line) && fresh(line.buf)
      ensures State() == Editor(Zip(seed, []), |env.hist|, [], Idle)
    {
      line := new Line();
      at, saved, tab := |env.hist|, [], Idle;
      new;
      line.Show(seed);
    }

    method Text() returns (s: Bytes)
      requires line.Valid()
      ensures s == TextOf(line.Value())
    {
      s := line.buf[..line.pos];
    }

    method Up(env: Env)
      requires Valid(env)
      modifies this, line, line.buf
      ensures Valid(env) && State() == Older(env, old(State()))
    {
      if at == |env.hist| {
        var text := Text();
        saved := Copy(text);
      }
      if at > 0 {
        at := at - 1;
        line.Show(Copy(env.hist[at]));
      }
      tab := Idle;
    }

    method Down(env: Env)
      requires Valid(env)
      modifies this, line, line.buf
      ensures Valid(env) && State() == Newer(env, old(State()))
    {
      if at < |env.hist| {
        at := at + 1;
        line.Show(Copy(if at == |env.hist| then saved else env.hist[at]));
      }
      tab := Idle;
    }

    method CompleteLine(env: Env)
      requires Valid(env)
      modifies this, line, line.buf
      ensures Valid(env) && State() == Complete(env, old(State()))
    {
      var ms, i := [], 0;
      if tab == Idle {
        var text := Text();
        ms := env.complete(Copy(text));
      } else {
        ms, i := tab.matches, tab.idx + 1;
      }
      if |ms| > 0 {
        if i >= |ms| { i := 0; }
        line.Show(Copy(ms[i]));
      }
      tab := Cycling(ms, i);
    }

    method ReadKey(env: Env, input: Bytes) returns (used: nat, ending: Ending)
      requires Valid(env) && input != []
      modifies this, line, line.buf
      ensures Valid(env) && Step(State(), used, ending) == KeyStep(env, old(State()), input)
    {
      ghost var e := State();
      ghost var t := Press(e.z, input);
      used, ending := line.ReadKey(input);
      if ending == Recall {
        RecallLeavesTheLine(e.z, input);
        assert State() == e;
        ending := Open;
        RecallLine(env, input);
      } else {
        if EndsTab(input[0]) { tab := Idle; }
        assert State() == Editor(t.z, e.at, e.saved, if EndsTab(input[0]) then Idle else e.tab);
      }
    }

    method RecallLine(env: Env, input: Bytes)
      requires Valid(env) && input != []
      modifies this, line, line.buf
      ensures Valid(env) && State() == Recalled(env, old(State()), input)
    {
      if input[0] == 9 {
        CompleteLine(env);
      } else if |input| > 2 && input[2] == 65 {
        Up(env);
      } else {
        Down(env);
      }
    }

    /** One turn keeps the run on its way to `goal`, or arrives there. */
    method TakeTurn(env: Env, input: Bytes, ghost goal: Outcome) returns (rest: Bytes, ending: Ending)
      requires Valid(env) && input != [] && goal == Run(env, State(), input)
      modifies this, line, line.buf
      ensures Valid(env) && |rest| < |input|
      ensures goal == if ending == Open then Run(env, State(), rest) else Outcome(State(), ending)
    {
      var used;
      used, ending := ReadKey(env, input);
      rest := input[used..];
    }

    /** The reading loop: what is left of the input shrinks with every turn. */
    method Edit(env: Env, input: Bytes) returns (ending: Ending)
      requires Valid(env)
      modifies this, line, line.buf
      ensures Valid(env) && Outcome(State(), ending) == Run(env, old(State()), input)
    {
      var rest := input;
      ending := Open;
      ghost var goal := Run(env, State(), input);
      while rest != []
        invariant Valid(env) && ending == Open && goal == Run(env, State(), rest)
        decreases |rest|
      {
        rest, ending := TakeTurn(env, rest, goal);
        if ending != Open { return; }
      }
    }

    /** One line from start to end. */
    method ReadLine(env: Env, input: Bytes) returns (answer: Option<Bytes>)
      requires Valid(env)
      modifies this, line, line.buf
      ensures Valid(env) && answer == Answer(Run(env, old(State()), input))
    {
      var ending := Edit(env, input);
      if ending == Entered {
        var text := Text();
        answer := Some(Copy(text));
      } else if ending == Cancelled {
        answer := Some([]);
      } else {
        answer := None;
      }
    }
  }
}
