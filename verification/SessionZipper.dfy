/** The whole session seen by its user: a zipper over characters, with history and completion. */
module SessionZipper {
  import opened Common
  import opened Utf8
  import opened LineEditor
  import opened CharZipper
  import opened LineSession

  // ----- the session over characters

  datatype CharEnv = CharEnv(hist: seq<Chars>, complete: Chars -> seq<Chars>)

  datatype CharTab = NoTab | Round(matches: seq<Chars>, idx: nat)

  datatype CharEditor = CharEditor(z: CharZip, at: nat, saved: Chars, tab: CharTab)

  datatype AnyKey = Plain(k: Key) | Up(app: bool) | Down(app: bool) | TabKey | Enter(lf: bool) | CtrlC

  function SentBy(k: AnyKey): Bytes {
    match k
    case Plain(p) => Sent(p)
    case Up(app) => [27, if app then 79 else 91, 65]
    case Down(app) => [27, if app then 79 else 91, 66]
    case TabKey => [9]
    case Enter(lf) => [if lf then 10 else 13]
    case CtrlC => [3]
  }

  function AllSent(keys: seq<AnyKey>): Bytes {
    if keys == [] then [] else SentBy(keys[0]) + AllSent(keys[1..])
  }

  /** A line as a list of characters, the last one first. */
  function Whole(z: CharZip): Chars {
    Shift(z.after, z.before)
  }

  function Recalling(cs: Chars): CharZip {
    CharZip(cs, Nil)
  }

  predicate EndsRound(k: Key) {
    k.Typed? || k.CtrlU? || k.CtrlW? || k.Backspace? || k.Help?
  }

  /** What a key does. */
  function DoAny(env: CharEnv, e: CharEditor, k: AnyKey): (r: CharEditor)
    requires e.at <= |env.hist|
    ensures r.at <= |env.hist|
  {
    match k
    case Plain(p) => CharEditor(Do(e.z, p), e.at, e.saved, if EndsRound(p) then NoTab else e.tab)
    case Up(_) =>
      var saved := if e.at == |env.hist| then Whole(e.z) else e.saved;
      if e.at > 0 then CharEditor(Recalling(env.hist[e.at - 1]), e.at - 1, saved, NoTab)
      else CharEditor(e.z, e.at, saved, NoTab)
    case Down(_) =>
      if e.at == |env.hist| then e.(tab := NoTab)
      else CharEditor(Recalling(if e.at + 1 == |env.hist| then e.saved else env.hist[e.at + 1]), e.at + 1, e.saved, NoTab)
    case TabKey =>
      var ms := if e.tab == NoTab then env.complete(Whole(e.z)) else e.tab.matches;
      var i := if e.tab == NoTab then 0 else e.tab.idx + 1;
      if |ms| == 0 then e.(tab := Round(ms, i))
      else
        var j := if i < |ms| then i else 0;
        CharEditor(Recalling(ms[j]), e.at, e.saved, Round(ms, j))
    case Enter(_) => e
    case CtrlC => e.(z := CharZip(Nil, Nil))
  }

  /** Enter hands the line out, Ctrl-C drops it, and Ctrl-D on an empty line is the end of input. */
  function EndingOf(e: CharEditor, k: AnyKey): Ending {
    if k.Enter? then Entered
    else if k.CtrlC? then Cancelled
    else if k == Plain(CtrlD) && e.z == CharZip(Nil, Nil) then Eof
    else Open
  }

  datatype Played = Played(e: CharEditor, ending: Ending)

  /** A run of keys, up to the first that ends it. */
  function Play(env: CharEnv, e: CharEditor, keys: seq<AnyKey>): (r: Played)
    requires e.at <= |env.hist|
    ensures r.e.at <= |env.hist|
    decreases |keys|
  {
    if keys == [] then Played(e, Open)
    else if EndingOf(e, keys[0]) != Open then Played(DoAny(env, e, keys[0]), EndingOf(e, keys[0]))
    else Play(env, DoAny(env, e, keys[0]), keys[1..])
  }

  /** No typed character of the run is cut short by the end of the buffer. */
  predicate AllFit(env: CharEnv, e: CharEditor, keys: seq<AnyKey>)
    requires e.at <= |env.hist|
    decreases |keys|
  {
    keys == [] || ((keys[0].Plain? ==> Fits(e.z, keys[0].k)) && AllFit(env, DoAny(env, e, keys[0]), keys[1..]))
  }

  // ----- as bytes

  /** A line of characters that a C string can hold. */
  predicate Good(cs: Chars) {
    AllFormed(cs) && NoNul(cs) && |Behind(cs)| < 512
  }

  predicate NoNul(cs: Chars) {
    cs.Cons? ==> cs.head != [0] && NoNul(cs.tail)
  }

  predicate AllGood(ls: seq<Chars>) {
    forall i {:trigger Good(ls[i])} :: 0 <= i < |ls| ==> Good(ls[i])
  }

  function Texts(ls: seq<Chars>): (r: seq<Bytes>)
    ensures |r| == |ls| && forall i :: 0 <= i < |ls| ==> r[i] == Behind(ls[i])
  {
    seq(|ls|, i requires 0 <= i < |ls| => Behind(ls[i]))
  }

  ghost predicate Completes(env: Env, cenv: CharEnv, cs: Chars) {
    AllGood(cenv.complete(cs)) && env.complete(Behind(cs)) == Texts(cenv.complete(cs))
  }

  /** The byte environment is the image of the character one. */
  ghost predicate Models(env: Env, cenv: CharEnv) {
    && env.hist == Texts(cenv.hist) && AllGood(cenv.hist)
    && forall cs {:trigger Completes(env, cenv, cs)} :: Good(cs) ==> Completes(env, cenv, cs)
  }

  function TabBytes(t: CharTab): Tab {
    match t case NoTab => Idle case Round(ms, i) => Cycling(Texts(ms), i)
  }

  function Image(e: CharEditor): Editor {
    Editor(ZipOf(e.z), e.at, Behind(e.saved), TabBytes(e.tab))
  }

  predicate SoundLine(z: CharZip) {
    Sound(z) && NoNul(z.before) && NoNul(z.after)
  }

  predicate SoundEditor(e: CharEditor) {
    SoundLine(e.z) && Good(e.saved) && (e.tab.Round? ==> AllGood(e.tab.matches))
  }

  // ----- lines as C strings

  lemma {:induction false} NoZeroBytes(cs: Chars)
    requires AllFormed(cs) && NoNul(cs)
    ensures forall i :: 0 <= i < |Behind(cs)| ==> Behind(cs)[i] != 0
    decreases cs
  {
    if cs.Cons? {
      NoZeroBytes(cs.tail);
      NoZeroInside(cs.head);
    }
  }

  lemma {:induction false} NoZeroInside(c: Char)
    requires WellFormed(c) && c != [0]
    ensures forall i :: 0 <= i < |c| ==> c[i] != 0
  {
    WellFormedIsShaped(c);
    if |c| == 1 { assert c == [c[0]]; }
  }

  lemma {:induction false} CStrIsAll(s: Bytes)
    requires forall i :: 0 <= i < |s| ==> s[i] != 0
    ensures CStr(s) == s
    decreases |s|
  {
    if s != [] {
      CStrIsAll(s[1..]);
      assert s == [s[0]] + s[1..];
    }
  }

  lemma {:induction false} CopyIsAll(cs: Chars)
    requires Good(cs)
    ensures Copy(Behind(cs)) == Behind(cs) && Shown(Behind(cs)) == ZipOf(Recalling(cs))
  {
    NoZeroBytes(cs);
    CStrIsAll(Behind(cs));
  }

  lemma {:induction false} ShiftNoNul(from: Chars, onto: Chars)
    requires NoNul(from) && NoNul(onto)
    ensures NoNul(Shift(from, onto))
    decreases from
  {
    if from.Cons? { ShiftNoNul(from.tail, Cons(from.head, onto)); }
  }

  lemma {:induction false} WholeIsGood(z: CharZip)
    requires SoundLine(z)
    ensures Good(Whole(z)) && Behind(Whole(z)) == TextOf(ZipOf(z))
  {
    ShiftBytes(z.after, z.before);
    ShiftFormed(z.after, z.before);
    ShiftNoNul(z.after, z.before);
  }

  lemma {:induction false} SkipsNoNul(cs: Chars)
    requires NoNul(cs)
    ensures NoNul(SkipSpaces(cs)) && NoNul(SkipWord(cs))
    decreases cs
  {
    if cs.Cons? { SkipsNoNul(cs.tail); }
  }

  lemma {:induction false} DoIsSoundLine(z: CharZip, k: Key)
    requires SoundLine(z) && Fits(z, k)
    ensures SoundLine(Do(z, k))
  {
    DoIsSound(z, k);
    match k
    case Arrow(_, ToHome) => ShiftNoNul(z.before, z.after);
    case Arrow(_, ToEnd) => ShiftNoNul(z.after, z.before);
    case CtrlA => ShiftNoNul(z.before, z.after);
    case CtrlE => ShiftNoNul(z.after, z.before);
    case CtrlW =>
      SkipsNoNul(z.before);
      SkipsNoNul(SkipSpaces(z.before));
    case _ =>
  }

  // ----- one key

  /** Keys keep the session sound. */
  lemma {:induction false} DoAnyIsSound(env: Env, cenv: CharEnv, e: CharEditor, k: AnyKey)
    requires Models(env, cenv) && SoundEditor(e) && e.at <= |cenv.hist| && (k.Plain? ==> Fits(e.z, k.k))
    ensures SoundEditor(DoAny(cenv, e, k))
  {
    WholeIsGood(e.z);
    match k
    case Plain(p) => DoIsSoundLine(e.z, p);
    case Up(_) => HistoryIsSound(cenv, e, k);
    case Down(_) => HistoryIsSound(cenv, e, k);
    case TabKey =>
      assert Completes(env, cenv, Whole(e.z));
      RoundIsSound(cenv, e);
    case Enter(_) =>
    case CtrlC =>
  }

  lemma {:induction false} HistoryIsSound(cenv: CharEnv, e: CharEditor, k: AnyKey)
    requires SoundEditor(e) && e.at <= |cenv.hist| && AllGood(cenv.hist) && Good(Whole(e.z)) && (k.Up? || k.Down?)
    ensures SoundEditor(DoAny(cenv, e, k))
  {
    if k.Up? && e.at > 0 {
      assert Good(cenv.hist[e.at - 1]);
    }
    if k.Down? && e.at + 1 < |cenv.hist| {
      assert Good(cenv.hist[e.at + 1]);
    }
  }

  lemma {:induction false} RoundIsSound(cenv: CharEnv, e: CharEditor)
    requires SoundEditor(e) && e.at <= |cenv.hist| && AllGood(cenv.complete(Whole(e.z)))
    ensures SoundEditor(DoAny(cenv, e, TabKey))
  {
    var ms := if e.tab == NoTab then cenv.complete(Whole(e.z)) else e.tab.matches;
    var i := if e.tab == NoTab then 0 else e.tab.idx + 1;
    if |ms| > 0 {
      assert Good(ms[if i < |ms| then i else 0]);
    }
  }

  /** A line of a list of good ones is shown as it is. */
  lemma {:induction false} ListShown(ls: seq<Chars>, i: nat)
    requires AllGood(ls) && i < |ls|
    ensures Shown(Texts(ls)[i]) == ZipOf(Recalling(ls[i]))
  {
    assert Good(ls[i]);
    CopyIsAll(ls[i]);
  }

  lemma {:induction false} HistoryShown(env: Env, cenv: CharEnv, i: nat)
    requires Models(env, cenv) && i < |cenv.hist|
    ensures |env.hist| == |cenv.hist| && Shown(env.hist[i]) == ZipOf(Recalling(cenv.hist[i]))
  {
    ListShown(cenv.hist, i);
  }

  lemma {:induction false} LineSaved(z: CharZip)
    requires SoundLine(z)
    ensures Copy(TextOf(ZipOf(z))) == Behind(Whole(z))
  {
    WholeIsGood(z);
    CopyIsAll(Whole(z));
  }

  /** The line that stands `at` in the history, or behind it the one put aside. */
  function LineAt(hist: seq<Bytes>, saved: Bytes, at: nat): Bytes {
    if at < |hist| then hist[at] else saved
  }

  function CharsAt(hist: seq<Chars>, saved: Chars, at: nat): Chars {
    if at < |hist| then hist[at] else saved
  }

  lemma {:induction false} LineAtShown(env: Env, cenv: CharEnv, saved: Chars, at: nat)
    requires Models(env, cenv) && Good(saved)
    ensures |env.hist| == |cenv.hist|
    ensures Shown(LineAt(env.hist, Behind(saved), at)) == ZipOf(Recalling(CharsAt(cenv.hist, saved, at)))
  {
    if at < |cenv.hist| { HistoryShown(env, cenv, at); } else { CopyIsAll(saved); }
  }

  lemma {:induction false} OlderIsImage(env: Env, cenv: CharEnv, e: CharEditor)
    requires Models(env, cenv) && SoundEditor(e) && e.at <= |cenv.hist|
    ensures Older(env, Image(e)) == Image(DoAny(cenv, e, Up(false)))
  {
    LineSaved(e.z);
    if e.at > 0 { LineAtShown(env, cenv, e.saved, e.at - 1); }
    OlderFrom(env, cenv, e);
  }

  lemma {:induction false} OlderFrom(env: Env, cenv: CharEnv, e: CharEditor)
    requires |env.hist| == |cenv.hist| >= e.at && Copy(TextOf(ZipOf(e.z))) == Behind(Whole(e.z))
    requires e.at > 0 ==> Shown(LineAt(env.hist, Behind(e.saved), e.at - 1)) == ZipOf(Recalling(CharsAt(cenv.hist, e.saved, e.at - 1)))
    ensures Older(env, Image(e)) == Image(DoAny(cenv, e, Up(false)))
  {
  }

  lemma {:induction false} NewerIsImage(env: Env, cenv: CharEnv, e: CharEditor)
    requires Models(env, cenv) && SoundEditor(e) && e.at <= |cenv.hist|
    ensures Newer(env, Image(e)) == Image(DoAny(cenv, e, Down(false)))
  {
    LineAtShown(env, cenv, e.saved, e.at + 1);
    NewerFrom(env, cenv, e);
  }

  lemma {:induction false} NewerFrom(env: Env, cenv: CharEnv, e: CharEditor)
    requires |env.hist| == |cenv.hist| >= e.at
    requires Shown(LineAt(env.hist, Behind(e.saved), e.at + 1)) == ZipOf(Recalling(CharsAt(cenv.hist, e.saved, e.at + 1)))
    ensures Newer(env, Image(e)) == Image(DoAny(cenv, e, Down(false)))
  {
  }

  /** The completions a Tab goes through, and which of them is next. */
  lemma {:induction false} RoundOf(env: Env, cenv: CharEnv, e: CharEditor) returns (ms: seq<Chars>)
    requires Models(env, cenv) && SoundEditor(e)
    ensures AllGood(ms) && ms == if e.tab == NoTab then cenv.complete(Whole(e.z)) else e.tab.matches
    ensures Texts(ms) == if e.tab == NoTab then env.complete(Copy(TextOf(ZipOf(e.z)))) else TabBytes(e.tab).matches
  {
    ms := if e.tab == NoTab then cenv.complete(Whole(e.z)) else e.tab.matches;
    if e.tab == NoTab {
      LineSaved(e.z);
      WholeIsGood(e.z);
      assert Completes(env, cenv, Whole(e.z));
    }
  }

  lemma {:induction false} CompleteIsImage(env: Env, cenv: CharEnv, e: CharEditor)
    requires Models(env, cenv) && SoundEditor(e) && e.at <= |cenv.hist|
    ensures Complete(env, Image(e)) == Image(DoAny(cenv, e, TabKey))
  {
    var ms := RoundOf(env, cenv, e);
    var i := if e.tab == NoTab then 0 else e.tab.idx + 1;
    if |ms| > 0 { ListShown(ms, if i < |ms| then i else 0); }
    CompleteFrom(env, cenv, e, ms, Texts(ms), i);
  }

  lemma {:induction false} CompleteFrom(env: Env, cenv: CharEnv, e: CharEditor, ms: seq<Chars>, ts: seq<Bytes>, i: nat)
    requires e.at <= |cenv.hist| && i == (if e.tab == NoTab then 0 else e.tab.idx + 1) && ts == Texts(ms)
    requires ms == if e.tab == NoTab then cenv.complete(Whole(e.z)) else e.tab.matches
    requires ts == if e.tab == NoTab then env.complete(Copy(TextOf(ZipOf(e.z)))) else TabBytes(e.tab).matches
    requires |ms| > 0 ==> var j := if i < |ms| then i else 0; Shown(ts[j]) == ZipOf(Recalling(ms[j]))
    ensures Complete(env, Image(e)) == Image(DoAny(cenv, e, TabKey))
  {
  }

  lemma {:induction false} PlainIsImage(env: Env, cenv: CharEnv, e: CharEditor, k: Key, input: Bytes)
    requires |env.hist| == |cenv.hist| && SoundEditor(e) && e.at <= |cenv.hist| && Sent(k) <= input
    requires EndingOf(e, Plain(k)) == Open && (k.Foreign? ==> Meaningless(k.bytes))
    requires k.Typed? ==> Typable(k.c) && Length(e.z) + |k.c| < 512
    ensures KeyStep(env, Image(e), input) == Step(Image(DoAny(cenv, e, Plain(k))), |Sent(k)|, Open)
  {
    if k.Typed? {
      WellFormedIsShaped(k.c);
      TypedIsItsBytes(e.z, k.c, input);
    } else {
      KeyIsItsBytes(e.z, k, input);
    }
    assert input[0] == Sent(k)[0];
    assert EndsTab(input[0]) <==> EndsRound(k);
  }

  /** The bytes of a history arrow or of Tab ask for another line. */
  lemma {:induction false} RecallKeys(z: Zip, k: AnyKey, input: Bytes)
    requires (k.Up? || k.Down? || k.TabKey?) && SentBy(k) <= input
    ensures Press(z, input) == Turn(z, |SentBy(k)|, Recall)
    ensures input[0] == 9 <==> k.TabKey?
    ensures !k.TabKey? ==> |input| > 2 && (input[2] == 65 <==> k.Up?)
  {
    assert input[0] == SentBy(k)[0];
    if !k.TabKey? {
      assert input[1] == SentBy(k)[1] && input[2] == SentBy(k)[2];
    }
  }

  /** The keys that end a run. */
  lemma {:induction false} EndingKeys(env: Env, cenv: CharEnv, e: CharEditor, k: AnyKey, input: Bytes)
    requires |env.hist| == |cenv.hist| && SoundEditor(e) && e.at <= |cenv.hist|
    requires SentBy(k) <= input && EndingOf(e, k) != Open
    ensures KeyStep(env, Image(e), input) == Step(Image(DoAny(cenv, e, k)), |SentBy(k)|, EndingOf(e, k))
  {
    assert input[0] == SentBy(k)[0];
    EmptyLine(e.z);
  }

  /** The bytes of a key do to the session's bytes what the key does to its characters. */
  lemma {:induction false} KeyIsImage(env: Env, cenv: CharEnv, e: CharEditor, k: AnyKey, input: Bytes)
    requires Models(env, cenv) && SoundEditor(e) && e.at <= |cenv.hist| && SentBy(k) <= input
    requires k.Plain? && k.k.Foreign? ==> Meaningless(k.k.bytes)
    requires k.Plain? && k.k.Typed? ==> Typable(k.k.c) && Length(e.z) + |k.k.c| < 512
    ensures KeyStep(env, Image(e), input) == Step(Image(DoAny(cenv, e, k)), |SentBy(k)|, EndingOf(e, k))
  {
    if EndingOf(e, k) != Open {
      EndingKeys(env, cenv, e, k, input);
    } else if k.Plain? {
      PlainIsImage(env, cenv, e, k.k, input);
    } else {
      RecallKeys(ZipOf(e.z), k, input);
      if k.TabKey? {
        CompleteIsImage(env, cenv, e);
      } else if k.Up? {
        OlderIsImage(env, cenv, e);
      } else {
        NewerIsImage(env, cenv, e);
      }
    }
  }

  /** A full line drops a typed character byte by byte. */
  lemma {:induction false} FullSessionIgnores(env: Env, e: Editor, c: Bytes, rest: Bytes)
    requires e.at <= |env.hist| && e.z.Size() == 511 && forall i :: 0 <= i < |c| ==> c[i] >= 32 && c[i] != 127
    ensures Run(env, e, c + rest) == Run(env, if c == [] then e else e.(tab := Idle), rest)
    decreases |c|
  {
    if c == [] {
      assert c + rest == rest;
    } else {
      var input := c + rest;
      assert input[0] == c[0] && input[1..] == c[1..] + rest;
      FullLineIgnores(e.z, input);
      FullSessionIgnores(env, e.(tab := Idle), c[1..], rest);
    }
  }

  lemma {:induction false} OneKey(env: Env, cenv: CharEnv, e: CharEditor, k: AnyKey, rest: Bytes)
    requires Models(env, cenv) && SoundEditor(e) && e.at <= |cenv.hist| && (k.Plain? ==> Fits(e.z, k.k))
    ensures Run(env, Image(e), SentBy(k) + rest)
            == if EndingOf(e, k) == Open then Run(env, Image(DoAny(cenv, e, k)), rest)
               else Outcome(Image(DoAny(cenv, e, k)), EndingOf(e, k))
  {
    var input := SentBy(k) + rest;
    if k.Plain? && k.k.Typed? && Length(e.z) == 511 {
      WellFormedIsShaped(k.k.c);
      FullSessionIgnores(env, Image(e), k.k.c, rest);
    } else {
      if k.Plain? && k.k.Typed? { WellFormedIsShaped(k.k.c); }
      KeyIsImage(env, cenv, e, k, input);
      assert input[|SentBy(k)|..] == rest;
    }
  }

  // ----- every run

  /** For every run of keys in which no character is cut short by the end of the buffer, the byte
      session fed with their encoding holds the bytes of the character session: the cursor is
      between two characters and every line, shown, saved or to come, is well formed. */
  lemma {:induction false} EditorIsTheZipper(env: Env, cenv: CharEnv, e: CharEditor, keys: seq<AnyKey>)
    requires Models(env, cenv) && SoundEditor(e) && e.at <= |cenv.hist| && AllFit(cenv, e, keys)
    ensures var r := Play(cenv, e, keys);
            SoundEditor(r.e) && Run(env, Image(e), AllSent(keys)) == Outcome(Image(r.e), r.ending)
    decreases |keys|
  {
    if keys != [] {
      var k, rest := keys[0], AllSent(keys[1..]);
      OneKey(env, cenv, e, k, rest);
      DoAnyIsSound(env, cenv, e, k);
      if EndingOf(e, k) == Open {
        EditorIsTheZipper(env, cenv, DoAny(cenv, e, k), keys[1..]);
      }
    }
  }

  lemma {:induction false} SentInFront(keys: seq<AnyKey>, last: AnyKey)
    ensures AllSent(keys + [last]) == AllSent(keys) + SentBy(last)
    decreases |keys|
  {
    var all := keys + [last];
    if keys == [] {
      assert all[1..] == [] && SentBy(last) + [] == SentBy(last) == [] + SentBy(last);
    } else {
      SentInFront(keys[1..], last);
      assert all[1..] == keys[1..] + [last] && all[0] == keys[0];
      OneBehindTheOther(SentBy(keys[0]), AllSent(keys[1..]), SentBy(last));
    }
  }

  lemma {:induction false} OneBehindTheOther(a: Bytes, b: Bytes, c: Bytes)
    ensures a + (b + c) == (a + b) + c
  {
  }

  lemma {:induction false} PlayThen(env: CharEnv, e: CharEditor, keys: seq<AnyKey>, last: AnyKey)
    requires e.at <= |env.hist| && AllFit(env, e, keys) && !last.Plain?
    ensures AllFit(env, e, keys + [last])
    ensures var r := Play(env, e, keys);
            Play(env, e, keys + [last]) == if r.ending == Open then Play(env, r.e, [last]) else r
    decreases |keys|
  {
    if keys != [] {
      assert (keys + [last])[1..] == keys[1..] + [last];
      PlayThen(env, DoAny(env, e, keys[0]), keys[1..], last);
    }
  }

  /** What is typed is what is handed out: a run of keys and then Enter answers with the bytes of
      the characters on the line. */
  lemma {:induction false} TypedIsHandedOut(env: Env, cenv: CharEnv, e: CharEditor, keys: seq<AnyKey>, lf: bool, input: Bytes)
    requires Models(env, cenv) && SoundEditor(e) && e.at <= |cenv.hist| && AllFit(cenv, e, keys)
    requires Play(cenv, e, keys).ending == Open && input == AllSent(keys) + [if lf then 10 else 13]
    ensures Answer(Run(env, Image(e), input)) == Some(Behind(Whole(Play(cenv, e, keys).e.z)))
  {
    EditorIsTheZipper(env, cenv, e, keys);
    RunEnds(env, cenv, e, keys, Enter(lf));
    AnswerOf(cenv, Play(cenv, e, keys).e, lf);
  }

  /** And with Ctrl-C in its place the answer is an empty line. */
  lemma {:induction false} CancelledIsEmpty(env: Env, cenv: CharEnv, e: CharEditor, keys: seq<AnyKey>, input: Bytes)
    requires Models(env, cenv) && SoundEditor(e) && e.at <= |cenv.hist| && AllFit(cenv, e, keys)
    requires Play(cenv, e, keys).ending == Open && input == AllSent(keys) + [3]
    ensures Answer(Run(env, Image(e), input)) == Some([])
  {
    RunEnds(env, cenv, e, keys, CtrlC);
  }

  lemma {:induction false} AnswerOf(cenv: CharEnv, r: CharEditor, lf: bool)
    requires SoundEditor(r) && r.at <= |cenv.hist|
    ensures Answer(Outcome(Image(DoAny(cenv, r, Enter(lf))), Entered)) == Some(Behind(Whole(r.z)))
  {
    LineSaved(r.z);
  }

  lemma {:induction false} RunEnds(env: Env, cenv: CharEnv, e: CharEditor, keys: seq<AnyKey>, last: AnyKey)
    requires Models(env, cenv) && SoundEditor(e) && e.at <= |cenv.hist| && AllFit(cenv, e, keys)
    requires Play(cenv, e, keys).ending == Open && (last.Enter? || last.CtrlC?)
    ensures var r := Play(cenv, e, keys).e;
            Run(env, Image(e), AllSent(keys) + SentBy(last)) == Outcome(Image(DoAny(cenv, r, last)), EndingOf(r, last))
  {
    PlayThen(cenv, e, keys, last);
    SentInFront(keys, last);
    EditorIsTheZipper(env, cenv, e, keys + [last]);
  }

  // ----- through the history and back

  function Presses(env: CharEnv, e: CharEditor, k: AnyKey, n: nat): (r: CharEditor)
    requires e.at <= |env.hist|
    ensures r.at <= |env.hist|
  {
    if n == 0 then e else DoAny(env, Presses(env, e, k, n - 1), k)
  }

  lemma {:induction false} AfterUps(env: CharEnv, e: CharEditor, app: bool, n: nat)
    requires e.at == |env.hist| && n <= |env.hist|
    ensures var r := Presses(env, e, Up(app), n); r.at == |env.hist| - n && (n > 0 ==> r.saved == Whole(e.z) && r.z == Recalling(env.hist[|env.hist| - n]))
  {
    if n > 0 { AfterUps(env, e, app, n - 1); }
  }

  lemma {:induction false} AfterDowns(env: CharEnv, e: CharEditor, app: bool, n: nat)
    requires e.at + n <= |env.hist|
    ensures var r := Presses(env, e, Down(app), n);
            r.at == e.at + n && r.saved == e.saved && (n > 0 ==> r.z == Recalling(if r.at < |env.hist| then env.hist[r.at] else e.saved))
  {
    if n > 0 { AfterDowns(env, e, app, n - 1); }
  }

  /** Going back any number of lines and forward again brings back the line that was being typed. */
  lemma {:induction false} HistoryReturns(env: CharEnv, e: CharEditor, app: bool, n: nat)
    requires e.at == |env.hist| && 0 < n <= |env.hist|
    ensures Presses(env, Presses(env, e, Up(app), n), Down(app), n).z == Recalling(Whole(e.z))
  {
    AfterUps(env, e, app, n);
    AfterDowns(env, Presses(env, e, Up(app), n), app, n);
  }

  /** Tab pressed again and again goes through the completions of the line in order, round after
      round: with `m` of them, the press behind `q` rounds and `j` more shows number `j`. */
  lemma {:induction false} AfterTabs(env: CharEnv, e: CharEditor, q: nat, j: nat, m: nat, n: nat)
    requires e.at <= |env.hist| && e.tab == NoTab && j < m == |env.complete(Whole(e.z))| && n == q * m + j
    ensures var ms := env.complete(Whole(e.z));
            Presses(env, e, TabKey, n + 1) == CharEditor(Recalling(ms[j]), e.at, e.saved, Round(ms, j))
    decreases q, j
  {
    if j > 0 {
      AfterTabs(env, e, q, j - 1, m, n - 1);
      NextTab(env, e, n, j - 1);
    } else if q > 0 {
      RoundBefore(q, m, n);
      AfterTabs(env, e, q - 1, m - 1, m, n - 1);
      NextTab(env, e, n, m - 1);
    } else {
      FirstTab(env, e, n);
    }
  }

  lemma {:induction false} RoundBefore(q: nat, m: nat, n: nat)
    requires q > 0 && m > 0 && n == q * m
    ensures n > 0 && n - 1 == (q - 1) * m + (m - 1)
  {
    assert q * m == (q - 1) * m + m;
  }

  lemma {:induction false} FirstTab(env: CharEnv, e: CharEditor, n: nat)
    requires e.at <= |env.hist| && e.tab == NoTab && env.complete(Whole(e.z)) != [] && n == 0
    ensures var ms := env.complete(Whole(e.z));
            Presses(env, e, TabKey, n + 1) == CharEditor(Recalling(ms[0]), e.at, e.saved, Round(ms, 0))
  {
    assert Presses(env, e, TabKey, n) == e;
  }

  lemma {:induction false} NextTab(env: CharEnv, e: CharEditor, n: nat, i: nat)
    requires e.at <= |env.hist| && i < |env.complete(Whole(e.z))|
    requires var ms := env.complete(Whole(e.z));
             Presses(env, e, TabKey, n) == CharEditor(Recalling(ms[i]), e.at, e.saved, Round(ms, i))
    ensures var ms := env.complete(Whole(e.z));
            var j := if i + 1 < |ms| then i + 1 else 0;
            Presses(env, e, TabKey, n + 1) == CharEditor(Recalling(ms[j]), e.at, e.saved, Round(ms, j))
  {
  }

  /** Typing a character leaves whole characters on both sides of the cursor exactly when there is
      room for all of it, or no room at all. */
  lemma {:induction false} WholeExactlyWhenItFits(env: Env, e: Editor, z: CharZip, c: Char)
    requires e.at <= |env.hist| && Sound(z) && e.z == ZipOf(z) && Typable(c)
    ensures IsWhole(Run(env, e, c).e.z) <==> Fits(z, Typed(c))
  {
    WellFormedIsShaped(c);
    assert c + [] == c;
    if Length(z) == 511 {
      FullSessionIgnores(env, e, c, []);
    } else if Fits(z, Typed(c)) {
      TypedIsItsBytes(z, c, c);
      DoIsSound(z, Typed(c));
      assert c[|c|..] == [];
    } else {
      var n := 511 - Length(z);
      var torn := Zip(e.z.before + c[..n], e.z.after);
      assert Press(e.z, c) == Turn(torn, n, Open);
      FullSessionIgnores(env, Editor(torn, e.at, e.saved, Idle), c[n..], []);
      assert c[n..] + [] == c[n..];
      TornIsNotWhole(z, c, n);
    }
  }
}
