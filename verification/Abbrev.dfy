/** Resolving abbreviated commands against the registered ones, word by word. */
module Abbrev {
  import opened Common
  import opened Words

  type Word = string
  type Paths = set<seq<Word>>

  const MAX_WORD: int := 63

  /** A registered word as the resolver copies it. */
  function Cut(w: Word): (r: Word)
    ensures if |w| <= 63 then r == w else |r| == 63
  {
    if |w| < MAX_WORD then w else w[..MAX_WORD]
  }

  // ----- the specification: sets of registered word lists

  lemma {:induction false} CutIsAPrefix(w: Word)
    ensures Cut(w) <= w
  {
  }

  /** The words that may follow `done`. */
  ghost function Next(reg: Paths, done: seq<Word>): set<Word> {
    set p | p in reg && |p| > |done| && p[..|done|] == done :: p[|done|]
  }

  predicate Extends(w: Word, c: Word) {
    |w| < |c| && c[..|w|] == w
  }

  ghost function Extensions(reg: Paths, done: seq<Word>, w: Word): set<Word> {
    set c | c in Next(reg, done) && Extends(w, c) :: Cut(c)
  }

  ghost function The(ws: set<Word>): (w: Word)
    requires |ws| == 1
    ensures w in ws && ws == {w}
  {
    var w :| w in ws;
    assert |ws - {w}| == 0;
    w
  }

  /** The registered word a typed one stands for: itself if it is one, else its only extension. */
  ghost function Choice(reg: Paths, done: seq<Word>, w: Word): Option<Word> {
    if w in Next(reg, done) then Some(Cut(w))
    else if |Extensions(reg, done, w)| == 1 then Some(The(Extensions(reg, done, w)))
    else None
  }

  /** No exact word and at least two distinct extensions. */
  ghost predicate AmbiguousAt(reg: Paths, done: seq<Word>, w: Word) {
    && w !in Next(reg, done)
    && exists a, b :: a != b && a in Extensions(reg, done, w) && b in Extensions(reg, done, w)
  }

  /** After `done` the registered paths hold word `c` where `w` was typed: `c` itself, or the only
      word there that starts with `w`. */
  ghost predicate StandsFor(reg: Paths, done: seq<Word>, w: Word, c: Word) {
    && (exists p :: p in reg && |p| > |done| && p[..|done|] == done && p[|done|] == c)
    && (w == c || (w < c && forall p {:trigger p in reg} :: p in reg && |p| > |done| && p[..|done|] == done && w <= p[|done|] ==> p[|done|] == c))
  }

  /** A word that stands for a registered one of at most 63 characters is that one; where no
      registered word starts with what was typed there is none. */
  lemma {:induction false} ChosenWord(reg: Paths, done: seq<Word>, w: Word, c: Word)
    ensures StandsFor(reg, done, w, c) && |c| <= 63 ==> Choice(reg, done, w) == Some(c)
    ensures (forall p :: p in reg && |p| > |done| && p[..|done|] == done ==> !(w <= p[|done|])) ==>
              Choice(reg, done, w) == None && Extensions(reg, done, w) == {}
  {
    if StandsFor(reg, done, w, c) && |c| <= 63 && w != c {
      assert w !in Next(reg, done);
      assert c in Next(reg, done) && Extends(w, c);
      assert Extensions(reg, done, w) == {c};
    }
  }

  /** `done`: the words resolved when the ambiguous one was met. */
  datatype Result = Resolved(words: seq<Word>) | Ambiguous(done: seq<Word>)

  /** Choose while there is a choice; two candidates are an error; none ends resolution. */
  ghost function Resolve(reg: Paths, done: seq<Word>, input: seq<Word>): Result
    decreases |input|
  {
    if input == [] then Resolved(done)
    else match Choice(reg, done, input[0])
      case Some(c) => Resolve(reg, done + [c], input[1..])
      case None => if |Extensions(reg, done, input[0])| > 1 then Ambiguous(done) else Resolved(done + input)
  }

  // ----- what resolution keeps

  /** A command typed by its words or by unmistakable beginnings of them is that command. */
  lemma {:induction false} BeginningsResolve(reg: Paths, cmd: seq<Word>, typed: seq<Word>, k: nat)
    requires k <= |cmd| == |typed|
    requires forall i {:trigger StandsFor(reg, cmd[..i], typed[i], cmd[i])} :: k <= i < |cmd| ==>
               StandsFor(reg, cmd[..i], typed[i], cmd[i]) && |cmd[i]| <= 63
    ensures Resolve(reg, cmd[..k], typed[k..]) == Resolved(cmd)
    decreases |cmd| - k
  {
    if k < |cmd| {
      assert StandsFor(reg, cmd[..k], typed[k], cmd[k]);
      ChosenWord(reg, cmd[..k], typed[k], cmd[k]);
      BeginningsResolve(reg, cmd, typed, k + 1);
      assert cmd[..k] + [cmd[k]] == cmd[..k + 1] && typed[k..][1..] == typed[k + 1..];
    } else {
      assert cmd[..k] == cmd;
    }
  }

  /** A typed word and what becomes of it: it stays, is extended, or, when too long, is cut. */
  predicate Grows(w: Word, r: Word) {
    r == w || Extends(w, r) || (|w| > 63 && r == Cut(w))
  }

  /** Each typed word against the result, which has `n` words in front. */
  ghost predicate AllGrow(input: seq<Word>, words: seq<Word>, n: nat) {
    && |words| == n + |input|
    && forall i {:trigger GrowsAt(input, words, n, i)} :: 0 <= i < |input| ==> GrowsAt(input, words, n, i)
  }

  ghost predicate GrowsAt(input: seq<Word>, words: seq<Word>, n: nat, i: nat)
    requires i < |input| && |words| == n + |input|
  {
    Grows(input[i], words[n + i])
  }

  lemma {:induction false} ChoiceGrows(reg: Paths, done: seq<Word>, w: Word)
    ensures var c := Choice(reg, done, w); c.Some? ==> Grows(w, c.value)
  {
    var ext := Extensions(reg, done, w);
    if w !in Next(reg, done) && |ext| == 1 {
      var x :| x in Next(reg, done) && Extends(w, x) && The(ext) == Cut(x);
      if |x| > MAX_WORD {
        assert Cut(x) == x[..MAX_WORD];
        if |w| <= MAX_WORD {
          assert x[..MAX_WORD][..|w|] == x[..|w|];
          if |w| == MAX_WORD { assert Cut(x) == w; }
        } else {
          assert x[..|w|][..MAX_WORD] == x[..MAX_WORD];
        }
      }
    }
  }

  /** Success keeps the number of words, and each word extends its input word (one of more than
      63 characters may be cut instead). */
  lemma {:induction false} ResolvedExtends(reg: Paths, done: seq<Word>, input: seq<Word>)
    ensures var r := Resolve(reg, done, input);
            r.Resolved? ==>
              && |r.words| == |done| + |input| && r.words[..|done|] == done
              && AllGrow(input, r.words, |done|)
    decreases |input|
  {
    if input != [] && Choice(reg, done, input[0]).Some? {
      var c, rest := Choice(reg, done, input[0]).value, input[1..];
      ChoiceGrows(reg, done, input[0]);
      ResolvedExtends(reg, done + [c], rest);
      var r := Resolve(reg, done + [c], rest);
      if r.Resolved? {
        assert r.words[|done|] == r.words[..|done| + 1][|done|] == c;
        assert r.words[..|done|] == r.words[..|done| + 1][..|done|] == done;
        forall i | 0 <= i < |input|
          ensures GrowsAt(input, r.words, |done|, i)
        {
          if i > 0 {
            assert input[i] == rest[i - 1] && GrowsAt(rest, r.words, |done| + 1, i - 1);
          }
        }
      }
    }
  }

  /** Choosing for a chosen word gives that word. */
  lemma {:induction false} ChoiceIsStable(reg: Paths, done: seq<Word>, w: Word)
    ensures var c := Choice(reg, done, w); c.Some? ==> Choice(reg, done, c.value) == c
  {
    var next, ext := Next(reg, done), Extensions(reg, done, w);
    if w in next || |ext| == 1 {
      var x: Word;
      if w in next {
        x := w;
      } else {
        x :| x in next && Extends(w, x) && The(ext) == Cut(x);
      }
      var c := Cut(x);
      if c !in next {
        OnlyTheCut(reg, done, x);
      }
    }
  }

  /** Everything that extends a word cut at 63 characters is cut to that word. */
  lemma {:induction false} OnlyTheCut(reg: Paths, done: seq<Word>, x: Word)
    requires x in Next(reg, done) && Cut(x) !in Next(reg, done)
    ensures Extensions(reg, done, Cut(x)) == {Cut(x)}
  {
    var c, ext := Cut(x), Extensions(reg, done, Cut(x));
    assert |x| > MAX_WORD && Extends(c, x);
    forall e | e in ext
      ensures e == c
    {
      var y :| y in Next(reg, done) && Extends(c, y) && e == Cut(y);
    }
    assert c in ext;
  }

  /** Resolving a resolved command changes nothing. */
  lemma {:induction false} ResolveIsIdempotent(reg: Paths, done: seq<Word>, input: seq<Word>)
    ensures var r := Resolve(reg, done, input);
            r.Resolved? ==> |done| <= |r.words| && Resolve(reg, done, r.words[|done|..]) == r
    decreases |input|
  {
    ResolvedExtends(reg, done, input);
    var r := Resolve(reg, done, input);
    if r.Resolved? && input != [] {
      var again := r.words[|done|..];
      if Choice(reg, done, input[0]).Some? {
        var c := Choice(reg, done, input[0]).value;
        ChoiceIsStable(reg, done, input[0]);
        ResolveIsIdempotent(reg, done + [c], input[1..]);
        ResolvedExtends(reg, done + [c], input[1..]);
        assert r.words[|done|] == r.words[..|done| + 1][|done|] == c;
        assert again[0] == c && again[1..] == r.words[|done| + 1..];
      } else {
        assert again == input;
      }
    }
  }

  /** A chain of choices: each word is chosen for its typed word after the ones before it. */
  ghost predicate Chain(reg: Paths, p: seq<Word>, input: seq<Word>) {
    |p| <= |input| && forall i :: 0 <= i < |p| ==> Choice(reg, p[..i], input[i]) == Some(p[i])
  }

  lemma {:induction false} ChainGrows(reg: Paths, p: seq<Word>, input: seq<Word>)
    requires Chain(reg, p, input) && |p| < |input| && Choice(reg, p, input[|p|]).Some?
    ensures Chain(reg, p + [Choice(reg, p, input[|p|]).value], input)
  {
    var q := p + [Choice(reg, p, input[|p|]).value];
    forall i | 0 <= i < |q|
      ensures Choice(reg, q[..i], input[i]) == Some(q[i])
    {
      assert q[..i] == p[..i];
      assert i == |p| ==> p[..i] == p;
    }
  }

  lemma {:induction false} ChainIsForced(reg: Paths, p: seq<Word>, q: seq<Word>, input: seq<Word>)
    requires Chain(reg, q, input) && p < q
    ensures Choice(reg, p, input[|p|]) == Some(q[|p|]) && p + [q[|p|]] <= q
  {
    assert q[..|p|] == p;
  }

  /** Resolution fails exactly when a chain of choices leads to a word without an exact match and
      with at least two distinct extensions; the chain is what had been resolved. */
  lemma {:induction false} FailsExactlyWhenAmbiguous(reg: Paths, input: seq<Word>, p: seq<Word>)
    ensures Resolve(reg, [], input) == Ambiguous(p)
            <==> |p| < |input| && Chain(reg, p, input) && AmbiguousAt(reg, p, input[|p|])
  {
    FailsAfter(reg, [], input, input, p);
  }

  /** A chain leads to an ambiguous word. */
  ghost predicate LeadsToAmbiguity(reg: Paths, input: seq<Word>, p: seq<Word>) {
    |p| < |input| && Chain(reg, p, input) && AmbiguousAt(reg, p, input[|p|])
  }

  lemma {:induction false} FailsAfter(reg: Paths, done: seq<Word>, input: seq<Word>, rest: seq<Word>, p: seq<Word>)
    requires Chain(reg, done, input) && rest == input[|done|..]
    ensures Resolve(reg, done, rest) == Ambiguous(p) <==> done <= p && LeadsToAmbiguity(reg, input, p)
    decreases |rest|
  {
    if rest != [] {
      var w := rest[0];
      if Choice(reg, done, w).Some? {
        var c := Choice(reg, done, w).value;
        ChainGrows(reg, done, input);
        FailsAfter(reg, done + [c], input, rest[1..], p);
        MustGoOn(reg, done, input, p);
      } else {
        TwoOrMore(Extensions(reg, done, w));
        StuckHere(reg, done, input, p);
      }
    }
  }

  /** While there is a choice, a chain to an ambiguous word goes through it. */
  lemma {:induction false} MustGoOn(reg: Paths, done: seq<Word>, input: seq<Word>, p: seq<Word>)
    requires |done| < |input| && Choice(reg, done, input[|done|]).Some?
    ensures done <= p && LeadsToAmbiguity(reg, input, p)
            <==> done + [Choice(reg, done, input[|done|]).value] <= p && LeadsToAmbiguity(reg, input, p)
  {
    var c := Choice(reg, done, input[|done|]).value;
    if done <= p && LeadsToAmbiguity(reg, input, p) {
      if |p| == |done| {
        assert p == done;
        TwoOrMore(Extensions(reg, done, input[|done|]));
      } else {
        ChainIsForced(reg, done, p, input);
      }
    }
    if done + [c] <= p {
      assert p[..|done|] == (done + [c])[..|done|];
    }
  }

  /** Without a choice, the chain ends here. */
  lemma {:induction false} StuckHere(reg: Paths, done: seq<Word>, input: seq<Word>, p: seq<Word>)
    requires |done| < |input| && Choice(reg, done, input[|done|]) == None
    ensures done <= p && Chain(reg, p, input) ==> p == done
  {
    if done < p && Chain(reg, p, input) { ChainIsForced(reg, done, p, input); }
  }

  lemma {:induction false} TwoOrMore(ext: set<Word>)
    ensures |ext| > 1 <==> exists a, b :: a != b && a in ext && b in ext
  {
    if |ext| > 1 {
      var a :| a in ext;
      assert |ext - {a}| > 0;
      var b :| b in ext - {a};
      assert a != b && a in ext && b in ext;
    }
    if a, b :| a != b && a in ext && b in ext {
      assert {a, b} <= ext;
      assert |ext - {a} - {b}| == |ext| - 2;
    }
  }

  // ----- text: registered paths, and the command that is typed

  /** The registered paths as word lists; the order of registration is gone. */
  ghost function Registry(comps: seq<string>): Paths {
    set i | 0 <= i < |comps| :: WordsOf(comps[i])
  }

  /** Neither the order of registration nor a repeated path changes what a command resolves to. */
  lemma {:induction false} OrderDoesNotMatter(a: seq<string>, b: seq<string>, input: string)
    requires forall p :: p in a <==> p in b
    ensures Resolve(Registry(a), [], WordsOf(input)) == Resolve(Registry(b), [], WordsOf(input))
  {
    RegistryWithin(a, b);
    RegistryWithin(b, a);
    assert Registry(a) == Registry(b);
  }

  lemma {:induction false} RegistryWithin(a: seq<string>, b: seq<string>)
    requires forall p :: p in a ==> p in b
    ensures Registry(a) <= Registry(b)
  {
    forall ws | ws in Registry(a)
      ensures ws in Registry(b)
    {
      var i :| 0 <= i < |a| && ws == WordsOf(a[i]);
      assert a[i] in b;
      var j :| 0 <= j < |b| && b[j] == a[i];
      assert WordsOf(b[j]) == ws;
    }
  }

  /** The word that one path offers after `done`. */
  ghost function Offer(path: string, done: seq<Word>): set<Word> {
    var p := WordsOf(path);
    if |p| > |done| && p[..|done|] == done then {p[|done|]} else {}
  }

  lemma {:induction false} NextGrows(comps: seq<string>, i: nat, done: seq<Word>)
    requires i < |comps|
    ensures Next(Registry(comps[..i + 1]), done) == Next(Registry(comps[..i]), done) + Offer(comps[i], done)
  {
    var more, fewer := comps[..i + 1], comps[..i];
    assert more == fewer + [comps[i]];
    assert Registry(more) == Registry(fewer) + {WordsOf(comps[i])} by {
      forall p | p in Registry(more)
        ensures p in Registry(fewer) + {WordsOf(comps[i])}
      {
        var j :| 0 <= j < |more| && p == WordsOf(more[j]);
        assert j < i ==> WordsOf(fewer[j]) == p;
      }
      forall p | p in Registry(fewer)
        ensures p in Registry(more)
      {
        var j :| 0 <= j < |fewer| && p == WordsOf(fewer[j]);
        assert more[j] == fewer[j];
      }
      assert more[i] == comps[i];
    }
  }

  lemma {:induction false} NextFrom(comps: seq<string>, i: nat, done: seq<Word>)
    requires i <= |comps|
    ensures Next(Registry(comps[..i]), done) <= Next(Registry(comps), done)
    decreases |comps| - i
  {
    if i < |comps| {
      NextGrows(comps, i, done);
      NextFrom(comps, i + 1, done);
    } else {
      assert comps[..i] == comps;
    }
  }

  /** What may follow is a word. */
  lemma {:induction false} NextAreWords(comps: seq<string>, done: seq<Word>, w: Word)
    requires w in Next(Registry(comps), done)
    ensures IsWord(w) && IsWord(Cut(w))
  {
    var p :| p in Registry(comps) && |p| > |done| && p[..|done|] == done && p[|done|] == w;
    var i :| 0 <= i < |comps| && p == WordsOf(comps[i]);
    SplitGivesWords([], comps[i]);
    assert IsWord(p[|done|]);
  }

  lemma {:induction false} ChoiceIsWord(comps: seq<string>, done: seq<Word>, w: Word)
    ensures var c := Choice(Registry(comps), done, w); c.Some? ==> IsWord(c.value)
  {
    var reg := Registry(comps);
    if w in Next(reg, done) {
      NextAreWords(comps, done, w);
    } else if |Extensions(reg, done, w)| == 1 {
      var x :| x in Next(reg, done) && Extends(w, x) && The(Extensions(reg, done, w)) == Cut(x);
      NextAreWords(comps, done, x);
    }
  }

  /** What a scan of the paths has collected of the extensions `ext`: at most 64 of them. */
  ghost predicate Collected(cands: seq<Word>, ext: set<Word>) {
    && Unique(cands) && |cands| <= 64
    && (forall c :: c in cands ==> c in ext)
    && (|cands| < 64 ==> forall c :: c in ext ==> c in cands)
  }

  ghost predicate Unique(cands: seq<Word>) {
    forall i, j :: 0 <= i < j < |cands| ==> cands[i] != cands[j]
  }

  lemma {:induction false} CollectOne(cands: seq<Word>, ext: set<Word>, c: Word)
    requires Collected(cands, ext)
    ensures Collected(if c !in cands && |cands| < 64 then cands + [c] else cands, ext + {c})
  {
    if c !in cands && |cands| < 64 {
      var more := cands + [c];
      assert forall x :: x in more <==> x in cands || x == c;
    }
  }

  lemma {:induction false} CollectedCounts(cands: seq<Word>, ext: set<Word>)
    requires Collected(cands, ext)
    ensures |ext| == 0 <==> |cands| == 0
    ensures |ext| == 1 <==> |cands| == 1
    ensures |cands| == 1 ==> ext == {cands[0]}
  {
    if |cands| == 0 {
      assert ext == {};
    } else if |cands| == 1 {
      assert ext == {cands[0]};
    } else {
      assert cands[0] != cands[1] && cands[0] in ext && cands[1] in ext;
      TwoOrMore(ext);
    }
  }

  /** The next word of `path` when its first words are all the words of `resolved`: all `depth - 1`
      of them, or there is none. */
  method OfferedWord(path: string, resolved: string, ghost have: seq<Word>, depth: nat) returns (found: bool, word: Word)
    requires WordsOf(resolved) == have && |have| <= depth - 1
    ensures |have| < depth - 1 ==> !found
    ensures |have| == depth - 1 ==> Offer(path, have) == if found then {word} else {}
  {
    ghost var p := WordsOf(path);
    for d := 1 to depth
      invariant |p| >= d - 1 && |have| >= d - 1 && forall k :: 0 <= k < d - 1 ==> p[k] == have[k]
    {
      var rs, rl := NthWord(resolved, d);
      var es, el := NthWord(path, d);
      if rs == -1 || es == -1 || rl != el || resolved[rs..rs + rl] != path[es..es + el] {
        return false, [];
      }
    }
    assert p[..|have|] == have;
    var s, l := NthWord(path, depth);
    if s == -1 { return false, []; }
    return true, path[s..s + l];
  }

  /** The extensions among the words offered. */
  ghost function Gained(offer: set<Word>, w: Word): set<Word> {
    set c | c in offer && Extends(w, c) :: Cut(c)
  }

  lemma {:induction false} GainedOne(ew: Word, w: Word)
    ensures Gained({}, w) == {} && Gained({ew}, w) == if Extends(w, ew) then {Cut(ew)} else {}
  {
  }

  lemma {:induction false} ExtensionsGrow(comps: seq<string>, i: nat, done: seq<Word>, w: Word)
    requires i < |comps|
    ensures Extensions(Registry(comps[..i + 1]), done, w)
            == Extensions(Registry(comps[..i]), done, w) + Gained(Offer(comps[i], done), w)
  {
    NextGrows(comps, i, done);
  }

  /** One depth: look for the exact word, and collect the distinct extensions on the way. When the
      buffer has lost a word no path matches it any more. */
  method Candidates(comps: seq<string>, resolved: string, ghost have: seq<Word>, depth: nat, iw: Word)
    returns (exact: bool, word: Word, cands: seq<Word>)
    requires WordsOf(resolved) == have && |have| <= depth - 1
    ensures |cands| <= 64 && (|have| < depth - 1 ==> !exact && cands == [])
    ensures |have| == depth - 1 ==> (exact <==> iw in Next(Registry(comps), have))
    ensures exact ==> word == Cut(iw)
    ensures |have| == depth - 1 && !exact ==> Collected(cands, Extensions(Registry(comps), have, iw))
  {
    exact, word, cands := false, [], [];
    ghost var matching := |have| == depth - 1;
    for i := 0 to |comps|
      invariant SoFar(comps, i, have, matching, iw, cands)
    {
      var found, ew := OfferedWord(comps[i], resolved, have, depth);
      Consider(comps, i, have, matching, iw, cands, found, ew);
      if found && ew == iw {
        return true, Cut(ew), cands;
      }
      cands := WithCandidate(cands, found, ew, iw);
    }
    assert comps[..|comps|] == comps;
  }

  /** The candidates after a path has been looked at. */
  function WithCandidate(cands: seq<Word>, found: bool, ew: Word, iw: Word): seq<Word> {
    if found && Extends(iw, ew) && Cut(ew) !in cands && |cands| < 64 then cands + [Cut(ew)] else cands
  }

  /** After the first `i` paths: no exact word, and their extensions collected. */
  ghost predicate SoFar(comps: seq<string>, i: nat, have: seq<Word>, matching: bool, iw: Word, cands: seq<Word>)
    requires i <= |comps|
  {
    if matching then iw !in Next(Registry(comps[..i]), have) && Collected(cands, Extensions(Registry(comps[..i]), have, iw))
    else cands == []
  }

  lemma {:induction false} Consider(comps: seq<string>, i: nat, have: seq<Word>, matching: bool, iw: Word, cands: seq<Word>,
                                    found: bool, ew: Word)
    requires i < |comps| && SoFar(comps, i, have, matching, iw, cands)
    requires (found ==> matching) && (matching ==> Offer(comps[i], have) == if found then {ew} else {})
    ensures found && ew == iw ==> matching && iw in Next(Registry(comps), have)
    ensures !(found && ew == iw) ==> SoFar(comps, i + 1, have, matching, iw, WithCandidate(cands, found, ew, iw))
  {
    if matching {
      var now, later := Registry(comps[..i]), Registry(comps[..i + 1]);
      NextGrows(comps, i, have);
      NextFrom(comps, i + 1, have);
      ExtensionsGrow(comps, i, have, iw);
      ConsiderOffer(Next(now, have), Extensions(now, have, iw), Next(later, have), Extensions(later, have, iw),
                    Offer(comps[i], have), iw, cands, found, ew);
    }
  }

  /** The same, on the sets alone. */
  lemma {:induction false} ConsiderOffer(next: set<Word>, ext: set<Word>, next': set<Word>, ext': set<Word>, offer: set<Word>,
                                         iw: Word, cands: seq<Word>, found: bool, ew: Word)
    requires next' == next + offer && ext' == ext + Gained(offer, iw) && offer == (if found then {ew} else {})
    requires iw !in next && Collected(cands, ext)
    ensures found && ew == iw ==> iw in next'
    ensures !(found && ew == iw) ==> iw !in next' && Collected(WithCandidate(cands, found, ew, iw), ext')
  {
    GainedOne(ew, iw);
    if found && Extends(iw, ew) {
      CollectOne(cands, ext, Cut(ew));
    } else {
      assert ext' == ext;
    }
  }
}
