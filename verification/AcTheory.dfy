/** The string theory behind the Aho-Corasick matcher: longest suffixes that are
    trie paths, the patterns that end at a position, and what a whole scan reports.
    Nothing here mentions nodes, links or edges. */
module AcTheory {
  import opened Common

  type Str = seq<Byte>

  ghost predicate IsSuffix(w: Str, s: Str) {
    |w| <= |s| && s[|s| - |w|..] == w
  }

  /** A word's prefixes are words too. */
  ghost predicate PrefixClosed(words: seq<Str>) {
    [] in words && forall s: Str, c: Byte {:trigger s + [c]} :: s + [c] in words ==> s in words
  }

  /** The longest suffix of `s` (possibly `s` itself) that is a word. */
  ghost function Longest(words: seq<Str>, s: Str): (r: Str)
    requires [] in words
    ensures r in words && |r| <= |s|
  {
    if s in words then s else Longest(words, s[1..])
  }

  /** `Longest` means what it says: it is a suffix of `s`, and any word that is a
      suffix of `s` is no longer. */
  lemma {:induction false} LongestIsTheLongestSuffix(words: seq<Str>, s: Str)
    requires [] in words
    ensures IsSuffix(Longest(words, s), s)
    ensures forall w :: w in words && IsSuffix(w, s) ==> |w| <= |Longest(words, s)|
    decreases |s|
  {
    if s !in words {
      LongestIsTheLongestSuffix(words, s[1..]);
      forall w | w in words && IsSuffix(w, s)
        ensures IsSuffix(w, s[1..])
      {
        assert s[1..][|s[1..]| - |w|..] == w;
      }
    }
  }

  /** The step law of the automaton: reading one more byte only needs the longest
      suffix found so far, not the text before it. */
  lemma {:induction false} LongestStep(words: seq<Str>, s: Str, c: Byte)
    requires PrefixClosed(words)
    ensures Longest(words, s + [c]) == Longest(words, Longest(words, s) + [c])
    decreases |s|
  {
    if s !in words {
      assert (s + [c])[1..] == s[1..] + [c];
      LongestStep(words, s[1..], c);
    }
  }

  /** ... and so does reading a whole chunk. */
  lemma {:induction false} LongestChunk(words: seq<Str>, s: Str, t: Str)
    requires PrefixClosed(words)
    ensures Longest(words, Longest(words, s) + t) == Longest(words, s + t)
    decreases |t|
  {
    if t == [] {
      assert s + t == s && Longest(words, s) + t == Longest(words, s);
    } else {
      var t', c := t[..|t| - 1], t[|t| - 1];
      var l := Longest(words, s);
      calc {
        Longest(words, l + t);
        { assert (l + t') + [c] == l + t; }
        Longest(words, (l + t') + [c]);
        { LongestStep(words, l + t', c); }
        Longest(words, Longest(words, l + t') + [c]);
        { LongestChunk(words, s, t'); }
        Longest(words, Longest(words, s + t') + [c]);
        { LongestStep(words, s + t', c); }
        Longest(words, (s + t') + [c]);
        { assert (s + t') + [c] == s + t; }
        Longest(words, s + t);
      }
    }
  }

  // ----- what ends at a position

  /** Ids of the patterns that are suffixes of `s`, longest pattern first. */
  ghost function Hits(pats: map<Str, int>, s: Str): seq<int> {
    if s == [] then [] else (if s in pats then [pats[s]] else []) + Hits(pats, s[1..])
  }

  /** The patterns themselves, in the same order. */
  ghost function HitPatterns(pats: map<Str, int>, s: Str): seq<Str> {
    if s == [] then [] else (if s in pats then [s] else []) + HitPatterns(pats, s[1..])
  }

  /** The longest pattern that is a suffix of `s`. */
  ghost function LongestHit(pats: map<Str, int>, s: Str): Option<Str> {
    if s == [] then None else if s in pats then Some(s) else LongestHit(pats, s[1..])
  }

  /** `Hits` lists exactly the patterns that end here, each once, with its id. */
  lemma {:induction false} HitsAreExactlyTheSuffixPatterns(pats: map<Str, int>, s: Str)
    ensures forall w :: w in HitPatterns(pats, s) <==> w in pats && w != [] && IsSuffix(w, s)
    ensures forall i, j :: 0 <= i < j < |HitPatterns(pats, s)| ==>
              |HitPatterns(pats, s)[i]| > |HitPatterns(pats, s)[j]|
    ensures |Hits(pats, s)| == |HitPatterns(pats, s)|
    ensures forall i :: 0 <= i < |Hits(pats, s)| ==>
              HitPatterns(pats, s)[i] in pats && Hits(pats, s)[i] == pats[HitPatterns(pats, s)[i]]
  {
    forall w
      ensures w in HitPatterns(pats, s) <==> w in pats && w != [] && IsSuffix(w, s)
    {
      HitMember(pats, s, w);
    }
    HitsShrink(pats, s);
    HitsCarryIds(pats, s);
  }

  lemma {:induction false} SuffixStep(w: Str, s: Str, rest: Str)
    requires s != [] && rest == s[1..]
    ensures IsSuffix(w, s) <==> w == s || IsSuffix(w, rest)
  {
    if |w| < |s| {
      assert rest[|rest| - |w|..] == s[|s| - |w|..];
    }
  }

  lemma {:induction false} HitMember(pats: map<Str, int>, s: Str, w: Str)
    ensures w in HitPatterns(pats, s) <==> w in pats && w != [] && IsSuffix(w, s)
    decreases |s|
  {
    if s != [] {
      var rest := s[1..];
      HitMember(pats, rest, w);
      SuffixStep(w, s, rest);
      assert w in HitPatterns(pats, s) <==> (s in pats && w == s) || w in HitPatterns(pats, rest);
    }
  }

  lemma {:induction false} HitsShrink(pats: map<Str, int>, s: Str)
    ensures forall i :: 0 <= i < |HitPatterns(pats, s)| ==> |HitPatterns(pats, s)[i]| <= |s|
    ensures forall i, j :: 0 <= i < j < |HitPatterns(pats, s)| ==>
              |HitPatterns(pats, s)[i]| > |HitPatterns(pats, s)[j]|
    decreases |s|
  {
    if s != [] {
      HitsShrink(pats, s[1..]);
    }
  }

  lemma {:induction false} HitsCarryIds(pats: map<Str, int>, s: Str)
    ensures |Hits(pats, s)| == |HitPatterns(pats, s)|
    ensures forall i :: 0 <= i < |Hits(pats, s)| ==>
              HitPatterns(pats, s)[i] in pats && Hits(pats, s)[i] == pats[HitPatterns(pats, s)[i]]
    decreases |s|
  {
    if s != [] {
      HitsCarryIds(pats, s[1..]);
    }
  }

  /** Only the longest trie suffix matters for what ends here. */
  lemma {:induction false} HitsOfLongest(words: seq<Str>, pats: map<Str, int>, s: Str)
    requires [] in words && forall p :: p in pats ==> p in words
    ensures Hits(pats, Longest(words, s)) == Hits(pats, s)
    ensures LongestHit(pats, Longest(words, s)) == LongestHit(pats, s)
    decreases |s|
  {
    if s !in words {
      HitsOfLongest(words, pats, s[1..]);
    }
  }

  /** Skipping to the longest hit loses nothing. */
  lemma {:induction false} HitsViaLongestHit(pats: map<Str, int>, s: Str)
    ensures LongestHit(pats, s) == None ==> Hits(pats, s) == []
    ensures LongestHit(pats, s).Some? ==>
              var w := LongestHit(pats, s).value;
              w != [] && w in pats && |w| <= |s| && Hits(pats, s) == Hits(pats, w)
    decreases |s|
  {
    if s != [] && s !in pats {
      HitsViaLongestHit(pats, s[1..]);
    }
  }

  // ----- what a scan reports

  /** A report: pattern `id` ends at stream offset `end`. */
  datatype Match = Match(id: int, end: int)

  ghost function Tag(ids: seq<int>, end: int): seq<Match> {
    if ids == [] then [] else [Match(ids[0], end)] + Tag(ids[1..], end)
  }

  lemma {:induction false} TagAt(ids: seq<int>, end: int)
    ensures |Tag(ids, end)| == |ids|
    ensures forall i :: 0 <= i < |ids| ==> Tag(ids, end)[i] == Match(ids[i], end)
  {
    if ids != [] {
      TagAt(ids[1..], end);
    }
  }

  lemma {:induction false} TagConcat(a: seq<int>, b: seq<int>, end: int)
    ensures Tag(a + b, end) == Tag(a, end) + Tag(b, end)
  {
    if a == [] {
      assert a + b == b;
    } else {
      TagConcat(a[1..], b, end);
      assert (a + b)[1..] == a[1..] + b;
      var m, ta, tb := Match(a[0], end), Tag(a[1..], end), Tag(b, end);
      assert [m] + (ta + tb) == ([m] + ta) + tb;
    }
  }

  /** Reports of scanning `text` after `before`, `text[0]` being at offset `off`. */
  ghost function Scan(pats: map<Str, int>, before: Str, text: Str, off: int): seq<Match>
    decreases |text|
  {
    if text == [] then []
    else Scan(pats, before, text[..|text| - 1], off)
         + Tag(Hits(pats, before + text), off + |text| - 1)
  }

  /** A scan splits anywhere. */
  lemma {:induction false} ScanConcat(pats: map<Str, int>, before: Str, a: Str, b: Str, off: int)
    ensures Scan(pats, before, a + b, off) == Scan(pats, before, a, off) + Scan(pats, before + a, b, off + |a|)
    decreases |b|
  {
    if b == [] {
      assert a + b == a;
    } else {
      var b', whole := b[..|b| - 1], a + b;
      ScanConcat(pats, before, a, b', off);
      assert whole[..|whole| - 1] == a + b';
      Regroup(before, a, b);
      var last := Tag(Hits(pats, before + whole), off + |whole| - 1);
      assert Scan(pats, before, whole, off) == Scan(pats, before, a + b', off) + last;
      assert Scan(pats, before + a, b, off + |a|) == Scan(pats, before + a, b', off + |a|) + last;
      Regroup(Scan(pats, before, a, off), Scan(pats, before + a, b', off + |a|), last);
    }
  }

  /** A scan may start from the longest trie suffix instead of the whole past. */
  lemma {:induction false} ScanFromLongest(words: seq<Str>, pats: map<Str, int>, before: Str, text: Str, off: int)
    requires PrefixClosed(words) && forall p :: p in pats ==> p in words
    ensures Scan(pats, Longest(words, before), text, off) == Scan(pats, before, text, off)
    decreases |text|
  {
    if text != [] {
      ScanFromLongest(words, pats, before, text[..|text| - 1], off);
      LongestChunk(words, before, text);
      HitsOfLongest(words, pats, before + text);
      HitsOfLongest(words, pats, Longest(words, before) + text);
    }
  }

  ghost predicate Reported(pats: map<Str, int>, text: Str, w: Str, i: nat) {
    i < |text| && w in pats && w != [] && IsSuffix(w, text[..i + 1])
  }

  /** Which pattern produced each report of a scan of `text` from its start. */
  ghost function ScanPatterns(pats: map<Str, int>, text: Str): seq<(Str, int)>
    decreases |text|
  {
    if text == [] then []
    else ScanPatterns(pats, text[..|text| - 1]) + Located(HitPatterns(pats, text), |text| - 1)
  }

  ghost function Located(ws: seq<Str>, end: int): (r: seq<(Str, int)>)
    ensures |r| == |ws| && forall i :: 0 <= i < |ws| ==> r[i] == (ws[i], end)
  {
    if ws == [] then [] else [(ws[0], end)] + Located(ws[1..], end)
  }

  /** The headline specification: a scan reports each pattern at each place where it
      ends exactly once, in order, under the id held for that content, and nothing else. */
  lemma ScanReportsExactlyTheOccurrences(pats: map<Str, int>, text: Str)
    ensures forall w, i: nat :: (w, i) in ScanPatterns(pats, text) <==> Reported(pats, text, w, i)
    ensures InOrder(ScanPatterns(pats, text))
    ensures |Scan(pats, [], text, 0)| == |ScanPatterns(pats, text)|
    ensures forall k :: 0 <= k < |Scan(pats, [], text, 0)| ==>
              Follows(pats, Scan(pats, [], text, 0)[k], ScanPatterns(pats, text)[k])
  {
    forall w, i: nat
      ensures (w, i) in ScanPatterns(pats, text) <==> Reported(pats, text, w, i)
    {
      ScanPatternsMembers(pats, text, w, i);
    }
    ScanPatternsOrdered(pats, text);
    ScanFollowsPatterns(pats, text);
  }

  lemma {:induction false} ReportedStep(pats: map<Str, int>, text: Str, init: Str, w: Str, i: int)
    requires text != [] && init == text[..|text| - 1]
    ensures 0 <= i && Reported(pats, text, w, i)
            <==> (0 <= i && Reported(pats, init, w, i)) || (i == |text| - 1 && w in pats && w != [] && IsSuffix(w, text))
  {
    if 0 <= i < |text| - 1 {
      assert init[..i + 1] == text[..i + 1];
    } else if i == |text| - 1 {
      assert text[..i + 1] == text;
    }
  }

  lemma {:induction false} ScanPatternsMembers(pats: map<Str, int>, text: Str, w: Str, i: int)
    ensures (w, i) in ScanPatterns(pats, text) <==> 0 <= i && Reported(pats, text, w, i)
    decreases |text|
  {
    if text != [] {
      var init, n := text[..|text| - 1], |text| - 1;
      ScanPatternsMembers(pats, init, w, i);
      HitMember(pats, text, w);
      LocatedMembers(HitPatterns(pats, text), n, w, i);
      ReportedStep(pats, text, init, w, i);
      assert (w, i) in ScanPatterns(pats, text)
        <==> (w, i) in ScanPatterns(pats, init) || (w, i) in Located(HitPatterns(pats, text), n);
    }
  }

  /** Reports come by the place where they end, and the longer pattern first at one place. */
  ghost predicate InOrder(s: seq<(Str, int)>) {
    forall k, l :: 0 <= k < l < |s| ==> s[k].1 < s[l].1 || (s[k].1 == s[l].1 && |s[k].0| > |s[l].0|)
  }

  lemma {:induction false} LaterFollow(a: seq<(Str, int)>, b: seq<(Str, int)>, ws: seq<Str>, n: int)
    requires InOrder(a) && forall k :: 0 <= k < |a| ==> a[k].1 < n
    requires forall k, l :: 0 <= k < l < |ws| ==> |ws[k]| > |ws[l]|
    requires |b| == |ws| && forall k :: 0 <= k < |ws| ==> b[k] == (ws[k], n)
    ensures InOrder(a + b) && forall k :: 0 <= k < |a + b| ==> (a + b)[k].1 <= n
  {
  }

  lemma {:induction false} ScanPatternsOrdered(pats: map<Str, int>, text: Str)
    ensures forall k :: 0 <= k < |ScanPatterns(pats, text)| ==> ScanPatterns(pats, text)[k].1 < |text|
    ensures InOrder(ScanPatterns(pats, text))
    decreases |text|
  {
    if text != [] {
      var n, now := |text| - 1, HitPatterns(pats, text);
      ScanPatternsOrdered(pats, text[..n]);
      HitsAreExactlyTheSuffixPatterns(pats, text);
      LaterFollow(ScanPatterns(pats, text[..n]), Located(now, n), now, n);
    }
  }

  /** Report `k` of a scan is the `k`-th located pattern, under its id. */
  ghost predicate Follows(pats: map<Str, int>, m: Match, l: (Str, int)) {
    l.0 in pats && m == Match(pats[l.0], l.1)
  }

  lemma {:induction false} ScanFollowsPatterns(pats: map<Str, int>, text: Str)
    ensures |Scan(pats, [], text, 0)| == |ScanPatterns(pats, text)|
    ensures forall k :: 0 <= k < |Scan(pats, [], text, 0)| ==>
              Follows(pats, Scan(pats, [], text, 0)[k], ScanPatterns(pats, text)[k])
    decreases |text|
  {
    if text != [] {
      var n := |text| - 1;
      ScanFollowsPatterns(pats, text[..n]);
      TagFollowsLocated(pats, text, n);
      assert [] + text == text;
    }
  }

  lemma TagFollowsLocated(pats: map<Str, int>, s: Str, end: int)
    ensures |Tag(Hits(pats, s), end)| == |Located(HitPatterns(pats, s), end)|
    ensures forall k :: 0 <= k < |Tag(Hits(pats, s), end)| ==>
              Follows(pats, Tag(Hits(pats, s), end)[k], Located(HitPatterns(pats, s), end)[k])
  {
    HitsAreExactlyTheSuffixPatterns(pats, s);
    TagAt(Hits(pats, s), end);
  }

  lemma LocatedMembers(ws: seq<Str>, end: int, w: Str, i: int)
    ensures (w, i) in Located(ws, end) <==> w in ws && i == end
  {
    var r := Located(ws, end);
    if w in ws && i == end {
      var k :| 0 <= k < |ws| && ws[k] == w;
      assert r[k] == (w, i);
    }
  }

  // ----- early stop

  /** What the callback is told when its `stopAt`-th call is the first to answer
      non-zero (0: it never does). */
  ghost function Served(full: seq<Match>, stopAt: nat): (r: seq<Match>)
    ensures r <= full && |r| == (if stopAt == 0 || |full| < stopAt then |full| else stopAt)
  {
    if 0 < stopAt < |full| then full[..stopAt] else full
  }
}
