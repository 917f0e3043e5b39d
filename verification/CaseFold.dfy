/** Case folding, and the matcher's reports told on the bytes as given. */
module CaseFold {
  import opened Common
  import opened AcTheory

  /** Case folding of A-Z; other bytes are left alone. */
  function Norm(nocase: bool, c: Byte): Byte {
    if nocase && 65 <= c <= 90 then c + 32 else c
  }

  function NormAll(nocase: bool, s: Str): (r: Str)
    ensures |r| == |s| && forall i :: 0 <= i < |s| ==> r[i] == Norm(nocase, s[i])
  {
    seq(|s|, i requires 0 <= i < |s| => Norm(nocase, s[i]))
  }

  lemma NormConcat(nocase: bool, a: Str, b: Str)
    ensures NormAll(nocase, a + b) == NormAll(nocase, a) + NormAll(nocase, b)
  {
  }

  // ----- equal up to letter case

  /** One letter of A-Z and its small form. */
  predicate SameLetter(x: Byte, y: Byte) {
    (65 <= x <= 90 && y == x + 32) || (65 <= y <= 90 && x == y + 32)
  }

  predicate SameText(nocase: bool, a: Str, b: Str) {
    |a| == |b| && forall i :: 0 <= i < |a| ==> a[i] == b[i] || (nocase && SameLetter(a[i], b[i]))
  }

  /** Folding makes equal exactly the texts that differ at most in the case of letters,
      and without folding exactly the equal ones. */
  lemma {:induction false} FoldsAlike(nocase: bool, a: Str, b: Str)
    ensures NormAll(nocase, a) == NormAll(nocase, b) <==> SameText(nocase, a, b)
  {
    if NormAll(nocase, a) == NormAll(nocase, b) {
      forall i | 0 <= i < |a|
        ensures a[i] == b[i] || (nocase && SameLetter(a[i], b[i]))
      {
        assert NormAll(nocase, a)[i] == NormAll(nocase, b)[i];
      }
    }
  }

  // ----- patterns as they were added

  /** The ids held for folded contents after additions, oldest first. */
  ghost function PatternMap(nocase: bool, added: seq<(Str, int)>): map<Str, int> {
    if added == [] then map[]
    else PatternMap(nocase, added[..|added| - 1])[NormAll(nocase, added[|added| - 1].0) := added[|added| - 1].1]
  }

  /** Addition `k` was not overridden by a later one of the same text. */
  ghost predicate Standing(nocase: bool, added: seq<(Str, int)>, k: int) {
    0 <= k < |added| && forall j :: k < j < |added| ==> !SameText(nocase, added[j].0, added[k].0)
  }

  /** Pattern `p` ends with byte `i` of the text. */
  ghost predicate EndsAt(nocase: bool, p: Str, text: Str, i: int) {
    |p| <= i + 1 <= |text| && SameText(nocase, p, text[i + 1 - |p|..i + 1])
  }

  /** All occurrences (addition, end) of standing patterns, first end first and the
      longer pattern first at one end. */
  ghost predicate Occurrences(nocase: bool, added: seq<(Str, int)>, text: Str, who: seq<(int, int)>) {
    && (forall k, i :: (k, i) in who <==> Standing(nocase, added, k) && EndsAt(nocase, added[k].0, text, i))
    && (forall a, b :: 0 <= a < b < |who| ==>
          who[a].1 < who[b].1 || (who[a].1 == who[b].1 && |added[who[a].0].0| > |added[who[b].0].0|))
  }

  ghost predicate Tells(added: seq<(Str, int)>, who: seq<(int, int)>, reports: seq<Match>) {
    |reports| <= |who| && forall j :: 0 <= j < |reports| ==>
      0 <= who[j].0 < |added| && reports[j] == Match(added[who[j].0].1, who[j].1)
  }

  ghost predicate NoneEmpty(added: seq<(Str, int)>) {
    forall k :: 0 <= k < |added| ==> added[k].0 != []
  }

  lemma {:induction false} OneMoreAdded(nocase: bool, added: seq<(Str, int)>, pat: Str, id: int)
    requires NoneEmpty(added) && pat != []
    ensures NoneEmpty(added + [(pat, id)])
    ensures PatternMap(nocase, added + [(pat, id)]) == PatternMap(nocase, added)[NormAll(nocase, pat) := id]
  {
    var more := added + [(pat, id)];
    assert more[..|more| - 1] == added;
  }

  /** The standing addition of a folded content. */
  ghost function Holder(nocase: bool, added: seq<(Str, int)>, w: Str): (k: int)
    requires w in PatternMap(nocase, added)
    ensures 0 <= k < |added| && NormAll(nocase, added[k].0) == w && added[k].1 == PatternMap(nocase, added)[w]
    ensures forall j :: k < j < |added| ==> NormAll(nocase, added[j].0) != w
  {
    var n := |added| - 1;
    if NormAll(nocase, added[n].0) == w then n else Holder(nocase, added[..n], w)
  }

  lemma {:induction false} HolderStands(nocase: bool, added: seq<(Str, int)>, w: Str)
    requires w in PatternMap(nocase, added)
    ensures Standing(nocase, added, Holder(nocase, added, w))
  {
    var k := Holder(nocase, added, w);
    forall j | k < j < |added|
      ensures !SameText(nocase, added[j].0, added[k].0)
    {
      FoldsAlike(nocase, added[j].0, added[k].0);
    }
  }

  lemma {:induction false} AddedIsHeld(nocase: bool, added: seq<(Str, int)>, k: nat)
    requires k < |added|
    ensures NormAll(nocase, added[k].0) in PatternMap(nocase, added)
  {
    if k < |added| - 1 {
      AddedIsHeld(nocase, added[..|added| - 1], k);
    }
  }

  lemma {:induction false} StandingHolds(nocase: bool, added: seq<(Str, int)>, k: int)
    requires Standing(nocase, added, k)
    ensures NormAll(nocase, added[k].0) in PatternMap(nocase, added)
    ensures Holder(nocase, added, NormAll(nocase, added[k].0)) == k
  {
    AddedIsHeld(nocase, added, k);
    var h := Holder(nocase, added, NormAll(nocase, added[k].0));
    FoldsAlike(nocase, added[h].0, added[k].0);
  }

  /** Ending somewhere, told on the folded text. */
  lemma {:induction false} EndsAtFolded(nocase: bool, p: Str, text: Str, i: int)
    ensures EndsAt(nocase, p, text, i)
            <==> |p| <= i + 1 <= |text| && IsSuffix(NormAll(nocase, p), NormAll(nocase, text)[..i + 1])
  {
    if |p| <= i + 1 <= |text| {
      var part := text[i + 1 - |p|..i + 1];
      FoldsAlike(nocase, p, part);
      assert NormAll(nocase, part) == NormAll(nocase, text)[..i + 1][i + 1 - |p|..];
    }
  }

  /** Which addition stands behind each report of a scan. */
  ghost function Holders(nocase: bool, added: seq<(Str, int)>, ws: seq<(Str, int)>): (who: seq<(int, int)>)
    requires forall j :: 0 <= j < |ws| ==> ws[j].0 in PatternMap(nocase, added)
    ensures |who| == |ws| && forall j :: 0 <= j < |ws| ==> who[j] == (Holder(nocase, added, ws[j].0), ws[j].1)
  {
    seq(|ws|, j requires 0 <= j < |ws| => (Holder(nocase, added, ws[j].0), ws[j].1))
  }

  lemma {:induction false} ReportIsOccurrence(nocase: bool, added: seq<(Str, int)>, text: Str, w: Str, i: nat)
    requires Reported(PatternMap(nocase, added), NormAll(nocase, text), w, i)
    ensures var k := Holder(nocase, added, w); Standing(nocase, added, k) && EndsAt(nocase, added[k].0, text, i)
  {
    HolderStands(nocase, added, w);
    EndsAtFolded(nocase, added[Holder(nocase, added, w)].0, text, i);
  }

  lemma {:induction false} OccurrenceIsReported(nocase: bool, added: seq<(Str, int)>, text: Str, k: int, i: int)
    requires NoneEmpty(added) && Standing(nocase, added, k) && EndsAt(nocase, added[k].0, text, i)
    ensures 0 <= i && Reported(PatternMap(nocase, added), NormAll(nocase, text), NormAll(nocase, added[k].0), i)
    ensures Holder(nocase, added, NormAll(nocase, added[k].0)) == k
  {
    StandingHolds(nocase, added, k);
    EndsAtFolded(nocase, added[k].0, text, i);
  }

  /** The headline, on the bytes as given: a scan of the folded text reports addition
      `k` at `i` exactly when `k` was not overridden and its pattern ends there up to
      letter case (exactly, without folding), each once and in order. */
  lemma {:induction false} ReportsUpToCase(nocase: bool, added: seq<(Str, int)>, text: Str) returns (who: seq<(int, int)>)
    requires NoneEmpty(added)
    ensures Occurrences(nocase, added, text, who)
    ensures var full := Scan(PatternMap(nocase, added), [], NormAll(nocase, text), 0);
            |full| == |who| && Tells(added, who, full)
  {
    var pats, folded := PatternMap(nocase, added), NormAll(nocase, text);
    var ws := ScanPatterns(pats, folded);
    ScanReportsExactlyTheOccurrences(pats, folded);
    ScanPatternsAreHeld(pats, folded);
    who := Holders(nocase, added, ws);
    forall k, i
      ensures (k, i) in who <==> Standing(nocase, added, k) && EndsAt(nocase, added[k].0, text, i)
    {
      WhoMember(nocase, added, text, ws, who, k, i);
    }
  }

  lemma {:induction false} WhoMember(nocase: bool, added: seq<(Str, int)>, text: Str, ws: seq<(Str, int)>, who: seq<(int, int)>, k: int, i: int)
    requires NoneEmpty(added)
    requires forall j :: 0 <= j < |ws| ==> ws[j].0 in PatternMap(nocase, added) && 0 <= ws[j].1
    requires forall w, e: nat :: (w, e) in ws <==> Reported(PatternMap(nocase, added), NormAll(nocase, text), w, e)
    requires who == Holders(nocase, added, ws)
    ensures (k, i) in who <==> Standing(nocase, added, k) && EndsAt(nocase, added[k].0, text, i)
  {
    if (k, i) in who {
      var j :| 0 <= j < |who| && who[j] == (k, i);
      assert (ws[j].0, i) in ws by { assert ws[j] == (ws[j].0, i); }
      ReportIsOccurrence(nocase, added, text, ws[j].0, i);
    }
    if Standing(nocase, added, k) && EndsAt(nocase, added[k].0, text, i) {
      var w := NormAll(nocase, added[k].0);
      OccurrenceIsReported(nocase, added, text, k, i);
      assert (w, i) in ws;
      var j :| 0 <= j < |ws| && ws[j] == (w, i);
      assert who[j] == (k, i);
    }
  }

  lemma {:induction false} ScanPatternsAreHeld(pats: map<Str, int>, text: Str)
    ensures forall j :: 0 <= j < |ScanPatterns(pats, text)| ==>
              ScanPatterns(pats, text)[j].0 in pats && 0 <= ScanPatterns(pats, text)[j].1
  {
    var ws := ScanPatterns(pats, text);
    forall j | 0 <= j < |ws|
      ensures ws[j].0 in pats && 0 <= ws[j].1
    {
      assert (ws[j].0, ws[j].1) in ws by { assert ws[j] == (ws[j].0, ws[j].1); }
      ScanPatternsMembers(pats, text, ws[j].0, ws[j].1);
    }
  }
}
