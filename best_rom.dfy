/** The 1G1R choice among the clones of one game (`getBestRom`): the clone
    whose region comes first in the preference order, then the one with the
    highest score, then the last one in sorted order. */
module BestRoms {

  import opened Wrappers
  import opened Attributes
  import opened RegionTables
  import opened Ordering
  import MergeNames

  /** `getAttributeSplit(clone)[1:]`: the attributes after the title. */
  function Atts(clone: string): (r: seq<string>)
    requires AttributeSplit(clone).Some?
    ensures forall i | 0 <= i < |r| :: IsAttribute(r[i])
  {
    AttributeSplit(clone).value[1..]
  }

  /** The zone value of a clone: the index of the first `biasPriority` entry
      among its attributes, from entry `i` on, or 99. */
  function ZoneFrom(atts: seq<string>, i: nat): (r: nat)
    requires i <= Preferences
    ensures r == UnknownRank || i <= r < Preferences
    ensures r < UnknownRank ==> Preferred(r) in atts
    ensures forall j | i <= j < Preferences && j < r :: Preferred(j) !in atts
    decreases Preferences - i
  {
    if i == Preferences then UnknownRank
    else if Preferred(i) in atts then i
    else ZoneFrom(atts, i + 1)
  }

  function ZoneValue(atts: seq<string>): (r: nat)
    ensures r == UnknownRank || r < Preferences
  {
    ZoneFrom(atts, 0)
  }

  /** `[a for a in atts if len(a) >= n]` */
  function LongAtts(atts: seq<string>, n: nat): (r: seq<string>)
    ensures forall i | 0 <= i < |r| :: |r[i]| >= n && r[i] in atts
  {
    if atts == [] then []
    else if |atts[0]| >= n then [atts[0]] + LongAtts(atts[1..], n)
    else LongAtts(atts[1..], n)
  }

  /** A word at least `n` long survives the length filter exactly when it
      is in the list, so the filter does not change whether it is found. */
  lemma {:induction false} LongAttsKeeps(atts: seq<string>, n: nat, x: string)
    requires |x| >= n
    ensures x in LongAtts(atts, n) <==> x in atts
  {
    if atts != [] {
      LongAttsKeeps(atts[1..], n, x);
      assert atts == [atts[0]] + atts[1..];
    }
  }

  /** `[a[0] for a in atts]` */
  function Initials(atts: seq<string>): (r: seq<char>)
    requires forall i | 0 <= i < |atts| :: atts[i] != []
    ensures |r| == |atts|
    ensures forall k | 0 <= k < |atts| :: r[k] == atts[k][0]
  {
    seq(|atts|, k requires 0 <= k < |atts| => atts[k][0])
  }

  /** The score of a clone as `getBestRom` computes it: revision and version
      bonuses, beta and prototype penalties, re-release and demo penalties. */
  function Score(atts: seq<string>): (r: int)
    requires forall i | 0 <= i < |atts| :: atts[i] != []
    ensures -50 <= r <= 160
  {
    100
    + (if "Rev" in LongAtts(atts, 3) then 30 else 0)
    + (if 'v' in Initials(atts) then 30 else 0)
    - (if "Beta" in LongAtts(atts, 4) || "Proto" in LongAtts(atts, 5) then 50 else 0)
    - (if "Virtual Console" in atts || "GameCube" in atts || "Collection" in atts then 10 else 0)
    - (if "Sample" in atts || "Demo" in atts || "Promo" in atts then 90 else 0)
  }

  /** Every clone has a title. */
  predicate AllSplit(clones: seq<string>) {
    forall c | c in clones :: AttributeSplit(c).Some?
  }

  function ZoneOf(clone: string): nat
    requires AttributeSplit(clone).Some?
  {
    ZoneValue(Atts(clone))
  }

  function ScoreOf(clone: string): int
    requires AttributeSplit(clone).Some?
  {
    Score(Atts(clone))
  }

  /** `x` is one of the clones; no clone has an earlier zone; among the clones
      of its zone none scores higher; and among those of the same score it
      is last in sorted order. */
  predicate IsBest(clones: seq<string>, x: string)
    requires AllSplit(clones)
  {
    && x in clones
    && forall c | c in clones ::
      && ZoneOf(x) <= ZoneOf(c)
      && (ZoneOf(c) == ZoneOf(x) ==> ScoreOf(c) <= ScoreOf(x))
      && (ZoneOf(c) == ZoneOf(x) && ScoreOf(c) == ScoreOf(x) ==> LessEq(c, x))
  }

  /** `getBestRom(clones)`; `None` where Python raises: on an empty list
      (`numpy.min` of nothing) and on a clone without a title. */
  method BestRom(clones: seq<string>) returns (r: Option<string>)
    ensures r.None? <==> clones == [] || !AllSplit(clones)
    ensures r.Some? ==> AllSplit(clones) && IsBest(clones, r.value)
  {
    var sorted := Sort(clones);
    SortedSplits(clones, sorted);
    var ok, zoneValues, cloneScores := ScanClones(sorted);
    if !ok || |sorted| == 0 {
      return None;
    }
    var finalZone := ChooseIndex(zoneValues, cloneScores);
    SortedChoiceIsBest(clones, sorted, zoneValues, cloneScores, finalZone);
    r := Some(sorted[finalZone]);
  }

  /** Sorting keeps the clones, so the clones have titles exactly when the
      sorted ones do. */
  lemma SortedSplits(clones: seq<string>, sorted: seq<string>)
    requires multiset(sorted) == multiset(clones)
    ensures |sorted| == |clones|
    ensures AllSplit(clones) <==> forall k | 0 <= k < |sorted| :: AttributeSplit(sorted[k]).Some?
  {
    assert |sorted| == |clones| by { assert |multiset(sorted)| == |multiset(clones)|; }
    assert forall c :: c in clones <==> c in sorted by {
      forall c ensures c in clones <==> c in sorted {
        assert c in multiset(clones) <==> c in multiset(sorted);
      }
    }
  }

  /** The index `getBestRom` settles on, from the zone values and scores of
      the sorted clones: the least zone (`numpy.min`), the indices holding it
      (`numpy.where`), and the last of the greatest score among them. */
  method ChooseIndex(zoneValues: seq<nat>, cloneScores: seq<int>) returns (f: nat)
    requires zoneValues != [] && |cloneScores| == |zoneValues|
    requires forall k | 0 <= k < |cloneScores| :: cloneScores[k] > -500
    ensures f < |zoneValues|
    ensures forall k | 0 <= k < |zoneValues| :: zoneValues[f] <= zoneValues[k]
    ensures forall k | 0 <= k < |zoneValues| && zoneValues[k] == zoneValues[f] :: cloneScores[k] <= cloneScores[f]
    ensures forall k | f < k < |zoneValues| && zoneValues[k] == zoneValues[f] :: cloneScores[k] < cloneScores[f]
  {
    var minZone := MergeNames.MinOf(zoneValues);
    var bestZones := WhereEqual(zoneValues, minZone);
    f := PickLast(bestZones, cloneScores);
    forall k | 0 <= k < |zoneValues| && zoneValues[k] == zoneValues[f]
      ensures cloneScores[k] <= cloneScores[f]
      ensures f < k ==> cloneScores[k] < cloneScores[f]
    {
      var u :| 0 <= u < |bestZones| && bestZones[u] == k;
    }
  }

  /** The first `n` clones have titles, and their zone values and scores
      are recorded. */
  predicate Scanned(sorted: seq<string>, zoneValues: seq<nat>, cloneScores: seq<int>, n: nat) {
    && n <= |sorted| && |zoneValues| == n && |cloneScores| == n
    && forall k | 0 <= k < n ::
      && AttributeSplit(sorted[k]).Some?
      && zoneValues[k] == ZoneOf(sorted[k])
      && cloneScores[k] == ScoreOf(sorted[k])
  }

  lemma ScannedStep(sorted: seq<string>, zoneValues: seq<nat>, cloneScores: seq<int>, n: nat)
    requires Scanned(sorted, zoneValues, cloneScores, n) && n < |sorted|
    requires AttributeSplit(sorted[n]).Some?
    ensures Scanned(sorted, zoneValues + [ZoneOf(sorted[n])], cloneScores + [ScoreOf(sorted[n])], n + 1)
  {
  }

  /** The loop of `getBestRom` over the sorted clones, filling `zoneValues`
      and `cloneScores`; `ok` is false where a clone has no title. */
  method ScanClones(sorted: seq<string>) returns (ok: bool, zoneValues: seq<nat>, cloneScores: seq<int>)
    ensures ok <==> forall k | 0 <= k < |sorted| :: AttributeSplit(sorted[k]).Some?
    ensures ok ==> Scanned(sorted, zoneValues, cloneScores, |sorted|)
  {
    zoneValues, cloneScores := [], [];
    for n := 0 to |sorted|
      invariant Scanned(sorted, zoneValues, cloneScores, n)
    {
      var split := AttributeSplit(sorted[n]);
      if split.None? {
        return false, zoneValues, cloneScores;
      }
      var attributes := split.value[1..];
      var zone := FirstPreferred(attributes);
      ScannedStep(sorted, zoneValues, cloneScores, n);
      zoneValues := zoneValues + [zone];
      cloneScores := cloneScores + [Score(attributes)];
    }
    ok := true;
  }

  /** The inner loop over `biasPriority`, left at the first entry present. */
  method FirstPreferred(attributes: seq<string>) returns (zone: nat)
    ensures zone == ZoneValue(attributes)
  {
    zone := UnknownRank;
    var i := 0;
    while i < Preferences
      invariant i <= Preferences
      invariant forall j | 0 <= j < i :: Preferred(j) !in attributes
    {
      if Preferred(i) in attributes {
        zone := i;
        break;
      }
      i := i + 1;
    }
  }

  /** `numpy.where(xs == x)[0]`: the indices holding `x`, in increasing order. */
  method WhereEqual(xs: seq<nat>, x: nat) returns (r: seq<nat>)
    ensures forall u | 0 <= u < |r| :: r[u] < |xs| && xs[r[u]] == x
    ensures forall u, v | 0 <= u < v < |r| :: r[u] < r[v]
    ensures forall k | 0 <= k < |xs| && xs[k] == x :: k in r
  {
    r := [];
    for n := 0 to |xs|
      invariant forall u | 0 <= u < |r| :: r[u] < n && xs[r[u]] == x
      invariant forall u, v | 0 <= u < v < |r| :: r[u] < r[v]
      invariant forall k | 0 <= k < n && xs[k] == x :: k in r
    {
      if xs[n] == x {
        r := r + [n];
      }
    }
  }

  /** The final loop of `getBestRom`: the index among `bestZones` whose score
      is the greatest, the last one on ties (`>=`), starting from -500. */
  method PickLast(bestZones: seq<nat>, cloneScores: seq<int>) returns (finalZone: nat)
    requires bestZones != []
    requires forall u | 0 <= u < |bestZones| :: bestZones[u] < |cloneScores|
    requires forall u, v | 0 <= u < v < |bestZones| :: bestZones[u] < bestZones[v]
    requires forall k | 0 <= k < |cloneScores| :: cloneScores[k] > -500
    ensures finalZone in bestZones
    ensures forall u | 0 <= u < |bestZones| :: cloneScores[bestZones[u]] <= cloneScores[finalZone]
    ensures forall u | 0 <= u < |bestZones| && bestZones[u] > finalZone ::
      cloneScores[bestZones[u]] < cloneScores[finalZone]
  {
    finalZone := UnknownRank;
    var bestScore := -500;
    ghost var p := 0;
    for t := 0 to |bestZones|
      invariant t == 0 ==> bestScore == -500
      invariant t > 0 ==> p < t && finalZone == bestZones[p] && bestScore == cloneScores[finalZone]
      invariant forall u | 0 <= u < t :: cloneScores[bestZones[u]] <= bestScore
      invariant forall u | p < u < t :: cloneScores[bestZones[u]] < bestScore
    {
      var zone := bestZones[t];
      var currScore := cloneScores[zone];
      if currScore >= bestScore {
        bestScore := currScore;
        finalZone := zone;
        p := t;
      }
    }
    forall u | 0 <= u < |bestZones| && bestZones[u] > finalZone
      ensures cloneScores[bestZones[u]] < cloneScores[finalZone]
    {
      assert u > p;
    }
  }

  /** The clone at index `f` of the sorted list that has the least zone, the
      greatest score in that zone, and no later clone of that zone and score,
      is the best clone. */
  lemma SortedChoiceIsBest(clones: seq<string>, sorted: seq<string>, zs: seq<nat>, ss: seq<int>, f: nat)
    requires Sorted(sorted) && multiset(sorted) == multiset(clones)
    requires Scanned(sorted, zs, ss, |sorted|)
    requires f < |sorted|
    requires forall k | 0 <= k < |sorted| :: zs[f] <= zs[k]
    requires forall k | 0 <= k < |sorted| && zs[k] == zs[f] :: ss[k] <= ss[f]
    requires forall k | f < k < |sorted| && zs[k] == zs[f] :: ss[k] < ss[f]
    ensures AllSplit(clones) && IsBest(clones, sorted[f])
  {
    assert forall c :: c in clones <==> c in sorted by {
      forall c ensures c in clones <==> c in sorted {
        assert c in multiset(clones) <==> c in multiset(sorted);
      }
    }
    var x := sorted[f];
    forall c | c in clones
      ensures AttributeSplit(c).Some?
      ensures ZoneOf(x) <= ZoneOf(c)
      ensures ZoneOf(c) == ZoneOf(x) ==> ScoreOf(c) <= ScoreOf(x)
      ensures ZoneOf(c) == ZoneOf(x) && ScoreOf(c) == ScoreOf(x) ==> LessEq(c, x)
    {
      var k :| 0 <= k < |sorted| && sorted[k] == c;
      if k == f {
        LessEqRefl(x);
      }
    }
  }

  /** At most one clone is the best, so the choice does not depend on the
      order in which the clones are listed. */
  lemma BestUnique(clones: seq<string>, x: string, y: string)
    requires AllSplit(clones) && IsBest(clones, x) && IsBest(clones, y)
    ensures x == y
  {
    LessEqAntisym(x, y);
  }

  /** Some attribute starts with `p`. */
  predicate HasPrefixed(atts: seq<string>, p: string) {
    exists i | 0 <= i < |atts| :: p <= atts[i]
  }

  /** The score with the revision, beta and prototype checks made on the
      first three, four and five characters of each attribute, which the
      length filters and the first-character check beside them stand for. */
  function IntendedScore(atts: seq<string>): (r: int)
    requires forall i | 0 <= i < |atts| :: atts[i] != []
    ensures -50 <= r <= 160
  {
    100
    + (if HasPrefixed(atts, "Rev") then 30 else 0)
    + (if 'v' in Initials(atts) then 30 else 0)
    - (if HasPrefixed(atts, "Beta") || HasPrefixed(atts, "Proto") then 50 else 0)
    - (if "Virtual Console" in atts || "GameCube" in atts || "Collection" in atts then 10 else 0)
    - (if "Sample" in atts || "Demo" in atts || "Promo" in atts then 90 else 0)
  }

  /** The initials of a list with one more attribute. */
  lemma InitialsAppend(atts: seq<string>, a: string)
    requires forall i | 0 <= i < |atts| :: atts[i] != []
    requires a != []
    ensures Initials(atts + [a]) == Initials(atts) + [a[0]]
  {
  }

  /** As written, a numbered revision such as "Rev 1" earns no bonus: only an
      attribute that is exactly "Rev" does. */
  lemma RevisionIgnoredAsWritten(atts: seq<string>, rev: string)
    requires forall i | 0 <= i < |atts| :: atts[i] != []
    requires "Rev " <= rev
    ensures Score(atts + [rev]) == Score(atts)
  {
    InitialsAppend(atts, rev);
    var all := atts + [rev];
    assert rev[0] == 'R' && |rev| >= 4;
    LongAttsKeeps(all, 3, "Rev");
    LongAttsKeeps(atts, 3, "Rev");
    LongAttsKeeps(all, 4, "Beta");
    LongAttsKeeps(atts, 4, "Beta");
    LongAttsKeeps(all, 5, "Proto");
    LongAttsKeeps(atts, 5, "Proto");
    assert 'v' in Initials(all) <==> 'v' in Initials(atts);
    assert "Virtual Console" in all <==> "Virtual Console" in atts;
    assert "GameCube" in all <==> "GameCube" in atts;
    assert "Collection" in all <==> "Collection" in atts;
    assert "Sample" in all <==> "Sample" in atts;
    assert "Demo" in all <==> "Demo" in atts;
    assert "Promo" in all <==> "Promo" in atts;
  }

  /** With the prefix checks, a numbered revision earns the revision bonus. */
  lemma RevisionRewardedIntended(atts: seq<string>, rev: string)
    requires forall i | 0 <= i < |atts| :: atts[i] != []
    requires "Rev " <= rev && !HasPrefixed(atts, "Rev")
    ensures IntendedScore(atts + [rev]) == IntendedScore(atts) + 30
  {
    InitialsAppend(atts, rev);
    var all := atts + [rev];
    assert rev[0] == 'R';
    assert "Rev" <= all[|atts|];
    assert HasPrefixed(all, "Beta") <==> HasPrefixed(atts, "Beta") by {
      assert !("Beta" <= rev);
      assert forall i | 0 <= i < |atts| :: all[i] == atts[i];
    }
    assert HasPrefixed(all, "Proto") <==> HasPrefixed(atts, "Proto") by {
      assert !("Proto" <= rev);
      assert forall i | 0 <= i < |atts| :: all[i] == atts[i];
    }
  }

  /** Where every attribute that starts with "Rev", "Beta" or "Proto" is
      exactly that word, the written and the intended score agree. */
  lemma IntendedAgreesOnBareWords(atts: seq<string>)
    requires forall i | 0 <= i < |atts| :: atts[i] != []
    requires forall i | 0 <= i < |atts| :: "Rev" <= atts[i] ==> atts[i] == "Rev"
    requires forall i | 0 <= i < |atts| :: "Beta" <= atts[i] ==> atts[i] == "Beta"
    requires forall i | 0 <= i < |atts| :: "Proto" <= atts[i] ==> atts[i] == "Proto"
    ensures IntendedScore(atts) == Score(atts)
  {
    assert HasPrefixed(atts, "Rev") <==> "Rev" in atts;
    assert HasPrefixed(atts, "Beta") <==> "Beta" in atts;
    assert HasPrefixed(atts, "Proto") <==> "Proto" in atts;
    LongAttsKeeps(atts, 3, "Rev");
    LongAttsKeeps(atts, 4, "Beta");
    LongAttsKeeps(atts, 5, "Proto");
  }
}
