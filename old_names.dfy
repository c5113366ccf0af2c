/** Fuzzy matching of a clone name against the file names of a recommended
    set (`guessOldName`): a recommendation matches when, without its
    extension and after one swap of a naming convention in either
    direction, it spells the clone name. */
module OldNames {

  import opened Text

  /** Number of entries of the substitution table. */
  const Renamings: nat := 22

  /** Entry `j` of the substitution table, in its listed order. */
  function Renaming(j: nat): (p: (string, string))
    requires j < Renamings
    ensures p.0 != [] && p.1 != []
    ensures p.0[0] == '(' && p.1[0] == '('
  {
    match j
    case 0 => ("(Rev A)", "(Rev 1)")
    case 1 => ("(Rev B)", "(Rev 2)")
    case 2 => ("(Rev C)", "(Rev 3)")
    case 3 => ("(Rev D)", "(Rev 4)")
    case 4 => ("(Rev E)", "(Rev 5)")
    case 5 => ("(Rev F)", "(Rev 6)")
    case 6 => ("(Beta A)", "(Beta 1)")
    case 7 => ("(Beta B)", "(Beta 2)")
    case 8 => ("(Beta C)", "(Beta 3)")
    case 9 => ("(Beta D)", "(Beta 4)")
    case 10 => ("(Beta E)", "(Beta 5)")
    case 11 => ("(Beta F)", "(Beta 6)")
    case 12 => ("(Proto A)", "(Proto 1)")
    case 13 => ("(Proto B)", "(Proto 2)")
    case 14 => ("(Proto C)", "(Proto 3)")
    case 15 => ("(Proto D)", "(Proto 4)")
    case 16 => ("(Proto E)", "(Proto 5)")
    case 17 => ("(Proto F)", "(Proto 6)")
    case 18 => ("(Rev A)", "(Reprint)")
    case 19 => ("(Rev 1)", "(Reprint)")
    case 20 => ("(USA, Australia)", "(USA)")
    case 21 => ("(USA, Europe)", "(USA)")
  }

  /** The HTML escape of '&' that catalog names may carry, undone. */
  function Unescape(s: string): string {
    Replace(s, "&amp;", "&")
  }

  /** The name a recommendation is compared under: no extension, unescaped. */
  function RecStem(rec: string): string {
    Unescape(SplitExt(rec).0)
  }

  /** Substitution `j`, applied one way or the other, turns `stem` into `clone`. */
  predicate PairMatches(stem: string, clone: string, j: nat)
    requires j < Renamings
  {
    var (a, b) := Renaming(j);
    Replace(stem, a, b) == clone || Replace(stem, b, a) == clone
  }

  /** Some entry of the table turns the recommendation into the clone name. */
  predicate RecMatches(rec: string, clone: string) {
    AnyPairFrom(RecStem(rec), clone, 0)
  }

  /** The inner loop of `guessOldName`, from entry `j` on. */
  function AnyPairFrom(stem: string, clone: string, j: nat): (b: bool)
    requires j <= Renamings
    decreases Renamings - j
  {
    if j == Renamings then false
    else PairMatches(stem, clone, j) || AnyPairFrom(stem, clone, j + 1)
  }

  /** The inner loop finds a match exactly when some entry from `j` on
      gives one. */
  lemma {:induction false} AnyPairFromMeans(stem: string, clone: string, j: nat)
    requires j <= Renamings
    ensures AnyPairFrom(stem, clone, j) <==> exists k | j <= k < Renamings :: PairMatches(stem, clone, k)
    decreases Renamings - j
  {
    if j < Renamings {
      AnyPairFromMeans(stem, clone, j + 1);
    }
  }

  /** Whether each recommendation matches the clone name. */
  function Hits(recs: seq<string>, clone: string): (h: seq<bool>)
    ensures |h| == |recs|
    ensures forall k | 0 <= k < |recs| :: h[k] == RecMatches(recs[k], clone)
  {
    seq(|recs|, k requires 0 <= k < |recs| => RecMatches(recs[k], clone))
  }

  /** The outer loop of `guessOldName`, from recommendation `i` on, over
      whether each recommendation matches: the 1-based index of the first
      match, or 0. */
  function FirstHit(hits: seq<bool>, i: nat): (r: nat)
    requires i <= |hits|
    ensures r == 0 || i < r <= |hits|
    ensures r == 0 <==> forall k | i <= k < |hits| :: !hits[k]
    ensures r > 0 ==> hits[r - 1]
    ensures r > 0 ==> forall k | i <= k < r - 1 :: !hits[k]
    decreases |hits| - i
  {
    if i == |hits| then 0
    else if hits[i] then i + 1
    else FirstHit(hits, i + 1)
  }

  /** `guessOldName(recommendations, ccn)`: 0 when no recommendation matches
      the clone name, otherwise the 1-based index of the first that does. */
  function GuessOldName(recs: seq<string>, ccn: string): (r: nat)
    ensures r <= |recs|
    ensures r == 0 <==> forall k | 0 <= k < |recs| :: !RecMatches(recs[k], Unescape(ccn))
    ensures r > 0 ==> RecMatches(recs[r - 1], Unescape(ccn))
    ensures r > 0 ==> forall k | 0 <= k < r - 1 :: !RecMatches(recs[k], Unescape(ccn))
  {
    FirstHit(Hits(recs, Unescape(ccn)), 0)
  }

  /** Replacing leaves a prefix alone that holds no first character of the
      pattern. */
  lemma {:induction false} ReplaceSkips(x: string, y: string, pat: string, rep: string)
    requires pat != [] && pat[0] !in x
    ensures Replace(x + y, pat, rep) == x + Replace(y, pat, rep)
    decreases |x|
  {
    if x != [] {
      var s := x + y;
      if |s| < |pat| {
        assert Replace(y, pat, rep) == y;
      } else {
        assert s[0] == x[0] != pat[0];
        assert s[1..] == x[1..] + y;
        ReplaceSkips(x[1..], y, pat, rep);
        assert [x[0]] + x[1..] == x;
      }
    } else {
      assert x + y == y;
    }
  }

  /** A recommendation whose stem is the clone name and carries neither side
      of the first entry of the table is found, at its index or earlier. */
  lemma ExactStemFound(recs: seq<string>, ccn: string, i: nat)
    requires i < |recs| && RecStem(recs[i]) == Unescape(ccn)
    requires !Contains(Unescape(ccn), "(Rev A)") && !Contains(Unescape(ccn), "(Rev 1)")
    ensures 0 < GuessOldName(recs, ccn) <= i + 1
  {
    var stem := RecStem(recs[i]);
    ReplaceAbsent(stem, "(Rev A)", "(Rev 1)");
    assert PairMatches(stem, Unescape(ccn), 0);
  }

  /** A recommendation that names a release under one side of an entry of
      the table is found for the clone named under the other side. */
  lemma RenamedReleaseFound(recs: seq<string>, ccn: string, i: nat, title: string, j: nat)
    requires i < |recs| && j < Renamings && '(' !in title
    requires RecStem(recs[i]) == title + " " + Renaming(j).1
    requires Unescape(ccn) == title + " " + Renaming(j).0
    ensures 0 < GuessOldName(recs, ccn) <= i + 1
  {
    var (a, b) := Renaming(j);
    assert Replace(title + " " + b, b, a) == title + " " + a by {
      ReplaceSkips(title + " ", b, b, a);
      assert Replace(b, b, a) == a + Replace([], b, a);
    }
    assert PairMatches(RecStem(recs[i]), Unescape(ccn), j);
    AnyPairFromMeans(RecStem(recs[i]), Unescape(ccn), 0);
  }
}
