/** The canonical name of a catalog group (`getBestMergeName`, `getSuffix`):
    the clone with the best-ranked zone gives the name; its attributes up to
    the first region token form the stem, and at most one further attribute
    is appended as a suffix. */
module MergeNames {

  import opened Wrappers
  import opened Text
  import opened RegionTables
  import opened Attributes

  /** The result of `getBestMergeName`: the best zone rank and the name. */
  datatype MergeName = MergeName(index: nat, name: string)

  /** `numpy.min` */
  function MinOf(xs: seq<nat>): (m: nat)
    requires |xs| > 0
    ensures m in xs
    ensures forall j | 0 <= j < |xs| :: m <= xs[j]
  {
    if |xs| == 1 then xs[0]
    else
      var rest := MinOf(xs[1..]);
      if xs[0] <= rest then xs[0] else rest
  }

  /** `numpy.argmin`: the first index that holds the minimum. */
  function ArgMin(xs: seq<nat>): (k: nat)
    requires |xs| > 0
    ensures k < |xs| && xs[k] == MinOf(xs)
    ensures forall j | 0 <= j < k :: xs[j] > xs[k]
  {
    if |xs| == 1 then 0
    else
      var k := ArgMin(xs[1..]);
      if xs[0] <= xs[1..][k] then 0 else k + 1
  }

  /** The rank of every zone: `zoneValues`. */
  function ZoneRanks(zones: seq<Zone>): (r: seq<nat>)
    ensures |r| == |zones|
    ensures forall i | 0 <= i < |zones| :: r[i] == Rank(zones[i])
  {
    seq(|zones|, i requires 0 <= i < |zones| => Rank(zones[i]))
  }

  /** The first index from 1 on whose attribute is a display-order region token. */
  function FirstRegion(atts: seq<string>): (r: Option<nat>)
    ensures r.Some? ==> 1 <= r.value < |atts| && InBiasPriority(atts[r.value])
    ensures r.Some? ==> forall j | 1 <= j < r.value :: !InBiasPriority(atts[j])
    ensures r.None? ==> forall j | 1 <= j < |atts| :: !InBiasPriority(atts[j])
  {
    FirstRegionFrom(atts, 1)
  }

  function FirstRegionFrom(atts: seq<string>, from: nat): (r: Option<nat>)
    requires from >= 1
    ensures r.Some? ==> from <= r.value < |atts| && InBiasPriority(atts[r.value])
    ensures r.Some? ==> forall j | from <= j < r.value :: !InBiasPriority(atts[j])
    ensures r.None? ==> forall j | from <= j < |atts| :: !InBiasPriority(atts[j])
    decreases |atts| - from
  {
    if from >= |atts| then None
    else if InBiasPriority(atts[from]) then Some(from)
    else FirstRegionFrom(atts, from + 1)
  }

  /** Whether `getSuffix` may use `att` as the suffix of `mergeName`. */
  predicate SuffixEligible(att: string, mergeName: string) {
    && !InBiasPriority(att)
    && !StartsWithAny(att, SkippedAttributes)
    && !Contains(att, "Collection")
    && CountChar(att, '-') < 2
    && !Contains(mergeName, " (" + att + ")")
  }

  /** Whether `s` starts with one of `prefixes`. */
  predicate StartsWithAny(s: string, prefixes: seq<string>) {
    prefixes != [] && (prefixes[0] <= s || StartsWithAny(s, prefixes[1..]))
  }

  /** The index of the first attribute eligible as a suffix. */
  function FirstEligible(atts: seq<string>, mergeName: string): (r: Option<nat>)
    ensures r.Some? ==> r.value < |atts| && SuffixEligible(atts[r.value], mergeName)
    ensures r.Some? ==> forall j | 0 <= j < r.value :: !SuffixEligible(atts[j], mergeName)
    ensures r.None? ==> forall j | 0 <= j < |atts| :: !SuffixEligible(atts[j], mergeName)
  {
    FirstEligibleFrom(atts, mergeName, 0)
  }

  function FirstEligibleFrom(atts: seq<string>, mergeName: string, from: nat): (r: Option<nat>)
    ensures r.Some? ==> from <= r.value < |atts| && SuffixEligible(atts[r.value], mergeName)
    ensures r.Some? ==> forall j | from <= j < r.value :: !SuffixEligible(atts[j], mergeName)
    ensures r.None? ==> forall j | from <= j < |atts| :: !SuffixEligible(atts[j], mergeName)
    decreases |atts| - from
  {
    if from >= |atts| then None
    else if SuffixEligible(atts[from], mergeName) then Some(from)
    else FirstEligibleFrom(atts, mergeName, from + 1)
  }

  /** `getSuffix`: " (att)" for the first eligible attribute, else "". */
  function GetSuffix(atts: seq<string>, mergeName: string): (r: string)
    ensures r == match FirstEligible(atts, mergeName)
      case Some(k) => " (" + atts[k] + ")"
      case None => ""
  {
    if atts == [] then ""
    else if SuffixEligible(atts[0], mergeName) then " (" + atts[0] + ")"
    else
      var r := GetSuffix(atts[1..], mergeName);
      assert forall k | 1 <= k < |atts| :: atts[k] == atts[1..][k - 1];
      var f, g := FirstEligible(atts, mergeName), FirstEligible(atts[1..], mergeName);
      assert f.Some? <==> g.Some?;
      assert f.Some? ==> f.value == g.value + 1;
      r
  }

  /** The stem of the name taken from `bias`, whose split is `atts`, and the
      index from which the suffix is searched. */
  function MergeStem(bias: string, atts: seq<string>): (string, nat)
    requires |atts| >= 1
  {
    match FirstRegion(atts)
    case Some(i) => (Compose(atts[0], atts[1..i]), i + 1)
    case None => (bias, 1)
  }

  /** The index in `atts` of the attribute that `getSuffix` appends. */
  function SuffixIndex(bias: string, atts: seq<string>): (r: Option<nat>)
    requires |atts| >= 1
    ensures r.Some? ==> MergeStem(bias, atts).1 <= r.value < |atts|
  {
    var (stem, next) := MergeStem(bias, atts);
    if |atts| > next then
      match FirstEligible(atts[next..], stem)
      case Some(k) => Some(next + k)
      case None => None
    else None
  }

  /** The attribute `getSuffix` appends, as a list of at most one. */
  function SuffixAtts(bias: string, atts: seq<string>): (r: seq<string>)
    requires |atts| >= 1
    ensures |r| <= 1
    ensures r != [] ==> SuffixIndex(bias, atts).Some? && r[0] == atts[SuffixIndex(bias, atts).value]
  {
    match SuffixIndex(bias, atts)
    case Some(k) => [atts[k]]
    case None => []
  }

  /** The stem and the suffix before trailing dots are removed. */
  function UnstrippedName(bias: string, atts: seq<string>): string
    requires |atts| >= 1
  {
    var (stem, next) := MergeStem(bias, atts);
    stem + (if |atts| > next then GetSuffix(atts[next..], stem) else "")
  }

  /** What `getBestMergeName(biases, zones, indexOnly)` returns; `None` where
      numpy raises on an empty zone list or the split of the chosen name fails. */
  function MergeNameOf(biases: seq<string>, zones: seq<Zone>, indexOnly: bool): Option<MergeName>
    requires |biases| == |zones|
  {
    if zones == [] then None
    else
      var ranks := ZoneRanks(zones);
      var index := MinOf(ranks);
      if indexOnly then Some(MergeName(index, ""))
      else
        match NameFrom(biases[ArgMin(ranks)])
        case None => None
        case Some(name) => Some(MergeName(index, name))
  }

  /** The merge name derived from the chosen clone name `bias`. */
  function NameFrom(bias: string): (r: Option<string>)
    ensures r.None? <==> AttributeSplit(bias).None?
    ensures r.Some? ==> r.value == [] || r.value[|r.value| - 1] != '.'
  {
    var split := AttributeSplit(bias);
    if split.None? then None
    else
      assert |split.value| >= 1;
      Some(RStripChar(UnstrippedName(bias, split.value), '.'))
  }

  /** The first loop of `getBestMergeName`: the rank of every zone. */
  method ZoneValues(zones: seq<Zone>) returns (zoneValues: seq<nat>)
    ensures zoneValues == ZoneRanks(zones)
  {
    zoneValues := [];
    for k := 0 to |zones|
      invariant |zoneValues| == k
      invariant forall j | 0 <= j < k :: zoneValues[j] == Rank(zones[j])
    {
      var currVal := Rank(zones[k]);
      zoneValues := zoneValues + [currVal];
    }
  }

  /** The second and third loops of `getBestMergeName`: the chosen name cut
      back to its title and the attributes before the first region token,
      and the index after that token; the name itself and 1 when there is
      no region token. */
  method RegionStem(bias: string, mergeNameArray: seq<string>) returns (mergeName: string, regionIndex: nat)
    requires |mergeNameArray| >= 1
    ensures (mergeName, regionIndex) == MergeStem(bias, mergeNameArray)
  {
    mergeName := bias;
    regionIndex := 1;
    var i := 1;
    while i < |mergeNameArray|
      invariant 1 <= i <= |mergeNameArray|
      invariant FirstRegionFrom(mergeNameArray, i) == FirstRegion(mergeNameArray)
      invariant mergeName == bias && regionIndex == 1
    {
      if InBiasPriority(mergeNameArray[i]) {
        mergeName := mergeNameArray[0];
        for j := 1 to i
          invariant mergeName == Compose(mergeNameArray[0], mergeNameArray[1..j])
        {
          ComposeStep(mergeNameArray, j);
          mergeName := mergeName + " (" + mergeNameArray[j] + ")";
        }
        regionIndex := i + 1;
        break;
      }
      i := i + 1;
    }
  }

  /** `getBestMergeName`. */
  method BestMergeName(biases: seq<string>, zones: seq<Zone>, indexOnly: bool) returns (r: Option<MergeName>)
    requires |biases| == |zones|
    ensures r == MergeNameOf(biases, zones, indexOnly)
  {
    var zoneValues := ZoneValues(zones);
    if |zoneValues| == 0 {
      return None;
    }
    var mergeIndex := MinOf(zoneValues);
    if indexOnly {
      return Some(MergeName(mergeIndex, ""));
    }
    var bias := biases[ArgMin(zoneValues)];
    var split := AttributeSplit(bias);
    if split.None? {
      return None;
    }
    var mergeNameArray := split.value;
    var mergeName, regionIndex := RegionStem(bias, mergeNameArray);
    var suffix := "";
    if |mergeNameArray| > regionIndex {
      suffix := GetSuffix(mergeNameArray[regionIndex..], mergeName);
    }
    mergeName := RStripChar(mergeName + suffix, '.');
    assert NameFrom(bias) == Some(mergeName);
    return Some(MergeName(mergeIndex, mergeName));
  }

  /** The merge index is the smallest zone rank (99 for unknown zones), and
      the name comes from the first clone that has it. */
  lemma MergeIndexIsBestRank(biases: seq<string>, zones: seq<Zone>, indexOnly: bool)
    requires |biases| == |zones|
    requires MergeNameOf(biases, zones, indexOnly).Some?
    ensures var m := MergeNameOf(biases, zones, indexOnly).value;
      && m.index <= UnknownRank
      && (forall j | 0 <= j < |zones| :: m.index <= Rank(zones[j]))
      && exists k | 0 <= k < |zones| ::
           && Rank(zones[k]) == m.index
           && (forall j | 0 <= j < k :: Rank(zones[j]) > m.index)
           && (!indexOnly ==> NameFrom(biases[k]) == Some(m.name))
  {
    MergeNameParts(biases, zones, indexOnly);
    var ranks := ZoneRanks(zones);
    var k := ArgMin(ranks);
    var m := MergeNameOf(biases, zones, indexOnly).value;
    assert Rank(zones[k]) == ranks[k] == m.index;
    assert forall j | 0 <= j < k :: Rank(zones[j]) == ranks[j] > m.index;
    assert forall j | 0 <= j < |zones| :: m.index <= ranks[j] == Rank(zones[j]);
    assert && Rank(zones[k]) == m.index
           && (forall j | 0 <= j < k :: Rank(zones[j]) > m.index)
           && (!indexOnly ==> NameFrom(biases[k]) == Some(m.name));
  }

  /** What `MergeNameOf` is made of: the least rank, and the name derived
      from the first clone holding it. */
  lemma MergeNameParts(biases: seq<string>, zones: seq<Zone>, indexOnly: bool)
    requires |biases| == |zones|
    requires MergeNameOf(biases, zones, indexOnly).Some?
    ensures zones != []
    ensures var m := MergeNameOf(biases, zones, indexOnly).value;
      && m.index == MinOf(ZoneRanks(zones))
      && (!indexOnly ==> NameFrom(biases[ArgMin(ZoneRanks(zones))]) == Some(m.name))
  {
  }

  /** A merged name never ends in '.'. */
  lemma MergeNameNoTrailingDot(biases: seq<string>, zones: seq<Zone>)
    requires |biases| == |zones|
    requires MergeNameOf(biases, zones, false).Some?
    ensures var n := MergeNameOf(biases, zones, false).value.name;
      n == [] || n[|n| - 1] != '.'
  {
    MergeNameParts(biases, zones, false);
    assert NameFrom(biases[ArgMin(ZoneRanks(zones))]).Some?;
  }

  /** The name is the stem followed by at most one suffix " (att)": `att` is
      the first attribute after the region token (after the title when there
      is none) that is eligible. */
  lemma MergeNameShape(bias: string, atts: seq<string>)
    requires |atts| >= 1
    ensures var (stem, next) := MergeStem(bias, atts);
      && UnstrippedName(bias, atts) == stem + ParenList(SuffixAtts(bias, atts))
      && (SuffixIndex(bias, atts).Some? ==> SuffixEligible(atts[SuffixIndex(bias, atts).value], stem))
      && (forall j | next <= j < |atts| && (SuffixIndex(bias, atts).None? || j < SuffixIndex(bias, atts).value) ::
            !SuffixEligible(atts[j], stem))
  {
    var (stem, next) := MergeStem(bias, atts);
    if |atts| > next {
      assert forall j | next <= j < |atts| :: atts[j] == atts[next..][j - next];
    }
    var sa := SuffixAtts(bias, atts);
    if sa != [] {
      assert ParenList(sa) == " (" + sa[0] + ")" + ParenList(sa[1..]);
    }
  }

  /** When the chosen name has a region token at index i, the name before dot
      stripping splits back into the title, the attributes before the region
      token, and the suffix attribute if there is one. */
  lemma StemSplitsBack(bias: string, atts: seq<string>)
    requires WellFormed(atts)
    requires FirstRegion(atts).Some?
    ensures AttributeSplit(UnstrippedName(bias, atts)) ==
      Some(atts[..FirstRegion(atts).value] + SuffixAtts(bias, atts))
  {
    var i := FirstRegion(atts).value;
    var sa := SuffixAtts(bias, atts);
    UnstrippedAsCompose(bias, atts);
    PrefixSplits(atts, i, sa);
  }

  /** With a region token at index i, the name before dot stripping is the
      title with the attributes before the token and the suffix. */
  lemma UnstrippedAsCompose(bias: string, atts: seq<string>)
    requires |atts| >= 1 && FirstRegion(atts).Some?
    ensures UnstrippedName(bias, atts) ==
      Compose(atts[0], atts[1..FirstRegion(atts).value] + SuffixAtts(bias, atts))
  {
    var i := FirstRegion(atts).value;
    var sa := SuffixAtts(bias, atts);
    MergeNameShape(bias, atts);
    ParenListConcat(atts[1..i], sa);
  }
}
