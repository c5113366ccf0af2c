/** Three decisions taken inside the catalog scan and the copy loop: the zone
    inferred for a release of a flat catalog, the category kept for a merged
    game, and the region folders a game is copied into. */
module CatalogRules {

  import opened Wrappers
  import opened RegionTables
  import opened Attributes
  import opened MergeNames

  /** The least zone rank any of `atts` has in the bias table, if one has any. */
  function MinRank(atts: seq<string>): (r: Option<nat>)
    ensures r.None? <==> forall k | 0 <= k < |atts| :: ZoneBiasValue(atts[k]).None?
    ensures r.Some? ==> exists k | 0 <= k < |atts| :: ZoneBiasValue(atts[k]) == r
    ensures r.Some? ==> forall k | 0 <= k < |atts| && ZoneBiasValue(atts[k]).Some? ::
      r.value <= ZoneBiasValue(atts[k]).value
  {
    if atts == [] then None
    else
      var init := atts[..|atts| - 1];
      var rest := MinRank(init);
      var last := ZoneBiasValue(atts[|atts| - 1]);
      assert forall k | 0 <= k < |init| :: init[k] == atts[k];
      if last.Some? && (rest.None? || last.value < rest.value) then last else rest
  }

  /** The zone a least rank stands for: "" when no token had a rank, and
      Python `None` when the rank has no entry in `zoneNumToZone`. */
  function ZoneOfRank(m: Option<nat>): Zone {
    match m
    case None => Zone("")
    case Some(n) =>
      match ZoneNumToZone(n)
      case None => NoZone
      case Some(z) => Zone(z)
  }

  /** `bestZoneNum` for a least rank. */
  function RankOrUnknown(m: Option<nat>): nat {
    match m
    case None => UnknownRank
    case Some(n) => n
  }

  /** The inner loop at romOrganizerDeluxe.py 400-404 over the split of one
      release: the zone of the least rank met, kept on ties. */
  method InferZone(atts: seq<string>) returns (zone: Zone)
    ensures zone == ZoneOfRank(MinRank(atts))
  {
    var bestNum: nat := UnknownRank;
    zone := Zone("");
    for i := 0 to |atts|
      invariant bestNum == RankOrUnknown(MinRank(atts[..i]))
      invariant zone == ZoneOfRank(MinRank(atts[..i]))
    {
      assert atts[..i + 1][..i] == atts[..i];
      var current := ZoneBiasValue(atts[i]);
      if current.Some? && current.value < bestNum {
        bestNum := current.value;
        zone := match ZoneNumToZone(bestNum) case None => NoZone case Some(z) => Zone(z);
      }
    }
    assert atts[..|atts|] == atts;
  }

  /** The zone inferred for one release of a flat catalog; `None` where
      the split of its name raises IndexError. */
  method InferRegion(clone: string) returns (r: Option<Zone>)
    ensures r.None? <==> AttributeSplit(clone).None?
    ensures r.Some? ==> r.value == ZoneOfRank(MinRank(AttributeSplit(clone).value))
  {
    var split := AttributeSplit(clone);
    if split.None? {
      return None;
    }
    var zone := InferZone(split.value);
    return Some(zone);
  }

  /** The inferred zone is "" exactly when no token of the release has a rank. */
  lemma BlankZoneWhenUnranked(atts: seq<string>)
    ensures ZoneOfRank(MinRank(atts)) == Zone("") <==>
      forall k | 0 <= k < |atts| :: ZoneBiasValue(atts[k]).None?
  {
  }

  /** A release whose best token is "En" (rank 1) gets no zone at all,
      because `zoneNumToZone` has no key 1. */
  lemma EnglishBestHasNoZone(atts: seq<string>)
    requires "En" in atts
    requires forall k | 0 <= k < |atts| :: ZoneBiasValue(atts[k]) != Some(0)
    ensures ZoneOfRank(MinRank(atts)) == NoZone
  {
    RankOneHasNoZone();
    var k :| 0 <= k < |atts| && atts[k] == "En";
    var m := MinRank(atts);
    assert m.Some? && m.value <= 1;
    var j :| 0 <= j < |atts| && ZoneBiasValue(atts[j]) == m;
    assert m.value != 0;
  }

  /** The entry of `categoryDict` for a merged game after one more release
      of category `category` joins it (romOrganizerDeluxe.py 478-491);
      `previous` is the entry before. `None` where the lookup of an unknown
      `category` raises KeyError. */
  function KeptCategory(isNoIntro: bool, previous: Option<string>, category: string): (r: Option<string>)
    ensures r.None? <==> !isNoIntro && category !in CategoryValues
    ensures isNoIntro ==> r == Some("Games")
    ensures !isNoIntro && r.Some? ==> r.value == category || Some(r.value) == previous
    ensures !isNoIntro && r.Some? && (previous.None? || previous.value !in CategoryValues) ==>
      r.value == category
    ensures !isNoIntro && r.Some? && previous.Some? && previous.value in CategoryValues ==>
      && r.value in CategoryValues
      && CategoryValues[r.value] <= CategoryValues[previous.value]
      && CategoryValues[r.value] <= CategoryValues[category]
  {
    if isNoIntro then Some("Games")
    else if category !in CategoryValues then None
    else if previous.None? || previous.value !in CategoryValues then Some(category)
    else if CategoryValues[previous.value] < CategoryValues[category] then previous
    else Some(category)
  }

  /** Distinct categories have distinct values. */
  lemma CategoryValuesDistinct(a: string, b: string)
    requires a in CategoryValues && b in CategoryValues && a != b
    ensures CategoryValues[a] != CategoryValues[b]
  {
  }

  /** Known categories joining a game in either order leave the same entry. */
  lemma KeptCategoryOrderFree(previous: Option<string>, a: string, b: string)
    requires a in CategoryValues && b in CategoryValues
    ensures KeptCategory(false, KeptCategory(false, previous, a), b)
         == KeptCategory(false, KeptCategory(false, previous, b), a)
  {
    var pa := KeptCategory(false, previous, a).value;
    var pb := KeptCategory(false, previous, b).value;
    if pa != b && pa in CategoryValues {
      CategoryValuesDistinct(pa, b);
    }
    if pb != a && pb in CategoryValues {
      CategoryValuesDistinct(pb, a);
    }
    if a != b {
      CategoryValuesDistinct(a, b);
    }
  }

  /** A category joining a game that already holds it changes nothing. */
  lemma KeptCategoryIdempotent(c: string)
    requires c in CategoryValues
    ensures KeptCategory(false, Some(c), c) == Some(c)
  {
  }

  /** The labels of the region folders. */
  const RegionLabels: seq<string> := [
    "[BIOS]", "[Test Program]", "[USA]", "[Europe]", "[Other (English)]", "[Japan]",
    "[Other (non-English)]"
  ]

  /** The region folder of a game from its merge name, its region rank and
      the attributes of its best release, before primary regions are folded
      away. */
  function RegionLabel(gameName: string, regionNum: nat, atts: seq<string>): (r: string)
    ensures r in RegionLabels
    ensures "[BIOS]" <= gameName <==> r == "[BIOS]"
    ensures !("[BIOS]" <= gameName) && "Test Program" in atts <==> r == "[Test Program]"
  {
    if "[BIOS]" <= gameName then "[BIOS]"
    else if "Test Program" in atts then "[Test Program]"
    else if regionNum == 0 then "[USA]"
    else if regionNum == 2 then "[Europe]"
    else if regionNum in [1, 3, 4] then "[Other (English)]"
    else if regionNum == 5 then "[Japan]"
    else "[Other (non-English)]"
  }

  /** The folders a game is copied into (`gameRegion` and the
      `...Str` labels of romOrganizerDeluxe.py 602-623). */
  datatype Folders = Folders(
    region: string, unlicensed: string, unreleased: string, compilation: string,
    classicNES: string, gbaVideo: string, demo: string)

  const GameBoyAdvance: string := "Nintendo - Game Boy Advance"

  function Label(on: bool, name: string): string {
    if on then name else ""
  }

  /** Every folder of the copy loop for one game. */
  function FoldersOf(systemName: string, primaryRegions: seq<string>, gameName: string,
                     regionNum: nat, atts: seq<string>): (r: Folders)
    ensures r.region == "" <==> RegionLabel(gameName, regionNum, atts) in primaryRegions
    ensures r.region != "" ==> r.region == RegionLabel(gameName, regionNum, atts)
    ensures r.unlicensed != "" <==> "Unl" in atts
    ensures r.unreleased != "" <==> "Proto" in atts
    ensures r.demo != "" <==> "Sample" in atts || "Demo" in atts
    ensures r.compilation != "" <==> systemName == GameBoyAdvance && StartsWithAny(gameName, CompilationArray)
    ensures r.classicNES != "" <==> systemName == GameBoyAdvance && StartsWithAny(gameName, ClassicNESArray)
    ensures r.gbaVideo != "" <==> "Game Boy Advance Video" <= gameName
  {
    var folder := RegionLabel(gameName, regionNum, atts);
    var gba := systemName == GameBoyAdvance;
    Folders(
      if folder in primaryRegions then "" else folder,
      Label("Unl" in atts, "[Unlicensed]"),
      Label("Proto" in atts, "[Unreleased]"),
      Label(gba && StartsWithAny(gameName, CompilationArray), "[Compilations]"),
      Label(gba && StartsWithAny(gameName, ClassicNESArray), "[NES & Famicom]"),
      Label("Game Boy Advance Video" <= gameName, "[GBA Video]"),
      Label("Sample" in atts || "Demo" in atts, "[Demos]"))
  }

  /** For a game that is neither a BIOS nor a test program and has a ranked
      zone, its region folder follows the zone token that rank stands for:
      "U", "E", "J", an English-speaking zone ("A", "Ca" or the token-less
      rank of "En"), or any other zone. */
  lemma RegionLabelByZone(gameName: string, regionNum: nat, atts: seq<string>)
    requires !("[BIOS]" <= gameName) && "Test Program" !in atts
    ensures var r, z := RegionLabel(gameName, regionNum, atts), ZoneNumToZone(regionNum);
      && (regionNum <= 25 ==>
        && (r == "[USA]" <==> z == Some("U"))
        && (r == "[Europe]" <==> z == Some("E"))
        && (r == "[Japan]" <==> z == Some("J"))
        && (r == "[Other (English)]" <==> z in {None, Some("A"), Some("Ca")})
        && (r == "[Other (non-English)]" <==> z.Some? && z.value !in {"U", "E", "J", "A", "Ca"}))
      && (regionNum > 25 ==> r == "[Other (non-English)]")
  {
  }

  /** A game none of whose releases has a ranked zone gets the merge index
      99 from `getBestMergeName`, and so lands in the non-English folder
      unless it is a BIOS or a test program. */
  lemma UnrankedGameIsNonEnglish(biases: seq<string>, zones: seq<Zone>, gameName: string, atts: seq<string>)
    requires |biases| == |zones| && zones != []
    requires forall j | 0 <= j < |zones| :: Rank(zones[j]) == UnknownRank
    requires !("[BIOS]" <= gameName) && "Test Program" !in atts
    ensures MergeNameOf(biases, zones, true).Some?
    ensures RegionLabel(gameName, MergeNameOf(biases, zones, true).value.index, atts) == "[Other (non-English)]"
  {
    MergeIndexIsBestRank(biases, zones, true);
    RegionLabelByZone(gameName, UnknownRank, atts);
  }
}
