/** The configuration tables at the top of romOrganizerDeluxe.py: the order in
    which region and language tokens are preferred, the numeric rank of each
    zone token, the inverse map from a rank to a zone token, the category
    ranks, and the attribute lists that the naming and output rules consult. */
module RegionTables {

  import opened Wrappers

  /** The number of entries of `biasPriority`. */
  const Preferences: nat := 36

  /** Entry `i` of `biasPriority`, the display-order preference of region
      and language tokens. */
  function Preferred(i: nat): string
    requires i < Preferences
  {
    match i
    case 0 => "World"
    case 1 => "USA"
    case 2 => "En"
    case 3 => "Europe"
    case 4 => "Australia"
    case 5 => "Canada"
    case 6 => "Japan"
    case 7 => "Ja"
    case 8 => "France"
    case 9 => "Fr"
    case 10 => "Germany"
    case 11 => "De"
    case 12 => "Spain"
    case 13 => "Es"
    case 14 => "Italy"
    case 15 => "It"
    case 16 => "Norway"
    case 17 => "Brazil"
    case 18 => "Sweden"
    case 19 => "China"
    case 20 => "Zh"
    case 21 => "Korea"
    case 22 => "Ko"
    case 23 => "Asia"
    case 24 => "Netherlands"
    case 25 => "Russia"
    case 26 => "Ru"
    case 27 => "Denmark"
    case 28 => "Nl"
    case 29 => "Pt"
    case 30 => "Sv"
    case 31 => "No"
    case 32 => "Da"
    case 33 => "Fi"
    case 34 => "Pl"
    case 35 => "Unknown"
  }

  /** `x in biasPriority` */
  predicate InBiasPriority(x: string) {
    exists i | 0 <= i < Preferences :: Preferred(i) == x
  }

  /** The number of entries written in the `zoneBiasValues` dict literal. */
  const ZoneBiasEntries: nat := 52

  /** Entry `i` of the `zoneBiasValues` dict literal, in the order written;
      "No" and "Da" are written twice. */
  function ZoneBiasEntry(i: nat): (e: (string, nat))
    requires i < ZoneBiasEntries
    ensures e.1 <= 25
  {
    match i
    case 0 => ("World", 0) case 1 => ("U", 0) case 2 => ("USA", 0) case 3 => ("En", 1)
    case 4 => ("E", 2) case 5 => ("Europe", 2) case 6 => ("A", 3)
    case 7 => ("Australia", 3) case 8 => ("Ca", 4) case 9 => ("Canada", 4)
    case 10 => ("J", 5) case 11 => ("Japan", 5) case 12 => ("Ja", 5) case 13 => ("F", 6)
    case 14 => ("France", 6) case 15 => ("Fr", 6) case 16 => ("G", 7)
    case 17 => ("Germany", 7) case 18 => ("De", 7) case 19 => ("S", 8)
    case 20 => ("Spain", 8) case 21 => ("Es", 8) case 22 => ("I", 9)
    case 23 => ("Italy", 9) case 24 => ("It", 9) case 25 => ("No", 10)
    case 26 => ("Norway", 10) case 27 => ("Br", 11) case 28 => ("Brazil", 11)
    case 29 => ("Sw", 12) case 30 => ("Sweden", 12) case 31 => ("Cn", 13)
    case 32 => ("China", 13) case 33 => ("Zh", 13) case 34 => ("K", 14)
    case 35 => ("Korea", 14) case 36 => ("Ko", 14) case 37 => ("As", 15)
    case 38 => ("Asia", 15) case 39 => ("Ne", 16) case 40 => ("Netherlands", 16)
    case 41 => ("Ru", 17) case 42 => ("Russia", 17) case 43 => ("Da", 18)
    case 44 => ("Denmark", 18) case 45 => ("Nl", 19) case 46 => ("Pt", 20)
    case 47 => ("Sv", 21) case 48 => ("No", 22) case 49 => ("Da", 23) case 50 => ("Fi", 24)
    case 51 => ("Pl", 25)
  }

  /** `zoneBiasValues.get(token)`. A dict literal that repeats a key keeps
      its later value, so the entries are searched from the last one back. */
  function ZoneBiasValue(token: string): (r: Option<nat>)
    ensures r.Some? ==> r.value <= 25
  {
    LookupBefore(token, ZoneBiasEntries)
  }

  /** The value of the last of the first `n` entries whose key is `k`. */
  function LookupBefore(k: string, n: nat): (r: Option<nat>)
    requires n <= ZoneBiasEntries
    ensures r.Some? ==> r.value <= 25
  {
    if n == 0 then None
    else if ZoneBiasEntry(n - 1).0 == k then Some(ZoneBiasEntry(n - 1).1)
    else LookupBefore(k, n - 1)
  }

  /** Entries whose key is not `k` do not change the lookup of `k`. */
  lemma {:induction false} LookupSkips(k: string, lo: nat, n: nat)
    requires lo <= n <= ZoneBiasEntries
    requires forall j | lo <= j < n :: ZoneBiasEntry(j).0 != k
    ensures LookupBefore(k, n) == LookupBefore(k, lo)
  {
    if lo < n {
      LookupSkips(k, lo, n - 1);
    }
  }

  /** `zoneNumToZone.get(rank)`: the representative zone token of each
      rank; rank 1 ("En") has none. */
  function ZoneNumToZone(rank: nat): (z: Option<string>)
    ensures z.Some? ==> z.value != [] && rank <= 25
  {
    match rank
    case 0 => Some("U") case 2 => Some("E") case 3 => Some("A") case 4 => Some("Ca")
    case 5 => Some("J") case 6 => Some("F") case 7 => Some("G") case 8 => Some("S")
    case 9 => Some("I") case 10 => Some("No") case 11 => Some("Br") case 12 => Some("Sw")
    case 13 => Some("Cn") case 14 => Some("K") case 15 => Some("As") case 16 => Some("Ne")
    case 17 => Some("Ru") case 18 => Some("Da") case 19 => Some("Nl") case 20 => Some("Pt")
    case 21 => Some("Sv") case 22 => Some("No") case 23 => Some("Da") case 24 => Some("Fi")
    case 25 => Some("Pl")
    case _ => None
  }

  /** `categoryValues`: the lower the value, the more a category is preferred. */
  const CategoryValues: map<string, nat> := map[
    "Games" := 0, "Demos" := 1, "Bonus Discs" := 2, "Applications" := 3, "Coverdiscs" := 4
  ]

  const CompilationArray: seq<string> := [
    "2 Games in 1 -", "2 Games in 1! -", "2 Disney Games -", "2 Great Games! -",
    "2 in 1 -", "2 in 1 Game Pack -", "2-in-1 Fun Pack -", "3 Games in 1 -",
    "4 Games on One Game Pak", "Double Game!", "Double Pack", "2 Jeux en 1",
    "Crash Superpack", "Spyro Superpack", "Crash & Spyro Superpack"
  ]

  const ClassicNESArray: seq<string> := ["Classic NES Series", "Famicom Mini", "Hudson Best Collection"]

  /** Attribute prefixes that never become the suffix of a merged name. */
  const SkippedAttributes: seq<string> := [
    "Rev", "Beta", "Virtual Console", "Proto", "Unl", "v", "Switch Online",
    "GB Compatible", "SGB Enhanced", "Demo", "Disc", "Promo", "Sample", "DLC",
    "WiiWare", "GameCube", "Minis", "Promotion Card", "Namcot Collection",
    "Namco Museum Archives", "Club Nintendo", "Aftermarket", "Test Program",
    "Competition Cart", "NES Test"
  ]

  /** The rank used for a zone that is missing or not in the table. */
  const UnknownRank: nat := 99

  /** A zone as the catalog supplies it: Python `None` or a token. */
  datatype Zone = NoZone | Zone(name: string)

  /** `zoneBiasValues.get(zone)`, with 99 for `None` and for unknown tokens. */
  function Rank(z: Zone): (r: nat)
    ensures r <= 25 || r == UnknownRank
    ensures r < UnknownRank <==> z.Zone? && ZoneBiasValue(z.name).Some?
    ensures r < UnknownRank ==> ZoneBiasValue(z.name) == Some(r)
  {
    if z.Zone? && ZoneBiasValue(z.name).Some? then ZoneBiasValue(z.name).value else UnknownRank
  }

  /** The country names beside the repeated keys keep the earlier values. */
  lemma CountryNamesKeepEarlier()
    ensures ZoneBiasValue("Norway") == Some(10)
  {
    LookupSkips("Norway", 27, ZoneBiasEntries);
  }

  /** Rank 1 ("En") has a value but no representative zone token. */
  lemma RankOneHasNoZone()
    ensures ZoneBiasValue("En") == Some(1) && ZoneNumToZone(1) == None
  {
    LookupSkips("En", 4, ZoneBiasEntries);
  }

  /** The key "No" is written twice in `zoneBiasValues` and keeps its later
      value. */
  lemma RepeatedNoKeepsLater()
    ensures ZoneBiasValue("No") == Some(22)
  {
    LookupSkips("No", 49, ZoneBiasEntries);
  }

  /** The key "Da" is written twice too and keeps its later value. */
  lemma RepeatedDaKeepsLater()
    ensures ZoneBiasValue("Da") == Some(23)
  {
    LookupSkips("Da", 50, ZoneBiasEntries);
  }

  /** Ranks 10 and 18 map back to the tokens "No" and "Da", which rank 22
      and 23: the way back from a rank to a token does not keep those ranks. */
  lemma RankTokenRoundTrip()
    ensures ZoneBiasValue(ZoneNumToZone(10).value) == Some(22)
    ensures ZoneBiasValue(ZoneNumToZone(18).value) == Some(23)
  {
    RepeatedNoKeepsLater();
    RepeatedDaKeepsLater();
  }
}
