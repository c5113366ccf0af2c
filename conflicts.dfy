/** What happens when a second catalog group produces a canonical name that
    is already taken (`getMatchingRegion`, `handleDuplicateName`): each group
    may be told apart by the region its clones share. The directory rename
    of the first group is returned as an instruction instead of performed. */
module Conflicts {

  import opened Wrappers
  import opened Text
  import opened Attributes

  /** `getAttributeSplit(name)[1]`; `None` where Python raises. */
  function SecondAttribute(name: string): (r: Option<string>)
    ensures r.Some? ==> r.value != []
  {
    match AttributeSplit(name)
    case None => None
    case Some(atts) => if |atts| >= 2 then Some(atts[1]) else None
  }

  /** Every clone has `x` as its second attribute. */
  predicate AllSecond(clones: seq<string>, x: string) {
    forall i | 0 <= i < |clones| :: SecondAttribute(clones[i]) == Some(x)
  }

  /** The loop of `getMatchingRegion` over the clones after the first. */
  function AgreeFrom(clones: seq<string>, x: string, from: nat): (b: bool)
    ensures b <==> forall i | from <= i < |clones| :: SecondAttribute(clones[i]) == Some(x)
    decreases |clones| - from
  {
    if from >= |clones| then true
    else if SecondAttribute(clones[from]) != Some(x) then false
    else AgreeFrom(clones, x, from + 1)
  }

  /** `getMatchingRegion(clones)`: the second attribute shared by every
      clone, or "" when the list is empty, a clone has none, or two differ. */
  function MatchingRegion(clones: seq<string>): (r: string)
    ensures r != [] ==> clones != [] && AllSecond(clones, r)
    ensures clones != [] && SecondAttribute(clones[0]).Some? && AllSecond(clones, SecondAttribute(clones[0]).value)
      ==> r == SecondAttribute(clones[0]).value
  {
    if clones == [] then ""
    else
      match SecondAttribute(clones[0])
      case None => ""
      case Some(x) =>
        if AgreeFrom(clones, x, 1) then x else ""
  }

  /** The outcome of a name conflict: the name the second group takes, and
      the new name of the first group's directory, if it is renamed. */
  datatype Decision = Decision(name: string, renameFirstTo: Option<string>)

  /** The name under which the first group ends up. */
  function FirstName(mergeName: string, d: Decision): string {
    match d.renameFirstTo
    case Some(n) => n
    case None => mergeName
  }

  /** `handleDuplicateName(mergeName, secondClones, firstLocation)`, where
      `firstClones` is the listing of the first group's directory. */
  function HandleDuplicateName(mergeName: string, secondClones: seq<string>, firstClones: seq<string>): (d: Decision)
    ensures Contains(mergeName, "[BIOS]") ==> d == Decision(mergeName, None)
  {
    var mergeNameOnly := SplitExt(mergeName).0;
    if Contains(mergeName, "[BIOS]") then Decision(mergeName, None)
    else
      var firstRegion := MatchingRegion(firstClones);
      var secondRegion := MatchingRegion(secondClones);
      if firstRegion != "" && secondRegion == "" then
        Decision(mergeName, Some(mergeNameOnly + " (" + firstRegion + ")"))
      else if firstRegion == "" && secondRegion != "" then
        Decision(mergeNameOnly + " (" + secondRegion + ")", None)
      else if firstRegion != "" && secondRegion != "" then
        Decision(mergeNameOnly + " (" + secondRegion + ")", Some(mergeNameOnly + " (" + firstRegion + ")"))
      else
        Decision(mergeName, None)
  }

  /** Outside BIOS files, the first directory is renamed exactly when its
      clones share a region, and the second group is renamed exactly when
      its clones do; each new name is the name without its extension,
      followed by the region in parentheses. */
  lemma DecisionCases(mergeName: string, secondClones: seq<string>, firstClones: seq<string>)
    requires !Contains(mergeName, "[BIOS]")
    ensures var d := HandleDuplicateName(mergeName, secondClones, firstClones);
      var stem := SplitExt(mergeName).0;
      var first, second := MatchingRegion(firstClones), MatchingRegion(secondClones);
      && (d.renameFirstTo.Some? <==> first != "")
      && (first != "" ==> d.renameFirstTo == Some(stem + " (" + first + ")"))
      && (d.name != mergeName <==> second != "")
      && (second != "" ==> d.name == stem + " (" + second + ")")
  {
    var stem := SplitExt(mergeName).0;
    forall a: string ensures mergeName != stem + " (" + a + ")" {
      NotRegionName(mergeName, a);
    }
  }

  /** A name never equals its own stem followed by a region in parentheses,
      because what `splitext` cuts off is empty or starts with '.'. */
  lemma NotRegionName(mergeName: string, a: string)
    ensures mergeName != SplitExt(mergeName).0 + " (" + a + ")"
  {
    var (stem, ext) := SplitExt(mergeName);
    var named := stem + " (" + a + ")";
    if ext == [] {
      assert |mergeName| < |named|;
    } else {
      assert mergeName[|stem|] == ext[0] == '.';
      assert named[|stem|] == ' ';
    }
  }

  /** Outside BIOS files the two groups end up under different names exactly
      when the regions their clones share differ. */
  lemma ConflictResolved(mergeName: string, secondClones: seq<string>, firstClones: seq<string>)
    requires !Contains(mergeName, "[BIOS]")
    ensures var d := HandleDuplicateName(mergeName, secondClones, firstClones);
      FirstName(mergeName, d) != d.name <==> MatchingRegion(firstClones) != MatchingRegion(secondClones)
  {
    var stem := SplitExt(mergeName).0;
    var first, second := MatchingRegion(firstClones), MatchingRegion(secondClones);
    NotRegionName(mergeName, first);
    NotRegionName(mergeName, second);
    if first != "" && second != "" && first != second {
      RegionNamesDiffer(stem, first, second);
    }
  }

  lemma RegionNamesDiffer(stem: string, a: string, b: string)
    requires a != b
    ensures stem + " (" + a + ")" != stem + " (" + b + ")"
  {
    var x, y := stem + " (" + a + ")", stem + " (" + b + ")";
    if |a| != |b| {
      assert |x| != |y|;
    } else {
      var k :| 0 <= k < |a| && a[k] != b[k];
      assert x[|stem| + 2 + k] == a[k];
      assert y[|stem| + 2 + k] == b[k];
    }
  }

  /** `splitext` cuts a title that holds a '.' at its last dot, so a group
      called "Dr. Mario" whose clones share the region "USA" is renamed to
      "Dr (USA)". */
  lemma DottedTitleTruncated(secondClones: seq<string>, firstClones: seq<string>)
    requires MatchingRegion(secondClones) == "USA"
    ensures HandleDuplicateName("Dr. Mario", secondClones, firstClones).name == "Dr (USA)"
  {
    DrMarioStem();
    DrMarioNotBios();
    DecisionCases("Dr. Mario", secondClones, firstClones);
    DrUsa();
  }

  lemma DrUsa()
    ensures "Dr" + " (" + "USA" + ")" == "Dr (USA)"
  {
  }

  lemma DrMarioStem()
    ensures SplitExt("Dr. Mario").0 == "Dr"
  {
    var p := "Dr. Mario";
    assert forall k | 0 <= k < |p| :: p[k] != '/';
    var dot := LastIndexOf(p, '.');
    assert p[2] == '.' && forall k | 2 < k < |p| :: p[k] != '.';
    assert dot == 2;
    assert p[0] != '.';
  }

  lemma DrMarioNotBios()
    ensures !Contains("Dr. Mario", "[BIOS]")
  {
    forall i | 0 <= i <= |"Dr. Mario"| - |"[BIOS]"| ensures !OccursAt("Dr. Mario", "[BIOS]", i) {
      assert "Dr. Mario"[i] != '[';
    }
  }

  /** The decision with the whole canonical name as the stem: a canonical
      name is a title, not a file name, so it has no extension to cut. */
  function HandleDuplicateNameIntended(mergeName: string, secondClones: seq<string>, firstClones: seq<string>): (d: Decision)
    ensures Contains(mergeName, "[BIOS]") ==> d == Decision(mergeName, None)
  {
    if Contains(mergeName, "[BIOS]") then Decision(mergeName, None)
    else
      var firstRegion := MatchingRegion(firstClones);
      var secondRegion := MatchingRegion(secondClones);
      Decision(
        if secondRegion != "" then mergeName + " (" + secondRegion + ")" else mergeName,
        if firstRegion != "" then Some(mergeName + " (" + firstRegion + ")") else None)
  }

  /** Every name the intended decision gives keeps the whole canonical name
      as its prefix, and the two groups still end up apart exactly when their
      regions differ. */
  lemma IntendedKeepsTitle(mergeName: string, secondClones: seq<string>, firstClones: seq<string>)
    requires !Contains(mergeName, "[BIOS]")
    ensures var d := HandleDuplicateNameIntended(mergeName, secondClones, firstClones);
      && mergeName <= d.name
      && mergeName <= FirstName(mergeName, d)
      && (FirstName(mergeName, d) != d.name <==> MatchingRegion(firstClones) != MatchingRegion(secondClones))
  {
    var first, second := MatchingRegion(firstClones), MatchingRegion(secondClones);
    if first != "" && second != "" && first != second {
      RegionNamesDiffer(mergeName, first, second);
    }
  }

  /* The renames of lines 849-852 and 861-864 build their target with
     `mergedFolder`, which neither source file defines; only `from settings
     import *` (line 21) could supply it. Without it, building the path raises
     NameError, the bare `except` swallows it, and the first group's directory
     keeps the name `mergeName`. The two lemmas below describe that outcome. */

  /** If the first group's rename fails, a first group whose clones share a
      region meeting a second group whose clones do not is asked to be
      renamed, but the second group takes `mergeName`, the very name the first
      keeps, so the two groups are merged. */
  lemma FailedRenameMergesGroups(mergeName: string, secondClones: seq<string>, firstClones: seq<string>)
    requires !Contains(mergeName, "[BIOS]")
    requires MatchingRegion(firstClones) != "" && MatchingRegion(secondClones) == ""
    ensures var d := HandleDuplicateName(mergeName, secondClones, firstClones);
      d.renameFirstTo.Some? && d.name == mergeName
  {
    DecisionCases(mergeName, secondClones, firstClones);
  }

  /** If the first group's rename fails, the first group stays under
      `mergeName`, and the two groups end up apart exactly when the second
      group's clones share a region, whatever the first group's clones share. */
  lemma FailedRenameApartExactly(mergeName: string, secondClones: seq<string>, firstClones: seq<string>)
    requires !Contains(mergeName, "[BIOS]")
    ensures var d := HandleDuplicateName(mergeName, secondClones, firstClones);
      mergeName != d.name <==> MatchingRegion(secondClones) != ""
  {
    DecisionCases(mergeName, secondClones, firstClones);
  }
}
