# ROM Organizer Deluxe: name reconciliation and 1G1R selection

ROM Organizer Deluxe turns a ROM set into a "one game, one ROM" (1G1R)
collection. Every release of a game has a name such as
`"Game (USA, Europe) (Rev 1)"`. The organizer splits names like this into
a title and attributes. It ranks the region tokens with fixed tables, gives
each group of releases a canonical merge name, and settles two groups that
land on the same name. It matches a clone name against a recommended file
list, picks the best release of each game by region and score, and records
which files were merged under which name. A small utility library beside it
supplies these helpers:

- bit-packed seeds (`encodeSeed`, `decodeSeed`, `verifySeed`);
- base conversion (`dec_to_base`);
- big-endian byte writing (`writeToAddress`);
- three list scans (`arrayOverlap`, `arrayInArray`, `most_frequent`).

This project models those pieces in Dafny and proves what they promise.
It has one module per concern:

- `Text` (text.dfy): the Python string operations the code relies on:
  - `strip` over the white space of Python's `str.isspace`;
  - `re.split` on a set of characters;
  - `str.replace`;
  - `os.path.splitext` with POSIX separators;
  - `rstrip` of one character;
  - `upper` of ASCII letters.
- `Attributes` (attributes.dfy): `getAttributeSplit`, and names built back
  from a title and attributes.
- `Ordering` (ordering.dfy): Python's `sorted` on strings, which orders them
  lexicographically by code point.
- `RegionTables` (tables.dfy): the tables at the head of the program.
  - `biasPriority`.
  - `zoneBiasValues`, which keeps the later value of a repeated key.
  - `zoneNumToZone`, which has no key 1.
  - `categoryValues`, `compilationArray`, `classicNESArray` and `skippedAttributes`.
- `CatalogRules` (catalog_rules.dfy): three decisions taken inside the I/O loops:
  - zone inference for flat catalogs;
  - the lower-valued category rule;
  - the region folders of the copy loop.
- `MergeNames` (merge_name.dfy): `getBestMergeName` and `getSuffix`.
- `Conflicts` (conflicts.dfy): `getMatchingRegion` and `handleDuplicateName`.
  The directory rename is returned as part of a `Decision` instead of performed.
- `OldNames` (old_names.dfy): `guessOldName` and its substitution table.
- `BestRoms` (best_rom.dfy): `getBestRom`.
- `MergeDicts` (merge_dict.dfy): the global `mergeDict` as a class whose
  fields its methods update. These are `addGameFileLocationToDict` and
  `getGameLocation`.
- `Seeds` (seeds.dfy): `encodeSeed`, `decodeSeed`, `verifySeed` and `dec_to_base`.
- `ByteWriter` (bytes.dfy): `writeToAddress` on a file held as an array of bytes.
- `Scans` (scans.dfy): `arrayOverlap`, `arrayInArray` and `most_frequent`.
- `Wrappers` (wrappers.dfy): the `Option` type. `None` stands for the
  Python exceptions the code lets escape. One example is the `IndexError`
  of `getAttributeSplit` on a name with no non-blank segment.

## Model

| member | source | states |
|---|---|---|
| Text.Strip | romOrganizerDeluxe.py:881 | `s.strip()`: the result has no leading or trailing white space, is no longer than `s` and holds only characters of `s` |
| Text.LStrip | romOrganizerDeluxe.py:881 | the result is a suffix of `s`, everything dropped is white space and the result does not start with white space |
| Text.RStrip | romOrganizerDeluxe.py:881 | the result is a prefix of `s`, everything dropped is white space and the result does not end with white space |
| Text.StripOfStripped | romOrganizerDeluxe.py:881 | stripping a stripped string changes nothing |
| Text.StripTrailingBlank | romOrganizerDeluxe.py:881 | stripping `s + " "` gives back a stripped non-empty `s` |
| Text.StripKeepsNoneOf | romOrganizerDeluxe.py:881 | stripping adds no character, so a string free of some characters stays free of them |
| Text.SplitChars | romOrganizerDeluxe.py:881 | `re.split` on a character class: at least one piece, and every piece holds only characters of `s` and no separator |
| Text.SplitCharsNoSeparator | romOrganizerDeluxe.py:881 | a string with no separator splits into itself alone |
| Text.SplitCharsAtSeparator | romOrganizerDeluxe.py:881 | a separator after a separator-free prefix cuts exactly there |
| Text.SplitCharsNoneOf | romOrganizerDeluxe.py:889 | the pieces hold none of the separators, nor any character the input did not hold |
| Text.CleanPieces | romOrganizerDeluxe.py:881 | `[s.strip() for s in pieces if s.strip() != ""]`: no longer than the input, and every kept piece is non-empty and stripped |
| Text.CleanPiecesAppend | romOrganizerDeluxe.py:881 | cleaning distributes over concatenation |
| Text.CleanPiecesNoneOf | romOrganizerDeluxe.py:889 | cleaning keeps the pieces free of characters they were free of |
| Text.CleanPiecesOfClean | romOrganizerDeluxe.py:881 | cleaning pieces that are already non-empty and stripped changes nothing |
| Text.ReplaceAbsent | romOrganizerDeluxe.py:895 | `str.replace` of a pattern that does not occur leaves the string as it is |
| Text.LastIndexOf | romOrganizerDeluxe.py:840 | the last index holding `c`, or -1; no later index holds `c` |
| Text.SplitExt | romOrganizerDeluxe.py:840 | `path.splitext`: the two parts concatenate to the path, and the extension is empty or a '.' followed by no '.' and no '/' |
| Text.RStripChar | romOrganizerDeluxe.py:802 | `rstrip(".")`: a prefix that does not end in the character, with only that character removed |
| Text.CountChar | romOrganizerDeluxe.py:818 | `att.count("-")`: at most the length, and zero exactly when the character is absent |
| Text.Upper | gatelib.py:200 | `upper()`: the same length, with each character mapped on its own |
| Attributes.AttributeSplit | romOrganizerDeluxe.py:880-892 | `None` exactly when the name has no non-blank paren segment (the `IndexError` at line 883). Otherwise the first element is the first segment and the list is well-formed: non-empty, stripped, free of parentheses, and every later element also free of ',' and '+' |
| Attributes.Segments | romOrganizerDeluxe.py:881 | every paren segment kept is a title: non-empty, stripped, free of parentheses |
| Attributes.Expand | romOrganizerDeluxe.py:886-891 | a later segment becomes attributes, each free of parentheses, ',' and '+' |
| Attributes.Flatten | romOrganizerDeluxe.py:884-891 | flattening the later segments yields attributes only |
| Attributes.FlattenPlain | romOrganizerDeluxe.py:886-887 | segments with no ',' or '+' are kept as they are, in order |
| Attributes.SplitParenList | romOrganizerDeluxe.py:881 | splitting `x (a1) (a2) ...` at the parentheses yields `x`, then each `ai` between blanks |
| Attributes.CleanParenPieces | romOrganizerDeluxe.py:881 | the cleaned pieces of ` (a1) (a2) ...` are exactly the attributes |
| Attributes.CleanTitleAndAttribute | romOrganizerDeluxe.py:881 | a title followed by a blank, and an attribute, clean to the two of them |
| Attributes.SegmentsOfCompose | romOrganizerDeluxe.py:793-795 | the segments of a name built as `title (a1) (a2) ...` are the title and the attributes |
| Attributes.SplitCompose | romOrganizerDeluxe.py:880-892 | splitting a name built from a title and plain attributes gives them back |
| Attributes.SplitComposeSplit | romOrganizerDeluxe.py:880-892 | rebuilding a name from its split and splitting again gives the same split |
| Attributes.PrefixSplits | romOrganizerDeluxe.py:793-801 | the title with a prefix of its attributes and further attributes splits back into exactly those |
| Attributes.ParenListConcat | romOrganizerDeluxe.py:795 | ` (a)` lists concatenate |
| Attributes.ComposeStep | romOrganizerDeluxe.py:794-795 | one step of the loop that rebuilds the stem extends it by the next attribute |
| Ordering.LessEqTotal | romOrganizerDeluxe.py:938 | the string order of `sorted` is total |
| Ordering.LessEqAntisym | romOrganizerDeluxe.py:938 | the string order is antisymmetric |
| Ordering.LessEqTrans | romOrganizerDeluxe.py:938 | the string order is transitive |
| Ordering.Sort | romOrganizerDeluxe.py:938 | `sorted(clones)`: sorted and a permutation of the input |
| Ordering.SortUnique | romOrganizerDeluxe.py:938 | two sorted permutations of the same strings are equal, so `sorted` has one possible result |
| RegionTables.Rank | romOrganizerDeluxe.py:780-784 | `zoneBiasValues.get(zone)`, or 99 for `None` and unknown tokens: at most 25 or exactly 99, and below 99 exactly when the table has the token |
| RegionTables.ZoneBiasValue | romOrganizerDeluxe.py:61-114 | a dict lookup gives a value of at most 25 |
| RegionTables.LookupSkips | romOrganizerDeluxe.py:61-114 | entries with another key do not affect a lookup |
| RegionTables.RepeatedNoKeepsLater | romOrganizerDeluxe.py:87-110 | "No" is written twice and keeps the later value 22 |
| RegionTables.RepeatedDaKeepsLater | romOrganizerDeluxe.py:105-111 | "Da" is written twice and keeps the later value 23 |
| RegionTables.CountryNamesKeepEarlier | romOrganizerDeluxe.py:88 | "Norway" keeps the value 10 written for it |
| RegionTables.RankOneHasNoZone | romOrganizerDeluxe.py:116-119 | "En" has rank 1, and `zoneNumToZone` has no key 1 |
| RegionTables.ZoneNumToZone | romOrganizerDeluxe.py:116-143 | every zone token in the table is non-empty and stands for a rank of at most 25 |
| RegionTables.RankTokenRoundTrip | romOrganizerDeluxe.py:127-140 | ranks 10 and 18 map to "No" and "Da", which rank 22 and 23, so going from rank to token and back does not keep the rank |
| CatalogRules.MinRank | romOrganizerDeluxe.py:400-403 | the least rank among the attributes: `None` exactly when none has one; otherwise the rank of one of them and no greater than any |
| CatalogRules.InferZone | romOrganizerDeluxe.py:398-404 | the loop's zone is the zone of the least rank met: "" when no token had a rank, else `zoneNumToZone.get` of it |
| CatalogRules.InferRegion | romOrganizerDeluxe.py:397-405 | `None` exactly where the split raises; otherwise the inferred zone of the split |
| CatalogRules.BlankZoneWhenUnranked | romOrganizerDeluxe.py:399-404 | the zone is "" exactly when no token of the release has a rank |
| CatalogRules.EnglishBestHasNoZone | romOrganizerDeluxe.py:404 | a release whose best token is "En" infers the zone `None` |
| CatalogRules.KeptCategory | romOrganizerDeluxe.py:476-491 | No-Intro sets are always "Games". An unknown category raises (`None`). Otherwise the entry is the new category when there was no known previous one, and else the category of lower value |
| CatalogRules.CategoryValuesDistinct | romOrganizerDeluxe.py:145-151 | distinct categories have distinct values |
| CatalogRules.KeptCategoryOrderFree | romOrganizerDeluxe.py:483-491 | two known categories joining a game in either order leave the same entry |
| CatalogRules.KeptCategoryIdempotent | romOrganizerDeluxe.py:483-491 | a category joining a game that already holds it changes nothing |
| CatalogRules.RegionLabel | romOrganizerDeluxe.py:602-615 | the region folder is one of the seven labels. It is "[BIOS]" exactly for a name starting with "[BIOS]". It is "[Test Program]" exactly for any other game with a "Test Program" attribute |
| CatalogRules.RegionLabelByZone | romOrganizerDeluxe.py:606-615 | outside BIOS and test programs, a rank up to 25 picks the folder by the zone token it stands for: "U", "E" or "J"; "A", "Ca" or none for English; else non-English. Every rank above 25, the unknown rank 99 included, goes to the non-English folder |
| CatalogRules.UnrankedGameIsNonEnglish | romOrganizerDeluxe.py:602-615 | a game none of whose zones has a rank gets the merge index 99, and so goes to the non-English folder unless it is a BIOS or a test program |
| CatalogRules.FoldersOf | romOrganizerDeluxe.py:616-623 | the region folder is empty exactly for a primary region. Unlicensed, unreleased and demo folders appear exactly when their attributes do. The compilation and NES folders appear exactly for a Game Boy Advance game whose name starts with an entry of their list. The GBA Video folder appears exactly for a name starting with "Game Boy Advance Video" |
| MergeNames.MinOf | romOrganizerDeluxe.py:785 | `numpy.min`: an element no greater than any |
| MergeNames.ArgMin | romOrganizerDeluxe.py:788 | `numpy.argmin`: the first index holding the minimum |
| MergeNames.ZoneRanks | romOrganizerDeluxe.py:779-784 | one rank per zone, in order |
| MergeNames.ZoneValues | romOrganizerDeluxe.py:779-784 | the loop that fills `zoneValues` computes the ranks of the zones |
| MergeNames.FirstRegion | romOrganizerDeluxe.py:791-792 | the first index from 1 on whose attribute is in `biasPriority`, or `None` when there is none |
| MergeNames.FirstEligible | romOrganizerDeluxe.py:806-821 | the first attribute that passes every check of `getSuffix`, or `None` when none does |
| MergeNames.GetSuffix | romOrganizerDeluxe.py:805-822 | `getSuffix`: " (att)" for the first eligible attribute, else "" |
| MergeNames.SuffixIndex | romOrganizerDeluxe.py:799-800 | the suffix attribute lies after the region token (after the title when there is none) |
| MergeNames.SuffixAtts | romOrganizerDeluxe.py:799-800 | at most one suffix attribute is appended, and it is the one at the suffix index |
| MergeNames.RegionStem | romOrganizerDeluxe.py:790-797 | the loop that rebuilds `mergeName` computes the stem and the region index of the split |
| MergeNames.BestMergeName | romOrganizerDeluxe.py:778-803 | `getBestMergeName` computes `MergeNameOf`: `None` where numpy or the split raises |
| MergeNames.MergeIndexIsBestRank | romOrganizerDeluxe.py:779-788 | the index is the least zone rank (at most 99), and the name comes from the first clone holding it |
| MergeNames.MergeNameParts | romOrganizerDeluxe.py:785-788 | the zone list is non-empty, and the name is derived from the bias at `argmin` |
| MergeNames.NameFrom | romOrganizerDeluxe.py:789-802 | `None` exactly where the split raises; otherwise the name does not end in '.' |
| MergeNames.MergeNameNoTrailingDot | romOrganizerDeluxe.py:802 | a merge name never ends in '.' |
| MergeNames.MergeNameShape | romOrganizerDeluxe.py:790-801 | the name is the stem followed by at most one ` (att)`. `att` is eligible, and no earlier attribute after the region token is |
| MergeNames.UnstrippedAsCompose | romOrganizerDeluxe.py:793-801 | with a region token at index i, the name is the title with attributes 1..i-1 and the suffix |
| MergeNames.StemSplitsBack | romOrganizerDeluxe.py:789-801 | with a region token at index i, the name splits back into the first i parts of the split and the suffix |
| Conflicts.SecondAttribute | romOrganizerDeluxe.py:872-874 | `getAttributeSplit(name)[1]`, non-empty when present |
| Conflicts.AgreeFrom | romOrganizerDeluxe.py:873-876 | the loop says whether every later clone has the same second attribute |
| Conflicts.MatchingRegion | romOrganizerDeluxe.py:870-878 | a non-empty result is the second attribute of every clone; it is "" exactly when the list is empty, a clone has none, or two differ |
| Conflicts.HandleDuplicateName | romOrganizerDeluxe.py:839-868 | a name holding "[BIOS]" is kept with no rename |
| Conflicts.DecisionCases | romOrganizerDeluxe.py:840-868 | outside BIOS names, the first directory is renamed to `stem (first)` exactly when the first region is non-empty. The second group's name changes, to `stem (second)`, exactly when the second region is non-empty |
| Conflicts.NotRegionName | romOrganizerDeluxe.py:840-848 | a name never equals its own stem followed by ` (region)` |
| Conflicts.ConflictResolved | romOrganizerDeluxe.py:839-868 | outside BIOS names, the decision names the two groups apart exactly when their shared regions differ |
| Conflicts.DottedTitleTruncated | romOrganizerDeluxe.py:840-857 | "Dr. Mario" whose second group is all "USA" is renamed "Dr (USA)" |
| Conflicts.HandleDuplicateNameIntended | romOrganizerDeluxe.py:839-868 | the corrected decision keeps "[BIOS]" names with no rename |
| Conflicts.IntendedKeepsTitle | romOrganizerDeluxe.py:839-868 | the corrected decision keeps the whole name as a prefix of both outcomes, and separates the groups exactly when their regions differ |
| Conflicts.FailedRenameMergesGroups | romOrganizerDeluxe.py:847-853 | if the rename fails (`mergedFolder` undefined), a first group with a shared region meeting a second group with none is asked to be renamed. It keeps the name the second group takes, so the two are merged |
| Conflicts.FailedRenameApartExactly | romOrganizerDeluxe.py:839-868 | if the first group's rename fails (`mergedFolder` undefined), the two groups end up apart exactly when the second group's clones share a region |
| OldNames.Renaming | romOrganizerDeluxe.py:896-919 | each side of each substitution is non-empty and starts with '(' |
| OldNames.AnyPairFromMeans | romOrganizerDeluxe.py:922-925 | the inner loop finds a match exactly when some substitution from `j` on, in one direction or the other, turns the stem into the clone name |
| OldNames.Hits | romOrganizerDeluxe.py:920-925 | one answer per recommendation: whether it matches the clone name |
| OldNames.FirstHit | romOrganizerDeluxe.py:920-926 | 0 when no entry from `i` on is a hit, else one more than the first hit |
| OldNames.GuessOldName | romOrganizerDeluxe.py:894-926 | at most the number of recommendations; 0 exactly when none matches; otherwise the 1-based index of the first that matches |
| OldNames.ReplaceSkips | romOrganizerDeluxe.py:924 | replacing leaves alone a prefix that holds no first character of the pattern |
| OldNames.ExactStemFound | romOrganizerDeluxe.py:920-925 | a recommendation whose stem is the clone name, which holds neither side of the first substitution, is found at its index or earlier |
| OldNames.RenamedReleaseFound | romOrganizerDeluxe.py:920-925 | a recommendation named under one side of a substitution is found for the clone named under the other side |
| BestRoms.Atts | romOrganizerDeluxe.py:940 | the attributes after the title, each free of parentheses, ',' and '+' |
| BestRoms.ZoneFrom | romOrganizerDeluxe.py:945-949 | the index of the first `biasPriority` entry among the attributes, or 99 when none is present |
| BestRoms.ZoneValue | romOrganizerDeluxe.py:945-949 | a zone value is 99 or an index of `biasPriority` |
| BestRoms.FirstPreferred | romOrganizerDeluxe.py:945-949 | the inner loop computes the zone value |
| BestRoms.LongAtts | romOrganizerDeluxe.py:941-944 | the length filters keep only attributes of the list that are long enough |
| BestRoms.LongAttsKeeps | romOrganizerDeluxe.py:941-944 | a long enough word passes the filter exactly when it is in the list |
| BestRoms.Initials | romOrganizerDeluxe.py:942 | one initial per attribute: entry `k` is the first character of attribute `k` |
| BestRoms.Score | romOrganizerDeluxe.py:951-961 | the score as written lies between -50 and 160 |
| BestRoms.ScanClones | romOrganizerDeluxe.py:939-962 | the loop fails exactly where a clone has no title; otherwise it records the zone value and score of every sorted clone |
| BestRoms.WhereEqual | romOrganizerDeluxe.py:963 | `numpy.where`: exactly the indices holding the value, increasing |
| BestRoms.PickLast | romOrganizerDeluxe.py:964-970 | among the best-zone indices, the index with the greatest score, the last on ties (`>=`) |
| BestRoms.ChooseIndex | romOrganizerDeluxe.py:963-970 | the index of least zone, greatest score in that zone, and no later index of that zone with the same score |
| BestRoms.BestRom | romOrganizerDeluxe.py:935-971 | `None` exactly for an empty list or a clone without a title. Otherwise the clone is the best one: least zone value, greatest score in that zone, last in sorted order on ties |
| BestRoms.SortedSplits | romOrganizerDeluxe.py:938-940 | sorting keeps the clones, so every clone has a title exactly when every sorted one does |
| BestRoms.SortedChoiceIsBest | romOrganizerDeluxe.py:963-971 | the clone the index picks in the sorted list is the best clone |
| BestRoms.BestUnique | romOrganizerDeluxe.py:935-971 | there is at most one best clone, so the choice does not depend on the input order |
| BestRoms.RevisionIgnoredAsWritten | romOrganizerDeluxe.py:941-953 | as written, adding a numbered revision "Rev 1" leaves the score unchanged |
| BestRoms.IntendedScore | romOrganizerDeluxe.py:951-961 | the corrected score also lies between -50 and 160 |
| BestRoms.RevisionRewardedIntended | romOrganizerDeluxe.py:941-953 | with the prefix check, a numbered revision earns the +30 bonus |
| BestRoms.IntendedAgreesOnBareWords | romOrganizerDeluxe.py:951-961 | where revision, beta and prototype attributes are bare words, both scores agree |
| MergeDicts.HolderFrom | romOrganizerDeluxe.py:834-836 | the first key from `i` on whose list holds the game, or `None` when none does |
| MergeDicts.Locate | romOrganizerDeluxe.py:831-837 | `None` exactly when no list holds the game; otherwise the merge name of the first key in insertion order whose list holds it |
| MergeDicts.AddKeepsConsistent | romOrganizerDeluxe.py:824-829 | adding keeps the key order and the dictionary in step |
| MergeDicts.AddedListHolds | romOrganizerDeluxe.py:824-829 | after adding, a list holds the game exactly when it did before or it is the list added to |
| MergeDicts.HolderAfterAdd | romOrganizerDeluxe.py:824-837 | after adding, the game has a holder: the old first holder when there was one, and else the key added to |
| MergeDicts.LocateAfterAdd | romOrganizerDeluxe.py:824-837 | after adding, the game is found, under the key added to or where it was found before, and a new key never displaces an earlier location |
| MergeDicts.MergeDict.constructor | romOrganizerDeluxe.py:824-829 | an empty dictionary |
| MergeDicts.MergeDict.Add | romOrganizerDeluxe.py:824-829 | a new key goes at the end of the key order with an empty list, and the game is appended to the key's list |
| MergeDicts.MergeDict.GameLocation | romOrganizerDeluxe.py:831-837 | the scan returns what `Locate` states |
| Seeds.Pow2Add | gatelib.py:121-124 | powers of two multiply by adding exponents |
| Seeds.BitLength | gatelib.py:124 | `int.bit_length()`: the least `r` with `n < 2^r` |
| Seeds.BitLengthFits | gatelib.py:282 | `bit_length(n) <= k` exactly when `n < 2^k` |
| Seeds.Pack | gatelib.py:120-124 | the loop of `encodeSeed` computes the seed: each value shifted by the total bit length of the maximums before it. It fails (IndexError) exactly when there are more values than maximums |
| Seeds.EncodeSeed | gatelib.py:116-125 | the seed and its digits in the base, lowered to 36 when above. None (IndexError) exactly when there are more values than maximums |
| Seeds.Field | gatelib.py:162 | a decoded field is below `2^bit_length(m[i])` |
| Seeds.Fields | gatelib.py:158-164 | `decodeSeed` yields one field per maximum, each below its bit bound |
| Seeds.Unpack | gatelib.py:158-164 | the loop of `decodeSeed` computes the fields |
| Seeds.SeedBelow | gatelib.py:120-124 | a seed of in-range values fits in the total bit length of the maximums |
| Seeds.SeedSplits | gatelib.py:120-124 | the seed is its low part plus the higher values shifted past the low offset |
| Seeds.FieldOfSeed | gatelib.py:120-164 | field `i` of the seed of in-range values is value `i` |
| Seeds.DecodeEncode | gatelib.py:116-164 | decoding the seed of in-range values gives back the values |
| Seeds.SeedMonotone | gatelib.py:203-208 | a seed of in-range values is at most the seed of the maximums, the `maxSeed` of `verifySeed` |
| Seeds.SeedPrefixMonotone | gatelib.py:203-208 | the same holds for every prefix |
| Seeds.DigitsAreDigits | gatelib.py:233-243 | `dec_to_base` writes only digits 0-9 and A-Z below the base |
| Seeds.DigitsValueRoundTrip | gatelib.py:233-243 | reading the digits back in the base gives the number |
| Seeds.DigitsLead | gatelib.py:233-243 | for a positive number the digits are non-empty with no leading zero |
| Seeds.ParseDigits | gatelib.py:200-208 | the digits survive `upper().strip()`, and `int(s, base)` reads them back |
| Seeds.DigitRoundTrip | gatelib.py:236-240 | each digit character reads back as its value, and is upper case and not white space |
| Seeds.ReverseAppend | gatelib.py:242 | reversal moves an appended character to the front |
| Seeds.DecToBase | gatelib.py:233-243 | the loop of `dec_to_base` computes the digits, most significant first |
| Seeds.ParseInt | gatelib.py:208 | `int(s, base)` succeeds only on digits of the base, surrounded by white space at most |
| Seeds.ClampBase | gatelib.py:191-196 | the corrected base lies between 2 and 36 |
| Seeds.Decoded | gatelib.py:149-164 | `decodeSeed`: `None` where `int(seed, base)` raises, else one value per maximum |
| Seeds.DecodeSeed | gatelib.py:149-164 | the method computes `Decoded` |
| Seeds.NormalizeSeed | gatelib.py:191-200 | the base correction, and the seed as an upper-cased, stripped string |
| Seeds.CheckWithin | gatelib.py:210-211 | the assertion loop passes exactly when every value is within its maximum |
| Seeds.Verified | gatelib.py:190-214 | as written, `verifySeed` accepts only values within their maximums, one per maximum |
| Seeds.VerifySeed | gatelib.py:190-214 | the method computes `Verified` |
| Seeds.VerifiedIntended | gatelib.py:190-214 | the corrected check also accepts only values within their maximums |
| Seeds.VerifiedInBase36 | gatelib.py:208-209 | in base 36 the written and the corrected check agree |
| Seeds.BaseTenSeedRejected | gatelib.py:208 | `encodeSeed([10], [15], 10)` writes "10", which decodes back to [10], but `verifySeed` rejects it |
| Seeds.VerifyRoundTripIntended | gatelib.py:190-214 | with the corrected check, every non-zero seed string `encodeSeed` writes verifies to its values |
| ByteWriter.BigEndian | gatelib.py:285-291 | the last `n` bytes of the value, most significant first: exactly `n` bytes |
| ByteWriter.BigEndianRoundTrip | gatelib.py:285-291 | a value below `2^(8n)` reads back from its `n` bytes |
| ByteWriter.WriteToAddress | gatelib.py:281-292 | returns false exactly when the value needs more than `8*numBytes` bits, and then writes nothing. Otherwise the file is its old prefix, the big-endian bytes, and its old suffix |
| ByteWriter.WriteBytes | gatelib.py:285-291 | the writing loop leaves the big-endian bytes at `address..address+numBytes` and every other byte as it was |
| ByteWriter.Splice | gatelib.py:285-291 | a file agreeing with the old one outside the written range is the old prefix, the range, and the old suffix |
| ByteWriter.WrittenReadsBack | gatelib.py:282-291 | whatever the write accepts reads back as the value |
| Scans.ArrayOverlap | gatelib.py:429-433 | true exactly when some element of `a` is in `b` |
| Scans.OverlapsSymmetric | gatelib.py:429-433 | overlap does not depend on the order of the lists |
| Scans.MatchesAt | gatelib.py:520-524 | the inner loop passes exactly when `a` occurs in `b` at `i` |
| Scans.ArrayInArray | gatelib.py:518-527 | true exactly when `a` is a contiguous slice of `b` |
| Scans.SliceLengths | gatelib.py:518-527 | the empty list is a slice of every list, and a longer list is never a slice of a shorter one |
| Scans.SliceOfConcat | gatelib.py:518-527 | a list is a slice of anything built around it |
| Scans.SliceTransitive | gatelib.py:518-527 | a slice of a slice is a slice |
| Scans.MostFrequent | gatelib.py:482-490 | `None` exactly for the empty list (the `IndexError`). Otherwise an element of the list with its number of occurrences, no element occurs more often, and the element is the first in list order with that count |

## Left out

- The console and Tk prompts and the device profiles, with the profile readers.
  - They are interactive or read files.
- XML parsing, directory listing, renaming, copying, zip repacking and the log writers.
  - The listing of the first group's directory is a parameter of
    `Conflicts.HandleDuplicateName`.
  - The directory rename is returned in the decision instead of performed.
- Whether the rename inside `try: ... except: pass` (romOrganizerDeluxe.py 849-852 and 861-864) happens.
  - Its target is built with `mergedFolder`, which neither romOrganizerDeluxe.py nor gatelib.py defines.
  - Only `from settings import *` (line 21) could supply it, and settings.py is not part of this model.
  - If settings.py does not define it, NameError is raised and swallowed, and the first directory keeps its name.
  - `Conflicts.HandleDuplicateName` returns the requested rename. `Conflicts.FailedRenameMergesGroups` and `Conflicts.FailedRenameApartExactly` describe the outcome when the rename fails.
  - See "## Findings".
- The redump category folder of the copy loop (romOrganizerDeluxe.py 624-631): it reads `categoryDict`, which the model does not hold.
- `getFileExt`, `removeEmptyFolders` and the other path helpers: they call the file system.
- `mergeNestedArray`: its lists nest to any depth with mixed types and share a mutable default argument.
- Progress printing and the "Base must be between" messages: they are output only.
- Text.Upper maps ASCII letters only. Unicode case mapping and normalisation are not modelled.
- `Seeds.ParseInt`: `int(s, base)` is modelled on unsigned digits only.
  - Signs, underscores, non-ASCII digits and the `0x`-style prefixes are rejected rather than parsed.
- Seeds.EncodeSeed: values and maximums are naturals, and a base below 2 is excluded.
  - More values than maximums is modelled: it gives None where `encodeSeed` raises IndexError.
  - With a positive seed, `dec_to_base` divides by zero in base 0 and never ends in base 1.
  - A negative base ends with digits no base-2-to-36 reading gives: `dec_to_base(1, -2)` is `"1-"`.
  - A seed of 0 gives `""` in every base.
- Seeds.DecToBase: bases above 36 are excluded. The digit after "Z" would be a punctuation character.
- Seeds.Decoded: an integer seed is a natural number (`SeedInput.IntSeed`).
  - `decodeSeed` also shifts and masks a negative integer seed, and that is not modelled.
- Seeds.VerifyRoundTripIntended: stated for non-zero seeds only.
  - `dec_to_base(0, b)` is the empty string, which `int` rejects.
- ByteWriter.WriteToAddress: the file is a fixed array, and the write must lie inside it.
  - Writing past the end of a real file extends it, and that is not modelled.
  - The value is a natural number.
- Scans.MostFrequent counts with `multiset` instead of calling `arr.count` once per element. The counts are the same.
- MergeDicts.Locate compares the game with the file names stored in the lists, as `getGameLocation` does. It does not compare canonical names.
- BestRoms.BestRom keeps the score as written, with the exact-match revision check, which `BestRoms.IntendedScore` corrects.
- `numpy.min`, `numpy.argmin` and `numpy.where` are modelled on sequences of naturals.

## Findings

| source | as written | input that shows it | evidently intended | confidence | as-written member | corrected member |
|---|---|---|---|---|---|---|
| gatelib.py:208 | the bound check reads the seed with `int(seed, 36)`, whatever the base | `verifySeed("10", [15], 10)`: `encodeSeed([10], [15], 10)` writes "10", but 36 > 15 rejects it | read the bound in the seed's own base | not executed | Seeds.BaseTenSeedRejected | Seeds.VerifyRoundTripIntended |
| romOrganizerDeluxe.py:941-953 | `"Rev" in revCheck` only matches an attribute that is exactly "Rev" | `getBestRom` scores "Game (USA) (Rev 1)" the same as "Game (USA)" | the length filter stands for a prefix check, so "Rev 1" earns +30 | not executed | BestRoms.RevisionIgnoredAsWritten | BestRoms.RevisionRewardedIntended |
| romOrganizerDeluxe.py:840 | `path.splitext(mergeName)[0]` cuts a title at its last '.' | `handleDuplicateName("Dr. Mario", ...)` with a second group all "USA" names it "Dr (USA)" | keep the whole canonical name, which is a title and has no extension | not executed | Conflicts.DottedTitleTruncated | Conflicts.IntendedKeepsTitle |
| romOrganizerDeluxe.py:850 | `rename(..., path.join(mergedFolder, newName))` in `try: ... except: pass`. `mergedFolder` is defined in neither romOrganizerDeluxe.py nor gatelib.py; only `from settings import *` (line 21) could supply it. If settings.py does not define it, NameError is raised and swallowed | if `mergedFolder` is undefined: a first group all "(Japan)" against a second group with no second attribute, where both stay under the same merge name | the first directory is renamed to `stem (region)` in the merged folder | not executed; depends on settings.py | Conflicts.FailedRenameMergesGroups | Conflicts.ConflictResolved |
