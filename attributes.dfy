/** Release names such as "Game (USA, Europe) (Rev 1)" split into a base
    title and a flat list of attributes (`getAttributeSplit`), and the inverse
    that writes a title and attributes back as a release name. */
module Attributes {

  import opened Wrappers
  import opened Text

  const Parens: set<char> := {'(', ')'}
  const Joiners: set<char> := {',', '+'}

  /** A base title as the splitter produces it: non-blank, stripped, and free
      of parentheses. */
  predicate IsTitle(s: string) {
    s != [] && Stripped(s) && NoneOf(s, Parens)
  }

  /** An attribute after flattening: a title that is also free of ',' and '+'. */
  predicate IsAttribute(s: string) {
    IsTitle(s) && NoneOf(s, Joiners)
  }

  /** The shape of every successful split: a title followed by attributes. */
  predicate WellFormed(r: seq<string>) {
    && |r| >= 1
    && IsTitle(r[0])
    && forall i | 1 <= i < |r| :: IsAttribute(r[i])
  }

  /** `[s.strip() for s in re.split('\(|\)', name) if s.strip() != ""]` */
  function Segments(name: string): (r: seq<string>)
    ensures forall i | 0 <= i < |r| :: IsTitle(r[i])
  {
    var pieces := SplitChars(name, Parens);
    CleanPiecesNoneOf(pieces, Parens);
    CleanPieces(pieces)
  }

  /** One segment after the title: split at ',' and '+' when it holds either. */
  function Expand(seg: string): (r: seq<string>)
    requires IsTitle(seg)
    ensures forall i | 0 <= i < |r| :: IsAttribute(r[i])
  {
    if ',' in seg || '+' in seg then
      var pieces := SplitChars(seg, Joiners);
      SplitCharsNoneOf(seg, Joiners, Parens);
      CleanPiecesNoneOf(pieces, Parens + Joiners);
      CleanPieces(pieces)
    else
      [seg]
  }

  /** The loop over the segments after the title, in order. */
  function Flatten(segs: seq<string>): (r: seq<string>)
    requires forall i | 0 <= i < |segs| :: IsTitle(segs[i])
    ensures forall i | 0 <= i < |r| :: IsAttribute(r[i])
  {
    if segs == [] then [] else Expand(segs[0]) + Flatten(segs[1..])
  }

  /** `getAttributeSplit(name)`; `None` where Python raises IndexError
      because the name has no non-blank segment. */
  function AttributeSplit(name: string): (r: Option<seq<string>>)
    ensures r.None? <==> Segments(name) == []
    ensures r.Some? ==> WellFormed(r.value) && r.value[0] == Segments(name)[0]
  {
    var mna := Segments(name);
    if mna == [] then None else Some([mna[0]] + Flatten(mna[1..]))
  }

  /** The release name of a title with its attributes: "T (a1) (a2)". */
  function Compose(title: string, atts: seq<string>): string {
    title + ParenList(atts)
  }

  function ParenList(atts: seq<string>): string {
    if atts == [] then "" else " (" + atts[0] + ")" + ParenList(atts[1..])
  }

  /** The pieces `re.split` cuts from `x + ParenList(atts)`. */
  function ParenPieces(x: string, atts: seq<string>): seq<string>
    decreases |atts|
  {
    if atts == [] then [x] else [x + " ", atts[0]] + ParenPieces("", atts[1..])
  }

  lemma AllNoneOfTail(xs: seq<string>, cs: set<char>)
    requires xs != [] && forall i | 0 <= i < |xs| :: NoneOf(xs[i], cs)
    ensures NoneOf(xs[0], cs) && forall i | 0 <= i < |xs[1..]| :: NoneOf(xs[1..][i], cs)
  {
    forall i | 0 <= i < |xs[1..]| ensures NoneOf(xs[1..][i], cs) {
      assert xs[1..][i] == xs[i + 1];
    }
  }

  lemma BlankKeepsNoneOf(x: string, cs: set<char>)
    requires NoneOf(x, cs) && ' ' !in cs
    ensures NoneOf(x + " ", cs)
  {
    forall k | 0 <= k < |x| + 1 ensures (x + " ")[k] !in cs {
      if k < |x| {
        assert (x + " ")[k] == x[k];
      }
    }
  }

  lemma ParenthesizedRegroup(x: string, a: string, rest: string)
    ensures x + (" (" + a + ")" + rest) == (x + " ") + ['('] + (a + [')'] + rest)
  {
    assert " (" == [' '] + ['('] && ")" == [')'];
  }

  lemma {:induction false} SplitParenList(x: string, atts: seq<string>)
    requires NoneOf(x, Parens)
    requires forall i | 0 <= i < |atts| :: NoneOf(atts[i], Parens)
    ensures SplitChars(x + ParenList(atts), Parens) == ParenPieces(x, atts)
    decreases |atts|
  {
    if atts == [] {
      assert x + ParenList(atts) == x;
      SplitCharsNoSeparator(x, Parens);
    } else {
      var a, tail := atts[0], atts[1..];
      var rest := ParenList(tail);
      AllNoneOfTail(atts, Parens);
      SplitParenList("", tail);
      assert "" + rest == rest;
      SplitCharsAtSeparator(a, ')', rest, Parens);
      BlankKeepsNoneOf(x, Parens);
      assert ParenList(atts) == " (" + a + ")" + rest;
      ParenthesizedRegroup(x, a, rest);
      SplitCharsAtSeparator(x + " ", '(', a + [')'] + rest, Parens);
    }
  }

  lemma {:induction false} CleanParenPieces(atts: seq<string>)
    requires forall i | 0 <= i < |atts| :: IsTitle(atts[i])
    ensures CleanPieces(ParenPieces("", atts)) == atts
  {
    StripBlank();
    if atts != [] {
      CleanParenPieces(atts[1..]);
      CleanPiecesAppend([" ", atts[0]], ParenPieces("", atts[1..]));
      StripOfStripped(atts[0]);
      assert "" + " " == " ";
      assert CleanPieces([" ", atts[0]]) == [atts[0]];
      assert [atts[0]] + atts[1..] == atts;
    } else {
      assert CleanPieces([""]) == [];
    }
  }

  lemma {:induction false} FlattenPlain(atts: seq<string>)
    requires forall i | 0 <= i < |atts| :: IsTitle(atts[i]) && NoneOf(atts[i], Joiners)
    ensures Flatten(atts) == atts
  {
    if atts != [] {
      assert !(',' in atts[0] || '+' in atts[0]);
      FlattenPlain(atts[1..]);
      assert [atts[0]] + atts[1..] == atts;
    }
  }

  lemma CleanTitleAndAttribute(title: string, a: string)
    requires title != [] && Stripped(title) && a != [] && Stripped(a)
    ensures CleanPieces([title + " ", a]) == [title, a]
  {
    StripTrailingBlank(title);
    StripOfStripped(a);
    CleanPiecesPair(title + " ", a, title, a);
  }

  lemma {:induction false} SegmentsAsPieces(title: string, atts: seq<string>)
    requires IsTitle(title)
    requires forall i | 0 <= i < |atts| :: IsTitle(atts[i])
    ensures Segments(Compose(title, atts)) == CleanPieces(ParenPieces(title, atts))
  {
    assert forall i | 0 <= i < |atts| :: NoneOf(atts[i], Parens);
    SplitParenList(title, atts);
  }

  lemma {:induction false} CleanComposedPieces(title: string, atts: seq<string>)
    requires IsTitle(title)
    requires forall i | 0 <= i < |atts| :: IsTitle(atts[i])
    ensures CleanPieces(ParenPieces(title, atts)) == [title] + atts
  {
    if atts == [] {
      StripOfStripped(title);
      assert CleanPieces([title]) == [title] by { assert [title][1..] == []; }
    } else {
      var tail := ParenPieces("", atts[1..]);
      calc {
        CleanPieces(ParenPieces(title, atts));
        CleanPieces([title + " ", atts[0]] + tail);
        { CleanPiecesAppend([title + " ", atts[0]], tail); }
        CleanPieces([title + " ", atts[0]]) + CleanPieces(tail);
        { CleanTitleAndAttribute(title, atts[0]); CleanParenPieces(atts[1..]); }
        [title, atts[0]] + atts[1..];
        [title] + atts;
      }
    }
  }

  lemma SegmentsOfCompose(title: string, atts: seq<string>)
    requires IsTitle(title)
    requires forall i | 0 <= i < |atts| :: IsTitle(atts[i])
    ensures Segments(Compose(title, atts)) == [title] + atts
  {
    SegmentsAsPieces(title, atts);
    CleanComposedPieces(title, atts);
  }

  /** Splitting a composed release name gives back its title and attributes. */
  lemma SplitCompose(title: string, atts: seq<string>)
    requires IsTitle(title)
    requires forall i | 0 <= i < |atts| :: IsTitle(atts[i]) && NoneOf(atts[i], Joiners)
    ensures AttributeSplit(Compose(title, atts)) == Some([title] + atts)
  {
    SegmentsOfCompose(title, atts);
    assert ([title] + atts)[1..] == atts;
    FlattenPlain(atts);
  }

  /** A split result composes back to a name that splits the same way. */
  lemma SplitComposeSplit(name: string)
    requires AttributeSplit(name).Some?
    ensures var r := AttributeSplit(name).value;
            AttributeSplit(Compose(r[0], r[1..])) == Some(r)
  {
    var r := AttributeSplit(name).value;
    SplitCompose(r[0], r[1..]);
    assert [r[0]] + r[1..] == r;
  }

  lemma {:induction false} ParenListConcat(xs: seq<string>, ys: seq<string>)
    ensures ParenList(xs + ys) == ParenList(xs) + ParenList(ys)
  {
    if xs == [] {
      assert xs + ys == ys;
    } else {
      assert (xs + ys)[1..] == xs[1..] + ys;
      ParenListConcat(xs[1..], ys);
    }
  }

  /** Every element is an attribute. */
  predicate AllAttributes(xs: seq<string>) {
    forall j | 0 <= j < |xs| :: IsTitle(xs[j]) && NoneOf(xs[j], Joiners)
  }

  lemma AllAttributesConcat(xs: seq<string>, ys: seq<string>)
    requires AllAttributes(xs) && AllAttributes(ys)
    ensures AllAttributes(xs + ys)
  {
    forall j | 0 <= j < |xs + ys| ensures IsTitle((xs + ys)[j]) && NoneOf((xs + ys)[j], Joiners) {
      if j < |xs| { assert (xs + ys)[j] == xs[j]; } else { assert (xs + ys)[j] == ys[j - |xs|]; }
    }
  }

  /** A title with the attributes before index i, followed by further
      attributes, composes to a name that splits back into all of them. */
  lemma PrefixSplits(atts: seq<string>, i: nat, extra: seq<string>)
    requires WellFormed(atts) && 1 <= i <= |atts|
    requires forall j | 0 <= j < |extra| :: IsAttribute(extra[j])
    ensures AttributeSplit(Compose(atts[0], atts[1..i] + extra)) == Some(atts[..i] + extra)
  {
    var xs := atts[1..i] + extra;
    assert AllAttributes(xs) by {
      assert AllAttributes(atts[1..i]) by {
        forall j | 0 <= j < i - 1 ensures IsAttribute(atts[1..i][j]) {
          assert atts[1..i][j] == atts[j + 1];
        }
      }
      assert AllAttributes(extra);
      AllAttributesConcat(atts[1..i], extra);
    }
    assert [atts[0]] + xs == atts[..i] + extra by {
      assert [atts[0]] + atts[1..i] == atts[..i];
    }
    SplitCompose(atts[0], xs);
  }

  /** One more attribute written after a composed name. */
  lemma ComposeStep(atts: seq<string>, j: nat)
    requires 1 <= j < |atts|
    ensures Compose(atts[0], atts[1..j]) + " (" + atts[j] + ")" == Compose(atts[0], atts[1..j + 1])
  {
    assert atts[1..j + 1] == atts[1..j] + [atts[j]];
    ParenListConcat(atts[1..j], [atts[j]]);
    assert ParenList([atts[j]]) == " (" + atts[j] + ")" + ParenList([]);
  }
}
