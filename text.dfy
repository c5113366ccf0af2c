/** The handful of Python `str` operations that the catalog logic relies on,
    written over `string` (a sequence of code points). */
module Text {

  /** The characters Python's `str.isspace` accepts, which are the ones
      `str.strip()` removes. */
  predicate IsSpace(c: char) {
    var n := c as int;
    || (9 <= n <= 13) || (28 <= n <= 32) || n == 0x85 || n == 0xA0 || n == 0x1680
    || (0x2000 <= n <= 0x200A) || n == 0x2028 || n == 0x2029 || n == 0x202F
    || n == 0x205F || n == 0x3000
  }

  /** No leading and no trailing white space. */
  predicate Stripped(s: string) {
    s == [] || (!IsSpace(s[0]) && !IsSpace(s[|s| - 1]))
  }

  /** None of the characters of `s` is in `cs`. */
  predicate NoneOf(s: string, cs: set<char>) {
    forall k | 0 <= k < |s| :: s[k] !in cs
  }

  /** `s.lstrip()` */
  function LStrip(s: string): (r: string)
    ensures |r| <= |s| && r == s[|s| - |r|..]
    ensures r != [] ==> !IsSpace(r[0])
    ensures forall k | 0 <= k < |s| - |r| :: IsSpace(s[k])
  {
    if s != [] && IsSpace(s[0]) then LStrip(s[1..]) else s
  }

  /** `s.rstrip()` */
  function RStrip(s: string): (r: string)
    ensures |r| <= |s| && r == s[..|r|]
    ensures r != [] ==> !IsSpace(r[|r| - 1])
    ensures forall k | |r| <= k < |s| :: IsSpace(s[k])
  {
    if s != [] && IsSpace(s[|s| - 1]) then RStrip(s[..|s| - 1]) else s
  }

  /** `s.strip()`: the result is `s` with its white-space margins cut off. */
  function Strip(s: string): (r: string)
    ensures Stripped(r)
    ensures |r| <= |s| && forall c | c in r :: c in s
  {
    var l := LStrip(s);
    var r := RStrip(l);
    assert r == s[|s| - |l|..][..|r|];
    r
  }

  lemma StripKeepsNoneOf(s: string, cs: set<char>)
    requires NoneOf(s, cs)
    ensures NoneOf(Strip(s), cs)
  {
    var r := Strip(s);
    forall k | 0 <= k < |r| ensures r[k] !in cs {
      assert r[k] in r;
    }
  }

  lemma StripOfStripped(s: string)
    requires Stripped(s)
    ensures Strip(s) == s
  {
  }

  /** Stripping a stripped word followed by one blank gives the word back. */
  lemma StripTrailingBlank(s: string)
    requires Stripped(s) && s != []
    ensures Strip(s + " ") == s
  {
    var t := s + " ";
    assert LStrip(t) == t;
    assert t[..|t| - 1] == s;
    assert RStrip(t) == RStrip(s);
  }

  lemma StripBlank()
    ensures Strip(" ") == "" && Strip("") == ""
  {
    assert LStrip(" ") == LStrip(" "[1..]);
  }

  /** `re.split` on a character class: the pieces between the separators,
      always one more than there are separators. */
  function SplitChars(s: string, seps: set<char>): (r: seq<string>)
    ensures |r| >= 1
    ensures forall i | 0 <= i < |r| :: forall c | c in r[i] :: c in s && c !in seps
  {
    if s == [] then [""]
    else
      var rest := SplitChars(s[1..], seps);
      if s[0] in seps then [""] + rest
      else [[s[0]] + rest[0]] + rest[1..]
  }

  lemma SplitCharsNoneOf(s: string, seps: set<char>, cs: set<char>)
    requires NoneOf(s, cs)
    ensures forall i | 0 <= i < |SplitChars(s, seps)| :: NoneOf(SplitChars(s, seps)[i], cs + seps)
  {
    var r := SplitChars(s, seps);
    forall i, k | 0 <= i < |r| && 0 <= k < |r[i]| ensures r[i][k] !in cs + seps {
      assert r[i][k] in r[i];
    }
  }

  lemma {:induction false} SplitCharsNoSeparator(s: string, seps: set<char>)
    requires NoneOf(s, seps)
    ensures SplitChars(s, seps) == [s]
  {
    if s != [] {
      SplitCharsNoSeparator(s[1..], seps);
      assert [s[0]] + s[1..] == s;
    }
  }

  /** A separator after a separator-free prefix ends the first piece there. */
  lemma {:induction false} SplitCharsAtSeparator(a: string, c: char, b: string, seps: set<char>)
    requires NoneOf(a, seps) && c in seps
    ensures SplitChars(a + [c] + b, seps) == [a] + SplitChars(b, seps)
  {
    var s := a + [c] + b;
    if a == [] {
      assert s[1..] == b;
    } else {
      assert s[1..] == a[1..] + [c] + b;
      SplitCharsAtSeparator(a[1..], c, b, seps);
      assert [a[0]] + a[1..] == a;
    }
  }

  /** The comprehension `[p.strip() for p in pieces if p.strip() != ""]`. */
  function CleanPieces(pieces: seq<string>): (r: seq<string>)
    ensures |r| <= |pieces|
    ensures forall i | 0 <= i < |r| :: r[i] != [] && Stripped(r[i])
  {
    if pieces == [] then []
    else
      var head := Strip(pieces[0]);
      if head != [] then [head] + CleanPieces(pieces[1..]) else CleanPieces(pieces[1..])
  }

  /** Cleaning a list one piece at a time from the front. */
  lemma CleanPiecesCons(x: string, rest: seq<string>)
    ensures CleanPieces([x] + rest) == (if Strip(x) != [] then [Strip(x)] else []) + CleanPieces(rest)
  {
    assert ([x] + rest)[1..] == rest;
  }

  /** Cleaning two pieces that strip to non-blank words. */
  lemma CleanPiecesPair(x: string, y: string, sx: string, sy: string)
    requires Strip(x) == sx && sx != [] && Strip(y) == sy && sy != []
    ensures CleanPieces([x, y]) == [sx, sy]
  {
    assert [x, y][1..] == [y];
    assert [y][1..] == [];
  }

  lemma {:induction false} CleanPiecesAppend(x: seq<string>, y: seq<string>)
    ensures CleanPieces(x + y) == CleanPieces(x) + CleanPieces(y)
  {
    if x == [] {
      assert x + y == y;
    } else {
      assert (x + y)[0] == x[0];
      assert (x + y)[1..] == x[1..] + y;
      CleanPiecesAppend(x[1..], y);
    }
  }

  lemma {:induction false} CleanPiecesNoneOf(pieces: seq<string>, cs: set<char>)
    requires forall i | 0 <= i < |pieces| :: NoneOf(pieces[i], cs)
    ensures forall i | 0 <= i < |CleanPieces(pieces)| :: NoneOf(CleanPieces(pieces)[i], cs)
  {
    if pieces != [] {
      var rest := pieces[1..];
      forall i | 0 <= i < |rest| ensures NoneOf(rest[i], cs) {
        assert rest[i] == pieces[i + 1];
      }
      CleanPiecesNoneOf(rest, cs);
      StripKeepsNoneOf(pieces[0], cs);
      var head := Strip(pieces[0]);
      CleanPiecesCons(pieces[0], rest);
      assert [pieces[0]] + rest == pieces;
      AllNoneOfAppend(if head != [] then [head] else [], CleanPieces(rest), cs);
    }
  }

  lemma AllNoneOfAppend(xs: seq<string>, ys: seq<string>, cs: set<char>)
    requires forall i | 0 <= i < |xs| :: NoneOf(xs[i], cs)
    requires forall i | 0 <= i < |ys| :: NoneOf(ys[i], cs)
    ensures forall i | 0 <= i < |xs + ys| :: NoneOf((xs + ys)[i], cs)
  {
    forall i | 0 <= i < |xs + ys| ensures NoneOf((xs + ys)[i], cs) {
      if i >= |xs| {
        assert (xs + ys)[i] == ys[i - |xs|];
      }
    }
  }

  lemma CleanPiecesOfClean(pieces: seq<string>)
    requires forall i | 0 <= i < |pieces| :: pieces[i] != [] && Stripped(pieces[i])
    ensures CleanPieces(pieces) == pieces
  {
    if pieces != [] {
      var rest := pieces[1..];
      forall i | 0 <= i < |rest| ensures rest[i] != [] && Stripped(rest[i]) {
        assert rest[i] == pieces[i + 1];
      }
      CleanPiecesOfClean(rest);
      StripOfStripped(pieces[0]);
      CleanPiecesCons(pieces[0], rest);
      assert [pieces[0]] + rest == pieces;
    }
  }

  /** `x in s` for strings: `x` occurs in `s` as a substring. */
  predicate Contains(s: string, x: string) {
    exists i | 0 <= i <= |s| - |x| :: OccursAt(s, x, i)
  }

  /** `x` occurs in `s` starting at index `i`. */
  predicate OccursAt(s: string, x: string, i: int) {
    0 <= i <= |s| - |x| && s[i..i + |x|] == x
  }

  /** `s.count(c)` for a one-character `c`. */
  function CountChar(s: string, c: char): (r: nat)
    ensures r <= |s|
    ensures r == 0 <==> c !in s
  {
    if s == [] then 0 else (if s[0] == c then 1 else 0) + CountChar(s[1..], c)
  }

  /** `s.replace(pat, rep)`: every non-overlapping occurrence of `pat`,
      scanning from the left, becomes `rep`. */
  function Replace(s: string, pat: string, rep: string): string
    requires pat != []
    decreases |s|
  {
    if |s| < |pat| then s
    else if pat <= s then rep + Replace(s[|pat|..], pat, rep)
    else [s[0]] + Replace(s[1..], pat, rep)
  }

  lemma {:induction false} ReplaceAbsent(s: string, pat: string, rep: string)
    requires pat != [] && !Contains(s, pat)
    ensures Replace(s, pat, rep) == s
  {
    if |s| >= |pat| {
      assert !(pat <= s) by { assert !OccursAt(s, pat, 0); }
      assert !Contains(s[1..], pat) by {
        forall i | 0 <= i <= |s| - 1 - |pat| ensures !OccursAt(s[1..], pat, i) {
          assert !OccursAt(s, pat, i + 1);
          assert s[1..][i..i + |pat|] == s[i + 1..i + 1 + |pat|];
        }
      }
      ReplaceAbsent(s[1..], pat, rep);
      assert [s[0]] + s[1..] == s;
    }
  }

  /** The index of the last `c` in `s`, or -1 (Python's `rfind`). */
  function LastIndexOf(s: string, c: char): (r: int)
    ensures -1 <= r < |s|
    ensures r >= 0 ==> s[r] == c
    ensures forall k | r < k < |s| :: s[k] != c
  {
    if s == [] then -1
    else if s[|s| - 1] == c then |s| - 1
    else LastIndexOf(s[..|s| - 1], c)
  }

  /** Python's `posixpath.splitext`: the extension starts at the last dot of
      the last path component, unless that component is only dots before it. */
  function SplitExt(p: string): (r: (string, string))
    ensures r.0 + r.1 == p
    ensures r.1 == [] || (r.1[0] == '.' && '/' !in r.1 && '.' !in r.1[1..])
  {
    var sep := LastIndexOf(p, '/');
    var dot := LastIndexOf(p, '.');
    if dot > sep && exists k | sep + 1 <= k < dot :: p[k] != '.' then
      assert p[..dot] + p[dot..] == p;
      assert forall k | 0 <= k < |p[dot..]| :: p[dot..][k] == p[dot + k];
      (p[..dot], p[dot..])
    else
      assert p + [] == p;
      (p, [])
  }

  /** `s.rstrip(c)` for a one-character `c`. */
  function RStripChar(s: string, c: char): (r: string)
    ensures r <= s
    ensures r == [] || r[|r| - 1] != c
    ensures forall k | |r| <= k < |s| :: s[k] == c
  {
    if s != [] && s[|s| - 1] == c then RStripChar(s[..|s| - 1], c) else s
  }

  /** `s.upper()` on the ASCII letters. */
  function Upper(s: string): (r: string)
    ensures |r| == |s|
    ensures forall k | 0 <= k < |s| :: r[k] == UpperChar(s[k])
  {
    if s == [] then [] else [UpperChar(s[0])] + Upper(s[1..])
  }

  function UpperChar(c: char): char {
    if 'a' <= c <= 'z' then (c as int - 'a' as int + 'A' as int) as char else c
  }
}
