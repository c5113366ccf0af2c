/** Seeds that pack a list of small variables into one number
    (`encodeSeed`, `decodeSeed`, `verifySeed`), and the digit strings the
    number is written as (`dec_to_base`). Variable `i` may take the values
    `0..m[i]` and occupies `m[i].bit_length()` bits, the fields laid out from
    the least significant bit in list order. */
module Seeds {

  import opened Wrappers
  import opened Text

  function Pow2(k: nat): (r: nat)
    ensures r >= 1
  {
    if k == 0 then 1 else 2 * Pow2(k - 1)
  }

  lemma {:induction false} Pow2Add(a: nat, b: nat)
    ensures Pow2(a + b) == Pow2(a) * Pow2(b)
    decreases a
  {
    if a > 0 {
      Pow2Add(a - 1, b);
      assert Pow2(a + b) == 2 * Pow2(a - 1 + b);
    }
  }

  lemma {:induction false} Pow2Monotone(a: nat, b: nat)
    requires a <= b
    ensures Pow2(a) <= Pow2(b)
    decreases b
  {
    if a < b {
      Pow2Monotone(a, b - 1);
    }
  }

  /** `n.bit_length()`: the number of binary digits of `n`. */
  function BitLength(n: nat): (r: nat)
    ensures n < Pow2(r)
    ensures n > 0 ==> r >= 1 && Pow2(r - 1) <= n
  {
    if n == 0 then 0 else 1 + BitLength(n / 2)
  }

  /** A value fits in `k` bits exactly when its bit length is at most `k`. */
  lemma BitLengthFits(n: nat, k: nat)
    ensures BitLength(n) <= k <==> n < Pow2(k)
  {
    var r := BitLength(n);
    if r <= k {
      Pow2Monotone(r, k);
    } else {
      Pow2Monotone(k, r - 1);
    }
  }

  /** Where field `i` starts: the bit lengths of the maxima before it. */
  function Offset(m: seq<nat>, i: nat): nat
    requires i <= |m|
  {
    if i == 0 then 0 else Offset(m, i - 1) + BitLength(m[i - 1])
  }

  /** The number `encodeSeed` packs: value `i` shifted left to the offset
      of field `i`, all added up. */
  function Seed(v: seq<nat>, m: seq<nat>): nat
    requires |v| <= |m|
  {
    if v == [] then 0 else Seed(v[..|v| - 1], m) + v[|v| - 1] * Pow2(Offset(m, |v| - 1))
  }

  /** Field `i` of a seed: `(seed >> offset) & (2**bit_length - 1)`. */
  function Field(seed: nat, m: seq<nat>, i: nat): (r: nat)
    requires i < |m|
    ensures r < Pow2(BitLength(m[i]))
  {
    (seed / Pow2(Offset(m, i))) % Pow2(BitLength(m[i]))
  }

  /** Every field of a seed, one per maximum. */
  function Fields(seed: nat, m: seq<nat>): (r: seq<nat>)
    ensures |r| == |m|
    ensures forall i | 0 <= i < |m| :: r[i] < Pow2(BitLength(m[i])) && r[i] == Field(seed, m, i)
  {
    seq(|m|, i requires 0 <= i < |m| => Field(seed, m, i))
  }

  /** Each value is within its maximum. */
  predicate Within(v: seq<nat>, m: seq<nat>)
    requires |v| <= |m|
  {
    forall i | 0 <= i < |v| :: v[i] <= m[i]
  }

  /** The packing loop of `encodeSeed` (and of the maximum in `verifySeed`).
      The loop runs over the values and reads the maximum at the same index,
      so more values than maximums raise IndexError. */
  method Pack(v: seq<nat>, m: seq<nat>) returns (r: Option<nat>)
    ensures |v| > |m| <==> r.None?
    ensures |v| <= |m| ==> r == Some(Seed(v, m))
  {
    var seed := 0;
    var shift := 0;
    for i := 0 to |v|
      invariant i <= |m|
      invariant seed == Seed(v[..i], m)
      invariant shift == Offset(m, i)
    {
      if i >= |m| {
        return None;
      }
      SeedStep(v, m, i);
      seed := seed + v[i] * Pow2(shift);
      shift := shift + BitLength(m[i]);
    }
    assert v[..|v|] == v;
    r := Some(seed);
  }

  /** What `encodeSeed` returns: the seed and its digits. */
  datatype Encoded = Encoded(seed: nat, text: string)

  /** `encodeSeed(v, m, base)`; a base above 36 is lowered to 36. */
  method EncodeSeed(v: seq<nat>, m: seq<nat>, base: int) returns (r: Option<Encoded>)
    requires base >= 2
    ensures |v| > |m| <==> r.None?
    ensures |v| <= |m| ==>
      r == Some(Encoded(Seed(v, m), Digits(Seed(v, m), if base > 36 then 36 else base)))
  {
    var b := if base > 36 then 36 else base;
    var seed := Pack(v, m);
    if seed.None? {
      return None;
    }
    var text := DecToBase(seed.value, b);
    r := Some(Encoded(seed.value, text));
  }

  /** The unpacking loop of `decodeSeed`. */
  method Unpack(seed: nat, m: seq<nat>) returns (vars: seq<nat>)
    ensures vars == Fields(seed, m)
  {
    vars := [];
    var shift := 0;
    for i := 0 to |m|
      invariant |vars| == i && shift == Offset(m, i)
      invariant forall k | 0 <= k < i :: vars[k] == Field(seed, m, k)
    {
      var bitLength := BitLength(m[i]);
      vars := vars + [(seed / Pow2(shift)) % Pow2(bitLength)];
      shift := shift + bitLength;
    }
  }

  lemma {:induction false} SeedBelow(v: seq<nat>, m: seq<nat>)
    requires |v| <= |m| && Within(v, m)
    ensures Seed(v, m) < Pow2(Offset(m, |v|))
    decreases |v|
  {
    if v != [] {
      var n := |v| - 1;
      var init := v[..n];
      assert Within(init, m);
      SeedBelow(init, m);
      var p, q := Pow2(Offset(m, n)), Pow2(BitLength(m[n]));
      PackBound(Seed(init, m), v[n], p, q);
      Pow2Add(Offset(m, n), BitLength(m[n]));
    }
  }

  /** A value below `q` placed above `p` values stays below `p * q`. */
  lemma PackBound(s: nat, x: nat, p: nat, q: nat)
    requires s < p && x < q
    ensures s + x * p < p * q
  {
    MulMonotone(x, q - 1, p);
    assert (q - 1) * p == q * p - p;
  }

  /** The arithmetic step of SeedSplits. */
  lemma Regroup(total: nat, init: nat, low: nat, p: nat, k: nat, x: nat, pl: nat, g: nat)
    requires total == init + x * pl && init == low + p * k && pl == p * g
    ensures total == low + p * (k + x * g)
  {
  }

  lemma MulMonotone(a: nat, b: nat, p: nat)
    requires a <= b
    ensures a * p <= b * p
  {
  }

  /** The fields from `n` on, packed as if field `n` started at bit 0. */
  function High(v: seq<nat>, m: seq<nat>, n: nat): nat
    requires n <= |v| <= |m|
    decreases |v|
  {
    if |v| == n then 0
    else High(v[..|v| - 1], m, n) + v[|v| - 1] * Pow2(OffsetGap(m, n, |v| - 1))
  }

  /** A seed is its low fields plus its high fields shifted past them. */
  lemma {:induction false} SeedSplits(v: seq<nat>, m: seq<nat>, n: nat)
    requires n <= |v| <= |m|
    ensures Seed(v, m) == Seed(v[..n], m) + Pow2(Offset(m, n)) * High(v, m, n)
    decreases |v|
  {
    if n == |v| {
      assert v[..n] == v;
    } else {
      var last := |v| - 1;
      var init := v[..last];
      SeedSplits(init, m, n);
      assert init[..n] == v[..n];
      var gap := OffsetGap(m, n, last);
      Pow2Add(Offset(m, n), gap);
      Regroup(Seed(v, m), Seed(init, m), Seed(v[..n], m), Pow2(Offset(m, n)), High(init, m, n),
              v[last], Pow2(Offset(m, last)), Pow2(gap));
    }
  }

  /** Later fields start later. */
  lemma {:induction false} OffsetGapIs(m: seq<nat>, a: nat, b: nat)
    requires a <= b <= |m|
    ensures Offset(m, a) <= Offset(m, b)
    decreases b
  {
    if a < b {
      OffsetGapIs(m, a, b - 1);
    }
  }

  function OffsetGap(m: seq<nat>, a: nat, b: nat): (g: nat)
    requires a <= b <= |m|
    ensures Offset(m, b) == Offset(m, a) + g
  {
    OffsetGapIs(m, a, b);
    Offset(m, b) - Offset(m, a)
  }

  /** Euclidean division by `p` drops a remainder below `p`. */
  lemma DivDropsLow(low: nat, p: nat, x: nat)
    requires low < p
    ensures (low + p * x) / p == x
  {
    var s := low + p * x;
    var q, r := s / p, s % p;
    assert s == p * q + r;
    assert p * (x - q) == r - low;
    if x > q {
      MulMonotone(1, x - q, p);
    } else if x < q {
      assert p * (q - x) == low - r;
      MulMonotone(1, q - x, p);
    }
  }

  lemma ModDropsHigh(x: nat, q: nat, k: nat)
    requires x < q
    ensures (x + q * k) % q == x
  {
    DivDropsLow(x, q, k);
  }

  /** Field `i` of a packed seed is value `i`. */
  lemma FieldOfSeed(v: seq<nat>, m: seq<nat>, i: nat)
    requires i < |v| <= |m| && Within(v, m)
    ensures Field(Seed(v, m), m, i) == v[i]
  {
    FieldFacts(v, m, i);
    FieldArith(Seed(v, m), Seed(v[..i], m), Pow2(Offset(m, i)), v[i], Pow2(BitLength(m[i])),
               High(v, m, i + 1), Pow2(Offset(m, i + 1)));
  }

  /** The facts FieldOfSeed combines: a seed is its fields below `i`, field
      `i`, and its fields above. */
  lemma FieldFacts(v: seq<nat>, m: seq<nat>, i: nat)
    requires i < |v| <= |m| && Within(v, m)
    ensures Seed(v, m) == (Seed(v[..i], m) + v[i] * Pow2(Offset(m, i)))
                          + Pow2(Offset(m, i + 1)) * High(v, m, i + 1)
    ensures Pow2(Offset(m, i + 1)) == Pow2(Offset(m, i)) * Pow2(BitLength(m[i]))
    ensures Seed(v[..i], m) < Pow2(Offset(m, i))
    ensures v[i] < Pow2(BitLength(m[i]))
  {
    SeedStep(v, m, i);
    assert Within(v[..i], m);
    SeedBelow(v[..i], m);
    OffsetStep(m, i);
    SeedSplits(v, m, i + 1);
  }

  /** The offset past field `i` in powers of two. */
  lemma OffsetStep(m: seq<nat>, i: nat)
    requires i < |m|
    ensures Pow2(Offset(m, i + 1)) == Pow2(Offset(m, i)) * Pow2(BitLength(m[i]))
  {
    Pow2Add(Offset(m, i), BitLength(m[i]));
  }

  /** One more value packed onto a prefix. */
  lemma SeedStep(v: seq<nat>, m: seq<nat>, i: nat)
    requires i < |v| && i < |m|
    ensures Seed(v[..i + 1], m) == Seed(v[..i], m) + v[i] * Pow2(Offset(m, i))
  {
    assert v[..i + 1][..i] == v[..i];
  }

  /** The arithmetic step of FieldOfSeed. */
  lemma FieldArith(total: nat, low: nat, p: nat, x: nat, q: nat, k: nat, pq: nat)
    requires total == (low + x * p) + pq * k && pq == p * q && low < p && x < q
    ensures (total / p) % q == x
  {
    assert total == low + p * (x + q * k);
    DivDropsLow(low, p, x + q * k);
    ModDropsHigh(x, q, k);
  }

  /** `decodeSeed(encodeSeed(v, m)[0], m) == v` for values within their maxima. */
  lemma DecodeEncode(v: seq<nat>, m: seq<nat>)
    requires |v| == |m| && Within(v, m)
    ensures Fields(Seed(v, m), m) == v
  {
    forall i | 0 <= i < |v| ensures Fields(Seed(v, m), m)[i] == v[i] {
      FieldOfSeed(v, m, i);
    }
  }

  /** Values within their maxima pack to at most the packed maxima. */
  lemma {:induction false} SeedMonotone(v: seq<nat>, m: seq<nat>)
    requires |v| == |m| && Within(v, m)
    ensures Seed(v, m) <= Seed(m, m)
  {
    SeedPrefixMonotone(v, m, |v|);
    assert v[..|v|] == v && m[..|m|] == m;
  }

  lemma {:induction false} SeedPrefixMonotone(v: seq<nat>, m: seq<nat>, n: nat)
    requires |v| == |m| && Within(v, m) && n <= |v|
    ensures Seed(v[..n], m) <= Seed(m[..n], m)
  {
    if n > 0 {
      SeedPrefixMonotone(v, m, n - 1);
      SeedStep(v, m, n - 1);
      SeedStep(m, m, n - 1);
      assert v[n - 1] <= m[n - 1];
      MulMonotone(v[n - 1], m[n - 1], Pow2(Offset(m, n - 1)));
    }
  }

  /** The digit for a value below 36: '0'-'9', then 'A'-'Z'. */
  function DigitChar(d: nat): (c: char)
    requires d < 36
  {
    if d < 10 then ('0' as int + d) as char else ('A' as int + d - 10) as char
  }

  /** The value of a digit for Python's `int`, either letter case. */
  function DigitValue(c: char): Option<nat> {
    if '0' <= c <= '9' then Some(c as int - '0' as int)
    else if 'A' <= c <= 'Z' then Some(c as int - 'A' as int + 10)
    else if 'a' <= c <= 'z' then Some(c as int - 'a' as int + 10)
    else None
  }

  /** `dec_to_base(n, b)`: the digits of `n` in base `b`, most significant
      first; nothing for `n <= 0`. */
  function Digits(n: int, b: nat): string
    requires 2 <= b <= 36
    decreases if n > 0 then n else 0
  {
    if n <= 0 then [] else Digits(n / b, b) + [DigitChar(n % b)]
  }

  /** Every character is a digit below `b`. */
  predicate AllDigits(s: string, b: nat) {
    forall k | 0 <= k < |s| :: DigitValue(s[k]).Some? && DigitValue(s[k]).value < b
  }

  function DigitsValue(s: string, b: nat): nat
    requires AllDigits(s, b)
  {
    if s == [] then 0
    else
      AllDigitsInit(s, b);
      DigitsValue(s[..|s| - 1], b) * b + DigitValue(s[|s| - 1]).value
  }

  lemma AllDigitsInit(s: string, b: nat)
    requires AllDigits(s, b) && s != []
    ensures AllDigits(s[..|s| - 1], b)
  {
    forall k | 0 <= k < |s| - 1 ensures s[..|s| - 1][k] == s[k] {}
  }

  /** Python's `int(s, b)` on a plain digit string; `None` where it raises
      ValueError. */
  function ParseInt(s: string, b: nat): (r: Option<nat>)
    ensures r.Some? ==> AllDigits(Strip(s), b) && Strip(s) != []
  {
    var t := Strip(s);
    if t != [] && AllDigits(t, b) then Some(DigitsValue(t, b)) else None
  }

  lemma DigitRoundTrip(d: nat)
    requires d < 36
    ensures DigitValue(DigitChar(d)) == Some(d)
    ensures DigitChar(d) == UpperChar(DigitChar(d)) && !IsSpace(DigitChar(d))
  {
  }

  /** Euclidean division of a positive number by a base. */
  lemma DivModFacts(n: nat, b: nat)
    requires b >= 2 && n > 0
    ensures n == (n / b) * b + n % b && n % b < b && n / b < n
    ensures n / b == 0 ==> n % b == n
  {
    var q, r := n / b, n % b;
    assert n == q * b + r;
    MulMonotone(2, b, q);
    assert q * b >= 2 * q;
  }

  /** Dividing a positive number by a base makes it smaller. */
  lemma DivSmaller(n: nat, b: nat)
    requires b >= 2 && n > 0
    ensures n % b < b && n / b < n
  {
    DivModFacts(n, b);
  }

  /** The last digit comes off the end. */
  lemma DigitsStep(n: nat, b: nat)
    requires 2 <= b <= 36 && n > 0
    ensures Digits(n, b) == Digits(n / b, b) + [DigitChar(n % b)]
    ensures Digits(n, b)[..|Digits(n, b)| - 1] == Digits(n / b, b)
  {
    DivSmaller(n, b);
  }

  /** Every character `dec_to_base` writes is an upper-case digit below `b`. */
  lemma {:induction false} DigitsAreDigits(n: nat, b: nat)
    requires 2 <= b <= 36
    ensures AllDigits(Digits(n, b), b)
    ensures forall k | 0 <= k < |Digits(n, b)| ::
      Digits(n, b)[k] == UpperChar(Digits(n, b)[k]) && !IsSpace(Digits(n, b)[k])
    decreases n
  {
    if n > 0 {
      DivSmaller(n, b);
      DigitsStep(n, b);
      DigitsAreDigits(n / b, b);
      DigitRoundTrip(n % b);
      var s, head, c := Digits(n, b), Digits(n / b, b), DigitChar(n % b);
      assert forall k | 0 <= k < |s| :: s[k] == if k < |head| then head[k] else c;
    }
  }

  /** The digits of `n` read back in base `b` give `n`. */
  lemma {:induction false} DigitsValueRoundTrip(n: nat, b: nat)
    requires 2 <= b <= 36
    ensures AllDigits(Digits(n, b), b)
    ensures DigitsValue(Digits(n, b), b) == n
    decreases n
  {
    DigitsAreDigits(n, b);
    if n > 0 {
      DivSmaller(n, b);
      DigitsValueRoundTrip(n / b, b);
      DigitsValueStep(n, b);
      Recombine(n, b, DigitsValue(Digits(n / b, b), b), DigitsValue(Digits(n, b), b));
    }
  }

  /** Reading the digits of `n` is reading those of `n / b`, times `b`,
      plus the last digit. */
  lemma DigitsValueStep(n: nat, b: nat)
    requires 2 <= b <= 36 && n > 0
    ensures AllDigits(Digits(n, b), b) && AllDigits(Digits(n / b, b), b)
    ensures DigitsValue(Digits(n, b), b) == DigitsValue(Digits(n / b, b), b) * b + n % b
  {
    DivSmaller(n, b);
    DigitsAreDigits(n, b);
    DigitsAreDigits(n / b, b);
    DigitsStep(n, b);
    DigitRoundTrip(n % b);
  }

  /** The arithmetic step of DigitsValueRoundTrip. */
  lemma Recombine(n: nat, b: nat, hv: nat, val: nat)
    requires b >= 2 && n > 0 && hv == n / b && val == hv * b + n % b
    ensures val == n
  {
    DivModFacts(n, b);
  }

  /** A positive number is written without a leading '0'. */
  lemma {:induction false} DigitsLead(n: nat, b: nat)
    requires 2 <= b <= 36 && n > 0
    ensures Digits(n, b) != [] && Digits(n, b)[0] != '0'
    decreases n
  {
    DivModFacts(n, b);
    DigitsStep(n, b);
    if n / b > 0 {
      DigitsLead(n / b, b);
    }
  }

  /** Reading back what `dec_to_base` wrote: `int(dec_to_base(n, b), b) == n`
      for positive `n`. */
  lemma ParseDigits(n: nat, b: nat)
    requires 2 <= b <= 36 && n > 0
    ensures Strip(Upper(Digits(n, b))) == Digits(n, b)
    ensures ParseInt(Digits(n, b), b) == Some(n)
  {
    var s := Digits(n, b);
    DigitsAreDigits(n, b);
    DigitsValueRoundTrip(n, b);
    assert Upper(s) == s;
    StripOfStripped(s);
  }

  function Reverse(s: string): (r: string)
    ensures |r| == |s|
  {
    if s == [] then [] else Reverse(s[1..]) + [s[0]]
  }

  lemma {:induction false} ReverseAppend(s: string, c: char)
    ensures Reverse(s + [c]) == [c] + Reverse(s)
  {
    if s != [] {
      assert (s + [c])[1..] == s[1..] + [c];
      ReverseAppend(s[1..], c);
    } else {
      assert Reverse([c]) == Reverse([]) + [c];
    }
  }

  /** `dec_to_base(num, base)`: digits collected least significant first,
      then reversed. */
  method DecToBase(num: int, base: nat) returns (r: string)
    requires 2 <= base <= 36
    ensures r == Digits(num, base)
  {
    var n := num;
    var acc := "";
    while n > 0
      invariant Digits(num, base) == Digits(n, base) + Reverse(acc)
      decreases if n > 0 then n else 0
    {
      var dig := n % base;
      DivSmaller(n, base);
      DigitsStep(n, base);
      ReverseAppend(acc, DigitChar(dig));
      acc := acc + [DigitChar(dig)];
      n := n / base;
    }
    r := Reverse(acc);
  }

  /** A seed as `decodeSeed` and `verifySeed` accept it: an integer, or a
      string of digits. */
  datatype SeedInput = IntSeed(n: nat) | StrSeed(s: string)

  /** The base after the bounds correction of `decodeSeed` and `verifySeed`. */
  function ClampBase(base: int): (b: nat)
    ensures 2 <= b <= 36
  {
    if base > 36 then 36 else if base < 2 then 2 else base
  }

  /** `decodeSeed(seed, m, base)`; `None` where `int(seed, base)` raises. */
  function Decoded(seed: SeedInput, m: seq<nat>, base: int): (r: Option<seq<nat>>)
    ensures r.Some? ==> |r.value| == |m|
  {
    match seed
    case IntSeed(n) => Some(Fields(n, m))
    case StrSeed(s) =>
      match ParseInt(s, ClampBase(base))
      case None => None
      case Some(n) => Some(Fields(n, m))
  }

  /** `decodeSeed(seed, m, base)` */
  method DecodeSeed(seed: SeedInput, m: seq<nat>, base: int) returns (r: Option<seq<nat>>)
    ensures r == Decoded(seed, m, base)
  {
    var n := 0;
    match seed {
      case IntSeed(i) =>
        n := i;
      case StrSeed(s) =>
        var parsed := ParseInt(s, ClampBase(base));
        if parsed.None? {
          return None;
        }
        n := parsed.value;
    }
    var vars := Unpack(n, m);
    return Some(vars);
  }

  /** The seed string `verifySeed` works on and the base it decodes with. */
  function Normalized(seed: SeedInput, base: int): (string, nat) {
    match seed
    case IntSeed(n) => (Strip(Upper(Digits(n, 10))), 10)
    case StrSeed(s) => (Strip(Upper(s)), ClampBase(base))
  }

  /** `verifySeed(seed, m, base)` as written: the bound on the seed reads
      its digits in base 36 whatever the base. `None` stands for
      `(False, None)`. */
  function Verified(seed: SeedInput, m: seq<nat>, base: int): (r: Option<seq<nat>>)
    ensures r.Some? ==> |r.value| == |m| && Within(r.value, m)
  {
    var (text, b) := Normalized(seed, base);
    match ParseInt(text, 36)
    case None => None
    case Some(bound) =>
      if bound > Seed(m, m) then None
      else
        match Decoded(StrSeed(text), m, b)
        case None => None
        case Some(vars) => if Within(vars, m) then Some(vars) else None
  }

  /** `verifySeed` with the bound read in the seed's own base. */
  function VerifiedIntended(seed: SeedInput, m: seq<nat>, base: int): (r: Option<seq<nat>>)
    ensures r.Some? ==> |r.value| == |m| && Within(r.value, m)
  {
    var (text, b) := Normalized(seed, base);
    match ParseInt(text, b)
    case None => None
    case Some(bound) =>
      if bound > Seed(m, m) then None
      else
        match Decoded(StrSeed(text), m, b)
        case None => None
        case Some(vars) => if Within(vars, m) then Some(vars) else None
  }

  /** The bounds correction of the base, and the seed as a string with
      its case and white space normalised, as `verifySeed` begins. */
  method NormalizeSeed(seed: SeedInput, base: int) returns (text: string, b: nat)
    ensures (text, b) == Normalized(seed, base)
  {
    b := ClampBase(base);
    match seed {
      case IntSeed(n) =>
        b := 10;
        text := DecToBase(n, 10);
      case StrSeed(s) =>
        text := s;
    }
    text := Strip(Upper(text));
  }

  /** The loop of assertions at the end of `verifySeed`. */
  method CheckWithin(vars: seq<nat>, m: seq<nat>) returns (ok: bool)
    requires |vars| <= |m|
    ensures ok == Within(vars, m)
  {
    for i := 0 to |vars|
      invariant forall k | 0 <= k < i :: vars[k] <= m[k]
    {
      if vars[i] > m[i] {
        return false;
      }
    }
    return true;
  }

  /** `verifySeed(seed, m, base)` */
  method VerifySeed(seed: SeedInput, m: seq<nat>, base: int) returns (r: Option<seq<nat>>)
    ensures r == Verified(seed, m, base)
  {
    var text, b := NormalizeSeed(seed, base);
    var packed := Pack(m, m);
    var maxSeed := packed.value;
    var bound := ParseInt(text, 36);
    if bound.None? || bound.value > maxSeed {
      return None;
    }
    var decoded := DecodeSeed(StrSeed(text), m, b);
    if decoded.None? {
      return None;
    }
    var ok := CheckWithin(decoded.value, m);
    r := if ok then decoded else None;
  }

  /** In base 36 the two readings of the bound agree. */
  lemma VerifiedInBase36(s: string, m: seq<nat>)
    ensures Verified(StrSeed(s), m, 36) == VerifiedIntended(StrSeed(s), m, 36)
  {
  }

  /** The seed string `encodeSeed` writes for the value 10 within maximum
      15 in base 10 is "10", and `verifySeed` rejects it, because it reads
      "10" as 36 in base 36. */
  lemma BaseTenSeedRejected()
    ensures Seed([10], [15]) == 10 && Digits(10, 10) == "10"
    ensures Fields(10, [15]) == [10]
    ensures Verified(StrSeed("10"), [15], 10) == None
  {
    SmallSeeds();
    DecodeEncode([10], [15]);
    TenDigits();
    ParseDigits(36, 36);
  }

  lemma SmallSeeds()
    ensures Seed([10], [15]) == 10 && Seed([15], [15]) == 15
  {
    assert [10][..0] == [] && [15][..0] == [];
  }

  /** Ten in base ten and thirty-six in base 36 are both written "10". */
  lemma TenDigits()
    ensures Digits(10, 10) == "10" && Digits(36, 36) == "10"
  {
    DigitsStep(10, 10);
    DigitsStep(1, 10);
    DigitsStep(36, 36);
    DigitsStep(1, 36);
  }

  /** With the bound read in the seed's base, every seed string
      `encodeSeed` writes for a non-zero seed verifies to its values. */
  lemma VerifyRoundTripIntended(v: seq<nat>, m: seq<nat>, base: int)
    requires |v| == |m| && Within(v, m) && base >= 2 && Seed(v, m) > 0
    ensures var b := if base > 36 then 36 else base;
            VerifiedIntended(StrSeed(Digits(Seed(v, m), b)), m, base) == Some(v)
  {
    var b := if base > 36 then 36 else base;
    var n := Seed(v, m);
    ParseDigits(n, b);
    SeedMonotone(v, m);
    DecodeEncode(v, m);
  }
}
