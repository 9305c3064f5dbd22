/**
 * Poses and their text forms, as `Ned2.pose_from_list` and `Ned2.pose_from_str`
 * (ned2.py) handle them.
 *
 * `pose_from_str` runs Python's `re.findall` with the numeral pattern
 * `-?\d+(?:\.\d+)?(?:[eE][+-]?\d+)?` over free text: matches are found leftmost
 * first, greedily and without overlap. The text is a pose exactly when there are
 * six matches. Here a match is returned as a structured `Numeral`, whose
 * `Render`ing is the matched text, and numbers are exact reals.
 */
module PoseText {

  datatype Option<T> = None | Some(value: T)

  /** Position (x, y, z) and orientation (roll, pitch, yaw) of the tool point. */
  datatype Pose = Pose(x: real, y: real, z: real, roll: real, pitch: real, yaw: real)

  /** `PoseObject.to_list()`: the six fields in order. */
  function ToList(p: Pose): (r: seq<real>)
    ensures |r| == 6
    ensures PoseFromList(r) == Some(p)
  {
    [p.x, p.y, p.z, p.roll, p.pitch, p.yaw]
  }

  /**
   * `pose_from_list`: elements 0..5 become x, y, z, roll, pitch, yaw; extra
   * elements are ignored; a list shorter than six raises IndexError (None).
   */
  function PoseFromList(v: seq<real>): (r: Option<Pose>)
    ensures r.Some? <==> |v| >= 6
    ensures r.Some? ==> [r.value.x, r.value.y, r.value.z, r.value.roll, r.value.pitch, r.value.yaw] == v[..6]
  {
    if |v| < 6 then None else Some(Pose(v[0], v[1], v[2], v[3], v[4], v[5]))
  }

  // ---------------------------------------------------------------------------
  // The language of the numeral pattern, as a grammar

  predicate IsDigit(c: char) { '0' <= c <= '9' }

  predicate AllDigits(t: string)
  {
    t == [] || (IsDigit(t[0]) && AllDigits(t[1..]))
  }

  /** `[eE][+-]?\d+`, or nothing. */
  datatype Exponent = NoExponent | Exponent(marker: char, sign: string, digits: string)

  /** `-?\d+(?:\.\d+)?(?:[eE][+-]?\d+)?`; an empty `fraction` stands for no `.\d+` part. */
  datatype Numeral = Numeral(minus: bool, whole: string, fraction: string, exponent: Exponent)

  predicate WellFormedExponent(e: Exponent)
  {
    match e
    case NoExponent => true
    case Exponent(marker, sign, digits) =>
      (marker == 'e' || marker == 'E') && (sign == "" || sign == "+" || sign == "-")
      && |digits| > 0 && AllDigits(digits)
  }

  predicate WellFormed(n: Numeral)
  {
    |n.whole| > 0 && AllDigits(n.whole) && AllDigits(n.fraction) && WellFormedExponent(n.exponent)
  }

  function RenderExponent(e: Exponent): string
  {
    match e
    case NoExponent => ""
    case Exponent(marker, sign, digits) => [marker] + (sign + digits)
  }

  function RenderFraction(fraction: string): string
  {
    if fraction == "" then "" else "." + fraction
  }

  function RenderSign(minus: bool): string
  {
    if minus then "-" else ""
  }

  /** The text of a numeral. */
  function Render(n: Numeral): string
  {
    RenderSign(n.minus) + (n.whole + (RenderFraction(n.fraction) + RenderExponent(n.exponent)))
  }

  // ---------------------------------------------------------------------------
  // Exact values (Python converts with `float`, which rounds; see README)

  function DigitsValue(d: string): nat
  {
    if d == [] then 0
    else
      var c := d[|d| - 1];
      DigitsValue(d[..|d| - 1]) * 10 + (if IsDigit(c) then c as int - '0' as int else 0)
  }

  function Pow10(e: nat): (r: real)
    ensures r >= 1.0
  {
    if e == 0 then 1.0 else 10.0 * Pow10(e - 1)
  }

  lemma QuotientNonNegative(a: real, b: real)
    requires a >= 0.0 && b >= 1.0
    ensures a / b >= 0.0
  {
  }

  lemma ProductNonNegative(a: real, b: real)
    requires a >= 0.0 && b >= 1.0
    ensures a * b >= 0.0
  {
  }

  lemma QuotientTimes(a: real, b: real)
    requires b >= 1.0
    ensures (a / b) * b == a
  {
  }

  /** The magnitude scaled by the exponent, if any. */
  function Scaled(magnitude: real, e: Exponent): (r: real)
    requires magnitude >= 0.0
    ensures r >= 0.0
    ensures e == NoExponent ==> r == magnitude
  {
    match e
    case NoExponent => magnitude
    case Exponent(_, sign, digits) =>
      var p := Pow10(DigitsValue(digits));
      if sign == "-" then QuotientNonNegative(magnitude, p); magnitude / p
      else ProductNonNegative(magnitude, p); magnitude * p
  }

  /**
   * The number `whole.fraction` spells, without sign or exponent: shifting the
   * point past the fraction gives the integer of all the digits.
   */
  function Magnitude(whole: string, fraction: string): (r: real)
    ensures r >= 0.0
    ensures r * Pow10(|fraction|) == DigitsValue(whole + fraction) as real
    ensures fraction == "" ==> r == DigitsValue(whole) as real
  {
    var digits := DigitsValue(whole + fraction) as real;
    QuotientNonNegative(digits, Pow10(|fraction|));
    QuotientTimes(digits, Pow10(|fraction|));
    assert fraction == "" ==> whole + fraction == whole;
    digits / Pow10(|fraction|)
  }

  /** The rational number a numeral denotes. */
  function Value(n: Numeral): (r: real)
    // the sign is the minus sign's
    ensures n.minus ==> r <= 0.0
    ensures !n.minus ==> r >= 0.0
    // a plain run of digits is the integer it spells
    ensures n.fraction == "" && n.exponent == NoExponent ==>
      r == if n.minus then -(DigitsValue(n.whole) as real) else DigitsValue(n.whole) as real
    // without an exponent, it is the number `whole.fraction` spells, with the sign
    ensures n.exponent == NoExponent ==>
      r == if n.minus then -Magnitude(n.whole, n.fraction) else Magnitude(n.whole, n.fraction)
  {
    var scaled := Scaled(Magnitude(n.whole, n.fraction), n.exponent);
    if n.minus then -scaled else scaled
  }

  /**
   * An exponent scales the value of the numeral without it by a power of ten:
   * up for `e` and `e+`, down for `e-`.
   */
  lemma ValueExponent(n: Numeral)
    requires n.exponent.Exponent?
    ensures
      var plain := Value(Numeral(n.minus, n.whole, n.fraction, NoExponent));
      var p := Pow10(DigitsValue(n.exponent.digits));
      Value(n) == if n.exponent.sign == "-" then plain / p else plain * p
  {
    var m := Magnitude(n.whole, n.fraction);
    var p := Pow10(DigitsValue(n.exponent.digits));
    var s := Scaled(m, n.exponent);
    assert s == if n.exponent.sign == "-" then m / p else m * p;
    assert Value(Numeral(n.minus, n.whole, n.fraction, NoExponent)) == if n.minus then -m else m;
    assert Value(n) == if n.minus then -s else s;
    if n.minus {
      NegatedScale(m, p);
    }
  }

  lemma NegatedScale(m: real, p: real)
    requires p >= 1.0
    ensures -(m / p) == (-m) / p && -(m * p) == (-m) * p
  {
  }

  /** `0.25`, `1e3` and `-1.5E-1` denote a quarter, a thousand and minus three twentieths. */
  lemma ValueExamples()
    ensures Value(Numeral(false, "0", "25", NoExponent)) == 0.25
    ensures Value(Numeral(false, "1", "", Exponent('e', "", "3"))) == 1000.0
    ensures Value(Numeral(true, "1", "5", Exponent('E', "-", "1"))) == -0.15
  {
    assert "0" + "25" == "025" && "025"[..2] == "02" && "02"[..1] == "0" && "0"[..0] == "";
    assert DigitsValue("025") == 25;
    assert "1" + "" == "1" && "1"[..0] == "" && "3"[..0] == "";
    assert "1" + "5" == "15" && "15"[..1] == "1";
    assert DigitsValue("15") == 15;
  }

  function Values(ns: seq<Numeral>): (r: seq<real>)
    ensures |r| == |ns|
    ensures forall k | 0 <= k < |ns| :: r[k] == Value(ns[k])
  {
    seq(|ns|, k requires 0 <= k < |ns| => Value(ns[k]))
  }

  // ---------------------------------------------------------------------------
  // The scanner, over the text that remains to be scanned

  /** The longest run of digits at the start of `t` (greedy `\d*`). */
  function DigitPrefix(t: string): (d: string)
    ensures d <= t && AllDigits(d)
    ensures |d| == |t| || !IsDigit(t[|d|])
  {
    if t != [] && IsDigit(t[0]) then
      var d := [t[0]] + DigitPrefix(t[1..]);
      assert d[1..] == DigitPrefix(t[1..]);
      d
    else []
  }

  /** True when a match of the pattern can begin at the start of `t`. */
  predicate StartsNumeral(t: string)
  {
    |t| > 0 && (IsDigit(t[0]) || (t[0] == '-' && |t| > 1 && IsDigit(t[1])))
  }

  /** The greedy match of `(?:\.\d+)?` at the start of `t`: the digits after the point, or "". */
  function FractionPrefix(t: string): (f: string)
    ensures AllDigits(f) && RenderFraction(f) <= t
  {
    if |t| > 1 && t[0] == '.' && IsDigit(t[1]) then DigitPrefix(t[1..]) else ""
  }

  /** The greedy match of `(?:[eE][+-]?\d+)?` at the start of `t`. */
  function ExponentPrefix(t: string): (e: Exponent)
    ensures WellFormedExponent(e) && RenderExponent(e) <= t
  {
    if |t| > 1 && (t[0] == 'e' || t[0] == 'E') then
      if (t[1] == '+' || t[1] == '-') && |t| > 2 && IsDigit(t[2]) then
        var digits := DigitPrefix(t[2..]);
        assert [t[1]] + digits <= t[1..] by { PrefixThen([t[1]], digits, t[1..]); }
        PrefixThen([t[0]], [t[1]] + digits, t);
        Exponent(t[0], [t[1]], digits)
      else if IsDigit(t[1]) then
        var digits := DigitPrefix(t[1..]);
        PrefixThen([t[0]], "" + digits, t);
        Exponent(t[0], "", digits)
      else
        NoExponent
    else
      NoExponent
  }

  /** If `a` starts `t` and `b` starts what follows it, then `a + b` starts `t`. */
  lemma PrefixThen(a: string, b: string, t: string)
    requires a <= t && b <= t[|a|..]
    ensures a + b <= t
  {
    assert t == a + t[|a|..];
  }

  /**
   * The match of the pattern at the start of `t`, as Python's regular expression
   * engine finds it (the sign, the longest run of digits, then the fraction and
   * the exponent if present), or None. A `-` not followed by a digit starts no
   * match: backtracking over `-?` then needs a digit at the `-` itself.
   */
  function MatchPrefix(t: string): (r: Option<Numeral>)
    ensures r.None? <==> !StartsNumeral(t)
    ensures r.Some? ==> WellFormed(r.value) && Render(r.value) <= t
  {
    if !StartsNumeral(t) then None
    else
      var sign := RenderSign(t[0] == '-');
      var afterSign := t[|sign|..];
      var whole := DigitPrefix(afterSign);
      var afterWhole := afterSign[|whole|..];
      var fraction := FractionPrefix(afterWhole);
      var exponent := ExponentPrefix(afterWhole[|RenderFraction(fraction)|..]);
      var n := Numeral(t[0] == '-', whole, fraction, exponent);
      assert Render(n) <= t by {
        PrefixThen(RenderFraction(fraction), RenderExponent(exponent), afterWhole);
        PrefixThen(whole, RenderFraction(fraction) + RenderExponent(exponent), afterSign);
        PrefixThen(sign, whole + (RenderFraction(fraction) + RenderExponent(exponent)), t);
      }
      Some(n)
  }

  /** `re.findall(pattern, t)`: every match, leftmost first, none overlapping. */
  function FindAll(t: string): (r: seq<Numeral>)
    ensures |r| <= |t|
    ensures forall k | 0 <= k < |r| :: WellFormed(r[k])
  {
    if t == [] then []
    else
      match MatchPrefix(t)
      case None => FindAll(t[1..])
      case Some(n) => [n] + FindAll(t[|Render(n)|..])
  }

  // ---------------------------------------------------------------------------
  // Every numeral of the grammar is matched whole, and text that holds no digit
  // and no minus sign is skipped

  /** Text that cannot continue a numeral placed before it. */
  predicate Boundary(rest: string)
  {
    rest == [] || (!IsDigit(rest[0]) && rest[0] != '.' && rest[0] != 'e' && rest[0] != 'E')
  }

  lemma {:induction false} DigitPrefixExact(d: string, rest: string)
    requires AllDigits(d)
    requires rest == [] || !IsDigit(rest[0])
    ensures DigitPrefix(d + rest) == d
  {
    if d != [] {
      assert (d + rest)[1..] == d[1..] + rest;
      DigitPrefixExact(d[1..], rest);
    }
  }

  /** Taking one character off the front. */
  lemma Uncons(c: char, s: string)
    ensures ([c] + s)[0] == c && ([c] + s)[1..] == s
  {
  }

  /** The exponent matched after an `e` and a digit: the run of digits that follows the `e`. */
  lemma UnsignedExponentPrefix(t: string)
    requires |t| > 1 && (t[0] == 'e' || t[0] == 'E') && IsDigit(t[1])
    ensures ExponentPrefix(t) == Exponent(t[0], "", DigitPrefix(t[1..]))
  {
  }

  /** The exponent matched after an `e`, a sign and a digit: the run of digits that follows the sign. */
  lemma SignedExponentPrefix(t: string)
    requires |t| > 2 && (t[0] == 'e' || t[0] == 'E') && (t[1] == '+' || t[1] == '-') && IsDigit(t[2])
    ensures ExponentPrefix(t) == Exponent(t[0], [t[1]], DigitPrefix(t[2..]))
  {
  }

  lemma UnsignedExponentExact(marker: char, digits: string, rest: string)
    requires marker == 'e' || marker == 'E'
    requires |digits| > 0 && AllDigits(digits) && Boundary(rest)
    ensures ExponentPrefix([marker] + (digits + rest)) == Exponent(marker, "", digits)
  {
    var t := [marker] + (digits + rest);
    Uncons(marker, digits + rest);
    assert t[1] == digits[0];
    UnsignedExponentPrefix(t);
    DigitPrefixExact(digits, rest);
  }

  lemma SignedExponentExact(marker: char, sign: char, digits: string, rest: string)
    requires marker == 'e' || marker == 'E'
    requires sign == '+' || sign == '-'
    requires |digits| > 0 && AllDigits(digits) && Boundary(rest)
    ensures ExponentPrefix([marker] + ([sign] + (digits + rest))) == Exponent(marker, [sign], digits)
  {
    var u := [sign] + (digits + rest);
    var t := [marker] + u;
    Uncons(marker, u);
    Uncons(sign, digits + rest);
    assert t[1..][1..] == t[2..];
    assert t[2] == digits[0];
    SignedExponentPrefix(t);
    DigitPrefixExact(digits, rest);
  }

  lemma ExponentPrefixExact(e: Exponent, rest: string)
    requires WellFormedExponent(e) && Boundary(rest)
    ensures ExponentPrefix(RenderExponent(e) + rest) == e
  {
    match e
    case NoExponent =>
    case Exponent(marker, sign, digits) =>
      if sign == "" {
        assert RenderExponent(e) + rest == [marker] + (digits + rest);
        UnsignedExponentExact(marker, digits, rest);
      } else {
        assert RenderExponent(e) + rest == [marker] + ([sign[0]] + (digits + rest));
        SignedExponentExact(marker, sign[0], digits, rest);
      }
  }

  /** The fraction matched after a point and a digit: the run of digits that follows the point. */
  lemma FractionPrefixAfterPoint(t: string)
    requires |t| > 1 && t[0] == '.' && IsDigit(t[1])
    ensures FractionPrefix(t) == DigitPrefix(t[1..])
  {
  }

  lemma PointThen(fraction: string, after: string)
    requires fraction != ""
    ensures RenderFraction(fraction) + after == ['.'] + (fraction + after)
  {
  }

  lemma PointFractionExact(fraction: string, after: string)
    requires fraction != "" && AllDigits(fraction)
    requires after == [] || !IsDigit(after[0])
    ensures FractionPrefix(['.'] + (fraction + after)) == fraction
  {
    var t := ['.'] + (fraction + after);
    Uncons('.', fraction + after);
    assert t[1] == fraction[0];
    FractionPrefixAfterPoint(t);
    DigitPrefixExact(fraction, after);
  }

  lemma FractionPrefixExact(fraction: string, after: string)
    requires AllDigits(fraction)
    requires after == [] || (!IsDigit(after[0]) && after[0] != '.')
    ensures FractionPrefix(RenderFraction(fraction) + after) == fraction
  {
    if fraction != "" {
      PointThen(fraction, after);
      PointFractionExact(fraction, after);
    } else {
      assert RenderFraction(fraction) + after == after;
    }
  }

  lemma DropPrefix(a: string, b: string)
    ensures (a + b)[|a|..] == b
  {
  }

  /** After the sign and a maximal run of digits, the matcher goes on with what follows. */
  lemma MatchAfterWhole(minus: bool, whole: string, afterWhole: string)
    requires |whole| > 0 && AllDigits(whole)
    requires afterWhole == [] || !IsDigit(afterWhole[0])
    ensures
      var fraction := FractionPrefix(afterWhole);
      MatchPrefix(RenderSign(minus) + (whole + afterWhole))
        == Some(Numeral(minus, whole, fraction, ExponentPrefix(afterWhole[|RenderFraction(fraction)|..])))
  {
    var t := RenderSign(minus) + (whole + afterWhole);
    DropPrefix(RenderSign(minus), whole + afterWhole);
    DigitPrefixExact(whole, afterWhole);
    DropPrefix(whole, afterWhole);
    assert t[0] == '-' <==> minus;
  }

  /** The three parts of a match, each found on its own, make up the match. */
  lemma MatchFromParts(t: string, afterWhole: string, afterExponent: string, n: Numeral)
    requires MatchPrefix(t) == Some(Numeral(n.minus, n.whole, FractionPrefix(afterWhole),
      ExponentPrefix(afterWhole[|RenderFraction(FractionPrefix(afterWhole))|..])))
    requires FractionPrefix(afterWhole) == n.fraction
    requires afterWhole[|RenderFraction(n.fraction)|..] == afterExponent
    requires ExponentPrefix(afterExponent) == n.exponent
    ensures MatchPrefix(t) == Some(n)
  {
  }

  /** What follows an exponent (or its absence) in front of a boundary cannot extend a fraction. */
  lemma ExponentThenBoundary(e: Exponent, rest: string)
    requires WellFormedExponent(e) && Boundary(rest)
    ensures var after := RenderExponent(e) + rest;
      after == [] || (!IsDigit(after[0]) && after[0] != '.')
  {
    if e.Exponent? {
      assert (RenderExponent(e) + rest)[0] == e.marker;
    } else {
      assert RenderExponent(e) + rest == rest;
    }
  }

  lemma RenderThen(n: Numeral, rest: string)
    ensures Render(n) + rest
      == RenderSign(n.minus) + (n.whole + (RenderFraction(n.fraction) + (RenderExponent(n.exponent) + rest)))
  {
  }

  /** The matcher takes a rendered numeral whole: it is the match, and nothing more. */
  lemma MatchRendered(n: Numeral, rest: string)
    requires WellFormed(n) && Boundary(rest)
    ensures MatchPrefix(Render(n) + rest) == Some(n)
  {
    var afterExponent := RenderExponent(n.exponent) + rest;
    var afterWhole := RenderFraction(n.fraction) + afterExponent;
    RenderThen(n, rest);
    ExponentThenBoundary(n.exponent, rest);
    MatchAfterWhole(n.minus, n.whole, afterWhole);
    FractionPrefixExact(n.fraction, afterExponent);
    DropPrefix(RenderFraction(n.fraction), afterExponent);
    ExponentPrefixExact(n.exponent, rest);
    MatchFromParts(Render(n) + rest, afterWhole, afterExponent, n);
  }

  /** No match of the pattern starts anywhere in `g` when `t` follows it. */
  predicate NoMatchStart(g: string, t: string)
  {
    forall k | 0 <= k < |g| :: !StartsNumeral(g[k..] + t)
  }

  /**
   * Scanning is leftmost: text in which no match starts adds no match, and the
   * matches after it are those of the text that follows.
   */
  lemma {:induction false} SkipSeparator(g: string, t: string)
    requires NoMatchStart(g, t)
    ensures FindAll(g + t) == FindAll(t)
  {
    if g != [] {
      var s := g + t;
      assert g[0..] == g;
      assert s[1..] == g[1..] + t;
      assert NoMatchStart(g[1..], t) by {
        forall k | 0 <= k < |g| - 1 ensures !StartsNumeral(g[1..][k..] + t) {
          assert g[1..][k..] == g[k + 1..];
        }
      }
      SkipSeparator(g[1..], t);
    } else {
      assert g + t == t;
    }
  }

  /** A minus sign that no digit follows starts no match, so a match may start right after it. */
  lemma MinusBeforeNumeral()
    ensures FindAll("--1") == [Numeral(true, "1", "", NoExponent)]
  {
    var n := Numeral(true, "1", "", NoExponent);
    assert Render(n) + [] == "-1";
    MatchRendered(n, []);
    FindAllRendered(n, []);
    assert "--1" == "-" + "-1";
    SkipSeparator("-", "-1");
  }

  /** Text between numerals: no digit and no minus sign, so no match starts in it. */
  predicate Separator(g: string)
  {
    forall k | 0 <= k < |g| :: !IsDigit(g[k]) && g[k] != '-'
  }

  lemma SeparatorHasNoMatchStart(g: string, t: string)
    requires Separator(g)
    ensures NoMatchStart(g, t)
  {
    forall k | 0 <= k < |g| ensures !StartsNumeral(g[k..] + t) {
      assert (g[k..] + t)[0] == g[k];
    }
  }

  /** `gaps[0] + ns[0] + gaps[1] + ... + ns[|ns| - 1] + gaps[|ns|]`, each numeral rendered. */
  function Interleave(gaps: seq<string>, ns: seq<Numeral>): string
    requires |gaps| == |ns| + 1
  {
    if ns == [] then gaps[0] else gaps[0] + (Render(ns[0]) + Interleave(gaps[1..], ns[1..]))
  }

  lemma Reassociate(a: string, b: string, c: string)
    ensures (a + b) + c == a + (b + c)
  {
  }

  /** A character put in front of the first gap comes out in front of the whole layout. */
  lemma PrependGap(c: char, gaps: seq<string>, ns: seq<Numeral>, text: string)
    requires |gaps| == |ns| + 1 && Interleave(gaps, ns) == text
    ensures var g := [[c] + gaps[0]] + gaps[1..];
      |g| == |ns| + 1 && Interleave(g, ns) == [c] + text
  {
    var g := [[c] + gaps[0]] + gaps[1..];
    assert g[0] == [c] + gaps[0] && g[1..] == gaps[1..];
    if ns != [] {
      Reassociate([c], gaps[0], Render(ns[0]) + Interleave(gaps[1..], ns[1..]));
    }
  }

  /** A numeral in front of a layout, with an empty gap before it. */
  lemma PrependNumeral(n: Numeral, gaps: seq<string>, ns: seq<Numeral>, text: string)
    requires |gaps| == |ns| + 1 && Interleave(gaps, ns) == text
    ensures |[""] + gaps| == |[n] + ns| + 1 && Interleave([""] + gaps, [n] + ns) == Render(n) + text
  {
    var g := [""] + gaps;
    assert g[0] == "" && g[1..] == gaps;
    assert ([n] + ns)[0] == n && ([n] + ns)[1..] == ns;
  }

  /** The next match, when there is one, and what follows it. */
  lemma FindAllMatch(t: string, n: Numeral)
    requires MatchPrefix(t) == Some(n)
    ensures FindAll(t) == [n] + FindAll(t[|Render(n)|..])
    ensures Render(n) + t[|Render(n)|..] == t
  {
  }

  lemma FindAllNoMatch(t: string)
    requires t != [] && MatchPrefix(t).None?
    ensures FindAll(t) == FindAll(t[1..])
    ensures [t[0]] + t[1..] == t
  {
  }

  /**
   * The text around the matches. Every text is its matches laid out between
   * these pieces: the matches are pieces of the input, in order.
   */
  function Gaps(t: string): (gaps: seq<string>)
    ensures |gaps| == |FindAll(t)| + 1
    ensures Interleave(gaps, FindAll(t)) == t
    decreases |t|
  {
    if t == [] then [""]
    else
      match MatchPrefix(t)
      case None =>
        var g := Gaps(t[1..]);
        FindAllNoMatch(t);
        PrependGap(t[0], g, FindAll(t[1..]), t[1..]);
        [[t[0]] + g[0]] + g[1..]
      case Some(n) =>
        var rest := t[|Render(n)|..];
        var g := Gaps(rest);
        FindAllMatch(t, n);
        PrependNumeral(n, g, FindAll(rest), rest);
        [""] + g
  }

  /**
   * Separators that keep numerals apart: none holds a digit or a minus sign, the
   * ones between two numerals are not empty, and none after a numeral begins with
   * a character that would continue it.
   */
  predicate Layout(gaps: seq<string>, ns: seq<Numeral>)
  {
    && |gaps| == |ns| + 1
    && (forall k | 0 <= k < |ns| :: WellFormed(ns[k]))
    && (forall k | 0 <= k < |gaps| :: Separator(gaps[k]))
    && (forall k | 0 < k < |ns| :: gaps[k] != [])
    && (forall k | 0 < k < |gaps| :: Boundary(gaps[k]))
  }

  /** A numeral in front of a boundary is the next match, and scanning resumes after it. */
  lemma FindAllRendered(n: Numeral, tail: string)
    requires WellFormed(n) && Boundary(tail)
    ensures FindAll(Render(n) + tail) == [n] + FindAll(tail)
  {
    MatchRendered(n, tail);
    DropPrefix(Render(n), tail);
  }

  lemma LayoutTail(gaps: seq<string>, ns: seq<Numeral>)
    requires Layout(gaps, ns) && ns != []
    ensures Layout(gaps[1..], ns[1..])
  {
    forall k | 0 <= k < |ns| - 1 ensures WellFormed(ns[1..][k]) { assert ns[1..][k] == ns[k + 1]; }
    forall k | 0 <= k < |gaps| - 1 ensures Separator(gaps[1..][k]) { assert gaps[1..][k] == gaps[k + 1]; }
  }

  /** What follows the first numeral of a layout begins with a boundary. */
  lemma LayoutTailBoundary(gaps: seq<string>, ns: seq<Numeral>)
    requires Layout(gaps, ns) && ns != []
    ensures Boundary(Interleave(gaps[1..], ns[1..]))
  {
    var tail := Interleave(gaps[1..], ns[1..]);
    if |ns| > 1 {
      assert gaps[1] != [] && tail == gaps[1] + (Render(ns[1]) + Interleave(gaps[2..], ns[2..]));
      assert tail[0] == gaps[1][0];
    } else {
      assert tail == gaps[1];
    }
  }

  /** Scanning text laid out from numerals and separators gives back exactly those numerals. */
  lemma {:induction false} FindAllInterleave(gaps: seq<string>, ns: seq<Numeral>)
    requires Layout(gaps, ns)
    ensures FindAll(Interleave(gaps, ns)) == ns
  {
    if ns == [] {
      SeparatorHasNoMatchStart(gaps[0], []);
      SkipSeparator(gaps[0], []);
      assert gaps[0] + [] == gaps[0];
    } else {
      var tail := Interleave(gaps[1..], ns[1..]);
      SeparatorHasNoMatchStart(gaps[0], Render(ns[0]) + tail);
      SkipSeparator(gaps[0], Render(ns[0]) + tail);
      LayoutTailBoundary(gaps, ns);
      FindAllRendered(ns[0], tail);
      LayoutTail(gaps, ns);
      FindAllInterleave(gaps[1..], ns[1..]);
    }
  }

  /**
   * `pose_from_str`: a pose exactly when the text holds six numerals, taken
   * positionally as x, y, z, roll, pitch, yaw; otherwise None (the ValueError path).
   */
  function PoseFromStr(text: string): (r: Option<Pose>)
    ensures r.Some? <==> |FindAll(text)| == 6
    ensures r.Some? ==> ToList(r.value) == Values(FindAll(text))
  {
    var found := FindAll(text);
    if |found| != 6 then None
    else
      assert Values(found)[..6] == Values(found);
      PoseFromList(Values(found))
  }

  /** The pose made of the values of six numerals, in order. */
  function PoseOf(ns: seq<Numeral>): Pose
    requires |ns| == 6
  {
    Pose(Value(ns[0]), Value(ns[1]), Value(ns[2]), Value(ns[3]), Value(ns[4]), Value(ns[5]))
  }

  /**
   * Text laid out from numerals parses to a pose exactly when there are six of
   * them, and then to their values in order.
   */
  lemma PoseFromStrLayout(gaps: seq<string>, ns: seq<Numeral>)
    requires Layout(gaps, ns)
    ensures PoseFromStr(Interleave(gaps, ns)).Some? <==> |ns| == 6
    ensures |ns| == 6 ==> PoseFromStr(Interleave(gaps, ns)) == Some(PoseOf(ns))
  {
    FindAllInterleave(gaps, ns);
  }

  /** The separators of `PoseObject(x=.., y=.., z=.., roll=.., pitch=.., yaw=..)`. */
  const PoseObjectGaps: seq<string> :=
    ["PoseObject(x=", ", y=", ", z=", ", roll=", ", pitch=", ", yaw=", ")"]

  /** The separators of `[.., .., .., .., .., ..]`. */
  const ListGaps: seq<string> := ["[", ", ", ", ", ", ", ", ", ", ", "]"]

  lemma GapsLayout(gaps: seq<string>, ns: seq<Numeral>)
    requires |gaps| == 7 && |ns| == 6
    requires forall k | 0 <= k < 6 :: WellFormed(ns[k])
    requires forall k | 0 <= k < 7 :: Separator(gaps[k])
    requires forall k | 0 < k < 7 :: gaps[k] != [] && gaps[k][0] in ",)]"
    ensures Layout(gaps, ns)
  {
  }

  /** A pose printed as a `PoseObject` reads back as the pose its numerals denote. */
  lemma PoseObjectTextParses(ns: seq<Numeral>)
    requires |ns| == 6 && forall k | 0 <= k < 6 :: WellFormed(ns[k])
    ensures PoseFromStr(Interleave(PoseObjectGaps, ns)) == Some(PoseOf(ns))
  {
    GapsLayout(PoseObjectGaps, ns);
    PoseFromStrLayout(PoseObjectGaps, ns);
  }

  /** A pose written as a list of six numbers reads back as the pose they denote. */
  lemma ListTextParses(ns: seq<Numeral>)
    requires |ns| == 6 && forall k | 0 <= k < 6 :: WellFormed(ns[k])
    ensures PoseFromStr(Interleave(ListGaps, ns)) == Some(PoseOf(ns))
  {
    GapsLayout(ListGaps, ns);
    PoseFromStrLayout(ListGaps, ns);
  }

  /** `pose_to_str` of a missing pose is `'None'`, which holds no numeral and so parses to no pose. */
  lemma NoneTextRejected()
    ensures FindAll("None") == []
    ensures PoseFromStr("None") == None
  {
  }
}
