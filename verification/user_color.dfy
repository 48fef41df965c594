/**
 * The author colour of a message item: a string hash of the author's
 * client id reduced to a hue, formatted as a CSS `hsl(...)` colour with
 * constant saturation and lightness.
 */
module UserColor {
  import opened JsValues
  import opened Decimal

  /**
   * One iteration of the hash loop: the current character code plus
   * `(hash << 5) - hash`. Only the shift converts to 32 bits; the
   * subtraction and the addition are carried out on JavaScript numbers,
   * which are exact on the integers reached here (see HashIsSafe).
   */
  function HashStep(hash: int, c: CodeUnit): int
  {
    c + (ShiftLeft5(hash) - hash)
  }

  /** The accumulated hash of a string, folding HashStep from the left, starting at 0. */
  function Hash(s: JsString): int
  {
    if |s| == 0 then 0 else HashStep(Hash(s[..|s| - 1]), s[|s| - 1])
  }

  /** The hue the source derives: the hash's truncating remainder by 360. */
  function Hue(s: JsString): int
  {
    JsRem(Hash(s), 360)
  }

  /**
   * Reference for the hash's low 32 bits: the polynomial
   * c0 * 31^(n-1) + ... + c(n-1) over the character codes.
   */
  function Polynomial31(s: JsString): int
  {
    if |s| == 0 then 0 else 31 * Polynomial31(s[..|s| - 1]) + s[|s| - 1]
  }

  /** Inputs shorter than this keep every intermediate value a safe integer. */
  const MaxExactLength: nat := 0x20_0000

  /** How far one HashStep can move the hash: a 32-bit shift result plus a code unit. */
  const StepGrowth: int := TwoTo31 + 0x1_0000

  /** One step moves the hash by less than StepGrowth beyond its negation. */
  lemma HashStepBound(hash: int, c: CodeUnit)
    ensures -StepGrowth - hash <= HashStep(hash, c) <= StepGrowth - hash
  {
  }

  /** The hash grows at most linearly in the length of the string. */
  lemma {:induction false} HashBound(s: JsString)
    ensures -|s| * StepGrowth <= Hash(s) <= |s| * StepGrowth
  {
    if |s| > 0 {
      var p := s[..|s| - 1];
      HashBound(p);
      HashStepBound(Hash(p), s[|s| - 1]);
    }
  }

  /**
   * Below MaxExactLength code units the hash, and the difference
   * `(hash << 5) - hash` computed from it, are safe integers, so the
   * double arithmetic of the source agrees with the exact integers here.
   */
  lemma HashIsSafe(s: JsString)
    requires |s| < MaxExactLength
    ensures IsSafeInteger(Hash(s))
    ensures IsSafeInteger(ShiftLeft5(Hash(s)) - Hash(s))
  {
    HashBound(s);
  }

  /** The low 32 bits of the hash are those of the 31-polynomial. */
  lemma {:induction false} HashCongruentPolynomial31(s: JsString)
    ensures Congruent32(Hash(s), Polynomial31(s))
  {
    if |s| > 0 {
      var p := s[..|s| - 1];
      var c := s[|s| - 1];
      var h := Hash(p);
      HashCongruentPolynomial31(p);
      ShiftLeft5Congruent(h);
      ShiftCongruent(ShiftLeft5(h), 32 * h, c - h);
      assert Congruent32(Hash(s), 31 * h + c);
      ScaleCongruent(h, Polynomial31(p), 31);
      ShiftCongruent(h * 31, Polynomial31(p) * 31, c);
      TransCongruent(Hash(s), 31 * h + c, Polynomial31(s));
    }
  }

  /** The code units of "abcdefgh". */
  const ExampleInput: JsString := [97, 98, 99, 100, 101, 102, 103, 104]

  /** The hash of each prefix of ExampleInput, from the empty one to the whole string. */
  const ExampleTrace: seq<int> :=
    [0, 97, 3105, 96354, 2987074, 92599395, -1424385949, 3088675940, -3035293564]

  /**
   * The accumulator is not itself a 32-bit value: for "abcdefgh" the
   * unwrapped subtraction carries it below -2^31, and its hue (-4)
   * differs from the hue of its 32-bit projection (252).
   */
  lemma HashLeavesInt32Example()
    ensures Hash(ExampleInput) == -3035293564 && !IsInt32(Hash(ExampleInput))
    ensures Hue(ExampleInput) == -4
    ensures JsRem(ToInt32(Hash(ExampleInput)), 360) == 252
  {
    var s := ExampleInput;
    for k := 0 to 8
      invariant Hash(s[..k]) == ExampleTrace[k]
    {
      assert s[..k + 1] == s[..k] + [s[k]];
      HashSnoc(s[..k], s[k]);
      HashStepTable(k);
    }
    assert s[..8] == s;
  }

  /** The individual steps of HashLeavesInt32Example. */
  lemma HashStepTable(k: nat)
    requires k < 8
    ensures HashStep(ExampleTrace[k], ExampleInput[k]) == ExampleTrace[k + 1]
  {
  }

  /** Appending one code unit performs one more HashStep. */
  lemma HashSnoc(p: JsString, c: CodeUnit)
    ensures Hash(p + [c]) == HashStep(Hash(p), c)
  {
    assert (p + [c])[..|p|] == p;
  }

  /**
   * `stringToHue`: the loop of the source, left to right over the code
   * units, then the remainder by 360.
   */
  method StringToHue(str: JsString) returns (hue: int)
    requires |str| < MaxExactLength
    ensures hue == JsRem(Hash(str), 360)
    ensures -360 < hue < 360
    ensures hue == 0 || (hue < 0 <==> Hash(str) < 0)
    ensures |str| == 0 ==> hue == 0
  {
    var hash := 0;
    var i := 0;
    while i < |str|
      invariant 0 <= i <= |str|
      invariant hash == Hash(str[..i])
      invariant IsSafeInteger(hash)
    {
      assert str[..i + 1][..i] == str[..i];
      HashIsSafe(str[..i + 1]);
      hash := str[i] + ((ShiftLeft5(hash)) - hash);
      i := i + 1;
    }
    assert str[..i] == str;
    hue := JsRem(hash, 360);
  }

  /** A CSS colour in the hue-saturation-lightness notation. */
  datatype Hsl = Hsl(hue: int, saturation: int, lightness: int)

  /** `hsl(${hue}, ${saturation}%, ${lightness}%)`. */
  function FormatHsl(c: Hsl): JsString
  {
    HslOpen + IntToDecimal(c.hue) + HueSeparator + IntToDecimal(c.saturation)
      + SaturationSeparator + IntToDecimal(c.lightness) + HslClose
  }

  /** A character that may occur in a decimal integer. */
  predicate IsNumberUnit(c: CodeUnit)
  {
    c == MinusSign || IsDigit(c)
  }

  /** Length of the longest prefix made of number characters. */
  function NumberSpan(s: JsString): (n: nat)
    ensures n <= |s|
  {
    if |s| > 0 && IsNumberUnit(s[0]) then 1 + NumberSpan(s[1..]) else 0
  }

  const HslOpen: JsString := Lit("hsl(")
  const HueSeparator: JsString := Lit(", ")
  const SaturationSeparator: JsString := Lit("%, ")
  const HslClose: JsString := Lit("%)")

  /** What follows a literal prefix, if the text starts with it. */
  function DropPrefix(s: JsString, prefix: JsString): (r: Option<JsString>)
    ensures r.Some? ==> s == prefix + r.value
  {
    if |prefix| <= |s| && s[..|prefix|] == prefix then Some(s[|prefix|..]) else None
  }

  /** Reads the longest run of number characters as an integer and returns what follows. */
  function ReadNumber(s: JsString): (Option<int>, JsString)
  {
    var n := NumberSpan(s);
    (ParseInt(s[..n]), s[n..])
  }

  /** Reads back a colour written by FormatHsl; any other text gives None. */
  function ParseHsl(s: JsString): Option<Hsl>
  {
    match DropPrefix(s, HslOpen)
    case None => None
    case Some(r0) =>
      var (h, r1) := ReadNumber(r0);
      match DropPrefix(r1, HueSeparator)
      case None => None
      case Some(r2) =>
        var (sat, r3) := ReadNumber(r2);
        match DropPrefix(r3, SaturationSeparator)
        case None => None
        case Some(r4) =>
          var (l, r5) := ReadNumber(r4);
          if r5 != HslClose then None
          else
            match (h, sat, l)
            case (Some(hv), Some(sv), Some(lv)) => Some(Hsl(hv, sv, lv))
            case _ => None
  }

  /** The rendering of an integer is consumed exactly by NumberSpan when a non-number character follows. */
  lemma {:induction false} NumberSpanOfPrefix(t: JsString, rest: JsString)
    requires forall i | 0 <= i < |t| :: IsNumberUnit(t[i])
    requires |rest| > 0 && !IsNumberUnit(rest[0])
    ensures NumberSpan(t + rest) == |t|
  {
    if |t| > 0 {
      assert (t + rest)[1..] == t[1..] + rest;
      NumberSpanOfPrefix(t[1..], rest);
    } else {
      assert t + rest == rest;
    }
  }

  /** Reading an integer's rendering stops at the first non-number character after it. */
  lemma ReadNumberOf(n: int, rest: JsString)
    requires |rest| > 0 && !IsNumberUnit(rest[0])
    ensures ReadNumber(IntToDecimal(n) + rest) == (Some(n), rest)
  {
    var t := IntToDecimal(n);
    NumberSpanOfPrefix(t, rest);
    assert (t + rest)[..|t|] == t;
    assert (t + rest)[|t|..] == rest;
    IntRoundTrip(n);
  }

  /** A literal prefix is dropped exactly. */
  lemma DropPrefixOf(prefix: JsString, rest: JsString)
    ensures DropPrefix(prefix + rest, prefix) == Some(rest)
  {
    assert (prefix + rest)[..|prefix|] == prefix;
    assert (prefix + rest)[|prefix|..] == rest;
  }

  /** Parsing a formatted colour gives the colour back. */
  lemma FormatHslRoundTrip(c: Hsl)
    ensures ParseHsl(FormatHsl(c)) == Some(c)
  {
    var h, sat, l := IntToDecimal(c.hue), IntToDecimal(c.saturation), IntToDecimal(c.lightness);
    var tail2 := SaturationSeparator + (l + HslClose);
    var tail1 := HueSeparator + (sat + tail2);
    assert FormatHsl(c) == HslOpen + (h + tail1);
    DropPrefixOf(HslOpen, h + tail1);
    ReadNumberOf(c.hue, tail1);
    DropPrefixOf(HueSeparator, sat + tail2);
    ReadNumberOf(c.saturation, tail2);
    DropPrefixOf(SaturationSeparator, l + HslClose);
    ReadNumberOf(c.lightness, HslClose);
  }

  /** Two colours render to the same string exactly when they are the same colour. */
  lemma FormatHslInjective(a: Hsl, b: Hsl)
    ensures FormatHsl(a) == FormatHsl(b) <==> a == b
  {
    FormatHslRoundTrip(a);
    FormatHslRoundTrip(b);
  }

  /**
   * `getUserColor`: the hue of the author's id with saturation 90% and
   * lightness 50%.
   */
  method GetUserColor(username: JsString) returns (color: JsString)
    requires |username| < MaxExactLength
    ensures color == HslOpen + IntToDecimal(Hue(username)) + Lit(", 90%, 50%)")
    ensures ParseHsl(color) == Some(Hsl(Hue(username), 90, 50))
  {
    var hue := StringToHue(username);
    var saturation := 90;
    var lightness := 50;
    color := FormatHsl(Hsl(hue, saturation, lightness));
    FormatHslRoundTrip(Hsl(hue, saturation, lightness));
    UserColorShape(hue);
  }

  /** With the constant saturation and lightness, the colour is one literal around the hue. */
  lemma UserColorShape(hue: int)
    ensures FormatHsl(Hsl(hue, 90, 50)) == HslOpen + IntToDecimal(hue) + Lit(", 90%, 50%)")
  {
    assert IntToDecimal(90) == [57, 48];
    assert IntToDecimal(50) == [53, 48];
    assert HueSeparator + [57, 48] + SaturationSeparator + [53, 48] + HslClose == Lit(", 90%, 50%)");
  }
}
