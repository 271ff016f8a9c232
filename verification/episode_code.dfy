/** The `SxxEyy` label of an episode: `formatEpisodeCode` in script.js, built from
    `String(n)` and `padStart(2, "0")`, together with its inverse. */
module EpisodeCode {
  import opened Basics

  predicate IsDigit(c: char) {
    '0' <= c <= '9'
  }

  predicate AllDigits(s: string) {
    forall i | 0 <= i < |s| :: IsDigit(s[i])
  }

  function DigitChar(d: nat): (c: char)
    requires d < 10
    ensures IsDigit(c)
  {
    ('0' as int + d) as char
  }

  function DigitValue(c: char): (d: nat)
    requires IsDigit(c)
    ensures d < 10 && DigitChar(d) == c
  {
    c as int - '0' as int
  }

  /** The value of a string of decimal digits, leading zeros allowed. */
  function ValueOf(ds: string): nat
    requires AllDigits(ds)
  {
    if |ds| == 0 then 0 else 10 * ValueOf(ds[..|ds| - 1]) + DigitValue(ds[|ds| - 1])
  }

  /** `String(n)` for a non-negative integer: its shortest decimal numeral. */
  function Decimal(n: nat): (r: string)
    ensures 1 <= |r|
    ensures AllDigits(r)
    ensures r[0] == '0' ==> r == "0"
  {
    if n < 10 then [DigitChar(n)] else Decimal(n / 10) + [DigitChar(n % 10)]
  }

  /** Reading the numeral back gives the number. */
  lemma {:induction false} ValueOfDecimal(n: nat)
    ensures ValueOf(Decimal(n)) == n
  {
    if n >= 10 {
      ValueOfDecimal(n / 10);
      var r := Decimal(n);
      assert r[..|r| - 1] == Decimal(n / 10);
    }
  }

  /** `String(x)` for any integer: a minus sign before the numeral of a negative one. */
  function IntToString(x: int): (r: string)
    ensures 1 <= |r|
    ensures x >= 0 <==> AllDigits(r)
    ensures x >= 0 ==> ValueOf(r) == x
    ensures x < 0 ==> r[0] == '-' && AllDigits(r[1..]) && ValueOf(r[1..]) == -x
    ensures x >= 0 ==> r == "0" || r[0] != '0'
    ensures x < 0 ==> |r| >= 2 && r[1] != '0'
  {
    if x < 0 then
      var r := "-" + Decimal(-x);
      assert !IsDigit(r[0]);
      assert r[1..] == Decimal(-x);
      ValueOfDecimal(-x);
      r
    else
      ValueOfDecimal(x);
      Decimal(x)
  }

  function Repeat(c: char, k: nat): (r: string)
    ensures |r| == k
    ensures forall i | 0 <= i < k :: r[i] == c
  {
    if k == 0 then [] else [c] + Repeat(c, k - 1)
  }

  /** `s.padStart(width, fill)`: fill on the left up to `width`; never shortens `s`. */
  function PadStart(s: string, width: nat, fill: char): (r: string)
    ensures |r| == if |s| >= width then |s| else width
    ensures r[|r| - |s|..] == s
    ensures forall i | 0 <= i < |r| - |s| :: r[i] == fill
  {
    if |s| >= width then s else Repeat(fill, width - |s|) + s
  }

  /** Leading zeros do not change the value of a numeral. */
  lemma {:induction false} ValueOfLeadingZeros(k: nat, ds: string)
    requires AllDigits(ds)
    ensures AllDigits(Repeat('0', k) + ds)
    ensures ValueOf(Repeat('0', k) + ds) == ValueOf(ds)
  {
    var z := Repeat('0', k);
    if |ds| == 0 {
      assert z + ds == z;
      ValueOfZeros(k);
    } else {
      ValueOfLeadingZeros(k, ds[..|ds| - 1]);
      assert (z + ds)[..|z + ds| - 1] == z + ds[..|ds| - 1];
    }
  }

  lemma {:induction false} ValueOfZeros(k: nat)
    ensures ValueOf(Repeat('0', k)) == 0
  {
    if k > 0 {
      var z := Repeat('0', k);
      assert z[..k - 1] == Repeat('0', k - 1);
      ValueOfZeros(k - 1);
    }
  }

  /** `formatEpisodeCode(season, number)`. For a non-negative season and number the label splits into `S`, the season's digits,
      `E` and the number's digits; each part has the value it labels and is exactly
      `PartWidth` wide. A digit string of given value and width is unique, so this fixes
      the label. */
  function FormatEpisodeCode(season: int, number: int): (code: string)
    ensures |code| >= 6 && code[0] == 'S'
    ensures season >= 0 && number >= 0 ==> SplitsAs(code, season, number)
  {
    var a := PadStart(IntToString(season), 2, '0');
    var b := PadStart(IntToString(number), 2, '0');
    var code := "S" + a + "E" + b;
    if season >= 0 && number >= 0 then
      LabelSplits(season, number);
      code
    else code
  }

  lemma LabelSplits(season: nat, number: nat)
    ensures SplitsAs("S" + PadStart(IntToString(season), 2, '0') + "E" + PadStart(IntToString(number), 2, '0'), season, number)
  {
    LabelParts(season, number);
  }

  lemma LabelSlices(a: string, b: string)
    ensures var code := "S" + a + "E" + b;
      && |code| == 2 + |a| + |b|
      && code[1 + |a|] == 'E'
      && code[1..1 + |a|] == a
      && code[2 + |a|..] == b
  {
  }

  /** The parts of the label of a non-negative season and number. */
  lemma LabelParts(season: nat, number: nat)
    ensures
      var a := PadStart(IntToString(season), 2, '0');
      var b := PadStart(IntToString(number), 2, '0');
      && |a| == PartWidth(season) && AllDigits(a) && ValueOf(a) == season
      && |b| == PartWidth(number) && AllDigits(b) && ValueOf(b) == number
      && var code := "S" + a + "E" + b;
      && |code| == 2 + |a| + |b|
      && code[1 + |a|] == 'E'
      && code[1..1 + |a|] == a
      && code[2 + |a|..] == b
  {
    PaddedValue(season);
    PaddedValue(number);
    PaddedWidth(season);
    PaddedWidth(number);
    LabelSlices(PadStart(IntToString(season), 2, '0'), PadStart(IntToString(number), 2, '0'));
  }

  /** `code` is `S`, then `PartWidth(season)` digits reading `season`, then `E`, then
      `PartWidth(number)` digits reading `number`. */
  predicate SplitsAs(code: string, season: nat, number: nat) {
    var w := PartWidth(season);
    && |code| == 2 + w + PartWidth(number)
    && code[0] == 'S'
    && code[1 + w] == 'E'
    && AllDigits(code[1..1 + w]) && ValueOf(code[1..1 + w]) == season
    && AllDigits(code[2 + w..]) && ValueOf(code[2 + w..]) == number
  }

  /** Width of one part of a label: two digits below 10, the full numeral from 10 up. */
  function PartWidth(n: nat): nat {
    if n < 10 then 2 else |Decimal(n)|
  }

  /** Position of the first `c` in `s`. */
  function IndexOf(s: string, c: char): (r: Option<nat>)
    ensures r.Some? ==> r.value < |s| && s[r.value] == c && forall k | 0 <= k < r.value :: s[k] != c
    ensures r.None? ==> forall k | 0 <= k < |s| :: s[k] != c
  {
    if |s| == 0 then None
    else if s[0] == c then Some(0)
    else match IndexOf(s[1..], c)
      case None => None
      case Some(i) => Some(i + 1)
  }

  /** Reads a label of the form `S<digits>E<digits>` back into (season, number). */
  function ParseEpisodeCode(code: string): Option<(nat, nat)> {
    if |code| == 0 || code[0] != 'S' then None
    else
      var rest := code[1..];
      match IndexOf(rest, 'E')
      case None => None
      case Some(e) =>
        var season := rest[..e];
        var number := rest[e + 1..];
        if |season| == 0 || |number| == 0 || !AllDigits(season) || !AllDigits(number) then None
        else Some((ValueOf(season), ValueOf(number)))
  }

  /** Padding a numeral keeps its value. */
  lemma PaddedValue(n: nat)
    ensures AllDigits(PadStart(Decimal(n), 2, '0'))
    ensures ValueOf(PadStart(Decimal(n), 2, '0')) == n
  {
    var d := Decimal(n);
    ValueOfDecimal(n);
    if |d| < 2 {
      ValueOfLeadingZeros(2 - |d|, d);
    }
  }

  /** Any two non-empty numerals around the `E` separator are read back as written. */
  lemma ParseDigits(a: string, b: string)
    requires 0 < |a| && AllDigits(a)
    requires 0 < |b| && AllDigits(b)
    ensures ParseEpisodeCode("S" + a + "E" + b) == Some((ValueOf(a), ValueOf(b)))
  {
    var rest := ("S" + a + "E" + b)[1..];
    assert rest == a + "E" + b;
    assert forall k | 0 <= k < |a| :: rest[k] == a[k];
    assert rest[|a|] == 'E';
    assert IndexOf(rest, 'E') == Some(|a|);
    assert rest[..|a|] == a;
    assert rest[|a| + 1..] == b;
  }

  /** The label of a non-negative season and number can be read back: no digit is
      lost to truncation and the `E` separator is never ambiguous. */
  lemma FormatThenParse(season: nat, number: nat)
    ensures ParseEpisodeCode(FormatEpisodeCode(season, number)) == Some((season, number))
  {
    PaddedValue(season);
    PaddedValue(number);
    ParseDigits(PadStart(Decimal(season), 2, '0'), PadStart(Decimal(number), 2, '0'));
  }

  /** Padding to two digits gives exactly `PartWidth` digits: zeros are added only below 10. */
  lemma PaddedWidth(n: nat)
    ensures |PadStart(Decimal(n), 2, '0')| == PartWidth(n)
  {
    if n >= 10 {
      assert Decimal(n) == Decimal(n / 10) + [DigitChar(n % 10)];
    }
  }

  /** A number has one last decimal digit and one quotient by ten. */
  lemma DecimalStep(p: nat, d: nat, q: nat, e: nat)
    requires d < 10 && e < 10 && 10 * p + d == 10 * q + e
    ensures p == q && d == e
  {
  }

  /** Two digit strings of the same width and value are the same string. */
  lemma {:induction false} DigitsUnique(a: string, b: string)
    requires AllDigits(a) && AllDigits(b) && |a| == |b| && ValueOf(a) == ValueOf(b)
    ensures a == b
  {
    if |a| > 0 {
      var n := |a| - 1;
      var da, db := DigitValue(a[n]), DigitValue(b[n]);
      var pa, pb := ValueOf(a[..n]), ValueOf(b[..n]);
      DecimalStep(pa, da, pb, db);
      DigitsUnique(a[..n], b[..n]);
      assert a == a[..n] + [a[n]] && b == b[..n] + [b[n]];
    }
  }

  /** The split fixes the label: no other string splits as the same season and number,
      so `FormatEpisodeCode` is the only label for them. */
  lemma SplitsAsUnique(c1: string, c2: string, season: nat, number: nat)
    requires SplitsAs(c1, season, number) && SplitsAs(c2, season, number)
    ensures c1 == c2
  {
    var w := PartWidth(season);
    DigitsUnique(c1[1..1 + w], c2[1..1 + w]);
    DigitsUnique(c1[2 + w..], c2[2 + w..]);
    assert c1 == [c1[0]] + c1[1..1 + w] + [c1[1 + w]] + c1[2 + w..];
    assert c2 == [c2[0]] + c2[1..1 + w] + [c2[1 + w]] + c2[2 + w..];
  }

  lemma FormatExampleS02E07()
    ensures FormatEpisodeCode(2, 7) == "S02E07"
  {
    assert IntToString(2) == "2" && IntToString(7) == "7";
  }

  lemma FormatExampleS10E00()
    ensures FormatEpisodeCode(10, 0) == "S10E00"
  {
    assert Decimal(10) == "10";
    assert IntToString(0) == "0";
  }

  /** Values past two digits are not truncated. */
  lemma FormatExampleS01E100()
    ensures FormatEpisodeCode(1, 100) == "S01E100"
  {
    assert Decimal(10) == "10";
    assert Decimal(100) == "100";
    assert IntToString(1) == "1";
  }
}
