/**
The callout gradient of errors/formatter.go: a ratio for each line, three interpolated colour channels,
and colours as "#RRGGBB" text. Ratios are exact, and math.Round rounds halves away from zero.
 */
module Gradient {
  import opened Options

  const MIN_STEPS := 3

  // ---------------------------------------------------------------- ratios and channels

  function Steps(total: int): int {
    if total - 1 < MIN_STEPS then MIN_STEPS else total - 1
  }

  function GradientRatio(index: int, total: int): real {
    if total <= 1 then 0.0 else index as real / Steps(total) as real
  }

  function Round(x: real): int {
    if x >= 0.0 then (x + 0.5).Floor else -((0.5 - x).Floor)
  }

  function InterpolateColorChannel(start: int, end: int, ratio: real): int {
    start + Gone(end - start, ratio)
  }

  predicate Between(x: int, a: int, b: int) {
    a <= x <= b || b <= x <= a
  }

  lemma RoundMonotone(x: real, y: real)
    requires x <= y
    ensures Round(x) <= Round(y)
  {
  }

  lemma RoundInt(n: int)
    ensures Round(n as real) == n
  {
    if n >= 0 {
      assert (n as real + 0.5).Floor == n;
    } else {
      assert (0.5 - n as real).Floor == -n;
    }
  }

  lemma ScaleMonotone(d: real, a: real, b: real)
    requires a <= b
    ensures d >= 0.0 ==> d * a <= d * b
    ensures d <= 0.0 ==> d * a >= d * b
  {
    if d >= 0.0 {
      assert d * (b - a) >= 0.0;
    } else {
      assert d * (b - a) <= 0.0;
    }
    assert d * (b - a) == d * b - d * a;
  }

  /** The distance gone of n at a ratio. */
  function Gone(n: int, ratio: real): int {
    Round(n as real * ratio)
  }

  lemma {:induction false} GoneMonotone(n: int, a: real, b: real)
    requires a <= b
    ensures n >= 0 ==> Gone(n, a) <= Gone(n, b)
    ensures n <= 0 ==> Gone(n, a) >= Gone(n, b)
  {
    var d := n as real;
    assert Gone(n, a) == Round(d * a) && Gone(n, b) == Round(d * b);
    hide Round;
    assert (n >= 0 ==> d >= 0.0) && (n <= 0 ==> d <= 0.0);
    RoundScaled(d, a, b);
  }

  lemma RoundScaled(d: real, a: real, b: real)
    requires a <= b
    ensures d >= 0.0 ==> Round(d * a) <= Round(d * b)
    ensures d <= 0.0 ==> Round(d * a) >= Round(d * b)
  {
    hide Round;
    ScaleMonotone(d, a, b);
    var x, y := d * a, d * b;
    if x <= y {
      RoundMonotone(x, y);
    }
    if y <= x {
      RoundMonotone(y, x);
    }
  }

  lemma GoneEnds(n: int)
    ensures Gone(n, 0.0) == 0 && Gone(n, 1.0) == n
  {
    assert n as real * 0.0 == 0.0 && n as real * 1.0 == n as real;
    RoundInt(n);
    RoundInt(0);
  }

  /** Every line's ratio is in [0, 1], grows from line to line, and by at most a third. */
  lemma {:induction false} RatioBounded(index: nat, total: int)
    requires index < total
    ensures 0.0 <= GradientRatio(index, total) <= 1.0
    ensures index + 1 < total ==>
      var step := GradientRatio(index + 1, total) - GradientRatio(index, total);
      0.0 < step <= 1.0 / 3.0
  {
    var s := Steps(total) as real;
    assert s >= 3.0 && index as real <= s;
    DivideBounded(index as real, s);
    if total > 1 {
      DivideStep(index as real, s);
    }
  }

  /** The steps are all alike: n lines make the whole way in n - 1 of them, but in three at least. */
  lemma RatioSteps(index: nat, total: int)
    requires index < total
    ensures total <= 1 ==> GradientRatio(index, total) == 0.0
    ensures 1 < total <= 4 ==> GradientRatio(index, total) * 3.0 == index as real
    ensures total >= 4 ==> GradientRatio(index, total) * (total - 1) as real == index as real
    ensures total >= 4 && index == total - 1 ==> GradientRatio(index, total) == 1.0
  {
    if total > 1 {
      QuotientTimes(index as real, Steps(total) as real);
    }
  }

  lemma QuotientTimes(x: real, y: real)
    requires y > 0.0
    ensures x / y * y == x && y / y == 1.0
  {
  }

  /** math.Round: the nearest whole number, halves away from zero. */
  lemma RoundIsNearest(x: real)
    ensures -0.5 <= Round(x) as real - x <= 0.5
    ensures Round(x) as real - x == 0.5 ==> x > 0.0
    ensures Round(x) as real - x == -0.5 ==> x < 0.0
  {
  }

  lemma DivideBounded(i: real, s: real)
    requires 0.0 <= i <= s && s >= 3.0
    ensures 0.0 <= i / s <= 1.0
  {
  }

  lemma DivideStep(i: real, s: real)
    requires s >= 3.0
    ensures (i + 1.0) / s - i / s == 1.0 / s
    ensures 0.0 < 1.0 / s <= 1.0 / 3.0
  {
  }

  lemma {:induction false} RatioMonotone(i: nat, j: nat, total: int)
    requires i <= j < total
    ensures GradientRatio(i, total) <= GradientRatio(j, total)
  {
    var s := Steps(total) as real;
    assert (j as real - i as real) / s >= 0.0;
    assert (j as real - i as real) / s == j as real / s - i as real / s;
  }

  /** A channel starts and ends at its endpoints, stays between them, and moves only towards the end. */
  lemma {:induction false} ChannelMonotone(start: int, end: int, a: real, b: real)
    requires 0.0 <= a <= b <= 1.0
    ensures InterpolateColorChannel(start, end, 0.0) == start && InterpolateColorChannel(start, end, 1.0) == end
    ensures Between(InterpolateColorChannel(start, end, a), start, InterpolateColorChannel(start, end, b))
    ensures Between(InterpolateColorChannel(start, end, b), InterpolateColorChannel(start, end, a), end)
  {
    hide Gone;
    GoneEnds(end - start);
    GoneMonotone(end - start, 0.0, a);
    GoneMonotone(end - start, a, b);
    GoneMonotone(end - start, b, 1.0);
  }

  // ---------------------------------------------------------------- colours as text

  datatype Color = Color(r: int, g: int, b: int)

  const BLACK := Color(0, 0, 0)

  /** What two characters can parse to: a sign leaves room for one digit only. */
  predicate Channel(n: int) {
    -15 <= n <= 255
  }

  predicate Channels(c: Color) {
    Channel(c.r) && Channel(c.g) && Channel(c.b)
  }

  const DIGITS := "0123456789ABCDEF"

  function DigitValue(c: char): Option<int> {
    if '0' <= c <= '9' then Some(c as int - '0' as int)
    else if 'a' <= c <= 'f' then Some(c as int - 'a' as int + 10)
    else if 'A' <= c <= 'F' then Some(c as int - 'A' as int + 10)
    else None
  }

  /** strconv.ParseInt in base 16 on two characters: a sign is accepted in front. */
  function ParseByte(hi: char, lo: char): (n: Option<int>)
    ensures n.Some? ==> Channel(n.value)
  {
    match DigitValue(lo)
    case None => None
    case Some(low) =>
      if hi == '+' then Some(low)
      else if hi == '-' then Some(-low)
      else
        match DigitValue(hi)
        case None => None
        case Some(high) => Some(16 * high + low)
  }

  /** A leading "#" is dropped; text that is not six characters of three numbers is black. */
  function ParseHexColor(text: string): (c: Color)
    ensures Channels(c)
  {
    var hex := if "#" <= text then text[1..] else text;
    if |hex| != 6 then BLACK
    else
      match (ParseByte(hex[0], hex[1]), ParseByte(hex[2], hex[3]), ParseByte(hex[4], hex[5]))
      case (Some(r), Some(g), Some(b)) => Color(r, g, b)
      case _ => BLACK
  }

  /** The verb %02X. */
  function FormatByte(n: int): (s: string)
    requires Channel(n)
    ensures |s| == 2
  {
    if n < 0 then ['-', DIGITS[-n]] else [DIGITS[n / 16], DIGITS[n % 16]]
  }

  function FormatColor(c: Color): (s: string)
    requires Channels(c)
    ensures |s| == 7
  {
    "#" + FormatByte(c.r) + FormatByte(c.g) + FormatByte(c.b)
  }

  lemma DigitRoundTrip(n: nat)
    requires n < 16
    ensures DigitValue(DIGITS[n]) == Some(n) && DIGITS[n] != '+' && DIGITS[n] != '-'
  {
  }

  lemma ByteRoundTrip(n: int)
    requires Channel(n)
    ensures ParseByte(FormatByte(n)[0], FormatByte(n)[1]) == Some(n)
  {
    if n < 0 {
      DigitRoundTrip(-n);
    } else {
      DigitRoundTrip(n / 16);
      DigitRoundTrip(n % 16);
    }
  }

  /** A printed colour parses back, also with the negative channels that a sign in the input allows. */
  lemma {:induction false} ColorRoundTrip(c: Color)
    requires Channels(c)
    ensures ParseHexColor(FormatColor(c)) == c
  {
    ByteRoundTrip(c.r);
    ByteRoundTrip(c.g);
    ByteRoundTrip(c.b);
    var s := FormatColor(c);
    var hex := s[1..];
    hide FormatByte, ParseByte;
    assert s[0] == '#' && hex == FormatByte(c.r) + FormatByte(c.g) + FormatByte(c.b);
    assert hex[0] == FormatByte(c.r)[0] && hex[1] == FormatByte(c.r)[1];
    assert hex[2] == FormatByte(c.g)[0] && hex[3] == FormatByte(c.g)[1];
    assert hex[4] == FormatByte(c.b)[0] && hex[5] == FormatByte(c.b)[1];
  }

  /** The digits of both cases read alike; other text, and text of another length, is black. */
  lemma HexReads(r: char, g: char, b: char)
    ensures ParseHexColor("#0a1B2c") == ParseHexColor("0A1b2C") == Color(10, 27, 44)
    ensures ParseHexColor("#-f+9fF") == Color(-15, 9, 255)
    ensures ParseHexColor([r, g, b]) == ParseHexColor(['#', r, g, b]) == Color(0, 0, 0)
    ensures ParseHexColor("#00000g") == ParseHexColor("#00 000") == ParseHexColor("#0000-+") == Color(0, 0, 0)
  {
    assert "#0a1B2c"[1..] == "0a1B2c" && "#-f+9fF"[1..] == "-f+9fF" && "#00000g"[1..] == "00000g";
    assert "0A1b2C"[0] != '#' && !("#" <= "0A1b2C");
    assert "#00 000"[1..] == "00 000" && "#0000-+"[1..] == "0000-+";
  }

  // ---------------------------------------------------------------- the gradient

  function Interpolated(start: Color, end: Color, ratio: real): Color {
    Color(InterpolateColorChannel(start.r, end.r, ratio),
          InterpolateColorChannel(start.g, end.g, ratio),
          InterpolateColorChannel(start.b, end.b, ratio))
  }

  function InterpolateHexColor(start: string, end: string, ratio: real): string
    requires 0.0 <= ratio <= 1.0
  {
    var from, to := ParseHexColor(start), ParseHexColor(end);
    InterpolatedBetween(from, to, ratio);
    FormatColor(Interpolated(from, to, ratio))
  }

  predicate ColorBetween(c: Color, a: Color, b: Color) {
    Between(c.r, a.r, b.r) && Between(c.g, a.g, b.g) && Between(c.b, a.b, b.b)
  }

  lemma InterpolatedBetween(start: Color, end: Color, ratio: real)
    requires Channels(start) && Channels(end) && 0.0 <= ratio <= 1.0
    ensures ColorBetween(Interpolated(start, end, ratio), start, end) && Channels(Interpolated(start, end, ratio))
  {
    InterpolatedForward(start, end, ratio, 1.0);
    InterpolatedEnds(start, end);
    hide Interpolated;
  }

  lemma InterpolatedEnds(start: Color, end: Color)
    ensures Interpolated(start, end, 0.0) == start && Interpolated(start, end, 1.0) == end
  {
    hide InterpolateColorChannel;
    ChannelMonotone(start.r, end.r, 0.0, 1.0);
    ChannelMonotone(start.g, end.g, 0.0, 1.0);
    ChannelMonotone(start.b, end.b, 0.0, 1.0);
  }

  lemma InterpolatedForward(start: Color, end: Color, p: real, q: real)
    requires 0.0 <= p <= q <= 1.0
    ensures ColorBetween(Interpolated(start, end, p), start, Interpolated(start, end, q))
    ensures ColorBetween(Interpolated(start, end, q), Interpolated(start, end, p), end)
  {
    hide InterpolateColorChannel;
    ChannelMonotone(start.r, end.r, p, q);
    ChannelMonotone(start.g, end.g, p, q);
    ChannelMonotone(start.b, end.b, p, q);
  }

  /** The colour of line i of n, as the callout renderer asks for it. */
  function LineColor(start: string, end: string, i: nat, n: int): string
    requires i < n
  {
    RatioBounded(i, n);
    InterpolateHexColor(start, end, GradientRatio(i, n))
  }

  /**
  Read back, the first line has the start colour and the colours of later lines move towards the end
  colour, channel by channel and without turning back, whatever the two colour texts are.
   */
  lemma {:induction false} GradientMovesForward(start: string, end: string, i: nat, j: nat, n: int)
    requires i <= j < n
    ensures ParseHexColor(LineColor(start, end, 0, n)) == ParseHexColor(start)
    ensures n >= 4 ==> ParseHexColor(LineColor(start, end, n - 1, n)) == ParseHexColor(end)
    ensures var a, b := ParseHexColor(LineColor(start, end, i, n)), ParseHexColor(LineColor(start, end, j, n));
            ColorBetween(a, ParseHexColor(start), b) && ColorBetween(b, a, ParseHexColor(end))
  {
    hide InterpolateColorChannel, Interpolated, ColorBetween, ParseHexColor, LineColor;
    LineColorReads(start, end, 0, n);
    LineColorReads(start, end, i, n);
    LineColorReads(start, end, j, n);
    RatioBounded(i, n);
    RatioBounded(j, n);
    RatioMonotone(i, j, n);
    FirstRatio(n);
    LineColorReads(start, end, n - 1, n);
    RatioSteps(n - 1, n);
    hide GradientRatio;
    InterpolatedEnds(ParseHexColor(start), ParseHexColor(end));
    InterpolatedForward(ParseHexColor(start), ParseHexColor(end), GradientRatio(i, n), GradientRatio(j, n));
  }

  lemma FirstRatio(n: int)
    ensures GradientRatio(0, n) == 0.0
  {
  }

  lemma {:induction false} LineColorReads(start: string, end: string, i: nat, n: int)
    requires i < n
    ensures ParseHexColor(LineColor(start, end, i, n)) ==
              Interpolated(ParseHexColor(start), ParseHexColor(end), GradientRatio(i, n))
  {
    RatioBounded(i, n);
    var from, to := ParseHexColor(start), ParseHexColor(end);
    InterpolatedBetween(from, to, GradientRatio(i, n));
    ColorRoundTrip(Interpolated(from, to, GradientRatio(i, n)));
  }
}
