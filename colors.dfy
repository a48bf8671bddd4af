/** Colours (lib.js:59-74) and `writeColor` (lib.js:76-88): the conversion of
    an accumulated linear colour into the four RGBA bytes of one pixel of a
    canvas `ImageData` buffer. */
module Colors {
  import opened Numeric

  datatype Color = Color(r: real, g: real, b: real) {

    /** `scale`: every channel multiplied by `f`. */
    function Scale(f: real): Color {
      Color(r * f, g * f, b * f)
    }

    /** `addColor`: channel-wise sum. */
    function AddColor(c: Color): Color {
      Color(r + c.r, g + c.g, b + c.b)
    }

    /** `mulColor`: channel-wise product (attenuation). */
    function MulColor(c: Color): Color {
      Color(r * c.r, g * c.g, b * c.b)
    }
  }

  function White(): Color {
    Color(1.0, 1.0, 1.0)
  }

  function Black(): Color {
    Color(0.0, 0.0, 0.0)
  }

  /** White is the unit of attenuation, black the unit of accumulation, and
      both operations are commutative. */
  lemma ColorIdentities(c: Color, d: Color)
    ensures c.MulColor(White()) == c && White().MulColor(c) == c
    ensures c.AddColor(Black()) == c
    ensures c.MulColor(d) == d.MulColor(c) && c.AddColor(d) == d.AddColor(c)
    ensures c.MulColor(Black()) == Black()
  {
  }

  /** Averaging: scaling distributes over accumulation, so summing samples
      and scaling once equals scaling each sample. */
  lemma ScaleDistributes(c: Color, d: Color, f: real)
    ensures c.AddColor(d).Scale(f) == c.Scale(f).AddColor(d.Scale(f))
  {
  }

  // ---------------------------------------------------------------------
  // One channel

  /** The largest value a channel is clamped to before scaling to a byte. */
  const ChannelMax: real := 0.999

  /** Truncation of a non-negative number to an integer: what `parseInt`
      computes for numbers whose JavaScript string form is plain decimal. */
  function Truncate(x: real): (n: int)
    requires 0.0 <= x
    ensures 0 <= n && n as real <= x < n as real + 1.0
  {
    x.Floor
  }

  /** The byte written for a channel whose gamma-corrected value is `v`:
      `256 * clamp(v, 0.0, 0.999)` truncated. This is the intended
      conversion; see `ChannelByteAsWritten` for what `parseInt` does. */
  function ChannelByte(v: real): (n: int)
    ensures 0 <= n <= 255
  {
    Truncate(256.0 * Clamp(v, 0.0, ChannelMax))
  }

  /** The byte is the index of the 1/256-wide band that holds the clamped
      value: `n/256 <= clamp(v) < (n+1)/256`. */
  lemma ChannelByteBand(v: real)
    ensures var n := ChannelByte(v);
      n as real / 256.0 <= Clamp(v, 0.0, ChannelMax) < (n as real + 1.0) / 256.0
  {
  }

  /** Brighter channels never give smaller bytes. */
  lemma ChannelByteMonotone(v: real, w: real)
    requires v <= w
    ensures ChannelByte(v) <= ChannelByte(w)
  {
    var cv, cw := Clamp(v, 0.0, ChannelMax), Clamp(w, 0.0, ChannelMax);
    assert cv <= cw;
    var n, m := ChannelByte(v), ChannelByte(w);
    assert n as real <= 256.0 * cv <= 256.0 * cw < m as real + 1.0;
  }

  /** Black gives 0 and anything at or above 0.999 gives 255. */
  lemma ChannelByteExtremes(v: real)
    ensures ChannelByte(0.0) == 0
    ensures ChannelMax <= v ==> ChannelByte(v) == 255
  {
    assert 256.0 * ChannelMax == 255.744;
  }

  /** The gamma-2 byte of one channel of an accumulated colour: the channel
      is averaged over the samples, square-rooted and converted. A negative
      average makes Math.sqrt return NaN; NaN survives `clamp`, `parseInt`
      yields NaN, and the clamped byte array stores NaN as 0. */
  function GammaByte(channel: real, samplesPerPixel: int, sqrt: real -> real): (n: int)
    requires SqrtSpec(sqrt) && 0 < samplesPerPixel
    ensures 0 <= n <= 255
    ensures channel <= 0.0 ==> n == 0
  {
    var average := Average(channel, samplesPerPixel);
    if average < 0.0 then 0
    else
      SqrtZero(sqrt);
      ChannelByte(sqrt(average))
  }

  /** `c * (1.0 / samplesPerPixel)`: one channel averaged over the samples. */
  function Average(channel: real, samplesPerPixel: int): real
    requires 0 < samplesPerPixel
  {
    channel * (1.0 / samplesPerPixel as real)
  }

  /** Averaging keeps the order of channels. */
  lemma AverageMonotone(c: real, d: real, samplesPerPixel: int)
    requires 0 < samplesPerPixel && c <= d
    ensures Average(c, samplesPerPixel) <= Average(d, samplesPerPixel)
  {
    MulPositiveMonotone(c, d, 1.0 / samplesPerPixel as real);
  }

  /** sqrt(0) == 0. */
  lemma SqrtZero(sqrt: real -> real)
    requires SqrtSpec(sqrt)
    ensures sqrt(0.0) == 0.0
  {
    SqrtUnique(sqrt, 0.0, 0.0);
  }

  /** A brighter channel never gives a smaller byte: gamma correction is
      monotone. */
  lemma GammaByteMonotone(c: real, d: real, samplesPerPixel: int, sqrt: real -> real)
    requires SqrtSpec(sqrt) && 0 < samplesPerPixel
    requires c <= d
    ensures GammaByte(c, samplesPerPixel, sqrt) <= GammaByte(d, samplesPerPixel, sqrt)
  {
    var a, b := Average(c, samplesPerPixel), Average(d, samplesPerPixel);
    AverageMonotone(c, d, samplesPerPixel);
    if 0.0 <= a {
      SqrtMonotone(sqrt, a, b);
      ChannelByteMonotone(sqrt(a), sqrt(b));
    }
  }

  lemma MulPositiveMonotone(c: real, d: real, s: real)
    requires c <= d && 0.0 < s
    ensures c * s <= d * s
  {
    if c < d {
      MulPositive(d - c, s);
    }
  }

  /** The square root is monotone on the non-negative reals. */
  lemma SqrtMonotone(sqrt: real -> real, x: real, y: real)
    requires SqrtSpec(sqrt)
    requires 0.0 <= x <= y
    ensures sqrt(x) <= sqrt(y)
  {
    var p, q := sqrt(x), sqrt(y);
    assert 0.0 <= p && p * p == x;
    assert 0.0 <= q && q * q == y;
    if q < p {
      SquareLess(q, p);
      assert false;
    }
  }

  /** The four bytes `writeColor` stores for colour `c`: gamma-corrected red,
      green and blue, and an opaque alpha. */
  function PixelBytes(c: Color, samplesPerPixel: int, sqrt: real -> real): (bytes: seq<int>)
    requires SqrtSpec(sqrt) && 0 < samplesPerPixel
    ensures |bytes| == 4 && bytes[3] == 255
    ensures forall k :: 0 <= k < 4 ==> 0 <= bytes[k] <= 255
  {
    [GammaByte(c.r, samplesPerPixel, sqrt),
     GammaByte(c.g, samplesPerPixel, sqrt),
     GammaByte(c.b, samplesPerPixel, sqrt),
     255]
  }

  /** Index of the first byte of pixel (x, y) in a row-major RGBA buffer. */
  function PixelIndex(width: int, x: int, y: int): int {
    (y * width + x) * 4
  }

  /** Distinct pixels inside one row-major image own disjoint groups of
      four bytes. */
  lemma PixelIndexInjective(width: int, x1: int, y1: int, x2: int, y2: int)
    requires 0 <= x1 < width && 0 <= x2 < width && 0 <= y1 && 0 <= y2
    requires (x1, y1) != (x2, y2)
    ensures PixelIndex(width, x1, y1) + 4 <= PixelIndex(width, x2, y2)
         || PixelIndex(width, x2, y2) + 4 <= PixelIndex(width, x1, y1)
  {
    var i1, i2 := y1 * width + x1, y2 * width + x2;
    if y1 == y2 {
      assert i1 != i2;
    } else if y1 < y2 {
      MulLess(y1, y2, width);
      assert i1 < i2;
    } else {
      MulLess(y2, y1, width);
      assert i2 < i1;
    }
  }

  lemma MulLess(a: int, b: int, w: int)
    requires a < b && 0 < w
    ensures a * w + w <= b * w
  {
    var k := b - a - 1;
    assert 0 <= k;
    assert 0 <= k * w;
    assert b * w == a * w + w + k * w;
  }

  /** A store into a clamped byte array: an index outside the buffer is
      ignored, any other cell keeps its value. */
  method Store(data: array<int>, i: int, v: int)
    modifies data
    ensures forall j :: 0 <= j < data.Length ==> data[j] == (if j == i then v else old(data[j]))
  {
    if 0 <= i < data.Length {
      data[i] := v;
    }
  }

  /** `writeColor(imagedata, width, x, y, c, samplesPerPixel)`: the four
      bytes of pixel (x, y) become `PixelBytes(c, ...)`, as far as they lie
      inside the buffer; no other byte changes. */
  method WriteColor(data: array<int>, width: int, x: int, y: int, c: Color,
                    samplesPerPixel: int, sqrt: real -> real)
    requires SqrtSpec(sqrt) && 0 < samplesPerPixel
    modifies data
    ensures forall j :: 0 <= j < data.Length ==>
      data[j] == (if PixelIndex(width, x, y) <= j < PixelIndex(width, x, y) + 4
                  then PixelBytes(c, samplesPerPixel, sqrt)[j - PixelIndex(width, x, y)]
                  else old(data[j]))
  {
    var pixelIndex := (y * width + x) * 4;
    var r := GammaByte(c.r, samplesPerPixel, sqrt);
    var g := GammaByte(c.g, samplesPerPixel, sqrt);
    var b := GammaByte(c.b, samplesPerPixel, sqrt);
    Store(data, pixelIndex, r);
    Store(data, pixelIndex + 1, g);
    Store(data, pixelIndex + 2, b);
    Store(data, pixelIndex + 3, 255);
  }

  /** Every byte `writeColor` leaves in an all-bytes buffer is again a byte,
      and the pixel's alpha byte, when inside the buffer, is 255. */
  lemma WriteColorKeepsBytes(before: seq<int>, after: seq<int>, width: int, x: int, y: int,
                             c: Color, samplesPerPixel: int, sqrt: real -> real)
    requires SqrtSpec(sqrt) && 0 < samplesPerPixel
    requires |after| == |before|
    requires forall j :: 0 <= j < |before| ==> 0 <= before[j] <= 255
    requires forall j :: 0 <= j < |after| ==>
      after[j] == (if PixelIndex(width, x, y) <= j < PixelIndex(width, x, y) + 4
                   then PixelBytes(c, samplesPerPixel, sqrt)[j - PixelIndex(width, x, y)]
                   else before[j])
    ensures forall j :: 0 <= j < |after| ==> 0 <= after[j] <= 255
    ensures 0 <= PixelIndex(width, x, y) + 3 < |after| ==> after[PixelIndex(width, x, y) + 3] == 255
  {
  }

  // ---------------------------------------------------------------------
  // `parseInt` as the source uses it

  /** The leading decimal digit of `x` in (0, 1): the first non-zero digit
      after the decimal point. `fuel` bounds the number of decimal places
      looked at; IEEE doubles need at most 324. */
  function LeadingDigit(x: real, fuel: nat): (d: int)
    requires 0.0 < x < 1.0
    ensures 0 <= d <= 9
    decreases fuel
  {
    if fuel == 0 then 0
    else if 1.0 <= 10.0 * x then Truncate(10.0 * x)
    else LeadingDigit(10.0 * x, fuel - 1)
  }

  /** `parseInt(x)` for a non-negative number below 1e21: JavaScript first
      converts `x` to a string, which for 0 < x < 1e-6 is in exponential
      notation ("5e-7"), and then reads the leading digits, so such an `x`
      gives its first significant digit instead of 0. */
  function ParseInt(x: real): (n: int)
    requires 0.0 <= x < 1000000000000000000000.0
    ensures 0.0 < x < 0.000001 ==> 0 <= n <= 9
    ensures (x == 0.0 || 0.000001 <= x) ==> n == Truncate(x)
  {
    if 0.0 < x < 0.000001 then LeadingDigit(x, 330) else Truncate(x)
  }

  /** The byte lib.js:84-86 actually computes from a gamma-corrected channel. */
  function ChannelByteAsWritten(v: real): (n: int)
    ensures 0 <= n <= 255
    ensures 256.0 * Clamp(v, 0.0, ChannelMax) < 0.000001 ==> 0 <= n <= 9
  {
    ParseInt(256.0 * Clamp(v, 0.0, ChannelMax))
  }

  /** Where the two conversions agree: at zero and from 1e-6/256 upwards. */
  lemma ChannelByteAsWrittenAgrees(v: real)
    requires v <= 0.0 || 0.000001 <= 256.0 * Clamp(v, 0.0, ChannelMax)
    ensures ChannelByteAsWritten(v) == ChannelByte(v)
  {
  }

  /** A channel of 1/512000000 scales to 256/512000000 = 5e-7, whose string
      form "5e-7" makes `parseInt` return 5; the intended byte is 0. A
      brighter channel, 1/25600000, scales to 1e-5 ("0.00001") and gives 0,
      so the conversion as written is not even monotone. */
  lemma ChannelByteAsWrittenCounterexample()
    ensures ChannelByteAsWritten(1.0 / 512000000.0) == 5
    ensures ChannelByte(1.0 / 512000000.0) == 0
    ensures 1.0 / 512000000.0 < 1.0 / 25600000.0
    ensures ChannelByteAsWritten(1.0 / 25600000.0) == 0
  {
    var x := 256.0 * Clamp(1.0 / 512000000.0, 0.0, ChannelMax);
    assert x == 0.0000005;
    assert LeadingDigit(0.000005, 324) == LeadingDigit(0.00005, 323);
    assert LeadingDigit(0.00005, 323) == LeadingDigit(0.0005, 322);
    assert LeadingDigit(0.0005, 322) == LeadingDigit(0.005, 321);
    assert LeadingDigit(0.005, 321) == LeadingDigit(0.05, 320);
    assert LeadingDigit(0.05, 320) == LeadingDigit(0.5, 319);
    assert LeadingDigit(0.5, 319) == 5;
    var y := 256.0 * Clamp(1.0 / 25600000.0, 0.0, ChannelMax);
    assert y == 0.00001;
  }
}
