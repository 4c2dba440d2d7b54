/** The image writer's output: a binary PPM (Netpbm "P6") file. The header
    is the text "P6\n<width> <height>\n255\n"; after it every pixel, in
    row-major order, contributes its red, green and blue bytes, which are
    the low, second and third byte of the packed colour. The top (alpha)
    byte is not written. A decoder for the same format is given as the
    encoder's inverse. */
module Ppm {
  import opened Canvas

  newtype Byte = b: int | 0 <= b < 256

  datatype Option<T> = None | Some(value: T)

  /** One pixel as the file stores it. */
  datatype Rgb = Rgb(r: Byte, g: Byte, b: Byte)

  /** An image as the decoder reads it back. */
  datatype Image = Image(width: nat, height: nat, pixels: seq<Rgb>)

  // ------------------------------------------------------------------ header

  /** Bytes of a text whose characters all fit in one byte. */
  function Ascii(s: string): (r: seq<Byte>)
    requires forall i :: 0 <= i < |s| ==> s[i] as int < 256
    ensures |r| == |s|
  {
    seq(|s|, i requires 0 <= i < |s| => s[i] as Byte)
  }

  /** The bytes of the characters '0' to '9'. */
  predicate IsDigitByte(b: Byte)
  {
    0x30 <= b <= 0x39
  }

  /** The byte of decimal digit d. */
  function DigitByte(d: nat): (b: Byte)
    requires d < 10
    ensures IsDigitByte(b) && b as int - 0x30 == d
  {
    (0x30 + d) as Byte
  }

  /** n written in decimal as `%zu` prints it: at least one digit, and no
      leading zero unless n is 0. */
  function Decimal(n: nat): (s: seq<Byte>)
    ensures |s| >= 1
    ensures forall i :: 0 <= i < |s| ==> IsDigitByte(s[i])
    ensures s[0] == 0x30 ==> n == 0 && s == [0x30]
    decreases n
  {
    if n < 10 then [DigitByte(n)] else Decimal(n / 10) + [DigitByte(n % 10)]
  }

  /** The header the writer prints before the pixel data: the text
      "P6\n<width> <height>\n255\n". */
  function Header(width: nat, height: nat): (r: seq<Byte>)
    ensures |r| == |Decimal(width)| + |Decimal(height)| + 9
  {
    Ascii("P6\n") + Decimal(width) + Ascii(" ") + Decimal(height) + Ascii("\n255\n")
  }

  // -------------------------------------------------------------------- body

  /** The channels of a packed colour: red in bits 0-7, green in 8-15,
      blue in 16-23; bits 24-31 (alpha) belong to no channel. */
  function Red(p: Color): Byte { (p & 0xFF) as Byte }
  function Green(p: Color): Byte { ((p >> 8) & 0xFF) as Byte }
  function Blue(p: Color): Byte { ((p >> 16) & 0xFF) as Byte }

  /** The three bytes written for one pixel. */
  function PixelBytes(p: Color): (r: seq<Byte>)
    ensures |r| == 3
  {
    [Red(p), Green(p), Blue(p)]
  }

  /** The pixel data: three bytes per pixel, in buffer order. */
  function Body(pixels: seq<Color>): (r: seq<Byte>)
    ensures |r| == 3 * |pixels|
  {
    if pixels == [] then []
    else Body(pixels[..|pixels| - 1]) + PixelBytes(pixels[|pixels| - 1])
  }

  /** The whole file for a width-by-height buffer. */
  function Encode(pixels: seq<Color>, width: nat, height: nat): (r: seq<Byte>)
    requires |pixels| == width * height
    ensures |r| == |Header(width, height)| + 3 * |pixels|
  {
    Header(width, height) + Body(pixels)
  }

  /** Pixel i's triplet sits at offsets 3 * i to 3 * i + 2 of the body. */
  lemma {:induction false} BodyAt(pixels: seq<Color>, i: nat, j: nat)
    requires i < |pixels| && j < 3
    ensures 3 * i + j < |Body(pixels)|
    ensures Body(pixels)[3 * i + j] == PixelBytes(pixels[i])[j]
  {
    var n := |pixels|;
    if i < n - 1 {
      BodyAt(pixels[..n - 1], i, j);
    }
  }

  /** The alpha byte never reaches the file: two colours that differ only in
      their top byte encode to the same triplet. */
  lemma AlphaDropped(p: Color, q: Color)
    requires p & 0x00FF_FFFF == q & 0x00FF_FFFF
    ensures PixelBytes(p) == PixelBytes(q)
  {
  }

  /** The 2-by-2 example of the format: red, green, blue and white pixels
      with opaque alpha. */
  lemma EncodeExample()
    ensures Encode([0xFFFF0000, 0xFF00FF00, 0xFF0000FF, 0xFFFFFFFF], 2, 2)
         == Ascii("P6\n2 2\n255\n") + [0x00, 0x00, 0xFF, 0x00, 0xFF, 0x00, 0xFF, 0x00, 0x00, 0xFF, 0xFF, 0xFF]
  {
    var px: seq<Color> := [0xFFFF0000, 0xFF00FF00, 0xFF0000FF, 0xFFFFFFFF];
    assert px[..1][..0] == [];
    assert px[..2][..1] == px[..1];
    assert px[..3][..2] == px[..2];
    assert px[..4] == px;
    assert Body(px[..1]) == PixelBytes(px[0]);
    assert Body(px[..2]) == Body(px[..1]) + PixelBytes(px[1]);
    assert Body(px[..3]) == Body(px[..2]) + PixelBytes(px[2]);
    assert Body(px) == Body(px[..3]) + PixelBytes(px[3]);
    assert PixelBytes(px[0]) == [0x00, 0x00, 0xFF];
    assert PixelBytes(px[1]) == [0x00, 0xFF, 0x00];
    assert PixelBytes(px[2]) == [0xFF, 0x00, 0x00];
    assert PixelBytes(px[3]) == [0xFF, 0xFF, 0xFF];
    assert Body(px) == [0x00, 0x00, 0xFF, 0x00, 0xFF, 0x00, 0xFF, 0x00, 0x00, 0xFF, 0xFF, 0xFF];
    assert Decimal(2) == Ascii("2");
    assert Header(2, 2) == Ascii("P6\n2 2\n255\n");
  }

  // ----------------------------------------------------------------- decoder

  /** Length of the run of decimal digits at the front of `bs`. */
  function DigitRun(bs: seq<Byte>): (n: nat)
    ensures n <= |bs|
    ensures forall i :: 0 <= i < n ==> IsDigitByte(bs[i])
    ensures n < |bs| ==> !IsDigitByte(bs[n])
  {
    if bs != [] && IsDigitByte(bs[0]) then 1 + DigitRun(bs[1..]) else 0
  }

  /** The number that a run of decimal digit bytes spells. */
  function DigitsValue(bs: seq<Byte>): nat
    requires forall i :: 0 <= i < |bs| ==> IsDigitByte(bs[i])
  {
    if bs == [] then 0
    else
      assert IsDigitByte(bs[|bs| - 1]);
      DigitsValue(bs[..|bs| - 1]) * 10 + (bs[|bs| - 1] as int - 0x30)
  }

  /** Groups `count` triplets back into pixels. */
  function DecodeBody(bytes: seq<Byte>, count: nat): (r: seq<Rgb>)
    requires |bytes| == 3 * count
    ensures |r| == count
  {
    if count == 0 then []
    else
      var n := |bytes|;
      DecodeBody(bytes[..n - 3], count - 1) + [Rgb(bytes[n - 3], bytes[n - 2], bytes[n - 1])]
  }

  /** Reads a non-empty decimal number followed by `sep`; gives its value
      and the bytes after the separator. */
  function Number(bs: seq<Byte>, sep: seq<Byte>): Option<(nat, seq<Byte>)>
  {
    var n := DigitRun(bs);
    if n == 0 || n + |sep| > |bs| || bs[n..n + |sep|] != sep then None
    else Some((DigitsValue(bs[..n]), bs[n + |sep|..]))
  }

  /** Reads a P6 file with maximum value 255 and exactly width * height
      triplets after the header. */
  function Decode(bytes: seq<Byte>): Option<Image>
  {
    if |bytes| < 3 || bytes[..3] != Ascii("P6\n") then None
    else
      match Number(bytes[3..], Ascii(" "))
      case None => None
      case Some((width, rest)) =>
        match Number(rest, Ascii("\n255\n"))
        case None => None
        case Some((height, body)) =>
          if |body| != 3 * (width * height) then None
          else Some(Image(width, height, DecodeBody(body, width * height)))
  }

  /** The channels of every pixel of a buffer. */
  function Channels(pixels: seq<Color>): (r: seq<Rgb>)
    ensures |r| == |pixels|
  {
    seq(|pixels|, i requires 0 <= i < |pixels| => Rgb(Red(pixels[i]), Green(pixels[i]), Blue(pixels[i])))
  }

  lemma {:induction false} BodyRoundTrip(pixels: seq<Color>)
    ensures DecodeBody(Body(pixels), |pixels|) == Channels(pixels)
  {
    if pixels != [] {
      var n := |pixels|;
      var init := pixels[..n - 1];
      BodyRoundTrip(init);
      var b := Body(pixels);
      assert b[..|b| - 3] == Body(init);
      assert b[|b| - 3..] == PixelBytes(pixels[n - 1]);
      assert Channels(pixels) == Channels(init) + [Rgb(Red(pixels[n - 1]), Green(pixels[n - 1]), Blue(pixels[n - 1]))];
    }
  }

  lemma {:induction false} DigitRunStops(ds: seq<Byte>, rest: seq<Byte>)
    requires forall i :: 0 <= i < |ds| ==> IsDigitByte(ds[i])
    requires rest != [] && !IsDigitByte(rest[0])
    ensures DigitRun(ds + rest) == |ds|
  {
    if ds != [] {
      assert (ds + rest)[1..] == ds[1..] + rest;
      DigitRunStops(ds[1..], rest);
    }
  }

  /** The digits Decimal writes spell n back. */
  lemma {:induction false} DecimalValue(n: nat)
    ensures DigitsValue(Decimal(n)) == n
    decreases n
  {
    if n >= 10 {
      DecimalValue(n / 10);
      var d := Decimal(n);
      assert d[..|d| - 1] == Decimal(n / 10);
    }
  }

  /** The decoder reads back a number the encoder wrote, when a separator
      that does not start with a digit follows it. */
  lemma NumberEncoded(n: nat, sep: seq<Byte>, rest: seq<Byte>)
    requires sep != [] && !IsDigitByte(sep[0])
    ensures Number(Decimal(n) + sep + rest, sep) == Some((n, rest))
  {
    var ds := Decimal(n);
    var bs := ds + sep + rest;
    assert bs == ds + (sep + rest);
    DigitRunStops(ds, sep + rest);
    DecimalValue(n);
    assert bs[..|ds|] == ds;
    assert bs[|ds|..|ds| + |sep|] == sep;
    assert bs[|ds| + |sep|..] == rest;
  }

  /** Decoding an encoded buffer gives back its dimensions and the red,
      green and blue channels of every pixel, in buffer order. */
  lemma DecodeEncode(pixels: seq<Color>, width: nat, height: nat)
    requires |pixels| == width * height
    ensures Decode(Encode(pixels, width, height)) == Some(Image(width, height, Channels(pixels)))
  {
    var bytes := Encode(pixels, width, height);
    var tail := Decimal(height) + Ascii("\n255\n") + Body(pixels);
    assert bytes == Ascii("P6\n") + (Decimal(width) + Ascii(" ") + tail);
    assert bytes[..3] == Ascii("P6\n");
    assert bytes[3..] == Decimal(width) + Ascii(" ") + tail;
    NumberEncoded(width, Ascii(" "), tail);
    NumberEncoded(height, Ascii("\n255\n"), Body(pixels));
    BodyRoundTrip(pixels);
  }

  // ------------------------------------------------------------------ writer

  /** The byte stream the writer sends to the file: the header, then one
      triplet per pixel for the width * height pixels of the buffer. */
  method SaveToPpm(pixels: array<Color>, width: nat, height: nat) returns (out: seq<Byte>)
    requires pixels.Length == width * height
    ensures out == Encode(pixels[..], width, height)
  {
    out := Header(width, height);
    var i := 0;
    while i < width * height
      invariant 0 <= i <= width * height
      invariant out == Header(width, height) + Body(pixels[..i])
    {
      var pixel := pixels[i];
      var bytes := [Red(pixel), Green(pixel), Blue(pixel)];
      assert pixels[..i + 1][..i] == pixels[..i];
      out := out + bytes;
      i := i + 1;
    }
    assert pixels[..i] == pixels[..];
  }
}
