/** The indexed 320x200 framebuffer: palette quantisation and the clipped drawing primitives. */
module Framebuffers {
  import opened Words

  const WIDTH: int := 320
  const HEIGHT: int := 200

  type Palette = p: seq<uint16> | |p| == 256 witness seq(256, _ => 0)

  /** Squared distance of two RGB565 colours. */
  function Distance(c: uint16, p: uint16): nat {
    var dr, dg, db := c / 0x800 - p / 0x800, c / 0x20 % 64 - p / 0x20 % 64, c % 32 - p % 32;
    dr * dr + dg * dg + db * db
  }

  /** The first palette entry at the least distance from `c`. */
  predicate IsNearest(palette: Palette, c: uint16, i: int) {
    && 0 <= i < 256
    && (forall k | 0 <= k < 256 :: Distance(c, palette[i]) <= Distance(c, palette[k]))
    && (forall k | 0 <= k < i :: Distance(c, palette[i]) < Distance(c, palette[k]))
  }

  /** The scan over a prefix of the palette, as a specification. */
  function Scan(palette: Palette, c: uint16, n: nat): (i: uint8)
    requires 1 <= n <= 256
    ensures i < n
    ensures forall k | 0 <= k < n :: Distance(c, palette[i]) <= Distance(c, palette[k])
    ensures forall k | 0 <= k < i :: Distance(c, palette[i]) < Distance(c, palette[k])
  {
    if n == 1 then 0
    else
      var best := Scan(palette, c, n - 1);
      if Distance(c, palette[n - 1]) < Distance(c, palette[best]) then n - 1 else best
  }

  function Nearest(palette: Palette, c: uint16): (i: uint8)
    ensures IsNearest(palette, c, i)
  {
    Scan(palette, c, 256)
  }

  lemma NearestUnique(palette: Palette, c: uint16, i: int)
    requires IsNearest(palette, c, i)
    ensures i == Nearest(palette, c)
  {
    hide Distance;
  }

  /** The RGB332 colour cube, with exact black and white at the ends. */
  function DefaultPalette(): Palette {
    seq(256, i requires 0 <= i < 256 => CubeColour(i))
  }

  function CubeColour(i: uint8): uint16 {
    if i == 0 then 0 else if i == 255 then 0xffff
    else Red(i / 32) * 0x800 + Green(i / 4 % 8) * 0x20 + Blue(i % 4)
  }

  function Red(v: nat): (r: nat)
    requires v < 8
    ensures r < 32
  {
    v * 31 / 7
  }

  function Green(v: nat): (g: nat)
    requires v < 8
    ensures g < 64
  {
    v * 63 / 7
  }

  function Blue(v: nat): (b: nat)
    requires v < 4
    ensures b < 32
  {
    v * 31 / 3
  }

  /** An RGB565 colour of these channels. */
  function Rgb565(r: nat, g: nat, b: nat): uint16
    requires r < 32 && g < 64 && b < 32
  {
    r * 0x800 + g * 0x20 + b
  }

  lemma ChannelsOf(r: nat, g: nat, b: nat)
    requires r < 32 && g < 64 && b < 32
    ensures var c := Rgb565(r, g, b); c / 0x800 == r && c / 0x20 % 64 == g && c % 32 == b
  {
    var c := Rgb565(r, g, b);
    assert c / 0x20 == r * 64 + g;
  }

  /** The distance is that of the channels as points in space: the sum of the squared differences. */
  lemma DistanceOfChannels(r: nat, g: nat, b: nat, r': nat, g': nat, b': nat)
    requires r < 32 && g < 64 && b < 32 && r' < 32 && g' < 64 && b' < 32
    ensures Distance(Rgb565(r, g, b), Rgb565(r', g', b'))
            == (r - r') * (r - r') + (g - g') * (g - g') + (b - b') * (b - b')
  {
    ChannelsOf(r, g, b);
    ChannelsOf(r', g', b');
  }

  /** The default palette's channels are those of its RGB332 index on the longer scales, rounded down. */
  lemma DefaultPaletteScales(r: nat, g: nat, b: nat)
    requires r < 8 && g < 8 && b < 4
    ensures DefaultPalette()[r * 32 + g * 4 + b] == Rgb565(r * 31 / 7, g * 63 / 7, b * 31 / 3)
  {
    IndexParts(r, g, b);
  }

  lemma IndexParts(r: nat, g: nat, b: nat)
    requires r < 8 && g < 8 && b < 4
    ensures var i := r * 32 + g * 4 + b; i < 256 && i / 32 == r && i / 4 % 8 == g && i % 4 == b
  {
  }

  /** Colours at no distance are the same, and a colour of the default palette is nearest to itself alone. */
  lemma NearestIsExact(i: uint8)
    ensures Nearest(DefaultPalette(), DefaultPalette()[i]) == i
  {
    hide Distance, Nearest, CubeColour;
    var p := DefaultPalette();
    var k := Nearest(p, p[i]);
    SameColour(p[i], p[i]);
    SameColour(p[i], p[k]);
    PaletteDistinct(i, k);
  }

  lemma SameColour(c: uint16, d: uint16)
    ensures Distance(c, d) == 0 <==> c == d
  {
    FromChannels(c);
    FromChannels(d);
    var r, g, b := c / 0x800, c / 0x20 % 64, c % 32;
    var r', g', b' := d / 0x800, d / 0x20 % 64, d % 32;
    hide Rgb565, Distance;
    DistanceOfChannels(r, g, b, r', g', b');
    SumOfSquares(r - r', g - g', b - b');
  }

  lemma FromChannels(c: uint16)
    ensures c / 0x800 < 32 && c == Rgb565(c / 0x800, c / 0x20 % 64, c % 32)
  {
  }

  lemma SumOfSquares(x: int, y: int, z: int)
    ensures x * x + y * y + z * z == 0 <==> x == y == z == 0
  {
    Square(x);
    Square(y);
    Square(z);
  }

  lemma Square(n: int)
    ensures n * n >= 0 && (n * n == 0 <==> n == 0)
  {
  }

  lemma PaletteDistinct(i: uint8, k: uint8)
    ensures DefaultPalette()[i] == DefaultPalette()[k] <==> i == k
  {
    hide CubeColour;
    Digits(i);
    Digits(k);
    DefaultPaletteScales(i / 32, i / 4 % 8, i % 4);
    DefaultPaletteScales(k / 32, k / 4 % 8, k % 4);
    if DefaultPalette()[i] == DefaultPalette()[k] {
      ScaledApart(i / 32, i / 4 % 8, i % 4, k / 32, k / 4 % 8, k % 4);
    }
  }

  lemma Digits(i: uint8)
    ensures i == i / 32 * 32 + i / 4 % 8 * 4 + i % 4 && i / 32 < 8
  {
  }

  lemma ScaledApart(r: nat, g: nat, b: nat, r': nat, g': nat, b': nat)
    requires r < 8 && g < 8 && b < 4 && r' < 8 && g' < 8 && b' < 4
    requires Rgb565(r * 31 / 7, g * 63 / 7, b * 31 / 3) == Rgb565(r' * 31 / 7, g' * 63 / 7, b' * 31 / 3)
    ensures r == r' && g == g' && b == b'
  {
    hide Rgb565;
    ChannelsOf(r * 31 / 7, g * 63 / 7, b * 31 / 3);
    ChannelsOf(r' * 31 / 7, g' * 63 / 7, b' * 31 / 3);
  }

  predicate OnScreen(x: int, y: int) {
    0 <= x < WIDTH && 0 <= y < HEIGHT
  }

  predicate InRect(x: int, y: int, w: int, h: int, px: int, py: int) {
    x <= px < x + w && y <= py < y + h
  }

  function Clamp(v: int, lo: int, hi: int): int {
    if v < lo then lo else if v > hi then hi else v
  }

  /** Pixel `px` of a row of eight, most significant bit first. */
  predicate BitSet(b: bv8, px: int)
    requires 0 <= px < 8
  {
    (b >> (7 - px)) & 1 == 1
  }

  /** A row of eight pixels as the byte that draws it: the leftmost pixel is the most significant bit. */
  function RowByte(row: seq<bool>): bv8
    requires |row| == 8
  {
    (if row[0] then 0x80 else 0) | (if row[1] then 0x40 else 0) | (if row[2] then 0x20 else 0)
    | (if row[3] then 0x10 else 0) | (if row[4] then 0x08 else 0) | (if row[5] then 0x04 else 0)
    | (if row[6] then 0x02 else 0) | (if row[7] then 0x01 else 0)
  }

  /** A byte shows the row it was made from, left to right. */
  lemma RowShows(row: seq<bool>, px: nat)
    requires |row| == 8 && px < 8
    ensures BitSet(RowByte(row), px) <==> row[px]
  {
    match px
    case 0 =>
    case 1 =>
    case 2 =>
    case 3 =>
    case 4 =>
    case 5 =>
    case 6 =>
    case 7 =>
  }

  class Framebuffer {
    const pixels: array2<uint8>
    var palette: Palette

    ghost predicate Valid() {
      pixels.Length0 == HEIGHT && pixels.Length1 == WIDTH
    }

    function At(x: int, y: int): uint8
      requires Valid() && OnScreen(x, y)
      reads pixels
    {
      pixels[y, x]
    }

    constructor ()
      ensures Valid() && fresh(pixels) && palette == DefaultPalette()
      ensures forall x, y | OnScreen(x, y) :: At(x, y) == 0
    {
      pixels := new uint8[HEIGHT, WIDTH]((_, _) => 0);
      palette := DefaultPalette();
    }

    method SetPalette(i: uint32, c: uint16)
      modifies this`palette
      ensures palette == if i < 256 then old(palette)[i := c] else old(palette)
    {
      if i < 256 { palette := palette[i := c]; }
    }

    /** nearest: scan with a running minimum, stopping at an exact match. */
    method FindNearest(c: uint16) returns (bi: uint8)
      ensures bi == Nearest(palette, c)
    {
      hide Distance;
      bi := 0;
      var br := Distance(c, palette[0]) + 1;
      for i := 0 to 256
        invariant bi < 256 && (i == 0 ==> bi == 0 && br == Distance(c, palette[0]) + 1)
        invariant i > 0 ==> bi < i && br == Distance(c, palette[bi])
        invariant i > 0 ==> forall k | 0 <= k < i :: br <= Distance(c, palette[k])
        invariant i > 0 ==> forall k | 0 <= k < bi :: br < Distance(c, palette[k])
      {
        var d := Distance(c, palette[i]);
        if d < br {
          br := d;
          bi := i;
          if d == 0 { break; }
        }
      }
      NearestUnique(palette, c, bi);
    }

    method PixelIndexed(x: int, y: int, i: uint8)
      requires Valid()
      modifies pixels
      ensures forall px, py | OnScreen(px, py) :: At(px, py) == if px == x && py == y then i else old(At(px, py))
    {
      if 0 <= x < WIDTH && 0 <= y < HEIGHT { pixels[y, x] := i; }
    }

    /** Fill a rectangle clipped to the screen. */
    method RectIndexed(x: int, y: int, w: int, h: int, i: uint8)
      requires Valid()
      modifies pixels
      ensures forall px, py | OnScreen(px, py) ::
        At(px, py) == if InRect(x, y, w, h, px, py) then i else old(At(px, py))
    {
      if w <= 0 || h <= 0 { return; }
      var x0, y0 := Clamp(x, 0, WIDTH), Clamp(y, 0, HEIGHT);
      var x1, y1 := Clamp(x + w, 0, WIDTH), Clamp(y + h, 0, HEIGHT);
      if x0 >= x1 || y0 >= y1 { return; }
      for yy := y0 to y1
        invariant forall px, py | OnScreen(px, py) ::
          At(px, py) == if x0 <= px < x1 && y0 <= py < yy then i else old(At(px, py))
      {
        for xx := x0 to x1
          invariant forall px, py | OnScreen(px, py) ::
            At(px, py) == if x0 <= px < x1 && y0 <= py <= yy && (py < yy || px < xx) then i else old(At(px, py))
        {
          pixels[yy, xx] := i;
        }
      }
    }

    /**
     * Draw a bitmap of w by h bits packed without padding, clipped to the screen: set bits in the foreground, clear
     * bits in the background if there is one. A bitmap that is too short ends the drawing.
     */
    method Draw1BPP(x: int, y: int, w: int, h: int, bits: seq<bv8>, fg: uint16, bg: Option<uint16>)
      requires Valid()
      modifies pixels
      ensures forall px, py | OnScreen(px, py) ::
        At(px, py) == if InRect(x, y, w, h, px, py) then
                        Painted(bits, BitIndex(w, px - x, py - y), Nearest(palette, fg), NearestOf(palette, bg),
                                old(At(px, py)))
                      else old(At(px, py))
    {
      hide BitSet, Nearest, BitIndex;
      var fi := FindNearest(fg);
      var bi: Option<uint8> := None;
      if bg.Some? {
        var i := FindNearest(bg.value);
        bi := Some(i);
      }
      for row := 0 to Max(h, 0)
        invariant forall px, py | OnScreen(px, py) ::
          At(px, py) == if InRect(x, y, w, row, px, py) then
                          Painted(bits, BitIndex(w, px - x, py - y), fi, bi, old(At(px, py)))
                        else old(At(px, py))
      {
        for column := 0 to Max(w, 0)
          invariant forall px, py | OnScreen(px, py) ::
            At(px, py) == if InRect(x, y, w, row, px, py) || InRect(x, y + row, column, 1, px, py) then
                            Painted(bits, BitIndex(w, px - x, py - y), fi, bi, old(At(px, py)))
                          else old(At(px, py))
        {
          var bit := BitIndex(w, column, row);
          BitIndexNatural(w, column, row);
          if bit / 8 >= |bits| {
            BitsRunOut(w, column, row, |bits|);
            return;
          }
          if BitSet(bits[bit / 8], bit % 8) {
            PixelIndexed(x + column, y + row, fi);
          } else if bi.Some? {
            PixelIndexed(x + column, y + row, bi.value);
          }
        }
      }
    }
  }

  /** The screen is the whole buffer, 320 by 200: no pixel of it is out of the drawing calls' reach. */
  lemma ScreenIsTheBuffer(fb: Framebuffer, x: int, y: int)
    requires fb.Valid()
    ensures OnScreen(x, y) <==> 0 <= x < fb.pixels.Length1 && 0 <= y < fb.pixels.Length0
    ensures fb.pixels.Length1 == 320 && fb.pixels.Length0 == 200
  {
  }

  /** The bit of a bitmap w bits wide that column dx of row dy shows. */
  function BitIndex(w: int, dx: int, dy: int): int {
    dy * w + dx
  }

  function NearestOf(palette: Palette, c: Option<uint16>): Option<uint8> {
    if c.Some? then Some(Nearest(palette, c.value)) else None
  }

  /** What bit k paints over `before`. */
  function Painted(bits: seq<bv8>, k: int, fi: uint8, bi: Option<uint8>, before: uint8): uint8 {
    if k < 0 || k / 8 >= |bits| then before
    else if BitSet(bits[k / 8], k % 8) then fi
    else if bi.Some? then bi.value
    else before
  }

  lemma BitIndexNatural(w: int, dx: int, dy: int)
    requires 0 <= dx < w && 0 <= dy
    ensures BitIndex(w, dx, dy) >= 0
  {
  }

  /** From the first bit that is missing on, all bits in drawing order are missing. */
  lemma BitsRunOut(w: int, dx: int, dy: int, size: nat)
    requires 0 <= dx < w && 0 <= dy && BitIndex(w, dx, dy) / 8 >= size
    ensures forall px, py | (py > dy && 0 <= px < w) || (py == dy && dx <= px) :: BitIndex(w, px, py) / 8 >= size
  {
    forall px, py | (py > dy && 0 <= px < w) || (py == dy && dx <= px)
      ensures BitIndex(w, px, py) / 8 >= size
    {
      if py > dy { LaterRow(w, dx, dy, px, py); }
    }
  }

  lemma LaterRow(w: int, dx: int, dy: int, px: int, py: int)
    requires 0 <= dx < w && 0 <= px && py > dy
    ensures py * w + px >= dy * w + dx
  {
    Distributes(dy, py - dy, w);
    AtLeastOnce(py - dy, w);
  }

  lemma Distributes(a: int, b: int, w: int)
    ensures (a + b) * w == a * w + b * w
  {
  }

  lemma {:induction false} AtLeastOnce(n: nat, w: nat)
    requires n > 0
    ensures n * w >= w
  {
    if n == 1 {
    } else {
      AtLeastOnce(n - 1, w);
      Distributes(n - 1, 1, w);
    }
  }
}
