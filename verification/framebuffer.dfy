/** `RawFrameBuffer`: colour packing, pixel addressing and the pixel, row
    and rectangle writes. The mapped bitmap is a sequence of `u32` words:
    byte offset `o` of the mapping is word `o / 4`, and every `u32` write
    must be at a multiple of 4 (an aligned `ptr::write`). */
module FrameBuffer {
  import opened MachineInts
  import opened Wrappers
  import opened Bits
  import opened Geometry
  import Abi
  import Utils

  datatype FrameBufferDimensions = FrameBufferDimensions(height: u32, width: u32, pitch: u32)

  datatype FrameBufferConfig = FrameBufferConfig(
    redMaskShift: u8, redMaskSize: u8,
    greenMaskShift: u8, greenMaskSize: u8,
    blueMaskShift: u8, blueMaskSize: u8,
    bpp: u16)

  datatype RawFrameBuffer = RawFrameBuffer(buf: Abi.RawBitMap, dim: FrameBufferDimensions, config: FrameBufferConfig)

  // ------------------------------------------------------------ colours

  /** Every size and shift is a valid `u32` shift amount (a shift by 32 or
      more overflows). */
  predicate ValidConfig(c: FrameBufferConfig) {
    && c.redMaskShift < WIDTH && c.redMaskSize < WIDTH
    && c.greenMaskShift < WIDTH && c.greenMaskSize < WIDTH
    && c.blueMaskShift < WIDTH && c.blueMaskSize < WIDTH
  }

  /** One channel of `get_rgb_pixel`: `((c as u32) & ((1 << size) - 1)) << shift`. */
  function Channel(c: u8, size: u8, shift: u8): Word
    requires size < WIDTH && shift < WIDTH
  {
    Shl(And(FromU32(c), LowOnes(size)), shift)
  }

  /** Position `i` lies in the field of `size` bits at `shift`, and the
      matching bit of the component is set. */
  predicate InField(i: nat, size: nat, shift: nat, c: u8) {
    shift <= i < shift + size && Bit(c, i - shift)
  }

  /** `FrameBufferConfig::get_rgb_pixel`: the three channels OR-ed together.
      Bit `i` of the packed pixel is set exactly when it lies in one of the
      three fields and the matching bit of that component is set. */
  function GetRgbPixel(cfg: FrameBufferConfig, color: Rgb): (p: Word)
    requires ValidConfig(cfg)
    ensures forall i :: 0 <= i < WIDTH ==>
      (p[i] == (|| InField(i, cfg.redMaskSize, cfg.redMaskShift, color.r)
                || InField(i, cfg.greenMaskSize, cfg.greenMaskShift, color.g)
                || InField(i, cfg.blueMaskSize, cfg.blueMaskShift, color.b)))
  {
    Or(Or(Channel(color.r, cfg.redMaskSize, cfg.redMaskShift),
          Channel(color.g, cfg.greenMaskSize, cfg.greenMaskShift)),
       Channel(color.b, cfg.blueMaskSize, cfg.blueMaskShift))
  }

  /** A masked component is the component modulo `2^size`, and a component
      already below `2^size` passes intact. */
  lemma MaskedChannel(c: u8, size: u8)
    requires size < WIDTH
    ensures And(FromU32(c), LowOnes(size)) == FromU32(c % Pow2(size))
    ensures c < Pow2(size) ==> And(FromU32(c), LowOnes(size)) == FromU32(c)
  {
    AndLowOnes(c, size);
    if c < Pow2(size) {
      DivMod(c, Pow2(size), 0, c);
    }
  }

  /** The value of the field of `size` bits at `shift`: `(pixel >> shift) & ((1 << size) - 1)`. */
  function ChannelOf(pixel: Word, size: u8, shift: u8): Word
    requires size < WIDTH && shift < WIDTH
  {
    And(Shr(pixel, shift), LowOnes(size))
  }

  /** The bit ranges `[s1, s1 + n1)` and `[s2, s2 + n2)` do not overlap. */
  predicate Apart(s1: nat, n1: nat, s2: nat, n2: nat) {
    s1 + n1 <= s2 || s2 + n2 <= s1
  }

  /** The three fields lie inside the word and do not overlap. */
  predicate DisjointFields(c: FrameBufferConfig) {
    && c.redMaskShift + c.redMaskSize <= WIDTH
    && c.greenMaskShift + c.greenMaskSize <= WIDTH
    && c.blueMaskShift + c.blueMaskSize <= WIDTH
    && Apart(c.redMaskShift, c.redMaskSize, c.greenMaskShift, c.greenMaskSize)
    && Apart(c.redMaskShift, c.redMaskSize, c.blueMaskShift, c.blueMaskSize)
    && Apart(c.greenMaskShift, c.greenMaskSize, c.blueMaskShift, c.blueMaskSize)
  }

  /** A field that holds the low bits of `c` reads back as `c % 2^size`. */
  lemma ReadField(pixel: Word, c: u8, size: u8, shift: u8)
    requires size < WIDTH && shift < WIDTH && shift + size <= WIDTH
    requires forall i :: shift <= i < shift + size ==> pixel[i] == Bit(c, i - shift)
    ensures ChannelOf(pixel, size, shift) == FromU32(c % Pow2(size))
  {
    forall i | 0 <= i < WIDTH
      ensures ChannelOf(pixel, size, shift)[i] == FromU32(c % Pow2(size))[i]
    {
      BitOfMod(c, size, i);
    }
  }

  /** With disjoint fields, each channel of a packed pixel reads back as the
      colour's component modulo `2^size`. */
  lemma UnpackPack(cfg: FrameBufferConfig, color: Rgb)
    requires ValidConfig(cfg) && DisjointFields(cfg)
    ensures ChannelOf(GetRgbPixel(cfg, color), cfg.redMaskSize, cfg.redMaskShift) == FromU32(color.r % Pow2(cfg.redMaskSize))
    ensures ChannelOf(GetRgbPixel(cfg, color), cfg.greenMaskSize, cfg.greenMaskShift) == FromU32(color.g % Pow2(cfg.greenMaskSize))
    ensures ChannelOf(GetRgbPixel(cfg, color), cfg.blueMaskSize, cfg.blueMaskShift) == FromU32(color.b % Pow2(cfg.blueMaskSize))
  {
    var pixel := GetRgbPixel(cfg, color);
    ReadField(pixel, color.r, cfg.redMaskSize, cfg.redMaskShift);
    ReadField(pixel, color.g, cfg.greenMaskSize, cfg.greenMaskShift);
    ReadField(pixel, color.b, cfg.blueMaskSize, cfg.blueMaskShift);
  }

  // ------------------------------------------------------- construction

  function Bpp(fb: RawFrameBuffer): u16 { fb.config.bpp }
  function Height(fb: RawFrameBuffer): u32 { fb.dim.height }
  function Width(fb: RawFrameBuffer): u32 { fb.dim.width }
  function Pitch(fb: RawFrameBuffer): u32 { fb.dim.pitch }

  /** `RawFrameBuffer::new()`, given the configuration the kernel reports
      and the result of mapping the device. The size `height * pitch` is a
      `u32` product, so it must not overflow. */
  function New(cfg: Abi.GFXConfig, fd: u32, mapped: Option<seq<Word>>): (r: Outcome<RawFrameBuffer>)
    requires cfg.height * cfg.pitch < TWO_32
    ensures r.Panicked? <==> mapped.None?
    ensures r.Returned? ==>
      && Height(r.value) == cfg.height && Width(r.value) == cfg.width && Pitch(r.value) == cfg.pitch
      && Bpp(r.value) == cfg.bpp
      && r.value.buf.mem == mapped.value && r.value.buf.size == cfg.height * cfg.pitch && r.value.buf.fd == fd
      && r.value.config.redMaskShift == cfg.redMaskShift && r.value.config.redMaskSize == cfg.redMaskSize
      && r.value.config.greenMaskShift == cfg.greenMaskShift && r.value.config.greenMaskSize == cfg.greenMaskSize
      && r.value.config.blueMaskShift == cfg.blueMaskShift && r.value.config.blueMaskSize == cfg.blueMaskSize
  {
    match Abi.NewBitMap(cfg.height * cfg.pitch, fd, mapped)
    case Panicked => Panicked
    case Returned(buf) =>
      var dim := FrameBufferDimensions(cfg.height, cfg.width, cfg.pitch);
      var config := FrameBufferConfig(
        cfg.redMaskShift, cfg.redMaskSize,
        cfg.greenMaskShift, cfg.greenMaskSize,
        cfg.blueMaskShift, cfg.blueMaskSize,
        cfg.bpp);
      Returned(RawFrameBuffer(buf, dim, config))
  }

  // --------------------------------------------------------- addressing

  /** `y * pitch + x * (bpp / 8)` in unbounded arithmetic. */
  function Offset(fb: RawFrameBuffer, x: int, y: int): int {
    y * Pitch(fb) + x * (Bpp(fb) / 8)
  }

  /** `pixel_offset(x, y)`: the byte offset of a pixel. The `u32`
      arithmetic must not overflow. */
  function PixelOffset(fb: RawFrameBuffer, x: u32, y: u32): (r: u32)
    requires Offset(fb, x, y) < TWO_32
    ensures r == y * Pitch(fb) + x * (Bpp(fb) / 8)
  {
    var row, col := y * Pitch(fb), x * (Bpp(fb) / 8);
    assert 0 <= row && 0 <= col;
    row + col
  }

  /** A pixel that lies inside its row's `pitch` bytes is found again from
      its offset: the row by dividing by `pitch`, the column by dividing the
      rest by the pixel's byte width. */
  lemma PixelOffsetDecode(fb: RawFrameBuffer, x: u32, y: u32)
    requires Offset(fb, x, y) < TWO_32
    requires Bpp(fb) / 8 > 0 && (x + 1) * (Bpp(fb) / 8) <= Pitch(fb)
    ensures PixelOffset(fb, x, y) / Pitch(fb) == y
    ensures (PixelOffset(fb, x, y) % Pitch(fb)) / (Bpp(fb) / 8) == x
  {
    var b := Bpp(fb) / 8;
    assert x * b + b == (x + 1) * b;
    DivMod(PixelOffset(fb, x, y), Pitch(fb), y, x * b);
    DivMod(x * b, b, x, 0);
  }

  /** The `len` words from pixel `(x, y)` on are inside the mapping, and
      the first is `u32`-aligned. */
  predicate Writable(fb: RawFrameBuffer, x: int, y: int, len: nat) {
    && 0 <= Offset(fb, x, y) < TWO_32
    && Offset(fb, x, y) % 4 == 0
    && Offset(fb, x, y) / 4 + len <= |fb.buf.mem|
  }

  /** Two different pixels inside their rows occupy different words. */
  lemma DistinctPixelsDistinctWords(fb: RawFrameBuffer, x: u32, y: u32, x': u32, y': u32)
    requires Writable(fb, x, y, 1) && Writable(fb, x', y', 1)
    requires Bpp(fb) / 8 > 0 && (x + 1) * (Bpp(fb) / 8) <= Pitch(fb) && (x' + 1) * (Bpp(fb) / 8) <= Pitch(fb)
    requires x != x' || y != y'
    ensures PixelOffset(fb, x, y) / 4 != PixelOffset(fb, x', y') / 4
  {
    PixelOffsetDecode(fb, x, y);
    PixelOffsetDecode(fb, x', y');
  }

  /** Two frame buffers with the same layout and mapping length. */
  predicate SameShape(a: RawFrameBuffer, b: RawFrameBuffer) {
    && a.dim == b.dim && a.config == b.config
    && a.buf.size == b.buf.size && a.buf.fd == b.buf.fd
    && |a.buf.mem| == |b.buf.mem|
  }

  // ------------------------------------------------------------- writes

  /** `set_pixel(x, y, color)`: one `u32` write of the packed colour at the
      pixel's offset. */
  function SetPixel(fb: RawFrameBuffer, x: u32, y: u32, color: Rgb): (r: RawFrameBuffer)
    requires ValidConfig(fb.config) && Writable(fb, x, y, 1)
    ensures SameShape(fb, r)
    ensures r.buf.mem[PixelOffset(fb, x, y) / 4] == GetRgbPixel(fb.config, color)
    ensures forall j :: 0 <= j < |fb.buf.mem| && j != PixelOffset(fb, x, y) / 4 ==> r.buf.mem[j] == fb.buf.mem[j]
  {
    var offset := PixelOffset(fb, x, y);
    var pixel := GetRgbPixel(fb.config, color);
    fb.(buf := fb.buf.(mem := fb.buf.mem[offset / 4 := pixel]))
  }

  /** Reading back a pixel just set gives each component modulo its field's
      width. */
  lemma SetPixelReadBack(fb: RawFrameBuffer, x: u32, y: u32, color: Rgb)
    requires ValidConfig(fb.config) && DisjointFields(fb.config) && Writable(fb, x, y, 1)
    ensures var w := SetPixel(fb, x, y, color).buf.mem[PixelOffset(fb, x, y) / 4];
      && ChannelOf(w, fb.config.redMaskSize, fb.config.redMaskShift) == FromU32(color.r % Pow2(fb.config.redMaskSize))
      && ChannelOf(w, fb.config.greenMaskSize, fb.config.greenMaskShift) == FromU32(color.g % Pow2(fb.config.greenMaskSize))
      && ChannelOf(w, fb.config.blueMaskSize, fb.config.blueMaskShift) == FromU32(color.b % Pow2(fb.config.blueMaskSize))
  {
    UnpackPack(fb.config, color);
  }

  /** Setting one pixel leaves every other pixel of the buffer as it was. */
  lemma SetPixelKeepsOthers(fb: RawFrameBuffer, x: u32, y: u32, x': u32, y': u32, color: Rgb)
    requires ValidConfig(fb.config) && Writable(fb, x, y, 1) && Writable(fb, x', y', 1)
    requires Bpp(fb) / 8 > 0 && (x + 1) * (Bpp(fb) / 8) <= Pitch(fb) && (x' + 1) * (Bpp(fb) / 8) <= Pitch(fb)
    requires x != x' || y != y'
    ensures SetPixel(fb, x, y, color).buf.mem[PixelOffset(fb, x', y') / 4] == fb.buf.mem[PixelOffset(fb, x', y') / 4]
  {
    DistinctPixelsDistinctWords(fb, x, y, x', y');
  }

  /** `fill_row(x, y, len, color)`: `memset` of `len` words of the packed
      colour from the pixel's offset on. */
  method FillRow(fb: RawFrameBuffer, x: u32, y: u32, len: u32, color: Rgb) returns (r: RawFrameBuffer)
    requires ValidConfig(fb.config) && Writable(fb, x, y, len)
    ensures SameShape(fb, r)
    ensures Utils.IsMemset(fb.buf.mem, PixelOffset(fb, x, y) / 4, len, GetRgbPixel(fb.config, color), r.buf.mem)
  {
    var offset := PixelOffset(fb, x, y);
    var pixel := GetRgbPixel(fb.config, color);
    var mem := Utils.Memset(fb.buf.mem, offset / 4, len, pixel);
    r := fb.(buf := fb.buf.(mem := mem));
  }

  /** With 4-byte pixels, the `len` words a row fill writes are exactly the
      words of pixels `x .. x + len - 1` of row `y`. */
  lemma FillRowCoversPixels(fb: RawFrameBuffer, x: u32, y: u32, len: u32, color: Rgb, out: seq<Word>)
    requires ValidConfig(fb.config) && Writable(fb, x, y, len) && Bpp(fb) / 8 == 4
    requires Utils.IsMemset(fb.buf.mem, PixelOffset(fb, x, y) / 4, len, GetRgbPixel(fb.config, color), out)
    ensures forall col :: x <= col < x + len ==> Offset(fb, col, y) / 4 == PixelOffset(fb, x, y) / 4 + (col - x)
    ensures forall col :: x <= col < x + len ==> out[Offset(fb, col, y) / 4] == GetRgbPixel(fb.config, color)
  {
    forall col | x <= col < x + len
      ensures Offset(fb, col, y) / 4 == PixelOffset(fb, x, y) / 4 + (col - x)
    {
      var o := Offset(fb, x, y);
      assert Offset(fb, col, y) == o + 4 * (col - x);
      DivMod(o + 4 * (col - x), 4, o / 4 + (col - x), 0);
    }
  }

  /** Word `j` lies in one of the `height` rows from `y` on, each `width`
      words long starting at pixel `x`. */
  ghost predicate Covered(fb: RawFrameBuffer, x: int, y: int, height: int, width: int, j: int) {
    exists row :: y <= row < y + height && Offset(fb, x, row) / 4 <= j < Offset(fb, x, row) / 4 + width
  }

  /** `fill(area, color)`: `fill_row` on each row of the area, starting at
      the absolute value of its top-left corner. `i32::abs` of `i32::MIN`
      and the `u32` sum `y + height` overflow, so both are excluded. */
  method Fill(fb: RawFrameBuffer, area: Rectangle, color: Rgb) returns (r: RawFrameBuffer)
    requires ValidConfig(fb.config)
    requires area.topLeft.x != I32_MIN && area.topLeft.y != I32_MIN
    requires Abs(area.topLeft).y + area.size.height < TWO_32
    requires forall row :: Abs(area.topLeft).y <= row < Abs(area.topLeft).y + area.size.height ==>
      Writable(fb, Abs(area.topLeft).x, row, area.size.width)
    ensures SameShape(fb, r)
    ensures forall j :: 0 <= j < |fb.buf.mem| ==>
      r.buf.mem[j] == if Covered(fb, Abs(area.topLeft).x, Abs(area.topLeft).y, area.size.height, area.size.width, j)
                      then GetRgbPixel(fb.config, color) else fb.buf.mem[j]
  {
    var topLeft := Abs(area.topLeft);
    var x := I32AsU32(topLeft.x);
    var y := I32AsU32(topLeft.y);
    var width := area.size.width;
    var pixel := GetRgbPixel(fb.config, color);
    r := fb;
    var row: u32 := y;
    while row < y + area.size.height
      invariant y <= row <= y + area.size.height
      invariant SameShape(fb, r)
      invariant forall j :: 0 <= j < |fb.buf.mem| ==>
        r.buf.mem[j] == if Covered(fb, x, y, row - y, width, j) then pixel else fb.buf.mem[j]
    {
      assert Writable(fb, x, row, width);
      var next := FillRow(r, x, row, width, color);
      forall j | 0 <= j < |fb.buf.mem|
        ensures next.buf.mem[j] == if Covered(fb, x, y, row + 1 - y, width, j) then pixel else fb.buf.mem[j]
      {
        var start := Offset(fb, x, row) / 4;
        if start <= j < start + width {
          assert Covered(fb, x, y, row + 1 - y, width, j);
        } else if Covered(fb, x, y, row + 1 - y, width, j) {
          var other :| y <= other < y + (row + 1 - y) && Offset(fb, x, other) / 4 <= j < Offset(fb, x, other) / 4 + width;
          assert other != row;
          assert Covered(fb, x, y, row - y, width, j);
        }
      }
      r := next;
      row := row + 1;
    }
  }
}
