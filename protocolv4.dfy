/** Protocol variant 4: engravable bounds, the two setters, reset, and the
    engrave transaction with its image-to-bitmap encoder. */
module ProtocolV4 {
  import opened Wire

  /** The settle delay, in milliseconds, the firmware needs after a command. */
  const SettleDelay: nat := 20

  const ResetFrame: seq<byte> := [255, 4, 1, 0]
  const ReadyFrame: seq<byte> := [255, 6, 1, 1]
  const RepeatFrame: seq<byte> := [255, 1, 1, 0]

  /** One pixel as its three 8-bit colour channels (alpha is ignored). */
  datatype Pixel = Pixel(r: bv8, g: bv8, b: bv8)

  /** A pixel grid with bounds (0, 0)-(width, height) and a colour for every point. */
  datatype Image = Image(width: nat, height: nat, at: (nat, nat) -> Pixel)

  /** A pixel is engraved unless all three channels are 255. */
  predicate Ink(p: Pixel)
  {
    p.r & p.g & p.b < 255
  }

  /** Bytes per bitmap row: the width rounded up to whole bytes. */
  function Stride(w: nat): (s: nat)
    ensures s * 8 >= w && s * 8 - w < 8
  {
    if w % 8 == 0 then w / 8 else w / 8 + 1
  }

  /** The bit of column `k` (0 = leftmost) within its byte: `128 >> k`. */
  function Mask(k: nat): bv8
    requires k < 8
  {
    match k
    case 0 => 0x80 case 1 => 0x40 case 2 => 0x20 case 3 => 0x10
    case 4 => 0x08 case 5 => 0x04 case 6 => 0x02 case _ => 0x01
  }

  /** The contribution of pixel (x, y) to its byte, at bit position `k`. */
  function PixelBit(img: Image, x: int, y: int, k: nat): bv8
    requires k < 8
  {
    if 0 <= x < img.width && 0 <= y < img.height && Ink(img.at(x, y)) then Mask(k) else 0
  }

  /** Byte `c` of row `y` with only its first `n` columns packed. */
  function Partial(img: Image, y: int, c: int, n: nat): bv8
    requires n <= 8
  {
    if n == 0 then 0 else Partial(img, y, c, n - 1) | PixelBit(img, c * 8 + n - 1, y, n - 1)
  }

  /** The packed bitmap: `Stride(width)` bytes per row, rows top to bottom,
      eight pixels per byte with the leftmost in the most significant bit. */
  function Bitmap(img: Image): (bm: seq<bv8>)
    ensures |bm| == Stride(img.width) * img.height
  {
    var stride := Stride(img.width);
    seq(stride * img.height, i requires 0 <= i < stride * img.height => Partial(img, i / stride, i % stride, 8))
  }

  /** The table above is the source's shift `128 >> k`. */
  lemma MaskIsShift(k: nat)
    requires k < 8
    ensures Mask(k) == 128 >> k
  {
  }

  lemma MaskBit(j: nat, k: nat)
    requires j < 8 && k < 8
    ensures (Mask(j) & Mask(k) != 0) <==> j == k
  {
  }

  lemma OrBit(a: bv8, b: bv8, m: bv8)
    ensures ((a | b) & m != 0) <==> (a & m != 0 || b & m != 0)
  {
  }

  /** Bit `k` of a partially packed byte is set iff column `k` is packed and inked. */
  lemma {:induction false} PartialBit(img: Image, y: int, c: int, n: nat, k: nat)
    requires n <= 8 && k < 8
    ensures (Partial(img, y, c, n) & Mask(k) != 0) <==> k < n && PixelBit(img, c * 8 + k, y, k) != 0
  {
    if n > 0 {
      PartialBit(img, y, c, n - 1, k);
      MaskBit(n - 1, k);
      OrBit(Partial(img, y, c, n - 1), PixelBit(img, c * 8 + n - 1, y, n - 1), Mask(k));
    }
  }

  /** Columns at or past the image's right edge add nothing to a byte. */
  lemma {:induction false} PartialPastWidth(img: Image, y: int, c: int, n: nat)
    requires n <= 8 && (n == 8 || c * 8 + n >= img.width)
    ensures Partial(img, y, c, n) == Partial(img, y, c, 8)
    decreases 8 - n
  {
    if n < 8 {
      PartialPastWidth(img, y, c, n + 1);
    }
  }

  lemma {:induction false} MulAtLeast(m: int, d: int)
    requires m >= 1 && d > 0
    ensures m * d >= d
    decreases m
  {
    if m > 1 {
      MulAtLeast(m - 1, d);
      assert m * d == (m - 1) * d + d;
    }
  }

  /** Quotient and remainder are the only pair that rebuilds `a`. */
  lemma DivModUnique(a: int, d: int, q: int, r: int)
    requires d > 0 && 0 <= r < d && a == q * d + r
    ensures a / d == q && a % d == r
  {
    var q0, r0 := a / d, a % d;
    assert (q - q0) * d == r0 - r by {
      assert q * d - q0 * d == (q - q0) * d;
    }
    if q > q0 {
      MulAtLeast(q - q0, d);
    } else if q < q0 {
      assert (q0 - q) * d == r - r0;
      MulAtLeast(q0 - q, d);
    }
  }

  /** Every index of a `stride * h` buffer names a row below `h`. */
  lemma IndexRow(j: int, stride: nat, h: nat)
    requires 0 <= j < stride * h
    ensures stride > 0 && 0 <= j / stride < h && 0 <= j % stride < stride
  {
  }

  /** Row-major addressing: byte `c` of row `y` sits at `y * stride + c`. */
  lemma RowMajor(y: int, c: int, stride: nat, h: nat)
    requires 0 <= y < h && 0 <= c < stride
    ensures 0 <= y * stride + c < stride * h
    ensures (y * stride + c) / stride == y && (y * stride + c) % stride == c
  {
    DivModUnique(y * stride + c, stride, y, c);
    MulAtLeast(h - y, stride);
    assert stride * h == y * stride + (h - y) * stride;
  }

  /** The byte that holds pixel (x, y), counted from the image's own top-left
      corner, always lies inside the `stride * h` buffer. */
  lemma ByteIndexInRange(x: int, y: int, w: nat, h: nat)
    requires 0 <= x < w && 0 <= y < h
    ensures 0 <= y * Stride(w) + x / 8 < Stride(w) * h
  {
    RowMajor(y, x / 8, Stride(w), h);
  }

  /** The byte index as the packing loop computes it for a pixel at absolute
      position (x, y): the bounds' top-left corner is not subtracted. */
  function ByteIndexAsWritten(stride: nat, x: int, y: int): int
  {
    y * stride + x / 8
  }

  /** An 8x1 image whose bounds start at (0, 1): its one pixel row is at
      y = 1, so the index computed as written is 1, past the 1-byte buffer. */
  lemma AbsoluteIndexOverruns()
    ensures Stride(8) * 1 == 1
    ensures ByteIndexAsWritten(Stride(8), 0, 1) == 1
    ensures ByteIndexAsWritten(Stride(8), 0, 1) >= Stride(8) * 1
  {
  }

  /** Bit `k` of byte `c` in row `y` is set iff pixel (8c + k, y) is inside the image and inked. */
  lemma BitmapBitAt(img: Image, y: nat, c: nat, k: nat)
    requires c < Stride(img.width) && k < 8 && y < img.height
    ensures y * Stride(img.width) + c < |Bitmap(img)|
    ensures (Bitmap(img)[y * Stride(img.width) + c] & Mask(k) != 0) <==> c * 8 + k < img.width && Ink(img.at(c * 8 + k, y))
  {
    RowMajor(y, c, Stride(img.width), img.height);
    PartialBit(img, y, c, 8, k);
  }

  /** The bitmap marks exactly the inked pixels: bit `7 - x % 8` of byte
      `y * stride + x / 8` is set iff (x, y) is inside the image and inked,
      so the padding bits past the width are clear. */
  lemma BitmapBit(img: Image, x: nat, y: nat)
    requires x < Stride(img.width) * 8 && y < img.height
    ensures y * Stride(img.width) + x / 8 < |Bitmap(img)|
    ensures (Bitmap(img)[y * Stride(img.width) + x / 8] & Mask(x % 8) != 0) <==> x < img.width && Ink(img.at(x, y))
  {
    BitmapBitAt(img, y, x / 8, x % 8);
    assert (x / 8) * 8 + x % 8 == x;
  }

  /** Number of leading columns of byte (row, col) already packed once the
      loop has done every column before `x`, and rows before `y` of column `x`. */
  function Filled(w: nat, row: int, col: int, x: nat, y: nat): (n: nat)
    ensures n <= 8
  {
    (if x >= col * 8 + 8 then 8 else if x <= col * 8 then 0 else x - col * 8)
    + (if x < w && col == x / 8 && row < y then 1 else 0)
  }

  /** Every byte of `s` holds the columns the loop has packed so far. */
  ghost predicate PackedUpTo(img: Image, s: seq<bv8>, stride: nat, x: nat, y: nat)
  {
    stride > 0 ==>
      forall i :: 0 <= i < |s| ==> s[i] == Partial(img, i / stride, i % stride, Filled(img.width, i / stride, i % stride, x, y))
  }

  /** Visiting pixel (x, y) packs one more column of its own byte and
      leaves every other byte's progress unchanged. */
  lemma FilledStep(w: nat, row: int, col: int, x: nat, y: nat)
    requires x < w
    ensures if row == y && col == x / 8 then
        Filled(w, row, col, x, y) == x % 8 && Filled(w, row, col, x, y + 1) == x % 8 + 1
      else
        Filled(w, row, col, x, y + 1) == Filled(w, row, col, x, y)
  {
  }

  /** Visiting pixel (x, y) advances byte (row, col) exactly when it is that pixel's byte. */
  lemma PackPixelAt(img: Image, x: nat, y: nat, row: int, col: int, before: bv8, after: bv8)
    requires x < img.width && y < img.height
    requires before == Partial(img, row, col, Filled(img.width, row, col, x, y))
    requires after == if row == y && col == x / 8 && Ink(img.at(x, y)) then before | Mask(x % 8) else before
    ensures after == Partial(img, row, col, Filled(img.width, row, col, x, y + 1))
  {
    FilledStep(img.width, row, col, x, y);
    if row == y && col == x / 8 {
      var n := x % 8;
      assert Filled(img.width, row, col, x, y + 1) == n + 1;
      assert before == Partial(img, y, col, n);
      assert after == before | PixelBit(img, x, y, n);
      assert col * 8 + (n + 1) - 1 == x;
    }
  }

  /** Index `j` is the byte of pixel (x, y) iff it lies in row `y` at column `x / 8`. */
  lemma SameByte(j: int, stride: nat, x: nat, y: nat)
    requires 0 <= j && x / 8 < stride
    ensures j == y * stride + x / 8 <==> j / stride == y && j % stride == x / 8
  {
    if j == y * stride + x / 8 {
      DivModUnique(j, stride, y, x / 8);
    }
  }

  /** Visiting pixel (x, y) keeps the buffer packed up to the next pixel. */
  lemma PackPixel(img: Image, before: seq<bv8>, after: seq<bv8>, x: nat, y: nat)
    requires x < img.width && y < img.height
    requires |before| == Stride(img.width) * img.height
    requires PackedUpTo(img, before, Stride(img.width), x, y)
    requires y * Stride(img.width) + x / 8 < |before|
    requires after == if Ink(img.at(x, y)) then before[y * Stride(img.width) + x / 8 := before[y * Stride(img.width) + x / 8] | Mask(x % 8)] else before
    ensures PackedUpTo(img, after, Stride(img.width), x, y + 1)
  {
    var stride := Stride(img.width);
    forall j | 0 <= j < |after|
      ensures after[j] == Partial(img, j / stride, j % stride, Filled(img.width, j / stride, j % stride, x, y + 1))
    {
      SameByte(j, stride, x, y);
      PackPixelAt(img, x, y, j / stride, j % stride, before[j], after[j]);
    }
  }

  /** Finishing column `x` on every row is starting column `x + 1`. */
  lemma PackColumn(img: Image, s: seq<bv8>, x: nat)
    requires x < img.width
    requires |s| == Stride(img.width) * img.height
    requires PackedUpTo(img, s, Stride(img.width), x, img.height)
    ensures PackedUpTo(img, s, Stride(img.width), x + 1, 0)
  {
    var stride, h := Stride(img.width), img.height;
    forall j | 0 <= j < |s|
      ensures s[j] == Partial(img, j / stride, j % stride, Filled(img.width, j / stride, j % stride, x + 1, 0))
    {
      IndexRow(j, stride, h);
      assert Filled(img.width, j / stride, j % stride, x, h) == Filled(img.width, j / stride, j % stride, x + 1, 0);
    }
  }

  /** Once every column is packed the buffer is the bitmap. */
  lemma PackDone(img: Image, s: seq<bv8>)
    requires |s| == Stride(img.width) * img.height
    requires PackedUpTo(img, s, Stride(img.width), img.width, 0)
    ensures s == Bitmap(img)
  {
    var stride := Stride(img.width);
    forall i | 0 <= i < |s|
      ensures s[i] == Bitmap(img)[i]
    {
      PartialPastWidth(img, i / stride, i % stride, Filled(img.width, i / stride, i % stride, img.width, 0));
    }
  }

  /** Packs the image into a zeroed buffer, pixel by pixel, column by column. */
  method PackBitmap(img: Image) returns (data: seq<bv8>)
    ensures data == Bitmap(img)
  {
    var w, h := img.width, img.height;
    var stride := Stride(w);
    var buf := new bv8[stride * h](_ => 0);
    for x := 0 to w
      invariant PackedUpTo(img, buf[..], stride, x, 0)
    {
      for y := 0 to h
        invariant PackedUpTo(img, buf[..], stride, x, y)
      {
        ByteIndexInRange(x, y, w, h);
        var i := y * stride + x / 8;
        ghost var before := buf[..];
        if Ink(img.at(x, y)) {
          buf[i] := buf[i] | Mask(x % 8);
        }
        PackPixel(img, before, buf[..], x, y);
      }
      PackColumn(img, buf[..], x);
    }
    PackDone(img, buf[..]);
    data := buf[..];
  }

  /** Offset that centres `size` within `bound`. */
  function Centre(bound: int, size: nat): (offset: int)
    requires size <= bound
    ensures 0 <= offset && offset + size + offset <= bound <= offset + size + offset + 1
  {
    (bound - size) / 2
  }

  /** The frame that places the image's top-left corner at (x, y), each
      coordinate split into hundreds and remainder. */
  function OriginFrame(x: int, y: int): seq<byte>
  {
    [255, 110, 1, ToByte(x / 100), ToByte(x % 100), ToByte(y / 100), ToByte(y % 100)]
  }

  /** The frame that announces the uploaded width and height, split the same way. */
  function SizeFrame(w: int, h: int): seq<byte>
  {
    [255, 110, 2, ToByte(w / 100), ToByte(w % 100), ToByte(h / 100), ToByte(h % 100)]
  }

  /** `n` repetitions of the repeat command, each gated on the next completed pass. */
  function Repeats(n: int): seq<Action>
    decreases n
  {
    if n <= 0 then [] else Repeats(n - 1) + [Send(RepeatFrame), Await(EngravingDoneKind)]
  }

  lemma {:induction false} RepeatsShape(n: int)
    ensures |Repeats(n)| == if n <= 0 then 0 else 2 * n
    ensures forall k :: 0 <= k < |Repeats(n)| ==>
      Repeats(n)[k] == if k % 2 == 0 then Send(RepeatFrame) else Await(EngravingDoneKind)
    decreases n
  {
    if n > 0 {
      RepeatsShape(n - 1);
    }
  }

  /** The first pass: geometry, the announcement of the upload, the wait
      for the device to accept it, the bitmap, and the wait for the pass to end. */
  function FirstPass(origin: seq<byte>, size: seq<byte>, bits: seq<byte>): seq<Action>
  {
    [ Send(origin), Send(size), Delay(SettleDelay), Send(ReadyFrame), Await(ReadyForUploadKind),
      Delay(SettleDelay), Send(bits), Await(EngravingDoneKind) ]
  }

  /** Sends the geometry, waits for the device to accept an upload, sends the
      bitmap and waits for the first pass to finish. */
  method UploadPass(link: Link, origin: seq<byte>, size: seq<byte>, bits: seq<byte>)
    modifies link
    ensures link.trace == old(link.trace) + FirstPass(origin, size, bits)
  {
    link.Send(origin);
    link.Send(size);
    link.Sleep(SettleDelay);
    link.Send(ReadyFrame);
    link.Await(ReadyForUploadKind);
    link.Sleep(SettleDelay);
    link.Send(bits);
    link.Await(EngravingDoneKind);
  }

  /** Passes 2 to `times`: each re-runs the resident bitmap and waits for it to finish. */
  method RepeatPasses(link: Link, times: int)
    modifies link
    ensures link.trace == old(link.trace) + Repeats(times - 1)
  {
    var i := 1;
    while i < times
      invariant 1 <= i && (i <= times || i == 1)
      invariant link.trace == old(link.trace) + Repeats(i - 1)
    {
      link.Send(RepeatFrame);
      link.Await(EngravingDoneKind);
      i := i + 1;
    }
  }

  /** The variant bound to a session: the engravable area in pixels. */
  datatype ProtocolV4 = ProtocolV4(width: int, height: int)
  {
    function GetSize(): (size: (int, int))
      ensures size.0 == width && size.1 == height
    {
      (width, height)
    }

    /** Burn time in milliseconds: rejected outside [1, 240], otherwise one
      frame followed by the settle delay. */
    function SetBurnTime(burn: int): (r: Result<seq<Action>>)
      ensures r.Err? <==> burn < 1 || burn > 240
      ensures r.Err? ==> r.error == BurnTimeOutOfRange
      ensures r.Ok? ==> r.value == [Send([255, 5, burn, 0]), Delay(SettleDelay)]
    {
      if burn < 1 || burn > 240 then Err(BurnTimeOutOfRange)
      else Ok([Send([255, 5, ToByte(burn), 0]), Delay(SettleDelay)])
    }

    /** Laser power in percent: rejected outside [1, 100], otherwise one
      frame followed by the settle delay. */
    function SetLaserPower(power: int): (r: Result<seq<Action>>)
      ensures r.Err? <==> power < 1 || power > 100
      ensures r.Err? ==> r.error == LaserPowerOutOfRange
      ensures r.Ok? ==> r.value == [Send([255, 13, 0, power]), Delay(SettleDelay)]
    {
      if power < 1 || power > 100 then Err(LaserPowerOutOfRange)
      else Ok([Send([255, 13, 0, ToByte(power)]), Delay(SettleDelay)])
    }

    /** Reset is fire-and-forget: one frame, no wait, no delay. */
    function Reset(): (r: seq<Action>)
      ensures r == [Send(ResetFrame)] && forall a :: a in r ==> !a.Await?
    {
      [Send(ResetFrame)]
    }

    /** The first pass of `img`, centred in the engravable area. */
    function Upload(img: Image): seq<Action>
      requires img.width <= width && img.height <= height
    {
      FirstPass(OriginFrame(Centre(width, img.width), Centre(height, img.height)),
                SizeFrame(Stride(img.width) * 8, img.height),
                Octets(Bitmap(img)))
    }

    /** What `Engrave(img, times)` does: a size error with nothing sent, or
      the first pass followed by `times - 1` repeats. */
    function EngraveTrace(img: Image, times: int): (r: Result<seq<Action>>)
      ensures r.Err? <==> img.width > width || img.height > height
      ensures r.Err? ==> r.error == ImageTooBig(width, height)
    {
      if img.width > width || img.height > height then Err(ImageTooBig(width, height))
      else Ok(Upload(img) + Repeats(times - 1))
    }

    /** Runs the engrave transaction over the session's link. */
    method Engrave(link: Link, img: Image, times: int) returns (err: Option<Error>)
      modifies link
      ensures EngraveTrace(img, times).Err? ==>
        err == Some(EngraveTrace(img, times).error) && link.trace == old(link.trace)
      ensures EngraveTrace(img, times).Ok? ==>
        err == None && link.trace == old(link.trace) + EngraveTrace(img, times).value
    {
      var (gw, gh) := GetSize();
      var w, h := img.width, img.height;
      if w > gw || h > gh {
        return Some(ImageTooBig(gw, gh));
      }
      var stride := Stride(w);
      var data := PackBitmap(img);
      var x, y := (gw - w) / 2, (gh - h) / 2;
      UploadPass(link, OriginFrame(x, y), SizeFrame(stride * 8, h), Octets(data));
      RepeatPasses(link, times);
      err := None;
    }
  }

  /** Two bytes with the same eight bits are equal. */
  lemma SameBits(a: bv8, b: bv8)
    requires forall k :: 0 <= k < 8 ==> (a & Mask(k) != 0) == (b & Mask(k) != 0)
    ensures a == b
  {
    assert (a & Mask(0) != 0) == (b & Mask(0) != 0);
    assert (a & Mask(1) != 0) == (b & Mask(1) != 0);
    assert (a & Mask(2) != 0) == (b & Mask(2) != 0);
    assert (a & Mask(3) != 0) == (b & Mask(3) != 0);
    assert (a & Mask(4) != 0) == (b & Mask(4) != 0);
    assert (a & Mask(5) != 0) == (b & Mask(5) != 0);
    assert (a & Mask(6) != 0) == (b & Mask(6) != 0);
    assert (a & Mask(7) != 0) == (b & Mask(7) != 0);
  }

  /** A 24x4 image whose left 12 columns are black and the rest white. */
  function HalfBlack(): Image
  {
    Image(24, 4, (x: nat, y: nat) => if x < 12 then Pixel(0, 0, 0) else Pixel(255, 255, 255))
  }

  /** Byte `c` of every row of the half-black image is `ff`, `f0`, `00` for `c` = 0, 1, 2. */
  lemma HalfBlackByte(y: nat, c: nat)
    requires y < 4 && c < 3
    ensures Bitmap(HalfBlack())[y * 3 + c] == [0xff, 0xf0, 0x00][c]
  {
    var img := HalfBlack();
    var expected: bv8 := [0xff, 0xf0, 0x00][c];
    forall k | 0 <= k < 8
      ensures (Bitmap(img)[y * 3 + c] & Mask(k) != 0) == (expected & Mask(k) != 0)
    {
      BitmapBitAt(img, y, c, k);
    }
    SameBits(Bitmap(img)[y * 3 + c], expected);
  }

  /** The half-black image packs to `ff f0 00` on every row. */
  lemma HalfBlackBitmap()
    ensures Octets(Bitmap(HalfBlack())) == [0xff, 0xf0, 0x00, 0xff, 0xf0, 0x00, 0xff, 0xf0, 0x00, 0xff, 0xf0, 0x00]
  {
    var bm := Bitmap(HalfBlack());
    assert |bm| == 12;
    forall i | 0 <= i < 12
      ensures bm[i] as int == [0xff, 0xf0, 0x00][i % 3]
    {
      HalfBlackByte(i / 3, i % 3);
    }
  }

  lemma StrideExamples()
    ensures Stride(8) == 1 && Stride(9) == 2 && Stride(16) == 2 && Stride(0) == 0
  {
  }

  /** The ordered trace of an accepted engrave: origin, size, delay, ready
      frame, wait for readiness, delay, bitmap, wait for the pass, and then
      `times - 1` (at least zero) repeat frames, each followed by a wait. */
  lemma EngraveTraceShape(p: ProtocolV4, img: Image, times: int)
    requires img.width <= p.width && img.height <= p.height
    ensures p.EngraveTrace(img, times).Ok?
    ensures var t := p.EngraveTrace(img, times).value;
      var x0, y0 := (p.width - img.width) / 2, (p.height - img.height) / 2;
      var stride := Stride(img.width);
      |t| == 8 + 2 * (if times > 1 then times - 1 else 0) &&
      t[0] == Send(OriginFrame(x0, y0)) &&
      t[1] == Send(SizeFrame(stride * 8, img.height)) &&
      t[2] == Delay(20) &&
      t[3] == Send([255, 6, 1, 1]) &&
      t[4] == Await(ReadyForUploadKind) &&
      t[5] == Delay(20) &&
      t[6] == Send(Octets(Bitmap(img))) &&
      t[7] == Await(EngravingDoneKind) &&
      forall k :: 8 <= k < |t| ==> t[k] == if k % 2 == 0 then Send([255, 1, 1, 0]) else Await(EngravingDoneKind)
  {
    RepeatsShape(times - 1);
    var t := p.EngraveTrace(img, times).value;
    assert t == p.Upload(img) + Repeats(times - 1);
    forall k | 8 <= k < |t|
      ensures t[k] == Repeats(times - 1)[k - 8]
    {
    }
  }

  /** With bounds up to 550 the hundreds/remainder fields need no truncation
      and give back the centred origin, the byte-rounded width and the height. */
  lemma GeometryFrames(p: ProtocolV4, img: Image)
    requires 0 <= p.width <= 550 && 0 <= p.height <= 550
    requires img.width <= p.width && img.height <= p.height
    ensures var x0, y0 := (p.width - img.width) / 2, (p.height - img.height) / 2;
      var w8, h := Stride(img.width) * 8, img.height;
      var o, s := OriginFrame(x0, y0), SizeFrame(w8, h);
      o == [255, 110, 1, x0 / 100, x0 % 100, y0 / 100, y0 % 100] &&
      s == [255, 110, 2, w8 / 100, w8 % 100, h / 100, h % 100] &&
      Join(o[3], o[4]) == x0 && Join(o[5], o[6]) == y0 &&
      Join(s[3], s[4]) == w8 && Join(s[5], s[6]) == h
  {
  }

  /** Bounds 490x490 and a 100x50 image: origin (195, 220), size 104x50. */
  lemma CentringExample()
    ensures Centre(490, 100) == 195 && Centre(490, 50) == 220
    ensures OriginFrame(195, 220) == [255, 110, 1, 1, 95, 2, 20]
    ensures SizeFrame(Stride(100) * 8, 50) == [255, 110, 2, 1, 4, 0, 50]
  {
    assert Stride(100) == 13;
  }
}
