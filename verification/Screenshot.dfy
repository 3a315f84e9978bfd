/**
 Screenshot post-processing in place: rows lose their padding and premultiplied colours become
 straight.
 */
module Screenshot {
  import opened Wrappers
  import opened LittleEndian

  datatype ImageError = RowTooWide | WrongLength

  const U16_MAX: nat := 0xffff

  /** Where byte `k` of row `r` stands when rows are `stride` bytes long. */
  function Offset(r: nat, stride: nat, k: nat): nat {
    r * stride + k
  }

  lemma OffsetIs(r: nat, stride: nat, k: nat)
    ensures Offset(r, stride, k) == r * stride + k
  {
  }

  lemma OffsetInRow(r: nat, rows: nat, stride: nat, k: nat)
    requires r < rows && k < stride
    ensures Offset(r, stride, k) < rows * stride
    ensures r * stride + stride <= rows * stride
  {
    assert rows * stride == r * stride + (rows - r) * stride;
    assert (rows - r) * stride >= stride by { NonlinearAtLeast(rows - r, stride); }
  }

  lemma NonlinearAtLeast(factor: nat, x: nat)
    requires factor >= 1
    ensures factor * x >= x
  {
  }

  lemma StrideGrows(r: nat, narrow: nat, wide: nat)
    requires narrow <= wide
    ensures r * narrow <= r * wide
  {
  }

  /** `slice::copy_within` towards the front: ranges may overlap. */
  method CopyDown(a: array<Byte>, source: nat, length: nat, destination: nat)
    requires destination <= source && source + length <= a.Length
    modifies a
    ensures forall j :: destination <= j < destination + length ==> a[j] == old(a[..])[j - destination + source]
    ensures forall j :: 0 <= j < a.Length && !(destination <= j < destination + length) ==> a[j] == old(a[..])[j]
  {
    for k := 0 to length
      invariant forall j :: destination <= j < destination + k ==> a[j] == old(a[..])[j - destination + source]
      invariant forall j :: 0 <= j < a.Length && !(destination <= j < destination + k) ==> a[j] == old(a[..])[j]
    {
      a[destination + k] := a[source + k];
    }
  }

  /** Every row's bytes kept their row and their place in it. */
  ghost predicate Compacted(before: seq<Byte>, after: seq<Byte>, rowBytes: nat, stride: nat, height: nat) {
    forall r, k :: 0 <= r < height && 0 <= k < rowBytes ==>
      Offset(r, rowBytes, k) < |after| && Offset(r, stride, k) < |before|
      && after[Offset(r, rowBytes, k)] == before[Offset(r, stride, k)]
  }

  /** The first rows are in place, and nothing behind them has changed. */
  ghost predicate Moved(before: seq<Byte>, now: seq<Byte>, rowBytes: nat, stride: nat, rows: nat) {
    && rows * rowBytes <= |now| == |before|
    && (forall r, k :: 0 <= r < rows && 0 <= k < rowBytes ==>
          Offset(r, rowBytes, k) < rows * rowBytes && Offset(r, stride, k) < |before|
          && now[Offset(r, rowBytes, k)] == before[Offset(r, stride, k)])
    && forall j :: rows * rowBytes <= j < |now| ==> now[j] == before[j]
  }

  /** Row padding is squeezed out: pixel bytes keep their row and their place in it. */
  method CompactRows(a: array<Byte>, rowBytes: nat, stride: nat, height: nat)
    requires rowBytes <= stride && a.Length == height * stride
    modifies a
    ensures height * rowBytes <= a.Length
    ensures Compacted(old(a[..]), a[..], rowBytes, stride, height)
  {
    hide Moved, Offset;
    ghost var before := a[..];
    StrideGrows(height, rowBytes, stride);
    NothingMoved(before, rowBytes, stride);
    for row := 0 to height
      invariant Moved(before, a[..], rowBytes, stride, row)
    {
      StepRow(row, height, rowBytes, stride);
      ghost var was := a[..];
      CopyDown(a, row * stride, rowBytes, row * rowBytes);
      RowMoves(before, was, a[..], rowBytes, stride, row, row * stride, row * rowBytes);
    }
    AllMoved(before, a[..], rowBytes, stride, height);
  }

  lemma NothingMoved(before: seq<Byte>, rowBytes: nat, stride: nat)
    ensures Moved(before, before, rowBytes, stride, 0)
  {
  }

  lemma AllMoved(before: seq<Byte>, after: seq<Byte>, rowBytes: nat, stride: nat, height: nat)
    requires Moved(before, after, rowBytes, stride, height)
    ensures Compacted(before, after, rowBytes, stride, height)
  {
    hide Offset;
  }

  /** Copying one row down puts it in place and leaves the rows before it alone. */
  lemma RowMoves(before: seq<Byte>, was: seq<Byte>, now: seq<Byte>, rowBytes: nat, stride: nat, row: nat,
                 source: nat, destination: nat)
    requires Moved(before, was, rowBytes, stride, row) && |now| == |before|
    requires source == row * stride && destination == row * rowBytes && destination <= source
    requires source + rowBytes <= |now| && (row + 1) * rowBytes == destination + rowBytes
    requires forall j :: destination <= j < destination + rowBytes ==> now[j] == was[j - destination + source]
    requires forall j :: 0 <= j < |now| && !(destination <= j < destination + rowBytes) ==> now[j] == was[j]
    ensures Moved(before, now, rowBytes, stride, row + 1)
  {
    hide Offset;
    forall r, k | 0 <= r < row + 1 && 0 <= k < rowBytes
      ensures Offset(r, rowBytes, k) < (row + 1) * rowBytes && Offset(r, stride, k) < |before|
      ensures now[Offset(r, rowBytes, k)] == before[Offset(r, stride, k)]
    {
      if r == row {
        OffsetIs(row, rowBytes, k);
        OffsetIs(row, stride, k);
        assert now[destination + k] == was[source + k];
      } else {
        assert was[Offset(r, rowBytes, k)] == before[Offset(r, stride, k)];
      }
    }
  }

  lemma StepRow(row: nat, height: nat, rowBytes: nat, stride: nat)
    requires row < height && rowBytes <= stride
    ensures (row + 1) * rowBytes == row * rowBytes + rowBytes
    ensures (row + 1) * stride == row * stride + stride <= height * stride
    ensures row * rowBytes <= row * stride
  {
    StrideGrows(row, rowBytes, stride);
    NonlinearMonotone(row + 1, height, stride);
  }

  lemma NonlinearMonotone(a: nat, b: nat, x: nat)
    requires a <= b
    ensures a * x <= b * x
  {
  }

  // ---------------------------------------------------------------------------------------------
  // Straight alpha
  // ---------------------------------------------------------------------------------------------

  /** One channel in 16-bit arithmetic, rounded to the nearest and clipped. */
  function Straight(channel: Byte, alpha: Byte): Byte
    requires alpha > 0
  {
    var straight := (channel * 255 + alpha / 2) / alpha;
    if straight < 255 then straight else 255
  }

  /** The intermediate sum always fits 16 bits. */
  lemma NoOverflow(channel: Byte, alpha: Byte)
    ensures channel * 255 + alpha / 2 <= U16_MAX == 65_535
  {
  }

  lemma QuotientBounds(x: nat, d: nat)
    requires d > 0
    ensures (x / d) * d <= x < (x / d) * d + d
  {
  }

  lemma QuotientUnique(x: nat, d: nat, q: nat)
    requires d > 0 && q * d <= x < q * d + d
    ensures x / d == q
  {
    QuotientBounds(x, d);
    var p := x / d;
    if p < q {
      NonlinearMonotone(p + 1, q, d);
    } else if p > q {
      NonlinearMonotone(q + 1, p, d);
    }
  }

  /** A premultiplied channel is never clipped, and premultiplying the result gives it back. */
  lemma PremultiplyUndoesStraight(channel: Byte, alpha: Byte)
    requires alpha > 0 && channel <= alpha
    ensures (channel * 255 + alpha / 2) / alpha <= 255
    ensures (Straight(channel, alpha) * alpha + 127) / 255 == channel
  {
    var x := channel * 255 + alpha / 2;
    var s := x / alpha;
    QuotientBounds(x, alpha);
    if s >= 256 {
      NonlinearMonotone(256, s, alpha);
      assert false;
    }
    var back := s * alpha + 127;
    assert channel * 255 <= back < channel * 255 + 255;
    QuotientUnique(back, 255, channel);
  }

  type Pixel = p: seq<Byte> | |p| == 4 witness [0, 0, 0, 0]

  /** What a premultiplied pixel becomes. */
  function StraightPixel(p: Pixel): Pixel {
    if p[3] == 0 then [0, 0, 0, 0]
    else [Straight(p[0], p[3]), Straight(p[1], p[3]), Straight(p[2], p[3]), p[3]]
  }

  method StraightenPixel(a: array<Byte>, at: nat)
    requires at + 4 <= a.Length
    modifies a
    ensures a[at..at + 4] == StraightPixel(old(a[at..at + 4]))
    ensures forall j :: 0 <= j < a.Length && !(at <= j < at + 4) ==> a[j] == old(a[..])[j]
  {
    var alpha := a[at + 3];
    if alpha == 0 {
      a[at], a[at + 1], a[at + 2] := 0, 0, 0;
    } else {
      a[at] := Straight(a[at], alpha);
      a[at + 1] := Straight(a[at + 1], alpha);
      a[at + 2] := Straight(a[at + 2], alpha);
    }
  }

  /** The `i`-th pixel of a buffer. */
  function PixelAt(s: seq<Byte>, i: nat): Pixel
    requires i * 4 + 4 <= |s|
  {
    s[i * 4..i * 4 + 4]
  }

  method Unpremultiply(a: array<Byte>, pixels: nat)
    requires pixels * 4 <= a.Length
    modifies a
    ensures forall i :: 0 <= i < pixels ==> PixelAt(a[..], i) == StraightPixel(PixelAt(old(a[..]), i))
    ensures forall j :: pixels * 4 <= j < a.Length ==> a[j] == old(a[..])[j]
  {
    hide StraightPixel;
    for i := 0 to pixels
      invariant forall n :: 0 <= n < i ==> PixelAt(a[..], n) == StraightPixel(PixelAt(old(a[..]), n))
      invariant forall j :: i * 4 <= j < a.Length ==> a[j] == old(a[..])[j]
    {
      ghost var before := a[..];
      assert PixelAt(before, i) == PixelAt(old(a[..]), i) == a[i * 4..i * 4 + 4];
      StraightenPixel(a, i * 4);
      forall n | 0 <= n < i
        ensures PixelAt(a[..], n) == PixelAt(before, n)
      {
      }
      assert PixelAt(a[..], i) == a[i * 4..i * 4 + 4];
    }
  }

  /** Pixel (r, c) of an image whose rows are `stride` bytes apart. */
  function PaddedPixel(s: seq<Byte>, r: nat, stride: nat, c: nat): Pixel
    requires Offset(r, stride, c * 4) + 4 <= |s|
  {
    s[Offset(r, stride, c * 4)..Offset(r, stride, c * 4) + 4]
  }

  lemma PixelIndex(r: nat, height: nat, width: nat, stride: nat, c: nat)
    requires r < height && c < width && width * 4 <= stride
    ensures Offset(r, width, c) < height * width && Offset(r, width, c) * 4 == Offset(r, width * 4, c * 4)
    ensures Offset(r, stride, c * 4) + 4 <= height * stride
    ensures height * width * 4 == height * (width * 4) <= height * stride
  {
    OffsetInRow(r, height, width, c);
    assert Offset(r, width, c) * 4 == (r * width) * 4 + c * 4;
    NonlinearMonotone(r + 1, height, stride);
    StrideGrows(height, width * 4, stride);
    assert r * (width * 4) == (r * width) * 4;
    assert height * (width * 4) == (height * width) * 4;
  }

  /** Pixel (r, c) of the result is the straight form of pixel (r, c) of the padded original. */
  ghost predicate Converted(before: seq<Byte>, after: seq<Byte>, width: nat, height: nat, stride: nat) {
    forall r, c :: 0 <= r < height && 0 <= c < width ==>
      Offset(r, width, c) * 4 + 4 <= |after| && Offset(r, stride, c * 4) + 4 <= |before|
      && PixelAt(after, Offset(r, width, c)) == StraightPixel(PaddedPixel(before, r, stride, c))
  }

  /** The whole conversion, for every image.  The result is the first `length` bytes. */
  method Convert(a: array<Byte>, width: nat, height: nat, stride: nat) returns (length: Result<nat, ImageError>)
    modifies a
    ensures length == if stride < width * 4 then Err(RowTooWide)
                      else if a.Length != stride * height then Err(WrongLength)
                      else Ok(height * width * 4)
    ensures length.Err? ==> a[..] == old(a[..])
    ensures length.Ok? ==> Converted(old(a[..]), a[..], width, height, stride)
  {
    hide Compacted, Converted, PixelAt, StraightPixel;
    var rowBytes := width * 4;
    if stride < rowBytes { return Err(RowTooWide); }
    if a.Length != stride * height { return Err(WrongLength); }
    ghost var before := a[..];
    ImageSize(width, height, stride);
    CompactRows(a, rowBytes, stride, height);
    ghost var compact := a[..];
    Unpremultiply(a, height * width);
    StagesCompose(before, compact, a[..], width, height, stride);
    return Ok(height * width * 4);
  }

  lemma ImageSize(width: nat, height: nat, stride: nat)
    requires width * 4 <= stride
    ensures stride * height == height * stride
    ensures height * (width * 4) == height * width * 4 <= height * stride
  {
    StrideGrows(height, width * 4, stride);
  }

  lemma StagesCompose(before: seq<Byte>, compact: seq<Byte>, after: seq<Byte>, width: nat, height: nat, stride: nat)
    requires width * 4 <= stride && |before| == |compact| == |after| == height * stride
    requires height * width * 4 <= height * stride
    requires Compacted(before, compact, width * 4, stride, height)
    requires forall i :: 0 <= i < height * width ==> PixelAt(after, i) == StraightPixel(PixelAt(compact, i))
    ensures Converted(before, after, width, height, stride)
  {
    hide StraightPixel, PixelAt, PaddedPixel, Compacted, Offset;
    forall r, c | 0 <= r < height && 0 <= c < width
      ensures Offset(r, width, c) * 4 + 4 <= |after| && Offset(r, stride, c * 4) + 4 <= |before|
      ensures PixelAt(after, Offset(r, width, c)) == StraightPixel(PaddedPixel(before, r, stride, c))
    {
      PixelIndex(r, height, width, stride, c);
      PixelKept(before, compact, r, height, width, stride, c);
      PixelStages(compact, after, height * width, Offset(r, width, c));
    }
  }

  lemma PixelStages(compact: seq<Byte>, after: seq<Byte>, pixels: nat, i: nat)
    requires i < pixels && pixels * 4 <= |compact| == |after|
    requires forall n :: 0 <= n < pixels ==> PixelAt(after, n) == StraightPixel(PixelAt(compact, n))
    ensures PixelAt(after, i) == StraightPixel(PixelAt(compact, i))
  {
  }

  lemma PixelKept(before: seq<Byte>, compact: seq<Byte>, r: nat, height: nat, width: nat, stride: nat, c: nat)
    requires r < height && c < width && width * 4 <= stride && |before| == |compact| == height * stride
    requires Compacted(before, compact, width * 4, stride, height)
    ensures Offset(r, width, c) * 4 + 4 <= |compact| && Offset(r, stride, c * 4) + 4 <= |before|
    ensures PixelAt(compact, Offset(r, width, c)) == PaddedPixel(before, r, stride, c)
  {
    PixelIndex(r, height, width, stride, c);
    var i := Offset(r, width, c);
    forall k | 0 <= k < 4
      ensures PixelAt(compact, i)[k] == PaddedPixel(before, r, stride, c)[k]
    {
      assert i * 4 + k == Offset(r, width * 4, c * 4 + k);
    }
  }

  lemma RoundedIsNearest(y: nat, d: nat)
    requires d > 0
    ensures var q := (y + d / 2) / d; -(d as int) <= 2 * (q * d - y) <= d
  {
    var q := (y + d / 2) / d;
    QuotientBounds(y + d / 2, d);
    var product := q * d;
    assert product <= y + d / 2 < product + d;
  }

  lemma BrightIsFull(channel: nat, alpha: nat)
    requires channel >= alpha > 0
    ensures (channel * 255 + alpha / 2) / alpha >= 255
  {
    var q := (channel * 255 + alpha / 2) / alpha;
    QuotientBounds(channel * 255 + alpha / 2, alpha);
    if q < 255 {
      NonlinearMonotone(q + 1, 255, alpha);
      assert false;
    }
  }

  /** The straight value is the nearest there is, and a channel brighter than its alpha is clipped to full. */
  lemma StraightIsNearest(channel: Byte, alpha: Byte)
    requires alpha > 0
    ensures channel <= alpha ==> -(alpha as int) <= 2 * (Straight(channel, alpha) * alpha - channel * 255) <= alpha
    ensures channel >= alpha ==> Straight(channel, alpha) == 255
  {
    if channel >= alpha { BrightIsFull(channel, alpha); }
    if channel <= alpha {
      PremultiplyUndoesStraight(channel, alpha);
      RoundedIsNearest(channel * 255, alpha);
    }
  }

  /** Colours become straight one by one, alpha stays, and what can not be seen becomes black. */
  lemma StraightPixelExactly(red: Byte, green: Byte, blue: Byte, alpha: Byte)
    ensures StraightPixel([red, green, blue, 0]) == [0, 0, 0, 0]
    ensures alpha > 0 ==>
      StraightPixel([red, green, blue, alpha]) ==
        [Straight(red, alpha), Straight(green, alpha), Straight(blue, alpha), alpha]
  {
  }
}
