/**
 * Pixel maps and the run-length codec of T1/image_processing.c (repeated as
 * image_binarize, image_compress_rle and image_decompress_rle in T2/image.c).
 *
 * A PGM image keeps its pixels in one array of width*height cells in
 * row-major order: cell (i, j) is pixels[i * width + j]. The nested row and
 * column loops of the source walk that array in the same order.
 *
 * The compressed form is [first pixel, count, count, ...]: each count is the
 * length of a run of equal pixels, capped at 255, and the decoder starts with
 * the first pixel and flips the value (C's `!`) whenever a count is used up.
 */
module Rle {
  import opened Bytes

  // ---------------------------------------------------------------------------
  // Row-major arithmetic
  // ---------------------------------------------------------------------------

  /** Row i of a width-column matrix lies inside the width*height cells. */
  lemma RowInside(i: int, width: int, height: int)
    requires 0 <= i < height && 0 <= width
    ensures 0 <= i * width && i * width + width <= height * width
    ensures (i + 1) * width == i * width + width
  {
    MulNonneg(i, width);
    MulNonneg(height - (i + 1), width);
    MulDistrib(i, 1, width);
    MulDistrib(i + 1, height - (i + 1), width);
  }

  lemma MulNonneg(a: int, b: int)
    requires 0 <= a && 0 <= b
    ensures 0 <= a * b
  {
  }

  lemma MulDistrib(a: int, b: int, c: int)
    ensures (a + b) * c == a * c + b * c
  {
  }

  // ---------------------------------------------------------------------------
  // Pixel maps
  // ---------------------------------------------------------------------------

  /** The threshold map: pixels strictly above the threshold become 1, the rest 0. */
  function Threshold(v: int, threshold: int): int
  {
    if v > threshold then 1 else 0
  }

  predicate IsBinary(p: seq<int>)
  {
    forall k :: 0 <= k < |p| ==> p[k] == 0 || p[k] == 1
  }

  function Thresholded(p: seq<int>, threshold: int): seq<int>
  {
    seq(|p|, k requires 0 <= k < |p| => Threshold(p[k], threshold))
  }

  /** A thresholded image is binary, keeps its size, and is 1 exactly where the input was above the threshold. */
  lemma ThresholdedIsBinary(p: seq<int>, threshold: int)
    ensures |Thresholded(p, threshold)| == |p|
    ensures IsBinary(Thresholded(p, threshold))
    ensures forall k :: 0 <= k < |p| ==> (Thresholded(p, threshold)[k] == 1 <==> p[k] > threshold)
  {
  }

  /** Thresholding a binary image at 0 leaves it unchanged. */
  lemma {:induction false} ThresholdBinaryAtZero(p: seq<int>)
    requires IsBinary(p)
    ensures Thresholded(p, 0) == p
  {
    var r := Thresholded(p, 0);
    forall k | 0 <= k < |p|
      ensures r[k] == p[k]
    {
      assert p[k] == 0 || p[k] == 1;
    }
  }

  /** The negative map v -> maxGray - v. */
  function Negated(p: seq<int>, maxGray: int): seq<int>
  {
    seq(|p|, k requires 0 <= k < |p| => maxGray - p[k])
  }

  /** Taking the negative twice with the same maxGray restores the image. */
  lemma {:induction false} NegatedTwice(p: seq<int>, maxGray: int)
    ensures Negated(Negated(p, maxGray), maxGray) == p
  {
    var n := Negated(p, maxGray);
    assert |n| == |p|;
    forall k | 0 <= k < |p|
      ensures Negated(n, maxGray)[k] == p[k]
    {
      assert n[k] == maxGray - p[k];
    }
  }

  /** A negative keeps the values inside [0, maxGray] when they were inside it. */
  lemma NegatedInRange(p: seq<int>, maxGray: int)
    requires forall k :: 0 <= k < |p| ==> 0 <= p[k] <= maxGray
    ensures |Negated(p, maxGray)| == |p|
    ensures forall k :: 0 <= k < |p| ==> 0 <= Negated(p, maxGray)[k] <= maxGray
  {
  }

  /** The PGMImage record: its pixel matrix is updated in place by the maps. */
  class PgmImage {
    var width: int
    var height: int
    var maxGray: int
    var pixels: array<int>

    ghost predicate Valid()
      reads this
    {
      0 <= width && 0 <= height && pixels.Length == width * height
    }

    constructor (width: nat, height: nat, maxGray: int, cells: seq<int>)
      requires |cells| == width * height
      ensures Valid() && fresh(pixels)
      ensures this.width == width && this.height == height && this.maxGray == maxGray
      ensures pixels[..] == cells
    {
      this.width := width;
      this.height := height;
      this.maxGray := maxGray;
      pixels := new int[|cells|](k requires 0 <= k < |cells| => cells[k]);
    }

    /** An image around an existing pixel matrix, as the decoders build it. */
    constructor FromPixels(width: nat, height: nat, maxGray: int, pixels: array<int>)
      requires pixels.Length == width * height
      ensures Valid() && this.pixels == pixels
      ensures this.width == width && this.height == height && this.maxGray == maxGray
    {
      this.width := width;
      this.height := height;
      this.maxGray := maxGray;
      this.pixels := pixels;
    }

    /** binarizeImage / image_binarize: threshold every pixel in place, then set maxGray to 1. */
    method Binarize(threshold: int)
      requires Valid()
      modifies this, pixels
      ensures Valid() && width == old(width) && height == old(height) && pixels == old(pixels)
      ensures maxGray == 1
      ensures pixels[..] == Thresholded(old(pixels[..]), threshold)
    {
      var a, w, h := pixels, width, height;
      ghost var before := a[..];
      ghost var k := 0;
      var i := 0;
      while i < h
        invariant 0 <= i <= h && k == i * w <= a.Length
        modifies a
        invariant forall c :: 0 <= c < k ==> a[c] == Threshold(before[c], threshold)
        invariant forall c :: k <= c < a.Length ==> a[c] == before[c]
      {
        RowInside(i, w, h);
        var j := 0;
        while j < w
          invariant 0 <= j <= w && k == i * w + j
          modifies a
          invariant forall c :: 0 <= c < k ==> a[c] == Threshold(before[c], threshold)
          invariant forall c :: k <= c < a.Length ==> a[c] == before[c]
        {
          a[i * w + j] := if a[i * w + j] > threshold then 1 else 0;
          j := j + 1;
          k := k + 1;
        }
        i := i + 1;
      }
      assert k == a.Length;
      maxGray := 1;
    }

    /** negativeImage: replace every pixel v by maxGray - v; maxGray is kept. */
    method Negate()
      requires Valid()
      modifies pixels
      ensures pixels[..] == Negated(old(pixels[..]), maxGray)
    {
      var a, w, h, g := pixels, width, height, maxGray;
      ghost var before := a[..];
      ghost var k := 0;
      var i := 0;
      while i < h
        invariant 0 <= i <= h && k == i * w <= a.Length
        invariant forall c :: 0 <= c < k ==> a[c] == g - before[c]
        invariant forall c :: k <= c < a.Length ==> a[c] == before[c]
      {
        RowInside(i, w, h);
        var j := 0;
        while j < w
          invariant 0 <= j <= w && k == i * w + j
          invariant forall c :: 0 <= c < k ==> a[c] == g - before[c]
          invariant forall c :: k <= c < a.Length ==> a[c] == before[c]
        {
          a[i * w + j] := g - a[i * w + j];
          j := j + 1;
          k := k + 1;
        }
        i := i + 1;
      }
      assert k == a.Length;
    }
  }

  // ---------------------------------------------------------------------------
  // Encoder
  // ---------------------------------------------------------------------------

  /**
   * The counts the encoder still emits when the pixels `rest` follow a pending
   * run of `cur` of length `count`: a run grows while the next pixel is equal
   * and the run is shorter than 255, otherwise the count is emitted and a new
   * run starts.
   */
  function RunsFrom(rest: seq<int>, cur: int, count: int): seq<byte>
    requires 1 <= count <= 255
    decreases |rest|
  {
    if rest == [] then [count as byte]
    else if rest[0] == cur && count < 255 then RunsFrom(rest[1..], cur, count + 1)
    else [count as byte] + RunsFrom(rest[1..], rest[0], 1)
  }

  /** compressRLE's output: the first pixel as an unsigned char, then the run counts. */
  function Compress(p: seq<int>): seq<byte>
    requires |p| >= 1
  {
    [(p[0] % 256) as byte] + RunsFrom(p[1..], p[0], 1)
  }

  /** Sum of run counts. */
  function CountSum(counts: seq<byte>): int
  {
    if counts == [] then 0 else counts[0] as int + CountSum(counts[1..])
  }

  predicate AllPositive(counts: seq<byte>)
  {
    forall k :: 0 <= k < |counts| ==> counts[k] >= 1
  }

  lemma {:induction false} CountSumConcat(a: seq<byte>, b: seq<byte>)
    ensures CountSum(a + b) == CountSum(a) + CountSum(b)
    decreases |a|
  {
    if a == [] {
      assert a + b == b;
    } else {
      assert (a + b)[0] == a[0];
      assert (a + b)[1..] == a[1..] + b;
      CountSumConcat(a[1..], b);
    }
  }

  /** Every count is in 1..255, they add up to the pending run plus the remaining pixels, and there is at most one per pixel. */
  lemma {:induction false} RunsFromCounts(rest: seq<int>, cur: int, count: int)
    requires 1 <= count <= 255
    ensures AllPositive(RunsFrom(rest, cur, count))
    ensures CountSum(RunsFrom(rest, cur, count)) == count + |rest|
    ensures 1 <= |RunsFrom(rest, cur, count)| <= 1 + |rest|
    decreases |rest|
  {
    if rest == [] {
    } else if rest[0] == cur && count < 255 {
      RunsFromCounts(rest[1..], cur, count + 1);
    } else {
      var tail := RunsFrom(rest[1..], rest[0], 1);
      RunsFromCounts(rest[1..], rest[0], 1);
      CountSumConcat([count as byte], tail);
    }
  }

  /**
   * The compressed image starts with the first pixel (as an unsigned char),
   * its counts are all in 1..255 and add up to the number of pixels, and its
   * size, 1 + the number of runs, is at most 1 + |p| and so within 2 * |p|.
   */
  lemma CompressShape(p: seq<int>)
    requires |p| >= 1
    ensures Compress(p)[0] as int == p[0] % 256
    ensures AllPositive(Compress(p)[1..])
    ensures CountSum(Compress(p)[1..]) == |p|
    ensures 2 <= |Compress(p)| <= |p| + 1 <= 2 * |p|
  {
    assert Compress(p)[1..] == RunsFrom(p[1..], p[0], 1);
    RunsFromCounts(p[1..], p[0], 1);
  }

  /** compressRLE / image_compress_rle over the row-major pixels of a width x height image. */
  method CompressRle(pixels: array<int>, width: int, height: int) returns (compressed: seq<byte>)
    requires 1 <= width && 1 <= height && pixels.Length == width * height
    ensures compressed == Compress(pixels[..])
  {
    ghost var p := pixels[..];
    var total := width * height;
    RowInside(0, width, height);
    var buffer := new byte[total * 2];
    var currentVal := pixels[0];
    var count := 1;
    var index := 0;
    buffer[index] := (currentVal % 256) as byte;
    index := index + 1;
    ghost var k := 1;
    ghost var emitted: seq<byte> := [(currentVal % 256) as byte];
    var i := 0;
    while i < height
      invariant 0 <= i <= height
      invariant (i == 0 ==> k == 1) && (i > 0 ==> k == i * width) && k <= total
      invariant 1 <= count <= 255 && 1 <= index <= k && |emitted| == index
      invariant buffer[..index] == emitted
      invariant emitted + RunsFrom(p[k..], currentVal, count) == Compress(p)
    {
      RowInside(i, width, height);
      var j := if i == 0 then 1 else 0;
      currentVal, count, index, emitted := EncodeRow(pixels, buffer, p, i * width, j, width, currentVal, count, index, emitted);
      k := i * width + width;
      i := i + 1;
    }
    assert p[k..] == [];
    buffer[index] := count as byte;
    assert buffer[..index + 1] == emitted + [count as byte];
    compressed := buffer[..index + 1];
  }

  /**
   * The inner loop of compressRLE over one row: cells start + j0 .. start + width - 1
   * extend the pending run or emit its count into the buffer.
   */
  method EncodeRow(pixels: array<int>, buffer: array<byte>, ghost p: seq<int>, start: int, j0: int, width: int,
                   cur0: int, count0: int, index0: int, ghost emitted0: seq<byte>)
    returns (cur: int, count: int, index: int, ghost emitted: seq<byte>)
    requires p == pixels[..] && |p| <= buffer.Length
    requires 0 <= start && 0 <= j0 <= width && start + width <= |p|
    requires 1 <= count0 <= 255 && 1 <= index0 <= start + j0 && |emitted0| == index0
    requires buffer[..index0] == emitted0
    requires emitted0 + RunsFrom(p[start + j0..], cur0, count0) == Compress(p)
    modifies buffer
    ensures 1 <= count <= 255 && 1 <= index <= start + width && |emitted| == index
    ensures buffer[..index] == emitted
    ensures emitted + RunsFrom(p[start + width..], cur, count) == Compress(p)
  {
    cur, count, index, emitted := cur0, count0, index0, emitted0;
    var j := j0;
    while j < width
      invariant j0 <= j <= width
      invariant 1 <= count <= 255 && 1 <= index <= start + j && |emitted| == index
      invariant buffer[..index] == emitted
      invariant emitted + RunsFrom(p[start + j..], cur, count) == Compress(p)
    {
      var cell := start + j;
      RunsFromStep(p, cell, cur, count);
      if pixels[cell] == cur && count < 255 {
        count := count + 1;
      } else {
        buffer[index] := count as byte;
        AppendCount(emitted, count as byte, RunsFrom(p[cell + 1..], pixels[cell], 1));
        emitted := emitted + [count as byte];
        index := index + 1;
        cur := pixels[cell];
        count := 1;
      }
      j := j + 1;
    }
  }

  /** One encoder step on pixel p[k]: extend the pending run, or emit its count and start a new one. */
  lemma RunsFromStep(p: seq<int>, k: nat, cur: int, count: int)
    requires k < |p| && 1 <= count <= 255
    ensures RunsFrom(p[k..], cur, count)
         == if p[k] == cur && count < 255 then RunsFrom(p[k + 1..], cur, count + 1)
            else [count as byte] + RunsFrom(p[k + 1..], p[k], 1)
  {
    assert p[k..][1..] == p[k + 1..];
  }

  lemma AppendCount(emitted: seq<byte>, c: byte, rest: seq<byte>)
    ensures emitted + ([c] + rest) == (emitted + [c]) + rest
  {
  }

  // ---------------------------------------------------------------------------
  // Decoder
  // ---------------------------------------------------------------------------

  /** C's logical negation on an int: 0 becomes 1, anything else 0. */
  function Not(v: int): int
  {
    if v == 0 then 1 else 0
  }

  /**
   * The cells the decoder writes into the next `n` cells when it holds value
   * `cur`, has `count` cells of the current run left, and reads the next count
   * at data[next]. Writing stops for good when a run is used up and no count
   * is left. A count byte of 0 drives `count` negative, after which it never
   * reaches 0 again.
   */
  function Decode(data: seq<byte>, next: nat, count: int, cur: int, n: nat): seq<int>
    decreases n
  {
    if n == 0 || (count == 0 && next >= |data|) then []
    else
      var run := if count == 0 then data[next] as int else count;
      var next' := if count == 0 then next + 1 else next;
      [cur] + Decode(data, next', run - 1, if run - 1 == 0 then Not(cur) else cur, n - 1)
  }

  /** The cells written when decoding `data` into `n` cells from the start. */
  function Decompress(data: seq<byte>, n: nat): seq<int>
    requires |data| >= 1
  {
    Decode(data, 1, 0, data[0] as int, n)
  }

  /** The decoder never writes more cells than there are. */
  lemma {:induction false} DecodeLength(data: seq<byte>, next: nat, count: int, cur: int, n: nat)
    ensures |Decode(data, next, count, cur, n)| <= n
    decreases n
  {
    if n == 0 || (count == 0 && next >= |data|) {
    } else {
      var run := if count == 0 then data[next] as int else count;
      var next' := if count == 0 then next + 1 else next;
      DecodeLength(data, next', run - 1, if run - 1 == 0 then Not(cur) else cur, n - 1);
    }
  }

  /**
   * decompressRLE / image_decompress_rle: a fresh width x height matrix whose
   * first |Decompress(data, width * height)| cells hold the decoded runs; the
   * cells after the data ran out are never written.
   */
  method DecompressRle(data: seq<byte>, width: int, height: int) returns (pixels: array<int>)
    requires |data| >= 1 && 0 <= width && 0 <= height
    ensures fresh(pixels) && pixels.Length == width * height
    ensures |Decompress(data, width * height)| <= pixels.Length
    ensures pixels[..|Decompress(data, width * height)|] == Decompress(data, width * height)
  {
    var total := width * height;
    assert total == height * width;
    pixels := new int[total];
    var currentVal := data[0] as int;
    var dataIndex := 1;
    var pixelCount := 0;
    ghost var k := 0;
    ghost var out: seq<int> := [];
    ghost var stopped := false;
    var i := 0;
    while i < height
      invariant 0 <= i <= height && 0 <= k <= total && |out| == k
      invariant !stopped ==> k == i * width
      invariant stopped ==> pixelCount == 0 && dataIndex >= |data|
      invariant 1 <= dataIndex <= |data| + 1
      invariant pixels[..k] == out
      invariant out + Decode(data, dataIndex, pixelCount, currentVal, total - k) == Decompress(data, total)
    {
      RowInside(i, width, height);
      currentVal, dataIndex, pixelCount, out, stopped := DecodeRow(data, pixels, i * width, width, currentVal, dataIndex, pixelCount, out, stopped);
      k := |out|;
      i := i + 1;
    }
    assert total - k == 0 || (pixelCount == 0 && dataIndex >= |data|);
    DecodeLength(data, 1, 0, data[0] as int, total);
  }

  /**
   * The inner loop of decompressRLE over one row: each of the cells start ..
   * start + width - 1 takes the current value, reading a new count whenever the
   * run is used up, until the data runs out.
   */
  method DecodeRow(data: seq<byte>, pixels: array<int>, start: int, width: int,
                   cur0: int, dataIndex0: int, pixelCount0: int, ghost out0: seq<int>, ghost stopped0: bool)
    returns (cur: int, dataIndex: int, pixelCount: int, ghost out: seq<int>, ghost stopped: bool)
    requires |data| >= 1 && 0 <= start && 0 <= width && start + width <= pixels.Length && |out0| <= pixels.Length
    requires !stopped0 ==> |out0| == start
    requires stopped0 ==> pixelCount0 == 0 && dataIndex0 >= |data|
    requires 1 <= dataIndex0 <= |data| + 1
    requires pixels[..|out0|] == out0
    requires out0 + Decode(data, dataIndex0, pixelCount0, cur0, pixels.Length - |out0|) == Decompress(data, pixels.Length)
    modifies pixels
    ensures |out| <= pixels.Length
    ensures !stopped ==> |out| == start + width
    ensures stopped ==> pixelCount == 0 && dataIndex >= |data|
    ensures 1 <= dataIndex <= |data| + 1
    ensures pixels[..|out|] == out
    ensures out + Decode(data, dataIndex, pixelCount, cur, pixels.Length - |out|) == Decompress(data, pixels.Length)
  {
    cur, dataIndex, pixelCount, out, stopped := cur0, dataIndex0, pixelCount0, out0, stopped0;
    var j := 0;
    while j < width
      invariant 0 <= j <= width && |out| <= pixels.Length
      invariant !stopped ==> |out| == start + j
      invariant stopped ==> pixelCount == 0 && dataIndex >= |data|
      invariant 1 <= dataIndex <= |data| + 1
      invariant pixels[..|out|] == out
      invariant out + Decode(data, dataIndex, pixelCount, cur, pixels.Length - |out|) == Decompress(data, pixels.Length)
    {
      var k := |out|;
      DecodeStep(data, dataIndex, pixelCount, cur, pixels.Length - k);
      if pixelCount == 0 {
        if dataIndex >= |data| {
          stopped := true;
          break;
        }
        pixelCount := data[dataIndex] as int;
        dataIndex := dataIndex + 1;
      }
      var cell := start + j;
      assert cell == k;
      pixels[cell] := cur;
      ghost var tail := Decode(data, dataIndex, pixelCount - 1, if pixelCount - 1 == 0 then Not(cur) else cur, pixels.Length - k - 1);
      AppendStep(out, cur, tail);
      out := out + [cur];
      pixelCount := pixelCount - 1;
      if pixelCount == 0 {
        cur := Not(cur);
      }
      j := j + 1;
    }
  }

  lemma AppendStep(out: seq<int>, v: int, tail: seq<int>)
    ensures out + ([v] + tail) == (out + [v]) + tail
  {
  }

  /** One decoder step: unless the data is used up, the current value, then the rest. */
  lemma DecodeStep(data: seq<byte>, next: nat, count: int, cur: int, n: nat)
    ensures n >= 1 && !(count == 0 && next >= |data|) ==>
      var run := if count == 0 then data[next] as int else count;
      var next' := if count == 0 then next + 1 else next;
      Decode(data, next, count, cur, n) == [cur] + Decode(data, next', run - 1, if run - 1 == 0 then Not(cur) else cur, n - 1)
  {
  }

  // ---------------------------------------------------------------------------
  // Decoder facts
  // ---------------------------------------------------------------------------

  function Repeat(v: int, n: nat): (r: seq<int>)
    ensures |r| == n && forall k :: 0 <= k < n ==> r[k] == v
  {
    seq(n, _ => v)
  }

  /** The cells a sequence of counts stands for, starting with value v and flipping after each count. */
  function Expand(v: int, counts: seq<byte>): seq<int>
    decreases |counts|
  {
    if counts == [] then [] else Repeat(v, counts[0] as nat) + Expand(Not(v), counts[1..])
  }

  /** The first n elements of s, or all of s when it is shorter. */
  function Take(s: seq<int>, n: nat): (r: seq<int>)
    ensures |r| <= n
  {
    if n <= |s| then s[..n] else s
  }

  lemma TakeCons(v: int, s: seq<int>, n: nat)
    requires n >= 1
    ensures Take([v] + s, n) == [v] + Take(s, n - 1)
  {
    if n <= |[v] + s| {
      assert ([v] + s)[..n] == [v] + s[..n - 1];
    }
  }

  /**
   * With all counts positive, the decoder writes the first n cells of what
   * the pending run and the counts stand for.
   */
  lemma {:induction false} DecodePending(data: seq<byte>, next: nat, count: int, cur: int, n: nat)
    requires next <= |data| && PositiveFrom(data, next) && count >= 0
    ensures count == 0 ==> Decode(data, next, count, cur, n) == Take(Expand(cur, data[next..]), n)
    ensures count >= 1 ==> Decode(data, next, count, cur, n) == Take(Repeat(cur, count) + Expand(Not(cur), data[next..]), n)
    decreases n, if count == 0 then 1 else 0
  {
    if n == 0 {
    } else if count == 0 {
      if next < |data| {
        PositiveTail(data, next);
        DecodePending(data, next + 1, data[next] as int, cur, n);
        ReadCase(data, next, cur, n);
      } else {
        assert data[next..] == [];
      }
    } else if count == 1 {
      DecodePending(data, next, 0, Not(cur), n - 1);
      PendingCase(data, next, count, cur, n);
    } else {
      DecodePending(data, next, count - 1, cur, n - 1);
      PendingCase(data, next, count, cur, n);
    }
  }

  /** The step of DecodePending that reads a count byte. */
  lemma ReadCase(data: seq<byte>, next: nat, cur: int, n: nat)
    requires next < |data| && PositiveFrom(data, next) && n >= 1
    requires Decode(data, next + 1, data[next] as int, cur, n)
          == Take(Repeat(cur, data[next] as nat) + Expand(Not(cur), data[next + 1..]), n)
    ensures Decode(data, next, 0, cur, n) == Take(Expand(cur, data[next..]), n)
  {
    PositiveTail(data, next);
    ReadCount(data, next, cur, n);
  }

  /** The step of DecodePending that writes one cell of the pending run. */
  lemma PendingCase(data: seq<byte>, next: nat, count: int, cur: int, n: nat)
    requires next <= |data| && count >= 1 && n >= 1
    requires count == 1 ==> Decode(data, next, 0, Not(cur), n - 1) == Take(Expand(Not(cur), data[next..]), n - 1)
    requires count > 1 ==>
      Decode(data, next, count - 1, cur, n - 1) == Take(Repeat(cur, count - 1) + Expand(Not(cur), data[next..]), n - 1)
    ensures Decode(data, next, count, cur, n) == Take(Repeat(cur, count) + Expand(Not(cur), data[next..]), n)
  {
    PendingStep(data, next, count, cur, n, Expand(Not(cur), data[next..]));
  }

  /** Past a positive count byte the remaining counts are positive too, and it expands to its run first. */
  lemma PositiveTail(data: seq<byte>, next: nat)
    requires next < |data| && PositiveFrom(data, next)
    ensures data[next] >= 1 && PositiveFrom(data, next + 1)
    ensures forall v :: Expand(v, data[next..]) == Repeat(v, data[next] as nat) + Expand(Not(v), data[next + 1..])
  {
    var s := data[next..];
    assert s[0] == data[next];
    assert s[1..] == data[next + 1..];
  }

  /** Every byte of `data` from index `next` on is a positive count. */
  predicate PositiveFrom(data: seq<byte>, next: nat)
  {
    forall k :: next <= k < |data| ==> data[k] >= 1
  }

  lemma PositiveFromSlice(data: seq<byte>, next: nat)
    requires next <= |data| && AllPositive(data[next..])
    ensures PositiveFrom(data, next)
  {
    forall k | next <= k < |data| ensures data[k] >= 1 {
      assert data[k] == data[next..][k - next];
    }
  }

  /** Reading a positive count byte and then writing is the same as already holding that count. */
  lemma ReadCount(data: seq<byte>, next: nat, cur: int, n: nat)
    requires next < |data| && data[next] >= 1 && n >= 1
    ensures Decode(data, next, 0, cur, n) == Decode(data, next + 1, data[next] as int, cur, n)
  {
  }

  /** With a pending run left, the decoder writes `cur` and goes on with one cell less of the run. */
  lemma PendingStep(data: seq<byte>, next: nat, count: int, cur: int, n: nat, after: seq<int>)
    requires count >= 1 && n >= 1
    ensures Decode(data, next, count, cur, n) == [cur] + Decode(data, next, count - 1, if count == 1 then Not(cur) else cur, n - 1)
    ensures Take(Repeat(cur, count) + after, n) == [cur] + Take(Repeat(cur, count - 1) + after, n - 1)
    ensures count == 1 ==> Repeat(cur, count - 1) + after == after
  {
    assert Repeat(cur, count) + after == [cur] + (Repeat(cur, count - 1) + after);
    TakeCons(cur, Repeat(cur, count - 1) + after, n);
    if count == 1 {
      assert Repeat(cur, 0) + after == after;
    }
  }

  /** A count byte of 0 makes the decoder fill every remaining cell with the current value. */
  lemma {:induction false} DecodeNegative(data: seq<byte>, next: nat, count: int, cur: int, n: nat)
    requires count < 0
    ensures Decode(data, next, count, cur, n) == Repeat(cur, n)
    decreases n
  {
    if n > 0 {
      DecodeNegative(data, next, count - 1, cur, n - 1);
      assert [cur] + Repeat(cur, n - 1) == Repeat(cur, n);
    }
  }

  /** Decompressing [v, 0, ...] fills the whole image with v. */
  lemma ZeroCountFills(data: seq<byte>, n: nat)
    requires |data| >= 2 && data[1] == 0
    ensures Decompress(data, n) == Repeat(data[0] as int, n)
  {
    if n > 0 {
      DecodeNegative(data, 2, -1, data[0] as int, n - 1);
      assert [data[0] as int] + Repeat(data[0] as int, n - 1) == Repeat(data[0] as int, n);
    }
  }

  // ---------------------------------------------------------------------------
  // Round trip
  // ---------------------------------------------------------------------------

  /** No 256 consecutive pixels are equal: every row-major run is at most 255 long. */
  predicate NoLongRun(p: seq<int>)
  {
    forall i :: 0 <= i && i + 256 <= |p| ==> RunBreaks(p, i)
  }

  /** Some pixel among the 255 after p[i] differs from it. */
  predicate RunBreaks(p: seq<int>, i: int)
    requires 0 <= i && i + 256 <= |p|
  {
    exists j :: i < j < i + 256 && p[j] != p[i]
  }

  lemma NoLongRunSuffix(p: seq<int>, d: nat)
    requires NoLongRun(p) && d <= |p|
    ensures NoLongRun(p[d..])
  {
    var s := p[d..];
    forall i | 0 <= i && i + 256 <= |s|
      ensures RunBreaks(s, i)
    {
      assert d + i + 256 <= |p| && p[d + i] == s[i];
      assert RunBreaks(p, d + i);
      var j :| d + i < j < d + i + 256 && p[j] != p[d + i];
      assert i < j - d < i + 256 && s[j - d] == p[j];
    }
  }

  /** Under NoLongRun, a pending run of 255 is followed by a different pixel. */
  lemma FullRunBreaks(cur: int, count: int, rest: seq<int>)
    requires 1 <= count <= 255 && rest != []
    requires NoLongRun(Repeat(cur, count) + rest)
    ensures count == 255 ==> rest[0] != cur
  {
    if count == 255 {
      var whole := Repeat(cur, count) + rest;
      assert RunBreaks(whole, 0);
      var j :| 0 < j < 256 && whole[j] != whole[0];
      assert forall k :: 0 <= k < 255 ==> whole[k] == cur;
      assert j == 255;
      assert whole[255] == rest[0];
    }
  }

  /** For a binary image with short runs, the counts expand back to the pixels. */
  lemma {:induction false} ExpandRuns(rest: seq<int>, cur: int, count: int)
    requires 1 <= count <= 255 && (cur == 0 || cur == 1) && IsBinary(rest)
    requires NoLongRun(Repeat(cur, count) + rest)
    ensures Expand(cur, RunsFrom(rest, cur, count)) == Repeat(cur, count) + rest
    decreases |rest|
  {
    var whole := Repeat(cur, count) + rest;
    if rest == [] {
      assert RunsFrom(rest, cur, count)[1..] == [];
    } else if rest[0] == cur && count < 255 {
      assert Repeat(cur, count + 1) + rest[1..] == whole;
      ExpandRuns(rest[1..], cur, count + 1);
    } else {
      FullRunBreaks(cur, count, rest);
      var tail := RunsFrom(rest[1..], rest[0], 1);
      assert ([count as byte] + tail)[1..] == tail;
      assert rest[0] == Not(cur) by {
        assert rest[0] == 0 || rest[0] == 1;
      }
      NoLongRunSuffix(whole, count);
      assert whole[count..] == Repeat(rest[0], 1) + rest[1..];
      assert IsBinary(rest[1..]) by {
        forall k | 0 <= k < |rest[1..]| ensures rest[1..][k] == 0 || rest[1..][k] == 1 {
          assert rest[1..][k] == rest[k + 1];
        }
      }
      ExpandRuns(rest[1..], rest[0], 1);
      assert Repeat(rest[0], 1) + rest[1..] == rest;
    }
  }

  /**
   * decompressRLE(compressRLE(p)) == p for a binary image of at least one
   * pixel in which no row-major run is longer than 255.
   */
  lemma RoundTrip(p: seq<int>)
    requires |p| >= 1 && IsBinary(p) && NoLongRun(p)
    ensures Decompress(Compress(p), |p|) == p
  {
    var data := Compress(p);
    var counts := RunsFrom(p[1..], p[0], 1);
    assert data[1..] == counts;
    assert p[0] == 0 || p[0] == 1;
    assert data[0] as int == p[0];
    RunsFromCounts(p[1..], p[0], 1);
    assert IsBinary(p[1..]) by {
      forall k | 0 <= k < |p[1..]| ensures p[1..][k] == 0 || p[1..][k] == 1 {
        assert p[1..][k] == p[k + 1];
      }
    }
    assert Repeat(p[0], 1) + p[1..] == p;
    ExpandRuns(p[1..], p[0], 1);
    PositiveFromSlice(data, 1);
    DecodePending(data, 1, 0, p[0], |p|);
  }

  /** A run of `k` more equal pixels only lengthens the pending run while it stays within 255. */
  lemma {:induction false} RunsFromRepeat(v: int, k: nat, s: seq<int>, count: int)
    requires 1 <= count && count + k <= 255
    ensures RunsFrom(Repeat(v, k) + s, v, count) == RunsFrom(s, v, count + k)
    decreases k
  {
    if k == 0 {
      assert Repeat(v, k) + s == s;
    } else {
      var whole := Repeat(v, k) + s;
      assert whole[0] == v;
      assert whole[1..] == Repeat(v, k - 1) + s;
      RunsFromRepeat(v, k - 1, s, count + 1);
    }
  }

  /** 256 black pixels compress to [0, 255, 1]: the run is split at 255. */
  lemma LongRunCompress()
    ensures Compress(Repeat(0, 256)) == [0, 255, 1]
  {
    var p := Repeat(0, 256);
    assert p[1..] == Repeat(0, 254) + [0];
    RunsFromRepeat(0, 254, [0], 1);
    assert [0][1..] == [];
  }

  /** [0, 255, 1] decodes to 255 zeros followed by a single 1. */
  lemma LongRunDecode()
    ensures Decompress([0, 255, 1], 256) == Repeat(0, 255) + [1]
  {
    var data: seq<byte> := [0, 255, 1];
    assert PositiveFrom(data, 1);
    DecodePending(data, 1, 0, 0, 256);
    var e := Repeat(0, 255) + [1];
    assert Expand(0, data[1..]) == e by {
      assert data[1..] == [255, 1] && [255 as byte, 1][1..] == [1];
      assert Expand(1, [1]) == Repeat(1, 1) + Expand(0, []);
    }
    assert Take(e, 256) == e;
  }

  /**
   * Without the short-run condition the round trip fails: 256 black pixels
   * come back as 255 black pixels followed by a white one.
   */
  lemma LongRunBreaksRoundTrip()
    ensures Decompress(Compress(Repeat(0, 256)), 256) == Repeat(0, 255) + [1]
    ensures Decompress(Compress(Repeat(0, 256)), 256) != Repeat(0, 256)
  {
    LongRunCompress();
    LongRunDecode();
    var q := Repeat(0, 255) + [1];
    assert q[255] != Repeat(0, 256)[255];
  }
}
