/**
 * Reconstruction by averaging (T1/reconstruction.c): every live version of
 * an image, whatever its threshold, is decoded; if they all have the same
 * dimensions, each output pixel is the integer mean of 255 * pixel over the
 * versions, clamped to [0, 255].
 */
module Reconstruction {
  import opened Bytes
  import FlatStore
  import Rle

  /** Capacity of the version list before it first grows. */
  const INITIAL_CAPACITY: int := 10

  /** An ImageVersion: the threshold and the decoded image (pixels row-major). */
  datatype Version = Version(threshold: int, width: int, height: int, maxGray: int, cells: seq<int>)

  // ---------------------------------------------------------------------------
  // Specification functions
  // ---------------------------------------------------------------------------

  /** The live records with the given name, in index order, whatever their threshold. */
  function Matching(index: seq<FlatStore.ImageIndex>, name: string): seq<FlatStore.ImageIndex>
  {
    if index == [] then []
    else
      var e := index[|index| - 1];
      Matching(index[..|index| - 1], name) + (if e.name == name && e.removed == 0 then [e] else [])
  }

  /**
   * Version v is what the decoder makes of record e: its dimensions, maxGray
   * 255, and cells that start with the decoded runs of e's payload.
   */
  predicate DecodedFrom(v: Version, e: FlatStore.ImageIndex, data: seq<byte>)
  {
    && v.threshold == e.threshold && v.width == e.width && v.height == e.height && v.maxGray == 255
    && e.width >= 1 && e.height >= 1 && e.compressedSize >= 1
    && |v.cells| == e.width * e.height
    && var d := Rle.Decompress(ReadBlob(data, e.offset, e.compressedSize), e.width * e.height);
       |d| <= |v.cells| && v.cells[..|d|] == d
  }

  /** All versions have the dimensions of the first. */
  predicate SameDims(vs: seq<Version>)
    requires |vs| >= 1
  {
    forall v :: 0 <= v < |vs| ==> vs[v].width == vs[0].width && vs[v].height == vs[0].height
  }

  /** All records have the dimensions of the first. */
  predicate SameRecordDims(records: seq<FlatStore.ImageIndex>)
    requires |records| >= 1
  {
    forall v :: 0 <= v < |records| ==> records[v].width == records[0].width && records[v].height == records[0].height
  }

  /** Cell k of a version, 0 when it has no such cell. */
  function Cell(v: Version, k: int): int
  {
    if 0 <= k < |v.cells| then v.cells[k] else 0
  }

  /** The sum of 255 * (cell k) over the versions. */
  function Sum255(vs: seq<Version>, k: int): int
  {
    if vs == [] then 0 else Sum255(vs[..|vs| - 1], k) + Cell(vs[|vs| - 1], k) * 255
  }

  /** C's integer division, which truncates toward zero. */
  function CDiv(a: int, n: int): int
    requires n > 0
  {
    if a >= 0 then a / n else -((-a) / n)
  }

  /** Clamp to [0, 255]: negative values become 0, values above 255 become 255. */
  function Clamp(x: int): int
  {
    if x < 0 then 0 else if x > 255 then 255 else x
  }

  /** The number of versions whose cell k is 1. */
  function Ones(vs: seq<Version>, k: int): nat
  {
    if vs == [] then 0 else Ones(vs[..|vs| - 1], k) + (if Cell(vs[|vs| - 1], k) == 1 then 1 else 0)
  }

  predicate AllBinary(vs: seq<Version>)
  {
    forall v :: 0 <= v < |vs| ==> Rle.IsBinary(vs[v].cells)
  }

  // ---------------------------------------------------------------------------
  // Lemmas
  // ---------------------------------------------------------------------------

  /** Adding one more version to the sum. */
  lemma Sum255Step(vs: seq<Version>, v: nat, k: int)
    requires v < |vs|
    ensures Sum255(vs[..v + 1], k) == Sum255(vs[..v], k) + Cell(vs[v], k) * 255
  {
    assert vs[..v + 1][..v] == vs[..v];
  }

  /** For 0/1 versions the sum is 255 times the number of versions holding a 1. */
  lemma {:induction false} Sum255Binary(vs: seq<Version>, k: int)
    requires AllBinary(vs)
    ensures Sum255(vs, k) == 255 * Ones(vs, k)
    ensures Ones(vs, k) <= |vs|
  {
    if vs != [] {
      var init := vs[..|vs| - 1];
      var last := vs[|vs| - 1];
      assert AllBinary(init) by {
        forall v | 0 <= v < |init| ensures Rle.IsBinary(init[v].cells) {
          assert init[v] == vs[v];
        }
      }
      Sum255Binary(init, k);
      assert Cell(last, k) == 0 || Cell(last, k) == 1 by {
        if 0 <= k < |last.cells| {
          assert Rle.IsBinary(last.cells);
        }
      }
    }
  }

  /**
   * For 0/1 versions each output pixel is 255 * (number of ones) / (number of
   * versions), which already lies in [0, 255], so the clamp does nothing.
   */
  lemma BinaryAverage(vs: seq<Version>, k: int)
    requires |vs| >= 1 && AllBinary(vs)
    ensures Clamp(CDiv(Sum255(vs, k), |vs|)) == 255 * Ones(vs, k) / |vs|
    ensures 0 <= 255 * Ones(vs, k) / |vs| <= 255
  {
    Sum255Binary(vs, k);
    QuotientAtMost(255 * Ones(vs, k), |vs|, 255);
  }

  /** A quotient of x <= b * n by n is at most b. */
  lemma QuotientAtMost(x: int, n: int, b: int)
    requires n >= 1 && b >= 0 && 0 <= x <= b * n
    ensures 0 <= x / n <= b
  {
    var q := x / n;
    assert q * n + x % n == x;
    if q > b {
      assert false;
    }
  }

  /** Only live records with the name are collected, and the list grows by one for each. */
  lemma MatchingStep(index: seq<FlatStore.ImageIndex>, pos: nat, name: string)
    requires pos < |index|
    ensures Matching(index[..pos + 1], name)
         == Matching(index[..pos], name) + (if index[pos].name == name && index[pos].removed == 0 then [index[pos]] else [])
  {
    assert index[..pos + 1][..pos] == index[..pos];
  }

  /** Every collected record is a live record of the index with that name. */
  lemma {:induction false} MatchingSound(index: seq<FlatStore.ImageIndex>, name: string)
    ensures |Matching(index, name)| <= |index|
    ensures forall m :: 0 <= m < |Matching(index, name)| ==>
      && Matching(index, name)[m] in index
      && Matching(index, name)[m].name == name && Matching(index, name)[m].removed == 0
  {
    if index != [] {
      var init := index[..|index| - 1];
      MatchingSound(init, name);
      assert index == init + [index[|index| - 1]];
    }
  }

  /** A live record with the name is collected. */
  lemma {:induction false} MatchingComplete(index: seq<FlatStore.ImageIndex>, name: string, i: nat)
    requires i < |index| && index[i].name == name && index[i].removed == 0
    ensures index[i] in Matching(index, name)
  {
    var init := index[..|index| - 1];
    if i < |init| {
      assert init[i] == index[i];
      MatchingComplete(init, name, i);
    }
  }

  // ---------------------------------------------------------------------------
  // The reconstruction
  // ---------------------------------------------------------------------------

  /** Each version was decoded from the record at the same position. */
  ghost predicate AllDecoded(vs: seq<Version>, records: seq<FlatStore.ImageIndex>, data: seq<byte>)
  {
    |vs| == |records| && forall v :: 0 <= v < |vs| ==> DecodedFrom(vs[v], records[v], data)
  }

  lemma AllDecodedAppend(vs: seq<Version>, records: seq<FlatStore.ImageIndex>, data: seq<byte>,
                         v: Version, e: FlatStore.ImageIndex)
    requires AllDecoded(vs, records, data) && DecodedFrom(v, e, data)
    ensures AllDecoded(vs + [v], records + [e], data)
  {
  }

  /**
   * The collection loop: each live record with the name is decoded and
   * appended to a version array that starts with room for 10 and doubles
   * whenever it is full.
   */
  method CollectVersions(db: FlatStore.FlatDatabase, name: string) returns (versions: array<Version>, count: nat)
    requires db.Valid()
    ensures fresh(versions)
    ensures count <= versions.Length && versions.Length >= INITIAL_CAPACITY
    ensures AllDecoded(versions[..count], Matching(db.index, name), db.data)
  {
    var index := db.index;
    var data := db.data;
    var maxVersions := INITIAL_CAPACITY;
    versions := new Version[maxVersions];
    count := 0;
    ghost var collected: seq<Version> := [];
    var pos := 0;
    while pos < |index|
      invariant 0 <= pos <= |index|
      invariant fresh(versions) && versions.Length == maxVersions >= INITIAL_CAPACITY
      invariant count <= maxVersions && versions[..count] == collected
      invariant AllDecoded(collected, Matching(index[..pos], name), data)
    {
      MatchingStep(index, pos, name);
      var entry := index[pos];
      if entry.name == name && entry.removed == 0 {
        if count >= maxVersions {
          maxVersions := maxVersions * 2;
          versions := Grow(versions, count, maxVersions);
        }
        var version := Decode(data, entry);
        versions[count] := version;
        AllDecodedAppend(collected, Matching(index[..pos], name), data, version, entry);
        collected := collected + [version];
        count := count + 1;
        assert versions[..count] == collected;
      }
      pos := pos + 1;
    }
    assert index[..pos] == index;
  }

  /** realloc of the version array: a larger fresh array holding the same first `count` versions. */
  method Grow(versions: array<Version>, count: nat, capacity: nat) returns (grown: array<Version>)
    requires count <= versions.Length <= capacity
    ensures fresh(grown) && grown.Length == capacity
    ensures grown[..count] == versions[..count]
  {
    grown := new Version[capacity];
    var c := 0;
    while c < count
      invariant 0 <= c <= count
      invariant grown[..c] == versions[..c]
    {
      grown[c] := versions[c];
      assert grown[..c + 1] == grown[..c] + [versions[c]];
      c := c + 1;
    }
  }

  /** Read one record's payload and decode it into a version with maxGray 255. */
  method Decode(data: seq<byte>, entry: FlatStore.ImageIndex) returns (version: Version)
    requires FlatStore.RecordOk(entry, |data|)
    ensures DecodedFrom(version, entry, data)
  {
    var compressed := ReadBlob(data, entry.offset, entry.compressedSize);
    var pixels := Rle.DecompressRle(compressed, entry.width, entry.height);
    version := Version(entry.threshold, entry.width, entry.height, 255, pixels[..]);
  }

  /**
   * The dimension check and the averaging: null when some version's width or
   * height differs from the first's; otherwise a fresh image of those
   * dimensions, maxGray 255, whose pixel k is the clamped truncating mean of
   * 255 * (cell k) over the versions.
   */
  method Average(versions: array<Version>, count: nat) returns (img: Rle.PgmImage?)
    requires 1 <= count <= versions.Length
    requires forall v :: 0 <= v < count ==>
      versions[v].width >= 1 && versions[v].height >= 1 && |versions[v].cells| == versions[v].width * versions[v].height
    ensures img == null <==> !SameDims(versions[..count])
    ensures img != null ==>
      && fresh(img) && fresh(img.pixels) && img.Valid()
      && img.width == versions[0].width && img.height == versions[0].height && img.maxGray == 255
      && forall k :: 0 <= k < img.pixels.Length ==>
           img.pixels[k] == Clamp(CDiv(Sum255(versions[..count], k), count))
  {
    ghost var vs := versions[..count];
    var width := versions[0].width;
    var height := versions[0].height;
    var i := 1;
    while i < count
      invariant 1 <= i <= count
      invariant forall v :: 0 <= v < i ==> vs[v].width == width && vs[v].height == height
    {
      if versions[i].width != width || versions[i].height != height {
        return null;
      }
      i := i + 1;
    }
    var sum := new int[width * height](_ => 0);
    var v := 0;
    while v < count
      invariant 0 <= v <= count
      invariant forall k :: 0 <= k < sum.Length ==> sum[k] == Sum255(vs[..v], k)
    {
      AddVersion(sum, width, height, versions[v].cells, vs, v);
      v := v + 1;
    }
    assert vs[..count] == vs;
    Normalize(sum, width, height, count, vs);
    img := new Rle.PgmImage.FromPixels(width, height, 255, sum);
  }

  /** The summing loop for version v: add 255 * (cell k) of that version to every cell k. */
  method AddVersion(sum: array<int>, width: nat, height: nat, cells: seq<int>, ghost vs: seq<Version>, v: nat)
    requires v < |vs| && cells == vs[v].cells && sum.Length == width * height && |cells| == sum.Length
    requires forall k :: 0 <= k < sum.Length ==> sum[k] == Sum255(vs[..v], k)
    modifies sum
    ensures forall k :: 0 <= k < sum.Length ==> sum[k] == Sum255(vs[..v + 1], k)
  {
    ghost var cursor := 0;
    var r := 0;
    while r < height
      invariant 0 <= r <= height && cursor == r * width <= sum.Length
      invariant forall k :: 0 <= k < cursor ==> sum[k] == Sum255(vs[..v + 1], k)
      invariant forall k :: cursor <= k < sum.Length ==> sum[k] == Sum255(vs[..v], k)
    {
      Rle.RowInside(r, width, height);
      var c := 0;
      while c < width
        invariant 0 <= c <= width && cursor == r * width + c
        invariant forall k :: 0 <= k < cursor ==> sum[k] == Sum255(vs[..v + 1], k)
        invariant forall k :: cursor <= k < sum.Length ==> sum[k] == Sum255(vs[..v], k)
      {
        var cell := r * width + c;
        Sum255Step(vs, v, cell);
        sum[cell] := sum[cell] + cells[cell] * 255;
        c := c + 1;
        cursor := cursor + 1;
      }
      r := r + 1;
    }
  }

  /** The averaging loop: divide every sum by the number of versions, truncating, and clamp to [0, 255]. */
  method Normalize(sum: array<int>, width: nat, height: nat, count: nat, ghost vs: seq<Version>)
    requires count == |vs| >= 1 && sum.Length == width * height
    requires forall k :: 0 <= k < sum.Length ==> sum[k] == Sum255(vs, k)
    modifies sum
    ensures forall k :: 0 <= k < sum.Length ==> sum[k] == Clamp(CDiv(Sum255(vs, k), count))
  {
    ghost var cursor := 0;
    var r := 0;
    while r < height
      invariant 0 <= r <= height && cursor == r * width <= sum.Length
      invariant forall k :: 0 <= k < cursor ==> sum[k] == Clamp(CDiv(Sum255(vs, k), count))
      invariant forall k :: cursor <= k < sum.Length ==> sum[k] == Sum255(vs, k)
    {
      Rle.RowInside(r, width, height);
      var c := 0;
      while c < width
        invariant 0 <= c <= width && cursor == r * width + c
        invariant forall k :: 0 <= k < cursor ==> sum[k] == Clamp(CDiv(Sum255(vs, k), count))
        invariant forall k :: cursor <= k < sum.Length ==> sum[k] == Sum255(vs, k)
      {
        var cell := r * width + c;
        sum[cell] := if sum[cell] >= 0 then sum[cell] / count else -((-sum[cell]) / count);
        if sum[cell] < 0 {
          sum[cell] := 0;
        }
        if sum[cell] > 255 {
          sum[cell] := 255;
        }
        c := c + 1;
        cursor := cursor + 1;
      }
      r := r + 1;
    }
  }

  /**
   * reconstructOriginalImage, up to writing the result to a PGM file: null
   * when no live record has the name or when the versions disagree on their
   * dimensions; otherwise the averaged image of the decoded versions `vs`.
   */
  method Reconstruct(db: FlatStore.FlatDatabase, name: string) returns (img: Rle.PgmImage?, ghost vs: seq<Version>)
    requires db.Valid()
    ensures |vs| == |Matching(db.index, name)|
    ensures forall v :: 0 <= v < |vs| ==> DecodedFrom(vs[v], Matching(db.index, name)[v], db.data)
    ensures img == null <==> |vs| == 0 || !SameRecordDims(Matching(db.index, name))
    ensures img != null ==>
      && fresh(img) && fresh(img.pixels) && img.Valid()
      && img.width == Matching(db.index, name)[0].width && img.height == Matching(db.index, name)[0].height
      && img.maxGray == 255
      && forall k :: 0 <= k < img.pixels.Length ==> img.pixels[k] == Clamp(CDiv(Sum255(vs, k), |vs|))
  {
    var versions, count := CollectVersions(db, name);
    vs := versions[..count];
    MatchingSound(db.index, name);
    if count == 0 {
      return null, vs;
    }
    ghost var records := Matching(db.index, name);
    assert SameDims(vs) <==> SameRecordDims(records) by {
      assert forall v :: 0 <= v < count ==> vs[v].width == records[v].width && vs[v].height == records[v].height;
    }
    img := Average(versions, count);
  }
}
