/**
 * The flat index store of T1/database.c. The index file is a sequence of
 * ImageIndex records and the data file a sequence of bytes; each record
 * points at the compressed payload of one binarized image in the data file.
 * Records are never deleted in place: removal sets their `removed` flag and
 * compaction rewrites both files without the removed records.
 */
module FlatStore {
  import opened Bytes
  import opened Wrappers
  import BTreeNode
  import Rle

  /** One record of the index file (T1/image_manager.h). `removed` is 0 for a live record. */
  datatype ImageIndex = ImageIndex(
    name: string,
    threshold: int,
    offset: int,
    compressedSize: nat,
    width: int,
    height: int,
    maxGray: int,
    removed: int)

  predicate Live(e: ImageIndex)
  {
    e.removed == 0
  }

  /** The test `strcmp(entry.name, name) == 0 && entry.threshold == threshold && !entry.removed`. */
  predicate Matches(e: ImageIndex, name: string, threshold: int)
  {
    e.name == name && e.threshold == threshold && Live(e)
  }

  /** A record whose payload lies inside the data file and can be decoded. */
  predicate RecordOk(e: ImageIndex, dataSize: int)
  {
    0 <= e.offset && e.offset + e.compressedSize <= dataSize
    && e.compressedSize >= 1 && e.width >= 1 && e.height >= 1
  }

  // ---------------------------------------------------------------------------
  // Specification functions
  // ---------------------------------------------------------------------------

  /** Number of live records. */
  function CountLive(index: seq<ImageIndex>): nat
  {
    if index == [] then 0
    else CountLive(index[..|index| - 1]) + (if Live(index[|index| - 1]) then 1 else 0)
  }

  /** The live records, in index order. */
  function Kept(index: seq<ImageIndex>): seq<ImageIndex>
  {
    if index == [] then []
    else Kept(index[..|index| - 1]) + (if Live(index[|index| - 1]) then [index[|index| - 1]] else [])
  }

  /** Sum of the payload sizes of some records. */
  function SizeSum(records: seq<ImageIndex>): nat
  {
    if records == [] then 0 else SizeSum(records[..|records| - 1]) + records[|records| - 1].compressedSize
  }

  /** The first live record matching name and threshold. */
  function FindLive(index: seq<ImageIndex>, name: string, threshold: int): (r: Option<nat>)
    ensures r.Some? ==> r.value < |index| && Matches(index[r.value], name, threshold)
    ensures r.Some? ==> forall i :: 0 <= i < r.value ==> !Matches(index[i], name, threshold)
    ensures r.None? ==> forall i :: 0 <= i < |index| ==> !Matches(index[i], name, threshold)
  {
    if index == [] then None
    else if Matches(index[0], name, threshold) then Some(0)
    else match FindLive(index[1..], name, threshold)
      case None => None
      case Some(j) => Some(j + 1)
  }

  /** The index after removeImageFromDatabase: the first live match, if any, is flagged removed. */
  function MarkRemoved(index: seq<ImageIndex>, name: string, threshold: int): seq<ImageIndex>
  {
    match FindLive(index, name, threshold)
    case None => index
    case Some(j) => index[j := index[j].(removed := 1)]
  }

  /**
   * Both files after compactDatabase: the live records in order, each moved to
   * the running end of the new data file with its payload copied there.
   */
  function Compacted(index: seq<ImageIndex>, data: seq<byte>): (seq<ImageIndex>, seq<byte>)
  {
    if index == [] then ([], [])
    else
      var (newIndex, newData) := Compacted(index[..|index| - 1], data);
      var e := index[|index| - 1];
      if !Live(e) then (newIndex, newData)
      else (newIndex + [e.(offset := |newData|)], newData + ReadBlob(data, e.offset, e.compressedSize))
  }

  /**
   * The record retrieveImageFromDatabase decodes. Its loop reads the next
   * record before it tests whether the previous one matched, so it decodes
   * the record after the first live match unless that match is the last one.
   */
  function RetrievedRecord(index: seq<ImageIndex>, name: string, threshold: int): Option<ImageIndex>
  {
    match FindLive(index, name, threshold)
    case None => None
    case Some(j) => Some(if j + 1 < |index| then index[j + 1] else index[j])
  }

  // ---------------------------------------------------------------------------
  // Lemmas
  // ---------------------------------------------------------------------------

  lemma {:induction false} KeptCount(index: seq<ImageIndex>)
    ensures |Kept(index)| == CountLive(index) <= |index|
    ensures forall m :: 0 <= m < |Kept(index)| ==> Live(Kept(index)[m])
  {
    if index != [] {
      KeptCount(index[..|index| - 1]);
    }
  }

  /** Appending a record adds one to the live count exactly when it is live. */
  lemma CountLiveAppend(index: seq<ImageIndex>, e: ImageIndex)
    ensures CountLive(index + [e]) == CountLive(index) + (if Live(e) then 1 else 0)
  {
    assert (index + [e])[..|index|] == index;
  }

  /** Flagging one live record removed lowers the live count by exactly one. */
  lemma {:induction false} CountLiveMark(index: seq<ImageIndex>, j: nat)
    requires j < |index| && Live(index[j])
    ensures CountLive(index[j := index[j].(removed := 1)]) == CountLive(index) - 1
    decreases |index|
  {
    var after := index[j := index[j].(removed := 1)];
    var n := |index| - 1;
    if j == n {
      assert after[..n] == index[..n];
    } else {
      assert after[..n] == index[..n][j := index[j].(removed := 1)];
      CountLiveMark(index[..n], j);
    }
  }

  /**
   * removeImageFromDatabase changes only the first live match, which becomes
   * removed, and lowers the live count by one; without a match nothing changes.
   */
  lemma MarkRemovedEffect(index: seq<ImageIndex>, name: string, threshold: int)
    ensures |MarkRemoved(index, name, threshold)| == |index|
    ensures FindLive(index, name, threshold).None? ==> MarkRemoved(index, name, threshold) == index
    ensures FindLive(index, name, threshold).Some? ==>
      var j := FindLive(index, name, threshold).value;
      && MarkRemoved(index, name, threshold)[j].removed == 1
      && (forall i :: 0 <= i < |index| && i != j ==> MarkRemoved(index, name, threshold)[i] == index[i])
      && CountLive(MarkRemoved(index, name, threshold)) == CountLive(index) - 1
  {
    if FindLive(index, name, threshold).Some? {
      CountLiveMark(index, FindLive(index, name, threshold).value);
    }
  }

  /**
   * Compaction keeps exactly the live records in order, moving each to offset
   * SizeSum of the kept records before it, and the new data file is exactly
   * as long as their payloads.
   */
  lemma {:induction false} CompactedShape(index: seq<ImageIndex>, data: seq<byte>)
    ensures |Compacted(index, data).0| == |Kept(index)|
    ensures |Compacted(index, data).1| == SizeSum(Kept(index))
    ensures forall m :: 0 <= m < |Kept(index)| ==>
      Compacted(index, data).0[m] == Kept(index)[m].(offset := SizeSum(Kept(index)[..m]))
  {
    if index != [] {
      CompactedShape(index[..|index| - 1], data);
      CompactedStep(index, data);
    }
  }

  /** The inductive step of CompactedShape: one more record after a prefix that has its shape. */
  lemma CompactedStep(index: seq<ImageIndex>, data: seq<byte>)
    requires index != []
    requires var init := index[..|index| - 1];
             && |Compacted(init, data).0| == |Kept(init)|
             && |Compacted(init, data).1| == SizeSum(Kept(init))
             && forall m :: 0 <= m < |Kept(init)| ==>
                  Compacted(init, data).0[m] == Kept(init)[m].(offset := SizeSum(Kept(init)[..m]))
    ensures |Compacted(index, data).0| == |Kept(index)|
    ensures |Compacted(index, data).1| == SizeSum(Kept(index))
    ensures forall m :: 0 <= m < |Kept(index)| ==>
      Compacted(index, data).0[m] == Kept(index)[m].(offset := SizeSum(Kept(index)[..m]))
  {
    var init := index[..|index| - 1];
    var e := index[|index| - 1];
    var (ni, nd) := Compacted(init, data);
    var kept := Kept(index);
    if Live(e) {
      assert kept == Kept(init) + [e];
      assert kept[..|kept| - 1] == Kept(init);
      var ni' := ni + [e.(offset := |nd|)];
      assert Compacted(index, data) == (ni', nd + ReadBlob(data, e.offset, e.compressedSize));
      assert SizeSum(kept) == SizeSum(Kept(init)) + e.compressedSize;
      forall m | 0 <= m < |kept|
        ensures ni'[m] == kept[m].(offset := SizeSum(kept[..m]))
      {
        if m < |Kept(init)| {
          assert kept[..m] == Kept(init)[..m];
        } else {
          assert kept[..m] == Kept(init);
        }
      }
    } else {
      assert kept == Kept(init);
      assert Compacted(index, data) == (ni, nd);
    }
  }

  /**
   * Compaction copies every kept payload unchanged: the bytes at a kept
   * record's new offset in the new data file are the bytes at its old offset
   * in the old one, and the new range lies inside the new file.
   */
  lemma {:induction false} CompactedPayloads(index: seq<ImageIndex>, data: seq<byte>)
    ensures |Compacted(index, data).0| == |Kept(index)|
    ensures forall m :: 0 <= m < |Kept(index)| ==>
      var e := Compacted(index, data).0[m];
      && 0 <= e.offset && e.offset + e.compressedSize <= |Compacted(index, data).1|
      && ReadBlob(Compacted(index, data).1, e.offset, e.compressedSize)
         == ReadBlob(data, Kept(index)[m].offset, Kept(index)[m].compressedSize)
  {
    if index != [] {
      var init := index[..|index| - 1];
      var last := index[|index| - 1];
      CompactedPayloads(init, data);
      var (ni, nd) := Compacted(init, data);
      if Live(last) {
        var blob := ReadBlob(data, last.offset, last.compressedSize);
        var nd' := nd + blob;
        var ni' := ni + [last.(offset := |nd|)];
        assert Compacted(index, data) == (ni', nd');
        assert Kept(index) == Kept(init) + [last];
        forall m | 0 <= m < |Kept(index)|
          ensures 0 <= ni'[m].offset && ni'[m].offset + ni'[m].compressedSize <= |nd'|
          ensures ReadBlob(nd', ni'[m].offset, ni'[m].compressedSize)
                  == ReadBlob(data, Kept(index)[m].offset, Kept(index)[m].compressedSize)
        {
          if m < |Kept(init)| {
            BlobExtend(nd, blob, ni[m].offset, ni[m].compressedSize);
          } else {
            BlobShift(nd, blob);
          }
        }
      } else {
        assert Kept(index) == Kept(init);
      }
    }
  }

  predicate AllOk(records: seq<ImageIndex>, dataSize: int)
  {
    forall i :: 0 <= i < |records| ==> RecordOk(records[i], dataSize)
  }

  lemma {:induction false} KeptOk(index: seq<ImageIndex>, dataSize: int)
    requires AllOk(index, dataSize)
    ensures AllOk(Kept(index), dataSize)
  {
    if index != [] {
      KeptOk(index[..|index| - 1], dataSize);
    }
  }

  /** Compaction keeps every record decodable and inside the new data file. */
  lemma CompactedValid(index: seq<ImageIndex>, data: seq<byte>)
    requires AllOk(index, |data|)
    ensures AllOk(Compacted(index, data).0, |Compacted(index, data).1|)
  {
    CompactedPayloads(index, data);
    CompactedShape(index, data);
    KeptOk(index, |data|);
  }

  /** The intended lookup decodes the first live match itself. */
  lemma FindLiveIsFirst(index: seq<ImageIndex>, name: string, threshold: int, i: nat)
    requires i < |index| && Matches(index[i], name, threshold)
    ensures FindLive(index, name, threshold).Some?
    ensures FindLive(index, name, threshold).value <= i
  {
  }

  /**
   * With two live records A and B, asking for A decodes B: retrieval returns
   * a record that does not match the request.
   */
  lemma ReadAheadReturnsNext()
    ensures
      var a := ImageIndex("a.pgm", 100, 0, 2, 1, 1, 1, 0);
      var b := ImageIndex("b.pgm", 100, 2, 2, 1, 1, 1, 0);
      && FindLive([a, b], "a.pgm", 100) == Some(0)
      && RetrievedRecord([a, b], "a.pgm", 100) == Some(b)
      && !Matches(b, "a.pgm", 100)
  {
    var a := ImageIndex("a.pgm", 100, 0, 2, 1, 1, 1, 0);
    var b := ImageIndex("b.pgm", 100, 2, 2, 1, 1, 1, 0);
    assert "b.pgm"[0] != "a.pgm"[0];
  }

  /** The retrieved record is the first live match only when that match is the last record. */
  lemma RetrievedRecordIsMatch(index: seq<ImageIndex>, name: string, threshold: int)
    ensures RetrievedRecord(index, name, threshold).None? <==> FindLive(index, name, threshold).None?
    ensures FindLive(index, name, threshold).Some? && FindLive(index, name, threshold).value == |index| - 1 ==>
      RetrievedRecord(index, name, threshold) == Some(index[|index| - 1])
    ensures FindLive(index, name, threshold).Some? && FindLive(index, name, threshold).value < |index| - 1 ==>
      RetrievedRecord(index, name, threshold) == Some(index[FindLive(index, name, threshold).value + 1])
  {
  }

  // ---------------------------------------------------------------------------
  // The database
  // ---------------------------------------------------------------------------

  class FlatDatabase {
    var index: seq<ImageIndex>
    var data: seq<byte>

    /** Every record points at a decodable payload inside the data file. */
    ghost predicate Valid()
      reads this
    {
      AllOk(index, |data|)
    }

    /** initializeDatabase: both files exist, empty when new. */
    constructor ()
      ensures Valid() && index == [] && data == []
    {
      index := [];
      data := [];
    }

    /**
     * addImageToDatabase, for an image already read from its file: binarize
     * it, compress it, append the payload to the data file and one live
     * record pointing at it to the index file.
     */
    method AddImage(filename: string, threshold: int, img: Rle.PgmImage)
      requires Valid() && img.Valid() && img.width >= 1 && img.height >= 1
      modifies this, img, img.pixels
      ensures Valid()
      ensures var payload := Rle.Compress(Rle.Thresholded(old(img.pixels[..]), threshold));
        && data == old(data) + payload
        && index == old(index) + [ImageIndex(BTreeNode.TruncateName(filename), threshold, |old(data)|,
                                             |payload|, old(img.width), old(img.height), 1, 0)]
    {
      img.Binarize(threshold);
      var compressed := Rle.CompressRle(img.pixels, img.width, img.height);
      Rle.CompressShape(img.pixels[..]);
      var offset := |data|;
      data := data + compressed;
      var entry := ImageIndex(BTreeNode.TruncateName(filename), threshold, offset, |compressed|,
                              img.width, img.height, img.maxGray, 0);
      index := index + [entry];
    }

    /** listImagesInDatabase: the number of live records. */
    method ListImages() returns (count: int)
      ensures count == CountLive(index)
    {
      count := 0;
      var pos := 0;
      while pos < |index|
        invariant 0 <= pos <= |index|
        invariant count == CountLive(index[..pos])
      {
        assert index[..pos + 1][..pos] == index[..pos];
        if index[pos].removed == 0 {
          count := count + 1;
        }
        pos := pos + 1;
      }
      assert index[..pos] == index;
    }

    /** removeImageFromDatabase: flag the first live match removed; report whether there was one. */
    method RemoveImage(name: string, threshold: int) returns (found: bool)
      requires Valid()
      modifies this
      ensures Valid() && data == old(data)
      ensures found <==> FindLive(old(index), name, threshold).Some?
      ensures index == MarkRemoved(old(index), name, threshold)
    {
      found := false;
      var position := 0;
      while position < |index|
        invariant 0 <= position <= |index|
        invariant forall i :: 0 <= i < position ==> !Matches(index[i], name, threshold)
      {
        var entry := index[position];
        if entry.name == name && entry.threshold == threshold && entry.removed == 0 {
          FindLiveIsFirst(index, name, threshold, position);
          index := index[position := entry.(removed := 1)];
          found := true;
          break;
        }
        position := position + 1;
      }
    }

    /**
     * compactDatabase: rewrite both files with only the live records, each
     * payload copied to the running end of the new data file; returns the
     * number of records kept.
     */
    method Compact() returns (keptCount: int)
      requires Valid()
      modifies this
      ensures Valid()
      ensures (index, data) == Compacted(old(index), old(data))
      ensures keptCount == CountLive(old(index))
    {
      var newIndex: seq<ImageIndex> := [];
      var newData: seq<byte> := [];
      var newOffset := 0;
      keptCount := 0;
      var pos := 0;
      while pos < |index|
        invariant 0 <= pos <= |index|
        invariant (newIndex, newData) == Compacted(index[..pos], data)
        invariant newOffset == |newData| && keptCount == |newIndex|
      {
        assert index[..pos + 1][..pos] == index[..pos];
        var entry := index[pos];
        if entry.removed == 0 {
          var payload := ReadBlob(data, entry.offset, entry.compressedSize);
          entry := entry.(offset := newOffset);
          newData := newData + payload;
          newIndex := newIndex + [entry];
          newOffset := newOffset + entry.compressedSize;
          keptCount := keptCount + 1;
        }
        pos := pos + 1;
      }
      assert index[..pos] == index;
      CompactedValid(index, data);
      CompactedShape(index, data);
      KeptCount(index);
      index, data := newIndex, newData;
    }

    /**
     * retrieveImageFromDatabase, up to the decoded image that it then writes
     * to a PGM file: null when no live record matches, otherwise the image
     * decoded from RetrievedRecord, which is the record after the match
     * whenever the match is not the last record.
     */
    method RetrieveImage(name: string, threshold: int) returns (img: Rle.PgmImage?)
      requires Valid()
      ensures img == null <==> FindLive(index, name, threshold).None?
      ensures img != null ==>
        var e := RetrievedRecord(index, name, threshold).value;
        var payload := data[e.offset..e.offset + e.compressedSize];
        && fresh(img) && fresh(img.pixels) && img.Valid()
        && img.width == e.width && img.height == e.height && img.maxGray == e.maxGray
        && |Rle.Decompress(payload, e.width * e.height)| <= img.pixels.Length
        && img.pixels[..|Rle.Decompress(payload, e.width * e.height)|] == Rle.Decompress(payload, e.width * e.height)
    {
      var found := false;
      var entry: Option<ImageIndex> := None;
      ghost var matchAt := 0;
      var pos := 0;
      while pos < |index|
        invariant 0 <= pos <= |index|
        invariant !found ==> forall i :: 0 <= i < pos ==> !Matches(index[i], name, threshold)
        invariant !found && pos > 0 ==> entry == Some(index[pos - 1])
        invariant found ==> matchAt == pos - 1 && 0 <= matchAt && Matches(index[matchAt], name, threshold)
        invariant found ==> entry == Some(index[matchAt])
        invariant found ==> forall i :: 0 <= i < matchAt ==> !Matches(index[i], name, threshold)
      {
        entry := Some(index[pos]);
        pos := pos + 1;
        if found {
          break;
        }
        var e := entry.value;
        if e.name == name && e.threshold == threshold && e.removed == 0 {
          found := true;
          matchAt := pos - 1;
        }
      }
      if !found {
        return null;
      }
      assert entry == Some(if matchAt + 1 < |index| then index[matchAt + 1] else index[matchAt]);
      FindLiveIsFirst(index, name, threshold, matchAt);
      assert FindLive(index, name, threshold) == Some(matchAt);
      var e := entry.value;
      assert RecordOk(e, |data|);
      var payload := ReadBlob(data, e.offset, e.compressedSize);
      var pixels := Rle.DecompressRle(payload, e.width, e.height);
      img := new Rle.PgmImage.FromPixels(e.width, e.height, e.maxGray, pixels);
    }

    /**
     * Retrieval as evidently intended: the scan stops at the first live
     * match, so the decoded record is the one the request names.
     */
    method RetrieveMatch(name: string, threshold: int) returns (img: Rle.PgmImage?)
      requires Valid()
      ensures img == null <==> FindLive(index, name, threshold).None?
      ensures img != null ==>
        var e := index[FindLive(index, name, threshold).value];
        var payload := data[e.offset..e.offset + e.compressedSize];
        && Matches(e, name, threshold)
        && fresh(img) && fresh(img.pixels) && img.Valid()
        && img.width == e.width && img.height == e.height && img.maxGray == e.maxGray
        && |Rle.Decompress(payload, e.width * e.height)| <= img.pixels.Length
        && img.pixels[..|Rle.Decompress(payload, e.width * e.height)|] == Rle.Decompress(payload, e.width * e.height)
    {
      var pos := 0;
      while pos < |index| && !Matches(index[pos], name, threshold)
        invariant 0 <= pos <= |index|
        invariant forall i :: 0 <= i < pos ==> !Matches(index[i], name, threshold)
      {
        pos := pos + 1;
      }
      if pos == |index| {
        return null;
      }
      FindLiveIsFirst(index, name, threshold, pos);
      var e := index[pos];
      assert RecordOk(e, |data|);
      var payload := ReadBlob(data, e.offset, e.compressedSize);
      var pixels := Rle.DecompressRle(payload, e.width, e.height);
      img := new Rle.PgmImage.FromPixels(e.width, e.height, e.maxGray, pixels);
    }
  }
}
