/**
 * The B-tree image store of T2/image.c: the data file image_data.dat, to
 * which compressed images are appended, indexed by the paged B-tree of
 * T2/btree.c (one key per stored version), and the compaction that copies
 * every indexed payload into a fresh data file while rewriting each key's
 * data_offset.
 */
module ImageStore {
  import opened Bytes
  import opened BTreeNode
  import opened BTree
  import Rle

  // ---------------------------------------------------------------------
  // Key sequences: consecutive placement and the payloads they point at
  // ---------------------------------------------------------------------

  /** Total data_size of a sequence of keys. */
  function SizeSum(ks: seq<Key>): nat
  {
    if ks == [] then 0 else ks[0].dataSize + SizeSum(ks[1..])
  }

  /** The keys with their payloads laid out back to back from `base`, in sequence order. */
  function Renumber(ks: seq<Key>, base: int): (r: seq<Key>)
    ensures |r| == |ks|
  {
    if ks == [] then [] else [ks[0].(dataOffset := base)] + Renumber(ks[1..], base + ks[0].dataSize)
  }

  /** The bytes each key points at in `file`, concatenated in sequence order. */
  function Payloads(file: seq<byte>, ks: seq<Key>): (r: seq<byte>)
    ensures |r| == SizeSum(ks)
  {
    if ks == [] then [] else ReadBlob(file, ks[0].dataOffset, ks[0].dataSize) + Payloads(file, ks[1..])
  }

  lemma {:induction false} SizeSumConcat(a: seq<Key>, b: seq<Key>)
    ensures SizeSum(a + b) == SizeSum(a) + SizeSum(b)
  {
    if a != [] {
      assert (a + b)[1..] == a[1..] + b;
      SizeSumConcat(a[1..], b);
    } else {
      assert a + b == b;
    }
  }

  /** Renumbering a concatenation continues where the first part ends. */
  lemma {:induction false} RenumberConcat(a: seq<Key>, b: seq<Key>, base: int)
    ensures Renumber(a + b, base) == Renumber(a, base) + Renumber(b, base + SizeSum(a))
  {
    if a != [] {
      assert (a + b)[1..] == a[1..] + b;
      RenumberConcat(a[1..], b, base + a[0].dataSize);
    } else {
      assert a + b == b;
    }
  }

  lemma {:induction false} PayloadsConcat(file: seq<byte>, a: seq<Key>, b: seq<Key>)
    ensures Payloads(file, a + b) == Payloads(file, a) + Payloads(file, b)
  {
    if a != [] {
      assert (a + b)[1..] == a[1..] + b;
      PayloadsConcat(file, a[1..], b);
    } else {
      assert a + b == b;
    }
  }

  /** After renumbering, key m starts at base plus the sizes of the keys before it; nothing else changes. */
  lemma {:induction false} RenumberAt(ks: seq<Key>, base: int, m: int)
    requires 0 <= m < |ks|
    ensures Renumber(ks, base)[m] == ks[m].(dataOffset := base + SizeSum(ks[..m]))
  {
    if m > 0 {
      RenumberAt(ks[1..], base + ks[0].dataSize, m - 1);
      assert ks[..m] == [ks[0]] + ks[1..][..m - 1];
      SizeSumConcat([ks[0]], ks[1..][..m - 1]);
    }
  }

  /** In the concatenated payloads, the bytes of key m start after the sizes of the keys before it. */
  lemma {:induction false} PayloadAt(file: seq<byte>, ks: seq<Key>, m: int)
    requires 0 <= m < |ks|
    ensures SizeSum(ks[..m]) + ks[m].dataSize <= SizeSum(ks)
    ensures Payloads(file, ks)[SizeSum(ks[..m])..SizeSum(ks[..m]) + ks[m].dataSize]
         == ReadBlob(file, ks[m].dataOffset, ks[m].dataSize)
  {
    assert ks == ks[..m] + [ks[m]] + ks[m + 1..];
    PayloadsConcat(file, ks[..m] + [ks[m]], ks[m + 1..]);
    PayloadsConcat(file, ks[..m], [ks[m]]);
    SizeSumConcat(ks[..m] + [ks[m]], ks[m + 1..]);
    SizeSumConcat(ks[..m], [ks[m]]);
    assert Payloads(file, [ks[m]]) == ReadBlob(file, ks[m].dataOffset, ks[m].dataSize);
  }

  /**
   * Laying out the payloads of `ks` back to back in a new file and
   * renumbering the keys from 0 is a faithful copy: reading any key back at
   * its new offset in the new file gives the bytes it pointed at in the old.
   */
  lemma CopiedPayload(file: seq<byte>, ks: seq<Key>, m: int)
    requires 0 <= m < |ks|
    ensures var k := Renumber(ks, 0)[m];
            ReadBlob(Payloads(file, ks), k.dataOffset, k.dataSize) == ReadBlob(file, ks[m].dataOffset, ks[m].dataSize)
  {
    RenumberAt(ks, 0, m);
    PayloadAt(file, ks, m);
  }

  // ---------------------------------------------------------------------
  // Rewriting data offsets in the page arena
  // ---------------------------------------------------------------------

  /** `b` is page content `a` with, at most, other data offsets in its key slots. */
  predicate Reoffset(a: Node, b: Node)
  {
    && a.isLeaf == b.isLeaf && a.numKeys == b.numKeys && a.children == b.children
    && a.selfOffset == b.selfOffset && |a.keys| == |b.keys|
    && forall j :: 0 <= j < |a.keys| ==> b.keys[j] == a.keys[j].(dataOffset := b.keys[j].dataOffset)
  }

  /** The arenas hold the same pages, which differ at most in data offsets. */
  ghost predicate SameShape(p: map<int, Node>, q: map<int, Node>)
  {
    p.Keys == q.Keys && forall o {:trigger p[o], q[o]} :: o in p ==> Reoffset(p[o], q[o])
  }

  lemma ReoffsetTrans(a: Node, b: Node, c: Node)
    requires Reoffset(a, b) && Reoffset(b, c)
    ensures Reoffset(a, c)
  {
    forall j | 0 <= j < |a.keys|
      ensures c.keys[j] == a.keys[j].(dataOffset := c.keys[j].dataOffset)
    {
      assert b.keys[j] == a.keys[j].(dataOffset := b.keys[j].dataOffset);
    }
  }

  lemma SameShapeTrans(p: map<int, Node>, q: map<int, Node>, r: map<int, Node>)
    requires SameShape(p, q) && SameShape(q, r)
    ensures SameShape(p, r)
  {
    forall o | o in p
      ensures Reoffset(p[o], r[o])
    {
      ReoffsetTrans(p[o], q[o], r[o]);
    }
  }

  /** Changing data offsets keeps every page fitting its offset. */
  lemma ShapeValid(p: map<int, Node>, q: map<int, Node>, height: map<int, nat>)
    requires ArenaValid(p, height) && SameShape(p, q)
    ensures ArenaValid(q, height)
  {
    forall o | o in q
      ensures Fits(height, q[o], o)
    {
      assert Fits(height, p[o], o);
    }
  }

  /**
   * database_compact_recursive (T2/image.c:408-436) on the arena `pages`,
   * from the page at offset `o`: the page is read once; for each slot its
   * child subtree is compacted first (on an internal page), then the slot's
   * payload is read from `file` and appended to `out`, and the slot's data
   * offset becomes where the payload landed; the last child follows; the
   * page copy is written back. Returns the arena and the new data file.
   */
  ghost function CompactPage(pages: map<int, Node>, height: map<int, nat>, o: int, file: seq<byte>, out: seq<byte>)
    : (r: (map<int, Node>, seq<byte>))
    requires ArenaValid(pages, height) && o in pages
    ensures SameShape(pages, r.0) && ArenaValid(r.0, height)
    ensures |out| <= |r.1| && r.1[..|out|] == out
    decreases height[o], 1
  {
    assert Fits(height, pages[o], o);
    var s := CompactSlots(pages, height, pages[o], height[o], 0, file, out);
    var p := s.0[o := s.2];
    assert SameShape(s.0, p);
    SameShapeTrans(pages, s.0, p);
    ShapeValid(pages, p, height);
    (p, s.1)
  }

  /** The slots of the page copy `n` from slot `i` on; also returns the updated copy. */
  ghost function CompactSlots(pages: map<int, Node>, height: map<int, nat>, n: Node, h: nat, i: int, file: seq<byte>, out: seq<byte>)
    : (r: (map<int, Node>, seq<byte>, Node))
    requires ArenaValid(pages, height) && FitsAt(height, n, h) && 0 <= i <= n.numKeys
    ensures SameShape(pages, r.0) && ArenaValid(r.0, height)
    ensures Reoffset(n, r.2) && r.2.keys[..i] == n.keys[..i]
    ensures |out| <= |r.1| && r.1[..|out|] == out
    decreases h, 0, n.numKeys - i
  {
    var s := if n.isLeaf then (pages, out) else CompactPage(pages, height, n.children[i], file, out);
    if i == n.numKeys then
      (s.0, s.1, n)
    else
      var k := n.keys[i];
      var n' := n.(keys := n.keys[i := k.(dataOffset := |s.1|)]);
      var out' := s.1 + ReadBlob(file, k.dataOffset, k.dataSize);
      var r := CompactSlots(s.0, height, n', h, i + 1, file, out');
      SameShapeTrans(pages, s.0, r.0);
      ReoffsetTrans(n, n', r.2);
      assert r.2.keys[..i] == r.2.keys[..i + 1][..i];
      assert out'[..|out|] == out;
      r
  }

  /** One slot of CompactSlots: the child subtree, then the slot's payload. */
  lemma CompactSlotsStep(pages: map<int, Node>, height: map<int, nat>, n: Node, h: nat, i: int, file: seq<byte>, out: seq<byte>)
    requires ArenaValid(pages, height) && FitsAt(height, n, h) && 0 <= i < n.numKeys
    ensures !n.isLeaf ==> n.children[i] in pages
    ensures var s := if n.isLeaf then (pages, out) else CompactPage(pages, height, n.children[i], file, out);
            var k := n.keys[i];
            (CompactSlots(pages, height, n, h, i, file, out)
             == CompactSlots(s.0, height, n.(keys := n.keys[i := k.(dataOffset := |s.1|)]), h, i + 1, file,
                             s.1 + ReadBlob(file, k.dataOffset, k.dataSize)))
  {
  }

  // ---------------------------------------------------------------------
  // Subtrees, sharing, and what compaction does to the in-order walk
  // ---------------------------------------------------------------------

  /** Subtree membership depends only on the children of each page. */
  lemma {:induction false} ReachShape(p: map<int, Node>, q: map<int, Node>, height: map<int, nat>, o: int)
    requires ArenaValid(p, height) && ArenaValid(q, height) && SameShape(p, q) && o in p
    ensures Reach(p, height, o) == Reach(q, height, o)
    ensures Unshared(p, height, o) == Unshared(q, height, o)
    decreases height[o], 1
  {
    assert Fits(height, p[o], o) && Fits(height, q[o], o);
    SlotsShape(p, q, height, p[o], q[o], height[o], 0);
  }

  lemma {:induction false} SlotsShape(p: map<int, Node>, q: map<int, Node>, height: map<int, nat>, n: Node, m: Node, h: nat, i: int)
    requires ArenaValid(p, height) && ArenaValid(q, height) && SameShape(p, q)
    requires FitsAt(height, n, h) && FitsAt(height, m, h) && 0 <= i <= n.numKeys
    requires n.isLeaf == m.isLeaf && n.numKeys == m.numKeys && n.children == m.children
    ensures SlotsReach(p, height, n, h, i) == SlotsReach(q, height, m, h, i)
    ensures SlotsUnshared(p, height, n, h, i) == SlotsUnshared(q, height, m, h, i)
    decreases h, 0, n.numKeys - i
  {
    if !n.isLeaf {
      var c := ChildPage(p, height, n, h, i);
      var c' := ChildPage(q, height, m, h, i);
      ReachShape(p, q, height, n.children[i]);
      if i < n.numKeys {
        SlotsShape(p, q, height, n, m, h, i + 1);
      }
    }
  }

  /** Compaction from the page at `o` writes only pages of its subtree. */
  lemma {:induction false} CompactFrame(pages: map<int, Node>, height: map<int, nat>, o: int, file: seq<byte>, out: seq<byte>)
    requires ArenaValid(pages, height) && o in pages
    ensures var r := CompactPage(pages, height, o, file, out);
            forall x :: x in pages && x !in Reach(pages, height, o) ==> r.0[x] == pages[x]
    decreases height[o], 1
  {
    assert Fits(height, pages[o], o);
    CompactSlotsFrame(pages, height, pages[o], height[o], 0, file, out);
  }

  lemma {:induction false} CompactSlotsFrame(pages: map<int, Node>, height: map<int, nat>, n: Node, h: nat, i: int, file: seq<byte>, out: seq<byte>)
    requires ArenaValid(pages, height) && FitsAt(height, n, h) && 0 <= i <= n.numKeys
    ensures var r := CompactSlots(pages, height, n, h, i, file, out);
            forall x :: x in pages && x !in SlotsReach(pages, height, n, h, i) ==> r.0[x] == pages[x]
    decreases h, 0, n.numKeys - i
  {
    var s := if n.isLeaf then (pages, out) else CompactPage(pages, height, n.children[i], file, out);
    if !n.isLeaf {
      var c := ChildPage(pages, height, n, h, i);
      CompactFrame(pages, height, n.children[i], file, out);
    }
    if i < n.numKeys {
      var k := n.keys[i];
      var n' := n.(keys := n.keys[i := k.(dataOffset := |s.1|)]);
      var out' := s.1 + ReadBlob(file, k.dataOffset, k.dataSize);
      CompactSlotsFrame(s.0, height, n', h, i + 1, file, out');
      SlotsShape(pages, s.0, height, n, n', h, i + 1);
    }
  }

  /**
   * On a subtree without shared pages, compaction from the page at `o`
   * appends the payloads of the subtree's in-order walk to `out`, back to
   * back and in walk order, and points every key at its copy: the new walk
   * is the old one renumbered from |out|.
   */
  lemma {:induction false} CompactWalk(pages: map<int, Node>, height: map<int, nat>, o: int, file: seq<byte>, out: seq<byte>)
    requires ArenaValid(pages, height) && o in pages && Unshared(pages, height, o)
    ensures var r := CompactPage(pages, height, o, file, out);
            var w := Walk(pages, height, pages[o], height[o]);
            && Walk(r.0, height, r.0[o], height[o]) == Renumber(w, |out|)
            && r.1 == out + Payloads(file, w)
    decreases height[o], 1
  {
    assert Fits(height, pages[o], o);
    var n, h := pages[o], height[o];
    var s := CompactSlots(pages, height, n, h, 0, file, out);
    CompactSlotsWalk(pages, height, n, h, 0, file, out);
    var p := s.0[o := s.2];
    assert CompactPage(pages, height, o, file, out) == (p, s.1);
    if n.isLeaf {
      assert LiveKeys(s.2) == s.2.keys[0..s.2.numKeys];
      assert LiveKeys(n) == n.keys[0..n.numKeys];
    } else {
      SlotsWalkFrame(s.0, p, height, s.2, s.2, h, 0);
    }
  }

  lemma {:induction false} CompactSlotsWalk(pages: map<int, Node>, height: map<int, nat>, n: Node, h: nat, i: int, file: seq<byte>, out: seq<byte>)
    requires ArenaValid(pages, height) && FitsAt(height, n, h) && 0 <= i <= n.numKeys
    requires SlotsUnshared(pages, height, n, h, i)
    ensures var r := CompactSlots(pages, height, n, h, i, file, out);
            var w := SlotsWalk(pages, height, n, h, i);
            && FitsAt(height, r.2, h)
            && SlotsWalk(r.0, height, r.2, h, i) == Renumber(w, |out|)
            && r.1 == out + Payloads(file, w)
    decreases h, 0, n.numKeys - i, 2
  {
    if n.isLeaf {
      if i < n.numKeys {
        LeafSlotWalk(pages, height, n, h, i, file, out);
      }
    } else if i == n.numKeys {
      var c := ChildPage(pages, height, n, h, i);
      CompactWalk(pages, height, n.children[i], file, out);
    } else {
      InnerSlotWalk(pages, height, n, h, i, file, out);
    }
  }

  /** CompactSlotsWalk at a key slot of a leaf. */
  lemma {:induction false} LeafSlotWalk(pages: map<int, Node>, height: map<int, nat>, n: Node, h: nat, i: int, file: seq<byte>, out: seq<byte>)
    requires ArenaValid(pages, height) && FitsAt(height, n, h) && n.isLeaf && 0 <= i < n.numKeys
    ensures var r := CompactSlots(pages, height, n, h, i, file, out);
            var w := SlotsWalk(pages, height, n, h, i);
            && FitsAt(height, r.2, h)
            && SlotsWalk(r.0, height, r.2, h, i) == Renumber(w, |out|)
            && r.1 == out + Payloads(file, w)
    decreases h, 0, n.numKeys - i, 0
  {
    var k := n.keys[i];
    var n' := n.(keys := n.keys[i := k.(dataOffset := |out|)]);
    var out' := out + ReadBlob(file, k.dataOffset, k.dataSize);
    assert |out'| == |out| + k.dataSize;
    CompactSlotsStep(pages, height, n, h, i, file, out);
    var r := CompactSlots(pages, height, n', h, i + 1, file, out');
    assert CompactSlots(pages, height, n, h, i, file, out) == r;
    CompactSlotsWalk(pages, height, n', h, i + 1, file, out');
    assert r.2.isLeaf && r.2.numKeys == n.numKeys && |r.2.keys| == |n.keys|;
    assert r.2.keys[i + 1..n.numKeys] == Renumber(n'.keys[i + 1..n.numKeys], |out'|);
    assert r.1 == out' + Payloads(file, n'.keys[i + 1..n.numKeys]);
    PlaceHead(file, n.keys, n'.keys, r.2.keys, i, n.numKeys, out);
    assert SlotsWalk(r.0, height, r.2, h, i) == r.2.keys[i..n.numKeys];
  }

  /**
   * Slot `i` placed at the end of `out`, and the slots after it renumbered
   * from the end of its copy, make slots i.. renumbered from |out|.
   */
  lemma PlaceHead(file: seq<byte>, ks: seq<Key>, ks': seq<Key>, rs: seq<Key>, i: int, m: int, out: seq<byte>)
    requires 0 <= i < m <= |ks| == |ks'| == |rs|
    requires ks' == ks[i := ks[i].(dataOffset := |out|)]
    requires rs[..i + 1] == ks'[..i + 1]
    requires rs[i + 1..m] == Renumber(ks'[i + 1..m], |out| + ks[i].dataSize)
    ensures rs[i..m] == Renumber(ks[i..m], |out|)
    ensures out + ReadBlob(file, ks[i].dataOffset, ks[i].dataSize) + Payloads(file, ks'[i + 1..m])
         == out + Payloads(file, ks[i..m])
  {
    var tail := ks[i..m];
    assert tail != [] && tail[0] == ks[i];
    assert tail[1..] == ks'[i + 1..m];
    assert rs[i] == rs[..i + 1][i] == ks'[i];
    assert Renumber(tail, |out|) == [ks[i].(dataOffset := |out|)] + Renumber(ks'[i + 1..m], |out| + ks[i].dataSize);
    assert rs[i..m] == [rs[i]] + rs[i + 1..m];
    assert Payloads(file, tail) == ReadBlob(file, ks[i].dataOffset, ks[i].dataSize) + Payloads(file, ks'[i + 1..m]);
    Regroup(out, ReadBlob(file, ks[i].dataOffset, ks[i].dataSize), Payloads(file, ks'[i + 1..m]));
  }

  /**
   * The walk of a child renumbered from `base`, then a key placed at `mid`
   * right after it, then the rest renumbered from `end` right after the key,
   * is the whole renumbered from `base`.
   */
  lemma PlaceMiddle(wc: seq<Key>, k: Key, wr: seq<Key>, base: int, mid: int, end: int)
    requires mid == base + SizeSum(wc) && end == mid + k.dataSize
    ensures Renumber(wc, base) + [k.(dataOffset := mid)] + Renumber(wr, end) == Renumber(wc + [k] + wr, base)
  {
    RenumberConcat(wc + [k], wr, base);
    RenumberConcat(wc, [k], base);
    SizeSumConcat(wc, [k]);
    assert SizeSum([k]) == k.dataSize by {
      assert [k][1..] == [];
    }
    assert Renumber([k], mid) == [k.(dataOffset := mid)] by {
      assert [k][1..] == [];
    }
    assert end == base + SizeSum(wc + [k]);
  }

  /** The payloads of a child's walk, a key and the rest, concatenated, are those of the whole. */
  lemma PayloadsMiddle(file: seq<byte>, out: seq<byte>, wc: seq<Key>, k: Key, wr: seq<Key>)
    ensures out + Payloads(file, wc) + ReadBlob(file, k.dataOffset, k.dataSize) + Payloads(file, wr)
         == out + Payloads(file, wc + [k] + wr)
  {
    PayloadsConcat(file, wc + [k], wr);
    PayloadsConcat(file, wc, [k]);
    assert Payloads(file, [k]) == ReadBlob(file, k.dataOffset, k.dataSize) by {
      assert [k][1..] == [];
    }
    Associate(out, Payloads(file, wc), ReadBlob(file, k.dataOffset, k.dataSize), Payloads(file, wr));
  }

  lemma Regroup(a: seq<byte>, b: seq<byte>, c: seq<byte>)
    ensures a + b + c == a + (b + c)
  {
  }

  lemma Associate(a: seq<byte>, b: seq<byte>, c: seq<byte>, d: seq<byte>)
    ensures a + b + c + d == a + (b + c + d)
  {
  }

  /** CompactSlotsWalk at a key slot of an internal page: the child's walk, the key, the rest. */
  lemma {:induction false} InnerSlotWalk(pages: map<int, Node>, height: map<int, nat>, n: Node, h: nat, i: int, file: seq<byte>, out: seq<byte>)
    requires ArenaValid(pages, height) && FitsAt(height, n, h) && !n.isLeaf && 0 <= i < n.numKeys
    requires SlotsUnshared(pages, height, n, h, i)
    ensures var r := CompactSlots(pages, height, n, h, i, file, out);
            var w := SlotsWalk(pages, height, n, h, i);
            && FitsAt(height, r.2, h)
            && SlotsWalk(r.0, height, r.2, h, i) == Renumber(w, |out|)
            && r.1 == out + Payloads(file, w)
    decreases h, 0, n.numKeys - i, 1
  {
    var co := n.children[i];
    var c := ChildPage(pages, height, n, h, i);
    var s := CompactPage(pages, height, co, file, out);
    var wc := Walk(pages, height, pages[co], h - 1);
    ChildCompactWalk(pages, height, co, h - 1, file, out, s, wc);
    var k := n.keys[i];
    var n' := n.(keys := n.keys[i := k.(dataOffset := |s.1|)]);
    var out' := s.1 + ReadBlob(file, k.dataOffset, k.dataSize);
    CompactSlotsStep(pages, height, n, h, i, file, out);
    InnerRest(pages, height, n, h, i, file, out, s, wc, n', out');
  }

  /** CompactWalk for a page whose height is given as `hc`, with the results named. */
  lemma ChildCompactWalk(pages: map<int, Node>, height: map<int, nat>, o: int, hc: nat, file: seq<byte>, out: seq<byte>,
                         r: (map<int, Node>, seq<byte>), w: seq<Key>)
    requires ArenaValid(pages, height) && o in pages && height[o] == hc && Unshared(pages, height, o)
    requires r == CompactPage(pages, height, o, file, out) && w == Walk(pages, height, pages[o], hc)
    ensures Walk(r.0, height, r.0[o], hc) == Renumber(w, |out|)
    ensures r.1 == out + Payloads(file, w)
    decreases hc, 2
  {
    CompactWalk(pages, height, o, file, out);
  }

  /**
   * InnerSlotWalk once the child before slot `i` is compacted into `s`:
   * compacting the rest of the page copy, with slot `i` moved to the end
   * of `s`'s output, gives the renumbered walk from slot `i`.
   */
  lemma {:induction false} InnerRest(pages: map<int, Node>, height: map<int, nat>, n: Node, h: nat, i: int, file: seq<byte>, out: seq<byte>,
                                     s: (map<int, Node>, seq<byte>), wc: seq<Key>, n': Node, out': seq<byte>)
    requires ArenaValid(pages, height) && FitsAt(height, n, h) && !n.isLeaf && 0 <= i < n.numKeys
    requires SlotsUnshared(pages, height, n, h, i)
    requires n.children[i] in pages && height[n.children[i]] == h - 1
    requires s == CompactPage(pages, height, n.children[i], file, out)
    requires wc == Walk(pages, height, pages[n.children[i]], h - 1)
    requires Walk(s.0, height, s.0[n.children[i]], h - 1) == Renumber(wc, |out|)
    requires s.1 == out + Payloads(file, wc)
    requires n' == n.(keys := n.keys[i := n.keys[i].(dataOffset := |s.1|)])
    requires out' == s.1 + ReadBlob(file, n.keys[i].dataOffset, n.keys[i].dataSize)
    ensures ArenaValid(s.0, height) && FitsAt(height, n', h)
    ensures FitsAt(height, CompactSlots(s.0, height, n', h, i + 1, file, out').2, h)
    ensures WalkFrom(CompactSlots(s.0, height, n', h, i + 1, file, out').0, height, CompactSlots(s.0, height, n', h, i + 1, file, out').2, h, i)
            == Renumber(WalkFrom(pages, height, n, h, i), |out|)
    ensures CompactSlots(s.0, height, n', h, i + 1, file, out').1 == out + Payloads(file, WalkFrom(pages, height, n, h, i))
    decreases h, 0, n.numKeys - i, 0
  {
    var co := n.children[i];
    var k := n.keys[i];
    var wr := WalkFrom(pages, height, n, h, i + 1);
    assert WalkFrom(pages, height, n, h, i) == wc + [k] + wr by {
      WalkFromStep(pages, height, n, h, i);
    }
    assert ArenaValid(s.0, height) && FitsAt(height, n', h) && SlotsUnshared(s.0, height, n', h, i + 1)
                 && WalkFrom(s.0, height, n', h, i + 1) == wr
                 && Reach(s.0, height, co) !! SlotsReach(s.0, height, n', h, i + 1) by {
      RestUnchanged(pages, height, n, h, i, file, out, s, n');
    }
    var r := CompactSlots(s.0, height, n', h, i + 1, file, out');
    assert FitsAt(height, r.2, h) && WalkFrom(r.0, height, r.2, h, i + 1) == Renumber(wr, |out'|)
                 && r.1 == out' + Payloads(file, wr) by {
      CompactSlotsWalk(s.0, height, n', h, i + 1, file, out');
    }
    assert co in r.0 && FitsAt(height, r.0[co], h - 1)
                  && Walk(r.0, height, r.0[co], h - 1) == Renumber(wc, |out|) by {
      ChildUnchanged(s.0, height, n', h, i, file, out');
    }
    JoinSlot(r.0, height, r.2, h, i, n, file, wc, wr, out, s.1, out', r.1);
  }

  /**
   * The last step of InnerRest: in the compacted arena `q`, the page copy
   * `m` walks from slot `i` as the renumbered child, the moved key and the
   * renumbered slots after it, and the output has grown by their payloads.
   */
  lemma JoinSlot(q: map<int, Node>, height: map<int, nat>, m: Node, h: nat, i: int, n: Node, file: seq<byte>,
                 wc: seq<Key>, wr: seq<Key>, out: seq<byte>, mid: seq<byte>, out': seq<byte>, end: seq<byte>)
    requires ArenaValid(q, height) && FitsAt(height, m, h) && !n.isLeaf && 0 <= i < n.numKeys && 0 <= i < |n.keys|
    requires Reoffset(n.(keys := n.keys[i := n.keys[i].(dataOffset := |mid|)]), m)
    requires m.keys[..i + 1] == n.keys[i := n.keys[i].(dataOffset := |mid|)][..i + 1]
    requires n.children[i] in q && FitsAt(height, q[n.children[i]], h - 1)
    requires Walk(q, height, q[n.children[i]], h - 1) == Renumber(wc, |out|)
    requires mid == out + Payloads(file, wc) && out' == mid + ReadBlob(file, n.keys[i].dataOffset, n.keys[i].dataSize)
    requires WalkFrom(q, height, m, h, i + 1) == Renumber(wr, |out'|) && end == out' + Payloads(file, wr)
    ensures WalkFrom(q, height, m, h, i) == Renumber(wc + [n.keys[i]] + wr, |out|)
    ensures end == out + Payloads(file, wc + [n.keys[i]] + wr)
  {
    SlotMoved(n, m, i, |mid|);
    WalkFromStep(q, height, m, h, i);
    Assemble(file, wc, n.keys[i], wr, WalkFrom(q, height, m, h, i + 1), out, mid, out', end);
  }

  /** A page copy that moved slot `i` to `off` and then renumbered slots after `i`. */
  lemma SlotMoved(n: Node, m: Node, i: int, off: int)
    requires 0 <= i < |n.keys|
    requires Reoffset(n.(keys := n.keys[i := n.keys[i].(dataOffset := off)]), m)
    requires m.keys[..i + 1] == n.keys[i := n.keys[i].(dataOffset := off)][..i + 1]
    ensures Reoffset(n, m) && m.keys[i] == n.keys[i].(dataOffset := off)
  {
    var n' := n.(keys := n.keys[i := n.keys[i].(dataOffset := off)]);
    assert m.keys[i] == m.keys[..i + 1][i] == n'.keys[i];
    ReoffsetTrans(n, n', m);
  }

  /**
   * The renumbered walk and the copied payloads of a child, a key and the
   * slots after it, joined up.
   */
  lemma Assemble(file: seq<byte>, wc: seq<Key>, k: Key, wr: seq<Key>, wr': seq<Key>,
                 out: seq<byte>, mid: seq<byte>, out': seq<byte>, end: seq<byte>)
    requires mid == out + Payloads(file, wc) && out' == mid + ReadBlob(file, k.dataOffset, k.dataSize)
    requires wr' == Renumber(wr, |out'|) && end == out' + Payloads(file, wr)
    ensures Renumber(wc, |out|) + [k.(dataOffset := |mid|)] + wr' == Renumber(wc + [k] + wr, |out|)
    ensures end == out + Payloads(file, wc + [k] + wr)
  {
    PlaceMiddle(wc, k, wr, |out|, |mid|, |out'|);
    PayloadsMiddle(file, out, wc, k, wr);
  }

  /**
   * After the child before slot `i` is compacted, the rest of the page
   * copy (with slot `i` moved) is still unshared and walks as before.
   */
  lemma RestUnchanged(pages: map<int, Node>, height: map<int, nat>, n: Node, h: nat, i: int, file: seq<byte>, out: seq<byte>,
                      s: (map<int, Node>, seq<byte>), n': Node)
    requires ArenaValid(pages, height) && FitsAt(height, n, h) && !n.isLeaf && 0 <= i < n.numKeys
    requires SlotsUnshared(pages, height, n, h, i)
    requires n.children[i] in pages && s == CompactPage(pages, height, n.children[i], file, out)
    requires n' == n.(keys := n.keys[i := n.keys[i].(dataOffset := |s.1|)])
    ensures ArenaValid(s.0, height) && FitsAt(height, n', h)
    ensures SlotsUnshared(s.0, height, n', h, i + 1)
    ensures SlotsWalk(s.0, height, n', h, i + 1) == SlotsWalk(pages, height, n, h, i + 1)
    ensures Reach(s.0, height, n.children[i]) !! SlotsReach(s.0, height, n', h, i + 1)
  {
    var c := ChildPage(pages, height, n, h, i);
    SlotsShape(pages, s.0, height, n, n', h, i + 1);
    ReachShape(pages, s.0, height, n.children[i]);
    CompactFrame(pages, height, n.children[i], file, out);
    SlotsWalkFrame(pages, s.0, height, n, n', h, i + 1);
  }

  /** Compacting the slots after `i` leaves the subtree under child `i` as it was. */
  lemma ChildUnchanged(pages: map<int, Node>, height: map<int, nat>, n: Node, h: nat, i: int, file: seq<byte>, out: seq<byte>)
    requires ArenaValid(pages, height) && FitsAt(height, n, h) && !n.isLeaf && 0 <= i < n.numKeys
    requires Reach(pages, height, n.children[i]) !! SlotsReach(pages, height, n, h, i + 1)
    ensures var r := CompactSlots(pages, height, n, h, i + 1, file, out);
            Walk(r.0, height, r.0[n.children[i]], h - 1) == Walk(pages, height, pages[n.children[i]], h - 1)
  {
    var c := ChildPage(pages, height, n, h, i);
    var r := CompactSlots(pages, height, n, h, i + 1, file, out);
    CompactSlotsFrame(pages, height, n, h, i + 1, file, out);
    WalkFrame(pages, r.0, height, n.children[i]);
  }

  /** WalkFrom at a key slot: the child's walk, the key, then the walk from the next slot. */
  lemma WalkFromStep(pages: map<int, Node>, height: map<int, nat>, n: Node, h: nat, i: int)
    requires ArenaValid(pages, height) && FitsAt(height, n, h) && !n.isLeaf && 0 <= i < n.numKeys
    ensures n.children[i] in pages && height[n.children[i]] == h - 1 && FitsAt(height, pages[n.children[i]], h - 1)
    ensures WalkFrom(pages, height, n, h, i)
         == Walk(pages, height, pages[n.children[i]], h - 1) + [n.keys[i]] + WalkFrom(pages, height, n, h, i + 1)
  {
    var c := ChildPage(pages, height, n, h, i);
  }

  /** Key `k` locates `payload` inside the data file `file`. */
  predicate Stored(file: seq<byte>, k: Key, payload: seq<byte>)
  {
    0 <= k.dataOffset && k.dataOffset + k.dataSize <= |file| && ReadBlob(file, k.dataOffset, k.dataSize) == payload
  }

  /** Appending to the data file keeps every stored payload where it was. */
  lemma StoredExtend(file: seq<byte>, more: seq<byte>, k: Key, payload: seq<byte>)
    requires Stored(file, k, payload)
    ensures Stored(file + more, k, payload)
  {
    BlobExtend(file, more, k.dataOffset, k.dataSize);
  }

  /** Versions of one more threshold: the earlier versions, then its payload. */
  lemma VersionsSnoc(p: seq<int>, thresholds: seq<int>, j: int)
    requires |p| >= 1 && 0 <= j < |thresholds|
    ensures Versions(p, thresholds[..j + 1]) == Versions(p, thresholds[..j]) + Rle.Compress(Rle.Thresholded(p, thresholds[j]))
  {
    assert thresholds[..j + 1][..j] == thresholds[..j];
  }

  /**
   * `keys` are the keys database_add_multiple_thresholds inserted for the
   * first |keys| thresholds: each carries the name, its own threshold and
   * the image dimensions, and locates that threshold's payload in `file`.
   */
  predicate VersionKeys(file: seq<byte>, keys: seq<Key>, name: string, thresholds: seq<int>,
                        p: seq<int>, width: int, height: int)
    requires |p| >= 1
  {
    && |keys| <= |thresholds|
    && forall m :: 0 <= m < |keys| ==>
         && keys[m].name == name && keys[m].threshold == thresholds[m]
         && keys[m].width == width && keys[m].height == height
         && Stored(file, keys[m], Rle.Compress(Rle.Thresholded(p, thresholds[m])))
  }

  /** Appending the next version's payload and key keeps VersionKeys. */
  lemma VersionKeysExtend(file: seq<byte>, more: seq<byte>, keys: seq<Key>, name: string, thresholds: seq<int>,
                          p: seq<int>, width: int, height: int, k: Key)
    requires |p| >= 1 && VersionKeys(file, keys, name, thresholds, p, width, height) && |keys| < |thresholds|
    requires k.name == name && k.threshold == thresholds[|keys|] && k.width == width && k.height == height
    requires Stored(file + more, k, Rle.Compress(Rle.Thresholded(p, thresholds[|keys|])))
    ensures VersionKeys(file + more, keys + [k], name, thresholds, p, width, height)
  {
    forall m | 0 <= m < |keys|
      ensures Stored(file + more, keys[m], Rle.Compress(Rle.Thresholded(p, thresholds[m])))
    {
      StoredExtend(file, more, keys[m], Rle.Compress(Rle.Thresholded(p, thresholds[m])));
    }
  }

  /** The payloads database_add_multiple_thresholds appends for image `p`, one per threshold, in order. */
  function Versions(p: seq<int>, thresholds: seq<int>): seq<byte>
    requires |p| >= 1
  {
    if thresholds == [] then []
    else Versions(p, thresholds[..|thresholds| - 1]) + Rle.Compress(Rle.Thresholded(p, thresholds[|thresholds| - 1]))
  }

  // ---------------------------------------------------------------------
  // The store
  // ---------------------------------------------------------------------

  /**
   * The process state of the T2 program: the B-tree module's state and
   * the contents of image_data.dat.
   */
  class ImageDatabase {
    const tree: BTreeFile
    var data: seq<byte>

    ghost predicate Valid()
      reads this, tree
    {
      tree.Valid()
    }

    /** btree_init on a missing index file, with an empty data file. */
    constructor Init()
      ensures Valid() && fresh(tree) && data == []
    {
      tree := new BTreeFile.Init();
      data := [];
    }

    /**
     * database_add_image after the PGM file is read: binarize the image in
     * place, append its compressed form to the data file and insert a key
     * that locates it: the name truncated to 49 characters, the threshold,
     * the file length before the append, the compressed length and the
     * image dimensions. The key is in the in-order walk from the cached
     * root, and the stored bytes decode back to the binarized image when no
     * run of equal pixels is longer than 255.
     */
    method AddImage(filename: string, threshold: int, img: Rle.PgmImage) returns (key: Key)
      requires Valid() && img.Valid() && img.width >= 1 && img.height >= 1
      modifies this, tree, img, img.pixels
      ensures Valid() && Grows(old(tree.height), tree.height) && old(tree.pages).Keys <= tree.pages.Keys
      ensures key in Walk(tree.pages, tree.height, tree.root, tree.height[tree.rootOffset])
      ensures var payload := Rle.Compress(Rle.Thresholded(old(img.pixels[..]), threshold));
              && data == old(data) + payload
              && key == Key(TruncateName(filename), threshold, |old(data)|, |payload|, old(img.width), old(img.height))
              && ReadBlob(data, key.dataOffset, key.dataSize) == payload
      ensures var binary := Rle.Thresholded(old(img.pixels[..]), threshold);
              Rle.NoLongRun(binary) ==>
                Rle.Decompress(ReadBlob(data, key.dataOffset, key.dataSize), key.width * key.height) == binary
    {
      ghost var before := img.pixels[..];
      img.Binarize(threshold);
      var compressed := Rle.CompressRle(img.pixels, img.width, img.height);
      var offset := |data|;
      BlobShift(data, compressed);
      data := data + compressed;
      key := Key(TruncateName(filename), threshold, offset, |compressed|, img.width, img.height);
      tree.Insert(key);
      Rle.ThresholdedIsBinary(before, threshold);
      if Rle.NoLongRun(img.pixels[..]) {
        Rle.RoundTrip(img.pixels[..]);
      }
    }

    /**
     * database_add_multiple_thresholds after the PGM file is read: for each
     * threshold in turn, binarize a copy of the original, append its
     * compressed form and insert its key. Every returned key locates the
     * payload of its own threshold.
     */
    method AddMultipleThresholds(filename: string, thresholds: seq<int>, original: Rle.PgmImage) returns (keys: seq<Key>)
      requires Valid() && original.Valid() && original.width >= 1 && original.height >= 1
      modifies this, tree
      ensures Valid() && Grows(old(tree.height), tree.height) && old(tree.pages).Keys <= tree.pages.Keys
      ensures data == old(data) + Versions(original.pixels[..], thresholds)
      ensures |keys| == |thresholds|
      ensures forall j :: 0 <= j < |keys| ==>
                && keys[j].name == TruncateName(filename) && keys[j].threshold == thresholds[j]
                && keys[j].width == original.width && keys[j].height == original.height
                && ReadBlob(data, keys[j].dataOffset, keys[j].dataSize)
                   == Rle.Compress(Rle.Thresholded(original.pixels[..], thresholds[j]))
    {
      ghost var p := original.pixels[..];
      assert |p| >= 1;
      keys := [];
      var j := 0;
      while j < |thresholds|
        invariant 0 <= j <= |thresholds| && |keys| == j && |p| >= 1 && p == original.pixels[..]
        invariant Valid() && Grows(old(tree.height), tree.height) && old(tree.pages).Keys <= tree.pages.Keys
        invariant data == old(data) + Versions(p, thresholds[..j])
        invariant VersionKeys(data, keys, TruncateName(filename), thresholds, p, original.width, original.height)
      {
        ghost var before := data;
        ghost var payload := Rle.Compress(Rle.Thresholded(p, thresholds[j]));
        var key := AddVersion(filename, thresholds[j], original);
        assert data == before + payload && data[|before|..] == payload;
        VersionKeysExtend(before, payload, keys, TruncateName(filename), thresholds, p,
                          original.width, original.height, key);
        VersionsSnoc(p, thresholds, j);
        Regroup(old(data), Versions(p, thresholds[..j]), payload);
        keys := keys + [key];
        j := j + 1;
      }
      assert thresholds[..j] == thresholds;
    }

    /**
     * One round of database_add_multiple_thresholds: binarize a fresh copy
     * of the original at `threshold` and add it; the original is untouched.
     */
    method AddVersion(filename: string, threshold: int, original: Rle.PgmImage) returns (key: Key)
      requires Valid() && original.Valid() && original.width >= 1 && original.height >= 1
      modifies this, tree
      ensures Valid() && Grows(old(tree.height), tree.height) && old(tree.pages).Keys <= tree.pages.Keys
      ensures data == old(data) + Rle.Compress(Rle.Thresholded(original.pixels[..], threshold))
      ensures key.name == TruncateName(filename) && key.threshold == threshold
      ensures key.width == original.width && key.height == original.height
      ensures Stored(data, key, Rle.Compress(Rle.Thresholded(original.pixels[..], threshold)))
      ensures key in Walk(tree.pages, tree.height, tree.root, tree.height[tree.rootOffset])
    {
      var copy := new Rle.PgmImage(original.width, original.height, original.maxGray, original.pixels[..]);
      key := AddImage(filename, threshold, copy);
    }

    /**
     * database_retrieve_image up to writing the PGM file: search from the
     * cached root, read data_size bytes at data_offset and decode them into
     * a width x height image with max_gray 1. The source reads data[0] of
     * an empty payload and sizes the matrix from the key; the model
     * reports no image for an empty payload or a negative dimension.
     */
    method RetrieveImage(name: string, threshold: int) returns (img: Rle.PgmImage?)
      requires Valid()
      ensures var r := Lookup(tree.pages, tree.height, tree.root, tree.height[tree.rootOffset], SearchKey(name, threshold));
              && (img == null <==> r.None? || r.value.dataSize == 0 || r.value.width < 0 || r.value.height < 0)
              && (img != null ==>
                    && fresh(img) && fresh(img.pixels) && img.Valid()
                    && img.width == r.value.width && img.height == r.value.height && img.maxGray == 1
                    && var d := Rle.Decompress(ReadBlob(data, r.value.dataOffset, r.value.dataSize), img.width * img.height);
                       |d| <= img.pixels.Length && img.pixels[..|d|] == d)
    {
      var found := tree.Search(name, threshold);
      if found.None? {
        return null;
      }
      var key := found.value;
      if key.dataSize == 0 || key.width < 0 || key.height < 0 {
        return null;
      }
      var compressed := ReadBlob(data, key.dataOffset, key.dataSize);
      var pixels := Rle.DecompressRle(compressed, key.width, key.height);
      img := new Rle.PgmImage.FromPixels(key.width, key.height, 1, pixels);
    }

    /**
     * database_compact: compaction from the page at root_offset into an
     * empty file, which then replaces the data file. The cached root is not
     * reloaded, so it keeps the data offsets it held before. On a tree with
     * no shared pages, the keys in in-order walk order now sit back to back
     * from offset 0, each pointing at an unchanged copy of its payload.
     */
    method Compact()
      requires Valid()
      modifies this, tree
      ensures Valid() && tree.height == old(tree.height)
      ensures tree.rootOffset == old(tree.rootOffset) && tree.root == old(tree.root)
      ensures (tree.pages, data) == CompactPage(old(tree.pages), old(tree.height), tree.rootOffset, old(data), [])
      ensures Unshared(old(tree.pages), old(tree.height), tree.rootOffset) ==>
                var w := Walk(old(tree.pages), old(tree.height), old(tree.pages)[tree.rootOffset], tree.height[tree.rootOffset]);
                && Walk(tree.pages, tree.height, tree.pages[tree.rootOffset], tree.height[tree.rootOffset]) == Renumber(w, 0)
                && data == Payloads(old(data), w)
    {
      var file := data;
      data := CompactRecursive(tree.rootOffset, file, []);
      if Unshared(old(tree.pages), old(tree.height), tree.rootOffset) {
        CompactWalk(old(tree.pages), old(tree.height), tree.rootOffset, file, []);
      }
    }

    /**
     * database_compact_recursive from the page at `offset`, reading
     * payloads from `file` and appending them to `out`. Only data offsets
     * of keys change; the header and the cached root are not touched.
     */
    method CompactRecursive(offset: int, file: seq<byte>, out: seq<byte>) returns (out': seq<byte>)
      requires tree.PagesValid() && offset in tree.pages
      modifies tree
      decreases tree.height[offset], 1
      ensures (tree.pages, out') == CompactPage(old(tree.pages), old(tree.height), offset, file, out)
      ensures tree.PagesValid() && tree.height == old(tree.height)
      ensures tree.rootOffset == old(tree.rootOffset) && tree.root == old(tree.root)
      ensures tree.freeOffset == old(tree.freeOffset) && tree.nodeCount == old(tree.nodeCount)
    {
      var node := tree.pages[offset];
      ghost var h := tree.height[offset];
      assert Fits(tree.height, node, offset);
      ghost var target := CompactSlots(tree.pages, tree.height, node, h, 0, file, out);
      assert CompactPage(tree.pages, tree.height, offset, file, out) == (target.0[offset := target.2], target.1);
      var d := out;
      var i := 0;
      while i < node.numKeys
        invariant 0 <= i <= node.numKeys
        invariant tree.PagesValid() && tree.height == old(tree.height)
        invariant tree.rootOffset == old(tree.rootOffset) && tree.root == old(tree.root)
        invariant tree.freeOffset == old(tree.freeOffset) && tree.nodeCount == old(tree.nodeCount)
        invariant FitsAt(tree.height, node, h)
        invariant CompactSlots(tree.pages, tree.height, node, h, i, file, d) == target
      {
        node, d := CompactSlot(node, h, i, file, d);
        i := i + 1;
      }
      ghost var last := CompactSlots(tree.pages, tree.height, node, h, i, file, d);
      if !node.isLeaf {
        d := CompactRecursive(node.children[node.numKeys], file, d);
      }
      assert (tree.pages, d, node) == last == target;
      assert Fits(tree.height, node, offset) by {
        assert Reoffset(old(tree.pages)[offset], node);
      }
      WritePage(offset, node);
      out' := d;
    }

    /** btree_write_node: store a fitting page copy at its offset. */
    method WritePage(offset: int, node: Node)
      requires tree.PagesValid() && offset in tree.pages && Fits(tree.height, node, offset)
      modifies tree
      ensures tree.pages == old(tree.pages)[offset := node]
      ensures tree.PagesValid() && tree.height == old(tree.height)
      ensures tree.rootOffset == old(tree.rootOffset) && tree.root == old(tree.root)
      ensures tree.freeOffset == old(tree.freeOffset) && tree.nodeCount == old(tree.nodeCount)
    {
      StorePage(tree.pages, tree.height, {}, offset, node);
      tree.pages := tree.pages[offset := node];
    }

    /**
     * One turn of the slot loop of database_compact_recursive on the page
     * copy `node`: compact the child before slot `i` (internal pages only),
     * copy the slot's payload to the end of `out` and point the slot there.
     */
    method CompactSlot(node: Node, ghost h: nat, i: int, file: seq<byte>, out: seq<byte>) returns (node': Node, out': seq<byte>)
      requires tree.PagesValid() && FitsAt(tree.height, node, h) && 0 <= i < node.numKeys
      modifies tree
      decreases h, 0
      ensures tree.PagesValid() && tree.height == old(tree.height)
      ensures tree.rootOffset == old(tree.rootOffset) && tree.root == old(tree.root)
      ensures tree.freeOffset == old(tree.freeOffset) && tree.nodeCount == old(tree.nodeCount)
      ensures FitsAt(tree.height, node', h) && Reoffset(node, node')
      ensures CompactSlots(tree.pages, tree.height, node', h, i + 1, file, out')
           == old(CompactSlots(tree.pages, tree.height, node, h, i, file, out))
    {
      CompactSlotsStep(tree.pages, tree.height, node, h, i, file, out);
      out' := out;
      if !node.isLeaf {
        out' := CompactRecursive(node.children[i], file, out');
      }
      var k := node.keys[i];
      var newOffset := |out'|;
      out' := out' + ReadBlob(file, k.dataOffset, k.dataSize);
      node' := node.(keys := node.keys[i := k.(dataOffset := newOffset)]);
    }
  }
}
