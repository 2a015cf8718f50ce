/**
 * The paged B-tree of T2/btree.c: a page file addressed by byte offset, the
 * header {root_offset, free_offset, node_count}, and the root page copy kept
 * in memory across calls (`btree_root`).
 *
 * The page file is an arena `pages` from offsets to pages. Offsets come from
 * a bump allocator and are never reused. The ghost map `height` gives every
 * page its level (leaves are at 0); a live child of an internal page is one
 * level lower. Because a page never changes level and never disappears, the
 * cached root stays consistent with the arena even when it is stale, which is
 * what lets the recursive operations terminate on whatever tree the source
 * actually builds (pages may be shared by two parents after a split, and
 * pages may hold 0 keys).
 */
module BTree {
  import opened Wrappers
  import opened BTreeNode

  /** sizeof(BTreeHeader) and sizeof(BTreeNode) on an LP64 target. */
  const HEADER_SIZE: int := 24
  const PAGE_SIZE: int := 200

  /** What btree_delete_recursive reports: 1, 0, or a path the source has no defined behaviour for. */
  datatype Outcome = Removed | NotFound | Fault

  /** `n` is a well-formed page at level `h` whose live children are pages at level h - 1. */
  ghost predicate FitsAt(height: map<int, nat>, n: Node, h: nat)
  {
    && WellFormed(n)
    && (n.isLeaf <==> h == 0)
    && (!n.isLeaf ==> forall i :: 0 <= i <= n.numKeys ==> n.children[i] in height && height[n.children[i]] == h - 1)
  }

  /** `n` is a well-formed content for the page at offset `o`. */
  ghost predicate Fits(height: map<int, nat>, n: Node, o: int)
  {
    o in height && n.selfOffset == o && FitsAt(height, n, height[o])
  }

  ghost predicate ArenaValid(pages: map<int, Node>, height: map<int, nat>)
  {
    pages.Keys == height.Keys && forall o {:trigger pages[o]} :: o in pages ==> Fits(height, pages[o], o)
  }

  /** Every page fits its offset except those in `x`, which are mid-update. */
  ghost predicate FitsExcept(pages: map<int, Node>, height: map<int, nat>, x: set<int>)
  {
    pages.Keys == height.Keys && forall o {:trigger pages[o]} :: o in pages && o !in x ==> Fits(height, pages[o], o)
  }

  lemma ExceptNothing(pages: map<int, Node>, height: map<int, nat>)
    ensures FitsExcept(pages, height, {}) <==> ArenaValid(pages, height)
  {
  }

  lemma ExceptMore(pages: map<int, Node>, height: map<int, nat>, x: set<int>, y: set<int>)
    requires FitsExcept(pages, height, x) && x <= y
    ensures FitsExcept(pages, height, y)
  {
  }

  /** Writing a fitting page at `o` takes `o` off the mid-update set. */
  lemma StorePage(pages: map<int, Node>, height: map<int, nat>, x: set<int>, o: int, n: Node)
    requires FitsExcept(pages, height, x) && o in pages && Fits(height, n, o)
    ensures FitsExcept(pages[o := n], height, x - {o})
  {
  }

  /** Allocating a new offset keeps every other page fitting; the new one is mid-update. */
  lemma AllocPage(pages: map<int, Node>, height: map<int, nat>, x: set<int>, o: int, n: Node, h: nat)
    requires FitsExcept(pages, height, x) && o !in pages
    ensures Grows(height, height[o := h])
    ensures FitsExcept(pages[o := n], height[o := h], x + {o})
  {
    forall q | q in pages && q !in x
      ensures Fits(height[o := h], pages[q], q)
    {
      FitsGrow(height, height[o := h], pages[q], q);
    }
  }

  /** Offsets keep their level when the arena grows. */
  ghost predicate Grows(h0: map<int, nat>, h1: map<int, nat>)
  {
    forall o :: o in h0 ==> o in h1 && h1[o] == h0[o]
  }

  lemma FitsGrow(h0: map<int, nat>, h1: map<int, nat>, n: Node, o: int)
    requires Grows(h0, h1) && Fits(h0, n, o)
    ensures Fits(h1, n, o)
  {
    if !n.isLeaf {
      forall i | 0 <= i <= n.numKeys
        ensures n.children[i] in h1 && h1[n.children[i]] == h1[o] - 1
      {
        var c := n.children[i];
        assert c in h0;
        assert c in h1;
      }
    }
  }

  /** The page under live child slot `i` of `n`: it sits one level below `n`. */
  ghost function ChildPage(pages: map<int, Node>, height: map<int, nat>, n: Node, h: nat, i: int): (c: Node)
    requires ArenaValid(pages, height) && FitsAt(height, n, h) && !n.isLeaf && 0 <= i <= n.numKeys
    ensures n.children[i] in pages && c == pages[n.children[i]]
    ensures h > 0 && FitsAt(height, c, h - 1) && c.selfOffset == n.children[i]
  {
    var o := n.children[i];
    assert o in height && height[o] == h - 1;
    assert Fits(height, pages[o], o);
    pages[o]
  }

  /**
   * The in-order walk of btree_print_inorder_recursive (T2/btree.c:575-592):
   * child 0, key 0, child 1, ..., child numKeys; the keys of a leaf in slot order.
   */
  ghost function Walk(pages: map<int, Node>, height: map<int, nat>, n: Node, h: nat): seq<Key>
    requires ArenaValid(pages, height) && FitsAt(height, n, h)
    decreases h, 1
  {
    if n.isLeaf then LiveKeys(n) else WalkFrom(pages, height, n, h, 0)
  }

  ghost function WalkFrom(pages: map<int, Node>, height: map<int, nat>, n: Node, h: nat, i: int): seq<Key>
    requires ArenaValid(pages, height) && FitsAt(height, n, h) && !n.isLeaf && 0 <= i <= n.numKeys
    decreases h, 0, n.numKeys - i
  {
    var c := ChildPage(pages, height, n, h, i);
    if i == n.numKeys then Walk(pages, height, c, h - 1)
    else Walk(pages, height, c, h - 1) + [n.keys[i]] + WalkFrom(pages, height, n, h, i + 1)
  }

  /** Every key of child j and every live key from slot i on occurs in WalkFrom(.., i). */
  lemma {:induction false} WalkFromContains(pages: map<int, Node>, height: map<int, nat>, n: Node, h: nat, i: int, j: int)
    requires ArenaValid(pages, height) && FitsAt(height, n, h) && !n.isLeaf && 0 <= i <= j <= n.numKeys
    ensures forall k :: k in Walk(pages, height, ChildPage(pages, height, n, h, j), h - 1) ==> k in WalkFrom(pages, height, n, h, i)
    ensures j < n.numKeys ==> n.keys[j] in WalkFrom(pages, height, n, h, i)
    decreases j - i
  {
    if i < j {
      WalkFromContains(pages, height, n, h, i + 1, j);
    }
  }

  /** The walk of an internal page ends with the walk of its last live child. */
  lemma {:induction false} WalkFromEnds(pages: map<int, Node>, height: map<int, nat>, n: Node, h: nat, i: int)
    requires ArenaValid(pages, height) && FitsAt(height, n, h) && !n.isLeaf && 0 <= i <= n.numKeys
    ensures var w := WalkFrom(pages, height, n, h, i);
            var t := Walk(pages, height, ChildPage(pages, height, n, h, n.numKeys), h - 1);
            |t| <= |w| && w[|w| - |t|..] == t
    decreases n.numKeys - i
  {
    if i < n.numKeys {
      WalkFromEnds(pages, height, n, h, i + 1);
    }
  }

  /** The leaf reached by always following the last live child. */
  ghost function RightmostLeaf(pages: map<int, Node>, height: map<int, nat>, n: Node, h: nat): (r: Node)
    requires ArenaValid(pages, height) && FitsAt(height, n, h)
    ensures FitsAt(height, r, 0) && r.isLeaf
    decreases h
  {
    if n.isLeaf then n else RightmostLeaf(pages, height, ChildPage(pages, height, n, h, n.numKeys), h - 1)
  }

  /** The leaf reached by always following children[0]. */
  ghost function LeftmostLeaf(pages: map<int, Node>, height: map<int, nat>, n: Node, h: nat): (r: Node)
    requires ArenaValid(pages, height) && FitsAt(height, n, h)
    ensures FitsAt(height, r, 0) && r.isLeaf
    decreases h
  {
    if n.isLeaf then n else LeftmostLeaf(pages, height, ChildPage(pages, height, n, h, 0), h - 1)
  }

  /**
   * Slot `i` of page copy `n` is where btree_insert_non_full sends `key`:
   * the key is not below the key before the slot, not above the key at it,
   * and below every later key.
   */
  ghost predicate SlotFor(n: Node, i: int, key: Key)
    requires WellFormed(n)
  {
    && 0 <= i <= n.numKeys
    && (0 < i ==> CompareKeys(key, n.keys[i - 1]) >= 0)
    && (i < n.numKeys ==> CompareKeys(key, n.keys[i]) <= 0)
    && (forall j :: i < j < n.numKeys ==> CompareKeys(key, n.keys[j]) < 0)
  }

  /**
   * After the key at slot i is raised into the parent by a split, the slot
   * the key belongs under is i when it does not compare above the raised
   * key, and i + 1 when it does.
   */
  lemma RaisedSlot(n: Node, n': Node, i: int, key: Key)
    requires WellFormed(n) && WellFormed(n') && 0 <= i <= n.numKeys && n'.numKeys == n.numKeys + 1
    requires LiveKeys(n') == n.keys[..i] + [n'.keys[i]] + n.keys[i..n.numKeys]
    requires 0 < i ==> CompareKeys(key, n.keys[i - 1]) >= 0
    requires forall j :: i <= j < n.numKeys ==> CompareKeys(key, n.keys[j]) < 0
    ensures CompareKeys(key, n'.keys[i]) <= 0 ==> SlotFor(n', i, key)
    ensures CompareKeys(key, n'.keys[i]) > 0 ==> SlotFor(n', i + 1, key)
  {
    forall j | 0 <= j < n'.numKeys
      ensures n'.keys[j] == if j < i then n.keys[j] else if j == i then n'.keys[i] else n.keys[j - 1]
    {
      assert LiveKeys(n')[j] == n'.keys[j];
    }
  }

  /** A key in the walk of child i of a page is in the walk of the page. */
  lemma KeyInChildWalk(pages: map<int, Node>, height: map<int, nat>, n: Node, h: nat, i: int, c: Node, key: Key)
    requires ArenaValid(pages, height) && FitsAt(height, n, h) && !n.isLeaf && 0 <= i <= n.numKeys
    requires ChildPage(pages, height, n, h, i) == c && key in Walk(pages, height, c, height[c.selfOffset])
    ensures key in Walk(pages, height, n, h)
  {
    WalkFromContains(pages, height, n, h, 0, i);
  }

  /** When the rightmost leaf holds keys, its last key is the last key of the walk. */
  lemma {:induction false} RightmostLeafIsLast(pages: map<int, Node>, height: map<int, nat>, n: Node, h: nat)
    requires ArenaValid(pages, height) && FitsAt(height, n, h)
    requires RightmostLeaf(pages, height, n, h).numKeys > 0
    ensures var w := Walk(pages, height, n, h);
            var r := RightmostLeaf(pages, height, n, h);
            |w| > 0 && w[|w| - 1] == r.keys[r.numKeys - 1]
    decreases h
  {
    if !n.isLeaf {
      RightmostLeafIsLast(pages, height, ChildPage(pages, height, n, h, n.numKeys), h - 1);
      WalkFromEnds(pages, height, n, h, 0);
    }
  }

  /** When the leftmost leaf holds keys, its first key is the first key of the walk. */
  lemma {:induction false} LeftmostLeafIsFirst(pages: map<int, Node>, height: map<int, nat>, n: Node, h: nat)
    requires ArenaValid(pages, height) && FitsAt(height, n, h)
    requires LeftmostLeaf(pages, height, n, h).numKeys > 0
    ensures var w := Walk(pages, height, n, h);
            |w| > 0 && w[0] == LeftmostLeaf(pages, height, n, h).keys[0]
    decreases h
  {
    if !n.isLeaf {
      LeftmostLeafIsFirst(pages, height, ChildPage(pages, height, n, h, 0), h - 1);
    }
  }

  // ---------------------------------------------------------------------
  // Subtrees and sharing
  // ---------------------------------------------------------------------

  /** The offsets of the pages in the subtree under the page at `o`, `o` included. */
  ghost function Reach(pages: map<int, Node>, height: map<int, nat>, o: int): (r: set<int>)
    requires ArenaValid(pages, height) && o in pages
    ensures o in r && forall x :: x in r ==> x in pages && height[x] <= height[o]
    decreases height[o], 1
  {
    assert Fits(height, pages[o], o);
    {o} + SlotsReach(pages, height, pages[o], height[o], 0)
  }

  /** The pages under the live children of page copy `n` from child `i` on. */
  ghost function SlotsReach(pages: map<int, Node>, height: map<int, nat>, n: Node, h: nat, i: int): (r: set<int>)
    requires ArenaValid(pages, height) && FitsAt(height, n, h) && 0 <= i <= n.numKeys
    ensures forall x :: x in r ==> x in pages && height[x] < h
    decreases h, 0, n.numKeys - i
  {
    if n.isLeaf then {}
    else
      var c := ChildPage(pages, height, n, h, i);
      Reach(pages, height, n.children[i]) + (if i == n.numKeys then {} else SlotsReach(pages, height, n, h, i + 1))
  }

  /**
   * No page is reachable twice from the page at `o`: the subtrees under the
   * live children of every page are disjoint. Splitting an internal page
   * leaves children[1] of the split page under both halves, which breaks this.
   */
  ghost predicate Unshared(pages: map<int, Node>, height: map<int, nat>, o: int)
    requires ArenaValid(pages, height) && o in pages
    decreases height[o], 1
  {
    assert Fits(height, pages[o], o);
    SlotsUnshared(pages, height, pages[o], height[o], 0)
  }

  ghost predicate SlotsUnshared(pages: map<int, Node>, height: map<int, nat>, n: Node, h: nat, i: int)
    requires ArenaValid(pages, height) && FitsAt(height, n, h) && 0 <= i <= n.numKeys
    decreases h, 0, n.numKeys - i
  {
    n.isLeaf ||
    (var c := ChildPage(pages, height, n, h, i);
     && Unshared(pages, height, n.children[i])
     && (i < n.numKeys ==>
           && Reach(pages, height, n.children[i]) !! SlotsReach(pages, height, n, h, i + 1)
           && SlotsUnshared(pages, height, n, h, i + 1)))
  }

  /** The in-order walk of page copy `n` from slot `i` on: the rest of a leaf, or WalkFrom. */
  ghost function SlotsWalk(pages: map<int, Node>, height: map<int, nat>, n: Node, h: nat, i: int): seq<Key>
    requires ArenaValid(pages, height) && FitsAt(height, n, h) && 0 <= i <= n.numKeys
  {
    if n.isLeaf then n.keys[i..n.numKeys] else WalkFrom(pages, height, n, h, i)
  }

  /** Two page copies with the same children and the same live keys from slot `i` on. */
  ghost predicate SameFrom(n: Node, m: Node, i: int)
  {
    && n.isLeaf == m.isLeaf && n.numKeys == m.numKeys && n.children == m.children
    && |n.keys| == |m.keys| && forall j :: 0 <= i <= j < n.numKeys && j < |n.keys| ==> m.keys[j] == n.keys[j]
  }

  /** The walk under a page reads only the pages of its subtree. */
  lemma {:induction false} WalkFrame(p: map<int, Node>, q: map<int, Node>, height: map<int, nat>, o: int)
    requires ArenaValid(p, height) && ArenaValid(q, height) && o in p
    requires forall x :: x in Reach(p, height, o) ==> x in q && q[x] == p[x]
    ensures Walk(p, height, p[o], height[o]) == Walk(q, height, q[o], height[o])
    decreases height[o], 1
  {
    assert Fits(height, p[o], o);
    if !p[o].isLeaf {
      SlotsWalkFrame(p, q, height, p[o], p[o], height[o], 0);
    }
  }

  lemma {:induction false} SlotsWalkFrame(p: map<int, Node>, q: map<int, Node>, height: map<int, nat>, n: Node, m: Node, h: nat, i: int)
    requires ArenaValid(p, height) && ArenaValid(q, height)
    requires FitsAt(height, n, h) && FitsAt(height, m, h) && 0 <= i <= n.numKeys && SameFrom(n, m, i)
    requires forall x :: x in SlotsReach(p, height, n, h, i) ==> x in q && q[x] == p[x]
    ensures SlotsWalk(p, height, n, h, i) == SlotsWalk(q, height, m, h, i)
    decreases h, 0, n.numKeys - i
  {
    if n.isLeaf {
      assert n.keys[i..n.numKeys] == m.keys[i..m.numKeys];
    } else {
      var c := ChildPage(p, height, n, h, i);
      WalkFrame(p, q, height, n.children[i]);
      if i < n.numKeys {
        SlotsWalkFrame(p, q, height, n, m, h, i + 1);
      }
    }
  }

  /** Every offset in `kids` is a page. */
  ghost predicate AllIn(pages: map<int, Node>, kids: seq<int>)
  {
    forall j :: 0 <= j < |kids| ==> kids[j] in pages
  }

  /** The in-order walk of the subtree under the page at `o`. */
  ghost function PageWalk(pages: map<int, Node>, height: map<int, nat>, o: int): seq<Key>
    requires ArenaValid(pages, height) && o in pages
  {
    assert Fits(height, pages[o], o);
    Walk(pages, height, pages[o], height[o])
  }

  /** The pages of the subtrees under the pages `kids`. */
  ghost function ReachAll(pages: map<int, Node>, height: map<int, nat>, kids: seq<int>): (r: set<int>)
    requires ArenaValid(pages, height) && AllIn(pages, kids)
    ensures forall x :: x in r ==> x in pages
    ensures forall j :: 0 <= j < |kids| ==> Reach(pages, height, kids[j]) <= r
    decreases |kids|
  {
    if kids == [] then {}
    else
      var r := ReachAll(pages, height, kids[1..]);
      assert forall j :: 1 <= j < |kids| ==> kids[j] == kids[1..][j - 1];
      Reach(pages, height, kids[0]) + r
  }

  /** The pages `kids` head pairwise disjoint subtrees, none of which reaches a page twice. */
  ghost predicate Forest(pages: map<int, Node>, height: map<int, nat>, kids: seq<int>)
    requires ArenaValid(pages, height) && AllIn(pages, kids)
    decreases |kids|
  {
    kids == [] ||
    (&& Unshared(pages, height, kids[0])
     && Reach(pages, height, kids[0]) !! ReachAll(pages, height, kids[1..])
     && Forest(pages, height, kids[1..]))
  }

  /** The walks of the subtrees under the pages `kids`, in order. */
  ghost function KidWalks(pages: map<int, Node>, height: map<int, nat>, kids: seq<int>): (r: seq<seq<Key>>)
    requires ArenaValid(pages, height) && AllIn(pages, kids)
    ensures |r| == |kids| && forall j :: 0 <= j < |kids| ==> r[j] == PageWalk(pages, height, kids[j])
  {
    seq(|kids|, j requires 0 <= j < |kids| => PageWalk(pages, height, kids[j]))
  }

  /** Pages at level `h` reach only pages at level `h` or below. */
  lemma {:induction false} ReachAllLevel(pages: map<int, Node>, height: map<int, nat>, kids: seq<int>, h: int)
    requires ArenaValid(pages, height) && AllAt(height, kids, h)
    ensures AllIn(pages, kids) && forall x :: x in ReachAll(pages, height, kids) ==> height[x] <= h
    decreases |kids|
  {
    if kids != [] {
      AllAtSlice(height, kids, 1, |kids|, h);
      assert kids[1..|kids|] == kids[1..];
      ReachAllLevel(pages, height, kids[1..], h);
    }
  }

  lemma {:induction false} ReachAllConcat(pages: map<int, Node>, height: map<int, nat>, a: seq<int>, b: seq<int>)
    requires ArenaValid(pages, height) && AllIn(pages, a) && AllIn(pages, b)
    ensures AllIn(pages, a + b)
    ensures ReachAll(pages, height, a + b) == ReachAll(pages, height, a) + ReachAll(pages, height, b)
    decreases |a|
  {
    if a == [] {
      assert a + b == b;
    } else {
      assert (a + b)[0] == a[0] && (a + b)[1..] == a[1..] + b;
      ReachAllConcat(pages, height, a[1..], b);
    }
  }

  /** A list of siblings is a forest when both parts are and their subtrees are disjoint. */
  lemma {:induction false} ForestConcat(pages: map<int, Node>, height: map<int, nat>, a: seq<int>, b: seq<int>)
    requires ArenaValid(pages, height) && AllIn(pages, a) && AllIn(pages, b)
    ensures AllIn(pages, a + b)
    ensures Forest(pages, height, a + b) <==>
              Forest(pages, height, a) && Forest(pages, height, b) && ReachAll(pages, height, a) !! ReachAll(pages, height, b)
    decreases |a|
  {
    if a == [] {
      assert a + b == b;
    } else {
      assert (a + b)[0] == a[0] && (a + b)[1..] == a[1..] + b;
      ForestConcat(pages, height, a[1..], b);
      ReachAllConcat(pages, height, a[1..], b);
    }
  }

  /** The bridge between the slot-by-slot view of a page's subtrees and the list of its children. */
  lemma {:induction false} SlotsKids(pages: map<int, Node>, height: map<int, nat>, n: Node, h: nat, i: int)
    requires ArenaValid(pages, height) && FitsAt(height, n, h) && !n.isLeaf && 0 <= i <= n.numKeys
    ensures AllAt(height, LiveChildren(n)[i..], h - 1) && AllIn(pages, LiveChildren(n)[i..])
    ensures SlotsReach(pages, height, n, h, i) == ReachAll(pages, height, LiveChildren(n)[i..])
    ensures SlotsUnshared(pages, height, n, h, i) == Forest(pages, height, LiveChildren(n)[i..])
    decreases n.numKeys - i
  {
    ChildrenAt(height, n, h);
    AllAtSlice(height, LiveChildren(n), i, n.numKeys + 1, h - 1);
    var kids := LiveChildren(n)[i..];
    assert kids == LiveChildren(n)[i..n.numKeys + 1];
    assert kids[0] == n.children[i];
    var c := ChildPage(pages, height, n, h, i);
    if i < n.numKeys {
      SlotsKids(pages, height, n, h, i + 1);
      assert kids[1..] == LiveChildren(n)[i + 1..];
    } else {
      assert kids[1..] == [];
    }
  }

  /**
   * The subtree under the page at `o` is the page and the subtrees under its
   * live children; it reaches no page twice when its children form a forest.
   */
  lemma ReachKids(pages: map<int, Node>, height: map<int, nat>, o: int)
    requires ArenaValid(pages, height) && o in pages
    ensures Fits(height, pages[o], o)
    ensures pages[o].isLeaf ==> Reach(pages, height, o) == {o} && Unshared(pages, height, o)
    ensures !pages[o].isLeaf ==>
              && AllAt(height, LiveChildren(pages[o]), height[o] - 1) && AllIn(pages, LiveChildren(pages[o]))
              && Reach(pages, height, o) == {o} + ReachAll(pages, height, LiveChildren(pages[o]))
              && (Unshared(pages, height, o) <==> Forest(pages, height, LiveChildren(pages[o])))
  {
    assert Fits(height, pages[o], o);
    if !pages[o].isLeaf {
      SlotsKids(pages, height, pages[o], height[o], 0);
      assert LiveChildren(pages[o])[0..] == LiveChildren(pages[o]);
    }
  }

  /**
   * Two arenas that agree on the subtree under `o` give it the same pages,
   * the same sharing and the same walk.
   */
  lemma {:induction false} ReachAgree(p: map<int, Node>, q: map<int, Node>, height: map<int, nat>, o: int)
    requires ArenaValid(p, height) && ArenaValid(q, height) && o in p
    requires forall x :: x in Reach(p, height, o) ==> x in q && q[x] == p[x]
    ensures Reach(q, height, o) == Reach(p, height, o)
    ensures Unshared(q, height, o) == Unshared(p, height, o)
    ensures PageWalk(q, height, o) == PageWalk(p, height, o)
    decreases height[o], 1
  {
    ReachKids(p, height, o);
    ReachKids(q, height, o);
    WalkFrame(p, q, height, o);
    if !p[o].isLeaf {
      KidsAgree(p, q, height, LiveChildren(p[o]), height[o] - 1);
    }
  }

  lemma {:induction false} KidsAgree(p: map<int, Node>, q: map<int, Node>, height: map<int, nat>, kids: seq<int>, h: nat)
    requires ArenaValid(p, height) && ArenaValid(q, height) && AllAt(height, kids, h)
    requires forall x :: x in ReachAll(p, height, kids) ==> x in q && q[x] == p[x]
    ensures AllIn(p, kids) && AllIn(q, kids)
    ensures ReachAll(q, height, kids) == ReachAll(p, height, kids)
    ensures Forest(q, height, kids) == Forest(p, height, kids)
    ensures KidWalks(q, height, kids) == KidWalks(p, height, kids)
    decreases h + 1, 0, |kids|
  {
    if kids != [] {
      AllAtSlice(height, kids, 1, |kids|, h);
      assert kids[1..|kids|] == kids[1..];
      ReachAgree(p, q, height, kids[0]);
      KidsAgree(p, q, height, kids[1..], h);
      ghost var wq, wp := KidWalks(q, height, kids), KidWalks(p, height, kids);
      forall j | 0 <= j < |kids|
        ensures wq[j] == wp[j]
      {
        if j > 0 {
          assert kids[j] == kids[1..][j - 1];
        }
      }
    }
  }

  /** Two arenas that agree on every page below level h + 1 agree on the subtrees under pages at level h. */
  lemma KidsBelow(p: map<int, Node>, q: map<int, Node>, height: map<int, nat>, kids: seq<int>, h: nat)
    requires ArenaValid(p, height) && ArenaValid(q, height) && AllAt(height, kids, h)
    requires forall x :: x in p && height[x] <= h ==> q[x] == p[x]
    ensures AllIn(p, kids) && AllIn(q, kids)
    ensures ReachAll(q, height, kids) == ReachAll(p, height, kids)
    ensures Forest(q, height, kids) == Forest(p, height, kids)
    ensures KidWalks(q, height, kids) == KidWalks(p, height, kids)
  {
    ReachAllLevel(p, height, kids, h);
    KidsAgree(p, q, height, kids, h);
  }

  /** The subtree under a live child lies inside the subtree under its parent. */
  lemma ChildReach(pages: map<int, Node>, height: map<int, nat>, o: int, i: int)
    requires ArenaValid(pages, height) && o in pages && !pages[o].isLeaf && 0 <= i <= pages[o].numKeys
    ensures pages[o].children[i] in pages && Reach(pages, height, pages[o].children[i]) <= Reach(pages, height, o)
    ensures o !in Reach(pages, height, pages[o].children[i])
  {
    ReachKids(pages, height, o);
    assert pages[o].children[i] == LiveChildren(pages[o])[i];
  }

  // ---------------------------------------------------------------------
  // The walk of an internal page as an interleaving
  // ---------------------------------------------------------------------

  /** Child walks interleaved with keys: ws[0], keys[0], ws[1], ..., ws[|keys|]. */
  function Weave(ws: seq<seq<Key>>, keys: seq<Key>): seq<Key>
    requires |ws| == |keys| + 1
  {
    if keys == [] then ws[0] else ws[0] + [keys[0]] + Weave(ws[1..], keys[1..])
  }

  /** What comes before a child walk in an interleaving: ws[0], keys[0], ..., ws[m - 1], keys[m - 1]. */
  function Before(ws: seq<seq<Key>>, keys: seq<Key>): seq<Key>
    requires |ws| == |keys|
  {
    if ws == [] then [] else ws[0] + [keys[0]] + Before(ws[1..], keys[1..])
  }

  /** What comes after a child walk in an interleaving: keys[0], ws[0], ..., keys[m - 1], ws[m - 1]. */
  function After(ws: seq<seq<Key>>, keys: seq<Key>): seq<Key>
    requires |ws| == |keys|
  {
    if ws == [] then [] else [keys[0]] + ws[0] + After(ws[1..], keys[1..])
  }

  lemma {:induction false} WeaveFirst(w: seq<Key>, ws: seq<seq<Key>>, keys: seq<Key>)
    requires |ws| == |keys|
    ensures Weave([w] + ws, keys) == w + After(ws, keys)
    decreases |ws|
  {
    if ws != [] {
      assert ([w] + ws)[1..] == ws == [ws[0]] + ws[1..];
      WeaveFirst(ws[0], ws[1..], keys[1..]);
    }
  }

  /** An interleaving seen from one of its child walks. */
  lemma {:induction false} WeaveMid(a: seq<seq<Key>>, w: seq<Key>, b: seq<seq<Key>>, ka: seq<Key>, kb: seq<Key>)
    requires |a| == |ka| && |b| == |kb|
    ensures Weave(a + [w] + b, ka + kb) == Before(a, ka) + w + After(b, kb)
    decreases |a|
  {
    if a == [] {
      assert a + [w] + b == [w] + b && ka + kb == kb;
      WeaveFirst(w, b, kb);
    } else {
      assert (a + [w] + b)[0] == a[0] && (a + [w] + b)[1..] == a[1..] + [w] + b;
      assert (ka + kb)[0] == ka[0] && (ka + kb)[1..] == ka[1..] + kb;
      WeaveMid(a[1..], w, b, ka[1..], kb);
    }
  }

  lemma Reassociate(u: seq<Key>, x: seq<Key>, k: Key, y: seq<Key>, v: seq<Key>)
    ensures u + x + ([k] + y + v) == u + (x + [k] + y) + v
  {
  }

  /** An interleaving seen from two adjacent child walks and the key between them. */
  lemma WeavePair(a: seq<seq<Key>>, x: seq<Key>, y: seq<Key>, b: seq<seq<Key>>, ka: seq<Key>, k: Key, kb: seq<Key>)
    requires |a| == |ka| && |b| == |kb|
    ensures Weave(a + [x, y] + b, ka + [k] + kb) == Before(a, ka) + (x + [k] + y) + After(b, kb)
  {
    var b', kb' := [y] + b, [k] + kb;
    WeaveMid(a, x, b', ka, kb');
    assert a + [x] + b' == a + [x, y] + b;
    assert ka + kb' == ka + [k] + kb;
    assert b'[0] == y && b'[1..] == b && kb'[0] == k && kb'[1..] == kb;
    var pre, post := Before(a, ka), After(b, kb);
    assert After(b', kb') == [k] + y + post;
    Reassociate(pre, x, k, y, post);
  }

  /** Splitting an interleaving at one of its keys. */
  lemma {:induction false} WeaveSplit(ws1: seq<seq<Key>>, k1: seq<Key>, k: Key, ws2: seq<seq<Key>>, k2: seq<Key>)
    requires |ws1| == |k1| + 1 && |ws2| == |k2| + 1
    ensures Weave(ws1 + ws2, k1 + [k] + k2) == Weave(ws1, k1) + [k] + Weave(ws2, k2)
    decreases |k1|
  {
    if k1 == [] {
      assert (ws1 + ws2)[0] == ws1[0] && (ws1 + ws2)[1..] == ws2;
      assert k1 + [k] + k2 == [k] + k2;
    } else {
      assert (ws1 + ws2)[0] == ws1[0] && (ws1 + ws2)[1..] == ws1[1..] + ws2;
      assert (k1 + [k] + k2)[0] == k1[0] && (k1 + [k] + k2)[1..] == k1[1..] + [k] + k2;
      WeaveSplit(ws1[1..], k1[1..], k, ws2, k2);
    }
  }

  /** The tags of a list of walks. */
  function TagsAll(ws: seq<seq<Key>>): multiset<(string, int)>
  {
    if ws == [] then multiset{} else Tags(ws[0]) + TagsAll(ws[1..])
  }

  /** An interleaving holds the tags of its child walks and of its keys. */
  lemma {:induction false} TagsWeave(ws: seq<seq<Key>>, keys: seq<Key>)
    requires |ws| == |keys| + 1
    ensures Tags(Weave(ws, keys)) == TagsAll(ws) + Tags(keys)
    decreases |keys|
  {
    if keys == [] {
      assert ws[1..] == [];
    } else {
      TagsWeave(ws[1..], keys[1..]);
      TagsConcat(ws[0] + [keys[0]], Weave(ws[1..], keys[1..]));
      TagsConcat(ws[0], [keys[0]]);
      TagsConcat([keys[0]], keys[1..]);
      assert keys == [keys[0]] + keys[1..];
    }
  }

  /** Replacing one walk changes the tags of the list by that walk's tags. */
  lemma {:induction false} TagsAllUpdate(ws: seq<seq<Key>>, i: int, w: seq<Key>)
    requires 0 <= i < |ws|
    ensures TagsAll(ws[i := w]) + Tags(ws[i]) == TagsAll(ws) + Tags(w)
    decreases i
  {
    var t := ws[i := w];
    assert t[0] == (if i == 0 then w else ws[0]);
    if i == 0 {
      assert t[1..] == ws[1..];
    } else {
      assert t[1..] == ws[1..][i - 1 := w];
      assert ws[1..][i - 1] == ws[i];
      TagsAllUpdate(ws[1..], i - 1, w);
      var h, x, y := Tags(ws[0]), TagsAll(t[1..]), TagsAll(ws[1..]);
      assert TagsAll(t) == h + x && TagsAll(ws) == h + y;
      assert x + Tags(ws[i]) == y + Tags(w);
      AddFront(h, x, y, Tags(ws[i]), Tags(w));
    }
  }

  /** Adding the same multiset in front keeps an equation between sums. */
  lemma AddFront<T>(h: multiset<T>, x: multiset<T>, y: multiset<T>, a: multiset<T>, b: multiset<T>)
    requires x + a == y + b
    ensures (h + x) + a == (h + y) + b
  {
    assert (h + x) + a == h + (x + a);
    assert (h + y) + b == h + (y + b);
  }

  /** The walk of an internal page interleaves its children's walks with its live keys. */
  lemma {:induction false} WalkKids(pages: map<int, Node>, height: map<int, nat>, n: Node, h: nat)
    requires ArenaValid(pages, height) && FitsAt(height, n, h) && !n.isLeaf
    ensures AllIn(pages, LiveChildren(n))
    ensures Walk(pages, height, n, h) == Weave(KidWalks(pages, height, LiveChildren(n)), LiveKeys(n))
  {
    ChildrenAt(height, n, h);
    WalkFromKids(pages, height, n, h, 0);
    assert LiveChildren(n)[0..] == LiveChildren(n);
    assert n.keys[0..n.numKeys] == LiveKeys(n);
  }

  lemma {:induction false} WalkFromKids(pages: map<int, Node>, height: map<int, nat>, n: Node, h: nat, i: int)
    requires ArenaValid(pages, height) && FitsAt(height, n, h) && !n.isLeaf && 0 <= i <= n.numKeys
    ensures AllIn(pages, LiveChildren(n)[i..])
    ensures WalkFrom(pages, height, n, h, i) == Weave(KidWalks(pages, height, LiveChildren(n)[i..]), n.keys[i..n.numKeys])
    decreases n.numKeys - i
  {
    var c := ChildPage(pages, height, n, h, i);
    var kids := LiveChildren(n)[i..];
    assert kids[0] == n.children[i];
    assert forall j :: 0 <= j < |kids| ==> kids[j] == n.children[i + j];
    var ws := KidWalks(pages, height, kids);
    assert ws[0] == Walk(pages, height, c, h - 1);
    if i < n.numKeys {
      WalkFromKids(pages, height, n, h, i + 1);
      assert kids[1..] == LiveChildren(n)[i + 1..];
      assert ws[1..] == KidWalks(pages, height, LiveChildren(n)[i + 1..]);
      assert n.keys[i..n.numKeys][0] == n.keys[i];
      assert n.keys[i..n.numKeys][1..] == n.keys[i + 1..n.numKeys];
    }
  }

  /** The first slot whose key the target does not compare above (the scan of btree_search). */
  function FirstNotBelow(n: Node, key: Key, i: int): (r: int)
    requires WellFormed(n) && 0 <= i <= n.numKeys
    ensures i <= r <= n.numKeys
    decreases n.numKeys - i
  {
    if i < n.numKeys && CompareKeys(key, n.keys[i]) > 0 then FirstNotBelow(n, key, i + 1) else i
  }

  /** The key scan of btree_search within one page. */
  method ScanPage(n: Node, key: Key) returns (i: int)
    requires WellFormed(n)
    ensures i == FirstNotBelow(n, key, 0)
  {
    i := 0;
    while i < n.numKeys && CompareKeys(key, n.keys[i]) > 0
      invariant 0 <= i <= n.numKeys
      invariant FirstNotBelow(n, key, i) == FirstNotBelow(n, key, 0)
    {
      i := i + 1;
    }
  }

  /**
   * The answer of btree_search from page content `n`: at each page the first
   * key not below the target either equals it or the search descends into
   * the child before that key; it fails at a leaf.
   */
  ghost function Lookup(pages: map<int, Node>, height: map<int, nat>, n: Node, h: nat, key: Key): Option<Key>
    requires ArenaValid(pages, height) && FitsAt(height, n, h)
    decreases h
  {
    var i := FirstNotBelow(n, key, 0);
    if i < n.numKeys && CompareKeys(key, n.keys[i]) == 0 then Some(n.keys[i])
    else if n.isLeaf then None
    else Lookup(pages, height, ChildPage(pages, height, n, h, i), h - 1, key)
  }

  /** The search ends at page `n` when the scan stops at an equal key, or at a leaf. */
  lemma LookupStops(pages: map<int, Node>, height: map<int, nat>, n: Node, h: nat, key: Key, i: int)
    requires ArenaValid(pages, height) && FitsAt(height, n, h)
    requires i == FirstNotBelow(n, key, 0)
    ensures i < n.numKeys && CompareKeys(key, n.keys[i]) == 0 ==> Lookup(pages, height, n, h, key) == Some(n.keys[i])
    ensures !(i < n.numKeys && CompareKeys(key, n.keys[i]) == 0) && n.isLeaf ==> Lookup(pages, height, n, h, key) == None
  {
  }

  /** When the target is not at page `n`, the search continues in the child the scan stopped before. */
  lemma LookupDescends(pages: map<int, Node>, height: map<int, nat>, n: Node, h: nat, key: Key, i: int)
    requires ArenaValid(pages, height) && FitsAt(height, n, h) && !n.isLeaf
    requires i == FirstNotBelow(n, key, 0)
    requires !(i < n.numKeys && CompareKeys(key, n.keys[i]) == 0)
    ensures n.children[i] in pages && FitsAt(height, pages[n.children[i]], h - 1)
    ensures Lookup(pages, height, n, h, key) == Lookup(pages, height, pages[n.children[i]], h - 1, key)
  {
    var c := ChildPage(pages, height, n, h, i);
  }

  /** A key the search returns compares equal to the target and is a key of the walk. */
  lemma {:induction false} LookupSound(pages: map<int, Node>, height: map<int, nat>, n: Node, h: nat, key: Key)
    requires ArenaValid(pages, height) && FitsAt(height, n, h)
    ensures var r := Lookup(pages, height, n, h, key);
            r.Some? ==> CompareKeys(key, r.value) == 0 && r.value in Walk(pages, height, n, h)
    decreases h
  {
    var i := FirstNotBelow(n, key, 0);
    if i < n.numKeys && CompareKeys(key, n.keys[i]) == 0 {
      if !n.isLeaf {
        WalkFromContains(pages, height, n, h, 0, i);
      }
    } else if !n.isLeaf {
      LookupSound(pages, height, ChildPage(pages, height, n, h, i), h - 1, key);
      WalkFromContains(pages, height, n, h, 0, i);
    }
  }

  /** The key btree_search and btree_delete build from a name and a threshold. */
  function SearchKey(name: string, threshold: int): (k: Key)
    ensures k.name == TruncateName(name) && k.threshold == threshold
  {
    BLANK_KEY.(name := TruncateName(name), threshold := threshold)
  }

  /** Writing fitting contents for every mid-update page (and one more) leaves the arena valid. */
  lemma StoreThree(pages: map<int, Node>, height: map<int, nat>, x: set<int>, a: Node, b: Node, c: Node)
    requires FitsExcept(pages, height, x)
    requires a.selfOffset in pages && b.selfOffset in pages && c.selfOffset in pages
    requires x <= {a.selfOffset, c.selfOffset}
    requires Fits(height, a, a.selfOffset) && Fits(height, b, b.selfOffset) && Fits(height, c, c.selfOffset)
    ensures ArenaValid(pages[a.selfOffset := a][b.selfOffset := b][c.selfOffset := c], height)
    ensures pages[a.selfOffset := a][b.selfOffset := b][c.selfOffset := c].Keys == pages.Keys
  {
  }

  /**
   * Writing page `a`, a page `b` below level `h` and a new page `c` leaves
   * every other page at level `h` or above as it was.
   */
  lemma ThreeWritesBelow(p: map<int, Node>, height: map<int, nat>, a: int, va: Node, b: int, vb: Node, c: int, vc: Node, h: int)
    requires b in height && height[b] < h && c !in p
    ensures forall o :: o in p && o != a && o in height && height[o] >= h ==> p[a := va][b := vb][c := vc][o] == p[o]
  {
  }

  /** A later write to `k` hides an earlier one. */
  lemma Overwrite(m: map<int, Node>, k: int, v0: Node, a: int, va: Node, b: int, vb: Node, v: Node)
    requires k != a && k != b
    ensures m[k := v0][a := va][b := vb][k := v] == m[a := va][b := vb][k := v]
  {
  }

  /** The three pages a split writes all fit their offsets. */
  lemma SplitFits(height: map<int, nat>, parent: Node, index: int, child: Node, parent': Node, child': Node, sibling': Node)
    requires Fits(height, parent, parent.selfOffset) && !parent.isLeaf && 0 <= index <= parent.numKeys < MAX_KEYS
    requires parent.children[index] == child.selfOffset && Fits(height, child, child.selfOffset) && child.numKeys == MAX_KEYS
    requires sibling'.selfOffset in height && height[sibling'.selfOffset] == height[child.selfOffset]
    requires WellFormed(parent') && WellFormed(child') && WellFormed(sibling')
    requires child' == child.(numKeys := MIN_KEYS)
    requires sibling'.isLeaf == child.isLeaf && sibling'.numKeys == MIN_KEYS
    requires !child.isLeaf ==> LiveChildren(sibling') == child.children[ORDER / 2..ORDER / 2 + MIN_KEYS + 1]
    requires parent'.isLeaf == parent.isLeaf && parent'.selfOffset == parent.selfOffset
    requires parent'.numKeys == parent.numKeys + 1
    requires LiveChildren(parent') == parent.children[..index + 1] + [sibling'.selfOffset] + parent.children[index + 1..parent.numKeys + 1]
    ensures Fits(height, parent', parent.selfOffset)
    ensures Fits(height, child', child.selfOffset)
    ensures Fits(height, sibling', sibling'.selfOffset)
  {
    var hc := height[child.selfOffset];
    assert hc == height[parent.selfOffset] - 1;
    if !sibling'.isLeaf {
      forall i | 0 <= i <= sibling'.numKeys
        ensures sibling'.children[i] in height && height[sibling'.children[i]] == hc - 1
      {
        var c := sibling'.children[i];
        assert c == LiveChildren(sibling')[i] == child.children[i + ORDER / 2];
        assert c in height;
      }
    }
    forall i | 0 <= i <= parent'.numKeys
      ensures parent'.children[i] in height && height[parent'.children[i]] == hc
    {
      var c := parent'.children[i];
      assert c == LiveChildren(parent')[i];
      if i <= index {
        assert c == parent.children[i];
      } else if i == index + 1 {
        assert c == sibling'.selfOffset;
      } else {
        assert c == parent.children[i - 1];
      }
      assert c in height;
    }
  }

  /** Every offset in `s` is a page at level `h`. */
  ghost predicate AllAt(height: map<int, nat>, s: seq<int>, h: int)
  {
    forall j :: 0 <= j < |s| ==> s[j] in height && height[s[j]] == h
  }

  lemma ChildrenAt(height: map<int, nat>, n: Node, h: nat)
    requires FitsAt(height, n, h) && !n.isLeaf
    ensures AllAt(height, LiveChildren(n), h - 1)
  {
    forall j | 0 <= j < |LiveChildren(n)|
      ensures LiveChildren(n)[j] in height && height[LiveChildren(n)[j]] == h - 1
    {
      var c := n.children[j];
      assert c == LiveChildren(n)[j];
      assert c in height;
    }
  }

  lemma FitsByChildren(height: map<int, nat>, n: Node, h: nat)
    requires WellFormed(n) && (n.isLeaf <==> h == 0)
    requires !n.isLeaf ==> AllAt(height, LiveChildren(n), h - 1)
    ensures FitsAt(height, n, h)
  {
    if !n.isLeaf {
      forall i | 0 <= i <= n.numKeys
        ensures n.children[i] in height && height[n.children[i]] == h - 1
      {
        var c := LiveChildren(n)[i];
        assert c == n.children[i];
        assert c in height;
      }
    }
  }

  lemma AllAtConcat(height: map<int, nat>, a: seq<int>, b: seq<int>, h: int)
    requires AllAt(height, a, h) && AllAt(height, b, h)
    ensures AllAt(height, a + b, h)
  {
    forall j | 0 <= j < |a + b|
      ensures (a + b)[j] in height && height[(a + b)[j]] == h
    {
      var c := (a + b)[j];
      if j < |a| {
        assert c == a[j];
        assert c in height;
      } else {
        assert c == b[j - |a|];
        assert c in height;
      }
    }
  }

  lemma AllAtSlice(height: map<int, nat>, a: seq<int>, lo: int, hi: int, h: int)
    requires AllAt(height, a, h) && 0 <= lo <= hi <= |a|
    ensures AllAt(height, a[lo..hi], h)
  {
    forall j | 0 <= j < hi - lo
      ensures a[lo..hi][j] in height && height[a[lo..hi][j]] == h
    {
      var c := a[lo + j];
      assert c == a[lo..hi][j];
      assert c in height;
    }
  }

  /** A page rewritten with the same children and no more live keys still fits. */
  lemma ShrinkFits(height: map<int, nat>, n: Node, n': Node)
    requires Fits(height, n, n.selfOffset) && WellFormed(n')
    requires n'.isLeaf == n.isLeaf && n'.children == n.children && n'.selfOffset == n.selfOffset
    requires n'.numKeys <= n.numKeys
    ensures Fits(height, n', n.selfOffset)
  {
  }

  /** Writing a fitting page keeps the arena valid. */
  lemma StoreOne(pages: map<int, Node>, height: map<int, nat>, n: Node)
    requires ArenaValid(pages, height) && n.selfOffset in pages && Fits(height, n, n.selfOffset)
    ensures ArenaValid(pages[n.selfOffset := n], height)
    ensures pages[n.selfOffset := n].Keys == pages.Keys
    ensures |pages[n.selfOffset := n]| == |pages|
  {
  }

  /** The child that borrowed from its left sibling still fits. */
  lemma BorrowPrevFits(height: map<int, nat>, child: Node, left: Node, c: Node, hc: nat)
    requires FitsAt(height, child, hc) && FitsAt(height, left, hc) && WellFormed(c) && c.isLeaf == child.isLeaf
    requires !child.isLeaf ==> LiveChildren(c) == [left.children[left.numKeys]] + LiveChildren(child)
    ensures FitsAt(height, c, hc)
  {
    if !child.isLeaf {
      ChildrenAt(height, child, hc);
      ChildrenAt(height, left, hc);
      AllAtSlice(height, LiveChildren(left), left.numKeys, left.numKeys + 1, hc - 1);
      assert LiveChildren(left)[left.numKeys..left.numKeys + 1] == [left.children[left.numKeys]];
      AllAtConcat(height, [left.children[left.numKeys]], LiveChildren(child), hc - 1);
    }
    FitsByChildren(height, c, hc);
  }

  /** The child that borrowed from its right sibling, and that sibling, still fit. */
  lemma BorrowNextFits(height: map<int, nat>, child: Node, right: Node, c: Node, r: Node, hc: nat)
    requires FitsAt(height, child, hc) && FitsAt(height, right, hc) && right.numKeys >= 1
    requires WellFormed(c) && c.isLeaf == child.isLeaf && WellFormed(r) && r.isLeaf == right.isLeaf
    requires !child.isLeaf ==> LiveChildren(c) == LiveChildren(child) + [right.children[0]]
    requires !right.isLeaf ==> LiveChildren(r) == right.children[1..right.numKeys + 1]
    ensures FitsAt(height, c, hc) && FitsAt(height, r, hc)
  {
    if !child.isLeaf {
      ChildrenAt(height, child, hc);
      ChildrenAt(height, right, hc);
      AllAtSlice(height, LiveChildren(right), 0, 1, hc - 1);
      assert LiveChildren(right)[0..1] == [right.children[0]];
      AllAtConcat(height, LiveChildren(child), [right.children[0]], hc - 1);
      AllAtSlice(height, LiveChildren(right), 1, right.numKeys + 1, hc - 1);
      assert LiveChildren(right)[1..right.numKeys + 1] == right.children[1..right.numKeys + 1];
    }
    FitsByChildren(height, c, hc);
    FitsByChildren(height, r, hc);
  }

  /** The merged child, and the parent that lost a key and a child, still fit. */
  lemma MergeFits(height: map<int, nat>, node: Node, h: nat, idx: int, child: Node, right: Node, p: Node, c: Node)
    requires FitsAt(height, node, h) && !node.isLeaf && 0 <= idx < node.numKeys
    requires FitsAt(height, child, h - 1) && FitsAt(height, right, h - 1)
    requires WellFormed(c) && c.isLeaf == child.isLeaf
    requires !child.isLeaf ==> LiveChildren(c) == LiveChildren(child) + LiveChildren(right)
    requires WellFormed(p) && !p.isLeaf
    requires LiveChildren(p) == node.children[..idx + 1] + node.children[idx + 2..node.numKeys + 1]
    ensures FitsAt(height, c, h - 1) && FitsAt(height, p, h)
  {
    if !child.isLeaf {
      ChildrenAt(height, child, h - 1);
      ChildrenAt(height, right, h - 1);
      AllAtConcat(height, LiveChildren(child), LiveChildren(right), h - 2);
    }
    FitsByChildren(height, c, h - 1);
    ChildrenAt(height, node, h);
    AllAtSlice(height, LiveChildren(node), 0, idx + 1, h - 1);
    AllAtSlice(height, LiveChildren(node), idx + 2, node.numKeys + 1, h - 1);
    assert LiveChildren(node)[0..idx + 1] == node.children[..idx + 1];
    assert LiveChildren(node)[idx + 2..node.numKeys + 1] == node.children[idx + 2..node.numKeys + 1];
    AllAtConcat(height, node.children[..idx + 1], node.children[idx + 2..node.numKeys + 1], h - 1);
    FitsByChildren(height, p, h);
  }

  // ---------------------------------------------------------------------
  // What rebalancing does to a subtree without shared pages
  // ---------------------------------------------------------------------

  /** No leaf in the subtree under the page at `o` is empty. */
  ghost predicate NoEmptyLeaf(pages: map<int, Node>, height: map<int, nat>, o: int)
    requires ArenaValid(pages, height) && o in pages
  {
    forall x :: x in Reach(pages, height, o) && pages[x].isLeaf ==> pages[x].numKeys > 0
  }

  /** The subtree under the page at `o` shares no page and its walk is ascending. */
  ghost predicate Orderly(pages: map<int, Node>, height: map<int, nat>, o: int)
    requires ArenaValid(pages, height) && o in pages
  {
    Unshared(pages, height, o) && Ascending(PageWalk(pages, height, o))
  }

  lemma ForestOne(pages: map<int, Node>, height: map<int, nat>, x: int)
    requires ArenaValid(pages, height) && x in pages
    ensures AllIn(pages, [x])
    ensures ReachAll(pages, height, [x]) == Reach(pages, height, x)
    ensures Forest(pages, height, [x]) <==> Unshared(pages, height, x)
  {
    assert [x][1..] == [];
  }

  lemma ForestTwo(pages: map<int, Node>, height: map<int, nat>, x: int, y: int)
    requires ArenaValid(pages, height) && x in pages && y in pages
    ensures AllIn(pages, [x, y])
    ensures ReachAll(pages, height, [x, y]) == Reach(pages, height, x) + Reach(pages, height, y)
    ensures Forest(pages, height, [x, y]) <==>
              Unshared(pages, height, x) && Unshared(pages, height, y) && Reach(pages, height, x) !! Reach(pages, height, y)
  {
    assert [x, y][1..] == [y];
    ForestOne(pages, height, y);
  }

  lemma KidWalksConcat(pages: map<int, Node>, height: map<int, nat>, a: seq<int>, b: seq<int>)
    requires ArenaValid(pages, height) && AllIn(pages, a) && AllIn(pages, b)
    ensures AllIn(pages, a + b)
    ensures KidWalks(pages, height, a + b) == KidWalks(pages, height, a) + KidWalks(pages, height, b)
  {
    var w, wa, wb := KidWalks(pages, height, a + b), KidWalks(pages, height, a), KidWalks(pages, height, b);
    forall j | 0 <= j < |a + b|
      ensures w[j] == (wa + wb)[j]
    {
      if j < |a| {
        assert (a + b)[j] == a[j];
      } else {
        assert (a + b)[j] == b[j - |a|];
      }
    }
  }

  /**
   * The page at `x` holds `m` in arena `q`, which agrees with `p` below
   * the page's level: its subtree, its sharing and its walk are those of
   * m's children in `p`.
   */
  lemma PageKids(p: map<int, Node>, q: map<int, Node>, height: map<int, nat>, x: int)
    requires ArenaValid(p, height) && ArenaValid(q, height) && x in q
    requires forall y :: y in p && height[y] < height[x] ==> q[y] == p[y]
    ensures Fits(height, q[x], x)
    ensures q[x].isLeaf ==> Reach(q, height, x) == {x} && Unshared(q, height, x) && PageWalk(q, height, x) == LiveKeys(q[x])
    ensures !q[x].isLeaf ==>
              && AllAt(height, LiveChildren(q[x]), height[x] - 1) && AllIn(p, LiveChildren(q[x]))
              && Reach(q, height, x) == {x} + ReachAll(p, height, LiveChildren(q[x]))
              && (Unshared(q, height, x) <==> Forest(p, height, LiveChildren(q[x])))
              && PageWalk(q, height, x) == Weave(KidWalks(p, height, LiveChildren(q[x])), LiveKeys(q[x]))
  {
    PageKidsReach(p, q, height, x);
    var m := q[x];
    if !m.isLeaf {
      KidsBelow(p, q, height, LiveChildren(m), height[x] - 1);
      WalkKids(q, height, m, height[x]);
    }
  }

  /** The part of PageKids about pages only. */
  lemma PageKidsReach(p: map<int, Node>, q: map<int, Node>, height: map<int, nat>, x: int)
    requires ArenaValid(p, height) && ArenaValid(q, height) && x in q
    requires forall y :: y in p && height[y] < height[x] ==> q[y] == p[y]
    ensures Fits(height, q[x], x)
    ensures q[x].isLeaf ==> Reach(q, height, x) == {x} && Unshared(q, height, x)
    ensures !q[x].isLeaf ==>
              && AllAt(height, LiveChildren(q[x]), height[x] - 1) && AllIn(p, LiveChildren(q[x]))
              && Reach(q, height, x) == {x} + ReachAll(p, height, LiveChildren(q[x]))
              && (Unshared(q, height, x) <==> Forest(p, height, LiveChildren(q[x])))
  {
    ReachKids(q, height, x);
    var m := q[x];
    if !m.isLeaf {
      KidsBelow(p, q, height, LiveChildren(m), height[x] - 1);
    }
  }

  /** A list of siblings cut in three. */
  lemma ThreeParts(pages: map<int, Node>, height: map<int, nat>, a: seq<int>, m: seq<int>, b: seq<int>)
    requires ArenaValid(pages, height) && AllIn(pages, a + m + b)
    ensures AllIn(pages, a) && AllIn(pages, m) && AllIn(pages, b)
    ensures var ra, rm, rb := ReachAll(pages, height, a), ReachAll(pages, height, m), ReachAll(pages, height, b);
            && ReachAll(pages, height, a + m + b) == ra + rm + rb
            && (Forest(pages, height, a + m + b) <==>
                  && Forest(pages, height, a) && Forest(pages, height, m) && Forest(pages, height, b)
                  && ra !! rm && ra !! rb && rm !! rb)
    ensures KidWalks(pages, height, a + m + b) == KidWalks(pages, height, a) + KidWalks(pages, height, m) + KidWalks(pages, height, b)
  {
    assert forall j :: 0 <= j < |a| ==> a[j] == (a + m + b)[j];
    assert forall j :: 0 <= j < |m| ==> m[j] == (a + m + b)[|a| + j];
    assert forall j :: 0 <= j < |b| ==> b[j] == (a + m + b)[|a| + |m| + j];
    ReachAllConcat(pages, height, a, m);
    ReachAllConcat(pages, height, a + m, b);
    ForestConcat(pages, height, a, m);
    ForestConcat(pages, height, a + m, b);
    KidWalksConcat(pages, height, a, m);
    KidWalksConcat(pages, height, a + m, b);
  }

  lemma ThreeAt(height: map<int, nat>, a: seq<int>, m: seq<int>, b: seq<int>, h: int)
    requires AllAt(height, a + m + b, h)
    ensures AllAt(height, a, h) && AllAt(height, m, h) && AllAt(height, b, h)
  {
    assert forall j :: 0 <= j < |a| ==> a[j] == (a + m + b)[j];
    assert forall j :: 0 <= j < |m| ==> m[j] == (a + m + b)[|a| + j];
    assert forall j :: 0 <= j < |b| ==> b[j] == (a + m + b)[|a| + |m| + j];
  }

  /** The subtree, the sharing and the child walks of an internal page whose child list is cut in three. */
  lemma ParentParts(pages: map<int, Node>, height: map<int, nat>, o: int, a: seq<int>, m: seq<int>, b: seq<int>)
    requires ArenaValid(pages, height) && o in pages && !pages[o].isLeaf
    requires LiveChildren(pages[o]) == a + m + b
    ensures AllAt(height, a, height[o] - 1) && AllAt(height, m, height[o] - 1) && AllAt(height, b, height[o] - 1)
    ensures AllIn(pages, a) && AllIn(pages, m) && AllIn(pages, b)
    ensures var ra, rm, rb := ReachAll(pages, height, a), ReachAll(pages, height, m), ReachAll(pages, height, b);
            && Reach(pages, height, o) == {o} + ra + rm + rb
            && (forall x :: x in ra + rm + rb ==> height[x] < height[o])
            && (Unshared(pages, height, o) <==>
                  && Forest(pages, height, a) && Forest(pages, height, m) && Forest(pages, height, b)
                  && ra !! rm && ra !! rb && rm !! rb)
    ensures KidWalks(pages, height, a + m + b) == KidWalks(pages, height, a) + KidWalks(pages, height, m) + KidWalks(pages, height, b)
  {
    ReachKids(pages, height, o);
    ThreeAt(height, a, m, b, height[o] - 1);
    ReachAllLevel(pages, height, a + m + b, height[o] - 1);
    ThreeParts(pages, height, a, m, b);
  }

  /**
   * The parent at `o` has the window `mOld` of its child list replaced by
   * `mNew`, and only pages in the window's subtrees (and `o`) changed. When
   * the new window is a forest within the old window's pages, the subtree
   * stays free of sharing and loses pages at most; the walks of the other
   * children are unchanged.
   */
  lemma Reassemble(p: map<int, Node>, q: map<int, Node>, height: map<int, nat>, o: int,
                   a: seq<int>, mOld: seq<int>, mNew: seq<int>, b: seq<int>)
    requires ArenaValid(p, height) && ArenaValid(q, height) && o in p && Unshared(p, height, o)
    requires !p[o].isLeaf && !q[o].isLeaf
    requires LiveChildren(p[o]) == a + mOld + b && LiveChildren(q[o]) == a + mNew + b
    requires AllIn(p, mOld) && AllIn(q, mNew)
    requires forall x :: x in p && x != o && x !in ReachAll(p, height, mOld) ==> q[x] == p[x]
    requires Forest(q, height, mNew) && ReachAll(q, height, mNew) <= ReachAll(p, height, mOld)
    ensures AllIn(p, a) && AllIn(p, b)
    ensures Unshared(q, height, o) && Reach(q, height, o) <= Reach(p, height, o)
    ensures KidWalks(p, height, a + mOld + b) == KidWalks(p, height, a) + KidWalks(p, height, mOld) + KidWalks(p, height, b)
    ensures KidWalks(q, height, a + mNew + b) == KidWalks(p, height, a) + KidWalks(q, height, mNew) + KidWalks(p, height, b)
    ensures AllIn(q, a) && AllIn(q, b) && KidWalks(q, height, a) == KidWalks(p, height, a) && KidWalks(q, height, b) == KidWalks(p, height, b)
  {
    var h := height[o];
    ParentParts(p, height, o, a, mOld, b);
    ParentParts(q, height, o, a, mNew, b);
    KidsAgree(p, q, height, a, h - 1);
    KidsAgree(p, q, height, b, h - 1);
  }

  /**
   * Two sibling pages `x` and `y` at level `hc` are rewritten in `q` so that
   * together they keep the same grandchildren in the same order (a borrow).
   * If their subtrees were disjoint and unshared, they still are, over the
   * same pages.
   */
  lemma SiblingsPair(p: map<int, Node>, q: map<int, Node>, height: map<int, nat>, x: int, y: int)
    requires ArenaValid(p, height) && ArenaValid(q, height) && x in p && y in p && height[x] == height[y]
    requires forall z :: z in p && height[z] < height[x] ==> q[z] == p[z]
    requires Unshared(p, height, x) && Unshared(p, height, y) && Reach(p, height, x) !! Reach(p, height, y)
    requires q[x].isLeaf == p[x].isLeaf && q[y].isLeaf == p[y].isLeaf
    requires !p[x].isLeaf ==> LiveChildren(p[x]) + LiveChildren(p[y]) == LiveChildren(q[x]) + LiveChildren(q[y])
    ensures AllIn(p, [x, y]) && AllIn(q, [x, y])
    ensures Forest(q, height, [x, y]) && ReachAll(q, height, [x, y]) == ReachAll(p, height, [x, y])
  {
    ForestTwo(p, height, x, y);
    ForestTwo(q, height, x, y);
    SiblingsReach(p, q, height, x, y);
  }

  /** The part of SiblingsPair about single pages. */
  lemma SiblingsReach(p: map<int, Node>, q: map<int, Node>, height: map<int, nat>, x: int, y: int)
    requires ArenaValid(p, height) && ArenaValid(q, height) && x in p && y in p && height[x] == height[y]
    requires forall z :: z in p && height[z] < height[x] ==> q[z] == p[z]
    requires Unshared(p, height, x) && Unshared(p, height, y) && Reach(p, height, x) !! Reach(p, height, y)
    requires q[x].isLeaf == p[x].isLeaf && q[y].isLeaf == p[y].isLeaf
    requires !p[x].isLeaf ==> LiveChildren(p[x]) + LiveChildren(p[y]) == LiveChildren(q[x]) + LiveChildren(q[y])
    ensures Unshared(q, height, x) && Unshared(q, height, y) && Reach(q, height, x) !! Reach(q, height, y)
    ensures Reach(q, height, x) + Reach(q, height, y) == Reach(p, height, x) + Reach(p, height, y)
  {
    ReachKids(p, height, x);
    ReachKids(p, height, y);
    assert x != y by { assert x in Reach(p, height, x); }
    if p[x].isLeaf {
      PageKidsReach(p, q, height, x);
      PageKidsReach(p, q, height, y);
    } else {
      InnerSiblingsReach(p, q, height, x, y);
    }
  }

  /** SiblingsReach for two internal pages. */
  lemma InnerSiblingsReach(p: map<int, Node>, q: map<int, Node>, height: map<int, nat>, x: int, y: int)
    requires ArenaValid(p, height) && ArenaValid(q, height) && x in p && y in p && height[x] == height[y] && x != y
    requires forall z :: z in p && height[z] < height[x] ==> q[z] == p[z]
    requires Unshared(p, height, x) && Unshared(p, height, y) && Reach(p, height, x) !! Reach(p, height, y)
    requires !p[x].isLeaf && q[x].isLeaf == p[x].isLeaf && q[y].isLeaf == p[y].isLeaf
    requires LiveChildren(p[x]) + LiveChildren(p[y]) == LiveChildren(q[x]) + LiveChildren(q[y])
    ensures Unshared(q, height, x) && Unshared(q, height, y) && Reach(q, height, x) !! Reach(q, height, y)
    ensures Reach(q, height, x) + Reach(q, height, y) == Reach(p, height, x) + Reach(p, height, y)
  {
    ReachKids(p, height, x);
    ReachKids(p, height, y);
    var px, py := LiveChildren(p[x]), LiveChildren(p[y]);
    var qx, qy := LiveChildren(q[x]), LiveChildren(q[y]);
    assert ReachAll(p, height, px) !! ReachAll(p, height, py);
    RegroupKids(p, height, px, py, qx, qy, height[x] - 1);
    PageKidsReach(p, q, height, x);
    PageKidsReach(p, q, height, y);
    PairSets(x, y, ReachAll(p, height, qx), ReachAll(p, height, qy),
             ReachAll(p, height, LiveChildren(p[x])), ReachAll(p, height, LiveChildren(p[y])));
  }

  /** Two distinct pages over two disjoint sets of pages below them, regrouped. */
  lemma PairSets(x: int, y: int, a: set<int>, b: set<int>, a': set<int>, b': set<int>)
    requires x != y && x !in b && y !in a && a !! b && a + b == a' + b'
    ensures ({x} + a) !! ({y} + b) && ({x} + a) + ({y} + b) == ({x} + a') + ({y} + b')
  {
  }

  /** Two kid lists cut at a different place from the same forest are still two disjoint forests over the same pages. */
  lemma RegroupKids(pages: map<int, Node>, height: map<int, nat>, px: seq<int>, py: seq<int>, qx: seq<int>, qy: seq<int>, h: nat)
    requires ArenaValid(pages, height) && px + py == qx + qy
    requires AllAt(height, px, h) && AllAt(height, py, h) && AllIn(pages, px) && AllIn(pages, py)
    requires Forest(pages, height, px) && Forest(pages, height, py)
    requires ReachAll(pages, height, px) !! ReachAll(pages, height, py)
    ensures AllAt(height, qx, h) && AllAt(height, qy, h) && AllIn(pages, qx) && AllIn(pages, qy)
    ensures Forest(pages, height, qx) && Forest(pages, height, qy)
    ensures ReachAll(pages, height, qx) !! ReachAll(pages, height, qy)
    ensures ReachAll(pages, height, qx) + ReachAll(pages, height, qy) == ReachAll(pages, height, px) + ReachAll(pages, height, py)
    ensures forall z :: z in ReachAll(pages, height, qx) + ReachAll(pages, height, qy) ==> height[z] <= h
  {
    AllAtRecut(height, px, py, qx, qy, h);
    ReachAllLevel(pages, height, qx, h);
    ReachAllLevel(pages, height, qy, h);
    ForestConcat(pages, height, px, py);
    ReachAllConcat(pages, height, px, py);
    ForestConcat(pages, height, qx, qy);
    ReachAllConcat(pages, height, qx, qy);
  }

  /** Two lists of pages at level h, cut at another place, are still two lists at level h. */
  lemma AllAtRecut(height: map<int, nat>, px: seq<int>, py: seq<int>, qx: seq<int>, qy: seq<int>, h: nat)
    requires px + py == qx + qy && AllAt(height, px, h) && AllAt(height, py, h)
    ensures AllAt(height, qx, h) && AllAt(height, qy, h)
  {
    assert forall j :: 0 <= j < |qx| ==> qx[j] == (px + py)[j];
    assert forall j :: 0 <= j < |qy| ==> qy[j] == (px + py)[|qx| + j];
    forall j | 0 <= j < |px + py|
      ensures (px + py)[j] in height && height[(px + py)[j]] == h
    {
      if j < |px| { assert (px + py)[j] == px[j]; } else { assert (px + py)[j] == py[j - |px|]; }
    }
  }

  /**
   * Page `x` is rewritten in `q` to take over the children of its sibling
   * `y` after its own (a merge). If their subtrees were disjoint and
   * unshared, the merged one is unshared and holds no other pages.
   */
  lemma MergedPair(p: map<int, Node>, q: map<int, Node>, height: map<int, nat>, x: int, y: int)
    requires ArenaValid(p, height) && ArenaValid(q, height) && x in p && y in p && height[x] == height[y]
    requires forall z :: z in p && height[z] < height[x] ==> q[z] == p[z]
    requires Unshared(p, height, x) && Unshared(p, height, y) && Reach(p, height, x) !! Reach(p, height, y)
    requires q[x].isLeaf == p[x].isLeaf
    requires !p[x].isLeaf ==> LiveChildren(q[x]) == LiveChildren(p[x]) + LiveChildren(p[y])
    ensures AllIn(p, [x, y]) && AllIn(q, [x])
    ensures Forest(q, height, [x]) && ReachAll(q, height, [x]) <= ReachAll(p, height, [x, y])
  {
    ForestTwo(p, height, x, y);
    ForestOne(q, height, x);
    ReachKids(p, height, x);
    ReachKids(p, height, y);
    PageKidsReach(p, q, height, x);
    if !p[x].isLeaf {
      ForestConcat(p, height, LiveChildren(p[x]), LiveChildren(p[y]));
      ReachAllConcat(p, height, LiveChildren(p[x]), LiveChildren(p[y]));
    }
  }

  /** The walks of two siblings and their separator, when the siblings keep their grandchildren between them. */
  lemma SiblingsWalk(p: map<int, Node>, q: map<int, Node>, height: map<int, nat>, x: int, y: int, k: Key, k': Key)
    requires ArenaValid(p, height) && ArenaValid(q, height) && x in p && y in p && height[x] == height[y]
    requires forall z :: z in p && height[z] < height[x] ==> q[z] == p[z]
    requires q[x].isLeaf == p[x].isLeaf && q[y].isLeaf == p[y].isLeaf == p[x].isLeaf
    requires !p[x].isLeaf ==> LiveChildren(p[x]) + LiveChildren(p[y]) == LiveChildren(q[x]) + LiveChildren(q[y])
    requires LiveKeys(q[x]) + [k'] + LiveKeys(q[y]) == LiveKeys(p[x]) + [k] + LiveKeys(p[y])
    ensures PageWalk(q, height, x) + [k'] + PageWalk(q, height, y) == PageWalk(p, height, x) + [k] + PageWalk(p, height, y)
  {
    var p0 := p;
    PageKids(p, q, height, x);
    PageKids(p, q, height, y);
    PageKids(p, p0, height, x);
    PageKids(p, p0, height, y);
    if !p[x].isLeaf {
      var px, py, qx, qy := LiveChildren(p[x]), LiveChildren(p[y]), LiveChildren(q[x]), LiveChildren(q[y]);
      KidWalksConcat(p, height, px, py);
      KidWalksConcat(p, height, qx, qy);
      WeaveSplit(KidWalks(p, height, qx), LiveKeys(q[x]), k', KidWalks(p, height, qy), LiveKeys(q[y]));
      WeaveSplit(KidWalks(p, height, px), LiveKeys(p[x]), k, KidWalks(p, height, py), LiveKeys(p[y]));
    }
  }

  /** The walk of a page that absorbed its separator and its right sibling. */
  lemma MergedWalk(p: map<int, Node>, q: map<int, Node>, height: map<int, nat>, x: int, y: int, k: Key)
    requires ArenaValid(p, height) && ArenaValid(q, height) && x in p && y in p && height[x] == height[y]
    requires forall z :: z in p && height[z] < height[x] ==> q[z] == p[z]
    requires q[x].isLeaf == p[x].isLeaf == p[y].isLeaf
    requires !p[x].isLeaf ==> LiveChildren(q[x]) == LiveChildren(p[x]) + LiveChildren(p[y])
    requires LiveKeys(q[x]) == LiveKeys(p[x]) + [k] + LiveKeys(p[y])
    ensures PageWalk(q, height, x) == PageWalk(p, height, x) + [k] + PageWalk(p, height, y)
  {
    var p0 := p;
    PageKids(p, q, height, x);
    PageKids(p, p0, height, x);
    PageKids(p, p0, height, y);
    if !p[x].isLeaf {
      KidWalksConcat(p, height, LiveChildren(p[x]), LiveChildren(p[y]));
      WeaveSplit(KidWalks(p, height, LiveChildren(p[x])), LiveKeys(p[x]), k, KidWalks(p, height, LiveChildren(p[y])), LiveKeys(p[y]));
    }
  }

  /** A list cut around the pair at `j`, `j + 1`. */
  lemma Window<T>(s: seq<T>, j: int)
    requires 0 <= j && j + 2 <= |s|
    ensures s == s[..j] + [s[j], s[j + 1]] + s[j + 2..]
  {
    assert s == s[..j] + s[j..j + 2] + s[j + 2..];
  }

  lemma SameChildren(n: Node, m: Node)
    requires WellFormed(n) && WellFormed(m) && m.children == n.children && m.numKeys == n.numKeys
    ensures LiveChildren(m) == LiveChildren(n)
  {
  }

  /**
   * btree_borrow_from_prev and btree_borrow_from_next on a parent without
   * shared pages. The two children around separator slot `j` are rewritten
   * so that together they keep their grandchildren, and left ++ [separator]
   * ++ right reads the same with the parent's new separator `s'`. The
   * parent's walk is unchanged, it still shares no page, and it reaches no
   * page it did not reach before.
   */
  lemma PairKeeps(p: map<int, Node>, q: map<int, Node>, height: map<int, nat>, o: int, j: int, s': Key)
    requires ArenaValid(p, height) && ArenaValid(q, height) && o in p && !p[o].isLeaf && 0 <= j < p[o].numKeys
    requires Unshared(p, height, o)
    requires var n := p[o]; var x, y := n.children[j], n.children[j + 1];
             && q[o] == n.(keys := n.keys[j := s'])
             && (forall z :: z in p && z != o && z != x && z != y ==> q[z] == p[z])
             && x in p && y in p && q[x].isLeaf == p[x].isLeaf && q[y].isLeaf == p[y].isLeaf
             && (!p[x].isLeaf ==> LiveChildren(p[x]) + LiveChildren(p[y]) == LiveChildren(q[x]) + LiveChildren(q[y]))
             && LiveKeys(q[x]) + [s'] + LiveKeys(q[y]) == LiveKeys(p[x]) + [n.keys[j]] + LiveKeys(p[y])
    ensures PageWalk(q, height, o) == PageWalk(p, height, o)
    ensures Unshared(q, height, o) && Reach(q, height, o) <= Reach(p, height, o)
  {
    var n := p[o];
    var x, y := n.children[j], n.children[j + 1];
    var a, b := LiveChildren(n)[..j], LiveChildren(n)[j + 2..];
    PairForest(p, q, height, o, j);
    OutsidePair(p, q, height, o, x, y);
    SameChildren(n, q[o]);
    Reassemble(p, q, height, o, a, [x, y], [x, y], b);
    PairWalk(p, q, height, o, j, s', a, b);
  }

  /** The two rewritten children of PairKeeps, as a forest cut out of the parent's children. */
  lemma PairForest(p: map<int, Node>, q: map<int, Node>, height: map<int, nat>, o: int, j: int)
    requires ArenaValid(p, height) && ArenaValid(q, height) && o in p && !p[o].isLeaf && 0 <= j < p[o].numKeys
    requires Unshared(p, height, o)
    requires var n := p[o]; var x, y := n.children[j], n.children[j + 1];
             && (forall z :: z in p && z != o && z != x && z != y ==> q[z] == p[z])
             && x in p && y in p && q[x].isLeaf == p[x].isLeaf && q[y].isLeaf == p[y].isLeaf
             && (!p[x].isLeaf ==> LiveChildren(p[x]) + LiveChildren(p[y]) == LiveChildren(q[x]) + LiveChildren(q[y]))
    ensures var n := p[o]; var x, y := n.children[j], n.children[j + 1];
            && LiveChildren(n) == LiveChildren(n)[..j] + [x, y] + LiveChildren(n)[j + 2..] && |LiveChildren(n)[..j]| == j
            && height[x] == height[o] - 1 && height[y] == height[o] - 1
            && AllIn(p, [x, y]) && AllIn(q, [x, y])
            && Forest(q, height, [x, y]) && ReachAll(q, height, [x, y]) == ReachAll(p, height, [x, y])
  {
    var n := p[o];
    var h := height[o];
    var x, y := n.children[j], n.children[j + 1];
    var a, b := LiveChildren(n)[..j], LiveChildren(n)[j + 2..];
    Window(LiveChildren(n), j);
    ParentParts(p, height, o, a, [x, y], b);
    assert height[x] == h - 1 && height[y] == h - 1 by { assert [x, y][0] == x && [x, y][1] == y; }
    ForestTwo(p, height, x, y);
    SiblingsPair(p, q, height, x, y);
  }

  /** Pages other than a parent and two of its children lie outside the children's subtrees or are unchanged. */
  lemma OutsidePair(p: map<int, Node>, q: map<int, Node>, height: map<int, nat>, o: int, x: int, y: int)
    requires ArenaValid(p, height) && ArenaValid(q, height) && x in p && y in p
    requires forall z :: z in p && z != o && z != x && z != y ==> q[z] == p[z]
    ensures AllIn(p, [x, y])
    ensures forall z :: z in p && z != o && z !in ReachAll(p, height, [x, y]) ==> q[z] == p[z]
  {
    ForestTwo(p, height, x, y);
    ReachKids(p, height, x);
    ReachKids(p, height, y);
  }

  /** The walk half of PairKeeps. */
  lemma PairWalk(p: map<int, Node>, q: map<int, Node>, height: map<int, nat>, o: int, j: int, s': Key, a: seq<int>, b: seq<int>)
    requires ArenaValid(p, height) && ArenaValid(q, height) && o in p && !p[o].isLeaf && 0 <= j < p[o].numKeys
    requires var n := p[o]; var x, y := n.children[j], n.children[j + 1];
             && LiveChildren(n) == a + [x, y] + b && |a| == j
             && AllIn(p, a) && AllIn(p, b) && AllIn(p, [x, y]) && AllIn(q, [x, y])
             && q[o] == n.(keys := n.keys[j := s'])
             && height[x] == height[o] - 1 && height[y] == height[o] - 1
             && (forall z :: z in p && height[z] < height[x] ==> q[z] == p[z])
             && q[x].isLeaf == p[x].isLeaf && q[y].isLeaf == p[y].isLeaf == p[x].isLeaf
             && (!p[x].isLeaf ==> LiveChildren(p[x]) + LiveChildren(p[y]) == LiveChildren(q[x]) + LiveChildren(q[y]))
             && LiveKeys(q[x]) + [s'] + LiveKeys(q[y]) == LiveKeys(p[x]) + [n.keys[j]] + LiveKeys(p[y])
    requires KidWalks(p, height, a + [p[o].children[j], p[o].children[j + 1]] + b)
             == KidWalks(p, height, a) + KidWalks(p, height, [p[o].children[j], p[o].children[j + 1]]) + KidWalks(p, height, b)
    requires KidWalks(q, height, a + [p[o].children[j], p[o].children[j + 1]] + b)
             == KidWalks(p, height, a) + KidWalks(q, height, [p[o].children[j], p[o].children[j + 1]]) + KidWalks(p, height, b)
    ensures PageWalk(q, height, o) == PageWalk(p, height, o)
  {
    var n := p[o];
    var h := height[o];
    var x, y := n.children[j], n.children[j + 1];
    var K := LiveKeys(n);
    assert K == K[..j] + [n.keys[j]] + K[j + 1..];
    assert LiveKeys(q[o]) == K[..j] + [s'] + K[j + 1..];
    WalkKids(p, height, n, h);
    WalkKids(q, height, q[o], h);
    assert KidWalks(p, height, [x, y]) == [PageWalk(p, height, x), PageWalk(p, height, y)];
    assert KidWalks(q, height, [x, y]) == [PageWalk(q, height, x), PageWalk(q, height, y)];
    SiblingsWalk(p, q, height, x, y, n.keys[j], s');
    WeavePair(KidWalks(p, height, a), PageWalk(p, height, x), PageWalk(p, height, y), KidWalks(p, height, b), K[..j], n.keys[j], K[j + 1..]);
    WeavePair(KidWalks(p, height, a), PageWalk(q, height, x), PageWalk(q, height, y), KidWalks(p, height, b), K[..j], s', K[j + 1..]);
  }

  /**
   * btree_merge on a parent without shared pages: child `j` absorbs the
   * separator at `j` and child `j + 1`, which the parent drops. The
   * parent's walk is unchanged, it still shares no page, and it reaches no
   * page it did not reach before.
   */
  lemma MergeKeeps(p: map<int, Node>, q: map<int, Node>, height: map<int, nat>, o: int, j: int)
    requires ArenaValid(p, height) && ArenaValid(q, height) && o in p && !p[o].isLeaf && 0 <= j < p[o].numKeys
    requires Unshared(p, height, o)
    requires var n := p[o]; var x, y := n.children[j], n.children[j + 1];
             && !q[o].isLeaf
             && LiveKeys(q[o]) == n.keys[..j] + n.keys[j + 1..n.numKeys]
             && LiveChildren(q[o]) == n.children[..j + 1] + n.children[j + 2..n.numKeys + 1]
             && (forall z :: z in p && z != o && z != x ==> q[z] == p[z])
             && x in p && y in p && q[x].isLeaf == p[x].isLeaf
             && (!p[x].isLeaf ==> LiveChildren(q[x]) == LiveChildren(p[x]) + LiveChildren(p[y]))
             && LiveKeys(q[x]) == LiveKeys(p[x]) + [n.keys[j]] + LiveKeys(p[y])
    ensures PageWalk(q, height, o) == PageWalk(p, height, o)
    ensures Unshared(q, height, o) && Reach(q, height, o) <= Reach(p, height, o)
  {
    var n := p[o];
    var h := height[o];
    var x, y := n.children[j], n.children[j + 1];
    var a, b := LiveChildren(n)[..j], LiveChildren(n)[j + 2..];
    Window(LiveChildren(n), j);
    MergedList(n, j);
    ParentParts(p, height, o, a, [x, y], b);
    assert height[x] == h - 1 && height[y] == h - 1 by { assert [x, y][0] == x && [x, y][1] == y; }
    ForestTwo(p, height, x, y);
    assert Unshared(p, height, x) && Unshared(p, height, y) && Reach(p, height, x) !! Reach(p, height, y);
    assert forall z :: z in p && height[z] < height[x] ==> z != o && z != x;
    MergedPair(p, q, height, x, y);
    assert x in ReachAll(p, height, [x, y]);
    Reassemble(p, q, height, o, a, [x, y], [x], b);
    MergeWalk(p, q, height, o, j, a, b);
  }

  /** The child list of a parent that dropped children[j + 1]. */
  lemma MergedList(n: Node, j: int)
    requires WellFormed(n) && !n.isLeaf && 0 <= j < n.numKeys
    ensures n.children[..j + 1] + n.children[j + 2..n.numKeys + 1]
         == LiveChildren(n)[..j] + [n.children[j]] + LiveChildren(n)[j + 2..]
    ensures n.keys[..j] + n.keys[j + 1..n.numKeys] == LiveKeys(n)[..j] + LiveKeys(n)[j + 1..]
  {
    assert n.children[..j + 1] == LiveChildren(n)[..j] + [n.children[j]];
  }

  /** The walk half of MergeKeeps. */
  lemma MergeWalk(p: map<int, Node>, q: map<int, Node>, height: map<int, nat>, o: int, j: int, a: seq<int>, b: seq<int>)
    requires ArenaValid(p, height) && ArenaValid(q, height) && o in p && !p[o].isLeaf && 0 <= j < p[o].numKeys
    requires var n := p[o]; var x, y := n.children[j], n.children[j + 1];
             && LiveChildren(n) == a + [x, y] + b && |a| == j
             && !q[o].isLeaf && LiveChildren(q[o]) == a + [x] + b
             && LiveKeys(q[o]) == LiveKeys(n)[..j] + LiveKeys(n)[j + 1..]
             && AllIn(p, a) && AllIn(p, b) && AllIn(p, [x, y]) && AllIn(q, [x])
             && height[x] == height[o] - 1 && height[y] == height[o] - 1
             && (forall z :: z in p && height[z] < height[x] ==> q[z] == p[z])
             && q[x].isLeaf == p[x].isLeaf == p[y].isLeaf
             && (!p[x].isLeaf ==> LiveChildren(q[x]) == LiveChildren(p[x]) + LiveChildren(p[y]))
             && LiveKeys(q[x]) == LiveKeys(p[x]) + [n.keys[j]] + LiveKeys(p[y])
    requires KidWalks(p, height, a + [p[o].children[j], p[o].children[j + 1]] + b)
             == KidWalks(p, height, a) + KidWalks(p, height, [p[o].children[j], p[o].children[j + 1]]) + KidWalks(p, height, b)
    requires KidWalks(q, height, a + [p[o].children[j]] + b)
             == KidWalks(p, height, a) + KidWalks(q, height, [p[o].children[j]]) + KidWalks(p, height, b)
    ensures PageWalk(q, height, o) == PageWalk(p, height, o)
  {
    var n := p[o];
    var h := height[o];
    var x, y := n.children[j], n.children[j + 1];
    var K := LiveKeys(n);
    assert K == K[..j] + [n.keys[j]] + K[j + 1..];
    WalkKids(p, height, n, h);
    WalkKids(q, height, q[o], h);
    assert KidWalks(p, height, [x, y]) == [PageWalk(p, height, x), PageWalk(p, height, y)];
    assert KidWalks(q, height, [x]) == [PageWalk(q, height, x)];
    MergedWalk(p, q, height, x, y, n.keys[j]);
    WeavePair(KidWalks(p, height, a), PageWalk(p, height, x), PageWalk(p, height, y), KidWalks(p, height, b), K[..j], n.keys[j], K[j + 1..]);
    WeaveMid(KidWalks(p, height, a), PageWalk(q, height, x), KidWalks(p, height, b), K[..j], K[j + 1..]);
  }

  /** What the walk of the page at `o` holds before the walk of its child `i`. */
  ghost function WalkBefore(pages: map<int, Node>, height: map<int, nat>, o: int, i: int): seq<Key>
    requires ArenaValid(pages, height) && o in pages && !pages[o].isLeaf && 0 <= i <= pages[o].numKeys
  {
    var n := pages[o];
    ReachKids(pages, height, o);
    assert AllIn(pages, LiveChildren(n)[..i]);
    Before(KidWalks(pages, height, LiveChildren(n)[..i]), LiveKeys(n)[..i])
  }

  /** What the walk of the page at `o` holds after the walk of its child `i`. */
  ghost function WalkAfter(pages: map<int, Node>, height: map<int, nat>, o: int, i: int): seq<Key>
    requires ArenaValid(pages, height) && o in pages && !pages[o].isLeaf && 0 <= i <= pages[o].numKeys
  {
    var n := pages[o];
    ReachKids(pages, height, o);
    assert AllIn(pages, LiveChildren(n)[i + 1..]);
    After(KidWalks(pages, height, LiveChildren(n)[i + 1..]), LiveKeys(n)[i..])
  }

  lemma {:induction false} BeforeLast(ws: seq<seq<Key>>, keys: seq<Key>)
    requires |ws| == |keys| && keys != []
    ensures |Before(ws, keys)| > 0 && Before(ws, keys)[|Before(ws, keys)| - 1] == keys[|keys| - 1]
    decreases |ws|
  {
    if |ws| > 1 {
      BeforeLast(ws[1..], keys[1..]);
    }
  }

  /** A list cut around the element at `i`. */
  lemma Around<T>(s: seq<T>, i: int)
    requires 0 <= i < |s|
    ensures s == s[..i] + [s[i]] + s[i + 1..]
  {
  }

  lemma KidWalksMid(pages: map<int, Node>, height: map<int, nat>, a: seq<int>, c: int, b: seq<int>)
    requires ArenaValid(pages, height) && AllIn(pages, a + [c] + b)
    ensures AllIn(pages, a) && AllIn(pages, b) && c in pages
    ensures KidWalks(pages, height, a + [c] + b) == KidWalks(pages, height, a) + [PageWalk(pages, height, c)] + KidWalks(pages, height, b)
  {
    var s := a + [c] + b;
    assert AllIn(pages, a) by {
      forall j | 0 <= j < |a| ensures a[j] in pages { assert a[j] == s[j]; }
    }
    assert AllIn(pages, b) by {
      forall j | 0 <= j < |b| ensures b[j] in pages { assert b[j] == s[|a| + 1 + j]; }
    }
    assert c == s[|a|];
    var w, r := KidWalks(pages, height, s), KidWalks(pages, height, a) + [PageWalk(pages, height, c)] + KidWalks(pages, height, b);
    forall j | 0 <= j < |s|
      ensures w[j] == r[j]
    {
      if j < |a| {
        assert s[j] == a[j];
      } else if j > |a| {
        assert s[j] == b[j - |a| - 1];
      }
    }
  }

  /**
   * The walk of an internal page is what comes before child `i`, the walk
   * of child `i`, and what comes after it; the key before child `i` ends
   * the first part and the key after it starts the last.
   */
  lemma ChildSplit(pages: map<int, Node>, height: map<int, nat>, o: int, i: int)
    requires ArenaValid(pages, height) && o in pages && !pages[o].isLeaf && 0 <= i <= pages[o].numKeys
    ensures pages[o].children[i] in pages
    ensures PageWalk(pages, height, o)
         == WalkBefore(pages, height, o, i) + PageWalk(pages, height, pages[o].children[i]) + WalkAfter(pages, height, o, i)
    ensures var wb := WalkBefore(pages, height, o, i);
            0 < i ==> |wb| > 0 && wb[|wb| - 1] == pages[o].keys[i - 1]
    ensures var wa := WalkAfter(pages, height, o, i);
            i < pages[o].numKeys ==> |wa| > 0 && wa[0] == pages[o].keys[i]
  {
    var n := pages[o];
    var c := n.children[i];
    var a, b := LiveChildren(n)[..i], LiveChildren(n)[i + 1..];
    ReachKids(pages, height, o);
    Around(LiveChildren(n), i);
    WalkKids(pages, height, n, height[o]);
    var K := LiveKeys(n);
    assert K == K[..i] + K[i..];
    KidWalksMid(pages, height, a, c, b);
    WeaveMid(KidWalks(pages, height, a), PageWalk(pages, height, c), KidWalks(pages, height, b), K[..i], K[i..]);
    if 0 < i {
      BeforeLast(KidWalks(pages, height, a), K[..i]);
    }
  }

  /**
   * A child of a page without shared pages shares none either, lies in the
   * page's subtree without the page itself, and has no empty leaf when the
   * page has none.
   */
  lemma ChildOf(pages: map<int, Node>, height: map<int, nat>, o: int, i: int)
    requires ArenaValid(pages, height) && o in pages && !pages[o].isLeaf && 0 <= i <= pages[o].numKeys
    ensures var c := pages[o].children[i];
            && c in pages && Reach(pages, height, c) <= Reach(pages, height, o) && o !in Reach(pages, height, c)
            && height[c] == height[o] - 1
            && (Unshared(pages, height, o) ==> Unshared(pages, height, c))
            && (NoEmptyLeaf(pages, height, o) ==> NoEmptyLeaf(pages, height, c))
  {
    var n := pages[o];
    var c := n.children[i];
    ChildReach(pages, height, o, i);
    var a, b := LiveChildren(n)[..i], LiveChildren(n)[i + 1..];
    Around(LiveChildren(n), i);
    ParentParts(pages, height, o, a, [c], b);
    ForestOne(pages, height, c);
  }

  /**
   * Child `i` of a page without shared pages is rewritten inside its own
   * subtree, which stays free of sharing and loses pages at most. The page
   * still shares no page, and its walk around the child's is unchanged.
   */
  lemma ChildSwap(p: map<int, Node>, q: map<int, Node>, height: map<int, nat>, o: int, i: int)
    requires ArenaValid(p, height) && ArenaValid(q, height) && o in p && !p[o].isLeaf && 0 <= i <= p[o].numKeys
    requires Unshared(p, height, o) && q[o] == p[o]
    requires var c := p[o].children[i];
             && c in p
             && (forall x :: x in p && x != o && x !in Reach(p, height, c) ==> q[x] == p[x])
             && Unshared(q, height, c) && Reach(q, height, c) <= Reach(p, height, c)
    ensures Unshared(q, height, o) && Reach(q, height, o) <= Reach(p, height, o)
    ensures WalkBefore(q, height, o, i) == WalkBefore(p, height, o, i) && WalkAfter(q, height, o, i) == WalkAfter(p, height, o, i)
  {
    var n := p[o];
    var c := n.children[i];
    var a, b := LiveChildren(n)[..i], LiveChildren(n)[i + 1..];
    Around(LiveChildren(n), i);
    ForestOne(p, height, c);
    ForestOne(q, height, c);
    Reassemble(p, q, height, o, a, [c], [c], b);
  }

  /** A slice of an ascending sequence is ascending. */
  lemma AscendingMiddle(a: seq<Key>, w: seq<Key>, b: seq<Key>)
    requires Ascending(a + w + b)
    ensures Ascending(w)
  {
    forall j | 0 < j < |w|
      ensures CompareKeys(w[j - 1], w[j]) <= 0
    {
      assert w[j - 1] == (a + w + b)[|a| + j - 1] && w[j] == (a + w + b)[|a| + j];
    }
  }

  /**
   * In an ascending walk split around a child's walk, a key that compares
   * above the last key before the child and below the first key after it
   * can only occur in the child's part.
   */
  lemma {:induction false} OnlyInMiddle(a: seq<Key>, w: seq<Key>, b: seq<Key>, key: Key)
    requires Ascending(a + w + b)
    requires a != [] ==> CompareKeys(a[|a| - 1], key) < 0
    requires b != [] ==> CompareKeys(key, b[0]) < 0
    ensures Tag(key) in Tags(a + w + b) <==> Tag(key) in Tags(w)
  {
    var s := a + w + b;
    TagsHas(s, key);
    TagsHas(w, key);
    if j :| 0 <= j < |s| && CompareKeys(s[j], key) == 0 {
      if j < |a| {
        AscendingPair(s, j, |a| - 1);
        CompareKeysTrans(s[j], s[|a| - 1], key);
        assert false;
      } else if j >= |a| + |w| {
        AscendingPair(s, |a| + |w|, j);
        CompareKeysTrans(key, s[|a| + |w|], s[j]);
        CompareKeysFlip(s[j], key);
        assert false;
      } else {
        assert w[j - |a|] == s[j];
      }
    }
    if j :| 0 <= j < |w| && CompareKeys(w[j], key) == 0 {
      assert s[|a| + j] == w[j];
    }
  }

  /**
   * Slot `i` of page copy `n` is where btree_delete_recursive goes on with
   * `key` when the page does not hold it: every key before the slot
   * compares below `key`, every key from the slot on compares above it.
   */
  ghost predicate Separates(n: Node, i: int, key: Key)
    requires WellFormed(n)
  {
    && 0 <= i <= n.numKeys
    && (forall j :: 0 <= j < i ==> CompareKeys(n.keys[j], key) < 0)
    && (forall j :: i <= j < n.numKeys ==> CompareKeys(key, n.keys[j]) < 0)
  }

  /** Every live key of a page occurs in its walk. */
  /** The tag of every key stored in the page at `x` is among the tags of its walk. */
  lemma KeyTagInWalk(pages: map<int, Node>, height: map<int, nat>, x: int, j: int)
    requires ArenaValid(pages, height) && x in pages && 0 <= j < pages[x].numKeys
    ensures Tag(pages[x].keys[j]) in Tags(PageWalk(pages, height, x))
  {
    KeyInWalk(pages, height, x, j);
    var m :| 0 <= m < |PageWalk(pages, height, x)| && PageWalk(pages, height, x)[m] == pages[x].keys[j];
    TagOf(PageWalk(pages, height, x), m);
  }

  lemma KeyInWalk(pages: map<int, Node>, height: map<int, nat>, x: int, j: int)
    requires ArenaValid(pages, height) && x in pages && 0 <= j < pages[x].numKeys
    ensures exists m :: 0 <= m < |PageWalk(pages, height, x)| && PageWalk(pages, height, x)[m] == pages[x].keys[j]
  {
    ReachKids(pages, height, x);
    if pages[x].isLeaf {
      assert PageWalk(pages, height, x)[j] == pages[x].keys[j];
    } else {
      ChildSplit(pages, height, x, j + 1);
      var wb := WalkBefore(pages, height, x, j + 1);
      assert PageWalk(pages, height, x)[|wb| - 1] == pages[x].keys[j];
    }
  }

  /** In an ascending walk, the walk of child `i` lies between the keys around slot `i`. */
  lemma ChildBetween(pages: map<int, Node>, height: map<int, nat>, o: int, i: int, m: int)
    requires ArenaValid(pages, height) && o in pages && !pages[o].isLeaf && 0 <= i <= pages[o].numKeys
    requires Ascending(PageWalk(pages, height, o))
    requires pages[o].children[i] in pages && 0 <= m < |PageWalk(pages, height, pages[o].children[i])|
    ensures var k := PageWalk(pages, height, pages[o].children[i])[m];
            && (0 < i ==> CompareKeys(pages[o].keys[i - 1], k) <= 0)
            && (i < pages[o].numKeys ==> CompareKeys(k, pages[o].keys[i]) <= 0)
  {
    ChildSplit(pages, height, o, i);
    var wb, w, wa := WalkBefore(pages, height, o, i), PageWalk(pages, height, pages[o].children[i]), WalkAfter(pages, height, o, i);
    var s := PageWalk(pages, height, o);
    assert s[|wb| + m] == w[m];
    if 0 < i {
      assert s[|wb| - 1] == pages[o].keys[i - 1];
      AscendingPair(s, |wb| - 1, |wb| + m);
    }
    if i < pages[o].numKeys {
      assert s[|wb| + |w|] == pages[o].keys[i];
      AscendingPair(s, |wb| + m, |wb| + |w|);
    }
  }

  /** SeparatesBorrowPrev for every key at once. */
  lemma SeparatesBorrowPrevAll(pages: map<int, Node>, height: map<int, nat>, o: int, idx: int, pn: Node)
    requires ArenaValid(pages, height) && o in pages && !pages[o].isLeaf && 1 <= idx <= pages[o].numKeys
    requires pages[o].children[idx - 1] in pages && pages[pages[o].children[idx - 1]].numKeys >= 1
    requires WellFormed(pages[pages[o].children[idx - 1]])
    requires var n := pages[o]; var left := pages[n.children[idx - 1]];
             pn == n.(keys := n.keys[idx - 1 := left.keys[left.numKeys - 1]])
    ensures forall key :: Ascending(PageWalk(pages, height, o)) && Separates(pages[o], idx, key) ==> Separates(pn, idx, key)
  {
    forall key | Ascending(PageWalk(pages, height, o)) && Separates(pages[o], idx, key)
      ensures var n := pages[o]; var left := pages[n.children[idx - 1]];
              Separates(n.(keys := n.keys[idx - 1 := left.keys[left.numKeys - 1]]), idx, key)
    {
      SeparatesBorrowPrev(pages, height, o, idx, key);
    }
  }

  /**
   * btree_borrow_from_prev raises the left sibling's last key into slot
   * idx - 1; in an ascending walk that key is not above the separator it
   * replaces, so the slot still separates.
   */
  lemma SeparatesBorrowPrev(pages: map<int, Node>, height: map<int, nat>, o: int, idx: int, key: Key)
    requires ArenaValid(pages, height) && o in pages && !pages[o].isLeaf && 1 <= idx <= pages[o].numKeys
    requires Ascending(PageWalk(pages, height, o)) && Separates(pages[o], idx, key)
    requires pages[o].children[idx - 1] in pages && pages[pages[o].children[idx - 1]].numKeys >= 1
    requires WellFormed(pages[pages[o].children[idx - 1]])
    ensures var n := pages[o]; var left := pages[n.children[idx - 1]];
            Separates(n.(keys := n.keys[idx - 1 := left.keys[left.numKeys - 1]]), idx, key)
  {
    var n := pages[o];
    var left := pages[n.children[idx - 1]];
    KeyInWalk(pages, height, n.children[idx - 1], left.numKeys - 1);
    var m :| 0 <= m < |PageWalk(pages, height, n.children[idx - 1])| && PageWalk(pages, height, n.children[idx - 1])[m] == left.keys[left.numKeys - 1];
    ChildBetween(pages, height, o, idx - 1, m);
    CompareKeysTrans(left.keys[left.numKeys - 1], n.keys[idx - 1], key);
  }

  /** SeparatesBorrowNext for every key at once. */
  lemma SeparatesBorrowNextAll(pages: map<int, Node>, height: map<int, nat>, o: int, idx: int, pn: Node)
    requires ArenaValid(pages, height) && o in pages && !pages[o].isLeaf && 0 <= idx < pages[o].numKeys
    requires pages[o].children[idx + 1] in pages && pages[pages[o].children[idx + 1]].numKeys >= 1
    requires WellFormed(pages[pages[o].children[idx + 1]])
    requires var n := pages[o]; var right := pages[n.children[idx + 1]];
             pn == n.(keys := n.keys[idx := right.keys[0]])
    ensures forall key :: Ascending(PageWalk(pages, height, o)) && Separates(pages[o], idx, key) ==> Separates(pn, idx, key)
  {
    forall key | Ascending(PageWalk(pages, height, o)) && Separates(pages[o], idx, key)
      ensures var n := pages[o]; var right := pages[n.children[idx + 1]];
              Separates(n.(keys := n.keys[idx := right.keys[0]]), idx, key)
    {
      SeparatesBorrowNext(pages, height, o, idx, key);
    }
  }

  /**
   * btree_borrow_from_next raises the right sibling's first key into slot
   * idx; in an ascending walk that key is not below the separator it
   * replaces, so the slot still separates.
   */
  lemma SeparatesBorrowNext(pages: map<int, Node>, height: map<int, nat>, o: int, idx: int, key: Key)
    requires ArenaValid(pages, height) && o in pages && !pages[o].isLeaf && 0 <= idx < pages[o].numKeys
    requires Ascending(PageWalk(pages, height, o)) && Separates(pages[o], idx, key)
    requires pages[o].children[idx + 1] in pages && pages[pages[o].children[idx + 1]].numKeys >= 1
    requires WellFormed(pages[pages[o].children[idx + 1]])
    ensures var n := pages[o]; var right := pages[n.children[idx + 1]];
            Separates(n.(keys := n.keys[idx := right.keys[0]]), idx, key)
  {
    var n := pages[o];
    var right := pages[n.children[idx + 1]];
    KeyInWalk(pages, height, n.children[idx + 1], 0);
    var m :| 0 <= m < |PageWalk(pages, height, n.children[idx + 1])| && PageWalk(pages, height, n.children[idx + 1])[m] == right.keys[0];
    ChildBetween(pages, height, o, idx + 1, m);
    CompareKeysTrans(key, n.keys[idx], right.keys[0]);
  }

  /**
   * btree_merge drops separator j: a slot that separated at j, or at j + 1,
   * separates at j afterwards.
   */
  lemma SeparatesMerge(n: Node, n': Node, j: int, key: Key)
    requires WellFormed(n) && WellFormed(n') && 0 <= j < n.numKeys && n'.numKeys == n.numKeys - 1
    requires LiveKeys(n') == n.keys[..j] + n.keys[j + 1..n.numKeys]
    requires Separates(n, j, key) || Separates(n, j + 1, key)
    ensures Separates(n', j, key)
  {
    forall i | 0 <= i < j
      ensures CompareKeys(n'.keys[i], key) < 0
    {
      assert n'.keys[i] == LiveKeys(n')[i] == n.keys[i];
    }
    forall i | j <= i < n'.numKeys
      ensures CompareKeys(key, n'.keys[i]) < 0
    {
      assert n'.keys[i] == LiveKeys(n')[i] == n.keys[i + 1];
    }
  }

  /** SeparatesMerge for every key at once. */
  lemma SeparatesMergeAll(n: Node, n': Node, j: int)
    requires WellFormed(n) && WellFormed(n') && 0 <= j < n.numKeys && n'.numKeys == n.numKeys - 1
    requires LiveKeys(n') == n.keys[..j] + n.keys[j + 1..n.numKeys]
    ensures forall key :: Separates(n, j, key) || Separates(n, j + 1, key) ==> Separates(n', j, key)
  {
    forall key | Separates(n, j, key) || Separates(n, j + 1, key)
      ensures Separates(n', j, key)
    {
      SeparatesMerge(n, n', j, key);
    }
  }

  /**
   * A page whose proper subtree is made of pages below it that are
   * unchanged from a subtree without empty leaves, and which holds keys
   * itself, has no empty leaf under it.
   */
  lemma FilledNoEmpty(p: map<int, Node>, q: map<int, Node>, height: map<int, nat>, o: int, x: int)
    requires ArenaValid(p, height) && ArenaValid(q, height) && o in p && x in q
    requires NoEmptyLeaf(p, height, o) && q[x].numKeys > 0 && Reach(q, height, x) <= Reach(p, height, o)
    requires forall z :: z in p && height[z] < height[x] ==> q[z] == p[z]
    ensures NoEmptyLeaf(q, height, x)
  {
    ReachKids(q, height, x);
    if !q[x].isLeaf {
      ReachAllLevel(q, height, LiveChildren(q[x]), height[x] - 1);
      forall z | z in Reach(q, height, x) && q[z].isLeaf
        ensures q[z].numKeys > 0
      {
        if z != x {
          assert z in ReachAll(q, height, LiveChildren(q[x]));
          assert q[z] == p[z];
        }
      }
    }
  }

  /** Children j and j + 1 of a page without shared pages are distinct and share no page. */
  lemma SiblingsApart(pages: map<int, Node>, height: map<int, nat>, o: int, j: int)
    requires ArenaValid(pages, height) && o in pages && !pages[o].isLeaf && 0 <= j < pages[o].numKeys
    requires Unshared(pages, height, o)
    ensures var x, y := pages[o].children[j], pages[o].children[j + 1];
            x in pages && y in pages && x != y && Reach(pages, height, x) !! Reach(pages, height, y)
  {
    var n := pages[o];
    var x, y := n.children[j], n.children[j + 1];
    Window(LiveChildren(n), j);
    ParentParts(pages, height, o, LiveChildren(n)[..j], [x, y], LiveChildren(n)[j + 2..]);
    ForestTwo(pages, height, x, y);
    assert x in Reach(pages, height, x);
  }

  /**
   * Child `i` of the page at `o` in `q` holds keys, the page reaches no page
   * it did not reach in `p`, and every page below the child is as in `p`:
   * when `p` had no empty leaf under `o`, `q` has none under the child.
   */
  lemma ChildNoEmpty(p: map<int, Node>, q: map<int, Node>, height: map<int, nat>, o: int, i: int)
    requires ArenaValid(p, height) && ArenaValid(q, height) && o in p && !q[o].isLeaf && 0 <= i <= q[o].numKeys
    requires NoEmptyLeaf(p, height, o) && Reach(q, height, o) <= Reach(p, height, o)
    requires forall z :: z in p && height[z] < height[o] - 1 ==> q[z] == p[z]
    requires q[o].children[i] in q && q[q[o].children[i]].numKeys > 0
    ensures NoEmptyLeaf(q, height, q[o].children[i])
  {
    ChildOf(q, height, o, i);
    FilledNoEmpty(p, q, height, o, q[o].children[i]);
  }

  /** Children j and j + 1 of a page are pages of the same kind. */
  lemma SiblingsLevel(pages: map<int, Node>, height: map<int, nat>, o: int, j: int)
    requires ArenaValid(pages, height) && o in pages && !pages[o].isLeaf && 0 <= j < pages[o].numKeys
    ensures var x, y := pages[o].children[j], pages[o].children[j + 1];
            x in pages && y in pages && WellFormed(pages[x]) && WellFormed(pages[y]) && pages[x].isLeaf == pages[y].isLeaf
  {
    var n := pages[o];
    assert ChildPage(pages, height, n, height[o], j) == pages[n.children[j]];
    assert ChildPage(pages, height, n, height[o], j + 1) == pages[n.children[j + 1]];
  }

  /** Three distinct pages written in one go. */
  lemma ThreeWrites(p: map<int, Node>, q: map<int, Node>, o: int, x: int, y: int, a: Node, b: Node, c: Node)
    requires o != x && o != y && x != y && q == p[o := a][y := c][x := b]
    ensures q[o] == a && q[x] == b && q[y] == c
    ensures forall z :: z in p && z != o && z != x && z != y ==> q[z] == p[z]
  {
  }

  /** The children a borrow from the left sibling moves between two siblings. */
  lemma BorrowPrevChildren(left: Node, child: Node, ln: Node, cn: Node)
    requires WellFormed(left) && WellFormed(child) && WellFormed(ln) && WellFormed(cn) && left.numKeys >= 1
    requires ln == left.(numKeys := left.numKeys - 1)
    requires !child.isLeaf ==> LiveChildren(cn) == [left.children[left.numKeys]] + LiveChildren(child)
    requires left.isLeaf == child.isLeaf
    ensures ln.isLeaf == left.isLeaf
    ensures !left.isLeaf ==> LiveChildren(left) + LiveChildren(child) == LiveChildren(ln) + LiveChildren(cn)
  {
    assert left.children[..left.numKeys + 1] == left.children[..left.numKeys] + [left.children[left.numKeys]];
  }

  /** The children a borrow from the right sibling moves between two siblings. */
  lemma BorrowNextChildren(child: Node, right: Node, cn: Node, rn: Node)
    requires WellFormed(child) && WellFormed(right) && WellFormed(cn) && WellFormed(rn)
    requires !child.isLeaf ==> LiveChildren(cn) == LiveChildren(child) + [right.children[0]]
    requires !right.isLeaf ==> LiveChildren(rn) == right.children[1..right.numKeys + 1]
    requires child.isLeaf == right.isLeaf
    ensures !child.isLeaf ==> LiveChildren(child) + LiveChildren(right) == LiveChildren(cn) + LiveChildren(rn)
  {
    assert right.children[..right.numKeys + 1] == [right.children[0]] + right.children[1..right.numKeys + 1];
  }

  /**
   * btree_borrow_from_prev on the whole arena: `p` becomes `q` by the page
   * copies `pn`, `cn`, `ln` that BorrowFromPrevNodes computes. On a parent
   * without shared pages the walk is unchanged, no sharing appears, no page
   * is added to the subtree, and the child that was filled has no empty
   * leaf when the parent had none. In an ascending walk the child's slot
   * still separates every key it separated.
   */
  lemma BorrowPrevKeeps(p: map<int, Node>, q: map<int, Node>, height: map<int, nat>, o: int, idx: int,
                        pn: Node, cn: Node, ln: Node)
    requires ArenaValid(p, height) && ArenaValid(q, height) && o in p && !p[o].isLeaf && 1 <= idx <= p[o].numKeys
    requires var n := p[o]; var lo, co := n.children[idx - 1], n.children[idx];
             && lo in p && co in p && WellFormed(p[lo]) && WellFormed(p[co]) && p[lo].numKeys >= 1
             && q == p[o := pn][co := cn][lo := ln]
             && pn == n.(keys := n.keys[idx - 1 := p[lo].keys[p[lo].numKeys - 1]])
             && ln == p[lo].(numKeys := p[lo].numKeys - 1)
             && WellFormed(cn) && cn.isLeaf == p[co].isLeaf && cn.numKeys == p[co].numKeys + 1
             && (!p[co].isLeaf ==> LiveChildren(cn) == [p[lo].children[p[lo].numKeys]] + LiveChildren(p[co]))
             && LiveKeys(ln) + [pn.keys[idx - 1]] + LiveKeys(cn) == LiveKeys(p[lo]) + [n.keys[idx - 1]] + LiveKeys(p[co])
    ensures Unshared(p, height, o) ==>
              && PageWalk(q, height, o) == PageWalk(p, height, o)
              && Unshared(q, height, o) && Reach(q, height, o) <= Reach(p, height, o)
    ensures Unshared(p, height, o) && NoEmptyLeaf(p, height, o) ==> NoEmptyLeaf(q, height, p[o].children[idx])
    ensures forall key :: Ascending(PageWalk(p, height, o)) && Separates(p[o], idx, key) ==> Separates(pn, idx, key)
  {
    if Unshared(p, height, o) {
      BorrowPrevUnshared(p, q, height, o, idx, pn, cn, ln);
    }
    SeparatesBorrowPrevAll(p, height, o, idx, pn);
  }

  /** The part of BorrowPrevKeeps about a parent without shared pages. */
  lemma BorrowPrevUnshared(p: map<int, Node>, q: map<int, Node>, height: map<int, nat>, o: int, idx: int,
                            pn: Node, cn: Node, ln: Node)
    requires ArenaValid(p, height) && ArenaValid(q, height) && o in p && !p[o].isLeaf && Unshared(p, height, o) && 1 <= idx <= p[o].numKeys
    requires var n := p[o]; var lo, co := n.children[idx - 1], n.children[idx];
             && lo in p && co in p && WellFormed(p[lo]) && WellFormed(p[co]) && p[lo].numKeys >= 1
             && q == p[o := pn][co := cn][lo := ln]
             && pn == n.(keys := n.keys[idx - 1 := p[lo].keys[p[lo].numKeys - 1]])
             && ln == p[lo].(numKeys := p[lo].numKeys - 1)
             && WellFormed(cn) && cn.isLeaf == p[co].isLeaf && cn.numKeys == p[co].numKeys + 1
             && (!p[co].isLeaf ==> LiveChildren(cn) == [p[lo].children[p[lo].numKeys]] + LiveChildren(p[co]))
             && LiveKeys(ln) + [pn.keys[idx - 1]] + LiveKeys(cn) == LiveKeys(p[lo]) + [n.keys[idx - 1]] + LiveKeys(p[co])
    ensures PageWalk(q, height, o) == PageWalk(p, height, o)
    ensures Unshared(q, height, o) && Reach(q, height, o) <= Reach(p, height, o)
    ensures NoEmptyLeaf(p, height, o) ==> NoEmptyLeaf(q, height, p[o].children[idx])
  {
    var n := p[o];
    var lo, co := n.children[idx - 1], n.children[idx];
    SiblingsApart(p, height, o, idx - 1);
    ThreeWrites(p, q, o, lo, co, pn, ln, cn);
    BorrowPrevShared(p, q, height, o, idx, pn, cn, ln);
    if NoEmptyLeaf(p, height, o) {
      ChildOf(p, height, o, idx - 1);
      ChildOf(p, height, o, idx);
      assert forall z :: z in p && height[z] < height[o] - 1 ==> z != o && z != lo && z != co;
      ChildNoEmpty(p, q, height, o, idx);
    }
  }

  /** The walk and sharing half of BorrowPrevUnshared, given the three rewritten pages. */
  lemma BorrowPrevShared(p: map<int, Node>, q: map<int, Node>, height: map<int, nat>, o: int, idx: int,
                        pn: Node, cn: Node, ln: Node)
    requires ArenaValid(p, height) && ArenaValid(q, height) && o in p && !p[o].isLeaf && Unshared(p, height, o) && 1 <= idx <= p[o].numKeys
    requires var n := p[o]; var lo, co := n.children[idx - 1], n.children[idx];
             && lo in p && co in p && WellFormed(p[lo]) && WellFormed(p[co]) && p[lo].numKeys >= 1
             && q[o] == pn && q[lo] == ln && q[co] == cn
             && (forall z :: z in p && z != o && z != lo && z != co ==> q[z] == p[z])
             && pn == n.(keys := n.keys[idx - 1 := p[lo].keys[p[lo].numKeys - 1]])
             && ln == p[lo].(numKeys := p[lo].numKeys - 1)
             && WellFormed(cn) && cn.isLeaf == p[co].isLeaf && cn.numKeys == p[co].numKeys + 1
             && (!p[co].isLeaf ==> LiveChildren(cn) == [p[lo].children[p[lo].numKeys]] + LiveChildren(p[co]))
             && LiveKeys(ln) + [pn.keys[idx - 1]] + LiveKeys(cn) == LiveKeys(p[lo]) + [n.keys[idx - 1]] + LiveKeys(p[co])
    ensures PageWalk(q, height, o) == PageWalk(p, height, o)
    ensures Unshared(q, height, o) && Reach(q, height, o) <= Reach(p, height, o)
  {
    var n := p[o];
    var lo, co := n.children[idx - 1], n.children[idx];
    SiblingsLevel(p, height, o, idx - 1);
    BorrowPrevChildren(p[lo], p[co], ln, cn);
    PairKeeps(p, q, height, o, idx - 1, pn.keys[idx - 1]);
  }


  /** btree_borrow_from_next on the whole arena, as BorrowPrevKeeps. */
  lemma BorrowNextKeeps(p: map<int, Node>, q: map<int, Node>, height: map<int, nat>, o: int, idx: int,
                        pn: Node, cn: Node, rn: Node)
    requires ArenaValid(p, height) && ArenaValid(q, height) && o in p && !p[o].isLeaf && 0 <= idx < p[o].numKeys
    requires var n := p[o]; var co, ro := n.children[idx], n.children[idx + 1];
             && co in p && ro in p && WellFormed(p[co]) && WellFormed(p[ro]) && p[ro].numKeys >= 1
             && q == p[o := pn][co := cn][ro := rn]
             && pn == n.(keys := n.keys[idx := p[ro].keys[0]])
             && WellFormed(cn) && cn.isLeaf == p[co].isLeaf && cn.numKeys == p[co].numKeys + 1
             && (!p[co].isLeaf ==> LiveChildren(cn) == LiveChildren(p[co]) + [p[ro].children[0]])
             && WellFormed(rn) && rn.isLeaf == p[ro].isLeaf
             && (!p[ro].isLeaf ==> LiveChildren(rn) == p[ro].children[1..p[ro].numKeys + 1])
             && LiveKeys(cn) + [pn.keys[idx]] + LiveKeys(rn) == LiveKeys(p[co]) + [n.keys[idx]] + LiveKeys(p[ro])
    ensures Unshared(p, height, o) ==>
              && PageWalk(q, height, o) == PageWalk(p, height, o)
              && Unshared(q, height, o) && Reach(q, height, o) <= Reach(p, height, o)
    ensures Unshared(p, height, o) && NoEmptyLeaf(p, height, o) ==> NoEmptyLeaf(q, height, p[o].children[idx])
    ensures forall key :: Ascending(PageWalk(p, height, o)) && Separates(p[o], idx, key) ==> Separates(pn, idx, key)
  {
    if Unshared(p, height, o) {
      BorrowNextUnshared(p, q, height, o, idx, pn, cn, rn);
    }
    SeparatesBorrowNextAll(p, height, o, idx, pn);
  }

  /** The part of BorrowNextKeeps about a parent without shared pages. */
  lemma BorrowNextUnshared(p: map<int, Node>, q: map<int, Node>, height: map<int, nat>, o: int, idx: int,
                            pn: Node, cn: Node, rn: Node)
    requires ArenaValid(p, height) && ArenaValid(q, height) && o in p && !p[o].isLeaf && Unshared(p, height, o) && 0 <= idx < p[o].numKeys
    requires var n := p[o]; var co, ro := n.children[idx], n.children[idx + 1];
             && co in p && ro in p && WellFormed(p[co]) && WellFormed(p[ro]) && p[ro].numKeys >= 1
             && q == p[o := pn][co := cn][ro := rn]
             && pn == n.(keys := n.keys[idx := p[ro].keys[0]])
             && WellFormed(cn) && cn.isLeaf == p[co].isLeaf && cn.numKeys == p[co].numKeys + 1
             && (!p[co].isLeaf ==> LiveChildren(cn) == LiveChildren(p[co]) + [p[ro].children[0]])
             && WellFormed(rn) && rn.isLeaf == p[ro].isLeaf
             && (!p[ro].isLeaf ==> LiveChildren(rn) == p[ro].children[1..p[ro].numKeys + 1])
             && LiveKeys(cn) + [pn.keys[idx]] + LiveKeys(rn) == LiveKeys(p[co]) + [n.keys[idx]] + LiveKeys(p[ro])
    ensures PageWalk(q, height, o) == PageWalk(p, height, o)
    ensures Unshared(q, height, o) && Reach(q, height, o) <= Reach(p, height, o)
    ensures NoEmptyLeaf(p, height, o) ==> NoEmptyLeaf(q, height, p[o].children[idx])
  {
    var n := p[o];
    var co, ro := n.children[idx], n.children[idx + 1];
    SiblingsApart(p, height, o, idx);
    ThreeWrites(p, q, o, ro, co, pn, rn, cn);
    BorrowNextShared(p, q, height, o, idx, pn, cn, rn);
    if NoEmptyLeaf(p, height, o) {
      ChildOf(p, height, o, idx);
      ChildOf(p, height, o, idx + 1);
      assert forall z :: z in p && height[z] < height[o] - 1 ==> z != o && z != co && z != ro;
      ChildNoEmpty(p, q, height, o, idx);
    }
  }

  /** The walk and sharing half of BorrowNextUnshared, given the three rewritten pages. */
  lemma BorrowNextShared(p: map<int, Node>, q: map<int, Node>, height: map<int, nat>, o: int, idx: int,
                        pn: Node, cn: Node, rn: Node)
    requires ArenaValid(p, height) && ArenaValid(q, height) && o in p && !p[o].isLeaf && Unshared(p, height, o) && 0 <= idx < p[o].numKeys
    requires var n := p[o]; var co, ro := n.children[idx], n.children[idx + 1];
             && co in p && ro in p && WellFormed(p[co]) && WellFormed(p[ro]) && p[ro].numKeys >= 1
             && q[o] == pn && q[ro] == rn && q[co] == cn
             && (forall z :: z in p && z != o && z != ro && z != co ==> q[z] == p[z])
             && pn == n.(keys := n.keys[idx := p[ro].keys[0]])
             && WellFormed(cn) && cn.isLeaf == p[co].isLeaf && cn.numKeys == p[co].numKeys + 1
             && (!p[co].isLeaf ==> LiveChildren(cn) == LiveChildren(p[co]) + [p[ro].children[0]])
             && WellFormed(rn) && rn.isLeaf == p[ro].isLeaf
             && (!p[ro].isLeaf ==> LiveChildren(rn) == p[ro].children[1..p[ro].numKeys + 1])
             && LiveKeys(cn) + [pn.keys[idx]] + LiveKeys(rn) == LiveKeys(p[co]) + [n.keys[idx]] + LiveKeys(p[ro])
    ensures PageWalk(q, height, o) == PageWalk(p, height, o)
    ensures Unshared(q, height, o) && Reach(q, height, o) <= Reach(p, height, o)
  {
    var n := p[o];
    var co, ro := n.children[idx], n.children[idx + 1];
    SiblingsLevel(p, height, o, idx);
    BorrowNextChildren(p[co], p[ro], cn, rn);
    PairKeeps(p, q, height, o, idx, pn.keys[idx]);
  }


  /** btree_merge on the whole arena, as BorrowPrevKeeps; the merged child is child `j`. */
  lemma MergeArenaKeeps(p: map<int, Node>, q: map<int, Node>, height: map<int, nat>, o: int, j: int, pn: Node, cn: Node)
    requires ArenaValid(p, height) && ArenaValid(q, height) && o in p && !p[o].isLeaf && 0 <= j < p[o].numKeys
    requires var n := p[o]; var co, ro := n.children[j], n.children[j + 1];
             && co in p && ro in p && WellFormed(p[co]) && WellFormed(p[ro])
             && q == p[o := pn][co := cn]
             && WellFormed(pn) && !pn.isLeaf && pn.numKeys == n.numKeys - 1
             && LiveKeys(pn) == n.keys[..j] + n.keys[j + 1..n.numKeys]
             && LiveChildren(pn) == n.children[..j + 1] + n.children[j + 2..n.numKeys + 1]
             && WellFormed(cn) && cn.isLeaf == p[co].isLeaf && cn.numKeys == p[co].numKeys + p[ro].numKeys + 1
             && (!p[co].isLeaf ==> LiveChildren(cn) == LiveChildren(p[co]) + LiveChildren(p[ro]))
             && LiveKeys(cn) == LiveKeys(p[co]) + [n.keys[j]] + LiveKeys(p[ro])
    ensures Unshared(p, height, o) ==>
              && PageWalk(q, height, o) == PageWalk(p, height, o)
              && Unshared(q, height, o) && Reach(q, height, o) <= Reach(p, height, o)
    ensures Unshared(p, height, o) && NoEmptyLeaf(p, height, o) ==> NoEmptyLeaf(q, height, p[o].children[j])
    ensures pn.children[j] == p[o].children[j]
    ensures forall key :: Separates(p[o], j, key) || Separates(p[o], j + 1, key) ==> Separates(pn, j, key)
  {
    assert LiveChildren(pn)[j] == pn.children[j];
    if Unshared(p, height, o) {
      MergeUnshared(p, q, height, o, j, pn, cn);
    }
    SeparatesMergeAll(p[o], pn, j);
  }

  /** The part of MergeArenaKeeps about a parent without shared pages. */
  lemma MergeUnshared(p: map<int, Node>, q: map<int, Node>, height: map<int, nat>, o: int, j: int, pn: Node, cn: Node)
    requires ArenaValid(p, height) && ArenaValid(q, height) && o in p && !p[o].isLeaf && Unshared(p, height, o) && 0 <= j < p[o].numKeys
    requires var n := p[o]; var co, ro := n.children[j], n.children[j + 1];
             && co in p && ro in p && WellFormed(p[co]) && WellFormed(p[ro])
             && q == p[o := pn][co := cn]
             && WellFormed(pn) && !pn.isLeaf && pn.numKeys == n.numKeys - 1
             && LiveKeys(pn) == n.keys[..j] + n.keys[j + 1..n.numKeys]
             && LiveChildren(pn) == n.children[..j + 1] + n.children[j + 2..n.numKeys + 1]
             && WellFormed(cn) && cn.isLeaf == p[co].isLeaf && cn.numKeys == p[co].numKeys + p[ro].numKeys + 1
             && (!p[co].isLeaf ==> LiveChildren(cn) == LiveChildren(p[co]) + LiveChildren(p[ro]))
             && LiveKeys(cn) == LiveKeys(p[co]) + [n.keys[j]] + LiveKeys(p[ro])
    ensures PageWalk(q, height, o) == PageWalk(p, height, o)
    ensures Unshared(q, height, o) && Reach(q, height, o) <= Reach(p, height, o)
    ensures NoEmptyLeaf(p, height, o) ==> NoEmptyLeaf(q, height, p[o].children[j])
  {
    var n := p[o];
    var co := n.children[j];
    assert LiveChildren(pn)[j] == pn.children[j];
    ChildOf(p, height, o, j);
    ChildOf(p, height, o, j + 1);
    SiblingsApart(p, height, o, j);
    MergeKeeps(p, q, height, o, j);
    assert j <= pn.numKeys;
    ChildOf(q, height, o, j);
    if NoEmptyLeaf(p, height, o) {
      assert forall z :: z in p && height[z] < height[co] ==> z != o && z != co;
      assert Reach(q, height, co) <= Reach(p, height, o);
      FilledNoEmpty(p, q, height, o, co);
    }
  }

  // ---------------------------------------------------------------------
  // What deletion does to the walk
  // ---------------------------------------------------------------------

  /** A page whose walk is ascending holds its live keys in ascending order. */
  lemma KeysAscending(pages: map<int, Node>, height: map<int, nat>, o: int)
    requires ArenaValid(pages, height) && o in pages && Ascending(PageWalk(pages, height, o))
    ensures Ascending(LiveKeys(pages[o]))
  {
    var n := pages[o];
    ReachKids(pages, height, o);
    if !n.isLeaf {
      forall j | 0 < j < n.numKeys
        ensures CompareKeys(LiveKeys(n)[j - 1], LiveKeys(n)[j]) <= 0
      {
        AdjacentKeys(pages, height, o, j);
      }
    }
  }

  /** Keys j - 1 and j of an internal page sit in its walk around child j, in that order. */
  lemma AdjacentKeys(pages: map<int, Node>, height: map<int, nat>, o: int, j: int)
    requires ArenaValid(pages, height) && o in pages && Ascending(PageWalk(pages, height, o))
    requires !pages[o].isLeaf && 0 < j < pages[o].numKeys
    ensures CompareKeys(pages[o].keys[j - 1], pages[o].keys[j]) <= 0
  {
    var n := pages[o];
    ChildSplit(pages, height, o, j);
    var wb, w := WalkBefore(pages, height, o, j), PageWalk(pages, height, n.children[j]);
    var s := PageWalk(pages, height, o);
    assert s[|wb| - 1] == n.keys[j - 1];
    assert s[|wb| + |w|] == n.keys[j];
    AscendingPair(s, |wb| - 1, |wb| + |w|);
  }

  /** A child of a page with an ascending walk has an ascending walk. */
  lemma ChildAscending(pages: map<int, Node>, height: map<int, nat>, o: int, i: int)
    requires ArenaValid(pages, height) && o in pages && !pages[o].isLeaf && 0 <= i <= pages[o].numKeys
    requires Ascending(PageWalk(pages, height, o))
    ensures pages[o].children[i] in pages && Ascending(PageWalk(pages, height, pages[o].children[i]))
  {
    ChildSplit(pages, height, o, i);
    AscendingMiddle(WalkBefore(pages, height, o, i), PageWalk(pages, height, pages[o].children[i]), WalkAfter(pages, height, o, i));
  }

  /**
   * On ascending keys, the slot btree_find_key_index returns separates a
   * key that the page does not hold.
   */
  lemma SlotSeparates(n: Node, idx: int, key: Key)
    requires WellFormed(n) && Ascending(LiveKeys(n)) && 0 <= idx <= n.numKeys
    requires forall j :: 0 <= j < idx ==> CompareKeys(n.keys[j], key) < 0
    requires idx < n.numKeys ==> CompareKeys(n.keys[idx], key) > 0
    ensures Separates(n, idx, key)
  {
    forall j | idx <= j < n.numKeys
      ensures CompareKeys(key, n.keys[j]) < 0
    {
      AscendingPair(LiveKeys(n), idx, j);
      assert LiveKeys(n)[idx] == n.keys[idx] && LiveKeys(n)[j] == n.keys[j];
      CompareKeysFlip(n.keys[idx], key);
      CompareKeysTrans(key, n.keys[idx], n.keys[j]);
    }
  }

  /** btree_find_key_index finds the separating slot again. */
  lemma SeparatesSlot(n: Node, i: int, i': int, key: Key)
    requires WellFormed(n) && Separates(n, i, key) && 0 <= i' <= n.numKeys
    requires forall j :: 0 <= j < i' ==> CompareKeys(n.keys[j], key) < 0
    requires i' < n.numKeys ==> CompareKeys(n.keys[i'], key) >= 0
    ensures i' == i
  {
    if i < i' {
      CompareKeysFlip(key, n.keys[i]);
    }
  }

  /** A key separated by a slot of a page is not among its live keys. */
  lemma SeparatesAbsent(n: Node, i: int, key: Key)
    requires WellFormed(n) && Separates(n, i, key)
    ensures Tag(key) !in Tags(LiveKeys(n))
  {
    TagsHas(LiveKeys(n), key);
    forall j | 0 <= j < n.numKeys
      ensures CompareKeys(LiveKeys(n)[j], key) != 0
    {
      if j >= i {
        CompareKeysFlip(key, n.keys[j]);
      }
    }
  }

  /** The tag of every key of a sequence is among its tags. */
  lemma TagOf(s: seq<Key>, j: int)
    requires 0 <= j < |s|
    ensures Tag(s[j]) in Tags(s)
  {
    assert TagSeq(s)[j] == Tag(s[j]);
  }

  /** Dropping the slot holding a key that compares equal loses exactly that key's tag. */
  lemma DropTags(n: Node, n': Node, idx: int, key: Key)
    requires WellFormed(n) && WellFormed(n') && 0 <= idx < n.numKeys && CompareKeys(n.keys[idx], key) == 0
    requires LiveKeys(n') == n.keys[..idx] + n.keys[idx + 1..n.numKeys]
    ensures Tags(LiveKeys(n)) == Tags(LiveKeys(n')) + multiset{Tag(key)}
  {
    var s := LiveKeys(n);
    Around(s, idx);
    assert s[..idx] == n.keys[..idx] && s[idx + 1..] == n.keys[idx + 1..n.numKeys];
    TagsConcat(s[..idx], [s[idx]]);
    TagsConcat(s[..idx] + [s[idx]], s[idx + 1..]);
    TagsConcat(s[..idx], s[idx + 1..]);
    assert TagSeq([s[idx]]) == [Tag(key)];
  }

  /** A leaf rewritten in place: still unshared, and its walk is its keys. */
  lemma LeafRewrite(p: map<int, Node>, q: map<int, Node>, height: map<int, nat>, o: int)
    requires ArenaValid(p, height) && ArenaValid(q, height) && o in p && p[o].isLeaf
    requires q == p[o := q[o]]
    ensures Unshared(q, height, o) && Reach(q, height, o) == Reach(p, height, o) == {o}
    ensures PageWalk(p, height, o) == LiveKeys(p[o]) && PageWalk(q, height, o) == LiveKeys(q[o])
  {
    ReachKids(p, height, o);
    ReachKids(q, height, o);
  }

  /**
   * With an ascending walk, a key separated by slot `i` of an internal page
   * can only be in the walk of child `i`.
   */
  lemma SeparatedChild(pages: map<int, Node>, height: map<int, nat>, o: int, i: int, key: Key)
    requires ArenaValid(pages, height) && o in pages && !pages[o].isLeaf
    requires Ascending(PageWalk(pages, height, o)) && Separates(pages[o], i, key)
    ensures pages[o].children[i] in pages
    ensures Tag(key) in Tags(PageWalk(pages, height, o)) <==> Tag(key) in Tags(PageWalk(pages, height, pages[o].children[i]))
  {
    ChildSplit(pages, height, o, i);
    var n := pages[o];
    var wb, wa := WalkBefore(pages, height, o, i), WalkAfter(pages, height, o, i);
    ReachKids(pages, height, o);
    if i == 0 {
      assert |KidWalks(pages, height, LiveChildren(n)[..i])| == 0;
    }
    if i == n.numKeys {
      assert |KidWalks(pages, height, LiveChildren(n)[i + 1..])| == 0;
    }
    OnlyInMiddle(wb, PageWalk(pages, height, n.children[i]), wa, key);
  }

  /** Splitting a walk around a part whose tags lose one tag. */
  lemma TagsAround(a: seq<Key>, x: seq<Key>, y: seq<Key>, b: seq<Key>, t: (string, int))
    requires Tags(x) == Tags(y) + multiset{t}
    ensures Tags(a + x + b) == Tags(a + y + b) + multiset{t}
  {
    TagsConcat(a, x);
    TagsConcat(a + x, b);
    TagsConcat(a, y);
    TagsConcat(a + y, b);
  }

  /**
   * Child `i` of a page without shared pages is rewritten within its own
   * subtree, which stays unshared. The page itself is unchanged and still
   * shares no page, and its walk changes exactly as the child's does.
   */
  lemma StepDown(p: map<int, Node>, q: map<int, Node>, height: map<int, nat>, o: int, i: int, key: Key)
    requires ArenaValid(p, height) && ArenaValid(q, height) && o in p && !p[o].isLeaf && 0 <= i <= p[o].numKeys
    requires Unshared(p, height, o) && p.Keys == q.Keys
    requires var c := p[o].children[i];
             && c in p
             && (forall x :: x in p && x !in Reach(p, height, c) ==> q[x] == p[x])
             && Unshared(q, height, c) && Reach(q, height, c) <= Reach(p, height, c)
    ensures q[o] == p[o] && Unshared(q, height, o) && Reach(q, height, o) <= Reach(p, height, o)
    ensures forall x :: x in p && x !in Reach(p, height, o) ==> q[x] == p[x]
    ensures var c := p[o].children[i];
            PageWalk(q, height, c) == PageWalk(p, height, c) ==> PageWalk(q, height, o) == PageWalk(p, height, o)
    ensures var c := p[o].children[i];
            Tags(PageWalk(p, height, c)) == Tags(PageWalk(q, height, c)) + multiset{Tag(key)} ==>
              Tags(PageWalk(p, height, o)) == Tags(PageWalk(q, height, o)) + multiset{Tag(key)}
  {
    var c := p[o].children[i];
    ChildReach(p, height, o, i);
    ChildSwap(p, q, height, o, i);
    ChildSplit(p, height, o, i);
    ChildSplit(q, height, o, i);
    if Tags(PageWalk(p, height, c)) == Tags(PageWalk(q, height, c)) + multiset{Tag(key)} {
      TagsAround(WalkBefore(p, height, o, i), PageWalk(p, height, c), PageWalk(q, height, c), WalkAfter(p, height, o, i), Tag(key));
    }
  }

  /** Every live child of a page lies in its subtree. */
  lemma KidsInReach(pages: map<int, Node>, height: map<int, nat>, o: int)
    requires ArenaValid(pages, height) && o in pages
    ensures forall x :: x in LiveChildren(pages[o]) && !pages[o].isLeaf ==> x in Reach(pages, height, o)
  {
    forall x | x in LiveChildren(pages[o]) && !pages[o].isLeaf
      ensures x in Reach(pages, height, o)
    {
      var j :| 0 <= j < |LiveChildren(pages[o])| && LiveChildren(pages[o])[j] == x;
      assert LiveChildren(pages[o])[j] == pages[o].children[j];
      ChildReach(pages, height, o, j);
    }
  }

  /**
   * Slot `idx` of an internal page overwritten with `k`: the subtree and its
   * sharing are unchanged, and the walk trades the old key's tag for k's.
   */
  lemma KeyWrite(p: map<int, Node>, q: map<int, Node>, height: map<int, nat>, o: int, idx: int, k: Key)
    requires ArenaValid(p, height) && ArenaValid(q, height) && o in p && !p[o].isLeaf && 0 <= idx < p[o].numKeys
    requires q == p[o := p[o].(keys := p[o].keys[idx := k])]
    ensures Reach(q, height, o) == Reach(p, height, o) && Unshared(q, height, o) == Unshared(p, height, o)
    ensures Tags(PageWalk(q, height, o)) + multiset{Tag(p[o].keys[idx])} == Tags(PageWalk(p, height, o)) + multiset{Tag(k)}
  {
    var n := p[o];
    PageKids(p, q, height, o);
    ReachKids(p, height, o);
    WalkKids(p, height, n, height[o]);
    assert LiveChildren(q[o]) == LiveChildren(n);
    assert LiveKeys(q[o]) == LiveKeys(n)[idx := k];
    WeaveTrade(KidWalks(p, height, LiveChildren(n)), LiveKeys(n), idx, k);
  }

  /** Overwriting one key of an interleaving trades its tag for the new key's. */
  lemma WeaveTrade(ws: seq<seq<Key>>, keys: seq<Key>, idx: int, k: Key)
    requires |ws| == |keys| + 1 && 0 <= idx < |keys|
    ensures Tags(Weave(ws, keys[idx := k])) + multiset{Tag(keys[idx])} == Tags(Weave(ws, keys)) + multiset{Tag(k)}
  {
    TagsWeave(ws, keys);
    TagsWeave(ws, keys[idx := k]);
    TagsUpdate(keys, idx, k);
    var a, t, t' := TagsAll(ws), Tags(keys), Tags(keys[idx := k]);
    assert (a + t') + multiset{Tag(keys[idx])} == a + (t' + multiset{Tag(keys[idx])});
    assert (a + t) + multiset{Tag(k)} == a + (t + multiset{Tag(k)});
  }

  /** Pages that agree on a subtree agree on whether it has an empty leaf. */
  lemma AgreeBelow(p: map<int, Node>, q: map<int, Node>, height: map<int, nat>, c: int)
    requires ArenaValid(p, height) && ArenaValid(q, height) && c in p
    requires forall x :: x in Reach(p, height, c) ==> x in q && q[x] == p[x]
    ensures Reach(q, height, c) == Reach(p, height, c) && Unshared(q, height, c) == Unshared(p, height, c)
    ensures PageWalk(q, height, c) == PageWalk(p, height, c) && NoEmptyLeaf(q, height, c) == NoEmptyLeaf(p, height, c)
  {
    ReachAgree(p, q, height, c);
  }

  /** Removing the tag `t` after trading the tag `k` for it removes `k`. */
  lemma TradeTags(a: multiset<(string, int)>, b: multiset<(string, int)>, c: multiset<(string, int)>, t: (string, int), k: (string, int))
    requires b + multiset{k} == a + multiset{t}
    ensures b == c + multiset{t} ==> a == c + multiset{k}
  {
    if b == c + multiset{t} {
      var d := c + multiset{k};
      assert a + multiset{t} == d + multiset{t};
      forall e
        ensures a[e] == d[e]
      {
        assert (a + multiset{t})[e] == (d + multiset{t})[e];
      }
      assert a == d;
    }
  }

  /** With no empty leaf under it, the key btree_get_successor returns is in the walk of child idx + 1. */
  lemma SuccessorInChild(pages: map<int, Node>, height: map<int, nat>, o: int, idx: int, succ: Key)
    requires ArenaValid(pages, height) && o in pages && !pages[o].isLeaf && 0 <= idx < pages[o].numKeys
    requires succ == LeftmostLeaf(pages, height, ChildPage(pages, height, pages[o], height[o], idx + 1), height[o] - 1).keys[0]
    ensures NoEmptyLeaf(pages, height, o) ==> Tag(succ) in Tags(PageWalk(pages, height, pages[o].children[idx + 1]))
  {
    var c := pages[o].children[idx + 1];
    ChildOf(pages, height, o, idx + 1);
    if NoEmptyLeaf(pages, height, o) {
      var n := ChildPage(pages, height, pages[o], height[o], idx + 1);
      LeftmostFilled(pages, height, n, height[o] - 1);
      LeftmostLeafIsFirst(pages, height, n, height[o] - 1);
      TagOf(PageWalk(pages, height, c), 0);
    }
  }

  /** With no empty leaf under it, the leaf reached through children[0] holds keys. */
  lemma {:induction false} LeftmostFilled(pages: map<int, Node>, height: map<int, nat>, n: Node, h: nat)
    requires ArenaValid(pages, height) && FitsAt(height, n, h) && n.selfOffset in pages && pages[n.selfOffset] == n
    requires NoEmptyLeaf(pages, height, n.selfOffset)
    ensures LeftmostLeaf(pages, height, n, h).numKeys > 0
    decreases h
  {
    if !n.isLeaf {
      var c := ChildPage(pages, height, n, h, 0);
      ChildOf(pages, height, n.selfOffset, 0);
      LeftmostFilled(pages, height, c, h - 1);
    }
  }

  /** The walk of an internal page without keys is the walk of its only child. */
  lemma LoneChild(pages: map<int, Node>, height: map<int, nat>, o: int)
    requires ArenaValid(pages, height) && o in pages && !pages[o].isLeaf && pages[o].numKeys == 0
    ensures pages[o].children[0] in pages && PageWalk(pages, height, o) == PageWalk(pages, height, pages[o].children[0])
  {
    ReachKids(pages, height, o);
    WalkKids(pages, height, pages[o], height[o]);
    assert LiveChildren(pages[o])[0] == pages[o].children[0];
    assert LiveKeys(pages[o]) == [];
  }

  class BTreeFile {
    /** The page file: page content by byte offset. */
    var pages: map<int, Node>
    /** The header. */
    var rootOffset: int
    var freeOffset: int
    var nodeCount: int
    /** btree_root: the in-memory copy of the root page. */
    var root: Node
    /** The level of every page (not stored by the source). */
    ghost var height: map<int, nat>

    /**
     * The allocator's bookkeeping: every page lies below free_offset, and
     * free_offset has advanced by one page per page allocated, counted from
     * the end of the header and the initial root.
     */
    ghost predicate HeaderOk()
      reads this
    {
      && nodeCount == |pages|
      && freeOffset == HEADER_SIZE + PAGE_SIZE * nodeCount
      && forall o :: o in pages ==> 0 <= o < freeOffset
    }

    ghost predicate PagesValid()
      reads this
    {
      HeaderOk() && ArenaValid(pages, height)
    }

    /** As PagesValid, except that the page at `except` may be mid-update. */
    ghost predicate PagesValidBut(except: int)
      reads this
    {
      HeaderOk() && FitsExcept(pages, height, {except})
    }

    /**
     * The cached root is some content of the page at root_offset: the
     * current one after btree_init, btree_insert or a root collapse, an older
     * one after btree_delete.
     */
    ghost predicate Valid()
      reads this
    {
      PagesValid() && rootOffset in pages && Fits(height, root, rootOffset)
    }

    /**
     * btree_init for a missing file: one empty leaf root. The zero-initialised
     * header makes the first page land at offset 0, where the header itself is
     * stored; free_offset is then set past the header and one page.
     */
    constructor Init()
      ensures Valid()
      ensures pages == map[0 := EmptyPage(true, 0)] && rootOffset == 0 && root == pages[0]
      ensures freeOffset == HEADER_SIZE + PAGE_SIZE && nodeCount == 1
    {
      pages := map[0 := EmptyPage(true, 0)];
      height := map[0 := 0];
      rootOffset := 0;
      freeOffset := HEADER_SIZE + PAGE_SIZE;
      nodeCount := 1;
      root := EmptyPage(true, 0);
    }

    /**
     * btree_create_node: write an empty page at free_offset and advance the
     * bump allocator by one page. `h` is the level the caller will use the
     * page at.
     */
    method CreateNode(isLeaf: bool, ghost h: nat) returns (offset: int)
      requires HeaderOk() && pages.Keys == height.Keys
      requires isLeaf <==> h == 0
      modifies this
      ensures offset == old(freeOffset) && offset !in old(pages)
      ensures freeOffset == old(freeOffset) + PAGE_SIZE && nodeCount == old(nodeCount) + 1
      ensures pages == old(pages)[offset := EmptyPage(isLeaf, offset)]
      ensures height == old(height)[offset := h]
      ensures rootOffset == old(rootOffset) && root == old(root)
      ensures HeaderOk() && pages.Keys == height.Keys && Grows(old(height), height)
    {
      offset := freeOffset;
      freeOffset := freeOffset + PAGE_SIZE;
      nodeCount := nodeCount + 1;
      pages := pages[offset := EmptyPage(isLeaf, offset)];
      height := height[offset := h];
    }

    /**
     * btree_split_child: allocate a sibling for the full `child` (the page
     * at parent.children[index]), move the upper half into it, raise the
     * middle key into the parent and write all three pages. Returns the
     * updated in-memory parent and child.
     */
    method SplitChild(parent: Node, index: int, child: Node) returns (parent': Node, child': Node, sibling': Node)
      requires PagesValidBut(parent.selfOffset)
      requires Fits(height, parent, parent.selfOffset) && !parent.isLeaf
      requires parent.numKeys < MAX_KEYS && 0 <= index <= parent.numKeys
      requires parent.children[index] == child.selfOffset && Fits(height, child, child.selfOffset)
      requires child.numKeys == MAX_KEYS
      modifies this
      ensures WellFormed(parent') && WellFormed(child') && WellFormed(sibling')
      ensures PagesValid()
      ensures Grows(old(height), height) && old(pages).Keys <= pages.Keys
      ensures rootOffset == old(rootOffset) && root == old(root)
      ensures sibling'.selfOffset == old(freeOffset) && sibling'.selfOffset !in old(pages) && nodeCount == old(nodeCount) + 1
      ensures pages == old(pages)[parent.selfOffset := parent'][child.selfOffset := child'][sibling'.selfOffset := sibling']
      ensures Fits(height, parent', parent.selfOffset) && Fits(height, child', child.selfOffset)
      ensures Fits(height, sibling', sibling'.selfOffset)
      ensures child' == child.(numKeys := MIN_KEYS)
      ensures sibling'.isLeaf == child.isLeaf && sibling'.numKeys == MIN_KEYS && sibling'.keys[0] == child.keys[MIN_KEYS]
      ensures LiveKeys(sibling') == child.keys[ORDER / 2..ORDER / 2 + MIN_KEYS]
      ensures !child.isLeaf ==> LiveChildren(sibling') == child.children[ORDER / 2..ORDER / 2 + MIN_KEYS + 1]
      ensures parent'.numKeys == parent.numKeys + 1
      ensures LiveKeys(parent') == parent.keys[..index] + [child.keys[MIN_KEYS]] + parent.keys[index..parent.numKeys]
      ensures LiveChildren(parent') == parent.children[..index + 1] + [sibling'.selfOffset] + parent.children[index + 1..parent.numKeys + 1]
      ensures parent'.keys[index] == child.keys[MIN_KEYS]
      ensures parent'.children[index + 1] == sibling'.selfOffset
      ensures forall m :: 0 <= m <= index ==> parent'.children[m] == parent.children[m]
    {
      ghost var pages0, height0 := pages, height;
      var sOff := CreateNode(child.isLeaf, height[child.selfOffset]);
      AllocPage(pages0, height0, {parent.selfOffset}, sOff, pages[sOff], height[sOff]);
      FitsGrow(height0, height, parent, parent.selfOffset);
      FitsGrow(height0, height, child, child.selfOffset);
      ghost var sibling := pages[sOff];
      parent', child', sibling' := WriteSplit(parent, index, child, sOff);
      Overwrite(pages0, sOff, sibling, parent.selfOffset, parent', child.selfOffset, child', sibling');
    }

    /**
     * The in-memory half of btree_split_child, once the sibling page is
     * allocated: the three nodes are rearranged and written back.
     */
    method WriteSplit(parent: Node, index: int, child: Node, sOff: int) returns (parent': Node, child': Node, sibling': Node)
      requires HeaderOk() && FitsExcept(pages, height, {parent.selfOffset, sOff})
      requires Fits(height, parent, parent.selfOffset) && !parent.isLeaf
      requires parent.numKeys < MAX_KEYS && 0 <= index <= parent.numKeys
      requires parent.children[index] == child.selfOffset && Fits(height, child, child.selfOffset)
      requires child.numKeys == MAX_KEYS
      requires sOff in pages && pages[sOff] == EmptyPage(child.isLeaf, sOff) && height[sOff] == height[child.selfOffset]
      modifies this
      ensures WellFormed(parent') && WellFormed(child') && WellFormed(sibling')
      ensures PagesValid() && height == old(height)
      ensures rootOffset == old(rootOffset) && root == old(root)
      ensures freeOffset == old(freeOffset) && nodeCount == old(nodeCount)
      ensures sibling'.selfOffset == sOff
      ensures pages == old(pages)[parent.selfOffset := parent'][child.selfOffset := child'][sOff := sibling']
      ensures Fits(height, parent', parent.selfOffset) && Fits(height, child', child.selfOffset)
      ensures Fits(height, sibling', sibling'.selfOffset)
      ensures child' == child.(numKeys := MIN_KEYS)
      ensures sibling'.isLeaf == child.isLeaf && sibling'.numKeys == MIN_KEYS && sibling'.keys[0] == child.keys[MIN_KEYS]
      ensures LiveKeys(sibling') == child.keys[ORDER / 2..ORDER / 2 + MIN_KEYS]
      ensures !child.isLeaf ==> LiveChildren(sibling') == child.children[ORDER / 2..ORDER / 2 + MIN_KEYS + 1]
      ensures parent'.numKeys == parent.numKeys + 1
      ensures LiveKeys(parent') == parent.keys[..index] + [child.keys[MIN_KEYS]] + parent.keys[index..parent.numKeys]
      ensures LiveChildren(parent') == parent.children[..index + 1] + [sOff] + parent.children[index + 1..parent.numKeys + 1]
      ensures parent'.keys[index] == child.keys[MIN_KEYS]
      ensures parent'.children[index + 1] == sOff
      ensures forall m :: 0 <= m <= index ==> parent'.children[m] == parent.children[m]
    {
      var sibling := pages[sOff];
      parent', child', sibling' := SplitNodes(parent, index, child, sibling);
      SplitFits(height, parent, index, child, parent', child', sibling');
      StoreThree(pages, height, {parent.selfOffset, sOff}, parent', child', sibling');
      pages := pages[parent.selfOffset := parent'][child.selfOffset := child'][sOff := sibling'];
    }

    /**
     * The leaf case of btree_insert_non_full: the key is shifted into the
     * in-memory copy of the leaf at its place and the page is written back.
     */
    method InsertIntoLeaf(node: Node, key: Key) returns (node': Node)
      requires PagesValid() && Fits(height, node, node.selfOffset) && node.isLeaf && node.numKeys < MAX_KEYS
      modifies this
      ensures PagesValid() && Fits(height, node', node.selfOffset) && height == old(height)
      ensures rootOffset == old(rootOffset) && root == old(root)
      ensures node'.numKeys == node.numKeys + 1 && pages == old(pages)[node.selfOffset := node']
      ensures exists pos :: 0 <= pos <= node.numKeys && LiveKeys(node') == LiveKeys(node)[..pos] + [key] + LiveKeys(node)[pos..]
      ensures key in LiveKeys(node')
      ensures Ascending(LiveKeys(node)) ==> Ascending(LiveKeys(node'))
    {
      ghost var pos;
      node', pos := LeafInsert(node, key);
      assert LiveKeys(node)[..pos] == node.keys[..pos];
      assert LiveKeys(node)[pos..] == node.keys[pos..node.numKeys];
      assert LiveKeys(node')[pos] == key;
      assert Fits(height, node', node.selfOffset);
      StorePage(pages, height, {}, node.selfOffset, node');
      pages := pages[node.selfOffset := node'];
    }

    /**
     * The descent step of btree_insert_non_full at an internal page: scan
     * down from the last key for the child the key belongs under, and when
     * that child is full split it first, moving one slot right when the key
     * compares above the raised key. The chosen slot is the one the key
     * belongs under: the key is not below the key before it, not above the
     * key at it, and below every later key. The chosen child is not full.
     * Only the node's page, pages one level down and a new page change.
     */
    method DescendFor(node: Node, key: Key) returns (node': Node, i: int, child: Node)
      requires PagesValid() && Fits(height, node, node.selfOffset) && !node.isLeaf && node.numKeys < MAX_KEYS
      modifies this
      ensures PagesValid() && Fits(height, node', node.selfOffset)
      ensures Grows(old(height), height) && old(pages).Keys <= pages.Keys
      ensures rootOffset == old(rootOffset) && root == old(root)
      ensures 0 <= i <= node'.numKeys && child == ChildPage(pages, height, node', height[node.selfOffset], i)
      ensures child.numKeys < MAX_KEYS
      ensures old(pages)[node.selfOffset] == node ==> pages[node.selfOffset] == node'
      ensures forall o :: o in old(pages) && o != node.selfOffset && old(height)[o] >= old(height)[node.selfOffset] ==>
                pages[o] == old(pages)[o]
      ensures node'.numKeys <= node.numKeys + 1 && node'.children[0] == node.children[0]
      ensures SlotFor(node', i, key)
    {
      ghost var h := height[node.selfOffset];
      i := node.numKeys - 1;
      while i >= 0 && CompareKeys(key, node.keys[i]) < 0
        invariant -1 <= i < node.numKeys
        invariant forall j :: i < j < node.numKeys ==> CompareKeys(key, node.keys[j]) < 0
      {
        i := i - 1;
      }
      i := i + 1;
      child := pages[node.children[i]];
      assert child == ChildPage(pages, height, node, h, i);
      node' := node;
      if child.numKeys == MAX_KEYS {
        node', i, child := SplitFor(node, i, child, key);
      }
    }

    /**
     * The split half of DescendFor: the child at slot i, where the key
     * belongs, is full, so it is split and the slot moves one right when the
     * key compares above the raised key.
     */
    method SplitFor(node: Node, i: int, child: Node, key: Key) returns (node': Node, i': int, child': Node)
      requires PagesValid() && Fits(height, node, node.selfOffset) && !node.isLeaf && node.numKeys < MAX_KEYS
      requires 0 <= i <= node.numKeys && child == ChildPage(pages, height, node, height[node.selfOffset], i)
      requires child.numKeys == MAX_KEYS
      requires 0 < i ==> CompareKeys(key, node.keys[i - 1]) >= 0
      requires forall j :: i <= j < node.numKeys ==> CompareKeys(key, node.keys[j]) < 0
      modifies this
      ensures PagesValid() && Fits(height, node', node.selfOffset)
      ensures Grows(old(height), height) && old(pages).Keys <= pages.Keys
      ensures rootOffset == old(rootOffset) && root == old(root)
      ensures 0 <= i' <= node'.numKeys && child' == ChildPage(pages, height, node', height[node.selfOffset], i')
      ensures child'.numKeys < MAX_KEYS
      ensures pages[node.selfOffset] == node'
      ensures forall o :: o in old(pages) && o != node.selfOffset && old(height)[o] >= old(height)[node.selfOffset] ==>
                pages[o] == old(pages)[o]
      ensures node'.numKeys == node.numKeys + 1 && node'.children[0] == node.children[0]
      ensures SlotFor(node', i', key)
    {
      ghost var h := height[node.selfOffset];
      ghost var pages0 := pages;
      var sibling;
      node', child', sibling := SplitChild(node, i, child);
      assert node.selfOffset != child.selfOffset && node.selfOffset != sibling.selfOffset;
      ThreeWritesBelow(pages0, height, node.selfOffset, node', child.selfOffset, child', sibling.selfOffset, sibling, h);
      RaisedSlot(node, node', i, key);
      i' := i;
      if CompareKeys(key, node'.keys[i]) > 0 {
        i' := i + 1;
        child' := pages[node'.children[i']];
        assert child' == sibling;
      }
      assert child' == pages[node'.children[i']];
      assert child' == ChildPage(pages, height, node', h, i');
    }

    /**
     * btree_insert_non_full on the in-memory copy `node` of a page that is not
     * full. A leaf takes the key and is written back; an internal page picks
     * the child to descend into, splitting it first when it is full, and
     * recurses. Returns the in-memory copy as the call leaves it: the key is
     * in its in-order walk, and it is the page's content whenever `node` was.
     * Only pages below the node's level, the node's page and new pages change.
     */
    method InsertNonFull(node: Node, key: Key) returns (node': Node)
      requires PagesValid() && Fits(height, node, node.selfOffset) && node.numKeys < MAX_KEYS
      modifies this
      decreases height[node.selfOffset]
      ensures PagesValid() && Fits(height, node', node.selfOffset)
      ensures Grows(old(height), height) && old(pages).Keys <= pages.Keys
      ensures rootOffset == old(rootOffset) && root == old(root)
      ensures key in Walk(pages, height, node', height[node.selfOffset])
      ensures old(pages)[node.selfOffset] == node ==> pages[node.selfOffset] == node'
      ensures forall o :: o in old(pages) && o != node.selfOffset && old(height)[o] >= old(height)[node.selfOffset] ==>
                pages[o] == old(pages)[o]
      ensures node.isLeaf ==>
                && node'.numKeys == node.numKeys + 1 && pages == old(pages)[node.selfOffset := node']
                && (exists pos :: 0 <= pos <= node.numKeys && LiveKeys(node') == LiveKeys(node)[..pos] + [key] + LiveKeys(node)[pos..])
                && (Ascending(LiveKeys(node)) ==> Ascending(LiveKeys(node')))
      ensures !node.isLeaf ==> node'.numKeys <= node.numKeys + 1 && node'.children[0] == node.children[0]
    {
      if node.isLeaf {
        node' := InsertIntoLeaf(node, key);
      } else {
        ghost var h := height[node.selfOffset];
        ghost var pages0, height0 := pages, height;
        var i, child;
        node', i, child := DescendFor(node, key);
        assert child.selfOffset == node'.children[i] && height[child.selfOffset] == h - 1;
        ghost var pages1, height1 := pages, height;
        var child' := InsertNonFull(child, key);
        FitsGrow(height1, height, node', node.selfOffset);
        assert pages[node.selfOffset] == pages1[node.selfOffset];
        forall o | o in pages0 && o != node.selfOffset && height0[o] >= h
          ensures pages[o] == pages0[o]
        {
          assert height1[o] == height0[o] && o != child.selfOffset;
        }
        assert pages[node'.children[i]] == child' && child'.selfOffset == child.selfOffset;
        assert height[node.selfOffset] == h && ChildPage(pages, height, node', h, i) == child';
        KeyInChildWalk(pages, height, node', h, i, child', key);
      }
    }

    /**
     * btree_insert: a full cached root is first put under a new internal root
     * (children[0] = the old root_offset, root_offset updated) and split; then
     * the key goes in through InsertNonFull, and the cached root becomes the
     * resulting in-memory copy of the root. No page ever exceeds MAX_KEYS.
     * The key is in the in-order walk from the new cached root, which is the
     * root page's content unless the old cached root was already stale.
     */
    method Insert(key: Key)
      requires Valid()
      modifies this
      ensures Valid()
      ensures Grows(old(height), height) && old(pages).Keys <= pages.Keys
      ensures old(root).numKeys == MAX_KEYS ==>
                && rootOffset == old(freeOffset)
                && height[rootOffset] == old(height)[old(rootOffset)] + 1
                && root.children[0] == old(rootOffset)
                && root == pages[rootOffset]
      ensures old(root).numKeys < MAX_KEYS ==> rootOffset == old(rootOffset)
      ensures key in Walk(pages, height, root, height[rootOffset])
      ensures old(root) == old(pages)[old(rootOffset)] ==> root == pages[rootOffset]
    {
      if root.numKeys == MAX_KEYS {
        GrowRoot();
      }
      root := InsertNonFull(root, key);
    }

    /**
     * The full-root case of btree_insert: a new internal page becomes the
     * root, with the old root as its only child, which is then split.
     */
    method GrowRoot()
      requires Valid() && root.numKeys == MAX_KEYS
      modifies this
      ensures Valid() && root == pages[rootOffset] && !root.isLeaf && root.numKeys == 1
      ensures Grows(old(height), height) && old(pages).Keys <= pages.Keys
      ensures rootOffset == old(freeOffset) && height[rootOffset] == old(height)[old(rootOffset)] + 1
      ensures root.children[0] == old(rootOffset)
    {
      var newRootOffset := CreateNode(false, height[rootOffset] + 1);
      var newRoot := pages[newRootOffset];
      newRoot := newRoot.(children := newRoot.children[0 := rootOffset]);
      rootOffset := newRootOffset;
      var oldRoot, sibling;
      newRoot, oldRoot, sibling := SplitChild(newRoot, 0, root);
      root := newRoot;
    }

    /**
     * btree_search: walk down from the cached root (not the page at
     * root_offset) with the key built from the name truncated to 49
     * characters. Nothing is written.
     */
    method Search(name: string, threshold: int) returns (r: Option<Key>)
      requires Valid()
      ensures r == Lookup(pages, height, root, height[rootOffset], SearchKey(name, threshold))
      ensures r.Some? ==> r.value.name == TruncateName(name) && r.value.threshold == threshold
      ensures r.Some? ==> r.value in Walk(pages, height, root, height[rootOffset])
    {
      var key := SearchKey(name, threshold);
      r := Descend(root, height[rootOffset], key);
      LookupSound(pages, height, root, height[rootOffset], key);
    }

    /** The descent loop of btree_search, from the page content `n` at level `h`. */
    method Descend(n: Node, ghost h: nat, key: Key) returns (r: Option<Key>)
      requires PagesValid() && FitsAt(height, n, h)
      ensures r == Lookup(pages, height, n, h, key)
    {
      var current := n;
      ghost var hc := h;
      while true
        invariant FitsAt(height, current, hc)
        invariant Lookup(pages, height, current, hc, key) == Lookup(pages, height, n, h, key)
        decreases hc
      {
        var i := ScanPage(current, key);
        LookupStops(pages, height, current, hc, key, i);
        if i < current.numKeys && CompareKeys(key, current.keys[i]) == 0 {
          return Some(current.keys[i]);
        }
        if current.isLeaf {
          return None;
        }
        LookupDescends(pages, height, current, hc, key, i);
        current := pages[current.children[i]];
        hc := hc - 1;
      }
    }

    /**
     * btree_print_inorder_recursive without the printing: the keys of the
     * subtree under the page at `offset` in the order they are printed.
     */
    method InOrder(offset: int) returns (s: seq<Key>)
      requires PagesValid() && offset in pages
      ensures s == Walk(pages, height, pages[offset], height[offset])
      decreases height[offset]
    {
      var node := pages[offset];
      ghost var h := height[offset];
      s := [];
      for i := 0 to node.numKeys
        invariant node.isLeaf ==> s == node.keys[..i]
        invariant !node.isLeaf ==> s + WalkFrom(pages, height, node, h, i) == WalkFrom(pages, height, node, h, 0)
      {
        if !node.isLeaf {
          var sub := InOrder(node.children[i]);
          s := s + sub;
        }
        s := s + [node.keys[i]];
      }
      if !node.isLeaf {
        var sub := InOrder(node.children[node.numKeys]);
        s := s + sub;
      }
    }

    /** btree_remove_from_leaf: drop slot `idx` of the page at `offset` and write it back. */
    method RemoveFromLeaf(offset: int, idx: int)
      requires PagesValid() && offset in pages && 0 <= idx < pages[offset].numKeys
      modifies this
      ensures PagesValid() && pages.Keys == old(pages).Keys && height == old(height)
      ensures rootOffset == old(rootOffset) && root == old(root)
      ensures pages == old(pages)[offset := pages[offset]]
      ensures var n := old(pages)[offset];
              pages[offset].numKeys == n.numKeys - 1 && LiveKeys(pages[offset]) == n.keys[..idx] + n.keys[idx + 1..n.numKeys]
    {
      var node := pages[offset];
      var node' := LeafRemove(node, idx);
      ShrinkFits(height, node, node');
      StoreOne(pages, height, node');
      pages := pages[offset := node'];
    }

    /**
     * btree_get_predecessor: follow the last live child from
     * children[idx] down to a leaf and take its last key. A 0-key leaf
     * makes the source read keys[-1]; that is reported as None.
     */
    method GetPredecessor(offset: int, idx: int) returns (r: Option<Key>)
      requires PagesValid() && offset in pages && !pages[offset].isLeaf && 0 <= idx <= pages[offset].numKeys
      ensures var c := ChildPage(pages, height, pages[offset], height[offset], idx);
              var leaf := RightmostLeaf(pages, height, c, height[offset] - 1);
              && (r.None? <==> leaf.numKeys == 0)
              && (r.Some? ==> r.value == leaf.keys[leaf.numKeys - 1])
      ensures var c := ChildPage(pages, height, pages[offset], height[offset], idx);
              var w := Walk(pages, height, c, height[offset] - 1);
              r.Some? ==> |w| > 0 && r.value == w[|w| - 1]
    {
      var node := pages[offset];
      ghost var h := height[offset];
      ghost var c := ChildPage(pages, height, node, h, idx);
      var current := pages[node.children[idx]];
      ghost var hc := h - 1;
      while !current.isLeaf
        invariant FitsAt(height, current, hc)
        invariant RightmostLeaf(pages, height, current, hc) == RightmostLeaf(pages, height, c, h - 1)
        decreases hc
      {
        var next := pages[current.children[current.numKeys]];
        assert next == ChildPage(pages, height, current, hc, current.numKeys);
        current := next;
        hc := hc - 1;
      }
      if current.numKeys == 0 {
        r := None;
      } else {
        r := Some(current.keys[current.numKeys - 1]);
        RightmostLeafIsLast(pages, height, c, h - 1);
      }
    }

    /**
     * btree_get_successor: follow children[0] from children[idx + 1] down to
     * a leaf and take its slot 0, which is a stale key when the leaf is empty.
     */
    method GetSuccessor(offset: int, idx: int) returns (r: Key)
      requires PagesValid() && offset in pages && !pages[offset].isLeaf && 0 <= idx < pages[offset].numKeys
      ensures var c := ChildPage(pages, height, pages[offset], height[offset], idx + 1);
              r == LeftmostLeaf(pages, height, c, height[offset] - 1).keys[0]
      ensures var c := ChildPage(pages, height, pages[offset], height[offset], idx + 1);
              var w := Walk(pages, height, c, height[offset] - 1);
              LeftmostLeaf(pages, height, c, height[offset] - 1).numKeys > 0 ==> |w| > 0 && r == w[0]
    {
      var node := pages[offset];
      ghost var h := height[offset];
      ghost var c := ChildPage(pages, height, node, h, idx + 1);
      var current := pages[node.children[idx + 1]];
      ghost var hc := h - 1;
      while !current.isLeaf
        invariant FitsAt(height, current, hc)
        invariant LeftmostLeaf(pages, height, current, hc) == LeftmostLeaf(pages, height, c, h - 1)
        decreases hc
      {
        var next := pages[current.children[0]];
        assert next == ChildPage(pages, height, current, hc, 0);
        current := next;
        hc := hc - 1;
      }
      r := current.keys[0];
      if current.numKeys > 0 {
        LeftmostLeafIsFirst(pages, height, c, h - 1);
      }
    }

    /**
     * btree_borrow_from_prev: the separator at idx - 1 moves down to the
     * front of child idx, the left sibling's last key moves up, and for
     * internal pages the left sibling's last child moves across.
     */
    method BorrowFromPrev(offset: int, idx: int) returns (p: Node, c: Node, l: Node)
      requires PagesValid() && offset in pages && !pages[offset].isLeaf && 1 <= idx <= pages[offset].numKeys
      requires ChildPage(pages, height, pages[offset], height[offset], idx).numKeys < MAX_KEYS
      requires ChildPage(pages, height, pages[offset], height[offset], idx - 1).numKeys >= 1
      modifies this
      ensures PagesValid() && pages.Keys == old(pages).Keys && height == old(height)
      ensures rootOffset == old(rootOffset) && root == old(root)
      ensures var n := old(pages)[offset];
              pages == old(pages)[offset := p][n.children[idx] := c][n.children[idx - 1] := l]
      ensures WellFormed(p) && WellFormed(c) && WellFormed(l)
      ensures p == old(pages)[offset].(keys := p.keys)
      ensures var n := old(pages)[offset];
              var child := old(pages)[n.children[idx]];
              var left := old(pages)[n.children[idx - 1]];
              && p.numKeys == n.numKeys && c.numKeys == child.numKeys + 1 && l.numKeys == left.numKeys - 1
              && LiveKeys(l) + [p.keys[idx - 1]] + LiveKeys(c) == LiveKeys(left) + [n.keys[idx - 1]] + LiveKeys(child)
      ensures old(Unshared(pages, height, offset)) ==>
                && PageWalk(pages, height, offset) == old(PageWalk(pages, height, offset))
                && Unshared(pages, height, offset) && Reach(pages, height, offset) <= old(Reach(pages, height, offset))
      ensures old(Unshared(pages, height, offset) && NoEmptyLeaf(pages, height, offset)) ==>
                NoEmptyLeaf(pages, height, old(pages)[offset].children[idx])
      ensures forall key :: old(Ascending(PageWalk(pages, height, offset))) && Separates(old(pages)[offset], idx, key) ==> Separates(p, idx, key)
    {
      var node := pages[offset];
      ghost var h := height[offset];
      var child := pages[node.children[idx]];
      assert child == ChildPage(pages, height, node, h, idx);
      var left := pages[node.children[idx - 1]];
      assert left == ChildPage(pages, height, node, h, idx - 1);
      p, c, l := BorrowFromPrevNodes(node, idx, child, left);
      ShrinkFits(height, node, p);
      BorrowPrevFits(height, child, left, c, h - 1);
      ShrinkFits(height, left, l);
      var q := pages;
      StoreOne(q, height, p);
      q := q[offset := p];
      StoreOne(q, height, c);
      q := q[c.selfOffset := c];
      StoreOne(q, height, l);
      q := q[l.selfOffset := l];
      BorrowPrevKeeps(pages, q, height, offset, idx, p, c, l);
      pages := q;
    }

    /**
     * btree_borrow_from_next: the separator at idx moves down to the end of
     * child idx, the right sibling's first key moves up, and for internal
     * pages the right sibling's first child moves across.
     */
    method BorrowFromNext(offset: int, idx: int) returns (p: Node, c: Node, r: Node)
      requires PagesValid() && offset in pages && !pages[offset].isLeaf && 0 <= idx < pages[offset].numKeys
      requires ChildPage(pages, height, pages[offset], height[offset], idx).numKeys < MAX_KEYS
      requires ChildPage(pages, height, pages[offset], height[offset], idx + 1).numKeys >= 1
      modifies this
      ensures PagesValid() && pages.Keys == old(pages).Keys && height == old(height)
      ensures rootOffset == old(rootOffset) && root == old(root)
      ensures var n := old(pages)[offset];
              pages == old(pages)[offset := p][n.children[idx] := c][n.children[idx + 1] := r]
      ensures WellFormed(p) && WellFormed(c) && WellFormed(r)
      ensures p == old(pages)[offset].(keys := p.keys)
      ensures var n := old(pages)[offset];
              var child := old(pages)[n.children[idx]];
              var right := old(pages)[n.children[idx + 1]];
              && p.numKeys == n.numKeys && c.numKeys == child.numKeys + 1 && r.numKeys == right.numKeys - 1
              && LiveKeys(c) + [p.keys[idx]] + LiveKeys(r) == LiveKeys(child) + [n.keys[idx]] + LiveKeys(right)
      ensures old(Unshared(pages, height, offset)) ==>
                && PageWalk(pages, height, offset) == old(PageWalk(pages, height, offset))
                && Unshared(pages, height, offset) && Reach(pages, height, offset) <= old(Reach(pages, height, offset))
      ensures old(Unshared(pages, height, offset) && NoEmptyLeaf(pages, height, offset)) ==>
                NoEmptyLeaf(pages, height, old(pages)[offset].children[idx])
      ensures forall key :: old(Ascending(PageWalk(pages, height, offset))) && Separates(old(pages)[offset], idx, key) ==> Separates(p, idx, key)
    {
      var node := pages[offset];
      ghost var h := height[offset];
      var child := pages[node.children[idx]];
      assert child == ChildPage(pages, height, node, h, idx);
      var right := pages[node.children[idx + 1]];
      assert right == ChildPage(pages, height, node, h, idx + 1);
      p, c, r := BorrowFromNextNodes(node, idx, child, right);
      ShrinkFits(height, node, p);
      BorrowNextFits(height, child, right, c, r, h - 1);
      var q := pages;
      StoreOne(q, height, p);
      q := q[offset := p];
      StoreOne(q, height, c);
      q := q[c.selfOffset := c];
      StoreOne(q, height, r);
      q := q[r.selfOffset := r];
      BorrowNextKeeps(pages, q, height, offset, idx, p, c, r);
      pages := q;
    }

    /**
     * btree_merge: child idx (empty) absorbs the separator at idx and its
     * right sibling; the parent loses that key and children[idx + 1]. The
     * right sibling's page is left in the file, unreferenced by this parent.
     */
    method Merge(offset: int, idx: int) returns (p: Node, c: Node)
      requires PagesValid() && offset in pages && !pages[offset].isLeaf && 0 <= idx < pages[offset].numKeys
      requires ChildPage(pages, height, pages[offset], height[offset], idx).numKeys == MIN_KEYS - 1
      requires ChildPage(pages, height, pages[offset], height[offset], idx + 1).numKeys <= MAX_KEYS - MIN_KEYS
      modifies this
      ensures PagesValid() && pages.Keys == old(pages).Keys && height == old(height)
      ensures rootOffset == old(rootOffset) && root == old(root)
      ensures var n := old(pages)[offset];
              pages == old(pages)[offset := p][n.children[idx] := c]
      ensures WellFormed(p) && WellFormed(c)
      ensures var n := old(pages)[offset];
              var child := old(pages)[n.children[idx]];
              var right := old(pages)[n.children[idx + 1]];
              && p.numKeys == n.numKeys - 1
              && LiveKeys(p) == n.keys[..idx] + n.keys[idx + 1..n.numKeys]
              && LiveKeys(c) == LiveKeys(child) + [n.keys[idx]] + LiveKeys(right)
      ensures old(Unshared(pages, height, offset)) ==>
                && PageWalk(pages, height, offset) == old(PageWalk(pages, height, offset))
                && Unshared(pages, height, offset) && Reach(pages, height, offset) <= old(Reach(pages, height, offset))
      ensures old(Unshared(pages, height, offset) && NoEmptyLeaf(pages, height, offset)) ==>
                NoEmptyLeaf(pages, height, old(pages)[offset].children[idx])
      ensures p.children[idx] == old(pages)[offset].children[idx]
      ensures forall key :: Separates(old(pages)[offset], idx, key) || Separates(old(pages)[offset], idx + 1, key) ==> Separates(p, idx, key)
    {
      var node := pages[offset];
      ghost var h := height[offset];
      var child := pages[node.children[idx]];
      assert child == ChildPage(pages, height, node, h, idx);
      var right := pages[node.children[idx + 1]];
      assert right == ChildPage(pages, height, node, h, idx + 1);
      p, c := MergeNodes(node, idx, child, right);
      MergeFits(height, node, h, idx, child, right, p, c);
      var q := pages;
      StoreOne(q, height, p);
      q := q[offset := p];
      StoreOne(q, height, c);
      q := q[c.selfOffset := c];
      MergeArenaKeeps(pages, q, height, offset, idx, p, c);
      pages := q;
    }

    /**
     * btree_fill_child: child idx has fewer than MIN_KEYS keys. Borrow from
     * the left sibling, else from the right one, else merge with the right
     * sibling, else with the left one. A parent with no keys leaves only
     * merge(idx - 1) with idx = 0, which the source has no behaviour for:
     * false is returned and nothing is written.
     */
    method FillChild(offset: int, idx: int) returns (ok: bool, ghost slot: int)
      requires PagesValid() && offset in pages && !pages[offset].isLeaf && 0 <= idx <= pages[offset].numKeys
      requires ChildPage(pages, height, pages[offset], height[offset], idx).numKeys < MIN_KEYS
      modifies this
      ensures PagesValid() && pages.Keys == old(pages).Keys && height == old(height)
      ensures rootOffset == old(rootOffset) && root == old(root)
      ensures ok <==> !(idx == 0 && old(pages)[offset].numKeys == 0)
      ensures !ok ==> pages == old(pages)
      ensures forall x :: x in old(pages) && x != offset && x !in LiveChildren(old(pages)[offset]) ==> pages[x] == old(pages)[x]
      ensures forall x :: x in old(pages) && x != offset && height[x] != height[offset] - 1 ==> pages[x] == old(pages)[x]
      ensures ok ==> !pages[offset].isLeaf && 0 <= slot <= pages[offset].numKeys && (slot == idx || slot == idx - 1)
      ensures old(Unshared(pages, height, offset)) ==>
                && PageWalk(pages, height, offset) == old(PageWalk(pages, height, offset))
                && Unshared(pages, height, offset) && Reach(pages, height, offset) <= old(Reach(pages, height, offset))
      ensures ok && old(Unshared(pages, height, offset) && NoEmptyLeaf(pages, height, offset)) ==>
                NoEmptyLeaf(pages, height, pages[offset].children[slot])
      ensures forall key :: ok && old(Ascending(PageWalk(pages, height, offset))) && Separates(old(pages)[offset], idx, key) ==>
                Separates(pages[offset], slot, key)
    {
      var node := pages[offset];
      ghost var h := height[offset];
      if idx != 0 {
        var left := pages[node.children[idx - 1]];
        assert left == ChildPage(pages, height, node, h, idx - 1);
        if left.numKeys >= MIN_KEYS {
          var _, _, _ := BorrowFromPrev(offset, idx);
          return true, idx;
        }
      }
      if idx != node.numKeys {
        var right := pages[node.children[idx + 1]];
        assert right == ChildPage(pages, height, node, h, idx + 1);
        if right.numKeys >= MIN_KEYS {
          var _, _, _ := BorrowFromNext(offset, idx);
          return true, idx;
        }
      }
      ok, slot := MergeSiblings(offset, idx);
    }

    /**
     * The merge half of btree_fill: neither sibling of child idx can lend a
     * key, so the child is merged with its right sibling, or with its left
     * one when it is the last child. A page with no key has no sibling to
     * merge with, and nothing changes.
     */
    method MergeSiblings(offset: int, idx: int) returns (ok: bool, ghost slot: int)
      requires PagesValid() && offset in pages && !pages[offset].isLeaf && 0 <= idx <= pages[offset].numKeys
      requires ChildPage(pages, height, pages[offset], height[offset], idx).numKeys < MIN_KEYS
      requires idx != 0 ==> ChildPage(pages, height, pages[offset], height[offset], idx - 1).numKeys < MIN_KEYS
      requires idx != pages[offset].numKeys ==> ChildPage(pages, height, pages[offset], height[offset], idx + 1).numKeys < MIN_KEYS
      modifies this
      ensures PagesValid() && pages.Keys == old(pages).Keys && height == old(height)
      ensures rootOffset == old(rootOffset) && root == old(root)
      ensures ok <==> !(idx == 0 && old(pages)[offset].numKeys == 0)
      ensures !ok ==> pages == old(pages)
      ensures forall x :: x in old(pages) && x != offset && x !in LiveChildren(old(pages)[offset]) ==> pages[x] == old(pages)[x]
      ensures forall x :: x in old(pages) && x != offset && height[x] != height[offset] - 1 ==> pages[x] == old(pages)[x]
      ensures ok ==> !pages[offset].isLeaf && 0 <= slot <= pages[offset].numKeys && (slot == idx || slot == idx - 1)
      ensures old(Unshared(pages, height, offset)) ==>
                && PageWalk(pages, height, offset) == old(PageWalk(pages, height, offset))
                && Unshared(pages, height, offset) && Reach(pages, height, offset) <= old(Reach(pages, height, offset))
      ensures ok && old(Unshared(pages, height, offset) && NoEmptyLeaf(pages, height, offset)) ==>
                NoEmptyLeaf(pages, height, pages[offset].children[slot])
      ensures forall key :: ok && old(Ascending(PageWalk(pages, height, offset))) && Separates(old(pages)[offset], idx, key) ==>
                Separates(pages[offset], slot, key)
    {
      ghost var n0 := pages[offset];
      var j;
      if idx != pages[offset].numKeys {
        j := idx;
      } else if idx != 0 {
        j := idx - 1;
      } else {
        return false, idx;
      }
      var p, _ := Merge(offset, j);
      slot := j;
      assert pages[offset] == p && p.children[slot] == n0.children[slot];
      forall key | Separates(n0, idx, key)
        ensures Separates(p, slot, key)
      {
        if slot != idx {
          assert Separates(n0, slot + 1, key);
        }
      }
      ok := true;
    }

    /**
     * btree_delete_recursive. When the page at `offset` holds the key it is
     * removed there (Removed). A leaf without it gives NotFound. Otherwise
     * the search goes on in children[idx], which is first filled when it
     * holds fewer than MIN_KEYS keys; the page is then read again and idx
     * recomputed.
     */
    method DeleteRecursive(offset: int, key: Key) returns (r: Outcome)
      requires PagesValid() && offset in pages
      modifies this
      decreases height[offset], 4
      ensures PagesValid() && pages.Keys == old(pages).Keys && height == old(height)
      ensures rootOffset == old(rootOffset) && root == old(root)
      ensures r == NotFound && old(pages)[offset].isLeaf ==> pages == old(pages)
      ensures old(pages)[offset].isLeaf ==> r != Fault
      ensures forall x :: x in old(pages) && x != offset && height[x] >= height[offset] ==> pages[x] == old(pages)[x]
      ensures old(pages)[offset].numKeys == 0 ==> pages[offset] == old(pages)[offset]
      ensures old(Unshared(pages, height, offset)) ==>
                && Unshared(pages, height, offset) && Reach(pages, height, offset) <= old(Reach(pages, height, offset))
                && forall x :: x in old(pages) && x !in old(Reach(pages, height, offset)) ==> pages[x] == old(pages)[x]
      ensures r == NotFound && old(Unshared(pages, height, offset)) ==>
                PageWalk(pages, height, offset) == old(PageWalk(pages, height, offset))
      ensures r == NotFound && old(Orderly(pages, height, offset)) ==>
                Tag(key) !in Tags(old(PageWalk(pages, height, offset)))
      ensures r == Removed && old(Orderly(pages, height, offset) && NoEmptyLeaf(pages, height, offset)) ==>
                Tags(old(PageWalk(pages, height, offset))) == Tags(PageWalk(pages, height, offset)) + multiset{Tag(key)}
    {
      var node := pages[offset];
      if node.isLeaf {
        r := DeleteInLeaf(offset, key);
        return;
      }
      ghost var ordered := Ascending(PageWalk(pages, height, offset));
      if ordered {
        KeysAscending(pages, height, offset);
      }
      var idx := FindKeyIndex(node, key);
      if idx < node.numKeys && CompareKeys(node.keys[idx], key) == 0 {
        r := RemoveFromNonLeaf(offset, idx);
        return;
      }
      if ordered {
        SlotSeparates(node, idx, key);
      }
      r := DescendAndDelete(offset, idx, key);
    }

    /**
     * btree_delete_recursive at a leaf: the key is removed from the leaf
     * when it is there (Removed), and nothing changes otherwise (NotFound).
     */
    method DeleteInLeaf(offset: int, key: Key) returns (r: Outcome)
      requires PagesValid() && offset in pages && pages[offset].isLeaf
      modifies this
      ensures PagesValid() && pages.Keys == old(pages).Keys && height == old(height)
      ensures rootOffset == old(rootOffset) && root == old(root)
      ensures r != Fault
      ensures r == NotFound ==> pages == old(pages)
      ensures pages == old(pages)[offset := pages[offset]]
      ensures old(pages)[offset].numKeys == 0 ==> r == NotFound
      ensures Unshared(pages, height, offset) && Reach(pages, height, offset) == {offset} == old(Reach(pages, height, offset))
      ensures r == NotFound && old(Orderly(pages, height, offset)) ==>
                Tag(key) !in Tags(old(PageWalk(pages, height, offset)))
      ensures r == Removed && old(Orderly(pages, height, offset)) ==>
                Tags(old(PageWalk(pages, height, offset))) == Tags(PageWalk(pages, height, offset)) + multiset{Tag(key)}
    {
      ghost var p0 := pages;
      var node := pages[offset];
      ghost var ordered := Ascending(PageWalk(pages, height, offset));
      if ordered {
        KeysAscending(pages, height, offset);
      }
      var idx := FindKeyIndex(node, key);
      if idx < node.numKeys && CompareKeys(node.keys[idx], key) == 0 {
        RemoveFromLeaf(offset, idx);
        LeafRewrite(p0, pages, height, offset);
        DropTags(node, pages[offset], idx, key);
        return Removed;
      }
      LeafRewrite(p0, pages, height, offset);
      if ordered {
        SlotSeparates(node, idx, key);
        SeparatesAbsent(node, idx, key);
      }
      return NotFound;
    }

    /**
     * The descent step of btree_delete_recursive: the key is not in the
     * internal page at `offset` and belongs under children[idx]. That child
     * is filled first when it holds fewer than MIN_KEYS keys, after which the
     * page is read again and idx recomputed.
     */
    method DescendAndDelete(offset: int, idx: int, key: Key) returns (r: Outcome)
      requires PagesValid() && offset in pages && !pages[offset].isLeaf && 0 <= idx <= pages[offset].numKeys
      requires Ascending(PageWalk(pages, height, offset)) ==> Separates(pages[offset], idx, key)
      modifies this
      decreases height[offset], 3
      ensures PagesValid() && pages.Keys == old(pages).Keys && height == old(height)
      ensures rootOffset == old(rootOffset) && root == old(root)
      ensures forall x :: x in old(pages) && x != offset && height[x] >= height[offset] ==> pages[x] == old(pages)[x]
      ensures old(pages)[offset].numKeys == 0 ==> pages[offset] == old(pages)[offset]
      ensures old(Unshared(pages, height, offset)) ==>
                && Unshared(pages, height, offset) && Reach(pages, height, offset) <= old(Reach(pages, height, offset))
                && forall x :: x in old(pages) && x !in old(Reach(pages, height, offset)) ==> pages[x] == old(pages)[x]
      ensures r == NotFound && old(Unshared(pages, height, offset)) ==>
                PageWalk(pages, height, offset) == old(PageWalk(pages, height, offset))
      ensures r == NotFound && old(Orderly(pages, height, offset)) ==>
                Tag(key) !in Tags(old(PageWalk(pages, height, offset)))
      ensures r == Removed && old(Orderly(pages, height, offset) && NoEmptyLeaf(pages, height, offset)) ==>
                Tags(old(PageWalk(pages, height, offset))) == Tags(PageWalk(pages, height, offset)) + multiset{Tag(key)}
    {
      var ok, i := FillAndLocate(offset, idx, key);
      if !ok {
        return Fault;
      }
      r := DeleteInChild(offset, i, key);
    }

    /**
     * The first half of DescendAndDelete: child idx is filled when it holds
     * fewer than MIN_KEYS keys, and the slot to descend into is located
     * again. The page's walk stays as it was, and in an ordered subtree the
     * key is in that walk exactly when it is in the chosen child's walk.
     */
    method FillAndLocate(offset: int, idx: int, key: Key) returns (ok: bool, i: int)
      requires PagesValid() && offset in pages && !pages[offset].isLeaf && 0 <= idx <= pages[offset].numKeys
      requires Ascending(PageWalk(pages, height, offset)) ==> Separates(pages[offset], idx, key)
      modifies this
      ensures PagesValid() && pages.Keys == old(pages).Keys && height == old(height)
      ensures rootOffset == old(rootOffset) && root == old(root)
      ensures forall x :: x in old(pages) && x != offset && height[x] >= height[offset] ==> pages[x] == old(pages)[x]
      ensures old(pages)[offset].numKeys == 0 ==> pages[offset] == old(pages)[offset]
      ensures old(Unshared(pages, height, offset)) ==>
                && PageWalk(pages, height, offset) == old(PageWalk(pages, height, offset))
                && Unshared(pages, height, offset) && Reach(pages, height, offset) <= old(Reach(pages, height, offset))
                && forall x :: x in old(pages) && x !in old(Reach(pages, height, offset)) ==> pages[x] == old(pages)[x]
      ensures ok ==> !pages[offset].isLeaf && 0 <= i <= pages[offset].numKeys && pages[offset].children[i] in pages
      ensures ok && old(Orderly(pages, height, offset)) ==>
                var c := pages[offset].children[i];
                && Ascending(PageWalk(pages, height, c))
                && (Tag(key) in Tags(PageWalk(pages, height, offset)) <==> Tag(key) in Tags(PageWalk(pages, height, c)))
      ensures ok && old(Orderly(pages, height, offset) && NoEmptyLeaf(pages, height, offset)) ==>
                NoEmptyLeaf(pages, height, pages[offset].children[i])
    {
      ghost var p0 := pages;
      var node := pages[offset];
      ghost var h := height[offset];
      ghost var ordered := Ascending(PageWalk(pages, height, offset));
      i := idx;
      var child := pages[node.children[i]];
      assert child == ChildPage(pages, height, node, h, i);
      ChildOf(p0, height, offset, i);
      KidsInReach(p0, height, offset);
      if child.numKeys < MIN_KEYS {
        ghost var slot;
        ok, slot := FillChild(offset, i);
        if !ok {
          return;
        }
        node := pages[offset];
        var i' := FindKeyIndex(node, key);
        if ordered {
          SeparatesSlot(node, slot, i', key);
        }
        i := i';
      }
      ok := true;
      ghost var p1 := pages;
      ChildOf(p1, height, offset, i);
      if ordered && Unshared(p0, height, offset) {
        ChildAscending(p1, height, offset, i);
        SeparatedChild(p1, height, offset, i, key);
      }
    }

    /**
     * btree_remove_from_non_leaf: the key in slot idx of an internal page is
     * replaced by its predecessor when child idx has at least MIN_KEYS keys,
     * else by its successor when child idx + 1 has, and the replacement is
     * then deleted from that child; otherwise the two children are merged
     * around the key and it is deleted from the merged child. The result is
     * Removed, or Fault when the predecessor walk or the deletion below hits
     * a case the source has no behaviour for.
     */
    method RemoveFromNonLeaf(offset: int, idx: int) returns (r: Outcome)
      requires PagesValid() && offset in pages && !pages[offset].isLeaf && 0 <= idx < pages[offset].numKeys
      modifies this
      decreases height[offset], 3
      ensures PagesValid() && pages.Keys == old(pages).Keys && height == old(height)
      ensures rootOffset == old(rootOffset) && root == old(root)
      ensures r != NotFound
      ensures forall x :: x in old(pages) && x != offset && height[x] >= height[offset] ==> pages[x] == old(pages)[x]
      ensures old(Unshared(pages, height, offset)) ==>
                && Unshared(pages, height, offset) && Reach(pages, height, offset) <= old(Reach(pages, height, offset))
                && forall x :: x in old(pages) && x !in old(Reach(pages, height, offset)) ==> pages[x] == old(pages)[x]
      ensures r == Removed && old(Orderly(pages, height, offset) && NoEmptyLeaf(pages, height, offset)) ==>
                Tags(old(PageWalk(pages, height, offset))) == Tags(PageWalk(pages, height, offset)) + multiset{Tag(old(pages)[offset].keys[idx])}
    {
      var node := pages[offset];
      ghost var h := height[offset];
      var left := pages[node.children[idx]];
      assert left == ChildPage(pages, height, node, h, idx);
      var right := pages[node.children[idx + 1]];
      assert right == ChildPage(pages, height, node, h, idx + 1);
      if left.numKeys >= MIN_KEYS {
        r := RemoveWithPredecessor(offset, idx);
      } else if right.numKeys >= MIN_KEYS {
        r := RemoveWithSuccessor(offset, idx);
      } else {
        r := RemoveByMerge(offset, idx);
      }
    }

    /**
     * The first case of btree_remove_from_non_leaf: the key is replaced by
     * its predecessor, which is then deleted from child idx. A predecessor
     * walk that ends in an empty leaf gives Fault.
     */
    method RemoveWithPredecessor(offset: int, idx: int) returns (r: Outcome)
      requires PagesValid() && offset in pages && !pages[offset].isLeaf && 0 <= idx < pages[offset].numKeys
      modifies this
      decreases height[offset], 2
      ensures PagesValid() && pages.Keys == old(pages).Keys && height == old(height)
      ensures rootOffset == old(rootOffset) && root == old(root)
      ensures r != NotFound
      ensures forall x :: x in old(pages) && x != offset && height[x] >= height[offset] ==> pages[x] == old(pages)[x]
      ensures old(Unshared(pages, height, offset)) ==>
                && Unshared(pages, height, offset) && Reach(pages, height, offset) <= old(Reach(pages, height, offset))
                && forall x :: x in old(pages) && x !in old(Reach(pages, height, offset)) ==> pages[x] == old(pages)[x]
      ensures r == Removed && old(Orderly(pages, height, offset) && NoEmptyLeaf(pages, height, offset)) ==>
                Tags(old(PageWalk(pages, height, offset))) == Tags(PageWalk(pages, height, offset)) + multiset{Tag(old(pages)[offset].keys[idx])}
    {
      var pred := GetPredecessor(offset, idx);
      if pred.None? {
        return Fault;
      }
      var c := pages[offset].children[idx];
      ChildOf(pages, height, offset, idx);
      TagOf(PageWalk(pages, height, c), |PageWalk(pages, height, c)| - 1);
      var s := ReplaceAndDescend(offset, idx, pred.value, idx);
      r := if s == Fault then Fault else Removed;
    }

    /**
     * The second case of btree_remove_from_non_leaf: the key is replaced by
     * its successor, which is then deleted from child idx + 1.
     */
    method RemoveWithSuccessor(offset: int, idx: int) returns (r: Outcome)
      requires PagesValid() && offset in pages && !pages[offset].isLeaf && 0 <= idx < pages[offset].numKeys
      modifies this
      decreases height[offset], 2
      ensures PagesValid() && pages.Keys == old(pages).Keys && height == old(height)
      ensures rootOffset == old(rootOffset) && root == old(root)
      ensures r != NotFound
      ensures forall x :: x in old(pages) && x != offset && height[x] >= height[offset] ==> pages[x] == old(pages)[x]
      ensures old(Unshared(pages, height, offset)) ==>
                && Unshared(pages, height, offset) && Reach(pages, height, offset) <= old(Reach(pages, height, offset))
                && forall x :: x in old(pages) && x !in old(Reach(pages, height, offset)) ==> pages[x] == old(pages)[x]
      ensures r == Removed && old(Orderly(pages, height, offset) && NoEmptyLeaf(pages, height, offset)) ==>
                Tags(old(PageWalk(pages, height, offset))) == Tags(PageWalk(pages, height, offset)) + multiset{Tag(old(pages)[offset].keys[idx])}
    {
      var succ := GetSuccessor(offset, idx);
      ghost var filled := NoEmptyLeaf(pages, height, offset);
      ghost var ordered := Orderly(pages, height, offset);
      SuccessorInChild(pages, height, offset, idx, succ);
      var s := ReplaceAndDescend(offset, idx, succ, idx + 1);
      assert ordered && filled ==> s != NotFound;
      r := if s == Fault then Fault else Removed;
    }

    /**
     * The last case of btree_remove_from_non_leaf: both children around slot
     * idx hold fewer than MIN_KEYS keys, so they are merged around the key,
     * which is then deleted from the merged child.
     */
    method RemoveByMerge(offset: int, idx: int) returns (r: Outcome)
      requires PagesValid() && offset in pages && !pages[offset].isLeaf && 0 <= idx < pages[offset].numKeys
      requires ChildPage(pages, height, pages[offset], height[offset], idx).numKeys < MIN_KEYS
      requires ChildPage(pages, height, pages[offset], height[offset], idx + 1).numKeys < MIN_KEYS
      modifies this
      decreases height[offset], 2
      ensures PagesValid() && pages.Keys == old(pages).Keys && height == old(height)
      ensures rootOffset == old(rootOffset) && root == old(root)
      ensures r != NotFound
      ensures forall x :: x in old(pages) && x != offset && height[x] >= height[offset] ==> pages[x] == old(pages)[x]
      ensures old(Unshared(pages, height, offset)) ==>
                && Unshared(pages, height, offset) && Reach(pages, height, offset) <= old(Reach(pages, height, offset))
                && forall x :: x in old(pages) && x !in old(Reach(pages, height, offset)) ==> pages[x] == old(pages)[x]
      ensures r == Removed && old(Orderly(pages, height, offset) && NoEmptyLeaf(pages, height, offset)) ==>
                Tags(old(PageWalk(pages, height, offset))) == Tags(PageWalk(pages, height, offset)) + multiset{Tag(old(pages)[offset].keys[idx])}
    {
      var key := pages[offset].keys[idx];
      MergeAround(offset, idx);
      var s := DeleteInChild(offset, idx, key);
      r := if s == Fault then Fault else Removed;
    }

    /**
     * The merge step of RemoveByMerge: afterwards the key at slot idx sits in
     * the merged child at slot idx, and the parent's walk is what it was.
     */
    method MergeAround(offset: int, idx: int)
      requires PagesValid() && offset in pages && !pages[offset].isLeaf && 0 <= idx < pages[offset].numKeys
      requires ChildPage(pages, height, pages[offset], height[offset], idx).numKeys < MIN_KEYS
      requires ChildPage(pages, height, pages[offset], height[offset], idx + 1).numKeys < MIN_KEYS
      modifies this
      ensures PagesValid() && pages.Keys == old(pages).Keys && height == old(height)
      ensures rootOffset == old(rootOffset) && root == old(root)
      ensures offset in pages && !pages[offset].isLeaf && idx <= pages[offset].numKeys
      ensures pages[offset].children[idx] == old(pages)[offset].children[idx]
      ensures forall x :: x in old(pages) && x != offset && height[x] >= height[offset] ==> pages[x] == old(pages)[x]
      ensures old(Unshared(pages, height, offset)) ==>
                && Unshared(pages, height, offset) && Reach(pages, height, offset) <= old(Reach(pages, height, offset))
                && forall x :: x in old(pages) && x !in old(Reach(pages, height, offset)) ==> pages[x] == old(pages)[x]
      ensures var c := pages[offset].children[idx];
              old(Orderly(pages, height, offset)) ==>
                && PageWalk(pages, height, offset) == old(PageWalk(pages, height, offset))
                && Ascending(PageWalk(pages, height, c))
                && Tag(old(pages)[offset].keys[idx]) in Tags(PageWalk(pages, height, c))
      ensures old(Orderly(pages, height, offset) && NoEmptyLeaf(pages, height, offset)) ==>
                NoEmptyLeaf(pages, height, pages[offset].children[idx])
    {
      ghost var p0 := pages;
      var node := pages[offset];
      var key := node.keys[idx];
      var left := pages[node.children[idx]];
      assert left == ChildPage(pages, height, node, height[offset], idx);
      var c := node.children[idx];
      var p, c' := Merge(offset, idx);
      ghost var p1 := pages;
      ChildOf(p1, height, offset, idx);
      assert p1[c] == c' && c'.keys[left.numKeys] == LiveKeys(c')[left.numKeys] == key;
      KeyTagInWalk(p1, height, c, left.numKeys);
      assert p1[offset].children[idx] == c;
      if Orderly(p0, height, offset) {
        ChildAscending(p1, height, offset, idx);
      }
    }

    /**
     * The first two cases of btree_remove_from_non_leaf end alike: slot idx
     * of the page at `offset` is overwritten with `k` (the predecessor or the
     * successor), the page is written back, and `k` is deleted from child i.
     */
    method ReplaceAndDescend(offset: int, idx: int, k: Key, i: int) returns (r: Outcome)
      requires PagesValid() && offset in pages && !pages[offset].isLeaf && 0 <= idx < pages[offset].numKeys
      requires i == idx || i == idx + 1
      modifies this
      decreases height[offset], 1
      ensures PagesValid() && pages.Keys == old(pages).Keys && height == old(height)
      ensures rootOffset == old(rootOffset) && root == old(root)
      ensures forall x :: x in old(pages) && x != offset && height[x] >= height[offset] ==> pages[x] == old(pages)[x]
      ensures old(Unshared(pages, height, offset)) ==>
                && Unshared(pages, height, offset) && Reach(pages, height, offset) <= old(Reach(pages, height, offset))
                && forall x :: x in old(pages) && x !in old(Reach(pages, height, offset)) ==> pages[x] == old(pages)[x]
      ensures var c := old(pages)[offset].children[i];
              old(Orderly(pages, height, offset) && Tag(k) in Tags(PageWalk(pages, height, c))) ==> r != NotFound
      ensures r == Removed && old(Orderly(pages, height, offset) && NoEmptyLeaf(pages, height, offset)) ==>
                Tags(old(PageWalk(pages, height, offset))) == Tags(PageWalk(pages, height, offset)) + multiset{Tag(old(pages)[offset].keys[idx])}
    {
      ghost var p0 := pages;
      ghost var key := pages[offset].keys[idx];
      WriteSlot(offset, idx, k);
      ghost var p1 := pages;
      ChildOf(p0, height, offset, i);
      KeyWrite(p0, p1, height, offset, idx, k);
      AgreeBelow(p0, p1, height, p0[offset].children[i]);
      if Orderly(p0, height, offset) {
        ChildAscending(p0, height, offset, i);
      }
      r := DeleteInChild(offset, i, k);
      TradeTags(Tags(PageWalk(p0, height, offset)), Tags(PageWalk(p1, height, offset)), Tags(PageWalk(pages, height, offset)),
                Tag(k), Tag(key));
    }

    /** Key slot idx of the internal page at `offset` is overwritten with `k` and the page written back. */
    method WriteSlot(offset: int, idx: int, k: Key)
      requires PagesValid() && offset in pages && !pages[offset].isLeaf && 0 <= idx < pages[offset].numKeys
      modifies this
      ensures PagesValid() && height == old(height)
      ensures rootOffset == old(rootOffset) && root == old(root)
      ensures pages == old(pages)[offset := old(pages)[offset].(keys := old(pages)[offset].keys[idx := k])]
    {
      var node := pages[offset];
      node := node.(keys := node.keys[idx := k]);
      ShrinkFits(height, pages[offset], node);
      StoreOne(pages, height, node);
      pages := pages[offset := node];
    }

    /**
     * The call btree_delete_recursive(children[i], key) made by
     * btree_remove_from_non_leaf, with what it does to the page at `offset`:
     * that page is not written, and its walk changes as the child's does.
     */
    method DeleteInChild(offset: int, i: int, key: Key) returns (r: Outcome)
      requires PagesValid() && offset in pages && !pages[offset].isLeaf && 0 <= i <= pages[offset].numKeys
      modifies this
      decreases height[offset], 0
      ensures PagesValid() && pages.Keys == old(pages).Keys && height == old(height)
      ensures rootOffset == old(rootOffset) && root == old(root)
      ensures forall x :: x in old(pages) && height[x] >= height[offset] ==> pages[x] == old(pages)[x]
      ensures old(Unshared(pages, height, offset)) ==>
                && Unshared(pages, height, offset) && Reach(pages, height, offset) <= old(Reach(pages, height, offset))
                && forall x :: x in old(pages) && x !in old(Reach(pages, height, offset)) ==> pages[x] == old(pages)[x]
      ensures r == NotFound && old(Unshared(pages, height, offset)) ==>
                PageWalk(pages, height, offset) == old(PageWalk(pages, height, offset))
      ensures var c := old(pages)[offset].children[i];
              r == NotFound && old(Unshared(pages, height, offset) && Ascending(PageWalk(pages, height, c))) ==>
                Tag(key) !in Tags(old(PageWalk(pages, height, c)))
      ensures var c := old(pages)[offset].children[i];
              r == Removed && old(Unshared(pages, height, offset) && Ascending(PageWalk(pages, height, c)) && NoEmptyLeaf(pages, height, c)) ==>
                Tags(old(PageWalk(pages, height, offset))) == Tags(PageWalk(pages, height, offset)) + multiset{Tag(key)}
    {
      ghost var p0 := pages;
      var node := pages[offset];
      var next := node.children[i];
      assert pages[next] == ChildPage(pages, height, node, height[offset], i);
      ChildOf(p0, height, offset, i);
      r := DeleteRecursive(next, key);
      if Unshared(p0, height, offset) {
        StepDown(p0, pages, height, offset, i, key);
      }
    }

    /**
     * btree_delete: delete the key built from the truncated name and the
     * threshold, starting at the page at root_offset. After a removal, a
     * cached root that is internal and has no keys is replaced by its
     * children[0]: root_offset moves there and the cache is read again. The
     * test uses the cached root, which deletion never refreshes.
     */
    method Delete(name: string, threshold: int) returns (r: Outcome)
      requires Valid()
      modifies this
      ensures Valid() && pages.Keys == old(pages).Keys && height == old(height)
      ensures var collapse := r == Removed && old(root).numKeys == 0 && !old(root).isLeaf;
              && (collapse ==> rootOffset == old(root).children[0] && root == pages[rootOffset])
              && (!collapse ==> rootOffset == old(rootOffset) && root == old(root))
      ensures r == NotFound && old(Unshared(pages, height, rootOffset)) ==>
                PageWalk(pages, height, rootOffset) == old(PageWalk(pages, height, rootOffset))
      ensures r == NotFound && old(Orderly(pages, height, rootOffset)) ==>
                Tag(SearchKey(name, threshold)) !in Tags(old(PageWalk(pages, height, rootOffset)))
      ensures r == Removed && old(root == pages[rootOffset] && Orderly(pages, height, rootOffset) && NoEmptyLeaf(pages, height, rootOffset)) ==>
                Tags(old(PageWalk(pages, height, rootOffset))) == Tags(PageWalk(pages, height, rootOffset)) + multiset{Tag(SearchKey(name, threshold))}
    {
      ghost var current := root == pages[rootOffset];
      var key := SearchKey(name, threshold);
      r := DeleteRecursive(rootOffset, key);
      if r == Removed && root.numKeys == 0 && !root.isLeaf {
        assert pages[root.children[0]] == ChildPage(pages, height, root, height[rootOffset], 0);
        if current {
          LoneChild(pages, height, rootOffset);
        }
        rootOffset := root.children[0];
        root := pages[rootOffset];
      }
    }
  }
}
