/**
 * Keys and pages of the order-3 B-tree (T2/btree.h, T2/btree.c).
 *
 * A page is a fixed-size record: `keys` always has MAX_KEYS slots and
 * `children` always has ORDER slots, of which only the first `numKeys` keys
 * and (for an internal page) the first `numKeys + 1` children are live. Slots
 * past the live ones keep whatever was last written there, as in the file.
 * The methods in this module are the loops of T2/btree.c that shift keys and
 * children inside in-memory copies of pages; reading and writing pages is in
 * module BTree.
 */
module BTreeNode {

  const ORDER: int := 3
  const MAX_KEYS: int := ORDER - 1
  const MIN_KEYS: int := ORDER / 2
  const MAX_NAME_LEN: int := 50
  /** The child offset stored in every slot of a freshly created page. */
  const NO_PAGE: int := -1

  /** BTreeKey: the composite key (name, threshold) and its opaque payload. */
  datatype Key = Key(name: string, threshold: int, dataOffset: int, dataSize: nat, width: int, height: int)

  /** The content of a key slot that was never written. */
  const BLANK_KEY: Key := Key("", 0, 0, 0, 0, 0)

  /** BTreeNode: one page of the page file. */
  datatype Node = Node(isLeaf: bool, numKeys: int, children: seq<int>, keys: seq<Key>, selfOffset: int)

  predicate WellFormed(n: Node)
  {
    |n.children| == ORDER && |n.keys| == MAX_KEYS && 0 <= n.numKeys <= MAX_KEYS
  }

  /** The keys a page holds, in slot order. */
  function LiveKeys(n: Node): seq<Key>
    requires WellFormed(n)
  {
    n.keys[..n.numKeys]
  }

  /** The child offsets an internal page uses. */
  function LiveChildren(n: Node): seq<int>
    requires WellFormed(n)
  {
    n.children[..n.numKeys + 1]
  }

  /** The page that btree_create_node writes at `offset`. */
  function EmptyPage(isLeaf: bool, offset: int): (r: Node)
    ensures WellFormed(r) && r.numKeys == 0 && r.isLeaf == isLeaf && r.selfOffset == offset
    ensures forall i :: 0 <= i < ORDER ==> r.children[i] == NO_PAGE
  {
    Node(isLeaf, 0, [NO_PAGE, NO_PAGE, NO_PAGE], [BLANK_KEY, BLANK_KEY], offset)
  }

  /**
   * The name kept by `strncpy(dst, name, MAX_NAME_LEN - 1)` followed by a
   * terminator in the last slot: at most 49 characters of the name.
   */
  function TruncateName(name: string): (r: string)
    ensures |r| == if |name| < MAX_NAME_LEN - 1 then |name| else MAX_NAME_LEN - 1
    ensures r == name[..|r|]
  {
    if |name| <= MAX_NAME_LEN - 1 then name else name[..MAX_NAME_LEN - 1]
  }

  /**
   * Lexicographic order on names: at the first position where they differ
   * the character of `a` is smaller, or `a` is a proper prefix of `b`.
   */
  ghost predicate LexLess(a: string, b: string)
  {
    (exists i :: 0 <= i < |a| && i < |b| && a[..i] == b[..i] && a[i] < b[i])
    || (|a| < |b| && a == b[..|a|])
  }

  lemma LexLessCons(a: string, b: string)
    requires a != [] && b != [] && a[0] == b[0]
    ensures LexLess(a, b) <==> LexLess(a[1..], b[1..])
  {
    if LexLess(a, b) {
      LexLessDropHead(a, b);
    }
    if LexLess(a[1..], b[1..]) {
      LexLessAddHead(a, b);
    }
  }

  lemma LexLessDropHead(a: string, b: string)
    requires a != [] && b != [] && a[0] == b[0] && LexLess(a, b)
    ensures LexLess(a[1..], b[1..])
  {
    if i :| 0 <= i < |a| && i < |b| && a[..i] == b[..i] && a[i] < b[i] {
      assert i != 0;
      assert a[1..][..i - 1] == a[1..i] && b[1..][..i - 1] == b[1..i];
      assert a[1..][i - 1] < b[1..][i - 1];
    } else {
      assert |a| < |b| && a == b[..|a|];
      assert a[1..] == b[..|a|][1..] == b[1..][..|a| - 1];
    }
  }

  lemma LexLessAddHead(a: string, b: string)
    requires a != [] && b != [] && a[0] == b[0] && LexLess(a[1..], b[1..])
    ensures LexLess(a, b)
  {
    if i :| 0 <= i < |a| - 1 && i < |b| - 1 && a[1..][..i] == b[1..][..i] && a[1..][i] < b[1..][i] {
      assert a[..i + 1] == [a[0]] + a[1..][..i];
      assert b[..i + 1] == [b[0]] + b[1..][..i];
    } else {
      assert a == [a[0]] + a[1..];
      assert b[..|a|] == [b[0]] + b[1..][..|a| - 1];
    }
  }

  lemma LexLessHeads(a: string, b: string)
    requires a != [] && b != [] && a[0] != b[0]
    ensures LexLess(a, b) <==> a[0] < b[0]
  {
    if a[0] < b[0] {
      assert a[..0] == b[..0];
    }
  }

  /**
   * strcmp on names without terminators: only the sign of its result is used.
   * A name orders before every longer name it is a prefix of, because the
   * terminator is smaller than every character.
   */
  function StrCmp(a: string, b: string): (r: int)
    ensures -1 <= r <= 1
    ensures r == 0 <==> a == b
  {
    if a == [] && b == [] then 0
    else if a == [] then -1
    else if b == [] then 1
    else if a[0] < b[0] then -1
    else if a[0] > b[0] then 1
    else
      assert a == [a[0]] + a[1..] && b == [b[0]] + b[1..];
      StrCmp(a[1..], b[1..])
  }

  /** The sign of StrCmp is the lexicographic order on names. */
  lemma {:induction false} StrCmpOrder(a: string, b: string)
    ensures StrCmp(a, b) < 0 <==> LexLess(a, b)
    ensures StrCmp(a, b) > 0 <==> LexLess(b, a)
  {
    if a == [] && b == [] {
    } else if a == [] {
      assert b[..0] == a;
    } else if b == [] {
      assert a[..0] == b;
    } else if a[0] != b[0] {
      LexLessHeads(a, b);
      LexLessHeads(b, a);
    } else {
      StrCmpOrder(a[1..], b[1..]);
      LexLessCons(a, b);
      LexLessCons(b, a);
    }
  }

  /** Swapping the arguments of StrCmp negates it. */
  lemma {:induction false} StrCmpFlip(a: string, b: string)
    ensures StrCmp(a, b) == -StrCmp(b, a)
  {
    if a != [] && b != [] && a[0] == b[0] {
      StrCmpFlip(a[1..], b[1..]);
    }
  }

  /**
   * btree_compare_keys: names first, then thresholds. The threshold
   * difference is taken on unbounded integers.
   */
  function CompareKeys(a: Key, b: Key): (r: int)
    ensures r == 0 <==> a.name == b.name && a.threshold == b.threshold
  {
    var cmp := StrCmp(a.name, b.name);
    if cmp != 0 then cmp else a.threshold - b.threshold
  }

  /** Keys order by name first, and by threshold between equal names. */
  lemma CompareKeysOrder(a: Key, b: Key)
    ensures CompareKeys(a, b) < 0 <==> LexLess(a.name, b.name) || (a.name == b.name && a.threshold < b.threshold)
    ensures CompareKeys(a, b) > 0 <==> LexLess(b.name, a.name) || (a.name == b.name && a.threshold > b.threshold)
  {
    StrCmpOrder(a.name, b.name);
  }

  /** The comparison is antisymmetric in sign. */
  lemma CompareKeysFlip(a: Key, b: Key)
    ensures CompareKeys(a, b) < 0 <==> CompareKeys(b, a) > 0
    ensures CompareKeys(a, b) == 0 <==> CompareKeys(b, a) == 0
  {
    StrCmpFlip(a.name, b.name);
  }

  /** Keys in non-descending order under CompareKeys (equal keys allowed). */
  ghost predicate Ascending(s: seq<Key>)
  {
    forall i :: 0 < i < |s| ==> CompareKeys(s[i - 1], s[i]) <= 0
  }

  /** StrCmp is transitive, and strictly so when either step is strict. */
  lemma {:induction false} StrCmpTrans(a: string, b: string, c: string)
    requires StrCmp(a, b) <= 0 && StrCmp(b, c) <= 0
    ensures StrCmp(a, c) <= 0
    ensures StrCmp(a, b) < 0 || StrCmp(b, c) < 0 ==> StrCmp(a, c) < 0
  {
    if a != [] && b != [] && c != [] && a[0] == b[0] == c[0] {
      StrCmpTrans(a[1..], b[1..], c[1..]);
    }
  }

  /** CompareKeys is transitive, and strictly so when either step is strict. */
  lemma CompareKeysTrans(a: Key, b: Key, c: Key)
    requires CompareKeys(a, b) <= 0 && CompareKeys(b, c) <= 0
    ensures CompareKeys(a, c) <= 0
    ensures CompareKeys(a, b) < 0 || CompareKeys(b, c) < 0 ==> CompareKeys(a, c) < 0
  {
    StrCmpTrans(a.name, b.name, c.name);
  }

  /** In an ascending sequence every key is at most every later key. */
  lemma {:induction false} AscendingPair(s: seq<Key>, i: int, j: int)
    requires Ascending(s) && 0 <= i <= j < |s|
    ensures CompareKeys(s[i], s[j]) <= 0
    decreases j - i
  {
    if i < j {
      AscendingPair(s, i, j - 1);
      CompareKeysTrans(s[i], s[j - 1], s[j]);
    }
  }

  /** The part of a key that btree_compare_keys looks at. */
  function Tag(k: Key): (string, int)
  {
    (k.name, k.threshold)
  }

  /** The tag of each key of a sequence, in order. */
  function TagSeq(s: seq<Key>): (r: seq<(string, int)>)
    ensures |r| == |s| && forall j :: 0 <= j < |s| ==> r[j] == Tag(s[j])
  {
    seq(|s|, j requires 0 <= j < |s| => Tag(s[j]))
  }

  /** The tags of a key sequence, counted with multiplicity. */
  function Tags(s: seq<Key>): multiset<(string, int)>
  {
    multiset(TagSeq(s))
  }

  lemma TagsConcat(a: seq<Key>, b: seq<Key>)
    ensures Tags(a + b) == Tags(a) + Tags(b)
  {
    assert TagSeq(a + b) == TagSeq(a) + TagSeq(b);
  }

  /** A tag occurs in a key sequence exactly when some key there compares equal to a key with that tag. */
  lemma TagsHas(s: seq<Key>, k: Key)
    ensures Tag(k) in Tags(s) <==> exists j :: 0 <= j < |s| && CompareKeys(s[j], k) == 0
  {
    if Tag(k) in Tags(s) {
      var j :| 0 <= j < |s| && TagSeq(s)[j] == Tag(k);
      assert CompareKeys(s[j], k) == 0;
    }
    if j :| 0 <= j < |s| && CompareKeys(s[j], k) == 0 {
      assert TagSeq(s)[j] == Tag(k);
    }
  }

  /** Replacing one key changes the tags by that key's tag. */
  lemma TagsUpdate(s: seq<Key>, i: int, k: Key)
    requires 0 <= i < |s|
    ensures Tags(s[i := k]) + multiset{Tag(s[i])} == Tags(s) + multiset{Tag(k)}
  {
    assert TagSeq(s[i := k]) == TagSeq(s)[i := Tag(k)];
  }



  /**
   * btree_find_key_index: the first slot whose key does not compare below
   * the target, or numKeys when every key does.
   */
  method FindKeyIndex(n: Node, key: Key) returns (idx: int)
    requires WellFormed(n)
    ensures 0 <= idx <= n.numKeys
    ensures forall j :: 0 <= j < idx ==> CompareKeys(n.keys[j], key) < 0
    ensures idx < n.numKeys ==> CompareKeys(n.keys[idx], key) >= 0
  {
    idx := 0;
    while idx < n.numKeys && CompareKeys(n.keys[idx], key) < 0
      invariant 0 <= idx <= n.numKeys
      invariant forall j :: 0 <= j < idx ==> CompareKeys(n.keys[j], key) < 0
    {
      idx := idx + 1;
    }
  }

  /** Inserting `key` at `pos` keeps an ascending sequence ascending. */
  lemma {:induction false} InsertAtAscending(s: seq<Key>, pos: int, key: Key)
    requires Ascending(s) && 0 <= pos <= |s|
    requires pos < |s| ==> CompareKeys(key, s[pos]) < 0
    requires pos > 0 ==> CompareKeys(key, s[pos - 1]) >= 0
    ensures Ascending(s[..pos] + [key] + s[pos..])
  {
    var t := s[..pos] + [key] + s[pos..];
    forall i | 0 < i < |t|
      ensures CompareKeys(t[i - 1], t[i]) <= 0
    {
      if i < pos {
        assert t[i - 1] == s[i - 1] && t[i] == s[i];
      } else if i == pos {
        CompareKeysFlip(key, s[pos - 1]);
      } else if i == pos + 1 {
        assert t[i] == s[pos];
      } else {
        assert t[i - 1] == s[i - 2] && t[i] == s[i - 1];
      }
    }
  }

  /**
   * The leaf branch of btree_insert_non_full: shift the keys that compare
   * above `key` one slot right and put `key` in the gap. `pos` is the slot
   * the key lands in: after every key it does not compare below, so after
   * equal keys. Duplicates are not rejected.
   */
  method LeafInsert(n: Node, key: Key) returns (r: Node, ghost pos: int)
    requires WellFormed(n) && n.numKeys < MAX_KEYS
    ensures WellFormed(r)
    ensures r.isLeaf == n.isLeaf && r.children == n.children && r.selfOffset == n.selfOffset
    ensures r.numKeys == n.numKeys + 1
    ensures 0 <= pos <= n.numKeys
    ensures LiveKeys(r) == n.keys[..pos] + [key] + n.keys[pos..n.numKeys]
    ensures forall j :: pos <= j < n.numKeys ==> CompareKeys(key, n.keys[j]) < 0
    ensures pos > 0 ==> CompareKeys(key, n.keys[pos - 1]) >= 0
    ensures Ascending(LiveKeys(n)) ==> Ascending(LiveKeys(r))
  {
    var ks := n.keys;
    var i := n.numKeys - 1;
    while i >= 0 && CompareKeys(key, ks[i]) < 0
      invariant -1 <= i < n.numKeys
      invariant |ks| == MAX_KEYS
      invariant forall j :: 0 <= j <= i ==> ks[j] == n.keys[j]
      invariant forall j :: i + 1 < j <= n.numKeys ==> ks[j] == n.keys[j - 1]
      invariant forall j :: i < j < n.numKeys ==> CompareKeys(key, n.keys[j]) < 0
    {
      ks := ks[i + 1 := ks[i]];
      i := i - 1;
    }
    ks := ks[i + 1 := key];
    r := n.(keys := ks, numKeys := n.numKeys + 1);
    pos := i + 1;
    assert LiveKeys(r) == n.keys[..pos] + [key] + n.keys[pos..n.numKeys];
    if Ascending(LiveKeys(n)) {
      assert LiveKeys(n)[..pos] == n.keys[..pos] && LiveKeys(n)[pos..] == n.keys[pos..n.numKeys];
      InsertAtAscending(LiveKeys(n), pos, key);
    }
  }

  /**
   * The shifting part of btree_split_child. `sibling` is the page just
   * created for the upper half. The child keeps its lower MIN_KEYS keys; the
   * sibling receives the keys from slot ORDER/2 on and, for an internal
   * child, the children from slot ORDER/2 on; the key in slot MIN_KEYS is
   * copied into the parent at `index` and the sibling's offset into
   * children[index + 1]. With ORDER = 3 the raised key therefore also stays
   * as the sibling's first key, and an internal child's children[1] stays
   * live in both halves.
   */
  method SplitNodes(parent: Node, index: int, child: Node, sibling: Node)
    returns (parent': Node, child': Node, sibling': Node)
    requires WellFormed(parent) && WellFormed(child) && WellFormed(sibling)
    requires parent.numKeys < MAX_KEYS && 0 <= index <= parent.numKeys
    requires child.numKeys == MAX_KEYS
    ensures WellFormed(parent') && WellFormed(child') && WellFormed(sibling')
    ensures child' == child.(numKeys := MIN_KEYS)
    ensures sibling'.isLeaf == sibling.isLeaf && sibling'.selfOffset == sibling.selfOffset
    ensures sibling'.numKeys == MIN_KEYS
    ensures LiveKeys(sibling') == child.keys[ORDER / 2..ORDER / 2 + MIN_KEYS]
    ensures !child.isLeaf ==> LiveChildren(sibling') == child.children[ORDER / 2..ORDER / 2 + MIN_KEYS + 1]
    ensures child.isLeaf ==> sibling'.children == sibling.children
    ensures parent'.isLeaf == parent.isLeaf && parent'.selfOffset == parent.selfOffset
    ensures parent'.numKeys == parent.numKeys + 1
    ensures LiveKeys(parent') == parent.keys[..index] + [child.keys[MIN_KEYS]] + parent.keys[index..parent.numKeys]
    ensures LiveChildren(parent') == parent.children[..index + 1] + [sibling.selfOffset] + parent.children[index + 1..parent.numKeys + 1]
    ensures parent'.keys[index] == sibling'.keys[0] == child.keys[MIN_KEYS]
    ensures parent'.children[index + 1] == sibling.selfOffset
    ensures forall m :: 0 <= m <= index ==> parent'.children[m] == parent.children[m]
    ensures !child.isLeaf ==> LiveChildren(child')[MIN_KEYS] == LiveChildren(sibling')[0]
  {
    var sk := CopyFrom(sibling.keys, child.keys, ORDER / 2, MIN_KEYS);
    var sc := sibling.children;
    if !child.isLeaf {
      sc := CopyFrom(sibling.children, child.children, ORDER / 2, MIN_KEYS + 1);
    }
    sibling' := sibling.(numKeys := MIN_KEYS, keys := sk, children := sc);
    child' := child.(numKeys := MIN_KEYS);
    assert LiveKeys(sibling') == child.keys[ORDER / 2..ORDER / 2 + MIN_KEYS];

    var pc := OpenSlot(parent.children, index + 1, parent.numKeys + 1);
    pc := pc[index + 1 := sibling.selfOffset];
    var pk := OpenSlot(parent.keys, index, parent.numKeys);
    pk := pk[index := child.keys[MIN_KEYS]];
    parent' := parent.(children := pc, keys := pk, numKeys := parent.numKeys + 1);
    ShiftedUp(pk, parent.keys, index, child.keys[MIN_KEYS], parent.numKeys + 1);
    ShiftedUp(pc, parent.children, index + 1, sibling.selfOffset, parent.numKeys + 2);
  }

  /** The first `count` elements of `dst` overwritten with src[from..from + count]. */
  method CopyFrom<T>(dst: seq<T>, src: seq<T>, from: int, count: int) returns (r: seq<T>)
    requires 0 <= count <= |dst| && 0 <= from && from + count <= |src|
    ensures |r| == |dst| && r[..count] == src[from..from + count]
    ensures r[count..] == dst[count..]
  {
    r := dst;
    for j := 0 to count
      invariant |r| == |dst| && r[count..] == dst[count..]
      invariant forall m :: 0 <= m < j ==> r[m] == src[m + from]
    {
      r := r[j := src[j + from]];
    }
  }

  /**
   * Shift s[at..count] one place up, from the top down, opening slot `at`;
   * slot `at` keeps its old value until the caller overwrites it.
   */
  method OpenSlot<T>(s: seq<T>, at: int, count: int) returns (r: seq<T>)
    requires 0 <= at <= count < |s|
    ensures |r| == |s|
    ensures forall m :: 0 <= m <= at ==> r[m] == s[m]
    ensures forall m :: at < m <= count ==> r[m] == s[m - 1]
  {
    r := s;
    var j := count - 1;
    while j >= at
      invariant at - 1 <= j <= count - 1 && |r| == |s|
      invariant forall m :: 0 <= m <= j || 0 <= m <= at ==> r[m] == s[m]
      invariant forall m :: j + 1 < m <= count ==> r[m] == s[m - 1]
    {
      r := r[j + 1 := r[j]];
      j := j - 1;
    }
  }

  /**
   * Shift s[at + 1..count] one place down, from the bottom up, closing slot
   * `at`; slot count - 1 keeps its old value.
   */
  method CloseSlot<T>(s: seq<T>, at: int, count: int) returns (r: seq<T>)
    requires 0 <= at < count <= |s|
    ensures |r| == |s|
    ensures forall m :: 0 <= m < at ==> r[m] == s[m]
    ensures forall m :: at <= m < count - 1 ==> r[m] == s[m + 1]
    ensures forall m :: count - 1 <= m < |s| ==> r[m] == s[m]
  {
    r := s;
    for i := at + 1 to count
      invariant |r| == |s|
      invariant forall m :: 0 <= m < at ==> r[m] == s[m]
      invariant forall m :: at <= m < i - 1 ==> r[m] == s[m + 1]
      invariant forall m :: i - 1 <= m < |s| ==> r[m] == s[m]
    {
      r := r[i - 1 := r[i]];
    }
  }

  /** `s` holds `orig` with `x` inserted at `at`, as far as its first `len` elements go. */
  lemma ShiftedUp<T>(s: seq<T>, orig: seq<T>, at: int, x: T, len: int)
    requires 0 <= at < len <= |s| && len - 1 <= |orig|
    requires forall m :: 0 <= m < at ==> s[m] == orig[m]
    requires s[at] == x
    requires forall m :: at < m < len ==> s[m] == orig[m - 1]
    ensures s[..len] == orig[..at] + [x] + orig[at..len - 1]
  {
    var r := orig[..at] + [x] + orig[at..len - 1];
    assert |r| == len;
    forall m | 0 <= m < len ensures s[m] == r[m] {
      if m < at {
      } else if m == at {
      } else {
        assert r[m] == orig[at..len - 1][m - at - 1];
      }
    }
  }

  /** The shifting part of btree_remove_from_leaf: drop the key in slot `idx`. */
  method LeafRemove(n: Node, idx: int) returns (r: Node)
    requires WellFormed(n) && 0 <= idx < n.numKeys
    ensures WellFormed(r)
    ensures r.isLeaf == n.isLeaf && r.children == n.children && r.selfOffset == n.selfOffset
    ensures r.numKeys == n.numKeys - 1
    ensures LiveKeys(r) == n.keys[..idx] + n.keys[idx + 1..n.numKeys]
  {
    var ks := CloseSlot(n.keys, idx, n.numKeys);
    r := n.(keys := ks, numKeys := n.numKeys - 1);
    assert LiveKeys(r) == n.keys[..idx] + n.keys[idx + 1..n.numKeys];
  }

  /**
   * The shifting part of btree_borrow_from_prev: the separator
   * parent.keys[idx - 1] moves down to the front of the child and the left
   * sibling's last key moves up in its place; an internal child also takes
   * the left sibling's last live child. The in-order sequence
   * left ++ [separator] ++ child is unchanged.
   */
  method BorrowFromPrevNodes(parent: Node, idx: int, child: Node, left: Node)
    returns (parent': Node, child': Node, left': Node)
    requires WellFormed(parent) && WellFormed(child) && WellFormed(left)
    requires 1 <= idx <= parent.numKeys
    requires child.numKeys < MAX_KEYS && left.numKeys >= 1
    ensures WellFormed(parent') && WellFormed(child') && WellFormed(left')
    ensures parent' == parent.(keys := parent.keys[idx - 1 := left.keys[left.numKeys - 1]])
    ensures left' == left.(numKeys := left.numKeys - 1)
    ensures child'.isLeaf == child.isLeaf && child'.selfOffset == child.selfOffset
    ensures child'.numKeys == child.numKeys + 1
    ensures LiveKeys(child') == [parent.keys[idx - 1]] + LiveKeys(child)
    ensures !child.isLeaf ==> LiveChildren(child') == [left.children[left.numKeys]] + LiveChildren(child)
    ensures child.isLeaf ==> child'.children == child.children
    ensures LiveKeys(left') + [parent'.keys[idx - 1]] + LiveKeys(child')
         == LiveKeys(left) + [parent.keys[idx - 1]] + LiveKeys(child)
  {
    var ks := child.keys;
    var i := child.numKeys - 1;
    while i >= 0
      invariant -1 <= i <= child.numKeys - 1
      invariant |ks| == MAX_KEYS
      invariant forall m :: 0 <= m <= i ==> ks[m] == child.keys[m]
      invariant forall m :: i + 1 < m <= child.numKeys ==> ks[m] == child.keys[m - 1]
    {
      ks := ks[i + 1 := ks[i]];
      i := i - 1;
    }
    var cs := child.children;
    if !child.isLeaf {
      i := child.numKeys;
      while i >= 0
        invariant -1 <= i <= child.numKeys
        invariant |cs| == ORDER
        invariant forall m :: 0 <= m <= i ==> cs[m] == child.children[m]
        invariant forall m :: i + 1 < m <= child.numKeys + 1 ==> cs[m] == child.children[m - 1]
      {
        cs := cs[i + 1 := cs[i]];
        i := i - 1;
      }
    }
    ks := ks[0 := parent.keys[idx - 1]];
    if !child.isLeaf {
      cs := cs[0 := left.children[left.numKeys]];
    }
    child' := child.(keys := ks, children := cs, numKeys := child.numKeys + 1);
    parent' := parent.(keys := parent.keys[idx - 1 := left.keys[left.numKeys - 1]]);
    left' := left.(numKeys := left.numKeys - 1);
    assert LiveKeys(child') == [parent.keys[idx - 1]] + LiveKeys(child);
    assert !child.isLeaf ==> LiveChildren(child') == [left.children[left.numKeys]] + LiveChildren(child);
    assert LiveKeys(left) == LiveKeys(left') + [left.keys[left.numKeys - 1]];
  }

  /**
   * The shifting part of btree_borrow_from_next: the separator
   * parent.keys[idx] moves down to the end of the child and the right
   * sibling's first key moves up in its place; an internal child also takes
   * the right sibling's first child. The in-order sequence
   * child ++ [separator] ++ right is unchanged.
   */
  method BorrowFromNextNodes(parent: Node, idx: int, child: Node, right: Node)
    returns (parent': Node, child': Node, right': Node)
    requires WellFormed(parent) && WellFormed(child) && WellFormed(right)
    requires 0 <= idx < parent.numKeys
    requires child.numKeys < MAX_KEYS && right.numKeys >= 1
    ensures WellFormed(parent') && WellFormed(child') && WellFormed(right')
    ensures parent' == parent.(keys := parent.keys[idx := right.keys[0]])
    ensures child'.isLeaf == child.isLeaf && child'.selfOffset == child.selfOffset
    ensures child'.numKeys == child.numKeys + 1
    ensures LiveKeys(child') == LiveKeys(child) + [parent.keys[idx]]
    ensures !child.isLeaf ==> LiveChildren(child') == LiveChildren(child) + [right.children[0]]
    ensures child.isLeaf ==> child'.children == child.children
    ensures right'.isLeaf == right.isLeaf && right'.selfOffset == right.selfOffset
    ensures right'.numKeys == right.numKeys - 1
    ensures LiveKeys(right') == right.keys[1..right.numKeys]
    ensures !right.isLeaf ==> LiveChildren(right') == right.children[1..right.numKeys + 1]
    ensures right.isLeaf ==> right'.children == right.children
    ensures LiveKeys(child') + [parent'.keys[idx]] + LiveKeys(right')
         == LiveKeys(child) + [parent.keys[idx]] + LiveKeys(right)
  {
    var ks := child.keys[child.numKeys := parent.keys[idx]];
    var cs := child.children;
    if !child.isLeaf {
      cs := cs[child.numKeys + 1 := right.children[0]];
    }
    child' := child.(keys := ks, children := cs, numKeys := child.numKeys + 1);
    parent' := parent.(keys := parent.keys[idx := right.keys[0]]);

    var rk := CloseSlot(right.keys, 0, right.numKeys);
    var rc := right.children;
    if !right.isLeaf {
      rc := CloseSlot(rc, 0, right.numKeys + 1);
    }
    right' := right.(keys := rk, children := rc, numKeys := right.numKeys - 1);
    assert LiveKeys(child') == LiveKeys(child) + [parent.keys[idx]];
    assert !child.isLeaf ==> LiveChildren(child') == LiveChildren(child) + [right.children[0]];
    assert LiveKeys(right') == right.keys[1..right.numKeys];
    assert !right.isLeaf ==> LiveChildren(right') == right.children[1..right.numKeys + 1];
    assert LiveKeys(right) == [right.keys[0]] + LiveKeys(right');
  }

  /**
   * The shifting part of btree_merge. The separator is written into slot
   * MIN_KEYS - 1 of the child and the right sibling's keys (and children)
   * after it, which is only correct when the child holds MIN_KEYS - 1 keys;
   * that is required here. The parent loses the separator and
   * children[idx + 1]. The merged child holds child ++ [separator] ++ right.
   */
  method MergeNodes(parent: Node, idx: int, child: Node, right: Node)
    returns (parent': Node, child': Node)
    requires WellFormed(parent) && WellFormed(child) && WellFormed(right)
    requires 0 <= idx < parent.numKeys
    requires child.numKeys == MIN_KEYS - 1
    requires right.numKeys <= MAX_KEYS - MIN_KEYS
    ensures WellFormed(parent') && WellFormed(child')
    ensures child'.isLeaf == child.isLeaf && child'.selfOffset == child.selfOffset
    ensures child'.numKeys == child.numKeys + right.numKeys + 1
    ensures LiveKeys(child') == LiveKeys(child) + [parent.keys[idx]] + LiveKeys(right)
    ensures !child.isLeaf ==> LiveChildren(child') == LiveChildren(child) + LiveChildren(right)
    ensures child.isLeaf ==> child'.children == child.children
    ensures parent'.isLeaf == parent.isLeaf && parent'.selfOffset == parent.selfOffset
    ensures parent'.numKeys == parent.numKeys - 1
    ensures LiveKeys(parent') == parent.keys[..idx] + parent.keys[idx + 1..parent.numKeys]
    ensures LiveChildren(parent') == parent.children[..idx + 1] + parent.children[idx + 2..parent.numKeys + 1]
  {
    var ks := child.keys[MIN_KEYS - 1 := parent.keys[idx]];
    for i := 0 to right.numKeys
      invariant |ks| == MAX_KEYS
      invariant ks[MIN_KEYS - 1] == parent.keys[idx]
      invariant forall m :: 0 <= m < i ==> ks[m + MIN_KEYS] == right.keys[m]
    {
      ks := ks[i + MIN_KEYS := right.keys[i]];
    }
    var cs := child.children;
    if !child.isLeaf {
      for i := 0 to right.numKeys + 1
        invariant |cs| == ORDER
        invariant cs[0] == child.children[0]
        invariant forall m :: 0 <= m < i ==> cs[m + MIN_KEYS] == right.children[m]
      {
        cs := cs[i + MIN_KEYS := right.children[i]];
      }
    }

    var pk := CloseSlot(parent.keys, idx, parent.numKeys);
    var pc := CloseSlot(parent.children, idx + 1, parent.numKeys + 1);

    child' := child.(keys := ks, children := cs, numKeys := child.numKeys + right.numKeys + 1);
    parent' := parent.(keys := pk, children := pc, numKeys := parent.numKeys - 1);
    assert LiveKeys(child') == LiveKeys(child) + [parent.keys[idx]] + LiveKeys(right);
    assert !child.isLeaf ==> LiveChildren(child') == LiveChildren(child) + LiveChildren(right);
    assert LiveKeys(parent') == parent.keys[..idx] + parent.keys[idx + 1..parent.numKeys];
    assert LiveChildren(parent') == parent.children[..idx + 1] + parent.children[idx + 2..parent.numKeys + 1];
  }
}
