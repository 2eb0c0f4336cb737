/**
 * The user-id index: an order-5 B-tree from a 32-bit user id to the
 * position of that user's record.  The tree is the node value held by the
 * `root` field of class `BTree`; the in-order `Entries` of that node (module
 * BTreeView) are the tree's contents, and every operation is proved against
 * them.
 */
module BTreeIndex {
  import opened Common
  import opened BTreeView

  /**
   * The subtree at `n` is a B-tree of height `h`: at most `MaxKeys` items,
   * leaves exactly at depth `h`, one more child than items in every internal
   * node, and at least one item in every node below the root.
   */
  ghost predicate WF(n: BNode, h: nat)
    decreases n
  {
    && |n.items| <= MaxKeys
    && (n.isLeaf <==> h == 0)
    && (if h == 0 then n.children == [] else |n.children| == |n.items| + 1)
    && forall k :: 0 <= k < |n.children| ==> 1 <= |n.children[k].items| && WF(n.children[k], h - 1)
  }

  // ----- splitting a full child -----

  /**
   * Splitting the full child `index` of a non-full B-tree node keeps it a
   * B-tree of the same height with one item more, leaves `Mid` items in the
   * old child and `MaxKeys - Mid - 1` in the new one, and neither adds,
   * drops nor reorders an entry.
   */
  lemma SplitChildCorrect(parent: BNode, index: nat, h: nat)
    requires h > 0 && WF(parent, h) && |parent.items| < MaxKeys
    requires index < |parent.children| && |parent.children[index].items| == MaxKeys
    ensures SplittableChild(parent, index)
    ensures WF(SplitTree(parent, index), h)
    ensures Entries(SplitTree(parent, index)) == Entries(parent)
    ensures |SplitTree(parent, index).items| == |parent.items| + 1
    ensures |SplitTree(parent, index).children[index].items| == Mid
    ensures |SplitTree(parent, index).children[index + 1].items| == MaxKeys - Mid - 1
  {
    assert WF(parent.children[index], h - 1);
    SplitTreeEntries(parent, index);
    SplitKeepsShape(parent, index, h);
  }

  /** The shape half of `SplitChildCorrect`. */
  lemma SplitKeepsShape(parent: BNode, index: nat, h: nat)
    requires h > 0 && WF(parent, h) && |parent.items| < MaxKeys
    requires index < |parent.children| && |parent.children[index].items| == MaxKeys
    requires WF(parent.children[index], h - 1)
    ensures SplittableChild(parent, index)
    ensures WF(SplitTree(parent, index), h)
  {
    var full := parent.children[index];
    HalvesWF(full, h - 1);
    var r := SplitTree(parent, index);
    SplitTreeShape(parent, index, r);
    forall k | 0 <= k < |r.children|
      ensures 1 <= |r.children[k].items| && WF(r.children[k], h - 1)
    {
      if k > index + 1 {
        assert r.children[k] == parent.children[k - 1];
      }
    }
  }

  /** Both halves of a full B-tree node are B-trees of the same height with at least one item. */
  lemma HalvesWF(full: BNode, h: nat)
    requires WF(full, h) && |full.items| == MaxKeys
    ensures Full(full)
    ensures WF(LeftHalf(full), h) && 1 <= |LeftHalf(full).items|
    ensures WF(RightHalf(full), h) && 1 <= |RightHalf(full).items|
  {
  }

  // ----- insertion -----

  /**
   * Insertion into a leaf's items: append a slot, shift every item whose key
   * is greater than `e.key` one place right from the end, and write `e` into
   * the gap at `pos`.
   */
  method ShiftInsert(items: seq<Entry>, e: Entry) returns (its: seq<Entry>, pos: nat)
    ensures pos <= |items|
    ensures its == items[..pos] + [e] + items[pos..]
    ensures pos > 0 ==> items[pos - 1].key <= e.key
    ensures forall m :: pos <= m < |items| ==> e.key < items[m].key
  {
    var i: int := |items| - 1;
    its := items + [Entry(0, 0)];
    while i >= 0 && e.key < its[i].key
      invariant -1 <= i < |items| && |its| == |items| + 1
      invariant forall m :: 0 <= m <= i ==> its[m] == items[m]
      invariant forall m :: i + 2 <= m <= |items| ==> its[m] == items[m - 1]
      invariant forall m :: i + 1 <= m < |items| ==> e.key < items[m].key
      decreases i
    {
      its := its[i + 1 := its[i]];
      i := i - 1;
    }
    its := its[i + 1 := e];
    pos := i + 1;
    InsertedAt(items, its, pos, e);
  }

  /** The leaf `n` with `e` inserted at `pos` stays a sorted leaf and holds one entry more. */
  lemma LeafInserted(n: BNode, h: nat, its: seq<Entry>, pos: nat, e: Entry)
    requires WF(n, h) && n.isLeaf && Sorted(Entries(n)) && |n.items| < MaxKeys && pos <= |n.items|
    requires pos > 0 ==> n.items[pos - 1].key <= e.key
    requires forall m :: pos <= m < |n.items| ==> e.key < n.items[m].key
    requires its == n.items[..pos] + [e] + n.items[pos..]
    ensures WF(n.(items := its), h) && Sorted(Entries(n.(items := its)))
    ensures multiset(Entries(n.(items := its))) == multiset(Entries(n)) + multiset{e}
  {
    SortedInsertAt(n.items, pos, e);
    MultisetInsertAt(n.items, pos, e);
  }

  /**
   * The child an insertion descends into: scanning from the last key down,
   * the position after the last key not greater than `key`.
   */
  method ChildIndex(items: seq<Entry>, key: Key) returns (j: nat)
    ensures j <= |items|
    ensures j > 0 ==> items[j - 1].key <= key
    ensures forall m :: j <= m < |items| ==> key < items[m].key
  {
    var i: int := |items| - 1;
    while i >= 0 && key < items[i].key
      invariant -1 <= i < |items|
      invariant forall m :: i + 1 <= m < |items| ==> key < items[m].key
      decreases i
    {
      i := i - 1;
    }
    j := i + 1;
  }

  /**
   * The node `n` and child `j` an insertion of `key` below `node` goes on
   * with: a sorted B-tree of the same height holding the same entries as
   * `node`, a child with room for one more item, and `key` between the
   * separators around that child.
   */
  ghost predicate DescentReady(node: BNode, n: BNode, h: nat, j: nat, key: Key)
  {
    && WF(n, h) && Sorted(Entries(n)) && Entries(n) == Entries(node)
    && |node.items| <= |n.items|
    && j < |n.children| && |n.children[j].items| < MaxKeys
    && (j > 0 ==> n.items[j - 1].key <= key)
    && (j < |n.items| ==> key <= n.items[j].key)
  }

  /** When child `j` has room, the insertion goes on into it unchanged. */
  lemma DescendWithoutSplit(node: BNode, h: nat, j: nat, key: Key)
    requires WF(node, h) && Sorted(Entries(node)) && !node.isLeaf
    requires j <= |node.items| && (j > 0 ==> node.items[j - 1].key <= key)
    requires forall m :: j <= m < |node.items| ==> key < node.items[m].key
    requires j < |node.children| ==> |node.children[j].items| != MaxKeys
    ensures DescentReady(node, node, h, j, key)
  {
    assert WF(node.children[j], h - 1);
  }

  /**
   * Replacing child `j` of a sorted node, on the path the keys select for
   * `e`, by a sorted subtree holding one entry `e` more keeps the node a
   * sorted B-tree holding one entry `e` more.
   */
  lemma ReplaceGrownChild(n: BNode, h: nat, j: nat, c: BNode, r: BNode, e: Entry)
    requires h > 0 && WF(n, h) && Sorted(Entries(n)) && j < |n.children|
    requires j > 0 ==> n.items[j - 1].key <= e.key
    requires j < |n.items| ==> e.key <= n.items[j].key
    requires WF(c, h - 1) && Sorted(Entries(c)) && |n.children[j].items| <= |c.items|
    requires multiset(Entries(c)) == multiset(Entries(n.children[j])) + multiset{e}
    requires r == n.(children := n.children[j := c])
    ensures WF(r, h) && Sorted(Entries(r))
    ensures multiset(Entries(r)) == multiset(Entries(n)) + multiset{e}
  {
    InsertBelowChild(n, j, c, e);
    assert WF(n.children[j], h - 1);
  }

  /** The child search or insertion descends into is a sorted subtree of the sorted node `n`. */
  lemma ChildOfSorted(n: BNode, h: nat, j: nat)
    requires WF(n, h) && Sorted(Entries(n)) && j < |n.children|
    ensures h > 0 && WF(n.children[j], h - 1) && Sorted(Entries(n.children[j]))
  {
    ChildSorted(n, j);
  }

  /** A new root above a non-empty subtree: one child, no item, the same contents. */
  lemma NewRoot(r: BNode, h: nat)
    requires WF(r, h) && 1 <= |r.items|
    ensures WF(BNode(false, [], [r]), h + 1)
    ensures Entries(BNode(false, [], [r])) == Entries(r)
  {
    SingleChild(r);
  }

  // ----- search -----

  /** An item of a node is one of the node's entries. */
  lemma FoundInNode(n: BNode, h: nat, j: nat)
    requires WF(n, h) && j < |n.items|
    ensures n.items[j] in Entries(n)
  {
    if h > 0 {
      ItemInEntries(n, j);
    }
  }

  /** A sorted leaf whose keys skip over `key` at `j` holds no entry with key `key`. */
  lemma NotInLeaf(n: BNode, j: nat, key: Key)
    requires WF(n, 0) && Sorted(Entries(n)) && j <= |n.items|
    requires forall m :: 0 <= m < j ==> n.items[m].key < key
    requires j < |n.items| ==> key < n.items[j].key
    ensures !HasKey(Entries(n), key)
  {
    SortedGap(n.items, j, key);
  }

  /**
   * In a sorted internal node whose keys skip over `key` at `j`, the entries
   * with key `key` are exactly those of child `j`.
   */
  lemma DescendInSearch(n: BNode, h: nat, j: nat, key: Key)
    requires WF(n, h) && Sorted(Entries(n)) && !n.isLeaf && j <= |n.items|
    requires forall m :: 0 <= m < j ==> n.items[m].key < key
    requires j < |n.items| ==> key < n.items[j].key
    ensures h > 0 && j < |n.children|
    ensures WF(n.children[j], h - 1) && Sorted(Entries(n.children[j]))
    ensures forall v :: Entry(key, v) in Entries(n) <==> Entry(key, v) in Entries(n.children[j])
    ensures HasKey(Entries(n), key) <==> HasKey(Entries(n.children[j]), key)
  {
    ChildSorted(n, j);
    HasKeyInChild(n, j, key);
    forall v ensures Entry(key, v) in Entries(n) <==> Entry(key, v) in Entries(n.children[j]) {
      KeyInChild(n, j, key, v);
    }
  }

  /**
   * After inserting `(k, v)` into contents that held no entry with key `k`,
   * the only entry with key `k` is `(k, v)`: a search for `k` finds `v`.
   */
  lemma FreshKeyFound(es: seq<Entry>, es': seq<Entry>, k: Key, v: int)
    requires !HasKey(es, k)
    requires multiset(es') == multiset(es) + multiset{Entry(k, v)}
    ensures HasKey(es', k)
    ensures forall w :: Entry(k, w) in es' ==> w == v
  {
    assert Entry(k, v) in multiset(es');
    forall w | Entry(k, w) in es' ensures w == v {
      assert Entry(k, w) !in es;
      assert multiset(es')[Entry(k, w)] == multiset(es)[Entry(k, w)] + multiset{Entry(k, v)}[Entry(k, w)];
    }
  }

  /**
   * The index as a whole: the root node and, for the proofs, the height of
   * the tree.  The order is fixed at 5, the only order the system uses.
   */
  class BTree {
    var root: BNode
    ghost var height: nat

    /** The entries the index holds, in key order. */
    ghost function Contents(): seq<Entry>
      reads this
    {
      Entries(root)
    }

    /** The tree is a B-tree of height `height` whose contents are in key order. */
    ghost predicate Valid()
      reads this
    {
      WF(root, height) && Sorted(Entries(root))
    }

    /** A tree of order 5 whose root is an empty leaf. */
    constructor ()
      ensures Valid() && Contents() == [] && height == 0
    {
      root := BNode(true, [], []);
      height := 0;
    }

    /**
     * Insert `(key, value)`.  A full root first goes below a new empty root
     * and is split, which is the only way the tree grows taller.
     */
    method Insert(key: Key, value: int)
      requires Valid()
      modifies this
      ensures Valid()
      ensures multiset(Contents()) == multiset(old(Contents())) + multiset{Entry(key, value)}
      ensures height == old(height) + (if |old(root).items| == MaxKeys then 1 else 0)
    {
      root, height := InsertAtRoot(root, height, key, value);
    }

    /**
     * `Insert` on the root value: a full root first goes below a new empty
     * root and is split, which is the only way the tree grows taller.
     */
    static method InsertAtRoot(node: BNode, ghost h: nat, key: Key, value: int) returns (r: BNode, ghost h': nat)
      requires WF(node, h) && Sorted(Entries(node))
      ensures WF(r, h') && Sorted(Entries(r))
      ensures multiset(Entries(r)) == multiset(Entries(node)) + multiset{Entry(key, value)}
      ensures h' == h + (if |node.items| == MaxKeys then 1 else 0)
    {
      if |node.items| == MaxKeys {
        var newRoot := SplitRoot(node, h);
        r := InsertNonFull(newRoot, h + 1, key, value);
        h' := h + 1;
      } else {
        r := InsertNonFull(node, h, key, value);
        h' := h;
      }
    }

    /**
     * Put the full root `node` below a new empty internal root and split it
     * there: the tree grows one level taller and keeps its entries.
     */
    static method SplitRoot(node: BNode, ghost h: nat) returns (r: BNode)
      requires WF(node, h) && Sorted(Entries(node)) && |node.items| == MaxKeys
      ensures WF(r, h + 1) && Sorted(Entries(r)) && Entries(r) == Entries(node)
      ensures |r.items| == 1 && |r.children| == 2
    {
      r := BNode(false, [], [node]);
      NewRoot(node, h);
      r := SplitChild(r, 0, h + 1);
    }

    /**
     * Insert `(key, value)` below the non-full node `node`: into a leaf by
     * shifting greater keys right, or into the child the key falls into,
     * after splitting that child first when it is full.
     */
    static method InsertNonFull(node: BNode, ghost h: nat, key: Key, value: int) returns (r: BNode)
      requires WF(node, h) && Sorted(Entries(node)) && |node.items| < MaxKeys
      ensures WF(r, h) && Sorted(Entries(r))
      ensures multiset(Entries(r)) == multiset(Entries(node)) + multiset{Entry(key, value)}
      ensures |node.items| <= |r.items|
      decreases h
    {
      if node.isLeaf {
        r := InsertIntoLeaf(node, h, key, value);
      } else {
        var n, i := ChooseChild(node, h, key);
        ChildOfSorted(n, h, i);
        var c := InsertNonFull(n.children[i], h - 1, key, value);
        r := n.(children := n.children[i := c]);
        ReplaceGrownChild(n, h, i, c, r, Entry(key, value));
      }
    }

    /** The leaf case of `InsertNonFull`: shift greater items right and put the new one in the gap. */
    static method InsertIntoLeaf(node: BNode, ghost h: nat, key: Key, value: int) returns (r: BNode)
      requires WF(node, h) && node.isLeaf && Sorted(Entries(node)) && |node.items| < MaxKeys
      ensures WF(r, h) && Sorted(Entries(r))
      ensures multiset(Entries(r)) == multiset(Entries(node)) + multiset{Entry(key, value)}
      ensures |node.items| <= |r.items|
    {
      var its, pos := ShiftInsert(node.items, Entry(key, value));
      LeafInserted(node, h, its, pos, Entry(key, value));
      r := node.(items := its);
    }

    /**
     * The descent step of `InsertNonFull` at an internal node: find the child
     * the key falls into and, when that child is full, split it and step
     * right past the promoted key if `key` is greater than it.
     */
    static method ChooseChild(node: BNode, ghost h: nat, key: Key) returns (n: BNode, i: nat)
      requires WF(node, h) && !node.isLeaf && Sorted(Entries(node)) && |node.items| < MaxKeys
      ensures DescentReady(node, n, h, i, key)
    {
      i := ChildIndex(node.items, key);
      n := node;
      if |n.children[i].items| == MaxKeys {
        n := SplitChild(node, i, h);
        if key > n.items[i].key {
          i := i + 1;
        }
      } else {
        DescendWithoutSplit(node, h, i, key);
      }
    }

    /**
     * Split the full child `index` of `parent`: the child keeps its first
     * `Mid` items (and `Mid + 1` children), a new sibling right after it takes
     * what follows item `Mid`, and item `Mid` moves up into `parent` at
     * `index`.  The result is the new parent.
     */
    static method SplitChild(parent: BNode, index: nat, ghost h: nat) returns (r: BNode)
      requires h > 0 && WF(parent, h) && |parent.items| < MaxKeys
      requires index < |parent.children| && |parent.children[index].items| == MaxKeys
      ensures WF(r, h) && Entries(r) == Entries(parent)
      ensures |r.items| == |parent.items| + 1
      ensures r.items[index] == parent.children[index].items[Mid]
      ensures forall k :: 0 <= k < index ==> r.items[k] == parent.items[k]
      ensures forall k :: index < k < |r.items| ==> r.items[k] == parent.items[k - 1]
      ensures |r.children[index].items| == Mid && |r.children[index + 1].items| == MaxKeys - Mid - 1
    {
      SplitChildCorrect(parent, index, h);
      r := SplitTree(parent, index);
      SplitTreeShape(parent, index, r);
    }

    /** The value stored with `key`, or -1 when the index does not hold `key`. */
    method Search(key: Key) returns (r: int)
      requires Valid()
      ensures HasKey(Contents(), key) ==> Entry(key, r) in Contents()
      ensures !HasKey(Contents(), key) ==> r == -1
    {
      r := SearchNode(root, height, key);
    }

    /**
     * Search below `node`: scan the keys for the first one not below `key`;
     * stop at a match, give -1 at a leaf, and otherwise go down into the child
     * before that key.
     */
    static method SearchNode(node: BNode, ghost h: nat, key: Key) returns (r: int)
      requires WF(node, h) && Sorted(Entries(node))
      ensures HasKey(Entries(node), key) ==> Entry(key, r) in Entries(node)
      ensures !HasKey(Entries(node), key) ==> r == -1
      decreases h
    {
      var i := 0;
      while i < |node.items| && key > node.items[i].key
        invariant i <= |node.items|
        invariant forall m :: 0 <= m < i ==> node.items[m].key < key
      {
        i := i + 1;
      }
      if i < |node.items| && key == node.items[i].key {
        FoundInNode(node, h, i);
        return node.items[i].value;
      }
      if node.isLeaf {
        NotInLeaf(node, i, key);
        return -1;
      }
      DescendInSearch(node, h, i, key);
      r := SearchNode(node.children[i], h - 1, key);
    }

    /** Removal is a stub in this index: it leaves the tree as it is. */
    method Remove(key: Key)
      requires Valid()
      ensures Valid() && Contents() == old(Contents())
    {
    }
  }
}
