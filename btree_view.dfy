/**
 * The value view of the user-id index: a B-tree node seen as its (key, value)
 * items and its subtrees, the in-order list of entries it stores, and the
 * facts about that list that insertion, splitting and search rely on.
 */
module BTreeView {
  import opened Common

  /** Maximum number of children of a node (the tree's order). */
  const Order: nat := 5
  /** A node is full when it holds this many keys. */
  const MaxKeys: nat := Order - 1
  /** Position of the key a split promotes; the left half keeps this many keys. */
  const Mid: nat := Order / 2

  type Key = uint32

  /** One key of a node together with the record offset stored beside it. */
  datatype Entry = Entry(key: Key, value: int)

  /**
   * One node: whether it is a leaf, its items (key `i` beside value `i`) and
   * its children.  A subtree is the node at its root.
   */
  datatype BNode = BNode(isLeaf: bool, items: seq<Entry>, children: seq<BNode>)

  /** The entries of a subtree in order: child 0, item 0, child 1, item 1, ... */
  ghost function Entries(t: BNode): seq<Entry>
  {
    if t.children == [] then t.items else Interleave(t.children, t.items)
  }

  /** The entries of the subtrees `cs`, each followed by the item of the same position. */
  ghost function Interleave(cs: seq<BNode>, its: seq<Entry>): seq<Entry>
  {
    if cs == [] then [] else Entries(cs[0]) + First(its) + Interleave(cs[1..], Rest(its))
  }

  function First(its: seq<Entry>): seq<Entry>
  {
    if its == [] then [] else [its[0]]
  }

  function Rest(its: seq<Entry>): seq<Entry>
  {
    if its == [] then [] else its[1..]
  }

  ghost predicate Sorted(es: seq<Entry>)
  {
    forall i, j :: 0 <= i < j < |es| ==> es[i].key <= es[j].key
  }

  ghost predicate HasKey(es: seq<Entry>, k: Key)
  {
    exists e :: e in es && e.key == k
  }

  // ----- facts about sorted entry lists -----

  lemma {:induction false} SortedParts(a: seq<Entry>, b: seq<Entry>)
    requires Sorted(a + b)
    ensures Sorted(a) && Sorted(b)
    ensures forall x, y :: x in a && y in b ==> x.key <= y.key
  {
    var ab := a + b;
    forall i, j | 0 <= i < j < |a| ensures a[i].key <= a[j].key {
      assert a[i] == ab[i] && a[j] == ab[j];
    }
    forall i, j | 0 <= i < j < |b| ensures b[i].key <= b[j].key {
      assert b[i] == ab[|a| + i] && b[j] == ab[|a| + j];
    }
    forall x, y | x in a && y in b ensures x.key <= y.key {
      var i :| 0 <= i < |a| && a[i] == x;
      var j :| 0 <= j < |b| && b[j] == y;
      assert ab[i] == x && ab[|a| + j] == y;
    }
  }

  lemma {:induction false} SortedJoin(a: seq<Entry>, b: seq<Entry>)
    requires Sorted(a) && Sorted(b)
    requires forall x, y :: x in a && y in b ==> x.key <= y.key
    ensures Sorted(a + b)
  {
    var ab := a + b;
    forall i, j | 0 <= i < j < |ab| ensures ab[i].key <= ab[j].key {
      if j < |a| {
        assert ab[i] == a[i] && ab[j] == a[j];
      } else if i < |a| {
        assert ab[i] == a[i] && ab[j] == b[j - |a|];
        assert a[i] in a && b[j - |a|] in b;
      } else {
        assert ab[i] == b[i - |a|] && ab[j] == b[j - |a|];
      }
    }
  }

  /** Every entry of a sorted list ending in `s` has a key at most that of `s`. */
  lemma {:induction false} SortedBelowLast(a: seq<Entry>, s: Entry)
    requires Sorted(a + [s])
    ensures forall x :: x in a ==> x.key <= s.key
  {
    SortedParts(a, [s]);
  }

  /** Every entry of a sorted list starting with `s` has a key at least that of `s`. */
  lemma {:induction false} SortedAboveFirst(s: Entry, b: seq<Entry>)
    requires Sorted([s] + b)
    ensures forall x :: x in b ==> s.key <= x.key
  {
    SortedParts([s], b);
  }

  /**
   * Replacing the middle part of a sorted list by a sorted list made of the
   * old middle entries and one entry `e` that fits between the neighbours
   * keeps the whole list sorted.
   */
  lemma {:induction false} SortedReplaceMiddle(pre: seq<Entry>, mid: seq<Entry>, mid': seq<Entry>, post: seq<Entry>, e: Entry)
    requires Sorted(pre + mid + post) && Sorted(mid')
    requires forall x :: x in mid' ==> x in mid || x == e
    requires forall x :: x in pre ==> x.key <= e.key
    requires forall x :: x in post ==> e.key <= x.key
    ensures Sorted(pre + mid' + post)
  {
    SortedParts(pre + mid, post);
    SortedParts(pre, mid);
    assert forall x, y :: x in pre && y in post ==> x in pre + mid && x.key <= y.key;
    SortedJoin(pre, mid');
    forall x, y | x in pre + mid' && y in post ensures x.key <= y.key {
      if x in pre {
        assert x in pre + mid;
      } else {
        assert x in mid || x == e;
        if x in mid {
          assert x in pre + mid;
        }
      }
    }
    SortedJoin(pre + mid', post);
  }

  // ----- structure of the in-order list -----

  /** The children `cs1` take the first `|cs1|` items, the children `cs2` the rest. */
  lemma {:induction false} InterleaveAppend(cs1: seq<BNode>, cs2: seq<BNode>, its: seq<Entry>)
    requires |cs1| <= |its|
    ensures Interleave(cs1 + cs2, its) == Interleave(cs1, its[..|cs1|]) + Interleave(cs2, its[|cs1|..])
  {
    if cs1 == [] {
      assert cs1 + cs2 == cs2 && its[..0] == [] && its[0..] == its;
    } else {
      var n, cs := |cs1|, cs1 + cs2;
      assert cs[0] == cs1[0] && cs[1..] == cs1[1..] + cs2;
      InterleaveAppend(cs1[1..], cs2, its[1..]);
      assert its[1..][..n - 1] == its[..n][1..];
      assert its[1..][n - 1..] == its[n..];
      assert First(its) == First(its[..n]) == [its[0]];
      assert Rest(its) == its[1..] && Rest(its[..n]) == its[..n][1..];
      calc {
        Interleave(cs, its);
        Entries(cs1[0]) + [its[0]] + Interleave(cs1[1..] + cs2, its[1..]);
        Entries(cs1[0]) + [its[0]] + (Interleave(cs1[1..], its[..n][1..]) + Interleave(cs2, its[n..]));
        (Entries(cs1[0]) + [its[0]] + Interleave(cs1[1..], its[..n][1..])) + Interleave(cs2, its[n..]);
        Interleave(cs1, its[..n]) + Interleave(cs2, its[n..]);
      }
    }
  }

  /**
   * The entries of a node split around child `j`: the children and items
   * before it, its own entries, and the item after it followed by the rest.
   */
  lemma {:induction false} AroundChild(cs: seq<BNode>, its: seq<Entry>, j: nat)
    requires j < |cs| && j <= |its|
    ensures Interleave(cs, its) ==
      Interleave(cs[..j], its[..j]) + Entries(cs[j]) + (First(its[j..]) + Interleave(cs[j + 1..], Rest(its[j..])))
  {
    assert cs == cs[..j] + cs[j..];
    InterleaveAppend(cs[..j], cs[j..], its);
    assert cs[j..][0] == cs[j] && cs[j..][1..] == cs[j + 1..];
  }

  /** The entries before child `j > 0` end with item `j - 1`. */
  lemma {:induction false} BeforeChild(cs: seq<BNode>, its: seq<Entry>, j: nat)
    requires 0 < j <= |cs| && j <= |its|
    ensures Interleave(cs[..j], its[..j]) ==
      Interleave(cs[..j - 1], its[..j - 1]) + Entries(cs[j - 1]) + [its[j - 1]]
  {
    AroundChild(cs[..j], its[..j], j - 1);
    assert cs[..j][..j - 1] == cs[..j - 1] && its[..j][..j - 1] == its[..j - 1];
    assert its[..j][j - 1..] == [its[j - 1]];
    assert cs[..j][j..] == [];
  }

  /** The part of the entries that follows child `j` starts with item `j`, if any. */
  lemma {:induction false} AfterChild(cs: seq<BNode>, its: seq<Entry>, j: nat)
    requires |cs| == |its| + 1 && j < |cs|
    ensures j < |its| ==>
      (First(its[j..]) + Interleave(cs[j + 1..], Rest(its[j..])) == [its[j]] + Interleave(cs[j + 1..], its[j + 1..]))
    ensures j == |its| ==> First(its[j..]) + Interleave(cs[j + 1..], Rest(its[j..])) == []
  {
    if j < |its| {
      assert its[j..][1..] == its[j + 1..];
    } else {
      assert cs[j + 1..] == [];
    }
  }

  // ----- splitting a full child -----

  /** Shape of a node whose child `i` is full and may be split by `SplitTree`. */
  ghost predicate SplittableChild(p: BNode, i: nat)
  {
    && |p.children| == |p.items| + 1
    && i < |p.children|
    && Full(p.children[i])
  }

  /**
   * A node holding the maximum number of items, with one child more when it
   * is not a leaf.
   */
  ghost predicate Full(c: BNode)
  {
    && |c.items| == MaxKeys
    && (c.isLeaf <==> c.children == [])
    && (c.children == [] || |c.children| == MaxKeys + 1)
  }

  /** The half of a full node that stays in place: its first `Mid` items and `Mid + 1` children. */
  function LeftHalf(c: BNode): BNode
    requires Full(c)
  {
    c.(items := c.items[..Mid], children := if c.isLeaf then c.children else c.children[..Mid + 1])
  }

  /** The half of a full node that moves to a new sibling: what follows item `Mid`. */
  function RightHalf(c: BNode): BNode
    requires Full(c)
  {
    BNode(c.isLeaf, c.items[Mid + 1..], if c.isLeaf then [] else c.children[Mid + 1..])
  }

  /**
   * The node `p` after its full child `i` is split: item `Mid` of the child
   * moves up into `p` at position `i`, the left half stays at `i` and the
   * right half becomes a new child at `i + 1`.
   */
  function SplitTree(p: BNode, i: nat): (r: BNode)
    requires SplittableChild(p, i)
  {
    var c := p.children[i];
    p.(items := p.items[..i] + [c.items[Mid]] + p.items[i..],
       children := p.children[..i] + [LeftHalf(c), RightHalf(c)] + p.children[i + 1..])
  }

  /** Where the items and children of `p` end up when its child `i` is split. */
  lemma {:induction false} SplitTreeShape(p: BNode, i: nat, r: BNode)
    requires SplittableChild(p, i) && r == SplitTree(p, i)
    ensures r.isLeaf == p.isLeaf
    ensures |r.items| == |p.items| + 1 && |r.children| == |p.children| + 1
    ensures r.items[i] == p.children[i].items[Mid]
    ensures forall k :: 0 <= k < i ==> r.items[k] == p.items[k] && r.children[k] == p.children[k]
    ensures forall k :: i < k < |r.items| ==> r.items[k] == p.items[k - 1]
    ensures r.children[i] == LeftHalf(p.children[i]) && r.children[i + 1] == RightHalf(p.children[i])
    ensures forall k :: i + 1 < k < |r.children| ==> r.children[k] == p.children[k - 1]
  {
  }

  /** Unfolding `Interleave` once at the front. */
  lemma {:induction false} InterleaveCons(x: BNode, rest: seq<BNode>, its: seq<Entry>)
    ensures Interleave([x] + rest, its) == Entries(x) + (First(its) + Interleave(rest, Rest(its)))
  {
    assert ([x] + rest)[0] == x && ([x] + rest)[1..] == rest;
  }

  /** With as many items as children, the entries end with the last item. */
  lemma {:induction false} InterleaveLastItem(cs: seq<BNode>, its: seq<Entry>)
    requires 0 < |cs| == |its|
    ensures Interleave(cs, its) == Interleave(cs, its[..|its| - 1]) + [its[|its| - 1]]
  {
    var n := |cs|;
    var its' := its[..n - 1];
    AroundChild(cs, its, n - 1);
    AroundChild(cs, its', n - 1);
    assert its'[..n - 1] == its[..n - 1];
    assert its[n - 1..] == [its[n - 1]] && its'[n - 1..] == [];
    assert cs[n..] == [];
  }

  /** The entries of a full node are its left half, the promoted item and its right half. */
  lemma {:induction false} SplitNodeEntries(c: BNode)
    requires Full(c)
    ensures Entries(c) == Entries(LeftHalf(c)) + [c.items[Mid]] + Entries(RightHalf(c))
  {
    if c.isLeaf {
      assert c.items == c.items[..Mid] + [c.items[Mid]] + c.items[Mid + 1..];
    } else {
      SplitInternalEntries(c);
    }
  }

  /** `SplitNodeEntries` for a node with children. */
  lemma {:induction false} SplitInternalEntries(c: BNode)
    requires Full(c) && !c.isLeaf
    ensures Entries(c) == Entries(LeftHalf(c)) + [c.items[Mid]] + Entries(RightHalf(c))
  {
    var cs, its := c.children, c.items;
    assert Entries(c) == Interleave(cs, its);
    assert cs == cs[..Mid + 1] + cs[Mid + 1..];
    InterleaveAppend(cs[..Mid + 1], cs[Mid + 1..], its);
    InterleaveLastItem(cs[..Mid + 1], its[..Mid + 1]);
    assert its[..Mid + 1][..Mid] == its[..Mid];
    assert Entries(LeftHalf(c)) == Interleave(cs[..Mid + 1], its[..Mid]);
    assert Entries(RightHalf(c)) == Interleave(cs[Mid + 1..], its[Mid + 1..]);
  }

  /** The halves of a full child with the middle item between them have the child's entries. */
  lemma {:induction false} SplitFront(c: BNode, after: seq<BNode>, items2: seq<Entry>)
    requires Full(c)
    ensures Interleave([LeftHalf(c)] + ([RightHalf(c)] + after), [c.items[Mid]] + items2)
         == Interleave([c] + after, items2)
  {
    var m, left, right := c.items[Mid], LeftHalf(c), RightHalf(c);
    var tail := First(items2) + Interleave(after, Rest(items2));
    assert First([m] + items2) == [m] && Rest([m] + items2) == items2;
    calc {
      Interleave([left] + ([right] + after), [m] + items2);
    == { InterleaveCons(left, [right] + after, [m] + items2); }
      Entries(left) + [m] + Interleave([right] + after, items2);
    == { InterleaveCons(right, after, items2); }
      Entries(left) + [m] + (Entries(right) + tail);
    == 
      (Entries(left) + [m] + Entries(right)) + tail;
    == { SplitNodeEntries(c); }
      Entries(c) + tail;
    == { InterleaveCons(c, after, items2); }
      Interleave([c] + after, items2);
    }
  }

  /** Replacing a full child by its two halves with the middle item between them keeps the entries. */
  lemma {:induction false} SplitInterleave(before: seq<BNode>, c: BNode, after: seq<BNode>, items1: seq<Entry>, items2: seq<Entry>)
    requires |before| == |items1|
    requires Full(c)
    ensures Interleave(before + ([LeftHalf(c)] + ([RightHalf(c)] + after)), items1 + ([c.items[Mid]] + items2))
         == Interleave(before + ([c] + after), items1 + items2)
  {
    var m := c.items[Mid];
    InterleaveAppend(before, [c] + after, items1 + items2);
    InterleaveAppend(before, [LeftHalf(c)] + ([RightHalf(c)] + after), items1 + ([m] + items2));
    assert (items1 + items2)[..|before|] == items1 && (items1 + items2)[|before|..] == items2;
    assert (items1 + ([m] + items2))[..|before|] == items1;
    assert (items1 + ([m] + items2))[|before|..] == [m] + items2;
    SplitFront(c, after, items2);
  }

  /** Splitting a full child neither adds, drops nor reorders entries. */
  lemma {:induction false} SplitTreeEntries(p: BNode, i: nat)
    requires SplittableChild(p, i)
    ensures Entries(SplitTree(p, i)) == Entries(p)
  {
    var c := p.children[i];
    var r := SplitTree(p, i);
    var before, after := p.children[..i], p.children[i + 1..];
    var items1, items2 := p.items[..i], p.items[i..];
    assert p.children == before + ([c] + after);
    assert p.items == items1 + items2;
    assert r.children == before + ([LeftHalf(c)] + ([RightHalf(c)] + after));
    assert r.items == items1 + ([c.items[Mid]] + items2);
    SplitInterleave(before, c, after, items1, items2);
  }

  // ----- inserting below a node -----

  /**
   * In a sorted node, the entries before child `j` have keys at most the
   * separator on its left, and the entries after it keys at least the
   * separator on its right.
   */
  lemma {:induction false} NeighbourBounds(cs: seq<BNode>, its: seq<Entry>, j: nat)
    requires |cs| == |its| + 1 && j < |cs|
    requires Sorted(Interleave(cs, its))
    ensures j == 0 ==> Interleave(cs[..j], its[..j]) == []
    ensures j > 0 ==> forall x :: x in Interleave(cs[..j], its[..j]) ==> x.key <= its[j - 1].key
    ensures j == |its| ==> First(its[j..]) + Interleave(cs[j + 1..], Rest(its[j..])) == []
    ensures j < |its| ==> forall x :: x in First(its[j..]) + Interleave(cs[j + 1..], Rest(its[j..])) ==> its[j].key <= x.key
  {
    var pre := Interleave(cs[..j], its[..j]);
    var post := First(its[j..]) + Interleave(cs[j + 1..], Rest(its[j..]));
    AroundChild(cs, its, j);
    SortedParts(pre + Entries(cs[j]), post);
    SortedParts(pre, Entries(cs[j]));
    if j > 0 {
      BeforeChild(cs, its, j);
      SortedBelowLast(Interleave(cs[..j - 1], its[..j - 1]) + Entries(cs[j - 1]), its[j - 1]);
    } else {
      assert cs[..j] == [];
    }
    AfterChild(cs, its, j);
    if j < |its| {
      SortedAboveFirst(its[j], Interleave(cs[j + 1..], its[j + 1..]));
    }
  }

  /** The entries of a node whose child `j` is replaced by `c`. */
  lemma {:induction false} ReplaceChild(cs: seq<BNode>, its: seq<Entry>, j: nat, c: BNode)
    requires j < |cs| && j <= |its|
    ensures Interleave(cs[j := c], its) ==
      Interleave(cs[..j], its[..j]) + Entries(c) + (First(its[j..]) + Interleave(cs[j + 1..], Rest(its[j..])))
  {
    var cs' := cs[j := c];
    AroundChild(cs', its, j);
    assert cs'[..j] == cs[..j] && cs'[j + 1..] == cs[j + 1..] && cs'[j] == c;
  }

  /**
   * A sorted list whose middle part gains one entry `e` that fits between
   * the parts around it stays sorted and gains exactly `e`.
   */
  lemma {:induction false} InsertMiddle(pre: seq<Entry>, mid: seq<Entry>, mid': seq<Entry>, post: seq<Entry>, e: Entry)
    requires Sorted(pre + mid + post) && Sorted(mid')
    requires multiset(mid') == multiset(mid) + multiset{e}
    requires forall x :: x in pre ==> x.key <= e.key
    requires forall x :: x in post ==> e.key <= x.key
    ensures Sorted(pre + mid' + post)
    ensures multiset(pre + mid' + post) == multiset(pre + mid + post) + multiset{e}
  {
    forall x | x in mid' ensures x in mid || x == e {
      assert x in multiset(mid');
    }
    SortedReplaceMiddle(pre, mid, mid', post, e);
  }

  /**
   * If the entries of child `j` gain one entry whose key lies between the
   * separators around that child, the node's entries gain the same entry and
   * stay sorted.
   */
  lemma {:induction false} InsertBelowChild(t: BNode, j: nat, c: BNode, e: Entry)
    requires |t.children| == |t.items| + 1 && j < |t.children|
    requires Sorted(Entries(t))
    requires j > 0 ==> t.items[j - 1].key <= e.key
    requires j < |t.items| ==> e.key <= t.items[j].key
    requires Sorted(Entries(c))
    requires multiset(Entries(c)) == multiset(Entries(t.children[j])) + multiset{e}
    ensures var t' := t.(children := t.children[j := c]);
      Sorted(Entries(t')) && multiset(Entries(t')) == multiset(Entries(t)) + multiset{e}
  {
    var cs, its := t.children, t.items;
    var t' := t.(children := cs[j := c]);
    var pre := Interleave(cs[..j], its[..j]);
    var post := First(its[j..]) + Interleave(cs[j + 1..], Rest(its[j..]));
    assert Entries(t) == pre + Entries(cs[j]) + post by {
      AroundChild(cs, its, j);
    }
    assert Entries(t') == pre + Entries(c) + post by {
      ReplaceChild(cs, its, j, c);
    }
    NeighbourBounds(cs, its, j);
    InsertMiddle(pre, Entries(cs[j]), Entries(c), post, e);
  }

  // ----- where a key can be -----

  /**
   * In a sorted internal node, an entry with key `k` that is not an item of
   * the node lies in the child that search descends into.
   */
  lemma {:induction false} KeyInChild(t: BNode, j: nat, k: Key, v: int)
    requires |t.children| == |t.items| + 1 && j < |t.children|
    requires Sorted(Entries(t))
    requires j > 0 ==> t.items[j - 1].key < k
    requires j < |t.items| ==> k < t.items[j].key
    ensures Entry(k, v) in Entries(t) <==> Entry(k, v) in Entries(t.children[j])
  {
    var cs, its := t.children, t.items;
    assert Entries(t) == Interleave(cs, its);
    AroundChild(cs, its, j);
    NeighbourBounds(cs, its, j);
  }

  /** A separator item of a node is one of its entries. */
  lemma {:induction false} ItemInEntries(t: BNode, j: nat)
    requires |t.children| == |t.items| + 1 && j < |t.items|
    ensures t.items[j] in Entries(t)
  {
    AroundChild(t.children, t.items, j);
    AfterChild(t.children, t.items, j);
  }

  /** A sorted list holds no entry with key `k` when it jumps from below `k` to above it. */
  lemma {:induction false} SortedGap(es: seq<Entry>, j: nat, k: Key)
    requires Sorted(es) && j <= |es|
    requires forall m :: 0 <= m < j ==> es[m].key < k
    requires j < |es| ==> k < es[j].key
    ensures !HasKey(es, k)
  {
  }

  /** Every subtree of a sorted node is sorted. */
  lemma {:induction false} ChildSorted(t: BNode, j: nat)
    requires |t.children| == |t.items| + 1 && j < |t.children|
    requires Sorted(Entries(t))
    ensures Sorted(Entries(t.children[j]))
  {
    var cs, its := t.children, t.items;
    var pre := Interleave(cs[..j], its[..j]);
    var post := First(its[j..]) + Interleave(cs[j + 1..], Rest(its[j..]));
    assert Entries(t) == pre + Entries(cs[j]) + post by {
      AroundChild(cs, its, j);
    }
    SortedParts(pre + Entries(cs[j]), post);
    SortedParts(pre, Entries(cs[j]));
  }

  /** In a sorted node, key `k` is present exactly when it is present in the child search descends into. */
  lemma {:induction false} HasKeyInChild(t: BNode, j: nat, k: Key)
    requires |t.children| == |t.items| + 1 && j < |t.children|
    requires Sorted(Entries(t))
    requires j > 0 ==> t.items[j - 1].key < k
    requires j < |t.items| ==> k < t.items[j].key
    ensures HasKey(Entries(t), k) <==> HasKey(Entries(t.children[j]), k)
  {
    if HasKey(Entries(t), k) {
      var e :| e in Entries(t) && e.key == k;
      KeyInChild(t, j, k, e.value);
    }
    if HasKey(Entries(t.children[j]), k) {
      var e :| e in Entries(t.children[j]) && e.key == k;
      KeyInChild(t, j, k, e.value);
    }
  }

  /** A node with no items and a single child holds that child's entries. */
  lemma SingleChild(t: BNode)
    ensures Entries(BNode(false, [], [t])) == Entries(t)
  {
    assert Entries(BNode(false, [], [t])) == Interleave([t], []);
    InterleaveCons(t, [], []);
    assert Interleave([], []) == [];
    assert [t] + [] == [t];
  }

  /** Inserting an entry between a neighbour at most its key and a neighbour at least its key keeps a list sorted. */
  lemma SortedInsertAt(es: seq<Entry>, pos: nat, e: Entry)
    requires Sorted(es) && pos <= |es|
    requires pos > 0 ==> es[pos - 1].key <= e.key
    requires pos < |es| ==> e.key <= es[pos].key
    ensures Sorted(es[..pos] + [e] + es[pos..])
  {
    var r := es[..pos] + [e] + es[pos..];
    forall i, j | 0 <= i < j < |r| ensures r[i].key <= r[j].key {
      if j < pos {
        assert r[i] == es[i] && r[j] == es[j];
      } else if j == pos {
        assert r[i] == es[i];
        assert es[i].key <= es[pos - 1].key;
      } else if i < pos {
        assert r[i] == es[i] && r[j] == es[j - 1];
      } else if i == pos {
        assert r[j] == es[j - 1];
        assert es[pos].key <= es[j - 1].key;
      } else {
        assert r[i] == es[i - 1] && r[j] == es[j - 1];
      }
    }
  }

  /** Putting `e` at `pos` of a list adds `e` and nothing else to the list's multiset. */
  lemma {:induction false} MultisetInsertAt(es: seq<Entry>, pos: nat, e: Entry)
    requires pos <= |es|
    ensures multiset(es[..pos] + [e] + es[pos..]) == multiset(es) + multiset{e}
  {
    assert es == es[..pos] + es[pos..];
  }

  /** A list that agrees with `es` before `pos`, holds `e` at `pos` and `es` shifted by one after it is `es` with `e` put at `pos`. */
  lemma {:induction false} InsertedAt(es: seq<Entry>, r: seq<Entry>, pos: nat, e: Entry)
    requires pos <= |es| && |r| == |es| + 1 && r[pos] == e
    requires forall m :: 0 <= m < pos ==> r[m] == es[m]
    requires forall m :: pos < m <= |es| ==> r[m] == es[m - 1]
    ensures r == es[..pos] + [e] + es[pos..]
  {
    var s := es[..pos] + [e] + es[pos..];
    forall m | 0 <= m < |r| ensures r[m] == s[m] {
      if m < pos {
        assert s[m] == es[m];
      } else if m > pos {
        assert s[m] == es[m - 1];
      }
    }
  }
}
