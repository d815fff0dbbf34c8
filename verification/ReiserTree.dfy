/** The ReiserFS tree cursor: finding an object's first item, then visiting the items in tree order. */
module ReiserTree {
  import opened Words
  import opened ReiserJournal

  const MAX_HEIGHT: nat := 7
  const LEAF_LEVEL: nat := 1

  /** Directory, object, and the offset and type words taken together; zero for the stat item, which
      comes first of an object's items. */
  datatype Key = Key(dir: nat, obj: nat, rest: nat)

  datatype Item = Item(key: Key, location: nat)

  /** A formatted block: a leaf with items, or an inner node with one more child than keys. */
  datatype Node = Node(level: nat, keys: seq<Key>, kids: seq<nat>, items: seq<Item>, right: Item)

  predicate Less(a: Key, b: Key) {
    a.dir < b.dir || (a.dir == b.dir && (a.obj < b.obj || (a.obj == b.obj && a.rest < b.rest)))
  }

  function Stat(dir: nat, obj: nat): Key {
    Key(dir, obj, 0)
  }

  /** What each block number holds, as seen through the journal. */
  type Store = nat -> Node

  /** The tree of the given depth below a block: levels agree, no leaf is empty, block 0 is not used. */
  predicate Tree(node: Store, depth: nat, b: nat)
    decreases depth
  {
    && depth >= 1 && b != 0 && node(b).level == depth
    && if depth == 1 then |node(b).items| > 0
       else |node(b).kids| == |node(b).keys| + 1
            && forall i :: 0 <= i < |node(b).kids| ==> Tree(node, depth - 1, node(b).kids[i])
  }

  /** The items below a block, in tree order. */
  function Items(node: Store, depth: nat, b: nat): seq<Item>
    decreases depth, 0, 0
  {
    if depth <= 1 then node(b).items else ItemsOf(node, depth - 1, node(b).kids)
  }

  /** The items below a list of blocks. */
  function ItemsOf(node: Store, depth: nat, kids: seq<nat>): seq<Item>
    decreases depth, 1, |kids|
  {
    if kids == [] then [] else Items(node, depth, kids[0]) + ItemsOf(node, depth, kids[1..])
  }

  lemma {:induction false} ItemsSplit(node: Store, depth: nat, a: seq<nat>, b: seq<nat>)
    ensures ItemsOf(node, depth, a + b) == ItemsOf(node, depth, a) + ItemsOf(node, depth, b)
    decreases |a|
  {
    hide Items;
    if a == [] {
      assert a + b == b;
    } else {
      assert (a + b)[0] == a[0] && (a + b)[1..] == a[1..] + b;
      ItemsSplit(node, depth, a[1..], b);
    }
  }

  /** Keys separate the children: everything below child `i` is at least key `i - 1` and below key `i`. */
  ghost predicate Ordered(node: Store, depth: nat, b: nat)
    decreases depth
  {
    depth > 1 ==>
      && |node(b).kids| == |node(b).keys| + 1
      && (forall i, j :: 0 <= i < j < |node(b).keys| ==> Less(node(b).keys[i], node(b).keys[j]))
      && (forall i :: 0 <= i < |node(b).keys| ==> Before(Items(node, depth - 1, node(b).kids[i]), node(b).keys[i]))
      && (forall i :: 0 < i < |node(b).kids| ==>
        NotBefore(Items(node, depth - 1, node(b).kids[i]), node(b).keys[i - 1]))
      && (forall i :: 0 <= i < |node(b).kids| ==> Ordered(node, depth - 1, node(b).kids[i]))
  }

  predicate Before(items: seq<Item>, k: Key) {
    forall it :: it in items ==> Less(it.key, k)
  }

  predicate NotBefore(items: seq<Item>, k: Key) {
    forall it :: it in items ==> !Less(it.key, k)
  }

  // ---- tree order is key order

  /** Keys compare as the numbers that their words make, the directory being the highest. */
  lemma LessIsNumeric(a: Key, b: Key)
    requires a.obj < WORD && b.obj < WORD && a.rest < WORD * WORD && b.rest < WORD * WORD
    ensures Less(a, b) <==>
              (a.dir * WORD + a.obj) * (WORD * WORD) + a.rest < (b.dir * WORD + b.obj) * (WORD * WORD) + b.rest
  {
  }

  ghost predicate Ascending(items: seq<Item>) {
    forall i, j :: 0 <= i < j < |items| ==> Less(items[i].key, items[j].key)
  }

  /** The items of every leaf ascend. */
  ghost predicate LeavesAscend(node: Store, depth: nat, b: nat)
    decreases depth
  {
    if depth <= 1 then Ascending(node(b).items)
    else forall i :: 0 <= i < |node(b).kids| ==> LeavesAscend(node, depth - 1, node(b).kids[i])
  }

  /** If the keys separate the children and every leaf ascends, all items ascend in tree order. */
  lemma {:induction false} ItemsAscend(node: Store, depth: nat, b: nat)
    requires Tree(node, depth, b) && Ordered(node, depth, b) && LeavesAscend(node, depth, b)
    ensures Ascending(Items(node, depth, b))
    decreases depth, 0, 0
  {
    hide Ascending, Items;
    if depth > 1 {
      KidsAscend(node, depth, b, 0);
      assert node(b).kids[0..] == node(b).kids;
      BelowKids(node, depth, b);
    } else {
      LeafItems(node, depth, b);
    }
  }

  lemma LeafItems(node: Store, depth: nat, b: nat)
    requires depth <= 1
    ensures Items(node, depth, b) == node(b).items
  {
  }

  /** The items below the children from number `i` on. */
  lemma {:induction false} KidsAscend(node: Store, depth: nat, b: nat, i: nat)
    requires depth > 1 && Tree(node, depth, b) && Ordered(node, depth, b) && LeavesAscend(node, depth, b)
    requires i <= |node(b).kids|
    ensures var items := ItemsOf(node, depth - 1, node(b).kids[i..]);
            Ascending(items) && (0 < i < |node(b).kids| ==> NotBefore(items, node(b).keys[i - 1]))
    decreases depth - 1, 1, |node(b).kids| - i
  {
    hide Ascending, Items, Less;
    var n := node(b);
    if i == |n.kids| {
      NoItems(node, depth - 1, n.kids[i..]);
    } else {
      var a, rest := Items(node, depth - 1, n.kids[i]), ItemsOf(node, depth - 1, n.kids[i + 1..]);
      ItemsAscend(node, depth - 1, n.kids[i]);
      KidsAscend(node, depth, b, i + 1);
      FirstChild(node, depth - 1, n.kids, i);
      if i < |n.keys| {
        BothAscend(a, rest, n.keys[i]);
        if i > 0 {
          LaterToo(a, rest, n.keys[i - 1], n.keys[i]);
        }
      } else {
        NoItems(node, depth - 1, n.kids[i + 1..]);
        assert a + rest == a;
      }
    }
  }

  lemma NoItems(node: Store, depth: nat, kids: seq<nat>)
    requires kids == []
    ensures ItemsOf(node, depth, kids) == [] && Ascending(ItemsOf(node, depth, kids))
  {
  }

  lemma BothAscend(a: seq<Item>, b: seq<Item>, k: Key)
    requires Ascending(a) && Ascending(b) && Before(a, k) && NotBefore(b, k)
    ensures Ascending(a + b)
  {
    forall i, j | 0 <= i < j < |a + b|
      ensures Less((a + b)[i].key, (a + b)[j].key)
    {
      if i < |a| <= j {
        assert a[i] in a && b[j - |a|] in b;
      }
    }
  }

  lemma LaterToo(a: seq<Item>, b: seq<Item>, h: Key, k: Key)
    requires NotBefore(a, h) && NotBefore(b, k) && Less(h, k)
    ensures NotBefore(a + b, h)
  {
    forall it | it in a + b
      ensures !Less(it.key, h)
    {
      assert it in a || it in b;
    }
  }

  /** Where a path stands: the block at each level and the child number to visit next (0: none). */
  datatype Path = Path(blocks: seq<nat>, next: seq<nat>)

  /** The child of the node at level `d` that the path goes through. */
  function ChildNr(node: Store, p: Path, d: nat): nat
    requires d < |p.blocks| && d < |p.next|
  {
    if p.next[d] == 0 then |node(p.blocks[d]).keys| else p.next[d] - 1
  }

  ghost predicate Link(node: Store, p: Path, d: nat)
    requires 1 <= d < |p.blocks| && d < |p.next|
  {
    && p.next[d] <= |node(p.blocks[d]).keys|
    && ChildNr(node, p, d) < |node(p.blocks[d]).kids|
    && p.blocks[d - 1] == node(p.blocks[d]).kids[ChildNr(node, p, d)]
  }

  /** The path is linked from the root, at level `top`, down to level `d`. */
  ghost predicate Linked(node: Store, p: Path, top: nat, d: nat) {
    && |p.blocks| > top && |p.next| > top && 1 <= d <= top
    && Tree(node, top, p.blocks[top])
    && forall e :: d < e <= top ==> Link(node, p, e)
  }

  /** The items behind the subtree that the path goes through at level `d`. */
  function Upper(node: Store, p: Path, top: nat, d: nat): seq<Item>
    requires |p.blocks| > top && |p.next| > top && d <= top
    requires forall e :: d < e <= top ==> p.next[e] <= |node(p.blocks[e]).kids|
    decreases top - d
  {
    if d == top then []
    else ItemsOf(node, d, if p.next[d + 1] == 0 then [] else node(p.blocks[d + 1]).kids[p.next[d + 1]..])
         + Upper(node, p, top, d + 1)
  }

  lemma {:induction false} LinkedTree(node: Store, p: Path, top: nat, d: nat)
    requires Linked(node, p, top, d)
    ensures Tree(node, d, p.blocks[d])
    decreases top - d
  {
    if d < top {
      LinkedTree(node, p, top, d + 1);
      assert Link(node, p, d + 1);
    }
  }

  /** What lies behind a level does not depend on the levels below. */
  lemma {:induction false} UpperAgrees(node: Store, p: Path, q: Path, top: nat, d: nat)
    requires |p.blocks| > top && |p.next| > top && |q.blocks| > top && |q.next| > top && d <= top
    requires forall e :: d < e <= top ==> p.next[e] <= |node(p.blocks[e]).kids|
    requires forall e :: d < e <= top ==> p.next[e] == q.next[e] && p.blocks[e] == q.blocks[e]
    ensures Upper(node, p, top, d) == Upper(node, q, top, d)
    decreases top - d
  {
    hide ItemsOf;
    if d < top {
      UpperAgrees(node, p, q, top, d + 1);
    }
  }

  /** The items below the path's node at level `d` from child number `j` on. */
  function FromChild(node: Store, p: Path, d: nat, j: nat): seq<Item>
    requires 1 <= d < |p.blocks| && j <= |node(p.blocks[d]).kids|
  {
    ItemsOf(node, d - 1, node(p.blocks[d]).kids[j..])
  }

  /** The path after going from level `d` down to child number `j`. */
  function Stepped(node: Store, p: Path, d: nat, j: nat): Path
    requires 1 <= d < |p.blocks| && d < |p.next| && j < |node(p.blocks[d]).kids|
  {
    Path(p.blocks[d - 1 := node(p.blocks[d]).kids[j]],
         p.next[d := if j == |node(p.blocks[d]).keys| then 0 else j + 1])
  }

  lemma PathDown(node: Store, p: Path, top: nat, d: nat, j: nat)
    requires Linked(node, p, top, d) && 2 <= d && j < |node(p.blocks[d]).kids|
    ensures Tree(node, d - 1, node(p.blocks[d]).kids[j])
    ensures node(p.blocks[d]).kids[j] != 0 && node(node(p.blocks[d]).kids[j]).level == d - 1
    ensures |node(p.blocks[d]).kids| == |node(p.blocks[d]).keys| + 1
    ensures Linked(node, Stepped(node, p, d, j), top, d - 1)
  {
    LinkedTree(node, p, top, d);
    var q := Stepped(node, p, d, j);
    forall e | d - 1 < e <= top
      ensures Link(node, q, e)
    {
      if e > d {
        assert Link(node, p, e);
      }
    }
  }

  lemma FirstChild(node: Store, d: nat, kids: seq<nat>, j: nat)
    requires j < |kids|
    ensures ItemsOf(node, d, kids[j..]) == Items(node, d, kids[j]) + ItemsOf(node, d, kids[j + 1..])
  {
    hide Items;
    assert kids[j..][0] == kids[j] && kids[j..][1..] == kids[j + 1..];
  }

  /** What lies behind the path at one level more. */
  lemma UpperStep(node: Store, q: Path, top: nat, d: nat, rest: seq<nat>)
    requires |q.blocks| > top && |q.next| > top && 1 <= d <= top
    requires forall e :: d - 1 < e <= top ==> q.next[e] <= |node(q.blocks[e]).kids|
    requires rest == if q.next[d] == 0 then [] else node(q.blocks[d]).kids[q.next[d]..]
    ensures Upper(node, q, top, d - 1) == ItemsOf(node, d - 1, rest) + Upper(node, q, top, d)
  {
    hide ItemsOf;
  }

  /** Going down leaves the same items to come. */
  lemma ItemsDown(node: Store, p: Path, top: nat, d: nat, j: nat)
    requires Linked(node, p, top, d) && 2 <= d && j < |node(p.blocks[d]).kids|
    ensures var q := Stepped(node, p, d, j);
            && (forall e :: d - 1 < e <= top ==> q.next[e] <= |node(q.blocks[e]).kids|)
            && (forall e :: d < e <= top ==> p.next[e] <= |node(p.blocks[e]).kids|)
            && FromChild(node, p, d, j) + Upper(node, p, top, d)
            == Items(node, d - 1, node(p.blocks[d]).kids[j]) + Upper(node, q, top, d - 1)
  {
    hide Items, ItemsOf, Upper, Tree;
    var q := Stepped(node, p, d, j);
    PathDown(node, p, top, d, j);
    LinkedNexts(node, p, top, d);
    LinkedNexts(node, q, top, d - 1);
    UpperAgrees(node, p, q, top, d);
    var kids := node(p.blocks[d]).kids;
    LinkedKids(node, p, top, d);
    FirstChild(node, d - 1, kids, j);
    UpperStep(node, q, top, d, kids[j + 1..]);
  }

  /** All items: those left behind, those below level `d` of the path, those behind it. */
  ghost predicate Split(node: Store, top: nat, root: nat, before: seq<Item>, d: nat, p: Path) {
    && Linked(node, p, top, d)
    && (forall e :: d < e <= top ==> p.next[e] <= |node(p.blocks[e]).kids|)
    && Items(node, top, root) == before + Items(node, d, p.blocks[d]) + Upper(node, p, top, d)
  }

  lemma SplitDown(node: Store, top: nat, root: nat, before: seq<Item>, d: nat, p: Path, j: nat)
    requires Split(node, top, root, before, d, p) && 2 <= d && j <= |node(p.blocks[d]).keys|
    ensures j < |node(p.blocks[d]).kids|
    ensures Linked(node, p, top, d)
    ensures Split(node, top, root, before
            + ItemsOf(node, d - 1, node(p.blocks[d]).kids[..j]), d - 1, Stepped(node, p, d, j))
  {
    hide Tree, Upper, ItemsOf, Link;
    LinkedKids(node, p, top, d);
    var kids := node(p.blocks[d]).kids;
    PathDown(node, p, top, d, j);
    ItemsDown(node, p, top, d, j);
    BelowKids(node, d, p.blocks[d]);
    assert kids == kids[..j] + kids[j..];
    ItemsSplit(node, d - 1, kids[..j], kids[j..]);
    Regroup(before, ItemsOf(node, d - 1, kids[..j]), ItemsOf(node, d - 1, kids[j..]), Upper(node, p, top, d),
            Items(node, d - 1, kids[j]), Upper(node, Stepped(node, p, d, j), top, d - 1));
  }

  lemma Regroup(before: seq<Item>, a: seq<Item>, b: seq<Item>, u: seq<Item>, c: seq<Item>, v: seq<Item>)
    requires b + u == c + v
    ensures before + (a + b) + u == (before + a) + c + v
  {
    assert before + (a + b) + u == (before + a) + (b + u);
  }

  lemma LinkedKids(node: Store, p: Path, top: nat, d: nat)
    requires Linked(node, p, top, d) && 2 <= d
    ensures |node(p.blocks[d]).kids| == |node(p.blocks[d]).keys| + 1
  {
    LinkedTree(node, p, top, d);
  }

  /** If the tree is ordered, the items with the key are all below the block `b` at level `d`. */
  ghost predicate Narrowed(node: Store, top: nat, root: nat, key: Key, d: nat, b: nat) {
    Ordered(node, top, root) ==>
      && Ordered(node, d, b)
      && forall it :: it in Items(node, top, root) && it.key == key ==> it in Items(node, d, b)
  }

  lemma {:induction false} InSomeChild(node: Store, depth: nat, kids: seq<nat>, it: Item)
    requires it in ItemsOf(node, depth, kids)
    ensures exists m :: 0 <= m < |kids| && it in Items(node, depth, kids[m])
    decreases |kids|
  {
    hide Items;
    if it in Items(node, depth, kids[0]) {
    } else {
      InSomeChild(node, depth, kids[1..], it);
      var m :| 0 <= m < |kids[1..]| && it in Items(node, depth, kids[1..][m]);
      assert kids[m + 1] == kids[1..][m];
    }
  }

  /** Going down at the first key above the one sought keeps all items with it. */
  lemma NarrowDown(node: Store, top: nat, root: nat, key: Key, d: nat, b: nat, i: nat)
    requires Narrowed(node, top, root, key, d, b) && 2 <= d && i < |node(b).kids|
    requires i < |node(b).keys| ==> Less(key, node(b).keys[i])
    requires forall m :: 0 <= m < i && m < |node(b).keys| ==> !Less(key, node(b).keys[m])
    ensures Narrowed(node, top, root, key, d - 1, node(b).kids[i])
  {
    hide Items, ItemsOf;
    if Ordered(node, top, root) {
      var n := node(b);
      forall it | it in Items(node, top, root) && it.key == key
        ensures it in Items(node, d - 1, n.kids[i])
      {
        BelowKids(node, d, b);
        InSomeChild(node, d - 1, n.kids, it);
        var m :| 0 <= m < |n.kids| && it in Items(node, d - 1, n.kids[m]);
        OnlyChild(node, d, b, it, i, m);
      }
    }
  }

  /** An item lies below the child whose keys enclose its own. */
  lemma OnlyChild(node: Store, d: nat, b: nat, it: Item, i: nat, m: nat)
    requires 2 <= d && Ordered(node, d, b) && i < |node(b).kids| && m < |node(b).kids|
    requires i < |node(b).keys| ==> Less(it.key, node(b).keys[i])
    requires forall t :: 0 <= t < i && t < |node(b).keys| ==> !Less(it.key, node(b).keys[t])
    requires it in Items(node, d - 1, node(b).kids[m])
    ensures m == i
  {
    hide Items;
    KidBounds(node, d, b, it, m);
    if i + 1 < m {
      KeysAscend(node, d, b, i, m);
    }
  }

  lemma KidBounds(node: Store, d: nat, b: nat, it: Item, m: nat)
    requires 2 <= d && Ordered(node, d, b) && m < |node(b).kids|
    requires it in Items(node, d - 1, node(b).kids[m])
    ensures |node(b).kids| == |node(b).keys| + 1
    ensures m < |node(b).keys| ==> Less(it.key, node(b).keys[m])
    ensures m > 0 ==> !Less(it.key, node(b).keys[m - 1])
  {
    hide Items;
  }

  lemma KeysAscend(node: Store, d: nat, b: nat, i: nat, j: nat)
    requires 2 <= d && Ordered(node, d, b) && i + 1 < j <= |node(b).keys|
    ensures Less(node(b).keys[i], node(b).keys[j - 1])
  {
    hide Items;
  }

  lemma BelowKids(node: Store, d: nat, b: nat)
    requires d >= 2
    ensures Items(node, d, b) == ItemsOf(node, d - 1, node(b).kids)
  {
  }

  // ---- looking for the next leaf

  /** No child is left to visit on the levels up to `d`. */
  ghost predicate Skipped(node: Store, top: nat, p: Path, d: nat, goal: seq<Item>) {
    && 1 <= d <= top && Linked(node, p, top, 1)
    && (forall e :: 1 < e <= top ==> p.next[e] <= |node(p.blocks[e]).kids|)
    && (forall e :: 1 < e <= d ==> p.next[e] == 0)
    && goal == Upper(node, p, top, d)
  }

  lemma SkipStart(node: Store, top: nat, p: Path)
    requires Linked(node, p, top, 1)
    ensures forall e :: 1 < e <= top ==> p.next[e] <= |node(p.blocks[e]).kids|
    ensures Skipped(node, top, p, 1, Upper(node, p, top, 1))
  {
    LinkedNexts(node, p, top, 1);
  }

  lemma SkipLevel(node: Store, top: nat, p: Path, d: nat, goal: seq<Item>)
    requires d >= 2 && d <= top && Skipped(node, top, p, d - 1, goal) && p.next[d] == 0
    ensures Skipped(node, top, p, d, goal)
  {
    hide Items, Tree;
  }

  lemma SkippedAll(node: Store, top: nat, p: Path, goal: seq<Item>)
    requires Skipped(node, top, p, top, goal)
    ensures goal == []
  {
  }

  /** The items still to be visited while the path is rebuilt from level `d` down. */
  ghost predicate ToCome(node: Store, top: nat, p: Path, d: nat, goal: seq<Item>) {
    && 1 <= d <= top && Linked(node, p, top, d)
    && (forall e :: d < e <= top ==> p.next[e] <= |node(p.blocks[e]).kids|)
    && (forall e :: 1 < e < d ==> p.next[e] == 0)
    && if d == 1 then Items(node, 1, p.blocks[1]) + Upper(node, p, top, 1) == goal
       else p.next[d] < |node(p.blocks[d]).kids|
            && FromChild(node, p, d, p.next[d]) + Upper(node, p, top, d) == goal
  }

  lemma LevelFound(node: Store, top: nat, p: Path, d: nat, goal: seq<Item>)
    requires 2 <= d <= top && Skipped(node, top, p, d - 1, goal) && p.next[d] != 0
    ensures ToCome(node, top, p, d, goal) && goal != []
  {
    hide Items;
    assert Link(node, p, d);
    LinkedFrom(node, p, top, d);
    LinkedKids(node, p, top, d);
    LinkedTree(node, p, top, d);
    var kids := node(p.blocks[d]).kids;
    ItemsNonempty(node, d - 1, kids[p.next[d]]);
    assert kids[p.next[d]..][0] == kids[p.next[d]];
  }

  lemma LinkedFrom(node: Store, p: Path, top: nat, d: nat)
    requires Linked(node, p, top, 1) && 1 <= d <= top
    ensures Linked(node, p, top, d)
  {
  }

  lemma {:induction false} ItemsNonempty(node: Store, d: nat, b: nat)
    requires Tree(node, d, b)
    ensures Items(node, d, b) != []
    decreases d
  {
    if d > 1 {
      ItemsNonempty(node, d - 1, node(b).kids[0]);
    }
  }

  lemma DownOnce(node: Store, top: nat, p: Path, d: nat, goal: seq<Item>)
    requires d >= 2 && ToCome(node, top, p, d, goal)
    ensures Linked(node, p, top, d) && p.next[d] < |node(p.blocks[d]).kids|
    ensures ToCome(node, top, Stepped(node, p, d, p.next[d]), d - 1, goal)
  {
    hide Items, Tree, Upper, Link;
    var j := p.next[d];
    var q := Stepped(node, p, d, j);
    PathDown(node, p, top, d, j);
    ItemsDown(node, p, top, d, j);
    if d > 2 {
      BelowKids(node, d - 1, q.blocks[d - 1]);
      var kids := node(q.blocks[d - 1]).kids;
      assert kids[0..] == kids;
      LinkedKids(node, q, top, d - 1);
    }
  }

  lemma AtFirst(node: Store, top: nat, p: Path, goal: seq<Item>)
    requires ToCome(node, top, p, 1, goal)
    ensures Linked(node, p, top, 1) && |node(p.blocks[1]).items| > 0
    ensures forall e :: 1 < e <= top ==> p.next[e] <= |node(p.blocks[e]).kids|
    ensures goal == [node(p.blocks[1]).items[0]] + (node(p.blocks[1]).items[1..] + Upper(node, p, top, 1))
  {
    LinkedTree(node, p, top, 1);
  }

  lemma PathTree(node: Store, p: Path, top: nat, d: nat)
    requires Linked(node, p, top, 1) && 1 <= d <= top
    ensures p.blocks[d] != 0 && node(p.blocks[d]).level == d
  {
    LinkedFrom(node, p, top, d);
    LinkedTree(node, p, top, d);
  }

  class ReiserCursor {
    const journal: JournalReader
    const parse: Block -> Node
    const node: Store
    const root: nat
    const depth: nat
    const cachedSlots: nat
    const slots: array<Node>
    const blocks: array<nat>
    const nextKeyNr: array<nat>
    var cur: nat
    var atEnd: bool

    /** Reading a block through the journal and parsing it gives the node that the block holds. */
    ghost predicate Meaning()
      reads journal, journal.table
    {
      && journal.Valid() && (journal.transactions > 0 ==> journal.firstDesc < journal.J.count)
      && forall b: nat :: node(b) == parse(journal.J.ReplayAll(journal.firstDesc, journal.transactions)(b))
    }

    ghost predicate Shaped()
      reads {}
    {
      && 1 <= depth < MAX_HEIGHT && 2 <= cachedSlots
      && slots.Length == cachedSlots + 1 && blocks.Length == MAX_HEIGHT == nextKeyNr.Length
      && blocks != nextKeyNr
      && Tree(node, depth, root)
    }

    ghost function PathNow(): Path
      requires Shaped()
      reads blocks, nextKeyNr
    {
      Path(blocks[..][depth := root], nextKeyNr[..])
    }

    /** Every slot of its own holds the block recorded for its level; the root has slot 0. */
    ghost predicate Coherent()
      requires Shaped()
      reads slots, blocks
    {
      && slots[0] == node(root)
      && (forall d :: 1 <= d < depth && d < cachedSlots && blocks[d] != 0 ==> slots[d] == node(blocks[d]))
      && (depth == 1 ==> slots[1] == node(root))
    }

    /** After a descent the shared slot holds the lowest of the levels that share it. */
    ghost predicate SharedSlot()
      requires Shaped()
      reads slots, blocks
    {
      cachedSlots < depth ==> slots[cachedSlots] == node(blocks[cachedSlots])
    }

    ghost predicate Valid()
      reads this, journal, journal.table, slots, blocks, nextKeyNr
    {
      Shaped() && Meaning() && Coherent()
    }

    /** The cursor stands at an item. */
    ghost predicate Placed()
      reads this, journal, journal.table, slots, blocks, nextKeyNr
    {
      && Valid() && SharedSlot() && !atEnd
      && Linked(node, PathNow(), depth, 1)
      && slots[1] == node(PathNow().blocks[1]) && cur < |slots[1].items|
    }

    ghost function Current(): Item
      requires Placed()
      reads this, journal, journal.table, slots, blocks, nextKeyNr
    {
      slots[1].items[cur]
    }

    /** The items behind the current one, in tree order. */
    ghost function Ahead(): seq<Item>
      requires Placed()
      reads this, journal, journal.table, slots, blocks, nextKeyNr
    {
      LinkedNexts(node, PathNow(), depth, 1);
      slots[1].items[cur + 1..] + Upper(node, PathNow(), depth, 1)
    }

    constructor (j: JournalReader, p: Block -> Node, n: Store, rootBlock: nat, cached: nat)
      requires j.Valid() && (j.transactions > 0 ==> j.firstDesc < j.J.count) && 2 <= cached
      requires forall b: nat :: n(b) == p(j.J.ReplayAll(j.firstDesc, j.transactions)(b))
      requires 1 <= n(rootBlock).level < MAX_HEIGHT && Tree(n, n(rootBlock).level, rootBlock)
      ensures Valid() && journal == j && node == n && root == rootBlock && cachedSlots == cached
    {
      journal, parse, node, root, cachedSlots := j, p, n, rootBlock, cached;
      depth := n(rootBlock).level;
      slots := new Node[cached + 1](i => n(rootBlock));
      blocks := new nat[MAX_HEIGHT](i => 0);
      nextKeyNr := new nat[MAX_HEIGHT](i => 0);
      cur, atEnd := 0, false;
    }

    lemma MeaningOf(b: nat)
      requires Meaning()
      ensures journal.Valid() && (journal.transactions > 0 ==> journal.firstDesc < journal.J.count)
      ensures node(b) == parse(journal.J.ReplayAll(journal.firstDesc, journal.transactions)(b))
    {
    }

    /** The slot that nodes of a level are read into. */
    function SlotOf(d: nat): nat {
      if d < cachedSlots then d else cachedSlots
    }

    /** Brings the node of a block at a level below the root into its slot. */
    method ReadTreeNode(blockNr: nat, d: nat) returns (ok: bool, c: nat)
      requires Valid() && 1 <= d < depth && blockNr != 0
      modifies slots, blocks
      ensures ok <==> node(blockNr).level == d || (d < cachedSlots && old(blocks[d]) == blockNr)
      ensures ok ==> Valid() && c == SlotOf(d) && slots[c] == node(blockNr)
      ensures ok ==> blocks[..] == old(blocks[..])[d := blockNr]
      ensures ok ==> forall s :: 0 <= s <= cachedSlots && s != c ==> slots[s] == old(slots[s])
    {
      hide Meaning, Tree, journal.Valid, journal.J.ReplayAll;
      MeaningOf(blockNr);
      c := d;
      if d < cachedSlots {
        if blockNr == blocks[d] {
          return true, c;
        }
      } else {
        c := cachedSlots;
      }
      var data := journal.BlockRead(blockNr);
      slots[c] := parse(data);
      if slots[c].level != d {
        return false, c;
      }
      blocks[d] := blockNr;
      ok := true;
    }

    /** Goes from level `d` down to child number `j`, leaving the number of the child after it. */
    method Descend(d: nat, j: nat, c: nat) returns (ok: bool, c': nat)
      requires Valid() && 2 <= d <= depth && Linked(node, PathNow(), depth, d)
      requires c <= cachedSlots && slots[c] == node(PathNow().blocks[d]) && j < |slots[c].kids|
      modifies slots, blocks, nextKeyNr
      ensures ok && Valid() && PathNow() == Stepped(node, old(PathNow()), d, j)
      ensures c' == SlotOf(d - 1) && slots[c'] == node(PathNow().blocks[d - 1])
      ensures forall s :: 0 <= s <= cachedSlots && s != c' ==> slots[s] == old(slots[s])
      ensures forall e :: 0 <= e < MAX_HEIGHT && e != d - 1 ==> blocks[e] == old(blocks[e])
    {
      hide Tree, Meaning, Coherent, Linked;
      ghost var p := PathNow();
      PathDown(node, p, depth, d, j);
      var n := slots[c];
      nextKeyNr[d] := if j == |n.keys| then 0 else j + 1;
      ok, c' := ReadTreeNode(n.kids[j], d - 1);
      assert blocks[..][depth := root] == p.blocks[d - 1 := n.kids[j]];
      assert nextKeyNr[..] == p.next[d := if j == |n.keys| then 0 else j + 1];
    }

    /** The first key above an object's first item. */
    method FindChild(n: Node, dir: nat, obj: nat) returns (i: nat)
      ensures i <= |n.keys| && (i < |n.keys| ==> Less(Stat(dir, obj), n.keys[i]))
      ensures forall m :: 0 <= m < i ==> !Less(Stat(dir, obj), n.keys[m])
    {
      i := 0;
      while i < |n.keys|
        invariant 0 <= i <= |n.keys| && forall m :: 0 <= m < i ==> !Less(Stat(dir, obj), n.keys[m])
      {
        var key := n.keys[i];
        if key.dir > dir || (key.dir == dir && (key.obj > obj || (key.obj == obj && key.rest > 0))) {
          break;
        }
        i := i + 1;
      }
    }

    /** Finds the first item of an object; the cursor then stands at it. */
    method SearchStat(dir: nat, obj: nat) returns (ok: bool)
      requires Valid()
      modifies this`cur, this`atEnd, slots, blocks, nextKeyNr
      ensures Valid()
      ensures ok ==> Placed() && Current().key == Key(dir, obj, 0)
                     && exists before: seq<Item> :: Items(node, depth, root) == before + [Current()] + Ahead()
      ensures !ok && Ordered(node, depth, root) ==>
                forall it :: it in Items(node, depth, root) ==> it.key != Stat(dir, obj)
    {
      hide Tree, Meaning, Coherent, Linked, Items, Ordered, Upper, Split, Narrowed;
      ghost var key := Stat(dir, obj);
      ghost var before: seq<Item> := [];
      var d, c := depth, 0;
      StartSearch(key);
      while d > LEAF_LEVEL
        invariant 1 <= d <= depth && Valid() && c == (if d == depth then 0 else SlotOf(d))
        invariant Split(node, depth, root, before, d, PathNow())
                  && Narrowed(node, depth, root, key, d, PathNow().blocks[d])
        invariant slots[c] == node(PathNow().blocks[d]) && (d <= cachedSlots ==> SharedSlot())
      {
        var n := slots[c];
        ghost var p := PathNow();
        var i := FindChild(n, dir, obj);
        SplitDown(node, depth, root, before, d, p, i);
        NarrowDown(node, depth, root, key, d, p.blocks[d], i);
        ok, c := Descend(d, i, c);
        before := before + ItemsOf(node, d - 1, n.kids[..i]);
        d := d - 1;
      }
      LeafSlot(c);
      assert slots[1] == node(PathNow().blocks[1]);
      var i := 0;
      while i < |slots[1].items|
        invariant 0 <= i <= |slots[1].items|
        invariant forall m :: 0 <= m < i ==> slots[1].items[m].key != key
      {
        var ih := slots[1].items[i];
        if ih.key.dir == dir && ih.key.obj == obj && ih.key.rest == 0 {
          cur, atEnd := i, false;
          Landed(before);
          return true;
        }
        i := i + 1;
      }
      NotThere(key);
      ok := false;
    }

    lemma StartSearch(key: Key)
      requires Valid()
      ensures Split(node, depth, root, [], depth, PathNow()) && Narrowed(node, depth, root, key, depth, root)
      ensures slots[0] == node(PathNow().blocks[depth]) && (depth <= cachedSlots ==> SharedSlot())
    {
    }

    /** At level 1 the node is in the leaf slot, also when it is the root. */
    lemma LeafSlot(c: nat)
      requires Valid() && c <= cachedSlots && c == (if 1 == depth then 0 else SlotOf(1))
      requires slots[c] == node(PathNow().blocks[1])
      ensures slots[1] == node(PathNow().blocks[1])
    {
    }

    lemma Landed(before: seq<Item>)
      requires Valid() && SharedSlot() && !atEnd
      requires 1 <= cachedSlots && cur < |slots[1].items|
      requires Split(node, depth, root, before, 1, PathNow()) && slots[1] == node(PathNow().blocks[1])
      ensures Placed() && Items(node, depth, root) == (before + slots[1].items[..cur]) + [Current()] + Ahead()
    {
      hide Upper, Linked, Tree, Meaning, Coherent;
    }

    lemma NotThere(key: Key)
      requires Valid() && Narrowed(node, depth, root, key, 1, PathNow().blocks[1])
      requires slots[1] == node(PathNow().blocks[1])
      requires forall m :: 0 <= m < |slots[1].items| ==> slots[1].items[m].key != key
      ensures Ordered(node, depth, root) ==> forall it :: it in Items(node, depth, root) ==> it.key != key
    {
      hide Ordered, Tree, Meaning, Coherent;
      assert Items(node, 1, PathNow().blocks[1]) == slots[1].items;
    }

    /** Moves to the item behind the current one in tree order; at the end, to the dummy item. */
    method NextKey() returns (ok: bool)
      requires Placed()
      modifies this`cur, this`atEnd, slots, blocks, nextKeyNr
      ensures ok && (atEnd <==> old(Ahead()) == [])
      ensures !atEnd ==> Placed() && old(Ahead()) == [Current()] + Ahead()
    {
      hide Tree, Meaning, Coherent, Linked, Items, Upper, SharedSlot, Stepped, FromChild, ItemsOf, ChildNr;
      if cur + 1 < |slots[1].items| {
        cur := cur + 1;
        return true;
      }
      ok := NextLeaf();
    }

    /** From the last item of a leaf to the first of the next one. */
    method NextLeaf() returns (ok: bool)
      requires Placed() && cur + 1 == |slots[1].items|
      modifies this`cur, this`atEnd, slots, blocks, nextKeyNr
      ensures ok && (atEnd <==> old(Ahead()) == [])
      ensures !atEnd ==> Placed() && old(Ahead()) == [Current()] + Ahead()
    {
      hide Tree, Meaning, Coherent, Linked, Items, Upper, ToCome, Skipped, Stepped, FromChild, ItemsOf, ChildNr,
           SharedSlot;
      ghost var goal := Ahead();
      LeafUsedUp();
      var d := FindLevel(goal);
      if d == 0 {
        atEnd := true;
        return true;
      }
      var c := ReopenLevel(d);
      DescendToLeaf(d, c, goal);
      cur := 0;
      ok := true;
      AtFirstItem(goal);
    }

    lemma LeafUsedUp()
      requires Placed() && cur + 1 == |slots[1].items|
      ensures Skipped(node, depth, PathNow(), 1, Ahead())
    {
      hide Tree, Meaning, Coherent, Linked, Items, Upper, ToCome, Skipped;
      SkipStart(node, depth, PathNow());
      assert Ahead() == Upper(node, PathNow(), depth, 1);
    }

    lemma AtFirstItem(goal: seq<Item>)
      requires Valid() && SharedSlot() && !atEnd && cur == 0 && slots[1] == node(PathNow().blocks[1])
      requires ToCome(node, depth, PathNow(), 1, goal)
      ensures Placed() && goal == [Current()] + Ahead()
    {
      hide Tree, Meaning, Coherent, Linked, Items, Upper, ToCome;
      AtFirst(node, depth, PathNow(), goal);
    }

    /** The lowest level with a child left to visit; zero if there is none. */
    method FindLevel(ghost goal: seq<Item>) returns (d: nat)
      requires Placed() && Skipped(node, depth, PathNow(), 1, goal)
      ensures d == 0 ==> goal == []
      ensures d > 0 ==> 2 <= d <= depth && ToCome(node, depth, PathNow(), d, goal) && goal != []
    {
      hide Tree, Meaning, Coherent, Linked, Items, Upper, ToCome, Skipped;
      d := LEAF_LEVEL;
      while true
        invariant 1 <= d <= depth && Skipped(node, depth, PathNow(), d, goal)
        decreases depth - d
      {
        if d == depth {
          SkippedAll(node, depth, PathNow(), goal);
          return 0;
        }
        d := d + 1;
        if nextKeyNr[d] != 0 {
          break;
        }
        SkipLevel(node, depth, PathNow(), d, goal);
      }
      LevelFound(node, depth, PathNow(), d, goal);
    }

    /** Follows the children to be visited next down to a leaf. */
    method DescendToLeaf(d0: nat, c0: nat, ghost goal: seq<Item>)
      requires Valid() && 2 <= d0 <= depth && c0 <= cachedSlots && slots[c0] == node(PathNow().blocks[d0])
      requires ToCome(node, depth, PathNow(), d0, goal) && (d0 <= cachedSlots ==> SharedSlot())
      modifies slots, blocks, nextKeyNr
      ensures Valid() && SharedSlot() && ToCome(node, depth, PathNow(), 1, goal)
      ensures slots[1] == node(PathNow().blocks[1])
    {
      hide Tree, Meaning, Coherent, Linked, Items, Upper, ToCome, Stepped;
      var d: nat, c: nat := d0, c0;
      var ok;
      while d > LEAF_LEVEL
        invariant 1 <= d <= depth && Valid() && c <= cachedSlots && (d == 1 ==> c == 1)
        invariant slots[c] == node(PathNow().blocks[d])
        invariant ToCome(node, depth, PathNow(), d, goal) && (d <= cachedSlots ==> SharedSlot())
        decreases d
      {
        var j := nextKeyNr[d];
        DownOnce(node, depth, PathNow(), d, goal);
        ok, c := Descend(d, j, c);
        d := d - 1;
      }
    }

    /** The slot with the path's node at level `d`, read again if another level has taken its place. */
    method ReopenLevel(d: nat) returns (c: nat)
      requires Placed() && 2 <= d <= depth
      modifies slots, blocks
      ensures Valid() && PathNow() == old(PathNow()) && c <= cachedSlots && slots[c] == node(PathNow().blocks[d])
      ensures d <= cachedSlots ==> SharedSlot()
    {
      hide Tree, Meaning, Linked;
      if d == depth {
        c := 0;
      } else {
        PathTree(node, PathNow(), depth, d);
        if d <= cachedSlots {
          c := d;
        } else {
          var ok;
          ok, c := ReadTreeNode(blocks[d], d);
          assert blocks[..] == old(blocks[..]);
        }
      }
    }
  }

  lemma LinkedNexts(node: Store, p: Path, top: nat, d: nat)
    requires Linked(node, p, top, d)
    ensures forall e :: d < e <= top ==> p.next[e] <= |node(p.blocks[e]).kids|
  {
    forall e | d < e <= top
      ensures p.next[e] <= |node(p.blocks[e]).kids|
    {
      assert Link(node, p, e);
    }
  }
}