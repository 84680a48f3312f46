/**
  The red-black tree of the standalone example: insertion with the bottom-up fix-up
  of Cormen et al. (recolour when the uncle is red, one or two rotations when it is
  black), the two rotations, and the three traversals.

  The tree is an immutable datatype. The sentinel `TNULL` is `Leaf`, whose colour is
  black, and parent pointers are replaced by recursion: the fix-up the loop performs
  at `k`'s grandparent is performed here when the recursion returns to that
  grandparent, and the side the loop tests with `k == k.parent.left` is the side the
  descent took, which the key comparison decides.
*/
module RedBlackTree {
  datatype Color = Red | Black

  datatype Tree = Leaf | Node(color: Color, left: Tree, key: int, right: Tree)

  /** The sentinel leaf is black. */
  function ColorOf(t: Tree): Color
  {
    if t.Leaf? then Black else t.color
  }

  /** Recolour a node; the sentinel keeps its colour. */
  function Paint(t: Tree, c: Color): Tree
  {
    if t.Leaf? then Leaf else t.(color := c)
  }

  // ---------------------------------------------------------------------------
  // Traversals

  function PreOrder(t: Tree): seq<int>
  {
    match t
    case Leaf => []
    case Node(_, l, k, r) => [k] + PreOrder(l) + PreOrder(r)
  }

  function InOrder(t: Tree): seq<int>
  {
    match t
    case Leaf => []
    case Node(_, l, k, r) => InOrder(l) + [k] + InOrder(r)
  }

  function PostOrder(t: Tree): seq<int>
  {
    match t
    case Leaf => []
    case Node(_, l, k, r) => PostOrder(l) + PostOrder(r) + [k]
  }

  /** The keys stored in a tree, one occurrence per node. */
  function Keys(t: Tree): multiset<int>
  {
    match t
    case Leaf => multiset{}
    case Node(_, l, k, r) => Keys(l) + multiset{k} + Keys(r)
  }

  function Size(t: Tree): nat
  {
    match t
    case Leaf => 0
    case Node(_, l, _, r) => Size(l) + 1 + Size(r)
  }

  /** Each traversal lists every node's key exactly once. */
  lemma TraversalsVisitEachKey(t: Tree)
    ensures multiset(PreOrder(t)) == Keys(t) && |PreOrder(t)| == Size(t)
    ensures multiset(InOrder(t)) == Keys(t) && |InOrder(t)| == Size(t)
    ensures multiset(PostOrder(t)) == Keys(t) && |PostOrder(t)| == Size(t)
  {
    PreOrderKeys(t);
    InOrderKeys(t);
    PostOrderKeys(t);
  }

  lemma {:induction false} PreOrderKeys(t: Tree)
    ensures multiset(PreOrder(t)) == Keys(t) && |PreOrder(t)| == Size(t)
  {
    match t
    case Leaf =>
    case Node(_, l, k, r) =>
      PreOrderKeys(l);
      PreOrderKeys(r);
  }

  lemma {:induction false} InOrderKeys(t: Tree)
    ensures multiset(InOrder(t)) == Keys(t) && |InOrder(t)| == Size(t)
  {
    match t
    case Leaf =>
    case Node(_, l, k, r) =>
      InOrderKeys(l);
      InOrderKeys(r);
  }

  lemma {:induction false} PostOrderKeys(t: Tree)
    ensures multiset(PostOrder(t)) == Keys(t) && |PostOrder(t)| == Size(t)
  {
    match t
    case Leaf =>
    case Node(_, l, k, r) =>
      PostOrderKeys(l);
      PostOrderKeys(r);
  }

  // ---------------------------------------------------------------------------
  // Rotations

  /** `leftRotate(x)`: the right child `y` takes `x`'s place, `x` becomes `y`'s left child
      and `y`'s old left subtree becomes `x`'s right one; no colour changes. */
  function RotateLeft(t: Tree): (r: Tree)
    requires t.Node? && t.right.Node?
    ensures r.Node? && r.left.Node?
    ensures r.color == t.right.color && r.left.color == t.color
    ensures InOrder(r) == InOrder(t)
  {
    var y := t.right;
    Node(y.color, Node(t.color, t.left, t.key, y.left), y.key, y.right)
  }

  /** `rightRotate(x)`, the mirror image. */
  function RotateRight(t: Tree): (r: Tree)
    requires t.Node? && t.left.Node?
    ensures r.Node? && r.right.Node?
    ensures r.color == t.left.color && r.right.color == t.color
    ensures InOrder(r) == InOrder(t)
  {
    var y := t.left;
    Node(y.color, y.left, y.key, Node(t.color, y.right, t.key, t.right))
  }

  /** The rotations undo each other. */
  lemma RotationsInverse(t: Tree)
    requires t.Node? && t.right.Node?
    ensures RotateRight(RotateLeft(t)) == t
  {
  }

  // ---------------------------------------------------------------------------
  // Insertion

  /** Whether the child the descent of `x` entered is red: the node `k` of the fix-up
      loop, when `p` is its parent. */
  predicate PathChildRed(p: Tree, x: int)
    requires p.Node?
  {
    ColorOf(if x < p.key then p.left else p.right) == Red
  }

  /** One round of `fixInsert` at the grandparent `Node(c, p, g, u)` whose left child `p`
      is `k.parent`: nothing when `p` and `k` are not both red; otherwise recolour when
      the uncle `u` is red, else rotate `p` left first when `k` is an inner child, then
      blacken the parent, redden the grandparent and rotate it right. */
  function FixLeft(c: Color, p: Tree, g: int, u: Tree, x: int): (r: Tree)
    requires p.Node?
    ensures r.Node?
  {
    if p.color == Red && PathChildRed(p, x) then
      if ColorOf(u) == Red then Node(Red, Paint(p, Black), g, Paint(u, Black))
      else if x < p.key then RotateRight(Node(Red, Paint(p, Black), g, u))
      else RotateRight(Node(Red, Paint(RotateLeft(p), Black), g, u))
    else Node(c, p, g, u)
  }

  /** The mirror image, for `k.parent == k.parent.parent.right`. */
  function FixRight(c: Color, u: Tree, g: int, p: Tree, x: int): (r: Tree)
    requires p.Node?
    ensures r.Node?
  {
    if p.color == Red && PathChildRed(p, x) then
      if ColorOf(u) == Red then Node(Red, Paint(u, Black), g, Paint(p, Black))
      else if !(x < p.key) then RotateLeft(Node(Red, u, g, Paint(p, Black)))
      else RotateLeft(Node(Red, u, g, Paint(RotateRight(p), Black)))
    else Node(c, u, g, p)
  }

  /** The descent of `insert` (smaller keys left, equal and larger right), a red leaf
      where it ends, and the fix-up on the way back. */
  function Ins(t: Tree, x: int): (r: Tree)
    ensures r.Node?
  {
    match t
    case Leaf => Node(Red, Leaf, x, Leaf)
    case Node(c, l, k, rt) =>
      if x < k then FixLeft(c, Ins(l, x), k, rt, x)
      else FixRight(c, l, k, Ins(rt, x), x)
  }

  /** `insert`: the fix-up, then a black root. */
  function Insert(t: Tree, x: int): (r: Tree)
    ensures r.Node? && r.color == Black
    ensures t == Leaf ==> r == Node(Black, Leaf, x, Leaf)
  {
    Paint(Ins(t, x), Black)
  }

  // ---------------------------------------------------------------------------
  // Ordering

  ghost predicate Sorted(s: seq<int>)
  {
    forall i, j | 0 <= i < j < |s| :: s[i] <= s[j]
  }

  /** Reference placement: `x` goes before the first element larger than it, so after
      every element equal to it. */
  function InsertSorted(s: seq<int>, x: int): seq<int>
  {
    if s == [] || x < s[0] then [x] + s
    else [s[0]] + InsertSorted(s[1..], x)
  }

  /** `x` lands between the elements not larger than it and those larger, whatever `s`. */
  lemma {:induction false} InsertSortedPlace(s: seq<int>, x: int) returns (n: nat)
    ensures n <= |s| && InsertSorted(s, x) == s[..n] + [x] + s[n..]
    ensures forall i | 0 <= i < n :: s[i] <= x
    ensures n < |s| ==> x < s[n]
  {
    if s == [] || x < s[0] {
      n := 0;
    } else {
      var m := InsertSortedPlace(s[1..], x);
      n := m + 1;
      assert s[..n] == [s[0]] + s[1..][..m];
      assert s[n..] == s[1..][m..];
    }
  }

  /** Inserting into a sorted sequence keeps it sorted and adds exactly one `x`. */
  lemma InsertSortedSpec(s: seq<int>, x: int)
    ensures multiset(InsertSorted(s, x)) == multiset(s) + multiset{x}
    ensures Sorted(s) ==> Sorted(InsertSorted(s, x))
  {
    var n := InsertSortedPlace(s, x);
    assert s == s[..n] + s[n..];
    if Sorted(s) {
      InsertSortedSorted(s, x, n);
    }
  }

  lemma InsertSortedSorted(s: seq<int>, x: int, n: nat)
    requires Sorted(s) && n <= |s| && InsertSorted(s, x) == s[..n] + [x] + s[n..]
    requires forall i | 0 <= i < n :: s[i] <= x
    requires n < |s| ==> x < s[n]
    ensures Sorted(InsertSorted(s, x))
  {
    var r := s[..n] + [x] + s[n..];
    assert forall i | 0 <= i < n :: r[i] == s[i];
    assert r[n] == x;
    assert forall i | n < i < |r| :: r[i] == s[i - 1];
  }

  /** Placing `x` in a concatenation: in the first part unless `x` passes all of it. */
  lemma {:induction false} InsertSortedAppend(a: seq<int>, b: seq<int>, x: int)
    ensures InsertSorted(a + b, x)
         == if forall i | 0 <= i < |a| :: a[i] <= x then a + InsertSorted(b, x) else InsertSorted(a, x) + b
  {
    if a == [] {
      assert a + b == b;
    } else {
      assert (a + b)[0] == a[0] && (a + b)[1..] == a[1..] + b;
      InsertSortedAppend(a[1..], b, x);
      if forall i | 0 <= i < |a| :: a[i] <= x {
        assert forall i | 0 <= i < |a[1..]| :: a[1..][i] <= x;
        assert a == [a[0]] + a[1..];
      } else if x < a[0] {
      } else {
        var i :| 0 <= i < |a| && a[i] > x;
        assert a[1..][i - 1] > x;
      }
    }
  }

  lemma SortedParts(l: seq<int>, k: int, r: seq<int>)
    requires Sorted(l + [k] + r)
    ensures Sorted(l) && Sorted(r)
    ensures forall i | 0 <= i < |l| :: l[i] <= k
  {
    var s := l + [k] + r;
    assert forall i | 0 <= i < |l| :: s[i] == l[i];
    assert forall i | 0 <= i < |r| :: s[|l| + 1 + i] == r[i];
    assert s[|l|] == k;
  }

  /** The fix-up rounds only rotate and recolour: the in-order sequence is the one of
      the node before the round. */
  lemma FixLeftInOrder(c: Color, p: Tree, g: int, u: Tree, x: int)
    requires p.Node?
    ensures InOrder(FixLeft(c, p, g, u, x)) == InOrder(p) + [g] + InOrder(u)
  {
    if p.color == Red && PathChildRed(p, x) && ColorOf(u) == Black {
      var q := if x < p.key then p else RotateLeft(p);
      assert InOrder(Paint(q, Black)) == InOrder(p);
    }
  }

  lemma FixRightInOrder(c: Color, u: Tree, g: int, p: Tree, x: int)
    requires p.Node?
    ensures InOrder(FixRight(c, u, g, p, x)) == InOrder(u) + [g] + InOrder(p)
  {
    if p.color == Red && PathChildRed(p, x) && ColorOf(u) == Black {
      var q := if !(x < p.key) then p else RotateRight(p);
      assert InOrder(Paint(q, Black)) == InOrder(p);
    }
  }

  lemma InsertSortedCons(k: int, s: seq<int>, x: int)
    ensures InsertSorted([k] + s, x) == if x < k then [x] + ([k] + s) else [k] + InsertSorted(s, x)
  {
    assert ([k] + s)[0] == k && ([k] + s)[1..] == s;
  }

  lemma InsertSortedAbove(s: seq<int>, x: int)
    requires forall i | 0 <= i < |s| :: s[i] <= x
    ensures InsertSorted(s, x) == s + [x]
  {
    InsertSortedAppend(s, [], x);
    assert s + [] == s;
  }

  /** The descent and the fix-up place `x` in the in-order sequence exactly where the
      reference placement puts it. */
  lemma {:induction false} InsInOrder(t: Tree, x: int)
    requires Sorted(InOrder(t))
    ensures InOrder(Ins(t, x)) == InsertSorted(InOrder(t), x)
    decreases t, 0
  {
    match t
    case Leaf =>
    case Node(c, l, k, r) =>
      var ls, rs := InOrder(l), InOrder(r);
      SortedParts(ls, k, rs);
      assert InOrder(t) == ls + ([k] + rs);
      InsertSortedAppend(ls, [k] + rs, x);
      InsertSortedCons(k, rs, x);
      if x < k {
        InsLeftInOrder(c, l, k, r, x);
        if forall i | 0 <= i < |ls| :: ls[i] <= x {
          InsertSortedAbove(ls, x);
        }
      } else {
        InsRightInOrder(c, l, k, r, x);
      }
  }

  lemma {:induction false} InsLeftInOrder(c: Color, l: Tree, k: int, r: Tree, x: int)
    requires Sorted(InOrder(l) + [k] + InOrder(r)) && x < k
    ensures InOrder(Ins(Node(c, l, k, r), x)) == InsertSorted(InOrder(l), x) + ([k] + InOrder(r))
    decreases l, 1
  {
    SortedParts(InOrder(l), k, InOrder(r));
    InsInOrder(l, x);
    FixLeftInOrder(c, Ins(l, x), k, r, x);
  }

  lemma {:induction false} InsRightInOrder(c: Color, l: Tree, k: int, r: Tree, x: int)
    requires Sorted(InOrder(l) + [k] + InOrder(r)) && k <= x
    ensures InOrder(Ins(Node(c, l, k, r), x)) == InOrder(l) + ([k] + InsertSorted(InOrder(r), x))
    decreases r, 1
  {
    SortedParts(InOrder(l), k, InOrder(r));
    InsInOrder(r, x);
    FixRightInOrder(c, l, k, Ins(r, x), x);
  }

  /** After `insert(x)` the in-order sequence is the old one with `x` placed after every
      key not larger than it: still sorted, with one more `x`. */
  lemma InsertInOrder(t: Tree, x: int)
    requires Sorted(InOrder(t))
    ensures InOrder(Insert(t, x)) == InsertSorted(InOrder(t), x)
    ensures Sorted(InOrder(Insert(t, x)))
    ensures multiset(InOrder(Insert(t, x))) == multiset(InOrder(t)) + multiset{x}
  {
    InsInOrder(t, x);
    InsertSortedSpec(InOrder(t), x);
  }

  // ---------------------------------------------------------------------------
  // Colour invariants

  /** No red node has a red child. */
  predicate NoRedRed(t: Tree)
  {
    match t
    case Leaf => true
    case Node(c, l, _, r) =>
      && NoRedRed(l) && NoRedRed(r)
      && (c == Red ==> ColorOf(l) == Black && ColorOf(r) == Black)
  }

  /** Black nodes on the leftmost path. */
  function BlackHeight(t: Tree): nat
  {
    match t
    case Leaf => 0
    case Node(c, l, _, _) => BlackHeight(l) + (if c == Black then 1 else 0)
  }

  /** Both subtrees of every node have the same black height. */
  predicate Balanced(t: Tree)
  {
    match t
    case Leaf => true
    case Node(_, l, _, r) => Balanced(l) && Balanced(r) && BlackHeight(l) == BlackHeight(r)
  }

  /** The number of black nodes on each path from `t` down to a leaf. */
  function PathBlacks(t: Tree): set<nat>
  {
    match t
    case Leaf => {0}
    case Node(c, l, _, r) =>
      var b := if c == Black then 1 else 0;
      set n | n in PathBlacks(l) + PathBlacks(r) :: n + b
  }

  /** `Balanced` says exactly that every root-to-leaf path holds the same number of black
      nodes. */
  lemma {:induction false} BalancedPaths(t: Tree)
    ensures Balanced(t) <==> PathBlacks(t) == {BlackHeight(t)}
  {
    match t
    case Leaf =>
    case Node(c, l, _, r) =>
      var b := if c == Black then 1 else 0;
      BalancedPaths(l);
      BalancedPaths(r);
      LeftmostPath(l);
      LeftmostPath(r);
      if Balanced(t) {
        assert PathBlacks(l) + PathBlacks(r) == {BlackHeight(l)};
      }
      if PathBlacks(t) == {BlackHeight(t)} {
        forall n | n in PathBlacks(l) + PathBlacks(r) ensures n == BlackHeight(l) {
          assert n + b in PathBlacks(t);
        }
        assert PathBlacks(l) == {BlackHeight(l)};
        assert PathBlacks(r) == {BlackHeight(l)};
        assert BlackHeight(r) == BlackHeight(l);
      }
  }

  lemma {:induction false} LeftmostPath(t: Tree)
    ensures BlackHeight(t) in PathBlacks(t)
  {
    match t
    case Leaf =>
    case Node(c, l, _, r) =>
      LeftmostPath(l);
      var b := if c == Black then 1 else 0;
      assert BlackHeight(l) in PathBlacks(l) + PathBlacks(r);
  }

  /** The invariants the class keeps: sorted keys, a black root, no red node with a red
      child, equal black counts on all paths. */
  ghost predicate IsRedBlack(t: Tree)
  {
    Sorted(InOrder(t)) && ColorOf(t) == Black && NoRedRed(t) && Balanced(t)
  }

  /** A round at a black grandparent: whatever it does, the subtree it returns has no
      red-red pair and the black height of the grandparent. */
  lemma FixLeftBlack(p: Tree, g: int, u: Tree, x: int)
    requires p.Node? && NoRedRed(p.left) && NoRedRed(p.right) && NoRedRed(u)
    requires p.color == Red ==> ColorOf(if x < p.key then p.right else p.left) == Black
    requires Balanced(p) && Balanced(u) && BlackHeight(p) == BlackHeight(u)
    ensures NoRedRed(FixLeft(Black, p, g, u, x)) && Balanced(FixLeft(Black, p, g, u, x))
    ensures BlackHeight(FixLeft(Black, p, g, u, x)) == BlackHeight(p) + 1
  {
  }

  lemma FixRightBlack(u: Tree, g: int, p: Tree, x: int)
    requires p.Node? && NoRedRed(p.left) && NoRedRed(p.right) && NoRedRed(u)
    requires p.color == Red ==> ColorOf(if x < p.key then p.right else p.left) == Black
    requires Balanced(p) && Balanced(u) && BlackHeight(p) == BlackHeight(u)
    ensures NoRedRed(FixRight(Black, u, g, p, x)) && Balanced(FixRight(Black, u, g, p, x))
    ensures BlackHeight(FixRight(Black, u, g, p, x)) == BlackHeight(p) + 1
  {
  }

  /** What the insertion below a node hands back: the same black height, no red-red
      pair below its root, none at all under a black node, and under a red node no
      round of the fix-up (its parent is black, so the loop stops). */
  lemma {:induction false} InsColors(t: Tree, x: int)
    requires NoRedRed(t) && Balanced(t)
    ensures Balanced(Ins(t, x)) && BlackHeight(Ins(t, x)) == BlackHeight(t)
    ensures NoRedRed(Ins(t, x).left) && NoRedRed(Ins(t, x).right)
    ensures ColorOf(t) == Black ==> NoRedRed(Ins(t, x))
    ensures ColorOf(t) == Red ==>
              Ins(t, x) == if x < t.key then Node(Red, Ins(t.left, x), t.key, t.right)
                           else Node(Red, t.left, t.key, Ins(t.right, x))
  {
    match t
    case Leaf =>
    case Node(c, l, k, r) =>
      InsColors(l, x);
      InsColors(r, x);
      if c == Red {
        assert ColorOf(l) == Black && ColorOf(r) == Black;
      } else if x < k {
        FixLeftBlack(Ins(l, x), k, r, x);
      } else {
        FixRightBlack(l, k, Ins(r, x), x);
      }
  }

  /** `insert` keeps every red-black invariant. */
  lemma InsertRedBlack(t: Tree, x: int)
    requires IsRedBlack(t)
    ensures IsRedBlack(Insert(t, x))
    ensures BlackHeight(t) <= BlackHeight(Insert(t, x)) <= BlackHeight(t) + 1
  {
    InsertInOrder(t, x);
    InsColors(t, x);
  }

  /** The six insertions of the demonstration and the three traversals they print. */
  lemma Demonstration()
    ensures var t := Insert(Insert(Insert(Insert(Insert(Insert(Leaf, 55), 40), 65), 60), 75), 57);
            && PreOrder(t) == [55, 40, 65, 60, 57, 75]
            && InOrder(t) == [40, 55, 57, 60, 65, 75]
            && PostOrder(t) == [40, 57, 60, 75, 65, 55]
  {
  }
}
