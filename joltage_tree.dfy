/**
 * The first joltage solver: every digit of a line is inserted into a pruned tree whose
 * root-to-node paths are ordered choices of digits, at most `maxDepth` deep.  Each node
 * records the depth of the deepest leaf below it; `Max` then follows, level by level, the
 * first child that reaches `maxDepth`.
 *
 * Nodes are values here: the source owns every node through its parent, so updating a
 * child through `&mut` is the same as replacing it with its updated copy.
 */
module JoltageTree {
  import opened Options
  import opened Digits
  import opened Subsequences
  import JoltageSift

  /** A tree node: its digit, the depth of the deepest leaf under it, and its children. */
  datatype Node = Node(value: int, deepest: nat, children: seq<Node>)

  /** `std::cmp::max`. */
  function MaxNat(a: nat, b: nat): nat
  {
    if a < b then b else a
  }

  /** The largest `deepest` among the nodes (0 for none). */
  function MaxDeepest(kids: seq<Node>): nat
  {
    if kids == [] then 0 else MaxNat(MaxDeepest(kids[..|kids| - 1]), kids[|kids| - 1].deepest)
  }

  /**
   * `cmp_max_child_to(val).map_or(true, |res| res == Less)`: a new child goes in front
   * when there are no children or the first child's digit is smaller.
   */
  predicate PushesFront(node: Node, val: int)
  {
    node.children == [] || node.children[0].value < val
  }

  /** The children whose deepest leaf reaches `bound`, in order (the `retain` test). */
  function KeepReaching(kids: seq<Node>, bound: nat): seq<Node>
  {
    if kids == [] then []
    else
      var last := kids[|kids| - 1];
      KeepReaching(kids[..|kids| - 1], bound) + (if last.deepest < bound then [] else [last])
  }

  /** The pruning after an insert: the first child stays, later ones need its deepest leaf. */
  function Prune(kids: seq<Node>): seq<Node>
  {
    if kids == [] then [] else [kids[0]] + KeepReaching(kids[1..], kids[0].deepest)
  }

  /**
   * `insert_internal(val, node, depth)`: the updated node and the depth it reports.  Up to
   * `maxDepth` nothing changes; otherwise a new front child may be added, every other child
   * gets the digit one level deeper, and the children are pruned.
   */
  function Inserted(val: int, node: Node, depth: nat, maxDepth: nat): (Node, nat)
    requires depth <= maxDepth
    decreases maxDepth - depth, 1
  {
    if depth == maxDepth then (node, depth)
    else
      var pushed := PushesFront(node, val);
      var (kids', d) := InsertedKids(val, WithLeaf(node, val, depth), if pushed then 1 else 0,
                                   depth, maxDepth, if pushed then depth + 1 else depth);
      (Node(node.value, d, Prune(kids')), d)
  }

  /** The children once the new digit is pushed in front as a leaf, when it is. */
  function WithLeaf(node: Node, val: int, depth: nat): seq<Node>
  {
    if PushesFront(node, val) then [Node(val, depth + 1, [])] + node.children else node.children
  }

  /**
   * The children loop of `insert_internal` from index i on: each child gets the digit one
   * level deeper, and `acc` (`deepest_child`) keeps the largest depth reported.
   */
  function InsertedKids(val: int, kids: seq<Node>, i: nat, depth: nat, maxDepth: nat, acc: nat)
    : (seq<Node>, nat)
    requires depth < maxDepth && i <= |kids|
    decreases maxDepth - depth, 0, |kids| - i
  {
    if i == |kids| then (kids, acc)
    else
      var (k, d) := Inserted(val, kids[i], depth + 1, maxDepth);
      InsertedKids(val, kids[i := k], i + 1, depth, maxDepth, MaxNat(d, acc))
  }

  /**
   * The shape every node keeps: its depth is at most `maxDepth` and a node at `maxDepth`
   * has no children; `deepest` lies between its depth and `maxDepth` and is the largest of
   * its own depth and its children's `deepest`; and so on down the tree.
   */
  predicate WellFormed(node: Node, depth: nat, maxDepth: nat)
    decreases node
  {
    && depth <= node.deepest <= maxDepth
    && (depth == maxDepth ==> node.children == [])
    && node.deepest == MaxNat(depth, MaxDeepest(node.children))
    && forall j :: 0 <= j < |node.children| ==> WellFormed(node.children[j], depth + 1, maxDepth)
  }

  /** Every node in kids is well formed at the given depth. */
  predicate AllWellFormed(kids: seq<Node>, depth: nat, maxDepth: nat)
  {
    forall j :: 0 <= j < |kids| ==> WellFormed(kids[j], depth, maxDepth)
  }

  /** The children's digits strictly decrease from front to back. */
  predicate Descending(kids: seq<Node>)
  {
    forall i, j :: 0 <= i < j < |kids| ==> kids[i].value > kids[j].value
  }

  /** Every node's children are in strictly decreasing digit order, all the way down. */
  predicate Sorted(node: Node)
    decreases node
  {
    Descending(node.children) && forall j :: 0 <= j < |node.children| ==> Sorted(node.children[j])
  }

  /** MaxDeepest is an upper bound of every `deepest`, and one of them when there are any. */
  lemma {:induction false} MaxDeepestIsMax(kids: seq<Node>)
    ensures forall j :: 0 <= j < |kids| ==> kids[j].deepest <= MaxDeepest(kids)
    ensures kids != [] ==> exists j :: 0 <= j < |kids| && kids[j].deepest == MaxDeepest(kids)
  {
    if kids != [] {
      var init, last := kids[..|kids| - 1], kids[|kids| - 1];
      MaxDeepestIsMax(init);
      forall j | 0 <= j < |init| ensures kids[j] == init[j] {
      }
      if init == [] {
        assert MaxDeepest(kids) == last.deepest;
      } else if MaxDeepest(kids) != last.deepest {
        var j :| 0 <= j < |init| && init[j].deepest == MaxDeepest(init);
        assert kids[j].deepest == MaxDeepest(kids);
      }
    }
  }

  /** MaxDeepest is at most any common bound. */
  lemma {:induction false} MaxDeepestAtMost(kids: seq<Node>, m: nat)
    requires forall j :: 0 <= j < |kids| ==> kids[j].deepest <= m
    ensures MaxDeepest(kids) <= m
  {
    if kids != [] {
      var init := kids[..|kids| - 1];
      forall j | 0 <= j < |init| ensures init[j].deepest <= m {
        assert init[j] == kids[j];
      }
      MaxDeepestAtMost(init, m);
    }
  }

  /** The filter of the `retain` keeps exactly the nodes reaching the bound. */
  lemma {:induction false} KeepReachingMembers(kids: seq<Node>, bound: nat)
    ensures forall k :: k in KeepReaching(kids, bound) <==> k in kids && k.deepest >= bound
  {
    if kids != [] {
      var init := kids[..|kids| - 1];
      KeepReachingMembers(init, bound);
      assert kids == init + [kids[|kids| - 1]];
    }
  }

  /** Whatever holds of every child holds of every child the filter keeps. */
  lemma {:induction false} KeepReachingAll(kids: seq<Node>, bound: nat, P: Node -> bool)
    requires forall j :: 0 <= j < |kids| ==> P(kids[j])
    ensures forall j :: 0 <= j < |KeepReaching(kids, bound)| ==> P(KeepReaching(kids, bound)[j])
  {
    if kids != [] {
      var init := kids[..|kids| - 1];
      assert forall j :: 0 <= j < |init| ==> init[j] == kids[j];
      KeepReachingAll(init, bound, P);
    }
  }

  /** The filter keeps the largest `deepest` when it reaches the bound, and nothing otherwise. */
  lemma {:induction false} KeepReachingDeepest(kids: seq<Node>, bound: nat)
    ensures MaxDeepest(KeepReaching(kids, bound)) == if MaxDeepest(kids) >= bound then MaxDeepest(kids) else 0
  {
    if kids != [] {
      var init, last := kids[..|kids| - 1], kids[|kids| - 1];
      KeepReachingDeepest(init, bound);
      var kept := KeepReaching(init, bound);
      if last.deepest >= bound {
        assert (kept + [last])[..|kept|] == kept;
        assert MaxDeepest(kept + [last]) == MaxNat(MaxDeepest(kept), last.deepest);
      } else {
        assert KeepReaching(kids, bound) == kept + [] == kept;
      }
    }
  }

  /** MaxDeepest read from the front. */
  lemma {:induction false} MaxDeepestCons(a: Node, kids: seq<Node>)
    ensures MaxDeepest([a] + kids) == MaxNat(a.deepest, MaxDeepest(kids))
  {
    if kids == [] {
      assert ([a] + kids)[..0] == [];
    } else {
      var init := kids[..|kids| - 1];
      assert ([a] + kids)[..|kids|] == [a] + init;
      MaxDeepestCons(a, init);
    }
  }

  /** The filter of the `retain` keeps the children in order. */
  lemma {:induction false} KeepReachingDescending(kids: seq<Node>, bound: nat)
    requires Descending(kids)
    ensures Descending(KeepReaching(kids, bound))
  {
    if kids != [] {
      var init, last := kids[..|kids| - 1], kids[|kids| - 1];
      assert Descending(init);
      KeepReachingDescending(init, bound);
      KeepReachingAll(init, bound, (k: Node) => k.value > last.value);
    }
  }

  /**
   * Pruning keeps the first child and, of the others, exactly those whose deepest leaf is
   * at least as deep as the first child's.
   */
  lemma PruneMembers(kids: seq<Node>)
    requires kids != []
    ensures Prune(kids)[0] == kids[0]
    ensures forall k :: k in Prune(kids)[1..] <==> k in kids[1..] && k.deepest >= kids[0].deepest
  {
    KeepReachingMembers(kids[1..], kids[0].deepest);
    assert Prune(kids)[1..] == KeepReaching(kids[1..], kids[0].deepest);
  }

  /** Pruning keeps the children's order. */
  lemma PruneDescending(kids: seq<Node>)
    requires Descending(kids)
    ensures Descending(Prune(kids))
  {
    if kids != [] {
      var rest := KeepReaching(kids[1..], kids[0].deepest);
      assert Descending(kids[1..]);
      KeepReachingDescending(kids[1..], kids[0].deepest);
      KeepReachingAll(kids[1..], kids[0].deepest, (k: Node) => k.value < kids[0].value);
      assert Prune(kids) == [kids[0]] + rest;
    }
  }

  /** Whatever holds of every child holds of every child pruning keeps. */
  lemma PruneAll(kids: seq<Node>, P: Node -> bool)
    requires forall j :: 0 <= j < |kids| ==> P(kids[j])
    ensures forall j :: 0 <= j < |Prune(kids)| ==> P(Prune(kids)[j])
  {
    if kids != [] {
      KeepReachingAll(kids[1..], kids[0].deepest, P);
      assert Prune(kids) == [kids[0]] + KeepReaching(kids[1..], kids[0].deepest);
    }
  }

  /** Pruning never removes the deepest leaf. */
  lemma PruneKeepsDeepest(kids: seq<Node>)
    ensures MaxDeepest(Prune(kids)) == MaxDeepest(kids)
  {
    if kids != [] {
      var b := kids[0].deepest;
      KeepReachingDeepest(kids[1..], b);
      MaxDeepestCons(kids[0], KeepReaching(kids[1..], b));
      MaxDeepestCons(kids[0], kids[1..]);
      assert kids == [kids[0]] + kids[1..];
    }
  }

  /**
   * The children loop keeps the number of children and every child's digit, and does not
   * touch the children before index i.
   */
  lemma {:induction false} InsertKidsFrame(val: int, kids: seq<Node>, i: nat, depth: nat, maxDepth: nat, acc: nat)
    requires depth < maxDepth && i <= |kids|
    ensures var ks := InsertedKids(val, kids, i, depth, maxDepth, acc).0;
      && |ks| == |kids|
      && (forall j :: 0 <= j < i ==> ks[j] == kids[j])
      && (forall j :: 0 <= j < |kids| ==> ks[j].value == kids[j].value)
    decreases |kids| - i
  {
    if i < |kids| {
      var (k, d) := Inserted(val, kids[i], depth + 1, maxDepth);
      InsertKidsFrame(val, kids[i := k], i + 1, depth, maxDepth, MaxNat(d, acc));
    }
  }

  /** A new leaf one level down is well formed. */
  lemma LeafWellFormed(val: int, depth: nat, maxDepth: nat)
    requires depth < maxDepth
    ensures WellFormed(Node(val, depth + 1, []), depth + 1, maxDepth)
  {
  }

  /**
   * Inserting keeps a node well formed, and the depth `insert_internal` returns is the
   * node's new `deepest`, so it lies between the node's depth and `maxDepth`.
   */
  lemma {:induction false} InsertKeepsShape(val: int, node: Node, depth: nat, maxDepth: nat)
    requires depth <= maxDepth && WellFormed(node, depth, maxDepth)
    ensures WellFormed(Inserted(val, node, depth, maxDepth).0, depth, maxDepth)
    ensures Inserted(val, node, depth, maxDepth).1 == Inserted(val, node, depth, maxDepth).0.deepest
    ensures depth <= Inserted(val, node, depth, maxDepth).1 <= maxDepth
    decreases maxDepth - depth, 1
  {
    if depth < maxDepth {
      var pushed := PushesFront(node, val);
      var kids := WithLeaf(node, val, depth);
      var start := if pushed then 1 else 0;
      var acc := if pushed then depth + 1 else depth;
      WithLeafShape(val, node, depth, maxDepth);
      InsertKidsKeepShape(val, kids, start, depth, maxDepth, acc);
      var (ks, d) := InsertedKids(val, kids, start, depth, maxDepth, acc);
      PruneKeepsDeepest(ks);
      PruneAll(ks, (k: Node) => WellFormed(k, depth + 1, maxDepth));
      MaxDeepestAtMost(ks, maxDepth);
    }
  }

  /** Pushing the new leaf keeps the children well formed; the loop starts past it. */
  lemma WithLeafShape(val: int, node: Node, depth: nat, maxDepth: nat)
    requires depth < maxDepth && WellFormed(node, depth, maxDepth)
    ensures AllWellFormed(WithLeaf(node, val, depth), depth + 1, maxDepth)
    ensures var start := if PushesFront(node, val) then 1 else 0;
      start <= |WithLeaf(node, val, depth)|
      && (if PushesFront(node, val) then depth + 1 else depth)
         == MaxNat(depth, MaxDeepest(WithLeaf(node, val, depth)[..start]))
  {
    var kids := WithLeaf(node, val, depth);
    if PushesFront(node, val) {
      LeafWellFormed(val, depth, maxDepth);
      assert forall j :: 1 <= j < |kids| ==> kids[j] == node.children[j - 1];
      assert kids[..1] == [Node(val, depth + 1, [])];
      assert kids[..1][..0] == [];
    } else {
      assert kids[..0] == [];
    }
  }

  /** The children loop keeps every child well formed and `acc` the largest depth seen. */
  lemma {:induction false} InsertKidsKeepShape(val: int, kids: seq<Node>, i: nat, depth: nat, maxDepth: nat, acc: nat)
    requires depth < maxDepth && i <= |kids|
    requires AllWellFormed(kids, depth + 1, maxDepth)
    requires acc == MaxNat(depth, MaxDeepest(kids[..i]))
    ensures AllWellFormed(InsertedKids(val, kids, i, depth, maxDepth, acc).0, depth + 1, maxDepth)
    ensures InsertedKids(val, kids, i, depth, maxDepth, acc).1 ==
      MaxNat(depth, MaxDeepest(InsertedKids(val, kids, i, depth, maxDepth, acc).0))
    decreases maxDepth - depth, 0, |kids| - i
  {
    if i == |kids| {
      assert kids[..i] == kids;
    } else {
      InsertChildShape(val, kids, i, depth, maxDepth);
      var r := Inserted(val, kids[i], depth + 1, maxDepth);
      var next := kids[i := r.0];
      assert next[..i + 1][..i] == kids[..i];
      assert MaxDeepest(next[..i + 1]) == MaxNat(MaxDeepest(kids[..i]), r.0.deepest);
      InsertKidsKeepShape(val, next, i + 1, depth, maxDepth, MaxNat(r.1, acc));
      assert InsertedKids(val, kids, i, depth, maxDepth, acc) ==
        InsertedKids(val, next, i + 1, depth, maxDepth, MaxNat(r.1, acc));
    }
  }

  /** Inserting keeps every node's children in strictly decreasing digit order. */
  lemma {:induction false} InsertKeepsOrder(val: int, node: Node, depth: nat, maxDepth: nat)
    requires depth <= maxDepth && Sorted(node)
    ensures Sorted(Inserted(val, node, depth, maxDepth).0)
    ensures Inserted(val, node, depth, maxDepth).0.value == node.value
    decreases maxDepth - depth, 1
  {
    if depth < maxDepth {
      var pushed := PushesFront(node, val);
      var kids := WithLeaf(node, val, depth);
      var start := if pushed then 1 else 0;
      var acc := if pushed then depth + 1 else depth;
      WithLeafOrder(val, node, depth);
      InsertKidsKeepOrder(val, kids, start, depth, maxDepth, acc);
      InsertKidsFrame(val, kids, start, depth, maxDepth, acc);
      var ks := InsertedKids(val, kids, start, depth, maxDepth, acc).0;
      assert Descending(ks);
      PruneDescending(ks);
      PruneAll(ks, (k: Node) => Sorted(k));
    }
  }

  /** A digit goes in front only when it beats the front child, so the order is kept. */
  lemma WithLeafOrder(val: int, node: Node, depth: nat)
    requires Sorted(node)
    ensures Descending(WithLeaf(node, val, depth))
    ensures forall j :: 0 <= j < |WithLeaf(node, val, depth)| ==> Sorted(WithLeaf(node, val, depth)[j])
  {
    var kids := WithLeaf(node, val, depth);
    if PushesFront(node, val) {
      assert forall j :: 1 <= j < |kids| ==> kids[j] == node.children[j - 1];
      forall j | 1 <= j < |kids| ensures kids[0].value > kids[j].value {
        if j > 1 {
          assert node.children[0].value > node.children[j - 1].value;
        }
      }
    }
  }

  /** The children loop keeps every child sorted. */
  lemma {:induction false} InsertKidsKeepOrder(val: int, kids: seq<Node>, i: nat, depth: nat, maxDepth: nat, acc: nat)
    requires depth < maxDepth && i <= |kids|
    requires forall j :: 0 <= j < |kids| ==> Sorted(kids[j])
    ensures var ks := InsertedKids(val, kids, i, depth, maxDepth, acc).0;
      forall j :: 0 <= j < |ks| ==> Sorted(ks[j])
    decreases maxDepth - depth, 0, |kids| - i
  {
    if i < |kids| {
      var (k, d) := Inserted(val, kids[i], depth + 1, maxDepth);
      InsertKeepsOrder(val, kids[i], depth + 1, maxDepth);
      var next := kids[i := k];
      forall j | 0 <= j < |next| ensures Sorted(next[j]) {
        if j != i {
          assert next[j] == kids[j];
        }
      }
      InsertKidsKeepOrder(val, next, i + 1, depth, maxDepth, MaxNat(d, acc));
      assert InsertedKids(val, kids, i, depth, maxDepth, acc) == InsertedKids(val, next, i + 1, depth, maxDepth, MaxNat(d, acc));
    }
  }

  /**
   * A new child goes in front exactly as `cmp_max_child_to` decides, and is then left
   * alone: it stays a leaf one level down.  Otherwise the front child keeps its digit.
   */
  lemma InsertFront(val: int, node: Node, depth: nat, maxDepth: nat)
    requires depth < maxDepth
    ensures PushesFront(node, val) ==>
      && Inserted(val, node, depth, maxDepth).0.children != []
      && Inserted(val, node, depth, maxDepth).0.children[0] == Node(val, depth + 1, [])
    ensures !PushesFront(node, val) ==>
      && |Inserted(val, node, depth, maxDepth).0.children| >= 1
      && Inserted(val, node, depth, maxDepth).0.children[0].value == node.children[0].value
  {
    var pushed := PushesFront(node, val);
    var kids := WithLeaf(node, val, depth);
    var start := if pushed then 1 else 0;
    var acc := if pushed then depth + 1 else depth;
    InsertKidsFrame(val, kids, start, depth, maxDepth, acc);
  }

  /** `std::cmp::min`. */
  function MinNat(a: nat, b: nat): nat
  {
    if a < b then a else b
  }

  /**
   * Every insert makes the tree one level deeper until it reaches `maxDepth`: the deepest
   * leaf (the returned depth) goes from `deepest` to `min(deepest + 1, maxDepth)`.
   */
  lemma {:induction false} InsertGrows(val: int, node: Node, depth: nat, maxDepth: nat)
    requires depth <= maxDepth && WellFormed(node, depth, maxDepth)
    ensures Inserted(val, node, depth, maxDepth).1 == MinNat(node.deepest + 1, maxDepth)
    decreases maxDepth - depth, 1
  {
    if depth < maxDepth {
      var pushed := PushesFront(node, val);
      var kids := WithLeaf(node, val, depth);
      var start := if pushed then 1 else 0;
      var acc := if pushed then depth + 1 else depth;
      var bound := MinNat(node.deepest + 1, maxDepth);
      WithLeafShape(val, node, depth, maxDepth);
      MaxDeepestIsMax(node.children);
      assert forall j :: start <= j < |kids| ==> kids[j] == node.children[j - start];
      InsertKidsGrow(val, kids, start, depth, maxDepth, acc, bound);
      if node.deepest > depth {
        var j :| 0 <= j < |node.children| && node.children[j].deepest == MaxDeepest(node.children);
        assert kids[j + start] == node.children[j];
      }
    }
  }

  /**
   * The children loop: the returned depth is at least `acc` and each child's grown depth,
   * and at most any bound on all of them.
   */
  lemma {:induction false} InsertKidsGrow(val: int, kids: seq<Node>, i: nat, depth: nat, maxDepth: nat,
                                          acc: nat, bound: nat)
    requires depth < maxDepth && i <= |kids|
    requires AllWellFormed(kids, depth + 1, maxDepth)
    requires acc <= bound
    requires forall j :: i <= j < |kids| ==> MinNat(kids[j].deepest + 1, maxDepth) <= bound
    ensures var d := InsertedKids(val, kids, i, depth, maxDepth, acc).1;
      && acc <= d <= bound
      && forall j :: i <= j < |kids| ==> MinNat(kids[j].deepest + 1, maxDepth) <= d
    decreases maxDepth - depth, 0, |kids| - i
  {
    if i < |kids| {
      InsertChildShape(val, kids, i, depth, maxDepth);
      var r := Inserted(val, kids[i], depth + 1, maxDepth);
      var next := kids[i := r.0];
      InsertKidsGrow(val, next, i + 1, depth, maxDepth, MaxNat(r.1, acc), bound);
      assert InsertedKids(val, kids, i, depth, maxDepth, acc) ==
        InsertedKids(val, next, i + 1, depth, maxDepth, MaxNat(r.1, acc));
      forall j | i < j < |kids| ensures next[j] == kids[j] {
      }
    }
  }

  /** One step of the children loop keeps the list well formed and grows child i by one level. */
  lemma InsertChildShape(val: int, kids: seq<Node>, i: nat, depth: nat, maxDepth: nat)
    requires depth < maxDepth && i < |kids| && AllWellFormed(kids, depth + 1, maxDepth)
    ensures var r := Inserted(val, kids[i], depth + 1, maxDepth);
      && AllWellFormed(kids[i := r.0], depth + 1, maxDepth)
      && r.1 == MinNat(kids[i].deepest + 1, maxDepth)
      && r.1 == r.0.deepest
    decreases maxDepth - depth, 0, |kids| - i, 0
  {
    var c := kids[i];
    var r := Inserted(val, c, depth + 1, maxDepth);
    assert WellFormed(c, depth + 1, maxDepth);
    assert r.1 == MinNat(c.deepest + 1, maxDepth) by {
      InsertGrows(val, c, depth + 1, maxDepth);
    }
    assert WellFormed(r.0, depth + 1, maxDepth) && r.1 == r.0.deepest by {
      InsertKeepsShape(val, c, depth + 1, maxDepth);
    }
    UpdateWellFormed(kids, i, r.0, depth + 1, maxDepth);
  }

  /** Replacing one node by a well-formed one keeps all of them well formed. */
  lemma UpdateWellFormed(kids: seq<Node>, i: nat, k: Node, depth: nat, maxDepth: nat)
    requires i < |kids| && AllWellFormed(kids, depth, maxDepth) && WellFormed(k, depth, maxDepth)
    ensures AllWellFormed(kids[i := k], depth, maxDepth)
    ensures forall j :: 0 <= j < |kids| && j != i ==> kids[i := k][j] == kids[j]
  {
  }

  /**
   * The digits under node come, in order, from h (the digits inserted since node was
   * created): each child's digit occurs in h and its own children come from what follows.
   */
  predicate Chain(node: Node, h: seq<int>)
    decreases node, 1
  {
    forall j :: 0 <= j < |node.children| ==> ChildFrom(node.children[j], h)
  }

  /** The child's digit occurs in h, and its children come from the digits after it. */
  predicate ChildFrom(child: Node, h: seq<int>)
    decreases child, 2
  {
    exists k :: 0 <= k < |h| && h[k] == child.value && Chain(child, h[k + 1..])
  }

  /**
   * Inserting val keeps every path of the tree an ordered choice from what was inserted:
   * the new leaves take val itself, and every older node gets val after its history.
   */
  lemma {:induction false} InsertChain(val: int, node: Node, depth: nat, maxDepth: nat, h: seq<int>)
    requires depth <= maxDepth && Chain(node, h)
    ensures Chain(Inserted(val, node, depth, maxDepth).0, h + [val])
    decreases maxDepth - depth, 1
  {
    if depth == maxDepth {
      ChainExtend(node, h, val);
    } else {
      var pushed := PushesFront(node, val);
      var kids := WithLeaf(node, val, depth);
      var start := if pushed then 1 else 0;
      var acc := if pushed then depth + 1 else depth;
      WithLeafChain(val, node, depth, h);
      InsertKidsChain(val, kids, start, depth, maxDepth, acc, h);
      assert var ks := InsertedKids(val, kids, start, depth, maxDepth, acc).0;
        forall j :: 0 <= j < |ks| ==> ChildFrom(ks[j], h + [val]);
      var ks := InsertedKids(val, kids, start, depth, maxDepth, acc).0;
      PruneAll(ks, (c: Node) => ChildFrom(c, h + [val]));
      InsertedChildren(val, node, depth, maxDepth);
    }
  }

  /** Below `maxDepth`, the inserted node's children are the pruned result of the children loop. */
  lemma InsertedChildren(val: int, node: Node, depth: nat, maxDepth: nat)
    requires depth < maxDepth
    ensures Inserted(val, node, depth, maxDepth).0.children ==
      Prune(InsertedKids(val, WithLeaf(node, val, depth), if PushesFront(node, val) then 1 else 0,
                         depth, maxDepth, if PushesFront(node, val) then depth + 1 else depth).0)
  {
  }

  /** A new front leaf takes val itself; the older children still come from h. */
  lemma WithLeafChain(val: int, node: Node, depth: nat, h: seq<int>)
    requires Chain(node, h)
    ensures var start := if PushesFront(node, val) then 1 else 0;
      && start <= |WithLeaf(node, val, depth)|
      && (forall j :: 0 <= j < start ==> ChildFrom(WithLeaf(node, val, depth)[j], h + [val]))
      && (forall j :: start <= j < |WithLeaf(node, val, depth)| ==> ChildFrom(WithLeaf(node, val, depth)[j], h))
  {
    var kids := WithLeaf(node, val, depth);
    if PushesFront(node, val) {
      assert (h + [val])[|h|] == val && (h + [val])[|h| + 1..] == [];
      assert ChildFrom(kids[0], h + [val]);
      assert forall j :: 1 <= j < |kids| ==> kids[j] == node.children[j - 1];
    }
  }

  /** The children loop: children before i already carry val, the rest still do not. */
  lemma {:induction false} InsertKidsChain(val: int, kids: seq<Node>, i: nat, depth: nat, maxDepth: nat,
                                           acc: nat, h: seq<int>)
    requires depth < maxDepth && i <= |kids|
    requires forall j :: 0 <= j < i ==> ChildFrom(kids[j], h + [val])
    requires forall j :: i <= j < |kids| ==> ChildFrom(kids[j], h)
    ensures var ks := InsertedKids(val, kids, i, depth, maxDepth, acc).0;
      forall j :: 0 <= j < |ks| ==> ChildFrom(ks[j], h + [val])
    decreases maxDepth - depth, 0, |kids| - i
  {
    if i < |kids| {
      var (k, d) := Inserted(val, kids[i], depth + 1, maxDepth);
      var w :| 0 <= w < |h| && h[w] == kids[i].value && Chain(kids[i], h[w + 1..]);
      InsertChain(val, kids[i], depth + 1, maxDepth, h[w + 1..]);
      assert (h + [val])[w + 1..] == h[w + 1..] + [val];
      assert (h + [val])[w] == k.value;
      assert ChildFrom(k, h + [val]);
      var next := kids[i := k];
      forall j | 0 <= j < |next|
        ensures j <= i ==> ChildFrom(next[j], h + [val])
        ensures j > i ==> ChildFrom(next[j], h)
      {
        if j != i {
          assert next[j] == kids[j];
        }
      }
      InsertKidsChain(val, next, i + 1, depth, maxDepth, MaxNat(d, acc), h);
      assert InsertedKids(val, kids, i, depth, maxDepth, acc) ==
        InsertedKids(val, next, i + 1, depth, maxDepth, MaxNat(d, acc));
      assert var ks := InsertedKids(val, next, i + 1, depth, maxDepth, MaxNat(d, acc)).0;
        forall j :: 0 <= j < |ks| ==> ChildFrom(ks[j], h + [val]);
    }
  }

  /** A child whose digits come from h still does after one more digit. */
  lemma {:induction false} ChildFromExtend(child: Node, h: seq<int>, val: int)
    requires ChildFrom(child, h)
    ensures ChildFrom(child, h + [val])
    decreases child, 1
  {
    var w :| 0 <= w < |h| && h[w] == child.value && Chain(child, h[w + 1..]);
    ChainExtend(child, h[w + 1..], val);
    assert (h + [val])[w + 1..] == h[w + 1..] + [val];
    assert (h + [val])[w] == child.value;
  }

  /** Digits that come from h still do after one more digit. */
  lemma {:induction false} ChainExtend(node: Node, h: seq<int>, val: int)
    requires Chain(node, h)
    ensures Chain(node, h + [val])
    decreases node, 0
  {
    forall j | 0 <= j < |node.children| ensures ChildFrom(node.children[j], h + [val]) {
      ChildFromExtend(node.children[j], h, val);
    }
  }

  /** The tree `part_1` builds: the digits of nums inserted in order under a root with digit 0. */
  function Planted(nums: seq<int>, maxDepth: nat): Node
  {
    if nums == [] then Node(0, 0, [])
    else Inserted(nums[|nums| - 1], Planted(nums[..|nums| - 1], maxDepth), 0, maxDepth).0
  }

  /**
   * The planted tree keeps every invariant: it is well formed and sorted, its paths are
   * ordered choices of the digits, and its deepest leaf is `min(|nums|, maxDepth)` deep.
   */
  lemma {:induction false} PlantedValid(nums: seq<int>, maxDepth: nat)
    ensures WellFormed(Planted(nums, maxDepth), 0, maxDepth) && Sorted(Planted(nums, maxDepth))
    ensures Chain(Planted(nums, maxDepth), nums)
    ensures Planted(nums, maxDepth).deepest == MinNat(|nums|, maxDepth)
  {
    if nums != [] {
      var init, last := nums[..|nums| - 1], nums[|nums| - 1];
      var t := Planted(init, maxDepth);
      PlantedValid(init, maxDepth);
      InsertKeepsShape(last, t, 0, maxDepth);
      InsertKeepsOrder(last, t, 0, maxDepth);
      InsertChain(last, t, 0, maxDepth, init);
      InsertGrows(last, t, 0, maxDepth);
      assert init + [last] == nums;
    }
  }

  /**
   * `children.iter().find(|child| child.deepest_leaf == MAX_DEPTH)`: the index of the
   * first child that reaches `maxDepth`, if there is one.
   */
  function FirstComplete(kids: seq<Node>, maxDepth: nat): (r: Option<nat>)
    ensures r.Some? ==> r.value < |kids| && kids[r.value].deepest == maxDepth
    ensures r.Some? ==> forall j :: 0 <= j < r.value ==> kids[j].deepest != maxDepth
    ensures r.None? ==> forall j :: 0 <= j < |kids| ==> kids[j].deepest != maxDepth
  {
    if kids == [] then None
    else if kids[0].deepest == maxDepth then Some(0)
    else match FirstComplete(kids[1..], maxDepth)
      case None => None
      case Some(j) => Some(j + 1)
  }

  /** The digits `max_internal` writes from a node down, one per level. */
  function Path(node: Node, maxDepth: nat): seq<int>
    decreases node
  {
    match FirstComplete(node.children, maxDepth)
    case None => []
    case Some(j) => [node.children[j].value] + Path(node.children[j], maxDepth)
  }

  /**
   * The path fits below the node's depth, and it reaches `maxDepth` exactly when the
   * node's deepest leaf does.
   */
  lemma {:induction false} PathLength(node: Node, depth: nat, maxDepth: nat)
    requires WellFormed(node, depth, maxDepth)
    ensures depth + |Path(node, maxDepth)| <= maxDepth
    ensures depth + |Path(node, maxDepth)| == maxDepth <==> node.deepest == maxDepth
    decreases node
  {
    match FirstComplete(node.children, maxDepth)
    case None =>
      MaxDeepestIsMax(node.children);
    case Some(j) =>
      PathLength(node.children[j], depth + 1, maxDepth);
      MaxDeepestIsMax(node.children);
  }

  /** A path of a node is an ordered choice from the digits inserted since the node was made. */
  lemma {:induction false} PathFromHistory(node: Node, maxDepth: nat, h: seq<int>)
    requires Chain(node, h)
    ensures IsSubseq(Path(node, maxDepth), h)
    decreases node
  {
    match FirstComplete(node.children, maxDepth)
    case None =>
    case Some(j) =>
      var c := node.children[j];
      assert ChildFrom(c, h);
      var w :| 0 <= w < |h| && h[w] == c.value && Chain(c, h[w + 1..]);
      PathFromHistory(c, maxDepth, h[w + 1..]);
      assert h[w..] == [c.value] + h[w + 1..];
      SubseqConsBoth(Path(c, maxDepth), c.value, h[w + 1..]);
      SubseqDrop(Path(node, maxDepth), h, w);
  }

  /** What `max` returns: the path from the root, then the untouched zeros. */
  function Answer(root: Node, maxDepth: nat): (r: seq<int>)
    ensures |r| == maxDepth
  {
    var p := Path(root, maxDepth);
    seq(maxDepth, i requires 0 <= i < maxDepth => if i < |p| then p[i] else 0)
  }

  /**
   * Once at least maxDepth digits are in, the answer is maxDepth digits of the line taken in
   * order, so it is never larger than the best such choice (the sift solver's result).
   */
  lemma TreeAnswerBound(nums: seq<int>, maxDepth: nat)
    requires IsDigitSeq(nums) && maxDepth <= |nums|
    ensures Answer(Planted(nums, maxDepth), maxDepth) == Path(Planted(nums, maxDepth), maxDepth)
    ensures IsSubseq(Answer(Planted(nums, maxDepth), maxDepth), nums)
    ensures Value(Answer(Planted(nums, maxDepth), maxDepth)) <= Value(JoltageSift.Sifted(nums, maxDepth))
  {
    var t := Planted(nums, maxDepth);
    PlantedValid(nums, maxDepth);
    PathLength(t, 0, maxDepth);
    PathFromHistory(t, maxDepth, nums);
    JoltageSift.SiftedIsLargest(nums, maxDepth, Path(t, maxDepth));
  }

  /**
   * `retain` with an index counter: the first child stays, and a later child goes when its
   * deepest leaf is shallower than the first child's.
   */
  method Retain(kids: seq<Node>) returns (kept: seq<Node>)
    ensures kept == Prune(kids)
  {
    var maxChild: Option<Node> := if kids == [] then None else Some(kids[0]);
    kept := [];
    var index := 0;
    while index < |kids|
      invariant 0 <= index <= |kids|
      invariant index == 0 ==> kept == []
      invariant index > 0 ==> kept == [kids[0]] + KeepReaching(kids[1..index], kids[0].deepest)
    {
      var child := kids[index];
      var drop := (maxChild.Some? && child.deepest < maxChild.value.deepest) && index > 0;
      if !drop {
        kept := kept + [child];
      }
      if index > 0 {
        assert kids[1..index + 1][..index - 1] == kids[1..index];
      }
      index := index + 1;
    }
    if kids != [] {
      assert kids[1..|kids|] == kids[1..];
    }
  }

  /**
   * `insert_internal`: pushes the digit as a new front child when it beats the first child,
   * inserts it into every other child one level down, records the deepest leaf and prunes.
   */
  method InsertInternal(val: int, node: Node, depth: nat, maxDepth: nat) returns (res: Node, deepestChild: nat)
    requires depth <= maxDepth
    ensures (res, deepestChild) == Inserted(val, node, depth, maxDepth)
    decreases maxDepth - depth
  {
    if depth == maxDepth {
      return node, depth;
    }
    deepestChild := depth;
    var children := node.children;
    if children == [] || children[0].value < val {
      children := [Node(val, depth + 1, [])] + children;
      deepestChild := depth + 1;
    }
    ghost var start := if PushesFront(node, val) then 1 else 0;
    ghost var kids0, acc0 := children, deepestChild;
    assert kids0 == WithLeaf(node, val, depth);
    var index := 0;
    while index < |children|
      invariant |children| == |kids0| && index <= |children|
      invariant index == 0 ==> children == kids0 && deepestChild == acc0
      invariant index > 0 ==> start <= index
      invariant index > 0 ==> InsertedKids(val, children, index, depth, maxDepth, deepestChild)
                              == InsertedKids(val, kids0, start, depth, maxDepth, acc0)
    {
      if index == 0 && deepestChild > depth {
        index := index + 1;
        continue;
      }
      var child, d := InsertInternal(val, children[index], depth + 1, maxDepth);
      deepestChild := MaxNat(d, deepestChild);
      children := children[index := child];
      index := index + 1;
    }
    var kept := Retain(children);
    res := Node(node.value, deepestChild, kept);
  }

  /**
   * `max_internal`: writes the digit of the first complete child at position depth and goes
   * on below it; positions outside the path keep what they held.
   */
  method MaxInternal(node: Node, depth: nat, maxDepth: nat, ans: array<int>)
    requires ans.Length == maxDepth && WellFormed(node, depth, maxDepth)
    modifies ans
    ensures depth + |Path(node, maxDepth)| <= maxDepth
    ensures forall i :: 0 <= i < ans.Length ==>
      ans[i] == if depth <= i < depth + |Path(node, maxDepth)| then Path(node, maxDepth)[i - depth] else old(ans[i])
    decreases node
  {
    PathLength(node, depth, maxDepth);
    match FirstComplete(node.children, maxDepth)
    case None =>
    case Some(j) =>
      var child := node.children[j];
      ans[depth] := child.value;
      MaxInternal(child, depth + 1, maxDepth, ans);
  }

  /** The tree of `part_1`, with `MAX_DEPTH` as a field. */
  class Tree {
    const maxDepth: nat
    var root: Node
    /** The digits inserted so far. */
    ghost var inserted: seq<int>

    /** The invariants every insert keeps. */
    ghost predicate Valid()
      reads this
    {
      && WellFormed(root, 0, maxDepth) && Sorted(root)
      && Chain(root, inserted) && root.deepest == MinNat(|inserted|, maxDepth)
    }

    /** `Tree::new`: a lone root at depth 0. */
    constructor (rootValue: int, maxDepth: nat)
      ensures Valid() && this.maxDepth == maxDepth
      ensures root == Node(rootValue, 0, []) && inserted == []
    {
      this.maxDepth := maxDepth;
      root := Node(rootValue, 0, []);
      inserted := [];
    }

    /** `insert`: the root's new deepest leaf, one level deeper up to `maxDepth`. */
    method Insert(val: int) returns (d: nat)
      requires Valid()
      modifies this
      ensures Valid() && inserted == old(inserted) + [val]
      ensures (root, d) == Inserted(val, old(root), 0, maxDepth)
      ensures d == root.deepest == MinNat(|inserted|, maxDepth)
    {
      InsertKeepsShape(val, root, 0, maxDepth);
      InsertKeepsOrder(val, root, 0, maxDepth);
      InsertChain(val, root, 0, maxDepth, inserted);
      InsertGrows(val, root, 0, maxDepth);
      root, d := InsertInternal(val, root, 0, maxDepth);
      inserted := inserted + [val];
    }

    /** `max`: a fresh array of `maxDepth` zeros with the root's path written over its front. */
    method Max() returns (ans: array<int>)
      requires Valid()
      ensures fresh(ans) && ans[..] == Answer(root, maxDepth)
    {
      ans := new int[maxDepth](_ => 0);
      MaxInternal(root, 0, maxDepth, ans);
    }
  }

  /** The conversion in `part_1`: digit i from the right counts `10^i`. */
  method ToNumber(ans: array<int>) returns (res: int)
    ensures res == Value(ans[..])
  {
    res := 0;
    var i := 0;
    while i < ans.Length
      invariant 0 <= i <= ans.Length
      invariant res == Value(ans[ans.Length - i..])
    {
      var n := ans[ans.Length - 1 - i];
      ValueFront(ans[ans.Length - 1 - i..]);
      assert ans[ans.Length - 1 - i..][1..] == ans[ans.Length - i..];
      res := res + Pow10(i) * n;
      i := i + 1;
    }
    assert ans[0..] == ans[..];
  }

  /** Planting one more digit is one more insert at the root. */
  lemma PlantedStep(nums: seq<int>, i: nat, n: nat)
    requires i < |nums|
    ensures Planted(nums[..i + 1], n) == Inserted(nums[i], Planted(nums[..i], n), 0, n).0
    ensures nums[..i + 1] == nums[..i] + [nums[i]]
  {
    assert nums[..i + 1][..i] == nums[..i];
  }

  /** The first loop of `part_1`: a new tree with root digit 0, then every digit inserted. */
  method Plant(nums: seq<int>, n: nat) returns (tree: Tree)
    ensures fresh(tree) && tree.Valid() && tree.maxDepth == n
    ensures tree.root == Planted(nums, n) && tree.inserted == nums
  {
    tree := new Tree(0, n);
    for i := 0 to |nums|
      invariant tree.Valid() && tree.maxDepth == n
      invariant tree.root == Planted(nums[..i], n) && tree.inserted == nums[..i]
    {
      PlantedStep(nums, i, n);
      var _ := tree.Insert(nums[i]);
    }
    assert nums[..|nums|] == nums;
  }

  /** `part_1`: insert every digit, read the answer off the tree and turn it into a number. */
  method Part1(nums: seq<int>, n: nat) returns (res: int)
    ensures res == Value(Answer(Planted(nums, n), n))
  {
    var tree := Plant(nums, n);
    var ans := tree.Max();
    res := ToNumber(ans);
  }
}
