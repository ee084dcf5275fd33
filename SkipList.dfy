/**
 * ConcreteLeaderboard as a skip list over an arena of nodes. Node 0 is the
 * head sentinel (id -1, score INT_MIN, level 16); `next[x][l]` is node x's
 * forward pointer at level l, with -1 for null. The ghost `order` lists the
 * real nodes along level 0; the chain at level l is the sub-sequence of
 * `order` made of the nodes whose level is at least l.
 */
module SkipList {
  import opened Ranking

  const MaxLevel := 16
  const IntMin := -0x8000_0000

  datatype Node = Node(id: int, score: int, level: nat)

  /** The pointer after position p of a chain: the next element, or null. */
  function At(h: seq<nat>, p: nat): int {
    if p < |h| then h[p] else -1
  }

  /** A pointer row of k levels, all null. */
  function Nulls(k: nat): (r: seq<int>)
    ensures |r| == k && forall i :: 0 <= i < k ==> r[i] == -1
  {
    if k == 0 then [] else Nulls(k - 1) + [-1]
  }

  /** The (id, score) of node x. */
  function EntryOf(nodes: seq<Node>, x: int): Entry {
    if 0 <= x < |nodes| then Entry(nodes[x].id, nodes[x].score) else Entry(-1, 0)
  }

  /** The board the nodes of ord spell out. */
  ghost function EntriesOf(nodes: seq<Node>, ord: seq<nat>): (es: seq<Entry>)
    ensures |es| == |ord| && forall p :: 0 <= p < |ord| ==> es[p] == EntryOf(nodes, ord[p])
  {
    seq(|ord|, p requires 0 <= p < |ord| => EntryOf(nodes, ord[p]))
  }

  /** The nodes of ord that take part in level l, in order. */
  ghost function Chain(nodes: seq<Node>, ord: seq<nat>, l: nat): seq<nat> {
    if ord == [] then []
    else
      var x := ord[|ord| - 1];
      Chain(nodes, ord[..|ord| - 1], l) + (if x < |nodes| && nodes[x].level >= l then [x] else [])
  }

  /** The forward pointers at level l walk the chain h and end in null. */
  ghost predicate Linked(next: seq<seq<int>>, l: nat, h: seq<nat>) {
    forall p :: 0 <= p < |h| ==> h[p] < |next| && l < |next[h[p]]| && next[h[p]][l] == At(h, p + 1)
  }

  ghost predicate Distinct(s: seq<nat>) {
    forall i, j :: 0 <= i < j < |s| ==> s[i] != s[j]
  }

  /** Node sizes: the head spans every level and each node has one pointer per level. */
  ghost predicate Shape(nodes: seq<Node>, next: seq<seq<int>>) {
    |nodes| == |next| && |nodes| >= 1 && nodes[0] == Node(-1, IntMin, MaxLevel) &&
    forall x :: 0 <= x < |nodes| ==> nodes[x].level <= MaxLevel && |next[x]| == nodes[x].level + 1
  }

  /**
   * The skip-list invariant: the level-0 order is strictly sorted by score
   * (descending) then id (ascending), no id appears twice, and at every level
   * the pointers from the head walk exactly that level's chain.
   */
  ghost predicate Wellformed(nodes: seq<Node>, next: seq<seq<int>>, order: seq<nat>) {
    Shape(nodes, next) &&
    (forall p :: 0 <= p < |order| ==> 0 < order[p] < |nodes|) &&
    Ordered(EntriesOf(nodes, order)) && UniqueIds(EntriesOf(nodes, order)) &&
    LinkedFrom(nodes, next, order, 0)
  }

  /** Levels l through MaxLevel: the pointers from the head walk each level's chain. */
  ghost predicate LinkedFrom(nodes: seq<Node>, next: seq<seq<int>>, order: seq<nat>, l: nat)
    decreases MaxLevel + 1 - l
  {
    l > MaxLevel || (Linked(next, l, [0] + Chain(nodes, order, l)) && LinkedFrom(nodes, next, order, l + 1))
  }

  lemma {:induction false} LinkedFromAt(nodes: seq<Node>, next: seq<seq<int>>, order: seq<nat>, l0: nat, l: nat)
    requires LinkedFrom(nodes, next, order, l0) && l0 <= l <= MaxLevel
    ensures Linked(next, l, [0] + Chain(nodes, order, l))
    decreases l - l0
  {
    if l0 < l {
      LinkedFromAt(nodes, next, order, l0 + 1, l);
    }
  }

  lemma {:induction false} LinkedFromAll(nodes: seq<Node>, next: seq<seq<int>>, order: seq<nat>, l0: nat)
    requires forall l :: l0 <= l <= MaxLevel ==> Linked(next, l, [0] + Chain(nodes, order, l))
    ensures LinkedFrom(nodes, next, order, l0)
    decreases MaxLevel + 1 - l0
  {
    if l0 <= MaxLevel {
      LinkedFromAll(nodes, next, order, l0 + 1);
    }
  }

  // ---------------------------------------------------------------------
  // Chains

  lemma {:induction false} ChainAppend(nodes: seq<Node>, a: seq<nat>, b: seq<nat>, l: nat)
    ensures Chain(nodes, a + b, l) == Chain(nodes, a, l) + Chain(nodes, b, l)
    decreases |b|
  {
    if b != [] {
      var b' := b[..|b| - 1];
      assert (a + b)[..|a + b| - 1] == a + b';
      ChainAppend(nodes, a, b', l);
    } else {
      assert a + b == a;
    }
  }

  lemma {:induction false} ChainMembers(nodes: seq<Node>, ord: seq<nat>, l: nat)
    ensures forall x :: x in Chain(nodes, ord, l) ==> x in ord && x < |nodes| && nodes[x].level >= l
  {
    if ord != [] {
      ChainMembers(nodes, ord[..|ord| - 1], l);
      assert forall x :: x in ord[..|ord| - 1] ==> x in ord;
    }
  }

  /** Every node takes part in level 0. */
  lemma {:induction false} ChainZero(nodes: seq<Node>, ord: seq<nat>)
    requires forall p :: 0 <= p < |ord| ==> ord[p] < |nodes|
    ensures Chain(nodes, ord, 0) == ord
  {
    if ord != [] {
      ChainZero(nodes, ord[..|ord| - 1]);
      assert ord[..|ord| - 1] + [ord[|ord| - 1]] == ord;
    }
  }

  /** Nodes below level l contribute nothing to chain l. */
  lemma {:induction false} ChainEmpty(nodes: seq<Node>, ord: seq<nat>, l: nat)
    requires forall p :: 0 <= p < |ord| ==> !(ord[p] < |nodes| && nodes[ord[p]].level >= l)
    ensures Chain(nodes, ord, l) == []
  {
    if ord != [] {
      ChainEmpty(nodes, ord[..|ord| - 1], l);
    }
  }

  /** Appending a node to the arena does not change the chains of existing nodes. */
  lemma {:induction false} ChainFrame(nodes: seq<Node>, n: Node, ord: seq<nat>, l: nat)
    requires forall p :: 0 <= p < |ord| ==> ord[p] < |nodes|
    ensures Chain(nodes + [n], ord, l) == Chain(nodes, ord, l)
  {
    if ord != [] {
      ChainFrame(nodes, n, ord[..|ord| - 1], l);
    }
  }

  lemma {:induction false} ChainDistinct(nodes: seq<Node>, ord: seq<nat>, l: nat)
    requires Distinct(ord)
    ensures Distinct(Chain(nodes, ord, l))
  {
    if ord != [] {
      var init := ord[..|ord| - 1];
      ChainDistinct(nodes, init, l);
      ChainMembers(nodes, init, l);
    }
  }

  /** The real nodes are distinct, since their ids are. */
  lemma OrderDistinct(nodes: seq<Node>, order: seq<nat>)
    requires UniqueIds(EntriesOf(nodes, order))
    ensures Distinct(order)
  {
    var es := EntriesOf(nodes, order);
    forall i, j | 0 <= i < j < |order| ensures order[i] != order[j] {
      assert es[i].id != es[j].id;
    }
  }

  /** Every level lists the head once, then distinct real nodes. */
  lemma HeadChainDistinct(nodes: seq<Node>, next: seq<seq<int>>, order: seq<nat>, l: nat)
    requires Wellformed(nodes, next, order)
    ensures Distinct([0] + Chain(nodes, order, l))
  {
    OrderDistinct(nodes, order);
    ChainDistinct(nodes, order, l);
    ChainMembers(nodes, order, l);
    var c := Chain(nodes, order, l);
    forall j | 0 <= j < |c| ensures c[j] != 0 {
      assert c[j] in order;
    }
  }

  // ---------------------------------------------------------------------
  // The descent: the last node of each level that precedes a key

  /** The position of the first node at or after t in ord that takes part in level l (|ord| if none). */
  ghost function FirstAt(nodes: seq<Node>, ord: seq<nat>, t: nat, l: nat): (u: nat)
    requires t <= |ord|
    ensures t <= u <= |ord|
    ensures u < |ord| ==> ord[u] < |nodes| && nodes[ord[u]].level >= l
    ensures forall p :: t <= p < u ==> !(ord[p] < |nodes| && nodes[ord[p]].level >= l)
    decreases |ord| - t
  {
    if t == |ord| || (ord[t] < |nodes| && nodes[ord[t]].level >= l) then t
    else FirstAt(nodes, ord, t + 1, l)
  }

  /** The last node of level l among the head and ord[..t]: where a descent stands after t nodes. */
  ghost function Pred(nodes: seq<Node>, ord: seq<nat>, t: nat, l: nat): nat
    requires t <= |ord|
  {
    var c := Chain(nodes, ord[..t], l);
    if c == [] then 0 else c[|c| - 1]
  }

  lemma PredAfter(nodes: seq<Node>, ord: seq<nat>, t: nat, l: nat)
    requires 0 < t <= |ord| && ord[t - 1] < |nodes| && nodes[ord[t - 1]].level >= l
    ensures Pred(nodes, ord, t, l) == ord[t - 1]
  {
    assert ord[..t][..t - 1] == ord[..t - 1];
  }

  /** The chain of level l splits at any position t of ord. */
  lemma ChainSplit(nodes: seq<Node>, ord: seq<nat>, t: nat, l: nat)
    requires t <= |ord|
    ensures Chain(nodes, ord, l) == Chain(nodes, ord[..t], l) + Chain(nodes, ord[t..], l)
  {
    assert ord == ord[..t] + ord[t..];
    ChainAppend(nodes, ord[..t], ord[t..], l);
  }

  /** Nodes below level l between t and s leave the predecessor at level l unchanged. */
  lemma PredSkip(nodes: seq<Node>, ord: seq<nat>, t: nat, s: nat, l: nat)
    requires t <= s <= |ord|
    requires forall p :: t <= p < s ==> !(ord[p] < |nodes| && nodes[ord[p]].level >= l)
    ensures Chain(nodes, ord[..s], l) == Chain(nodes, ord[..t], l)
    ensures Pred(nodes, ord, s, l) == Pred(nodes, ord, t, l)
  {
    ChainSplit(nodes, ord[..s], t, l);
    assert ord[..s][..t] == ord[..t];
    ChainEmpty(nodes, ord[..s][t..], l);
  }

  /** The chain of level l after position t starts at FirstAt(t). */
  lemma ChainFrom(nodes: seq<Node>, ord: seq<nat>, t: nat, l: nat)
    requires t <= |ord|
    ensures var u := FirstAt(nodes, ord, t, l);
      u < |ord| ==> Chain(nodes, ord[t..], l) == [ord[u]] + Chain(nodes, ord[u + 1..], l)
    ensures FirstAt(nodes, ord, t, l) == |ord| ==> Chain(nodes, ord[t..], l) == []
  {
    var u := FirstAt(nodes, ord, t, l);
    var skipped := ord[t..u];
    forall p | 0 <= p < |skipped| ensures !(skipped[p] < |nodes| && nodes[skipped[p]].level >= l) {
      assert skipped[p] == ord[t + p];
    }
    ChainEmpty(nodes, skipped, l);
    if u < |ord| {
      assert ord[t..] == skipped + [ord[u]] + ord[u + 1..];
      ChainAppend(nodes, skipped + [ord[u]], ord[u + 1..], l);
      ChainAppend(nodes, skipped, [ord[u]], l);
      ChainSingle(nodes, ord[u], l);
    } else {
      assert ord[t..] == skipped;
    }
  }

  /** Standing after t nodes at level l, the forward pointer leads to the node at FirstAt(t). */
  lemma NextAfter(nodes: seq<Node>, next: seq<seq<int>>, order: seq<nat>, t: nat, l: nat)
    requires Linked(next, l, [0] + Chain(nodes, order, l)) && t <= |order|
    ensures var c := Pred(nodes, order, t, l);
      c < |next| && l < |next[c]| && next[c][l] == At(order, FirstAt(nodes, order, t, l))
  {
    var a := Chain(nodes, order[..t], l);
    var h := [0] + Chain(nodes, order, l);
    ChainSplit(nodes, order, t, l);
    ChainFrom(nodes, order, t, l);
    assert h == [0] + a + Chain(nodes, order[t..], l);
    assert h[|a|] == Pred(nodes, order, t, l);
  }

  /**
   * One step of the descent at level l, standing after t nodes: at the head when t is 0, else
   * at the t-th node, which has level l. It stands at the predecessor of position t, and its
   * pointer leads to the first node of level l at or after position t.
   */
  lemma DescendStep(nodes: seq<Node>, next: seq<seq<int>>, order: seq<nat>, t: nat, l: nat, current: nat)
    requires LinkedFrom(nodes, next, order, 0) && t <= |order| && l <= MaxLevel
    requires if t == 0 then current == 0 else current == order[t - 1] && current < |nodes| && nodes[current].level >= l
    ensures current == Pred(nodes, order, t, l)
    ensures current < |next| && l < |next[current]| && next[current][l] == At(order, FirstAt(nodes, order, t, l))
  {
    if t > 0 {
      PredAfter(nodes, order, t, l);
    }
    LinkedFromAt(nodes, next, order, 0, l);
    NextAfter(nodes, next, order, t, l);
  }

  // ---------------------------------------------------------------------
  // Relinking one level

  /** Links of other nodes, or at other levels, do not matter to a level's chain. */
  lemma LinkFrame(next: seq<seq<int>>, next': seq<seq<int>>, l: nat, h: seq<nat>)
    requires Linked(next, l, h)
    requires forall p :: 0 <= p < |h| ==> h[p] < |next'| && l < |next'[h[p]]| && next'[h[p]][l] == next[h[p]][l]
    ensures Linked(next', l, h)
  {
  }

  /** Pointing the last node of a at x, and x at the old successor, puts x into the chain after a. */
  lemma LinkInsert(next: seq<seq<int>>, next': seq<seq<int>>, l: nat, a: seq<nat>, x: nat, b: seq<nat>)
    requires Linked(next, l, a + b) && |a| > 0
    requires forall p :: 0 <= p < |a| + |b| && p != |a| - 1 ==>
      (a + b)[p] < |next'| && l < |next'[(a + b)[p]]| && next'[(a + b)[p]][l] == next[(a + b)[p]][l]
    requires a[|a| - 1] < |next'| && l < |next'[a[|a| - 1]]| && next'[a[|a| - 1]][l] == x
    requires x < |next'| && l < |next'[x]| && next'[x][l] == At(b, 0)
    ensures Linked(next', l, a + [x] + b)
  {
    var h, h' := a + b, a + [x] + b;
    forall p | 0 <= p < |h'| ensures h'[p] < |next'| && l < |next'[h'[p]]| && next'[h'[p]][l] == At(h', p + 1) {
      if p < |a| - 1 {
        assert h'[p] == h[p] && h'[p + 1] == h[p + 1];
      } else if p > |a| {
        assert h'[p] == h[p - 1];
        assert At(h', p + 1) == At(h, p);
      } else if p == |a| - 1 {
        assert h'[p] == a[|a| - 1];
      }
    }
  }

  /** Pointing the last node of a past x takes x out of the chain. */
  lemma LinkRemove(next: seq<seq<int>>, next': seq<seq<int>>, l: nat, a: seq<nat>, x: nat, b: seq<nat>)
    requires Linked(next, l, a + [x] + b) && |a| > 0
    requires forall p :: 0 <= p < |a| + |b| && p != |a| - 1 ==>
      (a + b)[p] < |next'| && l < |next'[(a + b)[p]]| &&
      (a + b)[p] < |next| && l < |next[(a + b)[p]]| && next'[(a + b)[p]][l] == next[(a + b)[p]][l]
    requires a[|a| - 1] < |next'| && l < |next'[a[|a| - 1]]| && next'[a[|a| - 1]][l] == At(b, 0)
    ensures Linked(next', l, a + b)
  {
    var h, h' := a + [x] + b, a + b;
    forall p | 0 <= p < |h'| ensures h'[p] < |next'| && l < |next'[h'[p]]| && next'[h'[p]][l] == At(h', p + 1) {
      if p < |a| - 1 {
        assert h'[p] == h[p] && h'[p + 1] == h[p + 1];
      } else if p >= |a| {
        assert h'[p] == h[p + 1];
        assert At(h', p + 1) == At(h, p + 2);
      } else {
        assert h'[p] == a[|a| - 1];
      }
    }
  }

  // ---------------------------------------------------------------------
  // The pointer updates of addScore and removePlayer, level by level

  ghost predicate SameShape(next: seq<seq<int>>, next': seq<seq<int>>) {
    |next'| == |next| && forall y :: 0 <= y < |next| ==> |next'[y]| == |next[y]|
  }

  /** The update vector fits the arena: every update[j], j < k, has a pointer at level j and is not x. */
  ghost predicate Fits(next: seq<seq<int>>, update: seq<nat>, x: nat, k: nat) {
    k <= |update| && x < |next| &&
    forall j :: 0 <= j < k ==> update[j] < |next| && j < |next[update[j]]| && update[j] != x
  }

  /** One level of addScore's splice: x takes over u's pointer at level l and u points at x. */
  function SpliceStep(next: seq<seq<int>>, u: nat, x: nat, l: nat): (r: seq<seq<int>>)
    requires u < |next| && x < |next| && l < |next[u]| && l < |next[x]| && u != x
    ensures SameShape(next, r)
    ensures forall y, l' :: 0 <= y < |next| && 0 <= l' < |next[y]| ==>
      r[y][l'] == if l' == l && y == u then x else if l' == l && y == x then next[u][l] else next[y][l']
  {
    var n1 := next[x := next[x][l := next[u][l]]];
    n1[u := n1[u][l := x]]
  }

  /** One level of removePlayer's bypass: if u points at x at level l, it points past x instead. */
  function BypassStep(next: seq<seq<int>>, u: nat, x: nat, l: nat): (r: seq<seq<int>>)
    requires u < |next| && x < |next| && l < |next[u]| && l < |next[x]|
    ensures SameShape(next, r)
    ensures forall y, l' :: 0 <= y < |next| && 0 <= l' < |next[y]| ==>
      r[y][l'] == if l' == l && y == u && next[u][l] == x then next[x][l] else next[y][l']
  {
    if next[u][l] == x then next[u := next[u][l := next[x][l]]] else next
  }

  /** addScore's splice loop after levels 0..k-1: x goes after update[j] at each level j. */
  ghost function Spliced(next: seq<seq<int>>, update: seq<nat>, x: nat, k: nat): (r: seq<seq<int>>)
    requires Fits(next, update, x, k) && k <= |next[x]|
    ensures SameShape(next, r)
  {
    if k == 0 then next
    else SpliceStep(Spliced(next, update, x, k - 1), update[k - 1], x, k - 1)
  }

  /** removePlayer's bypass loop after levels 0..k-1: update[j] skips x wherever it points at x. */
  ghost function Bypassed(next: seq<seq<int>>, update: seq<nat>, x: nat, k: nat): (r: seq<seq<int>>)
    requires Fits(next, update, x, k) && k <= |next[x]|
    ensures SameShape(next, r)
  {
    if k == 0 then next
    else BypassStep(Bypassed(next, update, x, k - 1), update[k - 1], x, k - 1)
  }

  lemma {:induction false} SplicedAt(next: seq<seq<int>>, update: seq<nat>, x: nat, k: nat, y: nat, l: nat)
    requires Fits(next, update, x, k) && k <= |next[x]|
    requires y < |next| && l < |next[y]|
    ensures Spliced(next, update, x, k)[y][l] ==
      if l < k && y == update[l] then x
      else if l < k && y == x then next[update[l]][l]
      else next[y][l]
  {
    if k > 0 {
      var prev, u := Spliced(next, update, x, k - 1), update[k - 1];
      assert Spliced(next, update, x, k)[y][l] ==
        if l == k - 1 && y == u then x else if l == k - 1 && y == x then prev[u][k - 1] else prev[y][l];
      SplicedAt(next, update, x, k - 1, y, l);
      SplicedAt(next, update, x, k - 1, u, k - 1);
    }
  }

  lemma {:induction false} BypassedAt(next: seq<seq<int>>, update: seq<nat>, x: nat, k: nat, y: nat, l: nat)
    requires Fits(next, update, x, k) && k <= |next[x]|
    requires y < |next| && l < |next[y]|
    ensures Bypassed(next, update, x, k)[y][l] ==
      if l < k && y == update[l] && next[update[l]][l] == x then next[x][l] else next[y][l]
  {
    if k > 0 {
      var prev, u := Bypassed(next, update, x, k - 1), update[k - 1];
      assert Bypassed(next, update, x, k)[y][l] ==
        if l == k - 1 && y == u && prev[u][k - 1] == x then prev[x][k - 1] else prev[y][l];
      BypassedAt(next, update, x, k - 1, y, l);
      BypassedAt(next, update, x, k - 1, u, k - 1);
      BypassedAt(next, update, x, k - 1, x, k - 1);
    }
  }

  // ---------------------------------------------------------------------
  // addScore's insertion and removePlayer's deletion keep the invariant

  /** The predecessor found by the descent is the head or one of the first t real nodes. */
  lemma PredIn(nodes: seq<Node>, ord: seq<nat>, t: nat, l: nat)
    requires t <= |ord|
    ensures Pred(nodes, ord, t, l) == 0 || Pred(nodes, ord, t, l) in ord[..t]
  {
    ChainMembers(nodes, ord[..t], l);
  }

  /** The chain of a single node. */
  lemma ChainSingle(nodes: seq<Node>, x: nat, l: nat)
    ensures Chain(nodes, [x], l) == if x < |nodes| && nodes[x].level >= l then [x] else []
  {
    assert [x][..0] == [];
  }

  /** The new node's arena: appended node x with level lvl and all pointers null. */
  ghost predicate Appended(nodes: seq<Node>, next: seq<seq<int>>, nodes': seq<Node>, next1: seq<seq<int>>, n: Node) {
    nodes' == nodes + [n] && next1 == next + [Nulls(n.level + 1)]
  }

  /**
   * After the splice loop, level l's pointers walk g: the old chain h = a + b with x put after a
   * when x has level l (l < k), and h itself otherwise.
   */
  lemma SpliceLevel(next: seq<seq<int>>, update: seq<nat>, x: nat, k: nat, l: nat,
                    a: seq<nat>, b: seq<nat>, h: seq<nat>, g: seq<nat>)
    requires Fits(next, update, x, k) && k <= |next[x]|
    requires Linked(next, l, h) && Distinct(h) && h == a + b && x !in h && |a| > 0
    requires l < k ==> update[l] == a[|a| - 1] && next[x][l] == -1 && g == a + [x] + b
    requires l >= k ==> g == h
    ensures Linked(Spliced(next, update, x, k), l, g)
  {
    var next' := Spliced(next, update, x, k);
    forall p | 0 <= p < |h| && (l < k ==> p != |a| - 1)
      ensures h[p] < |next'| && l < |next'[h[p]]| && h[p] < |next| && l < |next[h[p]]| && next'[h[p]][l] == next[h[p]][l]
    {
      SplicedAt(next, update, x, k, h[p], l);
      if l < k {
        assert h[p] != h[|a| - 1];
      }
    }
    if l < k {
      SplicedAt(next, update, x, k, update[l], l);
      SplicedAt(next, update, x, k, x, l);
      assert next[a[|a| - 1]][l] == At(b, 0) by {
        assert h[|a| - 1] == a[|a| - 1];
      }
      LinkInsert(next, next', l, a, x, b);
    } else {
      LinkFrame(next, next', l, h);
    }
  }

  /**
   * After the bypass loop, level l's pointers walk g = a + b: the old chain h is a, x, b when x
   * has level l (l < k), and a + b otherwise.
   */
  lemma BypassLevel(next: seq<seq<int>>, update: seq<nat>, x: nat, k: nat, l: nat,
                    a: seq<nat>, b: seq<nat>, h: seq<nat>, g: seq<nat>)
    requires Fits(next, update, x, k) && k <= |next[x]|
    requires Linked(next, l, h) && g == a + b
    requires l < k ==> h == a + [x] + b && Distinct(h) && |a| > 0 && update[l] == a[|a| - 1]
    requires l >= k ==> h == g
    ensures Linked(Bypassed(next, update, x, k), l, g)
  {
    var next' := Bypassed(next, update, x, k);
    if l < k {
      forall p | 0 <= p < |g| && p != |a| - 1
        ensures g[p] < |next'| && l < |next'[g[p]]| && g[p] < |next| && l < |next[g[p]]| && next'[g[p]][l] == next[g[p]][l]
      {
        if p < |a| {
          assert g[p] == h[p];
          assert h[p] != h[|a| - 1];
        } else {
          assert g[p] == h[p + 1];
          assert h[p + 1] != h[|a| - 1];
        }
        BypassedAt(next, update, x, k, g[p], l);
      }
      assert h[|a| - 1] == a[|a| - 1] && h[|a|] == x;
      BypassedAt(next, update, x, k, update[l], l);
      LinkRemove(next, next', l, a, x, b);
    } else {
      forall p | 0 <= p < |g|
        ensures g[p] < |next'| && l < |next'[g[p]]| && next'[g[p]][l] == next[g[p]][l]
      {
        BypassedAt(next, update, x, k, g[p], l);
      }
      LinkFrame(next, next', l, g);
    }
  }

  /** What the invariant says about one level. */
  lemma WellLevel(nodes: seq<Node>, next: seq<seq<int>>, order: seq<nat>, l: nat)
    requires Wellformed(nodes, next, order) && l <= MaxLevel
    ensures Linked(next, l, [0] + Chain(nodes, order, l)) && Distinct([0] + Chain(nodes, order, l))
    ensures forall y :: y in Chain(nodes, order, l) ==> 0 < y < |nodes|
  {
    LinkedFromAt(nodes, next, order, 0, l);
    HeadChainDistinct(nodes, next, order, l);
    ChainMembers(nodes, order, l);
  }

  /** Level l of the order with |nodes| inserted at position s into the enlarged arena. */
  lemma InsertedChain(nodes: seq<Node>, n: Node, ord: seq<nat>, s: nat, l: nat)
    requires s <= |ord| && forall p :: 0 <= p < |ord| ==> ord[p] < |nodes|
    ensures Chain(nodes + [n], ord[..s] + [|nodes|] + ord[s..], l) ==
      Chain(nodes, ord[..s], l) + (if n.level >= l then [|nodes|] else []) + Chain(nodes, ord[s..], l)
  {
    var nodes' := nodes + [n];
    ChainFrame(nodes, n, ord[..s], l);
    ChainFrame(nodes, n, ord[s..], l);
    ChainSingle(nodes', |nodes|, l);
    ChainAppend(nodes', ord[..s] + [|nodes|], ord[s..], l);
    ChainAppend(nodes', ord[..s], [|nodes|], l);
  }

  /** Level l of the order around its element at position t, and with that element removed. */
  lemma RemovedChain(nodes: seq<Node>, ord: seq<nat>, t: nat, l: nat)
    requires t < |ord|
    ensures Chain(nodes, ord, l) ==
      Chain(nodes, ord[..t], l) + Chain(nodes, [ord[t]], l) + Chain(nodes, ord[t + 1..], l)
    ensures Chain(nodes, ord[..t] + ord[t + 1..], l) == Chain(nodes, ord[..t], l) + Chain(nodes, ord[t + 1..], l)
  {
    assert ord == ord[..t] + [ord[t]] + ord[t + 1..];
    ChainAppend(nodes, ord[..t] + [ord[t]], ord[t + 1..], l);
    ChainAppend(nodes, ord[..t], [ord[t]], l);
    ChainAppend(nodes, ord[..t], ord[t + 1..], l);
  }

  /** Cutting the order at s cuts level l into the part before s (with the head) and the rest. */
  lemma SplitLevel(nodes: seq<Node>, order: seq<nat>, s: nat, l: nat)
    requires s <= |order|
    ensures var a, b := [0] + Chain(nodes, order[..s], l), Chain(nodes, order[s..], l);
      [0] + Chain(nodes, order, l) == a + b && a[|a| - 1] == Pred(nodes, order, s, l)
  {
    ChainSplit(nodes, order, s, l);
  }

  lemma Regroup(h: nat, c1: seq<nat>, m: seq<nat>, c2: seq<nat>)
    ensures [h] + (c1 + m + c2) == ([h] + c1) + m + c2
  {
  }

  lemma Regroup0(h: nat, c1: seq<nat>, c2: seq<nat>)
    ensures [h] + (c1 + [] + c2) == ([h] + c1) + c2
  {
  }

  /** Level l before and after the new node x = |nodes| is inserted at position s of the order. */
  lemma InsertChains(nodes: seq<Node>, order: seq<nat>, s: nat, n: Node, l: nat)
    requires s <= |order| && 0 < |nodes| && forall p :: 0 <= p < |order| ==> order[p] < |nodes|
    requires forall y :: y in Chain(nodes, order, l) ==> y < |nodes|
    ensures var a, b := [0] + Chain(nodes, order[..s], l), Chain(nodes, order[s..], l);
      [0] + Chain(nodes, order, l) == a + b && |nodes| !in a + b && a[|a| - 1] == Pred(nodes, order, s, l)
    ensures var a, b := [0] + Chain(nodes, order[..s], l), Chain(nodes, order[s..], l);
      n.level >= l ==> [0] + Chain(nodes + [n], order[..s] + [|nodes|] + order[s..], l) == a + [|nodes|] + b
    ensures var a, b := [0] + Chain(nodes, order[..s], l), Chain(nodes, order[s..], l);
      n.level < l ==> [0] + Chain(nodes + [n], order[..s] + [|nodes|] + order[s..], l) == a + b
  {
    SplitLevel(nodes, order, s, l);
    InsertedChain(nodes, n, order, s, l);
    if n.level >= l {
      Regroup(0, Chain(nodes, order[..s], l), [|nodes|], Chain(nodes, order[s..], l));
    } else {
      Regroup0(0, Chain(nodes, order[..s], l), Chain(nodes, order[s..], l));
    }
  }

  /**
   * Everything addScore's insertion starts from: a well-formed list, the new node n appended to
   * the arena with null pointers, the descent's update vector, and the position s the new entry
   * takes among the old ones (n's id is not on the board).
   */
  ghost predicate InsertReady(nodes: seq<Node>, next: seq<seq<int>>, order: seq<nat>, s: nat, n: Node,
                              update: seq<nat>, nodes': seq<Node>, next1: seq<seq<int>>) {
    Descended(nodes, next, order, s, n, update) && Appended(nodes, next, nodes', next1, n)
  }

  /** What addScore's descent leaves for the new node n: its position s and the update vector. */
  ghost predicate Descended(nodes: seq<Node>, next: seq<seq<int>>, order: seq<nat>, s: nat, n: Node, update: seq<nat>) {
    Wellformed(nodes, next, order) && s <= |order| && n.level <= MaxLevel &&
    |update| == MaxLevel + 1 && (forall j :: 0 <= j <= MaxLevel ==> update[j] == Pred(nodes, order, s, j)) &&
    var es, e := EntriesOf(nodes, order), Entry(n.id, n.score);
    (forall p :: 0 <= p < |es| ==> (Precedes(es[p], e) <==> p < s)) && forall x | x in es :: x.id != n.id
  }

  /** addScore's update vector fits the enlarged arena. */
  lemma InsertFits(nodes: seq<Node>, next: seq<seq<int>>, order: seq<nat>, s: nat, n: Node,
                   update: seq<nat>, nodes': seq<Node>, next1: seq<seq<int>>)
    requires InsertReady(nodes, next, order, s, n, update, nodes', next1)
    ensures Fits(next1, update, |nodes|, n.level + 1)
  {
    forall j | 0 <= j < n.level + 1 ensures update[j] < |next1| && j < |next1[update[j]]| && update[j] != |nodes| {
      WellLevel(nodes, next, order, j);
      NextAfter(nodes, next, order, s, j);
    }
  }

  /** Appending a node leaves the walk of the nodes already present unchanged. */
  lemma AppendFrame(next: seq<seq<int>>, next1: seq<seq<int>>, n: Node, l: nat, h: seq<nat>)
    requires Linked(next, l, h) && forall y :: y in h ==> y < |next|
    requires next1 == next + [Nulls(n.level + 1)]
    ensures Linked(next1, l, h)
  {
    forall p | 0 <= p < |h| ensures h[p] < |next1| && l < |next1[h[p]]| && next1[h[p]][l] == next[h[p]][l] {
      assert h[p] in h;
    }
    LinkFrame(next, next1, l, h);
  }

  /** Appending x = |next| with empty pointers and splicing it in turns level l's walk h = a + b into g. */
  lemma AppendLevel(next: seq<seq<int>>, next1: seq<seq<int>>, n: Node, update: seq<nat>, l: nat,
                    a: seq<nat>, b: seq<nat>, h: seq<nat>, g: seq<nat>)
    requires Linked(next, l, h) && Distinct(h) && h == a + b && |a| > 0
    requires forall y :: y in h ==> y < |next|
    requires next1 == next + [Nulls(n.level + 1)] && l < |update| && update[l] == a[|a| - 1]
    requires Fits(next1, update, |next|, n.level + 1)
    requires n.level >= l ==> g == a + [|next|] + b
    requires n.level < l ==> g == h
    ensures Linked(Spliced(next1, update, |next|, n.level + 1), l, g)
  {
    AppendFrame(next, next1, n, l, h);
    assert |next| !in h;
    SpliceLevel(next1, update, |next|, n.level + 1, l, a, b, h, g);
  }

  /** After addScore's splice loop, level l of the arena (next') walks the new order's chain (g). */
  lemma InsertLevel(nodes: seq<Node>, next: seq<seq<int>>, order: seq<nat>, s: nat, n: Node,
                    update: seq<nat>, nodes': seq<Node>, next1: seq<seq<int>>, l: nat, next': seq<seq<int>>, g: seq<nat>)
    requires s <= |order| && 0 < |nodes| && forall p :: 0 <= p < |order| ==> order[p] < |nodes|
    requires Linked(next, l, [0] + Chain(nodes, order, l)) && Distinct([0] + Chain(nodes, order, l))
    requires forall y :: y in Chain(nodes, order, l) ==> y < |nodes|
    requires |nodes| == |next| && Appended(nodes, next, nodes', next1, n) && l < |update| && update[l] == Pred(nodes, order, s, l)
    requires Fits(next1, update, |nodes|, n.level + 1) && next' == Spliced(next1, update, |nodes|, n.level + 1)
    requires g == [0] + Chain(nodes', order[..s] + [|nodes|] + order[s..], l)
    ensures Linked(next', l, g)
  {
    InsertChains(nodes, order, s, n, l);
    var h := [0] + Chain(nodes, order, l);
    assert forall y :: y in h ==> y < |next|;
    AppendLevel(next, next1, n, update, l, [0] + Chain(nodes, order[..s], l), Chain(nodes, order[s..], l), h, g);
  }

  /** The board after the insertion: e goes in at position s, which InsertSorted also picks. */
  lemma InsertEntries(nodes: seq<Node>, next: seq<seq<int>>, order: seq<nat>, s: nat, n: Node,
                      update: seq<nat>, nodes': seq<Node>, next1: seq<seq<int>>)
    requires InsertReady(nodes, next, order, s, n, update, nodes', next1)
    ensures var es' := EntriesOf(nodes', order[..s] + [|nodes|] + order[s..]);
      es' == InsertSorted(EntriesOf(nodes, order), Entry(n.id, n.score)) && Ordered(es') && UniqueIds(es')
  {
    var es, e := EntriesOf(nodes, order), Entry(n.id, n.score);
    assert EntriesOf(nodes', order[..s] + [|nodes|] + order[s..]) == es[..s] + [e] + es[s..];
    InsertAt(es, e, s);
    InsertSortedOrdered(es, e);
  }

  /** The enlarged arena keeps its shape under relinking, and the new order names real nodes. */
  lemma InsertShape(nodes: seq<Node>, next: seq<seq<int>>, order: seq<nat>, s: nat, n: Node,
                    update: seq<nat>, nodes': seq<Node>, next1: seq<seq<int>>, next': seq<seq<int>>)
    requires InsertReady(nodes, next, order, s, n, update, nodes', next1) && SameShape(next1, next')
    ensures Shape(nodes', next')
    ensures var order' := order[..s] + [|nodes|] + order[s..];
      forall p :: 0 <= p < |order'| ==> 0 < order'[p] < |nodes'|
  {
    forall y | 0 <= y < |nodes'| ensures nodes'[y].level <= MaxLevel && |next'[y]| == nodes'[y].level + 1 {
      if y < |nodes| {
        assert nodes'[y] == nodes[y] && next1[y] == next[y];
      }
    }
  }

  /** addScore's insertion of a fresh node keeps the invariant and inserts its entry in order. */
  lemma InsertKeeps(nodes: seq<Node>, next: seq<seq<int>>, order: seq<nat>, s: nat, n: Node,
                    update: seq<nat>, nodes': seq<Node>, next1: seq<seq<int>>)
    requires InsertReady(nodes, next, order, s, n, update, nodes', next1)
    ensures Fits(next1, update, |nodes|, n.level + 1)
    ensures Wellformed(nodes', Spliced(next1, update, |nodes|, n.level + 1), order[..s] + [|nodes|] + order[s..])
    ensures EntriesOf(nodes', order[..s] + [|nodes|] + order[s..]) ==
      InsertSorted(EntriesOf(nodes, order), Entry(n.id, n.score))
  {
    InsertFits(nodes, next, order, s, n, update, nodes', next1);
    forall l | 0 <= l <= MaxLevel
      ensures Linked(Spliced(next1, update, |nodes|, n.level + 1), l, [0] + Chain(nodes', order[..s] + [|nodes|] + order[s..], l))
    {
      WellLevel(nodes, next, order, l);
      InsertLevel(nodes, next, order, s, n, update, nodes', next1, l,
                  Spliced(next1, update, |nodes|, n.level + 1), [0] + Chain(nodes', order[..s] + [|nodes|] + order[s..], l));
    }
    LinkedFromAll(nodes', Spliced(next1, update, |nodes|, n.level + 1), order[..s] + [|nodes|] + order[s..], 0);
    InsertEntries(nodes, next, order, s, n, update, nodes', next1);
    InsertShape(nodes, next, order, s, n, update, nodes', next1, Spliced(next1, update, |nodes|, n.level + 1));
  }

  /** Level l before and after the node at position t of the order is removed. */
  lemma RemoveChains(nodes: seq<Node>, order: seq<nat>, t: nat, l: nat)
    requires t < |order| && order[t] < |nodes|
    ensures var a := [0] + Chain(nodes, order[..t], l); a[|a| - 1] == Pred(nodes, order, t, l)
    ensures [0] + Chain(nodes, order[..t] + order[t + 1..], l) == ([0] + Chain(nodes, order[..t], l)) + Chain(nodes, order[t + 1..], l)
    ensures var a, b, x := [0] + Chain(nodes, order[..t], l), Chain(nodes, order[t + 1..], l), order[t];
      nodes[x].level >= l ==> [0] + Chain(nodes, order, l) == a + [x] + b
    ensures var a, b, x := [0] + Chain(nodes, order[..t], l), Chain(nodes, order[t + 1..], l), order[t];
      nodes[x].level < l ==> [0] + Chain(nodes, order, l) == a + b
  {
    var x := order[t];
    var c1, c2 := Chain(nodes, order[..t], l), Chain(nodes, order[t + 1..], l);
    RemovedChain(nodes, order, t, l);
    ChainSingle(nodes, x, l);
    Regroup0(0, c1, c2);
    if nodes[x].level >= l {
      Regroup(0, c1, [x], c2);
    }
  }

  /** Everything removePlayer's bypass starts from: a well-formed list and the descent's update vector for position t. */
  ghost predicate RemoveReady(nodes: seq<Node>, next: seq<seq<int>>, order: seq<nat>, t: nat, update: seq<nat>) {
    Wellformed(nodes, next, order) && t < |order| &&
    |update| == MaxLevel + 1 && forall j :: 0 <= j <= MaxLevel ==> update[j] == Pred(nodes, order, t, j)
  }

  /** removePlayer's update vector fits the arena and never names the node being removed. */
  lemma RemoveFits(nodes: seq<Node>, next: seq<seq<int>>, order: seq<nat>, t: nat, update: seq<nat>)
    requires RemoveReady(nodes, next, order, t, update)
    ensures Fits(next, update, order[t], nodes[order[t]].level + 1)
  {
    OrderDistinct(nodes, order);
    var x := order[t];
    forall j | 0 <= j < nodes[x].level + 1 ensures update[j] < |next| && j < |next[update[j]]| && update[j] != x {
      WellLevel(nodes, next, order, j);
      NextAfter(nodes, next, order, t, j);
      PredIn(nodes, order, t, j);
    }
  }

  /** After removePlayer's bypass loop, level l of the arena (next') walks the shortened order's chain (g). */
  lemma RemoveLevel(nodes: seq<Node>, next: seq<seq<int>>, order: seq<nat>, t: nat, update: seq<nat>, l: nat,
                    next': seq<seq<int>>, g: seq<nat>)
    requires t < |order| && order[t] < |nodes| && order[t] < |next| && |next[order[t]]| == nodes[order[t]].level + 1
    requires Linked(next, l, [0] + Chain(nodes, order, l)) && Distinct([0] + Chain(nodes, order, l))
    requires l < |update| && update[l] == Pred(nodes, order, t, l)
    requires Fits(next, update, order[t], nodes[order[t]].level + 1)
    requires next' == Bypassed(next, update, order[t], nodes[order[t]].level + 1)
    requires g == [0] + Chain(nodes, order[..t] + order[t + 1..], l)
    ensures Linked(next', l, g)
  {
    RemoveChains(nodes, order, t, l);
    var a, b := [0] + Chain(nodes, order[..t], l), Chain(nodes, order[t + 1..], l);
    BypassLevel(next, update, order[t], nodes[order[t]].level + 1, l, a, b, [0] + Chain(nodes, order, l), g);
  }

  /** The board after the removal: the entry at position t is the one Without drops. */
  lemma RemoveEntries(nodes: seq<Node>, next: seq<seq<int>>, order: seq<nat>, t: nat, update: seq<nat>)
    requires RemoveReady(nodes, next, order, t, update)
    ensures var es' := EntriesOf(nodes, order[..t] + order[t + 1..]);
      es' == Without(EntriesOf(nodes, order), nodes[order[t]].id) && Ordered(es') && UniqueIds(es')
  {
    var es := EntriesOf(nodes, order);
    assert EntriesOf(nodes, order[..t] + order[t + 1..]) == es[..t] + es[t + 1..];
    WithoutAt(es, t);
    WithoutOrdered(es, es[t].id);
    WithoutUnique(es, es[t].id);
  }

  /** Relinking keeps the arena's shape, and the shortened order still names real nodes. */
  lemma RemoveShape(nodes: seq<Node>, next: seq<seq<int>>, order: seq<nat>, t: nat, update: seq<nat>, next': seq<seq<int>>)
    requires RemoveReady(nodes, next, order, t, update) && SameShape(next, next')
    ensures Shape(nodes, next')
    ensures var order' := order[..t] + order[t + 1..];
      forall p :: 0 <= p < |order'| ==> 0 < order'[p] < |nodes|
  {
  }

  /** removePlayer's bypass of the node at position t keeps the invariant and drops its entry. */
  lemma RemoveKeeps(nodes: seq<Node>, next: seq<seq<int>>, order: seq<nat>, t: nat, update: seq<nat>)
    requires RemoveReady(nodes, next, order, t, update)
    ensures Fits(next, update, order[t], nodes[order[t]].level + 1)
    ensures Wellformed(nodes, Bypassed(next, update, order[t], nodes[order[t]].level + 1), order[..t] + order[t + 1..])
    ensures EntriesOf(nodes, order[..t] + order[t + 1..]) == Without(EntriesOf(nodes, order), nodes[order[t]].id)
  {
    RemoveFits(nodes, next, order, t, update);
    var next', order' := Bypassed(next, update, order[t], nodes[order[t]].level + 1), order[..t] + order[t + 1..];
    forall l | 0 <= l <= MaxLevel ensures Linked(next', l, [0] + Chain(nodes, order', l)) {
      WellLevel(nodes, next, order, l);
      RemoveLevel(nodes, next, order, t, update, l, next', [0] + Chain(nodes, order', l));
    }
    LinkedFromAll(nodes, next', order', 0);
    RemoveEntries(nodes, next, order, t, update);
    RemoveShape(nodes, next, order, t, update, next');
  }

  /**
   * The descent's step condition: it moves on to node x unless x is the target or the entry e
   * would go before x. addScore's descent has no target and passes -1, which names no node.
   */
  predicate Moves(nodes: seq<Node>, e: Entry, target: int, x: int) {
    x != target && !ShouldInsertBefore(e, Some(EntryOf(nodes, x)))
  }

  /**
   * One step of the descent at level l towards the s-th position of the order: either the walk
   * stops here, and current is the level's predecessor of position s, or it moves on to the
   * next node of level l, which still lies before position s.
   */
  lemma WalkStep(nodes: seq<Node>, next: seq<seq<int>>, order: seq<nat>, e: Entry, target: int,
                 s: nat, t: nat, l: nat, current: nat)
    requires LinkedFrom(nodes, next, order, 0) && s <= |order| && t <= s && l <= MaxLevel
    requires forall p {:trigger Moves(nodes, e, target, order[p])} :: 0 <= p < |order| ==> (Moves(nodes, e, target, order[p]) <==> p < s)
    requires if t == 0 then current == 0 else current == order[t - 1] && current < |nodes| && nodes[current].level >= l
    ensures current < |next| && l < |next[current]|
    ensures var y := next[current][l];
      (y == -1 || !Moves(nodes, e, target, y)) ==> current == Pred(nodes, order, s, l)
    ensures var y, u := next[current][l], FirstAt(nodes, order, t, l);
      !(y == -1 || !Moves(nodes, e, target, y)) ==> u < s && y == order[u] && order[u] < |nodes| && nodes[order[u]].level >= l
  {
    DescendStep(nodes, next, order, t, l, current);
    var u := FirstAt(nodes, order, t, l);
    if u < s {
      assert Moves(nodes, e, target, order[u]);
    } else {
      PredSkip(nodes, order, t, s, l);
    }
  }

  /** For a new entry, the descent moves past exactly the entries that precede it. */
  lemma MovesForInsert(nodes: seq<Node>, order: seq<nat>, e: Entry, s: nat)
    requires var es := EntriesOf(nodes, order);
      (forall p :: 0 <= p < |es| ==> (Precedes(es[p], e) <==> p < s)) && forall x | x in es :: x.id != e.id
    ensures forall p {:trigger Moves(nodes, e, -1, order[p])} :: 0 <= p < |order| ==> (Moves(nodes, e, -1, order[p]) <==> p < s)
  {
    var es := EntriesOf(nodes, order);
    forall p | 0 <= p < |order| ensures Moves(nodes, e, -1, order[p]) <==> p < s {
      assert es[p] in es;
      ShouldInsertBeforeIsPrecedes(e, es[p]);
      PrecedesTotalOrder(e, es[p], e);
    }
  }

  /** For the node at position t, the descent moves past exactly the nodes before it. */
  lemma MovesForRemove(nodes: seq<Node>, next: seq<seq<int>>, order: seq<nat>, t: nat)
    requires Wellformed(nodes, next, order) && t < |order|
    ensures forall p {:trigger Moves(nodes, EntryOf(nodes, order[t]), order[t], order[p])} :: 0 <= p < |order| ==> (Moves(nodes, EntryOf(nodes, order[t]), order[t], order[p]) <==> p < t)
  {
    var es := EntriesOf(nodes, order);
    OrderDistinct(nodes, order);
    forall p | 0 <= p < |order| ensures Moves(nodes, es[t], order[t], order[p]) <==> p < t {
      ShouldInsertBeforeIsPrecedes(es[t], es[p]);
      PrecedesTotalOrder(es[t], es[p], es[t]);
    }
  }

  /** Level 0 of a well-formed list walks the whole order. */
  lemma LevelZero(nodes: seq<Node>, next: seq<seq<int>>, order: seq<nat>)
    requires Wellformed(nodes, next, order)
    ensures next[0][0] == At(order, 0)
    ensures forall p :: 0 <= p < |order| ==> order[p] < |next| && 0 < |next[order[p]]| && next[order[p]][0] == At(order, p + 1)
  {
    ChainZero(nodes, order);
    var h := [0] + order;
    assert Linked(next, 0, h);
    assert h[0] == 0;
    forall p | 0 <= p < |order|
      ensures order[p] < |next| && 0 < |next[order[p]]| && next[order[p]][0] == At(order, p + 1)
    {
      assert h[p + 1] == order[p];
    }
  }

  /**
   * ConcreteLeaderboard. The arena holds every node ever created: removePlayer unlinks a node
   * and the model keeps it, unreachable, where removePlayer deletes it.
   */
  class Leaderboard {
    var nodes: seq<Node>
    var next: seq<seq<int>>
    ghost var order: seq<nat>

    ghost predicate Valid()
      reads this
    {
      Wellformed(nodes, next, order)
    }

    /** The board as the level-0 walk spells it out. */
    ghost function Entries(): seq<Entry>
      reads this
    {
      EntriesOf(nodes, order)
    }

    /** An empty list: the head sentinel alone, with null pointers on all 17 levels. */
    constructor()
      ensures Valid() && Entries() == []
    {
      nodes := [Node(-1, IntMin, MaxLevel)];
      next := [Nulls(MaxLevel + 1)];
      order := [];
      new;
      forall l | 0 <= l <= MaxLevel ensures Linked(next, l, [0] + Chain(nodes, order, l)) {
        assert [0] + Chain(nodes, order, l) == [0];
      }
      LinkedFromAll(nodes, next, order, 0);
    }

    /** The level-0 scan for a player: the node holding the id, or -1 when the player is absent. */
    method Find(id: int) returns (x: int, ghost p: nat)
      requires Valid()
      ensures x == -1 <==> id !in Ids(Entries())
      ensures x != -1 ==> p < |order| && x == order[p] && Entries()[p].id == id
    {
      LevelZero(nodes, next, order);
      x := next[0][0];
      p := 0;
      while x != -1
        invariant p <= |order| && x == At(order, p)
        invariant forall q :: 0 <= q < p ==> Entries()[q].id != id
        decreases |order| - p
      {
        if nodes[x].id == id {
          return;
        }
        x := next[x][0];
        p := p + 1;
      }
      IdsIn(Entries(), id);
    }

    /**
     * The top-down search shared by addScore and removePlayer: at each level from 16 down to 0
     * it follows pointers while Moves holds and records where it stopped. When Moves holds for
     * exactly the first s nodes of the order, update[l] is the last node before position s that
     * has level l, or the head.
     */
    method Descend(e: Entry, target: int, ghost s: nat) returns (update: seq<nat>)
      requires Valid() && s <= |order|
      requires forall p {:trigger Moves(nodes, e, target, order[p])} :: 0 <= p < |order| ==> (Moves(nodes, e, target, order[p]) <==> p < s)
      ensures |update| == MaxLevel + 1 && forall j :: 0 <= j <= MaxLevel ==> update[j] == Pred(nodes, order, s, j)
    {
      update := seq(MaxLevel + 1, _ => 0);
      var current: nat := 0;
      ghost var t: nat := 0;
      var i := MaxLevel;
      while i >= 0
        invariant -1 <= i <= MaxLevel && t <= s && |update| == MaxLevel + 1
        invariant if t == 0 then current == 0 else current == order[t - 1] && nodes[current].level >= i + 1
        invariant forall j :: i < j <= MaxLevel ==> update[j] == Pred(nodes, order, s, j)
      {
        while true
          invariant t <= s
          invariant if t == 0 then current == 0 else current == order[t - 1] && nodes[current].level >= i
          decreases s - t
        {
          WalkStep(nodes, next, order, e, target, s, t, i, current);
          ghost var u := FirstAt(nodes, order, t, i);
          if next[current][i] == -1 || !Moves(nodes, e, target, next[current][i]) {
            break;
          }
          current := next[current][i];
          t := u + 1;
        }
        update := update[i := current];
        i := i - 1;
      }
    }

    /** removePlayer: unlink the player's node at every level it has; an absent player changes nothing. */
    method RemovePlayer(id: int)
      requires Valid()
      modifies this
      ensures Valid() && Entries() == Without(old(Entries()), id)
    {
      var x, p := Find(id);
      if x == -1 {
        WithoutSpec(Entries(), id);
        return;
      }
      assert nodes[x].id == id;
      MovesForRemove(nodes, next, order, p);
      var update := Descend(EntryOf(nodes, x), x, p);
      WellLevel(nodes, next, order, 0);
      NextAfter(nodes, next, order, p, 0);
      // removePlayer's sanity check (bail out unless update[0] points at the node) never fires.
      assert next[update[0]][0] == x;
      Bypass(x, p, update);
    }

    /** Steps 3 and 4 of removePlayer: node x, at position p of the order, is unlinked at every level it has. */
    method Bypass(x: nat, ghost p: nat, update: seq<nat>)
      requires RemoveReady(nodes, next, order, p, update) && x == order[p]
      modifies this
      ensures Valid() && nodes == old(nodes) && Entries() == Without(old(Entries()), EntryOf(nodes, x).id)
    {
      RemoveKeeps(nodes, next, order, p, update);
      Unlink(x, update, nodes[x].level);
      order := order[..p] + order[p + 1..];
    }

    /** Step 4 of removePlayer: at each level 0..level where update[i] points at x, it now points past x. */
    method Unlink(x: nat, update: seq<nat>, level: nat)
      requires x < |next| && level + 1 <= |next[x]| && Fits(next, update, x, level + 1)
      modifies `next
      ensures next == Bypassed(old(next), update, x, level + 1)
    {
      ghost var next0 := next;
      var i := 0;
      while i <= level
        invariant 0 <= i <= level + 1
        invariant next == Bypassed(next0, update, x, i)
      {
        if next[update[i]][i] == x {
          next := next[update[i] := next[update[i]][i := next[x][i]]];
        }
        i := i + 1;
      }
    }

    /**
     * Steps 2 to 4 of addScore: the descent for the new node's entry, then the node with the
     * given level is appended to the arena and spliced in after update[i] at levels 0..level.
     */
    method Insert(n: Node)
      requires Valid() && n.level <= MaxLevel && n.id !in Ids(Entries())
      modifies this
      ensures Valid() && Entries() == InsertSorted(old(Entries()), Entry(n.id, n.score))
    {
      var e := Entry(n.id, n.score);
      IdsIn(Entries(), n.id);
      ghost var s := SplitIndex(Entries(), e);
      MovesForInsert(nodes, order, e, s);
      var update := Descend(e, -1, s);
      Link(n, s, update);
    }

    /** Steps 3 and 4 of addScore: node n is appended to the arena and spliced in after update[i] at levels 0..n.level. */
    method Link(n: Node, ghost s: nat, update: seq<nat>)
      requires Descended(nodes, next, order, s, n, update)
      modifies this
      ensures Valid() && Entries() == InsertSorted(old(Entries()), Entry(n.id, n.score))
    {
      ghost var nodes0, next0 := nodes, next;
      var x := |nodes|;
      nodes := nodes + [n];
      next := next + [Nulls(n.level + 1)];
      InsertKeeps(nodes0, next0, order, s, n, update, nodes, next);
      Splice(x, update, n.level);
      order := order[..s] + [x] + order[s..];
    }

    /** Step 4 of addScore: at each level 0..level, x takes over update[i]'s pointer and update[i] points at x. */
    method Splice(x: nat, update: seq<nat>, level: nat)
      requires x < |next| && level + 1 <= |next[x]| && Fits(next, update, x, level + 1)
      modifies `next
      ensures next == Spliced(old(next), update, x, level + 1)
    {
      ghost var next1 := next;
      var i := 0;
      while i <= level
        invariant 0 <= i <= level + 1
        invariant next == Spliced(next1, update, x, i)
      {
        next := next[x := next[x][i := next[update[i]][i]]];
        next := next[update[i] := next[update[i]][i := x]];
        i := i + 1;
      }
    }

    /**
     * addScore: the player's new score is the old one plus delta (delta for a new player); the
     * old node is removed and a node with the new score is inserted. The level stands for
     * randomLevel's coin flips, which give a number in 0..16.
     */
    method AddScore(id: int, delta: int, level: nat)
      requires Valid() && level <= MaxLevel
      modifies this
      ensures Valid() && Entries() == Ranking.AddScore(old(Entries()), id, delta)
      ensures ScoreMap(Entries()) == ScoreMap(old(Entries()))[id := NewScore(old(Entries()), id, delta)]
    {
      ghost var es0 := Entries();
      var x, p := Find(id);
      ScanResult(es0, id, delta, x != -1, p);
      var final: int;
      if x != -1 {
        final := nodes[x].score + delta;
        RemovePlayer(id);
      } else {
        final := delta;
      }
      ghost var es1 := Entries();
      assert es1 == Without(es0, id) && final == NewScore(es0, id, delta);
      Insert(Node(id, final, level));
      assert Entries() == InsertSorted(es1, Entry(id, final));
      AddScoreScores(es0, id, delta);
    }

    /** getTopN: the first n ids along level 0 (all of them when n is negative or too large). */
    method GetTopN(n: int) returns (r: seq<int>)
      requires Valid()
      ensures r == TopN(Entries(), n)
    {
      LevelZero(nodes, next, order);
      r := [];
      var current := next[0][0];
      ghost var p: nat := 0;
      while current != -1 && (n < 0 || |r| < n)
        invariant p <= |order| && current == At(order, p) && |r| == p
        invariant forall q :: 0 <= q < p ==> r[q] == Entries()[q].id
        invariant n >= 0 ==> p <= n
        decreases |order| - p
      {
        r := r + [nodes[current].id];
        current := next[current][0];
        p := p + 1;
      }
      assert p == Limit(|order|, n);
    }
  }
}
