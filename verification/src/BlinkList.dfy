/**
 The intrusive list of blinking cells. Nodes live in a fixed pool; a slot is free exactly when its
 location is 0, and NEXT fields hold slot numbers (NULL is -1).
 */
module BlinkList {
  import opened Bytes
  import opened Blinkers

  const NULL := -1

  datatype Node = Node(cell: Blink, next: int)

  // ---------------------------------------------------------------- shape of the list

  /** Where the list goes on behind position `i` of `order`. */
  ghost function Follower(order: seq<nat>, i: nat): int {
    if i + 1 < |order| then order[i + 1] else NULL
  }

  ghost predicate NodeOk(nodes: seq<Node>, order: seq<nat>, i: nat)
    requires i < |order|
  {
    order[i] < |nodes| && nodes[order[i]].next == Follower(order, i) && 0 < nodes[order[i]].cell.location < CELLS
  }

  /** Slot `s` is taken exactly when it is in the list. */
  ghost predicate SlotOk(nodes: seq<Node>, order: seq<nat>, s: nat)
    requires s < |nodes|
  {
    nodes[s].cell.location != 0 <==> s in order
  }

  /** `order` is the list from the head on: acyclic, and exactly the slots with a nonzero location. */
  ghost predicate ListOk(nodes: seq<Node>, head: int, order: seq<nat>) {
    && |nodes| == CELLS
    && head == (if order == [] then NULL else order[0])
    && (forall i :: 0 <= i < |order| ==> NodeOk(nodes, order, i))
    && (forall i, j :: 0 <= i < j < |order| ==> order[i] != order[j])
    && (forall s :: 0 <= s < CELLS ==> SlotOk(nodes, order, s))
  }

  ghost function Items(nodes: seq<Node>, order: seq<nat>): (l: seq<Blink>)
    requires forall i :: 0 <= i < |order| ==> order[i] < |nodes|
    ensures |l| == |order| && forall i :: 0 <= i < |l| ==> l[i] == nodes[order[i]].cell
  {
    seq(|order|, i requires 0 <= i < |order| => nodes[order[i]].cell)
  }

  lemma SlotsInRange(nodes: seq<Node>, head: int, order: seq<nat>)
    requires ListOk(nodes, head, order)
    ensures forall i :: 0 <= i < |order| ==> order[i] < |nodes|
  {
    forall i | 0 <= i < |order| ensures order[i] < |nodes| { assert NodeOk(nodes, order, i); }
  }

  /** A free slot linked in at the front. */
  lemma LinkedFront(nodes: seq<Node>, head: int, order: seq<nat>, slot: nat, cell: Blink)
    requires ListOk(nodes, head, order) && slot < CELLS && nodes[slot].cell.location == 0
    requires 0 < cell.location < CELLS
    ensures ListOk(nodes[slot := Node(cell, head)], slot, [slot] + order)
  {
    var nodes', order' := nodes[slot := Node(cell, head)], [slot] + order;
    assert SlotOk(nodes, order, slot);
    forall i | 0 <= i < |order'|
      ensures NodeOk(nodes', order', i)
    {
      if i > 0 {
        assert NodeOk(nodes, order, i - 1);
      }
    }
    forall s | 0 <= s < CELLS
      ensures SlotOk(nodes', order', s)
    {
      assert SlotOk(nodes, order, s);
      assert s in order' <==> s == slot || s in order;
    }
  }

  /** Position `i` taken out: its predecessor, or the head, skips it, and its slot is zeroed. */
  ghost function Unlinked(nodes: seq<Node>, order: seq<nat>, i: nat): (r: seq<Node>)
    requires i < |order| && forall k :: 0 <= k < |order| ==> order[k] < |nodes|
  {
    var n1 := if i == 0 then nodes else nodes[order[i - 1] := nodes[order[i - 1]].(next := nodes[order[i]].next)];
    n1[order[i] := Node(EMPTY, 0)]
  }

  ghost function Without(order: seq<nat>, i: nat): seq<nat>
    requires i < |order|
  {
    order[..i] + order[i + 1..]
  }

  lemma UnlinkedNode(nodes: seq<Node>, head: int, order: seq<nat>, i: nat, k: nat)
    requires ListOk(nodes, head, order) && i < |order| && k < |order| - 1
    requires forall j :: 0 <= j < |order| ==> order[j] < |nodes|
    ensures NodeOk(Unlinked(nodes, order, i), Without(order, i), k)
  {
    var j := if k < i then k else k + 1;
    assert NodeOk(nodes, order, j) && NodeOk(nodes, order, i);
    assert Without(order, i)[k] == order[j];
  }

  lemma UnlinkedSlot(nodes: seq<Node>, head: int, order: seq<nat>, i: nat, s: nat)
    requires ListOk(nodes, head, order) && i < |order| && s < CELLS
    requires forall j :: 0 <= j < |order| ==> order[j] < |nodes|
    ensures SlotOk(Unlinked(nodes, order, i), Without(order, i), s)
  {
    assert SlotOk(nodes, order, s);
    var rest := Without(order, i);
    if s in order && s != order[i] {
      var j :| 0 <= j < |order| && order[j] == s;
      assert rest[if j < i then j else j - 1] == s;
    }
    if s in rest {
      var k :| 0 <= k < |rest| && rest[k] == s;
      assert rest[k] == order[if k < i then k else k + 1];
    }
  }

  lemma UnlinkedOk(nodes: seq<Node>, head: int, order: seq<nat>, i: nat)
    requires ListOk(nodes, head, order) && i < |order|
    requires forall k :: 0 <= k < |order| ==> order[k] < |nodes|
    ensures ListOk(Unlinked(nodes, order, i), if i == 0 then nodes[order[i]].next else head, Without(order, i))
  {
    var order' := Without(order, i);
    forall k | 0 <= k < |order'|
      ensures NodeOk(Unlinked(nodes, order, i), order', k) { UnlinkedNode(nodes, head, order, i, k); }
    forall s | 0 <= s < CELLS
      ensures SlotOk(Unlinked(nodes, order, i), order', s) { UnlinkedSlot(nodes, head, order, i, s); }
    assert NodeOk(nodes, order, i);
  }

  /** A change of timing fields leaves the list alone. */
  lemma RetimedOk(nodes: seq<Node>, head: int, order: seq<nat>, slot: nat, cell: Blink)
    requires ListOk(nodes, head, order) && slot < CELLS && cell.location == nodes[slot].cell.location
    ensures ListOk(nodes[slot := nodes[slot].(cell := cell)], head, order)
  {
    var nodes' := nodes[slot := nodes[slot].(cell := cell)];
    forall i | 0 <= i < |order| ensures NodeOk(nodes', order, i) { assert NodeOk(nodes, order, i); }
    forall s | 0 <= s < CELLS ensures SlotOk(nodes', order, s) { assert SlotOk(nodes, order, s); }
  }

  // ---------------------------------------------------------------- when the pool is full

  /** The pool is full exactly when the list has 2000 nodes. */
  lemma FullPool(nodes: seq<Node>, head: int, order: seq<nat>)
    requires ListOk(nodes, head, order)
    ensures |order| <= CELLS
    ensures |nodes| == CELLS && (|order| == CELLS <==> forall s :: 0 <= s < CELLS ==> nodes[s].cell.location != 0)
  {
    var taken := set i | 0 <= i < |order| :: order[i];
    TakenSlots(nodes, head, order, taken);
    hide ListOk;
    Counted(order, taken);
    FullSet(taken, CELLS);
  }

  lemma TakenSlots(nodes: seq<Node>, head: int, order: seq<nat>, taken: set<nat>)
    requires ListOk(nodes, head, order) && taken == set i | 0 <= i < |order| :: order[i]
    ensures |nodes| == CELLS && (forall i, j :: 0 <= i < j < |order| ==> order[i] != order[j])
    ensures forall s :: s in taken ==> s < CELLS
    ensures forall s :: 0 <= s < CELLS ==> (nodes[s].cell.location != 0 <==> s in taken)
  {
    SlotsInRange(nodes, head, order);
    forall s | 0 <= s < CELLS
      ensures nodes[s].cell.location != 0 <==> s in taken
    {
      assert SlotOk(nodes, order, s);
    }
  }

  lemma {:induction false} Counted(order: seq<nat>, taken: set<nat>)
    requires (forall i, j :: 0 <= i < j < |order| ==> order[i] != order[j]) &&
        taken == set i | 0 <= i < |order| :: order[i]
    ensures |taken| == |order|
  {
    if order != [] {
      var rest := order[1..];
      var taken' := set i | 0 <= i < |rest| :: rest[i];
      Counted(rest, taken');
      assert taken == taken' + {order[0]};
    }
  }

  ghost function Below(n: nat): (r: set<nat>)
    ensures |r| == n && forall s :: s in r <==> 0 <= s < n
  {
    if n == 0 then {} else Below(n - 1) + {n - 1}
  }

  lemma FullSet(taken: set<nat>, n: nat)
    requires forall s :: s in taken ==> s < n
    ensures |taken| <= n && (|taken| == n <==> forall s :: 0 <= s < n ==> s in taken)
  {
    var all := Below(n);
    assert taken <= all && all == taken + (all - taken);
    assert |all| == |taken| + |all - taken|;
    assert taken == all <==> forall s :: 0 <= s < n ==> s in taken;
  }

  // ---------------------------------------------------------------- location 0

  function LowestFree(nodes: seq<Node>, i: nat): (r: nat)
    requires i <= |nodes|
    ensures i <= r <= |nodes| && (r < |nodes| ==> nodes[r].cell.location == 0)
    ensures forall j :: i <= j < r ==> nodes[j].cell.location != 0
    decreases |nodes| - i
  {
    if i == |nodes| || nodes[i].cell.location == 0 then i else LowestFree(nodes, i + 1)
  }

  /** What the code stores for an added cell. */
  function Armed(user: Blink): Blink { user.(status := 1, countdown := user.onLength) }

  /** Pool and head, whatever they look like. */
  datatype Links = Links(nodes: seq<Node>, head: int)

  /** Some order describes the list. */
  ghost predicate IsList(l: Links) {
    exists order :: ListOk(l.nodes, l.head, order)
  }

  /** The effect of `add` on pool and head when it does not fail. */
  function Added(l: Links, user: Blink): Links
    requires LowestFree(l.nodes, 0) < |l.nodes|
  {
    var slot := LowestFree(l.nodes, 0);
    Links(l.nodes[slot := Node(Armed(user), l.head)], slot)
  }

  function AddStep(l: Links, user: Blink): Links {
    if user.location >= CELLS || LowestFree(l.nodes, 0) == |l.nodes| then l else Added(l, user)
  }

  /** If the result of an add is a list, so was what it started from: the first node can be taken off again. */
  lemma AddedComesFromAList(l: Links, user: Blink, order: seq<nat>)
    requires |l.nodes| == CELLS && LowestFree(l.nodes, 0) < CELLS
    requires ListOk(Added(l, user).nodes, Added(l, user).head, order)
    ensures order != [] && user.location != 0 && ListOk(l.nodes, l.head, order[1..])
  {
    hide LowestFree;
    var slot, n1, rest := LowestFree(l.nodes, 0), Added(l, user).nodes, order[1..];
    assert NodeOk(n1, order, 0);
    forall i | 0 <= i < |rest|
      ensures NodeOk(l.nodes, rest, i)
    {
      assert NodeOk(n1, order, i + 1);
    }
    forall s | 0 <= s < CELLS
      ensures SlotOk(l.nodes, rest, s)
    {
      assert SlotOk(n1, order, s);
      assert s in order <==> s == slot || s in rest;
    }
  }

  /** An add leaves a list exactly when it found one and the location is not 0. */
  lemma AddedIsAList(l: Links, user: Blink)
    requires |l.nodes| == CELLS && LowestFree(l.nodes, 0) < CELLS && user.location < CELLS
    ensures IsList(Added(l, user)) <==> IsList(l) && user.location != 0
  {
    hide ListOk;
    hide LowestFree;
    if IsList(Added(l, user)) {
      var order :| ListOk(Added(l, user).nodes, Added(l, user).head, order);
      AddedComesFromAList(l, user, order);
    } else if IsList(l) && user.location != 0 {
      var order :| ListOk(l.nodes, l.head, order);
      LinkedFront(l.nodes, l.head, order, LowestFree(l.nodes, 0), Armed(user));
    }
  }

  /** After location 0 the next add takes the same slot again and the list runs in a circle. */
  lemma ZeroLocationMakesACircle(l: Links, user: Blink, next: Blink)
    requires |l.nodes| == CELLS && LowestFree(l.nodes, 0) < CELLS && user.location == 0
    ensures var l1 := Added(l, user);
            LowestFree(l1.nodes, 0) == l1.head && var l2 := Added(l1, next);
            l2.head == l1.head && l2.nodes[l2.head].next == l2.head
  {
    var l1 := Added(l, user);
    assert l1.nodes[l1.head].cell.location == 0;
    assert forall j :: 0 <= j < l1.head ==> l1.nodes[j] == l.nodes[j];
  }

  // ---------------------------------------------------------------- a run of adds

  function AddAll(l: Links, users: seq<Blink>): Links {
    if users == [] then l else AddStep(AddAll(l, users[..|users| - 1]), users[|users| - 1])
  }

  /** How many of the cells have a location in range. */
  function InRange(users: seq<Blink>): nat {
    if users == [] then 0
    else InRange(users[..|users| - 1]) + if users[|users| - 1].location < CELLS then 1 else 0
  }

  /** User `i` of the run is not at location 0, or finds the pool full. */
  ghost predicate Harmless(users: seq<Blink>, i: nat, used: nat)
    requires i < |users|
  {
    users[i].location == 0 ==> used + InRange(users[..i]) >= CELLS
  }

  lemma HarmlessPrefix(users: seq<Blink>, used: nat)
    requires users != []
    ensures var init := users[..|users| - 1];
            (forall i :: 0 <= i < |users| ==> Harmless(users, i, used)) <==>
            (forall i :: 0 <= i < |init| ==> Harmless(init, i, used)) && Harmless(users, |users| - 1, used)
  {
    var init := users[..|users| - 1];
    forall i | 0 <= i < |init|
      ensures Harmless(users, i, used) <==> Harmless(init, i, used)
    {
      assert users[..i] == init[..i];
    }
  }

  /**
   A run of adds on a list leaves a list exactly when no cell at location 0 finds a free slot; `order`
   then describes it.
   */
  lemma {:induction false} AddAllIsAList(l: Links, order: seq<nat>, users: seq<Blink>) returns (after: seq<nat>)
    requires ListOk(l.nodes, l.head, order)
    ensures IsList(AddAll(l, users)) <==> forall i :: 0 <= i < |users| ==> Harmless(users, i, |order|)
    ensures IsList(AddAll(l, users)) ==>
              ListOk(AddAll(l, users).nodes, AddAll(l, users).head, after) &&
              |after| == Min(CELLS, |order| + InRange(users))
    ensures |AddAll(l, users).nodes| == CELLS
  {
    hide ListOk;
    hide LowestFree;
    if users == [] {
      ListBounds(l, order);
      return order;
    }
    var init, user := users[..|users| - 1], users[|users| - 1];
    after := AddAllIsAList(l, order, init);
    HarmlessPrefix(users, |order|);
    var mid := AddAll(l, init);
    after := StepIsAList(mid, after, user);
  }

  lemma ListBounds(l: Links, order: seq<nat>)
    requires ListOk(l.nodes, l.head, order)
    ensures IsList(l) && |l.nodes| == CELLS && |order| <= CELLS
    ensures LowestFree(l.nodes, 0) < CELLS <==> |order| < CELLS
  {
    FullPool(l.nodes, l.head, order);
  }

  lemma StepIsAList(l: Links, order: seq<nat>, user: Blink) returns (after: seq<nat>)
    requires |l.nodes| == CELLS && (IsList(l) ==> ListOk(l.nodes, l.head, order))
    ensures var r := AddStep(l, user);
            && |r.nodes| == CELLS
            && (IsList(r) <==> IsList(l) && (user.location == 0 ==> |order| >= CELLS))
            && (IsList(r) ==>
                  && ListOk(r.nodes, r.head, after)
                  && |after| == if user.location < CELLS && |order| < CELLS then |order| + 1 else |order|)
  {
    hide ListOk;
    hide LowestFree;
    after := order;
    if IsList(l) {
      ListBounds(l, order);
    }
    if user.location < CELLS && LowestFree(l.nodes, 0) < CELLS {
      AddedIsAList(l, user);
      if IsList(l) && user.location != 0 {
        var slot := LowestFree(l.nodes, 0);
        LinkedFront(l.nodes, l.head, order, slot, Armed(user));
        after := [slot] + order;
      }
    }
  }
}
