/** The blink driver: ioctl operations and the tick, on the pool and its links in place. */
module BlinkCode {
  import opened Bytes
  import opened Blinkers
  import opened BlinkList

  class Pool {
    const nodes: array<Node>
    var head: int
    /** The list, as slots from the head on. */
    ghost var order: seq<nat>

    ghost predicate Valid()
      reads this, nodes
    {
      ListOk(nodes[..], head, order) && forall i :: 0 <= i < |order| ==> order[i] < CELLS
    }

    /** The cells in list order. */
    ghost function Cells(): seq<Blink>
      requires Valid()
      reads this, nodes
    {
      Items(nodes[..], order)
    }

    constructor ()
      ensures Valid() && Cells() == [] && fresh(nodes)
    {
      nodes := new Node[2000](_ => Node(EMPTY, 0));
      head := NULL;
      order := [];
    }

    /** `mp1_malloc`: the lowest slot with location 0. */
    method Malloc() returns (i: int)
      requires nodes.Length == CELLS
      ensures i == if BlinkList.LowestFree(nodes[..], 0) < CELLS then BlinkList.LowestFree(nodes[..], 0) else NULL
    {
      i := 0;
      while i < CELLS
        invariant 0 <= i <= CELLS && BlinkList.LowestFree(nodes[..], 0) == BlinkList.LowestFree(nodes[..], i)
      {
        if nodes[i].cell.location == 0 {
          return;
        }
        i := i + 1;
      }
      i := NULL;
    }

    /** Pool and head as the code sees them. */
    ghost function Chained(): Links
      reads this, nodes
    {
      Links(nodes[..], head)
    }

    /**
     `mp1_ioctl_add`, in whatever state pool and head are: the step of `AddStep`. On a well-formed list
     it fails exactly for a location out of range or a full pool; the armed cell becomes the first one,
     and the list is well formed again exactly when the location is not 0.
     */
    method Add(user: Blink) returns (ok: bool, drawn: seq<Draw>)
      requires nodes.Length == CELLS
      modifies this, nodes
      ensures Chained() == AddStep(old(Chained()), user)
      ensures ok <==> user.location < CELLS && BlinkList.LowestFree(old(nodes[..]), 0) < CELLS
      ensures drawn == if ok then [Draw(user.location, user.onChar)] else []
      ensures old(Valid()) ==> (ok <==> user.location < CELLS && |old(order)| < CELLS)
      ensures old(Valid()) && ok ==>
                && (user.location != 0 ==> Valid() && Cells() == [Armed(user)] + old(Cells()))
                && (user.location == 0 ==> !IsList(Chained()))
      ensures old(Valid()) && !ok ==> Valid() && Cells() == old(Cells())
    {
      hide ListOk;
      hide BlinkList.LowestFree;
      hide IsList;
      ghost var before, links, was := nodes[..], order, Chained();
      if Valid() {
        FreeSlot(before, head, links);
      }
      if user.location >= CELLS {
        return false, [];
      }
      var cell := user.(status := 1, countdown := user.onLength);
      var slot := Malloc();
      if slot == NULL {
        return false, [];
      }
      if Valid() && user.location != 0 {
        LinkedFront(before, head, order, slot, cell);
        LinkedItems(before, head, order, slot, cell);
      }
      AddedIsAList(was, user);
      nodes[slot] := Node(cell, head);
      head := slot;
      order := [slot] + order;
      assert nodes[..] == before[slot := Node(cell, old(head))];
      return true, [Draw(cell.location, cell.onChar)];
    }

    /** `mp1_find_helper`: the first node at the location, or NULL. */
    method Find(location: word) returns (r: int)
      requires Valid()
      ensures r == if FirstAt(Cells(), location) < |order| then order[FirstAt(Cells(), location)] else NULL
    {
      ghost var i := 0;
      r := head;
      while r != NULL
        invariant 0 <= i <= |order| && r == (if i < |order| then order[i] else NULL)
        invariant forall j :: 0 <= j < i ==> Cells()[j].location != location
        decreases |order| - i
      {
        assert NodeOk(nodes[..], order, i);
        if nodes[r].cell.location == location {
          FirstIs(Cells(), location, i);
          return;
        }
        r := nodes[r].next;
        i := i + 1;
      }
      FirstIs(Cells(), location, i);
    }

    /** The walk of `mp1_ioctl_remove` to the link that points to `target`: NULL stands for the head. */
    method FindPrevious(target: int, ghost i: nat) returns (prev: int)
      requires Valid() && i < |order| && target == order[i]
      ensures prev == if i == 0 then NULL else order[i - 1]
    {
      ghost var k := 0;
      prev := NULL;
      var cur := head;
      while cur != target
        invariant 0 <= k <= i && cur == order[k]
        invariant prev == if k == 0 then NULL else order[k - 1]
        decreases i - k
      {
        assert NodeOk(nodes[..], order, k);
        prev := cur;
        cur := nodes[cur].next;
        k := k + 1;
      }
    }

    /** `mp1_ioctl_remove`: the first cell at the location leaves the list and its slot is free again. */
    method Remove(location: word) returns (ok: bool)
      requires Valid()
      modifies this, nodes
      ensures Valid()
      ensures ok <==> FirstAt(old(Cells()), location) < |old(Cells())|
      ensures Cells() == Removed(old(Cells()), location)
    {
      var target := Find(location);
      if target == NULL {
        return false;
      }
      ghost var i := FirstAt(Cells(), location);
      ghost var before, links := nodes[..], order;
      var prev := FindPrevious(target, i);
      UnlinkedOk(before, head, links, i);
      UnlinkedItems(before, head, links, i);
      var next := nodes[target].next;
      if prev == NULL {
        head := next;
      } else {
        nodes[prev] := nodes[prev].(next := next);
      }
      nodes[target] := Node(EMPTY, 0);
      order := Without(links, i);
      assert nodes[..] == Unlinked(before, links, i);
      return true;
    }

    /**
     `mp1_ioctl_sync`: the second cell takes over the timing of the first. The character it draws is
     always the off character: the conditional move after the test never moves.
     */
    method Sync(from: word, to: word) returns (ok: bool, drawn: seq<Draw>)
      requires Valid()
      modifies nodes
      ensures Valid()
      ensures ok <==> FirstAt(old(Cells()), from) < |old(Cells())| && FirstAt(old(Cells()), to) < |old(Cells())|
      ensures Cells() == SyncedList(old(Cells()), from, to)
      ensures drawn == if ok then [Draw(to, old(Cells())[FirstAt(old(Cells()), to)].offChar)] else []
    {
      var source := Find(from);
      if source == NULL {
        return false, [];
      }
      var target := Find(to);
      if target == NULL {
        return false, [];
      }
      ghost var j, before := FirstAt(Cells(), to), nodes[..];
      var a, b := nodes[source].cell, nodes[target].cell;
      var cell := b.(onLength := a.onLength, offLength := a.offLength, countdown := a.countdown, status := a.status);
      RetimedOk(before, head, order, target, cell);
      RetimedItems(before, head, order, j, cell);
      nodes[target] := nodes[target].(cell := cell);
      assert nodes[..] == before[target := before[target].(cell := cell)];
      return true, [Draw(cell.location, cell.offChar)];
    }

    /** The loop body of `mp1_rtc_tasklet`. */
    method TickNode(cur: nat, ghost i: nat) returns (drawn: seq<Draw>)
      requires Valid() && i < |order| && cur == order[i]
      modifies nodes
      ensures Valid() && cur < CELLS == nodes.Length && nodes[cur].next == Follower(order, i)
      ensures Cells() == old(Cells())[i := Tick(old(Cells())[i])]
      ensures drawn == RedrawnOne(old(Cells())[i])
    {
      ghost var before := nodes[..];
      assert NodeOk(before, order, i);
      assert nodes.Length == CELLS;
      hide ListOk;
      var cell := nodes[cur].cell;
      RetimedOk(before, head, order, cur, Tick(cell));
      RetimedItems(before, head, order, i, Tick(cell));
      drawn := [];
      if SignedWord(Decrement(cell.countdown)) <= 0 {
        if cell.status % 2 == 1 {
          drawn := [Draw(cell.location, cell.offChar)];
          cell := cell.(countdown := cell.offLength, status := Toggled(cell.status));
        } else {
          drawn := [Draw(cell.location, cell.onChar)];
          cell := cell.(countdown := cell.onLength, status := Toggled(cell.status));
        }
      } else {
        cell := cell.(countdown := Decrement(cell.countdown));
      }
      nodes[cur] := nodes[cur].(cell := cell);
      assert nodes[..] == before[cur := before[cur].(cell := cell)];
    }

    /** `mp1_rtc_tasklet`: every cell of the list ticks once, and those that change phase are redrawn. */
    method Tasklet() returns (drawn: seq<Draw>)
      requires Valid()
      modifies nodes
      ensures Valid()
      ensures Cells() == TickAll(old(Cells()))
      ensures drawn == Redrawn(old(Cells()))
    {
      ghost var cells, i := Cells(), 0;
      HeadIsFirst();
      TickStarts(cells);
      hide Valid;
      hide Cells;
      hide TickedSoFar;
      hide TickAll;
      hide Redrawn;
      hide At;
      drawn := [];
      var cur := head;
      while cur != NULL
        invariant Valid() && 0 <= i <= |cells| == |order| && cur == At(i)
        invariant TickedSoFar(Cells(), drawn, cells, i)
        decreases |cells| - i
      {
        cur, drawn := TickOneMore(cur, drawn, cells, i);
        i := i + 1;
      }
      AtEnd(i);
      TickEnds(Cells(), drawn, cells);
    }

    lemma HeadIsFirst()
      requires Valid()
      ensures head == At(0) && |Cells()| == |order|
    {
    }

    /** The slot at position `i` of the list, or NULL behind its end. */
    ghost function At(i: nat): int
      reads this
    {
      if i < |order| then order[i] else NULL
    }

    lemma AtEnd(i: nat)
      requires At(i) == NULL
      ensures i >= |order|
    {
    }

    /** One round of the tasklet's loop. */
    method TickOneMore(cur: int, drawn: seq<Draw>, ghost cells: seq<Blink>, ghost i: nat)
      returns (next: int, drawn': seq<Draw>)
      requires Valid() && i <= |cells| == |order| && cur == At(i) != NULL
      requires TickedSoFar(Cells(), drawn, cells, i)
      modifies nodes
      ensures Valid() && i < |cells| && next == At(i + 1)
      ensures TickedSoFar(Cells(), drawn', cells, i + 1)
    {
      hide ListOk;
      hide Items;
      hide TickedTo;
      hide Tick;
      hide Redrawn;
      hide RedrawnOne;
      TickedNext(cells, i);
      RedrawnStep(cells, i);
      var redraw := TickNode(cur, i);
      Associative(drawn, redraw, Redrawn(cells[i + 1..]));
      drawn' := drawn + redraw;
      next := nodes[cur].next;
    }

    /** `Add` on a well-formed list, away from location 0. */
    method AddCell(user: Blink) returns (drawn: seq<Draw>)
      requires Valid() && user.location != 0
      modifies this, nodes
      ensures Valid() && Cells() == ListStep(old(Cells()), AddCall(user))
      ensures drawn == DrawStep(old(Cells()), AddCall(user))
    {
      assert nodes.Length == CELLS && |Cells()| == |order|;
      hide ListOk;
      hide Items;
      hide AddStep;
      hide IsList;
      hide BlinkList.LowestFree;
      hide Armed;
      var _, shown := Add(user);
      drawn := shown;
    }

    method Perform(c: Call) returns (drawn: seq<Draw>)
      requires Valid() && Careful(c)
      modifies this, nodes
      ensures Valid() && Cells() == ListStep(old(Cells()), c) && drawn == DrawStep(old(Cells()), c)
    {
      hide ListOk;
      hide Items;
      hide TickAll;
      hide Redrawn;
      hide FirstAt;
      hide Removed;
      hide SyncedList;
      hide Takes;
      var ok := true;
      drawn := [];
      match c
      case AddCall(user) => drawn := AddCell(user);
      case RemoveCall(location) => ok := Remove(location);
      case SyncCall(from, to) => ok, drawn := Sync(from, to);
      case TickCall => drawn := Tasklet();
    }

    /** Any run of adds, removes, syncs and ticks is the run on a plain list of cells, drawings included. */
    method Play(calls: seq<Call>) returns (drawn: seq<Draw>)
      requires Valid() && forall c :: c in calls ==> Careful(c)
      modifies this, nodes
      ensures Valid() && Cells() == ListRun(old(Cells()), calls) && drawn == DrawRun(old(Cells()), calls)
    {
      hide ListStep;
      hide DrawStep;
      hide ListOk;
      hide Items;
      drawn := [];
      ghost var cells := Cells();
      assert calls[0..] == calls;
      for i := 0 to |calls|
        invariant Valid() && ListRun(Cells(), calls[i..]) == ListRun(cells, calls)
        invariant drawn + DrawRun(Cells(), calls[i..]) == DrawRun(cells, calls)
      {
        ghost var now := Cells();
        var more := Perform(calls[i]);
        assert calls[i..][1..] == calls[i + 1..];
        Associative(drawn, more, DrawRun(ListStep(now, calls[i]), calls[i + 1..]));
        drawn := drawn + more;
      }
    }
  }

  // ---------------------------------------------------------------- runs on plain lists

  datatype Call = AddCall(user: Blink) | RemoveCall(location: word) | SyncCall(from: word, to: word) | TickCall

  /** Adds at location 0 are the ones that break the list (AddedIsAList). */
  predicate Careful(c: Call) {
    c.AddCall? ==> c.user.location != 0
  }

  predicate Takes(l: seq<Blink>, user: Blink) {
    user.location < CELLS && |l| < CELLS
  }

  function ListStep(l: seq<Blink>, c: Call): seq<Blink> {
    match c
    case AddCall(user) => if Takes(l, user) then [Armed(user)] + l else l
    case RemoveCall(location) => Removed(l, location)
    case SyncCall(from, to) => SyncedList(l, from, to)
    case TickCall => TickAll(l)
  }

  function DrawStep(l: seq<Blink>, c: Call): seq<Draw> {
    match c
    case AddCall(user) => if Takes(l, user) then [Draw(user.location, user.onChar)] else []
    case RemoveCall(_) => []
    case SyncCall(from, to) =>
      if FirstAt(l, from) < |l| && FirstAt(l, to) < |l| then [Draw(to, l[FirstAt(l, to)].offChar)] else []
    case TickCall => Redrawn(l)
  }

  function ListRun(l: seq<Blink>, calls: seq<Call>): seq<Blink>
    decreases |calls|
  {
    if calls == [] then l else ListRun(ListStep(l, calls[0]), calls[1..])
  }

  function DrawRun(l: seq<Blink>, calls: seq<Call>): seq<Draw>
    decreases |calls|
  {
    if calls == [] then [] else DrawStep(l, calls[0]) + DrawRun(ListStep(l, calls[0]), calls[1..])
  }

  /** The cells with the first `i` of them ticked. */
  ghost function TickedTo(cells: seq<Blink>, i: nat): (r: seq<Blink>)
    requires i <= |cells|
    ensures |r| == |cells|
  {
    TickAll(cells[..i]) + cells[i..]
  }

  lemma TickedNext(cells: seq<Blink>, i: nat)
    requires i < |cells|
    ensures TickedTo(cells, i)[i] == cells[i] && TickedTo(cells, i)[i := Tick(cells[i])] == TickedTo(cells, i + 1)
  {
    hide Tick;
    var a, b := TickedTo(cells, i)[i := Tick(cells[i])], TickedTo(cells, i + 1);
    assert forall k :: 0 <= k < |cells| ==> a[k] == b[k];
  }

  /** The first `i` cells have ticked, and what they had to draw has been drawn. */
  ghost predicate TickedSoFar(now: seq<Blink>, drawn: seq<Draw>, cells: seq<Blink>, i: nat)
    requires i <= |cells|
  {
    now == TickedTo(cells, i) && drawn + Redrawn(cells[i..]) == Redrawn(cells)
  }

  lemma TickStarts(cells: seq<Blink>)
    ensures TickedSoFar(cells, [], cells, 0)
  {
    assert cells[0..] == cells;
  }

  lemma TickEnds(now: seq<Blink>, drawn: seq<Draw>, cells: seq<Blink>)
    requires TickedSoFar(now, drawn, cells, |cells|)
    ensures now == TickAll(cells) && drawn == Redrawn(cells)
  {
    assert cells[..|cells|] == cells && cells[|cells|..] == [];
  }

  lemma RedrawnStep(cells: seq<Blink>, i: nat)
    requires i < |cells|
    ensures Redrawn(cells[i..]) == RedrawnOne(cells[i]) + Redrawn(cells[i + 1..])
  {
    assert cells[i..][1..] == cells[i + 1..];
  }

  lemma FreeSlot(nodes: seq<Node>, head: int, order: seq<nat>)
    requires ListOk(nodes, head, order)
    ensures BlinkList.LowestFree(nodes, 0) < CELLS <==> |order| < CELLS
    ensures BlinkList.LowestFree(nodes, 0) < CELLS ==> nodes[BlinkList.LowestFree(nodes, 0)].cell.location == 0
  {
    FullPool(nodes, head, order);
  }

  lemma LinkedItems(nodes: seq<Node>, head: int, order: seq<nat>, slot: nat, cell: Blink)
    requires ListOk(nodes, head, order) && slot < CELLS && nodes[slot].cell.location == 0
    requires forall k :: 0 <= k < |order| ==> order[k] < CELLS
    ensures Items(nodes[slot := Node(cell, head)], [slot] + order) == [cell] + Items(nodes, order)
  {
    assert SlotOk(nodes, order, slot);
  }

  lemma RetimedItems(nodes: seq<Node>, head: int, order: seq<nat>, i: nat, cell: Blink)
    requires ListOk(nodes, head, order) && i < |order| && forall k :: 0 <= k < |order| ==> order[k] < CELLS
    ensures Items(nodes[order[i] := nodes[order[i]].(cell := cell)], order) == Items(nodes, order)[i := cell]
  {
  }

  lemma FirstIs(l: seq<Blink>, location: word, i: nat)
    requires i <= |l| && (i < |l| ==> l[i].location == location) && forall j :: 0 <= j < i ==> l[j].location != location
    ensures FirstAt(l, location) == i
  {
  }

  lemma UnlinkedItems(nodes: seq<Node>, head: int, order: seq<nat>, i: nat)
    requires ListOk(nodes, head, order) && i < |order| && forall k :: 0 <= k < |order| ==> order[k] < CELLS
    ensures forall k :: 0 <= k < |Without(order, i)| ==> Without(order, i)[k] < CELLS
    ensures Items(Unlinked(nodes, order, i), Without(order, i)) ==
        Items(nodes, order)[..i] + Items(nodes, order)[i + 1..]
  {
    var rest := Without(order, i);
    forall k | 0 <= k < |rest|
      ensures rest[k] < CELLS && Unlinked(nodes, order, i)[rest[k]].cell == nodes[rest[k]].cell
    {
      assert rest[k] == order[if k < i then k else k + 1];
    }
  }

  // ---------------------------------------------------------------- a cell after it was added

  /** What `add` stores is fresh, and otherwise what the caller handed over. */
  lemma ArmedIsFresh(user: Blink)
    ensures Fresh(Armed(user)) && IsOn(Armed(user))
    ensures var b := Armed(user);
            && b.location == user.location && b.onChar == user.onChar && b.offChar == user.offChar
            && b.onLength == user.onLength && b.offLength == user.offLength
  {
  }

  function Waiting(k: nat): seq<Call> {
    seq(k, _ => TickCall)
  }

  lemma {:induction false} WaitingTicks(l: seq<Blink>, k: nat, i: nat)
    requires i < |l|
    ensures |ListRun(l, Waiting(k))| == |l| && ListRun(l, Waiting(k))[i] == Ticks(l[i], k)
    decreases k
  {
    if k > 0 {
      assert Waiting(k)[0] == TickCall && Waiting(k)[1..] == Waiting(k - 1);
      WaitingTicks(TickAll(l), k - 1, i);
      TickFirst(l[i], k - 1);
    }
  }

  lemma {:induction false} TickFirst(b: Blink, k: nat)
    ensures Ticks(Tick(b), k) == Ticks(b, k + 1)
  {
    if k > 0 {
      TickFirst(b, k - 1);
    }
  }

  /** Tick `k` lies in the on part of the cell's cycle. */
  predicate InOnPart(user: Blink, k: nat) {
    k % (Lasting(user.onLength) + Lasting(user.offLength)) < Lasting(user.onLength)
  }

  /** The cell handed over, on exactly in the on part of its cycle. */
  ghost predicate BlinksAs(b: Blink, user: Blink, k: nat) {
    && b.location == user.location && b.onChar == user.onChar && b.offChar == user.offChar
    && (IsOn(b) <==> InOnPart(user, k))
  }

  lemma ArmedBlinks(user: Blink, k: nat)
    ensures BlinksAs(Ticks(Armed(user), k), user, k)
  {
    hide Ticks;
    hide Lasting;
    hide Phase;
    InPhaseAfter(Armed(user), k);
    OscillatesForever(Armed(user), k);
  }

  /** After any run and a successful add, the new cell is first and blinks from its on part on, at every tick. */
  lemma AddedCellBlinks(l: seq<Blink>, user: Blink, k: nat)
    requires user.location < CELLS && |l| < CELLS
    ensures var after := ListRun(ListStep(l, AddCall(user)), Waiting(k));
            && |after| == |l| + 1 && BlinksAs(after[0], user, k)
            && forall i :: 1 <= i < |after| ==> after[i] == Ticks(l[i - 1], k)
  {
    var l1 := ListStep(l, AddCall(user));
    assert l1 == [Armed(user)] + l;
    hide ListStep;
    hide ListRun;
    hide Ticks;
    hide Waiting;
    hide Armed;
    hide BlinksAs;
    WaitingTicks(l1, k, 0);
    ArmedBlinks(user, k);
    forall i | 1 <= i < |l1|
      ensures ListRun(l1, Waiting(k))[i] == Ticks(l[i - 1], k)
    {
      WaitingTicks(l1, k, i);
    }
  }
}
