/** `add_frames` of the fish program: two text files laid over each other become blinking cells. */
module Frames {
  import opened Bytes
  import opened Blinkers
  import opened BlinkList
  import opened BlinkCode

  const SPACE: byte := 32

  // ---------------------------------------------------------------- what is meant

  /** A cell of the frame that is not blank in both files. */
  datatype Spot = Spot(row: nat, col: nat, on: byte, off: byte)

  /** The rows of a file from offset `p` on; a newline at the end of the file opens one more, empty row. */
  ghost function RowsFrom(t: seq<byte>, p: nat): (rows: seq<seq<byte>>)
    requires p <= |t|
    ensures rows != []
    decreases |t| - p
  {
    var e := FirstNewline(t, p, |t|);
    [t[p..e]] + if e < |t| then RowsFrom(t, e + 1) else []
  }

  /** Character in column `c`; blank behind the end. */
  function CharIn(s: seq<byte>, c: nat): byte {
    if c < |s| then s[c] else SPACE
  }

  /** Character of row `r` and column `c`; blank outside the text. */
  function CharAt(rows: seq<seq<byte>>, r: nat, c: nat): byte {
    if r < |rows| then CharIn(rows[r], c) else SPACE
  }

  function Tail<T>(s: seq<T>): (r: seq<T>)
    ensures |r| == if s == [] then 0 else |s| - 1
  {
    if s == [] then [] else s[1..]
  }

  function First(rows: seq<seq<byte>>): seq<byte> {
    if rows == [] then [] else rows[0]
  }

  function SpotAt(a: seq<byte>, b: seq<byte>, row: nat, col: nat): seq<Spot> {
    if CharIn(a, 0) != SPACE || CharIn(b, 0) != SPACE then [Spot(row, col, CharIn(a, 0), CharIn(b, 0))] else []
  }

  /** One row of both files from column `col` on. */
  function RowSpots(a: seq<byte>, b: seq<byte>, row: nat, col: nat): seq<Spot>
    decreases |a| + |b|
  {
    if a == [] && b == [] then [] else SpotAt(a, b, row, col) + RowSpots(Tail(a), Tail(b), row, col + 1)
  }

  /** The remaining rows of both files, the first of them being row `row` of the frame. */
  function Spots(a: seq<seq<byte>>, b: seq<seq<byte>>, row: nat): seq<Spot>
    decreases |a| + |b|
  {
    if a == [] && b == [] then [] else RowSpots(First(a), First(b), row, 0) + Spots(Tail(a), Tail(b), row + 1)
  }

  /** The spot is the one that belongs at its place, when the texts start at row `row`. */
  ghost predicate InPlace(a: seq<seq<byte>>, b: seq<seq<byte>>, row: nat, s: Spot) {
    && s.row >= row && s.on == CharAt(a, s.row - row, s.col) && s.off == CharAt(b, s.row - row, s.col)
    && (s.on != SPACE || s.off != SPACE)
  }

  /** The same for one row, with `col` as its first column. */
  ghost predicate InRow(a: seq<byte>, b: seq<byte>, row: nat, col: nat, s: Spot) {
    && s.row == row && s.col >= col && (s.on != SPACE || s.off != SPACE)
    && s.on == CharIn(a, s.col - col) && s.off == CharIn(b, s.col - col)
  }

  lemma {:induction false} RowSpotsAre(a: seq<byte>, b: seq<byte>, row: nat, col: nat, s: Spot)
    ensures s in RowSpots(a, b, row, col) <==> InRow(a, b, row, col, s)
    decreases |a| + |b|
  {
    if a != [] || b != [] {
      hide RowSpots;
      hide InRow;
      RowSpotsAre(Tail(a), Tail(b), row, col + 1, s);
      RowSpotsUnfold(a, b, row, col, s);
      InRowUnfolds(a, b, row, col, s);
    }
  }

  lemma InRowUnfolds(a: seq<byte>, b: seq<byte>, row: nat, col: nat, s: Spot)
    ensures InRow(a, b, row, col, s) <==> s in SpotAt(a, b, row, col) || InRow(Tail(a), Tail(b), row, col + 1, s)
  {
    if s.col > col {
      CharInTail(a, s.col - col);
      CharInTail(b, s.col - col);
    }
    hide CharIn;
    hide Tail;
  }

  lemma RowSpotsUnfold(a: seq<byte>, b: seq<byte>, row: nat, col: nat, s: Spot)
    requires a != [] || b != []
    ensures s in RowSpots(a, b, row, col) <==>
            s in SpotAt(a, b, row, col) || s in RowSpots(Tail(a), Tail(b), row, col + 1)
  {
  }

  lemma CharInTail(s: seq<byte>, c: nat)
    requires c > 0
    ensures CharIn(s, c) == CharIn(Tail(s), c - 1)
  {
  }

  lemma CharInFirst(rows: seq<seq<byte>>, c: nat)
    ensures CharAt(rows, 0, c) == CharIn(First(rows), c)
    ensures forall r: nat :: r > 0 ==> CharAt(rows, r, c) == CharAt(Tail(rows), r - 1, c)
  {
  }

  /** The spots are exactly the places where one of the two texts is not blank. */
  lemma {:induction false} SpotsAre(a: seq<seq<byte>>, b: seq<seq<byte>>, row: nat, s: Spot)
    ensures s in Spots(a, b, row) <==> InPlace(a, b, row, s)
    decreases |a| + |b|
  {
    hide RowSpots;
    if a == [] && b == [] {
    } else {
      RowSpotsAre(First(a), First(b), row, 0, s);
      SpotsAre(Tail(a), Tail(b), row + 1, s);
      SpotsUnfold(a, b, row, s);
      hide Spots;
      CharInFirst(a, s.col);
      CharInFirst(b, s.col);
      hide CharAt;
      hide First;
      hide Tail;
    }
  }

  lemma SpotsUnfold(a: seq<seq<byte>>, b: seq<seq<byte>>, row: nat, s: Spot)
    requires a != [] || b != []
    ensures s in Spots(a, b, row) <==>
            s in RowSpots(First(a), First(b), row, 0) || s in Spots(Tail(a), Tail(b), row + 1)
  {
  }

  /** The location is stored in 16 bits. */
  function Location(r: nat, c: nat): word { (r * 80 + c + 40) % 0x1_0000 }

  /** The cell as it is handed to the driver. */
  function BlinkOf(s: Spot): Blink {
    Blink(Location(s.row, s.col), s.on, s.off, 15, 15, 0, 0)
  }

  function Blinks(spots: seq<Spot>): (r: seq<Blink>)
    ensures |r| == |spots| && forall i :: 0 <= i < |r| ==> r[i] == BlinkOf(spots[i])
  {
    seq(|spots|, i requires 0 <= i < |spots| => BlinkOf(spots[i]))
  }

  ghost function FrameSpots(t0: seq<byte>, t1: seq<byte>): seq<Spot> {
    Spots(RowsFrom(t0, 0), RowsFrom(t1, 0), 0)
  }

  // ---------------------------------------------------------------- the code

  /** One open file: how far it is read, the last character, and whether its end was seen. */
  datatype Reader = Reader(pos: nat, c: byte, eof: bool)

  ghost predicate Within(t: seq<byte>, r: Reader) {
    r.pos <= |t| && (r.eof ==> r.c == NEWLINE)
  }

  /** What is left of the row being read. */
  ghost function Now(t: seq<byte>, r: Reader): seq<byte>
    requires r.pos <= |t|
  {
    if r.c == NEWLINE then [] else t[r.pos..FirstNewline(t, r.pos, |t|)]
  }

  /** The rows behind the one being read. */
  ghost function Later(t: seq<byte>, r: Reader): seq<seq<byte>>
    requires r.pos <= |t|
  {
    if r.c == NEWLINE then (if r.eof then [] else RowsFrom(t, r.pos)) else Tail(RowsFrom(t, r.pos))
  }

  lemma RowsUnfold(t: seq<byte>, p: nat)
    requires p <= |t|
    ensures var e := FirstNewline(t, p, |t|); Tail(RowsFrom(t, p)) == if e < |t| then RowsFrom(t, e + 1) else []
  {
    hide FirstNewline;
  }

  /** A character that is not a newline belongs to the first row. */
  lemma RowsBehind(t: seq<byte>, p: nat)
    requires p < |t|
    ensures if t[p] == NEWLINE then Tail(RowsFrom(t, p)) == RowsFrom(t, p + 1)
            else Tail(RowsFrom(t, p)) == Tail(RowsFrom(t, p + 1))
  {
    hide RowsFrom;
    hide Tail;
    RowsUnfold(t, p);
    RowsUnfold(t, p + 1);
    assert FirstNewline(t, p, |t|) == if t[p] == NEWLINE then p else FirstNewline(t, p + 1, |t|);
  }

  method NextChar(t: seq<byte>, r: Reader) returns (r': Reader)
    requires Within(t, r)
    ensures Within(t, r') && Later(t, r') == Later(t, r) && Now(t, r') == Tail(Now(t, r))
    ensures r'.c == NEWLINE <==> Now(t, r) == []
    ensures Now(t, r) != [] ==> r'.c == Now(t, r)[0]
  {
    r' := r;
    if r.c != NEWLINE {
      if r.pos == |t| {
        r' := Reader(r.pos, NEWLINE, true);
      } else {
        RowsBehind(t, r.pos);
        r' := Reader(r.pos + 1, t[r.pos], r.eof);
      }
    }
  }

  /** The state between two rows: the rows not read yet are `rows`. */
  ghost predicate AtRow(t: seq<byte>, r: Reader, rows: seq<seq<byte>>) {
    && r.pos <= |t| && (r.eof <==> rows == [])
    && if r.eof then r.c == NEWLINE else r.c != NEWLINE && rows == RowsFrom(t, r.pos)
  }

  lemma AtRowReads(t: seq<byte>, r: Reader, rows: seq<seq<byte>>)
    requires AtRow(t, r, rows)
    ensures Within(t, r) && Now(t, r) == First(rows) && Later(t, r) == Tail(rows)
  {
  }

  method EndRow(t: seq<byte>, r: Reader) returns (r': Reader)
    requires r.pos <= |t| && r.c == NEWLINE
    ensures AtRow(t, r', Later(t, r))
  {
    if r.eof {
      r' := r.(c := NEWLINE);
    } else {
      r' := r.(c := 48);
    }
  }

  /** The body of the inner loop for the characters just read, at most one of which is a newline. */
  method AddCell(pool: Pool, c0: byte, c1: byte, row: nat, col: nat, ghost l: Links, ghost done: seq<Spot>,
                 ghost a: seq<byte>, ghost b: seq<byte>)
    requires pool.nodes.Length == CELLS && pool.Chained() == AddAll(l, Blinks(done))
    requires c0 == (if a == [] then NEWLINE else a[0]) && c1 == (if b == [] then NEWLINE else b[0])
    requires (a != [] ==> a[0] != NEWLINE) && (b != [] ==> b[0] != NEWLINE)
    modifies pool, pool.nodes
    ensures pool.Chained() == AddAll(l, Blinks(done + SpotAt(a, b, row, col)))
  {
    hide AddAll;
    hide Blinks;
    hide AddStep;
    if (c0 != SPACE && c0 != NEWLINE) || (c1 != SPACE && c1 != NEWLINE) {
      var on := if c0 == NEWLINE then SPACE else c0;
      var off := if c1 == NEWLINE then SPACE else c1;
      AddOne(l, done, Spot(row, col, on, off));
      var _, _ := pool.Add(Blink((row * 80 + col + 40) % 0x1_0000, on, off, 15, 15, 0, 0));
    } else {
      assert done + [] == done;
    }
  }

  /** The inner loop: one row of both files. */
  method AddRow(pool: Pool, t0: seq<byte>, t1: seq<byte>, start0: Reader, start1: Reader, row: nat,
                ghost l: Links, ghost done: seq<Spot>)
    returns (r0: Reader, r1: Reader)
    requires pool.nodes.Length == CELLS && Within(t0, start0) && Within(t1, start1)
    requires pool.Chained() == AddAll(l, Blinks(done))
    modifies pool, pool.nodes
    ensures Within(t0, r0) && r0.c == NEWLINE && Later(t0, r0) == Later(t0, start0)
    ensures Within(t1, r1) && r1.c == NEWLINE && Later(t1, r1) == Later(t1, start1)
    ensures pool.Chained() == AddAll(l, Blinks(done + RowSpots(Now(t0, start0), Now(t1, start1), row, 0)))
  {
    hide RowsFrom;
    hide AddAll;
    hide Blinks;
    hide Later;
    hide RowSpots;
    hide SpotAt;
    r0, r1 := start0, start1;
    ghost var so := done;
    var col: nat := 0;
    while true
      invariant Within(t0, r0) && Later(t0, r0) == Later(t0, start0)
      invariant Within(t1, r1) && Later(t1, r1) == Later(t1, start1)
      invariant so + RowSpots(Now(t0, r0), Now(t1, r1), row, col) ==
                done + RowSpots(Now(t0, start0), Now(t1, start1), row, 0)
      invariant pool.Chained() == AddAll(l, Blinks(so))
      decreases |Now(t0, r0)| + |Now(t1, r1)|
    {
      ghost var a, b := Now(t0, r0), Now(t1, r1);
      RowUnfolds(a, b, row, col, so);
      r0 := NextChar(t0, r0);
      r1 := NextChar(t1, r1);
      if r0.c == NEWLINE && r1.c == NEWLINE {
        break;
      }
      AddCell(pool, r0.c, r1.c, row, col, l, so, a, b);
      so := so + SpotAt(a, b, row, col);
      col := col + 1;
    }
  }

  lemma RowUnfolds(a: seq<byte>, b: seq<byte>, row: nat, col: nat, so: seq<Spot>)
    ensures so + RowSpots(a, b, row, col) ==
            if a == [] && b == [] then so
            else (so + SpotAt(a, b, row, col)) + RowSpots(Tail(a), Tail(b), row, col + 1)
  {
    if a != [] || b != [] {
      Associative(so, SpotAt(a, b, row, col), RowSpots(Tail(a), Tail(b), row, col + 1));
    } else {
      assert so + [] == so;
    }
  }

  lemma AddOne(l: Links, done: seq<Spot>, s: Spot)
    ensures AddAll(l, Blinks(done + [s])) == AddStep(AddAll(l, Blinks(done)), BlinkOf(s))
  {
    var users := Blinks(done + [s]);
    assert users[..|users| - 1] == Blinks(done);
  }

  lemma NothingAdded(l: Links)
    ensures AddAll(l, Blinks([])) == l
  {
  }

  /** `add_frames` on the contents of two files: the driver gets one add for every spot, in reading order. */
  method AddFrames(pool: Pool, t0: seq<byte>, t1: seq<byte>)
    requires pool.nodes.Length == CELLS
    modifies pool, pool.nodes
    ensures pool.Chained() == AddAll(old(pool.Chained()), Blinks(FrameSpots(t0, t1)))
  {
    hide RowsFrom;
    hide AddAll;
    hide RowSpots;
    var r0, r1 := Reader(0, 48, false), Reader(0, 48, false);
    NothingAdded(pool.Chained());
    ghost var a, b, done := RowsFrom(t0, 0), RowsFrom(t1, 0), [];
    ghost var l := pool.Chained();
    var row: nat := 0;
    while !r0.eof || !r1.eof
      invariant AtRow(t0, r0, a) && AtRow(t1, r1, b)
      invariant done + Spots(a, b, row) == FrameSpots(t0, t1)
      invariant pool.Chained() == AddAll(l, Blinks(done))
      decreases |a| + |b|
    {
      AtRowReads(t0, r0, a);
      AtRowReads(t1, r1, b);
      r0, r1 := AddRow(pool, t0, t1, r0, r1, row, l, done);
      ghost var spots := RowSpots(First(a), First(b), row, 0);
      Associative(done, spots, Spots(Tail(a), Tail(b), row + 1));
      done := done + spots;
      a, b := Tail(a), Tail(b);
      r0 := EndRow(t0, r0);
      r1 := EndRow(t1, r1);
      row := row + 1;
    }
    assert done + [] == done;
  }

  // ---------------------------------------------------------------- when the list survives

  /** One of the two texts has something in row `r` and column `c`. */
  ghost predicate VisibleAt(t0: seq<byte>, t1: seq<byte>, r: nat, c: nat) {
    CharAt(RowsFrom(t0, 0), r, c) != SPACE || CharAt(RowsFrom(t1, 0), r, c) != SPACE
  }

  lemma SpotsAreVisible(t0: seq<byte>, t1: seq<byte>, s: Spot)
    ensures s in FrameSpots(t0, t1) ==> VisibleAt(t0, t1, s.row, s.col)
    ensures s in FrameSpots(t0, t1) <== && VisibleAt(t0, t1, s.row, s.col)
                                        && s.on == CharAt(RowsFrom(t0, 0), s.row, s.col)
                                        && s.off == CharAt(RowsFrom(t1, 0), s.row, s.col)
  {
    SpotsAre(RowsFrom(t0, 0), RowsFrom(t1, 0), 0, s);
  }

  lemma {:induction false} InRangeBound(users: seq<Blink>)
    ensures InRange(users) <= |users|
  {
    if users != [] {
      InRangeBound(users[..|users| - 1]);
    }
  }

  /**
   Two frames put into an empty pool leave a well-formed list exactly when every visible place whose
   location is 0 in 16 bits comes after 2000 places in range, which have filled the pool.
   */
  lemma FramesLeaveAList(t0: seq<byte>, t1: seq<byte>, l: Links)
    requires ListOk(l.nodes, l.head, [])
    ensures var spots := FrameSpots(t0, t1);
            IsList(AddAll(l, Blinks(spots))) <==>
            forall i :: 0 <= i < |spots| && Location(spots[i].row, spots[i].col) == 0 ==>
              InRange(Blinks(spots)[..i]) >= CELLS
  {
    hide ListOk;
    hide FrameSpots;
    hide AddAll;
    var users := Blinks(FrameSpots(t0, t1));
    var _ := AddAllIsAList(l, [], users);
    assert forall i :: 0 <= i < |users| ==>
        (Harmless(users, i, 0) <==> (users[i].location == 0 ==> InRange(users[..i]) >= CELLS));
  }

  /** With at most 2000 visible places: exactly when none of them has a location that is 0 in 16 bits. */
  lemma SmallFramesLeaveAList(t0: seq<byte>, t1: seq<byte>, l: Links)
    requires ListOk(l.nodes, l.head, []) && |FrameSpots(t0, t1)| <= CELLS
    ensures IsList(AddAll(l, Blinks(FrameSpots(t0, t1)))) <==>
            forall r: nat, c: nat :: VisibleAt(t0, t1, r, c) ==> Location(r, c) != 0
  {
    hide ListOk;
    hide FrameSpots;
    hide AddAll;
    hide CharAt;
    hide RowsFrom;
    var spots := FrameSpots(t0, t1);
    var users := Blinks(spots);
    FramesLeaveAList(t0, t1, l);
    forall i | 0 <= i < |users|
      ensures InRange(users[..i]) < CELLS && VisibleAt(t0, t1, spots[i].row, spots[i].col)
    {
      InRangeBound(users[..i]);
      SpotsAreVisible(t0, t1, spots[i]);
    }
    if r: nat, c: nat :| VisibleAt(t0, t1, r, c) && Location(r, c) == 0 {
      var s := Spot(r, c, CharAt(RowsFrom(t0, 0), r, c), CharAt(RowsFrom(t1, 0), r, c));
      SpotsAreVisible(t0, t1, s);
      var i :| 0 <= i < |spots| && spots[i] == s;
      assert Location(spots[i].row, spots[i].col) == 0;
    }
  }

  // ---------------------------------------------------------------- a frame that breaks the list

  ghost function DeepFrame(n: nat): seq<byte> {
    seq(n, _ => NEWLINE) + seq(56, _ => SPACE) + [120]
  }

  ghost function EmptyRows(n: nat): (rows: seq<seq<byte>>)
    ensures |rows| == n && forall r :: 0 <= r < n ==> rows[r] == []
  {
    if n == 0 then [] else [[]] + EmptyRows(n - 1)
  }

  lemma {:induction false} NewlinesFirst(t: seq<byte>, p: nat, n: nat)
    requires p <= n <= |t| && forall k :: p <= k < n ==> t[k] == NEWLINE
    ensures RowsFrom(t, p) == EmptyRows(n - p) + RowsFrom(t, n)
    decreases n - p
  {
    hide RowsFrom;
    if p < n {
      NewlinesFirst(t, p + 1, n);
      OneEmptyRow(t, p);
      Associative([[]], EmptyRows(n - p - 1), RowsFrom(t, n));
    }
  }

  lemma OneEmptyRow(t: seq<byte>, p: nat)
    requires p < |t| && t[p] == NEWLINE
    ensures RowsFrom(t, p) == [[]] + RowsFrom(t, p + 1)
  {
    assert t[p..p] == [];
  }

  lemma DeepFrameEnds(t: seq<byte>, n: nat)
    requires t == DeepFrame(n)
    ensures |t| == n + 57 && RowsFrom(t, n) == [seq(56, _ => SPACE) + [120]]
  {
    assert forall k :: n <= k < |t| ==> t[k] != NEWLINE;
    assert t[n..|t|] == seq(56, _ => SPACE) + [120];
  }

  lemma DeepFrameHasOnePlace(t: seq<byte>, r: nat, c: nat)
    requires t == DeepFrame(818)
    ensures CharAt(RowsFrom(t, 0), r, c) == if r == 818 && c == 56 then 120 else SPACE
    ensures CharAt(RowsFrom([], 0), r, c) == SPACE
  {
    assert RowsFrom([], 0) == [[]];
    DeepFrameEnds(t, 818);
    NewlinesFirst(t, 0, 818);
    hide RowsFrom;
    hide DeepFrame;
  }

  /** An x in row 818 and column 56 of a frame is stored at location 0 and breaks the list. */
  lemma DeepFrameBreaksTheList(l: Links)
    requires ListOk(l.nodes, l.head, [])
    ensures !IsList(AddAll(l, Blinks(FrameSpots(DeepFrame(818), []))))
  {
    hide ListOk;
    hide AddAll;
    hide FrameSpots;
    hide DeepFrame;
    hide CharAt;
    hide RowsFrom;
    var t := DeepFrame(818);
    var spots := FrameSpots(t, []);
    DeepFrameHasOnePlace(t, 818, 56);
    SpotsAreVisible(t, [], Spot(818, 56, 120, SPACE));
    DeepFrameHasOnePlace(t, spots[0].row, spots[0].col);
    SpotsAreVisible(t, [], spots[0]);
    var users := Blinks(spots);
    var _ := AddAllIsAList(l, [], users);
    assert users[0].location == 0 && !Harmless(users, 0, 0);
  }

  // ---------------------------------------------------------------- rows read back

  /** The rows with newlines between them. */
  function Joined(rows: seq<seq<byte>>): seq<byte> {
    if rows == [] then [] else if |rows| == 1 then rows[0] else rows[0] + [10] + Joined(rows[1..])
  }

  lemma RowsAre(t: seq<byte>, p: nat)
    requires p <= |t|
    ensures var e := FirstNewline(t, p, |t|);
            RowsFrom(t, p) == [t[p..e]] + if e < |t| then RowsFrom(t, e + 1) else []
  {
    hide FirstNewline;
  }

  lemma TextSplit(t: seq<byte>, p: nat, e: nat)
    requires p <= e <= |t| && (e < |t| ==> t[e] == 10) && forall k :: p <= k < e ==> t[k] != 10
    ensures 10 !in t[p..e] && t[p..] == t[p..e] + if e < |t| then [10] + t[e + 1..] else []
  {
  }

  lemma JoinedFirst(row: seq<byte>, rest: seq<seq<byte>>)
    ensures Joined([row] + rest) == row + if rest == [] then [] else [10] + Joined(rest)
  {
    assert ([row] + rest)[1..] == rest;
  }

  /** The rows of a file are its text cut at the newlines: nothing lost, nothing added. */
  lemma {:induction false} RowsJoin(t: seq<byte>, p: nat)
    requires p <= |t|
    ensures Joined(RowsFrom(t, p)) == t[p..] && forall r :: r in RowsFrom(t, p) ==> 10 !in r
    decreases |t| - p
  {
    hide FirstNewline;
    hide RowsFrom;
    hide Joined;
    var e := FirstNewline(t, p, |t|);
    RowsAre(t, p);
    TextSplit(t, p, e);
    if e < |t| {
      RowsJoin(t, e + 1);
      JoinedFirst(t[p..e], RowsFrom(t, e + 1));
    } else {
      JoinedFirst(t[p..e], []);
    }
  }

  // ---------------------------------------------------------------- where and how a spot blinks

  /** A spot of the left 40 columns is drawn in the right half of its screen row. */
  lemma LocationIsOnScreen(r: nat, c: nat)
    requires r < 25 && c < 40
    ensures Location(r, c) / 80 == r && Location(r, c) % 80 == 40 + c && Location(r, c) < CELLS
  {
    assert r * 80 + c + 40 == 80 * r + (40 + c);
  }

  /** k ticks after it was added, a spot shows the first text in ticks 0..14 of every 30 and the second in the rest. */
  lemma SpotBlinks(s: Spot, k: nat)
    ensures var b := Ticks(Armed(BlinkOf(s)), k);
            && b.location == (s.row * 80 + s.col + 40) % 65536
            && b.onChar == s.on && b.offChar == s.off && (IsOn(b) <==> k % 30 < 15)
  {
    hide Ticks;
    hide Armed;
    ArmedBlinks(BlinkOf(s), k);
  }
}
