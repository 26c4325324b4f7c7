/**
 The console code of the kernel: video memory and cursor updated in place, and one save area per
 terminal. Its view of the three terminals behaves as three consoles of module Screen.
 */
module VideoConsole {
  import opened Config
  import opened Bytes
  import opened Memory
  import opened Screen

  /** A value stored in a C `char` and read back. */
  function AsChar(v: int): int { (v + 128) % 256 - 128 }

  class Display {
    const video: array<byte>
    const screenBuf: array<byte>
    const screenLoc: array<int>
    var screenX: int
    var screenY: int
    var activeTty: nat

    ghost predicate Shaped()
    {
      video.Length == SCREEN_SIZE && screenBuf.Length == TTYS * SCREEN_SIZE && screenLoc.Length == 2 * TTYS
      && video != screenBuf
    }

    ghost function Physical(): Console
      reads this, video
    {
      Console(video[..], screenX, screenY)
    }

    ghost function SavedVideo(tty: nat): seq<byte>
      requires Shaped() && tty < TTYS
      reads screenBuf
    {
      screenBuf[SCREEN_SIZE * tty..SCREEN_SIZE * (tty + 1)]
    }

    ghost function Saved(tty: nat): Console
      requires Shaped() && tty < TTYS
      reads screenBuf, screenLoc
    {
      Console(SavedVideo(tty), screenLoc[2 * tty], screenLoc[2 * tty + 1])
    }

    /** The active terminal is on the screen, the others are in their save areas. */
    ghost function Shown(tty: nat): Console
      requires Shaped() && tty < TTYS
      reads this, video, screenBuf, screenLoc
    {
      if tty == activeTty then Physical() else Saved(tty)
    }

    ghost function View(): Ttys
      requires Shaped()
      reads this, video, screenBuf, screenLoc
    {
      Ttys(activeTty, [Shown(0), Shown(1), Shown(2)])
    }

    ghost predicate Valid()
      reads this, video, screenBuf, screenLoc
    {
      Shaped() && TtysBounded(View())
    }

    /** After boot: zeroed save areas, and a cleared screen. */
    constructor ()
      ensures Valid() && fresh(video) && fresh(screenBuf) && fresh(screenLoc)
      ensures View() == Ttys(0, [Cleared(), Console(seq(SCREEN_SIZE, _ => NUL), 0, 0), Console(seq(SCREEN_SIZE,
          _ => NUL), 0, 0)])
    {
      video := new byte[4000](_ => NUL);
      screenBuf := new byte[12000](_ => NUL);
      screenLoc := new int[6](_ => 0);
      screenX, screenY, activeTty := 0, 0, 0;
      new;
      ClearScreen();
      assert screenBuf[4000..8000] == seq(SCREEN_SIZE, _ => NUL) &&
          screenBuf[8000..12000] == seq(SCREEN_SIZE, _ => NUL);
    }

    method ClearScreen()
      requires Shaped()
      modifies this`screenX, this`screenY, video
      ensures Physical() == Cleared()
    {
      for i := 0 to ROWS * COLS
        invariant forall k :: 0 <= k < 2 * i ==> video[k] == BlankByte(k)
      {
        video[2 * i] := BLANK;
        video[2 * i + 1] := ATTRIB;
      }
      screenX, screenY := 0, 0;
    }

    method ScrollUp()
      requires Shaped()
      modifies video
      ensures video[..] == Scrolled(old(video[..]))
    {
      ghost var before := video[..];
      for i := 0 to (ROWS - 1) * COLS
        invariant forall k :: 0 <= k < SCREEN_SIZE ==>
                    video[k] == if k < 2 * i then ScrolledByte(before, k) else before[k]
      {
        var j := i + COLS;
        video[2 * i] := video[2 * j];
        video[2 * i + 1] := video[2 * j + 1];
      }
      for i := (ROWS - 1) * COLS to ROWS * COLS
        invariant forall k :: 0 <= k < 2 * i ==> video[k] == ScrolledByte(before, k)
      {
        video[2 * i] := BLANK;
        video[2 * i + 1] := ATTRIB;
      }
    }

    method WriteCell(c: byte)
      requires Shaped() && 0 <= screenX < COLS && 0 <= screenY < ROWS
      modifies video
      ensures video[..] == Written(old(video[..]), screenX, screenY, c)
    {
      video[2 * (COLS * screenY + screenX)] := c;
      video[2 * (COLS * screenY + screenX) + 1] := ATTRIB;
    }

    /** `putc` on the physical screen. */
    method PutPhysical(c: byte)
      requires Shaped() && Bounded(Physical())
      modifies this`screenX, this`screenY, video
      ensures Physical() == Put(old(Physical()), c)
    {
      if c == NUL {
        return;
      }
      if c == NEWLINE || c == CARRIAGE_RETURN {
        screenY := screenY + 1;
        screenX := 0;
      }
      if c == TAB {
        screenX := screenX + 4;
      }
      if screenX >= COLS {
        screenY := screenY + 1;
        screenX := 0;
      }
      if screenY >= ROWS {
        ScrollUp();
        screenY := screenY - 1;
        screenX := 0;
      }
      assert Physical() == Settled(old(Physical()), c);
      if !(c == NEWLINE || c == CARRIAGE_RETURN || c == TAB) {
        WriteCell(c);
        screenX := screenX + 1;
        if screenX == COLS {
          screenY := screenY + 1;
          screenX := 0;
        }
      }
    }

    /** `bksp` on the physical screen. */
    method BackspacePhysical()
      requires Shaped() && Bounded(Physical())
      modifies this`screenX, this`screenY, video
      ensures Physical() == Backspaced(old(Physical()))
    {
      screenX := screenX - 1;
      if screenX < 0 {
        screenY := screenY - 1;
        screenX := COLS - 1;
        if screenY < 0 {
          screenY := 0;
          screenX := 0;
        } else {
          while screenX > 1 && video[2 * (COLS * screenY + (screenX - 1))] == BLANK
            invariant 1 <= screenX < COLS && screenY == old(screenY) - 1 && video[..] == old(video[..])
            invariant LastColumn(video[..], screenX, screenY) == LastColumn(video[..], COLS - 1, screenY)
            decreases screenX
          {
            screenX := screenX - 1;
          }
        }
      }
      WriteCell(BLANK);
    }

    // -------------------------------------------------------------- what the rest of the kernel calls

    /** `putc` */
    method Putc(c: byte)
      requires Valid()
      modifies this`screenX, this`screenY, video
      ensures Valid() && View() == TtyStep(old(View()), PutEvent(c))
    {
      assert Bounded(View().consoles[activeTty]);
      PutPhysical(c);
      assert Physical() == Apply(old(Physical()), PutEvent(c));
      OutputStays(old(View()), View(), PutEvent(c));
    }

    /** `bksp` */
    method Bksp()
      requires Valid()
      modifies this`screenX, this`screenY, video
      ensures Valid() && View() == TtyStep(old(View()), BackspaceEvent)
    {
      assert Bounded(View().consoles[activeTty]);
      BackspacePhysical();
      assert Physical() == Apply(old(Physical()), BackspaceEvent);
      OutputStays(old(View()), View(), BackspaceEvent);
    }

    /** `clear` */
    method Clear()
      requires Valid()
      modifies this`screenX, this`screenY, video
      ensures Valid() && View() == TtyStep(old(View()), ClearEvent)
    {
      assert Bounded(View().consoles[activeTty]);
      ClearScreen();
      assert Physical() == Apply(old(Physical()), ClearEvent);
      OutputStays(old(View()), View(), ClearEvent);
    }

    /** The first half of `switch_screen`: the screen and the cursor go into the save area. */
    method SaveScreen()
      requires Valid()
      modifies screenBuf, screenLoc
      ensures Saved(activeTty) == Physical()
      ensures forall t :: 0 <= t < TTYS && t != activeTty ==> Saved(t) == old(Saved(t))
    {
      assert Bounded(View().consoles[activeTty]);
      hide TtysBounded;
      hide Bounded;
      SaveVideoOf(activeTty);
      screenLoc[2 * activeTty] := AsChar(screenX);
      screenLoc[2 * activeTty + 1] := AsChar(screenY);
    }

    method SaveVideoOf(tty: nat)
      requires Shaped() && tty < TTYS
      modifies screenBuf
      ensures SavedVideo(tty) == video[..]
      ensures forall t :: 0 <= t < TTYS && t != tty ==> SavedVideo(t) == old(SavedVideo(t))
    {
      hide Stored;
      ghost var before, base := screenBuf[..], SCREEN_SIZE * tty;
      SaveVideo(SCREEN_SIZE * tty);
      forall t | 0 <= t < TTYS
        ensures SavedVideo(t) == if t == tty then video[..] else old(SavedVideo(t))
      {
        StoredPart(before, base, video[..], SCREEN_SIZE * t, SCREEN_SIZE * (t + 1));
        assert SavedVideo(t) == screenBuf[..][SCREEN_SIZE * t..SCREEN_SIZE * (t + 1)];
      }
    }

    method SaveVideo(base: nat)
      requires Shaped() && base + SCREEN_SIZE <= screenBuf.Length
      modifies screenBuf
      ensures screenBuf[..] == Stored(old(screenBuf[..]), base, video[..])
    {
      hide Stored;
      ghost var before, shown := screenBuf[..], video[..];
      StoreEnds(before, base, shown);
      for i := 0 to SCREEN_SIZE
        invariant screenBuf[..] == Stored(before, base, shown[..i])
      {
        StoreOneMore(before, base, shown, i);
        StoreByte(screenBuf, base + i, video[i]);
      }
    }

    /** The second half: the screen and the cursor come back from the save area. */
    method RestoreScreen(tty: nat)
      requires Shaped() && tty < TTYS
      modifies this`screenX, this`screenY, video
      ensures Physical() == Saved(tty)
    {
      var base := SCREEN_SIZE * tty;
      for i := 0 to SCREEN_SIZE
        invariant forall k :: 0 <= k < i ==> video[k] == screenBuf[base + k]
      {
        video[i] := screenBuf[base + i];
      }
      screenX := screenLoc[2 * tty];
      screenY := screenLoc[2 * tty + 1];
    }

    /** `switch_screen` and the assignment of `active_tty` that follows it in `switch_to_tty`. */
    method SwitchTo(tty: nat)
      requires Valid() && tty < TTYS
      modifies this`screenX, this`screenY, this`activeTty, video, screenBuf, screenLoc
      ensures Valid() && View() == TtyStep(old(View()), SwitchEvent(tty))
    {
      hide TtysBounded;
      hide Bounded;
      hide SavedVideo;
      hide Cleared;
      ghost var before := View();
      SaveScreen();
      assert forall t :: 0 <= t < TTYS ==> Saved(t) == before.consoles[t];
      ClearScreen();
      RestoreScreen(tty);
      activeTty := tty;
      assert forall t :: 0 <= t < TTYS ==> Shown(t) == before.consoles[t];
      assert View().consoles == before.consoles;
      assert View() == TtyStep(before, SwitchEvent(tty));
    }

    method Perform(e: Event)
      requires Valid() && Legal(e)
      modifies this`screenX, this`screenY, this`activeTty, video, screenBuf, screenLoc
      ensures Valid() && View() == TtyStep(old(View()), e)
    {
      match e
      case PutEvent(c) => Putc(c);
      case BackspaceEvent => Bksp();
      case ClearEvent => Clear();
      case SwitchEvent(tty) => SwitchTo(tty);
    }

    /**
     Any run of these calls: what is on the screen at the end, and what is in each save area, is what
     the terminal's own console shows after the events issued while the terminal was active.
     */
    method Play(es: seq<Event>)
      requires Valid() && forall e :: e in es ==> Legal(e)
      modifies this`screenX, this`screenY, this`activeTty, video, screenBuf, screenLoc
      ensures Valid() && View() == TtyRun(old(View()), es)
      ensures forall t :: 0 <= t < TTYS ==>
                View().consoles[t] == ConsoleRun(old(View()).consoles[t], IssuedOn(t, old(activeTty), es))
      ensures Physical() == ConsoleRun(old(View()).consoles[activeTty], IssuedOn(activeTty, old(activeTty), es))
      ensures forall t :: 0 <= t < TTYS && t != activeTty ==>
                Saved(t) == ConsoleRun(old(View()).consoles[t], IssuedOn(t, old(activeTty), es))
    {
      hide TtyStep;
      hide ConsoleRun;
      hide IssuedOn;
      hide TtysBounded;
      ghost var before := View();
      for i := 0 to |es|
        invariant Valid() && TtyRun(View(), es[i..]) == TtyRun(before, es)
      {
        assert es[i..][1..] == es[i + 1..];
        Perform(es[i]);
      }
      ViewAfter(before, es);
      assert forall t :: 0 <= t < TTYS ==> View().consoles[t] == Shown(t);
    }
  }

  lemma ViewAfter(before: Ttys, es: seq<Event>)
    requires TtysBounded(before) && forall e :: e in es ==> Legal(e)
    ensures var now := TtyRun(before, es);
            && now.active < TTYS && |now.consoles| == |before.consoles| == TTYS
            && forall t :: 0 <= t < TTYS ==>
                 Bounded(before.consoles[t]) &&
                 now.consoles[t] == ConsoleRun(before.consoles[t], IssuedOn(t, before.active, es))
  {
    forall t | 0 <= t < TTYS
      ensures TtyRun(before, es).consoles[t] == ConsoleRun(before.consoles[t], IssuedOn(t, before.active, es))
    {
      ConsolesAreIndependent(before, es, t);
    }
  }

  /** Drawing on the screen is the step of the active console. */
  lemma OutputStays(before: Ttys, after: Ttys, e: Event)
    requires TtysBounded(before) && Legal(e) && !e.SwitchEvent?
    requires after.active == before.active && |after.consoles| == TTYS
    requires after.consoles[after.active] == Apply(before.consoles[before.active], e)
    requires forall t :: 0 <= t < TTYS && t != before.active ==> after.consoles[t] == before.consoles[t]
    ensures after == TtyStep(before, e)
  {
    assert after.consoles == before.consoles[before.active := Apply(before.consoles[before.active], e)];
  }
}
