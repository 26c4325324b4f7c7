/** The terminal driver on its buffers. */
module Terminal {
  import opened Config
  import opened Bytes
  import opened Memory
  import opened Screen
  import opened LineBuffer

  /** All characters of a keyboard write up to the one that ends it. */
  ghost function FlatKeys(f: Flat, t: nat, bytes: seq<byte>): (r: Flat)
    requires FlatOk(f) && t < TTYS
    ensures FlatOk(r)
    decreases |bytes|
  {
    if bytes == [] then f else
      var g := FlatKey(f, t, bytes[0]);
      if Plain(bytes[0]) then FlatKeys(g, t, bytes[1..]) else g
  }

  /** What a keyboard write draws: a backspace only where there is something to take back. */
  ghost function Echo(f: Flat, t: nat, bytes: seq<byte>): seq<Event>
    requires FlatOk(f) && t < TTYS
    decreases |bytes|
  {
    if bytes == [] then []
    else if bytes[0] == BKSP then (if f.tail[t] > -1 then [BackspaceEvent] else [])
    else if bytes[0] == NEWLINE then [PutEvent(NEWLINE)]
    else [PutEvent(bytes[0])] + Echo(FlatKey(f, t, bytes[0]), t, bytes[1..])
  }

  /** Result of a keyboard write: 0 when a backspace ends it, 1 when Enter does, else the whole count. */
  ghost function Returned(bytes: seq<byte>, count: nat): nat {
    if bytes == [] then count
    else if bytes[0] == BKSP then 0
    else if bytes[0] == NEWLINE then 1
    else Returned(bytes[1..], count)
  }

  class Driver {
    const buf: array<byte>
    const tail: array<int>
    var enterStatus: bool

    ghost function State(): Flat
      reads this, buf, tail
    {
      Flat(buf[..], tail[..], enterStatus)
    }

    constructor ()
      ensures fresh(buf) && fresh(tail) && FlatOk(State())
      ensures Meaning(State()) == Lines([[], [], []], false)
    {
      buf := new byte[3076](_ => NUL);
      tail := new int[3](_ => -1);
      enterStatus := false;
    }

    /** One character that is not from standard output. */
    method Key(target: nat, input: byte) returns (stop: bool, echo: seq<Event>)
      requires FlatOk(State()) && target < TTYS
      modifies this, buf, tail
      ensures FlatOk(State()) && State() == FlatKey(old(State()), target, input)
      ensures stop == !Plain(input)
      ensures input == BKSP ==> echo == if old(tail[target]) > -1 then [BackspaceEvent] else []
      ensures input != BKSP ==> echo == [PutEvent(input)]
    {
      if input == BKSP {
        if tail[target] > -1 {
          tail[target] := tail[target] - 1;
          return true, [BackspaceEvent];
        }
        return true, [];
      } else if input == NEWLINE {
        enterStatus := true;
        return true, [PutEvent(input)];
      } else {
        if tail[target] < MAX_BUFFER {
          tail[target] := tail[target] + 1;
          buf[MAX_BUFFER * target + tail[target]] := input;
        }
        return false, [PutEvent(input)];
      }
    }

    /** `terminal_write`. Standard output is drawn and never touches the buffers. */
    method Write(fd: int, target: nat, bytes: seq<byte>) returns (ret: int, echo: seq<Event>)
      requires FlatOk(State()) && target < TTYS
      modifies this, buf, tail
      ensures FlatOk(State())
      ensures fd == 1 ==> State() == old(State()) && ret == |bytes|
                          && |echo| == |bytes| && forall i :: 0 <= i < |bytes| ==> echo[i] == PutEvent(bytes[i])
      ensures fd != 1 ==> State() == FlatKeys(old(State()), target, bytes) && echo == Echo(old(State()), target, bytes)
      ensures fd != 1 ==> ret == Returned(bytes, |bytes|)
    {
      if fd == 1 {
        echo := [];
        for i := 0 to |bytes|
          invariant State() == old(State())
          invariant |echo| == i && forall k :: 0 <= k < i ==> echo[k] == PutEvent(bytes[k])
        {
          echo := echo + [PutEvent(bytes[i])];
        }
        return |bytes|, echo;
      }
      hide FlatKey;
      hide FlatOk;
      echo := [];
      var i := 0;
      while i < |bytes|
        invariant 0 <= i <= |bytes| && FlatOk(State())
        invariant FlatKeys(State(), target, bytes[i..]) == FlatKeys(old(State()), target, bytes)
        invariant Returned(bytes[i..], |bytes|) == Returned(bytes, |bytes|)
        invariant echo + Echo(State(), target, bytes[i..]) == Echo(old(State()), target, bytes)
      {
        assert bytes[i..][1..] == bytes[i + 1..];
        var stop, drawn := Key(target, bytes[i]);
        echo := echo + drawn;
        if stop {
          return if bytes[i] == BKSP then 0 else 1, echo;
        }
        i := i + 1;
      }
      return |bytes|, echo;
    }

    /**
     `terminal_read`, entered once Enter has been seen. It copies to the caller, writes a terminator
     behind the copy and moves the rest down.
     */
    method Read(target: nat, dest: array<byte>, nbytes: nat) returns (r: nat)
      requires FlatOk(State()) && target < TTYS && enterStatus
      requires dest != buf && (tail[target] == -1 || Taken(State(), target, nbytes) < dest.Length)
      modifies this, buf, tail, dest
      ensures IsFlatRead(State(), old(State()), target, nbytes)
      ensures r == Taken(old(State()), target, nbytes)
      ensures dest[..] == if old(tail[target]) == -1 then old(dest[..]) else
                PendingIn(old(State()), target)[..r] + [NUL] + old(dest[..])[r + 1..]
    {
      hide Copied;
      ghost var base, pending := MAX_BUFFER * target, PendingIn(State(), target);
      enterStatus := false;
      if tail[target] == -1 {
        NoneCopied(buf[..], base, base);
        return 0;
      }
      r := if nbytes < tail[target] + 1 then nbytes else tail[target] + 1;
      assert pending[..r] == buf[base..base + r];
      CopyOut(target, dest, r);
      ShiftDown(target, r);
      tail[target] := tail[target] - r;
    }

    method CopyOut(target: nat, dest: array<byte>, n: nat)
      requires FlatOk(State()) && target < TTYS && n <= tail[target] + 1
      requires dest != buf && n < dest.Length
      modifies dest
      ensures dest[..] == buf[MAX_BUFFER * target..MAX_BUFFER * target + n] + [NUL] + old(dest[..])[n + 1..]
    {
      for i := 0 to n
        invariant dest[..i] == buf[MAX_BUFFER * target..MAX_BUFFER * target + i]
        invariant dest[i..] == old(dest[..])[i..]
      {
        dest[i] := buf[MAX_BUFFER * target + i];
      }
      dest[n] := NUL;
    }

    method ShiftDown(target: nat, n: nat)
      requires FlatOk(State()) && target < TTYS && n <= tail[target] + 1
      modifies buf
      ensures Copied(buf[..], old(buf[..]), MAX_BUFFER * target, MAX_BUFFER * target + n, tail[target] + 1 - n)
    {
      hide Copied;
      ghost var before, base := buf[..], MAX_BUFFER * target;
      NoneCopied(before, base, base + n);
      for i := n to tail[target] + 1
        invariant Copied(buf[..], before, base, base + n, i - n)
      {
        CopyOneMore(buf[..], before, base, base + n, i - n, tail[target] + 1 - n);
        ghost var now := buf[..];
        buf[MAX_BUFFER * target + (i - n)] := buf[MAX_BUFFER * target + i];
        assert buf[..] == now[base + (i - n) := now[base + n + (i - n)]];
      }
    }
  }
}
