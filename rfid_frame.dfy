/**
 * The MainBoard's framed RFID receive buffer: the `RF` struct filled byte by byte by the
 * USART0 receive interrupt. A frame is LF, ten data bytes, CR; once a frame is complete the
 * two delimiters are replaced by NULs and the buffer is locked until the consumer releases it.
 */
module RfidFrame {
  import opened Bytes

  /** `SIZE`: the frame length, one start byte, ten data bytes and one end byte. */
  const SIZE: nat := 12
  const DATA_LEN: nat := 10

  /** A snapshot of `RF`: the `SIZE + 1` bytes of `ID`, the write position and the lock. */
  datatype Frame = Frame(id: seq<Byte>, index: nat, done: bool)

  /**
   * What holds of `RF` between interrupts: the index is a valid write position, `ID[SIZE]`
   * is never written and stays NUL, a locked buffer holds a NUL-delimited frame with the
   * index back at 0, and a partly filled buffer starts with the start byte.
   */
  predicate WellFormed(f: Frame)
  {
    |f.id| == SIZE + 1 && f.index < SIZE && f.id[SIZE] == NUL &&
    (f.done ==> f.index == 0 && f.id[0] == NUL && f.id[SIZE - 1] == NUL) &&
    (!f.done && f.index > 0 ==> f.id[0] == LF)
  }

  /** `RF` as the C runtime initialises it: all zero. */
  const Initial: Frame := Frame(seq(SIZE + 1, _ => NUL), 0, false)

  /** The effect of one byte arriving on USART0 (the `USART0_RX_vect` handler). */
  function Received(f: Frame, b: Byte): (g: Frame)
    requires WellFormed(f)
    ensures WellFormed(g)
    ensures |g.id| == |f.id| && g.id[SIZE] == f.id[SIZE]
  {
    if f.done then f
    else if (f.index == 0 && b != LF) || (f.index == SIZE - 1 && b != CR) then f.(index := 0)
    else if f.index + 1 < SIZE then f.(id := f.id[f.index := b], index := f.index + 1)
    else f.(id := f.id[f.index := b][0 := NUL][SIZE - 1 := NUL], index := 0, done := true)
  }

  /** `RFID_ready`: the consumer hands the buffer back to the interrupt handler. */
  function Released(f: Frame): (g: Frame)
    requires WellFormed(f)
    ensures WellFormed(g) && !g.done
    ensures g.id == f.id && g.index == f.index
  {
    f.(done := false)
  }

  /** The state after the bytes of `bs` arrive in order. */
  function Run(f: Frame, bs: seq<Byte>): (g: Frame)
    requires WellFormed(f)
    ensures WellFormed(g)
    decreases |bs|
  {
    if bs == [] then f else Received(Run(f, bs[..|bs| - 1]), bs[|bs| - 1])
  }

  /** While the buffer is locked, a received byte changes nothing. */
  lemma LockedIgnoresByte(f: Frame, b: Byte)
    requires WellFormed(f) && f.done
    ensures Received(f, b) == f
  {
  }

  /** ... and neither does any number of them. */
  lemma {:induction false} LockedIgnoresBytes(f: Frame, bs: seq<Byte>)
    requires WellFormed(f) && f.done
    ensures Run(f, bs) == f
    decreases |bs|
  {
    if bs != [] {
      LockedIgnoresBytes(f, bs[..|bs| - 1]);
    }
  }

  /**
   * A bad start byte at index 0, or a bad end byte at index `SIZE - 1`, restarts the frame:
   * the byte is not stored and the buffer stays unlocked.
   */
  lemma BadDelimiterRestarts(f: Frame, b: Byte)
    requires WellFormed(f) && !f.done
    requires (f.index == 0 && b != LF) || (f.index == SIZE - 1 && b != CR)
    ensures Received(f, b) == Frame(f.id, 0, false)
  {
  }

  /** The buffer locks only on an end byte at index `SIZE - 1` of a frame that began with a start byte. */
  lemma LocksOnlyOnEndByte(f: Frame, b: Byte)
    requires WellFormed(f) && !f.done && Received(f, b).done
    ensures f.index == SIZE - 1 && b == CR && f.id[0] == LF
    ensures Received(f, b).id == [NUL] + f.id[1..SIZE - 1] + [NUL, NUL]
  {
    var g := Received(f, b);
    assert g.id == f.id[f.index := b][0 := NUL][SIZE - 1 := NUL];
    assert g.id[1..SIZE - 1] == f.id[1..SIZE - 1];
  }

  /** Data bytes in the middle of a frame are stored in arrival order after those already there. */
  lemma {:induction false} DataBytesStored(f: Frame, d: seq<Byte>)
    requires WellFormed(f) && !f.done && 1 <= f.index && f.index + |d| <= SIZE - 1
    ensures Run(f, d) == Frame(f.id[..f.index] + d + f.id[f.index + |d|..], f.index + |d|, false)
    decreases |d|
  {
    if d != [] {
      var p := d[..|d| - 1];
      DataBytesStored(f, p);
      var g := Run(f, p);
      assert g.id[g.index := d[|d| - 1]] == f.id[..f.index] + d + f.id[f.index + |d|..];
    }
  }

  /** `Run` over a concatenation is `Run` of the second part from where the first part left off. */
  lemma {:induction false} RunAppend(f: Frame, xs: seq<Byte>, ys: seq<Byte>)
    requires WellFormed(f)
    ensures Run(f, xs + ys) == Run(Run(f, xs), ys)
    decreases |ys|
  {
    if ys == [] {
      assert xs + ys == xs;
    } else {
      assert (xs + ys)[..|xs + ys| - 1] == xs + ys[..|ys| - 1];
      RunAppend(f, xs, ys[..|ys| - 1]);
    }
  }

  /**
   * From an empty, unlocked buffer, a well-formed frame (LF, ten data bytes, CR) locks the
   * buffer with the ten data bytes at `ID[1..10]`, NULs at `ID[0]` and `ID[11]`, and the index at 0.
   */
  lemma FrameCompletes(f: Frame, data: seq<Byte>)
    requires WellFormed(f) && !f.done && f.index == 0 && |data| == DATA_LEN
    ensures Run(f, [LF] + data + [CR]) == Frame([NUL] + data + [NUL, NUL], 0, true)
  {
    HeaderAndDataStored(f, data);
    RunAppend(f, [LF] + data, [CR]);
    var g := Run(f, [LF] + data);
    assert Run(g, [CR]) == Received(Run(g, []), CR);
    var id := g.id[SIZE - 1 := CR][0 := NUL][SIZE - 1 := NUL];
    assert forall k :: 0 <= k < |id| ==> id[k] == ([NUL] + data + [NUL, NUL])[k];
  }

  /** LF and ten data bytes from an empty buffer leave them at `ID[0..10]` and the index at 11. */
  lemma HeaderAndDataStored(f: Frame, data: seq<Byte>)
    requires WellFormed(f) && !f.done && f.index == 0 && |data| == DATA_LEN
    ensures Run(f, [LF] + data) == Frame([LF] + data + f.id[SIZE - 1..], SIZE - 1, false)
  {
    var g := Run(f, [LF]);
    assert g == Received(Run(f, []), LF);
    RunAppend(f, [LF], data);
    DataBytesStored(g, data);
    assert g.id[..1] + data + g.id[1 + |data|..] == [LF] + data + f.id[SIZE - 1..];
  }

  /**
   * While unlocked, the first `index` bytes of `ID` are the last `index` bytes received, when
   * the buffer started empty.
   */
  lemma {:induction false} TracksLatestBytes(f: Frame, bs: seq<Byte>)
    requires WellFormed(f) && !f.done && f.index == 0
    requires !Run(f, bs).done
    ensures Run(f, bs).index <= |bs|
    ensures Run(f, bs).id[..Run(f, bs).index] == bs[|bs| - Run(f, bs).index..]
    decreases |bs|
  {
    if bs != [] {
      var p := bs[..|bs| - 1];
      var g := Run(f, p);
      if g.done {
        LockedIgnoresByte(g, bs[|bs| - 1]);
        assert false;
      }
      TracksLatestBytes(f, p);
      var h := Run(f, bs);
      if h.index > 0 {
        assert h.id[..h.index] == g.id[..g.index] + [bs[|bs| - 1]];
      }
    }
  }

  /**
   * Whenever the buffer locks, the last `SIZE` bytes received were a well-formed frame and
   * `ID` holds its ten data bytes between two NULs.
   */
  lemma LockedHoldsLastFrame(f: Frame, bs: seq<Byte>)
    requires WellFormed(f) && !f.done && f.index == 0
    requires |bs| > 0 && !Run(f, bs[..|bs| - 1]).done && Run(f, bs).done
    ensures |bs| >= SIZE && bs[|bs| - SIZE] == LF && bs[|bs| - 1] == CR
    ensures Run(f, bs).id == [NUL] + bs[|bs| - SIZE + 1..|bs| - 1] + [NUL, NUL]
  {
    var p := bs[..|bs| - 1];
    var g := Run(f, p);
    LocksOnlyOnEndByte(g, bs[|bs| - 1]);
    TracksLatestBytes(f, p);
    assert g.id[..SIZE - 1] == p[|p| - (SIZE - 1)..];
    assert g.id[1..SIZE - 1] == bs[|bs| - SIZE + 1..|bs| - 1];
  }

  /** The `RF` struct, updated in place by the interrupt handler and the consumer. */
  class RfidReceiver {
    /** `RF.ID`: `SIZE + 1` bytes. */
    const id: array<Byte>
    /** `RF.index`: where the next accepted byte goes. */
    var index: nat
    /** `RF.done`: set when a frame is complete; while set, the handler leaves the buffer alone. */
    var done: bool

    function State(): Frame
      reads this, id
    {
      Frame(id[..], index, done)
    }

    ghost predicate Valid()
      reads this, id
    {
      WellFormed(State())
    }

    constructor ()
      ensures Valid() && State() == Initial && fresh(id)
    {
      id := new Byte[SIZE + 1](_ => NUL);
      index := 0;
      done := false;
    }

    /** `ISR(USART0_RX_vect)`, less the serial echo. */
    method OnReceive(b: Byte)
      requires Valid()
      modifies this, id
      ensures Valid() && State() == Received(old(State()), b)
    {
      if done {
        return;
      }
      if (index == 0 && b != LF) || (index == SIZE - 1 && b != CR) {
        index := 0;  // reset buffer: the byte is not a valid delimiter
        return;
      }
      id[index] := b;
      index := index + 1;
      if index >= SIZE {
        index := 0;
        id[0] := NUL;
        id[SIZE - 1] := NUL;
        done := true;
      }
    }

    /** `RFID_ready`: only the lock changes. */
    method Ready()
      requires Valid()
      modifies this`done
      ensures Valid() && State() == Released(old(State()))
    {
      done := false;
    }
  }
}
