/**
 * The RFReceiver board's receive buffer: the USART0 receive interrupt stores every byte,
 * without checking delimiters, until `SIZE` bytes have arrived, then locks the buffer; the
 * main loop shows `ID[1..10]` on the LCD and releases the buffer.
 */
module RfReceiver {
  import opened Bytes

  /** `SIZE` in this variant: bytes per frame, delimiters included. */
  const SIZE: nat := 16
  /** The displayed tag: `ID[1..10]`. */
  const TAG_FIRST: nat := 1
  const TAG_END: nat := 11

  /** A snapshot of `RF`: the `SIZE + 1` bytes of `ID`, the write position and the lock. */
  datatype Accumulator = Accumulator(id: seq<Byte>, index: nat, done: bool)

  /** The index is a valid write position, and it is back at 0 whenever the buffer is locked. */
  predicate WellFormed(a: Accumulator)
  {
    |a.id| == SIZE + 1 && a.index < SIZE && (a.done ==> a.index == 0)
  }

  /** `RF` as the C runtime initialises it: all zero. */
  const Initial: Accumulator := Accumulator(seq(SIZE + 1, _ => NUL), 0, false)

  /** The effect of one byte arriving on USART0 (the `USART0_RX_vect` handler). */
  function Received(a: Accumulator, b: Byte): (r: Accumulator)
    requires WellFormed(a)
    ensures WellFormed(r)
    ensures |r.id| == |a.id| && r.id[SIZE] == a.id[SIZE]
  {
    if a.done then a
    else if a.index + 1 == SIZE then a.(id := a.id[a.index := b], index := 0, done := true)
    else a.(id := a.id[a.index := b], index := a.index + 1)
  }

  /** `RFID_ready`: the main loop hands the buffer back. */
  function Released(a: Accumulator): (r: Accumulator)
    requires WellFormed(a)
    ensures WellFormed(r) && !r.done && r.id == a.id && r.index == a.index
  {
    a.(done := false)
  }

  /**
   * The state after the bytes of `bs` arrive in order. `Run`, `RunAppend` and
   * `LockedIgnoresBytes` follow the pattern of `RfidFrame`, over this board's accumulator: each
   * handler has its own state and step function, so each module folds its own step.
   */
  function Run(a: Accumulator, bs: seq<Byte>): (r: Accumulator)
    requires WellFormed(a)
    ensures WellFormed(r)
    decreases |bs|
  {
    if bs == [] then a else Received(Run(a, bs[..|bs| - 1]), bs[|bs| - 1])
  }

  /** The bytes the main loop shows for a locked buffer. */
  function DisplayedTag(a: Accumulator): (tag: seq<Byte>)
    requires WellFormed(a)
    ensures |tag| == TAG_END - TAG_FIRST
  {
    a.id[TAG_FIRST..TAG_END]
  }

  /** While locked, received bytes change nothing. */
  lemma {:induction false} LockedIgnoresBytes(a: Accumulator, bs: seq<Byte>)
    requires WellFormed(a) && a.done
    ensures Run(a, bs) == a
    decreases |bs|
  {
    if bs != [] {
      LockedIgnoresBytes(a, bs[..|bs| - 1]);
    }
  }

  /**
   * From a released buffer at index 0, each of the first `SIZE` bytes is stored at the next
   * index; the buffer locks exactly when the `SIZE`-th byte has been stored, and the index
   * is then back at 0. `ID[SIZE]` is never written.
   */
  lemma {:induction false} FillsInOrder(a: Accumulator, bs: seq<Byte>)
    requires WellFormed(a) && !a.done && a.index == 0 && |bs| <= SIZE
    ensures var r := Run(a, bs);
      && (r.done <==> |bs| == SIZE)
      && r.index == (if |bs| == SIZE then 0 else |bs|)
      && r.id == bs + a.id[|bs|..]
    decreases |bs|
  {
    if bs != [] {
      var p := bs[..|bs| - 1];
      FillsInOrder(a, p);
      assert Run(a, p).id[|p| := bs[|bs| - 1]] == bs + a.id[|bs|..];
    }
  }

  /** Bytes after the `SIZE`-th are ignored until the buffer is released. */
  lemma LocksAfterSize(a: Accumulator, bs: seq<Byte>)
    requires WellFormed(a) && !a.done && a.index == 0 && |bs| >= SIZE
    ensures Run(a, bs) == Run(a, bs[..SIZE])
    ensures Run(a, bs).done && Run(a, bs).id[..SIZE] == bs[..SIZE]
  {
    FillsInOrder(a, bs[..SIZE]);
    RunAppend(a, bs[..SIZE], bs[SIZE..]);
    assert bs[..SIZE] + bs[SIZE..] == bs;
    LockedIgnoresBytes(Run(a, bs[..SIZE]), bs[SIZE..]);
  }

  /**
   * There is no delimiter check: any `SIZE` bytes lock the buffer, and the displayed tag is
   * the ten bytes after the first one received.
   */
  lemma AnyBytesDisplayed(a: Accumulator, bs: seq<Byte>)
    requires WellFormed(a) && !a.done && a.index == 0 && |bs| == SIZE
    ensures Run(a, bs).done && DisplayedTag(Run(a, bs)) == bs[TAG_FIRST..TAG_END]
  {
    FillsInOrder(a, bs);
  }

  /** `Run` over a concatenation is `Run` of the second part from where the first part left off. */
  lemma {:induction false} RunAppend(a: Accumulator, xs: seq<Byte>, ys: seq<Byte>)
    requires WellFormed(a)
    ensures Run(a, xs + ys) == Run(Run(a, xs), ys)
    decreases |ys|
  {
    if ys == [] {
      assert xs + ys == xs;
    } else {
      assert (xs + ys)[..|xs + ys| - 1] == xs + ys[..|ys| - 1];
      RunAppend(a, xs, ys[..|ys| - 1]);
    }
  }

  /** The `RF` struct of this board. */
  class Receiver {
    /** `RF.ID`: `SIZE + 1` bytes, of which the last is never written. */
    const id: array<Byte>
    var index: nat
    var done: bool

    function State(): Accumulator
      reads this, id
    {
      Accumulator(id[..], index, done)
    }

    ghost predicate Valid()
      reads this, id
    {
      WellFormed(State())
    }

    constructor ()
      ensures Valid() && State() == Initial && fresh(id)
    {
      id := new Byte[SIZE + 1](_ => NUL);
      index := 0;
      done := false;
    }

    /** `ISR(USART0_RX_vect)`, less the serial echo. */
    method OnReceive(b: Byte)
      requires Valid()
      modifies this, id
      ensures Valid() && State() == Received(old(State()), b)
    {
      if !done {
        id[index] := b;
        index := index + 1;
        if index == SIZE {
          index := 0;
          done := true;
        }
      }
    }

    /** `RFID_ready`: only the lock changes. */
    method Ready()
      requires Valid()
      modifies this`done
      ensures Valid() && State() == Released(old(State()))
    {
      done := false;
    }

    /**
     * One pass of the main loop once `RFID_done` has seen the lock set: the characters sent
     * to the LCD, `ID[1]` to `ID[10]` in order, after which the buffer is released.
     */
    method ShowTag() returns (shown: seq<Byte>)
      requires Valid() && done
      modifies this`done
      ensures Valid() && State() == Released(old(State()))
      ensures shown == DisplayedTag(old(State()))
    {
      shown := [];
      for i := TAG_FIRST to TAG_END
        invariant shown == id[TAG_FIRST..i]
      {
        shown := shown + [id[i]];
      }
      Ready();
    }
  }
}
