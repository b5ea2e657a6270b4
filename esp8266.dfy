/**
 * The MainBoard's ESP8266 receive buffer: the USART1 receive interrupt splits the modem's
 * output into lines of a 15 x 52 character array, and the main program searches the lines
 * for expected replies ("ready", "STATUS:2", ...). The array is modelled as the flat block of
 * 15 * 52 bytes that C lays it out as, since `strcmp` on a row that has no NUL runs on into
 * the next row.
 */
module Esp8266 {
  import opened Bytes

  /** `ESP8266_ROW_SIZE` and `ESP8266_COL_SIZE`. */
  const ROWS: nat := 15
  const COLS: nat := 52
  const CELLS: nat := ROWS * COLS

  /** The flat offset of `buffer[row][col]`. */
  function At(row: nat, col: nat): nat
  {
    row * 52 + col  // COLS, written as a literal so the arithmetic stays linear
  }

  /** A snapshot of the `ESP8266` struct: the buffer, `row_index` and `col_index`. */
  datatype Lines = Lines(buf: seq<Byte>, row: nat, col: nat)

  predicate WellFormed(s: Lines)
  {
    |s.buf| == CELLS && s.row < ROWS && s.col < COLS
  }

  /** The row after `row`, wrapping from the last row to the first. */
  function NextRow(row: nat): (r: nat)
    requires row < ROWS
    ensures r < ROWS && (r == 0 <==> row == ROWS - 1)
  {
    if row == ROWS - 1 then 0 else row + 1
  }

  /**
   * The effect of one character arriving on USART1 (the `USART1_RX_vect` handler): store it;
   * on CR LF, or when the last column is reached, write NUL one column back and move to the
   * start of the next row.
   */
  function Received(s: Lines, c: Byte): (t: Lines)
    requires WellFormed(s)
    ensures WellFormed(t)
  {
    var buf := s.buf[At(s.row, s.col) := c];
    if (s.col > 0 && buf[At(s.row, s.col - 1)] == CR && c == LF) || s.col == COLS - 1 then
      Lines(buf[At(s.row, s.col - 1) := NUL], NextRow(s.row), 0)
    else
      Lines(buf, s.row, s.col + 1)
  }

  /**
   * The state after the characters of `cs` arrive in order: the USART1 handler's step folded
   * over the input, as `RfidFrame.Run` folds the USART0 handler's.
   */
  function Run(s: Lines, cs: seq<Byte>): (t: Lines)
    requires WellFormed(s)
    ensures WellFormed(t)
    decreases |cs|
  {
    if cs == [] then s else Received(Run(s, cs[..|cs| - 1]), cs[|cs| - 1])
  }

  /** `t` holds no CR immediately followed by LF. */
  predicate NoLineEnd(t: seq<Byte>)
  {
    forall k :: 0 < k < |t| ==> !(t[k - 1] == CR && t[k] == LF)
  }

  /** `buf` with the bytes of `t` written from offset `at`. */
  function Spliced(buf: seq<Byte>, at: nat, t: seq<Byte>): (r: seq<Byte>)
    requires at + |t| <= |buf|
    ensures |r| == |buf|
  {
    seq(|buf|, j requires 0 <= j < |buf| => if at <= j < at + |t| then t[j - at] else buf[j])
  }

  /**
   * Up to 51 characters without CR LF, arriving at the start of a row, are stored in that
   * row in order, and the column follows them.
   */
  lemma {:induction false} LineCharsStored(s: Lines, t: seq<Byte>)
    requires WellFormed(s) && s.col == 0 && |t| <= COLS - 1 && NoLineEnd(t)
    ensures Run(s, t) == Lines(Spliced(s.buf, At(s.row, 0), t), s.row, |t|)
    decreases |t|
  {
    if t != [] {
      var p := t[..|t| - 1];
      LineCharsStored(s, p);
      var g := Run(s, p);
      var c := t[|t| - 1];
      if |p| > 0 {
        assert g.buf[At(s.row, |p| - 1)] == t[|t| - 2];
      }
      assert g.buf[At(s.row, |p|) := c] == Spliced(s.buf, At(s.row, 0), t);
    }
  }

  /** Writing one more byte just after a spliced string extends the splice. */
  lemma SplicedExtend(buf: seq<Byte>, at: nat, t: seq<Byte>, c: Byte)
    requires at + |t| < |buf|
    ensures Spliced(buf, at, t)[at + |t| := c] == Spliced(buf, at, t + [c])
  {
    assert Spliced(buf, at, t)[at + |t| := c] == buf[..at] + (t + [c]) + buf[at + |t| + 1..];
  }

  /** A character that neither completes CR LF nor lands in the last column is stored and the column advances. */
  lemma StepStores(s: Lines, c: Byte)
    requires WellFormed(s) && s.col < COLS - 1
    requires !(s.col > 0 && s.buf[At(s.row, s.col - 1)] == CR && c == LF)
    ensures Received(s, c) == Lines(s.buf[At(s.row, s.col) := c], s.row, s.col + 1)
  {
  }

  /** LF right after CR ends the line: NUL goes over the CR and reception moves to the next row. */
  lemma StepEndsLine(s: Lines)
    requires WellFormed(s) && s.col > 0 && s.buf[At(s.row, s.col - 1)] == CR
    ensures Received(s, LF) ==
      Lines(s.buf[At(s.row, s.col) := LF][At(s.row, s.col - 1) := NUL], NextRow(s.row), 0)
  {
  }

  /** The state after a short line and its CR arrive at the start of a row. */
  lemma LineAndCrStored(s: Lines, t: seq<Byte>)
    requires WellFormed(s) && s.col == 0 && |t| <= COLS - 2 && NoLineEnd(t)
    ensures Run(s, t + [CR]) == Lines(Spliced(s.buf, At(s.row, 0), t + [CR]), s.row, |t| + 1)
  {
    LineCharsStored(s, t);
    var g := Run(s, t);
    StepStores(g, CR);
    SplicedExtend(s.buf, At(s.row, 0), t, CR);
    RunSnoc(s, t, CR);
  }

  /** The state after a short line and CR LF arrive at the start of a row. */
  lemma LineStored(s: Lines, t: seq<Byte>)
    requires WellFormed(s) && s.col == 0 && |t| <= COLS - 2 && NoLineEnd(t)
    ensures Run(s, t + [CR, LF]) == Lines(Spliced(s.buf, At(s.row, 0), t + [NUL, LF]), NextRow(s.row), 0)
  {
    var start := At(s.row, 0);
    LineAndCrStored(s, t);
    var h := Run(s, t + [CR]);
    assert h.buf[start + |t|] == (t + [CR])[|t|] == CR;
    StepEndsLine(h);
    SplicedExtend(s.buf, start, t + [CR], LF);
    SplicedSet(s.buf, start, t + [CR] + [LF], |t|, NUL);
    assert (t + [CR] + [LF])[|t| := NUL] == t + [NUL, LF];
    RunSnoc(s, t + [CR], LF);
    assert t + [CR] + [LF] == t + [CR, LF];
  }

  /** Overwriting a byte inside a spliced string is splicing the changed string. */
  lemma SplicedSet(buf: seq<Byte>, at: nat, u: seq<Byte>, k: nat, c: Byte)
    requires at + |u| <= |buf| && k < |u|
    ensures Spliced(buf, at, u)[at + k := c] == Spliced(buf, at, u[k := c])
  {
    assert Spliced(buf, at, u)[at + k := c] == buf[..at] + u[k := c] + buf[at + |u|..];
  }

  /** A string spliced in with a NUL after it reads back as that string. */
  lemma SplicedStringMatches(buf: seq<Byte>, at: nat, t: seq<Byte>, rest: seq<Byte>)
    requires at + |t| + 1 + |rest| <= |buf|
    ensures MatchesAt(Spliced(buf, at, t + [NUL] + rest), at, t)
  {
    var u := t + [NUL] + rest;
    var r := Spliced(buf, at, u);
    forall k | 0 <= k < |t| ensures r[at..at + |t|][k] == t[k] {
      assert r[at + k] == u[k];
    }
    assert r[at + |t|] == u[|t|] == NUL;
  }

  /**
   * A line of at most 50 characters followed by CR LF, arriving at the start of a row, is
   * stored there as a C string (the CR replaced by NUL), and reception moves on to the start
   * of the next row. Nothing outside the line's cells changes.
   */
  lemma LineReceived(s: Lines, t: seq<Byte>)
    requires WellFormed(s) && s.col == 0 && |t| <= COLS - 2 && NoLineEnd(t)
    ensures var r := Run(s, t + [CR, LF]);
      && r == Lines(Spliced(s.buf, At(s.row, 0), t + [NUL, LF]), NextRow(s.row), 0)
      && MatchesAt(r.buf, At(s.row, 0), t)
  {
    LineStored(s, t);
    SplicedStringMatches(s.buf, At(s.row, 0), t, [LF]);
    assert t + [NUL] + [LF] == t + [NUL, LF];
  }

  /** `Run` on a sequence with one more byte at the end is one more step. */
  lemma RunSnoc(s: Lines, cs: seq<Byte>, c: Byte)
    requires WellFormed(s)
    ensures Run(s, cs + [c]) == Received(Run(s, cs), c)
  {
    assert (cs + [c])[..|cs|] == cs;
  }

  /**
   * A line that fills the whole row without CR LF is cut when its 52nd character arrives:
   * NUL overwrites the 51st character, so the row reads back as the first 50 characters, the
   * 52nd character is left after the terminator, and reception moves to the next row.
   */
  lemma LongLineCut(s: Lines, t: seq<Byte>)
    requires WellFormed(s) && s.col == 0 && |t| == COLS && NoLineEnd(t)
    ensures var r := Run(s, t);
      && r.row == NextRow(s.row) && r.col == 0
      && r.buf == Spliced(s.buf, At(s.row, 0), t[..COLS - 2] + [NUL, t[COLS - 1]])
      && MatchesAt(r.buf, At(s.row, 0), t[..COLS - 2])
  {
    var p := t[..COLS - 1];
    assert NoLineEnd(p) by {
      forall k | 0 < k < |p| ensures !(p[k - 1] == CR && p[k] == LF) {
        assert p[k - 1] == t[k - 1] && p[k] == t[k];
      }
    }
    LineCharsStored(s, p);
    assert Run(s, t) == Received(Run(s, p), t[COLS - 1]);
    var r := Run(s, t);
    var start := At(s.row, 0);
    assert r.buf == Spliced(s.buf, start, t[..COLS - 2] + [NUL, t[COLS - 1]]);
    assert r.buf[start..start + COLS - 2] == t[..COLS - 2];
  }

  /** `Run` over a concatenation is `Run` of the second part from where the first part left off. */
  lemma {:induction false} RunAppend(s: Lines, xs: seq<Byte>, ys: seq<Byte>)
    requires WellFormed(s)
    ensures Run(s, xs + ys) == Run(Run(s, xs), ys)
    decreases |ys|
  {
    if ys == [] {
      assert xs + ys == xs;
    } else {
      assert (xs + ys)[..|xs + ys| - 1] == xs + ys[..|ys| - 1];
      RunAppend(s, xs, ys[..|ys| - 1]);
    }
  }

  /**
   * The search `ESP8266_find` and `ESP8266_search_for_str` perform: the first of rows
   * `from` to 13 whose C string equals `t` under `strcmp`, or -1. Row 14 is never a candidate.
   */
  function FirstMatchingRow(buf: seq<Byte>, t: seq<Byte>, from: nat): (r: int)
    requires |buf| == CELLS && from <= ROWS - 1
    ensures -1 <= r < ROWS - 1
    ensures r == -1 <==> forall i :: from <= i < ROWS - 1 ==> !MatchesAt(buf, At(i, 0), t)
    ensures r >= 0 ==> from <= r && MatchesAt(buf, At(r, 0), t) &&
                       forall i :: from <= i < r ==> !MatchesAt(buf, At(i, 0), t)
    decreases ROWS - 1 - from
  {
    if from == ROWS - 1 then -1
    else if MatchesAt(buf, At(from, 0), t) then from
    else FirstMatchingRow(buf, t, from + 1)
  }

  /** What a search leaves in the buffer: the first character of the found row cleared, if any. */
  function AfterSearch(buf: seq<Byte>, t: seq<Byte>): (r: seq<Byte>)
    requires |buf| == CELLS
    ensures |r| == CELLS
  {
    var i := FirstMatchingRow(buf, t, 0);
    if i < 0 then buf else buf[At(i, 0) := NUL]
  }

  /** A found line no longer matches, so each reply is consumed by one search. */
  lemma SearchConsumesReply(buf: seq<Byte>, t: seq<Byte>)
    requires |buf| == CELLS && NUL !in t && t != []
    requires FirstMatchingRow(buf, t, 0) >= 0
    ensures !MatchesAt(AfterSearch(buf, t), At(FirstMatchingRow(buf, t, 0), 0), t)
  {
    var i := FirstMatchingRow(buf, t, 0);
    assert AfterSearch(buf, t)[At(i, 0)] == NUL != t[0];
  }

  /** `strcmp` at `at` reads only the bytes up to `at + |t|`, so buffers that agree there agree on the match. */
  lemma MatchesAtReadsPrefix(buf: seq<Byte>, other: seq<Byte>, at: nat, t: seq<Byte>)
    requires |buf| == |other| && at + |t| < |buf|
    requires buf[..at + |t| + 1] == other[..at + |t| + 1]
    ensures MatchesAt(buf, at, t) <==> MatchesAt(other, at, t)
  {
    assert buf[at..at + |t|] == buf[..at + |t| + 1][at..at + |t|];
    assert other[at..at + |t|] == other[..at + |t| + 1][at..at + |t|];
  }

  /** A short line written at the start of `row` changes no earlier row's match. */
  lemma EarlierRowsUnchanged(buf: seq<Byte>, row: nat, t: seq<Byte>, u: seq<Byte>)
    requires |buf| == CELLS && row < ROWS && |t| < COLS && At(row, 0) + |u| <= CELLS
    ensures forall i :: 0 <= i < row ==>
      (MatchesAt(Spliced(buf, At(row, 0), u), At(i, 0), t) <==> MatchesAt(buf, At(i, 0), t))
  {
    var after := Spliced(buf, At(row, 0), u);
    forall i | 0 <= i < row
      ensures MatchesAt(after, At(i, 0), t) <==> MatchesAt(buf, At(i, 0), t)
    {
      assert after[..At(row, 0)] == buf[..At(row, 0)];
      MatchesAtReadsPrefix(after, buf, At(i, 0), t);
    }
  }

  /**
   * If `other` matches `t` at `row` and agrees with `buf` on every earlier row's match, the
   * first matching row of `other` is that of `buf` when it comes before `row`, and `row` otherwise.
   */
  lemma FirstMatchUpTo(buf: seq<Byte>, other: seq<Byte>, t: seq<Byte>, row: nat)
    requires |buf| == CELLS && |other| == CELLS && row < ROWS - 1
    requires MatchesAt(other, At(row, 0), t)
    requires forall i :: 0 <= i < row ==> (MatchesAt(other, At(i, 0), t) <==> MatchesAt(buf, At(i, 0), t))
    ensures var before := FirstMatchingRow(buf, t, 0);
      FirstMatchingRow(other, t, 0) == if 0 <= before < row then before else row
  {
    var before := FirstMatchingRow(buf, t, 0);
    var after := FirstMatchingRow(other, t, 0);
    if 0 <= before < row {
      assert MatchesAt(other, At(before, 0), t);
    }
  }

  /**
   * A reply line received into one of rows 0 to 13 is found by the next search for it: the
   * search answers with that row unless an earlier row already held the same reply.
   */
  lemma ReceivedLineIsFound(s: Lines, t: seq<Byte>)
    requires WellFormed(s) && s.col == 0 && s.row < ROWS - 1
    requires |t| <= COLS - 2 && NoLineEnd(t)
    ensures var before := FirstMatchingRow(s.buf, t, 0);
      FirstMatchingRow(Run(s, t + [CR, LF]).buf, t, 0) ==
        if 0 <= before < s.row then before else s.row
  {
    LineReceived(s, t);
    EarlierRowsUnchanged(s.buf, s.row, t, t + [NUL, LF]);
    FirstMatchUpTo(s.buf, Run(s, t + [CR, LF]).buf, t, s.row);
  }

  /** What `ESP8266_clear_buffer` leaves: the first character of rows 0 to 13 cleared. */
  function Cleared(buf: seq<Byte>): (r: seq<Byte>)
    requires |buf| == CELLS
    ensures |r| == CELLS
  {
    seq(CELLS, j requires 0 <= j < CELLS => if j % COLS == 0 && j < At(ROWS - 1, 0) then NUL else buf[j])
  }

  /** After clearing, a search finds no reply; only the empty string still matches, at row 0. */
  lemma ClearedFindsNothing(buf: seq<Byte>, t: seq<Byte>)
    requires |buf| == CELLS && NUL !in t
    ensures FirstMatchingRow(Cleared(buf), t, 0) == if t == [] then 0 else -1
  {
    var c := Cleared(buf);
    if t == [] {
      assert MatchesAt(c, At(0, 0), t);
    } else {
      forall i | 0 <= i < ROWS - 1 ensures !MatchesAt(c, At(i, 0), t) {
        assert At(i, 0) % COLS == 0;
        assert c[At(i, 0)] == NUL != t[0];
      }
    }
  }

  /** The `ESP8266` struct, updated in place by the interrupt handler and the searches. */
  class Esp8266Buffer {
    /** `buffer`, row after row. */
    const buffer: array<Byte>
    /** `row_index` and `col_index`: where the next character goes. */
    var row: nat
    var col: nat

    function State(): Lines
      reads this, buffer
    {
      Lines(buffer[..], row, col)
    }

    ghost predicate Valid()
      reads this, buffer
    {
      WellFormed(State())
    }

    /** The C runtime's zero initialisation. */
    constructor ()
      ensures Valid() && fresh(buffer)
      ensures State() == Lines(seq(CELLS, _ => NUL), 0, 0)
    {
      buffer := new Byte[CELLS](_ => NUL);
      row, col := 0, 0;
    }

    /** `ISR(USART1_RX_vect)`. */
    method OnReceive(c: Byte)
      requires Valid()
      modifies this, buffer
      ensures Valid() && State() == Received(old(State()), c)
    {
      var r, k := row, col;
      buffer[At(r, k)] := c;
      if (k > 0 && buffer[At(r, k - 1)] == CR && buffer[At(r, k)] == LF) || k == COLS - 1 {
        buffer[At(r, k - 1)] := NUL;  // terminate the line
        row := if r == ROWS - 1 then 0 else r + 1;
        col := 0;
        return;
      }
      col := col + 1;
    }

    /** `ESP8266_search_for_str`: the row of the first line equal to `t`, which is cleared, or -1. */
    method SearchForStr(t: seq<Byte>) returns (r: int)
      requires Valid() && NUL !in t
      modifies buffer
      ensures Valid()
      ensures r == FirstMatchingRow(old(buffer[..]), t, 0)
      ensures buffer[..] == AfterSearch(old(buffer[..]), t)
    {
      for i := 0 to ROWS - 1
        invariant forall j :: 0 <= j < i ==> !MatchesAt(buffer[..], At(j, 0), t)
        invariant buffer[..] == old(buffer[..])
      {
        if MatchesAt(buffer[..], At(i, 0), t) {
          buffer[At(i, 0)] := NUL;  // clear the string
          return i;
        }
      }
      return -1;
    }

    /** `ESP8266_find`: whether some line equals `t`; the first such line is cleared. */
    method Find(t: seq<Byte>) returns (found: bool)
      requires Valid() && NUL !in t
      modifies buffer
      ensures Valid()
      ensures found <==> FirstMatchingRow(old(buffer[..]), t, 0) >= 0
      ensures buffer[..] == AfterSearch(old(buffer[..]), t)
    {
      for i := 0 to ROWS - 1
        invariant forall j :: 0 <= j < i ==> !MatchesAt(buffer[..], At(j, 0), t)
        invariant buffer[..] == old(buffer[..])
      {
        if MatchesAt(buffer[..], At(i, 0), t) {
          buffer[At(i, 0)] := NUL;  // clear the string
          return true;
        }
      }
      return false;
    }

    /** `ESP8266_clear_buffer`: empty rows 0 to 13 and restart at the first row. */
    method ClearBuffer()
      requires Valid()
      modifies this, buffer
      ensures Valid()
      ensures State() == Lines(Cleared(old(buffer[..])), 0, 0)
    {
      for i := 0 to ROWS - 1
        invariant forall j :: 0 <= j < CELLS ==>
          buffer[j] == if j % COLS == 0 && j < At(i, 0) then NUL else old(buffer[j])
      {
        buffer[At(i, 0)] := NUL;
      }
      row := 0;
      col := 0;
      assert buffer[..] == Cleared(old(buffer[..]));
    }
  }
}
