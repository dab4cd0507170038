/** Full-day occupancy of one facility on one date.

    The availability endpoint marks, in a per-minute array over the opening
    window [08:00, 22:00), every minute some returned booking covers, each
    booking clipped to the window, and reports the day as fully occupied when
    every cell is marked. `Covered` and `FullyOccupied` say what the array
    holds; the lemmas say what that means in minutes of the day. */
module Occupancy {
  import opened TimeOfDay
  import opened Schemas

  const OPEN: Clock := "08:00"
  const CLOSE: Clock := "22:00"

  function Max(a: int, b: int): int { if a < b then b else a }

  function Min(a: int, b: int): int { if a < b then a else b }

  lemma WindowBounds()
    ensures Minutes(OPEN) == 480 && Minutes(CLOSE) == 1320
  {
  }

  /** The number of cells: `minutes(close_t) - minutes(open_t)`. */
  function WindowSize(): int
  {
    Minutes(CLOSE) - Minutes(OPEN)
  }

  /** `s`: the booking's start clipped to the window, as an offset from opening. */
  function ClipStart(b: Booking): int
  {
    Max(Minutes(b.start), Minutes(OPEN)) - Minutes(OPEN)
  }

  /** `e`: the booking's end clipped to the window, as an offset from opening. */
  function ClipEnd(b: Booking): int
  {
    Min(Minutes(b.end), Minutes(CLOSE)) - Minutes(OPEN)
  }

  /** The marking loop `for i in range(max(0, s), max(0, e))` writes cell i. */
  predicate Marks(b: Booking, i: int)
  {
    Max(0, ClipStart(b)) <= i < Max(0, ClipEnd(b))
  }

  /** Cell i is marked by some row. */
  predicate Covered(rows: seq<Booking>, i: int)
  {
    exists k :: 0 <= k < |rows| && Marks(rows[k], i)
  }

  /** `covered and all(covered)`: the window is non-empty and every cell is marked. */
  predicate FullyOccupied(rows: seq<Booking>)
  {
    WindowSize() > 0 && forall i :: 0 <= i < WindowSize() ==> Covered(rows, i)
  }

  /** Minute m of the day falls inside some row's interval. */
  predicate BookedAt(rows: seq<Booking>, m: int)
  {
    exists k :: 0 <= k < |rows| && Within(rows[k].start, rows[k].end, m)
  }

  /** Every cell the loop writes lies inside the array, [0, 840). */
  lemma MarksInWindow(b: Booking, i: int)
    requires Marks(b, i)
    ensures 0 <= i < WindowSize() && WindowSize() == 840
  {
    WindowBounds();
  }

  /** A booking marks exactly the cells of the window minutes its interval covers. */
  lemma MarksIffBooked(b: Booking, i: int)
    requires 0 <= i < WindowSize()
    ensures Marks(b, i) <==> Within(b.start, b.end, Minutes(OPEN) + i)
  {
    WindowBounds();
  }

  /** The day is fully occupied exactly when every minute from 08:00 up to
      22:00 is inside some returned booking. */
  lemma FullIffEveryMinuteBooked(rows: seq<Booking>)
    ensures FullyOccupied(rows) <==> forall m :: Minutes(OPEN) <= m < Minutes(CLOSE) ==> BookedAt(rows, m)
  {
    WindowBounds();
    if FullyOccupied(rows) {
      forall m | Minutes(OPEN) <= m < Minutes(CLOSE)
        ensures BookedAt(rows, m)
      {
        var i := m - Minutes(OPEN);
        assert Covered(rows, i);
        var k :| 0 <= k < |rows| && Marks(rows[k], i);
        MarksIffBooked(rows[k], i);
      }
    } else if forall m :: Minutes(OPEN) <= m < Minutes(CLOSE) ==> BookedAt(rows, m) {
      forall i | 0 <= i < WindowSize()
        ensures Covered(rows, i)
      {
        var m := Minutes(OPEN) + i;
        assert BookedAt(rows, m);
        var k :| 0 <= k < |rows| && Within(rows[k].start, rows[k].end, m);
        MarksIffBooked(rows[k], i);
      }
    }
  }

  /** Rows that start by opening time, end at or after closing time and leave
      no gap between one row's end and the next row's start. */
  predicate Tiles(rows: seq<Booking>)
  {
    && |rows| > 0
    && Minutes(rows[0].start) <= Minutes(OPEN)
    && Minutes(rows[|rows| - 1].end) >= Minutes(CLOSE)
    && forall k :: 0 <= k < |rows| - 1 ==> Minutes(rows[k + 1].start) <= Minutes(rows[k].end)
  }

  /** In a gap-free chain, every minute from the first start up to the end of
      row j is inside one of the rows. */
  lemma {:induction false} ChainBooked(rows: seq<Booking>, j: nat, m: int)
    requires j < |rows|
    requires forall k :: 0 <= k < |rows| - 1 ==> Minutes(rows[k + 1].start) <= Minutes(rows[k].end)
    requires Minutes(rows[0].start) <= m < Minutes(rows[j].end)
    ensures BookedAt(rows, m)
  {
    if Minutes(rows[j].start) <= m {
      assert Within(rows[j].start, rows[j].end, m);
    } else {
      ChainBooked(rows, j - 1, m);
    }
  }

  /** Bookings that tile 08:00-22:00 fill the day. */
  lemma TilingIsFull(rows: seq<Booking>)
    requires Tiles(rows)
    ensures FullyOccupied(rows)
  {
    forall m | Minutes(OPEN) <= m < Minutes(CLOSE)
      ensures BookedAt(rows, m)
    {
      ChainBooked(rows, |rows| - 1, m);
    }
    FullIffEveryMinuteBooked(rows);
  }

  /** One free minute inside the window is enough for the day not to be full. */
  lemma GapIsNotFull(rows: seq<Booking>, m: int)
    requires Minutes(OPEN) <= m < Minutes(CLOSE) && !BookedAt(rows, m)
    ensures !FullyOccupied(rows)
  {
    FullIffEveryMinuteBooked(rows);
  }

  lemma CoveredSnoc(rows: seq<Booking>, k: nat, i: int)
    requires k < |rows|
    ensures Covered(rows[..k + 1], i) <==> Covered(rows[..k], i) || Marks(rows[k], i)
  {
    var p, q := rows[..k + 1], rows[..k];
    assert forall x :: 0 <= x < k ==> p[x] == q[x];
    assert p[k] == rows[k];
  }

  /** The marking loops and the `covered and all(covered)` test of the
      availability endpoint, over an 840-cell array. */
  method ScanFullyOccupied(rows: seq<Booking>) returns (full: bool)
    ensures full == FullyOccupied(rows)
  {
    var open, close := Minutes(OPEN), Minutes(CLOSE);
    var covered := new bool[close - open](_ => false);
    for k := 0 to |rows|
      invariant forall j :: 0 <= j < covered.Length ==> (covered[j] <==> Covered(rows[..k], j))
    {
      var b := rows[k];
      var s := Max(Minutes(b.start), open) - open;
      var e := Min(Minutes(b.end), close) - open;
      var i := Max(0, s);
      while i < Max(0, e)
        invariant Max(0, s) <= i <= Max(Max(0, s), Max(0, e))
        invariant forall j :: 0 <= j < covered.Length ==>
                    (covered[j] <==> Covered(rows[..k], j) || Max(0, s) <= j < i)
      {
        if 0 <= i < covered.Length {
          covered[i] := true;
        }
        i := i + 1;
      }
      forall j | 0 <= j < covered.Length
        ensures covered[j] <==> Covered(rows[..k + 1], j)
      {
        CoveredSnoc(rows, k, j);
      }
    }
    assert rows[..|rows|] == rows;
    var allMarked := true;
    for i := 0 to covered.Length
      invariant allMarked <==> forall j :: 0 <= j < i ==> covered[j]
    {
      if !covered[i] {
        allMarked := false;
      }
    }
    full := covered.Length > 0 && allMarked;
  }
}
