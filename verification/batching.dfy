/**
 * The batching loop of `process`, over any per-line conversion: each line becomes a row or
 * an error, rows are gathered into batches and every batch is inserted as one statement.
 * The first error stops the loop; the rows gathered since the last insert are then lost.
 */
module Batching {
  import opened Wrappers
  import opened Arith
  import opened Blocks

  /** What the loop leaves behind: the batches it inserted, in order, and the error that stopped it, if any. */
  datatype Outcome<R, E> = Outcome(batches: seq<seq<R>>, error: Option<E>)

  /**
   * The loop from line index `i` on: `values` holds the rows not yet inserted, `issued` the
   * batches already inserted. After appending line `i`'s row the batch is inserted when
   * `i != 0 and i % numrows == 0` (Python's `%`); a zero `numrows` makes that test fail with
   * `zeroDivision` at the first non-zero index. A failing line ends the loop with the rows in
   * `values` never inserted; at the end a non-empty `values` is inserted.
   */
  function ProcessFrom<L, R, E>(lines: seq<L>, numrows: int, row: L -> Result<R, E>, zeroDivision: E,
                                i: nat, values: seq<R>, issued: seq<seq<R>>): Outcome<R, E>
    requires i <= |lines|
    decreases |lines| - i
  {
    if i == |lines| then Outcome(if values != [] then issued + [values] else issued, None)
    else
      match row(lines[i])
      case Failure(e) => Outcome(issued, Some(e))
      case Success(r) =>
        var values' := values + [r];
        if i == 0 then ProcessFrom(lines, numrows, row, zeroDivision, i + 1, values', issued)
        else if numrows == 0 then Outcome(issued, Some(zeroDivision))
        else if PyMod(i, numrows) == 0 then ProcessFrom(lines, numrows, row, zeroDivision, i + 1, [], issued + [values'])
        else ProcessFrom(lines, numrows, row, zeroDivision, i + 1, values', issued)
  }

  function Process<L, R, E>(lines: seq<L>, numrows: int, row: L -> Result<R, E>, zeroDivision: E): Outcome<R, E> {
    ProcessFrom(lines, numrows, row, zeroDivision, 0, [], [])
  }

  /** The rows of the lines before the first failing line, and that line's error. */
  datatype Parsed<R, E> = Parsed(rows: seq<R>, error: Option<E>)

  function ParseAll<L, R, E>(lines: seq<L>, row: L -> Result<R, E>): (p: Parsed<R, E>)
    ensures |p.rows| <= |lines|
    ensures p.error.None? <==> |p.rows| == |lines|
  {
    if lines == [] then Parsed([], None)
    else
      match row(lines[0])
      case Failure(e) => Parsed([], Some(e))
      case Success(r) =>
        var rest := ParseAll(lines[1..], row);
        Parsed([r] + rest.rows, rest.error)
  }

  /** Every line before the stopping point converts to its row; the line at the stopping point fails with the reported error. */
  lemma {:induction false} ParseAllRows<L, R, E>(lines: seq<L>, row: L -> Result<R, E>)
    ensures var p := ParseAll(lines, row);
      && (p.error.Some? ==> row(lines[|p.rows|]) == Failure(p.error.value))
      && (forall j :: 0 <= j < |p.rows| ==> row(lines[j]) == Success(p.rows[j]))
  {
    if lines != [] && row(lines[0]).Success? {
      ParseAllRows(lines[1..], row);
      var p, rest := ParseAll(lines, row), ParseAll(lines[1..], row);
      assert p.rows == [row(lines[0]).value] + rest.rows;
      forall j | 1 <= j < |p.rows| ensures row(lines[j]) == Success(p.rows[j]) {
        assert lines[j] == lines[1..][j - 1];
      }
      if p.error.Some? {
        assert lines[|p.rows|] == lines[1..][|rest.rows|];
      }
    }
  }

  /** Rows of consecutive pieces of input are the concatenated rows, as long as the first piece parses throughout. */
  lemma {:induction false} ParseAllAppend<L, R, E>(a: seq<L>, b: seq<L>, row: L -> Result<R, E>)
    requires ParseAll(a, row).error.None?
    ensures ParseAll(a + b, row) == Parsed(ParseAll(a, row).rows + ParseAll(b, row).rows, ParseAll(b, row).error)
  {
    if a == [] {
      assert a + b == b;
    } else {
      var ab := a + b;
      assert ab[0] == a[0];
      assert ab[1..] == a[1..] + b;
      var r := row(a[0]);
      assert r.Success?;
      var tail := ParseAll(a[1..], row);
      assert ParseAll(a, row) == Parsed([r.value] + tail.rows, tail.error);
      ParseAllAppend(a[1..], b, row);
      assert ParseAll(ab, row) == Parsed([r.value] + ParseAll(a[1..] + b, row).rows, ParseAll(a[1..] + b, row).error);
      assert [r.value] + (tail.rows + ParseAll(b, row).rows) == ([r.value] + tail.rows) + ParseAll(b, row).rows;
    }
  }

  /** A failure in the first piece hides everything after it. */
  lemma {:induction false} ParseAllStops<L, R, E>(a: seq<L>, b: seq<L>, row: L -> Result<R, E>)
    requires ParseAll(a, row).error.Some?
    ensures ParseAll(a + b, row) == ParseAll(a, row)
  {
    var ab := a + b;
    assert ab[0] == a[0];
    if row(a[0]).Success? {
      assert ab[1..] == a[1..] + b;
      ParseAllStops(a[1..], b, row);
    }
  }

  /**
   * Reference batching of a list of rows: the batches inserted inside the loop (the first one
   * closes at index `numrows` and so holds `numrows + 1` rows, every later one `numrows` rows)
   * and the rows still pending when the loop ends.
   */
  function Flushed<R>(rows: seq<R>, numrows: nat): seq<seq<R>>
    requires numrows >= 1
  {
    if |rows| <= numrows then [] else [rows[..numrows + 1]] + Full(rows[numrows + 1..], numrows)
  }

  function Pending<R>(rows: seq<R>, numrows: nat): seq<R>
    requires numrows >= 1
  {
    if |rows| <= numrows then rows else Rest(rows[numrows + 1..], numrows)
  }

  /** All batches when every line converts: the flushed ones and a non-empty remainder. */
  function Batches<R>(rows: seq<R>, numrows: nat): seq<seq<R>>
    requires numrows >= 1
  {
    var p := Pending(rows, numrows);
    Flushed(rows, numrows) + (if p != [] then [p] else [])
  }

  /** Appending the row of index `|rows|` flushes exactly when that index is non-zero and divisible by `numrows`. */
  lemma BatchSnoc<R>(rows: seq<R>, numrows: nat, x: R)
    requires numrows >= 1
    ensures var i := |rows|;
      if i != 0 && i % numrows == 0 then
        && Flushed(rows + [x], numrows) == Flushed(rows, numrows) + [Pending(rows, numrows) + [x]]
        && Pending(rows + [x], numrows) == []
      else
        && Flushed(rows + [x], numrows) == Flushed(rows, numrows)
        && Pending(rows + [x], numrows) == Pending(rows, numrows) + [x]
  {
    var ys := rows + [x];
    if |rows| < numrows {
      if |rows| != 0 {
        DivModUnique(|rows|, numrows, 0, |rows|);
      }
    } else if |rows| == numrows {
      DivModUnique(|rows|, numrows, 1, 0);
      assert ys[..numrows + 1] == ys;
      assert ys[numrows + 1..] == [];
      var none: seq<seq<R>> := [];
      assert Full(ys[numrows + 1..], numrows) == none;
    } else {
      var xs := rows[numrows + 1..];
      assert ys[..numrows + 1] == rows[..numrows + 1];
      assert ys[numrows + 1..] == xs + [x];
      Snoc(xs, numrows, x);
      DivModShift(|xs| + 1, numrows);
      assert |rows| == |xs| + 1 + numrows;
    }
  }

  /**
   * Started at index `i` with the flushed and pending rows of `i` converted rows, the loop
   * ends with the reference batches of all converted rows (batch size `|numrows|`), or with
   * only the flushed ones when a line fails.
   */
  lemma {:induction false} ProcessFromReference<L, R, E>(lines: seq<L>, numrows: int, row: L -> Result<R, E>,
                                                         zeroDivision: E, i: nat, done: seq<R>)
    requires numrows != 0 && i <= |lines| && |done| == i
    ensures var p, g := ParseAll(lines[i..], row), Abs(numrows);
      ProcessFrom(lines, numrows, row, zeroDivision, i, Pending(done, g), Flushed(done, g))
        == if p.error.None? then Outcome(Batches(done + p.rows, g), None)
           else Outcome(Flushed(done + p.rows, g), p.error)
    decreases |lines| - i
  {
    var p, g := ParseAll(lines[i..], row), Abs(numrows);
    if i == |lines| {
      assert lines[i..] == [];
      assert done + p.rows == done;
    } else {
      assert lines[i..][0] == lines[i];
      assert lines[i..][1..] == lines[i + 1..];
      match row(lines[i])
      case Failure(e) =>
        assert p.rows == [];
        assert done + p.rows == done;
      case Success(r) =>
        BatchSnoc(done, g, r);
        PyModZero(i, numrows);
        ProcessFromReference(lines, numrows, row, zeroDivision, i + 1, done + [r]);
        var p' := ParseAll(lines[i + 1..], row);
        assert p.rows == [r] + p'.rows && p.error == p'.error;
        assert done + p.rows == (done + [r]) + p'.rows;
    }
  }

  /**
   * The loop inserts the reference batches, of `|numrows|` rows after the first, of the rows of
   * its lines; when a line fails it inserts only the batches flushed before that line and
   * reports the line's error.
   */
  lemma ProcessReference<L, R, E>(lines: seq<L>, numrows: int, row: L -> Result<R, E>, zeroDivision: E)
    requires numrows != 0
    ensures var p, g := ParseAll(lines, row), Abs(numrows);
      Process(lines, numrows, row, zeroDivision)
        == if p.error.None? then Outcome(Batches(p.rows, g), None)
           else Outcome(Flushed(p.rows, g), p.error)
  {
    var none: seq<R> := [];
    var g := Abs(numrows);
    ProcessFromReference(lines, numrows, row, zeroDivision, 0, none);
    assert lines[0..] == lines;
    assert Flushed(none, g) == [] && Pending(none, g) == [];
    assert none + ParseAll(lines, row).rows == ParseAll(lines, row).rows;
  }

  /**
   * With `numrows == 0` nothing is inserted once a second line is reached: a single line is
   * inserted alone, a first failing line reports its error, and otherwise the second line's
   * error or the division by zero stops the loop.
   */
  lemma ProcessZeroRows<L, R, E>(lines: seq<L>, row: L -> Result<R, E>, zeroDivision: E)
    ensures var p := ParseAll(lines, row);
      Process(lines, 0, row, zeroDivision)
        == if |p.rows| >= 2 then Outcome([], Some(zeroDivision))
           else if p.error.Some? then Outcome([], p.error)
           else Outcome(if p.rows == [] then [] else [p.rows], None)
  {
    var p := ParseAll(lines, row);
    if lines != [] && row(lines[0]).Success? {
      var r0 := row(lines[0]).value;
      var tail := ParseAll(lines[1..], row);
      assert p.rows == [r0] + tail.rows && p.error == tail.error;
      var none: seq<R> := [];
      assert none + [r0] == [r0];
      assert Process(lines, 0, row, zeroDivision) == ProcessFrom(lines, 0, row, zeroDivision, 1, [r0], []);
      if |lines| == 1 {
        assert lines[1..] == [];
        var noBatches: seq<seq<R>> := [];
        assert noBatches + [[r0]] == [[r0]];
        assert p.rows == [r0];
      } else {
        assert lines[1..][0] == lines[1];
        if row(lines[1]).Success? {
          assert tail.rows == [row(lines[1]).value] + ParseAll(lines[1..][1..], row).rows;
        } else {
          assert tail.rows == [];
        }
      }
    }
  }

  /**
   * The flushed batches are the rows in order up to the pending ones; the first holds
   * `numrows + 1` rows, every later one `numrows`; at most `numrows` rows are pending, and
   * fewer once something was flushed.
   */
  lemma FlushedShape<R>(rows: seq<R>, numrows: nat)
    requires numrows >= 1
    ensures Flatten(Flushed(rows, numrows)) + Pending(rows, numrows) == rows
    ensures var f := Flushed(rows, numrows);
      && (f != [] ==> |f[0]| == numrows + 1)
      && (forall j :: 0 < j < |f| ==> |f[j]| == numrows)
    ensures |Pending(rows, numrows)| <= numrows
    ensures Flushed(rows, numrows) != [] ==> |Pending(rows, numrows)| < numrows
  {
    if |rows| > numrows {
      FlushedLong(rows, numrows);
    }
  }

  lemma FlushedLong<R>(rows: seq<R>, numrows: nat)
    requires numrows >= 1 && |rows| > numrows
    ensures Flatten(Flushed(rows, numrows)) + Pending(rows, numrows) == rows
    ensures var f := Flushed(rows, numrows);
      && |f[0]| == numrows + 1
      && (forall j :: 0 < j < |f| ==> |f[j]| == numrows)
    ensures |Pending(rows, numrows)| < numrows
  {
    var head, xs := rows[..numrows + 1], rows[numrows + 1..];
    var full := Full(xs, numrows);
    var f := [head] + full;
    assert Flushed(rows, numrows) == f;
    FullRest(xs, numrows);
    FlattenAppend([head], full);
    FlattenSingle(head);
    assert rows == head + xs;
    assert Flatten(f) + Rest(xs, numrows) == head + (Flatten(full) + Rest(xs, numrows));
    forall j | 0 < j < |f| ensures |f[j]| == numrows {
      assert f[j] == full[j - 1];
    }
  }

  lemma FlattenSingle<R>(xs: seq<R>)
    ensures Flatten([xs]) == xs
  {
    assert [xs][1..] == [];
  }

  /**
   * The batches when every line converts: together they are the rows in line order; none is
   * empty; there are none for no rows; the first holds `min(n, numrows + 1)` rows, every later
   * one between 1 and `numrows`, and all but the last exactly `numrows`.
   */
  lemma BatchesShape<R>(rows: seq<R>, numrows: nat)
    requires numrows >= 1
    ensures var b := Batches(rows, numrows);
      && Flatten(b) == rows
      && (forall j :: 0 <= j < |b| ==> b[j] != [])
      && (rows == [] <==> b == [])
      && (b != [] ==> |b[0]| == if |rows| < numrows + 1 then |rows| else numrows + 1)
      && (forall j :: 0 < j < |b| ==> 1 <= |b[j]| <= numrows)
      && (forall j :: 0 < j < |b| - 1 ==> |b[j]| == numrows)
  {
    FlushedShape(rows, numrows);
    var f, p := Flushed(rows, numrows), Pending(rows, numrows);
    var b := Batches(rows, numrows);
    if p != [] {
      FlattenAppend(f, [p]);
      FlattenSingle(p);
    } else {
      assert b == f;
    }
    assert forall j :: 0 <= j < |f| ==> b[j] == f[j];
  }

  /** Five rows with `numrows = 2` give batches of three and two rows. */
  lemma FiveRowsTwoPerBatch<R>(a: R, b: R, c: R, d: R, e: R)
    ensures Batches([a, b, c, d, e], 2) == [[a, b, c], [d, e]]
  {
    var rows := [a, b, c, d, e];
    assert rows[..3] == [a, b, c] && rows[3..] == [d, e];
    var none: seq<seq<R>> := [];
    var tail := [d, e];
    assert tail[..2] == tail && tail[2..] == [];
    assert Full(tail[2..], 2) == none;
    assert Full(tail, 2) == [tail] + none;
    assert Rest([d, e], 2) == [];
  }

  /** The same loop as a method with an explicit batch buffer. */
  method ProcessLoop<L, R, E>(lines: seq<L>, numrows: int, row: L -> Result<R, E>, zeroDivision: E)
    returns (o: Outcome<R, E>)
    ensures o == Process(lines, numrows, row, zeroDivision)
  {
    var batches: seq<seq<R>> := [];
    var values: seq<R> := [];
    var i := 0;
    while i < |lines|
      invariant i <= |lines|
      invariant ProcessFrom(lines, numrows, row, zeroDivision, i, values, batches) == Process(lines, numrows, row, zeroDivision)
    {
      var r := row(lines[i]);
      if r.Failure? {
        return Outcome(batches, Some(r.error));
      }
      values := values + [r.value];
      if i != 0 {
        if numrows == 0 {
          return Outcome(batches, Some(zeroDivision));
        }
        if PyMod(i, numrows) == 0 {
          batches := batches + [values];
          values := [];
        }
      }
      i := i + 1;
    }
    if values != [] {
      batches := batches + [values];
    }
    o := Outcome(batches, None);
  }
}
