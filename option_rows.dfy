/**
 * The option-row layout of the quiz screen: the options of the current
 * question are laid out in rows of at most two. The screen builds the rows
 * with a loop over the options that keeps a `row` accumulator, flushes it
 * into `rows` at every even index after the first, and always pushes the
 * last accumulator at the end. The elements are generic here: the screen
 * groups rendered option buttons, which this model does not represent.
 */
module OptionRows {

  /** The reference layout: consecutive rows of two, the last row holding
      what is left (possibly nothing, when there are no options at all). */
  function Chunks<T>(s: seq<T>): (rows: seq<seq<T>>)
    ensures |rows| >= 1
    decreases |s|
  {
    if |s| <= 2 then [s] else [s[..2]] + Chunks(s[2..])
  }

  /** All rows joined in order. */
  function Flatten<T>(rows: seq<seq<T>>): seq<T>
  {
    if rows == [] then [] else rows[0] + Flatten(rows[1..])
  }

  /** Joining the rows gives back the options exactly: nothing dropped,
      duplicated or reordered. */
  lemma {:induction false} FlattenChunks<T>(s: seq<T>)
    ensures Flatten(Chunks(s)) == s
    decreases |s|
  {
    if |s| > 2 {
      FlattenChunks(s[2..]);
      assert Chunks(s) == [s[..2]] + Chunks(s[2..]);
      assert Chunks(s)[1..] == Chunks(s[2..]);
      assert s == s[..2] + s[2..];
    }
  }

  /** The shape of the layout: every row but the last is a full pair; the
      last row is empty exactly when there are no options and holds one or
      two of them otherwise; there are ceil(n/2) rows for n > 0 options and
      a single empty row for none. */
  lemma {:induction false} ChunksShape<T>(s: seq<T>)
    ensures forall i :: 0 <= i < |Chunks(s)| - 1 ==> |Chunks(s)[i]| == 2
    ensures |s| == 0 ==> Chunks(s) == [[]]
    ensures |s| > 0 ==> 1 <= |Chunks(s)[|Chunks(s)| - 1]| <= 2
    ensures |s| > 0 ==> |Chunks(s)| == (|s| + 1) / 2
    decreases |s|
  {
    if |s| > 2 {
      ChunksShape(s[2..]);
      var rows := Chunks(s);
      assert rows == [s[..2]] + Chunks(s[2..]);
      forall i | 0 <= i < |rows| - 1 ensures |rows[i]| == 2 {
        if i > 0 {
          assert rows[i] == Chunks(s[2..])[i - 1];
        }
      }
    }
  }

  /** Where each option lands: option i sits in row i / 2 at column i % 2. */
  lemma {:induction false} ChunksAt<T>(s: seq<T>, i: nat)
    requires i < |s|
    ensures i / 2 < |Chunks(s)| && i % 2 < |Chunks(s)[i / 2]|
    ensures Chunks(s)[i / 2][i % 2] == s[i]
    decreases |s|
  {
    if |s| > 2 && i >= 2 {
      ChunksAt(s[2..], i - 2);
      assert (i - 2) / 2 == i / 2 - 1 && (i - 2) % 2 == i % 2;
      assert Chunks(s)[i / 2] == Chunks(s[2..])[(i - 2) / 2];
    }
  }

  /** How the layout grows by one option: after an even, non-zero number of
      options a new row is started, otherwise the option joins the last row. */
  lemma {:induction false} ChunksSnoc<T>(s: seq<T>, x: T)
    ensures |s| % 2 == 0 && |s| > 0 ==> Chunks(s + [x]) == Chunks(s) + [[x]]
    ensures |s| % 2 == 1 || |s| == 0 ==>
      Chunks(s + [x]) == Chunks(s)[..|Chunks(s)| - 1] + [Chunks(s)[|Chunks(s)| - 1] + [x]]
    decreases |s|
  {
    if |s| > 2 {
      ChunksSnoc(s[2..], x);
      assert (s + [x])[..2] == s[..2];
      assert (s + [x])[2..] == s[2..] + [x];
      assert Chunks(s) == [s[..2]] + Chunks(s[2..]);
    } else if |s| == 2 {
      assert (s + [x])[..2] == s;
      assert (s + [x])[2..] == [x];
    }
  }

  /** The screen's grouping loop (`rows`, `row`, flush at even indices after
      the first, one final push), proved to build the reference layout. */
  method GroupRows<T>(options: seq<T>) returns (rows: seq<seq<T>>)
    ensures rows == Chunks(options)
  {
    rows := [];
    var row: seq<T> := [];
    for index := 0 to |options|
      invariant rows + [row] == Chunks(options[..index])
      invariant index == 0 ==> row == []
      invariant index > 0 ==> |row| == (index - 1) % 2 + 1
    {
      ghost var done := Chunks(options[..index]);
      ChunksSnoc(options[..index], options[index]);
      assert options[..index + 1] == options[..index] + [options[index]];
      if index % 2 == 0 && index > 0 {
        assert Chunks(options[..index + 1]) == done + [[options[index]]];
        rows := rows + [row];
        row := [];
        assert row + [options[index]] == [options[index]];
      } else {
        assert done[..|done| - 1] == rows && done[|done| - 1] == row;
        assert Chunks(options[..index + 1]) == rows + [row + [options[index]]];
      }
      row := row + [options[index]];
    }
    rows := rows + [row];
    assert options[..|options|] == options;
  }
}
