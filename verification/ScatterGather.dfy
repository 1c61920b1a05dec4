/**
 A scatter-gather list seen as rows of equal length: how positions in the
 concatenation correspond to positions in the rows.
 */
module ScatterGather {
  import opened Wrappers

  ghost predicate Even(rows: seq<seq<Byte>>, size: nat) {
    forall i :: 0 <= i < |rows| ==> |rows[i]| == size
  }

  ghost function Flat(rows: seq<seq<Byte>>): seq<Byte> {
    if rows == [] then [] else Flat(rows[..|rows| - 1]) + rows[|rows| - 1]
  }

  lemma {:induction false} FlatLength(rows: seq<seq<Byte>>, size: nat)
    requires Even(rows, size)
    ensures |Flat(rows)| == |rows| * size
  {
    if rows != [] {
      FlatLength(rows[..|rows| - 1], size);
      assert |rows| * size == (|rows| - 1) * size + size;
    }
  }

  lemma FlatAppend(rows: seq<seq<Byte>>, row: seq<Byte>)
    ensures Flat(rows + [row]) == Flat(rows) + row
  {
    assert (rows + [row])[..|rows|] == rows;
  }

  lemma {:induction false} FlatConcat(a: seq<seq<Byte>>, b: seq<seq<Byte>>)
    ensures Flat(a + b) == Flat(a) + Flat(b)
  {
    if b == [] {
      assert a + b == a;
    } else {
      var k := |b| - 1;
      FlatConcat(a, b[..k]);
      assert a + b == (a + b[..k]) + [b[k]];
      FlatAppend(a + b[..k], b[k]);
    }
  }

  lemma FlatMiddle(a: seq<seq<Byte>>, row: seq<Byte>, b: seq<seq<Byte>>)
    ensures Flat(a + [row] + b) == Flat(a) + row + Flat(b)
  {
    hide Flat;
    FlatConcat(a + [row], b);
    FlatAppend(a, row);
  }

  /** Row `i` sits in the middle of everything. */
  lemma FlatAround(rows: seq<seq<Byte>>, i: nat)
    requires i < |rows|
    ensures Flat(rows) == Flat(rows[..i]) + rows[i] + Flat(rows[i + 1..])
  {
    hide Flat;
    FlatMiddle(rows[..i], rows[i], rows[i + 1..]);
    assert rows[..i] + [rows[i]] + rows[i + 1..] == rows;
  }

  lemma RowBounds(rows: seq<seq<Byte>>, size: nat, i: nat)
    requires Even(rows, size) && i < |rows|
    ensures |Flat(rows[..i])| == i * size
    ensures 0 <= i * size && i * size + size <= |Flat(rows)|
  {
    FlatLength(rows[..i], size);
    FlatAround(rows, i);
  }

  /** Reading inside one row is reading the concatenation at the row's offset. */
  lemma FlatSlice(rows: seq<seq<Byte>>, size: nat, i: nat, a: nat, b: nat)
    requires Even(rows, size) && i < |rows| && a <= b <= size
    ensures i * size >= 0 && i * size + b <= |Flat(rows)|
    ensures Flat(rows)[i * size + a..i * size + b] == rows[i][a..b]
  {
    RowBounds(rows, size, i);
    FlatAround(rows, i);
    var pre, post := Flat(rows[..i]), Flat(rows[i + 1..]);
    assert Flat(rows) == pre + rows[i] + post;
    assert (pre + rows[i] + post)[|pre| + a..|pre| + b] == rows[i][a..b];
  }

  ghost function Splice(s: seq<Byte>, at: nat, chunk: seq<Byte>): seq<Byte>
    requires at + |chunk| <= |s|
  {
    s[..at] + chunk + s[at + |chunk|..]
  }

  /** Writing inside one row is writing into the concatenation at the row's offset. */
  lemma FlatSplice(rows: seq<seq<Byte>>, size: nat, i: nat, off: nat, chunk: seq<Byte>)
    requires Even(rows, size) && i < |rows| && off + |chunk| <= size
    ensures i * size >= 0 && i * size + off + |chunk| <= |Flat(rows)|
    ensures Flat(rows[i := Splice(rows[i], off, chunk)]) == Splice(Flat(rows), i * size + off, chunk)
  {
    RowBounds(rows, size, i);
    var row' := Splice(rows[i], off, chunk);
    var rows' := rows[i := row'];
    FlatAround(rows, i);
    FlatAround(rows', i);
    assert rows'[..i] == rows[..i] && rows'[i + 1..] == rows[i + 1..];
    SpliceInside(Flat(rows[..i]), rows[i], Flat(rows[i + 1..]), off, chunk);
  }

  lemma SpliceInside(pre: seq<Byte>, mid: seq<Byte>, post: seq<Byte>, off: nat, chunk: seq<Byte>)
    requires off + |chunk| <= |mid|
    ensures Splice(pre + mid + post, |pre| + off, chunk) == pre + Splice(mid, off, chunk) + post
  {}

  /** A position below the capacity falls into an existing row. */
  lemma PositionInRows(n: nat, size: nat, i: nat, off: nat, w: nat)
    requires w == i * size + off && w < n * size
    ensures i < n
  {
    if i >= n {
      assert i * size >= n * size by { MulMonotone(n, i, size); }
    }
  }

  lemma MulMonotone(a: nat, b: nat, c: nat)
    requires a <= b
    ensures a * c <= b * c
  {
    assert b * c == a * c + (b - a) * c;
  }
}
