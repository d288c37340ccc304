/** Shared vocabulary: optional values and grid coordinates. */
module Common {

  /** A value that may be absent; Python's `None` or a raised exception. */
  datatype Option<T> = None | Some(value: T)

  /** A grid coordinate (x, y): x is the column offset, y the row offset. */
  type Cell = (int, int)

  /** Number of occurrences of `c` in `s` (Python's `str.count` for one character). */
  function CountChar(s: string, c: char): nat
  {
    if s == [] then 0 else (if s[0] == c then 1 else 0) + CountChar(s[1..], c)
  }

  lemma {:induction false} CountCharZero(s: string, c: char)
    ensures CountChar(s, c) == 0 <==> c !in s
  {
    if s != [] {
      CountCharZero(s[1..], c);
      assert s == [s[0]] + s[1..];
    }
  }

  /** `a` comes strictly before `b` in row-major order (by row, then by column). */
  predicate RowMajorBefore(a: Cell, b: Cell)
  {
    a.1 < b.1 || (a.1 == b.1 && a.0 < b.0)
  }

  /** Python's `max` of a non-empty list of integers. */
  function Max(xs: seq<int>): (m: int)
    requires |xs| > 0
    ensures m in xs && forall k :: 0 <= k < |xs| ==> xs[k] <= m
  {
    if |xs| == 1 then xs[0]
    else var m := Max(xs[1..]); if xs[0] >= m then xs[0] else m
  }

  /** Python's `min` of a non-empty list of integers. */
  function Min(xs: seq<int>): (m: int)
    requires |xs| > 0
    ensures m in xs && forall k :: 0 <= k < |xs| ==> m <= xs[k]
  {
    if |xs| == 1 then xs[0]
    else var m := Min(xs[1..]); if xs[0] <= m then xs[0] else m
  }

  /** The column components of a list of cells (Python's `zip(*cells)[0]`). */
  function Xs(cells: seq<Cell>): (r: seq<int>)
  {
    seq(|cells|, k requires 0 <= k < |cells| => cells[k].0)
  }

  /** The row components of a list of cells. */
  function Ys(cells: seq<Cell>): (r: seq<int>)
  {
    seq(|cells|, k requires 0 <= k < |cells| => cells[k].1)
  }

  /** Python's `"\n".join(rows)`. */
  function JoinLines(rows: seq<string>): string
  {
    if |rows| == 0 then ""
    else if |rows| == 1 then rows[0]
    else rows[0] + "\n" + JoinLines(rows[1..])
  }

  /** A character other than the newline occurs in the joined text iff it occurs in one of the rows. */
  lemma {:induction false} JoinLinesContains(rows: seq<string>, c: char)
    requires c != '\n'
    ensures c in JoinLines(rows) <==> exists y :: 0 <= y < |rows| && c in rows[y]
  {
    if |rows| > 1 {
      JoinLinesContains(rows[1..], c);
      assert forall y :: 1 <= y < |rows| ==> rows[y] == rows[1..][y - 1];
      if c in JoinLines(rows[1..]) {
        var y :| 0 <= y < |rows[1..]| && c in rows[1..][y];
        assert c in rows[y + 1];
      }
    }
  }
}
