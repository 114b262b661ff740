/** Board topology: the bounded (not wrap-around) Moore neighbourhood of a
    position on a side-by-side board, and the row-major index of a position. */
module Topology {
  import opened Cells

  datatype Option<T> = None | Some(value: T)

  /** Rust's `%` on signed integers: it truncates toward zero, so the
      remainder has the sign of the dividend (Dafny's `%` is Euclidean). */
  function RustRem(a: int, b: int): (r: int)
    requires b != 0
    ensures a == b * RustQuot(a, b) + r
    ensures a >= 0 ==> 0 <= r < if b > 0 then b else -b
    ensures a < 0 ==> -(if b > 0 then b else -b) < r <= 0
  {
    if a >= 0 then a % b else -((-a) % b)
  }

  /** Rust's `/` on signed integers: the quotient truncated toward zero. */
  function RustQuot(a: int, b: int): (q: int)
    requires b != 0
  {
    if a >= 0 then a / b else -((-a) / b)
  }

  /** The source's test `side - c % side != 1`, which decides whether
      coordinate c + 1 is pushed as a neighbour coordinate. For c >= 0 it
      asks whether c is not the last of its block of side coordinates; for
      c < 0 the truncated remainder is not positive, so it always holds. */
  predicate BeforeFarEdge(c: int, side: int): (r: bool)
    requires side != 0
    ensures side > 0 && c >= 0 ==> (r <==> c % side != side - 1)
    ensures side > 1 && c < 0 ==> r
  {
    side - RustRem(c, side) != 1
  }

  /** On the board the modulo-based test is exactly "c is not the last
      column (row)". */
  lemma BeforeFarEdgeOnBoard(c: int, side: int)
    requires 0 <= c < side
    ensures BeforeFarEdge(c, side) <==> c != side - 1
  {
    DivModUnique(c, side, 0, c);
  }

  /** Off the board the test repeats with period side, so it no longer
      compares c with side - 1: position side - 1 + side counts as the far
      edge and position side does not. */
  lemma BeforeFarEdgeIsPeriodic(c: int, side: int)
    requires 0 <= c && 0 < side
    ensures BeforeFarEdge(c + side, side) == BeforeFarEdge(c, side)
  {
    DivModUnique(c + side, side, c / side + 1, c % side);
  }

  predicate InRange(p: Position, side: int)
  {
    0 <= p.x < side && 0 <= p.y < side
  }

  /** q is one of the eight positions surrounding p. */
  predicate Adjacent(p: Position, q: Position)
  {
    q != p && -1 <= q.x - p.x <= 1 && -1 <= q.y - p.y <= 1
  }

  /** The row-major index of a position: rows are stored one after another. */
  function RowMajor(p: Position, side: int): (i: int)
  {
    side * p.y + p.x
  }

  /** The position stored at row-major index i. */
  function PositionAt(i: int, side: int): (p: Position)
    requires side > 0
  {
    Position(i % side, i / side)
  }

  /** `to_index`: the row-major index, when it falls inside [0, size). */
  function ToIndex(p: Position, side: int, size: int): (r: Option<int>)
    ensures r.Some? <==> 0 <= RowMajor(p, side) < size
    ensures r.Some? ==> r.value == RowMajor(p, side)
  {
    var i := RowMajor(p, side);
    if i < 0 || i >= size then None else Some(i)
  }

  /** The singleton [q] when q is on the board, else []. */
  function Kept(q: Position, side: int): (r: seq<Position>)
  {
    if InRange(q, side) then [q] else []
  }

  /** The positions of s that lie on the board, in their order in s. */
  function OnBoard(s: seq<Position>, side: int): (r: seq<Position>)
    ensures |r| <= |s|
  {
    if s == [] then [] else OnBoard(s[..|s| - 1], side) + Kept(s[|s| - 1], side)
  }

  /** The eight positions surrounding p in row-major order, appended one by
      one: the row above, then p's own row, then the row below, each from
      left to right. */
  function Candidates(p: Position): (cs: seq<Position>)
  {
    [Position(p.x - 1, p.y - 1)] + [Position(p.x, p.y - 1)] + [Position(p.x + 1, p.y - 1)]
    + [Position(p.x - 1, p.y)] + [Position(p.x + 1, p.y)]
    + [Position(p.x - 1, p.y + 1)] + [Position(p.x, p.y + 1)] + [Position(p.x + 1, p.y + 1)]
  }

  /** Reference neighbourhood: the surrounding positions that are on the board. */
  function MooreNeighbours(p: Position, side: int): (ns: seq<Position>)
  {
    OnBoard(Candidates(p), side)
  }

  /** The positions of s have strictly increasing row-major indices. */
  predicate IncreasingIndex(s: seq<Position>, side: int)
  {
    forall i, j :: 0 <= i < j < |s| ==> RowMajor(s[i], side) < RowMajor(s[j], side)
  }

  /** How many of c - 1, c, c + 1 lie in [0, side), for c in [0, side). */
  function Span(c: int, side: int): (n: nat)
  {
    (if c > 0 then 1 else 0) + 1 + (if c < side - 1 then 1 else 0)
  }

  predicate OnEdge(c: int, side: int)
  {
    c == 0 || c == side - 1
  }

  /** `neighbor_coords`: builds the neighbour list by conditional pushes, row
      above first, then the own row, then the row below. */
  method NeighborCoords(p: Position, side: int) returns (ns: seq<Position>)
    requires side > 0
    ensures |ns| <= 8
    ensures forall q <- ns :: Adjacent(p, q)
    ensures InRange(p, side) ==> ns == MooreNeighbours(p, side)
  {
    ghost var onBoard := InRange(p, side);
    if onBoard {
      BeforeFarEdgeOnBoard(p.x, side);
      BeforeFarEdgeOnBoard(p.y, side);
    }
    // on the board, each conditional push below appends Kept(q, side) for
    // its candidate q; the ghost `pre` is the list before the push
    ns := [];
    ghost var pre := ns;
    ghost var spec: seq<Position>;
    // above me
    if p.y > 0 {
      if p.x > 0 {
        ns := ns + [Position(p.x - 1, p.y - 1)];
      }
      KeptWhen(pre, Position(p.x - 1, p.y - 1), onBoard, p.x > 0, side);
      spec := Kept(Position(p.x - 1, p.y - 1), side);
      assert onBoard ==> ns == spec;
      pre := ns;
      ns := ns + [Position(p.x, p.y - 1)];
      KeptWhen(pre, Position(p.x, p.y - 1), onBoard, true, side);
      spec := spec + Kept(Position(p.x, p.y - 1), side);
      assert onBoard ==> ns == spec;
      pre := ns;
      if BeforeFarEdge(p.x, side) {
        ns := ns + [Position(p.x + 1, p.y - 1)];
      }
      KeptWhen(pre, Position(p.x + 1, p.y - 1), onBoard, BeforeFarEdge(p.x, side), side);
      spec := spec + Kept(Position(p.x + 1, p.y - 1), side);
      assert onBoard ==> ns == spec;
    } else {
      KeptWhen(pre, Position(p.x - 1, p.y - 1), onBoard, false, side);
      spec := Kept(Position(p.x - 1, p.y - 1), side);
      assert onBoard ==> ns == spec;
      KeptWhen(pre, Position(p.x, p.y - 1), onBoard, false, side);
      spec := spec + Kept(Position(p.x, p.y - 1), side);
      assert onBoard ==> ns == spec;
      KeptWhen(pre, Position(p.x + 1, p.y - 1), onBoard, false, side);
      spec := spec + Kept(Position(p.x + 1, p.y - 1), side);
      assert onBoard ==> ns == spec;
    }
    // in line with me
    pre := ns;
    if p.x > 0 {
      ns := ns + [Position(p.x - 1, p.y)];
    }
    KeptWhen(pre, Position(p.x - 1, p.y), onBoard, p.x > 0, side);
    spec := spec + Kept(Position(p.x - 1, p.y), side);
    assert onBoard ==> ns == spec;
    pre := ns;
    if BeforeFarEdge(p.x, side) {
      ns := ns + [Position(p.x + 1, p.y)];
    }
    KeptWhen(pre, Position(p.x + 1, p.y), onBoard, BeforeFarEdge(p.x, side), side);
    spec := spec + Kept(Position(p.x + 1, p.y), side);
    assert onBoard ==> ns == spec;
    // below me
    pre := ns;
    if BeforeFarEdge(p.y, side) {
      if p.x > 0 {
        ns := ns + [Position(p.x - 1, p.y + 1)];
      }
      KeptWhen(pre, Position(p.x - 1, p.y + 1), onBoard, p.x > 0, side);
      spec := spec + Kept(Position(p.x - 1, p.y + 1), side);
      assert onBoard ==> ns == spec;
      pre := ns;
      ns := ns + [Position(p.x, p.y + 1)];
      KeptWhen(pre, Position(p.x, p.y + 1), onBoard, true, side);
      spec := spec + Kept(Position(p.x, p.y + 1), side);
      assert onBoard ==> ns == spec;
      pre := ns;
      if BeforeFarEdge(p.x, side) {
        ns := ns + [Position(p.x + 1, p.y + 1)];
      }
      KeptWhen(pre, Position(p.x + 1, p.y + 1), onBoard, BeforeFarEdge(p.x, side), side);
      spec := spec + Kept(Position(p.x + 1, p.y + 1), side);
      assert onBoard ==> ns == spec;
    } else {
      KeptWhen(pre, Position(p.x - 1, p.y + 1), onBoard, false, side);
      spec := spec + Kept(Position(p.x - 1, p.y + 1), side);
      assert onBoard ==> ns == spec;
      KeptWhen(pre, Position(p.x, p.y + 1), onBoard, false, side);
      spec := spec + Kept(Position(p.x, p.y + 1), side);
      assert onBoard ==> ns == spec;
      KeptWhen(pre, Position(p.x + 1, p.y + 1), onBoard, false, side);
      spec := spec + Kept(Position(p.x + 1, p.y + 1), side);
      assert onBoard ==> ns == spec;
    }
    if onBoard {
      MooreNeighboursUnfolded(p, side);
    }
  }

  /** A conditional push of q appends Kept(q, side) when the condition is
      exactly "q is on the board". */
  lemma KeptWhen(pre: seq<Position>, q: Position, relevant: bool, cond: bool, side: int)
    requires relevant ==> (cond <==> InRange(q, side))
    ensures relevant ==> (if cond then pre + [q] else pre) == pre + Kept(q, side)
  {
    if relevant && !cond {
      assert pre + [] == pre;
    }
  }

  /** With side > 0, a < b moves side * a at least one whole side below side * b. */
  lemma {:induction false} MulMonotone(side: int, a: int, b: int)
    requires side > 0 && a < b
    ensures side * a + side <= side * b
    decreases b - a
  {
    if b - a > 1 {
      MulMonotone(side, a, b - 1);
    }
  }

  /** Quotient and remainder are the unique q, r with a == side * q + r and 0 <= r < side. */
  lemma DivModUnique(a: int, side: int, q: int, r: int)
    requires side > 0 && 0 <= r < side && a == side * q + r
    ensures a / side == q && a % side == r
  {
    var q', r' := a / side, a % side;
    assert a == side * q' + r' && 0 <= r' < side;
    if q < q' {
      MulMonotone(side, q, q');
    } else if q' < q {
      MulMonotone(side, q', q);
    }
  }

  /** a comes before b in row-major order: an earlier row, or the same row
      and an earlier column. */
  predicate Before(a: Position, b: Position)
  {
    a.y < b.y || (a.y == b.y && a.x < b.x)
  }

  /** On the board, coming earlier in row-major order means a smaller index. */
  lemma BeforeHasSmallerIndex(a: Position, b: Position, side: int)
    requires InRange(a, side) && InRange(b, side) && Before(a, b)
    ensures RowMajor(a, side) < RowMajor(b, side)
  {
    if a.y < b.y {
      MulMonotone(side, a.y, b.y);
    }
  }

  /** The positions of s are in strictly increasing row-major order. */
  predicate InOrder(s: seq<Position>)
  {
    forall i, j :: 0 <= i < j < |s| ==> Before(s[i], s[j])
  }

  /** On-board positions in row-major order have increasing indices. */
  lemma InOrderHasIncreasingIndex(s: seq<Position>, side: int)
    requires InOrder(s) && forall q <- s :: InRange(q, side)
    ensures IncreasingIndex(s, side)
  {
    forall i, j | 0 <= i < j < |s|
      ensures RowMajor(s[i], side) < RowMajor(s[j], side)
    {
      assert s[i] in s && s[j] in s;
      BeforeHasSmallerIndex(s[i], s[j], side);
    }
  }

  /** Filtering a sequence extended by q extends the filtered sequence by q
      when q is on the board. */
  lemma OnBoardSnoc(s: seq<Position>, q: Position, side: int)
    ensures OnBoard(s + [q], side) == OnBoard(s, side) + Kept(q, side)
  {
    assert (s + [q])[..|s|] == s;
  }

  /** A position survives the filter exactly when it is in s and on the board. */
  lemma {:induction false} OnBoardMembers(s: seq<Position>, side: int)
    ensures forall q :: q in OnBoard(s, side) <==> q in s && InRange(q, side)
  {
    if s != [] {
      OnBoardMembers(s[..|s| - 1], side);
      assert s == s[..|s| - 1] + [s[|s| - 1]];
    }
  }

  /** Extending an ordered sequence by a position after all of its members
      keeps it ordered. */
  lemma InOrderSnoc(s: seq<Position>, q: Position)
    requires InOrder(s) && forall e <- s :: Before(e, q)
    ensures InOrder(s + [q])
  {
    forall i, j | 0 <= i < j < |s + [q]|
      ensures Before((s + [q])[i], (s + [q])[j])
    {
      if j == |s| {
        assert (s + [q])[i] == s[i] && s[i] in s;
      }
    }
  }

  /** Filtering keeps row-major order. */
  lemma {:induction false} OnBoardInOrder(s: seq<Position>, side: int)
    requires InOrder(s)
    ensures InOrder(OnBoard(s, side))
  {
    if s != [] {
      var init, last := s[..|s| - 1], s[|s| - 1];
      assert InOrder(init) by {
        forall i, j | 0 <= i < j < |init|
          ensures Before(init[i], init[j])
        {
          assert init[i] == s[i] && init[j] == s[j];
        }
      }
      OnBoardInOrder(init, side);
      OnBoardMembers(init, side);
      var rest := OnBoard(init, side);
      if InRange(last, side) {
        forall e | e in rest
          ensures Before(e, last)
        {
          var k :| 0 <= k < |init| && init[k] == e;
          assert s[k] == e;
        }
        InOrderSnoc(rest, last);
      } else {
        assert OnBoard(s, side) == rest + [];
        assert rest + [] == rest;
      }
    }
  }

  /** The candidates are listed in row-major order. */
  lemma CandidatesInOrder(p: Position)
    ensures InOrder(Candidates(p))
  {
    var s := [Position(p.x - 1, p.y - 1)];
    InOrderSnoc(s, Position(p.x, p.y - 1));
    s := s + [Position(p.x, p.y - 1)];
    InOrderSnoc(s, Position(p.x + 1, p.y - 1));
    s := s + [Position(p.x + 1, p.y - 1)];
    InOrderSnoc(s, Position(p.x - 1, p.y));
    s := s + [Position(p.x - 1, p.y)];
    InOrderSnoc(s, Position(p.x + 1, p.y));
    s := s + [Position(p.x + 1, p.y)];
    InOrderSnoc(s, Position(p.x - 1, p.y + 1));
    s := s + [Position(p.x - 1, p.y + 1)];
    InOrderSnoc(s, Position(p.x, p.y + 1));
    s := s + [Position(p.x, p.y + 1)];
    InOrderSnoc(s, Position(p.x + 1, p.y + 1));
  }

  /** The filter over eight appended positions, one by one. */
  lemma OnBoardEight(q0: Position, q1: Position, q2: Position, q3: Position,
                     q4: Position, q5: Position, q6: Position, q7: Position, side: int)
    ensures OnBoard([q0] + [q1] + [q2] + [q3] + [q4] + [q5] + [q6] + [q7], side)
         == Kept(q0, side) + Kept(q1, side) + Kept(q2, side) + Kept(q3, side)
          + Kept(q4, side) + Kept(q5, side) + Kept(q6, side) + Kept(q7, side)
  {
    var s := [q0];
    assert s[..0] == [];
    var o := OnBoard(s, side);
    assert o == Kept(q0, side);
    OnBoardSnoc(s, q1, side);
    o, s := o + Kept(q1, side), s + [q1];
    assert OnBoard(s, side) == o;
    OnBoardSnoc(s, q2, side);
    o, s := o + Kept(q2, side), s + [q2];
    assert OnBoard(s, side) == o;
    OnBoardSnoc(s, q3, side);
    o, s := o + Kept(q3, side), s + [q3];
    assert OnBoard(s, side) == o;
    OnBoardSnoc(s, q4, side);
    o, s := o + Kept(q4, side), s + [q4];
    assert OnBoard(s, side) == o;
    OnBoardSnoc(s, q5, side);
    o, s := o + Kept(q5, side), s + [q5];
    assert OnBoard(s, side) == o;
    OnBoardSnoc(s, q6, side);
    o, s := o + Kept(q6, side), s + [q6];
    assert OnBoard(s, side) == o;
    OnBoardSnoc(s, q7, side);
  }

  /** The reference neighbourhood written out: one optional position per candidate. */
  lemma MooreNeighboursUnfolded(p: Position, side: int)
    ensures MooreNeighbours(p, side) ==
      Kept(Position(p.x - 1, p.y - 1), side) + Kept(Position(p.x, p.y - 1), side) + Kept(Position(p.x + 1, p.y - 1), side)
      + Kept(Position(p.x - 1, p.y), side) + Kept(Position(p.x + 1, p.y), side)
      + Kept(Position(p.x - 1, p.y + 1), side) + Kept(Position(p.x, p.y + 1), side) + Kept(Position(p.x + 1, p.y + 1), side)
  {
    OnBoardEight(Position(p.x - 1, p.y - 1), Position(p.x, p.y - 1), Position(p.x + 1, p.y - 1),
      Position(p.x - 1, p.y), Position(p.x + 1, p.y),
      Position(p.x - 1, p.y + 1), Position(p.x, p.y + 1), Position(p.x + 1, p.y + 1), side);
  }

  /** The reference neighbourhood lists positions with strictly increasing
      row-major indices, so none appears twice. */
  lemma MooreNeighboursIncreasing(p: Position, side: int)
    ensures IncreasingIndex(MooreNeighbours(p, side), side)
  {
    CandidatesInOrder(p);
    OnBoardInOrder(Candidates(p), side);
    MooreNeighboursMembers(p, side);
    InOrderHasIncreasingIndex(MooreNeighbours(p, side), side);
  }

  /** A position is in the reference neighbourhood exactly when it is on the
      board and adjacent to p. */
  lemma MooreNeighboursMembers(p: Position, side: int)
    ensures forall q :: q in MooreNeighbours(p, side) <==> InRange(q, side) && Adjacent(p, q)
  {
    OnBoardMembers(Candidates(p), side);
    forall q | Adjacent(p, q)
      ensures q in Candidates(p)
    {
      assert q.x == p.x - 1 || q.x == p.x || q.x == p.x + 1;
      assert q.y == p.y - 1 || q.y == p.y || q.y == p.y + 1;
    }
  }

  /** The candidates of one row above or below: as many as the span of x,
      when that row is on the board. */
  lemma RowLength(x: int, row: int, side: int)
    requires 0 <= x < side
    ensures |Kept(Position(x - 1, row), side) + Kept(Position(x, row), side) + Kept(Position(x + 1, row), side)|
         == if 0 <= row < side then Span(x, side) else 0
  {
  }

  /** Multiplying by a span: one copy of n per row of the span. */
  lemma MulSpan(c: int, side: int, n: int)
    ensures Span(c, side) * n == (if c > 0 then n else 0) + n + (if c < side - 1 then n else 0)
  {
  }

  /** Neighbour counts: (span in x) * (span in y) - 1; so 8 for an interior
      cell, 5 for a non-corner edge cell and 3 for a corner. */
  lemma MooreNeighboursCount(p: Position, side: int)
    requires InRange(p, side)
    ensures |MooreNeighbours(p, side)| == Span(p.x, side) * Span(p.y, side) - 1
    ensures !OnEdge(p.x, side) && !OnEdge(p.y, side) ==> |MooreNeighbours(p, side)| == 8
    ensures side >= 2 && OnEdge(p.x, side) && OnEdge(p.y, side) ==> |MooreNeighbours(p, side)| == 3
    ensures side >= 2 && OnEdge(p.x, side) != OnEdge(p.y, side) ==> |MooreNeighbours(p, side)| == 5
  {
    MooreNeighboursUnfolded(p, side);
    RowLength(p.x, p.y - 1, side);
    RowLength(p.x, p.y + 1, side);
    MulSpan(p.y, side, Span(p.x, side));
    assert Span(p.x, side) * Span(p.y, side) == Span(p.y, side) * Span(p.x, side);
  }

  /** An on-board position resolves to its row-major index, which is a valid
      index into a board of side * side cells. */
  lemma ToIndexOnBoard(p: Position, side: int)
    requires InRange(p, side)
    ensures 0 <= RowMajor(p, side) < side * side
    ensures ToIndex(p, side, side * side) == Some(RowMajor(p, side))
  {
    MulMonotone(side, p.y, side);
    if p.y > 0 {
      MulMonotone(side, 0, p.y);
    }
  }

  /** Distinct on-board positions have distinct indices. */
  lemma RowMajorInjective(p: Position, q: Position, side: int)
    requires InRange(p, side) && InRange(q, side)
    requires RowMajor(p, side) == RowMajor(q, side)
    ensures p == q
  {
    if p.y < q.y {
      MulMonotone(side, p.y, q.y);
    } else if q.y < p.y {
      MulMonotone(side, q.y, p.y);
    }
  }

  /** Row-major index and position are inverse on the board. */
  lemma RowMajorRoundTrip(i: int, side: int)
    requires side > 0 && 0 <= i < side * side
    ensures InRange(PositionAt(i, side), side)
    ensures RowMajor(PositionAt(i, side), side) == i
  {
    var q, r := i / side, i % side;
    assert i == side * q + r && 0 <= r < side;
    if q >= side {
      MulMonotone(side, side - 1, q);
    } else if q < 0 {
      MulMonotone(side, q, 0);
    }
  }

  /** An on-board position is the one stored at its own row-major index. */
  lemma PositionAtRowMajor(p: Position, side: int)
    requires InRange(p, side)
    ensures PositionAt(RowMajor(p, side), side) == p
  {
    ToIndexOnBoard(p, side);
    RowMajorRoundTrip(RowMajor(p, side), side);
    RowMajorInjective(PositionAt(RowMajor(p, side), side), p, side);
  }
}
