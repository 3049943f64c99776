/**
 The square board the snake moves on: cells, the in-bounds test, and the
 counting argument that tells when a free cell is left for the food.
 */
module Grid {

  /** One tile of the board, addressed by column `x` and row `y`. */
  datatype Cell = Cell(x: int, y: int)

  /** `c` lies on an `n` by `n` board. */
  predicate InGrid(c: Cell, n: int)
  {
    0 <= c.x < n && 0 <= c.y < n
  }

  predicate AllInGrid(s: seq<Cell>, n: int)
  {
    forall i :: 0 <= i < |s| ==> InGrid(s[i], n)
  }

  /** No cell occurs twice in `s`. */
  predicate Distinct(s: seq<Cell>)
  {
    forall i, j :: 0 <= i < j < |s| ==> s[i] != s[j]
  }

  /** `c` is on the board and not covered by `s`. */
  predicate Free(c: Cell, s: seq<Cell>, n: int)
  {
    InGrid(c, n) && c !in s
  }

  /** The cells covered by `s`. */
  function Occupied(s: seq<Cell>): set<Cell>
  {
    set c | c in s
  }

  /** The first `w` cells of row `y`. */
  function Row(w: nat, y: int): (r: set<Cell>)
    ensures forall c :: c in r <==> c.y == y && 0 <= c.x < w
    ensures |r| == w
  {
    if w == 0 then {} else Row(w - 1, y) + {Cell(w - 1, y)}
  }

  /** The cells of the first `h` rows, each `w` cells wide. */
  function Rect(w: nat, h: nat): (r: set<Cell>)
    ensures forall c :: c in r <==> 0 <= c.x < w && 0 <= c.y < h
    ensures |r| == w * h
  {
    if h == 0 then {}
    else
      var above, last := Rect(w, h - 1), Row(w, h - 1);
      assert above * last == {};
      assert w * h == w * (h - 1) + w;
      above + last
  }

  lemma {:induction false} OccupiedCard(s: seq<Cell>)
    requires Distinct(s)
    ensures |Occupied(s)| == |s|
  {
    if s != [] {
      var rest := s[1..];
      assert Distinct(rest) by {
        forall i, j | 0 <= i < j < |rest| ensures rest[i] != rest[j] {
          assert rest[i] == s[i + 1] && rest[j] == s[j + 1];
        }
      }
      OccupiedCard(rest);
      assert Occupied(s) == Occupied(rest) + {s[0]};
      assert s[0] !in Occupied(rest);
    }
  }

  lemma SubsetCard(a: set<Cell>, b: set<Cell>)
    requires a <= b
    ensures |b| == |a| + |b - a|
  {
  }

  /**
   A snake of distinct on-board cells leaves a free cell exactly when it is
   shorter than the number of cells on the board.
   */
  lemma {:induction false} RoomIffFreeCell(s: seq<Cell>, n: nat)
    requires Distinct(s) && AllInGrid(s, n)
    ensures (exists c :: Free(c, s, n)) <==> |s| < n * n
  {
    var taken, board := Occupied(s), Rect(n, n);
    OccupiedCard(s);
    assert taken <= board;
    SubsetCard(taken, board);
    if |s| < n * n {
      assert |board - taken| > 0;
      var c :| c in board - taken;
      assert Free(c, s, n);
    }
    if exists c :: Free(c, s, n) {
      var c :| Free(c, s, n);
      assert c in board - taken;
    }
  }
}
