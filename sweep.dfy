/** The order in which the region forms of stream and collide_and_bound
    visit cells: an outer loop over i from bi up to ei and an inner loop over
    j from bj up to ej, both bounds inclusive; and the region the whole-grid
    forms hand to them. */
module Sweep {
  import opened Machine
  import Layout

  datatype Cell = Cell(i: int, j: int)

  /** Row-major order: a lower row first, then a lower column. */
  predicate Before(a: Cell, b: Cell) {
    a.i < b.i || (a.i == b.i && a.j < b.j)
  }

  /** An inclusive rectangle bi <= i <= ei, bj <= j <= ej. */
  datatype Region = Region(bi: int, ei: int, bj: int, ej: int) {
    predicate Contains(c: Cell) {
      bi <= c.i <= ei && bj <= c.j <= ej
    }
  }

  /** The number of values in bj..ej. */
  function Width(b: int, e: int): nat {
    if e < b then 0 else e - b + 1
  }

  /** The cells the inner loop visits for row i, in order. */
  function Row(i: int, bj: int, ej: int): seq<Cell>
    decreases Width(bj, ej)
  {
    if ej < bj then [] else Row(i, bj, ej - 1) + [Cell(i, ej)]
  }

  /** The cells the nested loops visit, in order. */
  function RowMajor(bi: int, ei: int, bj: int, ej: int): seq<Cell>
    decreases Width(bi, ei)
  {
    if ei < bi then [] else RowMajor(bi, ei - 1, bj, ej) + Row(ei, bj, ej)
  }

  /** Strictly increasing in row-major order; in particular free of repeats. */
  predicate Ordered(s: seq<Cell>) {
    forall a, b | 0 <= a < b < |s| :: Before(s[a], s[b])
  }

  /** Row i holds exactly the cells (i, bj..ej), in ascending column order. */
  lemma {:induction false} RowShape(i: int, bj: int, ej: int)
    decreases Width(bj, ej)
    ensures |Row(i, bj, ej)| == Width(bj, ej)
    ensures forall c :: c in Row(i, bj, ej) <==> c.i == i && bj <= c.j <= ej
    ensures Ordered(Row(i, bj, ej))
  {
    if bj <= ej {
      RowShape(i, bj, ej - 1);
      var s := Row(i, bj, ej - 1);
      assert Row(i, bj, ej) == s + [Cell(i, ej)];
      forall c ensures c in Row(i, bj, ej) <==> c.i == i && bj <= c.j <= ej {
        assert c in Row(i, bj, ej) <==> c in s || c == Cell(i, ej);
      }
    }
  }

  /** The nested loops make one call per cell of the rectangle. */
  lemma {:induction false} RowMajorLength(bi: int, ei: int, bj: int, ej: int)
    decreases Width(bi, ei)
    ensures |RowMajor(bi, ei, bj, ej)| == Width(bi, ei) * Width(bj, ej)
  {
    if bi <= ei {
      RowMajorLength(bi, ei - 1, bj, ej);
      RowShape(ei, bj, ej);
      var h, w := Width(bi, ei - 1), Width(bj, ej);
      assert |RowMajor(bi, ei, bj, ej)| == h * w + w;
      assert Width(bi, ei) == h + 1;
      MulSucc(h, w);
    }
  }

  /** One more row adds one more row's worth of cells. */
  lemma MulSucc(h: nat, w: nat)
    ensures (h + 1) * w == h * w + w
  {
  }

  /** The loops visit a cell iff it lies in the rectangle. */
  lemma {:induction false} RowMajorMembers(bi: int, ei: int, bj: int, ej: int)
    decreases Width(bi, ei)
    ensures forall c :: c in RowMajor(bi, ei, bj, ej) <==> Region(bi, ei, bj, ej).Contains(c)
  {
    if bi <= ei {
      RowMajorMembers(bi, ei - 1, bj, ej);
      RowShape(ei, bj, ej);
      var p := RowMajor(bi, ei - 1, bj, ej);
      forall c ensures c in RowMajor(bi, ei, bj, ej) <==> Region(bi, ei, bj, ej).Contains(c) {
        assert c in RowMajor(bi, ei, bj, ej) <==> c in p || c in Row(ei, bj, ej);
      }
    }
  }

  /** i in the outer loop, j in the inner loop, both ascending. */
  lemma {:induction false} RowMajorOrdered(bi: int, ei: int, bj: int, ej: int)
    decreases Width(bi, ei)
    ensures Ordered(RowMajor(bi, ei, bj, ej))
  {
    if bi <= ei {
      RowMajorOrdered(bi, ei - 1, bj, ej);
      RowMajorMembers(bi, ei - 1, bj, ej);
      RowShape(ei, bj, ej);
      var p, r := RowMajor(bi, ei - 1, bj, ej), Row(ei, bj, ej);
      var s := p + r;
      forall a, b | 0 <= a < b < |s| ensures Before(s[a], s[b]) {
        if b < |p| {
          assert s[a] == p[a] && s[b] == p[b];
        } else if a >= |p| {
          assert s[a] == r[a - |p|] && s[b] == r[b - |p|];
        } else {
          assert s[a] == p[a] && p[a] in p;
          assert s[b] == r[b - |p|] && r[b - |p|] in r;
        }
      }
    }
  }

  /** Each cell of the rectangle is visited exactly once: it appears, and no
      two calls are for the same cell. */
  lemma RowMajorExactlyOnce(bi: int, ei: int, bj: int, ej: int)
    ensures forall c :: c in RowMajor(bi, ei, bj, ej) <==> Region(bi, ei, bj, ej).Contains(c)
    ensures forall a, b | 0 <= a < b < |RowMajor(bi, ei, bj, ej)| ::
              RowMajor(bi, ei, bj, ej)[a] != RowMajor(bi, ei, bj, ej)[b]
  {
    RowMajorMembers(bi, ei, bj, ej);
    RowMajorOrdered(bi, ei, bj, ej);
  }

  /** A 2 x 2 rectangle is visited as (0,0), (0,1), (1,0), (1,1). */
  lemma RowMajorExample()
    ensures RowMajor(0, 1, 0, 1) == [Cell(0, 0), Cell(0, 1), Cell(1, 0), Cell(1, 1)]
  {
  }

  predicate InGrid(ni: int, nj: int, c: Cell) {
    0 <= c.i < ni && 0 <= c.j < nj
  }

  /** The region stream() and collide_and_bound(mmap, cman) pass on, as
      written: (0, ni_ - 1, 0, nj_ - 1) in unsigned arithmetic. */
  function GridRegionAsWritten(ni: u32, nj: u32): Region {
    Region(0, Wrap(ni - 1), 0, Wrap(nj - 1))
  }

  /** On an empty grid a bound of that region wraps around to 4294967295,
      the largest unsigned value: the loop counter running up to it can never
      exceed it, so the sweep does not end. Its first visit is cell (0, 0),
      which is outside the grid, and whose descriptor slot lies outside the
      empty descriptor table. */
  lemma GridRegionAsWrittenOnEmptyGrid(ni: u32, nj: u32)
    requires ni == 0 || nj == 0
    ensures ni == 0 ==> GridRegionAsWritten(ni, nj).ei == 0xFFFF_FFFF
    ensures nj == 0 ==> GridRegionAsWritten(ni, nj).ej == 0xFFFF_FFFF
    ensures GridRegionAsWritten(ni, nj).Contains(Cell(0, 0))
    ensures !InGrid(ni, nj, Cell(0, 0))
    ensures Layout.TableLength(ni, nj) == 0 && Layout.DescSlot(nj, 0, 0) == 0
  {
  }

  /** The whole-grid sweep as intended: every cell in row-major order, and
      nothing at all on an empty grid. */
  function GridCells(ni: u32, nj: u32): seq<Cell> {
    if ni >= 1 && nj >= 1 then RowMajor(0, ni - 1, 0, nj - 1) else []
  }

  /** The intended whole-grid sweep visits all ni*nj cells, each exactly once,
      in row-major order, and only cells of the grid. */
  lemma {:induction false} GridCellsCoverGrid(ni: u32, nj: u32)
    ensures |GridCells(ni, nj)| == ni * nj
    ensures forall c :: c in GridCells(ni, nj) <==> InGrid(ni, nj, c)
    ensures Ordered(GridCells(ni, nj))
  {
    if ni >= 1 && nj >= 1 {
      RowMajorLength(0, ni - 1, 0, nj - 1);
      RowMajorMembers(0, ni - 1, 0, nj - 1);
      RowMajorOrdered(0, ni - 1, 0, nj - 1);
    }
  }

  /** On a non-empty grid the region as written and the intended sweep agree. */
  lemma GridRegionAgrees(ni: u32, nj: u32)
    requires ni >= 1 && nj >= 1
    ensures var g := GridRegionAsWritten(ni, nj);
      RowMajor(g.bi, g.ei, g.bj, g.ej) == GridCells(ni, nj)
  {
  }
}
