/** The D2Q9 lattice: two same-shaped population buffers ("current" and
    "next"), a table with one node-descriptor handle per cell, and the sweeps
    that hand every cell of a rectangle to its descriptor for streaming or
    for collision. */
module LatticeGrid {
  import opened Machine
  import opened Results
  import opened Layout
  import opened Sweep

  /** A node-descriptor handle: the non-null pointer that the arena's
      allocate returns for one constructed descriptor. */
  datatype NodeDescRef = NodeDescRef(addr: nat)

  /** The external collaborators collision is handed, by reference. */
  datatype MultiscaleMapRef = MultiscaleMapRef(addr: nat)
  datatype CollisionManagerRef = CollisionManagerRef(addr: nat)

  /** What a per-cell call asks the cell's descriptor to do. */
  datatype Op = StreamOp | CollideOp(mmap: MultiscaleMapRef, cman: CollisionManagerRef)

  /** One per-cell call: node_desc(i, j).stream(...) or
      node_desc(i, j).collide_and_bound(...). */
  datatype Call = Call(op: Op, cell: Cell)

  /** The out_of_range error check_bounds throws, naming the coordinates. */
  datatype BoundsError = OutOfRange(i: u32, j: u32)

  /** The calls a sweep over the given cells makes, in the same order. */
  function Calls(op: Op, cells: seq<Cell>): seq<Call> {
    seq(|cells|, n requires 0 <= n < |cells| => Call(op, cells[n]))
  }

  lemma CallsAppend(op: Op, a: seq<Cell>, b: seq<Cell>)
    ensures Calls(op, a + b) == Calls(op, a) + Calls(op, b)
  {
  }

  class Lattice {
    const ni: u32
    const nj: u32
    /** spf_: the current populations; spftemp_: the next ones. */
    var spf: array<real>
    var spftemp: array<real>
    /** node_descs_: one handle per cell, None for a null pointer. */
    var nodeDescs: seq<Option<NodeDescRef>>
    /** The per-cell calls made so far, in order. */
    ghost var trace: seq<Call>

    /** Both buffers hold ni*nj*9 entries and are distinct objects; the
        descriptor table holds ni*nj handles. */
    ghost predicate Valid()
      reads this
    {
      && SizesFit(ni, nj)
      && spf.Length == BufferLength(ni, nj)
      && spftemp.Length == BufferLength(ni, nj)
      && spf != spftemp
      && |nodeDescs| == TableLength(ni, nj)
    }

    ghost function Cur(): seq<real>
      reads this, spf
    {
      spf[..]
    }

    ghost function Next(): seq<real>
      reads this, spftemp
    {
      spftemp[..]
    }

    /** Lattice(): the empty lattice with no buffers. */
    constructor Empty()
      ensures Valid() && ni == 0 && nj == 0
      ensures nodeDescs == [] && trace == []
    {
      ni, nj := 0, 0;
      spf := new real[0];
      spftemp := new real[0];
      nodeDescs := [];
      trace := [];
    }

    /** Lattice(ni, nj, rho): allocates both buffers and a table of null
        descriptor handles. The populations init_f_(rho) writes are not part
        of this model. */
    constructor (ni: u32, nj: u32, rho: real)
      requires SizesFit(ni, nj)
      ensures Valid() && fresh(spf) && fresh(spftemp)
      ensures this.ni == ni && this.nj == nj
      ensures spf.Length == spftemp.Length == ni * nj * 9
      ensures |nodeDescs| == ni * nj
      ensures forall s | 0 <= s < |nodeDescs| :: nodeDescs[s] == None
      ensures trace == []
    {
      this.ni, this.nj := ni, nj;
      LengthsExact(ni, nj);
      spf := new real[BufferLength(ni, nj)];
      spftemp := new real[BufferLength(ni, nj)];
      nodeDescs := seq(TableLength(ni, nj), _ => None);
      trace := [];
    }

    /** in_bounds(i, j): the comparisons i < ni_ and j < nj_ convert the
        signed index to unsigned, so a negative index compares as a huge one. */
    function InBounds(i: i32, j: i32): (r: bool)
      ensures r <==> 0 <= i < ni && 0 <= j < nj
    {
      ToUnsigned(i) < ni && i >= 0 && ToUnsigned(j) < nj && j >= 0
    }

    /** check_bounds(i, j): passes its unsigned indices to in_bounds and
        throws out_of_range naming (i, j) when they are out of bounds. */
    method CheckBounds(i: u32, j: u32) returns (r: Outcome<BoundsError>)
      ensures r.Pass? <==> InBounds(ToSigned(i), ToSigned(j))
      ensures r.Fail? ==> r.error == OutOfRange(i, j)
      ensures SizesFit(ni, nj) ==> (r.Pass? <==> i < ni && j < nj)
    {
      if SizesFit(ni, nj) {
        SmallDims(ni, nj);
      }
      if !InBounds(ToSigned(i), ToSigned(j)) {
        r := Fail(OutOfRange(i, j));
      } else {
        r := Pass;
      }
    }

    /** The handle in the descriptor slot nj_*i + j, None when the slot is
        null or past the table. */
    function DescAt(i: u32, j: u32): Option<NodeDescRef>
      reads this`nodeDescs
    {
      var s := DescSlot(nj, i, j);
      if s < |nodeDescs| then nodeDescs[s] else None
    }

    /** Cell (i, j) is in bounds and has a descriptor to dispatch to. */
    predicate Ready(i: int, j: int)
      reads this`nodeDescs
    {
      0 <= i < ni && 0 <= j < nj && DescAt(i, j).Some?
    }

    /** Every cell of the grid has a descriptor. */
    predicate AllReady()
      reads this`nodeDescs
    {
      forall i, j | 0 <= i < ni && 0 <= j < nj :: Ready(i, j)
    }

    /** node_desc(i, j): the descriptor the slot points to (dereferencing a
        null slot is undefined, hence the precondition). */
    function NodeDesc(i: u32, j: u32): NodeDescRef
      reads this`nodeDescs
      requires DescAt(i, j).Some?
    {
      DescAt(i, j).value
    }

    /** set_node_desc(i, j, ...): records the freshly allocated descriptor
        pnd in slot nj_*i + j and touches nothing else. */
    method SetNodeDesc(i: u32, j: u32, pnd: NodeDescRef)
      requires Valid() && DescSlot(nj, i, j) < |nodeDescs|
      modifies this`nodeDescs
      ensures Valid()
      ensures nodeDescs == old(nodeDescs)[DescSlot(nj, i, j) := Some(pnd)]
      ensures NodeDesc(i, j) == pnd
      ensures i < ni && j < nj ==>
        forall i': u32, j': u32 | i' < ni && j' < nj && (i' != i || j' != j) ::
          DescAt(i', j') == old(DescAt(i', j'))
      ensures spf == old(spf) && spftemp == old(spftemp) && trace == old(trace)
    {
      nodeDescs := nodeDescs[DescSlot(nj, i, j) := Some(pnd)];
      if i < ni && j < nj {
        forall i': u32, j': u32 | i' < ni && j' < nj && (i' != i || j' != j)
          ensures DescAt(i', j') == old(DescAt(i', j'))
        {
          PrivateOffsetInRange(ni, nj, i', j', 0);
          if DescSlot(nj, i', j') == DescSlot(nj, i, j) {
            DescSlotInjective(ni, nj, i, j, i', j');
          }
        }
      }
    }

    /** f_(i, j, k): population k of cell (i, j) in the current buffer. */
    function FCur(i: u32, j: u32, k: u32): real
      reads this, spf
      requires Valid() && i < ni && j < nj && k < 9
    {
      PrivateOffsetInRange(ni, nj, i, j, k);
      spf[PrivateOffset(nj, i, j, k)]
    }

    /** ft_(i, j, k): population k of cell (i, j) in the next buffer. */
    function FNext(i: u32, j: u32, k: u32): real
      reads this, spftemp
      requires Valid() && i < ni && j < nj && k < 9
    {
      PrivateOffsetInRange(ni, nj, i, j, k);
      spftemp[PrivateOffset(nj, i, j, k)]
    }

    /** f(i, j, k) as written: reads offset ni_*(i*nj_ + j) + k of the
        current buffer; None where that lies past the buffer. */
    function F(i: u32, j: u32, k: u32): (r: Option<real>)
      reads this, spf
      requires Valid()
      ensures ni == 9 && i < ni && j < nj && k < 9 ==> r == Some(FCur(i, j, k))
    {
      PublicMatchesPrivateForNine(ni, nj, i, j, k);
      var o := PublicOffset(ni, nj, i, j, k);
      if o < spf.Length then Some(spf[o]) else None
    }

    /** ftemp(i, j, k) as written, on the next buffer. */
    function FTemp(i: u32, j: u32, k: u32): (r: Option<real>)
      reads this, spftemp
      requires Valid()
      ensures ni == 9 && i < ni && j < nj && k < 9 ==> r == Some(FNext(i, j, k))
    {
      PublicMatchesPrivateForNine(ni, nj, i, j, k);
      var o := PublicOffset(ni, nj, i, j, k);
      if o < spftemp.Length then Some(spftemp[o]) else None
    }

    /** A write through the reference f_(i, j, k) returns: one slot of the
        current buffer changes, no other population of either buffer does. */
    method SetFCur(i: u32, j: u32, k: u32, v: real)
      requires Valid() && i < ni && j < nj && k < 9
      modifies spf
      ensures Valid()
      ensures FCur(i, j, k) == v
      ensures forall i': u32, j': u32, k': u32 | i' < ni && j' < nj && k' < 9 && (i', j', k') != (i, j, k) ::
                FCur(i', j', k') == old(FCur(i', j', k'))
      ensures Next() == old(Next())
    {
      PrivateOffsetInRange(ni, nj, i, j, k);
      spf[PrivateOffset(nj, i, j, k)] := v;
      forall i': u32, j': u32, k': u32 | i' < ni && j' < nj && k' < 9 && (i', j', k') != (i, j, k)
        ensures FCur(i', j', k') == old(FCur(i', j', k'))
      {
        PrivateOffsetInRange(ni, nj, i', j', k');
        if PrivateOffset(nj, i', j', k') == PrivateOffset(nj, i, j, k) {
          PrivateOffsetInjective(ni, nj, i, j, k, i', j', k');
        }
      }
    }

    /** A write through the reference ft_(i, j, k) returns, on the next buffer. */
    method SetFNext(i: u32, j: u32, k: u32, v: real)
      requires Valid() && i < ni && j < nj && k < 9
      modifies spftemp
      ensures Valid()
      ensures FNext(i, j, k) == v
      ensures forall i': u32, j': u32, k': u32 | i' < ni && j' < nj && k' < 9 && (i', j', k') != (i, j, k) ::
                FNext(i', j', k') == old(FNext(i', j', k'))
      ensures Cur() == old(Cur())
    {
      PrivateOffsetInRange(ni, nj, i, j, k);
      spftemp[PrivateOffset(nj, i, j, k)] := v;
      forall i': u32, j': u32, k': u32 | i' < ni && j' < nj && k' < 9 && (i', j', k') != (i, j, k)
        ensures FNext(i', j', k') == old(FNext(i', j', k'))
      {
        PrivateOffsetInRange(ni, nj, i', j', k');
        if PrivateOffset(nj, i', j', k') == PrivateOffset(nj, i, j, k) {
          PrivateOffsetInjective(ni, nj, i, j, k, i', j', k');
        }
      }
    }

    /** swap_f_ptrs(): exchanges the two buffers themselves (no copy), so the
        next populations become the current ones and vice versa. */
    method SwapFPtrs()
      requires Valid()
      modifies this`spf, this`spftemp
      ensures Valid()
      ensures spf == old(spftemp) && spftemp == old(spf)
      ensures Cur() == old(Next()) && Next() == old(Cur())
    {
      spf, spftemp := spftemp, spf;
    }

    /** Two consecutive swaps restore the original buffers and populations. */
    method SwapTwice()
      requires Valid()
      modifies this`spf, this`spftemp
      ensures Valid()
      ensures spf == old(spf) && spftemp == old(spftemp)
      ensures Cur() == old(Cur()) && Next() == old(Next())
    {
      SwapFPtrs();
      SwapFPtrs();
    }

    /** stream(i, j): one call to the cell's descriptor. The descriptor
        reads and writes populations of both buffers through f_ and ft_; what
        it writes is not modelled, so the buffers' contents are left free. */
    method StreamCell(i: u32, j: u32)
      requires Valid() && Ready(i, j)
      modifies this`trace, spf, spftemp
      ensures Valid()
      ensures trace == old(trace) + [Call(StreamOp, Cell(i, j))]
    {
      trace := trace + [Call(StreamOp, Cell(i, j))];
    }

    /** stream(bi, ei, bj, ej): one call per cell of the inclusive rectangle,
        i in the outer loop and j in the inner loop, both ascending. The
        unsigned counter i would wrap, and the loop never end, if ei were
        4294967295 with a non-empty row range. */
    method StreamRegion(bi: u32, ei: u32, bj: u32, ej: u32)
      requires Valid()
      requires ei < bi || ei < 0xFFFF_FFFF
      requires forall i, j | bi <= i <= ei && bj <= j <= ej :: Ready(i, j)
      modifies this`trace, spf, spftemp
      ensures Valid()
      ensures trace == old(trace) + Calls(StreamOp, RowMajor(bi, ei, bj, ej))
    {
      var i: u32 := bi;
      while i <= ei
        invariant bi <= i && (i <= ei + 1 || i == bi)
        invariant trace == old(trace) + Calls(StreamOp, RowMajor(bi, i - 1, bj, ej))
      {
        var j: u32 := bj;
        while j <= ej
          invariant bj <= j && (j <= ej + 1 || j == bj)
          invariant trace == old(trace) + Calls(StreamOp, RowMajor(bi, i - 1, bj, ej) + Row(i, bj, j - 1))
        {
          StreamCell(i, j);
          CallsAppend(StreamOp, RowMajor(bi, i - 1, bj, ej) + Row(i, bj, j - 1), [Cell(i, j)]);
          j := j + 1;
        }
        i := i + 1;
      }
    }

    /** stream(): the whole grid, each cell once in row-major order; no call
        at all on an empty grid. */
    method StreamAll()
      requires Valid() && AllReady()
      modifies this`trace, spf, spftemp
      ensures Valid()
      ensures trace == old(trace) + Calls(StreamOp, GridCells(ni, nj))
    {
      if ni >= 1 && nj >= 1 {
        StreamRegion(0, ni - 1, 0, nj - 1);
      }
    }

    /** collide_and_bound(mmap, cman, i, j): one call to the cell's descriptor,
        which may write populations of either buffer as stream(i, j) may. */
    method CollideAndBoundCell(mmap: MultiscaleMapRef, cman: CollisionManagerRef, i: u32, j: u32)
      requires Valid() && Ready(i, j)
      modifies this`trace, spf, spftemp
      ensures Valid()
      ensures trace == old(trace) + [Call(CollideOp(mmap, cman), Cell(i, j))]
    {
      trace := trace + [Call(CollideOp(mmap, cman), Cell(i, j))];
    }

    /** collide_and_bound(mmap, cman, bi, ei, bj, ej): the same nested sweep
        as StreamRegion, handing mmap and cman to every cell. */
    method CollideAndBoundRegion(mmap: MultiscaleMapRef, cman: CollisionManagerRef,
                                 bi: u32, ei: u32, bj: u32, ej: u32)
      requires Valid()
      requires ei < bi || ei < 0xFFFF_FFFF
      requires forall i, j | bi <= i <= ei && bj <= j <= ej :: Ready(i, j)
      modifies this`trace, spf, spftemp
      ensures Valid()
      ensures trace == old(trace) + Calls(CollideOp(mmap, cman), RowMajor(bi, ei, bj, ej))
    {
      var op := CollideOp(mmap, cman);
      var i: u32 := bi;
      while i <= ei
        invariant bi <= i && (i <= ei + 1 || i == bi)
        invariant trace == old(trace) + Calls(op, RowMajor(bi, i - 1, bj, ej))
      {
        var j: u32 := bj;
        while j <= ej
          invariant bj <= j && (j <= ej + 1 || j == bj)
          invariant trace == old(trace) + Calls(op, RowMajor(bi, i - 1, bj, ej) + Row(i, bj, j - 1))
        {
          CollideAndBoundCell(mmap, cman, i, j);
          CallsAppend(op, RowMajor(bi, i - 1, bj, ej) + Row(i, bj, j - 1), [Cell(i, j)]);
          j := j + 1;
        }
        i := i + 1;
      }
    }

    /** collide_and_bound(mmap, cman): the whole grid, each cell once. */
    method CollideAndBoundAll(mmap: MultiscaleMapRef, cman: CollisionManagerRef)
      requires Valid() && AllReady()
      modifies this`trace, spf, spftemp
      ensures Valid()
      ensures trace == old(trace) + Calls(CollideOp(mmap, cman), GridCells(ni, nj))
    {
      if ni >= 1 && nj >= 1 {
        CollideAndBoundRegion(mmap, cman, 0, ni - 1, 0, nj - 1);
      }
    }
  }
}
