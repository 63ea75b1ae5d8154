/** Where the populations of cell (i, j) live in the two flat buffers, and
    where its descriptor handle lives in the descriptor table. The header's
    index expressions are evaluated in unsigned arithmetic, so each of their
    products and sums is wrapped the way the compiled code wraps it; only a
    pointer offset, such as pf_(i, j) + k, is added without wrap-around. */
module Layout {
  import opened Machine

  /** The constructor's size expressions ni*nj and ni*nj*num_k() do not wrap. */
  predicate SizesFit(ni: u32, nj: u32) {
    ni * nj * 9 < TWO_32
  }

  /** ni * nj * num_k(): the length both population buffers are allocated with. */
  function BufferLength(ni: u32, nj: u32): u32 {
    Wrap(Wrap(ni * nj) * 9)
  }

  /** ni * nj: the length of the descriptor table. */
  function TableLength(ni: u32, nj: u32): u32 {
    Wrap(ni * nj)
  }

  /** (i * nj_ + j) * num_k(): the address pf_(i, j) and pft_(i, j) point to. */
  function CellBase(nj: u32, i: u32, j: u32): u32 {
    Wrap(Wrap(Wrap(i * nj) + j) * 9)
  }

  /** f_(i, j, k) and ft_(i, j, k): entry k of the cell's block, pf_(i, j) + k.
      The last step adds k to a pointer, so unlike the index arithmetic before
      it, it does not wrap. */
  function PrivateOffset(nj: u32, i: u32, j: u32, k: u32): nat {
    CellBase(nj, i, j) + k
  }

  /** f(i, j, k) and ftemp(i, j, k) as written: ni_ * (i * nj_ + j) + k. */
  function PublicOffset(ni: u32, nj: u32, i: u32, j: u32, k: u32): u32 {
    Wrap(Wrap(ni * Wrap(Wrap(i * nj) + j)) + k)
  }

  /** nj_ * i + j: the descriptor slot used by node_desc and set_node_desc. */
  function DescSlot(nj: u32, i: u32, j: u32): u32 {
    Wrap(Wrap(nj * i) + j)
  }

  /** The (i, j, k) that an offset into a buffer stands for, reading the
      private layout backwards. */
  function CellOf(nj: u32, o: nat): (r: (nat, nat, nat))
    requires nj > 0
  {
    (o / 9 / nj, o / 9 % nj, o % 9)
  }

  lemma MulLeft(a: int, b: int, c: int)
    requires a <= b && c >= 0
    ensures a * c <= b * c
  {
  }

  lemma DivModUnique(a: int, d: int, q: int, r: int)
    requires d > 0 && 0 <= r < d && a == q * d + r
    ensures a / d == q && a % d == r
  {
    var q', r' := a / d, a % d;
    assert a == q' * d + r';
    if q' < q {
      MulLeft(q' + 1, q, d);
    } else if q < q' {
      MulLeft(q + 1, q', d);
    }
  }

  /** For an in-bounds cell the row-major cell index i*nj + j stays below
      ni*nj, so none of the index expressions wraps. */
  lemma CellIndexInRange(ni: u32, nj: u32, i: u32, j: u32)
    requires 0 < ni && 0 < nj && SizesFit(ni, nj) && i < ni && j < nj
    ensures i * nj + j < ni * nj
    ensures (i * nj + j) * 9 + 9 <= ni * nj * 9
  {
    MulLeft(i + 1, ni, nj);
    MulLeft(i * nj + j + 1, ni * nj, 9);
  }

  /** Allocation sizes are exact when they fit. */
  lemma LengthsExact(ni: u32, nj: u32)
    requires SizesFit(ni, nj)
    ensures TableLength(ni, nj) == ni * nj
    ensures BufferLength(ni, nj) == ni * nj * 9
  {
    MulLeft(ni * nj, ni * nj * 9, 1);
  }

  /** The nine populations of an in-bounds cell occupy offsets
      (i*nj + j)*9 .. (i*nj + j)*9 + 8, all inside the buffer; the cell's
      descriptor slot is its cell index; the block starts at nine times it. */
  lemma {:induction false} PrivateOffsetInRange(ni: u32, nj: u32, i: u32, j: u32, k: u32)
    requires 0 < ni && 0 < nj && SizesFit(ni, nj) && i < ni && j < nj && k < 9
    ensures PrivateOffset(nj, i, j, k) == (i * nj + j) * 9 + k < BufferLength(ni, nj)
    ensures DescSlot(nj, i, j) == i * nj + j < TableLength(ni, nj)
    ensures PrivateOffset(nj, i, j, k) == DescSlot(nj, i, j) * 9 + k
  {
    CellIndexInRange(ni, nj, i, j);
    LengthsExact(ni, nj);
    var c := i * nj + j;
    assert 0 <= i * nj <= c;
    assert Wrap(i * nj) == i * nj;
    assert Wrap(i * nj + j) == c;
    assert CellBase(nj, i, j) == c * 9;
    assert nj * i == i * nj;
    assert DescSlot(nj, i, j) == c;
  }

  /** Reading an in-bounds offset backwards gives the cell and direction it
      was computed from. */
  lemma {:induction false} OffsetRoundTrip(ni: u32, nj: u32, i: u32, j: u32, k: u32)
    requires 0 < ni && 0 < nj && SizesFit(ni, nj) && i < ni && j < nj && k < 9
    ensures CellOf(nj, PrivateOffset(nj, i, j, k)) == (i as nat, j as nat, k as nat)
  {
    PrivateOffsetInRange(ni, nj, i, j, k);
    var o := PrivateOffset(nj, i, j, k);
    DivModUnique(o, 9, i * nj + j, k);
    DivModUnique(i * nj + j, nj, i, j);
  }

  /** Distinct (i, j, k) have distinct offsets: no two populations share a slot. */
  lemma PrivateOffsetInjective(ni: u32, nj: u32, i: u32, j: u32, k: u32, i': u32, j': u32, k': u32)
    requires 0 < ni && 0 < nj && SizesFit(ni, nj)
    requires i < ni && j < nj && k < 9 && i' < ni && j' < nj && k' < 9
    requires PrivateOffset(nj, i, j, k) == PrivateOffset(nj, i', j', k')
    ensures i == i' && j == j' && k == k'
  {
    OffsetRoundTrip(ni, nj, i, j, k);
    OffsetRoundTrip(ni, nj, i', j', k');
  }

  /** Every buffer offset belongs to exactly one in-bounds (i, j, k): the
      private layout is onto. */
  lemma {:induction false} OffsetOnto(ni: u32, nj: u32, o: nat)
    requires SizesFit(ni, nj) && o < BufferLength(ni, nj)
    ensures nj > 0
    ensures var (i, j, k) := CellOf(nj, o);
      i < ni && j < nj && k < 9 && PrivateOffset(nj, i, j, k) == o
  {
    LengthsExact(ni, nj);
    var c := o / 9;
    var (i, j, k) := CellOf(nj, o);
    assert o == c * 9 + k;
    assert c == i * nj + j;
    if i >= ni {
      MulLeft(ni, i, nj);
      MulLeft(ni * nj, c, 9);
    }
    PrivateOffsetInRange(ni, nj, i, j, k);
  }

  /** Descriptor slots of distinct in-bounds cells are distinct. */
  lemma DescSlotInjective(ni: u32, nj: u32, i: u32, j: u32, i': u32, j': u32)
    requires 0 < ni && 0 < nj && SizesFit(ni, nj) && i < ni && j < nj && i' < ni && j' < nj
    requires DescSlot(nj, i, j) == DescSlot(nj, i', j')
    ensures i == i' && j == j'
  {
    PrivateOffsetInRange(ni, nj, i, j, 0);
    PrivateOffsetInRange(ni, nj, i', j', 0);
    PrivateOffsetInjective(ni, nj, i, j, 0, i', j', 0);
  }

  /** The public accessors agree with the private layout on every in-bounds
      (i, j, k) exactly when ni == 9 (given a grid of at least two cells). */
  lemma {:induction false} PublicAgreesOnlyForNine(ni: u32, nj: u32)
    requires SizesFit(ni, nj) && ni * nj >= 2
    ensures (forall i: u32, j: u32, k: u32 | i < ni && j < nj && k < 9 ::
               PublicOffset(ni, nj, i, j, k) == PrivateOffset(nj, i, j, k))
            <==> ni == 9
  {
    if ni == 9 {
      forall i: u32, j: u32, k: u32 | i < ni && j < nj && k < 9
        ensures PublicOffset(ni, nj, i, j, k) == PrivateOffset(nj, i, j, k)
      {
        PublicMatchesPrivateForNine(ni, nj, i, j, k);
      }
    } else {
      var i: u32, j: u32 := if nj >= 2 then 0 else 1, if nj >= 2 then 1 else 0;
      if nj < 2 {
        assert nj == 1;
      }
      PrivateOffsetInRange(ni, nj, i, j, 0);
      assert i * nj + j == 1;
      assert PublicOffset(ni, nj, i, j, 0) == ni;
      assert PrivateOffset(nj, i, j, 0) == 9;
    }
  }

  /** A witness that the public accessors read past the buffer: on a 10 x 1
      grid, f(9, 0, 0) reads offset 90 of a 90-entry buffer. */
  lemma PublicOffsetOutOfBuffer()
    ensures SizesFit(10, 1)
    ensures PublicOffset(10, 1, 9, 0, 0) == 90 == BufferLength(10, 1)
  {
  }

  /** On an unsigned-sized grid with at least one column, ni is below 2^31
      (and likewise nj with at least one row), so such indices survive the
      conversion to `int`. */
  lemma SmallDims(ni: u32, nj: u32)
    requires SizesFit(ni, nj)
    ensures nj >= 1 ==> ni < TWO_31
    ensures ni >= 1 ==> nj < TWO_31
  {
    if nj >= 1 {
      MulLeft(1, nj, ni);
      MulLeft(ni, ni * nj, 9);
    }
    if ni >= 1 {
      MulLeft(1, ni, nj);
      MulLeft(nj, ni * nj, 9);
    }
  }

  /** With ni == 9 the public formula is the private one. */
  lemma PublicMatchesPrivateForNine(ni: u32, nj: u32, i: u32, j: u32, k: u32)
    requires SizesFit(ni, nj)
    ensures ni == 9 && i < ni && j < nj && k < 9 ==>
              PublicOffset(ni, nj, i, j, k) == PrivateOffset(nj, i, j, k) < BufferLength(ni, nj)
  {
    if ni == 9 && i < ni && j < nj && k < 9 {
      PrivateOffsetInRange(ni, nj, i, j, k);
      assert Wrap(Wrap(i * nj) + j) == i * nj + j;
    }
  }
}
