/** Facts about division and remainder that the chunk addressing rests on. */
module Arithmetic {

  /** A multiple of `n` strictly between -n and n is zero. */
  lemma SmallMultiple(d: int, n: nat)
    requires 0 < d * n + n && d * n < n
    ensures d == 0
  {
  }

  /** Quotient and remainder are determined by any decomposition. */
  lemma Decompose(x: nat, q: nat, r: nat, c: nat)
    requires 0 < c && r < c && x == q * c + r
    ensures x / c == q && x % c == r
  {
    assert (x / c - q) * c == r - x % c;
    SmallMultiple(x / c - q, c);
  }

  /** Two numbers less than `n` apart with the same remainder are equal. */
  lemma SameRemainder(a: nat, b: nat, n: nat)
    requires 0 < n && a < b + n && b < a + n
    requires a % n == b % n
    ensures a == b
  {
    assert (b / n - a / n) * n == b - a;
    SmallMultiple(b / n - a / n, n);
  }

  lemma DivisionDetermines(a: nat, b: nat, c: nat)
    requires 0 < c && a / c == b / c && a % c == b % c
    ensures a == b
  {
    assert a == a / c * c + a % c;
  }

  lemma QuotientIs(x: nat, q: nat, c: nat)
    requires 0 < c
    ensures x / c == q <==> q * c <= x < (q + 1) * c
  {
    assert (q + 1) * c == q * c + c;
    if q * c <= x < (q + 1) * c {
      Decompose(x, q, x - q * c, c);
    }
  }

  lemma QuotientBelow(r: nat, w: nat, c: nat)
    requires 0 < c && r < w * c
    ensures r / c < w
  {
  }

  lemma Distribute(q: nat, w: nat, k: nat, c: nat)
    ensures q * (w * c) + k * c == (q * w + k) * c
  {
    assert q * (w * c) == (q * w) * c;
  }

  /** The block number inside a ring of `w` blocks of `c` is the block number modulo `w`. */
  lemma NestedQuotient(e: nat, n: nat, w: nat, c: nat)
    requires 0 < w && 0 < c && n == w * c && 0 < n
    ensures e % n / c == e / c % w < w
  {
    var q, r := e / n, e % n;
    var k := r / c;
    QuotientBelow(r, w, c);
    assert e == q * n + r && r == k * c + r % c;
    Distribute(q, w, k, c);
    Decompose(e, q * w + k, r % c, c);
    Decompose(e / c, q, k, w);
  }

  /** Reducing modulo a multiple of `c` first does not change the remainder modulo `c`. */
  lemma RemainderOfMultiple(e: nat, n: nat, w: nat, c: nat)
    requires 0 < c && 0 < n && n == w * c
    ensures e % n % c == e % c
  {
    var q, r := e / n, e % n;
    Distribute(q, w, r / c, c);
    Decompose(e, q * w + r / c, r % c, c);
  }

  /** Stepping forward stays in the block or enters the next one at its first element. */
  lemma NextBlock(e: nat, c: nat)
    requires 0 < c
    ensures (e + 1) / c == e / c || ((e + 1) / c == e / c + 1 && (e + 1) / c * c == e + 1)
  {
    if e % c + 1 < c {
      Decompose(e + 1, e / c, e % c + 1, c);
    } else {
      Decompose(e + 1, e / c + 1, 0, c);
    }
  }

  /** Consecutive numbers agree modulo `w` only when `w` is one. */
  lemma ConsecutiveRemainders(b: nat, w: nat)
    requires 0 < w
    ensures b % w == (b + 1) % w <==> w == 1
  {
    if w != 1 && b % w == (b + 1) % w {
      SameRemainder(b, b + 1, w);
    }
  }

  /** Row-major indexing is in bounds. */
  lemma RowMajorBound(row: nat, col: nat, height: nat, width: nat)
    requires row < height && col < width
    ensures row * width + col < height * width
  {
    assert (row + 1) * width <= height * width;
    assert (row + 1) * width == row * width + width;
  }

  /** Row-major indexing is injective. */
  lemma RowMajorInjective(row: nat, col: nat, row': nat, col': nat, width: nat)
    requires col < width && col' < width
    requires row * width + col == row' * width + col'
    ensures row == row' && col == col'
  {
    Decompose(row * width + col, row, col, width);
    Decompose(row' * width + col', row', col', width);
  }
}

/** The slasher configuration and its chunk addressing. */
module Configuration {
  import opened Types
  import opened Subsequences
  import Arithmetic

  const MAX_HISTORY_LENGTH: nat := 65536

  datatype Config = Config(chunkSize: nat, validatorChunkSize: nat, historyLength: nat, maxDbSizeMbs: nat) {

    function Validate(): (r: Outcome)
      ensures r.Pass? <==> 0 < chunkSize && 0 < validatorChunkSize && 0 < historyLength <= MAX_HISTORY_LENGTH
                           && 0 < maxDbSizeMbs && historyLength % chunkSize == 0
      ensures r == Fail(ConfigInvalidZeroParameter) <==> 0 in {chunkSize, validatorChunkSize, historyLength, maxDbSizeMbs}
      ensures r.Fail? && r.error.ConfigInvalidHistoryLength? ==> 0 < chunkSize && MAX_HISTORY_LENGTH < historyLength && historyLength % chunkSize == 0
    {
      if chunkSize == 0 || validatorChunkSize == 0 || historyLength == 0 || maxDbSizeMbs == 0 then
        Fail(ConfigInvalidZeroParameter)
      else if historyLength % chunkSize != 0 then
        Fail(ConfigInvalidChunkSize(chunkSize, historyLength))
      else if historyLength > MAX_HISTORY_LENGTH then
        Fail(ConfigInvalidHistoryLength(historyLength))
      else
        Pass
    }

    predicate Valid() {
      Validate().Pass?
    }

    /** The number of chunks in one validator chunk's row. */
    function Width(): nat
      requires chunkSize != 0
    {
      historyLength / chunkSize
    }

    function ChunkIndex(e: Epoch): (i: nat)
      requires Valid()
      ensures i < Width()
    {
      assert historyLength == Width() * chunkSize;
      Arithmetic.NestedQuotient(e, historyLength, Width(), chunkSize);
      e % historyLength / chunkSize
    }

    function ValidatorChunkIndex(v: Validator): nat
      requires Valid()
    {
      v / validatorChunkSize
    }

    function ChunkOffset(e: Epoch): nat
      requires Valid()
    {
      e % chunkSize
    }

    function ValidatorOffset(v: Validator): nat
      requires Valid()
    {
      v % validatorChunkSize
    }

    function DiskKey(validatorChunk: nat, chunkIndex: nat): nat
      requires Valid()
    {
      validatorChunk * Width() + chunkIndex
    }

    function CellIndex(validatorOffset: nat, chunkOffset: nat): nat
      requires Valid()
    {
      validatorOffset * chunkSize + chunkOffset
    }

    /** The index into a chunk's data of the cell for `v` and `e`. */
    function Cell(v: Validator, e: Epoch): (cell: nat)
      requires Valid()
      ensures cell < ChunkLength()
    {
      Arithmetic.RowMajorBound(ValidatorOffset(v), ChunkOffset(e), validatorChunkSize, chunkSize);
      CellIndex(ValidatorOffset(v), ChunkOffset(e))
    }

    function ChunkLength(): nat {
      chunkSize * validatorChunkSize
    }

    predicate InChunk(v: Validator, validatorChunk: nat)
      requires Valid()
    {
      ValidatorChunkIndex(v) == validatorChunk
    }

    /** The validators of one chunk are a contiguous range with distinct offsets. */
    lemma ChunkRange(v: Validator, validatorChunk: nat)
      requires Valid()
      ensures InChunk(v, validatorChunk) <==>
                validatorChunk * validatorChunkSize <= v < (validatorChunk + 1) * validatorChunkSize
    {
      Arithmetic.QuotientIs(v, validatorChunk, validatorChunkSize);
    }

    lemma OffsetsDistinct(v: Validator, w: Validator)
      requires Valid() && v != w && ValidatorChunkIndex(v) == ValidatorChunkIndex(w)
      ensures ValidatorOffset(v) != ValidatorOffset(w)
    {
      if ValidatorOffset(v) == ValidatorOffset(w) {
        Arithmetic.DivisionDetermines(v, w, validatorChunkSize);
      }
    }

    function AttestingValidatorsInChunk(indices: seq<Validator>, validatorChunk: nat): (r: seq<Validator>)
      requires Valid()
      ensures forall v :: v in r <==> v in indices && InChunk(v, validatorChunk)
    {
      if indices == [] then []
      else
        var rest := AttestingValidatorsInChunk(indices[..|indices| - 1], validatorChunk);
        var last := indices[|indices| - 1];
        assert indices == indices[..|indices| - 1] + [last];
        if InChunk(last, validatorChunk) then rest + [last] else rest
    }

    /** The attesters of the chunk keep the order of the attestation and none is taken twice. */
    lemma {:induction false} AttestingValidatorsInOrder(indices: seq<Validator>, validatorChunk: nat) returns (picks: seq<nat>)
      requires Valid()
      ensures PickedFrom(indices, AttestingValidatorsInChunk(indices, validatorChunk), picks)
      ensures forall k :: 0 <= k < |indices| ==> (k in picks <==> InChunk(indices[k], validatorChunk))
    {
      picks := [];
      if indices != [] {
        var init, last := indices[..|indices| - 1], indices[|indices| - 1];
        picks := AttestingValidatorsInOrder(init, validatorChunk);
        assert indices == init + [last];
        PickNext(init, AttestingValidatorsInChunk(init, validatorChunk), picks, last);
        if InChunk(last, validatorChunk) {
          picks := picks + [|init|];
        }
      }
    }

    /** A row of chunks repeats every `Width()` blocks of `chunkSize` epochs. */
    lemma ChunkIndexIsBlock(e: Epoch)
      requires Valid()
      ensures 0 < Width()
      ensures ChunkIndex(e) == e / chunkSize % Width() < Width()
    {
      assert historyLength == Width() * chunkSize;
      Arithmetic.NestedQuotient(e, historyLength, Width(), chunkSize);
    }

    /**
     * Chunk addressing is a bijection onto validator x (epoch mod history length): two
     * (validator, epoch) pairs share a disk key and a cell exactly when they are the same
     * validator and the epochs agree modulo the history length.
     */
    lemma AddressInjective(v: Validator, e: Epoch, v': Validator, e': Epoch)
      requires Valid()
      ensures (DiskKey(ValidatorChunkIndex(v), ChunkIndex(e)) == DiskKey(ValidatorChunkIndex(v'), ChunkIndex(e'))
               && Cell(v, e) == Cell(v', e'))
              <==> (v == v' && e % historyLength == e' % historyLength)
    {
      if v == v' && e % historyLength == e' % historyLength {
        SlotDeterminesAddress(e, e');
      }
      if DiskKey(ValidatorChunkIndex(v), ChunkIndex(e)) == DiskKey(ValidatorChunkIndex(v'), ChunkIndex(e'))
         && Cell(v, e) == Cell(v', e')
      {
        DiskKeyDeterminesChunk(ValidatorChunkIndex(v), e, ValidatorChunkIndex(v'), e');
        CellDeterminesOffsets(v, e, v', e');
        AddressDeterminesSlot(e, e');
        Arithmetic.DivisionDetermines(v, v', validatorChunkSize);
      }
    }

    lemma DiskKeyDeterminesChunk(row: nat, e: Epoch, row': nat, e': Epoch)
      requires Valid()
      requires DiskKey(row, ChunkIndex(e)) == DiskKey(row', ChunkIndex(e'))
      ensures row == row' && ChunkIndex(e) == ChunkIndex(e')
    {
      ChunkIndexIsBlock(e);
      ChunkIndexIsBlock(e');
      Arithmetic.RowMajorInjective(row, ChunkIndex(e), row', ChunkIndex(e'), Width());
    }

    lemma CellDeterminesOffsets(v: Validator, e: Epoch, v': Validator, e': Epoch)
      requires Valid()
      requires Cell(v, e) == Cell(v', e')
      ensures ValidatorOffset(v) == ValidatorOffset(v') && ChunkOffset(e) == ChunkOffset(e')
    {
      Arithmetic.RowMajorInjective(ValidatorOffset(v), ChunkOffset(e), ValidatorOffset(v'), ChunkOffset(e'), chunkSize);
    }

    lemma SlotDeterminesAddress(e: Epoch, e': Epoch)
      requires Valid()
      requires e % historyLength == e' % historyLength
      ensures ChunkIndex(e) == ChunkIndex(e') && ChunkOffset(e) == ChunkOffset(e')
    {
      Arithmetic.RemainderOfMultiple(e, historyLength, Width(), chunkSize);
      Arithmetic.RemainderOfMultiple(e', historyLength, Width(), chunkSize);
    }

    lemma AddressDeterminesSlot(e: Epoch, e': Epoch)
      requires Valid()
      requires ChunkIndex(e) == ChunkIndex(e') && ChunkOffset(e) == ChunkOffset(e')
      ensures e % historyLength == e' % historyLength
    {
      Arithmetic.RemainderOfMultiple(e, historyLength, Width(), chunkSize);
      Arithmetic.RemainderOfMultiple(e', historyLength, Width(), chunkSize);
      Arithmetic.DivisionDetermines(e % historyLength, e' % historyLength, chunkSize);
    }

    /** Distinct epochs of one window never share a cell. */
    lemma WindowCellsDistinct(e: Epoch, e': Epoch)
      requires Valid()
      requires e != e' && e < e' + historyLength && e' < e + historyLength
      requires ChunkIndex(e) == ChunkIndex(e')
      ensures ChunkOffset(e) != ChunkOffset(e')
    {
      if ChunkOffset(e) == ChunkOffset(e') {
        AddressDeterminesSlot(e, e');
        Arithmetic.SameRemainder(e, e', historyLength);
      }
    }

    /** The epochs the arrays cover while the clock is at `current`. */
    predicate InWindow(e: int, current: Epoch) {
      0 <= e <= current < e + historyLength
    }

    /** No other validator of the row uses a cell of `v`. */
    lemma CellIsOwn(v: Validator, e: Epoch)
      requires Valid()
      ensures forall v', e' :: ValidatorOffset(v') != ValidatorOffset(v) ==> Cell(v', e') != Cell(v, e)
    {
      forall v', e' | Cell(v', e') == Cell(v, e) ensures ValidatorOffset(v') == ValidatorOffset(v) {
        CellDeterminesOffsets(v, e, v', e');
      }
    }

    /** No other epoch of the window uses the cell of `e`. */
    lemma CellIsUnique(v: Validator, e: Epoch, current: Epoch)
      requires Valid() && InWindow(e, current)
      ensures forall e': Epoch {:trigger Cell(v, e')} ::
                InWindow(e', current) && e' != e && ChunkIndex(e') == ChunkIndex(e) ==> Cell(v, e') != Cell(v, e)
    {
      forall e': Epoch | InWindow(e', current) && e' != e && ChunkIndex(e') == ChunkIndex(e)
        ensures Cell(v, e') != Cell(v, e)
      {
        WindowCellsDistinct(e, e');
        if Cell(v, e') == Cell(v, e) {
          CellDeterminesOffsets(v, e, v, e');
        }
      }
    }

    /** Both epochs lie in one block of `chunkSize` epochs, or the whole window is a single chunk. */
    ghost predicate SameStretch(e: Epoch, e': Epoch)
      requires Valid()
    {
      e / chunkSize == e' / chunkSize || Width() == 1
    }

    /** Neighbouring epochs of one chunk are in one stretch. */
    lemma StretchStep(e: Epoch, start: Epoch)
      requires Valid() && ChunkIndex(e) == ChunkIndex(e + 1)
      ensures SameStretch(e, start) <==> SameStretch(e + 1, start)
    {
      ChunkStep(e);
    }

    /** Where neighbouring epochs are in different chunks, the later one begins a block. */
    lemma StretchEnd(e: Epoch, start: Epoch)
      requires Valid() && ChunkIndex(e) != ChunkIndex(e + 1)
      ensures SameStretch(e + 1, start) ==> e + 1 == start / chunkSize * chunkSize
      ensures SameStretch(e, start) ==> e + 1 == (start / chunkSize + 1) * chunkSize
    {
      ChunkStep(e);
    }

    lemma ChunkStep(e: Epoch)
      requires Valid()
      ensures ChunkIndex(e) == ChunkIndex(e + 1) <==> e / chunkSize == (e + 1) / chunkSize || Width() == 1
      ensures e / chunkSize != (e + 1) / chunkSize ==>
                (e + 1) / chunkSize == e / chunkSize + 1 && (e + 1) / chunkSize * chunkSize == e + 1
    {
      ChunkIndexIsBlock(e);
      ChunkIndexIsBlock(e + 1);
      Arithmetic.NextBlock(e, chunkSize);
      Arithmetic.ConsecutiveRemainders(e / chunkSize, Width());
    }
  }
}
