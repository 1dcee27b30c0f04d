/** The size a stream advertises: RoundUp in netserve/transcipher.go, GetPackSize and
    CalcStreamSize in netserve/context.go. A stream of `size` bytes goes out in chunks of
    `packsize` bytes, each padded and encrypted by itself. */
module StreamSize {
  import opened Division
  import opened Padding

  function RoundUp(size: nat, bound: nat): nat
    requires bound > 0
  {
    (size + bound - 1) / bound * bound
  }

  /** The size of the next chunk when `left` bytes are yet to go out. */
  function ChunkSize(left: nat, packsize: nat): (d: nat)
    ensures d <= packsize && d <= left
    ensures packsize > 0 && left > 0 ==> d > 0
  {
    if left > packsize then packsize else left
  }

  /** GetPackSize: the size of the chunk at offset n, before and after padding. */
  function GetPackSize(size: nat, packsize: nat, n: nat, blockSize: nat): (nat, nat)
    requires n <= size && blockSize > 0
  {
    var d := if size - n > packsize then packsize else size - n;
    var p := RoundUp(d, blockSize);
    (d, if p == d then p + blockSize else p)
  }

  /** What GetPackSize promises is what PKCS#7 padding makes of the chunk. */
  lemma PackSizeIsPadded(size: nat, packsize: nat, n: nat, blockSize: nat)
    requires n <= size && blockSize > 0
    ensures var (d, p) := GetPackSize(size, packsize, n, blockSize);
      d == ChunkSize(size - n, packsize) && p == d + PadLen(d, blockSize)
  {
    var d := ChunkSize(size - n, packsize);
    DivMod(d, blockSize);
    var q, r := d / blockSize, d % blockSize;
    if r == 0 {
      DivUnique(d + blockSize - 1, blockSize, q, blockSize - 1);
    } else {
      assert (q + 1) * blockSize == q * blockSize + blockSize;
      DivUnique(d + blockSize - 1, blockSize, q + 1, r - 1);
    }
  }

  /** The size a chunk of d bytes has when it goes out. */
  function PieceSize(blockSize: nat): nat -> nat
    requires blockSize > 0
  {
    (d: nat) => d + PadLen(d, blockSize)
  }

  /** The pieces the last `left` bytes go out in, added up. */
  function PiecesTotal(left: nat, packsize: nat, piece: nat -> nat): nat
    requires packsize > 0
  {
    if left == 0 then 0
    else
      var d := ChunkSize(left, packsize);
      piece(d) + PiecesTotal(left - d, packsize, piece)
  }

  lemma PiecesStep(left: nat, packsize: nat, piece: nat -> nat)
    requires packsize > 0 && left > 0
    ensures var d := ChunkSize(left, packsize);
      PiecesTotal(left, packsize, piece) == piece(d) + PiecesTotal(left - d, packsize, piece)
  {
  }

  method CalcStreamSize(size: nat, packsize: nat, blockSize: nat) returns (total: nat)
    requires packsize > 0 && blockSize > 0
    ensures total == PiecesTotal(size, packsize, PieceSize(blockSize))
  {
    var n: nat := 0;
    total := 0;
    ghost var piece := PieceSize(blockSize);
    while n < size
      invariant n <= size
      invariant total + PiecesTotal(size - n, packsize, piece) == PiecesTotal(size, packsize, piece)
    {
      PackSizeIsPadded(size, packsize, n, blockSize);
      var (d, p) := GetPackSize(size, packsize, n, blockSize);
      assert p == piece(d);
      total := total + p;
      n := n + d;
    }
  }

  function PaddedSize(d: nat, blockSize: nat): int
    requires blockSize > 0
  {
    (d / blockSize + 1) * blockSize
  }

  lemma PaddedSizeIs(d: nat, blockSize: nat)
    requires blockSize > 0
    ensures PaddedSize(d, blockSize) == d + PadLen(d, blockSize)
  {
  }

  /** The closed form: whole chunks, and what is left over. */
  function Closed(size: nat, packsize: nat, blockSize: nat): int
    requires packsize > 0 && blockSize > 0
  {
    size / packsize * PaddedSize(packsize, blockSize)
    + if size % packsize == 0 then 0 else PaddedSize(size % packsize, blockSize)
  }

  lemma ClosedStep(size: nat, packsize: nat, blockSize: nat)
    requires 0 < packsize <= size && blockSize > 0
    ensures Closed(size, packsize, blockSize)
      == PaddedSize(packsize, blockSize) + Closed(size - packsize, packsize, blockSize)
  {
    AddMultiple(size, -1, packsize);
    MulSub(size / packsize, 1, PaddedSize(packsize, blockSize));
  }

  lemma ClosedShort(size: nat, packsize: nat, blockSize: nat)
    requires size < packsize && blockSize > 0
    ensures Closed(size, packsize, blockSize) == if size == 0 then 0 else PaddedSize(size, blockSize)
  {
    DivUnique(size, packsize, 0, size);
  }

  /** The advertised size equals its closed form. */
  lemma {:induction false} StreamSizeIsClosed(size: nat, packsize: nat, blockSize: nat)
    requires packsize > 0 && blockSize > 0
    ensures PiecesTotal(size, packsize, PieceSize(blockSize)) == Closed(size, packsize, blockSize)
  {
    if size < packsize {
      ClosedShort(size, packsize, blockSize);
      PaddedSizeIs(size, blockSize);
    } else {
      PaddedSizeIs(packsize, blockSize);
      StreamSizeIsClosed(size - packsize, packsize, blockSize);
      ClosedStep(size, packsize, blockSize);
    }
  }
}
