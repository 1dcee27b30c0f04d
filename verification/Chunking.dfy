/** Sending data in chunks, over any operation that writes one chunk: the shape of a stream
    that follows GetPackSize in netserve/context.go. */
module Chunking {
  import opened Bytes
  import opened Outcomes
  import opened StreamSize

  type Write<!C> = (C, seq<byte>) -> Result<(C, seq<byte>)>

  /** The size of what goes out for a chunk of a given size. */
  type Piece = nat -> nat

  type Decode = seq<byte> -> Option<seq<byte>>

  /** Writing the data chunk by chunk: the state after, and what went out. */
  function WriteChunks<C>(write: Write<C>, packsize: nat, ctx: C, data: seq<byte>): Result<(C, seq<byte>)>
    requires packsize > 0
    decreases |data|
  {
    if data == [] then Returned((ctx, []))
    else
      var d := ChunkSize(|data|, packsize);
      match write(ctx, data[..d])
      case Panicked => Panicked
      case Returned((next, out)) =>
        match WriteChunks(write, packsize, next, data[d..])
        case Panicked => Panicked
        case Returned((last, more)) => Returned((last, out + more))
  }

  /** What a peer that expects `left` bytes makes of `s` from position `at` on: cut, decode
      each chunk, put together. */
  function ReadChunks(decode: Decode, piece: Piece, packsize: nat, left: nat, s: seq<byte>, at: nat): Option<seq<byte>>
    requires packsize > 0 && at <= |s|
    decreases left
  {
    if left == 0 then (if at == |s| then Some([]) else None)
    else
      var d := ChunkSize(left, packsize);
      var p := piece(d);
      if at + p > |s| then None
      else
        match decode(s[at..at + p])
        case None => None
        case Some(chunk) =>
          match ReadChunks(decode, piece, packsize, left - d, s, at + p)
          case None => None
          case Some(more) => Some(chunk + more)
  }

  /** In the state ctx, writing the chunk leaves the state alone and puts the chunk out,
      as a piece of the right size that decodes. */
  ghost predicate SteadyFor<C>(write: Write<C>, decode: Decode, piece: Piece, ctx: C, chunk: seq<byte>) {
    var r := write(ctx, chunk);
    && r.Returned? && r.value.0 == ctx
    && |r.value.1| == piece(|chunk|)
    && decode(r.value.1) == Some(chunk)
  }

  ghost predicate Steady<C(!new)>(write: Write<C>, decode: Decode, piece: Piece, ctx: C) {
    forall chunk: seq<byte> | chunk != [] :: SteadyFor(write, decode, piece, ctx, chunk)
  }

  lemma WriteChunksStep<C>(
    write: Write<C>, packsize: nat, ctx: C, next: C, data: seq<byte>, first: seq<byte>, last: C, more: seq<byte>)
    requires packsize > 0 && data != []
    requires write(ctx, data[..ChunkSize(|data|, packsize)]) == Returned((next, first))
    requires WriteChunks(write, packsize, next, data[ChunkSize(|data|, packsize)..]) == Returned((last, more))
    ensures WriteChunks(write, packsize, ctx, data) == Returned((last, first + more))
  {
  }

  /** Reading does not depend on what lies before. */
  lemma {:induction false} ReadChunksShift(
    decode: Decode, piece: Piece, packsize: nat, left: nat, a: seq<byte>, b: seq<byte>, at: nat)
    requires packsize > 0 && at <= |b|
    ensures ReadChunks(decode, piece, packsize, left, a + b, |a| + at)
      == ReadChunks(decode, piece, packsize, left, b, at)
    decreases left
  {
    if left > 0 {
      var d := ChunkSize(left, packsize);
      var p := piece(d);
      if at + p <= |b| {
        ReadChunksShift(decode, piece, packsize, left - d, a, b, at + p);
        assert (a + b)[|a| + at..|a| + at + p] == b[at..at + p];
      }
    }
  }

  lemma ReadChunksUnfold(
    decode: Decode, piece: Piece, packsize: nat, left: nat, d: nat, p: nat, s: seq<byte>, at: nat,
    chunk: seq<byte>, more: seq<byte>)
    requires packsize > 0 && left > 0 && d == ChunkSize(left, packsize) && p == piece(d)
    requires at + p <= |s| && decode(s[at..at + p]) == Some(chunk)
    requires ReadChunks(decode, piece, packsize, left - d, s, at + p) == Some(more)
    ensures ReadChunks(decode, piece, packsize, left, s, at) == Some(chunk + more)
  {
  }

  lemma Join(data: seq<byte>, d: nat)
    requires d <= |data|
    ensures data[..d] + data[d..] == data
  {
  }

  lemma Middle(a: seq<byte>, b: seq<byte>, at: nat)
    requires at <= |a|
    ensures (a + b)[at..|a|] == a[at..]
  {
  }

  /** A chunk that decodes, followed by a stream that reads back. */
  lemma ReadChunksStep(
    decode: Decode, piece: Piece, packsize: nat, data: seq<byte>, d: nat, a: seq<byte>, at: nat, more: seq<byte>)
    requires packsize > 0 && data != [] && at <= |a| && d == ChunkSize(|data|, packsize)
    requires |a| == at + piece(d) && decode(a[at..]) == Some(data[..d])
    requires ReadChunks(decode, piece, packsize, |data| - d, more, 0) == Some(data[d..])
    ensures ReadChunks(decode, piece, packsize, |data|, a + more, at) == Some(data)
  {
    ReadChunksShift(decode, piece, packsize, |data| - d, a, more, 0);
    Middle(a, more, at);
    ReadChunksUnfold(decode, piece, packsize, |data|, d, |a| - at, a + more, at, data[..d], data[d..]);
    Join(data, d);
  }

  /** From a steady state the chunks put out as many bytes as CalcStreamSize counts, and a
      peer that cuts and decodes them has the data back. */
  lemma {:induction false} SteadyChunks<C(!new)>(
    write: Write<C>, decode: Decode, piece: Piece, packsize: nat, ctx: C, data: seq<byte>)
    returns (out: seq<byte>)
    requires packsize > 0 && Steady(write, decode, piece, ctx)
    ensures WriteChunks(write, packsize, ctx, data) == Returned((ctx, out))
    ensures |out| == PiecesTotal(|data|, packsize, piece)
    ensures ReadChunks(decode, piece, packsize, |data|, out, 0) == Some(data)
    decreases |data|
  {
    if data == [] {
      out := [];
    } else {
      var d := ChunkSize(|data|, packsize);
      assert SteadyFor(write, decode, piece, ctx, data[..d]);
      var first := write(ctx, data[..d]).value.1;
      var more := SteadyChunks(write, decode, piece, packsize, ctx, data[d..]);
      out := first + more;
      WriteChunksStep(write, packsize, ctx, ctx, data, first, ctx, more);
      assert first[0..] == first;
      ReadChunksStep(decode, piece, packsize, data, d, first, 0, more);
    }
  }
}
