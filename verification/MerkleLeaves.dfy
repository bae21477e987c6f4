/** The leaves of a state proof (src/proof/generator.rs, generate_merkle_tree): 32-byte chunks, zero-padded. */
module MerkleLeaves {
  import opened Common

  const CHUNK: nat := 32

  function Zeros(n: nat): (z: Bytes)
    ensures |z| == n && forall i :: 0 <= i < n ==> z[i] == 0
  {
    seq(n, _ => 0 as Byte)
  }

  /** A 32-byte buffer of zeros with the chunk copied to its front. */
  function Padded(chunk: Bytes): (leaf: Bytes)
    requires |chunk| <= CHUNK
    ensures |leaf| == CHUNK
  {
    chunk + Zeros(CHUNK - |chunk|)
  }

  function Leaves(data: Bytes): seq<Bytes> {
    if data == [] then []
    else if |data| <= CHUNK then [Padded(data)]
    else [Padded(data[..CHUNK])] + Leaves(data[CHUNK..])
  }

  // ----- Specification

  /** The data with zeros up to the next multiple of 32. */
  function PaddedData(data: Bytes): Bytes {
    data + Zeros((CHUNK - |data| % CHUNK) % CHUNK)
  }

  function Concat(leaves: seq<Bytes>): Bytes {
    if leaves == [] then [] else leaves[0] + Concat(leaves[1..])
  }

  /** There are as many leaves as it takes, each of 32 bytes, and end to end they are the padded data. */
  lemma {:induction false} LeavesCoverData(data: Bytes)
    ensures |Leaves(data)| == (|data| + 31) / 32
    ensures forall leaf <- Leaves(data) :: |leaf| == 32
    ensures Concat(Leaves(data)) == PaddedData(data)
    ensures Concat(Leaves(data))[..|data|] == data
    decreases |data|
  {
    if data == [] {
    } else if |data| <= CHUNK {
      assert Leaves(data)[1..] == [];
      assert Concat(Leaves(data)) == Padded(data) + [] == Padded(data);
    } else {
      var rest := data[CHUNK..];
      LeavesCoverData(rest);
      PaddingSplits(data);
      var leaf := Padded(data[..CHUNK]);
      assert leaf == data[..CHUNK];
      assert Leaves(data) == [leaf] + Leaves(rest);
      ConcatFront(leaf, Leaves(rest));
    }
    DataFirst(data);
  }

  lemma ConcatFront(leaf: Bytes, leaves: seq<Bytes>)
    ensures Concat([leaf] + leaves) == leaf + Concat(leaves)
  {
    assert ([leaf] + leaves)[1..] == leaves;
  }

  lemma DataFirst(data: Bytes)
    ensures PaddedData(data)[..|data|] == data
  {
  }

  lemma PaddingSplits(data: Bytes)
    requires |data| > CHUNK
    ensures PaddedData(data) == data[..CHUNK] + PaddedData(data[CHUNK..])
  {
    var rest := data[CHUNK..];
    assert |data| % CHUNK == |rest| % CHUNK;
    var zeros := Zeros((CHUNK - |rest| % CHUNK) % CHUNK);
    assert data == data[..CHUNK] + rest;
    assert (data[..CHUNK] + rest) + zeros == data[..CHUNK] + (rest + zeros);
  }

  lemma {:induction false} EqualConcat(a: seq<Bytes>, b: seq<Bytes>)
    requires forall leaf <- a :: |leaf| == CHUNK
    requires forall leaf <- b :: |leaf| == CHUNK
    requires Concat(a) == Concat(b)
    ensures a == b
  {
    assert b != [] ==> |b[0]| == CHUNK;
    if a != [] {
      assert |a[0]| == CHUNK;
      assert a[0] == Concat(a)[..CHUNK] == Concat(b)[..CHUNK] == b[0];
      assert Concat(a[1..]) == Concat(a)[CHUNK..] == Concat(b)[CHUNK..] == Concat(b[1..]);
      EqualConcat(a[1..], b[1..]);
    }
  }

  /** Byte `j` of leaf `i` is byte 32 * i + j of the data, or zero behind its end. */
  lemma {:induction false} LeafBytes(data: Bytes, i: nat, j: nat)
    requires i < |Leaves(data)| && j < 32
    ensures |Leaves(data)[i]| == 32
    ensures Leaves(data)[i][j] == if 32 * i + j < |data| then data[32 * i + j] else 0
    decreases |data|
  {
    if i > 0 {
      LeafBytes(data[CHUNK..], i - 1, j);
    }
  }

  /** Two inputs give the same leaves if and only if they are equal after padding. */
  lemma SameLeavesExactly(a: Bytes, b: Bytes)
    ensures Leaves(a) == Leaves(b) <==> PaddedData(a) == PaddedData(b)
  {
    LeavesCoverData(a);
    LeavesCoverData(b);
    if PaddedData(a) == PaddedData(b) {
      EqualConcat(Leaves(a), Leaves(b));
    }
  }
}
