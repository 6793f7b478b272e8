/** The hashing interface of the crypto library: one BLAKE3 hasher that is reset,
    fed in any number of pieces and finalized to a 32-byte digest. */
module CryptoHash {
  import opened Bytes
  import opened Bits
  import opened Blake3Spec
  import opened Blake3Hasher

  type Digest = d: Bytes | |d| == 32 witness seq(32, i => 0)

  /** The digest of a byte string, by the tree definition. */
  function DigestOf(m: Mode, data: Bytes): Digest {
    Hash(m, data, 0, 32)
  }

  lemma DigestIs(m: Mode, data: Bytes)
    ensures DigestOf(m, data) == Hash(m, data, 0, 32)
  {
  }

  function Flatten(pieces: seq<Bytes>): Bytes {
    if pieces == [] then [] else Flatten(pieces[..|pieces| - 1]) + pieces[|pieces| - 1]
  }

  lemma {:induction false} FlattenConcat(xs: seq<Bytes>, ys: seq<Bytes>)
    ensures Flatten([]) == [] && Flatten(xs + ys) == Flatten(xs) + Flatten(ys)
    ensures |ys| == 1 ==> Flatten(ys) == ys[0]
    decreases |ys|
  {
    if ys == [] {
      assert xs + ys == xs;
    } else {
      var n, all := |ys| - 1, xs + ys;
      FlattenConcat(xs, ys[..n]);
      assert all[..|all| - 1] == xs + ys[..n] && all[|all| - 1] == ys[n];
    }
  }

  lemma {:induction false} FlattenPrefix(pieces: seq<Bytes>, k: nat)
    requires k <= |pieces|
    ensures |Flatten(pieces[..k])| <= |Flatten(pieces)|
    decreases |pieces|
  {
    if k < |pieces| {
      var init := pieces[..|pieces| - 1];
      assert init[..k] == pieces[..k];
      FlattenPrefix(init, k);
    } else {
      assert pieces[..k] == pieces;
    }
  }

  method HasherFinalize(hasher: Hasher) returns (out: Digest)
    requires hasher.Valid()
    ensures hasher.Valid() && out == DigestOf(hasher.M(), hasher.input)
  {
    hide TreeOutput, RootBytes, Pow2;
    var buffer := new Byte[32];
    hasher.Finalize(buffer);
    out := buffer[..];
  }

  /** Hashing in pieces is hashing the concatenation, for every way of cutting the input. */
  method HashPieces(hasher: Hasher, pieces: seq<Bytes>) returns (out: Digest)
    requires hasher.Valid() && |Flatten(pieces)| < Pow2(64)
    modifies hasher, hasher.chunk, hasher.chunk.buf, hasher.cvStack
    ensures hasher.Valid() && hasher.M() == old(hasher.M())
    ensures out == DigestOf(hasher.M(), Flatten(pieces))
  {
    hide DigestOf, Pow2, Flatten, Hasher.Valid;
    hasher.Reset();
    FlattenConcat([], []);
    for k := 0 to |pieces|
      invariant hasher.Valid() && hasher.M() == old(hasher.M())
      invariant hasher.input == Flatten(pieces[..k])
    {
      FlattenPrefix(pieces, k + 1);
      assert pieces[..k + 1] == pieces[..k] + [pieces[k]];
      FlattenConcat(pieces[..k], [pieces[k]]);
      hasher.Update(pieces[k]);
    }
    assert pieces[..|pieces|] == pieces;
    out := HasherFinalize(hasher);
  }

  method HashBytes(hasher: Hasher, data: Bytes) returns (out: Digest)
    requires hasher.Valid() && |data| < Pow2(64)
    modifies hasher, hasher.chunk, hasher.chunk.buf, hasher.cvStack
    ensures hasher.Valid() && hasher.M() == old(hasher.M())
    ensures out == DigestOf(hasher.M(), data) == Hash(hasher.M(), data, 0, 32)
  {
    DigestIs(hasher.M(), data);
    hide DigestOf, Pow2, Hash;
    hasher.Reset();
    hasher.Update(data);
    assert hasher.input == data;
    out := HasherFinalize(hasher);
  }
}
