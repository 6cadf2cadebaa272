/** What the protocol promises end to end.

    With keys stored so that key i has index i, verification accepts a
    signature exactly when it is the combination of the tags of the signers
    its bitfield names and there are at least threshold of them.  Combining
    the tags of distinct signers therefore always verifies, and verification
    against a master seed is verification against the keys derived from it.
 */
module Properties {
  import opened ByteStrings
  import opened Bitfield
  import opened Multisig
  import opened Aggregate

  /* ---------------------------------------------------------------------
     Key derivation.
     --------------------------------------------------------------------- */

  function Pow256(k: nat): (p: nat)
    ensures p > 0
  {
    if k == 0 then 1 else 0x100 * Pow256(k - 1)
  }

  /** k little-endian bytes read back give the number written, when it fits. */
  lemma {:induction false} LeBytesRoundTrip(n: nat, k: nat)
    requires n < Pow256(k)
    ensures FromLe(LeBytes(n, k)) == n
  {
    if k > 0 {
      LeBytesRoundTrip(n / 0x100, k - 1);
    }
  }

  /** Four little-endian bytes read back give the number written. */
  lemma Le32RoundTrip(n: nat)
    requires n < 0x1_0000_0000
    ensures FromLe(Le32(n)) == n
  {
    assert Pow256(4) == 0x1_0000_0000;
    LeBytesRoundTrip(n, 4);
  }

  /** The index sits in bytes 7 to 10 of the derivation message. */
  lemma DerivationInputIndex(index: Index)
    ensures |DerivationInput(index)| == 12
    ensures FromLe(DerivationInput(index)[7..11]) == index as nat
  {
    assert DerivationInput(index)[7..11] == Le32(index as nat);
    Le32RoundTrip(index as nat);
  }

  /** Different indexes are derived from different messages, so the keys
      of a seed are unrelated as far as HMAC is concerned. */
  lemma DerivationInputInjective(i: Index, j: Index)
    ensures DerivationInput(i) == DerivationInput(j) <==> i == j
  {
    DerivationInputIndex(i);
    DerivationInputIndex(j);
  }

  /** Key i of a store holds index i, as keygen and deriveKey make it. */
  predicate WellIndexed(keys: seq<Key>) {
    forall i :: 0 <= i < |keys| ==> keys[i].index as nat == i
  }

  /** The keys at the listed positions hold those positions as their
      indexes.  Verification reads no other key of a store, so no other key
      needs to be in place (a store may even hold placeholders there). */
  predicate KeysAt(keys: seq<Key>, ix: seq<nat>) {
    forall k :: 0 <= k < |ix| && ix[k] < |keys| ==> keys[ix[k]].index as nat == ix[k]
  }

  /** A derived secret is two digests long: as long as the block (KEYBYTES)
      for SHA-256 and SHA-512, and 96 bytes against a 128-byte block for
      SHA-384. */
  lemma DerivedSecretLengths(inst: Instance, seed: seq<byte>, index: Index)
    requires Valid(inst)
    ensures inst.bytes == Sha256Bytes ==> |DeriveKey(inst, seed, index).secret| == Sha256KeyBytes
    ensures inst.bytes == Sha384Bytes ==> |DeriveKey(inst, seed, index).secret| == 96 < Sha384KeyBytes
    ensures inst.bytes == Sha512Bytes ==> |DeriveKey(inst, seed, index).secret| == Sha512KeyBytes
  {
  }

  /** The derived keys are stored in index order. */
  lemma DerivedKeysWellIndexed(inst: Instance, seed: seq<byte>, n: nat)
    requires n <= 32
    ensures WellIndexed(DerivedKeys(inst, seed, n))
    ensures |DerivedKeys(inst, seed, n)| == n
  {
  }

  /* ---------------------------------------------------------------------
     Combining.
     --------------------------------------------------------------------- */

  /** Combining tags of single signers succeeds exactly when no signer
      repeats; the result carries the bit of every signer and the XOR of
      the digests. */
  lemma CombineSigned(inst: Instance, tags: seq<Signature>, ix: seq<Index>)
    requires SignedBy(tags, ix)
    ensures Combine(inst, tags).Ok? <==> Distinct(ix)
    ensures Combine(inst, tags).Ok? ==> Combine(inst, tags).value == Fold(Empty(inst), tags)
    ensures Combine(inst, tags).Ok? ==>
              forall j: Index :: Bit(Combine(inst, tags).value.bitfield, j) <==> j in ix
  {
    FoldSigners(Empty(inst), tags, ix);
  }

  /** The tags the keys at the signers' own positions make carry the bits
      of those signers. */
  lemma RecomputeSignedBy(inst: Instance, keys: seq<Key>, msg: seq<byte>, ix: seq<Index>)
    requires KeysAt(keys, ix) && Below(ix, |keys|)
    ensures SignedBy(Recompute(inst, keys, msg, ix), ix)
  {
  }

  /** Every tag HMAC makes has the digest size. */
  lemma RecomputeDigests(inst: Instance, keys: seq<Key>, msg: seq<byte>, ix: seq<nat>)
    requires Valid(inst) && Below(ix, |keys|)
    ensures DigestsAtLeast(Recompute(inst, keys, msg, ix), inst.bytes)
  {
  }

  /* ---------------------------------------------------------------------
     Verification.
     --------------------------------------------------------------------- */

  /** The signature the signers named by bitfield f produce together over
      msg: the combination of their tags. */
  function Combined(inst: Instance, keys: seq<Key>, msg: seq<byte>, f: bv32): (s: Signature)
    requires Width(f, 32) <= |keys|
  {
    PositionsBelowWidth(f);
    Fold(Empty(inst), Recompute(inst, keys, msg, Positions(f, 32)))
  }

  /** When the key of every signer f names sits at its own position, the
      combination of those signers has the bitfield it was asked for and a
      digest of the digest size. */
  lemma CombinedMeaning(inst: Instance, keys: seq<Key>, msg: seq<byte>, f: bv32)
    requires Valid(inst) && KeysAt(keys, Positions(f, 32))
    requires Width(f, 32) <= |keys|
    ensures Combined(inst, keys, msg, f).bitfield == f
    ensures |Combined(inst, keys, msg, f).digest| == inst.bytes
  {
    var used := Positions(f, 32);
    PositionsMeaning(f, 32);
    PositionsBelowWidth(f);
    var tags := Recompute(inst, keys, msg, used);
    RecomputeSignedBy(inst, keys, msg, used);
    RecomputeDigests(inst, keys, msg, used);
    FoldLength(Empty(inst), tags);
    AscendingDistinct(used);
    FoldSigners(Empty(inst), tags, used);
    SameBits(Fold(Empty(inst), tags).bitfield, f);
  }

  /** Whatever the store holds, the combination of the named positions'
      tags has a digest of the digest size. */
  lemma CombinedLength(inst: Instance, keys: seq<Key>, msg: seq<byte>, f: bv32)
    requires Valid(inst)
    requires Width(f, 32) <= |keys|
    ensures |Combined(inst, keys, msg, f).digest| == inst.bytes
  {
    var used := Positions(f, 32);
    PositionsBelowWidth(f);
    RecomputeDigests(inst, keys, msg, used);
    FoldLength(Empty(inst), Recompute(inst, keys, msg, used));
  }

  /** If the combination of the named positions' tags has bitfield f, the
      key at every named position carries an index f names. */
  lemma CombinedNamesKeys(inst: Instance, keys: seq<Key>, msg: seq<byte>, f: bv32, p: nat)
    requires Width(f, 32) <= |keys|
    requires p < |keys| && Bit(f, p)
    ensures Combined(inst, keys, msg, f).bitfield == f ==> Bit(f, keys[p].index)
  {
    CombinedTracks(inst, keys, msg, f);
    if Combined(inst, keys, msg, f).bitfield == f {
      var used := Positions(f, 32);
      PositionsMeaning(f, 32);
      SetBitsBelow(f);
      assert p in used;
      var k :| 0 <= k < |used| && used[k] == p;
      NamedIndex(f, IndexesAt(keys, used), k);
    }
  }

  /** The bitfield of the combination of the named positions' tags relates
      to the indexes stored in the keys at those positions as Tracks says. */
  lemma CombinedTracks(inst: Instance, keys: seq<Key>, msg: seq<byte>, f: bv32)
    requires Width(f, 32) <= |keys|
    ensures Below(Positions(f, 32), |keys|)
    ensures Tracks(Combined(inst, keys, msg, f).bitfield, IndexesAt(keys, Positions(f, 32)))
  {
    PositionsBelowWidth(f);
    RecomputeSignedByKeys(inst, keys, msg, Positions(f, 32));
    FoldSigners(Empty(inst), Recompute(inst, keys, msg, Positions(f, 32)), IndexesAt(keys, Positions(f, 32)));
  }

  /** The indexes stored in the keys at the listed positions. */
  function IndexesAt(keys: seq<Key>, used: seq<nat>): (ix: seq<Index>)
    requires Below(used, |keys|)
    ensures |ix| == |used|
    ensures forall k :: 0 <= k < |used| ==> ix[k] == keys[used[k]].index
  {
    seq(|used|, k requires 0 <= k < |used| => keys[used[k]].index)
  }

  /** The tags of the listed positions carry the bits of their keys' indexes. */
  lemma RecomputeSignedByKeys(inst: Instance, keys: seq<Key>, msg: seq<byte>, used: seq<nat>)
    requires Below(used, |keys|)
    ensures SignedBy(Recompute(inst, keys, msg, used), IndexesAt(keys, used))
  {
  }

  /** When as many bits are set as there are signers, each signer's bit is set. */
  lemma NamedIndex(f: bv32, ix: seq<Index>, k: nat)
    requires Tracks(f, ix) && Count(f, 32) == |ix|
    requires k < |ix|
    ensures Bit(f, ix[k])
  {
    assert ix[k] in ix;
  }

  /** A named position holding the key of a signer the bitfield does not
      name makes verification fail or return false: the recomputed bits
      cannot cancel the signature's. */
  lemma MisplacedKeyRejects(inst: Instance, keys: seq<Key>, sig: Signature, data: Value, threshold: int, p: nat)
    requires Valid(inst)
    requires p < |keys| && Bit(sig.bitfield, p) && !Bit(sig.bitfield, keys[p].index)
    ensures Verify(inst, keys, sig, data, threshold) == Ok(false)
            || Verify(inst, keys, sig, data, threshold).Invalid?
  {
    if Verify(inst, keys, sig, data, threshold) == Ok(true) {
      VerifyMeaning(inst, keys, sig, data, threshold);
      CombinedNamesKeys(inst, keys, data.b, sig.bitfield, p);
    }
  }

  /** Keys listed out of order: a combination of signers 0 and 2 checked
      against the list k0, k2, k1 returns false, since position 2 holds the
      key of signer 1. */
  lemma KeysOutOfOrder(inst: Instance, k0: Key, k1: Key, k2: Key, sig: Signature, msg: seq<byte>)
    requires Valid(inst)
    requires k0.index == 0 && k1.index == 1 && k2.index == 2
    requires sig.bitfield == Single(0) ^ Single(2) && |sig.digest| == inst.bytes
    ensures Verify(inst, [k0, k2, k1], sig, Bytes(msg), 2) == Ok(false)
  {
    assert sig.bitfield == 5;
    assert Bit(sig.bitfield, 2) && !Bit(sig.bitfield, 1);
    WidthFromShift(5, 3, 32);
    MisplacedKeyRejects(inst, [k0, k2, k1], sig, Bytes(msg), 2, 2);
  }

  /** Folding one signature into another of the same digest length cancels
      exactly when the two are equal. */
  lemma CancelledIff(s: Signature, c: Signature)
    requires |s.digest| == |c.digest|
    ensures Cancelled(Absorb(s, c)) <==> s == c
  {
    if Cancelled(Absorb(s, c)) {
      MaskXorZeroIff(s.bitfield, c.bitfield);
      SumZero(Xor(s.digest, c.digest));
      XorZeroIff(s.digest, c.digest);
    }
    if s == c {
      SumZero(Xor(s.digest, c.digest));
      XorZeroIff(s.digest, c.digest);
      MaskXorZeroIff(s.bitfield, c.bitfield);
    }
  }

  lemma AscendingDistinct(xs: seq<nat>)
    requires StrictlyAscending(xs)
    ensures Distinct(xs)
  {
  }

  /** Verification with well-formed inputs returns
      false or true, never fails, and returns true exactly when there are at
      least threshold signers and the signature is their combination. */
  lemma VerifyMeaning(inst: Instance, keys: seq<Key>, sig: Signature, data: Value, threshold: int)
    requires Valid(inst)
    requires |sig.digest| == inst.bytes && data.Bytes? && threshold > 0
    requires Width(sig.bitfield, 32) <= |keys|
    ensures Verify(inst, keys, sig, data, threshold)
            == Ok(threshold <= Popcount(sig.bitfield) && sig == Combined(inst, keys, data.b, sig.bitfield))
  {
    if threshold <= Popcount(sig.bitfield) {
      var used := Positions(sig.bitfield, 32);
      PositionsBelowWidth(sig.bitfield);
      var tags := Recompute(inst, keys, data.b, used);
      var c := Combined(inst, keys, data.b, sig.bitfield);
      CombinedLength(inst, keys, data.b, sig.bitfield);
      RecomputeDigests(inst, keys, data.b, used);
      FoldFromEmpty(inst, sig, tags);
      CancelledIff(sig, c);
    }
  }

  /** Completeness: the combination of the tags of at least threshold
      distinct signers verifies against any store that holds each signer's
      key at the signer's position, whatever it holds elsewhere. */
  lemma CombineThenVerify(inst: Instance, keys: seq<Key>, msg: seq<byte>, ix: seq<Index>, threshold: int)
    requires Valid(inst) && KeysAt(keys, ix)
    requires Below(ix, |keys|) && Distinct(ix)
    requires 0 < threshold <= |ix|
    ensures Combine(inst, Recompute(inst, keys, msg, ix)).Ok?
    ensures Verify(inst, keys, Combine(inst, Recompute(inst, keys, msg, ix)).value, Bytes(msg), threshold) == Ok(true)
  {
    var tags := Recompute(inst, keys, msg, ix);
    RecomputeSignedBy(inst, keys, msg, ix);
    RecomputeDigests(inst, keys, msg, ix);
    CombineSigned(inst, tags, ix);
    var sig := Combine(inst, tags).value;
    FoldLength(Empty(inst), tags);
    WidthOfSigners(sig.bitfield, ix, |keys|);
    var used := Positions(sig.bitfield, 32);
    PositionsMeaning(sig.bitfield, 32);
    PositionsBelowWidth(sig.bitfield);
    AscendingDistinct(used);
    FoldSameSigners(inst, keys, msg, Empty(inst), used, ix);
    VerifyMeaning(inst, keys, sig, Bytes(msg), threshold);
  }

  /** A bitfield whose bits are signers below n is at most n wide. */
  lemma WidthOfSigners(f: bv32, ix: seq<Index>, n: nat)
    requires Below(ix, n)
    requires forall j: Index :: Bit(f, j) <==> j in ix
    ensures Width(f, 32) <= n
  {
    WidthMeaning(f, 32);
    if Width(f, 32) > 0 {
      var top: Index := Width(f, 32) - 1;
      assert top in ix;
    }
  }

  /** A single tag verifies against threshold 1, with any store that holds
      its key at the key's own position. */
  lemma SignThenVerify(inst: Instance, keys: seq<Key>, i: nat, msg: seq<byte>)
    requires Valid(inst)
    requires i < |keys| && keys[i].index as nat == i
    ensures Sign(inst, keys[i], Bytes(msg)).Ok?
    ensures Verify(inst, keys, Sign(inst, keys[i], Bytes(msg)).value, Bytes(msg), 1) == Ok(true)
  {
    RecomputeOne(inst, keys, msg, i);
    CombineThenVerify(inst, keys, msg, [keys[i].index], 1);
    FoldOne(inst, Tag(inst, keys[i], msg));
  }

  lemma RecomputeOne(inst: Instance, keys: seq<Key>, msg: seq<byte>, i: nat)
    requires i < |keys| && keys[i].index as nat == i
    ensures Below([keys[i].index], |keys|) && Distinct([keys[i].index])
    ensures Recompute(inst, keys, msg, [keys[i].index]) == [Tag(inst, keys[i], msg)]
  {
  }

  /** Combining one tag gives the tag back. */
  lemma FoldOne(inst: Instance, t: Signature)
    requires |t.digest| == inst.bytes
    ensures Fold(Empty(inst), [t]) == t
  {
    XorZeros(t.digest);
    MaskXorZero(t.bitfield);
  }

  /** Lowering the threshold keeps a signature valid. */
  lemma VerifyThresholdMonotone(inst: Instance, keys: seq<Key>, sig: Signature, data: Value, t: int, u: int)
    requires 0 < u <= t
    requires Verify(inst, keys, sig, data, t) == Ok(true)
    ensures Verify(inst, keys, sig, data, u) == Ok(true)
  {
  }

  /* ---------------------------------------------------------------------
     Verification against a master seed.
     --------------------------------------------------------------------- */

  /** With a well-formed seed, verifying against it is verifying against
      the 32 keys derived from it. */
  lemma VerifyDerivedIsVerify(inst: Instance, seed: Value, sig: Signature, data: Value, threshold: int)
    requires seed.Bytes? && |seed.b| == inst.keyBytes
    ensures VerifyDerived(inst, seed, sig, data, threshold)
            == Verify(inst, DerivedKeys(inst, seed.b, 32), sig, data, threshold)
  {
    var used := Positions(sig.bitfield, 32);
    PositionsMeaning(sig.bitfield, 32);
    PositionsBelowWidth(sig.bitfield);
    CountAtMostWidth(sig.bitfield, 32);
    if data.Bytes? {
      RecomputeFromSeed(inst, seed.b, data.b, used);
    }
  }

  /** The tags of the derived keys are those deriveKey gives directly. */
  lemma RecomputeFromSeed(inst: Instance, seed: seq<byte>, msg: seq<byte>, ix: seq<nat>)
    requires Below(ix, 32)
    ensures Recompute(inst, DerivedKeys(inst, seed, 32), msg, ix) == RecomputeDerived(inst, seed, msg, ix)
  {
  }

  /** Completeness for derived keys: signers holding keys derived from one
      seed produce a combination that verifies against the seed. */
  lemma CombineThenVerifyDerived(inst: Instance, seed: seq<byte>, msg: seq<byte>, ix: seq<Index>, threshold: int)
    requires Valid(inst) && |seed| == inst.keyBytes
    requires Distinct(ix) && 0 < threshold <= |ix|
    ensures Combine(inst, RecomputeDerived(inst, seed, msg, ix)).Ok?
    ensures VerifyDerived(inst, Bytes(seed), Combine(inst, RecomputeDerived(inst, seed, msg, ix)).value, Bytes(msg), threshold)
            == Ok(true)
  {
    var keys := DerivedKeys(inst, seed, 32);
    DerivedKeysWellIndexed(inst, seed, 32);
    RecomputeFromSeed(inst, seed, msg, ix);
    CombineThenVerify(inst, keys, msg, ix, threshold);
    VerifyDerivedIsVerify(inst, Bytes(seed), Combine(inst, RecomputeDerived(inst, seed, msg, ix)).value, Bytes(msg), threshold);
  }

  /* ---------------------------------------------------------------------
     Key order.
     --------------------------------------------------------------------- */

  /** The store with the keys at positions p and q exchanged. */
  function Swap(keys: seq<Key>, p: nat, q: nat): (r: seq<Key>)
    requires p < |keys| && q < |keys|
    ensures |r| == |keys|
    ensures r[p] == keys[q] && r[q] == keys[p]
    ensures forall i :: 0 <= i < |keys| && i != p && i != q ==> r[i] == keys[i]
  {
    keys[p := keys[q]][q := keys[p]]
  }

  /** Verification looks a key up by its position and never checks the
      index stored in it, so exchanging the keys of two signers the bitfield
      names leaves the outcome unchanged. */
  lemma SwapSignersKeepsVerify(inst: Instance, keys: seq<Key>, sig: Signature, data: Value, threshold: int, p: nat, q: nat)
    requires p < |keys| && q < |keys|
    requires Bit(sig.bitfield, p) && Bit(sig.bitfield, q)
    ensures Verify(inst, Swap(keys, p, q), sig, data, threshold) == Verify(inst, keys, sig, data, threshold)
  {
    if data.Bytes? && Width(sig.bitfield, 32) <= |keys| {
      var used := Positions(sig.bitfield, 32);
      PositionsMeaning(sig.bitfield, 32);
      PositionsBelowWidth(sig.bitfield);
      SetBitsBelow(sig.bitfield);
      SwapRecompute(inst, keys, data.b, used, p, q);
    }
  }

  /** Recomputing with two named keys exchanged gives the same tags in
      another order, which fold to the same signature. */
  lemma SwapRecompute(inst: Instance, keys: seq<Key>, msg: seq<byte>, used: seq<nat>, p: nat, q: nat)
    requires p < |keys| && q < |keys|
    requires Below(used, |keys|) && StrictlyAscending(used)
    requires p in used && q in used
    ensures multiset(Recompute(inst, Swap(keys, p, q), msg, used)) == multiset(Recompute(inst, keys, msg, used))
    ensures forall acc :: Fold(acc, Recompute(inst, Swap(keys, p, q), msg, used)) == Fold(acc, Recompute(inst, keys, msg, used))
  {
    var r, r' := Recompute(inst, keys, msg, used), Recompute(inst, Swap(keys, p, q), msg, used);
    var a :| 0 <= a < |used| && used[a] == p;
    var b :| 0 <= b < |used| && used[b] == q;
    SwapTags(inst, keys, msg, used, a, b);
    SwapMultiset(r, a, b);
    forall acc ensures Fold(acc, r') == Fold(acc, r) {
      FoldPermutation(acc, r', r);
    }
  }

  /** Exchanging the keys at two named positions exchanges their tags. */
  lemma SwapTags(inst: Instance, keys: seq<Key>, msg: seq<byte>, used: seq<nat>, a: nat, b: nat)
    requires Below(used, |keys|) && StrictlyAscending(used)
    requires a < |used| && b < |used|
    ensures Recompute(inst, Swap(keys, used[a], used[b]), msg, used)
            == Recompute(inst, keys, msg, used)[a := Recompute(inst, keys, msg, used)[b]][b := Recompute(inst, keys, msg, used)[a]]
  {
  }

  lemma SwapMultiset<T>(s: seq<T>, a: nat, b: nat)
    requires a < |s| && b < |s|
    ensures multiset(s[a := s[b]][b := s[a]]) == multiset(s)
  {
  }
}
