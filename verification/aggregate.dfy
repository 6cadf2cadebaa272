/** The algebra of combining tags.

    Folding tags into a signature XORs bitfields and digests, so the order
    of the tags does not matter, folding the same tags twice cancels them,
    and folding tags of distinct signers sets exactly their bits.
 */
module Aggregate {
  import opened ByteStrings
  import opened Bitfield
  import opened Multisig

  /* ---------------------------------------------------------------------
     Order and cancellation.
     --------------------------------------------------------------------- */

  lemma AbsorbSwap(a: Signature, x: Signature, y: Signature)
    ensures Absorb(Absorb(a, x), y) == Absorb(Absorb(a, y), x)
  {
    MaskXorSwap(a.bitfield, x.bitfield, y.bitfield);
    XorSwap(a.digest, x.digest, y.digest);
  }

  /** A tag folded in first can as well be folded in last. */
  lemma {:induction false} FoldAbsorbFirst(acc: Signature, x: Signature, tags: seq<Signature>)
    ensures Fold(Absorb(acc, x), tags) == Absorb(Fold(acc, tags), x)
    decreases |tags|
  {
    if |tags| > 0 {
      var last := tags[|tags| - 1];
      FoldAbsorbFirst(acc, x, tags[..|tags| - 1]);
      AbsorbSwap(Fold(acc, tags[..|tags| - 1]), x, last);
    }
  }

  lemma {:induction false} FoldAppend(acc: Signature, a: seq<Signature>, b: seq<Signature>)
    ensures Fold(acc, a + b) == Fold(Fold(acc, a), b)
    decreases |b|
  {
    if |b| == 0 {
      assert a + b == a;
    } else {
      assert (a + b)[..|a + b| - 1] == a + b[..|b| - 1];
      FoldAppend(acc, a, b[..|b| - 1]);
    }
  }

  /** Folding a rearrangement of the same tags gives the same signature. */
  lemma {:induction false} FoldPermutation(acc: Signature, a: seq<Signature>, b: seq<Signature>)
    requires multiset(a) == multiset(b)
    ensures Fold(acc, a) == Fold(acc, b)
    decreases |b|
  {
    if |b| > 0 {
      var last := b[|b| - 1];
      assert b == b[..|b| - 1] + [last];
      assert last in multiset(a);
      var j :| 0 <= j < |a| && a[j] == last;
      var rest := a[..j] + a[j + 1..];
      assert a == a[..j] + [last] + a[j + 1..];
      assert multiset(a) == multiset(rest) + multiset{last};
      assert multiset(b) == multiset(b[..|b| - 1]) + multiset{last};
      CancelLast(multiset(rest), multiset(b[..|b| - 1]), last);
      FoldPermutation(acc, rest, b[..|b| - 1]);
      calc {
        Fold(acc, a);
        { FoldAppend(acc, a[..j] + [last], a[j + 1..]); }
        Fold(Fold(acc, a[..j] + [last]), a[j + 1..]);
        { assert (a[..j] + [last])[..j] == a[..j]; }
        Fold(Absorb(Fold(acc, a[..j]), last), a[j + 1..]);
        { FoldAbsorbFirst(Fold(acc, a[..j]), last, a[j + 1..]); }
        Absorb(Fold(Fold(acc, a[..j]), a[j + 1..]), last);
        { FoldAppend(acc, a[..j], a[j + 1..]); }
        Absorb(Fold(acc, rest), last);
      }
    }
  }

  lemma CancelLast<T>(p: multiset<T>, q: multiset<T>, x: T)
    requires p + multiset{x} == q + multiset{x}
    ensures p == q
  {
    forall y ensures p[y] == q[y] {
      assert (p + multiset{x})[y] == (q + multiset{x})[y];
    }
  }

  predicate DigestsAtLeast(tags: seq<Signature>, n: nat) {
    forall k :: 0 <= k < |tags| ==> |tags[k].digest| >= n
  }

  /** Tags no shorter than the accumulator keep its length. */
  lemma {:induction false} FoldLength(acc: Signature, tags: seq<Signature>)
    requires DigestsAtLeast(tags, |acc.digest|)
    ensures |Fold(acc, tags).digest| == |acc.digest|
    decreases |tags|
  {
    if |tags| > 0 {
      FoldLength(acc, tags[..|tags| - 1]);
    }
  }

  /** Folding the same tags a second time cancels them. */
  lemma {:induction false} FoldTwice(acc: Signature, tags: seq<Signature>)
    requires DigestsAtLeast(tags, |acc.digest|)
    ensures Fold(Fold(acc, tags), tags) == acc
    decreases |tags|
  {
    if |tags| > 0 {
      var init, last := tags[..|tags| - 1], tags[|tags| - 1];
      var once := Fold(acc, init);
      FoldLength(acc, init);
      calc {
        Fold(Fold(acc, tags), tags);
        Absorb(Fold(Absorb(once, last), init), last);
        { FoldAbsorbFirst(once, last, init); }
        Absorb(Absorb(Fold(once, init), last), last);
        { FoldTwice(acc, init); }
        Absorb(Absorb(acc, last), last);
        { XorTwice(acc.digest, last.digest);
          MaskXorTwice(acc.bitfield, last.bitfield); }
        acc;
      }
    }
  }

  /** Folding tags into a signature of the same length as the empty one is
      XOR-ing the signature with the combination of the tags. */
  lemma {:induction false} FoldFromEmpty(inst: Instance, sig: Signature, tags: seq<Signature>)
    requires |sig.digest| == inst.bytes
    requires DigestsAtLeast(tags, inst.bytes)
    ensures Fold(sig, tags) == Absorb(sig, Fold(Empty(inst), tags))
    decreases |tags|
  {
    if |tags| == 0 {
      XorZeros(sig.digest);
      MaskXorZero(sig.bitfield);
    } else {
      var init, last := tags[..|tags| - 1], tags[|tags| - 1];
      var rest := Fold(Empty(inst), init);
      FoldFromEmpty(inst, sig, init);
      XorAssociates(sig.digest, rest.digest, last.digest);
      MaskXorAssociates(sig.bitfield, rest.bitfield, last.bitfield);
    }
  }

  /* ---------------------------------------------------------------------
     Tags of single signers.
     --------------------------------------------------------------------- */

  predicate Distinct(ix: seq<nat>) {
    forall j, k :: 0 <= j < k < |ix| ==> ix[j] != ix[k]
  }

  /** tags[k] carries only the bit of signer ix[k]. */
  predicate SignedBy(tags: seq<Signature>, ix: seq<Index>) {
    |tags| == |ix| && forall k :: 0 <= k < |tags| ==> tags[k].bitfield == Single(ix[k])
  }

  /** What the bitfield of tags of signers ix says about ix. */
  ghost predicate Tracks(f: bv32, ix: seq<Index>) {
    && Count(f, 32) <= |ix|
    && (Count(f, 32) == |ix| <==> Distinct(ix))
    && (Distinct(ix) ==> forall j: Index :: Bit(f, j) <==> j in ix)
  }

  lemma TracksNone()
    ensures Tracks(0, [])
  {
    ZeroCount(32);
    forall j: Index ensures !Bit(0, j) {
      ZeroShifts(j);
    }
  }

  /** Folding in the tag of signer i toggles bit i, which keeps Tracks. */
  lemma TracksStep(f: bv32, ix: seq<Index>, i: Index)
    requires Tracks(f, ix)
    ensures Tracks(f ^ Single(i), ix + [i])
  {
    var g, ix' := f ^ Single(i), ix + [i];
    FlipMeaning(f, i);
    if Distinct(ix) {
      if i in ix {
        var k :| 0 <= k < |ix| && ix[k] == i;
        assert !Distinct(ix') by { assert ix'[k] == ix'[|ix|]; }
      } else {
        assert Distinct(ix');
        forall j: Index ensures Bit(g, j) <==> j in ix' {
          assert j in ix' <==> j in ix || j == i;
        }
      }
    } else {
      assert !Distinct(ix') by {
        var p, q :| 0 <= p < q < |ix| && ix[p] == ix[q];
        assert ix'[p] == ix'[q];
      }
    }
  }

  /** Folding single-signer tags into an empty bitfield leaves one bit per
      tag exactly when no signer repeats, and then the bits are the signers. */
  lemma {:induction false} FoldSigners(acc: Signature, tags: seq<Signature>, ix: seq<Index>)
    requires acc.bitfield == 0
    requires SignedBy(tags, ix)
    ensures Tracks(Fold(acc, tags).bitfield, ix)
    decreases |tags|
  {
    if |tags| == 0 {
      TracksNone();
    } else {
      SignedByPrefix(tags, ix);
      FoldLastBit(acc, tags);
      FoldSigners(acc, tags[..|tags| - 1], ix[..|ix| - 1]);
      TracksStep(Fold(acc, tags[..|tags| - 1]).bitfield, ix[..|ix| - 1], ix[|ix| - 1]);
    }
  }

  lemma SignedByPrefix(tags: seq<Signature>, ix: seq<Index>)
    requires SignedBy(tags, ix) && |tags| > 0
    ensures SignedBy(tags[..|tags| - 1], ix[..|ix| - 1])
    ensures ix[..|ix| - 1] + [ix[|ix| - 1]] == ix
  {
  }

  /** The last tag folded in toggles the bits it carries. */
  lemma FoldLastBit(acc: Signature, tags: seq<Signature>)
    requires |tags| > 0
    ensures Fold(acc, tags).bitfield == Fold(acc, tags[..|tags| - 1]).bitfield ^ tags[|tags| - 1].bitfield
  {
  }

  lemma {:induction false} ZeroCount(n: nat)
    ensures Count(0, n) == 0
    decreases n
  {
    if n > 0 {
      ZeroCount(n - 1);
      ZeroShifts(n - 1);
    }
  }

  /* ---------------------------------------------------------------------
     Lists of distinct signers.
     --------------------------------------------------------------------- */

  predicate Below(ix: seq<nat>, n: nat) {
    forall k :: 0 <= k < |ix| ==> ix[k] < n
  }

  lemma RecomputeAppend(inst: Instance, keys: seq<Key>, msg: seq<byte>, a: seq<nat>, b: seq<nat>)
    requires Below(a, |keys|) && Below(b, |keys|)
    ensures Below(a + b, |keys|)
    ensures Recompute(inst, keys, msg, a + b) == Recompute(inst, keys, msg, a) + Recompute(inst, keys, msg, b)
  {
    assert Below(a + b, |keys|) by {
      forall k | 0 <= k < |a + b| ensures (a + b)[k] < |keys| {
        if k >= |a| {
          assert (a + b)[k] == b[k - |a|];
        }
      }
    }
  }

  /** The tag of any listed signer can be folded in last. */
  lemma FoldRemove(inst: Instance, keys: seq<Key>, msg: seq<byte>, acc: Signature, ix: seq<nat>, j: nat)
    requires Below(ix, |keys|)
    requires j < |ix|
    ensures Below(Without(ix, j), |keys|)
    ensures Fold(acc, Recompute(inst, keys, msg, ix))
            == Absorb(Fold(acc, Recompute(inst, keys, msg, Without(ix, j))), Tag(inst, keys[ix[j]], msg))
  {
    var pre, x, post := ix[..j], ix[j], ix[j + 1..];
    assert ix == pre + [x] + post;
    RecomputeAppend(inst, keys, msg, pre, [x]);
    RecomputeAppend(inst, keys, msg, pre + [x], post);
    RecomputeAppend(inst, keys, msg, pre, post);
    var rp, rx, rq := Recompute(inst, keys, msg, pre), Recompute(inst, keys, msg, [x]), Recompute(inst, keys, msg, post);
    var t := Tag(inst, keys[x], msg);
    assert rx == [t];
    calc {
      Fold(acc, Recompute(inst, keys, msg, ix));
      Fold(acc, rp + [t] + rq);
      { FoldAppend(acc, rp + [t], rq); }
      Fold(Fold(acc, rp + [t]), rq);
      { assert (rp + [t])[..|rp|] == rp; }
      Fold(Absorb(Fold(acc, rp), t), rq);
      { FoldAbsorbFirst(Fold(acc, rp), t, rq); }
      Absorb(Fold(Fold(acc, rp), rq), t);
      { FoldAppend(acc, rp, rq); }
      Absorb(Fold(acc, rp + rq), t);
    }
  }

  /** Removing one entry of a list of distinct signers leaves a list of
      distinct signers naming all the others. */
  lemma RemoveSigner(a: seq<nat>, j: nat)
    requires Distinct(a)
    requires j < |a|
    ensures Distinct(Without(a, j))
    ensures forall x: nat :: x in Without(a, j) <==> x in a && x != a[j]
  {
    var a' := Without(a, j);
    forall p, q | 0 <= p < q < |a'| ensures a'[p] != a'[q] {
      var p0 := if p < j then p else p + 1;
      var q0 := if q < j then q else q + 1;
      assert a'[p] == a[p0] && a'[q] == a[q0];
    }
    forall x: nat ensures x in a' <==> x in a && x != a[j] {
      if x in a' {
        var p :| 0 <= p < |a'| && a'[p] == x;
        var p0 := if p < j then p else p + 1;
        assert a[p0] == x;
      }
      if x in a && x != a[j] {
        var p :| 0 <= p < |a| && a[p] == x;
        if p < j { assert a'[p] == x; } else { assert a'[p - 1] == x; }
      }
    }
  }

  /** The list a without its entry at j. */
  function Without(a: seq<nat>, j: nat): (r: seq<nat>)
    requires j < |a|
    ensures |r| == |a| - 1
  {
    a[..j] + a[j + 1..]
  }

  /** Removing the same signer from two lists of distinct signers that
      name the same signers leaves two such lists. */
  lemma RemoveFromBoth(a: seq<nat>, b: seq<nat>, j: nat, n: nat)
    requires Distinct(a) && Distinct(b)
    requires j < |a| && n < |b| && a[j] == b[n]
    requires forall x: nat :: x in a <==> x in b
    ensures Distinct(Without(a, j)) && Distinct(Without(b, n))
    ensures forall x: nat :: x in Without(a, j) <==> x in Without(b, n)
  {
    RemoveSigner(a, j);
    RemoveSigner(b, n);
  }

  lemma FirstIn(a: seq<nat>)
    requires |a| > 0
    ensures a[0] in a
  {
  }

  /** Two lists of distinct signers naming the same signers fold to the same
      signature, whatever their order. */
  lemma {:induction false} FoldSameSigners(inst: Instance, keys: seq<Key>, msg: seq<byte>, acc: Signature, a: seq<nat>, b: seq<nat>)
    requires Below(a, |keys|) && Below(b, |keys|)
    requires Distinct(a) && Distinct(b)
    requires forall x: nat :: x in a <==> x in b
    ensures Fold(acc, Recompute(inst, keys, msg, a)) == Fold(acc, Recompute(inst, keys, msg, b))
    decreases |b|
  {
    if |b| == 0 {
      if |a| > 0 {
        FirstIn(a);
      }
    } else {
      assert b[|b| - 1] in a;
      var j :| 0 <= j < |a| && a[j] == b[|b| - 1];
      RemoveFromBoth(a, b, j, |b| - 1);
      FoldRemove(inst, keys, msg, acc, a, j);
      FoldRemove(inst, keys, msg, acc, b, |b| - 1);
      FoldSameSigners(inst, keys, msg, acc, Without(a, j), Without(b, |b| - 1));
    }
  }
}
