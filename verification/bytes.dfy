/** Byte strings and the byte-wise XOR the scheme combines tags with. */
module ByteStrings {

  type byte = bv8

  function Min(a: nat, b: nat): nat {
    if a <= b then a else b
  }

  /** The byte with value d, counted up one at a time.  The direct
      conversion `d as byte` goes through the solver's integer-to-bit-vector
      translation, whose cost varies widely from run to run; counting up
      keeps every step a single increment of a byte. */
  function ToByte(d: nat): (b: byte)
    requires d < 0x100
    ensures b as nat == d
  {
    if d == 0 then 0 else
      var p := ToByte(d - 1);
      IncByte(p);
      p + 1
  }

  lemma IncByte(x: byte)
    requires x as nat < 0xFF
    ensures (x + 1) as nat == x as nat + 1
  {
  }

  /** Byte-wise XOR of two strings, pairing them up as `zip` does: the
      result is as long as the shorter one. */
  function Xor(a: seq<byte>, b: seq<byte>): (r: seq<byte>)
    ensures |r| == Min(|a|, |b|)
    ensures forall i :: 0 <= i < |r| ==> r[i] == a[i] ^ b[i]
  {
    if |a| == 0 || |b| == 0 then [] else [a[0] ^ b[0]] + Xor(a[1..], b[1..])
  }

  /** n zero bytes. */
  function Zeros(n: nat): (r: seq<byte>)
    ensures |r| == n
    ensures forall i :: 0 <= i < n ==> r[i] == 0
  {
    if n == 0 then [] else Zeros(n - 1) + [0]
  }

  predicate AllZero(s: seq<byte>) {
    forall i :: 0 <= i < |s| ==> s[i] == 0
  }

  /** The sum of the bytes of s, as unbounded integers. */
  function Sum(s: seq<byte>): nat {
    if |s| == 0 then 0 else Sum(s[..|s| - 1]) + s[|s| - 1] as nat
  }

  /** The sum of the bytes is zero exactly when every byte is zero. */
  lemma {:induction false} SumZero(s: seq<byte>)
    ensures Sum(s) == 0 <==> AllZero(s)
  {
    if |s| > 0 {
      SumZero(s[..|s| - 1]);
      assert AllZero(s) ==> AllZero(s[..|s| - 1]);
    }
  }

  // XOR on equal-length strings is a group with Zeros as identity and every
  // string its own inverse.  Each law is proved byte by byte from the
  // pointwise contract of Xor.

  lemma {:induction false} XorZeros(a: seq<byte>)
    ensures Xor(a, Zeros(|a|)) == a
    ensures Xor(Zeros(|a|), a) == a
  {
    var z := Zeros(|a|);
    assert Xor(a, z) == a by {
      forall i | 0 <= i < |a| ensures Xor(a, z)[i] == a[i] {
        ByteXorZero(a[i]);
      }
    }
    assert Xor(z, a) == a by {
      forall i | 0 <= i < |a| ensures Xor(z, a)[i] == a[i] {
        ByteXorZero(a[i]);
      }
    }
  }

  lemma {:induction false} XorSelf(a: seq<byte>)
    ensures Xor(a, a) == Zeros(|a|)
  {
    forall i | 0 <= i < |a| ensures Xor(a, a)[i] == Zeros(|a|)[i] {
      ByteXorSelf(a[i]);
    }
  }

  lemma {:induction false} XorCommutes(a: seq<byte>, b: seq<byte>)
    ensures Xor(a, b) == Xor(b, a)
  {
    forall i | 0 <= i < |Xor(a, b)| ensures Xor(a, b)[i] == Xor(b, a)[i] {
      ByteXorCommutes(a[i], b[i]);
    }
  }

  lemma {:induction false} XorAssociates(a: seq<byte>, b: seq<byte>, c: seq<byte>)
    ensures Xor(Xor(a, b), c) == Xor(a, Xor(b, c))
  {
    var l, r := Xor(Xor(a, b), c), Xor(a, Xor(b, c));
    forall i | 0 <= i < |l| ensures l[i] == r[i] {
      ByteXorAssociates(a[i], b[i], c[i]);
    }
  }

  lemma {:induction false} XorSwap(a: seq<byte>, b: seq<byte>, c: seq<byte>)
    ensures Xor(Xor(a, b), c) == Xor(Xor(a, c), b)
  {
    var l, r := Xor(Xor(a, b), c), Xor(Xor(a, c), b);
    forall i | 0 <= i < |l| ensures l[i] == r[i] {
      ByteXorSwap(a[i], b[i], c[i]);
    }
  }

  /** XOR with a string at least as long is undone by XOR with it again. */
  lemma {:induction false} XorTwice(a: seq<byte>, b: seq<byte>)
    requires |a| <= |b|
    ensures Xor(Xor(a, b), b) == a
  {
    var l := Xor(Xor(a, b), b);
    forall i | 0 <= i < |a| ensures l[i] == a[i] {
      ByteXorTwice(a[i], b[i]);
    }
  }

  // The same laws on single bytes.

  lemma ByteXorZero(x: byte)
    ensures x ^ 0 == x && 0 ^ x == x
  {
  }

  lemma ByteXorSelf(x: byte)
    ensures x ^ x == 0
  {
  }

  lemma ByteXorCommutes(x: byte, y: byte)
    ensures x ^ y == y ^ x
  {
  }

  lemma ByteXorAssociates(x: byte, y: byte, z: byte)
    ensures (x ^ y) ^ z == x ^ (y ^ z)
  {
  }

  lemma ByteXorSwap(x: byte, y: byte, z: byte)
    ensures (x ^ y) ^ z == (x ^ z) ^ y
  {
  }

  lemma ByteXorTwice(x: byte, y: byte)
    ensures (x ^ y) ^ y == x
  {
  }

  /** Only a string equal to the other cancels it. */
  lemma XorZeroIff(a: seq<byte>, b: seq<byte>)
    requires |a| == |b|
    ensures AllZero(Xor(a, b)) <==> a == b
  {
    if AllZero(Xor(a, b)) {
      forall i | 0 <= i < |a| ensures a[i] == b[i] {
        assert a[i] ^ b[i] == 0;
      }
    }
  }
}
