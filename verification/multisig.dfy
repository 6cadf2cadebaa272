/** The multi-signer HMAC protocol.

    Each signer holds a key (an index below 32 and a secret) and tags a
    message with the pair (1 << index, HMAC(secret, message)).  Tags are
    combined by XOR-ing their bitfields and their digests; a combined
    signature is verified against a threshold by recomputing the tags of
    the signers its bitfield names and XOR-ing them back out.

    HMAC is a parameter of the instance: a deterministic function from a
    key and a message to a digest, BYTES long for a valid instance.  A
    failed assertion of the original is an `Invalid` result carrying the
    reason, kept apart from a verification that returns false.
 */
module Multisig {
  import opened ByteStrings
  import opened Bitfield

  /** One instance of the scheme: the block size of the hash (KEYBYTES),
      its digest size (BYTES) and HMAC over it. */
  datatype Instance = Instance(keyBytes: nat, bytes: nat, mac: (seq<byte>, seq<byte>) -> seq<byte>)

  /** HMAC always yields a digest of the instance's digest size. */
  ghost predicate Valid(inst: Instance) {
    forall key, msg :: |inst.mac(key, msg)| == inst.bytes
  }

  // Block and digest sizes of the three hash functions the scheme offers.
  const Sha256KeyBytes: nat := 64
  const Sha256Bytes: nat := 32
  const Sha384KeyBytes: nat := 128
  const Sha384Bytes: nat := 48
  const Sha512KeyBytes: nat := 128
  const Sha512Bytes: nat := 64

  /** A value handed to the scheme as data or as a master seed: only an
      immutable byte string is accepted where the original checks the type. */
  datatype Value = Bytes(b: seq<byte>) | ByteArray(b: seq<byte>) | Str(s: string)

  datatype Key = Key(index: Index, secret: seq<byte>)

  /** A tag of one signer or the combination of several. */
  datatype Signature = Signature(bitfield: bv32, digest: seq<byte>)

  /** Why an assertion of the original fails. */
  datatype Reason =
    | DataNotBytes          // data must be bytes
    | SignaturesCancelled   // one or more signatures cancelled out
    | DigestLength          // signature must be BYTES long
    | ThresholdNotPositive  // threshold must be at least 1
    | NotEnoughKeys         // not enough keys given based on the bitfield
    | SeedNotBytes          // masterSeed must be bytes
    | SeedLength            // masterSeed must be KEYBYTES long

  datatype Result<T> = Ok(value: T) | Invalid(reason: Reason)

  /* ---------------------------------------------------------------------
     Key derivation.
     --------------------------------------------------------------------- */

  /** The k low bytes of n, least significant first. */
  function LeBytes(n: nat, k: nat): (r: seq<byte>)
    ensures |r| == k
  {
    if k == 0 then [] else [ToByte(n % 0x100)] + LeBytes(n / 0x100, k - 1)
  }

  /** n as four bytes, least significant first; n must fit in them. */
  function Le32(n: nat): (r: seq<byte>)
    requires n < 0x1_0000_0000
    ensures |r| == 4
  {
    LeBytes(n, 4)
  }

  /** The number a little-endian byte string stands for. */
  function FromLe(s: seq<byte>): nat {
    if |s| == 0 then 0 else s[0] as nat + 0x100 * FromLe(s[1..])
  }

  /** The ASCII bytes of "derived". */
  const DerivedLabel: seq<byte> := [0x64, 0x65, 0x72, 0x69, 0x76, 0x65, 0x64]

  /** The message of the first HMAC block of a derived key. */
  function DerivationInput(index: Index): seq<byte> {
    DerivedLabel + Le32(index as nat) + [0]
  }

  /** The key with the given index derived from a master seed: two chained
      HMAC blocks under the seed, concatenated. */
  function DeriveKey(inst: Instance, seed: seq<byte>, index: Index): (k: Key)
    ensures k.index == index
    ensures Valid(inst) ==> |k.secret| == 2 * inst.bytes
  {
    var h1 := inst.mac(seed, DerivationInput(index));
    var h2 := inst.mac(seed, h1 + [1]);
    Key(index, h1 + h2)
  }

  /** The keys with indexes 0 to n - 1 derived from one master seed. */
  function DerivedKeys(inst: Instance, seed: seq<byte>, n: nat): (keys: seq<Key>)
    requires n <= 32
    ensures |keys| == n
    ensures forall i :: 0 <= i < n ==> keys[i] == DeriveKey(inst, seed, i)
  {
    if n == 0 then [] else DerivedKeys(inst, seed, n - 1) + [DeriveKey(inst, seed, n - 1)]
  }

  /* ---------------------------------------------------------------------
     Signing and combining.
     --------------------------------------------------------------------- */

  /** The tag of one signer over a message. */
  function Tag(inst: Instance, key: Key, msg: seq<byte>): Signature {
    Signature(Single(key.index), inst.mac(key.secret, msg))
  }

  /** Signs data with a key; data must be an immutable byte string. */
  function Sign(inst: Instance, key: Key, data: Value): (r: Result<Signature>)
    ensures r.Ok? <==> data.Bytes?
    ensures r.Invalid? ==> r.reason == DataNotBytes
    ensures r.Ok? ==> forall j: nat :: Bit(r.value.bitfield, j) <==> j == key.index
    ensures r.Ok? ==> Popcount(r.value.bitfield) == 1
    ensures r.Ok? && Valid(inst) ==> |r.value.digest| == inst.bytes
  {
    if data.Bytes? then
      SingleMeaning(key.index);
      Ok(Tag(inst, key, data.b))
    else
      Invalid(DataNotBytes)
  }

  /** Folds one tag into an accumulated signature. */
  function Absorb(acc: Signature, t: Signature): Signature {
    Signature(acc.bitfield ^ t.bitfield, Xor(acc.digest, t.digest))
  }

  /** Folds tags into an accumulated signature, first to last. */
  function Fold(acc: Signature, tags: seq<Signature>): Signature
    decreases |tags|
  {
    if |tags| == 0 then acc else Absorb(Fold(acc, tags[..|tags| - 1]), tags[|tags| - 1])
  }

  /** The empty signature: no signers and BYTES zero bytes. */
  function Empty(inst: Instance): Signature {
    Signature(0, Zeros(inst.bytes))
  }

  /** Combines independently made tags; fails when tags sharing a signer
      cancel out, so that fewer signers remain than tags were given. */
  function Combine(inst: Instance, tags: seq<Signature>): (r: Result<Signature>)
    ensures r.Invalid? ==> r.reason == SignaturesCancelled
  {
    var s := Fold(Empty(inst), tags);
    if Popcount(s.bitfield) == |tags| then Ok(s) else Invalid(SignaturesCancelled)
  }

  /* ---------------------------------------------------------------------
     Verification.
     --------------------------------------------------------------------- */

  /** The tags the listed stored keys make over a message. */
  function Recompute(inst: Instance, keys: seq<Key>, msg: seq<byte>, ix: seq<nat>): (r: seq<Signature>)
    requires forall k :: 0 <= k < |ix| ==> ix[k] < |keys|
    ensures |r| == |ix|
    ensures forall k :: 0 <= k < |ix| ==> r[k].bitfield == Single(keys[ix[k]].index)
  {
    seq(|ix|, k requires 0 <= k < |ix| => Tag(inst, keys[ix[k]], msg))
  }

  /** The tags the keys derived from a seed make over a message. */
  function RecomputeDerived(inst: Instance, seed: seq<byte>, msg: seq<byte>, ix: seq<nat>): (r: seq<Signature>)
    requires forall k :: 0 <= k < |ix| ==> ix[k] < 32
    ensures |r| == |ix|
    ensures forall k :: 0 <= k < |ix| ==> r[k].bitfield == Single(ix[k])
  {
    seq(|ix|, k requires 0 <= k < |ix| => Tag(inst, DeriveKey(inst, seed, ix[k]), msg))
  }

  /** A signature cancels out when neither a signer bit nor a digest bit is left. */
  predicate Cancelled(s: Signature) {
    s.bitfield == 0 && Sum(s.digest) == 0
  }

  /** Verifies a combined signature of data against stored keys, where key
      i of the list belongs to signer i. */
  function Verify(inst: Instance, keys: seq<Key>, sig: Signature, data: Value, threshold: int): (r: Result<bool>)
    ensures r.Invalid? <==>
              |sig.digest| != inst.bytes || !data.Bytes? || threshold <= 0
              || |keys| < Width(sig.bitfield, 32)
    ensures r == Ok(false) <== r.Ok? && Popcount(sig.bitfield) < threshold
  {
    var bitfield := sig.bitfield;
    CountAtMostWidth(bitfield, 32);
    if |sig.digest| != inst.bytes then Invalid(DigestLength)
    else if !data.Bytes? then Invalid(DataNotBytes)
    else if threshold <= 0 then Invalid(ThresholdNotPositive)
    else if |keys| < Popcount(bitfield) || |keys| < Width(bitfield, 32) then Invalid(NotEnoughKeys)
    else if Popcount(bitfield) < threshold then Ok(false)
    else
      var used := Positions(bitfield, 32);
      PositionsBelowWidth(bitfield);
      Ok(Cancelled(Fold(sig, Recompute(inst, keys, data.b, used))))
  }

  /** Verifies a combined signature of data against the keys derived from a
      master seed. */
  function VerifyDerived(inst: Instance, seed: Value, sig: Signature, data: Value, threshold: int): (r: Result<bool>)
    ensures r.Invalid? <==>
              !seed.Bytes? || |seed.b| != inst.keyBytes || |sig.digest| != inst.bytes
              || !data.Bytes? || threshold <= 0
    ensures r == Ok(false) <== r.Ok? && Popcount(sig.bitfield) < threshold
  {
    var bitfield := sig.bitfield;
    if !seed.Bytes? then Invalid(SeedNotBytes)
    else if |seed.b| != inst.keyBytes then Invalid(SeedLength)
    else if |sig.digest| != inst.bytes then Invalid(DigestLength)
    else if !data.Bytes? then Invalid(DataNotBytes)
    else if threshold <= 0 then Invalid(ThresholdNotPositive)
    else if Popcount(bitfield) < threshold then Ok(false)
    else
      var used := Positions(bitfield, 32);
      PositionsMeaning(bitfield, 32);
      Ok(Cancelled(Fold(sig, RecomputeDerived(inst, seed.b, data.b, used))))
  }
}
