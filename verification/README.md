# multisig-hmac in Dafny

A model of the multi-signer HMAC scheme of `multisig_hmac/multisig_hmac.py`.
Up to 32 signers each hold a key: an index below 32 and a secret. A signer
tags a message with the pair `(1 << index, HMAC(secret, message))`. Tags are
combined by XOR-ing their bitfields and their digests. A verifier recomputes
the tags of the signers the bitfield names and XORs them back out. The
combined signature is accepted when nothing is left and at least
`threshold` signers took part. A verifier can hold the keys in a list, or
derive them on demand from a master seed.

Modules, in dependency order:

- `ByteStrings` (`bytes.dfy`): bytes as `bv8`, the byte-wise XOR `xorBytes`
  (which pairs bytes up as `zip` does), and the laws of XOR on strings.
- `Bitfield` (`bitfield.dfy`): the three 32-bit helpers.
  - `popcount` is the SWAR count.
  - `keyIndexes` is a method with a loop.
  - `nlz` is a method with the binary search of the original.
  - Each is proved against a reference meaning of a mask: its bits, how
    many there are, where they are, and how wide the mask is.
- `Multisig` (`multisig.dfy`): the class's operations.
  - Key derivation, `sign`, `combine`, `verify` and `verifyDerived`.
  - HMAC is a parameter of the instance.
  - A failed assertion becomes an `Invalid` result that carries the reason.
    It is kept apart from a verification that returns false.
- `Aggregate` (`aggregate.dfy`): the algebra of folding tags together.
  - Order does not matter.
  - Folding the same tags twice cancels them.
  - Tags of distinct signers set exactly their bits.
- `Properties` (`properties.dfy`): end-to-end results.
  - What `verify` accepts.
  - Completeness of combine-then-verify, for stored and for derived keys.
  - `verifyDerived` is `verify` against the derived keys.
  - Injectivity of the key-derivation label.
  - What key order `verify` can and cannot see.

`verify` in the original calls `popcount`, `nlz` and `keyIndexes`. In the
model, `Verify` uses `Popcount` itself. It uses the reference `Width` and
`Positions` in place of `32 - nlz` and `keyIndexes`, because the methods
`Nlz` and `KeyIndexes` are proved to return exactly those.

Two consequences of the code that a reader might not expect:

- **Derived key length.** `deriveKey` returns `h1 + h2`, two digests long
  (`Multisig.DeriveKey`, `Properties.DerivedSecretLengths`).
  - For SHA-256 and SHA-512 that equals the block size KEYBYTES.
  - For SHA-384 it is 96 bytes against a 128-byte block size.
- **Key order.** `verify` looks up the key for bit `i` as `keys[i]`. It never
  compares `i` with the index stored in that key, and it reads no key at a
  position the bitfield does not name. Whatever the list holds,
  `Properties.VerifyMeaning` says what happens:
  - `verify` accepts exactly when the signature equals the recombination of
    the tags of the keys at the named positions.
  - A named position whose key carries an index the bitfield does not name
    always gives false or a failed check (`Properties.MisplacedKeyRejects`).
    For example, signers 0 and 2 checked against `[k0, k2, k1]` give false
    (`Properties.KeysOutOfOrder`).
  - Completeness needs only the keys of the named signers at their own
    positions. The rest of the list may hold anything
    (`Properties.CombineThenVerify`).
  - Swapping the stored keys of two named signers leaves the outcome
    unchanged (`Properties.SwapSignersKeepsVerify`).

Definitions without contracts of their own, and the lines they mirror:

- `Multisig.DerivationInput` is the first HMAC message of `deriveKey`,
  `b'derived'` followed by the four index bytes and a zero byte
  (multisig_hmac.py:44-47).
- `Multisig.Tag` is the pair `sign` returns (multisig_hmac.py:88-89).
- `Multisig.Empty` is the starting value of `combine`: bitfield 0 and BYTES
  zero bytes (multisig_hmac.py:92-93).
- `Multisig.Absorb` is one loop body, shared by `combine` and `verify`: XOR
  the bitfields and `xorBytes` the digests (multisig_hmac.py:95-96,
  multisig_hmac.py:117-119).
- `Multisig.Fold` is the loop, taking the tags first to last
  (multisig_hmac.py:94-96, multisig_hmac.py:114-119).
- `Multisig.Cancelled` is the return test `bitfield == 0 and sum(sig) == 0`
  (multisig_hmac.py:121).

## Model

| member | source | states |
|---|---|---|
| ByteStrings.ToByte | multisig_hmac/multisig_hmac.py:45 | the byte made for a value below 256 holds that value |
| ByteStrings.Xor | multisig_hmac/multisig_hmac.py:80-84 | `xorBytes` pairs bytes up as `zip` does: the result has the length of the shorter input, and byte k is the XOR of the two bytes k |
| ByteStrings.XorZeros | multisig_hmac/multisig_hmac.py:93-96 | XOR with zero bytes of the same length, on either side, leaves a string unchanged (the zero buffer `combine` starts from is an identity) |
| ByteStrings.XorSelf | multisig_hmac/multisig_hmac.py:114-121 | a string XOR-ed with itself is all zero bytes |
| ByteStrings.XorCommutes | multisig_hmac/multisig_hmac.py:94-96 | the order of the two operands of XOR does not matter |
| ByteStrings.XorAssociates | multisig_hmac/multisig_hmac.py:94-96 | XOR of strings is associative |
| ByteStrings.XorSwap | multisig_hmac/multisig_hmac.py:94-96 | two strings XOR-ed into an accumulator can be taken in either order |
| ByteStrings.XorTwice | multisig_hmac/multisig_hmac.py:114-117 | XOR-ing a string twice with one at least as long gives the first string back |
| ByteStrings.XorZeroIff | multisig_hmac/multisig_hmac.py:121 | the XOR of two strings of equal length is all zero exactly when they are equal |
| ByteStrings.SumZero | multisig_hmac/multisig_hmac.py:121 | `sum(sig) == 0` holds exactly when every byte is zero |
| Bitfield.ShiftOnesIsShift | multisig_hmac/multisig_hmac.py:73 | a right shift by n places, n at most 32, is n shifts by one place, which is how the reference meaning reads bits |
| Bitfield.PositionsMeaning | multisig_hmac/multisig_hmac.py:59-67 | the reference list of set bits is strictly ascending, lies below the bound, holds exactly the set bits, and its length is their count |
| Bitfield.WidthMeaning | multisig_hmac/multisig_hmac.py:106 | no bit at or above the width is set, and the bit just below a nonzero width is set |
| Bitfield.CountAtMostWidth | multisig_hmac/multisig_hmac.py:105-107 | the number of set bits is at most the width, so `len(keys) >= highestKey` implies `len(keys) >= nKeys` |
| Bitfield.CountSplit | multisig_hmac/multisig_hmac.py:51-57 | the count of set bits below k + n is the count below k plus the count of the mask shifted by k below n (the split the SWAR count relies on) |
| Bitfield.SingleMeaning | multisig_hmac/multisig_hmac.py:89 | `1 << index` has exactly one set bit, at position index, and its popcount is 1 |
| Bitfield.FlipMeaning | multisig_hmac/multisig_hmac.py:95 | XOR-ing `1 << i` into a bitfield toggles bit i only, so the count goes down by one if the bit was set and up by one if not |
| Bitfield.CountFlip | multisig_hmac/multisig_hmac.py:119 | toggling bit i changes the count below n by one exactly when i is below n |
| Bitfield.SameBits | multisig_hmac/multisig_hmac.py:121 | two 32-bit masks with the same bits 0 to 31 are equal |
| Bitfield.SetBitsBelow | multisig_hmac/multisig_hmac.py:62-66 | no bit at position 32 or above is set in a 32-bit mask |
| Bitfield.PositionsBelowWidth | multisig_hmac/multisig_hmac.py:106-115 | every index `keyIndexes` lists is below `32 - nlz`, so `keys[i]` exists once the length assertion has passed |
| Bitfield.KeyIndexes | multisig_hmac/multisig_hmac.py:59-67 | the loop returns the set bit positions in ascending order: each set bit once and nothing else, as many as the popcount |
| Bitfield.Nlz | multisig_hmac/multisig_hmac.py:69-78 | the binary search returns 32 minus the width of the mask (the number of leading zeros), a value from 0 to 32 |
| Bitfield.Popcount | multisig_hmac/multisig_hmac.py:51-57 | the SWAR steps return the number of set bits of the 32-bit mask, at most 32 |
| Bitfield.SwarCountsBits | multisig_hmac/multisig_hmac.py:51-57 | the low six bits after the fold equal the number of set bits |
| Multisig.LeBytes | multisig_hmac/multisig_hmac.py:45 | `to_bytes(length=k, byteorder='little')` yields k bytes |
| Multisig.Le32 | multisig_hmac/multisig_hmac.py:45 | an index as four little-endian bytes |
| Multisig.DeriveKey | multisig_hmac/multisig_hmac.py:43-49 | the derived key keeps the index it was asked for, and its secret is two digests long: 2 × BYTES for an HMAC of digest size BYTES |
| Multisig.DerivedKeys | multisig_hmac/multisig_hmac.py:138-139 | the n keys derived from a seed: key i is `deriveKey(seed, i)` |
| Multisig.Sign | multisig_hmac/multisig_hmac.py:86-89 | a tag is made exactly when data is `bytes`, and the failure otherwise is "data must be bytes"; the tag's bitfield has exactly the key's bit (popcount 1), and its digest is BYTES long |
| Multisig.Combine | multisig_hmac/multisig_hmac.py:91-98 | the only failure of `combine` is "one or more signatures cancelled out" |
| Multisig.Recompute | multisig_hmac/multisig_hmac.py:112-119 | one recomputed tag per listed position, whose bitfield is `1 <<` the index stored in the key at that position |
| Multisig.RecomputeDerived | multisig_hmac/multisig_hmac.py:135-143 | one recomputed tag per listed position, whose bitfield is `1 <<` that position |
| Multisig.Verify | multisig_hmac/multisig_hmac.py:100-121 | fails, and does not return false, exactly when the digest is not BYTES long, data is not bytes, threshold < 1, or fewer keys than `32 - nlz` are given; returns false when fewer than threshold signers are named |
| Multisig.VerifyDerived | multisig_hmac/multisig_hmac.py:123-145 | fails exactly when the seed is not bytes or not KEYBYTES long, the digest is not BYTES long, data is not bytes, or threshold < 1; returns false when fewer than threshold signers are named |
| Aggregate.AbsorbSwap | multisig_hmac/multisig_hmac.py:94-96 | two tags folded into an accumulator can be taken in either order |
| Aggregate.FoldAbsorbFirst | multisig_hmac/multisig_hmac.py:94-96 | a tag folded in first can be folded in last instead |
| Aggregate.FoldAppend | multisig_hmac/multisig_hmac.py:94-96 | folding a concatenation of tag lists is folding one list after the other |
| Aggregate.FoldPermutation | multisig_hmac/multisig_hmac.py:91-98 | any rearrangement of the same tags combines to the same signature |
| Aggregate.FoldLength | multisig_hmac/multisig_hmac.py:93-96 | tags at least BYTES long keep the accumulated digest BYTES long |
| Aggregate.FoldTwice | multisig_hmac/multisig_hmac.py:114-121 | folding the same tags a second time cancels them and gives back the starting signature |
| Aggregate.FoldFromEmpty | multisig_hmac/multisig_hmac.py:113-117 | folding tags into a signature is XOR-ing the signature with the combination of the tags from the zero buffer |
| Aggregate.TracksStep | multisig_hmac/multisig_hmac.py:95 | folding in the tag of one more signer keeps the invariant that relates the bitfield to the signers so far |
| Aggregate.FoldSigners | multisig_hmac/multisig_hmac.py:94-97 | after folding single-signer tags, the popcount is at most the number of tags, equals it exactly when no signer repeats, and then the set bits are exactly the signers |
| Aggregate.FoldSameSigners | multisig_hmac/multisig_hmac.py:112-117 | two lists of distinct signers that name the same signers fold to the same signature, in any order |
| Properties.LeBytesRoundTrip | multisig_hmac/multisig_hmac.py:45 | reading k little-endian bytes back gives the number written, when it fits in k bytes |
| Properties.Le32RoundTrip | multisig_hmac/multisig_hmac.py:45 | reading the four bytes of an index back gives the index |
| Properties.DerivationInputIndex | multisig_hmac/multisig_hmac.py:44-47 | the first HMAC message of a derivation is 12 bytes long, and its bytes 7 to 10 hold the index |
| Properties.DerivationInputInjective | multisig_hmac/multisig_hmac.py:44-47 | two indexes give the same first derivation message exactly when they are equal |
| Properties.DerivedSecretLengths | multisig_hmac/multisig_hmac.py:14-24 | a derived secret is as long as the block size for SHA-256 and SHA-512, and 96 bytes against a 128-byte block for SHA-384 |
| Properties.DerivedKeysWellIndexed | multisig_hmac/multisig_hmac.py:138-139 | the derived keys are stored in index order: key i has index i |
| Properties.CombineSigned | multisig_hmac/multisig_hmac.py:91-98 | combining single-signer tags succeeds exactly when no signer repeats; the result's bits are exactly the signers, and its digest is the XOR of the tags' digests over the zero buffer |
| Properties.RecomputeSignedBy | multisig_hmac/multisig_hmac.py:114-119 | when the key at each listed position p holds index p, the recomputed tag for p carries exactly bit p; keys at other positions play no part |
| Properties.CombinedMeaning | multisig_hmac/multisig_hmac.py:112-119 | when the key of every signer the bitfield names sits at its own position, recombining those signers' tags gives the bitfield back, with a digest BYTES long |
| Properties.CombinedLength | multisig_hmac/multisig_hmac.py:112-119 | whatever the key list holds, recombining the tags of the named positions gives a digest BYTES long |
| Properties.CancelledIff | multisig_hmac/multisig_hmac.py:117-121 | XOR-ing one signature into another of the same digest length leaves nothing exactly when the two are equal |
| Properties.VerifyMeaning | multisig_hmac/multisig_hmac.py:100-121 | for any key list long enough for the bitfield, and with well-formed inputs, verification returns true exactly when the bitfield names at least threshold signers and the signature equals the combination of their tags, and false otherwise; it never fails |
| Properties.CombinedTracks | multisig_hmac/multisig_hmac.py:112-119 | the recombined bitfield has at most as many bits as there are named positions, and as many exactly when the keys there carry distinct indexes; in that case its bits are those indexes |
| Properties.RecomputeSignedByKeys | multisig_hmac/multisig_hmac.py:114-116 | the tag recomputed for a listed position carries exactly the bit of the index stored in that position's key |
| Properties.NamedIndex | multisig_hmac/multisig_hmac.py:119 | when a bitfield has as many bits as its signers, every signer's bit is set |
| Properties.CombinedNamesKeys | multisig_hmac/multisig_hmac.py:112-121 | if the recombination of the named positions' tags gives back the bitfield, the key at every named position carries an index the bitfield names |
| Properties.MisplacedKeyRejects | multisig_hmac/multisig_hmac.py:112-121 | a named position whose key carries an index the bitfield does not name makes `verify` return false or fail a check, never return true |
| Properties.KeysOutOfOrder | build/lib/tests/test_stored.py:77-79 | signers 0 and 2 checked against the keys `[k0, k2, k1]` give false |
| Properties.CombineThenVerify | tests/test_stored_keys.py:103-129 | combining the tags of at least threshold distinct signers succeeds, and the result verifies against any key list that holds each signer's key at the signer's position, whatever it holds elsewhere |
| Properties.SignThenVerify | multisig_hmac/multisig_hmac.py:86-121 | one signer's tag verifies with threshold 1 against any key list holding that signer's key at its own position |
| Properties.VerifyThresholdMonotone | multisig_hmac/multisig_hmac.py:109-110 | a signature that verifies at some threshold also verifies at every lower positive threshold |
| Properties.VerifyDerivedIsVerify | multisig_hmac/multisig_hmac.py:123-145 | with a seed of the right type and length, `verifyDerived` returns what `verify` returns against the 32 keys derived from the seed |
| Properties.RecomputeFromSeed | multisig_hmac/multisig_hmac.py:138-141 | the tags of the keys in the derived key list are the tags `deriveKey` gives directly |
| Properties.CombineThenVerifyDerived | tests/test_derived.py:171-198 | combining the tags of at least threshold distinct derived-key signers succeeds, and the result verifies against the seed |
| Properties.SwapSignersKeepsVerify | multisig_hmac/multisig_hmac.py:114-117 | swapping the stored keys of two signers the bitfield names does not change the result of `verify` |
| Properties.SwapRecompute | multisig_hmac/multisig_hmac.py:114-117 | with the keys of two listed positions swapped, the recomputed tags are the same tags in another order (equal as multisets), and they fold to the same signature from any start |

## Left out

- `keygen` and `seedgen` are not modelled. They only draw `os.urandom` bytes. A key is any `(index, secret)` pair, and a seed is any byte string.
- HMAC and the hash primitives are left out. The model has HMAC as the parameter `mac` of an `Instance`.
  - `Valid` asks only that every digest is `bytes` long.
  - The block and digest sizes of SHA-256, SHA-384 and SHA-512 appear as constants.
  - Claims that rest on HMAC being a pseudorandom function are outside the model. Examples: derived keys are independent, and a wrong seed makes verification return false.
- Python integers are unbounded, and this is not modelled.
  - Key indexes are below 32 and bitfields are 32-bit values.
  - The original accepts larger indexes. Its SWAR `popcount` then miscounts, and such keys cannot take part in a 32-bit signer set.
  - `index.to_bytes` raising on indexes of 2^32 or more is unreachable here.
- Python's dynamic types are modelled only where the code checks them.
  - Data and the master seed are a `Value`: `bytes`, `bytearray` or `str`. Other types are not modelled.
  - A key is a pair with an index and a secret. A signature is a bitfield and a digest.
- `nlz` halves its step with `c >> 1`. The model writes `c / 2`, which is equal for the non-negative values the step takes.
- Multisig.Combine: its contract states only the failure reason. When it succeeds, and what it returns, is stated and proved by `Properties.CombineSigned` for tags of single signers.
- Multisig.Verify: its own contract covers the failed checks and the threshold. The outcome after those checks is stated for every key list by `Properties.VerifyMeaning`, with its consequences `Properties.MisplacedKeyRejects` and `Properties.SwapSignersKeepsVerify`.
- Multisig.VerifyDerived: the outcome of the recomputation is stated through `Properties.VerifyDerivedIsVerify` and `Properties.VerifyMeaning`.
