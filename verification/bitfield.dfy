/** Bitfield utilities of the multi-signer HMAC scheme.

    A signer set is a 32-bit mask: bit i is set when the key with index i
    took part.  This module gives the reference meaning of a mask (its bits,
    how many there are, where they are, how wide the mask is) and proves the
    three helpers of the scheme against it: the SWAR population count, the
    scan listing the set bit positions and the binary-search count of
    leading zeros.

    Bit positions are natural numbers.  The reference meaning shifts one
    place at a time; a shift by a variable amount, as the code writes it, is
    related to that by ShiftOnesIsShift.
 */
module Bitfield {

  /** A key index, which is also a bit position of the signer mask. */
  type Index = i: nat | i < 32

  /** x shifted right n times by one place. */
  function ShiftOnes(x: bv32, n: nat): bv32 {
    if n == 0 then x else ShiftOnes(x, n - 1) >> 1
  }

  /** Bit i of b is set. */
  predicate Bit(b: bv32, i: nat) {
    ShiftOnes(b, i) & 1 == 1
  }

  /** The mask holding only bit i, written as the original writes it. */
  function Single(i: Index): bv32 {
    1 << i
  }

  /* ---------------------------------------------------------------------
     Shifts.
     --------------------------------------------------------------------- */

  lemma ShiftStep(x: bv32, m: bv6)
    requires 0 < m <= 32
    ensures (x >> (m - 1)) >> 1 == x >> m
  {
  }

  /** One shift by a 6-bit amount m is m shifts by one. */
  lemma {:induction false} ShiftOnesIsShiftBy(x: bv32, m: bv6)
    requires m <= 32
    ensures ShiftOnes(x, m as nat) == x >> m
  {
    if m > 0 {
      ShiftOnesIsShiftBy(x, m - 1);
      ShiftStep(x, m);
    }
  }

  lemma AsShiftAmount(x: bv32, n: nat)
    requires n <= 32
    ensures (n as bv6) as nat == n
    ensures x >> n == x >> (n as bv6)
  {
  }

  /** One shift by n is n shifts by one. */
  lemma ShiftOnesIsShift(x: bv32, n: nat)
    requires n <= 32
    ensures ShiftOnes(x, n) == x >> n
  {
    AsShiftAmount(x, n);
    ShiftOnesIsShiftBy(x, n as bv6);
  }

  lemma ShiftOnesNext(x: bv32, i: nat)
    ensures ShiftOnes(x, i + 1) == ShiftOnes(x, i) >> 1
  {
  }

  /** Shifting i times and then j times is shifting i + j times. */
  lemma {:induction false} ShiftOnesAdd(x: bv32, i: nat, j: nat)
    ensures ShiftOnes(ShiftOnes(x, i), j) == ShiftOnes(x, i + j)
    decreases j
  {
    if j > 0 {
      ShiftOnesAdd(x, i, j - 1);
    }
  }

  lemma XorHalf(x: bv32, y: bv32)
    ensures (x ^ y) >> 1 == (x >> 1) ^ (y >> 1)
  {
  }

  lemma {:induction false} ShiftOnesXor(x: bv32, y: bv32, n: nat)
    ensures ShiftOnes(x ^ y, n) == ShiftOnes(x, n) ^ ShiftOnes(y, n)
    decreases n
  {
    if n > 0 {
      ShiftOnesXor(x, y, n - 1);
      XorHalf(ShiftOnes(x, n - 1), ShiftOnes(y, n - 1));
      assert ShiftOnes(x ^ y, n) == ShiftOnes(x ^ y, n - 1) >> 1;
    }
  }

  lemma {:induction false} ZeroShifts(n: nat)
    ensures ShiftOnes(0, n) == 0
    decreases n
  {
    if n > 0 {
      ZeroShifts(n - 1);
    }
  }

  /** Shifting a 32-bit value 32 times leaves nothing. */
  lemma ShiftsOut(x: bv32)
    ensures ShiftOnes(x, 32) == 0
  {
    ShiftOnesIsShift(x, 32);
  }

  /** Bit j of x shifted by k is bit k + j of x. */
  lemma BitOfShift(x: bv32, k: nat, j: nat)
    ensures Bit(ShiftOnes(x, k), j) <==> Bit(x, k + j)
  {
    ShiftOnesAdd(x, k, j);
  }

  /** Once x shifted by w is zero, no bit at or above w is set. */
  lemma NoBitAbove(x: bv32, w: nat, j: nat)
    requires w <= j
    requires ShiftOnes(x, w) == 0
    ensures !Bit(x, j)
  {
    ShiftOnesAdd(x, w, j - w);
    ZeroShifts(j - w);
  }

  /** A 32-bit mask has no bit at position 32 or above. */
  lemma NoBitPast(x: bv32, j: nat)
    requires 32 <= j
    ensures !Bit(x, j)
  {
    ShiftsOut(x);
    NoBitAbove(x, 32, j);
  }

  /** Every set bit of a 32-bit mask lies below 32. */
  lemma SetBitsBelow(x: bv32)
    ensures forall j: nat :: Bit(x, j) ==> j < 32
  {
    forall j: nat | 32 <= j ensures !Bit(x, j) {
      NoBitPast(x, j);
    }
  }

  /* ---------------------------------------------------------------------
     Reference meaning of a mask.
     --------------------------------------------------------------------- */

  /** The number of set bits of b below position n. */
  function Count(b: bv32, n: nat): (c: nat)
    ensures c <= n
  {
    if n == 0 then 0 else Count(b, n - 1) + (if Bit(b, n - 1) then 1 else 0)
  }

  /** The set bit positions of b below n, in ascending order. */
  function Positions(b: bv32, n: nat): seq<nat> {
    if n == 0 then [] else Positions(b, n - 1) + (if Bit(b, n - 1) then [n - 1] else [])
  }

  /** One more than the highest set bit of b below n; 0 when there is none. */
  function Width(b: bv32, n: nat): (w: nat)
    ensures w <= n
  {
    if n == 0 then 0 else if Bit(b, n - 1) then n else Width(b, n - 1)
  }

  predicate StrictlyAscending(xs: seq<nat>) {
    forall j, k :: 0 <= j < k < |xs| ==> xs[j] < xs[k]
  }

  /** Positions lists exactly the set bits, once each, in ascending order. */
  lemma {:induction false} PositionsMeaning(b: bv32, n: nat)
    ensures |Positions(b, n)| == Count(b, n)
    ensures StrictlyAscending(Positions(b, n))
    ensures forall k :: 0 <= k < |Positions(b, n)| ==> Positions(b, n)[k] < n
    ensures forall i: nat :: i in Positions(b, n) <==> i < n && Bit(b, i)
  {
    if n > 0 {
      PositionsMeaning(b, n - 1);
    }
  }

  /** Every set bit lies below the width, and the bit just below it is set. */
  lemma {:induction false} WidthMeaning(b: bv32, n: nat)
    ensures forall i: nat :: Width(b, n) <= i < n ==> !Bit(b, i)
    ensures Width(b, n) > 0 ==> Bit(b, Width(b, n) - 1)
  {
    if n > 0 {
      WidthMeaning(b, n - 1);
    }
  }

  /** A mask has no more set bits than its width: all of them lie below it. */
  lemma {:induction false} CountAtMostWidth(b: bv32, n: nat)
    ensures Count(b, n) <= Width(b, n)
  {
    if n > 0 {
      CountAtMostWidth(b, n - 1);
    }
  }

  /** The width is fixed by the two facts that WidthMeaning states. */
  lemma {:induction false} WidthFromShift(b: bv32, w: nat, n: nat)
    requires w <= n
    requires ShiftOnes(b, w) == 0
    requires w > 0 ==> Bit(b, w - 1)
    ensures Width(b, n) == w
  {
    if n > w {
      NoBitAbove(b, w, n - 1);
      WidthFromShift(b, w, n - 1);
    }
  }

  /** Splitting the count below k + n at position k. */
  lemma {:induction false} CountSplit(b: bv32, k: nat, n: nat)
    ensures Count(b, k + n) == Count(b, k) + Count(ShiftOnes(b, k), n)
  {
    if n > 0 {
      CountSplit(b, k, n - 1);
      BitOfShift(b, k, n - 1);
    }
  }

  /* ---------------------------------------------------------------------
     Single-bit masks and XOR.
     --------------------------------------------------------------------- */

  lemma SingleShift(i: Index, j: Index)
    ensures ((1 as bv32 << i) >> j) & 1 == 1 <==> i == j
  {
  }

  lemma BitOfSingle(i: Index, j: nat)
    ensures Bit(Single(i), j) <==> i == j
  {
    if j < 32 {
      ShiftOnesIsShift(Single(i), j);
      SingleShift(i, j);
    } else {
      NoBitPast(Single(i), j);
    }
  }

  lemma BitOfXor(x: bv32, y: bv32, j: nat)
    ensures Bit(x ^ y, j) <==> (Bit(x, j) != Bit(y, j))
  {
    ShiftOnesXor(x, y, j);
  }

  lemma BitOfFlip(x: bv32, i: Index, j: nat)
    ensures Bit(x ^ Single(i), j) <==> (Bit(x, j) != (i == j))
  {
    BitOfXor(x, Single(i), j);
    BitOfSingle(i, j);
  }

  /** The mask `1 << i` has exactly one set bit, bit i. */
  lemma {:induction false} SingleCount(i: Index, n: nat)
    ensures Count(Single(i), n) == (if i < n then 1 else 0)
  {
    if n > 0 {
      SingleCount(i, n - 1);
      BitOfSingle(i, n - 1);
    }
  }

  /** Toggling bit i: the count moves by one and only bit i changes. */
  lemma FlipMeaning(f: bv32, i: Index)
    ensures Count(f ^ Single(i), 32) == if Bit(f, i) then Count(f, 32) - 1 else Count(f, 32) + 1
    ensures forall j: nat :: Bit(f ^ Single(i), j) <==> (Bit(f, j) != (i == j))
  {
    CountFlip(f, i, 32);
    forall j: nat ensures Bit(f ^ Single(i), j) <==> (Bit(f, j) != (i == j)) {
      BitOfFlip(f, i, j);
    }
  }

  // XOR of masks, one fact at a time.

  lemma MaskXorZero(a: bv32)
    ensures a ^ 0 == a && 0 ^ a == a
  {
  }

  lemma MaskXorTwice(a: bv32, x: bv32)
    ensures a ^ x ^ x == a
  {
  }

  lemma MaskXorSwap(a: bv32, x: bv32, y: bv32)
    ensures a ^ x ^ y == a ^ y ^ x
  {
  }

  lemma MaskXorAssociates(a: bv32, x: bv32, y: bv32)
    ensures (a ^ x) ^ y == a ^ (x ^ y)
  {
  }

  lemma MaskXorZeroIff(a: bv32, x: bv32)
    ensures a ^ x == 0 <==> a == x
  {
  }

  /** The mask `1 << i` has exactly one set bit, bit i. */
  lemma SingleMeaning(i: Index)
    ensures forall j: nat :: Bit(Single(i), j) <==> j == i
    ensures Popcount(Single(i)) == 1
  {
    forall j: nat ensures Bit(Single(i), j) <==> j == i {
      BitOfSingle(i, j);
    }
    SingleCount(i, 32);
  }

  /** Every listed position lies below the width. */
  lemma PositionsBelowWidth(b: bv32)
    ensures forall k :: 0 <= k < |Positions(b, 32)| ==> Positions(b, 32)[k] < Width(b, 32)
  {
    PositionsMeaning(b, 32);
    WidthMeaning(b, 32);
    forall k | 0 <= k < |Positions(b, 32)|
      ensures Positions(b, 32)[k] < Width(b, 32)
    {
      var p := Positions(b, 32)[k];
      assert p in Positions(b, 32);
    }
  }

  lemma {:induction false} CountAtLeastBit(x: bv32, i: nat, n: nat)
    requires i < n
    requires Bit(x, i)
    ensures Count(x, n) >= 1
  {
    if i < n - 1 {
      CountAtLeastBit(x, i, n - 1);
    }
  }

  /** Toggling bit i moves the count by one: down if it was set, up if not. */
  lemma {:induction false} CountFlip(x: bv32, i: Index, n: nat)
    ensures Count(x ^ Single(i), n)
            == if n <= i then Count(x, n) else if Bit(x, i) then Count(x, n) - 1 else Count(x, n) + 1
  {
    if n > 0 {
      CountFlip(x, i, n - 1);
      BitOfFlip(x, i, n - 1);
      if i < n - 1 && Bit(x, i) {
        CountAtLeastBit(x, i, n - 1);
      }
    }
  }

  /** With every bit from k upwards clear, x shifted by k is zero. */
  lemma {:induction false} ClearFrom(x: bv32, k: nat)
    requires k <= 32
    requires forall j: nat :: k <= j < 32 ==> !Bit(x, j)
    ensures ShiftOnes(x, k) == 0
    decreases 32 - k
  {
    if k < 32 {
      assert !Bit(x, k);
      ClearFrom(x, k + 1);
      ShiftOnesNext(x, k);
      LastBit(ShiftOnes(x, k));
    } else {
      ShiftsOut(x);
    }
  }

  lemma LastBit(y: bv32)
    requires y >> 1 == 0 && y & 1 != 1
    ensures y == 0
  {
  }

  /** Masks with the same bits are equal. */
  lemma SameBits(x: bv32, y: bv32)
    requires forall j: Index :: Bit(x, j) <==> Bit(y, j)
    ensures x == y
  {
    var z := x ^ y;
    forall j: nat | j < 32 ensures !Bit(z, j) {
      BitOfXor(x, y, j);
    }
    ClearFrom(z, 0);
    MaskXorZeroIff(x, y);
  }

  /* ---------------------------------------------------------------------
     keyIndexes and nlz.
     --------------------------------------------------------------------- */

  /** Once x shifted by k is zero, the positions below n are those below k. */
  lemma {:induction false} PositionsFrom(b: bv32, k: nat, n: nat)
    requires k <= n
    requires ShiftOnes(b, k) == 0
    ensures Positions(b, n) == Positions(b, k)
  {
    if n > k {
      PositionsFrom(b, k, n - 1);
      NoBitAbove(b, k, n - 1);
    }
  }

  lemma PositionsNext(b: bv32, i: nat)
    ensures Positions(b, i + 1) == Positions(b, i) + if Bit(b, i) then [i] else []
  {
  }

  /** What holds before each step of the scan: x is the mask shifted i
      places and xs lists the set bits below i. */
  ghost predicate ScanInv(b: bv32, x: bv32, i: nat, xs: seq<nat>) {
    x == ShiftOnes(b, i) && xs == Positions(b, i)
  }

  /** The indexes of the keys a mask names: its set bit positions, found
      by shifting the mask right until it is zero. */
  method KeyIndexes(bitfield: bv32) returns (xs: seq<nat>)
    ensures xs == Positions(bitfield, 32)
    ensures |xs| == Popcount(bitfield)
    ensures StrictlyAscending(xs)
    ensures forall i: nat :: i in xs <==> Bit(bitfield, i)
  {
    var x := bitfield;
    var i := 0;
    xs := [];
    while x != 0
      invariant ScanInv(bitfield, x, i, xs)
      decreases x
    {
      ScanStep(bitfield, x, i, xs);
      xs := if x & 1 == 1 then xs + [i] else xs;
      x := x >> 1;
      i := i + 1;
    }
    ScanDone(bitfield, x, i, xs);
  }

  /** One step of the scan keeps its invariant and shrinks what is left. */
  lemma ScanStep(b: bv32, x: bv32, i: nat, xs: seq<nat>)
    requires ScanInv(b, x, i, xs)
    ensures ScanInv(b, x >> 1, i + 1, if x & 1 == 1 then xs + [i] else xs)
    ensures x >> 1 < x || x == 0
  {
    ShiftOnesNext(b, i);
    PositionsNext(b, i);
    HalfSmaller(x);
  }

  lemma HalfSmaller(x: bv32)
    ensures x >> 1 < x || x == 0
  {
  }

  /** Once nothing is left of the mask, the scan has listed every set bit. */
  lemma ScanDone(b: bv32, x: bv32, i: nat, xs: seq<nat>)
    requires ScanInv(b, x, i, xs) && x == 0
    ensures xs == Positions(b, 32)
    ensures |xs| == Popcount(b)
    ensures StrictlyAscending(xs)
    ensures forall k: nat :: k in xs <==> Bit(b, k)
  {
    ShiftsOut(b);
    if i <= 32 {
      PositionsFrom(b, i, 32);
    } else {
      PositionsFrom(b, 32, i);
    }
    PositionsMeaning(b, 32);
    SetBitsBelow(b);
  }

  /** How many low bits of the value nlz holds can be set while its step
      is c: 2c, and 1 once the step has reached 0. */
  function Reach(c: nat): nat {
    if c == 0 then 1 else c + c
  }

  /** The steps nlz takes, one after the other. */
  predicate Step(c: int) {
    c == 16 || c == 8 || c == 4 || c == 2 || c == 1 || c == 0
  }

  /** What holds before each step of nlz: x is the mask shifted s places,
      n = 32 - s, and at most Reach(c) low bits of x can be set. */
  ghost predicate NlzInv(b: bv32, x: bv32, s: nat, n: int, c: int) {
    && Step(c)
    && s + Reach(c) <= 32
    && n == 32 - s
    && x == ShiftOnes(b, s)
    && ShiftOnes(x, Reach(c)) == 0
    && (x == 0 ==> s == 0)
  }

  /** The number of leading zeros of a 32-bit mask, by binary search: what
      is left of the mask is shifted right by 16, 8, 4, 2 and 1 places
      whenever the shifted value is non-zero.  The step is halved with
      `c / 2`, which is the original's `c >> 1` on a non-negative number. */
  method Nlz(bitfield: bv32) returns (r: int)
    ensures r == 32 - Width(bitfield, 32)
    ensures 0 <= r <= 32
  {
    var n := 32;
    var c := 16;
    var x := bitfield;
    ghost var s: nat := 0;  // how far x has been shifted
    NlzStart(bitfield);
    while c != 0
      invariant NlzInv(bitfield, x, s, n, c)
    {
      NlzStep(bitfield, x, s, n, c);
      var y := x >> c;
      if y != 0 {
        n := n - c;
        x := y;
        s := s + c;
      }
      c := c / 2;
    }
    NlzResult(bitfield, x, s, n);
    r := n - x as int;
  }

  lemma NlzStart(b: bv32)
    ensures NlzInv(b, b, 0, 32, 16)
  {
    ShiftsOut(b);
  }

  /** One step of nlz keeps its invariant, whether it shifts or not. */
  lemma NlzStep(b: bv32, x: bv32, s: nat, n: int, c: int)
    requires NlzInv(b, x, s, n, c) && c != 0
    ensures 0 < c <= 16
    ensures x >> c != 0 ==> NlzInv(b, x >> c, s + c, n - c, c / 2)
    ensures x >> c == 0 ==> NlzInv(b, x, s, n, c / 2)
  {
    NlzShift(b, x, s, c);
  }

  /** Shifting by c: the shifted value is the mask shifted s + c places,
      and what is kept fits in c bits. */
  lemma NlzShift(b: bv32, x: bv32, s: nat, c: nat)
    requires c <= 16 && s + c + c <= 32
    requires x == ShiftOnes(b, s)
    requires ShiftOnes(x, c + c) == 0
    ensures ShiftOnes(x, c) == x >> c
    ensures ShiftOnes(b, s + c) == x >> c
    ensures ShiftOnes(x >> c, c) == 0
  {
    ShiftOnesIsShift(x, c);
    ShiftOnesAdd(b, s, c);
    ShiftOnesAdd(x, c, c);
  }

  /** What nlz returns once the search is over. */
  lemma NlzResult(b: bv32, x: bv32, s: nat, n: int)
    requires NlzInv(b, x, s, n, 0)
    ensures n - x as int == 32 - Width(b, 32)
  {
    if x == 0 {
      WidthFromShift(b, 0, 32);
    } else {
      ShiftOnesNext(x, 0);
      WidthAbove(b, s);
    }
  }

  /** The highest set bit below 32 is bit s when nothing is left above it. */
  lemma WidthAbove(b: bv32, s: nat)
    requires s < 32
    requires ShiftOnes(b, s) == 1
    ensures Width(b, 32) == s + 1
  {
    ShiftOnesNext(b, s);
    WidthFromShift(b, s + 1, 32);
  }

  /* ---------------------------------------------------------------------
     popcount: the SWAR count.
     --------------------------------------------------------------------- */

  /** The number of set bits of b, computed as the original does: 2-bit
      fields, 4-bit fields and bytes hold the counts of their bits, the four
      bytes are folded into the low one, and the low six bits are kept.
      Every intermediate value of the original stays below 2^32, so 32-bit
      arithmetic computes the same values. */
  function Popcount(b: bv32): (r: nat)
    ensures r == Count(b, 32)
    ensures r <= 32
  {
    var s1 := b - ((b >> 1) & 0x5555_5555);
    var s2 := (s1 & 0x3333_3333) + ((s1 >> 2) & 0x3333_3333);
    var s3 := (s2 + (s2 >> 4)) & 0x0F0F_0F0F;
    var s4 := s3 + (s3 >> 8);
    var s5 := s4 + (s4 >> 16);
    SwarCountsBits(b, s1, s2, s3, s4, s5);
    (s5 & 0x3F) as nat
  }

  // The proof works on named intermediate values, one bit-vector fact per
  // lemma, so that no single proof obligation mixes the bit-level
  // arithmetic of the code with the recursive reference functions.

  /** The first three steps of the original, which count bits per byte. */
  predicate SwarSteps(b: bv32, s1: bv32, s2: bv32, s3: bv32) {
    && s1 == b - ((b >> 1) & 0x5555_5555)
    && s2 == (s1 & 0x3333_3333) + ((s1 >> 2) & 0x3333_3333)
    && s3 == (s2 + (s2 >> 4)) & 0x0F0F_0F0F
  }

  /** The SWAR count equals the number of set bits. */
  lemma SwarCountsBits(b: bv32, s1: bv32, s2: bv32, s3: bv32, s4: bv32, s5: bv32)
    requires SwarSteps(b, s1, s2, s3)
    requires s4 == s3 + (s3 >> 8)
    requires s5 == s4 + (s4 >> 16)
    ensures (s5 & 0x3F) as nat == Count(b, 32)
  {
    SwarSums(b, s1, s2, s3, s4, s5);
    CountBytes(b);
  }

  /** The folded low six bits are the sum of the bit counts of the four bytes. */
  lemma SwarSums(b: bv32, s1: bv32, s2: bv32, s3: bv32, s4: bv32, s5: bv32)
    requires SwarSteps(b, s1, s2, s3)
    requires s4 == s3 + (s3 >> 8)
    requires s5 == s4 + (s4 >> 16)
    ensures (s5 & 0x3F) as nat == Count(b, 8) + Count(ShiftOnes(b, 8), 8) + Count(ShiftOnes(b, 16), 8) + Count(ShiftOnes(b, 24), 8)
  {
    var c0, c1, c2, c3 := s3 & 0xFF, (s3 >> 8) & 0xFF, (s3 >> 16) & 0xFF, (s3 >> 24) & 0xFF;
    SwarBytesSmall(b, s1, s2, s3);
    FoldBytes(s3, s4, s5, c0, c1, c2, c3, s3 >> 16, s4 >> 16, c0 + c1, c2 + c3);
    ByteCount0(b, s1, s2, s3, c0);
    ByteCount1(b, s1, s2, s3, c1);
    ByteCount2(b, s1, s2, s3, c2);
    ByteCount3(b, s1, s2, s3, c3);
    AddFour(c0, c1, c2, c3, c0 + c1, c2 + c3, s5 & 0x3F);
  }

  // The three byte shifts, each stated with a literal amount so that the
  // per-byte proofs need no conversion between integers and bit-vectors.

  lemma ShiftByEight(x: bv32)
    ensures ShiftOnes(x, 8) == x >> 8
  {
    ShiftOnesIsShiftBy(x, 8);
  }

  lemma ShiftBySixteen(x: bv32)
    ensures ShiftOnes(x, 16) == x >> 16
  {
    ShiftOnesIsShiftBy(x, 16);
  }

  lemma ShiftByTwentyFour(x: bv32)
    ensures ShiftOnes(x, 24) == x >> 24
  {
    ShiftOnesIsShiftBy(x, 24);
  }

  // Per byte: the third step leaves in each byte the sum of its eight bits.

  lemma ByteBits0(b: bv32, s1: bv32, s2: bv32, s3: bv32, c: bv32)
    requires SwarSteps(b, s1, s2, s3)
    requires c == s3 & 0xFF
    ensures c == ((b & 1) + ((b >> 1) & 1)) + (((b >> 2) & 1) + ((b >> 3) & 1))
                 + ((((b >> 4) & 1) + ((b >> 5) & 1)) + (((b >> 6) & 1) + ((b >> 7) & 1)))
  {
  }

  lemma ByteBits1(b: bv32, s1: bv32, s2: bv32, s3: bv32, y: bv32, c: bv32)
    requires SwarSteps(b, s1, s2, s3)
    requires y == b >> 8
    requires c == (s3 >> 8) & 0xFF
    ensures c == ((y & 1) + ((y >> 1) & 1)) + (((y >> 2) & 1) + ((y >> 3) & 1))
                 + ((((y >> 4) & 1) + ((y >> 5) & 1)) + (((y >> 6) & 1) + ((y >> 7) & 1)))
  {
  }

  lemma ByteBits2(b: bv32, s1: bv32, s2: bv32, s3: bv32, y: bv32, c: bv32)
    requires SwarSteps(b, s1, s2, s3)
    requires y == b >> 16
    requires c == (s3 >> 16) & 0xFF
    ensures c == ((y & 1) + ((y >> 1) & 1)) + (((y >> 2) & 1) + ((y >> 3) & 1))
                 + ((((y >> 4) & 1) + ((y >> 5) & 1)) + (((y >> 6) & 1) + ((y >> 7) & 1)))
  {
  }

  lemma ByteBits3(b: bv32, s1: bv32, s2: bv32, s3: bv32, y: bv32, c: bv32)
    requires SwarSteps(b, s1, s2, s3)
    requires y == b >> 24
    requires c == (s3 >> 24) & 0xFF
    ensures c == ((y & 1) + ((y >> 1) & 1)) + (((y >> 2) & 1) + ((y >> 3) & 1))
                 + ((((y >> 4) & 1) + ((y >> 5) & 1)) + (((y >> 6) & 1) + ((y >> 7) & 1)))
  {
  }

  // Per byte: that sum is the number of set bits of the byte.

  lemma ByteCount0(b: bv32, s1: bv32, s2: bv32, s3: bv32, c: bv32)
    requires SwarSteps(b, s1, s2, s3)
    requires c == s3 & 0xFF
    ensures c as nat == Count(b, 8) && c <= 8
  {
    ByteBits0(b, s1, s2, s3, c);
    CountEight(b, c);
  }

  lemma ByteCount1(b: bv32, s1: bv32, s2: bv32, s3: bv32, c: bv32)
    requires SwarSteps(b, s1, s2, s3)
    requires c == (s3 >> 8) & 0xFF
    ensures c as nat == Count(ShiftOnes(b, 8), 8) && c <= 8
  {
    ShiftByEight(b);
    ByteBits1(b, s1, s2, s3, b >> 8, c);
    CountEight(b >> 8, c);
  }

  lemma ByteCount2(b: bv32, s1: bv32, s2: bv32, s3: bv32, c: bv32)
    requires SwarSteps(b, s1, s2, s3)
    requires c == (s3 >> 16) & 0xFF
    ensures c as nat == Count(ShiftOnes(b, 16), 8) && c <= 8
  {
    ShiftBySixteen(b);
    ByteBits2(b, s1, s2, s3, b >> 16, c);
    CountEight(b >> 16, c);
  }

  lemma ByteCount3(b: bv32, s1: bv32, s2: bv32, s3: bv32, c: bv32)
    requires SwarSteps(b, s1, s2, s3)
    requires c == (s3 >> 24) & 0xFF
    ensures c as nat == Count(ShiftOnes(b, 24), 8) && c <= 8
  {
    ShiftByTwentyFour(b);
    ByteBits3(b, s1, s2, s3, b >> 24, c);
    CountEight(b >> 24, c);
  }

  /** The sum of the low eight bits of y is their count. */
  lemma CountEight(y: bv32, c: bv32)
    requires c == ((y & 1) + ((y >> 1) & 1)) + (((y >> 2) & 1) + ((y >> 3) & 1))
                 + ((((y >> 4) & 1) + ((y >> 5) & 1)) + (((y >> 6) & 1) + ((y >> 7) & 1)))
    ensures c as nat == Count(y, 8)
    ensures c <= 8
  {
    var z := y >> 4;
    var lo := ((y & 1) + ((y >> 1) & 1)) + (((y >> 2) & 1) + ((y >> 3) & 1));
    var hi := ((z & 1) + ((z >> 1) & 1)) + (((z >> 2) & 1) + ((z >> 3) & 1));
    CountFour(y, lo);
    CountFour(z, hi);
    SplitEight(y, z, c, lo, hi);
    AddSmall(lo, hi, c);
    CountHalves(y);
  }

  /** The count of eight bits is the count of the low four plus that of the high four. */
  lemma CountHalves(y: bv32)
    ensures Count(y, 8) == Count(y, 4) + Count(y >> 4, 4)
  {
    ShiftOnesIsShift(y, 4);
    CountSplit(y, 4, 4);
  }

  lemma SplitEight(y: bv32, z: bv32, c: bv32, lo: bv32, hi: bv32)
    requires z == y >> 4
    requires c == ((y & 1) + ((y >> 1) & 1)) + (((y >> 2) & 1) + ((y >> 3) & 1))
                 + ((((y >> 4) & 1) + ((y >> 5) & 1)) + (((y >> 6) & 1) + ((y >> 7) & 1)))
    requires lo == ((y & 1) + ((y >> 1) & 1)) + (((y >> 2) & 1) + ((y >> 3) & 1))
    requires hi == ((z & 1) + ((z >> 1) & 1)) + (((z >> 2) & 1) + ((z >> 3) & 1))
    ensures c == lo + hi
  {
  }

  /** The sum of the low four bits of y is their count. */
  lemma CountFour(y: bv32, c: bv32)
    requires c == ((y & 1) + ((y >> 1) & 1)) + (((y >> 2) & 1) + ((y >> 3) & 1))
    ensures c as nat == Count(y, 4)
    ensures c <= 4
  {
    var d0, d1, d2, d3 := y & 1, (y >> 1) & 1, (y >> 2) & 1, (y >> 3) & 1;
    BitValue(y, 0, d0);
    BitValue(y, 1, d1);
    BitValue(y, 2, d2);
    BitValue(y, 3, d3);
    AddSmall(d0, d1, d0 + d1);
    AddSmall(d2, d3, d2 + d3);
    AddSmall(d0 + d1, d2 + d3, c);
    CountNext(y, 1);
    CountNext(y, 2);
    CountNext(y, 3);
  }

  lemma CountNext(b: bv32, n: nat)
    ensures Count(b, n + 1) == Count(b, n) + if Bit(b, n) then 1 else 0
  {
  }

  lemma BitValue(y: bv32, j: nat, d: bv32)
    requires j < 32
    requires d == (y >> j) & 1
    ensures d as nat == if Bit(y, j) then 1 else 0
    ensures d <= 1
  {
    ShiftOnesIsShift(y, j);
  }

  /** A 32-bit sum of small values is exact. */
  lemma AddSmall(u: bv32, v: bv32, w: bv32)
    requires u <= 16 && v <= 16 && w == u + v
    ensures w as nat == u as nat + v as nat
    ensures u <= 1 && v <= 1 ==> w <= 2
    ensures u <= 2 && v <= 2 ==> w <= 4
    ensures u <= 4 && v <= 4 ==> w <= 8
    ensures u <= 8 && v <= 8 ==> w <= 16
  {
  }

  lemma AddFour(c0: bv32, c1: bv32, c2: bv32, c3: bv32, u: bv32, v: bv32, r: bv32)
    requires c0 <= 8 && c1 <= 8 && c2 <= 8 && c3 <= 8
    requires u == c0 + c1 && v == c2 + c3 && r == u + v
    ensures r as nat == c0 as nat + c1 as nat + c2 as nat + c3 as nat
  {
    AddSmall(c0, c1, u);
    AddSmall(c2, c3, v);
    AddSmall(u, v, r);
  }

  // The fold: no byte count reaches 16, so adding shifted copies of the
  // word never carries from one byte into the next.

  lemma SwarBytesSmall(b: bv32, s1: bv32, s2: bv32, s3: bv32)
    requires SwarSteps(b, s1, s2, s3)
    ensures s3 & 0xF0F0_F0F0 == 0
  {
  }

  /** The high half of the first fold is the fold of the high half of s3. */
  lemma FoldHigh(s3: bv32, s4: bv32, h: bv32, y: bv32)
    requires s3 & 0xF0F0_F0F0 == 0
    requires s4 == s3 + (s3 >> 8)
    requires h == s3 >> 16 && y == s4 >> 16
    ensures y == h + (h >> 8)
    ensures h & 0xF0F0 == 0 && s3 & 0xF0F0 == 0
    ensures (h >> 8) & 0xFF == (s3 >> 24) & 0xFF
  {
  }

  /** Two bytes of at most 15 add up without a carry. */
  lemma FoldPair(x: bv32, y: bv32, c0: bv32, c1: bv32, u: bv32)
    requires x & 0xF0F0 == 0
    requires y == x + (x >> 8)
    requires c0 == x & 0xFF && c1 == (x >> 8) & 0xFF
    requires u == c0 + c1
    ensures y & 0xFF == u && u <= 30
  {
  }

  lemma FoldLast(s4: bv32, s5: bv32, y: bv32, u: bv32, v: bv32)
    requires s5 == s4 + (s4 >> 16)
    requires y == s4 >> 16
    requires u == s4 & 0xFF && v == y & 0xFF
    requires u <= 30 && v <= 30
    ensures s5 & 0x3F == u + v
  {
  }

  /** The low six bits of the second fold add up the four byte counts. */
  lemma FoldBytes(s3: bv32, s4: bv32, s5: bv32, c0: bv32, c1: bv32, c2: bv32, c3: bv32,
                  h: bv32, y: bv32, u: bv32, v: bv32)
    requires s3 & 0xF0F0_F0F0 == 0
    requires s4 == s3 + (s3 >> 8)
    requires s5 == s4 + (s4 >> 16)
    requires c0 == s3 & 0xFF && c1 == (s3 >> 8) & 0xFF && c2 == (s3 >> 16) & 0xFF && c3 == (s3 >> 24) & 0xFF
    requires h == s3 >> 16 && y == s4 >> 16
    requires u == c0 + c1 && v == c2 + c3
    ensures s5 & 0x3F == u + v
  {
    FoldHigh(s3, s4, h, y);
    FoldPair(s3, s4, c0, c1, u);
    FoldPair(h, y, c2, c3, v);
    FoldLast(s4, s5, y, u, v);
  }

  /** The reference count of a word is the sum of the counts of its bytes. */
  lemma CountBytes(b: bv32)
    ensures Count(b, 32) == Count(b, 8) + Count(ShiftOnes(b, 8), 8) + Count(ShiftOnes(b, 16), 8) + Count(ShiftOnes(b, 24), 8)
  {
    CountSplit(b, 8, 24);
    CountSplit(ShiftOnes(b, 8), 8, 16);
    ShiftOnesAdd(b, 8, 8);
    CountSplit(ShiftOnes(b, 16), 8, 8);
    ShiftOnesAdd(b, 16, 8);
  }
}
