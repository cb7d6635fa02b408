/**
 * Bytes, NUL-terminated subjects and the bit arithmetic behind the class
 * bitmaps of include/regexp.h.
 *
 * A byte is an integer in 0..255.  The C operators |, & and ^ on bytes are
 * defined bit by bit, so that what a PLACE or an ISTHERE does to one bit can
 * be proved instead of taken for granted.
 */
module Bytes {

  datatype Option<+T> = None | Some(value: T)

  type Byte = b: int | 0 <= b < 256

  /** A C string: bytes, none of them NUL, followed by one NUL. */
  type Subject = t: seq<Byte> |
      |t| > 0 && t[|t| - 1] == 0 && forall i :: 0 <= i < |t| - 1 ==> t[i] != 0
    witness [0]

  /** Index of the terminating NUL, which is also the length strlen reports. */
  function Len(t: Subject): nat { |t| - 1 }

  predicate NulFree(s: seq<Byte>) { forall i :: 0 <= i < |s| ==> s[i] != 0 }

  // ----- bits -----

  function Pow2(n: nat): nat { if n == 0 then 1 else 2 * Pow2(n - 1) }

  function Bit(x: nat, k: nat): bool {
    if k == 0 then x % 2 == 1 else Bit(x / 2, k - 1)
  }

  datatype BitOp = OrOp | AndOp | XorOp

  function OnBits(op: BitOp, a: bool, b: bool): bool {
    match op
    case OrOp => a || b
    case AndOp => a && b
    case XorOp => a != b
  }

  /** The number whose every bit is `op` of the bits of x and y. */
  function Combine(op: BitOp, x: nat, y: nat): nat {
    if x == 0 && y == 0 then 0
    else 2 * Combine(op, x / 2, y / 2) +
         if OnBits(op, x % 2 == 1, y % 2 == 1) then 1 else 0
  }

  lemma {:induction false} CombineBound(op: BitOp, x: nat, y: nat, n: nat)
    requires x < Pow2(n) && y < Pow2(n)
    ensures Combine(op, x, y) < Pow2(n)
  {
    if n > 0 && !(x == 0 && y == 0) { CombineBound(op, x / 2, y / 2, n - 1); }
  }

  lemma {:induction false} CombineBytes(op: BitOp, x: Byte, y: Byte)
    ensures Combine(op, x, y) < 256
  {
    assert Pow2(8) == 256;
    CombineBound(op, x, y, 8);
  }

  function Or(x: Byte, y: Byte): Byte { CombineBytes(OrOp, x, y); Combine(OrOp, x, y) }
  function And(x: Byte, y: Byte): Byte { CombineBytes(AndOp, x, y); Combine(AndOp, x, y) }
  function Xor(x: Byte, y: Byte): Byte { CombineBytes(XorOp, x, y); Combine(XorOp, x, y) }

  lemma {:induction false} CombineBit(op: BitOp, x: nat, y: nat, k: nat)
    ensures Bit(Combine(op, x, y), k) == OnBits(op, Bit(x, k), Bit(y, k))
    decreases k
  {
    if x == 0 && y == 0 {
      ZeroBit(k);
    } else if k > 0 {
      CombineBit(op, x / 2, y / 2, k - 1);
      assert Combine(op, x, y) / 2 == Combine(op, x / 2, y / 2);
    }
  }

  lemma {:induction false} Pow2Bit(j: nat, k: nat)
    ensures Bit(Pow2(j), k) <==> j == k
  {
    if j == 0 {
      if k > 0 { ZeroBit(k - 1); }
    } else if k > 0 {
      Pow2Bit(j - 1, k - 1);
    }
  }

  lemma {:induction false} ZeroBit(k: nat)
    ensures !Bit(0, k)
  {
    if k > 0 { ZeroBit(k - 1); }
  }

  /** A number below 2^n is determined by its n low bits. */
  lemma {:induction false} BitsDetermine(x: nat, y: nat, n: nat)
    requires x < Pow2(n) && y < Pow2(n)
    requires forall k | 0 <= k < n :: Bit(x, k) == Bit(y, k)
    ensures x == y
  {
    if n > 0 {
      assert Bit(x, 0) == Bit(y, 0);
      forall k | 0 <= k < n - 1 ensures Bit(x / 2, k) == Bit(y / 2, k) {
        assert Bit(x, k + 1) == Bit(y, k + 1);
      }
      BitsDetermine(x / 2, y / 2, n - 1);
    }
  }

  // ----- bitmaps -----

  /** The number whose bit k says whether lo + k is in the set, for lo + k below hi. */
  function FromBits(s: set<Byte>, lo: nat, hi: nat): (r: nat)
    requires lo <= hi
    ensures r < Pow2(hi - lo)
    decreases hi - lo
  {
    if lo == hi then 0
    else (if lo in s then 1 else 0) + 2 * FromBits(s, lo + 1, hi)
  }

  function PackByte(s: set<Byte>, i: nat): Byte {
    assert Pow2(8) == 256;
    FromBits(s, 8 * i, 8 * i + 8)
  }

  /** The cells are the bitmap of a set: bit c % 8 of byte c / 8 stands for c. */
  ghost predicate IsBitmap(r: seq<Byte>, s: set<Byte>) {
    forall i {:trigger PackByte(s, i)} :: 0 <= i < |r| ==> r[i] == PackByte(s, i)
  }

  lemma {:induction false} BitmapExists(s: set<Byte>, n: nat)
    ensures exists r: seq<Byte> :: |r| == n && IsBitmap(r, s)
  {
    var r := seq(n, i requires 0 <= i < n => PackByte(s, i));
    assert |r| == n && IsBitmap(r, s);
  }

  /** The bitmap of n cells of a set of bytes. */
  ghost function Pack(s: set<Byte>, n: nat): (r: seq<Byte>)
    ensures |r| == n
  {
    BitmapExists(s, n);
    var r: seq<Byte> :| |r| == n && IsBitmap(r, s);
    r
  }

  lemma {:induction false} FromBitsBit(s: set<Byte>, lo: nat, hi: nat, k: nat)
    requires lo + k < hi
    ensures Bit(FromBits(s, lo, hi), k) <==> lo + k in s
    decreases k
  {
    assert FromBits(s, lo, hi) / 2 == FromBits(s, lo + 1, hi);
    if k > 0 { FromBitsBit(s, lo + 1, hi, k - 1); }
  }

  lemma {:induction false} PackByteBit(s: set<Byte>, i: nat, k: nat)
    requires k < 8
    ensures Bit(PackByte(s, i), k) <==> 8 * i + k in s
  {
    FromBitsBit(s, 8 * i, 8 * i + 8, k);
  }

  lemma {:induction false} PackByteUnique(s: set<Byte>, i: nat, x: Byte)
    requires forall k | 0 <= k < 8 :: Bit(x, k) <==> 8 * i + k in s
    ensures x == PackByte(s, i)
  {
    forall k | 0 <= k < 8 ensures Bit(x, k) == Bit(PackByte(s, i), k) {
      PackByteBit(s, i, k);
    }
    assert Pow2(8) == 256;
    BitsDetermine(x, PackByte(s, i), 8);
  }

  /** Sets that agree on the eight bytes of one cell share that cell. */
  lemma {:induction false} PackByteSame(s: set<Byte>, r: set<Byte>, i: nat)
    requires forall c: Byte | c / 8 == i :: c in s <==> c in r
    ensures PackByte(s, i) == PackByte(r, i)
  {
    forall k | 0 <= k < 8 ensures Bit(PackByte(s, i), k) <==> 8 * i + k in r {
      PackByteBit(s, i, k);
      assert 8 * i + k < 256 ==> (8 * i + k) / 8 == i;
    }
    PackByteUnique(r, i, PackByte(s, i));
  }

  /** Equal bitmaps come from sets that agree on every byte they cover. */
  lemma {:induction false} PackInjective(s: set<Byte>, r: set<Byte>, n: nat, c: Byte)
    requires Pack(s, n) == Pack(r, n) && c < 8 * n
    ensures c in s <==> c in r
  {
    assert Pack(s, n)[c / 8] == PackByte(s, c / 8);
    assert Pack(r, n)[c / 8] == PackByte(r, c / 8);
    PackByteBit(s, c / 8, c % 8);
    PackByteBit(r, c / 8, c % 8);
  }

  // ----- the macros of include/regexp.h -----

  const BITTAB: seq<Byte> := [1, 2, 4, 8, 16, 32, 64, 128]

  lemma {:induction false} BittabIsPow2(k: nat)
    requires k < 8
    ensures BITTAB[k] == Pow2(k)
  {
    assert Pow2(0) == 1 && Pow2(1) == 2 && Pow2(2) == 4 && Pow2(3) == 8;
    assert Pow2(4) == 16 && Pow2(5) == 32 && Pow2(6) == 64 && Pow2(7) == 128;
  }

  /** The byte PLACE(c) writes back: cell | bittab[c & 07]. */
  function Placed(cell: Byte, c: Byte): Byte { Or(cell, BITTAB[c % 8]) }

  /** ISTHERE(c), given the cell ep[c >> 3]. */
  predicate IsThere(cell: Byte, c: Byte) { And(cell, BITTAB[c % 8]) != 0 }

  lemma {:induction false} PlaceAdds(s: set<Byte>, c: Byte)
    ensures Placed(PackByte(s, c / 8), c) == PackByte(s + {c}, c / 8)
  {
    var x := PackByte(s, c / 8);
    BittabIsPow2(c % 8);
    forall k | 0 <= k < 8 ensures Bit(Placed(x, c), k) <==> 8 * (c / 8) + k in s + {c} {
      CombineBit(OrOp, x, BITTAB[c % 8], k);
      PackByteBit(s, c / 8, k);
      Pow2Bit(c % 8, k);
    }
    PackByteUnique(s + {c}, c / 8, Placed(x, c));
  }

  lemma {:induction false} PlaceLeaves(s: set<Byte>, c: Byte, i: nat)
    requires i != c / 8
    ensures PackByte(s, i) == PackByte(s + {c}, i)
  {
    PackByteSame(s, s + {c}, i);
  }

  lemma {:induction false} IsThereTests(s: set<Byte>, c: Byte)
    ensures IsThere(PackByte(s, c / 8), c) <==> c in s
  {
    var x, m := PackByte(s, c / 8), BITTAB[c % 8];
    BittabIsPow2(c % 8);
    PackByteBit(s, c / 8, c % 8);
    Pow2Bit(c % 8, c % 8);
    CombineBit(AndOp, x, m, c % 8);
    ZeroBit(c % 8);
    if c !in s {
      forall k | 0 <= k < 8 ensures Bit(And(x, m), k) == Bit(0, k) {
        CombineBit(AndOp, x, m, k);
        Pow2Bit(c % 8, k);
        ZeroBit(k);
      }
      assert Pow2(8) == 256;
      BitsDetermine(And(x, m), 0, 8);
    }
  }

  /** The set a negated eight-bit class denotes: everything else but NUL. */
  function Others(s: set<Byte>): set<Byte> { set c: Byte | c != 0 && c !in s }

  /** Flipping all the bits of every cell, then clearing the lowest bit of cell 0, gives the complement without NUL. */
  lemma {:induction false} XorComplements(s: set<Byte>, i: nat)
    requires i < 32
    ensures (if i == 0 then And(Xor(PackByte(s, i), 255), 254) else Xor(PackByte(s, i), 255))
            == PackByte(Others(s), i)
  {
    var x := PackByte(s, i);
    var y := if i == 0 then And(Xor(x, 255), 254) else Xor(x, 255);
    forall k | 0 <= k < 8 ensures Bit(y, k) <==> 8 * i + k in Others(s) {
      PackByteBit(s, i, k);
      CombineBit(XorOp, x, 255, k);
      CombineBit(AndOp, Xor(x, 255), 254, k);
      ConstantBits(k);
    }
    PackByteUnique(Others(s), i, y);
  }

  lemma {:induction false} ConstantBits(k: nat)
    requires k < 8
    ensures Bit(255, k)
    ensures Bit(254, k) <==> k != 0
    ensures Bit(1, k) <==> k == 0
  {
    assert Bit(255, 0) && Bit(255, 1) && Bit(255, 2) && Bit(255, 3);
    assert Bit(255, 4) && Bit(255, 5) && Bit(255, 6) && Bit(255, 7);
    assert !Bit(254, 0) && Bit(254, 1) && Bit(254, 2) && Bit(254, 3);
    assert Bit(254, 4) && Bit(254, 5) && Bit(254, 6) && Bit(254, 7);
    Pow2Bit(0, k);
  }

  /** Setting the lowest bit of cell 0 puts NUL into the bitmap. */
  lemma {:induction false} OrOneAddsNul(s: set<Byte>)
    ensures Or(PackByte(s, 0), 1) == PackByte(s + {0}, 0)
  {
    PlaceAdds(s, 0);
  }
}
