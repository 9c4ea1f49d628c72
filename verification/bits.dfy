/** Fixed-width register values and the bit-slicing the driver performs on them.
    Counters are naturals below 2^width and every increment wraps explicitly,
    as a hardware register of that width does; bytes are `bv8`. */
module Bits {

  type Byte = bv8

  /** Unsigned register widths used by the driver. */
  type U2 = n: nat | n < 4
  type U6 = n: nat | n < 64
  type U7 = n: nat | n < 128
  type U12 = n: nat | n < 4096
  type U16 = n: nat | n < 0x1_0000

  /** `+ 1` on a register of the given width: wraps to 0 past the top value. */
  function Inc2(n: U2): U2 { (n + 1) % 4 }
  function Inc6(n: U6): U6 { (n + 1) % 64 }
  function Inc7(n: U7): U7 { (n + 1) % 128 }
  function Inc16(n: U16): (r: U16)
    // within a byte only the low bits count up; at bit index 15 the address carries
    ensures Nibble(n) < 15 ==> ByteAddr(r) == ByteAddr(n) && Nibble(r) == Nibble(n) + 1
    ensures Nibble(n) == 15 && ByteAddr(n) < 4095 ==> ByteAddr(r) == ByteAddr(n) + 1 && Nibble(r) == 0
    ensures Lsb(r) == !Lsb(n)
  {
    (n + 1) % 0x1_0000
  }

  /** Bit 0 of a counter. */
  predicate Lsb(n: nat) { n % 2 == 1 }

  /** Bits 15..4 of the 16-bit replay counter: the byte address. */
  function ByteAddr(c: U16): U12 { c / 16 }

  /** Bits 3..0 of the replay counter: bit index (3..1) and serial clock phase (0). */
  function Nibble(c: U16): (n: nat)
    ensures n < 16
    ensures Lsb(c) <==> n % 2 == 1
  {
    c % 16
  }

  /** The partial write `c[4:] := a`: bits 15..4 take `a`, bits 3..0 are kept. */
  function SetByteAddr(c: U16, a: U12): (r: U16)
    ensures ByteAddr(r) == a
    ensures Nibble(r) == Nibble(c)
    ensures Lsb(r) == Lsb(c)
    ensures ByteAddr(c) == a ==> r == c
  {
    a * 16 + c % 16
  }

  /** Bit `i` of a byte, bit 0 being the least significant. */
  predicate Bit(b: Byte, i: nat)
    requires i < 8
  {
    (b >> i) & 1 == 1
  }

  /** The top bit, `b[-1]` in the driver. */
  predicate Msb(b: Byte) { Bit(b, 7) }

  /** `Cat(0, b[:-1])`: bits 6..0 move up one place, 0 enters bit 0, bit 7 is dropped. */
  function ShiftUp(b: Byte): (r: Byte)
    ensures !Bit(r, 0)
    ensures forall i :: 1 <= i < 8 ==> Bit(r, i) == Bit(b, i - 1)
  {
    b << 1
  }

  /** `k` successive applications of `ShiftUp`. */
  function ShiftN(b: Byte, k: nat): Byte
    decreases k
  {
    if k == 0 then b else ShiftUp(ShiftN(b, k - 1))
  }

  /** After `k` shifts, bit `i` holds what bit `i - k` held, and zeros fill the bottom. */
  lemma {:induction false} ShiftNBit(b: Byte, k: nat, i: nat)
    requires i < 8
    ensures Bit(ShiftN(b, k), i) == (k <= i && Bit(b, i - k))
    decreases k
  {
    if k > 0 && i > 0 {
      ShiftNBit(b, k - 1, i - 1);
    }
  }

  /** The top bit after `k < 8` shifts is bit `7 - k` of the original byte:
      shifting presents a byte most significant bit first. */
  lemma MsbAfterShifts(b: Byte, k: nat)
    requires k < 8
    ensures Msb(ShiftN(b, k)) == Bit(b, 7 - k)
  {
    ShiftNBit(b, k, 7);
  }
}
