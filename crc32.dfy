/** The reflected CRC-32 of PKWARE's APPNOTE.TXT (section 4.4.7), with the
    reversed polynomial 0xEDB88320, computed through a 256-entry lookup
    table as `CRC32_TABLE` and `crc32` do.

    Words are the unsigned readings of the JavaScript 32-bit values (see
    module Bitwise); the final `>>> 0` of the source is the identity on
    them. */
module Crc32 {
  import opened Bitwise

  /** The reversed generator polynomial. */
  const Polynomial: u32 := 0xEDB88320

  /** Initial register value, and the mask of the final complement. */
  const AllOnes: u32 := 0xFFFFFFFF

  /** One round of bitwise division: shift right, and XOR in the polynomial
      when the digit shifted out was set (`(c & 1) ? P ^ (c >>> 1) : c >>> 1`). */
  function Round(c: nat): nat {
    if c % 2 == 1 then Xor(Polynomial, c / 2) else c / 2
  }

  /** `k` rounds applied to `c`. */
  function Rounds(c: nat, k: nat): nat
    decreases k
  {
    if k == 0 then c else Rounds(Round(c), k - 1)
  }

  /** Entry `i` of the lookup table: eight rounds applied to `i`. */
  function TableEntry(i: byte): nat {
    Rounds(i, 8)
  }

  /** The table index for register `c` and input byte `b`:
      `(c ^ b) & 0xff`. */
  function Index(c: nat, b: byte): byte {
    LowBound(Xor(c, b), 8);
    Pow2Values();
    Low(Xor(c, b), 8)
  }

  /** The table-driven update of the register by one byte:
      `table[(c ^ b) & 0xff] ^ (c >>> 8)`. */
  function Step(c: nat, b: byte): nat {
    Xor(TableEntry(Index(c, b)), Shr(c, 8))
  }

  /** The register after folding `bytes`, from the first, into all ones. */
  function Register(bytes: seq<byte>): nat {
    if bytes == [] then AllOnes
    else Step(Register(bytes[..|bytes| - 1]), bytes[|bytes| - 1])
  }

  /** The checksum: the register XORed with all ones. */
  function Crc(bytes: seq<byte>): nat {
    Xor(Register(bytes), AllOnes)
  }

  // ---------------------------------------------------------------------
  // Every value stays within 32 bits.
  // ---------------------------------------------------------------------

  /** A round keeps a 32-bit register within 32 bits. */
  lemma RoundFits(c: nat)
    requires c < 0x1_0000_0000
    ensures Round(c) < 0x1_0000_0000
  {
    XorU32(Polynomial, c / 2);
  }

  lemma {:induction false} RoundsFits(c: nat, k: nat)
    requires c < 0x1_0000_0000
    ensures Rounds(c, k) < 0x1_0000_0000
    decreases k
  {
    if k > 0 {
      RoundFits(c);
      RoundsFits(Round(c), k - 1);
    }
  }

  /** Every one of the 256 table entries fits in 32 bits. */
  lemma TableEntryFits(i: byte)
    ensures TableEntry(i) < 0x1_0000_0000
  {
    RoundsFits(i, 8);
  }

  lemma {:induction false} ShrLe(x: nat, k: nat)
    ensures Shr(x, k) <= x
  {
    if k > 0 {
      ShrLe(x / 2, k - 1);
    }
  }

  /** A step keeps a 32-bit register within 32 bits. */
  lemma StepFits(c: nat, b: byte)
    requires c < 0x1_0000_0000
    ensures Step(c, b) < 0x1_0000_0000
  {
    TableEntryFits(Index(c, b));
    ShrLe(c, 8);
    XorU32(TableEntry(Index(c, b)), Shr(c, 8));
  }

  /** The register is a 32-bit word after any number of bytes. */
  lemma {:induction false} RegisterFits(bytes: seq<byte>)
    ensures Register(bytes) < 0x1_0000_0000
  {
    if bytes != [] {
      RegisterFits(bytes[..|bytes| - 1]);
      StepFits(Register(bytes[..|bytes| - 1]), bytes[|bytes| - 1]);
    }
  }

  /** The checksum is the 32-bit complement of the register; in particular
      it is a 32-bit word. */
  lemma CrcIsComplement(bytes: seq<byte>)
    ensures Crc(bytes) == 0xFFFFFFFF - Register(bytes)
  {
    RegisterFits(bytes);
    Pow2Values();
    XorAllOnes(Register(bytes), 32);
  }

  /** The checksum of no bytes is 0. */
  lemma CrcOfEmpty()
    ensures Crc([]) == 0
  {
    XorSelf(AllOnes);
  }

  // ---------------------------------------------------------------------
  // The imperative code: the table initialiser and the checksum loop.
  // ---------------------------------------------------------------------

  /** `table` holds the 256 entries of the CRC-32 lookup table. */
  ghost predicate IsTable(table: array<u32>)
    reads table
  {
    table.Length == 256 && forall i: byte :: table[i] == TableEntry(i)
  }

  /** The inner loop of the initialiser: eight rounds on `i`. */
  method ComputeEntry(i: byte) returns (c: u32)
    ensures c == TableEntry(i)
  {
    c := i;
    var j := 0;
    while j < 8
      invariant 0 <= j <= 8
      invariant Rounds(c, 8 - j) == Rounds(i, 8)
    {
      RoundFits(c);
      c := if c % 2 == 1 then Xor(Polynomial, c / 2) else c / 2;
      j := j + 1;
    }
  }

  /** The initialiser of `CRC32_TABLE`: 256 entries, each eight rounds on
      its own index. */
  method BuildTable() returns (table: array<u32>)
    ensures fresh(table) && IsTable(table)
  {
    table := new u32[256];
    var n := 0;
    while n < 256
      invariant 0 <= n <= 256
      invariant forall k: byte :: k < n ==> table[k] == TableEntry(k)
    {
      var c := ComputeEntry(n);
      table[n] := c;
      forall k: byte | k < n + 1
        ensures table[k] == TableEntry(k)
      {
        if k == n {
          assert table[k] == c;
        }
      }
      n := n + 1;
    }
  }

  /** `crc32`: start from all ones, fold every byte through the table, and
      complement. */
  method Checksum(table: array<u32>, bytes: seq<byte>) returns (crc: u32)
    requires IsTable(table)
    ensures crc == Crc(bytes)
  {
    var c: u32 := AllOnes;
    var i := 0;
    while i < |bytes|
      invariant 0 <= i <= |bytes|
      invariant c == Register(bytes[..i])
    {
      assert bytes[..i + 1][..i] == bytes[..i];
      StepFits(c, bytes[i]);
      c := Xor(table[Index(c, bytes[i])], Shr(c, 8));
      i := i + 1;
    }
    assert bytes[..i] == bytes;
    CrcIsComplement(bytes);
    crc := Xor(c, AllOnes);
  }

  // ---------------------------------------------------------------------
  // An independent reference: the bitwise CRC without a table, where each
  // byte is XORed into the register and eight rounds follow.
  // ---------------------------------------------------------------------

  function BitwiseRegister(bytes: seq<byte>): nat {
    if bytes == [] then AllOnes
    else Rounds(Xor(BitwiseRegister(bytes[..|bytes| - 1]), bytes[|bytes| - 1]), 8)
  }

  /** `P ^ (x ^ y)` rearranged as `x ^ (P ^ y)`. */
  lemma XorSwap(p: nat, x: nat, y: nat)
    ensures Xor(p, Xor(x, y)) == Xor(x, Xor(p, y))
  {
    XorAssoc(p, x, y);
    XorComm(p, x);
    XorAssoc(x, p, y);
  }

  /** A round is linear over XOR. */
  lemma RoundLinear(x: nat, y: nat)
    ensures Round(Xor(x, y)) == Xor(Round(x), Round(y))
  {
    var hx, hy := x / 2, y / 2;
    XorHalf(x, y);
    if x % 2 == 1 && y % 2 == 1 {
      assert Round(Xor(x, y)) == Xor(hx, hy);
      XorAssoc(Polynomial, hx, Xor(Polynomial, hy));
      XorSwap(Polynomial, hx, hy);
      XorAssoc(Polynomial, Polynomial, Xor(hx, hy));
      XorSelf(Polynomial);
      XorZero(Xor(hx, hy));
    } else if x % 2 == 1 {
      assert Round(Xor(x, y)) == Xor(Polynomial, Xor(hx, hy));
      XorAssoc(Polynomial, hx, hy);
    } else if y % 2 == 1 {
      assert Round(Xor(x, y)) == Xor(Polynomial, Xor(hx, hy));
      XorSwap(Polynomial, hx, hy);
    } else {
      assert Round(Xor(x, y)) == Xor(hx, hy);
    }
  }

  lemma {:induction false} RoundsLinear(x: nat, y: nat, k: nat)
    ensures Rounds(Xor(x, y), k) == Xor(Rounds(x, k), Rounds(y, k))
    decreases k
  {
    if k > 0 {
      RoundLinear(x, y);
      RoundsLinear(Round(x), Round(y), k - 1);
    }
  }

  /** A register whose lowest `k` digits are clear is only shifted by `k`
      rounds: the polynomial is never XORed in. */
  lemma {:induction false} RoundsOfHigh(x: nat, k: nat)
    ensures Rounds(High(x, k), k) == Shr(x, k)
  {
    if k > 0 {
      var h := High(x / 2, k - 1);
      SplitDigits(High(x, k), h, 0);
      assert Round(High(x, k)) == h;
      RoundsOfHigh(x / 2, k - 1);
    }
  }

  /** The table lookup does the work of eight bitwise rounds. */
  lemma StepIsEightRounds(c: nat, b: byte)
    ensures Step(c, b) == Rounds(Xor(c, b), 8)
  {
    var x := Xor(c, b);
    var lo, hi := Low(x, 8), High(x, 8);
    LowBound(x, 8);
    LowHigh(x, 8);
    XorDisjoint(lo, hi, 8);
    assert x == Xor(lo, hi);
    RoundsLinear(lo, hi, 8);
    RoundsOfHigh(x, 8);
    XorShr(c, b, 8);
    Pow2Values();
    ShrSmall(b, 8);
    XorZero(Shr(c, 8));
  }

  /** The table-driven register agrees with the bitwise one on every input. */
  lemma {:induction false} TableDrivenIsBitwise(bytes: seq<byte>)
    ensures Register(bytes) == BitwiseRegister(bytes)
  {
    if bytes != [] {
      var init := bytes[..|bytes| - 1];
      TableDrivenIsBitwise(init);
      StepIsEightRounds(Register(init), bytes[|bytes| - 1]);
    }
  }
}
