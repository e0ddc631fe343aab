/*
 * The generic table-driven CRC engine `crc::CRCX<Bits, Poly, Init, Rin, Rout,
 * XorOut>` (libs/crc/crc.hpp), after the Rocksoft parameterised CRC model.
 *
 * Values are natural numbers; `value_type` (uint8/16/32/32/64 for Bits =
 * 8/16/24/32/64) is modelled by narrowing every assignment to its width
 * (`Narrow`). For Bits = 32 the initialiser of `mask` shifts a uint32_t by 32,
 * which is undefined (`MaskAsWritten`); the engine uses the corrected `Mask`. The specification functions `Reversed`, `Entry`, `Table`,
 * `Step`, `Register` and `Digest` say what the loops compute; the methods
 * `BitReverse`, `TableEntry`, `GenerateTable`, `Calc` and `CalcArray` are the
 * loops themselves.
 */
module Crc {
  import opened BitOps
  import opened Options

  /** The template parameters of CRCX. */
  datatype Params = Params(bits: nat, poly: nat, init: nat, refIn: bool, refOut: bool, xorOut: nat)

  /** The widths the static_assert admits. */
  predicate ValidWidth(bits: nat)
  {
    bits == 8 || bits == 16 || bits == 24 || bits == 32 || bits == 64
  }

  /** An instantiation: an admitted width and Bits-wide constants. */
  predicate Valid(p: Params)
  {
    ValidWidth(p.bits) && p.poly < Pow2(p.bits) && p.init < Pow2(p.bits) && p.xorOut < Pow2(p.bits)
  }

  /** Width of `uint_of_bits_t<Bits>`. */
  function ValueWidth(bits: nat): (w: nat)
    requires ValidWidth(bits)
    ensures bits <= w <= 64
  {
    if bits == 24 then 32 else bits
  }

  /** Conversion to `value_type`: keep the low ValueWidth(bits) bits. */
  function Narrow(bits: nat, x: nat): nat
    requires ValidWidth(bits)
  {
    And(x, Ones(ValueWidth(bits)))
  }

  /**
   * Width of the type a shift of a `value_type` operand is computed in:
   * integral promotion widens uint8_t and uint16_t to int (32 bits on the
   * targets). The shift counts table_entry and calc use (Bits - 8, Bits - 1,
   * 1 and 8) are all below it.
   */
  function PromotedWidth(bits: nat): (w: nat)
    requires ValidWidth(bits)
    ensures w >= 32 && w >= ValueWidth(bits)
    ensures bits - 1 < w && 8 < w
  {
    if ValueWidth(bits) < 32 then 32 else ValueWidth(bits)
  }

  /**
   * `mask` as written: `value_type(-1)` for 64 bits, `(value_type(1) << Bits) - 1`
   * otherwise. A shift count not below the promoted width is undefined, so
   * the constant initialiser is ill-formed (None), and that is exactly Bits = 32.
   */
  function MaskAsWritten(bits: nat): (m: Option<nat>)
    requires ValidWidth(bits)
    ensures m.None? <==> bits == 32
    ensures m.Some? ==> m.value == Ones(bits)
  {
    ShlOne(bits);
    if bits == 64 then Some(Ones(ValueWidth(bits)))
    else if bits >= PromotedWidth(bits) then None
    else Some(Shl(1, bits) - 1)
  }

  /**
   * `mask` as evidently intended: `value_type(-1)` from 32 bits up, where
   * `1 << Bits` does not fit, `(1 << Bits) - 1` below: the low Bits bits.
   */
  function Mask(bits: nat): (m: nat)
    requires ValidWidth(bits)
    ensures m == Ones(bits)
  {
    ShlOne(bits);
    if bits >= 32 then Ones(bits) else Shl(1, bits) - 1
  }

  /** The corrected mask is the initialiser as written wherever that one is defined. */
  lemma MaskAgrees(bits: nat)
    requires ValidWidth(bits)
    ensures MaskAsWritten(bits).Some? ==> Mask(bits) == MaskAsWritten(bits).value
  {
  }

  lemma {:induction false} ShlOne(k: nat)
    ensures Shl(1, k) == Pow2(k)
  {
    if k > 0 {
      ShlOne(k - 1);
    }
  }

  // ---------------------------------------------------------------------------
  // detail::bit_reverse
  // ---------------------------------------------------------------------------

  /** The value of `r` after the first k iterations of bit_reverse's loop. */
  function RevUpTo(v: nat, bits: nat, k: nat): nat
    requires k <= bits
  {
    if k == 0 then 0
    else Or(RevUpTo(v, bits, k - 1), Shl(And(Shr(v, k - 1), 1), bits - 1 - (k - 1)))
  }

  /** `bit_reverse(value, bits)` */
  function Reversed(v: nat, bits: nat): nat
  {
    RevUpTo(v, bits, bits)
  }

  method BitReverse(value: nat, bits: nat) returns (r: nat)
    ensures r == Reversed(value, bits)
  {
    r := 0;
    for i := 0 to bits
      invariant r == RevUpTo(value, bits, i)
    {
      r := Or(r, Shl(And(Shr(value, i), 1), bits - 1 - i));
    }
  }

  lemma {:induction false} RevUpToBit(v: nat, bits: nat, k: nat, j: nat)
    requires k <= bits
    ensures Bit(RevUpTo(v, bits, k), j) <==> (bits - k <= j < bits && Bit(v, bits - 1 - j))
    decreases k
  {
    if k == 0 {
      BitZero(j);
    } else {
      var i := k - 1;
      RevUpToBit(v, bits, i, j);
      BitOr(RevUpTo(v, bits, i), Shl(And(Shr(v, i), 1), bits - 1 - i), j);
      BitShl(And(Shr(v, i), 1), bits - 1 - i, j);
      if j >= bits - 1 - i {
        assert Ones(1) == 1;
        BitLow(Shr(v, i), 1, j - (bits - 1 - i));
        BitShr(v, i, 0);
      }
    }
  }

  /** bit_reverse moves bit i to bit bits-1-i and sets nothing at or above `bits`. */
  lemma ReversedBit(v: nat, bits: nat, j: nat)
    ensures Bit(Reversed(v, bits), j) <==> (j < bits && Bit(v, bits - 1 - j))
  {
    RevUpToBit(v, bits, bits, j);
  }

  lemma ReversedBelow(v: nat, bits: nat)
    ensures Reversed(v, bits) < Pow2(bits)
  {
    forall j: nat | j >= bits ensures !Bit(Reversed(v, bits), j) { ReversedBit(v, bits, j); }
    BelowPow2(Reversed(v, bits), bits);
  }

  /** On values below 2^bits, bit_reverse is an involution. */
  lemma ReversedInvolution(v: nat, bits: nat)
    requires v < Pow2(bits)
    ensures Reversed(Reversed(v, bits), bits) == v
  {
    BelowPow2(v, bits);
    forall j: nat ensures Bit(Reversed(Reversed(v, bits), bits), j) == Bit(v, j) {
      ReversedBit(Reversed(v, bits), bits, j);
      if j < bits {
        ReversedBit(v, bits, bits - 1 - j);
      }
    }
    BitsEqual(Reversed(Reversed(v, bits), bits), v);
  }

  // ---------------------------------------------------------------------------
  // table_entry and generate_table
  // ---------------------------------------------------------------------------

  /** One pass of table_entry's loop: shift left, XOR in Poly when the top bit was set. */
  function Shift(p: Params, c: nat): nat
    requires ValidWidth(p.bits)
  {
    if And(c, Shl(1, p.bits - 1)) != 0 then Xor(Shl(c, 1), p.poly) else Shl(c, 1)
  }

  /** n passes of the loop in value_type, which narrows every assignment. */
  function ShiftN(p: Params, c: nat, n: nat): nat
    requires ValidWidth(p.bits)
  {
    if n == 0 then c else Narrow(p.bits, Shift(p, ShiftN(p, c, n - 1)))
  }

  /** `table_entry(index)` */
  function Entry(p: Params, index: Byte): nat
    requires ValidWidth(p.bits)
  {
    var c0 := if p.refIn then Reversed(index, 8) else index;
    var c := ShiftN(p, Narrow(p.bits, Shl(c0, p.bits - 8)), 8);
    var m := And(c, Mask(p.bits));
    if p.refOut then Reversed(m, p.bits) else m
  }

  method TableEntry(p: Params, index: Byte) returns (c: nat)
    requires ValidWidth(p.bits)
    ensures c == Entry(p, index)
  {
    if p.refIn {
      c := BitReverse(index, 8);
    } else {
      c := index;
    }
    var c0 := c;
    c := Narrow(p.bits, Shl(c, p.bits - 8));
    var start := c;
    for i := 0 to 8
      invariant c == ShiftN(p, start, i)
    {
      if And(c, Shl(1, p.bits - 1)) != 0 {
        c := Narrow(p.bits, Xor(Shl(c, 1), p.poly));
      } else {
        c := Narrow(p.bits, Shl(c, 1));
      }
    }
    c := And(c, Mask(p.bits));
    if p.refOut {
      c := BitReverse(c, p.bits);
    }
  }

  /** Every table entry fits in Bits bits, so it is at most `mask`. */
  lemma EntryBelow(p: Params, index: Byte)
    requires ValidWidth(p.bits)
    ensures Entry(p, index) < Pow2(p.bits)
  {
    var c0 := if p.refIn then Reversed(index, 8) else index;
    var m := And(ShiftN(p, Narrow(p.bits, Shl(c0, p.bits - 8)), 8), Mask(p.bits));
    LowBelow(ShiftN(p, Narrow(p.bits, Shl(c0, p.bits - 8)), 8), p.bits);
    if p.refOut {
      ReversedBelow(m, p.bits);
    }
  }

  /** `table`: entry i at every index i below 256. */
  function Table(p: Params): (t: seq<nat>)
    requires ValidWidth(p.bits)
    ensures |t| == 256
  {
    seq(256, i requires 0 <= i < 256 => Entry(p, i))
  }

  method GenerateTable(p: Params) returns (t: seq<nat>)
    requires ValidWidth(p.bits)
    ensures |t| == 256 && forall i :: 0 <= i < 256 ==> t[i] == Entry(p, i)
  {
    var a := new nat[256];
    for i := 0 to 256
      invariant forall k :: 0 <= k < i ==> a[k] == Entry(p, k)
    {
      a[i] := TableEntry(p, i);
    }
    t := a[..];
  }

  // ---------------------------------------------------------------------------
  // calc
  // ---------------------------------------------------------------------------

  /** `x & 0xFF`, the table index. */
  function LowByte(x: nat): (i: nat)
    ensures i < 256 && i == And(x, Ones(8))
  {
    LowBelow(x, 8);
    And(x, 0xFF)
  }

  /** One iteration of calc's loop body, including `crc &= mask`. */
  function Step(p: Params, table: seq<nat>, crc: nat, b: Byte): nat
    requires ValidWidth(p.bits) && |table| == 256
  {
    if p.bits <= 8 then
      And(Narrow(p.bits, table[LowByte(Xor(crc, b))]), Mask(p.bits))
    else
      And(Narrow(p.bits, Xor(table[LowByte(Xor(Shr(crc, p.bits - 8), b))], Shl(crc, 8))), Mask(p.bits))
  }

  /** The register after feeding `data` to the loop, starting from `crc`. */
  function Fold(p: Params, table: seq<nat>, crc: nat, data: seq<Byte>): nat
    requires ValidWidth(p.bits) && |table| == 256
  {
    if |data| == 0 then crc
    else Step(p, table, Fold(p, table, crc, data[..|data| - 1]), data[|data| - 1])
  }

  /** The register after `data`, starting from Init. */
  function Register(p: Params, data: seq<Byte>): nat
    requires ValidWidth(p.bits)
  {
    Fold(p, Table(p), p.init, data)
  }

  /** What calc returns: the final XOR (skipped when XorOut is 0), then the mask. */
  function Digest(p: Params, data: seq<Byte>): nat
    requires ValidWidth(p.bits)
  {
    var crc := Register(p, data);
    And(if p.xorOut != 0 then Narrow(p.bits, Xor(crc, p.xorOut)) else crc, Mask(p.bits))
  }

  /** `calc(const uint8_t* data, size_t len)`: the pointer walks data[0..len). */
  method Calc(p: Params, table: seq<nat>, data: array<Byte>, len: nat) returns (crc: nat)
    requires Valid(p) && table == Table(p) && len <= data.Length
    ensures crc == Digest(p, data[..len])
  {
    crc := p.init;
    var ptr := 0;
    var left := len;
    while left > 0
      invariant ptr + left == len
      invariant crc == Register(p, data[..ptr])
    {
      left := left - 1;
      var b := data[ptr];
      ptr := ptr + 1;
      ghost var prev := crc;
      if p.bits <= 8 {
        crc := Narrow(p.bits, table[LowByte(Xor(crc, b))]);
      } else {
        crc := Narrow(p.bits, Xor(table[LowByte(Xor(Shr(crc, p.bits - 8), b))], Shl(crc, 8)));
      }
      crc := And(crc, Mask(p.bits));
      assert crc == Step(p, table, prev, b);
      assert data[..ptr][..ptr - 1] == data[..ptr - 1];
      assert Register(p, data[..ptr]) == Step(p, table, Register(p, data[..ptr - 1]), b);
    }
    if p.xorOut != 0 {
      crc := Narrow(p.bits, Xor(crc, p.xorOut));
    }
    crc := And(crc, Mask(p.bits));
  }

  /** `calc(const std::array<uint8_t, N>& data)` */
  method CalcArray(p: Params, table: seq<nat>, data: seq<Byte>) returns (crc: nat)
    requires Valid(p) && table == Table(p)
    ensures crc == Digest(p, data)
  {
    crc := p.init;
    for i := 0 to |data|
      invariant crc == Register(p, data[..i])
    {
      ghost var prev := crc;
      if p.bits <= 8 {
        crc := Narrow(p.bits, table[LowByte(Xor(crc, data[i]))]);
      } else {
        crc := Narrow(p.bits, Xor(table[LowByte(Xor(Shr(crc, p.bits - 8), data[i]))], Shl(crc, 8)));
      }
      crc := And(crc, Mask(p.bits));
      assert crc == Step(p, table, prev, data[i]);
      assert data[..i + 1][..i] == data[..i];
      assert Register(p, data[..i + 1]) == Step(p, table, Register(p, data[..i]), data[i]);
    }
    assert data[..|data|] == data;
    assert crc == Register(p, data);
    if p.xorOut != 0 {
      crc := Narrow(p.bits, Xor(crc, p.xorOut));
    }
    crc := And(crc, Mask(p.bits));
  }

  // ---------------------------------------------------------------------------
  // Properties of calc
  // ---------------------------------------------------------------------------

  /** calc over no bytes returns (Init ^ XorOut) & mask. */
  lemma DigestEmpty(p: Params)
    requires Valid(p)
    ensures Digest(p, []) == And(Xor(p.init, p.xorOut), Ones(p.bits))
  {
    if p.xorOut != 0 {
      XorBelow(p.init, p.xorOut, p.bits);
      Pow2Mono(p.bits, ValueWidth(p.bits));
      LowOfBelow(Xor(p.init, p.xorOut), ValueWidth(p.bits));
    } else {
      XorZero(p.init);
    }
  }

  /** After every byte the register is at most `mask`. */
  lemma StepBelow(p: Params, table: seq<nat>, crc: nat, b: Byte)
    requires ValidWidth(p.bits) && |table| == 256
    ensures Step(p, table, crc, b) < Pow2(p.bits)
  {
    if p.bits <= 8 {
      LowBelow(Narrow(p.bits, table[LowByte(Xor(crc, b))]), p.bits);
    } else {
      LowBelow(Narrow(p.bits, Xor(table[LowByte(Xor(Shr(crc, p.bits - 8), b))], Shl(crc, 8))), p.bits);
    }
  }

  lemma RegisterBelow(p: Params, data: seq<Byte>)
    requires Valid(p)
    ensures Register(p, data) < Pow2(p.bits)
  {
    if |data| > 0 {
      StepBelow(p, Table(p), Fold(p, Table(p), p.init, data[..|data| - 1]), data[|data| - 1]);
    }
  }

  lemma DigestBelow(p: Params, data: seq<Byte>)
    requires ValidWidth(p.bits)
    ensures Digest(p, data) < Pow2(p.bits)
  {
    var crc := Register(p, data);
    LowBelow(if p.xorOut != 0 then Narrow(p.bits, Xor(crc, p.xorOut)) else crc, p.bits);
  }

  /** The register after xs ++ ys is ys folded from the register after xs. */
  lemma {:induction false} FoldAppend(p: Params, table: seq<nat>, crc: nat, xs: seq<Byte>, ys: seq<Byte>)
    requires ValidWidth(p.bits) && |table| == 256
    ensures Fold(p, table, crc, xs + ys) == Fold(p, table, Fold(p, table, crc, xs), ys)
    decreases |ys|
  {
    if |ys| == 0 {
      assert xs + ys == xs;
    } else {
      var zs := xs + ys;
      var front := ys[..|ys| - 1];
      assert zs[..|zs| - 1] == xs + front;
      FoldAppend(p, table, crc, xs, front);
    }
  }

  // ---------------------------------------------------------------------------
  // The table stands for bit-at-a-time division (Rin = Rout = false)
  // ---------------------------------------------------------------------------

  /** n shift/XOR steps on an unbounded register: MSB-first division by Poly. */
  function Divide(p: Params, c: nat, n: nat): nat
    requires ValidWidth(p.bits)
  {
    if n == 0 then c else Shift(p, Divide(p, c, n - 1))
  }

  /** The bitwise algorithm's byte step: XOR the byte in at the top, eight division steps, mask. */
  function BitwiseStep(p: Params, crc: nat, b: Byte): nat
    requires ValidWidth(p.bits)
  {
    And(Divide(p, Xor(crc, Shl(b, p.bits - 8)), 8), Mask(p.bits))
  }

  function BitwiseFold(p: Params, crc: nat, data: seq<Byte>): nat
    requires ValidWidth(p.bits)
  {
    if |data| == 0 then crc
    else BitwiseStep(p, BitwiseFold(p, crc, data[..|data| - 1]), data[|data| - 1])
  }

  /** x and y agree on their low m bits. */
  predicate SameLow(x: nat, y: nat, m: nat)
  {
    forall j: nat :: j < m ==> (Bit(x, j) <==> Bit(y, j))
  }

  lemma BitShift(p: Params, c: nat, j: nat)
    requires ValidWidth(p.bits)
    ensures Bit(Shift(p, c), j) <==> ((j >= 1 && Bit(c, j - 1)) != (Bit(c, p.bits - 1) && Bit(p.poly, j)))
  {
    TestBit(c, p.bits - 1);
    BitXor(Shl(c, 1), p.poly, j);
    BitShl(c, 1, j);
  }

  /** The low m >= Bits bits of a shift depend only on the low m bits of its input. */
  lemma ShiftSameLow(p: Params, x: nat, y: nat, m: nat)
    requires ValidWidth(p.bits) && p.bits <= m && SameLow(x, y, m)
    ensures SameLow(Shift(p, x), Shift(p, y), m)
  {
    forall j: nat | j < m ensures Bit(Shift(p, x), j) <==> Bit(Shift(p, y), j) {
      BitShift(p, x, j);
      BitShift(p, y, j);
    }
  }

  /** Narrowing to value_type inside table_entry's loop does not change the low Bits bits. */
  lemma {:induction false} ShiftNSameLow(p: Params, x: nat, y: nat, n: nat)
    requires ValidWidth(p.bits) && SameLow(x, y, ValueWidth(p.bits))
    ensures SameLow(ShiftN(p, x, n), Divide(p, y, n), ValueWidth(p.bits))
    decreases n
  {
    if n > 0 {
      var w := ValueWidth(p.bits);
      ShiftNSameLow(p, x, y, n - 1);
      ShiftSameLow(p, ShiftN(p, x, n - 1), Divide(p, y, n - 1), w);
      forall j: nat | j < w ensures Bit(ShiftN(p, x, n), j) <==> Bit(Shift(p, ShiftN(p, x, n - 1)), j) {
        BitLow(Shift(p, ShiftN(p, x, n - 1)), w, j);
      }
    }
  }

  /** Division is linear over XOR. */
  lemma ShiftXor(p: Params, x: nat, y: nat)
    requires ValidWidth(p.bits)
    ensures Shift(p, Xor(x, y)) == Xor(Shift(p, x), Shift(p, y))
  {
    forall j: nat ensures Bit(Shift(p, Xor(x, y)), j) == Bit(Xor(Shift(p, x), Shift(p, y)), j) {
      BitShift(p, Xor(x, y), j);
      BitShift(p, x, j);
      BitShift(p, y, j);
      BitXor(Shift(p, x), Shift(p, y), j);
      BitXor(x, y, p.bits - 1);
      if j >= 1 {
        BitXor(x, y, j - 1);
      }
    }
    BitsEqual(Shift(p, Xor(x, y)), Xor(Shift(p, x), Shift(p, y)));
  }

  lemma {:induction false} DivideXor(p: Params, x: nat, y: nat, n: nat)
    requires ValidWidth(p.bits)
    ensures Divide(p, Xor(x, y), n) == Xor(Divide(p, x, n), Divide(p, y, n))
    decreases n
  {
    if n > 0 {
      DivideXor(p, x, y, n - 1);
      ShiftXor(p, Divide(p, x, n - 1), Divide(p, y, n - 1));
    }
  }

  /** A register whose top bit stays clear for n steps is only shifted. */
  lemma {:induction false} DivideLow(p: Params, c: nat, n: nat)
    requires ValidWidth(p.bits) && n <= 8 && c < Pow2(p.bits - 8)
    ensures Divide(p, c, n) == Shl(c, n)
    decreases n
  {
    if n > 0 {
      DivideLow(p, c, n - 1);
      ShlBelow(c, p.bits - 8, n - 1);
      Pow2Mono(p.bits - 8 + n - 1, p.bits - 1);
      ShiftNoTop(p, Shl(c, n - 1));
    }
  }

  /** A register below the top bit is only shifted by one division step. */
  lemma ShiftNoTop(p: Params, x: nat)
    requires ValidWidth(p.bits) && x < Pow2(p.bits - 1)
    ensures Shift(p, x) == Shl(x, 1)
  {
    BelowPow2(x, p.bits - 1);
    TestBit(x, p.bits - 1);
  }

  /** Splitting the augmented register into its top byte (the table index) and the rest. */
  lemma SplitTopByte(p: Params, crc: nat, b: Byte, idx: nat)
    requires ValidWidth(p.bits) && p.bits > 8 && crc < Pow2(p.bits)
    requires idx == LowByte(Xor(Shr(crc, p.bits - 8), b))
    ensures Xor(crc, Shl(b, p.bits - 8)) == Xor(Shl(idx, p.bits - 8), And(crc, Ones(p.bits - 8)))
  {
    TopByteSplit(crc, b, idx, p.bits - 8);
  }

  /** The same split for a (k+8)-bit register, on plain numbers. */
  lemma TopByteSplit(crc: nat, b: nat, idx: nat, k: nat)
    requires crc < Pow2(k + 8) && b < 256 && idx == And(Xor(Shr(crc, k), b), Ones(8))
    ensures Xor(crc, Shl(b, k)) == Xor(Shl(idx, k), And(crc, Ones(k)))
  {
    var lhs := Xor(crc, Shl(b, k));
    var rhs := Xor(Shl(idx, k), And(crc, Ones(k)));
    BelowPow2(crc, k + 8);
    assert Pow2(8) == 256;
    BelowPow2(b, 8);
    forall j: nat ensures Bit(lhs, j) == Bit(rhs, j) {
      TopByteSplitBit(crc, b, idx, k, j);
    }
    BitsEqual(lhs, rhs);
  }

  lemma TopByteSplitBit(crc: nat, b: nat, idx: nat, k: nat, j: nat)
    requires idx == And(Xor(Shr(crc, k), b), Ones(8))
    requires j >= k + 8 ==> !Bit(crc, j) && !Bit(b, j - k)
    ensures Bit(Xor(crc, Shl(b, k)), j) == Bit(Xor(Shl(idx, k), And(crc, Ones(k))), j)
  {
    BitXor(crc, Shl(b, k), j);
    BitXor(Shl(idx, k), And(crc, Ones(k)), j);
    BitShl(b, k, j);
    BitShl(idx, k, j);
    BitLow(crc, k, j);
    if j >= k {
      BitLow(Xor(Shr(crc, k), b), 8, j - k);
      BitXor(Shr(crc, k), b, j - k);
      BitShr(crc, k, j - k);
    }
  }

  /** Masking twice is masking once. */
  lemma MaskMask(x: nat, n: nat)
    ensures And(And(x, Ones(n)), Ones(n)) == And(x, Ones(n))
  {
    LowBelow(x, n);
    LowOfBelow(And(x, Ones(n)), n);
  }

  /** With Rin = Rout = false, table entry i is eight division steps of i aligned to the top bit. */
  lemma EntryIsDivision(p: Params, idx: Byte)
    requires ValidWidth(p.bits) && !p.refIn && !p.refOut
    ensures Entry(p, idx) == And(Divide(p, Shl(idx, p.bits - 8), 8), Ones(p.bits))
  {
    var w := ValueWidth(p.bits);
    var c0 := Shl(idx, p.bits - 8);
    forall j: nat | j < w ensures Bit(Narrow(p.bits, c0), j) <==> Bit(c0, j) {
      BitLow(c0, w, j);
    }
    ShiftNSameLow(p, Narrow(p.bits, c0), c0, 8);
    var e := And(ShiftN(p, Narrow(p.bits, c0), 8), Ones(p.bits));
    var d := And(Divide(p, c0, 8), Ones(p.bits));
    forall j: nat ensures Bit(e, j) == Bit(d, j) {
      BitLow(ShiftN(p, Narrow(p.bits, c0), 8), p.bits, j);
      BitLow(Divide(p, c0, 8), p.bits, j);
    }
    BitsEqual(e, d);
  }

  /** With Rin = Rout = false, the table step is eight bitwise division steps. */
  lemma StepIsBitwise(p: Params, crc: nat, b: Byte)
    requires ValidWidth(p.bits) && !p.refIn && !p.refOut && crc < Pow2(p.bits)
    ensures Step(p, Table(p), crc, b) == BitwiseStep(p, crc, b)
  {
    if p.bits == 8 {
      StepIsBitwise8(p, crc, b);
    } else {
      StepIsBitwiseWide(p, crc, b);
    }
  }

  lemma StepIsBitwise8(p: Params, crc: nat, b: Byte)
    requires p.bits == 8 && !p.refIn && !p.refOut && crc < Pow2(p.bits)
    ensures Step(p, Table(p), crc, b) == BitwiseStep(p, crc, b)
  {
    assert Pow2(8) == 256;
    XorBelow(crc, b, 8);
    LowOfBelow(Xor(crc, b), 8);
    var idx := LowByte(Xor(crc, b));
    assert idx == Xor(crc, Shl(b, 0));
    EntryIsDivision(p, idx);
    var e := Table(p)[idx];
    MaskMask(Divide(p, idx, 8), 8);
    LowBelow(e, 8);
    LowOfBelow(e, 8);
  }

  lemma StepIsBitwiseWide(p: Params, crc: nat, b: Byte)
    requires ValidWidth(p.bits) && p.bits > 8 && !p.refIn && !p.refOut && crc < Pow2(p.bits)
    ensures Step(p, Table(p), crc, b) == BitwiseStep(p, crc, b)
  {
    var k := p.bits - 8;
    var idx := LowByte(Xor(Shr(crc, k), b));
    var c0 := Shl(idx, k);
    var lo := And(crc, Ones(k));
    StepWide(p, Table(p), crc, b);
    WideEntryMerge(p, crc, idx);
    LowBelow(crc, k);
    WideLinear(p, c0, lo);
    SplitTopByte(p, crc, b, idx);
  }

  lemma WideEntryMerge(p: Params, crc: nat, idx: Byte)
    requires ValidWidth(p.bits) && p.bits > 8 && !p.refIn && !p.refOut
    ensures And(And(Xor(Table(p)[idx], Shl(crc, 8)), Ones(ValueWidth(p.bits))), Ones(p.bits))
         == And(Xor(Divide(p, Shl(idx, p.bits - 8), 8), Shl(And(crc, Ones(p.bits - 8)), 8)), Ones(p.bits))
  {
    EntryIsDivision(p, idx);
    MergeLowBits(p.bits, ValueWidth(p.bits), crc, Divide(p, Shl(idx, p.bits - 8), 8));
  }

  lemma WideLinear(p: Params, c0: nat, lo: nat)
    requires ValidWidth(p.bits) && lo < Pow2(p.bits - 8)
    ensures Xor(Divide(p, c0, 8), Shl(lo, 8)) == Divide(p, Xor(c0, lo), 8)
  {
    DivideLow(p, lo, 8);
    DivideXor(p, c0, lo, 8);
  }

  /** For Bits > 8, calc's step is the entry XOR the register shifted by a byte, narrowed then masked. */
  lemma StepWide(p: Params, table: seq<nat>, crc: nat, b: Byte)
    requires ValidWidth(p.bits) && p.bits > 8 && |table| == 256
    ensures Step(p, table, crc, b)
         == And(And(Xor(table[LowByte(Xor(Shr(crc, p.bits - 8), b))], Shl(crc, 8)), Ones(ValueWidth(p.bits))), Ones(p.bits))
  {
  }

  /** The bit-level identity behind the wide step: (entry ^ (crc << 8)) & mask only needs crc's low bits. */
  lemma MergeLowBits(bits: nat, w: nat, crc: nat, d: nat)
    requires 8 < bits <= w
    ensures And(And(Xor(And(d, Ones(bits)), Shl(crc, 8)), Ones(w)), Ones(bits))
         == And(Xor(d, Shl(And(crc, Ones(bits - 8)), 8)), Ones(bits))
  {
    var k := bits - 8;
    var e := And(d, Ones(bits));
    var x := Xor(e, Shl(crc, 8));
    var lo := And(crc, Ones(k));
    var lhs := And(And(x, Ones(w)), Ones(bits));
    var rhs := And(Xor(d, Shl(lo, 8)), Ones(bits));
    forall j: nat ensures Bit(lhs, j) == Bit(rhs, j) {
      BitLow(And(x, Ones(w)), bits, j);
      BitLow(x, w, j);
      BitXor(e, Shl(crc, 8), j);
      BitLow(d, bits, j);
      BitShl(crc, 8, j);
      BitLow(Xor(d, Shl(lo, 8)), bits, j);
      BitXor(d, Shl(lo, 8), j);
      BitShl(lo, 8, j);
      if j >= 8 {
        BitLow(crc, k, j - 8);
      }
    }
    BitsEqual(lhs, rhs);
  }

  /** With Rin = Rout = false, the table-driven register equals bit-at-a-time division. */
  lemma {:induction false} RegisterIsBitwise(p: Params, data: seq<Byte>)
    requires Valid(p) && !p.refIn && !p.refOut
    ensures Register(p, data) == BitwiseFold(p, p.init, data)
    decreases |data|
  {
    if |data| > 0 {
      var front := data[..|data| - 1];
      RegisterIsBitwise(p, front);
      RegisterBelow(p, front);
      StepIsBitwise(p, Register(p, front), data[|data| - 1]);
    }
  }
}
