/*
 * The 16-bit CRC engine `crc::CRC16<poly, init, rin, rout, xorout>`
 * (libs/crc/CRC16.hpp). Every value is a uint16_t, so every assignment
 * narrows to 16 bits (`& 0xFFFF`). The lemmas at the end show it computes
 * exactly what `CRCX<16, poly, init, rin, rout, xorout>` computes.
 */
module Crc16 {
  import opened BitOps
  import Crc

  /** The template parameters, each a uint16_t. */
  datatype Params16 = Params16(poly: nat, init: nat, rin: bool, rout: bool, xorout: nat)

  predicate Valid(q: Params16)
  {
    q.poly < 0x10000 && q.init < 0x10000 && q.xorout < 0x10000
  }

  /** The CRCX instantiation with the same parameters. */
  function Wide(q: Params16): (p: Crc.Params)
    ensures p.bits == 16 && Crc.ValidWidth(p.bits)
    ensures Valid(q) ==> Crc.Valid(p)
  {
    Pow2Literals();
    Crc.Params(16, q.poly, q.init, q.rin, q.rout, q.xorout)
  }

  // ---------------------------------------------------------------------------
  // bit_reverse(uint16_t value, unsigned bits)
  // ---------------------------------------------------------------------------

  /** `r` after k iterations; `r |= ...` stores back into a uint16_t. */
  function RevUpTo16(v: nat, bits: nat, k: nat): nat
    requires k <= bits
  {
    if k == 0 then 0
    else And(Or(RevUpTo16(v, bits, k - 1), Shl(And(Shr(v, k - 1), 1), bits - 1 - (k - 1))), 0xFFFF)
  }

  function Reversed16(v: nat, bits: nat): nat
  {
    RevUpTo16(v, bits, bits)
  }

  method BitReverse(value: nat, bits: nat) returns (r: nat)
    ensures r == Reversed16(value, bits)
  {
    r := 0;
    for i := 0 to bits
      invariant r == RevUpTo16(value, bits, i)
    {
      r := And(Or(r, Shl(And(Shr(value, i), 1), bits - 1 - i)), 0xFFFF);
    }
  }

  lemma {:induction false} RevUpToAgrees(v: nat, bits: nat, k: nat)
    requires k <= bits <= 16
    ensures RevUpTo16(v, bits, k) == Crc.RevUpTo(v, bits, k)
    decreases k
  {
    if k > 0 {
      RevUpToAgrees(v, bits, k - 1);
      var x := Crc.RevUpTo(v, bits, k);
      forall j: nat | j >= bits ensures !Bit(x, j) { Crc.RevUpToBit(v, bits, k, j); }
      BelowPow2(x, bits);
      Pow2Mono(bits, 16);
      Pow2Literals();
      LowOfBelow(x, 16);
    }
  }

  /** For widths up to 16 this bit_reverse is crc::detail::bit_reverse<uint16_t>. */
  lemma ReversedAgrees(v: nat, bits: nat)
    requires bits <= 16
    ensures Reversed16(v, bits) == Crc.Reversed(v, bits)
  {
    RevUpToAgrees(v, bits, bits);
  }

  // ---------------------------------------------------------------------------
  // table_entry and generate_table
  // ---------------------------------------------------------------------------

  function Shift16(q: Params16, c: nat): nat
  {
    if And(c, 0x8000) != 0 then Xor(Shl(c, 1), q.poly) else Shl(c, 1)
  }

  function Steps16(q: Params16, c: nat, n: nat): nat
  {
    if n == 0 then c else And(Shift16(q, Steps16(q, c, n - 1)), 0xFFFF)
  }

  /** `table_entry(index)` */
  function Entry16(q: Params16, index: Byte): nat
  {
    var c0 := if q.rin then Reversed16(index, 8) else index;
    var c := Steps16(q, And(Shl(c0, 8), 0xFFFF), 8);
    var m := And(c, 0xFFFF);
    if q.rout then Reversed16(m, 16) else m
  }

  method TableEntry(q: Params16, index: Byte) returns (c: nat)
    ensures c == Entry16(q, index)
  {
    if q.rin {
      c := BitReverse(index, 8);
    } else {
      c := index;
    }
    c := And(Shl(c, 8), 0xFFFF);
    var start := c;
    for i := 0 to 8
      invariant c == Steps16(q, start, i)
    {
      if And(c, 0x8000) != 0 {
        c := And(Xor(Shl(c, 1), q.poly), 0xFFFF);
      } else {
        c := And(Shl(c, 1), 0xFFFF);
      }
    }
    c := And(c, 0xFFFF);
    if q.rout {
      c := BitReverse(c, 16);
    }
  }

  lemma {:induction false} StepsAgree(q: Params16, c: nat, n: nat)
    ensures Steps16(q, c, n) == Crc.ShiftN(Wide(q), c, n)
    decreases n
  {
    if n > 0 {
      StepsAgree(q, c, n - 1);
      Crc.ShlOne(15);
      Pow2Literals();
    }
  }

  /** Each table entry equals CRCX<16, ...>'s table entry. */
  lemma EntryAgrees(q: Params16, index: Byte)
    ensures Entry16(q, index) == Crc.Entry(Wide(q), index)
  {
    var p := Wide(q);
    ReversedAgrees(index, 8);
    var c0 := if q.rin then Reversed16(index, 8) else index;
    Pow2Literals();
    StepsAgree(q, And(Shl(c0, 8), 0xFFFF), 8);
    ReversedAgrees(And(Steps16(q, And(Shl(c0, 8), 0xFFFF), 8), 0xFFFF), 16);
  }

  /** Each table entry fits in 16 bits. */
  lemma EntryBelow(q: Params16, index: Byte)
    ensures Entry16(q, index) < 0x10000
  {
    EntryAgrees(q, index);
    Crc.EntryBelow(Wide(q), index);
    Pow2Literals();
  }

  function Table16(q: Params16): (t: seq<nat>)
    ensures |t| == 256
  {
    seq(256, i requires 0 <= i < 256 => Entry16(q, i))
  }

  method GenerateTable(q: Params16) returns (t: seq<nat>)
    ensures |t| == 256 && forall i :: 0 <= i < 256 ==> t[i] == Entry16(q, i)
  {
    var a := new nat[256];
    for i := 0 to 256
      invariant forall k :: 0 <= k < i ==> a[k] == Entry16(q, k)
    {
      a[i] := TableEntry(q, i);
    }
    t := a[..];
  }

  lemma TableAgrees(q: Params16)
    ensures Table16(q) == Crc.Table(Wide(q))
  {
    forall i | 0 <= i < 256 ensures Table16(q)[i] == Crc.Table(Wide(q))[i] {
      EntryAgrees(q, i);
    }
  }

  // ---------------------------------------------------------------------------
  // calc
  // ---------------------------------------------------------------------------

  /** The table index `(crc >> 8) ^ b`, in range because crc is a uint16_t. */
  function Index16(crc: nat, b: Byte): (i: nat)
    requires crc < 0x10000
    ensures i < 256
  {
    Pow2Literals();
    ShrBelow(crc, 16, 8);
    XorBelow(Shr(crc, 8), b, 8);
    Xor(Shr(crc, 8), b)
  }

  /** `crc = table[(crc >> 8) ^ b] ^ (crc << 8)`, stored into a uint16_t. */
  function Step16(table: seq<nat>, crc: nat, b: Byte): (r: nat)
    requires |table| == 256 && crc < 0x10000
    ensures r < 0x10000
  {
    Pow2Literals();
    LowBelow(Xor(table[Index16(crc, b)], Shl(crc, 8)), 16);
    And(Xor(table[Index16(crc, b)], Shl(crc, 8)), 0xFFFF)
  }

  /** The register after feeding `data`, starting from a 16-bit `crc`. */
  function Fold16(q: Params16, crc: nat, data: seq<Byte>): (r: nat)
    requires crc < 0x10000
    ensures r < 0x10000
  {
    if |data| == 0 then crc
    else Step16(Table16(q), Fold16(q, crc, data[..|data| - 1]), data[|data| - 1])
  }

  /** What calc returns. */
  function Digest16(q: Params16, data: seq<Byte>): nat
    requires Valid(q)
  {
    var crc := Fold16(q, q.init, data);
    if q.xorout != 0 then And(Xor(crc, q.xorout), 0xFFFF) else crc
  }

  /** `calc(const uint8_t* data, size_t len)` */
  method Calc(q: Params16, table: seq<nat>, data: array<Byte>, len: nat) returns (crc: nat)
    requires Valid(q) && table == Table16(q) && len <= data.Length
    ensures crc == Digest16(q, data[..len])
  {
    crc := q.init;
    var ptr := 0;
    var left := len;
    while left > 0
      invariant ptr + left == len
      invariant crc < 0x10000 && crc == Fold16(q, q.init, data[..ptr])
    {
      left := left - 1;
      var b := data[ptr];
      ptr := ptr + 1;
      ghost var before := crc;
      crc := And(Xor(table[Index16(crc, b)], Shl(crc, 8)), 0xFFFF);
      assert crc == Step16(table, before, b);
      assert data[..ptr][..ptr - 1] == data[..ptr - 1];
    }
    if q.xorout != 0 {
      crc := And(Xor(crc, q.xorout), 0xFFFF);
    }
  }

  /** calc over no bytes returns init ^ xorout. */
  lemma DigestEmpty(q: Params16)
    requires Valid(q)
    ensures Digest16(q, []) == Xor(q.init, q.xorout)
  {
    Pow2Literals();
    XorBelow(q.init, q.xorout, 16);
    LowOfBelow(Xor(q.init, q.xorout), 16);
  }

  lemma StepAgrees(q: Params16, crc: nat, b: Byte)
    requires crc < 0x10000
    ensures Step16(Table16(q), crc, b) == Crc.Step(Wide(q), Crc.Table(Wide(q)), crc, b)
  {
    var p := Wide(q);
    TableAgrees(q);
    var i := Index16(crc, b);
    Pow2Literals();
    LowOfBelow(i, 8);
    var x := Xor(Table16(q)[i], Shl(crc, 8));
    Pow2Literals();
    Crc.MaskMask(x, 16);
  }

  lemma {:induction false} FoldAgrees(q: Params16, crc: nat, data: seq<Byte>)
    requires crc < 0x10000
    ensures Fold16(q, crc, data) == Crc.Fold(Wide(q), Crc.Table(Wide(q)), crc, data)
    decreases |data|
  {
    if |data| > 0 {
      var front := data[..|data| - 1];
      FoldAgrees(q, crc, front);
      StepAgrees(q, Fold16(q, crc, front), data[|data| - 1]);
    }
  }

  /** CRC16<p,i,ri,ro,x>::calc equals CRCX<16,p,i,ri,ro,x>::calc on every input. */
  lemma DigestAgrees(q: Params16, data: seq<Byte>)
    requires Valid(q)
    ensures Digest16(q, data) == Crc.Digest(Wide(q), data)
  {
    var crc := Fold16(q, q.init, data);
    FoldAgrees(q, q.init, data);
    Pow2Literals();
    if q.xorout != 0 {
      Crc.MaskMask(Xor(crc, q.xorout), 16);
    } else {
      LowOfBelow(crc, 16);
    }
  }
}
