/** The two instruction encoders the test programs are patched with. */
module RiscvEncoder {
  import opened Bits
  import opened Machine32
  import opened Rv32i

  function EncodeLui(rd: nat, imm: nat): nat
  {
    Or(Or(And(0x37, 0x7F), Shl32(And(rd, 0x1F), 7)), Shl32(And(imm, 0xF_FFFF), 12))
  }

  function EncodeAddi(rd: nat, rs1: nat, imm: nat): nat
  {
    Or(Or(Or(Or(And(0x13, 0x7F), Shl32(And(rd, 0x1F), 7)), Shl32(0, 12)),
          Shl32(And(rs1, 0x1F), 15)),
       Shl32(And(imm, 0xFFF), 20))
  }

  lemma Powers()
    ensures Pow2(5) == 32 && Pow2(7) == 128 && Pow2(12) == 0x1000 && Pow2(15) == 0x8000
    ensures Pow2(20) == 0x10_0000
  {
  }

  lemma Masks(x: nat)
    ensures And(x, 0x1F) == x % 32 && And(x, 0xFFF) == x % 0x1000 && And(x, 0xF_FFFF) == x % 0x10_0000
  {
    Powers();
    AndMask(x, 5);
    AndMask(x, 12);
    AndMask(x, 20);
  }

  lemma EncodeLuiIs(rd: nat, imm: nat)
    ensures EncodeLui(rd, imm) == 0x37 + rd % 32 * 128 + imm % 0x10_0000 * 0x1000
  {
    Powers();
    AndMask(0x37, 7);
    Masks(rd);
    Masks(imm);
    FieldAbove(0x37, rd % 32, 7, 128);
    FieldAbove(0x37 + rd % 32 * 128, imm % 0x10_0000, 12, 0x1000);
  }

  lemma EncodeAddiIs(rd: nat, rs1: nat, imm: nat)
    ensures EncodeAddi(rd, rs1, imm) == 0x13 + rd % 32 * 128 + rs1 % 32 * 0x8000 + imm % 0x1000 * 0x10_0000
  {
    Powers();
    AndMask(0x13, 7);
    Masks(rd);
    Masks(rs1);
    Masks(imm);
    var w := 0x13 + rd % 32 * 128;
    FieldAbove(0x13, rd % 32, 7, 128);
    FieldAbove(w, 0, 12, 0x1000);
    FieldAbove(w, rs1 % 32, 15, 0x8000);
    FieldAbove(w + rs1 % 32 * 0x8000, imm % 0x1000, 20, 0x10_0000);
  }

  lemma DecodeLui(w: nat, rd: nat, upper: nat)
    requires rd < 32 && upper < 0x10_0000 && w == 0x37 + rd * 128 + upper * 0x1000
    ensures Decode(w) == Lui(rd, upper)
  {
    var f3, rs1, rs2, f7 := UpperFields(upper);
    Assembled(w, 0x37, rd, f3, rs1, rs2, f7);
    LuiFields(rd, f3, rs1, rs2, f7);
  }

  /** An upper immediate takes the place of four fields. */
  lemma UpperFields(upper: nat) returns (f3: nat, rs1: nat, rs2: nat, f7: nat)
    requires upper < 0x10_0000
    ensures f3 < 8 && rs1 < 32 && rs2 < 32 && f7 < 128 && upper == f3 + rs1 * 8 + rs2 * 256 + f7 * 8192
  {
    var above := upper / 8;
    var top := above / 32;
    f3, rs1, rs2, f7 := upper % 8, above % 32, top % 32, top / 32;
  }

  lemma LuiFields(rd: nat, f3: nat, rs1: nat, rs2: nat, f7: nat)
    ensures DecodeFields(0x37, rd, f3, rs1, rs2, f7) == Lui(rd, f3 + rs1 * 8 + rs2 * 256 + f7 * 8192)
  {
  }

  lemma DecodeAddi(w: nat, rd: nat, rs1: nat, imm: nat)
    requires rd < 32 && rs1 < 32 && imm < 0x1000 && w == 0x13 + rd * 128 + rs1 * 0x8000 + imm * 0x10_0000
    ensures Decode(w) == Addi(rd, rs1, SignExtend(imm, 2048))
  {
    Assembled(w, 0x13, rd, 0, rs1, imm % 32, imm / 32);
  }

  /** The encoders are right: decoding gives the instruction asked for, fields cut to their width. */
  lemma LuiRoundTrip(rd: nat, imm: nat, rd': nat, imm': nat)
    requires rd' == rd % 32 && imm' == imm % 0x10_0000
    ensures Decode(EncodeLui(rd, imm)) == Lui(rd', imm')
  {
    var w := EncodeLui(rd, imm);
    EncodeLuiIs(rd, imm);
    DecodeLui(w, rd', imm');
  }

  lemma AddiRoundTrip(rd: nat, rs1: nat, imm: nat, rd': nat, rs1': nat, imm': nat)
    requires rd' == rd % 32 && rs1' == rs1 % 32 && imm' == imm % 0x1000
    ensures Decode(EncodeAddi(rd, rs1, imm)) == Addi(rd', rs1', SignExtend(imm', 2048))
  {
    var w := EncodeAddi(rd, rs1, imm);
    EncodeAddiIs(rd, rs1, imm);
    DecodeAddi(w, rd', rs1', imm');
  }

  // ---- what the test programs are patched with ----

  /** The word every program starts with; the core discards the first instruction. */
  lemma NopDecodes()
    ensures DecodeAll([0x33]) == [Add(0, 0, 0)]
  {
    Assembled(0x33, 0x33, 0, 0, 0, 0, 0);
  }

  /** A lui/addi pair meant to load an address, given as its upper 20 and lower 12 bits. */
  function AddressCode(rd: nat, upper: nat, lower: nat): seq<Instr>
  {
    [Lui(rd, upper), Addi(rd, rd, SignExtend(lower, 2048))]
  }

  lemma AddressDecodes(rd: nat, hi: nat, lo: nat, hi': nat, lo': nat)
    requires rd < 32 && hi' == hi % 0x10_0000 && lo' == lo % 0x1000
    ensures DecodeAll([EncodeLui(rd, hi), EncodeAddi(rd, rd, lo)]) == AddressCode(rd, hi', lo')
  {
    LuiRoundTrip(rd, hi, rd, hi');
    AddiRoundTrip(rd, rd, lo, rd, rd, lo');
    PairDecodes(EncodeLui(rd, hi), EncodeAddi(rd, rd, lo), rd, hi', lo');
  }

  lemma PairDecodes(w0: nat, w1: nat, rd: nat, upper: nat, lower: nat)
    requires Decode(w0) == Lui(rd, upper) && Decode(w1) == Addi(rd, rd, SignExtend(lower, 2048))
    ensures DecodeAll([w0, w1]) == AddressCode(rd, upper, lower)
  {
  }

  lemma OneDecoded(w: nat, i: Instr)
    requires Decode(w) == i
    ensures DecodeAll([w]) == [i]
  {
  }

  /** A lui/addi pair loads the address exactly when its bit 11 is clear: addi sign-extends. */
  lemma LoadAddress(code: seq<Instr>, s: Cpu, rd: nat, address: nat) returns (s': Cpu)
    requires s.Valid() && s.pc % 4 == 0 && s.pc / 4 + 1 < |code| && 0 < rd < 32 && address < TWO32
    requires code[s.pc / 4] == Lui(rd, address / 0x1000 % 0x10_0000)
    requires code[s.pc / 4 + 1] == Addi(rd, rd, SignExtend(address % 0x1000, 2048))
    ensures Reaches(code, s, s', EVERYWHERE) && s'.Valid() && s'.pc == s.pc + 8 && s'.mem == s.mem
    ensures s'.regs == s.regs[rd := U32(address - (if address % 0x1000 < 0x800 then 0 else 0x1000))]
    ensures s'.regs[rd] == address <==> address % 0x1000 < 0x800
  {
    var s1 := DoLui(code, s, rd, address / 0x1000 % 0x10_0000);
    assert s1.regs[rd] == address - address % 0x1000;
    s' := DoAddi(code, s1, rd, rd, SignExtend(address % 0x1000, 2048));
    TraceReaches(code, [s, s1, s'], EVERYWHERE);
    OffByPage(address);
  }

  lemma OffByPage(address: nat)
    requires address < TWO32
    ensures U32(address) == address && U32(address - 0x1000) != address
  {
  }
}
