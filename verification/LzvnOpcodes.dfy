/** The LZVN opcodes as the decoder lists them: the dispatch table row by row, and the bits of every instruction. */
module LzvnOpcodes {
  import opened Bits
  import opened Options
  import opened HeaderLayout
  import opened LzvnFormat

  /** A row whose first six opcodes are small distances and whose last is a large one. */
  function Row(seventh: OpClass): seq<OpClass> {
    [SmlD, SmlD, SmlD, SmlD, SmlD, SmlD, seventh, LrgD]
  }

  function All(c: OpClass): seq<OpClass> {
    [c, c, c, c, c, c, c, c]
  }

  /** opc_tbl, eight opcodes to a row. */
  function OpcodeRow(r: nat): (row: seq<OpClass>)
    requires r < 32
    ensures |row| == 8
  {
    if r == 0 then Row(Eos)
    else if r <= 2 then Row(Nop)
    else if r <= 7 then Row(Udef)
    else if r <= 13 then Row(PreD)
    else if r <= 15 then All(Udef)
    else if r <= 19 then Row(PreD)
    else if r <= 23 then All(MedD)
    else if r <= 25 then Row(PreD)
    else if r <= 27 then All(Udef)
    else if r == 28 then [LrgL, SmlL, SmlL, SmlL, SmlL, SmlL, SmlL, SmlL]
    else if r == 29 then All(SmlL)
    else if r == 30 then [LrgM, SmlM, SmlM, SmlM, SmlM, SmlM, SmlM, SmlM]
    else All(SmlM)
  }

  lemma OpcodeTable(opc: nat)
    requires opc < 256
    ensures Classify(opc) == OpcodeRow(opc / 8)[opc % 8]
  {
    TableAt(opc / 8, opc % 8);
  }

  lemma TableAt(r: nat, k: nat)
    requires r < 32 && k < 8
    ensures Classify(8 * r + k) == OpcodeRow(r)[k]
  {
    DivModUnique(8 * r + k, r, k, 8);
  }

  /** The bits of the opcode byte and of the bytes behind it, lowest first, for each kind of instruction. */
  function InstructionFields(c: OpClass, i: Instr): seq<BitField>
    requires (c == LrgM ==> i.m >= 16) && (c == LrgL ==> i.l >= 16)
    requires (c in {SmlD, MedD, LrgD} ==> i.d.Some?) && (c in {SmlD, MedD, LrgD, PreD} ==> i.m >= 3)
  {
    match c
    case SmlD => [BitField(i.d.value / 256, 3), BitField(i.m - 3, 3), BitField(i.l, 2), BitField(i.d.value % 256, 8)]
    case MedD => [BitField((i.m - 3) / 4, 3), BitField(i.l, 2), BitField(5, 3),
                  BitField((i.m - 3) % 4, 2), BitField(i.d.value, 14)]
    case LrgD => [BitField(7, 3), BitField(i.m - 3, 3), BitField(i.l, 2), BitField(i.d.value, 16)]
    case PreD => [BitField(6, 3), BitField(i.m - 3, 3), BitField(i.l, 2)]
    case SmlM => [BitField(i.m, 4), BitField(15, 4)]
    case LrgM => [BitField(0, 4), BitField(15, 4), BitField(i.m - 16, 8)]
    case SmlL => [BitField(i.l, 4), BitField(14, 4)]
    case LrgL => [BitField(0, 4), BitField(14, 4), BitField(i.l - 16, 8)]
    case _ => []
  }

  /** The operands that an instruction of class c has. */
  ghost predicate Operands(c: OpClass, i: Instr) {
    && (c in {SmlD, MedD, LrgD} <==> i.d.Some?) && (c in {SmlD, MedD, LrgD, PreD} ==> i.m >= 3)
    && (c in {SmlM, LrgM, Nop} ==> i.l == 0) && (c in {SmlL, LrgL, Nop} ==> i.m == 0)
    && (c == LrgM ==> i.m >= 16) && (c == LrgL ==> i.l >= 16)
  }

  /** Every instruction read is the fields of its kind, bit by bit, and has no other operands. */
  lemma InstructionLayout(src: seq<byte>, pos: nat)
    requires pos < |src| && Parse(src, pos).Some?
    ensures var c, i := Classify(src[pos] as int), Parse(src, pos).value;
            && Operands(c, i) && (c == Nop ==> i.len == 1)
            && (c != Nop ==> BytesToBits(src[pos..pos + i.len]) == FieldBits(InstructionFields(c, i)))
  {
    hide BytesToBits, FieldBits, InstructionFields, Classify, Parse;
    OperandsRead(src, pos);
    if Classify(src[pos] as int) in {SmlD, MedD, LrgD, PreD} {
      DistanceLayout(src, pos);
    } else if Classify(src[pos] as int) != Nop {
      RunLayout(src, pos);
    }
  }

  lemma DistanceLayout(src: seq<byte>, pos: nat)
    requires pos < |src| && Parse(src, pos).Some? && Classify(src[pos] as int) in {SmlD, MedD, LrgD, PreD}
    requires Operands(Classify(src[pos] as int), Parse(src, pos).value)
    ensures var c, i := Classify(src[pos] as int), Parse(src, pos).value;
            BytesToBits(src[pos..pos + i.len]) == FieldBits(InstructionFields(c, i))
  {
    hide FieldBits, BytesToBits, FromLE, Classify, InstructionFields;
    var opc := src[pos] as int;
    var c, i := Classify(opc), Parse(src, pos).value;
    ClassBytes(opc);
    Digits(opc);
    FewBytes(src, pos);
    if c == SmlD {
      SmallDistance(src[pos], src[pos + 1], i.l, i.m - 3, opc % 8, i);
    } else if c == MedD {
      var w := src[pos + 1] as int + 256 * src[pos + 2] as int;
      MediumDistance(src[pos], src[pos + 1], src[pos + 2], i.l, opc % 8, w % 4, w / 4, i);
    } else if c == LrgD {
      LargeDistance(src[pos], src[pos + 1], src[pos + 2], i.l, i.m - 3, i);
    } else {
      PreviousDistance(src[pos], i.l, i.m - 3, i);
    }
  }

  lemma RunLayout(src: seq<byte>, pos: nat)
    requires pos < |src| && Parse(src, pos).Some? && Classify(src[pos] as int) in {SmlM, LrgM, SmlL, LrgL}
    requires Operands(Classify(src[pos] as int), Parse(src, pos).value)
    ensures var c, i := Classify(src[pos] as int), Parse(src, pos).value;
            BytesToBits(src[pos..pos + i.len]) == FieldBits(InstructionFields(c, i))
  {
    hide FieldBits, BytesToBits, FromLE, Classify, InstructionFields;
    var opc := src[pos] as int;
    var c, i := Classify(opc), Parse(src, pos).value;
    ClassBytes(opc);
    FewBytes(src, pos);
    if c == SmlM || c == SmlL {
      SmallRun(c, src[pos], i);
    } else {
      LargeRun(c, src[pos], src[pos + 1], i);
    }
  }

  lemma ClassBytes(opc: nat)
    requires opc < 256
    ensures var c := Classify(opc);
            && (c == MedD ==> opc / 32 == 5) && (c in {SmlM, LrgM} ==> opc / 16 == 15)
            && (c in {SmlL, LrgL} ==> opc / 16 == 14)
            && (c == LrgM ==> opc == 0xF0) && (c == LrgL ==> opc == 0xE0)
            && (c == LrgD ==> opc % 8 == 7) && (c == PreD ==> opc % 8 == 6)
  {
  }

  lemma Digits(opc: nat)
    requires opc < 256
    ensures opc == opc % 8 + 8 * (opc / 8 % 8) + 64 * (opc / 64) == opc % 8 + 8 * (opc / 8 % 4) + 32 * (opc / 32)
  {
    DivTwice(opc, 8, 8);
    DivTwice(opc, 8, 4);
    DivMod(opc, 8);
    DivMod(opc / 8, 8);
    DivMod(opc / 8, 4);
  }

  lemma OperandsRead(src: seq<byte>, pos: nat)
    requires pos < |src| && Parse(src, pos).Some?
    ensures var c, i := Classify(src[pos] as int), Parse(src, pos).value;
            && Operands(c, i) && (c == Nop ==> i.len == 1) && c != Eos && c != Udef
  {
    hide Classify;
  }

  lemma FewBytes(src: seq<byte>, pos: nat)
    requires pos < |src|
    ensures src[pos..pos + 1] == [src[pos]]
    ensures pos + 2 <= |src| ==> src[pos..pos + 2] == [src[pos], src[pos + 1]]
    ensures pos + 3 <= |src| ==> src[pos..pos + 3] == [src[pos], src[pos + 1], src[pos + 2]]
  {
  }

  /** Fields whose numbers add up to the number of the bytes are the bits of the bytes. */
  lemma FieldsAreBytes(f: seq<BitField>, b: seq<byte>)
    requires FieldsFit(f) && Packed(f) == FromLE(b) && Width(f) == 8 * |b|
    ensures BytesToBits(b) == FieldBits(f)
  {
    hide ToBits, FieldBits, Pow2, Packed, Width, BytesToBits, FromLE, FieldsFit;
    PackedBits(f);
    FromLEBits(b);
  }

  lemma FieldPowers()
    ensures Pow2(2) == 4 && Pow2(3) == 8 && Pow2(4) == 16 && Pow2(8) == 256
    ensures Pow2(14) == 0x4000 && Pow2(16) == 0x1_0000
  {
    Pow2Values();
    Pow2Words();
  }

  lemma SmallDistance(x: byte, y: byte, l: nat, m: nat, low: nat, i: Instr)
    requires l < 4 && m < 8 && low < 8 && x as int == low + 8 * m + 64 * l
    requires i.l == l && i.m == m + 3 && i.d == Some(low * 256 + y as int)
    ensures BytesToBits([x, y]) == FieldBits(InstructionFields(SmlD, i))
  {
    hide ToBits, FieldBits, Pow2, Packed, Width, BytesToBits;
    FieldPowers();
    DivModUnique(low * 256 + y as int, low, y as int, 256);
    var f := [BitField(low, 3), BitField(m, 3), BitField(l, 2), BitField(y as int, 8)];
    NothingPacked();
    assert f[0..] == f && f[4..] == [];
    PackedStep(f, 3);
    PackedStep(f, 2);
    PackedStep(f, 1);
    PackedStep(f, 0);
    assert FromLE([x, y][1..]) == y as int;
    FieldsAreBytes(f, [x, y]);
  }

  lemma MediumDistance(x: byte, y: byte, z: byte, l: nat, low: nat, w: nat, d: nat, i: Instr)
    requires l < 4 && low < 8 && x as int == low + 8 * l + 160 && w < 4 && y as int + 256 * z as int == w + 4 * d
    requires i.l == l && i.m == low * 4 + w + 3 && i.d == Some(d)
    ensures BytesToBits([x, y, z]) == FieldBits(InstructionFields(MedD, i))
  {
    hide ToBits, FieldBits, Pow2, Packed, Width, BytesToBits, FromLE;
    FieldPowers();
    DivModUnique(low * 4 + w, low, w, 4);
    var f := [BitField(low, 3), BitField(l, 2), BitField(5, 3), BitField(w, 2), BitField(d, 14)];
    NothingPacked();
    assert f[0..] == f && f[5..] == [];
    PackedStep(f, 4);
    PackedStep(f, 3);
    PackedStep(f, 2);
    PackedStep(f, 1);
    PackedStep(f, 0);
    ThreeBytes(x, y, z);
    FieldsAreBytes(f, [x, y, z]);
  }

  lemma ThreeBytes(x: byte, y: byte, z: byte)
    ensures FromLE([x, y, z]) == x as int + 256 * (y as int + 256 * z as int)
  {
    assert [x, y, z][1..] == [y, z] && [y, z][1..] == [z] && [z][1..] == [];
    assert FromLE([z]) == z as int && FromLE([y, z]) == y as int + 256 * FromLE([z]);
  }

  lemma LargeDistance(x: byte, y: byte, z: byte, l: nat, m: nat, i: Instr)
    requires l < 4 && m < 8 && x as int == 7 + 8 * m + 64 * l && i.l == l && i.m == m + 3
    requires i.d == Some(y as int + 256 * z as int)
    ensures BytesToBits([x, y, z]) == FieldBits(InstructionFields(LrgD, i))
  {
    hide ToBits, FieldBits, Pow2, Packed, Width, BytesToBits, FromLE;
    FieldPowers();
    var f := InstructionFields(LrgD, i);
    NothingPacked();
    assert f[0..] == f && f[4..] == [];
    PackedStep(f, 3);
    PackedStep(f, 2);
    PackedStep(f, 1);
    PackedStep(f, 0);
    ThreeBytes(x, y, z);
    FieldsAreBytes(f, [x, y, z]);
  }

  lemma PreviousDistance(x: byte, l: nat, m: nat, i: Instr)
    requires l < 4 && m < 8 && x as int == 6 + 8 * m + 64 * l && i.l == l && i.m == m + 3
    ensures BytesToBits([x]) == FieldBits(InstructionFields(PreD, i))
  {
    hide ToBits, FieldBits, Pow2, Packed, Width, BytesToBits;
    FieldPowers();
    var f := InstructionFields(PreD, i);
    NothingPacked();
    assert f[0..] == f && f[3..] == [];
    PackedStep(f, 2);
    PackedStep(f, 1);
    PackedStep(f, 0);
    FieldsAreBytes(f, [x]);
  }

  lemma SmallRun(c: OpClass, x: byte, i: Instr)
    requires (c == SmlM && x as int / 16 == 15 && i.m == x as int % 16) ||
        (c == SmlL && x as int / 16 == 14 && i.l == x as int % 16)
    ensures BytesToBits([x]) == FieldBits(InstructionFields(c, i))
  {
    hide ToBits, FieldBits, Pow2, Packed, Width, BytesToBits;
    FieldPowers();
    var f := InstructionFields(c, i);
    NothingPacked();
    assert f[0..] == f && f[2..] == [];
    PackedStep(f, 1);
    PackedStep(f, 0);
    FieldsAreBytes(f, [x]);
  }

  lemma LargeRun(c: OpClass, x: byte, y: byte, i: Instr)
    requires (c == LrgM && x as int == 0xF0 && i.m == y as int + 16) ||
        (c == LrgL && x as int == 0xE0 && i.l == y as int + 16)
    ensures BytesToBits([x, y]) == FieldBits(InstructionFields(c, i))
  {
    hide ToBits, FieldBits, Pow2, Packed, Width, BytesToBits;
    FieldPowers();
    var f := InstructionFields(c, i);
    NothingPacked();
    assert f[0..] == f && f[3..] == [];
    PackedStep(f, 2);
    PackedStep(f, 1);
    PackedStep(f, 0);
    assert FromLE([x, y][1..]) == y as int;
    FieldsAreBytes(f, [x, y]);
  }
}
