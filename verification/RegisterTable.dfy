/** The register table, and where in the combined registers their parts are, in numbers. */
module RegisterTable {
  import opened Words
  import opened CoreRegisters
  import opened PsrFields

  /** The values of `CORE_REGISTER`: the core's own registers, s0 to s31, and d0 to d15. */
  const CORE_NUMBERS: seq<int> := [
    0, 1, 2, 3, 4, 5, 6, 7, 8, 9, 10, 11, 12, 13, 14, 15, 16, 0x10000, 0x10001, 0x10002, 0x10005, 0x10006, 0x10007,
    17, 18, 20, -4, -3, -2, -1, 33
  ]

  function Table(): seq<int> { CORE_NUMBERS + seq(32, i => 0x40 + i) + seq(16, i => -0x40 - 2 * i) }

  lemma KnownIsTable(reg: int)
    ensures Known(reg) <==> reg in Table()
  {
    var singles, doubles := seq(32, i => 0x40 + i), seq(16, i => -0x40 - 2 * i);
    assert reg in Table() <==> reg in CORE_NUMBERS || reg in singles || reg in doubles;
    InRange(reg);
    InCore(reg);
    hide Known;
  }

  lemma InCore(reg: int)
    ensures reg in CORE_NUMBERS <==>
              || 0 <= reg <= 18 || reg == 20 || reg == 33 || -4 <= reg <= -1
              || (0x10000 <= reg <= 0x10007 && reg != 0x10003 && reg != 0x10004)
  {
  }

  lemma InRange(reg: int)
    ensures reg in seq(32, i => 0x40 + i) <==> 0x40 <= reg <= 0x5f
    ensures reg in seq(16, i => -0x40 - 2 * i) <==> -0x60 < reg <= -0x40 && reg % 2 == 0
  {
    var singles, doubles := seq(32, i => 0x40 + i), seq(16, i => -0x40 - 2 * i);
    if 0x40 <= reg <= 0x5f {
      assert singles[reg - 0x40] == reg;
    }
    if -0x60 < reg <= -0x40 && reg % 2 == 0 {
      assert doubles[(-0x40 - reg) / 2] == reg;
    }
  }

  /** Which of them need an FPU: FPSCR, the singles and the doubles. */
  lemma NeedsFpu(reg: int)
    requires reg in Table()
    ensures Acceptable(reg, true) && (!Acceptable(reg, false) <==> reg == 33 || 0x40 <= reg <= 0x5f || reg <= -0x40)
  {
    KnownIsTable(reg);
    hide Table;
  }

  /** CONTROL is the top byte of CFBP, then FAULTMASK, BASEPRI and PRIMASK. */
  lemma PartsOfCfbp(bank: Bank, primask: byte, basepri: byte, faultmask: byte, control: byte)
    requires bank(20) == primask + 0x100 * basepri + 0x1_0000 * faultmask + 0x100_0000 * control
    ensures Single(bank, -4) == control && Single(bank, -3) == faultmask
    ensures Single(bank, -2) == basepri && Single(bank, -1) == primask
  {
    hide Byte0, Byte1, Byte2, Byte3;
    BytesRoundTrip(primask, basepri, faultmask, control);
    var bs := WordBytes(bank(20));
    assert bs[0] == Byte0(bank(20)) && bs[1] == Byte1(bank(20)) && bs[2] == Byte2(bank(20)) && bs[3] == Byte3(bank(20));
  }

  /** The parts of xPSR: APSR, IAPSR, EAPSR, IPSR, EPSR and IEPSR, each with its fields in their places. */
  lemma PartsOfPsr(bank: Bank, f: Fields)
    requires f.Valid() && bank(16) == Compose(f)
    ensures var ipsr, epsr, apsr := f.ipsr, 0x400 * f.epsr1 + 0x100_0000 * f.epsr2,
                                0x1_0000 * f.apsr1 + 0x800_0000 * f.apsr2;
            && Single(bank, 0x10000) == apsr && Single(bank, 0x10001) == ipsr + apsr
            && Single(bank, 0x10002) == epsr + apsr && Single(bank, 0x10005) == ipsr
            && Single(bank, 0x10006) == epsr && Single(bank, 0x10007) == ipsr + epsr
  {
    MaskedFields(f);
    Sysm(bank(16));
    for reg := 0x10000 to 0x10008
      invariant forall r :: 0x10000 <= r < reg ==> Single(bank, r) == PsrBits(r, bank(16))
    {
      ReadsPsr(bank, reg);
    }
    hide *;
  }

  /** Putting a part into CFBP replaces its byte and keeps the others. */
  lemma PutsIntoCfbp(primask: byte, basepri: byte, faultmask: byte, control: byte, data: nat)
    ensures var cfbp := primask + 0x100 * basepri + 0x1_0000 * faultmask + 0x100_0000 * control;
            && PutCfbpByte(-4, cfbp, data) == cfbp - 0x100_0000 * control + 0x100_0000 * (data % 0x100)
            && PutCfbpByte(-3, cfbp, data) == cfbp - 0x1_0000 * faultmask + 0x1_0000 * (data % 0x100)
            && PutCfbpByte(-2, cfbp, data) == cfbp - 0x100 * basepri + 0x100 * (data % 0x100)
            && PutCfbpByte(-1, cfbp, data) == cfbp - primask + data % 0x100
  {
    hide Byte1, Byte2, Byte3;
    BytesRoundTrip(primask, basepri, faultmask, control);
    var cfbp := primask + 0x100 * basepri + 0x1_0000 * faultmask + 0x100_0000 * control;
    var bs := WordBytes(cfbp);
    assert bs[0] == Byte0(cfbp) && bs[1] == Byte1(cfbp) && bs[2] == Byte2(cfbp) && bs[3] == Byte3(cfbp);
  }

  /** Putting a part into xPSR replaces the fields that the part has, and keeps all others. */
  lemma PutsIntoPsr(x: Fields, v: Fields)
    requires x.Valid() && v.Valid()
    ensures var put := (reg: int) => PutPsrBits(reg, Compose(x), Compose(v));
            && put(0x10000) == Compose(x.(apsr1 := v.apsr1, apsr2 := v.apsr2))
            && put(0x10001) == Compose(x.(ipsr := v.ipsr, apsr1 := v.apsr1, apsr2 := v.apsr2))
            && put(0x10002) == Compose(x.(epsr1 := v.epsr1, epsr2 := v.epsr2, apsr1 := v.apsr1, apsr2 := v.apsr2))
            && put(0x10005) == Compose(x.(ipsr := v.ipsr))
            && put(0x10006) == Compose(x.(epsr1 := v.epsr1, epsr2 := v.epsr2))
            && put(0x10007) == Compose(x.(ipsr := v.ipsr, epsr1 := v.epsr1, epsr2 := v.epsr2))
  {
    MaskedFields(x);
    MaskedFields(v);
    Sysm(Compose(x));
    Sysm(Compose(v));
    LowOfWord(Compose(v));
    hide PsrBits, IpsrBits, EpsrBits, ApsrBits, Low32;
  }

  lemma ReadsPsr(bank: Bank, reg: int)
    requires 0x10000 <= reg <= 0x10007
    ensures Single(bank, reg) == PsrBits(reg, bank(16))
  {
    hide PsrBits;
  }

  /** Which masks the three low bits of the number select. */
  lemma Sysm(v: word)
    ensures PsrBits(0x10000, v) == ApsrBits(v) && PsrBits(0x10001, v) == IpsrBits(v) + ApsrBits(v)
    ensures PsrBits(0x10002, v) == EpsrBits(v) + ApsrBits(v) && PsrBits(0x10005, v) == IpsrBits(v)
    ensures PsrBits(0x10006, v) == EpsrBits(v) && PsrBits(0x10007, v) == IpsrBits(v) + EpsrBits(v)
  {
    hide IpsrBits, EpsrBits, ApsrBits;
  }

  lemma MaskedFields(f: Fields)
    requires f.Valid()
    ensures IpsrBits(Compose(f)) == f.ipsr
    ensures EpsrBits(Compose(f)) == 0x400 * f.epsr1 + 0x100_0000 * f.epsr2
    ensures ApsrBits(Compose(f)) == 0x1_0000 * f.apsr1 + 0x800_0000 * f.apsr2
  {
    hide Compose;
    SplitCompose(f);
  }

  /** Every other register is read by its own number, a double from its two singles, and SP from the stack pointer in
      use: PSP with bit 1 of CONTROL set in thread mode, MSP otherwise. */
  lemma OtherRegisters(bank: Bank, n: nat)
    ensures n < 13 || n in {14, 15, 16, 17, 18, 20, 33} || 0x40 <= n <= 0x5f ==> Single(bank, n) == bank(n)
    ensures n < 16 ==> Single(bank, -0x40 - 2 * n) == bank(0x41 + 2 * n) as int * 0x1_0000_0000 + bank(0x40 + 2 * n)
    ensures Single(bank, 13) == if bank(20) / 0x200_0000 % 2 == 1 && bank(16) % 0x200 == 0 then bank(18) else bank(17)
  {
    SpselBit(bank(20));
    hide SpSel;
  }

  lemma SpselBit(v: word)
    ensures SpSel(v) <==> v / 0x200_0000 % 2 == 1
  {
    DivDiv(v, 0x100, 0x100);
    DivDiv(v, 0x1_0000, 0x100);
    DivDiv(v, 0x100_0000, 2);
    TopByte(v);
  }

  lemma TopByte(v: word)
    ensures v / 0x100_0000 < 0x100 && v / 0x100_0000 % 0x100 == v / 0x100_0000
  {
  }
}
