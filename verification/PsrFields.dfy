/** xPSR as its fields: IPSR in bits 8 to 0, EPSR in 26 to 24 and 15 to 10, APSR in 31 to 27 and 19 to 16 (Arm DDI 0403,
    section B1.4.2), and the bits none of the three masks covers. */
module PsrFields {
  import opened CoreRegisters
  import opened Words

  datatype Fields = Fields(ipsr: nat, low: nat, epsr1: nat, apsr1: nat, high: nat, epsr2: nat, apsr2: nat) {
    predicate Valid() {
      ipsr < 0x200 && low < 2 && epsr1 < 0x40 && apsr1 < 0x10 && high < 0x10 && epsr2 < 8 && apsr2 < 0x20
    }
  }

  function Compose(f: Fields): (v: word)
    requires f.Valid()
  {
    f.ipsr + 0x200 * f.low + 0x400 * f.epsr1 + 0x1_0000 * f.apsr1 + 0x10_0000 * f.high + 0x100_0000 * f.epsr2
    + 0x800_0000 * f.apsr2
  }

  function Split(v: word): (f: Fields)
    ensures f.Valid()
  {
    TopField(v);
    Fields(v % 0x200, v / 0x200 % 2, v / 0x400 % 0x40, v / 0x1_0000 % 0x10, v / 0x10_0000 % 0x10, v / 0x100_0000 % 8,
           v / 0x800_0000)
  }

  lemma TopField(v: word)
    ensures v / 0x800_0000 < 0x20
  {
  }

  lemma Divide(x: nat, b: nat, m: nat, rest: nat)
    requires b < m && x == b + m * rest
    ensures x % m == b && x / m == rest
  {
    UniqueRemainder(x, rest, b, m);
  }

  /** Fields put together are found again. */
  lemma SplitCompose(f: Fields)
    requires f.Valid()
    ensures Split(Compose(f)) == f
  {
    var v := Compose(f);
    var q6 := f.apsr2;
    var q5 := f.epsr2 + 8 * q6;
    var q4 := f.high + 0x10 * q5;
    var q3 := f.apsr1 + 0x10 * q4;
    var q2 := f.epsr1 + 0x40 * q3;
    var q1 := f.low + 2 * q2;
    Divide(v, f.ipsr, 0x200, q1);
    Divide(q1, f.low, 2, q2);
    Divide(v, f.ipsr + 0x200 * f.low, 0x400, q2);
    Divide(q2, f.epsr1, 0x40, q3);
    Divide(v, f.ipsr + 0x200 * f.low + 0x400 * f.epsr1, 0x1_0000, q3);
    Divide(q3, f.apsr1, 0x10, q4);
    Divide(v, f.ipsr + 0x200 * f.low + 0x400 * f.epsr1 + 0x1_0000 * f.apsr1, 0x10_0000, q4);
    Divide(q4, f.high, 0x10, q5);
    Divide(v, f.ipsr + 0x200 * f.low + 0x400 * f.epsr1 + 0x1_0000 * f.apsr1 + 0x10_0000 * f.high, 0x100_0000, q5);
    Divide(q5, f.epsr2, 8, q6);
    Divide(v, f.ipsr + 0x200 * f.low + 0x400 * f.epsr1 + 0x1_0000 * f.apsr1 + 0x10_0000 * f.high + 0x100_0000 * f.epsr2,
           0x800_0000, q6);
  }

  lemma Peel(x: nat, a: nat, b: nat)
    requires a > 0 && b > 0
    ensures a * b > 0 && x / a == x / a % b + b * (x / (a * b))
  {
    DivDiv(x, a, b);
    DivMod(x / a, b);
  }

  /** And every word is put together from its fields. */
  lemma ComposeSplit(v: word)
    ensures Compose(Split(v)) == v
  {
    DivMod(v, 0x200);
    Peel(v, 0x200, 2);
    Peel(v, 0x400, 0x40);
    Peel(v, 0x1_0000, 0x10);
    Peel(v, 0x10_0000, 0x10);
    Peel(v, 0x100_0000, 8);
  }

  /** The fields that writing a PSR sub-register replaces. */
  function Mix(sysm: int, x: Fields, v: Fields): Fields {
    Fields(if sysm % 2 == 1 then v.ipsr else x.ipsr, x.low,
           if sysm / 2 % 2 == 1 then v.epsr1 else x.epsr1, if sysm / 4 % 2 == 0 then v.apsr1 else x.apsr1, x.high,
           if sysm / 2 % 2 == 1 then v.epsr2 else x.epsr2, if sysm / 4 % 2 == 0 then v.apsr2 else x.apsr2)
  }

  /** `(xpsr & ~mask) | (data & mask)` replaces exactly those. */
  lemma PutIsMix(reg: int, xpsr: word, v: int)
    ensures 0 <= PutPsrBits(reg, xpsr, v) < 0x1_0000_0000
    ensures Split(Low32(PutPsrBits(reg, xpsr, v))) == Mix(reg, Split(xpsr), Split(Low32(v)))
  {
    hide Low32;
    var x, low := Split(xpsr), Split(Low32(v));
    var mix := Mix(reg, x, low);
    ComposeSplit(xpsr);
    ComposeSplit(Low32(v));
    assert PutPsrBits(reg, xpsr, v) == Compose(mix);
    SplitCompose(mix);
    LowOfWord(Compose(mix));
  }
}
