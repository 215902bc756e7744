/**
 * The CRC-32 that UEFI prescribes for GPT headers and partition-entry arrays:
 * the ITU-T V.42 / ISO-HDLC checksum (generator 0x04C11DB7, processed least
 * significant bit first, initial value and final XOR 0xFFFFFFFF). It is given
 * here bit by bit, as the reference definition, with no lookup table.
 */
module Crc32 {
  import opened Bytes

  /** The generator polynomial 0x04C11DB7 with its bits reversed. */
  const ReflectedPolynomial: bv32 := 0xEDB8_8320

  /** One shift of the CRC register, feeding in a zero bit. */
  function Step(c: bv32): bv32 {
    if c & 1 == 1 then (c >> 1) ^ ReflectedPolynomial else c >> 1
  }

  /** Eight shifts of the CRC register: one byte's worth. */
  function Shift8(c: bv32): bv32 {
    Step(Step(Step(Step(Step(Step(Step(Step(c))))))))
  }

  /** A byte as the low eight bits of a register value (an unsigned char widened). */
  function Widen(b: byte): bv32 {
    b as bv32
  }

  /** The register after absorbing one byte. */
  function AddByte(c: bv32, b: byte): bv32 {
    Shift8(c ^ Widen(b))
  }

  /** The register after absorbing a byte string, first byte first. */
  function AddBytes(c: bv32, s: seq<byte>): bv32
    decreases |s|
  {
    if s == [] then c else AddBytes(AddByte(c, s[0]), s[1..])
  }

  const InitialRegister: bv32 := 0xFFFF_FFFF
  const FinalXor: bv32 := 0xFFFF_FFFF

  /** CRC-32 of a byte string. */
  function Crc(s: seq<byte>): u32 {
    (AddBytes(InitialRegister, s) ^ FinalXor) as int
  }

  /** A register shift loses no information: distinct registers stay distinct. */
  lemma StepInjective(a: bv32, b: bv32)
    requires a != b
    ensures Step(a) != Step(b)
  {
    if a & 1 == b & 1 {
      assert a >> 1 != b >> 1;
    } else {
      assert (a >> 1) ^ (b >> 1) != ReflectedPolynomial;
    }
  }

  lemma Shift8Injective(a: bv32, b: bv32)
    requires a != b
    ensures Shift8(a) != Shift8(b)
  {
    var a1, b1 := Step(a), Step(b);
    StepInjective(a, b);
    var a2, b2 := Step(a1), Step(b1);
    StepInjective(a1, b1);
    var a3, b3 := Step(a2), Step(b2);
    StepInjective(a2, b2);
    var a4, b4 := Step(a3), Step(b3);
    StepInjective(a3, b3);
    var a5, b5 := Step(a4), Step(b4);
    StepInjective(a4, b4);
    var a6, b6 := Step(a5), Step(b5);
    StepInjective(a5, b5);
    var a7, b7 := Step(a6), Step(b6);
    StepInjective(a6, b6);
    StepInjective(a7, b7);
  }

  /** Widening keeps the byte's value. */
  lemma WidenValue(b: byte)
    ensures Widen(b) as int == b
  {
    CountUpValue(b);
    var w := CountUp(b);
    assert (w as int) as bv32 == w;
  }

  /**
   * The register value reached by adding one, b times, to zero. It names a
   * byte's bits without converting a symbolic integer, which the solver finds
   * costly.
   */
  ghost function CountUp(b: byte): bv32 {
    if b == 0 then 0 else CountUp(b - 1) + 1
  }

  lemma {:induction false} CountUpValue(b: byte)
    ensures CountUp(b) as int == b
  {
    if b > 0 {
      CountUpValue(b - 1);
      IncrementValue(CountUp(b - 1));
    }
  }

  /** Adding one to a small register value adds one to its numeric value. */
  lemma IncrementValue(w: bv32)
    requires w as int < 0xFF
    ensures (w + 1) as int == w as int + 1
  {
  }

  lemma WidenInjective(x: byte, y: byte)
    requires x != y
    ensures Widen(x) != Widen(y)
  {
    WidenValue(x);
    WidenValue(y);
  }

  /** Exclusive or with a fixed word keeps different words different. */
  lemma XorInjective(a: bv32, b: bv32, w: bv32)
    requires a != b
    ensures a ^ w != b ^ w && w ^ a != w ^ b
  {
    assert (a ^ w) ^ w == a && (b ^ w) ^ w == b;
  }

  /** Absorbing the same byte into different registers gives different registers. */
  lemma AddByteInjective(a: bv32, b: bv32, x: byte)
    requires a != b
    ensures AddByte(a, x) != AddByte(b, x)
  {
    XorInjective(a, b, Widen(x));
    Shift8Injective(a ^ Widen(x), b ^ Widen(x));
  }

  /** Absorbing different bytes into the same register gives different registers. */
  lemma AddByteSeparates(c: bv32, x: byte, y: byte)
    requires x != y
    ensures AddByte(c, x) != AddByte(c, y)
  {
    WidenInjective(x, y);
    XorInjective(Widen(x), Widen(y), c);
    Shift8Injective(c ^ Widen(x), c ^ Widen(y));
  }

  /** Different registers absorbing the same bytes end up different. */
  lemma {:induction false} AddBytesInjective(a: bv32, b: bv32, s: seq<byte>)
    requires a != b
    ensures AddBytes(a, s) != AddBytes(b, s)
    decreases |s|
  {
    if s != [] {
      AddByteInjective(a, b, s[0]);
      AddBytesInjective(AddByte(a, s[0]), AddByte(b, s[0]), s[1..]);
    }
  }

  /** Two strings that differ in one byte alone end in different registers. */
  lemma {:induction false} AddBytesOneChange(c: bv32, s: seq<byte>, t: seq<byte>, i: nat)
    requires |s| == |t| && i < |s| && s[i] != t[i]
    requires forall j :: 0 <= j < |s| && j != i ==> s[j] == t[j]
    ensures AddBytes(c, s) != AddBytes(c, t)
    decreases i
  {
    if i == 0 {
      assert s[1..] == t[1..];
      AddByteSeparates(c, s[0], t[0]);
      AddBytesInjective(AddByte(c, s[0]), AddByte(c, t[0]), s[1..]);
    } else {
      assert s[0] == t[0];
      AddBytesOneChange(AddByte(c, s[0]), s[1..], t[1..], i - 1);
    }
  }

  /**
   * Changing any single byte of a byte string changes its CRC-32: the
   * checksum over a GPT partition-entry array catches every one-byte
   * corruption of that array.
   */
  lemma SingleByteChangeDetected(s: seq<byte>, t: seq<byte>, i: nat)
    requires |s| == |t| && i < |s| && s[i] != t[i]
    requires forall j :: 0 <= j < |s| && j != i ==> s[j] == t[j]
    ensures Crc(s) != Crc(t)
  {
    AddBytesOneChange(InitialRegister, s, t, i);
    FinishInjective(AddBytes(InitialRegister, s), AddBytes(InitialRegister, t));
  }

  lemma FinishInjective(a: bv32, b: bv32)
    requires a != b
    ensures (a ^ FinalXor) as int != (b ^ FinalXor) as int
  {
    var x, y := a ^ FinalXor, b ^ FinalXor;
    assert x != y;
    assert (x as int) as bv32 == x && (y as int) as bv32 == y;
  }

  /** Absorbing a concatenation is absorbing its parts in turn. */
  lemma {:induction false} AddBytesAppend(c: bv32, s: seq<byte>, t: seq<byte>)
    ensures AddBytes(c, s + t) == AddBytes(AddBytes(c, s), t)
    decreases |s|
  {
    if s == [] {
      assert s + t == t;
    } else {
      assert (s + t)[1..] == s[1..] + t;
      AddBytesAppend(AddByte(c, s[0]), s[1..], t);
    }
  }

  lemma CheckDigits123()
    ensures AddBytes(0xFFFF_FFFF, [0x31, 0x32, 0x33]) == 0x77B7_9C2D
  {
    assert Widen(0x31) == 0x31;
    assert Widen(0x32) == 0x32;
    assert Widen(0x33) == 0x33;
  }

  lemma CheckDigits456()
    ensures AddBytes(0x77B7_9C2D, [0x34, 0x35, 0x36]) == 0xF68D_2C9E
  {
    assert Widen(0x34) == 0x34;
    assert Widen(0x35) == 0x35;
    assert Widen(0x36) == 0x36;
  }

  lemma CheckDigits789()
    ensures AddBytes(0xF68D_2C9E, [0x37, 0x38, 0x39]) == 0x340B_C6D9
  {
    assert Widen(0x37) == 0x37;
    assert Widen(0x38) == 0x38;
    assert Widen(0x39) == 0x39;
  }

  /** The register after absorbing the nine ASCII digits "123456789". */
  lemma CheckRegister()
    ensures AddBytes(InitialRegister, [0x31, 0x32, 0x33, 0x34, 0x35, 0x36, 0x37, 0x38, 0x39]) == 0x340B_C6D9
  {
    CheckDigits123();
    CheckDigits456();
    CheckDigits789();
    AddBytesAppend(InitialRegister, [0x31, 0x32, 0x33], [0x34, 0x35, 0x36, 0x37, 0x38, 0x39]);
    AddBytesAppend(0x77B7_9C2D, [0x34, 0x35, 0x36], [0x37, 0x38, 0x39]);
  }

  /** The standard check value of this CRC: the nine ASCII digits "123456789". */
  lemma CheckValue()
    ensures Crc([0x31, 0x32, 0x33, 0x34, 0x35, 0x36, 0x37, 0x38, 0x39]) == 0xCBF4_3926
  {
    CheckRegister();
    assert (0x340B_C6D9 as bv32) ^ FinalXor == 0xCBF4_3926;
  }
}
