/** The 64-bit cyclic redundancy check that frames every radio packet:
    Go's `hash/crc64` with the ECMA table, i.e. CRC-64/XZ (ECMA-182
    polynomial in reflected form, initial register all ones, final XOR
    all ones, least significant bit first).

    `Crc64` is the bitwise reference definition. `MakeTable` and
    `Checksum` are the table-driven computation the station runs
    (`crc64.MakeTable(crc64.ECMA)` and `crc64.Checksum`), proved equal to
    the reference. Raw bit-vector operators appear only inside the small
    named operations below and the one-line facts about them; every other
    proof reasons with those names, one register shift at a time. */
module Crc {
  import opened Bytes

  /** The ECMA-182 polynomial 0x42F0E1EBA9EA3693, bit-reversed. */
  const Poly: bv64 := 0xC96C_5795_D787_0F42
  const AllOnes: bv64 := 0xFFFF_FFFF_FFFF_FFFF
  const TopBit: bv64 := 0x8000_0000_0000_0000
  /** Register shifts per input byte. */
  const BitsPerByte: nat := 8

  /** Exclusive or of two register values. */
  function Xor(a: bv64, b: bv64): bv64
  {
    a ^ b
  }

  /** The register shifted right by one bit. */
  function Half(c: bv64): bv64
  {
    c >> 1
  }

  /** Whether the bit about to be shifted out is set. */
  predicate Odd(c: bv64)
  {
    c & 1 == 1
  }

  /** The low byte of a register, and the register shifted right by a byte. */
  function LowByte(c: bv64): bv64
  {
    c & 0xFF
  }

  function HighBytes(c: bv64): bv64
  {
    c >> 8
  }

  /** A byte widened to a register value. */
  function Widen(b: byte): bv64
  {
    b as bv64
  }

  /** One shift of the reflected CRC register. */
  function Step(c: bv64): bv64
  {
    if Odd(c) then Xor(Half(c), Poly) else Half(c)
  }

  /** `n` shifts of the register; eight of them consume one byte. */
  function StepN(c: bv64, n: nat): bv64
  {
    if n == 0 then c else Step(StepN(c, n - 1))
  }

  /** Feeding one byte into the register. */
  function Update(c: bv64, b: byte): bv64
  {
    StepN(Xor(c, Widen(b)), BitsPerByte)
  }

  /** The register after feeding `data`, first byte first, starting from `c`. */
  function Register(c: bv64, data: seq<byte>): bv64
  {
    if data == [] then c else Update(Register(c, data[..|data| - 1]), data[|data| - 1])
  }

  /** The final inversion of the register. */
  function Invert(c: bv64): bv64
  {
    !c
  }

  /** CRC-64/XZ of `data`. */
  function Crc64(data: seq<byte>): bv64
  {
    Invert(Register(AllOnes, data))
  }

  // ---- facts about the raw operators ----

  lemma InvertSeparates(a: bv64, b: bv64)
    requires a != b
    ensures Invert(a) != Invert(b)
  {
  }

  lemma XorCommutes(a: bv64, b: bv64)
    ensures Xor(a, b) == Xor(b, a)
  {
  }

  lemma CancelBits(a: bv64, b: bv64, k: bv64)
    ensures (a ^ k) ^ (b ^ k) == a ^ b
  {
  }

  lemma SwapBits(a: bv64, b: bv64, k: bv64)
    ensures (a ^ b) ^ k == (a ^ k) ^ b
  {
  }

  lemma XorCancels(a: bv64, b: bv64, k: bv64)
    ensures Xor(Xor(a, k), Xor(b, k)) == Xor(a, b)
  {
    calc {
      Xor(Xor(a, k), Xor(b, k));
      Xor(a ^ k, b ^ k);
      (a ^ k) ^ (b ^ k);
      { CancelBits(a, b, k); }
      a ^ b;
      Xor(a, b);
    }
  }

  lemma XorSwap(a: bv64, b: bv64, k: bv64)
    ensures Xor(Xor(a, b), k) == Xor(Xor(a, k), b)
  {
    calc {
      Xor(Xor(a, b), k);
      Xor(a ^ b, k);
      (a ^ b) ^ k;
      { SwapBits(a, b, k); }
      (a ^ k) ^ b;
      Xor(a ^ k, b);
      Xor(Xor(a, k), b);
    }
  }

  lemma XorSeparates(a: bv64, b: bv64, k: bv64)
    requires a != b
    ensures Xor(a, k) != Xor(b, k)
  {
  }

  lemma HalfFacts(a: bv64, b: bv64)
    ensures Half(Xor(a, b)) == Xor(Half(a), Half(b))
    ensures Odd(Xor(a, b)) <==> Odd(a) != Odd(b)
    ensures a != b && Odd(a) == Odd(b) ==> Half(a) != Half(b)
  {
  }

  lemma TopBitFacts(c: bv64)
    ensures Half(c) & TopBit == 0
    ensures Xor(Half(c), Poly) & TopBit == TopBit
  {
  }

  lemma WidenFacts(a: byte, b: byte)
    ensures a != b ==> Widen(a) != Widen(b)
  {
  }

  // ---- one register shift ----

  lemma StepCases(c: bv64)
    ensures Odd(c) ==> Step(c) == Xor(Half(c), Poly)
    ensures !Odd(c) ==> Step(c) == Half(c)
  {
  }

  lemma UnfoldStepN(c: bv64, n: nat)
    ensures StepN(c, n + 1) == Step(StepN(c, n))
  {
  }

  lemma StepLinearOddOdd(a: bv64, b: bv64)
    requires Odd(a) && Odd(b)
    ensures Step(Xor(a, b)) == Xor(Step(a), Step(b))
  {
    HalfFacts(a, b);
    XorCancels(Half(a), Half(b), Poly);
    StepCases(Xor(a, b));
    StepCases(a);
    StepCases(b);
  }

  lemma StepLinearEvenEven(a: bv64, b: bv64)
    requires !Odd(a) && !Odd(b)
    ensures Step(Xor(a, b)) == Xor(Step(a), Step(b))
  {
    HalfFacts(a, b);
    StepCases(Xor(a, b));
    StepCases(a);
    StepCases(b);
  }

  lemma StepLinearOddEven(a: bv64, b: bv64)
    requires Odd(a) && !Odd(b)
    ensures Step(Xor(a, b)) == Xor(Step(a), Step(b))
  {
    HalfFacts(a, b);
    XorSwap(Half(a), Half(b), Poly);
    StepCases(Xor(a, b));
    StepCases(a);
    StepCases(b);
  }

  /** A shift is linear over exclusive or. */
  lemma StepLinear(a: bv64, b: bv64)
    ensures Step(Xor(a, b)) == Xor(Step(a), Step(b))
  {
    if Odd(a) && Odd(b) {
      StepLinearOddOdd(a, b);
    } else if !Odd(a) && !Odd(b) {
      StepLinearEvenEven(a, b);
    } else if Odd(a) {
      StepLinearOddEven(a, b);
    } else {
      StepLinearOddEven(b, a);
      XorCommutes(a, b);
      XorCommutes(Step(a), Step(b));
    }
  }

  /** A shift loses no information: the top bit of the result is the bit
      shifted out, because the polynomial's top bit is set. */
  lemma StepInjective(a: bv64, b: bv64)
    requires a != b
    ensures Step(a) != Step(b)
  {
    StepCases(a);
    StepCases(b);
    TopBitFacts(a);
    TopBitFacts(b);
    HalfFacts(a, b);
    if Odd(a) && Odd(b) {
      XorSeparates(Half(a), Half(b), Poly);
    }
  }

  // ---- n register shifts ----

  lemma {:induction false} StepNLinear(a: bv64, b: bv64, n: nat)
    ensures StepN(Xor(a, b), n) == Xor(StepN(a, n), StepN(b, n))
  {
    if n > 0 {
      calc {
        StepN(Xor(a, b), n);
        { UnfoldStepN(Xor(a, b), n - 1); }
        Step(StepN(Xor(a, b), n - 1));
        { StepNLinear(a, b, n - 1); }
        Step(Xor(StepN(a, n - 1), StepN(b, n - 1)));
        { StepLinear(StepN(a, n - 1), StepN(b, n - 1)); }
        Xor(Step(StepN(a, n - 1)), Step(StepN(b, n - 1)));
        { UnfoldStepN(a, n - 1); UnfoldStepN(b, n - 1); }
        Xor(StepN(a, n), StepN(b, n));
      }
    }
  }

  lemma {:induction false} StepNInjective(a: bv64, b: bv64, n: nat)
    requires a != b
    ensures StepN(a, n) != StepN(b, n)
  {
    if n > 0 {
      StepNInjective(a, b, n - 1);
      UnfoldStepN(a, n - 1);
      UnfoldStepN(b, n - 1);
      StepInjective(StepN(a, n - 1), StepN(b, n - 1));
    }
  }

  lemma StepNEven(c: bv64, n: nat)
    requires !Odd(StepN(c, n))
    ensures StepN(c, n + 1) == Half(StepN(c, n))
  {
    UnfoldStepN(c, n);
    StepCases(StepN(c, n));
  }

  /** A register whose bits under mask `m` are clear shifts out a zero, and
      stays clear under the shifted mask `m'`. */
  lemma ClearShift(h: bv64, m: bv64, m': bv64)
    requires h & m == 0 && Odd(m) && Half(m) == m'
    ensures !Odd(h) && Half(h) & m' == 0
  {
  }

  lemma EightHalves(h: bv64)
    ensures Half(Half(Half(Half(Half(Half(Half(Half(h)))))))) == HighBytes(h)
  {
  }

  /** The eight bits a cleared low byte shifts out are all zero. */
  lemma ClearedLowByteShifts(h: bv64)
    requires LowByte(h) == 0
    ensures !Odd(h) && !Odd(Half(h)) && !Odd(Half(Half(h))) && !Odd(Half(Half(Half(h))))
    ensures !Odd(Half(Half(Half(Half(h))))) && !Odd(Half(Half(Half(Half(Half(h))))))
    ensures !Odd(Half(Half(Half(Half(Half(Half(h)))))))
    ensures !Odd(Half(Half(Half(Half(Half(Half(Half(h))))))))
  {
    assert h & 0xFF == 0;
    ClearShift(h, 0xFF, 0x7F);
    ClearShift(Half(h), 0x7F, 0x3F);
    ClearShift(Half(Half(h)), 0x3F, 0x1F);
    ClearShift(Half(Half(Half(h))), 0x1F, 0x0F);
    ClearShift(Half(Half(Half(Half(h)))), 0x0F, 0x07);
    ClearShift(Half(Half(Half(Half(Half(h))))), 0x07, 0x03);
    ClearShift(Half(Half(Half(Half(Half(Half(h)))))), 0x03, 0x01);
    assert Half(Half(Half(Half(Half(Half(Half(h))))))) & 0x01 == 0;
  }

  /** Eight shifts that each shift out a zero are a plain shift by a byte. */
  lemma EvenShiftsHalve(h: bv64)
    requires !Odd(h) && !Odd(Half(h)) && !Odd(Half(Half(h))) && !Odd(Half(Half(Half(h))))
    requires !Odd(Half(Half(Half(Half(h))))) && !Odd(Half(Half(Half(Half(Half(h))))))
    requires !Odd(Half(Half(Half(Half(Half(Half(h)))))))
    requires !Odd(Half(Half(Half(Half(Half(Half(Half(h))))))))
    ensures StepN(h, BitsPerByte) == Half(Half(Half(Half(Half(Half(Half(Half(h))))))))
  {
    assert StepN(h, 0) == h;
    StepNEven(h, 0);
    StepNEven(h, 1);
    StepNEven(h, 2);
    StepNEven(h, 3);
    StepNEven(h, 4);
    StepNEven(h, 5);
    StepNEven(h, 6);
    StepNEven(h, 7);
  }

  /** With the low byte clear, eight shifts never XOR in the polynomial. */
  lemma HighBitsOnlyShift(h: bv64)
    requires LowByte(h) == 0
    ensures StepN(h, BitsPerByte) == HighBytes(h)
  {
    ClearedLowByteShifts(h);
    EvenShiftsHalve(h);
    EightHalves(h);
  }

  lemma SplitLowByte(x: bv64)
    ensures x == Xor(LowByte(x), x & 0xFFFF_FFFF_FFFF_FF00)
    ensures LowByte(x & 0xFFFF_FFFF_FFFF_FF00) == 0
    ensures HighBytes(x & 0xFFFF_FFFF_FFFF_FF00) == HighBytes(x)
  {
  }

  /** Eight shifts of a register are the table entry of its low byte XOR
      the register shifted right by a byte. */
  lemma ByteStepByTable(x: bv64)
    ensures StepN(x, BitsPerByte) == Xor(StepN(LowByte(x), BitsPerByte), HighBytes(x))
  {
    var high := x & 0xFFFF_FFFF_FFFF_FF00;
    SplitLowByte(x);
    StepNLinear(LowByte(x), high, BitsPerByte);
    HighBitsOnlyShift(high);
  }

  lemma IndexBits(c: bv64, b: byte)
    ensures Widen(((c & 0xFF) as byte) ^ b) == LowByte(Xor(c, Widen(b)))
    ensures HighBytes(Xor(c, Widen(b))) == HighBytes(c)
  {
  }

  /** The table index Go computes for register `c` and input byte `b`. */
  function Index(c: bv64, b: byte): byte
  {
    ((c & 0xFF) as byte) ^ b
  }

  /** The table lookup Go performs per byte is the bitwise update. */
  lemma TableUpdate(c: bv64, b: byte)
    ensures Update(c, b) == Xor(StepN(Widen(Index(c, b)), BitsPerByte), HighBytes(c))
  {
    IndexBits(c, b);
    ByteStepByTable(Xor(c, Widen(b)));
  }

  // ---- the register over byte strings ----

  /** Registers that differ stay different whatever bytes follow. */
  lemma {:induction false} RegisterSeparates(c1: bv64, c2: bv64, data: seq<byte>)
    requires c1 != c2
    ensures Register(c1, data) != Register(c2, data)
    decreases |data|
  {
    if data != [] {
      var init, last := data[..|data| - 1], data[|data| - 1];
      RegisterSeparates(c1, c2, init);
      XorSeparates(Register(c1, init), Register(c2, init), Widen(last));
      StepNInjective(Xor(Register(c1, init), Widen(last)), Xor(Register(c2, init), Widen(last)), BitsPerByte);
    }
  }

  lemma UpdateSeparates(r: bv64, a: byte, b: byte)
    requires a != b
    ensures Update(r, a) != Update(r, b)
  {
    WidenFacts(a, b);
    XorSeparates(Widen(a), Widen(b), r);
    XorCommutes(Widen(a), r);
    XorCommutes(Widen(b), r);
    StepNInjective(Xor(r, Widen(a)), Xor(r, Widen(b)), BitsPerByte);
  }

  /** Two byte strings that differ in exactly one position. */
  ghost predicate DifferAt(d1: seq<byte>, d2: seq<byte>, j: nat)
  {
    |d1| == |d2| && j < |d1| && d1[j] != d2[j] &&
    forall k :: 0 <= k < |d1| && k != j ==> d1[k] == d2[k]
  }

  lemma {:induction false} RegisterDetectsOneChange(c: bv64, d1: seq<byte>, d2: seq<byte>, j: nat)
    requires DifferAt(d1, d2, j)
    ensures Register(c, d1) != Register(c, d2)
    decreases |d1|
  {
    var n := |d1| - 1;
    if j == n {
      assert d1[..n] == d2[..n];
      UpdateSeparates(Register(c, d1[..n]), d1[n], d2[n]);
    } else {
      assert DifferAt(d1[..n], d2[..n], j);
      RegisterDetectsOneChange(c, d1[..n], d2[..n], j);
      RegisterSeparates(Register(c, d1[..n]), Register(c, d2[..n]), [d1[n]]);
      assert [d1[n]][..0] == [];
    }
  }

  /** Changing any one byte of the data, in particular flipping any number
      of bits within one byte, changes the checksum. */
  lemma CrcDetectsOneChange(d1: seq<byte>, d2: seq<byte>, j: nat)
    requires DifferAt(d1, d2, j)
    ensures Crc64(d1) != Crc64(d2)
  {
    RegisterDetectsOneChange(AllOnes, d1, d2, j);
    InvertSeparates(Register(AllOnes, d1), Register(AllOnes, d2));
  }

  // ---- the table-driven computation ----

  /** The table `crc64.MakeTable` fills: entry i is byte i pushed through
      eight shifts. */
  ghost predicate IsCrcTable(t: seq<bv64>)
  {
    |t| == 256 && forall b: byte :: t[b as int] == StepN(Widen(b), BitsPerByte)
  }

  /** The shift written with Go's operators, as `makeTable` writes it. */
  lemma RawStep(c: bv64)
    ensures c & 1 == 1 ==> Step(c) == (c >> 1) ^ Poly
    ensures c & 1 != 1 ==> Step(c) == c >> 1
  {
    if c & 1 == 1 {
      calc {
        Step(c);
        { StepCases(c); }
        Xor(Half(c), Poly);
        Xor(c >> 1, Poly);
        (c >> 1) ^ Poly;
      }
    } else {
      calc {
        Step(c);
        { StepCases(c); }
        Half(c);
        c >> 1;
      }
    }
  }

  method MakeTable() returns (t: array<bv64>)
    ensures fresh(t) && IsCrcTable(t[..])
  {
    t := new bv64[256];
    for i := 0 to 256
      invariant forall b: byte :: b as int < i ==> t[b as int] == StepN(Widen(b), BitsPerByte)
    {
      var crc: bv64 := Widen(i as byte);
      for j := 0 to 8
        invariant crc == StepN(Widen(i as byte), j)
        invariant forall b: byte :: b as int < i ==> t[b as int] == StepN(Widen(b), BitsPerByte)
      {
        UnfoldStepN(Widen(i as byte), j);
        RawStep(crc);
        if crc & 1 == 1 {
          crc := (crc >> 1) ^ Poly;
        } else {
          crc := crc >> 1;
        }
      }
      t[i] := crc;
      forall b: byte | b as int == i
        ensures t[b as int] == StepN(Widen(b), BitsPerByte)
      {
        ByteIndex(b);
      }
    }
  }

  lemma ByteIndex(x: byte)
    ensures (x as int) as byte == x
  {
  }

  lemma RegisterSnoc(c: bv64, data: seq<byte>, i: nat)
    requires i < |data|
    ensures Register(c, data[..i + 1]) == Update(Register(c, data[..i]), data[i])
  {
    assert data[..i + 1][..i] == data[..i];
  }

  /** One iteration of the checksum loop advances the register by one byte. */
  lemma ChecksumStep(table: seq<bv64>, c: bv64, b: byte)
    requires IsCrcTable(table)
    ensures Xor(table[Index(c, b) as int], HighBytes(c)) == Update(c, b)
  {
    TableUpdate(c, b);
  }

  /** `crc64.Checksum(data, table)`: invert, one table lookup per byte, invert. */
  method Checksum(data: seq<byte>, table: array<bv64>) returns (crc: bv64)
    requires IsCrcTable(table[..])
    ensures crc == Crc64(data)
  {
    var c := AllOnes;
    for i := 0 to |data|
      invariant c == Register(AllOnes, data[..i])
    {
      ChecksumStep(table[..], c, data[i]);
      RegisterSnoc(AllOnes, data, i);
      var index := Index(c, data[i]);
      c := Xor(table[index as int], HighBytes(c));
    }
    assert data[..|data|] == data;
    crc := Invert(c);
  }

  // ---- the CRC-64/XZ check value ----

  /** The catalogue's check input for CRC-64/XZ: the ASCII digits "123456789". */
  const CheckInput: seq<byte> := [0x31, 0x32, 0x33, 0x34, 0x35, 0x36, 0x37, 0x38, 0x39]

  /* The register after each prefix of the check input. Each byte's update is
     evaluated on its own (`CheckByteN`), then chained onto the prefix before it
     (`CheckPrefixN`). */

  lemma CheckPrefix0()
    ensures Register(AllOnes, CheckInput[..0]) == 0xFFFF_FFFF_FFFF_FFFF
  {
    assert CheckInput[..0] == [];
  }

  lemma CheckByte1()
    ensures Update(0xFFFF_FFFF_FFFF_FFFF, 0x31) == 0xD5D0_F17A_6B6A_3512
  {
  }

  lemma CheckPrefix1()
    ensures Register(AllOnes, CheckInput[..1]) == 0xD5D0_F17A_6B6A_3512
  {
    CheckPrefix0();
    CheckByte1();
    RegisterSnoc(AllOnes, CheckInput, 0);
  }

  lemma CheckByte2()
    ensures Update(0xD5D0_F17A_6B6A_3512, 0x32) == 0xFBE2_9281_D80D_A6A7
  {
  }

  lemma CheckPrefix2()
    ensures Register(AllOnes, CheckInput[..2]) == 0xFBE2_9281_D80D_A6A7
  {
    CheckPrefix1();
    CheckByte2();
    RegisterSnoc(AllOnes, CheckInput, 1);
  }

  lemma CheckByte3()
    ensures Update(0xFBE2_9281_D80D_A6A7, 0x33) == 0xCFDC_D7BB_F8E3_3A9E
  {
  }

  lemma CheckPrefix3()
    ensures Register(AllOnes, CheckInput[..3]) == 0xCFDC_D7BB_F8E3_3A9E
  {
    CheckPrefix2();
    CheckByte3();
    RegisterSnoc(AllOnes, CheckInput, 2);
  }

  lemma CheckByte4()
    ensures Update(0xCFDC_D7BB_F8E3_3A9E, 0x34) == 0x31B1_786C_9947_3CD7
  {
  }

  lemma CheckPrefix4()
    ensures Register(AllOnes, CheckInput[..4]) == 0x31B1_786C_9947_3CD7
  {
    CheckPrefix3();
    CheckByte4();
    RegisterSnoc(AllOnes, CheckInput, 3);
  }

  lemma CheckByte5()
    ensures Update(0x31B1_786C_9947_3CD7, 0x35) == 0xA258_B900_5AFB_A316
  {
  }

  lemma CheckPrefix5()
    ensures Register(AllOnes, CheckInput[..5]) == 0xA258_B900_5AFB_A316
  {
    CheckPrefix4();
    CheckByte5();
    RegisterSnoc(AllOnes, CheckInput, 4);
  }

  lemma CheckByte6()
    ensures Update(0xA258_B900_5AFB_A316, 0x36) == 0xFB95_1AC9_A23C_3731
  {
  }

  lemma CheckPrefix6()
    ensures Register(AllOnes, CheckInput[..6]) == 0xFB95_1AC9_A23C_3731
  {
    CheckPrefix5();
    CheckByte6();
    RegisterSnoc(AllOnes, CheckInput, 5);
  }

  lemma CheckByte7()
    ensures Update(0xFB95_1AC9_A23C_3731, 0x37) == 0x8FAF_60C9_9E6D_C25F
  {
  }

  lemma CheckPrefix7()
    ensures Register(AllOnes, CheckInput[..7]) == 0x8FAF_60C9_9E6D_C25F
  {
    CheckPrefix6();
    CheckByte7();
    RegisterSnoc(AllOnes, CheckInput, 6);
  }

  lemma CheckByte8()
    ensures Update(0x8FAF_60C9_9E6D_C25F, 0x38) == 0xA374_7FB7_D453_87F6
  {
  }

  lemma CheckPrefix8()
    ensures Register(AllOnes, CheckInput[..8]) == 0xA374_7FB7_D453_87F6
  {
    CheckPrefix7();
    CheckByte8();
    RegisterSnoc(AllOnes, CheckInput, 7);
  }

  lemma CheckByte9()
    ensures Update(0xA374_7FB7_D453_87F6, 0x39) == 0x66A2_3644_20E6_C605
  {
  }

  lemma CheckPrefix9()
    ensures Register(AllOnes, CheckInput[..9]) == 0x66A2_3644_20E6_C605
  {
    CheckPrefix8();
    CheckByte9();
    RegisterSnoc(AllOnes, CheckInput, 8);
  }

  /** The catalogue check value of CRC-64/XZ, the parameters Go's ECMA table uses. */
  lemma CheckValue()
    ensures Crc64(CheckInput) == 0x995D_C9BB_DF19_39FA
  {
    CheckPrefix9();
    assert CheckInput[..9] == CheckInput;
  }
}
