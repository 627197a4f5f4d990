/** The CRC-32 of IEEE 802.3, section 3.2.9, on its shift register and by table. */
module Crc32 {
  import opened Arithmetic
  import opened Common

  /** The generating polynomial, lowest power last. */
  const POLYNOMIAL: bv32 := 0xEDB88320
  const PRESET: bv32 := 0xFFFF_FFFF
  const RESIDUE: bv32 := 0x2144_DF1C

  // ---------------------------------------------------------------------------------------------
  // The register

  function Xor(x: bv32, y: bv32): bv32 {
    x ^ y
  }

  function Invert(x: bv32): bv32 {
    x ^ 0xFFFF_FFFF
  }

  /** One bit leaves the register. */
  function Step(c: bv32): bv32 {
    if c & 1 == 1 then (c >> 1) ^ POLYNOMIAL else c >> 1
  }

  /** A byte of data leaves the register. */
  function Steps(c: bv32): bv32 {
    Step(Step(Step(Step(Step(Step(Step(Step(c))))))))
  }

  /** A byte of memory as a word. */
  function Widened(x: byte): (w: bv32)
    ensures w < 0x100
  {
    (x as bv8) as bv32
  }

  function Absorb(c: bv32, x: byte): bv32 {
    Steps(Xor(c, Widened(x)))
  }

  function Register(c: bv32, b: seq<byte>): bv32 {
    if b == [] then c else Absorb(Register(c, b[..|b| - 1]), b[|b| - 1])
  }

  /** The CRC of `b`. */
  function Crc(b: seq<byte>): bv32 {
    Invert(Register(PRESET, b))
  }

  lemma {:induction false} RegisterConcat(c: bv32, a: seq<byte>, b: seq<byte>)
    ensures Register(c, a + b) == Register(Register(c, a), b)
  {
    hide Absorb;
    if b == [] {
      assert a + b == a;
    } else {
      RegisterConcat(c, a, b[..|b| - 1]);
      assert (a + b)[..|a + b| - 1] == a + b[..|b| - 1];
    }
  }

  // ---------------------------------------------------------------------------------------------
  // The register is linear and forgets nothing

  function Half(c: bv32): bv32 {
    c >> 1
  }

  predicate Low(c: bv32) {
    c & 1 == 1
  }

  lemma StepParts(c: bv32)
    ensures Step(c) == if Low(c) then Xor(Half(c), POLYNOMIAL) else Half(c)
  {
  }

  lemma StepLinear(x: bv32, y: bv32)
    ensures Step(Xor(x, y)) == Xor(Step(x), Step(y))
  {
    hide Step, Xor, Half, Low;
    StepParts(x);
    StepParts(y);
    StepParts(Xor(x, y));
    HalfLinear(x, y);
    LowLinear(x, y);
    PolynomialCancels(Half(x), Half(y));
    PolynomialLeft(Half(x), Half(y));
    PolynomialRight(Half(x), Half(y));
  }

  lemma HalfLinear(x: bv32, y: bv32)
    ensures Half(Xor(x, y)) == Xor(Half(x), Half(y))
  {
  }

  lemma LowLinear(x: bv32, y: bv32)
    ensures Low(Xor(x, y)) <==> Low(x) != Low(y)
  {
  }

  lemma PolynomialCancels(a: bv32, b: bv32)
    ensures Xor(Xor(a, POLYNOMIAL), Xor(b, POLYNOMIAL)) == Xor(a, b)
  {
  }

  lemma PolynomialLeft(a: bv32, b: bv32)
    ensures Xor(Xor(a, POLYNOMIAL), b) == Xor(Xor(a, b), POLYNOMIAL)
  {
  }

  lemma PolynomialRight(a: bv32, b: bv32)
    ensures Xor(a, Xor(b, POLYNOMIAL)) == Xor(Xor(a, b), POLYNOMIAL)
  {
  }

  lemma StepInjective(x: bv32, y: bv32)
    requires Step(x) == Step(y)
    ensures x == y
  {
  }

  lemma StepsLinear(x: bv32, y: bv32)
    ensures Steps(Xor(x, y)) == Xor(Steps(x), Steps(y))
  {
    hide Step, Xor;
    StepLinear(x, y);
    StepLinear(Step(x), Step(y));
    StepLinear(Step(Step(x)), Step(Step(y)));
    StepLinear(Step(Step(Step(x))), Step(Step(Step(y))));
    StepLinear(Step(Step(Step(Step(x)))), Step(Step(Step(Step(y)))));
    StepLinear(Step(Step(Step(Step(Step(x))))), Step(Step(Step(Step(Step(y))))));
    StepLinear(Step(Step(Step(Step(Step(Step(x)))))), Step(Step(Step(Step(Step(Step(y)))))));
    StepLinear(Step(Step(Step(Step(Step(Step(Step(x))))))), Step(Step(Step(Step(Step(Step(Step(y))))))));
  }

  lemma StepsInjective(x: bv32, y: bv32)
    requires Steps(x) == Steps(y)
    ensures x == y
  {
    hide Step;
    StepInjective(Step(Step(Step(Step(Step(Step(Step(x))))))), Step(Step(Step(Step(Step(Step(Step(y))))))));
    StepInjective(Step(Step(Step(Step(Step(Step(x)))))), Step(Step(Step(Step(Step(Step(y)))))));
    StepInjective(Step(Step(Step(Step(Step(x))))), Step(Step(Step(Step(Step(y))))));
    StepInjective(Step(Step(Step(Step(x)))), Step(Step(Step(Step(y)))));
    StepInjective(Step(Step(Step(x))), Step(Step(Step(y))));
    StepInjective(Step(Step(x)), Step(Step(y)));
    StepInjective(Step(x), Step(y));
    StepInjective(x, y);
  }

  /** As long as only zeros leave the register, it only shifts. */
  lemma StepsShift(c: bv32)
    requires c & 0xFF == 0
    ensures Steps(c) == c >> 8
  {
  }

  // ---------------------------------------------------------------------------------------------
  // The table

  /** Four neighbouring entries. */
  function Quad(i: bv32, a: bv32, b: bv32, c: bv32, d: bv32): bv32 {
    if i & 2 == 0 then (if i & 1 == 0 then a else b) else (if i & 1 == 0 then c else d)
  }

  function Table0(i: bv32): bv32 {
    if i < 4 then Quad(i, 0x00000000, 0x77073096, 0xEE0E612C, 0x990951BA)
    else if i < 8 then Quad(i, 0x076DC419, 0x706AF48F, 0xE963A535, 0x9E6495A3)
    else if i < 12 then Quad(i, 0x0EDB8832, 0x79DCB8A4, 0xE0D5E91E, 0x97D2D988)
    else Quad(i, 0x09B64C2B, 0x7EB17CBD, 0xE7B82D07, 0x90BF1D91)
  }

  function Table1(i: bv32): bv32 {
    if i < 20 then Quad(i, 0x1DB71064, 0x6AB020F2, 0xF3B97148, 0x84BE41DE)
    else if i < 24 then Quad(i, 0x1ADAD47D, 0x6DDDE4EB, 0xF4D4B551, 0x83D385C7)
    else if i < 28 then Quad(i, 0x136C9856, 0x646BA8C0, 0xFD62F97A, 0x8A65C9EC)
    else Quad(i, 0x14015C4F, 0x63066CD9, 0xFA0F3D63, 0x8D080DF5)
  }

  function Table2(i: bv32): bv32 {
    if i < 36 then Quad(i, 0x3B6E20C8, 0x4C69105E, 0xD56041E4, 0xA2677172)
    else if i < 40 then Quad(i, 0x3C03E4D1, 0x4B04D447, 0xD20D85FD, 0xA50AB56B)
    else if i < 44 then Quad(i, 0x35B5A8FA, 0x42B2986C, 0xDBBBC9D6, 0xACBCF940)
    else Quad(i, 0x32D86CE3, 0x45DF5C75, 0xDCD60DCF, 0xABD13D59)
  }

  function Table3(i: bv32): bv32 {
    if i < 52 then Quad(i, 0x26D930AC, 0x51DE003A, 0xC8D75180, 0xBFD06116)
    else if i < 56 then Quad(i, 0x21B4F4B5, 0x56B3C423, 0xCFBA9599, 0xB8BDA50F)
    else if i < 60 then Quad(i, 0x2802B89E, 0x5F058808, 0xC60CD9B2, 0xB10BE924)
    else Quad(i, 0x2F6F7C87, 0x58684C11, 0xC1611DAB, 0xB6662D3D)
  }

  function Table4(i: bv32): bv32 {
    if i < 68 then Quad(i, 0x76DC4190, 0x01DB7106, 0x98D220BC, 0xEFD5102A)
    else if i < 72 then Quad(i, 0x71B18589, 0x06B6B51F, 0x9FBFE4A5, 0xE8B8D433)
    else if i < 76 then Quad(i, 0x7807C9A2, 0x0F00F934, 0x9609A88E, 0xE10E9818)
    else Quad(i, 0x7F6A0DBB, 0x086D3D2D, 0x91646C97, 0xE6635C01)
  }

  function Table5(i: bv32): bv32 {
    if i < 84 then Quad(i, 0x6B6B51F4, 0x1C6C6162, 0x856530D8, 0xF262004E)
    else if i < 88 then Quad(i, 0x6C0695ED, 0x1B01A57B, 0x8208F4C1, 0xF50FC457)
    else if i < 92 then Quad(i, 0x65B0D9C6, 0x12B7E950, 0x8BBEB8EA, 0xFCB9887C)
    else Quad(i, 0x62DD1DDF, 0x15DA2D49, 0x8CD37CF3, 0xFBD44C65)
  }

  function Table6(i: bv32): bv32 {
    if i < 100 then Quad(i, 0x4DB26158, 0x3AB551CE, 0xA3BC0074, 0xD4BB30E2)
    else if i < 104 then Quad(i, 0x4ADFA541, 0x3DD895D7, 0xA4D1C46D, 0xD3D6F4FB)
    else if i < 108 then Quad(i, 0x4369E96A, 0x346ED9FC, 0xAD678846, 0xDA60B8D0)
    else Quad(i, 0x44042D73, 0x33031DE5, 0xAA0A4C5F, 0xDD0D7CC9)
  }

  function Table7(i: bv32): bv32 {
    if i < 116 then Quad(i, 0x5005713C, 0x270241AA, 0xBE0B1010, 0xC90C2086)
    else if i < 120 then Quad(i, 0x5768B525, 0x206F85B3, 0xB966D409, 0xCE61E49F)
    else if i < 124 then Quad(i, 0x5EDEF90E, 0x29D9C998, 0xB0D09822, 0xC7D7A8B4)
    else Quad(i, 0x59B33D17, 0x2EB40D81, 0xB7BD5C3B, 0xC0BA6CAD)
  }

  function Table8(i: bv32): bv32 {
    if i < 132 then Quad(i, 0xEDB88320, 0x9ABFB3B6, 0x03B6E20C, 0x74B1D29A)
    else if i < 136 then Quad(i, 0xEAD54739, 0x9DD277AF, 0x04DB2615, 0x73DC1683)
    else if i < 140 then Quad(i, 0xE3630B12, 0x94643B84, 0x0D6D6A3E, 0x7A6A5AA8)
    else Quad(i, 0xE40ECF0B, 0x9309FF9D, 0x0A00AE27, 0x7D079EB1)
  }

  function Table9(i: bv32): bv32 {
    if i < 148 then Quad(i, 0xF00F9344, 0x8708A3D2, 0x1E01F268, 0x6906C2FE)
    else if i < 152 then Quad(i, 0xF762575D, 0x806567CB, 0x196C3671, 0x6E6B06E7)
    else if i < 156 then Quad(i, 0xFED41B76, 0x89D32BE0, 0x10DA7A5A, 0x67DD4ACC)
    else Quad(i, 0xF9B9DF6F, 0x8EBEEFF9, 0x17B7BE43, 0x60B08ED5)
  }

  function Table10(i: bv32): bv32 {
    if i < 164 then Quad(i, 0xD6D6A3E8, 0xA1D1937E, 0x38D8C2C4, 0x4FDFF252)
    else if i < 168 then Quad(i, 0xD1BB67F1, 0xA6BC5767, 0x3FB506DD, 0x48B2364B)
    else if i < 172 then Quad(i, 0xD80D2BDA, 0xAF0A1B4C, 0x36034AF6, 0x41047A60)
    else Quad(i, 0xDF60EFC3, 0xA867DF55, 0x316E8EEF, 0x4669BE79)
  }

  function Table11(i: bv32): bv32 {
    if i < 180 then Quad(i, 0xCB61B38C, 0xBC66831A, 0x256FD2A0, 0x5268E236)
    else if i < 184 then Quad(i, 0xCC0C7795, 0xBB0B4703, 0x220216B9, 0x5505262F)
    else if i < 188 then Quad(i, 0xC5BA3BBE, 0xB2BD0B28, 0x2BB45A92, 0x5CB36A04)
    else Quad(i, 0xC2D7FFA7, 0xB5D0CF31, 0x2CD99E8B, 0x5BDEAE1D)
  }

  function Table12(i: bv32): bv32 {
    if i < 196 then Quad(i, 0x9B64C2B0, 0xEC63F226, 0x756AA39C, 0x026D930A)
    else if i < 200 then Quad(i, 0x9C0906A9, 0xEB0E363F, 0x72076785, 0x05005713)
    else if i < 204 then Quad(i, 0x95BF4A82, 0xE2B87A14, 0x7BB12BAE, 0x0CB61B38)
    else Quad(i, 0x92D28E9B, 0xE5D5BE0D, 0x7CDCEFB7, 0x0BDBDF21)
  }

  function Table13(i: bv32): bv32 {
    if i < 212 then Quad(i, 0x86D3D2D4, 0xF1D4E242, 0x68DDB3F8, 0x1FDA836E)
    else if i < 216 then Quad(i, 0x81BE16CD, 0xF6B9265B, 0x6FB077E1, 0x18B74777)
    else if i < 220 then Quad(i, 0x88085AE6, 0xFF0F6A70, 0x66063BCA, 0x11010B5C)
    else Quad(i, 0x8F659EFF, 0xF862AE69, 0x616BFFD3, 0x166CCF45)
  }

  function Table14(i: bv32): bv32 {
    if i < 228 then Quad(i, 0xA00AE278, 0xD70DD2EE, 0x4E048354, 0x3903B3C2)
    else if i < 232 then Quad(i, 0xA7672661, 0xD06016F7, 0x4969474D, 0x3E6E77DB)
    else if i < 236 then Quad(i, 0xAED16A4A, 0xD9D65ADC, 0x40DF0B66, 0x37D83BF0)
    else Quad(i, 0xA9BCAE53, 0xDEBB9EC5, 0x47B2CF7F, 0x30B5FFE9)
  }

  function Table15(i: bv32): bv32 {
    if i < 244 then Quad(i, 0xBDBDF21C, 0xCABAC28A, 0x53B39330, 0x24B4A3A6)
    else if i < 248 then Quad(i, 0xBAD03605, 0xCDD70693, 0x54DE5729, 0x23D967BF)
    else if i < 252 then Quad(i, 0xB3667A2E, 0xC4614AB8, 0x5D681B02, 0x2A6F2B94)
    else Quad(i, 0xB40BBE37, 0xC30C8EA1, 0x5A05DF1B, 0x2D02EF8D)
  }

  /** The look-up table, by rows of four. */
  function Table(i: bv32): bv32
    requires i < 0x100
  {
    if i < 16 then Table0(i)
    else if i < 32 then Table1(i)
    else if i < 48 then Table2(i)
    else if i < 64 then Table3(i)
    else if i < 80 then Table4(i)
    else if i < 96 then Table5(i)
    else if i < 112 then Table6(i)
    else if i < 128 then Table7(i)
    else if i < 144 then Table8(i)
    else if i < 160 then Table9(i)
    else if i < 176 then Table10(i)
    else if i < 192 then Table11(i)
    else if i < 208 then Table12(i)
    else if i < 224 then Table13(i)
    else if i < 240 then Table14(i)
    else Table15(i)
  }

  /** What eight steps make of each bit of a byte, put together. */
  function Linear(i: bv32): bv32 {
    Xor(LinearLow(i), LinearHigh(i))
  }

  function LinearLow(i: bv32): bv32 {
    (if i & 1 == 0 then 0 else 0x77073096) ^ (if i & 2 == 0 then 0 else 0xEE0E612C)
    ^ (if i & 4 == 0 then 0 else 0x076DC419) ^ (if i & 8 == 0 then 0 else 0x0EDB8832)
  }

  function LinearHigh(i: bv32): bv32 {
    (if i & 0x10 == 0 then 0 else 0x1DB71064) ^ (if i & 0x20 == 0 then 0 else 0x3B6E20C8)
    ^ (if i & 0x40 == 0 then 0 else 0x76DC4190) ^ (if i & 0x80 == 0 then 0 else 0xEDB88320)
  }

  lemma LinearIsSteps(i: bv32)
    requires i < 0x100
    ensures Linear(i) == Steps(i)
  {
    hide Steps, LinearLow, LinearHigh, Xor;
    Halves(i);
    StepsLinear(i & 0xF, i & 0xF0);
    LowIsSteps(i);
    HighIsSteps(i);
  }

  lemma Halves(i: bv32)
    requires i < 0x100
    ensures Xor(i & 0xF, i & 0xF0) == i
  {
  }

  lemma LowIsSteps(i: bv32)
    ensures LinearLow(i) == Steps(i & 0xF)
  {
  }

  lemma HighIsSteps(i: bv32)
    ensures LinearHigh(i) == Steps(i & 0xF0)
  {
  }

  lemma Table0IsLinear(i: bv32)
    requires 0 <= i < 16
    ensures Table0(i) == Linear(i)
  {
  }

  lemma Table1IsLinear(i: bv32)
    requires 16 <= i < 32
    ensures Table1(i) == Linear(i)
  {
  }

  lemma Table2IsLinear(i: bv32)
    requires 32 <= i < 48
    ensures Table2(i) == Linear(i)
  {
  }

  lemma Table3IsLinear(i: bv32)
    requires 48 <= i < 64
    ensures Table3(i) == Linear(i)
  {
  }

  lemma Table4IsLinear(i: bv32)
    requires 64 <= i < 80
    ensures Table4(i) == Linear(i)
  {
  }

  lemma Table5IsLinear(i: bv32)
    requires 80 <= i < 96
    ensures Table5(i) == Linear(i)
  {
  }

  lemma Table6IsLinear(i: bv32)
    requires 96 <= i < 112
    ensures Table6(i) == Linear(i)
  {
  }

  lemma Table7IsLinear(i: bv32)
    requires 112 <= i < 128
    ensures Table7(i) == Linear(i)
  {
  }

  lemma Table8IsLinear(i: bv32)
    requires 128 <= i < 144
    ensures Table8(i) == Linear(i)
  {
  }

  lemma Table9IsLinear(i: bv32)
    requires 144 <= i < 160
    ensures Table9(i) == Linear(i)
  {
  }

  lemma Table10IsLinear(i: bv32)
    requires 160 <= i < 176
    ensures Table10(i) == Linear(i)
  {
  }

  lemma Table11IsLinear(i: bv32)
    requires 176 <= i < 192
    ensures Table11(i) == Linear(i)
  {
  }

  lemma Table12IsLinear(i: bv32)
    requires 192 <= i < 208
    ensures Table12(i) == Linear(i)
  {
  }

  lemma Table13IsLinear(i: bv32)
    requires 208 <= i < 224
    ensures Table13(i) == Linear(i)
  {
  }

  lemma Table14IsLinear(i: bv32)
    requires 224 <= i < 240
    ensures Table14(i) == Linear(i)
  {
  }

  lemma Table15IsLinear(i: bv32)
    requires 240 <= i < 256
    ensures Table15(i) == Linear(i)
  {
  }

  /** Every entry is what eight steps make of its index. */
  lemma TableIsSteps(i: bv32)
    requires i < 0x100
    ensures Table(i) == Steps(i)
  {
    hide Steps, Linear, Table0, Table1, Table2, Table3, Table4, Table5, Table6, Table7, Table8, Table9, Table10,
         Table11, Table12, Table13, Table14, Table15;
    LinearIsSteps(i);
    if i < 16 {
      Table0IsLinear(i);
    } else if i < 32 {
      Table1IsLinear(i);
    } else if i < 48 {
      Table2IsLinear(i);
    } else if i < 64 {
      Table3IsLinear(i);
    } else if i < 80 {
      Table4IsLinear(i);
    } else if i < 96 {
      Table5IsLinear(i);
    } else if i < 112 {
      Table6IsLinear(i);
    } else if i < 128 {
      Table7IsLinear(i);
    } else if i < 144 {
      Table8IsLinear(i);
    } else if i < 160 {
      Table9IsLinear(i);
    } else if i < 176 {
      Table10IsLinear(i);
    } else if i < 192 {
      Table11IsLinear(i);
    } else if i < 208 {
      Table12IsLinear(i);
    } else if i < 224 {
      Table13IsLinear(i);
    } else if i < 240 {
      Table14IsLinear(i);
    } else {
      Table15IsLinear(i);
    }
  }

  /** One look-up does the work of eight steps, for every register and every byte. */
  lemma LookupIsAbsorb(c: bv32, x: byte)
    ensures Xor(c & 0xFF, Widened(x)) < 0x100
    ensures Xor(c >> 8, Table(Xor(c & 0xFF, Widened(x)))) == Absorb(c, x)
  {
    hide Steps, Table, Widened, Xor;
    var w := Widened(x);
    ByteXor(c, w);
    TableIsSteps(Xor(c & 0xFF, w));
    ShiftedOut(c);
    StepsLinear(c & 0xFFFF_FF00, Xor(c & 0xFF, w));
  }

  lemma ByteXor(c: bv32, w: bv32)
    requires w < 0x100
    ensures Xor(c & 0xFF, w) < 0x100
    ensures Xor(c & 0xFFFF_FF00, Xor(c & 0xFF, w)) == Xor(c, w)
  {
    hide Xor;
    LowByte(c, w);
    Parts(c);
    XorAssoc(c & 0xFFFF_FF00, c & 0xFF, w);
  }

  lemma LowByte(c: bv32, w: bv32)
    requires w < 0x100
    ensures Xor(c & 0xFF, w) < 0x100
  {
  }

  lemma Parts(c: bv32)
    ensures Xor(c & 0xFFFF_FF00, c & 0xFF) == c
  {
  }

  lemma XorAssoc(x: bv32, y: bv32, z: bv32)
    ensures Xor(x, Xor(y, z)) == Xor(Xor(x, y), z)
  {
  }

  lemma XorComm(x: bv32, y: bv32)
    ensures Xor(x, y) == Xor(y, x)
  {
  }

  lemma ShiftedOut(c: bv32)
    ensures Steps(c & 0xFFFF_FF00) == c >> 8
  {
    hide Steps;
    StepsShift(c & 0xFFFF_FF00);
  }

  // ---------------------------------------------------------------------------------------------
  // Words

  /** The bytes of a word, lowest first. */
  function WordBytes(w: bv32): (b: seq<byte>)
    ensures |b| == 4
  {
    [Narrowed(w & 0xFF), Narrowed((w >> 8) & 0xFF), Narrowed((w >> 16) & 0xFF), Narrowed((w >> 24) & 0xFF)]
  }

  function Narrowed(w: bv32): byte
    requires w < 0x100
  {
    (w as bv8) as int
  }

  function Up(t: bv32): bv32 {
    t << 8
  }

  /** A byte in front of what waits behind it. */
  function Waiting(w: bv32, t: bv32): bv32 {
    Xor(w, Up(t))
  }

  /** Four bytes read as a word, lowest first. */
  function ReadWord(b: seq<byte>): bv32
    requires |b| == 4
  {
    Assembled(Widened(b[0]), Widened(b[1]), Widened(b[2]), Widened(b[3]))
  }

  function Assembled(a: bv32, b: bv32, c: bv32, d: bv32): bv32 {
    Waiting(a, Waiting(b, Waiting(c, d)))
  }

  lemma NarrowedBack(w: bv32)
    requires w < 0x100
    ensures Widened(Narrowed(w)) == w
  {
    var v := w as bv8;
    ByteOfWord(w);
    BitsOfNumber(v);
    assert Narrowed(w) == NumberOf(v) && Widened(NumberOf(v)) == BitsOf(NumberOf(v)) as bv32;
  }

  lemma ByteOfWord(w: bv32)
    requires w < 0x100
    ensures (w as bv8) as bv32 == w
  {
  }

  lemma ReadBack(w: bv32)
    ensures ReadWord(WordBytes(w)) == w
  {
    hide Widened, Narrowed, Assembled;
    NarrowedBack(w & 0xFF);
    NarrowedBack((w >> 8) & 0xFF);
    NarrowedBack((w >> 16) & 0xFF);
    NarrowedBack((w >> 24) & 0xFF);
    Reassembled(w);
  }

  lemma WidenedBack(x: byte)
    ensures Widened(x) < 0x100 && Narrowed(Widened(x)) == x
  {
    var v := x as bv8;
    WidenedByte(v);
    NumberOfBits(x);
    assert v == BitsOf(x) && Narrowed(Widened(x)) == NumberOf(v);
  }

  lemma WidenedByte(v: bv8)
    ensures (v as bv32) < 0x100 && (v as bv32) as bv8 == v
  {
  }

  /** Reading and writing words are inverse, so different bytes are different words. */
  lemma WrittenBack(b: seq<byte>)
    requires |b| == 4
    ensures WordBytes(ReadWord(b)) == b
  {
    hide Widened, Narrowed, Assembled;
    WidenedBack(b[0]);
    WidenedBack(b[1]);
    WidenedBack(b[2]);
    WidenedBack(b[3]);
    Disassembled(Widened(b[0]), Widened(b[1]), Widened(b[2]), Widened(b[3]));
  }

  lemma Disassembled(a: bv32, b: bv32, c: bv32, d: bv32)
    requires a < 0x100 && b < 0x100 && c < 0x100 && d < 0x100
    ensures var w := Assembled(a, b, c, d);
      w & 0xFF == a && (w >> 8) & 0xFF == b && (w >> 16) & 0xFF == c && (w >> 24) & 0xFF == d
  {
  }

  lemma Reassembled(w: bv32)
    ensures Assembled(w & 0xFF, (w >> 8) & 0xFF, (w >> 16) & 0xFF, (w >> 24) & 0xFF) == w
  {
  }

  function FourSteps(x: bv32): bv32 {
    Steps(Steps(Steps(Steps(x))))
  }

  /** Four bytes taken in one by one are the word taken in at once. */
  lemma AbsorbWord(c: bv32, b: seq<byte>)
    requires |b| == 4
    ensures Register(c, b) == FourSteps(Xor(c, ReadWord(b)))
  {
    hide Steps, Widened, Xor, Assembled, Register;
    RegisterOfFour(c, b);
    AbsorbFour(c, Widened(b[0]), Widened(b[1]), Widened(b[2]), Widened(b[3]));
  }

  lemma AbsorbFour(c: bv32, w0: bv32, w1: bv32, w2: bv32, w3: bv32)
    requires w0 < 0x100 && w1 < 0x100 && w2 < 0x100 && w3 < 0x100
    ensures Steps(Xor(Steps(Xor(Steps(Xor(Steps(Xor(c, w0)), w1)), w2)), w3))
      == FourSteps(Xor(c, Assembled(w0, w1, w2, w3)))
  {
    hide Steps, Xor, Waiting;
    TailOfWord(w0, w1, w2, w3);
    var t2 := Waiting(w2, w3);
    var t1 := Waiting(w1, t2);
    var w := Waiting(w0, t1);
    var x := Xor(c, w);
    XorTwice(c, w);
    AbsorbTail(x, w0, t1);
    AbsorbTail(Steps(x), w1, t2);
    AbsorbTail(Steps(Steps(x)), w2, w3);
    AbsorbTail(Steps(Steps(Steps(x))), w3, 0);
    ZeroTail(w3, FourSteps(x));
  }

  lemma RegisterOfFour(c: bv32, b: seq<byte>)
    requires |b| == 4
    ensures Register(c, b) == Absorb(Absorb(Absorb(Absorb(c, b[0]), b[1]), b[2]), b[3])
  {
    hide Absorb;
    assert b[..3][..2] == b[..2] && b[..2][..1] == b[..1] && b[..1][..0] == [];
    assert Register(c, b[..1]) == Absorb(c, b[0]);
    assert Register(c, b[..2]) == Absorb(Register(c, b[..1]), b[1]);
    assert Register(c, b[..3]) == Absorb(Register(c, b[..2]), b[2]);
  }

  lemma XorTwice(c: bv32, w: bv32)
    ensures Xor(Xor(c, w), w) == c
  {
  }

  lemma TailOfWord(w0: bv32, w1: bv32, w2: bv32, w3: bv32)
    requires w0 < 0x100 && w1 < 0x100 && w2 < 0x100 && w3 < 0x100
    ensures Waiting(w2, w3) < 0x1_0000
    ensures Waiting(w1, Waiting(w2, w3)) < 0x100_0000
  {
    hide Waiting;
    WaitingRange(w2, w3, 0x100, 0x1_0000);
    WaitingRange(w1, Waiting(w2, w3), 0x1_0000, 0x100_0000);
  }

  lemma WaitingRange(w: bv32, t: bv32, m: bv32, n: bv32)
    requires w < 0x100 && t < m && ((m == 0x100 && n == 0x1_0000) || (m == 0x1_0000 && n == 0x100_0000))
    ensures Waiting(w, t) < n
  {
  }

  lemma ZeroTail(w: bv32, y: bv32)
    ensures Waiting(w, 0) == w && Xor(y, 0) == y
  {
  }

  /** The bytes still to come wait in front of the register while one is taken in. */
  lemma AbsorbTail(x: bv32, w: bv32, t: bv32)
    requires t < 0x100_0000
    ensures Steps(Xor(Xor(x, Waiting(w, t)), w)) == Xor(Steps(x), t)
  {
    hide Steps, Xor, Up;
    XorAssoc(x, w, Up(t));
    XorComm(x, w);
    XorAssoc(w, x, Up(t));
    XorComm(w, Xor(x, Up(t)));
    XorTwice(Xor(x, Up(t)), w);
    StepsLinear(x, Up(t));
    ShiftedIn(t);
  }

  lemma ShiftedIn(t: bv32)
    requires t < 0x100_0000
    ensures Steps(Up(t)) == t
  {
    hide Steps, Up;
    UpBits(t);
    StepsShift(Up(t));
  }

  lemma UpBits(t: bv32)
    requires t < 0x100_0000
    ensures Up(t) & 0xFF == 0 && Up(t) >> 8 == t
  {
  }

  // ---------------------------------------------------------------------------------------------
  // What the CRC detects

  /** A frame followed by its CRC leaves the residue, and no other word behind the frame does. */
  lemma ResidueExactly(b: seq<byte>, tail: seq<byte>)
    requires |tail| == 4
    ensures Crc(b + tail) == RESIDUE <==> ReadWord(tail) == Crc(b)
  {
    hide Steps, ReadWord, Invert, Xor, FourSteps, Register;
    var c, w := Register(PRESET, b), ReadWord(tail);
    RegisterConcat(PRESET, b, tail);
    AbsorbWord(c, tail);
    AllOnes();
    InvertIsXor(c, w);
    InvertInjective(FourSteps(Xor(c, w)), FourSteps(0xFFFF_FFFF));
    if FourSteps(Xor(c, w)) == FourSteps(0xFFFF_FFFF) {
      FourInjective(Xor(c, w), 0xFFFF_FFFF);
    }
  }

  lemma InvertIsXor(c: bv32, w: bv32)
    ensures Xor(c, w) == 0xFFFF_FFFF <==> w == Invert(c)
  {
    hide Xor, Invert;
    InvertParts(c);
    XorTwice(w, c);
    XorComm(w, c);
    XorComm(Xor(c, w), c);
    XorTwice(0xFFFF_FFFF, c);
    XorComm(0xFFFF_FFFF, c);
    XorComm(Xor(c, 0xFFFF_FFFF), c);
  }

  lemma InvertParts(c: bv32)
    ensures Invert(c) == Xor(c, 0xFFFF_FFFF)
  {
  }

  lemma InvertInjective(x: bv32, y: bv32)
    ensures Invert(x) == Invert(y) <==> x == y
  {
    hide Xor, Invert;
    InvertParts(x);
    InvertParts(y);
    XorTwice(x, 0xFFFF_FFFF);
    XorTwice(y, 0xFFFF_FFFF);
  }

  lemma AllOnes()
    ensures Invert(FourSteps(0xFFFF_FFFF)) == RESIDUE
  {
    assert Steps(0xFFFF_FFFF) == 0x2DFD_1072;
    assert Steps(0x2DFD_1072) == 0xBE26_ED00;
    assert Steps(0xBE26_ED00) == 0x00BE_26ED;
    assert Steps(0x00BE_26ED) == 0xDEBB_20E3;
  }

  lemma FourInjective(x: bv32, y: bv32)
    requires FourSteps(x) == FourSteps(y)
    ensures x == y
  {
    hide Steps;
    StepsInjective(Steps(Steps(Steps(x))), Steps(Steps(Steps(y))));
    StepsInjective(Steps(Steps(x)), Steps(Steps(y)));
    StepsInjective(Steps(x), Steps(y));
    StepsInjective(x, y);
  }

  /** Different registers stay different. */
  lemma {:induction false} RegisterInjective(c: bv32, d: bv32, b: seq<byte>)
    requires Register(c, b) == Register(d, b)
    ensures c == d
    decreases |b|
  {
    hide Steps, Widened, Xor;
    if b != [] {
      var r, s, w := Register(c, b[..|b| - 1]), Register(d, b[..|b| - 1]), Widened(b[|b| - 1]);
      StepsInjective(Xor(r, w), Xor(s, w));
      XorTwice(r, w);
      XorTwice(s, w);
      RegisterInjective(c, d, b[..|b| - 1]);
    }
  }

  /** Errors confined to four neighbouring bytes always change the CRC. */
  lemma BurstDetected(a: seq<byte>, b: seq<byte>, b': seq<byte>, c: seq<byte>)
    requires |b| == |b'| == 4 && b != b'
    ensures Crc(a + b + c) != Crc(a + b' + c)
  {
    hide Steps, ReadWord, WordBytes, Xor, FourSteps, Register, Invert;
    WrittenBack(b);
    WrittenBack(b');
    var r := Register(PRESET, a);
    RegisterConcat(PRESET, a + b, c);
    RegisterConcat(PRESET, a + b', c);
    RegisterConcat(PRESET, a, b);
    RegisterConcat(PRESET, a, b');
    InvertInjective(Register(PRESET, a + b + c), Register(PRESET, a + b' + c));
    if Crc(a + b + c) == Crc(a + b' + c) {
      RegisterInjective(Register(r, b), Register(r, b'), c);
      AbsorbWord(r, b);
      AbsorbWord(r, b');
      FourInjective(Xor(r, ReadWord(b)), Xor(r, ReadWord(b')));
      XorCancels(r, ReadWord(b), ReadWord(b'));
    }
  }

  /** What the register starts from is what makes leading zeros count: one more of them changes the CRC, as it
      would not if the register were clear. */
  lemma LeadingZeros(c: bv32, b: seq<byte>)
    ensures Register(c, [0] + b) == Register(c, b) <==> c == 0
    ensures Crc([0] + b) != Crc(b)
  {
    hide Steps, Invert, Register, Widened;
    LeadingZero(c, b);
    LeadingZero(PRESET, b);
    InvertInjective(Register(PRESET, [0] + b), Register(PRESET, b));
  }

  lemma LeadingZero(c: bv32, b: seq<byte>)
    ensures Register(c, [0] + b) == Register(c, b) <==> c == 0
  {
    hide Steps, Widened, Register, Xor;
    RegisterConcat(c, [0], b);
    RegisterOfOne(c, 0);
    if Register(c, [0] + b) == Register(c, b) {
      RegisterInjective(Register(c, [0]), c, b);
    }
    ZeroAbsorbed(c);
  }

  lemma RegisterOfOne(c: bv32, x: byte)
    ensures Register(c, [x]) == Absorb(c, x) && Register(c, []) == c
  {
    hide Absorb;
    assert [x][..0] == [];
  }

  /** Eight steps without data move any register that is not clear. */
  lemma ZeroAbsorbed(c: bv32)
    ensures Absorb(c, 0) == c <==> c == 0
  {
    assert Widened(0) == 0;
  }

  /** The check value of the CRC, that of the nine digits "123456789", and the CRC of nothing. */
  lemma CheckValue()
    ensures Crc([49, 50, 51, 52, 53, 54, 55, 56, 57]) == 0xCBF4_3926
    ensures Crc([]) == 0
  {
    hide Register, Absorb;
    RegisterOfOne(PRESET, 0);
    CheckSteps();
    RegisterStep([], 49, [49], 0x7C23_1048);
    RegisterStep([49], 50, [49, 50], 0xB0AC_BB32);
    RegisterStep([49, 50], 51, [49, 50, 51], 0x77B7_9C2D);
    RegisterStep([49, 50, 51], 52, [49, 50, 51, 52], 0x641C_1F5C);
    RegisterStep([49, 50, 51, 52], 53, [49, 50, 51, 52, 53], 0x340A_C5E3);
    RegisterStep([49, 50, 51, 52, 53], 54, [49, 50, 51, 52, 53, 54], 0xF68D_2C9E);
    RegisterStep([49, 50, 51, 52, 53, 54], 55, [49, 50, 51, 52, 53, 54, 55], 0xAFFC_9660);
    RegisterStep([49, 50, 51, 52, 53, 54, 55], 56, [49, 50, 51, 52, 53, 54, 55, 56], 0x651F_2550);
    RegisterStep([49, 50, 51, 52, 53, 54, 55, 56], 57, [49, 50, 51, 52, 53, 54, 55, 56, 57], 0x340B_C6D9);
  }

  lemma RegisterStep(b: seq<byte>, x: byte, b': seq<byte>, r: bv32)
    requires b' == b + [x] && Absorb(Register(PRESET, b), x) == r
    ensures Register(PRESET, b') == r
  {
    hide Absorb;
    assert (b + [x])[..|b|] == b;
  }

  lemma CheckSteps()
    ensures Absorb(0xFFFF_FFFF, 49) == 0x7C23_1048
    ensures Absorb(0x7C23_1048, 50) == 0xB0AC_BB32
    ensures Absorb(0xB0AC_BB32, 51) == 0x77B7_9C2D
    ensures Absorb(0x77B7_9C2D, 52) == 0x641C_1F5C
    ensures Absorb(0x641C_1F5C, 53) == 0x340A_C5E3
    ensures Absorb(0x340A_C5E3, 54) == 0xF68D_2C9E
    ensures Absorb(0xF68D_2C9E, 55) == 0xAFFC_9660
    ensures Absorb(0xAFFC_9660, 56) == 0x651F_2550
    ensures Absorb(0x651F_2550, 57) == 0x340B_C6D9
  {
  }

  lemma XorCancels(r: bv32, x: bv32, y: bv32)
    requires Xor(r, x) == Xor(r, y)
    ensures x == y
  {
    hide Xor;
    XorComm(r, x);
    XorComm(r, y);
    XorTwice(x, r);
    XorTwice(y, r);
  }
}
