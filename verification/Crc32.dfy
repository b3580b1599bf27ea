/** The installer's table-driven CRC-32 (limine/limine.c:115-171) against the bit-at-a-time definition
    of section 8 of RFC 1952. */
module Crc32 {
  import opened Bytes

  /** crc32_table, in sixteen rows of sixteen entries. */
  const CRC32_TABLE: seq<seq<bv32>> := [
    [
      0x00000000, 0x77073096, 0xEE0E612C, 0x990951BA, 0x076DC419, 0x706AF48F, 0xE963A535, 0x9E6495A3,
      0x0EDB8832, 0x79DCB8A4, 0xE0D5E91E, 0x97D2D988, 0x09B64C2B, 0x7EB17CBD, 0xE7B82D07, 0x90BF1D91
    ],
    [
      0x1DB71064, 0x6AB020F2, 0xF3B97148, 0x84BE41DE, 0x1ADAD47D, 0x6DDDE4EB, 0xF4D4B551, 0x83D385C7,
      0x136C9856, 0x646BA8C0, 0xFD62F97A, 0x8A65C9EC, 0x14015C4F, 0x63066CD9, 0xFA0F3D63, 0x8D080DF5
    ],
    [
      0x3B6E20C8, 0x4C69105E, 0xD56041E4, 0xA2677172, 0x3C03E4D1, 0x4B04D447, 0xD20D85FD, 0xA50AB56B,
      0x35B5A8FA, 0x42B2986C, 0xDBBBC9D6, 0xACBCF940, 0x32D86CE3, 0x45DF5C75, 0xDCD60DCF, 0xABD13D59
    ],
    [
      0x26D930AC, 0x51DE003A, 0xC8D75180, 0xBFD06116, 0x21B4F4B5, 0x56B3C423, 0xCFBA9599, 0xB8BDA50F,
      0x2802B89E, 0x5F058808, 0xC60CD9B2, 0xB10BE924, 0x2F6F7C87, 0x58684C11, 0xC1611DAB, 0xB6662D3D
    ],
    [
      0x76DC4190, 0x01DB7106, 0x98D220BC, 0xEFD5102A, 0x71B18589, 0x06B6B51F, 0x9FBFE4A5, 0xE8B8D433,
      0x7807C9A2, 0x0F00F934, 0x9609A88E, 0xE10E9818, 0x7F6A0DBB, 0x086D3D2D, 0x91646C97, 0xE6635C01
    ],
    [
      0x6B6B51F4, 0x1C6C6162, 0x856530D8, 0xF262004E, 0x6C0695ED, 0x1B01A57B, 0x8208F4C1, 0xF50FC457,
      0x65B0D9C6, 0x12B7E950, 0x8BBEB8EA, 0xFCB9887C, 0x62DD1DDF, 0x15DA2D49, 0x8CD37CF3, 0xFBD44C65
    ],
    [
      0x4DB26158, 0x3AB551CE, 0xA3BC0074, 0xD4BB30E2, 0x4ADFA541, 0x3DD895D7, 0xA4D1C46D, 0xD3D6F4FB,
      0x4369E96A, 0x346ED9FC, 0xAD678846, 0xDA60B8D0, 0x44042D73, 0x33031DE5, 0xAA0A4C5F, 0xDD0D7CC9
    ],
    [
      0x5005713C, 0x270241AA, 0xBE0B1010, 0xC90C2086, 0x5768B525, 0x206F85B3, 0xB966D409, 0xCE61E49F,
      0x5EDEF90E, 0x29D9C998, 0xB0D09822, 0xC7D7A8B4, 0x59B33D17, 0x2EB40D81, 0xB7BD5C3B, 0xC0BA6CAD
    ],
    [
      0xEDB88320, 0x9ABFB3B6, 0x03B6E20C, 0x74B1D29A, 0xEAD54739, 0x9DD277AF, 0x04DB2615, 0x73DC1683,
      0xE3630B12, 0x94643B84, 0x0D6D6A3E, 0x7A6A5AA8, 0xE40ECF0B, 0x9309FF9D, 0x0A00AE27, 0x7D079EB1
    ],
    [
      0xF00F9344, 0x8708A3D2, 0x1E01F268, 0x6906C2FE, 0xF762575D, 0x806567CB, 0x196C3671, 0x6E6B06E7,
      0xFED41B76, 0x89D32BE0, 0x10DA7A5A, 0x67DD4ACC, 0xF9B9DF6F, 0x8EBEEFF9, 0x17B7BE43, 0x60B08ED5
    ],
    [
      0xD6D6A3E8, 0xA1D1937E, 0x38D8C2C4, 0x4FDFF252, 0xD1BB67F1, 0xA6BC5767, 0x3FB506DD, 0x48B2364B,
      0xD80D2BDA, 0xAF0A1B4C, 0x36034AF6, 0x41047A60, 0xDF60EFC3, 0xA867DF55, 0x316E8EEF, 0x4669BE79
    ],
    [
      0xCB61B38C, 0xBC66831A, 0x256FD2A0, 0x5268E236, 0xCC0C7795, 0xBB0B4703, 0x220216B9, 0x5505262F,
      0xC5BA3BBE, 0xB2BD0B28, 0x2BB45A92, 0x5CB36A04, 0xC2D7FFA7, 0xB5D0CF31, 0x2CD99E8B, 0x5BDEAE1D
    ],
    [
      0x9B64C2B0, 0xEC63F226, 0x756AA39C, 0x026D930A, 0x9C0906A9, 0xEB0E363F, 0x72076785, 0x05005713,
      0x95BF4A82, 0xE2B87A14, 0x7BB12BAE, 0x0CB61B38, 0x92D28E9B, 0xE5D5BE0D, 0x7CDCEFB7, 0x0BDBDF21
    ],
    [
      0x86D3D2D4, 0xF1D4E242, 0x68DDB3F8, 0x1FDA836E, 0x81BE16CD, 0xF6B9265B, 0x6FB077E1, 0x18B74777,
      0x88085AE6, 0xFF0F6A70, 0x66063BCA, 0x11010B5C, 0x8F659EFF, 0xF862AE69, 0x616BFFD3, 0x166CCF45
    ],
    [
      0xA00AE278, 0xD70DD2EE, 0x4E048354, 0x3903B3C2, 0xA7672661, 0xD06016F7, 0x4969474D, 0x3E6E77DB,
      0xAED16A4A, 0xD9D65ADC, 0x40DF0B66, 0x37D83BF0, 0xA9BCAE53, 0xDEBB9EC5, 0x47B2CF7F, 0x30B5FFE9
    ],
    [
      0xBDBDF21C, 0xCABAC28A, 0x53B39330, 0x24B4A3A6, 0xBAD03605, 0xCDD70693, 0x54DE5729, 0x23D967BF,
      0xB3667A2E, 0xC4614AB8, 0x5D681B02, 0x2A6F2B94, 0xB40BBE37, 0xC30C8EA1, 0x5A05DF1B, 0x2D02EF8D
    ]
  ]

  function Entry(i: bv8): bv32 {
    CRC32_TABLE[(i >> 4) as int][(i & 0xF) as int]
  }

  // The exclusive or under a name, so that proofs that need only its algebra can hide its bits.
  function Xor(a: bv32, b: bv32): bv32 {
    a ^ b
  }

  /** One bit of the reflected division by the polynomial 0xEDB88320. */
  function BitStep(c: bv32): bv32 {
    if c & 1 == 1 then Xor(c >> 1, 0xEDB88320) else c >> 1
  }

  function ByteStep(c: bv32): bv32 {
    BitStep(BitStep(BitStep(BitStep(BitStep(BitStep(BitStep(BitStep(c))))))))
  }

  function Bits(c: bv32, stream: seq<Byte>): bv32
    decreases |stream|
  {
    if stream == [] then c else Bits(ByteStep(Xor(c, stream[0] as bv32)), stream[1..])
  }

  /** CRC-32 one bit at a time. */
  function Crc(stream: seq<Byte>): bv32 {
    Xor(Bits(0xFFFFFFFF, stream), 0xFFFFFFFF)
  }

  function Row(base: bv32): seq<bv32> {
    [
      ByteStep(base + 0), ByteStep(base + 1), ByteStep(base + 2), ByteStep(base + 3),
      ByteStep(base + 4), ByteStep(base + 5), ByteStep(base + 6), ByteStep(base + 7),
      ByteStep(base + 8), ByteStep(base + 9), ByteStep(base + 10), ByteStep(base + 11),
      ByteStep(base + 12), ByteStep(base + 13), ByteStep(base + 14), ByteStep(base + 15)
    ]
  }

  lemma Row0()
    ensures CRC32_TABLE[0] == Row(0x00)
  {
  }

  lemma Row1()
    ensures CRC32_TABLE[1] == Row(0x10)
  {
  }

  lemma Row2()
    ensures CRC32_TABLE[2] == Row(0x20)
  {
  }

  lemma Row3()
    ensures CRC32_TABLE[3] == Row(0x30)
  {
  }

  lemma Row4()
    ensures CRC32_TABLE[4] == Row(0x40)
  {
  }

  lemma Row5()
    ensures CRC32_TABLE[5] == Row(0x50)
  {
  }

  lemma Row6()
    ensures CRC32_TABLE[6] == Row(0x60)
  {
  }

  lemma Row7()
    ensures CRC32_TABLE[7] == Row(0x70)
  {
  }

  lemma Row8()
    ensures CRC32_TABLE[8] == Row(0x80)
  {
  }

  lemma Row9()
    ensures CRC32_TABLE[9] == Row(0x90)
  {
  }

  lemma Row10()
    ensures CRC32_TABLE[10] == Row(0xA0)
  {
  }

  lemma Row11()
    ensures CRC32_TABLE[11] == Row(0xB0)
  {
  }

  lemma Row12()
    ensures CRC32_TABLE[12] == Row(0xC0)
  {
  }

  lemma Row13()
    ensures CRC32_TABLE[13] == Row(0xD0)
  {
  }

  lemma Row14()
    ensures CRC32_TABLE[14] == Row(0xE0)
  {
  }

  lemma Row15()
    ensures CRC32_TABLE[15] == Row(0xF0)
  {
  }

  lemma RowEntry(i: bv8)
    ensures Row((i & 0xF0) as bv32)[(i & 0xF) as int] == ByteStep(i as bv32)
  {
    hide ByteStep;
    var base, column := (i & 0xF0) as bv32, i & 0xF;
    assert base + (column as bv32) == i as bv32;
    if column == 0 {
    } else if column == 1 {
    } else if column == 2 {
    } else if column == 3 {
    } else if column == 4 {
    } else if column == 5 {
    } else if column == 6 {
    } else if column == 7 {
    } else if column == 8 {
    } else if column == 9 {
    } else if column == 10 {
    } else if column == 11 {
    } else if column == 12 {
    } else if column == 13 {
    } else if column == 14 {
    } else if column == 15 {
    }
  }

  /** Each entry of the table is eight bit steps of its index. */
  lemma TableEntry(i: bv8)
    ensures Entry(i) == ByteStep(i as bv32)
  {
    hide ByteStep, Row;
    RowEntry(i);
    var row := i >> 4;
    assert i & 0xF0 == row << 4;
    if row == 0 {
      Row0();
    } else if row == 1 {
      Row1();
    } else if row == 2 {
      Row2();
    } else if row == 3 {
      Row3();
    } else if row == 4 {
      Row4();
    } else if row == 5 {
      Row5();
    } else if row == 6 {
      Row6();
    } else if row == 7 {
      Row7();
    } else if row == 8 {
      Row8();
    } else if row == 9 {
      Row9();
    } else if row == 10 {
      Row10();
    } else if row == 11 {
      Row11();
    } else if row == 12 {
      Row12();
    } else if row == 13 {
      Row13();
    } else if row == 14 {
      Row14();
    } else if row == 15 {
      Row15();
    }
  }

  lemma XorMoves(a: bv32, b: bv32, p: bv32)
    ensures (a ^ p) ^ b == (a ^ b) ^ p == a ^ (b ^ p)
    ensures (a ^ p) ^ (b ^ p) == a ^ b
  {
  }

  lemma XorOfParts(x: bv32, y: bv32)
    ensures (x ^ y) >> 1 == (x >> 1) ^ (y >> 1)
    ensures (x ^ y) & 1 == (x & 1) ^ (y & 1)
    ensures (x & 1 == 0 || x & 1 == 1) && (y & 1 == 0 || y & 1 == 1)
  {
  }

  lemma BitStepLinear(x: bv32, y: bv32)
    ensures BitStep(Xor(x, y)) == Xor(BitStep(x), BitStep(y))
  {
    XorOfParts(x, y);
    XorMoves(x >> 1, y >> 1, 0xEDB88320);
  }

  lemma ByteStepLinear(x: bv32, y: bv32)
    ensures ByteStep(Xor(x, y)) == Xor(ByteStep(x), ByteStep(y))
  {
    hide BitStep, Xor;
    var x1, y1 := BitStep(x), BitStep(y);
    var x2, y2 := BitStep(x1), BitStep(y1);
    var x3, y3 := BitStep(x2), BitStep(y2);
    var x4, y4 := BitStep(x3), BitStep(y3);
    var x5, y5 := BitStep(x4), BitStep(y4);
    var x6, y6 := BitStep(x5), BitStep(y5);
    var x7, y7 := BitStep(x6), BitStep(y6);
    BitStepLinear(x, y);
    BitStepLinear(x1, y1);
    BitStepLinear(x2, y2);
    BitStepLinear(x3, y3);
    BitStepLinear(x4, y4);
    BitStepLinear(x5, y5);
    BitStepLinear(x6, y6);
    BitStepLinear(x7, y7);
  }

  /** Eight steps on a value whose low byte is clear only shift. */
  lemma ByteStepShifts(x: bv32)
    requires x & 0xFF == 0
    ensures ByteStep(x) == x >> 8
  {
    hide Xor;
    assert BitStep(x) == x >> 1;
    assert BitStep(x >> 1) == x >> 2;
    assert BitStep(x >> 2) == x >> 3;
    assert BitStep(x >> 3) == x >> 4;
    assert BitStep(x >> 4) == x >> 5;
    assert BitStep(x >> 5) == x >> 6;
    assert BitStep(x >> 6) == x >> 7;
    assert BitStep(x >> 7) == x >> 8;
  }

  lemma Halves(c: bv32, b: bv32)
    requires b <= 0xFF
    ensures var x := Xor(c, b);
            && x == Xor(x & 0xFFFFFF00, x & 0xFF)
            && (x & 0xFFFFFF00) & 0xFF == 0 && (x & 0xFFFFFF00) >> 8 == c >> 8
            && x & 0xFF <= 0xFF
  {
  }

  lemma LowByte(x: bv32)
    requires x <= 0xFF
    ensures (x as bv8) as bv32 == x
  {
  }

  lemma LookupJoins(x: bv32, high: bv32, low: bv32, shifted: bv32)
    requires x == Xor(high, low) && high & 0xFF == 0 && high >> 8 == shifted && low <= 0xFF
    ensures Xor(shifted, Entry(low as bv8)) == ByteStep(x)
  {
    hide ByteStep, Entry, Xor;
    ByteStepLinear(high, low);
    ByteStepShifts(high);
    LowByte(low);
    TableEntry(low as bv8);
  }

  /** One table look-up advances the remainder by a whole byte. */
  lemma LookupIsByteStep(c: bv32, b: bv32)
    requires b <= 0xFF
    ensures Xor(c, b) & 0xFF <= 0xFF && Xor(c >> 8, Entry((Xor(c, b) & 0xFF) as bv8)) == ByteStep(Xor(c, b))
  {
    hide ByteStep, Entry, Xor;
    Halves(c, b);
    LookupJoins(Xor(c, b), Xor(c, b) & 0xFFFFFF00, Xor(c, b) & 0xFF, c >> 8);
  }

  lemma {:induction false} BitsEnd(c: bv32, stream: seq<Byte>, b: Byte)
    ensures Bits(c, stream + [b]) == ByteStep(Xor(Bits(c, stream), b as bv32))
    decreases |stream|
  {
    hide ByteStep, Xor;
    if stream == [] {
      assert [b][1..] == [];
      assert Bits(ByteStep(Xor(c, b as bv32)), []) == ByteStep(Xor(c, b as bv32));
    } else {
      assert (stream + [b])[1..] == stream[1..] + [b];
      BitsEnd(ByteStep(Xor(c, stream[0] as bv32)), stream[1..], b);
    }
  }

  lemma SmallByte(b: Byte)
    ensures (b as bv32) <= 0xFF
  {
  }

  /** crc32. */
  method TableCrc(stream: seq<Byte>) returns (ret: bv32)
    ensures ret == Crc(stream)
  {
    hide ByteStep, Entry, Xor;
    ret := 0xFFFFFFFF;
    for i := 0 to |stream|
      invariant ret == Bits(0xFFFFFFFF, stream[..i])
    {
      assert stream[..i + 1] == stream[..i] + [stream[i]];
      BitsEnd(0xFFFFFFFF, stream[..i], stream[i]);
      SmallByte(stream[i]);
      LookupIsByteStep(ret, stream[i] as bv32);
      ret := Xor(ret >> 8, Entry((Xor(ret, stream[i] as bv32) & 0xFF) as bv8));
    }
    assert stream[..|stream|] == stream;
    ret := Xor(ret, 0xFFFFFFFF);
  }
}
