/**
 * The table-driven CRC of `ne_crc` and the bit-by-bit CRC-32 it stands for
 * (section 8 of RFC 1952): reflected polynomial 0xEDB88320, all ones in, complemented out.
 */
module Crc {
  // ----- The bit-by-bit definition -----

  const POLY: bv32 := 0xEDB88320

  /** One bit: shift right, and add the polynomial when a one falls out. */
  function Bit(c: bv32): bv32 {
    if c & 1 == 1 then (c >> 1) ^ POLY else c >> 1
  }

  function Bits(n: nat, c: bv32): bv32 {
    if n == 0 then c else Bits(n - 1, Bit(c))
  }

  function AddByte(crc: bv32, d: bv8): bv32 {
    Bits(8, crc ^ (d as bv32))
  }

  function AddBytes(crc: bv32, data: seq<bv8>): bv32 {
    if data == [] then crc
    else AddByte(AddBytes(crc, data[..|data| - 1]), data[|data| - 1])
  }

  function Crc32(data: seq<bv8>): bv32 {
    !AddBytes(0xFFFF_FFFF, data)
  }

  // ----- The table -----

  /** The 256 words of `CRCTable`, sixteen to a row. */
  const TABLE: seq<seq<bv32>> := [
    [0x00000000, 0x77073096, 0xEE0E612C, 0x990951BA, 0x076DC419, 0x706AF48F, 0xE963A535, 0x9E6495A3,
     0x0EDB8832, 0x79DCB8A4, 0xE0D5E91E, 0x97D2D988, 0x09B64C2B, 0x7EB17CBD, 0xE7B82D07, 0x90BF1D91],
    [0x1DB71064, 0x6AB020F2, 0xF3B97148, 0x84BE41DE, 0x1ADAD47D, 0x6DDDE4EB, 0xF4D4B551, 0x83D385C7,
     0x136C9856, 0x646BA8C0, 0xFD62F97A, 0x8A65C9EC, 0x14015C4F, 0x63066CD9, 0xFA0F3D63, 0x8D080DF5],
    [0x3B6E20C8, 0x4C69105E, 0xD56041E4, 0xA2677172, 0x3C03E4D1, 0x4B04D447, 0xD20D85FD, 0xA50AB56B,
     0x35B5A8FA, 0x42B2986C, 0xDBBBC9D6, 0xACBCF940, 0x32D86CE3, 0x45DF5C75, 0xDCD60DCF, 0xABD13D59],
    [0x26D930AC, 0x51DE003A, 0xC8D75180, 0xBFD06116, 0x21B4F4B5, 0x56B3C423, 0xCFBA9599, 0xB8BDA50F,
     0x2802B89E, 0x5F058808, 0xC60CD9B2, 0xB10BE924, 0x2F6F7C87, 0x58684C11, 0xC1611DAB, 0xB6662D3D],
    [0x76DC4190, 0x01DB7106, 0x98D220BC, 0xEFD5102A, 0x71B18589, 0x06B6B51F, 0x9FBFE4A5, 0xE8B8D433,
     0x7807C9A2, 0x0F00F934, 0x9609A88E, 0xE10E9818, 0x7F6A0DBB, 0x086D3D2D, 0x91646C97, 0xE6635C01],
    [0x6B6B51F4, 0x1C6C6162, 0x856530D8, 0xF262004E, 0x6C0695ED, 0x1B01A57B, 0x8208F4C1, 0xF50FC457,
     0x65B0D9C6, 0x12B7E950, 0x8BBEB8EA, 0xFCB9887C, 0x62DD1DDF, 0x15DA2D49, 0x8CD37CF3, 0xFBD44C65],
    [0x4DB26158, 0x3AB551CE, 0xA3BC0074, 0xD4BB30E2, 0x4ADFA541, 0x3DD895D7, 0xA4D1C46D, 0xD3D6F4FB,
     0x4369E96A, 0x346ED9FC, 0xAD678846, 0xDA60B8D0, 0x44042D73, 0x33031DE5, 0xAA0A4C5F, 0xDD0D7CC9],
    [0x5005713C, 0x270241AA, 0xBE0B1010, 0xC90C2086, 0x5768B525, 0x206F85B3, 0xB966D409, 0xCE61E49F,
     0x5EDEF90E, 0x29D9C998, 0xB0D09822, 0xC7D7A8B4, 0x59B33D17, 0x2EB40D81, 0xB7BD5C3B, 0xC0BA6CAD],
    [0xEDB88320, 0x9ABFB3B6, 0x03B6E20C, 0x74B1D29A, 0xEAD54739, 0x9DD277AF, 0x04DB2615, 0x73DC1683,
     0xE3630B12, 0x94643B84, 0x0D6D6A3E, 0x7A6A5AA8, 0xE40ECF0B, 0x9309FF9D, 0x0A00AE27, 0x7D079EB1],
    [0xF00F9344, 0x8708A3D2, 0x1E01F268, 0x6906C2FE, 0xF762575D, 0x806567CB, 0x196C3671, 0x6E6B06E7,
     0xFED41B76, 0x89D32BE0, 0x10DA7A5A, 0x67DD4ACC, 0xF9B9DF6F, 0x8EBEEFF9, 0x17B7BE43, 0x60B08ED5],
    [0xD6D6A3E8, 0xA1D1937E, 0x38D8C2C4, 0x4FDFF252, 0xD1BB67F1, 0xA6BC5767, 0x3FB506DD, 0x48B2364B,
     0xD80D2BDA, 0xAF0A1B4C, 0x36034AF6, 0x41047A60, 0xDF60EFC3, 0xA867DF55, 0x316E8EEF, 0x4669BE79],
    [0xCB61B38C, 0xBC66831A, 0x256FD2A0, 0x5268E236, 0xCC0C7795, 0xBB0B4703, 0x220216B9, 0x5505262F,
     0xC5BA3BBE, 0xB2BD0B28, 0x2BB45A92, 0x5CB36A04, 0xC2D7FFA7, 0xB5D0CF31, 0x2CD99E8B, 0x5BDEAE1D],
    [0x9B64C2B0, 0xEC63F226, 0x756AA39C, 0x026D930A, 0x9C0906A9, 0xEB0E363F, 0x72076785, 0x05005713,
     0x95BF4A82, 0xE2B87A14, 0x7BB12BAE, 0x0CB61B38, 0x92D28E9B, 0xE5D5BE0D, 0x7CDCEFB7, 0x0BDBDF21],
    [0x86D3D2D4, 0xF1D4E242, 0x68DDB3F8, 0x1FDA836E, 0x81BE16CD, 0xF6B9265B, 0x6FB077E1, 0x18B74777,
     0x88085AE6, 0xFF0F6A70, 0x66063BCA, 0x11010B5C, 0x8F659EFF, 0xF862AE69, 0x616BFFD3, 0x166CCF45],
    [0xA00AE278, 0xD70DD2EE, 0x4E048354, 0x3903B3C2, 0xA7672661, 0xD06016F7, 0x4969474D, 0x3E6E77DB,
     0xAED16A4A, 0xD9D65ADC, 0x40DF0B66, 0x37D83BF0, 0xA9BCAE53, 0xDEBB9EC5, 0x47B2CF7F, 0x30B5FFE9],
    [0xBDBDF21C, 0xCABAC28A, 0x53B39330, 0x24B4A3A6, 0xBAD03605, 0xCDD70693, 0x54DE5729, 0x23D967BF,
     0xB3667A2E, 0xC4614AB8, 0x5D681B02, 0x2A6F2B94, 0xB40BBE37, 0xC30C8EA1, 0x5A05DF1B, 0x2D02EF8D]
  ]

  function Word(r: int, j: int): bv32
    requires 0 <= r < 16 && 0 <= j < 16
  {
    TABLE[r][j]
  }

  function Entry(i: bv32): bv32
    requires i < 256
  {
    Nibbles(i);
    Word((i >> 4) as int, (i & 0xF) as int)
  }

  lemma Nibbles(i: bv32)
    requires i < 256
    ensures 0 <= (i >> 4) as int < 16 && 0 <= (i & 0xF) as int < 16
    ensures i >> 4 < 16 && i & 0xF < 16 && i == Xor((i >> 4) << 4, i & 0xF)
  {}

  function Xor(a: bv32, b: bv32): bv32 {
    a ^ b
  }

  // ----- Taking a bit is linear -----

  lemma ShiftXor(a: bv32, b: bv32)
    ensures (a ^ b) >> 1 == (a >> 1) ^ (b >> 1)
  {}

  lemma LowXor(a: bv32, b: bv32)
    ensures (a ^ b) & 1 == (a & 1) ^ (b & 1)
  {}

  lemma LowBit(a: bv32)
    ensures a & 1 == 0 || a & 1 == 1
  {}

  lemma XorMoves(a: bv32, b: bv32, p: bv32)
    ensures (a ^ p) ^ b == (a ^ b) ^ p && a ^ (b ^ p) == (a ^ b) ^ p && (a ^ p) ^ (b ^ p) == a ^ b
  {}

  lemma BitLinear(a: bv32, b: bv32)
    ensures Bit(a ^ b) == Bit(a) ^ Bit(b)
  {
    ShiftXor(a, b);
    LowXor(a, b);
    LowBit(a);
    LowBit(b);
    XorMoves(a >> 1, b >> 1, POLY);
    if a & 1 == 1 {
      assert Bit(a) == (a >> 1) ^ POLY;
      if b & 1 == 1 {
        assert (a ^ b) & 1 == 0;
      } else {
        assert (a ^ b) & 1 == 1;
      }
    }
  }

  lemma BitXor(a: bv32, b: bv32)
    ensures Bit(Xor(a, b)) == Xor(Bit(a), Bit(b))
  {
    hide Bit;
    BitLinear(a, b);
  }

  lemma BitsStep(n: nat, c: bv32)
    ensures Bits(0, c) == c && Bits(n + 1, c) == Bits(n, Bit(c))
  {}

  lemma {:induction false} BitsLinear(n: nat, a: bv32, b: bv32)
    ensures Bits(n, Xor(a, b)) == Xor(Bits(n, a), Bits(n, b))
  {
    hide Bit, Bits, Xor;
    if n == 0 {
      BitsStep(0, a);
      BitsStep(0, b);
      BitsStep(0, Xor(a, b));
    } else {
      BitXor(a, b);
      BitsLinear(n - 1, Bit(a), Bit(b));
      BitsStep(n - 1, a);
      BitsStep(n - 1, b);
      BitsStep(n - 1, Xor(a, b));
    }
  }

  // ----- The table holds what eight bits do to each byte -----

  lemma Power0()
    ensures Bits(8, 1) == 0x77073096
  {}

  lemma Power1()
    ensures Bits(8, 2) == 0xEE0E612C
  {}

  lemma Power2()
    ensures Bits(8, 4) == 0x076DC419
  {}

  lemma Power3()
    ensures Bits(8, 8) == 0x0EDB8832
  {}

  lemma Power4()
    ensures Bits(8, 16) == 0x1DB71064
  {}

  lemma Power5()
    ensures Bits(8, 32) == 0x3B6E20C8
  {}

  lemma Power6()
    ensures Bits(8, 64) == 0x76DC4190
  {}

  lemma Power7()
    ensures Bits(8, 128) == 0xEDB88320
  {}

  lemma LowNibble(j: bv32)
    requires j < 16
    ensures Bits(8, j) == Word(0, j as int)
  {
    hide Bits;
    Power0();
    Power1();
    Power2();
    Power3();
    BitsLinear(8, 0, 0);
    assert 0 ^ 0 == 0 as bv32;
    if j == 0 {
    } else if j == 1 {
    } else if j == 2 {
    } else if j == 3 {
      BitsLinear(8, 0x1, 0x2);
    } else if j == 4 {
    } else if j == 5 {
      BitsLinear(8, 0x1, 0x4);
    } else if j == 6 {
      BitsLinear(8, 0x2, 0x4);
    } else if j == 7 {
      BitsLinear(8, 0x1, 0x2);
      BitsLinear(8, 0x3, 0x4);
    } else if j == 8 {
    } else if j == 9 {
      BitsLinear(8, 0x1, 0x8);
    } else if j == 10 {
      BitsLinear(8, 0x2, 0x8);
    } else if j == 11 {
      BitsLinear(8, 0x1, 0x2);
      BitsLinear(8, 0x3, 0x8);
    } else if j == 12 {
      BitsLinear(8, 0x4, 0x8);
    } else if j == 13 {
      BitsLinear(8, 0x1, 0x4);
      BitsLinear(8, 0x5, 0x8);
    } else if j == 14 {
      BitsLinear(8, 0x2, 0x4);
      BitsLinear(8, 0x6, 0x8);
    } else {
      BitsLinear(8, 0x1, 0x2);
      BitsLinear(8, 0x3, 0x4);
      BitsLinear(8, 0x7, 0x8);
    }
  }

  lemma HighNibble(j: bv32)
    requires j < 16
    ensures Bits(8, j << 4) == Word(j as int, 0)
  {
    hide Bits;
    Power4();
    Power5();
    Power6();
    Power7();
    BitsLinear(8, 0, 0);
    assert 0 ^ 0 == 0 as bv32;
    if j == 0 {
    } else if j == 1 {
    } else if j == 2 {
    } else if j == 3 {
      BitsLinear(8, 0x10, 0x20);
    } else if j == 4 {
    } else if j == 5 {
      BitsLinear(8, 0x10, 0x40);
    } else if j == 6 {
      BitsLinear(8, 0x20, 0x40);
    } else if j == 7 {
      BitsLinear(8, 0x10, 0x20);
      BitsLinear(8, 0x30, 0x40);
    } else if j == 8 {
    } else if j == 9 {
      BitsLinear(8, 0x10, 0x80);
    } else if j == 10 {
      BitsLinear(8, 0x20, 0x80);
    } else if j == 11 {
      BitsLinear(8, 0x10, 0x20);
      BitsLinear(8, 0x30, 0x80);
    } else if j == 12 {
      BitsLinear(8, 0x40, 0x80);
    } else if j == 13 {
      BitsLinear(8, 0x10, 0x40);
      BitsLinear(8, 0x50, 0x80);
    } else if j == 14 {
      BitsLinear(8, 0x20, 0x40);
      BitsLinear(8, 0x60, 0x80);
    } else {
      BitsLinear(8, 0x10, 0x20);
      BitsLinear(8, 0x30, 0x40);
      BitsLinear(8, 0x70, 0x80);
    }
  }

  lemma Row0(j: int)
    requires 0 <= j < 16
    ensures Word(0, j) == Xor(Word(0, 0), Word(0, j))
  {}

  lemma Row1(j: int)
    requires 0 <= j < 16
    ensures Word(1, j) == Xor(Word(1, 0), Word(0, j))
  {}

  lemma Row2(j: int)
    requires 0 <= j < 16
    ensures Word(2, j) == Xor(Word(2, 0), Word(0, j))
  {}

  lemma Row3(j: int)
    requires 0 <= j < 16
    ensures Word(3, j) == Xor(Word(3, 0), Word(0, j))
  {}

  lemma Row4(j: int)
    requires 0 <= j < 16
    ensures Word(4, j) == Xor(Word(4, 0), Word(0, j))
  {}

  lemma Row5(j: int)
    requires 0 <= j < 16
    ensures Word(5, j) == Xor(Word(5, 0), Word(0, j))
  {}

  lemma Row6(j: int)
    requires 0 <= j < 16
    ensures Word(6, j) == Xor(Word(6, 0), Word(0, j))
  {}

  lemma Row7(j: int)
    requires 0 <= j < 16
    ensures Word(7, j) == Xor(Word(7, 0), Word(0, j))
  {}

  lemma Row8(j: int)
    requires 0 <= j < 16
    ensures Word(8, j) == Xor(Word(8, 0), Word(0, j))
  {}

  lemma Row9(j: int)
    requires 0 <= j < 16
    ensures Word(9, j) == Xor(Word(9, 0), Word(0, j))
  {}

  lemma Row10(j: int)
    requires 0 <= j < 16
    ensures Word(10, j) == Xor(Word(10, 0), Word(0, j))
  {}

  lemma Row11(j: int)
    requires 0 <= j < 16
    ensures Word(11, j) == Xor(Word(11, 0), Word(0, j))
  {}

  lemma Row12(j: int)
    requires 0 <= j < 16
    ensures Word(12, j) == Xor(Word(12, 0), Word(0, j))
  {}

  lemma Row13(j: int)
    requires 0 <= j < 16
    ensures Word(13, j) == Xor(Word(13, 0), Word(0, j))
  {}

  lemma Row14(j: int)
    requires 0 <= j < 16
    ensures Word(14, j) == Xor(Word(14, 0), Word(0, j))
  {}

  lemma Row15(j: int)
    requires 0 <= j < 16
    ensures Word(15, j) == Xor(Word(15, 0), Word(0, j))
  {}

  /** Within a row, each word is the head of its row plus the word of the first row. */
  lemma RowIsSum(r: int, j: int)
    requires 0 <= r < 16 && 0 <= j < 16
    ensures Word(r, j) == Xor(Word(r, 0), Word(0, j))
  {
    match r {
      case 0 => Row0(j);
      case 1 => Row1(j);
      case 2 => Row2(j);
      case 3 => Row3(j);
      case 4 => Row4(j);
      case 5 => Row5(j);
      case 6 => Row6(j);
      case 7 => Row7(j);
      case 8 => Row8(j);
      case 9 => Row9(j);
      case 10 => Row10(j);
      case 11 => Row11(j);
      case 12 => Row12(j);
      case 13 => Row13(j);
      case 14 => Row14(j);
      case 15 => Row15(j);
    }
  }

  /** The table entry of a byte is that byte taken through eight bits. */
  lemma EntryIsBits(i: bv32)
    requires i < 256
    ensures Entry(i) == Bits(8, i)
  {
    hide Bits, Word, Xor;
    Nibbles(i);
    HighNibble(i >> 4);
    LowNibble(i & 0xF);
    RowIsSum((i >> 4) as int, (i & 0xF) as int);
    BitsLinear(8, (i >> 4) << 4, i & 0xF);
  }

  // ----- A byte at a time -----

  lemma Down8(d: bv32)
    requires d < 0x100_0000
    ensures Bit(d << 8) == d << 7
  {}

  lemma Down7(d: bv32)
    requires d < 0x100_0000
    ensures Bit(d << 7) == d << 6
  {}

  lemma Down6(d: bv32)
    requires d < 0x100_0000
    ensures Bit(d << 6) == d << 5
  {}

  lemma Down5(d: bv32)
    requires d < 0x100_0000
    ensures Bit(d << 5) == d << 4
  {}

  lemma Down4(d: bv32)
    requires d < 0x100_0000
    ensures Bit(d << 4) == d << 3
  {}

  lemma Down3(d: bv32)
    requires d < 0x100_0000
    ensures Bit(d << 3) == d << 2
  {}

  lemma Down2(d: bv32)
    requires d < 0x100_0000
    ensures Bit(d << 2) == d << 1
  {}

  lemma Down1(d: bv32)
    requires d < 0x100_0000
    ensures Bit(d << 1) == d
  {}

  lemma Fall8(e0: bv32, e1: bv32, e2: bv32, e3: bv32, e4: bv32, e5: bv32, e6: bv32, e7: bv32, e8: bv32)
    requires Bit(e8) == e7 && Bit(e7) == e6 && Bit(e6) == e5 && Bit(e5) == e4
    requires Bit(e4) == e3 && Bit(e3) == e2 && Bit(e2) == e1 && Bit(e1) == e0
    ensures Bits(8, e8) == e0
  {
    hide Bit;
    assert Bits(1, e1) == e0 && Bits(2, e2) == e0 && Bits(3, e3) == e0 && Bits(4, e4) == e0;
    assert Bits(5, e5) == e0 && Bits(6, e6) == e0 && Bits(7, e7) == e0;
  }

  /** Zeros below fall out without a trace. */
  lemma ZerosFallOut(d: bv32)
    requires d < 0x100_0000
    ensures Bits(8, d << 8) == d
  {
    hide Bit, Bits;
    Down8(d);
    Down7(d);
    Down6(d);
    Down5(d);
    Down4(d);
    Down3(d);
    Down2(d);
    Down1(d);
    Fall8(d, d << 1, d << 2, d << 3, d << 4, d << 5, d << 6, d << 7, d << 8);
  }

  function High(c: bv32): bv32 {
    c >> 8
  }

  function Low(c: bv32): bv32 {
    c & 0xFF
  }

  lemma SplitWord(c: bv32)
    ensures c == Xor(High(c) << 8, Low(c)) && High(c) < 0x100_0000 && Low(c) < 256
  {}

  lemma ByteStep(c: bv32)
    ensures Low(c) < 256 && Bits(8, c) == Xor(High(c), Entry(Low(c)))
  {
    hide Bits, Entry, High, Low, Xor;
    SplitWord(c);
    ZerosFallOut(High(c));
    EntryIsBits(Low(c));
    BitsLinear(8, High(c) << 8, Low(c));
  }

  /** What the loop of `ne_crc` does to its accumulator. */
  function TableStep(crc: bv32, d: bv8): bv32 {
    LowIsByte(crc ^ (d as bv32));
    ((crc >> 8) & 0xFF_FFFF) ^ Entry((crc ^ (d as bv32)) & 0xFF)
  }

  lemma LowIsByte(c: bv32)
    ensures c & 0xFF < 256
  {}

  lemma DataStaysLow(crc: bv32, d: bv8)
    ensures High(crc ^ (d as bv32)) == (crc >> 8) & 0xFF_FFFF
  {}

  lemma TableStepIsBits(crc: bv32, d: bv8)
    ensures TableStep(crc, d) == AddByte(crc, d)
  {
    hide Bits, Entry;
    ByteStep(crc ^ (d as bv32));
    DataStaysLow(crc, d);
  }

  /** `ne_crc`: the table loop computes the bit-by-bit CRC. */
  method NeCrc(data: seq<bv8>) returns (crc: bv32)
    ensures crc == Crc32(data)
  {
    hide AddByte, TableStep;
    crc := 0xFFFF_FFFF;
    for i := 0 to |data|
      invariant crc == AddBytes(0xFFFF_FFFF, data[..i])
    {
      TableStepIsBits(crc, data[i]);
      assert data[..i + 1][..i] == data[..i];
      crc := TableStep(crc, data[i]);
    }
    assert data[..|data|] == data;
    crc := !crc;
  }

  /** The CRC of no bytes is 0, and that of the letter a is 0xE8B7BE43. */
  lemma KnownValues()
    ensures Crc32([]) == 0 && Crc32([0x61]) == 0xE8B7_BE43
  {
    var crc: bv32 := 0xFFFF_FFFF;
    TableStepIsBits(crc, 0x61);
    assert [0x61 as bv8][..0] == [];
    assert AddBytes(crc, [0x61]) == AddByte(crc, 0x61);
    hide AddByte;
    assert (crc ^ 0x61) & 0xFF == 0x9E;
    assert TableStep(crc, 0x61) == 0x00FF_FFFF ^ Entry(0x9E);
    assert Entry(0x9E) == 0x17B7_BE43;
  }
}
