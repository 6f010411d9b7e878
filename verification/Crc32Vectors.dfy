/**
  The published check value of this checksum, CBF43926 for the nine characters "123456789", as a
  value of module Crc32's specification.
 */
module Crc32Vectors {

  import opened Crc32

  lemma XorByteTo(s: bv32, x: bv8, t: bv32)
    requires t == s ^ (x as bv32)
    ensures Xor(s, ByteWord(x)) == t
  {
  }

  lemma ShiftTo(s: bv32, t: bv32)
    requires t == (s >> 1) ^ (0xEDB88320 & (0 - (s & 1)))
    ensures Shift(s) == t
  {
    ShiftIs(s);
    hide *;
    HalfIs(s);
    FeedbackIs(s);
    XorIs(s >> 1, 0xEDB88320 & (0 - (s & 1)));
  }

  lemma ShiftIs(s: bv32)
    ensures Shift(s) == Xor(Half(s), Feedback(s))
  {
    hide Xor, Half, Feedback;
  }

  lemma HalfIs(s: bv32)
    ensures Half(s) == s >> 1
  {
  }

  lemma FeedbackIs(s: bv32)
    ensures Feedback(s) == 0xEDB88320 & (0 - (s & 1))
  {
  }

  lemma XorIs(s: bv32, t: bv32)
    ensures Xor(s, t) == s ^ t
  {
  }

  lemma ShiftsMore(s: bv32, n: nat, t: bv32)
    requires n > 0 && Shift(s) == t
    ensures Shifts(s, n) == Shifts(t, n - 1)
  {
    hide Shift;
  }

  lemma NoShifts(s: bv32)
    ensures Shifts(s, 0) == s
  {
  }

  lemma Turn(s: bv32, n: nat, t: bv32)
    requires n > 0 && t == (s >> 1) ^ (0xEDB88320 & (0 - (s & 1)))
    ensures Shifts(s, n) == Shifts(t, n - 1)
  {
    hide *;
    ShiftTo(s, t);
    ShiftsMore(s, n, t);
  }

  lemma Character1()
    ensures Shifts(Xor(0xFFFFFFFF, ByteWord(0x31)), 8) == 0x7C231048
  {
    hide *;
    XorByteTo(0xFFFFFFFF, 0x31, 0xFFFFFFCE);
    Turn(0xFFFFFFCE, 8, 0x7FFFFFE7);
    Turn(0x7FFFFFE7, 7, 0xD2477CD3);
    Turn(0xD2477CD3, 6, 0x849B3D49);
    Turn(0x849B3D49, 5, 0xAFF51D84);
    Turn(0xAFF51D84, 4, 0x57FA8EC2);
    Turn(0x57FA8EC2, 3, 0x2BFD4761);
    Turn(0x2BFD4761, 2, 0xF8462090);
    Turn(0xF8462090, 1, 0x7C231048);
    NoShifts(0x7C231048);
  }

  lemma Character2()
    ensures Shifts(Xor(0x7C231048, ByteWord(0x32)), 8) == 0xB0ACBB32
  {
    hide *;
    XorByteTo(0x7C231048, 0x32, 0x7C23107A);
    Turn(0x7C23107A, 8, 0x3E11883D);
    Turn(0x3E11883D, 7, 0xF2B0473E);
    Turn(0xF2B0473E, 6, 0x7958239F);
    Turn(0x7958239F, 5, 0xD11492EF);
    Turn(0xD11492EF, 4, 0x8532CA57);
    Turn(0x8532CA57, 3, 0xAF21E60B);
    Turn(0xAF21E60B, 2, 0xBA287025);
    Turn(0xBA287025, 1, 0xB0ACBB32);
    NoShifts(0xB0ACBB32);
  }

  lemma Character3()
    ensures Shifts(Xor(0xB0ACBB32, ByteWord(0x33)), 8) == 0x77B79C2D
  {
    hide *;
    XorByteTo(0xB0ACBB32, 0x33, 0xB0ACBB01);
    Turn(0xB0ACBB01, 8, 0xB5EEDEA0);
    Turn(0xB5EEDEA0, 7, 0x5AF76F50);
    Turn(0x5AF76F50, 6, 0x2D7BB7A8);
    Turn(0x2D7BB7A8, 5, 0x16BDDBD4);
    Turn(0x16BDDBD4, 4, 0x0B5EEDEA);
    Turn(0x0B5EEDEA, 3, 0x05AF76F5);
    Turn(0x05AF76F5, 2, 0xEF6F385A);
    Turn(0xEF6F385A, 1, 0x77B79C2D);
    NoShifts(0x77B79C2D);
  }

  lemma Character4()
    ensures Shifts(Xor(0x77B79C2D, ByteWord(0x34)), 8) == 0x641C1F5C
  {
    hide *;
    XorByteTo(0x77B79C2D, 0x34, 0x77B79C19);
    Turn(0x77B79C19, 8, 0xD6634D2C);
    Turn(0xD6634D2C, 7, 0x6B31A696);
    Turn(0x6B31A696, 6, 0x3598D34B);
    Turn(0x3598D34B, 5, 0xF774EA85);
    Turn(0xF774EA85, 4, 0x9602F662);
    Turn(0x9602F662, 3, 0x4B017B31);
    Turn(0x4B017B31, 2, 0xC8383EB8);
    Turn(0xC8383EB8, 1, 0x641C1F5C);
    NoShifts(0x641C1F5C);
  }

  lemma Character5()
    ensures Shifts(Xor(0x641C1F5C, ByteWord(0x35)), 8) == 0x340AC5E3
  {
    hide *;
    XorByteTo(0x641C1F5C, 0x35, 0x641C1F69);
    Turn(0x641C1F69, 8, 0xDFB68C94);
    Turn(0xDFB68C94, 7, 0x6FDB464A);
    Turn(0x6FDB464A, 6, 0x37EDA325);
    Turn(0x37EDA325, 5, 0xF64E52B2);
    Turn(0xF64E52B2, 4, 0x7B272959);
    Turn(0x7B272959, 3, 0xD02B178C);
    Turn(0xD02B178C, 2, 0x68158BC6);
    Turn(0x68158BC6, 1, 0x340AC5E3);
    NoShifts(0x340AC5E3);
  }

  lemma Character6()
    ensures Shifts(Xor(0x340AC5E3, ByteWord(0x36)), 8) == 0xF68D2C9E
  {
    hide *;
    XorByteTo(0x340AC5E3, 0x36, 0x340AC5D5);
    Turn(0x340AC5D5, 8, 0xF7BDE1CA);
    Turn(0xF7BDE1CA, 7, 0x7BDEF0E5);
    Turn(0x7BDEF0E5, 6, 0xD057FB52);
    Turn(0xD057FB52, 5, 0x682BFDA9);
    Turn(0x682BFDA9, 4, 0xD9AD7DF4);
    Turn(0xD9AD7DF4, 3, 0x6CD6BEFA);
    Turn(0x6CD6BEFA, 2, 0x366B5F7D);
    Turn(0x366B5F7D, 1, 0xF68D2C9E);
    NoShifts(0xF68D2C9E);
  }

  lemma Character7()
    ensures Shifts(Xor(0xF68D2C9E, ByteWord(0x37)), 8) == 0xAFFC9660
  {
    hide *;
    XorByteTo(0xF68D2C9E, 0x37, 0xF68D2CA9);
    Turn(0xF68D2CA9, 8, 0x96FE1574);
    Turn(0x96FE1574, 7, 0x4B7F0ABA);
    Turn(0x4B7F0ABA, 6, 0x25BF855D);
    Turn(0x25BF855D, 5, 0xFF67418E);
    Turn(0xFF67418E, 4, 0x7FB3A0C7);
    Turn(0x7FB3A0C7, 3, 0xD2615343);
    Turn(0xD2615343, 2, 0x84882A81);
    Turn(0x84882A81, 1, 0xAFFC9660);
    NoShifts(0xAFFC9660);
  }

  lemma Character8()
    ensures Shifts(Xor(0xAFFC9660, ByteWord(0x38)), 8) == 0x651F2550
  {
    hide *;
    XorByteTo(0xAFFC9660, 0x38, 0xAFFC9658);
    Turn(0xAFFC9658, 8, 0x57FE4B2C);
    Turn(0x57FE4B2C, 7, 0x2BFF2596);
    Turn(0x2BFF2596, 6, 0x15FF92CB);
    Turn(0x15FF92CB, 5, 0xE7474A45);
    Turn(0xE7474A45, 4, 0x9E1B2602);
    Turn(0x9E1B2602, 3, 0x4F0D9301);
    Turn(0x4F0D9301, 2, 0xCA3E4AA0);
    Turn(0xCA3E4AA0, 1, 0x651F2550);
    NoShifts(0x651F2550);
  }

  lemma Character9()
    ensures Shifts(Xor(0x651F2550, ByteWord(0x39)), 8) == 0x340BC6D9
  {
    hide *;
    XorByteTo(0x651F2550, 0x39, 0x651F2569);
    Turn(0x651F2569, 8, 0xDF371194);
    Turn(0xDF371194, 7, 0x6F9B88CA);
    Turn(0x6F9B88CA, 6, 0x37CDC465);
    Turn(0x37CDC465, 5, 0xF65E6112);
    Turn(0xF65E6112, 4, 0x7B2F3089);
    Turn(0x7B2F3089, 3, 0xD02F1B64);
    Turn(0xD02F1B64, 2, 0x68178DB2);
    Turn(0x68178DB2, 1, 0x340BC6D9);
    NoShifts(0x340BC6D9);
  }

  /** The register after one more character. */
  lemma Extended(data: seq<bv8>, x: bv8, longer: seq<bv8>, s: bv32, t: bv32)
    requires longer == data + [x]
    requires Feed(ALL_ONES, Bits(data)) == s && Shifts(Xor(s, ByteWord(x)), 8) == t
    ensures Feed(ALL_ONES, Bits(longer)) == t
  {
    hide *;
    MessageExtended(data, x);
  }

  lemma Started()
    ensures Feed(ALL_ONES, Bits([])) == 0xFFFFFFFF
  {
  }

  lemma Characters()
    ensures Feed(ALL_ONES, Bits([0x31, 0x32, 0x33, 0x34, 0x35, 0x36, 0x37, 0x38, 0x39])) == 0x340BC6D9
  {
    Started();
    hide *;
    Character1();
    Extended([], 0x31, [0x31], 0xFFFFFFFF, 0x7C231048);
    Character2();
    Extended([0x31], 0x32, [0x31, 0x32], 0x7C231048, 0xB0ACBB32);
    Character3();
    Extended([0x31, 0x32], 0x33, [0x31, 0x32, 0x33], 0xB0ACBB32, 0x77B79C2D);
    Character4();
    Extended([0x31, 0x32, 0x33], 0x34, [0x31, 0x32, 0x33, 0x34], 0x77B79C2D, 0x641C1F5C);
    Character5();
    Extended([0x31, 0x32, 0x33, 0x34], 0x35, [0x31, 0x32, 0x33, 0x34, 0x35], 0x641C1F5C, 0x340AC5E3);
    Character6();
    Extended([0x31, 0x32, 0x33, 0x34, 0x35], 0x36, [0x31, 0x32, 0x33, 0x34, 0x35, 0x36], 0x340AC5E3, 0xF68D2C9E);
    Character7();
    Extended([0x31, 0x32, 0x33, 0x34, 0x35, 0x36], 0x37, [0x31, 0x32, 0x33, 0x34, 0x35, 0x36, 0x37], 0xF68D2C9E, 0xAFFC9660);
    Character8();
    Extended([0x31, 0x32, 0x33, 0x34, 0x35, 0x36, 0x37], 0x38, [0x31, 0x32, 0x33, 0x34, 0x35, 0x36, 0x37, 0x38], 0xAFFC9660, 0x651F2550);
    Character9();
    Extended([0x31, 0x32, 0x33, 0x34, 0x35, 0x36, 0x37, 0x38], 0x39, [0x31, 0x32, 0x33, 0x34, 0x35, 0x36, 0x37, 0x38, 0x39], 0x651F2550, 0x340BC6D9);
  }

  lemma CheckValue()
    ensures Checksum([0x31, 0x32, 0x33, 0x34, 0x35, 0x36, 0x37, 0x38, 0x39]) == 0xCBF43926
  {
    Characters();
    hide Feed, Bits;
  }
}
