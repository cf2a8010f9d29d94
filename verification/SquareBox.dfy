/** The literal substitution box of Square, and that it is a permutation of the bytes. */
module SquareBox {
  import opened Bits
  import opened EquivalentInverse

  // the box, sixteen bytes a row
  const LINE_0: seq<byte> :=
    [0xB1, 0xCE, 0xC3, 0x95, 0x5A, 0xAD, 0xE7, 0x02, 0x4D, 0x44, 0xFB, 0x91, 0x0C, 0x87, 0xA1, 0x50]
  const LINE_1: seq<byte> :=
    [0xCB, 0x67, 0x54, 0xDD, 0x46, 0x8F, 0xE1, 0x4E, 0xF0, 0xFD, 0xFC, 0xEB, 0xF9, 0xC4, 0x1A, 0x6E]
  const LINE_2: seq<byte> :=
    [0x5E, 0xF5, 0xCC, 0x8D, 0x1C, 0x56, 0x43, 0xFE, 0x07, 0x61, 0xF8, 0x75, 0x59, 0xFF, 0x03, 0x22]
  const LINE_3: seq<byte> :=
    [0x8A, 0xD1, 0x13, 0xEE, 0x88, 0x00, 0x0E, 0x34, 0x15, 0x80, 0x94, 0xE3, 0xED, 0xB5, 0x53, 0x23]
  const LINE_4: seq<byte> :=
    [0x4B, 0x47, 0x17, 0xA7, 0x90, 0x35, 0xAB, 0xD8, 0xB8, 0xDF, 0x4F, 0x57, 0x9A, 0x92, 0xDB, 0x1B]
  const LINE_5: seq<byte> :=
    [0x3C, 0xC8, 0x99, 0x04, 0x8E, 0xE0, 0xD7, 0x7D, 0x85, 0xBB, 0x40, 0x2C, 0x3A, 0x45, 0xF1, 0x42]
  const LINE_6: seq<byte> :=
    [0x65, 0x20, 0x41, 0x18, 0x72, 0x25, 0x93, 0x70, 0x36, 0x05, 0xF2, 0x0B, 0xA3, 0x79, 0xEC, 0x08]
  const LINE_7: seq<byte> :=
    [0x27, 0x31, 0x32, 0xB6, 0x7C, 0xB0, 0x0A, 0x73, 0x5B, 0x7B, 0xB7, 0x81, 0xD2, 0x0D, 0x6A, 0x26]
  const LINE_8: seq<byte> :=
    [0x9E, 0x58, 0x9C, 0x83, 0x74, 0xB3, 0xAC, 0x30, 0x7A, 0x69, 0x77, 0x0F, 0xAE, 0x21, 0xDE, 0xD0]
  const LINE_9: seq<byte> :=
    [0x2E, 0x97, 0x10, 0xA4, 0x98, 0xA8, 0xD4, 0x68, 0x2D, 0x62, 0x29, 0x6D, 0x16, 0x49, 0x76, 0xC7]
  const LINE_10: seq<byte> :=
    [0xE8, 0xC1, 0x96, 0x37, 0xE5, 0xCA, 0xF4, 0xE9, 0x63, 0x12, 0xC2, 0xA6, 0x14, 0xBC, 0xD3, 0x28]
  const LINE_11: seq<byte> :=
    [0xAF, 0x2F, 0xE6, 0x24, 0x52, 0xC6, 0xA0, 0x09, 0xBD, 0x8C, 0xCF, 0x5D, 0x11, 0x5F, 0x01, 0xC5]
  const LINE_12: seq<byte> :=
    [0x9F, 0x3D, 0xA2, 0x9B, 0xC9, 0x3B, 0xBE, 0x51, 0x19, 0x1F, 0x3F, 0x5C, 0xB2, 0xEF, 0x4A, 0xCD]
  const LINE_13: seq<byte> :=
    [0xBF, 0xBA, 0x6F, 0x64, 0xD9, 0xF3, 0x3E, 0xB4, 0xAA, 0xDC, 0xD5, 0x06, 0xC0, 0x7E, 0xF6, 0x66]
  const LINE_14: seq<byte> :=
    [0x6C, 0x84, 0x71, 0x38, 0xB9, 0x1D, 0x7F, 0x9D, 0x48, 0x8B, 0x2A, 0xDA, 0xA5, 0x33, 0x82, 0x39]
  const LINE_15: seq<byte> :=
    [0xD6, 0x78, 0x86, 0xFA, 0xE4, 0x2B, 0xA9, 0x1E, 0x89, 0x60, 0x6B, 0xEA, 0x55, 0x4C, 0xF7, 0xE2]

  // where each value stands in the box
  const PLACE_0: seq<byte> :=
    [0x35, 0xBE, 0x07, 0x2E, 0x53, 0x69, 0xDB, 0x28, 0x6F, 0xB7, 0x76, 0x6B, 0x0C, 0x7D, 0x36, 0x8B]
  const PLACE_1: seq<byte> :=
    [0x92, 0xBC, 0xA9, 0x32, 0xAC, 0x38, 0x9C, 0x42, 0x63, 0xC8, 0x1E, 0x4F, 0x24, 0xE5, 0xF7, 0xC9]
  const PLACE_2: seq<byte> :=
    [0x61, 0x8D, 0x2F, 0x3F, 0xB3, 0x65, 0x7F, 0x70, 0xAF, 0x9A, 0xEA, 0xF5, 0x5B, 0x98, 0x90, 0xB1]
  const PLACE_3: seq<byte> :=
    [0x87, 0x71, 0x72, 0xED, 0x37, 0x45, 0x68, 0xA3, 0xE3, 0xEF, 0x5C, 0xC5, 0x50, 0xC1, 0xD6, 0xCA]
  const PLACE_4: seq<byte> :=
    [0x5A, 0x62, 0x5F, 0x26, 0x09, 0x5D, 0x14, 0x41, 0xE8, 0x9D, 0xCE, 0x40, 0xFD, 0x08, 0x17, 0x4A]
  const PLACE_5: seq<byte> :=
    [0x0F, 0xC7, 0xB4, 0x3E, 0x12, 0xFC, 0x25, 0x4B, 0x81, 0x2C, 0x04, 0x78, 0xCB, 0xBB, 0x20, 0xBD]
  const PLACE_6: seq<byte> :=
    [0xF9, 0x29, 0x99, 0xA8, 0xD3, 0x60, 0xDF, 0x11, 0x97, 0x89, 0x7E, 0xFA, 0xE0, 0x9B, 0x1F, 0xD2]
  const PLACE_7: seq<byte> :=
    [0x67, 0xE2, 0x64, 0x77, 0x84, 0x2B, 0x9E, 0x8A, 0xF1, 0x6D, 0x88, 0x79, 0x74, 0x57, 0xDD, 0xE6]
  const PLACE_8: seq<byte> :=
    [0x39, 0x7B, 0xEE, 0x83, 0xE1, 0x58, 0xF2, 0x0D, 0x34, 0xF8, 0x30, 0xE9, 0xB9, 0x23, 0x54, 0x15]
  const PLACE_9: seq<byte> :=
    [0x44, 0x0B, 0x4D, 0x66, 0x3A, 0x03, 0xA2, 0x91, 0x94, 0x52, 0x4C, 0xC3, 0x82, 0xE7, 0x80, 0xC0]
  const PLACE_10: seq<byte> :=
    [0xB6, 0x0E, 0xC2, 0x6C, 0x93, 0xEC, 0xAB, 0x43, 0x95, 0xF6, 0xD8, 0x46, 0x86, 0x05, 0x8C, 0xB0]
  const PLACE_11: seq<byte> :=
    [0x75, 0x00, 0xCC, 0x85, 0xD7, 0x3D, 0x73, 0x7A, 0x48, 0xE4, 0xD1, 0x59, 0xAD, 0xB8, 0xC6, 0xD0]
  const PLACE_12: seq<byte> :=
    [0xDC, 0xA1, 0xAA, 0x02, 0x1D, 0xBF, 0xB5, 0x9F, 0x51, 0xC4, 0xA5, 0x10, 0x22, 0xCF, 0x01, 0xBA]
  const PLACE_13: seq<byte> :=
    [0x8F, 0x31, 0x7C, 0xAE, 0x96, 0xDA, 0xF0, 0x56, 0x47, 0xD4, 0xEB, 0x4E, 0xD9, 0x13, 0x8E, 0x49]
  const PLACE_14: seq<byte> :=
    [0x55, 0x16, 0xFF, 0x3B, 0xF4, 0xA4, 0xB2, 0x06, 0xA0, 0xA7, 0xFB, 0x1B, 0x6E, 0x3C, 0x33, 0xCD]
  const PLACE_15: seq<byte> :=
    [0x18, 0x5E, 0x6A, 0xD5, 0xA6, 0x21, 0xDE, 0xFE, 0x2A, 0x1C, 0xF3, 0x0A, 0x1A, 0x19, 0x27, 0x2D]

  /** Row r of the box. */
  function Line(r: nat): (s: seq<byte>)
    ensures |s| == 16
  {
    if r == 0 then LINE_0 else if r == 1 then LINE_1 else if r == 2 then LINE_2 else if r == 3 then LINE_3 else
    if r == 4 then LINE_4 else if r == 5 then LINE_5 else if r == 6 then LINE_6 else if r == 7 then LINE_7 else
    if r == 8 then LINE_8 else if r == 9 then LINE_9 else if r == 10 then LINE_10 else if r == 11 then LINE_11 else
    if r == 12 then LINE_12 else if r == 13 then LINE_13 else if r == 14 then LINE_14 else LINE_15
  }

  /** Where the values from 16 r on stand. */
  function Back(r: nat): (s: seq<byte>)
    ensures |s| == 16
  {
    if r == 0 then PLACE_0 else if r == 1 then PLACE_1 else if r == 2 then PLACE_2 else if r == 3 then PLACE_3 else
    if r == 4 then PLACE_4 else if r == 5 then PLACE_5 else if r == 6 then PLACE_6 else if r == 7 then PLACE_7 else
    if r == 8 then PLACE_8 else if r == 9 then PLACE_9 else if r == 10 then PLACE_10 else
    if r == 11 then PLACE_11 else if r == 12 then PLACE_12 else if r == 13 then PLACE_13 else
    if r == 14 then PLACE_14 else PLACE_15
  }

  lemma Lines()
    ensures Line(0) == LINE_0 && Line(1) == LINE_1 && Line(2) == LINE_2 && Line(3) == LINE_3
    ensures Line(4) == LINE_4 && Line(5) == LINE_5 && Line(6) == LINE_6 && Line(7) == LINE_7
    ensures Line(8) == LINE_8 && Line(9) == LINE_9 && Line(10) == LINE_10 && Line(11) == LINE_11
    ensures Line(12) == LINE_12 && Line(13) == LINE_13 && Line(14) == LINE_14 && Line(15) == LINE_15
  {
  }

  lemma Backs()
    ensures Back(0) == PLACE_0 && Back(1) == PLACE_1 && Back(2) == PLACE_2 && Back(3) == PLACE_3
    ensures Back(4) == PLACE_4 && Back(5) == PLACE_5 && Back(6) == PLACE_6 && Back(7) == PLACE_7
    ensures Back(8) == PLACE_8 && Back(9) == PLACE_9 && Back(10) == PLACE_10 && Back(11) == PLACE_11
    ensures Back(12) == PLACE_12 && Back(13) == PLACE_13 && Back(14) == PLACE_14 && Back(15) == PLACE_15
  {
  }

  function Place(v: byte): byte
  {
    Back(v / 16)[v % 16]
  }

  /** The box as the rounds use it. */
  function SquareSE(): Box
  {
    seq(256, i requires 0 <= i < 256 => Line(i / 16)[i % 16] as bv8)
  }

  lemma Row0()
    ensures forall c :: 0 <= c < 16 ==> Place(Line(0)[c]) == 0 + c
  {
    hide Line, Back;
    Lines();
    Backs();
  }

  lemma Row1()
    ensures forall c :: 0 <= c < 16 ==> Place(Line(1)[c]) == 16 + c
  {
    hide Line, Back;
    Lines();
    Backs();
  }

  lemma Row2()
    ensures forall c :: 0 <= c < 16 ==> Place(Line(2)[c]) == 32 + c
  {
    hide Line, Back;
    Lines();
    Backs();
  }

  lemma Row3()
    ensures forall c :: 0 <= c < 16 ==> Place(Line(3)[c]) == 48 + c
  {
    hide Line, Back;
    Lines();
    Backs();
  }

  lemma Row4()
    ensures forall c :: 0 <= c < 16 ==> Place(Line(4)[c]) == 64 + c
  {
    hide Line, Back;
    Lines();
    Backs();
  }

  lemma Row5()
    ensures forall c :: 0 <= c < 16 ==> Place(Line(5)[c]) == 80 + c
  {
    hide Line, Back;
    Lines();
    Backs();
  }

  lemma Row6()
    ensures forall c :: 0 <= c < 16 ==> Place(Line(6)[c]) == 96 + c
  {
    hide Line, Back;
    Lines();
    Backs();
  }

  lemma Row7()
    ensures forall c :: 0 <= c < 16 ==> Place(Line(7)[c]) == 112 + c
  {
    hide Line, Back;
    Lines();
    Backs();
  }

  lemma Row8()
    ensures forall c :: 0 <= c < 16 ==> Place(Line(8)[c]) == 128 + c
  {
    hide Line, Back;
    Lines();
    Backs();
  }

  lemma Row9()
    ensures forall c :: 0 <= c < 16 ==> Place(Line(9)[c]) == 144 + c
  {
    hide Line, Back;
    Lines();
    Backs();
  }

  lemma Row10()
    ensures forall c :: 0 <= c < 16 ==> Place(Line(10)[c]) == 160 + c
  {
    hide Line, Back;
    Lines();
    Backs();
  }

  lemma Row11()
    ensures forall c :: 0 <= c < 16 ==> Place(Line(11)[c]) == 176 + c
  {
    hide Line, Back;
    Lines();
    Backs();
  }

  lemma Row12()
    ensures forall c :: 0 <= c < 16 ==> Place(Line(12)[c]) == 192 + c
  {
    hide Line, Back;
    Lines();
    Backs();
  }

  lemma Row13()
    ensures forall c :: 0 <= c < 16 ==> Place(Line(13)[c]) == 208 + c
  {
    hide Line, Back;
    Lines();
    Backs();
  }

  lemma Row14()
    ensures forall c :: 0 <= c < 16 ==> Place(Line(14)[c]) == 224 + c
  {
    hide Line, Back;
    Lines();
    Backs();
  }

  lemma Row15()
    ensures forall c :: 0 <= c < 16 ==> Place(Line(15)[c]) == 240 + c
  {
    hide Line, Back;
    Lines();
    Backs();
  }

  lemma InRow(r: nat, c: nat)
    requires r < 16 && c < 16
    ensures Place(Line(r)[c]) == 16 * r + c
  {
    hide Line, Place;
    if r < 8 {
      if r == 0 { Row0(); } else if r == 1 { Row1(); } else if r == 2 { Row2(); } else if r == 3 { Row3(); }
      else if r == 4 { Row4(); } else if r == 5 { Row5(); } else if r == 6 { Row6(); }
      else { assert r == 7; Row7(); }
    } else {
      if r == 8 { Row8(); } else if r == 9 { Row9(); } else if r == 10 { Row10(); } else if r == 11 { Row11(); }
      else if r == 12 { Row12(); } else if r == 13 { Row13(); } else if r == 14 { Row14(); }
      else { assert r == 15; Row15(); }
    }
  }

  lemma SameByte(x: byte, y: byte)
    requires x as bv8 == y as bv8
    ensures x == y
  {
    ByteNumber(x);
    ByteNumber(y);
  }

  /** No value stands in two places. */
  lemma SquareIsPermutation()
    ensures Permutation(SquareSE())
  {
    hide Line, Place;
    var box := SquareSE();
    forall i, j | 0 <= i < j < 256
      ensures box[i] != box[j]
    {
      InRow(i / 16, i % 16);
      InRow(j / 16, j % 16);
      if box[i] == box[j] { SameByte(Line(i / 16)[i % 16], Line(j / 16)[j % 16]); }
    }
  }
}
