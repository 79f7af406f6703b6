/**
 * The known answer of FIPS-197 appendix C.1: AES-128 under the key
 * 000102...0f enciphers 00112233...ff to 69c4e0d8...c55a. The key schedule
 * is followed four words at a time against the words listed in FIPS-197
 * appendix A.1, and the cipher round by round against the states listed in
 * appendix C.1, so that each step is a small computation on constants.
 */
module KnownAnswer {
  import opened Bytes
  import opened Gf
  import opened Lookups
  import opened CipherSpec
  import MS = ModeSpec

  const KEY: seq<Byte> := [0x00, 0x01, 0x02, 0x03, 0x04, 0x05, 0x06, 0x07, 0x08, 0x09, 0x0a, 0x0b, 0x0c, 0x0d, 0x0e, 0x0f]
  const PLAIN: Block := [0x00, 0x11, 0x22, 0x33, 0x44, 0x55, 0x66, 0x77, 0x88, 0x99, 0xaa, 0xbb, 0xcc, 0xdd, 0xee, 0xff]
  const CIPHER: Block := [0x69, 0xc4, 0xe0, 0xd8, 0x6a, 0x7b, 0x04, 0x30, 0xd8, 0xcd, 0xb7, 0x80, 0x70, 0xb4, 0xc5, 0x5a]

  /** A schedule whose 44 words are those listed in FIPS-197 appendix A.1. */
  predicate Listed(ks: seq<Word>)
  {
    |ks| == 44 &&
    ks[0] == 0x00010203 && ks[1] == 0x04050607 && ks[2] == 0x08090a0b && ks[3] == 0x0c0d0e0f &&
    ks[4] == 0xd6aa74fd && ks[5] == 0xd2af72fa && ks[6] == 0xdaa678f1 && ks[7] == 0xd6ab76fe &&
    ks[8] == 0xb692cf0b && ks[9] == 0x643dbdf1 && ks[10] == 0xbe9bc500 && ks[11] == 0x6830b3fe &&
    ks[12] == 0xb6ff744e && ks[13] == 0xd2c2c9bf && ks[14] == 0x6c590cbf && ks[15] == 0x0469bf41 &&
    ks[16] == 0x47f7f7bc && ks[17] == 0x95353e03 && ks[18] == 0xf96c32bc && ks[19] == 0xfd058dfd &&
    ks[20] == 0x3caaa3e8 && ks[21] == 0xa99f9deb && ks[22] == 0x50f3af57 && ks[23] == 0xadf622aa &&
    ks[24] == 0x5e390f7d && ks[25] == 0xf7a69296 && ks[26] == 0xa7553dc1 && ks[27] == 0x0aa31f6b &&
    ks[28] == 0x14f9701a && ks[29] == 0xe35fe28c && ks[30] == 0x440adf4d && ks[31] == 0x4ea9c026 &&
    ks[32] == 0x47438735 && ks[33] == 0xa41c65b9 && ks[34] == 0xe016baf4 && ks[35] == 0xaebf7ad2 &&
    ks[36] == 0x549932d1 && ks[37] == 0xf0855768 && ks[38] == 0x1093ed9c && ks[39] == 0xbe2c974e &&
    ks[40] == 0x13111d7f && ks[41] == 0xe3944a17 && ks[42] == 0xf307a78b && ks[43] == 0x4d2b30c5
  }

  /** The key's four words, most significant byte first. */
  lemma KeyWords()
    ensures KeyWord(KEY, 0) == 0x00010203 && KeyWord(KEY, 1) == 0x04050607
    ensures KeyWord(KEY, 2) == 0x08090a0b && KeyWord(KEY, 3) == 0x0c0d0e0f
  {
    assert KEY[0] == 0x00 && KEY[1] == 0x01 && KEY[2] == 0x02 && KEY[3] == 0x03;
    assert KEY[4] == 0x04 && KEY[5] == 0x05 && KEY[6] == 0x06 && KEY[7] == 0x07;
    assert KEY[8] == 0x08 && KEY[9] == 0x09 && KEY[10] == 0x0a && KEY[11] == 0x0b;
    assert KEY[12] == 0x0c && KEY[13] == 0x0d && KEY[14] == 0x0e && KEY[15] == 0x0f;
  }

  /** Round key 0: the key's own four words. */
  lemma KeyWords0()
    ensures ScheduleWord(KEY, 4, 0) == 0x00010203 && ScheduleWord(KEY, 4, 1) == 0x04050607
    ensures ScheduleWord(KEY, 4, 2) == 0x08090a0b && ScheduleWord(KEY, 4, 3) == 0x0c0d0e0f
  {
    KeyWords();
  }

  /** SubWord(RotWord(w[3])) xor Rcon[1]. */
  lemma Temp1()
    ensures ExpandTemp(0x0c0d0e0f, 4, 4) == 0xd6ab76fe
  {
    assert RotWord(0x0c0d0e0f) == 0x0d0e0f0c;
    assert SubByte(0x0d) == 0xd7 && SubByte(0x0e) == 0xab && SubByte(0x0f) == 0x76 && SubByte(0x0c) == 0xfe;
    assert SubWord(0x0d0e0f0c) == 0xd7ab76fe;
  }

  /** Round key 1, from round key 0. */
  lemma KeyWords1()
    ensures ScheduleWord(KEY, 4, 4) == 0xd6aa74fd && ScheduleWord(KEY, 4, 5) == 0xd2af72fa
    ensures ScheduleWord(KEY, 4, 6) == 0xdaa678f1 && ScheduleWord(KEY, 4, 7) == 0xd6ab76fe
  {
    KeyWords0();
    Temp1();
  }

  /** SubWord(RotWord(w[7])) xor Rcon[2]. */
  lemma Temp2()
    ensures ExpandTemp(0xd6ab76fe, 8, 4) == 0x6038bbf6
  {
    assert RotWord(0xd6ab76fe) == 0xab76fed6;
    assert SubByte(0xab) == 0x62 && SubByte(0x76) == 0x38 && SubByte(0xfe) == 0xbb && SubByte(0xd6) == 0xf6;
    assert SubWord(0xab76fed6) == 0x6238bbf6;
  }

  /** Round key 2, from round key 1. */
  lemma KeyWords2()
    ensures ScheduleWord(KEY, 4, 8) == 0xb692cf0b && ScheduleWord(KEY, 4, 9) == 0x643dbdf1
    ensures ScheduleWord(KEY, 4, 10) == 0xbe9bc500 && ScheduleWord(KEY, 4, 11) == 0x6830b3fe
  {
    KeyWords1();
    Temp2();
  }

  /** SubWord(RotWord(w[11])) xor Rcon[3]. */
  lemma Temp3()
    ensures ExpandTemp(0x6830b3fe, 12, 4) == 0x006dbb45
  {
    assert RotWord(0x6830b3fe) == 0x30b3fe68;
    assert SubByte(0x30) == 0x04 && SubByte(0xb3) == 0x6d && SubByte(0xfe) == 0xbb && SubByte(0x68) == 0x45;
    assert SubWord(0x30b3fe68) == 0x046dbb45;
  }

  /** Round key 3, from round key 2. */
  lemma KeyWords3()
    ensures ScheduleWord(KEY, 4, 12) == 0xb6ff744e && ScheduleWord(KEY, 4, 13) == 0xd2c2c9bf
    ensures ScheduleWord(KEY, 4, 14) == 0x6c590cbf && ScheduleWord(KEY, 4, 15) == 0x0469bf41
  {
    KeyWords2();
    Temp3();
  }

  /** SubWord(RotWord(w[15])) xor Rcon[4]. */
  lemma Temp4()
    ensures ExpandTemp(0x0469bf41, 16, 4) == 0xf10883f2
  {
    assert RotWord(0x0469bf41) == 0x69bf4104;
    assert SubByte(0x69) == 0xf9 && SubByte(0xbf) == 0x08 && SubByte(0x41) == 0x83 && SubByte(0x04) == 0xf2;
    assert SubWord(0x69bf4104) == 0xf90883f2;
  }

  /** Round key 4, from round key 3. */
  lemma KeyWords4()
    ensures ScheduleWord(KEY, 4, 16) == 0x47f7f7bc && ScheduleWord(KEY, 4, 17) == 0x95353e03
    ensures ScheduleWord(KEY, 4, 18) == 0xf96c32bc && ScheduleWord(KEY, 4, 19) == 0xfd058dfd
  {
    KeyWords3();
    Temp4();
  }

  /** SubWord(RotWord(w[19])) xor Rcon[5]. */
  lemma Temp5()
    ensures ExpandTemp(0xfd058dfd, 20, 4) == 0x7b5d5454
  {
    assert RotWord(0xfd058dfd) == 0x058dfdfd;
    assert SubByte(0x05) == 0x6b && SubByte(0x8d) == 0x5d && SubByte(0xfd) == 0x54 && SubByte(0xfd) == 0x54;
    assert SubWord(0x058dfdfd) == 0x6b5d5454;
  }

  /** Round key 5, from round key 4. */
  lemma KeyWords5()
    ensures ScheduleWord(KEY, 4, 20) == 0x3caaa3e8 && ScheduleWord(KEY, 4, 21) == 0xa99f9deb
    ensures ScheduleWord(KEY, 4, 22) == 0x50f3af57 && ScheduleWord(KEY, 4, 23) == 0xadf622aa
  {
    KeyWords4();
    Temp5();
  }

  /** SubWord(RotWord(w[23])) xor Rcon[6]. */
  lemma Temp6()
    ensures ExpandTemp(0xadf622aa, 24, 4) == 0x6293ac95
  {
    assert RotWord(0xadf622aa) == 0xf622aaad;
    assert SubByte(0xf6) == 0x42 && SubByte(0x22) == 0x93 && SubByte(0xaa) == 0xac && SubByte(0xad) == 0x95;
    assert SubWord(0xf622aaad) == 0x4293ac95;
  }

  /** Round key 6, from round key 5. */
  lemma KeyWords6()
    ensures ScheduleWord(KEY, 4, 24) == 0x5e390f7d && ScheduleWord(KEY, 4, 25) == 0xf7a69296
    ensures ScheduleWord(KEY, 4, 26) == 0xa7553dc1 && ScheduleWord(KEY, 4, 27) == 0x0aa31f6b
  {
    KeyWords5();
    Temp6();
  }

  /** SubWord(RotWord(w[27])) xor Rcon[7]. */
  lemma Temp7()
    ensures ExpandTemp(0x0aa31f6b, 28, 4) == 0x4ac07f67
  {
    assert RotWord(0x0aa31f6b) == 0xa31f6b0a;
    assert SubByte(0xa3) == 0x0a && SubByte(0x1f) == 0xc0 && SubByte(0x6b) == 0x7f && SubByte(0x0a) == 0x67;
    assert SubWord(0xa31f6b0a) == 0x0ac07f67;
  }

  /** Round key 7, from round key 6. */
  lemma KeyWords7()
    ensures ScheduleWord(KEY, 4, 28) == 0x14f9701a && ScheduleWord(KEY, 4, 29) == 0xe35fe28c
    ensures ScheduleWord(KEY, 4, 30) == 0x440adf4d && ScheduleWord(KEY, 4, 31) == 0x4ea9c026
  {
    KeyWords6();
    Temp7();
  }

  /** SubWord(RotWord(w[31])) xor Rcon[8]. */
  lemma Temp8()
    ensures ExpandTemp(0x4ea9c026, 32, 4) == 0x53baf72f
  {
    assert RotWord(0x4ea9c026) == 0xa9c0264e;
    assert SubByte(0xa9) == 0xd3 && SubByte(0xc0) == 0xba && SubByte(0x26) == 0xf7 && SubByte(0x4e) == 0x2f;
    assert SubWord(0xa9c0264e) == 0xd3baf72f;
  }

  /** Round key 8, from round key 7. */
  lemma KeyWords8()
    ensures ScheduleWord(KEY, 4, 32) == 0x47438735 && ScheduleWord(KEY, 4, 33) == 0xa41c65b9
    ensures ScheduleWord(KEY, 4, 34) == 0xe016baf4 && ScheduleWord(KEY, 4, 35) == 0xaebf7ad2
  {
    KeyWords7();
    Temp8();
  }

  /** SubWord(RotWord(w[35])) xor Rcon[9]. */
  lemma Temp9()
    ensures ExpandTemp(0xaebf7ad2, 36, 4) == 0x13dab5e4
  {
    assert RotWord(0xaebf7ad2) == 0xbf7ad2ae;
    assert SubByte(0xbf) == 0x08 && SubByte(0x7a) == 0xda && SubByte(0xd2) == 0xb5 && SubByte(0xae) == 0xe4;
    assert SubWord(0xbf7ad2ae) == 0x08dab5e4;
  }

  /** Round key 9, from round key 8. */
  lemma KeyWords9()
    ensures ScheduleWord(KEY, 4, 36) == 0x549932d1 && ScheduleWord(KEY, 4, 37) == 0xf0855768
    ensures ScheduleWord(KEY, 4, 38) == 0x1093ed9c && ScheduleWord(KEY, 4, 39) == 0xbe2c974e
  {
    KeyWords8();
    Temp9();
  }

  /** SubWord(RotWord(w[39])) xor Rcon[10]. */
  lemma Temp10()
    ensures ExpandTemp(0xbe2c974e, 40, 4) == 0x47882fae
  {
    assert RotWord(0xbe2c974e) == 0x2c974ebe;
    assert SubByte(0x2c) == 0x71 && SubByte(0x97) == 0x88 && SubByte(0x4e) == 0x2f && SubByte(0xbe) == 0xae;
    assert SubWord(0x2c974ebe) == 0x71882fae;
  }

  /** Round key 10, from round key 9. */
  lemma KeyWords10()
    ensures ScheduleWord(KEY, 4, 40) == 0x13111d7f && ScheduleWord(KEY, 4, 41) == 0xe3944a17
    ensures ScheduleWord(KEY, 4, 42) == 0xf307a78b && ScheduleWord(KEY, 4, 43) == 0x4d2b30c5
  {
    KeyWords9();
    Temp10();
  }

  /** keyExpansion of KEY gives the listed words. */
  lemma KeyScheduleListed()
    ensures Listed(KeySchedule(KEY, 4, 44))
  {
    KeyWords0();
    KeyWords1();
    KeyWords2();
    KeyWords3();
    KeyWords4();
    KeyWords5();
    KeyWords6();
    KeyWords7();
    KeyWords8();
    KeyWords9();
    KeyWords10();
  }

  lemma Sub1Column0()
    ensures SubColumn(Column(0x00, 0x10, 0x20, 0x30)) == Column(0x63, 0xca, 0xb7, 0x04)
  {
    assert SubByte(0x00) == 0x63;
    assert SubByte(0x10) == 0xca;
    assert SubByte(0x20) == 0xb7;
    assert SubByte(0x30) == 0x04;
  }

  lemma Sub1Column1()
    ensures SubColumn(Column(0x40, 0x50, 0x60, 0x70)) == Column(0x09, 0x53, 0xd0, 0x51)
  {
    assert SubByte(0x40) == 0x09;
    assert SubByte(0x50) == 0x53;
    assert SubByte(0x60) == 0xd0;
    assert SubByte(0x70) == 0x51;
  }

  lemma Sub1Column2()
    ensures SubColumn(Column(0x80, 0x90, 0xa0, 0xb0)) == Column(0xcd, 0x60, 0xe0, 0xe7)
  {
    assert SubByte(0x80) == 0xcd;
    assert SubByte(0x90) == 0x60;
    assert SubByte(0xa0) == 0xe0;
    assert SubByte(0xb0) == 0xe7;
  }

  lemma Sub1Column3()
    ensures SubColumn(Column(0xc0, 0xd0, 0xe0, 0xf0)) == Column(0xba, 0x70, 0xe1, 0x8c)
  {
    assert SubByte(0xc0) == 0xba;
    assert SubByte(0xd0) == 0x70;
    assert SubByte(0xe0) == 0xe1;
    assert SubByte(0xf0) == 0x8c;
  }

  /** SubBytes in round 1, one column at a time. */
  lemma SubBytes1()
    ensures SubBytes(State(Column(0x00, 0x10, 0x20, 0x30), Column(0x40, 0x50, 0x60, 0x70),
      Column(0x80, 0x90, 0xa0, 0xb0), Column(0xc0, 0xd0, 0xe0, 0xf0))) ==
      State(Column(0x63, 0xca, 0xb7, 0x04), Column(0x09, 0x53, 0xd0, 0x51),
      Column(0xcd, 0x60, 0xe0, 0xe7), Column(0xba, 0x70, 0xe1, 0x8c))
  {
    Sub1Column0();
    Sub1Column1();
    Sub1Column2();
    Sub1Column3();
  }

  lemma Sub2Column0()
    ensures SubColumn(Column(0x89, 0xd8, 0x10, 0xe8)) == Column(0xa7, 0x61, 0xca, 0x9b)
  {
    assert SubByte(0x89) == 0xa7;
    assert SubByte(0xd8) == 0x61;
    assert SubByte(0x10) == 0xca;
    assert SubByte(0xe8) == 0x9b;
  }

  lemma Sub2Column1()
    ensures SubColumn(Column(0x85, 0x5a, 0xce, 0x68)) == Column(0x97, 0xbe, 0x8b, 0x45)
  {
    assert SubByte(0x85) == 0x97;
    assert SubByte(0x5a) == 0xbe;
    assert SubByte(0xce) == 0x8b;
    assert SubByte(0x68) == 0x45;
  }

  lemma Sub2Column2()
    ensures SubColumn(Column(0x2d, 0x18, 0x43, 0xd8)) == Column(0xd8, 0xad, 0x1a, 0x61)
  {
    assert SubByte(0x2d) == 0xd8;
    assert SubByte(0x18) == 0xad;
    assert SubByte(0x43) == 0x1a;
    assert SubByte(0xd8) == 0x61;
  }

  lemma Sub2Column3()
    ensures SubColumn(Column(0xcb, 0x12, 0x8f, 0xe4)) == Column(0x1f, 0xc9, 0x73, 0x69)
  {
    assert SubByte(0xcb) == 0x1f;
    assert SubByte(0x12) == 0xc9;
    assert SubByte(0x8f) == 0x73;
    assert SubByte(0xe4) == 0x69;
  }

  /** SubBytes in round 2, one column at a time. */
  lemma SubBytes2()
    ensures SubBytes(State(Column(0x89, 0xd8, 0x10, 0xe8), Column(0x85, 0x5a, 0xce, 0x68),
      Column(0x2d, 0x18, 0x43, 0xd8), Column(0xcb, 0x12, 0x8f, 0xe4))) ==
      State(Column(0xa7, 0x61, 0xca, 0x9b), Column(0x97, 0xbe, 0x8b, 0x45),
      Column(0xd8, 0xad, 0x1a, 0x61), Column(0x1f, 0xc9, 0x73, 0x69))
  {
    Sub2Column0();
    Sub2Column1();
    Sub2Column2();
    Sub2Column3();
  }

  lemma Sub3Column0()
    ensures SubColumn(Column(0x49, 0x15, 0x59, 0x8f)) == Column(0x3b, 0x59, 0xcb, 0x73)
  {
    assert SubByte(0x49) == 0x3b;
    assert SubByte(0x15) == 0x59;
    assert SubByte(0x59) == 0xcb;
    assert SubByte(0x8f) == 0x73;
  }

  lemma Sub3Column1()
    ensures SubColumn(Column(0x55, 0xe5, 0xd7, 0xa0)) == Column(0xfc, 0xd9, 0x0e, 0xe0)
  {
    assert SubByte(0x55) == 0xfc;
    assert SubByte(0xe5) == 0xd9;
    assert SubByte(0xd7) == 0x0e;
    assert SubByte(0xa0) == 0xe0;
  }

  lemma Sub3Column2()
    ensures SubColumn(Column(0xda, 0xca, 0x94, 0xfa)) == Column(0x57, 0x74, 0x22, 0x2d)
  {
    assert SubByte(0xda) == 0x57;
    assert SubByte(0xca) == 0x74;
    assert SubByte(0x94) == 0x22;
    assert SubByte(0xfa) == 0x2d;
  }

  lemma Sub3Column3()
    ensures SubColumn(Column(0x1f, 0x0a, 0x63, 0xf7)) == Column(0xc0, 0x67, 0xfb, 0x68)
  {
    assert SubByte(0x1f) == 0xc0;
    assert SubByte(0x0a) == 0x67;
    assert SubByte(0x63) == 0xfb;
    assert SubByte(0xf7) == 0x68;
  }

  /** SubBytes in round 3, one column at a time. */
  lemma SubBytes3()
    ensures SubBytes(State(Column(0x49, 0x15, 0x59, 0x8f), Column(0x55, 0xe5, 0xd7, 0xa0),
      Column(0xda, 0xca, 0x94, 0xfa), Column(0x1f, 0x0a, 0x63, 0xf7))) ==
      State(Column(0x3b, 0x59, 0xcb, 0x73), Column(0xfc, 0xd9, 0x0e, 0xe0),
      Column(0x57, 0x74, 0x22, 0x2d), Column(0xc0, 0x67, 0xfb, 0x68))
  {
    Sub3Column0();
    Sub3Column1();
    Sub3Column2();
    Sub3Column3();
  }

  lemma Sub4Column0()
    ensures SubColumn(Column(0xfa, 0x63, 0x6a, 0x28)) == Column(0x2d, 0xfb, 0x02, 0x34)
  {
    assert SubByte(0xfa) == 0x2d;
    assert SubByte(0x63) == 0xfb;
    assert SubByte(0x6a) == 0x02;
    assert SubByte(0x28) == 0x34;
  }

  lemma Sub4Column1()
    ensures SubColumn(Column(0x25, 0xb3, 0x39, 0xc9)) == Column(0x3f, 0x6d, 0x12, 0xdd)
  {
    assert SubByte(0x25) == 0x3f;
    assert SubByte(0xb3) == 0x6d;
    assert SubByte(0x39) == 0x12;
    assert SubByte(0xc9) == 0xdd;
  }

  lemma Sub4Column2()
    ensures SubColumn(Column(0x40, 0x66, 0x8a, 0x31)) == Column(0x09, 0x33, 0x7e, 0xc7)
  {
    assert SubByte(0x40) == 0x09;
    assert SubByte(0x66) == 0x33;
    assert SubByte(0x8a) == 0x7e;
    assert SubByte(0x31) == 0xc7;
  }

  lemma Sub4Column3()
    ensures SubColumn(Column(0x57, 0x24, 0x4d, 0x17)) == Column(0x5b, 0x36, 0xe3, 0xf0)
  {
    assert SubByte(0x57) == 0x5b;
    assert SubByte(0x24) == 0x36;
    assert SubByte(0x4d) == 0xe3;
    assert SubByte(0x17) == 0xf0;
  }

  /** SubBytes in round 4, one column at a time. */
  lemma SubBytes4()
    ensures SubBytes(State(Column(0xfa, 0x63, 0x6a, 0x28), Column(0x25, 0xb3, 0x39, 0xc9),
      Column(0x40, 0x66, 0x8a, 0x31), Column(0x57, 0x24, 0x4d, 0x17))) ==
      State(Column(0x2d, 0xfb, 0x02, 0x34), Column(0x3f, 0x6d, 0x12, 0xdd),
      Column(0x09, 0x33, 0x7e, 0xc7), Column(0x5b, 0x36, 0xe3, 0xf0))
  {
    Sub4Column0();
    Sub4Column1();
    Sub4Column2();
    Sub4Column3();
  }

  lemma Sub5Column0()
    ensures SubColumn(Column(0x24, 0x72, 0x40, 0x23)) == Column(0x36, 0x40, 0x09, 0x26)
  {
    assert SubByte(0x24) == 0x36;
    assert SubByte(0x72) == 0x40;
    assert SubByte(0x40) == 0x09;
    assert SubByte(0x23) == 0x26;
  }

  lemma Sub5Column1()
    ensures SubColumn(Column(0x69, 0x66, 0xb3, 0xfa)) == Column(0xf9, 0x33, 0x6d, 0x2d)
  {
    assert SubByte(0x69) == 0xf9;
    assert SubByte(0x66) == 0x33;
    assert SubByte(0xb3) == 0x6d;
    assert SubByte(0xfa) == 0x2d;
  }

  lemma Sub5Column2()
    ensures SubColumn(Column(0x6e, 0xd2, 0x75, 0x32)) == Column(0x9f, 0xb5, 0x9d, 0x23)
  {
    assert SubByte(0x6e) == 0x9f;
    assert SubByte(0xd2) == 0xb5;
    assert SubByte(0x75) == 0x9d;
    assert SubByte(0x32) == 0x23;
  }

  lemma Sub5Column3()
    ensures SubColumn(Column(0x88, 0x42, 0x5b, 0x6c)) == Column(0xc4, 0x2c, 0x39, 0x50)
  {
    assert SubByte(0x88) == 0xc4;
    assert SubByte(0x42) == 0x2c;
    assert SubByte(0x5b) == 0x39;
    assert SubByte(0x6c) == 0x50;
  }

  /** SubBytes in round 5, one column at a time. */
  lemma SubBytes5()
    ensures SubBytes(State(Column(0x24, 0x72, 0x40, 0x23), Column(0x69, 0x66, 0xb3, 0xfa),
      Column(0x6e, 0xd2, 0x75, 0x32), Column(0x88, 0x42, 0x5b, 0x6c))) ==
      State(Column(0x36, 0x40, 0x09, 0x26), Column(0xf9, 0x33, 0x6d, 0x2d),
      Column(0x9f, 0xb5, 0x9d, 0x23), Column(0xc4, 0x2c, 0x39, 0x50))
  {
    Sub5Column0();
    Sub5Column1();
    Sub5Column2();
    Sub5Column3();
  }

  lemma Sub6Column0()
    ensures SubColumn(Column(0xc8, 0x16, 0x77, 0xbc)) == Column(0xe8, 0x47, 0xf5, 0x65)
  {
    assert SubByte(0xc8) == 0xe8;
    assert SubByte(0x16) == 0x47;
    assert SubByte(0x77) == 0xf5;
    assert SubByte(0xbc) == 0x65;
  }

  lemma Sub6Column1()
    ensures SubColumn(Column(0x9b, 0x7a, 0xc9, 0x3b)) == Column(0x14, 0xda, 0xdd, 0xe2)
  {
    assert SubByte(0x9b) == 0x14;
    assert SubByte(0x7a) == 0xda;
    assert SubByte(0xc9) == 0xdd;
    assert SubByte(0x3b) == 0xe2;
  }

  lemma Sub6Column2()
    ensures SubColumn(Column(0x25, 0x02, 0x79, 0x92)) == Column(0x3f, 0x77, 0xb6, 0x4f)
  {
    assert SubByte(0x25) == 0x3f;
    assert SubByte(0x02) == 0x77;
    assert SubByte(0x79) == 0xb6;
    assert SubByte(0x92) == 0x4f;
  }

  lemma Sub6Column3()
    ensures SubColumn(Column(0xb0, 0x26, 0x19, 0x96)) == Column(0xe7, 0xf7, 0xd4, 0x90)
  {
    assert SubByte(0xb0) == 0xe7;
    assert SubByte(0x26) == 0xf7;
    assert SubByte(0x19) == 0xd4;
    assert SubByte(0x96) == 0x90;
  }

  /** SubBytes in round 6, one column at a time. */
  lemma SubBytes6()
    ensures SubBytes(State(Column(0xc8, 0x16, 0x77, 0xbc), Column(0x9b, 0x7a, 0xc9, 0x3b),
      Column(0x25, 0x02, 0x79, 0x92), Column(0xb0, 0x26, 0x19, 0x96))) ==
      State(Column(0xe8, 0x47, 0xf5, 0x65), Column(0x14, 0xda, 0xdd, 0xe2),
      Column(0x3f, 0x77, 0xb6, 0x4f), Column(0xe7, 0xf7, 0xd4, 0x90))
  {
    Sub6Column0();
    Sub6Column1();
    Sub6Column2();
    Sub6Column3();
  }

  lemma Sub7Column0()
    ensures SubColumn(Column(0xc6, 0x2f, 0xe1, 0x09)) == Column(0xb4, 0x15, 0xf8, 0x01)
  {
    assert SubByte(0xc6) == 0xb4;
    assert SubByte(0x2f) == 0x15;
    assert SubByte(0xe1) == 0xf8;
    assert SubByte(0x09) == 0x01;
  }

  lemma Sub7Column1()
    ensures SubColumn(Column(0xf7, 0x5e, 0xed, 0xc3)) == Column(0x68, 0x58, 0x55, 0x2e)
  {
    assert SubByte(0xf7) == 0x68;
    assert SubByte(0x5e) == 0x58;
    assert SubByte(0xed) == 0x55;
    assert SubByte(0xc3) == 0x2e;
  }

  lemma Sub7Column2()
    ensures SubColumn(Column(0xcc, 0x79, 0x39, 0x5d)) == Column(0x4b, 0xb6, 0x12, 0x4c)
  {
    assert SubByte(0xcc) == 0x4b;
    assert SubByte(0x79) == 0xb6;
    assert SubByte(0x39) == 0x12;
    assert SubByte(0x5d) == 0x4c;
  }

  lemma Sub7Column3()
    ensures SubColumn(Column(0x84, 0xf9, 0xcf, 0x5d)) == Column(0x5f, 0x99, 0x8a, 0x4c)
  {
    assert SubByte(0x84) == 0x5f;
    assert SubByte(0xf9) == 0x99;
    assert SubByte(0xcf) == 0x8a;
    assert SubByte(0x5d) == 0x4c;
  }

  /** SubBytes in round 7, one column at a time. */
  lemma SubBytes7()
    ensures SubBytes(State(Column(0xc6, 0x2f, 0xe1, 0x09), Column(0xf7, 0x5e, 0xed, 0xc3),
      Column(0xcc, 0x79, 0x39, 0x5d), Column(0x84, 0xf9, 0xcf, 0x5d))) ==
      State(Column(0xb4, 0x15, 0xf8, 0x01), Column(0x68, 0x58, 0x55, 0x2e),
      Column(0x4b, 0xb6, 0x12, 0x4c), Column(0x5f, 0x99, 0x8a, 0x4c))
  {
    Sub7Column0();
    Sub7Column1();
    Sub7Column2();
    Sub7Column3();
  }

  lemma Sub8Column0()
    ensures SubColumn(Column(0xd1, 0x87, 0x6c, 0x0f)) == Column(0x3e, 0x17, 0x50, 0x76)
  {
    assert SubByte(0xd1) == 0x3e;
    assert SubByte(0x87) == 0x17;
    assert SubByte(0x6c) == 0x50;
    assert SubByte(0x0f) == 0x76;
  }

  lemma Sub8Column1()
    ensures SubColumn(Column(0x79, 0xc4, 0x30, 0x0a)) == Column(0xb6, 0x1c, 0x04, 0x67)
  {
    assert SubByte(0x79) == 0xb6;
    assert SubByte(0xc4) == 0x1c;
    assert SubByte(0x30) == 0x04;
    assert SubByte(0x0a) == 0x67;
  }

  lemma Sub8Column2()
    ensures SubColumn(Column(0xb4, 0x55, 0x94, 0xad)) == Column(0x8d, 0xfc, 0x22, 0x95)
  {
    assert SubByte(0xb4) == 0x8d;
    assert SubByte(0x55) == 0xfc;
    assert SubByte(0x94) == 0x22;
    assert SubByte(0xad) == 0x95;
  }

  lemma Sub8Column3()
    ensures SubColumn(Column(0xd6, 0x6f, 0xf4, 0x1f)) == Column(0xf6, 0xa8, 0xbf, 0xc0)
  {
    assert SubByte(0xd6) == 0xf6;
    assert SubByte(0x6f) == 0xa8;
    assert SubByte(0xf4) == 0xbf;
    assert SubByte(0x1f) == 0xc0;
  }

  /** SubBytes in round 8, one column at a time. */
  lemma SubBytes8()
    ensures SubBytes(State(Column(0xd1, 0x87, 0x6c, 0x0f), Column(0x79, 0xc4, 0x30, 0x0a),
      Column(0xb4, 0x55, 0x94, 0xad), Column(0xd6, 0x6f, 0xf4, 0x1f))) ==
      State(Column(0x3e, 0x17, 0x50, 0x76), Column(0xb6, 0x1c, 0x04, 0x67),
      Column(0x8d, 0xfc, 0x22, 0x95), Column(0xf6, 0xa8, 0xbf, 0xc0))
  {
    Sub8Column0();
    Sub8Column1();
    Sub8Column2();
    Sub8Column3();
  }

  lemma Sub9Column0()
    ensures SubColumn(Column(0xfd, 0xe3, 0xba, 0xd2)) == Column(0x54, 0x11, 0xf4, 0xb5)
  {
    assert SubByte(0xfd) == 0x54;
    assert SubByte(0xe3) == 0x11;
    assert SubByte(0xba) == 0xf4;
    assert SubByte(0xd2) == 0xb5;
  }

  lemma Sub9Column1()
    ensures SubColumn(Column(0x05, 0xe5, 0xd0, 0xd7)) == Column(0x6b, 0xd9, 0x70, 0x0e)
  {
    assert SubByte(0x05) == 0x6b;
    assert SubByte(0xe5) == 0xd9;
    assert SubByte(0xd0) == 0x70;
    assert SubByte(0xd7) == 0x0e;
  }

  lemma Sub9Column2()
    ensures SubColumn(Column(0x35, 0x47, 0x96, 0x4e)) == Column(0x96, 0xa0, 0x90, 0x2f)
  {
    assert SubByte(0x35) == 0x96;
    assert SubByte(0x47) == 0xa0;
    assert SubByte(0x96) == 0x90;
    assert SubByte(0x4e) == 0x2f;
  }

  lemma Sub9Column3()
    ensures SubColumn(Column(0xf1, 0xfe, 0x37, 0xf1)) == Column(0xa1, 0xbb, 0x9a, 0xa1)
  {
    assert SubByte(0xf1) == 0xa1;
    assert SubByte(0xfe) == 0xbb;
    assert SubByte(0x37) == 0x9a;
    assert SubByte(0xf1) == 0xa1;
  }

  /** SubBytes in round 9, one column at a time. */
  lemma SubBytes9()
    ensures SubBytes(State(Column(0xfd, 0xe3, 0xba, 0xd2), Column(0x05, 0xe5, 0xd0, 0xd7),
      Column(0x35, 0x47, 0x96, 0x4e), Column(0xf1, 0xfe, 0x37, 0xf1))) ==
      State(Column(0x54, 0x11, 0xf4, 0xb5), Column(0x6b, 0xd9, 0x70, 0x0e),
      Column(0x96, 0xa0, 0x90, 0x2f), Column(0xa1, 0xbb, 0x9a, 0xa1))
  {
    Sub9Column0();
    Sub9Column1();
    Sub9Column2();
    Sub9Column3();
  }

  lemma Sub10Column0()
    ensures SubColumn(Column(0xbd, 0x6e, 0x7c, 0x3d)) == Column(0x7a, 0x9f, 0x10, 0x27)
  {
    assert SubByte(0xbd) == 0x7a;
    assert SubByte(0x6e) == 0x9f;
    assert SubByte(0x7c) == 0x10;
    assert SubByte(0x3d) == 0x27;
  }

  lemma Sub10Column1()
    ensures SubColumn(Column(0xf2, 0xb5, 0x77, 0x9e)) == Column(0x89, 0xd5, 0xf5, 0x0b)
  {
    assert SubByte(0xf2) == 0x89;
    assert SubByte(0xb5) == 0xd5;
    assert SubByte(0x77) == 0xf5;
    assert SubByte(0x9e) == 0x0b;
  }

  lemma Sub10Column2()
    ensures SubColumn(Column(0x0b, 0x61, 0x21, 0x6e)) == Column(0x2b, 0xef, 0xfd, 0x9f)
  {
    assert SubByte(0x0b) == 0x2b;
    assert SubByte(0x61) == 0xef;
    assert SubByte(0x21) == 0xfd;
    assert SubByte(0x6e) == 0x9f;
  }

  lemma Sub10Column3()
    ensures SubColumn(Column(0x8b, 0x10, 0xb6, 0x89)) == Column(0x3d, 0xca, 0x4e, 0xa7)
  {
    assert SubByte(0x8b) == 0x3d;
    assert SubByte(0x10) == 0xca;
    assert SubByte(0xb6) == 0x4e;
    assert SubByte(0x89) == 0xa7;
  }

  /** SubBytes in round 10, one column at a time. */
  lemma SubBytes10()
    ensures SubBytes(State(Column(0xbd, 0x6e, 0x7c, 0x3d), Column(0xf2, 0xb5, 0x77, 0x9e),
      Column(0x0b, 0x61, 0x21, 0x6e), Column(0x8b, 0x10, 0xb6, 0x89))) ==
      State(Column(0x7a, 0x9f, 0x10, 0x27), Column(0x89, 0xd5, 0xf5, 0x0b),
      Column(0x2b, 0xef, 0xfd, 0x9f), Column(0x3d, 0xca, 0x4e, 0xa7))
  {
    Sub10Column0();
    Sub10Column1();
    Sub10Column2();
    Sub10Column3();
  }

  /** Round 1 of appendix C.1. */
  lemma Round1(ks: seq<Word>)
    requires Listed(ks)
    ensures Round(State(Column(0x00, 0x10, 0x20, 0x30), Column(0x40, 0x50, 0x60, 0x70),
      Column(0x80, 0x90, 0xa0, 0xb0), Column(0xc0, 0xd0, 0xe0, 0xf0)), ks, 1) ==
      State(Column(0x89, 0xd8, 0x10, 0xe8), Column(0x85, 0x5a, 0xce, 0x68),
      Column(0x2d, 0x18, 0x43, 0xd8), Column(0xcb, 0x12, 0x8f, 0xe4))
  {
    SubBytes1();
    assert ShiftRows(State(Column(0x63, 0xca, 0xb7, 0x04), Column(0x09, 0x53, 0xd0, 0x51),
      Column(0xcd, 0x60, 0xe0, 0xe7), Column(0xba, 0x70, 0xe1, 0x8c))) ==
      State(Column(0x63, 0x53, 0xe0, 0x8c), Column(0x09, 0x60, 0xe1, 0x04),
      Column(0xcd, 0x70, 0xb7, 0x51), Column(0xba, 0xca, 0xd0, 0xe7));
  }

  /** Round 2 of appendix C.1. */
  lemma Round2(ks: seq<Word>)
    requires Listed(ks)
    ensures Round(State(Column(0x89, 0xd8, 0x10, 0xe8), Column(0x85, 0x5a, 0xce, 0x68),
      Column(0x2d, 0x18, 0x43, 0xd8), Column(0xcb, 0x12, 0x8f, 0xe4)), ks, 2) ==
      State(Column(0x49, 0x15, 0x59, 0x8f), Column(0x55, 0xe5, 0xd7, 0xa0),
      Column(0xda, 0xca, 0x94, 0xfa), Column(0x1f, 0x0a, 0x63, 0xf7))
  {
    SubBytes2();
    assert ShiftRows(State(Column(0xa7, 0x61, 0xca, 0x9b), Column(0x97, 0xbe, 0x8b, 0x45),
      Column(0xd8, 0xad, 0x1a, 0x61), Column(0x1f, 0xc9, 0x73, 0x69))) ==
      State(Column(0xa7, 0xbe, 0x1a, 0x69), Column(0x97, 0xad, 0x73, 0x9b),
      Column(0xd8, 0xc9, 0xca, 0x45), Column(0x1f, 0x61, 0x8b, 0x61));
  }

  /** Round 3 of appendix C.1. */
  lemma Round3(ks: seq<Word>)
    requires Listed(ks)
    ensures Round(State(Column(0x49, 0x15, 0x59, 0x8f), Column(0x55, 0xe5, 0xd7, 0xa0),
      Column(0xda, 0xca, 0x94, 0xfa), Column(0x1f, 0x0a, 0x63, 0xf7)), ks, 3) ==
      State(Column(0xfa, 0x63, 0x6a, 0x28), Column(0x25, 0xb3, 0x39, 0xc9),
      Column(0x40, 0x66, 0x8a, 0x31), Column(0x57, 0x24, 0x4d, 0x17))
  {
    SubBytes3();
    assert ShiftRows(State(Column(0x3b, 0x59, 0xcb, 0x73), Column(0xfc, 0xd9, 0x0e, 0xe0),
      Column(0x57, 0x74, 0x22, 0x2d), Column(0xc0, 0x67, 0xfb, 0x68))) ==
      State(Column(0x3b, 0xd9, 0x22, 0x68), Column(0xfc, 0x74, 0xfb, 0x73),
      Column(0x57, 0x67, 0xcb, 0xe0), Column(0xc0, 0x59, 0x0e, 0x2d));
  }

  /** Round 4 of appendix C.1. */
  lemma Round4(ks: seq<Word>)
    requires Listed(ks)
    ensures Round(State(Column(0xfa, 0x63, 0x6a, 0x28), Column(0x25, 0xb3, 0x39, 0xc9),
      Column(0x40, 0x66, 0x8a, 0x31), Column(0x57, 0x24, 0x4d, 0x17)), ks, 4) ==
      State(Column(0x24, 0x72, 0x40, 0x23), Column(0x69, 0x66, 0xb3, 0xfa),
      Column(0x6e, 0xd2, 0x75, 0x32), Column(0x88, 0x42, 0x5b, 0x6c))
  {
    SubBytes4();
    assert ShiftRows(State(Column(0x2d, 0xfb, 0x02, 0x34), Column(0x3f, 0x6d, 0x12, 0xdd),
      Column(0x09, 0x33, 0x7e, 0xc7), Column(0x5b, 0x36, 0xe3, 0xf0))) ==
      State(Column(0x2d, 0x6d, 0x7e, 0xf0), Column(0x3f, 0x33, 0xe3, 0x34),
      Column(0x09, 0x36, 0x02, 0xdd), Column(0x5b, 0xfb, 0x12, 0xc7));
  }

  /** Round 5 of appendix C.1. */
  lemma Round5(ks: seq<Word>)
    requires Listed(ks)
    ensures Round(State(Column(0x24, 0x72, 0x40, 0x23), Column(0x69, 0x66, 0xb3, 0xfa),
      Column(0x6e, 0xd2, 0x75, 0x32), Column(0x88, 0x42, 0x5b, 0x6c)), ks, 5) ==
      State(Column(0xc8, 0x16, 0x77, 0xbc), Column(0x9b, 0x7a, 0xc9, 0x3b),
      Column(0x25, 0x02, 0x79, 0x92), Column(0xb0, 0x26, 0x19, 0x96))
  {
    SubBytes5();
    assert ShiftRows(State(Column(0x36, 0x40, 0x09, 0x26), Column(0xf9, 0x33, 0x6d, 0x2d),
      Column(0x9f, 0xb5, 0x9d, 0x23), Column(0xc4, 0x2c, 0x39, 0x50))) ==
      State(Column(0x36, 0x33, 0x9d, 0x50), Column(0xf9, 0xb5, 0x39, 0x26),
      Column(0x9f, 0x2c, 0x09, 0x2d), Column(0xc4, 0x40, 0x6d, 0x23));
  }

  /** Round 6 of appendix C.1. */
  lemma Round6(ks: seq<Word>)
    requires Listed(ks)
    ensures Round(State(Column(0xc8, 0x16, 0x77, 0xbc), Column(0x9b, 0x7a, 0xc9, 0x3b),
      Column(0x25, 0x02, 0x79, 0x92), Column(0xb0, 0x26, 0x19, 0x96)), ks, 6) ==
      State(Column(0xc6, 0x2f, 0xe1, 0x09), Column(0xf7, 0x5e, 0xed, 0xc3),
      Column(0xcc, 0x79, 0x39, 0x5d), Column(0x84, 0xf9, 0xcf, 0x5d))
  {
    SubBytes6();
    assert ShiftRows(State(Column(0xe8, 0x47, 0xf5, 0x65), Column(0x14, 0xda, 0xdd, 0xe2),
      Column(0x3f, 0x77, 0xb6, 0x4f), Column(0xe7, 0xf7, 0xd4, 0x90))) ==
      State(Column(0xe8, 0xda, 0xb6, 0x90), Column(0x14, 0x77, 0xd4, 0x65),
      Column(0x3f, 0xf7, 0xf5, 0xe2), Column(0xe7, 0x47, 0xdd, 0x4f));
  }

  /** Round 7 of appendix C.1. */
  lemma Round7(ks: seq<Word>)
    requires Listed(ks)
    ensures Round(State(Column(0xc6, 0x2f, 0xe1, 0x09), Column(0xf7, 0x5e, 0xed, 0xc3),
      Column(0xcc, 0x79, 0x39, 0x5d), Column(0x84, 0xf9, 0xcf, 0x5d)), ks, 7) ==
      State(Column(0xd1, 0x87, 0x6c, 0x0f), Column(0x79, 0xc4, 0x30, 0x0a),
      Column(0xb4, 0x55, 0x94, 0xad), Column(0xd6, 0x6f, 0xf4, 0x1f))
  {
    SubBytes7();
    assert ShiftRows(State(Column(0xb4, 0x15, 0xf8, 0x01), Column(0x68, 0x58, 0x55, 0x2e),
      Column(0x4b, 0xb6, 0x12, 0x4c), Column(0x5f, 0x99, 0x8a, 0x4c))) ==
      State(Column(0xb4, 0x58, 0x12, 0x4c), Column(0x68, 0xb6, 0x8a, 0x01),
      Column(0x4b, 0x99, 0xf8, 0x2e), Column(0x5f, 0x15, 0x55, 0x4c));
  }

  /** Round 8 of appendix C.1. */
  lemma Round8(ks: seq<Word>)
    requires Listed(ks)
    ensures Round(State(Column(0xd1, 0x87, 0x6c, 0x0f), Column(0x79, 0xc4, 0x30, 0x0a),
      Column(0xb4, 0x55, 0x94, 0xad), Column(0xd6, 0x6f, 0xf4, 0x1f)), ks, 8) ==
      State(Column(0xfd, 0xe3, 0xba, 0xd2), Column(0x05, 0xe5, 0xd0, 0xd7),
      Column(0x35, 0x47, 0x96, 0x4e), Column(0xf1, 0xfe, 0x37, 0xf1))
  {
    SubBytes8();
    assert ShiftRows(State(Column(0x3e, 0x17, 0x50, 0x76), Column(0xb6, 0x1c, 0x04, 0x67),
      Column(0x8d, 0xfc, 0x22, 0x95), Column(0xf6, 0xa8, 0xbf, 0xc0))) ==
      State(Column(0x3e, 0x1c, 0x22, 0xc0), Column(0xb6, 0xfc, 0xbf, 0x76),
      Column(0x8d, 0xa8, 0x50, 0x67), Column(0xf6, 0x17, 0x04, 0x95));
  }

  /** Round 9 of appendix C.1. */
  lemma Round9(ks: seq<Word>)
    requires Listed(ks)
    ensures Round(State(Column(0xfd, 0xe3, 0xba, 0xd2), Column(0x05, 0xe5, 0xd0, 0xd7),
      Column(0x35, 0x47, 0x96, 0x4e), Column(0xf1, 0xfe, 0x37, 0xf1)), ks, 9) ==
      State(Column(0xbd, 0x6e, 0x7c, 0x3d), Column(0xf2, 0xb5, 0x77, 0x9e),
      Column(0x0b, 0x61, 0x21, 0x6e), Column(0x8b, 0x10, 0xb6, 0x89))
  {
    SubBytes9();
    assert ShiftRows(State(Column(0x54, 0x11, 0xf4, 0xb5), Column(0x6b, 0xd9, 0x70, 0x0e),
      Column(0x96, 0xa0, 0x90, 0x2f), Column(0xa1, 0xbb, 0x9a, 0xa1))) ==
      State(Column(0x54, 0xd9, 0x90, 0xa1), Column(0x6b, 0xa0, 0x9a, 0xb5),
      Column(0x96, 0xbb, 0xf4, 0x0e), Column(0xa1, 0x11, 0x70, 0x2f));
  }

  /** The last round, without MixColumns. */
  lemma LastRound(ks: seq<Word>)
    requires Listed(ks)
    ensures AddRoundKey(SubShift(State(Column(0xbd, 0x6e, 0x7c, 0x3d), Column(0xf2, 0xb5, 0x77, 0x9e),
      Column(0x0b, 0x61, 0x21, 0x6e), Column(0x8b, 0x10, 0xb6, 0x89))), ks, 10) ==
      State(Column(0x69, 0xc4, 0xe0, 0xd8), Column(0x6a, 0x7b, 0x04, 0x30),
      Column(0xd8, 0xcd, 0xb7, 0x80), Column(0x70, 0xb4, 0xc5, 0x5a))
  {
    SubBytes10();
    assert ShiftRows(State(Column(0x7a, 0x9f, 0x10, 0x27), Column(0x89, 0xd5, 0xf5, 0x0b),
      Column(0x2b, 0xef, 0xfd, 0x9f), Column(0x3d, 0xca, 0x4e, 0xa7))) ==
      State(Column(0x7a, 0xd5, 0xfd, 0xa7), Column(0x89, 0xef, 0x4e, 0x27),
      Column(0x2b, 0xca, 0x10, 0x0b), Column(0x3d, 0x9f, 0xf5, 0x9f));
  }

  /** Rounds 1 to 3 under the listed schedule. */
  lemma RoundsListed3(ks: seq<Word>, s0: State)
    requires Listed(ks) && s0 == State(Column(0x00, 0x10, 0x20, 0x30), Column(0x40, 0x50, 0x60, 0x70),
        Column(0x80, 0x90, 0xa0, 0xb0), Column(0xc0, 0xd0, 0xe0, 0xf0))
    ensures Rounds(s0, ks, 3) ==
      State(Column(0xfa, 0x63, 0x6a, 0x28), Column(0x25, 0xb3, 0x39, 0xc9),
      Column(0x40, 0x66, 0x8a, 0x31), Column(0x57, 0x24, 0x4d, 0x17))
  {
    RoundsStep(s0, ks, 1);
    Round1(ks);
    RoundsStep(s0, ks, 2);
    Round2(ks);
    RoundsStep(s0, ks, 3);
    Round3(ks);
  }

  /** Rounds 1 to 6 under the listed schedule. */
  lemma RoundsListed6(ks: seq<Word>, s0: State)
    requires Listed(ks) && s0 == State(Column(0x00, 0x10, 0x20, 0x30), Column(0x40, 0x50, 0x60, 0x70),
        Column(0x80, 0x90, 0xa0, 0xb0), Column(0xc0, 0xd0, 0xe0, 0xf0))
    ensures Rounds(s0, ks, 6) ==
      State(Column(0xc6, 0x2f, 0xe1, 0x09), Column(0xf7, 0x5e, 0xed, 0xc3),
      Column(0xcc, 0x79, 0x39, 0x5d), Column(0x84, 0xf9, 0xcf, 0x5d))
  {
    RoundsListed3(ks, s0);
    RoundsStep(s0, ks, 4);
    Round4(ks);
    RoundsStep(s0, ks, 5);
    Round5(ks);
    RoundsStep(s0, ks, 6);
    Round6(ks);
  }

  /** Rounds 1 to 9 under the listed schedule. */
  lemma RoundsListed9(ks: seq<Word>, s0: State)
    requires Listed(ks) && s0 == State(Column(0x00, 0x10, 0x20, 0x30), Column(0x40, 0x50, 0x60, 0x70),
        Column(0x80, 0x90, 0xa0, 0xb0), Column(0xc0, 0xd0, 0xe0, 0xf0))
    ensures Rounds(s0, ks, 9) ==
      State(Column(0xbd, 0x6e, 0x7c, 0x3d), Column(0xf2, 0xb5, 0x77, 0x9e),
      Column(0x0b, 0x61, 0x21, 0x6e), Column(0x8b, 0x10, 0xb6, 0x89))
  {
    RoundsListed6(ks, s0);
    RoundsStep(s0, ks, 7);
    Round7(ks);
    RoundsStep(s0, ks, 8);
    Round8(ks);
    RoundsStep(s0, ks, 9);
    Round9(ks);
  }

  /** AddRoundKey(0) on the plaintext's state. */
  lemma FirstKey(ks: seq<Word>)
    requires Listed(ks)
    ensures AddRoundKey(State(Column(0x00, 0x11, 0x22, 0x33), Column(0x44, 0x55, 0x66, 0x77),
      Column(0x88, 0x99, 0xaa, 0xbb), Column(0xcc, 0xdd, 0xee, 0xff)), ks, 0) ==
      State(Column(0x00, 0x10, 0x20, 0x30), Column(0x40, 0x50, 0x60, 0x70),
      Column(0x80, 0x90, 0xa0, 0xb0), Column(0xc0, 0xd0, 0xe0, 0xf0))
  {
  }

  /** cipherBlock under the listed schedule, on the states of PLAIN and CIPHER. */
  lemma CipherListed(ks: seq<Word>, s: State)
    requires Listed(ks) && s == State(Column(0x00, 0x11, 0x22, 0x33), Column(0x44, 0x55, 0x66, 0x77),
        Column(0x88, 0x99, 0xaa, 0xbb), Column(0xcc, 0xdd, 0xee, 0xff))
    ensures Cipher(s, ks, 10) ==
      State(Column(0x69, 0xc4, 0xe0, 0xd8), Column(0x6a, 0x7b, 0x04, 0x30),
      Column(0xd8, 0xcd, 0xb7, 0x80), Column(0x70, 0xb4, 0xc5, 0x5a))
  {
    FirstKey(ks);
    RoundsListed9(ks, AddRoundKey(s, ks, 0));
    LastRound(ks);
  }

  /**
   * cipherBlock with the schedule keyExpansion makes of KEY enciphers PLAIN
   * to CIPHER, and decipherBlock takes CIPHER back to PLAIN.
   */
  lemma AesKnownAnswer()
    ensures MS.Encrypt(KeySchedule(KEY, 4, 44), 10, PLAIN) == CIPHER
    ensures MS.Decrypt(KeySchedule(KEY, 4, 44), 10, CIPHER) == PLAIN
  {
    var ks := KeySchedule(KEY, 4, 44);
    KeyScheduleListed();
    CipherListed(ks, FromCells(PLAIN));
    assert ToCells(State(Column(0x69, 0xc4, 0xe0, 0xd8), Column(0x6a, 0x7b, 0x04, 0x30),
        Column(0xd8, 0xcd, 0xb7, 0x80), Column(0x70, 0xb4, 0xc5, 0x5a))) == CIPHER;
    MS.DecryptEncrypt(ks, 10, PLAIN);
  }
}
