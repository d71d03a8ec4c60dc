/** Known values of the hash: one for every end case, one with two turns of the loop, and bytes above 7F. */
module HashVectors {
  import opened Bytes
  import opened KeyHash

  /** The parts of a hash: the main loop and the bytes left over. */
  lemma HashOf(s: seq<byte>)
    ensures s != [] ==>
              Hash(s) == ToWord32(Avalanche(MixTail(MixBlocks(StartValue(|s|), s), s[|s| / 4 * 4..])))
  {
  }

  lemma HashOfOne()
    ensures Hash(Ascii("a")) == 0x115E_A782
  {
    var s := Ascii("a");
    assert s == [0x61] && s[0..] == s;
    assert MixBlocks(StartValue(|s|), s) == 1;
    assert MixTail(1, s) == AddShr(ShlXor(0x62, 10, 0x62), 1);
    HashOf(s);
  }

  lemma HashOfTwo()
    ensures Hash(Ascii("ab")) == 0x516B_8B44
  {
    var s := Ascii("ab");
    assert s == [0x61, 0x62] && s[0..] == s;
    assert Get16(0x61, 0x62) == 0x6261;
    assert MixBlocks(StartValue(|s|), s) == 2;
    assert MixTail(2, s) == AddShr(ShlXor(0x6263, 11, 0x6263), 17);
    HashOf(s);
  }

  lemma HashOfThree()
    ensures Hash(Ascii("bcd")) == 0xFA47_4263
  {
    var s := Ascii("bcd");
    assert s == [0x62, 0x63, 0x64] && s[0..] == s;
    assert Get16(0x62, 0x63) == 0x6362 && Promote(0x64) == 0x64;
    assert MixBlocks(StartValue(|s|), s) == 3;
    assert MixTail(3, s) == AddShr(ShlXor(0x64, 18, ShlXor(0x6365, 16, 0x6365)), 11);
    HashOf(s);
  }

  /** A block and nothing left over. */
  lemma HashOfFour()
    ensures Hash(Ascii("Save")) == 0x2199_66C7
  {
    var s := Ascii("Save");
    var bits := MixPair(4, 0x6153, 0x6576);
    assert s == [0x53, 0x61, 0x76, 0x65] && s[4..] == [];
    assert Get16(0x53, 0x61) == 0x6153 && Get16(0x76, 0x65) == 0x6576;
    assert MixBlocks(4, s) == MixBlocks(bits, []) == bits;
    assert MixBlocks(StartValue(|s|), s) == bits;
    assert MixTail(bits, []) == bits;
    HashOf(s);
  }

  /** `char` is signed. */
  lemma HashOfHighByte()
    ensures Hash([0xE9]) == 0x69EA_06C0
  {
    var s: seq<byte> := [0xE9];
    assert s[0..] == s && Promote(0xE9) == 0xFFFF_FFE9;
    assert MixBlocks(StartValue(|s|), s) == 1;
    assert MixTail(1, s) == AddShr(ShlXor(0xFFFF_FFEA, 10, 0xFFFF_FFEA), 1);
    HashOf(s);
  }

  lemma HashOfThreeHigh()
    ensures Hash([0x61, 0x62, 0xE9]) == 0xB4DF_D4B5
  {
    var s: seq<byte> := [0x61, 0x62, 0xE9];
    assert s[0..] == s && Get16(0x61, 0x62) == 0x6261 && Promote(0xE9) == 0xFFFF_FFE9;
    assert MixBlocks(StartValue(|s|), s) == 3;
    assert MixTail(3, s) == AddShr(ShlXor(0xFFFF_FFE9, 18, ShlXor(0x6264, 16, 0x6264)), 11);
    HashOf(s);
  }

  /** Two blocks and one byte. */
  lemma HashOfNine()
    ensures Hash(Ascii("Apply all")) == 0x6990_C28E
  {
    var s := Ascii("Apply all");
    var b1 := MixPair(9, 0x7041, 0x6C70);
    var b2 := MixPair(b1, 0x2079, 0x6C61);
    assert s == [0x41, 0x70, 0x70, 0x6C, 0x79, 0x20, 0x61, 0x6C, 0x6C];
    assert s[4..] == [0x79, 0x20, 0x61, 0x6C, 0x6C] && s[4..][4..] == [0x6C] == s[8..];
    assert Get16(0x41, 0x70) == 0x7041 && Get16(0x70, 0x6C) == 0x6C70;
    assert Get16(0x79, 0x20) == 0x2079 && Get16(0x61, 0x6C) == 0x6C61;
    assert MixBlocks(b2, [0x6C]) == b2;
    assert MixBlocks(b1, s[4..]) == b2;
    assert MixBlocks(9, s) == b2;
    assert MixBlocks(StartValue(|s|), s) == b2;
    assert MixTail(b2, [0x6C]) == AddShr(ShlXor(b2 + 0x6C, 10, b2 + 0x6C), 1);
    HashOf(s);
  }
}
