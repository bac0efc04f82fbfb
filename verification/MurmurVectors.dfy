/** Published values of the 32-bit Murmur3 hash, step by step. */
module MurmurVectors {
  import opened MurmurSpec

  lemma OfNothing()
    ensures Sum([], 0) == 0 && Sum([], 1) == 0x514e28b7
  {
  }

  lemma Lengths()
    ensures Low32(3) == 3 && Low32(13) == 13
  {
  }

  /** The text "abc", seed 0: three bytes behind no block. */
  lemma OfAbc()
    ensures Sum([97, 98, 99], 0) == 0xb3dd93fa
  {
    hide Scrambled, Finished, Low32;
    Lengths();
    AbcSteps();
    var d: seq<Byte> := [97, 98, 99];
    assert Rest(d) == d && Blocks(0, d) == 0;
  }

  lemma AbcSteps()
    ensures Word(97, 98, 99, 0) == 0x00636261 && Scrambled(0x00636261) == 0xa7349db7
    ensures Finished(0xa7349db4) == 0xb3dd93fa
  {
  }

  /** The text "Hello, world!" with a seed: three blocks and one byte. */
  lemma OfHello()
    ensures Sum([72, 101, 108, 108, 111, 44, 32, 119, 111, 114, 108, 100, 33], 0x9747b28c) == 0x24884cba
  {
    hide Mixed, Scrambled, Finished, Low32, Word, Rest, Blocks;
    Lengths();
    HelloBlocks();
    HelloEnd();
    HelloRest();
  }

  lemma HelloBlocks()
    ensures Blocks(0x9747b28c, [72, 101, 108, 108, 111, 44, 32, 119, 111, 114, 108, 100, 33]) == 0x3bd692af
  {
    hide Mixed, Word;
    HelloWords();
    HelloMixed1();
    HelloMixed2();
    HelloMixed3();
    var d: seq<Byte> := [72, 101, 108, 108, 111, 44, 32, 119, 111, 114, 108, 100, 33];
    assert d[4..] == [111, 44, 32, 119, 111, 114, 108, 100, 33];
    assert d[8..] == [111, 114, 108, 100, 33] && d[12..] == [33];
    assert d[4..][4..] == d[8..] && d[8..][4..] == d[12..];
    assert Blocks(0x3bd692af, d[12..]) == 0x3bd692af;
    assert Blocks(0x71c6b43c, d[8..]) == 0x3bd692af;
    assert Blocks(0xdae4c92e, d[4..]) == 0x3bd692af;
  }

  lemma HelloWords()
    ensures Word(72, 101, 108, 108) == 0x6c6c6548
    ensures Word(111, 44, 32, 119) == 0x77202c6f
    ensures Word(111, 114, 108, 100) == 0x646c726f
    ensures Word(33, 0, 0, 0) == 0x00000021
  {
  }

  lemma HelloMixed1()
    ensures Mixed(0x9747b28c, 0x6c6c6548) == 0xdae4c92e
  {
  }

  lemma HelloMixed2()
    ensures Mixed(0xdae4c92e, 0x77202c6f) == 0x71c6b43c
  {
  }

  lemma HelloMixed3()
    ensures Mixed(0x71c6b43c, 0x646c726f) == 0x3bd692af
  {
  }

  lemma HelloRest()
    ensures Rest([72, 101, 108, 108, 111, 44, 32, 119, 111, 114, 108, 100, 33]) == [33]
    ensures WithRest(0x3bd692af, [33]) == 0x9788c38c
  {
    hide Scrambled, Word;
    HelloWords();
    HelloEnd();
    var d: seq<Byte> := [72, 101, 108, 108, 111, 44, 32, 119, 111, 114, 108, 100, 33];
    assert d[12..] == [33];
  }

  lemma HelloEnd()
    ensures Scrambled(0x00000021) == 0xac5e5123 && Finished(0x9788c381) == 0x24884cba
  {
  }
}
