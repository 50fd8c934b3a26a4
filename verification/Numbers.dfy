/** Little-endian numbers of fixed width, written out. */
module Numbers {
  import opened Common

  /** Two, four and eight bytes, least significant first. */
  function U16(at: bytes, o: nat): nat
    requires o + 2 <= |at|
  {
    at[o] as int + 0x100 * (at[o + 1] as int)
  }

  function U32(at: bytes, o: nat): nat
    requires o + 4 <= |at|
  {
    U16(at, o) + 0x1_0000 * U16(at, o + 2)
  }

  function U64(at: bytes, o: nat): nat
    requires o + 8 <= |at|
  {
    U32(at, o) + 0x1_0000_0000 * U32(at, o + 4)
  }

  lemma LittleStep(at: bytes, o: nat, w: nat)
    requires o + w + 2 <= |at|
    ensures LittleEndian(at[o..o + w + 2]) == U16(at, o) + 0x1_0000 * LittleEndian(at[o + 2..o + w + 2])
  {
    var s := at[o..o + w + 2];
    assert s[1..][1..] == at[o + 2..o + w + 2];
    assert LittleEndian(s) == s[0] as int + 256 * LittleEndian(s[1..]);
    assert LittleEndian(s[1..]) == s[1..][0] as int + 256 * LittleEndian(s[1..][1..]);
  }

  lemma LittleTwo(at: bytes, o: nat)
    requires o + 2 <= |at|
    ensures LittleEndian(at[o..o + 2]) == U16(at, o)
  {
    LittleStep(at, o, 0);
    assert at[o + 2..o + 2] == [];
  }

  lemma LittleFour(at: bytes, o: nat)
    requires o + 4 <= |at|
    ensures LittleEndian(at[o..o + 4]) == U32(at, o)
  {
    LittleStep(at, o, 2);
    LittleTwo(at, o + 2);
  }

  lemma LittleEight(at: bytes, o: nat)
    requires o + 8 <= |at|
    ensures LittleEndian(at[o..o + 8]) == U64(at, o)
  {
    LittleStep(at, o, 6);
    LittleStep(at, o + 2, 4);
    LittleFour(at, o + 4);
  }
}
