/** The fields of the frame control word, from its two bytes. */
module WifiControl {
  import opened Common
  import opened Bits
  import opened BitOrder
  import opened FieldNames
  import opened WifiLaws
  import opened WifiBits
  import opened WifiFrames

  // ---- Slices of the word -------------------------------------------------------------------

  /** The integer of two bytes, the first one least significant. */
  function Word(lo: int, hi: int): int {
    lo + 256 * hi
  }

  lemma WordSlices(lo: byte, hi: byte)
    ensures Word(lo, hi) % 4 == lo % 4
    ensures Word(lo, hi) / 4 % 4 == lo / 4 % 4
    ensures Word(lo, hi) / 16 % 16 == lo / 16
    ensures Word(lo, hi) / 256 == hi && Word(lo, hi) % 16 == lo % 16
  {
    var q, r := lo / 4, lo % 4;
    assert Word(lo, hi) == 4 * (q + 64 * hi) + r;
    assert Word(lo, hi) / 4 == q + 64 * hi;
    assert (q + 64 * hi) % 4 == q % 4;
    var q', r' := lo / 16, lo % 16;
    assert Word(lo, hi) == 16 * (q' + 16 * hi) + r';
    assert Word(lo, hi) / 16 == q' + 16 * hi;
  }

  lemma WordParts(input: bytes)
    requires |input| >= 2
    ensures ControlWord(input) == Word(input[0], input[1])
  {
    var s := input[..2];
    assert s[1..] == [input[1]] && s[1..][1..] == [];
    assert LittleEndian(s[1..]) == input[1];
  }

  lemma ShiftNibble(x: nat)
    ensures ShiftRight(x, 4) == x / 16
  {
    ShiftRightTwo(x, 2);
    ShiftRightTwo(x / 4, 0);
    assert x / 4 / 4 == x / 16;
  }

  lemma LowTwo(x: nat)
    ensures LowBits(x, 2) == x % 4
  {
    assert LowBits(x, 2) == x % 2 + 2 * LowBits(x / 2, 1);
    assert LowBits(x / 2, 1) == x / 2 % 2 + 2 * LowBits(x / 2 / 2, 0);
  }

  lemma LowFour(x: nat)
    ensures LowBits(x, 4) == x % 16
  {
    assert LowBits(x, 4) == x % 2 + 2 * LowBits(x / 2, 3);
    assert LowBits(x / 2, 3) == x / 2 % 2 + 2 * LowBits(x / 2 / 2, 2);
    assert x / 2 / 2 == x / 4;
    LowTwo(x / 4);
  }

  // ---- The fields of the first byte -----------------------------------------------------------------

  lemma TypeOfFirst(input: bytes)
    requires |input| >= 2
    ensures TypeBits(input) == input[0] / 4 % 4
  {
    WordParts(input);
    WordSlices(input[0], input[1]);
    var w := ControlWord(input);
    ShiftRightTwo(w, 0);
    LowTwo(w / 4);
  }

  lemma SubtypeOfFirst(input: bytes)
    requires |input| >= 2
    ensures SubtypeBits(input) == input[0] / 16
  {
    WordParts(input);
    WordSlices(input[0], input[1]);
    var w := ControlWord(input);
    ShiftNibble(w);
    LowFour(w / 16);
  }

  lemma SubtypeRange(input: bytes)
    requires |input| >= 2
    ensures TypeBits(input) < 4 && SubtypeBits(input) < 16
  {
    TypeOfFirst(input);
    SubtypeOfFirst(input);
  }

  /** All of the frame control word. */
  lemma ControlIs(input: bytes)
    requires |input| >= 2 && ControlFields(input).Some?
    ensures ControlSays(ControlFields(input).value, input[0], input[1])
  {
    ControlWidth();
    ControlOfBytes(input[..2]);
  }

  // ---- The sequence control word --------------------------------------------------------------------------

  lemma {:induction false} LowBitsOfSmall(x: nat, n: nat)
    requires x < Pow2(n)
    ensures LowBits(x, n) == x
    decreases n
  {
    if n > 0 {
      LowBitsOfSmall(x / 2, n - 1);
    }
  }

  /** The sequence number is the sequence control word shifted right, as the other parser reads it. */
  lemma SequenceNumberIsShift(input: bytes)
    requires |input| >= 24 && SequenceFields(input).Some?
    ensures Says(SequenceFields(input).value, SequenceNumber, ShiftRight(LittleEndian(input[22..24]), 4))
  {
    var s := input[22..24];
    SequenceAgreesWithShiftAndMask(input);
    assert s[..2] == s;
    WordParts(s);
    ShiftNibble(LittleEndian(s));
    assert Pow2(4) == 16 && Pow2(8) == 256 && Pow2(12) == 4096;
    LowBitsOfSmall(LittleEndian(s) / 16, 12);
  }
}
