/** Hexadecimal text of byte strings: `bytes.hex` and `bytes.fromhex`. */
module HexText {
  import opened Common

  type nibble = x: int | 0 <= x < 16

  function Digit(n: nibble): (c: char) {
    "0123456789abcdef"[n]
  }

  /** The value of a hexadecimal digit of either case. */
  function DigitValue(c: char): (r: Option<nibble>) {
    if '0' <= c <= '9' then Some(c as int - '0' as int)
    else if 'a' <= c <= 'f' then Some(c as int - 'a' as int + 10)
    else if 'A' <= c <= 'F' then Some(c as int - 'A' as int + 10)
    else None
  }

  /** Characters `bytes.fromhex` skips between two bytes. */
  predicate IsSpace(c: char) {
    c == ' ' || c == '\t' || c == '\n' || c == '\r' || c == 11 as char || c == 12 as char
  }

  /** `bytes.hex`: two lower-case digits a byte. */
  function Hex(data: bytes): (s: string)
    ensures |s| == 2 * |data|
  {
    if data == [] then "" else [Digit(data[0] / 16), Digit(data[0] % 16)] + Hex(data[1..])
  }

  /** `bytes.fromhex`; None is its ValueError. */
  function FromHex(s: string): (r: Option<bytes>) {
    if s == "" then Some([])
    else if IsSpace(s[0]) then FromHex(s[1..])
    else if |s| == 1 || DigitValue(s[0]).None? || DigitValue(s[1]).None? then None
    else
      match FromHex(s[2..])
      case None => None
      case Some(rest) => Some([16 * DigitValue(s[0]).value + DigitValue(s[1]).value] + rest)
  }

  lemma DigitRoundTrip(n: nibble)
    ensures DigitValue(Digit(n)) == Some(n) && !IsSpace(Digit(n))
  {
  }

  /** Encoding the text of a value gives the value back. */
  lemma {:induction false} HexRoundTrip(data: bytes)
    ensures FromHex(Hex(data)) == Some(data)
  {
    if data != [] {
      DigitRoundTrip(data[0] / 16);
      DigitRoundTrip(data[0] % 16);
      HexRoundTrip(data[1..]);
      assert data == [16 * (data[0] / 16) + data[0] % 16] + data[1..];
      assert Hex(data)[2..] == Hex(data[1..]);
    }
  }

  /** A lower-case hexadecimal digit. */
  function HexChar(n: nibble): (c: char) {
    if n < 10 then ('0' as int + n) as char else ('a' as int + n - 10) as char
  }

  lemma DigitIs(n: nibble)
    ensures Digit(n) == HexChar(n)
  {
  }

  /** The text is two lower-case digits for each byte, the upper half first. */
  lemma {:induction false} HexIs(data: bytes, i: nat)
    requires i < |data|
    ensures Hex(data)[2 * i] == HexChar(data[i] / 16) && Hex(data)[2 * i + 1] == HexChar(data[i] % 16)
    decreases i
  {
    DigitIs(data[i] / 16);
    DigitIs(data[i] % 16);
    if i > 0 {
      HexIs(data[1..], i - 1);
      assert Hex(data)[2..] == Hex(data[1..]);
    }
  }

  // ---- Which texts are accepted -----------------------------------------------------------------

  /** A hexadecimal digit, of either case. */
  predicate IsDigit(c: char) {
    '0' <= c <= '9' || 'a' <= c <= 'f' || 'A' <= c <= 'F'
  }

  function Worth(c: char): nibble
    requires IsDigit(c)
  {
    if c <= '9' then c as int - 48 else if c <= 'F' then c as int - 55 else c as int - 87
  }

  lemma DigitValueIs(c: char)
    ensures DigitValue(c) == (if IsDigit(c) then Some(Worth(c)) else None)
    ensures IsSpace(c) <==> c as int in {9, 10, 11, 12, 13, 32}
    ensures IsSpace(c) ==> !IsDigit(c)
  {
  }

  predicate AreDigits(s: string) {
    forall i :: 0 <= i < |s| ==> IsDigit(s[i])
  }

  /** The bytes are what each two digits say. */
  predicate SaidBy(s: string, data: bytes) {
    |s| == 2 * |data| && AreDigits(s) && forall i :: 0 <= i < |data| ==> data[i] == 16 * Worth(s[2 * i]) + Worth(s[2 * i + 1])
  }

  lemma FromHexStep(s: string)
    requires |s| >= 2 && !IsSpace(s[0]) && !IsSpace(s[1])
    ensures FromHex(s)
         == if !IsDigit(s[0]) || !IsDigit(s[1]) || FromHex(s[2..]).None? then None
            else Some([16 * Worth(s[0]) + Worth(s[1])] + FromHex(s[2..]).value)
  {
    DigitValueIs(s[0]);
    DigitValueIs(s[1]);
  }

  lemma SaidByMore(s: string, data: bytes)
    requires |s| >= 2 && IsDigit(s[0]) && IsDigit(s[1])
    ensures AreDigits(s) <==> AreDigits(s[2..])
    ensures SaidBy(s[2..], data) ==> SaidBy(s, [16 * Worth(s[0]) + Worth(s[1])] + data)
  {
    var rest, all: bytes := s[2..], [16 * Worth(s[0]) + Worth(s[1])] + data;
    forall i | 2 <= i < |s|
      ensures s[i] == rest[i - 2]
    {
    }
    if AreDigits(s) {
      forall i | 0 <= i < |rest|
        ensures IsDigit(rest[i])
      {
        assert rest[i] == s[i + 2];
      }
    }
    if SaidBy(rest, data) {
      forall i | 0 < i < |all|
        ensures all[i] == 16 * Worth(s[2 * i]) + Worth(s[2 * i + 1])
      {
        assert s[2 * i] == rest[2 * (i - 1)] && s[2 * i + 1] == rest[2 * (i - 1) + 1];
      }
    }
  }

  /** A text without spaces is accepted exactly if it is digits of either case, two for each byte. */
  lemma {:induction false} FromHexExactly(s: string)
    requires forall i :: 0 <= i < |s| ==> !IsSpace(s[i])
    ensures FromHex(s).Some? <==> |s| % 2 == 0 && AreDigits(s)
    ensures FromHex(s).Some? ==> SaidBy(s, FromHex(s).value)
    decreases |s|
  {
    if |s| >= 2 {
      hide FromHex, SaidBy, IsDigit, IsSpace;
      FromHexExactly(s[2..]);
      FromHexStep(s);
      if IsDigit(s[0]) && IsDigit(s[1]) {
        SaidByMore(s, if FromHex(s[2..]).Some? then FromHex(s[2..]).value else []);
      }
    }
  }

  /** Spaces before a byte are skipped. */
  lemma SpacesAreSkipped(c: char, s: string)
    requires c as int in {9, 10, 11, 12, 13, 32}
    ensures FromHex([c] + s) == FromHex(s)
  {
    DigitValueIs(c);
    assert ([c] + s)[1..] == s;
  }
}
