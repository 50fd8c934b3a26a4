/** The textual form of hardware addresses. */
module MacText {
  import opened Common
  import opened HexText

  /** Two lower-case hexadecimal digits. */
  function Pair(b: byte): (s: string) {
    [Digit(b / 16), Digit(b % 16)]
  }

  /** The bytes as pairs of digits with colons between them. */
  function FormatMac(raw: bytes): (s: string)
    decreases |raw|, 0
  {
    if raw == [] then "" else Pair(raw[0]) + MacTail(raw[1..])
  }

  function MacTail(raw: bytes): (s: string)
    decreases |raw|, 1
  {
    if raw == [] then "" else ":" + FormatMac(raw)
  }

  /** The number a part of plain hexadecimal digits stands for; None is a ValueError. */
  function HexValue(part: string): (r: Option<nat>) {
    if part == "" || DigitValue(part[|part| - 1]).None? then None
    else if |part| == 1 then Some(DigitValue(part[0]).value)
    else
      match HexValue(part[..|part| - 1])
      case None => None
      case Some(n) => Some(16 * n + DigitValue(part[|part| - 1]).value)
  }

  /** Length of the part up to the first colon. */
  function PartLength(s: string): (n: nat)
    ensures n <= |s|
  {
    if s == "" || s[0] == ':' then 0 else 1 + PartLength(s[1..])
  }

  /** The bytes of the parts between colons; None where a part is no number or no byte. */
  function ParseParts(s: string): (r: Option<bytes>)
    decreases |s|
  {
    var n := PartLength(s);
    var head := HexValue(s[..n]);
    if head.None? || head.value >= 256 then None
    else if n == |s| then Some([head.value])
    else
      match ParseParts(s[n + 1..])
      case None => None
      case Some(rest) => Some([head.value] + rest)
  }

  /** The inner array takes exactly six bytes. */
  function ParseMac(s: string): (r: Option<bytes>) {
    match ParseParts(s)
    case None => None
    case Some(raw) => if |raw| == 6 then Some(raw) else None
  }

  /** The bytes of the text without its colons. */
  function AddrToBin(s: string): (r: Option<bytes>) {
    FromHexStrict(WithoutColons(s))
  }

  function WithoutColons(s: string): (r: string) {
    if s == "" then "" else (if s[0] == ':' then "" else [s[0]]) + WithoutColons(s[1..])
  }

  /** Like `bytes.fromhex` but no space is skipped. */
  function FromHexStrict(s: string): (r: Option<bytes>) {
    if s == "" then Some([])
    else if |s| == 1 || DigitValue(s[0]).None? || DigitValue(s[1]).None? then None
    else
      match FromHexStrict(s[2..])
      case None => None
      case Some(rest) => Some([16 * DigitValue(s[0]).value + DigitValue(s[1]).value] + rest)
  }

  lemma PairDigits(b: byte)
    ensures DigitValue(Digit(b / 16)) == Some(b / 16) && DigitValue(Digit(b % 16)) == Some(b % 16)
    ensures Digit(b / 16) != ':' && Digit(b % 16) != ':'
    ensures HexValue(Pair(b)) == Some(b)
  {
    DigitRoundTrip(b / 16);
    DigitRoundTrip(b % 16);
    var s := Pair(b);
    assert s[..1] == [s[0]];
    assert HexValue(s[..1]) == Some(b / 16);
  }

  lemma PartLengthOf(a: char, b: char, tail: string)
    requires a != ':' && b != ':' && (tail == "" || tail[0] == ':')
    ensures PartLength([a, b] + tail) == 2
  {
    var s, r := [a, b] + tail, [b] + tail;
    assert s[1..] == r && r[1..] == tail;
    assert PartLength(tail) == 0;
    assert PartLength(r) == 1;
  }

  lemma FirstPart(b: byte, tail: string)
    requires tail == "" || tail[0] == ':'
    ensures ParseParts(Pair(b) + tail)
         == if tail == "" then Some([b])
            else match ParseParts(tail[1..]) case None => None case Some(rest) => Some([b] + rest)
  {
    var s := Pair(b) + tail;
    PairDigits(b);
    PartLengthOf(Pair(b)[0], Pair(b)[1], tail);
    assert s[..2] == Pair(b);
    assert tail != "" ==> s[3..] == tail[1..];
  }

  /** The text of an address encodes back to its bytes. */
  lemma {:induction false} MacPartsRoundTrip(raw: bytes)
    requires raw != []
    ensures ParseParts(FormatMac(raw)) == Some(raw)
  {
    var rest := raw[1..];
    FirstPart(raw[0], MacTail(rest));
    assert raw == [raw[0]] + rest;
    assert rest == [] ==> raw == [raw[0]];
    if rest != [] {
      assert MacTail(rest)[1..] == FormatMac(rest);
      MacPartsRoundTrip(rest);
    }
  }

  lemma WithoutColonsPair(a: char, b: char, tail: string)
    requires a != ':' && b != ':'
    ensures WithoutColons([a, b] + tail) == [a, b] + WithoutColons(tail)
  {
    var r := [b] + tail;
    assert r[1..] == tail && ([a, b] + tail)[1..] == r;
    assert WithoutColons(r) == [b] + WithoutColons(tail);
  }

  lemma {:induction false} WithoutColonsIsHex(raw: bytes)
    ensures WithoutColons(FormatMac(raw)) == Hex(raw)
  {
    if raw != [] {
      PairDigits(raw[0]);
      var p, rest := Pair(raw[0]), raw[1..];
      WithoutColonsPair(p[0], p[1], MacTail(rest));
      WithoutColonsIsHex(rest);
      assert rest != [] ==> MacTail(rest)[1..] == FormatMac(rest);
      assert WithoutColons(MacTail(rest)) == Hex(rest);
    }
  }

  lemma {:induction false} HexStrictRoundTrip(raw: bytes)
    ensures FromHexStrict(Hex(raw)) == Some(raw)
  {
    if raw != [] {
      DigitRoundTrip(raw[0] / 16);
      DigitRoundTrip(raw[0] % 16);
      HexStrictRoundTrip(raw[1..]);
      assert raw == [16 * (raw[0] / 16) + raw[0] % 16] + raw[1..];
      assert Hex(raw)[2..] == Hex(raw[1..]);
    }
  }

  /** So does the text without its colons. */
  lemma AddrToBinRoundTrip(raw: bytes)
    ensures AddrToBin(FormatMac(raw)) == Some(raw)
  {
    WithoutColonsIsHex(raw);
    HexStrictRoundTrip(raw);
  }

  /** Six pairs of lower-case digits, with colons between them. */
  function AddressText(raw: bytes): (s: string)
    requires |raw| == 6
  {
    [HexChar(raw[0] / 16), HexChar(raw[0] % 16), ':', HexChar(raw[1] / 16), HexChar(raw[1] % 16), ':',
     HexChar(raw[2] / 16), HexChar(raw[2] % 16), ':', HexChar(raw[3] / 16), HexChar(raw[3] % 16), ':',
     HexChar(raw[4] / 16), HexChar(raw[4] % 16), ':', HexChar(raw[5] / 16), HexChar(raw[5] % 16)]
  }

  /** The text of an address, character by character. */
  lemma MacTextIs(raw: bytes)
    requires |raw| == 6
    ensures FormatMac(raw) == AddressText(raw)
  {
    hide FormatMac, MacTail, Digit, HexChar;
    FormatStep(raw);
    FormatStep(raw[1..]);
    FormatStep(raw[1..][1..]);
    FormatStep(raw[1..][1..][1..]);
    FormatStep(raw[1..][1..][1..][1..]);
    FormatStep(raw[1..][1..][1..][1..][1..]);
  }

  lemma FormatStep(raw: bytes)
    requires raw != []
    ensures FormatMac(raw)
         == [HexChar(raw[0] / 16), HexChar(raw[0] % 16)] + if |raw| == 1 then "" else [':'] + FormatMac(raw[1..])
  {
    DigitIs(raw[0] / 16);
    DigitIs(raw[0] % 16);
  }
}
