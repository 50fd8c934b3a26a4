/** The chained presence bitmap of a radiotap header and the events it stands for. */
module Present {
  import opened Common

  /** What the bitmap says next: switch namespace, or a field with this id is present. */
  datatype Event = Switch(vendor: bool) | Field(vendor: bool, id: nat)

  const RADIOTAP_BIT := 29
  const VENDOR_BIT := 30
  const EXTENDED_BIT := 31

  function Words(bitmap: bytes): (r: seq<nat>)
    requires |bitmap| % 4 == 0
    ensures |r| == |bitmap| / 4
    decreases |bitmap|
  {
    if bitmap == [] then [] else [LittleEndian(bitmap[..4])] + Words(bitmap[4..])
  }

  // ---- Closed form --------------------------------------------------------------------

  predicate Resets(word: nat) {
    TestBit(word, RADIOTAP_BIT) || TestBit(word, VENDOR_BIT)
  }

  /** Words between word `w` and the last one before it that switched namespace. */
  function Since(words: seq<nat>, w: nat): (n: nat)
    requires w <= |words|
  {
    if w == 0 || Resets(words[w - 1]) then 0 else Since(words, w - 1) + 1
  }

  /** Whether the latest switch before word `w` was to the vendor namespace. */
  function VendorBefore(words: seq<nat>, w: nat): bool
    requires w <= |words|
  {
    w > 0 && (TestBit(words[w - 1], VENDOR_BIT)
              || (!TestBit(words[w - 1], RADIOTAP_BIT) && VendorBefore(words, w - 1)))
  }

  /** The event of bit `i` of word `w`, if it is set and not the extension bit. */
  function BitEvent(words: seq<nat>, w: nat, i: nat): (r: seq<Event>)
    requires w < |words|
  {
    if !TestBit(words[w], i) || i == EXTENDED_BIT then []
    else if i == RADIOTAP_BIT then [Switch(false)]
    else if i == VENDOR_BIT then [Switch(true)]
    else [Field(VendorBefore(words, w), 32 * Since(words, w) + i)]
  }

  /** The events of all words before `w` and of the first `i` bits of word `w`. */
  function EventsUpTo(words: seq<nat>, w: nat, i: nat): (r: seq<Event>)
    requires if w == |words| then i == 0 else w < |words| && i <= 32
    decreases w, i
  {
    if i > 0 then EventsUpTo(words, w, i - 1) + BitEvent(words, w, i - 1)
    else if w > 0 then EventsUpTo(words, w - 1, 32)
    else []
  }

  function Events(words: seq<nat>): (r: seq<Event>) {
    EventsUpTo(words, |words|, 0)
  }

  lemma SliceAfter(s: bytes, n: nat, lo: nat, hi: nat)
    requires lo <= hi && n + hi <= |s|
    ensures s[n..][lo..hi] == s[n + lo..n + hi]
  {
  }

  lemma WordsStep(bitmap: bytes, w: nat)
    requires |bitmap| % 4 == 0 && 4 * w + 4 < |bitmap|
    ensures Words(bitmap)[w + 1] == Words(bitmap[4..])[w]
  {
    assert Words(bitmap) == [LittleEndian(bitmap[..4])] + Words(bitmap[4..]);
  }

  lemma {:induction false} WordsAt(bitmap: bytes, w: nat)
    requires |bitmap| % 4 == 0 && 4 * w < |bitmap|
    ensures Words(bitmap)[w] == LittleEndian(bitmap[4 * w..4 * w + 4])
    decreases w
  {
    if w > 0 {
      WordsAt(bitmap[4..], w - 1);
      WordsStep(bitmap, w - 1);
      SliceAfter(bitmap, 4, 4 * (w - 1), 4 * (w - 1) + 4);
    }
  }

  lemma WordDone(words: seq<nat>, w: nat)
    requires w < |words|
    ensures EventsUpTo(words, w + 1, 0) == EventsUpTo(words, w, 32)
    ensures Since(words, w + 1) == if Resets(words[w]) then 0 else Since(words, w) + 1
    ensures VendorBefore(words, w + 1)
         == (TestBit(words[w], VENDOR_BIT) || (!TestBit(words[w], RADIOTAP_BIT) && VendorBefore(words, w)))
  {
  }

  lemma BitDone(words: seq<nat>, w: nat, i: nat)
    requires w < |words| && i < 32
    ensures EventsUpTo(words, w, i + 1)
         == if !TestBit(words[w], i) || i == EXTENDED_BIT then EventsUpTo(words, w, i)
            else EventsUpTo(words, w, i)
                 + [if i == RADIOTAP_BIT then Switch(false) else if i == VENDOR_BIT then Switch(true)
                    else Field(VendorBefore(words, w), 32 * Since(words, w) + i)]
  {
    assert EventsUpTo(words, w, i) + [] == EventsUpTo(words, w, i);
  }

  /** Whether the first `i` bits of a word ask for a reset of the count. */
  predicate ResetSeen(word: nat, i: nat) {
    (i > RADIOTAP_BIT && TestBit(word, RADIOTAP_BIT)) || (i > VENDOR_BIT && TestBit(word, VENDOR_BIT))
  }

  /** Whether the namespace is the vendor's after the first `i` bits of word `w`. */
  predicate VendorAfter(words: seq<nat>, w: nat, i: nat)
    requires if w == |words| then i == 0 else w < |words| && i <= 32
  {
    if i > VENDOR_BIT && TestBit(words[w], VENDOR_BIT) then true
    else if i > RADIOTAP_BIT && TestBit(words[w], RADIOTAP_BIT) then false
    else VendorBefore(words, w)
  }

  /** All words before word `w` are done. */
  ghost predicate Scanned(words: seq<nat>, w: nat, count: int, vendor: bool, events: seq<Event>) {
    w <= |words| && count == 32 * Since(words, w) && vendor == VendorBefore(words, w) && events == EventsUpTo(words, w, 0)
  }

  /** So are the first `i` bits of word `w`. */
  ghost predicate Scanning(words: seq<nat>, w: nat, i: nat, resetCount: bool, vendor: bool, events: seq<Event>) {
    && w < |words| && i <= 32 && resetCount == ResetSeen(words[w], i)
    && vendor == VendorAfter(words, w, i) && events == EventsUpTo(words, w, i)
  }

  lemma ScanStarts(words: seq<nat>, w: nat, count: int, vendor: bool, events: seq<Event>)
    requires Scanned(words, w, count, vendor, events) && w < |words|
    ensures Scanning(words, w, 0, false, vendor, events)
  {
  }

  /** One bit more. */
  lemma ScanGoesOn(words: seq<nat>, w: nat, i: nat, count: int, resetCount: bool, vendor: bool, events: seq<Event>)
    requires Scanning(words, w, i, resetCount, vendor, events) && i < 32 && count == 32 * Since(words, w)
    ensures if !TestBit(words[w], i) || i == EXTENDED_BIT then Scanning(words, w, i + 1, resetCount, vendor, events)
            else if i == RADIOTAP_BIT then Scanning(words, w, i + 1, true, false, events + [Switch(false)])
            else if i == VENDOR_BIT then Scanning(words, w, i + 1, true, true, events + [Switch(true)])
            else Scanning(words, w, i + 1, resetCount, vendor, events + [Field(vendor, count + i)])
  {
    BitDone(words, w, i);
  }

  lemma ScanEnds(words: seq<nat>, w: nat, count: int, resetCount: bool, vendor: bool, events: seq<Event>)
    requires Scanning(words, w, 32, resetCount, vendor, events) && count == 32 * Since(words, w)
    ensures Scanned(words, w + 1, if resetCount then 0 else count + 32, vendor, events)
  {
    WordDone(words, w);
  }

  /** The generator `_present_bits`, collecting what it yields. */
  method PresentBits(bitmap: bytes) returns (events: seq<Event>)
    requires |bitmap| % 4 == 0
    ensures events == Events(Words(bitmap))
  {
    events := [];
    var offset, count, resetCount, vendor := 0, 0, false, false;
    ghost var words, w := Words(bitmap), 0;
    assert Scanned(words, 0, 0, false, []);
    hide EventsUpTo, TestBit, LittleEndian, Words, Scanning;
    while offset < |bitmap|
      invariant w <= |words| && offset == 4 * w
      invariant !resetCount && Scanned(words, w, count, vendor, events)
    {
      WordsAt(bitmap, w);
      var present := LittleEndian(bitmap[offset..offset + 4]);
      ScanStarts(words, w, count, vendor, events);
      for i := 0 to 32
        invariant Scanning(words, w, i, resetCount, vendor, events)
      {
        ScanGoesOn(words, w, i, count, resetCount, vendor, events);
        if TestBit(present, i) {
          if i == RADIOTAP_BIT {
            vendor, resetCount := false, true;
            events := events + [Switch(false)];
          } else if i == VENDOR_BIT {
            vendor, resetCount := true, true;
            events := events + [Switch(true)];
          } else if i != EXTENDED_BIT {
            events := events + [Field(vendor, count + i)];
          }
        }
      }
      ScanEnds(words, w, count, resetCount, vendor, events);
      if resetCount {
        count, resetCount := 0, false;
      } else {
        count := count + 32;
      }
      offset, w := offset + 4, w + 1;
    }
  }
}
