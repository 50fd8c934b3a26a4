/** The whole of radiotap parsing: header checks, bitmap, and the run over its events. */
module RadiotapWhole {
  import opened Common
  import opened Numbers
  import opened Present
  import opened PresentLaws
  import opened Radiotap
  import opened RadiotapLaws

  // ---- The header ----------------------------------------------------------------------------

  /** Version and padding are zero, and the declared length is within the packet. */
  predicate Headed(packet: bytes) {
    |packet| >= 8 && packet[0] == 0 && packet[1] == 0 && U16(packet, 2) <= |packet|
  }

  /** Another bitmap word follows word `w` of the packet. */
  predicate Extended(packet: bytes, w: nat) {
    4 * w + 4 <= |packet| && packet[4 * w + 3] >= 128
  }

  /** The bitmap is the words from the second one of the packet up to the first that is not extended. */
  ghost predicate BitmapEndsAt(packet: bytes, words: nat) {
    2 <= words && 4 * words <= |packet| && forall w :: 1 <= w < words ==> (Extended(packet, w) <==> w + 1 < words)
  }

  lemma TopBit(at: bytes, o: nat)
    requires o + 4 <= |at|
    ensures TestBit(LittleEndian(at[o..o + 4]), 31) <==> at[o + 3] >= 128
  {
    LittleFour(at, o);
    TestBitIs(U32(at, o), 31);
    Pow31();
    var low := at[o] as int + 0x100 * at[o + 1] as int + 0x1_0000 * at[o + 2] as int;
    TopOfFour(low, at[o + 3]);
  }

  lemma Pow31()
    ensures Pow2(31) == 0x8000_0000
  {
    assert Pow2(8) == 0x100;
    assert Pow2(16) == 0x1_0000;
    assert Pow2(24) == 0x100_0000;
  }

  lemma TopOfFour(low: nat, b: byte)
    requires low < 0x100_0000
    ensures (low + 0x100_0000 * b as int) / 0x8000_0000 % 2 == 1 <==> b >= 128
  {
    if b >= 128 {
      assert low + 0x100_0000 * b as int == 0x8000_0000 + (low + 0x100_0000 * (b as int - 128));
    }
  }

  lemma {:induction false} PresentEndIs(packet: bytes, w: nat, words: nat)
    requires BitmapEndsAt(packet, words) && 2 <= w <= words
    ensures PresentEnd(packet, 4 * w, LittleEndian(packet[4 * w - 4..4 * w])) == Ok(4 * words)
    decreases words - w
  {
    hide TestBit, LittleEndian;
    TopBit(packet, 4 * w - 4);
    assert Extended(packet, w - 1) <==> w < words;
    if w < words {
      PresentEndIs(packet, w + 1, words);
    }
  }

  lemma PresentEndEnds(packet: bytes) returns (words: nat)
    requires |packet| >= 8 && PresentEnd(packet, 8, LittleEndian(packet[4..8])).Ok?
    ensures PresentEnd(packet, 8, LittleEndian(packet[4..8])) == Ok(4 * words) && BitmapEndsAt(packet, words)
  {
    hide TestBit, LittleEndian;
    var end := PresentEnd(packet, 8, LittleEndian(packet[4..8])).value;
    words := end / 4;
    forall w | 1 <= w < words
      ensures Extended(packet, w) <==> w + 1 < words
    {
      BitmapEndsAtFirstUnextendedWord(packet, 8, 4 * w);
      TopBit(packet, 4 * w);
    }
  }

  // ---- The whole ----------------------------------------------------------------------------------

  /** The run stops behind the first event that ends it, or behind the last one. */
  ghost predicate RunsUpTo(t: Tables, packet: bytes, events: seq<Event>, start: State, n: nat) {
    && n <= |events| && |packet| >= 4
    && (forall j :: 0 <= j < n - 1 ==> !Ends(t, packet, events, start, U16(packet, 2), j))
    && (n < |events| ==> n > 0 && Ends(t, packet, events, start, U16(packet, 2), n - 1))
  }

  /**
   Without a header the result is length 0 and an empty dictionary in either mode. With one it is the declared length and
   what the run over the events of the bitmap puts out, or its exception; a bitmap that does not end is a StructError.
   */
  lemma ParseIs(t: Tables, packet: bytes, asList: bool) returns (words: nat, n: nat)
    ensures !Headed(packet) ==> Parse(t, packet, asList) == Ok((0, AsDict(map[])))
    ensures Headed(packet) && (forall e: nat :: !BitmapEndsAt(packet, e)) ==> Parse(t, packet, asList) == Err(StructError)
    ensures Headed(packet) && (exists e: nat :: BitmapEndsAt(packet, e)) ==>
              && BitmapEndsAt(packet, words)
              && var events := Events(Words(packet[4..4 * words]));
                 var start := State(4 * words, if asList then AsList([]) else AsDict(map[]));
                 && RunsUpTo(t, packet, events, start, n)
                 && Parse(t, packet, asList)
                    == match After(t, packet, events, start, n)
                       case Err(e) => Err(e)
                       case Ok(s) => Ok((U16(packet, 2), s.out))
  {
    hide TestBit, LittleEndian, Events, Words, After, Processed;
    words, n := 2, 0;
    HeaderIs(packet);
    if Headed(packet) {
      var end := PresentEnd(packet, 8, LittleEndian(packet[4..8]));
      if exists e: nat :: BitmapEndsAt(packet, e) {
        var e: nat :| BitmapEndsAt(packet, e);
        PresentEndIs(packet, 2, e);
        words := e;
        var events := Events(Words(packet[4..4 * words]));
        var start := State(4 * words, if asList then AsList([]) else AsDict(map[]));
        n := Processed(t, packet, events, start, U16(packet, 2), 0);
        StopsAtFirstEnd(t, packet, events, start, U16(packet, 2), 0);
      } else {
        if end.Ok? {
          var e := PresentEndEnds(packet);
        }
        EndFails(packet, 8, LittleEndian(packet[4..8]));
      }
    }
  }

  lemma HeaderIs(packet: bytes)
    ensures HasHeader(packet) <==> Headed(packet)
    ensures Headed(packet) ==> DeclaredLength(packet) == U16(packet, 2)
  {
    if |packet| >= 8 {
      LittleTwo(packet, 2);
    }
  }

  lemma {:induction false} EndFails(packet: bytes, offset: nat, present: nat)
    requires offset <= |packet|
    ensures PresentEnd(packet, offset, present).Err? ==> PresentEnd(packet, offset, present) == Err(StructError)
    decreases |packet| - offset
  {
    if TestBit(present, EXTENDED_BIT) && offset + 4 <= |packet| {
      EndFails(packet, offset + 4, LittleEndian(packet[offset..offset + 4]));
    }
  }
}
