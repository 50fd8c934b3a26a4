/** Laws of the radiotap parser: where it stops, how fields are laid out, how its two outputs relate. */
module RadiotapLaws {
  import opened Common
  import opened Bits
  import opened Present
  import opened PresentLaws
  import opened Numbers
  import opened Radiotap
  import opened RadiotapFields

  // ---- Where the bitmap ends -----------------------------------------------------------

  /** The bitmap runs up to its first word without the extension bit, and no further. */
  lemma {:induction false} BitmapEndsAtFirstUnextendedWord(packet: bytes, offset: nat, a: nat)
    requires 4 <= offset <= |packet|
    requires var end := PresentEnd(packet, offset, LittleEndian(packet[offset - 4..offset]));
             end.Ok? && offset - 4 <= a < end.value && (a - offset) % 4 == 0
    ensures var end := PresentEnd(packet, offset, LittleEndian(packet[offset - 4..offset])).value;
            a + 4 <= end && (TestBit(LittleEndian(packet[a..a + 4]), EXTENDED_BIT) <==> a + 4 < end)
    decreases |packet| - offset
  {
    hide LittleEndian, TestBit;
    var present := LittleEndian(packet[offset - 4..offset]);
    if TestBit(present, EXTENDED_BIT) && a >= offset {
      BitmapEndsAtFirstUnextendedWord(packet, offset + 4, a);
    }
  }

  // ---- Where parsing stops -----------------------------------------------------------

  /** Event `k` ends the parse: it fails, or it is a presence bit that leaves the cursor at the header length or has no reader. */
  predicate Ends(t: Tables, packet: bytes, events: seq<Event>, start: State, length: nat, k: nat)
    requires k < |events|
  {
    match After(t, packet, events, start, k + 1)
    case Err(_) => true
    case Ok(s) => events[k].Field? && (s.offset == length || (!events[k].vendor && events[k].id >= 22))
  }

  /** Exactly the events up to and including the first one that ends the parse are processed. */
  lemma {:induction false} StopsAtFirstEnd(t: Tables, packet: bytes, events: seq<Event>, start: State, length: nat, k: nat)
    requires k <= |events|
    ensures var n := Processed(t, packet, events, start, length, k);
            && (forall j :: k <= j < n - 1 ==> !Ends(t, packet, events, start, length, j))
            && (n < |events| ==> k < n && Ends(t, packet, events, start, length, n - 1))
    decreases |events| - k
  {
    if k < |events| && !Ends(t, packet, events, start, length, k) {
      StopsAtFirstEnd(t, packet, events, start, length, k + 1);
    }
  }

  // ---- The declarative layout ------------------------------------------------------------

  /** Events that take up room: a switch to the vendor namespace and a radiotap field with a reader. */
  predicate Occupies(e: Event) {
    if e.Switch? then e.vendor else !e.vendor && e.id < 22
  }

  /** What an occupying event aligns to. */
  function AlignmentAt(e: Event): (a: nat)
    requires Occupies(e)
    ensures a > 0
  {
    if e.Switch? then 2 else AlignmentOf(e.id)
  }

  /** Start of the interval of `e` when everything before ends at `p`. */
  function SpanStart(e: Event, p: nat): nat
    requires Occupies(e)
  {
    (p + AlignmentAt(e) - 1) / AlignmentAt(e) * AlignmentAt(e)
  }

  /** End of the interval; a vendor block says how long it is. */
  function SpanEnd(packet: bytes, e: Event, p: nat): nat
    requires Occupies(e)
  {
    var a := SpanStart(e, p);
    if e.Field? then a + WidthOf(e.id)
    else a + 6 + if a + 6 <= |packet| then U16(packet, a + 4) else 0
  }

  lemma ShiftIsQuotient(x: nat, k: nat)
    requires k < 4
    ensures ShiftRight(x, k) == x / Pow2(k)
  {
    assert Pow2(1) == 2 && Pow2(2) == 4 && Pow2(3) == 8;
    assert ShiftRight(x, 1) == x / 2;
    assert ShiftRight(x, 2) == ShiftRight(x / 2, 1) == x / 2 / 2;
    assert ShiftRight(x, 3) == ShiftRight(x / 2, 2) == x / 2 / 2 / 2;
    assert x / 2 / 2 == x / 4 && x / 2 / 2 / 2 == x / 8;
  }

  lemma AlignIsQuotient(p: nat, k: nat)
    requires k < 4
    ensures Align(p, Pow2(k)) == (p + Pow2(k) - 1) / Pow2(k) * Pow2(k)
  {
    hide Align, Pow2, ShiftRight;
    AlignIsLeastMultiple(p, k, 0);
    ShiftIsQuotient(p + Pow2(k) - 1, k);
    Commutes(Pow2(k), ShiftRight(p + Pow2(k) - 1, k));
  }

  lemma Commutes(a: nat, b: nat)
    ensures a * b == b * a
  {
  }

  /** The readers start where the layout says. */
  lemma StartIs(e: Event, p: nat)
    requires Occupies(e)
    ensures SpanStart(e, p) == if e.Field? then FieldStart(e.id, p) else Align(p, 2)
  {
    hide Align;
    if e.Field? {
      SmallAlignments(e.id);
      AlignmentIs(e.id);
      AlignIsQuotient(p, READERS[e.id].alignment);
    } else {
      assert Pow2(1) == 2;
      AlignIsQuotient(p, 1);
    }
  }

  lemma SmallAlignments(id: nat)
    requires id < 22
    ensures READERS[id].alignment < 4
  {
  }

  /** End of the last interval among the first `k` events, or of the bitmap. */
  function PreviousEnd(packet: bytes, events: seq<Event>, bitmapEnd: nat, k: nat): nat
    requires k <= |events|
  {
    if k == 0 then bitmapEnd
    else if Occupies(events[k - 1]) then SpanEnd(packet, events[k - 1], PreviousEnd(packet, events, bitmapEnd, k - 1))
    else PreviousEnd(packet, events, bitmapEnd, k - 1)
  }

  lemma VendorEndsAtSpanEnd(packet: bytes, offset: nat)
    requires ReadVendor(packet, offset).Ok?
    ensures ReadVendor(packet, offset).value.0 == SpanEnd(packet, Switch(true), offset)
  {
    hide U16;
    StartIs(Switch(true), offset);
    LittleTwo(packet, SpanStart(Switch(true), offset) + 4);
  }

  lemma FieldEndsAtSpanEnd(t: Tables, packet: bytes, id: nat, offset: nat)
    requires id < 22 && ReadField(t, id, packet, offset).Ok?
    ensures ReadField(t, id, packet, offset).value.0 == SpanEnd(packet, Field(false, id), offset)
  {
    hide FieldOf, FieldWidth, WidthOf;
    StartIs(Field(false, id), offset);
    WidthIs(id);
  }

  lemma StepFollowsLayout(t: Tables, packet: bytes, e: Event, s: State)
    requires Step(t, packet, e, s).Ok?
    ensures Step(t, packet, e, s).value.offset == if Occupies(e) then SpanEnd(packet, e, s.offset) else s.offset
  {
    if Occupies(e) {
      if e.Switch? {
        VendorEndsAtSpanEnd(packet, s.offset);
      } else {
        FieldEndsAtSpanEnd(t, packet, e.id, s.offset);
      }
    }
  }

  /** The cursor refines the layout: it always stands at the end of the last interval. */
  lemma {:induction false} CursorRefinesLayout(t: Tables, packet: bytes, events: seq<Event>, start: State, k: nat)
    requires k <= |events| && After(t, packet, events, start, k).Ok?
    ensures After(t, packet, events, start, k).value.offset == PreviousEnd(packet, events, start.offset, k)
    decreases k
  {
    if k > 0 {
      CursorRefinesLayout(t, packet, events, start, k - 1);
      StepFollowsLayout(t, packet, events[k - 1], After(t, packet, events, start, k - 1).value);
    }
  }

  /** End of what is read of an interval: all of a field, the six bytes that head a vendor block. */
  function ReadEnd(e: Event, p: nat): nat
    requires Occupies(e)
  {
    SpanStart(e, p) + if e.Field? then WidthOf(e.id) else 6
  }

  /** What the bytes of an interval decode to; a vendor block keeps the bytes after its head, as far as the packet goes. */
  function Content(t: Tables, packet: bytes, e: Event, p: nat): Result<Fields, Failure>
    requires Occupies(e) && ReadEnd(e, p) <= |packet|
  {
    var a, end := SpanStart(e, p), SpanEnd(packet, e, p);
    if e.Field? then FieldsOf(t, e.id, packet[a..end])
    else
      Ok(map["oui" := Raw(packet[a..a + 3]), "subns" := Int(packet[a + 3]),
             "data" := Raw(if end <= |packet| then packet[a + 6..end] else packet[a + 6..]), "present" := Int(0)])
  }

  lemma FieldIsDecoded(t: Tables, packet: bytes, id: nat, p: nat)
    requires id < 22
    ensures var e := Field(false, id);
            if ReadEnd(e, p) > |packet| then ReadField(t, id, packet, p) == Err(StructError)
            else match Content(t, packet, e, p)
                 case Err(f) => f != StructError && ReadField(t, id, packet, p) == Err(f)
                 case Ok(fields) => ReadField(t, id, packet, p) == Ok((SpanEnd(packet, e, p), fields))
  {
    hide FieldOf, FieldsOf, FieldWidth, WidthOf, FieldStart, SpanStart;
    var e := Field(false, id);
    StartIs(e, p);
    WidthIs(id);
    if ReadEnd(e, p) <= |packet| {
      FieldIs(t, id, packet[SpanStart(e, p)..SpanEnd(packet, e, p)]);
      FieldsNeverRunShort(t, id, packet[SpanStart(e, p)..SpanEnd(packet, e, p)]);
    }
  }

  lemma VendorIsDecoded(t: Tables, packet: bytes, p: nat)
    ensures var e := Switch(true);
            if ReadEnd(e, p) > |packet| then ReadVendor(packet, p) == Err(StructError)
            else Content(t, packet, e, p).Ok?
                 && ReadVendor(packet, p) == Ok((SpanEnd(packet, e, p), Content(t, packet, e, p).value))
  {
    hide U16, SpanStart, LittleEndian, Align;
    var e := Switch(true);
    StartIs(e, p);
    if ReadEnd(e, p) <= |packet| {
      LittleTwo(packet, SpanStart(e, p) + 4);
    }
  }

  /** The list grows by these fields, the dictionary takes them over. */
  function Grown(out: Output, fields: Fields): Output {
    match out
    case AsList(items) => AsList(items + [fields])
    case AsDict(d) => AsDict(d + fields)
  }

  lemma ContentIsGrown(t: Tables, packet: bytes, e: Event, p: nat, out: Output)
    requires Occupies(e) && ReadEnd(e, p) <= |packet| && Content(t, packet, e, p).Ok?
    ensures AddFields(out, Content(t, packet, e, p).value) == Grown(out, Content(t, packet, e, p).value)
  {
    hide U16, SpanStart, NumberOf, NameOf;
    if e.Switch? {
      assert "present" in Content(t, packet, e, p).value;
    } else {
      FieldsAreSome(t, e.id, packet[SpanStart(e, p)..SpanEnd(packet, e, p)]);
    }
  }

  /**
   An occupying event adds what the bytes of its interval in the layout decode to, and
   raises StructError exactly when what is read of the interval leaves the packet.
   */
  lemma IntervalIsDecoded(t: Tables, packet: bytes, events: seq<Event>, start: State, k: nat)
    requires k < |events| && Occupies(events[k]) && After(t, packet, events, start, k).Ok?
    ensures var s, after := After(t, packet, events, start, k).value, After(t, packet, events, start, k + 1);
            var p := PreviousEnd(packet, events, start.offset, k);
            && (after == Err(StructError) <==> ReadEnd(events[k], p) > |packet|)
            && (ReadEnd(events[k], p) <= |packet| ==>
                  match Content(t, packet, events[k], p)
                  case Err(f) => after == Err(f)
                  case Ok(fields) => after == Ok(State(SpanEnd(packet, events[k], p), Grown(s.out, fields))))
  {
    hide Content, SpanStart, SpanEnd;
    var e, p := events[k], PreviousEnd(packet, events, start.offset, k);
    CursorRefinesLayout(t, packet, events, start, k);
    var s := After(t, packet, events, start, k).value;
    assert After(t, packet, events, start, k + 1) == Step(t, packet, e, s);
    if e.Field? {
      FieldIsDecoded(t, packet, e.id, p);
    } else {
      VendorIsDecoded(t, packet, p);
    }
    if ReadEnd(e, p) <= |packet| && Content(t, packet, e, p).Ok? {
      ContentIsGrown(t, packet, e, p, s.out);
    }
  }

  /** A switch back to radiotap and a field without a reader leave everything as it is. */
  lemma OtherEventsAreSilent(t: Tables, packet: bytes, events: seq<Event>, start: State, k: nat)
    requires k < |events| && After(t, packet, events, start, k).Ok?
    requires events[k] == Switch(false) || (events[k].Field? && !events[k].vendor && events[k].id >= 22)
    ensures After(t, packet, events, start, k + 1) == After(t, packet, events, start, k)
  {
  }

  /** An interval starts at the least multiple of its alignment at or after `p`. */
  lemma SpanIsTight(packet: bytes, e: Event, p: nat, m: nat)
    requires Occupies(e)
    ensures var a := AlignmentAt(e);
            && SpanStart(e, p) % a == 0
            && p <= SpanStart(e, p) < p + a
            && (p <= a * m ==> SpanStart(e, p) <= a * m)
            && SpanStart(e, p) <= SpanEnd(packet, e, p)
  {
    LeastMultiple(p, AlignmentAt(e), m);
  }

  lemma LeastOfTwos(p: nat, m: nat)
    ensures var s := (p + 1) / 2 * 2;
            s % 2 == 0 && p <= s < p + 2 && (p <= 2 * m ==> s <= 2 * m)
  {
    var q := (p + 1) / 2;
    assert q * 2 == 2 * q && 2 * q % 2 == 0;
  }

  lemma LeastOfFours(p: nat, m: nat)
    ensures var s := (p + 3) / 4 * 4;
            s % 4 == 0 && p <= s < p + 4 && (p <= 4 * m ==> s <= 4 * m)
  {
    var q := (p + 3) / 4;
    assert q * 4 == 4 * q && 4 * q % 4 == 0;
  }

  lemma LeastOfEights(p: nat, m: nat)
    ensures var s := (p + 7) / 8 * 8;
            s % 8 == 0 && p <= s < p + 8 && (p <= 8 * m ==> s <= 8 * m)
  {
    var q := (p + 7) / 8;
    assert q * 8 == 8 * q && 8 * q % 8 == 0;
  }

  lemma LeastMultiple(p: nat, a: nat, m: nat)
    requires a == 1 || a == 2 || a == 4 || a == 8
    ensures var s := (p + a - 1) / a * a;
            s % a == 0 && p <= s < p + a && (p <= a * m ==> s <= a * m)
  {
    match a
    case 1 =>
    case 2 => LeastOfTwos(p, m);
    case 4 => LeastOfFours(p, m);
    case _ => LeastOfEights(p, m);
  }

  lemma {:induction false} PreviousEndGrows(packet: bytes, events: seq<Event>, bitmapEnd: nat, j: nat, k: nat)
    requires j <= k <= |events|
    ensures PreviousEnd(packet, events, bitmapEnd, j) <= PreviousEnd(packet, events, bitmapEnd, k)
    decreases k
  {
    if j < k {
      PreviousEndGrows(packet, events, bitmapEnd, j, k - 1);
      if Occupies(events[k - 1]) {
        SpanIsTight(packet, events[k - 1], PreviousEnd(packet, events, bitmapEnd, k - 1), 0);
      }
    }
  }

  /** Intervals are disjoint, in event order and after the bitmap words. */
  lemma IntervalsAreDisjoint(packet: bytes, events: seq<Event>, bitmapEnd: nat, j: nat, k: nat)
    requires j < k < |events| && Occupies(events[j]) && Occupies(events[k])
    ensures var pj, pk := PreviousEnd(packet, events, bitmapEnd, j), PreviousEnd(packet, events, bitmapEnd, k);
            bitmapEnd <= SpanStart(events[j], pj) <= SpanEnd(packet, events[j], pj) <= SpanStart(events[k], pk)
  {
    SpanIsTight(packet, events[j], PreviousEnd(packet, events, bitmapEnd, j), 0);
    SpanIsTight(packet, events[k], PreviousEnd(packet, events, bitmapEnd, k), 0);
    PreviousEndGrows(packet, events, bitmapEnd, 0, j);
    PreviousEndGrows(packet, events, bitmapEnd, j + 1, k);
  }

  // ---- Dictionary mode against list mode -----------------------------------------------------

  /** Left to right, the last group wins. */
  function Merge(items: seq<Fields>): Fields {
    if items == [] then map[] else Merge(items[..|items| - 1]) + items[|items| - 1]
  }

  lemma MergeAppend(items: seq<Fields>, f: Fields)
    ensures Merge(items + [f]) == Merge(items) + f
  {
    assert (items + [f])[..|items|] == items;
  }

  predicate IsVendorField(e: Event) {
    e.Field? && e.vendor
  }

  /** The dictionary run is in the state of the list run, merged. */
  ghost predicate Mirrors(list: Result<State, Failure>, dict: Result<State, Failure>) {
    match list
    case Err(e) => dict == Err(e)
    case Ok(s) => s.out.AsList? && dict == Ok(State(s.offset, AsDict(Merge(s.out.items))))
  }

  lemma ReadMirrors(s: State, r: Result<(nat, Fields), Failure>)
    requires s.out.AsList?
    ensures Mirrors(Read(s, r), Read(State(s.offset, AsDict(Merge(s.out.items))), r))
  {
    if r.Ok? {
      MergeAppend(s.out.items, r.value.1);
    }
  }

  lemma {:induction false} AfterMirrors(t: Tables, packet: bytes, events: seq<Event>, offset: nat, k: nat)
    requires k <= |events| && (forall j :: 0 <= j < k ==> !IsVendorField(events[j]))
    ensures Mirrors(After(t, packet, events, State(offset, AsList([])), k),
                    After(t, packet, events, State(offset, AsDict(map[])), k))
    decreases k
  {
    if k > 0 {
      AfterMirrors(t, packet, events, offset, k - 1);
      var list := After(t, packet, events, State(offset, AsList([])), k - 1);
      if list.Ok? {
        assert !IsVendorField(events[k - 1]);
        ReadMirrors(list.value, ReadVendor(packet, list.value.offset));
        if events[k - 1].Field? && events[k - 1].id < 22 {
          ReadMirrors(list.value, ReadField(t, events[k - 1].id, packet, list.value.offset));
        }
      }
    }
  }

  /** A vendor-namespace presence bit makes the dictionary run fail. */
  lemma VendorFieldFailsDict(t: Tables, packet: bytes, events: seq<Event>, offset: nat, k: nat)
    requires k < |events| && IsVendorField(events[k]) && (forall j :: 0 <= j < k ==> !IsVendorField(events[j]))
    requires After(t, packet, events, State(offset, AsList([])), k).Ok?
    ensures After(t, packet, events, State(offset, AsDict(map[])), k + 1) == Err(KeyError)
  {
    AfterMirrors(t, packet, events, offset, k);
  }

  /** Both runs go on alike up to the first vendor presence bit. */
  lemma {:induction false} ProcessedMirrors(t: Tables, packet: bytes, events: seq<Event>, offset: nat, length: nat, k: nat)
    requires k <= |events| && (forall j :: 0 <= j < k ==> !IsVendorField(events[j]))
    requires After(t, packet, events, State(offset, AsList([])), k).Ok?
    ensures var list, dict := State(offset, AsList([])), State(offset, AsDict(map[]));
            var n, m := Processed(t, packet, events, list, length, k), Processed(t, packet, events, dict, length, k);
            if forall j :: k <= j < n ==> !IsVendorField(events[j]) then
              m == n && Mirrors(After(t, packet, events, list, n), After(t, packet, events, dict, m))
            else After(t, packet, events, dict, m) == Err(KeyError)
    decreases |events| - k
  {
    var list, dict := State(offset, AsList([])), State(offset, AsDict(map[]));
    if k == |events| {
      AfterMirrors(t, packet, events, offset, k);
    } else if IsVendorField(events[k]) {
      VendorFieldFailsDict(t, packet, events, offset, k);
    } else {
      AfterMirrors(t, packet, events, offset, k + 1);
      var s := After(t, packet, events, list, k + 1);
      if s.Ok? && !Halts(events[k], s.value, length) {
        ProcessedMirrors(t, packet, events, offset, length, k + 1);
      }
    }
  }

  /** A presence bit of the vendor namespace is processed in list mode. */
  predicate VendorFieldProcessed(t: Tables, packet: bytes) {
    HasHeader(packet)
    && var end := PresentEnd(packet, HEADER_LENGTH, LittleEndian(packet[4..8]));
       end.Ok?
       && var events := EventsOf(packet, end.value);
          var n := Processed(t, packet, events, State(end.value, AsList([])), DeclaredLength(packet), 0);
          exists j :: 0 <= j < n && IsVendorField(events[j])
  }

  /**
   The dictionary is the last-wins merge of the list, with the same header
   length, exactly as long as no vendor presence bit is processed; then the
   dictionary parse raises KeyError.
   */
  lemma DictionaryRefinesList(t: Tables, packet: bytes)
    requires HasHeader(packet)
    ensures Parse(t, packet, false)
         == if VendorFieldProcessed(t, packet) then Err(KeyError)
            else match Parse(t, packet, true)
                 case Err(e) => Err(e)
                 case Ok((length, out)) => Ok((length, AsDict(if out.AsList? then Merge(out.items) else out.fields)))
    ensures Parse(t, packet, true).Ok? ==> Parse(t, packet, true).value.1.AsList?
  {
    var end := PresentEnd(packet, HEADER_LENGTH, LittleEndian(packet[4..8]));
    if end.Ok? {
      var events, length := EventsOf(packet, end.value), DeclaredLength(packet);
      ProcessedMirrors(t, packet, events, end.value, length, 0);
      ListStaysList(t, packet, events, end.value, Processed(t, packet, events, State(end.value, AsList([])), length, 0));
    }
  }

  lemma {:induction false} ListStaysList(t: Tables, packet: bytes, events: seq<Event>, offset: nat, k: nat)
    requires k <= |events|
    ensures var r := After(t, packet, events, State(offset, AsList([])), k);
            r.Ok? ==> r.value.out.AsList?
    decreases k
  {
    if k > 0 {
      ListStaysList(t, packet, events, offset, k - 1);
    }
  }

  // ---- The vendor record in list mode -----------------------------------------------------------

  /** Sum of 2^id over the events `from` up to `k`. */
  function IdSum(events: seq<Event>, from: nat, k: nat): nat
    requires from <= k <= |events| && (forall j :: from <= j < k ==> events[j].Field?)
    decreases k
  {
    if k == from then 0 else IdSum(events, from, k - 1) + Pow2(events[k - 1].id)
  }

  lemma {:induction false} IdSumBound(events: seq<Event>, from: nat, k: nat)
    requires from < k <= |events| && (forall j :: from <= j < k ==> events[j].Field?)
    requires WellOrdered(events)
    ensures IdSum(events, from, k) < 2 * Pow2(events[k - 1].id)
    decreases k
  {
    if k - 1 > from {
      IdSumBound(events, from, k - 1);
      assert Follows(events[k - 2], events[k - 2 + 1]);
      Pow2Monotone(events[k - 2].id + 1, events[k - 1].id);
    }
  }

  /** Event `s` switches to the vendor namespace and only presence bits follow, up to event `k`. */
  predicate InVendorRun(events: seq<Event>, s: nat, k: nat) {
    s < k <= |events| && events[s] == Switch(true) && forall j :: s < j < k ==> events[j].Field?
  }

  lemma {:induction false} VendorRunStaysVendor(events: seq<Event>, s: nat, k: nat)
    requires WellOrdered(events) && InVendorRun(events, s, k)
    ensures events[k - 1].vendor
    decreases k
  {
    if k - 1 > s {
      VendorRunStaysVendor(events, s, k - 1);
      assert Follows(events[k - 2], events[k - 2 + 1]);
    }
  }

  /** The list's last item is `record` with `present` set to `sum`. */
  ghost predicate Collected(out: Output, record: Fields, sum: nat) {
    out.AsList? && out.items != [] && out.items[|out.items| - 1] == record["present" := Int(sum)]
  }

  lemma SwitchCollectsNothing(packet: bytes, offset: nat, items: seq<Fields>)
    requires ReadVendor(packet, offset).Ok?
    ensures var record := ReadVendor(packet, offset).value.1;
            Collected(AddFields(AsList(items), record), record, 0)
  {
    var record := ReadVendor(packet, offset).value.1;
    assert "present" in record && record["present"] == Int(0);
    assert record["present" := Int(0)] == record;
  }

  lemma BitIsCollected(out: Output, record: Fields, sum: nat, id: nat)
    requires Collected(out, record, sum) && sum < Pow2(id)
    ensures AddVendorBit(out, id).Ok? && Collected(AddVendorBit(out, id).value, record, sum + Pow2(id))
  {
    OrBitAdds(sum, id);
    assert record["present" := Int(sum)]["present" := Int(sum + Pow2(id))] == record["present" := Int(sum + Pow2(id))];
  }

  lemma IdSumFits(events: seq<Event>, from: nat, k: nat)
    requires from < k <= |events| && (forall j :: from <= j < k ==> events[j].Field?)
    requires WellOrdered(events)
    ensures IdSum(events, from, k - 1) < Pow2(events[k - 1].id)
  {
    if k - 1 > from {
      IdSumBound(events, from, k - 1);
      assert Follows(events[k - 2], events[k - 2 + 1]);
      Pow2Monotone(events[k - 2].id + 1, events[k - 1].id);
    }
  }

  /**
   Throughout a vendor namespace the last list item is the record its switch
   read, the cursor stays behind it, and `present` is the sum of 2^id over the
   presence bits processed since: the OR never meets a bit twice.
   */
  lemma {:induction false} VendorRecordCollectsBits(t: Tables, packet: bytes, events: seq<Event>, start: State, s: nat, k: nat)
    requires start.out == AsList([]) && WellOrdered(events) && InVendorRun(events, s, k)
    requires After(t, packet, events, start, s).Ok?
    requires ReadVendor(packet, After(t, packet, events, start, s).value.offset).Ok?
    ensures var (offset, record) := ReadVendor(packet, After(t, packet, events, start, s).value.offset).value;
            var now := After(t, packet, events, start, k);
            now.Ok? && now.value.offset == offset && Collected(now.value.out, record, IdSum(events, s + 1, k))
    decreases k
  {
    hide WellOrdered, Collected, Pow2;
    var before := After(t, packet, events, start, s).value;
    var (offset, record) := ReadVendor(packet, before.offset).value;
    if k == s + 1 {
      ListStaysList(t, packet, events, start.offset, s);
      SwitchCollectsNothing(packet, before.offset, before.out.items);
      assert record != map[] by { assert "present" in record; }
    } else {
      VendorRecordCollectsBits(t, packet, events, start, s, k - 1);
      VendorRunStaysVendor(events, s, k);
      IdSumFits(events, s + 1, k);
      BitIsCollected(After(t, packet, events, start, k - 1).value.out, record, IdSum(events, s + 1, k - 1), events[k - 1].id);
    }
  }

  // ---- A dictionary that cannot be built ------------------------------------------------------------

  lemma {:induction false} ZeroHasNoBits(i: nat)
    ensures !TestBit(0, i)
  {
    if i > 0 {
      ZeroHasNoBits(i - 1);
    }
  }

  lemma {:induction false} MultipleHasNoLowBits(m: nat, k: nat, i: nat)
    requires i < k
    ensures !TestBit(Pow2(k) * m, i)
  {
    DoubledProduct(Pow2(k - 1), m);
    if i > 0 {
      MultipleHasNoLowBits(m, k - 1, i - 1);
    }
  }

  lemma {:induction false} HighBitOf(m: nat, k: nat, i: nat)
    ensures TestBit(Pow2(k) * m, k + i) <==> TestBit(m, i)
    decreases k
  {
    if k > 0 {
      DoubledProduct(Pow2(k - 1), m);
      HighBitOf(m, k - 1, i);
    }
  }

  /** Bits that are not set say nothing. */
  lemma {:induction false} UnsetBitsAreSilent(words: seq<nat>, w: nat, lo: nat, hi: nat)
    requires w < |words| && lo <= hi <= 32 && forall i :: lo <= i < hi ==> !TestBit(words[w], i)
    ensures EventsUpTo(words, w, hi) == EventsUpTo(words, w, lo)
    decreases hi
  {
    if lo < hi {
      UnsetBitsAreSilent(words, w, lo, hi - 1);
      BitDone(words, w, hi - 1);
    }
  }

  /** A switch to the vendor namespace in an extended word, then the first vendor field. */
  const VENDOR_WORDS: seq<nat> := [0xC000_0000, 1]

  lemma FirstVendorWord()
    ensures TestBit(0xC000_0000, VENDOR_BIT) && TestBit(0xC000_0000, EXTENDED_BIT) && !TestBit(0xC000_0000, RADIOTAP_BIT)
    ensures forall i :: 0 <= i < 30 ==> !TestBit(0xC000_0000, i)
  {
    assert Pow2(10) == 1024;
    assert Pow2(20) == 1024 * 1024;
    assert Pow2(30) == 1024 * 1024 * 1024;
    HighBitOf(3, 30, 0);
    HighBitOf(3, 30, 1);
    assert TestBit(3, 1) == TestBit(1, 0);
    forall i | 0 <= i < 30
      ensures !TestBit(0xC000_0000, i)
    {
      MultipleHasNoLowBits(3, 30, i);
    }
  }

  lemma SecondVendorWord()
    ensures TestBit(1, 0) && forall i :: 1 <= i < 32 ==> !TestBit(1, i)
  {
    forall i | 1 <= i < 32
      ensures !TestBit(1, i)
    {
      ZeroHasNoBits(i - 1);
    }
  }

  lemma VendorEvents()
    ensures Events(VENDOR_WORDS) == [Switch(true), Field(true, 0)]
  {
    FirstVendorWord();
    SecondVendorWord();
    var words := VENDOR_WORDS;
    UnsetBitsAreSilent(words, 0, 0, 30);
    assert EventsUpTo(words, 0, 0) == [];
    BitDone(words, 0, 30);
    BitDone(words, 0, 31);
    assert EventsUpTo(words, 0, 32) == [Switch(true)];
    WordDone(words, 0);
    assert VendorBefore(words, 1);
    BitDone(words, 1, 0);
    assert EventsUpTo(words, 1, 1) == [Switch(true), Field(true, 0)];
    UnsetBitsAreSilent(words, 1, 1, 32);
    WordDone(words, 1);
  }

  const VENDOR_BITMAP: bytes := [0, 0, 0, 0xC0, 1, 0, 0, 0]

  lemma VendorWords()
    ensures Words(VENDOR_BITMAP) == VENDOR_WORDS
  {
    var a, b: bytes := [0, 0, 0, 0xC0], [1, 0, 0, 0];
    assert VENDOR_BITMAP[..4] == a && VENDOR_BITMAP[4..] == b && b[..4] == b && b[4..] == [];
    assert LittleEndian([0xC0]) == 0xC0 && a[1..] == [0, 0, 0xC0] && a[1..][1..] == [0, 0xC0] && a[1..][1..][1..] == [0xC0];
    assert LittleEndian(a) == 0xC000_0000;
    assert b[1..] == [0, 0, 0] && b[1..][1..] == [0, 0] && b[1..][1..][1..] == [0];
    assert LittleEndian([0]) == 0;
    assert LittleEndian(b) == 1;
    assert Words(b) == [LittleEndian(b)] + Words([]);
    assert Words(VENDOR_BITMAP) == [LittleEndian(a)] + Words(b);
  }

  /** A radiotap header of 18 bytes: the two words, and a vendor block with no data. */
  const VENDOR_PACKET: bytes := [0, 0, 18, 0] + VENDOR_BITMAP + [0xAA, 0xBB, 0xCC, 0, 0, 0]

  lemma VendorPacketHeader()
    ensures HasHeader(VENDOR_PACKET) && PresentEnd(VENDOR_PACKET, 8, LittleEndian(VENDOR_PACKET[4..8])) == Ok(12)
    ensures EventsOf(VENDOR_PACKET, 12) == [Switch(true), Field(true, 0)]
  {
    var p := VENDOR_PACKET;
    assert p[2..4] == [18, 0] && [18, 0][1..] == [0];
    assert LittleEndian([0]) == 0;
    assert LittleEndian(p[2..4]) == 18;
    VendorWords();
    VendorEvents();
    assert p[4..12] == VENDOR_BITMAP;
    WordsAt(VENDOR_BITMAP, 0);
    WordsAt(VENDOR_BITMAP, 1);
    assert p[4..8] == VENDOR_BITMAP[0..4] && p[8..12] == VENDOR_BITMAP[4..8];
    FirstVendorWord();
    SecondVendorWord();
    assert PresentEnd(p, 12, 1) == Ok(12);
  }

  lemma VendorBlockReads(t: Tables)
    ensures ReadVendor(VENDOR_PACKET, 12).Ok?
  {
    AlignIsLeastMultiple(12, 1, 6);
    assert Pow2(1) == 2;
  }

  /** The failing case on one packet: a list can be had of it, a dictionary cannot. */
  lemma VendorPacketHasNoDictionary(t: Tables)
    ensures Parse(t, VENDOR_PACKET, false) == Err(KeyError)
    ensures Parse(t, VENDOR_PACKET, true).Ok?
  {
    hide TestBit, LittleEndian, Align, Words, EventsUpTo;
    var p, list := VENDOR_PACKET, State(12, AsList([]));
    VendorPacketHeader();
    VendorBlockReads(t);
    var events := EventsOf(p, 12);
    var record := ReadVendor(p, 12).value.1;
    assert After(t, p, events, list, 0) == Ok(list);
    assert After(t, p, events, list, 1) == Ok(State(ReadVendor(p, 12).value.0, AddFields(AsList([]), record)));
    StopsAtFirstEnd(t, p, events, list, DeclaredLength(p), 0);
    var n := Processed(t, p, events, list, DeclaredLength(p), 0);
    assert !Ends(t, p, events, list, DeclaredLength(p), 0);
    assert n == 2;
    assert IsVendorField(events[1]);
    ListCollects(t, p, events, record);
    DictionaryRefinesList(t, p);
  }

  lemma ListCollects(t: Tables, packet: bytes, events: seq<Event>, record: Fields)
    requires events == [Switch(true), Field(true, 0)] && ReadVendor(packet, 12).Ok? && record == ReadVendor(packet, 12).value.1
    ensures After(t, packet, events, State(12, AsList([])), 2).Ok?
  {
    var list := State(12, AsList([]));
    assert "present" in record;
    assert AddFields(AsList([]), record) == AsList([record]);
    assert After(t, packet, events, list, 1) == Ok(State(ReadVendor(packet, 12).value.0, AsList([record])));
  }
}
