/** The radiotap header parser: an aligned cursor driven by the presence events. */
module Radiotap {
  import opened Common
  import opened Bits
  import opened Present

  datatype Value = Int(n: int) | Real(r: real) | Raw(data: bytes)

  type Fields = map<string, Value>

  /** A list of field groups in file order, or one flat dictionary. */
  datatype Output = AsList(items: seq<Fields>) | AsDict(fields: Fields)

  /** The exceptions a malformed packet raises. */
  datatype Failure = StructError | IndexError | KeyError | VhtError

  /** The rate tables: MCS rates by index and column, and what the VHT lookups make of the 12 field bytes. */
  datatype Tables = Tables(mcsRate: (nat, nat) -> real, vht: bytes -> Option<Fields>)

  datatype Column = Column(name: string, width: nat, signed: bool)

  /** A field reader: the power of two it aligns to, and its little-endian columns. */
  datatype Reader = Reader(alignment: nat, columns: seq<Column>)

  function U(name: string, width: nat): Column {
    Column(name, width, false)
  }

  function One(alignment: nat, column: Column): Reader {
    Reader(alignment, [column])
  }

  const RATE := 2
  const MCS := 19
  const VHT := 21
  const MCS_ROWS := 32

  /** The dispatch table; alignments are exponents of two. */
  const READERS: seq<Reader> := [
    One(3, U("TSFT", 8)),
    One(0, U("flags", 1)),
    One(0, U("rate", 1)),
    Reader(1, [U("chan_freq", 2), U("chan_flags", 2)]),
    One(0, U("fhss", 2)),
    One(0, Column("dbm_antsignal", 1, true)),
    One(0, Column("dbm_antnoise", 1, true)),
    One(1, U("lock_quality", 2)),
    One(1, U("tx_attenuation", 2)),
    One(1, U("db_tx_attenuation", 2)),
    One(0, Column("dbm_tx_power", 1, true)),
    One(0, U("antenna", 1)),
    One(0, U("db_antsignal", 1)),
    One(0, U("db_antnoise", 1)),
    One(1, U("rx_flags", 2)),
    One(0, U("tx_flags", 1)),
    One(0, U("rts_retries", 1)),
    One(0, U("data_retries", 1)),
    Reader(2, [U("xchannel_flags", 4), U("xchannel_freq", 2), U("xchannel_num", 1), U("xchannel_maxpower", 1)]),
    Reader(0, [U("mcs_known", 1), U("mcs_flags", 1), U("mcs_index", 1)]),
    Reader(0, [U("ampdu_refnum", 4), U("ampdu_flags", 2), U("ampdu_delim_crc_val", 1), U("ampdu_reserved", 1)]),
    Reader(0, [U("vht_known", 2), U("vht_flags", 1), U("vht_bw", 1), U("vht_user_0", 1), U("vht_user_1", 1),
               U("vht_user_2", 1), U("vht_user_3", 1), U("vht_coding", 1), U("vht_group_id", 1), U("vht_partial_aid", 2)])]

  const FIELD_COUNT := 22

  /** Columns of the VHT field that are not dictionary keys. */
  const VHT_HIDDEN := {"vht_user_0", "vht_user_1", "vht_user_2", "vht_user_3", "vht_partial_aid"}

  function Width(columns: seq<Column>): (n: nat) {
    if columns == [] then 0 else columns[0].width + Width(columns[1..])
  }

  function ColumnValue(c: Column, raw: bytes): int {
    var n := LittleEndian(raw);
    if c.signed && n >= Pow2(8 * c.width) / 2 then n - Pow2(8 * c.width) else n
  }

  function Decode(columns: seq<Column>, raw: bytes): Fields
    requires |raw| == Width(columns)
  {
    if columns == [] then map[]
    else
      var c := columns[0];
      map[c.name := Int(ColumnValue(c, raw[..c.width]))] + Decode(columns[1..], raw[c.width..])
  }

  /** Where the reader of field `id` starts when the cursor stands at `offset`. */
  function FieldStart(id: nat, offset: nat): nat
    requires id < FIELD_COUNT
  {
    Align(offset, Pow2(READERS[id].alignment))
  }

  function FieldWidth(id: nat): nat
    requires id < FIELD_COUNT
  {
    Width(READERS[id].columns)
  }

  /** The field's dictionary out of its bytes. */
  function FieldOf(t: Tables, id: nat, raw: bytes): Result<Fields, Failure>
    requires id < FIELD_COUNT && |raw| == FieldWidth(id)
  {
    var fields := Decode(READERS[id].columns, raw);
    if id == RATE then Ok(map["rate" := Real(LittleEndian(raw) as real / 2.0)])
    else if id == MCS then
      var flags, index := LittleEndian(raw[1..2]), LittleEndian(raw[2..]);
      if index >= MCS_ROWS then Err(IndexError)
      else
        var is40, shortGi := if flags % 4 == 1 then 1 else 0, if TestBit(flags, 2) then 1 else 0;
        Ok(fields["mcs_rate" := Real(t.mcsRate(index, 2 * is40 + shortGi))])
    else if id == VHT then
      match t.vht(raw)
      case None => Err(VhtError)
      case Some(derived) => Ok(fields - VHT_HIDDEN + derived)
    else Ok(fields)
  }

  /** A dispatched reader: the new cursor and the fields, or the exception. */
  function ReadField(t: Tables, id: nat, packet: bytes, offset: nat): Result<(nat, Fields), Failure>
    requires id < FIELD_COUNT
  {
    var start := FieldStart(id, offset);
    var end := start + FieldWidth(id);
    if end > |packet| then Err(StructError)
    else
      match FieldOf(t, id, packet[start..end])
      case Err(e) => Err(e)
      case Ok(fields) => Ok((end, fields))
  }

  /** `_parse_vendor`: the declared length is skipped whole, the data kept as far as the packet goes. */
  function ReadVendor(packet: bytes, offset: nat): Result<(nat, Fields), Failure> {
    var start := Align(offset, 2);
    if start + 6 > |packet| then Err(StructError)
    else
      var length := LittleEndian(packet[start + 4..start + 6]);
      Ok((start + 6 + length, map[
        "oui" := Raw(packet[start..start + 3]),
        "subns" := Int(packet[start + 3]),
        "data" := Raw(Slice(packet, start + 6, start + 6 + length)),
        "present" := Int(0)]))
  }

  function AddFields(out: Output, fields: Fields): Output {
    if fields == map[] then out
    else
      match out
      case AsList(items) => AsList(items + [fields])
      case AsDict(d) => AsDict(d + fields)
  }

  function PresentOf(fields: Fields): nat {
    if "present" in fields && fields["present"].Int? && fields["present"].n >= 0 then fields["present"].n else 0
  }

  /**
   `_add_vendor_presence_bit`. A list keeps the record last; a dictionary is
   asked for the record under the vendor's OUI, where it never is.
   */
  function AddVendorBit(out: Output, id: nat): Result<Output, Failure> {
    match out
    case AsDict(_) => Err(KeyError)
    case AsList(items) =>
      if items == [] then Err(IndexError)
      else
        var last := items[|items| - 1];
        if "present" !in last then Err(KeyError)
        else Ok(AsList(items[..|items| - 1] + [last["present" := Int(OrBit(PresentOf(last), id))]]))
  }

  datatype State = State(offset: nat, out: Output)

  function Read(s: State, r: Result<(nat, Fields), Failure>): Result<State, Failure> {
    match r
    case Err(e) => Err(e)
    case Ok((offset, fields)) => Ok(State(offset, AddFields(s.out, fields)))
  }

  /** What one event does to the cursor and the output. */
  function Step(t: Tables, packet: bytes, e: Event, s: State): Result<State, Failure> {
    match e
    case Switch(vendor) => if vendor then Read(s, ReadVendor(packet, s.offset)) else Ok(s)
    case Field(vendor, id) =>
      if vendor then
        match AddVendorBit(s.out, id)
        case Err(e) => Err(e)
        case Ok(out) => Ok(State(s.offset, out))
      else if id >= FIELD_COUNT then Ok(s)
      else Read(s, ReadField(t, id, packet, s.offset))
  }

  /** After a presence bit: the cursor is at the header length, or the field has no reader. */
  predicate Halts(e: Event, after: State, length: nat) {
    e.Field? && (after.offset == length || (!e.vendor && e.id >= FIELD_COUNT))
  }

  /** The state after the first `k` events, halting aside. */
  function After(t: Tables, packet: bytes, events: seq<Event>, start: State, k: nat): Result<State, Failure>
    requires k <= |events|
  {
    if k == 0 then Ok(start)
    else
      match After(t, packet, events, start, k - 1)
      case Err(e) => Err(e)
      case Ok(s) => Step(t, packet, events[k - 1], s)
  }

  /** How many events are processed: up to the first at or after `k` that fails or halts. */
  function Processed(t: Tables, packet: bytes, events: seq<Event>, start: State, length: nat, k: nat): (n: nat)
    requires k <= |events|
    ensures k <= n <= |events|
    decreases |events| - k
  {
    if k == |events| then k
    else
      match After(t, packet, events, start, k + 1)
      case Err(_) => k + 1
      case Ok(s) => if Halts(events[k], s, length) then k + 1 else Processed(t, packet, events, start, length, k + 1)
  }

  /** End of the chain of bitmap words that starts with `present`, the next word being at `offset`. */
  function PresentEnd(packet: bytes, offset: nat, present: nat): (r: Result<nat, Failure>)
    requires offset <= |packet|
    ensures r.Ok? ==> offset <= r.value <= |packet| && (r.value - offset) % 4 == 0
    decreases |packet| - offset
  {
    if !TestBit(present, EXTENDED_BIT) then Ok(offset)
    else if offset + 4 > |packet| then Err(StructError)
    else PresentEnd(packet, offset + 4, LittleEndian(packet[offset..offset + 4]))
  }

  const HEADER_LENGTH := 8

  /** A header this parser reads: version and padding zero, and its length within the packet. */
  predicate HasHeader(packet: bytes) {
    |packet| >= HEADER_LENGTH && packet[0] == 0 && packet[1] == 0 && LittleEndian(packet[2..4]) <= |packet|
  }

  /** The declared header length, or 0 without a header. */
  function DeclaredLength(packet: bytes): nat {
    if HasHeader(packet) then LittleEndian(packet[2..4]) else 0
  }

  function EmptyOutput(asList: bool): Output {
    if asList then AsList([]) else AsDict(map[])
  }

  function EventsOf(packet: bytes, end: nat): seq<Event>
    requires HEADER_LENGTH <= end <= |packet| && end % 4 == 0
  {
    Events(Words(packet[HEADER_LENGTH - 4..end]))
  }

  /** The whole of `radiotap_parse`. */
  function Parse(t: Tables, packet: bytes, asList: bool): Result<(nat, Output), Failure> {
    if !HasHeader(packet) then Ok((0, AsDict(map[])))
    else
      match PresentEnd(packet, HEADER_LENGTH, LittleEndian(packet[4..8]))
      case Err(e) => Err(e)
      case Ok(end) =>
        var events, start := EventsOf(packet, end), State(end, EmptyOutput(asList));
        var n := Processed(t, packet, events, start, DeclaredLength(packet), 0);
        match After(t, packet, events, start, n)
        case Err(e) => Err(e)
        case Ok(s) => Ok((DeclaredLength(packet), s.out))
  }

  /** The loop over the presence events. */
  method ParseFields(t: Tables, packet: bytes, events: seq<Event>, start: State, length: nat)
    returns (r: Result<Output, Failure>)
    ensures var final := After(t, packet, events, start, Processed(t, packet, events, start, length, 0));
            r == if final.Err? then Err(final.error) else Ok(final.value.out)
  {
    var offset, out := start.offset, start.out;
    var i := 0;
    while i < |events|
      invariant i <= |events|
      invariant After(t, packet, events, start, i) == Ok(State(offset, out))
      invariant Processed(t, packet, events, start, length, i) == Processed(t, packet, events, start, length, 0)
    {
      var e := events[i];
      i := i + 1;
      if e.Switch? {
        if e.vendor {
          match ReadVendor(packet, offset) {
            case Err(f) => return Err(f);
            case Ok((next, fields)) => offset, out := next, AddFields(out, fields);
          }
        }
        continue;
      }
      if e.vendor {
        match AddVendorBit(out, e.id) {
          case Err(f) => return Err(f);
          case Ok(next) => out := next;
        }
      } else if e.id >= FIELD_COUNT {
        break;
      } else {
        match ReadField(t, e.id, packet, offset) {
          case Err(f) => return Err(f);
          case Ok((next, fields)) => offset, out := next, AddFields(out, fields);
        }
      }
      if offset == length {
        break;
      }
    }
    return Ok(out);
  }

  method RadiotapParse(t: Tables, packet: bytes, asList: bool) returns (r: Result<(nat, Output), Failure>)
    ensures r == Parse(t, packet, asList)
  {
    if |packet| < HEADER_LENGTH {
      return Ok((0, AsDict(map[])));
    }
    var version, pad, length, present := packet[0], packet[1], LittleEndian(packet[2..4]), LittleEndian(packet[4..8]);
    if version != 0 || pad != 0 || length > |packet| {
      return Ok((0, AsDict(map[])));
    }
    var offset: nat := HEADER_LENGTH;
    while TestBit(present, EXTENDED_BIT)
      invariant HEADER_LENGTH <= offset <= |packet| && offset % 4 == 0
      invariant PresentEnd(packet, offset, present) == PresentEnd(packet, HEADER_LENGTH, LittleEndian(packet[4..8]))
      decreases |packet| - offset
    {
      if offset + 4 > |packet| {
        return Err(StructError);
      }
      present := LittleEndian(packet[offset..offset + 4]);
      offset := offset + 4;
    }
    var events := PresentBits(packet[HEADER_LENGTH - 4..offset]);
    var fields := ParseFields(t, packet, events, State(offset, EmptyOutput(asList)), length);
    if fields.Err? {
      return Err(fields.error);
    }
    return Ok((length, fields.value));
  }
}
