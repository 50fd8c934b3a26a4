/** The fields of the radiotap header one by one, as arithmetic on their bytes. */
module RadiotapFields {
  import opened Common
  import opened Numbers
  import opened Radiotap

  // ---- The fields ---------------------------------------------------------------------------

  /** What the field with this id aligns to, in bytes. */
  function AlignmentOf(id: nat): (a: nat)
    ensures a > 0
  {
    if id == 0 then 8
    else if id in {3, 7, 8, 9, 14} then 2
    else if id == 18 then 4
    else 1
  }

  function WidthOf(id: nat): nat {
    if id in {0, 18, 20} then 8
    else if id == 3 then 4
    else if id in {4, 7, 8, 9, 14} then 2
    else if id == 19 then 3
    else if id == 21 then 12
    else 1
  }

  /** The name of a field that is one number. */
  function NameOf(id: nat): string {
    if id == 0 then "TSFT" else if id == 1 then "flags" else if id == 2 then "rate" else if id == 4 then "fhss"
    else if id == 5 then "dbm_antsignal" else if id == 6 then "dbm_antnoise" else if id == 7 then "lock_quality"
    else if id == 8 then "tx_attenuation" else if id == 9 then "db_tx_attenuation" else if id == 10 then "dbm_tx_power"
    else if id == 11 then "antenna" else if id == 12 then "db_antsignal" else if id == 13 then "db_antnoise"
    else if id == 14 then "rx_flags" else if id == 15 then "tx_flags" else if id == 16 then "rts_retries"
    else "data_retries"
  }

  /** A byte in two's complement. */
  function Signed(b: byte): int {
    if b >= 128 then b - 256 else b
  }

  predicate IsNumber(id: nat) {
    id < 18 && id != 3
  }

  /** The number of such a field; ids 5, 6 and 10 are signed. */
  function NumberOf(id: nat, b: bytes): Value
    requires IsNumber(id) && |b| == WidthOf(id)
  {
    if id == 0 then Int(U64(b, 0))
    else if id == 2 then Real(b[0] as real / 2.0)
    else if id in {4, 7, 8, 9, 14} then Int(U16(b, 0))
    else if id in {5, 6, 10} then Int(Signed(b[0]))
    else Int(b[0])
  }

  /** Modulation: a wide channel if the low two flag bits are 1, a short guard interval with the third. */
  function McsOf(t: Tables, b: bytes): Result<Fields, Failure>
    requires |b| == 3
  {
    if b[2] >= 32 then Err(IndexError)
    else
      var wide, short := if b[1] % 4 == 1 then 2 else 0, if b[1] / 4 % 2 == 1 then 1 else 0;
      Ok(map["mcs_known" := Int(b[0]), "mcs_flags" := Int(b[1]), "mcs_index" := Int(b[2]),
             "mcs_rate" := Real(t.mcsRate(b[2], wide + short))])
  }

  /** What the bytes of a field decode to. */
  function FieldsOf(t: Tables, id: nat, b: bytes): Result<Fields, Failure>
    requires id < 22 && |b| == WidthOf(id)
  {
    if id == 3 then Ok(map["chan_freq" := Int(U16(b, 0)), "chan_flags" := Int(U16(b, 2))])
    else if id == 18 then
      Ok(map["xchannel_flags" := Int(U32(b, 0)), "xchannel_freq" := Int(U16(b, 4)), "xchannel_num" := Int(b[6]),
             "xchannel_maxpower" := Int(b[7])])
    else if id == 19 then McsOf(t, b)
    else if id == 20 then
      Ok(map["ampdu_refnum" := Int(U32(b, 0)), "ampdu_flags" := Int(U16(b, 4)), "ampdu_delim_crc_val" := Int(b[6]),
             "ampdu_reserved" := Int(b[7])])
    else if id == 21 then
      match t.vht(b)
      case None => Err(VhtError)
      case Some(derived) =>
        Ok(map["vht_known" := Int(U16(b, 0)), "vht_flags" := Int(b[2]), "vht_bw" := Int(b[3]), "vht_coding" := Int(b[8]),
               "vht_group_id" := Int(b[9])] + derived)
    else Ok(map[NameOf(id) := NumberOf(id, b)])
  }

  // ---- The readers are these fields ----------------------------------------------------------------

  lemma AlignmentIs(id: nat)
    requires id < 22
    ensures Pow2(READERS[id].alignment) == AlignmentOf(id)
  {
    assert Pow2(1) == 2 && Pow2(2) == 4 && Pow2(3) == 8;
  }

  lemma NumberReader(id: nat)
    requires IsNumber(id)
    ensures READERS[id].columns == [Column(NameOf(id), WidthOf(id), id in {5, 6, 10})]
  {
  }

  lemma OneColumn(c: Column, raw: bytes)
    requires |raw| == c.width
    ensures Width([c]) == c.width && Decode([c], raw) == map[c.name := Int(ColumnValue(c, raw))]
  {
    assert [c][1..] == [] && raw[..c.width] == raw && raw[c.width..] == [];
    assert Width([]) == 0;
  }

  lemma MoreColumns(c: Column, rest: seq<Column>, raw: bytes)
    requires |raw| == c.width + Width(rest)
    ensures Width([c] + rest) == c.width + Width(rest)
    ensures Decode([c] + rest, raw) == map[c.name := Int(ColumnValue(c, raw[..c.width]))] + Decode(rest, raw[c.width..])
  {
    assert ([c] + rest)[1..] == rest;
  }

  lemma ByteColumn(c: Column, raw: bytes)
    requires |raw| == 1 == c.width
    ensures ColumnValue(c, raw) == if c.signed then Signed(raw[0]) else raw[0]
  {
    assert raw[1..] == [];
    assert LittleEndian(raw) == raw[0];
    assert Pow2(8 * 1) == 256;
  }

  lemma WideColumn(c: Column, at: bytes, o: nat)
    requires c.width in {2, 4, 8} && !c.signed && o + c.width <= |at|
    ensures ColumnValue(c, at[o..o + c.width])
         == if c.width == 2 then U16(at, o) else if c.width == 4 then U32(at, o) else U64(at, o)
  {
    if c.width == 2 {
      LittleTwo(at, o);
    } else if c.width == 4 {
      LittleFour(at, o);
    } else {
      LittleEight(at, o);
    }
  }

  lemma WholeColumn(c: Column, raw: bytes)
    requires c.width in {2, 8} && !c.signed && |raw| == c.width
    ensures ColumnValue(c, raw) == if c.width == 2 then U16(raw, 0) else U64(raw, 0)
  {
    WideColumn(c, raw, 0);
    assert raw[0..c.width] == raw;
  }

  lemma NumberIs(t: Tables, id: nat, b: bytes)
    requires IsNumber(id) && |b| == WidthOf(id)
    ensures FieldWidth(id) == WidthOf(id) && FieldOf(t, id, b) == FieldsOf(t, id, b)
  {
    hide ColumnValue, U16, U64;
    NumberReader(id);
    var c := Column(NameOf(id), WidthOf(id), id in {5, 6, 10});
    OneColumn(c, b);
    if WidthOf(id) == 1 {
      ByteColumn(c, b);
      if id == 2 {
        RateIs(t, b);
      }
    } else {
      WholeColumn(c, b);
    }
  }

  lemma RateIs(t: Tables, b: bytes)
    requires |b| == 1 && FieldWidth(2) == 1
    ensures FieldOf(t, 2, b) == Ok(map["rate" := Real(b[0] as real / 2.0)])
  {
    assert b[1..] == [];
    assert LittleEndian(b) == b[0];
  }

  lemma TwoWords(a: string, b: string, raw: bytes)
    requires |raw| == 4
    ensures Width([U(a, 2), U(b, 2)]) == 4
    ensures Decode([U(a, 2), U(b, 2)], raw) == map[a := Int(U16(raw, 0)), b := Int(U16(raw, 2))]
  {
    hide ColumnValue, U16;
    OneColumn(U(b, 2), raw[2..]);
    MoreColumns(U(a, 2), [U(b, 2)], raw);
    WideColumn(U(a, 2), raw, 0);
    WideColumn(U(b, 2), raw, 2);
    assert raw[0..2] == raw[..2] && raw[2..4] == raw[2..];
    assert [U(a, 2)] + [U(b, 2)] == [U(a, 2), U(b, 2)];
  }

  lemma TwoBytes(a: string, b: string, raw: bytes)
    requires |raw| == 2
    ensures Width([U(a, 1), U(b, 1)]) == 2
    ensures Decode([U(a, 1), U(b, 1)], raw) == map[a := Int(raw[0]), b := Int(raw[1])]
  {
    hide ColumnValue;
    OneColumn(U(b, 1), raw[1..]);
    MoreColumns(U(a, 1), [U(b, 1)], raw);
    ByteColumn(U(a, 1), raw[..1]);
    ByteColumn(U(b, 1), raw[1..]);
    assert [U(a, 1)] + [U(b, 1)] == [U(a, 1), U(b, 1)];
  }

  lemma ThreeBytes(a: string, b: string, c: string, raw: bytes)
    requires |raw| == 3
    ensures Width([U(a, 1), U(b, 1), U(c, 1)]) == 3
    ensures Decode([U(a, 1), U(b, 1), U(c, 1)], raw) == map[a := Int(raw[0]), b := Int(raw[1]), c := Int(raw[2])]
  {
    hide ColumnValue;
    TwoBytes(b, c, raw[1..]);
    MoreColumns(U(a, 1), [U(b, 1), U(c, 1)], raw);
    ByteColumn(U(a, 1), raw[..1]);
    assert [U(a, 1)] + [U(b, 1), U(c, 1)] == [U(a, 1), U(b, 1), U(c, 1)];
  }

  lemma WordThenBytes(a: string, b: string, c: string, raw: bytes)
    requires |raw| == 4
    ensures Width([U(a, 2), U(b, 1), U(c, 1)]) == 4
    ensures Decode([U(a, 2), U(b, 1), U(c, 1)], raw) == map[a := Int(U16(raw, 0)), b := Int(raw[2]), c := Int(raw[3])]
  {
    hide ColumnValue, U16;
    TwoBytes(b, c, raw[2..]);
    MoreColumns(U(a, 2), [U(b, 1), U(c, 1)], raw);
    WideColumn(U(a, 2), raw, 0);
    assert raw[0..2] == raw[..2];
    assert [U(a, 2)] + [U(b, 1), U(c, 1)] == [U(a, 2), U(b, 1), U(c, 1)];
  }

  lemma WordBehind(raw: bytes)
    requires |raw| == 8
    ensures U16(raw[4..], 0) == U16(raw, 4)
  {
  }

  /** Four bytes, two, one and one. */
  lemma LongRecord(a: string, b: string, c: string, d: string, raw: bytes)
    requires |raw| == 8
    ensures Width([U(a, 4), U(b, 2), U(c, 1), U(d, 1)]) == 8
    ensures Decode([U(a, 4), U(b, 2), U(c, 1), U(d, 1)], raw)
         == map[a := Int(U32(raw, 0)), b := Int(U16(raw, 4)), c := Int(raw[6]), d := Int(raw[7])]
  {
    hide ColumnValue, U16, U32, Decode, Width;
    WordThenBytes(b, c, d, raw[4..]);
    WordBehind(raw);
    MoreColumns(U(a, 4), [U(b, 2), U(c, 1), U(d, 1)], raw);
    WideColumn(U(a, 4), raw, 0);
    assert raw[0..4] == raw[..4];
    assert [U(a, 4)] + [U(b, 2), U(c, 1), U(d, 1)] == [U(a, 4), U(b, 2), U(c, 1), U(d, 1)];
  }

  /** Two columns of a byte each, then others. */
  lemma TwoMore(a: string, b: string, rest: seq<Column>, raw: bytes)
    requires |raw| == 2 + Width(rest)
    ensures Width([U(a, 1), U(b, 1)] + rest) == 2 + Width(rest)
    ensures Decode([U(a, 1), U(b, 1)] + rest, raw) == map[a := Int(raw[0]), b := Int(raw[1])] + Decode(rest, raw[2..])
  {
    hide ColumnValue, Decode, Width;
    MoreColumns(U(b, 1), rest, raw[1..]);
    MoreColumns(U(a, 1), [U(b, 1)] + rest, raw);
    ByteColumn(U(a, 1), raw[..1]);
    ByteColumn(U(b, 1), raw[1..][..1]);
    assert [U(a, 1), U(b, 1)] + rest == [U(a, 1)] + ([U(b, 1)] + rest);
    assert raw[1..][1..] == raw[2..];
  }

  lemma McsIs(t: Tables, b: bytes)
    requires |b| == 3
    ensures FieldWidth(19) == 3 && FieldOf(t, 19, b) == McsOf(t, b)
  {
    hide Decode, Width;
    ThreeBytes("mcs_known", "mcs_flags", "mcs_index", b);
    assert READERS[19].columns == [U("mcs_known", 1), U("mcs_flags", 1), U("mcs_index", 1)];
    ByteColumn(U("mcs_flags", 1), b[1..2]);
    ByteColumn(U("mcs_index", 1), b[2..]);
    assert TestBit(b[1], 2) == TestBit(b[1] / 2 / 2, 0);
    assert b[1] / 2 / 2 == b[1] / 4;
  }

  /** The columns of the VHT field, two by two. */
  function VhtColumns(): seq<Column> {
    [U("vht_known", 2)] + ([U("vht_flags", 1), U("vht_bw", 1)] + ([U("vht_user_0", 1), U("vht_user_1", 1)]
      + ([U("vht_user_2", 1), U("vht_user_3", 1)] + ([U("vht_coding", 1), U("vht_group_id", 1)] + [U("vht_partial_aid", 2)]))))
  }

  lemma VhtReader()
    ensures READERS[21].columns == VhtColumns()
  {
  }

  lemma VhtTail(b: bytes)
    requires |b| == 12
    ensures var c := [U("vht_user_2", 1), U("vht_user_3", 1)]
                     + ([U("vht_coding", 1), U("vht_group_id", 1)] + [U("vht_partial_aid", 2)]);
            && Width(c) == 6
            && Decode(c, b[6..]) == map["vht_user_2" := Int(b[6]), "vht_user_3" := Int(b[7])]
                                  + (map["vht_coding" := Int(b[8]), "vht_group_id" := Int(b[9])]
                                     + map["vht_partial_aid" := Int(U16(b, 10))])
  {
    hide ColumnValue, Decode, Width;
    var aid := U("vht_partial_aid", 2);
    OneColumn(aid, b[10..12]);
    WideColumn(aid, b, 10);
    assert b[6..][2..] == b[8..] && b[8..][2..] == b[10..12];
    TwoMore("vht_coding", "vht_group_id", [aid], b[8..]);
    TwoMore("vht_user_2", "vht_user_3", [U("vht_coding", 1), U("vht_group_id", 1)] + [aid], b[6..]);
  }

  lemma VhtDecodes(b: bytes)
    requires |b| == 12
    ensures Width(VhtColumns()) == 12
    ensures Decode(VhtColumns(), b)
         == map["vht_known" := Int(U16(b, 0))] + (map["vht_flags" := Int(b[2]), "vht_bw" := Int(b[3])]
            + (map["vht_user_0" := Int(b[4]), "vht_user_1" := Int(b[5])]
            + (map["vht_user_2" := Int(b[6]), "vht_user_3" := Int(b[7])]
            + (map["vht_coding" := Int(b[8]), "vht_group_id" := Int(b[9])] + map["vht_partial_aid" := Int(U16(b, 10))]))))
  {
    hide ColumnValue, Decode, Width;
    var tail := [U("vht_user_2", 1), U("vht_user_3", 1)] + ([U("vht_coding", 1), U("vht_group_id", 1)] + [U("vht_partial_aid", 2)]);
    VhtTail(b);
    assert b[2..][2..] == b[4..] && b[4..][2..] == b[6..];
    TwoMore("vht_user_0", "vht_user_1", tail, b[4..]);
    TwoMore("vht_flags", "vht_bw", [U("vht_user_0", 1), U("vht_user_1", 1)] + tail, b[2..]);
    var known := U("vht_known", 2);
    WideColumn(known, b, 0);
    assert b[0..2] == b[..2];
    MoreColumns(known, [U("vht_flags", 1), U("vht_bw", 1)] + ([U("vht_user_0", 1), U("vht_user_1", 1)] + tail), b);
  }

  lemma Visible(name: string)
    requires name in ["vht_known", "vht_flags", "vht_bw", "vht_coding", "vht_group_id"]
    ensures name !in VHT_HIDDEN
  {
    assert name[4] != 'u' && name[4] != 'p';
    forall hidden | hidden in VHT_HIDDEN
      ensures hidden != name
    {
      assert hidden[4] == 'u' || hidden[4] == 'p';
    }
  }

  lemma MinusUnion(m: Fields, n: Fields, names: set<string>)
    ensures (m + n) - names == (m - names) + (n - names)
  {
  }

  lemma StaysWhole(m: Fields, names: set<string>)
    requires m.Keys !! names
    ensures m - names == m
  {
  }

  lemma GoesWhole(m: Fields, names: set<string>)
    requires m.Keys <= names
    ensures m - names == map[]
  {
  }

  lemma VhtHides(known: Fields, flags: Fields, users: Fields, more: Fields, coding: Fields, aid: Fields)
    requires known.Keys !! VHT_HIDDEN && flags.Keys !! VHT_HIDDEN && coding.Keys !! VHT_HIDDEN
    requires users.Keys <= VHT_HIDDEN && more.Keys <= VHT_HIDDEN && aid.Keys <= VHT_HIDDEN
    ensures (known + (flags + (users + (more + (coding + aid))))) - VHT_HIDDEN == known + (flags + coding)
  {
    hide VHT_HIDDEN;
    var h := VHT_HIDDEN;
    MinusUnion(coding, aid, h);
    MinusUnion(more, coding + aid, h);
    MinusUnion(users, more + (coding + aid), h);
    MinusUnion(flags, users + (more + (coding + aid)), h);
    MinusUnion(known, flags + (users + (more + (coding + aid))), h);
    StaysWhole(known, h);
    StaysWhole(flags, h);
    StaysWhole(coding, h);
    GoesWhole(users, h);
    GoesWhole(more, h);
    GoesWhole(aid, h);
    assert coding + map[] == coding && map[] + coding == coding;
  }

  lemma VhtShows(known: Value, flags: Value, bw: Value, coding: Value, group: Value)
    ensures map["vht_known" := known] + (map["vht_flags" := flags, "vht_bw" := bw]
         + map["vht_coding" := coding, "vht_group_id" := group])
         == map["vht_known" := known, "vht_flags" := flags, "vht_bw" := bw, "vht_coding" := coding, "vht_group_id" := group]
  {
  }

  lemma VhtIs(t: Tables, b: bytes)
    requires |b| == 12
    ensures FieldWidth(21) == 12 && FieldOf(t, 21, b) == FieldsOf(t, 21, b)
  {
    hide Decode, Width, U16, VhtColumns;
    VhtReader();
    VhtDecodes(b);
    Visible("vht_known");
    Visible("vht_flags");
    Visible("vht_bw");
    Visible("vht_coding");
    Visible("vht_group_id");
    VhtHides(map["vht_known" := Int(U16(b, 0))], map["vht_flags" := Int(b[2]), "vht_bw" := Int(b[3])],
             map["vht_user_0" := Int(b[4]), "vht_user_1" := Int(b[5])], map["vht_user_2" := Int(b[6]), "vht_user_3" := Int(b[7])],
             map["vht_coding" := Int(b[8]), "vht_group_id" := Int(b[9])], map["vht_partial_aid" := Int(U16(b, 10))]);
    VhtShows(Int(U16(b, 0)), Int(b[2]), Int(b[3]), Int(b[8]), Int(b[9]));
  }

  lemma RecordReaders()
    ensures READERS[3].columns == [U("chan_freq", 2), U("chan_flags", 2)]
    ensures READERS[18].columns == [U("xchannel_flags", 4), U("xchannel_freq", 2), U("xchannel_num", 1), U("xchannel_maxpower", 1)]
    ensures READERS[20].columns == [U("ampdu_refnum", 4), U("ampdu_flags", 2), U("ampdu_delim_crc_val", 1), U("ampdu_reserved", 1)]
  {
  }

  lemma RecordIs(t: Tables, id: nat, b: bytes)
    requires id in {3, 18, 20} && |b| == WidthOf(id)
    ensures FieldWidth(id) == WidthOf(id) && FieldOf(t, id, b) == FieldsOf(t, id, b)
  {
    hide Decode, Width, U16, U32;
    RecordReaders();
    if id == 3 {
      TwoWords("chan_freq", "chan_flags", b);
    } else if id == 18 {
      LongRecord("xchannel_flags", "xchannel_freq", "xchannel_num", "xchannel_maxpower", b);
    } else {
      LongRecord("ampdu_refnum", "ampdu_flags", "ampdu_delim_crc_val", "ampdu_reserved", b);
    }
  }

  /** Every reader reads its field: which bytes it takes, and what they decode to. */
  lemma FieldIs(t: Tables, id: nat, b: bytes)
    requires id < 22 && |b| == WidthOf(id)
    ensures FieldWidth(id) == WidthOf(id) && FieldOf(t, id, b) == FieldsOf(t, id, b)
  {
    hide FieldOf, FieldsOf, FieldWidth;
    if IsNumber(id) {
      NumberIs(t, id, b);
    } else if id == 19 {
      McsIs(t, b);
      McsField(t, b);
    } else if id == 21 {
      VhtIs(t, b);
    } else {
      RecordIs(t, id, b);
    }
  }

  lemma McsField(t: Tables, b: bytes)
    requires |b| == 3
    ensures FieldsOf(t, 19, b) == McsOf(t, b)
  {
  }

  lemma WidthIs(id: nat)
    requires id < 22
    ensures FieldWidth(id) == WidthOf(id)
  {
    hide FieldOf, FieldsOf, FieldWidth, WidthOf;
    FieldIs(Tables((i, j) => 0.0, b => None), id, seq(WidthOf(id), i => 0));
  }

  lemma FieldsNeverRunShort(t: Tables, id: nat, b: bytes)
    requires id < 22 && |b| == WidthOf(id)
    ensures FieldsOf(t, id, b) != Err(StructError) && FieldsOf(t, id, b) != Err(KeyError)
  {
  }

  lemma FieldsAreSome(t: Tables, id: nat, b: bytes)
    requires id < 22 && |b| == WidthOf(id)
    ensures FieldsOf(t, id, b).Ok? ==> FieldsOf(t, id, b).value != map[]
  {
    hide U16, U32, U64, NumberOf;
    if FieldsOf(t, id, b).Ok? {
      var fields := FieldsOf(t, id, b).value;
      assert id == 3 ==> "chan_freq" in fields;
      assert id == 18 ==> "xchannel_freq" in fields;
      assert id == 19 ==> "mcs_known" in fields;
      assert id == 20 ==> "ampdu_flags" in fields;
      assert id == 21 ==> "vht_bw" in fields;
      assert IsNumber(id) ==> NameOf(id) in fields;
    }
  }
}
