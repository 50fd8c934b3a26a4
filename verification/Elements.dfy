/** Received packets: the rebuild check, the index of information elements and the security classification. */
module Elements {
  import opened Common
  import opened Construct
  import opened ConstructLaws
  import opened FieldNames
  import opened WifiGrammar
  import opened WifiLaws

  // ---- Elements of a list ---------------------------------------------------------------------

  /** `element.id`; None is an AttributeError. */
  function IdOf(v: Value): Option<int> {
    if v.Rec? && Id in v.fields && v.fields[Id].Num? then Some(v.fields[Id].n) else None
  }

  /** All elements with an id, in order. */
  function WithId(list: seq<Value>, id: int): (r: seq<Value>) {
    if list == [] then []
    else (if IdOf(list[0]) == Some(id) then [list[0]] else []) + WithId(list[1..], id)
  }

  predicate Repeating(id: int) {
    id == VENDOR_ID || id == EXTENSION_ID || id == INTERWORKING_ID || id == EXTENDED_CAPABILITIES_ID
  }

  /** Vendor specific elements, extensions, interworking and extended capabilities. */
  lemma RepeatingIds(id: int)
    ensures Repeating(id) <==> id in {221, 255, 107, 127}
  {
  }

  /** What the dictionary holds for an id. */
  datatype Entry = One(element: Value) | Many(elements: seq<Value>)

  /** The dictionary is the index of the list: ordered filters for repeating ids, first elements for the others. */
  ghost predicate IsIndex(list: seq<Value>, m: map<int, Entry>) {
    forall id ::
      && (id in m <==> WithId(list, id) != [])
      && (id in m ==> m[id] == if Repeating(id) then Many(WithId(list, id)) else One(WithId(list, id)[0]))
  }

  lemma {:induction false} WithIdAppends(list: seq<Value>, v: Value, id: int)
    ensures WithId(list + [v], id) == WithId(list, id) + (if IdOf(v) == Some(id) then [v] else [])
  {
    hide IdOf;
    if list == [] {
      assert [v][1..] == [];
    } else {
      assert (list + [v])[1..] == list[1..] + [v];
      WithIdAppends(list[1..], v, id);
    }
  }

  // ---- Security ------------------------------------------------------------------------------------

  datatype WiFiSecurity = OPEN | WEP | WPA | WPA2 | WPA3 | WPA3_TRAN

  const WPA_TYPE := 1

  const SAE := 0x000FAC_08
  const PSK := 0x000FAC_02
  const PSK_SHA256 := 0x000FAC_06

  const WEAK_CIPHERS: set<int> := {0x000FAC_01, 0x000FAC_02, 0x000FAC_05}

  function Get(scope: Scope, name: Name): Option<Value> {
    if name in scope then Some(scope[name]) else None
  }

  /** Whether a vendor element announces WPA; None is the AttributeError of one without content. */
  function AnnouncesWpa(v: Value): Option<bool> {
    if !v.Rec? || Info !in v.fields || !v.fields[Info].Rec? then None
    else
      var info := v.fields[Info].fields;
      if Oui !in info then None
      else if info[Oui] != Num(MICROSOFT_OUI) then Some(false)
      else if VendorSpecificContent !in info || !info[VendorSpecificContent].Rec? then None
      else
        var content := info[VendorSpecificContent].fields;
        if VendorType !in content then None else Some(content[VendorType] == Num(WPA_TYPE))
  }

  /** `any` over the vendor elements: the first one that matches or raises decides. */
  function AnyWpa(vendors: seq<Value>): (r: Option<bool>) {
    if vendors == [] then Some(false)
    else
      match AnnouncesWpa(vendors[0])
      case None => None
      case Some(true) => Some(true)
      case Some(false) => AnyWpa(vendors[1..])
  }

  predicate Holding(list: seq<Value>, n: int) {
    Num(n) in list
  }

  predicate Clean(ciphers: seq<Value>) {
    forall i :: 0 <= i < |ciphers| ==> !(ciphers[i].Num? && ciphers[i].n in WEAK_CIPHERS)
  }

  predicate Flag(scope: Scope, name: Name) {
    name in scope && scope[name].Num? && scope[name].n != 0
  }

  /** The class of an RSN element's content; None is the AttributeError of an empty one. */
  function RsnClass(info: Value): Option<WiFiSecurity> {
    if !info.Rec? then None
    else
      match (Get(info.fields, GroupCipherSuite), Get(info.fields, PairwiseCipherSuites), Get(info.fields, AkmSuites),
             Get(info.fields, RsnCapabilities), Get(info.fields, GroupManagementCipherSuite))
      case (Some(group), Some(Listing(pairwise)), Some(Listing(akms)), Some(capabilities), Some(management)) =>
        var ciphers := [group] + pairwise + (if management == Nothing then [] else [management]);
        var capable := capabilities.Rec? && Flag(capabilities.fields, ManagementFrameProtectionCapable);
        var required := capabilities.Rec? && Flag(capabilities.fields, ManagementFrameProtectionRequired);
        if capable && required && Holding(akms, SAE) && !Holding(akms, PSK) && !Holding(akms, PSK_SHA256) && Clean(ciphers)
        then Some(WPA3)
        else if capable && !required && (Holding(akms, PSK) || Holding(akms, SAE)) then Some(WPA3_TRAN)
        else Some(WPA2)
      case _ => None
  }

  function ContentOf(v: Value): Value {
    if v.Rec? && Info in v.fields then v.fields[Info] else Nothing
  }

  /** The privacy bit of a frame's body; a body without capability information raises, an absent one does not. */
  function Private(parsed: Scope): Option<bool> {
    if FrameBody !in parsed then None
    else
      match parsed[FrameBody]
      case Nothing => Some(false)
      case Data(d) => if d == [] then Some(false) else None
      case Rec(body) =>
        if body == map[] then Some(false)
        else if CapabilityInfo !in body || !body[CapabilityInfo].Rec? || Privacy !in body[CapabilityInfo].fields then None
        else Some(Flag(body[CapabilityInfo].fields, Privacy))
      case _ => None
  }

  /** The security of a frame with these elements and this privacy bit. */
  function Classify(list: seq<Value>, privacy: Option<bool>): (r: Option<seq<WiFiSecurity>>) {
    match AnyWpa(WithId(list, VENDOR_ID))
    case None => None
    case Some(wpa) =>
      var found := if wpa then [WPA] else [];
      var rsn := WithId(list, RSN_ID);
      if rsn != [] then
        match RsnClass(ContentOf(rsn[0]))
        case None => None
        case Some(c) => Some(found + [c])
      else if wpa then Some(found)
      else
        match privacy
        case None => None
        case Some(p) => Some([if p then WEP else OPEN])
  }

  // ---- The packet ------------------------------------------------------------------------------------

  /** The elements of a parsed frame: none unless its body has that attribute. */
  function ElementsOf(parsed: Scope): seq<Value> {
    if FrameBody in parsed && parsed[FrameBody].Rec? && InformationElements in parsed[FrameBody].fields
       && parsed[FrameBody].fields[InformationElements].Listing?
    then parsed[FrameBody].fields[InformationElements].items
    else []
  }

  lemma FrameIsRecord(cs: Codecs, data: bytes)
    requires ParseFrame(cs, data).Some?
    ensures ParseFrame(cs, data).value.value.Rec?
  {
  }

  class WiFiPacket {
    var parsedData: Scope
    var elements: map<int, Entry>
    /** Whether the rebuild warning was logged. */
    var warned: bool

    ghost predicate Valid()
      reads this
    {
      IsIndex(ElementsOf(parsedData), elements)
    }

    constructor (parsed: Scope, warned: bool)
      ensures Valid() && parsedData == parsed && this.warned == warned
    {
      parsedData, elements, this.warned := parsed, map[], warned;
      new;
      ParseIeElements();
    }

    /** A packet that does not parse raises: its attributes are then never set. */
    static method Receive(cs: Codecs, data: bytes) returns (packet: WiFiPacket?)
      requires Lawful(cs)
      ensures packet == null <==> ParseFrame(cs, data).None?
      ensures packet != null ==>
                var p := ParseFrame(cs, data).value;
                && fresh(packet) && packet.Valid() && Rec(packet.parsedData) == p.value
                && (packet.warned <==> p.rest != [] || !AllRebuild(cs, p.texts))
    {
      var parsed := ParseFrame(cs, data);
      if parsed.None? {
        return null;
      }
      FrameIsRecord(cs, data);
      var rebuilt := BuildFrame(cs, parsed.value.value);
      RebuildCheckPassesExactlyWhen(cs, data);
      FrameRebuilds(cs, data);
      packet := new WiFiPacket(parsed.value.value.fields, rebuilt.Some? && rebuilt.value != data);
    }

    /** Fills the dictionary in one pass over the elements. */
    method ParseIeElements()
      modifies this`elements
      ensures Valid()
    {
      var list := ElementsOf(parsedData);
      elements := map[];
      for i := 0 to |list|
        invariant IsIndex(list[..i], elements)
      {
        ghost var before := elements;
        var id := IdOf(list[i]);
        if id.Some? {
          if Repeating(id.value) {
            if id.value !in elements {
              elements := elements[id.value := Many([])];
            }
            elements := elements[id.value := Many(elements[id.value].elements + [list[i]])];
          } else if id.value !in elements {
            elements := elements[id.value := One(list[i])];
          }
        }
        IndexGrows(list[..i], list[i], before, elements);
        assert list[..i] + [list[i]] == list[..i + 1];
      }
      assert list[..|list|] == list;
    }

    /** The security list, read off the dictionary; None is an AttributeError. */
    method Security() returns (security: Option<seq<WiFiSecurity>>)
      requires Valid()
      ensures security == Classify(ElementsOf(parsedData), Private(parsedData))
    {
      var found: seq<WiFiSecurity> := [];
      if VENDOR_ID in elements {
        var wpa := AnyWpa(elements[VENDOR_ID].elements);
        if wpa.None? {
          return None;
        }
        if wpa.value {
          found := found + [WPA];
        }
      }
      assert found == [] || found == [WPA];
      if RSN_ID in elements {
        var c := RsnClass(ContentOf(elements[RSN_ID].element));
        if c.None? {
          return None;
        }
        found := found + [c.value];
      }
      if found == [] {
        var p := Private(parsedData);
        if p.None? {
          return None;
        }
        found := found + [if p.value then WEP else OPEN];
        assert found == [if p.value then WEP else OPEN];
      }
      security := Some(found);
    }
  }

  /** One element more, and the dictionary that goes with it. */
  lemma IndexGrows(list: seq<Value>, v: Value, m: map<int, Entry>, n: map<int, Entry>)
    requires IsIndex(list, m)
    requires match IdOf(v)
             case None => n == m
             case Some(id) =>
               if Repeating(id) then n == m[id := Many((if id in m then m[id].elements else []) + [v])]
               else n == if id in m then m else m[id := One(v)]
    ensures IsIndex(list + [v], n)
  {
    forall id
      ensures && (id in n <==> WithId(list + [v], id) != [])
              && (id in n ==> n[id] == if Repeating(id) then Many(WithId(list + [v], id)) else One(WithId(list + [v], id)[0]))
    {
      WithIdAppends(list, v, id);
      assert id in m <==> WithId(list, id) != [];
    }
  }
}
