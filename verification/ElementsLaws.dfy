/** What the security classification depends on. */
module ElementsLaws {
  import opened Common
  import opened Construct
  import opened FieldNames
  import opened WifiGrammar
  import opened Elements

  // ---- Filters ------------------------------------------------------------------------------

  lemma {:induction false} WithIdConcat(a: seq<Value>, b: seq<Value>, id: int)
    ensures WithId(a + b, id) == WithId(a, id) + WithId(b, id)
    decreases |a|
  {
    if a == [] {
      assert a + b == b;
    } else {
      WithIdConcat(a[1..], b, id);
      assert (a + b)[1..] == a[1..] + b;
    }
  }

  lemma {:induction false} WithIdCounts(list: seq<Value>, id: int, v: Value)
    ensures multiset(WithId(list, id))[v] == if IdOf(v) == Some(id) then multiset(list)[v] else 0
  {
    if list != [] {
      WithIdCounts(list[1..], id, v);
      assert list == [list[0]] + list[1..];
      var head := if IdOf(list[0]) == Some(id) then [list[0]] else [];
      assert multiset(WithId(list, id)) == multiset(head) + multiset(WithId(list[1..], id));
    }
  }

  /** The elements with one id are the same ones in any order. */
  lemma WithIdReordered(a: seq<Value>, b: seq<Value>, id: int)
    requires multiset(a) == multiset(b)
    ensures multiset(WithId(a, id)) == multiset(WithId(b, id))
  {
    forall v
      ensures multiset(WithId(a, id))[v] == multiset(WithId(b, id))[v]
    {
      WithIdCounts(a, id, v);
      WithIdCounts(b, id, v);
    }
  }

  lemma {:induction false} NoneWithId(list: seq<Value>, id: int)
    requires forall v :: v in list ==> IdOf(v) != Some(id)
    ensures WithId(list, id) == []
  {
    if list != [] {
      assert list[0] in list;
      NoneWithId(list[1..], id);
    }
  }

  // ---- Scanning the vendor elements ------------------------------------------------------------------

  ghost predicate SomeRaises(vendors: seq<Value>) {
    exists v :: v in vendors && AnnouncesWpa(v) == None
  }

  ghost predicate SomeMatches(vendors: seq<Value>) {
    exists v :: v in vendors && AnnouncesWpa(v) == Some(true)
  }

  /** Unless some element raises and some matches, the scan does not depend on the order. */
  lemma {:induction false} ScanByMembers(vendors: seq<Value>)
    requires !(SomeRaises(vendors) && SomeMatches(vendors))
    ensures AnyWpa(vendors) == if SomeRaises(vendors) then None else Some(SomeMatches(vendors))
  {
    if vendors != [] {
      var v, rest := vendors[0], vendors[1..];
      assert vendors == [v] + rest;
      assert v in vendors;
      ScanByMembers(rest);
    }
  }

  lemma SameMembers(a: seq<Value>, b: seq<Value>)
    requires multiset(a) == multiset(b)
    ensures SomeRaises(a) == SomeRaises(b) && SomeMatches(a) == SomeMatches(b)
  {
    forall v
      ensures v in a <==> v in b
    {
      assert v in multiset(a) <==> v in multiset(b);
    }
  }

  // ---- Reordering -----------------------------------------------------------------------------------------

  /** The same elements in another order that keeps the RSN elements in theirs. */
  ghost predicate Reordered(a: seq<Value>, b: seq<Value>) {
    multiset(a) == multiset(b) && WithId(a, RSN_ID) == WithId(b, RSN_ID)
  }

  /** The first RSN element has no content, and reading it raises. */
  predicate RsnRaises(list: seq<Value>) {
    WithId(list, RSN_ID) != [] && RsnClass(ContentOf(WithId(list, RSN_ID)[0])) == None
  }

  /** A vendor element without content next to one that announces WPA: the order decides which is met first. */
  ghost predicate OrderSensitive(list: seq<Value>) {
    SomeRaises(WithId(list, VENDOR_ID)) && SomeMatches(WithId(list, VENDOR_ID))
  }

  lemma ReorderKeepsSecurity(a: seq<Value>, b: seq<Value>, privacy: Option<bool>)
    requires Reordered(a, b) && (!OrderSensitive(a) || RsnRaises(a))
    ensures Classify(a, privacy) == Classify(b, privacy)
  {
    if !OrderSensitive(a) {
      WithIdReordered(a, b, VENDOR_ID);
      SameMembers(WithId(a, VENDOR_ID), WithId(b, VENDOR_ID));
      ScanByMembers(WithId(a, VENDOR_ID));
      ScanByMembers(WithId(b, VENDOR_ID));
    }
  }

  function Fronted(list: seq<Value>, i: nat): seq<Value>
    requires i < |list|
  {
    [list[i]] + list[..i] + list[i + 1..]
  }

  lemma ThreePartsSwap(a: seq<Value>, b: seq<Value>, c: seq<Value>)
    ensures multiset(a + b + c) == multiset(b + a + c)
  {
    assert multiset(a + b + c) == multiset(a) + multiset(b) + multiset(c);
    assert multiset(b + a + c) == multiset(b) + multiset(a) + multiset(c);
  }

  lemma FrontedIsReordered(list: seq<Value>, i: nat)
    requires i < |list| && IdOf(list[i]) != Some(RSN_ID)
    ensures Reordered(list, Fronted(list, i))
  {
    var v, a, b := [list[i]], list[..i], list[i + 1..];
    assert list == a + v + b;
    ThreePartsSwap(a, v, b);
    ThreeParts(v, a, b, RSN_ID);
    ThreeParts(a, v, b, RSN_ID);
    NoneWithId(v, RSN_ID);
    assert [] + WithId(a, RSN_ID) == WithId(a, RSN_ID) + [];
  }

  lemma ThreeParts(a: seq<Value>, b: seq<Value>, c: seq<Value>, id: int)
    ensures WithId(a + b + c, id) == WithId(a, id) + WithId(b, id) + WithId(c, id)
  {
    WithIdConcat(a + b, c, id);
    WithIdConcat(a, b, id);
  }

  lemma WithIdMember(list: seq<Value>, id: int, v: Value)
    requires v in WithId(list, id)
    ensures v in list && IdOf(v) == Some(id)
  {
    WithIdCounts(list, id, v);
    assert v in multiset(WithId(list, id));
    assert v in multiset(list);
  }

  lemma FrontedScansFirst(list: seq<Value>, i: nat)
    requires i < |list| && IdOf(list[i]) == Some(VENDOR_ID) && AnnouncesWpa(list[i]) != Some(false)
    ensures AnyWpa(WithId(Fronted(list, i), VENDOR_ID)) == AnnouncesWpa(list[i])
  {
    var rest := list[..i] + list[i + 1..];
    assert Fronted(list, i) == [list[i]] + rest;
    assert Fronted(list, i)[1..] == rest;
    assert WithId(Fronted(list, i), VENDOR_ID) == [list[i]] + WithId(rest, VENDOR_ID);
  }

  /** Where the order decides, one order raises and another one does not. */
  lemma OrderDecides(list: seq<Value>, privacy: Option<bool>) returns (a: seq<Value>, b: seq<Value>)
    requires OrderSensitive(list) && !RsnRaises(list)
    ensures Reordered(list, a) && Reordered(list, b)
    ensures Classify(a, privacy) == None && Classify(b, privacy).Some?
  {
    var bad :| bad in WithId(list, VENDOR_ID) && AnnouncesWpa(bad) == None;
    var wpa :| wpa in WithId(list, VENDOR_ID) && AnnouncesWpa(wpa) == Some(true);
    WithIdMember(list, VENDOR_ID, bad);
    WithIdMember(list, VENDOR_ID, wpa);
    var i :| 0 <= i < |list| && list[i] == bad;
    var j :| 0 <= j < |list| && list[j] == wpa;
    a, b := Fronted(list, i), Fronted(list, j);
    FrontedIsReordered(list, i);
    FrontedIsReordered(list, j);
    FrontedScansFirst(list, i);
    FrontedScansFirst(list, j);
  }

  /**
   The security list is the same for every reordering that keeps the RSN elements in
   order, exactly when no vendor element without content stands beside one that
   announces WPA, or reading the RSN element raises in any case.
   */
  lemma SecurityIsOrderFreeExactlyWhen(list: seq<Value>, privacy: Option<bool>)
    ensures (forall other :: Reordered(list, other) ==> Classify(other, privacy) == Classify(list, privacy))
            <==> !OrderSensitive(list) || RsnRaises(list)
  {
    if !OrderSensitive(list) || RsnRaises(list) {
      forall other | Reordered(list, other)
        ensures Classify(other, privacy) == Classify(list, privacy)
      {
        ReorderKeepsSecurity(list, other, privacy);
      }
    } else {
      var a, b := OrderDecides(list, privacy);
    }
  }

  /** RSN elements after the first one never matter. */
  lemma LaterRsnElementsAreIgnored(list: seq<Value>, more: seq<Value>, privacy: Option<bool>)
    requires WithId(list, RSN_ID) != [] && forall v :: v in more ==> IdOf(v) == Some(RSN_ID)
    ensures Classify(list + more, privacy) == Classify(list, privacy)
  {
    WithIdConcat(list, more, RSN_ID);
    WithIdConcat(list, more, VENDOR_ID);
    NoneWithId(more, VENDOR_ID);
    assert WithId(list + more, VENDOR_ID) == WithId(list, VENDOR_ID);
    assert WithId(list + more, RSN_ID)[0] == WithId(list, RSN_ID)[0];
  }

  lemma WithIdSkips(list: seq<Value>, more: seq<Value>, rest: seq<Value>, id: int)
    requires forall v :: v in more ==> IdOf(v) != Some(id)
    ensures WithId(list + more + rest, id) == WithId(list + rest, id)
  {
    NoneWithId(more, id);
    ThreeParts(list, more, rest, id);
    WithIdConcat(list, rest, id);
  }

  /** Elements that are neither RSN nor vendor elements never matter, wherever they stand. */
  lemma OtherElementsAreIgnored(list: seq<Value>, more: seq<Value>, rest: seq<Value>, privacy: Option<bool>)
    requires forall v :: v in more ==> IdOf(v) != Some(RSN_ID) && IdOf(v) != Some(VENDOR_ID)
    ensures Classify(list + more + rest, privacy) == Classify(list + rest, privacy)
  {
    WithIdSkips(list, more, rest, RSN_ID);
    WithIdSkips(list, more, rest, VENDOR_ID);
  }

  /**
   WPA comes first if a vendor element announces it, then the class of the first RSN element if there is one: there
   are two entries exactly when there are both. WEP and OPEN stand alone, exactly where there is neither.
   */
  lemma SecurityShape(list: seq<Value>, privacy: Option<bool>)
    requires Classify(list, privacy).Some?
    ensures var s, wpa, rsn := Classify(list, privacy).value, SomeMatches(WithId(list, 221)), WithId(list, 48);
            && 1 <= |s| <= 2 && (|s| == 2 <==> wpa && rsn != [])
            && (wpa <==> s[0] == WPA) && (wpa && rsn == [] ==> s == [WPA])
            && (rsn != [] ==> RsnClass(ContentOf(rsn[0])) == Some(s[|s| - 1]) && s[|s| - 1] in {WPA2, WPA3, WPA3_TRAN})
            && (!wpa && rsn == [] ==> privacy.Some? && s == [if privacy.value then WEP else OPEN])
  {
    ScanFindsMatches(WithId(list, VENDOR_ID));
    if WithId(list, RSN_ID) != [] {
      RsnClassIsOneOf(ContentOf(WithId(list, RSN_ID)[0]));
    }
  }

  lemma {:induction false} ScanFindsMatches(vendors: seq<Value>)
    requires AnyWpa(vendors).Some?
    ensures AnyWpa(vendors) == Some(SomeMatches(vendors))
  {
    if vendors != [] {
      var v, rest := vendors[0], vendors[1..];
      assert vendors == [v] + rest;
      assert v in vendors;
      if AnnouncesWpa(v) == Some(false) {
        ScanFindsMatches(rest);
      }
    }
  }

  lemma RsnClassIsOneOf(info: Value)
    ensures RsnClass(info).Some? ==> RsnClass(info).value in {WPA2, WPA3, WPA3_TRAN}
  {
  }

  // ---- The RSN classes -----------------------------------------------------------------------------------

  predicate Lists(content: Scope, name: Name, n: int) {
    name in content && content[name].Listing? && Num(n) in content[name].items
  }

  /** The cipher suite `n` is the group cipher, a pairwise cipher or the group management cipher. */
  predicate Uses(content: Scope, n: int) {
    || (GroupCipherSuite in content && content[GroupCipherSuite] == Num(n))
    || Lists(content, PairwiseCipherSuites, n)
    || (GroupManagementCipherSuite in content && content[GroupManagementCipherSuite] == Num(n))
  }

  predicate Announces(content: Scope, capability: Name) {
    RsnCapabilities in content && content[RsnCapabilities].Rec? && Flag(content[RsnCapabilities].fields, capability)
  }

  predicate ProtectionRequired(content: Scope) {
    Announces(content, ManagementFrameProtectionRequired)
  }

  predicate ProtectionCapable(content: Scope) {
    Announces(content, ManagementFrameProtectionCapable)
  }

  /** The ciphers that are examined are those the element uses. */
  lemma CleanCiphers(content: Scope, group: Value, pairwise: seq<Value>, management: Value)
    requires GroupCipherSuite in content && content[GroupCipherSuite] == group
    requires PairwiseCipherSuites in content && content[PairwiseCipherSuites] == Listing(pairwise)
    requires GroupManagementCipherSuite in content && content[GroupManagementCipherSuite] == management
    ensures Clean([group] + pairwise + (if management == Nothing then [] else [management]))
            <==> !Uses(content, 0x000FAC_01) && !Uses(content, 0x000FAC_02) && !Uses(content, 0x000FAC_05)
  {
    var ciphers := [group] + pairwise + (if management == Nothing then [] else [management]);
    forall n | n in WEAK_CIPHERS
      ensures Uses(content, n) <==> Num(n) in ciphers
    {
      assert Num(n) in ciphers <==> Num(n) == group || Num(n) in pairwise || Num(n) == management;
    }
    if Clean(ciphers) {
      forall n | n in WEAK_CIPHERS
        ensures Num(n) !in ciphers
      {
        if i :| 0 <= i < |ciphers| && ciphers[i] == Num(n) {
          assert false;
        }
      }
    } else {
      var i :| 0 <= i < |ciphers| && ciphers[i].Num? && ciphers[i].n in WEAK_CIPHERS;
      assert ciphers[i] in ciphers && ciphers[i] == Num(ciphers[i].n);
    }
  }

  /**
   WPA3 exactly when management frame protection is required and supported, SAE is
   offered, neither PSK nor PSK with SHA-256 is, and no cipher is WEP or TKIP.
   */
  lemma Wpa3ExactlyWhen(content: Scope)
    requires RsnClass(Rec(content)).Some?
    ensures RsnClass(Rec(content)) == Some(WPA3)
            <==> && ProtectionRequired(content) && ProtectionCapable(content)
                 && Lists(content, AkmSuites, 0x000FAC_08)
                 && !Lists(content, AkmSuites, 0x000FAC_02) && !Lists(content, AkmSuites, 0x000FAC_06)
                 && !Uses(content, 0x000FAC_01) && !Uses(content, 0x000FAC_02) && !Uses(content, 0x000FAC_05)
  {
    CleanCiphers(content, content[GroupCipherSuite], content[PairwiseCipherSuites].items, content[GroupManagementCipherSuite]);
  }

  /** Transition mode as its comment defines it: protection supported, not required, and both PSK and SAE offered. */
  predicate DocumentedTransition(content: Scope) {
    && ProtectionCapable(content) && !ProtectionRequired(content)
    && Lists(content, AkmSuites, 0x000FAC_02) && Lists(content, AkmSuites, 0x000FAC_08)
  }

  /** The code asks for one of the two only: it meets its comment except where protection is optional and just one is offered. */
  lemma TransitionIsAsDocumentedExactlyWhen(content: Scope)
    requires RsnClass(Rec(content)).Some?
    ensures (RsnClass(Rec(content)) == Some(WPA3_TRAN) <==> DocumentedTransition(content))
            <==> !(&& ProtectionCapable(content) && !ProtectionRequired(content)
                   && (Lists(content, AkmSuites, 0x000FAC_02) <==> !Lists(content, AkmSuites, 0x000FAC_08)))
  {
    assert content[AkmSuites].Listing?;
  }

  /** The failing case on one element: optional protection and PSK alone is called transition mode. */
  lemma PskAloneIsCalledTransition()
    ensures var content: Scope :=
              map[GroupCipherSuite := Num(0x000FAC_04), PairwiseCipherSuites := Listing([Num(0x000FAC_04)]),
                  AkmSuites := Listing([Num(0x000FAC_02)]), GroupManagementCipherSuite := Nothing,
                  RsnCapabilities := Rec(map[ManagementFrameProtectionCapable := Num(1),
                                             ManagementFrameProtectionRequired := Num(0)])];
            RsnClass(Rec(content)) == Some(WPA3_TRAN) && !DocumentedTransition(content)
  {
    assert Num(0x000FAC_02) in [Num(0x000FAC_02)];
  }
}
