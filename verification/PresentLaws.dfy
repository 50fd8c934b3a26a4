/** The order and the namespaces of the events of a presence bitmap. */
module PresentLaws {
  import opened Common
  import opened Bits
  import opened Present

  /** Neighbours: a field after a field has a larger id, and the namespace is the one last switched to. */
  ghost predicate Follows(a: Event, b: Event) {
    b.Field? ==> b.vendor == a.vendor && (a.Field? ==> a.id < b.id)
  }

  /** At first the namespace is radiotap; ids strictly increase up to the next switch. */
  ghost predicate WellOrdered(events: seq<Event>) {
    && (events != [] && events[0].Field? ==> !events[0].vendor)
    && forall p :: 0 <= p < |events| - 1 ==> Follows(events[p], events[p + 1])
  }

  lemma WellOrderedAppend(events: seq<Event>, e: Event)
    requires WellOrdered(events)
    requires if events == [] then e.Field? ==> !e.vendor else Follows(events[|events| - 1], e)
    ensures WellOrdered(events + [e])
  {
    var all := events + [e];
    forall p | 0 <= p < |all| - 1
      ensures Follows(all[p], all[p + 1])
    {
      if p < |events| - 1 {
        assert Follows(events[p], events[p + 1]);
      }
    }
  }

  /** `events` is well ordered and a field with id `bound` in namespace `vendor` may come next. */
  ghost predicate Extendable(events: seq<Event>, vendor: bool, bound: nat) {
    && WellOrdered(events)
    && if events == [] then !vendor
       else events[|events| - 1].vendor == vendor
            && (events[|events| - 1].Field? ==> events[|events| - 1].id < bound)
  }

  lemma BitKeepsOrder(words: seq<nat>, w: nat, i: nat)
    requires w < |words| && i < 32
    requires Extendable(EventsUpTo(words, w, i), VendorAfter(words, w, i), 32 * Since(words, w) + i)
    ensures Extendable(EventsUpTo(words, w, i + 1), VendorAfter(words, w, i + 1), 32 * Since(words, w) + i + 1)
  {
    hide EventsUpTo, Since, WellOrdered;
    BitDone(words, w, i);
    if TestBit(words[w], i) && i != EXTENDED_BIT {
      WellOrderedAppend(EventsUpTo(words, w, i), BitEvent(words, w, i)[0]);
    }
  }

  lemma {:induction false} EventsUpToOrdered(words: seq<nat>, w: nat, i: nat)
    requires if w == |words| then i == 0 else w < |words| && i <= 32
    ensures Extendable(EventsUpTo(words, w, i), VendorAfter(words, w, i), 32 * Since(words, w) + i)
    decreases w, i
  {
    if i > 0 {
      EventsUpToOrdered(words, w, i - 1);
      BitKeepsOrder(words, w, i - 1);
    } else if w > 0 {
      EventsUpToOrdered(words, w - 1, 32);
      LastAfterReset(words, w - 1, 32);
      WordDone(words, w - 1);
    }
  }

  /** A word with a switch bit ends on a switch. */
  lemma {:induction false} LastAfterReset(words: seq<nat>, w: nat, i: nat)
    requires w < |words| && RADIOTAP_BIT <= i <= 32
    ensures var events := EventsUpTo(words, w, i);
            ResetSeen(words[w], i) ==> events != [] && events[|events| - 1].Switch?
    decreases i
  {
    if i > RADIOTAP_BIT {
      LastAfterReset(words, w, i - 1);
      BitDone(words, w, i - 1);
    }
  }

  /** Ids strictly increase between switches, and every field carries the namespace of the latest switch. */
  lemma EventsAreWellOrdered(words: seq<nat>)
    ensures WellOrdered(Events(words))
  {
    EventsUpToOrdered(words, |words|, 0);
  }

  // ---- The events, one for each bit ------------------------------------------------------------

  lemma {:induction false} TestBitIs(n: nat, i: nat)
    ensures TestBit(n, i) <==> n / Pow2(i) % 2 == 1
    decreases i
  {
    if i > 0 {
      TestBitIs(n / 2, i - 1);
      QuotientTwice(n, Pow2(i - 1));
    }
  }

  lemma QuotientTwice(n: nat, k: nat)
    requires k > 0
    ensures n / 2 / k == n / (2 * k)
  {
    var q := n / (2 * k);
    var r := n - 2 * k * q;
    assert 0 <= r < 2 * k;
    assert n / 2 == k * q + r / 2;
    assert 0 <= r / 2 < k;
    QuotientIs(k * q + r / 2, k, q, r / 2);
  }

  lemma QuotientIs(n: nat, k: nat, q: nat, r: nat)
    requires k > 0 && n == k * q + r && r < k
    ensures n / k == q
  {
    SameQuotient(k, n / k, n % k, q, r);
  }

  lemma SameQuotient(k: nat, d: nat, e: nat, q: nat, r: nat)
    requires k * d + e == k * q + r && e < k && r < k
    ensures d == q
  {
    if d < q {
      ProductStep(k, d, q);
    } else if q < d {
      ProductStep(k, q, d);
    }
  }

  /** A word that switches namespace: bit 29 for radiotap, bit 30 for a vendor. */
  predicate Switches(word: nat) {
    TestBit(word, 29) || TestBit(word, 30)
  }

  /** Set bits before bit `i` of word `w`, extension bits aside. */
  function SetBits(words: seq<nat>, w: nat, i: nat): nat
    requires if w == |words| then i == 0 else w < |words| && i <= 32
    decreases w, i
  {
    if i > 0 then SetBits(words, w, i - 1) + (if i - 1 != 31 && TestBit(words[w], i - 1) then 1 else 0)
    else if w > 0 then SetBits(words, w - 1, 32)
    else 0
  }

  lemma {:induction false} EventsCount(words: seq<nat>, w: nat, i: nat)
    requires if w == |words| then i == 0 else w < |words| && i <= 32
    ensures |EventsUpTo(words, w, i)| == SetBits(words, w, i)
    decreases w, i
  {
    if i > 0 {
      EventsCount(words, w, i - 1);
    } else if w > 0 {
      EventsCount(words, w - 1, 32);
    }
  }

  /** Events of earlier bits come first and stay where they are. */
  lemma {:induction false} EventsGrow(words: seq<nat>, v: nat, j: nat, w: nat, i: nat)
    requires v < |words| && j <= 32 && if w == |words| then i == 0 else w < |words| && i <= 32
    requires v < w || (v == w && j <= i)
    ensures var a, b := EventsUpTo(words, v, j), EventsUpTo(words, w, i);
            |a| <= |b| && b[..|a|] == a
    decreases w, i
  {
    hide TestBit;
    if v == w && j == i {
    } else if i > 0 {
      EventsGrow(words, v, j, w, i - 1);
    } else {
      EventsGrow(words, v, j, w - 1, 32);
    }
  }

  /** Between the last word that switches before it and a word, ids count on and the namespace stays. */
  lemma {:induction false} SinceLastSwitch(words: seq<nat>, r: nat, w: nat)
    requires r <= w <= |words| && (r > 0 ==> Switches(words[r - 1]))
    requires forall u :: r <= u < w ==> !Switches(words[u])
    ensures Since(words, w) == w - r && VendorBefore(words, w) == (r > 0 && TestBit(words[r - 1], 30))
    decreases w
  {
    if r < w {
      SinceLastSwitch(words, r, w - 1);
      assert !Switches(words[w - 1]);
    }
  }

  /**
   Every set bit but the extension bits has its event, in the order of the words and their bits, and there are no
   others: bit 29 switches to radiotap, bit 30 to a vendor, and each other bit is a field. Its id counts from the word
   `r` behind the last one that switches, and its namespace is the one that word switched to last.
   */
  lemma EventsAreBits(words: seq<nat>, w: nat, i: nat, r: nat)
    requires w < |words| && i < 31 && TestBit(words[w], i)
    requires r <= w && (r > 0 ==> Switches(words[r - 1])) && forall u :: r <= u < w ==> !Switches(words[u])
    ensures |Events(words)| == SetBits(words, |words|, 0) && SetBits(words, w, i) < |Events(words)|
    ensures Events(words)[SetBits(words, w, i)]
         == if i == 29 then Switch(false) else if i == 30 then Switch(true)
            else Field(r > 0 && TestBit(words[r - 1], 30), 32 * (w - r) + i)
  {
    hide EventsUpTo, SetBits, Since, VendorBefore, TestBit;
    EventsCount(words, |words|, 0);
    EventsCount(words, w, i);
    SinceLastSwitch(words, r, w);
    BitDone(words, w, i);
    EventsGrow(words, w, i + 1, |words|, 0);
    var a, b := EventsUpTo(words, w, i + 1), Events(words);
    assert b[|a| - 1] == b[..|a|][|a| - 1];
  }
}
