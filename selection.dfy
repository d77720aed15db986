/** The values the calculator derives from its checkboxes: the intent mask and event count it
    should hold, the event list it displays, whether "Clear" is shown, and which checkboxes are
    disabled. The checkboxes are one boolean per catalog entry, in catalog order. */
module Selection {
  import opened Bits
  import opened Intents

  /** The contribution of catalog entry k to the mask when its box holds `on`. */
  function BitTerm(on: bool, k: nat): nat
    requires k < |CATALOG|
  {
    if on then Pow2(CATALOG[k].bit) else 0
  }

  /** Sum of `1 << bit` over the checked entries among the first n. */
  function MaskUpTo(c: seq<bool>, n: nat): nat
    requires n <= |c| == |CATALOG|
  {
    if n == 0 then 0 else MaskUpTo(c, n - 1) + BitTerm(c[n - 1], n - 1)
  }

  /** The mask computed from scratch: sum of `1 << bit` over every checked intent. */
  function Mask(c: seq<bool>): nat
    requires |c| == |CATALOG|
  {
    MaskUpTo(c, |c|)
  }

  /** Sum of the event-list lengths of the checked entries among the first n. */
  function EventCountUpTo(c: seq<bool>, n: nat): nat
    requires n <= |c| == |CATALOG|
  {
    if n == 0 then 0
    else EventCountUpTo(c, n - 1) + (if c[n - 1] then |CATALOG[n - 1].events| else 0)
  }

  /** The event count computed from scratch: the default events plus every checked intent's events. */
  function EventCount(c: seq<bool>): nat
    requires |c| == |CATALOG|
  {
    |DEFAULT_INTENTS| + EventCountUpTo(c, |c|)
  }

  /** All boxes unchecked, as the initial state builds them. */
  function NoneChecked(): (c: seq<bool>)
    ensures |c| == |CATALOG| && forall k :: 0 <= k < |c| ==> !c[k]
  {
    seq(|CATALOG|, _ => false)
  }

  /** All boxes checked. */
  function AllChecked(): (c: seq<bool>)
    ensures |c| == |CATALOG| && forall k :: 0 <= k < |c| ==> c[k]
  {
    seq(|CATALOG|, _ => true)
  }

  // ---------------------------------------------------------------------------------------
  // The mask

  /** One past the highest bit used by the first n entries (0 when n is 0). */
  function TopBit(n: nat): nat
    requires n <= |CATALOG|
  {
    if n == 0 then 0 else CATALOG[n - 1].bit + 1
  }

  /** The first n entries only reach bits below TopBit(n). */
  lemma {:induction false} MaskBelowTop(c: seq<bool>, n: nat)
    requires n <= |c| == |CATALOG|
    ensures MaskUpTo(c, n) < Pow2(TopBit(n))
  {
    if n > 0 {
      var b := CATALOG[n - 1].bit;
      MaskBelowTop(c, n - 1);
      if n > 1 {
        BitsIncreasing(n - 2, n - 1);
      }
      Pow2Monotone(TopBit(n - 1), b);
    }
  }

  /** The last of the first n entries decides its own bit. */
  lemma {:induction false} MaskUpToTopBit(c: seq<bool>, n: nat)
    requires 0 < n <= |c| == |CATALOG|
    ensures BitSet(MaskUpTo(c, n), CATALOG[n - 1].bit) <==> c[n - 1]
  {
    var top := CATALOG[n - 1].bit;
    var low := MaskUpTo(c, n - 1);
    assert low < Pow2(top) by {
      MaskBelowTop(c, n - 1);
      if n > 1 {
        BitsIncreasing(n - 2, n - 1);
      }
      Pow2Monotone(TopBit(n - 1), top);
    }
    BitOfPower(low, top);
  }

  /** Bits below the last entry's bit are those of the first n - 1 entries. */
  lemma {:induction false} MaskUpToLowerBit(c: seq<bool>, n: nat, b: nat)
    requires 0 < n <= |c| == |CATALOG| && b < CATALOG[n - 1].bit
    ensures BitSet(MaskUpTo(c, n), b) <==> BitSet(MaskUpTo(c, n - 1), b)
  {
    if c[n - 1] {
      BitBelowPower(MaskUpTo(c, n - 1), CATALOG[n - 1].bit, b);
    }
  }

  /** Bits at or above TopBit(n) are clear in the mask of the first n entries. */
  lemma {:induction false} MaskUpToHigherBit(c: seq<bool>, n: nat, b: nat)
    requires n <= |c| == |CATALOG| && TopBit(n) <= b
    ensures !BitSet(MaskUpTo(c, n), b)
  {
    MaskBelowTop(c, n);
    Pow2Monotone(TopBit(n), b);
    BitAboveRange(MaskUpTo(c, n), b);
  }

  /** Bit b of the mask of the first n entries is set exactly when one of them is checked and has bit b. */
  lemma {:induction false} MaskUpToBits(c: seq<bool>, n: nat, b: nat)
    requires n <= |c| == |CATALOG|
    ensures BitSet(MaskUpTo(c, n), b) <==> exists k :: 0 <= k < n && c[k] && CATALOG[k].bit == b
  {
    if n == 0 {
      MaskUpToHigherBit(c, n, b);
    } else {
      var top := CATALOG[n - 1].bit;
      forall k | 0 <= k < n - 1
        ensures CATALOG[k].bit < top
      {
        BitsIncreasing(k, n - 1);
      }
      if b == top {
        MaskUpToTopBit(c, n);
      } else if b < top {
        MaskUpToLowerBit(c, n, b);
        MaskUpToBits(c, n - 1, b);
      } else {
        MaskUpToHigherBit(c, n, b);
      }
    }
  }

  /** The bit of intent k is set in the mask exactly when intent k is checked. */
  lemma {:induction false} MaskBitOfIntent(c: seq<bool>, k: nat)
    requires |c| == |CATALOG| && k < |CATALOG|
    ensures BitSet(Mask(c), CATALOG[k].bit) <==> c[k]
  {
    MaskUpToBits(c, |c|, CATALOG[k].bit);
    if !c[k] {
      forall j | 0 <= j < |c| && c[j]
        ensures CATALOG[j].bit != CATALOG[k].bit
      {
        BitsDistinct(j, k);
      }
    }
  }

  /** A bit that no catalog entry uses (17, 18, 19, or 22 and above) is never set in the mask. */
  lemma {:induction false} UnusedBitsClear(c: seq<bool>, b: nat)
    requires |c| == |CATALOG|
    requires forall k :: 0 <= k < |CATALOG| ==> CATALOG[k].bit != b
    ensures !BitSet(Mask(c), b)
  {
    MaskUpToBits(c, |c|, b);
  }

  /** Changing box k from c[k] to v changes the mask by the difference of the two terms of entry k. */
  lemma {:induction false} MaskUpToUpdate(c: seq<bool>, n: nat, k: nat, v: bool)
    requires n <= |c| == |CATALOG| && k < |c|
    ensures MaskUpTo(c[k := v], n)
         == MaskUpTo(c, n) + (if k < n then BitTerm(v, k) - BitTerm(c[k], k) else 0)
  {
    if n > 0 {
      MaskUpToUpdate(c, n - 1, k, v);
    }
  }

  /** Checking an unchecked intent adds `1 << bit` to the from-scratch mask; unchecking a checked
      one subtracts it. */
  lemma {:induction false} MaskFlip(c: seq<bool>, k: nat)
    requires |c| == |CATALOG| && k < |c|
    ensures !c[k] ==> Mask(c[k := true]) == Mask(c) + Pow2(CATALOG[k].bit)
    ensures c[k] ==> Mask(c[k := false]) == Mask(c) - Pow2(CATALOG[k].bit)
  {
    MaskUpToUpdate(c, |c|, k, !c[k]);
  }

  /** Adding `1 << bit` for an intent that is already checked does not give the from-scratch mask:
      the incremental update is only exact when the checkbox really flips. */
  lemma {:induction false} RepeatedCheckDrifts(c: seq<bool>, k: nat)
    requires |c| == |CATALOG| && k < |c|
    requires c[k]
    ensures Mask(c[k := true]) != Mask(c) + Pow2(CATALOG[k].bit)
  {
    assert c[k := true] == c;
  }

  lemma {:induction false} MaskUpToMonotone(c: seq<bool>, n: nat)
    requires n <= |c| == |CATALOG|
    ensures MaskUpTo(c, n) <= MaskUpTo(AllChecked(), n)
  {
    if n > 0 {
      MaskUpToMonotone(c, n - 1);
    }
  }

  /** With bits 0..16 in the first 17 entries, their full mask is 2^n - 1. */
  lemma {:induction false} MaskOfLowEntries(n: nat)
    requires n <= 17
    ensures MaskUpTo(AllChecked(), n) + 1 == Pow2(n)
  {
    if n > 0 {
      MaskOfLowEntries(n - 1);
      BitPositions();
      assert BitPositionList()[n - 1] == n - 1;
    }
  }

  /** Every intent checked gives 131071 + 2^20 + 2^21 = 3276799. */
  lemma {:induction false} FullMask()
    ensures Mask(AllChecked()) == 3276799
  {
    MaskOfLowEntries(17);
    Pow2Values();
    BitPositions();
    assert BitPositionList()[17] == 20 && BitPositionList()[18] == 21;
  }

  /** The mask lies between 0 (nothing checked) and 3276799 (everything checked). */
  lemma {:induction false} MaskBounds(c: seq<bool>)
    requires |c| == |CATALOG|
    ensures 0 <= Mask(c) <= 3276799
  {
    MaskUpToMonotone(c, |c|);
    FullMask();
  }

  /** GUILDS alone gives mask 1, GUILD_MEMBERS alone 2, and both together 3. */
  lemma {:induction false} FirstTwoMasks()
    ensures Mask(NoneChecked()[GUILDS := true]) == 1
    ensures Mask(NoneChecked()[GUILD_MEMBERS := true]) == 2
    ensures Mask(NoneChecked()[GUILDS := true][GUILD_MEMBERS := true]) == 3
  {
    var none := NoneChecked();
    NothingChecked();
    NamedPositions();
    MaskFlip(none, GUILDS);
    MaskFlip(none, GUILD_MEMBERS);
    MaskFlip(none[GUILDS := true], GUILD_MEMBERS);
    assert Pow2(1) == 2;
  }

  lemma {:induction false} MaskUpToOfNone(n: nat)
    requires n <= |CATALOG|
    ensures MaskUpTo(NoneChecked(), n) == 0 && EventCountUpTo(NoneChecked(), n) == 0
  {
    if n > 0 {
      MaskUpToOfNone(n - 1);
    }
  }

  /** With no box checked the mask is 0 and only the five default events count. */
  lemma {:induction false} NothingChecked()
    ensures Mask(NoneChecked()) == 0 && EventCount(NoneChecked()) == 5
  {
    MaskUpToOfNone(|CATALOG|);
  }

  // ---------------------------------------------------------------------------------------
  // The event count and the displayed event list

  lemma {:induction false} EventCountUpToUpdate(c: seq<bool>, n: nat, k: nat, v: bool)
    requires n <= |c| == |CATALOG| && k < |c|
    ensures EventCountUpTo(c[k := v], n) + (if k < n && c[k] then |CATALOG[k].events| else 0)
         == EventCountUpTo(c, n) + (if k < n && v then |CATALOG[k].events| else 0)
  {
    if n > 0 {
      EventCountUpToUpdate(c, n - 1, k, v);
    }
  }

  /** Checking an unchecked intent adds its number of events to the from-scratch count;
      unchecking a checked one subtracts it. */
  lemma {:induction false} EventCountFlip(c: seq<bool>, k: nat)
    requires |c| == |CATALOG| && k < |c|
    ensures !c[k] ==> EventCount(c[k := true]) == EventCount(c) + |CATALOG[k].events|
    ensures c[k] ==> EventCount(c[k := false]) == EventCount(c) - |CATALOG[k].events|
  {
    EventCountUpToUpdate(c, |c|, k, !c[k]);
  }

  /** `Object.keys(state).filter(key => state[key] === true && key in intents)`, as catalog
      positions: the checked entries among the first n, in catalog order. */
  function EnabledUpTo(c: seq<bool>, n: nat): (r: seq<nat>)
    requires n <= |c| == |CATALOG|
    ensures forall i :: 0 <= i < |r| ==> r[i] < n && c[r[i]]
    ensures forall i, j :: 0 <= i < j < |r| ==> r[i] < r[j]
  {
    if n == 0 then []
    else EnabledUpTo(c, n - 1) + (if c[n - 1] then [n - 1] else [])
  }

  /** The filter keeps exactly the checked entries. */
  lemma {:induction false} EnabledUpToExact(c: seq<bool>, n: nat, k: nat)
    requires n <= |c| == |CATALOG| && k < n
    ensures k in EnabledUpTo(c, n) <==> c[k]
  {
    if k < n - 1 {
      EnabledUpToExact(c, n - 1, k);
    }
  }

  /** The events of the given entries, one list after another: `map(key => intents[key][0])`
      flattened into the rendered list. */
  function EventsOf(ks: seq<nat>): (r: seq<string>)
    requires forall i :: 0 <= i < |ks| ==> ks[i] < |CATALOG|
  {
    if ks == [] then [] else EventsOf(ks[..|ks| - 1]) + CATALOG[ks[|ks| - 1]].events
  }

  /** The list under "What you have access to": the default events, then each checked intent's
      events in catalog order, duplicates kept. */
  function DisplayedEvents(c: seq<bool>): seq<string>
    requires |c| == |CATALOG|
  {
    DEFAULT_INTENTS + EventsOf(EnabledUpTo(c, |c|))
  }

  lemma {:induction false} EventsOfAppend(ks: seq<nat>, k: nat)
    requires forall i :: 0 <= i < |ks| ==> ks[i] < |CATALOG|
    requires k < |CATALOG|
    ensures EventsOf(ks + [k]) == EventsOf(ks) + CATALOG[k].events
  {
    assert (ks + [k])[..|ks|] == ks;
  }

  /** The events of the checked entries among the first n, one list after another. */
  function ListedUpTo(c: seq<bool>, n: nat): seq<string>
    requires n <= |c| == |CATALOG|
  {
    if n == 0 then [] else ListedUpTo(c, n - 1) + (if c[n - 1] then CATALOG[n - 1].events else [])
  }

  /** Filtering the checked keys and then flattening their event lists lists the checked entries'
      events in catalog order. */
  lemma {:induction false} EventsOfEnabled(c: seq<bool>, n: nat)
    requires n <= |c| == |CATALOG|
    ensures EventsOf(EnabledUpTo(c, n)) == ListedUpTo(c, n)
  {
    if n > 0 {
      EventsOfEnabled(c, n - 1);
      var prev := EnabledUpTo(c, n - 1);
      if c[n - 1] {
        assert EnabledUpTo(c, n) == prev + [n - 1];
        EventsOfAppend(prev, n - 1);
      } else {
        assert EnabledUpTo(c, n) == prev;
      }
    }
  }

  lemma {:induction false} ListedLength(c: seq<bool>, n: nat)
    requires n <= |c| == |CATALOG|
    ensures |ListedUpTo(c, n)| == EventCountUpTo(c, n)
  {
    if n > 0 {
      ListedLength(c, n - 1);
    }
  }

  /** The number in the heading, counted from scratch, is the length of the displayed list. */
  lemma {:induction false} DisplayedLength(c: seq<bool>)
    requires |c| == |CATALOG|
    ensures |DisplayedEvents(c)| == EventCount(c)
  {
    EventsOfEnabled(c, |c|);
    ListedLength(c, |c|);
  }

  /** The displayed list starts with the five default events. */
  lemma {:induction false} DisplayedStartsWithDefaults(c: seq<bool>)
    requires |c| == |CATALOG|
    ensures |DisplayedEvents(c)| >= 5 && DisplayedEvents(c)[..5] == DEFAULT_INTENTS
  {
  }

  /** The events listed for the first m entries begin those listed for the first n, for m <= n. */
  lemma {:induction false} ListedPrefix(c: seq<bool>, m: nat, n: nat)
    requires m <= n <= |c| == |CATALOG|
    ensures |ListedUpTo(c, m)| <= |ListedUpTo(c, n)|
    ensures ListedUpTo(c, m) == ListedUpTo(c, n)[..|ListedUpTo(c, m)|]
  {
    if m < n {
      ListedPrefix(c, m, n - 1);
      var before := ListedUpTo(c, n - 1);
      var after := ListedUpTo(c, n);
      assert after[..|before|] == before;
    }
  }

  /** The counts of the first m entries never exceed those of the first n, for m <= n. */
  lemma {:induction false} EventCountUpToMonotone(c: seq<bool>, m: nat, n: nat)
    requires m <= n <= |c| == |CATALOG|
    ensures EventCountUpTo(c, m) <= EventCountUpTo(c, n)
  {
    if m < n {
      EventCountUpToMonotone(c, m, n - 1);
    }
  }

  /** A checked entry's events sit in the listing of all entries after those of the entries
      before it. */
  lemma {:induction false} ListedAt(c: seq<bool>, k: nat)
    requires |c| == |CATALOG| && k < |c| && c[k]
    ensures var s := EventCountUpTo(c, k);
      && s + |CATALOG[k].events| <= |ListedUpTo(c, |c|)|
      && ListedUpTo(c, |c|)[s..s + |CATALOG[k].events|] == CATALOG[k].events
  {
    var ev := CATALOG[k].events;
    ListedLength(c, k);
    ListedPrefix(c, k + 1, |c|);
    var s := |ListedUpTo(c, k)|;
    var upToK := ListedUpTo(c, k + 1);
    assert upToK[s..s + |ev|] == ev;
  }

  /** A checked intent's events are listed together and in their own order, right after the
      default events and the events of the checked intents before it. */
  lemma {:induction false} DisplayedEventsAt(c: seq<bool>, k: nat)
    requires |c| == |CATALOG| && k < |c| && c[k]
    ensures var start := |DEFAULT_INTENTS| + EventCountUpTo(c, k);
      && start + |CATALOG[k].events| <= |DisplayedEvents(c)|
      && DisplayedEvents(c)[start..start + |CATALOG[k].events|] == CATALOG[k].events
  {
    DisplayedIsListed(c);
    ListedAt(c, k);
    SliceAfter(DEFAULT_INTENTS, ListedUpTo(c, |c|), EventCountUpTo(c, k), |CATALOG[k].events|);
  }

  /** The displayed list is the default events followed by the checked entries' events. */
  lemma {:induction false} DisplayedIsListed(c: seq<bool>)
    requires |c| == |CATALOG|
    ensures DisplayedEvents(c) == DEFAULT_INTENTS + ListedUpTo(c, |c|)
  {
    EventsOfEnabled(c, |c|);
  }

  lemma {:induction false} SliceAfter(a: seq<string>, b: seq<string>, s: nat, e: nat)
    requires s + e <= |b|
    ensures (a + b)[|a| + s..|a| + s + e] == b[s..s + e]
  {
  }

  /** The lists of two checked intents do not overlap: the earlier one ends before the later
      one starts. */
  lemma {:induction false} DisplayedEventsApart(c: seq<bool>, j: nat, k: nat)
    requires |c| == |CATALOG| && j < k < |c| && c[j]
    ensures EventCountUpTo(c, j) + |CATALOG[j].events| <= EventCountUpTo(c, k)
  {
    EventCountUpToMonotone(c, j + 1, k);
  }

  /** A value at two different positions of a list occurs in it at least twice. */
  lemma {:induction false} TwoOccurrences(s: seq<string>, p: nat, q: nat)
    requires p < q < |s| && s[p] == s[q]
    ensures multiset(s)[s[p]] >= 2
  {
    assert s == s[..q] + s[q..];
    assert s[p] == s[..q][p] && s[q] == s[q..][0];
    assert multiset(s) == multiset(s[..q]) + multiset(s[q..]);
  }

  /** A value in two non-overlapping slices of a list occurs in it at least twice. */
  lemma {:induction false} SlicesShareValue(s: seq<string>, p: nat, a: seq<string>, q: nat, b: seq<string>, x: string)
    requires p + |a| <= q && q + |b| <= |s|
    requires s[p..p + |a|] == a && s[q..q + |b|] == b
    requires x in a && x in b
    ensures multiset(s)[x] >= 2
  {
    var i :| 0 <= i < |a| && a[i] == x;
    var j :| 0 <= j < |b| && b[j] == x;
    assert s[p + i] == s[p..p + |a|][i];
    assert s[q + j] == s[q..q + |b|][j];
    TwoOccurrences(s, p + i, q + j);
  }

  /** An event name shared by two checked intents is listed once for each of them. */
  lemma {:induction false} SharedEventListedTwice(c: seq<bool>, j: nat, k: nat, x: string)
    requires |c| == |CATALOG| && j < k < |c| && c[j] && c[k]
    requires x in CATALOG[j].events && x in CATALOG[k].events
    ensures multiset(ListedUpTo(c, |c|))[x] >= 2
  {
    ListedAt(c, j);
    ListedAt(c, k);
    DisplayedEventsApart(c, j, k);
    SlicesShareValue(ListedUpTo(c, |c|), EventCountUpTo(c, j), CATALOG[j].events,
      EventCountUpTo(c, k), CATALOG[k].events, x);
  }

  /** With GUILD_MESSAGES and DIRECT_MESSAGES both checked, MESSAGE_CREATE is listed twice: shared
      event names are listed once per intent, not merged. */
  lemma {:induction false} DuplicateMessageCreate(c: seq<bool>)
    requires |c| == |CATALOG| && c[GUILD_MESSAGES] && c[DIRECT_MESSAGES]
    ensures multiset(DisplayedEvents(c))["MESSAGE_CREATE"] >= 2
  {
    SharedEventNames();
    SharedEventListedTwice(c, GUILD_MESSAGES, DIRECT_MESSAGES, "MESSAGE_CREATE");
    DisplayedIsListed(c);
    assert multiset(DisplayedEvents(c)) == multiset(DEFAULT_INTENTS) + multiset(ListedUpTo(c, |c|));
  }

  // ---------------------------------------------------------------------------------------
  // The Clear button

  /** `Object.keys(state).some(key => state[key] === true)`: only the intent booleans of the state
      can be `true` (the theme is a string, the privileged flags sit in a nested object). */
  function SomeChecked(c: seq<bool>): (r: bool)
    ensures r <==> exists k :: 0 <= k < |c| && c[k]
  {
    if c == [] then false
    else c[0] || SomeChecked(c[1..])
  }

  // ---------------------------------------------------------------------------------------
  // Gating by the privileged switches

  /** `state.privilegedIntents`: the three privileged-intent switches. */
  datatype Privileged = Privileged(presence: bool, guildMembers: bool, messageContent: bool)

  /** The `disabled` (and `indeterminate`) expression of the checkbox for `key`. */
  predicate Disabled(key: string, p: Privileged)
  {
    if key == "GUILD_PRESENCES" then !p.presence
    else if key == "GUILD_MEMBERS" then !p.guildMembers
    else key == "MESSAGE_CONTENT" && !p.messageContent
  }

  /** Over the catalog, exactly three checkboxes are gated, each by its own switch: GUILD_PRESENCES
      by presence, GUILD_MEMBERS by guildMembers, MESSAGE_CONTENT by messageContent. */
  lemma {:induction false} GatedEntries(k: nat, p: Privileged)
    requires k < |CATALOG|
    ensures Disabled(CATALOG[k].name, p) <==>
      (k == GUILD_PRESENCES && !p.presence) ||
      (k == GUILD_MEMBERS && !p.guildMembers) ||
      (k == MESSAGE_CONTENT && !p.messageContent)
  {
    NamedPositions();
    if k != GUILD_PRESENCES {
      NamesDistinct(k, GUILD_PRESENCES);
    }
    if k != GUILD_MEMBERS {
      NamesDistinct(k, GUILD_MEMBERS);
    }
    if k != MESSAGE_CONTENT {
      NamesDistinct(k, MESSAGE_CONTENT);
    }
  }

  /** With all three switches on, no checkbox is disabled. */
  lemma {:induction false} NothingGatedWhenAllOn(key: string)
    ensures !Disabled(key, Privileged(true, true, true))
  {
  }
}
