/** The calculator page's state and its three event handlers: `handleChange` for every checkbox
    and switch, `resetIntents` for the Clear button and `toggleLights` for the theme button. */
module App {
  import opened Wrappers
  import opened Bits
  import opened Intents
  import opened Selection

  // ---------------------------------------------------------------------------------------
  // The browser's localStorage, as far as the page uses it

  /** The four localStorage entries the page reads; an absent entry is None. */
  datatype Stored = Stored(
    theme: Option<string>,
    presenceIntent: Option<string>,
    guildMembersIntent: Option<string>,
    messageContentIntent: Option<string>)

  /** `localStorage.getItem('theme') || 'dark'`: an absent or empty entry falls back to "dark". */
  function InitialTheme(stored: Option<string>): (r: string)
    ensures r != ""
    ensures r == "dark" || stored == Some(r)
    ensures stored.Some? && stored.value != "" ==> r == stored.value
  {
    if stored.Some? && stored.value != "" then stored.value else "dark"
  }

  /** `localStorage.getItem(key) === 'true' || false`. */
  function FlagFromStorage(stored: Option<string>): bool
  {
    stored == Some("true")
  }

  /** `Boolean.prototype.toString`, as `setItem` stores a flag. */
  function JsBoolString(b: bool): (r: string)
    ensures r == "true" || r == "false"
  {
    if b then "true" else "false"
  }

  /** A flag written by the page is read back as the same flag, and only the string "true"
      reads as set. */
  lemma {:induction false} FlagRoundTrip(b: bool, stored: Option<string>)
    ensures FlagFromStorage(Some(JsBoolString(b))) == b
    ensures FlagFromStorage(stored) <==> stored.Some? && stored.value == "true"
  {
  }

  /** The flags the page starts with. */
  function InitialPrivileged(stored: Stored): (p: Privileged)
    ensures p.presence <==> stored.presenceIntent == Some("true")
    ensures p.guildMembers <==> stored.guildMembersIntent == Some("true")
    ensures p.messageContent <==> stored.messageContentIntent == Some("true")
  {
    Privileged(
      FlagFromStorage(stored.presenceIntent),
      FlagFromStorage(stored.guildMembersIntent),
      FlagFromStorage(stored.messageContentIntent))
  }

  /** The theme `toggleLights` switches to: "light" after "dark", "dark" after anything else. */
  function NextTheme(theme: string): (r: string)
    ensures r == "dark" || r == "light"
    ensures r == "light" <==> theme == "dark"
  {
    if theme == "dark" then "light" else "dark"
  }

  /** Toggling twice restores exactly the two themes the page writes; any other stored theme is
      replaced by the first toggle for good. */
  lemma {:induction false} ToggleTwice(theme: string)
    ensures NextTheme(NextTheme(theme)) == theme <==> theme == "dark" || theme == "light"
  {
  }

  /** The names of the three privileged switches. */
  predicate IsSwitch(name: string)
  {
    name == "presence" || name == "guildMembers" || name == "messageContent"
  }

  /** No intent is named like a switch, so `handleChange` can tell the two kinds of control apart
      by name. */
  lemma {:induction false} SwitchNamesAreNotIntents(name: string)
    requires IsSwitch(name)
    ensures KeyIndex(name).None?
  {
    forall k | 0 <= k < |CATALOG|
      ensures CATALOG[k].name != name
    {
      NameIndexInverts(k);
    }
  }

  // ---------------------------------------------------------------------------------------
  // The page state

  /** `state`: the theme, one boolean per intent in catalog order, the privileged switches, the
      running mask and the running event count, together with the localStorage entries the
      handlers write. */
  class Calculator {
    var theme: string
    var checked: seq<bool>
    var privileged: Privileged
    var intents: int
    var eventsCount: int
    var storage: Stored

    /** There is one boolean per catalog intent. */
    ghost predicate Valid()
      reads this
    {
      |checked| == |CATALOG|
    }

    /** The running mask and count agree with their from-scratch definitions. */
    ghost predicate Consistent()
      reads this
    {
      Valid() && intents == Mask(checked) && eventsCount == EventCount(checked)
    }

    /** The theme and the switches are what localStorage would give back on the next read. */
    ghost predicate Synced()
      reads this
    {
      InitialTheme(storage.theme) == theme && InitialPrivileged(storage) == privileged
    }

    /** `useState(initialState)`: the theme and switches come from localStorage, every intent is
        off, the mask is 0 and the count is the number of default events. */
    constructor(stored: Stored)
      ensures storage == stored
      ensures theme == InitialTheme(stored.theme)
      ensures privileged == InitialPrivileged(stored)
      ensures checked == NoneChecked()
      ensures intents == 0 && eventsCount == |DEFAULT_INTENTS|
      ensures Consistent() && Synced() && !ShowClear()
    {
      storage := stored;
      theme := InitialTheme(stored.theme);
      privileged := InitialPrivileged(stored);
      checked := NoneChecked();
      intents := 0;
      eventsCount := |DEFAULT_INTENTS|;
      NothingChecked();
    }

    /** `resetIntents`: the state goes back to `initialState`, which reads the theme and the
        switches from localStorage again, so when the state was in step with localStorage they
        survive the reset. */
    method Reset()
      modifies this
      ensures storage == old(storage)
      ensures theme == InitialTheme(storage.theme)
      ensures privileged == InitialPrivileged(storage)
      ensures checked == NoneChecked()
      ensures intents == 0 && eventsCount == |DEFAULT_INTENTS|
      ensures Consistent() && Synced() && !ShowClear()
      ensures old(Synced()) ==> theme == old(theme) && privileged == old(privileged)
    {
      theme := InitialTheme(storage.theme);
      privileged := InitialPrivileged(storage);
      checked := NoneChecked();
      intents := 0;
      eventsCount := |DEFAULT_INTENTS|;
      NothingChecked();
    }

    /** `handleChange`: a switch sets its own flag and stores it; an intent checkbox sets its
        boolean and moves the mask by `(checked ? 1 : -1) << bit` and the count by the size of its
        event list. Nothing is gated and nothing cascades. The running values stay equal to their
        definitions whenever the event flips the stored boolean, as the UI's checkboxes do. */
    method HandleChange(name: string, isChecked: bool)
      requires Valid()
      requires IsSwitch(name) || KeyIndex(name).Some?
      modifies this
      ensures Valid() && theme == old(theme)
      ensures KeyIndex(name).Some? ==>
        var k := KeyIndex(name).value;
        && checked == old(checked)[k := isChecked]
        && intents == old(intents) + (if isChecked then 1 else -1) * Pow2(CATALOG[k].bit)
        && eventsCount == old(eventsCount) + (if isChecked then 1 else -1) * |CATALOG[k].events|
        && privileged == old(privileged) && storage == old(storage)
      ensures IsSwitch(name) ==>
        checked == old(checked) && intents == old(intents) && eventsCount == old(eventsCount)
      ensures name == "presence" ==>
        privileged == old(privileged).(presence := isChecked) &&
        storage == old(storage).(presenceIntent := Some(JsBoolString(isChecked)))
      ensures name == "guildMembers" ==>
        privileged == old(privileged).(guildMembers := isChecked) &&
        storage == old(storage).(guildMembersIntent := Some(JsBoolString(isChecked)))
      ensures name == "messageContent" ==>
        privileged == old(privileged).(messageContent := isChecked) &&
        storage == old(storage).(messageContentIntent := Some(JsBoolString(isChecked)))
      ensures old(Synced()) ==> Synced()
      ensures (old(Consistent()) &&
        (KeyIndex(name).Some? ==> old(checked)[KeyIndex(name).value] != isChecked)) ==> Consistent()
    {
      var intentsValue := intents;
      var eventsCountValue := eventsCount;
      if name != "presence" && name != "guildMembers" && name != "messageContent" {
        var k := KeyIndex(name).value;
        var bit := CATALOG[k].bit;
        BitsInRange(k);
        intentsValue := intentsValue + JsShl(if isChecked then 1 else -1, bit);
        if isChecked {
          eventsCountValue := eventsCountValue + |CATALOG[k].events|;
        } else {
          eventsCountValue := eventsCountValue - |CATALOG[k].events|;
        }
        MaskFlip(checked, k);
        EventCountFlip(checked, k);
        checked := checked[k := isChecked];
        intents := intentsValue;
        eventsCount := eventsCountValue;
      } else {
        SwitchNamesAreNotIntents(name);
        if name == "presence" {
          privileged := privileged.(presence := isChecked);
          storage := storage.(presenceIntent := Some(JsBoolString(isChecked)));
        } else if name == "messageContent" {
          privileged := privileged.(messageContent := isChecked);
          storage := storage.(messageContentIntent := Some(JsBoolString(isChecked)));
        } else {
          privileged := privileged.(guildMembers := isChecked);
          storage := storage.(guildMembersIntent := Some(JsBoolString(isChecked)));
        }
      }
    }

    /** `toggleLights`: "dark" becomes "light", anything else becomes "dark", and the new theme is
        stored. */
    method ToggleLights()
      modifies this
      ensures theme == NextTheme(old(theme))
      ensures storage == old(storage).(theme := Some(theme))
      ensures checked == old(checked) && privileged == old(privileged)
      ensures intents == old(intents) && eventsCount == old(eventsCount)
      ensures old(Synced()) ==> Synced()
    {
      if theme == "dark" {
        theme := "light";
        storage := storage.(theme := Some("light"));
      } else {
        theme := "dark";
        storage := storage.(theme := Some("dark"));
      }
    }

    /** The "Intents : …" button's value, the payload copied to the clipboard: bit `bit(k)` of it
        is set exactly for the checked intents, and it never exceeds the mask of all intents. */
    method Payload() returns (payload: int)
      requires Consistent()
      ensures 0 <= payload <= 3276799
      ensures forall k :: 0 <= k < |CATALOG| ==> (BitSet(payload, CATALOG[k].bit) <==> checked[k])
    {
      payload := intents;
      MaskBounds(checked);
      forall k | 0 <= k < |CATALOG|
        ensures BitSet(payload, CATALOG[k].bit) <==> checked[k]
      {
        MaskBitOfIntent(checked, k);
      }
    }

    /** The "What you have access to (n events)" heading: n is the length of the list shown
        beneath it. */
    method EventsHeading() returns (n: int)
      requires Consistent()
      ensures n == |ShownEvents()| && n >= |DEFAULT_INTENTS|
    {
      n := eventsCount;
      DisplayedLength(checked);
      DisplayedStartsWithDefaults(checked);
    }

    /** The event list: the default events, then the events of each checked intent in catalog
        order. */
    function ShownEvents(): (r: seq<string>)
      reads this
      requires Valid()
      ensures |r| >= |DEFAULT_INTENTS| && r[..|DEFAULT_INTENTS|] == DEFAULT_INTENTS
    {
      DisplayedStartsWithDefaults(checked);
      DisplayedEvents(checked)
    }

    /** Whether the Clear button is shown: some intent is checked. */
    function ShowClear(): (r: bool)
      reads this
      ensures r <==> exists k :: 0 <= k < |checked| && checked[k]
    {
      SomeChecked(checked)
    }
  }

  /** Checking an intent and then unchecking it restores the mask and the count, whatever they
      were before. */
  method CheckThenUncheck(page: Calculator, k: nat)
    requires page.Valid() && k < |CATALOG|
    modifies page
    ensures page.intents == old(page.intents) && page.eventsCount == old(page.eventsCount)
    ensures page.checked == old(page.checked)[k := false]
  {
    KeyIndexOfName(k);
    page.HandleChange(CATALOG[k].name, true);
    page.HandleChange(CATALOG[k].name, false);
  }

  /** Two "checked" events in a row for the same intent, which the UI's checkboxes never send,
      add its bit twice: `handleChange` sets rather than flips the boolean but always moves the
      mask. */
  method CheckTwice(page: Calculator, k: nat)
    requires page.Valid() && k < |CATALOG|
    modifies page
    ensures page.checked == old(page.checked)[k := true]
    ensures page.intents == old(page.intents) + 2 * Pow2(CATALOG[k].bit)
  {
    KeyIndexOfName(k);
    page.HandleChange(CATALOG[k].name, true);
    page.HandleChange(CATALOG[k].name, true);
  }
}
