/** The intent catalog: the events granted with no intent, and for every gateway intent the
    events it unlocks and its explicit bit position (Discord Gateway API, "Gateway Intents"). */
module Intents {
  import opened Wrappers

  /** One catalog entry: an intent name with `[events, bitPosition]`. */
  datatype Intent = Intent(name: string, events: seq<string>, bit: nat)

  /** Events a client receives with no intent at all. */
  const DEFAULT_INTENTS: seq<string> := [
    "READY",
    "RESUMED",
    "VOICE_SERVER_UPDATE",
    "USER_UPDATE",
    "INTERACTION_CREATE"
  ]

  /** The catalog in definition order, which is also the order of `Object.keys(intents)`. */
  const CATALOG: seq<Intent> := [
    Intent("GUILDS", [
      "GUILD_CREATE", "GUILD_UPDATE", "GUILD_DELETE",
      "GUILD_ROLE_CREATE", "GUILD_ROLE_UPDATE", "GUILD_ROLE_DELETE",
      "CHANNEL_CREATE", "CHANNEL_UPDATE", "CHANNEL_DELETE", "CHANNEL_PINS_UPDATE",
      "THREAD_CREATE", "THREAD_UPDATE", "THREAD_DELETE", "THREAD_LIST_SYNC",
      "THREAD_MEMBER_UPDATE", "THREAD_MEMBERS_UPDATE *",
      "STAGE_INSTANCE_CREATE", "STAGE_INSTANCE_UPDATE", "STAGE_INSTANCE_DELETE"], 0),
    Intent("GUILD_MEMBERS", [
      "GUILD_MEMBER_ADD", "GUILD_MEMBER_UPDATE", "GUILD_MEMBER_REMOVE",
      "THREAD_MEMBERS_UPDATE *"], 1),
    Intent("GUILD_BANS", ["GUILD_BAN_ADD", "GUILD_BAN_REMOVE"], 2),
    Intent("GUILD_EMOJIS_AND_STICKERS", ["GUILD_EMOJIS_UPDATE", "GUILD_STICKERS_UPDATE"], 3),
    Intent("GUILD_INTEGRATIONS", [
      "GUILD_INTEGRATIONS_UPDATE", "INTEGRATION_CREATE", "INTEGRATION_UPDATE",
      "INTEGRATION_DELETE"], 4),
    Intent("GUILD_WEBHOOKS", ["WEBHOOKS_UPDATE"], 5),
    Intent("GUILD_INVITES", ["INVITE_CREATE", "INVITE_DELETE"], 6),
    Intent("GUILD_VOICE_STATES", ["VOICE_STATE_UPDATE"], 7),
    Intent("GUILD_PRESENCES", ["PRESENCE_UPDATE"], 8),
    Intent("GUILD_MESSAGES", [
      "MESSAGE_CREATE", "MESSAGE_UPDATE", "MESSAGE_DELETE", "MESSAGE_DELETE_BULK"], 9),
    Intent("GUILD_MESSAGE_REACTIONS", [
      "MESSAGE_REACTION_ADD", "MESSAGE_REACTION_REMOVE", "MESSAGE_REACTION_REMOVE_ALL",
      "MESSAGE_REACTION_REMOVE_EMOJI"], 10),
    Intent("GUILD_MESSAGE_TYPING", ["TYPING_START"], 11),
    Intent("DIRECT_MESSAGES", [
      "MESSAGE_CREATE", "MESSAGE_UPDATE", "MESSAGE_DELETE", "CHANNEL_PINS_UPDATE"], 12),
    Intent("DIRECT_MESSAGE_REACTIONS", [
      "MESSAGE_REACTION_ADD", "MESSAGE_REACTION_REMOVE", "MESSAGE_REACTION_REMOVE_ALL",
      "MESSAGE_REACTION_REMOVE_EMOJI"], 13),
    Intent("DIRECT_MESSAGE_TYPING", ["TYPING_START"], 14),
    Intent("MESSAGE_CONTENT", [], 15),
    Intent("GUILD_SCHEDULED_EVENTS", [
      "GUILD_SCHEDULED_EVENT_CREATE", "GUILD_SCHEDULED_EVENT_UPDATE",
      "GUILD_SCHEDULED_EVENT_DELETE", "GUILD_SCHEDULED_EVENT_USER_ADD",
      "GUILD_SCHEDULED_EVENT_USER_REMOVE"], 16),
    Intent("AUTO_MODERATION_CONFIGURATION", [
      "AUTO_MODERATION_RULE_CREATE", "AUTO_MODERATION_RULE_UPDATE",
      "AUTO_MODERATION_RULE_DELETE"], 20),
    Intent("AUTO_MODERATION_EXECUTION", ["AUTO_MODERATION_ACTION_EXECUTION"], 21)
  ]

  /** Catalog positions of the intents the source refers to by name. */
  const GUILDS := 0
  const GUILD_MEMBERS := 1
  const GUILD_PRESENCES := 8
  const GUILD_MESSAGES := 9
  const DIRECT_MESSAGES := 12
  const MESSAGE_CONTENT := 15

  /** The catalog's bit positions, in catalog order. */
  function BitPositionList(): (r: seq<nat>)
    ensures |r| == |CATALOG|
    ensures forall k :: 0 <= k < |CATALOG| ==> r[k] == CATALOG[k].bit
  {
    seq(|CATALOG|, k requires 0 <= k < |CATALOG| => CATALOG[k].bit)
  }

  /** `intents[name]`: the catalog position of a key, or None when it is not a key. */
  function KeyIndex(name: string): (r: Option<nat>)
    ensures r.Some? ==> r.value < |CATALOG| && CATALOG[r.value].name == name
    ensures r.None? <==> forall k :: 0 <= k < |CATALOG| ==> CATALOG[k].name != name
  {
    IndexFrom(name, 0)
  }

  function IndexFrom(name: string, i: nat): (r: Option<nat>)
    requires i <= |CATALOG|
    ensures r.Some? ==> i <= r.value < |CATALOG| && CATALOG[r.value].name == name
    ensures r.None? <==> forall k :: i <= k < |CATALOG| ==> CATALOG[k].name != name
    decreases |CATALOG| - i
  {
    if i == |CATALOG| then None
    else if CATALOG[i].name == name then Some(i)
    else IndexFrom(name, i + 1)
  }

  /** The bit positions are 0..16, 20 and 21, in that order. */
  lemma {:induction false} BitPositions()
    ensures BitPositionList() == [0, 1, 2, 3, 4, 5, 6, 7, 8, 9, 10, 11, 12, 13, 14, 15, 16, 20, 21]
  {
  }

  /** Bit positions strictly increase along the catalog. */
  lemma {:induction false} BitsIncreasing(i: nat, j: nat)
    requires i < j < |CATALOG|
    ensures CATALOG[i].bit < CATALOG[j].bit
  {
    BitPositions();
    var bits := BitPositionList();
    assert bits[i] == CATALOG[i].bit && bits[j] == CATALOG[j].bit;
    if j < 17 {
      assert bits[i] == i && bits[j] == j;
    } else if i < 17 {
      assert bits[i] <= 16;
    }
  }

  /** No two catalog entries share a bit position. */
  lemma {:induction false} BitsDistinct(i: nat, j: nat)
    requires i < |CATALOG| && j < |CATALOG| && i != j
    ensures CATALOG[i].bit != CATALOG[j].bit
  {
    if i < j {
      BitsIncreasing(i, j);
    } else {
      BitsIncreasing(j, i);
    }
  }

  /** Every bit position is at most 21 and positions 17, 18, 19 are unused. */
  lemma {:induction false} BitsInRange(k: nat)
    requires k < |CATALOG|
    ensures CATALOG[k].bit <= 21
    ensures CATALOG[k].bit != 17 && CATALOG[k].bit != 18 && CATALOG[k].bit != 19
  {
    BitPositions();
    assert BitPositionList()[k] == CATALOG[k].bit;
  }

  /** NameIndex inverts the catalog's names. */
  lemma {:induction false} NameIndexInverts(k: nat)
    requires k < |CATALOG|
    ensures NameIndex(CATALOG[k].name) == k
  {
    var inverse := seq(|CATALOG|, i requires 0 <= i < |CATALOG| => NameIndex(CATALOG[i].name));
    assert inverse == seq(|CATALOG|, i => i);
    assert inverse[k] == NameIndex(CATALOG[k].name);
  }

  /** Intent names are unique, so a name identifies one catalog position. */
  lemma {:induction false} NamesDistinct(i: nat, j: nat)
    requires i < |CATALOG| && j < |CATALOG| && i != j
    ensures CATALOG[i].name != CATALOG[j].name
  {
    NameIndexInverts(i);
    NameIndexInverts(j);
  }

  /** The catalog position of each intent name, written out; -1 for any other string. */
  function NameIndex(name: string): int
  {
    if name == "GUILDS" then 0
    else if name == "GUILD_MEMBERS" then 1
    else if name == "GUILD_BANS" then 2
    else if name == "GUILD_EMOJIS_AND_STICKERS" then 3
    else if name == "GUILD_INTEGRATIONS" then 4
    else if name == "GUILD_WEBHOOKS" then 5
    else if name == "GUILD_INVITES" then 6
    else if name == "GUILD_VOICE_STATES" then 7
    else if name == "GUILD_PRESENCES" then 8
    else if name == "GUILD_MESSAGES" then 9
    else if name == "GUILD_MESSAGE_REACTIONS" then 10
    else if name == "GUILD_MESSAGE_TYPING" then 11
    else if name == "DIRECT_MESSAGES" then 12
    else if name == "DIRECT_MESSAGE_REACTIONS" then 13
    else if name == "DIRECT_MESSAGE_TYPING" then 14
    else if name == "MESSAGE_CONTENT" then 15
    else if name == "GUILD_SCHEDULED_EVENTS" then 16
    else if name == "AUTO_MODERATION_CONFIGURATION" then 17
    else if name == "AUTO_MODERATION_EXECUTION" then 18
    else -1
  }

  /** Looking up the name of catalog entry k finds entry k. */
  lemma {:induction false} KeyIndexOfName(k: nat)
    requires k < |CATALOG|
    ensures KeyIndex(CATALOG[k].name) == Some(k)
  {
    var r := KeyIndex(CATALOG[k].name);
    if r.value != k {
      NamesDistinct(r.value, k);
    }
  }

  /** The positions named by the constants hold the intents of those names. */
  lemma {:induction false} NamedPositions()
    ensures CATALOG[GUILDS].name == "GUILDS" && CATALOG[GUILDS].bit == 0
    ensures CATALOG[GUILD_MEMBERS].name == "GUILD_MEMBERS" && CATALOG[GUILD_MEMBERS].bit == 1
    ensures CATALOG[GUILD_PRESENCES].name == "GUILD_PRESENCES" && CATALOG[GUILD_PRESENCES].bit == 8
    ensures CATALOG[GUILD_MESSAGES].name == "GUILD_MESSAGES" && CATALOG[GUILD_MESSAGES].bit == 9
    ensures CATALOG[DIRECT_MESSAGES].name == "DIRECT_MESSAGES" && CATALOG[DIRECT_MESSAGES].bit == 12
    ensures CATALOG[MESSAGE_CONTENT].name == "MESSAGE_CONTENT" && CATALOG[MESSAGE_CONTENT].bit == 15
  {
  }

  /** The five default events, in order. */
  lemma {:induction false} DefaultIntentsContents()
    ensures |DEFAULT_INTENTS| == 5
    ensures DEFAULT_INTENTS[0] == "READY" && DEFAULT_INTENTS[1] == "RESUMED"
    ensures DEFAULT_INTENTS[2] == "VOICE_SERVER_UPDATE" && DEFAULT_INTENTS[3] == "USER_UPDATE"
    ensures DEFAULT_INTENTS[4] == "INTERACTION_CREATE"
  {
  }

  /** MESSAGE_CONTENT occupies bit 15 and unlocks no event of its own. */
  lemma {:induction false} MessageContentHasNoEvents()
    ensures CATALOG[MESSAGE_CONTENT].bit == 15 && CATALOG[MESSAGE_CONTENT].events == []
  {
  }

  /** Event names are shared between intents: MESSAGE_CREATE is unlocked by both
      GUILD_MESSAGES and DIRECT_MESSAGES, "THREAD_MEMBERS_UPDATE *" by GUILDS and GUILD_MEMBERS. */
  lemma {:induction false} SharedEventNames()
    ensures "MESSAGE_CREATE" in CATALOG[GUILD_MESSAGES].events
    ensures "MESSAGE_CREATE" in CATALOG[DIRECT_MESSAGES].events
    ensures "THREAD_MEMBERS_UPDATE *" in CATALOG[GUILDS].events
    ensures "THREAD_MEMBERS_UPDATE *" in CATALOG[GUILD_MEMBERS].events
  {
    assert CATALOG[GUILD_MESSAGES].events[0] == "MESSAGE_CREATE";
    assert CATALOG[DIRECT_MESSAGES].events[0] == "MESSAGE_CREATE";
    assert CATALOG[GUILDS].events[15] == "THREAD_MEMBERS_UPDATE *";
    assert CATALOG[GUILD_MEMBERS].events[3] == "THREAD_MEMBERS_UPDATE *";
  }
}
