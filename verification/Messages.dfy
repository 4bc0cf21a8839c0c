/** The messages shown so far and the filters over them, told of each other's changes. */
module MessageStore {
  import opened Options
  import opened MessageFilterFlags

  datatype MessageEntry = MessageEntry(type_: nat, text: string, filterFlags: bv32)

  function TypeMask(type_: nat): bv64
    requires type_ < 64
  {
    (1 as bv64) << type_
  }

  /** The bit of a type is that of its number, the lowest for type 0. */
  lemma TypeMaskValues()
    ensures TypeMask(0) == 1 && TypeMask(1) == 2 && TypeMask(2) == 4 && TypeMask(7) == 0x80 && TypeMask(8) == 0x100
    ensures TypeMask(31) == 0x8000_0000 && TypeMask(32) == 0x1_0000_0000 && TypeMask(63) == 0x8000_0000_0000_0000
  {
  }

  predicate HasType(m: MessageEntry) {
    m.type_ < 64
  }

  /** The message's flags are what a fresh evaluation would give. */
  predicate UpToDate(m: MessageEntry, slots: Slots, matches: (RegExp, string) -> bool) {
    HasType(m) && m.filterFlags == FilterMessage(slots, TypeMask(m.type_), m.text, matches)
  }

  predicate AllUpToDate(ms: seq<MessageEntry>, slots: Slots, matches: (RegExp, string) -> bool) {
    forall i | 0 <= i < |ms| :: UpToDate(ms[i], slots, matches)
  }

  predicate SameMessages(ms: seq<MessageEntry>, ns: seq<MessageEntry>) {
    |ms| == |ns| && forall i | 0 <= i < |ms| :: ms[i].type_ == ns[i].type_ && ms[i].text == ns[i].text
  }

  predicate FirstVacant(slots: Slots, i: nat) {
    i < |slots| && slots[i].None? && forall k | 0 <= k < i :: slots[k].Some?
  }

  predicate Named(slot: Option<MessageFilter>, name: string) {
    slot.Some? && slot.value.name == name
  }

  predicate FirstNamed(slots: Slots, i: nat, name: string) {
    i < |slots| && Named(slots[i], name) && forall k | 0 <= k < i :: !Named(slots[k], name)
  }

  predicate FirstEqual(slots: Slots, i: nat, filter: MessageFilter) {
    i < |slots| && slots[i] == Some(filter) && forall k | 0 <= k < i :: slots[k] != Some(filter)
  }

  class MessageFilters {
    const matches: (RegExp, string) -> bool
    const slots: array<Option<MessageFilter>>
    var listener: Messages?

    ghost predicate Valid()
      reads this, slots, listener
    {
      && slots.Length == MAX_FILTERS
      && (listener != null ==>
            listener.filters == this && AllUpToDate(listener.messages, slots[..], matches))
    }

    /** Start with the filters of the preferences, or vacant slots. */
    constructor (initial: Slots, matches: (RegExp, string) -> bool)
      requires |initial| == MAX_FILTERS
      ensures Valid() && slots[..] == initial && listener == null && this.matches == matches
      ensures fresh(slots)
    {
      this.matches := matches;
      slots := new Option<MessageFilter>[MAX_FILTERS](i requires 0 <= i < |initial| => initial[i]);
      listener := null;
    }

    /** Fill the first vacant slot and tell the messages. */
    method AddFilter(filter: MessageFilter) returns (slot: nat)
      requires Valid()
      modifies slots, listener
      ensures Valid()
      ensures listener != null ==> SameMessages(listener.messages, old(listener.messages))
      ensures FirstVacant(old(slots[..]), slot) ==> slots[..] == old(slots[..])[slot := Some(filter)]
      ensures !FirstVacant(old(slots[..]), slot) ==>
        slot == NO_SLOT && slots[..] == old(slots[..]) && forall k | 0 <= k < MAX_FILTERS :: slots[k].Some?
    {
      hide AllUpToDate, SameMessages;
      for i := 0 to MAX_FILTERS
        invariant forall k | 0 <= k < i :: slots[k].Some?
        invariant Valid() && slots[..] == old(slots[..])
        invariant listener != null ==> listener.messages == old(listener.messages)
      {
        if slots[i].None? {
          ghost var before := slots[..];
          slots[i] := Some(filter);
          assert slots[..] == before[i := Some(filter)];
          if listener != null {
            listener.AddedFilter(Bit(i), filter, before, i);
          }
          return i;
        }
      }
      if listener != null {
        SameAsBefore(listener.messages);
      }
      return NO_SLOT;
    }

    /** Vacate a slot and tell the messages. */
    method RemFilter(filter: nat) returns (removed: bool)
      requires Valid() && filter < MAX_FILTERS
      modifies slots, listener
      ensures Valid()
      ensures listener != null ==> SameMessages(listener.messages, old(listener.messages))
      ensures removed == old(slots[filter]).Some?
      ensures slots[..] == old(slots[..])[filter := None]
    {
      hide AllUpToDate, SameMessages;
      if listener != null {
        SameAsBefore(listener.messages);
      }
      if slots[filter].None? {
        return false;
      }
      ghost var before := slots[..];
      slots[filter] := None;
      assert slots[..] == before[filter := None];
      if listener != null {
        listener.RemovedFilter(Bit(filter), before, filter);
      }
      return true;
    }

    method RemFilterByName(name: string) returns (removed: bool)
      requires Valid()
      modifies slots, listener
      ensures Valid()
      ensures listener != null ==> SameMessages(listener.messages, old(listener.messages))
      ensures !removed ==> slots[..] == old(slots[..]) && forall k | 0 <= k < MAX_FILTERS :: !Named(slots[k], name)
      ensures removed ==>
        exists k: nat :: FirstNamed(old(slots[..]), k, name) && slots[..] == old(slots[..])[k := None]
    {
      hide AllUpToDate, SameMessages;
      if listener != null {
        SameAsBefore(listener.messages);
      }
      for i := 0 to MAX_FILTERS
        invariant forall k | 0 <= k < i :: !Named(slots[k], name)
        invariant Valid() && slots[..] == old(slots[..])
        invariant listener != null ==> listener.messages == old(listener.messages)
      {
        if slots[i].Some? && slots[i].value.name == name {
          assert FirstNamed(slots[..], i, name);
          removed := RemFilter(i);
          return;
        }
      }
      return false;
    }

    method RemFilterEqual(filter: MessageFilter) returns (removed: bool)
      requires Valid()
      modifies slots, listener
      ensures Valid()
      ensures listener != null ==> SameMessages(listener.messages, old(listener.messages))
      ensures !removed ==> slots[..] == old(slots[..]) && forall k | 0 <= k < MAX_FILTERS :: slots[k] != Some(filter)
      ensures removed ==>
        exists k: nat :: FirstEqual(old(slots[..]), k, filter) && slots[..] == old(slots[..])[k := None]
    {
      hide AllUpToDate, SameMessages;
      if listener != null {
        SameAsBefore(listener.messages);
      }
      for i := 0 to MAX_FILTERS
        invariant forall k | 0 <= k < i :: slots[k] != Some(filter)
        invariant Valid() && slots[..] == old(slots[..])
        invariant listener != null ==> listener.messages == old(listener.messages)
      {
        if slots[i].Some? && slots[i].value == filter {
          assert FirstEqual(slots[..], i, filter);
          removed := RemFilter(i);
          return;
        }
      }
      return false;
    }

    method Filter(typeMask: bv64, text: string) returns (mask: bv32)
      requires slots.Length == MAX_FILTERS
      ensures mask == FilterMessage(slots[..], typeMask, text, matches)
    {
      hide Bit, MessageFilter.IsFiltered;
      mask := 0;
      for i := 0 to MAX_FILTERS
        invariant mask == FilterMessage(slots[..i], typeMask, text, matches)
      {
        assert slots[..i + 1][..i] == slots[..i];
        OrLaws(mask, 0, 0);
        if slots[i].Some? && slots[i].value.IsFiltered(typeMask, text, matches) {
          mask := mask | Bit(i);
        }
      }
      assert slots[..MAX_FILTERS] == slots[..];
    }
  }

  lemma SameAsBefore(ms: seq<MessageEntry>)
    ensures SameMessages(ms, ms)
  {
  }

  class Messages {
    const filters: MessageFilters
    var messages: seq<MessageEntry>

    /** Connect to the filters' signals. */
    constructor (filters: MessageFilters)
      requires filters.Valid() && filters.listener == null
      modifies filters
      ensures this.filters == filters && messages == []
      ensures filters.Valid() && filters.listener == this
    {
      this.filters := filters;
      messages := [];
      new;
      filters.listener := this;
    }

    method AddMessage(type_: nat, text: string)
      requires filters.Valid() && filters.listener == this && type_ < 64
      modifies this
      ensures filters.Valid()
      ensures messages == old(messages) +
        [MessageEntry(type_, text, FilterMessage(filters.slots[..], TypeMask(type_), text, filters.matches))]
    {
      hide FilterMessage;
      var filterFlags := filters.Filter(TypeMask(type_), text);
      messages := messages + [MessageEntry(type_, text, filterFlags)];
    }

    method Clear()
      requires filters.Valid() && filters.listener == this
      modifies this
      ensures filters.Valid() && messages == []
    {
      messages := [];
    }

    /** The slot's flag is taken from every message. */
    method RemovedFilter(mask: bv32, ghost before: Slots, ghost i: nat)
      requires i < |before| && mask == Bit(i) && AllUpToDate(messages, before, filters.matches)
      modifies this
      ensures AllUpToDate(messages, before[i := None], filters.matches) && SameMessages(messages, old(messages))
    {
      hide FilterMessage, Unset;
      ghost var was := messages;
      for k := 0 to |messages|
        invariant |messages| == |was|
        invariant forall j | 0 <= j < |was| ::
          messages[j] == if j < k then was[j].(filterFlags := Unset(was[j].filterFlags, mask)) else was[j]
      {
        UnsetIs(messages[k].filterFlags, mask);
        messages := messages[k := messages[k].(filterFlags := messages[k].filterFlags & !mask)];
      }
      forall j | 0 <= j < |was| ensures UpToDate(messages[j], before[i := None], filters.matches) {
        assert UpToDate(was[j], before, filters.matches);
        FlagsAfterRemove(before, i, TypeMask(was[j].type_), was[j].text, filters.matches);
      }
    }

    /** The slot's flag is given to every message that the new filter matches. */
    method AddedFilter(mask: bv32, filter: MessageFilter, ghost before: Slots, ghost i: nat)
      requires i < |before| && before[i].None? && mask == Bit(i) && AllUpToDate(messages, before, filters.matches)
      modifies this
      ensures AllUpToDate(messages, before[i := Some(filter)], filters.matches)
      ensures SameMessages(messages, old(messages))
    {
      hide FilterMessage, Bit, Or, Flagged, MessageFilter.IsFiltered, TypeMask;
      ghost var was := messages;
      for k := 0 to |messages|
        invariant |messages| == |was|
        invariant forall j | 0 <= j < |was| :: HasType(was[j])
        invariant forall j | 0 <= j < k :: messages[j] == Flagged(was[j], filter, i, filters.matches)
        invariant forall j | k <= j < |was| :: messages[j] == was[j]
      {
        assert UpToDate(was[k], before, filters.matches);
        var m := messages[k];
        FlaggedIs(m, filter, i, filters.matches);
        if filter.IsFiltered(TypeMask(m.type_), m.text, filters.matches) {
          messages := messages[k := m.(filterFlags := Or(m.filterFlags, mask))];
        }
      }
      forall j | 0 <= j < |was| ensures UpToDate(messages[j], before[i := Some(filter)], filters.matches) {
        assert UpToDate(was[j], before, filters.matches);
        FlagsAfterAdd(before, i, filter, TypeMask(was[j].type_), was[j].text, filters.matches);
        FlaggedFields(was[j], filter, i, filters.matches);
      }
    }
  }

  /** The message with a new filter's flag, if the filter matches it. */
  function Flagged(m: MessageEntry, f: MessageFilter, i: nat, matches: (RegExp, string) -> bool): (r: MessageEntry)
    requires HasType(m)
    ensures r.type_ == m.type_ && r.text == m.text
  {
    m.(filterFlags := Or(m.filterFlags, Flag(f.IsFiltered(TypeMask(m.type_), m.text, matches), i)))
  }

  lemma UnsetIs(a: bv32, b: bv32)
    ensures Unset(a, b) == a & !b
  {
  }

  lemma FlaggedIs(m: MessageEntry, f: MessageFilter, i: nat, matches: (RegExp, string) -> bool)
    requires HasType(m)
    ensures Flagged(m, f, i, matches) ==
            if f.IsFiltered(TypeMask(m.type_), m.text, matches) then m.(filterFlags := Or(m.filterFlags, Bit(i))) else m
  {
    OrLaws(m.filterFlags, 0, 0);
  }

  lemma FlaggedFields(m: MessageEntry, f: MessageFilter, i: nat, matches: (RegExp, string) -> bool)
    requires HasType(m)
    ensures Flagged(m, f, i, matches).filterFlags ==
            Or(m.filterFlags, Flag(f.IsFiltered(TypeMask(m.type_), m.text, matches), i))
  {
  }

  /** So what a message's flags say can be relied on: a flag is set exactly when the filter now in its slot
      matches the message. */
  lemma FlagsTell(m: MessageEntry, slots: Slots, i: nat, matches: (RegExp, string) -> bool)
    requires UpToDate(m, slots, matches) && i < |slots| <= MAX_FILTERS
    ensures m.filterFlags & Bit(i) != 0 <==>
            slots[i].Some? && slots[i].value.types & TypeMask(m.type_) != 0 && matches(slots[i].value.regexp, m.text)
  {
    hide FilterMessage, Bit;
    FlagMeans(slots, i, TypeMask(m.type_), m.text, matches);
  }
}
