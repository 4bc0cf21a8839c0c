/** Message filters in 32 slots, and the flags that every message keeps of which of them match it. */
module MessageFilterFlags {
  import opened Options

  const MAX_FILTERS := 32
  const NO_SLOT := 0xFF

  /** What a regular expression is made from. */
  datatype RegExp = RegExp(pattern: string, options: nat)

  datatype MessageFilter = MessageFilter(name: string, types: bv64, regexp: RegExp) {
    predicate IsFiltered(typeMask: bv64, text: string, matches: (RegExp, string) -> bool) {
      types & typeMask != 0 && matches(regexp, text)
    }
  }

  type Slots = seq<Option<MessageFilter>>

  predicate Hits(slot: Option<MessageFilter>, typeMask: bv64, text: string, matches: (RegExp, string) -> bool) {
    slot.Some? && slot.value.IsFiltered(typeMask, text, matches)
  }

  function Or(a: bv32, b: bv32): bv32 {
    a | b
  }

  function And(a: bv32, b: bv32): bv32 {
    a & b
  }

  function Unset(a: bv32, b: bv32): bv32 {
    a & !b
  }

  /** The flag of slot `i`. */
  function Bit(i: nat): bv32 {
    if i == 0 then 1 else Bit(i - 1) << 1
  }

  /** The flag of slot 0 is the lowest bit, that of slot 31 the highest. */
  lemma BitValues()
    ensures Bit(0) == 1 && Bit(1) == 2 && Bit(2) == 4 && Bit(8) == 0x100 && Bit(31) == 0x8000_0000
  {
    EightOn(0);
    EightOn(8);
    EightOn(16);
    EightOn(23);
    assert Bit(23) == Bit(16) << 7 by {
      hide Bit;
      OneOn(16);
      OneOn(17);
      OneOn(18);
      OneOn(19);
      OneOn(20);
      OneOn(21);
      OneOn(22);
    }
  }

  lemma OneOn(i: nat)
    ensures Bit(i + 1) == Bit(i) << 1
  {
  }

  lemma EightOn(i: nat)
    ensures Bit(i + 8) == Bit(i) << 8
  {
    hide Bit;
    OneOn(i);
    OneOn(i + 1);
    OneOn(i + 2);
    OneOn(i + 3);
    OneOn(i + 4);
    OneOn(i + 5);
    OneOn(i + 6);
    OneOn(i + 7);
  }

  function Flag(on: bool, i: nat): bv32 {
    if on then Bit(i) else 0
  }

  /** The flags of a message evaluated afresh against the slots. */
  function FilterMessage(slots: Slots, typeMask: bv64, text: string, matches: (RegExp, string) -> bool): bv32 {
    if slots == [] then 0
    else
      var n := |slots| - 1;
      Or(FilterMessage(slots[..n], typeMask, text, matches), Flag(Hits(slots[n], typeMask, text, matches), n))
  }

  // ---- Flags do not get in each other's way --------------------------------------------------------

  lemma ShiftedApart(a: bv32, b: bv32)
    ensures a & b == 0 ==> (a << 1) & (b << 1) == 0
    ensures 1 & (b << 1) == 0
  {
  }

  lemma {:induction false} BitsApart(i: nat, j: nat)
    requires i < j
    ensures And(Bit(i), Bit(j)) == 0
  {
    ShiftedApart(if i == 0 then 1 else Bit(i - 1), Bit(j - 1));
    if i > 0 {
      BitsApart(i - 1, j - 1);
    }
  }

  lemma AndLaws(a: bv32, b: bv32)
    ensures And(a, b) == And(b, a)
    ensures And(0, b) == 0
    ensures And(b, b) == b
  {
  }

  lemma AndOverOr(a: bv32, b: bv32, c: bv32)
    ensures And(Or(a, b), c) == Or(And(a, c), And(b, c))
  {
  }

  lemma OrLaws(a: bv32, b: bv32, c: bv32)
    ensures Or(Or(a, b), c) == Or(Or(a, c), b)
    ensures Or(a, 0) == a
    ensures Or(a, b) == 0 <==> a == 0 && b == 0
  {
  }

  lemma UnsetApart(a: bv32, b: bv32)
    requires And(a, b) == 0
    ensures Unset(a, b) == a
  {
  }

  lemma UnsetOverOr(a: bv32, c: bv32, b: bv32)
    ensures Unset(Or(a, c), b) == Or(Unset(a, b), Unset(c, b))
  {
  }

  lemma UnsetItself(b: bv32)
    ensures Unset(b, b) == 0 && Unset(0, b) == 0
  {
  }

  lemma FlagIs(on: bool, i: nat)
    ensures Flag(on, i) == if on then Bit(i) else 0
  {
  }

  lemma FlagApart(on: bool, i: nat, j: nat)
    requires i != j
    ensures And(Flag(on, i), Bit(j)) == 0
  {
    hide Bit, And;
    AndLaws(Bit(i), Bit(j));
    AndLaws(0, Bit(j));
    if i < j {
      BitsApart(i, j);
    } else {
      BitsApart(j, i);
    }
  }

  lemma TwoHigher(i: nat)
    ensures Bit(i + 2) == Bit(i) << 2
  {
    assert Bit(i + 2) == Bit(i + 1) << 1;
  }

  lemma FourHigher(i: nat)
    ensures Bit(i + 4) == Bit(i) << 4
  {
    hide Bit;
    TwoHigher(i);
    TwoHigher(i + 2);
  }

  lemma EightHigher(i: nat)
    ensures Bit(i + 8) == Bit(i) << 8
  {
    hide Bit;
    FourHigher(i);
    FourHigher(i + 4);
  }

  lemma LastBit()
    ensures Bit(31) == 0x8000_0000
  {
    assert Bit(0) == 1;
    EightHigher(0);
    EightHigher(8);
    EightHigher(16);
    FourHigher(24);
    TwoHigher(28);
    assert Bit(31) == Bit(30) << 1;
  }

  lemma {:induction false} StillThere(i: nat, j: nat)
    requires i <= j && Bit(j) != 0
    ensures Bit(i) != 0
  {
    if i < j {
      StillThere(i, j - 1);
    }
  }

  /** A flag shifted up fewer than 32 times is still there. */
  lemma BitIsSet(i: nat)
    requires i < MAX_FILTERS
    ensures Bit(i) != 0
  {
    hide Bit;
    LastBit();
    StillThere(i, 31);
  }

  // ---- What a slot's coming and going does to the flags ---------------------------------------------

  /** Slots from `i` on have no part in the flags of those before. */
  lemma {:induction false} FlagsBelow(slots: Slots, i: nat, typeMask: bv64, text: string,
                                      matches: (RegExp, string) -> bool)
    requires |slots| <= i
    ensures And(FilterMessage(slots, typeMask, text, matches), Bit(i)) == 0
  {
    hide Bit, Flag, Hits, And, Or;
    AndLaws(0, Bit(i));
    if slots != [] {
      var n := |slots| - 1;
      var before := FilterMessage(slots[..n], typeMask, text, matches);
      var last := Flag(Hits(slots[n], typeMask, text, matches), n);
      FlagsBelow(slots[..n], i, typeMask, text, matches);
      FlagApart(Hits(slots[n], typeMask, text, matches), n, i);
      AndOverOr(before, last, Bit(i));
      OrLaws(And(before, Bit(i)), And(last, Bit(i)), 0);
    }
  }

  /** A flag is set exactly when its slot holds a filter that matches. */
  lemma {:induction false} FlagMeans(slots: Slots, i: nat, typeMask: bv64, text: string,
                                     matches: (RegExp, string) -> bool)
    requires i < |slots| <= MAX_FILTERS
    ensures And(FilterMessage(slots, typeMask, text, matches), Bit(i)) != 0 <==>
            Hits(slots[i], typeMask, text, matches)
  {
    hide Bit, Flag, Hits, And, Or;
    var n := |slots| - 1;
    var on := Hits(slots[n], typeMask, text, matches);
    var before, last := FilterMessage(slots[..n], typeMask, text, matches), Flag(on, n);
    AndOverOr(before, last, Bit(i));
    OrLaws(And(before, Bit(i)), And(last, Bit(i)), 0);
    if i < n {
      FlagMeans(slots[..n], i, typeMask, text, matches);
      FlagApart(on, n, i);
    } else {
      FlagsBelow(slots[..n], i, typeMask, text, matches);
      FlagIs(on, n);
      AndLaws(0, Bit(n));
      BitIsSet(n);
    }
  }

  /** Filling a vacant slot adds its flag to the messages that the new filter matches. */
  lemma {:induction false} FlagsAfterAdd(slots: Slots, i: nat, f: MessageFilter, typeMask: bv64, text: string,
                                         matches: (RegExp, string) -> bool)
    requires i < |slots| && slots[i].None?
    ensures FilterMessage(slots[i := Some(f)], typeMask, text, matches) ==
            Or(FilterMessage(slots, typeMask, text, matches), Flag(f.IsFiltered(typeMask, text, matches), i))
  {
    hide Bit, Flag, Or, MessageFilter.IsFiltered;
    var n := |slots| - 1;
    var before := FilterMessage(slots[..n], typeMask, text, matches);
    var added, last := Flag(f.IsFiltered(typeMask, text, matches), i), Flag(Hits(slots[n], typeMask, text, matches), n);
    OrLaws(before, added, last);
    if i < n {
      FlagsAfterAdd(slots[..n], i, f, typeMask, text, matches);
      assert slots[i := Some(f)][..n] == slots[..n][i := Some(f)];
    } else {
      assert slots[i := Some(f)][..n] == slots[..n];
      FlagIs(false, n);
    }
  }

  /** Vacating a slot takes its flag from every message. */
  lemma {:induction false} FlagsAfterRemove(slots: Slots, i: nat, typeMask: bv64, text: string,
                                            matches: (RegExp, string) -> bool)
    requires i < |slots|
    ensures FilterMessage(slots[i := None], typeMask, text, matches) ==
            Unset(FilterMessage(slots, typeMask, text, matches), Bit(i))
  {
    hide Bit, Flag, Or, And, Unset, MessageFilter.IsFiltered;
    var n := |slots| - 1;
    var on := Hits(slots[n], typeMask, text, matches);
    var before, last := FilterMessage(slots[..n], typeMask, text, matches), Flag(on, n);
    UnsetOverOr(before, last, Bit(i));
    if i < n {
      FlagsAfterRemove(slots[..n], i, typeMask, text, matches);
      assert slots[i := None][..n] == slots[..n][i := None];
      FlagApart(on, n, i);
      UnsetApart(last, Bit(i));
    } else {
      assert slots[i := None][..n] == slots[..n];
      FlagsBelow(slots[..n], i, typeMask, text, matches);
      FlagIs(on, n);
      FlagIs(false, n);
      OrLaws(before, 0, 0);
      UnsetApart(before, Bit(i));
      UnsetItself(Bit(i));
    }
  }
}
