/** What planting and retiring the breakpoint table does to memory, for any
    table, duplicate addresses included. */
module TableProofs {
  import opened Machine
  import opened GdbState
  import opened Rst8

  /** What the first `n` entries make of RST 08 at `a`: each that still finds
      RST 08 there puts its saved byte. */
  function Shown(t: Table, a: word, n: nat): byte
    requires n <= MAX_BREAKPOINTS_COUNT
  {
    if n == 0 then RST08
    else
      var b := Shown(t, a, n - 1);
      if b == RST08 && t[n - 1].address != 0 && t[n - 1].address == a then t[n - 1].original else b
  }

  /** `m` is `logical` with RST 08 over every address the table holds, except
      the ones the debuggee has overwritten since they were planted. */
  ghost predicate Overlaid(m: Memory, t: Table, logical: Memory, overwritten: set<word>) {
    forall a: word :: m[a] ==
      if Holds(t, a, MAX_BREAKPOINTS_COUNT) && a !in overwritten then RST08 else logical[a]
  }

  /** The saved bytes turn every RST 08 back into the logical byte. */
  ghost predicate Saved(m: Memory, t: Table, logical: Memory) {
    forall a: word :: m[a] == RST08 ==> Shown(t, a, MAX_BREAKPOINTS_COUNT) == logical[a]
  }

  ghost predicate Uncoverable(m: Memory, t: Table, logical: Memory, overwritten: set<word>) {
    Overlaid(m, t, logical, overwritten) && Saved(m, t, logical)
  }

  // ---- entries at an address ----

  lemma HoldsOne(t: Table, a: word, n: nat)
    requires n < MAX_BREAKPOINTS_COUNT
    ensures Holds(t, a, n + 1) == (Holds(t, a, n) || (t[n].address != 0 && t[n].address == a))
  {
  }

  /** Tables that agree on which entries hold `a`. */
  lemma HoldsBelow(t: Table, t': Table, a: word, n: nat)
    requires n <= MAX_BREAKPOINTS_COUNT
    requires a != 0 ==> forall i: Slot :: t[i].address == a <==> t'[i].address == a
    ensures Holds(t, a, n) == Holds(t', a, n)
  {
  }

  lemma {:induction false} FirstHolder(t: Table, a: word, n: nat) returns (i: Slot)
    requires n <= MAX_BREAKPOINTS_COUNT && Holds(t, a, n)
    ensures i < n && t[i].address == a != 0 && !Holds(t, a, i)
  {
    if Holds(t, a, n - 1) {
      i := FirstHolder(t, a, n - 1);
    } else {
      HoldsOne(t, a, n - 1);
      i := n - 1;
    }
  }

  lemma {:induction false} ShownWithoutHolder(t: Table, a: word, n: nat)
    requires n <= MAX_BREAKPOINTS_COUNT && !Holds(t, a, n)
    ensures Shown(t, a, n) == RST08
  {
    if n > 0 {
      HoldsOne(t, a, n - 1);
      ShownWithoutHolder(t, a, n - 1);
    }
  }

  /** Tables that agree on the first `n` entries at `a`. */
  lemma {:induction false} ShownBelow(t: Table, t': Table, a: word, n: nat)
    requires n <= MAX_BREAKPOINTS_COUNT
    requires a != 0 ==> forall i: Slot :: i < n ==>
      (t[i].address == a <==> t'[i].address == a) && (t[i].address == a ==> t'[i].original == t[i].original)
    ensures Shown(t, a, n) == Shown(t', a, n)
  {
    if n > 0 {
      ShownBelow(t, t', a, n - 1);
    }
  }

  lemma {:induction false} ShownBehind(t: Table, a: word, r: nat, n: nat)
    requires r <= n <= MAX_BREAKPOINTS_COUNT
    requires forall k: Slot :: r <= k ==> t[k].address != a
    ensures Shown(t, a, n) == Shown(t, a, r)
  {
    if r < n {
      ShownBehind(t, a, r, n - 1);
    }
  }

  /** The last entry at `a` saves `v`. */
  lemma ShownByLast(t: Table, r: Slot, v: byte)
    requires t[r].address != 0 && forall k: Slot :: r < k ==> t[k].address != t[r].address
    ensures var a, t' := t[r].address, t[r := t[r].(original := v)];
      Shown(t', a, MAX_BREAKPOINTS_COUNT) == if Shown(t, a, r) == RST08 then v else Shown(t, a, r)
  {
    var a, t' := t[r].address, t[r := t[r].(original := v)];
    ShownBelow(t, t', a, r);
    ShownBehind(t', a, r + 1, MAX_BREAKPOINTS_COUNT);
  }

  // ---- retiring ----

  /** The byte entry `i` finds when its turn to be retired comes. */
  function Found(m: Memory, t: Table, i: Slot): byte {
    if m[t[i].address] == RST08 then Shown(t, t[i].address, i) else m[t[i].address]
  }

  /** Retiring does this to any memory and table: where RST 08 stands the
      entries show what they show, and an entry that finds anything else is
      dropped. */
  lemma {:induction false} RetireShows(m: Memory, t: Table, n: nat)
    requires n <= MAX_BREAKPOINTS_COUNT
    ensures var (m', t') := Retire(m, t, n);
      && (forall a: word :: m'[a] == if m[a] == RST08 then Shown(t, a, n) else m[a])
      && (forall i: Slot :: t'[i] ==
            if i < n && t[i].address != 0 && Found(m, t, i) != RST08 then t[i].(address := 0) else t[i])
  {
    if n > 0 {
      RetireShows(m, t, n - 1);
      assert Retire(m, t, n - 1).1[n - 1] == t[n - 1];
    }
  }

  /** Retiring an overlaid table uncovers the logical memory exactly if the
      saved bytes are right. */
  lemma RetireUncovers(m: Memory, t: Table, logical: Memory, overwritten: set<word>)
    requires Overlaid(m, t, logical, overwritten)
    ensures Retire(m, t, MAX_BREAKPOINTS_COUNT).0 == logical <==> Saved(m, t, logical)
  {
    RetireShows(m, t, MAX_BREAKPOINTS_COUNT);
    var m' := Retire(m, t, MAX_BREAKPOINTS_COUNT).0;
    if Saved(m, t, logical) {
      forall a: word
        ensures m'[a] == logical[a]
      {
      }
      assert forall i :: 0 <= i < |m'| ==> m'[i] == logical[i];
    }
  }

  /** The first entry at an address where RST 08 stands stays in the table. */
  lemma FirstStays(m: Memory, t: Table, i: Slot)
    requires t[i].address != 0 && m[t[i].address] == RST08 && !Holds(t, t[i].address, i)
    ensures var t' := Retire(m, t, MAX_BREAKPOINTS_COUNT).1;
      t'[i] == t[i] && Holds(t', t[i].address, MAX_BREAKPOINTS_COUNT)
  {
    RetireShows(m, t, MAX_BREAKPOINTS_COUNT);
    ShownWithoutHolder(t, t[i].address, i);
  }

  // ---- planting ----

  lemma {:induction false} PlantPrefix(m: Memory, t: Table, pc: word, n: nat)
    requires n <= MAX_BREAKPOINTS_COUNT
    ensures var (m', t') := Plant(m, t, pc, n);
      && (forall a: word :: m'[a] == if Holds(t, a, n) && a != pc then RST08 else m[a])
      && (forall i: Slot :: t'[i] ==
            if i < n && t[i].address != 0 && t[i].address != pc
            then t[i].(original := if Holds(t, t[i].address, i) then RST08 else m[t[i].address])
            else t[i])
  {
    if n > 0 {
      PlantPrefix(m, t, pc, n - 1);
      var (m1, t1) := Plant(m, t, pc, n - 1);
      assert t1[n - 1] == t[n - 1];
      forall a: word
        ensures Plant(m, t, pc, n).0[a] == if Holds(t, a, n) && a != pc then RST08 else m[a]
      {
        HoldsOne(t, a, n - 1);
      }
    }
  }

  /** What has just been planted shows the byte it covers. */
  lemma {:induction false} PlantedShows(m: Memory, t: Table, pc: word, a: word, n: nat)
    requires n <= MAX_BREAKPOINTS_COUNT && a != pc
    ensures Shown(Plant(m, t, pc, MAX_BREAKPOINTS_COUNT).1, a, n) == if Holds(t, a, n) then m[a] else RST08
  {
    PlantPrefix(m, t, pc, MAX_BREAKPOINTS_COUNT);
    if n > 0 {
      HoldsOne(t, a, n - 1);
      PlantedShows(m, t, pc, a, n - 1);
    }
  }
}
