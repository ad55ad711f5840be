/** The A/B slot state machine of ota/src/bootloader.c and ab_meta/src/rk_ab_meta.c. */
module Slots {
  import opened Bytes
  import opened AbRecord

  const MAX_PRIORITY: byte := 15
  const MAX_TRIES: byte := 7

  /** `slot_is_bootable` */
  predicate Bootable(s: Slot) {
    s.priority > 0 && (s.successfulBoot > 0 || s.triesRemaining > 0)
  }

  /** `get_current_slot`: the bootable slot with the higher priority, slot 0 in a tie; if neither
      is bootable, the last booted one if that field names a slot; otherwise -1. */
  function CurrentSlot(d: AbData): (r: int)
    requires d.Valid()
    ensures -1 <= r <= 1
  {
    if Bootable(d.slots[0]) && Bootable(d.slots[1]) then
      if d.slots[1].priority > d.slots[0].priority then 1 else 0
    else if Bootable(d.slots[0]) then 0
    else if Bootable(d.slots[1]) then 1
    else if d.lastBoot == 0 then 0
    else if d.lastBoot == 1 then 1
    else -1
  }

  /** r is the slot to boot: a bootable one, no bootable one having a higher priority or the same
      priority and a lower number; when none is bootable, the one the last-boot field names; -1
      if there is none of either kind. */
  ghost predicate Best(d: AbData, r: int)
    requires d.Valid()
  {
    if exists i :: 0 <= i < 2 && Bootable(d.slots[i]) then
      && 0 <= r < 2 && Bootable(d.slots[r])
      && forall i :: 0 <= i < 2 && i != r && Bootable(d.slots[i]) ==>
           d.slots[i].priority < d.slots[r].priority || (d.slots[i].priority == d.slots[r].priority && r < i)
    else
      (d.lastBoot == 0 && r == 0) || (d.lastBoot == 1 && r == 1) || (d.lastBoot > 1 && r == -1)
  }

  lemma CurrentSlotIff(d: AbData, r: int)
    requires d.Valid()
    ensures CurrentSlot(d) == r <==> Best(d, r)
  {
    hide Bootable;
    if Bootable(d.slots[0]) || Bootable(d.slots[1]) {
      assert exists i :: 0 <= i < 2 && Bootable(d.slots[i]);
    } else {
      assert d.lastBoot == 0 || d.lastBoot == 1 || d.lastBoot > 1;
    }
  }

  function WithSlot(d: AbData, i: int, s: Slot): (r: AbData)
    requires d.Valid() && 0 <= i <= 1
    ensures r.Valid()
  {
    d.(slots := d.slots[i := s])
  }

  /** Make the slot other than `now` the preferred, untried one. */
  function Prefer(d: AbData, now: int): (r: AbData)
    requires d.Valid() && 0 <= now <= 1
    ensures r.Valid()
  {
    var other := d.slots[1 - now].(priority := MAX_PRIORITY, triesRemaining := MAX_TRIES, successfulBoot := 0);
    WithSlot(WithSlot(d, now, d.slots[now].(priority := MAX_PRIORITY - 1)), 1 - now, other)
  }

  /** What `setSlotActivity` does to the record; it fails if no slot is current. */
  function SetActivity(d: AbData): (r: Option<AbData>)
    requires d.Valid()
    ensures r.Some? ==> r.value.Valid()
  {
    var now := CurrentSlot(d);
    if now == -1 then None else Some(UpdateCrc(Prefer(d, now)))
  }

  /** What `rk_ab_meta_active_another_slot` does to the record while slot `running` runs.  It
      stores the result of its read, which is 0, in the last-boot field. */
  function ActivateAnother(d: AbData, running: int): (r: AbData)
    requires d.Valid() && 0 <= running <= 1
    ensures r.Valid()
  {
    UpdateCrc(Prefer(d, running).(lastBoot := 0))
  }

  /** Which of the macros SUCCESSFUL_BOOT and RETRY_BOOT the program is built with. */
  datatype Build = Build(successfulBoot: bool, retryBoot: bool)

  function Confirm(build: Build, s: Slot): Slot {
    var s1 := s.(priority := MAX_PRIORITY);
    var s2 := if build.successfulBoot then s1.(triesRemaining := 0, successfulBoot := 1) else s1;
    if build.retryBoot then s2.(triesRemaining := MAX_TRIES, successfulBoot := 0) else s2
  }

  /** What `setSlotSucceed` does to the record: None if it returns before writing.  It looks at
      the magic only after it has found the current slot. */
  function SetSucceeded(build: Build, d: AbData): (r: Option<AbData>)
    requires d.Valid()
    ensures r.Some? ==> r.value.Valid()
  {
    var now := CurrentSlot(d);
    if now == -1 || d.magic != AB_MAGIC then None
    else Some(UpdateCrc(WithSlot(d, now, Confirm(build, d.slots[now])).(lastBoot := if now == 0 then 0 else 1)))
  }

  /** What a boot does to the slot it selects. */
  function Tried(s: Slot): Slot {
    if s.successfulBoot > 0 || s.triesRemaining == 0 then s else s.(triesRemaining := s.triesRemaining - 1)
  }

  /** The bootloader, which is not part of the repository.  Assumed from the comments on the
      record's fields: it boots the current slot and, unless that one is marked successful, uses
      up one of its tries. */
  function Boot(d: AbData): (r: AbData)
    requires d.Valid()
    ensures r.Valid()
  {
    var now := CurrentSlot(d);
    if now == -1 || Tried(d.slots[now]) == d.slots[now] then d
    else UpdateCrc(WithSlot(d, now, Tried(d.slots[now])))
  }

  // ---------- an invariant of all runs ----------

  /** Priorities and tries are in range, and two bootable slots can be told apart. */
  predicate Sane(d: AbData) {
    && d.Valid()
    && (forall i :: 0 <= i < 2 ==> d.slots[i].priority <= MAX_PRIORITY && d.slots[i].triesRemaining <= MAX_TRIES)
    && (Bootable(d.slots[0]) && Bootable(d.slots[1]) ==> d.slots[0].priority != d.slots[1].priority)
  }

  datatype Event = Activity | Succeeded(build: Build) | Another(running: int) | Booted

  predicate Possible(e: Event) {
    e.Another? ==> 0 <= e.running <= 1
  }

  /** An operation that fails leaves the record as it is. */
  function Next(d: AbData, e: Event): (r: AbData)
    requires d.Valid() && Possible(e)
    ensures r.Valid()
  {
    match e
    case Activity => var r := SetActivity(d); if r == None then d else r.value
    case Succeeded(build) => var r := SetSucceeded(build, d); if r == None then d else r.value
    case Another(running) => ActivateAnother(d, running)
    case Booted => Boot(d)
  }

  function Run(d: AbData, events: seq<Event>): (r: AbData)
    requires d.Valid() && forall i :: 0 <= i < |events| ==> Possible(events[i])
    ensures r.Valid()
    decreases |events|
  {
    if events == [] then d else Run(Next(d, events[0]), events[1..])
  }

  lemma PreferKeepsSane(d: AbData, now: int)
    requires Sane(d) && 0 <= now <= 1
    ensures Sane(Prefer(d, now))
  {
  }

  lemma SucceededKeepsSane(d: AbData, build: Build)
    requires Sane(d) && SetSucceeded(build, d).Some?
    ensures Sane(SetSucceeded(build, d).value)
  {
    hide Sealed;
  }

  lemma BootKeepsSane(d: AbData)
    requires Sane(d)
    ensures Sane(Boot(d))
  {
    hide Sealed;
  }

  lemma NextKeepsSane(d: AbData, e: Event)
    requires Sane(d) && Possible(e)
    ensures Sane(Next(d, e)) && (Sealed(d) ==> Sealed(Next(d, e)))
  {
    hide Sealed, Prefer, CurrentSlot, Confirm;
    match e
    case Activity =>
      if CurrentSlot(d) != -1 { PreferKeepsSane(d, CurrentSlot(d)); }
    case Succeeded(build) =>
      if SetSucceeded(build, d).Some? { SucceededKeepsSane(d, build); }
    case Another(running) =>
      PreferKeepsSane(d, running);
    case Booted =>
      BootKeepsSane(d);
  }

  /** Every sequence of operations, in every build, interleaved with boots keeps the record sane
      and its checksum right. */
  lemma {:induction false} RunKeepsSane(d: AbData, events: seq<Event>)
    requires Sane(d) && forall i :: 0 <= i < |events| ==> Possible(events[i])
    ensures Sane(Run(d, events)) && (Sealed(d) ==> Sealed(Run(d, events)))
    decreases |events|
  {
    hide Sealed, Next;
    if events != [] {
      NextKeepsSane(d, events[0]);
      RunKeepsSane(Next(d, events[0]), events[1..]);
    }
  }

  // ---------- what the operations select ----------

  /** `setSlotActivity` always selects the other slot, whatever the record held. */
  lemma ActivityFlips(d: AbData)
    requires d.Valid() && SetActivity(d).Some?
    ensures CurrentSlot(SetActivity(d).value) == 1 - CurrentSlot(d)
  {
    hide Sealed;
  }

  /** After `rk_ab_meta_active_another_slot` the slot that is not running is selected. */
  lemma ActivateAnotherSelects(d: AbData, running: int)
    requires d.Valid() && 0 <= running <= 1
    ensures CurrentSlot(ActivateAnother(d, running)) == 1 - running
  {
    hide Sealed;
  }

  /** The two ways to activate the other slot agree if and only if the record selects the running
      slot and names slot 0 as the last booted one. */
  lemma ActivationsAgreeIff(d: AbData, running: int)
    requires d.Valid() && 0 <= running <= 1
    ensures SetActivity(d) == Some(ActivateAnother(d, running)) <==> CurrentSlot(d) == running && d.lastBoot == 0
  {
    hide Sealed;
    if SetActivity(d) == Some(ActivateAnother(d, running)) {
      ActivityFlips(d);
      ActivateAnotherSelects(d, running);
    }
  }

  /** `setSlotSucceed` keeps the selected slot and has no further effect when repeated, in every
      build, as long as priorities are in range. */
  lemma SucceededIsStable(build: Build, d: AbData)
    requires Sane(d) && SetSucceeded(build, d).Some?
    ensures var d1 := SetSucceeded(build, d).value;
            CurrentSlot(d1) == CurrentSlot(d) && SetSucceeded(build, d1) == Some(d1)
  {
    hide Sealed;
    var now := CurrentSlot(d);
    var d1 := SetSucceeded(build, d).value;
    assert CurrentSlot(d1) == now;
    assert Confirm(build, d1.slots[now]) == d1.slots[now];
    assert d1.slots[now := d1.slots[now]] == d1.slots;
  }

  // ---------- what the operations write ----------

  /** The slot left gets priority 14; the other one 15, seven tries, and is no longer marked
      successful; its reserved byte and the slot left are otherwise as they were. */
  predicate Switched(d: AbData, d1: AbData, now: int)
    requires d.Valid() && d1.Valid() && 0 <= now <= 1
  {
    && d1.slots[now] == d.slots[now].(priority := 14)
    && d1.slots[1 - now] == Slot(15, 7, 0, d.slots[1 - now].reserved)
  }

  /** `setSlotActivity` fails if and only if no slot is current; otherwise it switches away from
      the current one, and beyond that changes only the checksum. */
  lemma ActivityWrites(d: AbData)
    requires d.Valid()
    ensures SetActivity(d).Some? <==> CurrentSlot(d) != -1
    ensures SetActivity(d).Some? ==>
              var d1 := SetActivity(d).value;
              Switched(d, d1, CurrentSlot(d)) && d1 == d.(slots := d1.slots, crc := d1.crc)
  {
    hide Sealed, CurrentSlot;
  }

  /** `rk_ab_meta_active_another_slot` switches away from the running slot, and beyond that writes 0
      into the last-boot field and the checksum. */
  lemma ActivateAnotherWrites(d: AbData, running: int)
    requires d.Valid() && 0 <= running <= 1
    ensures var d1 := ActivateAnother(d, running);
            Switched(d, d1, running) && d1 == d.(slots := d1.slots, lastBoot := 0, crc := d1.crc)
  {
    hide Sealed;
  }

  /** `setSlotSucceed` writes if and only if a slot is current and the magic is right.  The current
      slot then has priority 15 and is named as the last booted one; built with RETRY_BOOT it has
      seven tries and is not marked successful, built with SUCCESSFUL_BOOT alone it has no tries and
      is marked; everything else is as it was, but the checksum. */
  lemma SucceededWrites(build: Build, d: AbData)
    requires d.Valid()
    ensures SetSucceeded(build, d).Some? <==> CurrentSlot(d) != -1 && d.magic == [0x00, 0x41, 0x42, 0x30]
    ensures SetSucceeded(build, d).Some? ==>
              var d1 := SetSucceeded(build, d).value;
              var now := CurrentSlot(d);
              && d1.lastBoot == (if now == 0 then 0 else 1) && d1.slots[1 - now] == d.slots[1 - now]
              && d1.slots[now].priority == 15 && d1.slots[now].reserved == d.slots[now].reserved
              && (build.retryBoot ==> d1.slots[now].triesRemaining == 7 && d1.slots[now].successfulBoot == 0)
              && (build.successfulBoot && !build.retryBoot ==>
                    d1.slots[now].triesRemaining == 0 && d1.slots[now].successfulBoot == 1)
              && (!build.successfulBoot && !build.retryBoot ==>
                    && d1.slots[now].triesRemaining == d.slots[now].triesRemaining
                    && d1.slots[now].successfulBoot == d.slots[now].successfulBoot)
              && d1 == d.(slots := d1.slots, lastBoot := d1.lastBoot, crc := d1.crc)
  {
    hide Sealed, CurrentSlot;
  }

  // ---------- bounded rollback ----------

  /** The record after n boots. */
  function Boots(d: AbData, n: nat): (r: AbData)
    requires d.Valid()
    ensures r.Valid()
    decreases n
  {
    if n == 0 then d else Boots(Boot(d), n - 1)
  }

  /** How many more boots a slot is good for when nobody confirms it; None for without end. */
  function Lives(s: Slot): Option<nat> {
    if s.priority == 0 then Some(0) else if s.successfulBoot > 0 then None else Some(s.triesRemaining as int)
  }

  lemma LivesOfBootable(s: Slot)
    ensures Bootable(s) <==> Lives(s) != Some(0)
  {
  }

  lemma LivesAfterTry(s: Slot)
    requires Bootable(s) && s.successfulBoot == 0
    ensures s.triesRemaining > 0
    ensures Lives(s).Some? && Lives(s).value > 0
    ensures Lives(s.(triesRemaining := s.triesRemaining - 1)) == Some(Lives(s).value - 1)
  {
  }

  /** Which slot n boots from here select, said without running them: the first one as long as it
      lives, then the second one as long as that lives, then what the last-boot field says. */
  function Forecast(first: int, a: Option<nat>, b: Option<nat>, lastBoot: byte, n: nat): int {
    if a == None || n < a.value then first
    else if b == None || n < a.value + b.value then 1 - first
    else if lastBoot == 0 then 0
    else if lastBoot == 1 then 1
    else -1
  }

  /** A record in which `first` is preferred as long as it is bootable. */
  predicate Prefers(d: AbData, first: int) {
    && d.Valid() && 0 <= first <= 1
    && (Bootable(d.slots[0]) && Bootable(d.slots[1]) ==> d.slots[first].priority > d.slots[1 - first].priority)
  }

  function Spend(a: Option<nat>): Option<nat> {
    if a == None || a.value == 0 then a else Some(a.value - 1)
  }

  lemma TriedSpends(s: Slot)
    ensures Tried(s).priority == s.priority && Lives(Tried(s)) == Spend(Lives(s))
    ensures Bootable(Tried(s)) ==> Bootable(s)
    ensures Bootable(s) <==> Lives(s) != Some(0)
  {
    if Bootable(s) && s.successfulBoot == 0 {
      LivesAfterTry(s);
    }
  }

  lemma BootTries(d: AbData)
    requires d.Valid()
    ensures var d1 := Boot(d); var now := CurrentSlot(d);
            && d1.lastBoot == d.lastBoot
            && if now == -1 then d1.slots == d.slots
               else d1.slots[now] == Tried(d.slots[now]) && d1.slots[1 - now] == d.slots[1 - now]
  {
    hide Sealed, CurrentSlot, Bootable, UpdateCrc, Tried;
  }

  /** The slot selected now. */
  lemma CurrentIsForecast(d: AbData, first: int)
    requires Prefers(d, first)
    ensures CurrentSlot(d) == Forecast(first, Lives(d.slots[first]), Lives(d.slots[1 - first]), d.lastBoot, 0)
    ensures Bootable(d.slots[first]) ==> CurrentSlot(d) == first
    ensures !Bootable(d.slots[first]) && Bootable(d.slots[1 - first]) ==> CurrentSlot(d) == 1 - first
  {
    hide Lives, Bootable;
    LivesOfBootable(d.slots[0]);
    LivesOfBootable(d.slots[1]);
  }

  /** One boot uses up one try of the slot it selects, if that is not confirmed. */
  lemma BootEffect(d: AbData, first: int)
    requires Prefers(d, first)
    ensures var d1 := Boot(d);
            && Prefers(d1, first) && d1.lastBoot == d.lastBoot
            && Lives(d1.slots[first]) == Spend(Lives(d.slots[first]))
            && Lives(d1.slots[1 - first]) == if Bootable(d.slots[first]) then Lives(d.slots[1 - first])
                                             else Spend(Lives(d.slots[1 - first]))
  {
    hide Boot, CurrentSlot, Lives, Tried, Bootable;
    BootTries(d);
    CurrentIsForecast(d, first);
    TriedSpends(d.slots[0]);
    TriedSpends(d.slots[1]);
    assert Spend(Some(0)) == Some(0);
  }

  /** The whole future of a record that nobody confirms, for every number of boots. */
  lemma {:induction false} BootsForecast(d: AbData, first: int, n: nat)
    requires Prefers(d, first)
    ensures CurrentSlot(Boots(d, n))
              == Forecast(first, Lives(d.slots[first]), Lives(d.slots[1 - first]), d.lastBoot, n)
    decreases n
  {
    hide Boot, CurrentSlot, Lives, Bootable;
    CurrentIsForecast(d, first);
    LivesOfBootable(d.slots[first]);
    if n > 0 {
      BootEffect(d, first);
      BootsForecast(Boot(d), first, n - 1);
    }
  }

  /** Bounded rollback.  After `setSlotActivity` has switched away from a confirmed slot, exactly
      the next seven boots select the new one, unless it is confirmed, and all later boots select
      the old one again. */
  lemma Rollback(d: AbData, n: nat)
    requires d.Valid() && CurrentSlot(d) != -1 && d.slots[CurrentSlot(d)].successfulBoot > 0
    ensures var was := CurrentSlot(d);
            CurrentSlot(Boots(SetActivity(d).value, n)) == if n < 7 then 1 - was else was
  {
    hide Sealed, Boots;
    var now := CurrentSlot(d);
    var d1 := SetActivity(d).value;
    BootsForecast(d1, 1 - now, n);
  }

  /** The same after `rk_ab_meta_active_another_slot`, for any record: seven boots of the new slot,
      then the old one for ever if it was confirmed, else for as many boots as it had tries, and
      then slot 0, whichever was running. */
  lemma RollbackAfterActivateAnother(d: AbData, running: int, n: nat)
    requires d.Valid() && 0 <= running <= 1
    ensures var was := d.slots[running];
            CurrentSlot(Boots(ActivateAnother(d, running), n)) ==
              if n < 7 then 1 - running
              else if was.successfulBoot > 0 || n < 7 + (was.triesRemaining as int) then running
              else 0
  {
    hide Sealed, Boots;
    BootsForecast(ActivateAnother(d, running), 1 - running, n);
  }

  /** A confirmed slot that is selected stays selected. */
  lemma ConfirmedStays(d: AbData, n: nat)
    requires Sane(d) && CurrentSlot(d) != -1 && Bootable(d.slots[CurrentSlot(d)])
    requires d.slots[CurrentSlot(d)].successfulBoot > 0
    ensures CurrentSlot(Boots(d, n)) == CurrentSlot(d)
  {
    hide Sealed, Boots;
    BootsForecast(d, CurrentSlot(d), n);
  }

  /** If a slot is confirmed and the other one is not, then whichever is selected now, all boots but
      at most the first seven select the confirmed one. */
  lemma FallsBack(d: AbData, confirmed: int, n: nat)
    requires Sane(d) && 0 <= confirmed <= 1 && n >= 7
    requires Bootable(d.slots[confirmed]) && d.slots[confirmed].successfulBoot > 0
    requires d.slots[1 - confirmed].successfulBoot == 0
    ensures CurrentSlot(Boots(d, n)) == confirmed
  {
    hide Sealed, Boots;
    if Prefers(d, confirmed) {
      BootsForecast(d, confirmed, n);
    } else {
      BootsForecast(d, 1 - confirmed, n);
    }
  }

  /** Built with SUCCESSFUL_BOOT alone, `setSlotSucceed` settles the matter: however many boots
      follow, all select the slot that was current. */
  lemma SucceededLasts(d: AbData, n: nat)
    requires Sane(d) && SetSucceeded(Build(true, false), d).Some?
    ensures CurrentSlot(Boots(SetSucceeded(Build(true, false), d).value, n)) == CurrentSlot(d)
  {
    hide Sealed, Boots;
    var d1 := SetSucceeded(Build(true, false), d).value;
    SucceededWrites(Build(true, false), d);
    SucceededIsStable(Build(true, false), d);
    SucceededKeepsSane(d, Build(true, false));
    hide SetSucceeded, CurrentSlot;
    ConfirmedStays(d1, n);
  }

  /** Built with RETRY_BOOT it grants seven more boots; then, unless it is called again, a confirmed
      other slot takes over. */
  lemma RetriedLastsSeven(build: Build, d: AbData, n: nat)
    requires Sane(d) && build.retryBoot && SetSucceeded(build, d).Some?
    ensures var now := CurrentSlot(d);
            var selected := CurrentSlot(Boots(SetSucceeded(build, d).value, n));
            && (n < 7 ==> selected == now)
            && (n >= 7 && Bootable(d.slots[1 - now]) && d.slots[1 - now].successfulBoot > 0 ==> selected == 1 - now)
  {
    hide Sealed, Boots;
    var now := CurrentSlot(d);
    var d1 := SetSucceeded(build, d).value;
    SucceededWrites(build, d);
    SucceededKeepsSane(d, build);
    SucceededIsStable(build, d);
    BootsForecast(d1, now, n);
  }
}
