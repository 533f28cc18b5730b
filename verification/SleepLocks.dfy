// The lock counts of sleepmgr.h, as the USB driver uses them.

module SleepLocks {

  const ACTIVE: nat := 0
  const IDLE: nat := 1
  const PDOWN: nat := 5
  const NR_OF_MODES: nat := 6

  /** What the bus and the program do. LockMode and UnlockMode are the other users of the locks. */
  datatype Event =
    Enable | Disable | Attach | Detach | Suspend | Resume | RemoteWakeup | LockMode(mode: nat) | UnlockMode(mode: nat)

  datatype Power = Off | Suspended | Active

  /** The driver is enabled and disabled in turn, and the bus is silent while it is disabled. */
  predicate Possible(e: Event, p: Power) {
    match e
    case Enable => p == Off
    case Disable | Attach | Suspend | Resume | RemoteWakeup => p != Off
    case Detach => true
    case LockMode(mode) => mode < NR_OF_MODES
    case UnlockMode(mode) => mode < NR_OF_MODES
  }

  function NextPower(e: Event, p: Power): Power {
    match e
    case Enable => Suspended
    case Disable => Off
    case Attach | Resume | RemoteWakeup => Active
    case Suspend => Suspended
    case Detach | LockMode(_) | UnlockMode(_) => p
  }

  /** How often the driver holds a mode. */
  function Share(p: Power, mode: nat): nat {
    if mode == IDLE then if p == Active then 1 else 0
    else if mode == PDOWN then if p != Off then 1 else 0
    else 0
  }

  /** How often the others hold the modes, after an event of theirs. */
  function NextOthers(e: Event, others: seq<nat>): (r: seq<nat>)
    ensures |r| == |others|
  {
    if e.LockMode? && e.mode < |others| then others[e.mode := others[e.mode] + 1]
    else if e.UnlockMode? && e.mode < |others| && others[e.mode] > 0 then others[e.mode := others[e.mode] - 1]
    else others
  }

  /** The others unlock only what they locked, and leave the driver its share of 255. */
  predicate Fair(e: Event, others: seq<nat>)
    requires |others| == NR_OF_MODES
  {
    && (e.LockMode? ==> e.mode < NR_OF_MODES && others[e.mode] < 0xFE)
    && (e.UnlockMode? ==> e.mode < NR_OF_MODES && others[e.mode] > 0)
  }

  predicate PossibleRun(events: seq<Event>, p: Power, others: seq<nat>)
    requires |others| == NR_OF_MODES
    decreases events
  {
    events == [] ||
    (Possible(events[0], p) && Fair(events[0], others)
      && PossibleRun(events[1..], NextPower(events[0], p), NextOthers(events[0], others)))
  }

  function FinalPower(events: seq<Event>, p: Power): Power {
    if events == [] then p else FinalPower(events[1..], NextPower(events[0], p))
  }

  function FinalOthers(events: seq<Event>, others: seq<nat>): seq<nat>
    decreases events
  {
    if events == [] then others else FinalOthers(events[1..], NextOthers(events[0], others))
  }

  // ----- a history in plain words -----

  /** The events that say what the bus does; detaching does not touch the locks. */
  predicate AboutBus(e: Event) {
    !e.Detach? && !e.LockMode? && !e.UnlockMode?
  }

  /** Event k is the last one about the bus. */
  predicate LastAboutBus(events: seq<Event>, k: nat) {
    k < |events| && AboutBus(events[k]) && forall j :: k < j < |events| ==> !AboutBus(events[j])
  }

  /** The power state is what the last event about the bus made it. */
  lemma {:induction false} PowerAfter(events: seq<Event>, p: Power, k: nat)
    requires LastAboutBus(events, k)
    ensures FinalPower(events, p) == Off <==> events[k].Disable?
    ensures FinalPower(events, p) == Active <==> events[k].Attach? || events[k].Resume? || events[k].RemoteWakeup?
    ensures FinalPower(events, p) == Suspended <==> events[k].Enable? || events[k].Suspend?
  {
    if k > 0 {
      assert LastAboutBus(events[1..], k - 1);
      PowerAfter(events[1..], NextPower(events[0], p), k - 1);
    } else {
      PowerStays(events[1..], NextPower(events[0], p));
    }
  }

  lemma {:induction false} PowerStays(events: seq<Event>, p: Power)
    requires forall j :: 0 <= j < |events| ==> !AboutBus(events[j])
    ensures FinalPower(events, p) == p
  {
    if events != [] {
      PowerStays(events[1..], p);
    }
  }

  /** The others hold a mode once for each time that they locked it and did not unlock it again. */
  lemma {:induction false} OthersAfter(events: seq<Event>, p: Power, others: seq<nat>, m: nat)
    requires |others| == NR_OF_MODES && m < NR_OF_MODES && PossibleRun(events, p, others)
    ensures |FinalOthers(events, others)| == NR_OF_MODES
    ensures FinalOthers(events, others)[m] + multiset(events)[UnlockMode(m)]
         == others[m] + multiset(events)[LockMode(m)]
    decreases |events|
  {
    if events != [] {
      var e := events[0];
      OthersAfter(events[1..], NextPower(e, p), NextOthers(e, others), m);
      assert events == [e] + events[1..];
      assert multiset(events) == multiset{e} + multiset(events[1..]);
    }
  }

  /** The shallowest mode that is locked. */
  predicate IsFirst(locks: seq<nat>, mode: nat) {
    mode < |locks| && locks[mode] > 0 && forall m :: 0 <= m < mode ==> locks[m] == 0
  }

  class Locks {
    const counts: array<nat>
    /** udd_b_idle. */
    var idle: bool
    /** The state of the driver, and the counts of the others. */
    ghost var power: Power
    ghost var others: seq<nat>

    /** Static memory: sleepmgr_init has not been called. */
    constructor ()
      ensures Balanced() && fresh(counts) && power == Off && others == seq(NR_OF_MODES, _ => 0)
    {
      counts := new nat[NR_OF_MODES](_ => 0);
      idle, power, others := false, Off, seq(NR_OF_MODES, _ => 0);
    }

    ghost predicate Valid()
      reads this, counts
    {
      counts.Length == NR_OF_MODES == |others| && forall m :: 0 <= m < NR_OF_MODES ==> counts[m] <= 0xFF
    }

    /** Each count is what the driver and the others hold; udd_b_idle says whether the driver is active. */
    ghost predicate Balanced()
      reads this, counts
    {
      && Valid() && (idle <==> power == Active)
      && forall m :: 0 <= m < NR_OF_MODES ==> others[m] < 0xFF && counts[m] == others[m] + Share(power, m)
    }

    /** sleepmgr_init: the last mode is locked once and for all. */
    method Init()
      requires Balanced() && power == Off
      modifies this`others, counts
      ensures Balanced() && power == Off && others == seq(NR_OF_MODES, m => if m == NR_OF_MODES - 1 then 1 else 0)
    {
      for i := 0 to NR_OF_MODES - 1
        invariant forall m :: 0 <= m < i ==> counts[m] == 0
      {
        counts[i] := 0;
      }
      counts[NR_OF_MODES - 1] := 1;
      others := seq(NR_OF_MODES, m => if m == NR_OF_MODES - 1 then 1 else 0);
    }

    /** Hangs when the count is at its greatest, which requires excludes. */
    method Lock(mode: nat)
      requires Valid() && mode < NR_OF_MODES && counts[mode] < 0xFF
      modifies counts
      ensures Valid() && counts[..] == old(counts[..])[mode := old(counts[mode]) + 1]
    {
      counts[mode] := counts[mode] + 1;
    }

    /** Hangs when the count is 0, which requires excludes. */
    method Unlock(mode: nat)
      requires Valid() && mode < NR_OF_MODES && counts[mode] > 0
      modifies counts
      ensures Valid() && counts[..] == old(counts[..])[mode := old(counts[mode]) - 1]
    {
      counts[mode] := counts[mode] - 1;
    }

    /** udd_sleep_mode: true when the bus is active. */
    method SleepMode(active: bool)
      requires Balanced() && power != Off
      modifies this`idle, this`power, counts
      ensures Balanced() && power == if active then Active else Suspended
    {
      if !active && idle {
        Unlock(IDLE);
      }
      if active && !idle {
        Lock(IDLE);
      }
      idle := active;
      power := if active then Active else Suspended;
    }

    /**
     * udd_enable. The counts stay balanced exactly when the driver was disabled: enabling it
     * again forgets an IDLE lock and takes PDOWN once more.
     */
    method UddEnable()
      requires Balanced() && counts[PDOWN] < 0xFF
      modifies this`idle, this`power, counts
      ensures Valid() && power == Suspended
      ensures counts[..] == old(counts[..])[PDOWN := old(counts[PDOWN]) + 1]
      ensures Balanced() <==> old(power) == Off
    {
      idle := false;
      Lock(PDOWN);
      power := Suspended;
      assert counts[PDOWN] == old(counts[PDOWN]) + 1;
    }

    method UddDisable()
      requires Balanced() && power != Off
      modifies this`idle, this`power, counts
      ensures Balanced() && power == Off
    {
      SleepMode(false);
      Unlock(PDOWN);
      power := Off;
    }

    method SendRemoteWakeup()
      requires Balanced() && power != Off
      modifies this`idle, this`power, counts
      ensures Balanced() && power == Active
    {
      if !idle {
        SleepMode(true);
      }
    }

    /**
     * The scan for the shallowest locked mode. It stays in the table because some mode is
     * locked, and returns the first.
     */
    method GetSleepMode() returns (mode: nat)
      requires Valid() && exists m :: 0 <= m < NR_OF_MODES && counts[m] > 0
      ensures IsFirst(counts[..], mode)
    {
      mode := ACTIVE;
      while counts[mode] == 0
        invariant mode < NR_OF_MODES && forall m :: 0 <= m < mode ==> counts[m] == 0
        decreases NR_OF_MODES - mode
      {
        mode := mode + 1;
      }
    }

    method Handle(e: Event)
      requires Balanced() && Possible(e, power) && Fair(e, others)
      modifies this, counts
      ensures Balanced() && power == NextPower(e, old(power)) && others == NextOthers(e, old(others))
    {
      match e {
        case Enable => { UddEnable(); }
        case Disable => { UddDisable(); }
        case Attach => { SleepMode(true); }
        case Detach => { }
        case Suspend => { SleepMode(false); }
        case Resume => { SleepMode(true); }
        case RemoteWakeup => { SendRemoteWakeup(); }
        case LockMode(mode) => {
          Lock(mode);
          others := others[mode := others[mode] + 1];
        }
        case UnlockMode(mode) => {
          Unlock(mode);
          others := others[mode := others[mode] - 1];
        }
      }
    }

    /** Along every possible run no count overflows or underflows, and each is the sum of what is held. */
    method Replay(events: seq<Event>)
      requires Balanced() && PossibleRun(events, power, others)
      modifies this, counts
      ensures Balanced() && power == FinalPower(events, old(power)) && others == FinalOthers(events, old(others))
      ensures forall k: nat :: LastAboutBus(events, k) ==>
        && counts[1] == others[1] + (if events[k].Attach? || events[k].Resume? || events[k].RemoteWakeup? then 1 else 0)
        && counts[5] == others[5] + (if events[k].Disable? then 0 else 1)
      ensures forall m :: 0 <= m < 6 ==>
        others[m] + multiset(events)[UnlockMode(m)] == old(others[m]) + multiset(events)[LockMode(m)]
    {
      forall k: nat | LastAboutBus(events, k) {
        PowerAfter(events, power, k);
      }
      forall m | 0 <= m < NR_OF_MODES {
        OthersAfter(events, power, others, m);
      }
      var k := 0;
      while k < |events|
        invariant 0 <= k <= |events| && Balanced() && PossibleRun(events[k..], power, others)
        invariant FinalPower(events[k..], power) == FinalPower(events, old(power))
        invariant FinalOthers(events[k..], others) == FinalOthers(events, old(others))
      {
        assert events[k..][0] == events[k] && events[k..][1..] == events[k + 1..];
        Handle(events[k]);
        k := k + 1;
      }
      assert counts[1] == others[1] + Share(power, 1) && counts[5] == others[5] + Share(power, 5);
    }
  }

  /**
   * Without other users the scan finds IDLE when the bus is active and PDOWN when it is
   * suspended; when the driver is disabled nothing is locked, and the scan would leave the table.
   */
  lemma ModeOfPower(counts: seq<nat>, p: Power, mode: nat)
    requires |counts| == NR_OF_MODES && forall m :: 0 <= m < NR_OF_MODES ==> counts[m] == Share(p, m)
    ensures IsFirst(counts, mode) <==> (p == Active && mode == IDLE) || (p == Suspended && mode == PDOWN)
    ensures (exists m :: 0 <= m < NR_OF_MODES && counts[m] > 0) <==> p != Off
  {
    if p == Active {
      assert counts[IDLE] == 1;
    } else if p == Suspended {
      assert counts[PDOWN] == 1;
    }
  }
}
