// The debounced loop (internal/pipeline/reconcile.go, Run) and the non-blocking sends
// that wake it (cmd/gobackup-docker/main.go, fire): a one-slot channel, one timer and
// a reconcile that runs inside the loop. Durations are left to the schedule: an armed
// timer may expire at any moment, and so may a reconcile end.
module Trigger {

  /** slot: the channel holds a token; armed: the timer runs; busy: a reconcile runs. */
  datatype State = State(slot: bool, armed: bool, busy: bool)

  const INITIAL := State(false, false, false)

  datatype Event =
    | Fire               // someone asks for a reconcile, at any moment
    | Receive            // the loop takes the token and restarts the debounce timer
    | Expire             // the loop sees the timer expire: a reconcile begins
    | Finish(ok: bool)   // the reconcile ends; a failure arms the timer again

  predicate Enabled(s: State, e: Event) {
    match e
    case Fire => true
    case Receive => s.slot && !s.busy
    case Expire => s.armed && !s.busy
    case Finish(_) => s.busy
  }

  function Next(s: State, e: Event): State
    requires Enabled(s, e)
  {
    match e
    case Fire => s.(slot := true)
    case Receive => s.(slot := false, armed := true)
    case Expire => s.(armed := false, busy := true)
    case Finish(ok) => s.(busy := false, armed := s.armed || !ok)
  }

  /** es can happen, in this order, from s. */
  predicate Possible(s: State, es: seq<Event>)
    decreases es, 0
  {
    es == [] || (var pre := es[..|es| - 1]; Possible(s, pre) && Enabled(After(s, pre), es[|es| - 1]))
  }

  function After(s: State, es: seq<Event>): State
    requires Possible(s, es)
    decreases es, 1
  {
    if es == [] then s else Next(After(s, es[..|es| - 1]), es[|es| - 1])
  }

  predicate Wakes(s: State) {
    s.slot || s.armed
  }

  /** The loop as the program has it: fields, a select that takes one ready case at a
      time, and sends that never block. */
  class Loop {
    var slot: bool
    var armed: bool
    var busy: bool

    function Now(): State
      reads this
    {
      State(slot, armed, busy)
    }

    constructor ()
      ensures Now() == INITIAL
    {
      slot, armed, busy := false, false, false;
    }

    method DoFire()
      modifies this
      ensures Now() == Next(old(Now()), Fire)
    {
      if !slot {
        slot := true;
      }
    }

    /** One turn of the select, or the end of the reconcile that its timer case runs. */
    method Turn(e: Event)
      requires Enabled(Now(), e)
      modifies this
      ensures Now() == Next(old(Now()), e)
    {
      match e {
        case Fire => DoFire();
        case Receive =>
          slot := false;
          armed := true;
        case Expire =>
          armed := false;
          busy := true;
        case Finish(ok) =>
          busy := false;
          if !ok {
            armed := true;
          }
      }
    }

    /** Run, under any schedule of the loop and of the goroutines that fire. */
    method Run(schedule: seq<Event>)
      requires Possible(Now(), schedule)
      modifies this
      ensures Now() == After(old(Now()), schedule)
      ensures forall i :: 0 <= i < |schedule| && schedule[i] in {Fire, Finish(false)} && Expire !in schedule[i..] ==>
              Wakes(Now())
    {
      ghost var start := Now();
      var i := 0;
      assert schedule[..|schedule|] == schedule;
      while i < |schedule|
        invariant i <= |schedule|
        invariant Possible(start, schedule[..i]) && Now() == After(start, schedule[..i])
      {
        PossiblePrefix(start, schedule, i + 1);
        assert schedule[..i + 1][..i] == schedule[..i];
        Turn(schedule[i]);
        i := i + 1;
      }
      forall k | 0 <= k < |schedule| && schedule[k] in {Fire, Finish(false)} && Expire !in schedule[k..]
        ensures Wakes(Now())
      {
        NoLostWakeup(start, schedule, k);
      }
    }
  }

  lemma {:induction false} PossiblePrefix(s: State, es: seq<Event>, n: nat)
    requires Possible(s, es) && n <= |es|
    ensures Possible(s, es[..n])
  {
    if n < |es| {
      assert es[..|es| - 1][..n] == es[..n];
      PossiblePrefix(s, es[..|es| - 1], n);
    } else {
      assert es[..n] == es;
    }
  }

  /** After a fire or a failed reconcile, and until the next reconcile begins, the slot
      is full or the timer is armed: the request is not lost in any interleaving. */
  lemma {:induction false} NoLostWakeup(s: State, es: seq<Event>, i: nat)
    requires Possible(s, es) && i < |es|
    requires es[i] == Fire || es[i] == Finish(false)
    requires Expire !in es[i..]
    ensures Wakes(After(s, es))
  {
    var last := |es| - 1;
    assert es[last] in es[i..];
    if i < last {
      assert forall e :: e in es[..last][i..] ==> e in es[i..];
      NoLostWakeup(s, es[..last], i);
    }
  }

  /** The loop can come to rest, with nothing to do, only after a reconcile that began
      later than the last fire and succeeded. */
  lemma RestsOnlyWhenDone(es: seq<Event>, i: nat)
    requires Possible(INITIAL, es)
    requires forall e :: e != Fire ==> !Enabled(After(INITIAL, es), e)
    requires i < |es| && (es[i] == Fire || es[i] == Finish(false))
    ensures exists j :: i < j < |es| && es[j] == Expire
  {
    var end := After(INITIAL, es);
    assert !Enabled(end, Finish(true)) && !Enabled(end, Receive) && !Enabled(end, Expire);
    if Expire !in es[i..] {
      NoLostWakeup(INITIAL, es, i);
    }
    var k :| 0 <= k < |es[i..]| && es[i..][k] == Expire;
    assert es[i + k] == Expire;
  }

  /** The turns the loop can still take before it must begin a reconcile. */
  function Rank(s: State): nat {
    (if s.busy then 1 else 0) + (if s.slot then 1 else 0)
  }

  /** While a request is pending the loop is never stuck. */
  lemma NeverStuck(s: State)
    requires Wakes(s)
    ensures exists e :: e != Fire && Enabled(s, e)
  {
    assert if s.busy then Enabled(s, Finish(true)) else if s.slot then Enabled(s, Receive) else Enabled(s, Expire);
  }

  lemma {:induction false} RankFalls(s: State, es: seq<Event>)
    requires Wakes(s) && Possible(s, es)
    requires Fire !in es && Expire !in es
    ensures Wakes(After(s, es)) && Rank(After(s, es)) + |es| == Rank(s)
  {
    if es != [] {
      var pre := es[..|es| - 1];
      assert forall e :: e in pre ==> e in es;
      assert es[|es| - 1] in es;
      RankFalls(s, pre);
    }
  }

  lemma {:induction false} PossibleConcat(s: State, es: seq<Event>, more: seq<Event>)
    requires Possible(s, es + more)
    ensures Possible(s, es) && Possible(After(s, es), more)
    ensures After(s, es + more) == After(After(s, es), more)
  {
    if more == [] {
      assert es + more == es;
    } else {
      var pre := more[..|more| - 1];
      assert (es + more)[..|es + more| - 1] == es + pre;
      PossibleConcat(s, es, pre);
    }
  }

  /** Once the triggers pause, every fire is followed by a reconcile that begins later,
      whatever the loop was doing: three turns of the loop are enough. */
  lemma EveryFireIsServed(es: seq<Event>, i: nat, more: seq<Event>)
    requires Possible(INITIAL, es + more)
    requires i < |es| && (es[i] == Fire || es[i] == Finish(false))
    requires Fire !in more && |more| >= 3
    ensures exists j :: i < j < |es + more| && (es + more)[j] == Expire
  {
    PossibleConcat(INITIAL, es, more);
    if Expire in es[i..] {
      var k :| 0 <= k < |es[i..]| && es[i..][k] == Expire;
      assert (es + more)[i + k] == Expire;
    } else {
      NoLostWakeup(INITIAL, es, i);
      if Expire !in more { RankFalls(After(INITIAL, es), more); }
      var k :| 0 <= k < |more| && more[k] == Expire;
      assert (es + more)[|es| + k] == Expire;
    }
  }
}
