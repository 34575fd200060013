/** driverlib/interrupt.c in whole runs: enabled and pending interrupts as sets, handlers as a table, and interrupts
    taken between any two register accesses. */
module NvicRuns {

  const NUM_INTERRUPTS: nat := 195

  datatype Handler = Default | Fn(id: nat)

  /** What the interrupt controller and the vector table in memory amount to. */
  datatype Snap = Snap(enabled: set<nat>, pending: set<nat>, vectors: seq<Handler>) {
    predicate Valid() { |vectors| == NUM_INTERRUPTS }
  }

  datatype Event =
    | Register(n: nat, handler: nat)
    | Unregister(n: nat)
    | Enable(n: nat)
    | Disable(n: nat)
    /** IntPendSet, or the peripheral itself. */
    | Pend(n: nat)
    | Unpend(n: nat)
    /** The processor takes an interrupt and starts the handler it finds in the table. */
    | Take(n: nat, via: Handler)

  ghost predicate Step(s: Snap, e: Event, s': Snap)
    requires s.Valid()
  {
    && s'.Valid() && e.n < NUM_INTERRUPTS
    && match e
       case Register(n, h) => s' == s.(vectors := s.vectors[n := Fn(h)])
       case Unregister(n) => s' == s.(vectors := s.vectors[n := Default])
       case Enable(n) => s' == s.(enabled := s.enabled + {n})
       case Disable(n) => s' == s.(enabled := s.enabled - {n})
       case Pend(n) => s' == s.(pending := s.pending + {n})
       case Unpend(n) => s' == s.(pending := s.pending - {n})
       case Take(n, h) => n in s.enabled && n in s.pending && h == s.vectors[n] && s' == s.(pending := s.pending - {n})
  }

  ghost predicate Run(states: seq<Snap>, events: seq<Event>) {
    && |states| == |events| + 1
    && (forall i :: 0 <= i < |states| ==> states[i].Valid())
    && forall i :: 0 <= i < |events| ==> Step(states[i], events[i], states[i + 1])
  }

  lemma StepOfRun(states: seq<Snap>, events: seq<Event>, i: nat)
    requires Run(states, events) && i < |events|
    ensures states[i].Valid() && Step(states[i], events[i], states[i + 1])
  {
  }

  // ----- when the default handler is within reach

  /** Interrupt n is enabled with the default handler in its place. */
  predicate Exposed(s: Snap, n: nat)
    requires s.Valid() && n < NUM_INTERRUPTS
  {
    n in s.enabled && s.vectors[n] == Default
  }

  /** That is when, pended, it can be taken to the default handler. */
  lemma ExposedReachesDefault(s: Snap, n: nat)
    requires s.Valid() && n < NUM_INTERRUPTS
    ensures Exposed(s, n) <==> exists s1, s2: Snap :: Step(s, Pend(n), s1) && Step(s1, Take(n, Default), s2)
  {
    if Exposed(s, n) {
      var s1 := s.(pending := s.pending + {n});
      var s2 := s1.(pending := s1.pending - {n});
      assert Step(s, Pend(n), s1) && Step(s1, Take(n, Default), s2);
    }
  }

  // ----- the discipline, told from the events of one interrupt

  /** A handler is registered; the interrupt is enabled. */
  datatype Track = Track(handled: bool, on: bool)

  function TrackOf(s: Snap, n: nat): Track
    requires s.Valid() && n < NUM_INTERRUPTS
  {
    Track(s.vectors[n] != Default, n in s.enabled)
  }

  function After(t: Track, n: nat, e: Event): Track {
    if e.n != n then t
    else match e
      case Register(_, _) => t.(handled := true)
      case Unregister(_) => t.(handled := false)
      case Enable(_) => t.(on := true)
      case Disable(_) => t.(on := false)
      case _ => t
  }

  function TrackAt(first: Track, events: seq<Event>, n: nat, i: nat): Track
    requires i <= |events|
  {
    if i == 0 then first else After(TrackAt(first, events, n, i - 1), n, events[i - 1])
  }

  /** Enabled only with a handler registered; the handler removed only while disabled. */
  predicate Allowed(t: Track, n: nat, e: Event) {
    && (e == Enable(n) ==> t.handled)
    && (e == Unregister(n) ==> !t.on)
  }

  ghost predicate Disciplined(first: Track, events: seq<Event>, n: nat) {
    forall i :: 0 <= i < |events| ==> Allowed(TrackAt(first, events, n, i), n, events[i])
  }

  lemma {:induction false} TrackIsState(states: seq<Snap>, events: seq<Event>, n: nat, i: nat)
    requires Run(states, events) && n < NUM_INTERRUPTS && i <= |events|
    ensures TrackAt(TrackOf(states[0], n), events, n, i) == TrackOf(states[i], n)
    decreases i
  {
    if i > 0 {
      TrackIsState(states, events, n, i - 1);
      StepOfRun(states, events, i - 1);
      TrackStep(states[i - 1], events[i - 1], states[i], n);
    }
  }

  lemma TrackStep(s: Snap, e: Event, s': Snap, n: nat)
    requires s.Valid() && n < NUM_INTERRUPTS && Step(s, e, s')
    ensures TrackOf(s', n) == After(TrackOf(s, n), n, e)
    ensures !Exposed(s, n) ==> (!Exposed(s', n) <==> Allowed(TrackOf(s, n), n, e))
  {
    if e.n != n {
      assert n in s'.enabled <==> n in s.enabled;
      assert s'.vectors[n] == s.vectors[n];
    }
  }

  /** In every run, with interrupts taken and other drivers called at any point: interrupt n never comes within reach
      of the default handler if and only if its own calls keep the discipline. */
  lemma SafeExactly(states: seq<Snap>, events: seq<Event>, n: nat)
    requires Run(states, events) && n < NUM_INTERRUPTS && !Exposed(states[0], n)
    ensures (forall i :: 0 <= i < |states| ==> !Exposed(states[i], n))
            <==> Disciplined(TrackOf(states[0], n), events, n)
  {
    var first := TrackOf(states[0], n);
    if Disciplined(first, events, n) {
      forall i | 0 <= i < |states| ensures !Exposed(states[i], n) {
        StaysSafe(states, events, n, i);
      }
    }
    if forall i :: 0 <= i < |states| ==> !Exposed(states[i], n) {
      forall i | 0 <= i < |events| ensures Allowed(TrackAt(first, events, n, i), n, events[i]) {
        TrackIsState(states, events, n, i);
        StepOfRun(states, events, i);
        TrackStep(states[i], events[i], states[i + 1], n);
      }
    }
  }

  lemma {:induction false} StaysSafe(states: seq<Snap>, events: seq<Event>, n: nat, i: nat)
    requires Run(states, events) && n < NUM_INTERRUPTS && !Exposed(states[0], n) && i <= |events|
    requires Disciplined(TrackOf(states[0], n), events, n)
    ensures !Exposed(states[i], n)
    decreases i
  {
    if i > 0 {
      StaysSafe(states, events, n, i - 1);
      SafeStep(states, events, n, i - 1);
    }
  }

  lemma SafeStep(states: seq<Snap>, events: seq<Event>, n: nat, i: nat)
    requires Run(states, events) && n < NUM_INTERRUPTS && i < |events| && !Exposed(states[i], n)
    requires Disciplined(TrackOf(states[0], n), events, n)
    ensures !Exposed(states[i + 1], n)
  {
    TrackIsState(states, events, n, i);
    StepOfRun(states, events, i);
    assert Allowed(TrackAt(TrackOf(states[0], n), events, n, i), n, events[i]);
    TrackStep(states[i], events[i], states[i + 1], n);
  }

  /** The handler most recently registered for n, if it has not been unregistered since. */
  function Current(events: seq<Event>, n: nat, first: Handler, i: nat): Handler
    requires i <= |events|
  {
    if i == 0 then first
    else
      match events[i - 1]
      case Register(k, h) => if k == n then Fn(h) else Current(events, n, first, i - 1)
      case Unregister(k) => if k == n then Default else Current(events, n, first, i - 1)
      case _ => Current(events, n, first, i - 1)
  }

  lemma {:induction false} TableIsCurrent(states: seq<Snap>, events: seq<Event>, n: nat, i: nat)
    requires Run(states, events) && n < NUM_INTERRUPTS && i <= |events|
    ensures states[i].vectors[n] == Current(events, n, states[0].vectors[n], i)
    decreases i
  {
    if i > 0 {
      TableIsCurrent(states, events, n, i - 1);
      StepOfRun(states, events, i - 1);
    }
  }

  /** An interrupt that is taken runs the handler most recently registered for it, never the default one. */
  lemma NeverDefault(states: seq<Snap>, events: seq<Event>, n: nat, i: nat)
    requires Run(states, events) && n < NUM_INTERRUPTS && !Exposed(states[0], n)
    requires Disciplined(TrackOf(states[0], n), events, n)
    requires i < |events| && events[i].Take? && events[i].n == n
    ensures events[i].via != Default
    ensures events[i].via == Current(events, n, states[0].vectors[n], i)
  {
    StaysSafe(states, events, n, i);
    TableIsCurrent(states, events, n, i);
    StepOfRun(states, events, i);
  }

  // ----- the drivers keep the discipline

  /** Events that do not touch n's handler or enable bit. */
  predicate Foreign(e: Event, n: nat) {
    e.n != n || e.Pend? || e.Unpend? || e.Take?
  }

  /** The events of a run's first i that touch n's handler or enable bit, in order. */
  function Own(events: seq<Event>, n: nat, i: nat): seq<Event>
    requires i <= |events|
  {
    if i == 0 then []
    else Own(events, n, i - 1) + if Foreign(events[i - 1], n) then [] else [events[i - 1]]
  }

  /** Registrations followed by enables and disables followed by unregistrations; the last pair may be half done. */
  predicate Paired(own: seq<Event>) {
    forall k :: 0 <= k < |own| ==> InPlace(own, k)
  }

  predicate InPlace(own: seq<Event>, k: nat)
    requires k < |own|
  {
    if k % 2 == 0 then own[k].Register? || own[k].Disable?
    else (own[k - 1].Register? && own[k].Enable?) || (own[k - 1].Disable? && own[k].Unregister?)
  }

  lemma {:induction false} OwnPrefix(events: seq<Event>, n: nat, i: nat, j: nat)
    requires i <= j <= |events|
    ensures Own(events, n, i) <= Own(events, n, j)
    decreases j
  {
    if i < j { OwnPrefix(events, n, i, j - 1); }
  }

  /** Right after a registration a handler is in place, and right after a disable the interrupt is off. */
  predicate Fresh(own: seq<Event>, t: Track) {
    own != [] ==>
      && (own[|own| - 1].Register? ==> t.handled)
      && (own[|own| - 1].Disable? ==> !t.on)
  }

  lemma {:induction false} StaysFresh(first: Track, events: seq<Event>, n: nat, i: nat)
    requires i <= |events|
    ensures Fresh(Own(events, n, i), TrackAt(first, events, n, i))
    decreases i
  {
    if i > 0 {
      StaysFresh(first, events, n, i - 1);
    }
  }

  /** Drivers that only register-then-enable and disable-then-unregister keep the discipline. */
  lemma PairedIsDisciplined(first: Track, events: seq<Event>, n: nat)
    requires Paired(Own(events, n, |events|))
    ensures Disciplined(first, events, n)
  {
    forall i | 0 <= i < |events| ensures Allowed(TrackAt(first, events, n, i), n, events[i]) {
      StaysFresh(first, events, n, i);
      OwnPrefix(events, n, i + 1, |events|);
      PairAllowed(first, events, n, i);
    }
  }

  lemma PairAllowed(first: Track, events: seq<Event>, n: nat, i: nat)
    requires i < |events| && Paired(Own(events, n, |events|))
    requires Own(events, n, i + 1) <= Own(events, n, |events|)
    requires Fresh(Own(events, n, i), TrackAt(first, events, n, i))
    ensures Allowed(TrackAt(first, events, n, i), n, events[i])
  {
    if !Foreign(events[i], n) {
      var own, k := Own(events, n, |events|), |Own(events, n, i)|;
      assert InPlace(own, k);
      assert own[k] == Own(events, n, i + 1)[k] == events[i];
      if k > 0 {
        assert own[k - 1] == Own(events, n, i + 1)[k - 1] == Own(events, n, i)[k - 1];
      }
    }
  }

  /** In every run in which the drivers of all interrupts only register-then-enable and disable-then-unregister, with
      interrupts taken and calls interrupted at any point, no interrupt ever reaches the default handler: each runs
      the handler most recently registered for it. */
  lemma DefaultHandlerUnreachable(states: seq<Snap>, events: seq<Event>)
    requires Run(states, events)
    requires forall n :: 0 <= n < NUM_INTERRUPTS ==> !Exposed(states[0], n) && Paired(Own(events, n, |events|))
    ensures forall i :: 0 <= i < |events| && events[i].Take? ==>
              && events[i].n < NUM_INTERRUPTS && events[i].via != Default
              && events[i].via == Current(events, events[i].n, states[0].vectors[events[i].n], i)
  {
    forall i | 0 <= i < |events| && events[i].Take?
      ensures events[i].n < NUM_INTERRUPTS && events[i].via != Default
      ensures events[i].via == Current(events, events[i].n, states[0].vectors[events[i].n], i)
    {
      StepOfRun(states, events, i);
      var n := events[i].n;
      PairedIsDisciplined(TrackOf(states[0], n), events, n);
      NeverDefault(states, events, n, i);
    }
  }

  lemma {:induction false} TrackPrefix(first: Track, events: seq<Event>, more: seq<Event>, n: nat, i: nat)
    requires i <= |events|
    ensures TrackAt(first, events + more, n, i) == TrackAt(first, events, n, i)
    decreases i
  {
    if i > 0 { TrackPrefix(first, events, more, n, i - 1); }
  }

  /** One more event, allowed where the run stands, keeps the discipline. */
  lemma DisciplineStep(first: Track, events: seq<Event>, e: Event, n: nat)
    requires Disciplined(first, events, n) && Allowed(TrackAt(first, events, n, |events|), n, e)
    ensures Disciplined(first, events + [e], n)
    ensures TrackAt(first, events + [e], n, |events| + 1) == After(TrackAt(first, events, n, |events|), n, e)
  {
    forall i | 0 <= i <= |events| ensures TrackAt(first, events + [e], n, i) == TrackAt(first, events, n, i) {
      TrackPrefix(first, events, [e], n, i);
    }
    forall i | 0 <= i < |events| + 1 ensures Allowed(TrackAt(first, events + [e], n, i), n, (events + [e])[i]) {
      if i < |events| { assert (events + [e])[i] == events[i]; }
    }
  }

  lemma {:induction false} ForeignKeeps(first: Track, events: seq<Event>, others: seq<Event>, n: nat)
    requires Disciplined(first, events, n) && forall i :: 0 <= i < |others| ==> Foreign(others[i], n)
    ensures Disciplined(first, events + others, n)
    ensures TrackAt(first, events + others, n, |events + others|) == TrackAt(first, events, n, |events|)
    decreases |others|
  {
    if others == [] {
      assert events + others == events;
    } else {
      var most, e := others[..|others| - 1], others[|others| - 1];
      ForeignKeeps(first, events, most, n);
      DisciplineStep(first, events + most, e, n);
      assert events + most + [e] == events + others;
    }
  }

  /** A register or unregister call of n's driver keeps the discipline, whatever foreign events interrupt it. */
  lemma CallKeepsDiscipline(first: Track, events: seq<Event>, a: Event, others: seq<Event>, b: Event, n: nat)
    requires Disciplined(first, events, n) && a.n == b.n == n
    requires (a.Register? && b.Enable?) || (a.Disable? && b.Unregister?)
    requires forall i :: 0 <= i < |others| ==> Foreign(others[i], n)
    ensures Disciplined(first, events + [a] + others + [b], n)
  {
    DisciplineStep(first, events, a, n);
    ForeignKeeps(first, events + [a], others, n);
    DisciplineStep(first, events + [a] + others, b, n);
  }

  /** The opposite order of removal does not, and neither does IntUnregister alone, though its comment says that it
      disables the interrupt: both expose n exactly if it was enabled. */
  lemma UnregisterFirst(s: Snap, n: nat, s': Snap)
    requires s.Valid() && Step(s, Unregister(n), s')
    ensures n in s.enabled <==> exists s1, s2: Snap :: Step(s', Pend(n), s1) && Step(s1, Take(n, Default), s2)
  {
    ExposedReachesDefault(s', n);
  }
}
