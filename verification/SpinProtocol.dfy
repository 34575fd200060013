/** The Apps/NWP spin lock of driverlib/hwspinlock.c as two processors taking turns, one register
    access at a time, on a 2-bit ownership field with the hardware's write rule. */
module SpinProtocol {

  datatype Proc = Apps | Nwp {
    function Other(): Proc { if Apps? then Nwp else Apps }
  }

  /** The ownership field: 00, 01, 10 and, for what should never be, 11. */
  datatype Field = Free | Owned(owner: Proc) | Both

  /** Whether the processor's own bit of the field reads as set. */
  predicate Mine(f: Field, p: Proc) {
    f == Owned(p) || f == Both
  }

  /** inc/hw_common_reg.h: once a bit is set, the only write allowed is 00. */
  function Hw(f: Field, written: Field): Field {
    if f == Free || written == Free then written else f
  }

  function AtLeastOne(retries: nat): nat {
    if retries == 0 then 1 else retries
  }

  /** Where a processor is in the driver's code. */
  datatype Pc =
    | Outside
    | AcqWrite  // HwSpinLockAcquire: about to write
    | AcqRead
    | TryWrite(retry: nat, tried: nat, most: nat) // HwSpinLockTryAcquire: retries left, writes made and allowed
    | TryRead(retry: nat, tried: nat, most: nat)
    | TryLast(seen: bool, tried: nat, most: nat)  // about to make the read after the loop
    | RelRead   // HwSpinLockRelease
    | RelWrite

  /** A processor's place in the code, and whether it has been told that it holds the lock. */
  datatype Cpu = Cpu(pc: Pc, holds: bool)

  datatype State = State(field: Field, apps: Cpu, nwp: Cpu) {
    function Of(p: Proc): Cpu { if p.Apps? then apps else nwp }
  }

  datatype Event =
    | Access                      // a register access inside a call
    | CallAcquire | CallTry(retries: nat) | CallRelease
    | Return                      // from acquire or release
    | ReturnTry(result: int, writes: nat, most: nat)

  /** One register access, call or return of processor p: what it does to the field and to its own place. */
  ghost predicate CpuStep(f: Field, c: Cpu, p: Proc, e: Event, f': Field, c': Cpu) {
    match c.pc
    case Outside =>
      && f' == f
      && ((e == CallAcquire && c' == c.(pc := AcqWrite))
          || (e.CallTry? && c' == c.(pc := TryWrite(AtLeastOne(e.retries), 0, AtLeastOne(e.retries))))
          || (e == CallRelease && c' == c.(pc := RelRead)))
    case AcqWrite => e == Access && f' == Hw(f, Owned(p)) && c' == c.(pc := AcqRead)
    case AcqRead =>
      && f' == f
      && if Mine(f, p) then e == Return && c' == Cpu(Outside, true) else e == Access && c' == c.(pc := AcqWrite)
    case TryWrite(retry, tried, most) =>
      && e == Access && retry > 0
      && f' == Hw(f, Owned(p)) && c' == c.(pc := TryRead(retry - 1, tried + 1, most))
    case TryRead(retry, tried, most) =>
      && e == Access && f' == f
      && c' == c.(pc := if !Mine(f, p) && retry != 0 then TryWrite(retry, tried, most)
                        else TryLast(Mine(f, p), tried, most))
    case TryLast(seen, tried, most) =>
      && e == ReturnTry(if Mine(f, p) then 0 else -1, tried, most)
      && f' == f && c' == Cpu(Outside, Mine(f, p))
    case RelRead =>
      && f' == f
      && if Mine(f, p) then e == Access && c' == c.(pc := RelWrite) else e == Return && c' == c.(pc := Outside)
    case RelWrite => e == Return && f' == Hw(f, Free) && c' == Cpu(Outside, false)
  }

  /** One step of processor p in the system of the two. */
  ghost predicate Step(s: State, p: Proc, e: Event, s': State) {
    && CpuStep(s.field, s.Of(p), p, e, s'.field, s'.Of(p))
    && s'.Of(p.Other()) == s.Of(p.Other())
  }

  /** What holds for one processor whenever the other takes a step. */
  ghost predicate Local(s: State, p: Proc) {
    && (s.Of(p).holds ==> s.field == Owned(p))
    && (s.Of(p).pc == RelWrite ==> s.field == Owned(p))
    && (s.Of(p).pc.TryWrite? ==> s.Of(p).pc.retry > 0 && s.Of(p).pc.retry + s.Of(p).pc.tried == s.Of(p).pc.most)
    && (s.Of(p).pc.TryRead? ==> s.Of(p).pc.tried > 0 && s.Of(p).pc.retry + s.Of(p).pc.tried == s.Of(p).pc.most)
    && (s.Of(p).pc.TryLast? ==>
          && (s.Of(p).pc.seen <==> s.field == Owned(p)) && 0 < s.Of(p).pc.tried <= s.Of(p).pc.most
          && (!s.Of(p).pc.seen ==> s.Of(p).pc.tried == s.Of(p).pc.most))
  }

  ghost predicate Inv(s: State) {
    s.field != Both && Local(s, Apps) && Local(s, Nwp)
  }

  ghost predicate Init(s: State) {
    s.field == Free && forall p: Proc :: s.Of(p).pc == Outside && !s.Of(p).holds
  }

  datatype Move = Move(proc: Proc, event: Event)

  /** An interleaving of the two processors. */
  ghost predicate Run(states: seq<State>, moves: seq<Move>) {
    && |states| == |moves| + 1 && Init(states[0])
    && forall i :: 0 <= i < |moves| ==> Step(states[i], moves[i].proc, moves[i].event, states[i + 1])
  }

  lemma StepKeepsOwn(s: State, p: Proc, e: Event, s': State)
    requires s.field != Both && Local(s, p) && Step(s, p, e, s')
    ensures s'.field != Both && Local(s', p)
  {
  }

  lemma StepKeepsOther(s: State, p: Proc, e: Event, s': State)
    requires s.field != Both && Local(s, p) && Local(s, p.Other()) && Step(s, p, e, s')
    ensures Local(s', p.Other())
  {
    assert s'.Of(p.Other()) == s.Of(p.Other());
    assert s'.field == Owned(p.Other()) <==> s.field == Owned(p.Other());
  }

  lemma StepKeepsInv(s: State, p: Proc, e: Event, s': State)
    requires Inv(s) && Step(s, p, e, s')
    ensures Inv(s')
  {
    StepKeepsOwn(s, p, e, s');
    StepKeepsOther(s, p, e, s');
  }

  lemma {:induction false} RunKeepsInv(states: seq<State>, moves: seq<Move>, i: nat)
    requires Run(states, moves) && i < |states|
    ensures Inv(states[i])
  {
    if i > 0 {
      RunKeepsInv(states, moves, i - 1);
      StepKeepsInv(states[i - 1], moves[i - 1].proc, moves[i - 1].event, states[i]);
    }
  }

  /** In every interleaving, at every moment, at most one processor holds the lock, and the field agrees. */
  lemma MutualExclusion(states: seq<State>, moves: seq<Move>, i: nat)
    requires Run(states, moves) && i < |states|
    ensures !(states[i].Of(Apps).holds && states[i].Of(Nwp).holds)
    ensures forall p: Proc :: states[i].Of(p).holds ==> states[i].field == Owned(p)
    ensures states[i].field != Both
  {
    RunKeepsInv(states, moves, i);
    var s := states[i];
    forall p: Proc ensures s.Of(p).holds ==> s.field == Owned(p) {
      assert Local(s, p) by { assert p == Apps || p == Nwp; }
    }
  }

  predicate Releases(m: Move, p: Proc) {
    m.proc == p && m.event == CallRelease
  }

  /** Ownership, once gained, lasts until the owner itself calls release: the field stays the owner's
      whatever the other processor does. */
  lemma {:induction false} OwnershipPersists(states: seq<State>, moves: seq<Move>, p: Proc, i: nat, j: nat)
    requires Run(states, moves) && i <= j < |states|
    requires states[i].Of(p).holds && !states[i].Of(p).pc.RelRead? && !states[i].Of(p).pc.RelWrite?
    requires forall k :: i <= k < j ==> !Releases(moves[k], p)
    ensures states[j].field == Owned(p)
    ensures states[j].Of(p).holds && !states[j].Of(p).pc.RelRead? && !states[j].Of(p).pc.RelWrite?
    decreases j
  {
    RunKeepsInv(states, moves, j);
    if i < j {
      OwnershipPersists(states, moves, p, i, j - 1);
      RunKeepsInv(states, moves, j - 1);
      assert Step(states[j - 1], moves[j - 1].proc, moves[j - 1].event, states[j]);
      assert !Releases(moves[j - 1], p);
      assert Local(states[j - 1], p) by { assert p == Apps || p == Nwp; }
    }
    assert Local(states[j], p) by { assert p == Apps || p == Nwp; }
  }

  /** The writes a try call that is under way may make, or 0. */
  function Most(pc: Pc): nat {
    match pc
    case TryWrite(_, _, most) => most
    case TryRead(_, _, most) => most
    case TryLast(_, _, most) => most
    case _ => 0
  }

  /** Processor p, after i moves, is in the call it began with move k, a try with the given retries. */
  ghost predicate InTry(moves: seq<Move>, p: Proc, k: nat, retries: nat, i: nat) {
    && k < i <= |moves| && moves[k] == Move(p, CallTry(retries))
    && forall j :: k < j < i && moves[j].proc == p ==> moves[j].event == Access
  }

  lemma {:induction false} TryBegan(states: seq<State>, moves: seq<Move>, p: Proc, i: nat)
    returns (k: nat, retries: nat)
    requires Run(states, moves) && i < |states|
    requires var pc := states[i].Of(p).pc; pc.TryWrite? || pc.TryRead? || pc.TryLast?
    ensures InTry(moves, p, k, retries, i) && Most(states[i].Of(p).pc) == AtLeastOne(retries)
    decreases i
  {
    assert i > 0 by { assert states[0].Of(p).pc == Outside; }
    var s, m := states[i - 1], moves[i - 1];
    assert Step(s, m.proc, m.event, states[i]);
    if m.proc == p && s.Of(p).pc == Outside {
      k, retries := i - 1, m.event.retries;
    } else {
      assert m.proc != p ==> m.proc.Other() == p;
      k, retries := TryBegan(states, moves, p, i - 1);
    }
  }

  /** A try returns 0 with the lock held and -1 without it; it makes a write at least and, retries being given, no more
      than them, and gives up only after all of them, for the retries of the very call that returns. The read after
      the loop finds what the loop's last read found, so it never turns a success into a failure or the reverse. */
  lemma TryResult(states: seq<State>, moves: seq<Move>, i: nat) returns (k: nat, retries: nat)
    requires Run(states, moves) && i < |moves| && moves[i].event.ReturnTry?
    ensures var p := moves[i].proc;
            && states[i].Of(p).pc.TryLast?
            && moves[i].event.result == (if states[i].Of(p).pc.seen then 0 else -1)
            && (moves[i].event.result == 0 <==> states[i + 1].field == Owned(p))
            && (moves[i].event.result == 0 <==> states[i + 1].Of(p).holds)
            && k < i && moves[k] == Move(p, CallTry(retries))
            && (forall j :: k < j < i && moves[j].proc == p ==> moves[j].event == Access)
            && 1 <= moves[i].event.writes && (moves[i].event.writes <= 1 || moves[i].event.writes <= retries)
            && (moves[i].event.result == -1 ==> moves[i].event.writes == if retries == 0 then 1 else retries)
  {
    RunKeepsInv(states, moves, i);
    var s, p := states[i], moves[i].proc;
    assert Step(s, p, moves[i].event, states[i + 1]);
    assert Local(s, p) by { assert p == Apps || p == Nwp; }
    k, retries := TryBegan(states, moves, p, i);
  }

  /** What the other calls achieve: a write of acquire takes a free field, acquire returns with the lock held, and
      release frees the field if the processor owns it and otherwise leaves it alone. */
  lemma CallResults(states: seq<State>, moves: seq<Move>, i: nat)
    requires Run(states, moves) && i < |moves|
    ensures var p, pc := moves[i].proc, states[i].Of(moves[i].proc).pc;
            && ((pc.AcqWrite? || pc.TryWrite?) && states[i].field == Free ==> states[i + 1].field == Owned(p))
            && (pc.AcqRead? && moves[i].event == Return ==>
                  states[i + 1].field == Owned(p) && states[i + 1].Of(p).holds)
            && (pc.RelRead? && states[i].field != Owned(p) ==>
                  moves[i].event == Return && states[i + 1].field == states[i].field)
            && (pc.RelWrite? ==> moves[i].event == Return && states[i + 1].field == Free && !states[i + 1].Of(p).holds)
  {
    RunKeepsInv(states, moves, i);
    assert Step(states[i], moves[i].proc, moves[i].event, states[i + 1]);
  }

  /** What the steps of the other processor can do to the field: take it when it is free, free it when
      it is theirs, and nothing to a field that is owned by p. */
  predicate Interference(f: Field, f': Field, p: Proc) {
    f' == f || (f' != Both && f != Both && f != Owned(p) && f' != Owned(p))
  }

  lemma {:induction false} OtherInterferes(states: seq<State>, moves: seq<Move>, p: Proc, i: nat, j: nat)
    requires Run(states, moves) && i <= j < |states|
    requires forall k :: i <= k < j ==> moves[k].proc == p.Other()
    ensures Interference(states[i].field, states[j].field, p)
    decreases j
  {
    if i < j {
      OtherInterferes(states, moves, p, i, j - 1);
      RunKeepsInv(states, moves, i);
      RunKeepsInv(states, moves, j - 1);
      RunKeepsInv(states, moves, j);
      var s, q := states[j - 1], p.Other();
      assert moves[j - 1].proc == q;
      assert Step(s, q, moves[j - 1].event, states[j]);
      assert Local(s, q) by { assert q == Apps || q == Nwp; }
    }
  }

  // ----- one processor's accesses, the other's steps being interference

  datatype Place = Place(field: Field, cpu: Cpu)
  datatype Taken = Taken(from: Place, event: Event, to: Place)

  /** Only the other processor moved. */
  predicate Waits(a: Place, b: Place, p: Proc) {
    a.cpu == b.cpu && Interference(a.field, b.field, p)
  }

  /** Processor p gets from one place to another by these steps, the other processor moving before, between and
      after. */
  ghost predicate Trace(p: Proc, from: Place, steps: seq<Taken>, to: Place)
    decreases |steps|
  {
    if steps == [] then Waits(from, to, p)
    else
      var t := steps[|steps| - 1];
      && Trace(p, from, steps[..|steps| - 1], t.from)
      && CpuStep(t.from.field, t.from.cpu, p, t.event, t.to.field, t.to.cpu)
      && Waits(t.to, to, p)
  }

  /** The steps of one call: calling, register accesses, returning. */
  predicate OneCall(steps: seq<Taken>, call: Event, ret: Event) {
    && |steps| >= 2 && steps[0].event == call && steps[|steps| - 1].event == ret
    && forall i :: 0 < i < |steps| - 1 ==> steps[i].event == Access
  }

  /** One more step, from the field as the other processor has left it. */
  lemma TraceStep(p: Proc, from: Place, steps: seq<Taken>, at: Place, seen: Field, e: Event, to: Place)
    returns (more: seq<Taken>)
    requires Trace(p, from, steps, at) && Interference(at.field, seen, p)
    requires CpuStep(seen, at.cpu, p, e, to.field, to.cpu)
    ensures more == steps + [Taken(Place(seen, at.cpu), e, to)] && Trace(p, from, more, to)
  {
    more := steps + [Taken(Place(seen, at.cpu), e, to)];
    assert more[..|steps|] == steps;
  }

  function PlaceOf(s: State, p: Proc): Place {
    Place(s.field, s.Of(p))
  }

  /** In every run, what either processor does is such a trace. */
  lemma {:induction false} RunIsTrace(states: seq<State>, moves: seq<Move>, p: Proc, i: nat, j: nat)
    returns (steps: seq<Taken>)
    requires Run(states, moves) && i <= j < |states|
    ensures Trace(p, PlaceOf(states[i], p), steps, PlaceOf(states[j], p))
    decreases j
  {
    if i == j {
      steps := [];
    } else {
      steps := RunIsTrace(states, moves, p, i, j - 1);
      var s, m, s' := states[j - 1], moves[j - 1], states[j];
      assert Step(s, m.proc, m.event, s');
      if m.proc == p {
        steps := TraceStep(p, PlaceOf(states[i], p), steps, PlaceOf(s, p), s.field, m.event, PlaceOf(s', p));
      } else {
        assert m.proc.Other() == p;
        OtherInterferes(states, moves, p, j - 1, j);
      }
    }
  }
}
