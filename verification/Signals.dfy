/** POSIX signal delivery to Lua handlers. The asynchronous handler only raises flags and installs a hook; the hook's
    backend, on the main thread, scans the flags and calls the Lua functions. A schedule says which signals arrive at
    each point where the main thread can be interrupted, so a statement about every schedule is a statement about
    every interleaving. */
module Signals {
  type Sig = nat

  datatype Event = Delivered(sig: Sig) | Dispatched(sig: Sig) | Consumed(sig: Sig)

  // What Lua code does to the signal state. `lua` tells whether a function is given to call.
  datatype Op = Catch(sig: Sig, lua: bool) | Caught(sig: Sig) | CaughtAny | Ignore(sig: Sig) | Default(sig: Sig)

  predicate TakesBack(op: Op, sig: Sig) {
    if op.CaughtAny? then sig >= 1 else op.sig == sig
  }

  /** Which signals have a Lua handler after a call. */
  function Handled(handler: seq<bool>, op: Op): seq<bool> {
    match op
    case Catch(sig, lua) => if sig < |handler| then handler[sig := lua] else handler
    case Ignore(sig) => if sig < |handler| then handler[sig := false] else handler
    case Default(sig) => if sig < |handler| then handler[sig := false] else handler
    case Caught(_) => handler
    case CaughtAny => handler
  }

  ghost function HandledAll(handler: seq<bool>, ops: seq<Op>): seq<bool> {
    if ops == [] then handler else Handled(HandledAll(handler, ops[..|ops| - 1]), ops[|ops| - 1])
  }

  /** The signals a call takes back, of `count` there are, in order. */
  ghost function Takes(op: Op, count: nat): seq<Sig> {
    if op.CaughtAny? then Upto(count) else if op.sig < count then [op.sig] else []
  }

  ghost function Upto(count: nat): seq<Sig> {
    if count <= 1 then [] else Upto(count - 1) + [count - 1]
  }

  ghost function TakenBy(ops: seq<Op>, count: nat): seq<Sig> {
    if ops == [] then [] else TakenBy(ops[..|ops| - 1], count) + Takes(ops[|ops| - 1], count)
  }

  // A step of the main program: one of its calls, or any other instruction, where a hook can run.
  datatype Step = Call(op: Op) | Instruction

  ghost function OpsOf(steps: seq<Step>): seq<Op> {
    if steps == [] then []
    else
      var last := steps[|steps| - 1];
      OpsOf(steps[..|steps| - 1]) + if last.Call? then [last.op] else []
  }

  /** The last thing that happened to the signal is that it arrived. */
  ghost predicate Outstanding(log: seq<Event>, sig: Sig) {
    log != [] &&
    var e := log[|log| - 1];
    if e.sig == sig then e.Delivered? else Outstanding(log[..|log| - 1], sig)
  }

  /** Every arrival of the signal is followed by a dispatch, or by Lua code taking it back. */
  ghost predicate Answered(log: seq<Event>, sig: Sig) {
    forall k | 0 <= k < |log| && log[k] == Delivered(sig) ::
      exists j | k < j < |log| :: log[j] == Dispatched(sig) || log[j] == Consumed(sig)
  }

  lemma {:induction false} NotOutstandingIsAnswered(log: seq<Event>, sig: Sig)
    ensures Answered(log, sig) <==> !Outstanding(log, sig)
  {
    if log != [] {
      var front, e := log[..|log| - 1], log[|log| - 1];
      NotOutstandingIsAnswered(front, sig);
      if e.sig != sig {
        if Answered(log, sig) {
          forall k | 0 <= k < |front| && front[k] == Delivered(sig)
            ensures exists j | k < j < |front| :: front[j] == Dispatched(sig) || front[j] == Consumed(sig)
          {
            assert log[k] == Delivered(sig);
            var j :| k < j < |log| && (log[j] == Dispatched(sig) || log[j] == Consumed(sig));
            assert front[j] == log[j];
          }
        } else {
          var k :| 0 <= k < |log| && log[k] == Delivered(sig) &&
                   !exists j | k < j < |log| :: log[j] == Dispatched(sig) || log[j] == Consumed(sig);
          assert front[k] == log[k];
          forall j | k < j < |front| ensures !(front[j] == Dispatched(sig) || front[j] == Consumed(sig)) {
            assert front[j] == log[j];
          }
        }
      } else if e.Delivered? {
        assert log[|log| - 1] == Delivered(sig);
      } else {
        forall k | 0 <= k < |log| && log[k] == Delivered(sig)
          ensures exists j | k < j < |log| :: log[j] == Dispatched(sig) || log[j] == Consumed(sig)
        {
          assert log[|log| - 1] == e;
        }
      }
    }
  }

  /** The log agrees with the flags: an unanswered signal is still flagged, or is the one in `flight` whose flag the
      backend has just put down; and there are at least as many arrivals as dispatches done and still to come. */
  ghost predicate Accounted(log: seq<Event>, triggered: seq<bool>, flight: set<Sig>) {
    forall s | 0 <= s < |triggered| ::
      && (Outstanding(log, s) ==> triggered[s] || s in flight)
      && multiset(log)[Dispatched(s)] + (if triggered[s] then 1 else 0) + (if s in flight then 1 else 0)
         <= multiset(log)[Delivered(s)]
  }

  lemma AccountedStep(log: seq<Event>, triggered: seq<bool>, flight: set<Sig>, e: Event)
    requires Accounted(log, triggered, flight) && e.sig < |triggered|
    requires e.Dispatched? ==> e.sig in flight
    ensures e.Delivered? ==> Accounted(log + [e], triggered[e.sig := true], flight)
    ensures e.Dispatched? ==> Accounted(log + [e], triggered, flight - {e.sig})
    ensures e.Consumed? ==> Accounted(log + [e], triggered[e.sig := false], flight)
  {
    assert (log + [e])[..|log|] == log;
  }

  // ---------- What happened, and to what it was due ----------

  datatype Kind = Arriving | Calling | Taking

  function KindOf(e: Event): Kind {
    match e
    case Delivered(_) => Arriving
    case Dispatched(_) => Calling
    case Consumed(_) => Taking
  }

  /** The signals of one kind of event, in order. */
  ghost function Sigs(log: seq<Event>, kind: Kind): seq<Sig> {
    if log == [] then []
    else
      var e := log[|log| - 1];
      Sigs(log[..|log| - 1], kind) + if KindOf(e) == kind then [e.sig] else []
  }

  ghost function Flat<T>(parts: seq<seq<T>>): seq<T> {
    if parts == [] then [] else Flat(parts[..|parts| - 1]) + parts[|parts| - 1]
  }

  /** The signals there are, of those named. */
  ghost function Within(sigs: seq<Sig>, count: nat): seq<Sig> {
    if sigs == [] then []
    else
      var s := sigs[|sigs| - 1];
      Within(sigs[..|sigs| - 1], count) + if s < count then [s] else []
  }

  // The signals that have arrived, been dispatched and been taken back, and which have a handler.
  datatype Account = Account(arrived: seq<Sig>, called: seq<Sig>, taken: seq<Sig>, handler: seq<bool>)

  /** None of the calls gives the signal a Lua handler. */
  ghost predicate NoneCatches(ops: seq<Op>, sig: Sig) {
    forall op | op in ops :: op != Catch(sig, true)
  }

  /** Of the signals that had no Lua handler and were given none, none was dispatched. */
  ghost predicate Silent(before: Account, after: Account, ops: seq<Op>) {
    before.called <= after.called &&
    forall s | 0 <= s < |before.handler| && !before.handler[s] && NoneCatches(ops, s) ::
      s !in after.called[|before.called|..]
  }

  /** From one account to a later one: the schedule but for `rest` has arrived, the calls `ops` were made and nothing
      else took a signal back or changed a handler, and there were `calls` dispatches, all of signals that had one. */
  ghost predicate Went(before: Account, after: Account, schedule: seq<seq<Sig>>, rest: seq<seq<Sig>>, ops: seq<Op>,
                       calls: nat)
  {
    var count := |before.handler|;
    && |rest| <= |schedule| && rest == schedule[|schedule| - |rest|..]
    && after.arrived == before.arrived + Within(Flat(schedule[..|schedule| - |rest|]), count)
    && after.taken == before.taken + TakenBy(ops, count)
    && after.handler == HandledAll(before.handler, ops)
    && |after.called| == |before.called| + calls && Silent(before, after, ops)
  }

  /** The same, when the calls are those of the Lua functions dispatched: they run the programs but for `later`, one
      to a dispatch as long as there are programs. */
  ghost predicate Played(before: Account, after: Account, schedule: seq<seq<Sig>>, rest: seq<seq<Sig>>,
                         programs: seq<seq<Op>>, later: seq<seq<Op>>)
  {
    && |later| <= |programs| && |before.called| <= |after.called|
    && var n, calls := |programs| - |later|, |after.called| - |before.called|;
       && later == programs[n..] && n == (if calls <= |programs| then calls else |programs|)
       && Went(before, after, schedule, rest, Flat(programs[..n]), calls)
  }

  lemma {:induction false} FlatConcat<T>(a: seq<seq<T>>, b: seq<seq<T>>)
    ensures Flat(a + b) == Flat(a) + Flat(b)
  {
    if b == [] {
      assert a + b == a;
    } else {
      assert (a + b)[..|a + b| - 1] == a + b[..|b| - 1];
      FlatConcat(a, b[..|b| - 1]);
    }
  }

  lemma {:induction false} WithinConcat(a: seq<Sig>, b: seq<Sig>, count: nat)
    ensures Within(a + b, count) == Within(a, count) + Within(b, count)
  {
    if b == [] {
      assert a + b == a;
    } else {
      assert (a + b)[..|a + b| - 1] == a + b[..|b| - 1];
      WithinConcat(a, b[..|b| - 1], count);
    }
  }

  lemma {:induction false} TakenByConcat(a: seq<Op>, b: seq<Op>, count: nat)
    ensures TakenBy(a + b, count) == TakenBy(a, count) + TakenBy(b, count)
  {
    hide Takes;
    if b == [] {
      assert a + b == a;
    } else {
      assert (a + b)[..|a + b| - 1] == a + b[..|b| - 1];
      TakenByConcat(a, b[..|b| - 1], count);
    }
  }

  lemma {:induction false} HandledAllConcat(handler: seq<bool>, a: seq<Op>, b: seq<Op>)
    ensures HandledAll(handler, a + b) == HandledAll(HandledAll(handler, a), b)
  {
    hide Handled;
    if b == [] {
      assert a + b == a;
    } else {
      assert (a + b)[..|a + b| - 1] == a + b[..|b| - 1];
      HandledAllConcat(handler, a, b[..|b| - 1]);
    }
  }

  lemma {:induction false} HandledAllSize(handler: seq<bool>, ops: seq<Op>)
    ensures |HandledAll(handler, ops)| == |handler|
  {
    if ops != [] {
      HandledAllSize(handler, ops[..|ops| - 1]);
    }
  }

  lemma HandledStill(handler: seq<bool>, op: Op, s: Sig)
    requires s < |handler| && !handler[s] && op != Catch(s, true)
    ensures |Handled(handler, op)| == |handler| && !Handled(handler, op)[s]
  {
  }

  /** A signal without a handler gets one only from a call that gives it one. */
  lemma {:induction false} StillUnhandled(handler: seq<bool>, ops: seq<Op>, s: Sig)
    requires s < |handler| && !handler[s] && NoneCatches(ops, s)
    ensures |HandledAll(handler, ops)| == |handler| && !HandledAll(handler, ops)[s]
  {
    hide Handled;
    if ops != [] {
      var front, last := ops[..|ops| - 1], ops[|ops| - 1];
      assert last in ops;
      forall op | op in front ensures op != Catch(s, true) {
        assert op in ops;
      }
      StillUnhandled(handler, front, s);
      HandledStill(HandledAll(handler, front), last, s);
    }
  }

  lemma SilentOn(a: Account, b: Account, c: Account, ops: seq<Op>, more: seq<Op>)
    requires Silent(a, b, ops) && Silent(b, c, more) && b.handler == HandledAll(a.handler, ops)
    ensures Silent(a, c, ops + more)
  {
    var front, back := b.called[|a.called|..], c.called[|b.called|..];
    assert c.called[|a.called|..] == front + back;
    forall s | 0 <= s < |a.handler| && !a.handler[s] && NoneCatches(ops + more, s) ensures s !in front + back {
      assert forall op | op in ops :: op in ops + more;
      assert forall op | op in more :: op in ops + more;
      assert NoneCatches(ops, s) && NoneCatches(more, s);
      StillUnhandled(a.handler, ops, s);
    }
  }

  lemma {:induction false} SigsConcat(a: seq<Event>, b: seq<Event>, kind: Kind)
    ensures Sigs(a + b, kind) == Sigs(a, kind) + Sigs(b, kind)
  {
    if b == [] {
      assert a + b == a;
    } else {
      assert (a + b)[..|a + b| - 1] == a + b[..|b| - 1];
      SigsConcat(a, b[..|b| - 1], kind);
    }
  }

  lemma SigsStep(log: seq<Event>, e: Event)
    ensures Sigs(log + [e], Arriving) == Sigs(log, Arriving) + if e.Delivered? then [e.sig] else []
    ensures Sigs(log + [e], Calling) == Sigs(log, Calling) + if e.Dispatched? then [e.sig] else []
    ensures Sigs(log + [e], Taking) == Sigs(log, Taking) + if e.Consumed? then [e.sig] else []
  {
    assert (log + [e])[..|log|] == log;
  }

  lemma WentOn(a: Account, b: Account, c: Account, schedule: seq<seq<Sig>>, mid: seq<seq<Sig>>, rest: seq<seq<Sig>>,
               ops: seq<Op>, more: seq<Op>, calls: nat, further: nat)
    requires Went(a, b, schedule, mid, ops, calls) && Went(b, c, mid, rest, more, further)
    ensures Went(a, c, schedule, rest, ops + more, calls + further)
  {
    hide HandledAll, TakenBy, Within, Flat, Silent;
    SilentOn(a, b, c, ops, more);
    var n, m, count := |schedule| - |mid|, |schedule| - |rest|, |a.handler|;
    assert schedule[..m] == schedule[..n] + mid[..m - n];
    assert rest == schedule[m..];
    HandledAllSize(a.handler, ops);
    HandledAllConcat(a.handler, ops, more);
    TakenByConcat(ops, more, count);
    FlatConcat(schedule[..n], mid[..m - n]);
    WithinConcat(Flat(schedule[..n]), Flat(mid[..m - n]), count);
  }

  lemma WentNowhere(a: Account, schedule: seq<seq<Sig>>)
    ensures Went(a, a, schedule, schedule, [], 0)
  {
  }

  lemma PlayOn(a: Account, b: Account, c: Account, schedule: seq<seq<Sig>>, mid: seq<seq<Sig>>, rest: seq<seq<Sig>>,
               programs: seq<seq<Op>>, between: seq<seq<Op>>, later: seq<seq<Op>>)
    requires Played(a, b, schedule, mid, programs, between) && Played(b, c, mid, rest, between, later)
    ensures Played(a, c, schedule, rest, programs, later)
  {
    hide Went, Flat;
    var n, m := |programs| - |between|, |programs| - |later|;
    assert programs[..m] == programs[..n] + between[..m - n];
    FlatConcat(programs[..n], between[..m - n]);
    WentOn(a, b, c, schedule, mid, rest, Flat(programs[..n]), Flat(between[..m - n]), |b.called| - |a.called|,
           |c.called| - |b.called|);
  }

  /** Where no Lua function is called, the programs wait. */
  lemma NonePlayed(a: Account, b: Account, schedule: seq<seq<Sig>>, rest: seq<seq<Sig>>, programs: seq<seq<Op>>)
    requires Went(a, b, schedule, rest, [], 0)
    ensures Played(a, b, schedule, rest, programs, programs)
  {
  }

  lemma OnePlayed(a: Account, b: Account, schedule: seq<seq<Sig>>, rest: seq<seq<Sig>>, programs: seq<seq<Op>>)
    requires Went(a, b, schedule, rest, if programs == [] then [] else programs[0], 1)
    ensures Played(a, b, schedule, rest, programs, if programs == [] then [] else programs[1..])
  {
    hide Went;
    if programs != [] {
      assert programs[..1][..0] == [] && Flat(programs[..1]) == programs[0];
    }
    assert |b.called| == |a.called| + 1 by {
      CallsCounted(a, b, schedule, rest, if programs == [] then [] else programs[0], 1);
    }
  }

  lemma CallsCounted(a: Account, b: Account, schedule: seq<seq<Sig>>, rest: seq<seq<Sig>>, ops: seq<Op>, calls: nat)
    requires Went(a, b, schedule, rest, ops, calls)
    ensures |b.called| == |a.called| + calls
  {
  }

  /** A run of the main program: its calls and those of the Lua functions are `ops`, in the order they were made. */
  ghost predicate Ran(before: Account, after: Account, schedule: seq<seq<Sig>>, rest: seq<seq<Sig>>,
                      programs: seq<seq<Op>>, later: seq<seq<Op>>, main: seq<Op>, ops: seq<Op>)
  {
    && |later| <= |programs| && |before.called| <= |after.called|
    && var n, calls := |programs| - |later|, |after.called| - |before.called|;
       && later == programs[n..] && n == (if calls <= |programs| then calls else |programs|)
       && Went(before, after, schedule, rest, ops, calls)
       && multiset(ops) == multiset(main) + multiset(Flat(programs[..n]))
  }

  /** None of the calls takes the signal back. */
  ghost predicate Untaken(ops: seq<Op>, sig: Sig) {
    forall op | op in ops :: !TakesBack(op, sig)
  }

  /** Every arrival of the signal from `from` on, and any before that had no answer by then, is followed by a
      dispatch. */
  ghost predicate ServedSince(log: seq<Event>, from: nat, sig: Sig) {
    forall k | 0 <= k < |log| && log[k] == Delivered(sig)
               && (forall j | k < j < from && j < |log| :: log[j] != Dispatched(sig) && log[j] != Consumed(sig)) ::
      exists j | k < j < |log| :: log[j] == Dispatched(sig)
  }

  lemma NoneWithin(count: nat)
    ensures Within([], count) == []
  {
  }

  lemma WithinStep(sigs: seq<Sig>, k: nat, count: nat)
    requires k < |sigs|
    ensures Within(sigs[..k + 1], count) == Within(sigs[..k], count) + if sigs[k] < count then [sigs[k]] else []
  {
    assert sigs[..k + 1][..k] == sigs[..k];
  }

  lemma OneGroup(a: Account, schedule: seq<seq<Sig>>)
    requires schedule != []
    ensures Went(a, a.(arrived := a.arrived + Within(schedule[0], |a.handler|)), schedule, schedule[1..], [], 0)
  {
    hide Within;
    assert schedule[..1][..0] == [] && Flat(schedule[..1]) == schedule[0];
  }

  lemma OneCall(a: Account, op: Op, schedule: seq<seq<Sig>>)
    ensures var b := a.(taken := a.taken + Takes(op, |a.handler|), handler := Handled(a.handler, op));
            Went(a, b, schedule, schedule, [op], 0)
  {
    hide Takes, Handled;
    assert [op][..0] == [];
    WentNowhere(a, schedule);
  }

  lemma OneDispatch(a: Account, sig: Sig, schedule: seq<seq<Sig>>)
    requires sig < |a.handler| && a.handler[sig]
    ensures Went(a, a.(called := a.called + [sig]), schedule, schedule, [], 1)
  {
    WentNowhere(a, schedule);
    assert (a.called + [sig])[|a.called|..] == [sig];
  }

  lemma SameCalls(a: Account, b: Account, schedule: seq<seq<Sig>>, rest: seq<seq<Sig>>, ops: seq<Op>)
    requires Went(a, b, schedule, rest, ops, 0)
    ensures b.called == a.called
  {
  }

  /** A scan's dispatches are in the order of the signals. */
  ghost predicate Rising(sigs: seq<Sig>, below: nat) {
    (forall i, j | 0 <= i < j < |sigs| :: sigs[i] < sigs[j]) && forall s | s in sigs :: s < below
  }

  lemma NoneRising(a: Account)
    ensures Rising(a.called[|a.called|..], 0)
  {
  }

  lemma RisingOn(a: Account, b: Account, c: Account, i: nat)
    requires a.called <= b.called && Rising(b.called[|a.called|..], i)
    requires c.called == b.called || c.called == b.called + [i]
    ensures a.called <= c.called && Rising(c.called[|a.called|..], i + 1)
  {
    var now := b.called[|a.called|..];
    assert c.called[|a.called|..] == if c.called == b.called then now else now + [i];
    assert forall k | 0 <= k < |now| :: now[k] in now;
  }

  /** From the account to the log: what was not called since has no dispatch in the log since. */
  lemma NoneDispatched(before: seq<Event>, log: seq<Event>, sig: Sig)
    requires before <= log && Sigs(before, Calling) <= Sigs(log, Calling)
    requires sig !in Sigs(log, Calling)[|Sigs(before, Calling)|..]
    ensures Dispatched(sig) !in log[|before|..]
  {
    hide Sigs;
    var more := log[|before|..];
    assert log == before + more;
    SigsConcat(before, more, Calling);
    assert Sigs(log, Calling)[|Sigs(before, Calling)|..] == Sigs(more, Calling);
    if Dispatched(sig) in more {
      EventsShow(more, Dispatched(sig));
    }
  }

  lemma PlayedSilent(before: seq<Event>, log: seq<Event>, a: Account, b: Account, schedule: seq<seq<Sig>>,
                     rest: seq<seq<Sig>>, programs: seq<seq<Op>>, later: seq<seq<Op>>)
    requires before <= log && a.called == Sigs(before, Calling) && b.called == Sigs(log, Calling)
    requires Played(a, b, schedule, rest, programs, later)
    ensures forall s | 0 <= s < |a.handler| && !a.handler[s] && NoneCatches(Flat(programs), s) ::
              Dispatched(s) !in log[|before|..]
  {
    hide Sigs, HandledAll, Within, Flat, TakenBy;
    var n := |programs| - |later|;
    FlatConcat(programs[..n], programs[n..]);
    assert programs == programs[..n] + programs[n..];
    forall s | 0 <= s < |a.handler| && !a.handler[s] && NoneCatches(Flat(programs), s)
      ensures Dispatched(s) !in log[|before|..]
    {
      assert forall op | op in Flat(programs[..n]) :: op in Flat(programs);
      assert NoneCatches(Flat(programs[..n]), s);
      NoneDispatched(before, log, s);
    }
  }

  lemma RanSilent(before: seq<Event>, log: seq<Event>, a: Account, b: Account, schedule: seq<seq<Sig>>,
                  rest: seq<seq<Sig>>, programs: seq<seq<Op>>, later: seq<seq<Op>>, main: seq<Op>, ops: seq<Op>)
    requires before <= log && a.called == Sigs(before, Calling) && b.called == Sigs(log, Calling)
    requires Ran(a, b, schedule, rest, programs, later, main, ops)
    ensures forall s | 0 <= s < |a.handler| && !a.handler[s] && NoneCatches(ops, s) ::
              Dispatched(s) !in log[|before|..]
  {
    hide Sigs, HandledAll, Within, Flat, TakenBy;
    forall s | 0 <= s < |a.handler| && !a.handler[s] && NoneCatches(ops, s) ensures Dispatched(s) !in log[|before|..] {
      NoneDispatched(before, log, s);
    }
  }

  lemma RestShrinks(a: Account, b: Account, schedule: seq<seq<Sig>>, rest: seq<seq<Sig>>, ops: seq<Op>, calls: nat)
    requires Went(a, b, schedule, rest, ops, calls)
    ensures |rest| <= |schedule|
  {
  }

  lemma RestPlayed(a: Account, b: Account, schedule: seq<seq<Sig>>, rest: seq<seq<Sig>>, programs: seq<seq<Op>>,
                   later: seq<seq<Op>>)
    requires Played(a, b, schedule, rest, programs, later)
    ensures |rest| <= |schedule| && |later| <= |programs| && later == programs[|programs| - |later|..]
  {
  }

  lemma OpRan(a: Account, b: Account, schedule: seq<seq<Sig>>, rest: seq<seq<Sig>>, programs: seq<seq<Op>>, op: Op)
    requires Went(a, b, schedule, rest, [op], 0)
    ensures Ran(a, b, schedule, rest, programs, programs, OpsOf([Call(op)]), [op])
  {
    assert [Call(op)][..0] == [] && OpsOf([Call(op)]) == [op];
  }

  lemma PlayedRan(a: Account, b: Account, schedule: seq<seq<Sig>>, rest: seq<seq<Sig>>, programs: seq<seq<Op>>,
                  later: seq<seq<Op>>)
    requires Played(a, b, schedule, rest, programs, later)
    ensures |later| <= |programs|
    ensures Ran(a, b, schedule, rest, programs, later, OpsOf([Instruction]), Flat(programs[..|programs| - |later|]))
  {
    hide Went;
    assert [Instruction][..0] == [] && OpsOf([Instruction]) == [];
  }

  lemma NothingRan(a: Account, schedule: seq<seq<Sig>>, programs: seq<seq<Op>>)
    ensures Ran(a, a, schedule, schedule, programs, programs, OpsOf([]), [])
  {
    WentNowhere(a, schedule);
  }

  lemma RanOn(a: Account, b: Account, c: Account, schedule: seq<seq<Sig>>, mid: seq<seq<Sig>>, rest: seq<seq<Sig>>,
              programs: seq<seq<Op>>, between: seq<seq<Op>>, later: seq<seq<Op>>, main: seq<Op>, ops: seq<Op>,
              main': seq<Op>, ops': seq<Op>)
    requires Ran(a, b, schedule, mid, programs, between, main, ops) && Ran(b, c, mid, rest, between, later, main', ops')
    ensures Ran(a, c, schedule, rest, programs, later, main + main', ops + ops')
  {
    hide Went, Flat;
    var n, m := |programs| - |between|, |programs| - |later|;
    assert programs[..m] == programs[..n] + between[..m - n];
    FlatConcat(programs[..n], between[..m - n]);
    WentOn(a, b, c, schedule, mid, rest, ops, ops', |b.called| - |a.called|, |c.called| - |b.called|);
  }

  lemma OpsStep(steps: seq<Step>, k: nat)
    requires k < |steps|
    ensures OpsOf(steps[..k + 1]) == OpsOf(steps[..k]) + OpsOf([steps[k]])
  {
    assert steps[..k + 1][..k] == steps[..k] && [steps[k]][..0] == [];
  }

  lemma UptoNone()
    ensures Upto(0) == Upto(1) == []
  {
  }

  lemma UptoStep(i: nat)
    requires 1 <= i
    ensures Upto(i + 1) == Upto(i) + [i]
  {
  }

  lemma {:induction false} UptoFromOne(count: nat)
    ensures 0 !in Upto(count)
  {
    if count > 1 {
      UptoFromOne(count - 1);
    }
  }

  lemma UntakenByOne(op: Op, count: nat, sig: Sig)
    requires !TakesBack(op, sig)
    ensures sig !in Takes(op, count)
  {
    UptoFromOne(count);
  }

  lemma {:induction false} UntakenBy(ops: seq<Op>, count: nat, sig: Sig)
    requires Untaken(ops, sig)
    ensures sig !in TakenBy(ops, count)
  {
    hide Takes, TakesBack;
    if ops != [] {
      var op := ops[|ops| - 1];
      assert op in ops;
      UntakenBy(ops[..|ops| - 1], count, sig);
      UntakenByOne(op, count, sig);
    }
  }

  lemma {:induction false} EventsShow(log: seq<Event>, e: Event)
    requires e in log
    ensures e.sig in Sigs(log, KindOf(e))
  {
    var last := log[|log| - 1];
    if e != last {
      assert log == log[..|log| - 1] + [last];
      EventsShow(log[..|log| - 1], e);
    }
  }

  lemma Cancel<T>(x: seq<T>, a: seq<T>, b: seq<T>)
    requires x + a == x + b
    ensures a == b
  {
    assert (x + a)[|x|..] == a && (x + b)[|x|..] == b;
  }

  lemma UntakenStays(before: seq<Event>, log: seq<Event>, ops: seq<Op>, count: nat, sig: Sig)
    requires before <= log && Sigs(log, Taking) == Sigs(before, Taking) + TakenBy(ops, count) && Untaken(ops, sig)
    ensures Consumed(sig) !in log[|before|..]
  {
    hide Sigs, TakenBy, Untaken;
    var more := log[|before|..];
    assert log == before + more;
    SigsConcat(before, more, Taking);
    Cancel(Sigs(before, Taking), Sigs(more, Taking), TakenBy(ops, count));
    UntakenBy(ops, count, sig);
    if Consumed(sig) in more {
      EventsShow(more, Consumed(sig));
    }
  }

  lemma PlayedUntaken(before: seq<Event>, log: seq<Event>, a: Account, b: Account, schedule: seq<seq<Sig>>,
                      rest: seq<seq<Sig>>, programs: seq<seq<Op>>, later: seq<seq<Op>>, sig: Sig)
    requires before <= log && a.taken == Sigs(before, Taking) && b.taken == Sigs(log, Taking)
    requires Played(a, b, schedule, rest, programs, later) && Untaken(Flat(programs), sig)
    ensures Consumed(sig) !in log[|before|..]
  {
    hide Sigs, HandledAll, Within, Flat, TakenBy, Silent, Untaken;
    var n := |programs| - |later|;
    FlatConcat(programs[..n], programs[n..]);
    assert programs == programs[..n] + programs[n..];
    UntakenOfThem(Flat(programs[..n]), Flat(programs));
    UntakenStays(before, log, Flat(programs[..n]), |a.handler|, sig);
  }

  lemma RanUntaken(before: seq<Event>, log: seq<Event>, a: Account, b: Account, schedule: seq<seq<Sig>>,
                   rest: seq<seq<Sig>>, programs: seq<seq<Op>>, later: seq<seq<Op>>, main: seq<Op>, ops: seq<Op>,
                   sig: Sig)
    requires before <= log && a.taken == Sigs(before, Taking) && b.taken == Sigs(log, Taking)
    requires Ran(a, b, schedule, rest, programs, later, main, ops) && Untaken(main + Flat(programs), sig)
    ensures Consumed(sig) !in log[|before|..]
  {
    hide Sigs, HandledAll, Within, Flat, TakenBy, Silent, Untaken;
    var n := |programs| - |later|;
    FlatConcat(programs[..n], programs[n..]);
    assert programs == programs[..n] + programs[n..];
    forall op | op in ops ensures op in main + Flat(programs) {
      assert op in multiset(ops);
      assert op in multiset(main) || op in multiset(Flat(programs[..n]));
    }
    UntakenOfThem(ops, main + Flat(programs));
    UntakenStays(before, log, ops, |a.handler|, sig);
  }

  /** An answer that is nobody's taking back is a dispatch. */
  lemma NoneLost(before: seq<Event>, log: seq<Event>, sig: Sig)
    requires before <= log && Answered(log, sig) && Consumed(sig) !in log[|before|..]
    ensures ServedSince(log, |before|, sig)
  {
    forall j | |before| <= j < |log| ensures log[j] != Consumed(sig) {
      assert log[|before|..][j - |before|] == log[j];
    }
  }

  lemma StillThere(from: nat, log: seq<Event>, log': seq<Event>)
    requires from <= |log| && log <= log'
    ensures forall e | e in log[from..] :: e in log'[from..]
  {
    assert log'[from..] == log[from..] + log'[|log|..];
  }

  lemma LaterThere(from: nat, mid: nat, log: seq<Event>)
    requires from <= mid <= |log|
    ensures forall e | e in log[mid..] :: e in log[from..]
  {
    assert log[from..] == log[from..mid] + log[mid..];
  }

  /** What no program takes back, the first one does not, nor do those that are left. */
  lemma UntakenHead(programs: seq<seq<Op>>)
    ensures programs != [] ==> forall s | Untaken(Flat(programs), s) :: Untaken(programs[0], s)
    ensures forall s :: Untaken([], s)
  {
    if programs != [] {
      assert programs == [programs[0]] + programs[1..];
      FlatConcat([programs[0]], programs[1..]);
      assert [programs[0]][..0] == [] && Flat([programs[0]]) == programs[0];
    }
  }

  lemma UntakenRest(a: Account, b: Account, schedule: seq<seq<Sig>>, rest: seq<seq<Sig>>, programs: seq<seq<Op>>,
                    later: seq<seq<Op>>)
    requires Played(a, b, schedule, rest, programs, later)
    ensures forall s | Untaken(Flat(programs), s) :: Untaken(Flat(later), s)
  {
    hide Went;
    var n := |programs| - |later|;
    assert programs == programs[..n] + later;
    FlatConcat(programs[..n], later);
  }

  lemma {:induction false} OpsOfConcat(a: seq<Step>, b: seq<Step>)
    ensures OpsOf(a + b) == OpsOf(a) + OpsOf(b)
  {
    if b == [] {
      assert a + b == a;
    } else {
      assert (a + b)[..|a + b| - 1] == a + b[..|b| - 1];
      OpsOfConcat(a, b[..|b| - 1]);
    }
  }

  lemma OneOp(op: Op)
    ensures OpsOf([Call(op)]) == [op]
    ensures forall more: seq<Op>, s | Untaken(OpsOf([Call(op)]) + more, s) :: !TakesBack(op, s)
  {
    hide TakesBack;
    assert [Call(op)][..0] == [];
    assert forall more: seq<Op> :: ([op] + more)[0] == op;
  }

  lemma OneInstruction(programs: seq<seq<Op>>)
    ensures OpsOf([Instruction]) + Flat(programs) == Flat(programs)
  {
    assert [Instruction][..0] == [];
  }

  lemma UntakenStep(a: Account, b: Account, schedule: seq<seq<Sig>>, rest: seq<seq<Sig>>, programs: seq<seq<Op>>,
                    later: seq<seq<Op>>, steps: seq<Step>, k: nat, ops: seq<Op>)
    requires k < |steps| && Ran(a, b, schedule, rest, programs, later, OpsOf(steps[..k]), ops)
    ensures forall s | Untaken(OpsOf(steps) + Flat(programs), s) :: Untaken(OpsOf([steps[k]]) + Flat(later), s)
  {
    hide Went, OpsOf, Flat, TakesBack, Untaken;
    var n := |programs| - |later|;
    assert programs == programs[..n] + later;
    FlatConcat(programs[..n], later);
    assert steps == steps[..k] + ([steps[k]] + steps[k + 1..]);
    OpsOfConcat(steps[..k], [steps[k]] + steps[k + 1..]);
    OpsOfConcat([steps[k]], steps[k + 1..]);
    var some, all := OpsOf([steps[k]]) + Flat(later), OpsOf(steps) + Flat(programs);
    assert forall op | op in some :: op in all;
    UntakenOfThem(some, all);
  }

  lemma UntakenOfThem(some: seq<Op>, all: seq<Op>)
    requires forall op | op in some :: op in all
    ensures forall s | Untaken(all, s) :: Untaken(some, s)
  {
  }

  class Signals {
    var hook: bool                  // luasigbackend is the debug hook
    var m_signal: bool
    const triggered: array<bool>    // m_handlers[].triggered
    const handler: array<bool>      // m_handlers[].fref != LUA_NOREF
    ghost var log: seq<Event>

    ghost predicate Shape()
      reads this
    {
      triggered.Length == handler.Length && triggered != handler
    }

    /** Every flag up for a signal with a Lua handler will be seen by the scan of the backend now at `at`. */
    ghost predicate Seen(at: nat)
      reads this, triggered, handler
    {
      Shape() && forall s | 0 <= s < triggered.Length && triggered[s] && handler[s] :: m_signal || at <= s
    }

    /** Every flag up for a signal with a Lua handler has the hook installed, and the backend's work set out. */
    ghost predicate Hooked()
      reads this, triggered, handler
    {
      Shape() && forall s | 0 <= s < triggered.Length && triggered[s] && handler[s] :: hook && m_signal
    }

    ghost predicate Books(flight: set<Sig>)
      reads this, triggered
    {
      Accounted(log, triggered[..], flight)
    }

    /** The signals that are flagged and have a Lua handler. */
    ghost function Ready(): set<Sig>
      reads this, triggered, handler
      requires Shape()
    {
      set s | 0 <= s < triggered.Length && triggered[s] && handler[s]
    }

    ghost function Now(): Account
      reads this, handler
    {
      Account(Sigs(log, Arriving), Sigs(log, Calling), Sigs(log, Taking), handler[..])
    }

    constructor (n: nat)
      ensures Hooked() && Books({}) && log == [] && triggered.Length == n && fresh(triggered) && fresh(handler)
    {
      hook, m_signal := false, false;
      triggered := new bool[n](_ => false);
      handler := new bool[n](_ => false);
      log := [];
    }

    method SignalHandler(sig: Sig, ghost flight: set<Sig>)
      requires Shape() && Books(flight) && sig < triggered.Length
      modifies this`hook, this`m_signal, this`log, triggered
      ensures Books(flight) && log == old(log) + [Delivered(sig)]
      ensures hook && m_signal && triggered[..] == old(triggered[..])[sig := true]
    {
      AccountedStep(log, triggered[..], flight, Delivered(sig));
      hook := true;
      triggered[sig] := true;
      m_signal := true;
      log := log + [Delivered(sig)];
    }

    /** A signal arrives, if there is such a signal. */
    method Arrive(sig: Sig, ghost flight: set<Sig>)
      requires Shape() && Books(flight)
      modifies this`hook, this`m_signal, this`log, triggered
      ensures Books(flight) && old(log) <= log
      ensures Now() == old(Now()).(arrived := old(Now()).arrived + if sig < triggered.Length then [sig] else [])
      ensures old(m_signal) ==> m_signal
      ensures forall at | old(Seen(at)) :: Seen(at)
      ensures old(Hooked()) ==> Hooked()
      ensures forall s | 0 <= s < triggered.Length && old(triggered[s]) :: triggered[s]
      ensures old(Ready()) <= Ready()
    {
      hide Accounted, Sigs;
      if sig < triggered.Length {
        SigsStep(log, Delivered(sig));
        SignalHandler(sig, flight);
      }
    }

    /** A point where the main thread can be interrupted: the next group of signals on the schedule arrives. */
    method Interrupt(schedule: seq<seq<Sig>>, ghost flight: set<Sig>) returns (rest: seq<seq<Sig>>)
      requires Shape() && Books(flight)
      modifies this`hook, this`m_signal, this`log, triggered
      ensures Books(flight) && old(log) <= log
      ensures Went(old(Now()), Now(), schedule, rest, [], 0)
      ensures schedule == [] ==> rest == [] && log == old(log) && hook == old(hook) && m_signal == old(m_signal)
                                 && triggered[..] == old(triggered[..])
      ensures schedule != [] ==> rest == schedule[1..]
      ensures old(m_signal) ==> m_signal
      ensures forall at | old(Seen(at)) :: Seen(at)
      ensures old(Hooked()) ==> Hooked()
      ensures forall s | 0 <= s < triggered.Length && old(triggered[s]) :: triggered[s]
      ensures old(Ready()) <= Ready()
    {
      hide Accounted, Sigs, Within, Went;
      WentNowhere(Now(), schedule);
      if schedule == [] {
        return [];
      }
      rest := schedule[1..];
      var arriving := schedule[0];
      NoneWithin(triggered.Length);
      for k := 0 to |arriving|
        invariant Books(flight) && old(log) <= log
        invariant Now() == old(Now()).(arrived := old(Now()).arrived + Within(arriving[..k], triggered.Length))
        invariant old(m_signal) ==> m_signal
        invariant forall at | old(Seen(at)) :: Seen(at)
        invariant old(Hooked()) ==> Hooked()
        invariant forall s | 0 <= s < triggered.Length && old(triggered[s]) :: triggered[s]
        invariant old(Ready()) <= Ready()
      {
        WithinStep(arriving, k, triggered.Length);
        Arrive(arriving[k], flight);
      }
      assert arriving[..|arriving|] == arriving;
      OneGroup(old(Now()), schedule);
    }

    /** Lua code takes a signal back, and may change whether it has a handler. */
    method Reset(sig: Sig, lua: bool, ghost flight: set<Sig>)
      requires Shape() && Books(flight) && sig < triggered.Length
      modifies this`log, triggered, handler
      ensures Books(flight) && log == old(log) + [Consumed(sig)]
      ensures triggered[..] == old(triggered[..])[sig := false] && handler[..] == old(handler[..])[sig := lua]
      ensures Now() == old(Now()).(taken := old(Now()).taken + [sig], handler := old(Now()).handler[sig := lua])
      ensures forall at | old(Seen(at)) :: Seen(at)
      ensures old(Hooked()) ==> Hooked()
    {
      hide Sigs;
      AccountedStep(log, triggered[..], flight, Consumed(sig));
      SigsStep(log, Consumed(sig));
      handler[sig] := lua;
      triggered[sig] := false;
      log := log + [Consumed(sig)];
    }

    /** caught(sig): takes the signal back, and tells whether it was there. */
    method Caught(sig: Sig, ghost flight: set<Sig>) returns (caught: bool)
      requires Shape() && Books(flight) && sig < triggered.Length
      modifies this`log, triggered, handler
      ensures Books(flight) && log == old(log) + [Consumed(sig)]
      ensures caught == old(triggered[sig])
      ensures triggered[..] == old(triggered[..])[sig := false] && handler[..] == old(handler[..])
      ensures Now() == old(Now()).(taken := old(Now()).taken + [sig])
      ensures forall at | old(Seen(at)) :: Seen(at)
      ensures old(Hooked()) ==> Hooked()
    {
      hide Accounted, Sigs;
      caught := triggered[sig];
      ghost var h := handler[..];
      Reset(sig, handler[sig], flight);
      assert h[sig := h[sig]] == h;
    }

    /** caught() without a signal: takes them all back, and tells whether there was any. */
    method ResetAll(ghost flight: set<Sig>) returns (caught: bool)
      requires Shape() && Books(flight)
      modifies this`log, triggered, handler
      ensures Books(flight) && old(log) <= log
      ensures caught <==> exists s | 1 <= s < triggered.Length :: old(triggered[s])
      ensures forall s | 0 <= s < triggered.Length :: triggered[s] == (s == 0 && old(triggered[s]))
      ensures Now() == old(Now()).(taken := old(Now()).taken + Upto(triggered.Length))
      ensures forall at | old(Seen(at)) :: Seen(at)
      ensures old(Hooked()) ==> Hooked()
    {
      hide Accounted, Sigs, Upto;
      UptoNone();
      caught := false;
      var i := 1;
      assert old(Now()).taken + [] == old(Now()).taken;
      while i < triggered.Length
        invariant 1 <= i && (i <= triggered.Length || i == 1) && Books(flight) && old(log) <= log
        invariant caught <==> exists s | 1 <= s < i && s < triggered.Length :: old(triggered[s])
        invariant forall s | i <= s < triggered.Length :: triggered[s] == old(triggered[s])
        invariant forall s | 1 <= s < i && s < triggered.Length :: !triggered[s]
        invariant triggered.Length > 0 ==> triggered[0] == old(triggered[0])
        invariant Now() == old(Now()).(taken := old(Now()).taken + Upto(i))
        invariant forall at | old(Seen(at)) :: Seen(at)
        invariant old(Hooked()) ==> Hooked()
      {
        UptoStep(i);
        var one := Caught(i, flight);
        caught := caught || one;
        i := i + 1;
      }
    }

    method Perform(op: Op, ghost flight: set<Sig>)
      requires Shape() && Books(flight)
      modifies this`log, triggered, handler
      ensures Books(flight) && old(log) <= log
      ensures Now() == old(Now()).(taken := old(Now()).taken + Takes(op, triggered.Length),
                                   handler := Handled(old(Now()).handler, op))
      ensures forall s | 0 <= s < triggered.Length :: triggered[s] == (old(triggered[s]) && !TakesBack(op, s))
      ensures var n, h, t := triggered.Length, old(handler[..]), old(triggered[..]);
              match op
              case Catch(sig, lua) =>
                && handler[..] == (if sig < n then h[sig := lua] else h)
                && triggered[..] == (if sig < n then t[sig := false] else t)
              case Caught(sig) => handler[..] == h && triggered[..] == if sig < n then t[sig := false] else t
              case CaughtAny => handler[..] == h && forall s | 0 <= s < n :: triggered[s] == (s == 0 && t[s])
              case _ =>
                && handler[..] == (if op.sig < n then h[op.sig := false] else h)
                && triggered[..] == (if op.sig < n then t[op.sig := false] else t)
      ensures forall at | old(Seen(at)) :: Seen(at)
      ensures old(Hooked()) ==> Hooked()
      ensures forall s | s in old(Ready()) && !TakesBack(op, s) :: s in Ready()
    {
      hide Accounted, Sigs;
      match op
      case Catch(sig, lua) =>
        if sig < triggered.Length { Reset(sig, lua, flight); }
      case Caught(sig) =>
        if sig < triggered.Length { var _ := Caught(sig, flight); }
      case CaughtAny =>
        var _ := ResetAll(flight);
      case Ignore(sig) =>
        if sig < triggered.Length { Reset(sig, false, flight); }
      case Default(sig) =>
        if sig < triggered.Length { Reset(sig, false, flight); }
    }

    /** A call of Lua code, and then a point where signals arrive. */
    method PerformOne(op: Op, schedule: seq<seq<Sig>>) returns (rest: seq<seq<Sig>>)
      requires Shape() && Books({})
      modifies this`hook, this`m_signal, this`log, triggered, handler
      ensures Books({}) && old(log) <= log
      ensures Went(old(Now()), Now(), schedule, rest, [op], 0)
      ensures schedule == [] ==> hook == old(hook) && m_signal == old(m_signal)
      ensures forall at | old(Seen(at)) :: Seen(at)
      ensures old(Hooked()) ==> Hooked()
      ensures forall s | s in old(Ready()) && !TakesBack(op, s) :: s in Ready()
    {
      hide Accounted, Sigs, Went, Handled, Takes;
      Perform(op, {});
      OneCall(old(Now()), op, schedule);
      ghost var now := Now();
      rest := Interrupt(schedule, {});
      WentOn(old(Now()), now, Now(), schedule, schedule, rest, [op], [], 0, 0);
      assert [op] + [] == [op];
    }

    /** A Lua function runs: it makes its calls, and signals arrive before, between and after them. */
    method RunLua(calls: seq<Op>, schedule: seq<seq<Sig>>, ghost at: nat) returns (rest: seq<seq<Sig>>)
      requires Seen(at) && Books({})
      modifies this`hook, this`m_signal, this`log, triggered, handler
      ensures Seen(at) && Books({}) && old(log) <= log
      ensures Went(old(Now()), Now(), schedule, rest, calls, 0) && (schedule != [] ==> |rest| < |schedule|)
      ensures schedule == [] ==> hook == old(hook) && m_signal == old(m_signal)
      ensures forall s | s in old(Ready()) && Untaken(calls, s) :: s in Ready()
    {
      hide Accounted, Sigs, Went;
      rest := Interrupt(schedule, {});
      for k := 0 to |calls|
        invariant Seen(at) && Books({}) && old(log) <= log
        invariant Went(old(Now()), Now(), schedule, rest, calls[..k], 0)
        invariant forall s | s in old(Ready()) && Untaken(calls, s) :: s in Ready()
        invariant if schedule == [] then rest == [] && hook == old(hook) && m_signal == old(m_signal)
                  else |rest| < |schedule|
      {
        ghost var now, left := Now(), rest;
        assert calls[k] in calls;
        rest := PerformOne(calls[k], rest);
        RestShrinks(now, Now(), left, rest, [calls[k]], 0);
        WentOn(old(Now()), now, Now(), schedule, left, rest, calls[..k], [calls[k]], 0, 0);
        assert calls[..k + 1] == calls[..k] + [calls[k]];
      }
      assert calls[..|calls|] == calls;
    }

    /** The scan looks at one signal, and calls its Lua function if the flag is up and there is one. */
    method Look(i: nat, programs: seq<seq<Op>>, schedule: seq<seq<Sig>>)
      returns (later: seq<seq<Op>>, rest: seq<seq<Sig>>)
      requires i < triggered.Length && Seen(i) && Books({})
      modifies this`hook, this`m_signal, this`log, triggered, handler
      ensures Seen(i + 1) && Books({}) && old(log) <= log
      ensures Played(old(Now()), Now(), schedule, rest, programs, later) && (schedule != [] ==> |rest| < |schedule|)
      ensures schedule == [] ==> rest == [] && hook == old(hook) && m_signal == old(m_signal)
      ensures old(triggered[i] && handler[i]) ==> Dispatched(i) in log[|old(log)|..]
      ensures Now().called == old(Now()).called || Now().called == old(Now()).called + [i]
      ensures forall s | s in old(Ready()) && s != i && Untaken(Flat(programs), s) :: s in Ready()
    {
      hide Accounted, Sigs, Went, Played;
      later := programs;
      rest := Interrupt(schedule, {});
      SameCalls(old(Now()), Now(), schedule, rest, []);
      NonePlayed(old(Now()), Now(), schedule, rest, programs);
      if triggered[i] {
        rest := Again(old(Now()), programs, schedule, rest);
        if handler[i] {
          rest := Again(old(Now()), programs, schedule, rest);
          ghost var now, left, calls := Now(), rest, if later == [] then [] else later[0];
          UntakenHead(programs);
          rest := Serve(i, if later == [] then [] else later[0], rest);
          RestShrinks(now, Now(), left, rest, calls, 1);
          later := if later == [] then [] else later[1..];
          OnePlayed(now, Now(), left, rest, programs);
          PlayOn(old(Now()), now, Now(), schedule, left, rest, programs, programs, later);
        }
      }
    }

    /** Another point where signals arrive, with nothing done since the last. */
    method Again(ghost start: Account, ghost programs: seq<seq<Op>>, ghost schedule: seq<seq<Sig>>, left: seq<seq<Sig>>)
      returns (rest: seq<seq<Sig>>)
      requires Shape() && Books({}) && Played(start, Now(), schedule, left, programs, programs)
      modifies this`hook, this`m_signal, this`log, triggered
      ensures Books({}) && old(log) <= log && Played(start, Now(), schedule, rest, programs, programs)
      ensures |rest| <= |left| && Now().called == old(Now()).called
      ensures left == [] ==> rest == [] && hook == old(hook) && m_signal == old(m_signal) && log == old(log)
      ensures forall at | old(Seen(at)) :: Seen(at)
      ensures forall s | 0 <= s < triggered.Length && old(triggered[s]) :: triggered[s]
      ensures old(Ready()) <= Ready()
    {
      hide Accounted, Sigs, Went, Played;
      ghost var now := Now();
      rest := Interrupt(left, {});
      SameCalls(now, Now(), left, rest, []);
      NonePlayed(now, Now(), left, rest, programs);
      PlayOn(start, now, Now(), schedule, left, rest, programs, programs, programs);
    }

    /** The flag goes down and the Lua function is called. */
    method Serve(i: nat, calls: seq<Op>, schedule: seq<seq<Sig>>) returns (rest: seq<seq<Sig>>)
      requires i < triggered.Length && Seen(i) && Books({}) && triggered[i] && handler[i]
      modifies this`hook, this`m_signal, this`log, triggered, handler
      ensures Seen(i + 1) && Books({}) && old(log) <= log && Dispatched(i) in log[|old(log)|..]
      ensures Went(old(Now()), Now(), schedule, rest, calls, 1) && Now().called == old(Now()).called + [i]
      ensures schedule == [] ==> hook == old(hook) && m_signal == old(m_signal)
      ensures forall s | s in old(Ready()) && s != i && Untaken(calls, s) :: s in Ready()
    {
      hide Accounted, Sigs, Went;
      rest := Announce(i, schedule);
      ghost var now, left, told := Now(), rest, log;
      rest := RunLua(calls, rest, i + 1);
      SameCalls(now, Now(), left, rest, calls);
      WentOn(old(Now()), now, Now(), schedule, left, rest, [], calls, 1, 0);
      assert [] + calls == calls;
      assert log[|told| - 1] == told[|told| - 1];
    }

    /** The flag goes down and, signals arriving in between, the Lua function's turn comes. */
    method Announce(i: nat, schedule: seq<seq<Sig>>) returns (rest: seq<seq<Sig>>)
      requires i < triggered.Length && Seen(i) && Books({}) && triggered[i] && handler[i]
      modifies this`hook, this`m_signal, this`log, triggered
      ensures Seen(i + 1) && Books({}) && old(log) < log && log[|log| - 1] == Dispatched(i)
      ensures Went(old(Now()), Now(), schedule, rest, [], 1) && Now().called == old(Now()).called + [i]
      ensures schedule == [] ==> rest == [] && hook == old(hook) && m_signal == old(m_signal)
      ensures forall s | s in old(Ready()) && s != i :: s in Ready()
    {
      hide Accounted, Sigs, Went;
      LowerFlag(i);
      rest := Interrupt(schedule, {i});
      ghost var now := Now();
      SameCalls(old(Now()), now, schedule, rest, []);
      Dispatch(i);
      OneDispatch(now, i, rest);
      ghost var none: seq<Op> := [];
      WentOn(old(Now()), now, Now(), schedule, rest, rest, none, none, 0, 1);
      assert none + none == none;
    }

    method LowerFlag(i: nat)
      requires i < triggered.Length && triggered[i] && Seen(i) && Books({})
      modifies triggered
      ensures Seen(i + 1) && Books({i}) && triggered[..] == old(triggered[..])[i := false]
    {
      triggered[i] := false;
    }

    method Dispatch(i: nat)
      requires Shape() && i < triggered.Length && Books({i})
      modifies this`log
      ensures Books({}) && log == old(log) + [Dispatched(i)]
      ensures Now() == old(Now()).(called := old(Now()).called + [i])
    {
      hide Sigs;
      AccountedStep(log, triggered[..], {i}, Dispatched(i));
      SigsStep(log, Dispatched(i));
      assert {i} - {i} == {};
      log := log + [Dispatched(i)];
    }

    /** One scan of all signals. */
    method ScanAll(programs: seq<seq<Op>>, schedule: seq<seq<Sig>>) returns (later: seq<seq<Op>>, rest: seq<seq<Sig>>)
      requires Seen(0) && Books({})
      modifies this`hook, this`m_signal, this`log, triggered, handler
      ensures Seen(triggered.Length) && Books({}) && old(log) <= log
      ensures Played(old(Now()), Now(), schedule, rest, programs, later)
      ensures |rest| < |schedule| || (triggered.Length == 0 && rest == schedule) || (schedule == [] && rest == [])
      ensures schedule == [] ==> hook == old(hook) && m_signal == old(m_signal)
      ensures triggered.Length == 0 ==> m_signal == old(m_signal)
      ensures forall s | s in old(Ready()) && Untaken(Flat(programs), s) :: Dispatched(s) in log[|old(log)|..]
      ensures old(Now()).called <= Now().called && Rising(Now().called[|old(Now()).called|..], triggered.Length)
    {
      hide Accounted, Sigs, Went, Played, Rising;
      later, rest := programs, schedule;
      NoneRising(Now());
      WentNowhere(Now(), schedule);
      NonePlayed(Now(), Now(), schedule, schedule, programs);
      for i := 0 to triggered.Length
        invariant Seen(i) && Books({}) && old(log) <= log
        invariant Played(old(Now()), Now(), schedule, rest, programs, later)
        invariant old(Now()).called <= Now().called && Rising(Now().called[|old(Now()).called|..], i)
        invariant |rest| < |schedule| || (i == 0 && rest == schedule) || (schedule == [] && rest == [])
        invariant schedule == [] ==> hook == old(hook) && m_signal == old(m_signal)
        invariant i == 0 ==> m_signal == old(m_signal)
        invariant forall s | s in old(Ready()) && Untaken(Flat(programs), s) ::
                    if s < i then Dispatched(s) in log[|old(log)|..] else s in Ready()
      {
        ghost var now, left, between, told := Now(), rest, later, log;
        UntakenRest(old(Now()), now, schedule, rest, programs, later);
        later, rest := Look(i, later, rest);
        RisingOn(old(Now()), now, Now(), i);
        StillThere(|old(log)|, told, log);
        PlayOn(old(Now()), now, Now(), schedule, left, rest, programs, between, later);
      }
    }

    /** The hook function. `programs` says what each Lua function called does, in the order of the calls. However many
        signals arrive, the backend ends; it takes nothing back itself; when it ends, any flag that is up again has the
        hook installed again; and if none arrived since it began, every flag with a Lua handler is down, and the hook is
        gone. */
    method Backend(programs: seq<seq<Op>>, schedule: seq<seq<Sig>>)
      returns (later: seq<seq<Op>>, rest: seq<seq<Sig>>)
      requires hook && Hooked() && Books({})
      modifies this`hook, this`m_signal, this`log, triggered, handler
      ensures Hooked() && Books({}) && old(log) <= log
      ensures Played(old(Now()), Now(), schedule, rest, programs, later)
      ensures schedule == [] ==> !hook && forall s | 0 <= s < triggered.Length && handler[s] :: !triggered[s]
      ensures forall s | 0 <= s < triggered.Length && !old(handler[s]) && NoneCatches(Flat(programs), s) ::
                Dispatched(s) !in log[|old(log)|..]
      ensures forall s | s in old(Ready()) && Untaken(Flat(programs), s) :: Dispatched(s) in log[|old(log)|..]
    {
      hide Accounted, Sigs, Went, Played;
      hook := false;
      later := programs;
      rest := Interrupt(schedule, {});
      NonePlayed(old(Now()), Now(), schedule, rest, programs);
      while m_signal
        invariant Seen(triggered.Length) && Books({}) && old(log) <= log
        invariant Played(old(Now()), Now(), schedule, rest, programs, later)
        invariant |rest| <= |schedule| && (schedule == [] ==> !hook)
        invariant forall s | s in old(Ready()) && Untaken(Flat(programs), s) ::
                    Dispatched(s) in log[|old(log)|..] || (s in Ready() && m_signal && later == programs)
        decreases |rest|, m_signal
      {
        ghost var now, left, between, told := Now(), rest, later, log;
        later, rest := Sweep(later, rest);
        StillThere(|old(log)|, told, log);
        LaterThere(|old(log)|, |told|, log);
        PlayOn(old(Now()), now, Now(), schedule, left, rest, programs, between, later);
      }
      ghost var now, left, told := Now(), rest, log;
      rest := Interrupt(rest, {});
      NonePlayed(now, Now(), left, rest, later);
      PlayOn(old(Now()), now, Now(), schedule, left, rest, programs, later, later);
      StillThere(|old(log)|, told, log);
      PlayedSilent(old(log), log, old(Now()), Now(), schedule, rest, programs, later);
    }

    /** The body of the backend's outer loop: the work flag goes down, and all signals are scanned. */
    method Sweep(programs: seq<seq<Op>>, schedule: seq<seq<Sig>>) returns (later: seq<seq<Op>>, rest: seq<seq<Sig>>)
      requires Seen(triggered.Length) && m_signal && Books({})
      modifies this`hook, this`m_signal, this`log, triggered, handler
      ensures Seen(triggered.Length) && Books({}) && old(log) <= log
      ensures Played(old(Now()), Now(), schedule, rest, programs, later)
      ensures |rest| < |schedule| || (schedule == [] && rest == [] && !m_signal)
      ensures schedule == [] ==> hook == old(hook)
      ensures forall s | s in old(Ready()) && Untaken(Flat(programs), s) :: Dispatched(s) in log[|old(log)|..]
    {
      hide Accounted, Sigs, Went, Played;
      rest := Interrupt(schedule, {});
      NonePlayed(old(Now()), Now(), schedule, rest, programs);
      m_signal := false;
      ghost var now, left := Now(), rest;
      ghost var told := log;
      later, rest := ScanAll(programs, rest);
      PlayOn(old(Now()), now, Now(), schedule, left, rest, programs, programs, later);
      LaterThere(|old(log)|, |told|, log);
      now, left, told := Now(), rest, log;
      rest := Interrupt(rest, {});
      NonePlayed(now, Now(), left, rest, later);
      PlayOn(old(Now()), now, Now(), schedule, left, rest, programs, later, later);
      StillThere(|old(log)|, told, log);
    }

    /** A step of the main program, with signals arriving before it. */
    method TakeStep(step: Step, programs: seq<seq<Op>>, schedule: seq<seq<Sig>>)
      returns (later: seq<seq<Op>>, rest: seq<seq<Sig>>, ghost ops: seq<Op>)
      requires Hooked() && Books({})
      modifies this`hook, this`m_signal, this`log, triggered, handler
      ensures Hooked() && Books({}) && old(log) <= log
      ensures Ran(old(Now()), Now(), schedule, rest, programs, later, OpsOf([step]), ops)
      ensures |rest| < |schedule| || rest == []
      ensures step.Instruction? && |schedule| <= 1 ==> !hook
      ensures forall s | s in old(Ready()) && Untaken(OpsOf([step]) + Flat(programs), s) ::
                if step.Instruction? then Dispatched(s) in log[|old(log)|..] else s in Ready()
    {
      hide Accounted, Sigs, Went, Played, Ran, Handled, Takes;
      later, ops := programs, [];
      rest := Interrupt(schedule, {});
      ghost var now, left := Now(), rest;
      match step
      case Call(op) =>
        OneOp(op);
        Perform(op, {});
        ops := [op];
        OneCall(now, op, left);
        WentOn(old(Now()), now, Now(), schedule, left, rest, [], ops, 0, 0);
        assert [] + ops == ops;
        OpRan(old(Now()), Now(), schedule, rest, programs, op);
      case Instruction =>
        NonePlayed(old(Now()), now, schedule, left, programs);
        OneInstruction(programs);
        ghost var told := log;
        if hook {
          later, rest := Backend(later, rest);
          RestPlayed(now, Now(), left, rest, programs, later);
          PlayOn(old(Now()), now, Now(), schedule, left, rest, programs, programs, later);
          LaterThere(|old(log)|, |told|, log);
        }
        ops := Flat(programs[..|programs| - |later|]);
        PlayedRan(old(Now()), Now(), schedule, rest, programs, later);
    }

    /** The main program, step by step, with signals arriving before every step; `ops` are all the calls made, by it and
        by the Lua functions. No wakeup is lost: without the hook, each arrival of a signal that has a handler and that
        no call takes back has been followed by a dispatch. */
    method Run(steps: seq<Step>, programs: seq<seq<Op>>, schedule: seq<seq<Sig>>)
      returns (later: seq<seq<Op>>, rest: seq<seq<Sig>>, ghost ops: seq<Op>)
      requires Hooked() && Books({})
      modifies this`hook, this`m_signal, this`log, triggered, handler
      ensures Hooked() && Books({}) && old(log) <= log
      ensures Ran(old(Now()), Now(), schedule, rest, programs, later, OpsOf(steps), ops)
      ensures rest == [] || |rest| + |steps| <= |schedule|
      ensures steps != [] && steps[|steps| - 1].Instruction? && |schedule| <= |steps| ==> !hook
      ensures Instruction in steps ==>
                forall s | s in old(Ready()) && Untaken(OpsOf(steps) + Flat(programs), s) ::
                  Dispatched(s) in log[|old(log)|..]
      ensures forall s | 0 <= s < triggered.Length && !old(handler[s]) && NoneCatches(ops, s) ::
                Dispatched(s) !in log[|old(log)|..]
      ensures !hook ==> forall s | 0 <= s < triggered.Length && handler[s] :: Answered(log, s)
      ensures !hook ==>
                forall s | 0 <= s < triggered.Length && handler[s] && Untaken(OpsOf(steps) + Flat(programs), s) ::
                  ServedSince(log, |old(log)|, s)
      ensures forall s | 0 <= s < triggered.Length :: multiset(log)[Dispatched(s)] <= multiset(log)[Delivered(s)]
    {
      hide Accounted, Sigs, Went, Ran, OpsOf, Untaken, ServedSince, Answered, Flat, NoneCatches;
      later, rest, ops := programs, schedule, [];
      NothingRan(Now(), schedule, programs);
      for k := 0 to |steps|
        invariant Hooked() && Books({}) && old(log) <= log
        invariant Ran(old(Now()), Now(), schedule, rest, programs, later, OpsOf(steps[..k]), ops)
        invariant rest == [] || |rest| + k <= |schedule|
        invariant k > 0 && steps[k - 1].Instruction? && |schedule| <= k ==> !hook
        invariant forall s | s in old(Ready()) && Untaken(OpsOf(steps) + Flat(programs), s) ::
                    Dispatched(s) in log[|old(log)|..] || (s in Ready() && Instruction !in steps[..k])
      {
        ghost var now, left, between, more, told := Now(), rest, later, [], log;
        UntakenStep(old(Now()), now, schedule, rest, programs, later, steps, k, ops);
        later, rest, more := TakeStep(steps[k], later, rest);
        RanOn(old(Now()), now, Now(), schedule, left, rest, programs, between, later, OpsOf(steps[..k]), ops,
              OpsOf([steps[k]]), more);
        ops := ops + more;
        OpsStep(steps, k);
        StillThere(|old(log)|, told, log);
        LaterThere(|old(log)|, |told|, log);
        assert steps[..k + 1] == steps[..k] + [steps[k]];
      }
      assert steps[..|steps|] == steps;
      RanSilent(old(log), log, old(Now()), Now(), schedule, rest, programs, later, OpsOf(steps), ops);
      AllAccounted(log, triggered[..]);
      if !hook {
        forall s | 0 <= s < triggered.Length && handler[s] && Untaken(OpsOf(steps) + Flat(programs), s)
          ensures ServedSince(log, |old(log)|, s)
        {
          RanUntaken(old(log), log, old(Now()), Now(), schedule, rest, programs, later, OpsOf(steps), ops, s);
          NoneLost(old(log), log, s);
        }
      }
    }

    /** Once signals stop arriving, the next instruction answers every one that has a Lua handler, and with a
        dispatch if no Lua function takes it back. */
    method Settle(programs: seq<seq<Op>>) returns (later: seq<seq<Op>>)
      requires Hooked() && Books({})
      modifies this`hook, this`m_signal, this`log, triggered, handler
      ensures Hooked() && Books({}) && old(log) <= log && !hook
      ensures Played(old(Now()), Now(), [], [], programs, later)
      ensures forall s | 0 <= s < triggered.Length && !old(handler[s]) && NoneCatches(Flat(programs), s) ::
                Dispatched(s) !in log[|old(log)|..]
      ensures forall s | 0 <= s < triggered.Length && handler[s] :: Answered(log, s)
      ensures forall s | 0 <= s < triggered.Length && handler[s] && Untaken(Flat(programs), s) ::
                ServedSince(log, |old(log)|, s)
    {
      hide Accounted, Sigs, Went, Played, Untaken, ServedSince, Answered, Flat, NoneCatches;
      later := programs;
      ghost var rest: seq<seq<Sig>> := [];
      if hook {
        later, rest := Backend(programs, []);
        RestPlayed(old(Now()), Now(), [], rest, programs, later);
      } else {
        WentNowhere(Now(), []);
        NonePlayed(Now(), Now(), [], [], programs);
      }
      AllAccounted(log, triggered[..]);
      PlayedSilent(old(log), log, old(Now()), Now(), [], [], programs, later);
      forall s | 0 <= s < triggered.Length && handler[s] && Untaken(Flat(programs), s)
        ensures ServedSince(log, |old(log)|, s)
      {
        PlayedUntaken(old(log), log, old(Now()), Now(), [], rest, programs, later, s);
        NoneLost(old(log), log, s);
      }
    }
  }

  lemma AllAccounted(log: seq<Event>, triggered: seq<bool>)
    requires Accounted(log, triggered, {})
    ensures forall s | 0 <= s < |triggered| && !triggered[s] :: Answered(log, s)
    ensures forall s | 0 <= s < |triggered| :: multiset(log)[Dispatched(s)] <= multiset(log)[Delivered(s)]
  {
    forall s | 0 <= s < |triggered| && !triggered[s] ensures Answered(log, s) {
      NotOutstandingIsAnswered(log, s);
    }
  }
}
