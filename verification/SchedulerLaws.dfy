/** What every run of the event loop keeps about timers, told of the reference run: a timer goes off once, at the time
    and with the values of the call that set it, and never after it was cancelled. */
module SchedulerLaws {
  import opened Timers
  import opened Scheduler

  // ---------- The timers that are set are those the resumptions ask for ----------

  ghost function AskedOnce(call: Call, co: Co): seq<Setting> {
    match call
    case Timeout(clock, when, args) => if when != 0.0 then [Setting(co, clock + when, args)] else []
    case _ => []
  }

  /** The timers that the calls of one coroutine ask for. */
  ghost function Asked(calls: seq<Call>, co: Co): seq<Setting> {
    if calls == [] then [] else Asked(calls[..|calls| - 1], co) + AskedOnce(calls[|calls| - 1], co)
  }

  /** The timers asked for when the coroutines are resumed in turn and do what the script says. */
  ghost function AskedBy(cos: seq<Co>, script: seq<Resumption>): seq<Setting>
    requires |cos| == |script|
  {
    if cos == [] then [] else Asked(script[0].calls, cos[0]) + AskedBy(cos[1..], script[1..])
  }

  ghost function ResumedBy(e: Event): seq<Co> {
    if e.Resumed? then [e.job.co] else []
  }

  ghost function ResumedIn(log: seq<Event>): seq<Co> {
    if log == [] then [] else ResumedBy(log[0]) + ResumedIn(log[1..])
  }

  /** From one state of a run to another, as many coroutines have been resumed as resumptions have been used, and the
      timers set are those that these ask for, each in the name of the coroutine resumed. */
  ghost predicate Asks(s: State, t: State) {
    s.log <= t.log && |t.rest| <= |s.rest| &&
    var cos, n := ResumedIn(t.log[|s.log|..]), |s.rest| - |t.rest|;
    && t.rest == s.rest[n..] && |cos| == n
    && t.book.settings == s.book.settings + AskedBy(cos, s.rest[..n])
  }

  lemma {:induction false} NotedAsks(b: Book, calls: seq<Call>, co: Co)
    ensures NotedAll(b, calls, co).settings == b.settings + Asked(calls, co)
  {
    if calls != [] {
      NotedAsks(b, calls[..|calls| - 1], co);
    }
  }

  lemma {:induction false} ResumedConcat(a: seq<Event>, b: seq<Event>)
    ensures ResumedIn(a + b) == ResumedIn(a) + ResumedIn(b)
  {
    hide ResumedBy;
    if a == [] {
      assert a + b == b;
    } else {
      ResumedConcat(a[1..], b);
      assert (a + b)[1..] == a[1..] + b && (a + b)[0] == a[0];
    }
  }

  lemma {:induction false} AskedConcat(a: seq<Co>, b: seq<Co>, p: seq<Resumption>, q: seq<Resumption>)
    requires |a| == |p| && |b| == |q|
    ensures AskedBy(a + b, p + q) == AskedBy(a, p) + AskedBy(b, q)
  {
    if a == [] {
      assert a + b == b && p + q == q;
    } else {
      assert (a + b)[1..] == a[1..] + b && (p + q)[1..] == p[1..] + q;
      AskedConcat(a[1..], b, p[1..], q);
    }
  }

  lemma AsksOn(s: State, t: State, u: State)
    requires Asks(s, t) && Asks(t, u)
    ensures Asks(s, u)
  {
    hide AskedBy, ResumedIn;
    var a, b := t.log[|s.log|..], u.log[|t.log|..];
    assert u.log[|s.log|..] == a + b;
    ResumedConcat(a, b);
    var n, m := |s.rest| - |t.rest|, |t.rest| - |u.rest|;
    assert s.rest[..n + m] == s.rest[..n] + t.rest[..m];
    AskedConcat(ResumedIn(a), ResumedIn(b), s.rest[..n], t.rest[..m]);
  }

  lemma NothingAsked(s: State, t: State)
    requires t.log == s.log && t.rest == s.rest && t.book.settings == s.book.settings
    ensures Asks(s, t)
  {
  }

  lemma {:induction false} RunAsks(s: State)
    ensures Asks(s, RunOff(s))
    decreases |s.rest|, |s.run|
  {
    hide Asks, CalledAll, NotedAll, AfterResume;
    if s.run == [] || s.rest == [] {
      NothingAsked(s, s);
    } else if !Alive(s.status, s.run[0].co) {
      var t := State(s.run[1..], s.status, s.log + [Skipped(s.run[0])], s.book, s.rest);
      SkipAsks(s, t);
      RunAsks(t);
      AsksOn(s, t, RunOff(t));
    } else {
      var job, r := s.run[0], s.rest[0];
      var t := State(CalledAll(s.run[1..], |s.status|, r.calls), AfterResume(s.status, job.co, r),
                     s.log + [Resumed(job)] + (if r.ending.Yields? then [] else [Died(job.co)]),
                     NotedAll(s.book, r.calls, job.co), s.rest[1..]);
      ResumeAsks(s, t, job, r);
      RunAsks(t);
      AsksOn(s, t, RunOff(t));
    }
  }

  lemma SkipAsks(s: State, t: State)
    requires s.run != [] && t.log == s.log + [Skipped(s.run[0])] && t.rest == s.rest && t.book == s.book
    ensures Asks(s, t)
  {
  }

  lemma ResumeAsks(s: State, t: State, job: Job, r: Resumption)
    requires s.rest != [] && r == s.rest[0] && t.rest == s.rest[1..] && t.book == NotedAll(s.book, r.calls, job.co)
    requires t.log == s.log + [Resumed(job)] + if r.ending.Yields? then [] else [Died(job.co)]
    ensures Asks(s, t)
  {
    NotedAsks(s.book, r.calls, job.co);
    var more := t.log[|s.log|..];
    assert more == [Resumed(job)] + if r.ending.Yields? then [] else [Died(job.co)];
    assert ResumedIn(more[1..]) == [] by {
      assert |more| == 2 ==> more[1..][1..] == [];
    }
    assert ResumedIn(more) == [job.co];
    assert s.rest[..1] == [r] && [r][1..] == [] && [job.co][1..] == [];
  }

  lemma TurnAsks(s: State, turn: Turn, popped: seq<nat>)
    ensures Asks(s, TurnOff(s, turn, popped))
  {
    hide Asks, CalledAll, Woken, RunOff;
    var run, book := Woken(s.run, popped, s.book, s.status), s.book.Gone(popped);
    if turn.waited {
      var t := State(CalledAll(run, |s.status|, turn.handlers), s.status + Newborn(SpawnsIn(turn.handlers)), s.log,
                     book, s.rest);
      NothingAsked(s, t);
      RunAsks(t);
      AsksOn(s, t, RunOff(t));
    } else {
      NothingAsked(s, State(run, s.status, s.log, book, s.rest));
    }
  }

  /** Over any number of turns. */
  lemma {:induction false} TurnsAsk(s: State, turns: seq<Turn>, goings: seq<seq<nat>>)
    requires |turns| == |goings|
    ensures Asks(s, TurnsOff(s, turns, goings))
  {
    hide Asks, TurnOff;
    if turns == [] {
      NothingAsked(s, s);
    } else {
      var n := |turns| - 1;
      TurnsAsk(s, turns[..n], goings[..n]);
      var t := TurnsOff(s, turns[..n], goings[..n]);
      TurnAsks(t, turns[n], goings[n]);
      AsksOn(s, t, TurnOff(t, turns[n], goings[n]));
    }
  }

  // ---------- Where nothing is to be done ----------

  /** A run phase ends with the queue, or with the script. */
  lemma RunOffStops(s: State)
    requires s.run == [] || s.rest == []
    ensures RunOff(s) == s
  {
  }

  /** A turn in which waiting fails has its timers go off, and that is all; and one in which no timer goes off, no
      handler calls and nobody is queued changes nothing. */
  lemma IdleTurn(s: State, turn: Turn, popped: seq<nat>)
    ensures !turn.waited ==>
              TurnOff(s, turn, popped) == s.(run := Woken(s.run, popped, s.book, s.status), book := s.book.Gone(popped))
    ensures turn.waited && turn.handlers == [] && s.run == [] ==> TurnOff(s, turn, []) == s
  {
    hide RunOff;
    if turn.waited && turn.handlers == [] && s.run == [] {
      NothingGone(s.book);
      assert s.status + Newborn(0) == s.status;
      RunOffStops(s);
    }
  }

  // ---------- What becomes of a timer ----------

  /** What was set stays as it was set, what was cancelled stays cancelled, and what has left the heap stays out. */
  ghost predicate Onward(b: Book, b': Book) {
    && b.settings <= b'.settings && b.cancelled <= b'.cancelled
    && (forall k | k in b'.waiting :: k in b.waiting || |b.settings| <= k)
    && (b.Sound() ==> b'.Sound())
  }

  lemma OnwardOn(a: Book, b: Book, c: Book)
    requires Onward(a, b) && Onward(b, c)
    ensures Onward(a, c)
  {
  }

  lemma {:induction false} NotedOnward(b: Book, calls: seq<Call>, co: Co)
    ensures Onward(b, NotedAll(b, calls, co))
  {
    if calls != [] {
      NotedOnward(b, calls[..|calls| - 1], co);
    }
  }

  lemma {:induction false} RunOnward(s: State)
    ensures Onward(s.book, RunOff(s).book)
    decreases |s.rest|, |s.run|
  {
    hide Onward, CalledAll, NotedAll, AfterResume;
    if s.run == [] || s.rest == [] {
      assert Onward(s.book, NotedAll(s.book, [], 0)) by {
        NotedOnward(s.book, [], 0);
      }
      NoneNoted(s.book);
    } else if !Alive(s.status, s.run[0].co) {
      RunOnward(State(s.run[1..], s.status, s.log + [Skipped(s.run[0])], s.book, s.rest));
    } else {
      var job, r := s.run[0], s.rest[0];
      var t := State(CalledAll(s.run[1..], |s.status|, r.calls), AfterResume(s.status, job.co, r),
                     s.log + [Resumed(job)] + (if r.ending.Yields? then [] else [Died(job.co)]),
                     NotedAll(s.book, r.calls, job.co), s.rest[1..]);
      NotedOnward(s.book, r.calls, job.co);
      RunOnward(t);
      OnwardOn(s.book, t.book, RunOff(t).book);
    }
  }

  lemma NoneNoted(b: Book)
    ensures NotedAll(b, [], 0) == b
  {
  }

  lemma GoneOnward(b: Book, popped: seq<nat>)
    ensures Onward(b, b.Gone(popped))
  {
  }

  /** After a turn the timers that went off in it are out of the heap for good. */
  lemma TurnOnward(s: State, turn: Turn, popped: seq<nat>)
    requires s.book.Sound() && forall k | k in popped :: k in s.book.waiting
    ensures var b := TurnOff(s, turn, popped).book;
            Onward(s.book, b) && forall k | k in popped :: k !in b.waiting
  {
    hide CalledAll, Woken, RunOff;
    var run, book := Woken(s.run, popped, s.book, s.status), s.book.Gone(popped);
    GoneOnward(s.book, popped);
    if turn.waited {
      RunOnward(State(CalledAll(run, |s.status|, turn.handlers), s.status + Newborn(SpawnsIn(turn.handlers)), s.log,
                      book, s.rest));
    }
  }

  // The state a run has come to after j turns.
  ghost function After(s: State, turns: seq<Turn>, goings: seq<seq<nat>>, j: nat): State
    requires |turns| == |goings| && j <= |turns|
  {
    TurnsOff(s, turns[..j], goings[..j])
  }

  lemma AfterNext(s: State, turns: seq<Turn>, goings: seq<seq<nat>>, j: nat)
    requires |turns| == |goings| && j < |turns|
    ensures After(s, turns, goings, j + 1) == TurnOff(After(s, turns, goings, j), turns[j], goings[j])
  {
    hide TurnOff;
    assert turns[..j + 1][..j] == turns[..j] && goings[..j + 1][..j] == goings[..j];
  }

  /** From any turn to any later one. */
  lemma {:induction false} AfterOnward(s: State, turns: seq<Turn>, goings: seq<seq<nat>>, i: nat, j: nat)
    requires |turns| == |goings| && i <= j <= |turns| && GoesAll(s, turns, goings) && s.book.Sound()
    ensures Onward(After(s, turns, goings, i).book, After(s, turns, goings, j).book)
    ensures After(s, turns, goings, j).book.Sound()
    decreases j
  {
    hide TurnOff, TurnsOff, Onward;
    var b := After(s, turns, goings, j).book;
    if j == 0 {
      NoTurns(s);
      assert turns[..0] == [] && goings[..0] == [];
      GoneOnward(b, []);
      NothingGone(b);
    } else {
      AfterOnward(s, turns, goings, if i == j then i - 1 else i, j - 1);
      var t := After(s, turns, goings, j - 1);
      assert Goes(t.book, turns[j - 1].now, goings[j - 1]);
      TurnOnward(t, turns[j - 1], goings[j - 1]);
      AfterNext(s, turns, goings, j - 1);
      if i == j {
        StaysSound(t.book, b);
        GoneOnward(b, []);
        NothingGone(b);
      } else {
        StaysSound(t.book, b);
        OnwardOn(After(s, turns, goings, i).book, t.book, b);
      }
    }
  }

  lemma StaysSound(b: Book, b': Book)
    requires Onward(b, b') && b.Sound()
    ensures b'.Sound()
  {
  }

  lemma NothingGone(b: Book)
    ensures b.Gone([]) == b
  {
  }

  /** No timer goes off in two turns. */
  lemma GoesOffOnce(s: State, turns: seq<Turn>, goings: seq<seq<nat>>, i: nat, j: nat, k: nat)
    requires |turns| == |goings| && i < j < |turns| && GoesAll(s, turns, goings) && s.book.Sound()
    requires k in goings[i]
    ensures k !in goings[j]
  {
    hide TurnOff, TurnsOff;
    var t := After(s, turns, goings, i);
    AfterOnward(s, turns, goings, i, i);
    assert Goes(t.book, turns[i].now, goings[i]);
    TurnOnward(t, turns[i], goings[i]);
    AfterNext(s, turns, goings, i);
    AfterOnward(s, turns, goings, i + 1, j);
    assert Goes(After(s, turns, goings, j).book, turns[j].now, goings[j]);
  }

  /** The job is what a timer brings that was due, that was set so by a call, and that was in no turn cancelled yet. */
  ghost predicate Rings(s: State, turns: seq<Turn>, goings: seq<seq<nat>>, j: nat, job: Job, k: nat)
    requires |turns| == |goings| && j < |turns|
  {
    var e := TurnsOff(s, turns, goings).book.At(k);
    && k in goings[j] && k < |TurnsOff(s, turns, goings).book.settings|
    && job == Job(e.co, e.args) && e.awake <= turns[j].now
    && forall i | 0 <= i <= j :: k !in After(s, turns, goings, i).book.cancelled
  }

  ghost predicate IsRung(s: State, turns: seq<Turn>, goings: seq<seq<nat>>, j: nat, job: Job)
    requires |turns| == |goings| && j < |turns|
  {
    exists k :: Rings(s, turns, goings, j, job, k)
  }

  /** The jobs that the timers of a turn put on the run queue. */
  ghost function Rung(s: State, turns: seq<Turn>, goings: seq<seq<nat>>, j: nat): seq<Job>
    requires |turns| == |goings| && j < |turns|
  {
    var t := After(s, turns, goings, j);
    var w := Woken(t.run, goings[j], t.book, t.status);
    if t.run <= w then w[|t.run|..] else []
  }

  /** No coroutine is woken by a timer that was cancelled, or before the time, or with other values than those of the
      call that set the timer. */
  lemma WokenAsSet(s: State, turns: seq<Turn>, goings: seq<seq<nat>>, j: nat)
    requires |turns| == |goings| && j < |turns| && GoesAll(s, turns, goings) && s.book.Sound()
    ensures var t := After(s, turns, goings, j);
            Woken(t.run, goings[j], t.book, t.status) == t.run + Rung(s, turns, goings, j)
    ensures forall job | job in Rung(s, turns, goings, j) :: IsRung(s, turns, goings, j, job)
  {
    hide TurnOff, TurnsOff, Woken;
    var t, n := After(s, turns, goings, j), |turns|;
    WokenExactly(t.run, goings[j], t.book, t.status);
    AfterOnward(s, turns, goings, j, n);
    assert turns[..n] == turns && goings[..n] == goings;
    assert Goes(t.book, turns[j].now, goings[j]);
    var w, rung := Woken(t.run, goings[j], t.book, t.status), Rung(s, turns, goings, j);
    assert rung == w[|t.run|..];
    forall job | job in rung ensures IsRung(s, turns, goings, j, job) {
      var i :| 0 <= i < |rung| && rung[i] == job;
      assert job == w[|t.run| + i];
      assert Caused(w[|t.run| + i], goings[j], t.book, t.status);
      var k :| k in goings[j] && k !in t.book.cancelled
               && w[|t.run| + i] == Job(t.book.At(k).co, t.book.At(k).args);
      forall i' | 0 <= i' <= j ensures k !in After(s, turns, goings, i').book.cancelled {
        AfterOnward(s, turns, goings, i', j);
      }
      AfterOnward(s, turns, goings, j, j);
      assert Rings(s, turns, goings, j, job, k);
    }
  }

  /** A coroutine whose timers are all cancelled, and that sets no other, is woken by none. */
  lemma QuietIsNotWoken(s: State, turns: seq<Turn>, goings: seq<seq<nat>>, j: nat, co: Co)
    requires |turns| == |goings| && j < |turns| && GoesAll(s, turns, goings) && s.book.Sound()
    requires s.book.Quiet(co) && NoneSet(s.book, TurnsOff(s, turns, goings).book, co)
    ensures forall job | job in Rung(s, turns, goings, j) :: job.co != co
  {
    WokenAsSet(s, turns, goings, j);
    hide Rung, Rings, TurnsOff, TurnOff, GoesAll;
    forall job | job in Rung(s, turns, goings, j) ensures job.co != co {
      assert IsRung(s, turns, goings, j, job);
      var k :| Rings(s, turns, goings, j, job, k);
      QuietDoesNotRing(s, turns, goings, j, job, k, co);
    }
  }

  ghost predicate NoneSet(b: Book, b': Book, co: Co) {
    forall k | |b.settings| <= k < |b'.settings| :: b'.settings[k].co != co
  }

  lemma QuietDoesNotRing(s: State, turns: seq<Turn>, goings: seq<seq<nat>>, j: nat, job: Job, k: nat, co: Co)
    requires |turns| == |goings| && j < |turns| && GoesAll(s, turns, goings) && s.book.Sound()
    requires s.book.Quiet(co) && NoneSet(s.book, TurnsOff(s, turns, goings).book, co)
    requires Rings(s, turns, goings, j, job, k)
    ensures job.co != co
  {
    hide TurnOff, TurnsOff;
    var t, n, b := After(s, turns, goings, j), |turns|, TurnsOff(s, turns, goings).book;
    NoTurns(s);
    assert turns[..0] == [] && goings[..0] == [] && turns[..n] == turns && goings[..n] == goings;
    assert After(s, turns, goings, 0) == s && After(s, turns, goings, n).book == b;
    AfterOnward(s, turns, goings, 0, j);
    AfterOnward(s, turns, goings, 0, n);
    assert Goes(t.book, turns[j].now, goings[j]);
    assert k in t.book.waiting && k !in s.book.cancelled;
    if k in s.book.waiting {
      assert b.At(k) == s.book.At(k);
    } else {
      assert b.settings[k].co != co;
    }
  }
}
