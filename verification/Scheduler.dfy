/** The coroutine scheduler: the live-coroutine count, the de-duplicated run queue, the timeout queue
    and the event loop that ties them together. What coroutines and event handlers do is a script, so
    that a statement about every script is a statement about every run. */
module Scheduler {
  import opened Wrappers
  import opened Timers

  datatype Status = Suspended | Running | Dead

  datatype Job = Job(co: Co, args: Args)

  // A call into the scheduler by a coroutine or by an event handler.
  datatype Call =
    | Spawn(args: Args)
    | Schedule(co: Co, args: Args)
    | Timeout(clock: real, when: real, args: Args)

  datatype Ending = Yields | Returns | Fails

  // What a coroutine does from one resume to its next yield, or to its end.
  datatype Resumption = Resumption(calls: seq<Call>, ending: Ending)

  // One turn of the event loop: the clock, what the caller's done_f answers, whether waiting for
  // events succeeds, and the calls the event handlers make. Handlers set no timeouts: they run on the
  // main thread, which is not a spawned coroutine.
  datatype Turn = Turn(now: real, stop: bool, waited: bool, handlers: seq<Call>) {
    predicate Legal() {
      forall c | c in handlers :: !c.Timeout?
    }
  }

  datatype Event = Resumed(job: Job) | Skipped(job: Job) | Died(co: Co)

  /** The run queue after a call, of `count` coroutines before it. */
  ghost function Called(run: seq<Job>, count: nat, call: Call): seq<Job> {
    match call
    case Spawn(args) => run + [Job(count, args)]
    case Schedule(co, args) => if co < count && !InQueue(run, co) then run + [Job(co, args)] else run
    case Timeout(_, _, _) => run
  }

  ghost function CalledAll(run: seq<Job>, count: nat, calls: seq<Call>): seq<Job> {
    if calls == [] then run
    else
      var front := calls[..|calls| - 1];
      Called(CalledAll(run, count, front), count + SpawnsIn(front), calls[|calls| - 1])
  }

  /** The timers after a call of the coroutine `running`. */
  ghost function Noted(book: Book, call: Call, running: Co): Book {
    match call
    case Timeout(clock, when, args) =>
      if when == 0.0 then book.Cancel(running) else book.Set(running, clock + when, args)
    case _ => book
  }

  ghost function NotedAll(book: Book, calls: seq<Call>, running: Co): Book {
    if calls == [] then book
    else Noted(NotedAll(book, calls[..|calls| - 1], running), calls[|calls| - 1], running)
  }

  /** Calls take effect one after the other. */
  lemma {:induction false} CalledInTurn(run: seq<Job>, count: nat, a: seq<Call>, b: seq<Call>)
    ensures CalledAll(run, count, a + b) == CalledAll(CalledAll(run, count, a), count + SpawnsIn(a), b)
    ensures SpawnsIn(a + b) == SpawnsIn(a) + SpawnsIn(b)
  {
    hide Called, Made;
    if b == [] {
      assert a + b == a;
    } else {
      var front := b[..|b| - 1];
      assert (a + b)[..|a + b| - 1] == a + front;
      CalledInTurn(run, count, a, front);
    }
  }

  lemma {:induction false} NotedInTurn(book: Book, a: seq<Call>, b: seq<Call>, running: Co)
    ensures NotedAll(book, a + b, running) == NotedAll(NotedAll(book, a, running), b, running)
  {
    hide Noted;
    if b == [] {
      assert a + b == a;
    } else {
      assert (a + b)[..|a + b| - 1] == a + b[..|b| - 1];
      NotedInTurn(book, a, b[..|b| - 1], running);
    }
  }

  /** How many coroutines, and how many timers, the calls make. */
  ghost function SpawnsIn(calls: seq<Call>): nat {
    if calls == [] then 0 else SpawnsIn(calls[..|calls| - 1]) + Made(calls[|calls| - 1])
  }

  ghost function TimersIn(calls: seq<Call>): nat {
    if calls == [] then 0 else TimersIn(calls[..|calls| - 1]) + Timed(calls[|calls| - 1])
  }

  ghost function Made(call: Call): nat {
    if call.Spawn? then 1 else 0
  }

  ghost function Timed(call: Call): nat {
    if call.Timeout? && call.when != 0.0 then 1 else 0
  }

  ghost function SpawnedBy(script: seq<Resumption>): nat {
    if script == [] then 0 else SpawnedBy(script[..|script| - 1]) + SpawnsIn(script[|script| - 1].calls)
  }

  ghost function TimedBy(script: seq<Resumption>): nat {
    if script == [] then 0 else TimedBy(script[..|script| - 1]) + TimersIn(script[|script| - 1].calls)
  }

  /** How many coroutines the event handlers make; none in a turn whose wait fails. */
  ghost function SpawnedIn(turns: seq<Turn>): nat {
    if turns == [] then 0
    else
      var t := turns[|turns| - 1];
      SpawnedIn(turns[..|turns| - 1]) + if t.waited then SpawnsIn(t.handlers) else 0
  }

  ghost function ResumesIn(log: seq<Event>): nat {
    if log == [] then 0 else ResumesIn(log[..|log| - 1]) + if log[|log| - 1].Resumed? then 1 else 0
  }

  // How many coroutines there are, how many timers wait, how many were ever set, and how often a coroutine was resumed.
  datatype Tally = Tally(coroutines: nat, timers: nat, settings: nat, resumes: nat)

  /** So many timers have been set since, all of them by the one coroutine. */
  ghost predicate SetSince(before: seq<Setting>, after: seq<Setting>, running: Option<Co>, n: nat) {
    && before <= after && |after| == |before| + n
    && match running
       case None => n == 0
       case Some(co) => forall k | |before| <= k < |after| :: after[k].co == co
  }

  /** Of the script all but `rest` has been used, and each resumption in it has made what it makes. */
  ghost predicate Used(before: Tally, after: Tally, script: seq<Resumption>, rest: seq<Resumption>) {
    |rest| <= |script| &&
    var n := |script| - |rest|;
    && rest == script[n..]
    && after == Tally(before.coroutines + SpawnedBy(script[..n]), before.timers + TimedBy(script[..n]),
                      before.settings + TimedBy(script[..n]), before.resumes + n)
  }

  ghost function AfterOne(t: Tally, r: Resumption): Tally {
    Tally(t.coroutines + SpawnsIn(r.calls), t.timers + TimersIn(r.calls), t.settings + TimersIn(r.calls), t.resumes + 1)
  }

  lemma NoneUsed(before: Tally, script: seq<Resumption>)
    ensures Used(before, before, script, script)
  {
  }

  lemma UseOne(before: Tally, after: Tally, script: seq<Resumption>, rest: seq<Resumption>)
    requires Used(before, after, script, rest) && rest != []
    ensures Used(before, AfterOne(after, rest[0]), script, rest[1..])
  {
    hide SpawnsIn, TimersIn;
    var n := |script| - |rest|;
    assert script[..n + 1][..n] == script[..n];
  }

  /** The turns taken, and all of the script but `rest`, account for the coroutines there are and for every resume. */
  ghost predicate Spent(before: Tally, after: Tally, taken: seq<Turn>, script: seq<Resumption>, rest: seq<Resumption>) {
    |rest| <= |script| &&
    var n := |script| - |rest|;
    && rest == script[n..]
    && after.coroutines == before.coroutines + SpawnedIn(taken) + SpawnedBy(script[..n])
    && after.settings == before.settings + TimedBy(script[..n])
    && after.resumes == before.resumes + n
  }

  lemma {:induction false} SpawnedByConcat(a: seq<Resumption>, b: seq<Resumption>)
    ensures SpawnedBy(a + b) == SpawnedBy(a) + SpawnedBy(b) && TimedBy(a + b) == TimedBy(a) + TimedBy(b)
  {
    hide SpawnsIn, TimersIn;
    if b == [] {
      assert a + b == a;
    } else {
      var front := b[..|b| - 1];
      assert (a + b)[..|a + b| - 1] == a + front;
      SpawnedByConcat(a, front);
    }
  }

  /** What one turn adds: the event handlers' coroutines and those of the resumptions it uses. */
  ghost predicate Turned(before: Tally, after: Tally, turn: Turn, script: seq<Resumption>, rest: seq<Resumption>) {
    |rest| <= |script| &&
    var n := |script| - |rest|;
    && rest == script[n..] && (!turn.waited ==> n == 0)
    && after.coroutines
       == before.coroutines + (if turn.waited then SpawnsIn(turn.handlers) else 0) + SpawnedBy(script[..n])
    && after.settings == before.settings + TimedBy(script[..n])
    && after.resumes == before.resumes + n
  }

  lemma TurnedBy(before: Tally, handled: Tally, after: Tally, turn: Turn, script: seq<Resumption>,
                 rest: seq<Resumption>)
    requires turn.waited && Used(handled, after, script, rest)
    requires handled.coroutines == before.coroutines + SpawnsIn(turn.handlers) && handled.resumes == before.resumes
    requires handled.settings == before.settings
    ensures Turned(before, after, turn, script, rest)
  {
    hide SpawnsIn, TimersIn, SpawnedBy, TimedBy;
  }

  lemma NothingSpent(before: Tally, script: seq<Resumption>)
    ensures Spent(before, before, [], script, script)
  {
  }

  lemma SpentIs(before: Tally, after: Tally, taken: seq<Turn>, script: seq<Resumption>, rest: seq<Resumption>)
    requires Spent(before, after, taken, script, rest)
    ensures |rest| <= |script| && rest == script[|script| - |rest|..]
    ensures after.coroutines == before.coroutines + SpawnedIn(taken) + SpawnedBy(script[..|script| - |rest|])
    ensures after.settings == before.settings + TimedBy(script[..|script| - |rest|])
    ensures after.resumes == before.resumes + |script| - |rest|
  {
  }

  lemma SpentMore(before: Tally, now: Tally, after: Tally, taken: seq<Turn>, turn: Turn, script: seq<Resumption>,
                  left: seq<Resumption>, rest: seq<Resumption>)
    requires Spent(before, now, taken, script, left) && Turned(now, after, turn, left, rest)
    ensures Spent(before, after, taken + [turn], script, rest)
  {
    hide SpawnsIn, TimersIn, SpawnedBy, TimedBy;
    var n, m := |script| - |left|, |script| - |rest|;
    assert script[..m] == script[..n] + left[..m - n];
    SpawnedByConcat(script[..n], left[..m - n]);
    assert (taken + [turn])[..|taken|] == taken;
  }

  lemma ResumesStep(log: seq<Event>, e: Event)
    ensures ResumesIn(log + [e]) == ResumesIn(log) + if e.Resumed? then 1 else 0
  {
    assert (log + [e])[..|log|] == log;
  }

  /** The jobs taken off the run queue, in order. */
  ghost function Served(log: seq<Event>): seq<Job> {
    if log == [] then []
    else
      var e := log[|log| - 1];
      Served(log[..|log| - 1]) + (if e.Died? then [] else [e.job])
  }

  ghost predicate NoneResumedAfterDeath(log: seq<Event>) {
    forall i, j | 0 <= i < j < |log| && log[i].Died? && log[j].Resumed? :: log[i].co != log[j].job.co
  }

  ghost predicate OnlyDeadSkipped(log: seq<Event>) {
    forall k | 0 <= k < |log| && log[k].Skipped? :: Died(log[k].job.co) in log[..k]
  }

  ghost predicate NoneQueuedTwice(run: seq<Job>) {
    forall i, j | 0 <= i < j < |run| :: run[i].co != run[j].co
  }

  ghost function Living(status: seq<Status>): set<Co> {
    set c | 0 <= c < |status| && status[c] != Dead
  }

  /** Every coroutine keeps its status, and the new ones have yet to run. */
  ghost predicate Grown(status: seq<Status>, status': seq<Status>) {
    status <= status' && forall c | |status| <= c < |status'| :: status'[c] == Suspended
  }

  ghost predicate AllBorn(settings: seq<Setting>, count: nat) {
    forall s | s in settings :: s.co < count
  }

  ghost predicate InQueue(run: seq<Job>, co: Co) {
    exists j | j in run :: j.co == co
  }

  predicate Alive(status: seq<Status>, co: Co) {
    co < |status| && status[co] != Dead
  }

  /** Of the timers there were, those in the heap still are and no other, and those that were cancelled stay so. */
  ghost predicate Later(b: Book, b': Book) {
    && b.settings <= b'.settings && b.cancelled <= b'.cancelled && b'.cancelled - b.cancelled <= b'.waiting
    && forall k :: k in b'.waiting <==> k in b.waiting || |b.settings| <= k < |b'.settings|
  }

  lemma LaterOn(a: Book, b: Book, c: Book)
    requires Later(a, b) && Later(b, c)
    ensures Later(a, c)
  {
  }

  lemma NotedIs(b: Book, clock: real, when: real, args: Args, co: Co)
    requires b.Sound()
    ensures var b' := Noted(b, Timeout(clock, when, args), co);
            && Later(b, b') && SetSince(b.settings, b'.settings, Some(co), Timed(Timeout(clock, when, args)))
            && if when == 0.0 then b' == b.(cancelled := b.cancelled + if co in b.index then {b.index[co]} else {})
               else
                 b' == Entries(b.settings + [Setting(co, clock + when, args)], b.waiting + {|b.settings|},
                               b.index[co := |b.settings|], b.cancelled,
                               b.careless + if b.Holding(co) then {co} else {})
  {
  }

  lemma NothingNoted(b: Book, running: Option<Co>, call: Call)
    ensures Later(b, b) && (Timed(call) == 0 ==> SetSince(b.settings, b.settings, running, Timed(call)))
  {
  }

  lemma HeapGrew(h: seq<Timer>, h': seq<Timer>, e: Timer)
    requires multiset(h') == multiset(h) + multiset{e}
    ensures |h'| == |h| + 1 && forall x | x in h' :: x in h || x == e
  {
    assert |multiset(h')| == |multiset(h)| + 1;
    assert forall x :: x in h' <==> x in multiset(h');
    assert forall x :: x in h <==> x in multiset(h);
  }

  lemma NoneLater(b: Book)
    ensures Later(b, b)
  {
  }

  /** The run queue after the given timers have gone off in turn. */
  ghost function Woken(run: seq<Job>, popped: seq<nat>, book: Book, status: seq<Status>): seq<Job> {
    if popped == [] then run
    else
      var k := popped[|popped| - 1];
      var e, r := book.At(k), Woken(run, popped[..|popped| - 1], book, status);
      if k !in book.cancelled && Alive(status, e.co) && !InQueue(r, e.co) then r + [Job(e.co, e.args)] else r
  }

  ghost predicate Caused(job: Job, popped: seq<nat>, book: Book, status: seq<Status>) {
    exists k | k in popped ::
      k !in book.cancelled && Alive(status, book.At(k).co) && job == Job(book.At(k).co, book.At(k).args)
  }

  /** Every armed timer of a live coroutine gets its coroutine into the run queue, what was there stays in
      front, and every job added is the job of an armed timer of a live coroutine. */
  lemma {:induction false} WokenExactly(run: seq<Job>, popped: seq<nat>, book: Book, status: seq<Status>)
    ensures var w := Woken(run, popped, book, status);
            && run <= w
            && (forall k | k in popped && k !in book.cancelled && Alive(status, book.At(k).co) ::
                  InQueue(w, book.At(k).co))
            && (forall i | |run| <= i < |w| :: Caused(w[i], popped, book, status))
  {
    if popped != [] {
      var front, last := popped[..|popped| - 1], popped[|popped| - 1];
      WokenExactly(run, front, book, status);
      var r, w, e := Woken(run, front, book, status), Woken(run, popped, book, status), book.At(last);
      assert popped == front + [last];
      assert r <= w;
      forall k | k in popped && k !in book.cancelled && Alive(status, book.At(k).co) ensures InQueue(w, book.At(k).co) {
        if k in front {
          var j :| j in r && j.co == book.At(k).co;
          assert j in w;
        } else if !InQueue(r, e.co) {
          assert w[|r|] == Job(e.co, e.args);
        }
      }
      forall i | |run| <= i < |w| ensures Caused(w[i], popped, book, status) {
        if i < |r| {
          assert Caused(r[i], front, book, status);
        } else {
          assert last in popped;
        }
      }
    }
  }

  /** What is left of the heap once `popped` have come off it. */
  ghost function Left(book: Book, popped: seq<nat>): set<nat> {
    book.Gone(popped).waiting
  }

  /** The timers come off the heap once each and in the order of wake times. */
  ghost predicate InWakeOrder(book: Book, popped: seq<nat>) {
    && (forall k | k in popped :: k in book.waiting)
    && (forall i, j | 0 <= i < j < |popped| :: popped[i] != popped[j])
    && (forall i, j | 0 <= i < j < |popped| :: book.At(popped[i]).awake <= book.At(popped[j]).awake)
    && (forall k, l | k in popped && l in Left(book, popped) :: book.At(k).awake <= book.At(l).awake)
  }

  ghost predicate IsLeast(book: Book, some: set<nat>, k: nat) {
    k in some && forall l | l in some :: book.At(k).awake <= book.At(l).awake
  }

  /** The timers that go off: in the order of wake times, the armed ones only when they are due; they stop at an armed
      one that is due later, and with it all that are left. */
  ghost predicate Goes(book: Book, now: real, popped: seq<nat>) {
    && InWakeOrder(book, popped)
    && (forall k | k in popped && k !in book.cancelled :: book.At(k).awake <= now)
    && (forall k | k in Left(book, popped) :: now < book.At(k).awake)
    && (Left(book, popped) != {} ==> exists k :: IsLeast(book, Left(book, popped), k) && k !in book.cancelled)
  }

  ghost predicate IsLeastWait(book: Book, some: set<nat>, now: real, wait: real) {
    exists k :: IsLeast(book, some, k) && wait == book.At(k).awake - now
  }

  /** What the last armed timer leaves of the wait: -1 if there was none. */
  ghost predicate IsWaitOver(book: Book, popped: seq<nat>, now: real, wait: real) {
    if forall k | k in popped :: k in book.cancelled then wait == -1.0
    else exists i | 0 <= i < |popped| ::
      && popped[i] !in book.cancelled && wait == book.At(popped[i]).awake - now
      && forall j | i < j < |popped| :: popped[j] in book.cancelled
  }

  /** Of live coroutines those with an armed timer that is due are in the queue. */
  ghost predicate DueIn(book: Book, now: real, status: seq<Status>, due: seq<Job>) {
    forall k | book.Armed(k) && book.At(k).awake <= now && Alive(status, book.At(k).co) :: InQueue(due, book.At(k).co)
  }

  lemma NoneGone(book: Book, now: real, run: seq<Job>, status: seq<Status>)
    ensures book.Gone([]) == book && InWakeOrder(book, []) && Woken(run, [], book, status) == run
    ensures IsWaitOver(book, [], now, -1.0)
  {
  }

  lemma GoneOneMore(book: Book, popped: seq<nat>, k: nat)
    ensures book.Gone(popped).Gone([k]) == book.Gone(popped + [k])
    ensures Left(book, popped + [k]) == Left(book, popped) - {k}
  {
    var some: set<nat>, all: set<nat> := set l | l in popped, set l | l in popped + [k];
    assert all == some + {k};
    var few: set<Co>, more: set<Co> := set l | l in popped :: book.At(l).co, set l | l in popped + [k] :: book.At(l).co;
    assert more == few + {book.At(k).co} by {
      assert forall l :: l in popped + [k] <==> l in popped || l == k;
    }
    assert book.index - more == book.index - few - {book.At(k).co};
  }

  lemma WakeOrderStep(book: Book, popped: seq<nat>, k: nat)
    requires InWakeOrder(book, popped) && IsLeast(book, Left(book, popped), k)
    ensures InWakeOrder(book, popped + [k])
  {
    GoneOneMore(book, popped, k);
    var popped' := popped + [k];
    forall i, j | 0 <= i < j < |popped'|
      ensures popped'[i] != popped'[j] && book.At(popped'[i]).awake <= book.At(popped'[j]).awake
    {
      assert popped'[i] in popped;
    }
  }

  lemma WaitOverStep(book: Book, popped: seq<nat>, k: nat, now: real, wait: real)
    requires IsWaitOver(book, popped, now, wait)
    ensures IsWaitOver(book, popped + [k], now, if k in book.cancelled then wait else book.At(k).awake - now)
  {
    var popped' := popped + [k];
    assert popped'[|popped|] == k;
    if k in book.cancelled && exists l | l in popped :: l !in book.cancelled {
      var i :| 0 <= i < |popped| && popped[i] !in book.cancelled && wait == book.At(popped[i]).awake - now
               && forall j | i < j < |popped| :: popped[j] in book.cancelled;
      assert popped'[i] == popped[i] && popped[i] in popped';
    }
  }

  lemma ExpiredAreQueued(run: seq<Job>, popped: seq<nat>, book: Book, status: seq<Status>, now: real)
    requires Goes(book, now, popped)
    ensures var w := Woken(run, popped, book, status);
            DueIn(book, now, status, w) && forall i | |run| <= i < |w| :: Caused(w[i], popped, book, status)
  {
    WokenExactly(run, popped, book, status);
    forall k | book.Armed(k) && book.At(k).awake <= now ensures k in popped {
      assert k in Left(book, popped) || k in popped;
    }
  }

  lemma StillWaiting(b: Book, now: real, popped: seq<nat>, b': Book)
    requires Goes(b, now, popped) && Later(b.Gone(popped), b')
    ensures forall k | b.Armed(k) && now < b.At(k).awake :: k in b'.waiting
    ensures b.settings <= b'.settings && b.cancelled <= b'.cancelled
  {
    forall k | b.Armed(k) && now < b.At(k).awake ensures k in b'.waiting {
      assert k in Left(b, popped);
    }
  }

  // ---------- What a run comes to ----------

  // The run queue, the coroutines, what the run phases did, the timers, and what is left of the script.
  datatype State = State(run: seq<Job>, status: seq<Status>, log: seq<Event>, book: Book, rest: seq<Resumption>)

  ghost function Newborn(n: nat): seq<Status> {
    seq(n, _ => Suspended)
  }

  ghost function AfterResume(status: seq<Status>, co: Co, r: Resumption): seq<Status>
    requires co < |status|
  {
    status[co := if r.ending.Yields? then Suspended else Dead] + Newborn(SpawnsIn(r.calls))
  }

  /** The run phase: job after job is taken off the queue; the dead are passed over, and any other coroutine is resumed,
      makes the calls of its resumption, and yields or dies. */
  ghost function RunOff(s: State): State
    decreases |s.rest|, |s.run|
  {
    if s.run == [] || s.rest == [] then s
    else
      var job, r := s.run[0], s.rest[0];
      if !Alive(s.status, job.co) then RunOff(State(s.run[1..], s.status, s.log + [Skipped(job)], s.book, s.rest))
      else
        RunOff(State(CalledAll(s.run[1..], |s.status|, r.calls), AfterResume(s.status, job.co, r),
                     s.log + [Resumed(job)] + (if r.ending.Yields? then [] else [Died(job.co)]),
                     NotedAll(s.book, r.calls, job.co), s.rest[1..]))
  }

  /** A turn: the timers in `popped` go off, and unless waiting fails, the handlers make their calls and the queue is
      run off. */
  ghost function TurnOff(s: State, turn: Turn, popped: seq<nat>): State {
    var run, book := Woken(s.run, popped, s.book, s.status), s.book.Gone(popped);
    if turn.waited
    then
      RunOff(State(CalledAll(run, |s.status|, turn.handlers), s.status + Newborn(SpawnsIn(turn.handlers)), s.log,
                   book, s.rest))
    else State(run, s.status, s.log, book, s.rest)
  }

  ghost function TurnsOff(s: State, turns: seq<Turn>, goings: seq<seq<nat>>): State
    requires |turns| == |goings|
  {
    if turns == [] then s
    else
      var n := |turns| - 1;
      TurnOff(TurnsOff(s, turns[..n], goings[..n]), turns[n], goings[n])
  }

  /** In each turn the timers go off that should. */
  ghost predicate GoesAll(s: State, turns: seq<Turn>, goings: seq<seq<nat>>)
    requires |turns| == |goings|
  {
    forall j | 0 <= j < |turns| :: Goes(TurnsOff(s, turns[..j], goings[..j]).book, turns[j].now, goings[j])
  }

  ghost predicate SomeAlive(status: seq<Status>) {
    exists c | 0 <= c < |status| :: status[c] != Dead
  }

  /** Each turn is taken because the loop is not to return before it: nobody says so, and to a client someone is still
      alive. */
  ghost predicate GoesOn(client: bool, s: State, turns: seq<Turn>, goings: seq<seq<nat>>)
    requires |turns| == |goings|
  {
    forall j | 0 <= j < |turns| ::
      !turns[j].stop && (client ==> SomeAlive(TurnsOff(s, turns[..j], goings[..j]).status))
  }

  lemma NoTurns(s: State)
    ensures TurnsOff(s, [], []) == s && GoesAll(s, [], []) && forall client :: GoesOn(client, s, [], [])
  {
  }

  lemma GoesOnOnce(client: bool, s: State, turns: seq<Turn>, goings: seq<seq<nat>>, turn: Turn, popped: seq<nat>)
    requires |turns| == |goings| && GoesOn(client, s, turns, goings)
    requires !turn.stop && (client ==> SomeAlive(TurnsOff(s, turns, goings).status))
    ensures GoesOn(client, s, turns + [turn], goings + [popped])
  {
    hide TurnsOff, SomeAlive;
    var n, turns', goings' := |turns|, turns + [turn], goings + [popped];
    assert forall j | 0 <= j <= n :: turns'[..j] == turns[..j] && goings'[..j] == goings[..j];
    assert turns[..n] == turns && goings[..n] == goings;
  }

  lemma TurnsOffOneMore(s: State, turns: seq<Turn>, goings: seq<seq<nat>>, turn: Turn, popped: seq<nat>)
    requires |turns| == |goings| && GoesAll(s, turns, goings)
    requires Goes(TurnsOff(s, turns, goings).book, turn.now, popped)
    ensures TurnsOff(s, turns + [turn], goings + [popped]) == TurnOff(TurnsOff(s, turns, goings), turn, popped)
    ensures GoesAll(s, turns + [turn], goings + [popped])
  {
    hide TurnOff, Goes;
    var n, turns', goings' := |turns|, turns + [turn], goings + [popped];
    assert forall j | 0 <= j <= n :: turns'[..j] == turns[..j] && goings'[..j] == goings[..j];
    assert turns[..n] == turns && goings[..n] == goings;
  }

  /** The turns taken, and the state they lead to. */
  ghost predicate Ran(client: bool, s: State, turns: seq<Turn>, goings: seq<seq<nat>>, t: State)
    requires |turns| == |goings|
  {
    t == TurnsOff(s, turns, goings) && GoesAll(s, turns, goings) && GoesOn(client, s, turns, goings)
  }

  lemma NoneRan(client: bool, s: State)
    ensures Ran(client, s, [], [], s)
  {
    NoTurns(s);
  }

  lemma RanOneMore(client: bool, s: State, turns: seq<Turn>, goings: seq<seq<nat>>, t: State, turn: Turn,
                   popped: seq<nat>, u: State)
    requires |turns| == |goings| && Ran(client, s, turns, goings, t) && u == TurnOff(t, turn, popped)
    requires Goes(t.book, turn.now, popped) && !turn.stop && (client ==> SomeAlive(t.status))
    ensures Ran(client, s, turns + [turn], goings + [popped], u)
  {
    hide TurnOff, TurnsOff, Goes, GoesAll, GoesOn, SomeAlive;
    GoesOnOnce(client, s, turns, goings, turn, popped);
    TurnsOffOneMore(s, turns, goings, turn, popped);
  }

  lemma RanIs(client: bool, s: State, turns: seq<Turn>, goings: seq<seq<nat>>, t: State)
    requires |turns| == |goings| && Ran(client, s, turns, goings, t)
    ensures t == TurnsOff(s, turns, goings) && GoesAll(s, turns, goings) && GoesOn(client, s, turns, goings)
  {
  }

  lemma GrownIs(status: seq<Status>, status': seq<Status>, n: nat)
    requires Grown(status, status') && |status'| == |status| + n
    ensures status' == status + Newborn(n)
  {
  }

  lemma ResumedIs(status: seq<Status>, status': seq<Status>, co: Co, r: Resumption)
    requires co < |status| && |status'| == |status| + SpawnsIn(r.calls)
    requires status'[co] == if r.ending.Yields? then Suspended else Dead
    requires forall c | 0 <= c < |status| && c != co :: status'[c] == status[c]
    requires forall c | |status| <= c < |status'| :: status'[c] == Suspended
    ensures status' == AfterResume(status, co, r)
  {
    hide SpawnsIn;
  }

  // ---------- Who gets a turn ----------

  /** The coroutine is in the queue, or has come out of it since. */
  ghost predicate Attended(run: seq<Job>, log: seq<Event>, from: nat, co: Co) {
    InQueue(run, co) || exists k | from <= k < |log| :: !log[k].Died? && log[k].job.co == co
  }

  /** The coroutine is in the queue, or has been resumed since. */
  ghost predicate Heard(run: seq<Job>, log: seq<Event>, from: nat, co: Co) {
    InQueue(run, co) || exists k | from <= k < |log| :: log[k].Resumed? && log[k].job.co == co
  }

  lemma {:induction false} ServedConcat(a: seq<Event>, b: seq<Event>)
    ensures Served(a + b) == Served(a) + Served(b)
  {
    if b == [] {
      assert a + b == a;
    } else {
      assert (a + b)[..|a + b| - 1] == a + b[..|b| - 1];
      ServedConcat(a, b[..|b| - 1]);
    }
  }

  lemma {:induction false} ServedFrom(log: seq<Event>, job: Job)
    requires job in Served(log)
    ensures exists k | 0 <= k < |log| :: !log[k].Died? && log[k].job == job
  {
    var e := log[|log| - 1];
    if e.Died? || e.job != job {
      ServedFrom(log[..|log| - 1], job);
    }
  }

  lemma Cancel(x: seq<Job>, a: seq<Job>, b: seq<Job>, c: seq<Job>)
    requires x + a <= x + b + c
    ensures forall j | j in a :: j in b || j in c
  {
    forall j | j in a ensures j in b || j in c {
      var k :| 0 <= k < |a| && a[k] == j;
      assert (x + a)[|x| + k] == j && (x + b + c)[|x| + k] == (b + c)[k];
    }
  }

  /** Service being first in, first out, who was in the queue still is or has come out of it. */
  lemma QueuedIsAttended(log: seq<Event>, run: seq<Job>, log': seq<Event>, run': seq<Job>, co: Co)
    requires log <= log' && Served(log) + run <= Served(log') + run' && InQueue(run, co)
    ensures Attended(run', log', |log|, co)
  {
    hide Served;
    var more := log'[|log|..];
    assert log' == log + more;
    ServedConcat(log, more);
    Cancel(Served(log), run, Served(more), run');
    var j :| j in run && j.co == co;
    if j in Served(more) {
      ServedIsAttended(log, more, run', j);
    }
  }

  lemma ServedIsAttended(log: seq<Event>, more: seq<Event>, run: seq<Job>, job: Job)
    requires job in Served(more)
    ensures Attended(run, log + more, |log|, job.co)
  {
    ServedFrom(more, job);
    hide Served;
    var k :| 0 <= k < |more| && !more[k].Died? && more[k].job == job;
    assert (log + more)[|log| + k] == more[k];
  }

  lemma DueAreAttended(book: Book, now: real, status: seq<Status>, due: seq<Job>, log: seq<Event>, run': seq<Job>,
                       log': seq<Event>)
    requires log <= log' && Served(log) + due <= Served(log') + run'
    requires DueIn(book, now, status, due)
    ensures forall k | book.Armed(k) && book.At(k).awake <= now && Alive(status, book.At(k).co) ::
              Attended(run', log', |log|, book.At(k).co)
  {
    hide Served, InQueue, Attended;
    forall k | book.Armed(k) && book.At(k).awake <= now && Alive(status, book.At(k).co)
      ensures Attended(run', log', |log|, book.At(k).co)
    {
      QueuedIsAttended(log, due, log', run', book.At(k).co);
    }
  }

  lemma SkippedIsDead(log: seq<Event>, status: seq<Status>, k: nat)
    requires LogSound(log, status) && k < |log|
    ensures log[k].Skipped? ==> !Alive(status, log[k].job.co)
  {
  }

  lemma AttendedIsHeard(run: seq<Job>, log: seq<Event>, from: nat, status: seq<Status>, co: Co)
    requires Attended(run, log, from, co) && LogSound(log, status) && Alive(status, co)
    ensures Heard(run, log, from, co)
  {
    hide LogSound;
    if !InQueue(run, co) {
      var k :| from <= k < |log| && !log[k].Died? && log[k].job.co == co;
      SkippedIsDead(log, status, k);
    }
  }

  lemma HeardOn(log: seq<Event>, run: seq<Job>, log': seq<Event>, run': seq<Job>, from: nat, status': seq<Status>,
                co: Co)
    requires log <= log' && Served(log) + run <= Served(log') + run' && LogSound(log', status') && Alive(status', co)
    requires Heard(run, log, from, co) && from <= |log|
    ensures Heard(run', log', from, co)
  {
    hide Served, LogSound;
    if InQueue(run, co) {
      QueuedIsAttended(log, run, log', run', co);
      AttendedIsHeard(run', log', |log|, status', co);
    } else {
      var k :| from <= k < |log| && log[k].Resumed? && log[k].job.co == co;
      assert log'[k] == log[k];
    }
  }

  lemma AliveBefore(log: seq<Event>, status: seq<Status>, log': seq<Event>, status': seq<Status>, co: Co)
    requires LogSound(log, status) && LogSound(log', status') && log <= log' && co < |status| <= |status'|
    requires Alive(status', co)
    ensures Alive(status, co)
  {
  }

  /** Of the timers in `on` that were never cancelled, those of live coroutines are in the heap and were due in no turn
      taken, or else their coroutines are in the queue or have been resumed. */
  ghost predicate Told(on: set<nat>, s: State, from: nat, past: seq<Turn>) {
    forall k | k in on && k !in s.book.cancelled && Alive(s.status, s.book.At(k).co) ::
      (k in s.book.waiting && forall t | t in past :: t.now < s.book.At(k).awake) ||
      Heard(s.run, s.log, from, s.book.At(k).co)
  }

  lemma NothingTold(s: State)
    ensures Told(s.book.waiting, s, |s.log|, [])
  {
  }

  lemma TellOn(on: set<nat>, s: State, s': State, from: nat, past: seq<Turn>, turn: Turn)
    requires Told(on, s, from, past) && from <= |s.log| && AllBorn(s.book.settings, |s.status|)
    requires forall k | k in on :: k < |s.book.settings|
    requires LogSound(s.log, s.status) && LogSound(s'.log, s'.status) && s.log <= s'.log && |s.status| <= |s'.status|
    requires Served(s.log) + s.run <= Served(s'.log) + s'.run
    requires s.book.settings <= s'.book.settings && s.book.cancelled <= s'.book.cancelled
    requires forall k | s.book.Armed(k) && turn.now < s.book.At(k).awake :: k in s'.book.waiting
    requires forall k | s.book.Armed(k) && s.book.At(k).awake <= turn.now && Alive(s.status, s.book.At(k).co) ::
               Attended(s'.run, s'.log, |s.log|, s.book.At(k).co)
    ensures Told(on, s', from, past + [turn])
  {
    hide Served, LogSound;
    forall k | k in on && k !in s'.book.cancelled && Alive(s'.status, s'.book.At(k).co)
      ensures (k in s'.book.waiting && forall t | t in past + [turn] :: t.now < s'.book.At(k).awake) ||
              Heard(s'.run, s'.log, from, s'.book.At(k).co)
    {
      var e := s.book.At(k);
      assert s'.book.At(k) == e && e in s.book.settings;
      AliveBefore(s.log, s.status, s'.log, s'.status, e.co);
      if Heard(s.run, s.log, from, e.co) {
        HeardOn(s.log, s.run, s'.log, s'.run, from, s'.status, e.co);
      } else if e.awake <= turn.now {
        AttendedIsHeard(s'.run, s'.log, |s.log|, s'.status, e.co);
      }
    }
  }

  /** No coroutine is queued twice, and the flags agree with the queue. */
  ghost predicate QueueSound(run: seq<Job>, queued: set<Co>, count: nat) {
    NoneQueuedTwice(run) && (forall co :: co in queued <==> InQueue(run, co)) && forall j | j in run :: j.co < count
  }

  lemma QueueTail(run: seq<Job>, queued: set<Co>, count: nat)
    requires QueueSound(run, queued, count) && run != []
    ensures run[0].co < count && QueueSound(run[1..], queued - {run[0].co}, count)
  {
    assert run == [run[0]] + run[1..];
    assert run[0] in run;
    forall i, j | 0 <= i < j < |run[1..]| ensures run[1..][i].co != run[1..][j].co {
      assert run[i + 1].co != run[j + 1].co;
    }
    forall j | j in run[1..] ensures j in run && j.co != run[0].co {
      var k :| 0 <= k < |run[1..]| && run[1..][k] == j;
      assert run[0].co != run[k + 1].co;
    }
  }

  /** The log says who is dead, and nobody in it is resumed after its death. */
  ghost predicate LogSound(log: seq<Event>, status: seq<Status>) {
    && NoneResumedAfterDeath(log) && OnlyDeadSkipped(log)
    && (forall c | 0 <= c < |status| :: status[c] == Dead <==> Died(c) in log)
    && (forall e | e in log && e.Died? :: e.co < |status|)
  }

  lemma LogTaken(log: seq<Event>, status: seq<Status>, job: Job)
    requires LogSound(log, status) && job.co < |status|
    ensures var l := log + [if status[job.co] == Dead then Skipped(job) else Resumed(job)];
            LogSound(l, status) && Served(l) == Served(log) + [job]
  {
    var l := log + [if status[job.co] == Dead then Skipped(job) else Resumed(job)];
    assert l[..|log|] == log;
    forall i, j | 0 <= i < j < |l| && l[i].Died? && l[j].Resumed? ensures l[i].co != l[j].job.co {
      assert l[i] in log;
    }
  }

  lemma LogKept(log: seq<Event>, status: seq<Status>, co: Co, s: Status)
    requires LogSound(log, status) && co < |status| && status[co] != Dead && s != Dead
    ensures LogSound(log, status[co := s]) && Living(status[co := s]) == Living(status)
  {
  }

  lemma LogBorn(log: seq<Event>, status: seq<Status>)
    requires LogSound(log, status)
    ensures LogSound(log, status + [Suspended]) && Living(status + [Suspended]) == Living(status) + {|status|}
    ensures |status| !in Living(status)
  {
  }

  lemma LogDied(log: seq<Event>, status: seq<Status>, co: Co)
    requires LogSound(log, status) && co < |status| && status[co] != Dead
    ensures var l := log + [Died(co)];
            LogSound(l, status[co := Dead]) && Served(l) == Served(log)
    ensures co in Living(status) && Living(status[co := Dead]) == Living(status) - {co}
  {
    var l := log + [Died(co)];
    assert l[..|log|] == log;
  }

  class Scheduler {
    const timers: TimerQueue
    var refs: set<Co>            // REFQUEUE
    var n: int                   // REFQUEUE._n
    var run: seq<Job>            // RUNQUEUE, its array part
    var queued: set<Co>          // RUNQUEUE, its flags
    var status: seq<Status>      // of every coroutine ever spawned
    ghost var accepted: seq<Job> // every job ever put on the run queue
    ghost var log: seq<Event>    // what the run phase did, in order

    ghost predicate Valid()
      reads this, timers, timers.heap
    {
      Consistent() && n == |refs| && refs == Living(status)
    }

    /** Everything Valid() says but for the live-coroutine count. */
    ghost predicate Consistent()
      reads this, timers, timers.heap
    {
      && timers.Valid()
      && AllBorn(timers.settings, |status|)
      && QueueSound(run, queued, |status|)
      && LogSound(log, status)
      && accepted == Served(log) + run
    }

    ghost function Count(): Tally
      reads this, timers
    {
      Tally(|status|, |timers.heap|, |timers.settings|, ResumesIn(log))
    }

    ghost function Now(rest: seq<Resumption>): State
      reads this, timers
    {
      State(run, status, log, timers.Book(), rest)
    }

    ghost function Timers(): set<object>
      reads this, timers
    {
      set e: Timer | e in timers.heap :: e as object
    }

    constructor ()
      ensures Valid() && fresh(timers) && timers.Exact() && timers.heap == [] && status == [] && run == [] && log == []
    {
      timers := new TimerQueue();
      refs, n, run, queued, status := {}, 0, [], {}, [];
      accepted, log := [], [];
    }

    method Schedule(co: Co, args: Args)
      requires Consistent() && co < |status|
      modifies this`run, this`queued, this`accepted
      ensures Consistent()
      ensures run == if old(InQueue(run, co)) then old(run) else old(run) + [Job(co, args)]
      ensures old(accepted) <= accepted
    {
      hide LogSound, Served, TimerQueue.Valid, AllBorn;
      if co !in queued {
        run := run + [Job(co, args)];
        queued := queued + {co};
        accepted := accepted + [Job(co, args)];
        assert run[|run| - 1] == Job(co, args);
        assert forall j :: j in run <==> j in old(run) || j == Job(co, args);
      }
    }

    method Spawn(args: Args) returns (co: Co)
      requires Valid()
      modifies this`refs, this`n, this`run, this`queued, this`status, this`accepted
      ensures Valid()
      ensures co == old(|status|) && status == old(status) + [Suspended]
      ensures run == old(run) + [Job(co, args)] && old(accepted) <= accepted
    {
      hide LogSound, Served, Living, HeapOrdered, NoRepeats, Indexed;
      LogBorn(log, status);
      co := |status|;
      status := status + [Suspended];
      assert forall j | j in run :: j.co != co;
      refs := refs + {co};
      n := n + 1;
      Schedule(co, args);
    }

    method Timeout(clock: real, when: real, args: Args, running: Co)
      requires Valid() && running < |status|
      modifies timers, if running in timers.index then {timers.index[running]} else {}
      ensures Valid()
      ensures when == 0.0 ==>
                unchanged(timers`heap) && unchanged(timers`index) && unchanged(timers`settings) &&
                ((forall e | e in timers.heap && e.co == running :: !e.trigger) <==>
                 old(forall e | e in timers.heap && e.co == running && e.trigger ::
                       running in timers.index && timers.index[running] == e))
      ensures when == 0.0 && running !in timers.careless ==>
                forall e | e in timers.heap && e.co == running :: !e.trigger
      ensures when != 0.0 ==>
                running in timers.index && fresh(timers.index[running]) &&
                multiset(timers.heap) == old(multiset(timers.heap)) + multiset{timers.index[running]} &&
                timers.index[running].awake == clock + when && timers.index[running].args == args
      ensures timers.Book() == Noted(old(timers.Book()), Call.Timeout(clock, when, args), running)
      ensures when == 0.0 && running !in timers.careless ==> timers.Book().Quiet(running)
      ensures |timers.heap| == old(|timers.heap|) + if when == 0.0 then 0 else 1
      ensures fresh(Timers() - old(Timers()))
    {
      hide QueueSound, LogSound, Served, Living, HeapOrdered, NoRepeats, Indexed, Entered, Traced, TimerQueue.Book;
      if when == 0.0 {
        timers.Cancel(running);
      } else {
        ghost var h := timers.heap;
        var e := timers.Insert(clock, when, running, args);
        HeapGrew(h, timers.heap, e);
      }
    }

    method PerformOne(call: Call, running: Option<Co>)
      requires Valid()
      requires running.Some? ==> running.value < |status|
      requires running.None? ==> !call.Timeout?
      modifies this`refs, this`n, this`run, this`queued, this`status, this`accepted, timers, Timers()
      ensures Valid()
      ensures Grown(old(status), status) && old(run) <= run && old(accepted) <= accepted
      ensures fresh(Timers() - old(Timers()))
      ensures run == Called(old(run), old(|status|), call) && |status| == old(|status|) + Made(call)
      ensures match call
              case Spawn(args) => run == old(run) + [Job(old(|status|), args)]
              case Schedule(co, args) =>
                run == if co < old(|status|) && !old(InQueue(run, co)) then old(run) + [Job(co, args)] else old(run)
              case Timeout(_, _, _) => run == old(run)
      ensures timers.Book() == if running.Some? then Noted(old(timers.Book()), call, running.value)
                               else old(timers.Book())
      ensures var b := old(timers.Book());
              match call
              case Timeout(clock, when, args) =>
                var co := running.value;
                if when == 0.0
                then timers.Book() == b.(cancelled := b.cancelled + if co in b.index then {b.index[co]} else {})
                else
                  timers.Book() == Entries(b.settings + [Setting(co, clock + when, args)],
                                           b.waiting + {|b.settings|}, b.index[co := |b.settings|], b.cancelled,
                                           b.careless + if b.Holding(co) then {co} else {})
              case _ => timers.Book() == b
      ensures |timers.heap| == old(|timers.heap|) + Timed(call)
      ensures SetSince(old(timers.Book()).settings, timers.Book().settings, running, Timed(call))
      ensures Later(old(timers.Book()), timers.Book())
      ensures call.Timeout? && call.when == 0.0 && running.value !in timers.careless ==>
                timers.Book().Quiet(running.value)
    {
      hide QueueSound, LogSound, Served, Living, TimerQueue.Valid, TimerQueue.Book, Later, AllBorn, SetSince;
      hide Book.Sound, Book.Set, Book.Cancel, Book.At;
      timers.BookIsSound();
      ghost var b := timers.Book();
      NothingNoted(b, running, call);
      match call
      case Spawn(args) =>
        var _ := Spawn(args);
      case Schedule(co, args) =>
        if co < |status| {  // only a coroutine that exists can be named
          Schedule(co, args);
        }
      case Timeout(clock, when, args) =>
        if running.value in timers.index {
          timers.IndexedInHeap(running.value);
        }
        Timeout(clock, when, args, running.value);
        NotedIs(b, clock, when, args, running.value);
    }

    /** The calls one coroutine makes between two yields, or the calls of the event handlers. */
    method Perform(calls: seq<Call>, running: Option<Co>)
      requires Valid()
      requires running.Some? ==> running.value < |status|
      requires running.None? ==> forall c | c in calls :: !c.Timeout?
      modifies this`refs, this`n, this`run, this`queued, this`status, this`accepted, timers, Timers()
      ensures Valid()
      ensures Grown(old(status), status) && old(run) <= run && old(accepted) <= accepted
      ensures fresh(Timers() - old(Timers()))
      ensures run == CalledAll(old(run), old(|status|), calls) && |status| == old(|status|) + SpawnsIn(calls)
      ensures timers.Book() == if running.Some? then NotedAll(old(timers.Book()), calls, running.value)
                               else old(timers.Book())
      ensures |timers.heap| == old(|timers.heap|) + TimersIn(calls)
      ensures SetSince(old(timers.Book()).settings, timers.Book().settings, running, TimersIn(calls))
      ensures Later(old(timers.Book()), timers.Book())
      ensures status == old(status) + Newborn(SpawnsIn(calls))
    {
      hide Called, Noted, Made, Timed, Served, Living, QueueSound, LogSound, TimerQueue.Valid, AllBorn, Later;
      NoneLater(timers.Book());
      for k := 0 to |calls|
        invariant Valid()
        invariant Grown(old(status), status) && old(run) <= run && old(accepted) <= accepted
        invariant fresh(Timers() - old(Timers()))
        invariant run == CalledAll(old(run), old(|status|), calls[..k])
        invariant |status| == old(|status|) + SpawnsIn(calls[..k])
        invariant timers.Book() == if running.Some? then NotedAll(old(timers.Book()), calls[..k], running.value)
                                   else old(timers.Book())
        invariant |timers.heap| == old(|timers.heap|) + TimersIn(calls[..k])
        invariant SetSince(old(timers.Book()).settings, timers.Book().settings, running, TimersIn(calls[..k]))
        invariant Later(old(timers.Book()), timers.Book())
      {
        assert calls[k] in calls && calls[..k + 1][..k] == calls[..k];
        ghost var b := timers.Book();
        PerformOne(calls[k], running);
        LaterOn(old(timers.Book()), b, timers.Book());
      }
      assert calls[..|calls|] == calls;
      GrownIs(old(status), status, SpawnsIn(calls));
    }

    /** A timer that has gone off, met at the top of the heap. */
    method Fire(e: Timer, ghost before: seq<Job>, ghost popped: seq<nat>, ghost book: Book)
      requires Consistent() && e.co < |status| && run == Woken(before, popped, book, status)
      requires book.At(e.stamp) == Setting(e.co, e.awake, e.args) && (e.trigger <==> e.stamp !in book.cancelled)
      modifies this`run, this`queued, this`accepted
      ensures Consistent() && run == Woken(before, popped + [e.stamp], book, status) && old(accepted) <= accepted
      ensures run == if e.trigger && status[e.co] != Dead && !old(InQueue(run, e.co))
                     then old(run) + [Job(e.co, e.args)] else old(run)
    {
      assert (popped + [e.stamp])[..|popped|] == popped;
      if e.trigger {
        if status[e.co] != Dead {
          Schedule(e.co, e.args);
        }
      }
    }

    /** One round of the timer phase: the timer at the top goes off, unless cancelled, and leaves the heap. */
    method Expire(ghost before: seq<Job>, ghost popped: seq<nat>, ghost book: Book) returns (ghost k: nat)
      requires Valid() && timers.heap != []
      requires timers.Book() == book.Gone(popped) && InWakeOrder(book, popped)
      requires run == Woken(before, popped, book, status)
      modifies this`run, this`queued, this`accepted, timers
      ensures Valid() && |timers.heap| == old(|timers.heap|) - 1 && old(accepted) <= accepted
      ensures Timers() <= old(Timers())
      ensures k == old(timers.heap[0]).stamp && k < |book.settings|
      ensures timers.Book() == book.Gone(popped + [k]) && InWakeOrder(book, popped + [k])
      ensures run == Woken(before, popped + [k], book, status)
    {
      hide QueueSound, LogSound, Served, Living, HeapOrdered, NoRepeats, Indexed, Entered, Traced, Woken, InWakeOrder;
      ghost var h := timers.heap;
      var e := timers.heap[0];
      k := e.stamp;
      timers.RootIsFirst();
      assert timers.settings[k] in timers.settings;
      Fire(e, before, popped, book);
      var _ := timers.Remove();
      GoneOneMore(book, popped, k);
      WakeOrderStep(book, popped, k);
      HeapShrank(h, timers.heap, e);
    }

    method TimerPhase(now: real) returns (wait: real, ghost popped: seq<nat>)
      requires Valid()
      modifies this`run, this`queued, this`accepted, timers
      ensures Valid() && Timers() <= old(Timers())
      ensures timers.Book() == old(timers.Book()).Gone(popped) && Goes(old(timers.Book()), now, popped)
      ensures timers.settings == old(timers.settings)
      ensures forall e | e in timers.heap :: now < e.awake
      ensures run == Woken(old(run), popped, old(timers.Book()), status) && old(accepted) <= accepted
      ensures DueIn(old(timers.Book()), now, status, run)
      ensures forall i | old(|run|) <= i < |run| :: Caused(run[i], popped, old(timers.Book()), status)
      ensures run != [] ==> wait == 0.0
      ensures run == [] && timers.heap != [] ==>
                0.0 < wait && IsLeastWait(old(timers.Book()), timers.Book().waiting, now, wait)
      ensures run == [] && timers.heap == [] ==> IsWaitOver(old(timers.Book()), popped, now, wait)
    {
      hide QueueSound, LogSound, HeapOrdered, NoRepeats, Indexed, Entered, Traced, AllBorn, Served, Living, Woken,
           IsWaitOver, InWakeOrder;
      wait := -1.0;
      popped := [];
      ghost var book := timers.Book();
      NoneGone(book, now, run, status);
      while |timers.heap| > 0
        invariant Valid() && Timers() <= old(Timers())
        invariant timers.Book() == book.Gone(popped) && InWakeOrder(book, popped)
        invariant forall k | k in popped && k !in book.cancelled :: book.At(k).awake <= now
        invariant run == Woken(old(run), popped, book, status) && old(accepted) <= accepted
        invariant wait <= 0.0 && IsWaitOver(book, popped, now, wait)
        decreases |timers.heap|
      {
        var e := timers.heap[0];
        timers.RootIsFirst();
        WaitOverStep(book, popped, e.stamp, now, wait);
        if e.trigger {
          wait := e.awake - now;
          if wait > 0.0 {
            break;
          }
        }
        ghost var k := Expire(old(run), popped, book);
        popped := popped + [k];
      }
      timers.HeapIsWaiting();
      ExpiredAreQueued(old(run), popped, book, status, now);
      if |run| > 0 {
        wait := 0.0;
      }
    }

    /** No coroutine is running, as seen from the event loop. */
    ghost predicate AllParked()
      reads this
    {
      forall c | 0 <= c < |status| :: status[c] != Running
    }

    /** Takes the first job off the run queue, and records what becomes of it. */
    method Dequeue() returns (job: Job)
      requires Valid() && run != []
      modifies this`run, this`queued, this`log
      ensures Valid() && job == old(run[0]) && run == old(run[1..]) && job.co < |status|
      ensures log == old(log) + [if status[job.co] == Dead then Skipped(job) else Resumed(job)]
      ensures ResumesIn(log) == old(ResumesIn(log)) + if status[job.co] == Dead then 0 else 1
    {
      hide QueueSound, LogSound, TimerQueue.Valid, AllBorn, Living, Served, ResumesIn;
      job := run[0];
      QueueTail(run, queued, |status|);
      LogTaken(log, status, job);
      ResumesStep(log, if status[job.co] == Dead then Skipped(job) else Resumed(job));
      assert run == [job] + run[1..];
      run := run[1..];
      queued := queued - {job.co};
      log := log + [if status[job.co] == Dead then Skipped(job) else Resumed(job)];
    }

    /** Control is back from a coroutine: it is suspended again, or it is dead and counted out. */
    method Park(co: Co, ending: Ending)
      requires Valid() && co < |status| && status[co] == Running
      modifies this`refs, this`n, this`status, this`log
      ensures Valid()
      ensures status == old(status)[co := if ending.Yields? then Suspended else Dead]
      ensures log == old(log) + if ending.Yields? then [] else [Died(co)]
    {
      hide QueueSound, LogSound, TimerQueue.Valid, AllBorn, Served, Living;
      LogDied(log, status, co);
      LogKept(log, status, co, Suspended);
      status := status[co := if ending.Yields? then Suspended else Dead];
      if status[co] == Dead {
        assert n > 0;
        refs := refs - {co};
        n := n - 1;
        log := log + [Died(co)];
      }
    }

    /** Resumes a suspended coroutine, which makes its calls and then yields or ends. */
    method Resume(co: Co, r: Resumption)
      requires Valid() && AllParked() && co < |status| && status[co] == Suspended
      modifies this`refs, this`n, this`run, this`queued, this`status, this`accepted, this`log, timers, Timers()
      ensures Valid() && AllParked() && fresh(Timers() - old(Timers()))
      ensures old(run) <= run && old(accepted) <= accepted
      ensures |status| >= old(|status|) && status[co] == if r.ending.Yields? then Suspended else Dead
      ensures forall c | 0 <= c < old(|status|) && c != co :: status[c] == old(status[c])
      ensures forall c | old(|status|) <= c < |status| :: status[c] == Suspended
      ensures log == old(log) + (if r.ending.Yields? then [] else [Died(co)]) && ResumesIn(log) == old(ResumesIn(log))
      ensures run == CalledAll(old(run), old(|status|), r.calls) && |status| == old(|status|) + SpawnsIn(r.calls)
      ensures timers.Book() == NotedAll(old(timers.Book()), r.calls, co) && Later(old(timers.Book()), timers.Book())
      ensures |timers.heap| == old(|timers.heap|) + TimersIn(r.calls)
      ensures SetSince(old(timers.settings), timers.settings, Some(co), TimersIn(r.calls))
      ensures status == AfterResume(old(status), co, r)
    {
      hide QueueSound, LogSound, TimerQueue.Valid, AllBorn, Served, Living, CalledAll, NotedAll, SpawnsIn, TimersIn,
           Later;
      LogKept(log, status, co, Running);
      status := status[co := Running];
      Perform(r.calls, Some(co));
      ghost var before := log;
      ResumesStep(before, Died(co));
      Park(co, r.ending);
      assert log == if r.ending.Yields? then before else before + [Died(co)];
      ResumedIs(old(status), status, co, r);
    }

    /** Takes one job off the run queue, and resumes its coroutine unless that is dead. */
    method RunOne(script: seq<Resumption>) returns (rest: seq<Resumption>)
      requires Valid() && AllParked() && run != [] && script != []
      modifies this`refs, this`n, this`run, this`queued, this`status, this`accepted, this`log, timers, Timers()
      ensures Valid() && AllParked() && fresh(Timers() - old(Timers()))
      ensures old(accepted) <= accepted && old(log) <= log && old(|status|) <= |status|
      ensures var job, r, was, count := old(run[0]), script[0], old(status), old(|status|);
              if !Alive(was, job.co)
              then rest == script && Now([]) == old(Now([])).(run := old(run[1..]), log := old(log) + [Skipped(job)])
              else
                && rest == script[1..] && count <= |status| && run == CalledAll(old(run[1..]), count, r.calls)
                && (status[job.co] == if r.ending.Yields? then Suspended else Dead)
                && (forall c | 0 <= c < count && c != job.co :: status[c] == was[c])
                && (forall c | count <= c < |status| :: status[c] == Suspended)
                && log == old(log) + [Resumed(job)] + (if r.ending.Yields? then [] else [Died(job.co)])
                && timers.Book() == NotedAll(old(timers.Book()), r.calls, job.co)
      ensures (rest == script && |run| < old(|run|) && Count() == old(Count())) ||
              (rest == script[1..] && Count() == AfterOne(old(Count()), script[0]))
      ensures Later(old(timers.Book()), timers.Book())
      ensures RunOff(Now(rest)) == RunOff(old(Now(script)))
    {
      hide QueueSound, LogSound, TimerQueue.Valid, TimerQueue.Book, AllBorn, Served, Living, CalledAll, NotedAll,
           SpawnsIn, TimersIn, Later, AfterResume, ResumesIn, NoneResumedAfterDeath, OnlyDeadSkipped;
      rest := script;
      NoneLater(timers.Book());
      var job := Dequeue();
      match status[job.co]
      case Dead =>
      case Suspended =>
        Resume(job.co, rest[0]);
        rest := rest[1..];
      case Running =>
        assert false;
    }

    /** Serves the run queue until it is empty, or until the script has no more resumptions. */
    method RunPhase(script: seq<Resumption>) returns (rest: seq<Resumption>)
      requires Valid() && AllParked()
      modifies this`refs, this`n, this`run, this`queued, this`status, this`accepted, this`log, timers, Timers()
      ensures Valid() && AllParked() && fresh(Timers() - old(Timers()))
      ensures old(accepted) <= accepted && old(log) <= log && old(|status|) <= |status|
      ensures run == [] || rest == []
      ensures Used(old(Count()), Count(), script, rest)
      ensures Later(old(timers.Book()), timers.Book())
      ensures Now(rest) == RunOff(old(Now(script)))
    {
      hide Consistent, Living, Used, Count, Later, TimerQueue.Book, CalledAll, NotedAll;
      rest := script;
      NoneUsed(Count(), script);
      NoneLater(timers.Book());
      while |run| > 0 && rest != []
        invariant Valid() && AllParked() && fresh(Timers() - old(Timers()))
        invariant old(accepted) <= accepted && old(log) <= log && old(|status|) <= |status|
        invariant Used(old(Count()), Count(), script, rest)
        invariant RunOff(Now(rest)) == RunOff(old(Now(script)))
        invariant Later(old(timers.Book()), timers.Book())
        decreases |rest|, |run|
      {
        ghost var b := timers.Book();
        UseOne(old(Count()), Count(), script, rest);
        rest := RunOne(rest);
        LaterOn(old(timers.Book()), b, timers.Book());
      }
    }

    /** The event handlers, and then the run phase. */
    method Serve(ghost turn: Turn, handlers: seq<Call>, script: seq<Resumption>) returns (rest: seq<Resumption>)
      requires Valid() && AllParked() && turn.Legal() && turn.waited && handlers == turn.handlers
      modifies this`refs, this`n, this`run, this`queued, this`status, this`accepted, this`log, timers, Timers()
      ensures Valid() && AllParked() && fresh(Timers() - old(Timers()))
      ensures old(accepted) <= accepted && old(log) <= log && old(|status|) <= |status|
      ensures run == [] || rest == []
      ensures Turned(old(Count()), Count(), turn, script, rest)
      ensures Later(old(timers.Book()), timers.Book())
      ensures var handled := CalledAll(old(run), old(|status|), handlers);
              Now(rest) == RunOff(State(handled, old(status) + Newborn(SpawnsIn(handlers)), old(log),
                                        old(timers.Book()), script))
    {
      hide QueueSound, LogSound, TimerQueue.Valid, AllBorn, Served, Living, CalledAll, SpawnsIn, TimersIn, ResumesIn,
           Used, RunOff, Later, Stamps, StampsOf;
      ghost var before := Count();
      Perform(handlers, None);
      ghost var handled := Count();
      rest := RunPhase(script);
      TurnedBy(before, handled, Count(), turn, script, rest);
    }

    /** One turn of the loop: the timer phase and, unless waiting fails, the event handlers and the run phase. */
    method TakeTurn(turn: Turn, script: seq<Resumption>)
      returns (rest: seq<Resumption>, wait: real, ghost popped: seq<nat>)
      requires Valid() && AllParked() && turn.Legal()
      modifies this`refs, this`n, this`run, this`queued, this`status, this`accepted, this`log, timers, Timers()
      ensures Valid() && AllParked() && fresh(Timers() - old(Timers()))
      ensures old(accepted) <= accepted && old(log) <= log
      ensures old(|status|) <= |status| && (turn.waited ==> run == [] || rest == [])
      ensures Turned(old(Count()), Count(), turn, script, rest)
      ensures Now(rest) == TurnOff(old(Now(script)), turn, popped)
      ensures Goes(old(timers.Book()), turn.now, popped) && Later(old(timers.Book()).Gone(popped), timers.Book())
      ensures var b := old(timers.Book());
              && (forall k | b.Armed(k) && turn.now < b.At(k).awake :: k in timers.Book().waiting)
              && (forall k | b.Armed(k) && b.At(k).awake <= turn.now && Alive(old(status), b.At(k).co) ::
                    Attended(run, log, old(|log|), b.At(k).co))
      ensures var b := old(timers.Book());
              var due := Woken(old(run), popped, b, old(status));
              && old(Served(log)) + due <= accepted && DueIn(b, turn.now, old(status), due)
              && (forall i | old(|run|) <= i < |due| :: Caused(due[i], popped, b, old(status)))
              && (if due != [] then wait == 0.0
                  else if Left(b, popped) != {} then 0.0 < wait && IsLeastWait(b, Left(b, popped), turn.now, wait)
                  else IsWaitOver(b, popped, turn.now, wait))
    {
      hide QueueSound, LogSound, TimerQueue.Valid, TimerQueue.Book, AllBorn, Served, Living, Woken, Goes, IsLeastWait,
           IsWaitOver, SpawnsIn, CalledAll, TimersIn, ResumesIn, Used, RunOff, Caused, InQueue, Attended, Later, DueIn;
      rest := script;
      timers.HeapIsWaiting();
      wait, popped := TimerPhase(turn.now);
      timers.HeapIsWaiting();
      ghost var b, left := old(timers.Book()), timers.Book();
      NoneLater(left);
      if turn.waited {
        rest := Serve(turn, turn.handlers, script);
      }
      StillWaiting(b, turn.now, popped, timers.Book());
      DueAreAttended(b, turn.now, old(status), Woken(old(run), popped, b, old(status)), old(log), run, log);
    }

    /** A turn, among others: the armed timers in `on` that have been due have had their coroutines told. */
    method NextTurn(turn: Turn, script: seq<Resumption>, ghost on: set<nat>, ghost from: nat, ghost past: seq<Turn>)
      returns (rest: seq<Resumption>, ghost popped: seq<nat>)
      requires Valid() && AllParked() && turn.Legal() && from <= |log|
      requires (forall k | k in on :: k < |timers.settings|) && Told(on, Now(script), from, past)
      modifies this`refs, this`n, this`run, this`queued, this`status, this`accepted, this`log, timers, Timers()
      ensures Valid() && AllParked() && fresh(Timers() - old(Timers()))
      ensures old(accepted) <= accepted && old(log) <= log && old(timers.settings) <= timers.settings
      ensures old(timers.cancelled) <= timers.cancelled
      ensures old(|status|) <= |status| && (turn.waited ==> run == [] || rest == [])
      ensures Turned(old(Count()), Count(), turn, script, rest)
      ensures Now(rest) == TurnOff(old(Now(script)), turn, popped) && Goes(old(timers.Book()), turn.now, popped)
      ensures Told(on, Now(rest), from, past + [turn])
    {
      hide Living, Woken, Goes, IsLeastWait, IsWaitOver, SpawnsIn, CalledAll, Served, InQueue, Attended, Caused,
           LogSound, QueueSound, TimerQueue.Valid, Told, Turned, TurnOff, DueIn, AllBorn;
      ghost var before := Now(script);
      var wait;
      rest, wait, popped := TakeTurn(turn, script);
      TellOn(on, before, Now(rest), from, past, turn);
    }

    /** Runs the event loop turn by turn. `finished` tells a normal return from the end of the script; `taken` counts
        the turns, `rest` is what is left of the resumptions, and `goings` has the timers that go off in each turn. */
    method EventLoop(client: bool, turns: seq<Turn>, script: seq<Resumption>)
      returns (finished: bool, ghost taken: nat, rest: seq<Resumption>, ghost goings: seq<seq<nat>>)
      requires Valid() && AllParked() && forall t | t in turns :: t.Legal()
      modifies this`refs, this`n, this`run, this`queued, this`status, this`accepted, this`log, timers, Timers()
      ensures Valid() && AllParked()
      ensures old(accepted) <= accepted && old(log) <= log
      ensures taken <= |turns| && forall k | 0 <= k < taken :: !turns[k].stop
      ensures if finished then taken < |turns| && ((client && n == 0) || turns[taken].stop)
              else taken == |turns| || (run != [] && rest == [])
      ensures |rest| <= |script| && rest == script[|script| - |rest|..]
      ensures |status| == old(|status|) + SpawnedIn(turns[..taken]) + SpawnedBy(script[..|script| - |rest|])
      ensures ResumesIn(log) == old(ResumesIn(log)) + |script| - |rest|
      ensures old(timers.settings) <= timers.settings && old(timers.cancelled) <= timers.cancelled
      ensures |timers.settings| == old(|timers.settings|) + TimedBy(script[..|script| - |rest|])
      ensures forall co | co !in timers.careless :: Traced(multiset(timers.heap), timers.index, co)
      ensures |goings| == taken && Now(rest) == TurnsOff(old(Now(script)), turns[..taken], goings)
      ensures GoesAll(old(Now(script)), turns[..taken], goings)
      ensures GoesOn(client, old(Now(script)), turns[..taken], goings)
      ensures Told(old(timers.Book()).waiting, Now(rest), old(|log|), turns[..taken])
    {
      hide Consistent, Living, SpawnedIn, SpawnedBy, TimedBy, ResumesIn, Turned, Woken, Goes, GoesAll, Served, TurnOff,
           TurnsOff, Told, Attended, InQueue, Spent, TimerQueue.Book, AllBorn, RunOff, CalledAll, NotedAll, Traced,
           GoesOn, SomeAlive, Ran;
      rest, taken, goings := script, 0, [];
      NothingSpent(Count(), script);
      NothingTold(Now(script));
      NoneRan(client, Now(script));
      TracedIfCareful();
      for k := 0 to |turns|
        invariant Valid() && AllParked() && fresh(Timers() - old(Timers()))
        invariant old(accepted) <= accepted && old(log) <= log
        invariant old(timers.settings) <= timers.settings && old(timers.cancelled) <= timers.cancelled
        invariant taken == k && forall j | 0 <= j < k :: !turns[j].stop
        invariant Spent(old(Count()), Count(), turns[..k], script, rest)
        invariant |goings| == k && Ran(client, old(Now(script)), turns[..k], goings, Now(rest))
        invariant Told(old(timers.Book()).waiting, Now(rest), old(|log|), turns[..k])
      {
        assert turns[k] in turns && turns[..k + 1] == turns[..k] + [turns[k]];
        if (client && n == 0) || turns[k].stop {
          SpentIs(old(Count()), Count(), turns[..k], script, rest);
          RanIs(client, old(Now(script)), turns[..k], goings, Now(rest));
          TracedIfCareful();
          return true, k, rest, goings;
        }
        taken := k + 1;
        AliveIfCounted();
        ghost var now, before, left := Now(rest), Count(), rest;
        ghost var popped;
        rest, popped := NextTurn(turns[k], rest, old(timers.Book()).waiting, old(|log|), turns[..k]);
        SpentMore(old(Count()), before, Count(), turns[..k], turns[k], script, left, rest);
        RanOneMore(client, old(Now(script)), turns[..k], goings, now, turns[k], popped, Now(rest));
        goings := goings + [popped];
        if turns[k].waited && run != [] {
          SpentIs(old(Count()), Count(), turns[..k + 1], script, rest);
          RanIs(client, old(Now(script)), turns[..k + 1], goings, Now(rest));
          TracedIfCareful();
          return false, k + 1, rest, goings;
        }
      }
      assert turns[..|turns|] == turns;
      SpentIs(old(Count()), Count(), turns, script, rest);
      RanIs(client, old(Now(script)), turns, goings, Now(rest));
      TracedIfCareful();
      return false, |turns|, rest, goings;
    }

    lemma AliveIfCounted()
      requires Valid()
      ensures n > 0 <==> SomeAlive(status)
    {
      assert n > 0 ==> exists c :: c in Living(status);
      assert forall c | 0 <= c < |status| && status[c] != Dead :: c in Living(status);
    }

    lemma TracedIfCareful()
      requires Valid()
      ensures forall co | co !in timers.careless :: Traced(multiset(timers.heap), timers.index, co)
      ensures forall k | k in timers.Book().waiting :: k < |timers.settings|
    {
    }

    /** With no done_f of its own, a client's event loop returns only when every coroutine is dead. */
    method ClientEventLoop(turns: seq<Turn>, script: seq<Resumption>)
      returns (finished: bool, ghost taken: nat, rest: seq<Resumption>, ghost goings: seq<seq<nat>>)
      requires Valid() && AllParked() && forall t | t in turns :: t.Legal() && !t.stop
      modifies this`refs, this`n, this`run, this`queued, this`status, this`accepted, this`log, timers, Timers()
      ensures Valid() && AllParked()
      ensures if finished then forall c | 0 <= c < |status| :: status[c] == Dead
              else taken == |turns| || (run != [] && rest == [])
      ensures |rest| <= |script| && rest == script[|script| - |rest|..] && taken <= |turns|
      ensures |goings| == taken && Now(rest) == TurnsOff(old(Now(script)), turns[..taken], goings)
      ensures GoesAll(old(Now(script)), turns[..taken], goings)
      ensures GoesOn(true, old(Now(script)), turns[..taken], goings)
      ensures Told(old(timers.Book()).waiting, Now(rest), old(|log|), turns[..taken])
      ensures |status| == old(|status|) + SpawnedIn(turns[..taken]) + SpawnedBy(script[..|script| - |rest|])
    {
      finished, taken, rest, goings := EventLoop(true, turns, script);
      if finished {
        forall c | 0 <= c < |status| ensures status[c] == Dead {
          assert c !in Living(status);
        }
      }
    }
  }
}
