/** The timeout queue of the coroutine scheduler: a binary min-heap of timers,
    ordered by wake time, that is also indexed by the coroutine which set the timer. */
module Timers {
  type Co = nat          // a coroutine, named by its position in the order of creation
  type Args = seq<int>   // the values handed to a coroutine when it is resumed

  class Timer {
    const awake: real
    const co: Co
    const args: Args
    var trigger: bool          // cleared when the timer is cancelled
    ghost const stamp: nat     // position in the order of insertion

    constructor (awake: real, co: Co, args: Args, ghost stamp: nat)
      ensures this.awake == awake && this.co == co && this.args == args && this.stamp == stamp
      ensures trigger
    {
      this.awake, this.co, this.args, this.stamp := awake, co, args, stamp;
      trigger := true;
    }
  }

  // Positions count from 1, as the heap does: the parent of position c is c / 2.
  ghost predicate Above(h: seq<Timer>, c: int)
    requires 2 <= c <= |h|
  {
    h[c / 2 - 1].awake <= h[c - 1].awake
  }

  ghost predicate FarAbove(h: seq<Timer>, c: int)
    requires 4 <= c <= |h|
  {
    h[c / 2 / 2 - 1].awake <= h[c - 1].awake
  }

  ghost predicate HeapOrdered(h: seq<Timer>) {
    forall c | 2 <= c <= |h| :: Above(h, c)
  }

  ghost predicate NoRepeats(m: multiset<Timer>) {
    forall e | e in m :: m[e] == 1
  }

  // A timer was set: by whom, when it is due, and with what.
  datatype Setting = Setting(co: Co, awake: real, args: Args)

  /** All there is to say about the timers: what was set, in order; which are in the heap, which of them the index has,
      and which were ever cancelled, each named by its position in that order; and what coroutines ever set a timer
      while they had one in the heap. */
  datatype Book = Entries(settings: seq<Setting>, waiting: set<nat>, index: map<Co, nat>, cancelled: set<nat>,
                          careless: set<Co>)
  {
    ghost function At(k: nat): Setting {
      if k < |settings| then settings[k] else Setting(0, 0.0, [])
    }

    ghost predicate Armed(k: nat) {
      k in waiting && k !in cancelled
    }

    ghost predicate Holding(co: Co) {
      exists k | k in waiting :: At(k).co == co
    }

    /** No timer of the coroutine's will go off. */
    ghost predicate Quiet(co: Co) {
      forall k | k in waiting && At(k).co == co :: k in cancelled
    }

    ghost function Set(co: Co, awake: real, args: Args): Book {
      var n := |settings|;
      Entries(settings + [Setting(co, awake, args)], waiting + {n}, index[co := n], cancelled,
              if Holding(co) then careless + {co} else careless)
    }

    ghost function Cancel(co: Co): Book {
      if co in index then this.(cancelled := cancelled + {index[co]}) else this
    }

    ghost function Gone(popped: seq<nat>): Book {
      this.(waiting := waiting - (set k | k in popped), index := index - (set k | k in popped :: At(k).co))
    }

    /** Only timers that were set are in the heap or cancelled, and the index has of each coroutine one of its own. */
    ghost predicate Sound() {
      && (forall k | k in waiting || k in cancelled :: k < |settings|)
      && (forall co | co in index :: index[co] in waiting && At(index[co]).co == co)
    }
  }

  /** The timer is as it was set. */
  ghost predicate Booked(e: Timer, settings: seq<Setting>) {
    e.stamp < |settings| && settings[e.stamp] == Setting(e.co, e.awake, e.args)
  }

  ghost predicate Stamped(heap: seq<Timer>) {
    forall e, f | e in heap && f in heap && e.stamp == f.stamp :: e == f
  }

  ghost function Stamps(heap: seq<Timer>): set<nat> {
    set e | e in heap :: e.stamp
  }

  ghost function StampsOf(index: map<Co, Timer>): map<Co, nat> {
    map co | co in index :: index[co].stamp
  }

  ghost predicate Entered(heap: seq<Timer>, settings: seq<Setting>) {
    Stamped(heap) && forall e | e in heap :: Booked(e, settings)
  }

  lemma EnteredPushed(h: seq<Timer>, h': seq<Timer>, e: Timer, settings: seq<Setting>)
    requires Entered(h, settings) && multiset(h') == multiset(h) + multiset{e}
    requires e.stamp == |settings|
    ensures forall x :: x in h' <==> x in h || x == e
    ensures Entered(h', settings + [Setting(e.co, e.awake, e.args)]) && Stamps(h') == Stamps(h) + {e.stamp}
  {
    hide NoRepeats;
    assert forall x :: x in h' <==> x in multiset(h');
    assert forall x :: x in h <==> x in multiset(h);
    assert forall x :: x in h' <==> x in h || x == e;
    forall x | x in h' ensures Booked(x, settings + [Setting(e.co, e.awake, e.args)]) {
      assert x != e ==> Booked(x, settings);
    }
    assert forall x | x in h :: Booked(x, settings) && x.stamp < e.stamp;
  }

  lemma BookedPush(b: Book, h: seq<Timer>, h': seq<Timer>, index: map<Co, Timer>, e: Timer, holds: bool)
    requires b == Entries(b.settings, Stamps(h), StampsOf(index), b.cancelled, b.careless)
    requires Stamps(h') == Stamps(h) + {e.stamp} && e.stamp == |b.settings| && (holds <==> b.Holding(e.co))
    ensures b.Set(e.co, e.awake, e.args)
            == Entries(b.settings + [Setting(e.co, e.awake, e.args)], Stamps(h'), StampsOf(index[e.co := e]),
                       b.cancelled, b.careless + if holds then {e.co} else {})
  {
  }

  lemma BookedPop(b: Book, h: seq<Timer>, h': seq<Timer>, index: map<Co, Timer>, e: Timer)
    requires b == Entries(b.settings, Stamps(h), StampsOf(index), b.cancelled, b.careless)
    requires Stamps(h') == Stamps(h) - {e.stamp} && b.At(e.stamp).co == e.co
    ensures b.Gone([e.stamp])
            == Entries(b.settings, Stamps(h'), StampsOf(index - {e.co}), b.cancelled, b.careless)
  {
  }

  lemma EnteredPopped(h: seq<Timer>, h': seq<Timer>, e: Timer, settings: seq<Setting>)
    requires Entered(h, settings) && NoRepeats(multiset(h)) && e in h
    requires multiset(h') == multiset(h) - multiset{e}
    ensures forall x :: x in h' <==> x in h && x != e
    ensures Entered(h', settings) && Stamps(h') == Stamps(h) - {e.stamp}
  {
    assert e in multiset(h);
    assert forall x :: x in h' <==> x in multiset(h');
    assert forall x :: x in h <==> x in multiset(h);
    assert forall x :: x in h' <==> x in h && x != e;
  }

  ghost predicate Holds(m: multiset<Timer>, co: Co) {
    exists e | e in m :: e.co == co
  }

  /** Every timer in the heap is reachable under its coroutine's name. */
  ghost predicate Complete(m: multiset<Timer>, index: map<Co, Timer>) {
    forall e | e in m :: e.co in index && index[e.co] == e
  }

  /** Every timer of the coroutine is reachable under its name. */
  ghost predicate Traced(m: multiset<Timer>, index: map<Co, Timer>, co: Co) {
    forall e | e in m && e.co == co :: co in index && index[co] == e
  }

  function Swap<T>(s: seq<T>, i: nat, j: nat): (r: seq<T>)
    requires i < |s| && j < |s|
    ensures |r| == |s| && multiset(r) == multiset(s)
  {
    s[i := s[j]][j := s[i]]
  }

  // Heap order everywhere but above `child`, whose own children are already below its parent.
  ghost predicate HeapOrderedBut(h: seq<Timer>, child: nat)
  {
    && (forall c | 2 <= c <= |h| && c != child :: Above(h, c))
    && (forall c | 4 <= c <= |h| && c / 2 == child :: FarAbove(h, c))
  }

  lemma HeapShrank(h: seq<Timer>, t: seq<Timer>, e: Timer)
    requires e in h && multiset(t) == multiset(h) - multiset{e}
    ensures |t| == |h| - 1 && forall x | x in t :: x in h
  {
    assert |multiset(t)| == |multiset(h)| - 1;
    forall x | x in t ensures x in h {
      assert x in multiset(t);
    }
  }

  /** The first timer of a heap wakes no later than any other. */
  lemma {:induction false} RootIsLeast(h: seq<Timer>, c: nat)
    requires HeapOrdered(h) && 1 <= c <= |h|
    ensures h[0].awake <= h[c - 1].awake
  {
    if c > 1 {
      assert Above(h, c);
      RootIsLeast(h, c / 2);
    }
  }

  lemma RootIsLeastOfAll(h: seq<Timer>)
    requires HeapOrdered(h)
    ensures forall e | e in h :: h[0].awake <= e.awake
  {
    forall e | e in h ensures h[0].awake <= e.awake {
      var k :| 0 <= k < |h| && h[k] == e;
      RootIsLeast(h, k + 1);
    }
  }

  ghost predicate Recorded(e: Timer, latest: map<Co, Timer>, inserted: nat) {
    e.stamp < inserted && e.co in latest && e.stamp <= latest[e.co].stamp
  }

  ghost predicate Current(co: Co, m: multiset<Timer>, index: map<Co, Timer>, latest: map<Co, Timer>)
    requires co in index
  {
    index[co] in m && index[co].co == co && co in latest && index[co] == latest[co]
  }

  /** What a coroutine finds under its own name is in the heap, is its own, and is the last it inserted. */
  ghost predicate Indexed(m: multiset<Timer>, index: map<Co, Timer>, latest: map<Co, Timer>, inserted: nat) {
    && (forall e | e in m :: Recorded(e, latest, inserted))
    && (forall co | co in index :: Current(co, m, index, latest))
  }

  lemma InsertedIndex(m: multiset<Timer>, index: map<Co, Timer>, latest: map<Co, Timer>, e: Timer)
    requires NoRepeats(m) && Indexed(m, index, latest, e.stamp) && e !in m
    ensures var m', i', l' := m + multiset{e}, index[e.co := e], latest[e.co := e];
            NoRepeats(m') && Indexed(m', i', l', e.stamp + 1) &&
            (Complete(m', i') <==> Complete(m, index) && !Holds(m, e.co))
  {
    var m', i' := m + multiset{e}, index[e.co := e];
    if Complete(m', i') {
      forall x | x in m ensures x.co != e.co && x.co in index && index[x.co] == x {
        assert x in m';
      }
    }
  }

  lemma RemovedIndex(m: multiset<Timer>, index: map<Co, Timer>, latest: map<Co, Timer>, n: nat, e: Timer)
    requires NoRepeats(m) && Indexed(m, index, latest, n) && e in m
    ensures var m', i' := m - multiset{e}, index - {e.co};
            NoRepeats(m') && Indexed(m', i', latest, n) && (Complete(m, index) ==> Complete(m', i'))
  {
    var m' := m - multiset{e};
    assert forall x :: x in m' <==> x in m && x != e;
  }

  lemma InsertedTraces(m: multiset<Timer>, index: map<Co, Timer>, careless: set<Co>, e: Timer)
    requires forall co | co !in careless :: Traced(m, index, co)
    ensures var careless' := careless + if Holds(m, e.co) then {e.co} else {};
            forall co | co !in careless' :: Traced(m + multiset{e}, index[e.co := e], co)
  {
    forall co | co !in careless && (co == e.co ==> !Holds(m, e.co))
      ensures Traced(m + multiset{e}, index[e.co := e], co)
    {
      assert Traced(m, index, co);
    }
  }

  lemma RemovedTraces(m: multiset<Timer>, index: map<Co, Timer>, e: Timer, co: Co)
    requires NoRepeats(m) && e in m && Traced(m, index, co)
    ensures Traced(m - multiset{e}, index - {e.co}, co)
  {
    assert forall x | x in m - multiset{e} :: x in m && x != e;
  }

  lemma SwappedDown(h: seq<Timer>, parent: nat, smallest: nat)
    requires 1 <= parent < smallest <= |h| && smallest / 2 == parent && h[smallest - 1].awake < h[parent - 1].awake
    requires forall c | 2 <= c <= |h| && c / 2 != parent :: Above(h, c)
    requires forall c | 4 <= c <= |h| && c / 2 == parent :: FarAbove(h, c)
    requires forall c | 2 <= c <= |h| && c / 2 == parent :: h[smallest - 1].awake <= h[c - 1].awake
    ensures var t := Swap(h, parent - 1, smallest - 1);
            && (forall c | 2 <= c <= |t| && c / 2 != smallest :: Above(t, c))
            && (forall c | 4 <= c <= |t| && c / 2 == smallest :: FarAbove(t, c))
  {
    var t := Swap(h, parent - 1, smallest - 1);
    forall c | 2 <= c <= |t| && c / 2 != smallest ensures Above(t, c) {
      assert c / 2 != parent ==> Above(h, c);
      assert c == parent && 4 <= smallest ==> FarAbove(h, smallest);
    }
    forall c | 4 <= c <= |t| && c / 2 == smallest ensures FarAbove(t, c) {
      assert Above(h, c);
    }
  }

  class TimerQueue {
    var heap: seq<Timer>
    var index: map<Co, Timer>
    ghost var settings: seq<Setting>      // of all timers ever inserted, in order
    ghost var cancelled: set<nat>         // the timers ever cancelled
    ghost var careless: set<Co>           // who ever set a timer with one of its own in the heap
    ghost var latest: map<Co, Timer>      // the timer each coroutine inserted last

    ghost predicate Valid()
      reads this, heap
    {
      && HeapOrdered(heap) && NoRepeats(multiset(heap)) && Indexed(multiset(heap), index, latest, |settings|)
      && Entered(heap, settings) && (forall k | k in cancelled :: k < |settings|)
      && (forall e | e in heap :: e.trigger <==> e.stamp !in cancelled)
      && forall co | co !in careless :: Traced(multiset(heap), index, co)
    }

    ghost predicate Exact()
      reads this
    {
      Complete(multiset(heap), index)
    }

    /** What the heap and the index come to. */
    ghost function Book(): Book
      reads this
    {
      Entries(settings, Stamps(heap), StampsOf(index), cancelled, careless)
    }

    lemma IndexedInHeap(co: Co)
      requires Valid() && co in index
      ensures index[co] in heap && index[co].co == co
    {
      assert Current(co, multiset(heap), index, latest);
      assert index[co] in multiset(heap);
    }

    lemma ExactIfCareful()
      requires Valid()
      ensures careless == {} ==> Exact()
    {
      assert forall e | e in multiset(heap) && e.co !in careless :: Traced(multiset(heap), index, e.co);
    }

    lemma BookIsSound()
      requires Valid()
      ensures Book().Sound()
      ensures forall e | e in heap :: e.stamp in Book().waiting && Book().At(e.stamp) == Setting(e.co, e.awake, e.args)
      ensures forall co :: Book().Holding(co) <==> Holds(multiset(heap), co)
    {
    }

    /** The first timer of the heap is the first to be due. */
    lemma RootIsFirst()
      requires Valid() && heap != []
      ensures var e, b := heap[0], Book();
              && e.stamp in b.waiting && b.At(e.stamp) == Setting(e.co, e.awake, e.args)
              && (e.trigger <==> e.stamp !in b.cancelled) && e.stamp < |settings|
              && forall k | k in b.waiting :: e.awake <= b.At(k).awake
    {
      hide Indexed, Traced, NoRepeats;
      BookIsSound();
      RootIsLeastOfAll(heap);
    }

    lemma HeapIsWaiting()
      requires Valid()
      ensures heap == [] <==> Book().waiting == {}
      ensures forall e | e in heap :: e.stamp in Book().waiting && Book().At(e.stamp).awake == e.awake
    {
      hide Indexed, Traced, NoRepeats, HeapOrdered;
      BookIsSound();
      if heap != [] {
        assert heap[0] in heap;
      }
    }

    constructor ()
      ensures Valid() && Exact() && heap == [] && index == map[] && settings == [] && cancelled == {} && careless == {}
    {
      heap, index, latest := [], map[], map[];
      settings, cancelled, careless := [], {}, {};
    }

    method Insert(clock: real, when: real, co: Co, args: Args) returns (e: Timer)
      requires Valid()
      modifies this
      ensures Valid() && fresh(e)
      ensures e.awake == clock + when && e.co == co && e.args == args && e.trigger
      ensures multiset(heap) == old(multiset(heap)) + multiset{e}
      ensures index == old(index)[co := e] && latest == old(latest)[co := e]
      ensures Exact() <==> old(Exact() && !Holds(multiset(heap), co))
      ensures settings == old(settings) + [Setting(co, clock + when, args)] && cancelled == old(cancelled)
      ensures careless == old(careless) + if old(Holds(multiset(heap), co)) then {co} else {}
      ensures Book() == old(Book()).Set(co, clock + when, args)
    {
      hide HeapOrdered, NoRepeats, Indexed, Entered, Complete, Stamps, StampsOf, Traced, Holds;
      e := new Timer(clock + when, co, args, |settings|);
      Enter(e);
    }

    /** Puts a timer that is not there yet into the heap, and into the index. */
    method Enter(e: Timer)
      requires Valid() && e !in heap && e.stamp == |settings| && e.trigger
      modifies this
      ensures Valid() && multiset(heap) == old(multiset(heap)) + multiset{e}
      ensures index == old(index)[e.co := e] && latest == old(latest)[e.co := e]
      ensures Exact() <==> old(Exact() && !Holds(multiset(heap), e.co))
      ensures settings == old(settings) + [Setting(e.co, e.awake, e.args)] && cancelled == old(cancelled)
      ensures careless == old(careless) + if old(Holds(multiset(heap), e.co)) then {e.co} else {}
      ensures Book() == old(Book()).Set(e.co, e.awake, e.args)
    {
      hide HeapOrdered, NoRepeats, Indexed, Entered, Complete, Stamps, StampsOf, Traced, Holds;
      BookIsSound();
      ghost var b, h, m, i, l := Book(), heap, multiset(heap), index, latest;
      InsertedIndex(m, i, l, e);
      InsertedTraces(m, i, careless, e);
      Push(e);
      EnteredPushed(h, heap, e, settings);
      BookedPush(b, h, heap, i, e, Holds(m, e.co));
      index := index[e.co := e];
      settings, latest := settings + [Setting(e.co, e.awake, e.args)], latest[e.co := e];
      careless := careless + if Holds(m, e.co) then {e.co} else {};
      assert multiset(heap) == m + multiset{e};
    }

    method Push(e: Timer)
      requires HeapOrdered(heap)
      modifies this`heap
      ensures HeapOrdered(heap) && multiset(heap) == old(multiset(heap)) + multiset{e}
    {
      ghost var h := heap;
      heap := heap + [e];
      forall c | 2 <= c <= |heap| && c != |heap| ensures Above(heap, c) {
        assert Above(h, c);
      }
      BubbleUp(|heap| / 2, |heap|);
    }

    method BubbleUp(parent: nat, child: nat)
      requires 1 <= child <= |heap| && parent == child / 2
      requires HeapOrderedBut(heap, child)
      modifies this`heap
      ensures HeapOrdered(heap) && multiset(heap) == old(multiset(heap))
      decreases child
    {
      if parent > 0 {
        if heap[parent - 1].awake > heap[child - 1].awake {
          ghost var h := heap;
          heap := Swap(heap, parent - 1, child - 1);
          forall c | 2 <= c <= |heap| && c != parent ensures Above(heap, c) {
            assert c != child ==> Above(h, c);
            assert c / 2 == child ==> FarAbove(h, c);
          }
          forall c | 4 <= c <= |heap| && c / 2 == parent ensures FarAbove(heap, c) {
            assert Above(h, parent);
            assert c != child ==> Above(h, c);
          }
          BubbleUp(parent / 2, parent);
        }
      }
    }

    method Remove() returns (res: Timer)
      requires Valid() && heap != []
      modifies this
      ensures Valid()
      ensures res == old(heap[0]) && forall e | e in old(heap) :: res.awake <= e.awake
      ensures multiset(heap) == old(multiset(heap)) - multiset{res}
      ensures index == old(index) - {res.co} && latest == old(latest)
      ensures settings == old(settings) && cancelled == old(cancelled) && careless == old(careless)
      ensures old(Exact()) ==> Exact()
      ensures Book() == old(Book()).Gone([res.stamp])
    {
      hide HeapOrdered, Indexed, Entered, Complete, Stamps, StampsOf, Traced;
      RootIsLeastOfAll(heap);
      BookIsSound();
      res := heap[0];
      ghost var b, h, m, i := Book(), heap, multiset(heap), index;
      RemovedIndex(m, i, latest, |settings|, res);
      Pop();
      EnteredPopped(h, heap, res, settings);
      BookedPop(b, h, heap, i, res);
      forall co | co !in careless ensures Traced(m - multiset{res}, i - {res.co}, co) {
        RemovedTraces(m, i, res, co);
      }
      index := index - {res.co};
      assert multiset(heap) == m - multiset{res};
      assert NoRepeats(multiset(heap)) && Indexed(multiset(heap), index, latest, |settings|);
    }

    method Pop()
      requires HeapOrdered(heap) && heap != []
      modifies this`heap
      ensures HeapOrdered(heap) && multiset(heap) == old(multiset(heap)) - multiset{old(heap[0])}
    {
      ghost var h := heap;
      var x := heap[|heap| - 1];
      assert h[..|h| - 1] + [x] == h;
      heap := heap[..|heap| - 1];
      if |heap| > 0 {
        heap := heap[0 := x];
        forall c | 4 <= c <= |heap| ensures Above(heap, c) {
          assert Above(h, c);
        }
        BubbleDown(1, 2, 3);
      } else {
        assert h == [x];
      }
    }

    method BubbleDown(parent: nat, left: nat, right: nat)
      requires 1 <= parent <= |heap| && left == 2 * parent && right == 2 * parent + 1
      requires forall c | 2 <= c <= |heap| && c / 2 != parent :: Above(heap, c)
      requires forall c | 4 <= c <= |heap| && c / 2 == parent :: FarAbove(heap, c)
      modifies this`heap
      ensures HeapOrdered(heap) && multiset(heap) == old(multiset(heap))
      decreases |heap| - parent
    {
      var smallest := parent;
      if left <= |heap| && heap[left - 1].awake < heap[smallest - 1].awake {
        smallest := left;
      }
      if right <= |heap| && heap[right - 1].awake < heap[smallest - 1].awake {
        smallest := right;
      }
      if smallest != parent {
        assert forall c | 2 <= c <= |heap| && c / 2 == parent :: c == left || c == right;
        SwappedDown(heap, parent, smallest);
        heap := Swap(heap, parent - 1, smallest - 1);
        BubbleDown(smallest, smallest * 2, smallest * 2 + 1);
      } else {
        forall c | 2 <= c <= |heap| ensures Above(heap, c) {
          assert c / 2 == parent ==> c == left || c == right;
        }
      }
    }

    /** What timeout(0) does on behalf of co: it disarms the timer the index knows, and so disarms
        every timer of co exactly when co had no other armed timer in the heap. It does as long as
        co itself never set a timer while it had one in the heap. */
    method Cancel(co: Co)
      requires Valid()
      modifies this`cancelled, if co in index then {index[co]} else {}
      ensures Valid()
      ensures co in index ==> !index[co].trigger
      ensures (forall e | e in heap && e.co == co :: !e.trigger) <==>
              old(forall e | e in heap && e.co == co && e.trigger :: co in index && index[co] == e)
      ensures co !in careless ==> forall e | e in heap && e.co == co :: !e.trigger
      ensures cancelled == old(cancelled) + if co in index then {index[co].stamp} else {}
      ensures Book() == old(Book()).Cancel(co) && (co !in careless ==> Book().Quiet(co))
    {
      hide HeapOrdered, NoRepeats, Indexed;
      assert co !in careless ==> Traced(multiset(heap), index, co);
      assert forall e | e in heap :: e in multiset(heap);
      if co in index {
        IndexedInHeap(co);
        index[co].trigger := false;
        cancelled := cancelled + {index[co].stamp};
      }
    }
  }
}
