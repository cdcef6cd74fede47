/** The pipeline behind the multi-threaded writer and reader, as a step system: a dispatcher pushes
    an order slot for every entry and hands jobs to workers, workers fill one-shot results, and one
    consumer takes the slots in order.  Every interleaving, every choice of worker. */
module Pipeline {
  import opened Bytes

  /** What the dispatcher submits: a result it already has, or a job for a worker. */
  datatype Entry<J, R> = Direct(result: R) | Job(job: J)

  /** `bad` tells the results on which the consumer gives up. */
  datatype System<!J, !R> = System(workers: nat, entries: seq<Entry<J, R>>, work: J -> R, bad: R -> bool, sinkMayFail: bool)

  /** `Placing` is looking for a worker whose queue has room, `Blocked` waits for one of them. */
  datatype Dispatcher = Ready | Placing(slot: nat, left: nat) | Blocked(slot: nat) | Closed | Gone

  datatype Consumer = Idle | Waiting | Finished | Dead

  /** Slots `popped..pushed` are in the order queue; the consumer waits for slot `popped - 1`; the job
      in a dispatcher's hands belongs to slot `pushed - 1`. */
  datatype State<R> = State(
    pushed: nat, dispatcher: Dispatcher,
    queues: seq<Option<nat>>, busy: seq<Option<nat>>, done: set<nat>,
    popped: nat, consumer: Consumer, written: seq<R>)

  function ResultOf<J, R>(sys: System<J, R>, k: nat): R
    requires k < |sys.entries|
  {
    match sys.entries[k]
    case Direct(r) => r
    case Job(j) => sys.work(j)
  }

  /** What a single thread would have delivered. */
  function Results<J, R>(sys: System<J, R>): (r: seq<R>)
    ensures |r| == |sys.entries|
    ensures forall k :: 0 <= k < |r| ==> r[k] == ResultOf(sys, k)
  {
    seq(|sys.entries|, k requires 0 <= k < |sys.entries| => ResultOf(sys, k))
  }

  /** The order queue is bounded. */
  function OrderCapacity<J, R>(sys: System<J, R>): nat { sys.workers + 1 }

  function Initial<J, R>(sys: System<J, R>): State<R> {
    State(0, Ready, Free(sys.workers), Free(sys.workers), {}, 0, Idle, [])
  }

  /** `n` free places. */
  function Free(n: nat): (r: seq<Option<nat>>)
    ensures |r| == n && forall w :: 0 <= w < n ==> r[w].None?
  {
    if n == 0 then [] else [None] + Free(n - 1)
  }

  // -------- the steps --------

  /** The dispatcher pushes the next slot; a job then needs a worker. */
  ghost predicate Push<J, R>(sys: System<J, R>, s: State<R>, t: State<R>) {
    && s.dispatcher.Ready? && s.pushed < |sys.entries| && !s.consumer.Dead?
    && s.pushed - s.popped < OrderCapacity(sys)
    && if sys.entries[s.pushed].Direct? then t == s.(pushed := s.pushed + 1, done := s.done + {s.pushed})
       else
         var pushed := s.(pushed := s.pushed + 1);
         exists slot: nat :: Offer(sys, pushed, t, slot, sys.workers)
  }

  /** The dispatcher is about to try worker `slot`. */
  ghost predicate Offer<J, R>(sys: System<J, R>, s: State<R>, t: State<R>, slot: nat, left: nat) {
    slot < sys.workers && t == s.(dispatcher := Placing(slot, left))
  }

  /** A worker's queue holds one job: either it is free, or the dispatcher tries another worker or
      decides to wait for this one. */
  ghost predicate TrySend<J, R>(sys: System<J, R>, s: State<R>, t: State<R>) {
    && s.dispatcher.Placing? && s.dispatcher.slot < |s.queues| && s.pushed > 0
    && var slot := s.dispatcher.slot;
       if s.queues[slot].None? then t == s.(dispatcher := Ready, queues := s.queues[slot := Some(s.pushed - 1)])
       else
         || t == s.(dispatcher := Blocked(slot))
         || (s.dispatcher.left > 0 && var left := s.dispatcher.left - 1; exists next: nat :: Offer(sys, s, t, next, left))
  }

  ghost predicate Unblock<R>(s: State<R>, t: State<R>) {
    && s.dispatcher.Blocked? && s.dispatcher.slot < |s.queues| && s.queues[s.dispatcher.slot].None? && s.pushed > 0
    && t == s.(dispatcher := Ready, queues := s.queues[s.dispatcher.slot := Some(s.pushed - 1)])
  }

  /** All entries are submitted: the dispatcher drops its ends of the channels. */
  ghost predicate Close<J, R>(sys: System<J, R>, s: State<R>, t: State<R>) {
    s.dispatcher.Ready? && s.pushed == |sys.entries| && t == s.(dispatcher := Closed)
  }

  /** The dispatcher finds the order queue disconnected, or the error recorded. */
  ghost predicate Abort<R>(s: State<R>, t: State<R>) {
    s.dispatcher.Ready? && s.consumer.Dead? && t == s.(dispatcher := Gone)
  }

  ghost predicate Take<R>(s: State<R>, t: State<R>, w: nat) {
    && w < |s.queues| && w < |s.busy| && s.queues[w].Some? && s.busy[w].None?
    && t == s.(queues := s.queues[w := None], busy := s.busy[w := s.queues[w]])
  }

  /** Filling a one-shot result never blocks. */
  ghost predicate Deliver<R>(s: State<R>, t: State<R>, w: nat) {
    && w < |s.busy| && s.busy[w].Some?
    && t == s.(busy := s.busy[w := None], done := s.done + {s.busy[w].value})
  }

  ghost predicate Pop<R>(s: State<R>, t: State<R>) {
    s.consumer.Idle? && s.popped < s.pushed && t == s.(popped := s.popped + 1, consumer := Waiting)
  }

  ghost predicate Write<J, R>(sys: System<J, R>, s: State<R>, t: State<R>) {
    && s.consumer.Waiting? && 0 < s.popped <= |sys.entries| && s.popped - 1 in s.done
    && var r := ResultOf(sys, s.popped - 1);
       !sys.bad(r) && t == s.(consumer := Idle, written := s.written + [r])
  }

  /** The consumer stops at a bad result, or because the sink failed. */
  ghost predicate GiveUp<J, R>(sys: System<J, R>, s: State<R>, t: State<R>) {
    && s.consumer.Waiting? && 0 < s.popped <= |sys.entries| && s.popped - 1 in s.done
    && (sys.sinkMayFail || sys.bad(ResultOf(sys, s.popped - 1)))
    && t == s.(consumer := Dead)
  }

  /** The order queue is empty and closed. */
  ghost predicate Finish<R>(s: State<R>, t: State<R>) {
    s.consumer.Idle? && s.popped == s.pushed && s.dispatcher.Closed? && t == s.(consumer := Finished)
  }

  ghost predicate Step<J, R>(sys: System<J, R>, s: State<R>, t: State<R>) {
    || Push(sys, s, t) || TrySend(sys, s, t) || Unblock(s, t) || Close(sys, s, t) || Abort(s, t)
    || (exists w: nat :: Take(s, t, w)) || (exists w: nat :: Deliver(s, t, w))
    || Pop(s, t) || Write(sys, s, t) || GiveUp(sys, s, t) || Finish(s, t)
  }

  /** Everybody has come to an end: threads joined. */
  ghost predicate Terminal<R>(s: State<R>) {
    && (s.dispatcher.Closed? || s.dispatcher.Gone?) && (s.consumer.Finished? || s.consumer.Dead?)
    && (forall w :: 0 <= w < |s.queues| ==> s.queues[w].None?)
    && (forall w :: 0 <= w < |s.busy| ==> s.busy[w].None?)
  }

  /** The whole pipeline returns success. */
  predicate Succeeded<R>(s: State<R>) { s.dispatcher.Closed? && s.consumer.Finished? }

  ghost predicate Run<J, R>(sys: System<J, R>, run: seq<State<R>>) {
    && run != [] && run[0] == Initial(sys)
    && forall i :: 0 <= i < |run| - 1 ==> Step(sys, run[i], run[i + 1])
  }

  // -------- what every step keeps --------

  predicate InHand<R>(s: State<R>, k: nat) {
    (s.dispatcher.Placing? || s.dispatcher.Blocked?) && s.pushed == k + 1
  }

  predicate Queued<R>(s: State<R>, k: nat) {
    Some(k) in s.queues || Some(k) in s.busy
  }

  ghost predicate Shape<J, R>(sys: System<J, R>, s: State<R>) {
    && sys.workers >= 1 && |s.queues| == sys.workers && |s.busy| == sys.workers
    && s.popped <= s.pushed <= |sys.entries| && s.pushed - s.popped <= OrderCapacity(sys)
    && (s.dispatcher.Placing? || s.dispatcher.Blocked? ==> s.dispatcher.slot < sys.workers && s.pushed > 0)
    && (s.dispatcher.Closed? ==> s.pushed == |sys.entries|)
    && (s.dispatcher.Gone? ==> s.consumer.Dead?)
    && (s.consumer.Waiting? || s.consumer.Dead? ==> s.popped > 0)
    && (s.consumer.Finished? ==> s.dispatcher.Closed? && s.popped == s.pushed)
  }

  /** No slot is forgotten: its result is there, or a worker or the dispatcher still has its job. */
  ghost predicate NothingLost<R>(s: State<R>) {
    forall k: nat :: k < s.pushed ==> k in s.done || Queued(s, k) || InHand(s, k)
  }

  /** The consumer has written the results of the first slots, in order, all of them good. */
  ghost predicate InOrder<J, R>(sys: System<J, R>, s: State<R>) {
    && |s.written| == s.popped - (if s.consumer.Waiting? || s.consumer.Dead? then 1 else 0)
    && |s.written| <= |sys.entries|
    && (forall k :: 0 <= k < |s.written| ==> s.written[k] == ResultOf(sys, k) && !sys.bad(s.written[k]))
    && (s.consumer.Dead? ==>
          |s.written| < |sys.entries| && (sys.sinkMayFail || sys.bad(ResultOf(sys, |s.written|))))
  }

  ghost predicate Inv<J, R>(sys: System<J, R>, s: State<R>) {
    Shape(sys, s) && NothingLost(s) && InOrder(sys, s)
  }

  lemma InitialKeeps<J, R>(sys: System<J, R>)
    requires sys.workers >= 1
    ensures Inv(sys, Initial(sys))
  {
  }

  lemma ShapeStep<J, R>(sys: System<J, R>, s: State<R>, t: State<R>)
    requires Shape(sys, s) && Step(sys, s, t)
    ensures Shape(sys, t)
  {
  }

  lemma InOrderStep<J, R>(sys: System<J, R>, s: State<R>, t: State<R>)
    requires Shape(sys, s) && InOrder(sys, s) && Step(sys, s, t)
    ensures InOrder(sys, t)
  {
  }

  lemma QueuedAfter<R>(s: State<R>, t: State<R>, k: nat, w: nat)
    requires Queued(s, k) && (Take(s, t, w) || Deliver(s, t, w))
    ensures k in t.done || Queued(t, k)
  {
    if Some(k) in s.queues {
      var v :| 0 <= v < |s.queues| && s.queues[v] == Some(k);
      if Take(s, t, w) && v == w {
        assert t.busy[w] == Some(k);
      } else {
        assert t.queues[v] == Some(k);
      }
    } else {
      var v :| 0 <= v < |s.busy| && s.busy[v] == Some(k);
      if v != w {
        assert t.busy[v] == Some(k);
      }
    }
  }

  lemma PlacedAfter<R>(s: State<R>, t: State<R>, k: nat, slot: nat)
    requires slot < |s.queues| && s.queues[slot].None? && s.pushed > 0
    requires t == s.(dispatcher := Ready, queues := s.queues[slot := Some(s.pushed - 1)])
    requires Queued(s, k) || k == s.pushed - 1
    ensures Queued(t, k)
  {
    if k == s.pushed - 1 {
      assert t.queues[slot] == Some(k);
    } else if Some(k) in s.queues {
      var v :| 0 <= v < |s.queues| && s.queues[v] == Some(k);
      assert t.queues[v] == Some(k);
    }
  }

  lemma NothingLostStep<J, R>(sys: System<J, R>, s: State<R>, t: State<R>)
    requires Shape(sys, s) && NothingLost(s) && Step(sys, s, t)
    ensures NothingLost(t)
  {
    forall k: nat | k < t.pushed ensures k in t.done || Queued(t, k) || InHand(t, k) {
      if k < s.pushed {
        assert k in s.done || Queued(s, k) || InHand(s, k);
      }
      if w: nat :| Take(s, t, w) {
        if Queued(s, k) {
          QueuedAfter(s, t, k, w);
        }
      } else if w: nat :| Deliver(s, t, w) {
        if Queued(s, k) {
          QueuedAfter(s, t, k, w);
        }
      } else if t.queues != s.queues {
        if Queued(s, k) || InHand(s, k) {
          PlacedAfter(s, t, k, s.dispatcher.slot);
        }
      }
    }
  }

  lemma StepKeeps<J, R>(sys: System<J, R>, s: State<R>, t: State<R>)
    requires Inv(sys, s) && Step(sys, s, t)
    ensures Inv(sys, t)
  {
    hide Shape, NothingLost, InOrder, Step;
    ShapeStep(sys, s, t);
    NothingLostStep(sys, s, t);
    InOrderStep(sys, s, t);
  }

  // -------- never stuck --------

  /** Unless everybody has ended, some step is possible: in particular also while the order queue is
      full, while every worker's queue is full, and after the consumer has given up. */
  lemma Progress<J, R>(sys: System<J, R>, s: State<R>)
    requires Inv(sys, s) && !Terminal(s)
    ensures exists t :: Step(sys, s, t)
  {
    if w: nat :| w < |s.busy| && s.busy[w].Some? {
      var t := s.(busy := s.busy[w := None], done := s.done + {s.busy[w].value});
      assert Deliver(s, t, w);
      assert Step(sys, s, t);
    } else if w: nat :| w < |s.queues| && s.queues[w].Some? {
      var t := s.(queues := s.queues[w := None], busy := s.busy[w := s.queues[w]]);
      assert Take(s, t, w);
      assert Step(sys, s, t);
    } else {
      IdleWorkers(sys, s);
    }
  }

  /** With all workers idle, it is the dispatcher's or the consumer's turn. */
  lemma IdleWorkers<J, R>(sys: System<J, R>, s: State<R>)
    requires Inv(sys, s) && !Terminal(s)
    requires forall w :: 0 <= w < |s.queues| ==> s.queues[w].None?
    requires forall w :: 0 <= w < |s.busy| ==> s.busy[w].None?
    ensures exists t :: Step(sys, s, t)
  {
    match s.dispatcher {
      case Placing(slot, left) =>
        assert Step(sys, s, s.(dispatcher := Ready, queues := s.queues[slot := Some(s.pushed - 1)]));
      case Blocked(slot) =>
        assert Step(sys, s, s.(dispatcher := Ready, queues := s.queues[slot := Some(s.pushed - 1)]));
      case Ready =>
        if s.pushed == |sys.entries| {
          assert Step(sys, s, s.(dispatcher := Closed));
        } else if s.consumer.Dead? {
          assert Step(sys, s, s.(dispatcher := Gone));
        } else if s.pushed - s.popped < OrderCapacity(sys) {
          PushStep(sys, s);
        } else {
          ConsumerStep(sys, s);
        }
      case Closed => ConsumerStep(sys, s);
      case Gone =>
    }
  }

  lemma PushStep<J, R>(sys: System<J, R>, s: State<R>)
    requires Inv(sys, s) && s.dispatcher.Ready? && s.pushed < |sys.entries| && !s.consumer.Dead?
    requires s.pushed - s.popped < OrderCapacity(sys)
    ensures exists t :: Step(sys, s, t)
  {
    if sys.entries[s.pushed].Direct? {
      assert Step(sys, s, s.(pushed := s.pushed + 1, done := s.done + {s.pushed}));
    } else {
      var t := s.(pushed := s.pushed + 1, dispatcher := Placing(0, sys.workers));
      assert Offer(sys, s.(pushed := s.pushed + 1), t, 0, sys.workers);
      assert Step(sys, s, t);
    }
  }

  lemma ConsumerStep<J, R>(sys: System<J, R>, s: State<R>)
    requires Inv(sys, s) && !s.consumer.Dead? && !s.consumer.Finished?
    requires s.dispatcher.Ready? || s.dispatcher.Closed?
    requires s.consumer.Idle? ==> s.dispatcher.Closed? || s.popped < s.pushed
    requires forall w :: 0 <= w < |s.queues| ==> s.queues[w].None?
    requires forall w :: 0 <= w < |s.busy| ==> s.busy[w].None?
    ensures exists t :: Step(sys, s, t)
  {
    if s.consumer.Idle? {
      if s.popped < s.pushed {
        assert Step(sys, s, s.(popped := s.popped + 1, consumer := Waiting));
      } else {
        assert Step(sys, s, s.(consumer := Finished));
      }
    } else {
      var k: nat := s.popped - 1;
      assert k in s.done || Queued(s, k) || InHand(s, k);
      var r := ResultOf(sys, k);
      if sys.bad(r) {
        assert Step(sys, s, s.(consumer := Dead));
      } else {
        assert Step(sys, s, s.(consumer := Idle, written := s.written + [r]));
      }
    }
  }

  // -------- every run ends --------

  function Count(slots: seq<Option<nat>>): nat {
    if slots == [] then 0 else (if slots[0].Some? then 1 else 0) + Count(slots[1..])
  }

  lemma {:induction false} CountUpdate(slots: seq<Option<nat>>, w: nat, x: Option<nat>)
    requires w < |slots|
    ensures Count(slots[w := x]) == Count(slots) - (if slots[w].Some? then 1 else 0) + (if x.Some? then 1 else 0)
  {
    if w > 0 {
      assert slots[w := x][1..] == slots[1..][w - 1 := x];
      CountUpdate(slots[1..], w - 1, x);
    } else {
      assert slots[w := x][1..] == slots[1..];
    }
  }

  /** How much the dispatcher still has to do with the job in its hands. */
  function HandRank(d: Dispatcher): nat {
    match d
    case Ready => 1
    case Placing(_, left) => 6 + left
    case Blocked(_) => 5
    case Closed => 0
    case Gone => 0
  }

  function ConsumerRank(c: Consumer): nat {
    match c
    case Idle => 1
    case Waiting => 2
    case Finished => 0
    case Dead => 0
  }

  /** A bound on the number of steps still to come. */
  function Rank<J, R>(sys: System<J, R>, s: State<R>): nat
    requires s.popped <= s.pushed <= |sys.entries|
  {
    Unpushed(sys.workers, |sys.entries| - s.pushed) + HandRank(s.dispatcher) + 2 * Count(s.queues) + Count(s.busy)
    + 2 * (s.pushed - s.popped) + ConsumerRank(s.consumer)
  }

  function Unpushed(workers: nat, n: nat): nat { (workers + 10) * n }

  lemma UnpushedStep(workers: nat, n: nat)
    requires n > 0
    ensures Unpushed(workers, n) == Unpushed(workers, n - 1) + workers + 10
  {
  }

  lemma StepDecreases<J, R>(sys: System<J, R>, s: State<R>, t: State<R>)
    requires Shape(sys, s) && Shape(sys, t) && Step(sys, s, t)
    ensures Rank(sys, t) < Rank(sys, s)
  {
    hide Count, Unpushed;
    if s.pushed < |sys.entries| {
      UnpushedStep(sys.workers, |sys.entries| - s.pushed);
    }
    if w: nat :| Take(s, t, w) {
      CountUpdate(s.queues, w, None);
      CountUpdate(s.busy, w, s.queues[w]);
    } else if w: nat :| Deliver(s, t, w) {
      CountUpdate(s.busy, w, None);
    } else if s.dispatcher.Placing? || s.dispatcher.Blocked? {
      CountUpdate(s.queues, s.dispatcher.slot, Some(s.pushed - 1));
    }
  }

  // -------- whole runs --------

  lemma {:induction false} RunKeeps<J, R>(sys: System<J, R>, run: seq<State<R>>, i: nat)
    requires sys.workers >= 1 && Run(sys, run) && i < |run|
    ensures Inv(sys, run[i])
  {
    hide Inv, Step;
    if i == 0 {
      InitialKeeps(sys);
    } else {
      RunKeeps(sys, run, i - 1);
      StepKeeps(sys, run[i - 1], run[i]);
    }
  }

  /** No run is longer than the rank of the initial state allows. */
  lemma {:induction false} RunsEnd<J, R>(sys: System<J, R>, run: seq<State<R>>, i: nat)
    requires sys.workers >= 1 && Run(sys, run) && i < |run|
    ensures Inv(sys, run[i]) && i + Rank(sys, run[i]) <= Unpushed(sys.workers, |sys.entries|) + 2
  {
    RunKeeps(sys, run, i);
    if i == 0 {
      NothingQueued(sys.workers);
    } else {
      RunsEnd(sys, run, i - 1);
      hide Step, Rank;
      RunKeeps(sys, run, i - 1);
      StepDecreases(sys, run[i - 1], run[i]);
    }
  }

  lemma {:induction false} NothingQueued(n: nat)
    ensures Count(Free(n)) == 0
  {
    if n > 0 {
      NothingQueued(n - 1);
    }
  }

  /** A run that cannot go on has come to the proper end. */
  lemma StuckIsTerminal<J, R>(sys: System<J, R>, run: seq<State<R>>, last: State<R>)
    requires sys.workers >= 1 && Run(sys, run) && last == run[|run| - 1]
    ensures Terminal(last) || exists t :: Step(sys, last, t)
  {
    hide Inv, Step, Terminal;
    RunKeeps(sys, run, |run| - 1);
    if !Terminal(last) {
      Progress(sys, last);
    }
  }

  /** For every interleaving: what is written is always a prefix of the single-threaded results, and
      a pipeline that ends with success has written all of them, all good. */
  lemma WrittenInOrder<J, R>(sys: System<J, R>, run: seq<State<R>>)
    requires sys.workers >= 1 && Run(sys, run)
    ensures var s := run[|run| - 1];
            && s.written <= Results(sys)
            && (Succeeded(s) ==> s.written == Results(sys) && forall r <- Results(sys) :: !sys.bad(r))
  {
    RunKeeps(sys, run, |run| - 1);
  }

  /** With a sink that accepts everything, a finished pipeline has succeeded exactly when no result
      is bad; otherwise it wrote the results before the first bad one. */
  lemma EndedRun<J, R>(sys: System<J, R>, run: seq<State<R>>)
    requires sys.workers >= 1 && Run(sys, run) && Terminal(run[|run| - 1]) && !sys.sinkMayFail
    ensures var s := run[|run| - 1];
            && (Succeeded(s) <==> forall r <- Results(sys) :: !sys.bad(r))
            && (!Succeeded(s) ==> |s.written| < |Results(sys)| && sys.bad(Results(sys)[|s.written|]))
  {
    RunKeeps(sys, run, |run| - 1);
    WrittenInOrder(sys, run);
    var s := run[|run| - 1];
    if !Succeeded(s) {
      assert s.consumer.Dead?;
      assert Results(sys)[|s.written|] in Results(sys);
    }
  }
}
