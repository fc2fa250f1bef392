/** What every run of the blocking-queue protocol keeps: mutual exclusion, history, and no lost wakeup. */
module QueueSafety {
  import opened Strings
  import opened BlockingQueue

  // ----- what every reachable state satisfies

  predicate ConsumerOwns(pc: ConsumerPc) {
    pc.Check? || pc.AboutToWait? || pc.Decide?
  }

  /** The mutex excludes: its owner, and only its owner, is at a point that holds it. */
  predicate MutexOk<T>(s: State<T>) {
    (s.owner.Consumer? <==> ConsumerOwns(s.consumer)) &&
    (s.owner.Thread? ==> s.owner.id < |s.threads|) &&
    forall i :: 0 <= i < |s.threads| ==> (Owns(s.threads[i]) <==> s.owner == Thread(i))
  }

  /** About to notify because of a change already made. */
  predicate WillNotify<T>(pc: Pc<T>) {
    pc.PushNotify? || pc.CompleteNotify? || pc.FailNotify? || pc.StopPick? || InCallback(pc)
  }

  predicate Pending<T>(s: State<T>) {
    exists i :: 0 <= i < |s.threads| && WillNotify(s.threads[i])
  }

  /** Requested to stop, but the callback has not got the mutex yet. */
  predicate StopUnseen<T>(s: State<T>) {
    exists i :: 0 <= i < |s.threads| && (s.threads[i].StopPick? || s.threads[i].StopLock?)
  }

  predicate Asleepish(pc: ConsumerPc) {
    pc.WantLock? || pc.Check? || pc.AboutToWait? || pc.Asleep?
  }

  predicate HasWork<T>(s: State<T>) {
    s.shared.queue != [] || s.shared.complete || s.stop
  }

  /** No lost wakeup: a sleeping consumer with something to find is about to be notified. */
  predicate NoLostWakeup<T>(s: State<T>) {
    s.consumer.Asleep? && HasWork(s) ==> Pending(s)
  }

  lemma InitialInv<T>(n: nat)
    ensures Inv<T>(Initial(n))
  {
  }

  lemma TakenOne<T>(results: seq<Result<T>>, r: Result<T>)
    ensures Taken(results + [r]) == Taken(results) + if r.Took? then [r.value] else []
  {
    assert Front(results + [r]) == results;
  }

  /** The part of the invariant that concerns the consumer's control point. */
  ghost predicate ControlOk<T>(s: State<T>) {
    (s.consumer.AboutToWait? ==> s.shared.queue == [] && !s.shared.complete && (s.stop ==> StopUnseen(s))) &&
    (s.consumer.AboutToWait? || s.consumer.Asleep? ==> s.registered) && (s.consumer.InlineCallback? ==> s.stop) &&
    (Asleepish(s.consumer) && !s.stop ==> s.registered) &&
    (s.consumer.Decide? ==> !MustWait(s.shared, s.stop))
  }

  /** The part that concerns the data. */
  ghost predicate HistoryOk<T>(s: State<T>) {
    (s.shared.except.Some? ==> s.shared.complete) && s.accepted == Taken(s.results) + s.shared.queue
  }

  ghost predicate Inv<T>(s: State<T>) {
    MutexOk(s) && NoLostWakeup(s) && ControlOk(s) && HistoryOk(s)
  }

  lemma ConsumerKeepsMutex<T>(s: State<T>)
    requires MutexOk(s) && StepConsumer(s).Some?
    ensures MutexOk(StepConsumer(s).value)
  {
    hide DecideBody, DecideResult, MustWait, InCallback;
  }

  lemma ConsumerKeepsControl<T>(s: State<T>)
    requires ControlOk(s) && StepConsumer(s).Some?
    ensures ControlOk(StepConsumer(s).value)
  {
    hide DecideBody, DecideResult, InCallback;
  }

  lemma ConsumerKeepsWakeup<T>(s: State<T>)
    requires ControlOk(s) && NoLostWakeup(s) && StepConsumer(s).Some?
    ensures NoLostWakeup(StepConsumer(s).value)
  {
    hide DecideBody, DecideResult, InCallback;
    var t := StepConsumer(s).value;
    if s.consumer.AboutToWait? && s.stop {
      var i :| 0 <= i < |s.threads| && (s.threads[i].StopPick? || s.threads[i].StopLock?);
      assert InCallback(s.threads[i]) || s.threads[i].StopPick? by {
        StopPointsNotify(s.threads[i]);
      }
      assert WillNotify(t.threads[i]);
    }
  }

  lemma StopPointsNotify<T>(pc: Pc<T>)
    ensures pc.StopPick? || pc.StopLock? ==> WillNotify(pc) && (InCallback(pc) || pc.StopPick?)
  {
  }

  lemma ConsumerKeepsHistory<T>(s: State<T>)
    requires HistoryOk(s) && StepConsumer(s).Some?
    ensures HistoryOk(StepConsumer(s).value)
  {
    hide InCallback, MustWait, Taken, DecideResult, DecideBody;
    if s.consumer.Decide? {
      TakenOne(s.results, DecideResult(s.shared, s.stop));
      DecideTakesFirst(s.shared, s.stop);
      var t := StepConsumer(s).value;
      assert Taken(t.results) + t.shared.queue == Taken(s.results) + s.shared.queue;
    }
  }

  /** What take delivers, in front of what it leaves, is what was queued. */
  lemma DecideTakesFirst<T>(q: Shared<T>, stop: bool)
    ensures var r, q' := DecideResult(q, stop), DecideBody(q, stop);
      (if r.Took? then [r.value] else []) + q'.queue == q.queue && q'.complete == q.complete && q'.except == q.except
  {
  }

  lemma ConsumerKeepsInv<T>(s: State<T>)
    requires Inv(s) && StepConsumer(s).Some?
    ensures Inv(StepConsumer(s).value)
  {
    hide MutexOk, NoLostWakeup, ControlOk, HistoryOk, StepConsumer;
    ConsumerKeepsMutex(s);
    ConsumerKeepsWakeup(s);
    ConsumerKeepsControl(s);
    ConsumerKeepsHistory(s);
  }

  lemma TakeKeepsInv<T>(s: State<T>)
    requires Inv(s) && s.consumer.Away?
    ensures Inv(s.(consumer := Register))
  {
  }

  /** A thread that moves without dropping a duty keeps every pending duty pending. */
  lemma DutiesStay<T>(s: State<T>, id: nat, pc: Pc<T>)
    requires id < |s.threads|
    requires WillNotify(s.threads[id]) ==> WillNotify(pc)
    ensures Pending(s) ==> Pending(Goto(s, id, pc))
  {
    var t := Goto(s, id, pc);
    if Pending(s) {
      var i :| 0 <= i < |s.threads| && WillNotify(s.threads[i]);
      assert WillNotify(t.threads[i]);
    }
  }

  lemma StopStays<T>(s: State<T>, id: nat, pc: Pc<T>)
    requires id < |s.threads|
    requires s.threads[id].StopPick? || s.threads[id].StopLock? ==> pc.StopPick? || pc.StopLock?
    ensures StopUnseen(s) ==> StopUnseen(Goto(s, id, pc))
  {
    var t := Goto(s, id, pc);
    if StopUnseen(s) {
      var i :| 0 <= i < |s.threads| && (s.threads[i].StopPick? || s.threads[i].StopLock?);
      assert t.threads[i].StopPick? || t.threads[i].StopLock?;
    }
  }

  lemma CallKeepsInv<T>(s: State<T>, id: nat, call: Call<T>)
    requires Inv(s) && id < |s.threads| && BeginCall(s, id, call).Some?
    ensures Inv(BeginCall(s, id, call).value)
  {
    var t := BeginCall(s, id, call).value;
    DutiesStay(s, id, t.threads[id]);
    StopStays(s, id, t.threads[id]);
    assert t.threads == Goto(s, id, t.threads[id]).threads;
    if call.RequestStop? && !s.stop {
      assert t.threads[id].StopPick? && WillNotify(t.threads[id]);
    }
  }

  lemma ThreadKeepsMutex<T>(s: State<T>, id: nat)
    requires MutexOk(s) && id < |s.threads| && StepThread(s, id).Some?
    ensures MutexOk(StepThread(s, id).value)
  {
    hide NextShared;
    var t, pc, pc' := StepThread(s, id).value, s.threads[id], NextPc(s, s.threads[id]);
    assert Wants(pc) ==> !Owns(pc) && (Owns(pc') || pc.StopPick?);
    assert Owns(pc') ==> Owns(pc) || Wants(pc);
    forall i | 0 <= i < |t.threads|
      ensures Owns(t.threads[i]) <==> t.owner == Thread(i)
    {
      if i != id {
        assert t.threads[i] == s.threads[i];
      }
    }
  }

  /** While the consumer is asleep, no duty it depends on is dropped without a notification. */
  lemma ThreadKeepsWakeup<T>(s: State<T>, id: nat)
    requires ControlOk(s) && NoLostWakeup(s) && id < |s.threads| && StepThread(s, id).Some?
    ensures NoLostWakeup(StepThread(s, id).value)
  {
    var t := StepThread(s, id).value;
    var pc' := t.threads[id];
    if t.consumer.Asleep? && HasWork(t) {
      if WillNotify(pc') {
        assert Pending(t);
      } else {
        DutiesStay(s, id, pc');
        assert t.threads == Goto(s, id, pc').threads;
      }
    }
  }

  lemma ThreadKeepsControl<T>(s: State<T>, id: nat)
    requires MutexOk(s) && ControlOk(s) && id < |s.threads| && StepThread(s, id).Some?
    ensures ControlOk(StepThread(s, id).value)
  {
    var t := StepThread(s, id).value;
    if t.consumer.AboutToWait? {
      assert s.consumer.AboutToWait? && s.owner.Consumer? && !Owns(s.threads[id]);
      StopStays(s, id, t.threads[id]);
      assert t.threads == Goto(s, id, t.threads[id]).threads;
    }
  }

  /** What a thread's step can do to the data. */
  lemma ThreadData<T>(s: State<T>, id: nat)
    requires id < |s.threads| && StepThread(s, id).Some?
    ensures var t, pc := StepThread(s, id).value, s.threads[id];
      t.results == s.results &&
      (if pc.PushHold? && !s.shared.complete
       then t.accepted == s.accepted + [pc.value] && t.shared == s.shared.(queue := s.shared.queue + [pc.value])
       else t.accepted == s.accepted && t.shared.queue == s.shared.queue) &&
      (s.shared.complete ==> t.shared == s.shared) && (t.shared.except != s.shared.except ==> t.shared.complete)
  {
  }

  lemma ThreadKeepsHistory<T>(s: State<T>, id: nat)
    requires HistoryOk(s) && id < |s.threads| && StepThread(s, id).Some?
    ensures HistoryOk(StepThread(s, id).value)
  {
    hide StepThread, Taken;
    ThreadData(s, id);
    if s.threads[id].PushHold? && !s.shared.complete {
      var v := s.threads[id].value;
      assert Taken(s.results) + s.shared.queue + [v] == Taken(s.results) + (s.shared.queue + [v]);
    }
  }

  lemma ThreadKeepsInv<T>(s: State<T>, id: nat)
    requires Inv(s) && id < |s.threads| && StepThread(s, id).Some?
    ensures Inv(StepThread(s, id).value)
  {
    hide MutexOk, NoLostWakeup, ControlOk, HistoryOk, StepThread;
    ThreadKeepsMutex(s, id);
    ThreadKeepsWakeup(s, id);
    ThreadKeepsControl(s, id);
    ThreadKeepsHistory(s, id);
  }

  /** Every action keeps the invariant. */
  lemma StepKeepsInv<T>(s: State<T>, a: Action<T>)
    requires Inv(s) && Step(s, a).Some?
    ensures Inv(Step(s, a).value)
  {
    match a
    case TakeCall => TakeKeepsInv(s);
    case ConsumerStep => ConsumerKeepsInv(s);
    case CallBy(id, call) => CallKeepsInv(s, id, call);
    case ThreadStep(id) => ThreadKeepsInv(s, id);
  }

  lemma {:induction false} ExecKeepsInv<T>(s: State<T>, actions: seq<Action<T>>)
    requires Inv(s) && Exec(s, actions).Some?
    ensures Inv(Exec(s, actions).value)
    decreases |actions|
  {
    if actions != [] {
      StepKeepsInv(s, actions[0]);
      ExecKeepsInv(Step(s, actions[0]).value, actions[1..]);
    }
  }

  predicate Reachable<T>(n: nat, actions: seq<Action<T>>) {
    Exec(Initial<T>(n), actions).Some?
  }

  // ----- main results

  /**
   In every reachable state, with one consumer and any number of callers: a sleeping consumer that could find an item,
   completion, failure or a stop request is about to be notified.
   */
  lemma NoWakeupIsLost<T>(n: nat, actions: seq<Action<T>>)
    requires Reachable(n, actions)
    ensures NoLostWakeup(Exec(Initial<T>(n), actions).value)
  {
    InitialInv<T>(n);
    ExecKeepsInv(Initial<T>(n), actions);
  }

  /**
   In every interleaving, the accepted pushes in lock order are the values delivered followed by those still queued.
   */
  lemma HistoryIsConserved<T>(n: nat, actions: seq<Action<T>>)
    requires Reachable(n, actions)
    ensures var s := Exec(Initial<T>(n), actions).value; s.accepted == Taken(s.results) + s.shared.queue
  {
    InitialInv<T>(n);
    ExecKeepsInv(Initial<T>(n), actions);
  }

  /** The mutex never has two owners. */
  lemma MutexIsExclusive<T>(n: nat, actions: seq<Action<T>>, i: nat, j: nat)
    requires Reachable(n, actions)
    ensures var s := Exec(Initial<T>(n), actions).value;
      (i < |s.threads| && j < |s.threads| && Owns(s.threads[i]) && Owns(s.threads[j]) ==> i == j) &&
      (i < |s.threads| && Owns(s.threads[i]) ==> !ConsumerOwns(s.consumer))
  {
    InitialInv<T>(n);
    ExecKeepsInv(Initial<T>(n), actions);
  }

  /** Take returns nothing only when stopped, or when completed with every accepted value delivered. */
  lemma NothingMeansDrained<T>(n: nat, actions: seq<Action<T>>)
    requires Reachable(n, actions)
    ensures var s := Exec(Initial<T>(n), actions).value;
      s.consumer.Decide? && DecideResult(s.shared, s.stop).Nothing? && !s.stop ==>
        s.shared.complete && s.shared.except.None? && s.accepted == Taken(s.results)
  {
    InitialInv<T>(n);
    ExecKeepsInv(Initial<T>(n), actions);
    var s := Exec(Initial<T>(n), actions).value;
    assert Taken(s.results) + [] == Taken(s.results);
  }

  predicate AllThrow<T>(results: seq<Result<T>>, from: nat, e: Error) {
    forall i :: from <= i < |results| ==> results[i] == Threw(e)
  }

  lemma StepAfterFail<T>(s: State<T>, a: Action<T>, e: Error)
    requires s.shared.complete && s.shared.except == Some(e) && Step(s, a).Some?
    ensures var t := Step(s, a).value;
      t.shared == s.shared && t.accepted == s.accepted &&
        (t.results == s.results || t.results == s.results + [Threw(e)])
  {
    if a.ThreadStep? {
      hide StepThread;
      ThreadData(s, a.id);
    }
  }

  /** Once a failure has taken effect, every later take throws it, nothing is delivered and nothing is accepted. */
  lemma {:induction false} FailureIsFinal<T>(s: State<T>, actions: seq<Action<T>>, e: Error)
    requires s.shared.complete && s.shared.except == Some(e) && Exec(s, actions).Some?
    ensures var t := Exec(s, actions).value;
      t.shared == s.shared && t.accepted == s.accepted && Taken(t.results) == Taken(s.results) &&
      s.results <= t.results && AllThrow(t.results, |s.results|, e)
    decreases |actions|
  {
    hide Step;
    if actions != [] {
      var t := Step(s, actions[0]).value;
      StepAfterFail(s, actions[0], e);
      TakenOne(s.results, Threw(e));
      FailureIsFinal(t, actions[1..], e);
    }
  }

  /** Once completed, nothing more is accepted. */
  lemma {:induction false} CompletionIsFinal<T>(s: State<T>, actions: seq<Action<T>>)
    requires s.shared.complete && Exec(s, actions).Some?
    ensures var t := Exec(s, actions).value;
      t.shared.complete && t.shared.except == s.shared.except && t.accepted == s.accepted
    decreases |actions|
  {
    hide Step;
    if actions != [] {
      StepAfterComplete(s, actions[0]);
      CompletionIsFinal(Step(s, actions[0]).value, actions[1..]);
    }
  }

  lemma StepAfterComplete<T>(s: State<T>, a: Action<T>)
    requires s.shared.complete && Step(s, a).Some?
    ensures var t := Step(s, a).value;
      t.shared.complete && t.shared.except == s.shared.except && t.accepted == s.accepted
  {
    if a.ThreadStep? {
      hide StepThread;
      ThreadData(s, a.id);
    }
  }

  // ----- what each call does

  /** A push puts its value behind all others, unless the queue is complete. */
  lemma PushTakesEffect<T>(s: State<T>, id: nat, v: T)
    requires id < |s.threads| && s.threads[id] == PushHold(v)
    ensures var t := Step(s, ThreadStep(id));
      t.Some? && t.value.results == s.results &&
      t.value.shared == if s.shared.complete then s.shared
                        else Shared(s.shared.queue + [v], false, s.shared.except)
  {
  }

  /** Complete ends the queue and keeps what is in it. */
  lemma CompleteTakesEffect<T>(s: State<T>, id: nat)
    requires id < |s.threads| && s.threads[id] == CompleteHold
    ensures var t := Step(s, ThreadStep(id));
      t.Some? && t.value.results == s.results && t.value.shared == Shared(s.shared.queue, true, s.shared.except)
  {
  }

  /** Fail ends the queue and records its exception, unless the queue is complete already. */
  lemma FailTakesEffect<T>(s: State<T>, id: nat, e: Error)
    requires id < |s.threads| && s.threads[id] == FailHold(e)
    ensures var t := Step(s, ThreadStep(id));
      t.Some? && t.value.results == s.results &&
      t.value.shared == if s.shared.complete then s.shared else Shared(s.shared.queue, true, Some(e))
  {
  }

  /** A stop request is possible at any time and changes no data. */
  lemma StopTakesEffect<T>(s: State<T>, id: nat)
    requires id < |s.threads| && s.threads[id].Idle?
    ensures var t := Step(s, CallBy(id, RequestStop));
      t.Some? && t.value.stop && t.value.shared == s.shared && t.value.results == s.results
  {
  }

  /** The failure of an open queue is what every later take throws, in every run. */
  lemma FailureIsThrown<T>(s: State<T>, id: nat, e: Error, actions: seq<Action<T>>)
    requires id < |s.threads| && s.threads[id] == FailHold(e) && !s.shared.complete
    requires Exec(s, [ThreadStep(id)] + actions).Some?
    ensures var t := Exec(s, [ThreadStep(id)] + actions).value;
      s.results <= t.results && AllThrow(t.results, |s.results|, e) && t.accepted == s.accepted &&
      t.shared == Shared(s.shared.queue, true, Some(e))
  {
    hide Step;
    var all := [ThreadStep(id)] + actions;
    FailTakesEffect(s, id, e);
    assert all[1..] == actions;
    FailKeepsAccepted(s, id, e);
    FailureIsFinal(Step(s, ThreadStep(id)).value, actions, e);
  }

  lemma FailKeepsAccepted<T>(s: State<T>, id: nat, e: Error)
    requires id < |s.threads| && s.threads[id] == FailHold(e)
    ensures Step(s, ThreadStep(id)).Some? && Step(s, ThreadStep(id)).value.accepted == s.accepted
  {
  }

  /** A take that has left the wait loop, in any reachable state: its answer, and what it leaves. */
  lemma TakeAnswers<T>(n: nat, actions: seq<Action<T>>)
    requires Reachable(n, actions) && Exec(Initial<T>(n), actions).value.consumer.Decide?
    ensures var s := Exec(Initial<T>(n), actions).value;
      Step(s, ConsumerStep).Some? &&
      var t := Step(s, ConsumerStep).value;
      t.results == s.results + [Last(t.results)] && t.accepted == s.accepted && t.stop == s.stop &&
      match s.shared.except
      case Some(e) => Last(t.results) == Threw(e) && t.shared == s.shared
      case None =>
        if s.stop then Last(t.results) == Nothing && t.shared == s.shared
        else if s.shared.queue != [] then
          Last(t.results) == Took(s.shared.queue[0]) && [s.shared.queue[0]] + t.shared.queue == s.shared.queue &&
          t.shared.complete == s.shared.complete && t.shared.except.None?
        else Last(t.results) == Nothing && t.shared == s.shared && s.shared.complete
  {
    InitialInv<T>(n);
    ExecKeepsInv(Initial<T>(n), actions);
  }

  /** fail, then take, with nothing else going on: take throws. */
  lemma FailThenTake<T>(s: State<T>, id: nat, e: Error)
    requires id < |s.threads| && s.threads[id].Idle? && s.owner.Free? && s.consumer.Away?
    requires !s.shared.complete && !s.stop
    ensures var failing := [CallBy(id, Fail(e)), ThreadStep(id), ThreadStep(id), ThreadStep(id)];
      var taking := [TakeCall, ConsumerStep, ConsumerStep, ConsumerStep, ConsumerStep];
      Exec(s, failing).Some? && Exec(Exec(s, failing).value, taking).Some? &&
      Exec(Exec(s, failing).value, taking).value.results == s.results + [Threw(e)]
  {
    var failing := [CallBy(id, Fail(e)), ThreadStep(id), ThreadStep(id), ThreadStep(id)];
    var taking: seq<Action<T>> := [TakeCall, ConsumerStep, ConsumerStep, ConsumerStep, ConsumerStep];
    var t := s.(threads := s.threads[id := Idle], shared := Shared(s.shared.queue, true, Some(e)));
    assert Exec(s, failing) == Some(t) by {
      FailRuns(s, id, e);
    }
    TakeThrows(t, e);
  }

  lemma FailRuns<T>(s: State<T>, id: nat, e: Error)
    requires id < |s.threads| && s.threads[id].Idle? && s.owner.Free? && s.consumer.Away? && !s.shared.complete
    ensures Exec(s, [CallBy(id, Fail(e)), ThreadStep(id), ThreadStep(id), ThreadStep(id)]) ==
      Some(s.(threads := s.threads[id := Idle], shared := Shared(s.shared.queue, true, Some(e))))
  {
    hide Exec;
    var s1 := s.(threads := s.threads[id := FailWant(e)]);
    var s2 := s.(threads := s.threads[id := FailHold(e)], owner := Thread(id));
    var s3 := s.(threads := s.threads[id := FailNotify], owner := Thread(id),
                 shared := Shared(s.shared.queue, true, Some(e)));
    var s4 := s3.(threads := s.threads[id := Idle], owner := Free);
    assert Step(s, CallBy(id, Fail(e))) == Some(s1);
    assert Step(s1, ThreadStep(id)) == Some(s2) by {
      assert s1.threads[id := FailHold(e)] == s2.threads;
    }
    assert Step(s2, ThreadStep(id)) == Some(s3) by {
      assert s2.threads[id := FailNotify] == s3.threads;
    }
    assert Step(s3, ThreadStep(id)) == Some(s4) by {
      assert s3.threads[id := Idle] == s4.threads;
    }
    hide Step;
    ExecFirst(s, [CallBy(id, Fail(e)), ThreadStep(id), ThreadStep(id), ThreadStep(id)],
      [ThreadStep(id), ThreadStep(id), ThreadStep(id)]);
    ExecFirst(s1, [ThreadStep(id), ThreadStep(id), ThreadStep(id)], [ThreadStep(id), ThreadStep(id)]);
    ExecFirst(s2, [ThreadStep(id), ThreadStep(id)], [ThreadStep(id)]);
    ExecFirst(s3, [ThreadStep(id)], []);
    ExecNone(s4);
  }

  lemma TakeThrows<T>(s: State<T>, e: Error)
    requires s.owner.Free? && s.consumer.Away? && s.shared.complete && s.shared.except == Some(e) && !s.stop
    ensures var r := Exec(s, [TakeCall, ConsumerStep, ConsumerStep, ConsumerStep, ConsumerStep]);
      r.Some? && r.value.results == s.results + [Threw(e)]
  {
    hide Exec, InCallback;
    var s1 := s.(consumer := Register);
    var s2 := s.(consumer := WantLock, registered := true);
    var s3 := s2.(consumer := Check, owner := Consumer);
    var s4 := s3.(consumer := Decide);
    ExecFirst(s, [TakeCall, ConsumerStep, ConsumerStep, ConsumerStep, ConsumerStep],
      [ConsumerStep, ConsumerStep, ConsumerStep, ConsumerStep]);
    ExecFirst(s1, [ConsumerStep, ConsumerStep, ConsumerStep, ConsumerStep],
      [ConsumerStep, ConsumerStep, ConsumerStep]);
    ExecFirst(s2, [ConsumerStep, ConsumerStep, ConsumerStep], [ConsumerStep, ConsumerStep]);
    ExecFirst(s3, [ConsumerStep, ConsumerStep], [ConsumerStep]);
    ExecFirst(s4, [ConsumerStep], []);
    ExecNone(Step(s4, ConsumerStep).value);
  }

  lemma ExecNone<T>(s: State<T>)
    ensures Exec(s, []) == Some(s)
  {
  }

  /** The first action of a run. */
  lemma ExecFirst<T>(s: State<T>, all: seq<Action<T>>, rest: seq<Action<T>>)
    requires all != [] && all == [all[0]] + rest && Step(s, all[0]).Some?
    ensures Exec(s, all) == Exec(Step(s, all[0]).value, rest)
  {
    hide Step;
    assert all[1..] == rest;
  }

  // ----- the notification does arrive

  function Rank<T>(pc: Pc<T>): nat {
    if pc.StopPick? then 4 else if pc.StopLock? then 3 else if pc.StopHold? then 2 else 1
  }

  function OwnerRank<T>(s: State<T>): nat {
    if s.owner.Thread? && s.owner.id < |s.threads| then
      if s.threads[s.owner.id].CompleteHold? || s.threads[s.owner.id].FailHold? then 2 else 1
    else 0
  }

  /** Who has to move: the notifier, or the owner of the mutex it waits for. */
  function Mover<T>(s: State<T>, i: nat): nat
    requires i < |s.threads|
  {
    if s.threads[i].StopLock? && s.owner.Thread? then s.owner.id else i
  }

  lemma MoverProgresses<T>(s: State<T>, i: nat)
    requires MutexOk(s) && ControlOk(s) && s.consumer.Asleep? && i < |s.threads| && WillNotify(s.threads[i])
    ensures var m := Mover(s, i);
      m < |s.threads| && StepThread(s, m).Some? &&
      (StepThread(s, m).value.consumer.Asleep? ==>
        var t := StepThread(s, m).value;
        i < |t.threads| && WillNotify(t.threads[i]) &&
        (Rank(t.threads[i]) < Rank(s.threads[i]) ||
          (Rank(t.threads[i]) == Rank(s.threads[i]) && OwnerRank(t) < OwnerRank(s))))
  {
    hide StopUnseen, MustWait, NextShared;
    var m := Mover(s, i);
    if m != i {
      assert Owns(s.threads[m]);
      assert StepThread(s, m).value.threads[i] == s.threads[i];
    }
  }

  /**
   A sleeping consumer is woken by steps of the threads that already run: no new call and no spurious wakeup needed.
   */
  lemma SleeperIsWoken<T>(s: State<T>, i: nat) returns (actions: seq<Action<T>>)
    requires Inv(s) && s.consumer.Asleep? && i < |s.threads| && WillNotify(s.threads[i])
    ensures Exec(s, actions).Some? && !Exec(s, actions).value.consumer.Asleep?
    ensures forall k :: 0 <= k < |actions| ==> actions[k].ThreadStep?
    decreases Rank(s.threads[i]), OwnerRank(s)
  {
    hide StepThread, MutexOk, ControlOk, HistoryOk, NoLostWakeup, Rank, OwnerRank, Mover;
    MoverProgresses(s, i);
    var mover := Mover(s, i);
    ThreadKeepsInv(s, mover);
    var t := StepThread(s, mover).value;
    if t.consumer.Asleep? {
      var rest := SleeperIsWoken(t, i);
      actions := [ThreadStep(mover)] + rest;
      assert actions[1..] == rest;
    } else {
      actions := [ThreadStep(mover)];
      assert actions[1..] == [];
    }
  }

  /** From every reachable state in which the consumer sleeps although there is work, running threads wake it. */
  lemma WorkWakesConsumer<T>(n: nat, actions: seq<Action<T>>) returns (more: seq<Action<T>>)
    requires Reachable(n, actions)
    requires var s := Exec(Initial<T>(n), actions).value; s.consumer.Asleep? && HasWork(s)
    ensures var s := Exec(Initial<T>(n), actions).value;
      Exec(s, more).Some? && !Exec(s, more).value.consumer.Asleep? &&
        forall k :: 0 <= k < |more| ==> more[k].ThreadStep?
  {
    InitialInv<T>(n);
    ExecKeepsInv(Initial<T>(n), actions);
    var s := Exec(Initial<T>(n), actions).value;
    var i :| 0 <= i < |s.threads| && WillNotify(s.threads[i]);
    more := SleeperIsWoken(s, i);
  }
}
