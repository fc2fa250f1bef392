/**
 The blocking queue as a protocol. The shared fields are changed only inside critical sections, which the class
 implements; the protocol interleaves any number of calling threads with one consumer, one atomic action at a time,
 including the gap between the consumer's last look at the stop token and its going to sleep.
 */
module BlockingQueue {
  import opened Strings

  type Error = int

  datatype Shared<T> = Shared(queue: seq<T>, complete: bool, except: Option<Error>)

  datatype Result<T> = Took(value: T) | Nothing | Threw(error: Error)

  // ----- critical sections

  function PushBody<T>(q: Shared<T>, value: T): Shared<T> {
    if q.complete then q else q.(queue := q.queue + [value])
  }

  function CompleteBody<T>(q: Shared<T>): Shared<T> {
    if q.complete then q else q.(complete := true)
  }

  function FailBody<T>(q: Shared<T>, e: Error): Shared<T> {
    if q.complete then q else q.(except := Some(e), complete := true)
  }

  /** Whether push notifies one waiter, and whether complete and fail notify all. */
  predicate PushNotifies<T>(q: Shared<T>) {
    !q.complete
  }

  predicate CompleteNotifies<T>(q: Shared<T>) {
    !q.complete && q.queue == []
  }

  predicate FailNotifies<T>(q: Shared<T>) {
    !q.complete
  }

  /** The condition of the wait loop. */
  predicate MustWait<T>(q: Shared<T>, stop: bool) {
    !stop && q.queue == [] && !q.complete
  }

  /** What take does once it leaves the wait loop. */
  function DecideResult<T>(q: Shared<T>, stop: bool): Result<T> {
    if q.except.Some? then Threw(q.except.value)
    else if stop || q.queue == [] then Nothing
    else Took(q.queue[0])
  }

  function DecideBody<T>(q: Shared<T>, stop: bool): Shared<T> {
    if DecideResult(q, stop).Took? then q.(queue := q.queue[1..]) else q
  }

  /** The queue's fields; each method is one critical section, entered with the mutex held. */
  class Queue<T> {
    var m_queue: seq<T>
    var m_except: Option<Error>
    var m_complete: bool

    constructor ()
      ensures View() == Shared([], false, None)
    {
      m_queue, m_except, m_complete := [], None, false;
    }

    function View(): Shared<T>
      reads this
    {
      Shared(m_queue, m_complete, m_except)
    }

    method PushLocked(value: T) returns (notifyOne: bool)
      modifies this
      ensures View() == PushBody(old(View()), value) && notifyOne == PushNotifies(old(View()))
    {
      if m_complete {
        return false;
      }
      m_queue := m_queue + [value];
      return true;
    }

    method TakeLocked(stopRequested: bool) returns (r: Result<T>)
      requires !MustWait(View(), stopRequested)
      modifies this
      ensures View() == DecideBody(old(View()), stopRequested) && r == DecideResult(old(View()), stopRequested)
    {
      if m_except.Some? {
        return Threw(m_except.value);
      }
      if stopRequested || m_queue == [] {
        return Nothing;
      }
      r := Took(m_queue[0]);
      m_queue := m_queue[1..];
    }

    method CompleteLocked() returns (notifyAll: bool)
      modifies this
      ensures View() == CompleteBody(old(View())) && notifyAll == CompleteNotifies(old(View()))
    {
      if m_complete {
        return false;
      }
      m_complete := true;
      return m_queue == [];
    }

    method FailLocked(except: Error) returns (notifyAll: bool)
      modifies this
      ensures View() == FailBody(old(View()), except) && notifyAll == FailNotifies(old(View()))
    {
      if m_complete {
        return false;
      }
      m_except := Some(except);
      m_complete := true;
      return true;
    }
  }

  // ----- the protocol

  /** Where a calling thread is.  The Hold and in-lock Notify points own the mutex. */
  datatype Pc<T> =
    | Idle
    | PushWant(value: T) | PushHold(value: T) | PushNotify
    | CompleteWant | CompleteHold | CompleteNotify
    | FailWant(error: Error) | FailHold(error: Error) | FailNotify
    | StopPick | StopLock | StopHold | StopNotify

  /** Where the consumer is in take.  Check, AboutToWait and Decide own the mutex. */
  datatype ConsumerPc = Away | Register | InlineCallback | WantLock | Check | AboutToWait | Asleep | Decide | Leave

  datatype Owner = Free | Consumer | Thread(id: nat)

  datatype State<T> = State(
    shared: Shared<T>, stop: bool, registered: bool, owner: Owner, consumer: ConsumerPc, threads: seq<Pc<T>>,
    accepted: seq<T>, results: seq<Result<T>>)

  datatype Call<T> = Push(value: T) | Complete | Fail(error: Error) | RequestStop

  datatype Action<T> = TakeCall | ConsumerStep | CallBy(id: nat, call: Call<T>) | ThreadStep(id: nat)

  function Initial<T>(n: nat): State<T> {
    State(Shared([], false, None), false, false, Free, Away, seq(n, _ => Idle), [], [])
  }

  /** The values delivered so far, oldest first. */
  function Taken<T>(results: seq<Result<T>>): seq<T> {
    if results == [] then [] else Taken(Front(results)) + if Last(results).Took? then [Last(results).value] else []
  }

  /** notify_one and notify_all with a single consumer. */
  function Notify<T>(s: State<T>): State<T> {
    if s.consumer.Asleep? then s.(consumer := WantLock) else s
  }

  predicate InCallback<T>(pc: Pc<T>) {
    pc.StopLock? || pc.StopHold? || pc.StopNotify?
  }

  function StepConsumer<T>(s: State<T>): Option<State<T>> {
    match s.consumer
    case Away => None
    case Register =>
      Some(if s.stop then s.(consumer := InlineCallback) else s.(registered := true, consumer := WantLock))
    case InlineCallback => if s.owner.Free? then Some(s.(consumer := WantLock)) else None
    case WantLock => if s.owner.Free? then Some(s.(owner := Consumer, consumer := Check)) else None
    case Check => Some(s.(consumer := if MustWait(s.shared, s.stop) then AboutToWait else Decide))
    case AboutToWait => Some(s.(owner := Free, consumer := Asleep))
    case Asleep => Some(s.(consumer := WantLock))
    case Decide =>
      Some(s.(shared := DecideBody(s.shared, s.stop), results := s.results + [DecideResult(s.shared, s.stop)],
              owner := Free, consumer := Leave))
    case Leave =>
      if s.registered && exists i :: 0 <= i < |s.threads| && InCallback(s.threads[i]) then None
      else Some(s.(registered := false, consumer := Away))
  }

  function Goto<T>(s: State<T>, id: nat, pc: Pc<T>): State<T>
    requires id < |s.threads|
  {
    s.(threads := s.threads[id := pc])
  }

  /** Waiting for the mutex. */
  predicate Wants<T>(pc: Pc<T>) {
    pc.PushWant? || pc.CompleteWant? || pc.FailWant? || pc.StopLock?
  }

  /** Inside a critical section, or still holding the mutex while notifying. */
  predicate Owns<T>(pc: Pc<T>) {
    pc.PushHold? || pc.CompleteHold? || pc.CompleteNotify? || pc.FailHold? || pc.FailNotify? || pc.StopHold?
  }

  predicate Notifies<T>(pc: Pc<T>) {
    pc.PushNotify? || pc.CompleteNotify? || pc.FailNotify? || pc.StopNotify?
  }

  /** Where a thread goes next, in the state it finds. */
  function NextPc<T>(s: State<T>, pc: Pc<T>): Pc<T> {
    match pc
    case PushWant(v) => PushHold(v)
    case PushHold(v) => if PushNotifies(s.shared) then PushNotify else Idle
    case CompleteWant => CompleteHold
    case CompleteHold => if CompleteNotifies(s.shared) then CompleteNotify else Idle
    case FailWant(e) => FailHold(e)
    case FailHold(e) => if FailNotifies(s.shared) then FailNotify else Idle
    case StopPick => if s.registered then StopLock else Idle
    case StopLock => StopHold
    case StopHold => StopNotify
    case _ => Idle
  }

  function NextShared<T>(q: Shared<T>, pc: Pc<T>): Shared<T> {
    match pc
    case PushHold(v) => PushBody(q, v)
    case CompleteHold => CompleteBody(q)
    case FailHold(e) => FailBody(q, e)
    case _ => q
  }

  /** Wanting threads take the mutex when it is free; it is released on the way to a point that does not hold it. */
  function StepThread<T>(s: State<T>, id: nat): Option<State<T>>
    requires id < |s.threads|
  {
    var pc := s.threads[id];
    if pc.Idle? || (Wants(pc) && !s.owner.Free?) then None
    else
      var pc' := NextPc(s, pc);
      var t := s.(threads := s.threads[id := pc'],
                  owner := if Wants(pc) then Thread(id) else if Owns(pc) && !Owns(pc') then Free else s.owner,
                  shared := NextShared(s.shared, pc),
                  accepted := if pc.PushHold? && !s.shared.complete then s.accepted + [pc.value] else s.accepted);
      Some(if Notifies(pc) then Notify(t) else t)
  }

  function BeginCall<T>(s: State<T>, id: nat, call: Call<T>): Option<State<T>>
    requires id < |s.threads|
  {
    if !s.threads[id].Idle? then None
    else match call
      case Push(v) => Some(Goto(s, id, PushWant(v)))
      case Complete => Some(Goto(s, id, CompleteWant))
      case Fail(e) => Some(Goto(s, id, FailWant(e)))
      case RequestStop => Some(if s.stop then s else Goto(s, id, StopPick).(stop := true))
  }

  /** One atomic action, or None where it is not enabled. */
  function Step<T>(s: State<T>, a: Action<T>): Option<State<T>> {
    match a
    case TakeCall => if s.consumer.Away? then Some(s.(consumer := Register)) else None
    case ConsumerStep => StepConsumer(s)
    case CallBy(id, call) => if id < |s.threads| then BeginCall(s, id, call) else None
    case ThreadStep(id) => if id < |s.threads| then StepThread(s, id) else None
  }

  function Exec<T>(s: State<T>, actions: seq<Action<T>>): Option<State<T>>
    decreases |actions|
  {
    if actions == [] then Some(s)
    else match Step(s, actions[0])
      case None => None
      case Some(t) => Exec(t, actions[1..])
  }
}
