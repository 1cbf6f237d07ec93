/** The life of a worker thread: one caller at a time, behind the lock, and the thread itself, with
    every access to the shared state a step of its own. */
module Worker {

  datatype State = Starting | Started | Stopping | Stopped | Killing

  /** Where the thread is: about to test for Killing, about to announce Started, between
      startedWorking and doneWorking, about to store Stopped, about to put back what it found,
      waiting until not Stopped, or at its end. */
  datatype Phase = NoThread | Check | Announce | Work | Settle | Restore(found: State) | Rest | Over

  /** Where the holder of the lock is, in startWorking, stopWorking or terminate. A start that takes
      effect remembers how often work had begun before. */
  datatype Call =
    | Free
    | StartEntry | StartSpawn(before: nat) | StartWait(effective: bool, before: nat)
    | StopEntry | StopWait
    | KillEntry | Join

  /** `begun` counts how often the thread changed Starting to Started. */
  datatype Worker = Worker(state: State, thread: Phase, call: Call, begun: nat)

  const INITIAL := Worker(Starting, NoThread, Free, 0)

  datatype Entry = StartWorking | StopWorking | Terminate

  datatype Action = Enter(entry: Entry) | Caller | Thread(leave: bool)

  function Entered(entry: Entry): Call
  {
    match entry
    case StartWorking => StartEntry
    case StopWorking => StopEntry
    case Terminate => KillEntry
  }

  /** The next step of the caller; a wait that is not over changes nothing. */
  function CallerStep(w: Worker): Worker
  {
    match w.call
    case Free => w
    case StartEntry =>
      if w.thread == NoThread then w.(state := Starting, call := StartSpawn(w.begun))
      else if w.state == Stopped then w.(state := Starting, call := StartWait(true, w.begun))
      else w.(call := StartWait(false, w.begun))
    case StartSpawn(before) => w.(thread := Check, call := StartWait(true, before))
    case StartWait(_, _) => if w.state == Starting then w else w.(call := Free)
    case StopEntry =>
      if w.thread == NoThread then w.(call := Free)
      else w.(state := if w.state == Started then Stopping else w.state, call := StopWait)
    case StopWait => if w.state == Stopped then w.(call := Free) else w
    case KillEntry => if w.thread == NoThread then w.(call := Free) else w.(state := Killing, call := Join)
    case Join => if w.thread == Over then w.(thread := NoThread, call := Free) else w
  }

  /** The next step of the thread. Work may go on or be left at any time: the loop may end, or an
      exception end it. */
  function ThreadStep(w: Worker, leave: bool): Worker
  {
    match w.thread
    case NoThread => w
    case Check => w.(thread := if w.state == Killing then Over else Announce)
    case Announce =>
      if w.state == Starting then w.(state := Started, thread := Work, begun := w.begun + 1) else w.(thread := Work)
    case Work => if leave then w.(thread := Settle) else w
    case Settle => w.(state := Stopped, thread := Restore(w.state))
    case Restore(found) => w.(state := if found == Killing || found == Starting then found else w.state, thread := Rest)
    case Rest => if w.state == Stopped then w else w.(thread := Check)
    case Over => w
  }

  function Acted(w: Worker, a: Action): Worker
  {
    match a
    case Enter(entry) => if w.call == Free then w.(call := Entered(entry)) else w
    case Caller => CallerStep(w)
    case Thread(leave) => ThreadStep(w, leave)
  }

  /** Any interleaving of steps. */
  function After(w: Worker, actions: seq<Action>): Worker
    decreases |actions|
  {
    if actions == [] then w else After(Acted(w, actions[0]), actions[1..])
  }

  // ---------------------------------------------------------------- what every step keeps

  predicate PhaseFits(w: Worker)
  {
    match w.thread
    case NoThread =>
      && (w.call.Free? || w.call.StartEntry? || w.call.StopEntry? || w.call.KillEntry? || w.call.StartSpawn?)
      && (w.state == Starting || w.state == Killing)
    case Check => w.state == Starting || w.state == Killing
    case Announce => w.state == Starting || w.state == Killing
    case Work => w.state == Started || w.state == Stopping || w.state == Killing
    case Settle => w.state == Started || w.state == Stopping || w.state == Killing
    case Restore(found) =>
      if found == Killing then w.state == Stopped && w.call == Join
      else (found == Started || found == Stopping) && (w.state == Stopped || w.state == Starting || w.state == Killing)
    case Rest => w.state == Stopped || w.state == Starting || w.state == Killing
    case Over => w.state == Killing && w.call == Join
  }

  predicate CallFits(w: Worker)
  {
    match w.call
    case StartSpawn(before) => w.thread == NoThread && w.state == Starting && before == w.begun
    case StartWait(effective, before) =>
      && w.state != Killing
      && (w.state == Starting ==> effective)
      && (effective ==> w.begun == if w.state == Starting then before else before + 1)
    case StopWait => w.state == Stopping || w.state == Stopped
    case Join => w.state == Killing || w.thread == Restore(Killing)
    case _ => w.thread != NoThread ==> w.state == Started || w.state == Stopped
  }

  predicate Invariant(w: Worker)
  {
    PhaseFits(w) && CallFits(w) && (w.state == Stopping ==> w.call == StopWait)
  }

  lemma StepKeeps(w: Worker, a: Action)
    requires Invariant(w)
    ensures Invariant(Acted(w, a))
  {
  }

  lemma {:induction false} RunKeeps(w: Worker, actions: seq<Action>)
    requires Invariant(w)
    ensures Invariant(After(w, actions))
    decreases |actions|
  {
    if actions != [] {
      StepKeeps(w, actions[0]);
      RunKeeps(Acted(w, actions[0]), actions[1..]);
    }
  }

  // ---------------------------------------------------------------- over all interleavings

  /** The thread never finds Starting when it stores Stopped, so it puts back nothing but Killing. */
  lemma NeverStartingAtExchange(actions: seq<Action>)
    ensures var w := After(INITIAL, actions); w.thread == Settle ==> w.state != Starting
    ensures var w := After(INITIAL, actions); w.thread.Restore? ==> w.thread.found != Starting
  {
    RunKeeps(INITIAL, actions);
  }

  /** When a start on a fresh or stopped worker returns, work has begun exactly once since. */
  lemma StartReturns(actions: seq<Action>)
    ensures var w := After(INITIAL, actions); var w' := Acted(w, Caller);
            w.call.StartWait? && w.call.effective && w'.call == Free ==>
              w.begun == w.call.before + 1 && (w.state == Started || w.state == Stopped)
  {
    RunKeeps(INITIAL, actions);
  }

  /** A start takes effect exactly on a fresh or stopped worker. */
  lemma StartTakesEffect(actions: seq<Action>)
    ensures var w := After(INITIAL, actions); var w' := Acted(w, Caller);
            w.call == StartEntry ==>
              ((w'.state == Starting <==> w.thread == NoThread || w.state == Stopped) &&
               (w'.state != Starting ==> w'.call == StartWait(false, w.begun) && w.state == Started))
  {
    RunKeeps(INITIAL, actions);
  }

  /** A request to end is never lost: until the thread has ended, either the state says Killing, or
      the thread is about to put Killing back. */
  lemma KillingNotLost(actions: seq<Action>)
    ensures var w := After(INITIAL, actions); w.call == Join ==> w.state == Killing || w.thread == Restore(Killing)
  {
    RunKeeps(INITIAL, actions);
  }

  /** terminate returns without a thread, and only terminate ends one. Where there was one it leaves
      Killing; where there was none, the state as it was, of a fresh or of a terminated worker. */
  lemma TerminateReturns(actions: seq<Action>)
    ensures var w := After(INITIAL, actions); var w' := Acted(w, Caller);
            (w.call == Join || w.call == KillEntry) && w'.call == Free ==>
              && w'.thread == NoThread
              && (w.call == Join ==> w'.state == Killing)
              && (w.call == KillEntry ==> w' == w.(call := Free) && (w.state == Starting || w.state == Killing))
    ensures var w := After(INITIAL, actions); w.thread == Over ==> w.call == Join
  {
    RunKeeps(INITIAL, actions);
  }

  /** isWorking. */
  predicate IsWorking(w: Worker)
  {
    w.state == Started
  }

  /** It is true only between startedWorking and doneWorking, and while nobody is inside a call, exactly
      there. */
  lemma WorkingExactly(actions: seq<Action>)
    ensures var w := After(INITIAL, actions); IsWorking(w) ==> w.thread == Work || w.thread == Settle
    ensures var w := After(INITIAL, actions);
            w.call == Free ==> (IsWorking(w) <==> w.thread == Work || w.thread == Settle)
  {
    RunKeeps(INITIAL, actions);
  }

  /** Outside of startedWorking to doneWorking, and not on the way there. */
  predicate Quiet(w: Worker)
  {
    && (w.thread.Restore? || w.thread == Rest || w.thread == NoThread || w.thread == Over ||
        (w.thread == Check && w.state == Killing))
    && (w.thread != NoThread ==> w.state == Stopped || w.state == Killing)
    && !w.call.StartEntry? && !w.call.StartSpawn? && !w.call.StartWait?
  }

  /** When stopWorking returns, the thread is quiet. */
  lemma StopReturns(actions: seq<Action>)
    ensures var w := After(INITIAL, actions); var w' := Acted(w, Caller);
            (w.call == StopWait || w.call == StopEntry) && w'.call == Free ==> Quiet(w')
  {
    RunKeeps(INITIAL, actions);
  }

  /** And it stays quiet, whatever happens, until somebody starts it again. */
  lemma {:induction false} StaysQuiet(w: Worker, actions: seq<Action>)
    requires Invariant(w) && Quiet(w)
    requires forall a :: a in actions ==> a != Enter(StartWorking)
    ensures Quiet(After(w, actions)) && After(w, actions).thread != Work && After(w, actions).begun == w.begun
    decreases |actions|
  {
    if actions != [] {
      StepKeeps(w, actions[0]);
      assert actions[0] in actions && forall a :: a in actions[1..] ==> a in actions;
      StaysQuiet(Acted(w, actions[0]), actions[1..]);
    }
  }

  // ---------------------------------------------------------------- the waits end

  predicate Waiting(w: Worker)
  {
    (w.call.StartWait? || w.call == StopWait || w.call == Join) && CallerStep(w) == w
  }

  /** How far the thread is from ending the wait. */
  function Distance(w: Worker): nat
  {
    match w.thread
    case Announce => if w.state == Starting then 1 else 7
    case Work => 6
    case Settle => 5
    case Restore(_) => 4
    case Rest => 3
    case Check => 2
    case _ => 0
  }

  /** While a caller waits, every step of the thread brings the end of the wait nearer, as long as
      work is left when it is to stop; so no wait blocks for ever. */
  lemma WaitsEnd(actions: seq<Action>)
    ensures var w := After(INITIAL, actions);
            Waiting(w) ==> var w' := ThreadStep(w, true); !Waiting(w') || Distance(w') < Distance(w)
  {
    RunKeeps(INITIAL, actions);
  }

  /** And while a caller waits for work to stop or the thread to end, the work can see that. */
  lemma WaitIsSeen(actions: seq<Action>)
    ensures var w := After(INITIAL, actions); Waiting(w) && w.thread == Work ==> w.state != Started
  {
    RunKeeps(INITIAL, actions);
  }
}
