/**
 * Readers, consumers and shutdown of the broadcast listener as a transition system
 * (internal/discovery/broadcast.go, internal/daemon/daemon.go).
 *
 * Every interleaving of the goroutines is a sequence of steps.  The daemon closes the stop channel
 * before it calls `Stop`; nothing is assumed about when the readers start.
 */
module Shutdown {

  datatype Chan = HostChan | TimeChan | LocationChan

  /** Where one reader goroutine is. */
  datatype Reader = NotStarted | LoopTop | Reading | Sending(ch: Chan) | Exited

  /** Where the goroutine that shuts down is. */
  datatype Stopper = Running | Waiting | Closing(next: Chan) | Finished

  const CAPACITY: nat := 100

  datatype State = State(
    stopClosed: bool,
    connsClosed: bool,
    readers: seq<Reader>,
    stopper: Stopper,
    closed: set<Chan>,
    buffered: map<Chan, nat>,
    consumers: set<Chan>,
    panicked: bool)

  const NO_MESSAGES: map<Chan, nat> := map[HostChan := 0, TimeChan := 0, LocationChan := 0]

  lemma EveryChannelBuffered()
    ensures forall ch: Chan :: ch in NO_MESSAGES
  {
    forall ch: Chan
      ensures ch in NO_MESSAGES
    {
      assert ch == HostChan || ch == TimeChan || ch == LocationChan;
    }
  }

  /** A fresh listener with `n` sockets; the time consumer may or may not exist. */
  function Start(n: nat, consumers: set<Chan>): (s: State)
    ensures WellFormed(s)
  {
    EveryChannelBuffered();
    State(false, false, seq(n, _ => NotStarted), Running, {}, NO_MESSAGES, consumers, false)
  }

  datatype Step =
    | Spawn(i: nat)            // the reader registers with the wait group and starts
    | CheckStop(i: nat)        // select on the stop channel with a default branch
    | ReadNothing(i: nat)      // timeout, closed socket, or a message that is dropped
    | ReadMessage(i: nat, ch: Chan)
    | Send(i: nat)             // the send branch of the select
    | GiveUp(i: nat)           // the stop branch of the same select
    | Consume(ch: Chan)
    | CloseStop                // close(stopChan)
    | CallStop                 // Stop closes the sockets and waits
    | WaitDone
    | CloseChan

  predicate At(s: State, i: nat, r: Reader) {
    i < |s.readers| && s.readers[i] == r
  }

  predicate Sends(s: State, i: nat) {
    i < |s.readers| && s.readers[i].Sending?
  }

  predicate WellFormed(s: State) {
    forall ch: Chan :: ch in s.buffered
  }

  /** The wait group counts the readers that have started and not exited. */
  predicate NoneRegistered(s: State) {
    forall i :: 0 <= i < |s.readers| ==> s.readers[i] == NotStarted || s.readers[i] == Exited
  }

  predicate Enabled(s: State, t: Step)
    requires WellFormed(s)
  {
    !s.panicked &&
    match t
    case Spawn(i) => At(s, i, NotStarted)
    case CheckStop(i) => At(s, i, LoopTop)
    case ReadNothing(i) => At(s, i, Reading)
    case ReadMessage(i, ch) => At(s, i, Reading) && !s.connsClosed
    case Send(i) => Sends(s, i) && (s.readers[i].ch in s.closed || s.buffered[s.readers[i].ch] < CAPACITY)
    case GiveUp(i) => Sends(s, i) && s.stopClosed
    case Consume(ch) => ch in s.consumers && s.buffered[ch] > 0
    case CloseStop => !s.stopClosed
    case CallStop => s.stopClosed && s.stopper == Running
    case WaitDone => s.stopper == Waiting && NoneRegistered(s)
    case CloseChan => s.stopper.Closing?
  }

  function Move(s: State, i: nat, r: Reader): State
    requires i < |s.readers|
  {
    s.(readers := s.readers[i := r])
  }

  function Apply(s: State, t: Step): (s': State)
    requires WellFormed(s) && Enabled(s, t)
    ensures WellFormed(s')
  {
    match t
    case Spawn(i) => Move(s, i, LoopTop)
    case CheckStop(i) => Move(s, i, if s.stopClosed then Exited else Reading)
    case ReadNothing(i) => Move(s, i, LoopTop)
    case ReadMessage(i, ch) => Move(s, i, Sending(ch))
    case Send(i) =>
      var ch := s.readers[i].ch;
      if ch in s.closed then s.(panicked := true)
      else Move(s, i, LoopTop).(buffered := s.buffered[ch := s.buffered[ch] + 1])
    case GiveUp(i) =>
      // the host branch returns from the reader; the other handlers return to its loop
      Move(s, i, if s.readers[i].ch == HostChan then Exited else LoopTop)
    case Consume(ch) => s.(buffered := s.buffered[ch := s.buffered[ch] - 1])
    case CloseStop => s.(stopClosed := true)
    case CallStop => s.(connsClosed := true, stopper := Waiting)
    case WaitDone => s.(stopper := Closing(HostChan))
    case CloseChan =>
      var ch := s.stopper.next;
      if ch in s.closed then s.(panicked := true)
      else s.(closed := s.closed + {ch},
              stopper := if ch == HostChan then Closing(TimeChan)
                         else if ch == TimeChan then Closing(LocationChan)
                         else Finished)
  }

  /** A schedule is a sequence of steps, each enabled when it is taken. */
  predicate IsSchedule(s: State, ts: seq<Step>)
    requires WellFormed(s)
    decreases |ts|
  {
    ts == [] || (Enabled(s, ts[0]) && IsSchedule(Apply(s, ts[0]), ts[1..]))
  }

  function Execute(s: State, ts: seq<Step>): (s': State)
    requires WellFormed(s) && IsSchedule(s, ts)
    ensures WellFormed(s')
    decreases |ts|
  {
    if ts == [] then s else Execute(Apply(s, ts[0]), ts[1..])
  }

  // ----- safety -----

  predicate Quiet(r: Reader) {
    r == NotStarted || r == LoopTop || r == Exited
  }

  function AlreadyClosed(p: Stopper): set<Chan> {
    match p
    case Running => {}
    case Waiting => {}
    case Closing(HostChan) => {}
    case Closing(TimeChan) => {HostChan}
    case Closing(LocationChan) => {HostChan, TimeChan}
    case Finished => {HostChan, TimeChan, LocationChan}
  }

  /** Channels close one by one, only after the stop channel is closed, and by then no reader is past
      its check of the stop channel. */
  predicate Invariant(s: State) {
    && WellFormed(s)
    && !s.panicked
    && (forall ch: Chan :: s.buffered[ch] <= CAPACITY)
    && s.closed == AlreadyClosed(s.stopper)
    && (s.stopper != Running ==> s.stopClosed && s.connsClosed)
    && (s.stopper.Closing? || s.stopper.Finished? ==> forall i :: 0 <= i < |s.readers| ==> Quiet(s.readers[i]))
  }

  lemma StepKeepsInvariant(s: State, t: Step)
    requires Invariant(s) && Enabled(s, t)
    ensures Invariant(Apply(s, t))
  {
  }

  /** In no interleaving does a reader send on a closed channel, and no channel is closed twice. */
  lemma {:induction false} NeverPanics(s: State, ts: seq<Step>)
    requires Invariant(s) && IsSchedule(s, ts)
    ensures Invariant(Execute(s, ts))
    decreases |ts|
  {
    if ts != [] {
      StepKeepsInvariant(s, ts[0]);
      NeverPanics(Apply(s, ts[0]), ts[1..]);
    }
  }

  lemma ListenerNeverPanics(n: nat, consumers: set<Chan>, ts: seq<Step>)
    requires IsSchedule(Start(n, consumers), ts)
    ensures !Execute(Start(n, consumers), ts).panicked
  {
    NeverPanics(Start(n, consumers), ts);
  }

  // ----- termination -----

  function ReaderRank(r: Reader): nat {
    match r
    case Exited => 0
    case LoopTop => 1
    case NotStarted => 2
    case Sending(_) => 3
    case Reading => 4
  }

  function ReadersRank(rs: seq<Reader>): nat {
    if rs == [] then 0 else ReadersRank(rs[..|rs| - 1]) + ReaderRank(rs[|rs| - 1])
  }

  function StopperRank(p: Stopper): nat {
    match p
    case Running => 5
    case Waiting => 4
    case Closing(HostChan) => 3
    case Closing(TimeChan) => 2
    case Closing(LocationChan) => 1
    case Finished => 0
  }

  function Rank(s: State): nat
    requires WellFormed(s)
  {
    ReadersRank(s.readers) + s.buffered[HostChan] + s.buffered[TimeChan] + s.buffered[LocationChan]
    + StopperRank(s.stopper)
  }

  lemma {:induction false} MoveRank(rs: seq<Reader>, i: nat, r: Reader)
    requires i < |rs|
    ensures ReadersRank(rs[i := r]) == ReadersRank(rs) - ReaderRank(rs[i]) + ReaderRank(r)
  {
    var n := |rs| - 1;
    if i == n {
      assert rs[i := r][..n] == rs[..n];
    } else {
      assert rs[i := r][..n] == rs[..n][i := r];
      MoveRank(rs[..n], i, r);
    }
  }

  /** Once the stop channel is closed every step of every goroutine lowers the rank. */
  lemma StepLowersRank(s: State, t: Step)
    requires Invariant(s) && s.stopClosed && Enabled(s, t)
    ensures Apply(s, t).stopClosed
    ensures Rank(Apply(s, t)) < Rank(s)
  {
    StepKeepsInvariant(s, t);
    match t {
      case Spawn(i) => MoveRank(s.readers, i, LoopTop);
      case CheckStop(i) => MoveRank(s.readers, i, Exited);
      case ReadNothing(i) => MoveRank(s.readers, i, LoopTop);
      case ReadMessage(i, ch) => MoveRank(s.readers, i, Sending(ch));
      case Send(i) =>
        MoveRank(s.readers, i, LoopTop);
        assert s.readers[i].ch == HostChan || s.readers[i].ch == TimeChan || s.readers[i].ch == LocationChan;
      case GiveUp(i) => MoveRank(s.readers, i, if s.readers[i].ch == HostChan then Exited else LoopTop);
      case Consume(ch) => assert ch == HostChan || ch == TimeChan || ch == LocationChan;
      case CloseStop =>
      case CallStop =>
      case WaitDone =>
      case CloseChan =>
    }
  }

  /** Until shutdown is complete some reader or the stopping goroutine can move, whatever the
      consumers do. */
  lemma NotStuck(s: State) returns (t: Step)
    requires Invariant(s) && s.stopClosed && s.stopper != Finished
    ensures Enabled(s, t) && !t.Consume?
  {
    if s.stopper == Running {
      t := CallStop;
    } else if s.stopper.Closing? {
      t := CloseChan;
    } else if NoneRegistered(s) {
      t := WaitDone;
    } else {
      var i :| 0 <= i < |s.readers| && s.readers[i] != NotStarted && s.readers[i] != Exited;
      match s.readers[i] {
        case LoopTop => t := CheckStop(i);
        case Reading => t := ReadNothing(i);
        case Sending(_) => t := GiveUp(i);
      }
    }
  }

  /** `Stop` terminates under every scheduler: from the moment the stop channel is closed at most
      `Rank` steps are possible, and a schedule that cannot be continued has closed all three
      channels. */
  lemma {:induction false} StopTerminates(s: State, ts: seq<Step>)
    requires Invariant(s) && s.stopClosed && IsSchedule(s, ts)
    ensures |ts| <= Rank(s)
    ensures var s' := Execute(s, ts);
            (forall t :: Enabled(s', t) ==> t.Consume?) ==>
              s'.stopper == Finished && s'.closed == {HostChan, TimeChan, LocationChan} && !s'.panicked
    decreases |ts|
  {
    if ts == [] {
      if s.stopper != Finished {
        var t := NotStuck(s);
      }
    } else {
      StepKeepsInvariant(s, ts[0]);
      StepLowersRank(s, ts[0]);
      StopTerminates(Apply(s, ts[0]), ts[1..]);
    }
  }

  // ----- progress before shutdown -----

  predicate BeforeShutdown(s: State) {
    !s.stopClosed && s.stopper == Running
  }

  /** The reader has a message for a full channel that nobody drains. */
  predicate Blocked(s: State, i: nat, ch: Chan)
    requires WellFormed(s)
  {
    At(s, i, Sending(ch)) && ch !in s.consumers && s.buffered[ch] >= CAPACITY && BeforeShutdown(s)
  }

  lemma BlockedStep(s: State, i: nat, ch: Chan, t: Step)
    requires Invariant(s) && Blocked(s, i, ch) && Enabled(s, t) && t != CloseStop
    ensures Invariant(Apply(s, t)) && Blocked(Apply(s, t), i, ch)
  {
    StepKeepsInvariant(s, t);
  }

  /** No schedule without a shutdown moves a blocked reader, so it stops reading messages of every
      kind. */
  lemma {:induction false} BlockedUntilShutdown(s: State, i: nat, ch: Chan, ts: seq<Step>)
    requires Invariant(s) && Blocked(s, i, ch)
    requires IsSchedule(s, ts) && CloseStop !in ts
    ensures Blocked(Execute(s, ts), i, ch)
    decreases |ts|
  {
    if ts != [] {
      BlockedStep(s, i, ch, ts[0]);
      BlockedUntilShutdown(Apply(s, ts[0]), i, ch, ts[1..]);
    }
  }

  /** Some schedule without a shutdown takes the reader off its message. */
  ghost predicate CanMove(s: State, i: nat, ch: Chan)
    requires WellFormed(s)
  {
    exists ts :: IsSchedule(s, ts) && CloseStop !in ts && !At(Execute(s, ts), i, Sending(ch))
  }

  lemma OneStep(s: State, t: Step)
    requires WellFormed(s) && Enabled(s, t)
    ensures IsSchedule(s, [t]) && Execute(s, [t]) == Apply(s, t)
  {
    assert IsSchedule(Apply(s, t), []);
    assert [t][1..] == [];
  }

  lemma TwoSteps(s: State, t: Step, u: Step)
    requires WellFormed(s) && Enabled(s, t) && Enabled(Apply(s, t), u)
    ensures IsSchedule(s, [t, u]) && Execute(s, [t, u]) == Apply(Apply(s, t), u)
  {
    OneStep(Apply(s, t), u);
    assert [t, u][1..] == [u];
  }

  lemma RoomMeansMove(s: State, i: nat, ch: Chan)
    requires Invariant(s) && BeforeShutdown(s) && At(s, i, Sending(ch)) && s.buffered[ch] < CAPACITY
    ensures CanMove(s, i, ch)
  {
    OneStep(s, Send(i));
    assert CloseStop !in [Send(i)];
  }

  lemma ConsumerMeansMove(s: State, i: nat, ch: Chan)
    requires Invariant(s) && BeforeShutdown(s) && At(s, i, Sending(ch)) &&
             ch in s.consumers && s.buffered[ch] == CAPACITY
    ensures CanMove(s, i, ch)
  {
    TwoSteps(s, Consume(ch), Send(i));
    assert CloseStop !in [Consume(ch), Send(i)];
  }

  /** Before shutdown a reader with a message can get rid of it if and only if its channel has room or
      a consumer. */
  lemma MovesExactly(s: State, i: nat, ch: Chan)
    requires Invariant(s) && BeforeShutdown(s) && At(s, i, Sending(ch))
    ensures CanMove(s, i, ch) <==> ch in s.consumers || s.buffered[ch] < 100
  {
    if s.buffered[ch] < CAPACITY {
      RoomMeansMove(s, i, ch);
    } else if ch in s.consumers {
      ConsumerMeansMove(s, i, ch);
    } else {
      forall ts | IsSchedule(s, ts) && CloseStop !in ts
        ensures At(Execute(s, ts), i, Sending(ch))
      {
        BlockedUntilShutdown(s, i, ch, ts);
      }
    }
  }

  // ----- a channel without a consumer fills up -----

  lemma {:induction false} Append(s: State, ts: seq<Step>, t: Step)
    requires WellFormed(s) && IsSchedule(s, ts) && Enabled(Execute(s, ts), t)
    ensures IsSchedule(s, ts + [t]) && Execute(s, ts + [t]) == Apply(Execute(s, ts), t)
    decreases |ts|
  {
    if ts == [] {
      OneStep(s, t);
      assert ts + [t] == [t];
    } else {
      Append(Apply(s, ts[0]), ts[1..], t);
      assert (ts + [t])[1..] == ts[1..] + [t];
    }
  }

  /** Reader 0 is at the top of its loop before shutdown, with `k` messages in the channel. */
  predicate Holding(s: State, consumers: set<Chan>, ch: Chan, k: nat)
    requires WellFormed(s)
  {
    At(s, 0, LoopTop) && s.buffered[ch] == k && s.consumers == consumers && BeforeShutdown(s) && !s.connsClosed
    && !s.panicked && s.closed == {}
  }

  /** From the top of its loop the reader can come to hold a message for any channel. */
  lemma NextMessage(s: State, consumers: set<Chan>, ch: Chan, k: nat)
    requires WellFormed(s) && Holding(s, consumers, ch, k)
    ensures Enabled(s, CheckStop(0))
    ensures var s1 := Apply(s, CheckStop(0));
            && Enabled(s1, ReadMessage(0, ch))
            && var s2 := Apply(s1, ReadMessage(0, ch));
               && At(s2, 0, Sending(ch)) && BeforeShutdown(s2) && s2.buffered[ch] == k && s2.consumers == consumers
               && (k < CAPACITY ==> Enabled(s2, Send(0)) && Holding(Apply(s2, Send(0)), consumers, ch, k + 1))
  {
  }

  /** The messages that put `k` of them in the channel. */
  function Filling(ch: Chan, k: nat): seq<Step> {
    if k == 0 then [Spawn(0)] else Filling(ch, k - 1) + [CheckStop(0)] + [ReadMessage(0, ch)] + [Send(0)]
  }

  lemma {:induction false} FillsUp(n: nat, consumers: set<Chan>, ch: Chan, k: nat)
    requires n > 0 && k <= 100
    ensures var ts := Filling(ch, k);
            && IsSchedule(Start(n, consumers), ts) && CloseStop !in ts
            && Holding(Execute(Start(n, consumers), ts), consumers, ch, k)
  {
    var s := Start(n, consumers);
    if k == 0 {
      OneStep(s, Spawn(0));
    } else {
      var ts := Filling(ch, k - 1);
      FillsUp(n, consumers, ch, k - 1);
      NextMessage(Execute(s, ts), consumers, ch, k - 1);
      Append(s, ts, CheckStop(0));
      Append(s, ts + [CheckStop(0)], ReadMessage(0, ch));
      Append(s, ts + [CheckStop(0)] + [ReadMessage(0, ch)], Send(0));
    }
  }

  /** A channel without a consumer gets its reader stuck: one hundred and one messages suffice. */
  lemma BlockedIsReachable(n: nat, consumers: set<Chan>, ch: Chan) returns (ts: seq<Step>)
    requires n > 0 && ch !in consumers
    ensures IsSchedule(Start(n, consumers), ts) && CloseStop !in ts
    ensures Blocked(Execute(Start(n, consumers), ts), 0, ch)
  {
    var s, fill := Start(n, consumers), Filling(ch, CAPACITY);
    FillsUp(n, consumers, ch, CAPACITY);
    NextMessage(Execute(s, fill), consumers, ch, CAPACITY);
    Append(s, fill, CheckStop(0));
    Append(s, fill + [CheckStop(0)], ReadMessage(0, ch));
    ts := fill + [CheckStop(0)] + [ReadMessage(0, ch)];
  }

  lemma {:induction false} BeforeShutdownStays(s: State, ts: seq<Step>)
    requires Invariant(s) && BeforeShutdown(s) && IsSchedule(s, ts) && CloseStop !in ts
    ensures BeforeShutdown(Execute(s, ts)) && Execute(s, ts).consumers == s.consumers
    decreases |ts|
  {
    if ts != [] {
      StepKeepsInvariant(s, ts[0]);
      BeforeShutdownStays(Apply(s, ts[0]), ts[1..]);
    }
  }

  /** After the schedule, every reader that holds a message can get rid of it. */
  ghost predicate NobodyStuck(s: State, ts: seq<Step>)
    requires WellFormed(s) && IsSchedule(s, ts)
  {
    forall i: nat, ch :: At(Execute(s, ts), i, Sending(ch)) ==> CanMove(Execute(s, ts), i, ch)
  }

  lemma ConsumersMeanProgress(n: nat, consumers: set<Chan>, ts: seq<Step>)
    requires forall ch: Chan :: ch in consumers
    requires IsSchedule(Start(n, consumers), ts) && CloseStop !in ts
    ensures NobodyStuck(Start(n, consumers), ts)
  {
    var s := Start(n, consumers);
    NeverPanics(s, ts);
    BeforeShutdownStays(s, ts);
    forall i: nat, ch | At(Execute(s, ts), i, Sending(ch))
      ensures CanMove(Execute(s, ts), i, ch)
    {
      MovesExactly(Execute(s, ts), i, ch);
    }
  }

  /** A listener with at least one socket keeps every reader able to move until shutdown, in every
      interleaving, if and only if all three channels have a consumer. */
  lemma ProgressExactly(n: nat, consumers: set<Chan>)
    requires n > 0
    ensures (forall ch: Chan :: ch in consumers) <==>
            forall ts :: IsSchedule(Start(n, consumers), ts) && CloseStop !in ts ==>
              NobodyStuck(Start(n, consumers), ts)
  {
    if ch: Chan :| ch !in consumers {
      var ts := BlockedIsReachable(n, consumers, ch);
      NeverPanics(Start(n, consumers), ts);
      MovesExactly(Execute(Start(n, consumers), ts), 0, ch);
      assert !NobodyStuck(Start(n, consumers), ts);
    } else {
      forall ts | IsSchedule(Start(n, consumers), ts) && CloseStop !in ts
        ensures NobodyStuck(Start(n, consumers), ts)
      {
        ConsumersMeanProgress(n, consumers, ts);
      }
    }
  }
}
