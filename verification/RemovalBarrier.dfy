/**
 The barrier by which the admin thread makes every worker give up a removed server: a command
 in each worker's queue, a byte in each worker's pipe, an acknowledgement from each worker.
 Any number of workers, any number of rounds, every interleaving.
 */
module RemovalBarrier {
  import opened Wire
  import opened Sequences

  /** A worker as mysql_thread sees it. Commands are known by the round that sent them. */
  datatype Worker = Worker(queue: seq<nat>, pipe: nat, woken: bool, removing: Option<nat>)

  const IDLE := Worker([], 0, false, None)

  /** The text of an ack is its number; who sent it and which command it answers is history. */
  datatype Ack = Ack(worker: nat, round: nat, warnings: nat)

  /** Where force_remove_servers is. */
  datatype Phase = Resting | Pushing(next: nat) | Waking(next: nat) | Collecting(warnings: int)

  /**
   counted: the acks popped in this round. History: sent, every ack ever sent; log, the acks
   counted in each finished round; results, what each call returned.
   */
  datatype State = State(workers: seq<Worker>, acks: seq<Ack>, phase: Phase, round: nat, counted: seq<Ack>,
                         sent: seq<Ack>, log: seq<seq<Ack>>, results: seq<int>)
  {
    function Answered(): seq<Ack> {
      counted + acks
    }

    function Set(i: nat, w: Worker): State
      requires i < |workers|
    {
      this.(workers := workers[i := w])
    }
  }

  datatype Action =
    | Start | Push | Pushed | Wake | Woken | Collect | Return
    | Read(worker: nat) | Pop(worker: nat) | Acknowledge(worker: nat, warnings: nat)

  /** force_remove_servers, one queue or pipe operation at a time. */
  predicate AdminStep(s: State, a: Action, r: State) {
    var n := |s.workers|;
    match a
    case Start => s.phase.Resting? && r == s.(phase := Pushing(0), round := s.round + 1, counted := [])
    case Push =>
      && s.phase.Pushing? && s.phase.next < n
      && var i := s.phase.next;
         r == s.Set(i, s.workers[i].(queue := s.workers[i].queue + [s.round])).(phase := Pushing(i + 1))
    case Pushed => s.phase == Pushing(n) && r == s.(phase := Waking(0))
    case Wake =>
      && s.phase.Waking? && s.phase.next < n
      && var i := s.phase.next;
         r == s.Set(i, s.workers[i].(pipe := s.workers[i].pipe + 1)).(phase := Waking(i + 1))
    case Woken => s.phase == Waking(n) && r == s.(phase := Collecting(0))
    case Collect =>
      && s.phase.Collecting? && |s.counted| < n && s.acks != []
      && r == s.(phase := Collecting(s.phase.warnings + s.acks[0].warnings), counted := s.counted + [s.acks[0]],
        acks := s.acks[1..])
    case Return =>
      && s.phase.Collecting? && |s.counted| >= n
      && r == s.(phase := Resting, log := s.log + [s.counted], results := s.results + [s.phase.warnings])
    case _ => false
  }

  /**
   A worker's part of its main loop: read the byte, pop the command, and when its sessions have
   let go of the server, or the maintenance time is over, send the ack.
   */
  predicate WorkerStep(s: State, a: Action, r: State) {
    match a
    case Read(i) =>
      && i < |s.workers| && var w := s.workers[i];
         !w.woken && w.pipe > 0 && r == s.Set(i, w.(woken := true, pipe := w.pipe - 1))
    case Pop(i) =>
      && i < |s.workers| && var w := s.workers[i];
         w.woken && w.queue != [] && r == s.Set(i, w.(woken := false, removing := Some(w.queue[0]),
             queue := w.queue[1..]))
    case Acknowledge(i, n) =>
      && i < |s.workers| && var w := s.workers[i];
         && !w.woken && w.removing.Some?
         && var ack := Ack(i, w.removing.value, n);
            r == s.Set(i, w.(removing := None)).(acks := s.acks + [ack], sent := s.sent + [ack])
    case _ => false
  }

  predicate Next(s: State, a: Action, r: State) {
    AdminStep(s, a, r) || WorkerStep(s, a, r)
  }

  /** init_proxyipc */
  predicate Initial(s: State) {
    && (forall i | 0 <= i < |s.workers| :: s.workers[i] == IDLE)
    && s.acks == [] && s.phase == Resting && s.round == 0 && s.counted == [] && s.sent == [] && s.log == [] &&
      s.results == []
  }

  // ----- the invariant -----

  predicate AckedBy(acks: seq<Ack>, i: nat) {
    exists k | 0 <= k < |acks| :: acks[k].worker == i
  }

  /** A worker is at one point of the round: not told, told, awake, removing, or done and acknowledged. */
  predicate WorkerOk(phase: Phase, round: nat, i: nat, w: Worker, acked: bool) {
    var told := (phase.Pushing? && i < phase.next) || phase.Waking? || phase.Collecting?;
    var awake := (phase.Waking? && i < phase.next) || phase.Collecting?;
    if phase.Resting? then w == IDLE
    else if !told then w == IDLE && !acked
    else if !awake then w == Worker([round], 0, false, None) && !acked
    else if acked then w == IDLE
    else
      || w == Worker([round], 1, false, None)
      || w == Worker([round], 0, true, None)
      || w == Worker([], 0, false, Some(round))
  }

  /** Acks of one round, from different workers. */
  predicate OneEach(acks: seq<Ack>, round: nat, n: nat) {
    && (forall k | 0 <= k < |acks| :: acks[k].worker < n && acks[k].round == round)
    && (forall j, k | 0 <= j < k < |acks| :: acks[j].worker != acks[k].worker)
  }

  function Warnings(acks: seq<Ack>): int {
    Sum((a: Ack) => a.warnings, acks)
  }

  predicate WorkersOk(s: State) {
    forall i | 0 <= i < |s.workers| :: WorkerOk(s.phase, s.round, i, s.workers[i], AckedBy(s.Answered(), i))
  }

  predicate PhaseOk(s: State) {
    match s.phase
    case Resting => s.acks == [] && |s.log| == s.round
    case Pushing(i) => i <= |s.workers| && s.Answered() == [] && |s.log| + 1 == s.round
    case Waking(i) => i <= |s.workers| && s.counted == [] && |s.log| + 1 == s.round
    case Collecting(w) => w == Warnings(s.counted) && |s.log| + 1 == s.round
  }

  /** What a finished round looks like: one ack of that round from every worker, and their sum was returned. */
  predicate RoundOk(acks: seq<Ack>, round: nat, n: nat, result: int) {
    && |acks| == n && OneEach(acks, round, n) && (forall i | 0 <= i < n :: AckedBy(acks, i))
    && result == Warnings(acks)
  }

  predicate LogOk(s: State) {
    && |s.results| == |s.log|
    && (forall m | 0 <= m < |s.log| :: RoundOk(s.log[m], m + 1, |s.workers|, s.results[m]))
    && s.sent == Flatten(s.log) + (if s.phase.Resting? then [] else s.Answered())
  }

  function Flatten(log: seq<seq<Ack>>): seq<Ack> {
    if log == [] then [] else Flatten(log[..|log| - 1]) + log[|log| - 1]
  }

  predicate Valid(s: State) {
    WorkersOk(s) && PhaseOk(s) && LogOk(s) && (!s.phase.Resting? ==> OneEach(s.Answered(), s.round, |s.workers|))
  }

  // ----- every worker has acknowledged when the last ack is counted -----

  lemma {:induction false} DistinctWorkers(acks: seq<Ack>, round: nat, n: nat)
    requires OneEach(acks, round, n)
    ensures |set k | 0 <= k < |acks| :: acks[k].worker| == |acks|
  {
    var all := set k | 0 <= k < |acks| :: acks[k].worker;
    if acks != [] {
      var m := |acks| - 1;
      var before := acks[..m];
      DistinctWorkers(before, round, n);
      var some := set k | 0 <= k < |before| :: before[k].worker;
      assert all == some + {acks[m].worker};
      assert acks[m].worker !in some;
    }
  }

  lemma {:induction false} Below(s: set<nat>, n: nat)
    requires forall x | x in s :: x < n
    ensures |s| <= n
  {
    if n > 0 {
      Below(s - {n - 1}, n - 1);
      if n - 1 in s {
        assert |s - {n - 1}| == |s| - 1;
      } else {
        assert s - {n - 1} == s;
      }
    } else {
      assert s == {};
    }
  }

  /** n acks from different workers of n are acks from all of them; there cannot be more. */
  lemma AllAcked(acks: seq<Ack>, round: nat, n: nat)
    requires OneEach(acks, round, n)
    ensures |acks| <= n
    ensures |acks| == n ==> forall i | 0 <= i < n :: AckedBy(acks, i)
  {
    var from := set k | 0 <= k < |acks| :: acks[k].worker;
    DistinctWorkers(acks, round, n);
    Below(from, n);
    if |acks| == n {
      forall i | 0 <= i < n
        ensures AckedBy(acks, i)
      {
        if i !in from {
          Below(from + {i}, n);
          assert false;
        }
      }
    }
  }

  // ----- every step keeps the invariant -----

  /** Telling and waking the workers one by one. */
  lemma TellOk(s: State, a: Action, r: State)
    requires Valid(s) && AdminStep(s, a, r) && (a.Push? || a.Pushed? || a.Wake? || a.Woken?)
    ensures Valid(r)
  {
    assert Warnings([]) == 0;
    hide RoundOk, Flatten, Warnings, OneEach, AckedBy;
    assert r.Answered() == s.Answered();
    forall i | 0 <= i < |r.workers|
      ensures WorkerOk(r.phase, r.round, i, r.workers[i], AckedBy(r.Answered(), i))
    {
      assert WorkerOk(s.phase, s.round, i, s.workers[i], AckedBy(s.Answered(), i));
    }
  }

  lemma StartOk(s: State, r: State)
    requires Valid(s) && AdminStep(s, Start, r)
    ensures Valid(r)
  {
    hide RoundOk, Flatten;
    assert r.Answered() == [];
    forall i | 0 <= i < |r.workers|
      ensures WorkerOk(r.phase, r.round, i, r.workers[i], AckedBy(r.Answered(), i))
    {
      assert WorkerOk(s.phase, s.round, i, s.workers[i], AckedBy(s.Answered(), i));
    }
  }

  lemma WarningsSnoc(acks: seq<Ack>, ack: Ack)
    ensures Warnings(acks + [ack]) == Warnings(acks) + ack.warnings
  {
    SumSnoc((a: Ack) => a.warnings, acks, ack);
  }

  lemma CollectOk(s: State, r: State)
    requires Valid(s) && AdminStep(s, Collect, r)
    ensures Valid(r)
  {
    hide RoundOk, Flatten, AckedBy, OneEach, Warnings;
    assert s.acks == [s.acks[0]] + s.acks[1..];
    assert r.Answered() == s.Answered();
    WarningsSnoc(s.counted, s.acks[0]);
  }

  lemma ReturnOk(s: State, r: State)
    requires Valid(s) && AdminStep(s, Return, r)
    ensures Valid(r) && RoundOk(s.counted, s.round, |s.workers|, s.phase.warnings)
  {
    AllAcked(s.Answered(), s.round, |s.workers|);
    assert s.acks == [];
    assert s.Answered() == s.counted;
    assert RoundOk(s.counted, s.round, |s.workers|, s.phase.warnings);
    hide RoundOk;
    assert r.log[..|s.log|] == s.log;
    assert Flatten(r.log) == Flatten(s.log) + s.counted;
    assert r.sent == Flatten(r.log) + [];
    forall i | 0 <= i < |r.workers|
      ensures r.workers[i] == IDLE
    {
      assert WorkerOk(s.phase, s.round, i, s.workers[i], AckedBy(s.Answered(), i));
    }
  }

  /** Reading the byte and popping the command change one worker and no ack. */
  lemma WakeUpOk(s: State, a: Action, r: State)
    requires Valid(s) && WorkerStep(s, a, r) && (a.Read? || a.Pop?)
    ensures Valid(r)
  {
    hide RoundOk, Flatten, AckedBy, OneEach;
    var i := a.worker;
    assert WorkerOk(s.phase, s.round, i, s.workers[i], AckedBy(s.Answered(), i));
    assert r.Answered() == s.Answered();
  }

  lemma AckedBySnoc(acks: seq<Ack>, ack: Ack, i: nat)
    ensures AckedBy(acks + [ack], i) <==> AckedBy(acks, i) || ack.worker == i
  {
    if AckedBy(acks, i) {
      var k :| 0 <= k < |acks| && acks[k].worker == i;
      assert (acks + [ack])[k].worker == i;
    }
    if ack.worker == i {
      assert (acks + [ack])[|acks|].worker == i;
    }
  }

  lemma OneEachSnoc(acks: seq<Ack>, ack: Ack, round: nat, n: nat)
    requires OneEach(acks, round, n) && !AckedBy(acks, ack.worker) && ack.worker < n && ack.round == round
    ensures OneEach(acks + [ack], round, n)
  {
  }

  lemma AcknowledgeOk(s: State, a: Action, r: State)
    requires Valid(s) && WorkerStep(s, a, r) && a.Acknowledge?
    ensures Valid(r)
  {
    var i := a.worker;
    var ack := r.acks[|s.acks|];
    assert WorkerOk(s.phase, s.round, i, s.workers[i], AckedBy(s.Answered(), i));
    assert r.Answered() == s.Answered() + [ack];
    OneEachSnoc(s.Answered(), ack, s.round, |s.workers|);
    hide RoundOk, Flatten, AckedBy, OneEach;
    forall j | 0 <= j < |r.workers|
      ensures WorkerOk(r.phase, r.round, j, r.workers[j], AckedBy(r.Answered(), j))
    {
      AckedBySnoc(s.Answered(), ack, j);
      assert WorkerOk(s.phase, s.round, j, s.workers[j], AckedBy(s.Answered(), j));
    }
    assert r.sent == Flatten(r.log) + r.Answered();
  }

  lemma StepOk(s: State, a: Action, r: State)
    requires Valid(s) && Next(s, a, r)
    ensures Valid(r)
  {
    hide Valid;
    match a {
      case Collect => CollectOk(s, r);
      case Return => ReturnOk(s, r);
      case Read(_) => WakeUpOk(s, a, r);
      case Pop(_) => WakeUpOk(s, a, r);
      case Acknowledge(_, _) => AcknowledgeOk(s, a, r);
      case Start => StartOk(s, r);
      case _ => TellOk(s, a, r);
    }
  }

  predicate Run(run: seq<State>, actions: seq<Action>) {
    && |run| == |actions| + 1 && Initial(run[0])
    && forall m | 0 <= m < |actions| :: Next(run[m], actions[m], run[m + 1])
  }

  lemma {:induction false} RunOk(run: seq<State>, actions: seq<Action>, m: nat)
    requires Run(run, actions) && m < |run|
    ensures Valid(run[m])
  {
    if m > 0 {
      hide Valid, Next;
      RunOk(run, actions, m - 1);
      StepOk(run[m - 1], actions[m - 1], run[m]);
    }
  }

  // ----- what the protocol promises -----

  /** A worker that has been woken finds its command: the pop does not block. */
  lemma PopNeverBlocks(run: seq<State>, actions: seq<Action>, m: nat, i: nat)
    requires Run(run, actions) && m < |run| && i < |run[m].workers| && run[m].workers[i].woken
    ensures run[m].workers[i].queue == [run[m].round]
  {
    RunOk(run, actions, m);
    assert WorkerOk(run[m].phase, run[m].round, i, run[m].workers[i], AckedBy(run[m].Answered(), i));
  }

  /**
   The call returns only when every worker has acknowledged this round's command, exactly once;
   no ack and no command is left for a later round; what it returns is the sum of those acks.
   */
  lemma ReturnsAfterAll(run: seq<State>, actions: seq<Action>, m: nat)
    requires Run(run, actions) && m < |actions| && actions[m] == Return
    ensures run[m].phase.Collecting?
    ensures run[m].acks == [] && RoundOk(run[m].counted, run[m].round, |run[m].workers|, run[m].phase.warnings)
    ensures forall i | 0 <= i < |run[m].workers| :: run[m].workers[i] == IDLE
    ensures run[m + 1].results == run[m].results + [Sum((a: Ack) => a.warnings, run[m].counted)]
  {
    RunOk(run, actions, m);
    var s := run[m];
    assert Next(s, actions[m], run[m + 1]);
    ReturnOk(s, run[m + 1]);
    assert Valid(run[m + 1]);
    forall i | 0 <= i < |s.workers|
      ensures s.workers[i] == IDLE
    {
      assert WorkerOk(Resting, run[m + 1].round, i, run[m + 1].workers[i], AckedBy(run[m + 1].Answered(), i));
    }
  }

  /** What the workers have reported, action by action: who, and how many warnings. */
  function Reported(actions: seq<Action>): seq<(nat, nat)> {
    if actions == [] then []
    else
      var n := |actions| - 1;
      Reported(actions[..n]) + if actions[n].Acknowledge? then [(actions[n].worker, actions[n].warnings)] else []
  }

  /** The acks sent are the reports, each with its worker and its number of warnings, in order. */
  lemma {:induction false} SentIsReported(run: seq<State>, actions: seq<Action>, m: nat)
    requires Run(run, actions) && m < |run|
    ensures var reports := Reported(actions[..m]);
            && |run[m].sent| == |reports|
            && forall k | 0 <= k < |reports| ::
                 run[m].sent[k].worker == reports[k].0 && run[m].sent[k].warnings == reports[k].1
  {
    if m > 0 {
      SentIsReported(run, actions, m - 1);
      assert actions[..m][..m - 1] == actions[..m - 1];
      assert Next(run[m - 1], actions[m - 1], run[m]);
    }
  }

  /**
   Over the whole run: the acks ever sent are those of the finished rounds, round by round, then
   those of the round under way. So no ack is lost, sent twice or counted in another round.
   */
  lemma EveryAckInItsRound(run: seq<State>, actions: seq<Action>, m: nat)
    requires Run(run, actions) && m < |run|
    ensures var s := run[m];
            && |s.results| == |s.log| <= s.round <= |s.log| + 1
            && (forall q | 0 <= q < |s.log| :: RoundOk(s.log[q], q + 1, |s.workers|, s.results[q]))
            && s.sent == Flatten(s.log) + (if s.phase.Resting? then [] else s.Answered())
            && (!s.phase.Resting? ==> OneEach(s.Answered(), s.round, |s.workers|))
  {
    RunOk(run, actions, m);
  }

  // ----- a round under way always ends -----

  function WorkLeft(w: Worker): (n: int)
    ensures n >= 0
  {
    3 * |w.queue| + w.pipe + (if w.removing.Some? then 1 else 0)
  }

  function WorkOf(ws: seq<Worker>): nat {
    SumNonNegative(WorkLeft, ws);
    Sum(WorkLeft, ws)
  }

  lemma WorkUpdate(ws: seq<Worker>, i: nat, w: Worker)
    requires i < |ws|
    ensures WorkOf(ws[i := w]) == WorkOf(ws) - WorkLeft(ws[i]) + WorkLeft(w)
  {
    SumUpdate(WorkLeft, ws, i, w);
  }

  /** Steps the admin thread still has to take, weighted so that each push and wake pays for the work it causes. */
  function AdminLeft(s: State): int {
    var n := |s.workers|;
    match s.phase
    case Resting => 0
    case Pushing(i) => 4 * (n - i) + 2 * n + n + 3
    case Waking(i) => 2 * (n - i) + n + 2
    case Collecting(_) => n - |s.counted| + 1
  }

  function Left(s: State): int {
    AdminLeft(s) + WorkOf(s.workers)
  }

  lemma AdminStepsRunOut(s: State, a: Action, r: State)
    requires Valid(s) && AdminStep(s, a, r) && !a.Start?
    ensures Left(r) < Left(s)
  {
    hide WorkersOk, LogOk, OneEach, AckedBy;
    AllAcked(s.Answered(), s.round, |s.workers|);
    if a.Push? || a.Wake? {
      WorkUpdate(s.workers, s.phase.next, r.workers[s.phase.next]);
    }
  }

  lemma WorkerStepsRunOut(s: State, a: Action, r: State)
    requires WorkerStep(s, a, r)
    ensures Left(r) < Left(s)
  {
    WorkUpdate(s.workers, a.worker, r.workers[a.worker]);
  }

  lemma LeftIsBounded(s: State)
    requires Valid(s)
    ensures Left(s) >= 0
  {
    if !s.phase.Resting? {
      AllAcked(s.Answered(), s.round, |s.workers|);
    }
  }

  /** Every step but the start of a new round brings the round closer to its end. */
  lemma StepsRunOut(s: State, a: Action, r: State)
    requires Valid(s) && Next(s, a, r) && !a.Start?
    ensures 0 <= Left(r) < Left(s)
  {
    hide Valid, AdminStep, WorkerStep, Left;
    StepOk(s, a, r);
    LeftIsBounded(r);
    if AdminStep(s, a, r) {
      AdminStepsRunOut(s, a, r);
    } else {
      WorkerStepsRunOut(s, a, r);
    }
  }

  /** While a round is under way, some thread can take a step that is not the start of a round. */
  lemma NoDeadlock(s: State) returns (a: Action, r: State)
    requires Valid(s) && !s.phase.Resting?
    ensures !a.Start? && Next(s, a, r)
  {
    hide WorkersOk, LogOk, OneEach, AckedBy;
    var n := |s.workers|;
    match s.phase {
      case Pushing(i) =>
        if i < n {
          a, r := Push, s.Set(i, s.workers[i].(queue := s.workers[i].queue + [s.round])).(phase := Pushing(i + 1));
        } else {
          a, r := Pushed, s.(phase := Waking(0));
        }
      case Waking(i) =>
        if i < n {
          a, r := Wake, s.Set(i, s.workers[i].(pipe := s.workers[i].pipe + 1)).(phase := Waking(i + 1));
        } else {
          a, r := Woken, s.(phase := Collecting(0));
        }
      case Collecting(w) =>
        if |s.counted| >= n {
          a, r := Return, s.(phase := Resting, log := s.log + [s.counted], results := s.results + [w]);
        } else if s.acks != [] {
          a, r := Collect, s.(phase := Collecting(w + s.acks[0].warnings), counted := s.counted + [s.acks[0]],
              acks := s.acks[1..]);
        } else {
          assert s.Answered() == s.counted;
          var i := Unanswered(s.counted, s.round, n);
          a, r := WorkerCanStep(s, i);
        }
    }
  }

  lemma Unanswered(acks: seq<Ack>, round: nat, n: nat) returns (i: nat)
    requires OneEach(acks, round, n) && |acks| < n
    ensures i < n && !AckedBy(acks, i)
  {
    var from := set k | 0 <= k < |acks| :: acks[k].worker;
    DistinctWorkers(acks, round, n);
    if forall j: nat | j < n :: j in from {
      AtLeast(from, n);
      assert false;
    }
    i :| i < n && i !in from;
  }

  lemma {:induction false} AtLeast(s: set<nat>, n: nat)
    requires forall j: nat | j < n :: j in s
    ensures |s| >= n
  {
    if n > 0 {
      AtLeast(s - {n - 1}, n - 1);
    }
  }

  lemma WorkerCanStep(s: State, i: nat) returns (a: Action, r: State)
    requires Valid(s) && s.phase.Collecting? && i < |s.workers| && !AckedBy(s.Answered(), i)
    ensures !a.Start? && WorkerStep(s, a, r)
  {
    var w := s.workers[i];
    assert WorkerOk(s.phase, s.round, i, w, AckedBy(s.Answered(), i));
    if w.pipe > 0 {
      a, r := Read(i), s.Set(i, w.(woken := true, pipe := w.pipe - 1));
    } else if w.woken {
      a, r := Pop(i), s.Set(i, w.(woken := false, removing := Some(w.queue[0]), queue := w.queue[1..]));
    } else {
      var ack := Ack(i, w.removing.value, 0);
      a, r := Acknowledge(i, 0), s.Set(i, w.(removing := None)).(acks := s.acks + [ack], sent := s.sent + [ack]);
    }
  }
}
