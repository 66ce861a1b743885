/** The mixed workload of a benchmark phase (habitus/benchmark/runtime_boundary.py): workers draw operation numbers
    from one shared counter, and the number decides whether the operation reads or writes. */
module Workload {
  import opened Orders

  predicate IsWrite(id: nat, fraction: real) {
    if fraction <= 0.0 then false
    else if fraction >= 1.0 then true
    else (Product(id + 1, fraction)).Floor > (Product(id, fraction)).Floor
  }

  function Product(n: nat, fraction: real): real { n as real * fraction }

  // ---- How many operations write ----

  /** The operations to write among a number of them. */
  function Share(n: nat, fraction: real): int {
    if fraction <= 0.0 then 0 else if fraction >= 1.0 then n else Product(n, fraction).Floor
  }

  /** Which operation numbers write, for a fraction. */
  function Plan(fraction: real): nat -> bool { (id: nat) => IsWrite(id, fraction) }

  function WriteIds(low: nat, high: nat, writes: nat -> bool): set<nat> {
    set id: nat | low <= id < high && writes(id)
  }

  lemma Step(n: nat, fraction: real)
    ensures Product(n + 1, fraction) == Product(n, fraction) + fraction
    ensures Product(0, fraction) == 0.0
  {
  }

  lemma ShareSteps(n: nat, fraction: real)
    ensures Share(n + 1, fraction) == Share(n, fraction) + if IsWrite(n, fraction) then 1 else 0
    ensures Share(0, fraction) == 0
  {
    Step(n, fraction);
  }

  lemma OneMoreId(low: nat, high: nat, writes: nat -> bool)
    requires low <= high
    ensures |WriteIds(low, high + 1, writes)| == |WriteIds(low, high, writes)| + if writes(high) then 1 else 0
  {
    if writes(high) {
      assert WriteIds(low, high + 1, writes) == WriteIds(low, high, writes) + {high};
    } else {
      assert WriteIds(low, high + 1, writes) == WriteIds(low, high, writes);
    }
  }

  /** Among any numbers in a row, the writes are the difference of the shares at both ends. */
  lemma {:induction false} WritesInWindow(low: nat, high: nat, fraction: real)
    requires low <= high
    ensures |WriteIds(low, high, Plan(fraction))| == Share(high, fraction) - Share(low, fraction)
    decreases high
  {
    if low < high {
      WritesInWindow(low, high - 1, fraction);
      OneMoreId(low, high - 1, Plan(fraction));
      ShareSteps(high - 1, fraction);
    } else {
      assert WriteIds(low, high, Plan(fraction)) == {};
    }
  }

  /** The first numbers of a phase hold exactly the whole part of their part of writes. */
  lemma FirstIdsHoldTheShare(n: nat, fraction: real)
    ensures |WriteIds(0, n, Plan(fraction))| == Share(n, fraction)
    ensures 0.0 < fraction < 1.0 ==> |WriteIds(0, n, Plan(fraction))| == (n as real * fraction).Floor
    ensures fraction <= 0.0 ==> WriteIds(0, n, Plan(fraction)) == {}
    ensures fraction >= 1.0 ==> |WriteIds(0, n, Plan(fraction))| == n
  {
    WritesInWindow(0, n, fraction);
    ShareSteps(n, fraction);
  }

  lemma Spread(a: nat, m: nat, fraction: real)
    ensures Product(a + m, fraction) == Product(a, fraction) + Product(m, fraction)
  {
    var x, y := a as real, m as real;
    assert (a + m) as real == x + y;
    Distribute(x, y, fraction);
  }

  lemma Distribute(x: real, y: real, z: real)
    ensures (x + y) * z == x * z + y * z
  {
  }

  /** So many numbers in a row, wherever they start, hold their part of writes rounded down or up. */
  lemma AnyIdsInARowHoldTheShare(from: nat, m: nat, fraction: real)
    requires 0.0 < fraction < 1.0
    ensures var writes := |WriteIds(from, from + m, Plan(fraction))|;
      writes == Product(m, fraction).Floor || writes == Ceiling(Product(m, fraction))
  {
    WritesInWindow(from, from + m, fraction);
    Spread(from, m, fraction);
    FloorOfSum(Product(from, fraction), Product(m, fraction));
  }

  lemma FloorOfSum(x: real, y: real)
    ensures (x + y).Floor - x.Floor == y.Floor || (x + y).Floor - x.Floor == Ceiling(y)
  {
  }

  // ---- Workers ----

  datatype Event = Event(write: bool, worker: nat, success: bool)

  /** The counter, the stop flag, the number each busy worker holds and the events appended so far. The numbers of
      the events, in the order they were appended, are kept beside them. */
  datatype State =
    State(next: nat, stopped: bool, busy: map<nat, nat>, events: seq<Event>, finished: seq<nat>)

  datatype Move = Draw(worker: nat) | Finish(worker: nat, success: bool) | Stop

  const START := State(0, false, map[], [], [])

  /** A worker draws when it is free and the phase has not been stopped. One that is busy always finishes, with an
      error or without, and also after the stop. */
  predicate Enabled(s: State, move: Move, workers: nat) {
    match move
    case Draw(w) => w < workers && w !in s.busy && !s.stopped
    case Finish(w, _) => w in s.busy
    case Stop => true
  }

  function After(s: State, move: Move, writes: nat -> bool): State
    requires move.Finish? ==> move.worker in s.busy
  {
    match move
    case Draw(w) => s.(next := s.next + 1, busy := s.busy[w := s.next])
    case Finish(w, success) =>
      var id := s.busy[w];
      s.(busy := s.busy - {w}, events := s.events + [Event(writes(id), w, success)],
         finished := s.finished + [id])
    case Stop => s.(stopped := true)
  }

  predicate Schedule(s: State, moves: seq<Move>, workers: nat, writes: nat -> bool)
    decreases moves
  {
    moves == [] ||
    (Enabled(s, moves[0], workers) && Schedule(After(s, moves[0], writes), moves[1..], workers, writes))
  }

  function Outcome(s: State, moves: seq<Move>, workers: nat, writes: nat -> bool): State
    requires Schedule(s, moves, workers, writes)
    decreases moves
  {
    if moves == [] then s else Outcome(After(s, moves[0], writes), moves[1..], workers, writes)
  }

  function Writes(events: seq<Event>): nat {
    if events == [] then 0
    else Writes(events[..|events| - 1]) + if events[|events| - 1].write then 1 else 0
  }

  function Writers(busy: map<nat, nat>, writes: nat -> bool): set<nat> {
    set w | w in busy && writes(busy[w])
  }

  predicate Held(busy: map<nat, nat>, id: nat) { exists w :: w in busy && busy[w] == id }

  /** Every number drawn so far is held by one worker or has been finished once. */
  ghost predicate EachOnce(s: State) {
    && (forall i, j :: 0 <= i < j < |s.finished| ==> s.finished[i] != s.finished[j])
    && (forall v, w :: v in s.busy && w in s.busy && s.busy[v] == s.busy[w] ==> v == w)
    && (forall w :: w in s.busy ==> s.busy[w] < s.next && s.busy[w] !in s.finished)
    && (forall id: nat :: id in s.finished ==> id < s.next)
    && (forall id: nat :: id < s.next ==> id in s.finished || Held(s.busy, id))
  }

  /** The events and the busy workers make up the numbers drawn, and so do the writes among them. */
  ghost predicate Balanced(s: State, writes: nat -> bool) {
    && |s.events| + |s.busy| == s.next
    && Writes(s.events) + |Writers(s.busy, writes)| == |WriteIds(0, s.next, writes)|
  }

  /** The kind of each event is the one its number asks for. */
  ghost predicate Attributed(s: State, workers: nat, writes: nat -> bool) {
    && (forall w :: w in s.busy ==> w < workers)
    && |s.events| == |s.finished|
    && (forall i :: 0 <= i < |s.events| ==> s.events[i].write == writes(s.finished[i]))
  }

  ghost predicate Inv(s: State, workers: nat, writes: nat -> bool) {
    EachOnce(s) && Attributed(s, workers, writes) && Balanced(s, writes)
  }

  lemma InvKept(s: State, move: Move, workers: nat, writes: nat -> bool)
    requires Inv(s, workers, writes) && Enabled(s, move, workers)
    ensures Inv(After(s, move, writes), workers, writes)
  {
    match move {
      case Draw(w) => DrawKeepsEachOnce(s, w, writes);
      case Finish(w, success) => FinishKeepsEachOnce(s, w, success, writes);
      case Stop =>
    }
    AttributedKept(s, move, workers, writes);
    match move {
      case Draw(w) => DrawKeepsBalance(s, w, writes);
      case Finish(w, success) => FinishKeepsBalance(s, w, success, writes);
      case Stop =>
    }
  }

  lemma AttributedKept(s: State, move: Move, workers: nat, writes: nat -> bool)
    requires Attributed(s, workers, writes) && Enabled(s, move, workers)
    ensures Attributed(After(s, move, writes), workers, writes)
  {
  }

  lemma DrawKeepsEachOnce(s: State, w: nat, writes: nat -> bool)
    requires EachOnce(s) && w !in s.busy
    ensures EachOnce(After(s, Draw(w), writes))
  {
    var t := After(s, Draw(w), writes);
    forall id: nat | id < t.next && id !in t.finished ensures Held(t.busy, id) {
      if id == s.next {
        assert t.busy[w] == id;
      } else {
        var v :| v in s.busy && s.busy[v] == id;
        assert t.busy[v] == id;
      }
    }
  }

  lemma FinishKeepsEachOnce(s: State, w: nat, success: bool, writes: nat -> bool)
    requires EachOnce(s) && w in s.busy
    ensures EachOnce(After(s, Finish(w, success), writes))
  {
    var t := After(s, Finish(w, success), writes);
    forall id: nat | id < t.next && id !in t.finished ensures Held(t.busy, id) {
      assert id !in s.finished && id != s.busy[w];
      var v :| v in s.busy && s.busy[v] == id;
      assert t.busy[v] == id;
    }
  }

  lemma WritersOnDraw(busy: map<nat, nat>, w: nat, id: nat, writes: nat -> bool)
    requires w !in busy
    ensures |Writers(busy[w := id], writes)| == |Writers(busy, writes)| + if writes(id) then 1 else 0
  {
    var after := busy[w := id];
    if writes(id) {
      assert Writers(after, writes) == Writers(busy, writes) + {w};
    } else {
      assert Writers(after, writes) == Writers(busy, writes);
    }
  }

  lemma WritersOnFinish(busy: map<nat, nat>, w: nat, writes: nat -> bool)
    requires w in busy
    ensures |Writers(busy - {w}, writes)| == |Writers(busy, writes)| - if writes(busy[w]) then 1 else 0
  {
    var after := busy - {w};
    if writes(busy[w]) {
      assert Writers(after, writes) == Writers(busy, writes) - {w};
    } else {
      assert Writers(after, writes) == Writers(busy, writes);
    }
  }

  lemma BusyOnDraw(busy: map<nat, nat>, w: nat, id: nat)
    requires w !in busy
    ensures |busy[w := id]| == |busy| + 1
  {
    assert busy[w := id].Keys == busy.Keys + {w};
  }

  lemma BusyOnFinish(busy: map<nat, nat>, w: nat)
    requires w in busy
    ensures |busy - {w}| == |busy| - 1
  {
    assert (busy - {w}).Keys == busy.Keys - {w};
  }

  lemma WritesSnoc(events: seq<Event>, e: Event)
    ensures Writes(events + [e]) == Writes(events) + if e.write then 1 else 0
  {
    assert (events + [e])[..|events|] == events;
  }

  lemma DrawKeepsBalance(s: State, w: nat, writes: nat -> bool)
    requires Balanced(s, writes) && w !in s.busy
    ensures Balanced(After(s, Draw(w), writes), writes)
  {
    OneMoreId(0, s.next, writes);
    BusyOnDraw(s.busy, w, s.next);
    WritersOnDraw(s.busy, w, s.next, writes);
  }

  lemma FinishKeepsBalance(s: State, w: nat, success: bool, writes: nat -> bool)
    requires Balanced(s, writes) && w in s.busy
    ensures Balanced(After(s, Finish(w, success), writes), writes)
  {
    WritesSnoc(s.events, Event(writes(s.busy[w]), w, success));
    BusyOnFinish(s.busy, w);
    WritersOnFinish(s.busy, w, writes);
  }

  lemma {:induction false} ScheduleKeeps(s: State, moves: seq<Move>, workers: nat, writes: nat -> bool)
    requires Inv(s, workers, writes) && Schedule(s, moves, workers, writes)
    ensures Inv(Outcome(s, moves, workers, writes), workers, writes)
    decreases moves
  {
    if moves != [] {
      InvKept(s, moves[0], workers, writes);
      ScheduleKeeps(After(s, moves[0], writes), moves[1..], workers, writes);
    }
  }

  lemma StartIsFine(workers: nat, writes: nat -> bool)
    ensures Inv(START, workers, writes)
  {
    assert Writers(map[], writes) == {} && WriteIds(0, 0, writes) == {};
  }

  lemma {:induction false} FewBelow(numbers: set<nat>, n: nat)
    requires forall w :: w in numbers ==> w < n
    ensures |numbers| <= n
  {
    if n > 0 {
      FewBelow(numbers - {n - 1}, n - 1);
    } else {
      assert numbers == {};
    }
  }

  lemma {:induction false} Within(a: set<nat>, b: set<nat>)
    requires a <= b
    ensures |a| <= |b|
  {
    if a != {} {
      var x :| x in a;
      Within(a - {x}, b - {x});
    }
  }

  /** Whichever workers draw and in whatever order they finish: at any moment the events and the busy workers make up
      the numbers drawn, and the writes appended are short of the share of all numbers drawn by no more than the
      workers still busy. */
  lemma WritesFollowTheShare(moves: seq<Move>, workers: nat, fraction: real)
    requires Schedule(START, moves, workers, Plan(fraction))
    ensures var s := Outcome(START, moves, workers, Plan(fraction));
      && |s.events| + |s.busy| == s.next && |s.busy| <= workers
      && Share(s.next, fraction) - |s.busy| <= Writes(s.events) <= Share(s.next, fraction)
  {
    StartIsFine(workers, Plan(fraction));
    ScheduleKeeps(START, moves, workers, Plan(fraction));
    var s := Outcome(START, moves, workers, Plan(fraction));
    FirstIdsHoldTheShare(s.next, fraction);
    FewBelow(s.busy.Keys, workers);
    Within(Writers(s.busy, Plan(fraction)), s.busy.Keys);
  }

  lemma AllFinished(s: State)
    requires EachOnce(s) && s.busy == map[]
    ensures forall id: nat :: id in s.finished <==> id < s.next
  {
  }

  lemma AllWritten(s: State, fraction: real)
    requires Balanced(s, Plan(fraction)) && s.busy == map[]
    ensures Writes(s.events) == Share(|s.events|, fraction) && |s.events| == s.next
  {
    FirstIdsHoldTheShare(s.next, fraction);
    assert Writers(map[], Plan(fraction)) == {};
  }

  /** When every worker has returned, the events are those of the first numbers, each of them once, and exactly the
      share of them are writes. */
  lemma PhaseHoldsTheShare(moves: seq<Move>, workers: nat, fraction: real)
    requires Schedule(START, moves, workers, Plan(fraction)) && Outcome(START, moves, workers, Plan(fraction)).busy == map[]
    ensures var s := Outcome(START, moves, workers, Plan(fraction));
      && Writes(s.events) == Share(|s.events|, fraction)
      && |s.finished| == |s.events|
      && (forall i, j :: 0 <= i < j < |s.finished| ==> s.finished[i] != s.finished[j])
      && (forall id: nat :: id in s.finished <==> id < |s.events|)
      && (forall i :: 0 <= i < |s.events| ==> s.events[i].write == IsWrite(s.finished[i], fraction))
  {
    StartIsFine(workers, Plan(fraction));
    ScheduleKeeps(START, moves, workers, Plan(fraction));
    AllFinished(Outcome(START, moves, workers, Plan(fraction)));
    AllWritten(Outcome(START, moves, workers, Plan(fraction)), fraction);
  }

  /** The fraction of writes a phase reports. */
  function Achieved(events: seq<Event>): real {
    Writes(events) as real / (if |events| == 0 then 1 else |events|) as real
  }

  lemma Quotient(writes: real, n: real, fraction: real)
    requires n >= 1.0 && n * fraction - 1.0 < writes <= n * fraction
    ensures fraction - 1.0 / n < writes / n <= fraction
  {
    var one, part := 1.0 / n, writes / n;
    assert one * n == 1.0 && part * n == writes;
    Cancel(part, fraction, n);
    CancelStrictly(fraction - one, part, n);
  }

  lemma Cancel(a: real, b: real, n: real)
    requires n > 0.0 && a * n <= n * b
    ensures a <= b
  {
  }

  lemma CancelStrictly(a: real, b: real, n: real)
    requires n > 0.0 && a * n < b * n
    ensures a < b
  {
  }

  /** The fraction reported falls short of the one asked for by less than one operation in all. A phase without
      operations reports none. */
  lemma AchievedFraction(moves: seq<Move>, workers: nat, fraction: real)
    requires Schedule(START, moves, workers, Plan(fraction)) && Outcome(START, moves, workers, Plan(fraction)).busy == map[]
    requires 0.0 <= fraction <= 1.0
    ensures var events := Outcome(START, moves, workers, Plan(fraction)).events;
      && (events == [] ==> Achieved(events) == 0.0)
      && (events != [] ==> fraction - 1.0 / |events| as real < Achieved(events) <= fraction)
  {
    PhaseHoldsTheShare(moves, workers, fraction);
    var events := Outcome(START, moves, workers, Plan(fraction)).events;
    if events != [] {
      Quotient(Writes(events) as real, |events| as real, fraction);
    }
  }

  /** The objects the workers of a phase share. */
  class Phase {
    const fraction: real
    var next: nat
    var stopped: bool
    var busy: map<nat, nat>
    var events: seq<Event>
    ghost var finished: seq<nat>

    ghost function Current(): State
      reads this
    {
      State(next, stopped, busy, events, finished)
    }

    constructor (fraction: real)
      ensures this.fraction == fraction && Current() == START
    {
      this.fraction := fraction;
      next, stopped, busy, events, finished := 0, false, map[], [], [];
    }

    /** The head of a worker's loop: nothing once the phase is stopped, otherwise the next number. */
    method TakeNumber(worker: nat) returns (id: Option<nat>)
      requires worker !in busy
      modifies this
      ensures id == if old(stopped) then None else Some(old(next))
      ensures Current() == if old(stopped) then old(Current()) else After(old(Current()), Draw(worker), Plan(fraction))
    {
      if stopped {
        return None;
      }
      id := Some(next);
      busy := busy[worker := next];
      next := next + 1;
    }

    /** The end of the operation a worker carries out: one event, whether it succeeded or failed. */
    method AppendEvent(worker: nat, success: bool)
      requires worker in busy
      modifies this
      ensures Current() == After(old(Current()), Finish(worker, success), Plan(fraction))
    {
      var id := busy[worker];
      events := events + [Event(IsWrite(id, fraction), worker, success)];
      busy := busy - {worker};
      finished := finished + [id];
    }

    method SetStop()
      modifies this
      ensures Current() == After(old(Current()), Move.Stop, Plan(fraction))
    {
      stopped := true;
    }
  }

  /** The workers of a phase take turns in any order a schedule allows. What they share ends up as the schedule says. */
  method RunPhase(moves: seq<Move>, workers: nat, fraction: real) returns (phase: Phase)
    requires Schedule(START, moves, workers, Plan(fraction))
    ensures phase.fraction == fraction && phase.Current() == Outcome(START, moves, workers, Plan(fraction))
  {
    phase := new Phase(fraction);
    for i := 0 to |moves|
      invariant phase.fraction == fraction && fresh(phase)
      invariant Schedule(phase.Current(), moves[i..], workers, Plan(fraction))
      invariant Outcome(phase.Current(), moves[i..], workers, Plan(fraction)) == Outcome(START, moves, workers, Plan(fraction))
    {
      assert moves[i..][0] == moves[i] && moves[i..][1..] == moves[i + 1..];
      match moves[i] {
        case Draw(worker) => var id := phase.TakeNumber(worker);
        case Finish(worker, success) => phase.AppendEvent(worker, success);
        case Stop => phase.SetStop();
      }
    }
  }
}
