/** The guard that keeps one read outstanding on a stream, as interleaved atomic steps of any number of threads. */
module StreamReads {
  import opened Wrappers

  /** Where a thread is in readNext: outside, past the closed check, past the exchange that found no read pending, or
      past setting its callback. */
  datatype Reader = Idle | Checked | Claimed | Armed

  /** pending and closed are the two flags; outstanding counts reads started and not completed, completing counts
      completions that have not cleared the flag yet, and handling those that have and still use the response buffer and
      the callback. The callback is that of the first read, that of a thread, or none. */
  datatype State = State(
    pending: bool, closed: bool, threads: seq<Reader>, outstanding: nat, completing: nat, handling: nat,
    callback: Callback)

  datatype Callback = NoCallback | First | Of(thread: nat)

  datatype Step =
    | Call(t: nat)
    | Exchange(t: nat)
    | SetCallback(t: nat)
    | StartRead(t: nat)
    | Complete
    | Release(ok: bool)
    | Handled
    | Finish

  /** After startStream: its own read is outstanding and no thread is in readNext. */
  function Started(threads: nat): State {
    State(true, false, seq(threads, i => Idle), 1, 0, 0, First)
  }

  predicate At(s: State, t: nat, r: Reader) {
    t < |s.threads| && s.threads[t] == r
  }

  function Move(s: State, t: nat, r: Reader): State
    requires t < |s.threads|
  {
    s.(threads := s.threads[t := r])
  }

  /** One atomic step, if it is enabled. */
  function Next(s: State, step: Step): Option<State> {
    match step
    case Call(t) =>
      if !At(s, t, Idle) then None
      else Some(if s.closed then s else Move(s, t, Checked))
    case Exchange(t) =>
      if !At(s, t, Checked) then None
      else Some(Move(s, t, if s.pending then Idle else Claimed).(pending := true))
    case SetCallback(t) =>
      if !At(s, t, Claimed) then None else Some(Move(s, t, Armed).(callback := Of(t)))
    case StartRead(t) =>
      if !At(s, t, Armed) then None else Some(Move(s, t, Idle).(outstanding := s.outstanding + 1))
    case Complete =>
      if s.outstanding == 0 then None
      else Some(s.(outstanding := s.outstanding - 1, completing := s.completing + 1))
    case Release(ok) =>
      if s.completing == 0 then None
      else Some(s.(pending := false, completing := s.completing - 1, handling := s.handling + if ok then 1 else 0))
    case Handled =>
      if s.handling == 0 then None
      else Some(s.(handling := s.handling - 1, callback := NoCallback))
    case Finish =>
      Some(s.(closed := true))
  }

  function Run(s: State, steps: seq<Step>): Option<State>
    decreases steps
  {
    if steps == [] then Some(s)
    else
      match Next(s, steps[0])
      case None => None
      case Some(t) => Run(t, steps[1..])
  }

  function Weight(r: Reader): nat {
    if r == Claimed || r == Armed then 1 else 0
  }

  /** How many threads are past the exchange with the read to start. */
  function Holders(threads: seq<Reader>): nat {
    if threads == [] then 0 else Weight(threads[0]) + Holders(threads[1..])
  }

  lemma {:induction false} HoldersMove(threads: seq<Reader>, t: nat, r: Reader)
    requires t < |threads|
    ensures Holders(threads[t := r]) == Holders(threads) - Weight(threads[t]) + Weight(r)
    decreases threads
  {
    var moved := threads[t := r];
    if t > 0 {
      assert moved[1..] == threads[1..][t - 1 := r];
      HoldersMove(threads[1..], t - 1, r);
    } else {
      assert moved[1..] == threads[1..];
    }
  }

  lemma {:induction false} NoHolders(n: nat)
    ensures Holders(seq(n, i => Idle)) == 0
  {
    if n > 0 {
      assert seq(n, i => Idle)[1..] == seq(n - 1, i => Idle);
      NoHolders(n - 1);
    }
  }

  /** The flag is a token: it is set exactly while one thread, read or completion holds it. */
  ghost predicate OneToken(s: State) {
    Holders(s.threads) + s.outstanding + s.completing == if s.pending then 1 else 0
  }

  lemma StepKeepsToken(s: State, step: Step)
    requires OneToken(s) && Next(s, step).Some?
    ensures OneToken(Next(s, step).value)
  {
    match step
    case Call(t) => if !s.closed { HoldersMove(s.threads, t, Checked); }
    case Exchange(t) => HoldersMove(s.threads, t, if s.pending then Idle else Claimed);
    case SetCallback(t) => HoldersMove(s.threads, t, Armed);
    case StartRead(t) => HoldersMove(s.threads, t, Idle);
    case _ =>
  }

  /** Every run keeps the token. */
  lemma {:induction false} RunKeepsToken(s: State, steps: seq<Step>)
    requires OneToken(s) && Run(s, steps).Some?
    ensures OneToken(Run(s, steps).value)
    decreases steps
  {
    if steps != [] {
      StepKeepsToken(s, steps[0]);
      RunKeepsToken(Next(s, steps[0]).value, steps[1..]);
    }
  }

  lemma {:induction false} HolderCounts(threads: seq<Reader>, t: nat)
    requires t < |threads|
    ensures Weight(threads[t]) <= Holders(threads)
    decreases threads
  {
    if t > 0 { HolderCounts(threads[1..], t - 1); }
  }

  /** In every reachable state at most one read is outstanding, and a thread about to start one finds none. */
  lemma OneRead(threads: nat, steps: seq<Step>, t: nat)
    requires Run(Started(threads), steps).Some?
    ensures var s := Run(Started(threads), steps).value;
      && s.outstanding <= 1
      && (Next(s, StartRead(t)).Some? ==>
            s.outstanding == 0 && s.completing == 0 && Next(s, StartRead(t)).value.outstanding == 1)
  {
    NoHolders(threads);
    RunKeepsToken(Started(threads), steps);
    var s := Run(Started(threads), steps).value;
    if At(s, t, Armed) { HolderCounts(s.threads, t); }
  }

  // ---------- closing ----------

  /** A thread passes the check exactly if the stream is not closed, and nothing opens it again. */
  lemma CheckPasses(s: State, step: Step, t: nat)
    requires Next(s, step).Some? && At(s, t, Idle)
    ensures var n := Next(s, step).value;
      && (!At(n, t, Idle) <==> step == Call(t) && !s.closed)
      && (n.closed <==> s.closed || step == Finish)
  {
  }

  /** Once the stream is closed no thread outside `readNext` ever starts a read, in any run. */
  lemma {:induction false} NoReadOnceClosed(s: State, steps: seq<Step>, t: nat)
    requires s.closed && At(s, t, Idle) && Run(s, steps).Some?
    ensures Run(s, steps).value.closed && At(Run(s, steps).value, t, Idle)
    ensures StartRead(t) !in steps
    decreases steps
  {
    if steps != [] {
      CheckPasses(s, steps[0], t);
      NoReadOnceClosed(Next(s, steps[0]).value, steps[1..], t);
      assert steps == [steps[0]] + steps[1..];
    }
  }

  // ---------- what becomes of a read ----------

  function Count(steps: seq<Step>, kind: Step -> bool): (n: nat)
    ensures n <= |steps|
  {
    if steps == [] then 0 else (if kind(steps[0]) then 1 else 0) + Count(steps[1..], kind)
  }

  /** Each read that is started is completed once, each completion is released once, and those released with a message
      are handled once; the difference is what the state counts. */
  lemma {:induction false} ReadsConserved(s: State, steps: seq<Step>)
    requires Run(s, steps).Some?
    ensures var r := Run(s, steps).value;
      && s.outstanding + Count(steps, (x: Step) => x.StartRead?)
           == Count(steps, (x: Step) => x.Complete?) + r.outstanding
      && s.completing + Count(steps, (x: Step) => x.Complete?)
           == Count(steps, (x: Step) => x.Release?) + r.completing
      && s.handling + Count(steps, (x: Step) => x == Release(true))
           == Count(steps, (x: Step) => x.Handled?) + r.handling
    decreases steps
  {
    if steps != [] {
      ReadsConserved(Next(s, steps[0]).value, steps[1..]);
    }
  }

  // ---------- the buffer and the callback ----------

  /** Who uses the response buffer and the callback. */
  function Users(s: State): nat {
    Holders(s.threads) + s.outstanding + s.completing + s.handling
  }

  /** No thread claims the next read while the last completion is still being handled. */
  ghost predicate Orderly(s: State, steps: seq<Step>)
    decreases steps
  {
    steps == [] || Next(s, steps[0]).None? ||
    (!(steps[0].Exchange? && !s.pending && s.handling > 0) && Orderly(Next(s, steps[0]).value, steps[1..]))
  }

  ghost predicate AlwaysOneUser(s: State, steps: seq<Step>)
    decreases steps
  {
    Users(s) <= 1 && (steps == [] || Next(s, steps[0]).None? || AlwaysOneUser(Next(s, steps[0]).value, steps[1..]))
  }

  /** The token does not cover the handling of a completion: the buffer and the callback have one user throughout a run
      exactly when no thread claims a read while a completion is handled. */
  lemma {:induction false} OneUserOrderly(s: State, steps: seq<Step>)
    requires OneToken(s) && Users(s) <= 1
    ensures AlwaysOneUser(s, steps) <==> Orderly(s, steps)
    decreases steps
  {
    if steps != [] && Next(s, steps[0]).Some? {
      var n := Next(s, steps[0]).value;
      StepKeepsToken(s, steps[0]);
      StepUsers(s, steps[0]);
      if Users(n) <= 1 {
        OneUserOrderly(n, steps[1..]);
      }
    }
  }

  lemma StepUsers(s: State, step: Step)
    requires OneToken(s) && Next(s, step).Some? && Users(s) <= 1
    ensures Users(Next(s, step).value) <= 1 <==> !(step.Exchange? && !s.pending && s.handling > 0)
  {
    match step
    case Call(t) => if !s.closed { HoldersMove(s.threads, t, Checked); }
    case Exchange(t) => HoldersMove(s.threads, t, if s.pending then Idle else Claimed);
    case SetCallback(t) => HoldersMove(s.threads, t, Armed);
    case StartRead(t) => HoldersMove(s.threads, t, Idle);
    case _ =>
  }

  /** A run in which the handling of one completion clears the callback of the next read. */
  lemma CallbackLost()
    ensures
      var steps := [Call(0), Complete, Release(true), Exchange(0), SetCallback(0), StartRead(0)];
      var r, after := Run(Started(1), steps), Run(Started(1), steps + [Handled]);
      && r.Some? && r.value.outstanding == 1 && r.value.callback == Of(0)
      && after.Some? && after.value.outstanding == 1 && after.value.callback == NoCallback
  {
    NextRead();
    RunThen(Started(1), [Call(0), Complete, Release(true), Exchange(0), SetCallback(0), StartRead(0)], Handled);
  }

  lemma NextRead()
    ensures Run(Started(1), [Call(0), Complete, Release(true), Exchange(0), SetCallback(0), StartRead(0)])
         == Some(State(true, false, [Idle], 1, 0, 1, Of(0)))
  {
    var s0 := Started(1);
    var s1 := State(true, false, [Checked], 1, 0, 0, First);
    var s2 := State(true, false, [Checked], 0, 1, 0, First);
    var s3 := State(false, false, [Checked], 0, 0, 1, First);
    var s4 := State(true, false, [Claimed], 0, 0, 1, First);
    var s5 := State(true, false, [Armed], 0, 0, 1, Of(0));
    var s6 := State(true, false, [Idle], 1, 0, 1, Of(0));
    assert s0.threads == [Idle];
    assert [Idle][0 := Checked] == [Checked] && [Checked][0 := Claimed] == [Claimed]
        && [Claimed][0 := Armed] == [Armed] && [Armed][0 := Idle] == [Idle];
    RunStep(s5, [StartRead(0)], s6);
    RunStep(s4, [SetCallback(0), StartRead(0)], s5);
    RunStep(s3, [Exchange(0), SetCallback(0), StartRead(0)], s4);
    RunStep(s2, [Release(true), Exchange(0), SetCallback(0), StartRead(0)], s3);
    RunStep(s1, [Complete, Release(true), Exchange(0), SetCallback(0), StartRead(0)], s2);
    RunStep(s0, [Call(0), Complete, Release(true), Exchange(0), SetCallback(0), StartRead(0)], s1);
  }

  lemma RunStep(s: State, steps: seq<Step>, n: State)
    requires steps != [] && Next(s, steps[0]) == Some(n)
    ensures Run(s, steps) == Run(n, steps[1..])
  {
  }

  lemma {:induction false} RunThen(s: State, steps: seq<Step>, last: Step)
    requires Run(s, steps).Some?
    ensures Run(s, steps + [last]) == Next(Run(s, steps).value, last)
    decreases steps
  {
    if steps == [] {
      assert ([] + [last])[0] == last;
    } else {
      assert (steps + [last])[1..] == steps[1..] + [last];
      RunThen(Next(s, steps[0]).value, steps[1..], last);
    }
  }
}
