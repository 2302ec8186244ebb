/**
 * The four stage operations of a node and its checkpoints. Each stage
 * operation either does the stage's work (handed in as `work`, the data the
 * algorithm leaves behind) and moves on to the next stage, passes the stored
 * data through, or throws because the stage has not been reached yet.
 * `interrupted` is the node's interrupted flag as it stands when the work
 * is done; a transition is installed only when it is down, as
 * `setCurrentState` waits for the other nodes and then checks the flag.
 */
module Stages {
  import opened Wrappers
  import opened AntiChains
  import opened States

  /** The state a stage operation leaves current, and the value it returns. */
  datatype Step<C, V> = Step(current: State<C>, value: V)

  function StageIndex(stage: Stage): nat
  {
    match stage
    case Init => 0
    case Preparation => 1
    case Summing => 2
    case Finished => 3
  }

  /** The current state either keeps its stage or moves exactly one stage on. */
  predicate OneStageAtMost<C>(s: State<C>, t: State<C>)
  {
    t.rank == s.rank && t.nodes == s.nodes && t.order == s.order
    && (t.stage == s.stage || StageIndex(t.stage) == StageIndex(s.stage) + 1)
  }

  /** Does the work and records the time it took under `message`. */
  function Run<C>(s: State<C>, work: State<C> -> Data<C>, message: string, elapsed: int): (r: State<C>)
    ensures r.stage == s.stage && r.rank == s.rank && r.nodes == s.nodes && r.order == s.order
    ensures r.data == work(s).(timings := r.data.timings)
  {
    AddTiming(s.(data := work(s)), message, elapsed)
  }

  /** Computing the equivalence classes: done in the initial stage, passed through later. */
  function ComputeClasses<C>(s: State<C>, work: State<C> -> Data<C>, elapsed: int): (r: Step<C, Option<map<AntiChain, int>>>)
    ensures s.stage != Init ==> r == Step(s, s.data.classes)
    ensures s.stage == Init ==> r.current.stage == Init && r.value == work(s).classes
    ensures r.value == r.current.data.classes
    ensures OneStageAtMost(s, r.current)
  {
    match s.stage
    case Init =>
      var t := Run(s, work, "equivalence classes", elapsed);
      Step(t, t.data.classes)
    case _ => Step(s, s.data.classes)
  }

  /**
   * Computing the left interval sizes: the initial stage refuses to start
   * without equivalence classes, does the work and builds the preparation
   * stage, whose constructor may throw; the new stage becomes current only
   * when the node is not interrupted. Later stages pass the sizes through.
   */
  function ComputeLeft<C>(s: State<C>, work: State<C> -> Data<C>, elapsed: int, interrupted: bool)
    : (r: Result<Step<C, Option<map<AntiChain, int>>>, Error>)
    ensures s.stage != Init ==> r == Success(Step(s, s.data.left))
    ensures s.stage == Init && !Filled(s.data.classes) ==> r == Failure(IllegalState)
    ensures s.stage == Init && Filled(s.data.classes) ==>
              (r.Success? <==> s.order >= 3 && NonNegative(work(s).sum) && Filled(work(s).classes))
    ensures s.stage == Init && r.Success? ==>
              r.value.value == work(s).left
              && r.value.current.stage == (if interrupted then Init else Preparation)
              && r.value.current.data.classes == work(s).classes
              && r.value.current.data.counter == (if interrupted then work(s).counter else 0)
    ensures r.Failure? ==> r.error == IllegalState || r.error == IllegalArgument
    ensures r.Success? ==> OneStageAtMost(s, r.value.current)
  {
    match s.stage
    case Init =>
      if !Filled(s.data.classes) then Failure(IllegalState)
      else
        var t := Run(s, work, "left interval sizes", elapsed);
        var next :- NewPreparation(t);
        Success(Step(if interrupted then t else next, t.data.left))
    case _ => Success(Step(s, s.data.left))
  }

  /**
   * Computing the (mu,nu,eta) classes: impossible before the preparation
   * stage, done there (moving to the summing stage unless interrupted), and
   * passed through later.
   */
  function ComputeTriples<C>(s: State<C>, work: State<C> -> Data<C>, elapsed: int, interrupted: bool)
    : (r: Result<Step<C, Option<map<C, int>>>, Error>)
    ensures s.stage == Init ==> r == Failure(UnsupportedOperation)
    ensures s.stage == Summing || s.stage == Finished ==> r == Success(Step(s, s.data.triples))
    ensures s.stage == Preparation && interrupted ==>
              r.Success? && r.value.current.stage == Preparation && r.value.value == work(s).triples
    ensures s.stage == Preparation && !interrupted ==>
              (r.Success? <==> s.order >= 3 && NonNegative(work(s).sum)
                               && Filled(work(s).triples) && Filled(work(s).left))
    ensures s.stage == Preparation && !interrupted && r.Success? ==>
              r.value.current.stage == Summing && r.value.value == work(s).triples
              && r.value.current.data.triples == work(s).triples && r.value.current.data.counter == 0
    ensures r.Success? ==> OneStageAtMost(s, r.value.current)
  {
    match s.stage
    case Init => Failure(UnsupportedOperation)
    case Preparation =>
      var t := Run(s, work, "munueta equivalence classes", elapsed);
      if interrupted then Success(Step(t, t.data.triples))
      else
        var next :- NewSumming(t);
        Success(Step(next, t.data.triples))
    case _ => Success(Step(s, s.data.triples))
  }

  /**
   * Computing the sum: impossible before the summing stage, done there
   * (moving to the finished stage unless interrupted), and returned as
   * stored once finished.
   */
  function ComputeSum<C>(s: State<C>, work: State<C> -> Data<C>, elapsed: int, interrupted: bool)
    : (r: Result<Step<C, Option<int>>, Error>)
    ensures s.stage == Init || s.stage == Preparation ==> r == Failure(UnsupportedOperation)
    ensures s.stage == Finished ==> r == Success(Step(s, s.data.sum))
    ensures s.stage == Summing && interrupted ==>
              r.Success? && r.value.current.stage == Summing && r.value.value == work(s).sum
    ensures s.stage == Summing && !interrupted ==>
              (r.Success? <==> s.order >= 3 && work(s).sum.Some? && work(s).sum.value >= 0)
    ensures s.stage == Summing && !interrupted && r.Success? ==>
              r.value.current.stage == Finished && r.value.value == work(s).sum
              && r.value.current.data.sum == work(s).sum
    ensures r.Success? ==> OneStageAtMost(s, r.value.current)
  {
    match s.stage
    case Init => Failure(UnsupportedOperation)
    case Preparation => Failure(UnsupportedOperation)
    case Summing =>
      var t := Run(s, work, "sum", elapsed);
      if interrupted then Success(Step(t, t.data.sum))
      else
        var next :- NewFinished(t);
        Success(Step(next, t.data.sum))
    case Finished => Success(Step(s, s.data.sum))
  }

  /** The stage operations keep a state valid, provided the work never leaves a negative sum. */
  lemma StagesKeepValid<C>(s: State<C>, work: State<C> -> Data<C>, elapsed: int, interrupted: bool)
    requires Valid(s) && NonNegative(work(s).sum)
    ensures Valid(ComputeClasses(s, work, elapsed).current)
    ensures ComputeLeft(s, work, elapsed, interrupted).Success? ==>
              Valid(ComputeLeft(s, work, elapsed, interrupted).value.current)
    ensures ComputeTriples(s, work, elapsed, interrupted).Success? ==>
              Valid(ComputeTriples(s, work, elapsed, interrupted).value.current)
    ensures ComputeSum(s, work, elapsed, interrupted).Success? ==>
              Valid(ComputeSum(s, work, elapsed, interrupted).value.current)
  {
  }

  /**
   * An interruption while the left sizes are computed does not change
   * whether the step succeeds, but the node stays in the initial stage: its
   * checkpoint reads back as the initial stage holding the computed classes
   * and left sizes, so a resumed node makes the transition again.
   */
  lemma InterruptedLeftStaysInit<C>(s: State<C>, work: State<C> -> Data<C>, elapsed: int)
    requires s.stage == Init
    ensures ComputeLeft(s, work, elapsed, true).Success? <==> ComputeLeft(s, work, elapsed, false).Success?
    ensures ComputeLeft(s, work, elapsed, true).Success? ==>
              var t := ComputeLeft(s, work, elapsed, true).value.current;
              && Restore(Store(t)).Success?
              && Restore(Store(t)).value.stage == Init
              && Restore(Store(t)).value.data.classes == work(s).classes
              && Restore(Store(t)).value.data.left == work(s).left
  {
  }

  /** Once finished, every stage operation returns what is stored and changes nothing, however often it is called. */
  lemma FinishedIsTerminal<C>(s: State<C>, work: State<C> -> Data<C>, elapsed: int, interrupted: bool)
    requires s.stage == Finished
    ensures ComputeClasses(s, work, elapsed) == Step(s, s.data.classes)
    ensures ComputeLeft(s, work, elapsed, interrupted) == Success(Step(s, s.data.left))
    ensures ComputeTriples(s, work, elapsed, interrupted) == Success(Step(s, s.data.triples))
    ensures ComputeSum(s, work, elapsed, interrupted) == Success(Step(s, s.data.sum))
    ensures ComputeSum(ComputeSum(s, work, elapsed, interrupted).value.current, work, elapsed, interrupted)
            == ComputeSum(s, work, elapsed, interrupted)
  {
  }

  /** One field of a checkpoint, as the stage writes it after the common fields. */
  datatype Field<C> =
    | ClassesField(classes: Option<map<AntiChain, int>>)
    | LeftField(left: Option<map<AntiChain, int>>)
    | TriplesField(triples: Option<map<C, int>>)
    | SumField(sum: Option<int>)
    | CounterField(counter: int)

  /**
   * A checkpoint: the fields every state writes (stage, rank, number of
   * nodes, order, timings) and then the stage's own fields in order.
   */
  datatype Checkpoint<C> = Checkpoint(stage: Stage, rank: int, nodes: int, order: int,
                                      timings: map<string, int>, fields: seq<Field<C>>)

  /** Writes a state: each stage writes its own selection of fields. */
  function Store<C>(s: State<C>): (cp: Checkpoint<C>)
    ensures cp.stage == s.stage && cp.rank == s.rank && cp.nodes == s.nodes && cp.order == s.order
    ensures cp.timings == s.data.timings
  {
    var d := s.data;
    var fields := match s.stage
      case Init => [ClassesField(d.classes), LeftField(d.left)]
      case Preparation => [ClassesField(d.classes), LeftField(d.left), TriplesField(d.triples), CounterField(d.counter)]
      case Summing => [LeftField(d.left), TriplesField(d.triples), SumField(d.sum), CounterField(d.counter)]
      case Finished => [SumField(d.sum)];
    Checkpoint(s.stage, s.rank, s.nodes, s.order, d.timings, fields)
  }

  /**
   * Reads a state back. Fields that are not written come back absent and the
   * counter at 0; a written counter comes back one lower, since the
   * iteration that was interrupted has to be done again. A sum goes through
   * `SetSum`.
   */
  function Restore<C>(cp: Checkpoint<C>): (r: Result<State<C>, Error>)
    ensures r.Success? ==> r.value.stage == cp.stage && r.value.rank == cp.rank && r.value.nodes == cp.nodes
                           && r.value.order == cp.order && r.value.data.timings == cp.timings
    ensures r.Success? ==> NonNegative(r.value.data.sum)
    ensures r.Success? && !CountsIterations(cp.stage) ==> r.value.data.counter == 0
    ensures r.Success? && cp.stage == Finished ==> r.value.data.classes == None && r.value.data.left == None
    ensures r.Failure? ==> r.error == Unreadable || r.error == IllegalArgument
  {
    var base := State(cp.stage, cp.rank, cp.nodes, cp.order, Data(cp.timings, 0, None, None, None, None));
    var f := cp.fields;
    match cp.stage
    case Init =>
      if |f| == 2 && f[0].ClassesField? && f[1].LeftField? then
        Success(base.(data := base.data.(classes := f[0].classes, left := f[1].left)))
      else Failure(Unreadable)
    case Preparation =>
      if |f| == 4 && f[0].ClassesField? && f[1].LeftField? && f[2].TriplesField? && f[3].CounterField? then
        Success(base.(data := base.data.(classes := f[0].classes, left := f[1].left,
                                         triples := f[2].triples, counter := f[3].counter - 1)))
      else Failure(Unreadable)
    case Summing =>
      if |f| == 4 && f[0].LeftField? && f[1].TriplesField? && f[2].SumField? && f[3].CounterField? then
        var s :- SetSum(base.(data := base.data.(left := f[0].left, triples := f[1].triples)), f[2].sum);
        Success(s.(data := s.data.(counter := f[3].counter - 1)))
      else Failure(Unreadable)
    case Finished =>
      if |f| == 1 && f[0].SumField? then SetSum(base, f[0].sum)
      else Failure(Unreadable)
  }

  predicate CountsIterations(stage: Stage)
  {
    stage == Preparation || stage == Summing
  }

  /**
   * The checkpoint round trip. The initial stage keeps the equivalence
   * classes and left sizes; the preparation stage also the (mu,nu,eta)
   * classes and the counter; the summing stage the left sizes, the
   * (mu,nu,eta) classes, the sum and the counter; the finished stage only
   * the sum. A kept counter comes back one lower.
   */
  lemma RestoreStore<C>(s: State<C>)
    requires NonNegative(s.data.sum)
    ensures Restore(Store(s)).Success?
    ensures var t := Restore(Store(s)).value;
      && t.stage == s.stage && t.rank == s.rank && t.nodes == s.nodes && t.order == s.order
      && t.data.timings == s.data.timings
      && t.data.classes == (if s.stage == Init || s.stage == Preparation then s.data.classes else None)
      && t.data.left == (if s.stage != Finished then s.data.left else None)
      && t.data.triples == (if CountsIterations(s.stage) then s.data.triples else None)
      && t.data.sum == (if s.stage == Summing || s.stage == Finished then s.data.sum else None)
      && t.data.counter == (if CountsIterations(s.stage) then s.data.counter - 1 else 0)
    ensures Valid(s) ==> Valid(Restore(Store(s)).value)
  {
  }

  /** A checkpoint holding a negative sum cannot be read back. */
  lemma RestoreRejectsNegativeSum<C>(s: State<C>)
    requires s.stage == Summing || s.stage == Finished
    requires s.data.sum.Some? && s.data.sum.value < 0
    ensures Restore(Store(s)) == Failure(IllegalArgument)
  {
  }

  /**
   * Resuming after an interruption: a checkpoint assumed to be taken after
   * the claim for item `x` (the counter advanced `x + 1` times) and before
   * the item's removal restores a state that
   * makes, from item `x` on, exactly the claims the uninterrupted run makes.
   * In particular the interrupted item goes to the same rank again.
   */
  lemma {:induction false} ResumeSameClaims<C>(s0: State<C>, x: nat, k: nat)
    requires CounterInRange(s0) && NonNegative(s0.data.sum) && CountsIterations(s0.stage)
    ensures Restore(Store(Advance(s0, x + 1))).Success?
    ensures Turns(Restore(Store(Advance(s0, x + 1))).value, k) == Turns(s0, x + k)[x..x + k]
  {
    var n, c0 := s0.nodes, s0.data.counter;
    var st := Advance(s0, x + 1);
    AdvanceCounter(s0, x + 1);
    RestoreStore(st);
    var t := Restore(Store(st)).value;
    assert t.rank == s0.rank && t.nodes == n && t.data.counter == (c0 + x + 1) % n - 1;
    forall j | 0 <= j < k ensures Turns(t, k)[j] == Turns(s0, x + k)[x + j] {
      TurnsOwner(t, k, j);
      TurnsOwner(s0, x + k, x + j);
      ModShift(c0 + x + 1, j, n);
    }
  }
  /**
   * Resuming after the flag was seen at the head of the loop, before item
   * `x`: the counter has advanced only `x` times, yet the restored counter is
   * still one lower. The resumed pass makes the turns of the uninterrupted
   * pass from item `x - 1` on, so with two or more nodes item `x` goes to the
   * owner of item `x - 1`, a different rank.
   */
  lemma HeadResumeShifts<C>(s0: State<C>, x: nat, k: nat)
    requires CounterInRange(s0) && NonNegative(s0.data.sum) && CountsIterations(s0.stage) && x >= 1
    ensures Restore(Store(Advance(s0, x))).Success?
    ensures Turns(Restore(Store(Advance(s0, x))).value, k) == Turns(s0, x - 1 + k)[x - 1..x - 1 + k]
    ensures k >= 1 ==>
              (Turns(Restore(Store(Advance(s0, x))).value, k)[0] <==> s0.rank == Owner(s0.data.counter, s0.nodes, x - 1))
    ensures s0.nodes >= 2 ==> Owner(s0.data.counter, s0.nodes, x - 1) != Owner(s0.data.counter, s0.nodes, x)
  {
    ResumeSameClaims(s0, x - 1, k);
    if k >= 1 {
      TurnsOwner(s0, x - 1 + k, x - 1);
    }
    if s0.nodes >= 2 {
      OwnersDiffer(s0.data.counter, s0.nodes, x - 1, x);
    }
  }

}
