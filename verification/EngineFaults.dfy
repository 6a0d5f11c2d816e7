/**
 Where the engine-subprocess protocol goes wrong: exactly which cancelled calls make a later call
 return another request's answer, and exactly when a failed `start` leaves a child that is used.
 Cancelling a task while it writes its request counts as cancelling it afterwards: the writing
 thread is not stopped.
 Source: runner/common/engineproc.py.
 */
module EngineFaults {
  import opened Basics
  import opened Options
  import opened EngineProtocol

  // ----- cancellation ----------------------------------------------------------------

  /** Cancelling the task that holds the lock bypasses the handlers that evict the child. */
  function Cancelled(s: Sys): Sys {
    s.(phase := Free)
  }

  /** A run in which the task holding the lock may also be cancelled, at any time and any number of times. */
  datatype Move = Do(step: Step) | Cancel

  function Moved(s: Sys, moves: seq<Move>): Option<Sys>
    decreases |moves|
  {
    if moves == [] then Some(s)
    else
      match moves[0]
      case Do(step) => if Enabled(s, step) then Moved(Apply(s, step), moves[1..]) else None
      case Cancel => if s.phase.Free? then None else Moved(Cancelled(s), moves[1..])
  }

  /** What holds of every state, whatever was cancelled before. */
  predicate Structured(s: Sys) {
    && (s.proc.Some? ==> s.proc.value in s.children)
    && (!s.phase.Free? ==> s.proc.Some?)
    && (s.phase.Probing? ==> Settled(s.children[s.proc.value]))
    && (s.phase.Reading? ==> s.phase.left > 0)
    && Tagged(s)
  }

  predicate Settled(x: Child) {
    Outstanding(x) == []
  }

  lemma ChildStepKeepsStructure(s: Sys, step: Step)
    requires Structured(s) && Enabled(s, step) && IsChildStep(step)
    ensures Structured(Apply(s, step))
  {
    ChildStepKeepsTags(s, step);
    ChildKeepsOutstanding(s.children[step.c], step);
  }

  predicate TakesLine(step: Step) {
    step.ProbeLine? || step.DrainLine? || step.ReadLine?
  }

  lemma ProbeKeepsStructure(s: Sys)
    requires Structured(s) && Enabled(s, ProbeLine)
    ensures Structured(Apply(s, ProbeLine))
  {
    ReadingKeeps(s);
    assert Settled(Popped(s).children[s.proc.value]);
  }

  lemma DrainKeepsStructure(s: Sys)
    requires Structured(s) && Enabled(s, DrainLine)
    ensures Structured(Apply(s, DrainLine))
  {
    ReadingKeeps(s);
  }

  lemma ReadKeepsStructure(s: Sys)
    requires Structured(s) && Enabled(s, ReadLine)
    ensures Structured(Apply(s, ReadLine))
  {
    ReadingKeeps(s);
  }

  lemma OtherStepKeepsStructure(s: Sys, step: Step)
    requires Structured(s) && Enabled(s, step) && !IsChildStep(step) && !TakesLine(step)
    ensures Structured(Apply(s, step))
  {
    OtherStepKeepsTags(s, step);
  }

  lemma StepKeepsStructure(s: Sys, step: Step)
    requires Structured(s) && Enabled(s, step)
    ensures Structured(Apply(s, step))
  {
    if IsChildStep(step) {
      ChildStepKeepsStructure(s, step);
    } else {
      match step
      case ProbeLine => ProbeKeepsStructure(s);
      case DrainLine => DrainKeepsStructure(s);
      case ReadLine => ReadKeepsStructure(s);
      case _ => OtherStepKeepsStructure(s, step);
    }
  }

  lemma OtherStepKeepsTags(s: Sys, step: Step)
    requires Structured(s) && Enabled(s, step) && !IsChildStep(step) && !TakesLine(step)
    ensures Tagged(Apply(s, step))
  {
    var s' := Apply(s, step);
    forall c <- s'.children ensures TaggedAll(s'.children[c], c) {
      if c in s.children && Lines(s'.children[c]) != [] {
        assert TaggedAll(s.children[c], c);
        assert Lines(s'.children[c]) == Lines(s.children[c]) && s'.children[c].alive == s.children[c].alive;
      } else {
        assert Lines(s'.children[c]) == [];
      }
    }
  }

  lemma {:induction false} MovesKeepStructure(s: Sys, moves: seq<Move>)
    requires Structured(s) && Moved(s, moves).Some?
    ensures Structured(Moved(s, moves).value)
    decreases |moves|
  {
    if moves != [] {
      match moves[0]
      case Do(step) =>
        StepKeepsStructure(s, step);
        MovesKeepStructure(Apply(s, step), moves[1..]);
      case Cancel => MovesKeepStructure(Cancelled(s), moves[1..]);
    }
  }

  predicate NewCorrespond(s: Sys, from: nat) {
    forall i | from <= i < |s.log| :: Corresponds(s.log[i])
  }

  /** The steps are possible, and one of the calls they complete returns another request's answer. */
  predicate Misreads(s: Sys, steps: seq<Step>) {
    Run(s, steps).Some? && !NewCorrespond(Run(s, steps).value, |s.log|)
  }

  /** The child has been given a request it has not answered. */
  predicate Working(x: Child) {
    x.current.Some? || x.inbox != []
  }

  /** The k-th line not read yet is one that a reader can come to who drains up to `drain` lines, and at
      least those in the queue, and then reads up to `read`: a good final with no other final between the
      drained lines and it, or, after the last line, the answer a working child gives next. */
  predicate Hit(x: Child, k: nat, drain: nat, read: nat) {
    var q := Lines(x);
    && k <= |q|
    && Min(drain, |x.queue|) <= k < drain + read
    && (forall i | drain <= i < k :: !q[i].Final?)
    && if k < |q| then q[k].Final? && q[k].ok else Working(x)
  }

  predicate CutOff(x: Child, drain: nat, read: nat) {
    forall k: nat | k <= |Lines(x)| :: !Hit(x, k, drain, read)
  }

  /** The child runs, and some request it has been given can be answered to the next reader. */
  predicate CanMisread(x: Child) {
    x.alive && exists k: nat | k <= |Lines(x)| :: Hit(x, k, DRAIN_LINES, MAX_LINES)
  }

  // ----- cancellations that do no harm -----------------------------------------------

  lemma {:induction false} FinalIsAnswered(q: seq<Item>, k: nat)
    requires k < |q| && q[k].Final?
    ensures Answered(q) != []
  {
    if k > 0 {
      FinalIsAnswered(q[1..], k - 1);
    }
  }

  lemma {:induction false} NoFinalNoAnswer(q: seq<Item>)
    requires forall i | 0 <= i < |q| :: !q[i].Final?
    ensures Answered(q) == []
  {
    if q != [] {
      NoFinalNoAnswer(q[1..]);
    }
  }

  lemma SettledIsCutOff(x: Child, drain: nat, read: nat)
    requires Settled(x)
    ensures CutOff(x, drain, read)
  {
    var q := Lines(x);
    forall k: nat | k <= |q| ensures !Hit(x, k, drain, read) {
      if k < |q| && q[k].Final? {
        FinalIsAnswered(q, k);
      }
    }
  }

  /** What a cancellation may leave behind without harm, through the phases of the next call. */
  predicate Quiet(s: Sys)
    requires s.proc.Some? && s.proc.value in s.children
  {
    var x := s.children[s.proc.value];
    match s.phase
    case Free => !s.ready || !x.alive || CutOff(x, DRAIN_LINES, MAX_LINES)
    case Probing(_) => Settled(x)
    case Draining(_, left) => !x.alive || CutOff(x, left, MAX_LINES)
    case Sending(_) => !x.alive || CutOff(x, 0, MAX_LINES)
    case Reading(req, left) => Outstanding(x) == [req] || CutOff(x, 0, left)
  }

  predicate Harmless(s: Sys, from: nat) {
    && Structured(s)
    && (s.proc.Some? ==> Quiet(s))
    && from <= |s.log| && NewCorrespond(s, from)
  }

  predicate ChildCan(x: Child, step: Step) {
    && IsChildStep(step)
    && (step.Pump? ==> x.pipe != [])
    && (step.ChildTake? ==> x.inbox != [])
    && (step.ChildEmit? ==> !step.line.Final?)
    && (step.ChildAnswer? ==> x.current.Some?)
  }

  /** What can be reached after a step of the child or its pump could be reached before. */
  lemma ChildStepHit(x: Child, step: Step, k: nat, drain: nat, read: nat)
    requires ChildCan(x, step) && Hit(ChildStep(x, step), k, drain, read)
    ensures Hit(x, Min(k, |Lines(x)|), drain, read)
  {
    ChildStepLines(x, step);
    assert forall i | 0 <= i < Min(k, |Lines(x)|) :: Lines(x)[i] == Lines(ChildStep(x, step))[i];
  }

  lemma ChildStepStaysCutOff(x: Child, step: Step, drain: nat, read: nat)
    requires ChildCan(x, step) && CutOff(x, drain, read)
    ensures CutOff(ChildStep(x, step), drain, read)
  {
    var y := ChildStep(x, step);
    if !CutOff(y, drain, read) {
      var k: nat :| k <= |Lines(y)| && Hit(y, k, drain, read);
      ChildStepHit(x, step, k, drain, read);
    }
  }

  lemma ChildStepIsHarmless(s: Sys, step: Step, from: nat)
    requires Harmless(s, from) && Enabled(s, step) && IsChildStep(step)
    ensures Harmless(Apply(s, step), from)
  {
    ChildStepKeepsStructure(s, step);
    if s.proc == Some(step.c) {
      var x := s.children[step.c];
      ChildKeepsOutstanding(x, step);
      match s.phase
      case Free => if CutOff(x, DRAIN_LINES, MAX_LINES) { ChildStepStaysCutOff(x, step, DRAIN_LINES, MAX_LINES); }
      case Draining(_, left) => if CutOff(x, left, MAX_LINES) { ChildStepStaysCutOff(x, step, left, MAX_LINES); }
      case Sending(_) => if CutOff(x, 0, MAX_LINES) { ChildStepStaysCutOff(x, step, 0, MAX_LINES); }
      case Reading(_, left) =>
        if CutOff(x, 0, left) { ChildStepStaysCutOff(x, step, 0, left); }
        if Settled(ChildStep(x, step)) { SettledIsCutOff(ChildStep(x, step), 0, left); }
      case _ =>
    }
  }

  /** One line less on the queue, and one less to drain or to read, leaves what could not be reached out
      of reach. */
  lemma DrainedHit(x: Child, y: Child, k: nat, left: nat, read: nat)
    requires left > 0 && x.queue != [] && y == x.(queue := x.queue[1..]) && Hit(y, k, left - 1, read)
    ensures Hit(x, k + 1, left, read)
  {
    assert Lines(y) == Lines(x)[1..];
    assert forall i | left <= i < k + 1 :: Lines(x)[i] == Lines(y)[i - 1];
  }

  lemma DrainedStaysCutOff(x: Child, y: Child, left: nat, read: nat)
    requires CutOff(x, left, read) && left > 0 && x.queue != [] && y == x.(queue := x.queue[1..])
    ensures CutOff(y, left - 1, read)
  {
    if !CutOff(y, left - 1, read) {
      var k: nat :| k <= |Lines(y)| && Hit(y, k, left - 1, read);
      DrainedHit(x, y, k, left, read);
    }
  }

  lemma ReadHit(x: Child, y: Child, k: nat, left: nat)
    requires left > 0 && x.queue != [] && !x.queue[0].Final? && y == x.(queue := x.queue[1..]) && Hit(y, k, 0, left - 1)
    ensures Hit(x, k + 1, 0, left)
  {
    assert Lines(y) == Lines(x)[1..];
    assert forall i | 0 < i < k + 1 :: Lines(x)[i] == Lines(y)[i - 1];
  }

  lemma ReadStaysCutOff(x: Child, y: Child, left: nat)
    requires CutOff(x, 0, left) && left > 0 && x.queue != [] && !x.queue[0].Final? && y == x.(queue := x.queue[1..])
    ensures CutOff(y, 0, left - 1)
  {
    if !CutOff(y, 0, left - 1) {
      var k: nat :| k <= |Lines(y)| && Hit(y, k, 0, left - 1);
      ReadHit(x, y, k, left);
    }
  }

  lemma DrainIsHarmless(s: Sys, from: nat)
    requires Harmless(s, from) && Enabled(s, DrainLine)
    ensures Harmless(Apply(s, DrainLine), from)
  {
    StepKeepsStructure(s, DrainLine);
    ReadingKeeps(s);
    var x := s.children[s.proc.value];
    if x.alive {
      DrainedStaysCutOff(x, x.(queue := x.queue[1..]), s.phase.left, MAX_LINES);
    }
  }

  lemma DrainEndIsHarmless(s: Sys, from: nat)
    requires Harmless(s, from) && Enabled(s, DrainEnd)
    ensures Harmless(Apply(s, DrainEnd), from)
  {
    var x := s.children[s.proc.value];
    if x.alive {
      forall k: nat | k <= |Lines(x)| ensures !Hit(x, k, 0, MAX_LINES) {
        assert !Hit(x, k, s.phase.left, MAX_LINES);
      }
    }
  }

  lemma SendIsHarmless(s: Sys, from: nat)
    requires Harmless(s, from) && Enabled(s, Send)
    ensures Harmless(Apply(s, Send), from)
  {
    StepKeepsStructure(s, Send);
    var x := s.children[s.proc.value];
    var y := x.(inbox := x.inbox + [s.phase.req]);
    if Settled(x) {
      assert Outstanding(y) == [s.phase.req];
    } else {
      forall k: nat | k <= |Lines(y)| ensures !Hit(y, k, 0, MAX_LINES) {
        assert !Hit(x, k, 0, MAX_LINES);
        if Hit(y, k, 0, MAX_LINES) {
          NoFinalNoAnswer(Lines(x));
        }
      }
    }
  }

  lemma CutOffReadIsHarmless(s: Sys, from: nat)
    requires Harmless(s, from) && Enabled(s, ReadLine) && CutOff(s.children[s.proc.value], 0, s.phase.left)
    ensures Harmless(Apply(s, ReadLine), from)
  {
    StepKeepsStructure(s, ReadLine);
    var x := s.children[s.proc.value];
    assert Lines(x)[0] == Head(s);
    assert !Hit(x, 0, 0, s.phase.left);
    if !Head(s).Final? {
      ReadStaysCutOff(x, x.(queue := x.queue[1..]), s.phase.left);
    }
  }

  lemma OwnReadIsHarmless(s: Sys, from: nat)
    requires Harmless(s, from) && Enabled(s, ReadLine) && Outstanding(s.children[s.proc.value]) == [s.phase.req]
    ensures Harmless(Apply(s, ReadLine), from)
  {
    StepKeepsStructure(s, ReadLine);
    ReadingKeeps(s);
    if Head(s).Final? {
      assert Outstanding(s.children[s.proc.value])[0] == Head(s).req;
      SettledIsCutOff(Popped(s).children[s.proc.value], DRAIN_LINES, MAX_LINES);
    }
  }

  lemma ReadIsHarmless(s: Sys, from: nat)
    requires Harmless(s, from) && Enabled(s, ReadLine)
    ensures Harmless(Apply(s, ReadLine), from)
  {
    if CutOff(s.children[s.proc.value], 0, s.phase.left) {
      CutOffReadIsHarmless(s, from);
    } else {
      OwnReadIsHarmless(s, from);
    }
  }

  lemma ProbeIsHarmless(s: Sys, from: nat)
    requires Harmless(s, from) && Enabled(s, ProbeLine)
    ensures Harmless(Apply(s, ProbeLine), from)
  {
    StepKeepsStructure(s, ProbeLine);
    ReadingKeeps(s);
    var y := Popped(s).children[s.proc.value];
    assert !Head(s).Final? && Settled(y);
    SettledIsCutOff(y, DRAIN_LINES, MAX_LINES);
  }

  lemma OtherStepIsHarmless(s: Sys, step: Step, from: nat)
    requires Harmless(s, from) && Enabled(s, step)
    requires step.RunBegin? || step.StartBegin? || step.Abort? || step.Stop?
    ensures Harmless(Apply(s, step), from)
  {
    StepKeepsStructure(s, step);
  }

  lemma StepIsHarmless(s: Sys, step: Step, from: nat)
    requires Harmless(s, from) && Enabled(s, step)
    ensures Harmless(Apply(s, step), from)
  {
    if IsChildStep(step) {
      ChildStepIsHarmless(s, step, from);
    } else {
      match step
      case ProbeLine => ProbeIsHarmless(s, from);
      case DrainLine => DrainIsHarmless(s, from);
      case DrainEnd => DrainEndIsHarmless(s, from);
      case Send => SendIsHarmless(s, from);
      case ReadLine => ReadIsHarmless(s, from);
      case _ => OtherStepIsHarmless(s, step, from);
    }
  }

  lemma {:induction false} HarmlessRuns(s: Sys, steps: seq<Step>, from: nat)
    requires Harmless(s, from) && Run(s, steps).Some?
    ensures NewCorrespond(Run(s, steps).value, from)
    decreases |steps|
  {
    if steps != [] {
      StepIsHarmless(s, steps[0], from);
      HarmlessRuns(Apply(s, steps[0]), steps[1..], from);
    }
  }

  // ----- cancellations that do harm --------------------------------------------------

  /** Child `c` replaced, nothing else. */
  function Put(s: Sys, c: int, x: Child): Sys {
    s.(children := s.children[c := x])
  }

  predicate Reaches(s: Sys, steps: seq<Step>, t: Sys) {
    Run(s, steps) == Some(t)
  }

  lemma Continue(s: Sys, a: seq<Step>, t: Sys, b: seq<Step>, u: Sys)
    requires Reaches(s, a, t) && Reaches(t, b, u)
    ensures Reaches(s, a + b, u)
  {
    RunsCompose(s, a, b);
  }

  lemma OneStep(s: Sys, step: Step)
    requires Enabled(s, step)
    ensures Reaches(s, [step], Apply(s, step))
  {
    RunStep(s, step, []);
    assert [step] + [] == [step];
  }

  /** The pump has moved `n` more lines on to the queue. */
  function Pumped(x: Child, n: nat): Child
    requires n <= |x.pipe|
  {
    x.(queue := x.queue + x.pipe[..n], pipe := x.pipe[n..])
  }

  lemma PumpedOneMore(x: Child, n: nat)
    requires 0 < n <= |x.pipe|
    ensures Pumped(Pumped(x, 1), n - 1) == Pumped(x, n)
  {
    assert x.pipe[..1] + x.pipe[1..][..n - 1] == x.pipe[..n];
    assert x.queue + x.pipe[..1] + x.pipe[1..][..n - 1] == x.queue + (x.pipe[..1] + x.pipe[1..][..n - 1]);
    assert x.pipe[1..][n - 1..] == x.pipe[n..];
  }

  lemma {:induction false} Pumps(s: Sys, c: int, n: nat) returns (steps: seq<Step>)
    requires c in s.children && n <= |s.children[c].pipe|
    ensures Reaches(s, steps, Put(s, c, Pumped(s.children[c], n)))
    decreases n
  {
    var x := s.children[c];
    if n == 0 {
      steps := [];
      assert Pumped(x, 0) == x;
      assert Put(s, c, x) == s;
    } else {
      var s1 := Apply(s, Pump(c));
      assert [x.pipe[0]] == x.pipe[..1];
      assert s1 == Put(s, c, Pumped(x, 1));
      var rest := Pumps(s1, c, n - 1);
      PumpedOneMore(x, n);
      OneStep(s, Pump(c));
      assert Put(s1, c, Pumped(x, n)) == Put(s, c, Pumped(x, n));
      Continue(s, [Pump(c)], s1, rest, Put(s, c, Pumped(x, n)));
      steps := [Pump(c)] + rest;
    }
  }

  function Drained(x: Child, left: nat): Child {
    x.(queue := x.queue[Min(left, |x.queue|)..])
  }

  /** A drain that meets no EOF goes on until the queue is empty or its lines are used up. */
  lemma {:induction false} Drains(s: Sys, c: int, req: Request, left: nat) returns (steps: seq<Step>)
    requires s.proc == Some(c) && c in s.children && s.phase == Draining(req, left)
    requires forall i | 0 <= i < |s.children[c].queue| :: !s.children[c].queue[i].Eof?
    ensures Reaches(s, steps, Put(s, c, Drained(s.children[c], left)).(phase := Sending(req)))
    decreases left
  {
    var x := s.children[c];
    if left == 0 || x.queue == [] {
      OneStep(s, DrainEnd);
      NothingDrained(s, c, left);
      steps := [DrainEnd];
    } else {
      DrainOne(s, c, req, left);
      DrainedOneMore(x, left);
      var s1 := Apply(s, DrainLine);
      var rest := Drains(s1, c, req, left - 1);
      OneStep(s, DrainLine);
      var t := Put(s, c, Drained(x, left)).(phase := Sending(req));
      assert Put(s1, c, Drained(x, left)).(phase := Sending(req)) == t;
      Continue(s, [DrainLine], s1, rest, t);
      steps := [DrainLine] + rest;
    }
  }

  lemma NothingDrained(s: Sys, c: int, left: nat)
    requires c in s.children && (left == 0 || s.children[c].queue == [])
    ensures Put(s, c, Drained(s.children[c], left)) == s
  {
    var x := s.children[c];
    assert x.queue[0..] == x.queue;
    assert Drained(x, left) == x;
    PutSame(s, c);
  }

  lemma PutSame(s: Sys, c: int)
    requires c in s.children
    ensures Put(s, c, s.children[c]) == s
  {
    assert s.children[c := s.children[c]] == s.children;
  }

  lemma DrainOne(s: Sys, c: int, req: Request, left: nat)
    requires s.proc == Some(c) && c in s.children && s.phase == Draining(req, left) && left > 0
    requires s.children[c].queue != [] && !s.children[c].queue[0].Eof?
    ensures Enabled(s, DrainLine)
    ensures var x := s.children[c];
            Apply(s, DrainLine) == Put(s, c, x.(queue := x.queue[1..])).(phase := Draining(req, left - 1))
  {
  }

  lemma DrainedOneMore(x: Child, left: nat)
    requires x.queue != [] && left > 0
    ensures Drained(x.(queue := x.queue[1..]), left - 1) == Drained(x, left)
  {
    var n := Min(left, |x.queue|);
    assert x.queue[1..][n - 1..] == x.queue[n..];
  }

  /** A reader returns the first final line it comes to, whoever asked for it. */
  lemma {:induction false} Reads(s: Sys, c: int, k: nat) returns (steps: seq<Step>)
    requires s.proc == Some(c) && c in s.children && s.phase.Reading? && k < s.phase.left
    requires k < |s.children[c].queue| && s.children[c].queue[k].Final? && s.children[c].queue[k].ok
    requires forall i | 0 <= i < k :: !s.children[c].queue[i].Final? && !s.children[c].queue[i].Eof?
    ensures Run(s, steps).Some?
    ensures Run(s, steps).value.log == s.log + [Returned(s.phase.req, c, s.children[c].queue[k])]
    decreases k
  {
    var x := s.children[c];
    var s1 := Apply(s, ReadLine);
    OneStep(s, ReadLine);
    if k == 0 {
      steps := [ReadLine];
    } else {
      var rest := Reads(s1, c, k - 1);
      RunsCompose(s, [ReadLine], rest);
      steps := [ReadLine] + rest;
    }
  }

  lemma {:induction false} FreshName(names: set<int>) returns (c: int)
    ensures c !in names && forall x <- names :: x < c
  {
    if names == {} {
      c := 0;
    } else {
      assert (forall y :: y !in names) ==> names == {};
      var y :| y in names;
      c := FreshName(names - {y});
      assert forall x <- names :: x == y || x in names - {y};
      if c <= y {
        c := y + 1;
      }
    }
  }

  /** The next call, up to the point where its request is sent: it drains what it can. */
  lemma NextCall(s: Sys, c: int, next: Request) returns (steps: seq<Step>)
    requires s.phase.Free? && UsableProc(s) && s.proc == Some(c)
    requires forall i | 0 <= i < |s.children[c].queue| :: !s.children[c].queue[i].Eof?
    ensures var y := Drained(s.children[c], DRAIN_LINES);
            Reaches(s, steps, Put(s, c, y.(inbox := y.inbox + [next])).(phase := Reading(next, MAX_LINES)))
  {
    var unused := FreshName(s.children.Keys);
    var begin := RunBegin(next, unused);
    OneStep(s, begin);
    var s1 := s.(phase := Draining(next, DRAIN_LINES));
    var more := Drains(s1, c, next, DRAIN_LINES);
    var y := Drained(s.children[c], DRAIN_LINES);
    var s2 := Put(s1, c, y).(phase := Sending(next));
    Continue(s, [begin], s1, more, s2);
    OneStep(s2, Send);
    var s3 := Put(s, c, y.(inbox := y.inbox + [next])).(phase := Reading(next, MAX_LINES));
    assert Apply(s2, Send) == s3;
    Continue(s, [begin] + more, s2, [Send], s3);
    steps := [begin] + more + [Send];
  }

  /** A child with a request to work on answers it. */
  lemma GivesAnswer(s: Sys, c: int) returns (steps: seq<Step>, y: Child, line: Item)
    requires c in s.children && s.children[c].alive
    requires s.children[c].current.Some? || s.children[c].inbox != []
    ensures Reaches(s, steps, Put(s, c, y))
    ensures y.queue == s.children[c].queue && y.pipe == s.children[c].pipe + [line] && line.Final? && line.ok
    ensures line.req == if s.children[c].current.Some? then s.children[c].current.value else s.children[c].inbox[0]
  {
    var x := s.children[c];
    if x.current.Some? {
      OneStep(s, ChildAnswer(c, true, 0));
      steps := [ChildAnswer(c, true, 0)];
    } else {
      var s1 := Apply(s, ChildTake(c));
      OneStep(s, ChildTake(c));
      OneStep(s1, ChildAnswer(c, true, 0));
      Continue(s, [ChildTake(c)], s1, [ChildAnswer(c, true, 0)], Apply(s1, ChildAnswer(c, true, 0)));
      steps := [ChildTake(c)] + [ChildAnswer(c, true, 0)];
      x := s1.children[c];
    }
    y := ChildStep(x, ChildAnswer(c, true, 0));
    assert s.children[c := x][c := y] == s.children[c := y];
    line := Final(c, x.current.value, true, 0);
  }

  predicate ComesFirst(q: seq<Item>, j: nat, line: Item) {
    j < |q| && q[j] == line && line.Final? && line.ok && forall i | 0 <= i < j :: !q[i].Final? && !q[i].Eof?
  }

  /** The reader of `next` gets another request's answer when that is the first final within its reach. */
  lemma ReaderMisreads(s: Sys, c: int, j: nat, line: Item) returns (steps: seq<Step>)
    requires s.proc == Some(c) && c in s.children && s.phase.Reading? && j < s.phase.left
    requires ComesFirst(Lines(s.children[c]), j, line) && line.req != s.phase.req
    ensures Misreads(s, steps)
  {
    var x := s.children[c];
    var s1 := Put(s, c, Pumped(x, |x.pipe|));
    assert Pumped(x, |x.pipe|).queue == Lines(x);
    var pumps := Pumps(s, c, |x.pipe|);
    var more := Reads(s1, c, j);
    RunsCompose(s, pumps, more);
    steps := pumps + more;
    assert !Corresponds(Run(s, steps).value.log[|s.log|]);
  }

  /** Or when no final is there yet and the child still works on the other request. */
  lemma AnswerMisreads(s: Sys, c: int) returns (steps: seq<Step>)
    requires s.proc == Some(c) && c in s.children && s.phase.Reading? && s.children[c].alive
    requires |Lines(s.children[c])| < s.phase.left
    requires forall i | 0 <= i < |Lines(s.children[c])| :: !Lines(s.children[c])[i].Final? && !Lines(s.children[c])[i].Eof?
    requires var x := s.children[c];
             if x.current.Some? then x.current.value != s.phase.req else x.inbox != [] && x.inbox[0] != s.phase.req
    ensures Misreads(s, steps)
  {
    var x := s.children[c];
    var answer, y, line := GivesAnswer(s, c);
    assert Lines(y) == Lines(x) + [line];
    var rest := ReaderMisreads(Put(s, c, y), c, |Lines(x)|, line);
    ThenMisreads(s, answer, Put(s, c, y), rest);
    steps := answer + rest;
  }

  /** Steps that complete no call, and then a wrong answer. */
  lemma ThenMisreads(s: Sys, a: seq<Step>, t: Sys, b: seq<Step>)
    requires Reaches(s, a, t) && t.log == s.log && Misreads(t, b)
    ensures Misreads(s, a + b)
  {
    RunsCompose(s, a, b);
  }

  /** The request whose answer the k-th line is, or is going to be. */
  function Target(x: Child, k: nat): Request
    requires k <= |Lines(x)| && (if k < |Lines(x)| then Lines(x)[k].Final? else Working(x))
  {
    if k < |Lines(x)| then Lines(x)[k].req
    else if x.current.Some? then x.current.value
    else x.inbox[0]
  }

  /** The next call when its drain ends just where it should: `n` lines in the queue, or as many as it takes. */
  lemma NextCallMisreads(s: Sys, c: int, k: nat) returns (steps: seq<Step>)
    requires s.phase.Free? && UsableProc(s) && s.proc == Some(c) && Tagged(s)
    requires Hit(s.children[c], k, DRAIN_LINES, MAX_LINES)
    requires Min(DRAIN_LINES, |s.children[c].queue|) == Min(DRAIN_LINES, k)
    ensures Misreads(s, steps)
  {
    var x := s.children[c];
    var q, n := Lines(x), Min(DRAIN_LINES, k);
    var next := Request(Target(x, k).id + 1, "");
    LeftByDrain(x, c, k);
    var call := NextCall(s, c, next);
    var y := Drained(x, DRAIN_LINES).(inbox := x.inbox + [next]);
    var s1 := Put(s, c, y).(phase := Reading(next, MAX_LINES));
    assert Lines(y) == Lines(Drained(x, DRAIN_LINES));
    var more;
    if k < |q| {
      more := ReaderMisreads(s1, c, k - n, q[k]);
    } else {
      more := AnswerMisreads(s1, c);
    }
    ThenMisreads(s, call, s1, more);
    steps := call + more;
  }

  lemma LeftByDrain(x: Child, c: int, k: nat)
    requires TaggedAll(x, c) && Hit(x, k, DRAIN_LINES, MAX_LINES) && x.alive
    requires Min(DRAIN_LINES, |x.queue|) == Min(DRAIN_LINES, k)
    ensures forall i | 0 <= i < |x.queue| :: !x.queue[i].Eof?
    ensures var q, r, n := Lines(x), Lines(Drained(x, DRAIN_LINES)), Min(DRAIN_LINES, k);
            && |r| == |q| - n
            && (forall i | 0 <= i < k - n :: !r[i].Final? && !r[i].Eof?)
            && (k < |q| ==> r[k - n] == q[k])
  {
    var q, n := Lines(x), Min(DRAIN_LINES, k);
    assert forall i | 0 <= i < |x.queue| :: x.queue[i] == q[i];
    assert Lines(Drained(x, DRAIN_LINES)) == q[n..];
  }

  /** A hit can be brought about: pump just enough lines for the drain to end before it. */
  lemma CanMisreadDoes(s: Sys, c: int, k: nat) returns (steps: seq<Step>)
    requires s.phase.Free? && UsableProc(s) && s.proc == Some(c) && Tagged(s)
    requires Hit(s.children[c], k, DRAIN_LINES, MAX_LINES)
    ensures Misreads(s, steps)
  {
    var x := s.children[c];
    var m := if k <= |x.queue| then 0 else k - |x.queue|;
    var y := Pumped(x, m);
    var t := Put(s, c, y);
    var pumps := Pumps(s, c, m);
    assert x.pipe[..m] + x.pipe[m..] == x.pipe;
    assert Lines(y) == Lines(x);
    assert TaggedAll(x, c);
    forall d <- t.children ensures TaggedAll(t.children[d], d) {
      assert TaggedAll(s.children[d], d);
    }
    var more := NextCallMisreads(t, c, k);
    ThenMisreads(s, pumps, t, more);
    steps := pumps + more;
  }

  /** With the lock free, some later call returns another request's answer exactly when the proxy is marked
      ready and its child can be misread. */
  lemma LeftoverMisreadsIff(s: Sys)
    requires Structured(s) && s.phase.Free?
    ensures (exists steps :: Misreads(s, steps))
            <==> s.proc.Some? && s.ready && CanMisread(s.children[s.proc.value])
  {
    if s.proc.Some? && s.ready && CanMisread(s.children[s.proc.value]) {
      var c := s.proc.value;
      var k: nat :| k <= |Lines(s.children[c])| && Hit(s.children[c], k, DRAIN_LINES, MAX_LINES);
      var steps := CanMisreadDoes(s, c, k);
      assert Misreads(s, steps);
    } else {
      assert Harmless(s, |s.log|);
      forall steps: seq<Step> | Run(s, steps).Some? ensures !Misreads(s, steps) {
        HarmlessRuns(s, steps, |s.log|);
      }
    }
  }

  /** After any run, with any number of earlier cancellations, cancelling the lock holder lets some later
      call return another request's answer exactly when the proxy is marked ready and its child can be
      misread. */
  lemma CancelMisreadsIff(moves: seq<Move>)
    requires Moved(START, moves).Some? && !Moved(START, moves).value.phase.Free?
    ensures var s := Moved(START, moves).value;
            && s.proc.Some? && s.proc.value in s.children
            && ((exists steps :: Misreads(Cancelled(s), steps)) <==> s.ready && CanMisread(s.children[s.proc.value]))
  {
    MovesKeepStructure(START, moves);
    LeftoverMisreadsIff(Cancelled(Moved(START, moves).value));
  }

  /** With no earlier cancelled call outstanding, cancelling before the request is sent is always safe. */
  lemma CancelBeforeSendIsSafe(s: Sys, steps: seq<Step>)
    requires Inv(s) && (s.phase.Probing? || s.phase.Draining? || s.phase.Sending?)
    ensures !Misreads(Cancelled(s), steps)
  {
    SettledIsCutOff(s.children[s.proc.value], DRAIN_LINES, MAX_LINES);
    LeftoverMisreadsIff(Cancelled(s));
  }

  /** A run without cancellations, as moves. */
  function Doing(steps: seq<Step>): seq<Move> {
    if steps == [] then [] else [Do(steps[0])] + Doing(steps[1..])
  }

  lemma {:induction false} DoingRuns(s: Sys, steps: seq<Step>)
    ensures Moved(s, Doing(steps)) == Run(s, steps)
    decreases |steps|
  {
    if steps != [] {
      assert Doing(steps)[1..] == Doing(steps[1..]);
      if Enabled(s, steps[0]) {
        DoingRuns(Apply(s, steps[0]), steps[1..]);
      }
    }
  }

  /** A request being worked on, from the initial state. */
  function FirstCall(req: Request): seq<Step> {
    [StartBegin(1), ChildEmit(1, Ready(1, true)), Pump(1), ProbeLine] + [RunBegin(req, 2), DrainEnd, Send, ChildTake(1)]
  }

  /** It happens: cancel the very first request while its child works on it. */
  lemma CancelledCallIsReachable(req: Request)
    ensures var s := Moved(START, Doing(FirstCall(req)));
            && s.Some? && s.value.phase.Reading? && s.value.phase.req == req
            && exists steps :: Misreads(Cancelled(s.value), steps)
  {
    FirstCallIsWorking(req);
    DoingRuns(START, FirstCall(req));
    var s := Run(START, FirstCall(req)).value;
    assert Hit(s.children[1], 0, DRAIN_LINES, MAX_LINES);
    CancelMisreadsIff(Doing(FirstCall(req)));
  }

  lemma FirstCallIsWorking(req: Request)
    ensures var s := Run(START, FirstCall(req));
            && s.Some? && s.value.phase == Reading(req, MAX_LINES) && s.value.ready && s.value.proc == Some(1)
            && 1 in s.value.children && s.value.children[1] == Child(true, [], Some(req), [], [])
  {
    StartWithHandshake(START, 1, true);
    var one := [StartBegin(1), ChildEmit(1, Ready(1, true)), Pump(1), ProbeLine];
    var two := [RunBegin(req, 2), DrainEnd, Send, ChildTake(1)];
    RunsCompose(START, one, two);
    IdleChildTakes(Run(START, one).value, req);
  }

  lemma IdleChildTakes(s: Sys, req: Request)
    requires s.phase.Free? && s.ready && s.proc == Some(1) && s.children == map[1 := NEW_CHILD]
    ensures var t := Run(s, [RunBegin(req, 2), DrainEnd, Send, ChildTake(1)]);
            && t.Some? && t.value.phase == Reading(req, MAX_LINES) && t.value.ready && t.value.proc == Some(1)
            && 1 in t.value.children && t.value.children[1] == Child(true, [], Some(req), [], [])
  {
    RunStep(s, RunBegin(req, 2), [DrainEnd, Send, ChildTake(1)]);
    var t1 := s.(phase := Draining(req, DRAIN_LINES));
    RunStep(t1, DrainEnd, [Send, ChildTake(1)]);
    var t2 := s.(phase := Sending(req));
    RunStep(t2, Send, [ChildTake(1)]);
    RunStep(Apply(t2, Send), ChildTake(1), []);
  }

  // ----- failed starts ---------------------------------------------------------------

  /** Starting child `c` when its first line is the given handshake. */
  lemma StartWithHandshake(s: Sys, c: int, ok: bool)
    requires s.phase.Free? && c !in s.children && !UsableProc(s)
    ensures Run(s, [StartBegin(c), ChildEmit(c, Ready(c, ok)), Pump(c), ProbeLine])
            == Some(Put(s, c, NEW_CHILD).(proc := Some(c), ready := ok || s.ready))
  {
    var line := Ready(c, ok);
    var t := s.(proc := Some(c), phase := Probing(None));
    var s1, s3 := Put(t, c, NEW_CHILD), Put(t, c, NEW_CHILD.(queue := [line]));
    RunStep(s, StartBegin(c), [ChildEmit(c, line), Pump(c), ProbeLine]);
    FirstLine(t, c, line);
    RunsCompose(s1, [ChildEmit(c, line), Pump(c)], [ProbeLine]);
    assert [ChildEmit(c, line), Pump(c)] + [ProbeLine] == [ChildEmit(c, line), Pump(c), ProbeLine];
    OneStep(s3, ProbeLine);
    assert [line][1..] == [];
    assert Apply(s3, ProbeLine) == Put(s, c, NEW_CHILD).(proc := Some(c), ready := ok || s.ready);
  }

  lemma FirstLine(s: Sys, c: int, line: Item)
    requires line.Ready? && line.child == c
    ensures Reaches(Put(s, c, NEW_CHILD), [ChildEmit(c, line), Pump(c)], Put(s, c, NEW_CHILD.(queue := [line])))
  {
    var s1, s2 := Put(s, c, NEW_CHILD), Put(s, c, NEW_CHILD.(pipe := [line]));
    assert [] + [line] == [line] && [line][1..] == [];
    RunStep(s1, ChildEmit(c, line), [Pump(c)]);
    assert Apply(s1, ChildEmit(c, line)) == s2;
    OneStep(s2, Pump(c));
    assert Apply(s2, Pump(c)) == Put(s, c, NEW_CHILD.(queue := [line]));
  }

  predicate BadHandshake(x: Item) {
    x.Eof? || (x.Ready? && !x.ok)
  }

  /** `steps` are all that happens while a `start` waits for its handshake, and then it fails. */
  predicate FailsToStart(s: Sys, steps: seq<Step>)
    decreases |steps|
  {
    && s.phase == Probing(None) && steps != [] && Enabled(s, steps[0])
    && if |steps| == 1 then steps[0].ProbeLine? && BadHandshake(Head(s))
       else FailsToStart(Apply(s, steps[0]), steps[1..])
  }

  lemma {:induction false} FailingKeepsMark(s: Sys, steps: seq<Step>)
    requires FailsToStart(s, steps)
    ensures Run(s, steps).Some? && Run(s, steps).value.ready == s.ready && Run(s, steps).value.phase.Free?
    decreases |steps|
  {
    if |steps| > 1 {
      FailingKeepsMark(Apply(s, steps[0]), steps[1..]);
    } else {
      assert Run(Apply(s, steps[0]), steps[1..]) == Some(Apply(s, steps[0]));
    }
  }

  /** A `start` called in `s` that spawns child `c` can fail and leave a proxy the next call uses as ready. */
  predicate UsedAfterFailing(s: Sys, c: int, steps: seq<Step>)
    requires s.phase.Free? && !UsableProc(s) && c !in s.children
  {
    var t := Apply(s, StartBegin(c));
    FailsToStart(t, steps) && Run(t, steps).Some? && UsableProc(Run(t, steps).value)
  }

  /** That is so exactly when the mark of an earlier child is still set. */
  lemma FailedStartUsableIff(s: Sys, c: int)
    requires s.phase.Free? && !UsableProc(s) && c !in s.children
    ensures (exists steps :: UsedAfterFailing(s, c, steps)) <==> s.ready
  {
    var t := Apply(s, StartBegin(c));
    if s.ready {
      var steps := [ChildEmit(c, Ready(c, false)), Pump(c), ProbeLine];
      StartWithHandshake(s, c, false);
      RunStep(s, StartBegin(c), steps);
      var t1 := Apply(t, steps[0]);
      var t2 := Apply(t1, steps[1]);
      assert steps[1..] == [Pump(c), ProbeLine] && steps[1..][1..] == [ProbeLine];
      assert FailsToStart(t2, [ProbeLine]);
      assert FailsToStart(t1, [Pump(c), ProbeLine]);
      assert UsedAfterFailing(s, c, steps);
    } else {
      forall steps | FailsToStart(t, steps) ensures !UsedAfterFailing(s, c, steps) {
        FailingKeepsMark(t, steps);
      }
    }
  }

  predicate SaysFailed(x: Item) {
    x.Ready? && !x.ok
  }

  /** No child announces that it failed; the program's own child loop never does. */
  predicate NoneSaysFailed(steps: seq<Step>) {
    forall step <- steps | step.ChildEmit? :: !SaysFailed(step.line)
  }

  predicate NoBadLines(s: Sys) {
    forall c <- s.children :: NoBadLine(s.children[c])
  }

  predicate NoBadLine(x: Child) {
    forall i | 0 <= i < |Lines(x)| :: !SaysFailed(Lines(x)[i])
  }

  lemma ChildAddsNoBadLine(s: Sys, step: Step)
    requires NoBadLines(s) && Enabled(s, step) && NoneSaysFailed([step]) && IsChildStep(step)
    ensures NoBadLines(Apply(s, step))
  {
    assert step in [step];
    ChildStepLines(s.children[step.c], step);
    assert NoBadLine(s.children[step.c]);
    assert NoBadLine(ChildStep(s.children[step.c], step));
  }

  lemma StepAddsNoBadLine(s: Sys, step: Step)
    requires Inv(s) && NoBadLines(s) && Enabled(s, step) && NoneSaysFailed([step])
    ensures NoBadLines(Apply(s, step))
  {
    if IsChildStep(step) {
      ChildAddsNoBadLine(s, step);
    } else if TakesLine(step) {
      ReadingKeeps(s);
      assert NoBadLine(s.children[s.proc.value]);
      assert NoBadLine(Popped(s).children[s.proc.value]);
    }
  }

  lemma {:induction false} RunAddsNoBadLine(s: Sys, steps: seq<Step>)
    requires Inv(s) && NoBadLines(s) && Run(s, steps).Some? && NoneSaysFailed(steps)
    ensures NoBadLines(Run(s, steps).value) && Inv(Run(s, steps).value)
    decreases |steps|
  {
    if steps != [] {
      assert steps[0] in steps;
      StepAddsNoBadLine(s, steps[0]);
      Inductive(s, steps[0]);
      RunAddsNoBadLine(Apply(s, steps[0]), steps[1..]);
    }
  }

  lemma {:induction false} FailingChildIsGone(s: Sys, steps: seq<Step>)
    requires Inv(s) && NoBadLines(s) && FailsToStart(s, steps) && NoneSaysFailed(steps)
    ensures Run(s, steps).Some? && !UsableProc(Run(s, steps).value)
    decreases |steps|
  {
    assert steps[0] in steps;
    if |steps| == 1 {
      ReadingKeeps(s);
      assert NoBadLine(s.children[s.proc.value]) && Lines(s.children[s.proc.value])[0] == Head(s);
      assert Run(Apply(s, steps[0]), steps[1..]) == Some(Apply(s, steps[0]));
    } else {
      StepAddsNoBadLine(s, steps[0]);
      Inductive(s, steps[0]);
      FailingChildIsGone(Apply(s, steps[0]), steps[1..]);
    }
  }

  /** With children that never say they failed, as the program's own do, a failed `start` is never used. */
  lemma FailedStartIsNotUsed(before: seq<Step>, c: int, steps: seq<Step>)
    requires Run(START, before).Some? && NoneSaysFailed(before + steps)
    requires var s := Run(START, before).value;
             s.phase.Free? && !UsableProc(s) && c !in s.children && FailsToStart(Apply(s, StartBegin(c)), steps)
    ensures !UsedAfterFailing(Run(START, before).value, c, steps)
  {
    var s := Run(START, before).value;
    assert forall step <- before :: step in before + steps;
    assert forall step <- steps :: step in before + steps;
    StartIsValid();
    RunAddsNoBadLine(START, before);
    StepAddsNoBadLine(s, StartBegin(c));
    Inductive(s, StartBegin(c));
    FailingChildIsGone(Apply(s, StartBegin(c)), steps);
  }

  /** With a child that does, it happens: a first child gets ready and exits, the second fails and is used. */
  lemma FailedStartIsUsed()
    ensures var one := [StartBegin(1), ChildEmit(1, Ready(1, true)), Pump(1), ProbeLine];
            var s := Run(START, one + [ChildExit(1)]);
            && s.Some? && s.value.phase.Free? && !UsableProc(s.value) && 2 !in s.value.children
            && exists steps :: UsedAfterFailing(s.value, 2, steps)
  {
    var one := [StartBegin(1), ChildEmit(1, Ready(1, true)), Pump(1), ProbeLine];
    StartWithHandshake(START, 1, true);
    RunsCompose(START, one, [ChildExit(1)]);
    var t := Run(START, one).value;
    OneStep(t, ChildExit(1));
    FailedStartUsableIff(Apply(t, ChildExit(1)), 2);
  }
}
