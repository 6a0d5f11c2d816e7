/**
 The engine-subprocess protocol as steps of three parties: the parent holding the proxy's lock,
 the pump threads, and the children. Every child has its own stdout pipe and its own queue.
 Assumed of a child: its JSON lines are only progress, ready, or one final line per request.
 Source: runner/common/engineproc.py.
 */
module EngineProtocol {
  import opened Basics
  import opened Options

  datatype Request = Request(id: int, op: string)

  /** One item a pump pushes on the parent's queue, with the child it came from; `Noise` is a blank or
      non-JSON line. */
  datatype Item =
    | Noise(child: int)
    | Progress(child: int)
    | Ready(child: int, ok: bool)
    | Final(child: int, req: Request, ok: bool, value: int)
    | Eof(child: int)

  datatype Child = Child(alive: bool, inbox: seq<Request>, current: Option<Request>, pipe: seq<Item>, queue: seq<Item>)

  const DRAIN_LINES := 64
  const MAX_LINES := 20000

  /** What the task holding the lock is doing; `Free` when nobody holds it. */
  datatype Phase =
    | Free
    | Probing(next: Option<Request>)            // awaiting the handshake, for `start` or for `run`
    | Draining(req: Request, left: nat)
    | Sending(req: Request)
    | Reading(req: Request, left: nat)

  /** `run(asked)` returned the value of `answer`, read while `child` was the proxy's process. */
  datatype Returned = Returned(asked: Request, child: int, answer: Item)

  datatype Sys = Sys(children: map<int, Child>, proc: Option<int>, ready: bool, phase: Phase, log: seq<Returned>)

  datatype Step =
    | RunBegin(req: Request, c: int)            // `c` names the child if one is spawned
    | StartBegin(c: int)
    | ProbeLine
    | DrainLine
    | DrainEnd                                  // nothing comes within the drain's wait, or its lines are used up
    | Send
    | ReadLine
    | Abort                                     // timeout, write failure: evict the child, raise
    | Stop                                      // `stop`, by a task that found the lock free
    | Pump(c: int)
    | ChildTake(c: int)
    | ChildEmit(c: int, line: Item)
    | ChildAnswer(c: int, ok: bool, value: int)
    | ChildExit(c: int)

  const NEW_CHILD := Child(true, [], None, [], [])

  predicate UsableProc(s: Sys) {
    s.ready && s.proc.Some? && s.proc.value in s.children && s.children[s.proc.value].alive
  }

  predicate HasLine(s: Sys) {
    s.proc.Some? && s.proc.value in s.children && s.children[s.proc.value].queue != []
  }

  predicate Enabled(s: Sys, step: Step) {
    match step
    case RunBegin(_, c) => s.phase.Free? && c !in s.children
    case StartBegin(c) => s.phase.Free? && c !in s.children
    case ProbeLine => s.phase.Probing? && HasLine(s)
    case DrainLine => s.phase.Draining? && s.phase.left > 0 && HasLine(s)
    case DrainEnd => s.phase.Draining? && (s.phase.left == 0 || !HasLine(s))
    case Send => s.phase.Sending? && s.proc.Some? && s.proc.value in s.children && s.children[s.proc.value].alive
    case ReadLine => s.phase.Reading? && s.phase.left > 0 && HasLine(s)
    case Abort => !s.phase.Free?
    case Stop => s.phase.Free?
    case Pump(c) => c in s.children && s.children[c].pipe != []
    case ChildTake(c) => c in s.children && s.children[c].alive && s.children[c].current.None? && s.children[c].inbox != []
    case ChildEmit(c, line) => c in s.children && s.children[c].alive && line.child == c && (line.Noise? || line.Progress? || line.Ready?)
    case ChildAnswer(c, _, _) => c in s.children && s.children[c].alive && s.children[c].current.Some?
    case ChildExit(c) => c in s.children && s.children[c].alive
  }

  function Spawned(s: Sys, c: int, next: Option<Request>): Sys {
    s.(children := s.children[c := NEW_CHILD], proc := Some(c), phase := Probing(next))
  }

  /** `_stop_unlocked`: the child is forgotten; its process ends by a step of its own. */
  function Evicted(s: Sys): Sys {
    s.(proc := None, ready := false, phase := Free)
  }

  function Popped(s: Sys): Sys
    requires HasLine(s)
  {
    var c := s.children[s.proc.value];
    s.(children := s.children[s.proc.value := c.(queue := c.queue[1..])])
  }

  function Head(s: Sys): Item
    requires HasLine(s)
  {
    s.children[s.proc.value].queue[0]
  }

  function Apply(s: Sys, step: Step): Sys
    requires Enabled(s, step)
  {
    match step
    case RunBegin(req, c) =>
      if UsableProc(s) then s.(phase := Draining(req, DRAIN_LINES)) else Spawned(s, c, Some(req))
    case StartBegin(c) => if UsableProc(s) then s else Spawned(s, c, None)
    case ProbeLine => Probe(s)
    case DrainLine =>
      if Head(s).Eof? then Popped(s).(phase := Sending(s.phase.req))
      else Popped(s).(phase := Draining(s.phase.req, s.phase.left - 1))
    case DrainEnd => s.(phase := Sending(s.phase.req))
    case Send =>
      var c := s.children[s.proc.value];
      s.(children := s.children[s.proc.value := c.(inbox := c.inbox + [s.phase.req])], phase := Reading(s.phase.req, MAX_LINES))
    case ReadLine => Read(s)
    case Abort => Evicted(s)
    case Stop => Evicted(s)
    case _ => s.(children := s.children[step.c := ChildStep(s.children[step.c], step)])
  }

  predicate IsChildStep(step: Step) {
    step.Pump? || step.ChildTake? || step.ChildEmit? || step.ChildAnswer? || step.ChildExit?
  }

  /** What a child's own step, or its pump's, does to it. */
  function ChildStep(x: Child, step: Step): Child
    requires IsChildStep(step)
    requires step.Pump? ==> x.pipe != []
    requires step.ChildTake? ==> x.inbox != []
    requires step.ChildAnswer? ==> x.current.Some?
  {
    match step
    case Pump(_) => x.(queue := x.queue + [x.pipe[0]], pipe := x.pipe[1..])
    case ChildTake(_) => x.(current := Some(x.inbox[0]), inbox := x.inbox[1..])
    case ChildEmit(_, line) => x.(pipe := x.pipe + [line])
    case ChildAnswer(c, ok, value) => x.(pipe := x.pipe + [Final(c, x.current.value, ok, value)], current := None)
    case ChildExit(c) => x.(alive := false, inbox := [], current := None, pipe := x.pipe + [Eof(c)])
  }

  /** A failed probe evicts the child when a request was waiting for it, not when `start` was. */
  function Probe(s: Sys): Sys
    requires Enabled(s, ProbeLine)
  {
    var t := Popped(s);
    match Head(s)
    case Ready(_, true) =>
      t.(ready := true, phase := if s.phase.next.Some? then Draining(s.phase.next.value, DRAIN_LINES) else Free)
    case Ready(_, false) => if s.phase.next.Some? then Evicted(t) else t.(phase := Free)
    case Eof(_) => if s.phase.next.Some? then Evicted(t) else t.(phase := Free)
    case _ => t
  }

  /** One turn of the result loop: progress, handshakes and noise are skipped, EOF and an error
      result evict the child, and so does the last line of the line budget. */
  function Read(s: Sys): Sys
    requires Enabled(s, ReadLine)
  {
    var t := Popped(s);
    match Head(s)
    case Eof(_) => Evicted(t)
    case Final(_, _, ok, _) =>
      if ok then t.(phase := Free, log := s.log + [Returned(s.phase.req, s.proc.value, Head(s))]) else Evicted(t)
    case _ => if s.phase.left == 1 then Evicted(t) else t.(phase := Reading(s.phase.req, s.phase.left - 1))
  }

  // ----- conservation of requests ----------------------------------------------------

  function Answered(items: seq<Item>): seq<Request> {
    if items == [] then []
    else (if items[0].Final? then [items[0].req] else []) + Answered(items[1..])
  }

  lemma {:induction false} AnsweredSplits(a: seq<Item>, b: seq<Item>)
    ensures Answered(a + b) == Answered(a) + Answered(b)
  {
    if a == [] {
      assert a + b == b;
    } else {
      AnsweredSplits(a[1..], b);
      assert (a + b)[1..] == a[1..] + b;
      JoinsInAnyOrder(if a[0].Final? then [a[0].req] else [], Answered(a[1..]), Answered(b));
    }
  }

  /** All a child has written and the parent has not read. */
  function Lines(x: Child): seq<Item> {
    x.queue + x.pipe
  }

  /** Every request a child was sent and whose final line the parent has not read, oldest first. */
  function Outstanding(x: Child): seq<Request> {
    Answered(Lines(x)) + ((if x.current.Some? then [x.current.value] else []) + x.inbox)
  }

  /** What a step of the child or its pump does to the lines. */
  lemma ChildStepLines(x: Child, step: Step)
    requires IsChildStep(step)
    requires step.Pump? ==> x.pipe != []
    requires step.ChildTake? ==> x.inbox != []
    requires step.ChildAnswer? ==> x.current.Some?
    ensures step.Pump? || step.ChildTake? ==> Lines(ChildStep(x, step)) == Lines(x)
    ensures step.ChildEmit? ==> Lines(ChildStep(x, step)) == Lines(x) + [step.line]
    ensures step.ChildExit? ==> Lines(ChildStep(x, step)) == Lines(x) + [Eof(step.c)]
    ensures step.ChildAnswer? ==>
              Lines(ChildStep(x, step)) == Lines(x) + [Final(step.c, x.current.value, step.ok, step.value)]
    ensures Lines(x) <= Lines(ChildStep(x, step)) && |x.queue| <= |ChildStep(x, step).queue|
  {
  }

  /** A child's own steps, and its pump's, neither lose nor reorder a request; exiting drops some. */
  lemma ChildKeepsOutstanding(x: Child, step: Step)
    requires IsChildStep(step)
    requires step.Pump? ==> x.pipe != []
    requires step.ChildTake? ==> x.inbox != [] && x.current.None?
    requires step.ChildEmit? ==> !step.line.Final?
    requires step.ChildAnswer? ==> x.current.Some?
    ensures !step.ChildExit? ==> Outstanding(ChildStep(x, step)) == Outstanding(x)
    ensures step.ChildExit? ==> Outstanding(ChildStep(x, step)) <= Outstanding(x)
  {
    ChildStepLines(x, step);
    match step
    case Pump(_) =>
    case ChildEmit(_, line) => AddedLine(Lines(x), line);
    case ChildAnswer(c, ok, value) =>
      AddedLine(Lines(x), Final(c, x.current.value, ok, value));
      JoinsInAnyOrder(Answered(Lines(x)), [x.current.value], x.inbox);
      assert [] + x.inbox == x.inbox;
    case ChildExit(c) => AddedLine(Lines(x), Eof(c));
    case ChildTake(_) => assert [] + x.inbox == [x.inbox[0]] + x.inbox[1..];
  }

  lemma AddedLine(q: seq<Item>, line: Item)
    ensures Answered(q + [line]) == Answered(q) + if line.Final? then [line.req] else []
  {
    AnsweredSplits(q, [line]);
    assert Answered([line]) == (if line.Final? then [line.req] else []) + Answered([]);
    assert Answered([line]) == if line.Final? then [line.req] else [];
  }

  /** Every line of a child carries that child's name, and a child that was closed is not running. */
  predicate Tagged(s: Sys) {
    forall c <- s.children :: TaggedAll(s.children[c], c)
  }

  predicate TaggedAll(x: Child, c: int) {
    forall i | 0 <= i < |Lines(x)| :: Lines(x)[i].child == c && (Lines(x)[i].Eof? ==> !x.alive)
  }

  /** Nothing is pending on the current child unless a request is being read; then only that one. */
  predicate NothingStale(s: Sys)
    requires s.proc.Some? ==> s.proc.value in s.children
    requires !s.phase.Free? ==> s.proc.Some?
  {
    match s.phase
    case Reading(req, _) => Outstanding(s.children[s.proc.value]) == [] || Outstanding(s.children[s.proc.value]) == [req]
    case _ => s.proc.Some? ==> Outstanding(s.children[s.proc.value]) == []
  }

  predicate Corresponds(r: Returned) {
    r.answer.Final? && r.answer.ok && r.answer.req == r.asked && r.answer.child == r.child
  }

  predicate Inv(s: Sys)
  {
    && (s.proc.Some? ==> s.proc.value in s.children)
    && (!s.phase.Free? ==> s.proc.Some?)
    && (s.phase.Reading? ==> s.phase.left > 0)
    && NothingStale(s)
    && Tagged(s)
    && forall r <- s.log :: Corresponds(r)
  }

  lemma {:induction false} Inductive(s: Sys, step: Step)
    requires Inv(s) && Enabled(s, step)
    ensures Inv(Apply(s, step))
  {
    if IsChildStep(step) {
      ChildStepKeepsInv(s, step);
    } else if step.ProbeLine? {
      ProbeKeepsInv(s);
    } else if step.DrainLine? {
      DrainKeepsInv(s);
    } else if step.ReadLine? {
      ReadKeepsInv(s);
    }
  }

  lemma ChildStepKeepsInv(s: Sys, step: Step)
    requires Inv(s) && Enabled(s, step) && IsChildStep(step)
    ensures Inv(Apply(s, step))
  {
    ChildKeepsOutstanding(s.children[step.c], step);
    ChildStepKeepsTags(s, step);
  }

  lemma ChildStepKeepsTags(s: Sys, step: Step)
    requires Tagged(s) && Enabled(s, step) && IsChildStep(step)
    ensures Tagged(Apply(s, step))
  {
    ChildStepLines(s.children[step.c], step);
    var s' := Apply(s, step);
    forall c <- s'.children ensures TaggedAll(s'.children[c], c) {
      assert TaggedAll(s.children[c], c);
    }
  }

  /** While nothing is outstanding, a line off the queue is no final and leaves nothing outstanding. */
  lemma QuietLine(s: Sys)
    requires Inv(s) && HasLine(s) && !s.phase.Reading?
    ensures !Head(s).Final? && Tagged(Popped(s))
    ensures Outstanding(Popped(s).children[s.proc.value]) == []
  {
    ReadingKeeps(s);
  }

  lemma ProbeKeepsInv(s: Sys)
    requires Inv(s) && Enabled(s, ProbeLine)
    ensures Inv(Apply(s, ProbeLine))
  {
    QuietLine(s);
    var t := Popped(s);
    assert t.log == s.log && t.proc == s.proc && t.phase == s.phase;
    assert Apply(s, ProbeLine) in {
      t, Evicted(t), t.(phase := Free), t.(ready := true, phase := Free),
      t.(ready := true, phase := if s.phase.next.Some? then Draining(s.phase.next.value, DRAIN_LINES) else Free)};
  }

  lemma DrainKeepsInv(s: Sys)
    requires Inv(s) && Enabled(s, DrainLine)
    ensures Inv(Apply(s, DrainLine))
  {
    QuietLine(s);
  }

  lemma ReadKeepsInv(s: Sys)
    requires Inv(s) && Enabled(s, ReadLine)
    ensures Inv(Apply(s, ReadLine))
  {
    ReadingKeeps(s);
    if Head(s).Final? {
      assert Outstanding(s.children[s.proc.value])[0] == Head(s).req;
    }
  }

  /** A line the parent takes is the current child's own and removes at most the oldest outstanding request. */
  lemma ReadingKeeps(s: Sys)
    requires Tagged(s) && HasLine(s)
    ensures Tagged(Popped(s))
    ensures var x := s.children[s.proc.value];
            Outstanding(x) == (if Head(s).Final? then [Head(s).req] else []) + Outstanding(Popped(s).children[s.proc.value])
    ensures Head(s).child == s.proc.value && (Head(s).Eof? ==> !s.children[s.proc.value].alive)
    ensures Lines(Popped(s).children[s.proc.value]) == Lines(s.children[s.proc.value])[1..]
  {
    var x := s.children[s.proc.value];
    var y := Popped(s).children[s.proc.value];
    assert TaggedAll(x, s.proc.value);
    assert Lines(x)[0] == Head(s) && Lines(x)[1..] == Lines(y);
    var rest := (if x.current.Some? then [x.current.value] else []) + x.inbox;
    JoinsInAnyOrder(if Head(s).Final? then [Head(s).req] else [], Answered(Lines(y)), rest);
    assert TaggedAll(y, s.proc.value) by {
      forall i | 0 <= i < |Lines(y)| ensures Lines(y)[i] == Lines(x)[i + 1] {
      }
    }
    forall c <- Popped(s).children ensures TaggedAll(Popped(s).children[c], c) {
      assert TaggedAll(s.children[c], c);
    }
  }

  function Run(s: Sys, steps: seq<Step>): Option<Sys>
    decreases |steps|
  {
    if steps == [] then Some(s)
    else if !Enabled(s, steps[0]) then None
    else Run(Apply(s, steps[0]), steps[1..])
  }

  const START := Sys(map[], None, false, Free, [])

  lemma StartIsValid()
    ensures Inv(START)
  {
  }

  /** Over every run, every line the parent takes was written by the child it is talking to. */
  lemma EveryLineIsCurrent(steps: seq<Step>)
    requires Run(START, steps).Some?
    ensures var s := Run(START, steps).value; HasLine(s) ==> Head(s).child == s.proc.value
  {
    StartIsValid();
    EveryReturnCorresponds(START, steps);
    var s := Run(START, steps).value;
    if HasLine(s) {
      ReadingKeeps(s);
    }
  }

  /** Over every run, each value ever returned by `run(op)` is the answer to that same request, given
      by the child that was the proxy's process at the time; and with the lock free no final line of
      the current child is pending. */
  lemma {:induction false} EveryReturnCorresponds(s: Sys, steps: seq<Step>)
    requires Inv(s) && Run(s, steps).Some?
    ensures var f := Run(s, steps).value;
            && Inv(f)
            && (forall r <- f.log :: Corresponds(r))
            && (f.phase.Free? && f.proc.Some? ==> Outstanding(f.children[f.proc.value]) == [])
    decreases |steps|
  {
    if steps != [] {
      Inductive(s, steps[0]);
      EveryReturnCorresponds(Apply(s, steps[0]), steps[1..]);
    }
  }

  // ----- runs in parts ---------------------------------------------------------------

  lemma RunStep(s: Sys, step: Step, rest: seq<Step>)
    requires Enabled(s, step)
    ensures Run(s, [step] + rest) == Run(Apply(s, step), rest)
  {
    assert ([step] + rest)[1..] == rest;
  }

  lemma {:induction false} RunsCompose(s: Sys, a: seq<Step>, b: seq<Step>)
    requires Run(s, a).Some?
    ensures Run(s, a + b) == Run(Run(s, a).value, b)
    decreases |a|
  {
    if a == [] {
      assert a + b == b;
    } else {
      assert (a + b)[1..] == a[1..] + b;
      RunsCompose(Apply(s, a[0]), a[1..], b);
    }
  }
}
