/**
 The loops of the engine-subprocess harness: the parent's three readers of the stdout queue and
 the child's command loop, and how the result loop is the protocol's `ReadLine` steps.
 Source: runner/common/engineproc.py.
 */
module EngineProc {
  import opened Options
  import opened EngineProtocol

  /** What `_read_result` comes back with. */
  datatype Outcome =
    | Result(line: Item)
    | Closed               // EOF
    | Exhausted            // the line budget ran out
    | TimedOut             // no further line before the deadline

  predicate Decisive(x: Item) {
    x.Eof? || x.Final?
  }

  /** The position of the first final or EOF item, or the length when there is none. */
  function FirstDecisive(q: seq<Item>): (k: nat)
    ensures k <= |q|
    ensures forall i | 0 <= i < k :: !Decisive(q[i])
    ensures k < |q| ==> Decisive(q[k])
  {
    if q == [] || Decisive(q[0]) then 0 else 1 + FirstDecisive(q[1..])
  }

  function CountProgress(q: seq<Item>): nat {
    if q == [] then 0 else CountProgress(q[..|q| - 1]) + (if q[|q| - 1].Progress? then 1 else 0)
  }

  /** How the wait for the handshake ends; `Failed` is EOF or a bad handshake. */
  datatype Handshake = Good | Failed | Late

  predicate EndsProbe(x: Item) {
    x.Eof? || x.Ready?
  }

  /** Line `k` is the first handshake or EOF. */
  predicate ShakesAt(q: seq<Item>, k: int) {
    0 <= k < |q| && (q[k].Ready? || q[k].Eof?) && forall i | 0 <= i < k :: !q[i].Ready? && !q[i].Eof?
  }

  predicate NeverShakes(q: seq<Item>) {
    forall i | 0 <= i < |q| :: !q[i].Ready? && !q[i].Eof?
  }

  /** Line `k` is the first final or EOF. */
  predicate DecidesAt(q: seq<Item>, k: int) {
    0 <= k < |q| && (q[k].Final? || q[k].Eof?) && forall i | 0 <= i < k :: !q[i].Final? && !q[i].Eof?
  }

  predicate NeverDecides(q: seq<Item>) {
    forall i | 0 <= i < |q| :: !q[i].Final? && !q[i].Eof?
  }

  /** The position of the first handshake or EOF item, or the length when there is none. */
  function FirstHandshake(q: seq<Item>): (k: nat)
    ensures k <= |q|
    ensures forall i | 0 <= i < k :: !EndsProbe(q[i])
    ensures k < |q| ==> EndsProbe(q[k])
  {
    if q == [] || EndsProbe(q[0]) then 0 else 1 + FirstHandshake(q[1..])
  }

  function Shaken(q: seq<Item>): Handshake {
    var k := FirstHandshake(q);
    if k == |q| then Late else if q[k].Ready? && q[k].ok then Good else Failed
  }

  /** In terms of the lines: good when an ok handshake comes before any other handshake and before EOF, failed
      when EOF or a handshake that is not ok does, late when neither comes at all. */
  lemma HandshakeDecides(q: seq<Item>)
    ensures Shaken(q) == Good <==>
              exists k :: ShakesAt(q, k) && q[k].Ready? && q[k].ok
    ensures Shaken(q) == Failed <==>
              exists k :: ShakesAt(q, k) && (q[k].Eof? || !q[k].ok)
    ensures Shaken(q) == Late <==> NeverShakes(q)
    ensures forall k | ShakesAt(q, k) ::
              FirstHandshake(q) == k
  {
    var k := FirstHandshake(q);
    if k < |q| {
      assert EndsProbe(q[k]);
      forall h | ShakesAt(q, h)
        ensures h == k
      {
        assert EndsProbe(q[h]);
      }
    }
  }

  /** Likewise for what `run` reads: the first final or EOF decides, within 20000 lines. */
  lemma FinalDecides(q: seq<Item>)
    ensures forall k | DecidesAt(q, k) ::
              && FirstDecisive(q) == k
              && Answer(q) == if k < 20000 && q[k].Final? && q[k].ok then Some(q[k].value) else None
    ensures NeverDecides(q) ==> FirstDecisive(q) == |q| && Answer(q) == None
  {
    var k := FirstDecisive(q);
    forall h | DecidesAt(q, h)
      ensures h == k
    {
      assert Decisive(q[h]);
    }
    if k < |q| {
      assert Decisive(q[k]);
    }
  }

  /** Each progress line counts once. */
  lemma {:induction false} ProgressIsCounted(q: seq<Item>)
    ensures CountProgress(q) == |set i | 0 <= i < |q| && q[i].Progress?|
  {
    if q != [] {
      var n := |q| - 1;
      ProgressIsCounted(q[..n]);
      var before, all := set i | 0 <= i < n && q[i].Progress?, set i | 0 <= i < |q| && q[i].Progress?;
      assert before == set i | 0 <= i < n && q[..n][i].Progress?;
      if q[n].Progress? {
        assert all == before + {n};
      } else {
        assert all == before;
      }
    }
  }

  /** The value `run` gives for the lines that arrive after its request, if they hold a good final. */
  function Answer(q: seq<Item>): Option<int> {
    var k := FirstDecisive(q);
    if k < |q| && k < MAX_LINES && q[k].Final? && q[k].ok then Some(q[k].value) else None
  }

  /** Nothing in the queue can be mistaken for an answer, and one drain of 64 lines empties it. */
  predicate Quiet(q: seq<Item>) {
    |q| <= 64 && forall i | 0 <= i < |q| :: !q[i].Final? && !q[i].Eof?
  }

  /** What `run` comes back with, line by line: the first final or EOF decides, if there is one. */
  ghost predicate Decided(written: bool, arriving: seq<Item>, r: Option<int>, left: seq<Item>) {
    && (!written ==> r == None)
    && (NeverDecides(arriving) ==> r == None)
    && forall k | DecidesAt(arriving, k) ::
         if written && k < 20000 && arriving[k].Final? && arriving[k].ok
         then r == Some(arriving[k].value) && left == arriving[k + 1..]
         else r == None
  }

  /** What the result loop makes of a queue, by its first decisive line. */
  predicate FirstIsRead(q: seq<Item>, r: Outcome, relayed: nat, left: seq<Item>) {
    var k := FirstDecisive(q);
    if k >= MAX_LINES then r == Exhausted && left == q[MAX_LINES..] && relayed == CountProgress(q[..MAX_LINES])
    else if k == |q| then r == TimedOut && left == [] && relayed == CountProgress(q)
    else left == q[k + 1..] && relayed == CountProgress(q[..k]) && r == if q[k].Eof? then Closed else Result(q[k])
  }

  /** In terms of the lines: the first final or EOF within 20000 is what comes back, and each progress line
      before it is relayed once. */
  lemma FirstFinalComesBack(q: seq<Item>, k: nat, r: Outcome, relayed: nat, left: seq<Item>)
    requires FirstIsRead(q, r, relayed, left)
    requires k < 20000 && DecidesAt(q, k)
    ensures left == q[k + 1..] && relayed == |set i | 0 <= i < k && q[i].Progress?|
    ensures r == if q[k].Eof? then Closed else Result(q[k])
  {
    FinalDecides(q);
    ProgressUpTo(q, k);
  }

  /** Without one the loop times out, or gives up after 20000 lines. */
  lemma NoFinalComesBack(q: seq<Item>, r: Outcome, relayed: nat, left: seq<Item>)
    requires FirstIsRead(q, r, relayed, left)
    requires forall i | 0 <= i < |q| && i < 20000 :: !q[i].Final? && !q[i].Eof?
    ensures var n := if |q| < 20000 then |q| else 20000;
            && r == (if |q| < 20000 then TimedOut else Exhausted)
            && left == q[n..] && relayed == |set i | 0 <= i < n && q[i].Progress?|
  {
    var k := FirstDecisive(q);
    if k < |q| {
      assert Decisive(q[k]);
    }
    assert q[..|q|] == q;
    ProgressUpTo(q, if |q| < 20000 then |q| else 20000);
  }

  lemma AnswerIsDecided(written: bool, arriving: seq<Item>, r: Option<int>, left: seq<Item>)
    requires r == if written then Answer(arriving) else None
    requires r.Some? ==> left == arriving[FirstDecisive(arriving) + 1..]
    ensures Decided(written, arriving, r, left)
  {
    FinalDecides(arriving);
  }

  lemma StartDecides(spawned: seq<Item>, written: bool, arriving: seq<Item>, r: Option<int>, left: seq<Item>)
    requires Shaken(spawned) != Good ==> r == None
    requires Shaken(spawned) == Good && Quiet(spawned[FirstHandshake(spawned) + 1..]) ==> Decided(written, arriving, r, left)
    ensures forall h | ShakesAt(spawned, h) ::
              if spawned[h].Ready? && spawned[h].ok
              then Quiet(spawned[h + 1..]) ==> Decided(written, arriving, r, left)
              else r == None
    ensures NeverShakes(spawned) ==> r == None
  {
    HandshakeDecides(spawned);
  }

  /** How a spawned child leaves the proxy, first by its handshake as a whole and then line by line. */
  lemma SpawnDecides(lines: seq<Item>, c: int, mark: bool, ok: bool, proc: Option<int>, running: bool, ready: bool,
                     queue: seq<Item>)
    requires ok <==> Shaken(lines) == Good
    requires Shaken(lines) == Late ==> proc == None && !ready && queue == []
    requires Shaken(lines) != Late ==>
               proc == Some(c) && running && ready == (ok || mark) && queue == lines[FirstHandshake(lines) + 1..]
    ensures ok <==> exists k :: ShakesAt(lines, k) && lines[k].Ready? && lines[k].ok
    ensures forall k | ShakesAt(lines, k) ::
              && proc == Some(c) && running
              && ready == (if lines[k].Ready? && lines[k].ok then true else mark)
              && queue == lines[k + 1..]
    ensures NeverShakes(lines) ==> proc == None && !ready && queue == []
  {
    HandshakeDecides(lines);
  }

  lemma ProgressUpTo(q: seq<Item>, n: nat)
    requires n <= |q|
    ensures CountProgress(q[..n]) == |set i | 0 <= i < n && q[i].Progress?|
  {
    ProgressIsCounted(q[..n]);
    assert (set i | 0 <= i < n && q[..n][i].Progress?) == set i | 0 <= i < n && q[i].Progress?;
  }

  /** The proxy; `queue` holds what arrives on the current child's queue before the deadline at hand. */
  class EngineProc {
    var proc: Option<int>
    var running: bool             // the process has not exited: poll() is None
    var ready: bool
    var queue: seq<Item>

    constructor ()
      ensures proc == None && !ready && queue == []
    {
      proc, running, ready, queue := None, false, false, [];
    }

    predicate Usable()
      reads this
    {
      ready && proc.Some? && running
    }

    method StopUnlocked()
      modifies this
      ensures proc == None && !ready && queue == [] && !Usable()
    {
      if proc == None {
        ready, queue := false, [];
        return;
      }
      proc, running, ready, queue := None, false, false, [];
    }

    /** Spawns child `c`, whose first lines are `lines`, unless the proxy is ready. A late handshake stops
        the child; a bad one leaves it in place and `ready` as it was. */
    method EnsureStarted(c: int, lines: seq<Item>) returns (ok: bool)
      modifies this
      ensures old(ready && proc.Some? && running) ==> ok && proc == old(proc) && running && ready && queue == old(queue)
      ensures !old(Usable()) ==> (ok <==> Shaken(lines) == Good)
      ensures !old(Usable()) && ok ==> Usable() && proc == Some(c) && queue == lines[FirstHandshake(lines) + 1..]
      ensures !old(ready && proc.Some? && running) ==>
                (ok <==> exists k :: ShakesAt(lines, k) && lines[k].Ready? && lines[k].ok)
      ensures !old(ready && proc.Some? && running) ==>
                forall k | ShakesAt(lines, k) ::
                  && proc == Some(c) && running
                  && ready == (if lines[k].Ready? && lines[k].ok then true else old(ready))
                  && queue == lines[k + 1..]
      ensures !old(ready && proc.Some? && running) && NeverShakes(lines) ==>
                proc == None && !ready && queue == []
    {
      if Usable() {
        return true;
      }
      proc, running, queue := Some(c), true, lines;
      ghost var mark := ready;
      var h := ProbeReady();
      if h == Late {
        StopUnlocked();
      } else if h == Good {
        ready := true;
      }
      ok := h == Good;
      SpawnDecides(lines, c, mark, ok, proc, running, ready, queue);
    }

    /** `run`: `spawned` are the first lines of a child that has to be spawned, `arriving` those that come
        after the request is written. With nothing in the queue that could be mistaken for an answer, the
        first final or EOF that arrives decides: a good final within 20000 lines gives its value, and
        every failure leaves no child behind. */
    method Run(c: int, spawned: seq<Item>, written: bool, arriving: seq<Item>) returns (r: Option<int>)
      modifies this
      ensures r == None ==> proc == None && !ready && queue == []
      ensures r.Some? ==> ready && running && proc == if old(ready && proc.Some? && running) then old(proc) else Some(c)
      ensures r.Some? ==> written
      ensures old(ready && proc.Some? && running) && Quiet(old(queue)) ==> Decided(written, arriving, r, queue)
      ensures !old(ready && proc.Some? && running) ==>
                forall h | ShakesAt(spawned, h) ::
                  if spawned[h].Ready? && spawned[h].ok
                  then Quiet(spawned[h + 1..]) ==> Decided(written, arriving, r, queue)
                  else r == None
      ensures !old(ready && proc.Some? && running) && NeverShakes(spawned) ==>
                r == None
    {
      ghost var usable := Usable();
      var started := EnsureStarted(c, spawned);
      if started {
        r := Ask(written, arriving);
      } else {
        StopUnlocked();
        r := None;
      }
      if !usable {
        StartDecides(spawned, written, arriving, r, queue);
      }
    }

    /** `run` once the proxy is usable: drain, write, read; anything but a good final stops the child. */
    method Ask(written: bool, arriving: seq<Item>) returns (r: Option<int>)
      requires Usable()
      modifies this
      ensures r == None ==> proc == None && !ready && queue == []
      ensures r.Some? ==> Usable() && proc == old(proc) && written
      ensures Quiet(old(queue)) ==> Decided(written, arriving, r, queue)
    {
      ghost var quiet := Quiet(queue);
      DrainStaleStdout();
      if !written {
        StopUnlocked();
        AnswerIsDecided(written, arriving, None, queue);
        return None;
      }
      queue := queue + arriving;
      assert quiet ==> queue == arriving;
      var out, _ := ReadResult();
      if out.Result? && out.line.Final? && out.line.ok {
        r := Some(out.line.value);
      } else {
        StopUnlocked();
        r := None;
      }
      if quiet {
        AnswerIsDecided(written, arriving, r, queue);
      }
    }

    /** Returns the first final line, whatever precedes it, relaying each progress line once. */
    method ReadResult() returns (r: Outcome, relayed: nat)
      modifies this`queue
      ensures FirstIsRead(old(queue), r, relayed, queue)
    {
      relayed := 0;
      ghost var q := queue;
      for i := 0 to MAX_LINES
        invariant i <= FirstDecisive(q) && queue == q[i..]
        invariant relayed == CountProgress(q[..i])
      {
        if queue == [] {
          assert q[..i] == q;
          return TimedOut, relayed;
        }
        var raw := queue[0];
        queue := queue[1..];
        assert queue == q[i + 1..] && raw == q[i];
        assert q[..i + 1][..i] == q[..i] && q[..i + 1][i] == raw;
        if raw.Eof? {
          return Closed, relayed;
        }
        if raw.Progress? {
          relayed := relayed + 1;
        }
        if raw.Final? {
          return Result(raw), relayed;
        }
      }
      return Exhausted, relayed;
    }

    /** Drops what is buffered, up to the drain limit, stopping after an EOF. */
    method DrainStaleStdout()
      modifies this`queue
      ensures exists k | 0 <= k <= |old(queue)| && k <= 64 ::
                && queue == old(queue)[k..]
                && (forall i | 0 <= i < k - 1 :: !old(queue)[i].Eof?)
                && (k < 64 && k < |old(queue)| ==> k > 0 && old(queue)[k - 1].Eof?)
      ensures Quiet(old(queue)) ==> queue == []
    {
      ghost var q := queue;
      for i := 0 to DRAIN_LINES
        invariant i <= |q| && queue == q[i..] && forall j | 0 <= j < i :: !q[j].Eof?
      {
        if queue == [] {
          assert i == |q|;
          return;
        }
        var raw := queue[0];
        queue := queue[1..];
        if raw.Eof? {
          assert q[i].Eof? && queue == q[i + 1..];
          assert Decisive(q[i]) && q[i] in q;
          return;
        }
      }
      assert queue == q[DRAIN_LINES..];
    }

    /** The first handshake decides, unless EOF comes before it. */
    method ProbeReady() returns (h: Handshake)
      modifies this`queue
      ensures h == Shaken(old(queue))
      ensures h != Late ==> queue == old(queue)[FirstHandshake(old(queue)) + 1..]
      ensures h == Late <==> NeverShakes(old(queue))
      ensures var q := old(queue);
              forall k | ShakesAt(q, k) ::
                && h == (if q[k].Ready? && q[k].ok then Good else Failed)
                && queue == q[k + 1..]
    {
      ghost var q := queue;
      HandshakeDecides(q);
      ghost var i := 0;
      while queue != []
        invariant 0 <= i <= FirstHandshake(q) && queue == q[i..]
        decreases |queue|
      {
        var raw := queue[0];
        queue := queue[1..];
        assert raw == q[i];
        if raw.Eof? {
          return Failed;
        }
        if raw.Ready? {
          return if raw.ok then Good else Failed;
        }
        i := i + 1;
      }
      return Late;
    }
  }

  /** The protocol's state after `k` lines have been read and skipped. */
  function Skipped(s: Sys, k: nat): Sys
    requires s.phase.Reading? && s.proc.Some? && s.proc.value in s.children
    requires k < s.phase.left && k <= |s.children[s.proc.value].queue|
  {
    var c := s.children[s.proc.value];
    s.(children := s.children[s.proc.value := c.(queue := c.queue[k..])], phase := Reading(s.phase.req, s.phase.left - k))
  }

  lemma SkipOne(s: Sys, k: nat)
    requires s.phase.Reading? && s.proc.Some? && s.proc.value in s.children
    requires 0 < k < s.phase.left && k <= FirstDecisive(s.children[s.proc.value].queue)
    ensures Enabled(s, ReadLine) && Apply(s, ReadLine) == Skipped(s, 1)
    ensures k - 1 <= FirstDecisive(Skipped(s, 1).children[s.proc.value].queue)
  {
    assert !Decisive(Head(s));
  }

  lemma SkipOneThenMore(s: Sys, k: nat)
    requires s.phase.Reading? && s.proc.Some? && s.proc.value in s.children
    requires 0 < k < s.phase.left && k <= |s.children[s.proc.value].queue|
    ensures Skipped(Skipped(s, 1), k - 1) == Skipped(s, k)
  {
    var q := s.children[s.proc.value].queue;
    assert q[1..][k - 1..] == q[k..];
    assert Skipped(Skipped(s, 1), k - 1).children == Skipped(s, k).children;
  }

  /** The result loop is the protocol: skipping `k` lines is `k` `ReadLine` steps. */
  lemma {:induction false} SkippingIsReadSteps(s: Sys, k: nat)
    requires s.phase.Reading? && s.proc.Some? && s.proc.value in s.children
    requires k < s.phase.left && k <= FirstDecisive(s.children[s.proc.value].queue)
    ensures Run(s, seq(k, _ => ReadLine)) == Some(Skipped(s, k))
    decreases k
  {
    if k == 0 {
      var c := s.children[s.proc.value];
      assert c.queue[0..] == c.queue && s.children[s.proc.value := c] == s.children;
    } else {
      assert seq(k, _ => ReadLine)[1..] == seq(k - 1, _ => ReadLine);
      SkipOne(s, k);
      SkippingIsReadSteps(Skipped(s, 1), k - 1);
      SkipOneThenMore(s, k);
    }
  }

  // ----- the child's side ------------------------------------------------------------

  /** A line on the child's stdin: a request, or something blank or undecodable (`Blank`). */
  datatype StdinLine = Blank | Job(req: Request)

  /** What the handler table makes of a request; `progress` counts the progress lines it emits. */
  datatype Handled = UnknownOp | Done(progress: nat, value: int) | Raised(progress: nat)

  function Jobs(stdin: seq<StdinLine>): seq<Request> {
    if stdin == [] then []
    else Jobs(stdin[..|stdin| - 1]) + (if stdin[|stdin| - 1].Job? then [stdin[|stdin| - 1].req] else [])
  }

  /** Every request on stdin is a job, in order, and nothing else is. */
  lemma JobsOneMore(stdin: seq<StdinLine>, req: Request)
    ensures Jobs(stdin + [Job(req)]) == Jobs(stdin) + [req]
  {
    assert (stdin + [Job(req)])[..|stdin|] == stdin;
  }

  lemma JobsSkip(stdin: seq<StdinLine>)
    ensures Jobs([]) == [] && Jobs(stdin + [Blank]) == Jobs(stdin)
  {
    assert (stdin + [Blank])[..|stdin|] == stdin;
  }

  /** The lines a request is answered with: the progress of its handler, then its final. */
  function Reply(me: int, req: Request, h: Handled): seq<Item> {
    match h
    case UnknownOp => [Final(me, req, false, 0)]
    case Done(n, v) => seq(n, _ => Progress(me)) + [Final(me, req, true, v)]
    case Raised(n) => seq(n, _ => Progress(me)) + [Final(me, req, false, 0)]
  }

  function Transcript(me: int, reqs: seq<Request>, handlers: Request -> Handled): seq<Item> {
    if reqs == [] then [Ready(me, true)]
    else Transcript(me, reqs[..|reqs| - 1], handlers) + Reply(me, reqs[|reqs| - 1], handlers(reqs[|reqs| - 1]))
  }

  lemma TranscriptOneMore(me: int, reqs: seq<Request>, req: Request, handlers: Request -> Handled)
    ensures Transcript(me, reqs + [req], handlers) == Transcript(me, reqs, handlers) + Reply(me, req, handlers(req))
  {
    assert (reqs + [req])[..|reqs|] == reqs;
  }

  /** A reply holds as many progress lines as its handler reported, and ends in the one final line. */
  lemma ReplyHolds(me: int, req: Request, h: Handled)
    ensures var q, n := Reply(me, req, h), if h.UnknownOp? then 0 else h.progress;
            && |q| == n + 1
            && (forall i | 0 <= i < n :: q[i] == Progress(me))
            && q[n].Final? && q[n].child == me && q[n].req == req
            && (h.Done? ==> q[n].ok && q[n].value == h.value) && (!h.Done? ==> !q[n].ok)
  {
  }

  predicate Answers(x: Item, me: int, handlers: Request -> Handled) {
    x.child == me
    && (x.Ready? ==> x.ok)
    && (x.Final? ==> match handlers(x.req)
                     case Done(_, v) => x.ok && x.value == v
                     case _ => !x.ok)
  }

  /** Whatever arrives on stdin, the child first says it is ready and then gives each request, in
      order, exactly one final line, which carries its handler's outcome; nothing else is a final. */
  method RunChildLoop(me: int, stdin: seq<StdinLine>, handlers: Request -> Handled) returns (out: seq<Item>)
    ensures out != [] && out[0] == Ready(me, true)
    ensures Answered(out) == Jobs(stdin) && out == Transcript(me, Jobs(stdin), handlers)
    ensures forall x <- out :: x.child == me && !x.Eof? && !x.Noise? && (x.Ready? ==> x.ok)
    ensures forall x <- out | x.Final? ::
              && (handlers(x.req).Done? ==> x.ok && x.value == handlers(x.req).value)
              && (!handlers(x.req).Done? ==> !x.ok)
  {
    out := [Ready(me, true)];
    for i := 0 to |stdin|
      invariant out == Transcript(me, Jobs(stdin[..i]), handlers)
    {
      assert stdin[..i + 1] == stdin[..i] + [stdin[i]];
      if stdin[i].Blank? {
        JobsSkip(stdin[..i]);
      } else {
        var req := stdin[i].req;
        JobsOneMore(stdin[..i], req);
        TranscriptOneMore(me, Jobs(stdin[..i]), req, handlers);
        out := HandleRequest(me, req, handlers(req), out);
      }
    }
    assert stdin[..|stdin|] == stdin;
    TranscriptAnswers(me, Jobs(stdin), handlers);
  }

  /** One turn of the loop: the progress of the handler, then the final line. */
  method HandleRequest(me: int, req: Request, h: Handled, before: seq<Item>) returns (out: seq<Item>)
    ensures out == before + Reply(me, req, h)
  {
    out := before;
    var lines := if h.UnknownOp? then 0 else h.progress;
    for j := 0 to lines
      invariant out == before + seq(j, _ => Progress(me))
    {
      assert seq(j, _ => Progress(me)) + [Progress(me)] == seq(j + 1, _ => Progress(me));
      out := out + [Progress(me)];
    }
    out := out + [if h.Done? then Final(me, req, true, h.value) else Final(me, req, false, 0)];
  }

  lemma {:induction false} ProgressAnswersNothing(me: int, n: nat)
    ensures Answered(seq(n, _ => Progress(me))) == []
  {
    if n > 0 {
      ProgressAnswersNothing(me, n - 1);
      assert seq(n, _ => Progress(me)) == seq(n - 1, _ => Progress(me)) + [Progress(me)];
      AddedLine(seq(n - 1, _ => Progress(me)), Progress(me));
    }
  }

  lemma ReplyAnswers(me: int, req: Request, handlers: Request -> Handled)
    ensures var q := Reply(me, req, handlers(req));
            Answered(q) == [req] && forall x <- q :: Answers(x, me, handlers) && !x.Eof? && !x.Noise?
  {
    var h := handlers(req);
    var n := if h.UnknownOp? then 0 else h.progress;
    var lines := seq(n, _ => Progress(me));
    ProgressAnswersNothing(me, n);
    ReplyHolds(me, req, h);
    var q := Reply(me, req, h);
    assert q == lines + [q[n]];
    AddedLine(lines, q[n]);
  }

  lemma {:induction false} TranscriptAnswers(me: int, reqs: seq<Request>, handlers: Request -> Handled)
    ensures var q := Transcript(me, reqs, handlers);
            && q != [] && q[0] == Ready(me, true) && Answered(q) == reqs
            && forall x <- q :: Answers(x, me, handlers) && !x.Eof? && !x.Noise?
  {
    if reqs == [] {
      AddedLine([], Ready(me, true));
      assert [] + [Ready(me, true)] == [Ready(me, true)];
    } else {
      var init, req := reqs[..|reqs| - 1], reqs[|reqs| - 1];
      TranscriptAnswers(me, init, handlers);
      ReplyAnswers(me, req, handlers);
      AnsweredSplits(Transcript(me, init, handlers), Reply(me, req, handlers(req)));
    }
  }
}
