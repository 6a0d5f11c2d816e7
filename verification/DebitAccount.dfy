/**
 One user's optimistic-debit account as a value: outstanding rows, the consumed-total baseline, and
 what was ever recorded, absorbed and pruned. Recording, pruning and reconciling are functions of
 it; the lemmas say what reconciliation does in one read, over two reads and over whole runs.
 Source: src/balance.ts, src/ledger.ts, src/index.ts. Amounts are integers (USD micros).
 */
module DebitAccount {
  import opened Basics
  import opened Options

  datatype Row = Row(id: nat, user: string, requestId: string, value: int, createdAt: int)

  function Sum(rows: seq<Row>): int {
    if rows == [] then 0 else rows[0].value + Sum(rows[1..])
  }

  lemma {:induction false} SumSplits(a: seq<Row>, b: seq<Row>)
    ensures Sum(a + b) == Sum(a) + Sum(b)
  {
    if a == [] {
      assert a + b == b;
    } else {
      assert (a + b)[1..] == a[1..] + b;
      SumSplits(a[1..], b);
    }
  }

  function Keep(rows: seq<Row>, p: Row -> bool): seq<Row> {
    if rows == [] then [] else (if p(rows[0]) then [rows[0]] else []) + Keep(rows[1..], p)
  }

  lemma {:induction false} KeepMembers(rows: seq<Row>, p: Row -> bool)
    ensures forall x :: x in Keep(rows, p) <==> x in rows && p(x)
  {
    if rows != [] {
      assert rows == [rows[0]] + rows[1..];
      KeepMembers(rows[1..], p);
    }
  }

  function Unexpired(cutoff: int): Row -> bool {
    (row: Row) => row.createdAt >= cutoff
  }

  /** How many of the oldest rows a consumed advance of `delta` pays for, row by row. */
  function AbsorbCount(rows: seq<Row>, delta: int): (k: nat)
    ensures k <= |rows|
  {
    if rows == [] || delta <= 0 || delta < rows[0].value then 0
    else 1 + AbsorbCount(rows[1..], delta - rows[0].value)
  }

  predicate Positive(rows: seq<Row>) {
    forall x <- rows :: x.value > 0
  }

  /** With positive values one read absorbs exactly the longest oldest-first prefix it can pay for. */
  lemma {:induction false} AbsorbsLongestPrefix(rows: seq<Row>, delta: int, j: nat)
    requires Positive(rows) && delta >= 0 && j <= |rows|
    ensures Sum(rows[..j]) <= delta <==> j <= AbsorbCount(rows, delta)
  {
    if j > 0 {
      assert rows[..j][1..] == rows[1..][..j - 1];
      if delta >= rows[0].value {
        AbsorbsLongestPrefix(rows[1..], delta - rows[0].value, j - 1);
      } else {
        SumIsNonNegative(rows[1..][..j - 1]);
      }
    }
  }

  lemma {:induction false} SumIsNonNegative(rows: seq<Row>)
    requires Positive(rows)
    ensures Sum(rows) >= 0
  {
    if rows != [] {
      SumIsNonNegative(rows[1..]);
    }
  }

  datatype Account = Account(rows: seq<Row>, baseline: Option<int>,
                             recorded: int, absorbed: int, pruned: int, seed: int)

  const NEW_ACCOUNT := Account([], None, 0, 0, 0, 0)

  function Pruned(a: Account, cutoff: int): Account {
    var kept := Keep(a.rows, Unexpired(cutoff));
    a.(rows := kept, pruned := a.pruned + Sum(a.rows) - Sum(kept))
  }

  /** Absorption up to a consumed total, and the new baseline; nothing before the first baseline. */
  function Absorbed(a: Account, consumed: int): Account {
    match a.baseline
    case None => a
    case Some(last) =>
      a.(rows := Left(a.rows, consumed - last), absorbed := a.absorbed + Paid(a.rows, consumed - last),
         baseline := Some(consumed))
  }

  /** The rows an advance of `delta` leaves. */
  function Left(rows: seq<Row>, delta: int): seq<Row> {
    rows[AbsorbCount(rows, delta)..]
  }

  /** The value of the rows it absorbs. */
  function Paid(rows: seq<Row>, delta: int): int {
    Sum(rows[..AbsorbCount(rows, delta)])
  }

  /** `resolveUserBalance`: prune, absorb, and prune again when summing, a moment later. */
  function Resolved(a: Account, consumed: int, cutoff: int, later: int): Account {
    Pruned(Absorbed(Pruned(a, cutoff), consumed), later)
  }

  /** `recordOptimisticDebitForUser`: the first call seeds the baseline with the consumed total, or
      with 0 when that could not be read; a request id already outstanding is ignored. */
  function Recorded(a: Account, row: Row, consumed: Option<int>): Account {
    var read := if consumed.Some? then consumed.value else 0;
    var b := if a.baseline.Some? then a else a.(baseline := Some(read), seed := read);
    if exists x <- b.rows :: x.requestId == row.requestId then b
    else b.(rows := b.rows + [row], recorded := b.recorded + row.value)
  }

  function Pending(a: Account): int {
    Sum(a.rows)
  }

  // ----- what the steps do to the rows -----------------------------------------------

  lemma {:induction false} KeepSplits(a: seq<Row>, b: seq<Row>, p: Row -> bool)
    ensures Keep(a + b, p) == Keep(a, p) + Keep(b, p)
  {
    if a == [] {
      assert a + b == b;
    } else {
      assert (a + b)[1..] == a[1..] + b;
      KeepSplits(a[1..], b, p);
      JoinsInAnyOrder(if p(a[0]) then [a[0]] else [], Keep(a[1..], p), Keep(b, p));
    }
  }

  /** Pruning goes through the rows in order: a row stays exactly when it is not older than the cutoff, and
      the value of one that goes is counted as pruned. */
  lemma PruningDropsExpired(a: Account, x: Row, cutoff: int)
    ensures var before, after := Pruned(a, cutoff), Pruned(a.(rows := a.rows + [x]), cutoff);
            && after.rows == (if x.createdAt >= cutoff then before.rows + [x] else before.rows)
            && after.pruned == before.pruned + (if x.createdAt >= cutoff then 0 else x.value)
            && after == before.(rows := after.rows, pruned := after.pruned)
    ensures Pruned(a.(rows := []), cutoff) == a.(rows := [])
  {
    KeepSplits(a.rows, [x], Unexpired(cutoff));
    SumSplits(a.rows, [x]);
    SumSplits(Keep(a.rows, Unexpired(cutoff)), [x]);
  }

  /** A debit joins the rows exactly when none outstanding has its request id; the first call alone sets the
      baseline. */
  lemma RecordingAddsOnce(a: Account, row: Row, consumed: Option<int>)
    ensures var after := Recorded(a, row, consumed);
            && after.rows == (if exists i :: 0 <= i < |a.rows| && a.rows[i].requestId == row.requestId
                              then a.rows else a.rows + [row])
            && after.recorded - a.recorded == (if |after.rows| == |a.rows| then 0 else row.value)
            && (a.baseline.Some? ==> after.baseline == a.baseline && after.seed == a.seed)
            && (a.baseline.None? ==>
                  && after.seed == (if consumed == None then 0 else consumed.value)
                  && after.baseline == Some(after.seed))
            && after.absorbed == a.absorbed && after.pruned == a.pruned
  {
    if exists x <- a.rows :: x.requestId == row.requestId {
      var x :| x in a.rows && x.requestId == row.requestId;
      var i :| 0 <= i < |a.rows| && a.rows[i] == x;
    }
  }

  /** A read without a baseline only looks. With one it moves the baseline to the total it saw and takes the
      oldest rows, as many as the advance since the last read pays for; none when the total went down. */
  lemma ReadTakesOldest(a: Account, last: int, consumed: int)
    requires Positive(a.rows)
    ensures Absorbed(a.(baseline := None), consumed) == a.(baseline := None)
    ensures exists k: nat | k <= |a.rows| :: IsTaken(a.rows, k, consumed - last)
              && Absorbed(a.(baseline := Some(last)), consumed)
                 == a.(rows := a.rows[k..], absorbed := a.absorbed + Sum(a.rows[..k]), baseline := Some(consumed))
  {
    var k := AbsorbCount(a.rows, consumed - last);
    CountIsTaken(a.rows, consumed - last);
    assert k <= |a.rows| && IsTaken(a.rows, k, consumed - last);
  }

  /** An advance of `delta` pays for the first `k` rows and not for the next. */
  predicate IsTaken(rows: seq<Row>, k: nat, delta: int)
    requires k <= |rows|
  {
    (k > 0 ==> Sum(rows[..k]) <= delta) && (k < |rows| ==> Sum(rows[..k + 1]) > delta)
  }

  lemma CountIsTaken(rows: seq<Row>, delta: int)
    requires Positive(rows)
    ensures IsTaken(rows, AbsorbCount(rows, delta), delta)
  {
    var k := AbsorbCount(rows, delta);
    if delta >= 0 {
      AbsorbsLongestPrefix(rows, delta, k);
      if k < |rows| {
        AbsorbsLongestPrefix(rows, delta, k + 1);
      }
    } else if rows != [] {
      SumIsNonNegative(rows[..1]);
    }
  }

  /** The oldest row, when expired, is pruned before anything is absorbed: no read spends consumption on it. */
  lemma ExpiredRowIsNotPaid(a: Account, consumed: int, cutoff: int, later: int)
    requires a.rows != [] && a.rows[0].createdAt < cutoff
    ensures var without := Resolved(a.(rows := a.rows[1..]), consumed, cutoff, later);
            Resolved(a, consumed, cutoff, later) == without.(pruned := without.pruned + a.rows[0].value)
  {
    var p := Pruned(a.(rows := a.rows[1..]), cutoff);
    FirstIsPruned(a, cutoff);
    PrunedIsCarried(p, a.rows[0].value, consumed, later);
  }

  lemma FirstIsPruned(a: Account, cutoff: int)
    requires a.rows != [] && a.rows[0].createdAt < cutoff
    ensures var p := Pruned(a.(rows := a.rows[1..]), cutoff);
            Pruned(a, cutoff) == p.(pruned := p.pruned + a.rows[0].value)
  {
    assert Keep(a.rows, Unexpired(cutoff)) == Keep(a.rows[1..], Unexpired(cutoff));
  }

  lemma PrunedIsCarried(p: Account, v: int, consumed: int, later: int)
    ensures var f := Pruned(Absorbed(p, consumed), later);
            Pruned(Absorbed(p.(pruned := p.pruned + v), consumed), later) == f.(pruned := f.pruned + v)
  {
    var q := Absorbed(p, consumed);
    assert Absorbed(p.(pruned := p.pruned + v), consumed) == q.(pruned := q.pruned + v);
  }

  // ----- conservation ----------------------------------------------------------------

  /** Every recorded micro is absorbed, pruned or pending. */
  predicate Balanced(a: Account) {
    Positive(a.rows) && a.recorded == a.absorbed + a.pruned + Pending(a)
  }

  /** And no more was absorbed than the consumed total has advanced over its seed. */
  predicate Conserved(a: Account) {
    && Balanced(a)
    && match a.baseline
       case None => a.absorbed == 0
       case Some(last) => a.absorbed <= last - a.seed
  }

  lemma PruningConserves(a: Account, cutoff: int)
    requires Conserved(a)
    ensures Conserved(Pruned(a, cutoff))
  {
    KeepMembers(a.rows, Unexpired(cutoff));
  }

  /** A read keeps the account conserved exactly when the consumed total it sees covers what was
      already absorbed; a total that never goes down always does. */
  lemma ReadConservesIff(a: Account, consumed: int)
    requires Conserved(a) && a.baseline.Some?
    ensures Conserved(Absorbed(a, consumed)) <==> a.absorbed <= consumed - a.seed
    ensures a.baseline.value <= consumed ==> Conserved(Absorbed(a, consumed))
  {
    var delta := consumed - a.baseline.value;
    var k := AbsorbCount(a.rows, delta);
    assert a.rows == a.rows[..k] + a.rows[k..];
    SumSplits(a.rows[..k], a.rows[k..]);
    if delta >= 0 {
      AbsorbsLongestPrefix(a.rows, delta, k);
    }
  }

  lemma RecordingConserves(a: Account, row: Row, consumed: Option<int>)
    requires Conserved(a) && row.value > 0
    ensures Conserved(Recorded(a, row, consumed))
  {
    SumSplits(a.rows, [row]);
  }

  datatype Event =
    | Record(row: Row, consumedAtSeed: Option<int>)
    | Resolve(consumed: int, cutoff: int, later: int)

  function Happened(a: Account, e: Event): Account {
    match e
    case Record(row, consumed) => Recorded(a, row, consumed)
    case Resolve(consumed, cutoff, later) => Resolved(a, consumed, cutoff, later)
  }

  function After(a: Account, events: seq<Event>): Account
    decreases |events|
  {
    if events == [] then a else Happened(After(a, events[..|events| - 1]), events[|events| - 1])
  }

  lemma AfterOneMore(a: Account, events: seq<Event>, e: Event)
    ensures After(a, events + [e]) == Happened(After(a, events), e)
  {
    assert (events + [e])[..|events|] == events;
  }

  /** Recorded values are positive, and the consumed total never goes down between reads. */
  predicate Regular(a: Account, events: seq<Event>)
    decreases |events|
  {
    events != [] ==>
      var b := After(a, events[..|events| - 1]);
      && Regular(a, events[..|events| - 1])
      && match events[|events| - 1]
         case Record(row, _) => row.value > 0
         case Resolve(consumed, _, _) => b.baseline.Some? ==> b.baseline.value <= consumed
  }

  /** Over every regular run nothing is absorbed twice or without consumption: what stays pending is
      at least what was recorded, less what was pruned, less the advance of the consumed total. */
  lemma {:induction false} RunsConserve(events: seq<Event>)
    requires Regular(NEW_ACCOUNT, events)
    ensures var f := After(NEW_ACCOUNT, events);
            && Conserved(f)
            && (f.baseline.Some? ==> Pending(f) >= f.recorded - f.pruned - (f.baseline.value - f.seed))
    decreases |events|
  {
    if events != [] {
      var b := After(NEW_ACCOUNT, events[..|events| - 1]);
      RunsConserve(events[..|events| - 1]);
      match events[|events| - 1]
      case Record(row, consumed) => RecordingConserves(b, row, consumed);
      case Resolve(consumed, cutoff, later) =>
        PruningConserves(b, cutoff);
        if b.baseline.Some? {
          ReadConservesIff(Pruned(b, cutoff), consumed);
        }
        PruningConserves(Absorbed(Pruned(b, cutoff), consumed), later);
    }
  }

  // ----- totals that go down ---------------------------------------------------------

  /** The part of a read's consumed total that lies above the one before. */
  function UpMove(a: Account, e: Event): nat {
    if e.Resolve? && a.baseline.Some? && e.consumed > a.baseline.value then e.consumed - a.baseline.value else 0
  }

  function UpMoves(a: Account, events: seq<Event>): nat
    decreases |events|
  {
    if events == [] then 0
    else UpMoves(a, events[..|events| - 1]) + UpMove(After(a, events[..|events| - 1]), events[|events| - 1])
  }

  /** One read absorbs no more than the total has moved up since the last. */
  lemma ReadWithinUpMove(a: Account, consumed: int)
    requires Balanced(a)
    ensures Balanced(Absorbed(a, consumed))
    ensures Absorbed(a, consumed).absorbed - a.absorbed
            <= if a.baseline.Some? && consumed > a.baseline.value then consumed - a.baseline.value else 0
  {
    if a.baseline.Some? {
      var delta := consumed - a.baseline.value;
      var k := AbsorbCount(a.rows, delta);
      assert a.rows == a.rows[..k] + a.rows[k..];
      SumSplits(a.rows[..k], a.rows[k..]);
      if delta >= 0 {
        AbsorbsLongestPrefix(a.rows, delta, k);
      }
    }
  }

  lemma PruningBalances(a: Account, cutoff: int)
    requires Balanced(a)
    ensures Balanced(Pruned(a, cutoff)) && Pruned(a, cutoff).baseline == a.baseline
  {
    KeepMembers(a.rows, Unexpired(cutoff));
  }

  /** Whatever the consumed totals do, all that was ever absorbed is at most the sum of their upward moves
      between reads, so pending is at least what was recorded less what was pruned less that sum. */
  lemma {:induction false} AbsorbedWithinUpMoves(events: seq<Event>)
    requires forall e <- events :: e.Record? ==> e.row.value > 0
    ensures var f := After(NEW_ACCOUNT, events);
            && Balanced(f) && f.absorbed <= UpMoves(NEW_ACCOUNT, events)
            && Pending(f) >= f.recorded - f.pruned - UpMoves(NEW_ACCOUNT, events)
    decreases |events|
  {
    if events != [] {
      var init, e := events[..|events| - 1], events[|events| - 1];
      AbsorbedWithinUpMoves(init);
      var b := After(NEW_ACCOUNT, init);
      match e
      case Record(row, _) => SumSplits(b.rows, [row]);
      case Resolve(consumed, cutoff, later) =>
        PruningBalances(b, cutoff);
        ReadWithinUpMove(Pruned(b, cutoff), consumed);
        PruningBalances(Absorbed(Pruned(b, cutoff), consumed), later);
    }
  }

  /** Of all a read can see, the outstanding rows and the baseline, only the baseline says whether
      conservation is sure to survive: exactly when the total read is not below it. */
  lemma ReadIsSafeIffNotFalling(rows: seq<Row>, last: int, consumed: int)
    requires Positive(rows)
    ensures (forall a | Conserved(a) && a.rows == rows && a.baseline == Some(last) :: Conserved(Absorbed(a, consumed)))
            <==> last <= consumed
  {
    if last <= consumed {
      forall a | Conserved(a) && a.rows == rows && a.baseline == Some(last) ensures Conserved(Absorbed(a, consumed)) {
        ReadConservesIff(a, consumed);
      }
    } else {
      var a := Account(rows, Some(last), 1 + Sum(rows), 1, 0, last - 1);
      assert Conserved(a);
      ReadConservesIff(a, consumed);
    }
  }

  /** It happens: two debits of the same value are absorbed while the total advances by that value once,
      because it was read as 0 in between. */
  lemma FallingTotalAbsorbsTwice(first: Row, second: Row, v: int)
    requires first.value == second.value == v > 0 && first.createdAt >= 0 && second.createdAt >= 0
    ensures var f := After(NEW_ACCOUNT, [Record(first, Some(0)), Resolve(v, 0, 0), Resolve(0, 0, 0),
                                         Record(second, None), Resolve(v, 0, 0)]);
            f.absorbed == v + v && f.baseline == Some(v) && f.seed == 0 && !Conserved(f)
  {
    FiveEvents(Record(first, Some(0)), Resolve(v, 0, 0), Resolve(0, 0, 0), Record(second, None), Resolve(v, 0, 0));
    FirstHalf(first, v);
    Dip(Account([], Some(v), v, v, 0, 0), 0);
    RecordedAndPaid(Account([], Some(0), v, v, 0, 0), second, None);
  }

  lemma FirstHalf(first: Row, v: int)
    requires first.value == v > 0 && first.createdAt >= 0
    ensures Resolved(Recorded(NEW_ACCOUNT, first, Some(0)), v, 0, 0) == Account([], Some(v), v, v, 0, 0)
  {
    var seeded := Account([], Some(0), 0, 0, 0, 0);
    assert Recorded(NEW_ACCOUNT, first, Some(0)) == Recorded(seeded, first, None);
    RecordedAndPaid(seeded, first, None);
  }

  lemma Dip(a: Account, consumed: int)
    requires a.rows == [] && a.baseline.Some?
    ensures Resolved(a, consumed, 0, 0) == a.(baseline := Some(consumed))
  {
  }

  lemma FiveEvents(a: Event, b: Event, c: Event, d: Event, e: Event)
    ensures After(NEW_ACCOUNT, [a, b, c, d, e])
            == Happened(Happened(Happened(Happened(Happened(NEW_ACCOUNT, a), b), c), d), e)
  {
    AfterOneMore(NEW_ACCOUNT, [], a);
    AfterOneMore(NEW_ACCOUNT, [a], b);
    AfterOneMore(NEW_ACCOUNT, [a, b], c);
    AfterOneMore(NEW_ACCOUNT, [a, b, c], d);
    AfterOneMore(NEW_ACCOUNT, [a, b, c, d], e);
    assert [] + [a] == [a] && [a] + [b] == [a, b] && [a, b] + [c] == [a, b, c];
    assert [a, b, c] + [d] == [a, b, c, d] && [a, b, c, d] + [e] == [a, b, c, d, e];
  }

  /** A debit on an account without rows, and a read whose total has moved up by its value. */
  lemma RecordedAndPaid(a: Account, row: Row, consumed: Option<int>)
    requires a.rows == [] && a.baseline.Some? && row.value > 0 && row.createdAt >= 0
    ensures var total := a.baseline.value + row.value;
            Resolved(Recorded(a, row, consumed), total, 0, 0)
            == a.(recorded := a.recorded + row.value, absorbed := a.absorbed + row.value, baseline := Some(total))
  {
    assert [] + [row] == [row];
    PaidInFull(Recorded(a, row, consumed), row);
  }

  lemma PaidInFull(a: Account, row: Row)
    requires a.rows == [row] && a.baseline.Some? && row.value > 0 && row.createdAt >= 0
    ensures Resolved(a, a.baseline.value + row.value, 0, 0)
            == a.(rows := [], absorbed := a.absorbed + row.value, baseline := Some(a.baseline.value + row.value))
  {
    assert [row][1..] == [];
    assert Keep([row], Unexpired(0)) == [row];
    assert AbsorbCount([row], row.value) == 1 + AbsorbCount([], 0);
    assert [row][..1] == [row] && Sum([row]) == row.value;
  }

  // ----- what reads lose --------------------------------------------------------------

  lemma {:induction false} AbsorbInTwo(rows: seq<Row>, first: int, second: int)
    requires Positive(rows) && first >= 0 && second >= 0
    ensures AbsorbCount(rows, first + second) ==
            AbsorbCount(rows, first) + AbsorbCount(Left(rows, first), first - Paid(rows, first) + second)
    decreases |rows|
  {
    if rows == [] || first < rows[0].value {
      assert Left(rows, first) == rows;
    } else {
      var tail, rest := rows[1..], first - rows[0].value;
      AbsorbInTwo(tail, rest, second);
      PayFirst(rows, first);
      assert rest + second == first + second - rows[0].value;
    }
  }

  lemma PayFirst(rows: seq<Row>, delta: int)
    requires rows != [] && rows[0].value <= delta && delta > 0
    ensures Left(rows, delta) == Left(rows[1..], delta - rows[0].value)
    ensures Paid(rows, delta) == rows[0].value + Paid(rows[1..], delta - rows[0].value)
  {
    var k := AbsorbCount(rows, delta);
    assert rows[1..][k - 1..] == rows[k..];
    assert rows[..k][1..] == rows[1..][..k - 1];
  }

  lemma LeftInTwo(rows: seq<Row>, first: int, second: int)
    requires Positive(rows) && first >= 0 && second >= 0
    ensures Left(rows, first + second) == Left(Left(rows, first), first - Paid(rows, first) + second)
  {
    AbsorbInTwo(rows, first, second);
    DropTwice(rows, AbsorbCount(rows, first), AbsorbCount(Left(rows, first), first - Paid(rows, first) + second));
  }

  lemma DropTwice(rows: seq<Row>, k: nat, h: nat)
    requires k + h <= |rows|
    ensures rows[k..][h..] == rows[k + h..]
  {
  }

  lemma SlackIsLessThanNextRow(rows: seq<Row>, delta: int)
    requires Positive(rows) && delta >= 0
    ensures Paid(rows, delta) <= delta
    ensures Left(rows, delta) != [] ==> delta - Paid(rows, delta) < Left(rows, delta)[0].value
  {
    var k := AbsorbCount(rows, delta);
    AbsorbsLongestPrefix(rows, delta, k);
    if k < |rows| {
      AbsorbsLongestPrefix(rows, delta, k + 1);
      assert rows[..k + 1] == rows[..k] + [rows[k]];
      SumSplits(rows[..k], [rows[k]]);
    }
  }

  /** Partial consumption is not made good by the next read. A read that sees the consumed total
      advance by `first` and one that sees it advance by `second` more leave the same rows as one read
      of both advances, for every `second`, exactly when the first read had nothing left over after
      the rows it paid for, or left no row. */
  lemma EarlierReadIsHarmlessIff(rows: seq<Row>, first: int)
    requires Positive(rows) && first >= 0
    ensures (forall second | second >= 0 :: Left(Left(rows, first), second) == Left(rows, first + second))
            <==> Paid(rows, first) == first || Left(rows, first) == []
  {
    var rest, slack := Left(rows, first), first - Paid(rows, first);
    if slack == 0 || rest == [] {
      forall second | second >= 0 ensures Left(rest, second) == Left(rows, first + second) {
        LeftInTwo(rows, first, second);
      }
    } else {
      SlackIsLessThanNextRow(rows, first);
      var second := rest[0].value - slack;
      LeftInTwo(rows, first, second);
      assert Left(rest, second) == rest && |Left(rest, rest[0].value)| < |rest|;
    }
  }

  /** A consumed total that only ever advances by less than the oldest row absorbs nothing, however
      far it goes in the end. */
  lemma SmallAdvancesAbsorbNothing(a: Account, totals: seq<int>)
    requires a.rows != [] && a.baseline.Some? && AdvancesBelow(a.baseline.value, totals, a.rows[0].value)
    ensures Reads(a, totals) == a.(baseline := Some(if totals == [] then a.baseline.value else totals[|totals| - 1]))
  {
    SmallAdvancesMoveBaseline(a, a.rows[0].value, totals);
    LastIs(a.baseline.value, totals);
  }

  function Last(first: int, totals: seq<int>): int
    decreases |totals|
  {
    if totals == [] then first else Last(totals[0], totals[1..])
  }

  lemma {:induction false} LastIs(first: int, totals: seq<int>)
    ensures Last(first, totals) == if totals == [] then first else totals[|totals| - 1]
    decreases |totals|
  {
    if totals != [] {
      LastIs(totals[0], totals[1..]);
    }
  }

  lemma {:induction false} SmallAdvancesMoveBaseline(a: Account, limit: int, totals: seq<int>)
    requires a.rows != [] && a.rows[0].value == limit && a.baseline.Some? && AdvancesBelow(a.baseline.value, totals, limit)
    ensures Reads(a, totals) == a.(baseline := Some(Last(a.baseline.value, totals)))
    decreases |totals|
  {
    if totals != [] {
      var b := a.(baseline := Some(totals[0]));
      FirstRead(a, b, totals);
      SmallAdvancesMoveBaseline(b, limit, totals[1..]);
    }
  }

  lemma FirstRead(a: Account, b: Account, totals: seq<int>)
    requires totals != [] && a.rows != [] && a.baseline.Some? && b == a.(baseline := Some(totals[0]))
    requires totals[0] - a.baseline.value < a.rows[0].value
    ensures Reads(a, totals) == Reads(b, totals[1..])
  {
    SmallAdvance(a, totals[0]);
  }

  lemma SmallAdvance(a: Account, consumed: int)
    requires a.rows != [] && a.baseline.Some? && consumed - a.baseline.value < a.rows[0].value
    ensures Absorbed(a, consumed) == a.(baseline := Some(consumed))
  {
    assert AbsorbCount(a.rows, consumed - a.baseline.value) == 0 && a.rows[0..] == a.rows;
  }

  predicate AdvancesBelow(last: int, totals: seq<int>, limit: int)
    decreases |totals|
  {
    totals != [] ==> totals[0] - last < limit && AdvancesBelow(totals[0], totals[1..], limit)
  }

  function Reads(a: Account, totals: seq<int>): Account
    decreases |totals|
  {
    if totals == [] then a else Reads(Absorbed(a, totals[0]), totals[1..])
  }

  // ----- seeding ---------------------------------------------------------------------

  /** A new account after its first debits, with no read in between. */
  function FirstDebits(rows: seq<Row>, seedRead: Option<int>): Account {
    if rows == [] then NEW_ACCOUNT
    else Recorded(FirstDebits(rows[..|rows| - 1], seedRead), rows[|rows| - 1], seedRead)
  }

  predicate DistinctRequests(rows: seq<Row>) {
    forall i, j | 0 <= i < j < |rows| :: rows[i].requestId != rows[j].requestId
  }

  lemma {:induction false} FirstDebitsAre(rows: seq<Row>, seedRead: Option<int>)
    requires rows != [] && DistinctRequests(rows)
    ensures var read := if seedRead.Some? then seedRead.value else 0;
            FirstDebits(rows, seedRead) == Account(rows, Some(read), Sum(rows), 0, 0, read)
  {
    var init, last := rows[..|rows| - 1], rows[|rows| - 1];
    SumOfInit(rows);
    if |rows| > 1 {
      FirstDebitsAre(init, seedRead);
      RecordedNew(FirstDebits(init, seedRead), last, seedRead);
    } else {
      FirstDebitIs(last, seedRead);
      assert init == [];
    }
    assert init + [last] == rows;
  }

  lemma SumOfInit(rows: seq<Row>)
    requires rows != []
    ensures Sum(rows) == Sum(rows[..|rows| - 1]) + rows[|rows| - 1].value
  {
    var last := rows[|rows| - 1];
    assert rows == rows[..|rows| - 1] + [last];
    SumSplits(rows[..|rows| - 1], [last]);
  }

  lemma FirstDebitIs(row: Row, seedRead: Option<int>)
    ensures var read := if seedRead.Some? then seedRead.value else 0;
            Recorded(NEW_ACCOUNT, row, seedRead) == Account([row], Some(read), row.value, 0, 0, read)
  {
  }

  lemma RecordedNew(a: Account, row: Row, consumed: Option<int>)
    requires a.baseline.Some? && forall i | 0 <= i < |a.rows| :: a.rows[i].requestId != row.requestId
    ensures Recorded(a, row, consumed) == a.(rows := a.rows + [row], recorded := a.recorded + row.value)
  {
  }

  /** Seeding is what keeps earlier consumption from paying for first debits. The next read, at any total
      `later`, leaves what the advance over the seed does not pay for; and at an unchanged total nothing
      is absorbed exactly when the seeding read worked or the whole earlier total is below the first debit. */
  lemma EarlierConsumptionPaysUnlessSeeded(rows: seq<Row>, total: int, seedRead: Option<int>, later: int)
    requires rows != [] && Positive(rows) && DistinctRequests(rows) && (seedRead.Some? ==> seedRead.value == total)
    ensures Absorbed(FirstDebits(rows, seedRead), later).rows == Left(rows, if seedRead.Some? then later - total else later)
    ensures Absorbed(FirstDebits(rows, seedRead), total).rows == rows <==> seedRead.Some? || total < rows[0].value
  {
    FirstDebitsAre(rows, seedRead);
    assert rows[0] in rows;
    SeededRead(FirstDebits(rows, seedRead), rows, total, seedRead, later);
  }

  lemma SeededRead(a: Account, rows: seq<Row>, total: int, seedRead: Option<int>, later: int)
    requires rows != [] && rows[0].value > 0 && (seedRead.Some? ==> seedRead.value == total)
    requires a.rows == rows && a.baseline == Some(if seedRead.Some? then total else 0)
    ensures Absorbed(a, later).rows == Left(rows, if seedRead.Some? then later - total else later)
    ensures Absorbed(a, total).rows == rows <==> seedRead.Some? || total < rows[0].value
  {
    LeavesAllIff(rows, if seedRead.Some? then 0 else total);
  }

  lemma LeavesAllIff(rows: seq<Row>, delta: int)
    requires rows != [] && rows[0].value > 0
    ensures Left(rows, delta) == rows <==> delta < rows[0].value
  {
    var k := AbsorbCount(rows, delta);
    assert k == 0 <==> delta < rows[0].value;
    assert |Left(rows, delta)| == |rows| - k;
    assert rows[0..] == rows;
  }
}
