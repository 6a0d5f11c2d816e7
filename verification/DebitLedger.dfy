/**
 The optimistic-debit tables of all users and the calls that change them, in place and row by row,
 each proved to do to one user's account what `DebitAccount` says and nothing to the others'.
 Clocks are given as expiry cutoffs in the granularity of `created_at`; what PymtHouse answers is a
 parameter; the calls of one user are taken one at a time.
 Source: src/ledger.ts, src/balance.ts, src/index.ts.
 */
module DebitLedger {
  import opened Basics
  import opened Options
  import opened DebitAccount

  /** PymtHouse's answer: consumed total and remaining entitlement. */
  datatype Authority = Authority(consumed: int, balance: int)

  /** What `resolveUserBalance` shows. */
  datatype View = View(balance: int, pending: int, authority: int)

  /** Totals the program does not keep, for the account's sake. */
  datatype Books = Books(recorded: int, absorbed: int, pruned: int, seed: int)

  function ByUser(u: string): Row -> bool {
    (row: Row) => row.user == u
  }

  function NotId(id: nat): Row -> bool {
    (row: Row) => row.id != id
  }

  function NotExpired(u: string, cutoff: int): Row -> bool {
    (row: Row) => row.user != u || row.createdAt >= cutoff
  }

  function BooksIn(books: map<string, Books>, u: string): Books {
    if u in books then books[u] else Books(0, 0, 0, 0)
  }

  /** User `u`'s account in given tables. */
  function AccountIn(debits: seq<Row>, sync: map<string, int>, books: map<string, Books>, u: string): Account {
    var b := BooksIn(books, u);
    Account(Keep(debits, ByUser(u)), if u in sync then Some(sync[u]) else None, b.recorded, b.absorbed, b.pruned, b.seed)
  }

  class Ledger {
    var debits: seq<Row>                 // optimistic_debits, in id order
    var nextId: nat
    var sync: map<string, int>           // balance_sync: last_consumed_usd_micros
    ghost var books: map<string, Books>

    /** Ids are handed out in order and never reused. */
    ghost predicate Numbered()
      reads this
    {
      Ordered(debits) && forall x <- debits :: x.id < nextId
    }

    constructor ()
      ensures Numbered() && debits == [] && sync == map[] && forall u :: Of(u) == NEW_ACCOUNT
    {
      debits, nextId, sync, books := [], 0, map[], map[];
    }

    /** User `u`'s account. */
    ghost function Of(u: string): Account
      reads this
    {
      AccountIn(debits, sync, books, u)
    }

    method SetBalanceSync(u: string, consumed: int)
      modifies this`sync
      ensures Of(u) == old(Of(u)).(baseline := Some(consumed))
      ensures forall v | v != u :: Of(v) == old(Of(v))
      ensures u in sync
    {
      sync := sync[u := consumed];
    }

    method ListOptimisticDebits(u: string) returns (rows: seq<Row>)
      ensures rows == Of(u).rows
    {
      rows := [];
      for i := 0 to |debits|
        invariant rows == Keep(debits[..i], ByUser(u))
      {
        assert debits[..i + 1] == debits[..i] + [debits[i]];
        KeepSplits(debits[..i], [debits[i]], ByUser(u));
        if debits[i].user == u {
          rows := rows + [debits[i]];
        }
      }
      assert debits[..|debits|] == debits;
    }

    method DeleteOptimisticDebit(id: nat)
      modifies this`debits
      ensures debits == Keep(old(debits), NotId(id))
    {
      debits := Keep(debits, NotId(id));
    }

    method PruneOptimisticDebits(u: string, cutoff: int)
      requires Numbered()
      modifies this`debits, this`books
      ensures Numbered()
      ensures Of(u) == Pruned(old(Of(u)), cutoff)
      ensures forall v | v != u :: Of(v) == old(Of(v))
    {
      KeepKeepsOrder(debits, NotExpired(u, cutoff));
      KeepMembers(debits, NotExpired(u, cutoff));
      PruneAccounts(debits, sync, books, u, cutoff);
      books := PrunedBooks(debits, books, u, cutoff);
      debits := Keep(debits, NotExpired(u, cutoff));
    }

    method SumOptimisticDebits(u: string, cutoff: int) returns (total: int)
      requires Numbered()
      modifies this`debits, this`books
      ensures Numbered()
      ensures Of(u) == Pruned(old(Of(u)), cutoff)
      ensures forall v | v != u :: Of(v) == old(Of(v))
      ensures total == Pending(Of(u))
    {
      PruneOptimisticDebits(u, cutoff);
      var rows := ListOptimisticDebits(u);
      total := Total(rows);
    }

    /** INSERT OR IGNORE on (user, request id); true only if the row is new. */
    method RecordOptimisticDebit(u: string, requestId: string, value: int, now: int) returns (inserted: bool)
      requires Numbered() && u in sync
      modifies this`debits, this`nextId, this`books
      ensures Numbered()
      ensures inserted <==> forall x <- old(Of(u).rows) :: x.requestId != requestId
      ensures Of(u) == Recorded(old(Of(u)), Row(old(nextId), u, requestId, if value > 0 then value else 0, now), None)
      ensures forall v | v != u :: Of(v) == old(Of(v))
    {
      var rows := ListOptimisticDebits(u);
      inserted := forall x <- rows :: x.requestId != requestId;
      if inserted {
        var row := Row(nextId, u, requestId, if value > 0 then value else 0, now);
        InsertAccounts(debits, sync, books, row);
        books := books[u := BooksIn(books, u).(recorded := BooksIn(books, u).recorded + row.value)];
        debits, nextId := debits + [row], nextId + 1;
      }
    }

    /** `recordOptimisticDebitForUser`; `consumed` is what PymtHouse answers when asked for the seed. */
    method RecordForUser(u: string, requestId: string, value: int, consumed: Option<int>, now: int)
      requires Numbered()
      modifies this
      ensures Numbered()
      ensures Of(u) == Recorded(old(Of(u)), Row(old(nextId), u, requestId, if value > 0 then value else 0, now), consumed)
      ensures forall v | v != u :: Of(v) == old(Of(v))
    {
      if u !in sync {
        var read := if consumed.Some? then consumed.value else 0;
        SetBalanceSync(u, read);
        books := books[u := BooksIn(books, u).(seed := read)];
      }
      var _ := RecordOptimisticDebit(u, requestId, value, now);
    }

    /** The recording part of `handleSignTicket`: `fee` is the ticket's expected value in USD micros,
        absent when the usage snapshot gives none. Only whole positive amounts are ever recorded. */
    method SignTicket(u: string, requestId: string, fee: Option<real>, consumed: Option<int>, now: int)
      requires Numbered()
      modifies this
      ensures Numbered()
      ensures requestId != "" && fee.Some? && fee.value >= 1.0 ==>
                Of(u) == Recorded(old(Of(u)), Row(old(nextId), u, requestId, fee.value.Floor, now), consumed)
      ensures !(requestId != "" && fee.Some? && fee.value >= 1.0) ==> Of(u) == old(Of(u))
      ensures old(Positive(Of(u).rows)) ==> Positive(Of(u).rows)
      ensures forall v | v != u :: Of(v) == old(Of(v))
    {
      if requestId == "" || fee.None? || fee.value <= 0.0 {
        return;
      }
      var micros := fee.value.Floor;
      if micros > 0 {
        RecordForUser(u, requestId, micros, consumed, now);
      }
    }

    /** Prunes, absorbs oldest first, moves the baseline, and nets what is left from the authority. */
    method ResolveUserBalance(u: string, authority: Authority, cutoff: int, later: int) returns (view: View)
      requires Numbered()
      modifies this
      ensures Numbered()
      ensures Of(u) == Resolved(old(Of(u)), authority.consumed, cutoff, later)
      ensures forall v | v != u :: Of(v) == old(Of(v))
      ensures view.pending == Pending(Of(u)) && view.authority == authority.balance
      ensures view.balance == if authority.balance >= view.pending then authority.balance - view.pending else 0
    {
      PruneOptimisticDebits(u, cutoff);
      if u in sync {
        Absorb(u, authority.consumed);
        SetBalanceSync(u, authority.consumed);
      }
      var pending := SumOptimisticDebits(u, later);
      view := View(if authority.balance >= pending then authority.balance - pending else 0, pending, authority.balance);
    }

    /** The loop that deletes rows while the consumed advance pays for them. */
    method Absorb(u: string, consumed: int)
      requires Numbered() && u in sync
      modifies this`debits, this`books
      ensures Numbered()
      ensures Of(u) == Absorbed(old(Of(u)), consumed).(baseline := old(Of(u)).baseline)
      ensures forall v | v != u :: Of(v) == old(Of(v))
    {
      var delta := consumed - sync[u];
      var rows := ListOptimisticDebits(u);
      ghost var was, all := Of(u), delta;
      for i := 0 to |rows|
        invariant Numbered()
        invariant delta > 0 ==> Of(u).rows == rows[i..]
        invariant RowByRow(Of(u), delta) == RowByRow(was, all)
        invariant forall v | v != u :: Of(v) == old(Of(v))
      {
        if delta <= 0 {
          break;
        }
        assert rows[i..][0] == rows[i] && rows[i..][1..] == rows[i + 1..];
        delta := AbsorbRow(u, rows[i], delta);
      }
      assert RowByRow(Of(u), delta) == Of(u);
      RowByRowIsAbsorbed(was, consumed);
    }

    /** One turn of the loop: a row the advance covers is deleted, any other ends it. */
    method AbsorbRow(u: string, row: Row, delta: int) returns (left: int)
      requires Numbered() && Of(u).rows != [] && row == Of(u).rows[0] && delta > 0
      modifies this`debits, this`books
      ensures Numbered()
      ensures RowByRow(Of(u), left) == old(RowByRow(Of(u), delta))
      ensures left > 0 ==> Of(u).rows == old(Of(u).rows)[1..]
      ensures forall v | v != u :: Of(v) == old(Of(v))
    {
      RowByRowStep(Of(u), delta);
      if delta >= row.value {
        DeleteOldest(u, row);
        left := delta - row.value;
      } else {
        left := 0;
      }
    }

    method DeleteOldest(u: string, row: Row)
      requires Numbered() && Of(u).rows != [] && row == Of(u).rows[0]
      modifies this`debits, this`books
      ensures Numbered()
      ensures Of(u) == old(Of(u)).(rows := old(Of(u)).rows[1..], absorbed := old(Of(u)).absorbed + row.value)
      ensures forall v | v != u :: Of(v) == old(Of(v))
    {
      ghost var kept, now := Keep(debits, NotId(row.id)), AbsorbedBooks(books, u, row);
      DeletedTable(debits, row.id, nextId);
      DeleteAccounts(debits, sync, books, u, row);
      books := now;
      DeleteOptimisticDebit(row.id);
      assert debits == kept && books == now;
      assert forall v :: Of(v) == AccountIn(kept, sync, now, v);
    }
  }

  method Total(rows: seq<Row>) returns (total: int)
    ensures total == Sum(rows)
  {
    total := 0;
    for i := 0 to |rows|
      invariant total == Sum(rows[..i])
    {
      OneMore(rows, i);
      total := total + rows[i].value;
    }
    assert rows[..|rows|] == rows;
  }

  /** Absorption as the loop does it. */
  function RowByRow(a: Account, delta: int): Account
    decreases |a.rows|
  {
    if a.rows == [] || delta <= 0 || delta < a.rows[0].value then a
    else RowByRow(a.(rows := a.rows[1..], absorbed := a.absorbed + a.rows[0].value), delta - a.rows[0].value)
  }

  /** One turn of the loop leaves the same rest to do. */
  lemma RowByRowStep(a: Account, delta: int)
    requires a.rows != [] && delta > 0
    ensures delta >= a.rows[0].value ==>
              RowByRow(a, delta) == RowByRow(a.(rows := a.rows[1..], absorbed := a.absorbed + a.rows[0].value), delta - a.rows[0].value)
    ensures delta < a.rows[0].value ==> RowByRow(a, delta) == a == RowByRow(a, 0)
  {
  }

  lemma {:induction false} RowByRowAbsorbs(a: Account, delta: int)
    ensures RowByRow(a, delta) == a.(rows := Left(a.rows, delta), absorbed := a.absorbed + Paid(a.rows, delta))
    decreases |a.rows|
  {
    if a.rows == [] || delta <= 0 || delta < a.rows[0].value {
      assert a.rows[0..] == a.rows;
    } else {
      RowByRowAbsorbs(a.(rows := a.rows[1..], absorbed := a.absorbed + a.rows[0].value), delta - a.rows[0].value);
      var k := AbsorbCount(a.rows, delta);
      assert a.rows[..k][1..] == a.rows[1..][..k - 1];
    }
  }

  lemma RowByRowIsAbsorbed(a: Account, consumed: int)
    requires a.baseline.Some?
    ensures RowByRow(a, consumed - a.baseline.value) == Absorbed(a, consumed).(baseline := a.baseline)
  {
    RowByRowAbsorbs(a, consumed - a.baseline.value);
  }

  lemma OneMore(rows: seq<Row>, k: nat)
    requires k < |rows|
    ensures Sum(rows[..k + 1]) == Sum(rows[..k]) + rows[k].value
  {
    assert rows[..k + 1] == rows[..k] + [rows[k]];
    SumSplits(rows[..k], [rows[k]]);
  }

  // ----- what a change of the tables does to each account ----------------------------

  ghost function PrunedBooks(debits: seq<Row>, books: map<string, Books>, u: string, cutoff: int): map<string, Books> {
    var own := Keep(debits, ByUser(u));
    var b := BooksIn(books, u);
    books[u := b.(pruned := b.pruned + Sum(own) - Sum(Keep(own, Unexpired(cutoff))))]
  }

  ghost function AbsorbedBooks(books: map<string, Books>, u: string, row: Row): map<string, Books> {
    books[u := BooksIn(books, u).(absorbed := BooksIn(books, u).absorbed + row.value)]
  }

  lemma PruneAccounts(debits: seq<Row>, sync: map<string, int>, books: map<string, Books>, u: string, cutoff: int)
    ensures var debits' := Keep(debits, NotExpired(u, cutoff));
            var books' := PrunedBooks(debits, books, u, cutoff);
            && AccountIn(debits', sync, books', u) == Pruned(AccountIn(debits, sync, books, u), cutoff)
            && forall v | v != u :: AccountIn(debits', sync, books', v) == AccountIn(debits, sync, books, v)
  {
    var debits', books' := Keep(debits, NotExpired(u, cutoff)), PrunedBooks(debits, books, u, cutoff);
    PruneOwnAccount(debits, sync, books, u, cutoff);
    forall v | v != u ensures AccountIn(debits', sync, books', v) == AccountIn(debits, sync, books, v) {
      PruneOthers(debits, u, v, cutoff);
      assert BooksIn(books', v) == BooksIn(books, v);
    }
  }

  lemma PruneOwnAccount(debits: seq<Row>, sync: map<string, int>, books: map<string, Books>, u: string, cutoff: int)
    ensures AccountIn(Keep(debits, NotExpired(u, cutoff)), sync, PrunedBooks(debits, books, u, cutoff), u)
            == Pruned(AccountIn(debits, sync, books, u), cutoff)
  {
    PruneRows(debits, u, cutoff);
  }

  lemma InsertAccounts(debits: seq<Row>, sync: map<string, int>, books: map<string, Books>, row: Row)
    ensures var u, b := row.user, BooksIn(books, row.user);
            var books' := books[u := b.(recorded := b.recorded + row.value)];
            var a := AccountIn(debits, sync, books, u);
            && AccountIn(debits + [row], sync, books', u) == a.(rows := a.rows + [row], recorded := a.recorded + row.value)
            && forall v | v != u :: AccountIn(debits + [row], sync, books', v) == AccountIn(debits, sync, books, v)
  {
    forall v: string
      ensures Keep(debits + [row], ByUser(v)) == Keep(debits, ByUser(v)) + (if v == row.user then [row] else [])
    {
      KeepSplits(debits, [row], ByUser(v));
    }
  }

  lemma DeleteAccounts(debits: seq<Row>, sync: map<string, int>, books: map<string, Books>, u: string, row: Row)
    requires Ordered(debits) && Keep(debits, ByUser(u)) != [] && row == Keep(debits, ByUser(u))[0]
    ensures var debits', books' := Keep(debits, NotId(row.id)), AbsorbedBooks(books, u, row);
            var a := AccountIn(debits, sync, books, u);
            && AccountIn(debits', sync, books', u) == a.(rows := a.rows[1..], absorbed := a.absorbed + row.value)
            && forall v | v != u :: AccountIn(debits', sync, books', v) == AccountIn(debits, sync, books, v)
  {
    DeleteFirst(debits, u, row);
    KeepMembers(debits, ByUser(u));
    assert row in Keep(debits, ByUser(u));
    forall v | v != u ensures Keep(Keep(debits, NotId(row.id)), ByUser(v)) == Keep(debits, ByUser(v)) {
      DeleteOthers(debits, u, v, row);
    }
  }

  predicate Ordered(rows: seq<Row>) {
    forall i, j | 0 <= i < j < |rows| :: rows[i].id < rows[j].id
  }

  lemma {:induction false} KeepKeepsOrder(rows: seq<Row>, p: Row -> bool)
    requires Ordered(rows)
    ensures Ordered(Keep(rows, p))
  {
    if rows != [] {
      KeepKeepsOrder(rows[1..], p);
      KeepMembers(rows[1..], p);
      forall x <- Keep(rows[1..], p) ensures rows[0].id < x.id {
        assert x in rows[1..];
      }
    }
  }

  lemma DeletedTable(rows: seq<Row>, id: nat, next: nat)
    requires Ordered(rows) && forall x <- rows :: x.id < next
    ensures Ordered(Keep(rows, NotId(id))) && forall x <- Keep(rows, NotId(id)) :: x.id < next
  {
    KeepKeepsOrder(rows, NotId(id));
    KeepMembers(rows, NotId(id));
  }

  /** Filtering twice depends only on the rows that pass both. */
  lemma {:induction false} KeepSame(rows: seq<Row>, p: Row -> bool, q: Row -> bool, p': Row -> bool, q': Row -> bool)
    requires forall x <- rows :: p(x) && q(x) <==> p'(x) && q'(x)
    ensures Keep(Keep(rows, p), q) == Keep(Keep(rows, p'), q')
  {
    if rows != [] {
      KeepSame(rows[1..], p, q, p', q');
      var h := rows[0];
      assert h in rows;
      KeepHead(rows, p, q);
      KeepHead(rows, p', q');
    }
  }

  lemma KeepHead(rows: seq<Row>, p: Row -> bool, q: Row -> bool)
    requires rows != []
    ensures Keep(Keep(rows, p), q) == (if p(rows[0]) && q(rows[0]) then [rows[0]] else []) + Keep(Keep(rows[1..], p), q)
  {
    var t := Keep(rows[1..], p);
    if p(rows[0]) {
      assert Keep(rows, p) == [rows[0]] + t;
      KeepSplits([rows[0]], t, q);
    } else {
      assert Keep(rows, p) == [] + t == t;
    }
  }

  lemma {:induction false} KeepAll(rows: seq<Row>, p: Row -> bool)
    requires forall x <- rows :: p(x)
    ensures Keep(rows, p) == rows
  {
    if rows != [] {
      KeepAll(rows[1..], p);
    }
  }

  lemma PruneRows(rows: seq<Row>, u: string, cutoff: int)
    ensures Keep(Keep(rows, NotExpired(u, cutoff)), ByUser(u)) == Keep(Keep(rows, ByUser(u)), Unexpired(cutoff))
  {
    KeepSame(rows, NotExpired(u, cutoff), ByUser(u), ByUser(u), Unexpired(cutoff));
  }

  lemma PruneOthers(rows: seq<Row>, u: string, v: string, cutoff: int)
    requires u != v
    ensures Keep(Keep(rows, NotExpired(u, cutoff)), ByUser(v)) == Keep(rows, ByUser(v))
  {
    KeepSame(rows, NotExpired(u, cutoff), ByUser(v), ByUser(v), NotExpired(u, cutoff));
    KeepMembers(rows, ByUser(v));
    KeepAll(Keep(rows, ByUser(v)), NotExpired(u, cutoff));
  }

  lemma DeleteFirst(rows: seq<Row>, u: string, row: Row)
    requires Ordered(rows) && Keep(rows, ByUser(u)) != [] && row == Keep(rows, ByUser(u))[0]
    ensures Keep(Keep(rows, NotId(row.id)), ByUser(u)) == Keep(rows, ByUser(u))[1..]
  {
    var own := Keep(rows, ByUser(u));
    KeepSame(rows, NotId(row.id), ByUser(u), ByUser(u), NotId(row.id));
    KeepKeepsOrder(rows, ByUser(u));
    KeepMembers(rows, ByUser(u));
    KeepAll(own[1..], NotId(row.id));
  }

  lemma DeleteOthers(rows: seq<Row>, u: string, v: string, row: Row)
    requires Ordered(rows) && row in rows && row.user == u && u != v
    ensures Keep(Keep(rows, NotId(row.id)), ByUser(v)) == Keep(rows, ByUser(v))
  {
    KeepSame(rows, NotId(row.id), ByUser(v), ByUser(v), NotId(row.id));
    KeepMembers(rows, ByUser(v));
    forall x <- Keep(rows, ByUser(v)) ensures x.id != row.id {
      var i :| 0 <= i < |rows| && rows[i] == row;
      var j :| 0 <= j < |rows| && rows[j] == x;
      assert i != j;
    }
    KeepAll(Keep(rows, ByUser(v)), NotId(row.id));
  }
}
