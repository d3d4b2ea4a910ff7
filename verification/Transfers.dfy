/** Transfers held in escrow and paid out later. The currency is modelled as balances under an
    existential deposit, with transfers that must keep the payer alive. */
module Transfers {
  import opened Basics
  import opened AccountIds

  type Account = Bytes
  type Balances = map<Account, nat>

  datatype Failure = InsufficientBalance | ExistentialDeposit | KeepAlive | NotEnoughToEscrow | Panic

  datatype TransferEntry = TransferEntry(to: H256, value: U32)

  /** The runtime: minimum balance, escrow account, and the width its account ids encode to. */
  datatype Setup = Setup(minimum: nat, escrow: Account, width: nat)

  function Balance(b: Balances, who: Account): nat {
    if who in b then b[who] else 0
  }

  // ---- The currency ---------------------------------------------------------------------

  function Transfer(minimum: nat, b: Balances, from: Account, to: Account, value: nat): Result<Balances, Failure> {
    if value == 0 || from == to then Ok(b)
    else if Balance(b, from) < value then Err(InsufficientBalance)
    else if Balance(b, to) + value < minimum then Err(ExistentialDeposit)
    else if Balance(b, from) - value < minimum then Err(KeepAlive)
    else Ok(b[from := Balance(b, from) - value][to := Balance(b, to) + value])
  }

  /** What a transfer does to the balance of `who`. */
  function Delta(who: Account, from: Account, to: Account, value: nat): int {
    (if who == to then value else 0) - (if who == from then value else 0)
  }

  ghost function Total(b: Balances): nat
    decreases |b|
  {
    if b == map[] then 0 else var who :| who in b; b[who] + Total(b - {who})
  }

  lemma {:induction false} TotalWithout(b: Balances, who: Account)
    requires who in b
    ensures Total(b) == b[who] + Total(b - {who})
    decreases |b|
  {
    var first :| first in b && Total(b) == b[first] + Total(b - {first});
    if first != who {
      TotalWithout(b - {first}, who);
      TotalWithout(b - {who}, first);
      assert b - {first} - {who} == b - {who} - {first};
    }
  }

  lemma TotalAfterSet(b: Balances, who: Account, value: nat)
    ensures Total(b[who := value]) == Total(b) - Balance(b, who) + value
  {
    TotalWithout(b[who := value], who);
    assert b[who := value] - {who} == b - {who};
    if who in b {
      TotalWithout(b, who);
    } else {
      assert b - {who} == b;
    }
  }

  /** A transfer moves exactly its value: issuance is constant and no third account is touched. */
  lemma {:induction false} TransferConserves(minimum: nat, b: Balances, from: Account, to: Account, value: nat)
    requires Transfer(minimum, b, from, to, value).Ok?
    ensures var after := Transfer(minimum, b, from, to, value).value;
            && Total(after) == Total(b)
            && forall who :: Balance(after, who) == Balance(b, who) + Delta(who, from, to, value)
  {
    if value != 0 && from != to {
      var mid := b[from := Balance(b, from) - value];
      TotalAfterSet(b, from, Balance(b, from) - value);
      TotalAfterSet(mid, to, Balance(b, to) + value);
      assert Balance(mid, to) == Balance(b, to);
    }
  }

  /** When a transfer between two accounts goes through, and why it does not, in this order. */
  lemma TransferExactly(minimum: nat, b: Balances, from: Account, to: Account, value: nat)
    requires from != to && value > 0
    ensures var r, have, has := Transfer(minimum, b, from, to, value), Balance(b, from), Balance(b, to);
            && (r.Ok? <==> have >= value + minimum && has + value >= minimum)
            && (r == Err(InsufficientBalance) <==> have < value)
            && (r == Err(ExistentialDeposit) <==> have >= value && has + value < minimum)
            && (r == Err(KeepAlive) <==> value <= have < value + minimum && has + value >= minimum)
            && (r.Ok? ==> Balance(r.value, from) == have - value && Balance(r.value, to) == has + value)
  {
  }

  // ---- Escrow ---------------------------------------------------------------------------

  datatype Payment = Payment(requester: Account, target: Account, value: nat)

  datatype Book = Book(balances: Balances, transfers: seq<TransferEntry>)

  /** Entries hold a u32 and a 32-byte word: anything else panics after the money has moved. */
  predicate Fits(p: Payment) {
    p.value <= U32_MAX && Supported(|p.target|)
  }

  function EntryOf(p: Payment): TransferEntry
    requires Fits(p)
  {
    AccountRoundTrip(p.target);
    TransferEntry(ToH256(p.target).value, p.value)
  }

  function Escrow(s: Setup, book: Book, p: Payment): (Book, Option<Failure>) {
    if Balance(book.balances, p.requester) < s.minimum + p.value then (book, Some(NotEnoughToEscrow))
    else
      match Transfer(s.minimum, book.balances, p.requester, s.escrow, p.value)
      case Err(e) => (book, Some(e))
      case Ok(after) =>
        if Fits(p) then (Book(after, book.transfers + [EntryOf(p)]), None)
        else (book.(balances := after), Some(Panic))
  }

  datatype Paid = Paid(balances: Balances, count: nat, failure: Option<Failure>)

  /** Pays the entries in order until one fails. */
  function Pay(s: Setup, b: Balances, entries: seq<TransferEntry>): Paid
    decreases entries
  {
    if entries == [] then Paid(b, 0, None)
    else
      var to := FromH256(entries[0].to, s.width);
      if to.None? then Paid(b, 0, Some(Panic))
      else
        match Transfer(s.minimum, b, s.escrow, to.value, entries[0].value)
        case Err(e) => Paid(b, 0, Some(e))
        case Ok(after) =>
          var rest := Pay(s, after, entries[1..]);
          rest.(count := rest.count + 1)
  }

  class EscrowBook {
    const setup: Setup
    var balances: Balances
    var transfers: seq<TransferEntry>

    constructor (setup: Setup, balances: Balances)
      ensures this.setup == setup && this.balances == balances && transfers == []
    {
      this.setup := setup;
      this.balances := balances;
      transfers := [];
    }

    function State(): Book
      reads this
    {
      Book(balances, transfers)
    }

    method JustTransfer(from: Account, to: Account, value: nat) returns (r: Option<Failure>)
      modifies this`balances
      ensures match Transfer(setup.minimum, old(balances), from, to, value)
              case Ok(after) => r == None && balances == after
              case Err(e) => r == Some(e) && balances == old(balances)
    {
      var moved := Transfer(setup.minimum, balances, from, to, value);
      match moved {
        case Ok(after) =>
          balances := after;
          return None;
        case Err(e) => return Some(e);
      }
    }

    method EscrowTransfer(requester: Account, target: Account, value: nat) returns (r: Option<Failure>)
      modifies this
      ensures (State(), r) == Escrow(setup, old(State()), Payment(requester, target, value))
    {
      if Balance(balances, requester) < setup.minimum + value {
        return Some(NotEnoughToEscrow);
      }
      r := JustTransfer(requester, setup.escrow, value);
      if r.None? {
        var to := ToH256(target);
        AccountRoundTrip(target);
        if to.None? || value > U32_MAX {
          return Some(Panic);
        }
        transfers := transfers + [TransferEntry(to.value, value)];
      }
    }

    method CommitDeferredTransfers() returns (r: Option<Failure>)
      modifies this`balances
      ensures var paid := Pay(setup, old(balances), transfers);
              balances == paid.balances && r == paid.failure
    {
      ghost var whole := Pay(setup, balances, transfers);
      assert transfers[0..] == transfers;
      for i := 0 to |transfers|
        invariant var rest := Pay(setup, balances, transfers[i..]);
                  whole == rest.(count := rest.count + i)
      {
        assert transfers[i..][1..] == transfers[i + 1..];
        var to := FromH256(transfers[i].to, setup.width);
        if to.None? {
          return Some(Panic);
        }
        r := JustTransfer(setup.escrow, to.value, transfers[i].value);
        if r.Some? {
          return;
        }
      }
      return None;
    }
  }

  // ---- Runs -----------------------------------------------------------------------------

  /** Escrows the payments in turn; also says for which ones the money has moved: those that went
      through, and those that panicked after the transfer. */
  function EscrowAll(s: Setup, book: Book, payments: seq<Payment>): (Book, seq<Payment>) {
    if payments == [] then (book, [])
    else
      var (before, moved) := EscrowAll(s, book, payments[..|payments| - 1]);
      var last := payments[|payments| - 1];
      var (after, failure) := Escrow(s, before, last);
      (after, if failure.None? || failure == Some(Panic) then moved + [last] else moved)
  }

  /** The entries of the payments that fit one. */
  function EntriesOf(ps: seq<Payment>): seq<TransferEntry> {
    if ps == [] then []
    else
      var last := ps[|ps| - 1];
      if Fits(last) then EntriesOf(ps[..|ps| - 1]) + [EntryOf(last)] else EntriesOf(ps[..|ps| - 1])
  }

  /** What payments without an entry have moved. */
  function Stranded(ps: seq<Payment>): nat {
    if ps == [] then 0
    else Stranded(ps[..|ps| - 1]) + if Fits(ps[|ps| - 1]) then 0 else ps[|ps| - 1].value
  }

  /** Net effect on `who` of moving each payment from requester to escrow. */
  function EscrowDelta(s: Setup, who: Account, ps: seq<Payment>): int {
    if ps == [] then 0
    else EscrowDelta(s, who, ps[..|ps| - 1]) + Delta(who, ps[|ps| - 1].requester, s.escrow, ps[|ps| - 1].value)
  }

  /** Net effect on `who` of paying each payment directly. */
  function DirectDelta(who: Account, ps: seq<Payment>): int {
    if ps == [] then 0
    else DirectDelta(who, ps[..|ps| - 1]) + Delta(who, ps[|ps| - 1].requester, ps[|ps| - 1].target, ps[|ps| - 1].value)
  }

  function QueuedValue(entries: seq<TransferEntry>): nat {
    if entries == [] then 0 else QueuedValue(entries[..|entries| - 1]) + entries[|entries| - 1].value
  }

  /** Net effect on `who` of paying the entries out of escrow. */
  function PayoutDelta(s: Setup, who: Account, entries: seq<TransferEntry>): int
    requires Supported(s.width)
  {
    if entries == [] then 0
    else Delta(who, s.escrow, FromH256(entries[0].to, s.width).value, entries[0].value)
         + PayoutDelta(s, who, entries[1..])
  }

  lemma {:induction false} PayoutDeltaSnoc(s: Setup, who: Account, entries: seq<TransferEntry>, e: TransferEntry)
    requires Supported(s.width)
    ensures PayoutDelta(s, who, entries + [e])
         == PayoutDelta(s, who, entries) + Delta(who, s.escrow, FromH256(e.to, s.width).value, e.value)
  {
    if entries != [] {
      PayoutDeltaSnoc(s, who, entries[1..], e);
      assert (entries + [e])[1..] == entries[1..] + [e];
    }
  }

  lemma {:induction false} MovedSnoc(s: Setup, moved: seq<Payment>, last: Payment)
    ensures EntriesOf(moved + [last]) == if Fits(last) then EntriesOf(moved) + [EntryOf(last)] else EntriesOf(moved)
    ensures forall who :: EscrowDelta(s, who, moved + [last])
                       == EscrowDelta(s, who, moved) + Delta(who, last.requester, s.escrow, last.value)
  {
    assert (moved + [last])[..|moved|] == moved;
  }

  ghost predicate Moves(failure: Option<Failure>) {
    failure.None? || failure == Some(Panic)
  }

  lemma {:induction false} EscrowOnce(s: Setup, book: Book, p: Payment)
    ensures var (after, failure) := Escrow(s, book, p);
            if !Moves(failure) then after == book
            else
              && after.transfers == (if Fits(p) then book.transfers + [EntryOf(p)] else book.transfers)
              && Total(after.balances) == Total(book.balances)
              && forall who :: Balance(after.balances, who)
                            == Balance(book.balances, who) + Delta(who, p.requester, s.escrow, p.value)
  {
    if Moves(Escrow(s, book, p).1) {
      TransferConserves(s.minimum, book.balances, p.requester, s.escrow, p.value);
    }
  }

  /** Over any run of escrowed payments: the queue holds exactly the payments that moved money and
      fit an entry, in order, issuance is constant, and each account has paid or received exactly
      what moved. */
  lemma {:induction false} EscrowRun(s: Setup, book: Book, payments: seq<Payment>)
    ensures var (after, moved) := EscrowAll(s, book, payments);
            && after.transfers == book.transfers + EntriesOf(moved)
            && Total(after.balances) == Total(book.balances)
            && forall who :: Balance(after.balances, who) == Balance(book.balances, who) + EscrowDelta(s, who, moved)
  {
    if payments == [] {
      AppendNothing(book.transfers);
    } else {
      var init, last := payments[..|payments| - 1], payments[|payments| - 1];
      EscrowRun(s, book, init);
      var (before, moved) := EscrowAll(s, book, init);
      EscrowOnce(s, before, last);
      MovedSnoc(s, moved, last);
      if Fits(last) {
        AppendAssoc(book.transfers, EntriesOf(moved), [EntryOf(last)]);
      }
    }
  }

  /** When an escrow goes through: the requester has the minimum beyond the value and, unless it is escrow
      itself or moves nothing, escrow ends up with the minimum. The entry then is the target's word and
      the value. */
  lemma {:induction false} EscrowExactly(s: Setup, book: Book, p: Payment)
    ensures var (after, failure) := Escrow(s, book, p);
            var have, held := Balance(book.balances, p.requester), Balance(book.balances, s.escrow);
            var moves := p.value > 0 && p.requester != s.escrow;
            var fits := p.value <= 0xFFFF_FFFF && (|p.target| == 32 || |p.target| == 8);
            && (failure == Some(NotEnoughToEscrow) <==> have < s.minimum + p.value)
            && (failure == Some(ExistentialDeposit) <==>
                have >= s.minimum + p.value && moves && held + p.value < s.minimum)
            && (failure.None? <==>
                have >= s.minimum + p.value && (moves ==> held + p.value >= s.minimum) && fits)
            && (failure == Some(Panic) <==>
                have >= s.minimum + p.value && (moves ==> held + p.value >= s.minimum) && !fits)
            && (failure.None? ==>
                  && |after.transfers| == |book.transfers| + 1
                  && after.transfers[..|book.transfers|] == book.transfers
                  && after.transfers[|book.transfers|].value == p.value
                  && (|p.target| == 32 ==> after.transfers[|book.transfers|].to == p.target))
            && (failure.None? && moves ==>
                  && Balance(after.balances, p.requester) == have - p.value
                  && Balance(after.balances, s.escrow) == held + p.value)
  {
    if p.value > 0 && p.requester != s.escrow {
      TransferExactly(s.minimum, book.balances, p.requester, s.escrow, p.value);
    }
  }

  /** The same from an empty queue. */
  lemma {:induction false} EscrowFromEmpty(s: Setup, b: Balances, payments: seq<Payment>)
    ensures var (after, moved) := EscrowAll(s, Book(b, []), payments);
            && after.transfers == EntriesOf(moved)
            && forall who :: Balance(after.balances, who) == Balance(b, who) + EscrowDelta(s, who, moved)
  {
    EscrowRun(s, Book(b, []), payments);
  }

  lemma {:induction false} EscrowDeltaIsQueue(s: Setup, ps: seq<Payment>)
    requires forall i :: 0 <= i < |ps| ==> ps[i].requester != s.escrow
    ensures EscrowDelta(s, s.escrow, ps) == QueuedValue(EntriesOf(ps)) + Stranded(ps)
  {
    if ps != [] {
      var init := ps[..|ps| - 1];
      EscrowDeltaIsQueue(s, init);
      var entries := EntriesOf(init);
      if Fits(ps[|ps| - 1]) {
        assert EntriesOf(ps)[..|entries|] == entries;
      } else {
        assert EntriesOf(ps) == entries;
      }
    }
  }

  lemma {:induction false} MovedAreAmong(s: Setup, book: Book, payments: seq<Payment>)
    ensures forall i :: 0 <= i < |EscrowAll(s, book, payments).1| ==> EscrowAll(s, book, payments).1[i] in payments
  {
    if payments != [] {
      MovedAreAmong(s, book, payments[..|payments| - 1]);
    }
  }

  /** Over any run in which escrow requests nothing itself, it grows by exactly what is queued and
      what panics left without an entry. */
  lemma {:induction false} EscrowGrowsByQueue(s: Setup, b: Balances, payments: seq<Payment>)
    requires forall i :: 0 <= i < |payments| ==> payments[i].requester != s.escrow
    ensures var (book, moved) := EscrowAll(s, Book(b, []), payments);
            Balance(book.balances, s.escrow) == Balance(b, s.escrow) + QueuedValue(book.transfers) + Stranded(moved)
  {
    var (book, moved) := EscrowAll(s, Book(b, []), payments);
    EscrowFromEmpty(s, b, payments);
    MovedAreAmong(s, Book(b, []), payments);
    EscrowDeltaIsQueue(s, moved);
  }

  /** A commit that fails at entry `k` has paid exactly the first `k`; one that does not fail has paid
      them all. */
  lemma {:induction false} CommitPaysPrefix(s: Setup, b: Balances, entries: seq<TransferEntry>)
    requires Supported(s.width)
    ensures var paid := Pay(s, b, entries);
            && paid.count <= |entries|
            && (paid.failure.None? <==> paid.count == |entries|)
            && Total(paid.balances) == Total(b)
            && (forall who :: Balance(paid.balances, who)
                           == Balance(b, who) + PayoutDelta(s, who, entries[..paid.count]))
            && (paid.failure.Some? ==>
                  var e := entries[paid.count];
                  Transfer(s.minimum, paid.balances, s.escrow, FromH256(e.to, s.width).value, e.value)
                  == Err(paid.failure.value))
    decreases entries
  {
    if entries != [] {
      var to := FromH256(entries[0].to, s.width).value;
      var first := Transfer(s.minimum, b, s.escrow, to, entries[0].value);
      if first.Ok? {
        TransferConserves(s.minimum, b, s.escrow, to, entries[0].value);
        CommitPaysPrefix(s, first.value, entries[1..]);
        var rest := Pay(s, first.value, entries[1..]);
        assert entries[..rest.count + 1][1..] == entries[1..][..rest.count];
      }
    }
  }

  /** A runtime whose account ids have another width panics at the first entry, with nothing paid. */
  lemma {:induction false} CommitPanics(s: Setup, b: Balances, entries: seq<TransferEntry>)
    requires s.width != 32 && s.width != 8
    ensures Pay(s, b, entries) == Paid(b, 0, if entries == [] then None else Some(Panic))
  {
  }

  lemma {:induction false} QueuedValueCons(e: TransferEntry, rest: seq<TransferEntry>)
    ensures QueuedValue([e] + rest) == e.value + QueuedValue(rest)
  {
    if rest != [] {
      QueuedValueCons(e, rest[..|rest| - 1]);
      assert ([e] + rest)[..|rest|] == [e] + rest[..|rest| - 1];
    }
  }

  /** A payer with the minimum beyond what it owes can only be stopped by a payee who would stay below
      the minimum. */
  lemma {:induction false} OnlyPayeesStopIt(s: Setup, b: Balances, entries: seq<TransferEntry>)
    requires Supported(s.width) && Balance(b, s.escrow) >= s.minimum + QueuedValue(entries)
    ensures Pay(s, b, entries).failure in {None, Some(ExistentialDeposit)}
    decreases entries
  {
    if entries != [] {
      var e, rest := entries[0], entries[1..];
      var to := FromH256(e.to, s.width).value;
      assert entries == [e] + rest;
      QueuedValueCons(e, rest);
      var first := Transfer(s.minimum, b, s.escrow, to, e.value);
      if first.Ok? {
        TransferConserves(s.minimum, b, s.escrow, to, e.value);
        OnlyPayeesStopIt(s, first.value, rest);
      }
    }
  }

  /** Escrow can always honour its queue: started with the minimum, and requesting nothing itself, it
      is never short when the transfers are committed, whatever was escrowed in between. */
  lemma {:induction false} EscrowHonoursQueue(s: Setup, b: Balances, payments: seq<Payment>)
    requires Supported(s.width) && Balance(b, s.escrow) >= s.minimum
    requires forall i :: 0 <= i < |payments| ==> payments[i].requester != s.escrow
    ensures var book := EscrowAll(s, Book(b, []), payments).0;
            Pay(s, book.balances, book.transfers).failure in {None, Some(ExistentialDeposit)}
  {
    var book := EscrowAll(s, Book(b, []), payments).0;
    EscrowGrowsByQueue(s, b, payments);
    OnlyPayeesStopIt(s, book.balances, book.transfers);
  }

  lemma {:induction false} PayoutOfQueue(s: Setup, who: Account, ps: seq<Payment>)
    requires Supported(s.width)
    requires forall i :: 0 <= i < |ps| ==> Fits(ps[i]) && |ps[i].target| == s.width
    ensures EscrowDelta(s, who, ps) + PayoutDelta(s, who, EntriesOf(ps)) == DirectDelta(who, ps)
  {
    if ps != [] {
      var init, last := ps[..|ps| - 1], ps[|ps| - 1];
      PayoutOfQueue(s, who, init);
      PayoutDeltaSnoc(s, who, EntriesOf(init), EntryOf(last));
      AccountRoundTrip(last.target);
    }
  }

  function Direct(s: Setup, b: Balances, ps: seq<Payment>): Result<Balances, Failure> {
    if ps == [] then Ok(b)
    else
      var before := Direct(s, b, ps[..|ps| - 1]);
      var last := ps[|ps| - 1];
      if before.Err? then before
      else Transfer(s.minimum, before.value, last.requester, last.target, last.value)
  }

  lemma {:induction false} DirectSnoc(s: Setup, b: Balances, ps: seq<Payment>, p: Payment)
    ensures var before := Direct(s, b, ps);
            Direct(s, b, ps + [p])
            == if before.Err? then before else Transfer(s.minimum, before.value, p.requester, p.target, p.value)
  {
    assert (ps + [p])[..|ps|] == ps;
  }

  lemma {:induction false} DirectRun(s: Setup, b: Balances, ps: seq<Payment>)
    requires Direct(s, b, ps).Ok?
    ensures forall who :: Balance(Direct(s, b, ps).value, who) == Balance(b, who) + DirectDelta(who, ps)
  {
    if ps != [] {
      var init, last := ps[..|ps| - 1], ps[|ps| - 1];
      DirectRun(s, b, init);
      TransferConserves(s.minimum, Direct(s, b, init).value, last.requester, last.target, last.value);
    }
  }

  // ---- Escrow against direct payment ----------------------------------------------------

  /** Escrow's own account, as direct payments would have left it, covers its part in payment `k`. */
  predicate Covered(s: Setup, b: Balances, ps: seq<Payment>, k: nat)
    requires k < |ps|
  {
    var p, own := ps[k], Balance(b, s.escrow) + DirectDelta(s.escrow, ps[..k]);
    p.value == 0 || p.requester == p.target ||
    ((p.requester == s.escrow ==> own >= s.minimum + p.value) && (p.target == s.escrow ==> own + p.value >= s.minimum))
  }

  /** Each requester had the minimum left over, counting only its earlier requests. */
  lemma {:induction false} RequesterHadEnough(s: Setup, b: Balances, payments: seq<Payment>, k: nat)
    requires k < |EscrowAll(s, Book(b, []), payments).1|
    ensures var moved := EscrowAll(s, Book(b, []), payments).1;
            Balance(b, moved[k].requester) + EscrowDelta(s, moved[k].requester, moved[..k])
            >= s.minimum + moved[k].value
  {
    var init := payments[..|payments| - 1];
    var before, moved := EscrowAll(s, Book(b, []), init).1, EscrowAll(s, Book(b, []), payments).1;
    assert moved[..|before|] == before;
    if k < |before| {
      RequesterHadEnough(s, b, init, k);
      assert moved[..k] == before[..k];
    } else {
      EscrowFromEmpty(s, b, init);
    }
  }

  /** In a commit that does not fail each payee ends up with the minimum. */
  lemma {:induction false} PayeeHasEnough(s: Setup, b: Balances, entries: seq<TransferEntry>, k: nat)
    requires Supported(s.width) && k < |entries| && Pay(s, b, entries).failure.None?
    ensures var to := FromH256(entries[k].to, s.width).value;
            to == s.escrow || entries[k].value == 0 ||
            Balance(b, to) + PayoutDelta(s, to, entries[..k]) + entries[k].value >= s.minimum
    decreases entries
  {
    var first := FromH256(entries[0].to, s.width).value;
    TransferConserves(s.minimum, b, s.escrow, first, entries[0].value);
    if k > 0 {
      PayeeHasEnough(s, Transfer(s.minimum, b, s.escrow, first, entries[0].value).value, entries[1..], k - 1);
      assert entries[..k][1..] == entries[1..][..k - 1];
    }
  }

  lemma {:induction false} EscrowDeltaShrinks(s: Setup, who: Account, ps: seq<Payment>, k: nat)
    requires who != s.escrow && k <= |ps|
    ensures EscrowDelta(s, who, ps) <= EscrowDelta(s, who, ps[..k])
  {
    if k < |ps| {
      EscrowDeltaShrinks(s, who, ps[..|ps| - 1], k);
      assert ps[..|ps| - 1][..k] == ps[..k];
    } else {
      assert ps[..k] == ps;
    }
  }

  lemma {:induction false} EscrowPaysNoMore(s: Setup, who: Account, ps: seq<Payment>)
    requires who != s.escrow
    ensures EscrowDelta(s, who, ps) <= DirectDelta(who, ps)
  {
    if ps != [] {
      EscrowPaysNoMore(s, who, ps[..|ps| - 1]);
    }
  }

  lemma {:induction false} EntriesByIndex(ps: seq<Payment>, k: nat)
    requires k < |ps| && forall i :: 0 <= i < |ps| ==> Fits(ps[i])
    ensures |EntriesOf(ps)| == |ps|
    ensures EntriesOf(ps)[k] == EntryOf(ps[k]) && EntriesOf(ps)[..k] == EntriesOf(ps[..k])
  {
    var init := ps[..|ps| - 1];
    if k < |init| {
      EntriesByIndex(init, k);
      assert init[..k] == ps[..k];
      assert EntriesOf(ps)[..k] == EntriesOf(init)[..k];
    } else {
      assert ps[..k] == init;
      if init != [] { EntriesByIndex(init, 0); }
    }
  }

  /** No payment panics, account ids have the width of the runtime, and the commit goes through. */
  ghost predicate Committed(s: Setup, b: Balances, payments: seq<Payment>) {
    var (book, moved) := EscrowAll(s, Book(b, []), payments);
    && Supported(s.width)
    && (forall i :: 0 <= i < |moved| ==> Fits(moved[i]) && |moved[i].target| == s.width)
    && Pay(s, book.balances, book.transfers).failure.None?
  }

  /** The payee of payment `k` would have been left with the minimum by direct payment too. */
  lemma {:induction false} PayeeWouldHaveEnough(s: Setup, b: Balances, payments: seq<Payment>, k: nat)
    requires Committed(s, b, payments) && k < |EscrowAll(s, Book(b, []), payments).1|
    ensures var moved := EscrowAll(s, Book(b, []), payments).1;
            var p := moved[k];
            p.target == s.escrow || p.value == 0 ||
            Balance(b, p.target) + DirectDelta(p.target, moved[..k]) + p.value >= s.minimum
  {
    var (book, moved) := EscrowAll(s, Book(b, []), payments);
    var p := moved[k];
    EscrowFromEmpty(s, b, payments);
    EntriesByIndex(moved, k);
    AccountRoundTrip(p.target);
    if p.target != s.escrow {
      PayeeHasEnough(s, book.balances, book.transfers, k);
      EscrowDeltaShrinks(s, p.target, moved, k);
      PayoutOfQueue(s, p.target, moved[..k]);
    }
  }

  /** With the payments before it made, payment `k` goes through directly exactly when escrow's own
      account covers its part. */
  ghost predicate StepIsCovered(s: Setup, b: Balances, ps: seq<Payment>, k: nat)
    requires k < |ps|
  {
    var before := Direct(s, b, ps[..k]);
    before.Ok? ==>
      (Transfer(s.minimum, before.value, ps[k].requester, ps[k].target, ps[k].value).Ok? <==> Covered(s, b, ps, k))
  }

  lemma {:induction false} DirectStep(s: Setup, b: Balances, payments: seq<Payment>, k: nat)
    requires Committed(s, b, payments) && k < |EscrowAll(s, Book(b, []), payments).1|
    ensures StepIsCovered(s, b, EscrowAll(s, Book(b, []), payments).1, k)
  {
    var moved := EscrowAll(s, Book(b, []), payments).1;
    if Direct(s, b, moved[..k]).Ok? {
      DirectRun(s, b, moved[..k]);
      RequesterHadEnough(s, b, payments, k);
      PayeeWouldHaveEnough(s, b, payments, k);
      if moved[k].requester != s.escrow {
        EscrowPaysNoMore(s, moved[k].requester, moved[..k]);
      }
    }
  }

  lemma {:induction false} DirectByStep(s: Setup, b: Balances, ps: seq<Payment>, k: nat)
    requires k <= |ps| && forall i :: 0 <= i < |ps| ==> StepIsCovered(s, b, ps, i)
    ensures Direct(s, b, ps[..k]).Ok? <==> forall i :: 0 <= i < k ==> Covered(s, b, ps, i)
  {
    if k > 0 {
      DirectByStep(s, b, ps, k - 1);
      TakeSnoc(ps, k - 1);
      DirectSnoc(s, b, ps[..k - 1], ps[k - 1]);
      assert StepIsCovered(s, b, ps, k - 1);
    }
  }

  lemma {:induction false} DirectExactly(s: Setup, b: Balances, payments: seq<Payment>)
    requires Committed(s, b, payments)
    ensures var moved := EscrowAll(s, Book(b, []), payments).1;
            Direct(s, b, moved).Ok? <==> forall i :: 0 <= i < |moved| ==> Covered(s, b, moved, i)
  {
    var moved := EscrowAll(s, Book(b, []), payments).1;
    forall i | 0 <= i < |moved| ensures StepIsCovered(s, b, moved, i) {
      DirectStep(s, b, payments, i);
    }
    DirectByStep(s, b, moved, |moved|);
    assert moved[..|moved|] == moved;
  }

  /** Escrowing and committing against paying directly. Every balance moves by what the payments that
      went through give and take. Paying these directly goes through exactly when escrow's own account
      covers the payments it is itself a party to, and then leaves every balance the same. */
  lemma {:induction false} EscrowEqualsDirect(s: Setup, b: Balances, payments: seq<Payment>)
    requires Committed(s, b, payments)
    ensures var (book, moved) := EscrowAll(s, Book(b, []), payments);
            var after := Pay(s, book.balances, book.transfers).balances;
            && Total(after) == Total(b)
            && (forall who :: Balance(after, who) == Balance(b, who) + DirectDelta(who, moved))
            && (Direct(s, b, moved).Ok? <==> forall k :: 0 <= k < |moved| ==> Covered(s, b, moved, k))
            && (Direct(s, b, moved).Ok? ==>
                  forall who :: Balance(after, who) == Balance(Direct(s, b, moved).value, who))
  {
    var (book, moved) := EscrowAll(s, Book(b, []), payments);
    EscrowRun(s, Book(b, []), payments);
    EscrowFromEmpty(s, b, payments);
    var queue := EntriesOf(moved);
    CommitPaysPrefix(s, book.balances, queue);
    assert queue[..|queue|] == queue;
    var after := Pay(s, book.balances, book.transfers).balances;
    forall who ensures Balance(after, who) == Balance(b, who) + DirectDelta(who, moved) {
      PayoutOfQueue(s, who, moved);
    }
    DirectExactly(s, b, payments);
    if Direct(s, b, moved).Ok? {
      DirectRun(s, b, moved);
    }
  }

  lemma {:induction false} EscrowOnlyReceives(s: Setup, ps: seq<Payment>)
    requires forall i :: 0 <= i < |ps| ==> ps[i].requester != s.escrow
    ensures DirectDelta(s.escrow, ps) >= 0
  {
    if ps != [] {
      EscrowOnlyReceives(s, ps[..|ps| - 1]);
    }
  }

  /** So the two come to the same outright when escrow requests nothing, and is paid nothing or has the
      minimum to begin with. */
  lemma {:induction false} EscrowIsDirect(s: Setup, b: Balances, payments: seq<Payment>)
    requires Committed(s, b, payments)
    requires forall i :: 0 <= i < |payments| ==>
               && payments[i].requester != s.escrow
               && (payments[i].target != s.escrow || Balance(b, s.escrow) >= s.minimum)
    ensures var (book, moved) := EscrowAll(s, Book(b, []), payments);
            && Direct(s, b, moved).Ok?
            && forall who :: Balance(Pay(s, book.balances, book.transfers).balances, who)
                          == Balance(Direct(s, b, moved).value, who)
  {
    var moved := EscrowAll(s, Book(b, []), payments).1;
    MovedAreAmong(s, Book(b, []), payments);
    forall k | 0 <= k < |moved| ensures Covered(s, b, moved, k) {
      assert moved[k] in payments;
      EscrowOnlyReceives(s, moved[..k]);
    }
    EscrowEqualsDirect(s, b, payments);
  }

  // ---- Escrow as a party ----------------------------------------------------------------

  predicate ThreeAccounts(a: Account, e: Account, t: Account) {
    |a| == |e| == |t| == 32 && a != e && a != t && e != t
  }

  function ExampleSetup(e: Account): Setup {
    Setup(1, e, 32)
  }

  /** `a` pays `t`, escrow `e` pays `t`, and `a` pays escrow. */
  function ExamplePayments(a: Account, e: Account, t: Account): seq<Payment> {
    [Payment(a, t, 50), Payment(e, t, 30), Payment(a, e, 30)]
  }

  function ExampleBalances(a: Account, e: Account, t: Account, x: nat, y: nat, z: nat): Balances {
    map[a := x, e := y, t := z]
  }

  lemma {:induction false} EscrowAllSnoc(s: Setup, book: Book, ps: seq<Payment>, p: Payment)
    ensures var (before, moved) := EscrowAll(s, book, ps);
            var (after, failure) := Escrow(s, before, p);
            && EscrowAll(s, book, ps + [p]).0 == after
            && EscrowAll(s, book, ps + [p]).1 == if Moves(failure) then moved + [p] else moved
  {
    assert (ps + [p])[..|ps|] == ps;
  }

  /** The books after each of the three payments. */
  function ExampleBook(a: Account, e: Account, t: Account, k: nat): Book
    requires |t| == 32 && |e| == 32
  {
    if k == 0 then Book(ExampleBalances(a, e, t, 100, 1, 10), [])
    else if k == 1 then Book(ExampleBalances(a, e, t, 50, 51, 10), [TransferEntry(t, 50)])
    else if k == 2 then Book(ExampleBalances(a, e, t, 50, 51, 10), [TransferEntry(t, 50), TransferEntry(t, 30)])
    else Book(ExampleBalances(a, e, t, 20, 81, 10), [TransferEntry(t, 50), TransferEntry(t, 30), TransferEntry(e, 30)])
  }

  lemma ExampleSteps(a: Account, e: Account, t: Account, k: nat)
    requires ThreeAccounts(a, e, t) && k < 3
    ensures Escrow(ExampleSetup(e), ExampleBook(a, e, t, k), ExamplePayments(a, e, t)[k])
         == (ExampleBook(a, e, t, k + 1), None)
  {
    var before, after := ExampleBook(a, e, t, k), ExampleBook(a, e, t, k + 1);
    assert before.balances[a := after.balances[a]][e := after.balances[e]] == after.balances;
    assert before.transfers + [EntryOf(ExamplePayments(a, e, t)[k])] == after.transfers;
  }

  lemma {:induction false} ExampleIsEscrowed(a: Account, e: Account, t: Account, k: nat)
    requires ThreeAccounts(a, e, t) && k <= 3
    ensures EscrowAll(ExampleSetup(e), ExampleBook(a, e, t, 0), ExamplePayments(a, e, t)[..k])
         == (ExampleBook(a, e, t, k), ExamplePayments(a, e, t)[..k])
  {
    if k > 0 {
      var ps := ExamplePayments(a, e, t);
      ExampleIsEscrowed(a, e, t, k - 1);
      ExampleSteps(a, e, t, k - 1);
      EscrowAllSnoc(ExampleSetup(e), ExampleBook(a, e, t, 0), ps[..k - 1], ps[k - 1]);
      TakeSnoc(ps, k - 1);
    }
  }

  lemma ExampleIsPaid(a: Account, e: Account, t: Account)
    requires ThreeAccounts(a, e, t)
    ensures var book := ExampleBook(a, e, t, 3);
            Pay(ExampleSetup(e), book.balances, book.transfers).failure.None?
  {
    var s := ExampleSetup(e);
    var b0, b1 := ExampleBalances(a, e, t, 20, 81, 10), ExampleBalances(a, e, t, 20, 31, 60);
    var b2 := ExampleBalances(a, e, t, 20, 1, 90);
    var x, y, z := TransferEntry(t, 50), TransferEntry(t, 30), TransferEntry(e, 30);
    assert Pay(s, b2, [z]).failure.None?;
    assert b1[e := 1][t := 90] == b2 && [y, z][1..] == [z];
    assert Pay(s, b1, [y, z]).failure.None?;
    assert b0[e := 31][t := 60] == b1 && [x, y, z][1..] == [y, z];
  }

  /** With escrow as a party the two may differ: here it escrows 30 of the 51 it holds, 50 of which are
      owed to somebody else, and could not have paid them directly. */
  lemma EscrowAsParty(a: Account, e: Account, t: Account)
    requires ThreeAccounts(a, e, t)
    ensures var s, b := ExampleSetup(e), ExampleBalances(a, e, t, 100, 1, 10);
            var payments := ExamplePayments(a, e, t);
            && Committed(s, b, payments)
            && EscrowAll(s, Book(b, []), payments).1 == payments
            && Direct(s, b, payments) == Err(InsufficientBalance)
  {
    var s, b := ExampleSetup(e), ExampleBalances(a, e, t, 100, 1, 10);
    var payments := ExamplePayments(a, e, t);
    ExampleIsEscrowed(a, e, t, 3);
    assert payments[..3] == payments;
    ExampleIsPaid(a, e, t);
    var one, two := payments[..1], payments[..2];
    assert one[..0] == [] && two[..1] == one;
    assert Direct(s, b, one) == Ok(b[a := 50][t := 60]);
    assert Direct(s, b, two) == Err(InsufficientBalance);
  }
}
