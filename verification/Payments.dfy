/** The payment tables behind x402 delivery (deployments/postgres-repository.ts) and their books. */
module Payments {
  import opened Wrappers
  import opened Publications

  /** What loadX402Gate pins for a request. */
  datatype Gate = Gate(deployment: Id, publication: Id, price: nat, recipient: string)

  datatype PaymentStatus = Submitted | PaymentFailed | PaymentConfirmed

  datatype RequestStatus = Authorized | RequestFailed | Served

  datatype Intent = Intent(gate: Gate, authorization: string, status: PaymentStatus)

  datatype Settlement = Settlement(intent: nat, transaction: string, amount: nat)

  datatype Kind = GrossSale | CreatorProceeds

  datatype Allocation = Allocation(intent: nat, kind: Kind, amount: nat)

  datatype Entry = Entry(intent: nat, kind: Kind, amount: nat)

  /** The tables. Row n of intents, attempts and requests belongs to the n-th record that was begun. */
  datatype Tables = Tables(
    intents: seq<Intent>,
    attempts: seq<PaymentStatus>,
    requests: seq<RequestStatus>,
    proofs: map<string, nat>,
    settlements: seq<Settlement>,
    allocations: seq<Allocation>,
    ledger: seq<Entry>,
    responses: set<nat>
  )

  const NO_PAYMENTS := Tables([], [], [], map[], [], [], [], {})

  ghost predicate Shaped(t: Tables) {
    |t.intents| == |t.attempts| == |t.requests|
  }

  // ---------------------------------------------------------------- transactions

  /** beginPaidRequest: None when the authorization was used before. */
  function Begin(t: Tables, gate: Gate, authorization: string): Option<Tables> {
    if authorization in t.proofs then None
    else Some(t.(
      intents := t.intents + [Intent(gate, authorization, Submitted)],
      attempts := t.attempts + [Submitted],
      requests := t.requests + [Authorized],
      proofs := t.proofs[authorization := |t.intents|]))
  }

  function Failed(status: PaymentStatus, preserve: bool): PaymentStatus {
    if status.PaymentConfirmed? || preserve then status else PaymentFailed
  }

  /** failPaidRequest: the request always fails; the payment only if it may and is not confirmed. */
  function Fail(t: Tables, id: nat, preserve: bool): Tables
    requires Shaped(t) && id < |t.intents|
  {
    t.(
      intents := t.intents[id := t.intents[id].(status := Failed(t.intents[id].status, preserve))],
      attempts := t.attempts[id := Failed(t.attempts[id], preserve)],
      requests := t.requests[id := RequestFailed])
  }

  predicate SettlementClashes(t: Tables, id: nat, transaction: string) {
    || (exists s | s in t.settlements :: s.transaction == transaction || s.intent == id)
    || exists e | e in t.ledger :: e.intent == id
  }

  /** confirmPaidSettlement: None when a unique constraint refuses the settlement or a ledger entry. */
  function Confirm(t: Tables, id: nat, gate: Gate, transaction: string): Option<Tables>
    requires Shaped(t) && id < |t.intents|
  {
    if SettlementClashes(t, id, transaction) then None
    else Some(t.(
      settlements := t.settlements + [Settlement(id, transaction, gate.price)],
      allocations := t.allocations + [Allocation(id, GrossSale, gate.price),
        Allocation(id, CreatorProceeds, gate.price)],
      ledger := t.ledger + [Entry(id, GrossSale, gate.price), Entry(id, CreatorProceeds, gate.price)],
      attempts := t.attempts[id := PaymentConfirmed],
      intents := t.intents[id := t.intents[id].(status := PaymentConfirmed)]))
  }

  /** completePaidRequest: None when the payment is not confirmed or a response was recorded before. */
  function Complete(t: Tables, id: nat): Option<Tables>
    requires Shaped(t) && id < |t.intents|
  {
    if !t.intents[id].status.PaymentConfirmed? || id in t.responses then None
    else Some(t.(requests := t.requests[id := Served], responses := t.responses + {id}))
  }

  // ---------------------------------------------------------------- the books

  function SettlementsOf(settlements: seq<Settlement>, id: nat): seq<Settlement> {
    if settlements == [] then []
    else
      var last := settlements[|settlements| - 1];
      SettlementsOf(settlements[..|settlements| - 1], id) + (if last.intent == id then [last] else [])
  }

  function AllocationsOf(allocations: seq<Allocation>, id: nat): seq<Allocation> {
    if allocations == [] then []
    else
      var last := allocations[|allocations| - 1];
      AllocationsOf(allocations[..|allocations| - 1], id) + (if last.intent == id then [last] else [])
  }

  function EntriesOf(ledger: seq<Entry>, id: nat): seq<Entry> {
    if ledger == [] then []
    else
      var last := ledger[|ledger| - 1];
      EntriesOf(ledger[..|ledger| - 1], id) + (if last.intent == id then [last] else [])
  }

  /** The total of one kind of allocation. */
  function Total(allocations: seq<Allocation>, kind: Kind): nat {
    if allocations == [] then 0
    else
      var last := allocations[|allocations| - 1];
      Total(allocations[..|allocations| - 1], kind) + (if last.kind == kind then last.amount else 0)
  }

  function SumConfirmed(intents: seq<Intent>): nat {
    if intents == [] then 0
    else
      var last := intents[|intents| - 1];
      SumConfirmed(intents[..|intents| - 1]) + (if last.status.PaymentConfirmed? then last.gate.price else 0)
  }

  /** A confirmed payment has one settlement, two allocations and two ledger entries, all of its price; any
      other payment has none. */
  ghost predicate Booked(t: Tables, id: nat)
    requires id < |t.intents|
  {
    var price := t.intents[id].gate.price;
    if t.intents[id].status.PaymentConfirmed? then
      && (exists transaction :: SettlementsOf(t.settlements, id) == [Settlement(id, transaction, price)])
      && AllocationsOf(t.allocations, id) == [Allocation(id, GrossSale, price), Allocation(id, CreatorProceeds, price)]
      && EntriesOf(t.ledger, id) == [Entry(id, GrossSale, price), Entry(id, CreatorProceeds, price)]
    else
      SettlementsOf(t.settlements, id) == [] && AllocationsOf(t.allocations, id) == [] && EntriesOf(t.ledger, id) == []
  }

  ghost predicate Books(t: Tables) {
    && Shaped(t)
    && (forall id: nat | id < |t.intents| :: Booked(t, id) && t.attempts[id] == t.intents[id].status)
    && (forall id: nat | id >= |t.intents| ::
          SettlementsOf(t.settlements, id) == [] && AllocationsOf(t.allocations, id) == []
            && EntriesOf(t.ledger, id) == [])
    && (forall id: nat | id < |t.intents| && t.requests[id].Served? :: t.intents[id].status.PaymentConfirmed?)
    && (forall a | a in t.proofs :: t.proofs[a] < |t.intents| && t.intents[t.proofs[a]].authorization == a)
    && (forall id: nat | id < |t.intents| ::
      t.intents[id].authorization in t.proofs
      && t.proofs[t.intents[id].authorization] == id)
    && Total(t.allocations, GrossSale) == SumConfirmed(t.intents) == Total(t.allocations, CreatorProceeds)
    && forall id | id in t.responses :: id < |t.intents|
  }

  lemma NoBooks()
    ensures Books(NO_PAYMENTS)
  {
  }

  lemma {:induction false} SumUpdate(intents: seq<Intent>, id: nat, status: PaymentStatus)
    requires id < |intents|
    ensures SumConfirmed(intents[id := intents[id].(status := status)]) ==
              SumConfirmed(intents) - (if intents[id].status.PaymentConfirmed? then intents[id].gate.price else 0)
              + (if status.PaymentConfirmed? then intents[id].gate.price else 0)
  {
    var n, updated := |intents|, intents[id := intents[id].(status := status)];
    if id == n - 1 {
      assert updated[..n - 1] == intents[..n - 1];
    } else {
      assert updated[..n - 1] == intents[..n - 1][id := intents[id].(status := status)];
      SumUpdate(intents[..n - 1], id, status);
    }
  }

  lemma SumAppend(intents: seq<Intent>, i: Intent)
    requires !i.status.PaymentConfirmed?
    ensures SumConfirmed(intents + [i]) == SumConfirmed(intents)
  {
    assert (intents + [i])[..|intents|] == intents;
  }

  lemma BeginKeeps(t: Tables, gate: Gate, authorization: string)
    requires Books(t) && Begin(t, gate, authorization).Some?
    ensures Books(Begin(t, gate, authorization).value)
  {
    hide SettlementsOf, AllocationsOf, EntriesOf, Total, SumConfirmed;
    var u := Begin(t, gate, authorization).value;
    SumAppend(t.intents, Intent(gate, authorization, Submitted));
    forall id: nat | id < |u.intents|
      ensures Booked(u, id)
    {
      if id < |t.intents| {
        assert Booked(t, id);
      }
    }
  }

  lemma FailKeeps(t: Tables, id: nat, preserve: bool)
    requires Books(t) && id < |t.intents|
    ensures Books(Fail(t, id, preserve))
  {
    hide SettlementsOf, AllocationsOf, EntriesOf, Total, SumConfirmed;
    var u := Fail(t, id, preserve);
    SumUpdate(t.intents, id, Failed(t.intents[id].status, preserve));
    forall n: nat | n < |u.intents|
      ensures Booked(u, n)
    {
      assert Booked(t, n);
    }
  }

  lemma RowsAppended(t: Tables, id: nat, gate: Gate, transaction: string, n: nat)
    requires Shaped(t) && id < |t.intents| && Confirm(t, id, gate, transaction).Some?
    ensures var u := Confirm(t, id, gate, transaction).value;
            && SettlementsOf(u.settlements, n) ==
              SettlementsOf(t.settlements, n) + (if n == id then [Settlement(id, transaction, gate.price)] else [])
            && AllocationsOf(u.allocations, n) == AllocationsOf(t.allocations, n)
                 + (if n == id then [Allocation(id, GrossSale, gate.price), Allocation(id, CreatorProceeds, gate.price)]
                   else [])
            && EntriesOf(u.ledger, n) == EntriesOf(t.ledger, n) + (if n == id
              then [Entry(id, GrossSale, gate.price), Entry(id, CreatorProceeds, gate.price)] else [])
            && Total(u.allocations, GrossSale) == Total(t.allocations, GrossSale) + gate.price
            && Total(u.allocations, CreatorProceeds) == Total(t.allocations, CreatorProceeds) + gate.price
  {
    var u := Confirm(t, id, gate, transaction).value;
    var a, b := Allocation(id, GrossSale, gate.price), Allocation(id, CreatorProceeds, gate.price);
    var d, e := Entry(id, GrossSale, gate.price), Entry(id, CreatorProceeds, gate.price);
    assert u.settlements[..|t.settlements|] == t.settlements;
    assert u.allocations == (t.allocations + [a]) + [b] && u.allocations[..|t.allocations| + 1] == t.allocations + [a];
    assert (t.allocations + [a])[..|t.allocations|] == t.allocations;
    assert u.ledger == (t.ledger + [d]) + [e] && u.ledger[..|t.ledger| + 1] == t.ledger + [d];
    assert (t.ledger + [d])[..|t.ledger|] == t.ledger;
    assert AllocationsOf(u.allocations, n) == AllocationsOf(t.allocations + [a], n) + (if n == id then [b] else []);
    assert EntriesOf(u.ledger, n) == EntriesOf(t.ledger + [d], n) + (if n == id then [e] else []);
  }

  lemma ConfirmKeeps(t: Tables, id: nat, gate: Gate, transaction: string)
    requires Books(t) && id < |t.intents| && t.intents[id].gate == gate && !t.intents[id].status.PaymentConfirmed?
    requires Confirm(t, id, gate, transaction).Some?
    ensures Books(Confirm(t, id, gate, transaction).value)
  {
    hide SettlementsOf, AllocationsOf, EntriesOf, Total, SumConfirmed;
    var u := Confirm(t, id, gate, transaction).value;
    SumUpdate(t.intents, id, PaymentConfirmed);
    RowsAppended(t, id, gate, transaction, id);
    forall n: nat
      ensures n < |u.intents| ==> Booked(u, n)
      ensures n >= |u.intents| ==>
              SettlementsOf(u.settlements, n) == [] && AllocationsOf(u.allocations, n) == []
              && EntriesOf(u.ledger, n) == []
    {
      RowsAppended(t, id, gate, transaction, n);
      if n < |t.intents| {
        assert Booked(t, n);
      }
    }
  }

  lemma CompleteKeeps(t: Tables, id: nat)
    requires Books(t) && id < |t.intents| && Complete(t, id).Some?
    ensures Books(Complete(t, id).value)
  {
    hide SettlementsOf, AllocationsOf, EntriesOf, Total, SumConfirmed;
    var u := Complete(t, id).value;
    forall n: nat | n < |u.intents|
      ensures Booked(u, n)
    {
      assert Booked(t, n);
    }
  }

  /** With the books in order, a payment that is not confirmed can only be refused a settlement whose
      transaction another payment already used. */
  lemma {:induction false} OnlyOwnTransactionClashes(t: Tables, id: nat, transaction: string)
    requires Books(t) && id < |t.intents| && !t.intents[id].status.PaymentConfirmed?
    ensures SettlementClashes(t, id, transaction) <==> exists s | s in t.settlements :: s.transaction == transaction
  {
    assert Booked(t, id);
    NoSettlement(t.settlements, id);
    NoEntry(t.ledger, id);
  }

  lemma {:induction false} NoSettlement(settlements: seq<Settlement>, id: nat)
    requires SettlementsOf(settlements, id) == []
    ensures forall s | s in settlements :: s.intent != id
  {
    if settlements != [] {
      var init, last := settlements[..|settlements| - 1], settlements[|settlements| - 1];
      assert settlements == init + [last];
      NoSettlement(init, id);
    }
  }

  lemma {:induction false} NoEntry(ledger: seq<Entry>, id: nat)
    requires EntriesOf(ledger, id) == []
    ensures forall e | e in ledger :: e.intent != id
  {
    if ledger != [] {
      var init, last := ledger[..|ledger| - 1], ledger[|ledger| - 1];
      assert ledger == init + [last];
      NoEntry(init, id);
    }
  }

  // ---------------------------------------------------------------- one record

  /** All the tables hold about one record. */
  datatype Account = Account(intent: Intent, attempt: PaymentStatus, request: RequestStatus,
      settlements: seq<Settlement>, answered: bool)

  ghost predicate HasAccount(t: Tables, id: nat, a: Account) {
    && Shaped(t) && id < |t.intents|
    && a == Account(t.intents[id], t.attempts[id], t.requests[id], SettlementsOf(t.settlements, id), id in t.responses)
  }

  ghost function AccountOf(t: Tables, id: nat): (a: Account)
    requires Shaped(t) && id < |t.intents|
    ensures HasAccount(t, id, a)
  {
    Account(t.intents[id], t.attempts[id], t.requests[id], SettlementsOf(t.settlements, id), id in t.responses)
  }

  /** Beginning opens a fresh record for a new authorization, and refuses a used one. */
  lemma BeginOpens(t: Tables, gate: Gate, authorization: string)
    requires Books(t)
    ensures Begin(t, gate, authorization).Some? <==> forall n: nat | n < |t.intents| ::
              t.intents[n].authorization != authorization
    ensures Begin(t, gate, authorization).Some? ==>
              var u, id := Begin(t, gate, authorization).value, |t.intents|;
              && HasAccount(u, id, Account(Intent(gate, authorization, Submitted), Submitted, Authorized, [], false))
              && (forall n, a | n != id && HasAccount(t, n, a) :: HasAccount(u, n, a))
              && u.settlements == t.settlements && u.responses == t.responses
  {
    hide SettlementsOf, AllocationsOf, EntriesOf, Booked, Total, SumConfirmed;
    assert t.proofs.Keys == set n: nat | n < |t.intents| :: t.intents[n].authorization;
  }

  /** Failing fails the request, and the payment unless that is preserved or confirmed; nothing else changes. */
  lemma FailFails(t: Tables, id: nat, preserve: bool, a: Account)
    requires Books(t) && HasAccount(t, id, a)
    ensures var u := Fail(t, id, preserve);
            && HasAccount(u, id, if preserve || a.intent.status.PaymentConfirmed? then a.(request := RequestFailed)
                 else a.(intent := a.intent.(status := PaymentFailed), attempt := PaymentFailed, request :=
                   RequestFailed))
            && (forall n, b | n != id && HasAccount(t, n, b) :: HasAccount(u, n, b))
            && u.settlements == t.settlements && u.responses == t.responses
  {
    hide SettlementsOf, AllocationsOf, EntriesOf, Booked, Total, SumConfirmed;
  }

  /** Confirming an unconfirmed payment settles it at the gate's price under the transaction, if no other payment
      used that. */
  lemma ConfirmSettles(t: Tables, id: nat, gate: Gate, transaction: string, a: Account)
    requires Books(t) && HasAccount(t, id, a) && !a.intent.status.PaymentConfirmed?
    ensures Confirm(t, id, gate, transaction).Some? <==> forall s | s in t.settlements :: s.transaction != transaction
    ensures Confirm(t, id, gate, transaction).Some? ==>
              var u := Confirm(t, id, gate, transaction).value;
              && HasAccount(u, id, a.(intent := a.intent.(status := PaymentConfirmed), attempt := PaymentConfirmed,
                   settlements := [Settlement(id, transaction, gate.price)]))
              && (forall n, b | n != id && HasAccount(t, n, b) :: HasAccount(u, n, b))
              && u.responses == t.responses
  {
    hide AllocationsOf, EntriesOf, Total, SumConfirmed, SettlementClashes;
    OnlyOwnTransactionClashes(t, id, transaction);
    assert Booked(t, id);
    hide Books, Booked;
    if Confirm(t, id, gate, transaction).Some? {
      var last := Settlement(id, transaction, gate.price);
      assert (t.settlements + [last])[..|t.settlements|] == t.settlements;
      assert [] + [last] == [last];
      forall n, b | n != id && HasAccount(t, n, b)
        ensures HasAccount(Confirm(t, id, gate, transaction).value, n, b)
      {
        assert SettlementsOf(t.settlements, n) + [] == SettlementsOf(t.settlements, n);
      }
    }
  }

  /** Completing a confirmed payment that has no response yet serves its request. */
  lemma CompleteServes(t: Tables, id: nat, a: Account)
    requires HasAccount(t, id, a)
    ensures Complete(t, id).Some? <==> a.intent.status.PaymentConfirmed? && !a.answered
    ensures Complete(t, id).Some? ==>
              var u := Complete(t, id).value;
              && HasAccount(u, id, a.(request := Served, answered := true))
              && (forall n, b | n != id && HasAccount(t, n, b) :: HasAccount(u, n, b))
              && u.settlements == t.settlements
  {
    hide SettlementsOf;
  }

  // ---------------------------------------------------------------- the transactions as written

  class PaymentStore {
    var tables: Tables

    constructor ()
      ensures tables == NO_PAYMENTS
    {
      tables := NO_PAYMENTS;
    }

    /** Four inserts in one transaction; a unique violation undoes them and yields no record. */
    method BeginPaidRequest(gate: Gate, authorization: string, fault: Fault) returns (r: Reply<Option<nat>>)
      modifies this
      ensures var begun := Begin(old(tables), gate, authorization);
              && tables == After(fault, old(tables), begun.GetOr(old(tables)))
              && r == Answered(fault, if begun.Some? then Some(|old(tables.intents)|) else None)
    {
      var work := tables;
      var id := |work.intents|;
      work := work.(intents := work.intents + [Intent(gate, authorization, Submitted)]);
      work := work.(requests := work.requests + [Authorized]);
      work := work.(attempts := work.attempts + [Submitted]);
      if authorization in work.proofs {
        return Answered(fault, None);
      }
      work := work.(proofs := work.proofs[authorization := id]);
      if !fault.Rollback? {
        tables := work;
      }
      r := Answered(fault, Some(id));
    }

    /** One statement over three tables. */
    method FailPaidRequest(id: nat, preserve: bool, fault: Fault) returns (r: Reply<()>)
      requires Shaped(tables) && id < |tables.intents|
      modifies this
      ensures tables == After(fault, old(tables), Fail(old(tables), id, preserve)) && r == Answered(fault, ())
    {
      if !fault.Rollback? {
        if !tables.intents[id].status.PaymentConfirmed? && !preserve {
          tables := tables.(intents := tables.intents[id := tables.intents[id].(status := PaymentFailed)]);
        }
        if !tables.attempts[id].PaymentConfirmed? && !preserve {
          tables := tables.(attempts := tables.attempts[id := PaymentFailed]);
        }
        tables := tables.(requests := tables.requests[id := RequestFailed]);
      }
      r := Answered(fault, ());
    }

    /** The settlement, then for each kind an allocation and its ledger entry, then the two statuses. */
    method ConfirmPaidSettlement(id: nat, gate: Gate, transaction: string, fault: Fault) returns (r: Reply<bool>)
      requires Shaped(tables) && id < |tables.intents|
      modifies this
      ensures var confirmed := Confirm(old(tables), id, gate, transaction);
              && tables == After(fault, old(tables), confirmed.GetOr(old(tables)))
              && r == Answered(fault, confirmed.Some?)
    {
      var work := tables;
      if exists s | s in work.settlements :: s.transaction == transaction || s.intent == id {
        return Answered(fault, false);
      }
      work := work.(settlements := work.settlements + [Settlement(id, transaction, gate.price)]);
      var kinds := [GrossSale, CreatorProceeds];
      for k := 0 to 2
        invariant work.(allocations := tables.allocations, ledger := tables.ledger) == tables.(settlements :=
                  work.settlements)
        invariant work.settlements == tables.settlements + [Settlement(id, transaction, gate.price)]
                  && tables == old(tables)
        invariant work.allocations == tables.allocations + [Allocation(id, GrossSale, gate.price),
                  Allocation(id, CreatorProceeds, gate.price)][..k]
        invariant work.ledger == tables.ledger + [Entry(id, GrossSale, gate.price),
                  Entry(id, CreatorProceeds, gate.price)][..k]
        invariant forall e | e in tables.ledger && e.intent == id :: e.kind !in kinds[..k]
      {
        work := work.(allocations := work.allocations + [Allocation(id, kinds[k], gate.price)]);
        if exists e | e in work.ledger :: e.intent == id && e.kind == kinds[k] {
          assert exists e | e in tables.ledger :: e.intent == id;
          return Answered(fault, false);
        }
        work := work.(ledger := work.ledger + [Entry(id, kinds[k], gate.price)]);
      }
      assert kinds[..2] == [GrossSale, CreatorProceeds];
      forall e | e in tables.ledger
        ensures e.intent != id
      {
        assert e.kind == GrossSale || e.kind == CreatorProceeds;
      }
      assert !SettlementClashes(tables, id, transaction);
      work := work.(attempts := work.attempts[id := PaymentConfirmed]);
      work := work.(intents := work.intents[id := work.intents[id].(status := PaymentConfirmed)]);
      if !fault.Rollback? {
        tables := work;
      }
      r := Answered(fault, true);
    }

    method CompletePaidRequest(id: nat, fault: Fault) returns (r: Reply<bool>)
      requires Shaped(tables) && id < |tables.intents|
      modifies this
      ensures var completed := Complete(old(tables), id);
              && tables == After(fault, old(tables), completed.GetOr(old(tables)))
              && r == Answered(fault, completed.Some?)
    {
      var work := tables;
      work := work.(requests := work.requests[id := Served]);
      if id in work.responses || !work.intents[id].status.PaymentConfirmed? {
        return Answered(fault, false);
      }
      work := work.(responses := work.responses + {id});
      if !fault.Rollback? {
        tables := work;
      }
      r := Answered(fault, true);
    }
  }
}
