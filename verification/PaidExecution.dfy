/** executeX402Request as a program (deployments/service.ts): a sequence of repository and facilitator calls
    with one local flag, run among other requests and the creator's commands. Every execution of it is a run
    of the paid-request system, so everything proved of runs holds of the program. */
module PaidExecution {
  import opened Wrappers
  import opened Publications
  import opened Payments
  import opened PaidRequests

  /** What other clients do in between: a new request, a turn of another request, or a creator's command. */
  datatype Move =
    | Arrival(target: Id, signature: Option<string>)
    | Turn(request: nat, choice: Choice)
    | Deploying(deploy: DeployInput, fault: Fault)
    | Publishing(publish: PublishInput, fault: Fault)
    | Retiring(deployment: Id, workspace: Id, publication: Id, fault: Fault)
    | Suspending(deployment: Id, workspace: Id, fault: Fault)

  /** The environment of one execution: what happens before its n-th call, and how that call turns out. */
  datatype Environment = Environment(moves: nat -> seq<Move>, choice: nat -> Choice)

  /** How the guarded part of the program ends: with a reply, or in its catch block. */
  datatype Attempt = Replied(outcome: Outcome) | Caught(settlementSucceeded: bool)

  class Service {
    const control: ControlPlane
    const payments: PaymentStore
    var requests: seq<Request>
    var settles: seq<string>
    var reported: set<nat>
    ghost var run: seq<World>

    constructor ()
      ensures Valid() && fresh(control) && fresh(payments) && requests == []
    {
      control := new ControlPlane();
      payments := new PaymentStore();
      requests, settles, reported := [], [], {};
      run := [START];
    }

    function Now(): World
      reads this, control, payments
    {
      World(control.store, payments.tables, requests, settles, reported)
    }

    /** The present state is the last one of a run of the system. */
    ghost predicate Valid()
      reads this, control, payments
    {
      IsRun(run) && run[|run| - 1] == Now()
    }

    lemma ValidInv()
      requires Valid()
      ensures Inv(Now()) && InRange(Now())
    {
      hide IsRun, Inv, InRange;
      RunStarts(run);
      RunKeeps(run, |run| - 1);
      InvInRange(Now());
    }

    /** Records the step that has just been made. */
    ghost method Extend()
      requires IsRun(run) && Step(run[|run| - 1], Now())
      modifies this`run
      ensures Valid() && run == old(run) + [Now()]
    {
      hide Step;
      ExtendRun(run, Now());
      run := run + [Now()];
    }

    /** One step of request i: the calls it made are already in the tables, now its program counter follows. */
    method Advance(i: nat, c: Choice, pc: Pc)
      requires IsRun(run) && i < |requests| && InRange(run[|run| - 1]) && i < |run[|run| - 1].requests|
      requires Goto(Now(), i, pc) == Next(run[|run| - 1], i, c)
      modifies this`requests, this`run
      ensures Valid() && old(run) <= run && requests == old(requests)[i := old(requests)[i].(pc := pc)]
    {
      requests := requests[i := requests[i].(pc := pc)];
      assert Step(run[|run| - 1], Now());
      Extend();
    }

    /** Other clients move; request i stays where it is, and so does its record. */
    method Interfere(i: nat, moves: seq<Move>)
      requires Valid() && i < |requests|
      modifies this, control, payments
      ensures Valid() && old(run) <= run && i < |requests| && requests[i] == old(requests)[i] && Inv(Now())
      ensures moves == [] ==> Now() == old(Now()) && run == old(run)
      ensures Keeps(requests[i], old(payments.tables), payments.tables)
    {
      hide Inv, InRange, IsRun, Next, HasAccount;
      for k := 0 to |moves|
        invariant Valid() && old(run) <= run && i < |requests| && requests[i] == old(requests)[i]
        invariant k == 0 ==> Now() == old(Now()) && run == old(run)
        invariant Keeps(requests[i], old(payments.tables), payments.tables)
      {
        OneMove(i, moves[k]);
      }
      ValidInv();
    }

    /** The same, for a request that holds a record. */
    method InterfereWith(i: nat, moves: seq<Move>, ghost id: nat, ghost a: Account)
      requires Valid() && i < |requests| && Held(requests[i].pc) == Some(id) && HasAccount(payments.tables, id, a)
      modifies this, control, payments
      ensures Valid() && old(run) <= run && i < |requests| && requests[i] == old(requests)[i]
      ensures Inv(Now()) && InRange(Now()) && Books(payments.tables) && Lifecycle(control.store) && |run| > 0
      ensures moves == [] ==> Now() == old(Now()) && run == old(run)
      ensures HasAccount(payments.tables, id, a)
    {
      hide Valid, Inv, InRange, HasAccount, Books, Lifecycle;
      Interfere(i, moves);
      Present();
      InvBooks(Now());
      InvInRange(Now());
    }

    lemma Present()
      requires Valid()
      ensures |run| > 0 && run[|run| - 1] == Now()
    {
      RunStarts(run);
    }

    method OneMove(i: nat, move: Move)
      requires Valid() && i < |requests|
      modifies this, control, payments
      ensures Valid() && old(run) <= run && i < |requests| && requests[i] == old(requests)[i]
      ensures Keeps(requests[i], old(payments.tables), payments.tables)
    {
      hide HasAccount, Inv, IsRun, Next, Changes, Deploy, Retire, Suspend, Publishes;
      ValidInv();
      match move
      case Arrival(target, signature) =>
        requests := requests + [Request(target, signature, LoadingGate)];
        Extend();
      case Turn(j, choice) =>
        if j < |requests| && j != i {
          OtherTurn(i, j, choice);
        }
      case Deploying(input, fault) =>
        DeployChanges(control.store, input, fault);
        var r := control.DeployProduct(input, fault);
        Extend();
      case Publishing(input, fault) =>
        ghost var s := control.store;
        ghost var outcome;
        var r;
        r, outcome := control.PublishX402(input, fault);
        ghost var t :| Publishes(s, input, t, outcome) && control.store == After(fault, s, t);
        PublishChanges(s, input, t, outcome, fault);
        Extend();
      case Retiring(deployment, workspace, publication, fault) =>
        RetireChanges(control.store, deployment, workspace, publication, fault);
        var r := control.RetireX402(deployment, workspace, publication, fault);
        Extend();
      case Suspending(deployment, workspace, fault) =>
        SuspendChanges(control.store, deployment, workspace, fault);
        var r := control.SuspendDeployment(deployment, workspace, fault);
        Extend();
    }

    /** A turn of another request, served by another process on the same tables. */
    method OtherTurn(i: nat, j: nat, choice: Choice)
      requires Valid() && i < |requests| && j < |requests| && i != j && InRange(Now()) && Inv(Now())
      modifies this, payments
      ensures Valid() && old(run) <= run && i < |requests| && requests[i] == old(requests)[i]
      ensures Keeps(requests[i], old(payments.tables), payments.tables)
    {
      hide Inv, IsRun, Next, InRange, HasAccount;
      NextFrame(Now(), j, choice);
      TurnKeeps(Now(), i, j, choice);
      var next := Next(Now(), j, choice);
      payments.tables := next.tables;
      requests, settles, reported := next.requests, next.settles, next.reported;
      assert Now() == next;
      Extend();
    }

    /** executeX402Request for the i-th request. The ghost results are the points of the run at which the gate was
        loaded, the record begun, the settlement confirmed and the data produced. It delivers exactly if the
        publication is on sale, the signature new, the transaction new, the publication still on sale when data is
        produced, and every call is answered; then the payment is settled at its price and the request served. It
        asks for payment exactly if a signature is missing or refused; anything else is an error. */
    method ExecuteX402Request(i: nat, env: Environment)
        returns (outcome: Outcome, ghost load: nat, ghost begin: nat, ghost confirm: nat, ghost execute: nat)
      requires Valid() && i < |requests| && requests[i].pc.LoadingGate?
      modifies this, control, payments
      ensures Valid() && old(run) <= run && Reaches(old(requests), requests, i, Done(outcome))
      ensures |old(run)| - 1 <= load <= begin <= confirm <= execute < |run|
      ensures (forall n :: env.moves(n) == []) ==>
                && run[load].store == old(control.store) == run[execute].store
                && run[begin].tables == old(payments.tables)
                && run[confirm].tables.settlements == old(payments.tables.settlements)
      ensures var r := requests[i];
              outcome.Delivered? <==>
                && Opens(env, run[load].store, run[begin].tables, r.target, r.signature)
                  && Settles(env, run[confirm].tables)
                && env.choice(7).verdict.Yes? && StillOnSale(run[load].store, run[execute].store, r.target)
                && env.choice(8).fault.NoFault?
      ensures var r := requests[i];
              outcome.PaymentRequired? <==>
                && OnSale(run[load].store, r.target) && env.choice(0).fault.NoFault?
                && (|| r.signature.None? || env.choice(0).verdict.No?
                    || (&& Opens(env, run[load].store, run[begin].tables, r.target, r.signature)
                        && env.choice(2).verdict.No? && env.choice(3).fault.NoFault?))
      ensures Opens(env, run[load].store, run[begin].tables, requests[i].target, requests[i].signature) ==>
                exists g: Gate ::
                  && g.deployment == requests[i].target && Sells(run[load].store, g)
                  && Settled(env, run[confirm].tables, g, requests[i].signature, |run[begin].tables.intents|, outcome,
                       payments.tables)
    {
      hide Valid, HasAccount, Opens, Settles, Settled, Sells, OnSale, StillOnSale, Lifecycle, Unspent;
      var gate, early;
      gate, early, load := OpenGate(i, env);
      if gate.None? {
        Present();
        begin, confirm, execute := |run| - 1, |run| - 1, |run| - 1;
        Opened(env, run[load].store, run[begin].tables, requests[i].target, requests[i].signature);
        return early, load, begin, confirm, execute;
      }
      var record;
      record, begin := BeginCall(i, gate.value, env);
      Opened(env, run[load].store, run[begin].tables, requests[i].target, requests[i].signature);
      if record.None? {
        Present();
        confirm, execute := |run| - 1, |run| - 1;
        return ErrorReply, load, begin, confirm, execute;
      }
      outcome, confirm, execute := Guarded(i, gate.value, record.value, env, run[load].store);
    }

    /** The try statement: its block, and the catch block if that throws. */
    method Guarded(i: nat, gate: Gate, id: nat, env: Environment, ghost loaded: Store)
        returns (outcome: Outcome, ghost confirm: nat, ghost execute: nat)
      requires Valid() && i < |requests| && requests[i].pc == Verifying(gate, id) && requests[i].signature.Some?
      requires HasAccount(payments.tables, id, Fresh(gate, requests[i].signature.value))
      requires gate.deployment == requests[i].target && Sells(loaded, gate) && Lifecycle(loaded)
      modifies this, control, payments
      ensures Valid() && old(run) <= run && Reaches(old(requests), requests, i, Done(outcome))
      ensures |old(run)| - 1 <= confirm <= execute < |run|
      ensures (forall n :: env.moves(n) == []) ==>
                && run[confirm].tables.settlements == old(payments.tables.settlements)
                && run[execute].store == old(control.store)
      ensures outcome.Delivered? <==>
                && Settles(env, run[confirm].tables) && env.choice(7).verdict.Yes?
                && StillOnSale(loaded, run[execute].store, requests[i].target) && env.choice(8).fault.NoFault?
      ensures outcome.PaymentRequired? <==> env.choice(2).verdict.No? && env.choice(3).fault.NoFault?
      ensures Settled(env, run[confirm].tables, gate, requests[i].signature, id, outcome, payments.tables)
    {
      hide Valid, HasAccount, Settles, Ends, Sells, StillOnSale, Lifecycle;
      ghost var a;
      var attempt;
      attempt, confirm, execute, a := Deliver(i, gate, id, env, loaded);
      if attempt.Replied? {
        return attempt.outcome, confirm, execute;
      }
      a := CatchBlock(i, gate, id, attempt.settlementSucceeded, env, a);
      outcome := ErrorReply;
    }

    /** Up to the checks of the payment header. */
    method OpenGate(i: nat, env: Environment) returns (gate: Option<Gate>, early: Outcome, ghost at: nat)
      requires Valid() && i < |requests| && requests[i].pc.LoadingGate?
      modifies this, control, payments
      ensures Valid() && old(run) <= run
      ensures Reaches(old(requests), requests, i, if gate.Some? then Beginning(gate.value) else Done(early))
      ensures |old(run)| - 1 <= at < |run| && control.store == run[at].store && payments.tables == run[at].tables
      ensures env.moves(0) == [] ==> run[at] == old(Now())
      ensures gate.Some? <==>
                && OnSale(run[at].store, requests[i].target) && env.choice(0).fault.NoFault?
                && requests[i].signature.Some? && env.choice(0).verdict.Yes?
      ensures gate.Some? ==> gate.value.deployment == requests[i].target && Sells(run[at].store, gate.value)
      ensures Lifecycle(run[at].store)
      ensures gate.None? ==>
                early == if && OnSale(run[at].store, requests[i].target) && env.choice(0).fault.NoFault?
                            && (requests[i].signature.None? || env.choice(0).verdict.No?)
                         then PaymentRequired else ErrorReply
    {
      hide Inv, IsRun, InRange, Books, Lifecycle, Keeps, LoadGate, HasAccount, Sells;
      Interfere(i, env.moves(0));
      Present();
      ValidInv();
      at := |run| - 1;
      var c := env.choice(0);
      gate := LoadGate(control.store, requests[i].target);
      SaleIs(Now(), requests[i].target);
      InvBooks(Now());
      early := ErrorReply;
      if !c.fault.NoFault? || gate.None? {
        gate := None;
        Advance(i, c, Done(ErrorReply));
      } else if requests[i].signature.None? || c.verdict.No? {
        gate, early := None, PaymentRequired;
        Advance(i, c, Done(PaymentRequired));
      } else if c.verdict.Throws? {
        gate := None;
        Advance(i, c, Done(ErrorReply));
      } else {
        Advance(i, c, Beginning(gate.value));
      }
    }

    /** A replayed authorization has no record. */
    method BeginCall(i: nat, gate: Gate, env: Environment) returns (record: Option<nat>, ghost at: nat)
      requires Valid() && i < |requests| && requests[i].pc == Beginning(gate) && requests[i].signature.Some?
      modifies this, control, payments
      ensures Valid() && old(run) <= run
      ensures Reaches(old(requests), requests, i, if record.Some? then Verifying(gate, record.value)
              else Done(ErrorReply))
      ensures |old(run)| - 1 <= at < |run| && control.store == run[at].store
      ensures payments.tables.settlements == run[at].tables.settlements
      ensures env.moves(1) == [] ==> run[at] == old(Now())
      ensures record.Some? <==> env.choice(1).fault.NoFault? && Unspent(run[at].tables, requests[i].signature.value)
      ensures record.Some? ==>
                && record.value == |run[at].tables.intents|
                && HasAccount(payments.tables, record.value, Fresh(gate, requests[i].signature.value))
    {
      hide Inv, IsRun, InRange, Books, Lifecycle, Keeps, Begin, HasAccount;
      Interfere(i, env.moves(1));
      Present();
      ValidInv();
      at := |run| - 1;
      InvBooks(Now());
      var c := env.choice(1);
      BeginOpens(payments.tables, gate, requests[i].signature.value);
      var reply := payments.BeginPaidRequest(gate, requests[i].signature.value, c.fault);
      record := if reply.Thrown? then None else reply.value;
      Advance(i, c, if record.Some? then Verifying(gate, record.value) else Done(ErrorReply));
    }

    method CatchBlock(i: nat, gate: Gate, id: nat, settlementSucceeded: bool, env: Environment, ghost a: Account)
        returns (ghost b: Account)
      requires Valid() && i < |requests| && requests[i].pc == Failing(gate, id, settlementSucceeded)
      requires HasAccount(payments.tables, id, a)
      modifies this, control, payments
      ensures Valid() && old(run) <= run && Reaches(old(requests), requests, i, Done(ErrorReply))
      ensures HasAccount(payments.tables, id, b)
      ensures b == if env.choice(9).fault.Rollback? then a else AfterFailure(a, settlementSucceeded)
    {
      hide Inv, IsRun, InRange, Books, Lifecycle, Keeps, Fail, HasAccount;
      InterfereWith(i, env.moves(9), id, a);
      IdInRange(Now(), i);
      var c := env.choice(9);
      FailFails(payments.tables, id, settlementSucceeded, a);
      var failed := payments.FailPaidRequest(id, settlementSucceeded, c.fault);
      b := if c.fault.Rollback? then a else AfterFailure(a, settlementSucceeded);
      Advance(i, c, Done(ErrorReply));
    }

    /** The try block, with its local flag. */
    method Deliver(i: nat, gate: Gate, id: nat, env: Environment, ghost loaded: Store)
        returns (r: Attempt, ghost confirm: nat, ghost execute: nat, ghost b: Account)
      requires Valid() && i < |requests| && requests[i].pc == Verifying(gate, id) && requests[i].signature.Some?
      requires HasAccount(payments.tables, id, Fresh(gate, requests[i].signature.value))
      requires gate.deployment == requests[i].target && Sells(loaded, gate) && Lifecycle(loaded)
      modifies this, control, payments
      ensures Valid() && old(run) <= run
      ensures Reaches(old(requests), requests, i,
                match r case Replied(outcome) => Done(outcome) case Caught(s) => Failing(gate, id, s))
      ensures |old(run)| - 1 <= confirm <= execute < |run|
      ensures (forall n :: env.moves(n) == []) ==>
                && run[confirm].tables.settlements == old(payments.tables.settlements)
                && run[execute].store == old(control.store)
      ensures r == Replied(Delivered(id)) <==>
                && Settles(env, run[confirm].tables) && env.choice(7).verdict.Yes?
                && StillOnSale(loaded, run[execute].store, requests[i].target) && env.choice(8).fault.NoFault?
      ensures r == Replied(PaymentRequired) <==> env.choice(2).verdict.No? && env.choice(3).fault.NoFault?
      ensures r.Replied? && r.outcome.Delivered? ==> r.outcome.id == id
      ensures HasAccount(payments.tables, id, b)
      ensures match r
              case Replied(outcome) => Ends(env, run[confirm].tables, gate, requests[i].signature, id, outcome, b)
              case Caught(s) =>
                && Ends(env, run[confirm].tables, gate, requests[i].signature, id, ErrorReply, AfterFailure(b, s))
                && (env.choice(9).fault.Rollback? ==>
                  Ends(env, run[confirm].tables, gate, requests[i].signature, id, ErrorReply, b))
    {
      hide Valid, HasAccount, Sells, Lifecycle, StillOnSale, ActiveFor, Unused, Ends, AfterFailure, Paid;
      ghost var signature := requests[i].signature.value;
      ghost var start := Fresh(gate, signature);
      b := start;
      var settlementSucceeded := false;
      var verified := Verify(i, gate, id, env, start);
      Present();
      confirm, execute := |run| - 1, |run| - 1;
      if verified.Throws? {
        EndsUnpaid(env, run[confirm].tables, gate, signature, id, ErrorReply, b);
        return Caught(settlementSucceeded), confirm, execute, b;
      }
      if verified.No? {
        r, b := FailAndReply(i, gate, id, env, 3, PaymentRequired, start);
        EndsUnpaid(env, run[confirm].tables, gate, signature, id, PaymentRequired, start);
        EndsUnpaid(env, run[confirm].tables, gate, signature, id, ErrorReply, b);
        return r, confirm, execute, b;
      }
      var settled, transaction := Settle(i, gate, id, env, start);
      Present();
      confirm, execute := |run| - 1, |run| - 1;
      if settled.Throws? {
        EndsUnpaid(env, run[confirm].tables, gate, signature, id, ErrorReply, b);
        return Caught(settlementSucceeded), confirm, execute, b;
      }
      if settled.No? {
        r, b := FailAndReply(i, gate, id, env, 5, ErrorReply, start);
        EndsUnpaid(env, run[confirm].tables, gate, signature, id, ErrorReply, start);
        EndsUnpaid(env, run[confirm].tables, gate, signature, id, ErrorReply, b);
        return r, confirm, execute, b;
      }
      settlementSucceeded := true;
      var delivered;
      delivered, confirm, execute, b := Fulfil(i, gate, id, transaction, env, loaded, start);
      EndsPaid(env, run[confirm].tables, gate, signature, id, delivered, b);
      r := if delivered then Replied(Delivered(id)) else Caught(settlementSucceeded);
    }

    /** Its last part: once settled, confirm, execute and complete. */
    method Fulfil(i: nat, gate: Gate, id: nat, transaction: string, env: Environment, ghost loaded: Store,
        ghost a: Account)
        returns (delivered: bool, ghost confirm: nat, ghost execute: nat, ghost b: Account)
      requires Valid() && i < |requests| && requests[i].pc == Confirming(gate, id, transaction)
      requires HasAccount(payments.tables, id, a) && a.intent.status.Submitted? && !a.answered
      requires gate.deployment == requests[i].target && Sells(loaded, gate) && Lifecycle(loaded)
      modifies this, control, payments
      ensures Valid() && old(run) <= run
      ensures Reaches(old(requests), requests, i, if delivered then Done(Delivered(id)) else Failing(gate, id, true))
      ensures |old(run)| - 1 <= confirm <= execute < |run|
      ensures env.moves(6) == [] && env.moves(7) == [] ==>
                && run[confirm].tables.settlements == old(payments.tables.settlements)
                && run[execute].store == old(control.store)
      ensures delivered <==>
                && env.choice(6).fault.NoFault? && Unused(run[confirm].tables, transaction)
                && env.choice(7).verdict.Yes? && StillOnSale(loaded, run[execute].store, requests[i].target)
                && env.choice(8).fault.NoFault?
      ensures HasAccount(payments.tables, id, b) && (delivered ==> b.request.Served?)
      ensures var paid := if env.choice(6).fault.Rollback? || !Unused(run[confirm].tables, transaction) then a
                          else Paid(a, Settlement(id, transaction, gate.price));
              b == paid.(request := b.request, answered := b.answered)
    {
      hide Valid, HasAccount, Sells, Lifecycle, StillOnSale, ActiveFor, Unused;
      delivered := false;
      var confirmed, executed;
      confirmed, confirm, b := ConfirmCall(i, gate, id, transaction, env, a);
      Present();
      execute := |run| - 1;
      if !confirmed {
        return;
      }
      executed, execute := ExecuteCall(i, gate, id, env, b);
      SaleStays(loaded, run[execute].store, gate);
      if !executed {
        return;
      }
      delivered, b := CompleteCall(i, gate, id, env, b);
    }

    method Verify(i: nat, gate: Gate, id: nat, env: Environment, ghost a: Account) returns (verified: Verdict)
      requires Valid() && i < |requests| && requests[i].pc == Verifying(gate, id) && HasAccount(payments.tables, id, a)
      modifies this, control, payments
      ensures Valid() && old(run) <= run && HasAccount(payments.tables, id, a) && verified == env.choice(2).verdict
      ensures Reaches(old(requests), requests, i,
                match verified
                case Yes => Settling(gate, id)
                case No => Rejecting(gate, id)
                case Throws => Failing(gate, id, false))
      ensures env.moves(2) == [] ==>
                payments.tables.settlements == old(payments.tables.settlements) && control.store == old(control.store)
    {
      hide Inv, IsRun, InRange, Books, Lifecycle, Keeps, HasAccount;
      InterfereWith(i, env.moves(2), id, a);
      var c := env.choice(2);
      verified := c.verdict;
      Advance(i, c, match verified case Yes => Settling(gate, id) case No => Rejecting(gate, id) case Throws =>
        Failing(gate, id, false));
    }

    /** execute with the internal key: it needs the publication to be on sale still, and the plan to run. */
    method ExecuteCall(i: nat, gate: Gate, id: nat, env: Environment, ghost a: Account)
        returns (executed: bool, ghost at: nat)
      requires Valid() && i < |requests| && requests[i].pc == Executing(gate, id) && HasAccount(payments.tables, id, a)
      modifies this, control, payments
      ensures Valid() && old(run) <= run && HasAccount(payments.tables, id, a)
      ensures Reaches(old(requests), requests, i, if executed then Completing(gate, id) else Failing(gate, id, true))
      ensures |old(run)| - 1 <= at < |run| && Lifecycle(run[at].store)
      ensures env.moves(7) == [] ==> run[at].store == old(control.store)
      ensures executed <==> env.choice(7).verdict.Yes? && ActiveFor(run[at].store, gate.deployment, gate.publication)
    {
      hide Inv, IsRun, InRange, Books, Lifecycle, Keeps, Authorizes, HasAccount;
      InterfereWith(i, env.moves(7), id, a);
      at := |run| - 1;
      KeyIsLive(control.store, gate);
      var c := env.choice(7);
      executed := c.verdict.Yes? && Authorizes(control.store, gate);
      Advance(i, c, if executed then Completing(gate, id) else Failing(gate, id, true));
    }

    method CompleteCall(i: nat, gate: Gate, id: nat, env: Environment, ghost a: Account)
        returns (completed: bool, ghost b: Account)
      requires Valid() && i < |requests| && requests[i].pc == Completing(gate, id)
      requires HasAccount(payments.tables, id, a) && a.intent.status.PaymentConfirmed? && !a.answered
      modifies this, control, payments
      ensures Valid() && old(run) <= run && HasAccount(payments.tables, id, b)
      ensures Reaches(old(requests), requests, i, if completed then Done(Delivered(id)) else Failing(gate, id, true))
      ensures completed <==> env.choice(8).fault.NoFault?
      ensures b == if env.choice(8).fault.Rollback? then a else a.(request := Served, answered := true)
    {
      hide Inv, IsRun, InRange, Books, Lifecycle, Keeps, Complete, HasAccount;
      InterfereWith(i, env.moves(8), id, a);
      IdInRange(Now(), i);
      var c := env.choice(8);
      CompleteServes(payments.tables, id, a);
      var reply := payments.CompletePaidRequest(id, c.fault);
      completed := reply.Returned? && reply.value;
      b := if c.fault.Rollback? then a else a.(request := Served, answered := true);
      Advance(i, c, if completed then Done(Delivered(id)) else Failing(gate, id, true));
    }

    /** The facilitator settles, fails, or throws; only a reported success goes on. */
    method Settle(i: nat, gate: Gate, id: nat, env: Environment, ghost a: Account)
        returns (settled: Verdict, transaction: string)
      requires Valid() && i < |requests| && requests[i].pc == Settling(gate, id) && HasAccount(payments.tables, id, a)
      modifies this, control, payments
      ensures Valid() && old(run) <= run && HasAccount(payments.tables, id, a)
      ensures settled == env.choice(4).verdict && transaction == env.choice(4).transaction
      ensures Reaches(old(requests), requests, i,
                match settled
                case Yes => Confirming(gate, id, transaction)
                case No => Refusing(gate, id)
                case Throws => Failing(gate, id, false))
      ensures env.moves(4) == [] ==>
                payments.tables.settlements == old(payments.tables.settlements) && control.store == old(control.store)
    {
      hide Inv, IsRun, InRange, Books, Lifecycle, Keeps, HasAccount;
      InterfereWith(i, env.moves(4), id, a);
      HasSignature(Now(), i);
      var c := env.choice(4);
      settles := settles + [requests[i].signature.value];
      if c.verdict.Yes? {
        reported := reported + {id};
      }
      settled, transaction := c.verdict, c.transaction;
      match settled {
        case Yes => Advance(i, c, Confirming(gate, id, transaction));
        case No => Advance(i, c, Refusing(gate, id));
        case Throws => Advance(i, c, Failing(gate, id, false));
      }
    }

    method ConfirmCall(i: nat, gate: Gate, id: nat, transaction: string, env: Environment, ghost a: Account)
        returns (confirmed: bool, ghost at: nat, ghost b: Account)
      requires Valid() && i < |requests| && requests[i].pc == Confirming(gate, id, transaction)
      requires HasAccount(payments.tables, id, a) && a.intent.status.Submitted?
      modifies this, control, payments
      ensures Valid() && old(run) <= run && HasAccount(payments.tables, id, b)
      ensures Reaches(old(requests), requests, i, if confirmed then Executing(gate, id) else Failing(gate, id, true))
      ensures |old(run)| - 1 <= at < |run| && control.store == run[at].store
      ensures env.moves(6) == [] ==>
                run[at].tables.settlements == old(payments.tables.settlements) && control.store == old(control.store)
      ensures confirmed <==> env.choice(6).fault.NoFault? && Unused(run[at].tables, transaction)
      ensures b == if env.choice(6).fault.Rollback? || !Unused(run[at].tables, transaction) then a
                   else Paid(a, Settlement(id, transaction, gate.price))
    {
      hide Inv, IsRun, InRange, Books, Lifecycle, Keeps, Confirm, HasAccount;
      InterfereWith(i, env.moves(6), id, a);
      at := |run| - 1;
      IdInRange(Now(), i);
      var c := env.choice(6);
      ConfirmSettles(payments.tables, id, gate, transaction, a);
      b := if c.fault.Rollback? || !Unused(payments.tables, transaction) then a
        else Paid(a, Settlement(id, transaction, gate.price));
      var reply := payments.ConfirmPaidSettlement(id, gate, transaction, c.fault);
      confirmed := reply.Returned? && reply.value;
      Advance(i, c, if confirmed then Executing(gate, id) else Failing(gate, id, true));
    }

    /** failPaidRequest inside the try block: its own failure goes to the catch block. */
    method FailAndReply(i: nat, gate: Gate, id: nat, env: Environment, n: nat, outcome: Outcome, ghost a: Account)
        returns (r: Attempt, ghost b: Account)
      requires Valid() && i < |requests|
      requires requests[i].pc == if outcome.PaymentRequired? then Rejecting(gate, id) else Refusing(gate, id)
      requires outcome == PaymentRequired || outcome == ErrorReply
      requires HasAccount(payments.tables, id, a)
      modifies this, control, payments
      ensures Valid() && old(run) <= run && HasAccount(payments.tables, id, b)
      ensures Reaches(old(requests), requests, i,
                match r case Replied(o) => Done(o) case Caught(s) => Failing(gate, id, s))
      ensures r == if env.choice(n).fault.NoFault? then Replied(outcome) else Caught(false)
      ensures b == if env.choice(n).fault.Rollback? then a else AfterFailure(a, false)
    {
      hide Inv, IsRun, InRange, Books, Lifecycle, Keeps, Fail, HasAccount;
      InterfereWith(i, env.moves(n), id, a);
      IdInRange(Now(), i);
      var c := env.choice(n);
      FailFails(payments.tables, id, false, a);
      var failed := payments.FailPaidRequest(id, false, c.fault);
      b := if c.fault.Rollback? then a else AfterFailure(a, false);
      if failed.Thrown? {
        Advance(i, c, Failing(gate, id, false));
        return Caught(false), b;
      }
      Advance(i, c, Done(outcome));
      r := Replied(outcome);
    }
  }

  // ---------------------------------------------------------------- what decides a request

  ghost predicate Reaches(before: seq<Request>, after: seq<Request>, i: nat, pc: Pc) {
    i < |before| && i < |after| && after[i] == before[i].(pc := pc)
  }

  /** The deployment has a publication on sale. */
  ghost predicate OnSale(s: Store, d: Id) {
    exists p :: ActiveFor(s, d, p)
  }

  /** What was on sale then is on sale now. */
  ghost predicate StillOnSale(then_: Store, now: Store, d: Id) {
    exists p :: ActiveFor(then_, d, p) && ActiveFor(now, d, p)
  }

  /** No record was opened with the signature. */
  ghost predicate Unspent(t: Tables, signature: string) {
    forall n: nat | n < |t.intents| :: t.intents[n].authorization != signature
  }

  /** No payment was settled by the transaction. */
  ghost predicate Unused(t: Tables, transaction: string) {
    forall s | s in t.settlements :: s.transaction != transaction
  }

  /** A record is opened: the publication is on sale, the signature there, acceptable and new. */
  ghost predicate Opens(env: Environment, loaded: Store, begun: Tables, target: Id, signature: Option<string>) {
    && OnSale(loaded, target) && env.choice(0).fault.NoFault? && signature.Some? && env.choice(0).verdict.Yes?
    && env.choice(1).fault.NoFault? && Unspent(begun, signature.value)
  }

  /** The facilitator took the payment and the books could record it, with an answer. */
  ghost predicate Settles(env: Environment, confirming: Tables) {
    Charges(env, confirming) && env.choice(6).fault.NoFault?
  }

  /** The same, but the answer may be lost. */
  ghost predicate Charges(env: Environment, confirming: Tables) {
    && env.choice(2).verdict.Yes? && env.choice(4).verdict.Yes? && !env.choice(6).fault.Rollback?
    && Unused(confirming, env.choice(4).transaction)
  }

  function Fresh(gate: Gate, signature: string): Account {
    Account(Intent(gate, signature, Submitted), Submitted, Authorized, [], false)
  }

  function Paid(a: Account, settlement: Settlement): Account {
    a.(intent := a.intent.(status := PaymentConfirmed), attempt := PaymentConfirmed, settlements := [settlement])
  }

  function AfterFailure(a: Account, preserve: bool): Account {
    if preserve || a.intent.status.PaymentConfirmed? then a.(request := RequestFailed)
    else a.(intent := a.intent.(status := PaymentFailed), attempt := PaymentFailed, request := RequestFailed)
  }

  /** How the record of a request ends: it is settled once, at the price of the gate, exactly if the payment was
      charged; a delivered request is served; any other is failed once that could be recorded, and its payment
      with it unless the facilitator may have taken it. */
  ghost predicate Ends(env: Environment, confirming: Tables, g: Gate, signature: Option<string>, id: nat,
      outcome: Outcome, a: Account)
  {
    && a.intent.gate == g && signature == Some(a.intent.authorization)
    && (a.intent.status.PaymentConfirmed? <==> Charges(env, confirming))
    && a.settlements == (if Charges(env, confirming) then [Settlement(id, env.choice(4).transaction, g.price)] else [])
    && match outcome
       case Delivered(d) => d == id && a.request.Served?
       case _ =>
         (forall n | n == 3 || n == 5 || n == 9 :: !env.choice(n).fault.Rollback?) ==>
           && a.request.RequestFailed?
           && (a.intent.status.PaymentFailed? <==> !(env.choice(2).verdict.Yes? && env.choice(4).verdict.Yes?))
  }

  /** Without a reported settlement nothing is charged. */
  lemma EndsUnpaid(env: Environment, confirming: Tables, g: Gate, signature: string, id: nat, outcome: Outcome,
      a: Account)
    requires !(env.choice(2).verdict.Yes? && env.choice(4).verdict.Yes?) && !outcome.Delivered?
    requires a == Fresh(g, signature) || a == AfterFailure(Fresh(g, signature), false)
    ensures Ends(env, confirming, g, Some(signature), id, outcome, AfterFailure(a, false))
    ensures (exists n | n == 3 || n == 5 || n == 9 :: env.choice(n).fault.Rollback?) ==>
              Ends(env, confirming, g, Some(signature), id, outcome, a)
  {
    hide Unused;
  }

  /** With one, the payment is charged exactly if the books could record it. */
  lemma EndsPaid(env: Environment, confirming: Tables, g: Gate, signature: string, id: nat, delivered: bool, a: Account)
    requires env.choice(2).verdict.Yes? && env.choice(4).verdict.Yes? && (delivered ==> a.request.Served?)
    requires var paid := if Charges(env, confirming)
                         then Paid(Fresh(g, signature), Settlement(id, env.choice(4).transaction, g.price))
                         else Fresh(g, signature);
             a == paid.(request := a.request, answered := a.answered)
    ensures delivered ==> Ends(env, confirming, g, Some(signature), id, Delivered(id), a)
    ensures Ends(env, confirming, g, Some(signature), id, ErrorReply, AfterFailure(a, true))
    ensures env.choice(9).fault.Rollback? ==> Ends(env, confirming, g, Some(signature), id, ErrorReply, a)
  {
    hide Unused;
  }

  /** A record of the tables ends so. */
  ghost predicate Settled(env: Environment, confirming: Tables, g: Gate, signature: Option<string>, id: nat,
      outcome: Outcome, t: Tables)
  {
    exists a :: HasAccount(t, id, a) && Ends(env, confirming, g, signature, id, outcome, a)
  }

  lemma Opened(env: Environment, loaded: Store, begun: Tables, target: Id, signature: Option<string>)
    ensures Opens(env, loaded, begun, target, signature) <==>
              && OnSale(loaded, target) && env.choice(0).fault.NoFault? && signature.Some?
              && env.choice(0).verdict.Yes? && env.choice(1).fault.NoFault? && Unspent(begun, signature.value)
  {
    hide OnSale, Unspent;
  }

  lemma SaleIs(w: World, d: Id)
    requires Inv(w)
    ensures LoadGate(w.store, d).Some? <==> OnSale(w.store, d)
    ensures LoadGate(w.store, d).Some? ==>
              LoadGate(w.store, d).value.deployment == d && Sells(w.store, LoadGate(w.store, d).value)
  {
    hide Lifecycle, LoadGate, Books, Tickets;
    GateIsOnSale(w.store, d);
  }

  lemma SaleStays(then_: Store, now: Store, g: Gate)
    requires Lifecycle(then_) && Sells(then_, g)
    ensures StillOnSale(then_, now, g.deployment) <==> ActiveFor(now, g.deployment, g.publication)
  {
    hide Lifecycle;
    SoleSale(then_, g.deployment);
    assert ActiveFor(then_, g.deployment, g.publication);
  }

  lemma KeyIsLive(s: Store, g: Gate)
    requires Lifecycle(s)
    ensures Authorizes(s, g) <==> ActiveFor(s, g.deployment, g.publication)
  {
    AuthorizedIsActive(s, g);
    if ActiveFor(s, g.deployment, g.publication) {
      OnSaleHasKey(s, g.deployment, g.publication);
    }
  }

  lemma InvBooks(w: World)
    requires Inv(w)
    ensures Books(w.tables) && Lifecycle(w.store)
  {
    hide Books, Lifecycle, Tickets;
  }

  /** What a request's record looks like stays so. */
  ghost predicate Keeps(r: Request, t: Tables, u: Tables) {
    Held(r.pc).Some? ==> forall a :: HasAccount(t, Held(r.pc).value, a) ==> HasAccount(u, Held(r.pc).value, a)
  }

  lemma TurnKeeps(w: World, i: nat, j: nat, c: Choice)
    requires Inv(w) && InRange(w) && i < |w.requests| && j < |w.requests| && i != j
    ensures Keeps(w.requests[i], w.tables, Next(w, j, c).tables)
  {
    hide Inv, InRange, Next, HasAccount;
    if Held(w.requests[i].pc).Some? {
      var id := Held(w.requests[i].pc).value;
      forall a | HasAccount(w.tables, id, a)
        ensures HasAccount(Next(w, j, c).tables, id, a)
      {
        OthersKeepAccount(w, i, j, c, id, a);
      }
    }
  }

  lemma RunStarts(run: seq<World>)
    requires IsRun(run)
    ensures |run| > 0
  {
  }

  lemma InvInRange(w: World)
    requires Inv(w)
    ensures InRange(w)
  {
    hide Books, Lifecycle, Tickets;
    TicketsInRange(w);
  }

  lemma ExtendRun(run: seq<World>, v: World)
    requires IsRun(run) && Step(run[|run| - 1], v)
    ensures IsRun(run + [v])
  {
    hide Step;
    var longer := run + [v];
    forall k | 0 <= k < |longer| - 1
      ensures Step(longer[k], longer[k + 1])
    {
      if k < |run| - 1 { assert Step(run[k], run[k + 1]); }
    }
  }

  lemma NextFrame(w: World, j: nat, c: Choice)
    requires InRange(w) && j < |w.requests|
    ensures var v := Next(w, j, c);
            && Step(w, v) && v.store == w.store && |v.requests| == |w.requests|
            && forall k | 0 <= k < |w.requests| && k != j :: v.requests[k] == w.requests[k]
  {
    hide LoadGate, Authorizes, Begin, Fail, Confirm, Complete, InRange;
  }

  lemma IdInRange(w: World, i: nat)
    requires InRange(w) && i < |w.requests| && Held(w.requests[i].pc).Some?
    ensures Held(w.requests[i].pc).value < |w.tables.intents| && Shaped(w.tables)
  {
  }

  lemma HasSignature(w: World, i: nat)
    requires Inv(w) && i < |w.requests| && Held(w.requests[i].pc).Some?
    ensures w.requests[i].signature.Some?
  {
    hide Lifecycle, Books;
    assert Ticket(w, w.requests[i]);
  }

  lemma SignedBeginning(w: World, i: nat)
    requires Inv(w) && i < |w.requests| && w.requests[i].pc.Beginning?
    ensures w.requests[i].signature.Some?
  {
    hide Lifecycle, Books;
    assert Ticket(w, w.requests[i]);
  }

  lemma DeployChanges(s: Store, i: DeployInput, fault: Fault)
    ensures Changes(s, After(fault, s, Deploy(s, i).0))
  {
    hide Deploy;
  }

  lemma PublishChanges(s: Store, i: PublishInput, t: Store, r: PublishOutcome, fault: Fault)
    requires Publishes(s, i, t, r)
    ensures Changes(s, After(fault, s, t))
  {
    hide Publishes;
  }

  lemma RetireChanges(s: Store, d: Id, w: Id, p: Id, fault: Fault)
    ensures Changes(s, After(fault, s, Retire(s, d, w, p).0))
  {
    hide Retire;
  }

  lemma SuspendChanges(s: Store, d: Id, w: Id, fault: Fault)
    ensures Changes(s, After(fault, s, Suspend(s, d, w).0))
  {
    hide Suspend;
  }
}
