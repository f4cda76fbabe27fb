/** x402 delivery under concurrency (deployments/service.ts): every request is a program counter over
    transactions and facilitator calls, any of which may fail, interleaved with each other and with
    deploy, publish, retire and suspend. */
module PaidRequests {
  import opened Wrappers
  import opened Publications
  import opened Payments

  datatype Outcome = Delivered(id: nat) | PaymentRequired | ErrorReply

  /** Where executeX402Request stands: each constructor names what comes next. */
  datatype Pc =
    | LoadingGate
    | Beginning(gate: Gate)
    | Verifying(gate: Gate, id: nat)
    | Rejecting(gate: Gate, id: nat)
    | Settling(gate: Gate, id: nat)
    | Refusing(gate: Gate, id: nat)
    | Confirming(gate: Gate, id: nat, transaction: string)
    | Executing(gate: Gate, id: nat)
    | Completing(gate: Gate, id: nat)
    | Failing(gate: Gate, id: nat, preserve: bool)
    | Done(outcome: Outcome)

  datatype Request = Request(target: Id, signature: Option<string>, pc: Pc)

  /** The whole system. `settles` logs the settle calls by authorization; `reported` holds the records whose
      settle call reported success. */
  datatype World = World(store: Store, tables: Tables, requests: seq<Request>, settles: seq<string>, reported: set<nat>)

  const START := World(EMPTY, NO_PAYMENTS, [], [], {})

  /** What the environment decides about one step: how the transaction ends, and what a remote call answers. */
  datatype Verdict = Yes | No | Throws

  datatype Choice = Choice(fault: Fault, verdict: Verdict, transaction: string)

  // ---------------------------------------------------------------- one step of a request

  predicate HasActiveKey(s: Store, d: Id, p: Id) {
    exists c | c in s.credentials ::
      s.credentials[c].deployment == d && s.credentials[c].active && s.credentials[c].scope == Internal(p)
  }

  /** loadX402Gate. */
  function LoadGate(s: Store, d: Id): Option<Gate> {
    if d !in s.deployments || s.deployments[d].health.Suspended? || s.deployments[d].active.None? then None
    else
      var p := s.deployments[d].active.value;
      if p !in s.publications || !s.publications[p].active || !HasActiveKey(s, d, p) then None
      else Some(Gate(d, p, s.publications[p].price, s.publications[p].recipient))
  }

  /** loadAuthorized with the internal key of the gate. */
  predicate Authorizes(s: Store, g: Gate) {
    exists c | c in s.credentials ::
      && s.credentials[c].secret == InternalKey(g.deployment, g.publication) && s.credentials[c].active
      && s.credentials[c].deployment in s.deployments && s.deployments[s.credentials[c].deployment].health.Healthy?
  }

  function Held(pc: Pc): Option<nat> {
    match pc
    case LoadingGate | Beginning(_) => None
    case Done(outcome) => if outcome.Delivered? then Some(outcome.id) else None
    case _ => Some(pc.id)
  }

  predicate InRange(w: World) {
    && |w.tables.intents| == |w.tables.attempts| == |w.tables.requests|
    && forall i | 0 <= i < |w.requests| && Held(w.requests[i].pc).Some? ::
      Held(w.requests[i].pc).value < |w.tables.intents|
  }

  function Goto(w: World, i: nat, pc: Pc): World
    requires i < |w.requests|
  {
    w.(requests := w.requests[i := w.requests[i].(pc := pc)])
  }

  function WithTables(w: World, fault: Fault, t: Tables): World {
    w.(tables := After(fault, w.tables, t))
  }

  /** executeX402Request, one repository or facilitator call at a time. */
  function Next(w: World, i: nat, c: Choice): World
    requires InRange(w) && i < |w.requests|
  {
    var r := w.requests[i];
    match r.pc
    case LoadingGate =>
      var gate := LoadGate(w.store, r.target);
      if !c.fault.NoFault? || gate.None? then Goto(w, i, Done(ErrorReply))
      else if r.signature.None? || c.verdict.No? then Goto(w, i, Done(PaymentRequired))
      else if c.verdict.Throws? then Goto(w, i, Done(ErrorReply))
      else Goto(w, i, Beginning(gate.value))
    case Beginning(gate) =>
      if r.signature.None? then w
      else
        var begun := Begin(w.tables, gate, r.signature.value);
        Goto(WithTables(w, c.fault, begun.GetOr(w.tables)), i,
          if c.fault.NoFault? && begun.Some? then Verifying(gate, |w.tables.intents|) else Done(ErrorReply))
    case Verifying(gate, id) =>
      Goto(w, i, match c.verdict case Yes => Settling(gate, id) case No => Rejecting(gate, id) case Throws =>
        Failing(gate, id, false))
    case Rejecting(gate, id) =>
      Goto(WithTables(w, c.fault, Fail(w.tables, id, false)), i, if c.fault.NoFault? then Done(PaymentRequired)
        else Failing(gate, id, false))
    case Settling(gate, id) =>
      if r.signature.None? then w
      else
        var called := w.(settles := w.settles + [r.signature.value], reported :=
          if c.verdict.Yes? then w.reported + {id} else w.reported);
        Goto(called, i,
          match c.verdict
          case Yes => Confirming(gate, id, c.transaction)
          case No => Refusing(gate, id)
          case Throws => Failing(gate, id, false))
    case Refusing(gate, id) =>
      Goto(WithTables(w, c.fault, Fail(w.tables, id, false)), i, if c.fault.NoFault? then Done(ErrorReply)
        else Failing(gate, id, false))
    case Confirming(gate, id, transaction) =>
      var confirmed := Confirm(w.tables, id, gate, transaction);
      Goto(WithTables(w, c.fault, confirmed.GetOr(w.tables)), i,
        if c.fault.NoFault? && confirmed.Some? then Executing(gate, id) else Failing(gate, id, true))
    case Executing(gate, id) =>
      Goto(w, i, if c.verdict.Yes? && Authorizes(w.store, gate) then Completing(gate, id) else Failing(gate, id, true))
    case Completing(gate, id) =>
      var completed := Complete(w.tables, id);
      Goto(WithTables(w, c.fault, completed.GetOr(w.tables)), i,
        if c.fault.NoFault? && completed.Some? then Done(Delivered(id)) else Failing(gate, id, true))
    case Failing(gate, id, preserve) =>
      Goto(WithTables(w, c.fault, Fail(w.tables, id, preserve)), i, Done(ErrorReply))
    case Done(_) => w
  }

  /** One step of the system. */
  ghost predicate Step(w: World, v: World) {
    || (exists target, signature :: v == w.(requests := w.requests + [Request(target, signature, LoadingGate)]))
    || (InRange(w) && exists i: nat, c :: i < |w.requests| && v == Next(w, i, c))
    || (Changes(w.store, v.store) && v == w.(store := v.store))
  }

  // ---------------------------------------------------------------- the invariant

  /** The gate's price and recipient are those of its publication. */
  ghost predicate Priced(s: Store, g: Gate) {
    && g.publication in s.publications && s.publications[g.publication].deployment == g.deployment
    && s.publications[g.publication].price == g.price && s.publications[g.publication].recipient == g.recipient
  }

  /** The gate of a publication that is on sale. */
  ghost predicate Sells(s: Store, g: Gate) {
    Priced(s, g) && s.publications[g.publication].active
  }

  /** loadX402Gate finds a gate exactly when the deployment has a publication on sale, and then that one's. */
  lemma GateIsOnSale(s: Store, d: Id)
    requires Lifecycle(s)
    ensures forall g: Gate :: LoadGate(s, d) == Some(g) <==> g.deployment == d && Sells(s, g)
    ensures LoadGate(s, d).Some? <==> exists p :: ActiveFor(s, d, p)
  {
    hide Indexed;
    if p :| ActiveFor(s, d, p) {
      OnSaleHasKey(s, d, p);
      assert LoadGate(s, d) == Some(Gate(d, p, s.publications[p].price, s.publications[p].recipient));
    }
    if LoadGate(s, d).Some? {
      assert ActiveFor(s, d, s.deployments[d].active.value);
    }
    forall g: Gate | g.deployment == d && Sells(s, g)
      ensures LoadGate(s, d) == Some(g)
    {
      assert ActiveFor(s, d, g.publication);
    }
  }

  /** What the creator's transactions do to a sale. */
  lemma RetiredIsRefused(s: Store, d: Id, workspace: Id, p: Id)
    requires Lifecycle(s) && ActiveFor(s, d, p) && s.deployments[d].workspace == workspace
    ensures var (t, done) := Retire(s, d, workspace, p);
            done && LoadGate(t, d).None? && forall g: Gate | g.publication == p :: !Authorizes(t, g)
  {
    var (t, done) := Retire(s, d, workspace, p);
    RetireTakesOff(s, d, workspace, p);
    RetireKeeps(s, d, workspace, p);
    assert s.deployments[d].active == Some(p) by { OnSaleHasKey(s, d, p); }
    hide Retire;
    GateIsOnSale(t, d);
    forall g: Gate | g.publication == p
      ensures !Authorizes(t, g)
    {
      AuthorizedIsActive(t, g);
    }
    hide Lifecycle;
    assert forall q :: ActiveFor(t, d, q) ==> ActiveFor(s, d, q);
    SoleSale(s, d);
  }

  lemma SoleSale(s: Store, d: Id)
    requires Lifecycle(s)
    ensures forall p, q | ActiveFor(s, d, p) && ActiveFor(s, d, q) :: p == q
  {
    hide Indexed, Keyed;
  }

  /** What was published can be bought at its price, until it is taken off. */
  lemma PublishedIsSold(s: Store, i: PublishInput, t: Store, r: PublishOutcome)
    requires Lifecycle(s) && Publishes(s, i, t, r) && r.Published?
    ensures exists recipient ::
              && LoadGate(t, i.deployment) == Some(Gate(i.deployment, r.publication, r.price, recipient))
              && (t != s ==> recipient == i.recipient)
              && Authorizes(t, Gate(i.deployment, r.publication, r.price, recipient))
  {
    PublishPutsOn(s, i, t, r);
    PublishKeeps(s, i, t, r);
    hide Publishes, Lifecycle;
    var recipient := t.publications[r.publication].recipient;
    GateIsOnSale(t, i.deployment);
    assert Sells(t, Gate(i.deployment, r.publication, r.price, recipient));
    AuthorizedIsActive(t, Gate(i.deployment, r.publication, r.price, recipient));
  }

  /** The record that a request's authorization opened, and no other request's. */
  ghost predicate Owns(w: World, r: Request, id: nat) {
    && r.signature.Some? && r.signature.value in w.tables.proofs && w.tables.proofs[r.signature.value] == id
    && id < |w.tables.intents|
  }

  ghost predicate HasGate(w: World, g: Gate, id: nat)
    requires id < |w.tables.intents|
  {
    w.tables.intents[id].gate == g
  }

  /** What is known of a request at each point of its program. */
  ghost predicate Ticket(w: World, r: Request) {
    match r.pc
    case LoadingGate => true
    case Beginning(g) => r.signature.Some? && Priced(w.store, g)
    case Verifying(g, id) =>
      Owns(w, r, id) && HasGate(w, g, id) && w.tables.intents[id].status.Submitted? && r.signature.value !in w.settles
        && id !in w.reported
    case Rejecting(g, id) =>
      Owns(w, r, id) && HasGate(w, g, id) && w.tables.intents[id].status.Submitted? && r.signature.value !in w.settles
        && id !in w.reported
    case Settling(g, id) =>
      Owns(w, r, id) && HasGate(w, g, id) && w.tables.intents[id].status.Submitted? && r.signature.value !in w.settles
        && id !in w.reported
    case Refusing(g, id) => Owns(w, r, id) && HasGate(w, g, id) && w.tables.intents[id].status.Submitted?
      && id !in w.reported
    case Confirming(g, id, _) => Owns(w, r, id) && HasGate(w, g, id) && w.tables.intents[id].status.Submitted?
    case Executing(g, id) => Owns(w, r, id) && HasGate(w, g, id) && w.tables.intents[id].status.PaymentConfirmed?
    case Completing(g, id) => Owns(w, r, id) && HasGate(w, g, id) && w.tables.intents[id].status.PaymentConfirmed?
    case Failing(g, id, preserve) =>
      Owns(w, r, id) && HasGate(w, g, id) && (!preserve ==>
        id !in w.reported
        && !w.tables.intents[id].status.PaymentConfirmed?)
    case Done(outcome) =>
      outcome.Delivered? ==>
        && Owns(w, r, outcome.id) && w.tables.intents[outcome.id].status.PaymentConfirmed?
        && outcome.id < |w.tables.requests| && w.tables.requests[outcome.id].Served?
  }

  ghost predicate Tickets(w: World) {
    forall i | 0 <= i < |w.requests| :: Ticket(w, w.requests[i])
  }

  ghost predicate OneHolder(w: World) {
    forall i, j | 0 <= i < j < |w.requests| && Held(w.requests[i].pc).Some? && Held(w.requests[j].pc).Some? ::
      Held(w.requests[i].pc).value != Held(w.requests[j].pc).value
  }

  ghost predicate SettledOnce(w: World) {
    && (forall a | a in w.settles :: a in w.tables.proofs)
    && forall i, j | 0 <= i < j < |w.settles| :: w.settles[i] != w.settles[j]
  }

  /** A payment whose settle call reported success is never marked failed. */
  ghost predicate NeverFailed(w: World) {
    forall id | id in w.reported :: id < |w.tables.intents| && !w.tables.intents[id].status.PaymentFailed?
  }

  ghost predicate AllPriced(w: World) {
    forall k | 0 <= k < |w.tables.intents| :: Priced(w.store, w.tables.intents[k].gate)
  }

  ghost predicate Inv(w: World) {
    Lifecycle(w.store) && Books(w.tables) && Tickets(w) && OneHolder(w) && SettledOnce(w) && NeverFailed(w)
      && AllPriced(w)
  }

  lemma TicketsInRange(w: World)
    requires Books(w.tables) && Tickets(w)
    ensures InRange(w)
  {
    hide Booked, Total, SumConfirmed;
    forall i | 0 <= i < |w.requests| && Held(w.requests[i].pc).Some?
      ensures Held(w.requests[i].pc).value < |w.tables.intents|
    {
      assert Ticket(w, w.requests[i]);
    }
  }

  lemma StartInv()
    ensures Inv(START)
  {
    EmptyLifecycle();
    NoBooks();
  }

  // ---------------------------------------------------------------- steps keep it

  /** A step that touches only the record `id` (or opens it), as the other requests see it. */
  ghost predicate Elsewhere(w: World, v: World, id: nat) {
    && v.store == w.store
    && |w.tables.intents| <= |v.tables.intents| && |w.tables.requests| <= |v.tables.requests|
    && (forall n | 0 <= n < |w.tables.intents| :: v.tables.intents[n].gate == w.tables.intents[n].gate)
    && (forall n | 0 <= n < |w.tables.intents| && n != id :: v.tables.intents[n] == w.tables.intents[n])
    && (forall n | 0 <= n < |w.tables.requests| && n != id :: v.tables.requests[n] == w.tables.requests[n])
    && (forall a | a in w.tables.proofs :: a in v.tables.proofs && v.tables.proofs[a] == w.tables.proofs[a])
    && (forall n | n in v.reported :: n in w.reported || n == id)
    && (forall n | n in w.reported :: n in v.reported)
    && forall a | a in v.settles :: a in w.settles || (a in w.tables.proofs && w.tables.proofs[a] == id)
  }

  lemma TicketElsewhere(w: World, v: World, id: nat, r: Request)
    requires Elsewhere(w, v, id) && Ticket(w, r) && (Held(r.pc).Some? ==> Held(r.pc).value != id)
    ensures Ticket(v, r)
  {
  }

  lemma TicketsElsewhere(w: World, v: World, i: nat, id: nat)
    requires Tickets(w) && Elsewhere(w, v, id) && i < |w.requests| == |v.requests|
    requires forall j | 0 <= j < |w.requests| && j != i :: v.requests[j] == w.requests[j]
    requires forall j | 0 <= j < |w.requests| && j != i && Held(w.requests[j].pc).Some? ::
             Held(w.requests[j].pc).value != id
    requires Ticket(v, v.requests[i])
    ensures Tickets(v)
  {
    hide Ticket, Elsewhere;
    forall j | 0 <= j < |v.requests|
      ensures Ticket(v, v.requests[j])
    {
      if j != i {
        TicketElsewhere(w, v, id, w.requests[j]);
      }
    }
  }

  lemma OthersDiffer(w: World, i: nat, id: nat)
    requires Tickets(w) && OneHolder(w) && InRange(w) && i < |w.requests|
    requires Held(w.requests[i].pc) == Some(id) || id == |w.tables.intents|
    ensures forall j | 0 <= j < |w.requests| && j != i && Held(w.requests[j].pc).Some? ::
            Held(w.requests[j].pc).value != id
  {
    hide Ticket, Held;
    forall j | 0 <= j < |w.requests| && j != i && Held(w.requests[j].pc).Some?
      ensures Held(w.requests[j].pc).value != id
    {
      assert j < i || i < j;
    }
  }

  /** The invariant after a step of one request, from what the step did to its own record. */
  lemma Assemble(w: World, v: World, i: nat, id: nat)
    requires Inv(w) && InRange(w) && i < |w.requests| == |v.requests| && Elsewhere(w, v, id)
    requires forall j | 0 <= j < |w.requests| && j != i :: v.requests[j] == w.requests[j]
    requires Held(w.requests[i].pc) == Some(id) || id == |w.tables.intents|
    requires Held(v.requests[i].pc).Some? ==> Held(v.requests[i].pc).value == id
    requires Books(v.tables) && Ticket(v, v.requests[i]) && SettledOnce(v) && NeverFailed(v) && AllPriced(v)
    ensures Inv(v)
  {
    hide Lifecycle, Books, Ticket, Held, Elsewhere, SettledOnce, NeverFailed, AllPriced;
    OthersDiffer(w, i, id);
    TicketsElsewhere(w, v, i, id);
    SameStore(w, v, id);
    forall j, k | 0 <= j < k < |v.requests| && Held(v.requests[j].pc).Some? && Held(v.requests[k].pc).Some?
      ensures Held(v.requests[j].pc).value != Held(v.requests[k].pc).value
    {
    }
  }

  lemma SameStore(w: World, v: World, id: nat)
    requires Elsewhere(w, v, id)
    ensures v.store == w.store
  {
  }

  /** A step that leaves the tables and the settle log alone. */
  lemma QuietStep(w: World, i: nat, pc: Pc, id: nat)
    requires Inv(w) && InRange(w) && i < |w.requests|
    requires Held(w.requests[i].pc) == Some(id) || id == |w.tables.intents|
    requires Held(pc).Some? ==> Held(pc).value == id
    requires Ticket(w, w.requests[i].(pc := pc))
    ensures Inv(Goto(w, i, pc))
  {
    hide Lifecycle, Books, Held;
    var v := Goto(w, i, pc);
    assert Elsewhere(w, v, id);
    SameTicket(w, v, v.requests[i]);
    hide Ticket, Elsewhere, SettledOnce, NeverFailed, AllPriced;
    QuietRest(w, v);
    Assemble(w, v, i, id);
  }

  lemma SameTicket(w: World, v: World, r: Request)
    requires v == w.(requests := v.requests) && Ticket(w, r)
    ensures Ticket(v, r)
  {
  }

  lemma QuietRest(w: World, v: World)
    requires v == w.(requests := v.requests) && SettledOnce(w) && NeverFailed(w) && AllPriced(w)
    ensures SettledOnce(v) && NeverFailed(v) && AllPriced(v)
  {
  }

  lemma ActivePublicationPriced(s: Store, d: Id)
    requires Lifecycle(s) && LoadGate(s, d).Some?
    ensures Priced(s, LoadGate(s, d).value)
  {
    hide Indexed, Keyed;
    assert ActiveFor(s, d, s.deployments[d].active.value);
  }

  lemma LoadingKeeps(w: World, i: nat, c: Choice)
    requires Inv(w) && InRange(w) && i < |w.requests| && w.requests[i].pc.LoadingGate?
    ensures Inv(Next(w, i, c))
  {
    hide Lifecycle, Books, LoadGate, Priced;
    var r := w.requests[i];
    if LoadGate(w.store, r.target).Some? {
      ActivePublicationPriced(w.store, r.target);
    }
    QuietStep(w, i, Next(w, i, c).requests[i].pc, |w.tables.intents|);
  }

  lemma VerifyingKeeps(w: World, i: nat, c: Choice)
    requires Inv(w) && InRange(w) && i < |w.requests| && w.requests[i].pc.Verifying?
    ensures Inv(Next(w, i, c))
  {
    hide Lifecycle, Books;
    assert Ticket(w, w.requests[i]);
    QuietStep(w, i, Next(w, i, c).requests[i].pc, w.requests[i].pc.id);
  }

  lemma ExecutingKeeps(w: World, i: nat, c: Choice)
    requires Inv(w) && InRange(w) && i < |w.requests| && w.requests[i].pc.Executing?
    ensures Inv(Next(w, i, c))
  {
    hide Lifecycle, Books, Authorizes;
    assert Ticket(w, w.requests[i]);
    QuietStep(w, i, Next(w, i, c).requests[i].pc, w.requests[i].pc.id);
  }

  lemma BeginningKeeps(w: World, i: nat, c: Choice)
    requires Inv(w) && InRange(w) && i < |w.requests| && w.requests[i].pc.Beginning?
    ensures Inv(Next(w, i, c))
  {
    hide Lifecycle, Booked, Total, SumConfirmed, OneHolder;
    var r, v, id := w.requests[i], Next(w, i, c), |w.tables.intents|;
    assert Ticket(w, r);
    var begun := Begin(w.tables, r.pc.gate, r.signature.value);
    if begun.None? || c.fault.Rollback? {
      QuietStep(w, i, Done(ErrorReply), id);
    } else {
      BeginKeeps(w.tables, r.pc.gate, r.signature.value);
      BegunTicket(w, v, i, begun.value);
      BegunRest(w, v, i, begun.value);
      hide Ticket, Tickets, SettledOnce, NeverFailed, AllPriced, Elsewhere, Books, Begin, Priced;
      Assemble(w, v, i, id);
    }
  }

  /** The fresh record belongs to the request that opened it; its authorization was never settled. */
  lemma BegunTicket(w: World, v: World, i: nat, t: Tables)
    requires Books(w.tables) && SettledOnce(w) && NeverFailed(w) && i < |w.requests| == |v.requests|
    requires w.requests[i].pc.Beginning? && w.requests[i].signature.Some?
    requires Begin(w.tables, w.requests[i].pc.gate, w.requests[i].signature.value) == Some(t)
    requires v == w.(tables := t, requests := v.requests) && v.requests[i].signature == w.requests[i].signature
    requires v.requests[i].pc == Verifying(w.requests[i].pc.gate, |w.tables.intents|)
             || v.requests[i].pc == Done(ErrorReply)
    ensures Ticket(v, v.requests[i])
  {
    hide Booked, Total, SumConfirmed;
  }

  lemma BegunRest(w: World, v: World, i: nat, t: Tables)
    requires SettledOnce(w) && NeverFailed(w) && AllPriced(w) && i < |w.requests| == |v.requests|
    requires w.requests[i].pc.Beginning? && w.requests[i].signature.Some? && Priced(w.store, w.requests[i].pc.gate)
    requires Begin(w.tables, w.requests[i].pc.gate, w.requests[i].signature.value) == Some(t)
    requires v == w.(tables := t, requests := v.requests)
    ensures SettledOnce(v) && NeverFailed(v) && AllPriced(v) && Elsewhere(w, v, |w.tables.intents|)
  {
    hide Priced;
  }

  /** A transaction that changes only the status of the request's own record. */
  lemma TablesStep(w: World, t: Tables, i: nat, id: nat, pc: Pc)
    requires Inv(w) && InRange(w) && i < |w.requests| && Held(w.requests[i].pc) == Some(id) && id < |w.tables.intents|
    requires Books(t) && t.proofs == w.tables.proofs && |t.requests| == |w.tables.requests|
    requires |t.intents| == |w.tables.intents| && t.intents[id].gate == w.tables.intents[id].gate
    requires forall n | 0 <= n < |t.intents| && n != id :: t.intents[n] == w.tables.intents[n]
    requires forall n | 0 <= n < |t.requests| && n != id :: t.requests[n] == w.tables.requests[n]
    requires id in w.reported ==> !t.intents[id].status.PaymentFailed?
    requires Held(pc).Some? ==> Held(pc).value == id
    requires Ticket(w.(tables := t), w.requests[i].(pc := pc))
    ensures Inv(Goto(w.(tables := t), i, pc))
  {
    hide Lifecycle, Books, Held, OneHolder, Tickets;
    var v := Goto(w.(tables := t), i, pc);
    SameTicket(w.(tables := t), v, v.requests[i]);
    hide Ticket;
    assert SettledOnce(v) && NeverFailed(v) && AllPriced(v);
    hide SettledOnce, NeverFailed, AllPriced;
    assert Elsewhere(w, v, id);
    hide Elsewhere;
    Assemble(w, v, i, id);
  }

  /** The request fails, and its payment unless it must be preserved. */
  lemma FailStep(w: World, i: nat, id: nat, preserve: bool, fault: Fault, pc: Pc)
    requires Inv(w) && InRange(w) && i < |w.requests| && Held(w.requests[i].pc) == Some(id)
    requires Owns(w, w.requests[i], id) && (preserve
             || (id !in w.reported && !w.tables.intents[id].status.PaymentConfirmed?))
    requires pc == Done(PaymentRequired) || pc == Done(ErrorReply)
             || (pc.Failing? && !preserve && !pc.preserve && pc.id == id && HasGate(w, pc.gate, id))
    ensures Inv(Goto(WithTables(w, fault, Fail(w.tables, id, preserve)), i, pc))
  {
    hide Lifecycle, Booked, Total, SumConfirmed, OneHolder, SettledOnce, AllPriced;
    var t := Fail(w.tables, id, preserve);
    FailKeeps(w.tables, id, preserve);
    if fault.Rollback? {
      QuietStep(w, i, pc, id);
    } else {
      assert Ticket(w.(tables := t), w.requests[i].(pc := pc));
      assert id in w.reported ==> !t.intents[id].status.PaymentFailed?;
      hide Books, Ticket, NeverFailed, Tickets;
      TablesStep(w, t, i, id, pc);
    }
  }

  lemma FailingKeeps(w: World, i: nat, c: Choice)
    requires Inv(w) && InRange(w) && i < |w.requests|
    requires w.requests[i].pc.Rejecting? || w.requests[i].pc.Refusing? || w.requests[i].pc.Failing?
    ensures Inv(Next(w, i, c))
  {
    hide Lifecycle, Books, Fail, OneHolder, SettledOnce, NeverFailed, AllPriced, HasGate;
    assert Ticket(w, w.requests[i]);
    match w.requests[i].pc
    case Rejecting(gate, id) => FailStep(w, i, id, false, c.fault, if c.fault.NoFault? then Done(PaymentRequired)
      else Failing(gate, id, false));
    case Refusing(gate, id) => FailStep(w, i, id, false, c.fault, if c.fault.NoFault? then Done(ErrorReply)
      else Failing(gate, id, false));
    case Failing(gate, id, preserve) => FailStep(w, i, id, preserve, c.fault, Done(ErrorReply));
  }

  lemma SettlingKeeps(w: World, i: nat, c: Choice)
    requires Inv(w) && InRange(w) && i < |w.requests| && w.requests[i].pc.Settling?
    ensures Inv(Next(w, i, c))
  {
    hide Lifecycle, Books, OneHolder, AllPriced;
    var r, v, id := w.requests[i], Next(w, i, c), w.requests[i].pc.id;
    assert Ticket(w, r);
    assert Elsewhere(w, v, id);
    AppendDistinct(w.settles, r.signature.value);
    assert Ticket(v, v.requests[i]) && SettledOnce(v) && NeverFailed(v);
    QuietPrices(w, v);
    hide Ticket, Elsewhere, SettledOnce, NeverFailed, Next;
    Assemble(w, v, i, id);
  }

  lemma QuietPrices(w: World, v: World)
    requires v.tables == w.tables && v.store == w.store && AllPriced(w)
    ensures AllPriced(v)
  {
  }

  lemma AppendDistinct(s: seq<string>, a: string)
    requires (forall i, j | 0 <= i < j < |s| :: s[i] != s[j]) && a !in s
    ensures var t := s + [a]; forall i, j | 0 <= i < j < |t| :: t[i] != t[j]
  {
  }

  lemma ConfirmingKeeps(w: World, i: nat, c: Choice)
    requires Inv(w) && InRange(w) && i < |w.requests| && w.requests[i].pc.Confirming?
    ensures Inv(Next(w, i, c))
  {
    hide Lifecycle, Booked, Total, SumConfirmed, OneHolder, SettlementClashes, SettledOnce, AllPriced;
    var r, v := w.requests[i], Next(w, i, c);
    var gate, id, transaction := r.pc.gate, r.pc.id, r.pc.transaction;
    assert Ticket(w, r);
    var confirmed := Confirm(w.tables, id, gate, transaction);
    if confirmed.None? || c.fault.Rollback? {
      QuietStep(w, i, v.requests[i].pc, id);
    } else {
      ConfirmKeeps(w.tables, id, gate, transaction);
      assert Ticket(w.(tables := confirmed.value), r.(pc := v.requests[i].pc));
      hide Books, Ticket, NeverFailed, Tickets;
      TablesStep(w, confirmed.value, i, id, v.requests[i].pc);
    }
  }

  lemma CompletingKeeps(w: World, i: nat, c: Choice)
    requires Inv(w) && InRange(w) && i < |w.requests| && w.requests[i].pc.Completing?
    ensures Inv(Next(w, i, c))
  {
    hide Lifecycle, Booked, Total, SumConfirmed, OneHolder, SettledOnce, AllPriced;
    var r, v, id := w.requests[i], Next(w, i, c), w.requests[i].pc.id;
    assert Ticket(w, r);
    var completed := Complete(w.tables, id);
    if completed.None? || c.fault.Rollback? {
      QuietStep(w, i, v.requests[i].pc, id);
    } else {
      CompleteKeeps(w.tables, id);
      assert Ticket(w.(tables := completed.value), r.(pc := v.requests[i].pc));
      hide Books, Ticket, NeverFailed, Tickets;
      TablesStep(w, completed.value, i, id, v.requests[i].pc);
    }
  }

  lemma NextKeeps(w: World, i: nat, c: Choice)
    requires Inv(w) && InRange(w) && i < |w.requests|
    ensures Inv(Next(w, i, c))
  {
    hide Inv;
    match w.requests[i].pc
    case LoadingGate => LoadingKeeps(w, i, c);
    case Beginning(_) => BeginningKeeps(w, i, c);
    case Verifying(_, _) => VerifyingKeeps(w, i, c);
    case Settling(_, _) => SettlingKeeps(w, i, c);
    case Confirming(_, _, _) => ConfirmingKeeps(w, i, c);
    case Executing(_, _) => ExecutingKeeps(w, i, c);
    case Completing(_, _) => CompletingKeeps(w, i, c);
    case Done(_) =>
    case _ => FailingKeeps(w, i, c);
  }

  lemma ArrivalKeeps(w: World, target: Id, signature: Option<string>)
    requires Inv(w)
    ensures Inv(w.(requests := w.requests + [Request(target, signature, LoadingGate)]))
  {
    hide Lifecycle, Books, Priced;
    var v := w.(requests := w.requests + [Request(target, signature, LoadingGate)]);
    forall j | 0 <= j < |v.requests|
      ensures Ticket(v, v.requests[j])
    {
      if j < |w.requests| {
        SameTicket(w, v, w.requests[j]);
      }
    }
  }

  lemma PricedStays(s: Store, t: Store, g: Gate)
    requires Changes(s, t) && Priced(s, g)
    ensures Priced(t, g)
  {
    PricesStay(s, t, g.publication);
  }

  lemma ControlKeeps(w: World, store: Store)
    requires Inv(w) && Changes(w.store, store)
    ensures Inv(w.(store := store))
  {
    hide Lifecycle, Books, Changes, Priced;
    var v := w.(store := store);
    ChangeKeeps(w.store, store);
    forall j | 0 <= j < |v.requests|
      ensures Ticket(v, v.requests[j])
    {
      assert Ticket(w, w.requests[j]);
      if w.requests[j].pc.Beginning? {
        PricedStays(w.store, store, w.requests[j].pc.gate);
      }
    }
    forall k | 0 <= k < |v.tables.intents|
      ensures Priced(store, v.tables.intents[k].gate)
    {
      PricedStays(w.store, store, w.tables.intents[k].gate);
    }
  }

  /** Every step keeps the invariant: requests, arrivals, and the creator's transactions alike. */
  lemma StepKeeps(w: World, v: World)
    requires Inv(w) && Step(w, v)
    ensures Inv(v)
  {
    hide Lifecycle, Books, Changes, Next, SettledOnce, NeverFailed, AllPriced, OneHolder;
    TicketsInRange(w);
    if target, signature :| v == w.(requests := w.requests + [Request(target, signature, LoadingGate)]) {
      ArrivalKeeps(w, target, signature);
    } else if InRange(w) && exists i: nat, c :: i < |w.requests| && v == Next(w, i, c) {
      var i: nat, c :| i < |w.requests| && v == Next(w, i, c);
      NextKeeps(w, i, c);
    } else {
      ControlKeeps(w, v.store);
    }
  }

  /** A request's record is touched by no other request. */
  lemma OthersKeepAccount(w: World, i: nat, j: nat, c: Choice, id: nat, a: Account)
    requires Inv(w) && InRange(w) && i < |w.requests| && j < |w.requests| && i != j
    requires Held(w.requests[i].pc) == Some(id) && HasAccount(w.tables, id, a)
    ensures HasAccount(Next(w, j, c).tables, id, a)
  {
    hide Lifecycle, Tickets, HasAccount, Next, SettledOnce, NeverFailed, AllPriced, Books, InRange, Held;
    TicketAt(w, j);
    assert Held(w.requests[j].pc).Some? ==> Held(w.requests[j].pc).value != id by {
      assert i < j || j < i;
    }
    AccountInRange(w.tables, id, a);
    TurnKeepsAccount(w, j, c, id, a);
  }

  lemma TurnKeepsAccount(w: World, j: nat, c: Choice, id: nat, a: Account)
    requires Books(w.tables) && InRange(w) && j < |w.requests| && HasAccount(w.tables, id, a) && id < |w.tables.intents|
    requires Held(w.requests[j].pc).Some? ==> Held(w.requests[j].pc).value != id
    requires w.requests[j].pc.Beginning? ==> w.requests[j].signature.Some?
    requires w.requests[j].pc.Confirming? ==> !w.tables.intents[w.requests[j].pc.id].status.PaymentConfirmed?
    ensures HasAccount(Next(w, j, c).tables, id, a)
  {
    hide HasAccount, Begin, Fail, Confirm, Complete, LoadGate, Authorizes, Books;
    match w.requests[j].pc
    case Beginning(gate) => BeginOpens(w.tables, gate, w.requests[j].signature.value);
    case Rejecting(_, other) => FailKeepsAccount(w.tables, other, false, id, a);
    case Refusing(_, other) => FailKeepsAccount(w.tables, other, false, id, a);
    case Failing(_, other, preserve) => FailKeepsAccount(w.tables, other, preserve, id, a);
    case Confirming(gate, other, transaction) => ConfirmKeepsAccount(w.tables, other, gate, transaction, id, a);
    case Completing(_, other) => CompleteKeepsAccount(w.tables, other, id, a);
    case _ =>
  }

  lemma TicketAt(w: World, j: nat)
    requires Tickets(w) && Books(w.tables) && j < |w.requests|
    ensures w.requests[j].pc.Beginning? ==> w.requests[j].signature.Some?
    ensures w.requests[j].pc.Confirming? ==>
              w.requests[j].pc.id < |w.tables.intents|
                && !w.tables.intents[w.requests[j].pc.id].status.PaymentConfirmed?
  {
    hide Books;
    assert Ticket(w, w.requests[j]);
  }

  lemma AccountInRange(t: Tables, id: nat, a: Account)
    requires HasAccount(t, id, a)
    ensures id < |t.intents|
  {
  }

  lemma FailKeepsAccount(t: Tables, other: nat, preserve: bool, id: nat, a: Account)
    requires Books(t) && Shaped(t) && other < |t.intents| && other != id && HasAccount(t, id, a)
    ensures HasAccount(Fail(t, other, preserve), id, a)
  {
    FailFails(t, other, preserve, AccountOf(t, other));
  }

  lemma ConfirmKeepsAccount(t: Tables, other: nat, gate: Gate, transaction: string, id: nat, a: Account)
    requires Books(t) && Shaped(t) && other < |t.intents| && other != id && HasAccount(t, id, a)
    requires !t.intents[other].status.PaymentConfirmed?
    ensures HasAccount(Confirm(t, other, gate, transaction).GetOr(t), id, a)
  {
    hide Books, Confirm;
    ConfirmSettles(t, other, gate, transaction, AccountOf(t, other));
  }

  lemma CompleteKeepsAccount(t: Tables, other: nat, id: nat, a: Account)
    requires Shaped(t) && other < |t.intents| && other != id && HasAccount(t, id, a)
    ensures HasAccount(Complete(t, other).GetOr(t), id, a)
  {
    hide Complete;
    CompleteServes(t, other, AccountOf(t, other));
  }

  ghost predicate IsRun(run: seq<World>) {
    |run| > 0 && run[0] == START && forall k | 0 <= k < |run| - 1 :: Step(run[k], run[k + 1])
  }

  lemma {:induction false} RunKeeps(run: seq<World>, k: nat)
    requires IsRun(run) && k < |run|
    ensures Inv(run[k])
  {
    hide Inv, Step;
    if k == 0 {
      StartInv();
    } else {
      RunKeeps(run, k - 1);
      assert Step(run[k - 1], run[k - 1 + 1]);
      StepKeeps(run[k - 1], run[k]);
    }
  }

  // ---------------------------------------------------------------- what every run guarantees

  /** The record of a successful response: confirmed by exactly one settlement of its price, and served. */
  ghost predicate PaidFor(w: World, r: Request, id: nat) {
    && r.signature.Some? && id < |w.tables.intents| && w.tables.intents[id].authorization == r.signature.value
    && w.tables.intents[id].status.PaymentConfirmed? && id < |w.tables.requests| && w.tables.requests[id].Served?
    && exists transaction ::
      SettlementsOf(w.tables.settlements, id) ==
      [Settlement(id, transaction, w.tables.intents[id].gate.price)]
  }

  lemma DeliveredIsPaid(w: World, i: nat)
    requires Inv(w) && i < |w.requests| && w.requests[i].pc.Done? && w.requests[i].pc.outcome.Delivered?
    ensures PaidFor(w, w.requests[i], w.requests[i].pc.outcome.id)
  {
    hide Lifecycle, SettlementsOf, AllocationsOf, EntriesOf, Total, SumConfirmed;
    assert Ticket(w, w.requests[i]);
    assert Booked(w.tables, w.requests[i].pc.outcome.id);
  }

  lemma DeliveredOnce(w: World, i: nat, j: nat)
    requires Inv(w) && i < j < |w.requests|
    requires w.requests[i].pc.Done? && w.requests[i].pc.outcome.Delivered? && w.requests[j].pc.Done?
             && w.requests[j].pc.outcome.Delivered?
    ensures w.requests[i].signature != w.requests[j].signature
  {
    hide Lifecycle, Books;
    assert Ticket(w, w.requests[i]) && Ticket(w, w.requests[j]);
  }

  /** Paid delivery safety. In every state of every run: a successful response belongs to a payment that is
      confirmed by exactly one settlement; a PAYMENT-SIGNATURE value led to at most one successful response
      and at most one settle call. */
  lemma PaidDeliverySafety(run: seq<World>, k: nat)
    requires IsRun(run) && k < |run|
    ensures var w := run[k];
            && (forall i | 0 <= i < |w.requests| && w.requests[i].pc.Done? && w.requests[i].pc.outcome.Delivered? ::
                  PaidFor(w, w.requests[i], w.requests[i].pc.outcome.id))
            && (forall i, j | 0 <= i < j < |w.requests| && w.requests[i].pc.Done? && w.requests[i].pc.outcome.Delivered?
                              && w.requests[j].pc.Done? && w.requests[j].pc.outcome.Delivered? ::
                  w.requests[i].signature != w.requests[j].signature)
            && forall i, j | 0 <= i < j < |w.settles| :: w.settles[i] != w.settles[j]
  {
    RunKeeps(run, k);
    var w := run[k];
    assert SettledOnce(w);
    hide Inv, PaidFor, SettledOnce;
    forall i | 0 <= i < |w.requests| && w.requests[i].pc.Done? && w.requests[i].pc.outcome.Delivered?
      ensures PaidFor(w, w.requests[i], w.requests[i].pc.outcome.id)
    {
      DeliveredIsPaid(w, i);
    }
    forall i, j | 0 <= i < j < |w.requests| && w.requests[i].pc.Done? && w.requests[i].pc.outcome.Delivered?
                  && w.requests[j].pc.Done? && w.requests[j].pc.outcome.Delivered?
      ensures w.requests[i].signature != w.requests[j].signature
    {
      DeliveredOnce(w, i, j);
    }
    OnceEach(w);
  }

  lemma OnceEach(w: World)
    requires SettledOnce(w)
    ensures forall i, j | 0 <= i < j < |w.settles| :: w.settles[i] != w.settles[j]
  {
  }

  /** Ledger conservation: in every state of every run the gross sales, the creator proceeds and the prices of the
      confirmed payments add up to the same, and every payment is booked exactly as its status says. */
  lemma LedgerConservation(run: seq<World>, k: nat)
    requires IsRun(run) && k < |run|
    ensures var t := run[k].tables;
            && Total(t.allocations, GrossSale) == Total(t.allocations, CreatorProceeds) == SumConfirmed(t.intents)
            && (forall id: nat | id < |t.intents| :: Booked(t, id))
            && forall id: nat | id < |t.intents| :: Priced(run[k].store, t.intents[id].gate)
  {
    hide Lifecycle, Booked, Total, SumConfirmed, Tickets, Priced;
    RunKeeps(run, k);
  }

  /** What a step may do to a record: a confirmed payment stays confirmed, a reported one stays reported. */
  ghost predicate Monotone(w: World, v: World) {
    && |w.tables.intents| <= |v.tables.intents| && w.reported <= v.reported
    && forall n | 0 <= n < |w.tables.intents| ::
         && v.tables.intents[n].gate == w.tables.intents[n].gate
           && v.tables.intents[n].authorization == w.tables.intents[n].authorization
         && (w.tables.intents[n].status.PaymentConfirmed? ==> v.tables.intents[n].status.PaymentConfirmed?)
  }

  lemma NextMonotone(w: World, i: nat, c: Choice)
    requires InRange(w) && i < |w.requests|
    ensures Monotone(w, Next(w, i, c))
  {
    hide LoadGate, Authorizes, SettlementClashes;
  }

  lemma StepMonotone(w: World, v: World)
    requires Step(w, v)
    ensures Monotone(w, v)
  {
    hide Changes, Next;
    if InRange(w) && exists i: nat, c :: i < |w.requests| && v == Next(w, i, c) {
      var i: nat, c :| i < |w.requests| && v == Next(w, i, c);
      NextMonotone(w, i, c);
    }
  }

  lemma {:induction false} RunMonotone(run: seq<World>, k: nat, l: nat)
    requires IsRun(run) && k <= l < |run|
    ensures Monotone(run[k], run[l])
  {
    hide Step;
    if k < l {
      RunMonotone(run, k, l - 1);
      assert Step(run[l - 1], run[l - 1 + 1]);
      StepMonotone(run[l - 1], run[l]);
    }
  }

  /** Confirmed is absorbing, and a payment whose settle call reported success is never marked failed again. */
  lemma PaymentsOnlyMoveForward(run: seq<World>, k: nat, l: nat, id: nat)
    requires IsRun(run) && k <= l < |run| && id < |run[k].tables.intents|
    ensures id < |run[l].tables.intents|
    ensures run[k].tables.intents[id].status.PaymentConfirmed? ==> run[l].tables.intents[id].status.PaymentConfirmed?
    ensures id in run[k].reported ==> !run[l].tables.intents[id].status.PaymentFailed?
  {
    hide IsRun, Lifecycle, Books, Tickets;
    RunMonotone(run, k, l);
    RunKeeps(run, l);
  }

  // ---------------------------------------------------------------- delivery and the creator's transactions

  /** Data is produced for a payment only while its publication is the active one of a healthy deployment. */
  lemma ExecutesOnlyWhilePublished(w: World, i: nat, c: Choice)
    requires Inv(w) && InRange(w) && i < |w.requests| && w.requests[i].pc.Executing?
             && Next(w, i, c).requests[i].pc.Completing?
    ensures var g := w.requests[i].pc.gate;
            && g.deployment in w.store.deployments && w.store.deployments[g.deployment].health.Healthy?
            && w.store.deployments[g.deployment].active == Some(g.publication)
              && ActiveFor(w.store, g.deployment, g.publication)
  {
    hide Books, Tickets;
    AuthorizedIsActive(w.store, w.requests[i].pc.gate);
  }

  lemma AuthorizedIsActive(s: Store, g: Gate)
    requires Lifecycle(s)
    ensures Authorizes(s, g) <==>
              && ActiveFor(s, g.deployment, g.publication)
              && g.deployment in s.deployments && s.deployments[g.deployment].active == Some(g.publication)
  {
    if Authorizes(s, g) {
      var c :| c in s.credentials && s.credentials[c].secret == InternalKey(g.deployment, g.publication)
        && s.credentials[c].active;
      assert s.credentials[c].scope.Internal?;
    }
    if ActiveFor(s, g.deployment, g.publication) {
      var c :| InternalFor(s, g.publication, c);
    }
  }

  /** Paid but not delivered: once the deployment is suspended after the payment was confirmed, whatever the
      environment answers, the request fails without delivering. */
  lemma SuspensionAfterPayment(w: World, i: nat, workspace: Id, c: Choice)
    requires Inv(w) && i < |w.requests| && w.requests[i].pc.Executing?
    requires var g := w.requests[i].pc.gate;
             g.deployment in w.store.deployments
             && w.store.deployments[g.deployment].workspace == workspace
    ensures var g := w.requests[i].pc.gate;
            var suspended := w.(store := Suspend(w.store, g.deployment, workspace).0);
            && Step(w, suspended) && InRange(suspended)
            && Next(suspended, i, c) == Goto(suspended, i, Failing(g, w.requests[i].pc.id, true))
  {
    hide Books, Lifecycle, Suspend, Tickets;
    var g := w.requests[i].pc.gate;
    TicketsInRange(w);
    Unpublished(w.store, g, workspace);
    assert Changes(w.store, Suspend(w.store, g.deployment, workspace).0);
  }

  /** The request then ends in an error, and its payment stays confirmed. */
  lemma FailurePreservesPayment(w: World, i: nat, c: Choice)
    requires InRange(w) && i < |w.requests| && w.requests[i].pc.Failing? && w.requests[i].pc.preserve
    ensures Next(w, i, c).requests[i].pc == Done(ErrorReply)
    ensures var id := w.requests[i].pc.id;
            id < |Next(w, i, c).tables.intents|
            && Next(w, i, c).tables.intents[id] == w.tables.intents[id]
  {
  }

  lemma Unpublished(s: Store, g: Gate, workspace: Id)
    requires Lifecycle(s) && g.deployment in s.deployments && s.deployments[g.deployment].workspace == workspace
    ensures !Authorizes(Suspend(s, g.deployment, workspace).0, g)
  {
    SuspendKeeps(s, g.deployment, workspace);
    AuthorizedIsActive(Suspend(s, g.deployment, workspace).0, g);
  }
}
