/** Deployments, x402 publications and their credentials (deployments/postgres-repository.ts): each
    repository call is one transaction on these tables. */
module Publications {
  import opened Wrappers

  type Id = string

  datatype Health = Healthy | Suspended

  datatype Deployment = Deployment(workspace: Id, product: Id, slug: string, version: Id, health: Health,
      active: Option<Id>)

  datatype Publication = Publication(deployment: Id, price: nat, recipient: string, active: bool)

  /** An API key: one issued to a person, or the internal one derived from a deployment and its publication. */
  datatype Secret = Issued(key: string) | InternalKey(deployment: Id, publication: Id)

  datatype Scope = External | Internal(publication: Id)

  datatype Credential = Credential(deployment: Id, scope: Scope, secret: Secret, active: bool)

  datatype CommandKey = CommandKey(actor: Id, workspace: Id, idempotencyKey: string)

  datatype Command = Command(fingerprint: string, subject: Id)

  /** The tables, with the unique index from products to deployments. */
  datatype Store = Store(
    deployments: map<Id, Deployment>,
    byProduct: map<Id, Id>,
    publications: map<Id, Publication>,
    credentials: map<Id, Credential>,
    commands: map<CommandKey, Command>
  )

  const EMPTY := Store(map[], map[], map[], map[], map[])

  /** How a transaction can end besides its own outcome: undone by an error, or committed with the reply lost. */
  datatype Fault = NoFault | Rollback | LostReply

  datatype Reply<T> = Returned(value: T) | Thrown

  function After<S>(fault: Fault, before: S, after: S): S {
    if fault.Rollback? then before else after
  }

  function Answered<T>(fault: Fault, value: T): Reply<T> {
    if fault.NoFault? then Returned(value) else Thrown
  }

  // ---------------------------------------------------------------- deploy

  datatype DeployInput = DeployInput(
    workspace: Id, product: Id, actor: Id, slug: string, idempotencyKey: string, fingerprint: string,
    freshId: Id, credentialId: Id, key: string, ready: Option<Id>
  )

  datatype DeployOutcome =
    | Deployed(id: Id)
    | Replayed(id: Id, reported: Health)
    | CommandConflict
    | DeployError(code: string)

  predicate SlugTaken(s: Store, workspace: Id, slug: string, except: Id) {
    exists d | d in s.deployments :: d != except && s.deployments[d].workspace == workspace
      && s.deployments[d].slug == slug
  }

  predicate SecretUsed(s: Store, secret: Secret) {
    exists c | c in s.credentials :: s.credentials[c].secret == secret
  }

  function DeployTarget(s: Store, i: DeployInput): Id {
    if i.product in s.byProduct then s.byProduct[i.product] else i.freshId
  }

  function KeyOf(i: DeployInput): CommandKey {
    CommandKey(i.actor, i.workspace, i.idempotencyKey)
  }

  /** The upserted deployment: a suspended one becomes healthy again, an active publication is kept. */
  function Upserted(s: Store, i: DeployInput, version: Id): Deployment {
    var id := DeployTarget(s, i);
    if id in s.deployments then s.deployments[id].(slug := i.slug, version := version, health := Healthy)
    else Deployment(i.workspace, i.product, i.slug, version, Healthy, None)
  }

  function Deploy(s: Store, i: DeployInput): (Store, DeployOutcome) {
    var id := DeployTarget(s, i);
    if i.ready.None? then (s, DeployError("READY_VERSION_NOT_FOUND"))
    else if KeyOf(i) in s.commands then
      var c := s.commands[KeyOf(i)];
      if c.fingerprint != i.fingerprint || c.subject != id
         || !(exists k | k in s.credentials ::
           s.credentials[k].deployment == id
           && s.credentials[k].secret == Issued(i.key))
      then (s, CommandConflict) else (s, Replayed(id, Healthy))
    else if i.product !in s.byProduct && i.freshId in s.deployments then (s, DeployError("DUPLICATE_ID"))
    else if SlugTaken(s, Upserted(s, i, i.ready.value).workspace, i.slug, id)
      then (s, DeployError("DEPLOYMENT_ALIAS_CONFLICT"))
    else if i.credentialId in s.credentials
      || SecretUsed(s, Issued(i.key)) then (s, DeployError("DUPLICATE_CREDENTIAL"))
    else
      (Store(
         s.deployments[id := Upserted(s, i, i.ready.value)],
         s.byProduct[i.product := id],
         s.publications,
         s.credentials[i.credentialId := Credential(id, External, Issued(i.key), true)],
         s.commands[KeyOf(i) := Command(i.fingerprint, id)]),
       Deployed(id))
  }

  // ---------------------------------------------------------------- publish, retire, suspend

  datatype PublishInput = PublishInput(
    deployment: Id, workspace: Id, product: Id, version: Id, price: nat, recipient: string, publicationId: Id,
      credentialId: Id
  )

  datatype PublishOutcome = Published(publication: Id, price: nat) | PublishError(code: string)

  predicate Publishable(s: Store, i: PublishInput) {
    && i.deployment in s.deployments
    && var d := s.deployments[i.deployment];
       d.workspace == i.workspace && d.product == i.product && d.version == i.version && d.health.Healthy?
  }

  ghost predicate ActiveFor(s: Store, deployment: Id, p: Id) {
    p in s.publications && s.publications[p].deployment == deployment && s.publications[p].active
  }

  /** The row a publication inserts, with its internal credential and the pointer to it. */
  function WithPublication(s: Store, i: PublishInput): Store
    requires i.deployment in s.deployments
  {
    s.(
      publications := s.publications[i.publicationId := Publication(i.deployment, i.price, i.recipient, true)],
      credentials := s.credentials[i.credentialId :=
        Credential(i.deployment, Internal(i.publicationId), InternalKey(i.deployment, i.publicationId), true)],
      deployments := s.deployments[i.deployment := s.deployments[i.deployment].(active := Some(i.publicationId))]
    )
  }

  predicate PublishClashes(s: Store, i: PublishInput) {
    i.publicationId in s.publications || i.credentialId in s.credentials
      || SecretUsed(s, InternalKey(i.deployment, i.publicationId))
  }

  /** Everything publishX402 may do to the tables: refuse, keep the publication that is already active, or add one. */
  ghost predicate Publishes(s: Store, i: PublishInput, t: Store, r: PublishOutcome) {
    if !Publishable(s, i) then t == s && r == PublishError("X402_PUBLICATION_PREREQUISITES_MISSING")
    else if exists p :: ActiveFor(s, i.deployment, p) then
      t == s && r.Published? && ActiveFor(s, i.deployment, r.publication)
        && r.price == s.publications[r.publication].price
    else if PublishClashes(s, i) then t == s && r == PublishError("DUPLICATE_ID")
    else t == WithPublication(s, i) && r == Published(i.publicationId, i.price)
  }

  function RetireRow(p: Publication): Publication {
    p.(active := false)
  }

  function RevokeIf(c: Credential, gone: bool): Credential {
    if gone then c.(active := false) else c
  }

  function Retire(s: Store, deployment: Id, workspace: Id, publication: Id): (Store, bool) {
    if deployment !in s.deployments || s.deployments[deployment].workspace != workspace
       || publication !in s.publications || s.publications[publication].deployment != deployment
    then (s, false)
    else
      var d := s.deployments[deployment];
      (s.(
         deployments := if d.active == Some(publication) then s.deployments[deployment := d.(active := None)]
           else s.deployments,
         publications := s.publications[publication := RetireRow(s.publications[publication])],
         credentials := map c | c in s.credentials ::
           RevokeIf(s.credentials[c], s.credentials[c].deployment == deployment
             && s.credentials[c].scope == Internal(publication))),
       true)
  }

  function Suspend(s: Store, deployment: Id, workspace: Id): (Store, bool) {
    if deployment !in s.deployments || s.deployments[deployment].workspace != workspace then (s, false)
    else
      (s.(
         deployments := s.deployments[deployment := s.deployments[deployment].(health := Suspended, active := None)],
         publications := map p | p in s.publications ::
           if s.publications[p].deployment == deployment then RetireRow(s.publications[p]) else s.publications[p],
         credentials := map c | c in s.credentials ::
           RevokeIf(s.credentials[c], s.credentials[c].deployment == deployment)),
       true)
  }

  // ---------------------------------------------------------------- the lifecycle invariant

  /** The unique index is exactly the products of the deployments. */
  ghost predicate Indexed(s: Store) {
    && (forall p | p in s.byProduct :: s.byProduct[p] in s.deployments && s.deployments[s.byProduct[p]].product == p)
    && forall d | d in s.deployments ::
      s.deployments[d].product in s.byProduct
      && s.byProduct[s.deployments[d].product] == d
  }

  /** The active pointer of a deployment and the active publication are the same fact; it needs a healthy deployment. */
  ghost predicate Pointed(s: Store) {
    && (forall d | d in s.deployments && s.deployments[d].active.Some? ::
          ActiveFor(s, d, s.deployments[d].active.value) && s.deployments[d].health.Healthy?)
    && forall p | p in s.publications && s.publications[p].active ::
         var d := s.publications[p].deployment; d in s.deployments && s.deployments[d].active == Some(p)
  }

  predicate InternalFor(s: Store, p: Id, c: Id) {
    c in s.credentials && s.credentials[c].scope == Internal(p)
  }

  /** Every credential belongs to a deployment, an active one to a healthy deployment; an internal one is derived
      from its publication and active exactly with it. */
  ghost predicate Owned(s: Store) {
    && (forall c | c in s.credentials :: s.credentials[c].deployment in s.deployments)
    && (forall c | c in s.credentials && s.credentials[c].active ::
      s.deployments[s.credentials[c].deployment].health.Healthy?)
    && (forall c | c in s.credentials && s.credentials[c].scope.Internal? ::
          var p := s.credentials[c].scope.publication;
          && p in s.publications && s.publications[p].deployment == s.credentials[c].deployment
          && s.credentials[c].secret == InternalKey(s.credentials[c].deployment, p)
          && s.credentials[c].active == s.publications[p].active)
    && forall c | c in s.credentials && s.credentials[c].scope.External? :: s.credentials[c].secret.Issued?
  }

  /** Every publication has exactly one internal credential. */
  ghost predicate OneKey(s: Store) {
    && (forall p | p in s.publications :: exists c :: InternalFor(s, p, c))
    && forall p, b, c | InternalFor(s, p, b) && InternalFor(s, p, c) :: b == c
  }

  ghost predicate Keyed(s: Store) {
    Owned(s) && OneKey(s)
  }

  ghost predicate Lifecycle(s: Store) {
    Indexed(s) && Pointed(s) && Keyed(s)
  }

  lemma EmptyLifecycle()
    ensures Lifecycle(EMPTY)
  {
  }

  lemma DeployIndexed(s: Store, i: DeployInput)
    requires Indexed(s)
    ensures Indexed(Deploy(s, i).0)
  {
  }

  lemma DeployPointed(s: Store, i: DeployInput)
    requires Indexed(s) && Pointed(s)
    ensures Pointed(Deploy(s, i).0)
  {
    var t := Deploy(s, i).0;
    forall d | d in t.deployments && t.deployments[d].active.Some?
      ensures ActiveFor(t, d, t.deployments[d].active.value) && t.deployments[d].health.Healthy?
    {
      assert ActiveFor(s, d, s.deployments[d].active.value);
    }
  }

  lemma DeployRows(s: Store, i: DeployInput)
    ensures var (t, r) := Deploy(s, i);
            r.Deployed? ==>
              && i.credentialId !in s.credentials && t.publications == s.publications
              && t.credentials == s.credentials[i.credentialId :=
                Credential(DeployTarget(s, i), External, Issued(i.key), true)]
              && t.deployments.Keys == s.deployments.Keys + {DeployTarget(s, i)}
                && t.deployments[DeployTarget(s, i)].health.Healthy?
              && forall d | d in s.deployments && d != DeployTarget(s, i) :: t.deployments[d] == s.deployments[d]
    ensures !Deploy(s, i).1.Deployed? ==> Deploy(s, i).0 == s
  {
  }

  lemma DeployKeyed(s: Store, i: DeployInput)
    requires Indexed(s) && Keyed(s)
    ensures Keyed(Deploy(s, i).0)
  {
    hide Deploy, DeployTarget, OneKey;
    DeployRows(s, i);
    var t := Deploy(s, i).0;
    if Deploy(s, i).1.Deployed? {
      AddedKeys(s, t, "", i.credentialId);
    }
  }

  /** Credentials that were there keep their publication; at most one new one is for p. */
  lemma AddedKeys(s: Store, t: Store, publication: Id, credential: Id)
    requires OneKey(s) && s.publications.Keys <= t.publications.Keys && credential !in s.credentials
    requires forall c | c in s.credentials && s.credentials[c].scope.Internal? ::
             s.credentials[c].scope.publication in s.publications
    requires t.credentials.Keys == s.credentials.Keys + {credential}
             && forall c | c in s.credentials :: t.credentials[c] == s.credentials[c]
    requires t.credentials[credential].scope.Internal? ==>
               t.credentials[credential].scope == Internal(publication) && publication !in s.publications
    requires forall p | p in t.publications && p !in s.publications ::
             p == publication
             && t.credentials[credential].scope == Internal(publication)
    ensures OneKey(t)
  {
    forall p | p in t.publications
      ensures exists c :: InternalFor(t, p, c)
    {
      if p in s.publications {
        var c :| InternalFor(s, p, c);
        assert InternalFor(t, p, c);
      } else {
        assert InternalFor(t, p, credential);
      }
    }
    forall p, b, c | InternalFor(t, p, b) && InternalFor(t, p, c)
      ensures b == c
    {
      if b != credential && c != credential {
        assert InternalFor(s, p, b) && InternalFor(s, p, c);
      }
    }
  }

  lemma DeployKeeps(s: Store, i: DeployInput)
    requires Lifecycle(s)
    ensures Lifecycle(Deploy(s, i).0)
  {
    hide Indexed, Pointed, Keyed, Deploy;
    DeployIndexed(s, i);
    DeployPointed(s, i);
    DeployKeyed(s, i);
  }

  lemma PublishPointed(s: Store, i: PublishInput)
    requires Indexed(s) && Pointed(s) && Publishable(s, i) && i.publicationId !in s.publications
    requires !exists p :: ActiveFor(s, i.deployment, p)
    ensures Indexed(WithPublication(s, i)) && Pointed(WithPublication(s, i))
  {
    var t := WithPublication(s, i);
    forall d | d in t.deployments && t.deployments[d].active.Some?
      ensures ActiveFor(t, d, t.deployments[d].active.value) && t.deployments[d].health.Healthy?
    {
      if d != i.deployment {
        assert ActiveFor(s, d, s.deployments[d].active.value);
      }
    }
    forall p | p in t.publications && t.publications[p].active
      ensures t.publications[p].deployment in t.deployments
              && t.deployments[t.publications[p].deployment].active == Some(p)
    {
      if p != i.publicationId {
        assert ActiveFor(s, s.publications[p].deployment, p);
      }
    }
  }

  lemma PublishRows(s: Store, i: PublishInput)
    requires i.deployment in s.deployments
    ensures var t := WithPublication(s, i);
            && t.deployments.Keys == s.deployments.Keys
            && (forall d | d in s.deployments :: t.deployments[d].health == s.deployments[d].health)
            && t.publications == s.publications[i.publicationId :=
              Publication(i.deployment, i.price, i.recipient, true)]
            && t.credentials == s.credentials[i.credentialId :=
                 Credential(i.deployment, Internal(i.publicationId), InternalKey(i.deployment, i.publicationId), true)]
  {
  }

  lemma PublishOwned(s: Store, i: PublishInput)
    requires Owned(s) && Publishable(s, i) && i.publicationId !in s.publications && i.credentialId !in s.credentials
    ensures Owned(WithPublication(s, i))
  {
    hide WithPublication;
    PublishRows(s, i);
  }

  lemma PublishKeyed(s: Store, i: PublishInput)
    requires Keyed(s) && Publishable(s, i) && i.publicationId !in s.publications && i.credentialId !in s.credentials
    ensures Keyed(WithPublication(s, i))
  {
    PublishOwned(s, i);
    PublishRows(s, i);
    InternalsOwned(s);
    hide WithPublication, Owned, Publishable;
    AddedKeys(s, WithPublication(s, i), i.publicationId, i.credentialId);
  }

  lemma InternalsOwned(s: Store)
    requires Owned(s)
    ensures forall c | c in s.credentials && s.credentials[c].scope.Internal? ::
            s.credentials[c].scope.publication in s.publications
  {
  }

  lemma PublishKeeps(s: Store, i: PublishInput, t: Store, r: PublishOutcome)
    requires Lifecycle(s) && Publishes(s, i, t, r)
    ensures Lifecycle(t)
  {
    hide Indexed, Pointed, Keyed, WithPublication, ActiveFor;
    if t != s {
      PublishPointed(s, i);
      PublishKeyed(s, i);
    }
  }

  lemma SameKeys(s: Store, t: Store)
    requires OneKey(s) && s.publications.Keys == t.publications.Keys && s.credentials.Keys == t.credentials.Keys
    requires forall c | c in s.credentials :: t.credentials[c].scope == s.credentials[c].scope
    ensures OneKey(t)
  {
    assert forall p, c :: InternalFor(t, p, c) <==> InternalFor(s, p, c);
    forall p | p in t.publications
      ensures exists c :: InternalFor(t, p, c)
    {
      var c :| InternalFor(s, p, c);
      assert InternalFor(t, p, c);
    }
  }

  /** Deactivating publications and exactly their internal credentials, and any others, keeps the keys in order. */
  lemma FewerKeys(s: Store, t: Store)
    requires Keyed(s) && s.credentials.Keys == t.credentials.Keys && s.publications.Keys == t.publications.Keys
             && s.deployments.Keys == t.deployments.Keys
    requires forall c | c in s.credentials ::
               t.credentials[c] == s.credentials[c] || t.credentials[c] == s.credentials[c].(active := false)
    requires forall p | p in s.publications ::
             t.publications[p] == s.publications[p]
             || t.publications[p] == RetireRow(s.publications[p])
    requires forall c | c in s.credentials && s.credentials[c].scope.Internal?
             && s.credentials[c].scope.publication in s.publications ::
               t.credentials[c].active == t.publications[s.credentials[c].scope.publication].active
    requires forall c | c in t.credentials && t.credentials[c].active && s.credentials[c].deployment in t.deployments ::
               t.deployments[s.credentials[c].deployment].health.Healthy?
    ensures Keyed(t)
  {
    hide OneKey;
    SameKeys(s, t);
  }

  lemma RetirePointed(s: Store, deployment: Id, workspace: Id, publication: Id)
    requires Indexed(s) && Pointed(s)
    ensures var t := Retire(s, deployment, workspace, publication).0; Indexed(t) && Pointed(t)
  {
    var t := Retire(s, deployment, workspace, publication).0;
    forall d | d in t.deployments && t.deployments[d].active.Some?
      ensures ActiveFor(t, d, t.deployments[d].active.value) && t.deployments[d].health.Healthy?
    {
      assert ActiveFor(s, d, s.deployments[d].active.value);
    }
  }

  lemma RetireKeyed(s: Store, deployment: Id, workspace: Id, publication: Id)
    requires Keyed(s)
    ensures Keyed(Retire(s, deployment, workspace, publication).0)
  {
    var t := Retire(s, deployment, workspace, publication).0;
    if t != s {
      FewerKeys(s, t);
    }
  }

  lemma RetireKeeps(s: Store, deployment: Id, workspace: Id, publication: Id)
    requires Lifecycle(s)
    ensures Lifecycle(Retire(s, deployment, workspace, publication).0)
  {
    hide Indexed, Pointed, Keyed, Retire;
    RetirePointed(s, deployment, workspace, publication);
    RetireKeyed(s, deployment, workspace, publication);
  }

  lemma SuspendPointed(s: Store, deployment: Id, workspace: Id)
    requires Indexed(s) && Pointed(s)
    ensures var t := Suspend(s, deployment, workspace).0; Indexed(t) && Pointed(t)
  {
    var t := Suspend(s, deployment, workspace).0;
    forall d | d in t.deployments && t.deployments[d].active.Some?
      ensures ActiveFor(t, d, t.deployments[d].active.value) && t.deployments[d].health.Healthy?
    {
      assert ActiveFor(s, d, s.deployments[d].active.value);
    }
  }

  lemma SuspendKeyed(s: Store, deployment: Id, workspace: Id)
    requires Keyed(s)
    ensures Keyed(Suspend(s, deployment, workspace).0)
  {
    var t := Suspend(s, deployment, workspace).0;
    if t != s {
      FewerKeys(s, t);
    }
  }

  lemma SuspendKeeps(s: Store, deployment: Id, workspace: Id)
    requires Lifecycle(s)
    ensures Lifecycle(Suspend(s, deployment, workspace).0)
  {
    hide Indexed, Pointed, Keyed, Suspend;
    SuspendPointed(s, deployment, workspace);
    SuspendKeyed(s, deployment, workspace);
  }

  /** What the invariant says about one deployment. */
  lemma LifecycleSays(s: Store, d: Id)
    requires Lifecycle(s) && d in s.deployments
    ensures forall p, q | ActiveFor(s, d, p) && ActiveFor(s, d, q) :: p == q
    ensures s.deployments[d].active.Some? <==> exists p :: ActiveFor(s, d, p)
    ensures forall p | ActiveFor(s, d, p) ::
              && s.deployments[d].active == Some(p) && s.deployments[d].health.Healthy?
              && exists c ::
                InternalFor(s, p, c) && s.credentials[c].active
                && forall b | InternalFor(s, p, b) :: b == c
    ensures s.deployments[d].health.Suspended? ==>
              (forall p :: !ActiveFor(s, d, p)) && forall c | c in s.credentials && s.credentials[c].deployment == d ::
                !s.credentials[c].active
  {
    forall p | ActiveFor(s, d, p)
      ensures exists c :: InternalFor(s, p, c) && s.credentials[c].active && forall b | InternalFor(s, p, b) :: b == c
    {
      var c :| InternalFor(s, p, c);
    }
    if s.deployments[d].active.Some? {
      assert ActiveFor(s, d, s.deployments[d].active.value);
    }
  }

  // ---------------------------------------------------------------- what each transaction does

  /** A publication that is out of sale: not active, not pointed to, and without a live key. */
  ghost predicate OffSale(s: Store, p: Id) {
    && (p in s.publications ==> !s.publications[p].active)
    && (forall d | d in s.deployments :: s.deployments[d].active != Some(p))
    && forall c | c in s.credentials && s.credentials[c].active :: s.credentials[c].scope != Internal(p)
  }

  /** The rows that do not belong to a publication are as before, but for a pointer to it. */
  ghost predicate OnlyTakesOff(s: Store, t: Store, p: Id) {
    && t.byProduct == s.byProduct && t.commands == s.commands
    && t.publications.Keys == s.publications.Keys && t.credentials.Keys == s.credentials.Keys
    && t.deployments.Keys == s.deployments.Keys
    && (forall q | q in s.publications :: t.publications[q] == s.publications[q].(active := t.publications[q].active))
    && (forall q | q in s.publications && q != p :: t.publications[q].active == s.publications[q].active)
    && (forall c | c in s.credentials :: t.credentials[c] == s.credentials[c].(active := t.credentials[c].active))
    && (forall c | c in s.credentials && s.credentials[c].scope != Internal(p) ::
          t.credentials[c].active == s.credentials[c].active)
    && (forall d | d in s.deployments :: t.deployments[d] == s.deployments[d].(active := t.deployments[d].active))
    && forall d | d in s.deployments && s.deployments[d].active != Some(p) ::
         t.deployments[d].active == s.deployments[d].active
  }

  /** Retiring answers true exactly for a publication of that deployment of that workspace, which is then off sale
      for good: every other row stays. Otherwise nothing happens. */
  lemma RetireTakesOff(s: Store, deployment: Id, workspace: Id, publication: Id)
    requires Lifecycle(s)
    ensures var (t, done) := Retire(s, deployment, workspace, publication);
            && (done <==>
                  && deployment in s.deployments && s.deployments[deployment].workspace == workspace
                  && publication in s.publications && s.publications[publication].deployment == deployment)
            && (done ==> OffSale(t, publication) && OnlyTakesOff(s, t, publication))
            && (!done ==> t == s)
  {
    hide Indexed, OneKey;
    var (t, done) := Retire(s, deployment, workspace, publication);
    if done {
      forall d | d in t.deployments
        ensures t.deployments[d].active != Some(publication)
      {
        if s.deployments[d].active == Some(publication) {
          assert ActiveFor(s, d, publication);
        }
      }
    }
  }

  /** Suspending answers true exactly for a deployment of that workspace. It is then suspended, with everything of
      it off sale and all its keys dead, but keeps its version and slug; no other deployment notices. */
  lemma SuspendTakesDown(s: Store, deployment: Id, workspace: Id)
    requires Lifecycle(s)
    ensures var (t, done) := Suspend(s, deployment, workspace);
            && (done <==> deployment in s.deployments && s.deployments[deployment].workspace == workspace)
            && (!done ==> t == s)
            && t.byProduct == s.byProduct && t.commands == s.commands && t.deployments.Keys == s.deployments.Keys
            && t.publications.Keys == s.publications.Keys && t.credentials.Keys == s.credentials.Keys
    ensures var (t, done) := Suspend(s, deployment, workspace);
            done ==>
              && t.deployments[deployment].health.Suspended? && t.deployments[deployment].active.None?
              && t.deployments[deployment].version == s.deployments[deployment].version
              && t.deployments[deployment].slug == s.deployments[deployment].slug
              && (forall p :: !ActiveFor(t, deployment, p))
              && (forall c | c in t.credentials && t.credentials[c].deployment == deployment ::
                    !t.credentials[c].active)
    ensures var t := Suspend(s, deployment, workspace).0;
            && (forall d | d in s.deployments && d != deployment :: t.deployments[d] == s.deployments[d])
            && (forall p | p in s.publications && s.publications[p].deployment != deployment ::
                  t.publications[p] == s.publications[p])
            && (forall c | c in s.credentials && s.credentials[c].deployment != deployment ::
                  t.credentials[c] == s.credentials[c])
  {
    hide Lifecycle;
    var (t, done) := Suspend(s, deployment, workspace);
    if done {
      forall p
        ensures !ActiveFor(t, deployment, p)
      {
      }
    }
  }

  /** Publishing succeeds exactly for a healthy deployment of the workspace, of the product and version that were
      read, which is either on sale already or gets ids and a key that are new. */
  lemma PublishSucceedsExactly(s: Store, i: PublishInput, t: Store, r: PublishOutcome)
    requires Publishes(s, i, t, r)
    ensures r.Published? <==>
              && i.deployment in s.deployments && s.deployments[i.deployment].health.Healthy?
              && s.deployments[i.deployment].workspace == i.workspace
              && s.deployments[i.deployment].product == i.product && s.deployments[i.deployment].version == i.version
              && (|| (exists p :: ActiveFor(s, i.deployment, p))
                  || (&& i.publicationId !in s.publications && i.credentialId !in s.credentials
                      && forall c | c in s.credentials ::
                        s.credentials[c].secret != InternalKey(i.deployment, i.publicationId)))
  {
    hide ActiveFor;
    if Publishable(s, i) && !exists p :: ActiveFor(s, i.deployment, p) {
      assert PublishClashes(s, i) <==> r.PublishError?;
    }
  }

  /** What is then on sale: the new publication at its price, or the one that was active already. */
  lemma PublishPutsOn(s: Store, i: PublishInput, t: Store, r: PublishOutcome)
    requires Lifecycle(s) && Publishes(s, i, t, r)
    ensures r.Published? ==>
              && Publishable(s, i) && ActiveFor(t, i.deployment, r.publication)
              && t.publications[r.publication].price == r.price
              && t.deployments[i.deployment].active == Some(r.publication)
              && exists c ::
                InternalFor(t, r.publication, c) && t.credentials[c].active
                && t.credentials[c].secret == InternalKey(i.deployment, r.publication)
    ensures r.Published? && t != s ==>
              && r.publication == i.publicationId && i.publicationId !in s.publications
              && (forall p :: !ActiveFor(s, i.deployment, p))
              && t.publications[r.publication].price == i.price
              && t.publications[r.publication].recipient == i.recipient
    ensures r.Published? && t == s ==> ActiveFor(s, i.deployment, r.publication)
    ensures !r.Published? ==> t == s && (!Publishable(s, i) || PublishClashes(s, i))
  {
    PublishKeeps(s, i, t, r);
    hide PublishClashes, Indexed;
    if r.Published? {
      assert ActiveFor(t, i.deployment, r.publication);
      hide Publishes;
      OnSaleHasKey(t, i.deployment, r.publication);
    }
  }

  lemma OnSaleHasKey(s: Store, d: Id, p: Id)
    requires Lifecycle(s) && ActiveFor(s, d, p)
    ensures d in s.deployments && s.deployments[d].active == Some(p)
    ensures exists c :: InternalFor(s, p, c) && s.credentials[c].active && s.credentials[c].secret == InternalKey(d, p)
  {
    hide Indexed;
    var c :| InternalFor(s, p, c);
  }

  /** Publishing touches no other row. */
  lemma PublishOnlyAdds(s: Store, i: PublishInput, t: Store, r: PublishOutcome)
    requires Publishes(s, i, t, r)
    ensures forall p | p in s.publications :: p in t.publications && t.publications[p] == s.publications[p]
    ensures forall c | c in s.credentials :: c in t.credentials && t.credentials[c] == s.credentials[c]
    ensures forall d | d in s.deployments && d != i.deployment ::
              d in t.deployments && t.deployments[d] == s.deployments[d]
    ensures forall d | d in s.deployments :: t.deployments[d] == s.deployments[d].(active := t.deployments[d].active)
    ensures t.deployments.Keys == s.deployments.Keys && t.byProduct == s.byProduct && t.commands == s.commands
  {
  }

  /** Deploying, first or again: the deployment of the product then has the ready version and the requested slug, is
      healthy, belongs to the workspace, and keeps what is on sale; a live key was issued. It succeeds exactly on a
      new command, with a ready version, a slug that is free in the workspace and a key that is new. */
  lemma DeployBringsUp(s: Store, i: DeployInput)
    requires Lifecycle(s)
    ensures var (t, r) := Deploy(s, i);
            r.Deployed? ==>
              var id := r.id;
              && t.byProduct == s.byProduct[i.product := id] && id in t.deployments
              && i.ready == Some(t.deployments[id].version) && t.deployments[id].slug == i.slug
              && t.deployments[id].health.Healthy? && t.deployments[id].product == i.product
              && (if i.product in s.byProduct
                  then id == s.byProduct[i.product] && id in s.deployments
                       && t.deployments[id].active == s.deployments[id].active
                       && t.deployments[id].workspace == s.deployments[id].workspace
                  else id == i.freshId && id !in s.deployments && t.deployments[id].active.None?
                       && t.deployments[id].workspace == i.workspace)
              && i.credentialId in t.credentials && t.credentials[i.credentialId].active
              && t.credentials[i.credentialId].secret == Issued(i.key)
              && t.credentials[i.credentialId].deployment == id
    ensures var (t, r) := Deploy(s, i);
            r.Deployed? ==>
              && (forall d | d in s.deployments && d != r.id ::
                d in t.deployments
                && t.deployments[d] == s.deployments[d])
              && t.publications == s.publications
              && (forall c | c in s.credentials :: c in t.credentials && t.credentials[c] == s.credentials[c])
              && (forall d, e | d in t.deployments && e == r.id && d != e
                    && t.deployments[d].workspace == t.deployments[e].workspace ::
                    t.deployments[d].slug != t.deployments[e].slug)
    ensures var (t, r) := Deploy(s, i);
            && (r.Deployed? ==>
                  CommandKey(i.actor, i.workspace, i.idempotencyKey) in t.commands
                  && CommandKey(i.actor, i.workspace, i.idempotencyKey) !in s.commands)
            && (!r.Deployed? ==> t == s)
    ensures Deploy(s, i).1.Deployed? <==>
              && i.ready.Some? && CommandKey(i.actor, i.workspace, i.idempotencyKey) !in s.commands
              && (i.product in s.byProduct || i.freshId !in s.deployments)
              && (forall d | d in s.deployments && s.deployments[d].slug == i.slug ::
                    if i.product in s.byProduct
                    then d == s.byProduct[i.product]
                         || s.deployments[d].workspace != s.deployments[s.byProduct[i.product]].workspace
                    else s.deployments[d].workspace != i.workspace)
              && i.credentialId !in s.credentials && forall c | c in s.credentials ::
                s.credentials[c].secret != Issued(i.key)
  {
    hide Pointed, Keyed;
  }

  // ---------------------------------------------------------------- runs

  /** One transaction of any client, however it ends. */
  ghost predicate Changes(s: Store, t: Store) {
    || t == s
    || (exists i :: t == Deploy(s, i).0)
    || (exists i, r :: Publishes(s, i, t, r))
    || (exists d, w, p :: t == Retire(s, d, w, p).0)
    || exists d, w :: t == Suspend(s, d, w).0
  }

  lemma ChangeKeeps(s: Store, t: Store)
    requires Lifecycle(s) && Changes(s, t)
    ensures Lifecycle(t)
  {
    hide Lifecycle, Deploy, Publishes, Retire, Suspend;
    if i :| t == Deploy(s, i).0 {
      DeployKeeps(s, i);
    } else if i, r :| Publishes(s, i, t, r) {
      PublishKeeps(s, i, t, r);
    } else if d, w, p :| t == Retire(s, d, w, p).0 {
      RetireKeeps(s, d, w, p);
    } else if d, w :| t == Suspend(s, d, w).0 {
      SuspendKeeps(s, d, w);
    }
  }

  /** Publications are never deleted; their price, recipient and deployment never change. */
  lemma PricesStay(s: Store, t: Store, p: Id)
    requires Changes(s, t) && p in s.publications
    ensures p in t.publications && t.publications[p] == s.publications[p].(active := t.publications[p].active)
  {
    hide Deploy, DeployTarget;
    if i :| t == Deploy(s, i).0 {
      DeployRows(s, i);
    } else if i, r :| Publishes(s, i, t, r) {
      PublishKeepsPrice(s, i, t, r, p);
    } else if d, w, q :| t == Retire(s, d, w, q).0 {
    } else if d, w :| t == Suspend(s, d, w).0 {
    }
  }

  lemma PublishKeepsPrice(s: Store, i: PublishInput, t: Store, r: PublishOutcome, p: Id)
    requires Publishes(s, i, t, r) && p in s.publications
    ensures p in t.publications && t.publications[p] == s.publications[p].(active := t.publications[p].active)
  {
  }

  /** The lifecycle invariant holds after every run of deploy, publish, retire and suspend. */
  lemma {:induction false} EveryRunKeepsLifecycle(run: seq<Store>)
    requires |run| > 0 && run[0] == EMPTY && forall k | 0 <= k < |run| - 1 :: Changes(run[k], run[k + 1])
    ensures Lifecycle(run[|run| - 1])
  {
    hide Lifecycle, Changes;
    if |run| == 1 {
      EmptyLifecycle();
    } else {
      var init := run[..|run| - 1];
      forall k | 0 <= k < |init| - 1
        ensures Changes(init[k], init[k + 1])
      {
        assert Changes(run[k], run[k + 1]);
      }
      EveryRunKeepsLifecycle(init);
      assert Changes(run[|run| - 2], run[|run| - 2 + 1]);
      ChangeKeeps(run[|run| - 2], run[|run| - 1]);
    }
  }

  /** Sending a deploy command again changes nothing. */
  lemma DeployIsIdempotent(s: Store, i: DeployInput)
    requires Lifecycle(s) && Deploy(s, i).1.Deployed?
    ensures var t := Deploy(s, i).0; Deploy(t, i) == (t, Replayed(Deploy(s, i).1.id, Healthy))
  {
    var t, id := Deploy(s, i).0, DeployTarget(s, i);
    assert DeployTarget(t, i) == id && i.credentialId in t.credentials
           && t.credentials[i.credentialId].secret == Issued(i.key);
  }

  /** The replayed reply says healthy even of a deployment that was suspended in between. */
  lemma ReplayReportsHealthy(s: Store, i: DeployInput, workspace: Id)
    requires Lifecycle(s) && Deploy(s, i).1.Deployed?
             && workspace == Deploy(s, i).0.deployments[DeployTarget(s, i)].workspace
    ensures var t := Suspend(Deploy(s, i).0, DeployTarget(s, i), workspace).0;
            && t.deployments[DeployTarget(s, i)].health.Suspended?
            && Deploy(t, i) == (t, Replayed(DeployTarget(s, i), Healthy))
  {
    hide Pointed, Keyed;
    var u, id := Deploy(s, i).0, DeployTarget(s, i);
    var t := Suspend(u, id, workspace).0;
    assert id in u.deployments && t.byProduct == u.byProduct && t.commands == u.commands;
    assert DeployTarget(t, i) == id;
    assert i.credentialId in t.credentials && t.credentials[i.credentialId].secret == Issued(i.key)
           && t.credentials[i.credentialId].deployment == id;
  }

  // ---------------------------------------------------------------- the transactions as written

  class ControlPlane {
    var store: Store

    constructor ()
      ensures store == EMPTY
    {
      store := EMPTY;
    }

    method DeployProduct(i: DeployInput, fault: Fault) returns (r: Reply<DeployOutcome>)
      modifies this
      ensures store == After(fault, old(store), Deploy(old(store), i).0)
      ensures r == Answered(fault, Deploy(old(store), i).1)
    {
      var work := store;
      var outcome: DeployOutcome;
      if i.ready.None? {
        return Answered(fault, DeployError("READY_VERSION_NOT_FOUND"));
      }
      var id := if i.product in work.byProduct then work.byProduct[i.product] else i.freshId;
      if KeyOf(i) in work.commands {
        var c := work.commands[KeyOf(i)];
        var issued := exists k | k in work.credentials ::
          work.credentials[k].deployment == id
          && work.credentials[k].secret == Issued(i.key);
        outcome := if c.fingerprint != i.fingerprint || c.subject != id || !issued then CommandConflict
          else Replayed(id, Healthy);
        return Answered(fault, outcome);
      }
      work := work.(commands := work.commands[KeyOf(i) := Command(i.fingerprint, id)]);
      if i.product !in work.byProduct && id in work.deployments {
        return Answered(fault, DeployError("DUPLICATE_ID"));
      }
      var row := Upserted(store, i, i.ready.value);
      if SlugTaken(work, row.workspace, i.slug, id) {
        return Answered(fault, DeployError("DEPLOYMENT_ALIAS_CONFLICT"));
      }
      work := work.(deployments := work.deployments[id := row], byProduct := work.byProduct[i.product := id]);
      if i.credentialId in work.credentials || SecretUsed(work, Issued(i.key)) {
        return Answered(fault, DeployError("DUPLICATE_CREDENTIAL"));
      }
      work := work.(credentials := work.credentials[i.credentialId := Credential(id, External, Issued(i.key), true)]);
      if !fault.Rollback? {
        store := work;
      }
      r := Answered(fault, Deployed(id));
    }

    method PublishX402(i: PublishInput, fault: Fault) returns (r: Reply<PublishOutcome>, ghost outcome: PublishOutcome)
      modifies this
      ensures exists t :: Publishes(old(store), i, t, outcome) && store == After(fault, old(store), t)
      ensures r == Answered(fault, outcome)
    {
      var work := store;
      if !Publishable(work, i) {
        outcome := PublishError("X402_PUBLICATION_PREREQUISITES_MISSING");
        assert Publishes(store, i, store, outcome);
        return Answered(fault, PublishError("X402_PUBLICATION_PREREQUISITES_MISSING")), outcome;
      }
      if exists p | p in work.publications ::
        work.publications[p].deployment == i.deployment
        && work.publications[p].active {
        var p :| p in work.publications && work.publications[p].deployment == i.deployment
          && work.publications[p].active;
        outcome := Published(p, work.publications[p].price);
        assert ActiveFor(store, i.deployment, p) && Publishes(store, i, store, outcome);
        return Answered(fault, Published(p, work.publications[p].price)), outcome;
      }
      assert !exists p :: ActiveFor(store, i.deployment, p);
      if i.publicationId in work.publications || i.credentialId in work.credentials
        || SecretUsed(work, InternalKey(i.deployment, i.publicationId)) {
        outcome := PublishError("DUPLICATE_ID");
        assert Publishes(store, i, store, outcome);
        return Answered(fault, PublishError("DUPLICATE_ID")), outcome;
      }
      work := work.(publications := work.publications[i.publicationId :=
        Publication(i.deployment, i.price, i.recipient, true)]);
      work := work.(credentials := work.credentials[i.credentialId :=
        Credential(i.deployment, Internal(i.publicationId), InternalKey(i.deployment, i.publicationId), true)]);
      work := work.(deployments := work.deployments[i.deployment :=
        work.deployments[i.deployment].(active := Some(i.publicationId))]);
      outcome := Published(i.publicationId, i.price);
      assert work == WithPublication(store, i) && Publishes(store, i, work, outcome);
      if !fault.Rollback? {
        store := work;
      }
      r := Answered(fault, Published(i.publicationId, i.price));
    }

    method RetireX402(deployment: Id, workspace: Id, publication: Id, fault: Fault) returns (r: Reply<bool>)
      modifies this
      ensures store == After(fault, old(store), Retire(old(store), deployment, workspace, publication).0)
      ensures r == Answered(fault, Retire(old(store), deployment, workspace, publication).1)
    {
      var work := store;
      if deployment !in work.deployments || work.deployments[deployment].workspace != workspace
         || publication !in work.publications || work.publications[publication].deployment != deployment {
        return Answered(fault, false);
      }
      if work.deployments[deployment].active == Some(publication) {
        work := work.(deployments := work.deployments[deployment := work.deployments[deployment].(active := None)]);
      }
      work := work.(publications := work.publications[publication := RetireRow(work.publications[publication])]);
      work := work.(credentials := map c | c in work.credentials ::
        RevokeIf(work.credentials[c], work.credentials[c].deployment == deployment
          && work.credentials[c].scope == Internal(publication)));
      if !fault.Rollback? {
        store := work;
      }
      r := Answered(fault, true);
    }

    method SuspendDeployment(deployment: Id, workspace: Id, fault: Fault) returns (r: Reply<bool>)
      modifies this
      ensures store == After(fault, old(store), Suspend(old(store), deployment, workspace).0)
      ensures r == Answered(fault, Suspend(old(store), deployment, workspace).1)
    {
      var work := store;
      if deployment !in work.deployments || work.deployments[deployment].workspace != workspace {
        return Answered(fault, false);
      }
      work := work.(deployments := work.deployments[deployment :=
        work.deployments[deployment].(health := Suspended, active := None)]);
      work := work.(publications := map p | p in work.publications ::
        if work.publications[p].deployment == deployment then RetireRow(work.publications[p])
          else work.publications[p]);
      work := work.(credentials := map c | c in work.credentials ::
        RevokeIf(work.credentials[c], work.credentials[c].deployment == deployment));
      if !fault.Rollback? {
        store := work;
      }
      r := Answered(fault, true);
    }
  }
}
