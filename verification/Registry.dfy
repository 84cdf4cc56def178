/**
  The contract migration state machine (ergasterion/source_delivery.py:1082-1419).

  Epochs are numbers here; the wire spells them as decimal text.
*/
module Registry {
  import opened Basics
  import opened Text
  import opened LandingContract
  import opened Canonical
  import opened Compatibility

  datatype ActivationState = Active | PendingBaseline

  /** What a staged reset will commit once its baseline is confirmed. */
  datatype Pending = Pending(version: Version, epoch: nat, ancestry: seq<nat>, migration: Migration)

  datatype State = State(
    activeDigest: Option<string>,
    activeVersion: Option<Version>,
    activation: ActivationState,
    candidateDigest: Option<string>,
    epoch: nat,
    ancestry: seq<nat>,
    revision: nat,
    pending: Option<Pending>)

  function Initial(): State {
    State(None, None, PendingBaseline, None, 0, [], 0, None)
  }

  datatype RegistryError =
    | StaleRevision | CandidateInFlight | StalePrior | NotRegistered
    | CarryNeedsActive | InstantMissing | InstantForbidden
    | AncestryRowsExceeded | AncestryBytesExceeded | NoPendingBaseline
    | BadVersion(bump: BumpError) | BadDocument(cause: CanonicalError)

  function Digest(enc: Encoding, c: Contract): Result<string, RegistryError> {
    var document := Document(enc, c);
    if document.Err? then Err(BadDocument(document.error)) else Ok(enc.contractDigest(document.value))
  }

  function OptionalDigest(enc: Encoding, c: Option<Contract>): Result<Option<string>, RegistryError> {
    if c.None? then Ok(None) else
    var digest := Digest(enc, c.value);
    if digest.Err? then Err(digest.error) else Ok(Some(digest.value))
  }

  datatype Plan = Plan(change: ChangeClass, kind: MigrationKind, fromDigest: Option<string>, toDigest: string)

  function PlanMigration(enc: Encoding, state: State, prior: Option<Contract>, candidate: Contract)
    : Result<Plan, RegistryError>
  {
    var change := ClassifyContractChange(enc, prior, candidate);
    if change.Err? then Err(BadDocument(change.error)) else
    var bump := if prior.None? then None
                else ValidateSemverBump(prior.value.product.version, candidate.product.version, change.value);
    if bump.Some? then Err(BadVersion(bump.value)) else
    var digest := Digest(enc, candidate);
    if digest.Err? then Err(digest.error)
    else Ok(Plan(change.value, RequiredMigrationKind(change.value), state.activeDigest, digest.value))
  }

  function RegisterCandidate(enc: Encoding, state: State, candidate: Contract, expected: int)
    : Result<State, RegistryError>
  {
    if state.revision != expected then Err(StaleRevision) else
    var digest := Digest(enc, candidate);
    if digest.Err? then Err(digest.error)
    else if state.candidateDigest.Some? && state.candidateDigest.value != digest.value
    then Err(CandidateInFlight)
    else Ok(state.(candidateDigest := Some(digest.value), revision := state.revision + 1))
  }

  /** An epoch list as canonical JSON. */
  function EpochList(epochs: seq<nat>): string {
    if epochs == [] then "[]"
    else ['['] + Join(seq(|epochs|, i requires 0 <= i < |epochs| => Decimal(epochs[i])), ',') + [']']
  }

  function AncestryCapacity(ancestry: seq<nat>, maxRows: int, maxBytes: int): Option<RegistryError> {
    if |ancestry| > maxRows then Some(AncestryRowsExceeded)
    else if |EpochList(ancestry)| > maxBytes then Some(AncestryBytesExceeded)
    else None
  }

  function NewMigration(enc: Encoding, fields: MigrationFields): Migration {
    Migration(enc.migrationId(fields), fields)
  }

  function CarryOver(enc: Encoding, state: State, plan: Plan, version: Version,
                     activatedAt: Option<string>, maxRows: int, maxBytes: int)
    : Result<(State, Migration), RegistryError>
  {
    if state.activeDigest.None? then Err(CarryNeedsActive)
    else if activatedAt.None? then Err(InstantMissing)
    else
      var ancestry := state.ancestry + [state.epoch + 1];
      var overflow := AncestryCapacity(ancestry, maxRows, maxBytes);
      if overflow.Some? then Err(overflow.value) else
      var migration := NewMigration(enc, MigrationFields(
        plan.kind, plan.fromDigest, plan.toDigest, activatedAt, state.epoch, state.epoch + 1));
      Ok((State(Some(plan.toDigest), Some(version), Active, None, state.epoch + 1, ancestry,
                state.revision + 1, None),
          migration))
  }

  function StageReset(enc: Encoding, state: State, plan: Plan, version: Version,
                      activatedAt: Option<string>)
    : Result<(State, Migration), RegistryError>
  {
    if activatedAt.Some? then Err(InstantForbidden) else
    var migration := NewMigration(enc, MigrationFields(
      plan.kind, plan.fromDigest, plan.toDigest, None, state.epoch, state.epoch + 1));
    Ok((state.(activation := PendingBaseline, revision := state.revision + 1,
               pending := Some(Pending(version, state.epoch + 1, [state.epoch + 1], migration))),
        migration))
  }

  /** Promote the registered candidate: a carry in one step, a reset only to its staging. */
  function ActivateContract(enc: Encoding, state: State, prior: Option<Contract>, candidate: Contract,
                            expected: int, activatedAt: Option<string>, maxRows: int, maxBytes: int)
    : Result<(State, Migration), RegistryError>
  {
    if state.revision != expected then Err(StaleRevision) else
    var priorDigest := OptionalDigest(enc, prior);
    if priorDigest.Err? then Err(priorDigest.error)
    else if priorDigest.value != state.activeDigest then Err(StalePrior)
    else
      var plan := PlanMigration(enc, state, prior, candidate);
      if plan.Err? then Err(plan.error)
      else if state.candidateDigest != Some(plan.value.toDigest) then Err(NotRegistered)
      else if plan.value.kind == Carry
      then CarryOver(enc, state, plan.value, candidate.product.version, activatedAt, maxRows, maxBytes)
      else StageReset(enc, state, plan.value, candidate.product.version, activatedAt)
  }

  function ConfirmBaselineActivation(enc: Encoding, state: State, expected: int, activatedAt: Option<string>)
    : Result<(State, Migration), RegistryError>
  {
    if state.revision != expected then Err(StaleRevision)
    else if state.activation != PendingBaseline || state.pending.None? then Err(NoPendingBaseline)
    else if activatedAt.None? then Err(InstantMissing)
    else
      var pending := state.pending.value;
      var confirmed := NewMigration(enc, pending.migration.fields.(activatedAt := activatedAt));
      Ok((State(Some(pending.migration.fields.toDigest), Some(pending.version), Active, None,
                pending.epoch, pending.ancestry, state.revision + 1, None),
          confirmed))
  }

  // ---------------------------------------------------------------- runs

  /** One request against the stored registry; an erroneous one leaves it as it was. */
  datatype Command =
    | Register(candidate: Contract, expected: int)
    | Activate(prior: Option<Contract>, candidate: Contract, expected: int,
               activatedAt: Option<string>, maxRows: int, maxBytes: int)
    | Confirm(expected: int, activatedAt: Option<string>)

  /**
    The stored state with what a run leaves behind: the ledger of completed migrations, the
    canonical document each one activated, and the document of a staged reset.
  */
  datatype World = World(
    state: State, ledger: seq<Migration>, documents: seq<Contract>, staged: Option<Contract>)

  function Step(enc: Encoding, w: World, command: Command): World {
    match command
    case Register(candidate, expected) =>
      var r := RegisterCandidate(enc, w.state, candidate, expected);
      if r.Err? then w else w.(state := r.value)
    case Activate(prior, candidate, expected, activatedAt, maxRows, maxBytes) =>
      var r := ActivateContract(enc, w.state, prior, candidate, expected, activatedAt, maxRows, maxBytes);
      if r.Err? || Document(enc, candidate).Err? then w
      else if r.value.1.fields.kind == Carry
      then World(r.value.0, w.ledger + [r.value.1], w.documents + [Document(enc, candidate).value], None)
      else w.(state := r.value.0, staged := Some(Document(enc, candidate).value))
    case Confirm(expected, activatedAt) =>
      var r := ConfirmBaselineActivation(enc, w.state, expected, activatedAt);
      if r.Err? || w.staged.None? then w
      else World(r.value.0, w.ledger + [r.value.1], w.documents + [w.staged.value], None)
  }

  function Start(): World {
    World(Initial(), [], [], None)
  }

  function Run(enc: Encoding, commands: seq<Command>): World {
    if commands == [] then Start()
    else Step(enc, Run(enc, commands[..|commands| - 1]), commands[|commands| - 1])
  }

  // ---------------------------------------------------------------- the invariant

  /** Completed migrations form a gap-free chain of digests and epochs. */
  ghost predicate Chained(enc: Encoding, w: World) {
    && |w.ledger| == |w.documents| == w.state.epoch
    && (forall i | 0 <= i < |w.ledger| ::
          var m := w.ledger[i];
          && m == NewMigration(enc, m.fields)
          && m.fields.activatedAt.Some?
          && m.fields.fromEpoch == i && m.fields.toEpoch == i + 1
          && m.fields.toDigest == enc.contractDigest(w.documents[i]))
    && (w.ledger != [] ==> w.ledger[0].fields.kind == Reset && w.ledger[0].fields.fromDigest == None)
    && (forall i | 0 < i < |w.ledger| :: Linked(w.ledger[i - 1], w.documents[i - 1], w.ledger[i], w.documents[i]))
  }

  /** One migration follows another: it carries exactly when its document continues the last. */
  ghost predicate Linked(before: Migration, earlier: Contract, after: Migration, later: Contract) {
    && after.fields.fromDigest == Some(before.fields.toDigest)
    && (after.fields.kind == Carry <==> Continues(earlier, later))
    && VersionStep(earlier, later)
  }

  /** The registry's active fields are those of the last completed migration. */
  ghost predicate ActiveIsLast(w: World)
    requires |w.ledger| == |w.documents|
  {
    var n := |w.ledger|;
    if n == 0
    then w.state.activeDigest.None? && w.state.activeVersion.None?
    else w.state.activeDigest == Some(w.ledger[n - 1].fields.toDigest)
         && w.state.activeVersion == Some(w.documents[n - 1].product.version)
  }

  /**
    Ancestry is the contiguous ascending run of epochs since the last reset, ending at the
    current epoch; it is empty exactly when nothing is active.
  */
  ghost predicate AncestryIsLastRun(w: World)
    requires |w.ledger| == w.state.epoch
  {
    var a, e := w.state.ancestry, w.state.epoch;
    && |a| <= e && (a == [] <==> e == 0)
    && (forall k | 0 <= k < |a| :: a[k] == e - |a| + 1 + k)
    && (a != [] ==> w.ledger[e - |a|].fields.kind == Reset)
    && (forall i | e - |a| < i < e :: w.ledger[i].fields.kind == Carry)
  }

  /** A pending baseline is the reset of the active contract to the registered candidate. */
  ghost predicate PendingIsStaged(enc: Encoding, w: World)
    requires |w.documents| == w.state.epoch
  {
    && (w.state.pending.Some? <==> w.staged.Some?)
    && (w.state.pending.Some? ==>
          var p, s := w.state.pending.value, w.staged.value;
          && w.state.activation == PendingBaseline
          && w.state.candidateDigest == Some(p.migration.fields.toDigest)
          && p == Pending(s.product.version, w.state.epoch + 1, [w.state.epoch + 1], p.migration)
          && p.migration == NewMigration(enc, MigrationFields(
               Reset, w.state.activeDigest, enc.contractDigest(s), None, w.state.epoch, w.state.epoch + 1))
          && (w.documents != [] ==>
                var last := w.documents[|w.documents| - 1];
                !Continues(last, s) && VersionStep(last, s)))
  }

  ghost predicate Inv(enc: Encoding, w: World) {
    && Chained(enc, w)
    && ActiveIsLast(w)
    && AncestryIsLastRun(w)
    && PendingIsStaged(enc, w)
    && (w.state.activation == Active <==> w.state.activeDigest.Some? && w.state.pending.None?)
  }

  lemma DigestIdentifies(enc: Encoding, c: Contract, d: Contract)
    requires Faithful(enc) && enc.contractDigest(c) == enc.contractDigest(d)
    ensures c == d
  {}

  /** The state and migration a carry to document `next` produces. */
  ghost function Carried(enc: Encoding, state: State, next: Contract, activatedAt: Option<string>): (State, Migration) {
    var digest := enc.contractDigest(next);
    (State(Some(digest), Some(next.product.version), Active, None, state.epoch + 1,
           state.ancestry + [state.epoch + 1], state.revision + 1, None),
     NewMigration(enc, MigrationFields(
       Carry, state.activeDigest, digest, activatedAt, state.epoch, state.epoch + 1)))
  }

  /** The state and pending migration a reset to document `next` stages. */
  ghost function Staged(enc: Encoding, state: State, next: Contract): (State, Migration) {
    var migration := NewMigration(enc, MigrationFields(
      Reset, state.activeDigest, enc.contractDigest(next), None, state.epoch, state.epoch + 1));
    (state.(activation := PendingBaseline, revision := state.revision + 1,
            pending := Some(Pending(next.product.version, state.epoch + 1, [state.epoch + 1], migration))),
     migration)
  }

  /** The last activated document, with nothing before the first activation. */
  ghost function LastDocument(w: World): Option<Contract> {
    if w.documents == [] then None else Some(w.documents[|w.documents| - 1])
  }

  /**
    What an accepted activation does: it carries exactly when the candidate's document
    continues the last activated one, and stages a reset otherwise.
  */
  lemma PlannedActivation(enc: Encoding, w: World, c: Command)
    requires Faithful(enc) && Chained(enc, w) && ActiveIsLast(w) && c.Activate?
    requires ActivateContract(enc, w.state, c.prior, c.candidate, c.expected, c.activatedAt, c.maxRows, c.maxBytes).Ok?
    ensures Document(enc, c.candidate).Ok?
    ensures var next, last := Document(enc, c.candidate).value, LastDocument(w);
            var r := ActivateContract(enc, w.state, c.prior, c.candidate, c.expected, c.activatedAt, c.maxRows,
              c.maxBytes).value;
            && w.state.candidateDigest == Some(enc.contractDigest(next))
            && (last.Some? ==> VersionStep(last.value, next))
            && (if last.Some? && Continues(last.value, next)
                then c.activatedAt.Some? && r == Carried(enc, w.state, next, c.activatedAt)
                else r == Staged(enc, w.state, next))
  {
    if c.prior.Some? {
      DigestIdentifies(enc, Document(enc, c.prior.value).value, LastDocument(w).value);
      AcceptedBumpSteps(enc, c.prior.value, c.candidate);
    }
    CarryExactly(enc, c.prior, c.candidate);
  }

  /** The state and migration a confirmed baseline produces. */
  ghost function Confirmed(enc: Encoding, state: State, activatedAt: Option<string>): (State, Migration)
    requires state.pending.Some?
  {
    var p := state.pending.value;
    (State(Some(p.migration.fields.toDigest), Some(p.version), Active, None, p.epoch, p.ancestry,
           state.revision + 1, None),
     NewMigration(enc, p.migration.fields.(activatedAt := activatedAt)))
  }

  // The four accepted transitions, as relations between two worlds.

  ghost predicate Registers(w: World, w': World, digest: string) {
    && (w.state.candidateDigest.None? || w.state.candidateDigest == Some(digest))
    && w' == w.(state := w.state.(candidateDigest := Some(digest), revision := w.state.revision + 1))
  }

  ghost predicate Carries(enc: Encoding, w: World, w': World, next: Contract, activatedAt: Option<string>) {
    && activatedAt.Some? && w.state.candidateDigest == Some(enc.contractDigest(next))
    && LastDocument(w).Some? && Continues(LastDocument(w).value, next)
    && VersionStep(LastDocument(w).value, next)
    && var r := Carried(enc, w.state, next, activatedAt);
       w' == World(r.0, w.ledger + [r.1], w.documents + [next], None)
  }

  ghost predicate Stages(enc: Encoding, w: World, w': World, next: Contract) {
    && w.state.candidateDigest == Some(enc.contractDigest(next))
    && (LastDocument(w).Some? ==>
          !Continues(LastDocument(w).value, next) && VersionStep(LastDocument(w).value, next))
    && w' == w.(state := Staged(enc, w.state, next).0, staged := Some(next))
  }

  ghost predicate Confirms(enc: Encoding, w: World, w': World, activatedAt: Option<string>) {
    && w.state.pending.Some? && w.staged.Some? && activatedAt.Some?
    && var r := Confirmed(enc, w.state, activatedAt);
       w' == World(r.0, w.ledger + [r.1], w.documents + [w.staged.value], None)
  }

  ghost predicate Accepted(enc: Encoding, w: World, w': World) {
    || (exists digest :: Registers(w, w', digest))
    || (exists next, activatedAt :: Carries(enc, w, w', next, activatedAt))
    || (exists next :: Stages(enc, w, w', next))
    || (exists activatedAt :: Confirms(enc, w, w', activatedAt))
  }

  /** The chain does not look at the state beyond its epoch. */
  lemma ChainFrame(enc: Encoding, w: World, state: State, staged: Option<Contract>)
    requires Chained(enc, w) && state.epoch == w.state.epoch
    ensures Chained(enc, World(state, w.ledger, w.documents, staged))
  {
    var w' := World(state, w.ledger, w.documents, staged);
    forall i | 0 < i < |w'.ledger|
      ensures Linked(w'.ledger[i - 1], w'.documents[i - 1], w'.ledger[i], w'.documents[i])
    {
      assert Linked(w.ledger[i - 1], w.documents[i - 1], w.ledger[i], w.documents[i]);
    }
  }

  /** One more completed migration keeps the chain. */
  lemma ChainGrows(enc: Encoding, w: World, m: Migration, next: Contract, state: State)
    requires Chained(enc, w) && ActiveIsLast(w) && state.epoch == w.state.epoch + 1
    requires m == NewMigration(enc, MigrationFields(
               m.fields.kind, w.state.activeDigest, enc.contractDigest(next), m.fields.activatedAt,
               w.state.epoch, w.state.epoch + 1))
    requires m.fields.activatedAt.Some?
    requires if w.documents == [] then m.fields.kind == Reset
             else (m.fields.kind == Carry <==> Continues(LastDocument(w).value, next))
                  && VersionStep(LastDocument(w).value, next)
    ensures Chained(enc, World(state, w.ledger + [m], w.documents + [next], None))
  {
    var ledger, documents := w.ledger + [m], w.documents + [next];
    forall i | 0 < i < |ledger|
      ensures Linked(ledger[i - 1], documents[i - 1], ledger[i], documents[i])
    {
      if i < |w.ledger| {
        assert Linked(w.ledger[i - 1], w.documents[i - 1], w.ledger[i], w.documents[i]);
      }
    }
  }

  lemma RegisterKeeps(enc: Encoding, w: World, w': World, digest: string)
    requires Inv(enc, w) && Registers(w, w', digest)
    ensures Inv(enc, w')
  {
    ChainFrame(enc, w, w'.state, w.staged);
    RunFrame(w, w');
  }

  lemma CarryKeeps(enc: Encoding, w: World, w': World, next: Contract, activatedAt: Option<string>)
    requires Faithful(enc) && Inv(enc, w) && Carries(enc, w, w', next, activatedAt)
    ensures Inv(enc, w') && w.state.pending.None?
  {
    var r := Carried(enc, w.state, next, activatedAt);
    ChainGrows(enc, w, r.1, next, r.0);
    CarryExtendsAncestry(w, w', r.1);
    NothingPendsUnderCarry(enc, w, next);
  }

  lemma CarryExtendsAncestry(w: World, w': World, m: Migration)
    requires w.ledger != [] && |w.ledger| == w.state.epoch && AncestryIsLastRun(w)
    requires w'.ledger == w.ledger + [m] && m.fields.kind == Carry && w'.state.epoch == w.state.epoch + 1
    requires w'.state.ancestry == w.state.ancestry + [w.state.epoch + 1]
    ensures AncestryIsLastRun(w')
  {}

  lemma ResetRestartsAncestry(w: World, m: Migration)
    requires w.ledger != [] && |w.ledger| == w.state.epoch && w.ledger[|w.ledger| - 1] == m
    requires m.fields.kind == Reset && w.state.ancestry == [w.state.epoch]
    ensures AncestryIsLastRun(w)
  {}

  /** A pending baseline is a reset to the registered candidate, which then continues nothing. */
  lemma NothingPendsUnderCarry(enc: Encoding, w: World, next: Contract)
    requires Faithful(enc) && |w.documents| == w.state.epoch && PendingIsStaged(enc, w)
    requires w.state.candidateDigest == Some(enc.contractDigest(next))
    requires LastDocument(w).Some? && Continues(LastDocument(w).value, next)
    ensures w.state.pending.None?
  {
    if w.state.pending.Some? { DigestIdentifies(enc, w.staged.value, next); }
  }

  lemma StageKeeps(enc: Encoding, w: World, w': World, next: Contract)
    requires Inv(enc, w) && Stages(enc, w, w', next)
    ensures Inv(enc, w')
  {
    ChainFrame(enc, w, w'.state, Some(next));
    StagePends(enc, w, w', next);
    RunFrame(w, w');
  }

  /** The last run of epochs is read off the ledger and the ancestry alone. */
  lemma RunFrame(w: World, w': World)
    requires |w.ledger| == w.state.epoch && AncestryIsLastRun(w)
    requires w'.ledger == w.ledger && w'.state.epoch == w.state.epoch && w'.state.ancestry == w.state.ancestry
    ensures AncestryIsLastRun(w')
  {}

  lemma StagePends(enc: Encoding, w: World, w': World, next: Contract)
    requires |w.documents| == w.state.epoch && Stages(enc, w, w', next)
    ensures PendingIsStaged(enc, w')
  {}

  lemma ConfirmKeeps(enc: Encoding, w: World, w': World, activatedAt: Option<string>)
    requires Inv(enc, w) && Confirms(enc, w, w', activatedAt)
    ensures Inv(enc, w')
  {
    var r := Confirmed(enc, w.state, activatedAt);
    ChainGrows(enc, w, r.1, w.staged.value, r.0);
    ResetRestartsAncestry(w', r.1);
  }

  lemma ActivationIsAccepted(enc: Encoding, w: World, c: Command)
    requires Faithful(enc) && Chained(enc, w) && ActiveIsLast(w) && c.Activate?
    requires ActivateContract(enc, w.state, c.prior, c.candidate, c.expected, c.activatedAt, c.maxRows, c.maxBytes).Ok?
    ensures c.expected == w.state.revision && Accepted(enc, w, Step(enc, w, c))
  {
    PlannedActivation(enc, w, c);
    var next := Document(enc, c.candidate).value;
    assert Carries(enc, w, Step(enc, w, c), next, c.activatedAt) || Stages(enc, w, Step(enc, w, c), next);
  }

  /** A command that carries a stale revision, or is refused, changes nothing. */
  lemma StepIsAcceptedOrNothing(enc: Encoding, w: World, command: Command)
    requires Faithful(enc) && Chained(enc, w) && ActiveIsLast(w)
    ensures Step(enc, w, command) == w
            || (command.expected == w.state.revision && Accepted(enc, w, Step(enc, w, command)))
  {
    var w' := Step(enc, w, command);
    match command
    case Register(candidate, expected) =>
      if RegisterCandidate(enc, w.state, candidate, expected).Ok? {
        assert Registers(w, w', Digest(enc, candidate).value);
      }
    case Activate(prior, candidate, expected, activatedAt, maxRows, maxBytes) =>
      if ActivateContract(enc, w.state, prior, candidate, expected, activatedAt, maxRows, maxBytes).Ok? {
        ActivationIsAccepted(enc, w, command);
      }
    case Confirm(expected, activatedAt) =>
      if ConfirmBaselineActivation(enc, w.state, expected, activatedAt).Ok? && w.staged.Some? {
        assert Confirms(enc, w, w', activatedAt);
      }
  }

  lemma AcceptedKeeps(enc: Encoding, w: World, w': World)
    requires Faithful(enc) && Inv(enc, w) && Accepted(enc, w, w')
    ensures Inv(enc, w')
  {
    if digest :| Registers(w, w', digest) {
      RegisterKeeps(enc, w, w', digest);
    } else if next, activatedAt :| Carries(enc, w, w', next, activatedAt) {
      CarryKeeps(enc, w, w', next, activatedAt);
    } else if next :| Stages(enc, w, w', next) {
      StageKeeps(enc, w, w', next);
    } else {
      var activatedAt :| Confirms(enc, w, w', activatedAt);
      ConfirmKeeps(enc, w, w', activatedAt);
    }
  }

  /** Every reachable registry satisfies the invariant. */
  lemma {:induction false} RunKeeps(enc: Encoding, commands: seq<Command>)
    requires Faithful(enc)
    ensures Inv(enc, Run(enc, commands))
  {
    if commands != [] {
      var n := |commands| - 1;
      RunKeeps(enc, commands[..n]);
      var w := Run(enc, commands[..n]);
      StepIsAcceptedOrNothing(enc, w, commands[n]);
      if Step(enc, w, commands[n]) != w {
        AcceptedKeeps(enc, w, Step(enc, w, commands[n]));
      }
    }
  }

  /** The refusal of a carry with nothing active never happens, in any state. */
  lemma CarryAlwaysHasActive(enc: Encoding, state: State, prior: Option<Contract>, candidate: Contract,
                             expected: int, activatedAt: Option<string>, maxRows: int, maxBytes: int)
    ensures ActivateContract(enc, state, prior, candidate, expected, activatedAt, maxRows, maxBytes)
            != Err(CarryNeedsActive)
  {
    if prior.None? {
      assert ClassifyContractChange(enc, prior, candidate) == Ok(NewProduct);
    }
  }

  lemma Restaged(enc: Encoding, w: World)
    requires Inv(enc, w) && w.state.pending.Some?
    ensures Staged(enc, w.state, w.staged.value).0 == w.state.(revision := w.state.revision + 1)
  {}

  /** Staging a staged reset again changes the revision and nothing else. */
  lemma RestagingChangesOnlyRevision(enc: Encoding, w: World, command: Command)
    requires Faithful(enc) && Inv(enc, w) && w.state.pending.Some? && command.Activate?
    ensures var w' := Step(enc, w, command);
            w' == w || w' == w.(state := w.state.(revision := w.state.revision + 1))
  {
    if ActivateContract(enc, w.state, command.prior, command.candidate, command.expected,
                        command.activatedAt, command.maxRows, command.maxBytes).Ok? {
      PlannedActivation(enc, w, command);
      var next := Document(enc, command.candidate).value;
      assert enc.contractDigest(w.staged.value) == enc.contractDigest(next);
      DigestIdentifies(enc, w.staged.value, next);
      Restaged(enc, w);
    }
  }

  /** A carry that is accepted fits both ceilings, and the ceilings never stop a reset. */
  lemma CapacityBindsCarries(enc: Encoding, state: State, c: Command)
    requires c.Activate?
    ensures var r := ActivateContract(enc, state, c.prior, c.candidate, c.expected, c.activatedAt, c.maxRows,
            c.maxBytes);
            && (r.Ok? && r.value.1.fields.kind == Carry ==>
                  |r.value.0.ancestry| <= c.maxRows && |EpochList(r.value.0.ancestry)| <= c.maxBytes)
            && (r == Err(AncestryRowsExceeded) || r == Err(AncestryBytesExceeded) ==>
                  PlanMigration(enc, state, c.prior, c.candidate).value.kind == Carry)
  {}
}
