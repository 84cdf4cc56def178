/**
  What every request to the contract registry is answered with: exactly when it is accepted,
  and which refusal it meets otherwise (ergasterion/source_delivery.py:1058-1080, 1218-1419).
*/
module RegistryOutcomes {
  import opened Basics
  import opened Text
  import opened LandingContract
  import opened Canonical
  import opened Compatibility
  import opened Registry

  // ---------------------------------------------------------------- activation

  /** The prior contract canonicalises to the last activated document; before the first there is none. */
  ghost predicate PriorIsActive(enc: Encoding, w: World, prior: Option<Contract>) {
    match LastDocument(w)
    case None => prior.None?
    case Some(last) => prior.Some? && Document(enc, prior.value) == Ok(last)
  }

  /** The document continues the last activated one. */
  ghost predicate CarriesOn(w: World, next: Contract) {
    LastDocument(w).Some? && Continues(LastDocument(w).value, next)
  }

  ghost predicate VersionFollows(w: World, next: Contract) {
    LastDocument(w).Some? ==> VersionStep(LastDocument(w).value, next)
  }

  /** The ancestry a carry leaves. */
  function CarriedAncestry(state: State): seq<nat> { state.ancestry + [state.epoch + 1] }

  // The ceilings count the epochs of the ancestry and the characters of its JSON list.

  /** The list reads back: empty, or between its brackets the numerals of the epochs, between commas. */
  lemma EpochListReads(epochs: seq<nat>)
    ensures epochs == [] ==> EpochList(epochs) == "[]"
    ensures var list := EpochList(epochs);
            epochs != [] ==>
            && |list| >= 2 && list[0] == '[' && list[|list| - 1] == ']'
            && var pieces := Split(list[1..|list| - 1], ',');
               && |pieces| == |epochs|
               && forall i | 0 <= i < |epochs| :: IsNumeral(pieces[i]) && NumeralValue(pieces[i]) == epochs[i]
                                                  && (|pieces[i]| > 1 ==> pieces[i][0] != '0')
  {
    if epochs == [] { return; }
    var pieces := seq(|epochs|, i requires 0 <= i < |epochs| => Decimal(epochs[i]));
    forall i | 0 <= i < |epochs|
      ensures ',' !in pieces[i] && IsNumeral(pieces[i]) && NumeralValue(pieces[i]) == epochs[i]
      ensures |pieces[i]| > 1 ==> pieces[i][0] != '0'
    {
      DecimalRoundTrip(epochs[i]);
      NoLeadingZero(epochs[i]);
    }
    SplitJoin(pieces, ',');
    var list := EpochList(epochs);
    assert list[1..|list| - 1] == Join(pieces, ',');
  }

  /** A carry names its instant and leaves an ancestry within both ceilings; a reset names none. */
  ghost predicate FitsKind(w: World, next: Contract, c: Command)
    requires c.Activate?
  {
    if CarriesOn(w, next)
    then c.activatedAt.Some? && |CarriedAncestry(w.state)| <= c.maxRows
         && |EpochList(CarriedAncestry(w.state))| <= c.maxBytes
    else c.activatedAt.None?
  }

  /** What an activation must find to be accepted. */
  ghost predicate Activable(enc: Encoding, w: World, c: Command)
    requires c.Activate?
  {
    && c.expected == w.state.revision && PriorIsActive(enc, w, c.prior) && Document(enc, c.candidate).Ok?
    && var next := Document(enc, c.candidate).value;
       && w.state.candidateDigest == Some(enc.contractDigest(next))
       && VersionFollows(w, next) && FitsKind(w, next, c)
  }

  /** The bump error between two documents of a planned migration, if there is one. */
  ghost function BumpRefusal(prior: Contract, next: Contract): Option<BumpError> {
    var v, v' := prior.product.version, next.product.version;
    if prior == next then None
    else if !CoreLess(v, v') then Some(MustIncrease)
    else if prior.identity != next.identity then None
    else if !Continues(prior, next) then (if v'.major == v.major then Some(MajorBumpNeeded) else None)
    else if !SameFacts(prior, next) && v'.major == v.major && v'.minor == v.minor then Some(MinorBumpNeeded)
    else None
  }

  lemma BumpRefusalExactly(prior: Contract, next: Contract)
    ensures BumpRefusal(prior, next).None? <==> VersionStep(prior, next)
  {
    if prior == next { ContinuesReflexive(next); }
  }

  lemma BumpIsRefused(enc: Encoding, prior: Contract, candidate: Contract)
    requires Document(enc, prior).Ok? && Document(enc, candidate).Ok?
    ensures var change := ClassifyContractChange(enc, Some(prior), candidate);
            && change.Ok?
            && ValidateSemverBump(prior.product.version, candidate.product.version, change.value)
               == BumpRefusal(Document(enc, prior).value, Document(enc, candidate).value)
  {
    DocumentKeepsFacts(enc, prior);
    DocumentKeepsFacts(enc, candidate);
    var p, c := Document(enc, prior).value, Document(enc, candidate).value;
    if prior.identity == candidate.identity && p != c { DifferentDocuments(p, c); }
  }

  /** The first check an activation fails, in the order they are made. */
  ghost function ActivationRefusal(enc: Encoding, w: World, c: Command): Option<RegistryError>
    requires c.Activate?
  {
    if c.expected != w.state.revision then Some(StaleRevision)
    else if c.prior.Some? && Document(enc, c.prior.value).Err? then Some(BadDocument(RepeatedSetValue))
    else if !PriorIsActive(enc, w, c.prior) then Some(StalePrior)
    else if Document(enc, c.candidate).Err? then Some(WithoutDocument(c.prior, c.candidate))
    else CandidateRefusal(enc, w, c, Document(enc, c.candidate).value)
  }

  /** A candidate of a new identity meets the version check before it is canonicalised. */
  ghost function WithoutDocument(prior: Option<Contract>, candidate: Contract): RegistryError {
    if prior.Some? && prior.value.identity != candidate.identity
       && !CoreLess(prior.value.product.version, candidate.product.version)
    then BadVersion(MustIncrease)
    else BadDocument(RepeatedSetValue)
  }

  ghost function CandidateRefusal(enc: Encoding, w: World, c: Command, next: Contract): Option<RegistryError>
    requires c.Activate?
  {
    var bump := if LastDocument(w).None? then None else BumpRefusal(LastDocument(w).value, next);
    if bump.Some? then Some(BadVersion(bump.value))
    else if w.state.candidateDigest != Some(enc.contractDigest(next)) then Some(NotRegistered)
    else KindRefusal(w, c, next)
  }

  ghost function KindRefusal(w: World, c: Command, next: Contract): Option<RegistryError>
    requires c.Activate?
  {
    if !CarriesOn(w, next) then (if c.activatedAt.Some? then Some(InstantForbidden) else None)
    else if c.activatedAt.None? then Some(InstantMissing)
    else if |CarriedAncestry(w.state)| > c.maxRows then Some(AncestryRowsExceeded)
    else if |EpochList(CarriedAncestry(w.state))| > c.maxBytes then Some(AncestryBytesExceeded)
    else None
  }

  ghost function Activated(enc: Encoding, w: World, c: Command, next: Contract): (State, Migration)
    requires c.Activate?
  {
    if CarriesOn(w, next) then Carried(enc, w.state, next, c.activatedAt) else Staged(enc, w.state, next)
  }

  function Activation(enc: Encoding, w: World, c: Command): Result<(State, Migration), RegistryError>
    requires c.Activate?
  {
    ActivateContract(enc, w.state, c.prior, c.candidate, c.expected, c.activatedAt, c.maxRows, c.maxBytes)
  }

  /** The prior's digest is the active one exactly when its document is the last activated one. */
  lemma PriorByDigest(enc: Encoding, w: World, prior: Option<Contract>)
    requires Faithful(enc) && Chained(enc, w) && ActiveIsLast(w)
    requires prior.Some? ==> Document(enc, prior.value).Ok?
    ensures OptionalDigest(enc, prior).Ok?
    ensures OptionalDigest(enc, prior).value == w.state.activeDigest <==> PriorIsActive(enc, w, prior)
  {
    if prior.Some? && LastDocument(w).Some?
       && enc.contractDigest(Document(enc, prior.value).value) == enc.contractDigest(LastDocument(w).value)
    {
      DigestIdentifies(enc, Document(enc, prior.value).value, LastDocument(w).value);
    }
  }

  /** What the plan says of a candidate whose document exists. */
  lemma PlanOutcome(enc: Encoding, w: World, prior: Option<Contract>, candidate: Contract)
    requires PriorIsActive(enc, w, prior) && Document(enc, candidate).Ok?
    ensures var next, plan := Document(enc, candidate).value, PlanMigration(enc, w.state, prior, candidate);
            var bump := if LastDocument(w).None? then None else BumpRefusal(LastDocument(w).value, next);
            if bump.Some? then plan == Err(BadVersion(bump.value))
            else plan.Ok? && plan.value.toDigest == enc.contractDigest(next)
                 && plan.value.fromDigest == w.state.activeDigest
                 && plan.value.kind == if CarriesOn(w, next) then Carry else Reset
  {
    if prior.Some? { BumpIsRefused(enc, prior.value, candidate); }
    CarryExactly(enc, prior, candidate);
  }

  lemma PlanWithoutDocument(enc: Encoding, w: World, prior: Option<Contract>, candidate: Contract)
    requires PriorIsActive(enc, w, prior) && Document(enc, candidate).Err?
    ensures PlanMigration(enc, w.state, prior, candidate) == Err(WithoutDocument(prior, candidate))
  {}

  /** What the plan's kind makes of an activation that passed every other check. */
  lemma KindOutcome(enc: Encoding, w: World, plan: Plan, c: Command, next: Contract)
    requires (CarriesOn(w, next) ==> w.state.activeDigest.Some?) && c.Activate?
    requires plan.toDigest == enc.contractDigest(next)
    requires plan.fromDigest == w.state.activeDigest && plan.kind == if CarriesOn(w, next) then Carry else Reset
    ensures var version := next.product.version;
            (if plan.kind == Carry
             then CarryOver(enc, w.state, plan, version, c.activatedAt, c.maxRows, c.maxBytes)
             else StageReset(enc, w.state, plan, version, c.activatedAt))
            == match KindRefusal(w, c, next)
               case Some(e) => Err(e)
               case None => Ok(Activated(enc, w, c, next))
  {}

  lemma CandidateOutcome(enc: Encoding, w: World, c: Command)
    requires Faithful(enc) && Chained(enc, w) && ActiveIsLast(w) && c.Activate?
    requires c.expected == w.state.revision && PriorIsActive(enc, w, c.prior) && Document(enc, c.candidate).Ok?
    ensures var next := Document(enc, c.candidate).value;
            Activation(enc, w, c) == match CandidateRefusal(enc, w, c, next)
                                     case Some(e) => Err(e)
                                     case None => Ok(Activated(enc, w, c, next))
  {
    PriorByDigest(enc, w, c.prior);
    PlanOutcome(enc, w, c.prior, c.candidate);
    DocumentKeepsFacts(enc, c.candidate);
    var plan := PlanMigration(enc, w.state, c.prior, c.candidate);
    if plan.Ok? { KindOutcome(enc, w, plan.value, c, Document(enc, c.candidate).value); }
  }

  /** Every activation is refused by the first check it fails, or does what the documents ask for. */
  lemma ActivationOutcome(enc: Encoding, w: World, c: Command)
    requires Faithful(enc) && Chained(enc, w) && ActiveIsLast(w) && c.Activate?
    ensures match ActivationRefusal(enc, w, c)
            case Some(e) => Activation(enc, w, c) == Err(e)
            case None =>
              && Document(enc, c.candidate).Ok?
              && Activation(enc, w, c) == Ok(Activated(enc, w, c, Document(enc, c.candidate).value))
  {
    if c.expected == w.state.revision && (c.prior.Some? ==> Document(enc, c.prior.value).Ok?) {
      PriorByDigest(enc, w, c.prior);
      if PriorIsActive(enc, w, c.prior) {
        if Document(enc, c.candidate).Ok? {
          CandidateOutcome(enc, w, c);
        } else {
          PlanWithoutDocument(enc, w, c.prior, c.candidate);
        }
      }
    }
  }

  /** An activation is accepted exactly when it is activable. */
  lemma ActivationExactly(enc: Encoding, w: World, c: Command)
    requires Faithful(enc) && Chained(enc, w) && ActiveIsLast(w) && c.Activate?
    ensures Activation(enc, w, c).Ok? <==> Activable(enc, w, c)
  {
    ActivationOutcome(enc, w, c);
    NotRefusedExactly(enc, w, c);
  }

  lemma NotRefusedExactly(enc: Encoding, w: World, c: Command)
    requires c.Activate?
    ensures ActivationRefusal(enc, w, c).None? <==> Activable(enc, w, c)
  {
    if Document(enc, c.candidate).Ok? {
      var next := Document(enc, c.candidate).value;
      if LastDocument(w).Some? { BumpRefusalExactly(LastDocument(w).value, next); }
      CandidateNotRefused(enc, w, c, next);
    }
  }

  lemma CandidateNotRefused(enc: Encoding, w: World, c: Command, next: Contract)
    requires c.Activate?
    requires LastDocument(w).Some?
             ==> (BumpRefusal(LastDocument(w).value, next).None? <==> VersionStep(LastDocument(w).value, next))
    ensures CandidateRefusal(enc, w, c, next).None?
            <==> w.state.candidateDigest == Some(enc.contractDigest(next)) && VersionFollows(w, next)
                 && FitsKind(w, next, c)
  {}

  // ---------------------------------------------------------------- registration and confirmation

  /** Nothing, or this digest, is in flight. */
  predicate Free(state: State, digest: string) {
    state.candidateDigest.None? || state.candidateDigest == Some(digest)
  }

  ghost predicate Registrable(enc: Encoding, state: State, candidate: Contract, expected: int) {
    && expected == state.revision && Document(enc, candidate).Ok?
    && Free(state, enc.contractDigest(Document(enc, candidate).value))
  }

  /** A candidate is registered exactly when the revision is read, it has a document, and no other is in flight. */
  lemma RegistrationExactly(enc: Encoding, state: State, candidate: Contract, expected: int)
    ensures var r := RegisterCandidate(enc, state, candidate, expected);
            && (r.Ok? <==> Registrable(enc, state, candidate, expected))
            && (r.Ok? ==> r.value == state.(revision := state.revision + 1,
                            candidateDigest := Some(enc.contractDigest(Document(enc, candidate).value))))
            && (r.Err? ==> r.error == if expected != state.revision then StaleRevision
                                      else if Document(enc, candidate).Err? then BadDocument(RepeatedSetValue)
                                      else CandidateInFlight)
  {}

  ghost predicate Confirmable(w: World, c: Command)
    requires c.Confirm?
  {
    c.expected == w.state.revision && w.state.pending.Some? && c.activatedAt.Some?
  }

  /** A baseline is confirmed exactly when the revision is read, one is pending, and an instant is given. */
  lemma ConfirmationExactly(enc: Encoding, w: World, c: Command)
    requires |w.documents| == w.state.epoch && PendingIsStaged(enc, w) && c.Confirm?
    ensures var r := ConfirmBaselineActivation(enc, w.state, c.expected, c.activatedAt);
            && (r.Ok? <==> Confirmable(w, c))
            && (r.Ok? ==> r.value == Confirmed(enc, w.state, c.activatedAt))
            && (r.Err? ==> r.error == if c.expected != w.state.revision then StaleRevision
                                      else if w.state.pending.None? then NoPendingBaseline
                                      else InstantMissing)
  {}

  // ---------------------------------------------------------------- every step

  ghost predicate Acceptable(enc: Encoding, w: World, c: Command) {
    match c
    case Register(candidate, expected) => Registrable(enc, w.state, candidate, expected)
    case Activate(_, _, _, _, _, _) => Activable(enc, w, c)
    case Confirm(_, _) => Confirmable(w, c)
  }

  /** What an accepted request does to the registry. */
  ghost predicate Does(enc: Encoding, w: World, w': World, c: Command) {
    match c
    case Register(candidate, _) =>
      Document(enc, candidate).Ok? && Registers(w, w', enc.contractDigest(Document(enc, candidate).value))
    case Activate(_, candidate, _, activatedAt, _, _) =>
      && Document(enc, candidate).Ok?
      && var next := Document(enc, candidate).value;
         if CarriesOn(w, next) then Carries(enc, w, w', next, activatedAt) else Stages(enc, w, w', next)
    case Confirm(_, activatedAt) => Confirms(enc, w, w', activatedAt)
  }

  /** In every reachable registry an acceptable request is carried out, and any other changes nothing. */
  lemma StepExactly(enc: Encoding, w: World, c: Command)
    requires Faithful(enc) && Inv(enc, w)
    ensures if Acceptable(enc, w, c) then Does(enc, w, Step(enc, w, c), c) else Step(enc, w, c) == w
  {
    match c
    case Register(_, _) => RegistrationStep(enc, w, c);
    case Activate(_, _, _, _, _, _) => ActivationStep(enc, w, c);
    case Confirm(_, _) => ConfirmationStep(enc, w, c);
  }

  lemma RegistrationStep(enc: Encoding, w: World, c: Command)
    requires c.Register?
    ensures if Acceptable(enc, w, c) then Does(enc, w, Step(enc, w, c), c) else Step(enc, w, c) == w
  {
    RegistrationExactly(enc, w.state, c.candidate, c.expected);
  }

  lemma ConfirmationStep(enc: Encoding, w: World, c: Command)
    requires |w.documents| == w.state.epoch && PendingIsStaged(enc, w) && c.Confirm?
    ensures if Acceptable(enc, w, c) then Does(enc, w, Step(enc, w, c), c) else Step(enc, w, c) == w
  {
    ConfirmationExactly(enc, w, c);
  }

  lemma ActivationStep(enc: Encoding, w: World, c: Command)
    requires Faithful(enc) && Chained(enc, w) && ActiveIsLast(w) && c.Activate?
    ensures if Acceptable(enc, w, c) then Does(enc, w, Step(enc, w, c), c) else Step(enc, w, c) == w
  {
    ActivationExactly(enc, w, c);
    ActivationOutcome(enc, w, c);
  }
}
