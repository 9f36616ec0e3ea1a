/** Capability verdicts over a compiled DEEP document (src/context_application.rs): which reason
    a deficit carries, and when a capability counts as satisfied. */
module Verdict {
  import opened Common

  datatype Reason = Conflicting | Stale | Ambiguous | Unsupported | SemanticBudgetOmitted | Unavailable

  datatype Omission =
    | MissingRequiredRole | UnresolvedEvidence | StaleEvidence | UnavailableEvidence | UnsupportedEvidence
    | ConflictingEvidence | AmbiguousSeed | FtsCandidateLimit | RecordBudget | SourceByteBudget
    | EstimatedTokenBudget | RelationshipDepthBudget | WorkUnitBudget | UncertaintyReserve
    | TemporalEvidenceUnavailable | ValidationTargetUnavailable | SourceVerificationFailed

  datatype Requirement = Met | Missing | Unresolved | OutOfDate | NotAvailable | NotSupported | InConflict
      | BudgetOmitted

  datatype Quality =
    | Verified | Supported | Inferred | Resolved | AmbiguousQuality | UnresolvedQuality | External
    | StaleQuality | ConflictingQuality | Partial | UnsupportedQuality | Excluded

  datatype Verification = SourceVerified | SourceStale | SourceUnavailable | SourceUnsupported

  datatype Confinement = Confined | OutsideCanonicalRoot | SymlinkEscape | ConfinementUnavailable

  datatype Resolution = ResolvedSymbol | ResolvedFile | ExternalTarget | AmbiguousTarget | UnresolvedTarget
      | InvalidTarget | StaleTarget

  datatype Role =
    | PrimaryImplementation | DirectDependency | DirectDependent | TypeContract | TestContract
    | ConfigurationInput | Effect | HistoricalConstraint | Uncertainty | ValidationTarget | Documentation

  datatype Source = Source(verification: Verification, revalidatedBeforeSeal: bool, observedSha: Option<string>,
                           wholeFileSha: string, confinement: Confinement)

  datatype Item = Item(id: string, role: Role, quality: Quality, source: Option<Source>)

  datatype RoleEntry = RoleEntry(role: Role, required: bool, state: Requirement, itemIds: seq<string>,
                                 reason: Option<Omission>)

  datatype Relationship = Relationship(resolution: Resolution, quality: Quality)

  datatype Coverage = Coverage(deficits: seq<Omission>, partial: nat, failed: nat, unsupported: nat,
                               eligible: nat, complete: nat, claims: bool)

  datatype Document = Document(roles: seq<RoleEntry>, exactSource: Requirement, validation: Requirement,
                               workingSet: seq<Item>, relationships: seq<Relationship>, effects: seq<Quality>,
                               coverage: Coverage, validationPlan: seq<string>, omitted: set<Omission>)

  datatype Outcome = Satisfied | Deficit(reason: Reason)

  // ------------------------------------------------------------- one reason of many

  function Priority(reason: Reason): nat {
    match reason
    case Conflicting => 0
    case Stale => 1
    case Ambiguous => 2
    case Unsupported => 3
    case SemanticBudgetOmitted => 4
    case Unavailable => 5
  }

  /** `preferred_deficit`. */
  function Preferred(current: Option<Reason>, candidate: Reason): Option<Reason> {
    if current.Some? && Priority(current.value) <= Priority(candidate) then current else Some(candidate)
  }

  function OutcomeOf(deficit: Option<Reason>): Outcome {
    if deficit.Some? then Deficit(deficit.value) else Satisfied
  }

  /** The right answer for a set of reasons: none for no reason, else the one of highest
      priority, which is the one with the least number. */
  predicate Judges(deficit: Option<Reason>, reasons: set<Reason>) {
    match deficit
    case None => reasons == {}
    case Some(r) => r in reasons && forall x :: x in reasons ==> Priority(r) <= Priority(x)
  }

  predicate JudgedAs(outcome: Outcome, reasons: set<Reason>) {
    match outcome
    case Satisfied => reasons == {}
    case Deficit(r) => Judges(Some(r), reasons)
  }

  lemma PreferredJudges(current: Option<Reason>, reasons: set<Reason>, candidate: Reason)
    requires Judges(current, reasons)
    ensures Judges(Preferred(current, candidate), reasons + {candidate})
  {
  }

  /** A verdict over one part of the evidence counts in a larger one as all of that part. */
  lemma PartCountsInFull(current: Option<Reason>, reasons: set<Reason>, part: Outcome, more: set<Reason>)
    requires Judges(current, reasons) && JudgedAs(part, more)
    ensures Judges(if part.Deficit? then Preferred(current, part.reason) else current, reasons + more)
  {
  }

  /** Which reason is answered depends on the set of reasons alone, not on order or repetition. */
  lemma OneVerdictPerSet(a: Option<Reason>, b: Option<Reason>, reasons: set<Reason>)
    requires Judges(a, reasons) && Judges(b, reasons)
    ensures a == b
  {
    if a.Some? && b.Some? {
      assert Priority(a.value) == Priority(b.value);
    }
  }

  /** All reasons that the elements of a list contribute. */
  ghost function AllOf<T>(list: seq<T>, reasonsOf: T -> set<Reason>): set<Reason> {
    set r: Reason | Gives(list, reasonsOf, r)
  }

  ghost predicate Gives<T>(list: seq<T>, reasonsOf: T -> set<Reason>, r: Reason) {
    exists i :: 0 <= i < |list| && r in reasonsOf(list[i])
  }

  lemma AllOfGrows<T>(list: seq<T>, n: nat, reasonsOf: T -> set<Reason>)
    requires n < |list|
    ensures AllOf(list[..n + 1], reasonsOf) == AllOf(list[..n], reasonsOf) + reasonsOf(list[n])
  {
    var grown := list[..n + 1];
    assert grown[n] == list[n];
    forall r | r in AllOf(list[..n], reasonsOf)
      ensures r in AllOf(grown, reasonsOf)
    {
      var i :| 0 <= i < n && r in reasonsOf(list[..n][i]);
      assert grown[i] == list[..n][i];
    }
    forall r | r in AllOf(grown, reasonsOf)
      ensures r in AllOf(list[..n], reasonsOf) + reasonsOf(list[n])
    {
      var i :| 0 <= i < n + 1 && r in reasonsOf(grown[i]);
      if i < n {
        assert grown[i] == list[..n][i];
      }
    }
  }

  /** Reordering or repeating evidence changes no verdict. */
  lemma OrderIsIrrelevant<T>(a: seq<T>, b: seq<T>, reasonsOf: T -> set<Reason>, va: Option<Reason>, vb: Option<Reason>)
    requires forall x :: x in a <==> x in b
    requires Judges(va, AllOf(a, reasonsOf)) && Judges(vb, AllOf(b, reasonsOf))
    ensures va == vb
  {
    SameElementsSameReasons(a, b, reasonsOf);
    SameElementsSameReasons(b, a, reasonsOf);
    OneVerdictPerSet(va, vb, AllOf(a, reasonsOf));
  }

  lemma SameElementsSameReasons<T>(a: seq<T>, b: seq<T>, reasonsOf: T -> set<Reason>)
    requires forall x :: x in a ==> x in b
    ensures AllOf(a, reasonsOf) <= AllOf(b, reasonsOf)
  {
    forall r | r in AllOf(a, reasonsOf)
      ensures r in AllOf(b, reasonsOf)
    {
      var i :| 0 <= i < |a| && r in reasonsOf(a[i]);
      assert a[i] in a;
      var k :| 0 <= k < |b| && b[k] == a[i];
    }
  }

  // ------------------------------------------------------- what each part contributes

  function SetOf(reason: Option<Reason>): set<Reason> {
    if reason.Some? then {reason.value} else {}
  }

  function OmissionDeficit(omission: Omission): Reason {
    match omission
    case ConflictingEvidence => Conflicting
    case StaleEvidence => Stale
    case SourceVerificationFailed => Stale
    case UnresolvedEvidence => Ambiguous
    case AmbiguousSeed => Ambiguous
    case FtsCandidateLimit => Ambiguous
    case UnsupportedEvidence => Unsupported
    case RecordBudget => SemanticBudgetOmitted
    case SourceByteBudget => SemanticBudgetOmitted
    case EstimatedTokenBudget => SemanticBudgetOmitted
    case RelationshipDepthBudget => SemanticBudgetOmitted
    case WorkUnitBudget => SemanticBudgetOmitted
    case UncertaintyReserve => SemanticBudgetOmitted
    case MissingRequiredRole => Unavailable
    case UnavailableEvidence => Unavailable
    case TemporalEvidenceUnavailable => Unavailable
    case ValidationTargetUnavailable => Unavailable
  }

  function StateDeficit(state: Requirement): Option<Reason> {
    match state
    case Met => None
    case Unresolved => Some(Ambiguous)
    case OutOfDate => Some(Stale)
    case NotSupported => Some(Unsupported)
    case InConflict => Some(Conflicting)
    case BudgetOmitted => Some(SemanticBudgetOmitted)
    case Missing => Some(Unavailable)
    case NotAvailable => Some(Unavailable)
  }

  /** `requirement_deficit`. */
  function RequirementDeficit(state: Requirement, reason: Option<Omission>): (d: Option<Reason>)
    ensures Judges(d, RequirementReasons(state, reason))
  {
    match reason
    case Some(omission) => Preferred(StateDeficit(state), OmissionDeficit(omission))
    case None => StateDeficit(state)
  }

  function RequirementReasons(state: Requirement, reason: Option<Omission>): set<Reason> {
    SetOf(StateDeficit(state)) + if reason.Some? then {OmissionDeficit(reason.value)} else {}
  }

  function EvidenceDeficit(quality: Quality): Option<Reason> {
    match quality
    case Verified => None
    case Supported => None
    case Resolved => None
    case AmbiguousQuality => Some(Ambiguous)
    case UnresolvedQuality => Some(Ambiguous)
    case Inferred => Some(Ambiguous)
    case Partial => Some(Ambiguous)
    case External => Some(Ambiguous)
    case StaleQuality => Some(Stale)
    case ConflictingQuality => Some(Conflicting)
    case UnsupportedQuality => Some(Unsupported)
    case Excluded => Some(Unsupported)
  }

  /** The first entry for a role. */
  function EntryFor(roles: seq<RoleEntry>, role: Role): (r: Option<RoleEntry>)
    ensures r.Some? ==> r.value in roles && r.value.role == role
    ensures r.None? ==> forall e :: e in roles ==> e.role != role
  {
    if roles == [] then None
    else if roles[0].role == role then Some(roles[0])
    else EntryFor(roles[1..], role)
  }

  /** The first item with an id and a role. */
  function ItemFor(items: seq<Item>, id: string, role: Role): (r: Option<Item>)
    ensures r.Some? ==> r.value in items && r.value.id == id && r.value.role == role
    ensures r.None? ==> forall item :: item in items ==> !(item.id == id && item.role == role)
  {
    if items == [] then None
    else if items[0].id == id && items[0].role == role then Some(items[0])
    else ItemFor(items[1..], id, role)
  }

  function ItemDeficit(doc: Document, role: Role, id: string): Option<Reason> {
    match ItemFor(doc.workingSet, id, role)
    case None => Some(Unavailable)
    case Some(item) => EvidenceDeficit(item.quality)
  }

  function ItemReasons(doc: Document, role: Role): string -> set<Reason> {
    id => SetOf(ItemDeficit(doc, role, id))
  }

  ghost function RoleReasons(doc: Document, role: Role): set<Reason> {
    match EntryFor(doc.roles, role)
    case None => {Unavailable}
    case Some(entry) =>
      RequirementReasons(entry.state, entry.reason)
      + (if entry.itemIds == [] then {Unavailable} else {})
      + AllOf(entry.itemIds, ItemReasons(doc, role))
  }

  function VerificationDeficit(source: Source): Option<Reason> {
    match source.verification
    case SourceVerified =>
      if source.revalidatedBeforeSeal && source.observedSha == Some(source.wholeFileSha) then None else Some(Stale)
    case SourceStale => Some(Stale)
    case SourceUnavailable => Some(Unavailable)
    case SourceUnsupported => Some(Unsupported)
  }

  function ConfinementDeficit(source: Source): Option<Reason> {
    match source.confinement
    case Confined => None
    case ConfinementUnavailable => Some(Unavailable)
    case OutsideCanonicalRoot => Some(Unsupported)
    case SymlinkEscape => Some(Unsupported)
  }

  function SourceReasons(item: Item): set<Reason> {
    if item.source.None? then {}
    else SetOf(VerificationDeficit(item.source.value)) + SetOf(ConfinementDeficit(item.source.value))
  }

  const SOURCE_BUDGETS: set<Omission> := {RecordBudget, SourceByteBudget, EstimatedTokenBudget, WorkUnitBudget}

  predicate HasSource(items: seq<Item>) {
    exists i :: 0 <= i < |items| && items[i].source.Some?
  }

  ghost function ExactSourceReasons(doc: Document): set<Reason> {
    RequirementReasons(doc.exactSource, None) + AllOf(doc.workingSet, SourceReasons)
    + (if HasSource(doc.workingSet) then {}
       else {Unavailable} + if SOURCE_BUDGETS * doc.omitted != {} then {SemanticBudgetOmitted} else {})
  }

  function ResolutionDeficit(resolution: Resolution): Option<Reason> {
    match resolution
    case ResolvedSymbol => None
    case ResolvedFile => None
    case StaleTarget => Some(Stale)
    case _ => Some(Ambiguous)
  }

  function RelationshipReasons(relationship: Relationship): set<Reason> {
    SetOf(ResolutionDeficit(relationship.resolution)) + SetOf(EvidenceDeficit(relationship.quality))
  }

  function QualityReasons(quality: Quality): set<Reason> {
    SetOf(EvidenceDeficit(quality))
  }

  function OmissionReasons(omission: Omission): set<Reason> {
    {OmissionDeficit(omission)}
  }

  ghost function CoverageReasons(c: Coverage): set<Reason> {
    AllOf(c.deficits, OmissionReasons)
    + (if c.partial > 0 || c.failed > 0 then {Unavailable} else {})
    + (if c.unsupported > 0 then {Unsupported} else {})
    + (if c.eligible == 0 || c.complete == 0 || !c.claims then {Unavailable} else {})
  }

  ghost function ValidationReasons(doc: Document): set<Reason> {
    RequirementReasons(doc.validation, None) + (if doc.validationPlan == [] then {Unavailable} else {})
    + RoleReasons(doc, ValidationTarget)
  }

  ghost function EntryReasons(doc: Document): RoleEntry -> set<Reason> {
    (entry: RoleEntry) => if entry.required then RoleReasons(doc, entry.role) else {}
  }

  predicate RequiresSomeRole(roles: seq<RoleEntry>) {
    exists i :: 0 <= i < |roles| && roles[i].required
  }

  ghost function ClosureReasons(doc: Document): set<Reason> {
    AllOf(doc.roles, EntryReasons(doc)) + (if RequiresSomeRole(doc.roles) then {} else {Unavailable})
    + ExactSourceReasons(doc) + ValidationReasons(doc)
  }

  // ---------------------------------------------------------------- the outcomes

  method Consider(deficit: Option<Reason>, candidate: Option<Reason>, ghost reasons: set<Reason>)
      returns (d: Option<Reason>)
    requires Judges(deficit, reasons)
    ensures Judges(d, reasons + SetOf(candidate))
  {
    d := deficit;
    if candidate.Some? {
      d := Preferred(d, candidate.value);
    }
  }

  method RoleCapabilityOutcome(doc: Document, role: Role) returns (outcome: Outcome)
    ensures JudgedAs(outcome, RoleReasons(doc, role))
  {
    hide Judges, EvidenceDeficit, Preferred, AllOf;
    var found := EntryFor(doc.roles, role);
    if found.None? {
      Single(Unavailable);
      return Deficit(Unavailable);
    }
    var entry := found.value;
    ghost var reasons := RequirementReasons(entry.state, entry.reason);
    var deficit := RequirementDeficit(entry.state, entry.reason);
    if entry.itemIds == [] {
      deficit := Consider(deficit, Some(Unavailable), reasons);
      reasons := reasons + {Unavailable};
    }
    NoneOf(entry.itemIds, ItemReasons(doc, role));
    assert reasons + {} == reasons;
    for i := 0 to |entry.itemIds|
      invariant Judges(deficit, reasons + AllOf(entry.itemIds[..i], ItemReasons(doc, role)))
    {
      var id := entry.itemIds[i];
      AllOfGrows(entry.itemIds, i, ItemReasons(doc, role));
      ghost var before := reasons + AllOf(entry.itemIds[..i], ItemReasons(doc, role));
      deficit := Consider(deficit, ItemDeficit(doc, role, id), before);
      assert before + SetOf(ItemDeficit(doc, role, id)) == reasons
             + AllOf(entry.itemIds[..i + 1], ItemReasons(doc, role));
    }
    assert entry.itemIds[..|entry.itemIds|] == entry.itemIds;
    assert RoleReasons(doc, role) == reasons + AllOf(entry.itemIds, ItemReasons(doc, role));
    Closed(deficit, reasons + AllOf(entry.itemIds, ItemReasons(doc, role)));
    return OutcomeOf(deficit);
  }

  method ExactSourceOutcome(doc: Document) returns (outcome: Outcome)
    ensures JudgedAs(outcome, ExactSourceReasons(doc))
  {
    hide Judges, VerificationDeficit, ConfinementDeficit, Preferred, AllOf;
    ghost var state := RequirementReasons(doc.exactSource, None);
    var items := doc.workingSet;
    var deficit := RequirementDeficit(doc.exactSource, None);
    var selected := 0;
    NoneOf(items, SourceReasons);
    assert state + {} == state;
    for i := 0 to |items|
      invariant Judges(deficit, state + AllOf(items[..i], SourceReasons))
      invariant selected > 0 <==> exists k :: 0 <= k < i && items[k].source.Some?
    {
      AllOfGrows(items, i, SourceReasons);
      ghost var before := state + AllOf(items[..i], SourceReasons);
      if items[i].source.Some? {
        var source := items[i].source.value;
        selected := selected + 1;
        deficit := Consider(deficit, VerificationDeficit(source), before);
        deficit := Consider(deficit, ConfinementDeficit(source), before + SetOf(VerificationDeficit(source)));
        assert before + SetOf(VerificationDeficit(source)) + SetOf(ConfinementDeficit(source))
            == state + AllOf(items[..i + 1], SourceReasons);
      } else {
        assert before == state + AllOf(items[..i + 1], SourceReasons);
      }
    }
    assert items[..|items|] == items;
    ghost var reasons := state + AllOf(items, SourceReasons);
    assert HasSource(items) <==> selected > 0;
    if selected == 0 {
      deficit := Consider(deficit, Some(Unavailable), reasons);
      reasons := reasons + {Unavailable};
      if SOURCE_BUDGETS * doc.omitted != {} {
        deficit := Consider(deficit, Some(SemanticBudgetOmitted), reasons);
        reasons := reasons + {SemanticBudgetOmitted};
      }
    }
    assert reasons == ExactSourceReasons(doc);
    Closed(deficit, reasons);
    return OutcomeOf(deficit);
  }

  method RelationshipOutcome(doc: Document) returns (outcome: Outcome)
    ensures JudgedAs(outcome, if doc.relationships == [] then {Unavailable}
                     else AllOf(doc.relationships, RelationshipReasons))
  {
    hide Judges, ResolutionDeficit, EvidenceDeficit, Preferred, AllOf;
    var list := doc.relationships;
    if list == [] {
      Single(Unavailable);
      return Deficit(Unavailable);
    }
    var deficit: Option<Reason> := None;
    NoneOf(list, RelationshipReasons);
    Nothing();
    for i := 0 to |list|
      invariant Judges(deficit, AllOf(list[..i], RelationshipReasons))
    {
      AllOfGrows(list, i, RelationshipReasons);
      ghost var before := AllOf(list[..i], RelationshipReasons);
      var resolution := ResolutionDeficit(list[i].resolution);
      var quality := EvidenceDeficit(list[i].quality);
      deficit := Consider(deficit, resolution, before);
      deficit := Consider(deficit, quality, before + SetOf(resolution));
      assert before + SetOf(resolution) + SetOf(quality) == AllOf(list[..i + 1], RelationshipReasons);
    }
    assert list[..|list|] == list;
    Closed(deficit, AllOf(list, RelationshipReasons));
    return OutcomeOf(deficit);
  }

  method EffectOutcome(doc: Document) returns (outcome: Outcome)
    ensures JudgedAs(outcome, if doc.effects == [] then {Unavailable} else AllOf(doc.effects, QualityReasons))
  {
    hide Judges, EvidenceDeficit, Preferred, AllOf;
    var list := doc.effects;
    if list == [] {
      Single(Unavailable);
      return Deficit(Unavailable);
    }
    var deficit: Option<Reason> := None;
    NoneOf(list, QualityReasons);
    Nothing();
    for i := 0 to |list|
      invariant Judges(deficit, AllOf(list[..i], QualityReasons))
    {
      AllOfGrows(list, i, QualityReasons);
      deficit := Consider(deficit, EvidenceDeficit(list[i]), AllOf(list[..i], QualityReasons));
    }
    assert list[..|list|] == list;
    Closed(deficit, AllOf(list, QualityReasons));
    return OutcomeOf(deficit);
  }

  method CoverageOutcome(doc: Document) returns (outcome: Outcome)
    ensures JudgedAs(outcome, CoverageReasons(doc.coverage))
  {
    hide Judges, OmissionDeficit, Preferred, AllOf;
    var c := doc.coverage;
    var deficit: Option<Reason> := None;
    NoneOf(c.deficits, OmissionReasons);
    Nothing();
    for i := 0 to |c.deficits|
      invariant Judges(deficit, AllOf(c.deficits[..i], OmissionReasons))
    {
      AllOfGrows(c.deficits, i, OmissionReasons);
      deficit := Consider(deficit, Some(OmissionDeficit(c.deficits[i])), AllOf(c.deficits[..i], OmissionReasons));
    }
    assert c.deficits[..|c.deficits|] == c.deficits;
    ghost var reasons := AllOf(c.deficits, OmissionReasons);
    if c.partial > 0 || c.failed > 0 {
      deficit := Consider(deficit, Some(Unavailable), reasons);
      reasons := reasons + {Unavailable};
    }
    if c.unsupported > 0 {
      deficit := Consider(deficit, Some(Unsupported), reasons);
      reasons := reasons + {Unsupported};
    }
    if c.eligible == 0 || c.complete == 0 || !c.claims {
      deficit := Consider(deficit, Some(Unavailable), reasons);
      reasons := reasons + {Unavailable};
    }
    assert reasons == CoverageReasons(c);
    Closed(deficit, reasons);
    return OutcomeOf(deficit);
  }

  method ValidationOutcome(doc: Document) returns (outcome: Outcome)
    ensures JudgedAs(outcome, ValidationReasons(doc))
  {
    hide Judges, Preferred, RoleReasons;
    ghost var reasons := RequirementReasons(doc.validation, None);
    var deficit := RequirementDeficit(doc.validation, None);
    if doc.validationPlan == [] {
      deficit := Consider(deficit, Some(Unavailable), reasons);
      reasons := reasons + {Unavailable};
    }
    var role := RoleCapabilityOutcome(doc, ValidationTarget);
    PartCountsInFull(deficit, reasons, role, RoleReasons(doc, ValidationTarget));
    if role.Deficit? {
      deficit := Preferred(deficit, role.reason);
    }
    assert reasons + RoleReasons(doc, ValidationTarget) == ValidationReasons(doc);
    Closed(deficit, ValidationReasons(doc));
    return OutcomeOf(deficit);
  }

  /** The first loop of `required_role_closure_outcome`: the required roles. */
  method RequiredRoles(doc: Document) returns (deficit: Option<Reason>, required: nat)
    ensures Judges(deficit, AllOf(doc.roles, EntryReasons(doc)))
    ensures required > 0 <==> RequiresSomeRole(doc.roles)
  {
    hide Judges, Preferred, RoleReasons, AllOf;
    var list := doc.roles;
    deficit, required := None, 0;
    NoneOf(list, EntryReasons(doc));
    Nothing();
    for i := 0 to |list|
      invariant Judges(deficit, AllOf(list[..i], EntryReasons(doc)))
      invariant required > 0 <==> exists k :: 0 <= k < i && list[k].required
    {
      AllOfGrows(list, i, EntryReasons(doc));
      ghost var before := AllOf(list[..i], EntryReasons(doc));
      if list[i].required {
        required := required + 1;
        var role := RoleCapabilityOutcome(doc, list[i].role);
        PartCountsInFull(deficit, before, role, RoleReasons(doc, list[i].role));
        if role.Deficit? {
          deficit := Preferred(deficit, role.reason);
        }
      } else {
        assert before + {} == before;
      }
    }
    assert list[..|list|] == list;
  }

  method RequiredRoleClosureOutcome(doc: Document) returns (outcome: Outcome)
    ensures JudgedAs(outcome, ClosureReasons(doc))
  {
    hide Judges, Preferred, ExactSourceReasons, ValidationReasons, AllOf, RequiresSomeRole;
    var deficit, required := RequiredRoles(doc);
    ghost var reasons := AllOf(doc.roles, EntryReasons(doc));
    if required == 0 {
      deficit := Consider(deficit, Some(Unavailable), reasons);
      reasons := reasons + {Unavailable};
    }
    var source := ExactSourceOutcome(doc);
    PartCountsInFull(deficit, reasons, source, ExactSourceReasons(doc));
    if source.Deficit? {
      deficit := Preferred(deficit, source.reason);
    }
    var validation := ValidationOutcome(doc);
    PartCountsInFull(deficit, reasons + ExactSourceReasons(doc), validation, ValidationReasons(doc));
    if validation.Deficit? {
      deficit := Preferred(deficit, validation.reason);
    }
    assert reasons + ExactSourceReasons(doc) + ValidationReasons(doc) == ClosureReasons(doc);
    Closed(deficit, ClosureReasons(doc));
    return OutcomeOf(deficit);
  }

  datatype Capability =
    | IdentityLookup | ExactSource | BoundedRelationships | ImpactFrontier | BasicCoverageConflicts
    | TemporalHistory | RequiredRoleClosure | ValidationPlan

  ghost function ReasonsAgainst(doc: Document, capability: Capability): set<Reason> {
    match capability
    case IdentityLookup => RoleReasons(doc, PrimaryImplementation)
    case ExactSource => ExactSourceReasons(doc)
    case BoundedRelationships =>
      if doc.relationships == [] then {Unavailable} else AllOf(doc.relationships, RelationshipReasons)
    case ImpactFrontier => if doc.effects == [] then {Unavailable} else AllOf(doc.effects, QualityReasons)
    case BasicCoverageConflicts => CoverageReasons(doc.coverage)
    case TemporalHistory => RoleReasons(doc, HistoricalConstraint)
    case RequiredRoleClosure => ClosureReasons(doc)
    case ValidationPlan => ValidationReasons(doc)
  }

  /** `deep_capability_outcome`. */
  method DeepCapabilityOutcome(doc: Document, capability: Capability) returns (outcome: Outcome)
    ensures JudgedAs(outcome, ReasonsAgainst(doc, capability))
    ensures VerdictTells(doc, capability, outcome)
  {
    hide VerdictTells, JudgedAs, RoleReasons, ExactSourceReasons, CoverageReasons, ClosureReasons,
      ValidationReasons, AllOf;
    match capability {
      case IdentityLookup => outcome := RoleCapabilityOutcome(doc, PrimaryImplementation);
      case ExactSource => outcome := ExactSourceOutcome(doc);
      case BoundedRelationships => outcome := RelationshipOutcome(doc);
      case ImpactFrontier => outcome := EffectOutcome(doc);
      case BasicCoverageConflicts => outcome := CoverageOutcome(doc);
      case TemporalHistory => outcome := RoleCapabilityOutcome(doc, HistoricalConstraint);
      case RequiredRoleClosure => outcome := RequiredRoleClosureOutcome(doc);
      case ValidationPlan => outcome := ValidationOutcome(doc);
    }
    JudgedTells(doc, capability, outcome);
  }

  // --------------------------------------------- when a document shows a reason, field by field

  /** The reasons from the gravest on. */
  const GRAVEST_FIRST: seq<Reason> :=
    [Conflicting, Stale, Ambiguous, Unsupported, SemanticBudgetOmitted, Unavailable]

  predicate OmissionShows(o: Omission, r: Reason) {
    match r
    case Conflicting => o == ConflictingEvidence
    case Stale => o == StaleEvidence || o == SourceVerificationFailed
    case Ambiguous => o == UnresolvedEvidence || o == AmbiguousSeed || o == FtsCandidateLimit
    case Unsupported => o == UnsupportedEvidence
    case SemanticBudgetOmitted =>
      || o == RecordBudget || o == SourceByteBudget || o == EstimatedTokenBudget || o == RelationshipDepthBudget
      || o == WorkUnitBudget || o == UncertaintyReserve
    case Unavailable =>
      || o == MissingRequiredRole || o == UnavailableEvidence || o == TemporalEvidenceUnavailable
      || o == ValidationTargetUnavailable
  }

  predicate StateShows(state: Requirement, r: Reason) {
    match r
    case Conflicting => state == InConflict
    case Stale => state == OutOfDate
    case Ambiguous => state == Unresolved
    case Unsupported => state == NotSupported
    case SemanticBudgetOmitted => state == BudgetOmitted
    case Unavailable => state == Missing || state == NotAvailable
  }

  predicate QualityShows(q: Quality, r: Reason) {
    match r
    case Conflicting => q == ConflictingQuality
    case Stale => q == StaleQuality
    case Ambiguous =>
      q == AmbiguousQuality || q == UnresolvedQuality || q == Inferred || q == Partial || q == External
    case Unsupported => q == UnsupportedQuality || q == Excluded
    case _ => false
  }

  /** The `k`-th entry is the first for its role. */
  predicate FirstFor(roles: seq<RoleEntry>, role: Role, k: nat) {
    k < |roles| && roles[k].role == role && forall j :: 0 <= j < k ==> roles[j].role != role
  }

  /** The `m`-th item is the first with this id and role. */
  predicate FirstItem(items: seq<Item>, id: string, role: Role, m: nat) {
    && m < |items| && items[m].id == id && items[m].role == role
    && forall j :: 0 <= j < m ==> items[j].id != id || items[j].role != role
  }

  ghost predicate ItemShows(doc: Document, role: Role, id: string, r: Reason) {
    || (r == Unavailable && !HasItem(doc.workingSet, id, role))
    || exists m: nat :: FirstItem(doc.workingSet, id, role, m) && QualityShows(doc.workingSet[m].quality, r)
  }

  ghost predicate HasItem(items: seq<Item>, id: string, role: Role) {
    exists m: nat :: FirstItem(items, id, role, m)
  }

  ghost predicate HasEntry(roles: seq<RoleEntry>, role: Role) {
    exists k: nat :: FirstFor(roles, role, k)
  }

  /** Of a role: there is no entry for it; or its first entry shows the reason. */
  ghost predicate RoleShows(doc: Document, role: Role, r: Reason) {
    || (r == Unavailable && !HasEntry(doc.roles, role))
    || exists k: nat :: FirstFor(doc.roles, role, k) && EntryShows(doc, doc.roles[k], r)
  }

  /** Of an entry: its state or its reason, that it names no item, or that an item it names is
      missing or rests on such evidence. */
  ghost predicate EntryShows(doc: Document, e: RoleEntry, r: Reason) {
    || StateShows(e.state, r)
    || (e.reason.Some? && OmissionShows(e.reason.value, r))
    || (r == Unavailable && e.itemIds == [])
    || exists i :: 0 <= i < |e.itemIds| && ItemShows(doc, e.role, e.itemIds[i], r)
  }

  predicate SourceShows(source: Source, r: Reason) {
    match r
    case Stale =>
      || source.verification == SourceStale
      || (source.verification == SourceVerified
          && (!source.revalidatedBeforeSeal || source.observedSha != Some(source.wholeFileSha)))
    case Unsupported =>
      || source.verification == SourceUnsupported
      || source.confinement == OutsideCanonicalRoot || source.confinement == SymlinkEscape
    case Unavailable => source.verification == SourceUnavailable || source.confinement == ConfinementUnavailable
    case _ => false
  }

  /** Of exact source: the state, some source, or that there is no source, and why. */
  ghost predicate ExactSourceShows(doc: Document, r: Reason) {
    || StateShows(doc.exactSource, r)
    || (exists i :: 0 <= i < |doc.workingSet| && doc.workingSet[i].source.Some?
                    && SourceShows(doc.workingSet[i].source.value, r))
    || ((forall i :: 0 <= i < |doc.workingSet| ==> doc.workingSet[i].source.None?)
        && (r == Unavailable
            || (r == SemanticBudgetOmitted
                && (RecordBudget in doc.omitted || SourceByteBudget in doc.omitted
                    || EstimatedTokenBudget in doc.omitted || WorkUnitBudget in doc.omitted))))
  }

  predicate ResolutionShows(resolution: Resolution, r: Reason) {
    match r
    case Stale => resolution == StaleTarget
    case Ambiguous =>
      || resolution == AmbiguousTarget || resolution == UnresolvedTarget || resolution == InvalidTarget
      || resolution == ExternalTarget
    case _ => false
  }

  ghost predicate RelationshipsShow(doc: Document, r: Reason) {
    || (doc.relationships == [] && r == Unavailable)
    || exists i :: 0 <= i < |doc.relationships|
                   && (ResolutionShows(doc.relationships[i].resolution, r)
                       || QualityShows(doc.relationships[i].quality, r))
  }

  ghost predicate EffectsShow(doc: Document, r: Reason) {
    || (doc.effects == [] && r == Unavailable)
    || exists i :: 0 <= i < |doc.effects| && QualityShows(doc.effects[i], r)
  }

  ghost predicate CoverageShows(c: Coverage, r: Reason) {
    || (exists i :: 0 <= i < |c.deficits| && OmissionShows(c.deficits[i], r))
    || (r == Unavailable && (c.partial > 0 || c.failed > 0 || c.eligible == 0 || c.complete == 0 || !c.claims))
    || (r == Unsupported && c.unsupported > 0)
  }

  ghost predicate ValidationShows(doc: Document, r: Reason) {
    || StateShows(doc.validation, r) || (r == Unavailable && doc.validationPlan == [])
    || RoleShows(doc, ValidationTarget, r)
  }

  ghost predicate ClosureShows(doc: Document, r: Reason) {
    || (exists k :: 0 <= k < |doc.roles| && doc.roles[k].required && RoleShows(doc, doc.roles[k].role, r))
    || (r == Unavailable && forall k :: 0 <= k < |doc.roles| ==> !doc.roles[k].required)
    || ExactSourceShows(doc, r) || ValidationShows(doc, r)
  }

  /** When a document shows a reason against a capability. */
  ghost predicate Shows(doc: Document, capability: Capability, r: Reason) {
    match capability
    case IdentityLookup => RoleShows(doc, PrimaryImplementation, r)
    case ExactSource => ExactSourceShows(doc, r)
    case BoundedRelationships => RelationshipsShow(doc, r)
    case ImpactFrontier => EffectsShow(doc, r)
    case BasicCoverageConflicts => CoverageShows(doc.coverage, r)
    case TemporalHistory => RoleShows(doc, HistoricalConstraint, r)
    case RequiredRoleClosure => ClosureShows(doc, r)
    case ValidationPlan => ValidationShows(doc, r)
  }

  lemma OmissionShowsIff(o: Omission, r: Reason)
    ensures OmissionDeficit(o) == r <==> OmissionShows(o, r)
  {
  }

  lemma StateShowsIff(state: Requirement, r: Reason)
    ensures StateDeficit(state) == Some(r) <==> StateShows(state, r)
  {
  }

  lemma QualityShowsIff(q: Quality, r: Reason)
    ensures EvidenceDeficit(q) == Some(r) <==> QualityShows(q, r)
  {
  }

  lemma ResolutionShowsIff(resolution: Resolution, r: Reason)
    ensures ResolutionDeficit(resolution) == Some(r) <==> ResolutionShows(resolution, r)
  {
  }

  lemma SourceShowsIff(source: Source, r: Reason)
    ensures VerificationDeficit(source) == Some(r) || ConfinementDeficit(source) == Some(r)
            <==> SourceShows(source, r)
  {
  }

  lemma {:induction false} EntryIsFirst(roles: seq<RoleEntry>, role: Role)
    ensures EntryFor(roles, role).Some? <==> HasEntry(roles, role)
    ensures forall k: nat :: FirstFor(roles, role, k) ==> EntryFor(roles, role) == Some(roles[k])
  {
    if roles != [] {
      if roles[0].role == role {
        assert FirstFor(roles, role, 0);
      } else {
        EntryIsFirst(roles[1..], role);
        forall k: nat | FirstFor(roles, role, k)
          ensures k > 0 && FirstFor(roles[1..], role, k - 1)
        {
        }
        if k: nat :| FirstFor(roles[1..], role, k) {
          assert FirstFor(roles, role, k + 1);
        }
      }
    }
  }

  lemma {:induction false} ItemIsFirst(items: seq<Item>, id: string, role: Role)
    ensures ItemFor(items, id, role).Some? <==> HasItem(items, id, role)
    ensures forall m: nat :: FirstItem(items, id, role, m) ==> ItemFor(items, id, role) == Some(items[m])
  {
    if items != [] {
      if items[0].id == id && items[0].role == role {
        assert FirstItem(items, id, role, 0);
      } else {
        ItemIsFirst(items[1..], id, role);
        forall m: nat | FirstItem(items, id, role, m)
          ensures m > 0 && FirstItem(items[1..], id, role, m - 1)
        {
        }
        if m: nat :| FirstItem(items[1..], id, role, m) {
          assert FirstItem(items, id, role, m + 1);
        }
      }
    }
  }

  lemma ItemShowsIff(doc: Document, role: Role, id: string, r: Reason)
    ensures ItemDeficit(doc, role, id) == Some(r) <==> ItemShows(doc, role, id, r)
  {
    hide QualityShows, EvidenceDeficit;
    ItemIsFirst(doc.workingSet, id, role);
    if m: nat :| FirstItem(doc.workingSet, id, role, m) {
      QualityShowsIff(doc.workingSet[m].quality, r);
    }
  }

  lemma EntryShowsIff(doc: Document, e: RoleEntry, r: Reason)
    ensures r in RequirementReasons(e.state, e.reason) + (if e.itemIds == [] then {Unavailable} else {})
                 + AllOf(e.itemIds, ItemReasons(doc, e.role))
            <==> EntryShows(doc, e, r)
  {
    hide ItemShows, ItemDeficit, StateShows, StateDeficit, OmissionShows, OmissionDeficit;
    StateShowsIff(e.state, r);
    if e.reason.Some? {
      OmissionShowsIff(e.reason.value, r);
    }
    forall i | 0 <= i < |e.itemIds|
      ensures r in ItemReasons(doc, e.role)(e.itemIds[i]) <==> ItemShows(doc, e.role, e.itemIds[i], r)
    {
      ItemShowsIff(doc, e.role, e.itemIds[i], r);
    }
  }

  lemma RoleShowsIff(doc: Document, role: Role, r: Reason)
    ensures r in RoleReasons(doc, role) <==> RoleShows(doc, role, r)
  {
    hide EntryShows, RequirementReasons, AllOf;
    EntryIsFirst(doc.roles, role);
    if k: nat :| FirstFor(doc.roles, role, k) {
      EntryShowsIff(doc, doc.roles[k], r);
    }
  }

  lemma ExactSourceShowsIff(doc: Document, r: Reason)
    ensures r in ExactSourceReasons(doc) <==> ExactSourceShows(doc, r)
  {
    hide StateShows, StateDeficit, SourceShows, VerificationDeficit, ConfinementDeficit;
    StateShowsIff(doc.exactSource, r);
    forall i | 0 <= i < |doc.workingSet|
      ensures r in SourceReasons(doc.workingSet[i])
              <==> doc.workingSet[i].source.Some? && SourceShows(doc.workingSet[i].source.value, r)
    {
      if doc.workingSet[i].source.Some? {
        SourceShowsIff(doc.workingSet[i].source.value, r);
      }
    }
    BudgetsMeet(doc.omitted);
  }

  lemma BudgetsMeet(omitted: set<Omission>)
    ensures SOURCE_BUDGETS * omitted != {} <==>
            || RecordBudget in omitted || SourceByteBudget in omitted
            || EstimatedTokenBudget in omitted || WorkUnitBudget in omitted
  {
    if o :| o in SOURCE_BUDGETS * omitted {
    }
    assert forall o :: o in SOURCE_BUDGETS && o in omitted ==> o in SOURCE_BUDGETS * omitted;
  }

  lemma RelationshipsShowIff(doc: Document, r: Reason)
    ensures r in ReasonsAgainst(doc, BoundedRelationships) <==> RelationshipsShow(doc, r)
  {
    hide ResolutionShows, ResolutionDeficit, QualityShows, EvidenceDeficit;
    forall i | 0 <= i < |doc.relationships|
      ensures r in RelationshipReasons(doc.relationships[i])
              <==> || ResolutionShows(doc.relationships[i].resolution, r)
                   || QualityShows(doc.relationships[i].quality, r)
    {
      ResolutionShowsIff(doc.relationships[i].resolution, r);
      QualityShowsIff(doc.relationships[i].quality, r);
    }
  }

  lemma EffectsShowIff(doc: Document, r: Reason)
    ensures r in ReasonsAgainst(doc, ImpactFrontier) <==> EffectsShow(doc, r)
  {
    hide QualityShows, EvidenceDeficit;
    forall i | 0 <= i < |doc.effects|
      ensures r in QualityReasons(doc.effects[i]) <==> QualityShows(doc.effects[i], r)
    {
      QualityShowsIff(doc.effects[i], r);
    }
  }

  lemma CoverageShowsIff(c: Coverage, r: Reason)
    ensures r in CoverageReasons(c) <==> CoverageShows(c, r)
  {
    hide OmissionShows, OmissionDeficit;
    forall i | 0 <= i < |c.deficits|
      ensures r in OmissionReasons(c.deficits[i]) <==> OmissionShows(c.deficits[i], r)
    {
      OmissionShowsIff(c.deficits[i], r);
    }
  }

  lemma ValidationShowsIff(doc: Document, r: Reason)
    ensures r in ValidationReasons(doc) <==> ValidationShows(doc, r)
  {
    hide RoleReasons, RoleShows, StateShows, StateDeficit;
    StateShowsIff(doc.validation, r);
    RoleShowsIff(doc, ValidationTarget, r);
  }

  lemma ClosureShowsIff(doc: Document, r: Reason)
    ensures r in ClosureReasons(doc) <==> ClosureShows(doc, r)
  {
    hide RoleReasons, RoleShows, ExactSourceReasons, ExactSourceShows, ValidationReasons, ValidationShows;
    forall k | 0 <= k < |doc.roles|
      ensures r in EntryReasons(doc)(doc.roles[k])
              <==> doc.roles[k].required && RoleShows(doc, doc.roles[k].role, r)
    {
      RoleShowsIff(doc, doc.roles[k].role, r);
    }
    ExactSourceShowsIff(doc, r);
    ValidationShowsIff(doc, r);
  }

  /** The reasons held against a capability are the ones that the document's fields show. */
  lemma ShowsIff(doc: Document, capability: Capability, r: Reason)
    ensures r in ReasonsAgainst(doc, capability) <==> Shows(doc, capability, r)
  {
    hide RoleReasons, RoleShows, ExactSourceReasons, ExactSourceShows, RelationshipsShow, EffectsShow,
      CoverageReasons, CoverageShows, ValidationReasons, ValidationShows, ClosureReasons, ClosureShows, AllOf;
    match capability
    case IdentityLookup => RoleShowsIff(doc, PrimaryImplementation, r);
    case ExactSource => ExactSourceShowsIff(doc, r);
    case BoundedRelationships => RelationshipsShowIff(doc, r);
    case ImpactFrontier => EffectsShowIff(doc, r);
    case BasicCoverageConflicts => CoverageShowsIff(doc.coverage, r);
    case TemporalHistory => RoleShowsIff(doc, HistoricalConstraint, r);
    case RequiredRoleClosure => ClosureShowsIff(doc, r);
    case ValidationPlan => ValidationShowsIff(doc, r);
  }

  /** The document shows the reason, and no graver one. */
  ghost predicate Gravest(doc: Document, capability: Capability, r: Reason) {
    exists i :: 0 <= i < |GRAVEST_FIRST| && GRAVEST_FIRST[i] == r && Shows(doc, capability, r)
                && forall j :: 0 <= j < i ==> !Shows(doc, capability, GRAVEST_FIRST[j])
  }

  /** A verdict is the gravest of the reasons that the document shows, or that it shows none. */
  ghost predicate VerdictTells(doc: Document, capability: Capability, outcome: Outcome) {
    match outcome
    case Satisfied => forall r :: !Shows(doc, capability, r)
    case Deficit(r) => Gravest(doc, capability, r)
  }

  lemma JudgedTells(doc: Document, capability: Capability, outcome: Outcome)
    requires JudgedAs(outcome, ReasonsAgainst(doc, capability))
    ensures VerdictTells(doc, capability, outcome)
  {
    hide Shows, ReasonsAgainst;
    forall r
      ensures r in ReasonsAgainst(doc, capability) <==> Shows(doc, capability, r)
    {
      ShowsIff(doc, capability, r);
    }
    if outcome.Deficit? {
      RankedByPriority(outcome.reason);
    }
  }

  lemma RankedByPriority(r: Reason)
    ensures Priority(r) < |GRAVEST_FIRST| && GRAVEST_FIRST[Priority(r)] == r
    ensures forall j :: 0 <= j < Priority(r) ==> Priority(GRAVEST_FIRST[j]) < Priority(r)
  {
  }

  datatype Request = Request(capability: Capability, callerSatisfied: bool)

  /** Whether the DEEP route covers one request. */
  ghost predicate Covered(doc: Document, request: Request) {
    request.callerSatisfied || forall r :: !Shows(doc, request.capability, r)
  }

  /** The accounting of `dispatch_real_deep`: each requested capability is either satisfied or
      in deficit with the gravest reason that the document shows, and the route completes exactly
      when all are covered. */
  method DispatchRealDeep(doc: Document, requests: seq<Request>)
    returns (completed: bool, useful: bool, satisfied: seq<Capability>, deficits: seq<(Capability, Reason)>)
    ensures completed <==> forall i :: 0 <= i < |requests| ==> Covered(doc, requests[i])
    ensures useful <==> requests == [] || exists i :: 0 <= i < |requests| && Covered(doc, requests[i])
    ensures |satisfied| + |deficits| == |requests|
    ensures forall c :: c in satisfied <==> exists i ::
              0 <= i < |requests| && requests[i].capability == c && Covered(doc, requests[i])
    ensures forall d :: d in deficits ==> Gravest(doc, d.0, d.1)
    ensures forall i :: 0 <= i < |requests| && !Covered(doc, requests[i]) ==>
              exists d :: d in deficits && d.0 == requests[i].capability
  {
    hide JudgedAs, ReasonsAgainst, Gravest, Shows;
    satisfied, deficits := [], [];
    for n := 0 to |requests|
      invariant |satisfied| + |deficits| == n
      invariant forall c :: c in satisfied <==> exists i ::
                  0 <= i < n && requests[i].capability == c && Covered(doc, requests[i])
      invariant forall d :: d in deficits ==> Gravest(doc, d.0, d.1)
      invariant forall i ::
                  0 <= i < n && !Covered(doc, requests[i]) ==>
                    exists d :: d in deficits && d.0 == requests[i].capability
      invariant deficits == [] <==> forall i :: 0 <= i < n ==> Covered(doc, requests[i])
      invariant satisfied == [] <==> forall i :: 0 <= i < n ==> !Covered(doc, requests[i])
    {
      var request := requests[n];
      var outcome := Satisfied;
      if !request.callerSatisfied {
        outcome := DeepCapabilityOutcome(doc, request.capability);
        DeficitIsShown(doc, request.capability, outcome);
      }
      match outcome
      case Satisfied => satisfied := satisfied + [request.capability];
      case Deficit(reason) => deficits := deficits + [(request.capability, reason)];
    }
    useful := deficits == [] || satisfied != [];
    completed := deficits == [];
  }

  lemma DeficitIsShown(doc: Document, capability: Capability, outcome: Outcome)
    requires VerdictTells(doc, capability, outcome)
    ensures outcome.Satisfied? <==> forall r :: !Shows(doc, capability, r)
    ensures outcome.Deficit? ==> Gravest(doc, capability, outcome.reason)
  {
  }

  lemma Nothing()
    ensures Judges(None, {})
  {
  }

  lemma Single(reason: Reason)
    ensures Judges(Some(reason), {reason})
  {
  }

  lemma NoneOf<T>(list: seq<T>, reasonsOf: T -> set<Reason>)
    ensures AllOf(list[..0], reasonsOf) == {}
  {
  }

  lemma Closed(deficit: Option<Reason>, reasons: set<Reason>)
    requires Judges(deficit, reasons)
    ensures JudgedAs(OutcomeOf(deficit), reasons)
  {
  }

  // -------------------------------------------------- when a capability is satisfied

  lemma ElementCounts<T>(list: seq<T>, i: nat, reasonsOf: T -> set<Reason>)
    requires i < |list|
    ensures reasonsOf(list[i]) <= AllOf(list, reasonsOf)
  {
    forall r | r in reasonsOf(list[i])
      ensures r in AllOf(list, reasonsOf)
    {
      assert Gives(list, reasonsOf, r);
    }
  }

  lemma NoReasons<T>(list: seq<T>, reasonsOf: T -> set<Reason>)
    ensures AllOf(list, reasonsOf) == {} <==> forall i :: 0 <= i < |list| ==> reasonsOf(list[i]) == {}
  {
    if AllOf(list, reasonsOf) == {} {
      forall i | 0 <= i < |list|
        ensures reasonsOf(list[i]) == {}
      {
        ElementCounts(list, i, reasonsOf);
      }
    }
  }

  /** Evidence that supports a capability on its own. */
  predicate Sound(quality: Quality) {
    quality == Verified || quality == Supported || quality == Resolved
  }

  /** A role is satisfied exactly when its first entry says so without a reason, names at least
      one item, and each named item is in the working set in that role with sound evidence. */
  lemma RoleSatisfiedIff(doc: Document, role: Role)
    ensures RoleReasons(doc, role) == {} <==>
            (match EntryFor(doc.roles, role)
             case None => false
             case Some(e) =>
               && e.state == Met && e.reason == None && e.itemIds != []
               && forall i :: 0 <= i < |e.itemIds| ==>
                    (match ItemFor(doc.workingSet, e.itemIds[i], role)
                     case None => false
                     case Some(item) => Sound(item.quality)))
  {
    hide AllOf;
    match EntryFor(doc.roles, role)
    case None =>
    case Some(e) =>
      NoReasons(e.itemIds, ItemReasons(doc, role));
  }

  /** A source that can be quoted: verified, checked again before sealing with the same hash,
      and inside the workspace. */
  predicate Quotable(source: Source) {
    && source.verification == SourceVerified && source.revalidatedBeforeSeal
    && source.observedSha == Some(source.wholeFileSha) && source.confinement == Confined
  }

  lemma ExactSourceSatisfiedIff(doc: Document)
    ensures ExactSourceReasons(doc) == {} <==>
            (&& doc.exactSource == Met && HasSource(doc.workingSet)
             && forall i ::
                  0 <= i < |doc.workingSet| && doc.workingSet[i].source.Some? ==>
                    Quotable(doc.workingSet[i].source.value))
  {
    hide AllOf;
    NoReasons(doc.workingSet, SourceReasons);
  }

  /** The closure is satisfied exactly when some role is required, every required role is
      satisfied, and so are exact source and validation. */
  lemma ClosureSatisfiedIff(doc: Document)
    ensures ClosureReasons(doc) == {} <==>
            (&& RequiresSomeRole(doc.roles)
             && (forall i ::
                   0 <= i < |doc.roles| && doc.roles[i].required ==> RoleReasons(doc, doc.roles[i].role) == {})
             && ExactSourceReasons(doc) == {} && ValidationReasons(doc) == {})
  {
    hide AllOf, RoleReasons, ExactSourceReasons, ValidationReasons, RequiresSomeRole;
    NoReasons(doc.roles, EntryReasons(doc));
  }
}
