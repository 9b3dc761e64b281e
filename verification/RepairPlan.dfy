/** Grouping a report's findings into a repair plan. */
module RepairPlan {
  import opened Options
  import opened Validation

  datatype Action =
    | ClearEmptyFileExtents
    | NormaliseDirectoryLengths
    | PadReservedTail
    | RebuildFreeSpaceMap
    | ResolveCatalogueExtents
    | RestoreGeometry
    | RestoreUnreadableStructure

  /** Plans list their actions alphabetically by action name. */
  const PLAN_ORDER: seq<Action> :=
    [ClearEmptyFileExtents, NormaliseDirectoryLengths, PadReservedTail, RebuildFreeSpaceMap,
     ResolveCatalogueExtents, RestoreGeometry, RestoreUnreadableStructure]

  datatype Risk = Low | Medium | High

  datatype Template = Template(action: Action, risk: Risk, automaticCandidate: bool, requiresManualDecision: bool)

  datatype PlannedAction = PlannedAction(template: Template, codes: set<Code>, paths: set<string>)

  datatype Plan = Plan(report: Report, actions: seq<PlannedAction>) {
    predicate Clean() {
      report.findings == []
    }

    predicate ApplicationSupported() {
      && actions != []
      && !HasFatal(report.findings)
      && forall i :: 0 <= i < |actions| ==> Supported(actions[i].template)
    }
  }

  predicate Supported(t: Template) {
    && t.action in {ClearEmptyFileExtents, NormaliseDirectoryLengths, PadReservedTail}
    && t.risk == Low
    && t.automaticCandidate
    && !t.requiresManualDecision
  }

  function TemplateOf(action: Action): Template {
    match action
    case ClearEmptyFileExtents => Template(action, Low, true, false)
    case NormaliseDirectoryLengths => Template(action, Low, true, false)
    case PadReservedTail => Template(action, Low, true, false)
    case RebuildFreeSpaceMap => Template(action, High, true, false)
    case ResolveCatalogueExtents => Template(action, High, false, true)
    case RestoreGeometry => Template(action, High, false, true)
    case RestoreUnreadableStructure => Template(action, High, false, true)
  }

  function ActionFor(code: Code): Option<Action> {
    match code
    case DatMissingReservedTail => Some(PadReservedTail)
    case ReservedTail => None
    case DatUnaligned | DatShort | DatOversized | MapExceedsDat | MapExceedsDsc => Some(RestoreGeometry)
    case Structure | RootUnreadable | DirectoryUnreadable | DirectoryCycle => Some(RestoreUnreadableStructure)
    case FreeEmpty | FreeOutOfRange | FreeOverlap | FreeUsedOverlap | FreeUnreadable | Unaccounted =>
      Some(RebuildFreeSpaceMap)
    case UsedOutOfRange | UsedOverlap => Some(ResolveCatalogueExtents)
    case DirectoryLengthUnusual => Some(NormaliseDirectoryLengths)
    case EmptyHasExtent => Some(ClearEmptyFileExtents)
  }

  predicate Addresses(action: Action, f: Finding) {
    ActionFor(f.code) == Some(action)
  }

  function CodesFor(findings: seq<Finding>, action: Action): set<Code> {
    set f | f in findings && Addresses(action, f) :: f.code
  }

  function PathsFor(findings: seq<Finding>, action: Action): set<string> {
    set f | f in findings && Addresses(action, f) && f.path != "" :: f.path
  }

  /** The three actions a plan may carry out by itself, and the finding each of them is for; every fatal finding
      calls for another. */
  lemma ActionsMean(findings: seq<Finding>, f: Finding)
    ensures Addresses(NormaliseDirectoryLengths, f) <==> f.code == DirectoryLengthUnusual
    ensures Addresses(ClearEmptyFileExtents, f) <==> f.code == EmptyHasExtent
    ensures Addresses(PadReservedTail, f) <==> f.code == DatMissingReservedTail
    ensures ActionFor(f.code).None? <==> f.code == ReservedTail
    ensures forall a :: Supported(TemplateOf(a)) <==>
                          a == NormaliseDirectoryLengths || a == ClearEmptyFileExtents || a == PadReservedTail
  {
  }

  /** What a plan for these findings must contain, action by action. */
  function PlanFrom(findings: seq<Finding>, order: seq<Action>): seq<PlannedAction> {
    if order == [] then []
    else
      (if CodesFor(findings, order[0]) == {} then []
       else [PlannedAction(TemplateOf(order[0]), CodesFor(findings, order[0]), PathsFor(findings, order[0]))])
      + PlanFrom(findings, order[1..])
  }

  datatype Group = Group(codes: set<Code>, paths: set<string>)

  function GroupFor(findings: seq<Finding>, a: Action): Group {
    Group(CodesFor(findings, a), PathsFor(findings, a))
  }

  /** The grouping dictionary after some findings. */
  ghost predicate Grouped(findings: seq<Finding>, grouped: map<Action, Group>) {
    forall a :: if a in grouped then grouped[a] == GroupFor(findings, a) && CodesFor(findings, a) != {}
                else GroupFor(findings, a) == Group({}, {})
  }

  function Extended(g: Group, f: Finding): Group {
    Group(g.codes + {f.code}, if f.path != "" then g.paths + {f.path} else g.paths)
  }

  /** A finding joins the group of the one action that addresses it. */
  lemma SnocGroup(findings: seq<Finding>, f: Finding, a: Action)
    ensures GroupFor(findings + [f], a)
            == if Addresses(a, f) then Extended(GroupFor(findings, a), f) else GroupFor(findings, a)
    ensures Addresses(a, f) ==> CodesFor(findings + [f], a) != {}
  {
  }

  lemma GroupedStep(findings: seq<Finding>, f: Finding, grouped: map<Action, Group>, next: map<Action, Group>)
    requires Grouped(findings, grouped)
    requires var action := ActionFor(f.code);
             if action.None? then next == grouped
             else next == grouped[action.value := Extended(if action.value in grouped then
                 grouped[action.value] else Group({}, {}), f)]
    ensures Grouped(findings + [f], next)
  {
    forall a
      ensures if a in next then next[a] == GroupFor(findings + [f], a) && CodesFor(findings + [f], a) != {}
              else GroupFor(findings + [f], a) == Group({}, {})
    {
      SnocGroup(findings, f, a);
      assert CodesFor(findings, a) == GroupFor(findings, a).codes;
      assert CodesFor(findings + [f], a) == GroupFor(findings + [f], a).codes;
    }
  }

  method GroupFindings(findings: seq<Finding>) returns (grouped: map<Action, Group>)
    ensures Grouped(findings, grouped)
  {
    grouped := map[];
    for i := 0 to |findings|
      invariant Grouped(findings[..i], grouped)
    {
      var finding := findings[i];
      assert findings[..i + 1] == findings[..i] + [finding];
      var addressed := ActionFor(finding.code);
      ghost var before := grouped;
      if addressed.Some? {
        var action := addressed.value;
        var group := if action in grouped then grouped[action] else Group({}, {});
        grouped := grouped[action := Extended(group, finding)];
      }
      GroupedStep(findings[..i], finding, before, grouped);
    }
    assert findings[..|findings|] == findings;
  }

  method OrderedActions(findings: seq<Finding>, grouped: map<Action, Group>,
      order: seq<Action>) returns (actions: seq<PlannedAction>)
    requires Grouped(findings, grouped)
    ensures actions == PlanFrom(findings, order)
  {
    actions := [];
    for i := |order| downto 0
      invariant actions == PlanFrom(findings, order[i..])
    {
      var action := order[i];
      assert order[i..][0] == action && order[i..][1..] == order[i + 1..];
      if action in grouped {
        actions := [PlannedAction(TemplateOf(action), grouped[action].codes, grouped[action].paths)] + actions;
      }
    }
    assert order[0..] == order;
  }

  /** The plan lists, in name order, each action that addresses some finding, with exactly the codes
      and paths of the findings it addresses. */
  method PlanRepairs(report: Report) returns (plan: Plan)
    ensures plan == Plan(report, PlanFrom(report.findings, PLAN_ORDER))
  {
    var grouped := GroupFindings(report.findings);
    var actions := OrderedActions(report.findings, grouped, PLAN_ORDER);
    plan := Plan(report, actions);
  }
}
