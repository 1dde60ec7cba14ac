/** Applying plain policy overlays from the admin surface (internal/admin/policy_write.go, policy_bindings.go). */
module PolicyApply {
  import opened Prelude
  import opened Text

  const CURRENT_VERSION := 1
  const PILOT := "pilot"
  const STRICT := "strict"

  datatype Denies = Denies(tools: seq<string>, jobs: seq<string>, nodes: seq<string>, views: seq<string>,
                           artifacts: seq<string>, branches: seq<string>)

  datatype Caps = Caps(resultBytes: Option<int>, toolsPerMinute: Option<int>, toolsBurst: Option<int>)

  /** Whom a binding is for: a user by one or both of two names, or the members of a group. */
  datatype Target = User(jenkinsUserId: string, externalSubject: string) | Group(groupId: string)

  datatype Binding = Binding(target: Target, denies: Denies, caps: Caps)

  /** The three lists that narrow mutations when they are not empty. */
  datatype Mutations = Mutations(tools: seq<string>, modes: seq<string>, jobPrefixes: seq<string>)

  datatype Overlay = Overlay(version: int, forceReadOnly: bool, telemetryOff: bool, mode: string, denies: Denies,
                             caps: Caps, allow: Mutations, subjects: seq<Binding>)

  /** Checks of the policy package that are not modelled: the syntax of deny patterns, the anonymous user's name. */
  datatype Rules = Rules(patternOk: string -> bool, isAnonymous: string -> bool)

  // ---- Validation -----------------------------------------------------------------------------------------

  function Trims(l: seq<string>): (r: seq<string>)
    ensures |r| == |l| && forall i :: 0 <= i < |l| ==> r[i] == TrimSpace(l[i])
  {
    seq(|l|, i requires 0 <= i < |l| => TrimSpace(l[i]))
  }

  predicate ListOk(l: seq<string>, ok: string -> bool) {
    forall i :: 0 <= i < |l| ==> ok(TrimSpace(l[i]))
  }

  predicate NotEmpty(s: string) { s != [] }

  predicate DeniesOk(rules: Rules, d: Denies) {
    && ListOk(d.tools, NotEmpty) && ListOk(d.jobs, rules.patternOk) && ListOk(d.nodes, rules.patternOk)
    && ListOk(d.views, rules.patternOk) && ListOk(d.artifacts, rules.patternOk) && ListOk(d.branches, rules.patternOk)
  }

  predicate CapOk(cap: Option<int>) { cap.Some? ==> cap.value > 0 }

  predicate CapsOk(caps: Caps) { CapOk(caps.resultBytes) && CapOk(caps.toolsPerMinute) && CapOk(caps.toolsBurst) }

  /** A target after trimming. */
  function CleanTarget(t: Target): Target {
    match t
    case User(id, external) => User(TrimSpace(id), TrimSpace(external))
    case Group(id) => Group(TrimSpace(id))
  }

  predicate TargetOk(rules: Rules, t: Target) {
    match CleanTarget(t)
    case User(id, external) => (id != [] || external != []) && (id != [] ==> !rules.isAnonymous(id))
    case Group(id) => id != []
  }

  predicate BindingOk(rules: Rules, x: Binding) { TargetOk(rules, x.target) && DeniesOk(rules, x.denies) && CapsOk(x.caps) }

  predicate SubjectsOk(rules: Rules, subjects: seq<Binding>) {
    forall i :: 0 <= i < |subjects| ==> BindingOk(rules, subjects[i])
  }

  /** Overlay.Validate accepts. */
  predicate Valid(rules: Rules, o: Overlay) {
    && o.version == CURRENT_VERSION && o.mode in {"", PILOT, STRICT} && DeniesOk(rules, o.denies) && CapsOk(o.caps)
    && SubjectsOk(rules, o.subjects)
  }

  function CleanDenies(d: Denies): Denies {
    Denies(Trims(d.tools), Trims(d.jobs), Trims(d.nodes), Trims(d.views), Trims(d.artifacts), Trims(d.branches))
  }

  function CleanBinding(x: Binding): Binding { Binding(CleanTarget(x.target), CleanDenies(x.denies), x.caps) }

  function CleanSubjects(subjects: seq<Binding>): (r: seq<Binding>)
    ensures |r| == |subjects| && forall i :: 0 <= i < |r| ==> r[i] == CleanBinding(subjects[i])
  {
    seq(|subjects|, i requires 0 <= i < |subjects| => CleanBinding(subjects[i]))
  }

  /** What Validate leaves behind: deny lists and bindings trimmed in place. */
  function Clean(o: Overlay): Overlay {
    o.(denies := CleanDenies(o.denies), subjects := CleanSubjects(o.subjects))
  }

  method CleanList(l: seq<string>, ok: string -> bool) returns (r: Option<seq<string>>)
    ensures r == if ListOk(l, ok) then Some(Trims(l)) else None
  {
    hide TrimSpace;
    var out := [];
    for i := 0 to |l|
      invariant out == Trims(l)[..i] && forall k :: 0 <= k < i ==> ok(TrimSpace(l[k]))
    {
      var name := TrimSpace(l[i]);
      if !ok(name) { return None; }
      out := out + [name];
    }
    assert Trims(l)[..|l|] == Trims(l);
    return Some(out);
  }

  method ValidateDenies(rules: Rules, d: Denies) returns (r: Option<Denies>)
    ensures r == if DeniesOk(rules, d) then Some(CleanDenies(d)) else None
  {
    hide ListOk, Trims;
    var tools := CleanList(d.tools, NotEmpty);
    if tools.None? { return None; }
    var jobs := CleanList(d.jobs, rules.patternOk);
    if jobs.None? { return None; }
    var nodes := CleanList(d.nodes, rules.patternOk);
    if nodes.None? { return None; }
    var views := CleanList(d.views, rules.patternOk);
    if views.None? { return None; }
    var artifacts := CleanList(d.artifacts, rules.patternOk);
    if artifacts.None? { return None; }
    var branches := CleanList(d.branches, rules.patternOk);
    if branches.None? { return None; }
    return Some(Denies(tools.value, jobs.value, nodes.value, views.value, artifacts.value, branches.value));
  }

  method ValidateBinding(rules: Rules, x: Binding) returns (r: Option<Binding>)
    ensures r == if BindingOk(rules, x) then Some(CleanBinding(x)) else None
  {
    hide DeniesOk, CleanDenies, TrimSpace;
    var target := CleanTarget(x.target);
    match target {
      case User(id, external) =>
        if id == [] && external == [] { return None; }
        if id != [] && rules.isAnonymous(id) { return None; }
      case Group(id) =>
        if id == [] { return None; }
    }
    var denies := ValidateDenies(rules, x.denies);
    if denies.None? { return None; }
    if !CapsOk(x.caps) { return None; }
    return Some(Binding(target, denies.value, x.caps));
  }

  method ValidateSubjects(rules: Rules, subjects: seq<Binding>) returns (r: Option<seq<Binding>>)
    ensures r == if SubjectsOk(rules, subjects) then Some(CleanSubjects(subjects)) else None
  {
    hide BindingOk, CleanBinding;
    var out := [];
    for i := 0 to |subjects|
      invariant out == CleanSubjects(subjects)[..i]
      invariant forall k :: 0 <= k < i ==> BindingOk(rules, subjects[k])
    {
      var x := ValidateBinding(rules, subjects[i]);
      if x.None? { return None; }
      out := out + [x.value];
    }
    assert CleanSubjects(subjects)[..|subjects|] == CleanSubjects(subjects);
    return Some(out);
  }

  method Validate(rules: Rules, o: Overlay) returns (r: Option<Overlay>)
    ensures r == if Valid(rules, o) then Some(Clean(o)) else None
  {
    hide DeniesOk, CleanDenies, SubjectsOk, CleanSubjects;
    if o.version != CURRENT_VERSION { return None; }
    if o.mode != "" && o.mode != PILOT && o.mode != STRICT { return None; }
    var denies := ValidateDenies(rules, o.denies);
    if denies.None? { return None; }
    if o.caps.resultBytes.Some? && o.caps.resultBytes.value <= 0 { return None; }
    if o.caps.toolsPerMinute.Some? && o.caps.toolsPerMinute.value <= 0 { return None; }
    if o.caps.toolsBurst.Some? && o.caps.toolsBurst.value <= 0 { return None; }
    var subjects := ValidateSubjects(rules, o.subjects);
    if subjects.None? { return None; }
    return Some(o.(denies := denies.value, subjects := subjects.value));
  }

  // ---- The monotonic check --------------------------------------------------------------------------------

  /** The entries a deny list stands for. */
  function Entries(l: seq<string>): set<string> { set s | s in Trims(l) && s != [] }

  predicate Covers(current: seq<string>, proposed: seq<string>) { Entries(current) <= Entries(proposed) }

  function EffectiveCap(cap: Option<int>): Option<int> { if cap.Some? && cap.value > 0 then cap else None }

  predicate CapKept(current: Option<int>, proposed: Option<int>) {
    EffectiveCap(current).Some? ==> proposed.Some? && proposed.value <= current.value
  }

  predicate DeniesKept(a: Denies, b: Denies) {
    && Covers(a.tools, b.tools) && Covers(a.jobs, b.jobs) && Covers(a.nodes, b.nodes) && Covers(a.views, b.views)
    && Covers(a.artifacts, b.artifacts) && Covers(a.branches, b.branches)
  }

  predicate CapsKept(a: Caps, b: Caps) {
    && CapKept(a.resultBytes, b.resultBytes) && CapKept(a.toolsPerMinute, b.toolsPerMinute)
    && CapKept(a.toolsBurst, b.toolsBurst)
  }

  /** b keeps everything a enforces. */
  predicate Keeps(a: Overlay, b: Overlay) {
    && (a.forceReadOnly ==> b.forceReadOnly) && (a.telemetryOff ==> b.telemetryOff)
    && (a.mode == STRICT ==> b.mode == STRICT) && DeniesKept(a.denies, b.denies) && CapsKept(a.caps, b.caps)
  }

  predicate Restricts(current: Option<Overlay>, draft: Overlay, force: bool) {
    (force ==> draft.forceReadOnly) && (current.Some? ==> Keeps(current.value, draft))
  }

  /** denySupersetErrors: what is missing from the proposed list. */
  method Missing(current: seq<string>, proposed: seq<string>) returns (missing: seq<string>)
    ensures Elems(missing) == Entries(current) - Entries(proposed)
  {
    hide TrimSpace;
    if |current| == 0 { return []; }
    var have: set<string> := {};
    for i := 0 to |proposed|
      invariant have == Entries(proposed[..i])
    {
      EntriesStep(proposed, i);
      var p := TrimSpace(proposed[i]);
      if p != [] { have := have + {p}; }
    }
    assert proposed[..|proposed|] == proposed;
    missing := [];
    for i := 0 to |current|
      invariant Elems(missing) == Entries(current[..i]) - have
    {
      EntriesStep(current, i);
      var c := TrimSpace(current[i]);
      if c == [] { continue; }
      if c !in have {
        ElemsSnoc(missing, c);
        missing := missing + [c];
      }
    }
    assert current[..|current|] == current;
  }

  lemma {:induction false} ElemsSnoc<T>(s: seq<T>, x: T)
    ensures Elems(s + [x]) == Elems(s) + {x}
  {}

  lemma {:induction false} EntriesStep(l: seq<string>, i: nat)
    requires i < |l|
    ensures Entries(l[..i + 1]) == Entries(l[..i]) + if TrimSpace(l[i]) != [] then {TrimSpace(l[i])} else {}
  {
    hide TrimSpace;
    assert Trims(l[..i + 1]) == Trims(l[..i]) + [TrimSpace(l[i])];
  }

  method CheckList(field: string, current: seq<string>, proposed: seq<string>, errs: seq<string>) returns (r: seq<string>)
    ensures r == if Covers(current, proposed) then errs else errs + [field]
  {
    hide Entries;
    var missing := Missing(current, proposed);
    if |missing| == 0 {
      assert Elems(missing) == {};
      assert forall x :: x in Entries(current) && x !in Entries(proposed) ==> x in Entries(current) - Entries(proposed);
      return errs;
    }
    assert missing[0] in Elems(missing);
    return errs + [field];
  }

  method CheckCap(field: string, current: Option<int>, proposed: Option<int>, errs: seq<string>) returns (r: seq<string>)
    ensures r == if CapKept(current, proposed) then errs else errs + [field]
  {
    var cap := EffectiveCap(current);
    if cap.None? { return errs; }
    if proposed.None? { return errs + [field]; }
    if proposed.value > cap.value { return errs + [field]; }
    return errs;
  }

  method CheckDenies(a: Denies, b: Denies, before: seq<string>) returns (errs: seq<string>)
    ensures errs == [] <==> before == [] && DeniesKept(a, b)
  {
    hide Covers;
    errs := CheckList("deny_tools", a.tools, b.tools, before);
    errs := CheckList("deny_job_prefixes", a.jobs, b.jobs, errs);
    errs := CheckList("deny_node_names", a.nodes, b.nodes, errs);
    errs := CheckList("deny_view_names", a.views, b.views, errs);
    errs := CheckList("deny_artifact_paths", a.artifacts, b.artifacts, errs);
    errs := CheckList("deny_branch_names", a.branches, b.branches, errs);
  }

  method CheckCaps(a: Caps, b: Caps, before: seq<string>) returns (errs: seq<string>)
    ensures errs == [] <==> before == [] && CapsKept(a, b)
  {
    hide CapKept;
    errs := CheckCap("max_result_bytes", a.resultBytes, b.resultBytes, before);
    errs := CheckCap("max_tools_per_minute", a.toolsPerMinute, b.toolsPerMinute, errs);
    errs := CheckCap("max_tools_burst", a.toolsBurst, b.toolsBurst, errs);
  }

  /** checkMonotonicRestrict reports no field exactly when the draft keeps everything. */
  method CheckMonotonicRestrict(current: Option<Overlay>, draft: Overlay, currentForce: bool) returns (errs: seq<string>)
    ensures errs == [] <==> Restricts(current, draft, currentForce || (current.Some? && current.value.forceReadOnly))
  {
    hide DeniesKept, CapsKept;
    errs := [];
    var forceOn := currentForce;
    if current.Some? && current.value.forceReadOnly { forceOn := true; }
    if forceOn && !draft.forceReadOnly { errs := errs + ["force_read_only"]; }
    if current.None? { return; }
    var a := current.value;
    if a.telemetryOff && !draft.telemetryOff { errs := errs + ["fleet_telemetry_force_off"]; }
    if a.mode == STRICT && draft.mode != STRICT { errs := errs + ["mode"]; }
    errs := CheckDenies(a.denies, draft.denies, errs);
    errs := CheckCaps(a.caps, draft.caps, errs);
  }

  // ---- The check as a relation ------------------------------------------------------------------------------

  lemma {:induction false} KeepsReflexive(o: Overlay)
    ensures Keeps(o, o) && Restricts(Some(o), o, o.forceReadOnly)
  {
    hide Entries;
  }

  predicate CapCarried(a: Option<int>, b: Option<int>) { EffectiveCap(a).Some? ==> EffectiveCap(b).Some? }

  predicate CapsCarried(a: Caps, b: Caps) {
    CapCarried(a.resultBytes, b.resultBytes) && CapCarried(a.toolsPerMinute, b.toolsPerMinute) && CapCarried(a.toolsBurst, b.toolsBurst)
  }

  /** The relation chains through b exactly when b did not answer a cap with one that is not positive. */
  lemma {:induction false} KeepsChainsIff(a: Overlay, b: Overlay)
    requires Keeps(a, b)
    ensures (forall c :: Keeps(b, c) ==> Keeps(a, c)) <==> CapsCarried(a.caps, b.caps)
  {
    hide Entries;
    if !CapCarried(a.caps.resultBytes, b.caps.resultBytes) { DropsCap(a, b, b.caps.(resultBytes := None)); }
    if !CapCarried(a.caps.toolsPerMinute, b.caps.toolsPerMinute) { DropsCap(a, b, b.caps.(toolsPerMinute := None)); }
    if !CapCarried(a.caps.toolsBurst, b.caps.toolsBurst) { DropsCap(a, b, b.caps.(toolsBurst := None)); }
  }

  lemma {:induction false} DropsCap(a: Overlay, b: Overlay, caps: Caps)
    requires CapsKept(b.caps, caps) && !CapsKept(a.caps, caps)
    ensures Keeps(b, b.(caps := caps)) && !Keeps(a, b.(caps := caps))
  {
    hide Entries;
  }

  /** On valid overlays the relation is therefore transitive. */
  lemma {:induction false} KeepsTransitive(rules: Rules, a: Overlay, b: Overlay, c: Overlay)
    requires Valid(rules, b) && Keeps(a, b) && Keeps(b, c)
    ensures Keeps(a, c)
  {
    KeepsChainsIff(a, b);
  }

  /** Trimming changes neither what an overlay enforces nor whether it is valid. */
  lemma {:induction false} CleanIsSame(rules: Rules, o: Overlay)
    requires Valid(rules, o)
    ensures Valid(rules, Clean(o)) && Keeps(o, Clean(o)) && Keeps(Clean(o), o) && Clean(Clean(o)) == Clean(o)
  {
    hide DeniesOk, DeniesKept, CleanDenies, SubjectsOk, CleanSubjects;
    CleanDeniesIsSame(rules, o.denies);
    CleanSubjectsIsSame(rules, o.subjects);
  }

  lemma {:induction false} CleanDeniesIsSame(rules: Rules, d: Denies)
    requires DeniesOk(rules, d)
    ensures DeniesOk(rules, CleanDenies(d)) && DeniesKept(d, CleanDenies(d)) && DeniesKept(CleanDenies(d), d)
    ensures CleanDenies(CleanDenies(d)) == CleanDenies(d)
  {
    hide Covers, ListOk, Trims;
    CleanListIsSame(d.tools, NotEmpty);
    CleanListIsSame(d.jobs, rules.patternOk);
    CleanListIsSame(d.nodes, rules.patternOk);
    CleanListIsSame(d.views, rules.patternOk);
    CleanListIsSame(d.artifacts, rules.patternOk);
    CleanListIsSame(d.branches, rules.patternOk);
  }

  lemma {:induction false} CleanSubjectsIsSame(rules: Rules, subjects: seq<Binding>)
    requires SubjectsOk(rules, subjects)
    ensures SubjectsOk(rules, CleanSubjects(subjects)) && CleanSubjects(CleanSubjects(subjects)) == CleanSubjects(subjects)
  {
    hide DeniesOk, CleanDenies, TrimSpace;
    forall i | 0 <= i < |subjects|
      ensures BindingOk(rules, CleanBinding(subjects[i]))
      ensures CleanBinding(CleanBinding(subjects[i])) == CleanBinding(subjects[i])
    {
      CleanDeniesIsSame(rules, subjects[i].denies);
    }
  }

  lemma {:induction false} CleanListIsSame(l: seq<string>, ok: string -> bool)
    requires ListOk(l, ok)
    ensures ListOk(Trims(l), ok) && Covers(l, Trims(l)) && Covers(Trims(l), l) && Trims(Trims(l)) == Trims(l)
  {
    assert forall i :: 0 <= i < |l| ==> TrimSpace(TrimSpace(l[i])) == TrimSpace(l[i]);
    assert Trims(Trims(l)) == Trims(l);
  }

  // ---- The policy file --------------------------------------------------------------------------------------

  datatype Disk = Absent | Unreadable | Plain(overlay: Overlay)

  /** loadCurrentPolicyBaseline: the validated overlay, nothing, or an error. */
  function Baseline(rules: Rules, disk: Disk): Result<Option<Overlay>, ()> {
    match disk
    case Absent => Ok(None)
    case Unreadable => Err(())
    case Plain(o) => if Valid(rules, o) then Ok(Some(Clean(o))) else Err(())
  }

  predicate ForceOf(base: Option<Overlay>) { base.Some? && base.value.forceReadOnly }

  datatype Reply = Applied | Refused | WriteFailed

  /** handlePolicyApply; blocked when only signed policies may be written. */
  function AfterApply(rules: Rules, disk: Disk, draft: Overlay, blocked: bool, write: Outcome): (Disk, Reply) {
    if blocked || !Valid(rules, draft) then (disk, Refused)
    else match Baseline(rules, disk)
      case Err(_) => (disk, Refused)
      case Ok(base) =>
        if !Restricts(base, Clean(draft), ForceOf(base)) then (disk, Refused)
        else if write != Done then (disk, WriteFailed) else (Plain(Clean(draft)), Applied)
  }

  const SHELL := Overlay(CURRENT_VERSION, true, false, PILOT, Denies([], [], [], [], [], []), Caps(None, None, None),
                         Mutations([], [], []), [])

  /** handlePolicyBindingsPUT: replaces the subjects of the current overlay, or of a fresh read-only one. */
  function AfterBindings(rules: Rules, disk: Disk, subjects: seq<Binding>, blocked: bool, write: Outcome): (Disk, Reply) {
    if blocked || !SubjectsOk(rules, subjects) then (disk, Refused)
    else match Baseline(rules, disk)
      case Err(_) => (disk, Refused)
      case Ok(base) =>
        var next := (if base.Some? then base.value else SHELL).(subjects := CleanSubjects(subjects));
        if write != Done then (disk, WriteFailed) else (Plain(next), Applied)
  }

  class PolicyFile {
    const rules: Rules
    var disk: Disk

    constructor (rules: Rules, disk: Disk)
      ensures this.rules == rules && this.disk == disk
    {
      this.rules, this.disk := rules, disk;
    }

    method LoadBaseline() returns (r: Result<Option<Overlay>, ()>)
      ensures r == Baseline(rules, disk)
    {
      if disk.Absent? { return Ok(None); }
      if disk.Unreadable? { return Err(()); }
      var o := Validate(rules, disk.overlay);
      return if o.Some? then Ok(Some(o.value)) else Err(());
    }

    method Apply(draft: Overlay, blocked: bool, write: Outcome) returns (r: Reply)
      modifies `disk
      ensures (disk, r) == AfterApply(rules, old(disk), draft, blocked, write)
    {
      hide Valid, Clean, Keeps;
      if blocked { return Refused; }
      var clean := Validate(rules, draft);
      if clean.None? { return Refused; }
      var base := LoadBaseline();
      if base.Err? { return Refused; }
      var errs := CheckMonotonicRestrict(base.value, clean.value, ForceOf(base.value));
      if |errs| > 0 { return Refused; }
      if write != Done { return WriteFailed; }
      disk := Plain(clean.value);
      return Applied;
    }

    method PutBindings(subjects: seq<Binding>, blocked: bool, write: Outcome) returns (r: Reply)
      modifies `disk
      ensures (disk, r) == AfterBindings(rules, old(disk), subjects, blocked, write)
    {
      hide Clean;
      if blocked { return Refused; }
      var clean := ValidateSubjects(rules, subjects);
      if clean.None? { return Refused; }
      var base := LoadBaseline();
      if base.Err? { return Refused; }
      var next := if base.value.Some? then base.value.value else SHELL;
      next := next.(subjects := clean.value);
      var checked := Validate(rules, next);
      WithSubjectsValid(rules, disk, subjects);
      if checked.None? { return Refused; }
      if write != Done { return WriteFailed; }
      disk := Plain(checked.value);
      return Applied;
    }
  }

  /** The overlay a bindings write produces passes validation again, unchanged. */
  lemma {:induction false} WithSubjectsValid(rules: Rules, disk: Disk, subjects: seq<Binding>)
    requires SubjectsOk(rules, subjects) && Baseline(rules, disk).Ok?
    ensures var base := Baseline(rules, disk).value;
            var next := (if base.Some? then base.value else SHELL).(subjects := CleanSubjects(subjects));
            Valid(rules, next) && Clean(next) == next
  {
    hide TrimSpace, BindingOk, CleanBinding;
    CleanSubjectsIsSame(rules, subjects);
    if disk.Plain? { CleanIsSame(rules, disk.overlay); }
  }

  datatype Op = Apply(draft: Overlay, blocked: bool, write: Outcome)
              | Bind(subjects: seq<Binding>, blocked: bool, write: Outcome)

  function Step(rules: Rules, disk: Disk, op: Op): Disk {
    match op
    case Apply(draft, blocked, write) => AfterApply(rules, disk, draft, blocked, write).0
    case Bind(subjects, blocked, write) => AfterBindings(rules, disk, subjects, blocked, write).0
  }

  function Run(rules: Rules, disk: Disk, ops: seq<Op>): Disk
    decreases |ops|
  {
    if ops == [] then disk else Run(rules, Step(rules, disk, ops[0]), ops[1..])
  }

  lemma {:induction false} StepKeeps(rules: Rules, o: Overlay, op: Op)
    requires Valid(rules, o)
    ensures var next := Step(rules, Plain(o), op); next.Plain? && Valid(rules, next.overlay) && Keeps(o, next.overlay)
  {
    hide Valid, Keeps, Clean;
    CleanIsSame(rules, o);
    KeepsReflexive(o);
    match op
    case Apply(draft, _, _) =>
      if Valid(rules, draft) {
        CleanIsSame(rules, draft);
        if Keeps(Clean(o), Clean(draft)) { KeepsTransitive(rules, o, Clean(o), Clean(draft)); }
      }
    case Bind(subjects, _, _) =>
      if SubjectsOk(rules, subjects) {
        WithSubjectsValid(rules, Plain(o), subjects);
        SubjectsAreUnchecked(Clean(o), CleanSubjects(subjects));
        KeepsTransitive(rules, o, Clean(o), Clean(o).(subjects := CleanSubjects(subjects)));
      }
  }

  lemma {:induction false} SubjectsAreUnchecked(o: Overlay, subjects: seq<Binding>)
    ensures Keeps(o, o.(subjects := subjects))
  {
    hide Entries;
  }

  /**
   * After any run of applies and bindings writes over a valid policy file, whatever is refused or fails on
   * the way: the force flags and strict mode stay on, every deny set still contains the original one, and
   * every cap is still set and no larger.
   */
  lemma {:induction false} RunKeeps(rules: Rules, o: Overlay, ops: seq<Op>)
    requires Valid(rules, o)
    ensures var last := Run(rules, Plain(o), ops); last.Plain? && Valid(rules, last.overlay) && Keeps(o, last.overlay)
    decreases |ops|
  {
    hide Valid, Keeps, Step;
    if ops == [] {
      KeepsReflexive(o);
    } else {
      StepKeeps(rules, o, ops[0]);
      var next := Step(rules, Plain(o), ops[0]).overlay;
      RunKeeps(rules, next, ops[1..]);
      KeepsTransitive(rules, o, next, Run(rules, Plain(next), ops[1..]).overlay);
    }
  }

  // ---- The decisions spelled out ----------------------------------------------------------------------------

  /** Deny lists and caps the policy package accepts. */
  ghost predicate Acceptable(rules: Rules, d: Denies, caps: Caps) {
    && (forall s :: s in d.tools ==> TrimSpace(s) != "")
    && (forall s :: s in d.jobs + d.nodes + d.views + d.artifacts + d.branches ==> rules.patternOk(TrimSpace(s)))
    && (forall v: int :: v <= 0 ==> Some(v) !in {caps.resultBytes, caps.toolsPerMinute, caps.toolsBurst})
  }

  /** A target that names somebody, and not the anonymous user. */
  predicate Addressed(rules: Rules, t: Target) {
    match t
    case Group(id) => TrimSpace(id) != ""
    case User(id, external) =>
      if TrimSpace(id) == "" then TrimSpace(external) != "" else !rules.isAnonymous(TrimSpace(id))
  }

  /** Which overlays are valid, field by field. */
  lemma {:induction false} ValidIff(rules: Rules, o: Overlay)
    ensures Valid(rules, o) <==> (
      && o.version == 1 && (o.mode == "" || o.mode == "pilot" || o.mode == "strict")
      && Acceptable(rules, o.denies, o.caps)
      && (forall x :: x in o.subjects ==> Addressed(rules, x.target) && Acceptable(rules, x.denies, x.caps)))
  {
    hide TrimSpace;
    AcceptableIff(rules, o.denies, o.caps);
    forall x | x in o.subjects
      ensures BindingOk(rules, x) <==> Addressed(rules, x.target) && Acceptable(rules, x.denies, x.caps)
    {
      AcceptableIff(rules, x.denies, x.caps);
    }
  }

  lemma {:induction false} AcceptableIff(rules: Rules, d: Denies, caps: Caps)
    ensures Acceptable(rules, d, caps) <==> DeniesOk(rules, d) && CapsOk(caps)
  {
    hide TrimSpace, ListOk;
    var others := d.jobs + d.nodes + d.views + d.artifacts + d.branches;
    ListOkIff(d.tools, NotEmpty);
    ListOkIff(d.jobs, rules.patternOk);
    ListOkIff(d.nodes, rules.patternOk);
    ListOkIff(d.views, rules.patternOk);
    ListOkIff(d.artifacts, rules.patternOk);
    ListOkIff(d.branches, rules.patternOk);
    assert forall s :: s in others <==> s in d.jobs || s in d.nodes || s in d.views || s in d.artifacts || s in d.branches;
    CapOkIff(caps.resultBytes);
    CapOkIff(caps.toolsPerMinute);
    CapOkIff(caps.toolsBurst);
  }

  lemma {:induction false} ListOkIff(l: seq<string>, ok: string -> bool)
    ensures ListOk(l, ok) <==> forall s :: s in l ==> ok(TrimSpace(s))
  {
    hide TrimSpace;
  }

  lemma {:induction false} CapOkIff(cap: Option<int>)
    ensures CapOk(cap) <==> forall v: int :: v <= 0 ==> Some(v) != cap
  {
    if cap.Some? && cap.value <= 0 { assert Some(cap.value) == cap; }
  }

  /** Every name the current list denies is still denied by the proposed one. */
  ghost predicate StillDenied(current: seq<string>, proposed: seq<string>) {
    forall s :: s in current && TrimSpace(s) != "" ==> exists t :: t in proposed && TrimSpace(t) == TrimSpace(s)
  }

  /** A cap in force stays in force and grows no larger. */
  ghost predicate StillCapped(current: Option<int>, proposed: Option<int>) {
    forall v: int :: v > 0 && current == Some(v) ==> exists w: int :: w <= v && proposed == Some(w)
  }

  /** What the monotonic check compares, field by field. */
  lemma {:induction false} KeepsIff(a: Overlay, b: Overlay)
    ensures Keeps(a, b) <==> (
      && (!a.forceReadOnly || b.forceReadOnly) && (!a.telemetryOff || b.telemetryOff)
      && (a.mode != "strict" || b.mode == "strict")
      && StillDenied(a.denies.tools, b.denies.tools) && StillDenied(a.denies.jobs, b.denies.jobs)
      && StillDenied(a.denies.nodes, b.denies.nodes) && StillDenied(a.denies.views, b.denies.views)
      && StillDenied(a.denies.artifacts, b.denies.artifacts) && StillDenied(a.denies.branches, b.denies.branches)
      && StillCapped(a.caps.resultBytes, b.caps.resultBytes)
      && StillCapped(a.caps.toolsPerMinute, b.caps.toolsPerMinute)
      && StillCapped(a.caps.toolsBurst, b.caps.toolsBurst))
  {
    hide Covers, StillDenied, CapKept, StillCapped;
    CoversIff(a.denies.tools, b.denies.tools);
    CoversIff(a.denies.jobs, b.denies.jobs);
    CoversIff(a.denies.nodes, b.denies.nodes);
    CoversIff(a.denies.views, b.denies.views);
    CoversIff(a.denies.artifacts, b.denies.artifacts);
    CoversIff(a.denies.branches, b.denies.branches);
    CapKeptIff(a.caps.resultBytes, b.caps.resultBytes);
    CapKeptIff(a.caps.toolsPerMinute, b.caps.toolsPerMinute);
    CapKeptIff(a.caps.toolsBurst, b.caps.toolsBurst);
  }

  lemma {:induction false} EntryIff(l: seq<string>, e: string)
    ensures e in Entries(l) <==> e != "" && exists s :: s in l && TrimSpace(s) == e
  {
    hide TrimSpace;
    if e in Entries(l) {
      var i :| 0 <= i < |l| && Trims(l)[i] == e;
      assert l[i] in l;
    }
    if s :| s in l && TrimSpace(s) == e {
      var i :| 0 <= i < |l| && l[i] == s;
      assert Trims(l)[i] == e;
    }
  }

  lemma {:induction false} CoversIff(current: seq<string>, proposed: seq<string>)
    ensures Covers(current, proposed) <==> StillDenied(current, proposed)
  {
    hide TrimSpace, Entries;
    forall e ensures e in Entries(current) <==> e != "" && exists s :: s in current && TrimSpace(s) == e {
      EntryIff(current, e);
    }
    forall e ensures e in Entries(proposed) <==> e != "" && exists s :: s in proposed && TrimSpace(s) == e {
      EntryIff(proposed, e);
    }
    if StillDenied(current, proposed) {
      forall e | e in Entries(current) ensures e in Entries(proposed) {
        var s :| s in current && TrimSpace(s) == e;
        var t :| t in proposed && TrimSpace(t) == TrimSpace(s);
      }
    }
    if Covers(current, proposed) {
      forall s | s in current && TrimSpace(s) != "" ensures exists t :: t in proposed && TrimSpace(t) == TrimSpace(s) {
        assert TrimSpace(s) in Entries(current);
      }
    }
  }

  lemma {:induction false} CapKeptIff(current: Option<int>, proposed: Option<int>)
    ensures CapKept(current, proposed) <==> StillCapped(current, proposed)
  {
    if current.Some? && current.value > 0 {
      if StillCapped(current, proposed) {
        var w: int :| w <= current.value && proposed == Some(w);
      }
      if CapKept(current, proposed) { assert Some(proposed.value) == proposed; }
    }
  }

  /** The file as it is lets itself be replaced: it is readable and valid, if there is one. */
  predicate Replaceable(rules: Rules, disk: Disk) { disk.Absent? || (disk.Plain? && Valid(rules, disk.overlay)) }

  /**
   * An apply goes through exactly when it is not blocked, the draft is valid, and the file as it is on disk
   * is absent, or valid and kept by the draft, trimmed or not. Only then is the file written.
   */
  lemma {:induction false} ApplyIff(rules: Rules, disk: Disk, draft: Overlay, blocked: bool, write: Outcome)
    ensures var allowed := !blocked && Valid(rules, draft) && Replaceable(rules, disk) && (disk.Plain? ==> Keeps(disk.overlay, draft));
            var (after, reply) := AfterApply(rules, disk, draft, blocked, write);
            && (allowed <==> reply != Refused)
            && (reply == Applied <==> allowed && write == Done)
            && (reply == Applied ==> after == Plain(Clean(draft)))
            && (reply != Applied ==> after == disk)
  {
    hide Valid, Keeps, Clean;
    if Valid(rules, draft) {
      CleanIsSame(rules, draft);
      if disk.Plain? && Valid(rules, disk.overlay) {
        CleanKeepsIff(rules, disk.overlay, draft);
        if Keeps(disk.overlay, draft) { ForceIsKept(disk.overlay, draft); }
      }
    }
  }

  /**
   * A bindings write goes through exactly when it is not blocked, every binding is valid, and the file is
   * absent or valid. It changes the subjects and leaves every other field as it was; where there was no
   * file it starts one that only forces read-only.
   */
  lemma {:induction false} BindingsIff(rules: Rules, disk: Disk, subjects: seq<Binding>, blocked: bool, write: Outcome)
    ensures var allowed := !blocked && (forall x :: x in subjects ==> BindingOk(rules, x)) && Replaceable(rules, disk);
            var (after, reply) := AfterBindings(rules, disk, subjects, blocked, write);
            && (allowed <==> reply != Refused)
            && (reply == Applied <==> allowed && write == Done)
            && (reply != Applied ==> after == disk)
            && (reply == Applied ==> after.Plain? && after.overlay.subjects == CleanSubjects(subjects))
            && (reply == Applied && disk.Plain? ==>
                  after.overlay.(subjects := disk.overlay.subjects) == disk.overlay.(denies := CleanDenies(disk.overlay.denies)))
            && (reply == Applied && disk.Absent? ==>
                  && after.overlay.version == 1 && after.overlay.forceReadOnly && !after.overlay.telemetryOff
                  && after.overlay.mode == "pilot" && after.overlay.caps == Caps(None, None, None)
                  && after.overlay.denies == Denies([], [], [], [], [], [])
                  && after.overlay.allow == Mutations([], [], []))
  {
    hide TrimSpace, BindingOk, CleanBinding;
  }

  lemma {:induction false} ForceIsKept(a: Overlay, b: Overlay)
    requires Keeps(Clean(a), Clean(b))
    ensures Clean(a).forceReadOnly ==> Clean(b).forceReadOnly
  {
    hide DeniesKept, CapsKept, CleanDenies, CleanSubjects;
  }

  lemma {:induction false} CleanKeepsIff(rules: Rules, a: Overlay, b: Overlay)
    requires Valid(rules, a) && Valid(rules, b)
    ensures Keeps(Clean(a), Clean(b)) <==> Keeps(a, b)
  {
    hide Valid, Keeps, Clean;
    CleanIsSame(rules, a);
    CleanIsSame(rules, b);
    if Keeps(a, b) {
      KeepsTransitive(rules, Clean(a), a, b);
      KeepsTransitive(rules, Clean(a), b, Clean(b));
    }
    if Keeps(Clean(a), Clean(b)) {
      KeepsTransitive(rules, a, Clean(a), Clean(b));
      KeepsTransitive(rules, a, Clean(b), b);
    }
  }

  /** A run is its events in order. */
  lemma {:induction false} RunSnoc(rules: Rules, disk: Disk, ops: seq<Op>, op: Op)
    ensures Run(rules, disk, []) == disk
    ensures Run(rules, disk, ops + [op]) == Step(rules, Run(rules, disk, ops), op)
    decreases |ops|
  {
    hide Step;
    if ops == [] {
      assert (ops + [op])[1..] == [];
    } else {
      assert (ops + [op])[1..] == ops[1..] + [op];
      RunSnoc(rules, Step(rules, disk, ops[0]), ops[1..], op);
    }
  }
}
