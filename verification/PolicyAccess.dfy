/** What a policy lets through (internal/policy), and when an accepted overlay lets through no more. */
module PolicyAccess {
  import opened Prelude
  import opened Text
  import opened PolicyApply

  // ---- Calls ------------------------------------------------------------------------------------------------

  const INTERRUPT := "jenkins_interrupt_build"
  const STOP := "jenkins_stop_build"
  const CANCEL := "jenkins_cancel_queue_item"

  /** The closed set of tools that change something. */
  const MUTATIONS: set<string> := {
    "jenkins_start_job", STOP, CANCEL, INTERRUPT, "jenkins_rebuild_build", "jenkins_replay_pipeline",
    "jenkins_set_job_buildable", "jenkins_set_build_keep_forever", "jenkins_set_build_description",
    "jenkins_cancel_queue_items_for_job"
  }

  /** Those that compare their job with the allowed prefixes. */
  const JOB_CHECKED: set<string> := MUTATIONS - {STOP, CANCEL}

  const MODES: set<string> := {"stop", "term", "kill"}

  /** How a tool takes an argument. */
  datatype Use = Never | Optional | Needed

  predicate Fits(use: Use, arg: Option<string>) { (use == Never ==> arg.None?) && (use == Needed ==> arg.Some?) }

  datatype Shape = Shape(job: Use, node: Use, view: Use, artifact: Use, branch: Use)

  datatype Subject = Subject(jenkinsUserId: string, externalSubject: string, groups: set<string>)

  datatype Call = Call(subject: Subject, tool: string, job: Option<string>, node: Option<string>, view: Option<string>,
                       artifact: Option<string>, branch: Option<string>, mode: Option<string>, bytes: nat)

  /**
   * The registered tools and those the strict mode knows; job names as they are parsed; the pattern language
   * with the branch names tried for a branch and for a job; letter case.
   */
  datatype Server = Server(shapes: map<string, Shape>, known: set<string>, isJob: string -> bool,
                           matches: (string, string) -> bool, ofBranch: string -> set<string>,
                           ofJob: string -> set<string>, fold: string -> string, lower: string -> string)

  predicate JobFits(s: Server, shape: Shape, job: Option<string>, branch: Option<string>) {
    Fits(shape.job, job) && Fits(shape.branch, branch) && (job.Some? ==> s.isJob(job.value))
  }

  predicate ModeFits(tool: string, mode: Option<string>) {
    if tool == INTERRUPT then mode.Some? && mode.value in MODES else mode.None?
  }

  /** A call with the arguments its tool takes. */
  predicate WellFormed(s: Server, c: Call) {
    && c.tool in s.shapes && JobFits(s, s.shapes[c.tool], c.job, c.branch) && Fits(s.shapes[c.tool].node, c.node)
    && Fits(s.shapes[c.tool].view, c.view) && Fits(s.shapes[c.tool].artifact, c.artifact) && ModeFits(c.tool, c.mode)
  }

  // ---- What is denied to a subject ----------------------------------------------------------------------------

  /** Deny lists as sets, with the cap on results. */
  datatype Limits = Limits(tools: set<string>, jobs: set<string>, nodes: set<string>, views: set<string>,
                           artifacts: set<string>, branches: set<string>, bytes: Option<int>)

  const NOTHING := Limits({}, {}, {}, {}, {}, {}, None)

  function Of(d: Denies, caps: Caps): Limits {
    Limits(Entries(d.tools), Entries(d.jobs), Entries(d.nodes), Entries(d.views), Entries(d.artifacts),
           Entries(d.branches), EffectiveCap(caps.resultBytes))
  }

  function Lower(a: Option<int>, b: Option<int>): Option<int> {
    if a.None? then b else if b.None? then a else if a.value <= b.value then a else b
  }

  function Merge(x: Limits, y: Limits): Limits {
    Limits(x.tools + y.tools, x.jobs + y.jobs, x.nodes + y.nodes, x.views + y.views, x.artifacts + y.artifacts,
           x.branches + y.branches, Lower(x.bytes, y.bytes))
  }

  /** MatchesUser and MatchesGroup. */
  predicate IsFor(s: Server, t: Target, subject: Subject) {
    match t
    case User(id, external) =>
      && (TrimSpace(id) != [] || TrimSpace(external) != [])
      && (TrimSpace(id) != [] ==> s.fold(TrimSpace(id)) == s.fold(TrimSpace(subject.jenkinsUserId)))
      && (TrimSpace(external) != [] ==> TrimSpace(external) == TrimSpace(subject.externalSubject))
    case Group(id) => TrimSpace(id) != [] && exists g :: g in subject.groups && TrimSpace(g) == TrimSpace(id)
  }

  /** What the bindings for a subject add. */
  function Bound(s: Server, subjects: seq<Binding>, subject: Subject): (r: Limits)
    ensures r.bytes.Some? ==> r.bytes.value > 0
  {
    if subjects == [] then NOTHING
    else
      var rest := Bound(s, subjects[1..], subject);
      if IsFor(s, subjects[0].target, subject) then Merge(Of(subjects[0].denies, subjects[0].caps), rest) else rest
  }

  /** EffectiveDocumentForSubject. */
  function Effective(s: Server, o: Overlay, subject: Subject): (r: Limits)
    ensures r.bytes.Some? ==> r.bytes.value > 0
  {
    Merge(Of(o.denies, o.caps), Bound(s, o.subjects, subject))
  }

  // ---- What is permitted --------------------------------------------------------------------------------------

  predicate Hit(s: Server, patterns: set<string>, arg: Option<string>) {
    arg.Some? && exists p :: p in patterns && s.matches(p, arg.value)
  }

  /** The branch names a call is checked with: those of its branch, else those of its job. */
  function Branches(s: Server, job: Option<string>, branch: Option<string>): set<string> {
    if branch.Some? then s.ofBranch(branch.value) else if job.Some? then s.ofJob(job.value) else {}
  }

  predicate JobFree(s: Server, l: Limits, job: Option<string>, branch: Option<string>) {
    !Hit(s, l.jobs, job) && forall f :: f in Branches(s, job, branch) ==> !Hit(s, l.branches, Some(f))
  }

  predicate Within(cap: Option<int>, bytes: nat) { cap.Some? ==> bytes <= cap.value }

  function TrimSlash(p: string): string { if HasSuffix(p, "/") then p[..|p| - 1] else p }

  /** The prefixes a list stands for: trimmed, without a last slash, not empty. */
  function Prefixes(l: seq<string>): set<string> { set p | p in Trims(l) && TrimSlash(p) != [] :: TrimSlash(p) }

  predicate Under(prefix: string, job: string) { job == prefix || HasPrefix(job, prefix + "/") }

  /** CheckMutationJobAllowed. */
  predicate JobAllowed(m: Mutations, job: string) {
    m.jobPrefixes == [] || exists p :: p in Prefixes(m.jobPrefixes) && Under(p, job)
  }

  /** CheckInterruptModeAllowed. */
  predicate ModeAllowed(s: Server, m: Mutations, mode: string) {
    m.modes == [] || exists i :: 0 <= i < |m.modes| && s.lower(TrimSpace(m.modes[i])) == mode
  }

  /** MutationToolAllowed. */
  predicate ToolAllowed(m: Mutations, tool: string) { m.tools == [] || tool in Trims(m.tools) }

  /** The three parts of a permission that depend on the tool and one argument each. */
  predicate ToolPermitted(s: Server, o: Overlay, l: Limits, tool: string) {
    && tool !in l.tools && (o.mode == STRICT ==> tool in s.known)
    && (tool in MUTATIONS ==> !o.forceReadOnly && ToolAllowed(o.allow, tool))
  }

  predicate JobPermitted(s: Server, o: Overlay, l: Limits, tool: string, job: Option<string>, branch: Option<string>) {
    JobFree(s, l, job, branch) && (tool in JOB_CHECKED ==> job.Some? && JobAllowed(o.allow, job.value))
  }

  predicate ModePermitted(s: Server, o: Overlay, tool: string, mode: Option<string>) {
    tool == INTERRUPT ==> mode.Some? && ModeAllowed(s, o.allow, mode.value)
  }

  /** The policy lets a call through. */
  predicate Permits(s: Server, o: Overlay, c: Call) {
    var l := Effective(s, o, c.subject);
    && ToolPermitted(s, o, l, c.tool) && JobPermitted(s, o, l, c.tool, c.job, c.branch)
    && !Hit(s, l.nodes, c.node) && !Hit(s, l.views, c.view) && !Hit(s, l.artifacts, c.artifact)
    && ModePermitted(s, o, c.tool, c.mode) && Within(l.bytes, c.bytes)
  }

  // ---- What the monotonic check leaves open ---------------------------------------------------------------------

  ghost predicate ArgLeft(s: Server, use: Use, patterns: set<string>) { exists x :: Fits(use, x) && !Hit(s, patterns, x) }

  /** Some call of the tool by this subject passes. */
  ghost predicate Offers(s: Server, o: Overlay, subject: Subject, tool: string) {
    var l := Effective(s, o, subject);
    && tool in s.shapes && ToolPermitted(s, o, l, tool)
    && (exists job, branch :: JobFits(s, s.shapes[tool], job, branch) && JobPermitted(s, o, l, tool, job, branch))
    && ArgLeft(s, s.shapes[tool].node, l.nodes) && ArgLeft(s, s.shapes[tool].view, l.views)
    && ArgLeft(s, s.shapes[tool].artifact, l.artifacts)
    && (exists mode :: ModeFits(tool, mode) && ModePermitted(s, o, tool, mode))
  }

  /** Some patterns hit nothing that others let through. */
  ghost predicate PatternsKept(s: Server, use: Use, added: set<string>, patterns: set<string>) {
    forall x :: Fits(use, x) && !Hit(s, patterns, x) ==> !Hit(s, added, x)
  }

  ghost predicate JobsKept(s: Server, a: Overlay, b: Overlay, added: Limits, l: Limits, tool: string)
    requires tool in s.shapes
  {
    forall job, branch :: JobFits(s, s.shapes[tool], job, branch) && JobPermitted(s, b, l, tool, job, branch) ==>
      JobFree(s, added, job, branch) && (tool in JOB_CHECKED ==> JobAllowed(a.allow, job.value))
  }

  predicate ModesKept(s: Server, a: Mutations, b: Mutations) {
    forall mode :: mode in MODES && ModeAllowed(s, b, mode) ==> ModeAllowed(s, a, mode)
  }

  predicate CapKeptBy(cap: Option<int>, next: Option<int>) { cap.Some? ==> next.Some? && next.value <= cap.value }

  /**
   * For one subject and tool, each of the fields that the check does not compare is kept: the tools, jobs and modes
   * allowed for mutations, and each list and the cap that the earlier bindings add for this subject.
   */
  ghost predicate UncheckedKept(s: Server, a: Overlay, b: Overlay, subject: Subject, tool: string)
    requires tool in s.shapes
  {
    var added, l, shape := Bound(s, a.subjects, subject), Effective(s, b, subject), s.shapes[tool];
    && tool !in added.tools && (tool in MUTATIONS ==> ToolAllowed(a.allow, tool)) && JobsKept(s, a, b, added, l, tool)
    && PatternsKept(s, shape.node, added.nodes, l.nodes) && PatternsKept(s, shape.view, added.views, l.views)
    && PatternsKept(s, shape.artifact, added.artifacts, l.artifacts)
    && (tool == INTERRUPT ==> ModesKept(s, a.allow, b.allow)) && CapKeptBy(added.bytes, l.bytes)
  }

  /** The second limits deny at least as much as the first. */
  predicate AtLeast(x: Limits, y: Limits) {
    && x.tools <= y.tools && x.jobs <= y.jobs && x.nodes <= y.nodes && x.views <= y.views && x.artifacts <= y.artifacts
    && x.branches <= y.branches && CapKeptBy(x.bytes, y.bytes)
  }

  /** What the check compares reaches every subject. */
  lemma {:induction false} CheckedFieldsReach(s: Server, rules: Rules, a: Overlay, b: Overlay, subject: Subject)
    requires Valid(rules, b) && Keeps(a, b)
    ensures AtLeast(Of(a.denies, a.caps), Effective(s, b, subject))
  {
    hide Entries, DeniesOk, SubjectsOk, Bound;
  }

  /** A call that the later policy lets through passes the earlier one in every field that is kept. */
  lemma {:induction false} KeptCallPasses(s: Server, rules: Rules, a: Overlay, b: Overlay, c: Call)
    requires Valid(rules, b) && Keeps(a, b) && WellFormed(s, c) && Permits(s, b, c)
    requires UncheckedKept(s, a, b, c.subject, c.tool)
    ensures Permits(s, a, c)
  {
    hide Valid, DeniesKept, CapsKept, Of, Bound, ToolAllowed, JobAllowed, ModeAllowed, Branches;
    CheckedFieldsReach(s, rules, a, b, c.subject);
  }

  lemma {:induction false} PassingCallIsOffered(s: Server, o: Overlay, c: Call)
    requires WellFormed(s, c) && Permits(s, o, c)
    ensures Offers(s, o, c.subject, c.tool)
  {
    hide JobFits, JobPermitted, Effective, Hit, ModePermitted, ToolPermitted;
  }

  lemma {:induction false} OfferedCall(s: Server, o: Overlay, subject: Subject, tool: string) returns (c: Call)
    requires Offers(s, o, subject, tool)
    ensures WellFormed(s, c) && Permits(s, o, c) && c.subject == subject && c.tool == tool
  {
    hide JobFits, Effective, Hit, ToolPermitted, JobPermitted, ModeFits, ModePermitted;
    var l, shape := Effective(s, o, subject), s.shapes[tool];
    var job, branch :| JobFits(s, shape, job, branch) && JobPermitted(s, o, l, tool, job, branch);
    var node :| Fits(shape.node, node) && !Hit(s, l.nodes, node);
    var view :| Fits(shape.view, view) && !Hit(s, l.views, view);
    var artifact :| Fits(shape.artifact, artifact) && !Hit(s, l.artifacts, artifact);
    var mode :| ModeFits(tool, mode) && ModePermitted(s, o, tool, mode);
    c := Call(subject, tool, job, node, view, artifact, branch, mode, 0);
  }

  /** What any field of the earlier policy refuses, that policy refuses. */
  lemma {:induction false} RefusedByField(s: Server, o: Overlay, c: Call)
    requires var added := Bound(s, o.subjects, c.subject);
             || c.tool in added.tools || (c.tool in MUTATIONS && !ToolAllowed(o.allow, c.tool))
             || !JobFree(s, added, c.job, c.branch)
             || (c.tool in JOB_CHECKED && c.job.Some? && !JobAllowed(o.allow, c.job.value))
             || Hit(s, added.nodes, c.node) || Hit(s, added.views, c.view) || Hit(s, added.artifacts, c.artifact)
             || (c.tool == INTERRUPT && c.mode.Some? && !ModeAllowed(s, o.allow, c.mode.value))
             || !Within(added.bytes, c.bytes)
    ensures !Permits(s, o, c)
  {
    hide Bound, Of, ToolAllowed, JobAllowed, ModeAllowed, Branches;
  }

  /** The other way round: one call of an offered tool that shows a field given up. */
  lemma {:induction false} GivenUpFieldWidens(s: Server, a: Overlay, b: Overlay, subject: Subject, tool: string)
    returns (c: Call)
    requires Offers(s, b, subject, tool) && !UncheckedKept(s, a, b, subject, tool)
    ensures WellFormed(s, c) && Permits(s, b, c) && !Permits(s, a, c)
  {
    hide JobFits, JobFree, Effective, Bound, ToolPermitted, ToolAllowed, JobAllowed, ModeAllowed;
    var added, l, shape := Bound(s, a.subjects, subject), Effective(s, b, subject), s.shapes[tool];
    c := OfferedCall(s, b, subject, tool);
    if tool in added.tools || (tool in MUTATIONS && !ToolAllowed(a.allow, tool)) {
    } else if !JobsKept(s, a, b, added, l, tool) {
      var j, r :| JobFits(s, shape, j, r) && JobPermitted(s, b, l, tool, j, r)
                  && !(JobFree(s, added, j, r) && (tool in JOB_CHECKED ==> JobAllowed(a.allow, j.value)));
      c := c.(job := j, branch := r);
    } else if !PatternsKept(s, shape.node, added.nodes, l.nodes) {
      var x :| Fits(shape.node, x) && !Hit(s, l.nodes, x) && Hit(s, added.nodes, x);
      c := c.(node := x);
    } else if !PatternsKept(s, shape.view, added.views, l.views) {
      var x :| Fits(shape.view, x) && !Hit(s, l.views, x) && Hit(s, added.views, x);
      c := c.(view := x);
    } else if !PatternsKept(s, shape.artifact, added.artifacts, l.artifacts) {
      var x :| Fits(shape.artifact, x) && !Hit(s, l.artifacts, x) && Hit(s, added.artifacts, x);
      c := c.(artifact := x);
    } else if tool == INTERRUPT && !ModesKept(s, a.allow, b.allow) {
      var m :| m in MODES && ModeAllowed(s, b.allow, m) && !ModeAllowed(s, a.allow, m);
      c := c.(mode := Some(m));
    } else {
      c := c.(bytes := if l.bytes.Some? then l.bytes.value else added.bytes.value + 1);
    }
    RefusedByField(s, a, c);
  }

  /**
   * So an accepted overlay lets through no call that the earlier one refused if and only if, for every tool that it
   * offers to a subject at all, each field the check does not compare is kept.
   */
  lemma {:induction false} NarrowsIffUncheckedKept(s: Server, rules: Rules, a: Overlay, b: Overlay)
    requires Valid(rules, b) && Keeps(a, b)
    ensures (forall c :: WellFormed(s, c) && Permits(s, b, c) ==> Permits(s, a, c)) <==>
            (forall subject, tool :: Offers(s, b, subject, tool) ==> UncheckedKept(s, a, b, subject, tool))
  {
    hide Valid, Keeps, Permits, WellFormed, UncheckedKept;
    if forall subject, tool :: Offers(s, b, subject, tool) ==> UncheckedKept(s, a, b, subject, tool) {
      forall c | WellFormed(s, c) && Permits(s, b, c) ensures Permits(s, a, c) {
        PassingCallIsOffered(s, b, c);
        KeptCallPasses(s, rules, a, b, c);
      }
    } else {
      var subject, tool :| Offers(s, b, subject, tool) && !UncheckedKept(s, a, b, subject, tool);
      var c := GivenUpFieldWidens(s, a, b, subject, tool);
    }
  }

  // ---- What to look at in two overlays ---------------------------------------------------------------------------

  /** Every later prefix lies under an earlier one, and the list is not given up. */
  predicate PrefixesKept(a: seq<string>, b: seq<string>) {
    a == [] || (b != [] && forall p :: p in Prefixes(b) ==> exists q :: q in Prefixes(a) && Under(q, p))
  }

  lemma {:induction false} UnderChains(q: string, p: string, job: string)
    requires Under(q, p) && Under(p, job)
    ensures Under(q, job)
  {
    if p != q && job != p {
      assert p + "/" <= job && q + "/" <= p;
      assert q + "/" == p[..|q| + 1] == job[..|q| + 1];
    }
  }

  /** A name without slashes that none of finitely many names is. */
  lemma {:induction false} NewName(taken: set<string>) returns (name: string)
    ensures name !in taken && '/' !in name
  {
    var names := seq(|taken| + 1, i requires 0 <= i < |taken| + 1 => seq(i, _ => 'x'));
    forall i, j | 0 <= i < j < |names| ensures names[i] != names[j] { assert |names[i]| == i && |names[j]| == j; }
    DistinctCard(names);
    if Elems(names) <= taken { SubsetCard(Elems(names), taken); }
    name :| name in Elems(names) && name !in taken;
  }

  /** For job prefixes the lists alone decide whether other jobs become allowed. */
  lemma {:induction false} JobsShrinkIff(a: Mutations, b: Mutations)
    ensures (forall job :: JobAllowed(b, job) ==> JobAllowed(a, job)) <==> PrefixesKept(a.jobPrefixes, b.jobPrefixes)
  {
    hide Prefixes, Under;
    if PrefixesKept(a.jobPrefixes, b.jobPrefixes) {
      forall job | JobAllowed(b, job) ensures JobAllowed(a, job) {
        if a.jobPrefixes != [] {
          var p :| p in Prefixes(b.jobPrefixes) && Under(p, job);
          var q :| q in Prefixes(a.jobPrefixes) && Under(q, p);
          UnderChains(q, p, job);
        }
      }
    } else if b.jobPrefixes == [] {
      var job := NewName(Prefixes(a.jobPrefixes));
      forall p | p in Prefixes(a.jobPrefixes) ensures !Under(p, job) { OnlyItself(p, job); }
      assert JobAllowed(b, job) && !JobAllowed(a, job);
    } else {
      var p :| p in Prefixes(b.jobPrefixes) && !exists q :: q in Prefixes(a.jobPrefixes) && Under(q, p);
      OnlyItself(p, p);
      assert JobAllowed(b, p) && !JobAllowed(a, p);
    }
  }

  lemma {:induction false} OnlyItself(p: string, job: string)
    ensures Under(p, p) && (p != job && '/' !in job ==> !Under(p, job))
  {
    if p != job && HasPrefix(job, p + "/") { assert job[|p|] == '/'; }
  }

  lemma {:induction false} BoundHolds(s: Server, subjects: seq<Binding>, subject: Subject, x: Binding)
    requires x in subjects && IsFor(s, x.target, subject)
    ensures AtLeast(Of(x.denies, x.caps), Bound(s, subjects, subject))
    decreases |subjects|
  {
    hide Entries, IsFor;
    if x != subjects[0] { BoundHolds(s, subjects[1..], subject, x); }
  }

  lemma {:induction false} BoundGrows(s: Server, xs: seq<Binding>, ys: seq<Binding>, subject: Subject)
    requires forall x :: x in xs ==> x in ys
    ensures AtLeast(Bound(s, xs, subject), Bound(s, ys, subject))
    decreases |xs|
  {
    hide Of, IsFor;
    if xs != [] {
      BoundGrows(s, xs[1..], ys, subject);
      if IsFor(s, xs[0].target, subject) { BoundHolds(s, ys, subject, xs[0]); }
    }
  }

  /** So it is enough that the mutation lists shrink and no binding goes away. */
  lemma {:induction false} NarrowsByLists(s: Server, rules: Rules, a: Overlay, b: Overlay, c: Call)
    requires Valid(rules, b) && Keeps(a, b) && WellFormed(s, c) && Permits(s, b, c)
    requires forall tool :: tool in MUTATIONS && ToolAllowed(b.allow, tool) ==> ToolAllowed(a.allow, tool)
    requires PrefixesKept(a.allow.jobPrefixes, b.allow.jobPrefixes) && ModesKept(s, a.allow, b.allow)
    requires forall x :: x in a.subjects ==> x in b.subjects
    ensures Permits(s, a, c)
  {
    hide Valid, Keeps, Prefixes, PrefixesKept, Of, Bound, ToolAllowed, JobAllowed, ModeAllowed, Branches, Fits;
    JobsShrinkIff(a.allow, b.allow);
    BoundGrows(s, a.subjects, b.subjects, c.subject);
    KeptCallPasses(s, rules, a, b, c);
  }

  const OPEN := Overlay(CURRENT_VERSION, false, false, PILOT, Denies([], [], [], [], [], []), Caps(None, None, None),
                        Mutations([], [], []), [])

  /** Four overlays, each of which the check lets be replaced by one that permits more. */
  function Narrow(i: nat): Overlay
    requires i < 4
  {
    if i == 0 then OPEN.(allow := Mutations([STOP], [], []))
    else if i == 1 then OPEN.(allow := Mutations([], ["stop"], []))
    else if i == 2 then OPEN.(allow := Mutations([], [], ["team-a"]))
    else OPEN.(subjects := [Binding(Group("dev"), OPEN.denies.(tools := [INTERRUPT]), OPEN.caps)])
  }

  lemma {:induction false} OpenPermits(s: Server, rules: Rules, c: Call)
    requires WellFormed(s, c) && (c.tool in JOB_CHECKED ==> c.job.Some?)
    ensures Valid(rules, OPEN) && Permits(s, OPEN, c)
  {
    assert Effective(s, OPEN, c.subject) == NOTHING;
  }

  lemma {:induction false} NarrowIsReplaceable(rules: Rules, i: nat)
    requires i < 4
    ensures Valid(rules, Narrow(i)) && Keeps(Narrow(i), OPEN)
  {
    hide TrimSpace;
    if i == 3 {
      assert Trims([INTERRUPT]) == [INTERRUPT];
      assert BindingOk(rules, Narrow(i).subjects[0]);
    }
  }

  lemma {:induction false} AcceptedButWider(s: Server, rules: Rules, c: Call, i: nat)
    requires WellFormed(s, c) && c.tool == INTERRUPT && c.job == Some("team-b") && c.mode == Some("kill")
    requires "dev" in c.subject.groups && s.lower("stop") != "kill" && i < 4
    ensures Valid(rules, Narrow(i)) && Valid(rules, OPEN) && Keeps(Narrow(i), OPEN)
    ensures Permits(s, OPEN, c) && !Permits(s, Narrow(i), c)
  {
    hide Valid, Keeps, WellFormed, Permits, Narrow;
    OpenPermits(s, rules, c);
    NarrowIsReplaceable(rules, i);
    NarrowRefuses(s, c, i);
  }

  lemma {:induction false} NarrowRefuses(s: Server, c: Call, i: nat)
    requires c.tool == INTERRUPT && c.job == Some("team-b") && c.mode == Some("kill")
    requires "dev" in c.subject.groups && s.lower("stop") != "kill" && i < 4
    ensures !Permits(s, Narrow(i), c)
  {
    hide Permits, TrimSpace, Bound, ToolAllowed, JobAllowed, ModeAllowed, JobFree;
    var o := Narrow(i);
    if i == 0 {
      StopOnly();
    } else if i == 1 {
      StopModeOnly(s);
    } else if i == 2 {
      TeamAOnly();
    } else {
      GroupIsDenied(s, c.subject);
    }
    RefusedByField(s, o, c);
  }

  lemma {:induction false} StopOnly()
    ensures !ToolAllowed(Mutations([STOP], [], []), INTERRUPT)
  {
    hide TrimSpace;
    assert Trims([STOP]) == [STOP];
  }

  lemma {:induction false} StopModeOnly(s: Server)
    requires s.lower("stop") != "kill"
    ensures !ModeAllowed(s, Mutations([], ["stop"], []), "kill")
  {
    hide TrimSpace;
  }

  lemma {:induction false} TeamAOnly()
    ensures !JobAllowed(Mutations([], [], ["team-a"]), "team-b")
  {
    hide TrimSpace;
    assert Trims(["team-a"]) == ["team-a"] && TrimSlash("team-a") == "team-a";
  }

  lemma {:induction false} GroupIsDenied(s: Server, subject: Subject)
    requires "dev" in subject.groups
    ensures INTERRUPT in Bound(s, Narrow(3).subjects, subject).tools
  {
    hide TrimSpace;
    assert Trims([INTERRUPT]) == [INTERRUPT];
    assert IsFor(s, Narrow(3).subjects[0].target, subject);
  }

  // ---- What is permitted, entry by entry ------------------------------------------------------------------------

  /** A binding for a user names that user by id, by external subject or by both; one for a group, a group of theirs. */
  lemma {:induction false} IsForIff(s: Server, id: string, external: string, subject: Subject)
    ensures IsFor(s, Group(id), subject) <==> TrimSpace(id) != "" && TrimSpace(id) in (set g | g in subject.groups :: TrimSpace(g))
    ensures TrimSpace(id) != "" && TrimSpace(external) == "" ==>
              (IsFor(s, User(id, external), subject) <==> s.fold(TrimSpace(subject.jenkinsUserId)) == s.fold(TrimSpace(id)))
    ensures TrimSpace(id) == "" && TrimSpace(external) != "" ==>
              (IsFor(s, User(id, external), subject) <==> TrimSpace(subject.externalSubject) == TrimSpace(external))
    ensures TrimSpace(id) != "" && TrimSpace(external) != "" ==>
              (IsFor(s, User(id, external), subject) <==> IsFor(s, User(id, ""), subject) && IsFor(s, User("", external), subject))
    ensures TrimSpace(id) == "" && TrimSpace(external) == "" ==> !IsFor(s, User(id, external), subject)
  {
    hide TrimSpace;
  }

  /** What applies to a subject: the overlay's own lists and caps, and those of every binding for them. */
  function Applying(s: Server, o: Overlay, subject: Subject): (r: set<(Denies, Caps)>) {
    {(o.denies, o.caps)} + set x | x in o.subjects && IsFor(s, x.target, subject) :: (x.denies, x.caps)
  }

  /** No entry of a deny list, blank ones aside, hits the argument. */
  ghost predicate NoneHits(s: Server, l: seq<string>, arg: Option<string>) {
    forall e :: e in l && TrimSpace(e) != "" && arg.Some? ==> !s.matches(TrimSpace(e), arg.value)
  }

  ghost predicate LetsThrough(s: Server, d: Denies, caps: Caps, c: Call) {
    && (forall e :: e in d.tools && TrimSpace(e) != "" ==> TrimSpace(e) != c.tool)
    && NoneHits(s, d.jobs, c.job) && NoneHits(s, d.nodes, c.node) && NoneHits(s, d.views, c.view)
    && NoneHits(s, d.artifacts, c.artifact)
    && (match (c.branch, c.job)
        case (Some(b), _) => forall f :: f in s.ofBranch(b) ==> NoneHits(s, d.branches, Some(f))
        case (None, Some(j)) => forall f :: f in s.ofJob(j) ==> NoneHits(s, d.branches, Some(f))
        case (None, None) => true)
    && (forall cap: int :: cap > 0 && caps.resultBytes == Some(cap) ==> c.bytes <= cap)
  }

  /** The entry, trimmed and without one slash at its end, is the job or a folder around it. */
  ghost predicate PrefixCovers(entry: string, job: string) {
    exists q :: q != "" && (TrimSpace(entry) == q + "/" || (TrimSpace(entry) == q && q[|q| - 1] != '/'))
                && (job == q || q + "/" <= job)
  }

  /** Which calls a policy lets through, from the entries of its lists. */
  lemma {:induction false} PermitsIff(s: Server, o: Overlay, c: Call)
    ensures Permits(s, o, c) <==> (
      && (forall d, caps :: (d, caps) in Applying(s, o, c.subject) ==> LetsThrough(s, d, caps, c))
      && (o.mode == "strict" ==> c.tool in s.known)
      && (c.tool in MUTATIONS ==> !o.forceReadOnly && (o.allow.tools == [] || exists e :: e in o.allow.tools && TrimSpace(e) == c.tool))
      && (c.tool in MUTATIONS && c.tool != "jenkins_stop_build" && c.tool != "jenkins_cancel_queue_item" ==>
            c.job.Some? && (o.allow.jobPrefixes == [] || exists e :: e in o.allow.jobPrefixes && PrefixCovers(e, c.job.value)))
      && (c.tool == "jenkins_interrupt_build" ==>
            c.mode.Some? && (o.allow.modes == [] || exists e :: e in o.allow.modes && s.lower(TrimSpace(e)) == c.mode.value)))
  {
    hide *;
    ToolsJobsModes(s, o, c);
    LimitsIff(s, o, c);
    PermitsParts(s, o, c);
  }

  /** The part of a permission that rests on deny lists and caps. */
  predicate InLimits(s: Server, l: Limits, c: Call) {
    && c.tool !in l.tools && JobFree(s, l, c.job, c.branch) && !Hit(s, l.nodes, c.node) && !Hit(s, l.views, c.view)
    && !Hit(s, l.artifacts, c.artifact) && Within(l.bytes, c.bytes)
  }

  lemma {:induction false} PermitsParts(s: Server, o: Overlay, c: Call)
    ensures Permits(s, o, c) <==> (
      && InLimits(s, Effective(s, o, c.subject), c) && (o.mode == STRICT ==> c.tool in s.known)
      && (c.tool in MUTATIONS ==> !o.forceReadOnly && ToolAllowed(o.allow, c.tool))
      && (c.tool in JOB_CHECKED ==> c.job.Some? && JobAllowed(o.allow, c.job.value))
      && (c.tool == INTERRUPT ==> c.mode.Some? && ModeAllowed(s, o.allow, c.mode.value)))
  {
    hide Effective, JobFree, Hit, Within, ToolAllowed, JobAllowed, ModeAllowed;
  }

  lemma {:induction false} ToolsJobsModes(s: Server, o: Overlay, c: Call)
    ensures ToolAllowed(o.allow, c.tool) <==> o.allow.tools == [] || exists e :: e in o.allow.tools && TrimSpace(e) == c.tool
    ensures c.job.Some? ==> (JobAllowed(o.allow, c.job.value) <==>
              o.allow.jobPrefixes == [] || exists e :: e in o.allow.jobPrefixes && PrefixCovers(e, c.job.value))
    ensures c.mode.Some? ==> (ModeAllowed(s, o.allow, c.mode.value) <==>
              o.allow.modes == [] || exists e :: e in o.allow.modes && s.lower(TrimSpace(e)) == c.mode.value)
    ensures STRICT == "strict" && INTERRUPT == "jenkins_interrupt_build"
    ensures c.tool in JOB_CHECKED <==> c.tool in MUTATIONS && c.tool != "jenkins_stop_build" && c.tool != "jenkins_cancel_queue_item"
  {
    hide TrimSpace, PrefixCovers, TrimSlash, Under;
    TrimsOf(o.allow.tools, c.tool);
    if c.job.Some? { PrefixesIff(o.allow.jobPrefixes, c.job.value); }
    if e :| e in o.allow.modes && c.mode.Some? && s.lower(TrimSpace(e)) == c.mode.value {
      var i :| 0 <= i < |o.allow.modes| && o.allow.modes[i] == e;
    }
  }

  lemma {:induction false} TrimsOf(l: seq<string>, x: string)
    ensures x in Trims(l) <==> exists e :: e in l && TrimSpace(e) == x
  {
    hide TrimSpace;
    if x in Trims(l) {
      var i :| 0 <= i < |Trims(l)| && Trims(l)[i] == x;
      assert l[i] in l && TrimSpace(l[i]) == x;
    }
    if e :| e in l && TrimSpace(e) == x {
      var i :| 0 <= i < |l| && l[i] == e;
      assert Trims(l)[i] == x;
    }
  }

  lemma {:induction false} PrefixesIff(l: seq<string>, job: string)
    ensures (exists p :: p in Prefixes(l) && Under(p, job)) <==> exists e :: e in l && PrefixCovers(e, job)
  {
    hide TrimSpace, PrefixCovers, TrimSlash, Under, Trims;
    if p :| p in Prefixes(l) && Under(p, job) {
      var t :| t in Trims(l) && TrimSlash(t) != [] && TrimSlash(t) == p;
      TrimsOf(l, t);
      var e :| e in l && TrimSpace(e) == t;
      CoversIff(e, job);
    }
    if e :| e in l && PrefixCovers(e, job) {
      TrimsOf(l, TrimSpace(e));
      CoversIff(e, job);
      assert TrimSlash(TrimSpace(e)) in Prefixes(l);
    }
  }

  lemma {:induction false} CoversIff(entry: string, job: string)
    ensures PrefixCovers(entry, job) <==> TrimSlash(TrimSpace(entry)) != [] && Under(TrimSlash(TrimSpace(entry)), job)
  {
    hide TrimSpace;
    var t := TrimSpace(entry);
    var q := TrimSlash(t);
    if t != [] && t[|t| - 1] == '/' {
      assert t == q + "/";
      assert forall r :: t == r + "/" ==> r == (r + "/")[..|r|] == q;
    } else {
      assert q == t;
      forall r: string ensures t != r + "/" { assert (r + "/")[|r|] == '/'; }
    }
  }

  /** The limits of a subject are those of everything that applies to them. */
  lemma {:induction false} LimitsIff(s: Server, o: Overlay, c: Call)
    ensures InLimits(s, Effective(s, o, c.subject), c) <==>
            forall d, caps :: (d, caps) in Applying(s, o, c.subject) ==> LetsThrough(s, d, caps, c)
  {
    hide InLimits, Of, Bound, LetsThrough, IsFor, Merge;
    OwnLimits(s, o.denies, o.caps, c);
    MergedLimits(s, Of(o.denies, o.caps), Bound(s, o.subjects, c.subject), c);
    BoundLimits(s, o.subjects, c);
    forall x | x in o.subjects && IsFor(s, x.target, c.subject) ensures (x.denies, x.caps) in Applying(s, o, c.subject) {}
  }

  lemma {:induction false} MergedLimits(s: Server, x: Limits, y: Limits, c: Call)
    ensures InLimits(s, Merge(x, y), c) <==> InLimits(s, x, c) && InLimits(s, y, c)
  {
    var m := Merge(x, y);
    HitEither(s, x.jobs, y.jobs, c.job);
    HitEither(s, x.nodes, y.nodes, c.node);
    HitEither(s, x.views, y.views, c.view);
    HitEither(s, x.artifacts, y.artifacts, c.artifact);
    hide Hit;
    forall f ensures Hit(s, m.branches, Some(f)) <==> Hit(s, x.branches, Some(f)) || Hit(s, y.branches, Some(f)) {
      HitEither(s, x.branches, y.branches, Some(f));
    }
  }

  lemma {:induction false} HitEither(s: Server, a: set<string>, b: set<string>, arg: Option<string>)
    ensures Hit(s, a + b, arg) <==> Hit(s, a, arg) || Hit(s, b, arg)
  {}

  lemma {:induction false} BoundLimits(s: Server, subjects: seq<Binding>, c: Call)
    ensures InLimits(s, Bound(s, subjects, c.subject), c) <==>
            forall x :: x in subjects && IsFor(s, x.target, c.subject) ==> LetsThrough(s, x.denies, x.caps, c)
  {
    hide InLimits, Of, Bound, LetsThrough, IsFor, Merge;
    if subjects == [] {
      NothingBound(s, c);
    } else {
      var x := subjects[0];
      BoundLimits(s, subjects[1..], c);
      OwnLimits(s, x.denies, x.caps, c);
      MergedLimits(s, Of(x.denies, x.caps), Bound(s, subjects[1..], c.subject), c);
      BoundStep(s, subjects, c.subject);
      assert subjects == [x] + subjects[1..];
    }
  }

  lemma {:induction false} NothingBound(s: Server, c: Call)
    ensures InLimits(s, Bound(s, [], c.subject), c)
  {}

  lemma {:induction false} BoundStep(s: Server, subjects: seq<Binding>, subject: Subject)
    requires subjects != []
    ensures var rest, x := Bound(s, subjects[1..], subject), subjects[0];
            Bound(s, subjects, subject) == if IsFor(s, x.target, subject) then Merge(Of(x.denies, x.caps), rest) else rest
  {
    hide IsFor, Merge, Of;
  }

  lemma {:induction false} OwnLimits(s: Server, d: Denies, caps: Caps, c: Call)
    ensures InLimits(s, Of(d, caps), c) <==> LetsThrough(s, d, caps, c)
  {
    hide TrimSpace, Entries, Hit, NoneHits;
    EntryIff(d.tools, c.tool);
    HitIff(s, d.jobs, c.job);
    HitIff(s, d.nodes, c.node);
    HitIff(s, d.views, c.view);
    HitIff(s, d.artifacts, c.artifact);
    forall f ensures Hit(s, Entries(d.branches), Some(f)) <==> !NoneHits(s, d.branches, Some(f)) { HitIff(s, d.branches, Some(f)); }
    CapIff(caps.resultBytes, c.bytes);
    ToolIff(d.tools, c.tool);
  }

  lemma {:induction false} ToolIff(l: seq<string>, tool: string)
    ensures tool in Entries(l) <==> !(forall e :: e in l && TrimSpace(e) != "" ==> TrimSpace(e) != tool)
  {
    hide TrimSpace, Entries;
    EntryIff(l, tool);
  }

  lemma {:induction false} CapIff(cap: Option<int>, bytes: nat)
    ensures Within(EffectiveCap(cap), bytes) <==> forall v: int :: v > 0 && cap == Some(v) ==> bytes <= v
  {
    if cap.Some? && cap.value > 0 { assert cap == Some(cap.value); }
  }

  lemma {:induction false} HitIff(s: Server, l: seq<string>, arg: Option<string>)
    ensures Hit(s, Entries(l), arg) <==> !NoneHits(s, l, arg)
  {
    hide TrimSpace, Entries;
    if Hit(s, Entries(l), arg) {
      var p :| p in Entries(l) && s.matches(p, arg.value);
      EntryIff(l, p);
    }
    if !NoneHits(s, l, arg) {
      var e :| e in l && TrimSpace(e) != "" && arg.Some? && s.matches(TrimSpace(e), arg.value);
      EntryIff(l, TrimSpace(e));
    }
  }
}
