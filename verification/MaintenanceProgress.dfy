/** Repeated ticks pack, and then release, every sealed generation. */
module MaintenanceProgress {
  import opened Prelude
  import opened Sorting
  import opened Generations
  import opened PackSelection
  import opened Maintenance
  import opened MaintenanceRuns

  predicate Waiting(g: Gen) { g.sealed && g.packID == [] }

  predicate Unreleased(g: Gen) { g.sealed && !g.released }

  /** How many sealed generations are in no pack, and how many still have their L1 copy. */
  function WaitingCount(gens: seq<Gen>): nat { |Filter(gens, Waiting)| }

  function UnreleasedCount(gens: seq<Gen>): nat { |Filter(gens, Unreleased)| }

  /** Nothing fails, nothing is held, nothing is evicted and no release is half done. */
  ghost predicate Quiet(c: Config, env: Env) {
    && env.pinned == {} && env.leased == {} && env.evicted == {} && env.evicts && env.recovers && env.journal.None?
    && env.usage.Some? && env.listed && env.affinity.Some? && env.cancelledAt.None?
    && (forall x, y :: env.affinity.value(x) == env.affinity.value(y) ==> x.profile == y.profile)
    && (forall k: nat :: env.packs(k).PackPublishes? && env.packs(k).marked >= c.MaxMembers())
    && (forall g :: env.verified(g) && env.releases(g).ReleaseGoes?)
  }

  /** Waiting, and past the force age at time t. */
  predicate Due(c: Config, t: int, g: Gen) { Waiting(g) && Aged(c, t, g) }

  function DueAt(c: Config, t: int): Gen -> bool { g => Due(c, t, g) }

  /** How many generations have to be packed by time t, however many younger ones wait beside them. */
  function DueCount(c: Config, t: int, gens: seq<Gen>): nat { |Filter(gens, DueAt(c, t))| }

  lemma {:induction false} DueLater(c: Config, t: int, later: int, g: Gen)
    requires Due(c, t, g) && t <= later
    ensures Due(c, later, g)
  {}

  lemma {:induction false} NoneDue(c: Config, t: int, gens: seq<Gen>)
    ensures DueCount(c, t, gens) == 0 <==> forall g :: g in gens ==> !Due(c, t, g)
  {
    var due := Filter(gens, DueAt(c, t));
    if due != [] { assert due[0] in due; }
    if g :| g in gens && Due(c, t, g) { assert g in due; }
  }

  lemma {:induction false} WaitingIsCandidate(gens: seq<Gen>, env: Env, g: Gen)
    requires env.pinned == {} && env.leased == {} && g in gens && Waiting(g)
    ensures g in PackCandidates(gens, env)
  {
    hide PackCandidates;
    PackCandidatesPart(gens, env);
  }

  /** There are batches, and the first holds generations past the force age. */
  ghost predicate ForcedFirst(c: Config, gens: seq<Gen>, env: Env, under: bool)
    requires env.affinity.Some?
  {
    var batches := Batches(c, PackCandidates(gens, env), env.affinity.value, env.now, under);
    batches != [] && forall g :: g in batches[0] ==> Aged(c, env.now, g)
  }

  lemma {:induction false} ForcedComeFirst(c: Config, cands: seq<Gen>, keyOf: Gen -> string, now: int, under: bool)
    requires Forced(c, cands, now) != []
    ensures var out := Batches(c, cands, keyOf, now, under);
            out != [] && forall g :: g in out[0] ==> Aged(c, now, g)
  {
    hide Select, Aged, Flatten, Forced, Unforced;
    var forced := Select(Forced(c, cands, now), keyOf, c.MaxMembers(), 1, c.MaxPacks());
    SelectShape(Forced(c, cands, now), keyOf, c.MaxMembers(), 1, c.MaxPacks());
    ForcedSplit(c, cands, now);
    assert Batches(c, cands, keyOf, now, under)[0] == forced[0];
    forall g | g in forced[0] ensures Aged(c, now, g) {
      MemberOfBatches(forced, forced[0], g);
      assert g in multiset(Flatten(forced)) && g in multiset(Forced(c, cands, now));
    }
  }

  /** The batches of a quiet tick that finds something to force begin with it. */
  lemma {:induction false} SomethingToPack(c: Config, gens: seq<Gen>, env: Env, g: Gen)
    requires env.pinned == {} && env.leased == {} && env.affinity.Some? && UniqueIds(gens)
    requires g in gens && Waiting(g) && Aged(c, env.now, g)
    ensures PackCandidates(gens, env) != [] && Forced(c, PackCandidates(gens, env), env.now) != []
    ensures forall under: bool :: ForcedFirst(c, gens, env, under)
  {
    hide PackCandidates, Forced, Batches, Aged, Waiting;
    var cands := PackCandidates(gens, env);
    WaitingIsCandidate(gens, env, g);
    ForcedSplit(c, cands, env.now);
    assert g in Forced(c, cands, env.now);
    forall under: bool ensures ForcedFirst(c, gens, env, under) {
      BatchesTake(c, cands, env.affinity.value, env.now, under);
      ForcedComeFirst(c, cands, env.affinity.value, env.now, under);
    }
  }

  /** A batch of candidates of one profile, all different, each the only generation of its build, can be packed. */
  lemma {:induction false} BatchIsPackable(gens: seq<Gen>, batch: seq<Gen>)
    requires OneGenPerBuild(gens) && UniqueIds(batch) && batch != []
    requires forall g :: g in batch ==> g in gens && g.sealed && g.profile == batch[0].profile
    ensures Packable(gens, batch)
    ensures forall i :: 0 <= i < |batch| ==> Latest(gens, KeyOf(batch[i])) == Some(batch[i])
  {
    hide KeyOf;
    forall i | 0 <= i < |batch| ensures Latest(gens, KeyOf(batch[i])) == Some(batch[i]) {
      assert batch[i] in gens;
      var j :| 0 <= j < |gens| && gens[j] == batch[i];
      LatestIs(gens, j);
    }
  }

  lemma {:induction false} FirstBatchUnique(batches: seq<seq<Gen>>)
    requires batches != [] && UniqueIds(Flatten(batches))
    ensures UniqueIds(batches[0])
  {
    assert Flatten(batches) == batches[0] + Flatten(batches[1..]);
    assert forall i :: 0 <= i < |batches[0]| ==> Flatten(batches)[i] == batches[0][i];
  }

  /** Marks made by the first batches outlast the rest. */
  lemma {:induction false} MarkStays(gens: seq<Gen>, batches: seq<seq<Gen>>, env: Env, j: nat, k: nat, i: nat)
    requires j <= k <= |batches| && i < |gens|
    ensures |PackedAfter(gens, batches, env, k).gens| == |gens| == |PackedAfter(gens, batches, env, j).gens|
    ensures PackedAfter(gens, batches, env, j).gens[i].packID != [] ==> PackedAfter(gens, batches, env, k).gens[i].packID != []
    decreases k
  {
    hide Packable, MarkedIds;
    if k > 0 && j < k { MarkStays(gens, batches, env, j, k - 1, i); }
    if k > 0 && j == k { MarkStays(gens, batches, env, j - 1, k - 1, i); }
  }

  /** Packing the first batch marks its first member. */
  lemma {:induction false} FirstMemberMarked(c: Config, gens: seq<Gen>, batches: seq<seq<Gen>>, env: Env) returns (i: nat)
    requires UniqueIds(gens) && OneGenPerBuild(gens) && batches != [] && UniqueIds(Flatten(batches))
    requires 0 < |batches[0]| <= c.MaxMembers()
    requires forall g: Gen :: g in batches[0] ==> g in gens && Due(c, env.now, g) && g.profile == batches[0][0].profile
    requires env.packs(0).PackPublishes? && env.packs(0).marked >= c.MaxMembers()
    ensures i < |gens| && Due(c, env.now, gens[i]) && |PackedAfter(gens, batches, env, 1).gens| == |gens|
    ensures PackedAfter(gens, batches, env, 1).gens[i].packID != []
  {
    hide UniqueIds, OneGenPerBuild, Flatten, KeyOf, Packable, Aged;
    var batch := batches[0];
    FirstBatchUnique(batches);
    BatchIsPackable(gens, batch);
    assert batch[0] in batch;
    i :| 0 <= i < |gens| && gens[i] == batch[0];
    assert gens[i].id in MarkedIds(gens, batch, env.packs(0).marked);
    assert PackedAfter(gens, batches, env, 0) == Packing(gens, 0, 0);
  }

  /** A quiet compaction with something to force takes at least one generation past the force age off the list. */
  lemma {:induction false} CompactPacks(c: Config, gens: seq<Gen>, env: Env, g: Gen) returns (i: nat)
    requires UniqueIds(gens) && OneGenPerBuild(gens) && Quiet(c, env)
    requires g in gens && Waiting(g) && Aged(c, env.now, g)
    ensures var after := AfterCompact(c, gens, env).0;
            i < |gens| == |after| && Due(c, env.now, gens[i]) && after[i].packID != []
  {
    hide UniqueIds, OneGenPerBuild, PackCandidates, Forced, Batches, Aged, UnderHeadroom, PackedAfter, Flatten;
    var under := UnderHeadroom(c, env.usage.value);
    var cands := PackCandidates(gens, env);
    var batches := Batches(c, cands, env.affinity.value, env.now, under);
    SomethingToPack(c, gens, env, g);
    BatchesAreEligible(c, gens, env, env.affinity.value, under);
    assert ForcedFirst(c, gens, env, under) && batches[0] in batches;
    var head: Gen := batches[0][0];
    forall x: Gen | x in batches[0] ensures x in gens && Due(c, env.now, x) && x.profile == head.profile {
      MemberOfBatches(batches, batches[0], x);
      assert head in batches[0];
    }
    i := FirstMemberMarked(c, gens, batches, env);
    MarkStays(gens, batches, env, 1, |batches|, i);
  }

  lemma {:induction false} QuietEvictsNothing(c: Config, gens: seq<Gen>, env: Env)
    requires env.evicted == {}
    ensures Evicted(c, gens, env) == gens
  {
    FilterAll(gens, (g: Gen) => g.id !in env.evicted);
  }

  lemma {:induction false} TickKeepsPacked(c: Config, env: Env, g: Gen, h: Gen)
    requires TickStepOk(c, env, g, h)
    ensures Waiting(h) ==> h == g
    ensures Unreleased(h) ==> Unreleased(g)
  {
    hide HighPressure, Gate, UnderHeadroom, Aged;
  }

  lemma {:induction false} ReleaseKeepsPack(c: Config, env: Env, high: bool, g: Gen, h: Gen)
    requires ReleaseStepOk(c, env, high, g, h)
    ensures h.packID == g.packID
  {}

  /** A tick never adds waiting, due or unreleased generations, and one that is not quiet either. */
  lemma {:induction false} TickNeverAdds(c: Config, gens: seq<Gen>, env: Env, t: int)
    requires UniqueIds(gens) && OneGenPerBuild(gens)
    ensures var before, after := Evicted(c, gens, env), AfterTick(c, gens, env);
            && WaitingCount(after) <= WaitingCount(before) && UnreleasedCount(after) <= UnreleasedCount(before)
            && DueCount(c, t, after) <= DueCount(c, t, before)
            && (forall h :: h in after && Waiting(h) ==> h in before)
  {
    hide UniqueIds, OneGenPerBuild, AfterTick, Evicted, Waiting, Unreleased, TickStepOk, Aged;
    TickTransition(c, gens, env);
    var before, after := Evicted(c, gens, env), AfterTick(c, gens, env);
    forall i | 0 <= i < |after|
      ensures (Waiting(after[i]) ==> after[i] == before[i]) && (Unreleased(after[i]) ==> Unreleased(before[i]))
    {
      TickKeepsPacked(c, env, before[i], after[i]);
    }
    FilterShrinks(before, after, Waiting, |before|);
    FilterShrinks(before, after, Unreleased, |before|);
    FilterShrinks(before, after, DueAt(c, t), |before|);
  }

  /**
   * While a generation past the force age waits, a quiet tick packs at least one that is: of those due by now, or by any
   * later time, one less is left.
   */
  lemma {:induction false} TickPacks(c: Config, gens: seq<Gen>, env: Env, t: int)
    requires UniqueIds(gens) && OneGenPerBuild(gens) && Quiet(c, env) && c.enableCompaction
    requires DueCount(c, env.now, gens) > 0 && env.now <= t
    ensures DueCount(c, t, AfterTick(c, gens, env)) < DueCount(c, t, gens)
  {
    hide UniqueIds, OneGenPerBuild, Aged, Evicted, AfterCompact, AfterRelease, TickStepOk, HighPressure, Gate, ReleaseStepOk,
         PackStepOk, DueCount;
    QuietEvictsNothing(c, gens, env);
    NoneDue(c, env.now, gens);
    var g :| g in gens && Due(c, env.now, g);
    var i := CompactPacks(c, gens, env, g);
    PackedIsNotDue(c, gens, env, i);
    var after := AfterTick(c, gens, env);
    forall k | 0 <= k < |gens| ensures Due(c, t, after[k]) ==> Due(c, t, gens[k]) { TickKeepsPacked(c, env, gens[k], after[k]); }
    DueLater(c, env.now, t, gens[i]);
    OneDueLess(c, t, gens, after, i);
  }

  lemma {:induction false} OneDueLess(c: Config, t: int, gens: seq<Gen>, after: seq<Gen>, i: nat)
    requires |after| == |gens| && i < |gens| && Due(c, t, gens[i]) && !Due(c, t, after[i])
    requires forall k :: 0 <= k < |gens| ==> (Due(c, t, after[k]) ==> Due(c, t, gens[k]))
    ensures DueCount(c, t, after) < DueCount(c, t, gens)
  {
    hide Due;
    FilterShrinks(gens, after, DueAt(c, t), i);
  }

  /** What the compaction of a quiet tick packed is packed after the tick. */
  lemma {:induction false} PackedIsNotDue(c: Config, gens: seq<Gen>, env: Env, i: nat)
    requires UniqueIds(gens) && OneGenPerBuild(gens) && c.enableCompaction && env.evicts && Evicted(c, gens, env) == gens
    requires i < |gens| == |AfterCompact(c, gens, env).0| && AfterCompact(c, gens, env).0[i].packID != []
    ensures var after := AfterTick(c, gens, env);
            |after| == |gens| && !Waiting(after[i]) && forall k :: 0 <= k < |gens| ==> TickStepOk(c, env, gens[k], after[k])
  {
    hide UniqueIds, OneGenPerBuild, Aged, Evicted, AfterCompact, AfterRelease, TickStepOk, HighPressure, Gate, ReleaseStepOk,
         PackStepOk;
    var packed, after := AfterCompact(c, gens, env).0, AfterTick(c, gens, env);
    TickTransition(c, gens, env);
    CompactTransition(c, gens, env);
    forall k | 0 <= k < |gens| ensures SameRow(gens[k], packed[k]) { PackKeepsRow(c, env, gens[k], packed[k]); }
    SameRowsKeep(gens, packed);
    ReleaseTransition(c, packed, env, UsageFor(env));
    if after != packed { ReleaseKeepsPack(c, env, HighPressure(c, env, UsageFor(env)), packed[i], after[i]); }
  }

  /**
   * Quiet ticks from time t0 to time t, in any order: as many of them as generations are due by t pack every one that was
   * due at t0, whatever younger generations wait beside them. When nothing comes of age in between, these are n ticks for
   * n generations.
   */
  lemma {:induction false} TicksPackAll(c: Config, gens: seq<Gen>, envs: seq<Env>, t0: int, t: int)
    requires UniqueIds(gens) && OneGenPerBuild(gens) && c.enableCompaction && t0 <= t && |envs| >= DueCount(c, t, gens)
    requires forall k :: 0 <= k < |envs| ==> Quiet(c, envs[k]) && t0 <= envs[k].now <= t
    ensures DueCount(c, t0, Run(c, gens, envs)) == 0
    decreases |envs|
  {
    hide UniqueIds, OneGenPerBuild, Aged, AfterTick, Quiet, WaitingCount, Waiting, Evicted, UnreleasedCount, Unreleased, DueCount;
    if envs != [] {
      var next := AfterTick(c, gens, envs[0]);
      assert envs[0].evicted == {} by { QuietEvicts(c, envs[0]); }
      QuietEvictsNothing(c, gens, envs[0]);
      TickTransition(c, gens, envs[0]);
      TickNeverAdds(c, gens, envs[0], t0);
      if DueCount(c, t0, gens) > 0 {
        DueGrows(c, gens, t0, envs[0].now);
        TickPacks(c, gens, envs[0], t);
        TicksPackAll(c, next, envs[1..], t0, t);
      } else {
        NeverDueAgain(c, next, envs[1..], t0);
      }
    } else {
      DueGrows(c, gens, t0, t);
    }
  }

  lemma {:induction false} DueGrows(c: Config, gens: seq<Gen>, t: int, later: int)
    requires t <= later
    ensures DueCount(c, t, gens) > 0 ==> DueCount(c, later, gens) > 0
  {
    NoneDue(c, t, gens);
    NoneDue(c, later, gens);
  }

  lemma {:induction false} NeverDueAgain(c: Config, gens: seq<Gen>, envs: seq<Env>, t: int)
    requires UniqueIds(gens) && OneGenPerBuild(gens) && DueCount(c, t, gens) == 0
    requires forall k :: 0 <= k < |envs| ==> Quiet(c, envs[k])
    ensures DueCount(c, t, Run(c, gens, envs)) == 0
    decreases |envs|
  {
    hide UniqueIds, OneGenPerBuild, AfterTick, Quiet, WaitingCount, Waiting, Evicted, UnreleasedCount, DueCount;
    if envs != [] {
      assert envs[0].evicted == {} by { QuietEvicts(c, envs[0]); }
      QuietEvictsNothing(c, gens, envs[0]);
      TickTransition(c, gens, envs[0]);
      TickNeverAdds(c, gens, envs[0], t);
      NeverDueAgain(c, AfterTick(c, gens, envs[0]), envs[1..], t);
    }
  }

  lemma {:induction false} QuietEvicts(c: Config, env: Env)
    requires Quiet(c, env)
    ensures env.evicted == {}
  {}

  // ---- Why the count is taken at the last tick --------------------------------------------------------------------

  const ELDER := Gen(1, "p", "j", 1, 1, true, "", Some(0), None, false)
  const JUNIOR := Gen(2, "p", "j", 2, 1, true, "", Some(1), None, false)

  /** One pack of one member a tick, no releases. */
  const ONE_BY_ONE := Config(false, true, false, false, 1, 1, 0.1, 1, 1, 1, 10, 0.25)

  lemma {:induction false} SortTwo<T>(x: T, y: T, leq: (T, T) -> bool)
    ensures Sort([x, y], leq) == if leq(x, y) then [x, y] else [y, x]
    ensures Sort([x], leq) == [x]
  {
    assert [x, y][1..] == [y] && [y][1..] == [] && [x][1..] == [];
    assert Sort([y], leq) == [y];
  }

  lemma {:induction false} KeysOfTwo(keyOf: Gen -> string)
    requires keyOf(JUNIOR) == "a" && keyOf(ELDER) == "b"
    ensures KeyList([ELDER, JUNIOR], keyOf) == ["b", "a"] && Sort(["b", "a"], LexLeq) == ["a", "b"]
  {
    hide Sort;
    assert [ELDER, JUNIOR][..1] == [ELDER] && [ELDER][..0] == [];
    assert KeyList([ELDER], keyOf) == ["b"];
    SortTwo("b", "a", LexLeq);
  }

  lemma {:induction false} MembersOfA(keyOf: Gen -> string)
    requires keyOf(JUNIOR) == "a" && keyOf(ELDER) == "b"
    ensures Members([ELDER, JUNIOR], keyOf, "a") == [JUNIOR]
  {
    assert [ELDER, JUNIOR][..1] == [ELDER] && [ELDER][..0] == [];
    assert Members([ELDER], keyOf, "a") == [];
  }

  lemma {:induction false} OneChunk<T>(x: T)
    ensures Chunks([x], 1, 1, 1) == [[x]]
  {
    assert [x][..1] == [x];
  }

  lemma {:induction false} JuniorIsSelected(keyOf: Gen -> string)
    requires keyOf(JUNIOR) == "a" && keyOf(ELDER) == "b"
    ensures Select([ELDER, JUNIOR], keyOf, 1, 1, 1) == [[JUNIOR]]
  {
    hide Sort, LexLeq, ByBuild, KeyList, Members, Chunks;
    KeysOfTwo(keyOf);
    MembersOfA(keyOf);
    SortTwo(JUNIOR, JUNIOR, ByBuild);
    var groups := Groups([ELDER, JUNIOR], keyOf);
    assert groups[0] == [JUNIOR];
    OneChunk(JUNIOR);
    NoneWithoutRoom(groups[1..], 1, 1);
  }

  lemma {:induction false} BothAreForced(env: Env)
    requires env.pinned == {} && env.leased == {}
    ensures PackCandidates([ELDER, JUNIOR], env) == [ELDER, JUNIOR] && Forced(ONE_BY_ONE, [ELDER, JUNIOR], 11) == [ELDER, JUNIOR]
  {
    hide Sort, Filter;
    SortTwo(ELDER, JUNIOR, ByUpdate);
    FilterAll([ELDER, JUNIOR], g => PackCandidate(env, g));
    FilterAll([ELDER, JUNIOR], g => Aged(ONE_BY_ONE, 11, g));
  }

  /**
   * A generation that has come of age since may be packed before one that was due earlier: at time 10 only the elder of
   * two is due, and a quiet tick at time 11 leaves it waiting.
   */
  lemma {:induction false} YoungerMayGoFirst(env: Env)
    requires Quiet(ONE_BY_ONE, env) && env.now == 11
    requires env.affinity.value(JUNIOR) == "a" && env.affinity.value(ELDER) == "b"
    ensures Due(ONE_BY_ONE, 10, ELDER) && !Due(ONE_BY_ONE, 10, JUNIOR)
    ensures ELDER in AfterTick(ONE_BY_ONE, [ELDER, JUNIOR], env)
  {
    hide Batches, UnderHeadroom, PackedAfter, Forced, PackCandidates, Select, AfterRelease;
    BothAreForced(env);
    JuniorIsSelected(env.affinity.value);
    OnlyJuniorIsPacked(env);
    assert Evicted(ONE_BY_ONE, [ELDER, JUNIOR], env) == [ELDER, JUNIOR];
  }

  lemma {:induction false} OnlyJuniorIsPacked(env: Env)
    requires env.cancelledAt.None? && env.affinity.Some? && env.now == 11
    requires Forced(ONE_BY_ONE, [ELDER, JUNIOR], 11) == [ELDER, JUNIOR]
    requires Select([ELDER, JUNIOR], env.affinity.value, 1, 1, 1) == [[JUNIOR]]
    ensures forall under :: Batches(ONE_BY_ONE, [ELDER, JUNIOR], env.affinity.value, 11, under) == [[JUNIOR]]
    ensures ELDER in PackedAfter([ELDER, JUNIOR], [[JUNIOR]], env, Tried(env, [[JUNIOR]])).gens
  {
    hide Select, Forced, Packable;
    var gens := [ELDER, JUNIOR];
    assert PackedAfter(gens, [[JUNIOR]], env, 0) == Packing(gens, 0, 0);
    var after := PackOne(Packing(gens, 0, 0), [JUNIOR], env.packs(0), 11).gens;
    forall k | 0 <= k < 1 && Latest(gens, KeyOf([JUNIOR][k])).Some? ensures Latest(gens, KeyOf([JUNIOR][k])).value.id != 1 {
      LatestHasKey(gens, KeyOf(JUNIOR));
    }
    assert after[0] == ELDER;
  }

  // ---- Releasing ----------------------------------------------------------------------------------------

  /** Every packed generation may be released now, by age, pressure or configuration. */
  predicate GateOpen(c: Config, env: Env, gens: seq<Gen>) {
    forall g :: g in gens && Unreleased(g) ==> Gate(c, env.now, HighPressure(c, env, UsageFor(env)), g)
  }

  lemma {:induction false} NoneWaiting(gens: seq<Gen>)
    requires WaitingCount(gens) == 0
    ensures forall g :: g in gens ==> !Waiting(g)
  {
    assert Filter(gens, Waiting) == [];
  }

  lemma {:induction false} NonemptyHasMember<T(!new)>(s: seq<T>)
    ensures s != [] ==> exists x :: x in s
  {
    if s != [] { assert s[0] in s; }
  }

  /** With nothing left to pack, a compaction does nothing. */
  lemma {:induction false} NothingToPack(c: Config, gens: seq<Gen>, env: Env)
    requires WaitingCount(gens) == 0 && env.usage.Some? && env.listed
    ensures AfterCompact(c, gens, env).0 == gens && AfterCompact(c, gens, env).1.Some?
  {
    hide UnderHeadroom, Batches, Forced;
    PackCandidatesPart(gens, env);
    NoneWaiting(gens);
    NonemptyHasMember(PackCandidates(gens, env));
  }

  /** The candidates of a quiet tick, after everything was packed, are all unreleased generations. */
  lemma {:induction false} AllAreCandidates(gens: seq<Gen>, env: Env)
    requires env.pinned == {} && env.leased == {} && WaitingCount(gens) == 0
    ensures |ReleaseCandidates(gens, env)| == UnreleasedCount(gens)
    ensures forall g :: g in ReleaseCandidates(gens, env) <==> g in gens && Unreleased(g)
  {
    hide ByUpdate;
    ReleaseCandidatesPart(gens, env);
    NoneWaiting(gens);
    FilterPermuted(Listed(gens), gens, g => ReleaseCandidate(env, g));
    FilterSame(gens, g => ReleaseCandidate(env, g), Unreleased);
  }

  lemma {:induction false} PrefixReleases(c: Config, env: Env, high: bool, gens: seq<Gen>, cands: seq<Gen>, k: nat, j: nat)
    requires j <= k <= |cands|
    ensures ReleasedAfter(c, env, high, gens, cands[..k], j) == ReleasedAfter(c, env, high, gens, cands, j)
  {
    if j > 0 { PrefixReleases(c, env, high, gens, cands, k, j - 1); }
  }

  /** Releasing one more candidate takes exactly one generation off the unreleased ones. */
  lemma {:induction false} OneReleased(gens: seq<Gen>, now: seq<Gen>, taken: seq<Gen>, g: Gen, c: Config, env: Env, high: bool)
    requires UniqueIds(gens) && g in gens && g !in taken && Unreleased(g)
    requires ReleasedSoFar(c, env, high, gens, now, taken)
    ensures UnreleasedCount(MarkReleased(now, g.id)) == UnreleasedCount(now) - 1
  {
    hide Goes, Filter;
    var i :| 0 <= i < |gens| && gens[i] == g;
    assert now[i] == g;
    var after := MarkReleased(now, g.id);
    forall k | 0 <= k < |now| && k != i ensures Unreleased(now[k]) == Unreleased(after[k]) {
      assert now[k].id == gens[k].id != g.id;
    }
    FilterLosesOne(now, after, Unreleased, i);
  }

  lemma {:induction false} TakenEarlier(gens: seq<Gen>, cands: seq<Gen>, k: nat)
    requires UniqueIds(cands) && k < |cands| && forall g :: g in cands ==> g in gens
    ensures cands[k] !in cands[..k] && forall x :: x in cands[..k] ==> x in gens
  {}

  /** After k candidates, the smaller of k and the cap have been released, one generation each. */
  lemma {:induction false} ReleaseCount(c: Config, env: Env, high: bool, gens: seq<Gen>, cands: seq<Gen>, k: nat)
    requires UniqueIds(gens) && UniqueIds(cands) && k <= |cands|
    requires forall g :: g in cands ==> g in gens && Unreleased(g) && Goes(c, env, high, g)
    ensures var p := ReleasedAfter(c, env, high, gens, cands, k);
            && !p.cancelled && p.n == Min(k, c.MaxReleases())
            && UnreleasedCount(p.gens) == UnreleasedCount(gens) - p.n
  {
    hide Goes, Gate, UnreleasedCount, Unreleased, MarkReleased, UniqueIds, ReleasedSoFar;
    if k > 0 {
      ReleaseCount(c, env, high, gens, cands, k - 1);
      var p, g := ReleasedAfter(c, env, high, gens, cands, k - 1), cands[k - 1];
      assert g in cands;
      if p.n < c.MaxReleases() {
        var taken := cands[..k - 1];
        TakenEarlier(gens, cands, k - 1);
        PrefixReleases(c, env, high, gens, cands, k - 1, k - 1);
        ReleasedAfterMarks(c, env, high, gens, taken, k - 1);
        OneReleased(gens, p.gens, taken, g, c, env, high);
      }
    }
  }

  lemma {:induction false} JournalEmpty(gens: seq<Gen>, env: Env)
    requires env.journal.None?
    ensures AfterJournal(gens, env) == gens
  {}

  /** Once all is packed, a quiet tick with open gates releases up to the cap. */
  lemma {:induction false} TickReleases(c: Config, gens: seq<Gen>, env: Env)
    requires UniqueIds(gens) && OneGenPerBuild(gens) && Quiet(c, env) && (c.enableRelease || c.releaseAfterPack)
    requires WaitingCount(gens) == 0 && GateOpen(c, env, gens)
    ensures UnreleasedCount(AfterTick(c, gens, env)) == Max(0, UnreleasedCount(gens) - c.MaxReleases())
    ensures WaitingCount(AfterTick(c, gens, env)) == 0
  {
    hide UniqueIds, OneGenPerBuild, Evicted, AfterCompact, HighPressure, Gate, UnreleasedCount, Unreleased, WaitingCount,
         ReleaseCandidates, ReleasedAfter, AfterJournal;
    QuietEvictsNothing(c, gens, env);
    NothingToPack(c, gens, env);
    JournalEmpty(gens, env);
    AllAreCandidates(gens, env);
    ReleaseCandidatesPart(gens, env);
    var cands, high := ReleaseCandidates(gens, env), HighPressure(c, env, UsageFor(env));
    PartIsUnique(cands, gens);
    ReleaseCount(c, env, high, gens, cands, |cands|);
    TickNeverAdds(c, gens, env, env.now);
  }

  /** In every tick of the run the gates are open. */
  ghost predicate GatesOpen(c: Config, gens: seq<Gen>, envs: seq<Env>)
    decreases |envs|
  {
    envs == [] || (GateOpen(c, envs[0], gens) && GatesOpen(c, AfterTick(c, gens, envs[0]), envs[1..]))
  }

  lemma {:induction false} TicksRelease(c: Config, gens: seq<Gen>, envs: seq<Env>)
    requires UniqueIds(gens) && OneGenPerBuild(gens) && (c.enableRelease || c.releaseAfterPack)
    requires WaitingCount(gens) == 0 && GatesOpen(c, gens, envs) && forall k :: 0 <= k < |envs| ==> Quiet(c, envs[k])
    ensures UnreleasedCount(Run(c, gens, envs)) == Max(0, UnreleasedCount(gens) - |envs| * c.MaxReleases())
    ensures WaitingCount(Run(c, gens, envs)) == 0
    decreases |envs|
  {
    hide UniqueIds, OneGenPerBuild, AfterTick, Quiet, WaitingCount, UnreleasedCount, GateOpen;
    if envs != [] {
      TickReleases(c, gens, envs[0]);
      TickTransition(c, gens, envs[0]);
      TicksRelease(c, AfterTick(c, gens, envs[0]), envs[1..]);
      OneMoreTick(UnreleasedCount(gens), |envs|, c.MaxReleases());
    }
  }

  lemma {:induction false} OneMoreTick(count: nat, ticks: nat, cap: nat)
    requires ticks > 0
    ensures Max(0, Max(0, count - cap) - (ticks - 1) * cap) == Max(0, count - ticks * cap)
  {
    assert ticks * cap == (ticks - 1) * cap + cap;
    assert (ticks - 1) * cap >= 0;
  }

  lemma {:induction false} RunsCompose(c: Config, gens: seq<Gen>, a: seq<Env>, b: seq<Env>)
    ensures Run(c, gens, a + b) == Run(c, Run(c, gens, a), b)
    decreases |a|
  {
    hide AfterTick;
    if a == [] {
      assert a + b == b;
    } else {
      assert (a + b)[0] == a[0] && (a + b)[1..] == a[1..] + b;
      RunsCompose(c, AfterTick(c, gens, a[0]), a[1..], b);
    }
  }

  lemma {:induction false} RunNeverAdds(c: Config, gens: seq<Gen>, envs: seq<Env>)
    requires UniqueIds(gens) && OneGenPerBuild(gens) && forall k :: 0 <= k < |envs| ==> Quiet(c, envs[k])
    ensures var after := Run(c, gens, envs);
            && UniqueIds(after) && OneGenPerBuild(after) && UnreleasedCount(after) <= UnreleasedCount(gens)
            && (forall h :: h in after && Waiting(h) ==> h in gens)
    decreases |envs|
  {
    hide UniqueIds, OneGenPerBuild, AfterTick, Quiet, WaitingCount, UnreleasedCount, DueCount, Evicted, Waiting, TickStepOk;
    if envs != [] {
      TickNeverAdds(c, gens, envs[0], 0);
      TickTransition(c, gens, envs[0]);
      assert envs[0].evicted == {} by { QuietEvicts(c, envs[0]); }
      QuietEvictsNothing(c, gens, envs[0]);
      RunNeverAdds(c, AfterTick(c, gens, envs[0]), envs[1..]);
    }
  }

  // ---- Releasing beside generations that still wait ---------------------------------------------------------

  /** The generations with these ids are in packs. */
  ghost predicate ArePacked(gens: seq<Gen>, ids: set<int>) {
    forall g :: g in gens && g.id in ids && g.sealed ==> g.packID != []
  }

  ghost predicate AreReleased(gens: seq<Gen>, ids: set<int>) {
    forall g :: g in gens && g.id in ids ==> !Unreleased(g)
  }

  /** Those of them that still have their L1 copy may be released now, by age, pressure or configuration. */
  ghost predicate MayGo(c: Config, env: Env, gens: seq<Gen>, ids: set<int>) {
    forall g :: g in gens && g.id in ids && Unreleased(g) ==> Gate(c, env.now, HighPressure(c, env, UsageFor(env)), g)
  }

  /** The candidates whose gate is open, all of them as long as the cap is not reached. */
  ghost predicate ReadyAreReleased(c: Config, env: Env, high: bool, gens: seq<Gen>, now: seq<Gen>, cands: seq<Gen>)
    requires |now| == |gens|
  {
    forall i :: 0 <= i < |gens| && gens[i] in cands && Gate(c, env.now, high, gens[i]) ==> !Unreleased(now[i])
  }

  lemma {:induction false} ReadyStep(c: Config, env: Env, high: bool, gens: seq<Gen>, p: Releasing, taken: seq<Gen>, g: Gen)
    requires UniqueIds(gens) && ReleasedSoFar(c, env, high, gens, p.gens, taken) && g in gens
    requires ReadyAreReleased(c, env, high, gens, p.gens, taken) && !p.cancelled && p.n < c.MaxReleases()
    requires Gate(c, env.now, high, g) ==> Goes(c, env, high, g)
    ensures ReadyAreReleased(c, env, high, gens, ReleaseOne(c, env, high, p, g).gens, taken + [g])
  {
    hide Gate, Goes;
    var q := ReleaseOne(c, env, high, p, g);
    forall i | 0 <= i < |gens| && gens[i] in taken + [g] && Gate(c, env.now, high, gens[i]) ensures !Unreleased(q.gens[i]) {
      assert gens[i] in taken || gens[i] == g;
      assert p.gens[i].id == gens[i].id;
    }
  }

  /** After k candidates: up to the cap, each one released is one less; below the cap, no open gate was passed by. */
  lemma {:induction false} ReleaseRuns(c: Config, env: Env, high: bool, gens: seq<Gen>, cands: seq<Gen>, k: nat)
    requires UniqueIds(gens) && UniqueIds(cands) && k <= |cands|
    requires forall g :: g in cands ==> g in gens && Unreleased(g) && env.verified(g) && env.releases(g).ReleaseGoes?
    ensures var p := ReleasedAfter(c, env, high, gens, cands, k);
            && !p.cancelled && p.n <= c.MaxReleases() && |p.gens| == |gens|
            && UnreleasedCount(p.gens) == UnreleasedCount(gens) - p.n
            && (p.n < c.MaxReleases() ==> ReadyAreReleased(c, env, high, gens, p.gens, cands[..k]))
  {
    hide Gate, UnreleasedCount, Unreleased, MarkReleased, UniqueIds, ReleasedSoFar, ReadyAreReleased;
    if k > 0 {
      ReleaseRuns(c, env, high, gens, cands, k - 1);
      var p, g, taken := ReleasedAfter(c, env, high, gens, cands, k - 1), cands[k - 1], cands[..k - 1];
      assert g in cands;
      if p.n < c.MaxReleases() {
        TakenEarlier(gens, cands, k - 1);
        PrefixReleases(c, env, high, gens, cands, k - 1, k - 1);
        ReleasedAfterMarks(c, env, high, gens, taken, k - 1);
        ReadyStep(c, env, high, gens, p, taken, g);
        assert cands[..k] == taken + [g];
        if Gate(c, env.now, high, g) { OneReleased(gens, p.gens, taken, g, c, env, high); }
      }
    } else {
      NoneTaken(c, env, high, gens, cands);
    }
  }

  lemma {:induction false} NoneTaken(c: Config, env: Env, high: bool, gens: seq<Gen>, cands: seq<Gen>)
    ensures ReadyAreReleased(c, env, high, gens, gens, cands[..0])
  {}

  /** What a quiet tick has packed before it releases: packed generations are as they were. */
  lemma {:induction false} PackedRowsStay(c: Config, gens: seq<Gen>, env: Env)
    requires UniqueIds(gens) && OneGenPerBuild(gens) && Quiet(c, env)
    ensures var (packed, ok) := Compacted(c, gens, env);
            && ok && |packed| == |gens| && UniqueIds(packed) && UnreleasedCount(packed) <= UnreleasedCount(gens)
            && forall i :: 0 <= i < |gens| ==> packed[i].id == gens[i].id && (gens[i].packID != [] ==> packed[i] == gens[i])
                                               && (Unreleased(packed[i]) <==> Unreleased(gens[i]))
  {
    hide UniqueIds, OneGenPerBuild, Aged, UnderHeadroom, PackCandidates, Batches, PackedAfter, Forced;
    CompactTransition(c, gens, env);
    var packed := Compacted(c, gens, env).0;
    forall i | 0 <= i < |gens|
      ensures SameRow(gens[i], packed[i]) && (gens[i].packID != [] ==> packed[i] == gens[i])
      ensures Unreleased(packed[i]) <==> Unreleased(gens[i])
    {
      assert PackStepOk(c, env, gens[i], packed[i]);
    }
    SameRowsKeep(gens, packed);
    FilterShrinks(gens, packed, Unreleased, |gens|);
  }

  /** A quiet tick releases up to its cap: so many generations less, or none of the given ones is left. */
  lemma {:induction false} TickReleasesGiven(c: Config, gens: seq<Gen>, env: Env, ids: set<int>)
    requires UniqueIds(gens) && OneGenPerBuild(gens) && Quiet(c, env) && (c.enableRelease || c.releaseAfterPack)
    requires ArePacked(gens, ids) && MayGo(c, env, gens, ids)
    ensures var after := AfterTick(c, gens, env);
            AreReleased(after, ids) || UnreleasedCount(after) + c.MaxReleases() <= UnreleasedCount(gens)
  {
    hide UniqueIds, OneGenPerBuild, Evicted, Compacted, HighPressure, Gate, UnreleasedCount, ReleaseCandidates, ReleasedAfter,
         AfterJournal, Goes;
    QuietEvictsNothing(c, gens, env);
    PackedRowsStay(c, gens, env);
    var packed, high := Compacted(c, gens, env).0, HighPressure(c, env, UsageFor(env));
    JournalEmpty(packed, env);
    ReleaseCandidatesPart(packed, env);
    var cands := ReleaseCandidates(packed, env);
    PartIsUnique(cands, packed);
    ReleaseRuns(c, env, high, packed, cands, |cands|);
    ReleaseTransition(c, packed, env, UsageFor(env));
    var after := AfterTick(c, gens, env);
    assert after == ReleasedAfter(c, env, high, packed, cands, |cands|).gens;
    if UnreleasedCount(after) + c.MaxReleases() > UnreleasedCount(gens) {
      assert cands[..|cands|] == cands;
      forall i | 0 <= i < |after| && after[i].id in ids ensures !Unreleased(after[i]) {
        ReleaseOnlyReleases(c, env, high, packed[i], after[i]);
        assert gens[i] in gens && packed[i] in packed;
      }
    }
  }

  lemma {:induction false} ReleaseOnlyReleases(c: Config, env: Env, high: bool, g: Gen, h: Gen)
    requires ReleaseStepOk(c, env, high, g, h)
    ensures h.id == g.id && (Unreleased(h) ==> h == g)
  {}

  /** In every tick of the run, those of the given generations that still have their L1 copy may go. */
  ghost predicate MayGoThroughout(c: Config, gens: seq<Gen>, envs: seq<Env>, ids: set<int>)
    decreases |envs|
  {
    envs == [] || (MayGo(c, envs[0], gens, ids) && MayGoThroughout(c, AfterTick(c, gens, envs[0]), envs[1..], ids))
  }

  lemma {:induction false} StayPackedAndReleased(c: Config, gens: seq<Gen>, env: Env, ids: set<int>)
    requires UniqueIds(gens) && OneGenPerBuild(gens) && Quiet(c, env)
    ensures ArePacked(gens, ids) ==> ArePacked(AfterTick(c, gens, env), ids)
    ensures AreReleased(gens, ids) ==> AreReleased(AfterTick(c, gens, env), ids)
  {
    hide UniqueIds, OneGenPerBuild, AfterTick, Evicted, HighPressure, Gate, UnderHeadroom, Aged;
    QuietEvictsNothing(c, gens, env);
    TickTransition(c, gens, env);
    var after := AfterTick(c, gens, env);
    forall i | 0 <= i < |after|
      ensures after[i].id == gens[i].id && gens[i] in gens && (Waiting(after[i]) ==> after[i] == gens[i])
      ensures Unreleased(after[i]) ==> Unreleased(gens[i])
    {
      assert TickStepOk(c, env, gens[i], after[i]);
      TickKeepsPacked(c, env, gens[i], after[i]);
    }
  }

  /** Given generations that are all packed are all released by enough quiet ticks, whatever else waits or is packed. */
  lemma {:induction false} TicksReleaseGiven(c: Config, gens: seq<Gen>, envs: seq<Env>, ids: set<int>)
    requires UniqueIds(gens) && OneGenPerBuild(gens) && (c.enableRelease || c.releaseAfterPack)
    requires ArePacked(gens, ids) && MayGoThroughout(c, gens, envs, ids) && forall k :: 0 <= k < |envs| ==> Quiet(c, envs[k])
    requires AreReleased(gens, ids) || |envs| * c.MaxReleases() >= UnreleasedCount(gens)
    ensures AreReleased(Run(c, gens, envs), ids)
    decreases |envs|
  {
    hide UniqueIds, OneGenPerBuild, AfterTick, Quiet, UnreleasedCount, MayGo, ArePacked, AreReleased, Evicted;
    if envs != [] {
      TickTransition(c, gens, envs[0]);
      TickReleasesGiven(c, gens, envs[0], ids);
      StayPackedAndReleased(c, gens, envs[0], ids);
      OneTickLess(|envs|, c.MaxReleases());
      TicksReleaseGiven(c, AfterTick(c, gens, envs[0]), envs[1..], ids);
    } else if !AreReleased(gens, ids) {
      assert |envs| * c.MaxReleases() == 0;
      NoneUnreleased(gens, ids);
    }
  }

  lemma {:induction false} OneTickLess(ticks: nat, cap: nat)
    requires ticks > 0
    ensures ticks * cap == (ticks - 1) * cap + cap
  {}

  lemma {:induction false} NoneUnreleased(gens: seq<Gen>, ids: set<int>)
    requires UnreleasedCount(gens) == 0
    ensures AreReleased(gens, ids)
  {
    assert Filter(gens, Unreleased) == [];
  }

  /** The sealed generations that are packed already, or past the force age at t0. */
  ghost function Ripe(c: Config, t0: int, gens: seq<Gen>): set<int> {
    set g | g in gens && g.sealed && (g.packID != [] || Aged(c, t0, g)) :: g.id
  }

  lemma {:induction false} RipeArePacked(c: Config, gens: seq<Gen>, after: seq<Gen>, t0: int)
    requires UniqueIds(gens) && DueCount(c, t0, after) == 0 && forall h :: h in after && Waiting(h) ==> h in gens
    ensures ArePacked(after, Ripe(c, t0, gens))
  {
    hide Aged;
    NoneDue(c, t0, after);
    forall h | h in after && h.id in Ripe(c, t0, gens) && h.sealed ensures h.packID != [] {
      if h.packID == [] {
        var g :| g in gens && g.sealed && (g.packID != [] || Aged(c, t0, g)) && g.id == h.id;
        SameIdSame(gens, g, h);
      }
    }
  }

  lemma {:induction false} SameIdSame(gens: seq<Gen>, g: Gen, h: Gen)
    requires UniqueIds(gens) && g in gens && h in gens && g.id == h.id
    ensures g == h
  {}

  /**
   * Liveness, for any mix of old and young generations. With no failures, pins, leases, evictions or new generations:
   * all that are past the force age at t0 are packed after as many ticks as generations are due by the last of them, and
   * all that were packed or past that age are released after enough further ticks in which they may go.
   */
  lemma {:induction false} AllPackedThenReleased(c: Config, gens: seq<Gen>, packing: seq<Env>, releasing: seq<Env>, t0: int, t: int)
    requires UniqueIds(gens) && OneGenPerBuild(gens) && c.enableCompaction && (c.enableRelease || c.releaseAfterPack)
    requires t0 <= t && forall k :: 0 <= k < |packing| ==> Quiet(c, packing[k]) && t0 <= packing[k].now <= t
    requires forall k :: 0 <= k < |releasing| ==> Quiet(c, releasing[k])
    requires |packing| >= DueCount(c, t, gens) && |releasing| * c.MaxReleases() >= UnreleasedCount(gens)
    requires MayGoThroughout(c, Run(c, gens, packing), releasing, Ripe(c, t0, gens))
    ensures ArePacked(Run(c, gens, packing), Ripe(c, t0, gens))
    ensures AreReleased(Run(c, gens, packing + releasing), Ripe(c, t0, gens))
  {
    hide UniqueIds, OneGenPerBuild, Quiet, UnreleasedCount, MayGoThroughout, Run, ArePacked, AreReleased, DueCount, Ripe;
    TicksPackAll(c, gens, packing, t0, t);
    RunNeverAdds(c, gens, packing);
    RipeArePacked(c, gens, Run(c, gens, packing), t0);
    TicksReleaseGiven(c, Run(c, gens, packing), releasing, Ripe(c, t0, gens));
    RunsCompose(c, gens, packing, releasing);
  }

  /** A packed generation with its L1 copy whose gate is open. */
  ghost predicate Ready(c: Config, gens: seq<Gen>, env: Env, g: Gen) {
    g in gens && Unreleased(g) && g.packID != [] && Gate(c, env.now, HighPressure(c, env, UsageFor(env)), g)
  }

  /** The measure: in every quiet tick that finds a generation to force or one to release, due plus unreleased goes down. */
  lemma {:induction false} TickMakesProgress(c: Config, gens: seq<Gen>, env: Env, t: int)
    requires UniqueIds(gens) && OneGenPerBuild(gens) && Quiet(c, env) && env.now <= t
    requires c.enableCompaction && (c.enableRelease || c.releaseAfterPack)
    requires DueCount(c, env.now, gens) > 0 || exists g :: Ready(c, gens, env, g)
    ensures DueCount(c, t, AfterTick(c, gens, env)) + UnreleasedCount(AfterTick(c, gens, env))
          < DueCount(c, t, gens) + UnreleasedCount(gens)
  {
    hide UniqueIds, OneGenPerBuild, AfterTick, UnreleasedCount, DueCount, Evicted, Quiet, Waiting;
    assert env.evicted == {} by { QuietEvicts(c, env); }
    QuietEvictsNothing(c, gens, env);
    TickNeverAdds(c, gens, env, t);
    if DueCount(c, env.now, gens) > 0 {
      TickPacks(c, gens, env, t);
    } else {
      var g :| Ready(c, gens, env, g);
      ReadyGoesDown(c, gens, env, g);
    }
  }

  lemma {:induction false} ReadyGoesDown(c: Config, gens: seq<Gen>, env: Env, g: Gen)
    requires UniqueIds(gens) && OneGenPerBuild(gens) && Quiet(c, env) && (c.enableRelease || c.releaseAfterPack)
    requires Ready(c, gens, env, g)
    ensures UnreleasedCount(AfterTick(c, gens, env)) < UnreleasedCount(gens)
  {
    hide UniqueIds, OneGenPerBuild, AfterTick, Evicted, HighPressure, Gate, UnderHeadroom, Aged;
    forall h | h in gens && h.id == g.id ensures h == g { SameIdSame(gens, g, h); }
    TickReleasesGiven(c, gens, env, {g.id});
    QuietEvictsNothing(c, gens, env);
    TickTransition(c, gens, env);
    var after := AfterTick(c, gens, env);
    var i :| 0 <= i < |gens| && gens[i] == g;
    forall k | 0 <= k < |gens| ensures after[k].id == gens[k].id && (Unreleased(after[k]) ==> Unreleased(gens[k])) {
      assert TickStepOk(c, env, gens[k], after[k]);
      TickKeepsPacked(c, env, gens[k], after[k]);
    }
    FilterShrinks(gens, after, Unreleased, i);
  }
}
