/** What every maintenance tick keeps, and why repeated ticks pack and release everything. */
module MaintenanceRuns {
  import opened Prelude
  import opened Sorting
  import opened Generations
  import opened PackSelection
  import opened Maintenance

  // ---- Batches ------------------------------------------------------------------------------------------

  lemma {:induction false} UniqueIsDistinct(gens: seq<Gen>, g: Gen)
    requires UniqueIds(gens)
    ensures multiset(gens)[g] <= 1
  {
    assert Distinct(gens);
    DistinctMultiset(gens);
  }

  /** Whatever is taken from generations with unique ids without repetition has unique ids. */
  lemma {:induction false} PartIsUnique(part: seq<Gen>, gens: seq<Gen>)
    requires UniqueIds(gens) && multiset(part) <= multiset(gens)
    ensures UniqueIds(part) && forall g :: g in part ==> g in gens
  {
    forall g | g in part ensures g in gens { assert g in multiset(part) && g in multiset(gens); }
    forall i, j | 0 <= i < j < |part| ensures part[i].id != part[j].id {
      assert part[i] in gens && part[j] in gens;
      if part[i] == part[j] {
        UniqueIsDistinct(gens, part[i]);
        TwiceInSeq(part, i, j);
        assert false;
      }
    }
  }

  lemma {:induction false} TwiceInSeq<T>(s: seq<T>, i: nat, j: nat)
    requires i < j < |s| && s[i] == s[j]
    ensures multiset(s)[s[i]] >= 2
  {
    var front, back := s[..j], s[j..];
    assert s == front + back && front[i] == back[0] == s[i];
    assert s[i] in multiset(front) && s[i] in multiset(back);
  }

  lemma {:induction false} PackCandidatesPart(gens: seq<Gen>, env: Env)
    ensures multiset(PackCandidates(gens, env)) <= multiset(gens)
    ensures forall g :: g in PackCandidates(gens, env) <==> g in gens && PackCandidate(env, g)
  {
    hide PackCandidate, ByUpdate, Sort;
    var listed := Listed(gens);
    forall g ensures multiset(PackCandidates(gens, env))[g] <= multiset(gens)[g] {
      FilterCount(listed, g => PackCandidate(env, g), g);
    }
    forall g ensures g in listed <==> g in gens { assert g in multiset(listed) <==> g in multiset(gens); }
  }

  lemma {:induction false} ForcedSplit(c: Config, cands: seq<Gen>, now: int)
    ensures multiset(Forced(c, cands, now)) + multiset(Unforced(c, cands, now)) == multiset(cands)
    ensures forall g :: g in Forced(c, cands, now) <==> g in cands && Aged(c, now, g)
  {
    hide Aged;
    forall g ensures (multiset(Forced(c, cands, now)) + multiset(Unforced(c, cands, now)))[g] == multiset(cands)[g] {
      FilterCount(cands, g => Aged(c, now, g), g);
      FilterCount(cands, g => !Aged(c, now, g), g);
    }
  }

  /** The batches of a tick number at most maxPacks, and together are candidates, none of them twice. */
  lemma {:induction false} BatchesTake(c: Config, cands: seq<Gen>, keyOf: Gen -> string, now: int, under: bool)
    ensures var out := Batches(c, cands, keyOf, now, under);
            && |out| <= c.MaxPacks()
            && multiset(Flatten(out)) <= multiset(cands)
            && (forall b :: b in out ==> 0 < |b| <= c.MaxMembers())
            && (Forced(c, cands, now) != [] ==> out != [])
  {
    hide Select, Aged, Flatten, Forced, Unforced;
    var forced := Select(Forced(c, cands, now), keyOf, c.MaxMembers(), 1, c.MaxPacks());
    SelectShape(Forced(c, cands, now), keyOf, c.MaxMembers(), 1, c.MaxPacks());
    ForcedSplit(c, cands, now);
    if !under && |forced| < c.MaxPacks() {
      var more := Select(Unforced(c, cands, now), keyOf, c.MaxMembers(), c.MinMembers(), c.MaxPacks() - |forced|);
      SelectShape(Unforced(c, cands, now), keyOf, c.MaxMembers(), c.MinMembers(), c.MaxPacks() - |forced|);
      FlattenAppend(forced, more);
      SumOfParts(Flatten(forced), Flatten(more), Forced(c, cands, now), Unforced(c, cands, now), cands);
      InEither(forced, more);
    }
  }

  lemma {:induction false} SumOfParts<T>(a: seq<T>, b: seq<T>, c: seq<T>, d: seq<T>, all: seq<T>)
    requires multiset(a) <= multiset(c) && multiset(b) <= multiset(d) && multiset(c) + multiset(d) == multiset(all)
    ensures multiset(a + b) <= multiset(all)
  {}

  lemma {:induction false} InEither<T(!new)>(a: seq<T>, b: seq<T>)
    ensures forall x :: x in a + b <==> x in a || x in b
  {}

  lemma {:induction false} MemberOfBatches(batches: seq<seq<Gen>>, b: seq<Gen>, g: Gen)
    requires b in batches && g in b
    ensures g in Flatten(batches)
  {
    PieceOfFlatten(batches, b);
    assert g in multiset(b) && g in multiset(Flatten(batches));
  }

  /**
   * Only sealed, unpacked, unpinned and unleased generations enter a tick's batches, none of them in two;
   * every batch is of one affinity, and under headroom every member has passed the force age.
   */
  lemma {:induction false} BatchesAreEligible(c: Config, gens: seq<Gen>, env: Env, keyOf: Gen -> string, under: bool)
    requires UniqueIds(gens)
    ensures var out := Batches(c, PackCandidates(gens, env), keyOf, env.now, under);
            && |out| <= c.MaxPacks() && UniqueIds(Flatten(out))
            && (forall b :: b in out ==> 0 < |b| <= c.MaxMembers())
            && (forall g :: g in Flatten(out) ==> g in gens && PackCandidate(env, g) && (under ==> Aged(c, env.now, g)))
            && (forall b, x, y :: b in out && x in b && y in b ==> keyOf(x) == keyOf(y))
  {
    hide Select, Aged, Flatten, PackCandidate, Forced, Unforced, UniqueIds, PackCandidates;
    var cands := PackCandidates(gens, env);
    var out := Batches(c, cands, keyOf, env.now, under);
    BatchesTake(c, cands, keyOf, env.now, under);
    PackCandidatesPart(gens, env);
    PartIsUnique(Flatten(out), gens);
    forall g | g in Flatten(out) ensures PackCandidate(env, g) && (under ==> Aged(c, env.now, g)) {
      assert g in multiset(Flatten(out)) && g in multiset(cands);
      if under {
        SelectShape(Forced(c, cands, env.now), keyOf, c.MaxMembers(), 1, c.MaxPacks());
        assert g in multiset(Forced(c, cands, env.now));
        ForcedSplit(c, cands, env.now);
      }
    }
    forall b, x, y | b in out && x in b && y in b ensures keyOf(x) == keyOf(y) {
      var forced := Select(Forced(c, cands, env.now), keyOf, c.MaxMembers(), 1, c.MaxPacks());
      if b in forced {
        SelectHomogeneous(Forced(c, cands, env.now), keyOf, c.MaxMembers(), 1, c.MaxPacks(), b, x, y);
      } else {
        SelectHomogeneous(Unforced(c, cands, env.now), keyOf, c.MaxMembers(), c.MinMembers(), c.MaxPacks() - |forced|, b, x, y);
      }
    }
  }

  /** On every return without an error, packs were made exactly when no reason for skipping is given. */
  lemma {:induction false} PackedIffNotSkipped(c: Config, gens: seq<Gen>, env: Env)
    requires AfterCompact(c, gens, env).1.Some?
    ensures var r := AfterCompact(c, gens, env).1.value; r.packs > 0 <==> r.skipped == ""
  {
    hide PackedAfter, Batches, PackCandidates, UnderHeadroom, Forced;
  }

  /** A batch below the minimum size holds force-aged generations only. */
  lemma {:induction false} ShortBatchesAreForced(c: Config, cands: seq<Gen>, keyOf: Gen -> string, now: int, under: bool,
                                                 b: seq<Gen>)
    requires b in Batches(c, cands, keyOf, now, under) && |b| < Min(c.MinMembers(), c.MaxMembers())
    ensures forall g :: g in b ==> Aged(c, now, g)
  {
    hide Select, Aged, Flatten, Forced, Unforced;
    var forced := Select(Forced(c, cands, now), keyOf, c.MaxMembers(), 1, c.MaxPacks());
    SelectShape(Forced(c, cands, now), keyOf, c.MaxMembers(), 1, c.MaxPacks());
    SelectShape(Unforced(c, cands, now), keyOf, c.MaxMembers(), c.MinMembers(), c.MaxPacks() - |forced|);
    ForcedSplit(c, cands, now);
    assert b in forced;
    forall g | g in b ensures Aged(c, now, g) {
      MemberOfBatches(forced, b, g);
      assert g in multiset(Flatten(forced)) && g in multiset(Forced(c, cands, now));
    }
  }

  // ---- What a tick does to each generation ----------------------------------------------------------------

  ghost predicate OneGenPerBuild(gens: seq<Gen>) {
    forall i, j :: 0 <= i < j < |gens| ==> KeyOf(gens[i]) != KeyOf(gens[j])
  }

  lemma {:induction false} LatestIs(gens: seq<Gen>, i: nat)
    requires OneGenPerBuild(gens) && i < |gens|
    ensures Latest(gens, KeyOf(gens[i])) == Some(gens[i])
  {
    var front := gens[..|gens| - 1];
    if i < |front| {
      LatestIs(front, i);
    } else {
      LatestNone(front, KeyOf(gens[i]));
    }
  }

  lemma {:induction false} LatestNone(gens: seq<Gen>, key: LogKey)
    requires forall i :: 0 <= i < |gens| ==> KeyOf(gens[i]) != key
    ensures Latest(gens, key).None?
  {
    if gens != [] { LatestNone(gens[..|gens| - 1], key); }
  }

  /** Same generations: only pack marks, times and release flags may differ. */
  ghost predicate SameRows(a: seq<Gen>, b: seq<Gen>) {
    |a| == |b| && forall i :: 0 <= i < |a| ==> SameRow(a[i], b[i])
  }

  predicate SameRow(g: Gen, h: Gen) {
    h.id == g.id && KeyOf(h) == KeyOf(g) && h.sealed == g.sealed && h.generation == g.generation
  }

  lemma {:induction false} SameRowsKeep(a: seq<Gen>, b: seq<Gen>)
    requires SameRows(a, b)
    ensures UniqueIds(a) ==> UniqueIds(b)
    ensures OneGenPerBuild(a) ==> OneGenPerBuild(b)
  {
    hide KeyOf;
    if UniqueIds(a) {
      forall i, j | 0 <= i < j < |b| ensures b[i].id != b[j].id { assert SameRow(a[i], b[i]) && SameRow(a[j], b[j]); }
    }
    if OneGenPerBuild(a) {
      forall i, j | 0 <= i < j < |b| ensures KeyOf(b[i]) != KeyOf(b[j]) { assert SameRow(a[i], b[i]) && SameRow(a[j], b[j]); }
    }
  }

  /** g was marked by a pack of this tick. */
  predicate Packed(env: Env, g: Gen, h: Gen) {
    h.packID != [] && h == g.(packID := h.packID, packedAt := Some(env.now), updatedAt := Some(env.now))
  }

  /** After k batches every generation is as it was, or is a member of one of them and marked. */
  ghost predicate MarkedSoFar(gens: seq<Gen>, now: seq<Gen>, batches: seq<seq<Gen>>, env: Env) {
    && |now| == |gens|
    && forall i :: 0 <= i < |gens| ==> now[i] == gens[i] || (gens[i] in Flatten(batches) && Packed(env, gens[i], now[i]))
  }

  lemma {:induction false} MarkedIsSameRows(gens: seq<Gen>, now: seq<Gen>, batches: seq<seq<Gen>>, env: Env)
    requires MarkedSoFar(gens, now, batches, env)
    ensures SameRows(gens, now)
  {
    hide Flatten;
    forall i | 0 <= i < |gens| ensures SameRow(gens[i], now[i]) {
      assert now[i] == gens[i] || Packed(env, gens[i], now[i]);
    }
  }

  lemma {:induction false} MarkedIdIsMember(gens: seq<Gen>, now: seq<Gen>, batch: seq<Gen>, n: nat, i: nat)
    requires UniqueIds(gens) && OneGenPerBuild(gens) && SameRows(gens, now)
    requires i < |gens| && now[i].id in MarkedIds(now, batch, n)
    requires forall g :: g in batch ==> g in gens
    ensures gens[i] in batch
  {
    var k :| 0 <= k < |batch| && k < n && Latest(now, KeyOf(batch[k])).Some?
             && Latest(now, KeyOf(batch[k])).value.id == now[i].id;
    assert batch[k] in gens;
    var j :| 0 <= j < |gens| && gens[j] == batch[k];
    assert SameRow(gens[j], now[j]) && SameRow(gens[i], now[i]);
    SameRowsKeep(gens, now);
    LatestIs(now, j);
    assert gens[j].id == gens[i].id;
    assert i == j;
  }

  lemma {:induction false} PackedAfterMarks(gens: seq<Gen>, batches: seq<seq<Gen>>, env: Env, k: nat)
    requires UniqueIds(gens) && OneGenPerBuild(gens) && k <= |batches|
    requires forall g :: g in Flatten(batches) ==> g in gens
    ensures MarkedSoFar(gens, PackedAfter(gens, batches, env, k).gens, batches, env)
  {
    hide Flatten, UniqueIds, OneGenPerBuild, Packable, MarkedIds;
    if k > 0 {
      PackedAfterMarks(gens, batches, env, k - 1);
      var p := PackedAfter(gens, batches, env, k - 1);
      MarkedIsSameRows(gens, p.gens, batches, env);
      var q := PackOne(p, batches[k - 1], env.packs(k - 1), env.now);
      forall i | 0 <= i < |gens| && q.gens[i] != p.gens[i]
        ensures gens[i] in Flatten(batches) && Packed(env, gens[i], q.gens[i])
      {
        forall g | g in batches[k - 1] ensures g in gens { MemberOfBatches(batches, batches[k - 1], g); }
        MarkedIdIsMember(gens, p.gens, batches[k - 1], env.packs(k - 1).marked, i);
        MemberOfBatches(batches, batches[k - 1], gens[i]);
      }
    }
  }

  /** What packing may do to one generation. */
  predicate PackStepOk(c: Config, env: Env, g: Gen, h: Gen) {
    h == g || (PackCandidate(env, g) && Packed(env, g, h) && (env.usage.Some? && UnderHeadroom(c, env.usage.value) ==> Aged(c, env.now, g)))
  }

  /** A compaction marks only generations that may be packed; under headroom only force-aged ones. */
  lemma {:induction false} CompactTransition(c: Config, gens: seq<Gen>, env: Env)
    requires UniqueIds(gens) && OneGenPerBuild(gens)
    ensures var after := AfterCompact(c, gens, env).0;
            |after| == |gens| && forall i :: 0 <= i < |gens| ==> PackStepOk(c, env, gens[i], after[i])
  {
    hide PackCandidate, UnderHeadroom, PackCandidates, Batches, Aged, UniqueIds, OneGenPerBuild, Flatten, PackedAfter, Forced;
    var after := AfterCompact(c, gens, env).0;
    if after != gens {
      var under := UnderHeadroom(c, env.usage.value);
      var batches := Batches(c, PackCandidates(gens, env), env.affinity.value, env.now, under);
      BatchesAreEligible(c, gens, env, env.affinity.value, under);
      PackedAfterMarks(gens, batches, env, Tried(env, batches));
      forall i | 0 <= i < |gens| ensures PackStepOk(c, env, gens[i], after[i]) {}
    }
  }

  /** What releasing may do to one generation: verified, unheld, and through the gate or already journalled. */
  predicate ReleaseStepOk(c: Config, env: Env, high: bool, g: Gen, h: Gen) {
    h == g || (ReleaseCandidate(env, g) && env.verified(g) && h == g.(released := true)
               && (Gate(c, env.now, high, g) || env.journal == Some(g.id)))
  }

  ghost predicate ReleasedSoFar(c: Config, env: Env, high: bool, gens: seq<Gen>, now: seq<Gen>, cands: seq<Gen>) {
    && |now| == |gens|
    && forall i :: 0 <= i < |gens| ==>
         now[i] == gens[i] || (gens[i] in cands && Goes(c, env, high, gens[i]) && now[i] == gens[i].(released := true))
  }

  lemma {:induction false} ReleasedAfterMarks(c: Config, env: Env, high: bool, gens: seq<Gen>, cands: seq<Gen>, k: nat)
    requires UniqueIds(gens) && k <= |cands| && forall g :: g in cands ==> g in gens
    ensures var p := ReleasedAfter(c, env, high, gens, cands, k);
            p.n <= c.MaxReleases() && ReleasedSoFar(c, env, high, gens, p.gens, cands)
  {
    hide Gate;
    if k > 0 {
      ReleasedAfterMarks(c, env, high, gens, cands, k - 1);
      var p, g := ReleasedAfter(c, env, high, gens, cands, k - 1), cands[k - 1];
      var q := ReleaseOne(c, env, high, p, g);
      assert g in gens;
      forall i | 0 <= i < |gens| && q.gens[i] != p.gens[i]
        ensures gens[i] == g && Goes(c, env, high, g) && q.gens[i] == gens[i].(released := true)
      {
        assert p.gens[i].id == g.id && gens[i].id == g.id;
        var j :| 0 <= j < |gens| && gens[j] == g;
        assert i == j;
      }
    }
  }

  lemma {:induction false} ReleaseCandidatesPart(gens: seq<Gen>, env: Env)
    ensures multiset(ReleaseCandidates(gens, env)) <= multiset(gens)
    ensures forall g :: g in ReleaseCandidates(gens, env) <==> g in gens && ReleaseCandidate(env, g)
  {
    hide ReleaseCandidate, ByUpdate, Sort;
    var listed := Listed(gens);
    forall g ensures multiset(ReleaseCandidates(gens, env))[g] <= multiset(gens)[g] {
      FilterCount(listed, g => ReleaseCandidate(env, g), g);
    }
    forall g ensures g in listed <==> g in gens { assert g in multiset(listed) <==> g in multiset(gens); }
  }

  /** L1 goes only for a packed generation whose pack verifies, unheld, old enough or forced, and at most so many a tick. */
  lemma {:induction false} ReleaseTransition(c: Config, gens: seq<Gen>, env: Env, u: Usage)
    requires UniqueIds(gens)
    ensures var (after, r) := AfterRelease(c, gens, env, u);
            && |after| == |gens| && (r.Some? ==> r.value <= c.MaxReleases())
            && forall i :: 0 <= i < |gens| ==> ReleaseStepOk(c, env, HighPressure(c, env, u), gens[i], after[i])
  {
    hide ReleaseCandidate, HighPressure, Gate, ReleaseCandidates, ReleasedAfter;
    var high, recovered := HighPressure(c, env, u), AfterJournal(gens, env);
    forall i, j | 0 <= i < j < |gens| ensures recovered[i].id != recovered[j].id {
      assert recovered[i].id == gens[i].id && recovered[j].id == gens[j].id;
    }
    if env.recovers && env.listed {
      var cands := ReleaseCandidates(recovered, env);
      ReleaseCandidatesPart(recovered, env);
      ReleasedAfterMarks(c, env, high, recovered, cands, |cands|);
      var after := ReleasedAfter(c, env, high, recovered, cands, |cands|).gens;
      forall i | 0 <= i < |gens| ensures ReleaseStepOk(c, env, high, gens[i], after[i]) {
        if recovered[i] != gens[i] { RecoveredIsNoCandidate(env, gens[i], recovered[i]); }
      }
    }
  }

  lemma {:induction false} RecoveredIsNoCandidate(env: Env, g: Gen, h: Gen)
    requires h == g.(released := true)
    ensures !ReleaseCandidate(env, h)
  {}

  /** What one tick may do to a generation it does not evict: at most one pack mark, then at most one release. */
  predicate TickStepOk(c: Config, env: Env, g: Gen, h: Gen) {
    var packed := h.(released := g.released);
    PackStepOk(c, env, g, packed) && ReleaseStepOk(c, env, HighPressure(c, env, UsageFor(env)), packed, h)
  }

  lemma {:induction false} OneMoreUnique(gens: seq<Gen>, g: Gen)
    ensures UniqueIds(gens) && (forall x :: x in gens ==> x.id != g.id) ==> UniqueIds(gens + [g])
    ensures OneGenPerBuild(gens) && (forall x :: x in gens ==> KeyOf(x) != KeyOf(g)) ==> OneGenPerBuild(gens + [g])
  {
    hide KeyOf;
  }

  lemma {:induction false} FrontIsUnique(gens: seq<Gen>)
    requires gens != []
    ensures var front, last := gens[..|gens| - 1], gens[|gens| - 1];
            && (UniqueIds(gens) ==> UniqueIds(front) && forall x :: x in front ==> x.id != last.id)
            && (OneGenPerBuild(gens) ==> OneGenPerBuild(front) && forall x :: x in front ==> KeyOf(x) != KeyOf(last))
  {
    hide KeyOf;
  }

  lemma {:induction false} FilterKeeps(gens: seq<Gen>, p: Gen -> bool)
    ensures UniqueIds(gens) ==> UniqueIds(Filter(gens, p))
    ensures OneGenPerBuild(gens) ==> OneGenPerBuild(Filter(gens, p))
  {
    if gens != [] {
      var front := gens[..|gens| - 1];
      assert Filter(gens, p) == Filter(front, p) || Filter(gens, p) == Filter(front, p) + [gens[|gens| - 1]];
      hide KeyOf, UniqueIds, OneGenPerBuild, Filter;
      FrontIsUnique(gens);
      FilterKeeps(front, p);
      OneMoreUnique(Filter(front, p), gens[|gens| - 1]);
    } else {
      assert Filter(gens, p) == [];
    }
  }

  lemma {:induction false} PackKeepsRow(c: Config, env: Env, g: Gen, h: Gen)
    requires PackStepOk(c, env, g, h)
    ensures SameRow(g, h)
  {}

  lemma {:induction false} StepsCompose(c: Config, env: Env, g: Gen, mid: Gen, h: Gen)
    requires PackStepOk(c, env, g, mid) && ReleaseStepOk(c, env, HighPressure(c, env, UsageFor(env)), mid, h)
    ensures TickStepOk(c, env, g, h) && SameRow(mid, h)
  {
    hide HighPressure, Gate, UnderHeadroom, Aged;
    assert mid.released == g.released;
  }

  lemma {:induction false} TickTransition(c: Config, gens: seq<Gen>, env: Env)
    requires UniqueIds(gens) && OneGenPerBuild(gens)
    ensures var before, after := Evicted(c, gens, env), AfterTick(c, gens, env);
            && |after| == |before| && UniqueIds(after) && OneGenPerBuild(after)
            && forall i :: 0 <= i < |after| ==> TickStepOk(c, env, before[i], after[i])
  {
    hide PackCandidate, ReleaseCandidate, HighPressure, Gate, AfterCompact, AfterRelease, UnderHeadroom, Aged, UniqueIds,
         OneGenPerBuild, KeyOf, Filter;
    var before := Evicted(c, gens, env);
    FilterKeeps(gens, (g: Gen) => g.id !in env.evicted);
    CompactTransition(c, before, env);
    var packed := Compacted(c, before, env).0;
    forall i | 0 <= i < |before| ensures SameRow(before[i], packed[i]) {
      assert PackStepOk(c, env, before[i], packed[i]);
      PackKeepsRow(c, env, before[i], packed[i]);
    }
    SameRowsKeep(before, packed);
    ReleaseTransition(c, packed, env, UsageFor(env));
    var after := AfterTick(c, gens, env);
    if c.enableEviction && !env.evicts {
      forall i | 0 <= i < |after| ensures TickStepOk(c, env, before[i], after[i]) {
        StepsCompose(c, env, before[i], before[i], after[i]);
      }
      return;
    }
    forall i | 0 <= i < |after| ensures TickStepOk(c, env, before[i], after[i]) && SameRow(packed[i], after[i]) {
      assert ReleaseStepOk(c, env, HighPressure(c, env, UsageFor(env)), packed[i], after[i]);
      assert PackStepOk(c, env, before[i], packed[i]);
      StepsCompose(c, env, before[i], packed[i], after[i]);
    }
    SameRowsKeep(packed, after);
  }

  /** What holds in every reachable state: a released generation is sealed and in a pack. */
  ghost predicate Sound(gens: seq<Gen>) {
    UniqueIds(gens) && OneGenPerBuild(gens) && forall g :: g in gens && g.released ==> g.sealed && g.packID != []
  }

  lemma {:induction false} TickSound(c: Config, gens: seq<Gen>, env: Env)
    requires Sound(gens)
    ensures Sound(AfterTick(c, gens, env))
  {
    hide UniqueIds, OneGenPerBuild, AfterTick, HighPressure, Gate, UnderHeadroom, Aged;
    TickTransition(c, gens, env);
    var before, after := Evicted(c, gens, env), AfterTick(c, gens, env);
    forall h | h in after && h.released ensures h.sealed && h.packID != [] {
      var i :| 0 <= i < |after| && after[i] == h;
      assert TickStepOk(c, env, before[i], h) && before[i] in gens;
    }
  }

  lemma {:induction false} RunSound(c: Config, gens: seq<Gen>, envs: seq<Env>)
    requires Sound(gens)
    ensures Sound(Run(c, gens, envs))
    decreases |envs|
  {
    hide Sound, AfterTick;
    if envs != [] {
      TickSound(c, gens, envs[0]);
      RunSound(c, AfterTick(c, gens, envs[0]), envs[1..]);
    }
  }

  /** A generation that is pinned or leased in every tick, and never evicted, comes through any run untouched. */
  lemma {:induction false} HeldIsUntouched(c: Config, gens: seq<Gen>, envs: seq<Env>, g: Gen)
    requires UniqueIds(gens) && OneGenPerBuild(gens) && g in gens
    requires forall k :: 0 <= k < |envs| ==> g.id !in envs[k].evicted && (g.id in envs[k].pinned || g.id in envs[k].leased)
    ensures g in Run(c, gens, envs)
    decreases |envs|
  {
    hide UniqueIds, OneGenPerBuild, AfterTick, HighPressure, Gate, UnderHeadroom, Aged;
    if envs != [] {
      TickTransition(c, gens, envs[0]);
      var before, after := Evicted(c, gens, envs[0]), AfterTick(c, gens, envs[0]);
      assert g in before;
      var i :| 0 <= i < |before| && before[i] == g;
      assert TickStepOk(c, envs[0], g, after[i]);
      HeldIsUntouched(c, after, envs[1..], g);
    }
  }

  /** Once packed, a generation keeps its pack through any run, for as long as it is not evicted. */
  lemma {:induction false} PackIsForGood(c: Config, gens: seq<Gen>, envs: seq<Env>, g: Gen)
    requires UniqueIds(gens) && OneGenPerBuild(gens) && g in gens && g.packID != []
    requires forall k :: 0 <= k < |envs| ==> g.id !in envs[k].evicted
    ensures exists h :: h in Run(c, gens, envs) && h.id == g.id && h.packID == g.packID && (g.released ==> h.released)
    decreases |envs|
  {
    hide UniqueIds, OneGenPerBuild, AfterTick, HighPressure, Gate, UnderHeadroom, Aged;
    if envs != [] {
      TickTransition(c, gens, envs[0]);
      var before, after := Evicted(c, gens, envs[0]), AfterTick(c, gens, envs[0]);
      assert g in before;
      var i :| 0 <= i < |before| && before[i] == g;
      assert TickStepOk(c, envs[0], g, after[i]);
      PackIsForGood(c, after, envs[1..], after[i]);
    } else {
      assert g in Run(c, gens, envs);
    }
  }

  /**
   * Why one generation per build is needed: a pack call marks a member of its batch exactly when that
   * member is the latest generation of its build.
   */
  lemma {:induction false} MarksLatestOnly(gens: seq<Gen>, batch: seq<Gen>, g: Gen)
    requires UniqueIds(gens) && g in batch && forall b :: b in batch ==> b in gens
    ensures g.id in MarkedIds(gens, batch, |batch|) <==> Latest(gens, KeyOf(g)) == Some(g)
  {
    if g.id in MarkedIds(gens, batch, |batch|) {
      var k :| 0 <= k < |batch| && Latest(gens, KeyOf(batch[k])).Some? && Latest(gens, KeyOf(batch[k])).value.id == g.id;
      LatestHasKey(gens, KeyOf(batch[k]));
    }
    if Latest(gens, KeyOf(g)) == Some(g) {
      var k :| 0 <= k < |batch| && batch[k] == g;
      assert Latest(gens, KeyOf(batch[k])).value.id in MarkedIds(gens, batch, |batch|);
    }
  }

  lemma {:induction false} LatestHasKey(gens: seq<Gen>, key: LogKey)
    ensures Latest(gens, key).Some? ==> Latest(gens, key).value in gens && KeyOf(Latest(gens, key).value) == key
  {
    if gens != [] { LatestHasKey(gens[..|gens| - 1], key); }
  }

  /** g is what one of the first n members of a batch stands for: the latest generation of its build. */
  predicate IsTaken(gens: seq<Gen>, batch: seq<Gen>, n: nat, g: Gen) {
    exists k :: 0 <= k < |batch| && k < n && Latest(gens, KeyOf(batch[k])) == Some(g)
  }

  /**
   * What a pack call does to each row: it is marked exactly when the call is not refused and the row is the latest
   * generation of the build of one of the members it gets to mark; every other row stays as it is.
   */
  lemma {:induction false} PackCallMarks(p: Packing, batch: seq<Gen>, step: PackStep, now: int, i: nat)
    requires UniqueIds(p.gens) && i < |p.gens|
    ensures PackOne(p, batch, step, now).gens[i]
         == if Packable(p.gens, batch) && step.PackPublishes? && IsTaken(p.gens, batch, step.marked, p.gens[i])
            then MarkPacked(p.gens[i], step.packID, now) else p.gens[i]
  {
    hide Packable, KeyOf;
    if Packable(p.gens, batch) && step.PackPublishes? {
      var ids := MarkedIds(p.gens, batch, step.marked);
      if p.gens[i].id in ids {
        var k :| 0 <= k < |batch| && k < step.marked && Latest(p.gens, KeyOf(batch[k])).Some?
                 && Latest(p.gens, KeyOf(batch[k])).value.id == p.gens[i].id;
        LatestHasKey(p.gens, KeyOf(batch[k]));
      }
      if IsTaken(p.gens, batch, step.marked, p.gens[i]) {
        var k :| 0 <= k < |batch| && k < step.marked && Latest(p.gens, KeyOf(batch[k])) == Some(p.gens[i]);
        assert Latest(p.gens, KeyOf(batch[k])).value.id in ids;
      }
    }
  }

  /** A batch that holds two generations of one build is refused, whatever the table and the pack call would do. */
  lemma {:induction false} TwoGenerationsAreRefused(p: Packing, batch: seq<Gen>, i: nat, j: nat, step: PackStep, now: int)
    requires i < j < |batch| && KeyOf(batch[i]) == KeyOf(batch[j])
    ensures PackOne(p, batch, step, now) == p
  {
    hide KeyOf, Latest;
    var taken := Resolved(p.gens, batch);
    assert taken[i] == taken[j];
    assert !Packable(p.gens, batch);
  }

  // ---- When L1 may go, in plain terms -----------------------------------------------------------------------

  /** Something that lets the L1 copy of g go now: the configuration, a full disk, the quota manager, or its age. */
  predicate MayLoseL1(c: Config, env: Env, u: Usage, g: Gen) {
    var free := u.quota - u.used;
    var frac := if c.releasePressureFrac <= 0.0 then 0.10 else if c.releasePressureFrac > 1.0 then 1.0 else c.releasePressureFrac;
    var minAge := if c.releaseMinAge > 0 then c.releaseMinAge else 3600 * 1000000000;
    || c.releaseAfterPack
    || (u.quota > 0 && (free <= 0 || free as real / u.quota as real <= frac))
    || env.needsEviction
    || (match g.packedAt
        case Some(t) => env.now - t >= minAge
        case None => g.updatedAt.None? || env.now - g.updatedAt.value >= minAge)
  }

  /** Sealed, in a pack, with its L1 copy, and neither pinned nor leased. */
  predicate HasL1InPack(env: Env, g: Gen) {
    g.sealed && !g.released && g.packID != [] && g.id !in env.pinned && g.id !in env.leased
  }

  /** A generation that is not journalled loses its L1 copy only then, and only while its pack verifies. */
  lemma {:induction false} ReleasedOnlyWhen(c: Config, gens: seq<Gen>, env: Env, u: Usage, i: nat)
    requires UniqueIds(gens) && i < |gens| && env.journal != Some(gens[i].id)
    ensures var after := AfterRelease(c, gens, env, u).0;
            && |after| == |gens|
            && (after[i] == gens[i]
                || (after[i] == gens[i].(released := true) && HasL1InPack(env, gens[i]) && env.verified(gens[i])
                    && MayLoseL1(c, env, u, gens[i])))
  {
    ReleaseTransition(c, gens, env, u);
    hide AfterRelease;
  }

  /** So in a whole tick, with the usage it sees then, and the times a pack of the same tick has set. */
  lemma {:induction false} TickReleasesOnlyWhen(c: Config, gens: seq<Gen>, env: Env, i: nat)
    requires UniqueIds(gens) && OneGenPerBuild(gens) && i < |AfterTick(c, gens, env)| == |Evicted(c, gens, env)|
    requires var g, h := Evicted(c, gens, env)[i], AfterTick(c, gens, env)[i];
             !g.released && h.released && env.journal != Some(g.id)
    ensures var g, h := Evicted(c, gens, env)[i], AfterTick(c, gens, env)[i];
            var u := if env.usageAfter.Some? then env.usageAfter.value else if env.usage.Some? then env.usage.value else Usage(0, 0);
            && g.id !in env.pinned && g.id !in env.leased && g.sealed && h.packID != []
            && env.verified(h.(released := false)) && MayLoseL1(c, env, u, h.(released := false))
  {
    TickTransition(c, gens, env);
    var g, h := Evicted(c, gens, env)[i], AfterTick(c, gens, env)[i];
    assert TickStepOk(c, env, g, h);
    hide AfterTick, Evicted, UniqueIds, OneGenPerBuild;
    StepReleasesOnlyWhen(c, env, g, h);
  }

  lemma {:induction false} StepReleasesOnlyWhen(c: Config, env: Env, g: Gen, h: Gen)
    requires TickStepOk(c, env, g, h) && !g.released && h.released && env.journal != Some(g.id)
    ensures var u := if env.usageAfter.Some? then env.usageAfter.value else if env.usage.Some? then env.usage.value else Usage(0, 0);
            && g.id !in env.pinned && g.id !in env.leased && g.sealed && h.packID != []
            && env.verified(h.(released := false)) && MayLoseL1(c, env, u, h.(released := false))
  {
    hide UnderHeadroom, Aged;
  }

  /** Below the cap, all candidates that can go have gone. */
  lemma {:induction false} GoesAreReleased(c: Config, env: Env, high: bool, gens: seq<Gen>, cands: seq<Gen>, k: nat)
    requires UniqueIds(gens) && k <= |cands| && forall g :: g in cands ==> g in gens && !env.releases(g).ReleaseCancelled?
    ensures var p := ReleasedAfter(c, env, high, gens, cands, k);
            && !p.cancelled && |p.gens| == |gens| && (forall i :: 0 <= i < |gens| ==> p.gens[i].id == gens[i].id)
            && (p.n < c.MaxReleases() ==>
                  forall i :: 0 <= i < |gens| && gens[i] in cands[..k] && Goes(c, env, high, gens[i]) ==> p.gens[i].released)
  {
    hide Gate;
    if k > 0 {
      GoesAreReleased(c, env, high, gens, cands, k - 1);
      var g := cands[k - 1];
      assert g in cands && cands[..k] == cands[..k - 1] + [g];
    }
  }

  /** And it does lose it: every unheld candidate that may go, and whose pack verifies, when the cap is not reached. */
  lemma {:induction false} ReleasedWhen(c: Config, gens: seq<Gen>, env: Env, u: Usage, i: nat)
    requires UniqueIds(gens) && i < |gens| && env.journal != Some(gens[i].id) && env.recovers && env.listed
    requires forall g :: !env.releases(g).ReleaseCancelled?
    requires HasL1InPack(env, gens[i]) && MayLoseL1(c, env, u, gens[i])
    requires env.verified(gens[i]) && env.releases(gens[i]).ReleaseGoes?
    ensures var (after, n) := AfterRelease(c, gens, env, u);
            n.Some? && |after| == |gens|
            && (n.value < (if c.maxReleasesPerTick > 0 then c.maxReleasesPerTick else 8) ==> after[i].released)
  {
    hide MayLoseL1, HighPressure, Gate, ReleaseCandidates, ReleasedAfter;
    var recovered, high := AfterJournal(gens, env), HighPressure(c, env, u);
    var cands := ReleaseCandidates(recovered, env);
    assert recovered[i] == gens[i] && recovered[i] in recovered;
    JournalKeepsIds(gens, env);
    ReleaseCandidatesPart(recovered, env);
    GoesAreReleased(c, env, high, recovered, cands, |cands|);
    MayGoesThrough(c, env, u, gens[i]);
    assert cands[..|cands|] == cands;
  }

  lemma {:induction false} MayGoesThrough(c: Config, env: Env, u: Usage, g: Gen)
    ensures MayLoseL1(c, env, u, g) <==> Gate(c, env.now, HighPressure(c, env, u), g)
  {}

  lemma {:induction false} JournalKeepsIds(gens: seq<Gen>, env: Env)
    requires UniqueIds(gens)
    ensures UniqueIds(AfterJournal(gens, env))
  {
    var recovered := AfterJournal(gens, env);
    forall i, j | 0 <= i < j < |gens| ensures recovered[i].id != recovered[j].id {
      assert recovered[i].id == gens[i].id && recovered[j].id == gens[j].id;
    }
  }
}
