/**
 * The conditions and outcomes of a maintenance tick written out over all inputs (internal/app/maintenance.go): settings
 * and their defaults, which generations are candidates, how a compaction ends, and exactly what a release pass releases.
 */
module MaintenanceTerms {
  import opened Prelude
  import opened Sorting
  import opened Generations
  import opened PackSelection
  import opened Maintenance
  import opened MaintenanceRuns

  // ---- Settings ---------------------------------------------------------------------------------------------

  /** A setting that is not positive stands for its default; durations are in nanoseconds. */
  lemma {:induction false} SettingsMean(c: Config)
    ensures c.MaxPacks() == if c.maxPacksPerTick <= 0 then 2 else c.maxPacksPerTick
    ensures c.MaxMembers() == if c.maxMembersPerPack <= 0 then 8 else c.maxMembersPerPack
    ensures c.MinMembers() == if c.minSealedMembers <= 0 then 2 else c.minSealedMembers
    ensures c.MaxReleases() == if c.maxReleasesPerTick <= 0 then 8 else c.maxReleasesPerTick
    ensures c.ForceAfter() == if c.forcePackAfter <= 0 then 86400000000000 else c.forcePackAfter
    ensures c.MinAge() == if c.releaseMinAge <= 0 then 3600000000000 else c.releaseMinAge
    ensures 0.0 < c.headroomFrac <= 1.0 ==> c.Headroom() == c.headroomFrac
    ensures c.headroomFrac <= 0.0 ==> c.Headroom() == 0.25
    ensures c.headroomFrac > 1.0 ==> c.Headroom() == 1.0
    ensures 0.0 < c.releasePressureFrac <= 1.0 ==> c.Pressure() == c.releasePressureFrac
    ensures c.releasePressureFrac <= 0.0 ==> c.Pressure() == 0.1
    ensures c.releasePressureFrac > 1.0 ==> c.Pressure() == 1.0
  {}

  // ---- Candidates -------------------------------------------------------------------------------------------

  /** The first was not updated after the second; rows without a time come first, and rows of one time by id. */
  predicate NotLater(a: Gen, b: Gen) {
    match (a.updatedAt, b.updatedAt)
    case (None, None) => a.id <= b.id
    case (None, Some(_)) => true
    case (Some(_), None) => false
    case (Some(s), Some(t)) => s < t || (s == t && a.id <= b.id)
  }

  lemma {:induction false} ByUpdateIsTotal()
    ensures TotalPreorder(ByUpdate)
    ensures forall a, b :: ByUpdate(a, b) == NotLater(a, b)
  {}

  lemma {:induction false} FilterSorted<T(!new)>(s: seq<T>, p: T -> bool, leq: (T, T) -> bool)
    requires SortedBy(s, leq)
    ensures SortedBy(Filter(s, p), leq)
  {
    if s != [] {
      var front, last := s[..|s| - 1], s[|s| - 1];
      FilterSorted(front, p, leq);
      forall x | x in Filter(front, p) ensures leq(x, last) {
        var i :| 0 <= i < |front| && front[i] == x;
        assert leq(s[i], s[|s| - 1]);
      }
    }
  }

  lemma {:induction false} KeepsTimes(gens: seq<Gen>, p: Gen -> bool, g: Gen)
    ensures multiset(Filter(Listed(gens), p))[g] == if p(g) then multiset(gens)[g] else 0
    ensures SortedBy(Filter(Listed(gens), p), NotLater)
  {
    hide Filter, Sort, ByUpdate, NotLater;
    ByUpdateIsTotal();
    SortSorts(gens, ByUpdate);
    FilterCount(Listed(gens), p, g);
    FilterSorted(Listed(gens), p, ByUpdate);
    hide SortedBy;
    SameOrder(Filter(Listed(gens), p));
  }

  lemma {:induction false} SameOrder(s: seq<Gen>)
    requires SortedBy(s, ByUpdate)
    ensures SortedBy(s, NotLater)
  {
    hide ByUpdate, NotLater;
    ByUpdateIsTotal();
  }

  /** What may be packed: sealed, in no pack, neither pinned nor leased; each row once, by update time. */
  lemma {:induction false} PackCandidatesAre(gens: seq<Gen>, env: Env, g: Gen)
    ensures multiset(PackCandidates(gens, env))[g]
         == if g.sealed && g.packID == "" && !(g.id in env.pinned || g.id in env.leased) then multiset(gens)[g] else 0
    ensures SortedBy(PackCandidates(gens, env), NotLater)
  {
    hide Filter, Sort, NotLater, SortedBy;
    KeepsTimes(gens, h => PackCandidate(env, h), g);
  }

  /** What may be released: sealed, in a pack, not released yet, neither pinned nor leased; each row once, by update time. */
  lemma {:induction false} ReleaseCandidatesAre(gens: seq<Gen>, env: Env, g: Gen)
    ensures multiset(ReleaseCandidates(gens, env))[g]
         == if g.sealed && g.packID != "" && !g.released && !(g.id in env.pinned || g.id in env.leased) then multiset(gens)[g] else 0
    ensures SortedBy(ReleaseCandidates(gens, env), NotLater)
  {
    hide Filter, Sort, NotLater, SortedBy;
    KeepsTimes(gens, h => ReleaseCandidate(env, h), g);
  }

  // ---- How a compaction ends --------------------------------------------------------------------------------

  /** More of the quota is free than the share that compaction waits for: a quarter by default. */
  predicate HasRoom(c: Config, u: Usage) {
    var share := if c.headroomFrac <= 0.0 then 0.25 else if c.headroomFrac > 1.0 then 1.0 else c.headroomFrac;
    u.quota > u.used && share * u.quota as real < (u.quota - u.used) as real
  }

  /** Due for packing by age alone: after a day by default, and always without an update time. */
  predicate OldEnough(c: Config, now: int, g: Gen) {
    match g.updatedAt
    case None => true
    case Some(t) => now >= t + if c.forcePackAfter > 0 then c.forcePackAfter else 86400 * 1000000000
  }

  lemma {:induction false} RoomAndAge(c: Config, u: Usage, now: int, g: Gen)
    ensures UnderHeadroom(c, u) <==> HasRoom(c, u)
    ensures Aged(c, now, g) <==> OldEnough(c, now, g)
  {}

  /** Something to choose batches from. */
  predicate Work(c: Config, gens: seq<Gen>, env: Env) {
    env.usage.Some? && env.listed &&
    exists g :: g in gens && g.sealed && g.packID == "" && g.id !in env.pinned && g.id !in env.leased
                && (HasRoom(c, env.usage.value) ==> OldEnough(c, env.now, g))
  }

  lemma {:induction false} WorkIff(c: Config, gens: seq<Gen>, env: Env)
    requires env.usage.Some? && env.listed
    ensures var cands, under := PackCandidates(gens, env), UnderHeadroom(c, env.usage.value);
            !Work(c, gens, env) <==> cands == [] || (under && Forced(c, cands, env.now) == [])
    ensures (exists g :: g in PackCandidates(gens, env) && OldEnough(c, env.now, g)) <==> Forced(c, PackCandidates(gens, env), env.now) != []
  {
    hide Filter, UnderHeadroom, Aged, PackCandidates, HasRoom, OldEnough;
    var u, cands := env.usage.value, PackCandidates(gens, env);
    PackCandidatesPart(gens, env);
    forall g ensures Aged(c, env.now, g) <==> OldEnough(c, env.now, g) { RoomAndAge(c, u, env.now, g); }
    forall g ensures g in cands <==> g in gens && PackCandidate(env, g) { assert g in multiset(cands) <==> g in multiset(gens) && PackCandidate(env, g) by { PackCandidatesAre(gens, env, g); } }
    var forced := Forced(c, cands, env.now);
    if forced != [] { assert forced[0] in forced; }
    if cands != [] { assert cands[0] in cands; }
    if g: Gen :| g in cands { RoomAndAge(c, u, env.now, g); }
  }

  /** The k-th pack call publishes: it does not fail, and its batch can be packed as the rows are by then. */
  predicate Publishes(gens: seq<Gen>, batches: seq<seq<Gen>>, env: Env, k: nat)
    requires k < |batches|
  {
    env.packs(k).PackPublishes? && Packable(PackedAfter(gens, batches, env, k).gens, batches[k])
  }

  /** The batches of the first n calls that publish. */
  function Published(gens: seq<Gen>, batches: seq<seq<Gen>>, env: Env, n: nat): seq<seq<Gen>>
    requires n <= |batches|
  {
    if n == 0 then []
    else Published(gens, batches, env, n - 1) + if Publishes(gens, batches, env, n - 1) then [batches[n - 1]] else []
  }

  /** The counts of a compaction are those of the packs it published and of the members in them. */
  lemma {:induction false} CountsArePublished(gens: seq<Gen>, batches: seq<seq<Gen>>, env: Env, n: nat)
    requires n <= |batches|
    ensures var p := PackedAfter(gens, batches, env, n);
            p.packs == |Published(gens, batches, env, n)| && p.members == |Flatten(Published(gens, batches, env, n))|
  {
    hide Packable, MarkAll, MarkedIds, Flatten;
    if n == 0 {
      FlattenNothing<Gen>();
    } else {
      CountsArePublished(gens, batches, env, n - 1);
      var before := Published(gens, batches, env, n - 1);
      FlattenSnoc(before, batches[n - 1]);
      assert before + [] == before;
    }
  }

  /** What GetLatestGeneration finds: a row of the build that no other row of the build exceeds in generation. */
  lemma {:induction false} LatestIff(gens: seq<Gen>, key: LogKey)
    ensures Latest(gens, key).None? <==> forall g :: g in gens ==> KeyOf(g) != key
    ensures Latest(gens, key).Some? ==>
              exists i :: 0 <= i < |gens| && Latest(gens, key) == Some(gens[i]) && KeyOf(gens[i]) == key
                && forall j :: 0 <= j < |gens| && KeyOf(gens[j]) == key ==>
                     gens[j].generation < gens[i].generation || (gens[j].generation == gens[i].generation && i <= j)
  {
    hide KeyOf;
    if gens != [] {
      var front, last := gens[..|gens| - 1], gens[|gens| - 1];
      LatestIff(front, key);
      assert gens == front + [last];
      if Latest(front, key).Some? {
        var i :| 0 <= i < |front| && Latest(front, key) == Some(front[i]) && KeyOf(front[i]) == key
                 && forall j :: 0 <= j < |front| && KeyOf(front[j]) == key ==>
                      front[j].generation < front[i].generation || (front[j].generation == front[i].generation && i <= j);
        assert gens[i] == front[i];
        if KeyOf(last) == key && front[i].generation < last.generation {
          assert Latest(gens, key) == Some(gens[|gens| - 1]);
        } else {
          assert Latest(gens, key) == Some(gens[i]);
        }
      } else if KeyOf(last) == key {
        assert Latest(gens, key) == Some(gens[|gens| - 1]);
      }
    }
  }

  predicate Apart(a: Option<Gen>, b: Option<Gen>) { a.Some? && b.Some? ==> a.value.id != b.value.id }

  /** Which batches can be packed: one profile, and of every member's build a sealed latest row, no row twice. */
  lemma {:induction false} PackableMeans(gens: seq<Gen>, batch: seq<Gen>)
    ensures Packable(gens, batch) <==> (
      && |batch| > 0
      && (forall a, b :: a in batch && b in batch ==> a.profile == b.profile)
      && (forall a :: a in batch ==> exists row :: Latest(gens, KeyOf(a)) == Some(row) && row.sealed)
      && (forall i, j :: 0 <= i < j < |batch| ==> Apart(Latest(gens, KeyOf(batch[i])), Latest(gens, KeyOf(batch[j])))))
  {
    hide Latest, KeyOf, Packable, AllSealed, Distinct;
    PackableIff(gens, batch);
    if batch != [] { OneProfileIff(batch); }
    AllSealedIff(gens, batch);
    if AllSealed(gens, batch) { DistinctIff(gens, batch); }
  }

  lemma {:induction false} OneProfileIff(batch: seq<Gen>)
    requires batch != []
    ensures (forall i :: 0 <= i < |batch| ==> batch[i].profile == batch[0].profile)
            <==> forall a, b :: a in batch && b in batch ==> a.profile == b.profile
  {}

  lemma {:induction false} AllSealedIff(gens: seq<Gen>, batch: seq<Gen>)
    ensures AllSealed(gens, batch) <==> forall a :: a in batch ==> exists row :: Latest(gens, KeyOf(a)) == Some(row) && row.sealed
  {
    hide Latest, KeyOf;
    if AllSealed(gens, batch) {
      forall a | a in batch ensures exists row :: Latest(gens, KeyOf(a)) == Some(row) && row.sealed {
        assert Latest(gens, KeyOf(a)) == Some(Latest(gens, KeyOf(a)).value);
      }
    }
  }

  lemma {:induction false} DistinctIff(gens: seq<Gen>, batch: seq<Gen>)
    requires AllSealed(gens, batch)
    ensures Distinct(TakenIds(gens, batch)) <==>
            forall i, j :: 0 <= i < j < |batch| ==> Apart(Latest(gens, KeyOf(batch[i])), Latest(gens, KeyOf(batch[j])))
  {
    hide Latest, KeyOf;
    var ids := TakenIds(gens, batch);
    assert forall i :: 0 <= i < |batch| ==> ids[i] == Latest(gens, KeyOf(batch[i])).value.id;
    if !Distinct(ids) {
      var i, j :| 0 <= i < j < |ids| && ids[i] == ids[j];
      var row, other := Latest(gens, KeyOf(batch[i])).value, Latest(gens, KeyOf(batch[j])).value;
      assert !Apart(Some(row), Some(other));
    }
  }

  /** No batch is found: there is room, or nothing has the age; or no affinity has enough members. */
  predicate TooFew(c: Config, env: Env, gens: seq<Gen>, k: string)
    requires env.affinity.Some?
  {
    |WithKey(PackCandidates(gens, env), env.affinity.value, k)| < Min(c.MinMembers(), c.MaxMembers())
  }

  lemma {:induction false} NoBatchesIff(c: Config, gens: seq<Gen>, env: Env)
    requires env.usage.Some? && env.listed && Work(c, gens, env) && env.affinity.Some?
    ensures var under := UnderHeadroom(c, env.usage.value);
            var batches := Batches(c, PackCandidates(gens, env), env.affinity.value, env.now, under);
            && (batches == [] ==> !under && Forced(c, PackCandidates(gens, env), env.now) == [] && forall k :: TooFew(c, env, gens, k))
            && (batches != [] ==> under || Forced(c, PackCandidates(gens, env), env.now) != [] || exists k :: !TooFew(c, env, gens, k))
  {
    hide Select, UnderHeadroom, Aged, Filter, PackCandidates, Work, Sort, Flatten;
    WorkIff(c, gens, env);
    var under, cands, keyOf := UnderHeadroom(c, env.usage.value), PackCandidates(gens, env), env.affinity.value;
    var forced, rest := Forced(c, cands, env.now), Unforced(c, cands, env.now);
    SelectShape(forced, keyOf, c.MaxMembers(), 1, c.MaxPacks());
    if forced == [] && !under {
      NoneForced(c, cands, env.now);
      var out := Select(cands, keyOf, c.MaxMembers(), c.MinMembers(), c.MaxPacks());
      NothingSelected(keyOf, c.MaxMembers(), 1, c.MaxPacks());
      assert Batches(c, cands, keyOf, env.now, under) == [] + out == out;
      SelectShape(cands, keyOf, c.MaxMembers(), c.MinMembers(), c.MaxPacks());
      if out == [] {
        forall k ensures TooFew(c, env, gens, k) {
          SelectLeavesLittle(cands, keyOf, c.MaxMembers(), c.MinMembers(), c.MaxPacks(), k);
          FlattenNothing<Gen>();
        }
      } else {
        EnoughOf(cands, keyOf, out);
        assert !TooFew(c, env, gens, keyOf(out[0][0])) by {
          SelectHomogeneousBatch(c, cands, keyOf, out[0]);
        }
      }
    }
  }

  lemma {:induction false} NothingSelected(keyOf: Gen -> string, maxMembers: int, minSize: int, maxBatches: int)
    ensures Select([], keyOf, maxMembers, minSize, maxBatches) == []
  {}

  lemma {:induction false} NoneForced(c: Config, cands: seq<Gen>, now: int)
    requires Forced(c, cands, now) == []
    ensures Unforced(c, cands, now) == cands
  {
    hide Aged;
    assert forall g :: g in Forced(c, cands, now) <==> g in cands && Aged(c, now, g);
    FilterAll(cands, g => !Aged(c, now, g));
  }

  lemma {:induction false} EnoughOf(cands: seq<Gen>, keyOf: Gen -> string, out: seq<seq<Gen>>)
    requires out != [] && forall b :: b in out ==> |b| > 0
    ensures out[0] in out && |out[0]| > 0
  {}

  lemma {:induction false} SelectHomogeneousBatch(c: Config, cands: seq<Gen>, keyOf: Gen -> string, b: seq<Gen>)
    requires b in Select(cands, keyOf, c.MaxMembers(), c.MinMembers(), c.MaxPacks()) && b != []
    ensures |WithKey(cands, keyOf, keyOf(b[0]))| >= Min(c.MinMembers(), c.MaxMembers())
  {
    hide Select, Filter, Flatten;
    var k, out := keyOf(b[0]), Select(cands, keyOf, c.MaxMembers(), c.MinMembers(), c.MaxPacks());
    SelectShape(cands, keyOf, c.MaxMembers(), c.MinMembers(), c.MaxPacks());
    PieceOfFlatten(out, b);
    var p := (g: Gen) => keyOf(g) == k;
    forall x ensures multiset(b)[x] <= multiset(WithKey(cands, keyOf, k))[x] {
      FilterCount(cands, p, x);
      if x in multiset(b) {
        SelectHomogeneous(cands, keyOf, c.MaxMembers(), c.MinMembers(), c.MaxPacks(), b, x, b[0]);
      }
    }
    SmallerMultiset(b, WithKey(cands, keyOf, k));
  }

  lemma {:induction false} SmallerMultiset<T>(a: seq<T>, b: seq<T>)
    requires forall x :: multiset(a)[x] <= multiset(b)[x]
    ensures |a| <= |b|
  {
    var A, B := multiset(a), multiset(b);
    assert A <= B;
    assert B == A + (B - A);
    assert |A| == |a| && |B| == |b|;
  }

  /** How a compaction ends, in every case. */
  lemma {:induction false} CompactOutcome(c: Config, gens: seq<Gen>, env: Env)
    ensures var (after, r) := AfterCompact(c, gens, env);
            && (env.usage.None? || !env.listed ==> (after, r) == (gens, None))
            && (env.usage.Some? && env.listed && !Work(c, gens, env) ==>
                  && after == gens
                  && r == Some(Compaction(0, 0, if HasRoom(c, env.usage.value) then "under_quota_headroom" else "no_candidates")))
            && (Work(c, gens, env) && env.affinity.None? ==> (after, r) == (gens, None))
            && (Work(c, gens, env) && env.affinity.Some? ==>
                  var room := HasRoom(c, env.usage.value);
                  var batches := Batches(c, PackCandidates(gens, env), env.affinity.value, env.now, room);
                  && (batches == [] ==> (after, r) == (gens, Some(Compaction(0, 0, "below_min_members"))))
                  && (batches != [] ==>
                        match env.cancelledAt
                        case Some(k) =>
                          k < |batches| ==> (after, r) == (PackedAfter(gens, batches, env, k).gens, None)
                        case None => true)
                  && (batches != [] && (env.cancelledAt.Some? ==> env.cancelledAt.value >= |batches|) ==>
                        var made := Published(gens, batches, env, |batches|);
                        && after == PackedAfter(gens, batches, env, |batches|).gens
                        && r == Some(Compaction(|made|, |Flatten(made)|,
                                                if made != [] then "" else if room then "under_quota_headroom" else "pack_errors"))))
  {
    hide PackCandidates, Batches, UnderHeadroom, HasRoom, Forced, Work, PackedAfter, Published, Flatten;
    WorkNeeds(c, gens, env);
    if env.usage.Some? && env.listed {
      UnderIsRoom(c, env.usage.value);
      WorkIff(c, gens, env);
      if Work(c, gens, env) && env.affinity.Some? {
        NoBatchesIff(c, gens, env);
        var batches := Batches(c, PackCandidates(gens, env), env.affinity.value, env.now, HasRoom(c, env.usage.value));
        CountsArePublished(gens, batches, env, |batches|);
      }
    }
  }

  lemma {:induction false} WorkNeeds(c: Config, gens: seq<Gen>, env: Env)
    ensures Work(c, gens, env) ==> env.usage.Some? && env.listed
  {}

  lemma {:induction false} UnderIsRoom(c: Config, u: Usage)
    ensures UnderHeadroom(c, u) <==> HasRoom(c, u)
  {}

  // ---- What a release pass releases ---------------------------------------------------------------------------

  /** Its L1 copy may go, its pack verifies, and the release goes through. */
  predicate CanGo(c: Config, env: Env, u: Usage, g: Gen) {
    MayLoseL1(c, env, u, g) && env.verified(g) && env.releases(g).ReleaseGoes?
  }

  function Going(c: Config, env: Env, u: Usage, cands: seq<Gen>): seq<Gen> { Filter(cands, g => CanGo(c, env, u, g)) }

  function ReleaseCap(c: Config): nat { if c.maxReleasesPerTick > 0 then c.maxReleasesPerTick else 8 }

  /** The pass reaches candidate k below the cap and its release is cancelled. */
  predicate StopsAt(c: Config, env: Env, u: Usage, cands: seq<Gen>, k: nat)
    requires k < |cands|
  {
    && MayLoseL1(c, env, u, cands[k]) && env.verified(cands[k]) && env.releases(cands[k]).ReleaseCancelled?
    && |Going(c, env, u, cands[..k])| < ReleaseCap(c)
  }

  predicate Stops(c: Config, env: Env, u: Usage, cands: seq<Gen>, n: nat)
    requires n <= |cands|
  {
    exists k :: 0 <= k < n && StopsAt(c, env, u, cands, k)
  }

  function FirstFew(s: seq<Gen>, n: nat): seq<Gen> { if n <= |s| then s[..n] else s }

  lemma {:induction false} GoingSteps(c: Config, env: Env, u: Usage, cands: seq<Gen>, k: nat)
    requires k < |cands|
    ensures Going(c, env, u, cands[..k + 1]) == Going(c, env, u, cands[..k]) + if CanGo(c, env, u, cands[k]) then [cands[k]] else []
    ensures Stops(c, env, u, cands, k + 1) <==> Stops(c, env, u, cands, k) || StopsAt(c, env, u, cands, k)
  {
    hide CanGo, StopsAt;
    FilterTake(cands, g => CanGo(c, env, u, g), k);
  }

  ghost predicate ReleasedAre(gens: seq<Gen>, now: seq<Gen>, taken: seq<Gen>) {
    && |now| == |gens|
    && forall i :: 0 <= i < |gens| ==> now[i] == if gens[i] in taken then gens[i].(released := true) else gens[i]
  }

  lemma {:induction false} OneMoreReleased(gens: seq<Gen>, now: seq<Gen>, taken: seq<Gen>, g: Gen)
    requires UniqueIds(gens) && g in gens && ReleasedAre(gens, now, taken)
    ensures ReleasedAre(gens, MarkReleased(now, g.id), taken + [g])
  {
    var after := MarkReleased(now, g.id);
    var k :| 0 <= k < |gens| && gens[k] == g;
    forall i | 0 <= i < |gens| ensures after[i] == if gens[i] in taken + [g] then gens[i].(released := true) else gens[i] {
      assert now[i].id == gens[i].id;
      assert gens[i].id == g.id <==> i == k;
    }
  }

  lemma {:induction false} PassSoFar(c: Config, env: Env, u: Usage, gens: seq<Gen>, cands: seq<Gen>, k: nat)
    requires UniqueIds(gens) && k <= |cands| && forall g :: g in cands ==> g in gens
    ensures var p := ReleasedAfter(c, env, HighPressure(c, env, u), gens, cands, k);
            && (p.cancelled <==> Stops(c, env, u, cands, k))
            && (!p.cancelled ==> var going := Going(c, env, u, cands[..k]);
                                 && p.n == |FirstFew(going, ReleaseCap(c))|
                                 && ReleasedAre(gens, p.gens, FirstFew(going, ReleaseCap(c))))
  {
    var high := HighPressure(c, env, u);
    hide HighPressure, Gate, MayLoseL1, UniqueIds, ReleasedAre, MarkReleased, Filter;
    if k == 0 {
      NoneReleased(gens);
      assert Going(c, env, u, cands[..0]) == [];
    } else {
      PassSoFar(c, env, u, gens, cands, k - 1);
      GoingSteps(c, env, u, cands, k - 1);
      var p, g := ReleasedAfter(c, env, high, gens, cands, k - 1), cands[k - 1];
      MayGoesThrough(c, env, u, g);
      assert g in cands;
      var going := Going(c, env, u, cands[..k - 1]);
      if !p.cancelled && p.n < ReleaseCap(c) && CanGo(c, env, u, g) {
        OneMoreReleased(gens, p.gens, going, g);
        assert FirstFew(going + [g], ReleaseCap(c)) == going + [g];
      } else if !p.cancelled && p.n >= ReleaseCap(c) {
        assert FirstFew(going + [g], ReleaseCap(c)) == FirstFew(going, ReleaseCap(c));
      }
      assert going + [] == going;
    }
  }

  lemma {:induction false} NoneReleased(gens: seq<Gen>)
    ensures ReleasedAre(gens, gens, [])
  {}

  /**
   * What one release pass does, exactly: after finishing a journalled release it releases, of the candidates that can go,
   * the first ones up to the cap, and says how many; unless one of those releases before the cap is cancelled.
   */
  lemma {:induction false} ReleasePassExactly(c: Config, gens: seq<Gen>, env: Env, u: Usage)
    requires UniqueIds(gens)
    ensures var (after, r) := AfterRelease(c, gens, env, u);
            var recovered := AfterJournal(gens, env);
            var cands := ReleaseCandidates(recovered, env);
            && (r.None? <==> !env.recovers || !env.listed || Stops(c, env, u, cands, |cands|))
            && (!env.recovers || !env.listed ==> after == recovered)
            && (r.Some? ==> var taken := FirstFew(Going(c, env, u, cands), ReleaseCap(c));
                            r.value == |taken| && ReleasedAre(recovered, after, taken))
  {
    hide HighPressure, Gate, MayLoseL1, UniqueIds, ReleasedAre, MarkReleased, Filter, AfterJournal, Stops, Sort;
    var recovered := AfterJournal(gens, env);
    var cands := ReleaseCandidates(recovered, env);
    JournalKeepsIds(gens, env);
    ReleaseCandidatesPart(recovered, env);
    PassSoFar(c, env, u, recovered, cands, |cands|);
    assert cands[..|cands|] == cands;
  }

  /** Recovery finishes the journalled release and no other, and only for a candidate whose pack verifies. */
  lemma {:induction false} JournalFinishes(gens: seq<Gen>, env: Env, i: nat)
    requires i < |gens|
    ensures AfterJournal(gens, env)[i] == gens[i].(released := AfterJournal(gens, env)[i].released)
    ensures AfterJournal(gens, env)[i].released <==>
            gens[i].released || (env.journal == Some(gens[i].id) && HasL1InPack(env, gens[i]) && env.verified(gens[i]))
  {
    assert AfterJournal(gens, env)[i] == if Recovers(env, gens[i]) then gens[i].(released := true) else gens[i];
  }

  // ---- The tick ---------------------------------------------------------------------------------------------

  /**
   * A tick in order: eviction, when it is on, takes the evicted rows away and ends the tick when it fails; compaction,
   * when it is on, ends it when it fails; a release pass follows when either release setting asks for it.
   */
  lemma {:induction false} TickInOrder(c: Config, gens: seq<Gen>, env: Env)
    ensures var after := AfterTick(c, gens, env);
            var kept := Filter(gens, (g: Gen) => !(c.enableEviction && g.id in env.evicted));
            var (packed, made) := AfterCompact(c, kept, env);
            var rows, goesOn := if c.enableCompaction then packed else kept, !c.enableCompaction || made.Some?;
            var u := if env.usageAfter.Some? then env.usageAfter.value else if env.usage.Some? then env.usage.value else Usage(0, 0);
            && (c.enableEviction && !env.evicts ==> after == kept)
            && (!(c.enableEviction && !env.evicts) && goesOn && (c.enableRelease || c.releaseAfterPack) ==>
                  after == AfterRelease(c, rows, env, u).0)
            && (!(c.enableEviction && !env.evicts) && !(goesOn && (c.enableRelease || c.releaseAfterPack)) ==> after == rows)
  {
    hide AfterCompact, AfterRelease, Filter;
    var p := (g: Gen) => !(c.enableEviction && g.id in env.evicted);
    if c.enableEviction {
      FilterSame(gens, p, (g: Gen) => g.id !in env.evicted);
    } else {
      FilterAll(gens, p);
    }
  }

  /** A run is its ticks in order. */
  lemma {:induction false} RunSnoc(c: Config, gens: seq<Gen>, envs: seq<Env>, env: Env)
    ensures Run(c, gens, []) == gens
    ensures Run(c, gens, envs + [env]) == AfterTick(c, Run(c, gens, envs), env)
    decreases |envs|
  {
    hide AfterTick;
    if envs == [] {
      assert (envs + [env])[1..] == [];
    } else {
      assert (envs + [env])[1..] == envs[1..] + [env];
      RunSnoc(c, AfterTick(c, gens, envs[0]), envs[1..], env);
    }
  }
}
