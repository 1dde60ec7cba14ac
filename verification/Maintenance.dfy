/** The periodic cache maintenance tick (internal/app/maintenance.go). */
module Maintenance {
  import opened Prelude
  import opened Sorting
  import opened Generations
  import opened PackSelection

  const HOUR := 3600 * 1000000000

  /** Durations in nanoseconds; a value that is not positive stands for the default. */
  datatype Config = Config(enableEviction: bool, enableCompaction: bool, enableRelease: bool, releaseAfterPack: bool,
                           releaseMinAge: int, maxReleasesPerTick: int, releasePressureFrac: real, maxPacksPerTick: int,
                           maxMembersPerPack: int, minSealedMembers: int, forcePackAfter: int, headroomFrac: real)
  {
    function MaxPacks(): nat { if maxPacksPerTick > 0 then maxPacksPerTick else 2 }

    function MaxMembers(): nat { if maxMembersPerPack > 0 then maxMembersPerPack else 8 }

    function MinMembers(): nat { if minSealedMembers > 0 then minSealedMembers else 2 }

    function ForceAfter(): nat { if forcePackAfter > 0 then forcePackAfter else 24 * HOUR }

    function MinAge(): nat { if releaseMinAge > 0 then releaseMinAge else HOUR }

    function MaxReleases(): nat { if maxReleasesPerTick > 0 then maxReleasesPerTick else 8 }

    function Headroom(): real { Fraction(headroomFrac, 0.25) }

    function Pressure(): real { Fraction(releasePressureFrac, 0.10) }
  }

  function Fraction(f: real, default: real): real {
    if f <= 0.0 then default else if f > 1.0 then 1.0 else f
  }

  datatype Usage = Usage(used: int, quota: int)

  type PackName = s: string | s != [] witness "p"

  /** One pack call: it fails, or publishes a pack and then marks this many of its generations. */
  datatype PackStep = PackFails | PackPublishes(packID: PackName, marked: nat)

  /** One L1 release after its pack verified. */
  datatype ReleaseStep = ReleaseFails | ReleaseCancelled | ReleaseGoes(bytes: nat)

  /**
   * Everything outside the maintainer that one tick depends on; None where a call fails. A context that is cancelled
   * while packs are made is found so before one of the batches.
   */
  datatype Env = Env(now: int, pinned: set<int>, leased: set<int>, needsEviction: bool, evicted: set<int>, evicts: bool,
                     usage: Option<Usage>, listed: bool, affinity: Option<Gen -> string>, packs: nat -> PackStep,
                     cancelledAt: Option<nat>, usageAfter: Option<Usage>, journal: Option<int>, recovers: bool, verified: Gen -> bool,
                     releases: Gen -> ReleaseStep)

  /** ListGenerations: by update time, then id. */
  predicate ByUpdate(a: Gen, b: Gen) {
    if a.updatedAt == b.updatedAt then a.id <= b.id
    else a.updatedAt.None? || (b.updatedAt.Some? && a.updatedAt.value < b.updatedAt.value)
  }

  function Listed(gens: seq<Gen>): seq<Gen> { Sort(gens, ByUpdate) }

  // ---- Packing ------------------------------------------------------------------------------------------

  predicate PackCandidate(env: Env, g: Gen) {
    g.sealed && g.packID == [] && g.id !in env.pinned && g.id !in env.leased
  }

  function PackableIn(listed: seq<Gen>, env: Env): seq<Gen> { Filter(listed, g => PackCandidate(env, g)) }

  function PackCandidates(gens: seq<Gen>, env: Env): seq<Gen> { PackableIn(Listed(gens), env) }

  predicate Aged(c: Config, now: int, g: Gen) {
    g.updatedAt.None? || now - g.updatedAt.value >= c.ForceAfter()
  }

  predicate UnderHeadroom(c: Config, u: Usage) {
    u.quota - u.used > 0 && (u.quota - u.used) as real > u.quota as real * c.Headroom()
  }

  function Forced(c: Config, cands: seq<Gen>, now: int): seq<Gen> { Filter(cands, g => Aged(c, now, g)) }

  function Unforced(c: Config, cands: seq<Gen>, now: int): seq<Gen> { Filter(cands, g => !Aged(c, now, g)) }

  function Batches(c: Config, cands: seq<Gen>, keyOf: Gen -> string, now: int, under: bool): seq<seq<Gen>> {
    var forced := Select(Forced(c, cands, now), keyOf, c.MaxMembers(), 1, c.MaxPacks());
    if under || |forced| >= c.MaxPacks() then forced
    else forced + Select(Unforced(c, cands, now), keyOf, c.MaxMembers(), c.MinMembers(), c.MaxPacks() - |forced|)
  }

  /** GetLatestGeneration. */
  function Latest(gens: seq<Gen>, key: LogKey): Option<Gen> {
    if gens == [] then None
    else
      var before, last := Latest(gens[..|gens| - 1], key), gens[|gens| - 1];
      if KeyOf(last) == key && (before.None? || before.value.generation < last.generation) then Some(last) else before
  }

  /** The generations a pack call really takes: the latest of each member's build. */
  function Resolved(gens: seq<Gen>, batch: seq<Gen>): seq<Option<Gen>> {
    seq(|batch|, i requires 0 <= i < |batch| => Latest(gens, KeyOf(batch[i])))
  }

  /** Each member's build has a generation, and the latest is sealed. */
  predicate AllSealed(gens: seq<Gen>, batch: seq<Gen>) {
    forall i :: 0 <= i < |batch| ==> Latest(gens, KeyOf(batch[i])).Some? && Latest(gens, KeyOf(batch[i])).value.sealed
  }

  function TakenIds(gens: seq<Gen>, batch: seq<Gen>): seq<int>
    requires AllSealed(gens, batch)
  {
    seq(|batch|, i requires 0 <= i < |batch| => Latest(gens, KeyOf(batch[i])).value.id)
  }

  /** PackGenerations refuses mixed profiles, missing or unsealed builds, and (by its entry ids) repetitions. */
  predicate Packable(gens: seq<Gen>, batch: seq<Gen>) {
    var taken := Resolved(gens, batch);
    && batch != []
    && (forall i :: 0 <= i < |batch| ==> batch[i].profile == batch[0].profile)
    && (forall i :: 0 <= i < |batch| ==> taken[i].Some? && taken[i].value.sealed)
    && (forall i, j :: 0 <= i < j < |batch| ==> taken[i].Some? && taken[j].Some? ==> taken[i].value.id != taken[j].value.id)
  }

  function MarkPacked(g: Gen, packID: PackName, now: int): Gen {
    g.(packID := packID, packedAt := Some(now), updatedAt := Some(now))
  }

  function MarkAll(gens: seq<Gen>, ids: set<int>, packID: PackName, now: int): (r: seq<Gen>)
    ensures |r| == |gens|
  {
    seq(|gens|, i requires 0 <= i < |gens| => if gens[i].id in ids then MarkPacked(gens[i], packID, now) else gens[i])
  }

  function MarkedIds(gens: seq<Gen>, batch: seq<Gen>, n: nat): set<int> {
    set i | 0 <= i < |batch| && i < n && Latest(gens, KeyOf(batch[i])).Some? :: Latest(gens, KeyOf(batch[i])).value.id
  }

  datatype Packing = Packing(gens: seq<Gen>, packs: nat, members: nat)

  function PackOne(p: Packing, batch: seq<Gen>, step: PackStep, now: int): Packing {
    if !Packable(p.gens, batch) || step.PackFails? then p
    else Packing(MarkAll(p.gens, MarkedIds(p.gens, batch, step.marked), step.packID, now), p.packs + 1, p.members + |batch|)
  }

  /** After the first k batches. */
  function PackedAfter(gens: seq<Gen>, batches: seq<seq<Gen>>, env: Env, k: nat): Packing
    requires k <= |batches|
  {
    if k == 0 then Packing(gens, 0, 0)
    else PackOne(PackedAfter(gens, batches, env, k - 1), batches[k - 1], env.packs(k - 1), env.now)
  }

  /** How many batches are tried before the context is found cancelled. */
  function Tried(env: Env, batches: seq<seq<Gen>>): (n: nat)
    ensures n <= |batches|
  {
    if env.cancelledAt.Some? && env.cancelledAt.value < |batches| then env.cancelledAt.value else |batches|
  }

  const UNDER_HEADROOM := "under_quota_headroom"
  const NO_CANDIDATES := "no_candidates"
  const BELOW_MIN := "below_min_members"
  const PACK_ERRORS := "pack_errors"

  datatype Compaction = Compaction(packs: nat, members: nat, skipped: string)

  /** compactTick: the generations afterwards and the outcome, or None when a listing fails or it is cancelled. */
  function AfterCompact(c: Config, gens: seq<Gen>, env: Env): (seq<Gen>, Option<Compaction>) {
    if env.usage.None? then (gens, None)
    else
      var under := UnderHeadroom(c, env.usage.value);
      var cands := PackCandidates(gens, env);
      if !env.listed then (gens, None)
      else if cands == [] then (gens, Some(Compaction(0, 0, if under then UNDER_HEADROOM else NO_CANDIDATES)))
      else if under && Forced(c, cands, env.now) == [] then (gens, Some(Compaction(0, 0, UNDER_HEADROOM)))
      else if env.affinity.None? then (gens, None)
      else
        var batches := Batches(c, cands, env.affinity.value, env.now, under);
        if batches == [] then (gens, Some(Compaction(0, 0, if under then UNDER_HEADROOM else BELOW_MIN)))
        else
          var p := PackedAfter(gens, batches, env, Tried(env, batches));
          if Tried(env, batches) < |batches| then (p.gens, None)
          else (p.gens, Some(Compaction(p.packs, p.members,
                                        if p.packs > 0 then "" else if under then UNDER_HEADROOM else PACK_ERRORS)))
  }

  // ---- Releasing ----------------------------------------------------------------------------------------

  predicate ReleaseCandidate(env: Env, g: Gen) {
    g.sealed && !g.released && g.packID != [] && g.id !in env.pinned && g.id !in env.leased
  }

  function ReleasableIn(listed: seq<Gen>, env: Env): seq<Gen> { Filter(listed, g => ReleaseCandidate(env, g)) }

  function ReleaseCandidates(gens: seq<Gen>, env: Env): seq<Gen> { ReleasableIn(Listed(gens), env) }

  predicate HighPressure(c: Config, env: Env, u: Usage) {
    || (u.quota > 0 && (u.quota - u.used <= 0 || (u.quota - u.used) as real / u.quota as real <= c.Pressure()))
    || env.needsEviction
  }

  function PackedTime(g: Gen): Option<int> { if g.packedAt.Some? then g.packedAt else g.updatedAt }

  /** The age gate; a generation without any time is older than any age. */
  predicate Gate(c: Config, now: int, high: bool, g: Gen) {
    c.releaseAfterPack || high || PackedTime(g).None? || now - PackedTime(g).value >= c.MinAge()
  }

  function MarkReleased(gens: seq<Gen>, id: int): (r: seq<Gen>)
    ensures |r| == |gens|
  {
    seq(|gens|, i requires 0 <= i < |gens| => if gens[i].id == id then gens[i].(released := true) else gens[i])
  }

  datatype Releasing = Releasing(gens: seq<Gen>, n: nat, reclaimed: nat, cancelled: bool)

  predicate Goes(c: Config, env: Env, high: bool, g: Gen) {
    Gate(c, env.now, high, g) && env.verified(g) && env.releases(g).ReleaseGoes?
  }

  function ReleaseOne(c: Config, env: Env, high: bool, p: Releasing, g: Gen): Releasing {
    if p.cancelled || p.n >= c.MaxReleases() then p
    else if Goes(c, env, high, g) then
      Releasing(MarkReleased(p.gens, g.id), p.n + 1, p.reclaimed + env.releases(g).bytes, false)
    else if Gate(c, env.now, high, g) && env.verified(g) && env.releases(g).ReleaseCancelled? then p.(cancelled := true)
    else p
  }

  /** After the first k candidates. */
  function ReleasedAfter(c: Config, env: Env, high: bool, gens: seq<Gen>, cands: seq<Gen>, k: nat): Releasing
    requires k <= |cands|
  {
    if k == 0 then Releasing(gens, 0, 0, false)
    else ReleaseOne(c, env, high, ReleasedAfter(c, env, high, gens, cands, k - 1), cands[k - 1])
  }

  predicate Recovers(env: Env, g: Gen) {
    env.journal == Some(g.id) && ReleaseCandidate(env, g) && env.verified(g)
  }

  /** RecoverReleaseJournal: finish the journalled release if its pack still verifies and nothing holds the generation. */
  function AfterJournal(gens: seq<Gen>, env: Env): (r: seq<Gen>)
    ensures |r| == |gens|
  {
    seq(|gens|, i requires 0 <= i < |gens| => if Recovers(env, gens[i]) then gens[i].(released := true) else gens[i])
  }

  /** releaseTick. */
  function AfterRelease(c: Config, gens: seq<Gen>, env: Env, u: Usage): (seq<Gen>, Option<nat>) {
    var recovered := AfterJournal(gens, env);
    if !env.recovers || !env.listed then (recovered, None)
    else
      var cands := ReleaseCandidates(recovered, env);
      var p := ReleasedAfter(c, env, HighPressure(c, env, u), recovered, cands, |cands|);
      (p.gens, if p.cancelled then None else Some(p.n))
  }

  // ---- The whole tick -------------------------------------------------------------------------------------

  function Evicted(c: Config, gens: seq<Gen>, env: Env): seq<Gen> {
    if c.enableEviction then Filter(gens, (g: Gen) => g.id !in env.evicted) else gens
  }

  function Compacted(c: Config, gens: seq<Gen>, env: Env): (seq<Gen>, bool) {
    if !c.enableCompaction then (gens, true)
    else
      var (after, outcome) := AfterCompact(c, gens, env);
      (after, outcome.Some?)
  }

  function UsageFor(env: Env): Usage {
    if env.usageAfter.Some? then env.usageAfter.value
    else if env.usage.Some? then env.usage.value else Usage(0, 0)
  }

  /** One tick. An eviction that fails, or a compaction that fails to list, ends it there. */
  function AfterTick(c: Config, gens: seq<Gen>, env: Env): seq<Gen> {
    var (packed, ok) := Compacted(c, Evicted(c, gens, env), env);
    if c.enableEviction && !env.evicts then Evicted(c, gens, env)
    else if ok && (c.enableRelease || c.releaseAfterPack) then AfterRelease(c, packed, env, UsageFor(env)).0 else packed
  }

  function Run(c: Config, gens: seq<Gen>, envs: seq<Env>): seq<Gen>
    decreases |envs|
  {
    if envs == [] then gens else Run(c, AfterTick(c, gens, envs[0]), envs[1..])
  }

  // ---- The maintainer as it runs ---------------------------------------------------------------------------

  class Maintainer {
    const config: Config
    var gens: seq<Gen>

    constructor (config: Config, gens: seq<Gen>)
      ensures this.config == config && this.gens == gens
    {
      this.config := config;
      this.gens := gens;
    }

    method ListPackCandidates(env: Env) returns (out: seq<Gen>)
      ensures out == PackCandidates(gens, env)
    {
      hide ByUpdate, Sort, PackableIn;
      var listed := Listed(gens);
      PackableStep(listed, env, 0);
      out := [];
      for k := 0 to |listed|
        invariant out == PackableIn(listed[..k], env)
      {
        PackableStep(listed, env, k);
        var g := listed[k];
        if !g.sealed { continue; }
        if g.packID != [] { continue; }
        if g.id in env.pinned { continue; }
        if g.id in env.leased { continue; }
        out := out + [g];
      }
      assert listed[..|listed|] == listed;
    }

    method ListReleaseCandidates(env: Env) returns (out: seq<Gen>)
      ensures out == ReleaseCandidates(gens, env)
    {
      hide ByUpdate, Sort, ReleasableIn;
      var listed := Listed(gens);
      ReleasableStep(listed, env, 0);
      out := [];
      for k := 0 to |listed|
        invariant out == ReleasableIn(listed[..k], env)
      {
        ReleasableStep(listed, env, k);
        var g := listed[k];
        if !g.sealed || g.released || g.packID == [] || g.id in env.pinned || g.id in env.leased { continue; }
        out := out + [g];
      }
      assert listed[..|listed|] == listed;
    }

    /** Forced generations, and the rest unless the headroom rules them out. */
    method Partition(cands: seq<Gen>, now: int, under: bool) returns (force: seq<Gen>, rest: seq<Gen>)
      ensures force == Forced(config, cands, now)
      ensures rest == if under then [] else Unforced(config, cands, now)
    {
      hide Forced, Unforced;
      NothingForced(config, cands, now);
      force, rest := [], [];
      for k := 0 to |cands|
        invariant force == Forced(config, cands[..k], now)
        invariant rest == if under then [] else Unforced(config, cands[..k], now)
      {
        ForcedStep(config, cands, now, k);
        var g := cands[k];
        if g.updatedAt.None? || now - g.updatedAt.value >= config.ForceAfter() {
          force := force + [g];
        } else if !under {
          rest := rest + [g];
        }
      }
      assert cands[..|cands|] == cands;
    }

    method CompactTick(env: Env) returns (r: Option<Compaction>)
      modifies `gens
      ensures (gens, r) == AfterCompact(config, old(gens), env)
    {
      hide Aged, PackOne, PackCandidate, UnderHeadroom, PackCandidates, Forced, Unforced, Select, PackedAfter;
      if env.usage.None? { return None; }
      var skipped := "";
      if UnderHeadroom(config, env.usage.value) { skipped := UNDER_HEADROOM; }
      if !env.listed { return None; }
      var candidates := ListPackCandidates(env);
      if |candidates| == 0 {
        if skipped == "" { skipped := NO_CANDIDATES; }
        return Some(Compaction(0, 0, skipped));
      }
      var under := skipped == UNDER_HEADROOM;
      var force, rest := Partition(candidates, env.now, under);
      if under && |force| == 0 { return Some(Compaction(0, 0, skipped)); }
      if env.affinity.None? { return None; }
      var batches := SelectPackBatches(force, env.affinity.value, config.MaxMembers(), 1, config.MaxPacks());
      if !under && |batches| < config.MaxPacks() {
        var more := SelectPackBatches(rest, env.affinity.value, config.MaxMembers(), config.MinMembers(),
                                      config.MaxPacks() - |batches|);
        batches := batches + more;
      }
      NoRest(config, candidates, env.affinity.value, env.now, under);
      if |batches| == 0 {
        if skipped == "" { skipped := if under then UNDER_HEADROOM else BELOW_MIN; }
        return Some(Compaction(0, 0, skipped));
      }
      var packs, members, cancelled := PackBatches(batches, env);
      if cancelled { return None; }
      if packs > 0 { skipped := ""; }
      if packs == 0 && skipped == "" { skipped := PACK_ERRORS; }
      return Some(Compaction(packs, members, skipped));
    }

    method PackBatches(batches: seq<seq<Gen>>, env: Env) returns (packs: nat, members: nat, cancelled: bool)
      modifies `gens
      ensures Packing(gens, packs, members) == PackedAfter(old(gens), batches, env, Tried(env, batches))
      ensures cancelled <==> Tried(env, batches) < |batches|
    {
      packs, members := 0, 0;
      for k := 0 to |batches|
        invariant Packing(gens, packs, members) == PackedAfter(old(gens), batches, env, k)
        invariant env.cancelledAt.Some? ==> k <= env.cancelledAt.value
      {
        hide Packable, MarkAll, MarkedIds;
        if env.cancelledAt == Some(k) { return packs, members, true; }
        var ok := PackGenerations(batches[k], env.packs(k), env.now);
        if !ok { continue; }
        packs, members := packs + 1, members + |batches[k]|;
      }
      cancelled := false;
    }

    /** Looks up what each member's build stands for now; None when one is missing or not sealed. */
    method ResolveBatch(batch: seq<Gen>) returns (ids: Option<seq<int>>)
      ensures ids == if AllSealed(gens, batch) then Some(TakenIds(gens, batch)) else None
    {
      var out := [];
      for i := 0 to |batch|
        invariant AllSealed(gens, batch[..i]) && out == TakenIds(gens, batch[..i])
      {
        hide Latest, KeyOf;
        assert batch[..i + 1] == batch[..i] + [batch[i]];
        var g := Latest(gens, KeyOf(batch[i]));
        if g.None? { return None; }
        if !g.value.sealed { return None; }
        out := out + [g.value.id];
      }
      assert batch[..|batch|] == batch;
      return Some(out);
    }

    /**
     * PackGenerations, from the members' builds to the marks: it is refused, and then changes nothing, unless all members
     * share a profile, all their builds have a sealed latest generation and no two of these are the same; it marks the
     * latest generations of the first so many members, and no other row.
     */
    method PackGenerations(batch: seq<Gen>, step: PackStep, now: int) returns (ok: bool)
      modifies `gens
      ensures ok <==> Packable(old(gens), batch) && step.PackPublishes?
      ensures gens == if ok then MarkAll(old(gens), MarkedIds(old(gens), batch, step.marked), step.packID, now) else old(gens)
    {
      hide Latest, KeyOf, MarkedIds;
      if |batch| == 0 { return false; }
      for i := 0 to |batch|
        invariant forall k :: 0 <= k < i ==> batch[k].profile == batch[0].profile
      {
        if batch[i].profile != batch[0].profile { return false; }
      }
      var ids := ResolveBatch(batch);
      PackableIff(gens, batch);
      if ids.None? { return false; }
      if !Distinct(ids.value) || step.PackFails? { return false; }
      var n := if step.marked < |batch| then step.marked else |batch|;
      MarkNone(gens, step.packID, now);
      assert Elems(ids.value[..0]) == {};
      for k := 0 to n
        invariant gens == MarkAll(old(gens), Elems(ids.value[..k]), step.packID, now)
      {
        MarkOneMore(old(gens), ids.value, k, step.packID, now);
        gens := MarkAll(gens, {ids.value[k]}, step.packID, now);
      }
      MarkedIdsAre(old(gens), batch, step.marked);
      return true;
    }

    method ReleaseTick(env: Env, u: Usage) returns (r: Option<nat>)
      modifies `gens
      ensures (gens, r) == AfterRelease(config, old(gens), env, u)
    {
      hide AfterJournal, Listed, ReleaseCandidate, HighPressure, Gate, MarkReleased;
      gens := AfterJournal(gens, env);
      if !env.recovers || !env.listed { return None; }
      ghost var recovered := gens;
      var high := HighPressure(config, env, u);
      var candidates := ListReleaseCandidates(env);
      var n: nat, reclaimed: nat := 0, 0;
      for k := 0 to |candidates|
        invariant Releasing(gens, n, reclaimed, false) == ReleasedAfter(config, env, high, recovered, candidates, k)
      {
        var g := candidates[k];
        if n >= config.MaxReleases() {
          CapEndsIt(config, env, high, recovered, candidates, k);
          return Some(n);
        }
        if !Gate(config, env.now, high, g) { continue; }
        if !env.verified(g) || env.releases(g).ReleaseFails? { continue; }
        if env.releases(g).ReleaseCancelled? {
          CancelEndsIt(config, env, high, recovered, candidates, k + 1);
          return None;
        }
        gens := MarkReleased(gens, g.id);
        n, reclaimed := n + 1, reclaimed + env.releases(g).bytes;
      }
      return Some(n);
    }

    method Tick(env: Env)
      modifies `gens
      ensures gens == AfterTick(config, old(gens), env)
    {
      hide AfterCompact, AfterRelease;
      gens := Evicted(config, gens, env);
      if config.enableEviction && !env.evicts { return; }
      if config.enableCompaction {
        var outcome := CompactTick(env);
        if outcome.None? { return; }
      }
      if config.enableRelease || config.releaseAfterPack {
        var _ := ReleaseTick(env, UsageFor(env));
      }
    }
  }

  lemma {:induction false} PackableIff(gens: seq<Gen>, batch: seq<Gen>)
    ensures Packable(gens, batch) <==>
            batch != [] && (forall i :: 0 <= i < |batch| ==> batch[i].profile == batch[0].profile)
            && AllSealed(gens, batch) && Distinct(TakenIds(gens, batch))
  {
    hide Latest, KeyOf;
    var taken := Resolved(gens, batch);
    assert forall i :: 0 <= i < |batch| ==> taken[i] == Latest(gens, KeyOf(batch[i]));
    if forall i :: 0 <= i < |batch| ==> taken[i].Some? && taken[i].value.sealed {
      assert AllSealed(gens, batch);
      assert forall i :: 0 <= i < |batch| ==> taken[i].value.id == TakenIds(gens, batch)[i];
    }
  }

  lemma {:induction false} MarkNone(gens: seq<Gen>, packID: PackName, now: int)
    ensures MarkAll(gens, {}, packID, now) == gens
  {}

  lemma {:induction false} MarkOneMore(gens: seq<Gen>, ids: seq<int>, k: nat, packID: PackName, now: int)
    requires k < |ids|
    ensures MarkAll(MarkAll(gens, Elems(ids[..k]), packID, now), {ids[k]}, packID, now)
         == MarkAll(gens, Elems(ids[..k + 1]), packID, now)
  {
    assert ids[..k + 1] == ids[..k] + [ids[k]];
    assert Elems(ids[..k + 1]) == Elems(ids[..k]) + {ids[k]};
  }

  lemma {:induction false} MarkedIdsAre(gens: seq<Gen>, batch: seq<Gen>, n: nat)
    requires AllSealed(gens, batch)
    ensures MarkedIds(gens, batch, n) == Elems(TakenIds(gens, batch)[..if n < |batch| then n else |batch|])
  {
    hide Latest, KeyOf;
    var m := if n < |batch| then n else |batch|;
    var ids := TakenIds(gens, batch)[..m];
    forall x ensures x in MarkedIds(gens, batch, n) <==> x in Elems(ids) {
      if x in Elems(ids) {
        var i :| 0 <= i < |ids| && ids[i] == x;
        assert Latest(gens, KeyOf(batch[i])).value.id == x;
      }
      if x in MarkedIds(gens, batch, n) {
        var i :| 0 <= i < |batch| && i < n && Latest(gens, KeyOf(batch[i])).Some? && Latest(gens, KeyOf(batch[i])).value.id == x;
        assert ids[i] == x;
      }
    }
  }

  lemma {:induction false} PackableStep(listed: seq<Gen>, env: Env, k: nat)
    ensures PackableIn(listed[..0], env) == []
    ensures k < |listed| ==> PackableIn(listed[..k + 1], env)
                             == PackableIn(listed[..k], env) + if PackCandidate(env, listed[k]) then [listed[k]] else []
  {
    hide PackCandidate;
    if k < |listed| { FilterTake(listed, g => PackCandidate(env, g), k); }
  }

  lemma {:induction false} ReleasableStep(listed: seq<Gen>, env: Env, k: nat)
    ensures ReleasableIn(listed[..0], env) == []
    ensures k < |listed| ==> ReleasableIn(listed[..k + 1], env)
                             == ReleasableIn(listed[..k], env) + if ReleaseCandidate(env, listed[k]) then [listed[k]] else []
  {
    hide ReleaseCandidate;
    if k < |listed| { FilterTake(listed, g => ReleaseCandidate(env, g), k); }
  }

  lemma {:induction false} NothingForced(c: Config, cands: seq<Gen>, now: int)
    ensures Forced(c, cands[..0], now) == [] && Unforced(c, cands[..0], now) == []
  {}

  lemma {:induction false} ForcedStep(c: Config, cands: seq<Gen>, now: int, k: nat)
    requires k < |cands|
    ensures Forced(c, cands[..k + 1], now) == Forced(c, cands[..k], now) + if Aged(c, now, cands[k]) then [cands[k]] else []
    ensures Unforced(c, cands[..k + 1], now) == Unforced(c, cands[..k], now) + if Aged(c, now, cands[k]) then [] else [cands[k]]
  {
    hide Aged;
    FilterTake(cands, g => Aged(c, now, g), k);
    FilterTake(cands, g => !Aged(c, now, g), k);
  }

  lemma {:induction false} NoRest(c: Config, cands: seq<Gen>, keyOf: Gen -> string, now: int, under: bool)
    ensures var forced := Select(Forced(c, cands, now), keyOf, c.MaxMembers(), 1, c.MaxPacks());
            Batches(c, cands, keyOf, now, under) ==
            if !under && |forced| < c.MaxPacks()
            then forced + Select(Unforced(c, cands, now), keyOf, c.MaxMembers(), c.MinMembers(), c.MaxPacks() - |forced|)
            else forced
  {
    hide Select, Forced, Unforced;
  }

  lemma {:induction false} CapEndsIt(c: Config, env: Env, high: bool, gens: seq<Gen>, cands: seq<Gen>, k: nat)
    requires k <= |cands| && ReleasedAfter(c, env, high, gens, cands, k).n >= c.MaxReleases()
    ensures ReleasedAfter(c, env, high, gens, cands, |cands|) == ReleasedAfter(c, env, high, gens, cands, k)
    decreases |cands| - k
  {
    if k < |cands| { CapEndsIt(c, env, high, gens, cands, k + 1); }
  }

  lemma {:induction false} CancelEndsIt(c: Config, env: Env, high: bool, gens: seq<Gen>, cands: seq<Gen>, k: nat)
    requires k <= |cands| && ReleasedAfter(c, env, high, gens, cands, k).cancelled
    ensures ReleasedAfter(c, env, high, gens, cands, |cands|) == ReleasedAfter(c, env, high, gens, cands, k)
    decreases |cands| - k
  {
    if k < |cands| { CancelEndsIt(c, env, high, gens, cands, k + 1); }
  }
}
