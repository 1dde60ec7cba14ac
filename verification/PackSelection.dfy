/** Rows of the log_generations table (internal/store/meta.go), as maintenance sees them. */
module Generations {
  import opened Prelude
  import opened Sorting

  /** A missing time is the zero time. An empty pack id means not packed. */
  datatype Gen = Gen(id: int, profile: string, job: string, build: int, generation: int, sealed: bool, packID: string,
                     updatedAt: Option<int>, packedAt: Option<int>, released: bool)

  datatype LogKey = LogKey(profile: string, job: string, build: int)

  function KeyOf(g: Gen): LogKey { LogKey(g.profile, g.job, g.build) }

  ghost predicate UniqueIds(gens: seq<Gen>) {
    forall i, j :: 0 <= i < j < |gens| ==> gens[i].id != gens[j].id
  }

  /** By job, then build, then id. */
  predicate ByBuild(a: Gen, b: Gen) {
    if a.job != b.job then LexLeq(a.job, b.job)
    else if a.build != b.build then a.build <= b.build
    else a.id <= b.id
  }

  lemma {:induction false} ByBuildIsTotal()
    ensures TotalPreorder(ByBuild)
  {
    hide LexLeq;
    LexIsTotalOrder();
  }
}

/** Choosing pack batches by affinity (internal/logmirror/affinity_key.go). */
module PackSelection {
  import opened Prelude
  import opened Sorting
  import opened Generations

  /** The generations of one affinity group, in input order. */
  function Members(gens: seq<Gen>, keyOf: Gen -> string, k: string): seq<Gen> {
    if gens == [] then []
    else
      var last := gens[|gens| - 1];
      Members(gens[..|gens| - 1], keyOf, k) + if keyOf(last) == k then [last] else []
  }

  /** The affinity keys that occur, each once. */
  function KeyList(gens: seq<Gen>, keyOf: Gen -> string): seq<string> {
    if gens == [] then []
    else
      var front := KeyList(gens[..|gens| - 1], keyOf);
      var k := keyOf(gens[|gens| - 1]);
      if k in front then front else front + [k]
  }

  function GroupsFor(gens: seq<Gen>, keyOf: Gen -> string, keys: seq<string>): seq<seq<Gen>> {
    seq(|keys|, i requires 0 <= i < |keys| => Sort(Members(gens, keyOf, keys[i]), ByBuild))
  }

  /** All groups, in key order, each sorted. */
  function Groups(gens: seq<Gen>, keyOf: Gen -> string): seq<seq<Gen>> {
    GroupsFor(gens, keyOf, Sort(KeyList(gens, keyOf), LexLeq))
  }

  /** One group cut into at most room batches of max members, the last one shorter but not below min. */
  function Chunks<T>(members: seq<T>, max: nat, min: nat, room: nat): seq<seq<T>>
    requires 0 < min <= max
    decreases room
  {
    if room == 0 || |members| < min then []
    else
      var n := if max > |members| then |members| else max;
      [members[..n]] + Chunks(members[n..], max, min, room - 1)
  }

  function ChunkAll<T>(groups: seq<seq<T>>, max: nat, min: nat, room: nat): seq<seq<T>>
    requires 0 < min <= max
  {
    if groups == [] then []
    else
      ChunksFit(groups[0], max, min, room);
      var first := Chunks(groups[0], max, min, room);
      first + ChunkAll(groups[1..], max, min, room - |first|)
  }

  /** SelectCollectionAwarePackBatches, over the affinity key of each generation. */
  function Select(gens: seq<Gen>, keyOf: Gen -> string, maxMembers: int, minSize: int, maxBatches: int): seq<seq<Gen>> {
    if maxMembers <= 0 || minSize <= 0 || maxBatches <= 0 || gens == [] then []
    else ChunkAll(Groups(gens, keyOf), maxMembers, if minSize > maxMembers then maxMembers else minSize, maxBatches)
  }

  // ---- The loops ----------------------------------------------------------------------------------------

  method GroupByKey(gens: seq<Gen>, keyOf: Gen -> string) returns (groups: map<string, seq<Gen>>)
    ensures groups.Keys == Elems(KeyList(gens, keyOf))
    ensures forall k :: k in groups ==> groups[k] == Members(gens, keyOf, k)
  {
    groups := map[];
    for i := 0 to |gens|
      invariant Grouped(groups, gens[..i], keyOf)
    {
      hide Grouped;
      var k := keyOf(gens[i]);
      OneMoreGrouped(groups, gens, keyOf, i);
      groups := groups[k := (if k in groups then groups[k] else []) + [gens[i]]];
    }
    assert gens[..|gens|] == gens;
  }

  ghost predicate Grouped(groups: map<string, seq<Gen>>, gens: seq<Gen>, keyOf: Gen -> string) {
    && groups.Keys == Elems(KeyList(gens, keyOf))
    && (forall k :: k in groups ==> groups[k] == Members(gens, keyOf, k))
    && (forall k :: k !in groups ==> Members(gens, keyOf, k) == [])
  }

  lemma {:induction false} OneMoreGrouped(groups: map<string, seq<Gen>>, gens: seq<Gen>, keyOf: Gen -> string, i: nat)
    requires i < |gens| && Grouped(groups, gens[..i], keyOf)
    ensures var k := keyOf(gens[i]);
            Grouped(groups[k := (if k in groups then groups[k] else []) + [gens[i]]], gens[..i + 1], keyOf)
  {
    var now, k := gens[..i + 1], keyOf(gens[i]);
    assert now[..i] == gens[..i] && now[i] == gens[i];
    forall j ensures Members(now, keyOf, j) == Members(gens[..i], keyOf, j) + if j == k then [gens[i]] else [] {
      MembersStep(now, keyOf, j);
    }
    assert KeyList(now, keyOf) == if k in KeyList(gens[..i], keyOf) then KeyList(gens[..i], keyOf) else KeyList(gens[..i], keyOf) + [k];
    hide Members, KeyList;
    ElemsSnoc(KeyList(gens[..i], keyOf), k);
  }

  lemma {:induction false} MembersStep(gens: seq<Gen>, keyOf: Gen -> string, k: string)
    requires gens != []
    ensures var last := gens[|gens| - 1];
            Members(gens, keyOf, k) == Members(gens[..|gens| - 1], keyOf, k) + if k == keyOf(last) then [last] else []
  {}

  lemma {:induction false} ElemsSnoc<T>(s: seq<T>, x: T)
    ensures Elems(s + [x]) == Elems(s) + {x}
  {}

  /** The map's keys come out in any order; sorting them leaves only one. */
  method SortedKeys(groups: map<string, seq<Gen>>, ghost list: seq<string>) returns (keys: seq<string>)
    requires Distinct(list) && groups.Keys == Elems(list)
    ensures keys == Sort(list, LexLeq)
  {
    hide LexLeq;
    var rest: set<string> := groups.Keys;
    var found: seq<string> := [];
    while rest != {}
      invariant multiset(found) == multiset(groups.Keys - rest) && rest <= groups.Keys
    {
      var k :| k in rest;
      assert groups.Keys - (rest - {k}) == (groups.Keys - rest) + {k};
      rest := rest - {k};
      found := found + [k];
    }
    assert groups.Keys - {} == groups.Keys;
    DistinctMultiset(list);
    LexIsTotalOrder();
    SortSorts(found, LexLeq);
    SortSorts(list, LexLeq);
    SortedUnique(Sort(found, LexLeq), Sort(list, LexLeq), LexLeq);
    return Sort(found, LexLeq);
  }

  lemma {:induction false} KeyListDistinct(gens: seq<Gen>, keyOf: Gen -> string)
    ensures Distinct(KeyList(gens, keyOf))
    ensures forall g :: g in gens ==> keyOf(g) in KeyList(gens, keyOf)
    ensures gens != [] ==> KeyList(gens, keyOf) != []
  {
    if gens != [] {
      var front, last := gens[..|gens| - 1], gens[|gens| - 1];
      KeyListDistinct(front, keyOf);
      assert gens == front + [last];
    }
  }

  method SelectPackBatches(gens: seq<Gen>, keyOf: Gen -> string, maxMembers: int, minSize: int, maxBatches: int)
    returns (out: seq<seq<Gen>>)
    ensures out == Select(gens, keyOf, maxMembers, minSize, maxBatches)
  {
    hide LexLeq, ByBuild, Sort, KeyList, Members, ChunkAll, Chunks, Remaining;
    if maxMembers <= 0 || minSize <= 0 || maxBatches <= 0 || |gens| == 0 { return []; }
    var min := minSize;
    if min > maxMembers { min := maxMembers; }
    var groups := GroupByKey(gens, keyOf);
    KeyListDistinct(gens, keyOf);
    var affKeys := SortedKeys(groups, KeyList(gens, keyOf));
    ghost var all := Groups(gens, keyOf);
    ghost var total := ChunkAll(all, maxMembers, min, maxBatches);
    out := [];
    NothingTaken(all, maxMembers, min, maxBatches);
    for i := 0 to |affKeys|
      invariant Remaining(out, all[i..], total, maxMembers, min, maxBatches)
    {
      if |out| >= maxBatches {
        NoRoom(out, all[i..], total, maxMembers, min, maxBatches);
        return;
      }
      assert affKeys[i] in multiset(affKeys);
      assert affKeys[i] in groups;
      var batches := ChunkGroup(Sort(groups[affKeys[i]], ByBuild), maxMembers, min, maxBatches - |out|);
      OneGroupMore(out, all[i..], total, maxMembers, min, maxBatches);
      assert all[i..][1..] == all[i + 1..];
      out := out + batches;
    }
    AllTaken(out, all[|affKeys|..], total, maxMembers, min, maxBatches);
  }

  /** With out taken so far and the groups in rest still to come, total is what will come out. */
  ghost predicate Remaining<T>(out: seq<seq<T>>, rest: seq<seq<T>>, total: seq<seq<T>>, max: nat, min: nat, room: nat) {
    0 < min <= max && |out| <= room && out + ChunkAll(rest, max, min, room - |out|) == total
  }

  lemma {:induction false} NothingTaken<T>(groups: seq<seq<T>>, max: nat, min: nat, room: nat)
    requires 0 < min <= max
    ensures Remaining([], groups, ChunkAll(groups, max, min, room), max, min, room)
  {}

  lemma {:induction false} OneGroupMore<T>(out: seq<seq<T>>, rest: seq<seq<T>>, total: seq<seq<T>>, max: nat, min: nat,
                                           room: nat)
    requires rest != [] && Remaining(out, rest, total, max, min, room)
    ensures Remaining(out + Chunks(rest[0], max, min, room - |out|), rest[1..], total, max, min, room)
  {
    hide Chunks;
    ChunksFit(rest[0], max, min, room - |out|);
    var first := Chunks(rest[0], max, min, room - |out|);
    var more := ChunkAll(rest[1..], max, min, room - |out| - |first|);
    assert out + (first + more) == out + first + more;
  }

  lemma {:induction false} AllTaken<T>(out: seq<seq<T>>, rest: seq<seq<T>>, total: seq<seq<T>>, max: nat, min: nat, room: nat)
    requires Remaining(out, rest, total, max, min, room) && rest == []
    ensures out == total
  {}

  lemma {:induction false} NoRoom<T>(out: seq<seq<T>>, rest: seq<seq<T>>, total: seq<seq<T>>, max: nat, min: nat, room: nat)
    requires Remaining(out, rest, total, max, min, room) && |out| >= room
    ensures out == total
  {
    NoneWithoutRoom(rest, max, min);
  }

  lemma {:induction false} NoneWithoutRoom<T>(groups: seq<seq<T>>, max: nat, min: nat)
    requires 0 < min <= max
    ensures ChunkAll(groups, max, min, 0) == []
  {
    if groups != [] { NoneWithoutRoom(groups[1..], max, min); }
  }

  /** The inner loop: members leave from the front, one batch at a time. */
  method ChunkGroup<T>(group: seq<T>, max: nat, min: nat, room: nat) returns (out: seq<seq<T>>)
    requires 0 < min <= max
    ensures out == Chunks(group, max, min, room)
  {
    out := [];
    var members := group;
    while |members| >= min && |out| < room
      invariant |out| <= room && out + Chunks(members, max, min, room - |out|) == Chunks(group, max, min, room)
      decreases |members|
    {
      var n := max;
      if n > |members| { n := |members|; }
      ChunkOff(out, members, max, min, room);
      out := out + [members[..n]];
      members := members[n..];
    }
  }

  lemma {:induction false} ChunkOff<T>(out: seq<seq<T>>, members: seq<T>, max: nat, min: nat, room: nat)
    requires 0 < min <= max && |members| >= min && |out| < room
    ensures var n := if max > |members| then |members| else max;
            out + Chunks(members, max, min, room - |out|) == out + [members[..n]] + Chunks(members[n..], max, min, room - |out| - 1)
  {}

  // ---- What the batches are -------------------------------------------------------------------------------

  lemma {:induction false} ChunksFit<T>(members: seq<T>, max: nat, min: nat, room: nat)
    requires 0 < min <= max
    ensures |Chunks(members, max, min, room)| <= room
    decreases room
  {
    if room > 0 && |members| >= min {
      var n := if max > |members| then |members| else max;
      ChunksFit(members[n..], max, min, room - 1);
    }
  }

  lemma {:induction false} ChunkSizes<T>(members: seq<T>, max: nat, min: nat, room: nat)
    requires 0 < min <= max
    ensures forall b :: b in Chunks(members, max, min, room) ==> min <= |b| <= max
    decreases room
  {
    if room > 0 && |members| >= min {
      var n := if max > |members| then |members| else max;
      ChunkSizes(members[n..], max, min, room - 1);
      assert |members[..n]| == n;
    }
  }

  lemma {:induction false} ChunksStep<T>(members: seq<T>, max: nat, min: nat, room: nat)
    requires 0 < min <= max && room > 0 && |members| >= min
    ensures var n := if max > |members| then |members| else max;
            && |Chunks(members, max, min, room)| == 1 + |Chunks(members[n..], max, min, room - 1)|
            && Flatten(Chunks(members, max, min, room)) == members[..n] + Flatten(Chunks(members[n..], max, min, room - 1))
  {
    var n := if max > |members| then |members| else max;
    FlattenFirst([members[..n]] + Chunks(members[n..], max, min, room - 1));
  }

  /** A group's batches take a prefix of it in order, and stop early only when too little is left. */
  lemma {:induction false} ChunksTakePrefix<T>(members: seq<T>, max: nat, min: nat, room: nat)
    requires 0 < min <= max
    ensures Flatten(Chunks(members, max, min, room)) <= members
    ensures |Chunks(members, max, min, room)| < room ==> |members| - |Flatten(Chunks(members, max, min, room))| < min
    decreases room
  {
    if room > 0 && |members| >= min {
      var n := if max > |members| then |members| else max;
      ChunksStep(members, max, min, room);
      ChunksTakePrefix(members[n..], max, min, room - 1);
      hide Chunks, Flatten;
      PrefixOfRest(members, n, Flatten(Chunks(members[n..], max, min, room - 1)));
    }
  }

  lemma {:induction false} PrefixOfRest<T>(s: seq<T>, n: nat, t: seq<T>)
    requires n <= |s| && t <= s[n..]
    ensures s[..n] + t <= s
  {}

  lemma {:induction false} PrefixMultiset<T>(a: seq<T>, b: seq<T>)
    requires a <= b
    ensures multiset(a) <= multiset(b) && (|a| == |b| ==> a == b)
  {
    assert b == a + b[|a|..];
  }

  lemma {:induction false} ChunkAllStep<T>(groups: seq<seq<T>>, max: nat, min: nat, room: nat)
    requires 0 < min <= max && groups != []
    ensures var first := Chunks(groups[0], max, min, room);
            && |first| <= room
            && ChunkAll(groups, max, min, room) == first + ChunkAll(groups[1..], max, min, room - |first|)
  {
    ChunksFit(groups[0], max, min, room);
  }

  lemma {:induction false} ChunkAllSizes<T>(groups: seq<seq<T>>, max: nat, min: nat, room: nat)
    requires 0 < min <= max
    ensures |ChunkAll(groups, max, min, room)| <= room
    ensures forall b :: b in ChunkAll(groups, max, min, room) ==> min <= |b| <= max
  {
    if groups != [] {
      ChunkAllStep(groups, max, min, room);
      var first := Chunks(groups[0], max, min, room);
      ChunkSizes(groups[0], max, min, room);
      var rest := ChunkAll(groups[1..], max, min, room - |first|);
      ChunkAllSizes(groups[1..], max, min, room - |first|);
      hide Chunks, ChunkAll, Flatten;
      forall b | b in first + rest ensures min <= |b| <= max { assert b in first || b in rest; }
    }
  }

  /** taken comes out of all without repetition, and is the whole of it when full. */
  ghost predicate Takes<T>(taken: seq<T>, all: seq<T>, full: bool) {
    multiset(taken) <= multiset(all) && (full ==> multiset(taken) == multiset(all))
  }

  lemma {:induction false} TakesJoin<T>(a: seq<T>, b: seq<T>, c: seq<T>, d: seq<T>, full: bool)
    requires Takes(a, c, full) && Takes(b, d, full)
    ensures Takes(a + b, c + d, full)
  {}

  /** All batches take without repetition, and take everything when nothing limits them. */
  ghost predicate AllTakes<T>(groups: seq<seq<T>>, max: nat, min: nat, room: nat)
    requires 0 < min <= max
  {
    Takes(Flatten(ChunkAll(groups, max, min, room)), Flatten(groups), min == 1 && |ChunkAll(groups, max, min, room)| < room)
  }

  lemma {:induction false} ChunkAllTakes<T>(groups: seq<seq<T>>, max: nat, min: nat, room: nat)
    requires 0 < min <= max
    ensures AllTakes(groups, max, min, room)
  {
    hide *;
    if groups == [] {
      NoGroupsTake(groups, max, min, room);
    } else {
      ChunkAllStep(groups, max, min, room);
      ChunkAllTakes(groups[1..], max, min, room - |Chunks(groups[0], max, min, room)|);
      GroupsTakeOn(groups, max, min, room);
    }
  }

  lemma {:induction false} NoGroupsTake<T>(groups: seq<seq<T>>, max: nat, min: nat, room: nat)
    requires 0 < min <= max && groups == []
    ensures AllTakes(groups, max, min, room)
  {
    assert ChunkAll(groups, max, min, room) == [];
    assert Flatten<T>([]) == [];
  }

  lemma {:induction false} GroupsTakeOn<T>(groups: seq<seq<T>>, max: nat, min: nat, room: nat)
    requires 0 < min <= max && groups != [] && |Chunks(groups[0], max, min, room)| <= room
    requires AllTakes(groups[1..], max, min, room - |Chunks(groups[0], max, min, room)|)
    ensures AllTakes(groups, max, min, room)
  {
    hide Takes, Chunks, ChunkAll, Flatten;
    ChunkAllStep(groups, max, min, room);
    var first := Chunks(groups[0], max, min, room);
    var rest := ChunkAll(groups[1..], max, min, room - |first|);
    var full := min == 1 && |first| + |rest| < room;
    GroupTakes(groups[0], max, min, room, full);
    TakesLess(Flatten(rest), Flatten(groups[1..]), min == 1 && |rest| < room - |first|, full);
    FlattenAppend(first, rest);
    FlattenFirst(groups);
    TakesJoin(Flatten(first), Flatten(rest), groups[0], Flatten(groups[1..]), full);
  }

  lemma {:induction false} TakesLess<T>(taken: seq<T>, all: seq<T>, full: bool, less: bool)
    requires Takes(taken, all, full) && (less ==> full)
    ensures Takes(taken, all, less)
  {}

  lemma {:induction false} GroupTakes<T>(group: seq<T>, max: nat, min: nat, room: nat, full: bool)
    requires 0 < min <= max && (full ==> min == 1 && |Chunks(group, max, min, room)| < room)
    ensures Takes(Flatten(Chunks(group, max, min, room)), group, full)
  {
    hide Chunks, Flatten;
    ChunksTakePrefix(group, max, min, room);
    PrefixMultiset(Flatten(Chunks(group, max, min, room)), group);
  }

  lemma {:induction false} FlattenFirst<T>(groups: seq<seq<T>>)
    requires groups != []
    ensures Flatten(groups) == groups[0] + Flatten(groups[1..])
  {}

  /** Each batch comes out of one group. */
  lemma {:induction false} ChunkAllWithinGroups<T>(groups: seq<seq<T>>, max: nat, min: nat, room: nat, b: seq<T>)
    requires 0 < min <= max && b in ChunkAll(groups, max, min, room)
    ensures exists i :: 0 <= i < |groups| && multiset(b) <= multiset(groups[i])
  {
    var first := Chunks(groups[0], max, min, room);
    ChunksFit(groups[0], max, min, room);
    if b in first {
      ChunksTakePrefix(groups[0], max, min, room);
      PrefixMultiset(Flatten(first), groups[0]);
      PieceOfFlatten(first, b);
    } else {
      ChunkAllWithinGroups(groups[1..], max, min, room - |first|, b);
      var i :| 0 <= i < |groups[1..]| && multiset(b) <= multiset(groups[1..][i]);
      assert groups[1..][i] == groups[i + 1];
    }
  }

  lemma {:induction false} PieceOfFlatten<T>(pieces: seq<seq<T>>, b: seq<T>)
    requires b in pieces
    ensures multiset(b) <= multiset(Flatten(pieces))
  {
    if b != pieces[0] { PieceOfFlatten(pieces[1..], b); }
  }

  lemma {:induction false} MembersCount(gens: seq<Gen>, keyOf: Gen -> string, k: string, g: Gen)
    ensures multiset(Members(gens, keyOf, k))[g] == if keyOf(g) == k then multiset(gens)[g] else 0
  {
    if gens != [] {
      MembersCount(gens[..|gens| - 1], keyOf, k, g);
      assert gens == gens[..|gens| - 1] + [gens[|gens| - 1]];
    }
  }

  lemma {:induction false} GroupsCount(gens: seq<Gen>, keyOf: Gen -> string, keys: seq<string>, g: Gen)
    requires Distinct(keys)
    ensures multiset(Flatten(GroupsFor(gens, keyOf, keys)))[g] == if keyOf(g) in keys then multiset(gens)[g] else 0
  {
    if keys != [] {
      hide Sort, Members, ByBuild;
      GroupsCount(gens, keyOf, keys[1..], g);
      MembersCount(gens, keyOf, keys[0], g);
      var first, rest := Sort(Members(gens, keyOf, keys[0]), ByBuild), GroupsFor(gens, keyOf, keys[1..]);
      assert GroupsFor(gens, keyOf, keys)[1..] == rest;
      assert Flatten(GroupsFor(gens, keyOf, keys)) == first + Flatten(rest);
      assert keys[0] !in keys[1..];
      assert keyOf(g) in keys <==> keyOf(g) == keys[0] || keyOf(g) in keys[1..];
      hide Flatten, GroupsFor;
      assert multiset(first + Flatten(rest)) == multiset(first) + multiset(Flatten(rest));
    }
  }

  /** The groups partition the input. */
  lemma {:induction false} GroupsPartition(gens: seq<Gen>, keyOf: Gen -> string)
    ensures multiset(Flatten(Groups(gens, keyOf))) == multiset(gens)
  {
    hide Sort, Members, ByBuild, KeyList, LexLeq, GroupsFor;
    var list := KeyList(gens, keyOf);
    var keys := Sort(list, LexLeq);
    KeyListDistinct(gens, keyOf);
    PermutationOfDistinct(list, keys);
    forall g ensures multiset(Flatten(Groups(gens, keyOf)))[g] == multiset(gens)[g] {
      GroupsCount(gens, keyOf, keys, g);
      if g in multiset(gens) {
        assert keyOf(g) in list && keyOf(g) in multiset(list);
      }
    }
  }

  /**
   * The selector's promise: at most maxBatches batches, each of at most maxMembers and at least minSize
   * generations of a single affinity, together a part of the input without repetition. With minSize 1
   * a non-empty input gives a batch, and all of it is taken unless the batch limit is reached.
   */
  lemma {:induction false} SelectShape(gens: seq<Gen>, keyOf: Gen -> string, maxMembers: int, minSize: int, maxBatches: int)
    ensures var out := Select(gens, keyOf, maxMembers, minSize, maxBatches);
            && |out| <= Max(0, maxBatches)
            && (forall b :: b in out ==> Min(minSize, maxMembers) <= |b| <= maxMembers && |b| > 0)
            && multiset(Flatten(out)) <= multiset(gens)
            && (minSize == 1 && maxMembers > 0 && 0 <= |out| < maxBatches ==> multiset(Flatten(out)) == multiset(gens))
            && (minSize == 1 && maxMembers > 0 && maxBatches > 0 && gens != [] ==> out != [])
  {
    hide Groups;
    if !(maxMembers <= 0 || minSize <= 0 || maxBatches <= 0 || gens == []) {
      var min := if minSize > maxMembers then maxMembers else minSize;
      ChunkAllSizes(Groups(gens, keyOf), maxMembers, min, maxBatches);
      ChunkAllTakes(Groups(gens, keyOf), maxMembers, min, maxBatches);
      GroupsPartition(gens, keyOf);
      var out := Select(gens, keyOf, maxMembers, minSize, maxBatches);
      assert multiset(Flatten(out)) == multiset(gens) ==> |Flatten(out)| == |gens| by {
        assert |multiset(Flatten(out))| == |Flatten(out)| && |multiset(gens)| == |gens|;
      }
    }
  }

  lemma {:induction false} SelectHomogeneous(gens: seq<Gen>, keyOf: Gen -> string, maxMembers: int, minSize: int,
                                             maxBatches: int, b: seq<Gen>, x: Gen, y: Gen)
    requires b in Select(gens, keyOf, maxMembers, minSize, maxBatches) && x in b && y in b
    ensures keyOf(x) == keyOf(y)
  {
    hide Sort, Members, ByBuild, KeyList, LexLeq;
    var min := if minSize > maxMembers then maxMembers else minSize;
    ChunkAllWithinGroups(Groups(gens, keyOf), maxMembers, min, maxBatches, b);
    var i :| 0 <= i < |Groups(gens, keyOf)| && multiset(b) <= multiset(Groups(gens, keyOf)[i]);
    var k := Sort(KeyList(gens, keyOf), LexLeq)[i];
    assert x in multiset(b) && y in multiset(b);
    MembersCount(gens, keyOf, k, x);
    MembersCount(gens, keyOf, k, y);
  }

  lemma {:induction false} ChunksStaySorted<T(!new)>(members: seq<T>, leq: (T, T) -> bool, max: nat, min: nat, room: nat)
    requires 0 < min <= max && SortedBy(members, leq)
    ensures forall b :: b in Chunks(members, max, min, room) ==> SortedBy(b, leq)
    decreases room
  {
    if room > 0 && |members| >= min {
      var n := if max > |members| then |members| else max;
      ChunksStaySorted(members[n..], leq, max, min, room - 1);
    }
  }

  lemma {:induction false} AllStaySorted<T(!new)>(groups: seq<seq<T>>, leq: (T, T) -> bool, max: nat, min: nat, room: nat)
    requires 0 < min <= max && forall i :: 0 <= i < |groups| ==> SortedBy(groups[i], leq)
    ensures forall b :: b in ChunkAll(groups, max, min, room) ==> SortedBy(b, leq)
  {
    hide SortedBy, Chunks;
    if groups != [] {
      ChunkAllStep(groups, max, min, room);
      ChunksStaySorted(groups[0], leq, max, min, room);
      AllStaySorted(groups[1..], leq, max, min, room - |Chunks(groups[0], max, min, room)|);
    }
  }

  /** Members come in the order of their jobs, builds and ids. */
  lemma {:induction false} SelectInBuildOrder(gens: seq<Gen>, keyOf: Gen -> string, maxMembers: int, minSize: int,
                                              maxBatches: int)
    ensures forall b :: b in Select(gens, keyOf, maxMembers, minSize, maxBatches) ==> SortedBy(b, ByBuild)
  {
    hide SortedBy, Sort, Members, ByBuild, KeyList, LexLeq, ChunkAll;
    if !(maxMembers <= 0 || minSize <= 0 || maxBatches <= 0 || gens == []) {
      var groups := Groups(gens, keyOf);
      forall i | 0 <= i < |groups| ensures SortedBy(groups[i], ByBuild) {
        ByBuildIsTotal();
        SortSorts(Members(gens, keyOf, Sort(KeyList(gens, keyOf), LexLeq)[i]), ByBuild);
      }
      AllStaySorted(groups, ByBuild, maxMembers, if minSize > maxMembers then maxMembers else minSize, maxBatches);
    }
  }

  // ---- What is left, and in which order -----------------------------------------------------------------------

  /** Some batch holds an element of a later group, so the limit was not reached in this one. */
  ghost predicate WentOn<T(!new)>(batches: seq<seq<T>>, room: nat, later: T -> bool) {
    |batches| < room || exists b, x :: b in batches && x in b && later(x)
  }

  /** What is taken of one group is a prefix of it, and too little is left for another batch if the selection went on. */
  lemma {:induction false} GroupLeftShort<T(!new)>(groups: seq<seq<T>>, max: nat, min: nat, room: nat, p: T -> bool, later: T -> bool,
                                                   i: nat)
    requires 0 < min <= max && i < |groups|
    requires forall j, x :: 0 <= j < |groups| && x in groups[j] ==> p(x) == (j == i) && later(x) == (j > i)
    ensures var out := ChunkAll(groups, max, min, room);
            && Filter(Flatten(out), p) <= groups[i]
            && (WentOn(out, room, later) ==> |groups[i]| - |Filter(Flatten(out), p)| < min)
  {
    hide Chunks, ChunkAll, Flatten, Filter;
    ChunkAllStep(groups, max, min, room);
    var first := Chunks(groups[0], max, min, room);
    var rest := ChunkAll(groups[1..], max, min, room - |first|);
    FlattenAppend(first, rest);
    FilterAppend(Flatten(first), Flatten(rest), p);
    ChunksTakePrefix(groups[0], max, min, room);
    FlatElems(first);
    if i == 0 {
      FilterAll(Flatten(first), p);
      FlatGroups(groups[1..], max, min, room - |first|);
      FilterNone(Flatten(rest), p);
      if |first| == room { NoneWithoutRoom(groups[1..], max, min); }
    } else {
      FilterNone(Flatten(first), p);
      GroupLeftShort(groups[1..], max, min, room - |first|, p, later, i - 1);
    }
  }

  lemma {:induction false} FlatElems<T(!new)>(batches: seq<seq<T>>)
    ensures forall b, x :: b in batches && x in b ==> x in Flatten(batches)
  {
    forall b, x | b in batches && x in b ensures x in Flatten(batches) {
      PieceOfFlatten(batches, b);
      assert x in multiset(b);
    }
  }

  /** Everything selected comes out of some group. */
  lemma {:induction false} FlatGroups<T(!new)>(groups: seq<seq<T>>, max: nat, min: nat, room: nat)
    requires 0 < min <= max
    ensures forall x :: x in Flatten(ChunkAll(groups, max, min, room)) ==> exists j :: 0 <= j < |groups| && x in groups[j]
  {
    hide ChunkAll, Flatten;
    var out := ChunkAll(groups, max, min, room);
    forall x | x in Flatten(out) ensures exists j :: 0 <= j < |groups| && x in groups[j] {
      var b := BatchOf(out, x);
      ChunkAllWithinGroups(groups, max, min, room, b);
      var j :| 0 <= j < |groups| && multiset(b) <= multiset(groups[j]);
      assert x in multiset(b);
    }
  }

  lemma {:induction false} BatchOf<T(!new)>(batches: seq<seq<T>>, x: T) returns (b: seq<T>)
    requires x in Flatten(batches)
    ensures b in batches && x in b
  {
    if x in batches[0] { b := batches[0]; } else { b := BatchOf(batches[1..], x); }
  }

  lemma {:induction false} KeyHasGroup(gens: seq<Gen>, keyOf: Gen -> string, g: Gen) returns (i: nat)
    requires g in gens
    ensures i < |Groups(gens, keyOf)|
    ensures Groups(gens, keyOf)[i] == Sort(Filter(gens, x => keyOf(x) == keyOf(g)), ByBuild)
    ensures forall j, x :: 0 <= j < |Groups(gens, keyOf)| && x in Groups(gens, keyOf)[j] ==>
              (keyOf(x) == keyOf(g)) == (j == i) && KeyBefore(keyOf(g), keyOf(x)) == (j > i)
  {
    hide Sort, Members, ByBuild, KeyList, LexLeq;
    var list := KeyList(gens, keyOf);
    var keys := Sort(list, LexLeq);
    KeyListDistinct(gens, keyOf);
    PermutationOfDistinct(list, keys);
    LexIsTotalOrder();
    SortSorts(list, LexLeq);
    KeysOccur(gens, keyOf, g);
    assert keyOf(g) in multiset(keys);
    i :| 0 <= i < |keys| && keys[i] == keyOf(g);
    forall j, x | 0 <= j < |keys| && x in Groups(gens, keyOf)[j]
      ensures (keyOf(x) == keyOf(g)) == (j == i) && KeyBefore(keyOf(g), keyOf(x)) == (j > i)
    {
      assert x in multiset(Groups(gens, keyOf)[j]);
      MembersCount(gens, keyOf, keys[j], x);
    }
    MembersAreFilter(gens, keyOf, keyOf(g));
  }

  predicate KeyBefore(k: string, l: string) { k != l && LexLeq(k, l) }

  lemma {:induction false} KeysOccur(gens: seq<Gen>, keyOf: Gen -> string, g: Gen)
    requires g in gens
    ensures keyOf(g) in KeyList(gens, keyOf)
  {
    if g != gens[|gens| - 1] {
      assert gens == gens[..|gens| - 1] + [gens[|gens| - 1]];
      KeysOccur(gens[..|gens| - 1], keyOf, g);
    }
  }

  lemma {:induction false} MembersAreFilter(gens: seq<Gen>, keyOf: Gen -> string, k: string)
    ensures Members(gens, keyOf, k) == Filter(gens, g => keyOf(g) == k)
  {
    if gens != [] { MembersAreFilter(gens[..|gens| - 1], keyOf, k); }
  }

  function WithKey(gens: seq<Gen>, keyOf: Gen -> string, k: string): seq<Gen> { Filter(gens, (g: Gen) => keyOf(g) == k) }

  /**
   * Of each affinity, the first generations by job, build and id are taken; and as long as the batch limit is not reached,
   * or a later affinity is served, too few are left for another batch. In particular there is no batch at all only when
   * every affinity has fewer than the minimum.
   */
  lemma {:induction false} SelectLeavesLittle(gens: seq<Gen>, keyOf: Gen -> string, maxMembers: int, minSize: int, maxBatches: int,
                                              k: string)
    requires maxMembers > 0 && minSize > 0
    ensures var out := Select(gens, keyOf, maxMembers, minSize, maxBatches);
            var all, taken := WithKey(gens, keyOf, k), WithKey(Flatten(out), keyOf, k);
            && taken <= Sort(all, ByBuild)
            && (|out| < maxBatches || (exists b, x :: b in out && x in b && KeyBefore(k, keyOf(x))) ==>
                  |all| - |taken| < Min(minSize, maxMembers))
  {
    hide Groups, ChunkAll, Filter, Sort, ByBuild, LexLeq, Flatten;
    var out := Select(gens, keyOf, maxMembers, minSize, maxBatches);
    var p, later := (g: Gen) => keyOf(g) == k, (g: Gen) => KeyBefore(k, keyOf(g));
    if g :| g in gens && keyOf(g) == k {
      var i := KeyHasGroup(gens, keyOf, g);
      FilterSame(gens, p, x => keyOf(x) == keyOf(g));
      if maxBatches > 0 {
        GroupLeftShort(Groups(gens, keyOf), maxMembers, if minSize > maxMembers then maxMembers else minSize, maxBatches, p, later, i);
        assert WithKey(gens, keyOf, k) == Filter(gens, x => keyOf(x) == keyOf(g));
        assert |multiset(Sort(WithKey(gens, keyOf, k), ByBuild))| == |multiset(WithKey(gens, keyOf, k))|;
      } else {
        FlattenNothing<Gen>();
        FilterNone<Gen>([], p);
      }
    } else {
      FilterNone(gens, p);
      SelectShape(gens, keyOf, maxMembers, minSize, maxBatches);
      TakenOccur(Flatten(out), gens);
      FilterNone(Flatten(out), p);
    }
  }

  lemma {:induction false} FlattenNothing<T>()
    ensures Flatten<T>([]) == []
  {}

  /** By affinity, and within one affinity by job, build and id. */
  predicate InSelectOrder(keyOf: Gen -> string, a: Gen, b: Gen) {
    if keyOf(a) != keyOf(b) then LexLeq(keyOf(a), keyOf(b))
    else if a.job != b.job then LexLeq(a.job, b.job)
    else a.build < b.build || (a.build == b.build && a.id <= b.id)
  }

  lemma {:induction false} SortedJoin<T(!new)>(a: seq<T>, b: seq<T>, leq: (T, T) -> bool)
    requires SortedBy(a, leq) && SortedBy(b, leq) && forall x, y :: x in a && y in b ==> leq(x, y)
    ensures SortedBy(a + b, leq)
  {}

  lemma {:induction false} SortedParts<T(!new)>(a: seq<T>, b: seq<T>, leq: (T, T) -> bool)
    requires SortedBy(a + b, leq)
    ensures SortedBy(a, leq) && SortedBy(b, leq) && forall x, y :: x in a && y in b ==> leq(x, y)
  {
    var s := a + b;
    assert forall i :: 0 <= i < |a| ==> s[i] == a[i];
    assert forall i :: 0 <= i < |b| ==> s[|a| + i] == b[i];
    forall x, y | x in a && y in b ensures leq(x, y) {
      var i :| 0 <= i < |a| && a[i] == x;
      var j :| 0 <= j < |b| && b[j] == y;
      assert leq(s[i], s[|a| + j]);
    }
  }

  lemma {:induction false} BatchesStayInOrder<T(!new)>(groups: seq<seq<T>>, leq: (T, T) -> bool, max: nat, min: nat, room: nat)
    requires 0 < min <= max && SortedBy(Flatten(groups), leq)
    ensures SortedBy(Flatten(ChunkAll(groups, max, min, room)), leq)
  {
    hide *;
    if groups == [] {
      NoneInOrder(groups, leq, max, min, room);
    } else {
      ChunkAllStep(groups, max, min, room);
      FlattenFirst(groups);
      SortedParts(groups[0], Flatten(groups[1..]), leq);
      var first := Chunks(groups[0], max, min, room);
      var rest := ChunkAll(groups[1..], max, min, room - |first|);
      BatchesStayInOrder(groups[1..], leq, max, min, room - |first|);
      ChunksTakePrefix(groups[0], max, min, room);
      ChunkAllTakes(groups[1..], max, min, room - |first|);
      TakenOf(groups[1..], max, min, room - |first|);
      FlattenAppend(first, rest);
      PartsInOrder(Flatten(first), groups[0], Flatten(rest), Flatten(groups[1..]), leq);
    }
  }

  lemma {:induction false} NoneInOrder<T(!new)>(groups: seq<seq<T>>, leq: (T, T) -> bool, max: nat, min: nat, room: nat)
    requires 0 < min <= max && groups == []
    ensures SortedBy(Flatten(ChunkAll(groups, max, min, room)), leq)
  {}

  lemma {:induction false} TakenOf<T>(groups: seq<seq<T>>, max: nat, min: nat, room: nat)
    requires 0 < min <= max && AllTakes(groups, max, min, room)
    ensures multiset(Flatten(ChunkAll(groups, max, min, room))) <= multiset(Flatten(groups))
  {
    hide ChunkAll, Flatten;
  }

  lemma {:induction false} PartsInOrder<T(!new)>(a: seq<T>, whole: seq<T>, b: seq<T>, all: seq<T>, leq: (T, T) -> bool)
    requires a <= whole && SortedBy(whole, leq) && SortedBy(b, leq) && multiset(b) <= multiset(all)
    requires forall x, y :: x in whole && y in all ==> leq(x, y)
    ensures SortedBy(a + b, leq)
  {
    TakenOccur(b, all);
    assert forall i :: 0 <= i < |a| ==> a[i] == whole[i];
    SortedJoin(a, b, leq);
  }

  lemma {:induction false} TakenOccur<T(!new)>(taken: seq<T>, all: seq<T>)
    requires multiset(taken) <= multiset(all)
    ensures forall x :: x in taken ==> x in all
  {
    forall x | x in taken ensures x in all { assert x in multiset(taken); }
  }

  lemma {:induction false} GroupsInOrder(gens: seq<Gen>, keyOf: Gen -> string, keys: seq<string>)
    requires Distinct(keys) && SortedBy(keys, LexLeq)
    ensures SortedBy(Flatten(GroupsFor(gens, keyOf, keys)), (a, b) => InSelectOrder(keyOf, a, b))
  {
    var leq := (a: Gen, b: Gen) => InSelectOrder(keyOf, a, b);
    if keys != [] {
      var first, rest := Sort(Members(gens, keyOf, keys[0]), ByBuild), GroupsFor(gens, keyOf, keys[1..]);
      assert GroupsFor(gens, keyOf, keys)[0] == first && GroupsFor(gens, keyOf, keys)[1..] == rest;
      GroupsInOrder(gens, keyOf, keys[1..]);
      hide *;
      FlattenFirst(GroupsFor(gens, keyOf, keys));
      OneGroupInOrder(gens, keyOf, keys[0]);
      forall x, y | x in first && y in Flatten(rest) ensures leq(x, y) { FirstKeyIsBefore(gens, keyOf, keys, x, y); }
      SortedJoin(first, Flatten(rest), leq);
    }
  }

  lemma {:induction false} FirstKeyIsBefore(gens: seq<Gen>, keyOf: Gen -> string, keys: seq<string>, x: Gen, y: Gen)
    requires Distinct(keys) && SortedBy(keys, LexLeq) && keys != []
    requires x in Sort(Members(gens, keyOf, keys[0]), ByBuild) && y in Flatten(GroupsFor(gens, keyOf, keys[1..]))
    ensures InSelectOrder(keyOf, x, y)
  {
    hide Sort, Members, LexLeq, Flatten, GroupsFor, ByBuild;
    var first, rest := Sort(Members(gens, keyOf, keys[0]), ByBuild), GroupsFor(gens, keyOf, keys[1..]);
    assert x in multiset(first) && y in multiset(Flatten(rest));
    MembersCount(gens, keyOf, keys[0], x);
    GroupsCount(gens, keyOf, keys[1..], y);
    var i :| 0 <= i < |keys[1..]| && keys[1..][i] == keyOf(y);
    assert keys[i + 1] == keyOf(y);
  }

  lemma {:induction false} OneGroupInOrder(gens: seq<Gen>, keyOf: Gen -> string, k: string)
    ensures SortedBy(Sort(Members(gens, keyOf, k), ByBuild), (a, b) => InSelectOrder(keyOf, a, b))
  {
    hide Sort, Members, LexLeq;
    var group := Sort(Members(gens, keyOf, k), ByBuild);
    ByBuildIsTotal();
    SortSorts(Members(gens, keyOf, k), ByBuild);
    forall i, j | 0 <= i < j < |group| ensures InSelectOrder(keyOf, group[i], group[j]) {
      assert group[i] in multiset(group) && group[j] in multiset(group);
      MembersCount(gens, keyOf, k, group[i]);
      MembersCount(gens, keyOf, k, group[j]);
    }
  }

  /** All that is selected comes in one order: by affinity, then job, build and id. */
  lemma {:induction false} SelectInOrder(gens: seq<Gen>, keyOf: Gen -> string, maxMembers: int, minSize: int, maxBatches: int)
    ensures SortedBy(Flatten(Select(gens, keyOf, maxMembers, minSize, maxBatches)), (a, b) => InSelectOrder(keyOf, a, b))
  {
    hide Sort, KeyList, LexLeq, ChunkAll, GroupsFor, InSelectOrder;
    if maxMembers <= 0 || minSize <= 0 || maxBatches <= 0 || gens == [] {
    } else {
      var list := KeyList(gens, keyOf);
      KeyListDistinct(gens, keyOf);
      PermutationOfDistinct(list, Sort(list, LexLeq));
      LexIsTotalOrder();
      SortSorts(list, LexLeq);
      GroupsInOrder(gens, keyOf, Sort(list, LexLeq));
      BatchesStayInOrder(Groups(gens, keyOf), (a: Gen, b: Gen) => InSelectOrder(keyOf, a, b), maxMembers,
                         if minSize > maxMembers then maxMembers else minSize, maxBatches);
    }
  }

  /** A batch that is not full is the last of its affinity. */
  lemma {:induction false} ShortBatchIsLast(gens: seq<Gen>, keyOf: Gen -> string, maxMembers: int, minSize: int, maxBatches: int,
                                            i: nat, j: nat)
    requires i < j < |Select(gens, keyOf, maxMembers, minSize, maxBatches)|
    requires var out := Select(gens, keyOf, maxMembers, minSize, maxBatches);
             out[i] != [] && out[j] != [] && keyOf(out[i][0]) == keyOf(out[j][0])
    ensures |Select(gens, keyOf, maxMembers, minSize, maxBatches)[i]| == maxMembers
  {
    hide Groups, ChunkAll;
    var groups := Groups(gens, keyOf);
    forall a, b, x, y | 0 <= a < b < |groups| && x in groups[a] && y in groups[b] ensures keyOf(x) != keyOf(y) {
      GroupsApart(gens, keyOf, a, b, x, y);
    }
    FullBeforeLast(groups, maxMembers, if minSize > maxMembers then maxMembers else minSize, maxBatches, keyOf, i, j);
  }

  lemma {:induction false} GroupsApart(gens: seq<Gen>, keyOf: Gen -> string, a: nat, b: nat, x: Gen, y: Gen)
    requires a < b < |Groups(gens, keyOf)| && x in Groups(gens, keyOf)[a] && y in Groups(gens, keyOf)[b]
    ensures keyOf(x) != keyOf(y)
  {
    hide Sort, Members, ByBuild, KeyList, LexLeq;
    var list := KeyList(gens, keyOf);
    var keys := Sort(list, LexLeq);
    KeyListDistinct(gens, keyOf);
    PermutationOfDistinct(list, keys);
    assert x in multiset(Groups(gens, keyOf)[a]) && y in multiset(Groups(gens, keyOf)[b]);
    MembersCount(gens, keyOf, keys[a], x);
    MembersCount(gens, keyOf, keys[b], y);
  }

  lemma {:induction false} FullBeforeLast(groups: seq<seq<Gen>>, max: nat, min: nat, room: nat, keyOf: Gen -> string, i: nat, j: nat)
    requires 0 < min <= max && i < j < |ChunkAll(groups, max, min, room)|
    requires var out := ChunkAll(groups, max, min, room); out[i] != [] && out[j] != [] && keyOf(out[i][0]) == keyOf(out[j][0])
    requires forall a, b, x, y :: 0 <= a < b < |groups| && x in groups[a] && y in groups[b] ==> keyOf(x) != keyOf(y)
    ensures |ChunkAll(groups, max, min, room)[i]| == max
  {
    hide ChunkAll, Chunks;
    if groups == [] { NoBatches<Gen>(max, min, room); }
    ChunkAllStep(groups, max, min, room);
    var first := Chunks(groups[0], max, min, room);
    var rest := ChunkAll(groups[1..], max, min, room - |first|);
    if j < |first| {
      FullChunks(groups[0], max, min, room, i, j);
    } else if i < |first| {
      OtherKey(groups, max, min, room, keyOf, first[i], rest[j - |first|]);
    } else {
      FullBeforeLast(groups[1..], max, min, room - |first|, keyOf, i - |first|, j - |first|);
    }
  }

  lemma {:induction false} OtherKey(groups: seq<seq<Gen>>, max: nat, min: nat, room: nat, keyOf: Gen -> string, a: seq<Gen>, b: seq<Gen>)
    requires 0 < min <= max && groups != [] && |Chunks(groups[0], max, min, room)| <= room
    requires var first := Chunks(groups[0], max, min, room);
             a in first && a != [] && b in ChunkAll(groups[1..], max, min, room - |first|) && b != []
    requires forall i, j, x, y :: 0 <= i < j < |groups| && x in groups[i] && y in groups[j] ==> keyOf(x) != keyOf(y)
    ensures keyOf(a[0]) != keyOf(b[0])
  {
    hide ChunkAll, Chunks;
    var first := Chunks(groups[0], max, min, room);
    ChunkOccurs(groups[0], max, min, room, a, a[0]);
    ChunkAllWithinGroups(groups[1..], max, min, room - |first|, b);
    var j :| 0 <= j < |groups[1..]| && multiset(b) <= multiset(groups[1..][j]);
    assert b[0] in multiset(b);
    assert b[0] in groups[j + 1];
  }

  lemma {:induction false} NoBatches<T>(max: nat, min: nat, room: nat)
    requires 0 < min <= max
    ensures ChunkAll<T>([], max, min, room) == []
  {}

  lemma {:induction false} ChunkOccurs<T(!new)>(group: seq<T>, max: nat, min: nat, room: nat, b: seq<T>, x: T)
    requires 0 < min <= max && b in Chunks(group, max, min, room) && x in b
    ensures x in group
  {
    ChunksTakePrefix(group, max, min, room);
    PieceOfFlatten(Chunks(group, max, min, room), b);
    assert x in multiset(b);
    assert x in Flatten(Chunks(group, max, min, room));
  }

  lemma {:induction false} FullChunks<T>(members: seq<T>, max: nat, min: nat, room: nat, i: nat, j: nat)
    requires 0 < min <= max && i < j < |Chunks(members, max, min, room)|
    ensures |Chunks(members, max, min, room)[i]| == max
    decreases room
  {
    var n := if max > |members| then |members| else max;
    if i > 0 { FullChunks(members[n..], max, min, room - 1, i - 1, j - 1); }
  }
}
