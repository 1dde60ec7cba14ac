/** Reading the newest audit events across rotated files (internal/admin/audit_read.go). */
module AuditTail {
  import opened Prelude
  import opened Sorting
  import opened Text
  import AuditSink

  const DEFAULT_LIMIT := 50
  const MAX_LIMIT := 200
  const MAX_SUBJECT_FILTER := 128
  const MAX_ROTATED_PROBE := 32

  datatype Event = Event(kind: string, time: int, subject: string, body: string)

  /** One line of a file: blank, not an event, an event, or too long for the scanner. */
  datatype Line = Blank | Skipped | Parsed(event: Event) | TooLong

  datatype Query = Query(limit: int, kind: string, before: Option<int>, subject: string)

  /** AuditQuery.Normalize. */
  function Normalize(q: Query): (r: Query)
    ensures 1 <= r.limit <= MAX_LIMIT && (1 <= q.limit <= MAX_LIMIT ==> r.limit == q.limit)
    ensures Trimmed(r.kind) && |r.subject| <= MAX_SUBJECT_FILTER && r.before == q.before
  {
    var limit := if q.limit <= 0 then DEFAULT_LIMIT else if q.limit > MAX_LIMIT then MAX_LIMIT else q.limit;
    var subject := TrimSpace(q.subject);
    Query(limit, TrimSpace(q.kind), q.before, if |subject| > MAX_SUBJECT_FILTER then subject[..MAX_SUBJECT_FILTER] else subject)
  }

  predicate Matches(q: Query, e: Event) {
    && (q.kind != [] ==> e.kind == q.kind)
    && (q.subject != [] ==> e.subject == q.subject)
    && (q.before.Some? ==> e.time < q.before.value)
  }

  /** The matching events of some lines, in order. */
  function Matching(q: Query, lines: seq<Line>): seq<Event> {
    if lines == [] then []
    else
      var last := lines[|lines| - 1];
      Matching(q, lines[..|lines| - 1]) + if last.Parsed? && Matches(q, last.event) then [last.event] else []
  }

  function LastN<T>(s: seq<T>, n: nat): seq<T> { if |s| <= n then s else s[|s| - n..] }

  function Reversed<T>(s: seq<T>): (r: seq<T>)
    ensures |r| == |s|
  {
    seq(|s|, i requires 0 <= i < |s| => s[|s| - 1 - i])
  }

  // ---- The bounded window -----------------------------------------------------------------------------------

  /** The slice the reader keeps: a full-size array of which n are in use, oldest first. */
  class Window {
    const ring: array<Event>
    var n: nat
    var overflow: bool

    ghost predicate Valid()
      reads this
    {
      n <= ring.Length && ring.Length > 0
    }

    ghost function Contents(): seq<Event>
      requires Valid()
      reads this, ring
    {
      ring[..n]
    }

    constructor (limit: nat, filler: Event)
      requires limit > 0
      ensures Valid() && Contents() == [] && !overflow && ring.Length == limit && fresh(ring)
    {
      ring := new Event[limit](_ => filler);
      n, overflow := 0, false;
    }

    /** Append, or drop the oldest and shift when full. */
    method Push(e: Event)
      requires Valid()
      modifies this, ring
      ensures Valid()
      ensures Contents() == LastN(old(Contents()) + [e], ring.Length)
      ensures overflow == (old(overflow) || old(n) == ring.Length)
    {
      if n < ring.Length {
        ring[n] := e;
        n := n + 1;
        return;
      }
      ghost var was := ring[..];
      for i := 0 to n - 1
        invariant n == old(n) == ring.Length
        invariant forall k :: 0 <= k < i ==> ring[k] == was[k + 1]
        invariant forall k :: i <= k < n ==> ring[k] == was[k]
      {
        ring[i] := ring[i + 1];
      }
      ring[n - 1] := e;
      overflow := true;
    }

    /** Newest first. */
    method Reverse()
      requires Valid()
      modifies ring
      ensures Valid() && Contents() == Reversed(old(Contents()))
    {
      ghost var was := ring[..n];
      hide Reversed, SwappedTo;
      NothingSwapped(was);
      var i, j := 0, n - 1;
      while i < j
        invariant 0 <= i <= n && j == n - 1 - i && SwappedTo(ring[..n], was, i)
      {
        SwapOne(ring[..n], was, i);
        ghost var before := ring[..n];
        ring[i], ring[j] := ring[j], ring[i];
        assert ring[..n] == before[i := before[j]][j := before[i]];
        i, j := i + 1, j - 1;
      }
      AllSwapped(ring[..n], was, i);
    }
  }

  /** The first i elements have changed places with the last i. */
  ghost predicate SwappedTo<T>(now: seq<T>, was: seq<T>, i: nat) {
    && |now| == |was|
    && (forall k :: 0 <= k < |was| && (k < i || |was| - i <= k) ==> now[k] == was[|was| - 1 - k])
    && (forall k :: i <= k < |was| - i ==> now[k] == was[k])
  }

  lemma {:induction false} NothingSwapped<T>(was: seq<T>)
    ensures SwappedTo(was, was, 0)
  {}

  lemma {:induction false} SwapOne<T>(now: seq<T>, was: seq<T>, i: nat)
    requires SwappedTo(now, was, i) && i < |was| - 1 - i
    ensures SwappedTo(now[i := now[|was| - 1 - i]][|was| - 1 - i := now[i]], was, i + 1)
  {
    var j := |was| - 1 - i;
    var next := now[i := now[j]][j := now[i]];
    assert next[i] == was[j] && next[j] == was[i];
    forall k | 0 <= k < |was| && k != i && k != j ensures next[k] == now[k] {}
  }

  lemma {:induction false} AllSwapped<T>(now: seq<T>, was: seq<T>, i: nat)
    requires SwappedTo(now, was, i) && i >= |was| - 1 - i
    ensures now == Reversed(was)
  {
    forall k | 0 <= k < |was| ensures now[k] == was[|was| - 1 - k] {}
    IsReversed(now, was);
  }

  lemma {:induction false} IsReversed<T>(now: seq<T>, was: seq<T>)
    requires |now| == |was| && forall k :: 0 <= k < |was| ==> now[k] == was[|was| - 1 - k]
    ensures now == Reversed(was)
  {}

  /** The window holds the newest of all, and knows whether that is not everything. */
  ghost predicate Keeps(contents: seq<Event>, overflow: bool, all: seq<Event>, limit: nat) {
    contents == LastN(all, limit) && overflow == (|all| > limit)
  }

  lemma {:induction false} PushKeeps(contents: seq<Event>, overflow: bool, all: seq<Event>, limit: nat, e: Event)
    requires limit > 0 && Keeps(contents, overflow, all, limit)
    ensures Keeps(LastN(contents + [e], limit), overflow || |contents| == limit, all + [e], limit)
  {
    LastNSnoc(all, e, limit);
  }

  lemma {:induction false} LastNSnoc<T>(s: seq<T>, x: T, n: nat)
    requires n > 0
    ensures LastN(LastN(s, n) + [x], n) == LastN(s + [x], n)
  {}

  /** appendAuditFileMatches: false when a line is too long. */
  method AppendMatches(w: Window, q: Query, lines: seq<Line>, ghost seen: seq<Event>) returns (ok: bool)
    requires w.Valid() && Keeps(w.Contents(), w.overflow, seen, w.ring.Length)
    modifies w, w.ring
    ensures ok <==> TooLong !in lines
    ensures w.Valid() && (ok ==> Keeps(w.Contents(), w.overflow, seen + Matching(q, lines), w.ring.Length))
  {
    hide Keeps, LastN, Matching;
    NoneMatching(q, lines, seen);
    for i := 0 to |lines|
      invariant w.Valid() && TooLong !in lines[..i]
      invariant Keeps(w.Contents(), w.overflow, seen + Matching(q, lines[..i]), w.ring.Length)
    {
      MatchingStep(q, lines, i, seen);
      var line := lines[i];
      if line.TooLong? {
        assert lines[i] in lines;
        return false;
      }
      if !line.Parsed? { continue; }
      var e := line.event;
      if q.kind != [] && e.kind != q.kind { continue; }
      if q.subject != [] && e.subject != q.subject { continue; }
      if q.before.Some? && !(e.time < q.before.value) { continue; }
      PushKeeps(w.Contents(), w.overflow, seen + Matching(q, lines[..i]), w.ring.Length, e);
      w.Push(e);
    }
    assert lines[..|lines|] == lines;
    return true;
  }

  lemma {:induction false} NoneMatching(q: Query, lines: seq<Line>, seen: seq<Event>)
    ensures seen + Matching(q, lines[..0]) == seen && TooLong !in lines[..0]
  {}

  lemma {:induction false} MatchingStep(q: Query, lines: seq<Line>, i: nat, seen: seq<Event>)
    requires i < |lines|
    ensures lines[i].Parsed? && Matches(q, lines[i].event) ==>
              seen + Matching(q, lines[..i + 1]) == seen + Matching(q, lines[..i]) + [lines[i].event]
    ensures !(lines[i].Parsed? && Matches(q, lines[i].event)) ==> Matching(q, lines[..i + 1]) == Matching(q, lines[..i])
    ensures TooLong in lines[..i + 1] <==> TooLong in lines[..i] || lines[i].TooLong?
  {
    assert lines[..i + 1][..i] == lines[..i];
    assert lines[..i + 1] == lines[..i] + [lines[i]];
  }

  datatype Page = Page(events: seq<Event>, truncated: bool)

  /** A file to read: absent files are skipped, unreadable ones fail the read. */
  datatype Source = Absent | Unreadable | Lines(lines: seq<Line>)

  predicate Readable(s: Source) { !s.Unreadable? && (s.Lines? ==> TooLong !in s.lines) }

  function AllMatching(q: Query, sources: seq<Source>): seq<Event> {
    if sources == [] then []
    else
      var last := sources[|sources| - 1];
      AllMatching(q, sources[..|sources| - 1]) + if last.Lines? then Matching(q, last.lines) else []
  }

  // ---- Which files are read, and in which order ---------------------------------------------------------

  /** A directory entry after the file name prefix: its number when it has one, its time when it looks like a stamp. */
  datatype Entry = Entry(name: string, number: Option<int>, stamp: Option<int>)

  predicate IsNumbered(e: Entry) { e.number.Some? && 1 <= e.number.value <= MAX_ROTATED_PROBE }

  predicate IsStamped(e: Entry) { !IsNumbered(e) && e.stamp.Some? }

  /** Higher numbers are older. */
  predicate OlderNumber(a: Entry, b: Entry) {
    (if b.number.Some? then b.number.value else 0) <= (if a.number.Some? then a.number.value else 0)
  }

  predicate OlderStamp(a: Entry, b: Entry) {
    var s, t := if a.stamp.Some? then a.stamp.value else 0, if b.stamp.Some? then b.stamp.value else 0;
    s < t || (s == t && LexLeq(a.name, b.name))
  }

  /** Stamped siblings by time, numbered ones by number downwards, then the active file. */
  function ReadOrder(entries: seq<Entry>, active: Entry, activeExists: bool): seq<Entry> {
    var stamped, nums := Filter(entries, IsStamped), Filter(entries, IsNumbered);
    Sort(stamped, OlderStamp) + Sort(nums, OlderNumber) + if activeExists || stamped + nums == [] then [active] else []
  }

  lemma {:induction false} Classified(e: Entry)
    ensures IsNumbered(e) <==> e.number.Some? && e.number.value >= 1 && e.number.value <= MAX_ROTATED_PROBE
    ensures IsStamped(e) <==> !IsNumbered(e) && e.stamp.Some?
  {}

  method ListAuditReadPaths(entries: seq<Entry>, active: Entry, activeExists: bool) returns (out: seq<Entry>)
    ensures out == ReadOrder(entries, active, activeExists)
  {
    hide OlderStamp, OlderNumber, IsNumbered, IsStamped, Sort;
    var nums, stamped := [], [];
    for i := 0 to |entries|
      invariant nums == Filter(entries[..i], IsNumbered) && stamped == Filter(entries[..i], IsStamped)
    {
      FilterTake(entries, IsNumbered, i);
      FilterTake(entries, IsStamped, i);
      var e := entries[i];
      Classified(e);
      if e.number.Some? && e.number.value >= 1 && e.number.value <= MAX_ROTATED_PROBE {
        nums := nums + [e];
        continue;
      }
      if e.stamp.Some? { stamped := stamped + [e]; }
    }
    assert entries[..|entries|] == entries;
    SameLength(stamped, nums);
    out := Sort(stamped, OlderStamp) + Sort(nums, OlderNumber);
    if activeExists || |out| == 0 { out := out + [active]; }
  }

  /** What opening the listed files gives, in order. */
  function OpenedAll(open: Entry -> Source, paths: seq<Entry>): seq<Source> {
    seq(|paths|, i requires 0 <= i < |paths| => open(paths[i]))
  }

  /** The newest matches first, at most the limit of them, and whether there are more. */
  function PageOf(all: seq<Event>, limit: nat): Page { Page(Reversed(LastN(all, limit)), |all| > limit) }

  /**
   * ReadAuditFile: fails exactly when some listed file cannot be read; else the page of all matches in reading order.
   */
  method ReadAuditFile(entries: seq<Entry>, active: Entry, activeExists: bool, open: Entry -> Source, query: Query)
    returns (r: Option<Page>)
    ensures var sources := OpenedAll(open, ReadOrder(entries, active, activeExists));
            && (r.Some? <==> forall i :: 0 <= i < |sources| ==> Readable(sources[i]))
            && (r.Some? ==> r.value == PageOf(AllMatching(Normalize(query), sources), Normalize(query).limit))
  {
    hide ReadOrder, AllMatching, Keeps, LastN, Reversed;
    var q := Normalize(query);
    hide Normalize;
    var w := new Window(q.limit, Event("", 0, "", ""));
    var paths := ListAuditReadPaths(entries, active, activeExists);
    ghost var sources := OpenedAll(open, paths);
    NoneRead(q, q.limit);
    assert sources[..0] == [];
    for i := 0 to |paths|
      invariant w.Valid() && w.ring.Length == q.limit && fresh(w) && fresh(w.ring)
      invariant Keeps(w.Contents(), w.overflow, AllMatching(q, sources[..i]), q.limit)
      invariant forall k :: 0 <= k < i ==> Readable(sources[k])
    {
      ReadStep(q, sources, i);
      var source := open(paths[i]);
      assert source == sources[i];
      if source.Unreadable? { return None; }
      if source.Absent? { continue; }
      var ok := AppendMatches(w, q, source.lines, AllMatching(q, sources[..i]));
      if !ok { return None; }
    }
    assert sources[..|sources|] == sources;
    KeptIsPage(w.Contents(), w.overflow, AllMatching(q, sources), q.limit);
    if w.n == 0 {
      return Some(Page([], false));
    }
    w.Reverse();
    return Some(Page(w.ring[..w.n], w.overflow));
  }

  lemma {:induction false} NoneRead(q: Query, limit: nat)
    ensures Keeps([], false, AllMatching(q, []), limit)
  {}

  lemma {:induction false} ReadStep(q: Query, sources: seq<Source>, i: nat)
    requires i < |sources|
    ensures AllMatching(q, sources[..i + 1])
         == if sources[i].Lines? then AllMatching(q, sources[..i]) + Matching(q, sources[i].lines) else AllMatching(q, sources[..i])
  {
    assert sources[..i + 1][..i] == sources[..i];
  }

  lemma {:induction false} KeptIsPage(contents: seq<Event>, overflow: bool, all: seq<Event>, limit: nat)
    requires Keeps(contents, overflow, all, limit) && limit > 0
    ensures PageOf(all, limit) == Page(Reversed(contents), overflow)
    ensures contents == [] ==> PageOf(all, limit) == Page([], false)
  {
    assert Reversed<Event>([]) == [];
  }

  // ---- Reading what the sink wrote --------------------------------------------------------------------------

  /** Events come back from their lines as they were written. */
  function AsLines(events: seq<Event>): seq<Line> {
    seq(|events|, i requires 0 <= i < |events| => Parsed(events[i]))
  }

  function Matched(q: Query, events: seq<Event>): seq<Event> { Matching(q, AsLines(events)) }

  lemma {:induction false} MatchingAppend(q: Query, a: seq<Line>, b: seq<Line>)
    ensures Matching(q, a + b) == Matching(q, a) + Matching(q, b)
  {
    if b == [] {
      assert a + b == a;
    } else {
      assert (a + b)[..|a + b| - 1] == a + b[..|b| - 1];
      MatchingAppend(q, a, b[..|b| - 1]);
    }
  }

  lemma {:induction false} MatchedAppend(q: Query, a: seq<Event>, b: seq<Event>)
    ensures Matched(q, a + b) == Matched(q, a) + Matched(q, b)
  {
    assert AsLines(a + b) == AsLines(a) + AsLines(b);
    MatchingAppend(q, AsLines(a), AsLines(b));
  }

  lemma {:induction false} NothingMatched(q: Query)
    ensures Matched(q, []) == []
  {}

  /** The retained files, read in descending order of their numbers and then the active one. */
  function Sources(files: map<nat, seq<Event>>, numbers: seq<nat>): seq<Source> {
    seq(|numbers|, i requires 0 <= i < |numbers| =>
          if numbers[i] in files then Lines(AsLines(files[numbers[i]])) else Absent)
  }

  function Retained(files: map<nat, seq<Event>>, numbers: seq<nat>): seq<Event> {
    if numbers == [] then []
    else
      var last := numbers[|numbers| - 1];
      Retained(files, numbers[..|numbers| - 1]) + if last in files then files[last] else []
  }

  lemma {:induction false} SourcesMatch(q: Query, files: map<nat, seq<Event>>, numbers: seq<nat>)
    ensures AllMatching(q, Sources(files, numbers)) == Matched(q, Retained(files, numbers))
    ensures forall i :: 0 <= i < |Sources(files, numbers)| ==> Readable(Sources(files, numbers)[i])
  {
    hide Matching;
    if numbers == [] {
      NothingMatched(q);
    } else {
      var front, last := numbers[..|numbers| - 1], numbers[|numbers| - 1];
      SourcesMatch(q, files, front);
      assert Sources(files, numbers)[..|numbers| - 1] == Sources(files, front);
      if last in files { MatchedAppend(q, Retained(files, front), files[last]); }
      else { assert Retained(files, numbers) == Retained(files, front); }
    }
  }

  /** numbers goes strictly down and misses no file from 1 to n. */
  ghost predicate Descends(numbers: seq<nat>, files: map<nat, seq<Event>>, n: nat) {
    && (forall i, j :: 0 <= i < j < |numbers| ==> numbers[i] > numbers[j])
    && (forall i :: 0 <= i < |numbers| ==> 1 <= numbers[i] <= n)
    && (forall k :: 1 <= k <= n && k in files ==> k in numbers)
  }

  lemma {:induction false} RetainedCons(files: map<nat, seq<Event>>, first: nat, rest: seq<nat>)
    ensures Retained(files, [first] + rest) == (if first in files then files[first] else []) + Retained(files, rest)
  {
    if rest == [] {
      assert [first] + rest == [first];
      assert Retained(files, []) == [];
    } else {
      assert ([first] + rest)[..|rest|] == [first] + rest[..|rest| - 1];
      RetainedCons(files, first, rest[..|rest| - 1]);
    }
  }

  lemma {:induction false} DescendsFrom(numbers: seq<nat>, files: map<nat, seq<Event>>, n: nat)
    requires Descends(numbers, files, n)
    ensures numbers != [] && numbers[0] == n ==> n > 0 && Descends(numbers[1..], files, n - 1)
    ensures !(numbers != [] && numbers[0] == n) && n > 0 ==> n !in files && Descends(numbers, files, n - 1)
    ensures !(numbers != [] && numbers[0] == n) && n == 0 ==> numbers == []
  {
    if numbers != [] && numbers[0] == n {
      forall k | 1 <= k <= n - 1 && k in files ensures k in numbers[1..] { assert k in numbers; }
    } else {
      assert n in files && n > 0 ==> n in numbers;
    }
  }

  lemma {:induction false} NothingRetained(files: map<nat, seq<Event>>)
    ensures Retained(files, []) == []
  {}

  /** That order is the order in which the sink's files follow each other. */
  lemma {:induction false} DescendingIsConcat(files: map<nat, seq<Event>>, numbers: seq<nat>, n: nat)
    requires Descends(numbers, files, n)
    ensures Retained(files, numbers + [0]) == AuditSink.Concat(files, n)
    decreases n
  {
    hide Descends, Retained, AuditSink.Concat;
    DescendsFrom(numbers, files, n);
    AuditSink.ConcatStep(files, n);
    if numbers != [] && numbers[0] == n {
      DescendingIsConcat(files, numbers[1..], n - 1);
      assert numbers + [0] == [n] + (numbers[1..] + [0]);
      RetainedCons(files, n, numbers[1..] + [0]);
    } else if n == 0 {
      assert numbers + [0] == [0] + [];
      RetainedCons(files, 0, []);
      NothingRetained(files);
    } else {
      DescendingIsConcat(files, numbers, n - 1);
    }
  }

  function NumberOf(e: Entry): nat { if IsNumbered(e) then e.number.value else 0 }

  function NumbersOf(es: seq<Entry>): seq<nat> {
    seq(|es|, i requires 0 <= i < |es| => NumberOf(es[i]))
  }

  /** The reading order of the numbered entries: each of them once, in order. */
  lemma {:induction false} NumberedInOrder(entries: seq<Entry>)
    requires Distinct(entries)
    ensures var es := Sort(Filter(entries, IsNumbered), OlderNumber);
            && Distinct(es) && SortedBy(es, OlderNumber)
            && forall e :: e in es <==> e in entries && IsNumbered(e)
  {
    hide IsNumbered;
    var picked := Filter(entries, IsNumbered);
    var es := Sort(picked, OlderNumber);
    FilterDistinct(entries, IsNumbered);
    PermutationOfDistinct(picked, es);
    SortSorts(picked, OlderNumber);
    forall e ensures e in es <==> e in picked { assert e in multiset(es) <==> e in multiset(picked); }
  }

  /** No number twice among the entries, none past max, and every file of the sink among them. */
  ghost predicate Lists(entries: seq<Entry>, files: map<nat, seq<Event>>, max: nat) {
    && (forall x, y :: x in entries && y in entries && IsNumbered(x) && NumberOf(x) == NumberOf(y) ==> x == y)
    && (forall e :: e in entries ==> NumberOf(e) <= max)
    && (forall k :: 1 <= k <= max && k in files ==> exists e :: e in entries && NumberOf(e) == k)
  }

  /** The numbered part of the reading order descends through all files of the sink, when the listing shows them. */
  lemma {:induction false} ListedDescends(entries: seq<Entry>, files: map<nat, seq<Event>>, max: nat)
    requires Distinct(entries) && Lists(entries, files, max)
    ensures Descends(NumbersOf(Sort(Filter(entries, IsNumbered), OlderNumber)), files, max)
  {
    hide Sort, Filter;
    NumberedInOrder(entries);
    var es := Sort(Filter(entries, IsNumbered), OlderNumber);
    forall i, j | 0 <= i < j < |es| ensures NumberOf(es[i]) > NumberOf(es[j]) {
      assert OlderNumber(es[i], es[j]) && es[i] in es && es[j] in es;
    }
    forall k | 1 <= k <= max && k in files ensures k in NumbersOf(es) {
      var e :| e in entries && NumberOf(e) == k;
      assert e in es;
      var i :| 0 <= i < |es| && es[i] == e;
      assert NumbersOf(es)[i] == k;
    }
    forall i | 0 <= i < |es| ensures 1 <= NumberOf(es[i]) <= max { assert es[i] in es; }
  }

  lemma {:induction false} LastOfAppend<T>(a: seq<T>, b: seq<T>, n: nat)
    requires |b| >= n
    ensures LastN(a + b, n) == LastN(b, n)
  {
    assert (a + b)[|a + b| - n..] == b[|b| - n..];
  }

  /** When a suffix of the log already has enough matches, its newest matches are those of the whole log. */
  lemma {:induction false} NewestOfLog(q: Query, kept: seq<Event>, log: seq<Event>, limit: nat)
    requires AuditSink.IsSuffix(kept, log) && |Matched(q, kept)| >= limit
    ensures LastN(Matched(q, kept), limit) == LastN(Matched(q, log), limit)
  {
    var lost := log[..|log| - |kept|];
    assert log == lost + kept;
    MatchedAppend(q, lost, kept);
    LastOfAppend(Matched(q, lost), Matched(q, kept), limit);
  }

  /** A file of the sink by its directory entry. */
  function OpenIn(files: map<nat, seq<Event>>): Entry -> Source {
    e => if NumberOf(e) in files then Lines(AsLines(files[NumberOf(e)])) else Absent
  }

  /** A directory with the sink's files only: its numbered entries, none stamped, and the active file. */
  ghost predicate ShowsSink(entries: seq<Entry>, active: Entry, activeExists: bool, files: map<nat, seq<Event>>, max: nat) {
    && Distinct(entries) && Lists(entries, files, max) && (forall e :: e in entries ==> !IsStamped(e))
    && !IsNumbered(active) && (activeExists <==> 0 in files)
  }

  lemma {:induction false} NoneStamped(entries: seq<Entry>)
    requires forall e :: e in entries ==> !IsStamped(e)
    ensures Sort(Filter(entries, IsStamped), OlderStamp) == []
  {
    if entries != [] { NoneStamped(entries[..|entries| - 1]); }
  }

  /** What is read through the listing is what the sink's files hold, in append order. */
  lemma {:induction false} ListingReadsAll(entries: seq<Entry>, active: Entry, activeExists: bool, files: map<nat, seq<Event>>,
                                           max: nat, q: Query)
    requires ShowsSink(entries, active, activeExists, files, max)
    ensures var sources := OpenedAll(OpenIn(files), ReadOrder(entries, active, activeExists));
            && AllMatching(q, sources) == Matched(q, AuditSink.Concat(files, max))
            && forall i :: 0 <= i < |sources| ==> Readable(sources[i])
  {
    hide Sort, Filter, AllMatching, Matched, AuditSink.Concat, Retained, Descends, Lists, AsLines;
    NoneStamped(entries);
    ListedDescends(entries, files, max);
    var es := Sort(Filter(entries, IsNumbered), OlderNumber);
    var order := ReadOrder(entries, active, activeExists);
    var numbers := NumbersOf(es);
    DescendingIsConcat(files, numbers, max);
    SameLength(Filter(entries, IsStamped), Filter(entries, IsNumbered));
    assert order == es || order == es + [active];
    OpenedIsSources(files, order);
    SourcesMatch(q, files, NumbersOf(order));
    assert NumbersOf(es + [active]) == numbers + [0];
    if order == es {
      WithoutActive(files, numbers);
    }
  }

  lemma {:induction false} SameLength(stamped: seq<Entry>, nums: seq<Entry>)
    ensures |Sort(stamped, OlderStamp)| == |stamped| && |Sort(nums, OlderNumber)| == |nums|
  {
    hide Sort, OlderStamp, OlderNumber;
    assert |multiset(Sort(stamped, OlderStamp))| == |multiset(stamped)|;
    assert |multiset(Sort(nums, OlderNumber))| == |multiset(nums)|;
  }

  lemma {:induction false} OpenedIsSources(files: map<nat, seq<Event>>, order: seq<Entry>)
    ensures OpenedAll(OpenIn(files), order) == Sources(files, NumbersOf(order))
  {
    hide AsLines;
  }

  lemma {:induction false} WithoutActive(files: map<nat, seq<Event>>, numbers: seq<nat>)
    requires 0 !in files
    ensures Retained(files, numbers + [0]) == Retained(files, numbers)
  {
    assert (numbers + [0])[..|numbers|] == numbers;
  }

  /**
   * From the sink to the page. After any run of emits, rotations, disk faults and restarts of a sink that keeps at most
   * 32 files, listing its directory and reading what is listed gives the newest matches among the retained events, newest
   * first, marked truncated exactly when there are more. The retained events are a suffix of the log, so the page holds
   * the newest matches of the log itself whenever they fill it.
   */
  lemma {:induction false} PageOfRun(start: AuditSink.Dir<Event>, ops: seq<AuditSink.Op<Event>>, max: nat, maxBytes: int,
                                     sizeOf: seq<Event> -> nat, entries: seq<Entry>, active: Entry, activeExists: bool,
                                     query: Query)
    requires 0 < max <= MAX_ROTATED_PROBE && AuditSink.Valid(start, max)
    requires var (d, _) := AuditSink.Run(start, AuditSink.Concat(start.files, max), ops, max, maxBytes, sizeOf);
             ShowsSink(entries, active, activeExists, d.files, max)
    ensures var (d, log) := AuditSink.Run(start, AuditSink.Concat(start.files, max), ops, max, maxBytes, sizeOf);
            var q := Normalize(query);
            var kept := AuditSink.Concat(d.files, max);
            var sources := OpenedAll(OpenIn(d.files), ReadOrder(entries, active, activeExists));
            && (forall i :: 0 <= i < |sources| ==> Readable(sources[i]))
            && PageOf(AllMatching(q, sources), q.limit) == PageOf(Matched(q, kept), q.limit)
            && AuditSink.IsSuffix(kept, log)
            && (|Matched(q, kept)| >= q.limit ==>
                  PageOf(Matched(q, kept), q.limit).events == PageOf(Matched(q, log), q.limit).events)
  {
    hide AuditSink.Run, AuditSink.Concat, AuditSink.IsSuffix, AuditSink.Valid, Normalize, LastN, Matched, AllMatching, ShowsSink,
         ReadOrder, OpenIn;
    AuditSink.WholeSuffix(AuditSink.Concat(start.files, max));
    AuditSink.RunKeepsSuffix(start, AuditSink.Concat(start.files, max), ops, max, maxBytes, sizeOf);
    var (d, log) := AuditSink.Run(start, AuditSink.Concat(start.files, max), ops, max, maxBytes, sizeOf);
    var q := Normalize(query);
    var kept := AuditSink.Concat(d.files, max);
    ListingReadsAll(entries, active, activeExists, d.files, max, q);
    if |Matched(q, kept)| >= q.limit { NewestOfLog(q, kept, log, q.limit); }
  }

  // ---- The parts of a page spelled out --------------------------------------------------------------------------

  /** The limit is 50 by default and 200 at most; filters are trimmed and the subject cut to 128 characters. */
  lemma {:induction false} NormalizeMeans(q: Query)
    ensures var r := Normalize(q);
            && (q.limit < 1 ==> r.limit == 50) && (q.limit > 200 ==> r.limit == 200) && (1 <= q.limit <= 200 ==> r.limit == q.limit)
            && r.kind == TrimSpace(q.kind) && r.before == q.before
            && r.subject <= TrimSpace(q.subject) && (|TrimSpace(q.subject)| > 128 ==> |r.subject| == 128)
            && (|TrimSpace(q.subject)| <= 128 ==> r.subject == TrimSpace(q.subject))
  {
    hide TrimSpace;
  }

  /** Every parsed event is kept as often as it occurs if it is of the kind and the subject asked for and earlier than the time. */
  lemma {:induction false} MatchingCounts(q: Query, lines: seq<Line>, e: Event)
    ensures var wanted := q.kind in {"", e.kind} && q.subject in {"", e.subject} && (q.before.None? || q.before.value > e.time);
            multiset(Matching(q, lines))[e] == if wanted then multiset(lines)[Parsed(e)] else 0
  {
    hide *;
    WantedIff(q, e);
    MatchesCount(q, lines, e);
  }

  lemma {:induction false} MatchesCount(q: Query, lines: seq<Line>, e: Event)
    ensures multiset(Matching(q, lines))[e] == if Matches(q, e) then multiset(lines)[Parsed(e)] else 0
  {
    hide Matches;
    if lines != [] {
      var front, last := lines[..|lines| - 1], lines[|lines| - 1];
      MatchesCount(q, front, e);
      assert lines == front + [last];
    }
  }

  lemma {:induction false} WantedIff(q: Query, e: Event)
    ensures Matches(q, e) <==> q.kind in {"", e.kind} && q.subject in {"", e.subject} && (q.before.None? || q.before.value > e.time)
  {}

  /** A page is the end of the matches backwards, and says whether there are more. */
  lemma {:induction false} PageIs(all: seq<Event>, limit: nat)
    ensures var p := PageOf(all, limit);
            && |p.events| == Min(limit, |all|) && (p.truncated <==> limit < |all|)
            && forall i :: 0 <= i < |p.events| ==> p.events[i] == all[|all| - 1 - i]
  {
    var last := LastN(all, limit);
    forall i | 0 <= i < |last| ensures Reversed(last)[i] == all[|all| - 1 - i] {
      assert Reversed(last)[i] == last[|last| - 1 - i];
    }
  }

  /** A read fails at a file that cannot be opened and at a line that is too long; an absent file is skipped. */
  lemma {:induction false} ReadableIff(s: Source)
    ensures !Readable(s) <==> s == Unreadable || exists lines :: s == Lines(lines) && TooLong in lines
  {
    if s.Lines? && TooLong in s.lines { assert s == Lines(s.lines); }
  }

  predicate Numbered(e: Entry) { match e.number case Some(n) => n > 0 && n < 33 case None => false }

  /** The files with a stamp by time and then name, those with a number from 1 to 32 downwards, and the active file last. */
  lemma {:induction false} ReadOrderIs(entries: seq<Entry>, active: Entry, activeExists: bool)
    returns (dated: seq<Entry>, nums: seq<Entry>)
    ensures ReadOrder(entries, active, activeExists) == dated + nums + if activeExists || |dated| + |nums| == 0 then [active] else []
    ensures forall e: Entry :: multiset(dated)[e] == if e.stamp.Some? && !Numbered(e) then multiset(entries)[e] else 0
    ensures forall e: Entry :: multiset(nums)[e] == if Numbered(e) then multiset(entries)[e] else 0
    ensures forall i, j :: 0 <= i < j < |dated| ==> StampedBefore(dated[i], dated[j])
    ensures forall i, j :: 0 <= i < j < |nums| ==> NumberedBefore(nums[i], nums[j])
  {
    hide Sort, Filter, LexLeq;
    var stamped, numbered := Filter(entries, IsStamped), Filter(entries, IsNumbered);
    dated, nums := Sort(stamped, OlderStamp), Sort(numbered, OlderNumber);
    SameLength(stamped, numbered);
    OlderIsTotal();
    SortSorts(stamped, OlderStamp);
    SortSorts(numbered, OlderNumber);
    forall e: Entry ensures multiset(stamped)[e] == if e.stamp.Some? && !Numbered(e) then multiset(entries)[e] else 0 {
      FilterCount(entries, IsStamped, e);
    }
    forall e: Entry ensures multiset(numbered)[e] == if Numbered(e) then multiset(entries)[e] else 0 {
      FilterCount(entries, IsNumbered, e);
    }
    forall i, j | 0 <= i < j < |dated| ensures StampedBefore(dated[i], dated[j]) {
      assert dated[i] in multiset(dated) && dated[j] in multiset(dated);
    }
    forall i, j | 0 <= i < j < |nums| ensures NumberedBefore(nums[i], nums[j]) {
      assert nums[i] in multiset(nums) && nums[j] in multiset(nums);
    }
  }

  predicate StampedBefore(a: Entry, b: Entry) {
    match (a.stamp, b.stamp)
    case (Some(s), Some(t)) => s <= t && (t <= s ==> LexLeq(a.name, b.name))
    case _ => false
  }

  predicate NumberedBefore(a: Entry, b: Entry) {
    match (a.number, b.number)
    case (Some(m), Some(n)) => m >= n
    case _ => false
  }

  lemma {:induction false} OlderIsTotal()
    ensures TotalPreorder(OlderStamp) && TotalPreorder(OlderNumber)
  {
    hide LexLeq;
    LexIsTotalOrder();
  }
}
