/** Names in the quarantine directory (internal/archive/lifecycle.go). */
module Quarantine {
  import opened Prelude
  import opened Text

  const SUFFIX := ".tar.zst"
  const MAX_TRIES := 1000

  function Digit(d: nat): char
    requires d < 10
  {
    "0123456789"[d]
  }

  function Itoa(n: nat): (s: string)
    ensures |s| > 0 && (forall c :: c in s ==> '0' <= c <= '9')
    ensures n < 10 ==> |s| == 1
    ensures n < 100 ==> |s| <= 2
    ensures n < 1000 ==> |s| <= 3
    ensures n < 10000 ==> |s| <= 4
  {
    if n < 10 then [Digit(n)] else Itoa(n / 10) + [Digit(n % 10)]
  }

  /** strings.Cut(s, "-") keeps what stands before the first dash. */
  function FirstSegment(s: string): (r: string)
    ensures r <= s && '-' !in r
    ensures r == s || s[|r|] == '-'
  {
    if s == [] || s[0] == '-' then [] else [s[0]] + FirstSegment(s[1..])
  }

  /** YYYYMMDDTHHMMSSZ. */
  predicate Stamp(base: string) {
    && |base| == 16 && base[8] == 'T' && base[15] == 'Z'
    && forall i :: 0 <= i < 15 && i != 8 ==> '0' <= base[i] <= '9'
  }

  /** quarantineStampShape. */
  predicate StampShape(mid: string) {
    Stamp(FirstSegment(mid))
  }

  /** What follows the id in a quarantined pack's name. */
  function Tag(stamp: string, n: nat): string {
    stamp + if n == 0 then "" else "-" + Itoa(n)
  }

  function NameOf(id: string, stamp: string, n: nat): string {
    id + "-" + Tag(stamp, n) + SUFFIX
  }

  /** One quarantined pack file. */
  datatype Placed = Placed(id: string, stamp: string, n: nat)

  predicate WellPlaced(p: Placed) {
    Stamp(p.stamp) && p.n <= MAX_TRIES
  }

  function Name(p: Placed): string { NameOf(p.id, p.stamp, p.n) }

  /** Whether one directory entry counts as packID's; the slice in the middle never runs backwards. */
  predicate Counts(name: string, packID: string) {
    HasPrefix(name, packID + "-") && HasSuffix(name, SUFFIX) &&
    (MiddleInRange(name, packID);
     StampShape(name[|packID| + 1..|name| - |SUFFIX|]))
  }

  lemma {:induction false} MiddleInRange(name: string, packID: string)
    requires HasPrefix(name, packID + "-") && HasSuffix(name, SUFFIX)
    ensures |packID| + 1 <= |name| - |SUFFIX|
  {
    assert (packID + "-")[|packID|] == '-' == name[|packID|];
    var cut := |name| - |SUFFIX|;
    forall i | cut <= i < |name| ensures name[i] != '-' {
      assert name[cut..][i - cut] == SUFFIX[i - cut];
    }
  }

  /** IsQuarantined, over the names found in the directory. */
  method IsQuarantined(entries: seq<string>, packID: string) returns (found: bool)
    ensures found <==> TrimSpace(packID) != [] && exists i :: 0 <= i < |entries| && Counts(entries[i], TrimSpace(packID))
  {
    hide StampShape, TrimSpace;
    var id := TrimSpace(packID);
    if id == [] { return false; }
    var prefix := id + "-";
    for k := 0 to |entries|
      invariant forall i :: 0 <= i < k ==> !Counts(entries[i], id)
    {
      var name := entries[k];
      if HasPrefix(name, prefix) && HasSuffix(name, SUFFIX) {
        MiddleInRange(name, id);
        var mid := name[|prefix|..|name| - |SUFFIX|];
        if StampShape(mid) { return true; }
      }
    }
    return false;
  }

  /** A pack q put in quarantine also counts for p when p is q cut before a stamp-shaped segment. */
  predicate CountsFor(q: string, p: string) {
    q == p || (p + "-" <= q && StampShape(q[|p| + 1..]))
  }

  lemma {:induction false} NameCounts(h: Placed, p: string)
    requires WellPlaced(h)
    ensures Counts(Name(h), p) <==> CountsFor(h.id, p)
  {
    var q, tag := h.id, Tag(h.stamp, h.n);
    var core := q + "-" + tag;
    assert Name(h) == core + SUFFIX;
    assert Name(h)[|Name(h)| - |SUFFIX|..] == SUFFIX;
    if HasPrefix(Name(h), p + "-") {
      MiddleInRange(Name(h), p);
      assert Name(h)[|p| + 1..|Name(h)| - |SUFFIX|] == core[|p| + 1..];
      assert p + "-" <= core;
      if |p| < |q| {
        assert p + "-" <= q;
        assert core[|p| + 1..] == q[|p| + 1..] + "-" + tag;
        SegmentBeforeDash(q[|p| + 1..], tag);
      } else if |p| == |q| {
        assert p == core[..|p|] == core[..|q|] == q;
        assert core[|p| + 1..] == tag;
        TagHasStampShape(h);
      } else {
        LongerIdDoesNotCount(h, p);
      }
    } else {
      ProperPrefixExtends(q, p, core);
    }
  }

  lemma {:induction false} ProperPrefixExtends(q: string, p: string, core: string)
    requires q + "-" <= core
    ensures CountsFor(q, p) ==> p + "-" <= core
  {}

  lemma {:induction false} SegmentBeforeDash(a: string, b: string)
    ensures FirstSegment(a + "-" + b) == FirstSegment(a)
  {
    if a == [] || a[0] == '-' {
    } else {
      SegmentBeforeDash(a[1..], b);
      assert (a + "-" + b)[1..] == a[1..] + "-" + b;
    }
  }

  lemma {:induction false} SegmentOfPlain(a: string)
    requires '-' !in a
    ensures FirstSegment(a) == a
  {}

  lemma {:induction false} StampHasNoDash(s: string)
    requires Stamp(s)
    ensures '-' !in s
  {}

  lemma {:induction false} TagHasStampShape(h: Placed)
    requires WellPlaced(h)
    ensures StampShape(Tag(h.stamp, h.n))
  {
    StampHasNoDash(h.stamp);
    SegmentOfPlain(h.stamp);
    if h.n != 0 {
      SegmentBeforeDash(h.stamp, Itoa(h.n));
      assert Tag(h.stamp, h.n) == h.stamp + "-" + Itoa(h.n);
    }
  }

  lemma {:induction false} LongerIdDoesNotCount(h: Placed, p: string)
    requires WellPlaced(h) && |p| > |h.id| && p + "-" <= h.id + "-" + Tag(h.stamp, h.n)
    ensures !StampShape((h.id + "-" + Tag(h.stamp, h.n))[|p| + 1..]) && !CountsFor(h.id, p)
  {
    var core, tag := h.id + "-" + Tag(h.stamp, h.n), Tag(h.stamp, h.n);
    assert core[|p|] == (p + "-")[|p|] == '-';
    var k := |p| - |h.id| - 1;
    assert tag[k] == '-';
    StampHasNoDash(h.stamp);
    assert k >= 16 && h.n != 0;
    forall i | 16 < i < |tag| ensures tag[i] != '-' { assert tag[i] in Itoa(h.n); }
    assert core[|p| + 1..] == Itoa(h.n);
    assert |FirstSegment(Itoa(h.n))| <= 4;
  }

  /**
   * After any run of quarantines a pack is reported if and only if one of the quarantined ids counts
   * for it: itself, or an id that continues it with a stamp-shaped segment.
   */
  lemma {:induction false} ReportedIff(run: seq<Placed>, p: string)
    requires forall i :: 0 <= i < |run| ==> WellPlaced(run[i])
    ensures (exists i :: 0 <= i < |run| && Counts(Name(run[i]), p)) <==> exists i :: 0 <= i < |run| && CountsFor(run[i].id, p)
  {
    forall i | 0 <= i < |run| ensures Counts(Name(run[i]), p) <==> CountsFor(run[i].id, p) { NameCounts(run[i], p); }
  }

  /** No dash-separated segment of the id, after its first, has the shape of a stamp. */
  predicate NoStampSegment(id: string) {
    forall k :: 0 <= k < |id| && id[k] == '-' ==> !StampShape(id[k + 1..])
  }

  lemma {:induction false} CountsForItself(q: string, p: string)
    requires NoStampSegment(q)
    ensures CountsFor(q, p) <==> q == p
  {
    if p + "-" <= q { assert q[|p|] == (p + "-")[|p|] == '-'; }
  }

  /** For ids without a stamp-shaped segment the report is exact. */
  lemma {:induction false} ReportedIffQuarantined(run: seq<Placed>, p: string)
    requires forall i :: 0 <= i < |run| ==> WellPlaced(run[i]) && NoStampSegment(run[i].id)
    ensures (exists i :: 0 <= i < |run| && Counts(Name(run[i]), p)) <==> exists i :: 0 <= i < |run| && run[i].id == p
  {
    ReportedIff(run, p);
    forall i | 0 <= i < |run| ensures CountsFor(run[i].id, p) <==> run[i].id == p { CountsForItself(run[i].id, p); }
  }

  /** Without that condition an id that was never quarantined is reported: p, once p-<stamp> has been. */
  lemma {:induction false} StampSegmentMisleads(p: string, segment: string, stamp: string)
    requires Stamp(segment) && Stamp(stamp)
    ensures p + "-" + segment != p
    ensures Counts(Name(Placed(p + "-" + segment, stamp, 0)), p)
  {
    var q := p + "-" + segment;
    StampHasNoDash(segment);
    SegmentOfPlain(segment);
    assert q[|p| + 1..] == segment;
    NameCounts(Placed(q, stamp, 0), p);
  }

  /** The first free disambiguation number from n on, if there is one up to the limit. */
  function FreeSlot(taken: set<string>, id: string, stamp: string, n: nat): (r: Option<nat>)
    requires n <= MAX_TRIES + 1
    ensures r.Some? ==> n <= r.value <= MAX_TRIES && NameOf(id, stamp, r.value) !in taken
    ensures r.Some? ==> forall k :: n <= k < r.value ==> NameOf(id, stamp, k) in taken
    ensures r.None? ==> forall k :: n <= k <= MAX_TRIES ==> NameOf(id, stamp, k) in taken
    decreases MAX_TRIES + 1 - n
  {
    if n > MAX_TRIES then None
    else if NameOf(id, stamp, n) !in taken then Some(n)
    else FreeSlot(taken, id, stamp, n + 1)
  }

  /** The name the move ends up using: the first free one, never an occupied one. */
  method AllocateName(taken: set<string>, id: string, stamp: string) returns (r: Option<nat>)
    ensures r == FreeSlot(taken, id, stamp, 0)
  {
    var i: nat := 0;
    while true
      invariant i <= MAX_TRIES && FreeSlot(taken, id, stamp, 0) == FreeSlot(taken, id, stamp, i)
      decreases MAX_TRIES - i
    {
      if NameOf(id, stamp, i) !in taken { return Some(i); }
      if i + 1 > MAX_TRIES { return None; }
      i := i + 1;
    }
  }

  // ---- The names spelled out --------------------------------------------------------------------------------

  predicate AllDigits(s: string) { forall c :: c in s ==> '0' <= c <= '9' }

  /** A stamp is eight digits, T, six digits, Z. */
  lemma {:induction false} StampIff(base: string)
    ensures Stamp(base) <==>
            exists date, time :: |date| == 8 && |time| == 6 && AllDigits(date) && AllDigits(time) && base == date + "T" + time + "Z"
  {
    if Stamp(base) {
      var date, time := base[..8], base[9..15];
      assert forall i :: 0 <= i < 8 ==> date[i] == base[i];
      assert forall i :: 0 <= i < 6 ==> time[i] == base[9 + i];
      assert base == date + "T" + time + "Z";
    }
    forall date, time | |date| == 8 && |time| == 6 && AllDigits(date) && AllDigits(time) && base == date + "T" + time + "Z"
      ensures Stamp(base)
    {
      assert forall i :: 0 <= i < 8 ==> base[i] == date[i] && date[i] in date;
      assert forall i :: 9 <= i < 15 ==> base[i] == time[i - 9] && time[i - 9] in time;
    }
  }

  /** The number a string of digits stands for. */
  function Decimal(s: string): (n: nat)
    requires AllDigits(s)
  {
    if s == "" then 0
    else
      var front := s[..|s| - 1];
      assert s[|s| - 1] in s && forall c :: c in front ==> c in s;
      10 * Decimal(front) + (s[|s| - 1] as int - '0' as int)
  }

  lemma {:induction false} ItoaReads(n: nat)
    ensures Decimal(Itoa(n)) == n
  {
    var s := Itoa(n);
    if n < 10 {
      assert s == [Digit(n)] && s[..0] == "";
    } else {
      ItoaReads(n / 10);
      assert s[..|s| - 1] == Itoa(n / 10);
    }
  }

  /** The names tried for one id and stamp: first without a number, then with each number in decimal. */
  lemma {:induction false} NameSpelled(id: string, stamp: string, n: nat)
    ensures NameOf(id, stamp, 0) == id + "-" + stamp + ".tar.zst"
    ensures n > 0 ==> exists digits :: AllDigits(digits) && Decimal(digits) == n
                                       && NameOf(id, stamp, n) == id + "-" + stamp + "-" + digits + ".tar.zst"
  {
    ItoaReads(n);
    if n > 0 { assert NameOf(id, stamp, n) == id + "-" + stamp + "-" + Itoa(n) + ".tar.zst"; }
  }

  /** No two of these names are the same. */
  lemma {:induction false} NamesDiffer(id: string, stamp: string, m: nat, n: nat)
    requires NameOf(id, stamp, m) == NameOf(id, stamp, n)
    ensures m == n
  {
    hide *;
    SameMiddle(id + "-", Tag(stamp, m), Tag(stamp, n), SUFFIX) by {
      NameTag(id, stamp, m);
      NameTag(id, stamp, n);
    }
    TagsDiffer(stamp, m, n);
  }

  lemma {:induction false} NameTag(id: string, stamp: string, n: nat)
    ensures NameOf(id, stamp, n) == id + "-" + Tag(stamp, n) + SUFFIX
  {
    hide Tag;
  }

  lemma {:induction false} SameMiddle(front: string, a: string, b: string, back: string)
    requires front + a + back == front + b + back
    ensures a == b
  {
    var whole := front + a + back;
    assert |front| + |a| + |back| == |whole| == |front| + |b| + |back|;
    assert a == whole[|front|..|front| + |a|] == b;
  }

  lemma {:induction false} TagsDiffer(stamp: string, m: nat, n: nat)
    requires Tag(stamp, m) == Tag(stamp, n)
    ensures m == n
  {
    hide Decimal, Itoa;
    ItoaReads(m);
    ItoaReads(n);
    if m > 0 { assert Tag(stamp, m) == stamp + "-" + Itoa(m) && Tag(stamp, m)[|stamp| + 1..] == Itoa(m); }
    if n > 0 { assert Tag(stamp, n) == stamp + "-" + Itoa(n) && Tag(stamp, n)[|stamp| + 1..] == Itoa(n); }
    assert Tag(stamp, 0) == stamp;
  }

  /** The search gives up only when the plain name and all of the numbers 1 to 1000 are taken, and takes the lowest free one. */
  lemma {:induction false} LowestFree(taken: set<string>, id: string, stamp: string)
    ensures var r := FreeSlot(taken, id, stamp, 0);
            && (r.None? <==> forall n: nat :: n <= 1000 ==> NameOf(id, stamp, n) in taken)
            && (forall n: nat :: r == Some(n) ==> NameOf(id, stamp, n) !in taken && forall k: nat :: k < n ==> NameOf(id, stamp, k) in taken)
  {
    hide NameOf;
  }
}
