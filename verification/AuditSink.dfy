/** The rotating JSONL audit sink (internal/audit/file.go). */
module AuditSink {
  import opened Prelude

  /** The audit files, 0 for the active one and n for its n-th rotated sibling, and the file the open handle is at. */
  datatype Dir<E> = Dir(files: map<nat, seq<E>>, handle: Option<nat>, size: int)

  /** Which disk steps of a rotation go through. */
  datatype Faults = Faults(remove: bool, rename: nat -> bool, reopen: bool, write: bool)

  function Remove<E>(d: Dir<E>, n: nat): Dir<E> {
    d.(files := d.files - {n}, handle := if d.handle == Some(n) then None else d.handle)
  }

  /** A rename takes the open handle along, and unlinks what stood there before. */
  function Rename<E>(d: Dir<E>, from: nat, to: nat): Dir<E>
    requires from in d.files
  {
    d.(files := (d.files - {from})[to := d.files[from]],
       handle := if d.handle == Some(from) then Some(to) else if d.handle == Some(to) then None else d.handle)
  }

  /** The shifting loop from index i down; false when a rename fails and ends it. */
  function Shifted<E>(d: Dir<E>, i: nat, max: nat, f: Faults): (Dir<E>, bool)
    decreases i
  {
    if i == 0 then (d, true)
    else
      var e := if i == max && f.remove then Remove(d, i) else d;
      if i - 1 !in e.files then Shifted(e, i - 1, max, f)
      else if !f.rename(i) then (e, false)
      else Shifted(Rename(e, i - 1, i), i - 1, max, f)
  }

  /** openAuditFile on the active path. */
  function Opened<E>(d: Dir<E>, sizeOf: seq<E> -> nat): Dir<E> {
    var active := if 0 in d.files then d.files[0] else [];
    Dir(d.files[0 := active], Some(0), sizeOf(active))
  }

  function Rotated<E>(d: Dir<E>, max: nat, f: Faults, sizeOf: seq<E> -> nat): Dir<E> {
    var (e, ok) := Shifted(d, max, max, f);
    if ok && f.reopen then Opened(e, sizeOf) else e
  }

  /** Appending through the handle; through an unlinked one the bytes go nowhere. */
  function Appended<E>(d: Dir<E>, e: E, lineSize: nat): Dir<E> {
    match d.handle
    case Some(n) => d.(files := d.files[n := (if n in d.files then d.files[n] else []) + [e]], size := d.size + lineSize)
    case None => d.(size := d.size + lineSize)
  }

  predicate MustRotate<E>(d: Dir<E>, maxBytes: int, lineSize: nat) {
    maxBytes > 0 && d.size + lineSize > maxBytes && d.size > 0
  }

  /** Emit: rotate first when the line would not fit, whatever comes of that, then write. */
  function AfterEmit<E>(d: Dir<E>, e: E, max: nat, maxBytes: int, sizeOf: seq<E> -> nat, f: Faults): (Dir<E>, bool) {
    var r := if MustRotate(d, maxBytes, sizeOf([e])) then Rotated(d, max, f, sizeOf) else d;
    if f.write then (Appended(r, e, sizeOf([e])), true) else (r, false)
  }

  class File<E(==)> {
    var files: map<nat, seq<E>>
    var handle: Option<nat>
    var size: int
    const maxRotated: nat
    const maxBytes: int
    const sizeOf: seq<E> -> nat

    function Snapshot(): Dir<E>
      reads this
    {
      Dir(files, handle, size)
    }

    /** NewFile over the files it finds. */
    constructor (found: map<nat, seq<E>>, maxRotated: nat, maxBytes: int, sizeOf: seq<E> -> nat)
      ensures Snapshot() == Opened(Dir(found, None, 0), sizeOf)
      ensures this.maxRotated == maxRotated && this.maxBytes == maxBytes && this.sizeOf == sizeOf
    {
      this.maxRotated, this.maxBytes, this.sizeOf := maxRotated, maxBytes, sizeOf;
      var active := if 0 in found then found[0] else [];
      files, handle, size := found[0 := active], Some(0), sizeOf(active);
    }

    method RotateLocked(f: Faults) returns (ok: bool)
      modifies this
      ensures Snapshot() == Rotated(old(Snapshot()), maxRotated, f, sizeOf)
      ensures ok == (Shifted(old(Snapshot()), maxRotated, maxRotated, f).1 && f.reopen)
    {
      var i := maxRotated;
      while i >= 1
        invariant 0 <= i <= maxRotated
        invariant Shifted(Snapshot(), i, maxRotated, f) == Shifted(old(Snapshot()), maxRotated, maxRotated, f)
      {
        if i == maxRotated && f.remove { RemoveFile(i); }
        if i - 1 !in files {
          i := i - 1;
          continue;
        }
        if !f.rename(i) { return false; }
        RenameFile(i - 1, i);
        i := i - 1;
      }
      if !f.reopen { return false; }
      var active := if 0 in files then files[0] else [];
      files, handle, size := files[0 := active], Some(0), sizeOf(active);
      return true;
    }

    method RemoveFile(n: nat)
      modifies `files, `handle
      ensures Snapshot() == Remove(old(Snapshot()), n)
    {
      files := files - {n};
      if handle == Some(n) { handle := None; }
    }

    method RenameFile(from: nat, to: nat)
      requires from in files
      modifies `files, `handle
      ensures Snapshot() == Rename(old(Snapshot()), from, to)
    {
      files := (files - {from})[to := files[from]];
      handle := if handle == Some(from) then Some(to) else if handle == Some(to) then None else handle;
    }

    method Emit(e: E, f: Faults) returns (ok: bool)
      modifies this
      ensures (Snapshot(), ok) == AfterEmit(old(Snapshot()), e, maxRotated, maxBytes, sizeOf, f)
    {
      hide Rotated;
      if maxBytes > 0 && size + sizeOf([e]) > maxBytes && size > 0 {
        // A rotation that fails does not stop the write.
        var _ := RotateLocked(f);
      }
      if !f.write { return false; }
      if handle.Some? {
        var n := handle.value;
        files := files[n := (if n in files then files[n] else []) + [e]];
      }
      size := size + sizeOf([e]);
      return true;
    }
  }

  // ---- What is retained -----------------------------------------------------------------------------------

  /** The files up to number n, oldest first: n, n-1, ... , the active one. */
  function Concat<E>(files: map<nat, seq<E>>, n: nat): seq<E> {
    (if n in files then files[n] else []) + if n == 0 then [] else Concat(files, n - 1)
  }

  predicate IsSuffix<E(==)>(s: seq<E>, log: seq<E>) {
    |s| <= |log| && log[|log| - |s|..] == s
  }

  /** No file past the limit; nothing newer than the file being written; an unlinked handle only when no file is left. */
  predicate Valid<E>(d: Dir<E>, max: nat) {
    && (forall n :: n in d.files ==> n <= max)
    && match d.handle
       case None => d.files == map[]
       case Some(h) => h in d.files && forall n :: n < h ==> n !in d.files
  }

  lemma {:induction false} ConcatSame<E>(a: map<nat, seq<E>>, b: map<nat, seq<E>>, n: nat)
    requires forall k :: k <= n ==> (k in a <==> k in b) && (k in a ==> a[k] == b[k])
    ensures Concat(a, n) == Concat(b, n)
  {
    if n > 0 { ConcatSame(a, b, n - 1); }
  }

  lemma {:induction false} ConcatEmpty<E>(a: map<nat, seq<E>>, n: nat)
    requires forall k :: k <= n ==> k !in a
    ensures Concat(a, n) == []
  {
    if n > 0 { ConcatEmpty(a, n - 1); }
  }

  lemma {:induction false} SuffixOfSuffix<E>(a: seq<E>, b: seq<E>, log: seq<E>)
    requires IsSuffix(b, log) && IsSuffix(a, b)
    ensures IsSuffix(a, log)
  {
    assert log[|log| - |a|..] == log[|log| - |b|..][|b| - |a|..];
  }

  lemma {:induction false} DropFront<E>(front: seq<E>, rest: seq<E>)
    ensures IsSuffix(rest, front + rest)
  {}

  lemma {:induction false} ConcatWithout<E>(files: map<nat, seq<E>>, n: nat)
    ensures Concat(files - {n}, n) == if n == 0 then [] else Concat(files, n - 1)
  {
    if n > 0 { ConcatSame(files - {n}, files, n - 1); }
  }

  lemma {:induction false} ConcatStep<E>(files: map<nat, seq<E>>, n: nat)
    ensures Concat(files, n) == (if n in files then files[n] else []) + if n == 0 then [] else Concat(files, n - 1)
  {}

  lemma {:induction false} RemoveKeepsValid<E>(d: Dir<E>, max: nat)
    requires Valid(d, max)
    ensures Valid(Remove(d, max), max)
  {}

  /** Removing file max drops the oldest events. */
  lemma {:induction false} RemoveDropsOldest<E>(d: Dir<E>, max: nat)
    requires Valid(d, max)
    ensures IsSuffix(Concat(Remove(d, max).files, max), Concat(d.files, max)) && Valid(Remove(d, max), max)
  {
    hide Concat, IsSuffix, Valid;
    RemoveKeepsValid(d, max);
    ConcatWithout(d.files, max);
    ConcatStep(d.files, max);
    DropFront(if max in d.files then d.files[max] else [], if max == 0 then [] else Concat(d.files, max - 1));
  }

  /** Renaming i-1 to i moves no event past another; only what stood at i, if anything, is dropped. */
  lemma {:induction false} RenameKeepsOrder<E>(d: Dir<E>, i: nat, n: nat)
    requires 0 < i <= n && i - 1 in d.files
    ensures i !in d.files ==> Concat(Rename(d, i - 1, i).files, n) == Concat(d.files, n)
    ensures i == n ==> IsSuffix(Concat(Rename(d, i - 1, i).files, n), Concat(d.files, n))
  {
    var after := Rename(d, i - 1, i).files;
    if i == n {
      if i >= 2 { ConcatSame(after, d.files, i - 2); }
      var tail := if i >= 2 then Concat(d.files, i - 2) else [];
      assert Concat(d.files, i - 1) == d.files[i - 1] + tail;
      assert Concat(after, i - 1) == tail;
      DropFront(if i in d.files then d.files[i] else [], d.files[i - 1] + tail);
    } else {
      RenameKeepsOrder(d, i, n - 1);
    }
  }

  lemma {:induction false} RenameKeepsValid<E>(d: Dir<E>, i: nat, max: nat)
    requires 0 < i <= max && i - 1 in d.files && Valid(d, max) && (i in d.files ==> i == max)
    ensures Valid(Rename(d, i - 1, i), max)
  {}

  /** The files the shifting loop has yet to look at, seen from index i: free unless it is the last one. */
  predicate FreeAt<E>(d: Dir<E>, i: nat, max: nat) {
    i in d.files ==> i == max || i == 0
  }

  /** A rotation that gets as far as it gets leaves a suffix of what there was, in order. */
  lemma {:induction false} ShiftKeepsSuffix<E>(d: Dir<E>, i: nat, max: nat, f: Faults)
    requires i <= max && Valid(d, max) && FreeAt(d, i, max)
    ensures var e := Shifted(d, i, max, f).0; Valid(e, max) && IsSuffix(Concat(e.files, max), Concat(d.files, max))
    ensures Shifted(d, i, max, f).1 && i > 0 ==> 0 !in Shifted(d, i, max, f).0.files
    decreases i, 1
  {
    hide Concat, IsSuffix, Valid, Remove, Rename, FreeAt;
    WholeSuffix(Concat(d.files, max));
    if i > 0 {
      var e := if i == max && f.remove then Remove(d, i) else d;
      if i == max { RemoveDropsOldest(d, max); }
      if i - 1 !in e.files {
        ShiftOn(d, e, i, max, f);
      } else if f.rename(i) {
        StillFree(d, i, max);
        RenameStep(e, i, max);
        var r := Rename(e, i - 1, i);
        SuffixOfSuffix(Concat(r.files, max), Concat(e.files, max), Concat(d.files, max));
        ShiftOn(d, r, i, max, f);
      }
    }
  }

  lemma {:induction false} StillFree<E>(d: Dir<E>, i: nat, max: nat)
    requires FreeAt(d, i, max)
    ensures FreeAt(Remove(d, i), i, max)
  {}

  lemma {:induction false} RenameStep<E>(d: Dir<E>, i: nat, max: nat)
    requires 0 < i <= max && i - 1 in d.files && Valid(d, max) && FreeAt(d, i, max)
    ensures var r := Rename(d, i - 1, i);
            Valid(r, max) && i - 1 !in r.files && IsSuffix(Concat(r.files, max), Concat(d.files, max))
  {
    hide Concat, IsSuffix;
    RenameKeepsOrder(d, i, max);
    RenameKeepsValid(d, i, max);
    WholeSuffix(Concat(d.files, max));
  }

  lemma {:induction false} ShiftOn<E>(d: Dir<E>, r: Dir<E>, i: nat, max: nat, f: Faults)
    requires 0 < i <= max && Valid(r, max) && i - 1 !in r.files && IsSuffix(Concat(r.files, max), Concat(d.files, max))
    ensures var e := Shifted(r, i - 1, max, f).0; Valid(e, max) && IsSuffix(Concat(e.files, max), Concat(d.files, max))
    ensures Shifted(r, i - 1, max, f).1 ==> 0 !in Shifted(r, i - 1, max, f).0.files
    decreases i, 0
  {
    hide Concat, IsSuffix;
    ShiftKeepsSuffix(r, i - 1, max, f);
    SuffixOfSuffix(Concat(Shifted(r, i - 1, max, f).0.files, max), Concat(r.files, max), Concat(d.files, max));
  }

  lemma {:induction false} WholeSuffix<E>(s: seq<E>)
    ensures IsSuffix(s, s)
  {}

  // ---- Runs -------------------------------------------------------------------------------------------------

  lemma {:induction false} OpenKeeps<E>(d: Dir<E>, max: nat, sizeOf: seq<E> -> nat)
    requires forall n :: n in d.files ==> n <= max
    ensures Valid(Opened(d, sizeOf), max) && Concat(Opened(d, sizeOf).files, max) == Concat(d.files, max)
  {
    OpenKeepsOrder(d.files, max);
  }

  lemma {:induction false} OpenKeepsOrder<E>(files: map<nat, seq<E>>, n: nat)
    ensures Concat(files[0 := if 0 in files then files[0] else []], n) == Concat(files, n)
  {
    if n > 0 { OpenKeepsOrder(files, n - 1); }
  }

  lemma {:induction false} AppendIsLast<E>(files: map<nat, seq<E>>, h: nat, e: E, n: nat)
    requires h in files && h <= n && forall k :: k < h ==> k !in files
    ensures Concat(files[h := files[h] + [e]], n) == Concat(files, n) + [e]
  {
    var after := files[h := files[h] + [e]];
    if h == n {
      if n > 0 {
        ConcatEmpty(files, n - 1);
        ConcatEmpty(after, n - 1);
      }
    } else {
      AppendIsLast(files, h, e, n - 1);
      assert Concat(after, n) == (if n in files then files[n] else []) + (Concat(files, n - 1) + [e]);
    }
  }

  lemma {:induction false} RotateKeepsSuffix<E>(d: Dir<E>, max: nat, f: Faults, sizeOf: seq<E> -> nat)
    requires Valid(d, max) && max > 0
    ensures var r := Rotated(d, max, f, sizeOf); Valid(r, max) && IsSuffix(Concat(r.files, max), Concat(d.files, max))
  {
    hide Concat, IsSuffix, Shifted;
    ShiftKeepsSuffix(d, max, max, f);
    OpenKeeps(Shifted(d, max, max, f).0, max, sizeOf);
  }

  lemma {:induction false} SuffixSnoc<E>(s: seq<E>, log: seq<E>, e: E)
    requires IsSuffix(s, log)
    ensures IsSuffix(s + [e], log + [e])
  {}

  lemma {:induction false} WriteKeepsSuffix<E>(d: Dir<E>, max: nat, e: E, lineSize: nat, log: seq<E>)
    requires Valid(d, max) && IsSuffix(Concat(d.files, max), log)
    ensures Valid(Appended(d, e, lineSize), max) && IsSuffix(Concat(Appended(d, e, lineSize).files, max), log + [e])
  {
    hide Concat, IsSuffix;
    match d.handle
    case Some(h) =>
      AppendIsLast(d.files, h, e, max);
      SuffixSnoc(Concat(d.files, max), log, e);
    case None =>
      ConcatEmpty(d.files, max);
      NothingIsSuffix(log + [e]);
  }

  lemma {:induction false} NothingIsSuffix<E>(log: seq<E>)
    ensures IsSuffix([], log)
  {}

  /** Whatever fails in one emit, the files stay in order and hold the latest events of the log. */
  lemma {:induction false} EmitKeepsSuffix<E>(d: Dir<E>, e: E, max: nat, maxBytes: int, sizeOf: seq<E> -> nat, f: Faults,
                                              log: seq<E>)
    requires max > 0 && Valid(d, max) && IsSuffix(Concat(d.files, max), log)
    ensures var (after, ok) := AfterEmit(d, e, max, maxBytes, sizeOf, f);
            Valid(after, max) && IsSuffix(Concat(after.files, max), if ok then log + [e] else log)
  {
    hide Concat, IsSuffix, Rotated, Valid, Appended;
    var r := d;
    if MustRotate(d, maxBytes, sizeOf([e])) {
      RotateKeepsSuffix(d, max, f, sizeOf);
      r := Rotated(d, max, f, sizeOf);
      SuffixOfSuffix(Concat(r.files, max), Concat(d.files, max), log);
    }
    WriteKeepsSuffix(r, max, e, sizeOf([e]), log);
  }

  /** One event in the life of the sink: an emit, or a new process over the same files. */
  datatype Op<E> = Emit(e: E, f: Faults) | Restart

  function Run<E>(d: Dir<E>, log: seq<E>, ops: seq<Op<E>>, max: nat, maxBytes: int, sizeOf: seq<E> -> nat)
    : (Dir<E>, seq<E>)
    decreases |ops|
  {
    if ops == [] then (d, log)
    else match ops[0]
      case Emit(e, f) =>
        var (after, ok) := AfterEmit(d, e, max, maxBytes, sizeOf, f);
        Run(after, if ok then log + [e] else log, ops[1..], max, maxBytes, sizeOf)
      case Restart => Run(Opened(d, sizeOf), log, ops[1..], max, maxBytes, sizeOf)
  }

  /** Over any run of emits, rotations, disk faults and restarts, the files, oldest first, are a suffix of the log. */
  lemma {:induction false} RunKeepsSuffix<E>(d: Dir<E>, log: seq<E>, ops: seq<Op<E>>, max: nat, maxBytes: int,
                                             sizeOf: seq<E> -> nat)
    requires max > 0 && Valid(d, max) && IsSuffix(Concat(d.files, max), log)
    ensures var (after, all) := Run(d, log, ops, max, maxBytes, sizeOf);
            Valid(after, max) && IsSuffix(Concat(after.files, max), all)
    decreases |ops|
  {
    hide Concat, IsSuffix, AfterEmit, Opened;
    if ops != [] {
      match ops[0]
      case Emit(e, f) =>
        EmitKeepsSuffix(d, e, max, maxBytes, sizeOf, f, log);
        var (after, ok) := AfterEmit(d, e, max, maxBytes, sizeOf, f);
        RunKeepsSuffix(after, if ok then log + [e] else log, ops[1..], max, maxBytes, sizeOf);
      case Restart =>
        OpenKeeps(d, max, sizeOf);
        RunKeepsSuffix(Opened(d, sizeOf), log, ops[1..], max, maxBytes, sizeOf);
    }
  }

  predicate NoFaults(f: Faults, max: nat) {
    f.remove && f.reopen && f.write && forall i: nat :: i <= max ==> f.rename(i)
  }

  lemma {:induction false} HealthyShift<E>(d: Dir<E>, i: nat, max: nat, f: Faults)
    requires i <= max && Valid(d, max) && FreeAt(d, i, max) && NoFaults(f, max)
    ensures Shifted(d, i, max, f).1
    ensures Concat(Shifted(d, i, max, f).0.files, max) == Concat(if i == max && i > 0 then d.files - {max} else d.files, max)
    decreases i
  {
    hide Concat;
    if i > 0 {
      var e := if i == max then Remove(d, i) else d;
      if i == max { RemoveDropsOldest(d, max); }
      if i - 1 in e.files {
        RenameKeepsOrder(e, i, max);
        RenameKeepsValid(e, i, max);
        HealthyShift(Rename(e, i - 1, i), i - 1, max, f);
      } else {
        HealthyShift(e, i - 1, max, f);
      }
    }
  }

  /** Without faults an emit loses nothing but, when it rotates, the one file past the limit. */
  lemma {:induction false} HealthyEmit<E>(d: Dir<E>, e: E, max: nat, maxBytes: int, sizeOf: seq<E> -> nat, f: Faults)
    requires max > 0 && Valid(d, max) && d.handle.Some? && NoFaults(f, max)
    ensures var (after, ok) := AfterEmit(d, e, max, maxBytes, sizeOf, f);
            && ok && after.handle.Some?
            && Concat(after.files, max)
               == Concat(if MustRotate(d, maxBytes, sizeOf([e])) then d.files - {max} else d.files, max) + [e]
  {
    hide Concat, Shifted;
    var r := d;
    if MustRotate(d, maxBytes, sizeOf([e])) {
      HealthyShift(d, max, max, f);
      ShiftKeepsSuffix(d, max, max, f);
      OpenKeeps(Shifted(d, max, max, f).0, max, sizeOf);
      r := Rotated(d, max, f, sizeOf);
    }
    AppendIsLast(r.files, r.handle.value, e, max);
  }

  // ---- When the active file cannot be reopened ----------------------------------------------------------

  lemma {:induction false} ShiftMovesHandle<E>(d: Dir<E>, i: nat, max: nat, f: Faults, h: nat)
    requires i <= max && Valid(d, max) && FreeAt(d, i, max) && d.handle == Some(h)
    requires f.remove && forall k: nat :: k <= max ==> f.rename(k)
    ensures Shifted(d, i, max, f).1
    ensures Shifted(d, i, max, f).0.handle
         == if h == max && i == max && i > 0 then None else if h < i then Some(h + 1) else Some(h)
    ensures Shifted(d, i, max, f).0.size == d.size
    decreases i
  {
    if i > 0 {
      var e := if i == max then Remove(d, i) else d;
      if h == max && i == max {
        ShiftsNothing(e, i - 1, max, f);
      } else if i - 1 in e.files {
        RenameKeepsValid(e, i, max);
        ShiftMovesHandle(Rename(e, i - 1, i), i - 1, max, f, if h == i - 1 then i else h);
      } else {
        ShiftMovesHandle(e, i - 1, max, f, h);
      }
    }
  }

  lemma {:induction false} ShiftsNothing<E>(d: Dir<E>, i: nat, max: nat, f: Faults)
    requires i < max && d.files == map[]
    ensures Shifted(d, i, max, f) == (d, true)
    decreases i
  {
    if i > 0 { ShiftsNothing(d, i - 1, max, f); }
  }

  /** Rotations that cannot reopen the active file push the open handle down one file each, and finally off the end. */
  lemma {:induction false} StuckRotation<E>(d: Dir<E>, max: nat, f: Faults, sizeOf: seq<E> -> nat, h: nat)
    requires max > 0 && Valid(d, max) && d.handle == Some(h) && h <= max
    requires f.remove && !f.reopen && forall k: nat :: k <= max ==> f.rename(k)
    ensures var r := Rotated(d, max, f, sizeOf); r.handle == (if h == max then None else Some(h + 1)) && r.size == d.size
  {
    ShiftMovesHandle(d, max, max, f, h);
  }

  /** Each of these emits reports success. */
  function Emits<E>(d: Dir<E>, events: seq<E>, max: nat, maxBytes: int, sizeOf: seq<E> -> nat, f: Faults): (Dir<E>, bool)
    decreases |events|
  {
    if events == [] then (d, true)
    else
      var (after, ok) := AfterEmit(d, events[0], max, maxBytes, sizeOf, f);
      var (last, all) := Emits(after, events[1..], max, maxBytes, sizeOf, f);
      (last, ok && all)
  }

  /**
   * With the open file full and the active one failing to reopen, max - h + 1 emits leave no file at all,
   * although every one of them reported success: all retained events are lost.
   */
  lemma {:induction false} StuckReopenLosesAll<E>(d: Dir<E>, events: seq<E>, max: nat, maxBytes: int, sizeOf: seq<E> -> nat,
                                                  f: Faults, h: nat)
    requires max > 0 && Valid(d, max) && d.handle == Some(h) && h <= max && d.size > maxBytes > 0
    requires f.remove && !f.reopen && f.write && forall k: nat :: k <= max ==> f.rename(k)
    requires |events| == max - h + 1
    ensures Emits(d, events, max, maxBytes, sizeOf, f).1 && Emits(d, events, max, maxBytes, sizeOf, f).0.files == map[]
    decreases |events|
  {
    hide Rotated;
    var r := Rotated(d, max, f, sizeOf);
    StuckRotation(d, max, f, sizeOf, h);
    RotateKeepsSuffix(d, max, f, sizeOf);
    if h < max {
      StuckReopenLosesAll(Appended(r, events[0], sizeOf([events[0]])), events[1..], max, maxBytes, sizeOf, f, h + 1);
    }
  }

  // ---- Which successful emit is lost ------------------------------------------------------------------------

  /** A shift unlinks the open file only as the last one, removed; then no file is left and nothing stops it. */
  lemma {:induction false} ShiftUnlinksIff<E>(d: Dir<E>, i: nat, max: nat, f: Faults)
    requires 0 < i <= max && Valid(d, max) && FreeAt(d, i, max)
    ensures var (e, ok) := Shifted(d, i, max, f);
            && (e.handle.None? <==> d.handle.None? || (i == max && f.remove && d.handle == Some(max)))
            && (e.handle.None? ==> ok && e.files == map[])
    decreases i
  {
    var e := if i == max && f.remove then Remove(d, i) else d;
    if e.handle.None? {
      ShiftsNothing(e, i - 1, max, f);
    } else if i - 1 in e.files && f.rename(i) {
      if i == max && f.remove { RemoveKeepsValid(d, max); }
      RenameKeepsValid(e, i, max);
      if i > 1 { ShiftUnlinksIff(Rename(e, i - 1, i), i - 1, max, f); }
    } else if i - 1 !in e.files {
      if i == max && f.remove { RemoveKeepsValid(d, max); }
      if i > 1 { ShiftUnlinksIff(e, i - 1, max, f); }
    }
  }

  /** The handle is at an unlinked file already, or the rotation removes the file it is at, and the reopen fails. */
  predicate WritesNowhere<E>(d: Dir<E>, max: nat, rotates: bool, f: Faults) {
    !(rotates && f.reopen) && (d.handle.None? || (rotates && f.remove && d.handle == Some(max)))
  }

  /**
   * Exactly which emit that reports success keeps nothing of its event: afterwards no file is left at all. In every other
   * case, whatever else fails, the event is the newest one retained.
   */
  lemma {:induction false} SuccessfulEmitLostIff<E>(d: Dir<E>, e: E, max: nat, maxBytes: int, sizeOf: seq<E> -> nat, f: Faults)
    requires max > 0 && Valid(d, max) && f.write
    ensures var (after, ok) := AfterEmit(d, e, max, maxBytes, sizeOf, f);
            var kept := Concat(after.files, max);
            && ok
            && (WritesNowhere(d, max, MustRotate(d, maxBytes, sizeOf([e])), f) ==> kept == [])
            && (!WritesNowhere(d, max, MustRotate(d, maxBytes, sizeOf([e])), f) ==> IsSuffix([e], kept))
  {
    hide Shifted, Concat, IsSuffix, Valid;
    var rotates := MustRotate(d, maxBytes, sizeOf([e]));
    var r := if rotates then Rotated(d, max, f, sizeOf) else d;
    if rotates {
      RotateKeepsSuffix(d, max, f, sizeOf);
      StartsFree(d, max);
      ShiftUnlinksIff(d, max, max, f);
    }
    EventIsLast(r, e, max, sizeOf([e]));
  }

  lemma {:induction false} StartsFree<E>(d: Dir<E>, max: nat)
    ensures FreeAt(d, max, max)
  {}

  lemma {:induction false} EventIsLast<E>(d: Dir<E>, e: E, max: nat, lineSize: nat)
    requires Valid(d, max)
    ensures d.handle.None? ==> Concat(Appended(d, e, lineSize).files, max) == []
    ensures d.handle.Some? ==> IsSuffix([e], Concat(Appended(d, e, lineSize).files, max))
  {
    if d.handle.None? {
      ConcatEmpty(d.files, max);
    } else {
      AppendIsLast(d.files, d.handle.value, e, max);
      DropFront(Concat(d.files, max), [e]);
    }
  }

  // ---- Sizes --------------------------------------------------------------------------------------------------

  /** What makes sizeOf the size of a file of lines: lines add up, and none is empty. */
  ghost predicate CountsBytes<E(!new)>(sizeOf: seq<E> -> nat) {
    && (forall a, b :: sizeOf(a + b) == sizeOf(a) + sizeOf(b))
    && (forall a :: sizeOf(a) == 0 ==> a == [])
  }

  /** The size kept beside the handle is that of the file the handle is at. */
  predicate Tracks<E>(d: Dir<E>, sizeOf: seq<E> -> nat) {
    d.handle.Some? ==> d.handle.value in d.files && d.size == sizeOf(d.files[d.handle.value])
  }

  /** Every file holds no more than maxBytes, or a single line. */
  predicate Bounded<E>(d: Dir<E>, maxBytes: int, sizeOf: seq<E> -> nat) {
    forall n :: n in d.files ==> sizeOf(d.files[n]) <= maxBytes || |d.files[n]| == 1
  }

  /** A rename leaves the handle at the file it was at, wherever that is now; unless that file was replaced. */
  lemma {:induction false} HandleFollows<E>(d: Dir<E>, from: nat, to: nat)
    requires from != to && from in d.files && d.handle.Some? && d.handle.value in d.files
    ensures var r := Rename(d, from, to);
            && (r.handle.None? <==> d.handle.value == to)
            && (r.handle.Some? ==> r.handle.value in r.files && r.files[r.handle.value] == d.files[d.handle.value])
            && r.files.Values <= d.files.Values && r.size == d.size
  {
    var r := Rename(d, from, to);
    forall v | v in r.files.Values ensures v in d.files.Values {
      var n :| n in r.files && r.files[n] == v;
      if n == to { assert from in d.files && d.files[from] == v; } else { assert n in d.files && d.files[n] == v; }
    }
  }

  /** However far a shift gets, it makes no new content and leaves the size that of the open file. */
  lemma {:induction false} ShiftTracks<E>(d: Dir<E>, i: nat, max: nat, f: Faults, sizeOf: seq<E> -> nat)
    requires Tracks(d, sizeOf)
    ensures var e := Shifted(d, i, max, f).0; Tracks(e, sizeOf) && e.files.Values <= d.files.Values
    decreases i
  {
    if i > 0 {
      var e := if i == max && f.remove then Remove(d, i) else d;
      assert e.files.Values <= d.files.Values by {
        forall v | v in e.files.Values ensures v in d.files.Values {
          var n :| n in e.files && e.files[n] == v;
          assert n in d.files && d.files[n] == v;
        }
      }
      if i - 1 !in e.files {
        ShiftTracks(e, i - 1, max, f, sizeOf);
      } else if f.rename(i) {
        var r := Rename(e, i - 1, i);
        RenameTracks(e, i - 1, i, sizeOf);
        ShiftTracks(r, i - 1, max, f, sizeOf);
      }
    }
  }

  lemma {:induction false} RenameTracks<E>(d: Dir<E>, from: nat, to: nat, sizeOf: seq<E> -> nat)
    requires from != to && from in d.files && Tracks(d, sizeOf)
    ensures Tracks(Rename(d, from, to), sizeOf) && Rename(d, from, to).files.Values <= d.files.Values
  {
    if d.handle.Some? {
      HandleFollows(d, from, to);
    } else {
      HandleFollows(d.(handle := Some(from)), from, to);
      assert Rename(d, from, to).files == Rename(d.(handle := Some(from)), from, to).files;
    }
  }

  lemma {:induction false} RotateTracks<E>(d: Dir<E>, max: nat, f: Faults, maxBytes: int, sizeOf: seq<E> -> nat)
    requires Tracks(d, sizeOf)
    ensures Tracks(Rotated(d, max, f, sizeOf), sizeOf)
    ensures Bounded(d, maxBytes, sizeOf) && sizeOf([]) <= maxBytes ==> Bounded(Rotated(d, max, f, sizeOf), maxBytes, sizeOf)
  {
    ShiftTracks(d, max, max, f, sizeOf);
    var e := Shifted(d, max, max, f).0;
    if Bounded(d, maxBytes, sizeOf) {
      forall n | n in e.files ensures sizeOf(e.files[n]) <= maxBytes || |e.files[n]| == 1 {
        assert e.files[n] in e.files.Values;
        var k :| k in d.files && d.files[k] == e.files[n];
      }
    }
  }

  /** Whatever fails in an emit, the size stays that of the open file. */
  lemma {:induction false} EmitTracks<E(!new)>(d: Dir<E>, e: E, max: nat, maxBytes: int, sizeOf: seq<E> -> nat, f: Faults)
    requires CountsBytes(sizeOf) && Tracks(d, sizeOf)
    ensures Tracks(AfterEmit(d, e, max, maxBytes, sizeOf, f).0, sizeOf)
  {
    hide Rotated;
    RotateTracks(d, max, f, maxBytes, sizeOf);
  }

  /** Only a rename or a reopen that fails in a rotation lets a file outgrow the limit. */
  lemma {:induction false} EmitBounded<E(!new)>(d: Dir<E>, e: E, max: nat, maxBytes: int, sizeOf: seq<E> -> nat, f: Faults)
    requires max > 0 && maxBytes > 0 && CountsBytes(sizeOf) && Valid(d, max)
    requires Tracks(d, sizeOf) && Bounded(d, maxBytes, sizeOf)
    requires f.reopen && forall i: nat :: i <= max ==> f.rename(i)
    ensures Bounded(AfterEmit(d, e, max, maxBytes, sizeOf, f).0, maxBytes, sizeOf)
  {
    hide Shifted, Valid;
    EmptyIsSmall(sizeOf);
    if d.size + sizeOf([e]) > maxBytes && d.size > 0 {
      RotateTracks(d, max, f, maxBytes, sizeOf);
      StartsFree(d, max);
      ShiftKeepsSuffix(d, max, max, f);
      ShiftCompletes(d, max, max, f);
    } else if d.handle.Some? {
      var file := d.files[d.handle.value];
      assert sizeOf(file + [e]) == sizeOf(file) + sizeOf([e]);
    }
  }

  lemma {:induction false} ShiftCompletes<E>(d: Dir<E>, i: nat, max: nat, f: Faults)
    requires i <= max && forall k: nat :: k <= max ==> f.rename(k)
    ensures Shifted(d, i, max, f).1
    decreases i
  {
    if i > 0 {
      var e := if i == max && f.remove then Remove(d, i) else d;
      if i - 1 !in e.files { ShiftCompletes(e, i - 1, max, f); } else { ShiftCompletes(Rename(e, i - 1, i), i - 1, max, f); }
    }
  }

  /** Where the line fits, or the open file is empty, or there is no limit, an emit only appends to the open file. */
  lemma {:induction false} FittingEmit<E>(d: Dir<E>, e: E, max: nat, maxBytes: int, sizeOf: seq<E> -> nat, f: Faults)
    requires d.size + sizeOf([e]) <= maxBytes || d.size <= 0 || maxBytes <= 0
    requires d.handle.Some? && d.handle.value in d.files
    ensures var (after, ok) := AfterEmit(d, e, max, maxBytes, sizeOf, f);
            var h := d.handle.value;
            && ok == f.write && after.handle == d.handle
            && after.files == if f.write then d.files[h := d.files[h] + [e]] else d.files
  {
    assert f.write || AfterEmit(d, e, max, maxBytes, sizeOf, f).0 == d;
  }

  /** A line that is written counts, also where the open file has been unlinked; a write that fails does not. */
  lemma {:induction false} EmitCounts<E>(d: Dir<E>, e: E, max: nat, maxBytes: int, sizeOf: seq<E> -> nat, f: Faults)
    ensures var before := if MustRotate(d, maxBytes, sizeOf([e])) then Rotated(d, max, f, sizeOf) else d;
            var (after, ok) := AfterEmit(d, e, max, maxBytes, sizeOf, f);
            after.size - before.size == (if ok then sizeOf([e]) else 0) && after.handle == before.handle
  {
    hide Rotated, MustRotate;
  }

  /** Where it does not fit, and nothing fails, it is alone in a fresh file, and what was open is the next one. */
  lemma {:induction false} OverflowingEmit<E>(d: Dir<E>, e: E, max: nat, maxBytes: int, sizeOf: seq<E> -> nat, f: Faults)
    requires max > 0 && Valid(d, max) && d.handle == Some(0) && NoFaults(f, max)
    requires d.size > 0 && maxBytes > 0 && d.size + sizeOf([e]) > maxBytes
    ensures var after := AfterEmit(d, e, max, maxBytes, sizeOf, f).0;
            after.handle == Some(0) && after.files[0] == [e] && 1 in after.files && after.files[1] == d.files[0]
  {
    hide Valid;
    StartsFree(d, max);
    ShiftKeepsSuffix(d, max, max, f);
    ShiftCompletes(d, max, max, f);
    OpenFileExists(d, max);
    NewestIsNext(d, max, max, f);
  }

  lemma {:induction false} OpenFileExists<E>(d: Dir<E>, max: nat)
    requires Valid(d, max) && d.handle.Some?
    ensures d.handle.value in d.files
  {}

  lemma {:induction false} NewestIsNext<E>(d: Dir<E>, i: nat, max: nat, f: Faults)
    requires 0 < i <= max && 0 in d.files && forall k: nat :: k <= max ==> f.rename(k)
    ensures var e := Shifted(d, i, max, f).0; 1 in e.files && e.files[1] == d.files[0]
    decreases i
  {
    var e := if i == max && f.remove then Remove(d, i) else d;
    if i > 1 {
      if i - 1 !in e.files { NewestIsNext(e, i - 1, max, f); } else { NewestIsNext(Rename(e, i - 1, i), i - 1, max, f); }
    }
  }

  /** Over any run, whatever fails, the size is that of the open file; and without failing rotations no file outgrows the limit. */
  lemma {:induction false} RunBounded<E(!new)>(d: Dir<E>, log: seq<E>, ops: seq<Op<E>>, max: nat, maxBytes: int,
                                         sizeOf: seq<E> -> nat)
    requires max > 0 && CountsBytes(sizeOf) && Valid(d, max) && Tracks(d, sizeOf)
    ensures var after := Run(d, log, ops, max, maxBytes, sizeOf).0;
            && Tracks(after, sizeOf)
            && (maxBytes > 0 && Bounded(d, maxBytes, sizeOf) && RotationsWork(ops, max) ==> Bounded(after, maxBytes, sizeOf))
    decreases |ops|
  {
    hide AfterEmit, Valid, Concat, CountsBytes;
    if ops != [] {
      match ops[0]
      case Emit(e, f) =>
        EmptySuffix(d, max);
        EmitKeepsSuffix(d, e, max, maxBytes, sizeOf, f, Concat(d.files, max));
        EmitTracks(d, e, max, maxBytes, sizeOf, f);
        var (after, ok) := AfterEmit(d, e, max, maxBytes, sizeOf, f);
        if maxBytes > 0 && Bounded(d, maxBytes, sizeOf) && RotationsWork(ops, max) {
          EmitBounded(d, e, max, maxBytes, sizeOf, f);
        }
        RunBounded(after, if ok then log + [e] else log, ops[1..], max, maxBytes, sizeOf);
      case Restart =>
        ValidAgain(d, max, sizeOf);
        EmptyIsSmall(sizeOf);
        RunBounded(Opened(d, sizeOf), log, ops[1..], max, maxBytes, sizeOf);
    }
  }

  predicate RotationsWork<E>(ops: seq<Op<E>>, max: nat) {
    forall k :: 0 <= k < |ops| && ops[k].Emit? ==> ops[k].f.reopen && forall i: nat :: i <= max ==> ops[k].f.rename(i)
  }

  lemma {:induction false} EmptySuffix<E>(d: Dir<E>, max: nat)
    ensures IsSuffix(Concat(d.files, max), Concat(d.files, max))
  {
    WholeSuffix(Concat(d.files, max));
  }

  lemma {:induction false} ValidAgain<E>(d: Dir<E>, max: nat, sizeOf: seq<E> -> nat)
    requires Valid(d, max)
    ensures Valid(Opened(d, sizeOf), max)
  {}

  lemma {:induction false} EmptyIsSmall<E(!new)>(sizeOf: seq<E> -> nat)
    requires CountsBytes(sizeOf)
    ensures sizeOf([]) == 0
  {
    var none: seq<E> := [];
    assert sizeOf(none + none) == sizeOf(none) + sizeOf(none) && none + none == none;
  }

  /** A run is its events in order. */
  lemma {:induction false} RunSnoc<E>(d: Dir<E>, log: seq<E>, ops: seq<Op<E>>, op: Op<E>, max: nat, maxBytes: int,
                                      sizeOf: seq<E> -> nat)
    ensures Run(d, log, [], max, maxBytes, sizeOf) == (d, log)
    ensures var (before, all) := Run(d, log, ops, max, maxBytes, sizeOf);
            Run(d, log, ops + [op], max, maxBytes, sizeOf) ==
            match op
            case Restart => (Opened(before, sizeOf), all)
            case Emit(e, f) =>
              var (after, ok) := AfterEmit(before, e, max, maxBytes, sizeOf, f);
              (after, if ok then all + [e] else all)
    decreases |ops|
  {
    hide AfterEmit, Opened;
    var all := ops + [op];
    if ops == [] {
      assert all[1..] == [];
    } else {
      assert all[1..] == ops[1..] + [op] && all[0] == ops[0];
      match ops[0]
      case Emit(e, f) =>
        var (after, ok) := AfterEmit(d, e, max, maxBytes, sizeOf, f);
        RunSnoc(after, if ok then log + [e] else log, ops[1..], op, max, maxBytes, sizeOf);
      case Restart =>
        RunSnoc(Opened(d, sizeOf), log, ops[1..], op, max, maxBytes, sizeOf);
    }
  }
}
