/** Giving up the L1 copy of a packed log, with a journal for crashes (internal/store/release.go). */
module ReleaseJournal {
  import opened Prelude

  /**
   * One generation: the pack it was last put in, whether its L1 copy counts as released, what is left of that copy,
   * and the pack that had been verified in the call that released it.
   */
  datatype Row = Row(sealed: bool, pack: Option<string>, released: bool, chunks: bool, files: bool, checked: Option<string>)

  datatype Status = Pending | MetaDone | Finished

  datatype Item = Item(id: int, pack: string, status: Status)

  /** Metadata, frame files and the journal file, as they are on disk. */
  datatype World = World(rows: map<int, Row>, journal: Option<Item>)

  /** How each write goes, and whether a pin or lease came up before the first; a failed removal of files is not noticed. */
  datatype Steps = Steps(pinned: bool, journal: Outcome, mark: Outcome, chunks: Outcome, files: Outcome, rewrite: Outcome,
                         clear: Outcome)

  function Put(w: World, id: int, r: Row): World { w.(rows := w.rows[id := r]) }

  /** Verify: the pack, when it is among those that are sound just now. */
  function Verified(pack: string, sound: set<string>): Option<string> { if pack in sound then Some(pack) else None }

  /** applyReleaseItem after a verification: check for pins, mark, drop the chunk rows, delete the files. */
  function Applied(w: World, item: Item, checked: Option<string>, s: Steps): (World, Status, Outcome)
    requires item.id in w.rows
  {
    if item.status == Finished then (w, Finished, Done)
    else
      var r := w.rows[item.id];
      if item.status == Pending && s.pinned then (w, Pending, Failed)
      else if item.status == Pending && !r.released && s.mark != Done then (w, Pending, s.mark)
      else
        var marked := if item.status == Pending && !r.released then r.(released := true, checked := checked) else r;
        var w1 := Put(w, item.id, marked);
        if item.status == Pending && s.chunks != Done then (w1, Pending, s.chunks)
        else
          var dropped := if item.status == Pending then marked.(chunks := false) else marked;
          var w2 := Put(w, item.id, dropped);
          if s.files == Crashed then (w2, MetaDone, Crashed)
          else (Put(w, item.id, if s.files == Done then dropped.(files := false) else dropped), Finished, Done)
  }

  datatype Reply = Skipped | Refused | Failure | Released | Died

  /** precheck lets the release go on. */
  predicate Releasable(w: World, id: int, held: bool) {
    id in w.rows && w.rows[id].sealed && !w.rows[id].released && w.rows[id].pack.Some? && !held
  }

  /** ReleasePackedL1. */
  function AfterRelease(w: World, id: int, held: bool, sound: set<string>, s: Steps): (World, Reply) {
    if !Releasable(w, id, held) then (w, Skipped)
    else
      var pack := w.rows[id].pack.value;
      var checked := Verified(pack, sound);
      if checked.None? then (w, Refused)
      else match s.journal
        case Crashed => (w, Died)
        case Failed => (w, Failure)
        case Done =>
          var item := Item(id, pack, Pending);
          var (after, status, outcome) := Applied(w.(journal := Some(item)), item, checked, s);
          match outcome
          case Crashed => (after, Died)
          case Failed => (if s.rewrite == Done then after.(journal := Some(item.(status := status))) else after,
                          if s.rewrite == Crashed then Died else Failure)
          case Done => (if s.clear == Done then after.(journal := None) else after, if s.clear == Crashed then Died else Released)
  }

  /** The pack recovery looks at: the one the generation is in now, else the journalled one. */
  function PackOf(w: World, item: Item): string
    requires item.id in w.rows
  {
    if w.rows[item.id].pack.Some? then w.rows[item.id].pack.value else item.pack
  }

  /** The journalled item is dropped without touching anything. */
  predicate Drops(w: World, held: bool, sound: set<string>) {
    w.journal.Some? && (w.journal.value.status == Finished || w.journal.value.id !in w.rows
                        || (w.journal.value.status == Pending && held)
                        || Verified(PackOf(w, w.journal.value), sound).None?)
  }

  /** RecoverReleaseJournal. */
  function AfterRecover(w: World, held: bool, sound: set<string>, s: Steps): (World, Reply) {
    if w.journal.None? then (w, Skipped)
    else if Drops(w, held, sound) then
      (if s.clear == Done then w.(journal := None) else w, if s.clear == Crashed then Died else Skipped)
    else
      var item := w.journal.value;
      var (after, status, outcome) := Applied(w, item, Verified(PackOf(w, item), sound), s);
      match outcome
      case Crashed => (after, Died)
      case Failed => (if s.rewrite == Done then after.(journal := Some(item.(status := status))) else after,
                      if s.rewrite == Crashed then Died else Failure)
      case Done =>
        if s.rewrite == Crashed then (after, Died)
        else
          var noted := if s.rewrite == Done then after.(journal := Some(item.(status := Finished))) else after;
          (if s.clear == Done then noted.(journal := None) else noted, if s.clear == Crashed then Died else Released)
  }

  class ReleaseManager {
    var rows: map<int, Row>
    var journal: Option<Item>

    function Snapshot(): World
      reads this
    {
      World(rows, journal)
    }

    constructor (w: World)
      ensures Snapshot() == w
    {
      rows, journal := w.rows, w.journal;
    }

    method ApplyReleaseItem(item: Item, checked: Option<string>, s: Steps) returns (status: Status, outcome: Outcome)
      requires item.id in rows
      modifies `rows
      ensures (Snapshot(), status, outcome) == Applied(old(Snapshot()), item, checked, s)
    {
      status := item.status;
      if status == Finished { return Finished, Done; }
      var id := item.id;
      ghost var was := rows;
      if status == Pending {
        if s.pinned { return Pending, Failed; }
        if !rows[id].released {
          if s.mark != Done { return Pending, s.mark; }
          rows := rows[id := rows[id].(released := true, checked := checked)];
        }
        assert rows == was[id := rows[id]];
        if s.chunks != Done { return Pending, s.chunks; }
        rows := rows[id := rows[id].(chunks := false)];
        status := MetaDone;
      }
      assert rows == was[id := rows[id]];
      if s.files == Crashed { return MetaDone, Crashed; }
      if s.files == Done { rows := rows[id := rows[id].(files := false)]; }
      assert rows == was[id := rows[id]];
      return Finished, Done;
    }

    method ReleasePackedL1(id: int, held: bool, sound: set<string>, s: Steps) returns (r: Reply)
      modifies this
      ensures (Snapshot(), r) == AfterRelease(old(Snapshot()), id, held, sound, s)
    {
      hide Applied;
      if id !in rows { return Skipped; }
      var g := rows[id];
      if !g.sealed || g.released || g.pack.None? || held { return Skipped; }
      var checked := Verified(g.pack.value, sound);
      if checked.None? { return Refused; }
      if s.journal == Crashed { return Died; }
      if s.journal == Failed { return Failure; }
      var item := Item(id, g.pack.value, Pending);
      journal := Some(item);
      var status, outcome := ApplyReleaseItem(item, checked, s);
      if outcome == Crashed { return Died; }
      if outcome == Failed {
        if s.rewrite == Done { journal := Some(item.(status := status)); }
        return if s.rewrite == Crashed then Died else Failure;
      }
      if s.clear == Done { journal := None; }
      return if s.clear == Crashed then Died else Released;
    }

    method RecoverReleaseJournal(held: bool, sound: set<string>, s: Steps) returns (r: Reply)
      modifies this
      ensures (Snapshot(), r) == AfterRecover(old(Snapshot()), held, sound, s)
    {
      hide Applied;
      if journal.None? { return Skipped; }
      var item := journal.value;
      var dropped := item.status == Finished || item.id !in rows || (item.status == Pending && held);
      var checked := None;
      if !dropped {
        checked := Verified(if rows[item.id].pack.Some? then rows[item.id].pack.value else item.pack, sound);
        dropped := checked.None?;
      }
      if dropped {
        if s.clear == Done { journal := None; }
        return if s.clear == Crashed then Died else Skipped;
      }
      var status, outcome := ApplyReleaseItem(item, checked, s);
      if outcome == Crashed { return Died; }
      if outcome == Failed {
        if s.rewrite == Done { journal := Some(item.(status := status)); }
        return if s.rewrite == Crashed then Died else Failure;
      }
      if s.rewrite == Crashed { return Died; }
      if s.rewrite == Done { journal := Some(item.(status := Finished)); }
      if s.clear == Done { journal := None; }
      return if s.clear == Crashed then Died else Released;
    }
  }

  // ---- What a call leaves behind ------------------------------------------------------------------------------

  /** How far the writes of a call get: to the mark, the chunk rows, the files. */
  datatype Reach = Reach(marks: bool, drops: bool, purges: bool)

  /** An item that is pending goes through all three writes, one that is past them through the last only. */
  function ReachOf(pending: bool, marked: bool, s: Steps): Reach {
    if pending then
      var m := !s.pinned && (marked || s.mark == Done);
      Reach(m, m && s.chunks == Done, m && s.chunks == Done && s.files == Done)
    else Reach(true, true, s.files == Done)
  }

  /** The row after writes that got so far. */
  ghost predicate RowAfter(r: Row, q: Row, pending: bool, reach: Reach, checked: Option<string>) {
    && q.sealed == r.sealed && q.pack == r.pack
    && q.released == (r.released || (pending && reach.marks))
    && q.checked == (if pending && reach.marks && !r.released then checked else r.checked)
    && q.chunks == (r.chunks && !(pending && reach.drops)) && q.files == (r.files && !reach.purges)
  }

  /** One journal item: how its row changes, and that no other does. */
  lemma {:induction false} AppliedRow(w: World, item: Item, checked: Option<string>, s: Steps)
    requires item.id in w.rows && item.status != Finished
    ensures var after := Applied(w, item, checked, s).0;
            && after.journal == w.journal && after.rows.Keys == w.rows.Keys
            && (forall k :: k in w.rows && k != item.id ==> after.rows[k] == w.rows[k])
            && RowAfter(w.rows[item.id], after.rows[item.id], item.status == Pending,
                        ReachOf(item.status == Pending, w.rows[item.id].released, s), checked)
  {}

  /** An item that is finished needs nothing more. */
  lemma {:induction false} FinishedItem(w: World, item: Item, checked: Option<string>, s: Steps)
    requires item.id in w.rows && item.status == Finished
    ensures Applied(w, item, checked, s) == (w, Finished, Done)
  {}

  /** A release lets be what is unsealed, released, in no pack, or held. */
  predicate LeftAlone(w: World, id: int, held: bool) {
    id !in w.rows || !w.rows[id].sealed || w.rows[id].released || w.rows[id].pack.None? || held
  }

  /** A release that starts: it got past the checks and wrote its journal. */
  predicate Starts(w: World, id: int, held: bool, sound: set<string>, s: Steps) {
    !LeftAlone(w, id, held) && w.rows[id].pack.value in sound && s.journal == Done
  }

  /**
   * From outside: a release that does not start changes nothing. One that starts changes its own row as far as its writes
   * get, and leaves a pending entry in the journal unless everything is done and the entry is cleared.
   */
  lemma {:induction false} ReleaseLeaves(w: World, id: int, held: bool, sound: set<string>, s: Steps)
    ensures var after := AfterRelease(w, id, held, sound, s).0;
            && (!Starts(w, id, held, sound, s) ==> after == w)
            && (Starts(w, id, held, sound, s) ==>
                  var reach := ReachOf(true, false, s);
                  && after.rows.Keys == w.rows.Keys
                  && (forall k :: k in w.rows && k != id ==> after.rows[k] == w.rows[k])
                  && RowAfter(w.rows[id], after.rows[id], true, reach, w.rows[id].pack)
                  && after.journal == if reach.drops && s.files != Crashed && s.clear == Done then None
                                      else Some(Item(id, w.rows[id].pack.value, Pending)))
  {
    if Starts(w, id, held, sound, s) {
      var item := Item(id, w.rows[id].pack.value, Pending);
      AppliedRow(w.(journal := Some(item)), item, w.rows[id].pack, s);
      AppliedOutcome(w.(journal := Some(item)), item, w.rows[id].pack, s);
      AppliedStatus(w.(journal := Some(item)), item, w.rows[id].pack, s);
    }
    hide Applied, RowAfter;
  }

  lemma {:induction false} AppliedStatus(w: World, item: Item, checked: Option<string>, s: Steps)
    requires item.id in w.rows && item.status != Finished
    ensures var (_, status, outcome) := Applied(w, item, checked, s);
            && (outcome == Failed ==> item.status == Pending && status == Pending) && (outcome == Done ==> status == Finished)
            && (item.status == MetaDone ==> outcome == if s.files == Crashed then Crashed else Done)
  {}

  /** The call reports the first write that went wrong. */
  function FirstWrong(s: Steps, marked: bool): Outcome {
    if s.pinned then Failed else if !marked && s.mark != Done then s.mark else if s.chunks != Done then s.chunks
    else if s.files == Crashed then Crashed else Done
  }

  lemma {:induction false} ReleaseReports(w: World, id: int, held: bool, sound: set<string>, s: Steps)
    ensures AfterRelease(w, id, held, sound, s).1
         == if LeftAlone(w, id, held) then Skipped
            else if w.rows[id].pack.value !in sound then Refused
            else if s.journal != Done then (if s.journal == Failed then Failure else Died)
            else match FirstWrong(s, false)
              case Crashed => Died
              case Failed => if s.rewrite == Crashed then Died else Failure
              case Done => if s.clear == Crashed then Died else Released
  {
    if Starts(w, id, held, sound, s) {
      var item := Item(id, w.rows[id].pack.value, Pending);
      AppliedOutcome(w.(journal := Some(item)), item, w.rows[id].pack, s);
    }
    hide Applied;
  }

  /** What a recovery finds in the journal that it will not go on with. */
  predicate Obsolete(w: World, held: bool, sound: set<string>)
    requires w.journal.Some?
  {
    var item := w.journal.value;
    || item.status == Finished || item.id !in w.rows || (item.status == Pending && held)
    || (match w.rows[item.id].pack case Some(pack) => pack !in sound case None => item.pack !in sound)
  }

  /** A recovery, from outside: the row of the journalled item as far as the writes get, and the journal. */
  lemma {:induction false} RecoverLeaves(w: World, held: bool, sound: set<string>, s: Steps)
    ensures var after := AfterRecover(w, held, sound, s).0;
            if w.journal.None? then after == w
            else if Obsolete(w, held, sound) then after == w.(journal := if s.clear == Done then None else w.journal)
            else
              var item := w.journal.value;
              var r := w.rows[item.id];
              var pending := item.status == Pending;
              var outcome := if pending then FirstWrong(s, r.released) else if s.files == Crashed then Crashed else Done;
              && after.rows.Keys == w.rows.Keys && (forall k :: k in w.rows && k != item.id ==> after.rows[k] == w.rows[k])
              && RowAfter(r, after.rows[item.id], pending, ReachOf(pending, r.released, s),
                          Some(if r.pack.Some? then r.pack.value else item.pack))
              && after.journal == if outcome != Done || s.rewrite == Crashed then w.journal
                                  else if s.clear == Done then None
                                  else if s.rewrite == Done then Some(item.(status := Finished)) else w.journal
  {
    if w.journal.Some? && !Obsolete(w, held, sound) {
      var item := w.journal.value;
      var checked := Verified(PackOf(w, item), sound);
      AppliedRow(w, item, checked, s);
      AppliedStatus(w, item, checked, s);
      if item.status == Pending { AppliedFirstWrong(w, item, checked, s); }
    }
    hide Applied, RowAfter;
  }

  lemma {:induction false} AppliedFirstWrong(w: World, item: Item, checked: Option<string>, s: Steps)
    requires item.id in w.rows && item.status == Pending
    ensures Applied(w, item, checked, s).2 == FirstWrong(s, w.rows[item.id].released)
  {}

  lemma {:induction false} RecoverReports(w: World, held: bool, sound: set<string>, s: Steps)
    ensures AfterRecover(w, held, sound, s).1
         == if w.journal.None? then Skipped
            else if Obsolete(w, held, sound) then (if s.clear == Crashed then Died else Skipped)
            else
              var item := w.journal.value;
              var outcome := if item.status == Pending then FirstWrong(s, w.rows[item.id].released)
                             else if s.files == Crashed then Crashed else Done;
              match outcome
              case Crashed => Died
              case Failed => if s.rewrite == Crashed then Died else Failure
              case Done => if s.rewrite == Crashed || s.clear == Crashed then Died else Released
  {
    if w.journal.Some? && !Obsolete(w, held, sound) {
      var item := w.journal.value;
      var checked := Verified(PackOf(w, item), sound);
      AppliedStatus(w, item, checked, s);
      if item.status == Pending { AppliedFirstWrong(w, item, checked, s); }
    }
    hide Applied;
  }

  // ---- Never both missing -----------------------------------------------------------------------------------

  /** Either the whole L1 copy is there, or the log is in a pack, the one verified by the call that gave L1 up. */
  predicate Available(r: Row) {
    && (!r.released ==> r.chunks && r.files)
    && (r.released ==> r.sealed && r.pack.Some? && r.checked == r.pack)
  }

  ghost predicate Safe(w: World) {
    && (forall id :: id in w.rows ==> Available(w.rows[id]))
    && (w.journal.Some? && w.journal.value.id in w.rows ==>
          var r := w.rows[w.journal.value.id];
          r.sealed && r.pack.Some? && (w.journal.value.status != Pending ==> r.released))
  }

  /** Besides releases and recoveries: a new log is sealed, a log is put in a pack, a generation is evicted. */
  datatype Op =
    | Release(id: int, held: bool, sound: set<string>, steps: Steps)
    | Recover(held: bool, sound: set<string>, steps: Steps)
    | Seal(id: int)
    | Pack(id: int, pack: string)
    | Evict(id: int)

  function Step(w: World, op: Op): World {
    match op
    case Release(id, held, sound, steps) => AfterRelease(w, id, held, sound, steps).0
    case Recover(held, sound, steps) => AfterRecover(w, held, sound, steps).0
    case Seal(id) =>
      if id in w.rows || (w.journal.Some? && w.journal.value.id == id) then w
      else w.(rows := w.rows[id := Row(true, None, false, true, true, None)])
    case Pack(id, pack) =>
      if id in w.rows && w.rows[id].sealed && !w.rows[id].released then Put(w, id, w.rows[id].(pack := Some(pack))) else w
    case Evict(id) => w.(rows := w.rows - {id})
  }

  function Run(w: World, ops: seq<Op>): World
    decreases |ops|
  {
    if ops == [] then w else Run(Step(w, ops[0]), ops[1..])
  }

  /** Events from outside: a log is sealed with its whole L1 copy, a log that has it gets into a pack, a row is evicted. */
  lemma {:induction false} OutsideEvents(w: World, id: int, pack: string)
    ensures id !in w.rows && (w.journal.None? || w.journal.value.id != id) ==>
              Step(w, Seal(id)) == World(w.rows[id := Row(true, None, false, true, true, None)], w.journal)
    ensures id in w.rows && w.rows[id].sealed && !w.rows[id].released ==>
              Step(w, Pack(id, pack)) == World(w.rows[id := w.rows[id].(pack := Some(pack))], w.journal)
    ensures id !in Step(w, Evict(id)).rows && forall k :: k in w.rows && k != id ==> k in Step(w, Evict(id)).rows
  {}

  /** A run is its events in order. */
  lemma {:induction false} RunSnoc(w: World, ops: seq<Op>, op: Op)
    ensures Run(w, ops + [op]) == Step(Run(w, ops), op)
    decreases |ops|
  {
    hide Step;
    if ops == [] {
      assert (ops + [op])[1..] == [];
    } else {
      assert (ops + [op])[1..] == ops[1..] + [op];
      RunSnoc(Step(w, ops[0]), ops[1..], op);
    }
  }

  /** One item, however far it gets: only its own row changes, and it stays available if its own pack was verified. */
  lemma {:induction false} AppliedSafe(w: World, item: Item, checked: Option<string>, s: Steps)
    requires item.id in w.rows && w.rows[item.id].sealed && Available(w.rows[item.id])
    requires checked.Some? && checked == w.rows[item.id].pack
    requires item.status != Pending ==> w.rows[item.id].released
    ensures var (after, status, outcome) := Applied(w, item, checked, s);
            && after.journal == w.journal && after.rows.Keys == w.rows.Keys
            && (forall k :: k in w.rows && k != item.id ==> after.rows[k] == w.rows[k])
            && var r := after.rows[item.id];
               Available(r) && r.sealed && r.pack == checked && (status != Pending || w.rows[item.id].released ==> r.released)
    ensures Applied(w, item, checked, s).2 == Done ==> Applied(w, item, checked, s).1 == Finished
  {}

  lemma {:induction false} StepSafe(w: World, op: Op)
    requires Safe(w)
    ensures Safe(Step(w, op))
  {
    hide Applied;
    match op
    case Release(id, held, sound, s) =>
      if Releasable(w, id, held) && w.rows[id].pack.value in sound {
        var item := Item(id, w.rows[id].pack.value, Pending);
        AppliedSafe(w.(journal := Some(item)), item, w.rows[id].pack, s);
      }
    case Recover(held, sound, s) =>
      if w.journal.Some? && !Drops(w, held, sound) {
        AppliedSafe(w, w.journal.value, Verified(PackOf(w, w.journal.value), sound), s);
      }
    case Seal(_) =>
    case Pack(_, _) =>
    case Evict(_) =>
  }

  /**
   * In every state a run can reach, with a crash at any write, no log has lost both its copies: where its L1 copy was
   * released, it is in the very pack that the releasing call, or the recovery that took over, had verified.
   */
  lemma {:induction false} RunSafe(w: World, ops: seq<Op>)
    requires Safe(w)
    ensures Safe(Run(w, ops))
    decreases |ops|
  {
    hide Safe, Step;
    if ops != [] {
      StepSafe(w, ops[0]);
      RunSafe(Step(w, ops[0]), ops[1..]);
    }
  }

  /** A call takes something of the L1 copy of a generation that stays. */
  predicate TakesL1(w: World, after: World, id: int) {
    && id in w.rows && id in after.rows
    && ((w.rows[id].chunks && !after.rows[id].chunks) || (w.rows[id].files && !after.rows[id].files)
        || (!w.rows[id].released && after.rows[id].released))
  }

  /** The packs that verify during a call; none are looked at by the others. */
  function SoundDuring(op: Op): set<string> {
    match op
    case Release(_, _, sound, _) => sound
    case Recover(_, sound, _) => sound
    case _ => {}
  }

  /** In any reachable state, whatever is taken from an L1 copy is taken while the log's pack verifies. */
  lemma {:induction false} TakenOnlyWhileSound(w: World, ops: seq<Op>, op: Op, id: int)
    requires Safe(w) && TakesL1(Run(w, ops), Step(Run(w, ops), op), id)
    ensures Run(w, ops).rows[id].pack.Some? && Run(w, ops).rows[id].pack.value in SoundDuring(op)
  {
    RunSafe(w, ops);
    StepTakesWhileSound(Run(w, ops), op, id);
  }

  lemma {:induction false} StepTakesWhileSound(w: World, op: Op, id: int)
    requires Safe(w) && TakesL1(w, Step(w, op), id)
    ensures w.rows[id].pack.Some? && w.rows[id].pack.value in SoundDuring(op)
  {
    hide Applied;
    match op
    case Release(k, held, sound, s) =>
      if Releasable(w, k, held) && w.rows[k].pack.value in sound {
        var item := Item(k, w.rows[k].pack.value, Pending);
        AppliedSafe(w.(journal := Some(item)), item, w.rows[k].pack, s);
      }
    case Recover(held, sound, s) =>
      if w.journal.Some? && !Drops(w, held, sound) {
        AppliedSafe(w, w.journal.value, Verified(PackOf(w, w.journal.value), sound), s);
      }
    case Seal(_) =>
    case Pack(_, _) =>
    case Evict(_) =>
  }

  // ---- What is left behind ----------------------------------------------------------------------------------

  /** A released generation whose chunk rows or frame files are still there. */
  predicate Orphan(w: World, id: int) {
    id in w.rows && w.rows[id].released && (w.rows[id].chunks || w.rows[id].files)
  }

  /** The journal still knows about every orphan. */
  predicate Tracked(w: World) {
    forall id :: id in w.rows && Orphan(w, id) ==> w.journal.Some? && w.journal.value.id == id && w.journal.value.status != Finished
  }

  /** What one application leaves of its item: nothing, unless it stopped short or the files stayed. */
  lemma {:induction false} AppliedLeaves(w: World, item: Item, checked: Option<string>, s: Steps)
    requires item.id in w.rows && Available(w.rows[item.id]) && (item.status == Pending || !w.rows[item.id].chunks)
    requires item.status != Finished && (item.status != Pending ==> w.rows[item.id].released)
    ensures var (after, status, outcome) := Applied(w, item, checked, s);
            && after.journal == w.journal && after.rows.Keys == w.rows.Keys
            && (forall k :: k in w.rows && k != item.id ==> after.rows[k] == w.rows[k])
            && (status == Finished <==> outcome == Done)
            && (status == Finished ==> (Orphan(after, item.id) <==> s.files != Done && w.rows[item.id].files))
            && (status == MetaDone ==> !after.rows[item.id].chunks)
  {}

  /**
   * A release loses track of leftovers exactly when it gets as far as its journal and either overwrites
   * the entry of another orphan, or finishes although the files stayed.
   */
  lemma {:induction false} ReleaseTracksIff(w: World, id: int, held: bool, sound: set<string>, s: Steps)
    requires Safe(w) && Tracked(w)
    ensures Tracked(AfterRelease(w, id, held, sound, s).0) <==>
            !(Releasable(w, id, held) && w.rows[id].pack.value in sound && s.journal == Done
              && ((w.journal.Some? && w.journal.value.id != id && Orphan(w, w.journal.value.id))
                  || (!s.pinned && s.mark == Done && s.chunks == Done && s.files == Failed && s.clear == Done)))
  {
    if Releasable(w, id, held) && w.rows[id].pack.value in sound && s.journal == Done {
      var item := Item(id, w.rows[id].pack.value, Pending);
      var begun := w.(journal := Some(item));
      AppliedLeaves(begun, item, w.rows[id].pack, s);
      AppliedOutcome(begun, item, w.rows[id].pack, s);
      var after := AfterRelease(w, id, held, sound, s).0;
      hide Applied;
      if w.journal.Some? && w.journal.value.id != id && Orphan(w, w.journal.value.id) {
        assert Orphan(after, w.journal.value.id);
      }
      assert Orphan(after, id) || !Orphan(after, id);
    }
  }

  lemma {:induction false} AppliedOutcome(w: World, item: Item, checked: Option<string>, s: Steps)
    requires item.id in w.rows && item.status == Pending && !w.rows[item.id].released
    ensures Applied(w, item, checked, s).2 == if s.pinned then Failed else if s.mark != Done then s.mark
                                              else if s.chunks != Done then s.chunks
                                              else if s.files == Crashed then Crashed else Done
  {}

  /**
   * A recovery in which every write goes through and no pin comes up clears the journal, and leaves an orphan behind
   * exactly when the item still counts as pending while the generation is held, or the pack no longer verifies.
   */
  lemma {:induction false} UndisturbedRecoveryFinishesIff(w: World, held: bool, sound: set<string>, s: Steps)
    requires Safe(w) && Tracked(w) && w.journal.Some? && Orphan(w, w.journal.value.id)
    requires s == Steps(false, Done, Done, Done, Done, Done, Done)
    requires w.journal.value.status == MetaDone ==> !w.rows[w.journal.value.id].chunks
    ensures var after := AfterRecover(w, held, sound, s).0;
            after.journal.None?
            && (Orphan(after, w.journal.value.id) <==>
                (held && w.journal.value.status == Pending) || w.rows[w.journal.value.id].pack.value !in sound)
  {
    if !Drops(w, held, sound) { AppliedLeaves(w, w.journal.value, Verified(PackOf(w, w.journal.value), sound), s); }
  }

  /**
   * A crash after the release was marked leaves the item pending on disk, so a pin set before the next
   * start makes recovery drop it: the files of a released generation stay, with nothing left to remove them.
   */
  lemma {:induction false} PinAfterCrashLeavesFiles(w: World, id: int, sound: set<string>, s: Steps, t: Steps)
    requires Safe(w) && Releasable(w, id, false) && w.rows[id].pack.value in sound
    requires !s.pinned && s.journal == Done && s.mark == Done && s.chunks == Done && s.files == Crashed && t.clear == Done
    ensures var crashed := AfterRelease(w, id, false, sound, s).0;
            var after := AfterRecover(crashed, true, sound, t).0;
            crashed.journal == Some(Item(id, w.rows[id].pack.value, Pending)) && Orphan(after, id) && after.journal.None?
  {}
}
