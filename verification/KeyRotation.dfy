/** Cache encryption keys (cmd/jenkins-mcp/doctor_cmd.go, cache_crypto.go, internal/keyring/cache_key.go). */
module KeyRotation {
  import opened Prelude
  import opened Frames

  const KEY_SIZE := 32

  type Material = seq<byte>

  /** A keyring entry that does not decode to 32 bytes is corrupt. */
  datatype Slot = Good(material: Material) | Corrupt

  /** The keyring entries of one profile, and the two profile fields that matter. */
  datatype Keys = Keys(ring: map<int, Slot>, encryption: bool, version: int)

  /** How a keyring lookup goes: it answers, the secret service is unavailable, or something else breaks. */
  datatype Lookup = Answers | Unavailable | Breaks

  // ---- Init and rotate ------------------------------------------------------------------------------------

  /** HasCacheKey: an unavailable service counts as no key, a corrupt entry as a key. */
  function HasKey(s: Keys, version: int, lookup: Lookup): Result<bool, ()> {
    match lookup
    case Answers => Ok(version in s.ring)
    case Unavailable => Ok(false)
    case Breaks => Err(())
  }

  datatype Steps = Steps(probe: Lookup, store: Outcome, save: Outcome, drop: Outcome)

  datatype InitResult = AlreadyEnabled | CannotRotate | ProbeFailed | NotStored | NotSaved | Enabled(version: int) | Died

  /** Whether init returns without touching anything. */
  predicate NothingToDo(s: Keys, probe: Lookup) {
    s.version >= 1 && s.encryption && HasKey(s, s.version, probe) == Ok(true)
  }

  /** runCacheKeyInit with the freshly generated material. */
  function AfterInit(s: Keys, rotate: bool, newKey: Material, steps: Steps): (Keys, InitResult) {
    if rotate && s.version < 1 then (s, CannotRotate)
    else if !rotate && s.version >= 1 && steps.probe.Breaks? then (s, ProbeFailed)
    else if !rotate && NothingToDo(s, steps.probe) then (s, AlreadyEnabled)
    else
      var next := if rotate then s.version + 1 else if s.version >= 1 then s.version else 1;
      match steps.store
      case Crashed => (s, Died)
      case Failed => (s, NotStored)
      case Done =>
        var stored := s.(ring := s.ring[next := Good(newKey)]);
        match steps.save
        case Crashed => (stored, Died)
        case Failed => (stored, NotSaved)
        case Done =>
          var saved := stored.(encryption := true, version := next);
          if !rotate || next - 2 < 1 then (saved, Enabled(next))
          else match steps.drop
            case Crashed => (saved, Died)
            case Failed => (saved, Enabled(next))
            case Done => (saved.(ring := saved.ring - {next - 2}), Enabled(next))
  }

  class KeyCommands {
    var ring: map<int, Slot>
    var encryption: bool
    var version: int

    function Snapshot(): Keys
      reads this
    {
      Keys(ring, encryption, version)
    }

    constructor (s: Keys)
      ensures Snapshot() == s
    {
      ring, encryption, version := s.ring, s.encryption, s.version;
    }

    /** SetCacheKey refuses anything but 32 bytes. */
    method SetCacheKey(v: int, material: array<byte>, outcome: Outcome) returns (r: Outcome)
      requires material.Length == KEY_SIZE
      modifies `ring
      ensures r == outcome && ring == if r == Done then old(ring)[v := Good(material[..])] else old(ring)
    {
      if outcome == Done { ring := ring[v := Good(material[..])]; }
      return outcome;
    }

    /** The whole command; the caller's key buffer is wiped as soon as the keyring holds the key. */
    method RunCacheKeyInit(rotate: bool, material: array<byte>, steps: Steps) returns (r: InitResult)
      requires material.Length == KEY_SIZE
      modifies this, material
      ensures (Snapshot(), r) == AfterInit(old(Snapshot()), rotate, old(material[..]), steps)
      ensures ring != old(ring) || r.Enabled? || r.NotSaved? ==> forall i :: 0 <= i < KEY_SIZE ==> material[i] == 0
      ensures r.AlreadyEnabled? || r.CannotRotate? || r.ProbeFailed? || r.NotStored? ==> material[..] == old(material[..])
    {
      var next := 1;
      if rotate {
        if version < 1 { return CannotRotate; }
        next := version + 1;
      } else if version >= 1 {
        var has := HasKey(Snapshot(), version, steps.probe);
        if has.Err? { return ProbeFailed; }
        if has.value && encryption { return AlreadyEnabled; }
        next := version;
      }
      var stored := SetCacheKey(next, material, steps.store);
      if stored == Crashed { return Died; }
      if stored == Failed { return NotStored; }
      for i := 0 to KEY_SIZE
        invariant forall k :: 0 <= k < i ==> material[k] == 0
        invariant Snapshot() == old(Snapshot()).(ring := old(ring)[next := Good(old(material[..]))])
      {
        material[i] := 0;
      }
      if steps.save == Crashed { return Died; }
      if steps.save == Failed { return NotSaved; }
      encryption, version := true, next;
      if rotate && next - 2 >= 1 {
        if steps.drop == Crashed { return Died; }
        if steps.drop == Done { ring := ring - {next - 2}; }
      }
      return Enabled(next);
    }
  }

  // ---- What a command leaves behind ---------------------------------------------------------------------------

  /** Nothing happens: a rotation without a key, a broken keyring, or an init that finds its key in use. */
  predicate Declined(s: Keys, rotate: bool, probe: Lookup) {
    if rotate then s.version <= 0
    else s.version > 0 && (probe == Breaks || (probe == Answers && s.encryption && s.version in s.ring))
  }

  /** The version a command writes: the first, the current one again, or on rotation the next. */
  function Target(s: Keys, rotate: bool): int { if s.version <= 0 then 1 else if rotate then s.version + 1 else s.version }

  /**
   * From outside: a declined command changes nothing and says why. Otherwise the new key is stored under the target
   * version, then the profile is switched to it with encryption on, then a rotation drops the version two before; a step
   * that fails or dies leaves exactly what the steps before it did.
   */
  lemma {:induction false} CommandLeaves(s: Keys, rotate: bool, newKey: Material, steps: Steps)
    ensures var (t, r) := AfterInit(s, rotate, newKey, steps);
            var n := Target(s, rotate);
            var stored := !Declined(s, rotate, steps.probe) && steps.store == Done;
            var switched := stored && steps.save == Done;
            var dropped := switched && rotate && n > 2 && steps.drop == Done;
            && (forall v :: v in t.ring <==> (v in s.ring || (stored && v == n)) && !(dropped && v == n - 2))
            && (forall v :: v in t.ring ==> t.ring[v] == if stored && v == n then Good(newKey) else s.ring[v])
            && t.version == (if switched then n else s.version) && t.encryption == (switched || s.encryption)
            && (r.Enabled? ==> switched && r.version == n)
            && (switched && !(rotate && n > 2 && steps.drop == Crashed) ==> r.Enabled?)
  {}

  /** And what it reports when it does not get that far. */
  lemma {:induction false} CommandReports(s: Keys, rotate: bool, newKey: Material, steps: Steps)
    ensures var r := AfterInit(s, rotate, newKey, steps).1;
            if Declined(s, rotate, steps.probe) then
              r == (if rotate then CannotRotate else if steps.probe == Breaks then ProbeFailed else AlreadyEnabled)
            else if steps.store != Done then r == (if steps.store == Failed then NotStored else Died)
            else if steps.save != Done then r == (if steps.save == Failed then NotSaved else Died)
            else r == (if rotate && Target(s, rotate) > 2 && steps.drop == Crashed then Died else Enabled(Target(s, rotate)))
  {}

  // ---- Loading and opening ----------------------------------------------------------------------------------

  datatype Key = Key(version: int, material: Material)

  datatype Envelope = Envelope(write: Key, prev: Option<Key>)

  datatype Loaded = Plain | LoadFailed | Ready(envelope: Envelope)

  /** GetCacheKey. */
  function Get(s: Keys, version: int, lookup: Lookup): Option<Material> {
    if lookup.Answers? && version >= 1 && version in s.ring && s.ring[version].Good? then Some(s.ring[version].material) else None
  }

  /** loadProfileFrameCrypto: write key N, and N-1 when that lookup succeeds. */
  function Load(s: Keys, forced: bool, lookup: Lookup, prevLookup: Lookup): Loaded {
    if !(s.encryption || forced) then Plain
    else if s.version < 1 then LoadFailed
    else match Get(s, s.version, lookup)
      case None => LoadFailed
      case Some(m) =>
        var prev := if s.version > 1 then Get(s, s.version - 1, prevLookup) else None;
        Ready(Envelope(Key(s.version, m), match prev case Some(p) => Some(Key(s.version - 1, p)) case None => None))
  }

  /** A sealed frame opens under an envelope exactly when one of its keys is the one it was sealed with. */
  predicate Opens(e: Envelope, sealedWith: Key) {
    e.write.material == sealedWith.material || (e.prev.Some? && e.prev.value.material == sealedWith.material)
  }

  /** A usable key of that version: there, whole, and found by the lookup. */
  predicate Usable(s: Keys, v: int, lookup: Lookup) { lookup == Answers && v in s.ring && s.ring[v].Good? }

  /**
   * Sealing goes on in the clear exactly when encryption is neither on nor forced; otherwise loading fails exactly when
   * there is no usable key of the write version. It seals with that one, and opens with the version before as well
   * exactly when there is such a version and its key is usable.
   */
  lemma {:induction false} LoadIff(s: Keys, forced: bool, lookup: Lookup, prevLookup: Lookup)
    ensures var l := Load(s, forced, lookup, prevLookup);
            && (l == Plain <==> !s.encryption && !forced)
            && (l.Ready? <==> (s.encryption || forced) && s.version >= 1 && Usable(s, s.version, lookup))
            && (l.Ready? ==>
                  && l.envelope.write == Key(s.version, s.ring[s.version].material)
                  && (l.envelope.prev.Some? <==> s.version >= 2 && Usable(s, s.version - 1, prevLookup))
                  && (l.envelope.prev.Some? ==> l.envelope.prev.value == Key(s.version - 1, s.ring[s.version - 1].material)))
  {}

  // ---- Runs -------------------------------------------------------------------------------------------------

  /** The keys together with what has happened: every write key a process ever loaded, and every generated material. */
  datatype World = World(keys: Keys, used: set<Key>, born: map<Material, int>)

  /** Held for version v: the keyring has it, with the very material all its frames were sealed with. */
  ghost predicate Held(w: World, v: int) {
    && v in w.keys.ring && w.keys.ring[v].Good?
    && forall k :: k in w.used && k.version == v ==> k.material == w.keys.ring[v].material
  }

  /** Keys N and N-1 are held, and no frame was ever sealed beyond N. */
  ghost predicate Retained(w: World) {
    var n := w.keys.version;
    && 0 <= n && (w.keys.encryption ==> n >= 1)
    && (n >= 1 ==> Held(w, n)) && (n > 1 ==> Held(w, n - 1))
    && forall k :: k in w.used ==> 1 <= k.version <= n
  }

  /** Materials remember the version they were generated for. */
  ghost predicate Traced(w: World) {
    && (forall k :: k in w.used ==> k.material in w.born && w.born[k.material] == k.version)
    && (forall v :: v in w.keys.ring && w.keys.ring[v].Good? ==>
          w.keys.ring[v].material in w.born && w.born[w.keys.ring[v].material] == v)
  }

  /** Exactly N and N-1 are in the keyring. */
  ghost predicate Tidy(s: Keys) {
    s.ring.Keys == (if s.version >= 1 then {s.version} else {}) + (if s.version > 1 then {s.version - 1} else {})
  }

  datatype Op =
    | Command(rotate: bool, newKey: Material, steps: Steps)
    | Open(lookup: Lookup, prevLookup: Lookup)
    | SwitchOff

  function NextVersion(s: Keys, rotate: bool): int {
    if rotate then s.version + 1 else if s.version >= 1 then s.version else 1
  }

  function Step(w: World, op: Op): World {
    match op
    case Command(rotate, newKey, steps) =>
      var s := AfterInit(w.keys, rotate, newKey, steps).0;
      World(s, w.used, if s.ring == w.keys.ring then w.born else w.born[newKey := NextVersion(w.keys, rotate)])
    case Open(lookup, prevLookup) =>
      (match Load(w.keys, false, lookup, prevLookup)
       case Ready(e) => w.(used := w.used + {e.write})
       case _ => w)
    case SwitchOff => w.(keys := w.keys.(encryption := false))
  }

  predicate FreshOp(w: World, op: Op) {
    op.Command? ==> |op.newKey| == KEY_SIZE && op.newKey !in w.born
  }

  /** The init that loses keys: it regenerates a version under which frames have been sealed. */
  predicate Regenerates(w: World, op: Op) {
    && op.Command? && !op.rotate && w.keys.version >= 1 && op.steps.store == Done
    && (op.steps.probe.Unavailable? || (op.steps.probe.Answers? && !w.keys.encryption))
    && exists k :: k in w.used && k.version == w.keys.version
  }

  lemma {:induction false} BlankProfile()
    ensures Retained(World(Keys(map[], false, 0), {}, map[])) && Traced(World(Keys(map[], false, 0), {}, map[]))
    ensures Tidy(Keys(map[], false, 0))
  {}

  /** A step keeps both keys, unless it is an init that finds its key unavailable or encryption off and regenerates it. */
  lemma {:induction false} StepRetainsIff(w: World, op: Op)
    requires Retained(w) && Traced(w) && FreshOp(w, op)
    ensures Retained(Step(w, op)) <==> !Regenerates(w, op)
  {
    if Regenerates(w, op) {
      var k :| k in w.used && k.version == w.keys.version;
      assert k.material in w.born;
      assert !Held(Step(w, op), w.keys.version);
    }
  }

  lemma {:induction false} StepTraced(w: World, op: Op)
    requires Retained(w) && Traced(w) && FreshOp(w, op)
    ensures Traced(Step(w, op))
  {
    hide Held;
  }

  function Run(w: World, ops: seq<Op>): World
    decreases |ops|
  {
    if ops == [] then w else Run(Step(w, ops[0]), ops[1..])
  }

  /** A run is its steps in order. */
  lemma {:induction false} RunSnoc(w: World, ops: seq<Op>, op: Op)
    ensures Run(w, ops + [op]) == Step(Run(w, ops), op)
    decreases |ops|
  {
    hide Step;
    if ops == [] {
      assert (ops + [op])[1..] == [];
    } else {
      assert (ops + [op])[1..] == ops[1..] + [op];
      RunSnoc(Step(w, ops[0]), ops[1..], op);
    }
  }

  /** Fresh materials throughout, encryption never switched off by hand, and a keyring that answers every init. */
  predicate Regular(w: World, ops: seq<Op>)
    decreases |ops|
  {
    ops == [] || (FreshOp(w, ops[0]) && !ops[0].SwitchOff? && (ops[0].Command? ==> !ops[0].steps.probe.Unavailable?)
                  && Regular(Step(w, ops[0]), ops[1..]))
  }

  predicate EncryptedSince(s: Keys) { s.encryption <==> s.version >= 1 }

  lemma {:induction false} RegularStep(w: World, op: Op)
    requires Retained(w) && Traced(w) && EncryptedSince(w.keys) && FreshOp(w, op) && !op.SwitchOff?
    requires op.Command? ==> !op.steps.probe.Unavailable?
    ensures Retained(Step(w, op)) && Traced(Step(w, op)) && EncryptedSince(Step(w, op).keys)
  {
    StepRetainsIff(w, op);
    StepTraced(w, op);
  }

  /** Over any regular run, whatever fails or crashes, both keys are retained. */
  lemma {:induction false} RunRetains(w: World, ops: seq<Op>)
    requires Retained(w) && Traced(w) && EncryptedSince(w.keys) && Regular(w, ops)
    ensures Retained(Run(w, ops)) && Traced(Run(w, ops)) && EncryptedSince(Run(w, ops).keys)
    decreases |ops|
  {
    hide Retained, Traced, Step, EncryptedSince;
    if ops != [] {
      RegularStep(w, ops[0]);
      RunRetains(Step(w, ops[0]), ops[1..]);
    }
  }

  /**
   * A process that loads its keys now opens a frame sealed at any time in the past exactly when the
   * frame's version is the write version or the one before.
   */
  lemma {:induction false} ReadableIffRecent(w: World, sealedWith: Key)
    requires Retained(w) && Traced(w) && w.keys.encryption && sealedWith in w.used
    ensures Load(w.keys, false, Answers, Answers).Ready?
    ensures Opens(Load(w.keys, false, Answers, Answers).envelope, sealedWith) <==> sealedWith.version >= w.keys.version - 1
  {
    assert Held(w, w.keys.version);
  }

  /** From a fresh profile, over any regular run: every frame sealed at N or N-1 can be read, and no older one. */
  lemma {:induction false} FramesStayReadable(ops: seq<Op>, sealedWith: Key)
    requires Regular(World(Keys(map[], false, 0), {}, map[]), ops)
    requires sealedWith in Run(World(Keys(map[], false, 0), {}, map[]), ops).used
    ensures var w := Run(World(Keys(map[], false, 0), {}, map[]), ops);
            && Load(w.keys, false, Answers, Answers).Ready?
            && (Opens(Load(w.keys, false, Answers, Answers).envelope, sealedWith) <==> sealedWith.version >= w.keys.version - 1)
  {
    hide Run, Regular, Load, Opens, Traced;
    BlankProfile();
    RunRetains(World(Keys(map[], false, 0), {}, map[]), ops);
    var w := Run(World(Keys(map[], false, 0), {}, map[]), ops);
    assert 1 <= sealedWith.version <= w.keys.version;
    ReadableIffRecent(w, sealedWith);
  }

  predicate AllDone(op: Op) {
    op.Command? ==> op.steps.store == Done && op.steps.save == Done && op.steps.drop == Done
  }

  /** When no write fails, exactly the last two versions are in the keyring. */
  lemma {:induction false} TidyStep(w: World, op: Op)
    requires Retained(w) && Tidy(w.keys) && AllDone(op)
    ensures Tidy(Step(w, op).keys)
  {
    var s, t := w.keys, Step(w, op).keys;
    if op.Command? && t.ring != s.ring {
      forall v ensures v in t.ring <==> v == t.version || (v == t.version - 1 && v >= 1) {}
    }
  }

  /** Over a whole regular run without failed writes, exactly the last two versions remain. */
  lemma {:induction false} RunTidy(w: World, ops: seq<Op>)
    requires Retained(w) && Traced(w) && EncryptedSince(w.keys) && Tidy(w.keys) && Regular(w, ops)
    requires forall i :: 0 <= i < |ops| ==> AllDone(ops[i])
    ensures Tidy(Run(w, ops).keys)
    decreases |ops|
  {
    hide Retained, Traced, Step, EncryptedSince, AllDone, Tidy;
    if ops != [] {
      RegularStep(w, ops[0]);
      TidyStep(w, ops[0]);
      RunTidy(Step(w, ops[0]), ops[1..]);
    }
  }

  /** A rotation after a crash that left a stray next key behind puts the keyring in order again. */
  lemma {:induction false} RotateTidiesStray(s: Keys, stray: Slot, newKey: Material, probe: Lookup)
    requires Tidy(s) && s.version >= 1
    ensures Tidy(AfterInit(s.(ring := s.ring[s.version + 1 := stray]), true, newKey, Steps(probe, Done, Done, Done)).0)
  {
    var t := AfterInit(s.(ring := s.ring[s.version + 1 := stray]), true, newKey, Steps(probe, Done, Done, Done)).0;
    forall v ensures v in t.ring <==> v == t.version || (v == t.version - 1 && v >= 1) {}
  }

  /**
   * The loss, at any version: an init while the secret service is down for the probe leaves, of all frames sealed before,
   * only those of the version before the current one readable; those of the current version are gone.
   */
  lemma {:induction false} UnavailableProbeLosesFrames(w: World, newKey: Material, save: Outcome, k: Key)
    requires Retained(w) && Traced(w) && w.keys.version >= 1 && w.keys.encryption && k in w.used && newKey !in w.born
    ensures var after := Step(w, Command(false, newKey, Steps(Unavailable, Done, save, Done)));
            && Load(after.keys, false, Answers, Answers).Ready?
            && (Opens(Load(after.keys, false, Answers, Answers).envelope, k) <==> k.version == w.keys.version - 1)
  {
    assert k.material in w.born;
    assert w.keys.version > 1 ==> Held(w, w.keys.version - 1);
  }
}
