/** Signed adapter allowlists (internal/adapter/allowlist.go). */
module Allowlist {
  import opened Prelude
  import opened Sorting
  import opened Text
  import opened Frames

  const DEFAULT_MIN_SIGNATURES := 1
  const SIGNATURE_SIZE := 64

  type PublicKey = seq<byte>
  type PrivateKey = seq<byte>

  datatype SignatureEntry = SignatureEntry(keyID: string, signature: string)

  /** The document on disk; absent fields are empty. */
  datatype Doc = Doc(approved: seq<string>, version: int, keyID: string, signature: string, signatures: seq<SignatureEntry>)

  /** Lower-casing of a character, the JSON of a signing body, Ed25519 and base64 (padded, else raw). */
  datatype Library = Library(lower: char -> char, body: (int, seq<string>) -> seq<byte>,
                             sign: (PrivateKey, seq<byte>) -> seq<byte>, publicOf: PrivateKey -> PublicKey,
                             verify: (PublicKey, seq<byte>, seq<byte>) -> bool,
                             encode: seq<byte> -> string, decode: string -> Option<seq<byte>>)
  {
    ghost predicate Contract() {
      && (forall c :: lower(lower(c)) == lower(c) && (IsSpace(lower(c)) <==> IsSpace(c)))
      && (forall v, a, w, b :: body(v, a) == body(w, b) ==> v == w && a == b)
      && (forall k, m :: verify(publicOf(k), m, sign(k, m)) && |sign(k, m)| == SIGNATURE_SIZE)
      && (forall s :: Trimmed(encode(s)) && (s != [] ==> encode(s) != []) && decode(encode(s)) == Some(s))
    }
  }

  // ---- Canonical form -------------------------------------------------------------------------------------

  function Lower(lib: Library, s: string): (r: string)
    ensures |r| == |s|
  {
    seq(|s|, i requires 0 <= i < |s| => lib.lower(s[i]))
  }

  function NormalizeID(lib: Library, id: string): string { Lower(lib, TrimSpace(id)) }

  /** The identifiers a list stands for. */
  function IdSet(lib: Library, ids: seq<string>): set<string> {
    set i | 0 <= i < |ids| && NormalizeID(lib, ids[i]) != [] :: NormalizeID(lib, ids[i])
  }

  lemma {:induction false} IdSetStep(lib: Library, ids: seq<string>, i: nat)
    requires i < |ids|
    ensures IdSet(lib, ids[..i + 1]) == IdSet(lib, ids[..i]) + if NormalizeID(lib, ids[i]) != [] then {NormalizeID(lib, ids[i])} else {}
  {
    hide NormalizeID;
    var now := ids[..i + 1];
    assert forall k :: 0 <= k < i ==> now[k] == ids[..i][k];
    assert now[i] == ids[i];
  }

  method AllowlistFromIDs(lib: Library, ids: seq<string>) returns (a: set<string>)
    ensures a == IdSet(lib, ids)
  {
    hide NormalizeID, IdSet;
    a := {};
    NoIds(lib, ids[..0]);
    for i := 0 to |ids|
      invariant a == IdSet(lib, ids[..i])
    {
      IdSetStep(lib, ids, i);
      var id := NormalizeID(lib, ids[i]);
      if id == [] { continue; }
      a := a + {id};
    }
    assert ids[..|ids|] == ids;
  }

  lemma {:induction false} NoIds(lib: Library, ids: seq<string>)
    requires ids == []
    ensures IdSet(lib, ids) == {}
  {}

  /** norm lists the identifiers of ids once each, in order. */
  predicate Canonical(lib: Library, ids: seq<string>, norm: seq<string>) {
    Distinct(norm) && SortedBy(norm, LexLeq) && Elems(norm) == IdSet(lib, ids)
  }

  /** normalizeApprovedForSigning. */
  method NormalizeApproved(lib: Library, approved: seq<string>) returns (norm: seq<string>)
    ensures Canonical(lib, approved, norm)
  {
    hide NormalizeID, IdSet, LexLeq;
    var out: seq<string> := [];
    var seen: set<string> := {};
    NothingListed();
    NoIds(lib, approved[..0]);
    for i := 0 to |approved|
      invariant Distinct(out) && Elems(out) == seen
      invariant seen == IdSet(lib, approved[..i])
    {
      IdSetStep(lib, approved, i);
      var id := NormalizeID(lib, approved[i]);
      if id == [] { continue; }
      if id in seen { continue; }
      OneMore(out, id);
      seen := seen + {id};
      out := out + [id];
    }
    assert approved[..|approved|] == approved;
    norm := Sort(out, LexLeq);
    LexIsTotalOrder();
    SortSorts(out, LexLeq);
    PermutationOfDistinct(out, norm);
    SameElems(out, norm);
  }

  lemma {:induction false} NothingListed()
    ensures Elems<string>([]) == {} && Distinct<string>([])
  {}

  lemma {:induction false} OneMore<T>(s: seq<T>, x: T)
    requires Distinct(s) && x !in Elems(s)
    ensures Distinct(s + [x]) && Elems(s + [x]) == Elems(s) + {x}
  {
    forall i | 0 <= i < |s| ensures s[i] != x { assert s[i] in Elems(s); }
  }

  lemma {:induction false} SameElems<T>(a: seq<T>, b: seq<T>)
    requires multiset(a) == multiset(b)
    ensures Elems(a) == Elems(b)
  {
    forall x ensures x in a <==> x in b { assert x in multiset(a) <==> x in multiset(b); }
  }

  /** There is one canonical list for each set of identifiers. */
  lemma {:induction false} CanonicalUnique(lib: Library, a: seq<string>, b: seq<string>, m: seq<string>, n: seq<string>)
    requires Canonical(lib, a, m) && Canonical(lib, b, n)
    ensures m == n <==> IdSet(lib, a) == IdSet(lib, b)
  {
    hide NormalizeID, IdSet, LexLeq;
    if IdSet(lib, a) == IdSet(lib, b) {
      DistinctMultiset(m);
      DistinctMultiset(n);
      LexIsTotalOrder();
      SortedUnique(m, n, LexLeq);
    }
  }

  ghost function CanonicalOf(lib: Library, ids: seq<string>): (norm: seq<string>)
    ensures Canonical(lib, ids, norm)
  {
    CanonicalExists(lib, ids);
    var norm :| Canonical(lib, ids, norm);
    norm
  }

  lemma {:induction false} CanonicalExists(lib: Library, ids: seq<string>)
    ensures exists norm :: Canonical(lib, ids, norm)
  {
    hide NormalizeID, LexLeq;
    var list := ListOf(IdSet(lib, ids));
    LexIsTotalOrder();
    SortSorts(list, LexLeq);
    PermutationOfDistinct(list, Sort(list, LexLeq));
    SameElems(list, Sort(list, LexLeq));
    assert Canonical(lib, ids, Sort(list, LexLeq));
  }

  lemma {:induction false} ListOf(s: set<string>) returns (list: seq<string>)
    ensures Distinct(list) && Elems(list) == s
    decreases s
  {
    if s == {} {
      list := [];
      NothingListed();
    } else {
      var x :| x in s;
      var rest := ListOf(s - {x});
      list := rest + [x];
      OneMore(rest, x);
    }
  }

  lemma {:induction false} CanonicalIs(lib: Library, ids: seq<string>, norm: seq<string>)
    requires Canonical(lib, ids, norm)
    ensures norm == CanonicalOf(lib, ids)
  {
    hide IdSet, LexLeq;
    CanonicalUnique(lib, ids, ids, norm, CanonicalOf(lib, ids));
  }

  /** CanonicalAllowlistSigningBytes. */
  ghost function Payload(lib: Library, version: int, approved: seq<string>): seq<byte> {
    lib.body(version, CanonicalOf(lib, approved))
  }

  /**
   * Two lists have the same signing body if and only if they have the same version and load to the same
   * allowlist, whatever their order, case, padding and repetitions.
   */
  lemma {:induction false} SameBodyIffSameAllowlist(lib: Library, v: int, a: seq<string>, w: int, b: seq<string>)
    requires lib.Contract()
    ensures Payload(lib, v, a) == Payload(lib, w, b) <==> v == w && IdSet(lib, a) == IdSet(lib, b)
  {
    hide IdSet, LexLeq, CanonicalOf;
    CanonicalUnique(lib, a, b, CanonicalOf(lib, a), CanonicalOf(lib, b));
  }

  lemma {:induction false} NormalizeTwice(lib: Library, id: string)
    requires lib.Contract()
    ensures NormalizeID(lib, NormalizeID(lib, id)) == NormalizeID(lib, id)
  {
    var t := TrimSpace(id);
    var n := Lower(lib, t);
    assert t != [] ==> n[0] == lib.lower(t[0]) && n[|n| - 1] == lib.lower(t[|t| - 1]);
    assert Trimmed(n);
    assert Lower(lib, n) == n;
  }

  /** The canonical list stands for the same identifiers, so signing it signs the list. */
  lemma {:induction false} CanonicalKeepsIds(lib: Library, ids: seq<string>, norm: seq<string>)
    requires lib.Contract() && Canonical(lib, ids, norm)
    ensures IdSet(lib, norm) == IdSet(lib, ids)
  {
    hide LexLeq, lib.Contract, NormalizeID;
    forall i | 0 <= i < |norm| ensures NormalizeID(lib, norm[i]) == norm[i] && norm[i] != [] {
      assert norm[i] in Elems(norm);
      var k :| 0 <= k < |ids| && NormalizeID(lib, ids[k]) != [] && NormalizeID(lib, ids[k]) == norm[i];
      NormalizeTwice(lib, ids[k]);
    }
    forall s ensures s in IdSet(lib, norm) <==> s in Elems(norm) {
      if s in Elems(norm) {
        var i :| 0 <= i < |norm| && norm[i] == s;
        assert NormalizeID(lib, norm[i]) == s;
      }
    }
  }

  // ---- Verifying and loading --------------------------------------------------------------------------------

  /** decodeAllowlistSignature. */
  function DecodeSignature(lib: Library, b64: string): Option<seq<byte>> {
    var text := TrimSpace(b64);
    if text == [] then None
    else match lib.decode(text)
      case None => None
      case Some(raw) => if |raw| == SIGNATURE_SIZE then Some(raw) else None
  }

  /** One signature holds: a trusted key id, a well-formed signature, and it verifies. */
  predicate EntryVerifies(lib: Library, keys: map<string, PublicKey>, payload: seq<byte>, e: SignatureEntry) {
    var id := TrimSpace(e.keyID);
    id != [] && id in keys && DecodeSignature(lib, e.signature).Some?
    && lib.verify(keys[id], payload, DecodeSignature(lib, e.signature).value)
  }

  function KeyIDs(entries: seq<SignatureEntry>): set<string> {
    set e | e in entries :: TrimSpace(e.keyID)
  }

  function MinSignatures(min: int): nat { if min <= 0 then DEFAULT_MIN_SIGNATURES else min }

  /** Every listed signature holds, and enough different trusted keys signed; or the single signature holds. */
  ghost predicate Verified(lib: Library, f: Doc, keys: map<string, PublicKey>, min: int) {
    var payload := Payload(lib, f.version, f.approved);
    if f.signatures != [] then
      && (forall i :: 0 <= i < |f.signatures| ==> EntryVerifies(lib, keys, payload, f.signatures[i]))
      && |KeyIDs(f.signatures)| >= MinSignatures(min)
    else EntryVerifies(lib, keys, payload, SignatureEntry(f.keyID, f.signature))
  }

  method VerifyEntry(lib: Library, keys: map<string, PublicKey>, payload: seq<byte>, e: SignatureEntry) returns (ok: bool)
    ensures ok <==> EntryVerifies(lib, keys, payload, e)
  {
    hide TrimSpace;
    var keyID := TrimSpace(e.keyID);
    if keyID == [] { return false; }
    if keyID !in keys { return false; }
    var sig := DecodeSignature(lib, e.signature);
    if sig.None? { return false; }
    return lib.verify(keys[keyID], payload, sig.value);
  }

  method VerifyEntries(lib: Library, keys: map<string, PublicKey>, payload: seq<byte>, entries: seq<SignatureEntry>, min: int)
    returns (ok: bool)
    ensures ok <==> (forall i :: 0 <= i < |entries| ==> EntryVerifies(lib, keys, payload, entries[i]))
                    && |KeyIDs(entries)| >= MinSignatures(min)
  {
    hide EntryVerifies, TrimSpace;
    var valid: set<string> := {};
    for i := 0 to |entries|
      invariant forall k :: 0 <= k < i ==> EntryVerifies(lib, keys, payload, entries[k])
      invariant valid == KeyIDs(entries[..i])
    {
      var one := VerifyEntry(lib, keys, payload, entries[i]);
      if !one { return false; }
      assert entries[..i + 1] == entries[..i] + [entries[i]];
      valid := valid + {TrimSpace(entries[i].keyID)};
    }
    assert entries[..|entries|] == entries;
    return |valid| >= MinSignatures(min);
  }

  /** verifyAllowlistSignatures. */
  method VerifySignatures(lib: Library, f: Doc, keys: map<string, PublicKey>, min: int) returns (ok: bool)
    ensures ok <==> Verified(lib, f, keys, min)
  {
    hide EntryVerifies, TrimSpace, Canonical, CanonicalOf, KeyIDs;
    var norm := NormalizeApproved(lib, f.approved);
    CanonicalIs(lib, f.approved, norm);
    var payload := lib.body(f.version, norm);
    if |f.signatures| > 0 {
      ok := VerifyEntries(lib, keys, payload, f.signatures, min);
    } else {
      ok := VerifyEntry(lib, keys, payload, SignatureEntry(f.keyID, f.signature));
    }
  }

  predicate HasSignature(f: Doc) {
    TrimSpace(f.keyID) != [] || TrimSpace(f.signature) != [] || f.signatures != []
  }

  /** The file under the configured path. */
  datatype File = NoPath | Unreadable | Content(doc: Doc)

  /** Exactly what loads, and as what. */
  ghost function Loaded(lib: Library, file: File, keys: map<string, PublicKey>, requireSigned: bool, min: int): Option<set<string>> {
    match file
    case NoPath => Some({})
    case Unreadable => None
    case Content(f) =>
      if HasSignature(f) then if keys != map[] && Verified(lib, f, keys, min) then Some(IdSet(lib, f.approved)) else None
      else if requireSigned && keys != map[] then None
      else Some(IdSet(lib, f.approved))
  }

  /** LoadAllowlistFileOpts. */
  method LoadAllowlistFile(lib: Library, file: File, keys: map<string, PublicKey>, requireSigned: bool, min: int)
    returns (r: Option<set<string>>)
    ensures r == Loaded(lib, file, keys, requireSigned, min)
  {
    hide Verified, IdSet, TrimSpace;
    if file.NoPath? { return Some({}); }
    if file.Unreadable? { return None; }
    var f := file.doc;
    var hasSig := HasSignature(f);
    if hasSig && |keys| == 0 { return None; }
    if !hasSig && requireSigned && |keys| > 0 { return None; }
    if hasSig {
      var ok := VerifySignatures(lib, f, keys, min);
      if !ok { return None; }
    }
    var ids := AllowlistFromIDs(lib, f.approved);
    return Some(ids);
  }

  /** The key id names a trusted key, and the text decodes to 64 bytes that this key's owner made of the body. */
  ghost predicate GoodSignature(lib: Library, keys: map<string, PublicKey>, body: seq<byte>, e: SignatureEntry) {
    exists id, raw :: id == TrimSpace(e.keyID) && id != "" && id in keys && TrimSpace(e.signature) != ""
                      && lib.decode(TrimSpace(e.signature)) == Some(raw) && |raw| == 64 && lib.verify(keys[id], body, raw)
  }

  lemma {:induction false} GoodIff(lib: Library, keys: map<string, PublicKey>, body: seq<byte>, e: SignatureEntry)
    ensures EntryVerifies(lib, keys, body, e) <==> GoodSignature(lib, keys, body, e)
  {
    hide TrimSpace;
    if EntryVerifies(lib, keys, body, e) { var raw := DecodeSignature(lib, e.signature).value; }
  }

  /** Some part of a signature is there. */
  predicate Signed(f: Doc) {
    TrimSpace(f.keyID) != "" || TrimSpace(f.signature) != "" || |f.signatures| > 0
  }

  /**
   * Exactly which documents load. An unsigned one does unless signatures are required and there are keys to check them
   * with. A signed one does when there are keys, every signature in it is good for the canonical body, and with a list of
   * signatures at least the wanted number of different key ids, never less than one, have signed.
   */
  lemma {:induction false} LoadsIff(lib: Library, f: Doc, keys: map<string, PublicKey>, requireSigned: bool, min: int)
    ensures var loaded := Loaded(lib, Content(f), keys, requireSigned, min);
            var body := lib.body(f.version, CanonicalOf(lib, f.approved));
            && (loaded.Some? <==>
                  if !Signed(f) then !requireSigned || |keys| == 0
                  else
                    && |keys| > 0
                    && (if |f.signatures| > 0 then
                          && (forall e :: e in f.signatures ==> GoodSignature(lib, keys, body, e))
                          && |set e | e in f.signatures :: TrimSpace(e.keyID)| >= (if min > 1 then min else 1)
                        else GoodSignature(lib, keys, body, SignatureEntry(f.keyID, f.signature))))
            && (loaded.Some? ==> loaded.value == IdSet(lib, f.approved))
  {
    hide TrimSpace, IdSet, EntryVerifies, GoodSignature, CanonicalOf;
    var body := lib.body(f.version, CanonicalOf(lib, f.approved));
    GoodIff(lib, keys, body, SignatureEntry(f.keyID, f.signature));
    forall i | 0 <= i < |f.signatures|
      ensures EntryVerifies(lib, keys, body, f.signatures[i]) <==> GoodSignature(lib, keys, body, f.signatures[i])
    {
      GoodIff(lib, keys, body, f.signatures[i]);
    }
    assert KeyIDs(f.signatures) == set e | e in f.signatures :: TrimSpace(e.keyID);
  }

  /** Without a file there is nothing to allow; a file that cannot be read never loads. */
  lemma {:induction false} NoFileLoads(lib: Library, keys: map<string, PublicKey>, requireSigned: bool, min: int)
    ensures Loaded(lib, NoPath, keys, requireSigned, min) == Some({}) && Loaded(lib, Unreadable, keys, requireSigned, min) == None
  {}

  // ---- Signing ------------------------------------------------------------------------------------------------

  datatype Signer = Signer(keyID: string, priv: PrivateKey)

  function EntryOf(lib: Library, payload: seq<byte>, s: Signer): SignatureEntry {
    SignatureEntry(TrimSpace(s.keyID), lib.encode(lib.sign(s.priv, payload)))
  }

  /** SignAllowlistMulti, given private keys of the right size. */
  method SignAllowlistMulti(lib: Library, version: int, approved: seq<string>, signers: seq<Signer>) returns (r: Option<Doc>)
    requires lib.Contract()
    ensures r.Some? <==> signers != [] && forall i :: 0 <= i < |signers| ==> TrimSpace(signers[i].keyID) != []
    ensures r.Some? ==> var f := r.value;
                        && f.version == version && Canonical(lib, approved, f.approved)
                        && f.keyID == [] && f.signature == [] && |f.signatures| == |signers|
                        && forall i :: 0 <= i < |signers| ==>
                             f.signatures[i] == EntryOf(lib, Payload(lib, version, approved), signers[i])
  {
    hide TrimSpace, Canonical, CanonicalOf, IdSet, lib.Contract;
    if |signers| == 0 { return None; }
    var norm := NormalizeApproved(lib, approved);
    var again := NormalizeApproved(lib, norm);
    CanonicalKeepsIds(lib, approved, norm);
    CanonicalUnique(lib, norm, approved, again, norm);
    CanonicalIs(lib, approved, norm);
    var payload := lib.body(version, again);
    var entries := [];
    for i := 0 to |signers|
      invariant |entries| == i
      invariant forall k :: 0 <= k < i ==> TrimSpace(signers[k].keyID) != [] && entries[k] == EntryOf(lib, payload, signers[k])
    {
      var id := TrimSpace(signers[i].keyID);
      if id == [] { return None; }
      entries := entries + [SignatureEntry(id, lib.encode(lib.sign(signers[i].priv, payload)))];
    }
    return Some(Doc(norm, version, "", "", entries));
  }

  ghost predicate SignedBy(lib: Library, f: Doc, version: int, approved: seq<string>, signers: seq<Signer>) {
    && signers != [] && f.version == version && Canonical(lib, approved, f.approved)
    && |f.signatures| == |signers|
    && forall i :: 0 <= i < |signers| ==>
         TrimSpace(signers[i].keyID) != [] && f.signatures[i] == EntryOf(lib, Payload(lib, version, approved), signers[i])
  }

  predicate AllTrusted(lib: Library, keys: map<string, PublicKey>, signers: seq<Signer>) {
    forall i :: 0 <= i < |signers| ==>
      TrimSpace(signers[i].keyID) in keys && keys[TrimSpace(signers[i].keyID)] == lib.publicOf(signers[i].priv)
  }

  lemma {:induction false} OwnEntryVerifies(lib: Library, keys: map<string, PublicKey>, payload: seq<byte>, s: Signer)
    requires lib.Contract() && TrimSpace(s.keyID) != [] && TrimSpace(s.keyID) in keys
    requires keys[TrimSpace(s.keyID)] == lib.publicOf(s.priv)
    ensures EntryVerifies(lib, keys, payload, EntryOf(lib, payload, s))
  {
    var sig := lib.sign(s.priv, payload);
    assert |sig| == SIGNATURE_SIZE && lib.encode(sig) != [] && lib.decode(lib.encode(sig)) == Some(sig);
    assert TrimSpace(TrimSpace(s.keyID)) == TrimSpace(s.keyID);
  }

  /**
   * Signing and loading: a document signed by keys that are all trusted loads, as the list that was signed,
   * exactly when enough different key ids signed it.
   */
  lemma {:induction false} SignedLoadsIff(lib: Library, f: Doc, version: int, approved: seq<string>, signers: seq<Signer>,
                                          keys: map<string, PublicKey>, requireSigned: bool, min: int)
    requires lib.Contract() && SignedBy(lib, f, version, approved, signers) && AllTrusted(lib, keys, signers)
    ensures Loaded(lib, Content(f), keys, requireSigned, min)
         == if |KeyIDs(f.signatures)| >= MinSignatures(min) then Some(IdSet(lib, approved)) else None
  {
    hide lib.Contract, IdSet, Canonical, CanonicalOf, EntryVerifies, EntryOf, TrimSpace;
    CanonicalKeepsIds(lib, approved, f.approved);
    SameBodyIffSameAllowlist(lib, version, f.approved, version, approved);
    forall i | 0 <= i < |f.signatures| ensures EntryVerifies(lib, keys, Payload(lib, f.version, f.approved), f.signatures[i]) {
      OwnEntryVerifies(lib, keys, Payload(lib, version, approved), signers[i]);
    }
    assert TrimSpace(signers[0].keyID) in keys;
  }

  /** The order, case, padding and repetitions of a signed list do not matter to its signatures or to what it loads as. */
  lemma {:induction false} RewritingKeepsSignatures(lib: Library, f: Doc, approved: seq<string>, keys: map<string, PublicKey>,
                                                    requireSigned: bool, min: int)
    requires lib.Contract() && IdSet(lib, approved) == IdSet(lib, f.approved)
    ensures Loaded(lib, Content(f.(approved := approved)), keys, requireSigned, min)
         == Loaded(lib, Content(f), keys, requireSigned, min)
  {
    hide lib.Contract, IdSet, EntryVerifies, TrimSpace, Payload;
    SameBodyIffSameAllowlist(lib, f.version, approved, f.version, f.approved);
  }

  /** The signatures that count for a document. */
  function SignaturesOf(f: Doc): seq<SignatureEntry> {
    if f.signatures != [] then f.signatures else [SignatureEntry(f.keyID, f.signature)]
  }

  /** With its signatures moved to another version or list, a document loads iff each of them is good for that too. */
  lemma {:induction false} MovedSignaturesLoadIff(lib: Library, f: Doc, version: int, approved: seq<string>,
                                                  keys: map<string, PublicKey>, requireSigned: bool, min: int)
    requires HasSignature(f) && Loaded(lib, Content(f), keys, requireSigned, min).Some?
    ensures Loaded(lib, Content(f.(version := version, approved := approved)), keys, requireSigned, min).Some?
        <==> forall e :: e in SignaturesOf(f) ==> EntryVerifies(lib, keys, Payload(lib, version, approved), e)
  {
    hide IdSet, TrimSpace, Payload, EntryVerifies;
  }

  /** What signing is for: a signature that is good for one of two bodies is not good for the other. */
  ghost predicate TellsApart(lib: Library, keys: map<string, PublicKey>, e: SignatureEntry, p: seq<byte>, q: seq<byte>) {
    EntryVerifies(lib, keys, p, e) && EntryVerifies(lib, keys, q, e) ==> p == q
  }

  /**
   * So where one of its signatures tells the two bodies apart, a signed document loads with its signatures moved to
   * another version or list exactly when that is the same allowlist.
   */
  lemma {:induction false} TamperingIsRefused(lib: Library, f: Doc, version: int, approved: seq<string>,
                                              keys: map<string, PublicKey>, requireSigned: bool, min: int)
    requires lib.Contract() && HasSignature(f) && Loaded(lib, Content(f), keys, requireSigned, min).Some?
    requires exists e :: e in SignaturesOf(f)
                         && TellsApart(lib, keys, e, Payload(lib, f.version, f.approved), Payload(lib, version, approved))
    ensures Loaded(lib, Content(f.(version := version, approved := approved)), keys, requireSigned, min).Some?
        <==> version == f.version && IdSet(lib, approved) == IdSet(lib, f.approved)
  {
    hide lib.Contract, IdSet, TrimSpace, Payload, EntryVerifies;
    SameBodyIffSameAllowlist(lib, version, approved, f.version, f.approved);
    MovedSignaturesLoadIff(lib, f, version, approved, keys, requireSigned, min);
    MovedSignaturesLoadIff(lib, f, f.version, f.approved, keys, requireSigned, min);
  }

  /** Allowlist.Contains. */
  predicate Contains(lib: Library, a: set<string>, id: string) { NormalizeID(lib, id) in a }

  /** An id is allowed exactly when some approved entry normalizes to the same name. */
  lemma {:induction false} ContainsIffApproved(lib: Library, ids: seq<string>, id: string)
    ensures Contains(lib, IdSet(lib, ids), id)
        <==> NormalizeID(lib, id) != [] && exists i :: 0 <= i < |ids| && NormalizeID(lib, ids[i]) == NormalizeID(lib, id)
  {
    hide NormalizeID;
  }
}
