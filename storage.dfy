/**
 * The engine's storage: four maps and the audit list, the serialised form a
 * durable store writes, and the initial contents of the two providers.
 */
module Storage {
  import opened Wrappers
  import opened Json
  import opened Dict
  import opened Models
  import opened Keys

  /** A cached decision under its request fingerprint, live until `expiresAtMs`. */
  datatype IdempotencyEntry = IdempotencyEntry(payloadHash: Value, decision: Decision, expiresAtMs: int)

  /** An audit record; the engine itself never reads or writes the list. */
  datatype AuditEvent = AuditEvent(eventType: string, tenantId: string, timestamp: int, payload: Value)

  /** `EngineStorage` without `persist`. */
  datatype Store = Store(
    policies: Dict<string, Policy>,
    bucketStates: Dict<StateKey, BucketState>,
    windowStates: Dict<StateKey, WindowCounterState>,
    idempotencyStore: Dict<IdempotencyKey, IdempotencyEntry>,
    auditEvents: seq<AuditEvent>)
  {
    /** Every map holds each key once. */
    ghost predicate Valid() {
      Unique(policies) && Unique(bucketStates) && Unique(windowStates) && Unique(idempotencyStore)
    }
  }

  /** Four empty maps and an empty audit list. */
  const EMPTY: Store := Store([], [], [], [], [])

  const SCHEMA_VERSION: string := "v1"

  /** The snapshot document. `auditEvents` may be missing from a loaded one. */
  datatype SerializedState = SerializedState(
    schemaVersion: string,
    policies: seq<(string, Policy)>,
    bucketStates: seq<(StateKey, BucketState)>,
    windowStates: seq<(StateKey, WindowCounterState)>,
    idempotencyStore: seq<(IdempotencyKey, IdempotencyEntry)>,
    auditEvents: Option<seq<AuditEvent>>)

  /** `toSerialized`: version "v1", every map's entries in order as pairs, and the audit list. */
  function ToSerialized(s: Store): (r: SerializedState)
    ensures r.schemaVersion == SCHEMA_VERSION
    ensures r.auditEvents == Some(s.auditEvents)
    ensures r.policies == s.policies && r.bucketStates == s.bucketStates
    ensures r.windowStates == s.windowStates && r.idempotencyStore == s.idempotencyStore
  {
    SerializedState(SCHEMA_VERSION, s.policies, s.bucketStates, s.windowStates, s.idempotencyStore,
                    Some(s.auditEvents))
  }

  /**
   * `fromSerialized`: each pair list becomes a map (a repeated key keeps
   * the position of its first pair and the value of its last), a list
   * without repeated keys is taken as it is, and a missing audit list
   * becomes an empty one.
   */
  function FromSerialized(raw: SerializedState): (s: Store)
    ensures s.Valid()
    ensures forall k :: HasKey(s.policies, k) <==> HasKey(raw.policies, k)
    ensures forall k :: HasKey(s.bucketStates, k) <==> HasKey(raw.bucketStates, k)
    ensures forall k :: HasKey(s.windowStates, k) <==> HasKey(raw.windowStates, k)
    ensures forall k :: HasKey(s.idempotencyStore, k) <==> HasKey(raw.idempotencyStore, k)
    ensures forall k :: Get(s.policies, k) == LastValue(raw.policies, k)
    ensures forall k :: Get(s.bucketStates, k) == LastValue(raw.bucketStates, k)
    ensures forall k :: Get(s.windowStates, k) == LastValue(raw.windowStates, k)
    ensures forall k :: Get(s.idempotencyStore, k) == LastValue(raw.idempotencyStore, k)
    ensures KeySeq(s.policies) == FirstOccurrences(KeySeq(raw.policies))
    ensures KeySeq(s.bucketStates) == FirstOccurrences(KeySeq(raw.bucketStates))
    ensures KeySeq(s.windowStates) == FirstOccurrences(KeySeq(raw.windowStates))
    ensures KeySeq(s.idempotencyStore) == FirstOccurrences(KeySeq(raw.idempotencyStore))
    ensures Unique(raw.policies) && Unique(raw.bucketStates) && Unique(raw.windowStates)
            && Unique(raw.idempotencyStore) ==>
      && s.policies == raw.policies && s.bucketStates == raw.bucketStates
      && s.windowStates == raw.windowStates && s.idempotencyStore == raw.idempotencyStore
    ensures s.auditEvents == if raw.auditEvents.Some? then raw.auditEvents.value else []
  {
    Store(FromPairs(raw.policies), FromPairs(raw.bucketStates), FromPairs(raw.windowStates),
          FromPairs(raw.idempotencyStore), raw.auditEvents.GetOr([]))
  }

  /** Serialising and reading back gives the same maps, in the same order, and the same audit list. */
  lemma SerializedRoundTrip(s: Store)
    requires s.Valid()
    ensures FromSerialized(ToSerialized(s)) == s
  {
  }

  /** `createInMemoryEngineStorage`'s contents. */
  function InMemoryContents(): (s: Store)
    ensures s.Valid()
    ensures s.policies == [] && s.bucketStates == [] && s.windowStates == []
    ensures s.idempotencyStore == [] && s.auditEvents == []
  {
    EMPTY
  }

  /**
   * `loadSnapshot`: `raw` is the parsed file, `None` when it cannot be read
   * or parsed. A snapshot of another schema version is discarded.
   */
  function LoadSnapshot(raw: Option<SerializedState>): (r: Option<Store>)
    ensures r.Some? <==> raw.Some? && raw.value.schemaVersion == SCHEMA_VERSION
    ensures r.Some? ==> r.value == FromSerialized(raw.value)
  {
    match raw
    case None => None
    case Some(parsed) => if parsed.schemaVersion != SCHEMA_VERSION then None else Some(FromSerialized(parsed))
  }

  /** `createJsonFileEngineStorage`'s contents: the loaded snapshot, or an empty store. */
  function FileContents(raw: Option<SerializedState>): (s: Store)
    ensures s.Valid()
    ensures LoadSnapshot(raw).None? ==> s == EMPTY
    ensures LoadSnapshot(raw).Some? ==> s == LoadSnapshot(raw).value
  {
    LoadSnapshot(raw).GetOr(EMPTY)
  }

  /** A durable store reopened on the snapshot it wrote starts with the state it had. */
  lemma ReopenRestoresState(s: Store)
    requires s.Valid()
    ensures FileContents(Some(ToSerialized(s))) == s
  {
    SerializedRoundTrip(s);
  }
}
