/**
  The encrypted vault as values: the credential table behind its four database functions, the
  operations built on them, and the plain map of the in-memory vault that they refine.
 */
module VaultModel {
  import opened Base
  import opened Text
  import opened VaultCodec

  // ----------------------------------------------------------------- the in-memory vault

  datatype Entry = Entry(context: Context, version: int, material: Material)

  datatype Credential = Credential(version: int, material: Material)

  type Entries = map<Uuid, Entry>

  type Answer = Result<Credential, VaultError>

  function MemGet(m: Entries, id: Uuid, c: Context): Answer {
    if id !in m then Err(Unavailable)
    else if m[id].context != c then Err(ContextMismatch)
    else Ok(Credential(m[id].version, m[id].material))
  }

  function MemStore(m: Entries, id: Uuid, c: Context, material: Material): Entries {
    m[id := Entry(c, 1, material)]
  }

  function MemReplace(m: Entries, id: Uuid, c: Context, expected: int, material: Material): (Answer, Entries) {
    if id !in m then (Err(Unavailable), m)
    else if m[id].context != c then (Err(ContextMismatch), m)
    else if m[id].version != expected then (Err(VersionConflict), m)
    else (Ok(Credential(expected + 1, material)), m[id := Entry(c, expected + 1, material)])
  }

  function MemDelete(m: Entries, id: Uuid, c: Context): (Option<VaultError>, Entries) {
    if id !in m then (None, m)
    else if m[id].context != c then (Some(ContextMismatch), m)
    else (None, m - {id})
  }

  // ------------------------------------------------------------------- the credential table

  datatype Row = Row(provider: Text, ownerKind: Text, owner: Uuid, version: int, schema: int, nonce: Id, box: Box)

  type Rows = map<Uuid, Row>

  datatype LinkState = Received | Claiming | OtherState

  datatype PendingLink = PendingLink(state: LinkState, archived: bool, claimTenant: Option<Id>)

  // What the functions authorize against, and the tenant the transaction presents.
  datatype Caller = Caller(links: map<Uuid, PendingLink>, connections: set<(Uuid, Id)>, tenant: Option<Id>)

  datatype Operation = ToOpen | ToReplace | ToDelete

  const RING: Text := [82, 73, 78, 71]
  const RING_PENDING_LINK: Text :=
    [114, 105, 110, 103, 95, 112, 101, 110, 100, 105, 110, 103, 95, 108, 105, 110, 107]

  predicate Authorized(caller: Caller, ownerKind: Text, owner: Uuid, op: Operation) {
    && ownerKind == RING_PENDING_LINK
    && ((&& op == ToOpen && owner in caller.links
         && !caller.links[owner].archived && caller.links[owner].state == Claiming
         && caller.links[owner].claimTenant.Some? && caller.links[owner].claimTenant == caller.tenant)
        || (caller.tenant.Some? && (owner, caller.tenant.value) in caller.connections)
        || (op == ToDelete
            && (owner in caller.links ==> caller.links[owner].state == Received && !caller.links[owner].archived)))
  }

  function RowContext(r: Row): Context { Context(r.provider, r.ownerKind, r.owner) }

  predicate Supported(c: Context) { c.provider == RING && c.ownerKind == RING_PENDING_LINK }

  // The table's CHECK on the schema version.
  predicate StorableSchema(schema: int) { schema >= 1 }

  // Insert a version-1 row; an unsupported context, a taken key or a failed CHECK raises.
  function SqlCreate(rows: Rows, id: Uuid, c: Context, schema: int, nonce: Id, box: Box): Option<Rows> {
    if !Supported(c) || id in rows || !StorableSchema(schema) then None
    else Some(rows[id := Row(c.provider, c.ownerKind, c.owner, 1, schema, nonce, box)])
  }

  function SqlOpen(rows: Rows, caller: Caller, id: Uuid, c: Context): Result<Row, VaultError> {
    if id !in rows then Err(Unavailable)
    else if RowContext(rows[id]) != c then Err(ContextMismatch)
    else if !Authorized(caller, c.ownerKind, c.owner, ToOpen) then Err(Unavailable)
    else Ok(rows[id])
  }

  function SqlReplace(rows: Rows, caller: Caller, id: Uuid, c: Context, expected: int,
                      schema: int, nonce: Id, box: Box): Result<(int, Rows), VaultError>
  {
    if id !in rows then Err(Unavailable)
    else if RowContext(rows[id]) != c then Err(ContextMismatch)
    else if !Authorized(caller, c.ownerKind, c.owner, ToReplace) then Err(Unavailable)
    else if rows[id].version != expected then Err(VersionConflict)
    else if !StorableSchema(schema) then Err(NotStored)
    else
      var version := rows[id].version + 1;
      Ok((version, rows[id := rows[id].(version := version, schema := schema, nonce := nonce, box := box)]))
  }

  function SqlDelete(rows: Rows, caller: Caller, id: Uuid, c: Context): Result<Rows, VaultError> {
    if id !in rows then Ok(rows)
    else if RowContext(rows[id]) != c then Err(ContextMismatch)
    else if !Authorized(caller, c.ownerKind, c.owner, ToDelete) then Err(Unavailable)
    else Ok(rows - {id})
  }

  // ------------------------------------------------------------------ the encrypted vault

  // The master key, when it resolves, and the schema version new rows are sealed under.
  datatype Keys = Keys(master: Option<Id>, schema: int)

  function Seal(keys: Keys, c: Context, version: int, material: Material, nonce: Id): Result<Box, VaultError> {
    var aad := CanonicalAad(c, version, keys.schema);
    if aad.Err? then Err(aad.error)
    else
      var plaintext := Encode(material);
      if plaintext.Err? then Err(plaintext.error)
      else if keys.master.None? then Err(KeyUnavailable)
      else Ok(Box(keys.master.value, nonce, aad.value, plaintext.value))
  }

  function Unseal(keys: Keys, r: Row, c: Context): Result<Material, VaultError> {
    var aad := CanonicalAad(c, r.version, r.schema);
    if aad.Err? then Err(aad.error)
    else if keys.master.None? then Err(KeyUnavailable)
    else
      var plaintext := OpenBox(r.box, keys.master.value, r.nonce, aad.value);
      if plaintext.Err? then Err(plaintext.error) else Decode(plaintext.value)
  }

  function StoreNew(rows: Rows, keys: Keys, id: Uuid, c: Context, material: Material, nonce: Id): (Answer, Rows) {
    match Seal(keys, c, 1, material, nonce)
    case Err(e) => (Err(e), rows)
    case Ok(box) =>
      match SqlCreate(rows, id, c, keys.schema, nonce, box)
      case None => (Err(NotStored), rows)
      case Some(rows') => (Ok(Credential(1, material)), rows')
  }

  function Get(rows: Rows, keys: Keys, caller: Caller, id: Uuid, c: Context): Answer {
    match SqlOpen(rows, caller, id, c)
    case Err(e) => Err(e)
    case Ok(r) =>
      match Unseal(keys, r, c)
      case Err(e) => Err(e)
      case Ok(material) => Ok(Credential(r.version, material))
  }

  function ReplaceIfVersion(rows: Rows, keys: Keys, caller: Caller, id: Uuid, c: Context, expected: int,
                            material: Material, nonce: Id): (Answer, Rows)
  {
    match Seal(keys, c, expected + 1, material, nonce)
    case Err(e) => (Err(e), rows)
    case Ok(box) =>
      match SqlReplace(rows, caller, id, c, expected, keys.schema, nonce, box)
      case Err(e) => (Err(e), rows)
      case Ok((version, rows')) => (Ok(Credential(version, material)), rows')
  }

  function Delete(rows: Rows, caller: Caller, id: Uuid, c: Context): (Option<VaultError>, Rows) {
    match SqlDelete(rows, caller, id, c)
    case Err(e) => (Some(e), rows)
    case Ok(rows') => (None, rows')
  }

  // -------------------------------------------------------------------------- refinement

  // The caller's tenant owns a connection that references the credential's owner.
  ghost predicate Connected(caller: Caller, owner: Uuid) {
    exists t :: caller.tenant == Some(t) && (owner, t) in caller.connections
  }

  // The owner's link is being claimed by the caller's tenant right now.
  ghost predicate Claims(caller: Caller, owner: Uuid) {
    && caller.tenant.Some? && owner in caller.links
    && caller.links[owner] == PendingLink(Claiming, false, caller.tenant)
  }

  // The owner's link never left RECEIVED, or was never created.
  ghost predicate NeverTaken(caller: Caller, owner: Uuid) {
    owner !in caller.links || (caller.links[owner].state == Received && !caller.links[owner].archived)
  }

  ghost predicate MayOpen(caller: Caller, c: Context) {
    c.ownerKind == RING_PENDING_LINK && (Connected(caller, c.owner) || Claims(caller, c.owner))
  }

  ghost predicate MayReplace(caller: Caller, c: Context) {
    c.ownerKind == RING_PENDING_LINK && Connected(caller, c.owner)
  }

  ghost predicate MayDelete(caller: Caller, c: Context) {
    c.ownerKind == RING_PENDING_LINK && (Connected(caller, c.owner) || NeverTaken(caller, c.owner))
  }

  // The row was sealed under this key for exactly its present context and version.
  ghost predicate SealedFor(key: Id, r: Row, material: Material) {
    && Encode(material).Ok? && CanonicalAad(RowContext(r), r.version, r.schema).Ok?
    && r.box == Box(key, r.nonce, CanonicalAad(RowContext(r), r.version, r.schema).value, Encode(material).value)
  }

  ghost predicate RowOk(key: Id, r: Row) {
    exists material :: SealedFor(key, r, material)
  }

  ghost predicate Inv(rows: Rows, key: Id) {
    forall id :: id in rows ==> RowOk(key, rows[id])
  }

  ghost function Opened(key: Id, r: Row): Material {
    var plaintext := Unseal(Keys(Some(key), r.schema), r, RowContext(r));
    if plaintext.Ok? then plaintext.value else Material([], [])
  }

  ghost function EntryOf(key: Id, r: Row): Entry { Entry(RowContext(r), r.version, Opened(key, r)) }

  // What the table stands for: the plain map of the in-memory vault.
  ghost function Contents(rows: Rows, key: Id): Entries {
    map id | id in rows :: EntryOf(key, rows[id])
  }

  /** A row of the table opens under its own context and version, and under no other binding. */
  lemma RowOpensOnlyAsItself(key: Id, r: Row, schema: int, c: Context)
    requires RowOk(key, r)
    ensures Unseal(Keys(Some(key), schema), r, c).Ok? <==> c == RowContext(r)
    ensures Unseal(Keys(Some(key), schema), r, RowContext(r)) == Ok(Opened(key, r))
  {
    var material :| SealedFor(key, r, material);
    DecodeUndoesEncode(material);
    if Unseal(Keys(Some(key), schema), r, c).Ok? {
      AadInjective(RowContext(r), r.version, r.schema, c, r.version, r.schema);
    }
  }

  /** An envelope put into another row opens there exactly when binding, version and schema are the same. */
  lemma MovedEnvelopeOpensIff(key: Id, r: Row, s: Row, schema: int)
    requires RowOk(key, r) && RowOk(key, s)
    ensures Unseal(Keys(Some(key), schema), s.(nonce := r.nonce, box := r.box), RowContext(s)).Ok?
      <==> RowContext(r) == RowContext(s) && r.version == s.version && r.schema == s.schema
  {
    var material :| SealedFor(key, r, material);
    var other :| SealedFor(key, s, other);
    DecodeUndoesEncode(material);
    if Unseal(Keys(Some(key), schema), s.(nonce := r.nonce, box := r.box), RowContext(s)).Ok? {
      AadInjective(RowContext(r), r.version, r.schema, RowContext(s), s.version, s.schema);
    }
  }

  lemma SealedRowOpens(key: Id, r: Row, material: Material)
    requires SealedFor(key, r, material)
    ensures RowOk(key, r) && Opened(key, r) == material
  {
    DecodeUndoesEncode(material);
  }

  /** Reading an authorized credential is reading the plain map. */
  lemma GetRefines(rows: Rows, key: Id, schema: int, caller: Caller, id: Uuid, c: Context)
    requires Inv(rows, key)
    ensures var r := Get(rows, Keys(Some(key), schema), caller, id, c);
      if id in rows && RowContext(rows[id]) == c && !MayOpen(caller, c)
      then r == Err(Unavailable)
      else r == MemGet(Contents(rows, key), id, c)
  {
    if id in rows { RowOpensOnlyAsItself(key, rows[id], schema, RowContext(rows[id])); }
  }

  // One row put into the table puts one entry into the map.
  lemma PutRow(rows: Rows, key: Id, id: Uuid, r: Row, material: Material)
    requires Inv(rows, key) && SealedFor(key, r, material)
    ensures Inv(rows[id := r], key)
    ensures Contents(rows[id := r], key) == Contents(rows, key)[id := Entry(RowContext(r), r.version, material)]
  {
    SealedRowOpens(key, r, material);
    var rows' := rows[id := r];
    forall x | x in rows' ensures RowOk(key, rows'[x]) {
      if x != id { assert RowOk(key, rows[x]); }
    }
  }

  lemma DropRow(rows: Rows, key: Id, id: Uuid)
    requires Inv(rows, key)
    ensures Inv(rows - {id}, key) && Contents(rows - {id}, key) == Contents(rows, key) - {id}
  {
    var rows' := rows - {id};
    assert forall x :: x in rows' ==> x in rows && rows'[x] == rows[x];
  }

  /** Storing under a fresh id is storing in the plain map, if it can be stored at all. */
  lemma StoreRefines(rows: Rows, key: Id, schema: int, id: Uuid, c: Context, material: Material, nonce: Id)
    requires Inv(rows, key)
    ensures var (r, rows') := StoreNew(rows, Keys(Some(key), schema), id, c, material, nonce);
      && Inv(rows', key)
      && (r.Ok? <==> Encode(material).Ok? && Supported(c) && id !in rows && StorableSchema(schema))
      && (r.Ok? ==> r == Ok(Credential(1, material))
                    && Contents(rows', key) == MemStore(Contents(rows, key), id, c, material))
      && (r.Err? ==> rows' == rows)
  {
    AadEncodableIff(c, 1, schema);
    var (r, rows') := StoreNew(rows, Keys(Some(key), schema), id, c, material, nonce);
    if r.Ok? {
      assert SealedFor(key, rows'[id], material);
      PutRow(rows, key, id, rows'[id], material);
    }
  }

  /**
    Rotating an authorized credential gives the same answer, the same version and the same contents as the
    plain map; an unauthorized or unencodable rotation changes nothing.
   */
  lemma ReplaceRefines(rows: Rows, key: Id, schema: int, caller: Caller, id: Uuid, c: Context, expected: int,
                       material: Material, nonce: Id)
    requires Inv(rows, key)
    ensures var (r, rows') := ReplaceIfVersion(rows, Keys(Some(key), schema), caller, id, c, expected, material, nonce);
      && Inv(rows', key)
      && (r.Err? ==> rows' == rows)
      && (Seal(Keys(Some(key), schema), c, expected + 1, material, nonce).Ok? && StorableSchema(schema) ==>
            if id in rows && RowContext(rows[id]) == c && !MayReplace(caller, c)
            then r == Err(Unavailable)
            else (r, Contents(rows', key)) == MemReplace(Contents(rows, key), id, c, expected, material))
  {
    var (r, rows') := ReplaceIfVersion(rows, Keys(Some(key), schema), caller, id, c, expected, material, nonce);
    if r.Ok? {
      assert SealedFor(key, rows'[id], material);
      PutRow(rows, key, id, rows'[id], material);
    }
  }

  /** Deleting likewise; deleting what is absent succeeds and changes nothing. */
  lemma DeleteRefines(rows: Rows, key: Id, caller: Caller, id: Uuid, c: Context)
    requires Inv(rows, key)
    ensures var (r, rows') := Delete(rows, caller, id, c);
      && Inv(rows', key)
      && (if id in rows && RowContext(rows[id]) == c && !MayDelete(caller, c)
          then r == Some(Unavailable) && rows' == rows
          else (r, Contents(rows', key)) == MemDelete(Contents(rows, key), id, c))
  {
    DropRow(rows, key, id);
  }

  // ------------------------------------------------------------------------------- runs

  // Every operation is sealed under the schema version that its process runs with.
  datatype Op =
    | OpStore(schema: int, id: Uuid, context: Context, material: Material, nonce: Id)
    | OpReplace(schema: int, id: Uuid, context: Context, expected: int, material: Material, nonce: Id, caller: Caller)
    | OpDelete(id: Uuid, context: Context, caller: Caller)

  function Apply(rows: Rows, master: Option<Id>, op: Op): Rows {
    match op
    case OpStore(schema, id, c, material, nonce) => StoreNew(rows, Keys(master, schema), id, c, material, nonce).1
    case OpReplace(schema, id, c, expected, material, nonce, caller) =>
      ReplaceIfVersion(rows, Keys(master, schema), caller, id, c, expected, material, nonce).1
    case OpDelete(id, c, caller) => Delete(rows, caller, id, c).1
  }

  function After(master: Option<Id>, ops: seq<Op>): Rows {
    if ops == [] then map[] else Apply(After(master, ops[..|ops| - 1]), master, ops[|ops| - 1])
  }

  /** In every run, under whatever schema versions, every stored row opens under its own context and version. */
  lemma {:induction false} EveryRowOpens(key: Id, ops: seq<Op>)
    ensures Inv(After(Some(key), ops), key)
    ensures forall id :: id in After(Some(key), ops) ==> StorableSchema(After(Some(key), ops)[id].schema)
  {
    if ops != [] {
      EveryRowOpens(key, ops[..|ops| - 1]);
      var rows := After(Some(key), ops[..|ops| - 1]);
      match ops[|ops| - 1]
      case OpStore(schema, id, c, material, nonce) => StoreRefines(rows, key, schema, id, c, material, nonce);
      case OpReplace(schema, id, c, expected, material, nonce, caller) =>
        ReplaceRefines(rows, key, schema, caller, id, c, expected, material, nonce);
      case OpDelete(id, c, caller) => DeleteRefines(rows, key, caller, id, c);
    }
  }

  lemma StoreSeals(rows: Rows, key: Id, schema: int, id: Uuid, owner: Uuid, m: Material, nonce: Id) returns (r: Row)
    requires id !in rows && StorableSchema(schema) && Encode(m).Ok?
    ensures var c := Context(RING, RING_PENDING_LINK, owner);
      && Apply(rows, Some(key), OpStore(schema, id, c, m, nonce)) == rows[id := r]
      && SealedFor(key, r, m) && RowContext(r) == c && r.version == 1 && r.schema == schema
  {
    var c := Context(RING, RING_PENDING_LINK, owner);
    AadEncodableIff(c, 1, schema);
    r := Row(RING, RING_PENDING_LINK, owner, 1, schema, nonce, Seal(Keys(Some(key), schema), c, 1, m, nonce).value);
  }

  lemma EnvelopeGives(key: Id, r: Row, s: Row, material: Material)
    requires SealedFor(key, r, material) && RowContext(r) == RowContext(s)
    requires r.version == s.version && r.schema == s.schema
    ensures Unseal(Keys(Some(key), s.schema), s.(nonce := r.nonce, box := r.box), RowContext(s)) == Ok(material)
  {
    DecodeUndoesEncode(material);
  }

  lemma AfterTwo(master: Option<Id>, a: Op, b: Op)
    ensures After(master, [a, b]) == Apply(Apply(map[], master, a), master, b)
  {
    assert [a, b][..1] == [a];
    assert [a][..0] == [];
    assert After(master, [a]) == Apply(After(master, []), master, a);
  }

  /**
    The row's id is not part of the binding: after two credentials of one owner are stored, the second row
    carrying the first one's envelope opens to the first material.
   */
  lemma ExchangedEnvelopeOpens(key: Id, schema: int, owner: Uuid, m: Material, n: Material)
    requires StorableSchema(schema) && Encode(m).Ok? && Encode(n).Ok? && m != n
    ensures
      var c := Context(RING, RING_PENDING_LINK, owner);
      var rows := After(Some(key), [OpStore(schema, 1, c, m, 1), OpStore(schema, 2, c, n, 2)]);
      && 1 in rows && 2 in rows
      && Unseal(Keys(Some(key), schema), rows[2], c) == Ok(n)
      && Unseal(Keys(Some(key), schema), rows[2].(nonce := rows[1].nonce, box := rows[1].box), c) == Ok(m)
  {
    var c := Context(RING, RING_PENDING_LINK, owner);
    AfterTwo(Some(key), OpStore(schema, 1, c, m, 1), OpStore(schema, 2, c, n, 2));
    var first := StoreSeals(map[], key, schema, 1, owner, m, 1);
    var second := StoreSeals(map[1 := first], key, schema, 2, owner, n, 2);
    assert map[1 := first][2 := second][1] == first;
    EnvelopeGives(key, first, second, m);
    EnvelopeGives(key, second, second, n);
  }

  // The operation is a rotation of `id` from `expected`, and it succeeds on these rows.
  ghost predicate Wins(rows: Rows, master: Option<Id>, op: Op, id: Uuid, expected: int) {
    && op.OpReplace? && op.id == id && op.expected == expected
    && ReplaceIfVersion(rows, Keys(master, op.schema), op.caller, id, op.context, expected, op.material, op.nonce).0.Ok?
  }

  lemma VersionNeverFalls(rows: Rows, master: Option<Id>, op: Op, id: Uuid, floor: int)
    requires id in rows ==> rows[id].version >= floor
    requires !(op.OpStore? && op.id == id)
    ensures id in Apply(rows, master, op) ==> Apply(rows, master, op)[id].version >= floor
  {
  }

  lemma {:induction false} VersionFloor(master: Option<Id>, ops: seq<Op>, i: nat, id: Uuid, floor: int)
    requires i <= |ops|
    requires var rows := After(master, ops[..i]); id in rows ==> rows[id].version >= floor
    requires forall k :: i <= k < |ops| ==> !(ops[k].OpStore? && ops[k].id == id)
    ensures id in After(master, ops) ==> After(master, ops)[id].version >= floor
  {
    if i == |ops| {
      assert ops[..i] == ops;
    } else {
      var shorter := ops[..|ops| - 1];
      assert shorter[..i] == ops[..i];
      VersionFloor(master, shorter, i, id, floor);
      VersionNeverFalls(After(master, shorter), master, ops[|ops| - 1], id, floor);
    }
  }

  /**
    Of any number of rotations of one credential with the same expected version at most one succeeds, as
    long as its id is not stored anew in between.
   */
  lemma AtMostOneRotationWins(master: Option<Id>, ops: seq<Op>, i: nat, j: nat, id: Uuid, expected: int)
    requires i < j < |ops|
    requires forall k :: i <= k < j ==> !(ops[k].OpStore? && ops[k].id == id)
    requires Wins(After(master, ops[..i]), master, ops[i], id, expected)
    ensures !Wins(After(master, ops[..j]), master, ops[j], id, expected)
  {
    assert ops[..i + 1][..i] == ops[..i];
    assert ops[..j][..i + 1] == ops[..i + 1];
    var rows := After(master, ops[..i + 1]);
    assert id in rows && rows[id].version == expected + 1;
    VersionFloor(master, ops[..j], i + 1, id, expected + 1);
  }
}
