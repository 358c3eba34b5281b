/** Who may open, rotate and delete a sealed credential, and what each of them then reads. */
module VaultAccess {
  import opened Base
  import opened Text
  import opened VaultCodec
  import opened VaultModel

  // ----------------------------------------------------------------------------- one credential

  /** A credential opens exactly under its own context, for a connected tenant or the tenant that is claiming it. */
  lemma OpensIff(rows: Rows, key: Id, schema: int, caller: Caller, id: Uuid, c: Context)
    requires Inv(rows, key)
    ensures Get(rows, Keys(Some(key), schema), caller, id, c).Ok? <==>
      && id in rows && RowContext(rows[id]) == c && c.ownerKind == RING_PENDING_LINK
      && (Connected(caller, c.owner) || Claims(caller, c.owner))
  {
    GetRefines(rows, key, schema, caller, id, c);
  }

  /** It rotates exactly for a connected tenant that knows its version, with a material that can be sealed. */
  lemma RotatesIff(rows: Rows, key: Id, schema: int, caller: Caller, id: Uuid, c: Context, expected: int,
                   material: Material, nonce: Id)
    requires Inv(rows, key)
    ensures ReplaceIfVersion(rows, Keys(Some(key), schema), caller, id, c, expected, material, nonce).0.Ok? <==>
      && id in rows && RowContext(rows[id]) == c && c.ownerKind == RING_PENDING_LINK && Connected(caller, c.owner)
      && rows[id].version == expected
      && Encode(material).Ok? && SEPARATOR !in c.provider && schema >= 1
  {
    AadEncodableIff(c, expected + 1, schema);
    ReplaceRefines(rows, key, schema, caller, id, c, expected, material, nonce);
  }

  /** It is removed exactly under its own context by a connected tenant, or by anybody if it was never taken. */
  lemma RemovesIff(rows: Rows, caller: Caller, id: Uuid, c: Context)
    requires id in rows
    ensures id !in Delete(rows, caller, id, c).1 <==>
      && RowContext(rows[id]) == c && c.ownerKind == RING_PENDING_LINK
      && (Connected(caller, c.owner) || NeverTaken(caller, c.owner))
    ensures id !in Delete(rows, caller, id, c).1 ==>
      Delete(rows, caller, id, c) == (None, rows - {id})
    ensures id in Delete(rows, caller, id, c).1 ==> Delete(rows, caller, id, c).1 == rows
  {
    assert Authorized(caller, c.ownerKind, c.owner, ToDelete) <==> MayDelete(caller, c);
  }

  // --------------------------------------------------------------------------- tenants apart

  // The owner's only tenant: every connection that references it is this tenant's, and nobody claims its link.
  ghost predicate OwnedBy(caller: Caller, owner: Uuid, tenant: Id) {
    && (forall t :: (owner, t) in caller.connections ==> t == tenant)
    && owner in caller.links && caller.links[owner].state == OtherState
  }

  /** Another tenant, or no tenant, neither reads, rotates nor removes a credential that one tenant owns. */
  lemma StrangersGetNothing(rows: Rows, key: Id, schema: int, caller: Caller, id: Uuid, c: Context, tenant: Id,
                            expected: int, material: Material, nonce: Id)
    requires Inv(rows, key) && OwnedBy(caller, c.owner, tenant) && caller.tenant != Some(tenant)
    ensures Get(rows, Keys(Some(key), schema), caller, id, c).Err?
    ensures var (r, after) := ReplaceIfVersion(rows, Keys(Some(key), schema), caller, id, c, expected, material, nonce);
      r.Err? && after == rows
    ensures Delete(rows, caller, id, c).1 == rows
  {
    OpensIff(rows, key, schema, caller, id, c);
    RotatesIff(rows, key, schema, caller, id, c, expected, material, nonce);
    ReplaceRefines(rows, key, schema, caller, id, c, expected, material, nonce);
    if id in rows { RemovesIff(rows, caller, id, c); }
  }

  // ----------------------------------------------------------------------------- what is read

  // A tenant that is connected to the owner of this supported context.
  ghost predicate Owns(caller: Caller, c: Context) { Supported(c) && Connected(caller, c.owner) }

  /** What is stored is what its tenant reads, at version 1, whichever schema version the reader runs with. */
  lemma ReadsWhatWasStored(rows: Rows, key: Id, schema: int, id: Uuid, c: Context, material: Material, nonce: Id,
                           reader: Caller, later: int)
    requires Inv(rows, key) && Owns(reader, c)
    requires StoreNew(rows, Keys(Some(key), schema), id, c, material, nonce).0.Ok?
    ensures var after := StoreNew(rows, Keys(Some(key), schema), id, c, material, nonce).1;
      && Get(after, Keys(Some(key), later), reader, id, c) == Ok(Credential(1, material))
      && forall x :: x != id ==> (x in after <==> x in rows) && (x in rows ==> after[x] == rows[x])
  {
    StoreRefines(rows, key, schema, id, c, material, nonce);
    var after := StoreNew(rows, Keys(Some(key), schema), id, c, material, nonce).1;
    GetRefines(after, key, later, reader, id, c);
  }

  /** After a rotation its tenant reads the new material at the next version, and every other row is as it was. */
  lemma ReadsWhatWasRotated(rows: Rows, key: Id, schema: int, caller: Caller, id: Uuid, c: Context, expected: int,
                            material: Material, nonce: Id, reader: Caller, later: int)
    requires Inv(rows, key) && Owns(reader, c)
    requires ReplaceIfVersion(rows, Keys(Some(key), schema), caller, id, c, expected, material, nonce).0.Ok?
    ensures var (r, after) := ReplaceIfVersion(rows, Keys(Some(key), schema), caller, id, c, expected, material, nonce);
      && r == Ok(Credential(expected + 1, material))
      && Get(after, Keys(Some(key), later), reader, id, c) == r
      && forall x :: x != id ==> (x in after <==> x in rows) && (x in rows ==> after[x] == rows[x])
  {
    ReplaceRefines(rows, key, schema, caller, id, c, expected, material, nonce);
    var after := ReplaceIfVersion(rows, Keys(Some(key), schema), caller, id, c, expected, material, nonce).1;
    GetRefines(after, key, later, reader, id, c);
  }

  // --------------------------------------------------------------------------------- over a run

  // The operation is one that may change this credential.
  ghost predicate MayTouch(rows: Rows, op: Op, id: Uuid) {
    match op
    case OpStore(_, x, _, _, _) => false
    case OpReplace(_, x, c, _, _, _, caller) =>
      x == id && id in rows && c == RowContext(rows[id]) && MayReplace(caller, c)
    case OpDelete(x, c, caller) => x == id && id in rows && c == RowContext(rows[id]) && MayDelete(caller, c)
  }

  lemma UntouchedStep(rows: Rows, key: Id, op: Op, id: Uuid)
    requires Inv(rows, key) && id in rows && !MayTouch(rows, op, id)
    ensures id in Apply(rows, Some(key), op) && Apply(rows, Some(key), op)[id] == rows[id]
  {
    match op
    case OpStore(_, _, _, _, _) =>
    case OpReplace(schema, x, c, expected, material, nonce, caller) =>
      RotatesIff(rows, key, schema, caller, x, c, expected, material, nonce);
      ReplaceRefines(rows, key, schema, caller, x, c, expected, material, nonce);
    case OpDelete(x, c, caller) => if x == id { RemovesIff(rows, caller, x, c); }
  }

  lemma UntouchedNext(key: Id, ops: seq<Op>, n: nat, id: Uuid)
    requires n < |ops| && id in After(Some(key), ops[..n]) && !MayTouch(After(Some(key), ops[..n]), ops[n], id)
    ensures id in After(Some(key), ops[..n + 1])
    ensures After(Some(key), ops[..n + 1])[id] == After(Some(key), ops[..n])[id]
  {
    assert ops[..n + 1][..n] == ops[..n];
    EveryRowOpens(key, ops[..n]);
    UntouchedStep(After(Some(key), ops[..n]), key, ops[n], id);
  }

  /**
    Over any run a stored credential stays the very row it is, version and envelope, until a call that may touch
    it: a rotation by a connected tenant or a deletion by one, or by anybody while its link was never taken.
   */
  lemma {:induction false} OnlyItsTenantTouchesIt(key: Id, ops: seq<Op>, m: nat, id: Uuid)
    requires m <= |ops| && id in After(Some(key), ops[..m])
    requires forall k :: m <= k < |ops| ==> !MayTouch(After(Some(key), ops[..k]), ops[k], id)
    ensures id in After(Some(key), ops) && After(Some(key), ops)[id] == After(Some(key), ops[..m])[id]
    decreases |ops|
  {
    if m == |ops| {
      assert ops[..m] == ops;
    } else {
      var n := |ops| - 1;
      var shorter := ops[..n];
      assert shorter[..m] == ops[..m];
      forall k | m <= k < n ensures !MayTouch(After(Some(key), shorter[..k]), shorter[k], id) {
        assert shorter[..k] == ops[..k];
      }
      OnlyItsTenantTouchesIt(key, shorter, m, id);
      assert !MayTouch(After(Some(key), ops[..n]), ops[n], id);
      UntouchedNext(key, ops, n, id);
      assert ops[..n + 1] == ops;
    }
  }
}
