/** The two vault objects: the plain dictionary, and the sealed rows that stand for the same dictionary. */
module CredentialVault {
  import opened Base
  import opened Text
  import opened VaultCodec
  import opened VaultModel

  class InMemoryCredentialVault {
    var entries: Entries

    constructor ()
      ensures entries == map[]
    {
      entries := map[];
    }

    // The reference is a new random one.
    method StoreNew(id: Uuid, c: Context, material: Material) returns (r: Credential)
      requires id !in entries
      modifies this
      ensures entries == MemStore(old(entries), id, c, material) && r == Credential(1, material)
    {
      entries := entries[id := Entry(c, 1, material)];
      r := Credential(1, material);
    }

    method Get(id: Uuid, c: Context) returns (r: Answer)
      ensures r == MemGet(entries, id, c)
    {
      if id !in entries { return Err(Unavailable); }
      var entry := entries[id];
      if entry.context != c { return Err(ContextMismatch); }
      return Ok(Credential(entry.version, entry.material));
    }

    method ReplaceIfVersion(id: Uuid, c: Context, expected: int, material: Material) returns (r: Answer)
      modifies this
      ensures (r, entries) == MemReplace(old(entries), id, c, expected, material)
    {
      if id !in entries { return Err(Unavailable); }
      var entry := entries[id];
      if entry.context != c { return Err(ContextMismatch); }
      if entry.version != expected { return Err(VersionConflict); }
      entries := entries[id := Entry(c, entry.version + 1, material)];
      return Ok(Credential(entry.version + 1, material));
    }

    method Delete(id: Uuid, c: Context) returns (r: Option<VaultError>)
      modifies this
      ensures (r, entries) == MemDelete(old(entries), id, c)
    {
      if id !in entries { return None; }
      if entries[id].context != c { return Some(ContextMismatch); }
      entries := entries - {id};
      return None;
    }
  }

  // The table behind the four database functions.
  class CredentialTable {
    var rows: Rows

    constructor ()
      ensures rows == map[]
    {
      rows := map[];
    }

    method Create(id: Uuid, c: Context, schema: int, nonce: Id, box: Box) returns (version: Option<int>)
      modifies this
      ensures match SqlCreate(old(rows), id, c, schema, nonce, box)
              case None => version == None && rows == old(rows)
              case Some(rows') => version == Some(1) && rows == rows'
    {
      if !Supported(c) || id in rows || schema < 1 { return None; }
      rows := rows[id := Row(c.provider, c.ownerKind, c.owner, 1, schema, nonce, box)];
      return Some(1);
    }

    method Replace(caller: Caller, id: Uuid, c: Context, expected: int, schema: int, nonce: Id, box: Box)
      returns (version: Result<int, VaultError>)
      modifies this
      ensures match SqlReplace(old(rows), caller, id, c, expected, schema, nonce, box)
              case Err(e) => version == Err(e) && rows == old(rows)
              case Ok((v, rows')) => version == Ok(v) && rows == rows'
    {
      if id !in rows { return Err(Unavailable); }
      var record := rows[id];
      if record.provider != c.provider || record.ownerKind != c.ownerKind || record.owner != c.owner {
        return Err(ContextMismatch);
      }
      if !Authorized(caller, c.ownerKind, c.owner, ToReplace) { return Err(Unavailable); }
      if record.version != expected { return Err(VersionConflict); }
      if schema < 1 { return Err(NotStored); }
      rows := rows[id := record.(version := record.version + 1, schema := schema, nonce := nonce, box := box)];
      return Ok(record.version + 1);
    }

    method Delete(caller: Caller, id: Uuid, c: Context) returns (r: Option<VaultError>)
      modifies this
      ensures (r, rows) == VaultModel.Delete(old(rows), caller, id, c)
    {
      if id !in rows { return None; }
      var record := rows[id];
      if record.provider != c.provider || record.ownerKind != c.ownerKind || record.owner != c.owner {
        return Some(ContextMismatch);
      }
      if !Authorized(caller, c.ownerKind, c.owner, ToDelete) { return Some(Unavailable); }
      rows := rows - {id};
      return None;
    }
  }

  class EncryptedCredentialVault {
    const table: CredentialTable
    const key: Id
    const schema: int

    ghost predicate Valid()
      reads table
    {
      Inv(table.rows, key)
    }

    // The plain map this vault stands for.
    ghost function Entries(): VaultModel.Entries
      reads table
    {
      Contents(table.rows, key)
    }

    constructor (key: Id, schema: int)
      ensures Valid() && fresh(table) && Entries() == map[] && this.key == key && this.schema == schema
    {
      this.key, this.schema := key, schema;
      table := new CredentialTable();
      new;
      assert Contents(table.rows, key) == map[];
    }

    method StoreNew(id: Uuid, c: Context, material: Material, nonce: Id) returns (r: Answer)
      requires Valid()
      modifies table
      ensures Valid()
      ensures r.Ok? <==>
        Encode(material).Ok? && Supported(c) && id !in old(Entries()) && StorableSchema(schema)
      ensures r.Ok? ==> r == Ok(Credential(1, material)) && Entries() == MemStore(old(Entries()), id, c, material)
      ensures r.Err? ==> Entries() == old(Entries())
    {
      StoreRefines(table.rows, key, schema, id, c, material, nonce);
      var envelope := Seal(Keys(Some(key), schema), c, 1, material, nonce);
      if envelope.Err? { return Err(envelope.error); }
      var version := table.Create(id, c, schema, nonce, envelope.value);
      if version != Some(1) { return Err(NotStored); }
      return Ok(Credential(1, material));
    }

    method Get(caller: Caller, id: Uuid, c: Context) returns (r: Answer)
      requires Valid()
      ensures r == VaultModel.Get(table.rows, Keys(Some(key), schema), caller, id, c)
      ensures MayOpen(caller, c) ==> r == MemGet(Entries(), id, c)
      ensures !MayOpen(caller, c) ==> r.Err?
    {
      GetRefines(table.rows, key, schema, caller, id, c);
      var row := SqlOpen(table.rows, caller, id, c);
      if row.Err? { return Err(row.error); }
      match Unseal(Keys(Some(key), schema), row.value, c) {
        case Err(e) => return Err(e);
        case Ok(material) => return Ok(Credential(row.value.version, material));
      }
    }

    method ReplaceIfVersion(caller: Caller, id: Uuid, c: Context, expected: int, material: Material, nonce: Id)
      returns (r: Answer)
      requires Valid()
      modifies table
      ensures Valid()
      ensures r.Err? ==> Entries() == old(Entries())
      ensures !MayReplace(caller, c) ==> r.Err?
      ensures Encode(material).Ok? && CanonicalAad(c, expected + 1, schema).Ok? && StorableSchema(schema)
              && MayReplace(caller, c) ==>
                (r, Entries()) == MemReplace(old(Entries()), id, c, expected, material)
    {
      ReplaceRefines(table.rows, key, schema, caller, id, c, expected, material, nonce);
      var envelope := Seal(Keys(Some(key), schema), c, expected + 1, material, nonce);
      if envelope.Err? { return Err(envelope.error); }
      var version := table.Replace(caller, id, c, expected, schema, nonce, envelope.value);
      if version.Err? { return Err(version.error); }
      return Ok(Credential(version.value, material));
    }

    method Delete(caller: Caller, id: Uuid, c: Context) returns (r: Option<VaultError>)
      requires Valid()
      modifies table
      ensures Valid()
      ensures MayDelete(caller, c) ==> (r, Entries()) == MemDelete(old(Entries()), id, c)
      ensures !MayDelete(caller, c) ==> Entries() == old(Entries())
    {
      DeleteRefines(table.rows, key, caller, id, c);
      r := table.Delete(caller, id, c);
    }
  }
}
