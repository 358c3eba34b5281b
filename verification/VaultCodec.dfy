/** The sealed form of a credential: its plaintext encoding and the context it is bound to. */
module VaultCodec {
  import opened Base
  import opened Text

  const SEPARATOR: nat := 0x1f
  const MAX_SECRET_BYTES: nat := 8192

  datatype VaultError =
    | ContextNotEncodable | MaterialIncomplete | MaterialTooLong | MaterialNotEncodable | MaterialCorrupt
    | KeyUnavailable | NotAuthenticated | ContextMismatch | VersionConflict | Unavailable | NotStored

  // What a credential is bound to. The tenant an operation runs for is not part of the binding.
  datatype Context = Context(provider: Text, ownerKind: Text, owner: Uuid)

  datatype Material = Material(access: Text, refresh: Text)

  // ---------------------------------------------------------------------- associated data

  function Fields(c: Context, version: int, schema: int): seq<Text> {
    [Decimal(schema), c.provider, c.ownerKind, UuidText(c.owner), Decimal(version)]
  }

  function Join(fields: seq<Text>): Text
    requires fields != []
  {
    if |fields| == 1 then fields[0] else fields[0] + [SEPARATOR] + Join(fields[1..])
  }

  function CanonicalAad(c: Context, version: int, schema: int): Result<Text, VaultError> {
    var fields := Fields(c, version, schema);
    if exists f :: f in fields && SEPARATOR in f then Err(ContextNotEncodable) else Ok(Join(fields))
  }

  // Cut at the first separator.
  function Partition(t: Text): (Text, bool, Text) {
    if t == [] then ([], false, [])
    else if t[0] == SEPARATOR then ([], true, t[1..])
    else
      var (before, found, after) := Partition(t[1..]);
      ([t[0]] + before, found, after)
  }

  lemma {:induction false} PartitionAt(a: Text, b: Text)
    requires SEPARATOR !in a
    ensures Partition(a + [SEPARATOR] + b) == (a, true, b)
  {
    var t := a + [SEPARATOR] + b;
    if a == [] {
      assert t == [SEPARATOR] + b;
    } else {
      PartitionAt(a[1..], b);
      assert t[0] == a[0] != SEPARATOR && t[1..] == a[1..] + [SEPARATOR] + b;
      assert a == [a[0]] + a[1..];
    }
  }

  lemma {:induction false} PartitionMeans(t: Text)
    ensures var (a, found, b) := Partition(t);
      SEPARATOR !in a && (if found then t == a + [SEPARATOR] + b else t == a && b == [])
  {
    if t != [] && t[0] != SEPARATOR { PartitionMeans(t[1..]); }
  }

  lemma JoinSplits(head: Text, rest: seq<Text>)
    requires rest != [] && SEPARATOR !in head
    ensures Partition(Join([head] + rest)) == (head, true, Join(rest))
  {
    assert ([head] + rest)[1..] == rest;
    PartitionAt(head, Join(rest));
  }

  lemma {:induction false} JoinInjective(a: seq<Text>, b: seq<Text>)
    requires |a| == |b| && a != [] && Join(a) == Join(b)
    requires forall f :: f in a || f in b ==> SEPARATOR !in f
    ensures a == b
  {
    if |a| > 1 {
      assert a == [a[0]] + a[1..] && b == [b[0]] + b[1..];
      JoinSplits(a[0], a[1..]);
      JoinSplits(b[0], b[1..]);
      JoinInjective(a[1..], b[1..]);
    }
  }

  /** No two different bindings share associated data: schema, provider, owner kind, owner and version. */
  lemma AadInjective(c: Context, version: int, schema: int, c': Context, version': int, schema': int)
    requires CanonicalAad(c, version, schema).Ok?
    requires CanonicalAad(c', version', schema') == CanonicalAad(c, version, schema)
    ensures c == c' && version == version' && schema == schema'
  {
    var a, b := Fields(c, version, schema), Fields(c', version', schema');
    JoinInjective(a, b);
    assert a[0] == b[0] && a[1] == b[1] && a[2] == b[2] && a[3] == b[3] && a[4] == b[4];
    DecimalInjective(schema, schema');
    DecimalInjective(version, version');
    UuidRoundTrip(c.owner);
    UuidRoundTrip(c'.owner);
  }

  /** Only the operator-chosen provider and owner kind can make a context unencodable. */
  lemma AadEncodableIff(c: Context, version: int, schema: int)
    ensures CanonicalAad(c, version, schema).Ok? <==> SEPARATOR !in c.provider && SEPARATOR !in c.ownerKind
  {
    UuidTextCharacters(c.owner);
    var fields := Fields(c, version, schema);
    assert fields[1] in fields && fields[2] in fields;
    assert SEPARATOR !in Decimal(schema) && SEPARATOR !in Decimal(version);
  }

  // ------------------------------------------------------------------------- plaintext

  function Encode(m: Material): Result<Text, VaultError> {
    if m.access == [] || m.refresh == [] then Err(MaterialIncomplete)
    else if |m.access| > MAX_SECRET_BYTES || |m.refresh| > MAX_SECRET_BYTES then Err(MaterialTooLong)
    else if SEPARATOR in m.access || SEPARATOR in m.refresh then Err(MaterialNotEncodable)
    else Ok(m.access + [SEPARATOR] + m.refresh)
  }

  function Decode(plaintext: Text): Result<Material, VaultError> {
    var (access, found, refresh) := Partition(plaintext);
    if !found || access == [] || refresh == [] then Err(MaterialCorrupt) else Ok(Material(access, refresh))
  }

  /** A material is encodable exactly when both secrets are there, at most 8192 long and free of the separator. */
  lemma EncodableIff(m: Material)
    ensures Encode(m).Ok? <==>
      && 1 <= |m.access| <= 8192 && 1 <= |m.refresh| <= 8192
      && (forall c :: c in m.access || c in m.refresh ==> c != 0x1f)
  {
  }

  /** Decoding undoes encoding. */
  lemma DecodeUndoesEncode(m: Material)
    requires Encode(m).Ok?
    ensures Decode(Encode(m).value) == Ok(m)
  {
    PartitionAt(m.access, m.refresh);
  }

  /** And a decoded plaintext is the encoding of what it decodes to exactly when that is within limits. */
  lemma EncodeUndoesDecode(plaintext: Text)
    requires Decode(plaintext).Ok?
    ensures var m := Decode(plaintext).value;
      Encode(m) == Ok(plaintext) <==>
        |m.access| <= MAX_SECRET_BYTES && |m.refresh| <= MAX_SECRET_BYTES && SEPARATOR !in m.refresh
  {
    PartitionMeans(plaintext);
  }

  /** Beyond those limits it is not: this plaintext decodes, and its material cannot be encoded at all. */
  lemma SecondSeparatorIsLost()
    ensures var plaintext := [97, SEPARATOR, 98, SEPARATOR, 99];
      Decode(plaintext) == Ok(Material([97], [98, SEPARATOR, 99]))
      && Encode(Material([97], [98, SEPARATOR, 99])) == Err(MaterialNotEncodable)
  {
    PartitionAt([97], [98, SEPARATOR, 99]);
    assert [97] + [SEPARATOR] + [98, SEPARATOR, 99] == [97, SEPARATOR, 98, SEPARATOR, 99];
    assert [98, SEPARATOR, 99][1] == SEPARATOR;
  }

  // ------------------------------------------------------------------------ ideal AEAD

  // An ideal sealed box: it opens only under the key, nonce and associated data it was sealed with.
  datatype Box = Box(key: Id, nonce: Id, aad: Text, plaintext: Text)

  function OpenBox(box: Box, key: Id, nonce: Id, aad: Text): Result<Text, VaultError> {
    if box.key == key && box.nonce == nonce && box.aad == aad then Ok(box.plaintext) else Err(NotAuthenticated)
  }
}
