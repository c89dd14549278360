/**
 The credentials store kept in two SQL tables, secrets sealed: rows by particle and
 identifier, secrets by role besides.
 */
module CredentialsSqlite {
  import opened Text
  import opened Credentials

  /** Sealing takes a nonce; opening undoes it whatever the nonce was. */
  datatype Sealer = Sealer(seal: (string, nat) -> string, open: string -> Option<string>)
  datatype Codec = Codec(marshal: Meta -> string, unmarshal: (string, string) -> Option<Meta>)

  ghost predicate Lawful(sealer: Sealer, codec: Codec) {
    && (forall x, n :: sealer.open(sealer.seal(x, n)) == Some(x))
    && forall m: Meta :: codec.unmarshal(m.kind, codec.marshal(m)) == Some(m)
  }

  /** particle_credentials, by its primary key. */
  datatype Row = Row(name: string, methodName: string, kind: string, metaJson: string)

  /** The primary key of particle_credential_secrets. */
  datatype SecretKey = SecretKey(owner: Key, role: string)

  type Rows = map<Key, Row>
  type Sealed = map<SecretKey, string>

  ghost predicate RowShows(row: Row, e: Entry, codec: Codec) {
    row.name == e.name && row.methodName == e.methodName && row.kind == e.meta.kind
    && codec.unmarshal(row.kind, row.metaJson) == Some(e.meta)
  }

  ghost predicate RowsShow(rows: Rows, store: Store, codec: Codec) {
    rows.Keys == store.Keys && forall k :: k in rows ==> RowShows(rows[k], store[k], codec)
  }

  ghost predicate IsSecret(store: Store, s: SecretKey) {
    s.owner in store && s.role in store[s.owner].secrets
  }

  /** Every sealed row opens to a secret of an existing entry, and every secret has its row. */
  ghost predicate SealedShow(sealed: Sealed, store: Store, sealer: Sealer) {
    && (forall s :: s in sealed <==> IsSecret(store, s))
    && forall s :: s in sealed ==> sealer.open(sealed[s]) == Some(store[s.owner].secrets[s.role])
  }

  function WithoutOwner(sealed: Sealed, k: Key): Sealed {
    map s | s in sealed && s.owner != k :: sealed[s]
  }

  // ---------------------------------------------------------------- what each statement does to the contents

  lemma Upserted(sealed: Sealed, store: Store, sealer: Sealer, k: Key, role: string, value: string, blob: string)
    requires SealedShow(sealed, store, sealer) && k in store && sealer.open(blob) == Some(value)
    ensures SealedShow(sealed[SecretKey(k, role) := blob], WithSecrets(store, k, store[k].secrets[role := value]), sealer)
  {
  }

  lemma SecretDropped(sealed: Sealed, store: Store, sealer: Sealer, k: Key, role: string)
    requires SealedShow(sealed, store, sealer) && k in store
    ensures SealedShow(sealed - {SecretKey(k, role)}, WithSecrets(store, k, store[k].secrets - {role}), sealer)
  {
  }

  lemma Rewritten(sealed: Sealed, store: Store, sealer: Sealer, k: Key, e: Entry)
    requires SealedShow(sealed, store, sealer) && k in store && e.secrets == store[k].secrets
    ensures SealedShow(sealed, store[k := e], sealer)
  {
  }

  lemma Wiped(sealed: Sealed, store: Store, sealer: Sealer, k: Key, e: Entry)
    requires SealedShow(sealed, store, sealer) && k in store && e.secrets == map[]
    ensures SealedShow(WithoutOwner(sealed, k), store[k := e], sealer)
  {
  }

  lemma Inserted(sealed: Sealed, store: Store, sealer: Sealer, k: Key, e: Entry)
    requires SealedShow(sealed, store, sealer) && k !in store && e.secrets == map[]
    ensures SealedShow(sealed, store[k := e], sealer)
  {
    forall s
      ensures IsSecret(store, s) <==> IsSecret(store[k := e], s)
    {
    }
  }

  lemma OwnerDropped(sealed: Sealed, store: Store, sealer: Sealer, k: Key)
    requires SealedShow(sealed, store, sealer)
    ensures SealedShow(WithoutOwner(sealed, k), store - {k}, sealer)
  {
  }

  lemma RowWritten(rows: Rows, store: Store, codec: Codec, k: Key, row: Row, e: Entry)
    requires RowsShow(rows, store, codec) && RowShows(row, e, codec)
    ensures RowsShow(rows[k := row], store[k := e], codec)
  {
  }

  lemma RowNames(rows: Rows, store: Store, codec: Codec, k: Key)
    requires RowsShow(rows, store, codec) && k in rows
    ensures Named(store, k.particle, rows[k].name, k.id)
  {
    assert RowShows(rows[k], store[k], codec) && k == Key(k.particle, k.id);
  }

  lemma NamedHasRow(rows: Rows, store: Store, codec: Codec, p: string, name: string)
    requires RowsShow(rows, store, codec) && IdOf(store, p, name).Some?
    ensures exists k :: k in rows && k.particle == p && rows[k].name == name
  {
    var k := Key(p, IdOf(store, p, name).value);
    assert RowShows(rows[k], store[k], codec);
  }

  /** One more row of the SELECT, when it is the particle's. */
  function AddRow(table: map<string, ListEntry>, p: string, k: Key, row: Row): map<string, ListEntry> {
    if k.particle == p then table[row.name := ListEntry(k.id, row.name, row.methodName, row.kind)] else table
  }

  lemma AddRowTables(rows: Rows, store: Store, codec: Codec, p: string, keys: set<Key>, rest: set<Key>,
                     table: map<string, ListEntry>, k: Key)
    requires RowsShow(rows, store, codec) && k in rest && rest <= keys && k in rows
    requires Tabled(store, p, keys - rest, table)
    ensures Tabled(store, p, keys - (rest - {k}), AddRow(table, p, k, rows[k]))
  {
    hide Tabled;
    assert RowShows(rows[k], store[k], codec);
    TableOneMore(store, p, keys - rest, table, k);
    assert keys - (rest - {k}) == keys - rest + {k};
  }

  class SqliteCredentials {
    var rows: Rows
    var sealed: Sealed
    var nonce: nat
    const hasSealer: bool
    const sealer: Sealer
    const codec: Codec
    ghost var contents: Store

    /** One row per name; no orphan secrets; everything stored can be read back. */
    ghost predicate Valid()
      reads this
    {
      Lawful(sealer, codec) && OneRowPerName(contents)
      && RowsShow(rows, contents, codec) && SealedShow(sealed, contents, sealer)
    }

    constructor (hasSealer: bool, sealer: Sealer, codec: Codec)
      requires Lawful(sealer, codec)
      ensures Valid() && contents == map[] && this.hasSealer == hasSealer
    {
      this.hasSealer, this.sealer, this.codec := hasSealer, sealer, codec;
      rows, sealed, nonce, contents := map[], map[], 0, map[];
    }

    /** SELECT ... WHERE particle = ? AND name = ?. */
    method Select(p: string, name: string) returns (id: Option<string>)
      requires Valid()
      ensures id == IdOf(contents, p, name)
    {
      hide SealedShow, OneRowPerName, Lawful, RowsShow, RowShows, Named;
      if IdOf(contents, p, name).Some? {
        NamedHasRow(rows, contents, codec, p, name);
      }
      if exists k :: k in rows && k.particle == p && rows[k].name == name {
        var k :| k in rows && k.particle == p && rows[k].name == name;
        RowNames(rows, contents, codec, k);
        IdOfIs(contents, p, name, k.id);
        return Some(k.id);
      }
      return None;
    }

    method GetOne(k: Key) returns (r: Reply)
      requires Valid()
      ensures Answers(contents, GetByID(k.particle, k.id), r)
    {
      hide SealedShow, OneRowPerName, Lawful;
      if k !in rows {
        return Fail(NotFound);
      }
      var row := rows[k];
      assert RowShows(row, contents[k], codec) && k == Key(k.particle, k.id);
      var meta := codec.unmarshal(row.kind, row.metaJson);
      r := Found(Descriptor(k.id, row.name, row.methodName, meta.value));
    }

    method GetByName(p: string, name: string) returns (r: Reply)
      requires Valid()
      ensures Answers(contents, Op.GetByName(p, name), r)
    {
      hide SealedShow, OneRowPerName, Lawful, RowsShow;
      var id := Select(p, name);
      if id.None? {
        return Fail(NotFound);
      }
      r := GetOne(Key(p, id.value));
    }

    method ConfiguredMethod(p: string, name: string) returns (r: Reply)
      requires Valid()
      ensures Answers(contents, Op.ConfiguredMethod(p, name), r)
    {
      hide SealedShow, OneRowPerName, Lawful;
      var id := Select(p, name);
      if id.None? {
        return Method("");
      }
      assert RowShows(rows[Key(p, id.value)], contents[Key(p, id.value)], codec);
      r := Method(rows[Key(p, id.value)].methodName);
    }

    /** SELECT ... WHERE particle = ? ORDER BY name. */
    method List(p: string) returns (r: Reply)
      requires Valid()
      ensures Answers(contents, Op.List(p), r)
    {
      hide RowsShow, SealedShow, OneRowPerName, Lawful, SortedBy, Tabled, ListsParticle;
      var table: map<string, ListEntry> := map[];
      var keys := rows.Keys;
      var rest := keys;
      assert keys - rest == {};
      NothingTabled(contents, p);
      while rest != {}
        invariant rest <= keys && Tabled(contents, p, keys - rest, table)
        decreases |rest|
      {
        var k :| k in rest;
        AddRowTables(rows, contents, codec, p, keys, rest, table, k);
        table := AddRow(table, p, k, rows[k]);
        rest := rest - {k};
      }
      assert keys - rest == contents.Keys by { SameKeys(); }
      TableNames(contents, p, contents.Keys, table);
      var es := SortByName(table);
      TableLists(contents, p, table, es);
      r := Listed(es);
    }

    lemma SameKeys()
      requires RowsShow(rows, contents, codec)
      ensures rows.Keys - {} == contents.Keys
    {
    }

    /** The secret-writing loop of a transaction. */
    method Upsert(k: Key, secrets: seq<Secret>)
      requires Valid() && k in contents
      modifies `sealed, `nonce, `contents
      ensures Valid() && contents == WithSecrets(old(contents), k, WriteAll(old(contents)[k].secrets, secrets))
    {
      hide RowsShow, SealedShow, OneRowPerName, Lawful;
      ghost var had := contents[k].secrets;
      assert contents == WithSecrets(contents, k, had);
      for i := 0 to |secrets|
        invariant Valid() && k in contents
        invariant contents == WithSecrets(old(contents), k, WriteAll(had, secrets[..i]))
      {
        var sec := secrets[i];
        var blob := sealer.seal(sec.value, nonce);
        SealOpens(sec.value, nonce);
        Upserted(sealed, contents, sealer, k, sec.role, sec.value, blob);
        ghost var next := WithSecrets(contents, k, contents[k].secrets[sec.role := sec.value]);
        SameEntries(contents, next, codec);
        sealed, nonce, contents := sealed[SecretKey(k, sec.role) := blob], nonce + 1, next;
        assert secrets[..i + 1][..i] == secrets[..i];
      }
      assert secrets[..|secrets|] == secrets;
    }

    lemma SealOpens(x: string, n: nat)
      requires Lawful(sealer, codec)
      ensures sealer.open(sealer.seal(x, n)) == Some(x)
    {
    }

    /** Changing secrets only leaves the rows right. */
    lemma SameEntries(a: Store, b: Store, codec: Codec)
      requires RowsShow(rows, a, codec) && OneRowPerName(a) && a.Keys == b.Keys
      requires forall k :: k in a ==> b[k] == a[k].(secrets := b[k].secrets)
      ensures RowsShow(rows, b, codec) && OneRowPerName(b)
    {
      hide RowShows;
      forall k | k in rows
        ensures RowShows(rows[k], b[k], codec)
      {
        assert RowShows(rows[k], a[k], codec);
        RowIgnoresSecrets(rows[k], a[k], b[k], codec);
      }
      SameNames(a, b);
    }

    static lemma RowIgnoresSecrets(row: Row, a: Entry, b: Entry, codec: Codec)
      requires RowShows(row, a, codec) && b == a.(secrets := b.secrets)
      ensures RowShows(row, b, codec)
    {
    }

    /** INSERT of a new row, or UPDATE of the named one after wiping its secrets on a
        method switch. */
    method PutRow(p: string, name: string, methodName: string, meta: Meta, newId: string) returns (id: string)
      requires Valid() && Key(p, newId) !in contents
      modifies `rows, `sealed, `contents
      ensures Valid() && id == PutTarget(old(contents), p, name, newId)
      ensures contents == old(contents)[Key(p, id) := Entry(name, methodName, meta, Surviving(old(contents), Key(p, id), methodName))]
    {
      hide RowsShow, SealedShow, OneRowPerName, Lawful;
      var row := Row(name, methodName, meta.kind, codec.marshal(meta));
      MetaDecodes(meta);
      var found := Select(p, name);
      ghost var e := Entry(name, methodName, meta, map[]);
      PutKeepsNames(contents, p, name, newId, e);
      if found.Some? {
        id := found.value;
        var k := Key(p, id);
        e := Entry(name, methodName, meta, Surviving(contents, k, methodName));
        PutKeepsNames(contents, p, name, newId, e);
        RowWritten(rows, contents, codec, k, row, e);
        RowsHave(k);
        if rows[k].methodName != methodName {
          Wiped(sealed, contents, sealer, k, e);
          sealed := WithoutOwner(sealed, k);
        } else {
          Rewritten(sealed, contents, sealer, k, e);
        }
        rows, contents := rows[k := row], contents[k := e];
      } else {
        id := newId;
        var k := Key(p, id);
        RowWritten(rows, contents, codec, k, row, e);
        Inserted(sealed, contents, sealer, k, e);
        rows, contents := rows[k := row], contents[k := e];
      }
    }

    lemma MetaDecodes(meta: Meta)
      requires Lawful(sealer, codec)
      ensures codec.unmarshal(meta.kind, codec.marshal(meta)) == Some(meta)
    {
    }

    lemma RowsHave(k: Key)
      requires RowsShow(rows, contents, codec) && k in contents
      ensures k in rows && rows[k].methodName == contents[k].methodName
    {
      assert k in rows;
      assert RowShows(rows[k], contents[k], codec);
    }

    method Put(p: string, name: string, methodName: string, meta: Option<Meta>, secrets: seq<Secret>, newId: string)
        returns (r: Reply)
      requires Valid() && Key(p, newId) !in contents
      modifies this
      ensures Does(old(contents), Op.Put(p, name, methodName, meta, secrets, newId), r)
    {
      hide RowsShow, SealedShow, OneRowPerName, Lawful;
      if !hasSealer {
        return Fail(NoSealer);
      }
      var bad := CheckPut(name, methodName, meta, secrets);
      if bad.Some? {
        return Fail(bad.value);
      }
      var id := PutRow(p, name, methodName, meta.value, newId);
      Upsert(Key(p, id), secrets);
      r := Found(Descriptor(id, name, methodName, meta.value));
    }

    method Delete(p: string, id: string) returns (r: Reply)
      requires Valid()
      modifies this
      ensures Does(old(contents), Op.Delete(p, id), r)
    {
      hide SealedShow, OneRowPerName, Lawful, RowShows;
      var k := Key(p, id);
      OwnerDropped(sealed, contents, sealer, k);
      FewerRows(contents, k);
      sealed := WithoutOwner(sealed, k);
      rows, contents := rows - {k}, contents - {k};
      r := Done;
    }

    method ReadSecret(p: string, id: string, role: string) returns (r: Reply)
      requires Valid()
      ensures hasSealer ==> Answers(contents, Op.ReadSecret(p, id, role), r)
      ensures !hasSealer ==> r == Fail(NoSealer)
    {
      hide OneRowPerName, Lawful, RowShows;
      if !hasSealer {
        return Fail(NoSealer);
      }
      var s := SecretKey(Key(p, id), role);
      assert s in sealed <==> IsSecret(contents, s);
      if s in sealed {
        var plain := sealer.open(sealed[s]);
        return Bytes(plain.value);
      }
      if Key(p, id) in rows {
        return Fail(SecretNotSet);
      }
      return Fail(NotFound);
    }

    method WriteSecrets(p: string, id: string, secrets: seq<Secret>) returns (r: Reply)
      requires Valid()
      modifies this
      ensures Does(old(contents), Op.WriteSecrets(p, id, secrets), r)
    {
      hide SealedShow, OneRowPerName, Lawful, RowShows;
      if !hasSealer {
        return Fail(NoSealer);
      }
      var emptyRole := HasEmptyRole(secrets);
      if emptyRole {
        return Fail(EmptyRole);
      }
      if Key(p, id) !in rows {
        return Fail(NotFound);
      }
      Upsert(Key(p, id), secrets);
      r := Done;
    }

    method DeleteSecret(p: string, id: string, role: string) returns (r: Reply)
      requires Valid()
      modifies this
      ensures Does(old(contents), Op.DeleteSecret(p, id, role), r)
    {
      hide RowsShow, OneRowPerName, Lawful;
      var k := Key(p, id);
      ghost var next := After(contents, Op.DeleteSecret(p, id, role));
      if k in contents {
        SecretDropped(sealed, contents, sealer, k, role);
        SameEntries(contents, next, codec);
      } else {
        assert !IsSecret(contents, SecretKey(k, role));
        assert sealed - {SecretKey(k, role)} == sealed;
      }
      sealed, contents := sealed - {SecretKey(k, role)}, next;
      r := Done;
    }

    /** Without a sealer the operations that touch secrets fail and change nothing. */
    ghost predicate Does(before: Store, op: Op, r: Reply)
      reads this
    {
      Valid() &&
      if !hasSealer && (op.Put? || op.ReadSecret? || op.WriteSecrets?) then r == Fail(NoSealer) && contents == before
      else Answers(before, op, r) && contents == After(before, op)
    }

    method Do(op: Op) returns (r: Reply)
      requires Valid() && Fresh(contents, op)
      modifies this
      ensures Does(old(contents), op, r)
    {
      hide Valid, Answers;
      match op
      case GetByID(p, id) => r := GetOne(Key(p, id));
      case GetByName(p, name) => r := GetByName(p, name);
      case List(p) => r := List(p);
      case ConfiguredMethod(p, name) => r := ConfiguredMethod(p, name);
      case Put(p, name, m, meta, secrets, newId) => r := Put(p, name, m, meta, secrets, newId);
      case Delete(p, id) => r := Delete(p, id);
      case ReadSecret(p, id, role) => r := ReadSecret(p, id, role);
      case WriteSecrets(p, id, secrets) => r := WriteSecrets(p, id, secrets);
      case DeleteSecret(p, id, role) => r := DeleteSecret(p, id, role);
    }
  }
}
