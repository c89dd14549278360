/** What a credentials store holds and answers, whatever keeps it. */
module Credentials {
  import opened Text

  datatype Key = Key(particle: string, id: string)
  datatype Meta = Meta(kind: string, body: string)
  datatype Secret = Secret(role: string, value: string)

  /** One configured credential. */
  datatype Entry = Entry(name: string, methodName: string, meta: Meta, secrets: map<string, string>)

  type Store = map<Key, Entry>

  datatype Error = NoSealer | NilMeta | EmptyName | EmptyMethod | EmptyRole | NotFound | SecretNotSet

  datatype Descriptor = Descriptor(id: string, name: string, methodName: string, meta: Meta)
  datatype ListEntry = ListEntry(id: string, name: string, methodName: string, kind: string)

  /** `newId` in Put is the identifier the store would generate for a new entry. */
  datatype Op =
    | GetByID(particle: string, id: string)
    | GetByName(particle: string, name: string)
    | List(particle: string)
    | ConfiguredMethod(particle: string, name: string)
    | Put(particle: string, name: string, methodName: string, meta: Option<Meta>, secrets: seq<Secret>, newId: string)
    | Delete(particle: string, id: string)
    | ReadSecret(particle: string, id: string, role: string)
    | WriteSecrets(particle: string, id: string, secrets: seq<Secret>)
    | DeleteSecret(particle: string, id: string, role: string)

  datatype Reply =
    | Done
    | Fail(error: Error)
    | Found(descriptor: Descriptor)
    | Listed(entries: seq<ListEntry>)
    | Method(name: string)
    | Bytes(value: string)

  // ---------------------------------------------------------------- one row per name

  ghost predicate OneRowPerName(store: Store) {
    forall k, l :: k in store && l in store && k.particle == l.particle && store[k].name == store[l].name ==> k == l
  }

  ghost predicate Named(store: Store, p: string, name: string, id: string) {
    Key(p, id) in store && store[Key(p, id)].name == name
  }

  ghost function IdOf(store: Store, p: string, name: string): (r: Option<string>)
    ensures r.Some? ==> Named(store, p, name, r.value)
    ensures r.None? ==> forall id :: !Named(store, p, name, id)
  {
    if exists id :: Named(store, p, name, id) then
      var id :| Named(store, p, name, id);
      Some(id)
    else None
  }

  lemma IdOfIs(store: Store, p: string, name: string, id: string)
    requires OneRowPerName(store) && Named(store, p, name, id)
    ensures IdOf(store, p, name) == Some(id)
  {
    var other := IdOf(store, p, name).value;
    assert Key(p, other) == Key(p, id);
  }

  // ---------------------------------------------------------------- operations on the contents

  /** Secrets written in order over what was there. */
  function WriteAll(had: map<string, string>, secrets: seq<Secret>): map<string, string> {
    if secrets == [] then had
    else
      var n := |secrets| - 1;
      WriteAll(had, secrets[..n])[secrets[n].role := secrets[n].value]
  }

  predicate SomeEmptyRole(secrets: seq<Secret>) {
    exists i :: 0 <= i < |secrets| && secrets[i].role == ""
  }

  method HasEmptyRole(secrets: seq<Secret>) returns (yes: bool)
    ensures yes <==> SomeEmptyRole(secrets)
  {
    for i := 0 to |secrets|
      invariant forall j :: 0 <= j < i ==> secrets[j].role != ""
    {
      if secrets[i].role == "" {
        return true;
      }
    }
    return false;
  }

  /** The first complaint Put has about its arguments. */
  function PutComplaint(name: string, methodName: string, meta: Option<Meta>, secrets: seq<Secret>): Option<Error> {
    if meta.None? then Some(NilMeta)
    else if name == "" then Some(EmptyName)
    else if methodName == "" then Some(EmptyMethod)
    else if SomeEmptyRole(secrets) then Some(EmptyRole)
    else None
  }

  /** The entry Put writes to, and the secrets that survive into it: none when the method
      changes. */
  ghost function PutTarget(store: Store, p: string, name: string, newId: string): string {
    var id := IdOf(store, p, name);
    if id.Some? then id.value else newId
  }

  ghost function Surviving(store: Store, k: Key, methodName: string): map<string, string> {
    if k in store && store[k].methodName == methodName then store[k].secrets else map[]
  }

  ghost function PutIn(store: Store, p: string, name: string, methodName: string, meta: Meta,
                       secrets: seq<Secret>, newId: string): Store {
    var k := Key(p, PutTarget(store, p, name, newId));
    store[k := Entry(name, methodName, meta, WriteAll(Surviving(store, k, methodName), secrets))]
  }

  function WithSecrets(store: Store, k: Key, secrets: map<string, string>): Store
    requires k in store
  {
    store[k := store[k].(secrets := secrets)]
  }

  ghost function After(store: Store, op: Op): Store {
    match op
    case Put(p, name, m, meta, secrets, newId) =>
      if PutComplaint(name, m, meta, secrets).Some? then store
      else PutIn(store, p, name, m, meta.value, secrets, newId)
    case Delete(p, id) => store - {Key(p, id)}
    case WriteSecrets(p, id, secrets) =>
      if SomeEmptyRole(secrets) || Key(p, id) !in store then store
      else WithSecrets(store, Key(p, id), WriteAll(store[Key(p, id)].secrets, secrets))
    case DeleteSecret(p, id, role) =>
      if Key(p, id) !in store then store
      else WithSecrets(store, Key(p, id), store[Key(p, id)].secrets - {role})
    case _ => store
  }

  function Describe(id: string, e: Entry): Descriptor {
    Descriptor(id, e.name, e.methodName, e.meta)
  }

  function ListingNames(es: seq<ListEntry>): seq<string> {
    seq(|es|, i requires 0 <= i < |es| => es[i].name)
  }

  predicate IsListed(store: Store, p: string, e: ListEntry) {
    Key(p, e.id) in store && store[Key(p, e.id)].name == e.name
    && store[Key(p, e.id)].methodName == e.methodName && store[Key(p, e.id)].meta.kind == e.kind
  }

  ghost predicate ListsParticle(store: Store, p: string, es: seq<ListEntry>) {
    StrictlySorted(ListingNames(es)) && forall e :: e in es <==> IsListed(store, p, e)
  }

  /** `reply` is what the store must answer. */
  ghost predicate Answers(store: Store, op: Op, reply: Reply) {
    match op
    case GetByID(p, id) =>
      reply == if Key(p, id) in store then Found(Describe(id, store[Key(p, id)])) else Fail(NotFound)
    case GetByName(p, name) =>
      var id := IdOf(store, p, name);
      reply == if id.Some? then Found(Describe(id.value, store[Key(p, id.value)])) else Fail(NotFound)
    case List(p) => reply.Listed? && ListsParticle(store, p, reply.entries)
    case ConfiguredMethod(p, name) =>
      var id := IdOf(store, p, name);
      reply == Method(if id.Some? then store[Key(p, id.value)].methodName else "")
    case Put(p, name, m, meta, secrets, newId) =>
      var bad := PutComplaint(name, m, meta, secrets);
      reply == if bad.Some? then Fail(bad.value)
               else Found(Descriptor(PutTarget(store, p, name, newId), name, m, meta.value))
    case Delete(p, id) => reply == Done
    case ReadSecret(p, id, role) =>
      reply == if Key(p, id) !in store then Fail(NotFound)
               else if role !in store[Key(p, id)].secrets then Fail(SecretNotSet)
               else Bytes(store[Key(p, id)].secrets[role])
    case WriteSecrets(p, id, secrets) =>
      reply == if SomeEmptyRole(secrets) then Fail(EmptyRole)
               else if Key(p, id) !in store then Fail(NotFound) else Done
    case DeleteSecret(p, id, role) => reply == Done
  }

  /** There is one right answer to every operation. */
  lemma AnswersUnique(store: Store, op: Op, a: Reply, b: Reply)
    requires OneRowPerName(store) && Answers(store, op, a) && Answers(store, op, b)
    ensures a == b
  {
    if op.List? {
      ListingIsUnique(store, op.particle, a.entries, b.entries);
    }
  }

  lemma ListingIsUnique(store: Store, p: string, xs: seq<ListEntry>, ys: seq<ListEntry>)
    requires OneRowPerName(store) && ListsParticle(store, p, xs) && ListsParticle(store, p, ys)
    ensures xs == ys
  {
    hide StrictlySorted, OneRowPerName;
    var names := set e | e in xs :: e.name;
    NamesOfListing(xs, names);
    forall n
      ensures n in names <==> exists e :: e in ys && e.name == n
    {
      if e :| e in ys && e.name == n { assert e in xs; }
      if e :| e in xs && e.name == n { assert e in ys; }
    }
    NamesOfListing(ys, names);
    ListingUnique(ListingNames(xs), ListingNames(ys), names);
    forall i | 0 <= i < |xs|
      ensures xs[i] == ys[i]
    {
      assert ListingNames(xs)[i] == ListingNames(ys)[i];
      assert xs[i] in xs && ys[i] in ys;
      SameName(store, p, xs[i], ys[i]);
    }
  }

  lemma SameName(store: Store, p: string, a: ListEntry, b: ListEntry)
    requires OneRowPerName(store) && IsListed(store, p, a) && IsListed(store, p, b) && a.name == b.name
    ensures a == b
  {
    assert Key(p, a.id) == Key(p, b.id);
  }

  lemma NamesOfListing(es: seq<ListEntry>, names: set<string>)
    requires StrictlySorted(ListingNames(es))
    requires forall n :: n in names <==> exists e :: e in es && e.name == n
    ensures Lists(ListingNames(es), names)
  {
    hide StrictlySorted;
    var xs := ListingNames(es);
    forall n
      ensures n in xs <==> n in names
    {
      if n in xs {
        var i :| 0 <= i < |xs| && xs[i] == n;
        assert es[i] in es;
      }
      if e :| e in es && e.name == n {
        var i :| 0 <= i < |es| && es[i] == e;
        assert xs[i] == n;
      }
    }
  }

  /** Put's own checks, in the order it makes them. */
  method CheckPut(name: string, methodName: string, meta: Option<Meta>, secrets: seq<Secret>) returns (bad: Option<Error>)
    ensures bad == PutComplaint(name, methodName, meta, secrets)
  {
    if meta.None? {
      return Some(NilMeta);
    }
    if name == "" {
      return Some(EmptyName);
    }
    if methodName == "" {
      return Some(EmptyMethod);
    }
    var emptyRole := HasEmptyRole(secrets);
    return if emptyRole then Some(EmptyRole) else None;
  }

  // ---------------------------------------------------------------- building a listing

  /** `table` files each entry of `p` among the keys already passed under its name. */
  ghost predicate Tabled(store: Store, p: string, passed: set<Key>, table: map<string, ListEntry>) {
    && (forall k :: k in passed && k in store && k.particle == p ==> store[k].name in table)
    && forall n :: n in table ==> IsListed(store, p, table[n]) && table[n].name == n
  }

  lemma NothingTabled(store: Store, p: string)
    ensures Tabled(store, p, {}, map[])
  {
  }

  lemma TableOneMore(store: Store, p: string, passed: set<Key>, table: map<string, ListEntry>, k: Key)
    requires Tabled(store, p, passed, table) && k in store
    ensures k.particle != p ==> Tabled(store, p, passed + {k}, table)
    ensures k.particle == p ==>
              var e := store[k];
              Tabled(store, p, passed + {k}, table[e.name := ListEntry(k.id, e.name, e.methodName, e.meta.kind)])
  {
    assert k == Key(k.particle, k.id);
  }

  lemma TableNames(store: Store, p: string, passed: set<Key>, table: map<string, ListEntry>)
    requires Tabled(store, p, passed, table)
    ensures forall n :: n in table ==> table[n].name == n
  {
  }

  /** `es` is the table in name order. */
  ghost predicate SortedBy(es: seq<ListEntry>, table: map<string, ListEntry>) {
    Lists(ListingNames(es), table.Keys) &&
    forall i :: 0 <= i < |es| ==> es[i].name in table && es[i] == table[es[i].name]
  }

  method SortByName(table: map<string, ListEntry>) returns (es: seq<ListEntry>)
    requires forall n :: n in table ==> table[n].name == n
    ensures SortedBy(es, table)
  {
    var xs := SortNames(table.Keys);
    es := seq(|xs|, i requires 0 <= i < |xs| => table[xs[i]]);
    assert ListingNames(es) == xs;
  }

  lemma TableLists(store: Store, p: string, table: map<string, ListEntry>, es: seq<ListEntry>)
    requires OneRowPerName(store) && Tabled(store, p, store.Keys, table) && SortedBy(es, table)
    ensures ListsParticle(store, p, es)
  {
    hide StrictlySorted, OneRowPerName;
    forall e
      ensures e in es <==> IsListed(store, p, e)
    {
      if IsListed(store, p, e) {
        assert e.name in table;
        SameName(store, p, e, table[e.name]);
        var i :| 0 <= i < |ListingNames(es)| && ListingNames(es)[i] == e.name;
        assert es[i] == e;
      }
    }
  }

  // ---------------------------------------------------------------- what every operation keeps

  /** Put generates an identifier no entry of the particle has. */
  ghost predicate Fresh(store: Store, op: Op) {
    op.Put? ==> Key(op.particle, op.newId) !in store
  }

  ghost predicate WellFormed(store: Store) {
    forall k :: k in store ==> store[k].name != "" && store[k].methodName != "" && "" !in store[k].secrets
  }

  ghost predicate Inv(store: Store) {
    OneRowPerName(store) && WellFormed(store)
  }

  lemma {:induction false} WriteAllRoles(had: map<string, string>, secrets: seq<Secret>)
    ensures WriteAll(had, secrets).Keys == had.Keys + set i | 0 <= i < |secrets| :: secrets[i].role
    decreases |secrets|
  {
    if secrets != [] {
      var n := |secrets| - 1;
      WriteAllRoles(had, secrets[..n]);
      assert (set i | 0 <= i < |secrets| :: secrets[i].role) == (set i | 0 <= i < n :: secrets[..n][i].role) + {secrets[n].role};
    }
  }

  lemma NoEmptyRole(had: map<string, string>, secrets: seq<Secret>)
    requires "" !in had && !SomeEmptyRole(secrets)
    ensures "" !in WriteAll(had, secrets)
  {
    WriteAllRoles(had, secrets);
  }

  lemma PutKeepsNames(store: Store, p: string, name: string, newId: string, e: Entry)
    requires OneRowPerName(store) && Key(p, newId) !in store && e.name == name
    ensures OneRowPerName(store[Key(p, PutTarget(store, p, name, newId)) := e])
  {
    var k := Key(p, PutTarget(store, p, name, newId));
    var next := store[k := e];
    forall l | l in next && l.particle == p && next[l].name == name
      ensures l == k
    {
      if l != k {
        assert Named(store, p, name, l.id);
      }
    }
  }

  lemma AfterKeepsInv(store: Store, op: Op)
    requires Inv(store) && Fresh(store, op)
    ensures Inv(After(store, op))
  {
    hide OneRowPerName;
    match op
    case Put(p, name, m, meta, secrets, newId) =>
      if PutComplaint(name, m, meta, secrets).None? {
        var k := Key(p, PutTarget(store, p, name, newId));
        NoEmptyRole(Surviving(store, k, m), secrets);
        PutKeepsNames(store, p, name, newId, After(store, op)[k]);
      }
    case Delete(p, id) => FewerRows(store, Key(p, id));
    case WriteSecrets(p, id, secrets) =>
      if !SomeEmptyRole(secrets) && Key(p, id) in store {
        NoEmptyRole(store[Key(p, id)].secrets, secrets);
        SameNames(store, After(store, op));
      }
    case DeleteSecret(p, id, role) => SameNames(store, After(store, op));
    case _ =>
  }

  lemma FewerRows(store: Store, k: Key)
    requires OneRowPerName(store)
    ensures OneRowPerName(store - {k})
  {
  }

  lemma SameNames(a: Store, b: Store)
    requires OneRowPerName(a) && a.Keys == b.Keys && forall k :: k in a ==> a[k].name == b[k].name
    ensures OneRowPerName(b)
  {
  }

  // ---------------------------------------------------------------- whole runs

  ghost function Run(store: Store, ops: seq<Op>): Store {
    if ops == [] then store
    else
      var n := |ops| - 1;
      After(Run(store, ops[..n]), ops[n])
  }

  ghost predicate FreshRun(store: Store, ops: seq<Op>) {
    ops == [] ||
    var n := |ops| - 1;
    FreshRun(store, ops[..n]) && Fresh(Run(store, ops[..n]), ops[n])
  }

  lemma {:induction false} RunKeepsInv(store: Store, ops: seq<Op>)
    requires Inv(store) && FreshRun(store, ops)
    ensures Inv(Run(store, ops))
    decreases |ops|
  {
    hide Inv, After, Fresh;
    if ops != [] {
      var n := |ops| - 1;
      RunKeepsInv(store, ops[..n]);
      AfterKeepsInv(Run(store, ops[..n]), ops[n]);
    }
  }

  lemma AfterKeepsId(store: Store, op: Op, p: string, name: string, id: string)
    requires Inv(store) && Fresh(store, op) && Named(store, p, name, id) && op != Delete(p, id)
    ensures Named(After(store, op), p, name, id)
  {
    hide WriteAll, WellFormed, OneRowPerName;
    if op.Put? && PutComplaint(op.name, op.methodName, op.meta, op.secrets).None? {
      var k := Key(op.particle, PutTarget(store, op.particle, op.name, op.newId));
      if k == Key(p, id) {
        assert IdOf(store, p, op.name).Some?;
      }
    }
  }

  /** Identifiers are stable: until an entry is deleted, its name keeps leading to the
      identifier it was created with. */
  lemma {:induction false} IdIsStable(store: Store, ops: seq<Op>, p: string, name: string, id: string)
    requires Inv(store) && FreshRun(store, ops) && Named(store, p, name, id) && Delete(p, id) !in ops
    ensures IdOf(Run(store, ops), p, name) == Some(id)
    decreases |ops|
  {
    hide Inv, After, Fresh;
    RunKeepsInv(store, ops);
    if ops != [] {
      var n := |ops| - 1;
      RunKeepsInv(store, ops[..n]);
      IdIsStable(store, ops[..n], p, name, id);
      AfterKeepsId(Run(store, ops[..n]), ops[n], p, name, id);
    }
    assert OneRowPerName(Run(store, ops)) by { InvNames(Run(store, ops)); }
    IdOfIs(Run(store, ops), p, name, id);
  }

  lemma InvNames(store: Store)
    requires Inv(store)
    ensures OneRowPerName(store)
  {
  }

  // ---------------------------------------------------------------- where a stored secret comes from

  /** The last write to a role in a list of secrets. */
  predicate LastFor(secrets: seq<Secret>, role: string, i: int) {
    0 <= i < |secrets| && secrets[i].role == role && forall j :: i < j < |secrets| ==> secrets[j].role != role
  }

  predicate Mentions(secrets: seq<Secret>, role: string) {
    exists i :: 0 <= i < |secrets| && secrets[i].role == role
  }

  /** The value stored under a role is the last one written to it. */
  lemma {:induction false} LastWriteStays(had: map<string, string>, secrets: seq<Secret>, role: string, i: int)
    requires LastFor(secrets, role, i)
    ensures role in WriteAll(had, secrets) && WriteAll(had, secrets)[role] == secrets[i].value
    decreases |secrets|
  {
    var n := |secrets| - 1;
    if i < n { LastWriteStays(had, secrets[..n], role, i); }
  }

  /** A role no write mentions is left as it was. */
  lemma {:induction false} UnmentionedStays(had: map<string, string>, secrets: seq<Secret>, role: string)
    requires !Mentions(secrets, role)
    ensures role in WriteAll(had, secrets) <==> role in had
    ensures role in had ==> WriteAll(had, secrets)[role] == had[role]
    decreases |secrets|
  {
    if secrets != [] { UnmentionedStays(had, secrets[..|secrets| - 1], role); }
  }

  lemma {:induction false} LastExists(secrets: seq<Secret>, role: string)
    requires Mentions(secrets, role)
    ensures exists i :: LastFor(secrets, role, i)
    decreases |secrets|
  {
    var n := |secrets| - 1;
    if secrets[n].role == role {
      assert LastFor(secrets, role, n);
    } else {
      var k :| 0 <= k < |secrets| && secrets[k].role == role;
      assert secrets[..n][k].role == role;
      LastExists(secrets[..n], role);
      var i :| LastFor(secrets[..n], role, i);
      assert LastFor(secrets, role, i);
    }
  }

  /** Among these secrets the role is last written with this value. */
  ghost predicate LastValue(secrets: seq<Secret>, role: string, value: string) {
    exists i :: LastFor(secrets, role, i) && secrets[i].value == value
  }

  /** `op` itself writes this value of the secret, and no other after it. */
  ghost predicate Writes(store: Store, op: Op, k: Key, role: string, value: string) {
    match op
    case Put(p, name, m, meta, secrets, newId) =>
      PutComplaint(name, m, meta, secrets).None? && k == Key(p, PutTarget(store, p, name, newId))
      && LastValue(secrets, role, value)
    case WriteSecrets(p, id, secrets) => k == Key(p, id) && k in store && LastValue(secrets, role, value)
    case _ => false
  }

  lemma ValueFrom(had: map<string, string>, secrets: seq<Secret>, role: string)
    requires role in WriteAll(had, secrets)
    ensures LastValue(secrets, role, WriteAll(had, secrets)[role]) || (role in had && WriteAll(had, secrets)[role] == had[role])
  {
    if Mentions(secrets, role) {
      LastExists(secrets, role);
      var i :| LastFor(secrets, role, i);
      LastWriteStays(had, secrets, role, i);
    } else {
      UnmentionedStays(had, secrets, role);
    }
  }

  /** The store holds this value of the secret, under this method. */
  ghost predicate Holds(store: Store, k: Key, methodName: string, role: string, value: string) {
    k in store && store[k].methodName == methodName && role in store[k].secrets && store[k].secrets[role] == value
  }

  /** A secret found after an operation was written by it, or was already there under the
      same method. */
  lemma HeldAfter(store: Store, op: Op, k: Key, methodName: string, role: string, value: string)
    requires Holds(After(store, op), k, methodName, role, value)
    ensures Writes(store, op, k, role, value) || Holds(store, k, methodName, role, value)
  {
    match op
    case Put(p, name, m, meta, secrets, newId) =>
      if PutComplaint(name, m, meta, secrets).None? && k == Key(p, PutTarget(store, p, name, newId)) {
        ValueFrom(Surviving(store, k, m), secrets, role);
      }
    case WriteSecrets(p, id, secrets) =>
      if k == Key(p, id) && !SomeEmptyRole(secrets) {
        ValueFrom(store[k].secrets, secrets, role);
      }
    case _ =>
  }

  /** Step `i` wrote the secret, and it has been there under the same method ever since. */
  ghost predicate HeldSince(ops: seq<Op>, i: nat, k: Key, methodName: string, role: string, value: string) {
    && i < |ops| && Writes(Run(map[], ops[..i]), ops[i], k, role, value)
    && forall j :: i < j <= |ops| ==> Holds(Run(map[], ops[..j]), k, methodName, role, value)
  }

  /** No stored secret is older than the last method switch of its entry: whatever a run
      leaves stored was written after the entry last changed method. */
  lemma {:induction false} SecretsAreFromPresentMethod(ops: seq<Op>, k: Key, methodName: string, role: string, value: string)
    requires Holds(Run(map[], ops), k, methodName, role, value)
    ensures exists i: nat :: HeldSince(ops, i, k, methodName, role, value)
    decreases |ops|
  {
    hide After, Writes, Holds;
    assert ops != [] by { EmptyHoldsNothing(k, methodName, role, value); }
    var n := |ops| - 1;
    var before := ops[..n];
    HeldAfter(Run(map[], before), ops[n], k, methodName, role, value);
    assert ops[..|ops|] == ops;
    if Writes(Run(map[], before), ops[n], k, role, value) {
      assert HeldSince(ops, n, k, methodName, role, value);
    } else {
      SecretsAreFromPresentMethod(before, k, methodName, role, value);
      var i: nat :| HeldSince(before, i, k, methodName, role, value);
      assert before[..i] == ops[..i];
      assert forall j :: 0 <= j <= n ==> before[..j] == ops[..j];
      assert HeldSince(ops, i, k, methodName, role, value);
    }
  }

  lemma EmptyHoldsNothing(k: Key, methodName: string, role: string, value: string)
    ensures !Holds(map[], k, methodName, role, value)
  {
  }

  /** A Put under the same method keeps the identifier and every secret it does not mention. */
  lemma ReputKeepsSecrets(store: Store, op: Op, id: string, role: string)
    requires op.Put? && PutComplaint(op.name, op.methodName, op.meta, op.secrets).None?
    requires OneRowPerName(store) && Named(store, op.particle, op.name, id)
    requires store[Key(op.particle, id)].methodName == op.methodName
    requires role in store[Key(op.particle, id)].secrets && forall i :: 0 <= i < |op.secrets| ==> op.secrets[i].role != role
    ensures Holds(After(store, op), Key(op.particle, id), op.methodName, role, store[Key(op.particle, id)].secrets[role])
  {
    IdOfIs(store, op.particle, op.name, id);
    UnmentionedStays(store[Key(op.particle, id)].secrets, op.secrets, role);
  }
}
