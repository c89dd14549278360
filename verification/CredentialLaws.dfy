/** What a credentials store must answer after each of its operations, in terms of replies alone. */
module CredentialLaws {
  import opened Text
  import opened Credentials

  /** What Put asks of its arguments. */
  predicate GoodPut(op: Op) {
    op.Put? && op.meta.Some? && op.name != "" && op.methodName != "" && GoodRoles(op.secrets)
  }

  predicate GoodRoles(secrets: seq<Secret>) {
    forall i :: 0 <= i < |secrets| ==> secrets[i].role != ""
  }

  /** Put complains about the first thing that is wrong, and then changes nothing. */
  lemma PutRefusal(store: Store, op: Op, reply: Reply)
    requires op.Put? && Answers(store, op, reply)
    ensures op.meta.None? ==> reply == Fail(NilMeta)
    ensures op.meta.Some? && op.name == "" ==> reply == Fail(EmptyName)
    ensures op.meta.Some? && op.name != "" && op.methodName == "" ==> reply == Fail(EmptyMethod)
    ensures op.meta.Some? && op.name != "" && op.methodName != "" && !GoodRoles(op.secrets) ==> reply == Fail(EmptyRole)
    ensures GoodPut(op) ==> reply.Found? && reply.descriptor == Descriptor(reply.descriptor.id, op.name, op.methodName, op.meta.value)
    ensures !GoodPut(op) ==> After(store, op) == store
  {
  }

  lemma PutChanges(store: Store, op: Op, d: Descriptor)
    requires Inv(store) && Fresh(store, op) && GoodPut(op) && Answers(store, op, Found(d))
    ensures var k, after := Key(op.particle, d.id), After(store, op);
            Inv(after) && k in after && Named(after, op.particle, op.name, d.id) &&
            (forall l :: l != k ==> (l in after <==> l in store) && (l in store ==> after[l] == store[l])) &&
            after[k] == Entry(op.name, op.methodName, op.meta.value, WriteAll(Surviving(store, k, op.methodName), op.secrets))
  {
    AfterKeepsInv(store, op);
  }

  /** After a Put, the entry is found by the identifier Put returned and by its name, with what
      Put was given, and is listed once. */
  lemma PutThenFind(store: Store, op: Op, d: Descriptor, byId: Reply, byName: Reply, configured: Reply, listing: Reply)
    requires Inv(store) && Fresh(store, op) && GoodPut(op) && Answers(store, op, Found(d))
    requires Answers(After(store, op), GetByID(op.particle, d.id), byId)
    requires Answers(After(store, op), GetByName(op.particle, op.name), byName)
    requires Answers(After(store, op), ConfiguredMethod(op.particle, op.name), configured)
    requires Answers(After(store, op), List(op.particle), listing)
    ensures byId == byName == Found(Descriptor(d.id, op.name, op.methodName, op.meta.value))
    ensures configured == Method(op.methodName)
    ensures forall e :: e in listing.entries && (e.name == op.name || e.id == d.id) <==>
                        e == ListEntry(d.id, op.name, op.methodName, op.meta.value.kind)
  {
    hide WellFormed, OneRowPerName, StrictlySorted;
    PutChanges(store, op, d);
    var after := After(store, op);
    assert OneRowPerName(after) by { InvNames(after); }
    IdOfIs(after, op.particle, op.name, d.id);
    hide After;
    var e := ListEntry(d.id, op.name, op.methodName, op.meta.value.kind);
    assert IsListed(after, op.particle, e);
    forall other | IsListed(after, op.particle, other) && (other.name == op.name || other.id == d.id)
      ensures other == e
    {
      if other.name == op.name { SameName(after, op.particle, other, e); }
    }
  }

  /** After a Put, reading a secret gives the value last put under its role; a role Put did not
      mention reads as before under the same method, and is gone under another. */
  lemma PutThenRead(store: Store, op: Op, d: Descriptor, role: string, was: Reply, before: Reply, reply: Reply)
    requires Inv(store) && Fresh(store, op) && GoodPut(op) && Answers(store, op, Found(d))
    requires Answers(store, ConfiguredMethod(op.particle, op.name), was)
    requires Answers(store, ReadSecret(op.particle, d.id, role), before)
    requires Answers(After(store, op), ReadSecret(op.particle, d.id, role), reply)
    ensures forall i :: LastFor(op.secrets, role, i) ==> reply == Bytes(op.secrets[i].value)
    ensures !Mentions(op.secrets, role) ==> reply == if was == Method(op.methodName) then before else Fail(SecretNotSet)
  {
    hide WellFormed, OneRowPerName, Mentions;
    PutChanges(store, op, d);
    var k := Key(op.particle, d.id);
    var had := Surviving(store, k, op.methodName);
    MethodIs(store, op, d, was);
    hide After;
    forall i | LastFor(op.secrets, role, i)
      ensures reply == Bytes(op.secrets[i].value)
    {
      LastWriteStays(had, op.secrets, role, i);
    }
    if !Mentions(op.secrets, role) {
      UnmentionedStays(had, op.secrets, role);
    }
  }

  lemma MethodIs(store: Store, op: Op, d: Descriptor, was: Reply)
    requires Inv(store) && Fresh(store, op) && GoodPut(op) && Answers(store, op, Found(d))
    requires Answers(store, ConfiguredMethod(op.particle, op.name), was)
    ensures var k := Key(op.particle, d.id);
            was == Method(if k in store then store[k].methodName else "") && (k in store ==> store[k].name == op.name)
  {
    hide OneRowPerName, WellFormed;
  }

  /** After WriteSecrets the same, the roles it does not mention reading as before. */
  lemma WriteThenRead(store: Store, p: string, id: string, secrets: seq<Secret>, role: string, reply: Reply, before: Reply, read: Reply)
    requires Answers(store, WriteSecrets(p, id, secrets), reply)
    requires Answers(store, ReadSecret(p, id, role), before)
    requires Answers(After(store, WriteSecrets(p, id, secrets)), ReadSecret(p, id, role), read)
    ensures !GoodRoles(secrets) ==> reply == Fail(EmptyRole)
    ensures GoodRoles(secrets) ==> reply == if before == Fail(NotFound) then Fail(NotFound) else Done
    ensures reply == Done ==> forall i :: LastFor(secrets, role, i) ==> read == Bytes(secrets[i].value)
    ensures reply != Done || !Mentions(secrets, role) ==> read == before
  {
    hide Mentions;
    if Key(p, id) in store {
      var had := store[Key(p, id)].secrets;
      forall i | LastFor(secrets, role, i)
        ensures role in WriteAll(had, secrets) && WriteAll(had, secrets)[role] == secrets[i].value
      {
        LastWriteStays(had, secrets, role, i);
      }
      if !Mentions(secrets, role) { UnmentionedStays(had, secrets, role); }
    }
  }

  /** A deleted secret is not set, a deleted entry not found; the rest of the entry stays. */
  lemma DeleteThenRead(store: Store, p: string, id: string, gone: string, role: string, before: Reply, one: Reply, all: Reply, entry: Reply)
    requires Answers(store, ReadSecret(p, id, role), before)
    requires Answers(After(store, DeleteSecret(p, id, gone)), ReadSecret(p, id, role), one)
    requires Answers(After(store, Delete(p, id)), ReadSecret(p, id, role), all)
    requires Answers(After(store, Delete(p, id)), GetByID(p, id), entry)
    ensures one == if role == gone && before.Bytes? then Fail(SecretNotSet) else before
    ensures all == entry == Fail(NotFound)
  {
  }

  /** The entry an operation is about. */
  predicate About(op: Op, reply: Reply, p: string, id: string) {
    match op
    case Put(q, _, _, _, _, _) => p == q && reply.Found? && reply.descriptor.id == id
    case Delete(q, i) => p == q && id == i
    case WriteSecrets(q, i, _) => p == q && id == i
    case DeleteSecret(q, i, _) => p == q && id == i
    case _ => false
  }

  /** Every other entry answers as before. */
  lemma OthersKept(store: Store, op: Op, reply: Reply, p: string, id: string, role: string, r: Reply)
    requires Answers(store, op, reply) && !About(op, reply, p, id)
    ensures Answers(After(store, op), GetByID(p, id), r) <==> Answers(store, GetByID(p, id), r)
    ensures Answers(After(store, op), ReadSecret(p, id, role), r) <==> Answers(store, ReadSecret(p, id, role), r)
  {
    hide WriteAll, IdOf, SomeEmptyRole;
    var k, after := Key(p, id), After(store, op);
    assert k in after <==> k in store;
    assert k in store ==> after[k] == store[k];
    hide After;
  }
}
