/**
 The credentials store kept in process: records shared by two indexes per particle,
 updated in place.
 */
module CredentialsMemory {
  import opened Text
  import opened Credentials

  class Record {
    const id: string
    const name: string
    var methodName: string
    var meta: Meta
    var secrets: map<string, string>
    ghost const particle: string

    constructor (ghost particle: string, id: string, name: string, methodName: string, meta: Meta)
      ensures this.particle == particle && this.id == id && this.name == name
      ensures View() == Entry(name, methodName, meta, map[])
    {
      this.particle, this.id, this.name, this.methodName, this.meta := particle, id, name, methodName, meta;
      secrets := map[];
    }

    ghost function View(): Entry
      reads this
    {
      Entry(name, methodName, meta, secrets)
    }

    method Describe() returns (d: Descriptor)
      ensures d == Credentials.Describe(id, View())
    {
      d := Descriptor(id, name, methodName, meta);
    }

    /** The loop that stores each secret's bytes. */
    method StoreAll(added: seq<Secret>)
      modifies `secrets
      ensures secrets == WriteAll(old(secrets), added)
    {
      for i := 0 to |added|
        invariant secrets == WriteAll(old(secrets), added[..i])
      {
        assert added[..i + 1][..i] == added[..i];
        secrets := secrets[added[i].role := added[i].value];
      }
      assert added[..|added|] == added;
    }
  }

  /** One particle's indexes: the same records by id and by name. */
  class Slot {
    var byID: map<string, Record>
    var byName: map<string, Record>
    ghost const particle: string

    constructor (ghost particle: string)
      ensures Shows(particle, map[])
    {
      this.particle, byID, byName := particle, map[], map[];
    }

    /** Both indexes lead to the same records, each under its own keys. */
    ghost predicate Aliased()
      reads this
    {
      && (forall id :: id in byID ==>
            var r := byID[id]; r.id == id && r.particle == particle && r.name in byName && byName[r.name] == r)
      && forall n :: n in byName ==> var r := byName[n]; r.name == n && r.id in byID && byID[r.id] == r
    }

    /** The slot is this particle's, with these entries. */
    ghost predicate Shows(p: string, entries: map<string, Record>)
      reads this
    {
      particle == p && Aliased() && byID == entries
    }

    method Insert(rec: Record)
      requires Shows(rec.particle, byID) && rec.id !in byID && rec.name !in byName
      modifies this
      ensures Shows(rec.particle, byID) && byID == old(byID)[rec.id := rec] && byName == old(byName)[rec.name := rec]
    {
      byID := byID[rec.id := rec];
      byName := byName[rec.name := rec];
    }

    method Remove(id: string)
      requires Shows(particle, byID) && id in byID
      modifies this
      ensures Shows(particle, old(byID) - {id}) && byID == old(byID) - {id} && byName == old(byName) - {old(byID)[id].name}
    {
      var rec := byID[id];
      byID := byID - {id};
      byName := byName - {rec.name};
    }
  }

  type Ids = map<string, map<string, Record>>

  /** `index` is what all the id indexes hold, taken together. */
  ghost predicate Collects(ids: Ids, index: map<Key, Record>) {
    && (forall k :: k in index <==> k.particle in ids && k.id in ids[k.particle])
    && forall k :: k in index ==> ids[k.particle][k.id] == index[k]
  }

  lemma CollectsAdded(ids: Ids, index: map<Key, Record>, p: string, id: string, rec: Record)
    requires Collects(ids, index) && p in ids && Key(p, id) !in index
    ensures Collects(ids[p := ids[p][id := rec]], index[Key(p, id) := rec])
  {
  }

  lemma CollectsRemoved(ids: Ids, index: map<Key, Record>, p: string, id: string)
    requires Collects(ids, index) && p in ids
    ensures Collects(ids[p := ids[p] - {id}], index - {Key(p, id)})
  {
  }

  lemma CollectsEmptySlot(ids: Ids, index: map<Key, Record>, p: string)
    requires p !in ids
    ensures Collects(ids, index) <==> Collects(ids[p := map[]], index)
  {
    var more := ids[p := map[]];
    assert forall k: Key :: k.particle in ids && k.id in ids[k.particle] <==> k.particle in more && k.id in more[k.particle];
  }

  lemma CollectsDropped(ids: Ids, index: map<Key, Record>, p: string)
    requires p in ids && Collects(ids, index)
    ensures ids[p] == map[] ==> Collects(ids - {p}, index)
  {
    hide Collects;
    if ids[p] == map[] {
      assert (ids - {p})[p := map[]] == ids;
      CollectsEmptySlot(ids - {p}, index, p);
    }
  }

  lemma CollectsHas(ids: Ids, index: map<Key, Record>, p: string, id: string)
    requires Collects(ids, index)
    ensures Key(p, id) in index <==> p in ids && id in ids[p]
    ensures Key(p, id) in index ==> ids[p][id] == index[Key(p, id)]
  {
    var k := Key(p, id);
    assert k in index <==> k.particle in ids && k.id in ids[k.particle];
  }

  /** No slot is kept for a particle without entries. */
  ghost predicate InUse(ids: Ids) {
    forall p :: p in ids ==> ids[p] != map[]
  }

  /** Nor for any other particle than `p`. */
  ghost predicate InUseBut(ids: Ids, p: string) {
    forall q :: q in ids && q != p ==> ids[q] != map[]
  }

  lemma InUseAgain(ids: Ids, p: string, byID: map<string, Record>)
    requires InUseBut(ids, p)
    ensures InUseBut(ids[p := byID], p)
    ensures byID != map[] ==> InUse(ids[p := byID])
    ensures InUse(ids - {p})
  {
  }

  lemma InUseIsBut(ids: Ids, p: string)
    ensures InUse(ids) <==> InUseBut(ids, p) && (p in ids ==> ids[p] != map[])
  {
  }

  /** Each slot is one of `owned` and its own particle's, with `ids` the id indexes. */
  ghost predicate AllShow(slots: map<string, Slot>, ids: Ids, owned: set<Slot>)
    reads owned
  {
    slots.Keys == ids.Keys && forall p :: p in slots ==> slots[p] in owned && slots[p].Shows(p, ids[p])
  }

  lemma OneSlotLess(slots: map<string, Slot>, ids: Ids, owned: set<Slot>, p: string)
    requires AllShow(slots, ids, owned)
    ensures AllShow(slots - {p}, ids - {p}, owned)
  {
    hide Slot.Shows;
  }

  /** The other slots do not touch this one. */
  lemma OtherSlots(slots: map<string, Slot>, ids: Ids, owned: set<Slot>, p: string)
    requires AllShow(slots, ids, owned) && p in slots
    ensures AllShow(slots - {p}, ids - {p}, owned - {slots[p]})
  {
    hide Slot.Aliased;
  }

  lemma OneSlotMore(slots: map<string, Slot>, ids: Ids, owned: set<Slot>, p: string, slot: Slot, byID: map<string, Record>)
    requires AllShow(slots - {p}, ids - {p}, owned) && slot.Shows(p, byID)
    ensures AllShow(slots[p := slot], ids[p := byID], owned + {slot})
  {
    hide Slot.Shows;
    var more, moreIds := slots[p := slot], ids[p := byID];
    assert more.Keys == (slots - {p}).Keys + {p} && moreIds.Keys == (ids - {p}).Keys + {p};
    forall q | q in more && q != p
      ensures q in ids && more[q] in owned && more[q].Shows(q, ids[q])
    {
      assert q in slots - {p};
    }
  }

  lemma EmptyIsNoKeys(byID: map<string, Record>)
    ensures |byID| == 0 <==> byID == map[]
  {
  }

  class MemoryCredentials {
    var byParticle: map<string, Slot>
    ghost var slots: set<Slot>
    ghost var records: set<Record>
    ghost var ids: Ids
    ghost var index: map<Key, Record>
    ghost var contents: Store

    lemma SlotAt(p: string)
      requires AllShow(byParticle, ids, slots)
      ensures p in byParticle <==> p in ids
      ensures p in byParticle ==> byParticle[p] in slots && byParticle[p].Shows(p, ids[p]) && byParticle[p].byID == ids[p]
    {
    }

    ghost predicate Indexed()
      reads `byParticle, `ids, `index, `slots, slots
    {
      AllShow(byParticle, ids, slots) && Collects(ids, index)
    }

    /** The contents are what the records say. */
    ghost predicate Shown()
      reads `index, `contents, `records, records
    {
      index.Keys == contents.Keys && OneRowPerName(contents) && forall k :: k in index ==> index[k] in records && Shows(index[k], k, contents[k])
    }

    static ghost predicate Shows(rec: Record, k: Key, e: Entry)
      reads rec
    {
      rec.id == k.id && rec.particle == k.particle && rec.View() == e
    }

    ghost predicate Valid()
      reads this, slots, records
    {
      Indexed() && Shown() && InUse(ids)
    }

    constructor ()
      ensures Valid() && contents == map[] && slots == {} && records == {}
    {
      byParticle, slots, records, ids, index, contents := map[], {}, {}, map[], map[], map[];
    }

    method RecordByID(p: string, id: string) returns (rec: Record?)
      requires Valid()
      ensures rec == null <==> Key(p, id) !in contents
      ensures rec != null ==> rec in records && Key(p, id) in index && rec == index[Key(p, id)] && Shows(rec, Key(p, id), contents[Key(p, id)])
    {
      hide OneRowPerName, Shows, Collects, AllShow, Slot.Aliased;
      SlotAt(p);
      CollectsHas(ids, index, p, id);
      if p !in byParticle {
        return null;
      }
      var slot := byParticle[p];
      if id !in slot.byID {
        return null;
      }
      rec := slot.byID[id];
    }

    method RecordByName(p: string, name: string) returns (rec: Record?)
      requires Valid()
      ensures rec == null <==> IdOf(contents, p, name).None?
      ensures rec != null ==> IdOf(contents, p, name) == Some(rec.id) && rec.name == name && rec in records
                              && Key(p, rec.id) in index && rec == index[Key(p, rec.id)]
                              && Shows(rec, Key(p, rec.id), contents[Key(p, rec.id)])
    {
      hide OneRowPerName, Named, Indexed, Shown, InUse, Shows;
      if IdOf(contents, p, name).Some? {
        NamedIsFiled(p, name, IdOf(contents, p, name).value);
      }
      if p !in byParticle {
        return null;
      }
      var slot := byParticle[p];
      if name !in slot.byName {
        return null;
      }
      rec := slot.byName[name];
      FiledIsNamed(p, name);
      IdOfIs(contents, p, name, rec.id);
    }

    lemma NamedIsFiled(p: string, name: string, id: string)
      requires Indexed() && Shown() && Named(contents, p, name, id)
      ensures p in byParticle && name in byParticle[p].byName
    {
      hide OneRowPerName, Collects;
      var k := Key(p, id);
      CollectsHas(ids, index, p, id);
      assert k in index && Shows(index[k], k, contents[k]);
    }

    lemma FiledIsNamed(p: string, name: string)
      requires Indexed() && Shown() && p in byParticle && name in byParticle[p].byName
      ensures var rec := byParticle[p].byName[name];
              rec.name == name && rec in records && Key(p, rec.id) in index && index[Key(p, rec.id)] == rec
              && Key(p, rec.id) in contents && Shows(rec, Key(p, rec.id), contents[Key(p, rec.id)])
              && Named(contents, p, name, rec.id) && OneRowPerName(contents)
    {
      hide OneRowPerName, Collects;
      var rec := byParticle[p].byName[name];
      CollectsHas(ids, index, p, rec.id);
    }

    method GetByID(p: string, id: string) returns (r: Reply)
      requires Valid()
      ensures Answers(contents, Op.GetByID(p, id), r)
    {
      hide Valid, OneRowPerName;
      var rec := RecordByID(p, id);
      if rec == null {
        return Fail(NotFound);
      }
      var d := rec.Describe();
      r := Found(d);
    }

    method GetByName(p: string, name: string) returns (r: Reply)
      requires Valid()
      ensures Answers(contents, Op.GetByName(p, name), r)
    {
      hide Valid, OneRowPerName;
      var rec := RecordByName(p, name);
      if rec == null {
        return Fail(NotFound);
      }
      var d := rec.Describe();
      r := Found(d);
    }

    method ConfiguredMethod(p: string, name: string) returns (r: Reply)
      requires Valid()
      ensures Answers(contents, Op.ConfiguredMethod(p, name), r)
    {
      hide Valid, OneRowPerName;
      var rec := RecordByName(p, name);
      return Method(if rec == null then "" else rec.methodName);
    }

    method ReadSecret(p: string, id: string, role: string) returns (r: Reply)
      requires Valid()
      ensures Answers(contents, Op.ReadSecret(p, id, role), r)
    {
      hide Valid, OneRowPerName;
      var rec := RecordByID(p, id);
      if rec == null {
        return Fail(NotFound);
      }
      return if role in rec.secrets then Bytes(rec.secrets[role]) else Fail(SecretNotSet);
    }

    /** Takes the changed record at `k` into the contents. */
    ghost method Refile(k: Key)
      requires index.Keys == contents.Keys && OneRowPerName(contents) && k in index
      requires forall l :: l in index && l != k ==> index[l] in records && Shows(index[l], l, contents[l])
      requires index[k] in records && Shows(index[k], k, index[k].View()) && index[k].name == contents[k].name
      modifies `contents
      ensures Shown() && contents == old(contents)[k := index[k].View()]
    {
      hide OneRowPerName, Shows;
      ghost var next := contents[k := index[k].View()];
      SameNames(contents, next);
      contents := next;
    }

    method StoreSecrets(k: Key, rec: Record, added: seq<Secret>)
      requires Shown() && k in index && rec == index[k]
      modifies `contents, rec`secrets
      ensures Shown() && k in old(contents)
      ensures contents == WithSecrets(old(contents), k, WriteAll(old(contents)[k].secrets, added))
    {
      hide OneRowPerName, WriteAll;
      assert Shows(rec, k, contents[k]);
      assert forall l :: l in index && l != k ==> Shows(index[l], l, contents[l]) && index[l] != rec;
      rec.StoreAll(added);
      Refile(k);
    }

    method WriteSecrets(p: string, id: string, secrets: seq<Secret>) returns (r: Reply)
      requires Valid()
      modifies `contents, records
      ensures Does(old(contents), Op.WriteSecrets(p, id, secrets), r)
    {
      hide Shown, Shows, WriteAll, Indexed, InUse, OneRowPerName;
      var emptyRole := HasEmptyRole(secrets);
      if emptyRole {
        return Fail(EmptyRole);
      }
      var rec := RecordByID(p, id);
      if rec == null {
        return Fail(NotFound);
      }
      StoreSecrets(Key(p, id), rec, secrets);
      r := Done;
    }

    method DropSecret(k: Key, rec: Record, role: string)
      requires Shown() && k in index && rec == index[k]
      modifies `contents, rec`secrets
      ensures Shown() && k in old(contents)
      ensures contents == WithSecrets(old(contents), k, old(contents)[k].secrets - {role})
    {
      hide OneRowPerName;
      assert Shows(rec, k, contents[k]);
      assert forall l :: l in index && l != k ==> Shows(index[l], l, contents[l]) && index[l] != rec;
      rec.secrets := rec.secrets - {role};
      Refile(k);
    }

    method DeleteSecret(p: string, id: string, role: string) returns (r: Reply)
      requires Valid()
      modifies `contents, records
      ensures Does(old(contents), Op.DeleteSecret(p, id, role), r)
    {
      hide Shown, Shows, Indexed, InUse, OneRowPerName;
      var rec := RecordByID(p, id);
      if rec == null {
        return Done;
      }
      DropSecret(Key(p, id), rec, role);
      r := Done;
    }

    method List(p: string) returns (r: Reply)
      requires Valid()
      ensures Answers(contents, Op.List(p), r)
    {
      hide OneRowPerName, SortedBy, Tabled, ListsParticle, InUse, Collects;
      var table: map<string, ListEntry> := map[];
      if p !in byParticle {
        NoneFiled(p);
        return Listed([]);
      }
      var slot := byParticle[p];
      var rest := slot.byID.Keys;
      ghost var passed: set<Key> := {};
      NothingTabled(contents, p);
      while rest != {}
        invariant rest <= slot.byID.Keys && Tabled(contents, p, passed, table)
        invariant forall id :: id in slot.byID.Keys - rest ==> Key(p, id) in passed
        decreases |rest|
      {
        var id :| id in rest;
        var rec := slot.byID[id];
        CollectsHas(ids, index, p, id);
        assert Shows(rec, Key(p, id), contents[Key(p, id)]);
        TableOneMore(contents, p, passed, table, Key(p, id));
        table := table[rec.name := ListEntry(rec.id, rec.name, rec.methodName, rec.meta.kind)];
        rest := rest - {id};
        passed := passed + {Key(p, id)};
      }
      AllFiledPassed(p, passed, table);
      TableNames(contents, p, contents.Keys, table);
      var es := SortByName(table);
      TableLists(contents, p, table, es);
      r := Listed(es);
    }

    lemma NoneFiled(p: string)
      requires Valid() && p !in byParticle
      ensures ListsParticle(contents, p, [])
    {
      hide OneRowPerName, Collects, AllShow, Slot.Aliased;
      SlotAt(p);
      forall e
        ensures !IsListed(contents, p, e)
      {
        CollectsHas(ids, index, p, e.id);
        assert Key(p, e.id) in contents <==> Key(p, e.id) in index;
      }
    }

    lemma AllFiledPassed(p: string, passed: set<Key>, table: map<string, ListEntry>)
      requires Valid() && p in byParticle && Tabled(contents, p, passed, table)
      requires forall id :: id in byParticle[p].byID ==> Key(p, id) in passed
      ensures Tabled(contents, p, contents.Keys, table)
    {
      hide OneRowPerName, Collects, AllShow, Slot.Aliased;
      SlotAt(p);
      forall k | k in contents && k.particle == p
        ensures k in passed
      {
        CollectsHas(ids, index, p, k.id);
        assert k in index && k == Key(p, k.id);
      }
    }

    /** The particle's slot, made when it has none yet. */
    method SlotFor(p: string) returns (slot: Slot)
      requires Indexed() && InUse(ids)
      modifies `byParticle, `slots, `ids
      ensures Indexed() && p in byParticle && byParticle[p] == slot && slot in slots
      ensures InUseBut(ids, p)
      ensures slots == old(slots) || (fresh(slot) && slots == old(slots) + {slot})
    {
      hide AllShow, Collects, Slot.Aliased, Slot.Shows, InUse, InUseBut;
      SlotAt(p);
      InUseIsBut(ids, p);
      InUseAgain(ids, p, map[]);
      if p in byParticle {
        return byParticle[p];
      }
      CollectsEmptySlot(ids, index, p);
      OneSlotLess(byParticle, ids, slots, p);
      slot := new Slot(p);
      OneSlotMore(byParticle, ids, slots, p, slot, map[]);
      byParticle, slots, ids := byParticle[p := slot], slots + {slot}, ids[p := map[]];
    }

    method AddRecord(slot: Slot, p: string, name: string, methodName: string, meta: Meta, newId: string) returns (rec: Record)
      requires Indexed() && Shown() && p in byParticle && byParticle[p] == slot
      requires name !in slot.byName && Key(p, newId) !in contents && InUseBut(ids, p)
      modifies `records, `ids, `index, `contents, slot
      ensures records == old(records) + {rec}
      ensures Indexed() && Shown() && InUse(ids) && fresh(rec) && rec.id == newId && index == old(index)[Key(p, newId) := rec]
      ensures contents == old(contents)[Key(p, newId) := Entry(name, methodName, meta, map[])]
      ensures IdOf(old(contents), p, name).None? && byParticle == old(byParticle)
    {
      hide OneRowPerName, Indexed, InUse, InUseBut;
      var k := Key(p, newId);
      if IdOf(contents, p, name).Some? {
        NamedIsFiled(p, name, IdOf(contents, p, name).value);
      }
      rec := new Record(p, newId, name, methodName, meta);
      assert k !in index;
      PutKeepsNames(contents, p, name, newId, rec.View());
      AddToSlot(slot, p, rec);
      records := records + {rec};
      FileNew(k, rec);
    }

    method AddToSlot(slot: Slot, p: string, rec: Record)
      requires Indexed() && InUseBut(ids, p) && p in byParticle && byParticle[p] == slot
      requires rec.particle == p && rec.name !in slot.byName && Key(p, rec.id) !in index
      modifies `ids, `index, slot
      ensures Indexed() && index == old(index)[Key(p, rec.id) := rec]
      ensures InUse(ids)
    {
      hide AllShow, Slot.Aliased, Slot.Shows, Collects, InUse, InUseBut;
      SlotAt(p);
      InUseAgain(ids, p, slot.byID[rec.id := rec]);
      assert rec.id in slot.byID[rec.id := rec];
      CollectsHas(ids, index, p, rec.id);
      CollectsAdded(ids, index, p, rec.id, rec);
      OtherSlots(byParticle, ids, slots, p);
      slot.Insert(rec);
      OneSlotMore(byParticle, ids, slots - {slot}, p, slot, slot.byID);
      assert slots - {slot} + {slot} == slots;
      assert byParticle[p := slot] == byParticle;
      ids, index := ids[p := slot.byID], index[Key(p, rec.id) := rec];
    }

    /** Takes a record just indexed into the contents. */
    ghost method FileNew(k: Key, rec: Record)
      requires k in index && index[k] == rec && rec in records && index.Keys == contents.Keys + {k}
      requires Shows(rec, k, rec.View()) && OneRowPerName(contents[k := rec.View()])
      requires forall l :: l in index && l != k ==> l in contents && index[l] in records && Shows(index[l], l, contents[l])
      modifies `contents
      ensures Shown() && contents == old(contents)[k := rec.View()]
    {
      hide OneRowPerName, Shows;
      contents := contents[k := rec.View()];
    }

    /** A Put to an existing name: wiped on a method switch, then given the new method and metadata. */
    method Rewrite(k: Key, rec: Record, methodName: string, meta: Meta)
      requires Shown() && k in index && rec == index[k]
      modifies `contents, rec
      ensures Shown() && k in old(contents)
      ensures contents == old(contents)[k := Entry(rec.name, methodName, meta, Surviving(old(contents), k, methodName))]
    {
      hide OneRowPerName;
      assert Shows(rec, k, contents[k]);
      assert forall l :: l in index && l != k ==> Shows(index[l], l, contents[l]) && index[l] != rec;
      if rec.methodName != methodName {
        rec.secrets := map[];
      }
      rec.methodName := methodName;
      rec.meta := meta;
      Refile(k);
    }

    lemma NamedSlotInUse(p: string, name: string)
      requires Indexed() && InUseBut(ids, p) && p in byParticle && name in byParticle[p].byName
      ensures InUse(ids)
    {
      assert byParticle[p].byName[name].id in byParticle[p].byID;
    }

    /** The record Put writes to, made or found, before its secrets are stored. */
    method PutRecord(p: string, name: string, methodName: string, meta: Meta, newId: string) returns (rec: Record)
      requires Valid() && Key(p, newId) !in contents
      modifies this, slots, records
      ensures Valid() && rec.id == PutTarget(old(contents), p, name, newId)
      ensures rec in records && Key(p, rec.id) in index && index[Key(p, rec.id)] == rec
      ensures contents == old(contents)[Key(p, rec.id) := Entry(name, methodName, meta, Surviving(old(contents), Key(p, rec.id), methodName))]
      ensures fresh(slots - old(slots)) && fresh(records - old(records))
    {
      hide OneRowPerName, Indexed, Shown, InUse, InUseBut, Shows, Named;
      var slot := SlotFor(p);
      if name !in slot.byName {
        rec := AddRecord(slot, p, name, methodName, meta, newId);
      } else {
        rec := slot.byName[name];
        FiledIsNamed(p, name);
        NamedSlotInUse(p, name);
        IdOfIs(contents, p, name, rec.id);
        Rewrite(Key(p, rec.id), rec, methodName, meta);
      }
    }

    method Put(p: string, name: string, methodName: string, meta: Option<Meta>, secrets: seq<Secret>, newId: string)
        returns (r: Reply)
      requires Valid() && Key(p, newId) !in contents
      modifies this, slots, records
      ensures Does(old(contents), Op.Put(p, name, methodName, meta, secrets, newId), r)
      ensures fresh(slots - old(slots)) && fresh(records - old(records))
    {
      hide Indexed, Shown, InUse, Shows, WriteAll;
      var bad := CheckPut(name, methodName, meta, secrets);
      if bad.Some? {
        return Fail(bad.value);
      }
      var rec := PutRecord(p, name, methodName, meta.value, newId);
      StoreSecrets(Key(p, rec.id), rec, secrets);
      r := Found(Descriptor(rec.id, name, methodName, meta.value));
    }

    /** Takes a record out of both indexes of its slot. */
    method RemoveFromSlot(slot: Slot, p: string, id: string) returns (empty: bool)
      requires Indexed() && InUseBut(ids, p) && p in byParticle && byParticle[p] == slot && id in slot.byID
      modifies `ids, `index, slot
      ensures Indexed() && InUseBut(ids, p) && index == old(index) - {Key(p, id)}
      ensures p in ids && (empty <==> ids[p] == map[])
    {
      hide AllShow, Slot.Aliased, Slot.Shows, Collects, InUse, InUseBut;
      SlotAt(p);
      InUseAgain(ids, p, slot.byID - {id});
      CollectsRemoved(ids, index, p, id);
      OtherSlots(byParticle, ids, slots, p);
      slot.Remove(id);
      OneSlotMore(byParticle, ids, slots - {slot}, p, slot, slot.byID);
      assert slots - {slot} + {slot} == slots;
      assert byParticle[p := slot] == byParticle;
      ids, index := ids[p := slot.byID], index - {Key(p, id)};
      EmptyIsNoKeys(slot.byID);
      empty := |slot.byID| == 0;
    }

    /** Drops the particle's emptied slot. */
    method DropSlot(p: string)
      requires Indexed() && InUseBut(ids, p) && p in ids && ids[p] == map[]
      modifies `byParticle, `ids
      ensures Indexed() && InUse(ids)
    {
      hide AllShow, Slot.Aliased, Slot.Shows, Collects, InUse, InUseBut;
      InUseAgain(ids, p, map[]);
      CollectsDropped(ids, index, p);
      OneSlotLess(byParticle, ids, slots, p);
      byParticle, ids := byParticle - {p}, ids - {p};
    }

    /** Takes a record no longer indexed out of the contents. */
    ghost method Forget(k: Key)
      requires k !in index && contents.Keys == index.Keys + {k} && OneRowPerName(contents)
      requires forall l :: l in index ==> index[l] in records && Shows(index[l], l, contents[l])
      modifies `contents
      ensures Shown() && contents == old(contents) - {k}
    {
      hide OneRowPerName, Shows;
      FewerRows(contents, k);
      contents := contents - {k};
    }

    method Delete(p: string, id: string) returns (r: Reply)
      requires Valid()
      modifies `byParticle, `ids, `index, `contents, slots
      ensures Does(old(contents), Op.Delete(p, id), r)
    {
      hide OneRowPerName, Shows, AllShow, Collects, Slot.Aliased;
      SlotAt(p);
      var k := Key(p, id);
      CollectsHas(ids, index, p, id);
      assert contents - {k} == contents || k in contents;
      if p !in byParticle {
        return Done;
      }
      var slot := byParticle[p];
      if id !in slot.byID {
        return Done;
      }
      RemoveRecord(slot, p, id);
      r := Done;
    }

    method RemoveRecord(slot: Slot, p: string, id: string)
      requires Valid() && p in byParticle && byParticle[p] == slot && id in slot.byID
      modifies `byParticle, `ids, `index, `contents, slot
      ensures Valid() && contents == old(contents) - {Key(p, id)}
    {
      hide OneRowPerName, Shows, Indexed, InUse, InUseBut;
      var k := Key(p, id);
      assert k in index by { IdIsIndexed(p, id); }
      InUseIsBut(ids, p);
      var empty := RemoveFromSlot(slot, p, id);
      Forget(k);
      InUseIsBut(ids, p);
      if empty {
        DropSlot(p);
      }
    }

    lemma IdIsIndexed(p: string, id: string)
      requires Indexed() && p in byParticle && id in byParticle[p].byID
      ensures Key(p, id) in index
    {
      CollectsHas(ids, index, p, id);
    }

    ghost predicate Does(before: Store, op: Op, r: Reply)
      reads this, slots, records
    {
      Valid() && Answers(before, op, r) && contents == After(before, op)
    }

    method Do(op: Op) returns (r: Reply)
      requires Valid() && Fresh(contents, op)
      modifies this, slots, records
      ensures Does(old(contents), op, r)
      ensures fresh(slots - old(slots)) && fresh(records - old(records))
    {
      hide Valid, Answers;
      match op
      case GetByID(p, id) => r := GetByID(p, id);
      case GetByName(p, name) => r := GetByName(p, name);
      case List(p) => r := List(p);
      case ConfiguredMethod(p, name) => r := ConfiguredMethod(p, name);
      case Put(p, name, m, meta, secrets, newId) => r := Put(p, name, m, meta, secrets, newId);
      case Delete(p, id) => r := Delete(p, id);
      case ReadSecret(p, id, role) => r := ReadSecret(p, id, role);
      case WriteSecrets(p, id, secrets) => r := WriteSecrets(p, id, secrets);
      case DeleteSecret(p, id, role) => r := DeleteSecret(p, id, role);
    }
  }
}
