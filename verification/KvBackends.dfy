/** The two kv backends as objects whose tables change in place. */
module KvBackends {
  import opened Text
  import opened KvStore
  import opened KvList

  /** SQLite's default SQLITE_MAX_LIKE_PATTERN_LENGTH, in bytes. */
  const MAX_LIKE_PATTERN := 50000

  class SqliteKv {
    var rows: Rows
    var usage: map<string, int>
    const quotaBytes: int
    ghost var drift: map<string, nat>

    ghost function View(): Db
      reads this
    {
      Db(rows, usage, drift)
    }

    constructor (quotaBytes: int)
      ensures View() == EMPTY_DB && this.quotaBytes == quotaBytes
    {
      this.quotaBytes := quotaBytes;
      rows, usage, drift := map[], map[], map[];
    }

    method Get(p: string, k: string) returns (r: Reply)
      ensures r == SqlGet(View(), p, k)
    {
      r := Got(if (p, k) in rows then Some(rows[(p, k)]) else None);
    }

    method Set(p: string, k: string, v: string) returns (r: Reply)
      modifies this
      ensures (View(), r) == SqlSet(old(View()), quotaBytes, p, k, v)
    {
      hide SqlLength, Bucket, Deficit, Drift;
      var prev := 0;
      if (p, k) in rows {
        prev := SqlLength(k) + SqlLength(rows[(p, k)]);
      }
      var delta := |k| + |v| - prev;
      if quotaBytes > 0 {
        var current := if p in usage then usage[p] else 0;
        if current + delta > quotaBytes {
          return QuotaExceeded;
        }
      }
      drift := drift[p := Drift(View(), p) + Deficit(Bucket(rows, p), k)];
      rows := rows[(p, k) := v];
      usage := usage[p := if p in usage then usage[p] + delta else |k| + |v|];
      return Ok;
    }

    method Delete(p: string, k: string)
      modifies this
      ensures View() == SqlDelete(old(View()), p, k)
    {
      hide SqlLength, Bucket, Deficit, Drift;
      if (p, k) !in rows {
        return;
      }
      var existing := SqlLength(k) + SqlLength(rows[(p, k)]);
      drift := drift[p := Drift(View(), p) + Deficit(Bucket(rows, p), k)];
      rows := rows - {(p, k)};
      if p in usage {
        usage := usage[p := usage[p] - existing];
      }
      if p in usage && usage[p] <= 0 {
        usage := usage - {p};
      }
      PruneFromEmptyCounter(old(View()), p, k);
    }

    /** None stands for SQLite's error on a pattern too long, raised as soon as there is a row
        to compare. */
    method List(p: string, prefix: string) returns (out: Option<seq<string>>)
      ensures out.None? <==> Bucket(rows, p) != map[] && |Escaped(prefix)| + 1 > 50000
      ensures out.Some? ==> Lists(out.value, SqlKeys(Bucket(rows, p), prefix))
    {
      hide Bucket;
      var escaped := LikeEscape(prefix);
      var pattern := escaped + "%";
      var b := Bucket(rows, p);
      if b != map[] && |pattern| > MAX_LIKE_PATTERN {
        return None;
      }
      var keys := SortNames(set k | k in b && SqlLike(pattern, k));
      return Some(keys);
    }
  }

  /** Deleting without a usage row leaves the usage table as it was. */
  lemma PruneFromEmptyCounter(db: Db, p: string, k: string)
    ensures p !in db.usage ==> SqlDelete(db, p, k).usage == db.usage
    ensures p in db.usage ==> db.usage[p := 0] - {p} == db.usage - {p}
  {
  }

  class MemoryKv {
    var entries: Entries
    const quotaBytes: int

    constructor (quotaBytes: int)
      ensures entries == map[] && this.quotaBytes == quotaBytes
    {
      this.quotaBytes := quotaBytes;
      entries := map[];
    }

    method Get(p: string, k: string) returns (r: Reply)
      ensures r == MemGet(entries, p, k)
    {
      if p !in entries {
        return Got(None);
      }
      return Got(if k in entries[p] then Some(entries[p][k]) else None);
    }

    method Set(p: string, k: string, v: string) returns (r: Reply)
      modifies this
      ensures (entries, r) == MemSet(old(entries), quotaBytes, p, k, v)
    {
      if p !in entries {
        entries := entries[p := map[]];
      }
      var bucket := entries[p];
      if quotaBytes > 0 {
        var prev := 0;
        if k in bucket {
          prev := |k| + |bucket[k]|;
        }
        var usage := Usage(bucket);
        var total := usage - prev + |k| + |v|;
        if total > quotaBytes {
          assert entries == old(entries)[p := Space(old(entries), p)];
          return QuotaExceeded;
        }
      }
      entries := entries[p := bucket[k := v]];
      assert entries == old(entries)[p := Space(old(entries), p)[k := v]];
      return Ok;
    }

    method Delete(p: string, k: string)
      modifies this
      ensures entries == MemDelete(old(entries), p, k)
    {
      if p !in entries {
        return;
      }
      entries := entries[p := entries[p] - {k}];
      if entries[p] == map[] {
        entries := entries - {p};
      }
    }

    method List(p: string, prefix: string) returns (out: seq<string>)
      ensures Lists(out, MemKeys(Space(entries, p), prefix))
    {
      if p !in entries {
        return [];
      }
      var bucket := entries[p];
      var found: set<string> := {};
      var rest := bucket.Keys;
      while rest != {}
        invariant rest <= bucket.Keys
        invariant found == set k | k in bucket && k !in rest && prefix <= k
        decreases |rest|
      {
        var k :| k in rest;
        if prefix <= k {
          found := found + {k};
        }
        rest := rest - {k};
      }
      assert found == MemKeys(Space(entries, p), prefix);
      out := SortNames(found);
    }

    method Usage(bucket: map<string, string>) returns (total: nat)
      ensures total == Total(bucket)
    {
      total := 0;
      var rest := bucket;
      while rest != map[]
        invariant total + Total(rest) == Total(bucket)
        decreases |rest|
      {
        var k :| k in rest;
        TotalErase(rest, k);
        total := total + |k| + |rest[k]|;
        rest := rest - {k};
      }
    }
  }

  lemma RunOneMore(db: Db, entries: Entries, quota: int, ops: seq<Op>, i: nat, before: seq<Reply>)
    requires i < |ops|
    ensures var (db', a) := SqlStep(db, quota, ops[i]);
            before + SqlRun(db, quota, ops[i..]).1 == before + [a] + SqlRun(db', quota, ops[i + 1..]).1
    ensures var (entries', b) := MemStep(entries, quota, ops[i]);
            before + MemRun(entries, quota, ops[i..]).1 == before + [b] + MemRun(entries', quota, ops[i + 1..]).1
  {
    hide SqlStep, MemStep;
    assert ops[i..][0] == ops[i] && ops[i..][1..] == ops[i + 1..];
  }

  lemma RunsEnd(db: Db, entries: Entries, quota: int, ops: seq<Op>)
    ensures SqlRun(db, quota, ops[|ops|..]).1 == [] && MemRun(entries, quota, ops[|ops|..]).1 == []
  {
  }

  /** Both backends driven by the same calls: as long as no write falls between the true
      total and the drifted counter, every pair of answers is the same pair. */
  method DriveBoth(quota: int, ops: seq<Op>) returns (sqlReplies: seq<Reply>, memReplies: seq<Reply>)
    ensures sqlReplies == SqlRun(EMPTY_DB, quota, ops).1 && memReplies == MemRun(map[], quota, ops).1
    ensures (forall i :: 0 <= i < |ops| ==> Plain(ops[i])) ==> sqlReplies == memReplies
  {
    hide SqlRun, MemRun, SqlSet, MemSet, SqlDelete, MemDelete, SqlGet, MemGet;
    var sql := new SqliteKv(quota);
    var mem := new MemoryKv(quota);
    sqlReplies, memReplies := [], [];
    assert ops[0..] == ops;
    var i := 0;
    while i < |ops|
      invariant 0 <= i <= |ops| && sql.quotaBytes == mem.quotaBytes == quota
      invariant SqlRun(EMPTY_DB, quota, ops).1 == sqlReplies + SqlRun(sql.View(), quota, ops[i..]).1
      invariant MemRun(map[], quota, ops).1 == memReplies + MemRun(mem.entries, quota, ops[i..]).1
    {
      RunOneMore(sql.View(), mem.entries, quota, ops, i, sqlReplies);
      RunOneMore(sql.View(), mem.entries, quota, ops, i, memReplies);
      var a, b := Ok, Ok;
      match ops[i] {
        case Get(p, k) =>
          a := sql.Get(p, k);
          b := mem.Get(p, k);
        case Set(p, k, v) =>
          a := sql.Set(p, k, v);
          b := mem.Set(p, k, v);
        case Delete(p, k) =>
          sql.Delete(p, k);
          mem.Delete(p, k);
      }
      sqlReplies, memReplies := sqlReplies + [a], memReplies + [b];
      i := i + 1;
    }
    RunsEnd(sql.View(), mem.entries, quota, ops);
    if forall j :: 0 <= j < |ops| ==> Plain(ops[j]) {
      PlainRunsAgree(quota, ops);
    }
  }
}
