/** The two key/value backends: SQLite with an incremental usage counter, and memory, which rescans. */
module KvStore {
  // Memory rescans a particle's entries on every write. Each call is one atomic step.

  import opened MapSums
  import opened SqlText
  import opened Text

  // ---------------------------------------------------------------- SQLite's LENGTH

  /** SQLite's LENGTH of a text value: the characters before the first NUL. */
  function SqlLength(s: string): (n: nat)
    ensures n <= |s|
  {
    if s == [] || s[0] == '\0' then 0 else 1 + SqlLength(s[CharWidth(s)..])
  }

  /** No NUL, and no byte from 0xC0 upwards directly before a continuation byte. */
  predicate OneBytePerChar(s: string) {
    (forall i :: 0 <= i < |s| ==> s[i] != '\0') &&
    forall i :: 0 <= i < |s| - 1 && s[i] as int >= 0xC0 ==> !(0x80 <= s[i + 1] as int < 0xC0)
  }

  /** LENGTH and Go's len agree on exactly these strings. */
  lemma {:induction false} SqlLengthIsByteLengthIff(s: string)
    ensures SqlLength(s) == |s| <==> OneBytePerChar(s)
    decreases |s|
  {
    if s != [] && s[0] != '\0' {
      assert |s| > 1 ==> s[1..][0] == s[1];
      if CharWidth(s) == 1 {
        SqlLengthIsByteLengthIff(s[1..]);
        forall i | 0 <= i < |s|
          ensures OneBytePerChar(s[1..]) ==> s[i] != '\0'
          ensures OneBytePerChar(s[1..]) && i < |s| - 1 && s[i] as int >= 0xC0 ==> !(0x80 <= s[i + 1] as int < 0xC0)
        {
          if i > 0 {
            assert s[1..][i - 1] == s[i];
            assert i < |s| - 1 ==> s[1..][i] == s[i + 1];
          }
        }
      }
    }
  }

  // ---------------------------------------------------------------- the tables

  type Rows = map<(string, string), string>

  /** `drift` is a history variable: bytes each particle's counter holds beyond its rows. */
  datatype Db = Db(rows: Rows, usage: map<string, int>, drift: map<string, nat>)

  datatype Reply = Ok | QuotaExceeded | Got(value: Option<string>)

  function Keys(rows: Rows, p: string): set<string> {
    set r | r in rows && r.0 == p :: r.1
  }

  /** The rows of one particle. */
  function Bucket(rows: Rows, p: string): map<string, string> {
    map k | k in Keys(rows, p) :: rows[(p, k)]
  }

  function Weights(b: map<string, string>): map<string, nat> {
    map k | k in b :: |k| + |b[k]|
  }

  /** The bytes a particle really stores. */
  ghost function Total(b: map<string, string>): nat {
    Sum(Weights(b))
  }

  function Counter(db: Db, p: string): int {
    if p in db.usage then db.usage[p] else 0
  }

  function Drift(db: Db, p: string): nat {
    if p in db.drift then db.drift[p] else 0
  }

  /** Bytes of the row under `k` that LENGTH does not see. */
  function Deficit(b: map<string, string>, k: string): nat {
    if k in b then |k| + |b[k]| - SqlLength(k) - SqlLength(b[k]) else 0
  }

  function SqlGet(db: Db, p: string, k: string): Reply {
    Got(if (p, k) in db.rows then Some(db.rows[(p, k)]) else None)
  }

  function SqlSet(db: Db, quota: int, p: string, k: string, v: string): (Db, Reply) {
    var prev := if (p, k) in db.rows then SqlLength(k) + SqlLength(db.rows[(p, k)]) else 0;
    var delta := |k| + |v| - prev;
    if quota > 0 && Counter(db, p) + delta > quota then (db, QuotaExceeded)
    else (Db(db.rows[(p, k) := v],
             db.usage[p := if p in db.usage then db.usage[p] + delta else |k| + |v|],
             db.drift[p := Drift(db, p) + Deficit(Bucket(db.rows, p), k)]), Ok)
  }

  function SqlDelete(db: Db, p: string, k: string): Db {
    if (p, k) !in db.rows then db else
      var left := Counter(db, p) - (SqlLength(k) + SqlLength(db.rows[(p, k)]));
      Db(db.rows - {(p, k)},
         if p !in db.usage || left <= 0 then db.usage - {p} else db.usage[p := left],
         db.drift[p := Drift(db, p) + Deficit(Bucket(db.rows, p), k)])
  }

  type Entries = map<string, map<string, string>>

  function Space(entries: Entries, p: string): map<string, string> {
    if p in entries then entries[p] else map[]
  }

  function MemGet(entries: Entries, p: string, k: string): Reply {
    Got(if k in Space(entries, p) then Some(Space(entries, p)[k]) else None)
  }

  /** Bytes stored once `k` holds `v`. */
  ghost function NewTotal(b: map<string, string>, k: string, v: string): int {
    Total(b) - (if k in b then |k| + |b[k]| else 0) + |k| + |v|
  }

  ghost function MemSet(entries: Entries, quota: int, p: string, k: string, v: string): (Entries, Reply) {
    var b := Space(entries, p);
    if quota > 0 && NewTotal(b, k, v) > quota then (entries[p := b], QuotaExceeded)
    else (entries[p := b[k := v]], Ok)
  }

  function MemDelete(entries: Entries, p: string, k: string): Entries {
    if p !in entries then entries
    else if entries[p] - {k} == map[] then entries - {p}
    else entries[p := entries[p] - {k}]
  }

  // ---------------------------------------------------------------- the counter against the rows

  lemma BucketHas(rows: Rows, p: string, k: string)
    ensures k in Bucket(rows, p) <==> (p, k) in rows
    ensures (p, k) in rows ==> Bucket(rows, p)[k] == rows[(p, k)]
  {
    assert k in Keys(rows, p) <==> (p, k) in rows;
  }

  /** Tables with the same rows of one particle have the same bucket. */
  lemma SameBucket(rows: Rows, p: string, b: map<string, string>)
    requires forall k :: k in b <==> (p, k) in rows
    requires forall k :: k in b ==> b[k] == rows[(p, k)]
    ensures Bucket(rows, p) == b
  {
    hide Bucket;
    forall k
      ensures k in Bucket(rows, p) <==> k in b
      ensures k in b ==> Bucket(rows, p)[k] == b[k]
    {
      BucketHas(rows, p, k);
    }
  }

  lemma OtherBucket(rows: Rows, rows': Rows, q: string)
    requires forall k :: (q, k) in rows <==> (q, k) in rows'
    requires forall k :: (q, k) in rows ==> rows[(q, k)] == rows'[(q, k)]
    ensures Bucket(rows, q) == Bucket(rows', q)
  {
    hide Bucket;
    forall k
      ensures k in Bucket(rows', q) <==> (q, k) in rows
      ensures k in Bucket(rows', q) ==> Bucket(rows', q)[k] == rows[(q, k)]
    {
      BucketHas(rows', q, k);
    }
    SameBucket(rows, q, Bucket(rows', q));
  }

  lemma BucketWrite(rows: Rows, p: string, k: string, v: string)
    ensures Bucket(rows[(p, k) := v], p) == Bucket(rows, p)[k := v]
    ensures forall q :: q != p ==> Bucket(rows[(p, k) := v], q) == Bucket(rows, q)
  {
    hide Bucket;
    var rows' := rows[(p, k) := v];
    forall j
      ensures j in Bucket(rows, p)[k := v] <==> (p, j) in rows'
      ensures (p, j) in rows' ==> Bucket(rows, p)[k := v][j] == rows'[(p, j)]
    {
      BucketHas(rows, p, j);
    }
    SameBucket(rows', p, Bucket(rows, p)[k := v]);
    forall q | q != p
      ensures Bucket(rows', q) == Bucket(rows, q)
    {
      OtherBucket(rows', rows, q);
    }
  }

  lemma BucketErase(rows: Rows, p: string, k: string)
    ensures Bucket(rows - {(p, k)}, p) == Bucket(rows, p) - {k}
    ensures forall q :: q != p ==> Bucket(rows - {(p, k)}, q) == Bucket(rows, q)
  {
    hide Bucket;
    var rows' := rows - {(p, k)};
    forall j
      ensures j in Bucket(rows, p) - {k} <==> (p, j) in rows'
      ensures (p, j) in rows' ==> (Bucket(rows, p) - {k})[j] == rows'[(p, j)]
    {
      BucketHas(rows, p, j);
    }
    SameBucket(rows', p, Bucket(rows, p) - {k});
    forall q | q != p
      ensures Bucket(rows', q) == Bucket(rows, q)
    {
      OtherBucket(rows', rows, q);
    }
  }

  lemma TotalWrite(b: map<string, string>, k: string, v: string)
    ensures Total(b[k := v]) == NewTotal(b, k, v)
  {
    SumUpdate(Weights(b), k, |k| + |v|);
    assert Weights(b[k := v]) == Weights(b)[k := |k| + |v|];
  }

  lemma TotalErase(b: map<string, string>, k: string)
    requires k in b
    ensures Total(b - {k}) == Total(b) - |k| - |b[k]|
  {
    SumRemove(Weights(b), k);
    assert Weights(b - {k}) == Weights(b) - {k};
  }

  /** A particle's counter, a missing row counting as 0, is its true bytes plus its drift. */
  ghost predicate Counts(db: Db, p: string) {
    Counter(db, p) == Total(Bucket(db.rows, p)) + Drift(db, p)
  }

  ghost predicate Inv(db: Db, quota: int) {
    forall p :: Counts(db, p) && (quota > 0 ==> Counter(db, p) <= quota)
  }

  /** A Set charges the particle's counter by what the rows grow, plus what LENGTH missed of
      the row it replaces. */
  lemma SetCounts(db: Db, quota: int, p: string, k: string, v: string)
    requires Counts(db, p)
    ensures var b := Bucket(db.rows, p);
            var need := NewTotal(b, k, v) + Drift(db, p) + Deficit(b, k);
            var (db', r) := SqlSet(db, quota, p, k, v);
            && Counts(db', p) && (r.QuotaExceeded? <==> quota > 0 && need > quota)
            && (if r.Ok? then Counter(db', p) == need else db' == db)
  {
    hide SqlLength, Total, Bucket;
    var b := Bucket(db.rows, p);
    BucketHas(db.rows, p, k);
    BucketWrite(db.rows, p, k, v);
    TotalWrite(b, k, v);
    if k in b { TotalErase(b, k); }
  }

  lemma SetLeavesOthers(db: Db, quota: int, p: string, k: string, v: string, q: string)
    requires q != p
    ensures Counts(SqlSet(db, quota, p, k, v).0, q) == Counts(db, q)
    ensures Counter(SqlSet(db, quota, p, k, v).0, q) == Counter(db, q)
  {
    hide SqlLength, Total, Bucket, Deficit;
    BucketWrite(db.rows, p, k, v);
  }

  lemma SetKeepsInv(db: Db, quota: int, p: string, k: string, v: string)
    requires Inv(db, quota)
    ensures Inv(SqlSet(db, quota, p, k, v).0, quota)
    ensures SqlSet(db, quota, p, k, v).1.QuotaExceeded? <==>
            quota > 0 && NewTotal(Bucket(db.rows, p), k, v) + Drift(db, p) + Deficit(Bucket(db.rows, p), k) > quota
  {
    hide SqlSet, Counts, Counter, Deficit, NewTotal, Drift, Bucket;
    var db' := SqlSet(db, quota, p, k, v).0;
    assert Counts(db, p);
    SetCounts(db, quota, p, k, v);
    forall q
      ensures Counts(db', q) && (quota > 0 ==> Counter(db', q) <= quota)
    {
      assert Counts(db, q) && (quota > 0 ==> Counter(db, q) <= quota);
      if q != p { SetLeavesOthers(db, quota, p, k, v, q); }
    }
  }

  /** Pruning a non-positive counter loses nothing: it had nothing left to count. */
  lemma DeleteCounts(db: Db, p: string, k: string)
    requires Counts(db, p) && (p, k) in db.rows
    ensures Counts(SqlDelete(db, p, k), p) && Counter(SqlDelete(db, p, k), p) <= Counter(db, p)
  {
    BucketHas(db.rows, p, k);
    BucketErase(db.rows, p, k);
    TotalErase(Bucket(db.rows, p), k);
  }

  lemma DeleteKeepsInv(db: Db, quota: int, p: string, k: string)
    requires Inv(db, quota)
    ensures Inv(SqlDelete(db, p, k), quota)
  {
    if (p, k) in db.rows {
      var db' := SqlDelete(db, p, k);
      forall q
        ensures Counts(db', q) && (quota > 0 ==> Counter(db', q) <= quota)
      {
        assert Counts(db, q) && (quota > 0 ==> Counter(db, q) <= quota);
        if q == p {
          DeleteCounts(db, p, k);
        } else {
          BucketErase(db.rows, p, k);
          assert Bucket(db'.rows, q) == Bucket(db.rows, q);
          assert Counter(db', q) == Counter(db, q) && Drift(db', q) == Drift(db, q);
        }
      }
    }
  }

  // ---------------------------------------------------------------- whole runs of both stores

  datatype Op = Get(p: string, k: string) | Set(p: string, k: string, v: string) | Delete(p: string, k: string)

  function SqlStep(db: Db, quota: int, op: Op): (Db, Reply) {
    match op
    case Get(p, k) => (db, SqlGet(db, p, k))
    case Set(p, k, v) => SqlSet(db, quota, p, k, v)
    case Delete(p, k) => (SqlDelete(db, p, k), Ok)
  }

  ghost function MemStep(entries: Entries, quota: int, op: Op): (Entries, Reply) {
    match op
    case Get(p, k) => (entries, MemGet(entries, p, k))
    case Set(p, k, v) => MemSet(entries, quota, p, k, v)
    case Delete(p, k) => (MemDelete(entries, p, k), Ok)
  }

  function SqlRun(db: Db, quota: int, ops: seq<Op>): (Db, seq<Reply>)
    decreases |ops|
  {
    if ops == [] then (db, []) else
      var (db1, r) := SqlStep(db, quota, ops[0]);
      var (db2, rs) := SqlRun(db1, quota, ops[1..]);
      (db2, [r] + rs)
  }

  ghost function MemRun(entries: Entries, quota: int, ops: seq<Op>): (Entries, seq<Reply>)
    decreases |ops|
  {
    if ops == [] then (entries, []) else
      var (e1, r) := MemStep(entries, quota, ops[0]);
      var (e2, rs) := MemRun(e1, quota, ops[1..]);
      (e2, [r] + rs)
  }

  const EMPTY_DB := Db(map[], map[], map[])

  lemma EmptyInv(quota: int)
    ensures Inv(EMPTY_DB, quota)
  {
    forall p
      ensures Counts(EMPTY_DB, p)
    {
      assert Bucket(EMPTY_DB.rows, p) == map[];
    }
  }

  lemma {:induction false} RunKeepsInv(db: Db, quota: int, ops: seq<Op>)
    requires Inv(db, quota)
    ensures Inv(SqlRun(db, quota, ops).0, quota)
    decreases |ops|
  {
    if ops != [] {
      match ops[0] {
        case Get(_, _) =>
        case Set(p, k, v) => SetKeepsInv(db, quota, p, k, v);
        case Delete(p, k) => DeleteKeepsInv(db, quota, p, k);
      }
      RunKeepsInv(SqlStep(db, quota, ops[0]).0, quota, ops[1..]);
    }
  }

  /** For arbitrary strings and every run, the counter never falls below the bytes really
      stored, so a quota in force from the start is never exceeded by real bytes. */
  lemma CounterCoversStoredBytes(quota: int, ops: seq<Op>, p: string)
    ensures var db := SqlRun(EMPTY_DB, quota, ops).0;
            Total(Bucket(db.rows, p)) <= Counter(db, p) && (quota > 0 ==> Total(Bucket(db.rows, p)) <= quota)
  {
    EmptyInv(quota);
    RunKeepsInv(EMPTY_DB, quota, ops);
    assert Counts(SqlRun(EMPTY_DB, quota, ops).0, p);
  }

  /** Both stores hold the same entries; an empty bucket and a missing one look alike. */
  ghost predicate Same(entries: Entries, rows: Rows) {
    forall p :: SameAt(entries, rows, p)
  }

  ghost predicate SameAt(entries: Entries, rows: Rows, p: string) {
    Space(entries, p) == Bucket(rows, p)
  }

  /** The only answers on which the stores part: the write fits the quota, but not on
      top of the bytes the counter has drifted. */
  ghost predicate Parts(db: Db, quota: int, op: Op) {
    op.Set? && quota > 0 &&
    var b := Bucket(db.rows, op.p);
    NewTotal(b, op.k, op.v) <= quota < NewTotal(b, op.k, op.v) + Drift(db, op.p) + Deficit(b, op.k)
  }

  lemma ReplaceAt(entries: Entries, rows: Rows, rows': Rows, p: string, b: map<string, string>, q: string)
    requires SameAt(entries, rows, q)
    requires Bucket(rows', q) == if q == p then b else Bucket(rows, q)
    ensures SameAt(entries[p := b], rows', q)
  {
  }

  lemma SetTogether(entries: Entries, rows: Rows, p: string, k: string, v: string)
    requires Same(entries, rows)
    ensures Same(entries[p := Space(entries, p)], rows)
    ensures Same(entries[p := Space(entries, p)[k := v]], rows[(p, k) := v])
  {
    assert SameAt(entries, rows, p);
    var touched, written := entries[p := Space(entries, p)], entries[p := Space(entries, p)[k := v]];
    var rows' := rows[(p, k) := v];
    forall q: string
      ensures SameAt(touched, rows, q) && SameAt(written, rows', q)
    {
      assert SameAt(entries, rows, q);
      BucketWrite(rows, p, k, v);
      ReplaceAt(entries, rows, rows, p, Bucket(rows, p), q);
      ReplaceAt(entries, rows, rows', p, Bucket(rows, p)[k := v], q);
    }
  }

  lemma EraseAt(entries: Entries, rows: Rows, p: string, k: string, q: string)
    requires SameAt(entries, rows, q)
    requires Bucket(rows - {(p, k)}, q) == if q == p then Bucket(rows, q) - {k} else Bucket(rows, q)
    ensures SameAt(MemDelete(entries, p, k), rows - {(p, k)}, q)
  {
  }

  lemma DeleteTogether(entries: Entries, rows: Rows, p: string, k: string)
    requires Same(entries, rows)
    ensures Same(MemDelete(entries, p, k), rows - {(p, k)})
  {
    forall q: string
      ensures SameAt(MemDelete(entries, p, k), rows - {(p, k)}, q)
    {
      assert SameAt(entries, rows, q);
      BucketErase(rows, p, k);
      EraseAt(entries, rows, p, k, q);
    }
  }

  lemma StepTogether(entries: Entries, db: Db, quota: int, op: Op)
    requires Inv(db, quota) && Same(entries, db.rows)
    ensures SqlStep(db, quota, op).1 == MemStep(entries, quota, op).1 <==> !Parts(db, quota, op)
    ensures !Parts(db, quota, op) ==> Same(MemStep(entries, quota, op).0, SqlStep(db, quota, op).0.rows)
    ensures Inv(SqlStep(db, quota, op).0, quota)
  {
    assert SameAt(entries, db.rows, op.p);
    match op {
      case Get(p, k) =>
        BucketHas(db.rows, p, k);
      case Set(p, k, v) =>
        SetKeepsInv(db, quota, p, k, v);
        SetTogether(entries, db.rows, p, k, v);
      case Delete(p, k) =>
        DeleteKeepsInv(db, quota, p, k);
        DeleteTogether(entries, db.rows, p, k);
        assert (p, k) !in db.rows ==> db.rows - {(p, k)} == db.rows;
    }
  }

  ghost predicate NeverParts(db: Db, quota: int, ops: seq<Op>)
    decreases |ops|
  {
    ops == [] || (!Parts(db, quota, ops[0]) && NeverParts(SqlStep(db, quota, ops[0]).0, quota, ops[1..]))
  }

  /** For arbitrary strings: the two stores answer a whole run alike if and only if no
      write of it falls between the true total and the drifted counter. */
  lemma {:induction false} RepliesAgreeIff(entries: Entries, db: Db, quota: int, ops: seq<Op>)
    requires Inv(db, quota) && Same(entries, db.rows)
    ensures SqlRun(db, quota, ops).1 == MemRun(entries, quota, ops).1 <==> NeverParts(db, quota, ops)
    decreases |ops|
  {
    if ops != [] {
      StepTogether(entries, db, quota, ops[0]);
      var (db1, r) := SqlStep(db, quota, ops[0]);
      var (e1, m) := MemStep(entries, quota, ops[0]);
      var rs, ms := SqlRun(db1, quota, ops[1..]).1, MemRun(e1, quota, ops[1..]).1;
      assert ([r] + rs)[0] == r && ([m] + ms)[0] == m && ([r] + rs)[1..] == rs && ([m] + ms)[1..] == ms;
      if r == m {
        RepliesAgreeIff(e1, db1, quota, ops[1..]);
      }
    }
  }

  predicate Plain(op: Op) {
    OneBytePerChar(op.k) && (op.Set? ==> OneBytePerChar(op.v))
  }

  ghost predicate PlainDb(db: Db) {
    (forall r :: r in db.rows ==> OneBytePerChar(r.1) && OneBytePerChar(db.rows[r])) &&
    forall p :: Drift(db, p) == 0
  }

  lemma PlainDeficit(db: Db, p: string, k: string)
    requires PlainDb(db)
    ensures Deficit(Bucket(db.rows, p), k) == 0
  {
    BucketHas(db.rows, p, k);
    if (p, k) in db.rows {
      SqlLengthIsByteLengthIff(k);
      SqlLengthIsByteLengthIff(db.rows[(p, k)]);
    }
  }

  lemma {:induction false} PlainNeverParts(db: Db, quota: int, ops: seq<Op>)
    requires PlainDb(db) && forall i :: 0 <= i < |ops| ==> Plain(ops[i])
    ensures NeverParts(db, quota, ops)
    decreases |ops|
  {
    if ops != [] {
      var op := ops[0];
      PlainDeficit(db, op.p, op.k);
      var db1 := SqlStep(db, quota, op).0;
      forall p
        ensures Drift(db1, p) == 0
      {
        assert Drift(db, p) == 0;
      }
      assert Plain(op);
      PlainNeverParts(db1, quota, ops[1..]);
    }
  }

  /** On strings with one byte per character the counter-based store and the rescanning
      store give identical replies to every run, including which writes hit the quota. */
  lemma PlainRunsAgree(quota: int, ops: seq<Op>)
    requires forall i :: 0 <= i < |ops| ==> Plain(ops[i])
    ensures SqlRun(EMPTY_DB, quota, ops).1 == MemRun(map[], quota, ops).1
  {
    EmptyInv(quota);
    forall p
      ensures SameAt(map[], EMPTY_DB.rows, p)
    {
    }
    PlainNeverParts(EMPTY_DB, quota, ops);
    RepliesAgreeIff(map[], EMPTY_DB, quota, ops);
  }

  lemma EAcuteIsOneCharacter()
    ensures SqlLength(E_ACUTE) == 1 && SqlLength("k") == 1
  {
    assert E_ACUTE[1..][0] == E_ACUTE[1] && Continuation(E_ACUTE[1..][1..]) == 0;
    assert SqlLength(E_ACUTE[2..]) == 0;
    assert SqlLength("k"[1..]) == 0;
  }

  /** Two-byte characters do part them: writing the same pair twice under a quota that
      fits it exactly is refused the second time by the counter, never by the rescan. */
  lemma TwoByteCharacterParts(p: string)
    ensures SqlSet(SqlSet(EMPTY_DB, 3, p, "k", E_ACUTE).0, 3, p, "k", E_ACUTE).1 == QuotaExceeded
    ensures MemSet(MemSet(map[], 3, p, "k", E_ACUTE).0, 3, p, "k", E_ACUTE).1 == Ok
  {
    EAcuteIsOneCharacter();
    var none: map<string, string> := map[];
    assert Total(none) == 0;
    TotalWrite(none, "k", E_ACUTE);
  }
}
