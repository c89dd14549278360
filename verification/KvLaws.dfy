/** What the key/value stores answer over whole runs, told from the calls and the replies alone. */
module KvLaws {
  import opened Text
  import opened Utf8
  import opened SqlText
  import opened KvStore
  import opened KvReadable

  /** The last accepted write of a key in a run, unless it was deleted since. */
  function LastWrite(ops: seq<Op>, replies: seq<Reply>, p: string, k: string): Option<string>
    requires |ops| == |replies|
    decreases |ops|
  {
    if ops == [] then None
    else
      var n := |ops| - 1;
      match ops[n]
      case Set(q, j, v) => if q == p && j == k && replies[n] == Ok then Some(v) else LastWrite(ops[..n], replies[..n], p, k)
      case Delete(q, j) => if q == p && j == k then None else LastWrite(ops[..n], replies[..n], p, k)
      case Get(_, _) => LastWrite(ops[..n], replies[..n], p, k)
  }

  /** Every Get answers the last accepted write, a Set is accepted or over the quota, a Delete accepted. */
  ghost predicate Right(ops: seq<Op>, replies: seq<Reply>) {
    |replies| == |ops| &&
    forall i :: 0 <= i < |ops| ==> RightAt(ops, replies, i)
  }

  ghost predicate RightAt(ops: seq<Op>, replies: seq<Reply>, i: nat)
    requires i < |ops| == |replies|
  {
    match ops[i]
    case Get(p, k) => replies[i] == Got(LastWrite(ops[..i], replies[..i], p, k))
    case Set(_, _, _) => replies[i] == Ok || replies[i] == QuotaExceeded
    case Delete(_, _) => replies[i] == Ok
  }

  lemma RightMore(ops: seq<Op>, replies: seq<Reply>)
    requires ops != [] && |ops| == |replies|
    requires Right(ops[..|ops| - 1], replies[..|ops| - 1]) && RightAt(ops, replies, |ops| - 1)
    ensures Right(ops, replies)
  {
    hide LastWrite;
    var n := |ops| - 1;
    forall i | 0 <= i < |ops|
      ensures RightAt(ops, replies, i)
    {
      if i < n {
        assert RightAt(ops[..n], replies[..n], i);
        assert ops[..n][..i] == ops[..i] && replies[..n][..i] == replies[..i];
      }
    }
  }

  // ---------------------------------------------------------------- SQLite

  lemma {:induction false} SqlRunLast(db: Db, quota: int, ops: seq<Op>)
    requires ops != []
    ensures var n := |ops| - 1;
            var (before, rs) := SqlRun(db, quota, ops[..n]);
            var (after, r) := SqlStep(before, quota, ops[n]);
            SqlRun(db, quota, ops) == (after, rs + [r])
    decreases |ops|
  {
    hide SqlStep;
    var n := |ops| - 1;
    if n == 0 {
      assert ops[..0] == [] && ops[1..] == [];
      assert [] + [SqlStep(db, quota, ops[0]).1] == [SqlStep(db, quota, ops[0]).1] + [];
    } else {
      var (db1, r) := SqlStep(db, quota, ops[0]);
      SqlRunLast(db1, quota, ops[1..]);
      assert ops[1..][..n - 1] == ops[..n][1..];
      assert ops[1..][n - 1] == ops[n];
      var rs := SqlRun(db1, quota, ops[..n][1..]).1;
      var last := SqlStep(SqlRun(db1, quota, ops[..n][1..]).0, quota, ops[n]).1;
      assert [r] + (rs + [last]) == [r] + rs + [last];
    }
  }

  ghost predicate Stored(rows: Rows, ops: seq<Op>, replies: seq<Reply>)
    requires |ops| == |replies|
  {
    forall p, k :: SqlGet(Db(rows, map[], map[]), p, k) == Got(LastWrite(ops, replies, p, k))
  }

  lemma SqlStepStores(db: Db, quota: int, ops: seq<Op>, replies: seq<Reply>)
    requires ops != [] && |ops| == |replies|
    requires Stored(db.rows, ops[..|ops| - 1], replies[..|ops| - 1])
    requires replies[|ops| - 1] == SqlStep(db, quota, ops[|ops| - 1]).1
    ensures Stored(SqlStep(db, quota, ops[|ops| - 1]).0.rows, ops, replies)
  {
    hide SqlLength, Deficit, Counter, Drift;
    var n := |ops| - 1;
    var after := SqlStep(db, quota, ops[n]).0;
    forall p, k
      ensures SqlGet(Db(after.rows, map[], map[]), p, k) == Got(LastWrite(ops, replies, p, k))
    {
      assert SqlGet(Db(db.rows, map[], map[]), p, k) == Got(LastWrite(ops[..n], replies[..n], p, k));
    }
  }

  lemma {:induction false} SqlStores(quota: int, ops: seq<Op>)
    ensures var (db, rs) := SqlRun(EMPTY_DB, quota, ops);
            Right(ops, rs) && Stored(db.rows, ops, rs)
    decreases |ops|
  {
    hide SqlStep, LastWrite;
    if ops == [] {
      NothingWritten();
    } else {
      var n := |ops| - 1;
      SqlStores(quota, ops[..n]);
      SqlRunLast(EMPTY_DB, quota, ops);
      var (db, rs) := SqlRun(EMPTY_DB, quota, ops[..n]);
      var all := rs + [SqlStep(db, quota, ops[n]).1];
      assert all[..n] == rs;
      SqlStepStores(db, quota, ops, all);
      SqlRightLast(db, quota, ops, all);
      RightMore(ops, all);
    }
  }

  lemma NothingWritten()
    ensures Stored(EMPTY_DB.rows, [], [])
    ensures forall p, k :: LastWrite([], [], p, k) == None
  {
  }

  lemma SqlRightLast(db: Db, quota: int, ops: seq<Op>, replies: seq<Reply>)
    requires ops != [] && |ops| == |replies| && Stored(db.rows, ops[..|ops| - 1], replies[..|ops| - 1])
    requires replies[|ops| - 1] == SqlStep(db, quota, ops[|ops| - 1]).1
    ensures RightAt(ops, replies, |ops| - 1)
  {
    hide SqlLength, Deficit, Counter, Drift, LastWrite;
    var n := |ops| - 1;
    match ops[n]
    case Get(p, k) =>
      assert SqlGet(Db(db.rows, map[], map[]), p, k) == Got(LastWrite(ops[..n], replies[..n], p, k));
    case _ =>
  }

  // ---------------------------------------------------------------- memory

  lemma {:induction false} MemRunLast(entries: Entries, quota: int, ops: seq<Op>)
    requires ops != []
    ensures var n := |ops| - 1;
            var (before, rs) := MemRun(entries, quota, ops[..n]);
            var (after, r) := MemStep(before, quota, ops[n]);
            MemRun(entries, quota, ops) == (after, rs + [r])
    decreases |ops|
  {
    hide MemStep;
    var n := |ops| - 1;
    if n == 0 {
      assert ops[..0] == [] && ops[1..] == [];
      assert [] + [MemStep(entries, quota, ops[0]).1] == [MemStep(entries, quota, ops[0]).1] + [];
    } else {
      var (next, r) := MemStep(entries, quota, ops[0]);
      MemRunLast(next, quota, ops[1..]);
      assert ops[1..][..n - 1] == ops[..n][1..];
      assert ops[1..][n - 1] == ops[n];
      var rs := MemRun(next, quota, ops[..n][1..]).1;
      var last := MemStep(MemRun(next, quota, ops[..n][1..]).0, quota, ops[n]).1;
      assert [r] + (rs + [last]) == [r] + rs + [last];
    }
  }

  ghost predicate Kept(entries: Entries, ops: seq<Op>, replies: seq<Reply>)
    requires |ops| == |replies|
  {
    forall p, k :: MemGet(entries, p, k) == Got(LastWrite(ops, replies, p, k))
  }

  lemma MemStepKeeps(entries: Entries, quota: int, ops: seq<Op>, replies: seq<Reply>)
    requires ops != [] && |ops| == |replies|
    requires Kept(entries, ops[..|ops| - 1], replies[..|ops| - 1])
    requires replies[|ops| - 1] == MemStep(entries, quota, ops[|ops| - 1]).1
    ensures Kept(MemStep(entries, quota, ops[|ops| - 1]).0, ops, replies)
    ensures RightAt(ops, replies, |ops| - 1)
  {
    hide NewTotal;
    var n := |ops| - 1;
    var after := MemStep(entries, quota, ops[n]).0;
    forall p, k
      ensures MemGet(after, p, k) == Got(LastWrite(ops, replies, p, k))
    {
      assert MemGet(entries, p, k) == Got(LastWrite(ops[..n], replies[..n], p, k));
      MemStepAt(entries, quota, ops[n], p, k);
    }
    if ops[n].Get? {
      assert MemGet(entries, ops[n].p, ops[n].k) == Got(LastWrite(ops[..n], replies[..n], ops[n].p, ops[n].k));
    }
  }

  lemma MemStepAt(entries: Entries, quota: int, op: Op, p: string, k: string)
    ensures var (after, r) := MemStep(entries, quota, op);
            MemGet(after, p, k) ==
            if op.Set? && op.p == p && op.k == k && r == Ok then Got(Some(op.v))
            else if op.Delete? && op.p == p && op.k == k then Got(None) else MemGet(entries, p, k)
  {
    hide NewTotal;
    if op.Delete? && op.p == p && p in entries && entries[p] - {op.k} == map[] {
      assert k != op.k ==> k !in entries[p] - {op.k};
    }
  }

  lemma {:induction false} MemKeeps(quota: int, ops: seq<Op>)
    ensures var (entries, rs) := MemRun(map[], quota, ops);
            Right(ops, rs) && Kept(entries, ops, rs)
    decreases |ops|
  {
    hide MemStep, LastWrite;
    if ops == [] {
      NothingWritten();
    } else {
      var n := |ops| - 1;
      MemKeeps(quota, ops[..n]);
      MemRunLast(map[], quota, ops);
      var (entries, rs) := MemRun(map[], quota, ops[..n]);
      var all := rs + [MemStep(entries, quota, ops[n]).1];
      assert all[..n] == rs;
      MemStepKeeps(entries, quota, ops, all);
      RightMore(ops, all);
    }
  }

  // ---------------------------------------------------------------- both, and their quota

  /** In every run of either store each Get answers what the last accepted Set of its key wrote,
      and nothing once the key was deleted. */
  lemma ReadsLastWrite(quota: int, ops: seq<Op>)
    ensures Right(ops, SqlRun(EMPTY_DB, quota, ops).1)
    ensures Right(ops, MemRun(map[], quota, ops).1)
  {
    hide Right;
    SqlStores(quota, ops);
    MemKeeps(quota, ops);
  }

  /** A quota of zero or less is no quota; otherwise memory refuses exactly the writes after which
      keys and values together would pass it, and SQLite judges the first write alike. */
  lemma QuotaIsOnKeysAndValues(db: Db, entries: Entries, quota: int, p: string, k: string, v: string)
    ensures quota <= 0 ==> SqlSet(db, quota, p, k, v).1 == MemSet(entries, quota, p, k, v).1 == Ok
    ensures quota > 0 ==> (MemSet(entries, quota, p, k, v).1 == QuotaExceeded <==> Total(Space(entries, p)[k := v]) > quota)
    ensures SqlSet(EMPTY_DB, quota, p, k, v).1 == Ok <==> quota <= 0 || |k| + |v| <= quota
  {
    hide SqlLength, Total;
    TotalWrite(Space(entries, p), k, v);
  }

  /** What counts is the bytes of each key and of its value. */
  lemma TotalIs(b: map<string, string>, k: string, v: string)
    requires k !in b
    ensures Total(map[]) == 0 && Total(b[k := v]) == Total(b) + |k| + |v|
  {
    TotalWrite(b, k, v);
  }

  /** On well-formed text without NUL, LENGTH counts characters. */
  lemma {:induction false} LengthCountsCharacters(s: string)
    requires ValidUtf8(s) && '\0' !in s
    ensures SqlLength(s) == |Decode(s)|
    decreases |s|
  {
    hide Width, Continuation, CodePoint;
    if s != [] {
      var n := Width(s);
      var rest := s[n..];
      WholeCharacter(s);
      assert '\0' !in rest;
      assert s[0] in s;
      LengthCountsCharacters(rest);
    }
  }

  lemma WholeCharacter(s: string)
    requires s != [] && ValidUtf8(s)
    ensures CharWidth(s) == Width(s) > 0 && ValidUtf8(s[Width(s)..])
  {
    var n := Width(s);
    if n > 1 {
      WideConts(s);
      assert s[n..] != [] ==> !IsCont(s[n..][0]);
      assert s[1..][n - 1..] == s[n..];
      assert forall i :: 0 <= i < n - 1 ==> s[1..][i] == s[i + 1];
      ContinuationIs(s[1..], n - 1);
    }
  }
}
