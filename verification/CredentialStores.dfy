/** Both credentials stores driven by the same calls. */
module CredentialStores {
  import opened Credentials
  import opened CredentialsSqlite
  import opened CredentialsMemory

  /** Each reply is the one the operations before it call for. */
  ghost predicate AllAnswer(ops: seq<Op>, replies: seq<Reply>) {
    |replies| == |ops| && forall i :: 0 <= i < |ops| ==> Answers(Run(map[], ops[..i]), ops[i], replies[i])
  }

  lemma {:induction false} FreshAt(store: Store, ops: seq<Op>, i: nat)
    requires FreshRun(store, ops) && i < |ops|
    ensures FreshRun(store, ops[..i]) && Fresh(Run(store, ops[..i]), ops[i])
    decreases |ops|
  {
    hide Run, Fresh;
    var n := |ops| - 1;
    if i < n {
      FreshAt(store, ops[..n], i);
      assert ops[..n][..i] == ops[..i];
    }
  }

  lemma RunOneMore(store: Store, ops: seq<Op>, i: nat)
    requires i < |ops|
    ensures Run(store, ops[..i + 1]) == After(Run(store, ops[..i]), ops[i])
  {
    hide After;
    assert ops[..i + 1][..i] == ops[..i];
  }

  /** A run has one right sequence of replies. */
  lemma RepliesUnique(ops: seq<Op>, a: seq<Reply>, b: seq<Reply>)
    requires FreshRun(map[], ops) && AllAnswer(ops, a) && AllAnswer(ops, b)
    ensures a == b
  {
    hide Run, FreshRun, Answers, Inv, OneRowPerName;
    EmptyRun();
    forall i | 0 <= i < |ops|
      ensures a[i] == b[i]
    {
      FreshAt(map[], ops, i);
      RunKeepsInv(map[], ops[..i]);
      InvNames(Run(map[], ops[..i]));
      AnswersUnique(Run(map[], ops[..i]), ops[i], a[i], b[i]);
    }
  }

  /** For every sequence of operations the two stores give the same replies. */
  method RunBoth(sealer: Sealer, codec: Codec, ops: seq<Op>) returns (fromSql: seq<Reply>, fromMemory: seq<Reply>)
    requires Lawful(sealer, codec) && FreshRun(map[], ops)
    ensures AllAnswer(ops, fromSql) && fromMemory == fromSql
  {
    hide Lawful, Run, FreshRun, Answers, After, SqliteCredentials.Valid, MemoryCredentials.Valid;
    var sql := new SqliteCredentials(true, sealer, codec);
    var mem := new MemoryCredentials();
    fromSql, fromMemory := [], [];
    assert ops[..0] == [] && Run(map[], []) == map[] by { EmptyRun(); }
    for i := 0 to |ops|
      invariant sql.Valid() && mem.Valid() && sql.hasSealer
      invariant fresh(sql) && fresh(mem) && fresh(mem.slots) && fresh(mem.records)
      invariant sql.contents == Run(map[], ops[..i]) && mem.contents == Run(map[], ops[..i])
      invariant AllAnswer(ops[..i], fromSql) && AllAnswer(ops[..i], fromMemory)
    {
      FreshAt(map[], ops, i);
      RunOneMore(map[], ops, i);
      var a := sql.Do(ops[i]);
      var b := mem.Do(ops[i]);
      OneMoreAnswer(ops, i, fromSql, a);
      OneMoreAnswer(ops, i, fromMemory, b);
      fromSql, fromMemory := fromSql + [a], fromMemory + [b];
    }
    assert ops[..|ops|] == ops;
    RepliesUnique(ops, fromSql, fromMemory);
  }

  lemma EmptyRun()
    ensures Run(map[], []) == map[] && Inv(map[])
  {
  }

  lemma OneMoreAnswer(ops: seq<Op>, i: nat, replies: seq<Reply>, r: Reply)
    requires i < |ops| && AllAnswer(ops[..i], replies) && Answers(Run(map[], ops[..i]), ops[i], r)
    ensures AllAnswer(ops[..i + 1], replies + [r])
  {
    hide Run, Answers;
    var more := ops[..i + 1];
    forall j | 0 <= j < |more|
      ensures Answers(Run(map[], more[..j]), more[j], (replies + [r])[j])
    {
      assert more[..j] == ops[..j];
      if j < i {
        assert ops[..i][..j] == ops[..j];
      }
    }
  }
}
