/** What single calls of the byte-capped filesystem do, in bytes. */
module QuotaLaws {
  import opened MapSums
  import opened Text
  import opened QuotaFs

  function Larger(a: int, b: int): int {
    if a > b then a else b
  }

  /** What the backing filesystem does to the file it is asked about; SizesSum says that it leaves
      the others alone. */
  lemma DiskDoes(sizes: map<File, nat>, op: Op, out: Outcome)
    requires Possible(sizes, op, out)
    ensures var f, after := op.file, SizesAfter(sizes, op, out);
            match op
            case WriteOp(_, at, _) =>
              f in after && after[f] == if out.moved == 0 then sizes[f]
                                        else Larger(sizes[f], (if at.Offset? then at.off else sizes[f]) + out.moved)
            case TruncateOp(_, size) => f in after && after[f] == if out.ok then size else sizes[f]
            case OpenOp(_, trunc) =>
              (f in after <==> f in sizes || (out.ok && out.creates)) &&
              (f in after ==> after[f] == if f in sizes && !(out.ok && trunc) then sizes[f] else 0)
            case UnlinkOp(_) => (f in after <==> f in sizes && !out.ok) && (f in after ==> after[f] == sizes[f])
  {
  }

  /** A call alone is refused exactly when the bytes it could add do not fit under the cap; opening
      and unlinking never are. */
  lemma RefusedIff(s: State, op: Op, statOk: bool, out: Outcome)
    requires Possible(s.sizes, op, out)
    ensures var seen := if statOk && op.file in s.sizes then s.sizes[op.file] else 0;
            Effect(s, op, statOk, out).1.QuotaExceeded? <==>
            match op
            case WriteOp(_, Offset(off), len) => off + len > seen && s.used + (off + len - seen) > s.max
            case WriteOp(_, AtEnd, len) => len > 0 && s.used + len > s.max
            case TruncateOp(_, size) => size > seen && s.used + (size - seen) > s.max
            case OpenOp(_, _) => false
            case UnlinkOp(_) => false
    ensures var (after, r) := Effect(s, op, statOk, out);
            if r.QuotaExceeded? then after == s else r == Done(out.moved, out.ok) && after.max == s.max
  {
  }

  lemma FileWithin(sizes: map<File, nat>, f: File)
    requires f in sizes
    ensures sizes[f] <= Sum(sizes)
  {
    SumRemove(sizes, f);
  }

  /** With a working measurement an accepted call charges exactly the bytes its file grows by, and
      gives back exactly those it frees; only a write of nothing past the end charges the gap. */
  lemma CallCharges(s: State, op: Op, out: Outcome, seed: int)
    requires Possible(s.sizes, op, out) && Inv(s, seed) && s.threads == map[0 := Idle]
    requires !Effect(s, op, true, out).1.QuotaExceeded?
    ensures var size: int := if op.file in s.sizes then s.sizes[op.file] else 0;
            Effect(s, op, true, out).0.used - s.used ==
            match op
            case WriteOp(_, Offset(off), _) => Larger(0, off + out.moved - size)
            case WriteOp(_, AtEnd, _) => out.moved
            case TruncateOp(_, to) => if out.ok then to - size else 0
            case OpenOp(_, trunc) => if out.ok && trunc then -size else 0
            case UnlinkOp(_) => if out.ok then -size else 0
  {
    hide Debts;
    if op.file in s.sizes { FileWithin(s.sizes, op.file); }
    assert Unreconciled(s.threads) == 0 by { IdleOwesNothing(s.threads); }
    assert s.used >= Sum(s.sizes);
  }
}
