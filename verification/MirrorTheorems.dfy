/** What the fan-out protocol guarantees to the primary request, to each mirror and to the pool,
    over every run, and the exact limits of those guarantees. */
module MirrorTheorems {
  import opened Common
  import opened Mirror
  import opened MirrorInvariant

  // ----- What Read returns -----

  /** What event `e` returns to the callers of reader `r`: the answer of its Read, if `e` completes one. */
  function Answer(s: State, e: Event, r: nat): seq<Byte>
    requires Enabled(s, e)
  {
    if e == Advance(r) && Next(s, e).1.Bytes? then Next(s, e).1.bytes else []
  }

  /** All bytes that the Reads of reader `r` have returned in a run, one after the other. */
  function Returned(readerCount: nat, evs: seq<Event>, r: nat): seq<Byte> {
    if evs == [] then
      []
    else
      var before, e := evs[..|evs| - 1], evs[|evs| - 1];
      match Execute(readerCount, before)
      case None => []
      case Some(s) => if Enabled(s, e) then Returned(readerCount, before, r) + Answer(s, e, r) else []
  }

  /** Every Read is answered, with bytes or the end, when it is over and not before. */
  lemma ReadsAreAnswered(s: State, e: Event, r: nat)
    requires Enabled(s, e) && r < |s.readers| && !s.readers[r].phase.Idle?
    ensures |Next(s, e).0.readers| == |s.readers|
    ensures Next(s, e).0.readers[r].phase.Idle? <==> e == Advance(r) && !Next(s, e).1.Silent?
  {
    if e.Write? || e.CloseBuffer? || e.r != r {
      OthersUntouched(s, e, r);
    } else if e.Advance? {
      StepIsAnswered(s, r);
    }
  }

  lemma StepIsAnswered(s: State, r: nat)
    requires Enabled(s, Advance(r)) && !s.readers[r].phase.Idle?
    ensures |Next(s, Advance(r)).0.readers| == |s.readers|
    ensures Next(s, Advance(r)).0.readers[r].phase.Idle? <==> !Next(s, Advance(r)).1.Silent?
  {
  }

  /** A Read reports the end exactly when it finds its reader closed, before it looks at the buffer or
      before it sleeps, finds its cursor gone, or has finished the reader itself. */
  lemma EndIsReported(s: State, r: nat)
    requires Enabled(s, Advance(r))
    ensures var rd := s.readers[r];
      Next(s, Advance(r)).1 == EOF <==>
        || ((rd.phase.CheckClose? || rd.phase.Wait?) && !rd.open)
        || (rd.phase.Load? && rd.i == -1)
        || (rd.phase.Finishing? && rd.fin.Done?)
  {
  }

  /** It finishes the reader when the buffer is closed and has nothing more for it, or when its Close
      wakes it up. */
  lemma FinishingBegins(s: State, e: Event, r: nat)
    requires Enabled(s, e) && r < |s.readers| && !s.readers[r].phase.Finishing?
    ensures |Next(s, e).0.readers| == |s.readers|
    ensures Next(s, e).0.readers[r].phase.Finishing? <==>
      || e == CloseWake(r)
      || (e == Advance(r) && s.readers[r].phase.Load? && s.readers[r].i != -1
          && s.readers[r].i >= s.sh.buf.offset + |s.sh.buf.data| && s.sh.buf.wait.None?)
  {
    if e.Write? || e.CloseBuffer? || e.r != r {
      OthersUntouched(s, e, r);
    }
  }

  /** How many bytes the latest Read of reader `r` asked for. */
  function Asked(evs: seq<Event>, r: nat): nat {
    if evs == [] then 0
    else if evs[|evs| - 1].StartRead? && evs[|evs| - 1].r == r then evs[|evs| - 1].want
    else Asked(evs[..|evs| - 1], r)
  }

  ghost predicate Wants(p: Phase, n: nat) {
    p.Idle? || p.Finishing? || p.want == n
  }

  lemma {:induction false} WantsAsAsked(readerCount: nat, evs: seq<Event>, r: nat)
    requires Execute(readerCount, evs).Some? && r < readerCount
    ensures |Execute(readerCount, evs).value.readers| == readerCount
    ensures Wants(Execute(readerCount, evs).value.readers[r].phase, Asked(evs, r))
    decreases |evs|
  {
    if evs != [] {
      WantsAsAsked(readerCount, evs[..|evs| - 1], r);
      WantsStep(Execute(readerCount, evs[..|evs| - 1]).value, evs[|evs| - 1], r, Asked(evs[..|evs| - 1], r));
    }
  }

  lemma WantsStep(s: State, e: Event, r: nat, n: nat)
    requires Enabled(s, e) && r < |s.readers| && Wants(s.readers[r].phase, n)
    ensures |Next(s, e).0.readers| == |s.readers|
    ensures Wants(Next(s, e).0.readers[r].phase, if e.StartRead? && e.r == r then e.want else n)
  {
    if e.Write? || e.CloseBuffer? || e.r != r {
      OthersUntouched(s, e, r);
    } else if e.Advance? {
      AdvanceWants(s, r, n);
    }
  }

  lemma AdvanceWants(s: State, r: nat, n: nat)
    requires Enabled(s, Advance(r)) && Wants(s.readers[r].phase, n)
    ensures |Next(s, Advance(r)).0.readers| == |s.readers|
    ensures Wants(Next(s, Advance(r)).0.readers[r].phase, n)
  {
  }

  /** A Read returns the front of its reader's pending data, as much as its caller asked for. */
  lemma AnswerIsFront(readerCount: nat, evs: seq<Event>, s: State, r: nat)
    requires Execute(readerCount, evs) == Some(s) && r < readerCount
    requires Enabled(s, Advance(r)) && Next(s, Advance(r)).1.Bytes?
    ensures |Next(s, Advance(r)).0.readers| == |s.readers|
    ensures |Answer(s, Advance(r), r)| == Min(Asked(evs, r), |s.readers[r].data|)
    ensures Answer(s, Advance(r), r) + Next(s, Advance(r)).0.readers[r].data == s.readers[r].data
  {
    WantsAsAsked(readerCount, evs, r);
    StepIsFront(s, r);
  }

  lemma StepIsFront(s: State, r: nat)
    requires Enabled(s, Advance(r)) && Next(s, Advance(r)).1.Bytes?
    ensures s.readers[r].phase.Copy? && |Next(s, Advance(r)).0.readers| == |s.readers|
    ensures |Answer(s, Advance(r), r)| == Min(s.readers[r].phase.want, |s.readers[r].data|)
    ensures Answer(s, Advance(r), r) + Next(s, Advance(r)).0.readers[r].data == s.readers[r].data
  {
  }

  /** A reader is open until somebody closes it. */
  lemma {:induction false} OpenUntilClosed(readerCount: nat, evs: seq<Event>, r: nat)
    requires Execute(readerCount, evs).Some? && r < readerCount
    ensures |Execute(readerCount, evs).value.readers| == readerCount
    ensures Execute(readerCount, evs).value.readers[r].open <==> CloseReader(r) !in evs
    decreases |evs|
  {
    if evs != [] {
      OpenUntilClosed(readerCount, evs[..|evs| - 1], r);
      OpenStep(Execute(readerCount, evs[..|evs| - 1]).value, evs[|evs| - 1], r);
    }
  }

  lemma OpenStep(s: State, e: Event, r: nat)
    requires Enabled(s, e) && r < |s.readers|
    ensures |Next(s, e).0.readers| == |s.readers|
    ensures Next(s, e).0.readers[r].open <==> s.readers[r].open && e != CloseReader(r)
  {
    if e.Write? || e.CloseBuffer? || e.r != r {
      OthersUntouched(s, e, r);
    } else if e.Advance? {
      AdvanceKeepsClosed(s, r);
    }
  }

  lemma AdvanceKeepsClosed(s: State, r: nat)
    requires Enabled(s, Advance(r))
    ensures |Next(s, Advance(r)).0.readers| == |s.readers|
    ensures Next(s, Advance(r)).0.readers[r].open == s.readers[r].open
  {
  }

  lemma AnswerIsDelivered(s: State, e: Event, r: nat)
    requires Enabled(s, e) && r < |s.readers|
    ensures |Next(s, e).0.readers| == |s.readers|
    ensures Next(s, e).0.readers[r].delivered == s.readers[r].delivered + Answer(s, e, r)
  {
    if e == Advance(r) {
      StepIsDelivered(s, r);
    } else {
      assert s.readers[r].delivered + [] == s.readers[r].delivered;
    }
  }

  lemma StepIsDelivered(s: State, r: nat)
    requires Enabled(s, Advance(r))
    ensures |Next(s, Advance(r)).0.readers| == |s.readers|
    ensures Next(s, Advance(r)).0.readers[r].delivered == s.readers[r].delivered + Answer(s, Advance(r), r)
  {
    assert s.readers[r].delivered + [] == s.readers[r].delivered;
  }

  /** The history that the invariant speaks of is what Read returned. */
  lemma {:induction false} ReturnedIsDelivered(readerCount: nat, evs: seq<Event>, r: nat)
    requires Execute(readerCount, evs).Some? && r < readerCount
    ensures |Execute(readerCount, evs).value.readers| == readerCount
    ensures Execute(readerCount, evs).value.readers[r].delivered == Returned(readerCount, evs, r)
    decreases |evs|
  {
    if evs != [] {
      ReturnedIsDelivered(readerCount, evs[..|evs| - 1], r);
      AnswerIsDelivered(Execute(readerCount, evs[..|evs| - 1]).value, evs[|evs| - 1], r);
    }
  }

  lemma RunReturns(readerCount: nat, evs: seq<Event>, r: nat)
    requires Run(readerCount, evs).Some? && r < readerCount
    ensures |Run(readerCount, evs).value.readers| == readerCount
    ensures Run(readerCount, evs).value.readers[r].delivered == Returned(readerCount, evs, r)
  {
    RunsAreSafe(readerCount, evs);
    ReturnedIsDelivered(readerCount, evs, r);
  }

  // ----- Delivery -----

  /** What the Reads of a mirror have returned is a prefix of what was written: nothing lost, repeated
      or reordered, whatever the interleaving and however often the offset moved. */
  lemma MirrorsSeePrefix(readerCount: nat, evs: seq<Event>, r: nat)
    requires Run(readerCount, evs).Some? && r < readerCount
    ensures Returned(readerCount, evs, r) <= Flatten(Run(readerCount, evs).value.sh.written)
  {
    RunKeeps(readerCount, evs);
    RunReturns(readerCount, evs, r);
    var s := Run(readerCount, evs).value;
    var rd := s.readers[r];
    FlattenPrefix(s.sh.written, rd.taken);
    SplitInTwo(rd.delivered, rd.data, 0);
  }

  /** A live mirror has been returned, or holds pending, exactly the segments before its cursor. */
  lemma LiveReadersAreExact(readerCount: nat, evs: seq<Event>, r: nat)
    requires Run(readerCount, evs).Some? && r < readerCount
    ensures var s := Run(readerCount, evs).value;
      && |s.readers| == readerCount
      && (Live(s.readers[r]) && !HoldsLock(s.readers[r]) ==>
            && 0 <= s.readers[r].i <= |s.sh.written|
            && Returned(readerCount, evs, r) + s.readers[r].data == Flatten(s.sh.written[..s.readers[r].i]))
  {
    RunKeeps(readerCount, evs);
    RunReturns(readerCount, evs, r);
    var s := Run(readerCount, evs).value;
    assert ReaderInv(s.sh, s.readers[r]);
  }

  /** A Read that reports the end to a reader nobody closed comes after Reads that returned every
      segment written before the buffer was closed. */
  lemma EndMeansEverything(readerCount: nat, evs: seq<Event>, r: nat)
    requires Run(readerCount, evs).Some? && r < readerCount
    requires Enabled(Run(readerCount, evs).value, Advance(r))
    requires Next(Run(readerCount, evs).value, Advance(r)).1 == EOF
    requires Run(readerCount, evs).value.readers[r].open
    ensures var s := Run(readerCount, evs).value;
      && s.sh.buf.wait.None? && s.sh.closedAt.Some? && !Live(s.readers[r])
      && s.sh.closedAt.value <= s.readers[r].taken <= |s.sh.written|
      && Returned(readerCount, evs, r) == Flatten(s.sh.written[..s.readers[r].taken])
      && (s.sh.closedAt.value == |s.sh.written| ==> Returned(readerCount, evs, r) == Flatten(s.sh.written))
  {
    RunKeeps(readerCount, evs);
    RunReturns(readerCount, evs, r);
    EndState(Run(readerCount, evs).value, r);
  }

  lemma EndState(s: State, r: nat)
    requires Inv(s) && Enabled(s, Advance(r)) && Next(s, Advance(r)).1 == EOF && s.readers[r].open
    ensures s.sh.buf.wait.None? && s.sh.closedAt.Some? && !Live(s.readers[r])
    ensures s.sh.closedAt.value <= s.readers[r].taken <= |s.sh.written|
    ensures s.readers[r].delivered == Flatten(s.sh.written[..s.readers[r].taken])
    ensures s.sh.closedAt.value == |s.sh.written| ==> s.readers[r].delivered == Flatten(s.sh.written)
  {
    var rd := s.readers[r];
    assert ReaderInv(s.sh, rd);
    assert rd.phase.Load? || rd.phase.Finishing?;
    SplitInTwo(rd.delivered, rd.data, 0);
    assert s.sh.written[..|s.sh.written|] == s.sh.written;
  }

  /** No lost wake-up: a live reader that sleeps on a channel nobody has closed has already been
      returned every byte written. */
  lemma SleepersHaveEverything(readerCount: nat, evs: seq<Event>, r: nat)
    requires Run(readerCount, evs).Some? && r < readerCount
    ensures var s := Run(readerCount, evs).value;
      && |s.readers| == readerCount
      && (s.readers[r].phase.Select? && Live(s.readers[r]) && s.sh.buf.wait == Some(s.readers[r].phase.gen) ==>
            Returned(readerCount, evs, r) == Flatten(s.sh.written))
  {
    RunKeeps(readerCount, evs);
    RunReturns(readerCount, evs, r);
    var s := Run(readerCount, evs).value;
    var rd := s.readers[r];
    assert ReaderInv(s.sh, rd);
    SplitInTwo(rd.delivered, rd.data, 0);
    assert s.sh.written[..|s.sh.written|] == s.sh.written;
  }

  // ----- The pool -----

  /** Segments go back to the pool once each, in write order, and only after every live cursor
      has passed them; no slice index is ever out of range. */
  lemma PoolGetsPassedSegments(readerCount: nat, evs: seq<Event>)
    requires Run(readerCount, evs).Some?
    ensures var s := Run(readerCount, evs).value;
      && !s.sh.crashed
      && s.sh.base <= |s.sh.written|
      && s.sh.buf.pooled == s.sh.written[..s.sh.base]
      && s.sh.buf.data == s.sh.written[s.sh.base..]
      && (forall r :: 0 <= r < |s.readers| && Live(s.readers[r]) ==> s.sh.base <= s.readers[r].i)
      && (!s.sh.reset ==> forall r :: 0 <= r < |s.readers| && Live(s.readers[r]) ==>
            s.sh.buf.offset <= s.readers[r].i <= s.sh.buf.offset + |s.sh.buf.data|)
  {
    RunKeeps(readerCount, evs);
    var s := Run(readerCount, evs).value;
    forall r | 0 <= r < |s.readers| && Live(s.readers[r])
      ensures s.sh.base <= s.readers[r].i
      ensures !s.sh.reset ==> s.sh.buf.offset <= s.readers[r].i <= s.sh.buf.offset + |s.sh.buf.data|
    {
      assert ReaderInv(s.sh, s.readers[r]);
    }
  }

  /** The `k`th segment written is back in the pool. */
  predicate InPool(sh: Shared, k: int) {
    0 <= k < |sh.written| && k < |sh.buf.pooled| && sh.buf.pooled[k] == sh.written[k]
  }

  /** The cursor is past a segment as soon as the segment is taken, so reclaiming can hand the pool a
      segment whose bytes a live reader still has pending.  It does so exactly when that reader's
      cursor is the least one the scan has loaded, that is, when the reader is among the slowest. */
  lemma PooledWhilePending(readerCount: nat, evs: seq<Event>, s: State, x: nat, r: nat)
    requires Run(readerCount, evs) == Some(s)
    requires Enabled(s, Finish(x)) && s.readers[x].fin.Cleared?
    requires s.scan.Some? && |s.scan.value.seen| == |s.readers|
    requires r < |s.readers| && Live(s.readers[r]) && s.readers[r].data != []
    requires |s.sh.buf.pooled| < s.readers[r].taken
    ensures var s' := Next(s, Finish(x)).0;
      && !InPool(s.sh, s.readers[r].taken - 1)
      && (InPool(s'.sh, s.readers[r].taken - 1) <==> Least(s.scan.value.seen) == Some(s.readers[r].i))
      && |s'.readers| == |s.readers| && s'.readers[r] == s.readers[r]
  {
    RunKeeps(readerCount, evs);
    ScanFinds(s, r);
    ReclaimPoolsPending(s, x, r);
  }

  lemma ReclaimPoolsPending(s: State, x: nat, r: nat)
    requires Enabled(s, Finish(x)) && s.readers[x].fin.Cleared?
    requires s.scan.Some? && |s.scan.value.seen| == |s.readers|
    requires r < |s.readers| && Live(s.readers[r]) && |s.sh.buf.pooled| < s.readers[r].taken
    requires SharedInv(s.sh) && Positions(s.sh, s.readers[r]) && !HoldsLock(s.readers[r])
    requires LeastOk(s.sh, Least(s.scan.value.seen)) && NotBelow(s.readers[r], Least(s.scan.value.seen))
    ensures var s' := Next(s, Finish(x)).0;
      && !InPool(s.sh, s.readers[r].taken - 1)
      && (InPool(s'.sh, s.readers[r].taken - 1) <==> Least(s.scan.value.seen) == Some(s.readers[r].i))
      && |s'.readers| == |s.readers| && s'.readers[r] == s.readers[r]
  {
    PooledIfSlowest(s.sh, s.readers[r], Least(s.scan.value.seen));
  }

  lemma ScanFinds(s: State, r: nat)
    requires Inv(s) && s.scan.Some? && |s.scan.value.seen| == |s.readers| && r < |s.readers|
    ensures SharedInv(s.sh) && Positions(s.sh, s.readers[r]) && !HoldsLock(s.readers[r])
    ensures LeastOk(s.sh, Least(s.scan.value.seen)) && NotBelow(s.readers[r], Least(s.scan.value.seen))
  {
    assert ReaderInv(s.sh, s.readers[r]);
    LeastSeenOk(s, s.scan.value);
  }

  lemma PooledIfSlowest(sh: Shared, rd: Reader, least: Option<int>)
    requires SharedInv(sh) && Positions(sh, rd) && LeastOk(sh, least) && NotBelow(rd, least)
    requires Live(rd) && !HoldsLock(rd) && |sh.buf.pooled| < rd.taken
    ensures InPool(ReclaimShared(sh, least), rd.taken - 1) <==> least == Some(rd.i)
  {
    BehindMeansBuffered(sh, rd);
    PoolAfterReclaim(sh, least, rd.taken - 1);
  }

  lemma BehindMeansBuffered(sh: Shared, rd: Reader)
    requires SharedInv(sh) && Positions(sh, rd)
    requires Live(rd) && !HoldsLock(rd) && |sh.buf.pooled| < rd.taken
    ensures !sh.reset && !sh.buf.isNil && sh.base < rd.taken == rd.i <= |sh.written|
  {
  }

  /** Reclaiming extends the pool up to the least live cursor, and no further. */
  lemma PoolAfterReclaim(sh: Shared, least: Option<int>, k: int)
    requires SharedInv(sh) && least.Some? && LeastOk(sh, least)
    requires !sh.reset && !sh.buf.isNil
    ensures InPool(ReclaimShared(sh, least), k) <==> 0 <= k < |sh.written| && (k < sh.base || k < least.value)
  {
    ReclaimKeepsShared(sh, least);
    BaseAfterReclaim(sh, least);
  }

  lemma BaseAfterReclaim(sh: Shared, least: Option<int>)
    requires SharedInv(sh) && least.Some? && LeastOk(sh, least)
    requires !sh.reset && !sh.buf.isNil
    ensures ReclaimShared(sh, least).base == if least.value > sh.base then least.value else sh.base
    ensures ReclaimShared(sh, least).written == sh.written
  {
    assert |sh.buf.data| == |sh.written| - sh.base;
  }

  /** Every cursor that a scan loads is -1 or within the buffer's ends, whatever readers do meanwhile. */
  lemma CursorsInRange(readerCount: nat, evs: seq<Event>)
    requires Run(readerCount, evs).Some?
    ensures var s := Run(readerCount, evs).value;
      && (Unlocked(s) && !s.sh.buf.isNil ==> forall r :: 0 <= r < |s.readers| ==>
            -1 <= s.readers[r].i <= s.sh.buf.offset + |s.sh.buf.data|)
      && (s.scan.Some? ==> forall r :: 0 <= r < |s.scan.value.seen| ==>
            -1 <= s.scan.value.seen[r] <= s.sh.buf.offset + |s.sh.buf.data|)
  {
    RunKeeps(readerCount, evs);
    var s := Run(readerCount, evs).value;
    forall r | Unlocked(s) && !s.sh.buf.isNil && 0 <= r < |s.readers|
      ensures -1 <= s.readers[r].i <= s.sh.buf.offset + |s.sh.buf.data|
    {
      assert ReaderInv(s.sh, s.readers[r]);
      CursorIsOk(s.sh, s.readers[r]);
    }
    forall r | s.scan.Some? && 0 <= r < |s.scan.value.seen|
      ensures -1 <= s.scan.value.seen[r] <= s.sh.buf.offset + |s.sh.buf.data|
    {
      assert Loaded(s.sh, s.readers[r], s.scan.value.seen[r]);
    }
  }

  // ----- Writes after Close -----

  ghost predicate SafeWrites(readerCount: nat, evs: seq<Event>) {
    forall k {:trigger evs[k]} :: 0 <= k < |evs| && evs[k].Write? ==>
      Execute(readerCount, evs[..k]).Some? && WriteSafe(Execute(readerCount, evs[..k]).value)
  }

  /** The runs that the delivery theorems speak of are those in which every Write is safe. */
  lemma {:induction false} RunsAreSafe(readerCount: nat, evs: seq<Event>)
    ensures Run(readerCount, evs) == if SafeWrites(readerCount, evs) then Execute(readerCount, evs) else None
    decreases |evs|
  {
    if evs != [] {
      RunsAreSafe(readerCount, evs[..|evs| - 1]);
      SafeWritesStep(readerCount, evs);
    }
  }

  lemma SafeWritesStep(readerCount: nat, evs: seq<Event>)
    requires evs != []
    ensures var n := |evs| - 1;
      SafeWrites(readerCount, evs) <==> SafeWrites(readerCount, evs[..n]) && (evs[n].Write? ==>
        Execute(readerCount, evs[..n]).Some? && WriteSafe(Execute(readerCount, evs[..n]).value))
  {
    var n := |evs| - 1;
    var before := evs[..n];
    assert forall k {:trigger evs[k]} {:trigger before[k]} :: 0 <= k < n ==> before[k] == evs[k] && before[..k] == evs[..k];
  }

  /** While the buffer is open a Write is always safe. */
  lemma OpenMeansWriteSafe(readerCount: nat, evs: seq<Event>)
    requires Run(readerCount, evs).Some?
    ensures Run(readerCount, evs).value.sh.buf.wait.Some? ==> WriteSafe(Run(readerCount, evs).value)
  {
    RunKeeps(readerCount, evs);
    var s := Run(readerCount, evs).value;
    forall r | 0 <= r < |s.readers| && Live(s.readers[r]) && s.sh.buf.wait.Some?
      ensures s.readers[r].i <= s.sh.buf.offset + |s.sh.buf.data|
    {
      assert ReaderInv(s.sh, s.readers[r]);
    }
  }

  /** The states in which it is not: the buffer was closed, drained and reset, it is nil again, and
      some reader has yet to find out. */
  lemma UnsafeMeansReset(readerCount: nat, evs: seq<Event>)
    requires Run(readerCount, evs).Some?
    ensures var s := Run(readerCount, evs).value;
      && (!WriteSafe(s) <==> s.sh.buf.isNil && s.sh.reset && exists r :: 0 <= r < |s.readers| && Live(s.readers[r]))
      && (s.sh.reset ==> s.sh.closedAt.Some? && s.sh.buf.wait.None?)
  {
    RunKeeps(readerCount, evs);
    var s := Run(readerCount, evs).value;
    forall r | 0 <= r < |s.readers| && Live(s.readers[r])
      ensures s.readers[r].i > s.sh.buf.offset + |s.sh.buf.data| <==> s.sh.buf.isNil && s.sh.reset
    {
      assert ReaderInv(s.sh, s.readers[r]);
    }
  }

  /** A reader for which the buffer says "end" although a later segment was written. */
  ghost predicate Deprived(s: State, r: nat) {
    && r < |s.readers| && Live(s.readers[r])
    && s.readers[r].taken < |s.sh.written|
    && Fetch(s.sh.buf, s.readers[r].i) == Starved(None)
  }

  /** A Write deprives some reader of its bytes if and only if some live cursor is already past
      the end of the buffer, which takes a buffer that was closed, drained and reset. */
  lemma UnsafeWriteDeprives(readerCount: nat, evs: seq<Event>, p: Segment)
    requires Run(readerCount, evs).Some?
    requires Enabled(Run(readerCount, evs).value, Write(p))
    ensures var s := Run(readerCount, evs).value;
      !WriteSafe(s) <==> exists r: nat :: Deprived(Next(s, Write(p)).0, r)
  {
    RunKeeps(readerCount, evs);
    var s := Run(readerCount, evs).value;
    var s' := Next(s, Write(p)).0;
    if !WriteSafe(s) {
      var r :| 0 <= r < |s.readers| && Live(s.readers[r]) && s.readers[r].i > s.sh.buf.offset + |s.sh.buf.data|;
      assert ReaderInv(s.sh, s.readers[r]);
      assert Deprived(s', r);
    } else {
      WriteEventKeeps(s, p);
      forall r: nat | r < |s'.readers|
        ensures !Deprived(s', r)
      {
        assert ReaderInv(s'.sh, s'.readers[r]);
      }
    }
  }

  // ----- A Close that races with its own reader's Read -----

  /** The event that starts the trouble: finish() stores -1 in the cursor of a reader whose own Read
      stands between its cursor load and its cursor increment. */
  predicate RaceEvent(s: State, e: Event, r: nat) {
    e == Finish(r) && r < |s.readers| && Live(s.readers[r]) && HoldsLock(s.readers[r])
  }

  /** Somewhere in the run that happened to reader `r`. */
  ghost predicate RacedDuring(readerCount: nat, evs: seq<Event>, r: nat) {
    exists k :: 0 <= k < |evs| && RacedAt(readerCount, evs, k, r)
  }

  ghost predicate RacedAt(readerCount: nat, evs: seq<Event>, k: nat, r: nat)
    requires k < |evs|
  {
    Run(readerCount, evs[..k]).Some? && RaceEvent(Run(readerCount, evs[..k]).value, evs[k], r)
  }

  /** What the race leaves in the reader. */
  predicate RaceMark(rd: Reader) {
    !Live(rd) && (HoldsLock(rd) || rd.i == 0)
  }

  lemma RaceMarkStep(s: State, e: Event, r: nat)
    requires Inv(s) && Enabled(s, e) && r < |s.readers|
    ensures |Next(s, e).0.readers| == |s.readers|
    ensures RaceMark(Next(s, e).0.readers[r]) <==> RaceMark(s.readers[r]) || RaceEvent(s, e, r)
  {
    if e.Write? || e.CloseBuffer? || e.r != r {
      OthersUntouched(s, e, r);
    } else if e.Advance? {
      assert ReaderInv(s.sh, s.readers[r]);
      AdvanceKeeps(s.sh, s.readers[r]);
      AdvanceKeepsMark(s.sh, s.readers[r]);
    } else {
      OwnEventMarks(s, e, r);
    }
  }

  lemma OwnEventMarks(s: State, e: Event, r: nat)
    requires Enabled(s, e) && r < |s.readers| && !e.Write? && !e.CloseBuffer? && !e.Advance? && e.r == r
    ensures |Next(s, e).0.readers| == |s.readers|
    ensures RaceMark(Next(s, e).0.readers[r]) <==> RaceMark(s.readers[r]) || RaceEvent(s, e, r)
  {
  }

  lemma OthersUntouched(s: State, e: Event, r: nat)
    requires Enabled(s, e) && r < |s.readers| && (e.Write? || e.CloseBuffer? || e.r != r)
    ensures |Next(s, e).0.readers| == |s.readers| && Next(s, e).0.readers[r] == s.readers[r]
  {
  }

  lemma AdvanceKeepsMark(sh: Shared, rd: Reader)
    requires Positions(sh, rd)
    requires rd.phase.Take? ==> 0 <= rd.phase.k - sh.buf.offset < |sh.buf.data|
    ensures RaceMark(ReadStep(sh.buf, rd).0) <==> RaceMark(rd)
  {
  }

  /** Over every run: the mark is there if and only if the race happened. */
  lemma {:induction false} RaceLeavesMark(readerCount: nat, evs: seq<Event>, r: nat)
    requires Run(readerCount, evs).Some? && r < readerCount
    ensures |Run(readerCount, evs).value.readers| == readerCount
    ensures RaceMark(Run(readerCount, evs).value.readers[r]) <==> RacedDuring(readerCount, evs, r)
    decreases |evs|
  {
    RunKeeps(readerCount, evs);
    if evs != [] {
      var n := |evs| - 1;
      var before := evs[..n];
      RunKeeps(readerCount, before);
      RaceLeavesMark(readerCount, before, r);
      RaceMarkStep(Run(readerCount, before).value, evs[n], r);
      RacedDuringStep(readerCount, evs, r);
    }
  }

  lemma RacedDuringStep(readerCount: nat, evs: seq<Event>, r: nat)
    requires evs != []
    ensures RacedDuring(readerCount, evs, r) <==>
      RacedDuring(readerCount, evs[..|evs| - 1], r) || RacedAt(readerCount, evs, |evs| - 1, r)
  {
    var n := |evs| - 1;
    if RacedDuring(readerCount, evs[..n], r) {
      var k: nat :| k < n && RacedAt(readerCount, evs[..n], k, r);
      RacedEarlier(readerCount, evs, k, r);
    }
    if RacedDuring(readerCount, evs, r) && !RacedAt(readerCount, evs, n, r) {
      var k: nat :| k < |evs| && RacedAt(readerCount, evs, k, r);
      RacedEarlier(readerCount, evs, k, r);
    }
  }

  lemma RacedEarlier(readerCount: nat, evs: seq<Event>, k: nat, r: nat)
    requires k < |evs| - 1
    ensures RacedAt(readerCount, evs, k, r) <==> RacedAt(readerCount, evs[..|evs| - 1], k, r)
  {
    assert evs[..|evs| - 1][..k] == evs[..k];
  }

  /** When the last finish() completes, the whole buffer is free if and only if in the run so far no
      reader's finish() fell between its own cursor load and its cursor increment. */
  lemma FreedUnlessRaced(readerCount: nat, evs: seq<Event>, s: State, x: nat)
    requires Run(readerCount, evs) == Some(s)
    requires Enabled(s, Finish(x)) && Next(s, Finish(x)).0.readers[x].fin.Done?
    requires forall r :: 0 <= r < |s.readers| && r != x ==> s.readers[r].fin.Done?
    ensures Next(s, Finish(x)).0.sh.buf.isNil <==> forall r: nat :: r < readerCount ==> !RacedDuring(readerCount, evs, r)
  {
    RunKeeps(readerCount, evs);
    FinishesFromCleared(s, x);
    LastReclaimFrees(s, x);
    forall r: nat | r < readerCount
      ensures s.readers[r].i == -1 <==> !RacedDuring(readerCount, evs, r)
    {
      FinishedCursor(readerCount, evs, s, r);
    }
  }

  lemma FinishedCursor(readerCount: nat, evs: seq<Event>, s: State, r: nat)
    requires Run(readerCount, evs) == Some(s) && Inv(s)
    requires r < readerCount == |s.readers| && !Live(s.readers[r]) && !HoldsLock(s.readers[r])
    ensures s.readers[r].i == -1 <==> !RacedDuring(readerCount, evs, r)
  {
    assert ReaderInv(s.sh, s.readers[r]);
    RaceLeavesMark(readerCount, evs, r);
  }

  /** The last reclaim frees everything exactly when every cursor is -1. */
  lemma LastReclaimFrees(s: State, x: nat)
    requires Inv(s) && Enabled(s, Finish(x)) && Next(s, Finish(x)).0.readers[x].fin.Done?
    requires forall r :: 0 <= r < |s.readers| && r != x ==> s.readers[r].fin.Done?
    ensures Next(s, Finish(x)).0.sh.buf.isNil <==> forall r :: 0 <= r < |s.readers| ==> s.readers[r].i == -1
  {
    FinishesFromCleared(s, x);
    CursorsOfFinished(s, x);
    if s.scan.Some? {
      LastScan(s, x);
      FreedUnlessZero(s.sh, s.scan.value.seen);
    }
  }

  lemma CursorsOfFinished(s: State, x: nat)
    requires Inv(s) && x < |s.readers| && s.readers[x].fin.Cleared?
    requires forall r :: 0 <= r < |s.readers| && r != x ==> s.readers[r].fin.Done?
    ensures forall r :: 0 <= r < |s.readers| ==> s.readers[r].i == -1 || (s.readers[r].i == 0 && !s.sh.reset && !s.sh.buf.isNil)
  {
    forall r | 0 <= r < |s.readers|
      ensures s.readers[r].i == -1 || (s.readers[r].i == 0 && !s.sh.reset && !s.sh.buf.isNil)
    {
      assert ReaderInv(s.sh, s.readers[r]);
    }
  }

  lemma FinishesFromCleared(s: State, x: nat)
    requires Inv(s) && Enabled(s, Finish(x)) && Next(s, Finish(x)).0.readers[x].fin.Done?
    ensures s.readers[x].fin.Cleared? && NoReadLock(s)
    ensures s.scan.None? ==> s.sh.buf.isNil
    ensures s.scan.Some? ==> s.scan.value.owner == x && |s.scan.value.seen| == |s.readers| && !s.sh.buf.isNil
    ensures Next(s, Finish(x)).0.sh == if s.scan.None? then s.sh else ReclaimShared(s.sh, Least(s.scan.value.seen))
  {
  }

  lemma LastScan(s: State, x: nat)
    requires Inv(s) && s.scan.Some? && s.scan.value.owner == x && |s.scan.value.seen| == |s.readers|
    requires forall r :: 0 <= r < |s.readers| && r != x ==> s.readers[r].fin.Done?
    ensures forall r :: 0 <= r < |s.readers| ==> s.scan.value.seen[r] == s.readers[r].i
  {
    forall r | 0 <= r < |s.readers|
      ensures s.scan.value.seen[r] == s.readers[r].i
    {
      assert Loaded(s.sh, s.readers[r], s.scan.value.seen[r]);
    }
  }

  lemma FreedUnlessZero(sh: Shared, cursors: seq<int>)
    requires SharedInv(sh) && !sh.buf.isNil
    requires forall r :: 0 <= r < |cursors| ==> cursors[r] == 0 || cursors[r] == -1
    requires sh.reset ==> forall r :: 0 <= r < |cursors| ==> cursors[r] == -1
    ensures ReclaimShared(sh, Least(cursors)).buf.isNil <==> forall r :: 0 <= r < |cursors| ==> cursors[r] == -1
  {
  }

  /** The state after more events, or None as in Run. */
  function RunOn(s: State, evs: seq<Event>): Option<State> {
    if evs == [] then
      Some(s)
    else
      match RunOn(s, evs[..|evs| - 1])
      case None => None
      case Some(t) =>
        var e := evs[|evs| - 1];
        if Enabled(t, e) && (e.Write? ==> WriteSafe(t)) then Some(Next(t, e).0) else None
  }

  /** The cursor of 0 that the race leaves once the Read has finished its increment. */
  ghost predicate HasRaced(s: State, r: nat) {
    Inv(s) && r < |s.readers| && Raced(s.sh, s.readers[r])
  }

  /** Once a reader has raced, nothing is ever freed again, whatever happens. */
  lemma {:induction false} RacedLeaksForever(s: State, evs: seq<Event>, r: nat)
    requires HasRaced(s, r) && RunOn(s, evs).Some?
    ensures HasRaced(RunOn(s, evs).value, r)
    ensures RunOn(s, evs).value.sh.buf.pooled == s.sh.buf.pooled
    decreases |evs|
  {
    if evs != [] {
      RacedLeaksForever(s, evs[..|evs| - 1], r);
      RacedStaysRaced(RunOn(s, evs[..|evs| - 1]).value, evs[|evs| - 1], r);
    }
  }

  lemma RacedStaysRaced(s: State, e: Event, r: nat)
    requires HasRaced(s, r) && Enabled(s, e) && (e.Write? ==> WriteSafe(s))
    ensures HasRaced(Next(s, e).0, r)
    ensures Next(s, e).0.sh.buf.pooled == s.sh.buf.pooled
  {
    NextKeeps(s, e);
    RacedStep(s, e, r);
  }

  lemma RacedStep(s: State, e: Event, r: nat)
    requires HasRaced(s, r) && Enabled(s, e)
    ensures |Next(s, e).0.readers| == |s.readers|
    ensures Raced(Next(s, e).0.sh, Next(s, e).0.readers[r])
    ensures Next(s, e).0.sh.buf.pooled == s.sh.buf.pooled
  {
    RacedShared(s, e, r);
    if e.Write? || e.CloseBuffer? || e.r != r {
      OthersUntouched(s, e, r);
    } else {
      assert ReaderInv(s.sh, s.readers[r]);
      AdvanceKeeps(s.sh, s.readers[r]);
      RacedAdvances(s.sh.buf, s.readers[r]);
    }
  }

  lemma RacedShared(s: State, e: Event, r: nat)
    requires HasRaced(s, r) && Enabled(s, e)
    ensures Next(s, e).0.sh.reset == s.sh.reset && Next(s, e).0.sh.written != []
    ensures Next(s, e).0.sh.buf.pooled == s.sh.buf.pooled
  {
    match e {
      case Finish(x) => RacedPinsBuffer(s, x, r);
      case _ =>
    }
  }

  /** A raced reader's own Reads lead out of Read without touching the cursor. */
  lemma RacedAdvances(b: Buffer, rd: Reader)
    requires !Live(rd) && !rd.open && !rd.phase.Load? && !HoldsLock(rd)
    ensures var rd' := ReadStep(b, rd).0;
      rd'.i == rd.i && !Live(rd') && !rd'.open && !rd'.phase.Load? && !HoldsLock(rd')
  {
  }

  lemma RacedPinsBuffer(s: State, x: nat, r: nat)
    requires Inv(s) && Enabled(s, Finish(x))
    requires r < |s.readers| && Raced(s.sh, s.readers[r])
    ensures Next(s, Finish(x)).0.sh == s.sh
  {
    if s.readers[x].fin.Cleared? && s.scan.Some? && |s.scan.value.seen| == |s.readers| {
      var seen := s.scan.value.seen;
      assert Loaded(s.sh, s.readers[r], seen[r]);
      assert seen[r] == 0;
      assert Least(seen).Some? && Least(seen).value <= 0;
      LeastSeenOk(s, s.scan.value);
      assert s.sh.base + |s.sh.buf.data| == |s.sh.written|;
    }
  }

  // ----- Runs that reach those limits -----

  lemma Do(readerCount: nat, evs: seq<Event>, s: State, e: Event) returns (evs': seq<Event>, s': State)
    requires Run(readerCount, evs) == Some(s)
    requires Enabled(s, e) && (e.Write? ==> WriteSafe(s))
    ensures s' == Next(s, e).0
    ensures Run(readerCount, evs') == Some(s')
  {
    evs', s' := evs + [e], Next(s, e).0;
    assert evs'[..|evs|] == evs;
  }

  /** A two-byte segment is written and the first of two readers gets ready to take it. */
  lemma FirstReaderAtSegment() returns (evs: seq<Event>, s: State)
    ensures Run(2, evs) == Some(s)
    ensures s == State(OneSegment(), [Reader(0, [], true, NotStarted, Take(2, 0), 0, []), NewReader()], None)
  {
    evs, s := [], Init(2);
    assert s.readers == [NewReader(), NewReader()];
    evs, s := Do(2, evs, s, Write([7, 8]));
    evs, s := Do(2, evs, s, StartRead(0, 2));
    assert s == State(OneSegment(), [NewReader().(phase := Head(2)), NewReader()], None);
    evs, s := FirstReaderLoads(evs, s);
    evs, s := Do(2, evs, s, Advance(0));
  }

  function OneSegment(): Shared {
    Shared(Buffer([[7, 8]], false, Some(1), 0, []), [[7, 8]], 0, false, None, false)
  }

  lemma FirstReaderLoads(evs0: seq<Event>, s0: State) returns (evs: seq<Event>, s: State)
    requires Run(2, evs0) == Some(s0)
    requires |s0.readers| == 2 && s0.readers[0].phase == Head(2) && s0.readers[0].data == [] && s0.readers[0].open
    ensures Run(2, evs) == Some(s)
    ensures s == s0.(readers := [s0.readers[0].(phase := Load(2)), s0.readers[1]])
  {
    evs, s := Do(2, evs0, s0, Advance(0));
    evs, s := Do(2, evs, s, Advance(0));
    evs, s := Do(2, evs, s, Advance(0));
  }

  /** The second reader is closed and begins to finish. */
  lemma SecondReaderCloses(evs0: seq<Event>, s0: State) returns (evs: seq<Event>, s: State)
    requires Run(2, evs0) == Some(s0)
    requires |s0.readers| == 2 && s0.readers[1] == NewReader()
    ensures Run(2, evs) == Some(s)
    ensures s == s0.(readers := [s0.readers[0], Reader(-1, [], false, Cleared, Idle, 0, [])])
  {
    evs, s := Do(2, evs0, s0, CloseReader(1));
    evs, s := Do(2, evs, s, Finish(1));
    evs, s := Do(2, evs, s, Finish(1));
  }

  /** It locks the buffer, loads both cursors and reclaims. */
  lemma SecondReaderReclaims(evs0: seq<Event>, s0: State) returns (evs: seq<Event>, s: State)
    requires Run(2, evs0) == Some(s0)
    requires |s0.readers| == 2 && Unlocked(s0) && !s0.sh.buf.isNil
    requires s0.readers[1] == Reader(-1, [], false, Cleared, Idle, 0, [])
    ensures Run(2, evs) == Some(s)
    ensures s == State(ReclaimShared(s0.sh, Least([s0.readers[0].i, -1])), [s0.readers[0], Reader(-1, [], false, Done, Idle, 0, [])], None)
  {
    evs, s := Do(2, evs0, s0, Finish(1));
    evs, s := SecondReaderLoads(evs, s, []);
    assert [] + [s0.readers[0].i] == [s0.readers[0].i];
    evs, s := SecondReaderLoads(evs, s, [s0.readers[0].i]);
    assert [s0.readers[0].i] + [-1] == [s0.readers[0].i, -1];
    evs, s := LockedReclaim(evs, s, [s0.readers[0].i, -1]);
  }

  lemma SecondReaderLoads(evs0: seq<Event>, s0: State, seen: seq<int>) returns (evs: seq<Event>, s: State)
    requires Run(2, evs0) == Some(s0)
    requires |s0.readers| == 2 && s0.readers[1] == Reader(-1, [], false, Cleared, Idle, 0, [])
    requires s0.scan == Some(Scan(1, seen)) && |seen| < 2
    ensures Run(2, evs) == Some(s)
    ensures s == s0.(scan := Some(Scan(1, seen + [s0.readers[|seen|].i])))
  {
    evs, s := Do(2, evs0, s0, Finish(1));
  }

  lemma LockedReclaim(evs0: seq<Event>, s0: State, seen: seq<int>) returns (evs: seq<Event>, s: State)
    requires Run(2, evs0) == Some(s0)
    requires |s0.readers| == 2 && s0.readers[1] == Reader(-1, [], false, Cleared, Idle, 0, [])
    requires s0.scan == Some(Scan(1, seen)) && |seen| == 2
    ensures Run(2, evs) == Some(s)
    ensures s == State(ReclaimShared(s0.sh, Least(seen)), [s0.readers[0], Reader(-1, [], false, Done, Idle, 0, [])], None)
  {
    evs, s := Do(2, evs0, s0, Finish(1));
  }

  /** The first reader takes the segment; its cursor moves on before a byte is read. */
  lemma FirstReaderTakes() returns (evs: seq<Event>, s: State)
    ensures Run(2, evs) == Some(s)
    ensures s == State(OneSegment(), [Reader(1, [7, 8], true, NotStarted, Copy(2), 1, []), NewReader()], None)
  {
    evs, s := FirstReaderAtSegment();
    evs, s := Do(2, evs, s, Advance(0));
    evs, s := Do(2, evs, s, Advance(0));
  }

  /** Reclaiming one segment that the only live cursor has passed. */
  lemma ReclaimOne(b: Buffer)
    requires b.data == [[7, 8]] && !b.isNil && b.offset == 0 && b.pooled == []
    ensures Reclaim(b, Least([1, -1])) == Some(Buffer([], b.wait.None?, b.wait, if b.wait.None? then 0 else 1, [[7, 8]]))
  {
    var cursors := [1, -1];
    assert cursors[0] == 1;
    assert Least(cursors) == Some(1);
    assert b.data[1..] == [] && b.data[..1] == b.data && b.pooled + b.data == b.data;
  }

  /** The pool does get a segment that a live reader has not read a byte of. */
  lemma PooledWhilePendingHappens() returns (evs: seq<Event>, s: State)
    ensures Run(2, evs) == Some(s)
    ensures |s.readers| == 2 && Live(s.readers[0])
    ensures s.readers[0].data == [7, 8]
    ensures s.sh.buf.pooled == [[7, 8]]
  {
    evs, s := FirstReaderTakes();
    ReclaimOne(s.sh.buf);
    evs, s := SecondReaderCloses(evs, s);
    evs, s := SecondReaderReclaims(evs, s);
  }

  /** The buffer is closed, then reclaimed with everything taken. */
  lemma ClosedAndReset() returns (evs: seq<Event>, s: State)
    ensures Run(2, evs) == Some(s)
    ensures s == State(ResetBuffer(), [Reader(1, [7, 8], true, NotStarted, Copy(2), 1, []), Reader(-1, [], false, Done, Idle, 0, [])], None)
  {
    evs, s := FirstReaderTakes();
    evs, s := Do(2, evs, s, CloseBuffer);
    ReclaimOne(s.sh.buf);
    evs, s := SecondReaderCloses(evs, s);
    evs, s := SecondReaderReclaims(evs, s);
  }

  function ResetBuffer(): Shared {
    Shared(Buffer([], true, None, 0, [[7, 8]]), [[7, 8]], 1, true, Some(1), false)
  }

  /** A Write after Close can deprive a live reader of its bytes. */
  lemma UnsafeWriteHappens() returns (evs: seq<Event>, s: State)
    ensures Run(2, evs) == Some(s)
    ensures Enabled(s, Write([9])) && !WriteSafe(s)
    ensures Deprived(Next(s, Write([9])).0, 0)
  {
    evs, s := ClosedAndReset();
    DepriveFirst(s);
  }

  lemma DepriveFirst(s: State)
    requires |s.readers| == 2 && Unlocked(s)
    requires Live(s.readers[0]) && s.readers[0].i == s.readers[0].taken == 1
    requires s.sh.buf.data == [] && s.sh.buf.offset == 0 && s.sh.buf.wait.None? && |s.sh.written| == 1
    ensures Enabled(s, Write([9])) && !WriteSafe(s)
    ensures Deprived(Next(s, Write([9])).0, 0)
  {
  }

  lemma DoAny(readerCount: nat, evs: seq<Event>, s: State, e: Event) returns (evs': seq<Event>, s': State)
    requires Execute(readerCount, evs) == Some(s) && Enabled(s, e)
    ensures evs' == evs + [e] && s' == Next(s, e).0
    ensures Execute(readerCount, evs') == Some(s')
  {
    evs', s' := evs + [e], Next(s, e).0;
    assert evs'[..|evs|] == evs;
  }

  /** The first reader reads its bytes out of the reset buffer and is about to look for more. */
  lemma FirstReaderReturns() returns (evs: seq<Event>, s: State)
    ensures Run(2, evs) == Some(s)
    ensures s == State(ResetBuffer(), [Reader(1, [], true, NotStarted, Load(2), 1, [7, 8]), Reader(-1, [], false, Done, Idle, 0, [])], None)
  {
    evs, s := ClosedAndReset();
    CopyBoth(s.readers[0]);
    evs, s := Do(2, evs, s, Advance(0));
    evs, s := Do(2, evs, s, StartRead(0, 2));
    evs, s := FirstReaderLoads(evs, s);
  }

  lemma CopyBoth(rd: Reader)
    requires rd.data == [7, 8] && rd.delivered == []
    ensures CopyOut(rd, 2).0 == rd.(data := [], delivered := [7, 8], phase := Idle)
  {
    assert rd.data[2..] == [] && rd.data[..2] == [7, 8] && [] + [7, 8] == [7, 8];
  }

  /** After two unsafe Writes a live reader skips the first and reads the second: what it has read is
      no prefix of what was written. */
  lemma UnsafeWritesSkip() returns (evs: seq<Event>, s: State)
    ensures Execute(2, evs) == Some(s)
    ensures |s.readers| == 2 && Live(s.readers[0]) && s.readers[0].open
    ensures Returned(2, evs, 0) == [7, 8, 10] && Flatten(s.sh.written) == [7, 8, 9, 10]
    ensures !(Returned(2, evs, 0) <= Flatten(s.sh.written))
  {
    evs, s := TwoUnsafeWrites();
    FlattenThree([7, 8], [9], [10]);
    evs, s := FirstReaderSkips(evs, s);
    ReturnedIsDelivered(2, evs, 0);
    assert Returned(2, evs, 0)[2] == 10 && Flatten(s.sh.written)[2] == 9;
  }

  lemma TwoUnsafeWrites() returns (evs: seq<Event>, s: State)
    ensures Execute(2, evs) == Some(s)
    ensures |s.readers| == 2 && s.readers[0] == Reader(1, [], true, NotStarted, Take(2, 1), 1, [7, 8])
    ensures s.sh.buf.data == [[9], [10]] && s.sh.buf.offset == 0 && s.sh.written == [[7, 8], [9], [10]]
  {
    evs, s := FirstReaderReturns();
    RunsAreSafe(2, evs);
    evs, s := DoAny(2, evs, s, Write([9]));
    evs, s := DoAny(2, evs, s, Write([10]));
    evs, s := DoAny(2, evs, s, Advance(0));
  }

  lemma FlattenThree(p: Segment, q: Segment, r: Segment)
    ensures Flatten([p, q, r]) == p + q + r
  {
    assert [p, q, r] == [p] + [q] + [r] && [p] == [] + [p] && [] + p == p;
    FlattenAppend([], p);
    FlattenAppend([p], q);
    FlattenAppend([p] + [q], r);
  }

  lemma FirstReaderSkips(evs0: seq<Event>, s0: State) returns (evs: seq<Event>, s: State)
    requires Execute(2, evs0) == Some(s0)
    requires |s0.readers| == 2 && s0.readers[0] == Reader(1, [], true, NotStarted, Take(2, 1), 1, [7, 8])
    requires s0.sh.buf.data == [[9], [10]] && s0.sh.buf.offset == 0
    ensures Execute(2, evs) == Some(s) && s.sh == s0.sh
    ensures |s.readers| == 2 && s.readers[0] == Reader(2, [], true, NotStarted, Idle, 2, [7, 8, 10])
  {
    evs, s := DoAny(2, evs0, s0, Advance(0));
    assert s.readers[0] == Reader(1, [10], true, NotStarted, Bump(2), 2, [7, 8]);
    evs, s := DoAny(2, evs, s, Advance(0));
    evs, s := DoAny(2, evs, s, Advance(0));
  }

  /** A Close can fall between its reader's cursor load and increment. */
  lemma RaceHappens() returns (evs: seq<Event>, s: State)
    ensures Run(2, evs) == Some(s)
    ensures |s.readers| == 2 && Raced(s.sh, s.readers[0])
    ensures RacedDuring(2, evs, 0)
  {
    evs, s := FirstReaderAtSegment();
    evs, s := Do(2, evs, s, CloseReader(0));
    evs, s := Do(2, evs, s, Finish(0));
    evs, s := Do(2, evs, s, Advance(0));
    evs, s := Do(2, evs, s, Advance(0));
    RaceLeavesMark(2, evs, 0);
  }
}
