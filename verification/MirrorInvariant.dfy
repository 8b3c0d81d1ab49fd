/** What every step of the fan-out protocol keeps. */
module MirrorInvariant {
  import opened Common
  import opened Mirror

  // ----- Concatenation of segments -----

  lemma {:induction false} FlattenAppend(segs: seq<Segment>, p: Segment)
    ensures Flatten(segs + [p]) == Flatten(segs) + p
  {
    assert (segs + [p])[..|segs|] == segs;
  }

  lemma FlattenNext(segs: seq<Segment>, k: nat)
    requires k < |segs|
    ensures Flatten(segs[..k + 1]) == Flatten(segs[..k]) + segs[k]
  {
    assert segs[..k + 1] == segs[..k] + [segs[k]];
    FlattenAppend(segs[..k], segs[k]);
  }

  lemma {:induction false} FlattenPrefix(segs: seq<Segment>, k: nat)
    requires k <= |segs|
    ensures Flatten(segs[..k]) <= Flatten(segs)
    decreases |segs| - k
  {
    if k == |segs| {
      assert segs[..k] == segs;
    } else {
      FlattenNext(segs, k);
      FlattenPrefix(segs, k + 1);
    }
  }

  // ----- The invariant -----

  /** The cursor, offset and slice numberings agree, and what went to the pool is exactly what
      was written before the buffered part. */
  ghost predicate SharedInv(sh: Shared) {
    && !sh.crashed
    && sh.base <= |sh.written|
    && sh.buf.data == sh.written[sh.base..]
    && sh.buf.pooled == sh.written[..sh.base]
    && (sh.buf.isNil ==> sh.buf.data == [])
    && (sh.buf.isNil ==> sh.reset || sh.written == [])
    && (!sh.buf.isNil ==> sh.written != [])
    && (!sh.buf.isNil && sh.reset ==> sh.buf.data != [])
    && (if sh.reset then sh.buf.offset == 0 && sh.buf.wait.None? && sh.written != [] else sh.buf.offset == sh.base)
    && (sh.buf.wait.None? <==> sh.closedAt.Some?)
    && (sh.closedAt.Some? ==> sh.closedAt.value <= |sh.written|)
  }

  /** Delivered bytes plus pending data are exactly the segments taken so far. */
  ghost predicate Exact(sh: Shared, rd: Reader)
    requires rd.taken <= |sh.written|
  {
    rd.delivered + rd.data == Flatten(sh.written[..rd.taken])
  }

  /** Its own Close threw the pending data away; it will take nothing more. */
  ghost predicate Dropped(sh: Shared, rd: Reader)
    requires rd.taken <= |sh.written|
  {
    && !rd.open && !Live(rd) && !rd.fin.Stored?
    && rd.data == []
    && rd.delivered <= Flatten(sh.written[..rd.taken])
    && (rd.phase.Idle? || rd.phase.Head? || rd.phase.Clear? || rd.phase.CheckClose? || rd.phase.Bump? || rd.phase.Copy?)
  }

  /** Phases that Read reaches only with no pending data. */
  predicate Drained(p: Phase) {
    p.Clear? || p.CheckClose? || p.Load? || p.Take? || p.Wait? || p.Select? || p.Finishing?
  }

  ghost predicate CursorInv(sh: Shared, rd: Reader) {
    if Live(rd) then
      && rd.i == rd.taken - (if rd.phase.Bump? then 1 else 0)
      && (if sh.reset then rd.taken == |sh.written| == sh.base else sh.base <= rd.i)
    else
      rd.i == -1 || Raced(sh, rd)
  }

  /** The reader's Close fell between its cursor load and its cursor increment: the -1 became 0. */
  predicate Raced(sh: Shared, rd: Reader) {
    && rd.i == 0 && !Live(rd) && !rd.open && !sh.reset && sh.written != []
    && !rd.phase.Load? && !HoldsLock(rd)
  }

  ghost predicate PhaseInv(sh: Shared, rd: Reader) {
    && (HoldsLock(rd) ==> !sh.reset && sh.written != [] && (Live(rd) || !rd.open))
    && (rd.phase.Take? ==> rd.phase.k == rd.taken && sh.base <= rd.taken < |sh.written|)
    && (Drained(rd.phase) ==> rd.data == [])
    && (rd.phase.Wait? || rd.phase.Select? ==> NoLostWakeUp(sh, rd, rd.phase.gen))
  }

  /** A reader that sleeps on the current wake-up channel has nothing left to read. */
  ghost predicate NoLostWakeUp(sh: Shared, rd: Reader, gen: nat) {
    && (sh.buf.wait.Some? ==> gen <= sh.buf.wait.value)
    && (sh.buf.wait == Some(gen) && Live(rd) ==> rd.taken == |sh.written|)
  }

  /** A finished reader that was not closed has everything written before the buffer was closed. */
  ghost predicate CompleteIfOpen(sh: Shared, rd: Reader) {
    rd.open && (rd.phase.Finishing? || !Live(rd)) ==>
      sh.closedAt.Some? && sh.closedAt.value <= rd.taken && rd.data == []
  }

  ghost predicate Positions(sh: Shared, rd: Reader) {
    && rd.taken <= |sh.written|
    && CursorInv(sh, rd)
    && PhaseInv(sh, rd)
    && CompleteIfOpen(sh, rd)
  }

  ghost predicate ReaderInv(sh: Shared, rd: Reader) {
    && Positions(sh, rd)
    && (Exact(sh, rd) || Dropped(sh, rd))
  }

  ghost predicate Inv(s: State) {
    && SharedInv(s.sh)
    && (forall r :: 0 <= r < |s.readers| ==> ReaderInv(s.sh, s.readers[r]))
    && (s.scan.Some? ==> ScanInv(s, s.scan.value))
  }

  /** During a scan the buffer stands still, and what was loaded is still so except for readers that
      have begun to finish since. */
  ghost predicate ScanInv(s: State, scan: Scan) {
    && NoReadLock(s) && !s.sh.buf.isNil
    && scan.owner < |s.readers| && s.readers[scan.owner].fin.Cleared?
    && |scan.seen| <= |s.readers|
    && (forall r :: 0 <= r < |scan.seen| ==> Loaded(s.sh, s.readers[r], scan.seen[r]))
    && (scan.owner < |scan.seen| ==> scan.seen[scan.owner] == s.readers[scan.owner].i)
  }

  ghost predicate Loaded(sh: Shared, rd: Reader, c: int) {
    && (c == -1 || LeastOk(sh, Some(c)))
    && (c == rd.i || (rd.i == -1 && (rd.fin.Stored? || rd.fin.Cleared?)))
  }

  // ----- Steps of one reader -----

  lemma AdvanceKeeps(sh: Shared, rd: Reader)
    requires SharedInv(sh) && ReaderInv(sh, rd)
    ensures rd.phase.Take? ==> 0 <= rd.phase.k - sh.buf.offset < |sh.buf.data|
    ensures ReaderInv(sh, ReadStep(sh.buf, rd).0)
  {
    match rd.phase {
      case Load(_) => LoadKeeps(sh, rd);
      case Take(_, k) => TakeKeeps(sh, rd);
      case Bump(_) => BumpKeeps(sh, rd);
      case Copy(w) => CopyKeeps(sh, rd, w);
      case _ => LocalKeeps(sh, rd);
    }
  }

  lemma LocalKeeps(sh: Shared, rd: Reader)
    requires ReaderInv(sh, rd)
    requires !rd.phase.Load? && !HoldsLock(rd) && !rd.phase.Copy?
    ensures ReaderInv(sh, ReadStep(sh.buf, rd).0)
  {
    var rd' := ReadStep(sh.buf, rd).0;
    assert rd' == rd.(phase := rd'.phase);
  }

  lemma LoadKeeps(sh: Shared, rd: Reader)
    requires SharedInv(sh) && ReaderInv(sh, rd)
    requires rd.phase.Load?
    ensures ReaderInv(sh, ReadStep(sh.buf, rd).0)
  {
    var rd' := ReadStep(sh.buf, rd).0;
    assert rd' == rd.(phase := rd'.phase);
    assert Exact(sh, rd) && Exact(sh, rd');
    assert |sh.buf.data| == |sh.written| - sh.base;
  }

  lemma TakeKeeps(sh: Shared, rd: Reader)
    requires SharedInv(sh) && ReaderInv(sh, rd)
    requires rd.phase.Take?
    ensures 0 <= rd.phase.k - sh.buf.offset < |sh.buf.data|
    ensures ReaderInv(sh, ReadStep(sh.buf, rd).0)
  {
    var k := rd.phase.k;
    assert sh.buf.data[k - sh.buf.offset] == sh.written[k];
    FlattenNext(sh.written, k);
    SplitInTwo(rd.delivered, rd.data, 0);
  }

  lemma BumpKeeps(sh: Shared, rd: Reader)
    requires SharedInv(sh) && ReaderInv(sh, rd)
    requires rd.phase.Bump?
    ensures ReaderInv(sh, ReadStep(sh.buf, rd).0)
  {
  }

  lemma CopyKeeps(sh: Shared, rd: Reader, w: nat)
    requires ReaderInv(sh, rd) && rd.phase.Copy?
    ensures ReaderInv(sh, CopyOut(rd, w).0)
  {
    var n := Min(w, |rd.data|);
    var rd' := CopyOut(rd, w).0;
    if Exact(sh, rd) {
      SplitInTwo(rd.delivered, rd.data, n);
      assert Exact(sh, rd');
    } else {
      SplitInTwo(rd.delivered, [], 0);
      assert Dropped(sh, rd');
    }
  }

  lemma SplitInTwo(d: seq<Byte>, x: seq<Byte>, n: nat)
    requires n <= |x|
    ensures (d + x[..n]) + x[n..] == d + x
    ensures d <= d + x
    ensures x == [] ==> d + x == d
  {
  }

  lemma FinishKeeps(sh: Shared, rd: Reader)
    requires ReaderInv(sh, rd)
    requires !rd.open || rd.phase.Finishing?
    ensures ReaderInv(sh, FinishStep(rd))
  {
    SplitInTwo(rd.delivered, rd.data, 0);
  }

  // ----- Steps of the buffer -----

  lemma WriteKeepsReader(sh: Shared, rd: Reader, p: Segment)
    requires SharedInv(sh) && ReaderInv(sh, rd)
    requires !HoldsLock(rd)
    requires Live(rd) ==> rd.i <= sh.buf.offset + |sh.buf.data|
    ensures ReaderInv(WriteShared(sh, p), rd)
  {
    assert (sh.written + [p])[..rd.taken] == sh.written[..rd.taken];
  }

  lemma WriteKeepsShared(sh: Shared, p: Segment)
    requires SharedInv(sh)
    ensures SharedInv(WriteShared(sh, p))
  {
    var w := sh.written + [p];
    assert w[sh.base..] == sh.written[sh.base..] + [p];
    assert w[..sh.base] == sh.written[..sh.base];
  }

  lemma CloseKeeps(sh: Shared, rd: Reader)
    requires SharedInv(sh) && ReaderInv(sh, rd)
    ensures SharedInv(CloseShared(sh)) && ReaderInv(CloseShared(sh), rd)
  {
    CloseKeepsPositions(sh, rd);
  }

  lemma CloseKeepsPositions(sh: Shared, rd: Reader)
    requires SharedInv(sh) && Positions(sh, rd)
    ensures SharedInv(CloseShared(sh)) && Positions(CloseShared(sh), rd)
    ensures CloseShared(sh).written == sh.written
  {
  }

  /** Nothing but finished readers can be left. */
  predicate GoneForGood(sh: Shared) {
    sh.reset && !sh.buf.isNil
  }

  /** The least cursor is within the buffer's ends, or a raced 0. */
  ghost predicate LeastOk(sh: Shared, least: Option<int>) {
    least.None? || (!GoneForGood(sh) && 0 <= least.value <= |sh.written|)
  }

  ghost predicate NotBelow(rd: Reader, least: Option<int>) {
    rd.i == -1 || (least.Some? && least.value <= rd.i)
  }

  lemma CursorIsOk(sh: Shared, rd: Reader)
    requires SharedInv(sh) && Positions(sh, rd)
    requires !HoldsLock(rd)
    ensures rd.i == -1 || LeastOk(sh, Some(rd.i))
  {
  }

  lemma ReclaimKeepsShared(sh: Shared, least: Option<int>)
    requires SharedInv(sh) && LeastOk(sh, least)
    ensures SharedInv(ReclaimShared(sh, least))
  {
    if sh.buf.isNil {
    } else if least.None? || (least.value == |sh.buf.data| + sh.buf.offset && sh.buf.wait.None?) {
      assert sh.written[..|sh.written|] == sh.written[..sh.base] + sh.written[sh.base..];
    } else {
      var diff := least.value - sh.buf.offset;
      if diff > 0 {
        assert sh.written[sh.base..][diff..] == sh.written[sh.base + diff..];
        assert sh.written[..sh.base] + sh.written[sh.base..][..diff] == sh.written[..sh.base + diff];
      }
    }
  }

  lemma ReclaimKeepsReader(sh: Shared, least: Option<int>, rd: Reader)
    requires SharedInv(sh) && LeastOk(sh, least)
    requires ReaderInv(sh, rd) && !HoldsLock(rd) && NotBelow(rd, least)
    ensures ReaderInv(ReclaimShared(sh, least), rd)
  {
    ReclaimKeepsPositions(sh, least, rd);
  }

  lemma ReclaimKeepsPositions(sh: Shared, least: Option<int>, rd: Reader)
    requires SharedInv(sh) && LeastOk(sh, least)
    requires Positions(sh, rd) && !HoldsLock(rd) && NotBelow(rd, least)
    ensures ReclaimShared(sh, least).written == sh.written
    ensures Positions(ReclaimShared(sh, least), rd)
  {
    assert |sh.buf.data| == |sh.written| - sh.base;
  }

  // ----- Every step, every run -----

  lemma NextKeeps(s: State, e: Event)
    requires Inv(s) && Enabled(s, e)
    requires e.Write? ==> WriteSafe(s)
    ensures Inv(Next(s, e).0)
    ensures |Next(s, e).0.readers| == |s.readers|
  {
    match e {
      case Write(p) => WriteEventKeeps(s, p);
      case CloseBuffer => CloseEventKeeps(s);
      case Advance(r) => AdvanceEventKeeps(s, r);
      case Finish(r) => FinishEventKeeps(s, r);
      case _ => LocalEventKeeps(s, e);
    }
  }

  lemma AdvanceEventKeeps(s: State, r: nat)
    requires Inv(s) && Enabled(s, Advance(r))
    ensures Inv(Next(s, Advance(r)).0)
    ensures |Next(s, Advance(r)).0.readers| == |s.readers|
  {
    var rd := s.readers[r];
    assert ReaderInv(s.sh, rd);
    AdvanceKeeps(s.sh, rd);
    if s.scan.Some? {
      AdvanceOffLock(s.sh.buf, rd);
    }
    ReplaceReader(s, r, ReadStep(s.sh.buf, rd).0);
  }

  /** What a reader can do while the buffer is locked: anything that leaves its cursor alone, and storing -1. */
  predicate OffLock(rd: Reader, rd': Reader) {
    && !HoldsLock(rd')
    && (|| (rd'.i == rd.i && (rd'.fin == rd.fin || (rd.fin.Stored? && rd'.fin.Cleared?)))
        || (rd.fin.NotStarted? && rd'.i == -1 && rd'.fin.Stored?))
  }

  lemma AdvanceOffLock(b: Buffer, rd: Reader)
    requires !rd.phase.Load? && !HoldsLock(rd)
    ensures OffLock(rd, ReadStep(b, rd).0)
  {
  }

  lemma LocalEventKeeps(s: State, e: Event)
    requires Inv(s) && Enabled(s, e)
    requires e.StartRead? || e.Wake? || e.CloseWake? || e.CloseReader?
    ensures Inv(Next(s, e).0)
    ensures |Next(s, e).0.readers| == |s.readers|
  {
    var rd := s.readers[e.r];
    assert ReaderInv(s.sh, rd);
    var rd' := match e
      case StartRead(_, want) => rd.(phase := Head(want))
      case Wake(_) => rd.(phase := Head(rd.phase.want))
      case CloseWake(_) => rd.(phase := Finishing)
      case CloseReader(_) => rd.(open := false);
    LocalChangeKeepsPositions(s.sh, rd, rd');
    LocalChangeKeepsContent(s.sh, rd, rd');
    ReplaceReader(s, e.r, rd');
  }

  /** The changes a reader makes outside its Read steps: entering Read, leaving the select, closing. */
  predicate LocalChange(rd: Reader, rd': Reader) {
    || (rd' == rd.(phase := rd'.phase) && rd'.phase.Head? && (rd.phase.Idle? || rd.phase.Select?))
    || (rd' == rd.(phase := Finishing) && rd.phase.Select? && !rd.open)
    || rd' == rd.(open := false)
  }

  lemma LocalChangeKeepsPositions(sh: Shared, rd: Reader, rd': Reader)
    requires Positions(sh, rd) && LocalChange(rd, rd')
    ensures Positions(sh, rd')
  {
  }

  lemma LocalChangeKeepsContent(sh: Shared, rd: Reader, rd': Reader)
    requires rd.taken <= |sh.written| && LocalChange(rd, rd')
    requires Exact(sh, rd) || Dropped(sh, rd)
    ensures Exact(sh, rd') || Dropped(sh, rd')
  {
  }

  lemma ReplaceReader(s: State, r: nat, rd: Reader)
    requires Inv(s)
    requires r < |s.readers|
    requires ReaderInv(s.sh, rd)
    requires s.scan.Some? ==> OffLock(s.readers[r], rd)
    ensures Inv(s.(readers := s.readers[r := rd]))
  {
    if s.scan.Some? {
      ScanGoesOn(s, s.scan.value, r, rd);
    }
  }

  lemma ScanGoesOn(s: State, scan: Scan, r: nat, rd: Reader)
    requires ScanInv(s, scan)
    requires r < |s.readers| && OffLock(s.readers[r], rd)
    ensures ScanInv(s.(readers := s.readers[r := rd]), scan)
  {
  }

  lemma WriteEventKeeps(s: State, p: Segment)
    requires Inv(s) && Enabled(s, Write(p)) && WriteSafe(s)
    ensures Inv(s.(sh := WriteShared(s.sh, p)))
  {
    WriteKeepsShared(s.sh, p);
    forall r | 0 <= r < |s.readers|
      ensures ReaderInv(WriteShared(s.sh, p), s.readers[r])
    {
      WriteKeepsReader(s.sh, s.readers[r], p);
    }
  }

  lemma CloseEventKeeps(s: State)
    requires Inv(s) && s.scan.None?
    ensures Inv(s.(sh := CloseShared(s.sh)))
  {
    forall r | 0 <= r < |s.readers|
      ensures ReaderInv(CloseShared(s.sh), s.readers[r])
    {
      CloseKeeps(s.sh, s.readers[r]);
    }
  }

  lemma FinishEventKeeps(s: State, r: nat)
    requires Inv(s) && Enabled(s, Finish(r))
    ensures Inv(Next(s, Finish(r)).0)
    ensures |Next(s, Finish(r)).0.readers| == |s.readers|
  {
    assert ReaderInv(s.sh, s.readers[r]);
    FinishKeeps(s.sh, s.readers[r]);
    if !s.readers[r].fin.Cleared? || (s.scan.None? && s.sh.buf.isNil) {
      ReplaceReader(s, r, FinishStep(s.readers[r]));
    } else if s.scan.Some? && |s.scan.value.seen| < |s.readers| {
      LoadKeepsScan(s, s.scan.value);
    } else if s.scan.Some? {
      ReclaimEventKeeps(s, r);
    }
  }

  lemma LoadKeepsScan(s: State, scan: Scan)
    requires Inv(s) && s.scan == Some(scan) && |scan.seen| < |s.readers|
    ensures ScanInv(s, scan.(seen := scan.seen + [s.readers[|scan.seen|].i]))
  {
    var rd := s.readers[|scan.seen|];
    assert ReaderInv(s.sh, rd);
    CursorIsOk(s.sh, rd);
  }

  lemma ReclaimEventKeeps(s: State, r: nat)
    requires Inv(s) && Enabled(s, Finish(r)) && s.readers[r].fin.Cleared?
    requires s.scan.Some? && |s.scan.value.seen| == |s.readers|
    ensures Inv(Next(s, Finish(r)).0)
  {
    var least := Least(s.scan.value.seen);
    LeastSeenOk(s, s.scan.value);
    ReclaimKeepsShared(s.sh, least);
    var sh' := ReclaimShared(s.sh, least);
    forall k | 0 <= k < |s.readers|
      ensures ReaderInv(sh', s.readers[k])
    {
      ReclaimKeepsReader(s.sh, least, s.readers[k]);
    }
    FinishKeeps(sh', s.readers[r]);
  }

  /** The least cursor loaded is within the buffer's ends, and no cursor is below it. */
  lemma LeastSeenOk(s: State, scan: Scan)
    requires ScanInv(s, scan) && |scan.seen| == |s.readers|
    ensures LeastOk(s.sh, Least(scan.seen))
    ensures forall r :: 0 <= r < |s.readers| ==> NotBelow(s.readers[r], Least(scan.seen))
  {
    var least := Least(scan.seen);
    if least.Some? {
      var k :| 0 <= k < |scan.seen| && scan.seen[k] == least.value;
      assert Loaded(s.sh, s.readers[k], scan.seen[k]);
    }
    forall r | 0 <= r < |s.readers|
      ensures NotBelow(s.readers[r], least)
    {
      assert Loaded(s.sh, s.readers[r], scan.seen[r]);
    }
  }

  /** The invariant holds after every run. */
  lemma {:induction false} RunKeeps(readerCount: nat, evs: seq<Event>)
    requires Run(readerCount, evs).Some?
    ensures Inv(Run(readerCount, evs).value)
    ensures |Run(readerCount, evs).value.readers| == readerCount
    decreases |evs|
  {
    if evs != [] {
      RunKeeps(readerCount, evs[..|evs| - 1]);
      NextKeeps(Run(readerCount, evs[..|evs| - 1]).value, evs[|evs| - 1]);
    }
  }
}
