/** The primary request's body reader, teeReader, beside the fan-out protocol: each of its Reads takes
    a result of the underlying reader, writes the bytes to the mirrors' buffer, closes the buffer at
    the end of the body, and returns.  Steps of all other goroutines fall anywhere in between. */
module MirrorTee {
  import opened Common
  import opened Mirror
  import opened MirrorInvariant
  import opened MirrorTheorems

  // ----- The machine -----

  /** Where the primary request's Read stands. */
  datatype Call = Outside | Reading(read: BodyRead) | Written(read: BodyRead) | Finished(read: BodyRead)

  datatype TeeEvent = Receive(read: BodyRead) | WriteChunk | CloseAtEnd | Return | Others(e: Event)

  /** `evs` is the run of the shared buffer so far, `returned` what the primary request has got. */
  datatype Tee = Tee(evs: seq<Event>, call: Call, returned: seq<BodyRead>)

  /** The buffer's share of the tee's steps. */
  function AfterWrite(evs: seq<Event>, read: BodyRead): seq<Event> {
    if read.chunk == [] then evs else evs + [Write(read.chunk)]
  }

  function AfterClose(evs: seq<Event>, read: BodyRead): seq<Event> {
    if read.err == EndOfFile then evs + [CloseBuffer] else evs
  }

  /** None when the step does not apply; only teeReader writes to the buffer. */
  function TeeStep(t: Tee, e: TeeEvent): Option<Tee> {
    match e
    case Receive(read) => if t.call.Outside? then Some(t.(call := Reading(read))) else None
    case WriteChunk => if t.call.Reading? then Some(t.(evs := AfterWrite(t.evs, t.call.read), call := Written(t.call.read))) else None
    case CloseAtEnd => if t.call.Written? then Some(t.(evs := AfterClose(t.evs, t.call.read), call := Finished(t.call.read))) else None
    case Return => if t.call.Finished? then Some(t.(call := Outside, returned := t.returned + [t.call.read])) else None
    case Others(m) => if m.Write? then None else Some(t.(evs := t.evs + [m]))
  }

  function TeeRun(readerCount: nat, tevs: seq<TeeEvent>): Option<Tee> {
    if tevs == [] then
      Some(Tee([], Outside, []))
    else
      match TeeRun(readerCount, tevs[..|tevs| - 1])
      case None => None
      case Some(t) =>
        match TeeStep(t, tevs[|tevs| - 1])
        case None => None
        case Some(t') => if Execute(readerCount, t'.evs).Some? then Some(t') else None
  }

  // ----- What the history says -----

  /** The segments a run of the buffer wrote. */
  function Writes(evs: seq<Event>): seq<Segment> {
    if evs == [] then
      []
    else
      var before := Writes(evs[..|evs| - 1]);
      if evs[|evs| - 1].Write? then before + [evs[|evs| - 1].p] else before
  }

  /** How many of them came before the first Close, if there was one. */
  function FirstClose(evs: seq<Event>): Option<nat> {
    if evs == [] then
      None
    else
      var before := FirstClose(evs[..|evs| - 1]);
      if before.None? && evs[|evs| - 1].CloseBuffer? then Some(|Writes(evs[..|evs| - 1])|) else before
  }

  /** The results of the underlying reader, in order. */
  function Received(tevs: seq<TeeEvent>): seq<BodyRead> {
    if tevs == [] then [] else ReceivedAlso(Received(tevs[..|tevs| - 1]), tevs[|tevs| - 1])
  }

  function ReceivedAlso(received: seq<BodyRead>, e: TeeEvent): seq<BodyRead> {
    if e.Receive? then received + [e.read] else received
  }

  /** The bytes in these results. */
  function PrimaryBytes(results: seq<BodyRead>): seq<Byte> {
    if results == [] then [] else PrimaryBytes(results[..|results| - 1]) + results[|results| - 1].chunk
  }

  function InCall(call: Call): seq<BodyRead> {
    if call.Outside? then [] else [call.read]
  }

  // ----- Written, and written before Close -----

  lemma OnlyWriteWrites(s: State, e: Event)
    requires Enabled(s, e)
    ensures Next(s, e).0.sh.written == if e.Write? then s.sh.written + [e.p] else s.sh.written
  {
  }

  lemma {:induction false} WrittenIsWrites(readerCount: nat, evs: seq<Event>)
    requires Run(readerCount, evs).Some?
    ensures Run(readerCount, evs).value.sh.written == Writes(evs)
    decreases |evs|
  {
    if evs != [] {
      WrittenIsWrites(readerCount, evs[..|evs| - 1]);
      OnlyWriteWrites(Run(readerCount, evs[..|evs| - 1]).value, evs[|evs| - 1]);
    }
  }

  /** A reader that can still get more: nobody closed it, or it has not begun to finish. */
  predicate Waiting(rd: Reader) {
    rd.open || Live(rd)
  }

  /** Such a reader was so all along. */
  lemma WaitingBefore(s: State, e: Event, r: nat)
    requires Inv(s) && Enabled(s, e) && r < |s.readers|
    ensures |Next(s, e).0.readers| == |s.readers|
    ensures Waiting(Next(s, e).0.readers[r]) ==> Waiting(s.readers[r])
  {
    if e.Write? || e.CloseBuffer? || e.r != r {
      OthersUntouched(s, e, r);
    } else if e.Advance? {
      assert ReaderInv(s.sh, s.readers[r]);
      AdvanceKeeps(s.sh, s.readers[r]);
      AdvanceKeepsWaiting(s.sh.buf, s.readers[r]);
    } else {
      OwnEventWaiting(s, e, r);
    }
  }

  lemma OwnEventWaiting(s: State, e: Event, r: nat)
    requires Enabled(s, e) && r < |s.readers| && !e.Write? && !e.CloseBuffer? && !e.Advance? && e.r == r
    ensures |Next(s, e).0.readers| == |s.readers|
    ensures Waiting(Next(s, e).0.readers[r]) ==> Waiting(s.readers[r])
  {
  }

  lemma AdvanceKeepsWaiting(b: Buffer, rd: Reader)
    requires rd.phase.Take? ==> 0 <= rd.phase.k - b.offset < |b.data|
    ensures Waiting(ReadStep(b, rd).0) == Waiting(rd)
  {
  }

  /** While there is one, nothing but Close ends the stream: reclaiming cannot. */
  lemma OnlyCloseCloses(s: State, e: Event, r: nat)
    requires Inv(s) && Enabled(s, e) && r < |s.readers| && Waiting(s.readers[r])
    ensures Next(s, e).0.sh.closedAt ==
      if e.CloseBuffer? && s.sh.closedAt.None? then Some(|s.sh.written|) else s.sh.closedAt
  {
    if e.Finish? && s.readers[e.r].fin.Cleared? && s.scan.Some? && |s.scan.value.seen| == |s.readers| {
      ReclaimKeepsOpen(s, s.scan.value, r);
    }
  }

  lemma ReclaimKeepsOpen(s: State, scan: Scan, r: nat)
    requires Inv(s) && s.scan == Some(scan) && |scan.seen| == |s.readers| && r < |s.readers| && Waiting(s.readers[r])
    ensures ReclaimShared(s.sh, Least(scan.seen)).closedAt == s.sh.closedAt
  {
    assert ReaderInv(s.sh, s.readers[r]);
    assert Loaded(s.sh, s.readers[r], scan.seen[r]);
  }

  lemma {:induction false} ClosedAtFirstClose(readerCount: nat, evs: seq<Event>, r: nat)
    requires Run(readerCount, evs).Some? && r < readerCount
    ensures |Run(readerCount, evs).value.readers| == readerCount
    ensures Waiting(Run(readerCount, evs).value.readers[r]) ==> Run(readerCount, evs).value.sh.closedAt == FirstClose(evs)
    decreases |evs|
  {
    RunKeeps(readerCount, evs);
    if evs != [] {
      var before := evs[..|evs| - 1];
      ClosedAtFirstClose(readerCount, before, r);
      RunKeeps(readerCount, before);
      var s := Run(readerCount, before).value;
      WaitingBefore(s, evs[|evs| - 1], r);
      if Waiting(s.readers[r]) {
        OnlyCloseCloses(s, evs[|evs| - 1], r);
        WrittenIsWrites(readerCount, before);
      }
    }
  }

  /** Until the first Close every Write is safe. */
  lemma SafeUntilClose(readerCount: nat, evs: seq<Event>)
    requires Run(readerCount, evs).Some? && FirstClose(evs).None?
    ensures WriteSafe(Run(readerCount, evs).value)
  {
    UnsafeMeansReset(readerCount, evs);
    var s := Run(readerCount, evs).value;
    if !WriteSafe(s) {
      var r :| 0 <= r < |s.readers| && Live(s.readers[r]);
      RunKeeps(readerCount, evs);
      ClosedAtFirstClose(readerCount, evs, r);
    }
  }

  // ----- Every run of the tee -----

  lemma WritesAppend(evs: seq<Event>, e: Event)
    ensures Writes(evs + [e]) == if e.Write? then Writes(evs) + [e.p] else Writes(evs)
    ensures FirstClose(evs + [e]) ==
      if FirstClose(evs).None? && e.CloseBuffer? then Some(|Writes(evs)|) else FirstClose(evs)
  {
    assert (evs + [e])[..|evs|] == evs;
  }

  lemma PrimaryAppend(results: seq<BodyRead>, read: BodyRead)
    ensures PrimaryBytes(results + [read]) == PrimaryBytes(results) + read.chunk
  {
    assert (results + [read])[..|results|] == results;
  }

  /** The primary request gets every result unchanged and in order, and the buffer has every byte of
      them except those of a Read that has yet to write. */
  ghost predicate TeeInv(t: Tee, received: seq<BodyRead>) {
    && received == t.returned + InCall(t.call)
    && PrimaryBytes(received) == if t.call.Reading? then Flatten(Writes(t.evs)) + t.call.read.chunk else Flatten(Writes(t.evs))
  }

  lemma TeeStepKeeps(t: Tee, e: TeeEvent, received: seq<BodyRead>)
    requires TeeInv(t, received) && TeeStep(t, e).Some?
    ensures TeeInv(TeeStep(t, e).value, ReceivedAlso(received, e))
  {
    match e {
      case Receive(read) => PrimaryAppend(received, read);
      case WriteChunk => ChunkIsWritten(t.evs, t.call.read);
      case CloseAtEnd => WritesAppend(t.evs, CloseBuffer);
      case Others(m) => WritesAppend(t.evs, m);
      case Return =>
    }
  }

  lemma ChunkIsWritten(evs: seq<Event>, read: BodyRead)
    ensures Flatten(Writes(AfterWrite(evs, read))) == Flatten(Writes(evs)) + read.chunk
  {
    if read.chunk == [] {
      assert Flatten(Writes(evs)) + [] == Flatten(Writes(evs));
    } else {
      WritesAppend(evs, Write(read.chunk));
      FlattenAppend(Writes(evs), read.chunk);
    }
  }

  lemma {:induction false} TeeRunKeeps(readerCount: nat, tevs: seq<TeeEvent>)
    requires TeeRun(readerCount, tevs).Some?
    ensures TeeInv(TeeRun(readerCount, tevs).value, Received(tevs))
    decreases |tevs|
  {
    if tevs != [] {
      var before := tevs[..|tevs| - 1];
      TeeRunKeeps(readerCount, before);
      TeeStepKeeps(TeeRun(readerCount, before).value, tevs[|tevs| - 1], Received(before));
    }
  }

  lemma DoTee(readerCount: nat, tevs: seq<TeeEvent>, t: Tee, e: TeeEvent) returns (tevs': seq<TeeEvent>, t': Tee)
    requires TeeRun(readerCount, tevs) == Some(t)
    requires TeeStep(t, e).Some? && Execute(readerCount, TeeStep(t, e).value.evs).Some?
    ensures tevs' == tevs + [e] && TeeStep(t, e) == Some(t')
    ensures TeeRun(readerCount, tevs') == Some(t')
  {
    tevs', t' := tevs + [e], TeeStep(t, e).value;
    assert tevs'[..|tevs|] == tevs;
  }

  /** The step that a Read of the primary request takes next. */
  function TeeNext(call: Call): TeeEvent
    requires !call.Outside?
  {
    if call.Reading? then WriteChunk else if call.Written? then CloseAtEnd else Return
  }

  /** The primary request is never held up by what the mirrors have done: whenever the buffer's lock is free,
      its Read can go on. */
  lemma PrimaryGoesOn(readerCount: nat, tevs: seq<TeeEvent>, t: Tee, s: State)
    requires TeeRun(readerCount, tevs) == Some(t) && !t.call.Outside?
    requires Execute(readerCount, t.evs) == Some(s) && Unlocked(s)
    ensures TeeRun(readerCount, tevs + [TeeNext(t.call)]).Some?
  {
    BufferGoesOn(readerCount, t, s);
    var tevs', t' := DoTee(readerCount, tevs, t, TeeNext(t.call));
  }

  lemma BufferGoesOn(readerCount: nat, t: Tee, s: State)
    requires !t.call.Outside? && Execute(readerCount, t.evs) == Some(s) && Unlocked(s)
    ensures TeeStep(t, TeeNext(t.call)).Some? && Execute(readerCount, TeeStep(t, TeeNext(t.call)).value.evs).Some?
  {
    if t.call.Reading? && t.call.read.chunk != [] {
      var evs, s' := DoAny(readerCount, t.evs, s, Write(t.call.read.chunk));
    } else if t.call.Written? {
      var evs, s' := DoAny(readerCount, t.evs, s, CloseBuffer);
    }
  }

  /** In every run, whatever the mirrors do: the primary request gets the underlying reader's results
      as they are; and, if all Writes were safe, each mirror reads a prefix of exactly those bytes. */
  lemma MirrorsFollowPrimary(readerCount: nat, tevs: seq<TeeEvent>, t: Tee, r: nat)
    requires TeeRun(readerCount, tevs) == Some(t) && r < readerCount
    ensures t.returned + InCall(t.call) == Received(tevs)
    ensures Run(readerCount, t.evs).Some? ==> Returned(readerCount, t.evs, r) <= PrimaryBytes(Received(tevs))
  {
    TeeRunKeeps(readerCount, tevs);
    if Run(readerCount, t.evs).Some? {
      MirrorsSeePrefix(readerCount, t.evs, r);
      WrittenIsWrites(readerCount, t.evs);
    }
  }

  // ----- The whole body -----

  predicate EndsWith(received: seq<BodyRead>, err: ReadError) {
    received != [] && received[|received| - 1].err == err
  }

  /** The tee has closed the buffer because the body had ended. */
  predicate EndSeen(tevs: seq<TeeEvent>) {
    tevs != [] &&
    var before := tevs[..|tevs| - 1];
    EndSeen(before) || (tevs[|tevs| - 1].CloseAtEnd? && EndsWith(Received(before), EndOfFile))
  }

  /** Others, such as the round trip when it is done, close the buffer only after that, and the
      underlying reader gives no more bytes once it has reported the end. */
  ghost predicate BodyThenClose(tevs: seq<TeeEvent>) {
    && (forall k {:trigger tevs[k]} :: 0 <= k < |tevs| && tevs[k] == Others(CloseBuffer) ==> EndSeen(tevs[..k]))
    && NothingAfterEnd(Received(tevs))
  }

  ghost predicate NothingAfterEnd(received: seq<BodyRead>) {
    forall i, j :: 0 <= i < j < |received| && received[i].err == EndOfFile ==> received[j].chunk == []
  }

  /** Some result before number `n` reported the end. */
  ghost predicate EndBefore(received: seq<BodyRead>, n: int) {
    exists i :: 0 <= i < n && i < |received| && received[i].err == EndOfFile
  }

  /** Once the buffer is closed, all bytes are in it. */
  ghost predicate ClosedLast(t: Tee, received: seq<BodyRead>, ended: bool) {
    && (FirstClose(t.evs).Some? <==> ended)
    && (ended ==> FirstClose(t.evs) == Some(|Writes(t.evs)|))
    && (ended ==> EndBefore(received, if t.call.Reading? || t.call.Written? then |received| - 1 else |received|))
  }

  lemma ClosedLastStep(t: Tee, e: TeeEvent, received: seq<BodyRead>, ended: bool)
    requires ClosedLast(t, received, ended) && received == t.returned + InCall(t.call)
    requires TeeStep(t, e).Some? && NothingAfterEnd(received)
    requires e == Others(CloseBuffer) ==> ended
    ensures ClosedLast(TeeStep(t, e).value, ReceivedAlso(received, e), ended || (e.CloseAtEnd? && EndsWith(received, EndOfFile)))
    ensures e.WriteChunk? && t.call.read.chunk != [] ==> !ended
  {
    match e {
      case Receive(read) =>
        if ended {
          var i :| 0 <= i < |received| && received[i].err == EndOfFile;
          assert (received + [read])[i].err == EndOfFile;
        }
      case WriteChunk =>
        assert received[|received| - 1] == t.call.read;
        WritesAppend(t.evs, Write(t.call.read.chunk));
      case CloseAtEnd =>
        assert received[|received| - 1] == t.call.read;
        WritesAppend(t.evs, CloseBuffer);
      case Return =>
      case Others(m) => WritesAppend(t.evs, m);
    }
  }

  lemma BodyThenCloseBefore(tevs: seq<TeeEvent>)
    requires tevs != [] && BodyThenClose(tevs)
    ensures BodyThenClose(tevs[..|tevs| - 1])
  {
    var before := tevs[..|tevs| - 1];
    assert Received(tevs) == ReceivedAlso(Received(before), tevs[|tevs| - 1]);
    assert forall i :: 0 <= i < |Received(before)| ==> Received(tevs)[i] == Received(before)[i];
    forall k {:trigger before[k]} | 0 <= k < |before| && before[k] == Others(CloseBuffer)
      ensures EndSeen(before[..k])
    {
      assert before[k] == tevs[k] && before[..k] == tevs[..k];
    }
  }

  /** Then no Write is unsafe, and the first Close comes after the last of them. */
  lemma {:induction false} ClosedLastRun(readerCount: nat, tevs: seq<TeeEvent>)
    requires TeeRun(readerCount, tevs).Some? && BodyThenClose(tevs)
    ensures ClosedLast(TeeRun(readerCount, tevs).value, Received(tevs), EndSeen(tevs))
    ensures Run(readerCount, TeeRun(readerCount, tevs).value.evs) == Execute(readerCount, TeeRun(readerCount, tevs).value.evs)
    decreases |tevs|
  {
    if tevs != [] {
      BodyThenCloseBefore(tevs);
      ClosedLastRun(readerCount, tevs[..|tevs| - 1]);
      ClosedLastNext(readerCount, tevs);
    }
  }

  lemma ClosedLastNext(readerCount: nat, tevs: seq<TeeEvent>)
    requires tevs != [] && TeeRun(readerCount, tevs).Some? && BodyThenClose(tevs) && BodyThenClose(tevs[..|tevs| - 1])
    requires var before := tevs[..|tevs| - 1];
      && ClosedLast(TeeRun(readerCount, before).value, Received(before), EndSeen(before))
      && Run(readerCount, TeeRun(readerCount, before).value.evs) == Execute(readerCount, TeeRun(readerCount, before).value.evs)
    ensures ClosedLast(TeeRun(readerCount, tevs).value, Received(tevs), EndSeen(tevs))
    ensures Run(readerCount, TeeRun(readerCount, tevs).value.evs) == Execute(readerCount, TeeRun(readerCount, tevs).value.evs)
  {
    var before, e := tevs[..|tevs| - 1], tevs[|tevs| - 1];
    TeeRunKeeps(readerCount, before);
    var t := TeeRun(readerCount, before).value;
    ClosedLastStep(t, e, Received(before), EndSeen(before));
    TeeRunExecutes(readerCount, before);
    SafeStep(readerCount, t, e, EndSeen(before));
  }

  lemma TeeRunExecutes(readerCount: nat, tevs: seq<TeeEvent>)
    requires TeeRun(readerCount, tevs).Some?
    ensures Execute(readerCount, TeeRun(readerCount, tevs).value.evs).Some?
  {
  }

  lemma SafeStep(readerCount: nat, t: Tee, e: TeeEvent, ended: bool)
    requires TeeStep(t, e).Some? && Execute(readerCount, TeeStep(t, e).value.evs).Some?
    requires Run(readerCount, t.evs) == Execute(readerCount, t.evs) && Execute(readerCount, t.evs).Some?
    requires FirstClose(t.evs).Some? <==> ended
    requires e.WriteChunk? && t.call.read.chunk != [] ==> !ended
    ensures Run(readerCount, TeeStep(t, e).value.evs) == Execute(readerCount, TeeStep(t, e).value.evs)
  {
    var evs := TeeStep(t, e).value.evs;
    if evs != t.evs {
      assert evs[..|t.evs|] == t.evs;
      if e.WriteChunk? {
        SafeUntilClose(readerCount, t.evs);
      }
    }
  }

  /** A mirror that nobody closed and that is told "end" has read the whole body, if the buffer was first
      closed at the end of the body and no bytes came after that; it does not matter who closes it later. */
  lemma EndMeansWholeBody(readerCount: nat, tevs: seq<TeeEvent>, t: Tee, s: State, r: nat)
    requires TeeRun(readerCount, tevs) == Some(t) && BodyThenClose(tevs) && r < readerCount
    requires Execute(readerCount, t.evs) == Some(s)
    requires Enabled(s, Advance(r)) && Next(s, Advance(r)).1 == EOF && s.readers[r].open
    ensures Returned(readerCount, t.evs, r) == PrimaryBytes(Received(tevs))
  {
    TeeRunKeeps(readerCount, tevs);
    ClosedLastRun(readerCount, tevs);
    EndMeansEverything(readerCount, t.evs, r);
    ClosedAtFirstClose(readerCount, t.evs, r);
    WrittenIsWrites(readerCount, t.evs);
    PendingIsEmpty(t, Received(tevs), EndSeen(tevs));
  }

  /** After the end a Read that has yet to write has nothing to write. */
  lemma PendingIsEmpty(t: Tee, received: seq<BodyRead>, ended: bool)
    requires ClosedLast(t, received, ended) && ended && TeeInv(t, received) && NothingAfterEnd(received)
    ensures PrimaryBytes(received) == Flatten(Writes(t.evs))
  {
    if t.call.Reading? {
      assert received[|received| - 1] == t.call.read;
      SplitInTwo(Flatten(Writes(t.evs)), t.call.read.chunk, 0);
    }
  }

  /** In general such a mirror has missed exactly what was written after the last segment it took, and
      what is yet to be written. */
  lemma EndMeansWholeBodyExactly(readerCount: nat, tevs: seq<TeeEvent>, t: Tee, s: State, r: nat)
    requires TeeRun(readerCount, tevs) == Some(t) && r < readerCount
    requires Run(readerCount, t.evs) == Some(s)
    requires Enabled(s, Advance(r)) && Next(s, Advance(r)).1 == EOF && s.readers[r].open
    ensures s.readers[r].taken <= |Writes(t.evs)|
    ensures Returned(readerCount, t.evs, r) == PrimaryBytes(Received(tevs)) <==>
      s.readers[r].taken == |Writes(t.evs)| && !(t.call.Reading? && t.call.read.chunk != [])
  {
    TeeRunKeeps(readerCount, tevs);
    EndMeansEverything(readerCount, t.evs, r);
    WrittenIsWrites(readerCount, t.evs);
    NoEmptyWrites(readerCount, t.evs);
    PrefixIsAll(Writes(t.evs), s.readers[r].taken, if t.call.Reading? then t.call.read.chunk else []);
  }

  lemma PrefixIsAll(segs: seq<Segment>, k: nat, tail: Segment)
    requires NoneEmpty(segs) && k <= |segs|
    ensures Flatten(segs[..k]) == Flatten(segs) + tail <==> k == |segs| && tail == []
    ensures tail == [] ==> Flatten(segs) + tail == Flatten(segs)
  {
    FlattenGrows(segs, k);
    assert segs[..|segs|] == segs;
  }

  ghost predicate NoneEmpty(segs: seq<Segment>) {
    forall k :: 0 <= k < |segs| ==> segs[k] != []
  }

  lemma {:induction false} NoEmptyWrites(readerCount: nat, evs: seq<Event>)
    requires Run(readerCount, evs).Some?
    ensures NoneEmpty(Writes(evs))
    decreases |evs|
  {
    if evs != [] {
      NoEmptyWrites(readerCount, evs[..|evs| - 1]);
    }
  }

  lemma {:induction false} FlattenGrows(segs: seq<Segment>, k: nat)
    requires NoneEmpty(segs) && k <= |segs|
    ensures |Flatten(segs[..k])| <= |Flatten(segs)|
    ensures k < |segs| ==> |Flatten(segs[..k])| < |Flatten(segs)|
    decreases |segs| - k
  {
    if k == |segs| {
      assert segs[..k] == segs;
    } else {
      FlattenNext(segs, k);
      FlattenGrows(segs, k + 1);
    }
  }

  // ----- A Close before the end of the body -----

  lemma DoOther(tevs: seq<TeeEvent>, t: Tee, s: State, m: Event) returns (tevs': seq<TeeEvent>, t': Tee, s': State)
    requires TeeRun(1, tevs) == Some(t) && Execute(1, t.evs) == Some(s)
    requires !m.Write? && Enabled(s, m)
    ensures TeeRun(1, tevs') == Some(t') && Execute(1, t'.evs) == Some(s')
    ensures t'.call == t.call && s' == Next(s, m).0 && Received(tevs') == Received(tevs)
  {
    var evs;
    evs, s' := DoAny(1, t.evs, s, m);
    tevs', t' := DoTee(1, tevs, t, Others(m));
    OthersReceiveNothing(tevs, m);
  }

  lemma OthersReceiveNothing(tevs: seq<TeeEvent>, m: Event)
    ensures Received(tevs + [Others(m)]) == Received(tevs)
  {
    assert (tevs + [Others(m)])[..|tevs|] == tevs;
  }

  /** The buffer is closed before a byte has come, and the only mirror starts to read. */
  lemma ClosedTooEarly() returns (tevs: seq<TeeEvent>, t: Tee, s: State)
    ensures TeeRun(1, tevs) == Some(t) && Execute(1, t.evs) == Some(s)
    ensures t.call.Outside? && Received(tevs) == []
    ensures s == State(ClosedEmpty(), [NewReader().(phase := Clear(1))], None)
  {
    tevs, t, s := [], Tee([], Outside, []), Init(1);
    assert s.readers == [NewReader()];
    tevs, t, s := DoOther(tevs, t, s, CloseBuffer);
    tevs, t, s := DoOther(tevs, t, s, StartRead(0, 1));
    tevs, t, s := DoOther(tevs, t, s, Advance(0));
  }

  function ClosedEmpty(): Shared {
    Shared(Buffer([], true, None, 0, []), [], 0, false, Some(0), false)
  }

  lemma MirrorFindsNothing() returns (tevs: seq<TeeEvent>, t: Tee, s: State)
    ensures TeeRun(1, tevs) == Some(t) && Execute(1, t.evs) == Some(s)
    ensures t.call.Outside? && Received(tevs) == []
    ensures s == State(ClosedEmpty(), [NewReader().(phase := Finishing)], None)
  {
    tevs, t, s := ClosedTooEarly();
    tevs, t, s := DoAdvance(tevs, t, s);
    tevs, t, s := DoAdvance(tevs, t, s);
    tevs, t, s := DoAdvance(tevs, t, s);
  }

  lemma DoAdvance(tevs0: seq<TeeEvent>, t0: Tee, s0: State) returns (tevs: seq<TeeEvent>, t: Tee, s: State)
    requires TeeRun(1, tevs0) == Some(t0) && Execute(1, t0.evs) == Some(s0)
    requires |s0.readers| == 1 && s0.scan.None? && !s0.readers[0].phase.Take?
    ensures TeeRun(1, tevs) == Some(t) && Execute(1, t.evs) == Some(s)
    ensures t.call == t0.call && Received(tevs) == Received(tevs0)
    ensures s == State(s0.sh, [ReadStep(s0.sh.buf, s0.readers[0]).0], None)
  {
    tevs, t, s := DoOther(tevs0, t0, s0, Advance(0));
  }

  /** It finds nothing and finishes. */
  lemma MirrorGivesUp() returns (tevs: seq<TeeEvent>, t: Tee, s: State)
    ensures TeeRun(1, tevs) == Some(t) && Execute(1, t.evs) == Some(s)
    ensures t.call.Outside? && Received(tevs) == []
    ensures s == State(ClosedEmpty(), [Reader(-1, [], true, Done, Finishing, 0, [])], None)
  {
    tevs, t, s := MirrorFindsNothing();
    tevs, t, s := DoOther(tevs, t, s, Finish(0));
    tevs, t, s := DoOther(tevs, t, s, Finish(0));
    tevs, t, s := DoOther(tevs, t, s, Finish(0));
  }

  /** A mirror that nobody closed can be told "end" although the primary request gets more bytes. */
  lemma EarlyCloseLosesBytes(chunk: Segment) returns (tevs: seq<TeeEvent>, t: Tee, s: State)
    ensures TeeRun(1, tevs) == Some(t) && Execute(1, t.evs) == Some(s)
    ensures Enabled(s, Advance(0)) && Next(s, Advance(0)).1 == EOF && s.readers[0].open
    ensures Returned(1, t.evs, 0) == [] && PrimaryBytes(Received(tevs)) == chunk
  {
    tevs, t, s := MirrorGivesUp();
    ToldEnd(s);
    ReturnedIsDelivered(1, t.evs, 0);
    tevs, t := BytesCome(tevs, t, chunk);
  }

  lemma ToldEnd(s: State)
    requires |s.readers| == 1 && s.readers[0] == Reader(-1, [], true, Done, Finishing, 0, [])
    ensures Enabled(s, Advance(0)) && Next(s, Advance(0)).1 == EOF
  {
  }

  lemma BytesCome(tevs0: seq<TeeEvent>, t0: Tee, chunk: Segment) returns (tevs: seq<TeeEvent>, t: Tee)
    requires TeeRun(1, tevs0) == Some(t0) && Execute(1, t0.evs).Some?
    requires t0.call.Outside? && Received(tevs0) == []
    ensures TeeRun(1, tevs) == Some(t) && t.evs == t0.evs
    ensures PrimaryBytes(Received(tevs)) == chunk
  {
    var read := BodyRead(chunk, NoError);
    tevs, t := DoTee(1, tevs0, t0, Receive(read));
    assert tevs[..|tevs0|] == tevs0;
    assert Received(tevs) == [] + [read];
    PrimaryAppend([], read);
    assert [] + chunk == chunk;
  }
}
