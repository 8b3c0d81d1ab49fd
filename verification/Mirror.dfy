/** The fan-out protocol of pkg/util/proxy/mirror.go: one writer and a fixed number of readers
    share a segmented buffer.  Every section the code runs under a lock, and every atomic access
    to a cursor, is one step; a run interleaves the steps of all goroutines in any order. */
module Mirror {
  import opened Common

  type Byte = b: int | 0 <= b < 256
  type Segment = seq<Byte>

  // ----- The shared buffer -----

  /** The fields guarded by the buffer's mutex.  `wait` is the current wake-up channel, by
      generation; None is the nil channel of a closed buffer.  `pooled` lists the segments handed
      back to the pool, oldest first. */
  datatype Buffer = Buffer(data: seq<Segment>, isNil: bool, wait: Option<nat>, offset: int, pooled: seq<Segment>)

  function EmptyBuffer(): Buffer {
    Buffer([], true, Some(0), 0, [])
  }

  /** Write, for a non-empty slice: it appends before it looks at the wake-up channel. */
  function Append(b: Buffer, p: Segment): Buffer {
    var b' := b.(data := b.data + [p], isNil := false);
    if b.wait.None? then b' else b'.(wait := Some(b.wait.value + 1))
  }

  function Shut(b: Buffer): Buffer {
    b.(wait := None)
  }

  /** The least cursor that is not -1, if there is one. */
  function Least(cursors: seq<int>): (m: Option<int>)
    ensures m.None? <==> forall r :: 0 <= r < |cursors| ==> cursors[r] == -1
    ensures m.Some? ==> m.value in cursors && m.value != -1
    ensures m.Some? ==> forall r :: 0 <= r < |cursors| && cursors[r] != -1 ==> m.value <= cursors[r]
  {
    if cursors == [] then
      None
    else
      var n := |cursors| - 1;
      var m := Least(cursors[..n]);
      assert forall r :: 0 <= r < n ==> cursors[r] == cursors[..n][r];
      if cursors[n] == -1 || (m.Some? && m.value <= cursors[n]) then m else Some(cursors[n])
  }

  /** reclaimBuffer, given the least cursor; None is the run-time panic of an out-of-range slice. */
  function Reclaim(b: Buffer, least: Option<int>): (r: Option<Buffer>)
    ensures r.Some? ==> |r.value.data| <= |b.data|
  {
    if b.isNil then
      Some(b)
    else if least.None? || (least.value == |b.data| + b.offset && b.wait.None?) then
      Some(Buffer([], true, None, 0, b.pooled + b.data))
    else
      var diff := least.value - b.offset;
      if diff <= 0 then
        Some(b)
      else if diff > |b.data| then
        None
      else
        Some(b.(data := b.data[diff..], offset := b.offset + diff, pooled := b.pooled + b.data[..diff]))
  }

  datatype Fetched = Gone | Ready | Starved(wait: Option<nat>)

  /** What a reader with cursor `i` sees inside the critical section of Read. */
  function Fetch(b: Buffer, i: int): Fetched {
    if i == -1 then Gone
    else if i < |b.data| + b.offset then Ready
    else Starved(b.wait)
  }

  // ----- Readers -----

  /** Where a Read call stands; `want` is the length of the caller's slice. */
  datatype Phase =
    | Idle
    | Head(want: nat)
    | Clear(want: nat)
    | CheckClose(want: nat)
    | Load(want: nat)
    | Take(want: nat, k: int)
    | Bump(want: nat)
    | Copy(want: nat)
    | Wait(want: nat, gen: nat)
    | Select(want: nat, gen: nat)
    | Finishing

  /** Progress of the once-only finish(): cursor stored, data cleared, buffer reclaimed. */
  datatype Fin = NotStarted | Stored | Cleared | Done

  /** `i`, `data` and `open` (a non-nil close channel) are the code's fields; `taken` counts the
      segments this reader has taken and `delivered` holds the bytes its Reads have returned. */
  datatype Reader = Reader(i: int, data: Segment, open: bool, fin: Fin, phase: Phase, taken: nat, delivered: seq<Byte>)

  datatype Out = Silent | Bytes(bytes: seq<Byte>) | EOF

  function NewReader(): Reader {
    Reader(0, [], true, NotStarted, Idle, 0, [])
  }

  predicate HoldsLock(rd: Reader) {
    rd.phase.Take? || rd.phase.Bump?
  }

  function Min(a: nat, b: nat): nat {
    if a <= b then a else b
  }

  /** The final lines of Read: copy out what fits, keep the rest. */
  function CopyOut(rd: Reader, want: nat): (Reader, Out) {
    var n := Min(want, |rd.data|);
    (rd.(data := rd.data[n..], delivered := rd.delivered + rd.data[..n], phase := Idle), Bytes(rd.data[..n]))
  }

  /** One step of the goroutine inside Read, except for the two ways out of the select. */
  function ReadStep(b: Buffer, rd: Reader): (Reader, Out)
    requires rd.phase.Take? ==> 0 <= rd.phase.k - b.offset < |b.data|
  {
    match rd.phase
    case Idle => (rd, Silent)
    case Head(w) => (rd.(phase := if |rd.data| > 0 then Copy(w) else Clear(w)), Silent)
    case Clear(w) => (rd.(data := [], phase := CheckClose(w)), Silent)
    case CheckClose(w) => if rd.open then (rd.(phase := Load(w)), Silent) else (rd.(phase := Idle), EOF)
    case Load(w) =>
      (match Fetch(b, rd.i)
       case Gone => (rd.(phase := Idle), EOF)
       case Ready => (rd.(phase := Take(w, rd.i)), Silent)
       case Starved(None) => (rd.(phase := Finishing), Silent)
       case Starved(Some(g)) => (rd.(phase := Wait(w, g)), Silent))
    case Take(w, k) => (rd.(data := b.data[k - b.offset], taken := rd.taken + 1, phase := Bump(w)), Silent)
    case Bump(w) => (rd.(i := rd.i + 1, phase := Copy(w)), Silent)
    case Copy(w) => CopyOut(rd, w)
    case Wait(w, g) => if rd.open then (rd.(phase := Select(w, g)), Silent) else (rd.(phase := Idle), EOF)
    case Select(_, _) => (rd, Silent)
    case Finishing => if rd.fin.Done? then (rd.(phase := Idle), EOF) else (rd, Silent)
  }

  // ----- The request body -----

  datatype ReadError = NoError | EndOfFile | Failure(code: int)

  /** One result of the underlying body reader: the bytes and the error it gave with them. */
  datatype BodyRead = BodyRead(chunk: Segment, err: ReadError)

  // ----- The machine -----

  /** Besides the buffer, the history that the properties speak of: everything written, the
      absolute number of the first segment still buffered, whether the buffer was reset, and how
      many segments had been written when it was closed. */
  datatype Shared = Shared(buf: Buffer, written: seq<Segment>, base: nat, reset: bool, closedAt: Option<nat>, crashed: bool)

  /** The scan of reclaimBuffer, which loads the cursors one by one: the lock is held by finish() of
      reader `owner`, and `seen` are the values loaded so far. */
  datatype Scan = Scan(owner: nat, seen: seq<int>)

  datatype State = State(sh: Shared, readers: seq<Reader>, scan: Option<Scan>)

  datatype Event =
    | Write(p: Segment)
    | CloseBuffer
    | StartRead(r: nat, want: nat)
    | Advance(r: nat)
    | Wake(r: nat)
    | CloseWake(r: nat)
    | CloseReader(r: nat)
    | Finish(r: nat)

  function Init(readerCount: nat): State {
    State(Shared(EmptyBuffer(), [], 0, false, None, false), seq(readerCount, _ => NewReader()), None)
  }

  predicate NoReadLock(s: State) {
    forall r :: 0 <= r < |s.readers| ==> !HoldsLock(s.readers[r])
  }

  /** Nobody holds the buffer's lock. */
  predicate Unlocked(s: State) {
    s.scan.None? && NoReadLock(s)
  }

  predicate Enabled(s: State, e: Event) {
    match e
    case Write(p) => p != [] && Unlocked(s)
    case CloseBuffer => Unlocked(s)
    case StartRead(r, want) => r < |s.readers| && want > 0 && s.readers[r].phase.Idle?
    case Advance(r) => r < |s.readers| && (s.readers[r].phase.Load? ==> s.scan.None?)
    case Wake(r) => r < |s.readers| && s.readers[r].phase.Select? && s.sh.buf.wait != Some(s.readers[r].phase.gen)
    case CloseWake(r) => r < |s.readers| && s.readers[r].phase.Select? && !s.readers[r].open
    case CloseReader(r) => r < |s.readers|
    case Finish(r) =>
      && r < |s.readers|
      && !s.readers[r].fin.Done?
      && (!s.readers[r].open || s.readers[r].phase.Finishing?)
      && (s.readers[r].fin.Cleared? ==> if s.scan.None? then NoReadLock(s) else s.scan.value.owner == r)
  }

  function WriteShared(sh: Shared, p: Segment): Shared {
    sh.(buf := Append(sh.buf, p), written := sh.written + [p])
  }

  function CloseShared(sh: Shared): Shared {
    sh.(buf := Shut(sh.buf), closedAt := if sh.buf.wait.None? then sh.closedAt else Some(|sh.written|))
  }

  function ReclaimShared(sh: Shared, least: Option<int>): Shared {
    match Reclaim(sh.buf, least)
    case None => sh.(crashed := true)
    case Some(b) =>
      if b.isNil && !sh.buf.isNil then
        sh.(buf := b, base := sh.base + |sh.buf.data|, reset := true,
            closedAt := if sh.buf.wait.None? then sh.closedAt else Some(|sh.written|))
      else
        sh.(buf := b, base := sh.base + |sh.buf.data| - |b.data|)
  }

  function FinishStep(rd: Reader): Reader {
    match rd.fin
    case NotStarted => rd.(i := -1, fin := Stored)
    case Stored => rd.(data := [], fin := Cleared)
    case _ => rd.(fin := Done)
  }

  /** The reclaimBuffer call of finish(): lock and look for data, load each cursor, reclaim and unlock. */
  function ReclaimStep(s: State, r: nat): State
    requires r < |s.readers|
  {
    var done := s.readers[r := FinishStep(s.readers[r])];
    match s.scan
    case None =>
      if s.sh.buf.isNil then s.(readers := done) else s.(scan := Some(Scan(r, [])))
    case Some(scan) =>
      if |scan.seen| < |s.readers| then s.(scan := Some(scan.(seen := scan.seen + [s.readers[|scan.seen|].i])))
      else State(ReclaimShared(s.sh, Least(scan.seen)), done, None)
  }

  function Next(s: State, e: Event): (State, Out)
    requires Enabled(s, e)
  {
    match e
    case Write(p) => (s.(sh := WriteShared(s.sh, p)), Silent)
    case CloseBuffer => (s.(sh := CloseShared(s.sh)), Silent)
    case StartRead(r, want) => (s.(readers := s.readers[r := s.readers[r].(phase := Head(want))]), Silent)
    case Advance(r) =>
      var rd := s.readers[r];
      if rd.phase.Take? && !(0 <= rd.phase.k - s.sh.buf.offset < |s.sh.buf.data|) then
        (s.(sh := s.sh.(crashed := true)), Silent)
      else
        var (rd', out) := ReadStep(s.sh.buf, rd);
        (s.(readers := s.readers[r := rd']), out)
    case Wake(r) => (s.(readers := s.readers[r := s.readers[r].(phase := Head(s.readers[r].phase.want))]), Silent)
    case CloseWake(r) => (s.(readers := s.readers[r := s.readers[r].(phase := Finishing)]), Silent)
    case CloseReader(r) => (s.(readers := s.readers[r := s.readers[r].(open := false)]), Silent)
    case Finish(r) =>
      if s.readers[r].fin.Cleared? then (ReclaimStep(s, r), Silent)
      else (s.(readers := s.readers[r := FinishStep(s.readers[r])]), Silent)
  }

  // ----- Runs -----

  predicate Live(rd: Reader) {
    rd.fin.NotStarted?
  }

  /** No live reader has moved past the end of the buffer; true in particular until it is closed. */
  predicate WriteSafe(s: State) {
    forall r :: 0 <= r < |s.readers| && Live(s.readers[r]) ==> s.readers[r].i <= s.sh.buf.offset + |s.sh.buf.data|
  }

  /** The state after any run, or None when some event was not enabled. */
  function Execute(readerCount: nat, evs: seq<Event>): Option<State> {
    if evs == [] then
      Some(Init(readerCount))
    else
      match Execute(readerCount, evs[..|evs| - 1])
      case None => None
      case Some(s) => if Enabled(s, evs[|evs| - 1]) then Some(Next(s, evs[|evs| - 1]).0) else None
  }

  /** The state after a run whose Writes were all safe, or None. */
  function Run(readerCount: nat, evs: seq<Event>): Option<State> {
    if evs == [] then
      Some(Init(readerCount))
    else
      match Run(readerCount, evs[..|evs| - 1])
      case None => None
      case Some(s) =>
        var e := evs[|evs| - 1];
        if Enabled(s, e) && (e.Write? ==> WriteSafe(s)) then Some(Next(s, e).0) else None
  }

  function Flatten(segs: seq<Segment>): seq<Byte> {
    if segs == [] then [] else Flatten(segs[..|segs| - 1]) + segs[|segs| - 1]
  }
}
