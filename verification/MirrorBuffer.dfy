/** The methods of pkg/util/proxy/mirror.go in their imperative form, each proved to take the step
    of the same name in the fan-out protocol. */
module MirrorBuffer {
  import opened Common
  import opened Mirror

  const MAX_INT: int := 0x7fff_ffff_ffff_ffff

  class MultiReader {
    var i: int
    var data: Segment
    var open: bool
    var finished: bool

    constructor ()
      ensures i == 0 && data == [] && open && !finished
    {
      i, data, open, finished := 0, [], true, false;
    }

    /** The reader as the protocol sees it at the start of a Read of `want` bytes. */
    ghost function Value(want: nat): Reader
      reads this
    {
      Reader(i, data, open, if finished then Done else NotStarted, Head(want), 0, [])
    }

    /** The last lines of Read. */
    method CopyTo(want: nat) returns (out: seq<Byte>)
      modifies this`data
      ensures |out| == Min(want, |old(data)|)
      ensures out + data == old(data)
    {
      var n := Min(want, |data|);
      out := data[..n];
      data := data[n..];
    }
  }

  datatype ReadResult = Returned(out: Out) | WouldBlock(gen: nat)

  /** The protocol's steps of one Read, with nothing in between, up to its answer or to the point where it
      has to wait or to finish first. */
  function ReadThrough(b: Buffer, rd: Reader, steps: nat): (Reader, Out)
    decreases steps
  {
    if steps == 0 || (rd.phase.Take? && !(0 <= rd.phase.k - b.offset < |b.data|)) then
      (rd, Silent)
    else
      var (rd', out) := ReadStep(b, rd);
      if out.Silent? && !rd'.phase.Wait? && !rd'.phase.Finishing? then ReadThrough(b, rd', steps - 1) else (rd', out)
  }

  /** What a Read with pending data does. */
  lemma ReadsPending(b: Buffer, rd: Reader, want: nat, steps: nat)
    requires rd.phase == Head(want) && rd.data != [] && steps >= 2
    ensures ReadThrough(b, rd, steps) == CopyOut(rd.(phase := Copy(want)), want)
  {
  }

  /** What a Read without pending data does, once it has seen whether the reader is closed. */
  lemma ReadsOn(b: Buffer, rd: Reader, want: nat, steps: nat)
    requires rd.phase == Head(want) && rd.data == [] && steps >= 4
    ensures ReadThrough(b, rd, steps) ==
      if rd.open then ReadThrough(b, rd.(phase := Load(want)), steps - 3) else (rd.(phase := Idle), EOF)
  {
    assert ReadThrough(b, rd, steps) == ReadThrough(b, rd.(phase := Clear(want)), steps - 1);
    assert ReadThrough(b, rd, steps) == ReadThrough(b, rd.(phase := CheckClose(want)), steps - 2);
  }

  lemma ReadsLoaded(b: Buffer, rd: Reader, want: nat, steps: nat)
    requires rd.phase == Load(want) && rd.data == [] && steps >= 4
    requires Fetch(b, rd.i).Ready? ==> b.offset <= rd.i
    ensures ReadThrough(b, rd, steps) ==
      match Fetch(b, rd.i)
      case Gone => (rd.(phase := Idle), EOF)
      case Ready => CopyOut(rd.(data := b.data[rd.i - b.offset], taken := rd.taken + 1, i := rd.i + 1, phase := Copy(want)), want)
      case Starved(None) => (rd.(phase := Finishing), Silent)
      case Starved(Some(g)) => (rd.(phase := Wait(want, g)), Silent)
  {
    if Fetch(b, rd.i).Ready? {
      var took := rd.(data := b.data[rd.i - b.offset], taken := rd.taken + 1, phase := Bump(want));
      assert ReadThrough(b, rd, steps) == ReadThrough(b, rd.(phase := Take(want, rd.i)), steps - 1);
      assert ReadThrough(b, rd, steps) == ReadThrough(b, took, steps - 2);
      assert ReadThrough(b, rd, steps) == ReadThrough(b, took.(i := rd.i + 1, phase := Copy(want)), steps - 3);
    }
  }

  /** The answer of the method, read off the protocol's reader where its steps come to a halt. */
  ghost predicate Answers(rd: Reader, out: Out, res: ReadResult) {
    if rd.phase.Wait? then res == WouldBlock(rd.phase.gen)
    else if rd.phase.Finishing? then res == Returned(EOF)
    else rd.phase.Idle? && res == Returned(out)
  }

  class MultiReaderBuffer {
    var data: seq<Segment>
    var isNil: bool
    var waitCh: Option<nat>
    var offset: int
    var pool: seq<Segment>
    const readers: seq<MultiReader>

    ghost function Value(): Buffer
      reads this
    {
      Buffer(data, isNil, waitCh, offset, pool)
    }

    ghost function ReaderCursors(): (c: seq<int>)
      reads readers
      ensures |c| == |readers| && forall r :: 0 <= r < |readers| ==> c[r] == readers[r].i
    {
      seq(|readers|, r requires 0 <= r < |readers| reads readers => readers[r].i)
    }

    /** What the protocol's invariant says of the fields the methods rely on. */
    ghost predicate InRange()
      reads this, readers
    {
      && (isNil ==> data == [])
      && (forall r :: 0 <= r < |readers| ==> -1 <= readers[r].i <= MAX_INT)
      && (!isNil ==> forall r :: 0 <= r < |readers| ==> readers[r].i <= offset + |data|)
      && 0 <= offset
    }

    constructor (readers: seq<MultiReader>)
      ensures Value() == EmptyBuffer() && this.readers == readers
    {
      data, isNil, waitCh, offset, pool := [], true, Some(0), 0, [];
      this.readers := readers;
    }

    method Write(p: Segment) returns (n: nat)
      modifies this
      ensures Value() == if p == [] then old(Value()) else Append(old(Value()), p)
      ensures n == if p == [] || old(waitCh).None? then 0 else |p|
    {
      if |p| == 0 {
        return 0;
      }
      data := data + [p];
      isNil := false;
      if waitCh.None? {
        return 0;
      }
      waitCh := Some(waitCh.value + 1);
      return |p|;
    }

    method Close()
      modifies this
      ensures Value() == Shut(old(Value()))
    {
      if waitCh.Some? {
        waitCh := None;
      }
    }

    /** The scan at the head of reclaimBuffer. */
    method MinMaxCursor() returns (minI: int, maxI: int)
      requires forall r :: 0 <= r < |readers| ==> -1 <= readers[r].i <= MAX_INT
      ensures maxI == -1 <==> Least(ReaderCursors()).None?
      ensures Least(ReaderCursors()).Some? ==> minI == Least(ReaderCursors()).value
    {
      ghost var cursors := ReaderCursors();
      minI, maxI := MAX_INT, -1;
      for r := 0 to |readers|
        invariant maxI == -1 <==> Least(cursors[..r]).None?
        invariant maxI >= -1
        invariant minI == match Least(cursors[..r]) { case None => MAX_INT case Some(m) => m }
      {
        assert cursors[..r + 1][..r] == cursors[..r];
        var i := readers[r].i;
        if i != -1 {
          if i > maxI {
            maxI := i;
          }
          if i < minI {
            minI := i;
          }
        }
      }
      assert cursors[..|readers|] == cursors;
    }

    /** Hands the first `n` segments to the pool. */
    method Recycle(n: nat)
      requires n <= |data|
      modifies this`pool
      ensures pool == old(pool) + data[..n]
    {
      for k := 0 to n
        invariant pool == old(pool) + data[..k]
      {
        assert data[..k + 1] == data[..k] + [data[k]];
        pool := pool + [data[k]];
      }
    }

    method ReclaimBuffer()
      requires InRange()
      modifies this
      ensures Reclaim(old(Value()), Least(ReaderCursors())) == Some(Value())
    {
      if isNil {
        return;
      }
      var minI, maxI := MinMaxCursor();
      LeastWithin();
      ReclaimBelow(minI, maxI, Least(ReaderCursors()));
    }

    /** The rest of reclaimBuffer, after the scan. */
    method ReclaimBelow(minI: int, maxI: int, ghost least: Option<int>)
      requires !isNil
      requires maxI == -1 <==> least.None?
      requires least.Some? ==> minI == least.value <= offset + |data|
      modifies this
      ensures Reclaim(old(Value()), least) == Some(Value())
    {
      if maxI == -1 || (minI == |data| + offset && waitCh.None?) {
        Recycle(|data|);
        assert data[..|data|] == data;
        data, isNil, offset, waitCh := [], true, 0, None;
        return;
      }
      if minI > offset {
        var diff := minI - offset;
        offset := minI;
        Recycle(diff);
        data := data[diff..];
      }
    }

    lemma LeastWithin()
      requires InRange() && !isNil
      ensures Least(ReaderCursors()).Some? ==> Least(ReaderCursors()).value <= offset + |data|
    {
      var cursors := ReaderCursors();
      if Least(cursors).Some? {
        var r :| 0 <= r < |cursors| && cursors[r] == Least(cursors).value;
      }
    }

    /** finish(): runs once. */
    method Finish(rd: MultiReader)
      requires rd in readers
      requires InRange()
      modifies this, rd
      ensures rd.finished && rd.open == old(rd.open)
      ensures old(rd.finished) ==> Value() == old(Value()) && rd.i == old(rd.i) && rd.data == old(rd.data)
      ensures !old(rd.finished) ==> rd.i == -1 && rd.data == []
      ensures !old(rd.finished) ==> rd.Value(0) == FinishStep(FinishStep(FinishStep(old(rd.Value(0)))))
      ensures !old(rd.finished) ==> Reclaim(old(Value()), Least(ReaderCursors())) == Some(Value())
    {
      if !rd.finished {
        Retire(rd);
        ReclaimBuffer();
      }
    }

    /** The stores of finish(), before it reclaims. */
    method Retire(rd: MultiReader)
      requires InRange()
      modifies rd
      ensures InRange() && Value() == old(Value())
      ensures rd.finished && rd.i == -1 && rd.data == [] && rd.open == old(rd.open)
    {
      rd.finished := true;
      rd.i := -1;
      rd.data := [];
    }

    method CloseReader(rd: MultiReader)
      requires rd in readers
      requires InRange()
      modifies this, rd
      ensures !rd.open && rd.finished
      ensures old(rd.finished) ==> Value() == old(Value()) && rd.i == old(rd.i) && rd.data == old(rd.data)
      ensures !old(rd.finished) ==> rd.i == -1 && rd.data == []
      ensures !old(rd.finished) ==> Reclaim(old(Value()), Least(ReaderCursors())) == Some(Value())
    {
      if rd.open {
        rd.open := false;
      }
      Finish(rd);
    }

    /** What the protocol's steps come to from here. */
    lemma ReadsThrough(rd: MultiReader, want: nat)
      requires rd.open && rd.i < offset + |data| ==> offset <= rd.i || rd.i == -1
      ensures rd.data != [] ==> ReadThrough(Value(), rd.Value(want), 7) == CopyOut(rd.Value(want).(phase := Copy(want)), want)
      ensures rd.data == [] ==>
        (ReadThrough(Value(), rd.Value(want), 7) ==
         if rd.open then ReadThrough(Value(), rd.Value(want).(phase := Load(want)), 4) else (rd.Value(want).(phase := Idle), EOF))
      ensures rd.data == [] && rd.open ==>
        (ReadThrough(Value(), rd.Value(want).(phase := Load(want)), 4) ==
         match Fetch(Value(), rd.i)
         case Gone => (rd.Value(want).(phase := Idle), EOF)
         case Ready =>
           CopyOut(rd.Value(want).(data := data[rd.i - offset], taken := 1, i := rd.i + 1, phase := Copy(want)), want)
         case Starved(None) => (rd.Value(want).(phase := Finishing), Silent)
         case Starved(Some(g)) => (rd.Value(want).(phase := Wait(want, g)), Silent))
    {
      if rd.data != [] {
        ReadsPending(Value(), rd.Value(want), want, 7);
      } else {
        ReadsOn(Value(), rd.Value(want), want, 7);
        if rd.open {
          ReadsLoaded(Value(), rd.Value(want).(phase := Load(want)), want, 4);
        }
      }
    }

    /** Read, run without interruption up to its answer or to the point where it would block. */
    method Read(rd: MultiReader, want: nat) returns (res: ReadResult)
      requires want > 0
      requires rd in readers
      requires InRange()
      requires rd.open && rd.i < offset + |data| ==> offset <= rd.i || rd.i == -1
      modifies this, rd
      ensures rd.open == old(rd.open)
      ensures res.WouldBlock? || res.out == EOF ==> rd.data == []
      ensures rd.finished == (old(rd.finished) || (old(rd.data) == [] && rd.open && Fetch(old(Value()), old(rd.i)) == Starved(None)))
      ensures old(rd.data) != [] ==>
        && res == Returned(Bytes(old(rd.data)[..Min(want, |old(rd.data)|)]))
        && rd.data == old(rd.data)[Min(want, |old(rd.data)|)..] && rd.i == old(rd.i) && Value() == old(Value())
      ensures old(rd.data) == [] && !old(rd.open) ==> res == Returned(EOF) && Value() == old(Value()) && rd.i == old(rd.i)
      ensures old(rd.data) == [] && old(rd.open) ==>
        match Fetch(old(Value()), old(rd.i))
        case Gone => res == Returned(EOF) && Value() == old(Value()) && rd.i == -1
        case Ready =>
          && 0 <= old(rd.i) - old(offset) < |old(data)|
          && var seg := old(data)[old(rd.i) - old(offset)];
          && res == Returned(Bytes(seg[..Min(want, |seg|)]))
          && rd.data == seg[Min(want, |seg|)..] && rd.i == old(rd.i) + 1 && Value() == old(Value())
        case Starved(None) =>
          && res == Returned(EOF) && rd.finished
          && (!old(rd.finished) ==> rd.i == -1 && rd.data == [] && Reclaim(old(Value()), Least(ReaderCursors())) == Some(Value()))
        case Starved(Some(g)) => res == WouldBlock(g) && Value() == old(Value()) && rd.i == old(rd.i)
      ensures var (rd', out) := ReadThrough(old(Value()), old(rd.Value(want)), 7);
        && Answers(rd', out, res)
        && (!rd'.phase.Finishing? ==> rd.i == rd'.i && rd.data == rd'.data && Value() == old(Value()))
    {
      ReadsThrough(rd, want);
      if |rd.data| == 0 {
        rd.data := [];
        if !rd.open {
          return Returned(EOF);
        }
        var waitCh, i := this.waitCh, rd.i;
        if i == -1 {
          return Returned(EOF);
        }
        if i < |data| + offset && i != -1 {
          rd.data := data[i - offset];
          rd.i := rd.i + 1;
        } else if waitCh.None? {
          Finish(rd);
          return Returned(EOF);
        } else {
          return WouldBlock(waitCh.value);
        }
      }
      var out := rd.CopyTo(want);
      return Returned(Bytes(out));
    }

    /** teeReader.Read: whatever the mirrors do, the primary request gets exactly the bytes and the
        error of the underlying reader, and the mirrors' buffer gets the same bytes. */
    method TeeRead(read: BodyRead) returns (n: nat, err: ReadError)
      modifies this
      ensures n == |read.chunk| && err == read.err
      ensures var b := if read.chunk == [] then old(Value()) else Append(old(Value()), read.chunk);
        Value() == if read.err == EndOfFile then Shut(b) else b
    {
      n, err := |read.chunk|, read.err;
      if n > 0 {
        var _ := Write(read.chunk);
      }
      if err == EndOfFile {
        Close();
      }
    }
  }
}
