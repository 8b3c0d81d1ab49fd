/** The indexed min-heap of pkg/util/proxy/dnslb/least_inflight.go, together with the
    sift operations of Go's container/heap written out.  The heap holds one entry per
    host name and a map from name to slot; every operation is specified by its effect
    on the plain map from name to count. */
module NamedHeap {

  datatype Entry = Entry(name: string, val: int)

  function Parent(i: int): int
    requires 0 < i
  {
    (i - 1) / 2
  }

  /** The slot map is the exact inverse of the queue's names. */
  ghost predicate Indexed(q: seq<Entry>, ix: map<string, int>) {
    && (forall i :: 0 <= i < |q| ==> q[i].name in ix && ix[q[i].name] == i)
    && (forall n :: n in ix ==> 0 <= ix[n] < |q| && q[ix[n]].name == n)
  }

  ghost predicate EdgeOk(q: seq<Entry>, k: int)
    requires 0 < k < |q|
  {
    q[Parent(k)].val <= q[k].val
  }

  ghost predicate Ordered(q: seq<Entry>) {
    forall k :: 0 < k < |q| ==> EdgeOk(q, k)
  }

  /** The children of `hole` may not undercut its parent. */
  ghost predicate Bridged(q: seq<Entry>, n: int, hole: int)
    requires n <= |q|
  {
    forall k :: 0 < k < n && Parent(k) == hole && 0 < hole ==> q[Parent(hole)].val <= q[k].val
  }

  /** Every edge in the first `n` slots is ordered, except the edges at `hole`. */
  ghost predicate HoleAt(q: seq<Entry>, n: int, hole: int)
    requires n <= |q|
  {
    && (forall k :: 0 < k < n && k != hole && Parent(k) != hole ==> EdgeOk(q, k))
    && Bridged(q, n, hole)
  }

  /** Every edge in the first `n` slots is ordered, except the one from `k0` to its parent. */
  ghost predicate RisingAt(q: seq<Entry>, n: int, k0: int)
    requires n <= |q|
  {
    && (forall k :: 0 < k < n && k != k0 ==> EdgeOk(q, k))
    && Bridged(q, n, k0)
  }

  ghost predicate OrderedUpTo(q: seq<Entry>, n: int)
    requires n <= |q|
  {
    forall k :: 0 < k < n ==> EdgeOk(q, k)
  }

  /** Name-to-count view of the heap. */
  ghost function CountsOf(q: seq<Entry>, ix: map<string, int>): (m: map<string, int>)
    requires Indexed(q, ix)
    ensures m.Keys == ix.Keys
  {
    map n | n in ix :: q[ix[n]].val
  }

  ghost predicate IsMinimum(m: map<string, int>, n: string) {
    n in m && forall o :: o in m ==> m[n] <= m[o]
  }

  /** Heap order makes the root a minimum of the whole map, not only of its children. */
  lemma {:induction false} RootIsMinimum(q: seq<Entry>, k: int)
    requires Ordered(q)
    requires 0 <= k < |q|
    ensures q[0].val <= q[k].val
    decreases k
  {
    if k > 0 {
      assert EdgeOk(q, k);
      RootIsMinimum(q, Parent(k));
    }
  }

  class NamedMinHeap {
    var q: seq<Entry>
    var nameIndex: map<string, int>

    ghost predicate Valid()
      reads this
    {
      Indexed(q, nameIndex) && Ordered(q)
    }

    ghost function Counts(): map<string, int>
      requires Indexed(q, nameIndex)
      reads this
    {
      CountsOf(q, nameIndex)
    }

    constructor ()
      ensures Valid() && Counts() == map[]
    {
      q := [];
      nameIndex := map[];
    }

    method Swap(i: int, j: int)
      requires Indexed(q, nameIndex)
      requires 0 <= i < |q| && 0 <= j < |q|
      modifies this
      ensures q == old(q)[i := old(q)[j]][j := old(q)[i]]
      ensures Indexed(q, nameIndex)
      ensures Counts() == old(Counts())
    {
      SwapKeepsCounts(q, nameIndex, i, j);
      q := q[i := q[j]][j := q[i]];
      nameIndex := nameIndex[q[i].name := i];
      nameIndex := nameIndex[q[j].name := j];
    }

    /** One round of `up`. */
    method SwapUp(j: int, ghost n: int)
      requires Indexed(q, nameIndex)
      requires 0 < j < n <= |q|
      requires RisingAt(q, n, j)
      requires q[j].val < q[Parent(j)].val
      modifies this
      ensures Indexed(q, nameIndex)
      ensures Counts() == old(Counts())
      ensures SameTail(q, old(q), n)
      ensures RisingAt(q, n, Parent(j))
    {
      SwapRises(q, n, j);
      var i := Parent(j);
      Swap(i, j);
    }

    /** container/heap `up`. */
    method Up(j0: int, ghost n: int)
      requires Indexed(q, nameIndex)
      requires 0 <= j0 < n <= |q|
      requires RisingAt(q, n, j0)
      modifies this
      ensures Indexed(q, nameIndex)
      ensures Counts() == old(Counts())
      ensures SameTail(q, old(q), n)
      ensures OrderedUpTo(q, n)
    {
      var j := j0;
      while true
        invariant 0 <= j < n <= |q|
        invariant Indexed(q, nameIndex)
        invariant Counts() == old(Counts())
        invariant SameTail(q, old(q), n)
        invariant RisingAt(q, n, j)
        decreases j
      {
        var i := if j == 0 then 0 else Parent(j);
        if i == j || !(q[j].val < q[i].val) {
          RisenIsOrdered(q, n, j);
          return;
        }
        SwapUp(j, n);
        j := i;
      }
    }

    /** The child that `down` compares with: the smaller one, the left one on a tie. */
    method SmallerChild(i: int, n: int) returns (j: int)
      requires 0 <= i && 2 * i + 1 < n <= |q|
      ensures i < j < n && Parent(j) == i
      ensures Smallest(q, n, j)
    {
      j := 2 * i + 1;
      var j2 := j + 1;
      if j2 < n && q[j2].val < q[j].val {
        j := j2;
      }
    }

    /** One round of `down`. */
    method SwapDown(i: int, j: int, ghost n: int)
      requires Indexed(q, nameIndex)
      requires 0 <= i < j < n <= |q| && Parent(j) == i
      requires HoleAt(q, n, i)
      requires Smallest(q, n, j)
      requires q[j].val < q[i].val
      modifies this
      ensures Indexed(q, nameIndex)
      ensures Counts() == old(Counts())
      ensures SameTail(q, old(q), n)
      ensures SinkingAt(q, n, j)
    {
      SwapSinks(q, n, i, j);
      Swap(i, j);
    }

    /** container/heap `down`; reports whether the entry moved. */
    method Down(i0: int, n: int) returns (moved: bool)
      requires Indexed(q, nameIndex)
      requires 0 <= i0 < n <= |q|
      requires HoleAt(q, n, i0)
      modifies this
      ensures Indexed(q, nameIndex)
      ensures Counts() == old(Counts())
      ensures SameTail(q, old(q), n)
      ensures if moved then OrderedUpTo(q, n) else RisingAt(q, n, i0)
    {
      var i := i0;
      while 2 * i + 1 < n
        invariant i0 <= i < n <= |q|
        invariant Indexed(q, nameIndex)
        invariant Counts() == old(Counts())
        invariant SameTail(q, old(q), n)
        invariant HoleAt(q, n, i)
        invariant i > i0 ==> SinkingAt(q, n, i)
        decreases n - i
      {
        var j := SmallerChild(i, n);
        if !(q[j].val < q[i].val) {
          SettledBelow(q, n, i, j);
          return i > i0;
        }
        SwapDown(i, j, n);
        SinkingIsHole(q, n, j);
        i := j;
      }
      SettledAtLeaf(q, n, i);
      return i > i0;
    }

    /** container/heap `Fix`. */
    method Fix(i: int)
      requires Indexed(q, nameIndex)
      requires 0 <= i < |q|
      requires HoleAt(q, |q|, i)
      modifies this
      ensures Valid()
      ensures Counts() == old(Counts())
    {
      var moved := Down(i, |q|);
      if !moved {
        Up(i, |q|);
      }
    }

    method Push(x: Entry)
      requires Indexed(q, nameIndex)
      requires x.name !in nameIndex
      modifies this
      ensures q == old(q) + [x]
      ensures Indexed(q, nameIndex)
      ensures Counts() == old(Counts())[x.name := x.val]
    {
      nameIndex := nameIndex[x.name := |q|];
      q := q + [x];
    }

    method Pop() returns (x: Entry)
      requires Indexed(q, nameIndex)
      requires |q| > 0
      modifies this
      ensures x == old(q)[|old(q)| - 1] && q == old(q)[..|old(q)| - 1]
      ensures Indexed(q, nameIndex)
      ensures Counts() == old(Counts()) - {x.name}
    {
      var n := |q|;
      x := q[n - 1];
      q := q[..n - 1];
      nameIndex := nameIndex - {x.name};
    }

    /** container/heap `Remove`: swap the slot with the last one, repair, pop. */
    method RemoveAt(i: int) returns (x: Entry)
      requires Valid()
      requires 0 <= i < |q|
      modifies this
      ensures Valid()
      ensures x == old(q)[i]
      ensures Counts() == old(Counts()) - {x.name}
    {
      var n := |q| - 1;
      if n != i {
        MoveToEnd(i);
      }
      x := PopOrdered();
    }

    method PopOrdered() returns (x: Entry)
      requires Indexed(q, nameIndex)
      requires |q| > 0 && OrderedUpTo(q, |q| - 1)
      modifies this
      ensures Valid()
      ensures x == old(q)[|old(q)| - 1]
      ensures Counts() == old(Counts()) - {x.name}
    {
      OrderedPrefix(q, |q| - 1);
      x := Pop();
    }

    /** The part of `Remove` before the pop: slot `i` ends up last, the rest is ordered. */
    method MoveToEnd(i: int)
      requires Valid()
      requires 0 <= i < |q| - 1
      modifies this
      ensures Indexed(q, nameIndex)
      ensures Counts() == old(Counts())
      ensures |q| == |old(q)| && q[|q| - 1] == old(q)[i]
      ensures OrderedUpTo(q, |q| - 1)
    {
      var n := |q| - 1;
      SwapOutLeavesHole(q, i);
      Swap(i, n);
      var moved := Down(i, n);
      if !moved {
        Up(i, n);
      }
    }

    method Inc(name: string)
      requires Valid()
      requires name in nameIndex
      modifies this
      ensures Valid()
      ensures Counts() == old(Counts())[name := old(Counts())[name] + 1]
    {
      Bump(name, 1);
    }

    method Dec(name: string)
      requires Valid()
      modifies this
      ensures Valid()
      ensures Counts() == if name in old(Counts()) then old(Counts())[name := old(Counts())[name] - 1] else old(Counts())
    {
      if name !in nameIndex {
        return;
      }
      Bump(name, -1);
    }

    /** The shared body of Inc and Dec. */
    method Bump(name: string, delta: int)
      requires Valid()
      requires name in nameIndex
      modifies this
      ensures Valid()
      ensures Counts() == old(Counts())[name := old(Counts())[name] + delta]
    {
      var i := nameIndex[name];
      var v := q[i].val + delta;
      ChangeLeavesHole(q, i, v);
      ChangeUpdatesCount(q, nameIndex, name, v);
      q := q[i := Entry(name, v)];
      Fix(i);
    }

    method Min() returns (name: string)
      requires Valid()
      requires |q| > 0
      ensures IsMinimum(Counts(), name)
    {
      name := q[0].name;
      forall o | o in Counts()
        ensures Counts()[name] <= Counts()[o]
      {
        RootIsMinimum(q, nameIndex[o]);
      }
    }

    method Add(name: string)
      requires Valid()
      modifies this
      ensures Valid()
      ensures Counts() == if name in old(Counts()) then old(Counts()) else old(Counts())[name := 0]
    {
      if name in nameIndex {
        return;
      }
      ghost var before := q;
      Push(Entry(name, 0));
      PushRises(before, q[|before|]);
      Up(|q| - 1, |q|);
    }

    method Remove(name: string)
      requires Valid()
      modifies this
      ensures Valid()
      ensures Counts() == old(Counts()) - {name}
    {
      if name !in nameIndex {
        return;
      }
      var x := RemoveAt(nameIndex[name]);
    }

    method Len() returns (n: nat)
      requires Valid()
      ensures n == |Counts()|
    {
      SizeOfIndex(q, nameIndex);
      n := |q|;
    }
  }

  /** Distinct names: the queue is as long as the map is large. */
  lemma {:induction false} SizeOfIndex(q: seq<Entry>, ix: map<string, int>)
    requires Indexed(q, ix)
    ensures |q| == |CountsOf(q, ix)|
    decreases |q|
  {
    var m := CountsOf(q, ix);
    if |q| == 0 {
      assert m.Keys == {};
    } else {
      var n := |q| - 1;
      var ix' := ix - {q[n].name};
      SizeOfIndex(q[..n], ix');
      assert CountsOf(q[..n], ix').Keys == m.Keys - {q[n].name};
      assert |m.Keys| == |m.Keys - {q[n].name}| + 1;
    }
  }

  /** Like HoleAt, but the edge above the hole is already ordered. */
  ghost predicate SinkingAt(q: seq<Entry>, n: int, hole: int)
    requires n <= |q|
  {
    && (forall k :: 0 < k < n && Parent(k) != hole ==> EdgeOk(q, k))
    && Bridged(q, n, hole)
  }

  ghost predicate SameTail(p: seq<Entry>, q: seq<Entry>, n: int) {
    |p| == |q| && forall k :: 0 <= n <= k < |q| ==> p[k] == q[k]
  }

  /** Slot `j` is a smallest among its siblings. */
  ghost predicate Smallest(q: seq<Entry>, n: int, j: int)
    requires 0 < j < n <= |q|
  {
    forall k :: 0 < k < n && Parent(k) == Parent(j) ==> q[j].val <= q[k].val
  }

  lemma OrderedPrefix(q: seq<Entry>, n: int)
    requires 0 <= n <= |q|
    ensures OrderedUpTo(q, n) <==> Ordered(q[..n])
  {
    forall k | 0 < k < n
      ensures EdgeOk(q, k) <==> EdgeOk(q[..n], k)
    {
    }
    if OrderedUpTo(q, n) {
      forall k | 0 < k < n
        ensures EdgeOk(q[..n], k)
      {
        assert EdgeOk(q, k);
      }
    }
    if Ordered(q[..n]) {
      forall k | 0 < k < n
        ensures EdgeOk(q, k)
      {
        assert EdgeOk(q[..n], k);
      }
    }
  }

  lemma RisenIsOrdered(q: seq<Entry>, n: int, j: int)
    requires 0 <= j < n <= |q|
    requires RisingAt(q, n, j)
    requires j == 0 || q[Parent(j)].val <= q[j].val
    ensures OrderedUpTo(q, n)
  {
  }

  lemma SinkingIsHole(q: seq<Entry>, n: int, i: int)
    requires 0 <= i < n <= |q|
    requires SinkingAt(q, n, i)
    ensures HoleAt(q, n, i)
  {
  }

  /** The sift stops above a child that is not smaller. */
  lemma SettledBelow(q: seq<Entry>, n: int, i: int, j: int)
    requires 0 <= i < j < n <= |q| && Parent(j) == i
    requires HoleAt(q, n, i) && Smallest(q, n, j)
    requires q[i].val <= q[j].val
    ensures RisingAt(q, n, i)
    ensures SinkingAt(q, n, i) ==> OrderedUpTo(q, n)
  {
    forall k | 0 < k < n && Parent(k) == i
      ensures EdgeOk(q, k)
    {
    }
    forall k | 0 < k < n && k != i
      ensures EdgeOk(q, k)
    {
    }
  }

  /** The sift stops at a slot without children. */
  lemma SettledAtLeaf(q: seq<Entry>, n: int, i: int)
    requires 0 <= i < n <= |q| && n <= 2 * i + 1
    requires HoleAt(q, n, i)
    ensures RisingAt(q, n, i)
    ensures SinkingAt(q, n, i) ==> OrderedUpTo(q, n)
  {
    assert forall k :: 0 < k < n ==> Parent(k) != i;
  }

  lemma SwapRises(q: seq<Entry>, n: int, j: int)
    requires 0 < j < n <= |q|
    requires RisingAt(q, n, j)
    requires q[j].val < q[Parent(j)].val
    ensures RisingAt(q[Parent(j) := q[j]][j := q[Parent(j)]], n, Parent(j))
  {
    var i := Parent(j);
    var p := q[i := q[j]][j := q[i]];
    forall k | 0 < k < n && k != i
      ensures EdgeOk(p, k)
    {
      if k != j {
        assert EdgeOk(q, k);
      }
    }
    if 0 < i {
      assert EdgeOk(q, i);
      forall k | 0 < k < n && Parent(k) == i
        ensures p[Parent(i)].val <= p[k].val
      {
        if k != j {
          assert EdgeOk(q, k);
        }
      }
    }
  }

  lemma SwapSinks(q: seq<Entry>, n: int, i: int, j: int)
    requires 0 <= i < j < n <= |q|
    requires HoleAt(q, n, i)
    requires Parent(j) == i
    requires Smallest(q, n, j)
    requires q[j].val < q[i].val
    ensures SinkingAt(q[i := q[j]][j := q[i]], n, j)
  {
    var p := q[i := q[j]][j := q[i]];
    forall k | 0 < k < n && Parent(k) != j
      ensures EdgeOk(p, k)
    {
      if k != i && Parent(k) != i {
        assert EdgeOk(q, k);
      }
    }
    forall k | 0 < k < n && Parent(k) == j
      ensures p[Parent(j)].val <= p[k].val
    {
      assert EdgeOk(q, k);
    }
  }

  lemma ChangeUpdatesCount(q: seq<Entry>, ix: map<string, int>, name: string, v: int)
    requires Indexed(q, ix)
    requires name in ix
    ensures Indexed(q[ix[name] := Entry(name, v)], ix)
    ensures CountsOf(q[ix[name] := Entry(name, v)], ix) == CountsOf(q, ix)[name := v]
  {
  }

  lemma SwapKeepsCounts(q: seq<Entry>, ix: map<string, int>, i: int, j: int)
    requires Indexed(q, ix)
    requires 0 <= i < |q| && 0 <= j < |q|
    ensures Indexed(q[i := q[j]][j := q[i]], ix[q[j].name := i][q[i].name := j])
    ensures CountsOf(q[i := q[j]][j := q[i]], ix[q[j].name := i][q[i].name := j]) == CountsOf(q, ix)
  {
    var p, px := q[i := q[j]][j := q[i]], ix[q[j].name := i][q[i].name := j];
    forall n | n in px
      ensures 0 <= px[n] < |p| && p[px[n]].name == n && p[px[n]].val == q[ix[n]].val
    {
    }
  }

  lemma ChangeLeavesHole(q: seq<Entry>, i: int, v: int)
    requires 0 <= i < |q|
    requires Ordered(q)
    ensures HoleAt(q[i := Entry(q[i].name, v)], |q|, i)
  {
    var p := q[i := Entry(q[i].name, v)];
    forall k | 0 < k < |q| && k != i && Parent(k) != i
      ensures EdgeOk(p, k)
    {
      assert EdgeOk(q, k);
    }
    if 0 < i {
      assert EdgeOk(q, i);
      forall k | 0 < k < |q| && Parent(k) == i
        ensures p[Parent(i)].val <= p[k].val
      {
        assert EdgeOk(q, k);
      }
    }
  }

  lemma SwapOutLeavesHole(q: seq<Entry>, i: int)
    requires 0 <= i < |q| - 1
    requires Ordered(q)
    ensures HoleAt(q[i := q[|q| - 1]][|q| - 1 := q[i]], |q| - 1, i)
  {
    var n := |q| - 1;
    var p := q[i := q[n]][n := q[i]];
    forall k | 0 < k < n && k != i && Parent(k) != i
      ensures EdgeOk(p, k)
    {
      assert EdgeOk(q, k);
    }
    if 0 < i {
      assert EdgeOk(q, i);
      forall k | 0 < k < n && Parent(k) == i
        ensures p[Parent(i)].val <= p[k].val
      {
        assert EdgeOk(q, k);
      }
    }
  }

  lemma PushRises(q: seq<Entry>, x: Entry)
    requires Ordered(q)
    ensures RisingAt(q + [x], |q| + 1, |q|)
  {
    var p := q + [x];
    forall k | 0 < k < |p| && k != |q|
      ensures EdgeOk(p, k)
    {
      assert EdgeOk(q, k);
    }
  }
}
