/** The segmented byte queue, `SpxBuffer`. */
module Buffer {
  import opened Bytes
  import opened Lines
  import opened Memory

  /** The segments as the front pointer sees them once `_partial_point` is added to it. */
  function Shift(s: seq<Iov>, point: nat): seq<Iov> {
    if s == [] then [] else [s[0].(off := s[0].off + point)] + s[1..]
  }

  lemma ShiftSame(s: seq<Iov>, point: nat)
    ensures var r := Shift(s, point);
            |r| == |s| && Bases(r) == Bases(s) && Total(r) == Total(s) && Longest(r) == Longest(s)
  {
    if s != [] {
      assert Shift(s, point)[1..] == s[1..];
    }
  }

  lemma DropAll(s: seq<Iov>, n: nat)
    requires n >= Total(s)
    ensures Drop(s, n) == []
    decreases |s|
  {
  }

  lemma SplitTotal(s: seq<Iov>, i: nat)
    requires i <= |s|
    ensures Total(s) == Total(s[..i]) + Total(s[i..])
  {
    assert s == s[..i] + s[i..];
    TotalConcat(s[..i], s[i..]);
  }

  /** The bases of a prefix and of the rest of distinct segments. */
  lemma SplitBases(s: seq<Iov>, i: nat)
    requires i <= |s| && Distinct(s)
    ensures Bases(s) == Bases(s[..i]) + Bases(s[i..])
    ensures Bases(s[..i]) !! Bases(s[i..]) && Distinct(s[..i]) && Distinct(s[i..])
    ensures i < |s| ==> Bases(s[..i + 1]) == Bases(s[..i]) + {s[i].base} && s[i].base in Bases(s[i..])
  {
    assert s == s[..i] + s[i..];
    BasesConcat(s[..i], s[i..]);
    DistinctSplit(s[..i], s[i..]);
    if i < |s| {
      assert s[..i + 1] == s[..i] + [s[i]];
      BasesConcat(s[..i], [s[i]]);
      assert s[i..][0] == s[i];
    }
  }

  /** The shape of a queue: whole blocks, distinct, with an offset into the first only. */
  ghost predicate Layout(s: seq<Iov>, point: nat) {
    && (forall i :: 0 <= i < |s| ==> s[i].off == 0)
    && Fits(Shift(s, point))
    && Distinct(s)
    && (s == [] ==> point == 0)
    && (point > 0 ==> s[0].len > 0)
  }

  /** What both deletes leave: segment `it` in front, without its first `tmp` bytes. */
  function CutAt(s: seq<Iov>, it: nat, tmp: nat): seq<Iov>
    requires it < |s| && tmp < s[it].len
  {
    [s[it].(len := s[it].len - tmp)] + s[it + 1..]
  }

  function CutPoint(point: nat, it: nat, tmp: nat): nat {
    if it == 0 then point + tmp else tmp
  }

  lemma CutBases(s: seq<Iov>, it: nat, tmp: nat)
    requires it < |s| && tmp < s[it].len && Distinct(s)
    ensures Bases(CutAt(s, it, tmp)) == Bases(s[it..]) && Distinct(CutAt(s, it, tmp))
    ensures Total(CutAt(s, it, tmp)) == Total(s[it..]) - tmp
  {
    var c, tail := CutAt(s, it, tmp), s[it..];
    assert c[1..] == tail[1..] == s[it + 1..] && tail == [tail[0]] + tail[1..];
    BasesConcat([c[0]], tail[1..]);
    BasesConcat([tail[0]], tail[1..]);
    SplitBases(s, it);
    assert forall i :: 0 <= i < |c| ==> c[i].base == tail[i].base;
  }

  lemma CutLayout(s: seq<Iov>, point: nat, it: nat, tmp: nat)
    requires Layout(s, point) && it < |s| && tmp < s[it].len
    ensures Layout(CutAt(s, it, tmp), CutPoint(point, it, tmp))
    ensures Shift(CutAt(s, it, tmp), CutPoint(point, it, tmp)) == Drop(Shift(s, point)[it..], tmp)
  {
    hide Bases, Total;
    var c, view := CutAt(s, it, tmp), Shift(s, point);
    CutBases(s, it, tmp);
    CutShift(s, point, it, tmp);
    var shown := Shift(c, CutPoint(point, it, tmp));
    assert forall i :: 0 < i < |c| ==> c[i] == s[it + i] && shown[i] == c[i] && view[it + i] == c[i];
    assert view[it].off + view[it].len <= view[it].base.Length;
  }

  lemma CutShift(s: seq<Iov>, point: nat, it: nat, tmp: nat)
    requires it < |s| && tmp < s[it].len && s[it].off == 0
    ensures |Shift(s, point)| == |s|
    ensures Shift(CutAt(s, it, tmp), CutPoint(point, it, tmp)) == Drop(Shift(s, point)[it..], tmp)
  {
    hide Drop;
    var view := Shift(s, point);
    assert view[it..] == [view[it]] + s[it + 1..];
    DropInFirst(view[it], s[it + 1..], tmp);
    ShiftFirst(s[it].(len := s[it].len - tmp), s[it + 1..], CutPoint(point, it, tmp));
  }

  lemma DropInFirst(v: Iov, rest: seq<Iov>, n: nat)
    requires n < v.len
    ensures Drop([v] + rest, n) == [v.(off := v.off + n, len := v.len - n)] + rest
  {
    assert ([v] + rest)[1..] == rest;
  }

  lemma ShiftFirst(v: Iov, rest: seq<Iov>, point: nat)
    ensures Shift([v] + rest, point) == [v.(off := v.off + point)] + rest
  {
    assert ([v] + rest)[1..] == rest;
  }

  /** The cut made at the place where `n` bytes end. */
  lemma CutView(s: seq<Iov>, point: nat, n: nat, it: nat, tmp: nat)
    requires Layout(s, point) && n < Total(s)
    requires it == Walk(s, n) < |s| && tmp == n - Total(s[..it]) < s[it].len
    ensures Layout(CutAt(s, it, tmp), CutPoint(point, it, tmp))
    ensures Shift(CutAt(s, it, tmp), CutPoint(point, it, tmp)) == Drop(Shift(s, point), n)
  {
    CutLayout(s, point, it, tmp);
    DropShift(s, point, n, it, tmp);
  }

  lemma DropShift(s: seq<Iov>, point: nat, n: nat, it: nat, tmp: nat)
    requires n < Total(s) && it == Walk(s, n) < |s| && tmp == n - Total(s[..it])
    ensures |Shift(s, point)| == |s| && Drop(Shift(s, point), n) == Drop(Shift(s, point)[it..], tmp)
  {
    WalkShift(s, point, n);
    ShiftSame(s, point);
    WalkDrop(Shift(s, point), n, it);
  }

  lemma CutTotals(s: seq<Iov>, n: nat, it: nat, tmp: nat)
    requires Distinct(s) && it < |s| && tmp == n - Total(s[..it]) < s[it].len
    ensures Total(CutAt(s, it, tmp)) == Total(s) - n
    ensures Bases(CutAt(s, it, tmp)) == Bases(s) - Bases(s[..it])
    ensures Bases(s[..it]) == Bases(s) - Bases(CutAt(s, it, tmp))
  {
    CutBases(s, it, tmp);
    SplitBases(s, it);
    SplitTotal(s, it);
  }

  /** The walk only looks at lengths. */
  lemma {:induction false} WalkSameLengths(s: seq<Iov>, t: seq<Iov>, n: nat)
    requires |s| == |t| && forall i :: 0 <= i < |s| ==> s[i].len == t[i].len
    ensures Walk(s, n) == Walk(t, n)
    ensures forall w :: 0 <= w <= |s| ==> Total(s[..w]) == Total(t[..w])
    decreases |s|
  {
    if s != [] {
      WalkSameLengths(s[1..], t[1..], if n < s[0].len then 0 else n - s[0].len);
      forall w | 0 < w <= |s|
        ensures Total(s[..w]) == Total(t[..w])
      {
        assert s[..w][1..] == s[1..][..w - 1] && t[..w][1..] == t[1..][..w - 1];
      }
    }
  }

  lemma WalkShift(s: seq<Iov>, point: nat, n: nat)
    ensures Walk(Shift(s, point), n) == Walk(s, n)
    ensures forall w :: 0 <= w <= |s| ==> Total(Shift(s, point)[..w]) == Total(s[..w])
  {
    WalkSameLengths(Shift(s, point), s, n);
  }

  /** Dropping everything or more leaves nothing. */
  lemma DropMore(s: seq<Iov>, r: nat, n: nat)
    requires r == Min(n, Total(s))
    ensures Drop(s, r) == Drop(s, n)
  {
    if n >= Total(s) {
      DropAll(s, n);
      DropAll(s, r);
    }
  }

  /** What a queue holds does not change while its blocks are not written. */
  twostate lemma Unchanged(s: seq<Iov>)
    requires Fits(s)
    requires forall i :: 0 <= i < |s| ==> old(s[i].base[..]) == s[i].base[..]
    ensures Gather(s) == old(Gather(s))
    decreases |s|
  {
    if s != [] {
      Unchanged(s[1..]);
    }
  }

  lemma ShiftAppend(s: seq<Iov>, point: nat, xs: seq<Iov>)
    requires s == [] ==> point == 0
    ensures Shift(s + xs, point) == Shift(s, point) + xs
  {
    if s == [] {
      ShiftNone(xs);
      assert s + xs == xs;
    } else {
      assert (s + xs)[1..] == s[1..] + xs;
    }
  }

  /** Appending whole segments of other blocks. */
  lemma LayoutAppend(s: seq<Iov>, point: nat, xs: seq<Iov>)
    requires Layout(s, point) && Layout(xs, 0) && Bases(s) !! Bases(xs)
    ensures Layout(s + xs, point)
  {
    ShiftAppend(s, point, xs);
    DistinctJoin(s, xs);
    ShiftNone(xs);
  }

  lemma ShiftNone(s: seq<Iov>)
    ensures Shift(s, 0) == s
  {
    if s != [] {
      assert s == [s[0]] + s[1..];
    }
  }

  /** A prefix of unshifted segments is a layout of its own. */
  lemma LayoutPrefix(s: seq<Iov>, i: nat)
    requires Layout(s, 0) && i <= |s|
    ensures Layout(s[..i], 0)
  {
    ShiftNone(s);
    ShiftNone(s[..i]);
  }

  lemma WholePortion(s: seq<Iov>, size: nat, it: nat)
    requires Layout(s, 0) && Fits(s) && size <= Total(s)
    requires it == Walk(s, size) && Total(s[..it]) == size
    ensures Layout(s[..it], 0) && Fits(s[..it]) && Gather(s[..it]) == Gather(s)[..size]
  {
    LayoutPrefix(s, it);
    WalkEnd(s, size);
    GatherPrefix(s, size, it, 0);
  }

  lemma SplitPortion(s: seq<Iov>, size: nat, it: nat, tmp: nat, a: array<byte>)
    requires Layout(s, 0) && Fits(s) && size <= Total(s)
    requires it == Walk(s, size) < |s| && tmp == size - Total(s[..it]) < s[it].len
    requires a !in Bases(s[..it]) && a.Length == tmp && a[..] == Data(s[it])[..tmp]
    ensures var xs := s[..it] + [Iov(a, 0, tmp)];
            && Layout(xs, 0) && Fits(xs) && Gather(xs) == Gather(s)[..size]
            && Bases(xs) == Bases(s[..it]) + {a}
  {
    var x := [Iov(a, 0, tmp)];
    LayoutPrefix(s, it);
    LayoutAppend(s[..it], 0, x);
    GatherPrefix(s, size, it, tmp);
    assert Gather(x) == a[..];
    GatherConcat(s[..it], x);
    BasesConcat(s[..it], x);
  }

  lemma DropWholeFront(s: seq<Iov>)
    requires s != [] && forall i :: 0 < i < |s| ==> s[i].off == 0
    ensures var r := Drop(s, s[0].len); forall i :: 0 <= i < |r| ==> r[i].off == 0
  {
    DropNothing(s[1..]);
  }

  lemma DropNothing(s: seq<Iov>)
    requires forall i :: 0 <= i < |s| ==> s[i].off == 0
    ensures forall i :: 0 <= i < |Drop(s, 0)| ==> Drop(s, 0)[i].off == 0
    decreases |s|
  {
  }

  /** Moving `m` bytes and then the rest of `n` moves `n` bytes. */
  lemma MoveTwice(t: bytes, c: bytes, m: nat, n: nat)
    requires m <= n
    ensures m <= |c| && n <= |c| ==> c[m..][n - m..] == c[n..] && t + c[..m] + c[m..][..n - m] == t + c[..n]
    ensures m <= |c| && n == m ==> t + c[..m] == t + c[..n]
  {
    if n <= |c| {
      assert c[..m] + c[m..][..n - m] == c[..n];
    }
  }

  lemma FindStep(rest: seq<Iov>, c: byte)
    requires Fits(rest) && rest != []
    ensures var p := IndexOf(Data(rest[0]), c);
            IndexOf(Gather(rest), c) == if p < rest[0].len then p else rest[0].len + IndexOf(Gather(rest[1..]), c)
    ensures |Gather(rest)| == rest[0].len + |Gather(rest[1..])|
  {
    IndexOfConcat(Data(rest[0]), Gather(rest[1..]), c);
  }

  lemma EmptyGather()
    ensures Gather([]) == []
  {
  }

  /** A search segment by segment that starts at position `pos`. */
  function FindFrom(s: seq<Iov>, pos: nat, c: byte, max: nat): Option<nat>
    requires Fits(s)
    reads Bases(s)
    decreases |s|
  {
    if s == [] then None else
      var tmp := IndexOf(Data(s[0]), c);
      if pos + tmp > max then None
      else if tmp != s[0].len then Some(pos + tmp)
      else FindFrom(s[1..], pos + tmp, c, max)
  }

  lemma {:induction false} FindFromIs(s: seq<Iov>, pos: nat, c: byte, max: nat)
    requires Fits(s)
    ensures var i := IndexOf(Gather(s), c);
            FindFrom(s, pos, c, max) == if i < |Gather(s)| && pos + i <= max then Some(pos + i) else None
    decreases |s|
  {
    hide IndexOf, Data, Gather;
    if s == [] {
      EmptyGather();
    } else {
      FindStep(s, c);
      var tmp := IndexOf(Data(s[0]), c);
      if tmp == s[0].len && pos + tmp <= max {
        FindFromIs(s[1..], pos + tmp, c, max);
        assert FindFrom(s, pos, c, max) == FindFrom(s[1..], pos + tmp, c, max);
      } else {
        assert FindFrom(s, pos, c, max) == if pos + tmp > max then None else Some(pos + tmp);
      }
    }
  }

  lemma PassOn(a: bytes, c: bytes, n: nat)
    requires n <= |c|
    ensures a + c[..n] + c[n..] == a + c
  {
  }

  lemma DropTwice(c: bytes, n: nat, m: nat)
    requires n + m <= |c|
    ensures c[n..][m..] == c[n + m..]
  {
  }

  lemma StepCopy(rest: seq<Iov>, s: bytes, tmp: nat)
    requires Fits(rest) && rest != [] && tmp <= |Gather(rest)|
    ensures tmp <= rest[0].len ==> Gather(rest)[..tmp] == Data(rest[0])[..tmp]
    ensures tmp >= rest[0].len ==> tmp - rest[0].len <= |Gather(rest[1..])|
    ensures tmp >= rest[0].len ==>
              s + Gather(rest)[..tmp] == s + Data(rest[0]) + Gather(rest[1..])[..tmp - rest[0].len]
  {
    TakeConcat(Data(rest[0]), Gather(rest[1..]), tmp);
  }

  class SpxBuffer {
    const heap: Heap
    var buf: seq<Iov>
    var bufSize: nat
    var partialPoint: nat

    ghost predicate Valid()
      reads this, heap
    {
      Layout(buf, partialPoint) && Bases(buf) <= heap.live && bufSize == Total(buf)
    }

    function View(): seq<Iov>
      reads this
    {
      Shift(buf, partialPoint)
    }

    /** The flat byte string the segments stand for. */
    ghost function Content(): (c: bytes)
      requires Fits(View())
      reads this, Bases(View())
    {
      Gather(View())
    }

    /** A queue whose fields and blocks have not been written holds what it held. */
    twostate lemma Same()
      requires buf == old(buf) && partialPoint == old(partialPoint) && Fits(View())
      requires forall i :: 0 <= i < |buf| ==> old(buf[i].base[..]) == buf[i].base[..]
      ensures Content() == old(Content())
    {
      if buf != [] {
        forall i | 0 <= i < |View()|
          ensures old(View()[i].base[..]) == View()[i].base[..]
        {
          assert View()[i].base == buf[i].base;
        }
      }
      Unchanged(View());
    }

    /** Nothing about the queue has changed. */
    twostate lemma Untouched()
      requires unchanged(this) && Fits(View())
      requires forall i :: 0 <= i < |buf| ==> old(buf[i].base[..]) == buf[i].base[..]
      ensures Content() == old(Content()) && View() == old(View())
    {
      Same();
    }

    /** A queue stays valid while its fields are unchanged and its blocks are live. */
    twostate lemma StillValid()
      requires old(Valid()) && Bases(buf) <= heap.live
      requires buf == old(buf) && bufSize == old(bufSize) && partialPoint == old(partialPoint)
      ensures Valid()
    {
    }

    lemma ContentLength()
      requires Valid()
      ensures |Content()| == bufSize
      ensures buf == [] ==> bufSize == 0
      ensures buf != [] ==> buf[0].len <= bufSize
      ensures (forall i :: 0 <= i < |View()| ==> View()[i].off == 0) ==> partialPoint == 0
    {
      ShiftSame(buf, partialPoint);
      assert buf != [] ==> View()[0].off == partialPoint;
    }

    constructor (heap: Heap)
      ensures Valid() && this.heap == heap && buf == [] && bufSize == 0 && partialPoint == 0 && Content() == []
    {
      this.heap := heap;
      buf, bufSize, partialPoint := [], 0, 0;
    }

    method Clear()
      requires Valid()
      modifies this, heap
      ensures Valid() && buf == [] && Content() == []
      ensures heap.live == old(heap.live) - old(Bases(buf))
    {
      while buf != []
        invariant Distinct(buf) && Bases(buf) <= heap.live
        invariant heap.live == old(heap.live) - (old(Bases(buf)) - Bases(buf))
        invariant Bases(buf) <= old(Bases(buf))
        decreases |buf|
      {
        var k := |buf| - 1;
        SplitBases(buf, k);
        assert buf[k..] == [buf[k]];
        heap.Delete(buf[k].base);
        buf := buf[..k];
      }
      bufSize, partialPoint := 0, 0;
    }

    /** The loop of `delete_size_`: frees the segments that `size` bytes fill. */
    method FreeWhole(size: nat) returns (it: nat, tmp: nat)
      requires Distinct(buf) && Bases(buf) <= heap.live && size < Total(buf)
      modifies heap
      ensures it == Walk(buf, size) < |buf| && tmp == size - Total(buf[..it]) < buf[it].len
      ensures heap.live == old(heap.live) - Bases(buf[..it])
    {
      it, tmp := 0, size;
      while tmp >= buf[it].len
        invariant it < |buf| && 0 <= tmp < Total(buf[it..])
        invariant it + Walk(buf[it..], tmp) == Walk(buf, size) && Total(buf[..it]) + tmp == size
        invariant heap.live == old(heap.live) - Bases(buf[..it])
        decreases |buf| - it
      {
        SplitBases(buf, it);
        SplitTotal(buf, it);
        SplitTotal(buf, it + 1);
        assert buf[it..][1..] == buf[it + 1..];
        heap.Delete(buf[it].base);
        tmp := tmp - buf[it].len;
        it := it + 1;
      }
      WalkEnd(buf, size);
    }

    /** `delete_size_`: drops the first `size` bytes and frees the segments they filled. */
    method DeleteSize(size: nat) returns (r: nat)
      requires Valid()
      modifies this, heap
      ensures Valid()
      ensures r == Min(size, old(bufSize))
      ensures View() == Drop(old(View()), size)
      ensures Content() == old(Content())[r..]
      ensures Bases(buf) <= old(Bases(buf)) && Longest(View()) <= old(Longest(View()))
      ensures heap.live == old(heap.live) - (old(Bases(buf)) - Bases(buf))
    {
      hide Gather, Drop, Total, Longest;
      ghost var view := View();
      ShiftSame(buf, partialPoint);
      if size < bufSize {
        bufSize := bufSize - size;
        var it, tmp := FreeWhole(size);
        CutView(buf, partialPoint, size, it, tmp);
        CutTotals(buf, size, it, tmp);
        buf, partialPoint := CutAt(buf, it, tmp), CutPoint(partialPoint, it, tmp);
        r := size;
      } else {
        DropAll(View(), size);
        r := bufSize;
        Clear();
      }
      Unchanged(view);
      GatherDrop(view, r);
      DropMore(view, r, size);
    }

    /** The walk of `delete_size_for_move_` and `move_nonpartial_case_`: nothing is freed. */
    method Whole(size: nat) returns (it: nat, tmp: nat)
      requires size <= Total(buf)
      ensures it == Walk(buf, size) <= |buf| && tmp == size - Total(buf[..it])
      ensures it < |buf| ==> tmp < buf[it].len
      ensures it == |buf| ==> tmp == 0 && size == Total(buf)
    {
      it, tmp := 0, size;
      while it < |buf| && tmp >= buf[it].len
        invariant it <= |buf| && 0 <= tmp <= Total(buf[it..])
        invariant it + Walk(buf[it..], tmp) == Walk(buf, size) && Total(buf[..it]) + tmp == size
        decreases |buf| - it
      {
        SplitTotal(buf, it);
        SplitTotal(buf, it + 1);
        assert buf[it..][1..] == buf[it + 1..];
        tmp := tmp - buf[it].len;
        it := it + 1;
      }
      WalkEnd(buf, size);
    }

    /** `delete_size_for_move_`: drops the first `size` bytes; the segments they filled live on. */
    method DeleteSizeForMove(size: nat) returns (r: nat)
      requires Valid()
      modifies this
      ensures Valid()
      ensures r == Min(size, old(bufSize))
      ensures View() == Drop(old(View()), size)
      ensures Content() == old(Content())[r..]
      ensures size <= old(bufSize) ==>
                Bases(buf) == old(Bases(buf)) - old(Bases(buf[..Walk(buf, size)]))
    {
      ghost var view := View();
      ShiftSame(buf, partialPoint);
      if size < bufSize {
        bufSize := bufSize - size;
        var it, tmp := Whole(size);
        CutView(buf, partialPoint, size, it, tmp);
        CutTotals(buf, size, it, tmp);
        buf, partialPoint := CutAt(buf, it, tmp), CutPoint(partialPoint, it, tmp);
        r := size;
      } else {
        DropAll(View(), size);
        WalkAll(buf);
        assert buf[..|buf|] == buf;
        r := bufSize;
        buf, bufSize, partialPoint := [], 0, 0;
      }
      Unchanged(view);
      GatherDrop(view, r);
      DropMore(view, r, size);
    }

    /** Inserts whole segments at the end. */
    method Append(xs: seq<Iov>, size: nat)
      requires Valid() && Layout(xs, 0) && Fits(xs) && Bases(xs) !! Bases(buf) && Bases(xs) <= heap.live
      requires size == Total(xs)
      modifies this
      ensures Valid()
      ensures View() == old(View()) + xs
      ensures Content() == old(Content()) + old(Gather(xs))
      ensures Bases(buf) == old(Bases(buf)) + Bases(xs)
    {
      ghost var view := View();
      ShiftNone(xs);
      LayoutAppend(buf, partialPoint, xs);
      ShiftAppend(buf, partialPoint, xs);
      ShiftNone(xs);
      TotalConcat(buf, xs);
      BasesConcat(buf, xs);
      buf, bufSize := buf + xs, bufSize + size;
      Unchanged(view);
      Unchanged(xs);
      GatherConcat(view, xs);
    }

    /** What `move_nonpartial_case_` hands over: whole segments, and a copy of the last part. */
    method Portion(size: nat) returns (xs: seq<Iov>)
      requires Valid() && partialPoint == 0 && size <= bufSize
      modifies heap
      ensures Layout(xs, 0) && Fits(xs) && Gather(xs) == old(Content()[..size])
      ensures Bases(buf[..Walk(buf, size)]) <= Bases(xs) <= heap.live
      ensures fresh(Bases(xs) - Bases(buf[..Walk(buf, size)]))
      ensures heap.live == old(heap.live) + Bases(xs)
    {
      ShiftNone(buf);
      var it, tmp := Whole(size);
      SplitBases(buf, it);
      xs := buf[..it];
      if tmp > 0 {
        BasesHas(buf, it);
        var a := heap.Copy(buf[it].base, 0, tmp);
        xs := xs + [Iov(a, 0, tmp)];
        Same();
        SplitPortion(buf, size, it, tmp, a);
      } else {
        WholePortion(buf, size, it);
      }
    }

    /** The segments `xs` for the first `size` bytes go to the other queue. */
    method HandOver(to: SpxBuffer, xs: seq<Iov>, size: nat)
      requires Valid() && to.Valid() && to != this && to.heap == heap && size <= bufSize
      requires Layout(xs, 0) && Bases(xs) !! Bases(to.buf) && Bases(xs) <= heap.live
      requires Fits(xs) && Gather(xs) == Content()[..size]
      modifies this, to
      ensures Valid() && to.Valid()
      ensures Content() == old(Content())[size..]
      ensures to.Content() == old(to.Content()) + old(Content())[..size]
      ensures View() == Drop(old(View()), size)
      ensures Bases(buf) == old(Bases(buf)) - old(Bases(buf[..Walk(buf, size)]))
      ensures Bases(to.buf) == old(Bases(to.buf)) + Bases(xs)
    {
      TotalIsSize(xs, size);
      to.Append(xs, size);
      label Appended:
      assert Content() == old(Content()) by {
        Same();
      }
      var _ := DeleteSizeForMove(size);
      assert to.Content() == old@Appended(to.Content()) by {
        to.Same@Appended();
      }
    }

    /** `move_nonpartial_case_`: whole segments change hands without being copied or freed. */
    method MoveNonpartial(to: SpxBuffer, size: nat)
      requires Valid() && to.Valid() && to != this && to.heap == heap
      requires Bases(buf) !! Bases(to.buf)
      requires partialPoint == 0 && size <= bufSize
      modifies this, to, heap
      ensures Valid() && to.Valid()
      ensures Content() == old(Content())[size..]
      ensures to.Content() == old(to.Content()) + old(Content())[..size]
      ensures View() == Drop(old(View()), size)
      ensures Bases(buf) !! Bases(to.buf)
      ensures Bases(buf) <= old(Bases(buf))
      ensures heap.live - Bases(buf) - Bases(to.buf) == old(heap.live - Bases(buf) - Bases(to.buf))
      ensures Longest(View()) <= old(Longest(View()))
    {
      SplitBases(buf, Walk(buf, size));
      hide Gather, Total, Longest;
      var xs := Portion(size);
      assert to.Content() == old(to.Content()) by {
        to.Same();
      }
      assert Content() == old(Content()) by {
        Same();
      }
      HandOver(to, xs, size);
    }

    /** `move_partial_case_`: the rest of the front segment is copied, and freed when used up. */
    method MovePartial(to: SpxBuffer, size: nat)
      requires Valid() && to.Valid() && to != this && to.heap == heap
      requires Bases(buf) !! Bases(to.buf)
      requires partialPoint > 0 && 0 < size <= bufSize
      modifies this, to, heap
      ensures Valid() && to.Valid()
      ensures Content() == old(Content())[size..]
      ensures to.Content() == old(to.Content()) + old(Content())[..size]
      ensures Bases(buf) !! Bases(to.buf)
      ensures Bases(buf) <= old(Bases(buf))
      ensures heap.live - Bases(buf) - Bases(to.buf) == old(heap.live - Bases(buf) - Bases(to.buf))
      ensures Longest(View()) <= old(Longest(View()))
    {
      var del := buf[0].len;
      if size < del {
        SplitFront(to, size);
      } else {
        MoveTwice(to.Content(), Content(), del, size);
        DrainFront(to);
        if size - del > 0 {
          MoveNonpartial(to, size - del);
        }
      }
    }

    /** A part of the front segment is copied to the other queue. */
    method SplitFront(to: SpxBuffer, size: nat)
      requires Valid() && to.Valid() && to != this && to.heap == heap
      requires Bases(buf) !! Bases(to.buf) && buf != [] && size < buf[0].len && size <= bufSize
      modifies this, to, heap
      ensures Valid() && to.Valid()
      ensures Content() == old(Content())[size..]
      ensures to.Content() == old(to.Content()) + old(Content())[..size]
      ensures Bases(buf) !! Bases(to.buf)
      ensures Bases(buf) == old(Bases(buf))
      ensures heap.live - Bases(buf) - Bases(to.buf) == old(heap.live - Bases(buf) - Bases(to.buf))
      ensures Longest(View()) <= old(Longest(View()))
    {
      CopyOver(to, size);
      assert buf[..Walk(buf, size)] == [];
      label Copied:
      var _ := DeleteSizeForMove(size);
      assert to.Content() == old@Copied(to.Content()) by {
        to.Same@Copied();
      }
    }

    /** A copy of the first `n` bytes, all in the front segment, goes to the other queue. */
    method CopyOver(to: SpxBuffer, n: nat)
      requires Valid() && to.Valid() && to != this && to.heap == heap
      requires Bases(buf) !! Bases(to.buf) && buf != [] && n <= buf[0].len
      modifies to, heap
      ensures Valid() && to.Valid()
      ensures Content() == old(Content()) && n <= |Content()|
      ensures to.Content() == old(to.Content()) + old(Content())[..n]
      ensures fresh(Bases(to.buf) - old(Bases(to.buf))) && old(Bases(to.buf)) <= Bases(to.buf)
      ensures heap.live == old(heap.live) + Bases(to.buf)
    {
      ContentLength();
      var xs := CopyFront(n);
      assert to.Content() == old(to.Content()) by {
        to.Same();
      }
      TotalIsSize(xs, n);
      to.Append(xs, n);
      assert Content() == old(Content()) by {
        Same();
      }
    }

    /** The rest of the front segment is copied to the other queue and freed. */
    method DrainFront(to: SpxBuffer)
      requires Valid() && to.Valid() && to != this && to.heap == heap
      requires Bases(buf) !! Bases(to.buf) && buf != []
      modifies this, to, heap
      ensures Valid() && to.Valid() && partialPoint == 0
      ensures Content() == old(Content())[old(buf[0].len)..] && bufSize == old(bufSize) - old(buf[0].len)
      ensures to.Content() == old(to.Content()) + old(Content())[..old(buf[0].len)]
      ensures Bases(buf) !! Bases(to.buf)
      ensures Bases(buf) <= old(Bases(buf))
      ensures heap.live - Bases(buf) - Bases(to.buf) == old(heap.live - Bases(buf) - Bases(to.buf))
      ensures Longest(View()) <= old(Longest(View()))
    {
      hide Gather, Drop;
      var del := buf[0].len;
      DropWholeFront(View());
      CopyOver(to, del);
      label Copied:
      var _ := DeleteSize(del);
      assert to.Content() == old@Copied(to.Content()) by {
        to.Same@Copied();
      }
      ContentLength();
    }

    /** A copy of the first `n` bytes, taken from the front segment alone. */
    method CopyFront(n: nat) returns (xs: seq<Iov>)
      requires Valid() && buf != [] && n <= buf[0].len
      modifies heap
      ensures Layout(xs, 0) && Fits(xs) && Gather(xs) == old(Content()[..n])
      ensures fresh(Bases(xs)) && heap.live == old(heap.live) + Bases(xs)
    {
      BasesHas(buf, 0);
      ghost var view := View();
      assert view[0].off + view[0].len <= view[0].base.Length;
      var a := heap.Copy(buf[0].base, partialPoint, n);
      xs := [Iov(a, 0, n)];
      assert Gather(xs) == a[..] == Data(view[0])[..n];
      Unchanged(view);
      TakeConcat(Data(view[0]), Gather(view[1..]), n);
    }

    /** `move_`: the first `size` bytes, or all there are, move to the end of the other queue. */
    method Move(to: SpxBuffer, size: nat) returns (r: nat)
      requires Valid() && to.Valid() && to != this && to.heap == heap
      requires Bases(buf) !! Bases(to.buf)
      modifies this, to, heap
      ensures Valid() && to.Valid()
      ensures r == Min(size, old(bufSize))
      ensures Content() == old(Content())[r..]
      ensures to.Content() == old(to.Content()) + old(Content())[..r]
      // every block that was in neither queue is still in neither; all others are in exactly one or freed
      ensures Bases(buf) !! Bases(to.buf)
      ensures Bases(buf) <= old(Bases(buf))
      ensures heap.live - Bases(buf) - Bases(to.buf) == old(heap.live - Bases(buf) - Bases(to.buf))
      ensures Longest(View()) <= old(Longest(View()))
    {
      r := if size > bufSize then bufSize else size;
      if r == 0 {
        return;
      }
      if partialPoint > 0 {
        MovePartial(to, r);
      } else {
        MoveNonpartial(to, r);
      }
    }

    // ----- reading -----

    /** `find_pos_`: the bound does not apply inside the front segment. */
    method FindPos(c: byte, max: nat) returns (r: Option<nat>)
      requires Valid() && buf != []
      ensures r == Lines.FindPos(Content(), buf[0].len, c, max)
    {
      ghost var view := View();
      assert view[0].off + view[0].len <= view[0].base.Length;
      var pos := IndexOf(Data(Iov(buf[0].base, buf[0].off + partialPoint, buf[0].len)), c);
      FindStep(view, c);
      if pos != buf[0].len {
        return Some(pos);
      }
      assert view[1..] == buf[1..];
      FindFromIs(buf[1..], buf[0].len, c, max);
      r := FindBehindFront(c, max);
    }

    /** The loop of `find_pos_` over the segments behind the front. */
    method FindBehindFront(c: byte, max: nat) returns (r: Option<nat>)
      requires buf != [] && Fits(buf[1..])
      ensures r == FindFrom(buf[1..], buf[0].len, c, max)
    {
      var pos, it := buf[0].len, 1;
      ghost var here := buf[1..];
      while it < |buf|
        invariant 1 <= it <= |buf| && here == buf[it..] && Fits(here) && 0 <= pos
        invariant FindFrom(here, pos, c, max) == FindFrom(buf[1..], buf[0].len, c, max)
        decreases |buf| - it
      {
        assert here[0] == buf[it] && here[1..] == buf[it + 1..];
        var tmp := IndexOf(Data(buf[it]), c);
        pos := pos + tmp;
        if pos > max {
          return None;
        } else if tmp != buf[it].len {
          return Some(pos);
        }
        here := here[1..];
        it := it + 1;
      }
      return None;
    }

    /** `pos_val_`: the byte at a position, zero behind the end. */
    method PosVal(at: nat) returns (b: byte)
      requires Valid()
      ensures b == if at < |Content()| then Content()[at] else '\0'
    {
      hide Bases, Longest;
      ContentLength();
      if at >= bufSize {
        return '\0';
      }
      ghost var view := View();
      if buf[0].len > at {
        return buf[0].base[partialPoint + at];
      }
      var pos, it := at - buf[0].len, 1;
      while buf[it].len <= pos
        invariant 1 <= it < |buf| && 0 <= pos < |Gather(view[it..])|
        invariant Gather(view[it..])[pos] == Content()[at]
        decreases |buf| - it
      {
        assert view[it] == buf[it] && view[it..][1..] == view[it + 1..];
        pos := pos - buf[it].len;
        it := it + 1;
      }
      assert view[it] == buf[it];
      return buf[it].base[pos];
    }

    /** `get_str_cpy_`: appends the first `size` bytes, or all there are, to a string. */
    method GetStrCpy(str: bytes, size: nat) returns (s: bytes)
      requires Valid() && buf != []
      ensures s == str + Content()[..Min(size, bufSize)]
    {
      ContentLength();
      var n := if size >= bufSize then bufSize else size;
      ghost var view := View();
      var front := Iov(buf[0].base, buf[0].off + partialPoint, buf[0].len);
      TakeConcat(Data(front), Gather(view[1..]), n);
      if buf[0].len >= n {
        return str + Data(front)[..n];
      }
      s := CopyRest(str + Data(front), n - buf[0].len);
    }

    /** The loop of `get_str_cpy_` over the segments behind the front. */
    method CopyRest(str: bytes, size: nat) returns (s: bytes)
      requires Valid() && buf != [] && 0 < size <= |Gather(View()[1..])|
      ensures s == str + Gather(View()[1..])[..size]
    {
      hide Gather, Longest;
      ghost var rest := View()[1..];
      assert Fits(rest) && forall i :: 0 <= i < |rest| ==> rest[i] == buf[i + 1];
      var tmp, it := size, 1;
      s := str;
      while tmp > buf[it].len
        invariant 1 <= it < |buf| && 0 < tmp <= size
        invariant tmp <= |Gather(rest[it - 1..])|
        invariant s + Gather(rest[it - 1..])[..tmp] == str + Gather(rest)[..size]
        decreases |buf| - it
      {
        StepCopy(rest[it - 1..], s, tmp);
        assert rest[it - 1] == buf[it] && rest[it - 1..][1..] == rest[it..];
        s := s + Data(buf[it]);
        tmp := tmp - buf[it].len;
        it := it + 1;
      }
      assert rest[it - 1] == buf[it];
      StepCopy(rest[it - 1..], s, tmp);
      s := s + Data(buf[it])[..tmp];
    }

    /** `get_str_`: the same, and the bytes are dropped. */
    method GetStr(str: bytes, size: nat) returns (s: bytes)
      requires Valid() && buf != []
      modifies this, heap
      ensures Valid()
      ensures s == str + old(Content())[..Min(size, old(bufSize))]
      ensures Content() == old(Content())[Min(size, old(bufSize))..]
      ensures Bases(buf) <= old(Bases(buf)) && Longest(View()) <= old(Longest(View()))
      ensures heap.live == old(heap.live) - (old(Bases(buf)) - Bases(buf))
    {
      s := GetStrCpy(str, size);
      var _ := DeleteSize(if size >= bufSize then bufSize else size);
    }

    /** The length of the front segment, zero when there is none. */
    function FrontLen(): nat
      reads this
    {
      if buf == [] then 0 else buf[0].len
    }

    /** What line extraction sees. */
    ghost function Scanned(max: nat): Scan
      requires Fits(View())
      reads this, Bases(View())
    {
      ScanLine(Content(), FrontLen(), max)
    }

    /** The search all line extractions begin with: the first LF and whether CR precedes it. */
    method FindLf(size: nat) returns (pos: Option<nat>, cr: bool)
      requires Valid()
      ensures pos == Lines.FindPos(Content(), FrontLen(), LF, size)
      ensures pos.Some? ==> buf != [] && cr == (pos.value > 0 && Content()[pos.value - 1] == CR)
    {
      pos, cr := None, false;
      if buf == [] {
        return;
      }
      pos := FindPos(LF, size);
      if pos.Some? && pos.value > 0 {
        var before := PosVal(pos.value - 1);
        cr := before == CR;
      }
    }

    /** Appends `n` bytes to a string and drops them and the line ending behind them. */
    method TakeLine(line: bytes, n: nat, ending: nat) returns (l: bytes)
      requires Valid() && n + ending <= |Content()| && buf != []
      modifies this, heap
      ensures Valid()
      ensures l == line + old(Content())[..n] && Content() == old(Content())[n + ending..]
      ensures Bases(buf) <= old(Bases(buf)) && Longest(View()) <= old(Longest(View()))
      ensures heap.live == old(heap.live) - (old(Bases(buf)) - Bases(buf))
    {
      hide Content, Longest;
      ContentLength();
      DropTwice(Content(), n, ending);
      l := GetStr(line, n);
      ContentLength();
      var _ := DeleteSize(ending);
    }

    /** `get_crlf_line_` */
    method GetCrlfLine(line: bytes, size: nat) returns (r: int, l: bytes)
      requires Valid()
      modifies this, heap
      ensures Valid()
      ensures match old(Scanned(size))
              case NoLine => r == 0 && l == line && Content() == old(Content())
              case Malformed => r == -1 && l == line && Content() == old(Content())
              case Line(n) => r == 1 && l == line + old(Content())[..n] && Content() == old(Content())[n + 2..]
      ensures Bases(buf) <= old(Bases(buf)) && Longest(View()) <= old(Longest(View()))
      ensures heap.live == old(heap.live) - (old(Bases(buf)) - Bases(buf))
    {
      r, l := 0, line;
      var pos, cr := FindLf(size);
      if pos == None {
        return;
      } else if pos.value == 0 || !cr {
        return -1, l;
      }
      l := TakeLine(line, pos.value - 1, 2);
      r := 1;
    }

    /** `get_crlf_cpy_line_`: the same, and the line stays. */
    method GetCrlfCpyLine(line: bytes, size: nat) returns (r: int, l: bytes)
      requires Valid()
      ensures match Scanned(size)
              case NoLine => r == 0 && l == line
              case Malformed => r == -1 && l == line
              case Line(n) => r == 1 && l == line + Content()[..n]
    {
      r, l := 0, line;
      var pos, cr := FindLf(size);
      if pos == None {
        return;
      } else if pos.value == 0 || !cr {
        return -1, l;
      }
      ContentLength();
      l := GetStrCpy(line, pos.value - 1);
      r := 1;
    }

    /** `get_lf_line_`: a line that may end in LF alone. */
    method GetLfLine(line: bytes, size: nat) returns (r: int, l: bytes)
      requires Valid()
      modifies this, heap
      ensures Valid()
      ensures var c := old(Content());
              match Lines.FindPos(c, old(FrontLen()), LF, size)
              case None => r == 0 && l == line && Content() == c
              case Some(p) =>
                if p == 0 then r == -1 && l == line && Content() == c
                else r == 1 && Content() == c[p + 1..] && l == line + c[..if c[p - 1] == CR then p - 1 else p]
      ensures Bases(buf) <= old(Bases(buf)) && Longest(View()) <= old(Longest(View()))
      ensures heap.live == old(heap.live) - (old(Bases(buf)) - Bases(buf))
    {
      r, l := 0, line;
      var pos, cr := FindLf(size);
      if pos == None {
        return;
      } else if pos.value == 0 {
        return -1, l;
      }
      if cr {
        l := TakeLine(line, pos.value - 1, 2);
      } else {
        l := TakeLine(line, pos.value, 1);
      }
      r := 1;
    }

    // ----- filling and draining -----

    /** `add_str` */
    method AddStr(str: bytes)
      requires Valid()
      modifies this, heap
      ensures Valid()
      ensures Content() == old(Content()) + str
      ensures fresh(Bases(buf) - old(Bases(buf))) && old(Bases(buf)) <= Bases(buf)
      ensures heap.live == old(heap.live) + Bases(buf)
    {
      var a := heap.Store(str);
      var xs := [Iov(a, 0, |str|)];
      assert Gather(xs) == a[..];
      assert Content() == old(Content()) by {
        Same();
      }
      Append(xs, |str|);
    }

    /** The segments one `writev` is offered. */
    function Offered(): (s: seq<Iov>)
      reads this
      ensures s <= View() && |s| <= 1024 && (|s| < |View()| ==> |s| == 1024)
    {
      View()[..Min(|View()|, IOV_MAX)]
    }

    /** `write_`: `answer` is what `writev` returns. */
    method Write(fd: Descriptor, answer: int) returns (n: int)
      requires Valid() && answer <= Total(Offered())
      modifies this, heap, fd
      ensures Valid()
      ensures n == if old(bufSize) == 0 then 0 else answer
      ensures n > 0 ==> n <= old(bufSize) && Content() == old(Content())[n..]
      ensures n > 0 ==> fd.received == old(fd.received + Content()[..n])
      ensures n <= 0 ==> fd.received == old(fd.received) && Content() == old(Content())
      ensures n <= 0 ==> buf == old(buf) && partialPoint == old(partialPoint) && bufSize == old(bufSize)
      ensures fd.received + Content() == old(fd.received + Content())
      ensures Bases(buf) <= old(Bases(buf))
      ensures heap.live == old(heap.live) - (old(Bases(buf)) - Bases(buf))
    {
      n := 0;
      ContentLength();
      hide Content, Offered, Longest;
      if bufSize == 0 {
        return;
      }
      Offer(fd, answer);
      n := answer;
      if n <= 0 {
        return;
      }
      PassOn(old(fd.received), old(Content()), n);
      var _ := DeleteSize(n);
    }

    /** The system call, around which the front pointer is moved and moved back. */
    method Offer(fd: Descriptor, answer: int)
      requires Valid() && bufSize > 0 && answer <= Total(Offered())
      modifies this`buf, fd
      ensures Valid() && buf == old(buf) && answer <= bufSize == |Content()|
      ensures Content() == old(Content())
      ensures fd.received == old(fd.received) + if answer > 0 then old(Content())[..answer] else []
    {
      ContentLength();
      OfferedPrefix(answer);
      ghost var view := View();
      buf := buf[0 := Iov(buf[0].base, buf[0].off + partialPoint, buf[0].len)];
      assert buf == view;
      fd.Writev(heap, buf[..Min(|buf|, IOV_MAX)], answer);
      buf := buf[0 := Iov(buf[0].base, buf[0].off - partialPoint, buf[0].len)];
      assert buf == old(buf);
    }

    lemma OfferedPrefix(n: int)
      requires Valid() && n <= Total(Offered())
      ensures Fits(Offered()) && Bases(Offered()) <= Bases(buf)
      ensures n <= bufSize
      ensures n >= 0 ==> Gather(Offered())[..n] == Content()[..n]
    {
      var view, k := View(), Min(|View()|, IOV_MAX);
      assert view == view[..k] + view[k..];
      TotalConcat(view[..k], view[k..]);
      BasesConcat(view[..k], view[k..]);
      GatherConcat(view[..k], view[k..]);
      ShiftSame(buf, partialPoint);
    }
  }

  /** The segments of a receive buffer are short enough for lines to be found in flat content. */
  lemma FlatScan(b: SpxBuffer)
    requires b.Valid() && Longest(b.View()) <= LINE_MAX + 1
    ensures b.Scanned(LINE_MAX) == FlatLine(b.Content())
  {
    if b.buf != [] {
      assert b.View()[0].len <= Longest(b.View());
    }
  }

  lemma TotalIsSize(xs: seq<Iov>, size: nat)
    requires Fits(xs) && |Gather(xs)| == size
    ensures Total(xs) == size
  {
  }
}
