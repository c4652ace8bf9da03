/** Scatter reading, `SpxReadBuffer`: full segments of a pool are handed to a queue. */
module ReadBuffer {
  import opened Bytes
  import opened Memory
  import opened Buffer

  /** What `readv` returns: zero or an error, or bytes. */
  datatype Answer = Failed(code: int) | Arrived(data: bytes)

  /** Every segment of the pool is a whole block of the given length. */
  predicate Full(s: seq<Iov>, segment: nat) {
    forall i :: 0 <= i < |s| ==> s[i].off == 0 && s[i].len == segment == s[i].base.Length
  }

  lemma FullTotal(s: seq<Iov>, segment: nat)
    requires Full(s, segment)
    ensures Total(s) == |s| * segment && Longest(s) <= segment
    decreases |s|
  {
    if s != [] {
      FullTotal(s[1..], segment);
      assert |s| * segment == segment + (|s| - 1) * segment;
    }
  }

  lemma FullLayout(s: seq<Iov>, segment: nat)
    requires Full(s, segment) && Distinct(s)
    ensures Layout(s, 0) && Fits(s)
  {
    ShiftNone(s);
  }

  class SpxReadBuffer {
    const heap: Heap
    const segment: nat
    const vecSize: nat
    var rdbuf: seq<Iov>

    ghost predicate Valid()
      reads this, heap
    {
      && segment > 0 && vecSize > 0
      && |rdbuf| <= vecSize && Full(rdbuf, segment)
      && Distinct(rdbuf) && Bases(rdbuf) <= heap.live
    }

    constructor (heap: Heap, segment: nat, vecSize: nat)
      requires segment > 0 && vecSize > 0
      ensures Valid() && rdbuf == []
      ensures this.heap == heap && this.segment == segment && this.vecSize == vecSize
    {
      this.heap, this.segment, this.vecSize := heap, segment, vecSize;
      rdbuf := [];
    }

    /** The pool stays valid while its blocks are live. */
    twostate lemma StillValid()
      requires old(Valid()) && rdbuf == old(rdbuf) && Bases(rdbuf) <= heap.live
      ensures Valid()
    {
    }

    /** The constructor of the source throws when either size is zero. */
    static method Make(heap: Heap, segment: nat, vecSize: nat) returns (r: SpxReadBuffer?)
      ensures r == null <==> segment == 0 || vecSize == 0
      ensures r != null ==> fresh(r) && r.Valid() && r.rdbuf == []
      ensures r != null ==> r.heap == heap && r.segment == segment && r.vecSize == vecSize
    {
      if segment == 0 || vecSize == 0 {
        return null;
      }
      r := new SpxReadBuffer(heap, segment, vecSize);
    }

    /** `set_empty_buf_`: refills the pool. */
    method SetEmptyBuf()
      requires Valid()
      modifies this, heap
      ensures Valid() && |rdbuf| == vecSize
      ensures old(Bases(rdbuf)) <= Bases(rdbuf) && fresh(Bases(rdbuf) - old(Bases(rdbuf)))
      ensures heap.live == old(heap.live) + Bases(rdbuf)
    {
      while |rdbuf| < vecSize
        invariant Valid()
        invariant old(Bases(rdbuf)) <= Bases(rdbuf) && fresh(Bases(rdbuf) - old(Bases(rdbuf)))
        invariant heap.live == old(heap.live) + Bases(rdbuf)
        decreases vecSize - |rdbuf|
      {
        var a := heap.New(segment);
        var x := [Iov(a, 0, segment)];
        DistinctJoin(rdbuf, x);
        BasesConcat(rdbuf, x);
        rdbuf := rdbuf + x;
      }
    }

    /** `read_`: one `readv`, and the segments it filled go to the end of the queue. */
    method Read(answer: Answer, to: SpxBuffer) returns (r: int)
      requires Valid() && to.Valid() && to.heap == heap
      requires Bases(rdbuf) !! Bases(to.buf)
      requires match answer
               case Failed(code) => code <= 0
               case Arrived(data) => 0 < |data| <= vecSize * segment
      modifies this, heap, to, Bases(rdbuf)
      ensures Valid() && to.Valid()
      ensures match answer
              case Failed(code) => r == code && to.Content() == old(to.Content())
              case Arrived(data) => r == |data| && to.Content() == old(to.Content()) + data
      ensures Bases(rdbuf) !! Bases(to.buf) && fresh(Bases(rdbuf) - old(Bases(rdbuf)))
      ensures old(Bases(to.buf)) <= Bases(to.buf)
      ensures heap.live - Bases(rdbuf) - Bases(to.buf) == old(heap.live - Bases(rdbuf) - Bases(to.buf))
      ensures Longest(to.View()) <= Max(old(Longest(to.View())), segment)
    {
      hide SpxBuffer.Content;
      SetEmptyBuf();
      assert to.Content() == old(to.Content()) by {
        to.Same();
      }
      if answer.Failed? {
        return answer.code;
      }
      TakeIn(answer.data, to);
      r := |answer.data|;
    }

    /** The kernel fills the segments of a full pool, and what it filled is handed over. */
    method TakeIn(data: bytes, to: SpxBuffer)
      requires Valid() && to.Valid() && to.heap == heap && |rdbuf| == vecSize
      requires Bases(rdbuf) !! Bases(to.buf) && 0 < |data| <= vecSize * segment
      modifies this, to, Bases(rdbuf)
      ensures Valid() && to.Valid()
      ensures to.Content() == old(to.Content()) + data
      ensures Bases(rdbuf) !! Bases(to.buf) && old(Bases(to.buf)) <= Bases(to.buf)
      ensures Bases(to.buf) + Bases(rdbuf) == old(Bases(to.buf)) + old(Bases(rdbuf))
      ensures Longest(to.View()) <= Max(old(Longest(to.View())), segment)
    {
      hide SpxBuffer.Content;
      FullTotal(rdbuf, segment);
      FullLayout(rdbuf, segment);
      Scatter(rdbuf, data);
      assert to.Content() == old(to.Content()) by {
        BasesHasAll(to.buf);
        to.Same();
      }
      HandOver(data, to);
    }

    /** The division of the bytes read into full segments and a part of the next. */
    method HandOver(data: bytes, to: SpxBuffer)
      requires Valid() && to.Valid() && to.heap == heap
      requires Bases(rdbuf) !! Bases(to.buf)
      requires 0 < |data| <= Total(rdbuf) && Fits(rdbuf) && Gather(rdbuf)[..|data|] == data
      modifies this, to
      ensures Valid() && to.Valid()
      ensures to.Content() == old(to.Content()) + data
      ensures Bases(rdbuf) !! Bases(to.buf)
      ensures Bases(to.buf) + Bases(rdbuf) == old(Bases(to.buf)) + old(Bases(rdbuf))
      ensures old(Bases(to.buf)) <= Bases(to.buf)
      ensures Longest(to.View()) <= Max(old(Longest(to.View())), segment)
    {
      hide Gather, Total, Bases, Longest, SpxBuffer.Content;
      var div, mod := |data| / segment, |data| % segment;
      ghost var _, xs, rest := HandedFacts(data);
      var it, pool := div, rdbuf;
      if mod != 0 {
        pool := pool[it := pool[it].(len := mod)];
        it := it + 1;
      }
      assert pool[..it] == xs && pool[it..] == rest;
      LongestConcat(to.View(), xs);
      to.Append(pool[..it], |data|);
      label Appended:
      rdbuf := pool[it..];
      assert to.Content() == old@Appended(to.Content()) by {
        to.Same@Appended();
      }
    }

    /** The pool, the segments that are handed over and those that stay. */
    lemma HandedFacts(data: bytes) returns (pool: seq<Iov>, xs: seq<Iov>, rest: seq<Iov>)
      requires Valid()
      requires |data| <= Total(rdbuf) && Fits(rdbuf) && Gather(rdbuf)[..|data|] == data
      ensures var div, mod := |data| / segment, |data| % segment;
              && pool == rdbuf && div <= |pool| && (mod != 0 ==> div < |pool|)
              && xs == HandedOver(pool, div, mod) && rest == pool[Handed(div, mod)..]
      ensures Layout(xs, 0) && Fits(xs) && Total(xs) == |data| && Longest(xs) <= segment && Gather(xs) == data
      ensures Bases(rdbuf) == Bases(xs) + Bases(rest) && Bases(xs) !! Bases(rest)
      ensures Full(rest, segment) && Distinct(rest)
    {
      hide Gather, Total, Bases, Longest, Layout, Fits;
      var div, mod := |data| / segment, |data| % segment;
      FullTotal(rdbuf, segment);
      DivMod(|data|, segment, |rdbuf|);
      pool, xs, rest := rdbuf, HandedOver(rdbuf, div, mod), rdbuf[Handed(div, mod)..];
      HandedLayout(pool, segment, div, mod);
      HandedBases(pool, div, mod);
      FullTotal(pool[..div], segment);
      HandedData(pool, data, div, mod);
    }

    /** What `readv` does to the blocks: the bytes are laid down in order. */
    static method Scatter(s: seq<Iov>, data: bytes)
      requires Fits(s) && Distinct(s) && |data| <= Total(s)
      modifies Bases(s)
      ensures Gather(s)[..|data|] == data
      decreases |s|
    {
      if s == [] {
        return;
      }
      var m := Min(|data|, s[0].len);
      FillBlock(s[0], data[..m]);
      DistinctSplit([s[0]], s[1..]);
      assert s == [s[0]] + s[1..];
      Scatter(s[1..], data[m..]);
      JoinPrefix(Data(s[0]), Gather(s[1..]), data, m);
    }

    /** The bytes in the first block and those in the others. */
    static lemma JoinPrefix(d: bytes, g: bytes, data: bytes, m: nat)
      requires m == Min(|data|, |d|) && |data| <= |d| + |g|
      requires d[..m] == data[..m] && g[..|data| - m] == data[m..]
      ensures (d + g)[..|data|] == data
    {
      TakeConcat(d, g, |data|);
      assert data == data[..m] + data[m..];
    }

    static method FillBlock(v: Iov, d: bytes)
      requires |d| <= v.len && v.off + v.len <= v.base.Length
      modifies v.base
      ensures Data(v)[..|d|] == d
    {
      for i := 0 to |d|
        invariant v.base[v.off..v.off + i] == d[..i]
      {
        v.base[v.off + i] := d[i];
      }
      assert d[..|d|] == d;
    }
  }

  function Max(a: nat, b: nat): nat {
    if a > b then a else b
  }

  lemma DivMod(n: nat, segment: nat, size: nat)
    requires segment > 0 && n <= size * segment
    ensures n / segment <= size && n == n / segment * segment + n % segment
    ensures n % segment != 0 ==> n / segment < size
  {
    if n / segment >= size {
      assert n / segment * segment >= size * segment;
    }
  }

  /** The segments `n` bytes are handed over in: `div` whole ones and a part of the next. */
  function HandedOver(pool: seq<Iov>, div: nat, mod: nat): seq<Iov>
    requires div <= |pool| && (mod != 0 ==> div < |pool|)
  {
    if mod == 0 then pool[..div] else pool[..div] + [pool[div].(len := mod)]
  }

  function Handed(div: nat, mod: nat): nat {
    if mod == 0 then div else div + 1
  }

  lemma HandedLayout(pool: seq<Iov>, segment: nat, div: nat, mod: nat)
    requires Full(pool, segment) && Distinct(pool) && mod < segment
    requires div <= |pool| && (mod != 0 ==> div < |pool|)
    ensures var xs := HandedOver(pool, div, mod);
            && Layout(xs, 0) && Fits(xs) && Total(xs) == div * segment + mod && Longest(xs) <= segment
  {
    var whole := pool[..div];
    FullTotal(whole, segment);
    if mod != 0 {
      var x := [pool[div].(len := mod)];
      TotalConcat(whole, x);
      LongestConcat(whole, x);
    }
    ShiftNone(HandedOver(pool, div, mod));
  }

  lemma HandedBases(pool: seq<Iov>, div: nat, mod: nat)
    requires Distinct(pool) && div <= |pool| && (mod != 0 ==> div < |pool|)
    ensures var xs, rest := HandedOver(pool, div, mod), pool[Handed(div, mod)..];
            Bases(pool) == Bases(xs) + Bases(rest) && Bases(xs) !! Bases(rest)
  {
    SplitBases(pool, Handed(div, mod));
    if mod != 0 {
      SplitBases(pool, div);
      BasesConcat(pool[..div], [pool[div].(len := mod)]);
    }
  }

  /** The segments handed over hold exactly the bytes read. */
  lemma HandedData(pool: seq<Iov>, data: bytes, div: nat, mod: nat)
    requires div <= |pool| && (mod != 0 ==> div < |pool| && mod <= pool[div].len)
    requires |data| == Total(pool[..div]) + mod
    requires Fits(pool) && |data| <= Total(pool) && Gather(pool)[..|data|] == data
    ensures Fits(HandedOver(pool, div, mod)) && Gather(HandedOver(pool, div, mod)) == data
  {
    hide Gather, Total;
    var whole, rest := pool[..div], pool[div..];
    assert pool == whole + rest;
    GatherConcat(whole, rest);
    TakeConcat(Gather(whole), Gather(rest), |data|);
    assert data == Gather(whole) + Gather(rest)[..mod];
    if mod == 0 {
      assert HandedOver(pool, div, mod) == whole;
      assert Gather(whole) + Gather(rest)[..mod] == Gather(whole);
    } else {
      assert HandedOver(pool, div, mod) == whole + [rest[0].(len := mod)];
      HandedPart(rest, mod);
      GatherConcat(whole, [rest[0].(len := mod)]);
    }
  }

  lemma HandedPart(rest: seq<Iov>, mod: nat)
    requires Fits(rest) && rest != [] && mod <= rest[0].len
    ensures Fits([rest[0].(len := mod)]) && Gather([rest[0].(len := mod)]) == Gather(rest)[..mod]
  {
    TakeConcat(Data(rest[0]), Gather(rest[1..]), mod);
    var x := rest[0].(len := mod);
    assert Gather([x]) == Data(x) == Data(rest[0])[..mod];
  }
}
