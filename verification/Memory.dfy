/** The free store and `struct iovec`. */
module Memory {
  import opened Bytes

  /** The free store: `live` are the blocks that have been allocated and not deleted. */
  class Heap {
    ghost var live: set<array<byte>>

    constructor ()
      ensures live == {}
    {
      live := {};
    }

    /** `new char[n]` */
    method New(n: nat) returns (a: array<byte>)
      modifies this
      ensures fresh(a) && a.Length == n
      ensures live == old(live) + {a}
    {
      a := new byte[n];
      live := live + {a};
    }

    /** `delete[]`: only a live block may be deleted. */
    method Delete(a: array<byte>)
      requires a in live
      modifies this
      ensures live == old(live) - {a}
    {
      live := live - {a};
    }

    /** `new char[n]` and `memcpy` from a live block. */
    method Copy(from: array<byte>, lo: nat, n: nat) returns (a: array<byte>)
      requires from in live && lo + n <= from.Length
      modifies this
      ensures fresh(a) && a.Length == n && a[..] == from[lo..lo + n]
      ensures live == old(live) + {a}
    {
      a := New(n);
      for i := 0 to n
        modifies a
        invariant a[..i] == from[lo..lo + i]
      {
        a[i] := from[lo + i];
      }
      assert a[..n] == a[..];
    }

    /** `new char[n]` and `memcpy` from a string. */
    method Store(s: bytes) returns (a: array<byte>)
      modifies this
      ensures fresh(a) && a.Length == |s| && a[..] == s
      ensures live == old(live) + {a}
    {
      a := New(|s|);
      for i := 0 to |s|
        modifies a
        invariant a[..i] == s[..i]
      {
        a[i] := s[i];
      }
      assert a[..|s|] == a[..] && s[..|s|] == s;
    }
  }

  /** The most segments one `writev` takes. */
  const IOV_MAX: nat := 1024

  /** A file descriptor that is written to: `received` is everything it has been given. */
  class Descriptor {
    ghost var received: bytes

    constructor ()
      ensures received == []
    {
      received := [];
    }

    /** `writev`: the kernel takes as many bytes as it answers, or fails. */
    method Writev(heap: Heap, iov: seq<Iov>, answer: int)
      requires Fits(iov) && Bases(iov) <= heap.live && answer <= Total(iov)
      modifies this
      ensures received == old(received) + if answer > 0 then Gather(iov)[..answer] else []
    {
      received := received + if answer > 0 then Gather(iov)[..answer] else [];
    }
  }

  /** A stretch of a block: `iov_base` is `base + off`. */
  datatype Iov = Iov(base: array<byte>, off: nat, len: nat)

  function Data(v: Iov): (d: bytes)
    requires v.off + v.len <= v.base.Length
    reads v.base
    ensures |d| == v.len
  {
    v.base[v.off..v.off + v.len]
  }

  predicate Fits(s: seq<Iov>) {
    forall i :: 0 <= i < |s| ==> s[i].off + s[i].len <= s[i].base.Length
  }

  ghost function Bases(s: seq<Iov>): set<array<byte>>
    decreases |s|
  {
    if s == [] then {} else {s[0].base} + Bases(s[1..])
  }

  lemma BasesHas(s: seq<Iov>, i: nat)
    requires i < |s|
    ensures s[i].base in Bases(s)
  {
    if i > 0 {
      BasesHas(s[1..], i - 1);
    }
  }

  lemma BasesHasAll(s: seq<Iov>)
    ensures forall i :: 0 <= i < |s| ==> s[i].base in Bases(s)
  {
    forall i | 0 <= i < |s|
      ensures s[i].base in Bases(s)
    {
      BasesHas(s, i);
    }
  }

  lemma BasesFrom(s: seq<Iov>, a: array<byte>)
    requires a in Bases(s)
    ensures exists i :: 0 <= i < |s| && s[i].base == a
  {
    if a != s[0].base {
      BasesFrom(s[1..], a);
      var i :| 0 <= i < |s[1..]| && s[1..][i].base == a;
      assert s[i + 1].base == a;
    }
  }

  predicate Distinct(s: seq<Iov>) {
    forall i, j :: 0 <= i < j < |s| ==> s[i].base != s[j].base
  }

  function Total(s: seq<Iov>): nat {
    if s == [] then 0 else s[0].len + Total(s[1..])
  }

  /** The length of the longest segment. */
  function Longest(s: seq<Iov>): nat {
    if s == [] then 0 else if s[0].len > Longest(s[1..]) then s[0].len else Longest(s[1..])
  }

  /** The bytes of all stretches in order. */
  ghost function Gather(s: seq<Iov>): (g: bytes)
    requires Fits(s)
    reads Bases(s)
    ensures |g| == Total(s)
    decreases |s|
  {
    if s == [] then [] else Data(s[0]) + Gather(s[1..])
  }

  lemma GatherConcat(s: seq<Iov>, t: seq<Iov>)
    requires Fits(s) && Fits(t)
    ensures Gather(s + t) == Gather(s) + Gather(t)
    decreases |s|
  {
    if s == [] {
      assert s + t == t;
    } else {
      assert (s + t)[1..] == s[1..] + t;
      GatherConcat(s[1..], t);
    }
  }

  lemma TotalConcat(s: seq<Iov>, t: seq<Iov>)
    ensures Total(s + t) == Total(s) + Total(t)
    decreases |s|
  {
    if s == [] {
      assert s + t == t;
    } else {
      assert (s + t)[1..] == s[1..] + t;
      TotalConcat(s[1..], t);
    }
  }

  lemma LongestConcat(s: seq<Iov>, t: seq<Iov>)
    ensures Longest(s + t) == if Longest(s) > Longest(t) then Longest(s) else Longest(t)
    decreases |s|
  {
    if s == [] {
      assert s + t == t;
    } else {
      assert (s + t)[1..] == s[1..] + t;
      LongestConcat(s[1..], t);
    }
  }

  /** The stretches that are left when the first `n` bytes are dropped. */
  function Drop(s: seq<Iov>, n: nat): (r: seq<Iov>)
    ensures Fits(s) ==> Fits(r)
    ensures Longest(r) <= Longest(s)
    decreases |s|
  {
    if s == [] then []
    else if n < s[0].len then
      var r := [s[0].(off := s[0].off + n, len := s[0].len - n)] + s[1..];
      assert r[1..] == s[1..];
      r
    else
      Drop(s[1..], n - s[0].len)
  }

  lemma GatherDropFirst(v: Iov, rest: seq<Iov>, n: nat)
    requires v.off + v.len <= v.base.Length && Fits(rest) && n <= v.len
    ensures Fits([v.(off := v.off + n, len := v.len - n)] + rest)
    ensures Gather([v.(off := v.off + n, len := v.len - n)] + rest) == Data(v)[n..] + Gather(rest)
  {
    var v' := v.(off := v.off + n, len := v.len - n);
    assert ([v'] + rest)[1..] == rest;
    assert Data(v') == Data(v)[n..];
  }

  lemma DropConcat(d: bytes, g: bytes, n: nat)
    requires n <= |d| + |g|
    ensures (d + g)[n..] == if n < |d| then d[n..] + g else g[n - |d|..]
  {
  }

  lemma GatherDrop(s: seq<Iov>, n: nat)
    requires Fits(s) && n <= Total(s)
    ensures Gather(Drop(s, n)) == Gather(s)[n..]
    decreases |s|
  {
    if s != [] {
      hide Longest;
      DropConcat(Data(s[0]), Gather(s[1..]), n);
      if n < s[0].len {
        hide Total;
        GatherDropFirst(s[0], s[1..], n);
      } else {
        GatherDrop(s[1..], n - s[0].len);
      }
    }
  }

  /** How many whole stretches the first `n` bytes cover. */
  function Walk(s: seq<Iov>, n: nat): (w: nat)
    ensures w <= |s|
    decreases |s|
  {
    if s == [] || n < s[0].len then 0 else 1 + Walk(s[1..], n - s[0].len)
  }

  /** Where `n` bytes end: the stretch reached and the bytes used of it. */
  lemma {:induction false} WalkEnd(s: seq<Iov>, n: nat)
    requires n <= Total(s)
    ensures var w := Walk(s, n);
            && Total(s[..w]) <= n
            && (w == |s| ==> n == Total(s))
            && (w < |s| ==> n - Total(s[..w]) < s[w].len)
    decreases |s|
  {
    if s != [] && n >= s[0].len {
      var rest, w := s[1..], Walk(s[1..], n - s[0].len);
      WalkEnd(rest, n - s[0].len);
      assert s[..w + 1][1..] == rest[..w];
    }
  }

  lemma {:induction false} WalkDrop(s: seq<Iov>, n: nat, w: nat)
    requires n <= Total(s) && w == Walk(s, n) < |s| && Total(s[..w]) <= n
    ensures Drop(s, n) == Drop(s[w..], n - Total(s[..w]))
    decreases |s|
  {
    hide Longest;
    if n >= s[0].len {
      assert s[..w][1..] == s[1..][..w - 1] && s[w..] == s[1..][w - 1..];
      WalkDrop(s[1..], n - s[0].len, w - 1);
    }
  }

  lemma WalkAll(s: seq<Iov>)
    ensures Walk(s, Total(s)) == |s|
    decreases |s|
  {
    if s != [] {
      WalkAll(s[1..]);
    }
  }

  lemma GatherSplit(s: seq<Iov>, w: nat)
    requires Fits(s) && w <= |s|
    ensures Gather(s) == Gather(s[..w]) + Gather(s[w..]) && Total(s[..w]) + Total(s[w..]) == Total(s)
    ensures w < |s| ==> |Data(s[w])| == s[w].len && Data(s[w]) <= Gather(s[w..])
  {
    assert s == s[..w] + s[w..];
    GatherConcat(s[..w], s[w..]);
    TotalConcat(s[..w], s[w..]);
  }

  /** The first `n` bytes are the whole stretches before `w` and a part of the next. */
  lemma GatherPrefix(s: seq<Iov>, n: nat, w: nat, tmp: nat)
    requires Fits(s) && w <= |s| && tmp == n - Total(s[..w])
    requires if w == |s| then tmp == 0 else tmp <= s[w].len
    ensures n <= Total(s)
    ensures Gather(s)[..n] == Gather(s[..w]) + (if w < |s| then Data(s[w])[..tmp] else [])
  {
    hide Gather, Total, Data;
    GatherSplit(s, w);
    TakeConcat(Gather(s[..w]), Gather(s[w..]), n);
  }

  lemma TakeConcat(d: bytes, g: bytes, n: nat)
    requires n <= |d| + |g|
    ensures (d + g)[..n] == if n <= |d| then d[..n] else d + g[..n - |d|]
  {
  }

  lemma BasesConcat(s: seq<Iov>, t: seq<Iov>)
    ensures Bases(s + t) == Bases(s) + Bases(t)
    decreases |s|
  {
    if s == [] {
      assert s + t == t;
    } else {
      assert (s + t)[1..] == s[1..] + t;
      BasesConcat(s[1..], t);
    }
  }

  lemma DistinctSplit(s: seq<Iov>, t: seq<Iov>)
    requires Distinct(s + t)
    ensures Distinct(s) && Distinct(t) && Bases(s) !! Bases(t)
  {
    assert forall i :: 0 <= i < |s| ==> (s + t)[i] == s[i];
    assert forall j :: 0 <= j < |t| ==> (s + t)[|s| + j] == t[j];
    forall a | a in Bases(s) && a in Bases(t)
      ensures false
    {
      BasesFrom(s, a);
      BasesFrom(t, a);
    }
  }

  lemma DistinctJoin(s: seq<Iov>, t: seq<Iov>)
    requires Distinct(s) && Distinct(t) && Bases(s) !! Bases(t)
    ensures Distinct(s + t)
  {
    forall i, j | 0 <= i < j < |s + t|
      ensures (s + t)[i].base != (s + t)[j].base
    {
      if i < |s| <= j {
        BasesHas(s, i);
        BasesHas(t, j - |s|);
      }
    }
  }
}
