/** `bcopy` and `memcpy` of common/string.c, with source and destination anywhere in one memory. */
module CopyBytes {
  import opened PacketSlots

  /** The memory after `n` rounds of the ascending loop. */
  function Ascending(m: seq<int>, src: nat, dest: nat, n: nat): (r: seq<int>)
    requires src + n <= |m| && dest + n <= |m|
    ensures |r| == |m|
  {
    if n == 0 then m
    else
      var p := Ascending(m, src, dest, n - 1);
      p[dest + n - 1 := p[src + n - 1]]
  }

  /** The memory after `n` rounds of the descending loop over `len` bytes. */
  function Descending(m: seq<int>, src: nat, dest: nat, len: nat, n: nat): (r: seq<int>)
    requires n <= len && src + len <= |m| && dest + len <= |m|
    ensures |r| == |m|
    decreases n
  {
    if n == 0 then m
    else
      var p := Descending(m, src, dest, len, n - 1);
      p[dest + len - n := p[src + len - n]]
  }

  lemma OverwriteNothing(m: seq<int>, at: nat, bs: seq<int>)
    requires at <= |m| && bs == []
    ensures Overwrite(m, at, bs) == m
  {
  }

  lemma OverwriteOutside(m: seq<int>, at: nat, bs: seq<int>, k: nat)
    requires at + |bs| <= |m| && k < |m| && !(at <= k < at + |bs|)
    ensures Overwrite(m, at, bs)[k] == m[k]
  {
  }

  lemma OverwritePrevious(m: seq<int>, at: nat, bs: seq<int>)
    requires |bs| > 0 && at + |bs| <= |m|
    ensures Overwrite(m, at + 1, bs[1..])[at := bs[0]] == Overwrite(m, at, bs)
  {
  }

  /** The ascending loop copies right when the destination does not begin inside the source. */
  lemma {:induction false} AscendingCopies(m: seq<int>, src: nat, dest: nat, n: nat)
    requires src + n <= |m| && dest + n <= |m| && !(src < dest < src + n)
    ensures Ascending(m, src, dest, n) == Overwrite(m, dest, m[src..src + n])
  {
    hide Overwrite;
    if n == 0 {
      OverwriteNothing(m, dest, m[src..src]);
    } else {
      AscendingCopies(m, src, dest, n - 1);
      var bs := m[src..src + n];
      assert m[src..src + n - 1] == bs[..n - 1];
      OverwriteNext(m, dest, bs, n - 1);
      OverwriteOutside(m, dest, bs[..n - 1], src + n - 1);
      assert bs[..n] == bs && bs[n - 1] == m[src + n - 1];
    }
  }

  lemma {:induction false} DescendingCopiesPart(m: seq<int>, src: nat, dest: nat, len: nat, n: nat)
    requires n <= len && src + len <= |m| && dest + len <= |m| && !(dest < src < dest + len)
    ensures Descending(m, src, dest, len, n) == Overwrite(m, dest + len - n, m[src + len - n..src + len])
    decreases n
  {
    hide Overwrite;
    if n == 0 {
      OverwriteNothing(m, dest + len, m[src + len..src + len]);
    } else {
      DescendingCopiesPart(m, src, dest, len, n - 1);
      var bs := m[src + len - n..src + len];
      assert m[src + len - (n - 1)..src + len] == bs[1..];
      OverwritePrevious(m, dest + len - n, bs);
      OverwriteOutside(m, dest + len - (n - 1), bs[1..], src + len - n);
    }
  }

  /** The descending loop copies right when the source does not begin inside the destination. */
  lemma DescendingCopies(m: seq<int>, src: nat, dest: nat, len: nat)
    requires src + len <= |m| && dest + len <= |m| && !(dest < src < dest + len)
    ensures Descending(m, src, dest, len, len) == Overwrite(m, dest, m[src..src + len])
  {
    DescendingCopiesPart(m, src, dest, len, len);
  }

  /** All 0 but for a 1 at `at`. */
  function Spot(size: nat, at: nat): (m: seq<int>)
    ensures |m| == size
  {
    seq(size, k => if k == at then 1 else 0)
  }

  lemma {:induction false} AscendingSmears(size: nat, src: nat, dest: nat, n: nat)
    requires src < dest && dest + n <= size
    ensures n > 0 ==> Ascending(Spot(size, src), src, dest, n)[dest] == 1
    ensures n > dest - src ==> Ascending(Spot(size, src), src, dest, n)[dest + dest - src] == 1
  {
    if n == 0 {
    } else {
      AscendingSmears(size, src, dest, n - 1);
      if n == 1 {
        assert Ascending(Spot(size, src), src, dest, 0)[src] == 1;
      }
    }
  }

  lemma {:induction false} DescendingSmears(size: nat, src: nat, dest: nat, len: nat, n: nat)
    requires n <= len && dest < src && src + len <= size
    ensures var m := Spot(size, src + len - 1);
            && (n > 0 ==> Descending(m, src, dest, len, n)[dest + len - 1] == 1)
            && (src - dest < n ==> Descending(m, src, dest, len, n)[dest + len - 1 - (src - dest)] == 1)
    decreases n
  {
    if n == 0 {
    } else {
      DescendingSmears(size, src, dest, len, n - 1);
      if n == 1 {
        assert Descending(Spot(size, src + len - 1), src, dest, len, 0)[src + len - 1] == 1;
      }
    }
  }

  ghost predicate AscendingIsCopy(size: nat, src: nat, dest: nat, len: nat)
    requires src + len <= size && dest + len <= size
  {
    forall m: seq<int> :: |m| == size ==> Ascending(m, src, dest, len) == Overwrite(m, dest, m[src..src + len])
  }

  ghost predicate DescendingIsCopy(size: nat, src: nat, dest: nat, len: nat)
    requires src + len <= size && dest + len <= size
  {
    forall m: seq<int> :: |m| == size ==> Descending(m, src, dest, len, len) == Overwrite(m, dest, m[src..src + len])
  }

  /** The ascending loop is right exactly when the destination does not begin inside the source. */
  lemma AscendingExactly(size: nat, src: nat, dest: nat, len: nat)
    requires src + len <= size && dest + len <= size
    ensures AscendingIsCopy(size, src, dest, len) <==> !(src < dest < src + len)
  {
    hide Ascending, Overwrite;
    if src < dest < src + len {
      var m := Spot(size, src);
      AscendingSmears(size, src, dest, len);
      OverwriteAt(m, dest, m[src..src + len], dest + dest - src);
      assert Ascending(m, src, dest, len) != Overwrite(m, dest, m[src..src + len]);
    } else {
      forall m: seq<int> | |m| == size ensures Ascending(m, src, dest, len) == Overwrite(m, dest, m[src..src + len]) {
        AscendingCopies(m, src, dest, len);
      }
    }
  }

  /** The descending loop is right exactly when the source does not begin inside the destination. */
  lemma DescendingExactly(size: nat, src: nat, dest: nat, len: nat)
    requires src + len <= size && dest + len <= size
    ensures DescendingIsCopy(size, src, dest, len) <==> !(dest < src < dest + len)
  {
    hide Descending, Overwrite;
    if dest < src < dest + len {
      var m := Spot(size, src + len - 1);
      DescendingSmears(size, src, dest, len, len);
      OverwriteAt(m, dest, m[src..src + len], dest + len - 1 - (src - dest));
      assert Descending(m, src, dest, len, len) != Overwrite(m, dest, m[src..src + len]);
    } else {
      forall m: seq<int> | |m| == size ensures Descending(m, src, dest, len, len) == Overwrite(m, dest, m[src..src + len]) {
        DescendingCopies(m, src, dest, len);
      }
    }
  }

  lemma OverwriteAt(m: seq<int>, at: nat, bs: seq<int>, k: nat)
    requires at + |bs| <= |m| && at <= k < at + |bs|
    ensures Overwrite(m, at, bs)[k] == bs[k - at]
  {
  }

  /** `bcopy`: the destination gets the old source, however the two overlap, and nothing else changes. */
  method Bcopy(mem: array<int>, src: nat, dest: nat, len: nat)
    requires src + len <= mem.Length && dest + len <= mem.Length
    modifies mem
    ensures mem[..] == Overwrite(old(mem[..]), dest, old(mem[src..src + len]))
  {
    hide Overwrite;
    ghost var m := mem[..];
    assert m[src..src + len] == mem[src..src + len];
    if dest < src {
      for i := 0 to len
        invariant mem[..] == Ascending(m, src, dest, i)
      {
        mem[dest + i] := mem[src + i];
      }
      AscendingCopies(m, src, dest, len);
    } else {
      var left: nat := len;
      while left > 0
        invariant 0 <= left <= len
        invariant mem[..] == Descending(m, src, dest, len, len - left)
      {
        left := left - 1;
        mem[dest + left] := mem[src + left];
      }
      DescendingCopies(m, src, dest, len);
    }
  }

  /** `memcpy` */
  method Memcpy(mem: array<int>, out: nat, src: nat, length: nat)
    requires src + length <= mem.Length && out + length <= mem.Length
    modifies mem
    ensures mem[..] == Overwrite(old(mem[..]), out, old(mem[src..src + length]))
  {
    Bcopy(mem, src, out, length);
  }
}
