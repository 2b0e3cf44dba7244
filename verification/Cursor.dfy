/** The scatter cursor (struct rpc_iovec_cursor): where the bytes of a reply go
    that is read straight into the caller's buffers. */
module Cursor {
  import opened Bytes

  /** A stretch of memory: an address and a length. */
  datatype Iovec = Iovec(base: nat, len: nat)

  // ----- what a cursor means: the addresses still to be written, in order

  function Range(base: nat, len: nat): (r: seq<nat>)
    ensures |r| == len
    ensures forall k :: 0 <= k < len ==> r[k] == base + k
  {
    seq(len, k requires 0 <= k => base + k)
  }

  function Addresses(segs: seq<Iovec>): seq<nat> {
    if segs == [] then [] else Range(segs[0].base, segs[0].len) + Addresses(segs[1..])
  }

  /** Every segment has a byte. */
  ghost predicate NonEmpty(segs: seq<Iovec>) {
    forall i :: 0 <= i < |segs| ==> segs[i].len > 0
  }

  ghost predicate Within(addrs: seq<nat>, limit: nat) {
    forall k :: 0 <= k < |addrs| ==> addrs[k] < limit
  }

  /** `data[k]` written at `addrs[k]`, in order. */
  function Written(mem: seq<byte>, addrs: seq<nat>, data: seq<byte>): (r: seq<byte>)
    requires |addrs| == |data| && Within(addrs, |mem|)
    ensures |r| == |mem|
    decreases |addrs|
  {
    if addrs == [] then mem
    else
      assert Within(addrs[1..], |mem|);
      Written(mem[addrs[0] := data[0]], addrs[1..], data[1..])
  }

  // ----- facts about addresses

  lemma {:induction false} AddressesNonEmpty(segs: seq<Iovec>)
    requires NonEmpty(segs)
    ensures Addresses(segs) == [] <==> segs == []
    ensures |Addresses(segs)| >= |segs|
  {
    if segs != [] {
      AddressesNonEmpty(segs[1..]);
    }
  }

  lemma AddressesHead(segs: seq<Iovec>)
    requires segs != []
    ensures Addresses(segs) == Range(segs[0].base, segs[0].len) + Addresses(segs[1..])
    ensures |Addresses(segs)| >= segs[0].len
    ensures Addresses(segs)[segs[0].len..] == Addresses(segs[1..])
    ensures Addresses(segs)[..segs[0].len] == Range(segs[0].base, segs[0].len)
  {
  }

  /** Dropping the first `n` bytes of the first segment. */
  lemma AddressesCut(segs: seq<Iovec>, n: nat)
    requires segs != [] && n <= segs[0].len
    ensures var cut := segs[0 := Iovec(segs[0].base + n, segs[0].len - n)];
      |Addresses(segs)| >= n && Addresses(cut) == Addresses(segs)[n..]
  {
    var cut := segs[0 := Iovec(segs[0].base + n, segs[0].len - n)];
    assert cut[1..] == segs[1..];
    assert Range(segs[0].base, segs[0].len)[n..] == Range(segs[0].base + n, segs[0].len - n);
  }

  lemma {:induction false} AddressesSeq(p: seq<Iovec>, q: seq<Iovec>)
    ensures Addresses(p + q) == Addresses(p) + Addresses(q)
  {
    if p == [] {
      assert p + q == q;
    } else {
      AddressesSeq(p[1..], q);
      assert (p + q)[1..] == p[1..] + q;
      var r := Range(p[0].base, p[0].len);
      assert r + (Addresses(p[1..]) + Addresses(q)) == r + Addresses(p[1..]) + Addresses(q);
    }
  }

  /** The first `n` bytes of segment `v`, after `before`. */
  lemma AddressesOne(before: seq<Iovec>, v: Iovec, all: seq<nat>, done: nat, n: nat)
    requires n <= v.len && done + v.len <= |all|
    requires Addresses(before) == all[..done] && all[done..][..v.len] == Range(v.base, v.len)
    ensures Addresses(before + [Iovec(v.base, n)]) == all[..done + n]
  {
    var cut := Iovec(v.base, n);
    AddressesSeq(before, [cut]);
    assert [cut][1..] == [];
    assert Addresses([cut]) == Range(v.base, n) + [];
    assert all[..done + n] == all[..done] + all[done..][..n];
    assert all[done..][..n] == all[done..][..v.len][..n] == Range(v.base, v.len)[..n] == Range(v.base, n);
  }

  lemma AddressesLone(v: Iovec)
    ensures Addresses([v]) == Range(v.base, v.len)
  {
    assert [v][1..] == [];
  }

  lemma LiveSplit(live: seq<Iovec>, i: nat)
    requires i < |live|
    ensures live[i..][0] == live[i] && live[i..][1..] == live[i + 1..]
    ensures live[..i + 1] == live[..i] + [Iovec(live[i].base, live[i].len)]
  {
  }

  // ----- facts about writing

  lemma {:induction false} WrittenSeq(mem: seq<byte>, a: seq<nat>, b: seq<nat>, d: seq<byte>, e: seq<byte>)
    requires |a| == |d| && |b| == |e| && Within(a, |mem|) && Within(b, |mem|)
    ensures Within(a + b, |mem|)
    ensures Written(mem, a + b, d + e) == Written(Written(mem, a, d), b, e)
    decreases |a|
  {
    if a == [] {
      assert a + b == b && d + e == e;
    } else {
      assert (a + b)[1..] == a[1..] + b && (d + e)[1..] == d[1..] + e;
      assert Within(a[1..], |mem|);
      WrittenSeq(mem[a[0] := d[0]], a[1..], b, d[1..], e);
    }
  }

  /** Nothing outside the addresses changes. */
  lemma {:induction false} WrittenElsewhere(mem: seq<byte>, addrs: seq<nat>, data: seq<byte>, at: nat)
    requires |addrs| == |data| && Within(addrs, |mem|) && at < |mem| && at !in addrs
    ensures Written(mem, addrs, data)[at] == mem[at]
    decreases |addrs|
  {
    if addrs != [] {
      assert Within(addrs[1..], |mem|);
      assert addrs == [addrs[0]] + addrs[1..];
      WrittenElsewhere(mem[addrs[0] := data[0]], addrs[1..], data[1..], at);
    }
  }

  /** Where no address occurs twice each byte ends up at its address. */
  lemma {:induction false} WrittenAt(mem: seq<byte>, addrs: seq<nat>, data: seq<byte>, k: nat)
    requires |addrs| == |data| && Within(addrs, |mem|) && k < |addrs|
    requires forall i, j :: 0 <= i < j < |addrs| ==> addrs[i] != addrs[j]
    ensures Written(mem, addrs, data)[addrs[k]] == data[k]
    decreases |addrs|
  {
    assert Within(addrs[1..], |mem|);
    if k == 0 {
      assert addrs[0] !in addrs[1..];
      WrittenElsewhere(mem[addrs[0] := data[0]], addrs[1..], data[1..], addrs[0]);
    } else {
      WrittenAt(mem[addrs[0] := data[0]], addrs[1..], data[1..], k - 1);
    }
  }

  lemma WrittenNothing(mem: seq<byte>)
    ensures Written(mem, [], []) == mem
  {
  }

  /** A prefix of the writes, then some more. */
  lemma Further(mem: seq<byte>, all: seq<nat>, src: seq<byte>, done: nat, n: nat)
    requires done + n <= |src| <= |all| && Within(all, |mem|)
    ensures Within(all[..done], |mem|) && Within(all[done..][..n], |mem|) && Within(all[..done + n], |mem|)
    ensures Written(Written(mem, all[..done], src[..done]), all[done..][..n], src[done..done + n]) ==
            Written(mem, all[..done + n], src[..done + n])
    ensures all[done..][n..] == all[done + n..]
  {
    hide Written, Within;
    SliceJoin(all, done, n);
    SliceJoin(src, done, n);
    WithinPart(all, done, n, |mem|);
    WrittenSeq(mem, all[..done], all[done..][..n], src[..done], src[done..done + n]);
  }

  lemma WithinPart(all: seq<nat>, done: nat, n: nat, limit: nat)
    requires done + n <= |all| && Within(all, limit)
    ensures Within(all[..done], limit) && Within(all[done..][..n], limit) && Within(all[..done + n], limit)
  {
  }

  lemma SliceJoin<T>(s: seq<T>, i: nat, n: nat)
    requires i + n <= |s|
    ensures s[i..i + n] == s[i..][..n]
    ensures s[..i + n] == s[..i] + s[i..][..n]
    ensures s[i..][n..] == s[i + n..]
  {
  }

  // ----- the code

  class Cursor {
    const vec: array<Iovec>   // base: the working half, then the reference half
    const iovcntRef: nat      // iov_ref is vec + iovcntRef
    var iov: nat              // the current segment, counted from base
    var iovcnt: nat
    var remaining: nat        // remaining_size

    ghost const original: seq<Iovec>

    /** The segments still to be filled. */
    ghost function Live(): seq<Iovec>
      reads this, vec
      requires iov + iovcnt <= vec.Length
    {
      vec[iov..iov + iovcnt]
    }

    /** What the asserts in the code say, and that the reference half is what it
        was: both halves end where they should, and counts agree. */
    ghost predicate Valid()
      reads this, vec
    {
      && vec.Length == 2 * iovcntRef && |original| == iovcntRef
      && iov + iovcnt <= iovcntRef
      && vec[iovcntRef..] == original && NonEmpty(original)
      && NonEmpty(Live())
      && remaining == |Addresses(Live())|
    }

    constructor (segs: seq<Iovec>)
      requires NonEmpty(segs)
      ensures Valid() && fresh(vec) && original == segs
      ensures Live() == segs && iov == 0
    {
      var n := |segs|;
      vec := new Iovec[2 * n](i requires 0 <= i < 2 * n => if i < n then segs[i] else segs[i - n]);
      iovcntRef, iov, iovcnt := n, 0, n;
      remaining := |Addresses(segs)|;
      original := segs;
      new;
      assert vec[0..n] == segs;
    }

    /** The assertion at the end of every operation. */
    lemma CountsAgree()
      requires Valid()
      ensures (iovcnt == 0) == (remaining == 0)
    {
      AddressesNonEmpty(Live());
    }

    /** The step both loops share, without its writing: `n` bytes of the first
        segment, all of it or less, are done. */
    method Consume(n: nat)
      requires Valid() && iovcnt > 0 && 0 < n <= vec[iov].len
      modifies this`iov, this`iovcnt, this`remaining, vec
      ensures Valid()
      ensures old(|Addresses(Live())|) >= n && Addresses(Live()) == old(Addresses(Live()))[n..]
    {
      ghost var live := Live();
      AddressesCut(live, n);
      AddressesHead(live);
      if vec[iov].len > n {
        vec[iov] := Iovec(vec[iov].base + n, vec[iov].len - n);
        remaining := remaining - n;
        assert Live() == live[0 := Iovec(live[0].base + n, live[0].len - n)];
      } else {
        remaining := remaining - vec[iov].len;
        iov := iov + 1;
        iovcnt := iovcnt - 1;
        assert Live() == live[1..];
      }
      assert vec[iovcntRef..] == original;
    }

    /** rpc_advance_cursor */
    method Advance(len: nat)
      requires Valid() && len <= remaining
      modifies this`iov, this`iovcnt, this`remaining, vec
      ensures Valid()
      ensures Addresses(Live()) == old(Addresses(Live()))[len..]
    {
      var left := len;
      ghost var all := Addresses(Live());
      while left > 0
        invariant Valid() && 0 <= left <= len <= |all| && left <= remaining
        invariant Addresses(Live()) == all[len - left..]
        decreases left
      {
        CountsAgree();
        AddressesHead(Live());
        var n := if vec[iov].len > left then left else vec[iov].len;
        Consume(n);
        assert all[len - left..][n..] == all[len - left + n..];
        left := left - n;
      }
    }

    /** One turn of rpc_memcpy_cursor: `data` fits the first segment. */
    method CopySome(mem: array<byte>, data: seq<byte>)
      requires Valid() && iovcnt > 0 && 0 < |data| <= vec[iov].len && Within(Addresses(Live()), mem.Length)
      modifies this`iov, this`iovcnt, this`remaining, vec, mem
      ensures Valid()
      ensures old(|Addresses(Live())|) >= |data| && Addresses(Live()) == old(Addresses(Live()))[|data|..]
      ensures mem[..] == Written(old(mem[..]), old(Addresses(Live()))[..|data|], data)
    {
      var n := |data|;
      AddressesHead(Live());
      ghost var all, first := Addresses(Live()), Range(vec[iov].base, vec[iov].len);
      assert all[..n] == first[..n] == Range(vec[iov].base, n);
      assert all[n - 1] == first[n - 1];
      CopyStretch(mem, vec[iov].base, data);
      Consume(n);
    }

    /** rpc_memcpy_cursor, of all of `src`. */
    method Memcpy(mem: array<byte>, src: seq<byte>)
      requires Valid() && |src| <= remaining && Within(Addresses(Live()), mem.Length)
      modifies this`iov, this`iovcnt, this`remaining, vec, mem
      ensures Valid()
      ensures Addresses(Live()) == old(Addresses(Live()))[|src|..]
      ensures mem[..] == Written(old(mem[..]), old(Addresses(Live()))[..|src|], src)
    {
      hide Addresses, Written;
      var done := 0;
      ghost var all := Addresses(Live());
      WrittenNothing(mem[..]);
      while done < |src|
        invariant Valid() && 0 <= done <= |src| <= |all| && |src| - done <= remaining
        invariant Addresses(Live()) == all[done..]
        invariant mem[..] == Written(old(mem[..]), all[..done], src[..done])
        decreases |src| - done
      {
        CountsAgree();
        var left := |src| - done;
        var n := if vec[iov].len > left then left else vec[iov].len;
        CopySome(mem, src[done..done + n]);
        Further(old(mem[..]), all, src, done, n);
        done := done + n;
      }
      assert src[..|src|] == src;
    }

    /** rpc_shrink_cursor */
    method Shrink(newLen: nat)
      requires Valid()
      modifies this`iovcnt, this`remaining, vec
      ensures Valid()
      ensures Addresses(Live()) == old(Addresses(Live()))[..Min(newLen, old(remaining))]
    {
      if remaining <= newLen {
        return;
      }
      ShrinkTo(newLen);
    }

    /** The loop, entered with something to cut. */
    method ShrinkTo(newLen: nat)
      requires Valid() && newLen < remaining
      modifies this`iovcnt, this`remaining, vec
      ensures Valid()
      ensures Addresses(Live()) == old(Addresses(Live()))[..newLen]
    {
      hide Addresses, NonEmpty, ShrinkInv;
      ghost var live, all := Live(), Addresses(Live());
      var numDone: nat, i: nat := 0, 0;
      ShrinkStarts(newLen, live, all);
      assert numDone <= newLen;
      while i < iovcnt && numDone < newLen
        modifies vec
        invariant i <= iovcnt && numDone <= newLen && ShrinkInv(newLen, i, numDone, live, all)
        decreases iovcnt - i
      {
        numDone := ShrinkOne(newLen, i, numDone, live, all);
        i := i + 1;
      }
      ShrinkEnds(newLen, i, numDone, live, all);
      iovcnt := i;
      remaining := newLen;
      assert Live() == vec[iov..iov + i];
    }

    /** Before segment `i`: as long as there is room the segments are whole;
        then they are exactly the bytes to keep. */
    ghost predicate ShrinkInv(newLen: nat, i: nat, numDone: nat, live: seq<Iovec>, all: seq<nat>)
      reads this, vec
    {
      && vec.Length == 2 * iovcntRef && iov + iovcnt <= iovcntRef && i <= iovcnt == |live|
      && numDone <= newLen < |all| && NonEmpty(live)
      && vec[iovcntRef..] == original
      && (numDone < newLen ==>
            Live() == live && Addresses(live[..i]) == all[..numDone] && Addresses(live[i..]) == all[numDone..])
      && (numDone == newLen ==> NonEmpty(vec[iov..iov + i]) && Addresses(vec[iov..iov + i]) == all[..newLen])
    }

    lemma ShrinkStarts(newLen: nat, live: seq<Iovec>, all: seq<nat>)
      requires Valid() && live == Live() && all == Addresses(live) && newLen < |all|
      ensures ShrinkInv(newLen, 0, 0, live, all)
    {
      assert live[..0] == [] && vec[iov..iov] == [] && live[0..] == live && all[0..] == all && all[..0] == [];
    }

    lemma ShrinkEnds(newLen: nat, i: nat, numDone: nat, live: seq<Iovec>, all: seq<nat>)
      requires ShrinkInv(newLen, i, numDone, live, all) && (i == iovcnt || numDone == newLen)
      ensures numDone == newLen && iov + i <= iovcntRef && vec[iovcntRef..] == original
      ensures NonEmpty(vec[iov..iov + i]) && Addresses(vec[iov..iov + i]) == all[..newLen]
    {
      AddressesNonEmpty(live[i..]);
    }

    /** The body of the loop. */
    method ShrinkOne(newLen: nat, i: nat, numDone: nat, ghost live: seq<Iovec>, ghost all: seq<nat>)
      returns (done: nat)
      requires ShrinkInv(newLen, i, numDone, live, all) && i < iovcnt && numDone < newLen
      modifies vec
      ensures ShrinkInv(newLen, i + 1, done, live, all) && done <= newLen
    {
      hide Addresses;
      LiveSplit(live, i);
      AddressesHead(live[i..]);
      if vec[iov + i].len <= newLen - numDone {
        AddressesOne(live[..i], live[i], all, numDone, live[i].len);
        SliceJoin(all, numDone, live[i].len);
        assert vec[iov..iov + i + 1] == Live()[..i + 1];
        return numDone + vec[iov + i].len;
      }
      AddressesOne(live[..i], live[i], all, numDone, newLen - numDone);
      CutSegment(i, newLen - numDone);
      return newLen;
    }

    /** v->iov[i].iov_len = n */
    method CutSegment(i: nat, n: nat)
      requires vec.Length == 2 * iovcntRef && iov + iovcnt <= iovcntRef && i < iovcnt && 0 < n
      requires NonEmpty(Live())
      modifies vec
      ensures vec[iovcntRef..] == old(vec[iovcntRef..])
      ensures vec[iov..iov + i + 1] == old(Live())[..i] + [Iovec(old(vec[iov + i].base), n)]
      ensures NonEmpty(vec[iov..iov + i + 1])
    {
      vec[iov + i] := Iovec(vec[iov + i].base, n);
    }

    /** rpc_reset_cursor */
    method Reset()
      requires Valid()
      modifies this`iov, this`iovcnt, this`remaining, vec
      ensures Valid() && Live() == original && iov == 0
    {
      hide Addresses;
      AddressesNonEmpty([]);
      iovcnt := iovcntRef;
      iov := 0;
      remaining := 0;
      var i := 0;
      assert vec[..0] == [];
      while i < iovcntRef
        modifies this`remaining, vec
        invariant 0 <= i <= iovcntRef
        invariant vec[iovcntRef..] == original && vec[..i] == original[..i]
        invariant remaining == |Addresses(vec[..i])|
      {
        vec[i] := vec[iovcntRef + i];
        AddressesSeq(original[..i], [original[i]]);
        AddressesLone(original[i]);
        assert vec[..i + 1] == original[..i] + [original[i]];
        assert vec[iovcntRef..] == original;
        remaining := remaining + vec[i].len;
        i := i + 1;
      }
      assert vec[0..iovcntRef] == original;
    }
  }

  /** memcpy of `data` to `base`. */
  method CopyStretch(mem: array<byte>, base: nat, data: seq<byte>)
    requires base + |data| <= mem.Length
    modifies mem
    ensures mem[..] == Written(old(mem[..]), Range(base, |data|), data)
  {
    forall i | 0 <= i < |data| {
      mem[base + i] := data[i];
    }
    WrittenRange(old(mem[..]), base, data);
    assert mem[..] == old(mem[..])[..base] + data + old(mem[..])[base + |data|..];
  }

  lemma {:induction false} WrittenRange(mem: seq<byte>, base: nat, data: seq<byte>)
    requires base + |data| <= |mem|
    ensures Written(mem, Range(base, |data|), data) == mem[..base] + data + mem[base + |data|..]
    decreases |data|
  {
    var r := Range(base, |data|);
    if data == [] {
      assert r == [];
    } else {
      assert r[1..] == Range(base + 1, |data| - 1);
      var next := mem[base := data[0]];
      WrittenRange(next, base + 1, data[1..]);
      assert next[..base + 1] + data[1..] == mem[..base] + data;
      assert next[base + |data|..] == mem[base + |data|..];
    }
  }

  // ----- sequences of operations

  datatype Op = Advance(n: nat) | Shrink(n: nat) | Copy(data: seq<byte>)

  /** No operation asks for more than is left when its turn comes. */
  predicate Fits(left: nat, ops: seq<Op>) {
    ops == [] ||
    match ops[0]
    case Advance(n) => n <= left && Fits(left - n, ops[1..])
    case Shrink(n) => Fits(Min(n, left), ops[1..])
    case Copy(data) => |data| <= left && Fits(left - |data|, ops[1..])
  }

  /** What a sequence of operations leaves in memory, and to be written. */
  function Result(mem: seq<byte>, addrs: seq<nat>, ops: seq<Op>): (r: (seq<byte>, seq<nat>))
    requires Within(addrs, |mem|) && Fits(|addrs|, ops)
    ensures |r.0| == |mem|
    decreases |ops|
  {
    if ops == [] then (mem, addrs)
    else
      match ops[0]
      case Advance(n) => assert Within(addrs[n..], |mem|); Result(mem, addrs[n..], ops[1..])
      case Shrink(n) => assert Within(addrs[..Min(n, |addrs|)], |mem|); Result(mem, addrs[..Min(n, |addrs|)], ops[1..])
      case Copy(data) =>
        WithinPart(addrs, |data|, 0, |mem|);
        assert Within(addrs[|data|..], |mem|);
        Result(Written(mem, addrs[..|data|], data), addrs[|data|..], ops[1..])
  }

  /** What each operation does to memory and to what is still to be written. */
  lemma ResultIs(mem: seq<byte>, addrs: seq<nat>, n: nat, data: seq<byte>, ops: seq<Op>)
    requires Within(addrs, |mem|)
    ensures n <= |addrs| && Fits(|addrs| - n, ops) ==>
      && Fits(|addrs|, [Advance(n)] + ops) && Within(addrs[n..], |mem|)
      && Result(mem, addrs, [Advance(n)] + ops) == Result(mem, addrs[n..], ops)
    ensures Fits(Min(n, |addrs|), ops) ==>
      && Fits(|addrs|, [Shrink(n)] + ops) && Within(addrs[..Min(n, |addrs|)], |mem|)
      && Result(mem, addrs, [Shrink(n)] + ops) == Result(mem, addrs[..Min(n, |addrs|)], ops)
    ensures |data| <= |addrs| && Fits(|addrs| - |data|, ops) ==>
      && Fits(|addrs|, [Copy(data)] + ops)
      && Within(addrs[..|data|], |mem|) && Within(addrs[|data|..], |mem|)
      && Result(mem, addrs, [Copy(data)] + ops) == Result(Written(mem, addrs[..|data|], data), addrs[|data|..], ops)
  {
    assert ([Advance(n)] + ops)[1..] == ops && ([Shrink(n)] + ops)[1..] == ops && ([Copy(data)] + ops)[1..] == ops;
    if |data| <= |addrs| {
      WithinPart(addrs, |data|, 0, |mem|);
    }
  }

  /** Any operations on a cursor: memory is as computed, and so is what is still
      to be written. */
  method Perform(segs: seq<Iovec>, mem: array<byte>, ops: seq<Op>) returns (c: Cursor)
    requires NonEmpty(segs) && Within(Addresses(segs), mem.Length) && Fits(|Addresses(segs)|, ops)
    modifies mem
    ensures fresh(c) && fresh(c.vec) && c.Valid() && c.original == segs
    ensures old(Result(mem[..], Addresses(segs), ops)) == (mem[..], Addresses(c.Live()))
  {
    hide Addresses, Written, NonEmpty;
    c := new Cursor(segs);
    var i := 0;
    ghost var end := Result(mem[..], Addresses(segs), ops);
    assert ops[0..] == ops;
    while i < |ops|
      invariant 0 <= i <= |ops| && c.Valid() && c.original == segs && fresh(c.vec)
      invariant Within(Addresses(c.Live()), mem.Length) && Fits(c.remaining, ops[i..])
      invariant Result(mem[..], Addresses(c.Live()), ops[i..]) == end
    {
      assert ops[i..][1..] == ops[i + 1..];
      match ops[i] {
        case Advance(n) => c.Advance(n);
        case Shrink(n) => c.Shrink(n);
        case Copy(data) => c.Memcpy(mem, data);
      }
      i := i + 1;
    }
  }

  /** Any operations, then rpc_reset_cursor: the cursor is as it was made. */
  method PerformAndReset(segs: seq<Iovec>, mem: array<byte>, ops: seq<Op>) returns (c: Cursor)
    requires NonEmpty(segs) && Within(Addresses(segs), mem.Length) && Fits(|Addresses(segs)|, ops)
    modifies mem
    ensures fresh(c) && c.Valid() && c.Live() == segs && c.iov == 0
    ensures mem[..] == old(Result(mem[..], Addresses(segs), ops)).0
  {
    c := Perform(segs, mem, ops);
    c.Reset();
  }

  function Copies(chunks: seq<seq<byte>>): seq<Op> {
    if chunks == [] then [] else [Copy(chunks[0])] + Copies(chunks[1..])
  }

  function Flatten(chunks: seq<seq<byte>>): seq<byte> {
    if chunks == [] then [] else chunks[0] + Flatten(chunks[1..])
  }

  /** However a stream is cut into chunks, copying them one by one leaves the
      same memory and the same cursor as copying it whole. */
  lemma {:induction false} ChunkingDoesNotMatter(mem: seq<byte>, addrs: seq<nat>, chunks: seq<seq<byte>>)
    requires Within(addrs, |mem|) && |Flatten(chunks)| <= |addrs|
    ensures Fits(|addrs|, Copies(chunks)) && Fits(|addrs|, [Copy(Flatten(chunks))])
    ensures Result(mem, addrs, Copies(chunks)) == Result(mem, addrs, [Copy(Flatten(chunks))])
    decreases |chunks|
  {
    var all := Flatten(chunks);
    ResultOfCopy(mem, addrs, all);
    if chunks == [] {
      WrittenNothing(mem);
      assert addrs[..0] == [] && addrs[0..] == addrs;
    } else {
      var c, rest := chunks[0], Flatten(chunks[1..]);
      assert Copies(chunks)[1..] == Copies(chunks[1..]);
      WithinPart(addrs, |c|, |rest|, |mem|);
      SliceJoin(addrs, |c|, |rest|);
      assert Within(addrs[|c|..], |mem|);
      var next := Written(mem, addrs[..|c|], c);
      ChunkingDoesNotMatter(next, addrs[|c|..], chunks[1..]);
      ResultOfCopy(next, addrs[|c|..], rest);
      WrittenSeq(mem, addrs[..|c|], addrs[|c|..][..|rest|], c, rest);
    }
  }

  lemma ResultOfCopy(mem: seq<byte>, addrs: seq<nat>, data: seq<byte>)
    requires Within(addrs, |mem|) && |data| <= |addrs|
    ensures Within(addrs[..|data|], |mem|) && Fits(|addrs|, [Copy(data)])
    ensures Result(mem, addrs, [Copy(data)]) == (Written(mem, addrs[..|data|], data), addrs[|data|..])
  {
    WithinPart(addrs, |data|, 0, |mem|);
    assert Within(addrs[|data|..], |mem|);
    assert [Copy(data)][1..] == [];
  }

  /** Whatever is done to a cursor, memory changes only at its addresses. */
  lemma {:induction false} OnlyItsAddresses(mem: seq<byte>, addrs: seq<nat>, ops: seq<Op>, at: nat)
    requires Within(addrs, |mem|) && Fits(|addrs|, ops) && at < |mem| && at !in addrs
    ensures Result(mem, addrs, ops).0[at] == mem[at]
    decreases |ops|
  {
    if ops != [] {
      match ops[0]
      case Advance(n) =>
        assert Within(addrs[n..], |mem|);
        OnlyItsAddresses(mem, addrs[n..], ops[1..], at);
      case Shrink(n) =>
        var m := Min(n, |addrs|);
        assert Within(addrs[..m], |mem|);
        OnlyItsAddresses(mem, addrs[..m], ops[1..], at);
      case Copy(data) =>
        WithinPart(addrs, |data|, 0, |mem|);
        assert Within(addrs[|data|..], |mem|);
        WrittenElsewhere(mem, addrs[..|data|], data, at);
        OnlyItsAddresses(Written(mem, addrs[..|data|], data), addrs[|data|..], ops[1..], at);
    }
  }

  lemma NotAfter(addrs: seq<nat>, n: nat, k: nat)
    requires k < n <= |addrs| && forall i, j :: 0 <= i < j < |addrs| ==> addrs[i] != addrs[j]
    ensures addrs[k] !in addrs[n..]
  {
  }

  /** So what is advanced over is never written ... */
  lemma AdvanceSkips(mem: seq<byte>, addrs: seq<nat>, n: nat, ops: seq<Op>, k: nat)
    requires Within(addrs, |mem|) && k < n <= |addrs| && Fits(|addrs| - n, ops)
    requires forall i, j :: 0 <= i < j < |addrs| ==> addrs[i] != addrs[j]
    ensures Fits(|addrs|, [Advance(n)] + ops)
    ensures Result(mem, addrs, [Advance(n)] + ops).0[addrs[k]] == mem[addrs[k]]
  {
    NotAfter(addrs, n, k);
    AdvanceSpares(mem, addrs, n, ops, addrs[k]);
  }

  lemma AdvanceSpares(mem: seq<byte>, addrs: seq<nat>, n: nat, ops: seq<Op>, at: nat)
    requires Within(addrs, |mem|) && n <= |addrs| && Fits(|addrs| - n, ops) && at < |mem| && at !in addrs[n..]
    ensures Fits(|addrs|, [Advance(n)] + ops)
    ensures Result(mem, addrs, [Advance(n)] + ops).0[at] == mem[at]
  {
    assert ([Advance(n)] + ops)[1..] == ops;
    assert Within(addrs[n..], |mem|);
    OnlyItsAddresses(mem, addrs[n..], ops, at);
  }

  /** ... and after a shrink to `n` bytes no byte past the `n`th is ever written. */
  lemma ShrinkBounds(mem: seq<byte>, addrs: seq<nat>, n: nat, ops: seq<Op>, k: nat)
    requires Within(addrs, |mem|) && Fits(Min(n, |addrs|), ops)
    requires forall i, j :: 0 <= i < j < |addrs| ==> addrs[i] != addrs[j]
    requires n <= k < |addrs|
    ensures Fits(|addrs|, [Shrink(n)] + ops)
    ensures Result(mem, addrs, [Shrink(n)] + ops).0[addrs[k]] == mem[addrs[k]]
  {
    var all := [Shrink(n)] + ops;
    assert all[1..] == ops;
    assert Within(addrs[..n], |mem|) && addrs[k] !in addrs[..n];
    OnlyItsAddresses(mem, addrs[..n], ops, addrs[k]);
  }
}
