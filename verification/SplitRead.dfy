/** Reading a large range with READs of at most readmax bytes. */
module SplitRead {
  import opened Bytes
  import opened SplitWrite

  /** How one READ goes: with Ok, `count` bytes come back. */
  type ReadScript = (nat, nat, nat) -> Reply

  /** The bytes of `file` from `at`, `n` at most. */
  function Available(file: seq<byte>, at: nat, n: nat): (m: nat)
    ensures m <= n && (m > 0 ==> at + m <= |file|)
    ensures m < n ==> at + m >= |file|
  {
    if at >= |file| then 0 else Min(n, |file| - at)
  }

  /** A server of a file that does not change: it never sends more than asked
      for or than there is. */
  ghost predicate HonestReader(script: ReadScript, file: seq<byte>) {
    forall k, at, n ::
      script(k, at, n).count <= Available(file, at, n)
      && (script(k, at, n).status.Refused? ==> script(k, at, n).status.errno < 0)
  }

  /** Moreover it sends all there is. */
  ghost predicate FullReader(script: ReadScript, file: seq<byte>) {
    forall k, at, n :: script(k, at, n).count == Available(file, at, n)
  }

  /** The READs for a request of several end with `status`: all but the last were
      answered in full, and the last one's reply decides. The first may not be sent at
      all. */
  predicate ReadsEnd(made: seq<Reply>, status: int, readmax: nat) {
    && made != [] && AllFull(made[..|made| - 1], readmax)
    && match made[|made| - 1].status
       case NotSent => status == if |made| == 1 then -1 else -12
       case RpcError => status == -14
       case Cancelled => status == -4
       case TimedOut => status == -4
       case Refused(e) => status == e
       case Ok => status == (|made| - 1) * readmax + made[|made| - 1].count
  }

  predicate AllFull(made: seq<Reply>, readmax: nat) {
    forall k :: 0 <= k < |made| ==> made[k].status.Ok? && made[k].count == readmax
  }

  class ReadServer {
    const script: ReadScript
    const file: seq<byte>
    var requests: nat
    ghost var made: seq<Reply>

    constructor (script: ReadScript, file: seq<byte>)
      ensures this.script == script && this.file == file
    {
      this.script, this.file, requests, made := script, file, 0, [];
    }

    /** READ into `buf` at `to` (zero-copy). */
    method Read(offset: nat, n: nat, buf: array<byte>, to: nat) returns (r: Reply)
      requires HonestReader(script, file) && to + n <= buf.Length
      modifies this`requests, this`made, buf
      ensures requests == old(requests) + 1 && made == old(made) + [r]
      ensures r == script(old(requests), offset, n) && r.count <= Available(file, offset, n)
      ensures r.status.Ok? && r.count > 0 ==> buf[to..to + r.count] == file[offset..offset + r.count]
      ensures forall k :: 0 <= k < buf.Length && !(to <= k < to + n) ==> buf[k] == old(buf[k])
      ensures r.status.NotSent? ==> buf[..] == old(buf[..])
    {
      r := script(requests, offset, n);
      requests, made := requests + 1, made + [r];
      if r.status.Ok? {
        forall k | to <= k < to + r.count {
          buf[k] := file[offset + k - to];
        }
      }
    }
  }

  /** nfs3_pread_async_internal and nfs3_pread_cb. Without `sent` there is no
      callback; `status` is what the callback gets. */
  method Nfs3Pread(srv: ReadServer, fh: FileHandle, readmax: nat, buf: array<byte>, to: nat, n: nat,
                   offset: nat, updatePos: bool)
    returns (sent: bool, status: int)
    requires HonestReader(srv.script, srv.file) && to + n <= buf.Length
    modifies srv`requests, srv`made, fh, buf
    ensures forall k :: 0 <= k < buf.Length && !(to <= k < to + n) ==> buf[k] == old(buf[k])
    ensures sent && status >= 0 ==>
      && status <= Available(srv.file, offset, Min(n, readmax))
      && (status > 0 ==> buf[to..to + status] == srv.file[offset..offset + status])
      && fh.offset == if updatePos then offset + status else old(fh.offset)
    ensures sent && status >= 0 && FullReader(srv.script, srv.file) ==>
      status == Available(srv.file, offset, Min(n, readmax))
    ensures !(sent && status >= 0) ==> fh.offset == old(fh.offset)
    ensures var r := srv.script(old(srv.requests), offset, Min(n, readmax));
      && srv.made == old(srv.made) + [r]
      && (sent <==> !r.status.NotSent?) && (r.status.Ok? <==> sent && status >= 0) && r.count <= Min(n, readmax)
      && status == match r.status
                   case NotSent => -1
                   case RpcError => -14
                   case Cancelled => -4
                   case TimedOut => -4
                   case Refused(e) => e
                   case Ok => r.count
  {
    var count := if n > readmax then readmax else n;
    var r := srv.Read(offset, count, buf, to);
    match r.status
    case NotSent => return false, -1;
    case RpcError => return true, -EFAULT;
    case Cancelled => return true, -EINTR;
    case TimedOut => return true, -EINTR;
    case Refused(errno) => return true, errno;
    case Ok =>
      var got := r.count;
      if updatePos {
        fh.offset := offset + got;
      }
      if got > count {
        got := count;
      }
      return true, got;
  }

  /** The first `n` bytes of `b` are the file's from `at`. */
  predicate Holds(b: seq<byte>, n: nat, file: seq<byte>, at: nat) {
    n > 0 ==> n <= |b| && at + n <= |file| && b[..n] == file[at..at + n]
  }

  lemma HoldsMore(b: seq<byte>, n: nat, m: nat, file: seq<byte>, at: nat)
    requires Holds(b, n, file, at) && n + m <= |b|
    requires m > 0 ==> at + n + m <= |file| && b[n..n + m] == file[at + n..at + n + m]
    ensures Holds(b, n + m, file, at)
  {
    assert b[..n + m] == b[..n] + b[n..n + m];
  }

  /** struct rw_data, for reading. */
  class ReadData {
    const srv: ReadServer
    const buf: array<byte>
    const start: nat         // the caller's offset
    const count: nat
    var at: nat              // how far buffer pointer and offset have moved
    var remaining: nat
    var done: seq<int>       // every run of the callback

    constructor (srv: ReadServer, buf: array<byte>, start: nat, count: nat)
      ensures this.srv == srv && this.buf == buf && this.start == start && this.count == count
      ensures at == 0 && remaining == count && done == []
    {
      this.srv, this.buf, this.start, this.count := srv, buf, start, count;
      at, remaining, done := 0, count, [];
    }

    /** Ready to read on from here. */
    ghost predicate Continuing()
      reads this, buf
    {
      done == [] && at + remaining == count <= buf.Length && remaining > 0 && Holds(buf[..], at, srv.file, start)
      && (at > 0 ==> at <= Available(srv.file, start, count))
    }

    /** A read of `cnt` bytes returned `status`. */
    ghost predicate Returned(cnt: nat, status: int)
      reads this, buf
    {
      && done == [] && at + remaining == count <= buf.Length && 0 < cnt <= remaining
      && (at > 0 ==> at <= Available(srv.file, start, count))
      && Holds(buf[..], at, srv.file, start)
      && (status >= 0 ==>
            && status <= Available(srv.file, start + at, cnt)
            && Holds(buf[..], at + status, srv.file, start)
            && (FullReader(srv.script, srv.file) ==> status == Available(srv.file, start + at, cnt)))
    }

    /** The callback ran once, with a contiguous piece of the file, all there is
        if the server is a full reader, or with an error. */
    ghost predicate Finished()
      reads this, buf
    {
      && |done| == 1 && at <= count <= buf.Length && Holds(buf[..], at, srv.file, start)
      && (done[0] >= 0 ==>
            && done[0] == at <= Available(srv.file, start, count)
            && (FullReader(srv.script, srv.file) ==> at == Available(srv.file, start, count)))
    }

    /** r_cb, up to the next read: whether there is one. */
    method RCb(cnt: nat, status: int, readmax: nat) returns (more: bool)
      requires Returned(cnt, status) && 0 < readmax && cnt == Min(remaining, readmax)
      modifies this
      ensures more ==> Continuing() && remaining < old(remaining) && status == readmax
      ensures !more ==> Finished()
      ensures status >= 0 ==> at == old(at) + status
      ensures status < 0 ==> !more && done == [status] && at == old(at)
      ensures !more && status >= 0 ==> done[0] >= 0
    {
      if status < 0 {
        done := [status];
        return false;
      }
      var n := if status > remaining then remaining else status;
      at := at + n;
      remaining := remaining - n;
      if remaining == 0 || status < readmax {
        done := [count - remaining];
        return false;
      }
      return true;
    }

    /** The next read of at most `readmax` bytes. */
    method SendNext(fh: FileHandle, readmax: nat, updatePos: bool) returns (cnt: nat, sent: bool, status: int)
      requires HonestReader(srv.script, srv.file) && Continuing() && readmax > 0
      modifies srv`requests, srv`made, fh, buf
      ensures cnt == Min(remaining, readmax)
      ensures if sent then Returned(cnt, status) else status == -1
      ensures !sent ==> Holds(buf[..], at, srv.file, start)
      ensures fh.offset == if sent && status >= 0 && updatePos then start + at + status else old(fh.offset)
      ensures forall k :: count <= k < buf.Length ==> buf[k] == old(buf[k])
      ensures |srv.made| == |old(srv.made)| + 1 && old(srv.made) <= srv.made
      ensures var r := srv.made[|srv.made| - 1];
        && ReadsEnd([r], status, readmax) && r.count <= cnt && (sent <==> !r.status.NotSent?)
        && (r.status.Ok? <==> sent && status >= 0) && (r.status.Ok? ==> status == r.count)
    {
      hide FullReader, HonestReader, Available;
      cnt := if remaining > readmax then readmax else remaining;
      ghost var before := buf[..];
      sent, status := Nfs3Pread(srv, fh, readmax, buf, at, cnt, start + at, updatePos);
      assert buf[..][..at] == before[..at];
      if sent && status >= 0 {
        assert status > 0 ==> buf[..][at..at + status] == buf[at..at + status];
        HoldsMore(buf[..], at, status, srv.file, start);
      }
    }
  }

  /** nfs_pread over _nfs_pread_async and r_cb. A result that is no error is a
      contiguous piece of the file; it is all that was asked for and exists if
      the server never cuts a READ short before the end of the file. After an
      error the first `kept` bytes of the buffer, from whole READs, are the file's,
      and the file offset is behind them. */
  method Pread(srv: ReadServer, fh: FileHandle, readmax: nat, buf: array<byte>, count: nat, offset: nat,
               updatePos: bool)
    returns (status: int, ghost kept: nat)
    requires HonestReader(srv.script, srv.file) && count <= buf.Length && 0 < readmax
    modifies srv`requests, srv`made, fh, buf
    ensures forall k :: count <= k < buf.Length ==> buf[k] == old(buf[k])
    ensures status >= 0 ==> kept == status <= Available(srv.file, offset, count)
    ensures status >= 0 && FullReader(srv.script, srv.file) ==> status == Available(srv.file, offset, count)
    ensures kept <= count && Holds(buf[..], kept, srv.file, offset)
    ensures fh.offset == if updatePos && (status >= 0 || kept > 0) then offset + kept else old(fh.offset)
    ensures old(srv.made) <= srv.made && ReadsEnd(srv.made[|old(srv.made)|..], status, readmax)
    ensures var last := srv.made[|srv.made| - 1];
      && (status >= 0 <==> last.status.Ok?)
      && (last.status.NotSent? ==> status == if |srv.made| == |old(srv.made)| + 1 then -1 else -12)
      && (last.status.RpcError? ==> status == -14)
      && (last.status.Cancelled? || last.status.TimedOut? ==> status == -4)
      && (last.status.Refused? ==> status == last.status.errno)
  {
    hide FullReader, HonestReader, Available;
    var sent;
    if count <= readmax {
      sent, status := Nfs3Pread(srv, fh, readmax, buf, 0, count, offset, updatePos);
      assert status > 0 && sent ==> buf[..status] == buf[0..status];
      kept := if sent && status >= 0 then status else 0;
      status := if sent then status else -1;
      return;
    }
    status, kept := PreadSplit(srv, fh, readmax, buf, count, offset, updatePos);
  }

  lemma AppendedOne(a: seq<Reply>, b: seq<Reply>, c: seq<Reply>)
    requires a <= b <= c && |c| == |b| + 1
    ensures a <= c && c[|a|..] == b[|a|..] + [c[|c| - 1]]
    ensures b[|b|..] == [] && c[|b|..] == [c[|c| - 1]]
  {
  }

  lemma HoldsNothing(b: seq<byte>, file: seq<byte>, at: nat)
    ensures Holds(b, 0, file, at)
  {
  }

  /** One more READ after some that were answered in full. */
  lemma OneMoreRead(made: seq<Reply>, next: Reply, at: nat, status: int, readmax: nat)
    requires ReadsEnd(made, at, readmax) && made[|made| - 1].status.Ok? && made[|made| - 1].count == readmax
    requires if next.status.NotSent? then status == -12 else ReadsEnd([next], status, readmax)
    ensures ReadsEnd(made + [next], if next.status.Ok? then at + status else status, readmax)
  {
    var all := made + [next];
    assert all[..|all| - 1] == made;
    assert forall k :: 0 <= k < |made| - 1 ==> made[..|made| - 1][k] == made[k];
    assert (|all| - 1) * readmax == (|made| - 1) * readmax + readmax;
  }

  /** A request of more than one READ. */
  method PreadSplit(srv: ReadServer, fh: FileHandle, readmax: nat, buf: array<byte>, count: nat, offset: nat,
                    updatePos: bool)
    returns (status: int, ghost kept: nat)
    requires HonestReader(srv.script, srv.file) && readmax < count <= buf.Length && 0 < readmax
    modifies srv`requests, srv`made, fh, buf
    ensures forall k :: count <= k < buf.Length ==> buf[k] == old(buf[k])
    ensures status >= 0 ==> kept == status <= Available(srv.file, offset, count)
    ensures status >= 0 && FullReader(srv.script, srv.file) ==> status == Available(srv.file, offset, count)
    ensures kept <= count && Holds(buf[..], kept, srv.file, offset)
    ensures fh.offset == if updatePos && (status >= 0 || kept > 0) then offset + kept else old(fh.offset)
    ensures old(srv.made) <= srv.made && ReadsEnd(srv.made[|old(srv.made)|..], status, readmax)
    ensures status >= 0 <==> srv.made[|srv.made| - 1].status.Ok?
  {
    hide FullReader, HonestReader, Available, Holds, ReadsEnd;
    var rw := new ReadData(srv, buf, offset, count);
    HoldsNothing(buf[..], srv.file, offset);
    var cnt, sent;
    cnt, sent, status := rw.SendNext(fh, readmax, updatePos);
    kept := 0;
    ghost var made := srv.made[|old(srv.made)|..];
    AppendedOne(old(srv.made), old(srv.made), srv.made);
    if !sent {
      return -1, 0;
    }
    var more := true;
    while more
      invariant kept == rw.at
      invariant more ==> rw.Returned(cnt, status) && cnt == Min(rw.remaining, readmax)
      invariant more && !updatePos ==> fh.offset == old(fh.offset)
      invariant more && updatePos && status >= 0 ==> fh.offset == offset + kept + status
      invariant more && updatePos && status < 0 ==> fh.offset == if kept > 0 then offset + kept else old(fh.offset)
      invariant !more ==> rw.Finished()
      invariant old(srv.made) <= srv.made && made == srv.made[|old(srv.made)|..] && made != []
      invariant ReadsEnd(made, if more && status >= 0 then rw.at + status else if more then status else rw.done[0],
                         readmax)
      invariant ((if more then status else rw.done[0]) >= 0) <==> made[|made| - 1].status.Ok?
      invariant more && status >= 0 ==> made[|made| - 1].count == status
      invariant !more ==>
        fh.offset == if updatePos && (rw.done[0] >= 0 || kept > 0) then offset + kept else old(fh.offset)
      invariant forall k :: count <= k < buf.Length ==> buf[k] == old(buf[k])
      decreases more, rw.remaining
    {
      more := rw.RCb(cnt, status, readmax);
      kept := rw.at;
      if more {
        ghost var earlier := srv.made;
        cnt, sent, status := rw.SendNext(fh, readmax, updatePos);
        OneMoreRead(made, srv.made[|srv.made| - 1], rw.at, if sent then status else -12, readmax);
        AppendedOne(old(srv.made), earlier, srv.made);
        made := made + [srv.made[|srv.made| - 1]];
        if !sent {
          rw.done := [-ENOMEM];
          more := false;
        }
      }
    }
    return rw.done[0], kept;
  }
}
