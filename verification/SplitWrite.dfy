/** Writing through three layers: the NFSv3 layer that reissues short WRITEs,
    the layer that splits a large request, and the JNI loop on top. */
module SplitWrite {
  import opened Wrappers
  import opened Bytes

  const EINTR: int := 4
  const EIO: int := 5
  const ENOMEM: int := 12
  const EFAULT: int := 14

  // ----- a file on a server

  type File = map<nat, byte>

  /** The file with `data` stored from offset `at`. */
  function Store(f: File, at: nat, data: seq<byte>): File
    decreases |data|
  {
    if data == [] then f else Store(f[at := data[0]], at + 1, data[1..])
  }

  lemma {:induction false} StoreSeq(f: File, at: nat, a: seq<byte>, b: seq<byte>)
    ensures Store(Store(f, at, a), at + |a|, b) == Store(f, at, a + b)
    decreases |a|
  {
    if a == [] {
      assert a + b == b;
    } else {
      assert (a + b)[1..] == a[1..] + b;
      StoreSeq(f[at := a[0]], at + 1, a[1..], b);
    }
  }

  lemma StoreNothing(f: File, at: nat)
    ensures Store(f, at, []) == f
  {
  }

  /** Byte `i` of the file: new if stored, and otherwise what it was. */
  lemma {:induction false} StoreMeans(f: File, at: nat, data: seq<byte>, i: nat)
    ensures var g := Store(f, at, data);
      if at <= i < at + |data| then i in g && g[i] == data[i - at]
      else (i in g <==> i in f) && (i in f ==> g[i] == f[i])
    decreases |data|
  {
    if data != [] {
      StoreMeans(f[at := data[0]], at + 1, data[1..], i);
    }
  }

  /** How one WRITE goes: `count` bytes of it, from its start, reach the file,
      whatever the status says. */
  datatype Status = NotSent | RpcError | Cancelled | TimedOut | Refused(errno: int) | Ok
  datatype Reply = Reply(status: Status, count: nat)

  /** A server: its answer to the k-th WRITE, of n bytes. */
  type Script = (nat, nat) -> Reply

  /** It never stores or claims more than it was sent. */
  ghost predicate Honest(script: Script) {
    forall k, n :: script(k, n).count <= n
      && (script(k, n).status.NotSent? ==> script(k, n).count == 0)
      && (script(k, n).status.Refused? ==> script(k, n).status.errno < 0)
  }

  /** A WRITE of `n` bytes and its reply. */
  datatype Made = Made(n: nat, reply: Reply)

  /** The server took something of every WRITE. */
  predicate AllTaken(made: seq<Made>) {
    forall k :: 0 <= k < |made| ==> made[k].reply.status.Ok? && made[k].reply.count > 0
  }

  /** The WRITEs made for `n` bytes end with `status`: something was taken of all but
      the last, whose reply decides. The very first may not be sent at all. */
  predicate Ends(made: seq<Made>, status: int, n: nat) {
    && made != []
    && AllTaken(made[..|made| - 1])
    && var last := made[|made| - 1].reply;
       match last.status
       case NotSent => status == if |made| == 1 then -1 else -12
       case RpcError => status == -14
       case Cancelled => status == -4
       case TimedOut => status == -4
       case Refused(e) => status == e
       case Ok => status == if last.count > 0 || n == 0 then n else -14
  }

  /** Of the WRITEs made for a chunk of `n` bytes the last was of what is `left`;
      something, but not all, was taken of each one before. */
  ghost predicate Trace(made: seq<Made>, n: nat, left: nat) {
    && made != [] && AllTaken(made[..|made| - 1])
    && made[0].n == n && !made[0].reply.status.NotSent? && made[|made| - 1].n == left
    && forall k :: 0 <= k < |made| - 1 ==> made[k + 1].n == made[k].n - made[k].reply.count > 0
  }

  lemma OneIsOut(made: seq<Made>, n: nat, left: nat)
    requires Trace(made, n, left)
    ensures made != [] && AllTaken(made[..|made| - 1])
    ensures var last := made[|made| - 1].reply; last.status.Ok? && last.count > 0 ==> AllTaken(made)
  {
    assert forall k :: 0 <= k < |made| - 1 ==> made[..|made| - 1][k] == made[k];
  }

  /** The rest of it sent again. */
  lemma SentAgain(made: seq<Made>, n: nat, left: nat, again: Reply)
    requires Trace(made, n, left)
    requires var r := made[|made| - 1].reply; r.status.Ok? && 0 < r.count < left
    ensures var r := made[|made| - 1].reply;
      var more := made + [Made(left - r.count, again)];
      && Trace(more, n, left - r.count)
      && (again.status.NotSent? ==> Ends(more, -12, n))
  {
    var last := made[|made| - 1];
    var more := made + [Made(left - last.reply.count, again)];
    assert made == made[..|made| - 1] + [last];
    assert more[..|more| - 1] == made;
    forall k | 0 <= k < |made|
      ensures made[k].reply.status.Ok? && made[k].reply.count > 0
    {
      assert k < |made| - 1 ==> made[..|made| - 1][k] == made[k];
    }
  }

  class Server {
    const script: Script
    var file: File
    var writes: nat
    ghost var made: seq<Made>

    constructor (script: Script, file: File)
      ensures this.script == script && this.file == file && writes == 0 && made == []
    {
      this.script, this.file, this.writes, this.made := script, file, 0, [];
    }

    /** A WRITE of `data` at `offset`. */
    method Write(offset: nat, data: seq<byte>) returns (r: Reply)
      requires Honest(script)
      modifies this
      ensures r == script(old(writes), |data|) && r.count <= |data| && writes == old(writes) + 1
      ensures file == Store(old(file), offset, data[..r.count])
      ensures made == old(made) + [Made(|data|, r)]
    {
      r := script(writes, |data|);
      made := made + [Made(|data|, r)];
      file := Store(file, offset, data[..r.count]);
      writes := writes + 1;
    }
  }

  /** A prefix of `data` has been stored. */
  ghost predicate PrefixStored(before: File, after: File, at: nat, data: seq<byte>) {
    exists p :: 0 <= p <= |data| && after == Store(before, at, data[..p])
  }

  lemma PrefixIsStored(f: File, at: nat, data: seq<byte>, p: nat)
    requires p <= |data|
    ensures PrefixStored(f, Store(f, at, data[..p]), at, data)
  {
  }

  lemma PrefixThenPrefix(f: File, g: File, h: File, at: nat, data: seq<byte>, k: nat)
    requires k <= |data| && g == Store(f, at, data[..k])
    requires PrefixStored(g, h, at + k, data[k..])
    ensures PrefixStored(f, h, at, data)
  {
    var p :| 0 <= p <= |data[k..]| && h == Store(g, at + k, data[k..][..p]);
    StoreSeq(f, at, data[..k], data[k..][..p]);
    assert data[..k] + data[k..][..p] == data[..k + p];
  }

  lemma PrefixOfPrefix(f: File, g: File, at: nat, data: seq<byte>, n: nat)
    requires n <= |data| && PrefixStored(f, g, at, data[..n])
    ensures PrefixStored(f, g, at, data)
  {
    var p :| 0 <= p <= n && g == Store(f, at, data[..n][..p]);
    assert data[..n][..p] == data[..p];
  }

  // ----- layer 1: NFSv3

  /** struct nfsfh, as far as writing goes. */
  class FileHandle {
    var offset: nat

    constructor (offset: nat)
      ensures this.offset == offset
    {
      this.offset := offset;
    }
  }

  /** struct nfs_cb_data and struct nfs_mcb_data of one chunk. */
  class WriteCall {
    const srv: Server
    const fh: FileHandle
    const usrbuf: seq<byte>  // already cut to one chunk
    const offset: nat
    const updatePos: bool
    var maxOffset: nat
    var numCalls: nat
    var error: int
    var cancel: bool
    var oom: bool
    var mOffset: nat         // mdata->offset
    var mCount: nat          // mdata->count
    var done: seq<int>       // every run of the callback
    ghost const before: File
    ghost const start: seq<Made>

    constructor (srv: Server, fh: FileHandle, usrbuf: seq<byte>, offset: nat, updatePos: bool)
      ensures this.srv == srv && this.fh == fh && this.usrbuf == usrbuf && this.offset == offset
      ensures this.updatePos == updatePos && before == srv.file
      ensures maxOffset == offset && numCalls == 0 && error == 0 && !cancel && !oom && done == []
      ensures mOffset == offset && mCount == |usrbuf| && start == srv.made
    {
      this.srv, this.fh, this.usrbuf, this.offset, this.updatePos := srv, fh, usrbuf, offset, updatePos;
      maxOffset, numCalls, error, cancel, oom, done := offset, 0, 0, false, false, [];
      mOffset, mCount := offset, |usrbuf|;
      before, start := srv.file, srv.made;
    }

    /** A WRITE is out, and `r` its reply; what was claimed before is stored. */
    ghost predicate Awaiting(r: Reply)
      reads this, srv
    {
      && Honest(srv.script) && numCalls == 1 && done == []
      && error == 0 && !cancel && !oom && maxOffset == offset
      && offset <= mOffset && mOffset + mCount == offset + |usrbuf|
      && r.count <= mCount && !r.status.NotSent? && (usrbuf != [] ==> mCount > 0)
      && (r.status.Refused? ==> r.status.errno < 0)
      && srv.file == Store(before, offset, usrbuf[..mOffset - offset + r.count])
      && start <= srv.made && Trace(srv.made[|start|..], |usrbuf|, mCount) && srv.made[|srv.made| - 1].reply == r
    }

    /** The callback ran once: with the full count, everything being stored, or
        with an error, a prefix being stored. */
    ghost predicate Finished(fhOffset: nat)
      reads this, srv, fh
    {
      && numCalls == 0 && |done| == 1
      && (done[0] >= 0 ==>
            && done[0] == |usrbuf| && srv.file == Store(before, offset, usrbuf)
            && fh.offset == if updatePos then offset + |usrbuf| else fhOffset)
      && (done[0] < 0 ==> PrefixStored(before, srv.file, offset, usrbuf) && fh.offset == fhOffset)
      && start <= srv.made && Trace(srv.made[|start|..], |usrbuf|, mCount)
      && Ends(srv.made[|start|..], done[0], |usrbuf|)
      && (done[0] >= 0 && usrbuf != [] ==> AllTaken(srv.made[|start|..]))
    }

    /** nfs3_pwrite_mcb. Returns the reply to a reissued WRITE, if it sent one. */
    method Mcb(r: Reply) returns (next: Option<Reply>)
      requires Awaiting(r)
      modifies this, srv, fh
      ensures next.Some? ==> Awaiting(next.value) && mCount < old(mCount) && fh.offset == old(fh.offset)
      ensures next.None? ==> Finished(old(fh.offset))
    {
      hide Store, AllTaken, Trace, PrefixStored;
      ghost var made := srv.made[|start|..];
      OneIsOut(made, |usrbuf|, mCount);
      assert made[|made| - 1].reply == r && usrbuf[..|usrbuf|] == usrbuf;
      PrefixIsStored(before, offset, usrbuf, mOffset - offset + r.count);
      numCalls := numCalls - 1;
      match r.status {
        case NotSent =>
        case RpcError => error := -EFAULT;
        case Cancelled => cancel := true;
        case TimedOut => cancel := true;
        case Refused(errno) => error := errno;
        case Ok =>
          var count := r.count;
          if count < mCount {
            if count == 0 {
              error := -EFAULT;
            } else {
              var again := SendRest(r);
              if !again.status.NotSent? {
                return Some(again);
              }
            }
          }
          if count > 0 {
            if maxOffset < mOffset + count {
              maxOffset := mOffset + count;
            }
          }
      }
      Report();
      return None;
    }

    /** The part of it that reissues the rest of a short WRITE. */
    method SendRest(r: Reply) returns (again: Reply)
      requires Honest(srv.script) && numCalls == 0 && done == []
      requires error == 0 && !cancel && !oom && maxOffset == offset
      requires offset <= mOffset && mOffset + mCount == offset + |usrbuf|
      requires r.status.Ok? && 0 < r.count < mCount
      requires srv.file == Store(before, offset, usrbuf[..mOffset - offset + r.count])
      requires start <= srv.made && Trace(srv.made[|start|..], |usrbuf|, mCount) && srv.made[|srv.made| - 1].reply == r
      modifies this`mOffset, this`mCount, this`numCalls, this`oom, srv
      ensures !again.status.NotSent? ==> Awaiting(again) && mCount < old(mCount)
      ensures again.status.NotSent? ==>
        && numCalls == 0 && oom && PrefixStored(before, srv.file, offset, usrbuf)
        && start <= srv.made && Trace(srv.made[|start|..], |usrbuf|, mCount)
        && Ends(srv.made[|start|..], -12, |usrbuf|)
    {
      hide Store, AllTaken, Trace, PrefixStored, Ends;
      ghost var made := srv.made[|start|..];
      OneIsOut(made, |usrbuf|, mCount);
      assert made[|made| - 1].reply == r;
      mOffset := mOffset + r.count;
      mCount := mCount - r.count;
      numCalls := numCalls + 1;
      again := Reissue();
      SentAgain(made, |usrbuf|, mCount + r.count, again);
      assert srv.made[|start|..] == made + [Made(mCount, again)];
      if again.status.NotSent? {
        PrefixIsStored(before, offset, usrbuf, mOffset - offset);
        numCalls := numCalls - 1;
        oom := true;
      }
    }

    /** The rest of the chunk is sent again. */
    method Reissue() returns (again: Reply)
      requires Honest(srv.script) && offset <= mOffset && mOffset + mCount == offset + |usrbuf|
      requires srv.file == Store(before, offset, usrbuf[..mOffset - offset])
      modifies srv
      ensures again.count <= mCount && (again.status.Refused? ==> again.status.errno < 0)
      ensures srv.file == Store(before, offset, usrbuf[..mOffset - offset + again.count])
      ensures again.status.NotSent? ==> again.count == 0
      ensures srv.made == old(srv.made) + [Made(mCount, again)]
    {
      hide Store;
      var at := mOffset - offset;
      again := srv.Write(mOffset, usrbuf[at..]);
      StoreSeq(before, offset, usrbuf[..at], usrbuf[at..][..again.count]);
      assert usrbuf[..at] + usrbuf[at..][..again.count] == usrbuf[..at + again.count];
    }

    /** The end of the callback, when no reply is outstanding. */
    method Report()
      requires numCalls == 0 && done == [] && error <= 0
      requires PrefixStored(before, srv.file, offset, usrbuf)
      requires error == 0 && !cancel && !oom ==>
        maxOffset == offset + |usrbuf| && srv.file == Store(before, offset, usrbuf)
      requires start <= srv.made && Trace(srv.made[|start|..], |usrbuf|, mCount)
      requires Ends(srv.made[|start|..],
                    if oom then -12 else if error != 0 then error else if cancel then -4 else |usrbuf|, |usrbuf|)
      requires error == 0 && !cancel && !oom && usrbuf != [] ==> AllTaken(srv.made[|start|..])
      modifies this`done, fh
      ensures Finished(old(fh.offset))
    {
      if oom {
        done := [-ENOMEM];
        return;
      }
      if error != 0 {
        done := [error];
        return;
      }
      if cancel {
        done := [-EINTR];
        return;
      }
      if updatePos {
        fh.offset := maxOffset;
      }
      done := [maxOffset - offset];
    }
  }

  /** nfs3_pwrite_async_internal and the replies to it. `sent` is false where the
      first WRITE could not be sent, when there is no callback. */
  method Nfs3Pwrite(srv: Server, fh: FileHandle, writemax: nat, buf: seq<byte>, offset: nat, updatePos: bool)
    returns (sent: bool, status: int)
    requires Honest(srv.script)
    modifies srv, fh
    ensures var n := Min(|buf|, writemax);
      && (!sent ==> srv.file == old(srv.file) && fh.offset == old(fh.offset))
      && (sent && status >= 0 ==>
            && status == n && srv.file == Store(old(srv.file), offset, buf[..n])
            && fh.offset == if updatePos then offset + n else old(fh.offset))
      && (sent && status < 0 ==>
            PrefixStored(old(srv.file), srv.file, offset, buf[..n]) && fh.offset == old(fh.offset))
    ensures old(srv.made) <= srv.made && Ends(srv.made[|old(srv.made)|..], status, Min(|buf|, writemax))
    ensures var made := srv.made[|old(srv.made)|..];
      && (sent <==> !(|made| == 1 && made[0].reply.status.NotSent?))
      && made[0].n == Min(|buf|, writemax)
      && (sent && status >= 0 && made[0].n > 0 ==> AllTaken(made))
      && forall k :: 0 <= k < |made| - 1 ==> made[k + 1].n == made[k].n - made[k].reply.count > 0
  {
    var count := if |buf| > writemax then writemax else |buf|;
    var call := new WriteCall(srv, fh, buf[..count], offset, updatePos);
    // count <= writemax, so the loop that chops the request runs once
    call.numCalls := call.numCalls + 1;
    StoreNothing(srv.file, offset);
    var r := call.Reissue();
    assert srv.made[|old(srv.made)|..] == [Made(count, r)];
    if r.status.NotSent? {
      return false, -1;
    }
    var reply := Some(r);
    while reply.Some?
      invariant reply.Some? ==> call.Awaiting(reply.value) && fh.offset == old(fh.offset)
      invariant reply.None? ==> call.Finished(old(fh.offset))
      decreases reply.Some?, call.mCount
    {
      reply := call.Mcb(reply.value);
    }
    return true, call.done[0];
  }

  // ----- layer 2: splitting a large request

  /** struct rw_data */
  class RwData {
    const srv: Server
    const all: seq<byte>     // the caller's buffer
    const start: nat         // the caller's offset
    var buf: nat             // how far the buffer pointer has moved
    var offset: nat
    var remaining: nat
    var done: seq<int>       // every run of the callback
    ghost const before: File

    constructor (srv: Server, all: seq<byte>, start: nat, ghost before: File)
      ensures this.srv == srv && this.all == all && this.start == start && this.before == before
      ensures buf == 0 && offset == start && remaining == |all| && done == []
    {
      this.srv, this.all, this.start, this.before := srv, all, start, before;
      buf, offset, remaining, done := 0, start, |all|, [];
    }

    /** A write of `cnt` bytes from here returned `status`: that many of them
        are stored, or with an error some prefix of them. */
    ghost predicate Returned(cnt: nat, status: int)
      reads this, srv
    {
      && done == [] && offset == start + buf && buf + remaining == |all| && cnt <= remaining && status <= cnt
      && (status >= 0 ==> srv.file == Store(before, start, all[..buf + status]))
      && (status < 0 ==> StoredFromHere())
    }

    /** What was sent before is stored, and a prefix of the rest. */
    ghost predicate StoredFromHere()
      reads this, srv
    {
      && buf <= |all|
      && PrefixStored(Store(before, start, all[..buf]), srv.file, start + buf, all[buf..])
    }

    /** Ready to send from here. */
    ghost predicate Continuing()
      reads this, srv
    {
      && done == [] && offset == start + buf && buf + remaining == |all| && remaining > 0
      && srv.file == Store(before, start, all[..buf])
    }

    /** The callback ran once: with the number of bytes stored, all of them
        unless the server stopped taking any, or with an error. */
    ghost predicate Finished(stalled: bool)
      reads this, srv
    {
      && |done| == 1
      && (done[0] >= 0 ==> done[0] <= |all| && srv.file == Store(before, start, all[..done[0]]))
      && (done[0] >= 0 && !stalled ==> done[0] == |all|)
      && (done[0] < 0 ==> StoredFromHere())
    }

    /** w_cb, up to the next write: whether there is one. */
    method WCb(cnt: nat, status: int) returns (more: bool)
      requires Returned(cnt, status)
      modifies this
      ensures more ==> Continuing() && remaining < old(remaining)
      ensures !more ==> Finished(status == 0)
      ensures !more && status > 0 ==> old(offset) + status == start + |all|
      ensures status < 0 ==> !more && done == [status]
      ensures !more && status >= 0 ==> done == [buf]
      ensures buf == old(buf) + if status > 0 then status else 0
    {
      if status < 0 {
        done := [status];
        return false;
      }
      var n := if status > remaining then remaining else status;
      buf := buf + n;
      offset := offset + n;
      remaining := remaining - n;
      if remaining == 0 || n == 0 {
        done := [|all| - remaining];
        return false;
      }
      return true;
    }

    /** The end of w_cb where the next write could not be sent. */
    method GiveUp()
      requires StoredFromHere()
      modifies this`done
      ensures done == [-12] && Finished(false)
    {
      done := [-ENOMEM];
    }

    /** The next write of at most `writemax` bytes. */
    method SendNext(fh: FileHandle, writemax: nat, updatePos: bool) returns (cnt: nat, sent: bool, status: int)
      requires Honest(srv.script) && Continuing() && writemax > 0
      modifies srv, fh
      ensures cnt == Min(remaining, writemax) > 0
      ensures if sent then Returned(cnt, status) && (status >= 0 ==> status == cnt)
              else StoredFromHere()
      ensures sent && status >= 0 && updatePos ==> fh.offset == offset + cnt
      ensures !(sent && status >= 0) ==> fh.offset == old(fh.offset)
      ensures !updatePos ==> fh.offset == old(fh.offset)
      ensures old(srv.made) <= srv.made
      ensures var made := srv.made[|old(srv.made)|..];
        if !sent then |made| == 1 && made[0].reply.status.NotSent?
        else
          && made != [] && !(|made| == 1 && made[0].reply.status.NotSent?)
          && if status < 0 then Ends(made, status, cnt) else AllTaken(made)
    {
      hide Store, Ends;
      cnt := if remaining > writemax then writemax else remaining;
      ghost var f := srv.file;
      var data := all[buf..buf + cnt];
      sent, status := Nfs3Pwrite(srv, fh, writemax, data, offset, updatePos);
      assert data[..cnt] == data && all[buf..][..cnt] == data;
      assert all[..buf] + data == all[..buf + cnt];
      if !sent {
        StoreNothing(srv.file, offset);
        assert all[buf..][..0] == [];
        assert srv.file == Store(f, offset, all[buf..][..0]);
      } else if status >= 0 {
        StoreSeq(before, start, all[..buf], data);
      } else {
        PrefixOfPrefix(f, srv.file, offset, all[buf..], cnt);
      }
    }
  }

  /** WRITEs for one more chunk after chunks that were taken. */
  lemma OneMoreChunk(made: seq<Made>, more: seq<Made>, status: int, n: nat, total: nat)
    requires AllTaken(made) && made != [] && n > 0 && total > 0 && more != []
    requires
      if |more| == 1 && more[0].reply.status.NotSent? then status == -12
      else if status < 0 then Ends(more, status, n)
      else AllTaken(more)
    ensures if status < 0 then Ends(made + more, status, total) else AllTaken(made + more)
  {
    var all, last := made + more, more[|more| - 1].reply;
    assert all[..|all| - 1] == made + more[..|more| - 1];
    assert |more| == 1 ==> more[..0] == [];
  }

  lemma OneChunk(made: seq<Made>, status: int, n: nat, total: nat)
    requires Ends(made, status, n) && n > 0 && total > 0 && status < 0
    ensures Ends(made, status, total)
  {
  }

  lemma AllEnd(made: seq<Made>, n: nat)
    requires AllTaken(made) && made != []
    ensures Ends(made, n, n)
  {
  }

  lemma Appended(a: seq<Made>, b: seq<Made>, c: seq<Made>)
    requires a <= b <= c
    ensures a <= c && c[|a|..] == b[|a|..] + c[|b|..]
  {
  }

  lemma NothingSent(made: seq<Made>, n: nat)
    requires |made| == 1 && made[0].reply.status.NotSent?
    ensures Ends(made, -1, n)
  {
  }

  /** nfs_pwrite over _nfs_pwrite_async: like write(2), whatever the size. It
      succeeds if the server takes something of every WRITE; otherwise the last reply
      decides the status. After an error the first `kept` bytes, in whole WRITEs, are
      stored, the file offset is behind them, and a prefix of the rest is stored. */
  method Pwrite(srv: Server, fh: FileHandle, writemax: nat, buf: seq<byte>, offset: nat, updatePos: bool)
    returns (status: int, ghost kept: nat)
    requires Honest(srv.script) && 0 < writemax
    modifies srv, fh
    ensures status >= 0 ==>
      && status == |buf| == kept && srv.file == Store(old(srv.file), offset, buf)
      && (updatePos ==> fh.offset == offset + |buf|)
    ensures status < 0 ==>
      && kept <= |buf|
      && PrefixStored(Store(old(srv.file), offset, buf[..kept]), srv.file, offset + kept, buf[kept..])
      && PrefixStored(old(srv.file), srv.file, offset, buf)
      && (updatePos ==> fh.offset == if kept == 0 then old(fh.offset) else offset + kept)
    ensures !updatePos ==> fh.offset == old(fh.offset)
    ensures old(srv.made) <= srv.made && Ends(srv.made[|old(srv.made)|..], status, |buf|)
    ensures var made := srv.made[|old(srv.made)|..];
      && (AllTaken(made) ==> status == |buf|)
      && (status >= 0 && buf != [] ==> AllTaken(made))
      && var last := made[|made| - 1].reply;
         && (last.status.NotSent? ==> status == if |made| == 1 then -1 else -12)
         && (last.status.RpcError? ==> status == -14)
         && (last.status.Cancelled? || last.status.TimedOut? ==> status == -4)
         && (last.status.Refused? ==> status == last.status.errno)
         && (last.status.Ok? && last.count == 0 && buf != [] ==> status == -14)
  {
    hide Store;
    assert buf[..|buf|] == buf && buf[..0] == [] && buf[0..] == buf;
    StoreNothing(srv.file, offset);
    if |buf| <= writemax {
      var sent;
      sent, status := Nfs3Pwrite(srv, fh, writemax, buf, offset, updatePos);
      kept := if sent && status >= 0 then |buf| else 0;
      if !sent {
        assert srv.file == Store(old(srv.file), offset, buf[..0]);
        return -1, 0;
      }
      return;
    }
    status, kept := PwriteSplit(srv, fh, writemax, buf, offset, updatePos);
    if status < 0 {
      PrefixThenPrefix(old(srv.file), Store(old(srv.file), offset, buf[..kept]), srv.file, offset, buf, kept);
    }
  }

  /** A request of more than one WRITE. */
  method PwriteSplit(srv: Server, fh: FileHandle, writemax: nat, buf: seq<byte>, offset: nat, updatePos: bool)
    returns (status: int, ghost kept: nat)
    requires Honest(srv.script) && 0 < writemax < |buf|
    modifies srv, fh
    ensures status >= 0 ==>
      && status == |buf| == kept && srv.file == Store(old(srv.file), offset, buf)
      && (updatePos ==> fh.offset == offset + |buf|)
    ensures status < 0 ==>
      && kept <= |buf|
      && PrefixStored(Store(old(srv.file), offset, buf[..kept]), srv.file, offset + kept, buf[kept..])
      && (updatePos ==> fh.offset == if kept == 0 then old(fh.offset) else offset + kept)
    ensures !updatePos ==> fh.offset == old(fh.offset)
    ensures old(srv.made) <= srv.made && Ends(srv.made[|old(srv.made)|..], status, |buf|)
    ensures status >= 0 ==> AllTaken(srv.made[|old(srv.made)|..])
  {
    hide Store, PrefixStored, AllTaken, Ends, Honest;
    StoreNothing(srv.file, offset);
    assert buf[..|buf|] == buf && buf[..0] == [];
    var rw := new RwData(srv, buf, offset, srv.file);
    var cnt, sent;
    cnt, sent, status := rw.SendNext(fh, writemax, updatePos);
    kept := 0;
    ghost var made := srv.made[|old(srv.made)|..];
    if !sent {
      NothingSent(made, |buf|);
      return -1, 0;
    }
    if status < 0 {
      OneChunk(made, status, cnt, |buf|);
    }
    var more := true;
    while more
      invariant kept == rw.buf && kept <= |buf|
      invariant more ==> rw.Returned(cnt, status) && (status >= 0 ==> status == cnt > 0)
      invariant old(srv.made) <= srv.made && made == srv.made[|old(srv.made)|..] && made != []
      invariant more ==> if status < 0 then Ends(made, status, |buf|) else AllTaken(made)
      invariant more && status >= 0 && updatePos ==> fh.offset == rw.offset + cnt
      invariant more && status < 0 && updatePos ==> fh.offset == if kept == 0 then old(fh.offset) else offset + kept
      invariant !updatePos ==> fh.offset == old(fh.offset)
      invariant !more ==> rw.Finished(false)
      invariant !more && rw.done[0] >= 0 ==> kept == |buf| && (updatePos ==> fh.offset == offset + |buf|)
      invariant !more && rw.done[0] < 0 && updatePos ==>
        fh.offset == if kept == 0 then old(fh.offset) else offset + kept
      invariant !more ==> Ends(made, rw.done[0], |buf|)
      invariant !more && rw.done[0] >= 0 ==> AllTaken(made)
      decreases more, rw.remaining
    {
      hide RwData.Returned, RwData.Continuing, RwData.StoredFromHere, RwData.Finished;
      more := rw.WCb(cnt, status);
      kept := rw.buf;
      if more {
        ghost var earlier := srv.made;
        cnt, sent, status := rw.SendNext(fh, writemax, updatePos);
        ghost var next := srv.made[|earlier|..];
        OneMoreChunk(made, next, if sent then status else -12, cnt, |buf|);
        Appended(old(srv.made), earlier, srv.made);
        made := made + next;
        if !sent {
          rw.GiveUp();
          more := false;
        }
      } else if status >= 0 {
        AllEnd(made, |buf|);
      }
    }
    return rw.done[0], kept;
  }

  // ----- layer 3: the JNI loop

  lemma NotTaken(made: seq<Made>, status: int, n: nat)
    requires Ends(made, status, n) && status <= 0 && n > 0
    ensures !AllTaken(made)
    ensures var r := made[|made| - 1].reply; !(r.status.Ok? && r.count > 0)
  {
  }

  /** nWrite: stores every byte of `buffer` at `position`, or raises; then some
      prefix is stored. It raises exactly if there is a WRITE of which the server
      did not take anything. */
  method NWrite(srv: Server, fh: FileHandle, writemax: nat, buffer: seq<byte>, position: nat) returns (raised: bool)
    requires Honest(srv.script) && 0 < writemax
    modifies srv, fh
    ensures !raised ==> srv.file == Store(old(srv.file), position, buffer)
    ensures raised ==> PrefixStored(old(srv.file), srv.file, position, buffer)
    ensures fh.offset == old(fh.offset)
    ensures old(srv.made) <= srv.made
    ensures raised <==>
      exists k :: |old(srv.made)| <= k < |srv.made|
                  && !(srv.made[k].reply.status.Ok? && srv.made[k].reply.count > 0)
  {
    hide Store;
    raised := false;
    var done := 0;
    assert buffer[..0] == [];
    StoreNothing(srv.file, position);
    while done < |buffer|
      invariant 0 <= done <= |buffer|
      invariant !raised && srv.file == Store(old(srv.file), position, buffer[..done])
      invariant fh.offset == old(fh.offset)
      invariant old(srv.made) <= srv.made && AllTaken(srv.made[|old(srv.made)|..])
    {
      ghost var f, earlier := srv.file, srv.made;
      var n;
      ghost var kept;
      n, kept := Pwrite(srv, fh, writemax, buffer[done..], position + done, false);
      ghost var more := srv.made[|earlier|..];
      assert srv.made[|old(srv.made)|..] == earlier[|old(srv.made)|..] + more;
      if n <= 0 {
        NotTaken(more, n, |buffer| - done);
        assert srv.made[|srv.made| - 1] == more[|more| - 1];
        if n < 0 {
          PrefixThenPrefix(old(srv.file), f, srv.file, position, buffer, done);
        }
        return true;
      }
      StoreSeq(old(srv.file), position, buffer[..done], buffer[done..]);
      assert buffer[..done] + buffer[done..] == buffer == buffer[..|buffer|];
      done := done + n;
    }
    assert buffer[..done] == buffer;
  }
}
