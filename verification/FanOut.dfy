/** The two fan-outs of mounting: one MOUNT request for each export nested below
    the mounted one, then one GETATTR for each nested mount found. Each counts
    the requests in flight and goes on when the last reply arrives. */
module FanOut {
  import opened Wrappers
  import opened Resolver
  import opened SList

  // ----- which exports are nested

  /** The test on ex_dir in nfs3_mount_3_cb. */
  predicate IsNested(exported: string, dir: string)
    requires exported != []
  {
    var len := |exported|;
    && exported <= dir
    && (dir[len - 1] == '/' || (len < |dir| && dir[len] == '/'))
  }

  /** The path at which a nested export is mounted. */
  function NestedPath(exported: string, dir: string): string
    requires exported != [] && IsNested(exported, dir)
  {
    var len := |exported|;
    dir[len - (if exported[len - 1] == '/' then 1 else 0)..]
  }

  /** The nested exports are those found at a path below the mounted one; the
      mounted export itself is among them if it is written with a final slash. */
  lemma NestedIff(exported: string, dir: string)
    requires exported != []
    ensures IsNested(exported, dir) <==>
      exported <= dir && WithoutSlash(exported) < dir && dir[|WithoutSlash(exported)|] == '/'
    ensures IsNested(exported, dir) ==>
      var path := NestedPath(exported, dir);
      dir == WithoutSlash(exported) + path && path != [] && path[0] == '/'
    ensures IsNested(exported, exported) <==> exported[|exported| - 1] == '/'
  {
    if exported <= dir {
      assert dir[|exported| - 1] == exported[|exported| - 1];
    }
  }

  // ----- the verdict on the replies

  /** What an export's MOUNT comes to, and where it would be mounted. */
  datatype Fate = Fate(path: string, reply: Reply<Handle>)

  /** Whether the last reply that was a cancellation or a timeout is a cancellation. */
  predicate Interrupted(replies: seq<Fate>) {
    replies != [] &&
    var rest, reply := replies[..|replies| - 1], replies[|replies| - 1].reply;
    reply.Cancelled? || (!reply.TimedOut? && Interrupted(rest))
  }

  /** The last error among the replies, 0 if there is none. */
  function LastError(replies: seq<Fate>): int {
    if replies == [] then 0
    else
      var rest, reply := replies[..|replies| - 1], replies[|replies| - 1].reply;
      match reply
      case RpcError => -EFAULT
      case Refused(errno) => errno
      case _ => LastError(rest)
  }

  /** The nested mounts the replies add, newest first. */
  function Added(replies: seq<Fate>): seq<(string, Handle)> {
    if replies == [] then []
    else
      var rest, last := replies[..|replies| - 1], replies[|replies| - 1];
      if last.reply.Answer? then [(last.path, last.reply.value)] + Added(rest) else Added(rest)
  }

  /** The mount goes on to the NFS server, or ends in the caller's callback. */
  datatype Outcome = GoOn | Callback(status: int)

  function Reconnect(connects: bool): Outcome {
    if connects then GoOn else Callback(-ENOMEM)
  }

  function Verdict(replies: seq<Fate>, connects: bool): Outcome {
    if Interrupted(replies) then Callback(-EINTR)
    else if LastError(replies) != 0 then Callback(LastError(replies))
    else Reconnect(connects)
  }

  ghost predicate ErrorsAreErrors(replies: seq<Fate>) {
    forall i :: 0 <= i < |replies| && replies[i].reply.Refused? ==> replies[i].reply.errno < 0
  }

  /** The i-th reply is a cancellation that no timeout follows. */
  predicate CancelledAt(replies: seq<Fate>, i: int) {
    && 0 <= i < |replies|
    && replies[i].reply.Cancelled?
    && forall j :: i < j < |replies| ==> !replies[j].reply.TimedOut?
  }

  lemma {:induction false} InterruptedSince(replies: seq<Fate>) returns (i: int)
    requires Interrupted(replies)
    ensures CancelledAt(replies, i)
  {
    i := |replies| - 1;
    if !replies[i].reply.Cancelled? {
      i := InterruptedSince(replies[..i]);
    }
  }

  lemma {:induction false} CancelledInterrupts(replies: seq<Fate>, i: int)
    requires CancelledAt(replies, i)
    ensures Interrupted(replies)
  {
    if i < |replies| - 1 {
      CancelledInterrupts(replies[..|replies| - 1], i);
    }
  }

  lemma InterruptedIff(replies: seq<Fate>)
    ensures Interrupted(replies) <==> exists i :: CancelledAt(replies, i)
  {
    if Interrupted(replies) {
      var i := InterruptedSince(replies);
    }
    if i :| CancelledAt(replies, i) {
      CancelledInterrupts(replies, i);
    }
  }

  lemma {:induction false} LastErrorIff(replies: seq<Fate>)
    requires ErrorsAreErrors(replies)
    ensures LastError(replies) <= 0
    ensures LastError(replies) != 0 <==>
      exists i :: 0 <= i < |replies| && (replies[i].reply.RpcError? || replies[i].reply.Refused?)
  {
    if replies != [] {
      var n := |replies| - 1;
      LastErrorIff(replies[..n]);
    }
  }

  /** The error reported is that of the last reply that is one. */
  lemma {:induction false} LastErrorAt(replies: seq<Fate>, i: nat)
    requires i < |replies| && (replies[i].reply.RpcError? || replies[i].reply.Refused?)
    requires forall j :: i < j < |replies| ==> !replies[j].reply.RpcError? && !replies[j].reply.Refused?
    ensures LastError(replies) == if replies[i].reply.RpcError? then -14 else replies[i].reply.errno
  {
    if i < |replies| - 1 {
      LastErrorAt(replies[..|replies| - 1], i);
    }
  }

  /** The last error among the replies, read off them. */
  predicate ErrorAt(replies: seq<Fate>, i: int, error: int) {
    && 0 <= i < |replies|
    && ((replies[i].reply.RpcError? && error == -14) || replies[i].reply == Refused(error))
    && forall j :: i < j < |replies| ==> !replies[j].reply.RpcError? && !replies[j].reply.Refused?
  }

  lemma {:induction false} LastErrorIs(replies: seq<Fate>) returns (i: int)
    requires ErrorsAreErrors(replies) && LastError(replies) != 0
    ensures ErrorAt(replies, i, LastError(replies))
  {
    i := |replies| - 1;
    if !replies[i].reply.RpcError? && !replies[i].reply.Refused? {
      i := LastErrorIs(replies[..i]);
    }
  }

  /** The whole verdict, from the replies: EINTR if a cancellation is followed by no
      timeout; else the last error; else the mount goes on, or ends for want of memory
      if the next connection cannot be started. */
  lemma VerdictIs(replies: seq<Fate>, connects: bool)
    requires ErrorsAreErrors(replies)
    ensures Verdict(replies, connects) == Callback(-4) || forall i :: !CancelledAt(replies, i)
    ensures (exists i :: CancelledAt(replies, i)) ==> Verdict(replies, connects) == Callback(-4)
    ensures forall i, e :: !(exists j :: CancelledAt(replies, j)) && ErrorAt(replies, i, e) ==>
      Verdict(replies, connects) == Callback(e)
    ensures !(exists j :: CancelledAt(replies, j)) && !(exists i, e :: ErrorAt(replies, i, e)) ==>
      Verdict(replies, connects) == if connects then GoOn else Callback(-12)
  {
    hide Interrupted, LastError, CancelledAt;
    InterruptedIff(replies);
    if LastError(replies) != 0 {
      var i := LastErrorIs(replies);
    }
    forall i, e | ErrorAt(replies, i, e)
      ensures LastError(replies) == e != 0
    {
      LastErrorAt(replies, i);
    }
  }

  function Answers(replies: seq<Fate>): nat {
    if replies == [] then 0 else (if replies[0].reply.Answer? then 1 else 0) + Answers(replies[1..])
  }

  lemma {:induction false} AnswersOfTwo(a: seq<Fate>, last: Fate)
    ensures Answers(a + [last]) == Answers(a) + if last.reply.Answer? then 1 else 0
  {
    if a == [] {
      assert a + [last] == [last] && [last][1..] == [];
    } else {
      AnswersOfTwo(a[1..], last);
      assert (a + [last])[1..] == a[1..] + [last];
    }
  }

  lemma AnswersAfter(replies: seq<Fate>, i: nat)
    requires i < |replies|
    ensures var n, last := |replies| - 1, replies[|replies| - 1];
      Answers(replies[i + 1..]) ==
      if i == n then 0 else Answers(replies[..n][i + 1..]) + if last.reply.Answer? then 1 else 0
  {
    var n, last := |replies| - 1, replies[|replies| - 1];
    if i < n {
      assert replies[i + 1..] == replies[..n][i + 1..] + [last];
      AnswersOfTwo(replies[..n][i + 1..], last);
    }
  }

  /** Every MOUNT that was answered is mounted, once, at its own path with its own
      handle, and nothing else is; the last one answered comes first. */
  lemma {:induction false} AddedIs(replies: seq<Fate>)
    ensures |Added(replies)| == Answers(replies)
    ensures forall i :: 0 <= i < |replies| && replies[i].reply.Answer? ==>
      var n := Answers(replies[i + 1..]);
      n < |Added(replies)| && Added(replies)[n] == (replies[i].path, replies[i].reply.value)
  {
    if replies != [] {
      var n, last := |replies| - 1, replies[|replies| - 1];
      var rest := replies[..n];
      assert replies == rest + [last];
      AddedIs(rest);
      AnswersOfTwo(rest, last);
      var here := if last.reply.Answer? then [(last.path, last.reply.value)] else [];
      assert Added(replies) == here + Added(rest);
      hide Added, Answers;
      forall i | 0 <= i < |replies| && replies[i].reply.Answer?
        ensures Answers(replies[i + 1..]) < |Added(replies)|
        ensures Added(replies)[Answers(replies[i + 1..])] == (replies[i].path, replies[i].reply.value)
      {
        AnswersAfter(replies, i);
      }
    }
  }

  /** Although failures below the mount are meant to cost only the nested mount,
      the whole mount goes on exactly if no MOUNT sent was refused or failed, and
      none was cancelled without a timeout after it. Timeouts cost nothing. */
  lemma MountGoesOnIff(replies: seq<Fate>)
    requires ErrorsAreErrors(replies)
    ensures Verdict(replies, true) == GoOn <==>
      forall i :: 0 <= i < |replies| ==>
        && !replies[i].reply.RpcError? && !replies[i].reply.Refused?
        && (replies[i].reply.Cancelled? ==> exists j :: i < j < |replies| && replies[j].reply.TimedOut?)
  {
    hide Interrupted, LastError;
    InterruptedIff(replies);
    LastErrorIff(replies);
    assert forall i :: 0 <= i < |replies| && replies[i].reply.Cancelled? ==>
      (CancelledAt(replies, i) <==> !exists j :: i < j < |replies| && replies[j].reply.TimedOut?);
  }

  /** A timeout cancels a cancellation: the order of the replies decides. */
  lemma OrderDecides(a: string, b: string)
    ensures var cancelled, late := Fate(a, Cancelled), Fate(b, TimedOut);
      && Verdict([late, cancelled], true) == Callback(-EINTR)
      && Verdict([cancelled, late], true) == GoOn
  {
    var cancelled, late := Fate(a, Cancelled), Fate(b, TimedOut);
    assert [cancelled, late][..1] == [cancelled];
    assert [late, cancelled][..1] == [late];
    assert [cancelled][..0] == [] && LastError([]) == 0;
    assert LastError([cancelled]) == 0;
  }

  /** Every order of the same replies gives the same verdict, up to which error
      is reported, as long as nothing timed out. */
  lemma OrderIsIrrelevant(these: seq<Fate>, those: seq<Fate>)
    requires multiset(these) == multiset(those) && ErrorsAreErrors(these)
    requires forall i :: 0 <= i < |these| ==> !these[i].reply.TimedOut?
    ensures Verdict(these, true) == GoOn <==> Verdict(those, true) == GoOn
  {
    forall i | 0 <= i < |those|
      ensures those[i] in these
    {
      assert those[i] in multiset(those);
    }
    forall i | 0 <= i < |these|
      ensures these[i] in those
    {
      assert these[i] in multiset(these);
    }
    MountGoesOnIff(these);
    MountGoesOnIff(those);
  }

  // ----- discovery

  class NestedMount {
    const path: string
    const fh: Handle
    var attr: Option<Attr>

    constructor (path: string, fh: Handle)
      ensures this.path == path && this.fh == fh && attr == None
    {
      this.path, this.fh, attr := path, fh, None;
    }
  }

  /** The paths and handles of a list of nested mounts. */
  ghost function Mounts(spine: seq<Node<NestedMount>>): (r: seq<(string, Handle)>)
    ensures |r| == |spine|
  {
    seq(|spine|, i requires 0 <= i < |spine| => (spine[i].item.path, spine[i].item.fh))
  }

  datatype Interruption = NoInterruption | Cancellation | Timeout

  /** struct mount_discovery_cb */
  class Discovery {
    var waitCount: nat
    var error: int
    var status: Interruption
    var freed: bool

    constructor ()
      ensures waitCount == 0 && error == 0 && status == NoInterruption && !freed
    {
      waitCount, error, status, freed := 0, 0, NoInterruption, false;
    }

    /** What the replies so far have left in it. */
    ghost predicate Records(replies: seq<Fate>)
      reads this`error, this`status, this`freed
    {
      && !freed
      && error == LastError(replies)
      && (status == Cancellation <==> Interrupted(replies))
    }

    /** The part of nfs3_mount_4_cb that a reply decides, up to `finished`. */
    method Note(fate: Fate, ghost replies: seq<Fate>) returns (found: NestedMount?)
      requires Records(replies)
      modifies this`error, this`status
      ensures Records(replies + [fate])
      ensures found != null <==> fate.reply.Answer?
      ensures found != null ==> fresh(found) && found.path == fate.path && found.fh == fate.reply.value
    {
      ghost var all := replies + [fate];
      assert all[..|all| - 1] == replies && all[|all| - 1] == fate;
      found := null;
      match fate.reply {
        case RpcError => error := -EFAULT;
        case Cancelled => status := Cancellation;
        case TimedOut => status := Timeout;
        case Refused(errno) => error := errno;
        case Answer(fh) => found := new NestedMount(fate.path, fh);
        case NotSent =>
      }
    }
  }

  /** The MOUNT requests that could be sent, in the order of the exports. */
  function Sent(exported: string, exports: seq<(string, Reply<Handle>)>): seq<Fate>
    requires exported != []
  {
    if exports == [] then []
    else
      var rest, (dir, reply) := exports[..|exports| - 1], exports[|exports| - 1];
      Sent(exported, rest) +
      if IsNested(exported, dir) && !reply.NotSent? then [Fate(NestedPath(exported, dir), reply)] else []
  }

  /** A MOUNT is sent for each export below the mounted one, found with its final
      slash or without, unless it cannot be; it asks for the path below it. */
  lemma {:induction false} SentIff(exported: string, exports: seq<(string, Reply<Handle>)>, f: Fate)
    requires exported != []
    ensures f in Sent(exported, exports) <==>
      exists k :: 0 <= k < |exports| && IsSent(exported, exports[k].0, exports[k].1, f)
    ensures |Sent(exported, exports)| == SentCount(exported, exports)
    decreases |exports|
  {
    if exports != [] {
      var n := |exports| - 1;
      var rest := exports[..n];
      SentIff(exported, rest, f);
      SentStep(exported, exports);
      hide Sent, IsSent, SentCount;
      if f in Sent(exported, rest) {
        var k :| 0 <= k < n && IsSent(exported, rest[k].0, rest[k].1, f);
        assert IsSent(exported, exports[k].0, exports[k].1, f);
      }
      if k :| 0 <= k < n && IsSent(exported, exports[k].0, exports[k].1, f) {
        assert IsSent(exported, rest[k].0, rest[k].1, f);
      }
    }
  }

  predicate IsSent(exported: string, dir: string, reply: Reply<Handle>, f: Fate) {
    var base := WithoutSlash(exported);
    && exported <= dir && base < dir && dir[|base|] == '/' && !reply.NotSent?
    && f == Fate(dir[|base|..], reply)
  }

  function SentCount(exported: string, exports: seq<(string, Reply<Handle>)>): nat {
    if exports == [] then 0
    else
      var (dir, reply) := exports[|exports| - 1];
      var base := WithoutSlash(exported);
      SentCount(exported, exports[..|exports| - 1]) +
      if exported <= dir && base < dir && dir[|base|] == '/' && !reply.NotSent? then 1 else 0
  }

  lemma SentStep(exported: string, exports: seq<(string, Reply<Handle>)>)
    requires exported != [] && exports != []
    ensures var n := |exports| - 1;
      && (forall f :: f in Sent(exported, exports) <==>
            f in Sent(exported, exports[..n]) || IsSent(exported, exports[n].0, exports[n].1, f))
      && |Sent(exported, exports)| - |Sent(exported, exports[..n])| ==
         SentCount(exported, exports) - SentCount(exported, exports[..n])
  {
    NestedIff(exported, exports[|exports| - 1].0);
  }

  lemma Taken(s: seq<Fate>, i: nat)
    requires i < |s|
    ensures multiset(s) == multiset(s[..i] + s[i + 1..]) + multiset([s[i]])
  {
    assert s == s[..i] + [s[i]] + s[i + 1..];
  }

  class Mounting {
    const nested: List<NestedMount>
    const connects: bool                       // whether the next connection can be started
    var md: Discovery?                         // shared by the requests in flight
    var inFlight: seq<Fate>
    var outcomes: seq<Outcome>                 // callbacks and continuations so far
    ghost var answered: seq<Fate>

    constructor (connects: bool)
      ensures nested.Valid() && nested.spine == [] && fresh(nested)
      ensures this.connects == connects && md == null && inFlight == [] && outcomes == [] && answered == []
    {
      nested := new List();
      this.connects := connects;
      md, inFlight, outcomes, answered := null, [], [], [];
    }

    /** What these replies mounted is what is mounted. */
    ghost predicate Mounted(replies: seq<Fate>)
      reads nested, nested.spine
    {
      nested.Valid() && Mounts(nested.spine) == Added(replies)
    }

    /** Requests in flight share one live counter that counts them, and nothing
        was called yet; or the mount went on, once. */
    ghost predicate Valid()
      reads this, nested, nested.spine, md
    {
      && Mounted(answered)
      && (inFlight != [] ==> md != null && md.waitCount == |inFlight| && md.Records(answered) && outcomes == [])
      && (inFlight == [] ==> outcomes == [Verdict(answered, connects)])
    }

    /** nfs3_mount_3_cb, on the exports of the server; each comes with the fate of
        the MOUNT that is sent for it. */
    method Discover(exported: string, exports: seq<(string, Reply<Handle>)>)
      requires nested.Valid() && nested.spine == []
      requires md == null && inFlight == [] && outcomes == [] && answered == []
      modifies this
      ensures answered == [] && (md == null || fresh(md))
      ensures if exported == [] then outcomes == [Callback(-14)] && inFlight == []
        else Valid() && inFlight == Sent(exported, exports)
    {
      if exported == [] {
        outcomes := outcomes + [Callback(-EFAULT)];
        return;
      }
      var k := 0;
      while k < |exports|
        modifies this`md, this`inFlight
        invariant 0 <= k <= |exports|
        invariant inFlight == Sent(exported, exports[..k])
        invariant Issuing() && (md == null || fresh(md))
      {
        assert exports[..k + 1][..k] == exports[..k];
        hide Issuing, IsNested, NestedPath;
        Consider(exported, exports[k].0, exports[k].1);
        k := k + 1;
      }
      assert exports[..k] == exports;
      if md != null {
        return;
      }
      outcomes := outcomes + [Reconnect(connects)];
    }

    /** While requests are being sent: the counter exists exactly if one is in
        flight. */
    ghost predicate Issuing()
      reads this`md, this`inFlight, md
    {
      if md == null then inFlight == [] else inFlight != [] && md.waitCount == |inFlight| && md.Records([])
    }

    /** One export. */
    method Consider(exported: string, dir: string, reply: Reply<Handle>)
      requires exported != [] && Issuing()
      modifies this`md, this`inFlight, md
      ensures Issuing() && (md == null || md == old(md) || fresh(md))
      ensures inFlight == old(inFlight) +
        if IsNested(exported, dir) && !reply.NotSent? then [Fate(NestedPath(exported, dir), reply)] else []
    {
      if !IsNested(exported, dir) {
        return;
      }
      if md == null {
        md := new Discovery();
      }
      if reply.NotSent? {
        if md.waitCount == 0 {
          md.freed := true;
          md := null;
        }
        return;
      }
      inFlight := inFlight + [Fate(NestedPath(exported, dir), reply)];
      md.waitCount := md.waitCount + 1;
    }

    /** nfs3_mount_4_cb, for the reply to any request in flight. */
    method MountReply(i: nat)
      requires Valid() && i < |inFlight|
      modifies this`inFlight, this`outcomes, this`answered, md, nested
      ensures Valid() && answered == old(answered) + [old(inFlight[i])]
      ensures inFlight == old(inFlight[..i] + inFlight[i + 1..])
      ensures inFlight == [] ==> md.freed
    {
      hide Verdict, Mounted, Discovery.Records;
      var fate := inFlight[i];
      inFlight := inFlight[..i] + inFlight[i + 1..];
      Record(fate);
      md.waitCount := md.waitCount - 1;
      if md.waitCount > 0 {
        return;
      }
      Conclude();
    }

    /** The part of nfs3_mount_4_cb before `finished`. */
    method Record(fate: Fate)
      requires md != null && md.Records(answered) && Mounted(answered)
      modifies this`answered, md`error, md`status, nested
      ensures answered == old(answered) + [fate]
      ensures md.Records(answered) && Mounted(answered)
    {
      ghost var all := answered + [fate];
      assert all[..|all| - 1] == answered && all[|all| - 1] == fate;
      var found := md.Note(fate, answered);
      if found != null {
        PutMount(found);
      }
      answered := all;
    }

    /** LIBNFS_LIST_ADD of a new mount */
    method PutMount(found: NestedMount)
      requires nested.Valid()
      modifies nested
      ensures nested.Valid()
      ensures Mounts(nested.spine) == [(found.path, found.fh)] + Mounts(old(nested.spine))
      ensures nested.spine != [] && fresh(nested.spine[0]) && nested.spine[1..] == old(nested.spine)
    {
      var mnt := new Node<NestedMount>(found);
      nested.Add(mnt);
    }

    /** The end of nfs3_mount_4_cb, when nothing is in flight. */
    method Conclude()
      requires md != null && md.Records(answered)
      modifies this`outcomes, md`freed
      ensures outcomes == old(outcomes) + [Verdict(answered, connects)]
      ensures md.freed
    {
      if md.status == Cancellation {
        outcomes := outcomes + [Callback(-EINTR)];
      } else if md.error != 0 {
        outcomes := outcomes + [Callback(md.error)];
      } else {
        outcomes := outcomes + [Reconnect(connects)];
      }
      md.freed := true;
    }

    /** Discovery from the list of exports to the last reply, the replies coming
        in any order: exactly one callback or continuation, and it is the verdict
        on the replies; the answered ones are mounted. An empty export is an error. */
    method Run(exported: string, exports: seq<(string, Reply<Handle>)>) returns (ghost order: seq<Fate>)
      requires nested.Valid() && nested.spine == []
      requires md == null && inFlight == [] && outcomes == [] && answered == []
      modifies this, nested
      ensures exported == [] ==> outcomes == [Callback(-14)] && order == []
      ensures exported != [] ==>
        multiset(order) == multiset(Sent(exported, exports)) && outcomes == [Verdict(order, connects)]
      ensures nested.Valid() && Mounts(nested.spine) == Added(order)
      ensures |nested.spine| == Answers(order)
      ensures forall i :: 0 <= i < |order| && order[i].reply.Answer? ==>
        var n := Answers(order[i + 1..]);
        && n < |nested.spine| && nested.spine[n].item.path == order[i].path
        && nested.spine[n].item.fh == order[i].reply.value
      ensures order != [] ==> md != null && md.freed
    {
      Discover(exported, exports);
      order := [];
      if exported == [] {
        return;
      }
      hide Answers, Verdict, Added, Sent;
      Drain();
      order := answered;
      AddedIs(order);
      assert forall n :: 0 <= n < |nested.spine| ==>
        Mounts(nested.spine)[n] == (nested.spine[n].item.path, nested.spine[n].item.fh);
    }

    /** The replies, in any order, until none is in flight. */
    method Drain()
      requires Valid() && answered == []
      modifies this`inFlight, this`outcomes, this`answered, md, nested
      ensures Valid() && inFlight == []
      ensures multiset(answered) == multiset(old(inFlight))
      ensures answered != [] ==> md != null && md.freed
    {
      hide Verdict, Mounted, Discovery.Records;
      ghost var sent := multiset(inFlight);
      while inFlight != []
        modifies this`inFlight, this`outcomes, this`answered, md, nested
        invariant Valid() && multiset(answered) + multiset(inFlight) == sent
        invariant inFlight == [] && answered != [] ==> md != null && md.freed
        decreases |inFlight|
      {
        var i: nat :| i < |inFlight|;
        Taken(inFlight, i);
        MountReply(i);
      }
    }
  }

  // ----- the attributes of the nested mounts

  /** struct mount_attr_cb */
  class AttrCounter {
    var waitCount: nat
    var freed: bool

    constructor ()
      ensures waitCount == 0 && !freed
    {
      waitCount, freed := 0, false;
    }
  }

  /** A GETATTR in flight stands for the mount it is for, here by its number. */
  predicate AllDifferent(s: seq<nat>) {
    forall i, j :: 0 <= i < j < |s| ==> s[i] != s[j]
  }

  lemma TakenNumber(s: seq<nat>, i: nat)
    requires i < |s| && AllDifferent(s)
    ensures AllDifferent(s[..i] + s[i + 1..])
    ensures forall k :: k in s[..i] + s[i + 1..] <==> k in s && k != s[i]
  {
    var r := s[..i] + s[i + 1..];
    assert forall j :: 0 <= j < |r| ==> r[j] == s[if j < i then j else j + 1];
    forall k | k in s && k != s[i]
      ensures k in r
    {
      var j :| 0 <= j < |s| && s[j] == k;
      assert r[if j < i then j else j - 1] == k;
    }
  }

  function Answered(reply: Reply<Attr>): Option<Attr> {
    if reply.Answer? then Some(reply.value) else None
  }

  class AttrFetch {
    const mounts: seq<NestedMount>             // nfsi->nested_mounts
    const fates: seq<Reply<Attr>>              // of the GETATTR of each
    var ma: AttrCounter?
    var inFlight: seq<nat>
    var outcomes: seq<Outcome>

    constructor (mounts: seq<NestedMount>, fates: seq<Reply<Attr>>)
      requires |fates| == |mounts|
      ensures this.mounts == mounts && this.fates == fates
      ensures ma == null && inFlight == [] && outcomes == []
    {
      this.mounts, this.fates := mounts, fates;
      ma, inFlight, outcomes := null, [], [];
    }

    ghost predicate Valid()
      reads this, ma
    {
      && |fates| == |mounts|
      && AllDifferent(inFlight)
      && (forall j :: 0 <= j < |inFlight| ==> inFlight[j] < |mounts|)
      && (inFlight != [] ==> ma != null && ma.waitCount == |inFlight| && !ma.freed && outcomes == [])
      && (inFlight == [] ==> outcomes == [Callback(0)] && (ma != null ==> ma.freed))
    }

    /** nfs3_mount_7_cb, from where the mount itself has succeeded */
    method Issue()
      requires |fates| == |mounts| && ma == null && inFlight == [] && outcomes == []
      modifies this
      ensures Valid()
      ensures forall k: nat :: k in inFlight <==> k < |mounts| && !fates[k].NotSent?
      ensures ma == null || fresh(ma)
    {
      if mounts != [] {
        ma := new AttrCounter();
        var k: nat := 0;
        while k < |mounts|
          modifies this`inFlight, ma
          invariant 0 <= k <= |mounts| && ma.waitCount == |inFlight| && !ma.freed
          invariant AllDifferent(inFlight)
          invariant forall j :: 0 <= j < |inFlight| ==> inFlight[j] < k
          invariant forall j: nat :: j in inFlight <==> j < k && !fates[j].NotSent?
        {
          if !fates[k].NotSent? {
            inFlight := inFlight + [k];
            ma.waitCount := ma.waitCount + 1;
          }
          k := k + 1;
        }
      }
      if ma != null && ma.waitCount != 0 {
        return;
      }
      if ma != null {
        ma.freed := true;
      }
      outcomes := outcomes + [Callback(0)];
    }

    /** nfs3_mount_8_cb */
    method AttrReply(i: nat)
      requires Valid() && i < |inFlight|
      modifies this`inFlight, this`outcomes, ma, mounts[inFlight[i]]
      ensures Valid() && inFlight == old(inFlight[..i] + inFlight[i + 1..])
      ensures var k := old(inFlight[i]);
        mounts[k].attr == if fates[k].Answer? then Some(fates[k].value) else old(mounts[k].attr)
    {
      TakenNumber(inFlight, i);
      var k := inFlight[i];
      inFlight := inFlight[..i] + inFlight[i + 1..];
      if fates[k].Answer? {
        mounts[k].attr := Some(fates[k].value);
      }
      ma.waitCount := ma.waitCount - 1;
      if ma.waitCount > 0 {
        return;
      }
      ma.freed := true;
      outcomes := outcomes + [Callback(0)];
    }

    /** From the first GETATTR to the last reply, in any order: the caller is
        called back once, with success whatever failed, and a mount has
        attributes afterwards exactly if its own GETATTR was answered. */
    method Run()
      requires |fates| == |mounts| && ma == null && inFlight == [] && outcomes == []
      requires forall i, j :: 0 <= i < j < |mounts| ==> mounts[i] != mounts[j]
      requires forall k :: 0 <= k < |mounts| ==> mounts[k].attr == None
      modifies this, mounts
      ensures outcomes == [Callback(0)] && inFlight == []
      ensures forall k: nat :: k < |mounts| ==>
        mounts[k].attr == if fates[k].Answer? then Some(fates[k].value) else None
      ensures ma != null ==> ma.freed
    {
      Issue();
      while inFlight != []
        modifies this`inFlight, this`outcomes, ma, mounts
        invariant Valid() && (ma == null || fresh(ma))
        invariant forall k: nat :: k < |mounts| ==>
          mounts[k].attr == if k in inFlight then None else Answered(fates[k])
        decreases |inFlight|
      {
        var i: nat :| i < |inFlight|;
        TakenNumber(inFlight, i);
        AttrReply(i);
      }
    }
  }
}
