/** Opening a directory as the client does it: the callbacks of READDIRPLUS and
    READDIR push entries onto a linked list, and a LOOKUP for each entry left
    without attributes, all in flight together, fills them in. */
module OpenDir {
  import opened Bytes
  import opened Readdir
  import FanOut

  /** struct nfsdirent */
  class Dirent {
    const name: string
    const inode: nat
    var attr: Attr
    var next: Dirent?

    constructor (item: Item)
      ensures name == item.name && inode == item.inode && attr == item.attr && next == null
    {
      name, inode, attr, next := item.name, item.inode, item.attr, null;
    }
  }

  ghost predicate Chained(spine: seq<Dirent>)
    reads spine
  {
    && (forall i, j :: 0 <= i < j < |spine| ==> spine[i] != spine[j])
    && forall i {:trigger spine[i].next} :: 0 <= i < |spine| ==> spine[i].next == NextOf(spine, i)
  }

  ghost function NextOf(spine: seq<Dirent>, i: nat): Dirent? {
    if i + 1 < |spine| then spine[i + 1] else null
  }

  ghost function ItemsOf(spine: seq<Dirent>): (r: seq<Item>)
    reads spine
    ensures |r| == |spine|
    ensures forall i :: 0 <= i < |r| ==> r[i] == Item(spine[i].name, spine[i].inode, spine[i].attr)
  {
    seq(|spine|, i requires 0 <= i < |spine| reads spine => Item(spine[i].name, spine[i].inode, spine[i].attr))
  }

  /** What becomes of the LOOKUP of an entry. */
  datatype LookupReply =
    | LookupNotSent
    | LookupError
    | LookupCancelled
    | LookupTimedOut
    | LookupRefused
    | Found(hasAttr: bool, attr: Attr)

  /** The entry once its LOOKUP, if it needed one, is over. */
  function Resolved(item: Item, reply: LookupReply): Item {
    if item.attr.kind == 0 && reply.Found? && reply.hasAttr then item.(attr := reply.attr) else item
  }

  /** A LOOKUP that makes the whole opening fail; a refused one does not. */
  predicate Spoils(item: Item, reply: LookupReply) {
    item.attr.kind == 0 && (reply.LookupError? || reply.LookupCancelled? || reply.LookupTimedOut?)
  }

  predicate WasLost(reply: LookupReply) {
    reply == LookupError || reply == LookupCancelled || reply == LookupTimedOut
  }

  /** Whether the LOOKUP of some entry outside `inFlight` spoils the opening. */
  ghost predicate SpoiltOutside(listed: seq<Item>, lookups: nat -> LookupReply, inFlight: seq<nat>) {
    exists k: nat :: k < |listed| && k !in inFlight && Spoils(listed[k], lookups(k))
  }

  lemma SpoiltAfter(listed: seq<Item>, lookups: nat -> LookupReply, inFlight: seq<nat>, i: nat)
    requires i < |inFlight| && FanOut.AllDifferent(inFlight) && inFlight[i] < |listed|
    ensures SpoiltOutside(listed, lookups, inFlight[..i] + inFlight[i + 1..]) <==>
      SpoiltOutside(listed, lookups, inFlight) || Spoils(listed[inFlight[i]], lookups(inFlight[i]))
  {
    FanOut.TakenNumber(inFlight, i);
  }

  /** The verdict once every LOOKUP sent is over: success unless one of them was
      lost, cancelled or late. */
  ghost function Verdict(listed: seq<Item>, lookups: nat -> LookupReply): Outcome {
    if SpoiltOutside(listed, lookups, []) then Failed(-ENOMEM) else Listed
  }

  /** struct rdpe_cb_data */
  class Counter {
    var getattrcount: nat
    var failed: bool
    var freed: bool

    constructor ()
      ensures getattrcount == 0 && !failed && !freed
    {
      getattrcount, failed, freed := 0, false, false;
    }
  }

  class OpenDir {
    const mounts: Mounts
    const lookups: nat -> LookupReply          // by the entry's place in the listing
    var entries: Dirent?
    var lastCookie: uint64
    var mtime: Time                            // of the directory, nfsdir->attr
    var next: Next                             // the request in flight, or how the scan ended
    var log: seq<Request>
    var rdpe: Counter?
    var inFlight: seq<nat>                     // the entries whose LOOKUP is in flight, by place
    var dirents: seq<Dirent>                   // and by pointer
    var outcomes: seq<Outcome>                 // the caller's callbacks
    ghost var spine: seq<Dirent>
    ghost var listed: seq<Item>                // the entries as the scan left them

    constructor (mounts: Mounts, lookups: nat -> LookupReply)
      ensures this.mounts == mounts && this.lookups == lookups
      ensures Linked() && spine == [] && Scanned() == Start
      ensures log == [] && outcomes == [] && inFlight == [] && dirents == [] && rdpe == null
    {
      this.mounts, this.lookups := mounts, lookups;
      entries, lastCookie, mtime, next := null, 0, NoTime, Ask(ReadDirPlus(0, 0));
      log, rdpe, inFlight, dirents, outcomes := [], null, [], [], [];
      spine, listed := [], [];
    }

    ghost predicate Linked()
      reads this`entries, this`spine, spine
    {
      Chained(spine) && entries == if spine == [] then null else spine[0]
    }

    ghost function Scanned(): Scan
      reads this`spine, this`lastCookie, this`mtime, this`next, spine
    {
      Scan(ItemsOf(spine), lastCookie, mtime, next)
    }

    // ----- the scan

    method Put(item: Item)
      requires Linked()
      modifies this`entries, this`spine
      ensures Linked() && ItemsOf(spine) == [item] + old(ItemsOf(spine))
      ensures forall d :: d in spine ==> d in old(spine) || fresh(d)
    {
      hide Linked;
      var nfsdirent := Link(item);
      assert ItemsOf(spine) == [item] + old(ItemsOf(spine));
    }

    method Link(item: Item) returns (nfsdirent: Dirent)
      requires Linked()
      modifies this`entries, this`spine
      ensures Linked() && spine == [nfsdirent] + old(spine) && fresh(nfsdirent)
      ensures nfsdirent.name == item.name && nfsdirent.inode == item.inode && nfsdirent.attr == item.attr
    {
      nfsdirent := new Dirent(item);
      nfsdirent.next := entries;
      entries := nfsdirent;
      spine := [nfsdirent] + spine;
      forall i | 0 <= i < |spine|
        ensures spine[i].next == NextOf(spine, i)
      {
        if i > 0 {
          assert spine[i] == old(spine)[i - 1];
          assert old(spine[i - 1].next) == NextOf(old(spine), i - 1);
        }
      }
    }

    /** The attributes of an entry that came without any. */
    method NestedAttr(name: string) returns (attr: Attr)
      ensures attr == FirstMount(mounts, name, 0)
    {
      var i := 0;
      while i < |mounts.mounts|
        invariant 0 <= i <= |mounts.mounts|
        invariant FirstMount(mounts, name, 0) == FirstMount(mounts, name, i)
      {
        if MountMatches(mounts.savedPath, mounts.mounts[i].0, name) {
          return mounts.mounts[i].1;
        }
        i := i + 1;
      }
      return NoAttr;
    }

    method PutEntry(plus: bool, entry: Entry)
      requires Linked()
      modifies this`entries, this`spine
      ensures Linked() && ItemsOf(spine) == [ItemOf(mounts, plus, entry)] + old(ItemsOf(spine))
      ensures forall d :: d in spine ==> d in old(spine) || fresh(d)
    {
      var attr := NoAttr;
      if plus {
        if entry.hasAttr {
          attr := entry.attr;
        } else {
          attr := NestedAttr(entry.name);
        }
      }
      Put(Item(entry.name, entry.fileid, attr));
    }

    /** The loop over the entries of a page, with the cookie it ends on. */
    method PutAll(plus: bool, page: seq<Entry>) returns (cookie: uint64)
      requires Linked()
      modifies this`entries, this`spine
      ensures Linked() && ItemsOf(spine) == Prepend(mounts, plus, page, old(ItemsOf(spine)))
      ensures cookie == LastCookie(page, lastCookie)
      ensures forall d :: d in spine ==> d in old(spine) || fresh(d)
    {
      cookie := lastCookie;
      var i := 0;
      while i < |page|
        modifies this`entries, this`spine
        invariant 0 <= i <= |page| && Linked()
        invariant Prepend(mounts, plus, page[i..], ItemsOf(spine)) == Prepend(mounts, plus, page, old(ItemsOf(spine)))
        invariant cookie == LastCookie(page[..i], lastCookie)
        invariant forall d :: d in spine ==> d in old(spine) || fresh(d)
      {
        hide Linked, ItemsOf, ItemOf;
        PutEntry(plus, page[i]);
        assert page[i..][0] == page[i] && page[i..][1..] == page[i + 1..];
        cookie := page[i].cookie;
        i := i + 1;
      }
      assert page[..i] == page;
    }

    method EndScan(outcome: Outcome)
      modifies this`next
      ensures next == Done(outcome)
    {
      next := Done(outcome);
    }

    /** nfs3_opendir_cb, the reply to READDIRPLUS */
    method PlusReply(reply: Reply)
      requires Linked() && next.Ask? && next.request.ReadDirPlus?
      modifies this`entries, this`spine, this`lastCookie, this`mtime, this`next
      ensures Linked() && Scanned() == Step(mounts, old(Scanned()), reply)
      ensures forall d :: d in spine ==> d in old(spine) || fresh(d)
    {
      hide Linked, ItemsOf, Prepend, LastCookie;
      match reply {
        case NotSent => EndScan(Failed(-ENOMEM));
        case RpcError => EndScan(Failed(-EFAULT));
        case Cancelled => EndScan(Failed(-EINTR));
        case TimedOut => EndScan(Failed(-EINTR));
        case NotSupported => next := Ask(ReadDir(lastCookie, 0));
        case Refused(errno) => EndScan(Failed(errno));
        case Answer(page) =>
          var cookie := PutAll(true, page.entries);
          if page.eof {
            if page.mtime.Some? {
              mtime := page.mtime.value;
            }
            EndScan(Listed);
          } else if cookie == lastCookie {
            EndScan(Failed(-EIO));
          } else {
            lastCookie := cookie;
            next := Ask(ReadDirPlus(cookie, page.verf));
          }
      }
    }

    /** nfs3_opendir_2_cb, the reply to READDIR */
    method PlainReply(reply: Reply)
      requires Linked() && next.Ask? && next.request.ReadDir?
      modifies this`entries, this`spine, this`lastCookie, this`mtime, this`next
      ensures Linked() && Scanned() == Step(mounts, old(Scanned()), reply)
      ensures forall d :: d in spine ==> d in old(spine) || fresh(d)
    {
      hide Linked, ItemsOf, Prepend, LastCookie;
      match reply {
        case NotSent => EndScan(Failed(-ENOMEM));
        case RpcError => EndScan(Failed(-EFAULT));
        case Cancelled => EndScan(Failed(-EINTR));
        case TimedOut => EndScan(Failed(-EINTR));
        case NotSupported => EndScan(Failed(-EINVAL));
        case Refused(errno) => EndScan(Failed(errno));
        case Answer(page) =>
          var cookie := PutAll(false, page.entries);
          if page.eof {
            if page.mtime.Some? {
              mtime := page.mtime.value;
            }
            EndScan(Listed);
          } else if cookie == lastCookie {
            EndScan(Failed(-EIO));
          } else {
            lastCookie := cookie;
            next := Ask(ReadDir(cookie, page.verf));
          }
      }
    }

    method Receive(reply: Reply)
      requires Linked() && next.Ask?
      modifies this`entries, this`spine, this`lastCookie, this`mtime, this`next
      ensures Linked() && Scanned() == Step(mounts, old(Scanned()), reply)
      ensures forall d :: d in spine ==> d in old(spine) || fresh(d)
    {
      if next.request.ReadDirPlus? {
        PlusReply(reply);
      } else {
        PlainReply(reply);
      }
    }

    /** The scan, for as many replies as there are rounds. */
    method ScanDir(srv: Server, rounds: nat)
      requires Linked() && spine == [] && log == []
      modifies this`entries, this`spine, this`lastCookie, this`mtime, this`next, this`log
      ensures Linked() && Scanned() == Run(mounts, srv, old(Scanned()), 0, rounds)
      ensures log == Log(mounts, srv, old(Scanned()), 0, rounds)
      ensures forall d :: d in spine ==> fresh(d)
    {
      hide Step, Run, Log, Linked, ItemsOf;
      ghost var start := Scanned();
      var k: nat := 0;
      while k < rounds && next.Ask?
        modifies this`entries, this`spine, this`lastCookie, this`mtime, this`next, this`log
        invariant k <= rounds && Linked()
        invariant Run(mounts, srv, Scanned(), k, rounds - k) == Run(mounts, srv, start, 0, rounds)
        invariant log + Log(mounts, srv, Scanned(), k, rounds - k) == Log(mounts, srv, start, 0, rounds)
        invariant forall d :: d in spine ==> fresh(d)
        decreases rounds - k
      {
        RunOn(mounts, srv, Scanned(), k, rounds - k);
        var reply := srv(k, next.request);
        log := log + [next.request];
        Receive(reply);
        k := k + 1;
      }
      RunOff(mounts, srv, Scanned(), k, rounds - k);
    }

    // ----- the missing attributes

    /** Every entry is as the scan left it while its LOOKUP is in flight, and
        resolved afterwards. */
    ghost predicate Resolving()
      reads this`spine, this`listed, this`inFlight, spine
    {
      && |listed| == |spine|
      && forall k: nat :: k < |spine| ==>
        var item := if k in inFlight then listed[k] else Resolved(listed[k], lookups(k));
        spine[k].name == item.name && spine[k].inode == item.inode && spine[k].attr == item.attr
    }

    /** The LOOKUPs in flight are for different entries that lack attributes. */
    ghost predicate Placed()
      reads this`inFlight, this`dirents, this`spine, this`listed
    {
      && FanOut.AllDifferent(inFlight)
      && |dirents| == |inFlight| && |spine| == |listed|
      && forall i :: 0 <= i < |inFlight| ==>
        inFlight[i] < |spine| && dirents[i] == spine[inFlight[i]] && listed[inFlight[i]].attr.kind == 0
    }

    /** They share a live counter, which also records whether one has failed. */
    ghost predicate Counted()
      reads this`inFlight, this`listed, this`rdpe, rdpe
    {
      inFlight != [] ==>
        && rdpe != null && rdpe.getattrcount == |inFlight| && !rdpe.freed
        && rdpe.failed == SpoiltOutside(listed, lookups, inFlight)
    }

    /** One callback, when nothing is in flight, and none before. */
    ghost predicate CalledBack()
      reads this`inFlight, this`listed, this`outcomes
    {
      outcomes == if inFlight == [] then [Verdict(listed, lookups)] else []
    }

    /** lookup_missing_attributes */
    method LookUpMissing() returns (count: nat)
      requires Linked() && rdpe == null && inFlight == [] && dirents == []
      modifies this`rdpe, this`inFlight, this`dirents, this`listed
      ensures listed == ItemsOf(spine) && Resolving() && Placed() && Counted()
      ensures count == |inFlight| && (rdpe == null || fresh(rdpe))
      ensures forall j: nat :: j in inFlight <==>
        j < |listed| && listed[j].attr.kind == 0 && !lookups(j).LookupNotSent?
    {
      listed := ItemsOf(spine);
      var k: nat, nfsdirent := 0, entries;
      while nfsdirent != null
        modifies this`rdpe, this`inFlight, this`dirents
        invariant k <= |spine| && nfsdirent == if k < |spine| then spine[k] else null
        invariant Sending() && (rdpe == null || fresh(rdpe))
        invariant Placed() && SentUpTo(k)
        decreases |spine| - k
      {
        hide Placed, SentUpTo, Sending;
        assert nfsdirent.next == NextOf(spine, k);
        Visit(k, nfsdirent);
        nfsdirent := nfsdirent.next;
        k := k + 1;
      }
      count := if rdpe != null then rdpe.getattrcount else 0;
    }

    /** The entries before the n-th that lack attributes have their LOOKUP in
        flight if it could be sent. */
    ghost predicate SentUpTo(n: nat)
      reads this`inFlight, this`listed
    {
      && n <= |listed|
      && (forall i :: 0 <= i < |inFlight| ==> inFlight[i] < n)
      && forall j: nat :: j in inFlight <==> j < n && listed[j].attr.kind == 0 && !lookups(j).LookupNotSent?
    }

    method Visit(k: nat, nfsdirent: Dirent)
      requires Sending() && Placed() && SentUpTo(k)
      requires k < |listed| && nfsdirent == spine[k] && nfsdirent.attr == listed[k].attr
      modifies this`rdpe, this`inFlight, this`dirents, rdpe
      ensures Sending() && Placed() && SentUpTo(k + 1)
      ensures rdpe == old(rdpe) || fresh(rdpe)
    {
      if nfsdirent.attr.kind == 0 {
        SendLookup(k, nfsdirent);
      }
    }

    /** While the LOOKUPs are being sent: the counter exists once it is needed. */
    ghost predicate Sending()
      reads this`inFlight, this`rdpe, rdpe
    {
      if rdpe == null then inFlight == []
      else rdpe.getattrcount == |inFlight| && !rdpe.freed && !rdpe.failed
    }

    method SendLookup(k: nat, nfsdirent: Dirent)
      requires Sending()
      modifies this`rdpe, this`inFlight, this`dirents, rdpe
      ensures Sending() && (rdpe == old(rdpe) || fresh(rdpe))
      ensures inFlight == old(inFlight) + if lookups(k).LookupNotSent? then [] else [k]
      ensures dirents == old(dirents) + if lookups(k).LookupNotSent? then [] else [nfsdirent]
    {
      if rdpe == null {
        rdpe := new Counter();
      }
      if lookups(k).LookupNotSent? {
        return;
      }
      inFlight, dirents := inFlight + [k], dirents + [nfsdirent];
      rdpe.getattrcount := rdpe.getattrcount + 1;
    }

    /** nfs3_opendir_3_cb, for the reply to any LOOKUP in flight */
    method LookupDone(i: nat, nfsdirent: Dirent)
      requires Linked() && Resolving() && Placed() && Counted() && CalledBack()
      requires i < |inFlight| && nfsdirent == dirents[i]
      modifies this`inFlight, this`dirents, this`outcomes, rdpe, nfsdirent`attr
      ensures Linked() && Resolving() && Placed() && Counted() && CalledBack()
      ensures inFlight == old(inFlight[..i] + inFlight[i + 1..])
      ensures inFlight == [] ==> rdpe.freed
      ensures var reply := lookups(old(inFlight[i]));
        nfsdirent.attr == if reply.Found? && reply.hasAttr then reply.attr else old(nfsdirent.attr)
      ensures rdpe != null && rdpe.failed == (old(rdpe != null && rdpe.failed) || WasLost(lookups(old(inFlight[i]))))
      ensures inFlight == [] ==> outcomes == [if rdpe != null && rdpe.failed then Failed(-12) else Listed]
    {
      hide Linked, Resolving, WasLost;
      var k := inFlight[i];
      SpoiltAfter(listed, lookups, inFlight, i);
      FillIn(i, nfsdirent);
      CountDown(lookups(k), SpoiltOutside(listed, lookups, inFlight));
      hide SpoiltOutside;
      if rdpe.getattrcount == 0 {
        Conclude();
      }
    }

    /** The callback after the last reply. */
    method Conclude()
      requires rdpe != null && inFlight == [] && outcomes == []
      requires rdpe.failed == SpoiltOutside(listed, lookups, inFlight)
      modifies this`outcomes, rdpe`freed
      ensures CalledBack() && rdpe.freed && rdpe.failed == old(rdpe.failed)
      ensures outcomes == [if rdpe.failed then Failed(-12) else Listed]
    {
      outcomes := outcomes + [if rdpe.failed then Failed(-ENOMEM) else Listed];
      rdpe.freed := true;
    }

    /** What the counter learns from a reply. */
    method CountDown(reply: LookupReply, ghost spoilt: bool)
      requires rdpe != null && rdpe.getattrcount > 0
      requires spoilt <==> rdpe.failed || reply.LookupError? || reply.LookupCancelled? || reply.LookupTimedOut?
      modifies rdpe`getattrcount, rdpe`failed
      ensures rdpe.getattrcount == old(rdpe.getattrcount) - 1 && rdpe.failed == spoilt
      ensures rdpe.failed == (old(rdpe.failed) || WasLost(reply))
    {
      rdpe.getattrcount := rdpe.getattrcount - 1;
      if reply.LookupError? || reply.LookupCancelled? || reply.LookupTimedOut? {
        rdpe.failed := true;
      }
    }

    /** Takes a LOOKUP out of those in flight and puts what it found in place. */
    method FillIn(i: nat, nfsdirent: Dirent)
      requires Linked() && Resolving() && Placed()
      requires i < |inFlight| && nfsdirent == dirents[i]
      modifies this`inFlight, this`dirents, nfsdirent`attr
      ensures Linked() && Resolving() && Placed()
      ensures inFlight == old(inFlight[..i] + inFlight[i + 1..])
      ensures var reply := lookups(old(inFlight[i]));
        nfsdirent.attr == if reply.Found? && reply.hasAttr then reply.attr else old(nfsdirent.attr)
    {
      var reply := lookups(inFlight[i]);
      TakeOut(i);
      hide Placed;
      if reply.Found? && reply.hasAttr {
        nfsdirent.attr := reply.attr;
      }
    }

    method TakeOut(i: nat)
      requires Placed() && i < |inFlight|
      modifies this`inFlight, this`dirents
      ensures Placed()
      ensures inFlight == old(inFlight[..i] + inFlight[i + 1..])
      ensures forall k :: k in inFlight <==> k in old(inFlight) && k != old(inFlight[i])
    {
      FanOut.TakenNumber(inFlight, i);
      inFlight, dirents := inFlight[..i] + inFlight[i + 1..], dirents[..i] + dirents[i + 1..];
    }

    method Drain()
      requires Linked() && Resolving() && Placed() && Counted() && CalledBack()
      modifies this`inFlight, this`dirents, this`outcomes, rdpe, spine
      ensures Linked() && Resolving() && CalledBack() && inFlight == []
    {
      while inFlight != []
        modifies this`inFlight, this`dirents, this`outcomes, rdpe, spine
        invariant Linked() && Resolving() && Placed() && Counted() && CalledBack()
        decreases |inFlight|
      {
        hide Linked, Resolving, CalledBack;
        var i: nat :| i < |inFlight|;
        assert dirents[i] in spine;
        LookupDone(i, dirents[i]);
      }
    }

    /** From the first READDIRPLUS to the caller's callback, for any failures and
        with the replies to the LOOKUPs in any order: the caller is called back
        once, unless the scan is still going on, and then knows every entry of
        the scan with the attributes that its own LOOKUP gave. */
    method Open(srv: Server, rounds: nat)
      requires Linked() && spine == [] && log == [] && Scanned() == Start
      requires rdpe == null && inFlight == [] && dirents == [] && outcomes == []
      modifies this
      ensures var end := Run(mounts, srv, Start, 0, rounds);
        match end.next
        case Ask(_) => outcomes == []
        case Done(Failed(status)) => outcomes == [Failed(status)]
        case Done(Listed) =>
          && outcomes == [Verdict(listed, lookups)] && inFlight == []
          && listed == end.items && Resolving() && mtime == end.mtime
      ensures Linked()
      ensures log == Log(mounts, srv, Start, 0, rounds)
      ensures Run(mounts, srv, Start, 0, rounds).next == Done(Listed) ==>
        // each entry has the attributes that its own LOOKUP brought, if it needed one
        && |spine| == |listed|
        && (forall k: nat :: k < |spine| ==>
              && spine[k].name == listed[k].name && spine[k].inode == listed[k].inode
              && spine[k].attr ==
                 if listed[k].attr.kind == 0 && lookups(k).Found? && lookups(k).hasAttr then lookups(k).attr
                 else listed[k].attr)
        // and the callback is an error exactly if a LOOKUP was lost, cancelled or late
        && (outcomes == [Listed] || outcomes == [Failed(-12)])
        && (outcomes == [Failed(-12)] <==>
              exists k: nat :: k < |listed| && listed[k].attr.kind == 0 && WasLost(lookups(k)))
    {
      hide Linked, Resolving, ItemsOf, Run, Log;
      ScanDir(srv, rounds);
      if next.Ask? {
        return;
      }
      if next.outcome.Failed? {
        outcomes := outcomes + [next.outcome];
        return;
      }
      assert forall i :: 0 <= i < |spine| ==> spine[i] in spine;
      FinishListed();
      InPlace();
    }

    /** What there is to see once no LOOKUP is in flight. */
    lemma InPlace()
      requires Resolving() && inFlight == []
      ensures |spine| == |listed|
      ensures forall k: nat :: k < |spine| ==>
        && spine[k].name == listed[k].name && spine[k].inode == listed[k].inode
        && spine[k].attr ==
           if listed[k].attr.kind == 0 && lookups(k).Found? && lookups(k).hasAttr then lookups(k).attr
           else listed[k].attr
      ensures SpoiltOutside(listed, lookups, []) <==>
        exists k: nat :: k < |listed| && listed[k].attr.kind == 0 && WasLost(lookups(k))
    {
    }

    /** What nfs_readdir gives, call by call. */
    method Items() returns (items: seq<Item>)
      requires Linked()
      ensures items == ItemsOf(spine)
    {
      items := [];
      var current := entries;
      ghost var i: nat := 0;
      while current != null
        invariant i <= |spine| && current == if i < |spine| then spine[i] else null
        invariant items == ItemsOf(spine)[..i]
        decreases |spine| - i
      {
        assert spine[i].next == NextOf(spine, i);
        items := items + [Item(current.name, current.inode, current.attr)];
        current := current.next;
        i := i + 1;
      }
    }

    /** Opening a fixed directory that a server pages: every entry once, the last
        first, with the attributes the server, the nested mounts or its own LOOKUP
        gave, except on a late fallback. */
    method OpenServed(srv: Server, ghost sv: Service, size: nat) returns (ghost fell: nat)
      requires Linked() && spine == [] && log == [] && Scanned() == Start
      requires rdpe == null && inFlight == [] && dirents == [] && outcomes == []
      requires DistinctCookies(sv.dir) && Serves(srv, sv) && size == |sv.dir|
      modifies this
      ensures if MeetsLateFallback(mounts, srv, sv, Start, 0, size + 2) then outcomes == [Failed(-EIO)]
        else
          && outcomes == [Verdict(listed, lookups)] && |spine| == size
          && forall i: nat :: i < size ==>
            ItemsOf(spine)[size - 1 - i] == Resolved(ItemOf(mounts, i < fell, sv.dir[i]), lookups(size - 1 - i))
    {
      hide Run, Log, MeetsLateFallback, Serves, DistinctCookies;
      fell := OpensWhole(mounts, srv, sv);
      Open(srv, size + 2);
    }

    /** The end of either callback, once the last page is in. */
    method FinishListed()
      requires Linked() && rdpe == null && inFlight == [] && dirents == [] && outcomes == []
      modifies this`rdpe, this`inFlight, this`dirents, this`listed, this`outcomes, spine
      ensures outcomes == [Verdict(listed, lookups)] && inFlight == []
      ensures listed == old(ItemsOf(spine)) && Resolving() && Linked()
    {
      hide Resolving, ItemsOf;
      var count := LookUpMissing();
      if count == 0 {
        outcomes := outcomes + [Listed];
        return;
      }
      Drain();
    }
  }
}
