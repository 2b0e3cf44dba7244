/** Opening and closing directories through the cache: the steps of DirCache's
    runs are what the code does. */
module Client {
  import opened Wrappers
  import opened SList
  import opened DirCache
  import opened OpenDir
  import Readdir
  import Resolver

  /** The modification time that opendir goes by, from the attributes a lookup hands
      over; in a reply without attributes they are all zero. */
  function MtimeOf(attr: Option<Resolver.Attr>): Option<Time> {
    if attr.None? then None else Some(Readdir.Time(attr.value.seconds, attr.value.nseconds))
  }

  /** A server as a scan that begins after `base` RPCs sees it. */
  function Later(srv: Readdir.Server, base: nat): Readdir.Server {
    (k: nat, r: Readdir.Request) => srv(base + k, r)
  }

  lemma {:induction false} RunLater(m: Readdir.Mounts, srv: Readdir.Server, base: nat, s: Readdir.Scan, k: nat, n: nat)
    ensures Readdir.Run(m, Later(srv, base), s, k, n) == Readdir.Run(m, srv, s, base + k, n)
    decreases n
  {
    hide Readdir.Step;
    if n > 0 && s.next.Ask? {
      RunLater(m, srv, base, Readdir.Step(m, s, srv(base + k, s.next.request)), k + 1, n - 1);
    }
  }

  /** The listing has the modification time that a lookup reports. */
  predicate Current(d: Listing, attr: Option<Resolver.Attr>) {
    attr.Some? && d.mtime.seconds == attr.value.seconds && d.mtime.nseconds == attr.value.nseconds
  }

  /** Entries as a scan gave them, those without attributes with what their own
      LOOKUPs brought. */
  predicate Filled(items: seq<Readdir.Item>, given: seq<Readdir.Item>, lookups: nat -> LookupReply) {
    && |items| == |given|
    && forall k: nat :: k < |given| ==>
      && items[k].name == given[k].name && items[k].inode == given[k].inode
      && items[k].attr ==
         if given[k].attr.kind == 0 && lookups(k).Found? && lookups(k).hasAttr then lookups(k).attr
         else given[k].attr
  }

  /** A directory is listed anew, which succeeds exactly if the scan does and no
      LOOKUP for missing attributes is lost. */
  ghost predicate IsNew(w: World, fh: Handle, lookups: nat -> LookupReply, now: nat, rounds: nat, serial: nat,
                        dir: Option<Listing>)
  {
    var end := Readdir.Run(w.mounts(fh), w.srv(fh), Readdir.Start, now + 1, rounds);
    && (dir.Some? <==>
          end.next == Readdir.Done(Readdir.Listed)
          && forall k: nat :: k < |end.items| && end.items[k].attr.kind == 0 ==> !WasLost(lookups(k)))
    && (dir.Some? ==>
          && dir.value.fh == fh && dir.value.serial == serial && dir.value.mtime == end.mtime
          && Filled(dir.value.items, end.items, lookups))
  }

  /** What opening gives: the first cached listing of the directory if it is current,
      and a new one otherwise. */
  ghost predicate Opens(w: World, fh: Handle, attr: Option<Resolver.Attr>, lookups: nat -> LookupReply, now: nat,
                        rounds: nat, serial: nat, before: seq<Listing>, dir: Option<Listing>)
  {
    if exists i :: FirstOf(before, fh, i) && Current(before[i], attr) then
      forall i :: FirstOf(before, fh, i) ==> dir == Some(before[i])
    else IsNew(w, fh, lookups, now, rounds, serial, dir)
  }

  /** nfs3_opendir_continue_internal and the callbacks after it: a cached listing
      that is current, or a new one, or null where opening failed or has not ended
      within `rounds` replies. */
  method OpenDirectory(cache: Cache, w: World, fh: Handle, attr: Option<Resolver.Attr>,
                       lookups: nat -> LookupReply, now: nat, rounds: nat, serial: nat)
    returns (dir: Node?<Listing>, ghost e: Event)
    requires cache.Valid()
    modifies cache.list, cache.list.spine
    ensures cache.Valid() && (dir != null ==> dir !in cache.list.spine)
    ensures e.Open? && e.fh == fh && e.mtime == MtimeOf(attr) && e.now == now && e.rounds == rounds && Truthful(w, e)
    ensures forall held ::
      var t := Step(State(old(cache.Contents()), held, serial), e);
      && cache.Contents() == t.cache
      && t.held == held + (if dir == null then multiset{} else multiset{dir.item})
    ensures Opens(w, fh, attr, lookups, now, rounds, serial, old(cache.Contents()),
                  if dir == null then None else Some(dir.item))
  {
    hide DirCache.Found, Serves, IsNew, Enumerated, DirCache.Items, Opens, Step;
    var mtime := MtimeOf(attr);
    ghost var before := cache.Contents();
    dir := CachedOrNew(cache, w, fh, mtime, lookups, now, rounds, serial);
    ghost var listing := if dir == null then None else Some(dir.item);
    ghost var hit := Serves(before, fh, mtime);
    e := Event.Open(fh, mtime, if hit || listing.None? then None else Some((listing.value.mtime, listing.value.items)),
                    now, rounds);
    OpenStep(before, cache.Contents(), serial, e, listing);
    if hit {
      CachedOpens(w, fh, attr, lookups, now, rounds, serial, before, listing.value);
    } else {
      AnewOpens(w, fh, attr, lookups, now, rounds, serial, before, listing);
    }
  }

  method CachedOrNew(cache: Cache, w: World, fh: Handle, mtime: Option<Time>,
                     lookups: nat -> LookupReply, now: nat, rounds: nat, serial: nat)
    returns (dir: Node?<Listing>)
    requires cache.Valid()
    modifies cache.list, cache.list.spine
    ensures cache.Valid() && (dir != null ==> dir !in cache.list.spine)
    ensures cache.Contents() == DirCache.Found(old(cache.Contents()), fh).1
    ensures
      if Serves(old(cache.Contents()), fh, mtime) then
        dir != null && DirCache.Found(old(cache.Contents()), fh).0 == Some(dir.item)
      else
        && IsNew(w, fh, lookups, now, rounds, serial, if dir == null then None else Some(dir.item))
        && (dir != null ==>
              dir.item.fh == fh && dir.item.serial == serial
              && Enumerated(w, fh, dir.item.mtime, dir.item.items, now + 1, rounds))
  {
    hide DirCache.Found, IsNew, Enumerated, DirCache.Items, FirstOf;
    dir := cache.OpenCached(fh, mtime);
    if dir != null {
      return;
    }
    ghost var end;
    var listing;
    listing, end := Enumerate(w, fh, lookups, now, rounds, serial);
    if listing.Some? {
      dir := new Node<Listing>(listing.value);
    }
  }

  lemma OpenStep(before: seq<Listing>, after: seq<Listing>, serial: nat, e: Event, dir: Option<Listing>)
    requires e.Open? && after == DirCache.Found(before, e.fh).1
    requires
      if Serves(before, e.fh, e.mtime) then dir == DirCache.Found(before, e.fh).0
      else if e.enumeration.None? then dir == None
      else dir == Some(Listing(e.fh, e.enumeration.value.0, e.enumeration.value.1, serial))
    ensures forall held ::
      var t := Step(State(before, held, serial), e);
      && after == t.cache
      && t.held == held + (if dir == None then multiset{} else multiset{dir.value})
  {
  }

  lemma CachedOpens(w: World, fh: Handle, attr: Option<Resolver.Attr>, lookups: nat -> LookupReply, now: nat,
                    rounds: nat, serial: nat, before: seq<Listing>, d: Listing)
    requires Serves(before, fh, MtimeOf(attr)) && DirCache.Found(before, fh).0 == Some(d)
    ensures Opens(w, fh, attr, lookups, now, rounds, serial, before, Some(d))
  {
    var i := SomeFirst(before, fh);
    FoundIs(before, fh);
  }

  lemma AnewOpens(w: World, fh: Handle, attr: Option<Resolver.Attr>, lookups: nat -> LookupReply, now: nat,
                  rounds: nat, serial: nat, before: seq<Listing>, dir: Option<Listing>)
    requires !Serves(before, fh, MtimeOf(attr))
    requires IsNew(w, fh, lookups, now, rounds, serial, dir)
    ensures Opens(w, fh, attr, lookups, now, rounds, serial, before, dir)
  {
    FoundIs(before, fh);
  }

  /** The enumeration and the LOOKUPs for missing attributes. */
  method Enumerate(w: World, fh: Handle, lookups: nat -> LookupReply, now: nat, rounds: nat, serial: nat)
    returns (listing: Option<Listing>, ghost end: Readdir.Scan)
    ensures end == Readdir.Run(w.mounts(fh), w.srv(fh), Readdir.Start, now + 1, rounds)
    ensures listing.Some? ==>
      && listing.value.fh == fh && listing.value.serial == serial
      && Enumerated(w, fh, listing.value.mtime, listing.value.items, now + 1, rounds)
    ensures end.next == Readdir.Done(Readdir.Listed) ==> (listing.Some? <==> !SpoiltOutside(end.items, lookups, []))
    ensures end.next != Readdir.Done(Readdir.Listed) ==> listing == None
    ensures IsNew(w, fh, lookups, now, rounds, serial, listing)
  {
    var scan := new OpenDir(w.mounts(fh), lookups);
    scan.Open(Later(w.srv(fh), now + 1), rounds);
    RunLater(w.mounts(fh), w.srv(fh), now + 1, Readdir.Start, 0, rounds);
    end := Readdir.Run(w.mounts(fh), w.srv(fh), Readdir.Start, now + 1, rounds);
    if scan.outcomes != [Readdir.Listed] {
      return None, end;
    }
    var items := scan.Items();
    assert scan.Resolving();
    listing := Some(Listing(fh, scan.mtime, items, serial));
  }
}
