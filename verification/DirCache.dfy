/** The directory cache: a linked list of listings, newest first, bounded, and
    emptied of a handle when that directory changes. */
module DirCache {
  import opened Wrappers
  import opened SList
  import Readdir
  import ChangingDir

  const MAX_DIR_CACHE: nat := 128

  type Handle = seq<int>
  type Time = Readdir.Time

  /** struct nfsdir: one enumeration of a directory. The serial number tells it
      from other enumerations, as its address does. */
  datatype Listing = Listing(fh: Handle, mtime: Time, items: seq<Readdir.Item>, serial: nat)

  // ----- the cache as a sequence

  function Items(spine: seq<Node<Listing>>): (r: seq<Listing>)
    ensures |r| == |spine|
    ensures forall i :: 0 <= i < |r| ==> r[i] == spine[i].item
  {
    seq(|spine|, i requires 0 <= i < |spine| => spine[i].item)
  }

  /** The newest goes in front; only the oldest is ever given up. */
  function Added(cache: seq<Listing>, d: Listing): (r: seq<Listing>)
    ensures |r| <= MAX_DIR_CACHE + 1
    ensures r <= [d] + cache
    ensures |cache| <= MAX_DIR_CACHE ==> r == [d] + cache
  {
    var all := [d] + cache;
    if |all| <= MAX_DIR_CACHE + 1 then all else all[..MAX_DIR_CACHE + 1]
  }

  lemma AddedIs(cache: seq<Listing>, d: Listing)
    requires |cache| <= 129
    ensures Added(cache, d) == if |cache| <= 128 then [d] + cache else ([d] + cache)[..129]
  {
  }

  /** The first listing of a handle, and the cache without it. */
  function Found(cache: seq<Listing>, fh: Handle): (r: (Option<Listing>, seq<Listing>))
    ensures r.0.Some? ==> r.0.value.fh == fh && r.0.value in cache
    ensures r.0.None? ==> r.1 == cache && forall i :: 0 <= i < |cache| ==> cache[i].fh != fh
    ensures |r.1| <= |cache|
    ensures forall d :: d in r.1 ==> d in cache
  {
    if cache == [] then (None, [])
    else if cache[0].fh == fh then (Some(cache[0]), cache[1..])
    else
      var (d, rest) := Found(cache[1..], fh);
      (d, [cache[0]] + rest)
  }

  lemma {:induction false} FoundAt(cache: seq<Listing>, fh: Handle, i: nat)
    requires i < |cache| && cache[i].fh == fh
    requires forall k :: 0 <= k < i ==> cache[k].fh != fh
    ensures Found(cache, fh) == (Some(cache[i]), cache[..i] + cache[i + 1..])
  {
    if i > 0 {
      FoundAt(cache[1..], fh, i - 1);
      assert [cache[0]] + (cache[1..][..i - 1] + cache[1..][i..]) == cache[..i] + cache[i + 1..];
    } else {
      assert cache[..0] + cache[1..] == cache[1..];
    }
  }

  lemma {:induction false} NotFound(cache: seq<Listing>, fh: Handle)
    requires forall k :: 0 <= k < |cache| ==> cache[k].fh != fh
    ensures Found(cache, fh) == (None, cache)
  {
    if cache != [] {
      NotFound(cache[1..], fh);
      assert [cache[0]] + cache[1..] == cache;
    }
  }

  /** The i-th listing is the first of the handle. */
  predicate FirstOf(cache: seq<Listing>, fh: Handle, i: int) {
    0 <= i < |cache| && cache[i].fh == fh && forall k :: 0 <= k < i ==> cache[k].fh != fh
  }

  lemma {:induction false} SomeFirst(cache: seq<Listing>, fh: Handle) returns (i: int)
    ensures FirstOf(cache, fh, i) || (i == -1 && forall k :: 0 <= k < |cache| ==> cache[k].fh != fh)
  {
    i := -1;
    if cache != [] {
      i := SomeFirst(cache[..|cache| - 1], fh);
      if i == -1 && cache[|cache| - 1].fh == fh {
        i := |cache| - 1;
      }
    }
  }

  lemma FoundIs(cache: seq<Listing>, fh: Handle)
    ensures forall i :: FirstOf(cache, fh, i) ==>
      Found(cache, fh) == (Some(cache[i]), cache[..i] + cache[i + 1..])
    ensures (forall i :: 0 <= i < |cache| ==> cache[i].fh != fh) ==> Found(cache, fh) == (None, cache)
  {
    hide Found;
    forall i | FirstOf(cache, fh, i)
      ensures Found(cache, fh) == (Some(cache[i]), cache[..i] + cache[i + 1..])
    {
      FoundAt(cache, fh, i);
    }
    if forall i :: 0 <= i < |cache| ==> cache[i].fh != fh {
      NotFound(cache, fh);
    }
  }

  lemma TakeOut(all: seq<Node<Listing>>, i: nat, fh: Handle)
    requires i < |all| && Distinct(all) && all[i].item.fh == fh
    requires forall k :: 0 <= k < i ==> all[k].item.fh != fh
    ensures Found(Items(all), fh) == (Some(all[i].item), Items(Without(all, all[i])))
    ensures all[i] !in Without(all, all[i])
    ensures forall n :: n in Without(all, all[i]) ==> n in all
  {
    hide Found, Without;
    FoundAt(Items(all), fh, i);
    WithoutAt(all, i, all[i]);
    ItemsWithout(all, i);
  }

  lemma ItemsWithout(all: seq<Node<Listing>>, i: nat)
    requires i < |all|
    ensures Items(all[..i] + all[i + 1..]) == Items(all)[..i] + Items(all)[i + 1..]
  {
  }

  lemma LastOut(all: seq<Node<Listing>>, node: Node<Listing>)
    requires |all| == MAX_DIR_CACHE + 2 && Distinct(all) && node == all[MAX_DIR_CACHE + 1]
    ensures Without(all, node) == all[..MAX_DIR_CACHE + 1]
  {
    WithoutAt(all, MAX_DIR_CACHE + 1, node);
    assert all[..MAX_DIR_CACHE + 1] + all[MAX_DIR_CACHE + 2..] == all[..MAX_DIR_CACHE + 1];
  }

  lemma AddedItems(spine: seq<Node<Listing>>, d: Node<Listing>)
    requires |spine| <= MAX_DIR_CACHE + 1
    ensures var all := [d] + spine;
      Added(Items(spine), d.item) == Items(if |all| <= MAX_DIR_CACHE + 1 then all else all[..MAX_DIR_CACHE + 1])
  {
    var all := [d] + spine;
    assert [d.item] + Items(spine) == Items(all);
    assert Items(all)[..|all|] == Items(all);
    if |all| > MAX_DIR_CACHE + 1 {
      assert Items(all)[..MAX_DIR_CACHE + 1] == Items(all[..MAX_DIR_CACHE + 1]);
    }
  }

  // ----- the code

  class Cache {
    const list: List<Listing>

    constructor ()
      ensures Valid() && Contents() == [] && fresh(list)
    {
      list := new List();
    }

    ghost predicate Valid()
      reads this, list, list.spine
    {
      list.Valid() && |list.spine| <= MAX_DIR_CACHE + 1
    }

    ghost function Contents(): seq<Listing>
      reads this, list
    {
      Items(list.spine)
    }

    /** nfs_dircache_add */
    method Add(nfsdir: Node<Listing>)
      requires Valid() && nfsdir !in list.spine
      modifies list, list.spine, nfsdir
      ensures Valid() && Contents() == Added(old(Contents()), nfsdir.item)
      ensures list.spine <= [nfsdir] + old(list.spine)
      ensures Contents() ==
        if |old(Contents())| <= 128 then [nfsdir.item] + old(Contents())
        else ([nfsdir.item] + old(Contents()))[..129]
    {
      AddedIs(old(Contents()), nfsdir.item);
      hide Items, Added;
      list.Add(nfsdir);
      AddedItems(old(list.spine), nfsdir);
      DropOldest();
    }

    /** Its loop, which removes the entry too many. */
    method DropOldest()
      requires list.Valid() && |list.spine| <= MAX_DIR_CACHE + 2
      modifies list, list.spine
      ensures list.Valid()
      ensures var all := old(list.spine);
        list.spine == if |all| <= MAX_DIR_CACHE + 1 then all else all[..MAX_DIR_CACHE + 1]
    {
      ghost var all := list.spine;
      var i := 0;
      var node := list.head;
      while node != null && i <= MAX_DIR_CACHE
        invariant 0 <= i <= |all| && i <= MAX_DIR_CACHE + 1
        invariant node == if i < |all| then all[i] else null
        decreases |all| - i
      {
        assert all[i].next == After(all, i);
        node := node.next;
        i := i + 1;
      }
      if node != null {
        LastOut(all, node);
        list.Remove(node);
      }
    }

    /** nfs_dircache_find */
    method Find(fh: Handle) returns (nfsdir: Node?<Listing>)
      requires Valid()
      modifies list, list.spine
      ensures Valid()
      ensures var (d, rest) := Found(old(Contents()), fh);
        && Contents() == rest
        && (nfsdir == null <==> d.None?)
        && (nfsdir != null ==> nfsdir.item == d.value && nfsdir in old(list.spine) && nfsdir !in list.spine)
      ensures nfsdir == null ==> list.spine == old(list.spine)
      ensures forall n :: n in list.spine ==> n in old(list.spine)
    {
      ghost var all := list.spine;
      var i := 0;
      nfsdir := list.head;
      while nfsdir != null
        invariant 0 <= i <= |all| && list.Valid() && list.spine == all == old(list.spine)
        invariant nfsdir == if i < |all| then all[i] else null
        invariant forall k :: 0 <= k < i ==> all[k].item.fh != fh
        decreases |all| - i
      {
        hide Found, Without, Items;
        if nfsdir.item.fh == fh {
          TakeOut(all, i, fh);
          list.Remove(nfsdir);
          return;
        }
        assert all[i].next == After(all, i);
        nfsdir := nfsdir.next;
        i := i + 1;
      }
      NotFound(Items(all), fh);
    }

    /** nfs_dircache_drop */
    method Drop(fh: Handle)
      requires Valid()
      modifies list, list.spine
      ensures Valid() && Contents() == Found(old(Contents()), fh).1
      ensures forall i :: FirstOf(old(Contents()), fh, i) ==>
        Contents() == old(Contents())[..i] + old(Contents())[i + 1..]
      ensures (forall i :: 0 <= i < |old(Contents())| ==> old(Contents())[i].fh != fh) ==>
        Contents() == old(Contents())
      ensures forall n :: n in list.spine ==> n in old(list.spine)
    {
      hide Found, Items;
      FoundIs(Contents(), fh);
      var cached := Find(fh);
    }

    /** The start of nfs3_opendir_continue_internal: the cached listing if its
        modification time is the directory's, and null to enumerate afresh; a
        stale one is freed. `mtime` is from the attributes that the walk ended with,
        all zero if the reply had none; None is a walk that ended without a reply. */
    method OpenCached(fh: Handle, mtime: Option<Time>) returns (cached: Node?<Listing>)
      requires Valid()
      modifies list, list.spine
      ensures Valid() && Contents() == Found(old(Contents()), fh).1
      ensures (cached != null) <==> Serves(old(Contents()), fh, mtime)
      ensures cached != null ==> cached.item == Found(old(Contents()), fh).0.value
      ensures cached != null ==> cached !in list.spine
      ensures forall i :: FirstOf(old(Contents()), fh, i) ==>
        var d := old(Contents())[i];
        && Contents() == old(Contents())[..i] + old(Contents())[i + 1..]
        && (cached != null <==>
              mtime.Some? && mtime.value.seconds == d.mtime.seconds && mtime.value.nseconds == d.mtime.nseconds)
        && (cached != null ==> cached.item == d)
      ensures (forall i :: 0 <= i < |old(Contents())| ==> old(Contents())[i].fh != fh) ==>
        cached == null && Contents() == old(Contents())
    {
      hide Found, Items;
      FoundIs(Contents(), fh);
      cached := Find(fh);
      if cached != null {
        if mtime.Some? && mtime.value.seconds == cached.item.mtime.seconds
           && mtime.value.nseconds == cached.item.mtime.nseconds {
          return;
        }
        cached := null;
      }
    }
  }

  predicate Serves(cache: seq<Listing>, fh: Handle, mtime: Option<Time>) {
    Found(cache, fh).0.Some? && mtime == Some(Found(cache, fh).0.value.mtime)
  }

  // ----- runs

  /** What callers do. `Open` carries what an enumeration would give, None if it
      would fail; it is made by `rounds` RPCs from the one after `now`. */
  datatype Event =
    | Open(fh: Handle, mtime: Option<Time>, enumeration: Option<(Time, seq<Readdir.Item>)>, now: nat, rounds: nat)
    | Close(listing: Listing)
    | Change(fh: Handle)          // an operation that drops the directory

  /** The cache, the listings callers hold, and the number of enumerations made. */
  datatype State = State(cache: seq<Listing>, held: multiset<Listing>, serial: nat)

  const Empty := State([], multiset{}, 0)

  predicate Enabled(s: State, e: Event) {
    e.Close? ==> e.listing in s.held
  }

  function Step(s: State, e: Event): State
    requires Enabled(s, e)
  {
    match e
    case Open(fh, mtime, enumeration, _, _) =>
      var (hit, rest) := Found(s.cache, fh);
      if Serves(s.cache, fh, mtime) then s.(cache := rest, held := s.held + multiset{hit.value})
      else if enumeration.None? then s.(cache := rest)
      else
        var made := Listing(fh, enumeration.value.0, enumeration.value.1, s.serial);
        State(rest, s.held + multiset{made}, s.serial + 1)
    case Close(d) => s.(cache := Added(s.cache, d), held := s.held - multiset{d})
    case Change(fh) => s.(cache := Found(s.cache, fh).1)
  }

  predicate RunOk(s: State, es: seq<Event>)
    decreases |es|
  {
    es == [] || (Enabled(s, es[0]) && RunOk(Step(s, es[0]), es[1..]))
  }

  function Exec(s: State, es: seq<Event>): State
    requires RunOk(s, es)
    decreases |es|
  {
    if es == [] then s else Exec(Step(s, es[0]), es[1..])
  }

  ghost predicate Inv(s: State) {
    && |s.cache| <= MAX_DIR_CACHE + 1
    && (forall d :: d in s.cache ==> d.serial < s.serial)
    && (forall d :: d in s.held ==> d.serial < s.serial)
  }

  lemma {:induction false} RunInv(s: State, es: seq<Event>)
    requires Inv(s) && RunOk(s, es)
    ensures Inv(Exec(s, es))
    decreases |es|
  {
    if es != [] {
      StepInv(s, es[0]);
      RunInv(Step(s, es[0]), es[1..]);
    }
  }

  lemma StepInv(s: State, e: Event)
    requires Inv(s) && Enabled(s, e)
    ensures Inv(Step(s, e))
  {
    if e.Close? {
      var c := Added(s.cache, e.listing);
      assert forall d :: d in c ==> d in [e.listing] + s.cache;
    }
  }

  // ----- what is served

  /** Every directory as it is served and as it changes, and the nested mounts
      that its entries may take attributes from. */
  datatype World = World(mounts: Handle -> Readdir.Mounts, srv: Handle -> Readdir.Server,
                         history: Handle -> ChangingDir.History)

  ghost predicate Fair(w: World) {
    forall fh :: ChangingDir.Clocked(w.history(fh)) && ChangingDir.ServedBy(w.srv(fh), w.history(fh))
  }

  /** A scan of n RPCs from the first-th on gave these entries and this modification
      time; attributes that it did not give may have been looked up afterwards. */
  ghost predicate Enumerated(w: World, fh: Handle, mtime: Time, items: seq<Readdir.Item>, first: nat, n: nat) {
    var end := Readdir.Run(w.mounts(fh), w.srv(fh), Readdir.Start, first, n);
    end.next == Readdir.Done(Readdir.Listed) && mtime == end.mtime && FilledIn(items, end.items)
  }

  predicate FilledIn(items: seq<Readdir.Item>, given: seq<Readdir.Item>) {
    && Readdir.SameNames(items, given)
    && forall i :: 0 <= i < |given| && given[i].attr.kind != 0 ==> items[i] == given[i]
  }

  /** What an enumeration gives is what the server sends. */
  ghost predicate Truthful(w: World, e: Event) {
    e.Open? && e.enumeration.Some? ==>
      Enumerated(w, e.fh, e.enumeration.value.0, e.enumeration.value.1, e.now + 1, e.rounds)
  }

  /** The event made the listing. */
  predicate MadeBy(e: Event, d: Listing) {
    e.Open? && e.fh == d.fh && e.enumeration == Some((d.mtime, d.items))
  }

  /** A step adds no listing but the one it makes. */
  lemma OnlyMade(s: State, e: Event)
    requires Enabled(s, e)
    ensures var t := Step(s, e);
      forall d :: d in t.cache || d in t.held ==> d in s.cache || d in s.held || MadeBy(e, d)
  {
    if e.Close? {
      var c := Added(s.cache, e.listing);
      assert forall d :: d in c ==> d in [e.listing] + s.cache;
    }
  }

  /** Every listing there is was there at the start or made by an event of the run. */
  lemma {:induction false} MadeInRun(s: State, es: seq<Event>, d: Listing) returns (i: int)
    requires RunOk(s, es)
    requires var t := Exec(s, es); d in t.cache || d in t.held
    ensures i == -1 || 0 <= i < |es|
    ensures if i == -1 then d in s.cache || d in s.held else MadeBy(es[i], d)
    decreases |es|
  {
    hide Step, MadeBy;
    i := -1;
    if es != [] {
      i := MadeInRun(Step(s, es[0]), es[1..], d);
      OnlyMade(s, es[0]);
      if i >= 0 {
        i := i + 1;
      } else if d !in s.cache && d !in s.held {
        i := 0;
      }
    }
  }

  /** After any run the cache is bounded, and a listing served, whatever the lookup
      reports, was enumerated by an open of the same directory in that run, with the
      entries, attributes and modification time it has. */
  lemma ServedWasEnumerated(w: World, es: seq<Event>, fh: Handle, mtime: Option<Time>) returns (i: nat)
    requires RunOk(Empty, es) && forall i :: 0 <= i < |es| ==> Truthful(w, es[i])
    requires Serves(Exec(Empty, es).cache, fh, mtime)
    ensures |Exec(Empty, es).cache| <= MAX_DIR_CACHE + 1
    ensures var d := Found(Exec(Empty, es).cache, fh).0.value;
      && i < |es| && MadeBy(es[i], d) && d.fh == fh && mtime == Some(d.mtime)
      && Enumerated(w, fh, d.mtime, d.items, es[i].now + 1, es[i].rounds)
  {
    hide Enabled, Step;
    RunInv(Empty, es);
    var d := Found(Exec(Empty, es).cache, fh).0.value;
    i := MadeInRun(Empty, es, d);
    assert Truthful(w, es[i]);
  }

  /** The lookup at the k-th RPC reports the modification time of then, or none,
      which the code takes for zero. If it reports one, and the directory had it
      already when the enumeration of the listing served began, the listing has
      exactly the entries that the directory has now. */
  lemma ServedIsCurrent(w: World, es: seq<Event>, fh: Handle, k: nat, t: Time) returns (i: nat)
    requires Fair(w) && RunOk(Empty, es) && forall i :: 0 <= i < |es| ==> Truthful(w, es[i])
    requires t == w.history(fh).mtime(k) || t == Readdir.NoTime
    requires Serves(Exec(Empty, es).cache, fh, Some(t))
    ensures |Exec(Empty, es).cache| <= MAX_DIR_CACHE + 1
    ensures var d := Found(Exec(Empty, es).cache, fh).0.value;
      && i < |es| && MadeBy(es[i], d) && d.fh == fh
      && Enumerated(w, fh, d.mtime, d.items, es[i].now + 1, es[i].rounds)
      && (t != Readdir.NoTime && w.history(fh).mtime(es[i].now + 1) == t ==>
            Readdir.Names(d.items, w.history(fh).service(k).dir))
  {
    hide Enabled, Step, RunOk, Exec;
    i := ServedWasEnumerated(w, es, fh, Some(t));
    var h, d := w.history(fh), Found(Exec(Empty, es).cache, fh).0.value;
    var first, n := es[i].now + 1, es[i].rounds;
    if t != Readdir.NoTime && h.mtime(first) == t {
      ChangingDir.ListsIfUnchanged(w.mounts(fh), w.srv(fh), h, first, n);
      NamesNow(h, first, k, Readdir.Run(w.mounts(fh), w.srv(fh), Readdir.Start, first, n).items, d.items);
    }
  }

  lemma NamesNow(h: ChangingDir.History, i: nat, k: nat, given: seq<Readdir.Item>, items: seq<Readdir.Item>)
    requires ChangingDir.Clocked(h) && h.mtime(i) == h.mtime(k)
    requires Readdir.Names(given, h.service(i).dir) && Readdir.SameNames(items, given)
    ensures Readdir.Names(items, h.service(k).dir)
  {
    var g := ChangingDir.EraseHistory(h);
    assert g.mtime(i) == g.mtime(k) && g.service(i) == g.service(k);
    var a, b := h.service(i).dir, h.service(k).dir;
    assert Readdir.EraseAll(a) == Readdir.EraseAll(b);
    forall j | 0 <= j < |b|
      ensures items[|b| - 1 - j].name == b[j].name && items[|b| - 1 - j].inode == b[j].fileid
    {
      assert Readdir.EraseAll(a)[j] == Readdir.Erase(a[j]) && Readdir.EraseAll(b)[j] == Readdir.Erase(b[j]);
      assert given[|a| - 1 - j].name == a[j].name;
    }
  }

  const Mixed: World :=
    World((fh: Handle) => ChangingDir.Root, (fh: Handle) => ChangingDir.TwoPages, (fh: Handle) => ChangingDir.Replaced)

  /** A directory that changes between two pages is cached under its new time with
      its old first page, and served so at that time. */
  lemma MixedIsServed(fh: Handle)
    ensures Fair(Mixed)
    ensures var end := ChangingDir.SecondPage();
      var d := Listing(fh, end.mtime, end.items, 0);
      var es := [Open(fh, None, Some((end.mtime, end.items)), 0, 2), Close(d)];
      && RunOk(Empty, es) && (forall i :: 0 <= i < |es| ==> Truthful(Mixed, es[i]))
      && Serves(Exec(Empty, es).cache, fh, Some(Mixed.history(fh).mtime(3)))
      && Found(Exec(Empty, es).cache, fh).0 == Some(d)
      && !Readdir.Names(d.items, Mixed.history(fh).service(3).dir)
  {
    MixedEnumeration(fh);
    hide Fair, Enumerated, Found;
    var end := ChangingDir.SecondPage();
    OpenThenClose(fh, end.mtime, end.items, 0, 2);
  }

  lemma MixedEnumeration(fh: Handle)
    ensures Fair(Mixed) && Mixed.history(fh).mtime(3) == ChangingDir.SecondPage().mtime
    ensures var end := ChangingDir.SecondPage();
      && Enumerated(Mixed, fh, end.mtime, end.items, 1, 2)
      && !Readdir.Names(end.items, Mixed.history(fh).service(3).dir)
  {
    ChangingDir.MixedPages();
    var items, dir := ChangingDir.SecondPage().items, Mixed.history(fh).service(3).dir;
    assert dir == [ChangingDir.W, ChangingDir.Z];
    assert items[|dir| - 1 - 0].name == "x" && dir[0].name == "w";
  }

  function OneServer(h: ChangingDir.History, timed: bool): World {
    World((fh: Handle) => ChangingDir.Root, (fh: Handle) => ChangingDir.AtOnce(h, timed), (fh: Handle) => h)
  }

  /** What opening a directory of one entry and closing it leaves in the cache. */
  lemma OneIsCached(h: ChangingDir.History, timed: bool, fh: Handle)
    requires |h.service(1).dir| == 1
    ensures var item := Readdir.ItemOf(ChangingDir.Root, true, h.service(1).dir[0]);
      var d := Listing(fh, if timed then h.mtime(1) else Readdir.NoTime, [item], 0);
      var es := [Open(fh, None, Some((d.mtime, d.items)), 0, 1), Close(d)];
      && RunOk(Empty, es) && (forall i :: 0 <= i < |es| ==> Truthful(OneServer(h, timed), es[i]))
      && Found(Exec(Empty, es).cache, fh).0 == Some(d)
  {
    ChangingDir.OneEntry(h, timed);
    var item := Readdir.ItemOf(ChangingDir.Root, true, h.service(1).dir[0]);
    var d := Listing(fh, if timed then h.mtime(1) else Readdir.NoTime, [item], 0);
    OpenThenClose(fh, d.mtime, d.items, 0, 1);
  }

  /** A server that sends no attributes of directories: whatever has happened since,
      the old listing is served to a lookup that reports none either. */
  lemma NoTimeIsServed(fh: Handle)
    ensures var h := ChangingDir.Renewed;
      var w := OneServer(h, false);
      var d := Listing(fh, Readdir.NoTime, [Readdir.Item("x", 1, Readdir.NoAttr)], 0);
      var es := [Open(fh, None, Some((d.mtime, d.items)), 0, 1), Close(d)];
      && Fair(w) && RunOk(Empty, es) && (forall i :: 0 <= i < |es| ==> Truthful(w, es[i]))
      && Serves(Exec(Empty, es).cache, fh, Some(Readdir.NoTime)) && Found(Exec(Empty, es).cache, fh).0 == Some(d)
      && !Readdir.Names(d.items, h.service(3).dir)
  {
    var h := ChangingDir.Renewed;
    ChangingDir.RenewedIsClocked();
    ChangingDir.AtOnceServes(h, false);
    var dir := h.service(1).dir;
    assert dir[0] == ChangingDir.X;
    assert Readdir.ItemOf(ChangingDir.Root, true, dir[0]) == Readdir.Item("x", 1, Readdir.NoAttr);
    OneIsCached(h, false, fh);
    assert h.service(3).dir[0].name == "w";
    assert [Readdir.Item("x", 1, Readdir.NoAttr)][1 - 1 - 0].name == "x";
  }

  /** A file that has grown since is listed with the size it had when the directory
      was enumerated, although the listing is current. */
  lemma OldSizesAreServed(fh: Handle)
    ensures var h := ChangingDir.Growing;
      var w := OneServer(h, true);
      var d := Listing(fh, Readdir.Time(1, 0), [Readdir.Item("f", 1, Readdir.Attr(1, 10))], 0);
      var es := [Open(fh, None, Some((d.mtime, d.items)), 0, 1), Close(d)];
      && Fair(w) && RunOk(Empty, es) && (forall i :: 0 <= i < |es| ==> Truthful(w, es[i]))
      && Serves(Exec(Empty, es).cache, fh, Some(h.mtime(3))) && Found(Exec(Empty, es).cache, fh).0 == Some(d)
      && h.service(3).dir[0].attr == Readdir.Attr(1, 20)
  {
    var h := ChangingDir.Growing;
    ChangingDir.GrowingIsClocked();
    ChangingDir.AtOnceServes(h, true);
    OneIsCached(h, true, fh);
  }

  lemma OpenThenClose(fh: Handle, mtime: Time, items: seq<Readdir.Item>, now: nat, rounds: nat)
    ensures var d := Listing(fh, mtime, items, 0);
      var es := [Open(fh, None, Some((mtime, items)), now, rounds), Close(d)];
      && RunOk(Empty, es) && Exec(Empty, es).cache == [d]
      && Found([d], fh) == (Some(d), [])
  {
    var d := Listing(fh, mtime, items, 0);
    var open := Open(fh, None, Some((mtime, items)), now, rounds);
    var s := Step(Empty, open);
    assert s == State([], multiset{d}, 1);
    RunNone(Step(s, Close(d)));
    RunCons(s, Close(d), []);
    assert [Close(d)] + [] == [Close(d)];
    RunCons(Empty, open, [Close(d)]);
    assert [open] + [Close(d)] == [open, Close(d)];
    FoundAt([d], fh, 0);
  }

  // ----- what a change forgets

  predicate HeldTwice(cache: seq<Listing>, fh: Handle) {
    exists i, j :: 0 <= i < j < |cache| && cache[i].fh == fh && cache[j].fh == fh
  }

  /** A change to a directory leaves no listing of it exactly if the cache did
      not hold two. */
  lemma ChangeForgets(cache: seq<Listing>, fh: Handle)
    ensures (forall d :: d in Found(cache, fh).1 ==> d.fh != fh) <==> !HeldTwice(cache, fh)
  {
    hide Found;
    if i: nat :| i < |cache| && cache[i].fh == fh && forall k :: 0 <= k < i ==> cache[k].fh != fh {
      FoundAt(cache, fh, i);
      LeftBehind(cache, fh, i);
    } else {
      NoneOf(cache, fh);
    }
  }

  lemma LeftBehind(cache: seq<Listing>, fh: Handle, i: nat)
    requires i < |cache| && cache[i].fh == fh && forall k :: 0 <= k < i ==> cache[k].fh != fh
    ensures (forall d :: d in cache[..i] + cache[i + 1..] ==> d.fh != fh) <==> !HeldTwice(cache, fh)
  {
    var rest := cache[..i] + cache[i + 1..];
    if HeldTwice(cache, fh) {
      var k, j :| 0 <= k < j < |cache| && cache[k].fh == fh && cache[j].fh == fh;
      assert rest[j - 1] == cache[j];
    } else {
      assert forall k :: 0 <= k < |rest| ==> rest[k] == cache[if k < i then k else k + 1];
    }
  }

  lemma NoneOf(cache: seq<Listing>, fh: Handle)
    requires forall i: nat :: i < |cache| && cache[i].fh == fh ==> exists k :: 0 <= k < i && cache[k].fh == fh
    ensures Found(cache, fh) == (None, cache) && !HeldTwice(cache, fh)
  {
    forall i: nat | i < |cache|
      ensures cache[i].fh != fh
    {
      NoFirst(cache, fh, i);
    }
    NotFound(cache, fh);
  }

  lemma {:induction false} NoFirst(cache: seq<Listing>, fh: Handle, i: nat)
    requires i < |cache|
    requires forall i: nat :: i < |cache| && cache[i].fh == fh ==> exists k :: 0 <= k < i && cache[k].fh == fh
    ensures cache[i].fh != fh
    decreases i
  {
    if cache[i].fh == fh {
      var k :| 0 <= k < i && cache[k].fh == fh;
      NoFirst(cache, fh, k);
    }
  }

  /** The cache holds a listing of a directory from before its n-th enumeration. */
  predicate Stale(cache: seq<Listing>, fh: Handle, n: nat) {
    exists d :: d in cache && d.fh == fh && d.serial < n
  }

  /** ... now or at some time in a run. */
  predicate EverStale(s: State, es: seq<Event>, fh: Handle, n: nat)
    requires RunOk(s, es)
    decreases |es|
  {
    Stale(s.cache, fh, n) || (es != [] && EverStale(Step(s, es[0]), es[1..], fh, n))
  }

  /** A listing held now is closed in a run. */
  predicate ClosesStale(s: State, es: seq<Event>, fh: Handle, n: nat) {
    exists d :: d in s.held && d.fh == fh && d.serial < n && Close(d) in es
  }

  lemma {:induction false} EverStaleIff(s: State, es: seq<Event>, fh: Handle, n: nat)
    requires RunOk(s, es) && n <= s.serial
    ensures EverStale(s, es, fh, n) <==> Stale(s.cache, fh, n) || ClosesStale(s, es, fh, n)
    decreases |es|
  {
    if es != [] && !Stale(s.cache, fh, n) {
      var t, rest := Step(s, es[0]), es[1..];
      EverStaleIff(t, rest, fh, n);
      match es[0]
      case Open(_, _, _, _, _) => OpenKeeps(s, es, fh, n);
      case Close(d) => CloseMakes(s, es, fh, n);
      case Change(_) =>
        assert forall d :: Close(d) in es <==> Close(d) in rest;
    }
  }

  lemma OpenKeeps(s: State, es: seq<Event>, fh: Handle, n: nat)
    requires RunOk(s, es) && es != [] && es[0].Open? && n <= s.serial && !Stale(s.cache, fh, n)
    ensures var t := Step(s, es[0]);
      !Stale(t.cache, fh, n) && (ClosesStale(t, es[1..], fh, n) <==> ClosesStale(s, es, fh, n))
  {
    var t := Step(s, es[0]);
    assert forall d :: Close(d) in es <==> Close(d) in es[1..];
    assert forall d :: d in s.held ==> d in t.held;
    assert forall d :: d in t.held && d.fh == fh && d.serial < n ==> d in s.held;
  }

  lemma CloseMakes(s: State, es: seq<Event>, fh: Handle, n: nat)
    requires RunOk(s, es) && es != [] && es[0].Close? && n <= s.serial && !Stale(s.cache, fh, n)
    ensures var t := Step(s, es[0]);
      (Stale(t.cache, fh, n) || ClosesStale(t, es[1..], fh, n)) <==> ClosesStale(s, es, fh, n)
  {
    var d, t := es[0].listing, Step(s, es[0]);
    assert forall x :: x in t.cache ==> x in [d] + s.cache;
    assert t.cache[0] == d;
    assert forall x :: Close(x) in es <==> x == d || Close(x) in es[1..];
    assert forall x :: x in s.held <==> x == d || x in t.held;
  }

  /** A listing from before a change is in the cache at some time after it exactly
      if the cache held two at the change, or one that was held open across the
      change is closed afterwards. */
  lemma StaleAfterChange(s: State, fh: Handle, es: seq<Event>)
    requires Inv(s) && RunOk(Step(s, Change(fh)), es)
    ensures EverStale(Step(s, Change(fh)), es, fh, s.serial) <==>
      HeldTwice(s.cache, fh) || ClosesStale(s, es, fh, s.serial)
  {
    EverStaleIff(Step(s, Change(fh)), es, fh, s.serial);
    ChangeForgets(s.cache, fh);
  }

  /** Closing two handles of one directory puts two listings in the cache, and a
      change then forgets only the newer one. */
  lemma ChangeMayNotForget(fh: Handle, mtime: Time, items: seq<Readdir.Item>)
    ensures var d, e := Listing(fh, mtime, items, 0), Listing(fh, mtime, items, 1);
      var open := Open(fh, None, Some((mtime, items)), 0, 0);
      var es := [open, open, Close(d), Close(e), Change(fh)];
      RunOk(Empty, es) && Exec(Empty, es).cache == [d]
  {
    var d, e := Listing(fh, mtime, items, 0), Listing(fh, mtime, items, 1);
    var open := Open(fh, None, Some((mtime, items)), 0, 0);
    var s1 := Step(Empty, open);
    var s2 := Step(s1, open);
    assert s2 == State([], multiset{d, e}, 2);
    TwoClosed(s2, d, e);
    var rest := [Close(d), Close(e), Change(fh)];
    RunCons(s1, open, rest);
    RunCons(Empty, open, [open] + rest);
    assert [open] + ([open] + rest) == [open, open, Close(d), Close(e), Change(fh)];
  }

  /** A directory held open across a change comes back into the cache as it was
      before, although the cache never held two. */
  lemma ClosedAfterChange(fh: Handle, mtime: Time, items: seq<Readdir.Item>)
    ensures var d := Listing(fh, mtime, items, 0);
      var es := [Open(fh, None, Some((mtime, items)), 0, 0), Change(fh), Close(d)];
      RunOk(Empty, es) && Exec(Empty, es).cache == [d]
  {
    var d := Listing(fh, mtime, items, 0);
    var open := Open(fh, None, Some((mtime, items)), 0, 0);
    var s := Step(Empty, open);
    assert s == State([], multiset{d}, 1);
    assert Step(s, Change(fh)) == s;
    RunNone(Step(s, Close(d)));
    RunCons(s, Close(d), []);
    assert [Close(d)] + [] == [Close(d)];
    RunCons(s, Change(fh), [Close(d)]);
    RunCons(Empty, open, [Change(fh)] + [Close(d)]);
    assert [open] + ([Change(fh)] + [Close(d)]) == [open, Change(fh), Close(d)];
  }

  lemma RunCons(s: State, e: Event, es: seq<Event>)
    requires Enabled(s, e) && RunOk(Step(s, e), es)
    ensures RunOk(s, [e] + es) && Exec(s, [e] + es) == Exec(Step(s, e), es)
  {
    assert ([e] + es)[1..] == es;
  }

  lemma TwoClosed(s: State, d: Listing, e: Listing)
    requires s.cache == [] && s.held == multiset{d, e} && d.fh == e.fh
    ensures var es := [Close(d), Close(e), Change(d.fh)];
      RunOk(s, es) && Exec(s, es).cache == [d]
  {
    hide RunOk, Exec;
    var twice, end := CloseBoth(s, d, e);
    RunNone(end);
    assert [Change(d.fh)] + [] == [Change(d.fh)];
    assert [Close(e)] + [Change(d.fh)] == [Close(e), Change(d.fh)];
    assert [Close(d)] + [Close(e), Change(d.fh)] == [Close(d), Close(e), Change(d.fh)];
    RunCons(twice, Change(d.fh), []);
    RunCons(Step(s, Close(d)), Close(e), [Change(d.fh)]);
    RunCons(s, Close(d), [Close(e), Change(d.fh)]);
  }

  lemma RunNone(s: State)
    ensures RunOk(s, []) && Exec(s, []) == s
  {
  }

  lemma CloseBoth(s: State, d: Listing, e: Listing) returns (twice: State, end: State)
    requires s.cache == [] && s.held == multiset{d, e} && d.fh == e.fh
    ensures Enabled(s, Close(d)) && Enabled(Step(s, Close(d)), Close(e))
    ensures twice == Step(Step(s, Close(d)), Close(e))
    ensures end == Step(twice, Change(d.fh)) && end.cache == [d]
  {
    var once := Step(s, Close(d));
    assert once.cache == [d];
    twice := Step(once, Close(e));
    assert twice.cache == [e, d];
    end := Step(twice, Change(d.fh));
    FoundAt([e, d], d.fh, 0);
  }
}
