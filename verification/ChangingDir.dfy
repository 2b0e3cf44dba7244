/** Opening a directory that changes while it is read, page by page. */
module ChangingDir {
  import opened Wrappers
  import opened Readdir

  /** How a directory is served, and its modification time, at each RPC. */
  datatype History = History(service: nat -> Service, mtime: nat -> Time)

  predicate NotAfter(a: Time, b: Time) {
    a.seconds < b.seconds || (a.seconds == b.seconds && a.nseconds <= b.nseconds)
  }

  /** The modification time never goes back, and tells what is in the directory,
      attributes included. */
  ghost predicate ExactlyClocked(h: History) {
    && (forall i: nat, j: nat :: i <= j ==> NotAfter(h.mtime(i), h.mtime(j)))
    && (forall i: nat, j: nat :: h.mtime(i) == h.mtime(j) ==> h.service(i) == h.service(j))
    && (forall i: nat :: DistinctCookies(h.service(i).dir))
  }

  /** A reply that ends the scan with an error. */
  predicate IsFailure(reply: Reply) {
    reply.NotSent? || reply.RpcError? || reply.Cancelled? || reply.TimedOut? || reply.Refused?
  }

  /** Every reply is an error or what the directory is just then; to a cookie that
      is no longer in it anything. The attributes of a page are those of the
      directory just then. */
  ghost predicate ExactlyServed(srv: Server, h: History) {
    && (forall k: nat, request: Request, p: nat ::
          p <= |h.service(k).dir| && request.cookie == CookieAt(h.service(k).dir, p) ==>
            IsFailure(srv(k, request)) || Proper(srv(k, request), request, h.service(k), p))
    && HonestTimes(srv, h)
  }

  ghost predicate HonestTimes(srv: Server, h: History) {
    forall k: nat, request: Request :: HonestTime(srv(k, request), h.mtime(k))
  }

  predicate HonestTime(reply: Reply, now: Time) {
    reply.Answer? && reply.page.mtime.Some? ==> reply.page.mtime.value == now
  }

  /** The time a listing is kept under is that of its last page, the reply to the
      l-th RPC, or none if that page has no attributes. */
  lemma {:induction false} EndTime(m: Mounts, srv: Server, h: History, s: Scan, k: nat, n: nat) returns (l: nat)
    requires HonestTimes(srv, h) && s.next.Ask? && s.mtime == NoTime
    requires Run(m, srv, s, k, n).next == Done(Listed)
    ensures k <= l < k + n && Run(m, srv, s, k, l - k).next.Ask?
    ensures var reply := srv(l, Run(m, srv, s, k, l - k).next.request);
      && reply.Answer? && reply.page.eof
      && Run(m, srv, s, k, n).mtime == (if reply.page.mtime.Some? then h.mtime(l) else NoTime)
    decreases n
  {
    var reply := srv(k, s.next.request);
    var t := Step(m, s, reply);
    RunOn(m, srv, s, k, n);
    l := k;
    if t.next.Ask? {
      l := EndTime(m, srv, h, t, k + 1, n - 1);
      RunOn(m, srv, s, k, l - k);
    } else {
      RunOff(m, srv, t, k + 1, n - 1);
      RunOff(m, srv, s, k, 0);
      assert HonestTime(reply, h.mtime(k));
    }
  }

  /** Until a scan ends at the modification time it began with, nothing changes. */
  lemma Unchanged(m: Mounts, srv: Server, h: History, s: Scan, first: nat, k: nat, n: nat)
    requires ExactlyClocked(h) && ExactlyServed(srv, h) && s.next.Ask? && s.mtime == NoTime && first <= k
    requires var end := Run(m, srv, s, k, n); end.next == Done(Listed) && end.mtime == h.mtime(first) != NoTime
    ensures h.service(k) == h.service(first)
  {
    var l := EndTime(m, srv, h, s, k, n);
    assert NotAfter(h.mtime(first), h.mtime(k)) && NotAfter(h.mtime(k), h.mtime(l));
  }

  /** A refused READDIR ends the scan with an error. */
  lemma LateEnds(m: Mounts, srv: Server, h: History, s: Scan, first: nat, k: nat, p: nat, n: nat)
    requires ExactlyClocked(h) && ExactlyServed(srv, h) && s.mtime == NoTime && first <= k
    requires var sv := h.service(first);
      && p <= |sv.dir| && s.next == Ask(ReadDir(CookieAt(sv.dir, p), 0))
      && sv.strict && sv.verf != 0 && CookieAt(sv.dir, p) != 0
    ensures var end := Run(m, srv, s, k, n); !(end.next == Done(Listed) && end.mtime == h.mtime(first) != NoTime)
  {
    var end := Run(m, srv, s, k, n);
    if end.next == Done(Listed) && end.mtime == h.mtime(first) != NoTime {
      Unchanged(m, srv, h, s, first, k, n);
    }
    if n > 0 && h.service(k) == h.service(first) {
      var reply := srv(k, s.next.request);
      assert IsFailure(reply) || Proper(reply, s.next.request, h.service(k), p);
      RunOn(m, srv, s, k, n);
      RunOff(m, srv, Step(m, s, reply), k + 1, n - 1);
    }
  }

  lemma {:induction false} ListsFrom(m: Mounts, srv: Server, h: History, s: Scan, first: nat, k: nat, p: nat, f: nat,
                                     n: nat) returns (fell: nat)
    requires ExactlyClocked(h) && ExactlyServed(srv, h) && s.mtime == NoTime && first <= k
    requires At(m, s, h.service(first), p, f)
    requires var end := Run(m, srv, s, k, n); end.next == Done(Listed) && end.mtime == h.mtime(first) != NoTime
    ensures Holds(m, Run(m, srv, s, k, n), h.service(first).dir, |h.service(first).dir|, fell)
    decreases n
  {
    hide Holds, ExactlyServed, ExactlyClocked;
    Unchanged(m, srv, h, s, first, k, n);
    var sv, request := h.service(first), s.next.request;
    var reply := srv(k, request);
    ReplyIs(srv, h, k, request, p);
    var t := Step(m, s, reply);
    RunOn(m, srv, s, k, n);
    fell := f;
    if t.next.Done? {
      RunOff(m, srv, t, k + 1, n - 1);
    }
    if reply.NotSupported? {
      DirIsDistinct(h, first);
      FallBack(m, s, sv, p, f);
      if sv.strict && sv.verf != 0 && request.cookie != 0 {
        LateEnds(m, srv, h, t, first, k + 1, p, n - 1);
      } else {
        fell := ListsFrom(m, srv, h, t, first, k + 1, p, p, n - 1);
      }
    } else if reply.Answer? {
      DirIsDistinct(h, first);
      PageMoves(m, s, sv, p, f, reply.page);
      if !reply.page.eof {
        fell := ListsFrom(m, srv, h, t, first, k + 1, p + |reply.page.entries|, f, n - 1);
      }
    }
  }

  lemma ReplyIs(srv: Server, h: History, k: nat, request: Request, p: nat)
    requires ExactlyServed(srv, h) && p <= |h.service(k).dir| && request.cookie == CookieAt(h.service(k).dir, p)
    ensures IsFailure(srv(k, request)) || Proper(srv(k, request), request, h.service(k), p)
  {
  }

  lemma DirIsDistinct(h: History, k: nat)
    requires ExactlyClocked(h)
    ensures DistinctCookies(h.service(k).dir)
  {
  }

  /** A listing kept under the modification time that the directory had at its
      first page is the whole directory of that time, attributes included if they
      belong to what that time tells. */
  lemma ListsExactly(m: Mounts, srv: Server, h: History, first: nat, n: nat) returns (fell: nat)
    requires ExactlyClocked(h) && ExactlyServed(srv, h)
    requires var end := Run(m, srv, Start, first, n);
      end.next == Done(Listed) && end.mtime == h.mtime(first) != NoTime
    ensures Holds(m, Run(m, srv, Start, first, n), h.service(first).dir, |h.service(first).dir|, fell)
  {
    fell := ListsFrom(m, srv, h, Start, first, first, 0, |h.service(first).dir|, n);
  }

  // ----- up to attributes

  function EraseHistory(h: History): History {
    History((k: nat) => EraseService(h.service(k)), h.mtime)
  }

  /** The modification time of a directory never goes back, and tells which entries
      there are; what a file is like may change at any time. */
  ghost predicate Clocked(h: History) {
    ExactlyClocked(EraseHistory(h))
  }

  /** Every reply is right but for the attributes of entries. */
  ghost predicate ServedBy(srv: Server, h: History) {
    ExactlyServed(Erased(srv), EraseHistory(h))
  }

  /** That asks for less. */
  lemma ExactIsEnough(srv: Server, h: History)
    ensures ExactlyClocked(h) ==> Clocked(h)
    ensures ExactlyServed(srv, h) ==> ServedBy(srv, h)
  {
    if ExactlyServed(srv, h) {
      var g := EraseHistory(h);
      forall k: nat, request: Request, p: nat |
        p <= |g.service(k).dir| && request.cookie == CookieAt(g.service(k).dir, p)
        ensures IsFailure(Erased(srv)(k, request)) || Proper(Erased(srv)(k, request), request, g.service(k), p)
      {
        assert request.cookie == CookieAt(h.service(k).dir, p);
        if !IsFailure(srv(k, request)) {
          ErasedProper(srv(k, request), request, h.service(k), p);
        }
      }
      assert forall k: nat, request: Request :: HonestTime(srv(k, request), h.mtime(k)) ==>
        HonestTime(Erased(srv)(k, request), g.mtime(k));
    }
  }

  /** A listing kept under the modification time that the directory had at its
      first page has every entry of that time, once, the last first. */
  lemma ListsIfUnchanged(m: Mounts, srv: Server, h: History, first: nat, n: nat)
    requires Clocked(h) && ServedBy(srv, h)
    requires var end := Run(m, srv, Start, first, n);
      end.next == Done(Listed) && end.mtime == h.mtime(first) != NoTime
    ensures Names(Run(m, srv, Start, first, n).items, h.service(first).dir)
  {
    RunAlike(m, srv, Start, Start, first, n);
    var fell := ListsExactly(m, Erased(srv), EraseHistory(h), first, n);
    HoldsNames(m, Run(m, Erased(srv), Start, first, n), Run(m, srv, Start, first, n).items, h.service(first).dir, fell);
  }

  // ----- a directory that changes between two pages

  const X := Entry("x", 1, 1, false, NoAttr)
  const W := Entry("w", 3, 1, false, NoAttr)
  const Y := Entry("y", 2, 2, false, NoAttr)
  const Z := Entry("z", 4, 2, false, NoAttr)

  /** From the second RPC on there is w in the place of x, and z in that of y. */
  const Replaced: History :=
    History((k: nat) => Service(if k < 2 then [X, Y] else [W, Z], 0, false),
            (k: nat) => if k < 2 then Time(1, 0) else Time(2, 0))

  /** The first page has one entry, whatever follows comes in one. */
  function TwoPages(k: nat, request: Request): Reply {
    var now := Some(Replaced.mtime(k));
    if request.cookie == 0 then
      if k < 2 then Answer(Page([X], false, 0, now)) else Answer(Page([W, Z], true, 0, now))
    else if request.cookie == 1 then Answer(Page([if k < 2 then Y else Z], true, 0, now))
    else Answer(Page([], true, 0, now))
  }

  const Root: Mounts := Mounts("/", [])

  /** Its listing is kept under the time of the second page, and is not what the
      directory was at any time. */
  lemma MixedPages()
    ensures Clocked(Replaced) && ServedBy(TwoPages, Replaced)
    ensures var end := Run(Root, TwoPages, Start, 1, 2);
      && end == SecondPage() && end.next == Done(Listed) && end.mtime == Time(2, 0)
      && forall k: nat :: !Names(end.items, Replaced.service(k).dir)
  {
    TwoPagesServe();
    var one, two := FirstPage(), SecondPage();
    assert Prepend(Root, true, [X], []) == [ItemOf(Root, true, X)] by {
      assert [X][1..] == [];
    }
    assert Prepend(Root, true, [Z], one.items) == [ItemOf(Root, true, Z)] + one.items by {
      assert [Z][1..] == [];
    }
    assert Step(Root, Start, TwoPages(1, Start.next.request)) == one;
    assert Step(Root, one, TwoPages(2, one.next.request)) == two;
    RunOn(Root, TwoPages, Start, 1, 2);
    RunOn(Root, TwoPages, one, 2, 1);
    RunOff(Root, TwoPages, two, 3, 0);
    forall k: nat
      ensures !Names(two.items, Replaced.service(k).dir)
    {
      NeitherDirectory(Replaced.service(k).dir);
    }
  }

  function FirstPage(): Scan {
    Scan([ItemOf(Root, true, X)], 1, NoTime, Ask(ReadDirPlus(1, 0)))
  }

  function SecondPage(): Scan {
    Scan([ItemOf(Root, true, Z), ItemOf(Root, true, X)], 1, Time(2, 0), Done(Listed))
  }

  lemma NeitherDirectory(dir: Directory)
    requires dir == [X, Y] || dir == [W, Z]
    ensures !Names(SecondPage().items, dir)
  {
    var items := SecondPage().items;
    assert items[|dir| - 1 - 0].name == "x" && items[|dir| - 1 - 1].name == "z";
    assert dir[0].name == "x" ==> dir[1].name == "y";
  }

  lemma TwoPagesServe()
    ensures Clocked(Replaced) && ServedBy(TwoPages, Replaced)
  {
    ReplacedIsClocked();
    TwoPagesServeExactly();
    hide ExactlyClocked, ExactlyServed, Clocked, ServedBy;
    ExactIsEnough(TwoPages, Replaced);
  }

  lemma ReplacedIsClocked()
    ensures ExactlyClocked(Replaced)
  {
  }

  lemma TwoPagesServeExactly()
    ensures ExactlyServed(TwoPages, Replaced)
  {
    forall k: nat, request: Request, p: nat |
      p <= |Replaced.service(k).dir| && request.cookie == CookieAt(Replaced.service(k).dir, p)
      ensures Proper(TwoPages(k, request), request, Replaced.service(k), p)
    {
      TwoPagesProper(k, request, p);
    }
  }

  lemma TwoPagesProper(k: nat, request: Request, p: nat)
    requires p <= |Replaced.service(k).dir| && request.cookie == CookieAt(Replaced.service(k).dir, p)
    ensures Proper(TwoPages(k, request), request, Replaced.service(k), p)
  {
    var dir := Replaced.service(k).dir;
    assert dir == [X, Y] || dir == [W, Z];
    assert p == 0 || p == 1 || p == 2;
    assert CookieAt(dir, 1) == 1 && CookieAt(dir, 2) == 2;
    assert request.cookie as int == p;
    var page := TwoPages(k, request).page;
    assert forall i :: 0 <= i < |page.entries| ==> page.entries[i] == dir[p + i];
  }

  // ----- directories of one entry, sent in one page

  /** The file f grows from the second RPC on; its directory is not written to. */
  const Growing: History :=
    History((k: nat) => Service([Entry("f", 1, 1, true, Attr(1, if k < 2 then 10 else 20))], 0, false),
            (k: nat) => Time(1, 0))

  /** From the second RPC on there is w in the place of x. */
  const Renewed: History :=
    History((k: nat) => Service(if k < 2 then [X] else [W], 0, false),
            (k: nat) => if k < 2 then Time(1, 0) else Time(2, 0))

  /** Everything in one page, with or without the attributes of the directory. */
  function AtOnce(h: History, timed: bool): Server {
    (k: nat, request: Request) =>
      Answer(Page(if request.cookie == 0 then h.service(k).dir else [], true, h.service(k).verf,
                  if timed then Some(h.mtime(k)) else None))
  }

  lemma AtOnceServes(h: History, timed: bool)
    requires forall k: nat :: |h.service(k).dir| == 1 && h.service(k).dir[0].cookie == 1 && !h.service(k).strict
    ensures ServedBy(AtOnce(h, timed), h)
  {
    var srv := AtOnce(h, timed);
    forall k: nat, request: Request, p: nat | p <= |h.service(k).dir| && request.cookie == CookieAt(h.service(k).dir, p)
      ensures Proper(srv(k, request), request, h.service(k), p)
    {
      assert |h.service(k).dir| == 1 && h.service(k).dir[0].cookie == 1;
    }
    ExactIsEnough(srv, h);
  }

  lemma OneEntry(h: History, timed: bool)
    requires |h.service(1).dir| == 1
    ensures Run(Root, AtOnce(h, timed), Start, 1, 1) ==
      Scan([ItemOf(Root, true, h.service(1).dir[0])], 0, if timed then h.mtime(1) else NoTime, Done(Listed))
  {
    var srv, dir := AtOnce(h, timed), h.service(1).dir;
    assert dir == [dir[0]] && [dir[0]][1..] == [];
    assert Prepend(Root, true, dir, []) == [ItemOf(Root, true, dir[0])];
    var t := Step(Root, Start, srv(1, Start.next.request));
    RunOn(Root, srv, Start, 1, 1);
    RunOff(Root, srv, t, 2, 0);
  }

  lemma RenewedIsClocked()
    ensures Clocked(Renewed)
  {
    assert ExactlyClocked(Renewed);
    hide ExactlyClocked, ExactlyServed, Clocked, ServedBy;
    ExactIsEnough(AtOnce(Renewed, false), Renewed);
  }

  /** That a file grows is no change to its directory. */
  lemma GrowingIsClocked()
    ensures Clocked(Growing) && !ExactlyClocked(Growing)
  {
    var g := EraseHistory(Growing);
    forall i: nat
      ensures g.service(i) == Service([Entry("f", 1, 1, false, NoAttr)], 0, false)
    {
      var dir := Growing.service(i).dir;
      assert |dir| == 1 && g.service(i) == EraseService(Growing.service(i));
      assert EraseAll(dir)[0] == Erase(dir[0]) == Entry("f", 1, 1, false, NoAttr);
      assert EraseAll(dir) == [EraseAll(dir)[0]];
    }
    assert Growing.mtime(1) == Growing.mtime(2);
    assert Growing.service(1).dir[0].attr != Growing.service(2).dir[0].attr;
  }
}
