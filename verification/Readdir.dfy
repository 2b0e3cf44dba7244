/** The reference for opening a directory: READDIRPLUS page by page, READDIR from
    the current cookie once the server does not support that, and what the
    listing is against any server and against one that pages a fixed directory. */
module Readdir {
  import opened Bytes
  import opened Wrappers

  const EINTR: int := 4
  const EIO: int := 5
  const ENOMEM: int := 12
  const EFAULT: int := 14
  const EINVAL: int := 22

  /** Attributes; kind 0 means that there are none. */
  datatype Attr = Attr(kind: nat, size: nat)
  const NoAttr := Attr(0, 0)

  datatype Time = Time(seconds: nat, nseconds: nat)
  const NoTime := Time(0, 0)

  /** entryplus3; READDIR's entry3 is one whose attributes are not looked at. */
  datatype Entry = Entry(name: string, fileid: nat, cookie: uint64, hasAttr: bool, attr: Attr)

  /** A page; `mtime` is from the attributes of the directory, if it has them. */
  datatype Page = Page(entries: seq<Entry>, eof: bool, verf: uint64, mtime: Option<Time>)

  datatype Reply =
    | NotSent
    | RpcError
    | Cancelled
    | TimedOut
    | NotSupported
    | Refused(errno: int)
    | Answer(page: Page)

  datatype Request =
    | ReadDirPlus(cookie: uint64, verf: uint64)
    | ReadDir(cookie: uint64, verf: uint64)

  /** A server may answer the same request differently later on. */
  type Server = (nat, Request) -> Reply

  /** A directory entry handed to the caller. */
  datatype Item = Item(name: string, inode: nat, attr: Attr)

  /** What gives an entry its attributes when the page does not: the nested
      mounts, by path, and the path of the directory. */
  datatype Mounts = Mounts(savedPath: string, mounts: seq<(string, Attr)>)

  // ----- attributes from nested mounts

  /** The tests of the loop over the nested mounts in nfs3_opendir_cb. */
  predicate MountMatches(savedPath: string, path: string, name: string) {
    var splen := if |savedPath| == 1 then 0 else |savedPath|;
    && savedPath[..splen] <= path
    && splen < |path| && path[splen] == '/'
    && path[splen + 1..] == name
  }

  /** A nested mount lends its attributes to the entry whose path is its own. */
  lemma MountMatchesIff(savedPath: string, path: string, name: string)
    ensures MountMatches(savedPath, path, name) <==>
      path == (if |savedPath| == 1 then "" else savedPath) + "/" + name
  {
    var dir := if |savedPath| == 1 then "" else savedPath;
    if MountMatches(savedPath, path, name) {
      assert path == path[..|dir|] + [path[|dir|]] + path[|dir| + 1..];
    }
  }

  function FirstMount(m: Mounts, name: string, i: nat): Attr
    requires i <= |m.mounts|
    decreases |m.mounts| - i
  {
    if i == |m.mounts| then NoAttr
    else if MountMatches(m.savedPath, m.mounts[i].0, name) then m.mounts[i].1
    else FirstMount(m, name, i + 1)
  }

  function ItemOf(m: Mounts, plus: bool, e: Entry): Item {
    Item(e.name, e.fileid,
         if !plus then NoAttr else if e.hasAttr then e.attr else FirstMount(m, e.name, 0))
  }

  // ----- the scan

  datatype Outcome = Listed | Failed(status: int)
  datatype Next = Ask(request: Request) | Done(outcome: Outcome)

  /** The items so far, newest first, the cookie to go on from, the modification
      time of the directory once the last page is in, and what is next. */
  datatype Scan = Scan(items: seq<Item>, lastCookie: uint64, mtime: Time, next: Next)

  const Start := Scan([], 0, NoTime, Ask(ReadDirPlus(0, 0)))

  /** The items of a page in front of those before it, the last entry first. */
  function Prepend(m: Mounts, plus: bool, entries: seq<Entry>, items: seq<Item>): (r: seq<Item>)
    ensures |r| == |entries| + |items|
  {
    if entries == [] then items
    else Prepend(m, plus, entries[1..], [ItemOf(m, plus, entries[0])] + items)
  }

  function LastCookie(entries: seq<Entry>, cookie: uint64): uint64 {
    if entries == [] then cookie else entries[|entries| - 1].cookie
  }

  function TakePage(m: Mounts, s: Scan, plus: bool, page: Page): Scan {
    var items := Prepend(m, plus, page.entries, s.items);
    var cookie := LastCookie(page.entries, s.lastCookie);
    if page.eof then
      var mtime := if page.mtime.Some? then page.mtime.value else s.mtime;
      s.(items := items, mtime := mtime, next := Done(Listed))
    else if cookie == s.lastCookie then s.(items := items, next := Done(Failed(-EIO)))
    else
      s.(items := items, lastCookie := cookie,
         next := Ask(if plus then ReadDirPlus(cookie, page.verf) else ReadDir(cookie, page.verf)))
  }

  function Step(m: Mounts, s: Scan, reply: Reply): Scan
    requires s.next.Ask?
  {
    var plus := s.next.request.ReadDirPlus?;
    match reply
    case NotSent => s.(next := Done(Failed(-ENOMEM)))
    case RpcError => s.(next := Done(Failed(-EFAULT)))
    case Cancelled => s.(next := Done(Failed(-EINTR)))
    case TimedOut => s.(next := Done(Failed(-EINTR)))
    case NotSupported => s.(next := if plus then Ask(ReadDir(s.lastCookie, 0)) else Done(Failed(-EINVAL)))
    case Refused(errno) => s.(next := Done(Failed(errno)))
    case Answer(page) => TakePage(m, s, plus, page)
  }

  /** At most n replies, the next of which is the server's k-th. */
  function Run(m: Mounts, srv: Server, s: Scan, k: nat, n: nat): Scan
    decreases n
  {
    if n == 0 || s.next.Done? then s
    else Run(m, srv, Step(m, s, srv(k, s.next.request)), k + 1, n - 1)
  }

  /** The requests of such a run. */
  function Log(m: Mounts, srv: Server, s: Scan, k: nat, n: nat): seq<Request>
    decreases n
  {
    if n == 0 || s.next.Done? then []
    else [s.next.request] + Log(m, srv, Step(m, s, srv(k, s.next.request)), k + 1, n - 1)
  }

  lemma RunOn(m: Mounts, srv: Server, s: Scan, k: nat, n: nat)
    requires n > 0 && s.next.Ask?
    ensures var t := Step(m, s, srv(k, s.next.request));
      && Run(m, srv, s, k, n) == Run(m, srv, t, k + 1, n - 1)
      && Log(m, srv, s, k, n) == [s.next.request] + Log(m, srv, t, k + 1, n - 1)
  {
  }

  lemma RunOff(m: Mounts, srv: Server, s: Scan, k: nat, n: nat)
    requires n == 0 || s.next.Done?
    ensures Run(m, srv, s, k, n) == s && Log(m, srv, s, k, n) == []
  {
  }

  // ----- against any server

  /** Two requests in a row that differ: in the cookie, or in falling back to
      READDIR, which is never undone. */
  predicate Moves(a: Request, b: Request) {
    if a.ReadDirPlus? == b.ReadDirPlus? then a.cookie != b.cookie
    else a.ReadDirPlus? && a.cookie == b.cookie
  }

  ghost predicate AsksHere(s: Scan) {
    s.next.Ask? ==> s.next.request.cookie == s.lastCookie
  }

  /** Whatever the server answers, no request is ever sent twice in a row. */
  lemma {:induction false} NeverRepeats(m: Mounts, srv: Server, s: Scan, k: nat, n: nat)
    requires AsksHere(s)
    ensures var log := Log(m, srv, s, k, n);
      && (log != [] ==> s.next.Ask? && log[0] == s.next.request)
      && (forall i :: 0 <= i < |log| - 1 ==> Moves(log[i], log[i + 1]))
    decreases n
  {
    if n > 0 && s.next.Ask? {
      var t := Step(m, s, srv(k, s.next.request));
      NeverRepeats(m, srv, t, k + 1, n - 1);
      var log, rest := Log(m, srv, s, k, n), Log(m, srv, t, k + 1, n - 1);
      forall i | 0 <= i < |log| - 1
        ensures Moves(log[i], log[i + 1])
      {
        assert log[i + 1] == rest[i];
        if i > 0 {
          assert log[i] == rest[i - 1] && Moves(rest[i - 1], rest[i - 1 + 1]);
        }
      }
    }
  }

  /** The entries a page carries, each with whether it came from READDIRPLUS. */
  function EntriesOf(request: Request, reply: Reply): (r: seq<(bool, Entry)>)
    ensures |r| == if reply.Answer? then |reply.page.entries| else 0
    ensures forall i :: 0 <= i < |r| ==> r[i] == (request.ReadDirPlus?, reply.page.entries[i])
  {
    if reply.Answer? then
      var entries := reply.page.entries;
      seq(|entries|, i requires 0 <= i < |entries| => (request.ReadDirPlus?, entries[i]))
    else []
  }

  /** Every entry the server sent in such a run, in the order sent. */
  function Received(m: Mounts, srv: Server, s: Scan, k: nat, n: nat): seq<(bool, Entry)>
    decreases n
  {
    if n == 0 || s.next.Done? then []
    else
      var reply := srv(k, s.next.request);
      EntriesOf(s.next.request, reply) + Received(m, srv, Step(m, s, reply), k + 1, n - 1)
  }

  lemma {:induction false} PrependShows(m: Mounts, plus: bool, entries: seq<Entry>, items: seq<Item>)
    ensures var r := Prepend(m, plus, entries, items);
      && r[|entries|..] == items
      && (forall i :: 0 <= i < |entries| ==> r[|entries| - 1 - i] == ItemOf(m, plus, entries[i]))
  {
    if entries != [] {
      var e := ItemOf(m, plus, entries[0]);
      PrependShows(m, plus, entries[1..], [e] + items);
      var r := Prepend(m, plus, entries, items);
      assert r[|entries| - 1..] == [e] + items;
      assert r[|entries| - 1] == r[|entries| - 1..][0];
      assert r[|entries|..] == r[|entries| - 1..][1..];
      forall i | 0 <= i < |entries|
        ensures r[|entries| - 1 - i] == ItemOf(m, plus, entries[i])
      {
        if i > 0 {
          assert entries[i] == entries[1..][i - 1];
        }
      }
    }
  }

  /** The items are every entry received, each once, the last first, with the
      attributes that its own page and the nested mounts give it. */
  lemma {:induction false} NothingLost(m: Mounts, srv: Server, s: Scan, k: nat, n: nat)
    ensures Reversed(m, Run(m, srv, s, k, n).items, Received(m, srv, s, k, n), s.items)
    decreases n
  {
    hide Step, ItemOf;
    if n > 0 && s.next.Ask? {
      var reply := srv(k, s.next.request);
      var t := Step(m, s, reply);
      StepItems(m, s, reply);
      NothingLost(m, srv, t, k + 1, n - 1);
      ReversedTwice(m, Run(m, srv, t, k + 1, n - 1).items, Received(m, srv, t, k + 1, n - 1), t.items,
                    EntriesOf(s.next.request, reply), s.items);
    } else {
      assert s.items[0..] == s.items;
    }
  }

  /** `items` shows what was got, the last first, in front of those before. */
  ghost predicate Reversed(m: Mounts, items: seq<Item>, got: seq<(bool, Entry)>, before: seq<Item>) {
    && |items| == |got| + |before|
    && items[|got|..] == before
    && forall i :: 0 <= i < |got| ==> items[|got| - 1 - i] == ItemOf(m, got[i].0, got[i].1)
  }

  lemma ReversedTwice(m: Mounts, items: seq<Item>, later: seq<(bool, Entry)>, between: seq<Item>,
                      here: seq<(bool, Entry)>, before: seq<Item>)
    requires Reversed(m, items, later, between) && Reversed(m, between, here, before)
    ensures Reversed(m, items, here + later, before)
  {
    hide ItemOf;
    var got := here + later;
    assert items[|got|..] == items[|later|..][|here|..];
    forall i | 0 <= i < |got|
      ensures items[|got| - 1 - i] == ItemOf(m, got[i].0, got[i].1)
    {
      if i < |here| {
        assert items[|got| - 1 - i] == items[|later|..][|here| - 1 - i];
      } else {
        assert got[i] == later[i - |here|];
      }
    }
  }

  lemma StepItems(m: Mounts, s: Scan, reply: Reply)
    requires s.next.Ask?
    ensures Reversed(m, Step(m, s, reply).items, EntriesOf(s.next.request, reply), s.items)
  {
    if reply.Answer? {
      PrependShows(m, s.next.request.ReadDirPlus?, reply.page.entries, s.items);
    }
  }

  // ----- requests and replies

  /** The reply to `r` makes `next` the following request: a page that is not the
      last and brings the cookie forward, or no support for READDIRPLUS. */
  predicate LeadsTo(r: Request, reply: Reply, next: Request) {
    match reply
    case Answer(page) =>
      && !page.eof && page.entries != []
      && var cookie := page.entries[|page.entries| - 1].cookie;
         cookie != r.cookie && next == if r.ReadDirPlus? then ReadDirPlus(cookie, page.verf)
                                       else ReadDir(cookie, page.verf)
    case NotSupported => r.ReadDirPlus? && next == ReadDir(r.cookie, 0)
    case _ => false
  }

  /** The reply to `r` ends the scan so. */
  predicate EndsAs(r: Request, reply: Reply, outcome: Outcome) {
    match reply
    case NotSent => outcome == Failed(-12)
    case RpcError => outcome == Failed(-14)
    case Cancelled => outcome == Failed(-4)
    case TimedOut => outcome == Failed(-4)
    case NotSupported => r.ReadDir? && outcome == Failed(-22)
    case Refused(errno) => outcome == Failed(errno)
    case Answer(page) =>
      if page.eof then outcome == Listed
      else outcome == Failed(-5) && (page.entries == [] || page.entries[|page.entries| - 1].cookie == r.cookie)
  }

  /** How a scan goes, from the replies: the first request is READDIRPLUS from the
      start, each reply but the last leads to the next request, and the last ends the
      scan or leads to the request it is at. */
  ghost predicate GoesBy(srv: Server, k: nat, n: nat, first: Next, log: seq<Request>, next: Next) {
    && |log| <= n
    && (log == [] ==> next == first && (n == 0 || first.Done?))
    && (log != [] ==>
          && first == Ask(log[0])
          && (forall i :: 0 <= i < |log| - 1 ==> LeadsTo(log[i], srv(k + i, log[i]), log[i + 1]))
          && var last := |log| - 1;
             match next
             case Ask(r) => |log| == n && LeadsTo(log[last], srv(k + last, log[last]), r)
             case Done(outcome) => EndsAs(log[last], srv(k + last, log[last]), outcome))
  }

  lemma {:induction false} RunGoesBy(m: Mounts, srv: Server, s: Scan, k: nat, n: nat)
    requires AsksHere(s)
    ensures GoesBy(srv, k, n, s.next, Log(m, srv, s, k, n), Run(m, srv, s, k, n).next)
    decreases n
  {
    hide GoesBy, Step, AsksHere;
    if n > 0 && s.next.Ask? {
      var r := s.next.request;
      var t := Step(m, s, srv(k, r));
      StepGoesBy(m, s, srv(k, r));
      RunGoesBy(m, srv, t, k + 1, n - 1);
      RunOn(m, srv, s, k, n);
      GoesOnBy(srv, k, n, r, t.next, Log(m, srv, t, k + 1, n - 1), Run(m, srv, t, k + 1, n - 1).next);
    } else {
      GoesNowhere(srv, k, n, s.next);
    }
  }

  lemma GoesNowhere(srv: Server, k: nat, n: nat, next: Next)
    requires n == 0 || next.Done?
    ensures GoesBy(srv, k, n, next, [], next)
  {
  }

  /** One more request in front. */
  lemma GoesOnBy(srv: Server, k: nat, n: nat, r: Request, second: Next, rest: seq<Request>, next: Next)
    requires n > 0 && GoesBy(srv, k + 1, n - 1, second, rest, next)
    requires match second
      case Ask(q) => LeadsTo(r, srv(k, r), q)
      case Done(outcome) => EndsAs(r, srv(k, r), outcome)
    ensures GoesBy(srv, k, n, Ask(r), [r] + rest, next)
  {
    hide LeadsTo, EndsAs;
    var log := [r] + rest;
    forall i | 0 <= i < |log| - 1
      ensures LeadsTo(log[i], srv(k + i, log[i]), log[i + 1])
    {
      assert log[i + 1] == rest[i];
      if i > 0 {
        assert log[i] == rest[i - 1] && LeadsTo(rest[i - 1], srv(k + 1 + (i - 1), rest[i - 1]), rest[i]);
      }
    }
  }

  lemma StepGoesBy(m: Mounts, s: Scan, reply: Reply)
    requires s.next.Ask? && AsksHere(s)
    ensures var t := Step(m, s, reply);
      && AsksHere(t)
      && match t.next
         case Ask(r) => LeadsTo(s.next.request, reply, r)
         case Done(outcome) => EndsAs(s.next.request, reply, outcome)
  {
  }

  /** The same for a whole scan, with the modification time that is kept: that of the
      last page, or zero if it has no attributes. */
  lemma ScanGoesBy(m: Mounts, srv: Server, n: nat)
    ensures var log, end := Log(m, srv, Start, 0, n), Run(m, srv, Start, 0, n);
      && GoesBy(srv, 0, n, Ask(ReadDirPlus(0, 0)), log, end.next)
      && (end.next == Done(Listed) ==>
            var reply := srv(|log| - 1, log[|log| - 1]);
            && reply.Answer? && reply.page.eof
            && end.mtime == if reply.page.mtime.Some? then reply.page.mtime.value else Time(0, 0))
      && (end.next != Done(Listed) ==> end.mtime == Time(0, 0))
  {
    RunGoesBy(m, srv, Start, 0, n);
    RunTime(m, srv, Start, 0, n);
  }

  lemma {:induction false} RunTime(m: Mounts, srv: Server, s: Scan, k: nat, n: nat)
    requires s.next.Ask? && s.mtime == Time(0, 0)
    ensures var log, end := Log(m, srv, s, k, n), Run(m, srv, s, k, n);
      if end.next == Done(Listed) then
        log != [] &&
        var reply := srv(k + |log| - 1, log[|log| - 1]);
        && reply.Answer? && reply.page.eof
        && end.mtime == if reply.page.mtime.Some? then reply.page.mtime.value else Time(0, 0)
      else end.mtime == Time(0, 0)
    decreases n
  {
    if n > 0 {
      var t := Step(m, s, srv(k, s.next.request));
      RunOn(m, srv, s, k, n);
      if t.next.Ask? {
        RunTime(m, srv, t, k + 1, n - 1);
      } else {
        RunOff(m, srv, t, k + 1, n - 1);
      }
    }
  }

  /** An item shows the name and number of its entry, and the attributes sent with
      it; sent without any, those of the first nested mount that is mounted there. */
  lemma ItemShows(m: Mounts, plus: bool, e: Entry)
    ensures var item := ItemOf(m, plus, e);
      && item.name == e.name && item.inode == e.fileid
      && (plus && e.hasAttr ==> item.attr == e.attr)
      && (!plus ==> item.attr == Attr(0, 0))
      && (plus && !e.hasAttr ==>
            && (forall i :: 0 <= i < |m.mounts| && IsFirstAt(m, e.name, i) ==> item.attr == m.mounts[i].1)
            && ((forall i :: 0 <= i < |m.mounts| ==> !MountedAt(m, e.name, i)) ==> item.attr == Attr(0, 0)))
  {
    FirstMountIs(m, e.name, 0);
  }

  /** The i-th nested mount is mounted at that name in the directory. */
  predicate MountedAt(m: Mounts, name: string, i: nat)
    requires i < |m.mounts|
  {
    m.mounts[i].0 == (if |m.savedPath| == 1 then "" else m.savedPath) + "/" + name
  }

  predicate IsFirstAt(m: Mounts, name: string, i: nat)
    requires i < |m.mounts|
  {
    MountedAt(m, name, i) && forall j :: 0 <= j < i ==> !MountedAt(m, name, j)
  }

  lemma {:induction false} FirstMountIs(m: Mounts, name: string, from: nat)
    requires from <= |m.mounts| && forall j :: 0 <= j < from ==> !MountedAt(m, name, j)
    ensures forall i :: from <= i < |m.mounts| && IsFirstAt(m, name, i) ==>
      FirstMount(m, name, from) == m.mounts[i].1
    ensures (forall i :: from <= i < |m.mounts| ==> !MountedAt(m, name, i)) ==>
      FirstMount(m, name, from) == NoAttr
    decreases |m.mounts| - from
  {
    if from < |m.mounts| {
      MountMatchesIff(m.savedPath, m.mounts[from].0, name);
      if !MountedAt(m, name, from) {
        FirstMountIs(m, name, from + 1);
      }
    }
  }

  // ----- against a server that pages a fixed directory

  type Directory = seq<Entry>

  /** The cookie to read on from after the first p entries. */
  function CookieAt(dir: Directory, p: nat): uint64
    requires p <= |dir|
  {
    if p == 0 then 0 else dir[p - 1].cookie
  }

  ghost predicate DistinctCookies(dir: Directory) {
    && (forall i :: 0 <= i < |dir| ==> dir[i].cookie != 0)
    && (forall i, j :: 0 <= i < j < |dir| ==> dir[i].cookie != dir[j].cookie)
  }

  /** How a directory is served: `verf` is its cookie verifier, and a `strict`
      server refuses to go on from a cookie with any other. */
  datatype Service = Service(dir: Directory, verf: uint64, strict: bool)

  /** A page of entries from p on, as many as the server likes, but some unless
      it is the end, and the end only when nothing is left. */
  predicate PageFrom(page: Page, plus: bool, sv: Service, p: nat)
    requires p <= |sv.dir|
  {
    var q := p + |page.entries|;
    && q <= |sv.dir|
    && (forall i :: 0 <= i < |page.entries| ==> Same(page.entries[i], plus, sv.dir[p + i]))
    && (page.eof ==> q == |sv.dir|)
    && (!page.eof ==> p < q)
    && page.verf == sv.verf
  }

  /** READDIR sends no attributes. */
  predicate Same(e: Entry, plus: bool, d: Entry) {
    && e.name == d.name && e.fileid == d.fileid && e.cookie == d.cookie
    && (plus ==> e == d)
  }

  /** The replies such a server gives to a request that goes on at p. READDIRPLUS
      may turn out not to be supported at any time. */
  predicate Proper(reply: Reply, request: Request, sv: Service, p: nat)
    requires p <= |sv.dir|
  {
    if reply.NotSupported? then request.ReadDirPlus?
    else if sv.strict && request.cookie != 0 && request.verf != sv.verf then reply == Refused(-EIO)
    else reply.Answer? && PageFrom(reply.page, request.ReadDirPlus?, sv, p)
  }

  ghost predicate Serves(srv: Server, sv: Service) {
    forall k: nat, request: Request, p: nat :: p <= |sv.dir| && request.cookie == CookieAt(sv.dir, p) ==>
      Proper(srv(k, request), request, sv, p)
  }

  /** A reply that makes the client fall back to READDIR in mid-directory, where
      it sends the zero verifier. */
  predicate FallsBackLate(srv: Server, sv: Service, k: nat, request: Request) {
    && srv(k, request).NotSupported? && request.ReadDirPlus?
    && sv.strict && sv.verf != 0 && request.cookie != 0
  }

  /** Whether a run meets such a reply. */
  predicate MeetsLateFallback(m: Mounts, srv: Server, sv: Service, s: Scan, k: nat, n: nat)
    decreases n
  {
    n > 0 && s.next.Ask? &&
    (FallsBackLate(srv, sv, k, s.next.request)
     || MeetsLateFallback(m, srv, sv, Step(m, s, srv(k, s.next.request)), k + 1, n - 1))
  }

  /** The items are the first p entries of the directory, each once, reversed;
      those before the f-th came from READDIRPLUS, with their attributes. */
  ghost predicate Holds(m: Mounts, s: Scan, dir: Directory, p: nat, f: nat) {
    && p <= |dir| && |s.items| == p
    && forall i :: 0 <= i < p ==> s.items[p - 1 - i] == ItemOf(m, i < f, dir[i])
  }

  /** Between replies: p entries are listed and the rest is asked for, with the
      right verifier. The client has fallen back at the f-th entry, if at all. */
  ghost predicate At(m: Mounts, s: Scan, sv: Service, p: nat, f: nat) {
    && p <= |sv.dir| && Holds(m, s, sv.dir, p, f) && s.next.Ask?
    && s.lastCookie == CookieAt(sv.dir, p) == s.next.request.cookie
    && (sv.strict && p > 0 ==> s.next.request.verf == sv.verf)
    && (if s.next.request.ReadDirPlus? then f == |sv.dir| else f <= p)
  }

  lemma PageHolds(m: Mounts, s: Scan, sv: Service, p: nat, f: nat, plus: bool, page: Page)
    requires p <= |sv.dir| && Holds(m, s, sv.dir, p, f) && PageFrom(page, plus, sv, p)
    requires if plus then f == |sv.dir| else f <= p
    ensures Holds(m, TakePage(m, s, plus, page), sv.dir, p + |page.entries|, f)
  {
    var t := TakePage(m, s, plus, page);
    var n, q := |page.entries|, p + |page.entries|;
    PrependShows(m, plus, page.entries, s.items);
    hide Prepend, FirstMount;
    forall i | 0 <= i < q
      ensures t.items[q - 1 - i] == ItemOf(m, i < f, sv.dir[i])
    {
      if i < p {
        assert t.items[q - 1 - i] == t.items[n..][p - 1 - i];
      } else {
        assert Same(page.entries[i - p], plus, sv.dir[p + (i - p)]);
      }
    }
  }

  /** A page moves on, or ends the scan with the whole directory. */
  lemma PageMoves(m: Mounts, s: Scan, sv: Service, p: nat, f: nat, page: Page)
    requires DistinctCookies(sv.dir) && At(m, s, sv, p, f) && PageFrom(page, s.next.request.ReadDirPlus?, sv, p)
    ensures var t := Step(m, s, Answer(page));
      if page.eof then t.next == Done(Listed) && Holds(m, t, sv.dir, |sv.dir|, f)
      else p < p + |page.entries| && At(m, t, sv, p + |page.entries|, f)
           && t.next.request.ReadDirPlus? == s.next.request.ReadDirPlus?
  {
    PageHolds(m, s, sv, p, f, s.next.request.ReadDirPlus?, page);
    if !page.eof {
      var n := |page.entries|;
      assert Same(page.entries[n - 1], s.next.request.ReadDirPlus?, sv.dir[p + (n - 1)]);
      assert CookieAt(sv.dir, p + n) != CookieAt(sv.dir, p);
    }
  }

  /** Falling back keeps the place. */
  lemma FallBack(m: Mounts, s: Scan, sv: Service, p: nat, f: nat)
    requires At(m, s, sv, p, f) && s.next.request.ReadDirPlus?
    ensures var t := Step(m, s, NotSupported);
      && t.next == Ask(ReadDir(CookieAt(sv.dir, p), 0)) && t.lastCookie == CookieAt(sv.dir, p)
      && Holds(m, t, sv.dir, p, p)
  {
  }

  /** The directory, each entry exactly once in reverse order, within one request
      for each entry, one for the end and one for falling back; except that a
      strict server that stops supporting READDIRPLUS in mid-directory makes the
      open fail, and only then. Entries from the f-th on have no attributes. */
  lemma {:induction false} Enumerates(m: Mounts, srv: Server, sv: Service, s: Scan, k: nat, p: nat, f: nat, n: nat)
    returns (fell: nat)
    requires DistinctCookies(sv.dir) && Serves(srv, sv)
    requires At(m, s, sv, p, f)
    requires n >= |sv.dir| - p + (if s.next.request.ReadDirPlus? then 2 else 1)
    ensures var end := Run(m, srv, s, k, n);
      if MeetsLateFallback(m, srv, sv, s, k, n) then end.next == Done(Failed(-EIO))
      else end.next == Done(Listed) && Holds(m, end, sv.dir, |sv.dir|, fell)
    decreases n
  {
    hide Holds;
    var request := s.next.request;
    var reply := srv(k, request);
    fell := f;
    assert Proper(reply, request, sv, p);
    var t := Step(m, s, reply);
    if reply.NotSupported? {
      FallBack(m, s, sv, p, f);
      if FallsBackLate(srv, sv, k, request) {
        LateFallback(m, srv, sv, t, k + 1, p, n - 1);
      } else {
        fell := Enumerates(m, srv, sv, t, k + 1, p, p, n - 1);
      }
    } else {
      PageMoves(m, s, sv, p, f, reply.page);
      if !reply.page.eof {
        fell := Enumerates(m, srv, sv, t, k + 1, p + |reply.page.entries|, f, n - 1);
      } else {
        assert t.next.Done? && !MeetsLateFallback(m, srv, sv, t, k + 1, n - 1);
        assert Run(m, srv, t, k + 1, n - 1) == t;
      }
    }
  }

  lemma LateFallback(m: Mounts, srv: Server, sv: Service, s: Scan, k: nat, p: nat, n: nat)
    requires p <= |sv.dir| && Serves(srv, sv) && n > 0
    requires s.next == Ask(ReadDir(CookieAt(sv.dir, p), 0))
    requires sv.strict && sv.verf != 0 && CookieAt(sv.dir, p) != 0
    ensures Run(m, srv, s, k, n).next == Done(Failed(-EIO))
  {
    assert Proper(srv(k, s.next.request), s.next.request, sv, p);
    var t := Step(m, s, srv(k, s.next.request));
    assert Run(m, srv, t, k + 1, n - 1) == t;
  }

  /** The whole opening, from the first request. A server that does not check
      verifiers, or says at once that it does not support READDIRPLUS, is always
      listed in full. */
  lemma OpensWhole(m: Mounts, srv: Server, sv: Service) returns (fell: nat)
    requires DistinctCookies(sv.dir) && Serves(srv, sv)
    ensures var end := Run(m, srv, Start, 0, |sv.dir| + 2);
      if MeetsLateFallback(m, srv, sv, Start, 0, |sv.dir| + 2) then end.next == Done(Failed(-EIO))
      else end.next == Done(Listed) && Holds(m, end, sv.dir, |sv.dir|, fell)
    ensures !sv.strict || (forall k: nat, r: Request :: srv(k, r).NotSupported? ==> r.cookie == 0) ==>
      !MeetsLateFallback(m, srv, sv, Start, 0, |sv.dir| + 2)
  {
    fell := Enumerates(m, srv, sv, Start, 0, 0, |sv.dir|, |sv.dir| + 2);
    if !sv.strict || (forall k: nat, r: Request :: srv(k, r).NotSupported? ==> r.cookie == 0) {
      NoLateFallback(m, srv, sv, Start, 0, |sv.dir| + 2);
    }
  }

  lemma {:induction false} NoLateFallback(m: Mounts, srv: Server, sv: Service, s: Scan, k: nat, n: nat)
    requires !sv.strict || (forall k: nat, r: Request :: srv(k, r).NotSupported? ==> r.cookie == 0)
    ensures !MeetsLateFallback(m, srv, sv, s, k, n)
    decreases n
  {
    if n > 0 && s.next.Ask? {
      NoLateFallback(m, srv, sv, Step(m, s, srv(k, s.next.request)), k + 1, n - 1);
    }
  }

  // ----- up to attributes

  /** Directories, servers and listings without the attributes of their entries,
      which may change at any time. */
  function Erase(e: Entry): Entry {
    e.(hasAttr := false, attr := NoAttr)
  }

  function EraseAll(entries: seq<Entry>): (r: seq<Entry>)
    ensures |r| == |entries| && forall i :: 0 <= i < |r| ==> r[i] == Erase(entries[i])
  {
    seq(|entries|, i requires 0 <= i < |entries| => Erase(entries[i]))
  }

  function EraseReply(reply: Reply): Reply {
    if reply.Answer? then Answer(reply.page.(entries := EraseAll(reply.page.entries))) else reply
  }

  function Erased(srv: Server): Server {
    (k: nat, r: Request) => EraseReply(srv(k, r))
  }

  function EraseService(sv: Service): Service {
    sv.(dir := EraseAll(sv.dir))
  }

  predicate SameNames(a: seq<Item>, b: seq<Item>) {
    |a| == |b| && forall i :: 0 <= i < |a| ==> a[i].name == b[i].name && a[i].inode == b[i].inode
  }

  /** Scans that differ in attributes only. */
  predicate Alike(s: Scan, t: Scan) {
    s.lastCookie == t.lastCookie && s.mtime == t.mtime && s.next == t.next && SameNames(s.items, t.items)
  }

  lemma {:induction false} PrependAlike(m: Mounts, plus: bool, entries: seq<Entry>, a: seq<Item>, b: seq<Item>)
    requires SameNames(a, b)
    ensures SameNames(Prepend(m, plus, entries, a), Prepend(m, plus, EraseAll(entries), b))
  {
    if entries != [] {
      var x, y := ItemOf(m, plus, entries[0]), ItemOf(m, plus, Erase(entries[0]));
      assert EraseAll(entries)[1..] == EraseAll(entries[1..]);
      PrependAlike(m, plus, entries[1..], [x] + a, [y] + b);
    }
  }

  lemma StepAlike(m: Mounts, s: Scan, t: Scan, reply: Reply)
    requires Alike(s, t) && s.next.Ask?
    ensures Alike(Step(m, s, reply), Step(m, t, EraseReply(reply)))
  {
    if reply.Answer? {
      PrependAlike(m, s.next.request.ReadDirPlus?, reply.page.entries, s.items, t.items);
    }
  }

  /** Attributes have no influence on a scan but in the attributes of its items. */
  lemma {:induction false} RunAlike(m: Mounts, srv: Server, s: Scan, t: Scan, k: nat, n: nat)
    requires Alike(s, t)
    ensures Alike(Run(m, srv, s, k, n), Run(m, Erased(srv), t, k, n))
    decreases n
  {
    hide Step;
    if n > 0 && s.next.Ask? {
      var reply := srv(k, s.next.request);
      StepAlike(m, s, t, reply);
      RunAlike(m, srv, Step(m, s, reply), Step(m, t, EraseReply(reply)), k + 1, n - 1);
    }
  }

  lemma {:induction false} MeetsAlike(m: Mounts, srv: Server, sv: Service, s: Scan, t: Scan, k: nat, n: nat)
    requires Alike(s, t)
    ensures MeetsLateFallback(m, srv, sv, s, k, n) <==> MeetsLateFallback(m, Erased(srv), EraseService(sv), t, k, n)
    decreases n
  {
    hide Step;
    if n > 0 && s.next.Ask? {
      var reply := srv(k, s.next.request);
      StepAlike(m, s, t, reply);
      MeetsAlike(m, srv, sv, Step(m, s, reply), Step(m, t, EraseReply(reply)), k + 1, n - 1);
    }
  }

  /** The names in a directory, each once, the last first. */
  predicate Names(items: seq<Item>, dir: Directory) {
    && |items| == |dir|
    && forall i :: 0 <= i < |dir| ==>
      items[|dir| - 1 - i].name == dir[i].name && items[|dir| - 1 - i].inode == dir[i].fileid
  }

  lemma HoldsNames(m: Mounts, s: Scan, items: seq<Item>, dir: Directory, f: nat)
    requires Holds(m, s, EraseAll(dir), |dir|, f) && SameNames(items, s.items)
    ensures Names(items, dir)
  {
    forall i | 0 <= i < |dir|
      ensures items[|dir| - 1 - i].name == dir[i].name && items[|dir| - 1 - i].inode == dir[i].fileid
    {
      assert s.items[|dir| - 1 - i] == ItemOf(m, i < f, EraseAll(dir)[i]);
    }
  }

  /** A server whose names stay, while attributes come and go and change, is listed
      in full with the same exception. */
  lemma OpensNames(m: Mounts, srv: Server, sv: Service)
    requires DistinctCookies(sv.dir) && Serves(Erased(srv), EraseService(sv))
    ensures var end := Run(m, srv, Start, 0, |sv.dir| + 2);
      if MeetsLateFallback(m, srv, sv, Start, 0, |sv.dir| + 2) then end.next == Done(Failed(-EIO))
      else end.next == Done(Listed) && Names(end.items, sv.dir)
  {
    hide Run, MeetsLateFallback, Holds;
    var n := |sv.dir| + 2;
    var fell := OpensWhole(m, Erased(srv), EraseService(sv));
    RunAlike(m, srv, Start, Start, 0, n);
    MeetsAlike(m, srv, sv, Start, Start, 0, n);
    var end, erased := Run(m, srv, Start, 0, n), Run(m, Erased(srv), Start, 0, n);
    if end.next == Done(Listed) {
      HoldsNames(m, erased, end.items, sv.dir, fell);
    }
  }

  /** What a server sends exactly it also sends up to attributes. */
  lemma ErasedProper(reply: Reply, request: Request, sv: Service, p: nat)
    requires p <= |sv.dir| && Proper(reply, request, sv, p)
    ensures Proper(EraseReply(reply), request, EraseService(sv), p)
  {
    if reply.Answer? {
      var page := EraseReply(reply).page;
      assert forall i :: 0 <= i < |page.entries| ==>
        Same(reply.page.entries[i], request.ReadDirPlus?, sv.dir[p + i]) ==>
        Same(page.entries[i], request.ReadDirPlus?, EraseAll(sv.dir)[p + i]);
    }
  }

  // ----- when a scan ends

  /** A server that never lets the client get on: each page says that there is
      more and hands back one of two cookies in turn. */
  function Teasing(k: nat, request: Request): Reply {
    Answer(Page([Entry("x", 1, if request.cookie == 1 then 2 else 1, false, NoAttr)], false, 0, None))
  }

  /** So the check that the cookie moves does not end every scan: cookies that
      alternate go on for as long as one likes. */
  lemma {:induction false} MayNotEnd(m: Mounts, s: Scan, k: nat, n: nat)
    requires s.next.Ask? && AsksHere(s)
    ensures Run(m, Teasing, s, k, n).next.Ask?
    decreases n
  {
    if n > 0 {
      MayNotEnd(m, Step(m, s, Teasing(k, s.next.request)), k + 1, n - 1);
    }
  }

  /** A server whose answer to a request is always the same. */
  ghost predicate Stationary(srv: Server) {
    forall k: nat, r: Request :: srv(k, r) == srv(0, r)
  }

  ghost predicate Repeats(log: seq<Request>) {
    exists i, j :: 0 <= i < j < |log| && log[i] == log[j]
  }

  /** Cookies and verifiers have eight bytes, so there are finitely many. */
  ghost function AllRequests(): (all: set<Request>)
    ensures forall r: Request :: r in all
  {
    var plus := set c: uint64, v: uint64 :: ReadDirPlus(c, v);
    var plain := set c: uint64, v: uint64 :: ReadDir(c, v);
    assert forall r: Request :: r in plus || r in plain by {
      forall r: Request
        ensures r in plus || r in plain
      {
        assert r == ReadDirPlus(r.cookie, r.verf) || r == ReadDir(r.cookie, r.verf);
      }
    }
    plus + plain
  }

  lemma {:induction false} AtMostAll(log: seq<Request>, all: set<Request>)
    requires !Repeats(log) && forall i :: 0 <= i < |log| ==> log[i] in all
    ensures |log| <= |all|
  {
    if log != [] {
      var n := |log| - 1;
      AtMostAll(log[..n], all - {log[n]});
    }
  }

  /** One more reply. */
  lemma {:induction false} RunOneMore(m: Mounts, srv: Server, s: Scan, k: nat, n: nat)
    ensures var t := Run(m, srv, s, k, n);
      && Run(m, srv, s, k, n + 1) == (if t.next.Done? then t else Step(m, t, srv(k + n, t.next.request)))
      && Log(m, srv, s, k, n + 1) == Log(m, srv, s, k, n) + (if t.next.Done? then [] else [t.next.request])
      && (t.next.Ask? ==> |Log(m, srv, s, k, n)| == n)
      && (AsksHere(s) ==> AsksHere(t))
    decreases n
  {
    hide Step;
    if n > 0 && s.next.Ask? {
      var t := Step(m, s, srv(k, s.next.request));
      StaysHere(m, s, srv(k, s.next.request));
      RunOneMore(m, srv, t, k + 1, n - 1);
    }
  }

  lemma StaysHere(m: Mounts, s: Scan, reply: Reply)
    requires s.next.Ask?
    ensures AsksHere(s) ==> AsksHere(Step(m, s, reply))
  {
  }

  /** What comes next depends on the request and its reply alone. */
  lemma SameNext(m: Mounts, s: Scan, t: Scan, reply: Reply)
    requires AsksHere(s) && AsksHere(t) && s.next.Ask? && s.next == t.next
    ensures Step(m, s, reply).next == Step(m, t, reply).next
  {
  }

  /** From two places with the same request a scan of a stationary server goes on
      in the same way. */
  lemma {:induction false} Parallel(m: Mounts, srv: Server, s: Scan, i: nat, j: nat, d: nat)
    requires Stationary(srv) && AsksHere(s)
    requires Run(m, srv, s, 0, i).next == Run(m, srv, s, 0, j).next
    ensures Run(m, srv, s, 0, i + d).next == Run(m, srv, s, 0, j + d).next
  {
    hide Step, Run, Log;
    if d > 0 {
      Parallel(m, srv, s, i, j, d - 1);
      RunOneMore(m, srv, s, 0, i + d - 1);
      RunOneMore(m, srv, s, 0, j + d - 1);
      var a, b := Run(m, srv, s, 0, i + d - 1), Run(m, srv, s, 0, j + d - 1);
      if a.next.Ask? {
        RunOneMore(m, srv, s, 0, i + d - 1);
        assert srv(i + d - 1, a.next.request) == srv(0, a.next.request) == srv(j + d - 1, b.next.request);
        SameNext(m, a, b, srv(0, a.next.request));
      }
    }
  }

  /** The i-th request is what the scan asks for after i replies. */
  lemma {:induction false} LogAt(m: Mounts, srv: Server, s: Scan, n: nat, i: nat)
    requires i < |Log(m, srv, s, 0, n)|
    ensures i < n && Run(m, srv, s, 0, i).next == Ask(Log(m, srv, s, 0, n)[i])
  {
    hide Step, Run, Log;
    if n == 0 {
      RunOff(m, srv, s, 0, 0);
    } else {
      RunOneMore(m, srv, s, 0, n - 1);
      if i < |Log(m, srv, s, 0, n - 1)| {
        LogAt(m, srv, s, n - 1, i);
      }
    }
  }

  /** Once a request is repeated the scan never ends. */
  lemma {:induction false} RepeatGoesOn(m: Mounts, srv: Server, s: Scan, i: nat, j: nat, n: nat)
    requires Stationary(srv) && AsksHere(s) && i < j
    requires Run(m, srv, s, 0, i).next == Run(m, srv, s, 0, j).next && Run(m, srv, s, 0, j).next.Ask?
    ensures Run(m, srv, s, 0, n).next.Ask?
    decreases n
  {
    if n > j {
      Parallel(m, srv, s, i, j, n - j);
      RepeatGoesOn(m, srv, s, i, j, n - (j - i));
    } else {
      NotYet(m, srv, s, n, j);
    }
  }

  lemma {:induction false} NotYet(m: Mounts, srv: Server, s: Scan, n: nat, j: nat)
    requires n <= j && Run(m, srv, s, 0, j).next.Ask?
    ensures Run(m, srv, s, 0, n).next.Ask?
    decreases j - n
  {
    hide Step, Run, Log;
    if n < j {
      NotYet(m, srv, s, n + 1, j);
      RunOneMore(m, srv, s, 0, n);
    }
  }

  /** A scan of a server whose answers depend on the request alone ends if and
      only if it never sends the same request twice. */
  lemma EndsIff(m: Mounts, srv: Server, s: Scan)
    requires Stationary(srv) && AsksHere(s)
    ensures (exists n: nat :: Run(m, srv, s, 0, n).next.Done?) <==> (forall n: nat :: !Repeats(Log(m, srv, s, 0, n)))
    ensures (forall n: nat :: !Repeats(Log(m, srv, s, 0, n))) ==>
      Run(m, srv, s, 0, |AllRequests()| + 1).next.Done?
  {
    hide Step, Run, Log, AllRequests;
    var all := |AllRequests()| + 1;
    EndsInTime(m, srv, s);
    if n: nat :| Repeats(Log(m, srv, s, 0, n)) {
      GoesOnForEver(m, srv, s, n);
    }
  }

  lemma EndsInTime(m: Mounts, srv: Server, s: Scan)
    requires AsksHere(s)
    ensures var all := |AllRequests()| + 1; Run(m, srv, s, 0, all).next.Done? || Repeats(Log(m, srv, s, 0, all))
  {
    hide Step, Run, Log, AllRequests;
    var all := |AllRequests()| + 1;
    RunOneMore(m, srv, s, 0, all);
    if !Repeats(Log(m, srv, s, 0, all)) {
      AtMostAll(Log(m, srv, s, 0, all), AllRequests());
    }
  }

  lemma GoesOnForEver(m: Mounts, srv: Server, s: Scan, n: nat)
    requires Stationary(srv) && AsksHere(s) && Repeats(Log(m, srv, s, 0, n))
    ensures forall l: nat :: Run(m, srv, s, 0, l).next.Ask?
  {
    hide Step, Run, Log;
    var log := Log(m, srv, s, 0, n);
    var i, j :| 0 <= i < j < |log| && log[i] == log[j];
    LogAt(m, srv, s, n, i);
    LogAt(m, srv, s, n, j);
    forall l: nat
      ensures Run(m, srv, s, 0, l).next.Ask?
    {
      RepeatGoesOn(m, srv, s, i, j, l);
    }
  }
}
