/** The reference for path lookup: a resolver over lists of path components, and
    what its answers mean. The walker of LookupWalker.dfy, which works on one
    shared character buffer, is proved to send the same requests and give the
    same answer against every server. */
module Resolver {
  import opened Wrappers
  import opened CStrings
  import opened Paths

  const MAX_LINK_COUNT: nat := 40

  const ENOENT: int := 2
  const EINTR: int := 4
  const ENOMEM: int := 12
  const EFAULT: int := 14
  const ELOOP: int := 40

  type Handle = seq<int>

  /** The attributes that matter here; a reply without attributes is all zero. */
  datatype Attr = Attr(isLink: bool, seconds: nat, nseconds: nat)
  datatype Object = Object(fh: Handle, attr: Attr)

  /** The fate of one RPC: it could not be sent, it failed in transit, the
      server refused it with an error, or it was answered. */
  datatype Reply<+T> =
    | NotSent
    | RpcError
    | Cancelled
    | TimedOut
    | Refused(errno: int)
    | Answer(value: T)

  /** A server, which may answer the same request differently later on: the
      first argument counts the RPCs of this lookup. */
  datatype Server = Server(
    getattr: nat -> Reply<Attr>,
    lookup: (nat, Handle, string) -> Reply<Object>,
    readlink: (nat, Handle) -> Reply<CString>)

  datatype Request = GetAttr(fh: Handle) | Lookup(fh: Handle, name: string) | ReadLink(fh: Handle)

  /** How a lookup ends: the caller's callback with an error, or its
      continuation with the handle found. */
  datatype Outcome = Fail(status: int) | Continue(fh: Handle, attr: Option<Attr>)

  /** What stays fixed during one lookup. `continueInt` is the caller's number,
      which is also tested for O_NOFOLLOW. */
  datatype World = World(srv: Server, root: Handle, mounts: seq<Mount>, exported: CString, noFollow: bool,
                         continueInt: nat)

  /** An export mounted below the root, and where. */
  datatype Mount = Mount(path: CString, fh: Handle)

  /** On ARM; elsewhere it is another bit. */
  const O_NOFOLLOW: nat := 0x8000

  predicate HasBit(n: nat, bit: nat)
    requires bit > 0
  {
    n / bit % 2 == 1
  }

  predicate RefusesLinks(w: World) {
    HasBit(w.continueInt, O_NOFOLLOW)
  }

  datatype Run = Run(outcome: Outcome, log: seq<Request>)

  /** The callback for a reply that is no answer (check_nfs3_error, then the
      status in the result). */
  function Failure<T>(r: Reply<T>): Outcome
    requires !r.Answer?
  {
    match r
    case NotSent => Fail(-ENOMEM)
    case RpcError => Fail(-EFAULT)
    case Cancelled => Fail(-EINTR)
    case TimedOut => Fail(-EINTR)
    case Refused(e) => Fail(e)
  }

  /** The components to resolve from the root after a symbolic link: `dir` ends
      in the link, `rest` is what follows it. A relative target takes the
      link's place. An absolute one must lie in the export and replaces the
      whole path, names still to come included. */
  function Restart(exported: string, dir: seq<string>, target: string, rest: seq<string>): Option<seq<string>> {
    if target != "" && target[0] == '/' then
      if exported <= target && (target == exported || target[|exported|] == '/') then
        Fold([], Split(target[|exported|..]))
      else None
    else
      Fold([], dir + [".."] + Split(target) + rest)
  }

  /** A run that sends `r` first. */
  function Sending(r: Request, run: Run): Run {
    Run(run.outcome, [r] + run.log)
  }

  /** Resolution from a directory reached by `dir` with handle `fh`, the names
      `rest` to go, `links` links read and `k` RPCs made. */
  function Resolve(w: World, k: nat, links: nat, dir: seq<string>, rest: seq<string>,
                   fh: Handle, attr: Option<Attr>): Run
    decreases MAX_LINK_COUNT - links, |rest|, 2
  {
    var link := attr.Some? && attr.value.isLink;
    if link && RefusesLinks(w) then Run(Fail(-ELOOP), [])
    else if link && (!w.noFollow || rest != []) then FollowLink(w, k, links, dir, rest, fh)
    else NextName(w, k, links, dir, rest, fh, attr)
  }

  /** `fh` is a link to follow. */
  function FollowLink(w: World, k: nat, links: nat, dir: seq<string>, rest: seq<string>, fh: Handle): Run
    decreases MAX_LINK_COUNT - links, |rest|, 1
  {
    var r := w.srv.readlink(k, fh);
    if links >= MAX_LINK_COUNT then Run(Fail(-ELOOP), [])
    else if r.NotSent? then Run(Failure(r), [])
    else Sending(ReadLink(fh), AfterReadLink(w, k, links, dir, rest, r))
  }

  /** Looks up the next name in `fh`, or ends there. */
  function NextName(w: World, k: nat, links: nat, dir: seq<string>, rest: seq<string>,
                    fh: Handle, attr: Option<Attr>): Run
    decreases MAX_LINK_COUNT - links, |rest|, 1
  {
    if rest == [] then Run(Continue(fh, attr), [])
    else
      var r := w.srv.lookup(k, fh, rest[0]);
      if r.NotSent? then Run(Failure(r), [])
      else Sending(Lookup(fh, rest[0]), AfterLookup(w, k, links, dir + [rest[0]], rest[1..], r))
  }

  function AfterReadLink(w: World, k: nat, links: nat, dir: seq<string>, rest: seq<string>, r: Reply<CString>): Run
    requires links < MAX_LINK_COUNT
    decreases MAX_LINK_COUNT - links, |rest|, 0
  {
    if !r.Answer? then Run(Failure(r), [])
    else match Restart(w.exported, dir, r.value, rest)
      case None => Run(Fail(-ENOENT), [])
      case Some(comps) => Resolve(w, k + 1, links + 1, [], comps, w.root, None)
  }

  function AfterLookup(w: World, k: nat, links: nat, dir: seq<string>, rest: seq<string>, r: Reply<Object>): Run
    decreases MAX_LINK_COUNT - links, |rest|, 3
  {
    if !r.Answer? then Run(Failure(r), [])
    else Resolve(w, k + 1, links, dir, rest, r.value.fh, Some(r.value.attr))
  }

  /** The absolute path a lookup starts from. */
  function FullPath(path: string, cwd: string): string {
    if path == "" then cwd + "/."
    else if path[0] == '/' then path
    else cwd + "/" + path
  }

  /** An export without a final slash. */
  function WithoutSlash(s: string): string {
    if s != "" && s[|s| - 1] == '/' then s[..|s| - 1] else s
  }

  /** The path lies in a mount. */
  predicate Within(path: string, mount: string) {
    mount <= path && (path == mount || path[|mount|] == '/')
  }

  /** A path lies in a mount if it is the mount, or goes on after it with a slash. */
  lemma WithinIff(path: string, mount: string)
    ensures Within(path, mount) <==> path == mount || mount + "/" <= path
  {
    if mount <= path && path != mount {
      assert path[..|mount| + 1] == mount + [path[|mount|]];
    }
  }

  /** The export a lookup starts in and the path there. Each mount is compared
      with the path as the ones before it have left it. */
  function Select(mounts: seq<Mount>, path: string, fh: Handle, longest: nat): (string, Handle)
    decreases |mounts|
  {
    if mounts == [] then (path, fh)
    else
      var m := mounts[0];
      if |m.path| >= longest && Within(path, m.path) then
        Select(mounts[1..], path[|m.path|..], m.fh, |m.path|)
      else Select(mounts[1..], path, fh, longest)
  }

  /** The components of a path that folds. */
  function Names(path: string): seq<string> {
    if Fold([], Split(path)).Some? then Fold([], Split(path)).value else []
  }

  /** A whole lookup, or None when it is refused before any RPC. Only a path
      that normalises to "" asks for the root's attributes. */
  function LookupPath(w: World, path: string, cwd: string): Option<Run> {
    match Canonical(FullPath(path, cwd))
    case None => None
    case Some("") =>
      var r := w.srv.getattr(0);
      if r.NotSent? then None
      else Some(Sending(GetAttr(w.root), AfterGetAttr(w, r)))
    case Some(n) =>
      var (p, fh) := Select(w.mounts, n, w.root, 0);
      Some(Resolve(w, 0, 0, [], Names(p), fh, None))
  }

  function AfterGetAttr(w: World, r: Reply<Attr>): Run {
    if !r.Answer? then Run(Failure(r), [])
    else Resolve(w, 1, 0, [], [], w.root, Some(r.value))
  }

  // ----- which export a lookup starts in

  /** A path in normal form, with its components. */
  ghost predicate Normal(path: string, cs: seq<string>) {
    AllProper(cs) && (path == Join(cs) || (path == "/" && cs == []))
  }

  lemma NamesOfNormal(path: string, cs: seq<string>)
    requires Normal(path, cs)
    ensures Names(path) == cs
  {
    NormalForm(cs);
    SplitRoot();
  }

  /** What is left of a path in normal form below a mount is in normal form. */
  lemma BelowMount(path: string, cs: seq<string>, mount: string) returns (ds: seq<string>)
    requires Normal(path, cs) && Within(path, mount)
    ensures Normal(path[|mount|..], ds)
  {
    var below := path[|mount|..];
    ds := [];
    if below != "" && path != "/" {
      var q := below[1..];
      assert path == mount + "/" + q;
      SplitAt(mount, q);
      SplitJoin(cs);
      var n, all := |Split(mount)|, [""] + cs;
      assert Split(path) == all == Split(mount) + Split(q);
      assert |Split(mount)| > 0 && |Split(q)| > 0;
      ds := cs[n - 1..];
      assert Split(q) == all[n..] == ds;
      JoinSplit(q);
    } else if below != "" {
      assert mount == "" && below == path;
    }
  }

  lemma SelectStep(mounts: seq<Mount>, i: nat, path: string, fh: Handle, longest: nat)
    requires i < |mounts|
    ensures var m := mounts[i];
      Select(mounts[i..], path, fh, longest) ==
      if |m.path| >= longest && Within(path, m.path) then Select(mounts[i + 1..], path[|m.path|..], m.fh, |m.path|)
      else Select(mounts[i + 1..], path, fh, longest)
  {
    assert mounts[i..][1..] == mounts[i + 1..];
  }

  lemma {:induction false} SelectNormal(mounts: seq<Mount>, path: string, cs: seq<string>, fh: Handle, longest: nat)
    returns (ds: seq<string>)
    requires Normal(path, cs)
    ensures Normal(Select(mounts, path, fh, longest).0, ds)
    decreases |mounts|
  {
    ds := cs;
    if mounts != [] {
      var m := mounts[0];
      if |m.path| >= longest && Within(path, m.path) {
        ds := BelowMount(path, cs, m.path);
        ds := SelectNormal(mounts[1..], path[|m.path|..], ds, m.fh, |m.path|);
      } else {
        ds := SelectNormal(mounts[1..], path, cs, fh, longest);
      }
    }
  }

  /** The first mount that the path lies in, if any. */
  function FirstWithin(mounts: seq<Mount>, path: string): (r: nat)
    ensures r <= |mounts|
    ensures r < |mounts| ==> Within(path, mounts[r].path)
    ensures forall i :: 0 <= i < r ==> !Within(path, mounts[i].path)
  {
    if mounts == [] || Within(path, mounts[0].path) then 0 else 1 + FirstWithin(mounts[1..], path)
  }

  /** A later mount, not shorter, that what is left of the path lies in. */
  predicate Misled(mounts: seq<Mount>, path: string, longest: nat) {
    exists i :: 0 <= i < |mounts| && |mounts[i].path| >= longest && Within(path, mounts[i].path)
  }

  /** Although the longest matching mount is meant to be chosen, it is the first
      one in the list, or, where what is left of the path happens to lie in a later
      one that is not shorter, that or a still later one, and with a path that was
      cut at both. */
  lemma {:induction false} SelectIs(mounts: seq<Mount>, path: string, root: Handle)
    ensures var i := FirstWithin(mounts, path);
      if i == |mounts| then Select(mounts, path, root, 0) == (path, root)
      else
        var m := mounts[i];
        var (rest, fh) := Select(mounts, path, root, 0);
        && (!Misled(mounts[i + 1..], path[|m.path|..], |m.path|) ==> rest == path[|m.path|..] && fh == m.fh)
        && (Misled(mounts[i + 1..], path[|m.path|..], |m.path|) ==>
              exists j :: i < j < |mounts| && fh == mounts[j].fh && |rest| + |mounts[j].path| + |m.path| <= |path|)
    decreases |mounts|
  {
    if mounts != [] {
      var m := mounts[0];
      if Within(path, m.path) {
        AfterFirst(mounts[1..], path[|m.path|..], m.fh, |m.path|);
        if Misled(mounts[1..], path[|m.path|..], |m.path|) {
          var j := MisledTo(mounts[1..], path[|m.path|..], m.fh, |m.path|);
          assert mounts[j + 1] == mounts[1..][j];
        }
      } else {
        SelectIs(mounts[1..], path, root);
        SelectLater(mounts, path, root);
      }
    }
  }

  /** A first mount that the path does not lie in makes no difference. */
  lemma SelectLater(mounts: seq<Mount>, path: string, root: Handle)
    requires mounts != [] && !Within(path, mounts[0].path)
    ensures FirstWithin(mounts, path) == 1 + FirstWithin(mounts[1..], path)
    ensures Select(mounts, path, root, 0) == Select(mounts[1..], path, root, 0)
    ensures var i := FirstWithin(mounts[1..], path);
      i < |mounts[1..]| ==> mounts[i + 2..] == mounts[1..][i + 1..] && mounts[i + 1] == mounts[1..][i]
    ensures forall j :: 0 <= j < |mounts[1..]| ==> mounts[1..][j] == mounts[j + 1]
  {
  }

  lemma {:induction false} AfterFirst(mounts: seq<Mount>, path: string, fh: Handle, longest: nat)
    ensures var (rest, g) := Select(mounts, path, fh, longest);
      && |rest| <= |path|
      && (!Misled(mounts, path, longest) ==> rest == path && g == fh)
      && (Misled(mounts, path, longest) && longest > 0 ==> |rest| < |path|)
    decreases |mounts|
  {
    if mounts != [] {
      var m := mounts[0];
      var rest := mounts[1..];
      if |m.path| >= longest && Within(path, m.path) {
        AfterFirst(rest, path[|m.path|..], m.fh, |m.path|);
      } else {
        AfterFirst(rest, path, fh, longest);
        assert forall i :: 0 <= i < |rest| ==> rest[i] == mounts[i + 1];
        assert Misled(mounts, path, longest) <==> Misled(rest, path, longest);
      }
    }
  }

  /** The path lies in the i-th mount and in none that is longer. */
  predicate IsLongest(mounts: seq<Mount>, path: string, i: nat) {
    && i < |mounts| && Within(path, mounts[i].path)
    && forall j :: 0 <= j < |mounts| && Within(path, mounts[j].path) ==> |mounts[j].path| <= |mounts[i].path|
  }

  /** A longest mount and the path below it, or the root if there is none. */
  predicate IsBest(mounts: seq<Mount>, path: string, root: Handle, choice: (string, Handle)) {
    || (choice == (path, root) && forall j :: 0 <= j < |mounts| ==> !Within(path, mounts[j].path))
    || exists i :: 0 <= i < |mounts| && IsLongest(mounts, path, i)
                   && choice == (path[|mounts[i].path|..], mounts[i].fh)
  }

  /** The first mount in the list that the path lies in is a longest one, and what
      is left of the path lies in no later one that is not shorter. */
  predicate WellOrdered(mounts: seq<Mount>, path: string) {
    var i := FirstWithin(mounts, path);
    i < |mounts| ==>
      var m := mounts[i];
      IsLongest(mounts, path, i) && !Misled(mounts[i + 1..], path[|m.path|..], |m.path|)
  }

  lemma {:induction false} MisledTo(mounts: seq<Mount>, path: string, fh: Handle, longest: nat) returns (j: nat)
    requires Misled(mounts, path, longest)
    ensures j < |mounts| && Select(mounts, path, fh, longest).1 == mounts[j].fh
    ensures |Select(mounts, path, fh, longest).0| + |mounts[j].path| <= |path|
    decreases |mounts|
  {
    var m, rest := mounts[0], mounts[1..];
    if |m.path| >= longest && Within(path, m.path) {
      AfterFirst(rest, path[|m.path|..], m.fh, |m.path|);
      j := 0;
      if Misled(rest, path[|m.path|..], |m.path|) {
        j := MisledTo(rest, path[|m.path|..], m.fh, |m.path|);
        j := j + 1;
      }
    } else {
      assert forall i :: 0 <= i < |rest| ==> rest[i] == mounts[i + 1];
      j := MisledTo(rest, path, fh, longest);
      j := j + 1;
    }
  }

  lemma {:induction false} SelectFrom(mounts: seq<Mount>, path: string, root: Handle)
    requires FirstWithin(mounts, path) < |mounts|
    ensures var i := FirstWithin(mounts, path);
      var m := mounts[i];
      Select(mounts, path, root, 0) == Select(mounts[i + 1..], path[|m.path|..], m.fh, |m.path|)
    decreases |mounts|
  {
    if !Within(path, mounts[0].path) {
      SelectFrom(mounts[1..], path, root);
      var i := FirstWithin(mounts[1..], path);
      assert mounts[i + 2..] == mounts[1..][i + 1..] && mounts[i + 1] == mounts[1..][i];
    }
  }

  /** The longest mount is chosen exactly where the list is in order for the path. */
  lemma SelectIsLongest(mounts: seq<Mount>, path: string, root: Handle)
    requires forall i :: 0 <= i < |mounts| ==> mounts[i].path != ""
    requires forall i, j :: 0 <= i < j < |mounts| ==> mounts[i].fh != mounts[j].fh
    ensures IsBest(mounts, path, root, Select(mounts, path, root, 0)) <==> WellOrdered(mounts, path)
  {
    hide Within, Select, FirstWithin;
    SelectIs(mounts, path, root);
    if FirstWithin(mounts, path) < |mounts| {
      ChoiceIsLongest(mounts, path, root);
    }
  }

  lemma ChoiceIsLongest(mounts: seq<Mount>, path: string, root: Handle)
    requires forall i :: 0 <= i < |mounts| ==> mounts[i].path != ""
    requires forall i, j :: 0 <= i < j < |mounts| ==> mounts[i].fh != mounts[j].fh
    requires FirstWithin(mounts, path) < |mounts|
    ensures IsBest(mounts, path, root, Select(mounts, path, root, 0)) <==> WellOrdered(mounts, path)
  {
    var i := FirstWithin(mounts, path);
    var m := mounts[i];
    assert |m.path| <= |path|;
    hide Select, FirstWithin, Within, IsLongest, IsBest, Misled;
    var rest, below := mounts[i + 1..], path[|m.path|..];
    assert WellOrdered(mounts, path) <==> IsLongest(mounts, path, i) && !Misled(rest, below, |m.path|);
    SelectFrom(mounts, path, root);
    if Misled(rest, below, |m.path|) {
      MisledIsNotBest(mounts, path, root, i);
    } else {
      AfterFirst(rest, below, m.fh, |m.path|);
      if IsLongest(mounts, path, i) {
        ItIsBest(mounts, path, root, i);
      } else {
        NotLongest(mounts, path, root, i);
      }
    }
  }

  lemma MisledIsNotBest(mounts: seq<Mount>, path: string, root: Handle, i: nat)
    requires forall i, j :: 0 <= i < j < |mounts| ==> mounts[i].fh != mounts[j].fh
    requires i < |mounts| && mounts[i].path != "" && Within(path, mounts[i].path)
    requires var m := mounts[i]; Misled(mounts[i + 1..], path[|m.path|..], |m.path|)
    ensures var m := mounts[i];
      !IsBest(mounts, path, root, Select(mounts[i + 1..], path[|m.path|..], m.fh, |m.path|))
  {
    var m := mounts[i];
    assert |m.path| <= |path|;
    hide Select, Within, IsLongest, IsBest, Misled;
    var rest, below := mounts[i + 1..], path[|m.path|..];
    var j := MisledTo(rest, below, m.fh, |m.path|);
    NotBest(mounts, path, root, i + 1 + j);
    assert rest[j] == mounts[i + 1 + j];
  }

  lemma ItIsBest(mounts: seq<Mount>, path: string, root: Handle, i: nat)
    requires IsLongest(mounts, path, i)
    ensures IsBest(mounts, path, root, (path[|mounts[i].path|..], mounts[i].fh))
  {
  }

  lemma NotBest(mounts: seq<Mount>, path: string, root: Handle, j: nat)
    requires forall i, j :: 0 <= i < j < |mounts| ==> mounts[i].fh != mounts[j].fh
    requires j < |mounts| && exists i :: 0 <= i < |mounts| && Within(path, mounts[i].path)
    ensures forall rest :: |rest| + |mounts[j].path| < |path| ==> !IsBest(mounts, path, root, (rest, mounts[j].fh))
  {
  }

  lemma NotLongest(mounts: seq<Mount>, path: string, root: Handle, i: nat)
    requires forall i, j :: 0 <= i < j < |mounts| ==> mounts[i].fh != mounts[j].fh
    requires i < |mounts| && Within(path, mounts[i].path) && !IsLongest(mounts, path, i)
    ensures !IsBest(mounts, path, root, (path[|mounts[i].path|..], mounts[i].fh))
  {
  }

  /** Two nested mounts in the wrong order, and two that are not nested at all. */
  lemma WrongExport(a: Handle, b: Handle)
    ensures Select([Mount("/a", a), Mount("/a/b", b)], "/a/b/c", [], 0) == ("/b/c", a)
    ensures Select([Mount("/a", a), Mount("/b", b)], "/a/b/x", [], 0) == ("/x", b)
  {
    var m, n := [Mount("/a", a), Mount("/a/b", b)], [Mount("/a", a), Mount("/b", b)];
    assert m[1..] == [Mount("/a/b", b)] && m[1..][1..] == [];
    assert n[1..] == [Mount("/b", b)] && n[1..][1..] == [];
    var p, q := "/a/b/c", "/a/b/x";
    assert p[..2] == "/a" && p[2] == '/' && p[2..] == "/b/c" && Within(p, "/a");
    assert q[..2] == "/a" && q[2] == '/' && q[2..] == "/b/x" && Within(q, "/a");
    assert "/b/c"[1] != "/a/b"[1] && !Within("/b/c", "/a/b");
    assert "/b/x"[..2] == "/b" && "/b/x"[2..] == "/x" && Within("/b/x", "/b");
    assert Select(m, p, [], 0) == Select(m[1..], "/b/c", a, 2) == Select(m[1..][1..], "/b/c", a, 2);
    assert Select(n, q, [], 0) == Select(n[1..], "/b/x", a, 2) == Select(n[1..][1..], "/x", b, 2);
  }

  // ----- how much a lookup sends

  function LinksRead(log: seq<Request>): nat {
    if log == [] then 0 else (if log[0].ReadLink? then 1 else 0) + LinksRead(log[1..])
  }

  lemma LinksReadSending(r: Request, run: Run)
    ensures LinksRead(Sending(r, run).log) == (if r.ReadLink? then 1 else 0) + LinksRead(run.log)
  {
    assert ([r] + run.log)[1..] == run.log;
  }

  /** Whatever the server answers, link cycles included, at most MAX_LINK_COUNT
      links are read; under O_NOFOLLOW none is. */
  lemma {:induction false} LinksBounded(w: World, k: nat, links: nat, dir: seq<string>, rest: seq<string>,
                                        fh: Handle, attr: Option<Attr>)
    requires links <= MAX_LINK_COUNT
    ensures LinksRead(Resolve(w, k, links, dir, rest, fh, attr).log) <= MAX_LINK_COUNT - links
    ensures RefusesLinks(w) ==> LinksRead(Resolve(w, k, links, dir, rest, fh, attr).log) == 0
    decreases MAX_LINK_COUNT - links, |rest|
  {
    if attr.Some? && attr.value.isLink && (RefusesLinks(w) || !w.noFollow || rest != []) {
      var r := w.srv.readlink(k, fh);
      if !RefusesLinks(w) && links < MAX_LINK_COUNT && !r.NotSent? {
        LinksReadSending(ReadLink(fh), AfterReadLink(w, k, links, dir, rest, r));
        if r.Answer? && Restart(w.exported, dir, r.value, rest).Some? {
          LinksBounded(w, k + 1, links + 1, [], Restart(w.exported, dir, r.value, rest).value, w.root, None);
        }
      }
    } else if rest != [] {
      var r := w.srv.lookup(k, fh, rest[0]);
      if !r.NotSent? {
        LinksReadSending(Lookup(fh, rest[0]), AfterLookup(w, k, links, dir + [rest[0]], rest[1..], r));
        if r.Answer? {
          LinksBounded(w, k + 1, links, dir + [rest[0]], rest[1..], r.value.fh, Some(r.value.attr));
        }
      }
    }
  }

  /** The bound is reached: where every name is a link to a name beside it, the
      walk reads exactly that many links and gives up with ELOOP. */
  lemma {:induction false} LinkCycle(w: World, k: nat, links: nat, name: string, target: string, self: Handle)
    requires links <= MAX_LINK_COUNT && Proper(name) && Proper(target)
    requires !RefusesLinks(w) && !w.noFollow
    requires forall j, d, n :: w.srv.lookup(j, d, n) == Answer(Object(self, Attr(true, 0, 0)))
    requires forall j :: w.srv.readlink(j, self) == Answer(target)
    ensures var run := Resolve(w, k, links, [], [name], w.root, None);
      run.outcome == Fail(-ELOOP) && LinksRead(run.log) == MAX_LINK_COUNT - links
    decreases MAX_LINK_COUNT - links
  {
    hide Fold, Split, Restart;
    var found := Resolve(w, k + 1, links, [name], [], self, Some(Attr(true, 0, 0)));
    OneName(w, k, links, name, self);
    LinksReadSending(Lookup(w.root, name), found);
    if links < MAX_LINK_COUNT {
      var next := Resolve(w, k + 2, links + 1, [], [target], w.root, None);
      TargetBeside(w.exported, name, target);
      assert w.srv.readlink(k + 1, self) == Answer(target);
      assert found == Sending(ReadLink(self), next);
      LinksReadSending(ReadLink(self), next);
      LinkCycle(w, k + 2, links + 1, target, target, self);
    }
  }

  lemma OneName(w: World, k: nat, links: nat, name: string, self: Handle)
    requires links <= MAX_LINK_COUNT && !RefusesLinks(w) && !w.noFollow
    requires w.srv.lookup(k, w.root, name) == Answer(Object(self, Attr(true, 0, 0)))
    ensures var found := Resolve(w, k + 1, links, [name], [], self, Some(Attr(true, 0, 0)));
      && Resolve(w, k, links, [], [name], w.root, None) == Sending(Lookup(w.root, name), found)
      && found == FollowLink(w, k + 1, links, [name], [], self)
  {
    var reply := w.srv.lookup(k, w.root, name);
    assert [] + [name] == [name] && [name][1..] == [];
    assert Resolve(w, k, links, [], [name], w.root, None) == NextName(w, k, links, [], [name], w.root, None);
    assert NextName(w, k, links, [], [name], w.root, None) ==
           Sending(Lookup(w.root, name), AfterLookup(w, k, links, [name], [], reply));
  }

  lemma TargetBeside(exported: string, name: string, target: string)
    requires Proper(name) && Proper(target)
    ensures Restart(exported, [name], target, []) == Some([target])
  {
    DirectoryOfLink([name], target, []);
    SplitOne(target);
    assert [target] + [] == [target] && [name][..0] == [];
    FoldProper([], [target]);
    assert [] + [target] == [target];
  }

  // ----- what a link's target means

  /** A relative target is taken from the link's directory. */
  lemma DirectoryOfLink(dir: seq<string>, target: string, rest: seq<string>)
    requires AllProper(dir) && dir != []
    requires target == "" || target[0] != '/'
    ensures forall exported :: Restart(exported, dir, target, rest) == Fold(dir[..|dir| - 1], Split(target) + rest)
  {
    var tail := Split(target) + rest;
    assert dir + [".."] + Split(target) + rest == dir + ([".."] + tail);
    FoldSeq([], dir, [".."] + tail);
    FoldProper([], dir);
    assert [] + dir == dir && ([".."] + tail)[1..] == tail;
  }

  lemma RestartProper(exported: string, dir: seq<string>, target: CString, rest: seq<string>)
    requires AllProper(dir) && AllProper(rest) && Restart(exported, dir, target, rest).Some?
    ensures AllProper(Restart(exported, dir, target, rest).value)
  {
    var absolute := target != "" && target[0] == '/';
    var tail := if absolute then target[|exported|..] else target;
    SplitPieces(tail);
    FoldYieldsProper([], if absolute then Split(tail) else dir + [".."] + Split(tail) + rest);
  }

  // ----- when a link is refused

  /** At a link that is to be followed, inside the path or at its end, a lookup
      gives up with ELOOP before any RPC exactly if the caller's number has the
      bit of O_NOFOLLOW, or the links are used up. */
  lemma LinkRefusedIff(w: World, k: nat, links: nat, dir: seq<string>, rest: seq<string>, fh: Handle, attr: Attr)
    requires attr.isLink && (!w.noFollow || rest != []) && !w.srv.readlink(k, fh).NotSent?
    ensures Resolve(w, k, links, dir, rest, fh, Some(attr)) == Run(Fail(-ELOOP), []) <==>
      RefusesLinks(w) || links >= MAX_LINK_COUNT
  {
  }

  /** The callers that pass a number of their own. */
  datatype Caller =
    | Open(flags: nat)
    | Truncate(length: nat)
    | Chmod(mode: nat)
    | MkDir(mode: nat)
    | Access(mode: nat)     // of R_OK, W_OK and X_OK
    | StatVfs64
    | Other

  function ContinueInt(c: Caller): nat {
    match c
    case Open(flags) => flags
    case Truncate(length) => length
    case Chmod(mode) => mode
    case MkDir(mode) => mode
    case Access(mode) => mode % 8
    case StatVfs64 => 1
    case Other => 0
  }

  /** Besides an open with O_NOFOLLOW only these have links refused: truncating to
      a length, and changing or making a mode, with that bit. */
  lemma CallerRefuses(w: World, c: Caller)
    requires w.continueInt == ContinueInt(c)
    ensures RefusesLinks(w) <==>
      match c
      case Open(flags) => HasBit(flags, O_NOFOLLOW)
      case Truncate(length) => length % 0x10000 >= 0x8000
      case Chmod(mode) => mode % 0x10000 >= 0x8000
      case MkDir(mode) => mode % 0x10000 >= 0x8000
      case _ => false
  {
    var n := w.continueInt;
    assert n == n / 0x8000 * 0x8000 + n % 0x8000 && n / 0x8000 == n / 0x1_0000 * 2 + n / 0x8000 % 2;
  }

  // ----- what the answer means

  /** A server whose answers do not change during the lookup. */
  ghost predicate Fixed(srv: Server) {
    && (forall j, d, n :: srv.lookup(j, d, n) == srv.lookup(0, d, n))
    && (forall j, l :: srv.readlink(j, l) == srv.readlink(0, l))
  }

  /** Plain lookups of `names` one after the other, none of them through a
      link: what they arrive at, if they all succeed. */
  function Descend(srv: Server, fh: Handle, attr: Option<Attr>, names: seq<string>): Option<(Handle, Option<Attr>)>
    decreases |names|
  {
    if names == [] then Some((fh, attr))
    else if attr.Some? && attr.value.isLink then None
    else match srv.lookup(0, fh, names[0])
      case Answer(o) => Descend(srv, o.fh, Some(o.attr), names[1..])
      case _ => None
  }

  lemma {:induction false} DescendOne(srv: Server, fh: Handle, attr: Option<Attr>, names: seq<string>, last: string)
    requires Descend(srv, fh, attr, names).Some?
    ensures var at := Descend(srv, fh, attr, names).value;
      !(at.1.Some? && at.1.value.isLink) && srv.lookup(0, at.0, last).Answer? ==>
        var o := srv.lookup(0, at.0, last).value;
        Descend(srv, fh, attr, names + [last]) == Some((o.fh, Some(o.attr)))
    decreases |names|
  {
    if names == [] {
      assert names + [last] == [last];
    } else {
      var o := srv.lookup(0, fh, names[0]).value;
      DescendOne(srv, o.fh, Some(o.attr), names[1..], last);
      assert (names + [last])[1..] == names[1..] + [last];
    }
  }

  /** A walk goes on after a link exactly when it may read it and the target
      can be resolved ... */
  lemma LinkStep(w: World, k: nat, links: nat, dir: seq<string>, rest: seq<string>, fh: Handle)
    ensures var o, r := FollowLink(w, k, links, dir, rest, fh).outcome, w.srv.readlink(k, fh);
      if links < MAX_LINK_COUNT && r.Answer? && Restart(w.exported, dir, r.value, rest).Some? then
        o == Resolve(w, k + 1, links + 1, [], Restart(w.exported, dir, r.value, rest).value, w.root, None).outcome
      else o.Fail?
  {
    hide Restart, Resolve;
  }

  /** ... and after a name exactly when the server finds it. */
  lemma NameStep(w: World, k: nat, links: nat, dir: seq<string>, rest: seq<string>, fh: Handle, attr: Option<Attr>)
    requires rest != []
    ensures var o, r := NextName(w, k, links, dir, rest, fh, attr).outcome, w.srv.lookup(k, fh, rest[0]);
      if r.Answer? then
        o == Resolve(w, k + 1, links, dir + [rest[0]], rest[1..], r.value.fh, Some(r.value.attr)).outcome
      else o.Fail?
  {
    hide Resolve;
    var r := w.srv.lookup(k, fh, rest[0]);
    var run := AfterLookup(w, k, links, dir + [rest[0]], rest[1..], r);
    assert run.outcome.Fail? || r.Answer?;
  }

  /** From a handle on, a successful walk in a fixed namespace ends where plain
      lookups of some link-free path also end, from that handle or, once a link was
      followed, from the root; and it hands over a link itself only if told not to
      follow the last component. */
  lemma {:induction false} AnswerIsReachable(w: World, k: nat, links: nat, start: Handle, startAttr: Option<Attr>,
                                             dir: seq<string>, rest: seq<string>, fh: Handle, attr: Option<Attr>)
    returns (origin: Handle, originAttr: Option<Attr>, names: seq<string>)
    requires Fixed(w.srv)
    requires Descend(w.srv, start, startAttr, dir) == Some((fh, attr))
    requires Resolve(w, k, links, dir, rest, fh, attr).outcome.Continue?
    ensures (origin == start && originAttr == startAttr) || (origin == w.root && originAttr == None)
    ensures var o := Resolve(w, k, links, dir, rest, fh, attr).outcome;
      && Descend(w.srv, origin, originAttr, names) == Some((o.fh, o.attr))
      && (o.attr.Some? && o.attr.value.isLink ==> w.noFollow && !RefusesLinks(w))
    decreases MAX_LINK_COUNT - links, |rest|
  {
    hide FollowLink, Restart, AfterLookup, AfterReadLink;
    origin, originAttr, names := start, startAttr, dir;
    if attr.Some? && attr.value.isLink && (!w.noFollow || rest != []) {
      LinkStep(w, k, links, dir, rest, fh);
      var comps := Restart(w.exported, dir, w.srv.readlink(k, fh).value, rest).value;
      origin, originAttr, names := AnswerIsReachable(w, k + 1, links + 1, w.root, None, [], comps, w.root, None);
    } else if rest != [] {
      NameStep(w, k, links, dir, rest, fh, attr);
      var o := w.srv.lookup(k, fh, rest[0]).value;
      assert w.srv.lookup(k, fh, rest[0]) == w.srv.lookup(0, fh, rest[0]);
      DescendOne(w.srv, start, startAttr, dir, rest[0]);
      origin, originAttr, names :=
        AnswerIsReachable(w, k + 1, links, start, startAttr, dir + [rest[0]], rest[1..], o.fh, Some(o.attr));
    }
  }

  /** Where a lookup may begin: at the root, whose attributes it may have asked for,
      or at a nested export. */
  predicate IsOrigin(w: World, fh: Handle, attr: Option<Attr>) {
    || (fh == w.root && attr.Some? && w.srv.getattr(0) == Answer(attr.value))
    || (attr == None && (fh == w.root || exists i :: 0 <= i < |w.mounts| && w.mounts[i].fh == fh))
  }

  lemma {:induction false} SelectOrigin(mounts: seq<Mount>, path: string, fh: Handle, longest: nat)
    ensures var g := Select(mounts, path, fh, longest).1;
      g == fh || exists i :: 0 <= i < |mounts| && mounts[i].fh == g
    decreases |mounts|
  {
    if mounts != [] {
      var m, rest := mounts[0], mounts[1..];
      assert forall i :: 0 <= i < |rest| ==> rest[i] == mounts[i + 1];
      if |m.path| >= longest && Within(path, m.path) {
        SelectOrigin(rest, path[|m.path|..], m.fh, |m.path|);
      } else {
        SelectOrigin(rest, path, fh, longest);
      }
    }
  }

  /** So a whole lookup that succeeds ends where a link-free chain of lookups from
      the root or from a nested export ends. */
  lemma LookupIsReachable(w: World, path: string, cwd: string)
    returns (origin: Handle, originAttr: Option<Attr>, names: seq<string>)
    requires Fixed(w.srv) && LookupPath(w, path, cwd).Some? && LookupPath(w, path, cwd).value.outcome.Continue?
    ensures IsOrigin(w, origin, originAttr)
    ensures var o := LookupPath(w, path, cwd).value.outcome;
      && Descend(w.srv, origin, originAttr, names) == Some((o.fh, o.attr))
      && (o.attr.Some? && o.attr.value.isLink ==> w.noFollow && !RefusesLinks(w))
  {
    hide Resolve, Descend, Fold, Split;
    var n := Canonical(FullPath(path, cwd)).value;
    if n == "" {
      var attr := Some(w.srv.getattr(0).value);
      DescendNone(w.srv, w.root, attr);
      origin, originAttr, names := AnswerIsReachable(w, 1, 0, w.root, attr, [], [], w.root, attr);
    } else {
      var (p, fh) := Select(w.mounts, n, w.root, 0);
      SelectOrigin(w.mounts, n, w.root, 0);
      DescendNone(w.srv, fh, None);
      origin, originAttr, names := AnswerIsReachable(w, 0, 0, fh, None, [], Names(p), fh, None);
    }
  }

  lemma DescendNone(srv: Server, fh: Handle, attr: Option<Attr>)
    ensures Descend(srv, fh, attr, []) == Some((fh, attr))
  {
  }
}
