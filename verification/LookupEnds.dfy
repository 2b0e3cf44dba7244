/** Which RPCs a lookup makes and how it ends, read from what the server replies;
    the numbers are those of errno.h. */
module LookupEnds {
  import opened Wrappers
  import opened CStrings
  import opened Paths
  import opened Resolver

  // ----- the end

  /** The j-th RPC of the lookup was answered. */
  predicate Answered(srv: Server, j: nat, r: Request) {
    match r
    case GetAttr(_) => srv.getattr(j).Answer?
    case Lookup(d, name) => srv.lookup(j, d, name).Answer?
    case ReadLink(l) => srv.readlink(j, l).Answer?
  }

  predicate Unsent(srv: Server, j: nat, r: Request) {
    match r
    case GetAttr(_) => srv.getattr(j).NotSent?
    case Lookup(d, name) => srv.lookup(j, d, name).NotSent?
    case ReadLink(l) => srv.readlink(j, l).NotSent?
  }

  ghost predicate SomeUnsent(srv: Server, j: nat) {
    exists r :: Unsent(srv, j, r)
  }

  /** The status that a reply without an answer calls for. */
  predicate CallsFor<T>(reply: Reply<T>, status: int) {
    match reply
    case NotSent => status == -12
    case RpcError => status == -14
    case Cancelled => status == -4
    case TimedOut => status == -4
    case Refused(e) => status == e
    case Answer(_) => false
  }

  predicate Fails(srv: Server, j: nat, r: Request, status: int) {
    match r
    case GetAttr(_) => CallsFor(srv.getattr(j), status)
    case Lookup(d, name) => CallsFor(srv.lookup(j, d, name), status)
    case ReadLink(l) => CallsFor(srv.readlink(j, l), status)
  }

  /** The k-th and the following RPCs were those of `run`, which read no more than
      `links` links: all but the last were answered, and if the last was not, it is
      its reply that decides. Otherwise an error is one of memory, because the next
      RPC could not be sent; of too many or of forbidden links; or of a link whose
      target cannot be resolved. */
  ghost predicate Explained(w: World, k: nat, links: nat, run: Run) {
    var n := |run.log|;
    && (forall j :: 0 <= j < n - 1 ==> Answered(w.srv, k + j, run.log[j]))
    && LinksRead(run.log) <= links
    && if n > 0 && !Answered(w.srv, k + n - 1, run.log[n - 1]) then
         !Unsent(w.srv, k + n - 1, run.log[n - 1])
         && run.outcome.Fail? && Fails(w.srv, k + n - 1, run.log[n - 1], run.outcome.status)
       else
         run.outcome.Fail? ==>
           || (run.outcome.status == -12 && SomeUnsent(w.srv, k + n))
           || (run.outcome.status == -40 && (LinksRead(run.log) == links || RefusesLinks(w)))
           || (run.outcome.status == -2 && n > 0 && run.log[n - 1].ReadLink?)
  }

  lemma ExplainedSending(w: World, k: nat, links: nat, r: Request, run: Run)
    requires Answered(w.srv, k, r) && (r.ReadLink? ==> links > 0)
    requires Explained(w, k + 1, if r.ReadLink? then links - 1 else links, run)
    ensures Explained(w, k, links, Sending(r, run))
  {
    hide Answered, Unsent, Fails;
    LinksReadSending(r, run);
    var log, n := Sending(r, run).log, |run.log|;
    forall j | 0 <= j < n
      ensures Answered(w.srv, k + j, log[j])
    {
      assert j > 0 ==> log[j] == run.log[j - 1] && Answered(w.srv, k + 1 + (j - 1), run.log[j - 1]);
    }
    assert n > 0 ==> log[n] == run.log[n - 1];
  }

  /** An RPC that is not answered ends the lookup. */
  lemma ExplainedLast(w: World, k: nat, links: nat, r: Request, outcome: Outcome)
    requires !Answered(w.srv, k, r) && !Unsent(w.srv, k, r)
    requires outcome.Fail? && Fails(w.srv, k, r, outcome.status) && (r.ReadLink? ==> links > 0)
    ensures Explained(w, k, links, Sending(r, Run(outcome, [])))
  {
    LinksReadSending(r, Run(outcome, []));
  }

  /** A bad target ends it after its READLINK. */
  lemma ExplainedTarget(w: World, k: nat, links: nat, l: Handle)
    requires Answered(w.srv, k, ReadLink(l)) && links > 0
    ensures Explained(w, k, links, Sending(ReadLink(l), Run(Fail(-2), [])))
  {
    LinksReadSending(ReadLink(l), Run(Fail(-2), []));
  }

  lemma {:induction false} ResolveEnds(w: World, k: nat, links: nat, dir: seq<string>, rest: seq<string>,
                                       fh: Handle, attr: Option<Attr>)
    requires links <= 40
    ensures Explained(w, k, 40 - links, Resolve(w, k, links, dir, rest, fh, attr))
    decreases 40 - links, |rest|, 1
  {
    hide Explained, FollowLink, NextName;
    if attr.Some? && attr.value.isLink && RefusesLinks(w) {
      AtOnce(w, k, 40 - links, Fail(-40));
    } else if attr.Some? && attr.value.isLink && (!w.noFollow || rest != []) {
      LinkEnds(w, k, links, dir, rest, fh);
    } else {
      NameEnds(w, k, links, dir, rest, fh, attr);
    }
  }

  lemma LinkEnds(w: World, k: nat, links: nat, dir: seq<string>, rest: seq<string>, fh: Handle)
    requires links <= 40
    ensures Explained(w, k, 40 - links, FollowLink(w, k, links, dir, rest, fh))
    decreases 40 - links, |rest|, 0
  {
    hide Explained, Resolve, Restart;
    var r := w.srv.readlink(k, fh);
    if links == 40 {
      AtOnce(w, k, 40 - links, Fail(-40));
    } else if r.NotSent? {
      assert Unsent(w.srv, k, ReadLink(fh));
      AtOnce(w, k, 40 - links, Fail(-12));
    } else if !r.Answer? {
      ExplainedLast(w, k, 40 - links, ReadLink(fh), Failure(r));
    } else if Restart(w.exported, dir, r.value, rest).None? {
      ExplainedTarget(w, k, 40 - links, fh);
    } else {
      var comps := Restart(w.exported, dir, r.value, rest).value;
      ResolveEnds(w, k + 1, links + 1, [], comps, w.root, None);
      ExplainedSending(w, k, 40 - links, ReadLink(fh), Resolve(w, k + 1, links + 1, [], comps, w.root, None));
    }
  }

  lemma NameEnds(w: World, k: nat, links: nat, dir: seq<string>, rest: seq<string>, fh: Handle, attr: Option<Attr>)
    requires links <= 40
    ensures Explained(w, k, 40 - links, NextName(w, k, links, dir, rest, fh, attr))
    decreases 40 - links, |rest|, 0
  {
    hide Explained, Resolve;
    if rest == [] {
      AtOnce(w, k, 40 - links, Continue(fh, attr));
    } else {
      var r := w.srv.lookup(k, fh, rest[0]);
      if r.NotSent? {
        assert Unsent(w.srv, k, Lookup(fh, rest[0]));
        AtOnce(w, k, 40 - links, Fail(-12));
      } else if !r.Answer? {
        ExplainedLast(w, k, 40 - links, Lookup(fh, rest[0]), Failure(r));
      } else {
        ResolveEnds(w, k + 1, links, dir + [rest[0]], rest[1..], r.value.fh, Some(r.value.attr));
        ExplainedSending(w, k, 40 - links, Lookup(fh, rest[0]),
                         Resolve(w, k + 1, links, dir + [rest[0]], rest[1..], r.value.fh, Some(r.value.attr)));
      }
    }
  }

  /** An end without an RPC. */
  lemma AtOnce(w: World, k: nat, links: nat, outcome: Outcome)
    requires outcome.Fail? ==>
      || (outcome.status == -12 && SomeUnsent(w.srv, k))
      || (outcome.status == -40 && (links == 0 || RefusesLinks(w)))
    ensures Explained(w, k, links, Run(outcome, []))
  {
  }

  lemma GetAttrEnds(w: World)
    requires !w.srv.getattr(0).NotSent?
    ensures Explained(w, 0, 40, Sending(GetAttr(w.root), AfterGetAttr(w, w.srv.getattr(0))))
  {
    hide Explained, Resolve;
    var r := w.srv.getattr(0);
    if !r.Answer? {
      ExplainedLast(w, 0, 40, GetAttr(w.root), Failure(r));
    } else {
      ResolveEnds(w, 1, 0, [], [], w.root, Some(r.value));
      ExplainedSending(w, 0, 40, GetAttr(w.root), Resolve(w, 1, 0, [], [], w.root, Some(r.value)));
    }
  }

  lemma LookupExplained(w: World, path: string, cwd: string)
    requires LookupPath(w, path, cwd).Some?
    ensures Explained(w, 0, 40, LookupPath(w, path, cwd).value)
  {
    hide Explained, Resolve, Fold, Split;
    var n := Canonical(FullPath(path, cwd)).value;
    if n == "" {
      GetAttrEnds(w);
    } else {
      var (p, fh) := Select(w.mounts, n, w.root, 0);
      ResolveEnds(w, 0, 0, [], Names(p), fh, None);
    }
  }

  /** Every RPC of a lookup but the last was answered. If the last was not, its
      reply decides the status. If it was, the lookup goes on with a handle, or the
      status is that of memory, because the next RPC could not be sent, of links, too
      many or not to be followed, or of a link whose target cannot be resolved. */
  lemma LookupEnds(w: World, path: string, cwd: string)
    requires LookupPath(w, path, cwd).Some?
    ensures var run := LookupPath(w, path, cwd).value;
      var n := |run.log|;
      && (forall j :: 0 <= j < n - 1 ==> Answered(w.srv, j, run.log[j]))
      && (n > 0 ==>
            match run.log[n - 1]
            case GetAttr(_) =>
              (match w.srv.getattr(n - 1)
               case NotSent => false
               case RpcError => run.outcome == Fail(-14)
               case Cancelled => run.outcome == Fail(-4)
               case TimedOut => run.outcome == Fail(-4)
               case Refused(e) => run.outcome == Fail(e)
               case Answer(_) => true)
            case Lookup(d, name) =>
              (match w.srv.lookup(n - 1, d, name)
               case NotSent => false
               case RpcError => run.outcome == Fail(-14)
               case Cancelled => run.outcome == Fail(-4)
               case TimedOut => run.outcome == Fail(-4)
               case Refused(e) => run.outcome == Fail(e)
               case Answer(_) => true)
            case ReadLink(l) =>
              (match w.srv.readlink(n - 1, l)
               case NotSent => false
               case RpcError => run.outcome == Fail(-14)
               case Cancelled => run.outcome == Fail(-4)
               case TimedOut => run.outcome == Fail(-4)
               case Refused(e) => run.outcome == Fail(e)
               case Answer(_) => true))
      && ((n > 0 ==> Answered(w.srv, n - 1, run.log[n - 1])) && run.outcome.Fail? ==>
            || (run.outcome.status == -12 && SomeUnsent(w.srv, n))
            || (run.outcome.status == -40 && (LinksRead(run.log) == 40 || RefusesLinks(w)))
            || (run.outcome.status == -2 && n > 0 && run.log[n - 1].ReadLink?))
      && LinksRead(run.log) <= 40
  {
    hide LookupPath;
    LookupExplained(w, path, cwd);
    var run := LookupPath(w, path, cwd).value;
    assert forall j :: 0 <= j < |run.log| - 1 ==> Answered(w.srv, 0 + j, run.log[j]);
  }

  // ----- names and links on the way

  /** The path from the current directory: its components are those of the current
      directory and of the path, of the path alone if it starts with a slash. */
  lemma StartsFrom(path: string, cwd: string)
    ensures Fold([], Split(FullPath(path, cwd))) ==
      if path != "" && path[0] == '/' then Fold([], Split(path))
      else match Fold([], Split(cwd))
        case None => None
        case Some(at) => Fold(at, Split(path))
  {
    hide Fold, Split;
    if path == "" {
      assert cwd + "/." == cwd + "/" + ".";
      SplitAt(cwd, ".");
      SplitOne(".");
      SplitOne("");
      FoldSeq([], Split(cwd), ["."]);
      if Fold([], Split(cwd)).Some? {
        var at := Fold([], Split(cwd)).value;
        FoldSkip(at, ["."]);
        FoldSkip(at, [""]);
        assert ["."][1..] == [] && [""][1..] == [];
      }
    } else if path[0] != '/' {
      SplitAt(cwd, path);
      FoldSeq([], Split(cwd), Split(path));
    }
  }

  /** The handles in `hs` are found one after the other under `names`, none of them
      a link, except that the last may be one if it is not to be followed. */
  ghost predicate Leads(w: World, k: nat, hs: seq<Handle>, attrs: seq<Attr>, names: seq<string>)
    requires |hs| == |names| + 1 && |attrs| == |names|
  {
    forall i :: 0 <= i < |names| ==>
      && w.srv.lookup(k + i, hs[i], names[i]) == Answer(Object(hs[i + 1], attrs[i]))
      && (attrs[i].isLink ==> i == |names| - 1 && w.noFollow && !RefusesLinks(w))
  }

  function Lookups(hs: seq<Handle>, names: seq<string>): (log: seq<Request>)
    requires |hs| > |names|
  {
    seq(|names|, i requires 0 <= i < |names| => Lookup(hs[i], names[i]))
  }

  /** Without links every name is looked up once in what the one before it is, and
      the last is what the lookup finds. */
  lemma {:induction false} PlainWalk(w: World, k: nat, links: nat, dir: seq<string>, names: seq<string>,
                                     hs: seq<Handle>, attrs: seq<Attr>, attr: Option<Attr>)
    requires |hs| == |names| + 1 && |attrs| == |names| && Leads(w, k, hs, attrs, names)
    requires attr.Some? && attr.value.isLink ==> names == [] && w.noFollow && !RefusesLinks(w)
    ensures Resolve(w, k, links, dir, names, hs[0], attr) ==
      Run(Continue(hs[|names|], if names == [] then attr else Some(attrs[|names| - 1])), Lookups(hs, names))
    decreases |names|
  {
    if names != [] {
      LeadsOn(w, k, hs, attrs, names);
      PlainWalk(w, k + 1, links, dir + [names[0]], names[1..], hs[1..], attrs[1..], Some(attrs[0]));
      var on := AfterLookup(w, k, links, dir + [names[0]], names[1..], Answer(Object(hs[1], attrs[0])));
      assert NextName(w, k, links, dir, names, hs[0], attr) == Sending(Lookup(hs[0], names[0]), on);
      assert Lookups(hs, names) == [Lookup(hs[0], names[0])] + Lookups(hs[1..], names[1..]);
    }
  }

  lemma LeadsOn(w: World, k: nat, hs: seq<Handle>, attrs: seq<Attr>, names: seq<string>)
    requires |hs| == |names| + 1 && |attrs| == |names| > 0 && Leads(w, k, hs, attrs, names)
    ensures w.srv.lookup(k, hs[0], names[0]) == Answer(Object(hs[1], attrs[0]))
    ensures attrs[0].isLink ==> |names| == 1 && w.noFollow && !RefusesLinks(w)
    ensures Leads(w, k + 1, hs[1..], attrs[1..], names[1..])
  {
    assert w.srv.lookup(k + 0, hs[0], names[0]) == Answer(Object(hs[1], attrs[0]));
    forall i | 0 <= i < |names| - 1
      ensures w.srv.lookup(k + 1 + i, hs[1..][i], names[1..][i]) == Answer(Object(hs[1..][i + 1], attrs[1..][i]))
      ensures attrs[1..][i].isLink ==> i == |names[1..]| - 1 && w.noFollow && !RefusesLinks(w)
    {
      assert w.srv.lookup(k + (i + 1), hs[i + 1], names[i + 1]) == Answer(Object(hs[i + 2], attrs[i + 1]));
    }
  }

  /** The same for a whole path that lies in no nested export. */
  lemma PlainLookup(w: World, path: CString, cwd: CString, names: seq<string>, hs: seq<Handle>, attrs: seq<Attr>)
    requires cwd != "" && cwd[0] == '/'
    requires Fold([], Split(FullPath(path, cwd))) == Some(names) && names != []
    requires forall i :: 0 <= i < |w.mounts| ==> !Within(Join(names), w.mounts[i].path)
    requires |hs| == |names| + 1 && |attrs| == |names| && hs[0] == w.root && Leads(w, 0, hs, attrs, names)
    ensures LookupPath(w, path, cwd) == Some(Run(Continue(hs[|names|], Some(attrs[|names| - 1])), Lookups(hs, names)))
  {
    hide Fold, Split, Leads, Resolve, Within;
    FoldOfPath(FullPath(path, cwd));
    JoinStarts(names);
    SelectIs(w.mounts, Join(names), w.root);
    NormalForm(names);
    PlainWalk(w, 0, 0, [], names, hs, attrs, None);
  }

  /** The root: its attributes are asked for, unless the path ends in a slash. */
  lemma RootLookup(w: World, path: CString, cwd: CString, attr: Attr)
    requires cwd != "" && cwd[0] == '/' && Fold([], Split(FullPath(path, cwd))) == Some([])
    ensures var full := FullPath(path, cwd);
      && (full[|full| - 1] != '/' && w.srv.getattr(0) == Answer(attr) && !attr.isLink ==>
            LookupPath(w, path, cwd) == Some(Run(Continue(w.root, Some(attr)), [GetAttr(w.root)])))
      && (full[|full| - 1] == '/' && (forall i :: 0 <= i < |w.mounts| ==> !Within("/", w.mounts[i].path)) ==>
            LookupPath(w, path, cwd) == Some(Run(Continue(w.root, None), [])))
  {
    hide Fold, Split, Within, Select;
    SelectIs(w.mounts, "/", w.root);
    SplitRoot();
    assert Join([]) == "";
    assert Names("/") == [];
    PlainWalk(w, 0, 0, [], [], [w.root], [], None);
    if !attr.isLink {
      PlainWalk(w, 1, 0, [], [], [w.root], [], Some(attr));
      assert [GetAttr(w.root)] + [] == [GetAttr(w.root)] && Lookups([w.root], []) == [];
    }
  }

  /** A path in a nested export, the first in the list it lies in: what is left of it
      below the mount is looked up from there. */
  lemma MountedLookup(w: World, path: CString, cwd: CString, names: seq<string>, i: nat, below: seq<string>,
                      hs: seq<Handle>, attrs: seq<Attr>)
    requires cwd != "" && cwd[0] == '/'
    requires Fold([], Split(FullPath(path, cwd))) == Some(names) && names != []
    requires i < |w.mounts| && AllProper(below) && Join(names) == w.mounts[i].path + Join(below)
    requires forall j :: 0 <= j < i ==> !Within(Join(names), w.mounts[j].path)
    requires forall j :: i < j < |w.mounts| ==>
      |w.mounts[j].path| < |w.mounts[i].path| || !Within(Join(below), w.mounts[j].path)
    requires |hs| == |below| + 1 && |attrs| == |below| && hs[0] == w.mounts[i].fh && Leads(w, 0, hs, attrs, below)
    ensures LookupPath(w, path, cwd) ==
      Some(Run(Continue(hs[|below|], if below == [] then None else Some(attrs[|below| - 1])), Lookups(hs, below)))
  {
    hide Fold, Split, Leads, Resolve, Join;
    FoldOfPath(FullPath(path, cwd));
    JoinStarts(names);
    JoinStarts(below);
    var n, m := Join(names), w.mounts[i];
    assert n[..|m.path|] == m.path && n[|m.path|..] == Join(below);
    assert Within(n, m.path);
    hide Within, Select;
    assert FirstWithin(w.mounts, n) == i;
    SelectIs(w.mounts, n, w.root);
    assert !Misled(w.mounts[i + 1..], Join(below), |m.path|);
    NormalForm(below);
    PlainWalk(w, 0, 0, [], below, hs, attrs, None);
  }

  /** A link to follow, with names to come or at the end: the target of a relative
      one is taken from the directory that `dir` ends in, that of an absolute one
      from the export, and the lookup goes on from the root with one link more. */
  lemma LinkGoesOn(w: World, k: nat, links: nat, dir: seq<string>, rest: seq<string>, fh: Handle, attr: Attr,
                   target: CString)
    requires attr.isLink && !RefusesLinks(w) && (!w.noFollow || rest != []) && links < 40
    requires AllProper(dir) && dir != [] && w.srv.readlink(k, fh) == Answer(target)
    ensures var run := Resolve(w, k, links, dir, rest, fh, Some(attr));
      var comps :=
        if target == "" || target[0] != '/' then Fold(dir[..|dir| - 1], Split(target) + rest)
        else if w.exported <= target && (target == w.exported || target[|w.exported|] == '/') then
          Fold([], Split(target[|w.exported|..]))
        else None;
      if comps.None? then run == Run(Fail(-2), [ReadLink(fh)])
      else
        var on := Resolve(w, k + 1, links + 1, [], comps.value, w.root, None);
        run.outcome == on.outcome && run.log == [ReadLink(fh)] + on.log
  {
    hide Fold, Split;
    if target == "" || target[0] != '/' {
      DirectoryOfLink(dir, target, rest);
    }
    LinkFollowed(w, k, links, dir, rest, fh, attr, target);
  }

  lemma LinkFollowed(w: World, k: nat, links: nat, dir: seq<string>, rest: seq<string>, fh: Handle, attr: Attr,
                     target: CString)
    requires attr.isLink && !RefusesLinks(w) && (!w.noFollow || rest != []) && links < 40
    requires w.srv.readlink(k, fh) == Answer(target)
    ensures var run := Resolve(w, k, links, dir, rest, fh, Some(attr));
      match Restart(w.exported, dir, target, rest)
      case None => run == Run(Fail(-2), [ReadLink(fh)])
      case Some(comps) => run == Sending(ReadLink(fh), Resolve(w, k + 1, links + 1, [], comps, w.root, None))
  {
    hide Restart, Fold, NextName;
    assert Resolve(w, k, links, dir, rest, fh, Some(attr)) == FollowLink(w, k, links, dir, rest, fh) ==
           Sending(ReadLink(fh), AfterReadLink(w, k, links, dir, rest, Answer(target)));
  }

  /** A lookup is refused, so that the caller is never called back, exactly if its
      path climbs above the root, or is the root, written without a final slash, and
      the request for its attributes cannot be sent. */
  lemma RefusedIff(w: World, path: CString, cwd: CString)
    requires cwd != "" && cwd[0] == '/'
    ensures var full := FullPath(path, cwd);
      LookupPath(w, path, cwd) == None <==>
        || Fold([], Split(full)) == None
        || (Fold([], Split(full)) == Some([]) && full[|full| - 1] != '/' && w.srv.getattr(0).NotSent?)
  {
    hide Fold, Split, Resolve;
    var full := FullPath(path, cwd);
    if Fold([], Split(full)).Some? {
      JoinStarts(Fold([], Split(full)).value);
    }
  }
}
