/** The NFSv3 path walker: nfs_cb_data and the callbacks that move it along one
    shared path buffer, cutting and restoring the buffer as they go. */
module LookupWalker {
  import opened Wrappers
  import opened CStrings
  import opened Paths
  import opened Resolver
  import LookupEnds
  import NormalizePath

  /** The RPC a walk is waiting for, and the callback its reply goes to. */
  datatype Pending =
    | Idle
    | AwaitGetAttr                          // nfs3_lookup_path_getattr_cb
    | AwaitLookup(dir: Handle, name: string) // nfs3_lookup_path_1_cb
    | AwaitReadLink(link: Handle)            // nfs3_lookup_path_2_cb

  // ----- how the components are spelled in the buffer

  /** Where the parts of `a + "/" + c + u` are. */
  lemma Parts(a: string, c: string, u: string, s: string)
    requires s == a + ("/" + c + u)
    ensures var b, n := |a|, |c|;
      && b + 1 + n <= |s| && s[..b] == a && s[b] == '/' && s[b + 1..b + 1 + n] == c
      && s[b + 1 + n..] == u && s[b..] == "/" + c + u && s[..b + 1 + n] == a + ("/" + c)
  {
    var t := "/" + c + u;
    assert s[|a|..] == t;
    assert forall k :: 0 <= k < |t| ==> s[|a| + k] == t[k];
  }

  lemma SpellingEquations(dir: seq<string>, rest: seq<string>)
    requires rest != []
    ensures Join(rest) == "/" + rest[0] + Join(rest[1..])
    ensures Join(dir + rest) == Join(dir) + ("/" + rest[0] + Join(rest[1..]))
    ensures Join(dir + [rest[0]]) == Join(dir) + ("/" + rest[0])
  {
    JoinSeq(dir, rest);
    JoinSeq(dir, [rest[0]]);
    JoinOne(rest[0]);
  }

  /** The first name of `rest` in the spelling of `dir + rest`. */
  lemma Spelling(dir: seq<string>, rest: seq<string>)
    requires AllProper(dir + rest) && rest != []
    ensures var s, b, n := Join(dir + rest), |Join(dir)|, |rest[0]|;
      && b + 1 + n <= |s| && s[..b] == Join(dir) && s[b] == '/'
      && s[b + 1..b + 1 + n] == rest[0] && '/' !in rest[0] && n > 0 && s[b + 1] != '/'
      && s[b + 1 + n..] == Join(rest[1..])
      && s[b..] == Join(rest)
      && Join(dir + [rest[0]]) == s[..b + 1 + n]
  {
    hide Join;
    SpellingEquations(dir, rest);
    Parts(Join(dir), rest[0], Join(rest[1..]), Join(dir + rest));
    assert rest[0] == (dir + rest)[|dir|];
    assert rest[0][0] in rest[0];
    assert Join(dir + rest)[|Join(dir)| + 1] == rest[0][0];
  }

  /** strchr from a name finds the slash that ends it, if any. */
  lemma SlashAfterName(dir: seq<string>, rest: seq<string>, slash: int)
    requires AllProper(dir + rest) && rest != []
    requires var s, p := Join(dir + rest), |Join(dir)| + 1;
      && p <= |s| && (slash == -1 || (p <= slash < |s| && s[slash] == '/'))
      && forall k :: p <= k < (if slash == -1 then |s| else slash) ==> s[k] != '/'
    ensures var s, e := Join(dir + rest), |Join(dir)| + 1 + |rest[0]|;
      if rest[1..] == [] then slash == -1 && e == |s| else slash == e
  {
    hide Join;
    Spelling(dir, rest);
    JoinStarts(rest[1..]);
    var s, p := Join(dir + rest), |Join(dir)| + 1;
    var e := p + |rest[0]|;
    assert forall k :: p <= k < e ==> s[k] == s[p..e][k - p] && s[p..e][k - p] in rest[0];
    assert e < |s| ==> s[e] == s[e..][0];
  }

  /** `path` points at the name to look up next, or at the slash before it, or,
      with none left, at the end. */
  ghost predicate Placed(saved: string, path: nat, dir: seq<string>, rest: seq<string>) {
    && AllProper(dir + rest)
    && path <= |saved|
    && if saved == "/" then dir == [] && rest == []
       else
         && saved == Join(dir + rest)
         && (path == |Join(dir)| || (rest != [] && path == |Join(dir)| + 1))
  }

  /** The next name, as it stands in the buffer, and the place after it. */
  lemma NameInBuffer(buf: seq<char>, dir: seq<string>, rest: seq<string>)
    requires AllProper(dir + rest) && rest != []
    requires |Join(dir + rest)| < |buf| && buf[..|Join(dir + rest)|] == Join(dir + rest)
    ensures var s, p, n := Join(dir + rest), |Join(dir)| + 1, |rest[0]|;
      && |Join(dir + [rest[0]])| == p + n
      && (rest[1..] != [] ==> p + n < |s| && buf[p + n] == '/')
      && 0 < n && p + n <= |s| && buf[p..p + n] == rest[0] && NUL !in rest[0] && buf[p] != NUL
      && Placed(s, if rest[1..] == [] then |s| else p + n + 1, dir + [rest[0]], rest[1..])
  {
    hide Join;
    Spelling(dir, rest);
    JoinStarts(rest[1..]);
    JoinStarts([]);
    var s, p, n := Join(dir + rest), |Join(dir)| + 1, |rest[0]|;
    assert rest[0] == (dir + rest)[|dir|] && rest[0][0] in rest[0];
    BufferSlice(buf, s, p, n);
    assert dir + [rest[0]] + rest[1..] == dir + rest;
    assert p + n < |s| ==> s[p + n] == s[p + n..][0];
  }

  lemma BufferSlice(buf: seq<char>, s: string, p: nat, n: nat)
    requires |s| < |buf| && buf[..|s|] == s && p + n <= |s|
    ensures buf[p..p + n] == s[p..p + n]
    ensures n > 0 ==> buf[p] == s[p..p + n][0]
    ensures p + n < |s| ==> buf[p + n] == s[p + n]
  {
    assert forall k :: 0 <= k < |s| ==> buf[k] == buf[..|s|][k] == s[k];
  }

  lemma {:induction false} JoinClean(cs: seq<string>)
    requires AllProper(cs)
    ensures NUL !in Join(cs)
    ensures cs != [] ==> Join(cs)[0] == '/' && |Join(cs)| > 1
  {
    if cs != [] {
      JoinClean(cs[1..]);
    }
  }

  /** The new path for a relative target: its fold is that of the components. */
  lemma RelativeRestart(dir: seq<string>, target: string, rest: seq<string>)
    requires AllProper(dir) && AllProper(rest)
    ensures var full := Join(dir) + "/../" + target + Join(rest);
      && full != "" && full[0] == '/'
      && Fold([], Split(full)) == Fold([], dir + [".."] + Split(target) + rest)
  {
    hide Join, Split, Fold;
    var a, full := Join(dir), Join(dir) + "/../" + target + Join(rest);
    var tail := target + Join(rest);
    assert full == a + "/" + (".." + "/" + tail);
    SplitAt(a, ".." + "/" + tail);
    SplitAt("..", tail);
    SplitOne("..");
    SplitJoin(dir);
    SplitTargetRest(target, rest);
    var parts := dir + [".."] + Split(target) + rest;
    assert Split(full) == [""] + parts;
    FoldSkip([], Split(full));
    assert ([""] + parts)[1..] == parts;
    JoinStarts(dir);
    assert full[|a|] == '/' && (a != "" ==> full[0] == a[0]);
  }

  lemma {:induction false} SplitTargetRest(target: string, rest: seq<string>)
    requires AllProper(rest)
    ensures Split(target + Join(rest)) == Split(target) + rest
  {
    if rest == [] {
      assert target + Join(rest) == target;
    } else {
      var b := rest[0] + Join(rest[1..]);
      assert Join(rest) == "/" + b;
      SplitAt(target, b);
      SplitAt("", b);
      SplitJoin(rest);
      assert Split("") == [""] && "" + "/" + b == "/" + b;
      hide Split, Join, AllProper;
      assert target + ("/" + b) == target + "/" + b;
      assert ([""] + Split(b))[1..] == Split(b) && ([""] + rest)[1..] == rest;
    }
  }

  /** The two halves of the buffer around `path`: what led to the link and,
      after a slash, what follows it. */
  lemma PathSuffix(buf: seq<char>, saved: string, path: nat, dir: seq<string>, rest: seq<string>)
    requires Placed(saved, path, dir, rest) && saved != "/"
    requires rest == [] || path == |Join(dir)| + 1
    requires |saved| < |buf| && buf[..|saved|] == saved && buf[|saved|] == NUL
    ensures buf[path] == NUL <==> rest == []
    ensures rest == [] ==> Join(dir) == saved
    ensures rest != [] ==> path > 0 && saved[..path - 1] == Join(dir) && Join(rest) == "/" + saved[path..]
    ensures NUL !in saved
  {
    JoinClean(dir + rest);
    if rest == [] {
      assert dir + rest == dir;
    } else {
      Spelling(dir, rest);
      NameInBuffer(buf, dir, rest);
      hide Join, Placed, AllProper;
      assert saved[path - 1..] == "/" + saved[path..];
    }
  }

  lemma ProperHalves(dir: seq<string>, rest: seq<string>)
    requires AllProper(dir + rest)
    ensures AllProper(dir) && AllProper(rest)
  {
    assert forall i :: 0 <= i < |dir| ==> dir[i] == (dir + rest)[i];
    assert forall i :: 0 <= i < |rest| ==> rest[i] == (dir + rest)[|dir| + i];
  }

  lemma Appending(a: string, t: string, b: string)
    ensures a + "/../" + t + "/" + b == a + "/../" + t + ("/" + b)
    ensures |a + "/../" + t + "/" + b| == |a| + |t| + |b| + 5
    ensures a + "/../" + t + "" == a + "/../" + t
    ensures |a + "/../" + t| == |a| + |t| + 4
  {
  }

  /** A terminator in front of `path` ends the string that starts the buffer
      and leaves the one at `path`. */
  lemma CutBuffer(before: seq<char>, after: seq<char>, saved: string, path: nat)
    requires 0 < path <= |saved| < |before| && before[..|saved|] == saved && before[|saved|] == NUL
    requires after == before[path - 1 := NUL]
    ensures after[path - 1] == NUL && after[0..path - 1] == saved[..path - 1]
    ensures after[|saved|] == NUL && after[path..|saved|] == saved[path..]
  {
    assert forall k :: 0 <= k < |saved| ==> before[k] == before[..|saved|][k] == saved[k];
  }

  /** The empty path has no components. */
  lemma EmptySpelling(dir: seq<string>, rest: seq<string>)
    requires AllProper(dir + rest) && Join(dir + rest) == ""
    ensures dir == [] && rest == []
  {
    JoinClean(dir + rest);
  }

  // ----- the walker

  class Walk {
    const w: World
    var savedPath: array<char>
    var path: nat
    var linkCount: nat
    var calls: nat          // RPCs made so far
    var pending: Pending
    var log: seq<Request>
    var done: seq<Outcome>  // every run of the caller's callback or continuation

    ghost var saved: string
    ghost var dir: seq<string>
    ghost var rest: seq<string>

    /** What the reference does from here on. */
    ghost function Ahead(): Run
      reads this
      requires pending.AwaitLookup? ==> calls > 0
      requires pending.AwaitReadLink? ==> 0 < linkCount <= MAX_LINK_COUNT && calls > 0
    {
      match pending
      case Idle => Run(Fail(0), [])
      case AwaitGetAttr => AfterGetAttr(w, w.srv.getattr(0))
      case AwaitLookup(d, name) => AfterLookup(w, calls - 1, linkCount, dir, rest, w.srv.lookup(calls - 1, d, name))
      case AwaitReadLink(l) => AfterReadLink(w, calls - 1, linkCount - 1, dir, rest, w.srv.readlink(calls - 1, l))
    }

    /** Between an RPC and its reply: the buffer is whole again, the callback
        has not run, and the rest of the run is the reference's. */
    ghost predicate Waiting(run: Run)
      reads this, savedPath
    {
      && !pending.Idle? && done == []
      && Holds(savedPath, saved)
      && Placed(saved, path, dir, rest)
      && linkCount <= MAX_LINK_COUNT
      && calls == |log| > 0
      && (pending.AwaitGetAttr? ==> calls == 1 && linkCount == 0 && saved == "")
      && (pending.AwaitLookup? ==> dir != [])
      && (pending.AwaitReadLink? ==> linkCount > 0 && saved != "/" && (rest == [] || path == |Join(dir)| + 1))
      && run == Run(Ahead().outcome, log + Ahead().log)
    }

    /** After the end: the callback ran once, with the reference's outcome, and
        the RPCs sent were the reference's. */
    ghost predicate Finished(run: Run)
      reads this
    {
      pending.Idle? && done == [run.outcome] && log == run.log
    }

    /** How far the walk can still go: links first, then names. */
    ghost function LinksLeft(): int
      reads this
    {
      MAX_LINK_COUNT - if pending.AwaitReadLink? then linkCount - 1 else linkCount
    }

    ghost function NamesLeft(): nat
      reads this
    {
      |rest| + if pending.AwaitReadLink? then 0 else 1
    }

    /** Waiting for the next reply with less to go than `links` and `names`. */
    ghost predicate Closer(run: Run, links: int, names: nat)
      reads this, savedPath
    {
      Waiting(run) && (LinksLeft() < links || (LinksLeft() == links && NamesLeft() < names))
    }

    /** About to look at the next name: nothing in flight. */
    ghost predicate Poised(attr: Option<Attr>)
      reads this, savedPath
    {
      && pending.Idle? && done == []
      && Holds(savedPath, saved)
      && Placed(saved, path, dir, rest)
      && linkCount <= MAX_LINK_COUNT
      && calls == |log|
      && (attr.Some? ==> saved != "/" && calls > 0)
    }

    /** data->cb or data->continue_cb, after which the data is freed. */
    method Finish(outcome: Outcome)
      modifies this`pending, this`done
      ensures pending == Idle && done == old(done) + [outcome]
    {
      pending := Idle;
      done := done + [outcome];
    }

    /** while (*data->path == '/') data->path++ */
    method SkipSlashes()
      requires Holds(savedPath, saved) && Placed(saved, path, dir, rest)
      modifies this`path
      ensures path == if rest == [] then |saved| else |Join(dir)| + 1
      ensures saved != "/" ==> Placed(saved, path, dir, rest)
    {
      if rest != [] {
        Spelling(dir, rest);
      } else {
        assert dir + rest == dir;
      }
      ghost var end := if rest == [] then |saved| else |Join(dir)| + 1;
      assert forall k :: 0 <= k < |saved| ==> savedPath[k] == savedPath[..|saved|][k] == saved[k];
      while savedPath[path] == '/'
        invariant path <= end
        invariant path == end || savedPath[path] == '/'
        decreases end - path
      {
        path := path + 1;
      }
    }

    /** At the name to look up, or at the end of the path. */
    ghost predicate AtName(attr: Option<Attr>, slash: int)
      reads this, savedPath
    {
      && Poised(attr)
      && path == (if rest == [] then |saved| else |Join(dir)| + 1)
      && (saved != "/" ==> Placed(saved, path, dir, rest))
      && if |rest| <= 1 then slash == -1 else slash == path + |rest[0]|
    }

    /** The caller gets the outcome of `run`, or the walk waits, with less to
        go; either way it sends what `run` sends after what was sent before. */
    ghost predicate Tracks(before: seq<Request>, run: Run, links: int, names: nat)
      reads this, savedPath
    {
      var total := Run(run.outcome, before + run.log);
      Finished(total) || Closer(total, links, names)
    }

    /** The symbolic link branch: READLINK, or give up. */
    method SendReadLink(fh: Handle, slash: int)
      requires AtName(Some(Attr(true, 0, 0)), slash)
      requires slash >= 0 ==> slash < |saved| && saved[slash] == '/'
      modifies this, savedPath
      ensures savedPath == old(savedPath) && savedPath[..] == old(savedPath[..])
      ensures Tracks(old(log), FollowLink(w, old(calls), old(linkCount), old(dir), old(rest), fh),
                     MAX_LINK_COUNT - old(linkCount), old(|rest|) + 1)
    {
      hide Fold, Split, Join, AllProper, Resolve, AfterLookup, AfterReadLink, Restart;
      assert slash >= 0 ==> savedPath[..|saved|][slash] == saved[slash];
      assert log + [] == log;
      linkCount := linkCount + 1;
      if linkCount > MAX_LINK_COUNT {
        Finish(Fail(-ELOOP));
        return;
      }
      if w.srv.readlink(calls, fh).NotSent? {
        Finish(Fail(-ENOMEM));
        return;
      }
      pending := AwaitReadLink(fh);
      log := log + [ReadLink(fh)];
      calls := calls + 1;
      if slash >= 0 {
        savedPath[slash] := '/';
      }
      assert savedPath[..] == old(savedPath[..]);
      assert old(log) + ([ReadLink(fh)] + Ahead().log) == log + Ahead().log;
    }

    /** Ends the current name with a terminator and moves past it. */
    method CutName(slash: int)
      requires Holds(savedPath, saved) && path <= |saved|
      requires slash == -1 || path <= slash < |saved|
      modifies this`path, savedPath
      ensures path == if slash >= 0 then slash + 1 else |saved|
      ensures savedPath[..] == if slash >= 0 then old(savedPath[..])[slash := NUL] else old(savedPath[..])
    {
      if slash >= 0 {
        savedPath[slash] := NUL;
        path := slash + 1;
      } else {
        assert savedPath[..|saved|] == saved;
        while savedPath[path] != NUL
          invariant path <= |saved|
          invariant savedPath[..] == old(savedPath[..])
          decreases |saved| - path
        {
          path := path + 1;
        }
      }
    }

    /** LOOKUP of the name just read, then the slash put back; `before` is the
        buffer before it was cut. */
    method AskLookup(fh: Handle, name: string, slash: int, ghost before: seq<char>)
      requires pending.Idle? && done == [] && calls == |log| && linkCount <= MAX_LINK_COUNT
      requires rest != [] && name == rest[0]
      requires Placed(saved, path, dir + [name], rest[1..])
      requires |saved| < |before| && before[..|saved|] == saved && before[|saved|] == NUL && NUL !in saved
      requires rest[1..] != [] ==> path == |Join(dir + [name])| + 1
      requires slash == -1 || (0 <= slash < |saved| && before[slash] == '/')
      requires savedPath[..] == if slash >= 0 then before[slash := NUL] else before
      modifies this, savedPath
      ensures savedPath == old(savedPath)
      ensures Tracks(old(log), NextName(w, old(calls), old(linkCount), old(dir), old(rest), fh, None),
                     MAX_LINK_COUNT - old(linkCount), old(|rest|) + 1)
      ensures done == [] ==> savedPath[..] == before
      ensures done != [] ==> !done[0].Continue?
    {
      hide Fold, Split, Join, AllProper, Resolve, AfterLookup, AfterReadLink, Restart;
      assert log + [] == log;
      if w.srv.lookup(calls, fh, name).NotSent? {
        Finish(Fail(-ENOMEM));
        return;
      }
      dir, rest := dir + [name], rest[1..];
      pending := AwaitLookup(fh, name);
      log := log + [Lookup(fh, name)];
      calls := calls + 1;
      if slash >= 0 {
        savedPath[slash] := '/';
      }
      assert savedPath[..] == before;
      assert old(log) + ([Lookup(fh, name)] + Ahead().log) == log + Ahead().log;
    }

    /** The rest of nfs3_lookup_path_async_internal: cut the buffer at the end
        of the name, look the name up, and mend the buffer. */
    method LookUpName(attr: Option<Attr>, fh: Handle, p: nat, slash: int)
      requires AtName(attr, slash) && p == path
      modifies this, savedPath
      ensures savedPath == old(savedPath)
      ensures Tracks(old(log), NextName(w, old(calls), old(linkCount), old(dir), old(rest), fh, attr),
                     MAX_LINK_COUNT - old(linkCount), old(|rest|) + 1)
      ensures done == [] || done[0].Continue? ==> savedPath[..] == old(savedPath[..])
    {
      hide Fold, Split, Join, AfterLookup, AfterReadLink, Restart;
      ghost var before := savedPath[..];
      if rest != [] {
        NameInBuffer(before, dir, rest);
      }
      assert log + [] == log;
      CutName(slash);
      if savedPath[p] == NUL {
        Finish(Continue(fh, attr));
        return;
      }
      assert savedPath[p..p + |rest[0]|] == savedPath[..][p..p + |rest[0]|] == before[p..p + |rest[0]|];
      var name := ReadFrom(savedPath, p, |rest[0]|);
      AskLookup(fh, name, slash, before);
    }

    /** nfs3_lookup_path_async_internal. */
    method Internal(attr: Option<Attr>, fh: Handle)
      requires Poised(attr)
      modifies this, savedPath
      ensures savedPath == old(savedPath)
      ensures Tracks(old(log), Resolve(w, old(calls), old(linkCount), old(dir), old(rest), fh, attr),
                     MAX_LINK_COUNT - old(linkCount), old(|rest|) + 1)
      ensures done == [] || done[0].Continue? ==> savedPath[..] == old(savedPath[..])
    {
      hide Fold, Split, Join, AllProper, FollowLink, NextName, AfterLookup, AfterReadLink, Restart;
      if rest != [] {
        Spelling(dir, rest);
      }
      assert log + [] == log;
      SkipSlashes();
      assert forall k :: 0 <= k < |saved| ==> savedPath[k] == savedPath[..|saved|][k] == saved[k];
      var p := path;
      var slash := StrChr(savedPath, p, '/', saved);
      if rest != [] {
        SlashAfterName(dir, rest, slash);
      }
      if attr.Some? && attr.value.isLink {
        if HasBit(w.continueInt, O_NOFOLLOW) {
          Finish(Fail(-ELOOP));
          return;
        }
        if !w.noFollow || savedPath[p] != NUL {
          SendReadLink(fh, slash);
          return;
        }
      }
      LookUpName(attr, fh, p, slash);
    }

    // ----- starting and driving a walk

    constructor (w: World)
      ensures this.w == w && Fresh() && fresh(savedPath)
    {
      this.w := w;
      savedPath, path := new char[1](_ => NUL), 0;
      linkCount, calls, pending, log, done := 0, 0, Idle, [], [];
      saved, dir, rest := "", [], [];
    }

    ghost predicate Fresh()
      reads this
    {
      linkCount == 0 && calls == 0 && pending.Idle? && log == [] && done == []
    }

    /** nfs3_lookuppath_async, up to its return: true is its 0. */
    method Start(p: CString, cwd: CString) returns (ok: bool)
      requires Fresh()
      modifies this
      ensures ok <==> LookupPath(w, p, cwd).Some?
      ensures if ok then Finished(LookupPath(w, p, cwd).value) || Waiting(LookupPath(w, p, cwd).value)
              else done == [] && log == []
      ensures fresh(savedPath)
    {
      hide Fold, Split, Join, AllProper, Resolve, Canonical, AfterLookup, AfterReadLink;
      var full: CString := FullPath(p, cwd);
      savedPath := Print(full, |full| + 1);
      ok := Prepare(full);
      if !ok {
        return;
      }
      assert saved != "" ==> savedPath[..|saved|][0] == savedPath[0] && saved[0] in saved;
      if savedPath[0] == NUL {
        if w.srv.getattr(0).NotSent? {
          return false;
        }
        SendGetAttr();
        return;
      }
      var fh := SelectExport();
      var run := Resolve(w, 0, 0, [], rest, fh, None);
      assert Run(run.outcome, [] + run.log) == run;
      Internal(None, fh);
    }

    /** The loop over the nested mounts: the path is cut at a mount it lies in, and
        the mounts after it are compared with what is left. */
    method SelectExport() returns (fh: Handle)
      requires Holds(savedPath, saved) && Normal(saved, rest) && path == 0 && dir == []
      modifies this`savedPath, this`saved, this`rest
      ensures savedPath == old(savedPath) || fresh(savedPath)
      ensures Holds(savedPath, saved) && Placed(saved, path, dir, rest)
      ensures (saved, fh) == Select(w.mounts, old(saved), w.root, 0) && rest == Names(saved)
    {
      fh := w.root;
      var longest: nat, i: nat := 0, 0;
      assert w.mounts[0..] == w.mounts;
      while i < |w.mounts|
        modifies this`savedPath, this`saved, this`rest
        invariant 0 <= i <= |w.mounts| && Holds(savedPath, saved) && Normal(saved, rest)
        invariant savedPath == old(savedPath) || fresh(savedPath)
        invariant Select(w.mounts[i..], saved, fh, longest) == Select(w.mounts, old(saved), w.root, 0)
      {
        hide Normal, Select, Within, Holds;
        var mnt := w.mounts[i];
        SelectStep(w.mounts, i, saved, fh, longest);
        if |mnt.path| >= longest {
          var within := CutMount(mnt.path);
          if within {
            fh, longest := mnt.fh, |mnt.path|;
          }
        }
        i := i + 1;
      }
      NamesOfNormal(saved, rest);
      assert [] + rest == rest && Join([]) == "";
    }

    /** The path below a mount, in a new buffer, if it lies in the mount. */
    method CutMount(mount: CString) returns (within: bool)
      requires Holds(savedPath, saved) && Normal(saved, rest)
      modifies this`savedPath, this`saved, this`rest
      ensures Holds(savedPath, saved) && Normal(saved, rest)
      ensures savedPath == old(savedPath) || fresh(savedPath)
      ensures within <==> Within(old(saved), mount)
      ensures saved == if within then old(saved)[|mount|..] else old(saved)
    {
      assert savedPath[..|saved|] == saved;
      within := Matches(savedPath, 0, mount, saved);
      assert within ==> |mount| <= |saved|;
      assert within && |mount| < |saved| ==> savedPath[|mount|] == saved[|mount|] && saved[|mount|] in saved;
      within := within && (savedPath[|mount|] == NUL || savedPath[|mount|] == '/');
      if within {
        ghost var ds := BelowMount(saved, rest, mount);
        var below := ReadFrom(savedPath, |mount|, |saved| - |mount|);
        savedPath := Print(below, |below| + 1);
        saved, rest := saved[|mount|..], ds;
      }
    }

    /** Normalises the path in place and starts at its first component. */
    method Prepare(ghost full: CString) returns (ok: bool)
      requires Holds(savedPath, full)
      modifies this`path, this`saved, this`dir, this`rest, savedPath
      ensures ok <==> Canonical(full).Some?
      ensures ok ==>
        && path == 0 && saved == Canonical(full).value && dir == []
        && rest == Fold([], Split(full)).value
        && Holds(savedPath, saved) && Placed(saved, path, dir, rest)
        && (saved == "" ==> rest == []) && Normal(saved, rest)
    {
      ok := NormalizePath.Normalize(savedPath, full);
      if !ok {
        return;
      }
      CanonicalIsNormal(full);
      path := 0;
      saved, dir, rest := Canonical(full).value, [], Fold([], Split(full)).value;
      assert [] + rest == rest;
      JoinClean(rest);
    }

    /** The request for "": the root's attributes. */
    method SendGetAttr()
      requires Fresh() && Holds(savedPath, saved) && saved == "" && Placed(saved, path, dir, rest)
      modifies this`pending, this`log, this`calls
      ensures Waiting(Sending(GetAttr(w.root), AfterGetAttr(w, w.srv.getattr(0))))
    {
      pending, log, calls := AwaitGetAttr, [GetAttr(w.root)], 1;
    }

    /** The event loop hands the reply in flight to its callback. */
    method Deliver(ghost run: Run)
      requires Waiting(run)
      modifies this, savedPath
      ensures savedPath == old(savedPath) || fresh(savedPath)
      ensures Finished(run) || Closer(run, old(LinksLeft()), old(NamesLeft()))
    {
      match pending
      case AwaitGetAttr => GetAttrReply(w.srv.getattr(0), run);
      case AwaitLookup(d, name) => LookupReply(w.srv.lookup(calls - 1, d, name), run);
      case AwaitReadLink(l) => ReadLinkReply(w.srv.readlink(calls - 1, l), run);
    }

    /** Replies until none is due: every walk ends, whatever the server says. */
    method Drive(ghost run: Run)
      requires Waiting(run) || Finished(run)
      modifies this, savedPath
      ensures Finished(run)
    {
      while !pending.Idle?
        invariant savedPath == old(savedPath) || fresh(savedPath)
        invariant Waiting(run) || Finished(run)
        decreases !pending.Idle?, LinksLeft(), NamesLeft()
      {
        Deliver(run);
      }
    }

    // ----- replies

    /** nfs3_lookup_path_1_cb. */
    method LookupReply(r: Reply<Object>, ghost run: Run)
      requires Waiting(run) && pending.AwaitLookup? && r == w.srv.lookup(calls - 1, pending.dir, pending.name)
      modifies this, savedPath
      ensures savedPath == old(savedPath)
      ensures Finished(run) || Closer(run, old(LinksLeft()), old(NamesLeft()))
      ensures r.Refused? ==> done == [Fail(r.errno)]
      ensures r.RpcError? ==> done == [Fail(-14)]
      ensures r.Cancelled? || r.TimedOut? ==> done == [Fail(-4)]
      ensures done == [] || done[0].Continue? ==> savedPath[..] == old(savedPath[..])
    {
      if !r.Answer? {
        assert log + [] == log;
        Finish(Failure(r));
        return;
      }
      pending := Idle;
      Internal(Some(r.value.attr), r.value.fh);
    }

    /** nfs3_lookup_path_getattr_cb. */
    method GetAttrReply(r: Reply<Attr>, ghost run: Run)
      requires Waiting(run) && pending.AwaitGetAttr? && r == w.srv.getattr(0)
      modifies this, savedPath
      ensures savedPath == old(savedPath)
      ensures Finished(run) || Closer(run, old(LinksLeft()), old(NamesLeft()))
      ensures r.Refused? ==> done == [Fail(r.errno)]
      ensures r.RpcError? ==> done == [Fail(-14)]
      ensures r.Cancelled? || r.TimedOut? ==> done == [Fail(-4)]
    {
      EmptySpelling(dir, rest);
      if !r.Answer? {
        assert log + [] == log;
        Finish(Failure(r));
        return;
      }
      pending := Idle;
      Internal(Some(r.value), w.root);
    }

    /** nfs3_lookup_path_2_cb: builds the path to restart with, in a new buffer. */
    method ReadLinkReply(r: Reply<CString>, ghost run: Run)
      requires Waiting(run) && pending.AwaitReadLink? && r == w.srv.readlink(calls - 1, pending.link)
      modifies this, savedPath
      ensures savedPath == old(savedPath) || fresh(savedPath)
      ensures Finished(run) || Closer(run, old(LinksLeft()), old(NamesLeft()))
      ensures r.Refused? ==> done == [Fail(r.errno)]
      ensures r.RpcError? ==> done == [Fail(-14)]
      ensures r.Cancelled? || r.TimedOut? ==> done == [Fail(-4)]
    {
      hide Resolve, Restart, Fold, Split, Join, Canonical, AllProper;
      assert log + [] == log;
      if !r.Answer? {
        Finish(Failure(r));
        return;
      }
      var newPath, full := NewPath(r.value);
      if newPath == null {
        Finish(Fail(-ENOENT));
        return;
      }
      savedPath := newPath;
      ghost var ahead := AfterReadLink(w, calls - 1, linkCount - 1, dir, rest, r);
      StartOver(full, ahead);
    }

    /** Normalises the new path and resolves it from the root. */
    method StartOver(ghost full: CString, ghost ahead: Run)
      requires pending.AwaitReadLink? && done == [] && 0 < linkCount <= MAX_LINK_COUNT && 0 < calls == |log|
      requires Holds(savedPath, full) && full != "" && full[0] == '/'
      requires ahead == match Fold([], Split(full))
        case None => Run(Fail(-ENOENT), [])
        case Some(comps) => Resolve(w, calls, linkCount, [], comps, w.root, None)
      modifies this, savedPath
      ensures savedPath == old(savedPath)
      ensures var total := Run(ahead.outcome, old(log) + ahead.log);
        Finished(total) || Closer(total, old(LinksLeft()), 0)
    {
      hide Split, Join, AllProper, Resolve, AfterLookup, AfterReadLink, Restart, Proper;
      assert log + [] == log;
      var ok := Prepare(full);
      if !ok {
        Finish(Fail(-ENOENT));
        return;
      }
      pending := Idle;
      Internal(None, w.root);
    }

    /** The path a link sends the walk to, unnormalised, or null if it leaves
        the export. A relative target is printed after the path cut at the
        link, and what is left of the path after it. */
    method NewPath(target: CString) returns (b: array?<char>, ghost full: CString)
      requires Holds(savedPath, saved) && Placed(saved, path, dir, rest) && saved != "/"
      requires rest == [] || path == |Join(dir)| + 1
      modifies savedPath
      ensures b == null || (fresh(b) && Holds(b, full))
      ensures b == null ==> Restart(w.exported, dir, target, rest) == None
      ensures b != null ==> full != "" && full[0] == '/'
      ensures b != null ==> Restart(w.exported, dir, target, rest) == Fold([], Split(full))
    {
      hide Fold, Split, Join, AllProper;
      if target != "" && target[0] == '/' {
        b, full := AbsolutePath(target);
      } else {
        ProperHalves(dir, rest);
        RelativeRestart(dir, target, rest);
        PathSuffix(savedPath[..], saved, path, dir, rest);
        Appending(Join(dir), target, "");
        JoinStarts(rest);
        b := RelativePath(target);
        full := if path < |saved| then saved[..path - 1] + "/../" + target + ("/" + saved[path..])
                else saved + "/../" + target;
        assert full == Join(dir) + "/../" + target + Join(rest);
      }
    }

    /** An absolute target, relative to the export. */
    method AbsolutePath(target: CString) returns (b: array?<char>, ghost full: CString)
      requires target != "" && target[0] == '/'
      ensures b == null || (fresh(b) && Holds(b, full))
      ensures b == null ==> Restart(w.exported, dir, target, rest) == None
      ensures b != null ==> full != "" && full[0] == '/'
      ensures b != null ==> Restart(w.exported, dir, target, rest) == Fold([], Split(full))
    {
      b, full := null, "";
      if w.exported <= target {
        var ptr := target[|w.exported|..];
        if ptr != "" && ptr[0] == '/' {
          full := ptr;
          b := Print(ptr, |ptr| + 1);
        } else if ptr == "" {
          full := "/";
          assert Split("/") == ["", ""];
          b := Print("/", 2);
        }
      }
    }

    /** "%s/../%s" or "%s/../%s/%s", the first string ending at the link. */
    method RelativePath(target: CString) returns (b: array<char>)
      requires Holds(savedPath, saved) && path <= |saved|
      requires path < |saved| ==> path > 0
      modifies savedPath
      ensures fresh(b)
      ensures Holds(b, if path < |saved| then saved[..path - 1] + "/../" + target + ("/" + saved[path..])
                       else saved + "/../" + target)
    {
      ghost var before := savedPath[..];
      assert before[..|saved|] == saved;
      if savedPath[path] != NUL {
        savedPath[path - 1] := NUL;
        CutBuffer(before, savedPath[..], saved, path);
        var cut := ReadFrom(savedPath, 0, path - 1);
        var left := ReadFrom(savedPath, path, |saved| - path);
        Appending(cut, target, left);
        b := Print(cut + "/../" + target + "/" + left, |cut| + |target| + |left| + 6);
      } else {
        var whole := ReadFrom(savedPath, 0, |saved|);
        Appending(whole, target, "");
        b := Print(whole + "/../" + target, |whole| + |target| + 5);
      }
    }
  }

  /** A whole lookup: when it is accepted the caller's callback or continuation
      runs exactly once, with the reference's outcome, after exactly the
      reference's RPCs; when it is refused neither ever runs. */
  method LookUp(w: World, p: CString, cwd: CString) returns (ok: bool, done: seq<Outcome>, log: seq<Request>)
    ensures ok <==> LookupPath(w, p, cwd).Some?
    ensures ok ==> done == [LookupPath(w, p, cwd).value.outcome] && log == LookupPath(w, p, cwd).value.log
    ensures !ok ==> done == [] && log == []
    ensures ok ==> LookupEnds.Explained(w, 0, 40, Run(done[0], log))
  {
    var walk := new Walk(w);
    ok := walk.Start(p, cwd);
    if ok {
      walk.Drive(LookupPath(w, p, cwd).value);
      LookupEnds.LookupExplained(w, p, cwd);
    }
    done, log := walk.done, walk.log;
  }
}
