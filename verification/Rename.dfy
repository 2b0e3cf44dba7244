/** Renaming: the directories of both paths are looked up one after the other,
    dropped from the directory cache, and then one RENAME is sent. */
module Rename {
  import opened Wrappers
  import opened CStrings
  import opened Paths
  import opened Resolver
  import opened LookupWalker
  import DirCache

  // ----- the directory and the name in it

  /** strrchr(path, '/'), or -1. */
  function LastSlash(path: string): (r: int)
    ensures -1 <= r < |path|
    ensures r >= 0 ==> path[r] == '/'
    ensures forall k :: r < k < |path| ==> path[k] != '/'
  {
    if path == "" then -1
    else if path[|path| - 1] == '/' then |path| - 1
    else LastSlash(path[..|path| - 1])
  }

  /** What is looked up for the directory; no directory and the directory ""
      are the same to nfs3_lookuppath_async. */
  function ParentOf(path: string): string {
    if LastSlash(path) == -1 then "" else path[..LastSlash(path)]
  }

  function ObjectOf(path: string): string {
    path[LastSlash(path) + 1..]
  }

  /** `path` is `parent`, a slash and `name`, or `name` alone. */
  predicate Cut(path: string, parent: string, name: string) {
    '/' !in name && (path == parent + "/" + name || (parent == "" && path == name))
  }

  lemma CutHere(path: string)
    ensures Cut(path, ParentOf(path), ObjectOf(path))
  {
    var at := LastSlash(path);
    if at == -1 {
      assert path[0..] == path;
    } else {
      assert path == path[..at] + [path[at]] + path[at + 1..];
    }
  }

  /** There is only one way to cut a path. */
  lemma CutOnlyHere(path: string, parent: string, name: string)
    requires Cut(path, parent, name)
    ensures parent == ParentOf(path) && name == ObjectOf(path)
  {
    hide LastSlash;
    if path == parent + "/" + name {
      SlashAfter(parent, name);
      var n := |parent|;
      assert LastSlash(name) == -1;
      assert path[..n] == parent && path[n + 1..] == name;
    } else {
      assert LastSlash(path) == -1;
    }
  }

  /** What is in front of the last slash of the whole path. */
  function DirectoryOf(path: string, cwd: string): Option<seq<string>> {
    Fold([], Split(ParentOf(FullPath(path, cwd))))
  }

  /** A path of some components is renamed as its last component in the directory
      of the others exactly if it ends in a name, and its only slash is not its first
      character: then the directory is looked up as "", which is the current
      directory and not the root. */
  lemma RenamesTheLast(path: CString, cwd: CString, cs: seq<string>)
    requires Fold([], Split(FullPath(path, cwd))) == Some(cs) && cs != []
    ensures
      (Fold([], Split(FullPath(ParentOf(path), cwd))) == Some(cs[..|cs| - 1]) && ObjectOf(path) == cs[|cs| - 1]) <==>
      (Proper(ObjectOf(path)) && !(LastSlash(path) == 0 && Fold([], Split(cwd)) != Some([])))
  {
    hide Fold, Split, LastSlash;
    ComponentsAreProper(path, cwd, cs);
    if Proper(ObjectOf(path)) {
      LastIsObject(path, cwd, cs);
      ParentIsRight(path, cwd);
    }
  }

  lemma ComponentsAreProper(path: CString, cwd: CString, cs: seq<string>)
    requires Fold([], Split(FullPath(path, cwd))) == Some(cs)
    ensures AllProper(cs)
  {
    var full := FullPath(path, cwd);
    SplitPieces(full);
    FoldYieldsProper([], Split(full));
  }

  lemma LastIsObject(path: CString, cwd: CString, cs: seq<string>)
    requires Fold([], Split(FullPath(path, cwd))) == Some(cs) && Proper(ObjectOf(path))
    ensures cs != [] && DirectoryOf(path, cwd) == Some(cs[..|cs| - 1]) && ObjectOf(path) == cs[|cs| - 1]
  {
    hide Fold, Split, LastSlash, ParentOf, ObjectOf;
    var parent, name := ParentOf(FullPath(path, cwd)), ObjectOf(path);
    TakenApart(path, cwd);
    SplitAt(parent, name);
    SplitOne(name);
    FoldSeq([], Split(parent), [name]);
    if Fold([], Split(parent)).Some? {
      FoldProper(Fold([], Split(parent)).value, [name]);
    }
  }

  lemma TakenApart(path: CString, cwd: CString)
    requires Proper(ObjectOf(path))
    ensures FullPath(path, cwd) == ParentOf(FullPath(path, cwd)) + "/" + ObjectOf(path)
  {
    SameObject(path, cwd);
    CutAtLast(FullPath(path, cwd));
  }

  lemma CutAtLast(s: string)
    requires LastSlash(s) >= 0
    ensures s == ParentOf(s) + "/" + ObjectOf(s)
  {
    hide LastSlash;
    var at := LastSlash(s);
    assert s == s[..at] + [s[at]] + s[at + 1..];
  }

  lemma SameObject(path: CString, cwd: CString)
    requires path != ""
    ensures LastSlash(FullPath(path, cwd)) >= 0 && ObjectOf(FullPath(path, cwd)) == ObjectOf(path)
  {
    hide LastSlash;
    if path[0] == '/' {
      assert LastSlash(path) >= 0;
    } else {
      var at := LastSlash(path);
      SlashAfter(cwd, path);
      assert (cwd + "/" + path)[|cwd| + 1 + at + 1..] == path[at + 1..];
    }
  }

  /** The directory looked up is the one in front of the last slash, with the same
      exception. */
  lemma ParentIsRight(path: CString, cwd: CString)
    ensures Fold([], Split(FullPath(ParentOf(path), cwd))) == DirectoryOf(path, cwd) <==>
      !(LastSlash(path) == 0 && Fold([], Split(cwd)) != Some([]))
  {
    hide Fold, Split;
    if path == "" || path[0] != '/' {
      RelativeParent(path, cwd);
    } else if LastSlash(path) == 0 {
      CurrentDirectory(cwd);
      EmptyIsRoot();
    }
  }

  lemma EmptyIsRoot()
    ensures Fold([], Split("")) == Some([])
  {
    assert Split("") == [""] && Fold([], [""]) == Fold([], [""][1..]);
  }

  lemma RelativeParent(path: CString, cwd: CString)
    requires path == "" || path[0] != '/'
    ensures Fold([], Split(FullPath(ParentOf(path), cwd))) == DirectoryOf(path, cwd)
  {
    hide Fold, Split, LastSlash;
    CurrentDirectory(cwd);
    var relative := if path == "" then "." else path;
    var full := cwd + "/" + relative;
    assert FullPath(path, cwd) == full;
    SlashAfter(cwd, relative);
    var at := LastSlash(relative);
    if at == -1 {
      assert full[..|cwd|] == cwd;
    } else {
      assert full[..|cwd| + 1 + at] == cwd + "/" + relative[..at];
    }
  }

  /** With the current directory "/a", renaming "/x" looks for x in "/a". */
  lemma RootMeansCurrent()
    ensures DirectoryOf("/x", "/a") == Some([])
    ensures Fold([], Split(FullPath(ParentOf("/x"), "/a"))) == Some(["a"])
  {
    assert LastSlash("/x") == 0 by {
      SlashAfter("", "x");
      assert "" + "/" + "x" == "/x";
    }
    EmptyIsRoot();
    CurrentDirectory("/a");
    NormalForm(["a"]);
    assert Join(["a"]) == "/a";
  }

  /** Renaming "/d/" renames "" in "/d" where "d" in "/" is meant. */
  lemma FinalSlashIsNoName()
    ensures Fold([], Split(FullPath("/d/", "/"))) == Some(["d"])
    ensures Fold([], Split(FullPath(ParentOf("/d/"), "/"))) == Some(["d"]) && ObjectOf("/d/") == ""
  {
    assert LastSlash("/d/") == 2;
    assert "/d/" == "/d" + "/" + "" && "/d/"[..2] == "/d";
    SplitAt("/d", "");
    NormalForm(["d"]);
    assert Join(["d"]) == "/d";
    assert Split("") == [""];
    FoldSeq([], Split("/d"), [""]);
    FoldSkip(["d"], [""]);
    assert Fold(["d"], [""][1..]) == Some(["d"]);
  }

  /** cwd and cwd/. are the same directory. */
  lemma CurrentDirectory(cwd: string)
    ensures Fold([], Split(cwd + "/.")) == Fold([], Split(cwd))
  {
    assert cwd + "/." == cwd + "/" + ".";
    SplitAt(cwd, ".");
    SplitOne(".");
    FoldSeq([], Split(cwd), ["."]);
    if Fold([], Split(cwd)).Some? {
      var stack := Fold([], Split(cwd)).value;
      FoldSkip(stack, ["."]);
      assert Fold(stack, ["."][1..]) == Some(stack);
    }
  }

  lemma SlashAfter(cwd: string, path: string)
    ensures LastSlash(cwd + "/" + path) == |cwd| + 1 + LastSlash(path)
  {
    hide LastSlash;
    var full, q := cwd + "/" + path, LastSlash(path);
    forall k | |cwd| + 1 + q < k < |full|
      ensures full[k] != '/'
    {
      assert full[k] == path[k - |cwd| - 1];
    }
    assert full[|cwd| + 1 + q] == '/';
  }

  /** The part of nfs3_rename_async that takes a path apart in a copy of it. */
  method TakeApart(path: CString) returns (parent: CString, name: CString)
    ensures parent == ParentOf(path) && name == ObjectOf(path)
  {
    var copy := Print(path, |path| + 1);
    var at := StrRChr(copy, path);
    if at == -1 {
      return "", path;
    }
    copy[at] := NUL;
    assert forall k :: 0 <= k < |path| ==> path[k] != NUL;
    assert copy[..at] == path[..at] && copy[at + 1..|path|] == path[at + 1..];
    parent := ReadFrom(copy, 0, at);
    name := ReadFrom(copy, at + 1, |path| - at - 1);
  }

  method StrRChr(b: array<char>, ghost s: CString) returns (r: int)
    requires Holds(b, s)
    ensures r == LastSlash(s)
  {
    r := -1;
    var i := 0;
    assert forall k :: 0 <= k < |s| ==> b[k] == b[..|s|][k] && s[k] in s;
    while b[i] != NUL
      invariant 0 <= i <= |s| && -1 <= r < i
      invariant r >= 0 ==> s[r] == '/'
      invariant forall k :: r < k < i ==> s[k] != '/'
      decreases |s| - i
    {
      if b[i] == '/' {
        r := i;
      }
      i := i + 1;
    }
  }

  // ----- the chain

  datatype Renaming = Renaming(fromDir: Handle, fromName: string, toDir: Handle, toName: string)

  /** The server of a lookup that starts after n RPCs. */
  function After(srv: Server, n: nat): Server {
    Server((k: nat) => srv.getattr(n + k),
           (k: nat, fh: Handle, name: string) => srv.lookup(n + k, fh, name),
           (k: nat, fh: Handle) => srv.readlink(n + k, fh))
  }

  /** How a rename ends once it is accepted: the caller's status, the handles of
      the directories that were reached, the RPCs of both lookups, and the RENAME
      if it was sent. */
  datatype End = End(status: int, dirs: seq<Handle>, log: seq<Request>, renames: seq<Renaming>)

  function Status(reply: Reply<()>): int {
    if reply.Answer? then 0 else Failure(reply).status
  }

  /** What a rename does, or None when it is refused before any RPC. */
  function Expected(w: World, from: string, to: string, cwd: string, rename: Renaming -> Reply<()>): Option<End> {
    match LookupPath(w, ParentOf(from), cwd)
    case None => None
    case Some(first) =>
      if first.outcome.Fail? then Some(End(first.outcome.status, [], first.log, []))
      else Some(SecondHalf(w, first.log, first.outcome.fh, from, to, cwd, rename))
  }

  function SecondHalf(w: World, sent: seq<Request>, fromDir: Handle, from: string, to: string, cwd: string,
                      rename: Renaming -> Reply<()>): End {
    match LookupPath(w.(srv := After(w.srv, |sent|)), ParentOf(to), cwd)
    case None => End(-ENOMEM, [fromDir], sent, [])
    case Some(second) =>
      if second.outcome.Fail? then End(second.outcome.status, [fromDir], sent + second.log, [])
      else
        var args := Renaming(fromDir, ObjectOf(from), second.outcome.fh, ObjectOf(to));
        End(Status(rename(args)), [fromDir, args.toDir], sent + second.log,
            if rename(args).NotSent? then [] else [args])
  }

  /** What comes of renaming a name in one directory to a name in another: both
      directories are looked up, the second after the RPCs of the first, and the one
      RENAME is for the first name in the first directory found and for the second in
      the second. The caller gets 0 if it is answered, and else what its reply, or the
      lookup that failed, calls for. */
  ghost predicate Follows(w: World, cwd: string, rename: Renaming -> Reply<()>,
                          fromParent: string, fromName: string, toParent: string, toName: string,
                          ok: bool, done: seq<int>, log: seq<Request>, renames: seq<Renaming>,
                          before: seq<DirCache.Listing>, after: seq<DirCache.Listing>)
  {
    match LookupPath(w, fromParent, cwd)
    case None => !ok && done == [] && log == [] && renames == [] && after == before
    case Some(first) =>
      ok &&
      if first.outcome.Fail? then
        done == [first.outcome.status] && log == first.log && renames == [] && after == before
      else
        var n, without := |first.log|, DirCache.Found(before, first.outcome.fh).1;
        var later := Server((k: nat) => w.srv.getattr(n + k),
                            (k: nat, fh: Handle, name: string) => w.srv.lookup(n + k, fh, name),
                            (k: nat, fh: Handle) => w.srv.readlink(n + k, fh));
        match LookupPath(w.(srv := later), toParent, cwd)
        case None => done == [-12] && log == first.log && renames == [] && after == without
        case Some(second) =>
          && log == first.log + second.log
          && if second.outcome.Fail? then
               done == [second.outcome.status] && renames == [] && after == without
             else
               var args := Renaming(first.outcome.fh, fromName, second.outcome.fh, toName);
               && after == DirCache.Found(without, second.outcome.fh).1
               && renames == (if rename(args).NotSent? then [] else [args])
               && match rename(args)
                  case Answer(_) => done == [0]
                  case Refused(e) => done == [e]
                  case RpcError => done == [-14]
                  case Cancelled => done == [-4]
                  case TimedOut => done == [-4]
                  case NotSent => done == [-12]
  }

  ghost predicate IsEnd(end: Option<End>, ok: bool, done: seq<int>, log: seq<Request>, renames: seq<Renaming>,
                        before: seq<DirCache.Listing>, after: seq<DirCache.Listing>)
  {
    match end
    case None => !ok && done == [] && log == [] && renames == [] && after == before
    case Some(e) =>
      ok && done == [e.status] && log == e.log && renames == e.renames && after == Dropped(before, e.dirs)
  }

  lemma ExpectedFollows(w: World, from: string, to: string, cwd: string, rename: Renaming -> Reply<()>,
                        ok: bool, done: seq<int>, log: seq<Request>, renames: seq<Renaming>,
                        before: seq<DirCache.Listing>, after: seq<DirCache.Listing>)
    requires IsEnd(Expected(w, from, to, cwd, rename), ok, done, log, renames, before, after)
    ensures Follows(w, cwd, rename, ParentOf(from), ObjectOf(from), ParentOf(to), ObjectOf(to),
                    ok, done, log, renames, before, after)
    ensures |renames| <= 1
    ensures renames != [] ==> renames[0].fromName == ObjectOf(from) && renames[0].toName == ObjectOf(to)
  {
    hide LookupPath, ParentOf, ObjectOf, DirCache.Found, Dropped;
    var first := LookupPath(w, ParentOf(from), cwd);
    if first.Some? && first.value.outcome.Continue? {
      var fromDir := first.value.outcome.fh;
      var second := LookupPath(w.(srv := After(w.srv, |first.value.log|)), ParentOf(to), cwd);
      DroppedTwo(before, fromDir,
                 if second.Some? && second.value.outcome.Continue? then second.value.outcome.fh else fromDir);
    }
    DroppedTwo(before, [], []);
  }

  lemma DroppedTwo(cache: seq<DirCache.Listing>, a: Handle, b: Handle)
    ensures Dropped(cache, []) == cache
    ensures Dropped(cache, [a]) == DirCache.Found(cache, a).1
    ensures Dropped(cache, [a, b]) == DirCache.Found(DirCache.Found(cache, a).1, b).1
  {
    hide DirCache.Found;
    DropOne(cache, a, []);
    DropOne(cache, a, [b]);
    DropOne(DirCache.Found(cache, a).1, b, []);
    assert [a] + [] == [a] && [b] + [] == [b] && [a] + [b] == [a, b];
  }

  /** The names in the one RENAME are the last components of the two paths. */
  ghost predicate NamesSent(from: string, to: string, cwd: string, args: Renaming) {
    && (exists parent :: Cut(from, parent, args.fromName))
    && (exists parent :: Cut(to, parent, args.toName))
    && (forall cs :: Fold([], Split(FullPath(from, cwd))) == Some(cs) && Proper(args.fromName) ==>
          cs != [] && args.fromName == cs[|cs| - 1])
    && (forall cs :: Fold([], Split(FullPath(to, cwd))) == Some(cs) && Proper(args.toName) ==>
          cs != [] && args.toName == cs[|cs| - 1])
  }

  lemma OneWay(w: World, from: CString, to: CString, cwd: CString, rename: Renaming -> Reply<()>,
               ok: bool, done: seq<int>, log: seq<Request>, renames: seq<Renaming>,
               before: seq<DirCache.Listing>, after: seq<DirCache.Listing>)
    requires IsEnd(Expected(w, from, to, cwd, rename), ok, done, log, renames, before, after)
    ensures forall fromParent, fromName, toParent, toName ::
      Cut(from, fromParent, fromName) && Cut(to, toParent, toName) ==>
        Follows(w, cwd, rename, fromParent, fromName, toParent, toName, ok, done, log, renames, before, after)
    ensures |renames| <= 1 && (renames != [] ==> NamesSent(from, to, cwd, renames[0]))
  {
    hide LookupPath, ParentOf, ObjectOf, Fold, Split, Cut, Follows, Proper;
    ExpectedFollows(w, from, to, cwd, rename, ok, done, log, renames, before, after);
    forall p, a, q, b | Cut(from, p, a) && Cut(to, q, b)
      ensures Follows(w, cwd, rename, p, a, q, b, ok, done, log, renames, before, after)
    {
      CutOnlyHere(from, p, a);
      CutOnlyHere(to, q, b);
    }
    CutHere(from);
    CutHere(to);
    forall cs | Fold([], Split(FullPath(from, cwd))) == Some(cs) && Proper(ObjectOf(from))
      ensures cs != [] && ObjectOf(from) == cs[|cs| - 1]
    {
      LastIsObject(from, cwd, cs);
    }
    forall cs | Fold([], Split(FullPath(to, cwd))) == Some(cs) && Proper(ObjectOf(to))
      ensures cs != [] && ObjectOf(to) == cs[|cs| - 1]
    {
      LastIsObject(to, cwd, cs);
    }
  }

  /** The cache after the directories of a rename were dropped from it. */
  function Dropped(cache: seq<DirCache.Listing>, dirs: seq<Handle>): seq<DirCache.Listing>
    decreases |dirs|
  {
    if dirs == [] then cache else Dropped(DirCache.Found(cache, dirs[0]).1, dirs[1..])
  }

  /** nfs3_rename_async and all that follows. The caller is called back once if
      it is accepted and never otherwise, whatever the server answers; RENAME is
      sent at most once, only with both directories found, and both are dropped
      from the cache before. */
  method Rename(w: World, from: CString, to: CString, cwd: CString, rename: Renaming -> Reply<()>,
                cache: DirCache.Cache)
    returns (ok: bool, done: seq<int>, log: seq<Request>, renames: seq<Renaming>)
    requires cache.Valid()
    modifies cache.list, cache.list.spine
    ensures cache.Valid()
    ensures forall fromParent, fromName, toParent, toName ::
      Cut(from, fromParent, fromName) && Cut(to, toParent, toName) ==>
        Follows(w, cwd, rename, fromParent, fromName, toParent, toName, ok, done, log, renames,
                old(cache.Contents()), cache.Contents())
    ensures |renames| <= 1 && (renames != [] ==> NamesSent(from, to, cwd, renames[0]))
  {
    ok, done, log, renames := RenameParts(w, from, to, cwd, rename, cache);
    hide Expected, IsEnd, NamesSent, Cut, Follows;
    OneWay(w, from, to, cwd, rename, ok, done, log, renames, old(cache.Contents()), cache.Contents());
  }

  /** The two halves of it. */
  method RenameParts(w: World, from: CString, to: CString, cwd: CString, rename: Renaming -> Reply<()>,
                     cache: DirCache.Cache)
    returns (ok: bool, done: seq<int>, log: seq<Request>, renames: seq<Renaming>)
    requires cache.Valid()
    modifies cache.list, cache.list.spine
    ensures cache.Valid()
    ensures IsEnd(Expected(w, from, to, cwd, rename), ok, done, log, renames,
                  old(cache.Contents()), cache.Contents())
  {
    hide LookupPath;
    done, log, renames := [], [], [];
    var fromParent, fromName := TakeApart(from);
    var toParent, toName := TakeApart(to);
    var outcomes;
    ok, outcomes, log := LookUp(w, fromParent, cwd);
    if !ok {
      return;
    }
    if outcomes[0].Fail? {
      done := done + [outcomes[0].status];
      return;
    }
    done, log, renames := FromFound(w, log, outcomes[0].fh, from, to, fromName, toParent, toName, cwd, rename, cache);
  }

  /** nfs3_rename_continue_1_internal */
  method FromFound(w: World, sent: seq<Request>, fromDir: Handle, ghost from: CString, ghost to: CString,
                   fromName: CString, toParent: CString, toName: CString, cwd: CString,
                   rename: Renaming -> Reply<()>, cache: DirCache.Cache)
    returns (done: seq<int>, log: seq<Request>, renames: seq<Renaming>)
    requires cache.Valid()
    requires fromName == ObjectOf(from) && toParent == ParentOf(to) && toName == ObjectOf(to)
    modifies cache.list, cache.list.spine
    ensures cache.Valid()
    ensures var end := SecondHalf(w, sent, fromDir, from, to, cwd, rename);
      && done == [end.status] && log == end.log && renames == end.renames
      && cache.Contents() == Dropped(old(cache.Contents()), end.dirs)
    ensures var second := LookupPath(w.(srv := After(w.srv, |sent|)), toParent, cwd);
      renames != [] ==>
        second.Some? && second.value.outcome.Continue?
        && renames == [Renaming(fromDir, fromName, second.value.outcome.fh, toName)]
  {
    hide LookupPath, DirCache.Found, DirCache.Cache.Valid, DirCache.Cache.Contents;
    ghost var before := cache.Contents();
    cache.Drop(fromDir);
    ghost var between, spine := cache.Contents(), cache.list.spine;
    assert forall i :: 0 <= i < |spine| ==> spine[i] in spine;
    DropOne(before, fromDir, []);
    assert [fromDir] + [] == [fromDir];
    var ok, outcomes, more := LookUp(w.(srv := After(w.srv, |sent|)), toParent, cwd);
    done, log, renames := [], sent + more, [];
    if !ok {
      done := done + [-ENOMEM];
      return;
    }
    if outcomes[0].Fail? {
      done := done + [outcomes[0].status];
      return;
    }
    var toDir := outcomes[0].fh;
    cache.Drop(toDir);
    DropOne(before, fromDir, [toDir]);
    DropOne(between, toDir, []);
    assert [fromDir] + [toDir] == [fromDir, toDir] && [toDir] + [] == [toDir];
    var args := Renaming(fromDir, fromName, toDir, toName);
    if !rename(args).NotSent? {
      renames := renames + [args];
    }
    done := done + [Status(rename(args))];
  }

  lemma DropOne(cache: seq<DirCache.Listing>, a: Handle, more: seq<Handle>)
    ensures Dropped(cache, [a] + more) == Dropped(DirCache.Found(cache, a).1, more)
    ensures Dropped(cache, []) == cache
  {
    assert ([a] + more)[1..] == more;
  }
}
