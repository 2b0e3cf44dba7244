/** What a lookup is meant to do: a resolver that takes ".." by the text of the
    path, as the code does, and otherwise follows links as they are meant, in the
    whole namespace of the mounted exports; and exactly where the code does not. */
module Lexical {
  import opened Wrappers
  import opened CStrings
  import opened Paths
  import opened Resolver

  // ----- where a link leads

  predicate IsAbsolute(target: string) {
    target != "" && target[0] == '/'
  }

  /** The components, from the root of the mounted export, that a link at the end
      of `dir` stands for, with the names after it; the walk is in the export
      mounted at `prefix`. A final slash of the export means nothing. */
  function FullTarget(exported: string, prefix: seq<string>, dir: seq<string>, target: string, rest: seq<string>)
    : Option<seq<string>>
  {
    if IsAbsolute(target) then
      var base := WithoutSlash(exported);
      if Within(target, base) then Fold([], Split(target[|base|..]) + rest) else None
    else Fold([], prefix + dir + [".."] + Split(target) + rest)
  }

  /** Where a path begins: in the export at `prefix`, with `rest` to go. */
  datatype Place = Place(prefix: seq<string>, rest: seq<string>, fh: Handle)

  /** The first of the longest mounts that a path lies in. */
  function Longest(mounts: seq<Mount>, path: string): (r: nat)
    ensures r <= |mounts|
    ensures r < |mounts| ==> IsLongest(mounts, path, r)
    ensures r == |mounts| ==> forall j :: 0 <= j < |mounts| ==> !Within(path, mounts[j].path)
    ensures forall j :: 0 <= j < r && r < |mounts| && Within(path, mounts[j].path) ==>
      |mounts[j].path| < |mounts[r].path|
  {
    if mounts == [] then 0
    else
      var r, here := 1 + Longest(mounts[1..], path), mounts[0].path;
      assert forall j :: 1 <= j < |mounts| ==> mounts[j] == mounts[1..][j - 1];
      if Within(path, here) && (r == |mounts| || |mounts[r].path| <= |here|) then 0 else r
  }

  function PlaceOf(w: World, path: string, comps: seq<string>): Place {
    var i := Longest(w.mounts, path);
    if i == |w.mounts| then Place([], comps, w.root)
    else
      var below := Names(path[|w.mounts[i].path|..]);
      Place(if |below| <= |comps| then comps[..|comps| - |below|] else [], below, w.mounts[i].fh)
  }

  // ----- the reference

  /** Resolution in the export at `prefix`, from its directory `dir` with handle
      `fh`. `refuse` says that the caller asked not to open a link. */
  function Walk(w: World, refuse: bool, k: nat, links: nat, prefix: seq<string>, dir: seq<string>,
                rest: seq<string>, fh: Handle, attr: Option<Attr>): Run
    decreases MAX_LINK_COUNT - links, |rest|
  {
    var link := attr.Some? && attr.value.isLink;
    if link && refuse && rest == [] then Run(Fail(-ELOOP), [])
    else if link && (!w.noFollow || rest != []) then
      var r := w.srv.readlink(k, fh);
      if links >= MAX_LINK_COUNT then Run(Fail(-ELOOP), [])
      else if !r.Answer? then Attempt(ReadLink(fh), r)
      else
        Sending(ReadLink(fh),
                match FullTarget(w.exported, prefix, dir, r.value, rest)
                case None => Run(Fail(-ENOENT), [])
                case Some(full) =>
                  var p := PlaceOf(w, Join(full), full);
                  Walk(w, refuse, k + 1, links + 1, p.prefix, [], p.rest, p.fh, None))
    else if rest == [] then Run(Continue(fh, attr), [])
    else
      var r := w.srv.lookup(k, fh, rest[0]);
      if !r.Answer? then Attempt(Lookup(fh, rest[0]), r)
      else
        Sending(Lookup(fh, rest[0]),
                Walk(w, refuse, k + 1, links, prefix, dir + [rest[0]], rest[1..], r.value.fh, Some(r.value.attr)))
  }

  /** An RPC that was not answered: none is made without memory. */
  function Attempt<T>(request: Request, r: Reply<T>): Run
    requires !r.Answer?
  {
    match r
    case NotSent => Run(Fail(-ENOMEM), [])
    case RpcError => Run(Fail(-EFAULT), [request])
    case Refused(e) => Run(Fail(e), [request])
    case _ => Run(Fail(-EINTR), [request])
  }

  /** A whole lookup. */
  function MeantLookup(w: World, refuse: bool, path: string, cwd: string): Option<Run> {
    match Canonical(FullPath(path, cwd))
    case None => None
    case Some("") =>
      var r := w.srv.getattr(0);
      if r.NotSent? then None
      else if !r.Answer? then Some(Attempt(GetAttr(w.root), r))
      else Some(Sending(GetAttr(w.root), Walk(w, refuse, 1, 0, [], [], [], w.root, Some(r.value))))
    case Some(n) =>
      var p := PlaceOf(w, n, Names(FullPath(path, cwd)));
      Some(Walk(w, refuse, 0, 0, p.prefix, [], p.rest, p.fh, None))
  }

  // ----- one link

  predicate InMount(w: World, comps: seq<string>) {
    exists i :: 0 <= i < |w.mounts| && Within(Join(comps), w.mounts[i].path)
  }

  /** The code goes wrong after a link that stands for some path, if its target is
      absolute with names after it, or in an export written with a final slash; if
      it is relative and met in a nested export; or if it leads into one. */
  predicate Departs(w: World, prefix: seq<string>, dir: seq<string>, target: string, rest: seq<string>) {
    var full := FullTarget(w.exported, prefix, dir, target, rest);
    full.Some? &&
    (|| (IsAbsolute(target) && (rest != [] || !Within(target, w.exported)))
     || (!IsAbsolute(target) && prefix != [])
     || InMount(w, full.value))
  }

  /** Where the code goes on after a link, and where it is meant to. */
  function CodedPlace(w: World, dir: seq<string>, target: string, rest: seq<string>): Option<(seq<string>, Handle)> {
    match Restart(w.exported, dir, target, rest)
    case None => None
    case Some(comps) => Some((comps, w.root))
  }

  function MeantPlace(w: World, prefix: seq<string>, dir: seq<string>, target: string, rest: seq<string>)
    : Option<(seq<string>, Handle)>
  {
    match FullTarget(w.exported, prefix, dir, target, rest)
    case None => None
    case Some(full) => var p := PlaceOf(w, Join(full), full); Some((p.rest, p.fh))
  }

  /** Cutting at the final slash or before it makes no difference to the fold. */
  lemma SameBelow(exported: string, target: string)
    requires IsAbsolute(target) && Within(target, exported)
    ensures var base := WithoutSlash(exported);
      Within(target, base) && Fold([], Split(target[|base|..])) == Fold([], Split(target[|exported|..]))
  {
    var base, below := WithoutSlash(exported), target[|exported|..];
    if base != exported {
      assert target[|base|] == '/' && target[..|base|] == base;
      assert target[|base|..] == "" + "/" + below;
      SplitAt("", below);
      var parts := Split("") + Split(below);
      assert Split("") == [""] && parts[0] == "" && parts[1..] == Split(below);
      FoldSkip([], parts);
    }
  }

  /** An absolute target: what the names after it add. */
  lemma AbsoluteTarget(exported: string, prefix: seq<string>, dir: seq<string>, target: string, rest: seq<string>)
    requires IsAbsolute(target) && AllProper(rest)
    ensures var full, coded := FullTarget(exported, prefix, dir, target, rest), Restart(exported, dir, target, rest);
      && (coded.Some? ==> full == Some(coded.value + rest))
      && (full.Some? && Within(target, exported) ==> coded.Some?)
      && (!Within(target, exported) ==> coded == None)
  {
    var base := WithoutSlash(exported);
    if Within(target, exported) {
      SameBelow(exported, target);
      var parts := Split(target[|base|..]);
      FoldSeq([], parts, rest);
      if Fold([], parts).Some? {
        FoldProper(Fold([], parts).value, rest);
      }
    }
  }

  /** A relative target in a nested export: what the place of the export adds. */
  lemma {:induction false} FoldBelow(prefix: seq<string>, stack: seq<string>, parts: seq<string>)
    requires Fold(stack, parts).Some?
    ensures Fold(prefix + stack, parts) == Some(prefix + Fold(stack, parts).value)
    decreases |parts|
  {
    if parts != [] {
      var c, rest := parts[0], parts[1..];
      if c == "" || c == "." {
        FoldBelow(prefix, stack, rest);
      } else if c == ".." {
        assert (prefix + stack)[..|prefix + stack| - 1] == prefix + stack[..|stack| - 1];
        FoldBelow(prefix, stack[..|stack| - 1], rest);
      } else {
        assert prefix + stack + [c] == prefix + (stack + [c]);
        FoldBelow(prefix, stack + [c], rest);
      }
    }
  }

  lemma RelativeTarget(exported: string, prefix: seq<string>, dir: seq<string>, target: string, rest: seq<string>)
    requires !IsAbsolute(target) && AllProper(prefix)
    ensures var full, coded := FullTarget(exported, prefix, dir, target, rest), Restart(exported, dir, target, rest);
      && (prefix == [] ==> full == coded)
      && (coded.Some? ==> full == Some(prefix + coded.value))
  {
    var parts := dir + [".."] + Split(target) + rest;
    assert prefix + dir + [".."] + Split(target) + rest == prefix + parts;
    FoldSeq([], prefix, parts);
    FoldProper([], prefix);
    assert [] + prefix == prefix && prefix + [] == prefix;
    if Fold([], parts).Some? {
      FoldBelow(prefix, [], parts);
    }
    assert prefix == [] ==> prefix + parts == parts;
  }

  /** Elsewhere the code goes on where it is meant to. */
  lemma NoDeparture(w: World, prefix: seq<string>, dir: seq<string>, target: string, rest: seq<string>)
    requires AllProper(prefix) && AllProper(rest) && !Departs(w, prefix, dir, target, rest)
    ensures FullTarget(w.exported, prefix, dir, target, rest) == Restart(w.exported, dir, target, rest)
    ensures forall full :: Restart(w.exported, dir, target, rest) == Some(full) ==>
      PlaceOf(w, Join(full), full) == Place([], full, w.root)
  {
    if IsAbsolute(target) {
      AbsoluteTarget(w.exported, prefix, dir, target, rest);
      assert forall cs: seq<string> :: cs + [] == cs;
    } else {
      RelativeTarget(w.exported, prefix, dir, target, rest);
    }
  }

  /** Mounts are somewhere, and a mount of another name than the root's is not
      the root. */
  predicate ProperMounts(w: World) {
    forall i :: 0 <= i < |w.mounts| ==>
      w.mounts[i].path != "" && (w.mounts[i].path == "/" || w.mounts[i].fh != w.root)
  }

  /** The code goes on where it is meant to exactly if it does not depart. */
  lemma DepartsIff(w: World, prefix: seq<string>, dir: seq<string>, target: CString, rest: seq<string>)
    requires ProperMounts(w) && AllProper(prefix) && AllProper(dir) && AllProper(rest)
    requires prefix != [] ==> InMount(w, prefix)
    ensures CodedPlace(w, dir, target, rest) == MeantPlace(w, prefix, dir, target, rest) <==>
      !Departs(w, prefix, dir, target, rest)
  {
    if !Departs(w, prefix, dir, target, rest) {
      NoDeparture(w, prefix, dir, target, rest);
    } else {
      var full := FullTarget(w.exported, prefix, dir, target, rest).value;
      if IsAbsolute(target) {
        AbsoluteTarget(w.exported, prefix, dir, target, rest);
      } else {
        RelativeTarget(w.exported, prefix, dir, target, rest);
        var coded := Restart(w.exported, dir, target, rest);
        if coded.Some? && prefix != [] {
          StillInMount(w, prefix, coded.value);
        }
      }
      FullIsProper(w.exported, prefix, dir, target, rest);
      if InMount(w, full) {
        MountIsNotRoot(w, full);
      }
    }
  }

  lemma StillInMount(w: World, prefix: seq<string>, more: seq<string>)
    requires InMount(w, prefix)
    ensures InMount(w, prefix + more)
  {
    var i :| 0 <= i < |w.mounts| && Within(Join(prefix), w.mounts[i].path);
    JoinSeq(prefix, more);
    JoinStarts(more);
    assert Within(Join(prefix + more), w.mounts[i].path);
  }

  lemma FullIsProper(exported: string, prefix: seq<string>, dir: seq<string>, target: CString, rest: seq<string>)
    requires AllProper(prefix) && AllProper(dir) && AllProper(rest)
    requires FullTarget(exported, prefix, dir, target, rest).Some?
    ensures AllProper(FullTarget(exported, prefix, dir, target, rest).value)
  {
    if IsAbsolute(target) {
      var tail := target[|WithoutSlash(exported)|..];
      SplitPieces(tail);
      FoldYieldsProper([], Split(tail) + rest);
    } else {
      SplitPieces(target);
      FoldYieldsProper([], prefix + dir + [".."] + Split(target) + rest);
    }
  }

  lemma MountIsNotRoot(w: World, comps: seq<string>)
    requires ProperMounts(w) && InMount(w, comps) && AllProper(comps)
    ensures PlaceOf(w, Join(comps), comps).fh != w.root
  {
    var path := Join(comps);
    var i := Longest(w.mounts, path);
    if comps != [] {
      assert path[1] == comps[0][0] && comps[0][0] in comps[0];
    }
    assert w.mounts[i].path != "/";
  }

  // ----- whole walks

  /** Whether a walk of the code goes wrong: it refuses a link that it was not asked
      to refuse, or that is inside the path, or departs after one it follows. */
  predicate GoesWrong(w: World, refuse: bool, k: nat, links: nat, prefix: seq<string>, dir: seq<string>,
                      rest: seq<string>, fh: Handle, attr: Option<Attr>)
    decreases MAX_LINK_COUNT - links, |rest|
  {
    if attr.Some? && attr.value.isLink && (RefusesLinks(w) || !w.noFollow || rest != []) then
      var r := w.srv.readlink(k, fh);
      if RefusesLinks(w) then !refuse || rest != []
      else
        && links < MAX_LINK_COUNT && r.Answer?
        && (Departs(w, prefix, dir, r.value, rest) ||
            var coded := Restart(w.exported, dir, r.value, rest);
            coded.Some? && GoesWrong(w, refuse, k + 1, links + 1, [], [], coded.value, w.root, None))
    else
      rest != [] &&
      var r := w.srv.lookup(k, fh, rest[0]);
      r.Answer? &&
      GoesWrong(w, refuse, k + 1, links, prefix, dir + [rest[0]], rest[1..], r.value.fh, Some(r.value.attr))
  }

  /** A walk that does not is the one that is meant, RPC by RPC. `refuse` is only
      set by callers whose number has the bit. */
  lemma {:induction false} WalksAsMeant(w: World, refuse: bool, k: nat, links: nat, prefix: seq<string>,
                                        dir: seq<string>, rest: seq<string>, fh: Handle, attr: Option<Attr>)
    requires AllProper(prefix) && AllProper(dir) && AllProper(rest) && (refuse ==> RefusesLinks(w))
    requires !GoesWrong(w, refuse, k, links, prefix, dir, rest, fh, attr)
    ensures Resolve(w, k, links, dir, rest, fh, attr) == Walk(w, refuse, k, links, prefix, dir, rest, fh, attr)
    decreases MAX_LINK_COUNT - links, |rest|
  {
    if attr.Some? && attr.value.isLink && (RefusesLinks(w) || !w.noFollow || rest != []) {
      if !RefusesLinks(w) {
        var r := w.srv.readlink(k, fh);
        LinkGoesOn(w, k, links, dir, rest, fh);
        if links < MAX_LINK_COUNT && r.Answer? {
          NoDeparture(w, prefix, dir, r.value, rest);
          var coded := Restart(w.exported, dir, r.value, rest);
          if coded.Some? {
            RestartProper(w.exported, dir, r.value, rest);
            WalksAsMeant(w, refuse, k + 1, links + 1, [], [], coded.value, w.root, None);
          }
        }
      }
    } else if rest != [] {
      var r := w.srv.lookup(k, fh, rest[0]);
      if r.Answer? {
        WalksAsMeant(w, refuse, k + 1, links, prefix, dir + [rest[0]], rest[1..], r.value.fh, Some(r.value.attr));
      }
      NameGoesOn(w, k, links, dir, rest, fh, attr);
    }
  }

  lemma LinkGoesOn(w: World, k: nat, links: nat, dir: seq<string>, rest: seq<string>, fh: Handle)
    ensures FollowLink(w, k, links, dir, rest, fh) ==
      var r := w.srv.readlink(k, fh);
      if links >= MAX_LINK_COUNT then Run(Fail(-ELOOP), [])
      else if !r.Answer? then Attempt(ReadLink(fh), r)
      else
        Sending(ReadLink(fh),
                match Restart(w.exported, dir, r.value, rest)
                case None => Run(Fail(-ENOENT), [])
                case Some(comps) => Resolve(w, k + 1, links + 1, [], comps, w.root, None))
  {
    assert [ReadLink(fh)] + [] == [ReadLink(fh)];
  }

  lemma NameGoesOn(w: World, k: nat, links: nat, dir: seq<string>, rest: seq<string>, fh: Handle, attr: Option<Attr>)
    requires rest != []
    ensures NextName(w, k, links, dir, rest, fh, attr) ==
      var r := w.srv.lookup(k, fh, rest[0]);
      if !r.Answer? then Attempt(Lookup(fh, rest[0]), r)
      else
        Sending(Lookup(fh, rest[0]),
                Resolve(w, k + 1, links, dir + [rest[0]], rest[1..], r.value.fh, Some(r.value.attr)))
  {
    assert [Lookup(fh, rest[0])] + [] == [Lookup(fh, rest[0])];
  }

  /** ... or begins in the wrong export. */
  predicate LookupGoesWrong(w: World, refuse: bool, path: string, cwd: string) {
    match Canonical(FullPath(path, cwd))
    case None => false
    case Some("") =>
      var r := w.srv.getattr(0);
      r.Answer? && GoesWrong(w, refuse, 1, 0, [], [], [], w.root, Some(r.value))
    case Some(n) =>
      var p := PlaceOf(w, n, Names(FullPath(path, cwd)));
      !WellOrdered(w.mounts, n) || GoesWrong(w, refuse, 0, 0, p.prefix, [], p.rest, p.fh, None)
  }

  lemma LongestIsFirst(mounts: seq<Mount>, path: string)
    requires WellOrdered(mounts, path)
    ensures Longest(mounts, path) == FirstWithin(mounts, path)
  {
  }

  /** In a list that is in order for the path the code begins where it is meant to. */
  lemma BeginsAsMeant(w: World, path: string, cs: seq<string>)
    requires WellOrdered(w.mounts, path) && Normal(path, cs)
    ensures var (below, fh) := Select(w.mounts, path, w.root, 0);
      var p := PlaceOf(w, path, cs);
      p.rest == Names(below) && p.fh == fh && AllProper(p.prefix) && AllProper(p.rest)
  {
    SelectIs(w.mounts, path, w.root);
    NamesOfNormal(path, cs);
    LongestIsFirst(w.mounts, path);
    hide Select, Longest, FirstWithin, Names, IsLongest, Misled;
    var i := FirstWithin(w.mounts, path);
    if i < |w.mounts| {
      var ds := BelowMount(path, cs, w.mounts[i].path);
      NamesOfNormal(path[|w.mounts[i].path|..], ds);
    }
  }

  /** A whole lookup that neither begins in the wrong export nor goes wrong at a link
      is the one that is meant. */
  lemma LookupAsMeant(w: World, refuse: bool, path: CString, cwd: CString)
    requires refuse ==> RefusesLinks(w)
    requires !LookupGoesWrong(w, refuse, path, cwd)
    ensures LookupPath(w, path, cwd) == MeantLookup(w, refuse, path, cwd)
  {
    var full := FullPath(path, cwd);
    var r := w.srv.getattr(0);
    if Canonical(full) == Some("") {
      assert [GetAttr(w.root)] + [] == [GetAttr(w.root)];
      if r.Answer? {
        WalksAsMeant(w, refuse, 1, 0, [], [], [], w.root, Some(r.value));
      }
    } else if Canonical(full).Some? {
      CanonicalIsNormal(full);
      var n, cs := Canonical(full).value, Names(full);
      BeginsAsMeant(w, n, cs);
      var p := PlaceOf(w, n, cs);
      WalksAsMeant(w, refuse, 0, 0, p.prefix, [], p.rest, p.fh, None);
    }
  }

  // ----- how the code goes wrong

  /** "b" is lost when "a" in "/a/b" is a link to "/e/x". */
  lemma DropsNames()
    ensures Restart("/e", ["a"], "/e/x", ["b"]) == Some(["x"])
    ensures FullTarget("/e", [], ["a"], "/e/x", ["b"]) == Some(["x", "b"])
  {
    assert "/e/x"[|"/e"|..] == "" + "/" + "x" && Within("/e/x", "/e");
    SplitAt("", "x");
    SplitOne("x");
    var parts := [""] + ["x"];
    assert Split("") == [""] && parts[1..] == ["x"];
    FoldSkip([], parts);
    FoldProper([], ["x"]);
    assert [] + ["x"] == ["x"] && ["x"] + ["b"] == ["x", "b"];
    AbsoluteTarget("/e", [], ["a"], "/e/x", ["b"]);
  }

  /** In the export "/" the absolute target "/x" is not found. */
  lemma RootExportMisses()
    ensures Restart("/", ["a"], "/x", []) == None
    ensures FullTarget("/", [], ["a"], "/x", []) == Some(["x"])
  {
    assert "/x"[0..] == "" + "/" + "x" && Within("/x", "");
    SplitAt("", "x");
    SplitOne("x");
    var parts := [""] + ["x"];
    assert Split("") == [""] && parts[1..] == ["x"] && parts + [] == parts;
    FoldSkip([], parts);
    FoldProper([], ["x"]);
    assert [] + ["x"] == ["x"];
  }

  /** A relative link "l" in an export mounted at "/n" is taken for one in the root,
      and a link in the root that leads below "/n" ends up in the directory that the
      mount covers. */
  lemma WrongExportAfterLink(w: World, h: Handle)
    requires w.mounts == [Mount("/n", h)]
    ensures CodedPlace(w, ["l"], "x", []) == Some((["x"], w.root))
    ensures MeantPlace(w, ["n"], ["l"], "x", []) == Some((["x"], h))
    ensures CodedPlace(w, ["l"], "n/x", []) == Some((["n", "x"], w.root))
    ensures MeantPlace(w, [], ["l"], "n/x", []) == Some((["x"], h))
  {
    TargetBeside(w.exported, "l", "x");
    TwoBeside(w.exported);
    RelativeTarget(w.exported, ["n"], ["l"], "x", []);
    RelativeTarget(w.exported, [], ["l"], "n/x", []);
    assert ["n"] + ["x"] == ["n", "x"] && ["n", "x"][1..] == ["x"] && ["x"][1..] == [];
    assert Join(["n", "x"]) == "/n/x" && "/n/x"[..2] == "/n" && Within("/n/x", "/n");
    assert w.mounts[1..] == [];
    var below := "/n/x"[2..];
    assert below == "/x" == Join(["x"]);
    NamesOfNormal(below, ["x"]);
    assert Longest(w.mounts, "/n/x") == 0;
  }

  lemma TwoBeside(exported: string)
    ensures Restart(exported, ["l"], "n/x", []) == Some(["n", "x"])
  {
    assert "n/x" == "n" + "/" + "x";
    SplitAt("n", "x");
    SplitOne("n");
    SplitOne("x");
    assert ["n"] + ["x"] == ["n", "x"] && ["n", "x"] + [] == ["n", "x"];
    DirectoryOfLink(["l"], "n/x", []);
    assert ["l"][..0] == [];
    FoldProper([], ["n", "x"]);
    assert [] + ["n", "x"] == ["n", "x"];
  }

  /** A caller's number that has the bit of O_NOFOLLOW refuses links inside the path,
      where they are meant to be read, and at its end even if the caller asked for
      nothing of the kind, as when it truncates to 32 KiB. */
  lemma RefusedWithoutAsking(w: World, refuse: bool, k: nat, prefix: seq<string>, dir: seq<string>,
                             rest: seq<string>, fh: Handle, attr: Attr)
    requires RefusesLinks(w) && attr.isLink && !w.noFollow && !w.srv.readlink(k, fh).NotSent?
    requires !refuse || rest != []
    ensures Resolve(w, k, 0, dir, rest, fh, Some(attr)) == Run(Fail(-ELOOP), [])
    ensures var run := Walk(w, refuse, k, 0, prefix, dir, rest, fh, Some(attr));
      run.log != [] && run.log[0] == ReadLink(fh)
  {
  }
}
