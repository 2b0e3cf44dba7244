/** nfs_normalize_path: five rewriting passes over a character buffer, proved to
    compute Canonical. */
module NormalizePath {
  import opened Wrappers
  import opened CStrings
  import opened Paths

  // ----- the rewriting passes preserve meaning

  /** `t` can replace `s`: same fold, same first and last slash. */
  ghost predicate Same(s: string, t: string) {
    && Fold([], Split(t)) == Fold([], Split(s))
    && |t| <= |s|
    && (t == "" <==> s == "")
    && (s != "" ==> (t[0] == '/' <==> s[0] == '/') && (t[|t| - 1] == '/' <==> s[|s| - 1] == '/'))
  }

  /** Text whose components leave every stack unchanged. */
  ghost predicate Neutral(m: string) {
    forall stack :: Fold(stack, Split(m)) == Some(stack)
  }

  lemma DropNeutral(a: string, m: string, b: string)
    requires Neutral(m)
    ensures Same(a + "/" + m + "/" + b, a + "/" + b)
  {
    SplitAt(a, m);
    SplitAt(a + "/" + m, b);
    SplitAt(a, b);
    var p, q, r := Split(a), Split(m), Split(b);
    FoldSeq([], p + q, r);
    FoldSeq([], p, q);
    FoldSeq([], p, r);
    var s, t := a + "/" + m + "/" + b, a + "/" + b;
    assert b == "" ==> s[|s| - 1] == '/' && t[|t| - 1] == '/';
    assert b != "" ==> s[|s| - 1] == b[|b| - 1] == t[|t| - 1];
    assert a == "" ==> s[0] == '/' && t[0] == '/';
    assert a != "" ==> s[0] == a[0] == t[0];
  }

  lemma Skipped()
    ensures Neutral("") && Neutral(".")
  {
    forall stack: seq<string>
      ensures Fold(stack, Split("")) == Some(stack) && Fold(stack, Split(".")) == Some(stack)
    {
      SplitOne(".");
      assert [""][1..] == [] && ["."][1..] == [];
    }
  }

  lemma Undone(c: string)
    requires Proper(c)
    ensures Neutral(c + "/..")
  {
    assert c + "/.." == c + "/" + "..";
    SplitAt(c, "..");
    SplitOne(c);
    SplitOne("..");
    assert Split(c + "/..") == [c, ".."];
    forall stack ensures Fold(stack, Split(c + "/..")) == Some(stack) {
      FoldPushPop(stack, c);
    }
  }

  /** Cutting out `s[i..j]`, where both ends are slashes. */
  lemma CutNeutral(s: string, i: nat, j: nat)
    requires i < j < |s| && s[i] == '/' && s[j] == '/'
    requires Neutral(s[i + 1..j])
    ensures Same(s, s[..i] + s[j..])
  {
    var a, m, b := s[..i], s[i + 1..j], s[j + 1..];
    DropNeutral(a, m, b);
    assert s == a + "/" + m + "/" + b;
    assert s[..i] + s[j..] == a + "/" + b;
  }

  lemma SameTrans(s: string, t: string, u: string)
    requires Same(s, t) && Same(t, u)
    ensures Same(s, u)
  {
  }

  // ----- what the passes leave

  ghost predicate Clean(t: string) {
    && t != "" && t[0] == '/' && NUL !in t
    && !Occurs(t, "//") && !Occurs(t, "/./") && !Occurs(t, "/../")
  }

  /** Where a pattern that starts and ends with a slash, and has none inside,
      occurs once `s[i..j]` is cut out between two slashes, it occurred before. */
  lemma OccurredBefore(s: string, i: nat, j: nat, pat: string, k: nat)
    requires i < j < |s| && s[i] == '/' && s[j] == '/'
    requires |pat| >= 2 && pat[0] == '/' && pat[|pat| - 1] == '/'
    requires forall k :: 0 < k < |pat| - 1 ==> pat[k] != '/'
    requires OccursAt(s[..i] + s[j..], pat, k)
    ensures Occurs(s, pat)
  {
    var t, n := s[..i] + s[j..], |pat|;
    assert t[i] == s[j];
    assert k <= i < k + n ==> t[k..k + n][i - k] == pat[i - k];
    if k + n <= i + 1 {
      assert s[k..k + n] == t[k..k + n];
      assert OccursAt(s, pat, k);
    } else {
      assert t[i..] == s[j..];
      assert t[k..k + n] == t[i..][k - i..k - i + n] == s[j..][k - i..k - i + n];
      assert s[k + j - i..k + j - i + n] == t[k..k + n];
      assert OccursAt(s, pat, k + j - i);
    }
  }

  lemma CutKeepsAbsent(s: string, i: nat, j: nat, pat: string)
    requires i < j < |s| && s[i] == '/' && s[j] == '/'
    requires |pat| >= 2 && pat[0] == '/' && pat[|pat| - 1] == '/'
    requires forall k :: 0 < k < |pat| - 1 ==> pat[k] != '/'
    requires !Occurs(s, pat)
    ensures !Occurs(s[..i] + s[j..], pat)
  {
    if Occurs(s[..i] + s[j..], pat) {
      var k :| OccursAt(s[..i] + s[j..], pat, k);
      OccurredBefore(s, i, j, pat, k);
    }
  }

  /** Every piece of a clean path other than the first and last is proper. */
  lemma InnerProper(t: string, i: nat)
    requires Clean(t) && 0 < i < |Split(t)| - 1
    ensures Proper(Split(t)[i])
  {
    SplitPieces(t);
    var c := Split(t)[i];
    var at := PieceAt(t, i);
    assert t[at..at + |c|] == c;
    assert t[at - 1..at + |c| + 1] == "/" + c + "/";
    assert OccursAt(t, "/" + c + "/", at - 1);
    assert "/" + "" + "/" == "//";
    assert "/" + "." + "/" == "/./";
    assert "/" + ".." + "/" == "/../";
  }

  /** A clean path cut at a slash before a last piece: the part before it is a
      list of proper components, spelled out. */
  lemma Body(a: string, last: string) returns (cs: seq<string>)
    requires Clean(a + "/" + last)
    requires '/' !in last
    ensures AllProper(cs) && Split(a) == [""] + cs && Join(cs) == a
  {
    var t := a + "/" + last;
    SplitAt(a, last);
    SplitOne(last);
    var parts := Split(t);
    assert parts == Split(a) + [last];
    assert parts[0] == "";
    cs := Split(a)[1..];
    forall i | 0 <= i < |cs|
      ensures Proper(cs[i])
    {
      InnerProper(t, i + 1);
      assert cs[i] == parts[i + 1];
    }
    JoinSplit(a);
    assert Join(Split(a)) == "/" + "" + Join(cs);
    assert ("/" + a)[1..] == a;
    assert ("/" + "" + Join(cs))[1..] == Join(cs);
  }

  lemma {:induction false} JoinLast(cs: seq<string>, c: string)
    ensures Join(cs + [c]) == Join(cs) + "/" + c
  {
    if cs == [] {
      assert [c][1..] == [];
      assert [] + [c] == [c];
    } else {
      JoinLast(cs[1..], c);
      assert (cs + [c])[1..] == cs[1..] + [c];
      var x := "/" + cs[0];
      assert x + (Join(cs[1..]) + "/" + c) == x + Join(cs[1..]) + "/" + c;
    }
  }

  /** The normal form of a clean path, read off its last piece. */
  lemma CanonicalOfClean(a: string, last: string)
    requires Clean(a + "/" + last) && '/' !in last
    ensures last == "" ==> Canonical(a + "/" + last) == Some(if a == "" then "/" else a)
    ensures last == "." ==> Canonical(a + "/" + last) == Some(a)
    ensures Proper(last) ==> Canonical(a + "/" + last) == Some(a + "/" + last)
    ensures last == ".." && a == "" ==> Canonical(a + "/" + last) == None
  {
    var cs := Body(a, last);
    var t := a + "/" + last;
    FoldLast(a, cs, last);
    assert last != "" ==> t[|t| - 1] == last[|last| - 1] && last[|last| - 1] in last;
    assert a == "" <==> cs == [] by {
      assert cs != [] ==> Join(cs)[0] == '/';
    }
    if Proper(last) {
      JoinLast(cs, last);
    }
  }

  lemma FoldLast(a: string, cs: seq<string>, last: string)
    requires AllProper(cs) && Split(a) == [""] + cs && '/' !in last
    ensures Fold([], Split(a + "/" + last)) == Fold(cs, [last])
    ensures last == "" || last == "." ==> Fold(cs, [last]) == Some(cs)
    ensures last == ".." && cs == [] ==> Fold(cs, [last]) == None
    ensures last == ".." && cs != [] ==> Fold(cs, [last]) == Some(cs[..|cs| - 1])
    ensures Proper(last) ==> Fold(cs, [last]) == Some(cs + [last])
  {
    SplitAt(a, last);
    SplitOne(last);
    FoldSeq([], Split(a), [last]);
    assert ([""] + cs)[1..] == cs;
    FoldProper([], cs);
    assert [] + cs == cs;
    assert [last][1..] == [];
  }

  /** ... and when the last piece is "..", the component before it goes too. */
  lemma CanonicalOfParent(a: string, c: string)
    requires Clean(a + "/" + c + "/..") && '/' !in c
    ensures Canonical(a + "/" + c + "/..") == Some(a)
  {
    var b := a + "/" + c;
    assert b + "/" + ".." == b + "/..";
    var cs := Body(b, "..");
    FoldLast(b, cs, "..");
    assert b[0] == (b + "/..")[0] == '/';
    assert cs != [];
    SplitAt(a, c);
    SplitOne(c);
    var ds := cs[..|cs| - 1];
    assert Split(a) + [c] == [""] + cs;
    assert Split(a) == (Split(a) + [c])[..|Split(a)|] == ([""] + cs)[..|cs|] == [""] + ds;
    JoinSplit(a);
    assert Join([""] + ds) == "/" + "" + Join(ds) by {
      assert ([""] + ds)[1..] == ds;
    }
    assert ("/" + a)[1..] == a;
    assert ("/" + "" + Join(ds))[1..] == Join(ds);
  }

  lemma CanonicalSame(s: string, t: string)
    requires Same(s, t)
    ensures Canonical(s) == Canonical(t)
  {
  }

  // ----- the code

  /** Rewrites the path in place. True is the code's 0 and false its -1. */
  method Normalize(path: array<char>, ghost s: string) returns (ok: bool)
    requires Holds(path, s)
    modifies path
    ensures ok <==> Canonical(s).Some?
    ensures ok ==> Holds(path, Canonical(s).value)
    ensures forall k :: |s| < k < path.Length ==> path[k] == old(path[k])
  {
    ghost var t := CollapseSlashes(path, s);
    t := CollapseDots(path, s, t);
    CanonicalSame(s, t);
    var up := Matches(path, 0, "/../", t);
    if up {
      StartsUp(t);
      return false;
    }
    assert path[..|t|] == t;
    if path[0] != '/' {
      return false;
    }
    var popped;
    popped, t := CollapseParents(path, s, t);
    CanonicalSame(s, t);
    if !popped {
      StartsUp(t);
      return false;
    }
    ok := TrimEnd(path, t);
  }

  /** A path whose first component is ".." pops the empty stack. */
  lemma StartsUp(t: string)
    requires OccursAt(t, "/../", 0)
    ensures Canonical(t) == None
  {
    var b := t[4..];
    assert t == "" + "/" + (".." + "/" + b) by {
      assert t == t[0..4] + b;
    }
    SplitAt("", ".." + "/" + b);
    SplitAt("..", b);
    SplitOne("..");
    assert Split(t) == [""] + ([".."] + Split(b));
    assert Split(t)[1..] == [".."] + Split(b);
    assert Fold([], [".."] + Split(b)) == None;
  }

  /** Pass 1: "//" becomes "/". */
  method CollapseSlashes(path: array<char>, ghost s: string) returns (ghost t: string)
    requires Holds(path, s)
    modifies path
    ensures Holds(path, t) && Same(s, t) && !Occurs(t, "//")
    ensures forall k :: |s| < k < path.Length ==> path[k] == old(path[k])
  {
    hide Split, Fold, Occurs;
    t := s;
    var at := StrStr(path, "//", t);
    while at >= 0
      invariant -1 <= at < |t|
      invariant Holds(path, t) && Same(s, t)
      invariant at == -1 <==> !Occurs(t, "//")
      invariant at >= 0 ==> OccursAt(t, "//", at)
      invariant forall k :: |s| < k < path.Length ==> path[k] == old(path[k])
      decreases |t|
    {
      assert t[at..at + 2][0] == '/' && t[at..at + 2][1] == '/';
      Skipped();
      assert t[at + 1..at + 1] == "";
      CutNeutral(t, at, at + 1);
      ShiftDown(path, at, 1, t);
      SameTrans(s, t, t[..at] + t[at + 1..]);
      t := t[..at] + t[at + 1..];
      at := StrStr(path, "//", t);
    }
  }

  /** Pass 2: "/./" becomes "/". */
  method CollapseDots(path: array<char>, ghost s: string, ghost t0: string) returns (ghost t: string)
    requires Holds(path, t0) && Same(s, t0) && !Occurs(t0, "//")
    modifies path
    ensures Holds(path, t) && Same(s, t) && !Occurs(t, "//") && !Occurs(t, "/./")
    ensures forall k :: |s| < k < path.Length ==> path[k] == old(path[k])
  {
    hide Split, Fold, Occurs;
    t := t0;
    var at := StrStr(path, "/./", t);
    while at >= 0
      invariant -1 <= at < |t|
      invariant Holds(path, t) && Same(s, t) && !Occurs(t, "//")
      invariant at == -1 <==> !Occurs(t, "/./")
      invariant at >= 0 ==> OccursAt(t, "/./", at)
      invariant forall k :: |s| < k < path.Length ==> path[k] == old(path[k])
      decreases |t|
    {
      assert t[at..at + 3][0] == '/' && t[at..at + 3][1] == '.' && t[at..at + 3][2] == '/';
      Skipped();
      assert t[at + 1..at + 2] == ".";
      CutNeutral(t, at, at + 2);
      CutKeepsAbsent(t, at, at + 2, "//");
      ShiftDown(path, at, 2, t);
      SameTrans(s, t, t[..at] + t[at + 2..]);
      t := t[..at] + t[at + 2..];
      at := StrStr(path, "/./", t);
    }
  }

  /** Pass 3: "/name/../" becomes "/". Stops, with false, at a leading "/../". */
  method CollapseParents(path: array<char>, ghost s: string, ghost t0: string) returns (ok: bool, ghost t: string)
    requires Holds(path, t0) && Same(s, t0) && !Occurs(t0, "//") && !Occurs(t0, "/./")
    requires t0 != "" && t0[0] == '/'
    modifies path
    ensures Holds(path, t) && Same(s, t)
    ensures if ok then Clean(t) else OccursAt(t, "/../", 0)
    ensures forall k :: |s| < k < path.Length ==> path[k] == old(path[k])
  {
    hide Split, Fold, Occurs;
    t := t0;
    var str := StrStr(path, "/../", t);
    while str >= 0
      invariant -1 <= str < |t|
      invariant Holds(path, t) && Same(s, t) && t != "" && t[0] == '/'
      invariant !Occurs(t, "//") && !Occurs(t, "/./")
      invariant str == -1 <==> !Occurs(t, "/../")
      invariant str >= 0 ==> OccursAt(t, "/../", str) && forall i: nat :: i < str ==> !OccursAt(t, "/../", i)
      invariant forall k :: |s| < k < path.Length ==> path[k] == old(path[k])
      decreases |t|
    {
      var leading := Matches(path, 0, "/../", t);
      if leading {
        return false, t;
      }
      assert t[str..str + 4][0] == '/' && t[str..str + 4][3] == '/';
      assert path[..|t|] == t;
      var tmp := str - 1;
      while path[tmp] != '/'
        invariant 0 <= tmp < str
        invariant forall k :: tmp < k < str ==> t[k] != '/'
        decreases tmp
      {
        tmp := tmp - 1;
      }
      ParentCut(t, tmp, str);
      CopyDown(path, tmp, str + 3, t);
      SameTrans(s, t, t[..tmp] + t[str + 3..]);
      t := t[..tmp] + t[str + 3..];
      str := StrStr(path, "/../", t);
    }
    return true, t;
  }

  lemma NameBefore(t: string, tmp: nat, str: nat) returns (c: string)
    requires NUL !in t && !Occurs(t, "//") && !Occurs(t, "/./")
    requires OccursAt(t, "/../", str) && forall i: nat :: i < str ==> !OccursAt(t, "/../", i)
    requires tmp < str && t[tmp] == '/' && forall k :: tmp < k < str ==> t[k] != '/'
    ensures Proper(c) && t[tmp + 1..str + 3] == c + "/.." && t[str + 3] == '/'
  {
    c := t[tmp + 1..str];
    assert t[str..str + 4][0] == '/' && t[str..str + 4][3] == '/';
    assert t[tmp..str + 1] == "/" + c + "/";
    assert OccursAt(t, "/" + c + "/", tmp);
    assert "/" + "" + "/" == "//" && "/" + "." + "/" == "/./" && "/" + ".." + "/" == "/../";
    assert t[str..str + 3] == "/.." by {
      assert t[str..str + 3] == t[str..str + 4][..3];
    }
  }

  /** The name in front of the first "/../" is a proper component, so cutting
      both out preserves the meaning and the earlier passes' work. */
  lemma ParentCut(t: string, tmp: nat, str: nat)
    requires NUL !in t && t != "" && t[0] == '/' && !Occurs(t, "//") && !Occurs(t, "/./")
    requires OccursAt(t, "/../", str) && forall i: nat :: i < str ==> !OccursAt(t, "/../", i)
    requires tmp < str && t[tmp] == '/' && forall k :: tmp < k < str ==> t[k] != '/'
    ensures t[str + 3] == '/'
    ensures Same(t, t[..tmp] + t[str + 3..])
    ensures !Occurs(t[..tmp] + t[str + 3..], "//") && !Occurs(t[..tmp] + t[str + 3..], "/./")
  {
    hide Same, Occurs;
    var c := NameBefore(t, tmp, str);
    Undone(c);
    CutNeutral(t, tmp, str + 3);
    CutKeepsAbsent(t, tmp, str + 3, "//");
    CutKeepsAbsent(t, tmp, str + 3, "/./");
  }

  /** while ((*(tmp++) = *(str++)) != '\0'): moves the tail, terminator
      included, from `src` down to `dst`. */
  method CopyDown(path: array<char>, dst: nat, src: nat, ghost t: string)
    requires Holds(path, t) && dst < src <= |t|
    modifies path
    ensures Holds(path, t[..dst] + t[src..])
    ensures forall k :: |t| < k < path.Length ==> path[k] == old(path[k])
  {
    assert path[..|t|] == t;
    var d, r := dst, src;
    path[d] := path[r];
    while path[d] != NUL
      invariant d - dst == r - src && src <= r <= |t|
      invariant forall k :: 0 <= k < dst ==> path[k] == t[k]
      invariant forall k :: dst <= k <= d ==> path[k] == old(path[k + src - dst])
      invariant forall k :: d < k < path.Length ==> path[k] == old(path[k])
      decreases |t| - r
    {
      assert old(path[r]) == path[d];
      d, r := d + 1, r + 1;
      path[d] := path[r];
    }
    ghost var u := t[..dst] + t[src..];
    assert forall k :: 0 <= k < |t| ==> old(path[k]) == t[k];
    assert r == |t|;
    assert forall k :: dst <= k < |u| ==> path[k] == t[k + src - dst];
    assert path[..|u|] == u;
  }

  /** The last slash of an absolute path. */
  lemma LastSlash(t: string) returns (a: string, last: string)
    requires t != "" && t[0] == '/'
    ensures t == a + "/" + last && '/' !in last
  {
    var k := |t| - 1;
    while t[k] != '/'
      invariant 0 <= k < |t|
      decreases k
      invariant '/' !in t[k + 1..]
    {
      assert t[k..] == [t[k]] + t[k + 1..];
      k := k - 1;
    }
    a, last := t[..k], t[k + 1..];
  }

  predicate EndsDot(u: string) {
    |u| >= 2 && u[|u| - 2] == '/' && u[|u| - 1] == '.'
  }

  predicate EndsUp(u: string) {
    |u| >= 3 && u[|u| - 3] == '/' && u[|u| - 2] == '.' && u[|u| - 1] == '.'
  }

  /** The tests on the end of the path are tests on its last piece ... */
  lemma Ending(a: string, last: string)
    requires '/' !in last
    ensures var t := a + "/" + last;
      && (t[|t| - 1] == '/' <==> last == "")
      && (EndsDot(t) <==> last == ".")
      && (EndsUp(t) <==> last == "..")
      && (t == "/.." <==> a == "" && last == "..")
  {
    var t := a + "/" + last;
    assert last == t[|a| + 1..];
    var n, m := |t|, |last|;
    assert m >= 1 ==> t[n - 1] == last[m - 1] && last[m - 1] in last;
    assert m >= 2 ==> t[n - 2] == last[m - 2] && last[m - 2] in last;
    assert m >= 3 ==> t[n - 3] == last[m - 3] && last[m - 3] in last;
    assert t[n - m - 1] == '/';
    assert t == "/.." ==> t[0] == '/' && t[1] == '.' && t[2] == '.';
    assert last == ".." ==> t[|t| - 1] == '.' && t[|t| - 2] == '.';
    assert "" + "/" + ".." == "/..";
  }

  /** ... and cutting that piece off exposes no other special ending. */
  lemma CutEnding(a: string, last: string)
    requires Clean(a + "/" + last)
    ensures !EndsDot(a) && !EndsUp(a) && NUL !in a
    ensures a != "/.."
  {
    var t, n := a + "/" + last, |a|;
    if EndsDot(a) {
      assert t[n - 2..n + 1] == "/./";
      assert OccursAt(t, "/./", n - 2);
    }
    if EndsUp(a) {
      assert t[n - 3..n + 1] == "/../";
      assert OccursAt(t, "/../", n - 3);
    }
    assert a == "/.." ==> EndsUp(a);
    assert a == t[..n];
  }

  /** A path with a last "" or "." cut off. */
  ghost function WithoutEmptyEnd(a: string, last: string): string {
    if last == "." || (last == "" && a != "") then a else a + "/" + last
  }

  lemma WithoutEmptyEndIsCanonical(a: string, last: string)
    requires Clean(a + "/" + last) && '/' !in last
    ensures !EndsDot(a) && !EndsUp(a) && NUL !in a
    ensures var u := WithoutEmptyEnd(a, last);
      if EndsUp(u) then u == a + "/" + last else Canonical(a + "/" + last) == Some(u)
  {
    Ending(a, last);
    CutEnding(a, last);
    CanonicalOfClean(a, last);
    assert last == (a + "/" + last)[|a| + 1..];
    assert Proper(last) || last == "" || last == "." || last == "..";
    assert "" + "/" + "" == "/";
  }

  /** Passes 4 and 5: a last "" or "." goes. */
  method CutEmptyEnd(path: array<char>, ghost a: string, ghost last: string) returns (len: nat)
    requires Holds(path, a + "/" + last) && '/' !in last && NUL !in a
    requires !EndsDot(a)
    modifies path
    ensures Holds(path, WithoutEmptyEnd(a, last)) && len == |WithoutEmptyEnd(a, last)|
    ensures forall k :: |a + "/" + last| < k < path.Length ==> path[k] == old(path[k])
  {
    ghost var t := a + "/" + last;
    Ending(a, last);
    len := StrLen(path, t);
    assert path[..|t|] == t;
    assert t[..|a|] == a;
    if len > 1 && path[len - 1] == '/' {
      path[len - 1] := NUL;
      len := len - 1;
      assert path[..len] == a;
    }
    // the code's next test, for an empty path, never fires
    assert len > 0;
    if len >= 2 && path[len - 2] == '/' && path[len - 1] == '.' {
      path[len - 2] := NUL;
      len := len - 2;
      assert path[..len] == a;
    }
  }

  /** The end of the path: its last piece decides. */
  method TrimEnd(path: array<char>, ghost t: string) returns (ok: bool)
    requires Holds(path, t) && Clean(t)
    modifies path
    ensures ok <==> Canonical(t).Some?
    ensures ok ==> Holds(path, Canonical(t).value)
    ensures forall k :: |t| < k < path.Length ==> path[k] == old(path[k])
  {
    ghost var a, last := LastSlash(t);
    WithoutEmptyEndIsCanonical(a, last);
    var len := CutEmptyEnd(path, a, last);
    ok := TrimUp(path, t, WithoutEmptyEnd(a, last), len);
  }

  /** The end of the path once a last "" or "." is gone from `t`, leaving `u`. */
  method TrimUp(path: array<char>, ghost t: string, ghost u: string, len: nat) returns (ok: bool)
    requires Holds(path, u) && len == |u| && len <= |t| && Clean(t)
    requires if EndsUp(u) then u == t else Canonical(t) == Some(u)
    modifies path
    ensures ok <==> Canonical(t).Some?
    ensures ok ==> Holds(path, Canonical(t).value)
    ensures forall k :: |t| < k < path.Length ==> path[k] == old(path[k])
  {
    assert path[..|u|] == u;
    assert u == "/.." ==> OccursAt(u, "/..", 0);
    var isUp := Matches(path, 0, "/..", u);
    if isUp && path[3] == NUL {
      assert u == u[0..3] == "/..";
      Ending("", "..");
      CanonicalOfClean("", "..");
      return false;
    }
    if len >= 3 && path[len - 3] == '/' && path[len - 2] == '.' && path[len - 1] == '.' {
      assert t == t[..len - 3] + "/..";
      assert "" + "/.." == "/..";
      PopLast(path, t, len);
    }
    return true;
  }

  /** Cuts the path at the slash in front of the name before a last "..". */
  method PopLast(path: array<char>, ghost t: string, len: nat)
    requires Holds(path, t) && Clean(t) && len == |t|
    requires EndsUp(t) && len > 3
    modifies path
    ensures Canonical(t).Some? && Holds(path, Canonical(t).value)
    ensures forall k :: |t| < k < path.Length ==> path[k] == old(path[k])
  {
    assert path[..|t|] == t;
    assert t[len - 3..] == "/..";
    var tmp := len - 4;
    while path[tmp] != '/'
      invariant 0 <= tmp < len - 3
      invariant forall k :: tmp < k < len - 3 ==> t[k] != '/'
      decreases tmp
    {
      tmp := tmp - 1;
    }
    ghost var a, c := t[..tmp], t[tmp + 1..len - 3];
    assert t == a + "/" + c + "/.." by {
      assert t == t[..len - 3] + t[len - 3..];
      assert t[..len - 3] == a + "/" + c;
    }
    CanonicalOfParent(a, c);
    path[tmp] := NUL;
    assert path[..tmp] == a;
  }
}
