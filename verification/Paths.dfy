/** What a path string means: its components, folded onto a stack. This is the
    reference the in-place rewriting of NormalizePath.dfy is proved against. */
module Paths {
  import opened Wrappers
  import opened CStrings

  /** The pieces between slashes, empty ones included. */
  function Split(s: string): (parts: seq<string>)
    ensures parts != []
  {
    if s == "" then [""]
    else
      var rest := Split(s[1..]);
      if s[0] == '/' then [""] + rest else [[s[0]] + rest[0]] + rest[1..]
  }

  /** Left fold of components onto a stack: "" and "." are skipped, ".." pops,
      and popping the empty stack is an error. */
  function Fold(stack: seq<string>, parts: seq<string>): Option<seq<string>>
    decreases |parts|
  {
    if parts == [] then Some(stack)
    else if parts[0] == "" || parts[0] == "." then Fold(stack, parts[1..])
    else if parts[0] == ".." then
      if stack == [] then None else Fold(stack[..|stack| - 1], parts[1..])
    else Fold(stack + [parts[0]], parts[1..])
  }

  /** A component that is neither skipped nor a pop. */
  predicate Proper(c: string) {
    c != "" && c != "." && c != ".." && '/' !in c && NUL !in c
  }

  predicate AllProper(cs: seq<string>) {
    forall i :: 0 <= i < |cs| ==> Proper(cs[i])
  }

  function Join(cs: seq<string>): string {
    if cs == [] then "" else "/" + cs[0] + Join(cs[1..])
  }

  /** The normal form of an absolute path, or None where normalisation fails.
      The root is "/" when the path ended in a slash and "" otherwise. */
  function Canonical(s: string): Option<string> {
    if s == "" || s[0] != '/' then None
    else match Fold([], Split(s))
      case None => None
      case Some(stack) => Some(if stack == [] && s[|s| - 1] == '/' then "/" else Join(stack))
  }

  // ----- splitting and folding a concatenation

  lemma {:induction false} SplitAt(a: string, b: string)
    ensures Split(a + "/" + b) == Split(a) + Split(b)
  {
    var s := a + "/" + b;
    if a == "" {
      assert s[1..] == b;
    } else {
      assert s[1..] == a[1..] + "/" + b;
      SplitAt(a[1..], b);
    }
  }

  lemma {:induction false} SplitOne(c: string)
    requires '/' !in c
    ensures Split(c) == [c]
  {
    if c != "" {
      SplitOne(c[1..]);
      assert [c[0]] + c[1..] == c;
    }
  }

  lemma {:induction false} FoldSeq(stack: seq<string>, p: seq<string>, q: seq<string>)
    ensures Fold(stack, p + q) == match Fold(stack, p) case None => None case Some(t) => Fold(t, q)
    decreases |p|
  {
    if p == [] {
      assert p + q == q;
    } else {
      assert (p + q)[1..] == p[1..] + q;
      if p[0] == "" || p[0] == "." {
        FoldSeq(stack, p[1..], q);
      } else if p[0] == ".." {
        if stack != [] {
          FoldSeq(stack[..|stack| - 1], p[1..], q);
        }
      } else {
        FoldSeq(stack + [p[0]], p[1..], q);
      }
    }
  }

  /** A component pushed and at once popped leaves the fold as it was. */
  lemma FoldPushPop(stack: seq<string>, c: string)
    requires Proper(c)
    ensures Fold(stack, [c, ".."]) == Some(stack)
  {
    assert [c, ".."][1..] == [".."];
    assert (stack + [c])[..|stack|] == stack;
    assert [".."][1..] == [];
    assert Fold(stack + [c], [".."]) == Fold(stack, []);
  }

  lemma {:induction false} FoldProper(stack: seq<string>, cs: seq<string>)
    requires AllProper(cs)
    ensures Fold(stack, cs) == Some(stack + cs)
    decreases |cs|
  {
    if cs == [] {
      assert stack + cs == stack;
    } else {
      FoldProper(stack + [cs[0]], cs[1..]);
      assert stack + cs == stack + [cs[0]] + cs[1..];
    }
  }

  lemma FoldSkip(stack: seq<string>, parts: seq<string>)
    requires parts != [] && (parts[0] == "" || parts[0] == ".")
    ensures Fold(stack, parts) == Fold(stack, parts[1..])
  {
  }

  lemma JoinOne(c: string)
    ensures Join([c]) == "/" + c
  {
    assert [c][1..] == [];
    assert "/" + c + "" == "/" + c;
  }

  lemma JoinStarts(cs: seq<string>)
    ensures if cs == [] then Join(cs) == "" else Join(cs) != "" && Join(cs)[0] == '/'
  {
  }

  // ----- pieces of a string

  lemma {:induction false} SplitPieces(s: string)
    requires NUL !in s
    ensures forall i :: 0 <= i < |Split(s)| ==> '/' !in Split(s)[i] && NUL !in Split(s)[i]
  {
    if s != "" {
      SplitPieces(s[1..]);
    }
  }

  lemma SliceTail(s: string, k: nat, n: nat)
    requires s != "" && k + n < |s|
    ensures s[1..][k..k + n] == s[k + 1..k + 1 + n]
  {
  }

  /** Every piece sits in the string between slashes (or its two ends). */
  lemma {:induction false} PieceAt(s: string, i: nat) returns (at: nat)
    requires i < |Split(s)|
    ensures OccursAt(s, Split(s)[i], at)
    ensures i > 0 <==> at > 0 && s[at - 1] == '/'
    ensures i == 0 ==> at == 0
    ensures i == |Split(s)| - 1 <==> at + |Split(s)[i]| == |s|
    ensures i < |Split(s)| - 1 ==> s[at + |Split(s)[i]|] == '/'
  {
    if s == "" {
      at := 0;
    } else if s[0] == '/' {
      if i == 0 {
        at := 0;
      } else {
        var k := PieceAt(s[1..], i - 1);
        at := k + 1;
        assert Split(s)[i] == Split(s[1..])[i - 1];
        SliceTail(s, k, |Split(s)[i]|);
      }
    } else {
      var k := PieceAt(s[1..], i);
      if i == 0 {
        at := 0;
        assert s[..|Split(s)[0]|] == [s[0]] + s[1..][..|Split(s[1..])[0]|];
      } else {
        at := k + 1;
        SliceTail(s, k, |Split(s)[i]|);
      }
    }
  }

  lemma Reassociate(a: string, b: string, c: string, d: string)
    ensures a + (b + c) + d == a + b + (c + d)
  {
  }

  lemma JoinHead(c: char, cs: seq<string>)
    requires cs != []
    ensures Join([[c] + cs[0]] + cs[1..]) == "/" + [c] + Join(cs)[1..]
  {
    var ds := [[c] + cs[0]] + cs[1..];
    assert ds[1..] == cs[1..];
    Reassociate("/", [c], cs[0], Join(cs[1..]));
    var tail := cs[0] + Join(cs[1..]);
    assert Join(cs) == "/" + tail by {
      Reassociate("/", "", cs[0], Join(cs[1..]));
      assert "" + cs[0] == cs[0];
      assert "/" + "" == "/";
    }
    assert ("/" + tail)[1..] == tail;
  }

  lemma {:induction false} JoinSplit(s: string)
    ensures Join(Split(s)) == "/" + s
  {
    if s == "" {
      assert Join([""]) == "/" + "" + "";
    } else {
      var rest := Split(s[1..]);
      var parts := Split(s);
      JoinSplit(s[1..]);
      hide Split;
      assert [s[0]] + s[1..] == s;
      if s[0] == '/' {
        assert parts[1..] == rest;
      } else {
        hide Join;
        JoinHead(s[0], rest);
        assert ("/" + s[1..])[1..] == s[1..];
        assert "/" + [s[0]] + s[1..] == "/" + ([s[0]] + s[1..]);
      }
    }
  }

  // ----- what the fold yields

  lemma {:induction false} FoldYieldsProper(stack: seq<string>, parts: seq<string>)
    requires AllProper(stack)
    requires forall i :: 0 <= i < |parts| ==> '/' !in parts[i] && NUL !in parts[i]
    ensures Fold(stack, parts).Some? ==> AllProper(Fold(stack, parts).value)
    decreases |parts|
  {
    if parts != [] {
      if parts[0] == "" || parts[0] == "." {
        FoldYieldsProper(stack, parts[1..]);
      } else if parts[0] == ".." {
        if stack != [] {
          FoldYieldsProper(stack[..|stack| - 1], parts[1..]);
        }
      } else {
        FoldYieldsProper(stack + [parts[0]], parts[1..]);
      }
    }
  }

  /** Names pushed less names popped. */
  function Height(parts: seq<string>): int {
    if parts == [] then 0
    else
      Height(parts[1..]) +
      if parts[0] == "" || parts[0] == "." then 0 else if parts[0] == ".." then -1 else 1
  }

  /** The fold fails exactly when some prefix pops more than was ever pushed,
      and otherwise leaves what was pushed and not popped. */
  lemma {:induction false} FoldSucceeds(stack: seq<string>, parts: seq<string>)
    ensures Fold(stack, parts).Some? <==> forall k :: 0 <= k <= |parts| ==> |stack| + Height(parts[..k]) >= 0
    ensures Fold(stack, parts).Some? ==> |Fold(stack, parts).value| == |stack| + Height(parts)
    decreases |parts|
  {
    if parts == [] {
      assert parts[..0] == [];
    } else {
      var next :=
        if parts[0] == "" || parts[0] == "." then stack
        else if parts[0] != ".." then stack + [parts[0]]
        else if stack == [] then stack else stack[..|stack| - 1];
      FoldSucceeds(next, parts[1..]);
      assert forall k :: 0 < k <= |parts| ==> parts[..k][1..] == parts[1..][..k - 1];
      assert parts[..1][1..] == [] && parts[..0] == [];
      assert Height(parts[..1]) == Height(parts[..1][1..]) + |next| - |stack| || (parts[0] == ".." && stack == []);
      if Fold(stack, parts).Some? {
        forall k | 0 <= k <= |parts| ensures |stack| + Height(parts[..k]) >= 0 {
          if k > 0 {
            assert |next| + Height(parts[1..][..k - 1]) >= 0;
          }
        }
      } else if stack != [] || parts[0] != ".." {
        var k :| 0 <= k <= |parts[1..]| && |next| + Height(parts[1..][..k]) < 0;
        assert parts[..k + 1][1..] == parts[1..][..k];
        assert |stack| + Height(parts[..k + 1]) < 0;
      } else {
        assert |stack| + Height(parts[..1]) < 0;
      }
    }
  }

  // ----- the normal form

  lemma {:induction false} SplitJoin(cs: seq<string>)
    requires AllProper(cs)
    ensures Split(Join(cs)) == [""] + cs
  {
    if cs != [] {
      SplitJoin(cs[1..]);
      var t := cs[0] + Join(cs[1..]);
      Reassociate("/", "", cs[0], Join(cs[1..]));
      assert "/" + cs[0] + Join(cs[1..]) == "/" + t;
      assert Join(cs)[0] == '/' && Join(cs)[1..] == t;
      SplitSlashFree(cs[0], Join(cs[1..]));
      assert [cs[0]] + cs[1..] == cs;
    }
  }

  /** Text without a slash in front of a string that is empty or starts with
      one becomes its first piece. */
  lemma {:induction false} SplitSlashFree(c: string, b: string)
    requires '/' !in c
    requires b == "" || b[0] == '/'
    ensures Split(c + b) == [c] + Split(b)[1..]
  {
    if c == "" {
      assert c + b == b;
      assert Split(b)[0] == "";
    } else {
      SplitSlashFree(c[1..], b);
      assert (c + b)[1..] == c[1..] + b;
      assert [c[0]] + c[1..] == c;
    }
  }

  lemma {:induction false} JoinSeq(p: seq<string>, q: seq<string>)
    ensures Join(p + q) == Join(p) + Join(q)
  {
    if p == [] {
      assert p + q == q;
    } else {
      JoinSeq(p[1..], q);
      assert (p + q)[1..] == p[1..] + q;
      assert "/" + p[0] + (Join(p[1..]) + Join(q)) == "/" + p[0] + Join(p[1..]) + Join(q);
    }
  }

  lemma {:induction false} FoldShrinks(stack: seq<string>, parts: seq<string>)
    ensures Fold(stack, parts).Some? ==> |Join(Fold(stack, parts).value)| <= |Join(stack)| + |Join(parts)|
    decreases |parts|
  {
    if parts != [] {
      if parts[0] == "" || parts[0] == "." {
        FoldShrinks(stack, parts[1..]);
      } else if parts[0] == ".." {
        if stack != [] {
          var init, last := stack[..|stack| - 1], stack[|stack| - 1];
          assert stack == init + [last];
          JoinSeq(init, [last]);
          FoldShrinks(init, parts[1..]);
        }
      } else {
        JoinSeq(stack, [parts[0]]);
        assert [parts[0]][1..] == [];
        FoldShrinks(stack + [parts[0]], parts[1..]);
      }
    }
  }

  /** The normal form of any path: its components are the fold of the path's
      components and all of them proper, it is no longer than the path, and
      normalising it again changes nothing - unless it is empty, when it is
      rejected. */
  lemma CanonicalIsNormal(s: string)
    requires NUL !in s && Canonical(s).Some?
    ensures var n, stack := Canonical(s).value, Fold([], Split(s)).value;
      && AllProper(stack)
      && Fold([], Split(n)) == Some(stack)
      && (n == Join(stack) || (n == "/" && stack == []))
      && |n| <= |s|
      && Canonical(n) == (if n == "" then None else Some(n))
  {
    hide Split, Fold, Join, AllProper, Proper;
    var n, stack := Canonical(s).value, Fold([], Split(s)).value;
    FoldOfPath(s);
    NormalForm(stack);
    SplitRoot();
    JoinStarts(stack);
  }

  lemma SplitRoot()
    ensures Fold([], Split("/")).Some? && Fold([], Split("/")).value == []
  {
    assert Split("/") == ["", ""] && ["", ""][1..] == [""] && [""][1..] == [];
  }

  /** The components of an absolute path are proper, and no longer, spelled
      out, than the path. */
  lemma FoldOfPath(s: string)
    requires NUL !in s && s != "" && s[0] == '/' && Fold([], Split(s)).Some?
    ensures AllProper(Fold([], Split(s)).value)
    ensures |Join(Fold([], Split(s)).value)| <= |s|
  {
    SplitPieces(s);
    FoldYieldsProper([], Split(s));
    var parts := Split(s);
    JoinSplit(s);
    assert parts[0] == "";
    hide Split;
    assert Join(parts) == "/" + Join(parts[1..]) by {
      assert "/" + "" == "/";
    }
    FoldShrinks([], parts[1..]);
    FoldSkip([], parts);
  }

  /** The spelling of proper components folds back to them. */
  lemma NormalForm(stack: seq<string>)
    requires AllProper(stack)
    ensures Fold([], Split(Join(stack))) == Some(stack)
    ensures stack != [] ==> Join(stack)[|Join(stack)| - 1] != '/'
  {
    hide Split, Fold, Join;
    SplitJoin(stack);
    FoldProper([], stack);
    FoldSkip([], [""] + stack);
    assert ([""] + stack)[1..] == stack && [] + stack == stack;
    if stack != [] {
      NoTrailingSlash(stack[..|stack| - 1], stack[|stack| - 1]);
      assert stack == stack[..|stack| - 1] + [stack[|stack| - 1]];
    }
  }

  lemma NoTrailingSlash(init: seq<string>, c: string)
    requires Proper(c)
    ensures var j := Join(init + [c]); j != "" && j[|j| - 1] != '/'
  {
    hide Join;
    JoinSeq(init, [c]);
    JoinOne(c);
    assert c[|c| - 1] in c;
  }
}
