/** Zero-terminated strings kept in character buffers, and the libc scans the
    code uses on them. */
module CStrings {

  const NUL: char := '\0'

  /** What a `char *` denotes: characters without a terminator among them. */
  type CString = s: string | NUL !in s witness ""

  /** Buffer `b` holds string `s`, followed by its terminator. */
  ghost predicate Holds(b: array<char>, s: string)
    reads b
  {
    NUL !in s && |s| < b.Length && b[..|s|] == s && b[|s|] == NUL
  }

  /** `pat` occurs in `s` at index `i`. */
  predicate OccursAt(s: string, pat: string, i: nat) {
    i + |pat| <= |s| && s[i..i + |pat|] == pat
  }

  ghost predicate Occurs(s: string, pat: string) {
    exists i: nat :: OccursAt(s, pat, i)
  }

  /** strncmp(b + at, pat, strlen(pat)) == 0: the comparison stops at the
      first difference, so it never reads beyond the terminator. */
  method Matches(b: array<char>, at: nat, pat: string, ghost s: string) returns (r: bool)
    requires Holds(b, s) && at <= |s| && NUL !in pat
    ensures r == OccursAt(s, pat, at)
  {
    for i := 0 to |pat|
      invariant at + i <= |s| && s[at..at + i] == pat[..i]
    {
      assert b[..|s|][at + i..] == s[at + i..];
      assert at + i < |s| ==> b[at + i] == s[at + i];
      assert OccursAt(s, pat, at) ==> s[at..at + |pat|][i] == pat[i];
      if b[at + i] != pat[i] {
        return false;
      }
      assert pat[i] in pat;
      assert s[at..at + i + 1] == s[at..at + i] + [s[at + i]] && pat[..i + 1] == pat[..i] + [pat[i]];
    }
    return true;
  }

  /** strstr: the index of the first occurrence of `pat`, or -1. */
  method StrStr(b: array<char>, pat: string, ghost s: string) returns (r: int)
    requires Holds(b, s) && NUL !in pat && pat != ""
    ensures -1 <= r < |s|
    ensures r == -1 <==> !Occurs(s, pat)
    ensures r >= 0 ==> OccursAt(s, pat, r) && forall i: nat :: i < r ==> !OccursAt(s, pat, i)
  {
    var at := 0;
    assert b[..|s|] == s;
    while b[at] != NUL
      invariant at <= |s|
      invariant forall i: nat :: i < at ==> !OccursAt(s, pat, i)
      decreases |s| - at
    {
      var m := Matches(b, at, pat, s);
      if m {
        return at;
      }
      at := at + 1;
    }
    return -1;
  }

  /** strlen. */
  method StrLen(b: array<char>, ghost s: string) returns (n: nat)
    requires Holds(b, s)
    ensures n == |s|
  {
    n := 0;
    assert b[..|s|] == s;
    while b[n] != NUL
      invariant n <= |s|
      decreases |s| - n
    {
      n := n + 1;
    }
  }

  /** Deletes the `n` characters at `at` by shifting the rest down one
      character at a time, terminator included. Nothing beyond the old
      terminator is touched. */
  method ShiftDown(b: array<char>, at: nat, n: nat, ghost s: string)
    requires Holds(b, s) && 0 < n && at + n <= |s|
    modifies b
    ensures Holds(b, s[..at] + s[at + n..])
    ensures forall k :: |s| < k < b.Length ==> b[k] == old(b[k])
  {
    assert b[..|s|] == s;
    var i := at;
    while b[i + n - 1] != NUL
      invariant at <= i <= |s| - n + 1
      invariant forall k :: 0 <= k < at ==> b[k] == s[k]
      invariant forall k :: at <= k < i ==> b[k] == old(b[k + n])
      invariant forall k :: i <= k < b.Length ==> b[k] == old(b[k])
      decreases |s| - i
    {
      b[i] := b[i + n];
      i := i + 1;
    }
    ghost var t := s[..at] + s[at + n..];
    assert forall k :: 0 <= k < |s| ==> old(b[k]) == s[k];
    assert i == |s| - n + 1;
    assert b[|t|] == NUL;
    assert b[..|t|] == t;
  }

  /** strchr from `at`: the next index holding `c`, or -1. */
  method StrChr(b: array<char>, at: nat, c: char, ghost s: string) returns (r: int)
    requires Holds(b, s) && at <= |s| && c != NUL
    ensures r == -1 || at <= r < |s|
    ensures r >= 0 ==> s[r] == c
    ensures forall k :: at <= k < (if r == -1 then |s| else r) ==> s[k] != c
  {
    var i := at;
    assert b[..|s|] == s;
    while b[i] != NUL
      invariant at <= i <= |s|
      invariant forall k :: at <= k < i ==> s[k] != c
      decreases |s| - i
    {
      if b[i] == c {
        return i;
      }
      i := i + 1;
    }
    return -1;
  }

  /** What "%s" prints for the pointer `b + at`: up to the next terminator. */
  method ReadFrom(b: array<char>, at: nat, ghost n: nat) returns (r: string)
    requires at + n < b.Length && b[at + n] == NUL && NUL !in b[at..at + n]
    ensures r == b[at..at + n] && NUL !in r
  {
    r := "";
    var i := at;
    assert forall k :: at <= k < at + n ==> b[k] in b[at..at + n];
    while b[i] != NUL
      invariant at <= i <= at + n && r == b[at..i]
      invariant forall k :: at <= k < at + n ==> b[k] != NUL
      decreases at + n - i
    {
      r := r + [b[i]];
      i := i + 1;
    }
  }

  /** A fresh buffer of the given size holding `s` (malloc and sprintf). */
  method Print(s: string, size: nat) returns (b: array<char>)
    requires NUL !in s && |s| < size
    ensures fresh(b) && b.Length == size && Holds(b, s)
  {
    b := new char[size](i requires i >= 0 => if i < |s| then s[i] else NUL);
    assert b[..|s|] == s;
  }
}
