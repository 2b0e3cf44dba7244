/** Percent-escapes in an NFS URL, replaced in place by the bytes they stand for. */
module Unescape {
  import opened CStrings

  // ----- what the escapes stand for

  predicate IsHex(c: char) {
    '0' <= c <= '9' || 'A' <= c <= 'F' || 'a' <= c <= 'f'
  }

  function HexValue(c: char): (v: nat)
    requires IsHex(c)
    ensures v < 16
  {
    if c <= '9' then (c - '0') as nat
    else if c <= 'F' then 10 + (c - 'A') as nat
    else 10 + (c - 'a') as nat
  }

  /** A percent sign with two hexadecimal digits after it. */
  predicate EscapeAt(s: string, i: nat) {
    i + 2 < |s| && s[i] == '%' && IsHex(s[i + 1]) && IsHex(s[i + 2])
  }

  function Escaped(s: string, i: nat): char
    requires EscapeAt(s, i)
  {
    (16 * HexValue(s[i + 1]) + HexValue(s[i + 2])) as char
  }

  /** One pass from left to right. */
  function Decode(s: string): (r: string)
    ensures |r| <= |s|
  {
    if s == "" then ""
    else if EscapeAt(s, 0) then [Escaped(s, 0)] + Decode(s[3..])
    else [s[0]] + Decode(s[1..])
  }

  /** Each character stands for itself, unless it is a percent sign and two digits
      follow, the more significant first. */
  lemma DecodeIs(s: string)
    requires s != ""
    ensures
      if |s| > 2 && s[0] == '%' && NumberOf(s[1]) >= 0 && NumberOf(s[2]) >= 0 then
        Decode(s) == [(16 * NumberOf(s[1]) + NumberOf(s[2])) as char] + Decode(s[3..])
      else Decode(s) == [s[0]] + Decode(s[1..])
  {
    hide NumberOf, HexValue, IsHex, Escaped;
    if |s| > 2 {
      NumberIs(s[1]);
      NumberIs(s[2]);
      if EscapeAt(s, 0) {
        EscapedIs(s);
      }
    }
  }

  lemma EscapedIs(s: string)
    requires EscapeAt(s, 0)
    ensures Escaped(s, 0) == (16 * NumberOf(s[1]) + NumberOf(s[2])) as char
  {
    NumberIs(s[1]);
    NumberIs(s[2]);
    hide NumberOf, HexValue, IsHex;
  }

  lemma NumberIs(c: char)
    ensures NumberOf(c) >= 0 <==> IsHex(c)
    ensures IsHex(c) ==> NumberOf(c) == HexValue(c)
  {
  }

  /** The number that a character is among the hexadecimal digits, or -1. */
  function NumberOf(c: char): (v: int)
    ensures -1 <= v < 16
  {
    if '0' <= c <= '9' then c as int - 48
    else if 'A' <= c <= 'F' then c as int - 55
    else if 'a' <= c <= 'f' then c as int - 87
    else -1
  }

  /** How one character of a path is written in a URL. */
  datatype Style = Plain | Upper | Lower

  function Digit(v: nat, upper: bool): (c: char)
    requires v < 16
    ensures IsHex(c) && HexValue(c) == v
  {
    if v < 10 then '0' + v as char else if upper then 'A' + (v - 10) as char else 'a' + (v - 10) as char
  }

  /** Percent-encoding with any choice of what to escape; a percent sign always is. */
  function Encode(s: string, how: seq<Style>): string
    requires |how| == |s| && forall i :: 0 <= i < |s| ==> s[i] as int < 256
  {
    if s == "" then ""
    else
      var c := s[0];
      (if how[0].Plain? && c != '%' then [c]
       else "%" + [Digit(c as nat / 16, how[0].Upper?), Digit(c as nat % 16, how[0].Upper?)])
      + Encode(s[1..], how[1..])
  }

  /** Decoding undoes every percent-encoding (section 2.1 of RFC 3986). */
  lemma {:induction false} DecodeEncode(s: string, how: seq<Style>)
    requires |how| == |s| && forall i :: 0 <= i < |s| ==> s[i] as int < 256
    ensures Decode(Encode(s, how)) == s
  {
    if s != "" {
      var c, e, rest := s[0], Encode(s, how), Encode(s[1..], how[1..]);
      DecodeEncode(s[1..], how[1..]);
      if how[0].Plain? && c != '%' {
        assert e == [c] + rest && e[1..] == rest;
      } else {
        assert e[3..] == rest;
        assert EscapeAt(e, 0) && Escaped(e, 0) == c;
      }
      assert [c] + s[1..] == s;
    }
  }

  /** A string is its own decoding exactly if it holds no escape: malformed ones
      are left alone. */
  lemma {:induction false} DecodeFixed(s: string)
    ensures Decode(s) == s <==> forall i: nat :: !EscapeAt(s, i)
  {
    if s != "" {
      DecodeFixed(s[1..]);
      assert forall i: nat :: EscapeAt(s, i + 1) <==> EscapeAt(s[1..], i);
      if EscapeAt(s, 0) {
        assert |Decode(s)| < |s|;
      } else {
        assert Decode(s)[1..] == Decode(s[1..]);
        assert (forall i: nat :: !EscapeAt(s, i)) <==> forall i: nat :: !EscapeAt(s[1..], i) by {
          if i: nat :| EscapeAt(s, i) {
            assert EscapeAt(s[1..], i - 1);
          }
        }
      }
    }
  }

  /** What is decoded is not looked at again: an escaped percent sign stays one. */
  lemma DecodedIsNotRescanned(s: string)
    ensures Decode("%25" + s) == "%" + Decode(s)
    ensures Decode(Decode("%2541")) != Decode("%2541")
  {
    assert ("%25" + s)[3..] == s;
    assert "%2541"[3..] == "41" && "41"[1..] == "1" && "1"[1..] == "";
    assert Decode("41") == "41";
    assert Decode("%2541") == "%41";
    assert "%41"[3..] == "" && EscapeAt("%41", 0);
  }

  /** An escape that stands for the terminator. */
  predicate NulEscapeAt(s: string, i: nat) {
    EscapeAt(s, i) && s[i + 1] == '0' && s[i + 2] == '0'
  }

  /** A string without terminators decodes to one exactly if it escapes none. */
  lemma {:induction false} NulFree(s: string)
    requires NUL !in s
    ensures NUL in Decode(s) <==> exists i: nat :: NulEscapeAt(s, i)
  {
    if s != "" {
      var n := if EscapeAt(s, 0) then 3 else 1;
      NulFree(s[n..]);
      assert forall i: nat :: NulEscapeAt(s, i + n) <==> NulEscapeAt(s[n..], i);
      if i: nat :| NulEscapeAt(s, i) && i > 0 {
        assert EscapeAt(s, 0) ==> s[1] != '%' && s[2] != '%';
        assert NulEscapeAt(s[n..], i - n);
      }
      if EscapeAt(s, 0) {
        assert Escaped(s, 0) == NUL <==> NulEscapeAt(s, 0);
      }
    }
  }

  // ----- the code

  /** tohex, on a byte: clearing bit 5 makes lower-case letters upper-case. */
  method ToHex(ch: char) returns (v: int)
    requires ch as int < 256
    ensures v == if IsHex(ch) then HexValue(ch) else -1
    ensures v ==
      if '0' <= ch <= '9' then ch as int - '0' as int
      else if 'A' <= ch <= 'F' then ch as int - 'A' as int + 10
      else if 'a' <= ch <= 'f' then ch as int - 'a' as int + 10
      else -1
  {
    if '0' <= ch <= '9' {
      return (ch - '0') as int;
    }
    var masked := if (ch as int / 32) % 2 == 1 then (ch as int - 32) as char else ch;
    if 'A' <= masked <= 'F' {
      return (masked - 'A') as int + 10;
    }
    return -1;
  }

  /** strchr(b + at, '%'), where the rest of the buffer is `t` and a terminator. */
  method FindPercent(b: array<char>, at: nat, ghost t: string) returns (r: int)
    requires Rest(b, at, t)
    ensures r == -1 || (at <= r < at + |t| && b[r] == '%')
    ensures forall k :: 0 <= k < (if r == -1 then |t| else r - at) ==> t[k] != '%'
  {
    var i := at;
    while b[i] != NUL
      invariant at <= i <= at + |t|
      invariant forall k :: 0 <= k < i - at ==> t[k] != '%'
      decreases at + |t| - i
    {
      assert b[i] == t[i - at];
      if b[i] == '%' {
        return i;
      }
      i := i + 1;
    }
    return -1;
  }

  /** From `at` on, the buffer holds `t`, of bytes other than the terminator,
      and then a terminator. */
  ghost predicate Rest(b: array<char>, at: nat, t: string)
    reads b
  {
    && at + |t| < b.Length && b[at + |t|] == NUL
    && (forall j :: at <= j < at + |t| ==> b[j] == t[j - at])
    && forall k :: 0 <= k < |t| ==> t[k] != NUL && t[k] as int < 256
  }

  /** memmove(b + at + 1, b + at + 3, strlen(b + at + 3) + 1) */
  method CloseGap(b: array<char>, at: nat, ghost t: string)
    requires Rest(b, at + 3, t)
    modifies b
    ensures Rest(b, at + 1, t)
    ensures forall k :: 0 <= k <= at || at + 3 + |t| < k < b.Length ==> b[k] == old(b[k])
  {
    var n: nat := 0;
    while b[at + 3 + n] != NUL
      invariant n <= |t|
      decreases |t| - n
    {
      n := n + 1;
    }
    forall k | 0 <= k <= n {
      b[at + 1 + k] := b[at + 3 + k];
    }
  }

  lemma {:induction false} SkipPlain(t: string, n: nat)
    requires n <= |t| && forall k :: 0 <= k < n ==> t[k] != '%'
    ensures Decode(t) == t[..n] + Decode(t[n..])
  {
    if n == 0 {
      assert t[..0] == "" && t[0..] == t;
    } else {
      SkipPlain(t[1..], n - 1);
      assert t[..n] == [t[0]] + t[1..][..n - 1] && t[1..][n - 1..] == t[n..];
    }
  }

  lemma Skip(b: array<char>, at: nat, t: string, n: nat, s: string)
    requires HalfWay(b, at, t, s) && n <= |t| && forall k :: 0 <= k < n ==> t[k] != '%'
    ensures HalfWay(b, at + n, t[n..], s)
  {
    SkipPlain(t, n);
    hide Decode;
    assert b[..at + n] == b[..at] + t[..n];
  }

  /** One round of the loop, at a percent sign. */
  method OneEscape(b: array<char>, at: nat, ghost t: string) returns (strp: nat, ghost rest: string)
    requires Rest(b, at, t) && t != "" && t[0] == '%'
    modifies b
    ensures Rest(b, strp, rest) && |rest| < |t| && strp + |rest| <= at + |t|
    ensures strp == at + 1 && b[..at] == old(b[..at])
    ensures [b[at]] + Decode(rest) == Decode(t)
    ensures forall k :: at + |t| < k < b.Length ==> b[k] == old(b[k])
  {
    strp, rest := at + 1, t[1..];
    assert b[at] == t[0];
    assert |t| > 1 ==> b[at + 1] == t[1];
    var tmp := ToHex(b[at + 1]);
    if tmp < 0 {
      return;
    }
    assert |t| > 2 ==> b[at + 2] == t[2];
    var ch := tmp * 16;
    tmp := ToHex(b[at + 2]);
    if tmp < 0 {
      return;
    }
    ch := ch + tmp;
    b[at] := ch as char;
    rest := t[3..];
    CloseGap(b, at, rest);
  }

  /** What is done and what is still to do make up the decoding of `s`. */
  ghost predicate HalfWay(b: array<char>, at: nat, t: string, s: string)
    reads b
  {
    && Rest(b, at, t) && at + |t| <= |s|
    && b[..at] + Decode(t) == Decode(s)
  }

  ghost predicate Finished(b: array<char>, s: string)
    reads b
  {
    var n := |Decode(s)|;
    n < b.Length && b[..n] == Decode(s) && b[n] == NUL
  }

  /** The part of a round after a percent sign was found. */
  method Round(b: array<char>, at: nat, ghost t: string, ghost s: string) returns (strp: nat, ghost rest: string)
    requires HalfWay(b, at, t, s) && t != "" && t[0] == '%'
    modifies b
    ensures HalfWay(b, strp, rest, s) && |rest| < |t|
    ensures forall k :: |s| < k < b.Length ==> b[k] == old(b[k])
  {
    hide Decode;
    ghost var done := b[..at];
    strp, rest := OneEscape(b, at, t);
    assert b[..strp] == done + [b[at]];
    assert done + ([b[at]] + Decode(rest)) == done + [b[at]] + Decode(rest);
  }

  lemma AtEnd(b: array<char>, at: nat, t: string, s: string)
    requires HalfWay(b, at, t, s) && b[at] == NUL
    ensures Finished(b, s)
  {
    assert t == "";
  }

  /** The loop of nfs_parse_url over its copy of the URL: the buffer ends up with
      the decoding and a terminator, and nothing beyond the old terminator is
      read or written. An escaped terminator does not stop it. */
  method UnescapeInPlace(b: array<char>, ghost s: string)
    requires Rest(b, 0, s)
    modifies b
    ensures Finished(b, s)
    ensures forall k :: |s| < k < b.Length ==> b[k] == old(b[k])
  {
    var strp: nat := 0;
    ghost var t := s;
    while b[strp] != NUL
      invariant HalfWay(b, strp, t, s)
      invariant forall k :: |s| < k < b.Length ==> b[k] == old(b[k])
      decreases |t|
    {
      var found := FindPercent(b, strp, t);
      ghost var n := if found == -1 then |t| else found - strp;
      Skip(b, strp, t, n, s);
      if found == -1 {
        AtEnd(b, strp + n, "", s);
        return;
      }
      hide HalfWay;
      strp, t := Round(b, found, t[n..], s);
    }
    AtEnd(b, strp, t, s);
  }

  /** What the rest of nfs_parse_url then sees: the decoding up to an escaped
      terminator, all of it exactly if there is none. */
  lemma SeenAsString(b: array<char>, s: string)
    requires NUL !in s && Finished(b, s)
    ensures Holds(b, Decode(s)) <==> forall i: nat :: !NulEscapeAt(s, i)
  {
    NulFree(s);
  }
}
