/** The AUTH_SYS credential (RFC 5531 Appendix A), which libnfs_authunix_create
    writes word by word into a zeroed buffer. */
module AuthSys {
  import opened Wrappers
  import opened Bytes
  import opened Xdr
  import opened XdrRoundTrip
  import opened RpcMessage

  const MAX_GROUPS: nat := 16
  const MAX_MACHINE_NAME: uint32 := 255

  /** authsys_parms */
  const PARMS: Schema :=
    Struct([UInt, String(MAX_MACHINE_NAME), UInt, UInt, Array(MAX_GROUPS, 4, UInt)])

  function ParmsValue(stamp: uint32, host: seq<byte>, uid: uint32, gid: uint32, groups: seq<uint32>): Value {
    List([Num(stamp), Data(host), Num(uid), Num(gid), List(Nums(groups))])
  }

  function Nums(groups: seq<uint32>): (vs: seq<Value>)
    ensures |vs| == |groups|
  {
    if groups == [] then [] else [Num(groups[0])] + Nums(groups[1..])
  }

  function WordsOf(groups: seq<uint32>): (b: seq<byte>)
    ensures |b| == 4 * |groups|
  {
    if groups == [] then [] else Put32(groups[0]) + WordsOf(groups[1..])
  }

  /** The fields in front of the groups, spelled out. */
  function Head(stamp: uint32, host: seq<byte>, uid: uint32, gid: uint32, len: uint32): seq<byte>
    requires |host| <= UINT32_MAX
  {
    Put32(stamp) + Put32(|host|) + Padded(host) + Put32(uid) + Put32(gid) + Put32(len)
  }

  // ----- the bytes are the encoding

  lemma {:induction false} NumsEncode(groups: seq<uint32>)
    ensures ShapeAll([], UInt, Nums(groups))
    ensures EncodeAll([], UInt, Nums(groups)) == WordsOf(groups)
    ensures AllowedAll([], UInt, Nums(groups), true)
  {
    if groups != [] {
      NumsEncode(groups[1..]);
      assert Nums(groups)[1..] == Nums(groups[1..]);
    }
  }

  /** The structure's encoding is the head followed by the groups. */
  lemma ParmsEncode(stamp: uint32, host: seq<byte>, uid: uint32, gid: uint32, groups: seq<uint32>)
    requires |host| <= UINT32_MAX && 0 !in host && |groups| <= MAX_GROUPS
    ensures Shape([], PARMS, ParmsValue(stamp, host, uid, gid, groups))
    ensures Encode([], PARMS, ParmsValue(stamp, host, uid, gid, groups)) ==
            Head(stamp, host, uid, gid, |groups|) + WordsOf(groups)
  {
    hide Shape, Encode, Put32, Padded, WordsOf, Nums, Head;
    NumsLeaf(groups);
    NumLeaf(stamp);
    NumLeaf(uid);
    NumLeaf(gid);
    HostLeaf(host);
    FieldsOfParms(Num(stamp), Data(host), Num(uid), Num(gid), List(Nums(groups)));
    HeadThenGroups(stamp, host, uid, gid, |groups|, WordsOf(groups));
  }

  lemma NumLeaf(u: uint32)
    ensures Shape([], UInt, Num(u)) && Encode([], UInt, Num(u)) == Put32(u)
  {
  }

  lemma HostLeaf(host: seq<byte>)
    requires |host| <= UINT32_MAX && 0 !in host
    ensures var s := String(MAX_MACHINE_NAME);
      Shape([], s, Data(host)) && Encode([], s, Data(host)) == Put32(|host|) + Padded(host)
  {
  }

  lemma NumsLeaf(groups: seq<uint32>)
    requires |groups| <= MAX_GROUPS
    ensures var a := Array(MAX_GROUPS, 4, UInt);
      && Shape([], a, List(Nums(groups)))
      && Encode([], a, List(Nums(groups))) == Put32(|groups|) + WordsOf(groups)
  {
    NumsEncode(groups);
  }

  lemma FieldsOfParms(n: Value, h: Value, u: Value, g: Value, l: Value)
    requires var s, a := String(MAX_MACHINE_NAME), Array(MAX_GROUPS, 4, UInt);
      Shape([], UInt, n) && Shape([], s, h) && Shape([], UInt, u) && Shape([], UInt, g) && Shape([], a, l)
    ensures Shape([], PARMS, List([n, h, u, g, l]))
    ensures Encode([], PARMS, List([n, h, u, g, l])) ==
      Encode([], UInt, n) + (Encode([], String(MAX_MACHINE_NAME), h) + (Encode([], UInt, u) + (Encode([], UInt, g) +
      (Encode([], Array(MAX_GROUPS, 4, UInt), l) + []))))
  {
    hide Shape, Encode, ShapeFields, EncodeFields;
    var s, a := String(MAX_MACHINE_NAME), Array(MAX_GROUPS, 4, UInt);
    LayoutNil([]);
    LayoutCons([], a, [], l, []);
    LayoutCons([], UInt, [a] + [], g, [l] + []);
    LayoutCons([], UInt, [UInt] + ([a] + []), u, [g] + ([l] + []));
    LayoutCons([], s, [UInt] + ([UInt] + ([a] + [])), h, [u] + ([g] + ([l] + [])));
    var fs, vs := [s] + ([UInt] + ([UInt] + ([a] + []))), [h] + ([u] + ([g] + ([l] + [])));
    LayoutCons([], UInt, fs, n, vs);
    assert [UInt] + fs == [UInt, s, UInt, UInt, a] && [n] + vs == [n, h, u, g, l];
    LayoutStruct([], [UInt, s, UInt, UInt, a], [n, h, u, g, l]);
  }

  lemma HeadThenGroups(stamp: uint32, host: seq<byte>, uid: uint32, gid: uint32, len: uint32, words: seq<byte>)
    requires |host| <= UINT32_MAX
    ensures Put32(stamp) + (Put32(|host|) + Padded(host) + (Put32(uid) + (Put32(gid) + (Put32(len) + words + [])))) ==
            Head(stamp, host, uid, gid, len) + words
  {
    hide Put32, Padded;
  }

  /** A receiver bound by RFC 5531 Appendix A understands the credential exactly
      when the host name is within its limit, which the code does not check. */
  lemma CredentialRoundTrip(stamp: uint32, host: seq<byte>, uid: uint32, gid: uint32, groups: seq<uint32>)
    requires |host| <= UINT32_MAX && 0 !in host && |groups| <= MAX_GROUPS
    ensures var v := ParmsValue(stamp, host, uid, gid, groups);
      && Shape([], PARMS, v)
      && Decode([], PARMS, Encode([], PARMS, v)) ==
         (if |host| <= 255 then Some((v, |Encode([], PARMS, v)|)) else None)
  {
    var v := ParmsValue(stamp, host, uid, gid, groups);
    ParmsEncode(stamp, host, uid, gid, groups);
    var e := Encode([], PARMS, v);
    assert e + [] == e;
    if |host| <= MAX_MACHINE_NAME {
      NumsEncode(groups);
      ParmsAllowed(stamp, host, uid, gid, groups);
      assert Sound(PARMS, true);
      SoundRoundTrip([], PARMS, v, []);
    } else {
      LongHost(stamp, host, e[8..]);
      hide Padded, Put32;
      assert e == Put32(stamp) + Put32(|host|) + e[8..];
    }
  }

  lemma ParmsAllowed(stamp: uint32, host: seq<byte>, uid: uint32, gid: uint32, groups: seq<uint32>)
    requires |host| <= MAX_MACHINE_NAME && 0 !in host && |groups| <= MAX_GROUPS
    ensures var v := ParmsValue(stamp, host, uid, gid, groups);
      Shape([], PARMS, v) && Allowed([], PARMS, v, true)
  {
    NumsEncode(groups);
    var s, a := String(MAX_MACHINE_NAME), Array(MAX_GROUPS, 4, UInt);
    var l := List(Nums(groups));
    assert Good([], a, l) && Good([], s, Data(host));
    GoodNum([], stamp);
    GoodNum([], uid);
    GoodNum([], gid);
    GoodNil([]);
    hide Good, GoodFields;
    GoodCons([], a, [], l, []);
    GoodCons([], UInt, [a] + [], Num(gid), [l] + []);
    GoodCons([], UInt, [UInt] + ([a] + []), Num(uid), [Num(gid)] + ([l] + []));
    var fs, vs := [UInt] + ([UInt] + ([a] + [])), [Num(uid)] + ([Num(gid)] + ([l] + []));
    GoodCons([], s, fs, Data(host), vs);
    GoodCons([], UInt, [s] + fs, Num(stamp), [Data(host)] + vs);
    assert [UInt] + ([s] + fs) == [UInt, s, UInt, UInt, a];
    assert [Num(stamp)] + ([Data(host)] + vs) == [Num(stamp), Data(host), Num(uid), Num(gid), l];
    GoodStruct([], [UInt, s, UInt, UInt, a], [Num(stamp), Data(host), Num(uid), Num(gid), l]);
    assert Good([], PARMS, ParmsValue(stamp, host, uid, gid, groups));
    GoodMeans(PARMS, ParmsValue(stamp, host, uid, gid, groups));
  }

  lemma GoodMeans(s: Schema, v: Value)
    requires Good([], s, v)
    ensures Shape([], s, v) && Allowed([], s, v, true)
  {
  }

  lemma LongHost(stamp: uint32, host: seq<byte>, tail: seq<byte>)
    requires MAX_MACHINE_NAME < |host| <= UINT32_MAX
    ensures Decode([], PARMS, Put32(stamp) + Put32(|host|) + tail) == None
  {
    var b := Put32(stamp) + Put32(|host|) + tail;
    After32(stamp, Put32(|host|), tail);
    After32(|host|, [], tail);
    assert Put32(|host|) + [] + tail == Put32(|host|) + tail;
    var fields := [UInt, String(MAX_MACHINE_NAME), UInt, UInt, Array(MAX_GROUPS, 4, UInt)];
    assert DecodeString(MAX_MACHINE_NAME, b[4..]) == None;
    assert fields[1..][0] == String(MAX_MACHINE_NAME);
    assert DecodeFields([], fields[1..], b[4..]) == None;
    assert DecodeFields([], fields, b) == None;
  }

  // ----- the code

  /** buf[at / 4] = htonl(u) */
  method PutWordAt(buf: array<byte>, at: nat, u: uint32)
    requires at + 4 <= buf.Length
    modifies buf
    ensures buf[..at + 4] == old(buf[..at]) + Put32(u)
    ensures forall k :: at + 4 <= k < buf.Length ==> buf[k] == old(buf[k])
  {
    var w := Put32(u);
    buf[at], buf[at + 1], buf[at + 2], buf[at + 3] := w[0], w[1], w[2], w[3];
  }

  /** libnfs_authunix_create */
  method AuthUnixCreate(host: seq<byte>, uid: uint32, gid: uint32, groups: seq<uint32>, now: uint32)
    returns (cred: Option<OpaqueAuth>)
    requires 0 !in host && |host| < 0x7FFF_FF00
    ensures cred.None? <==> |groups| > 16
    ensures cred.Some? ==>
      && cred.value.flavor == 1
      && |cred.value.body| == 4 + 4 + Pad4(|host|) + 4 + 4 + 4 + 4 * |groups|
      && Shape([], PARMS, ParmsValue(now, host, uid, gid, groups))
      && cred.value.body == Encode([], PARMS, ParmsValue(now, host, uid, gid, groups))
    ensures cred.Some? ==>
      var at := 20 + (|host| + 3) / 4 * 4;
      && cred.value.body[..at] == Put32(now) + Put32(|host|) + Padded(host) + Put32(uid) + Put32(gid) + Put32(|groups|)
      && forall i :: 0 <= i < |groups| ==> cred.value.body[at + 4 * i..at + 4 * i + 4] == Put32(groups[i])
  {
    if |groups| > MAX_GROUPS {
      return None;
    }
    ParmsEncode(now, host, uid, gid, groups);
    WordsInOrder(Head(now, host, uid, gid, |groups|), groups);
    HeadSpelled(now, host, uid, gid, |groups|);
    hide Put32, Padded, Head, WordsOf, ParmsValue, Shape, Encode;
    var size := 4 + 4 + Pad4(|host|) + 4 + 4 + 4 + |groups| * 4;
    var buf := new byte[size](_ => 0);
    WriteHead(buf, host, uid, gid, |groups|, now);
    WriteGroups(buf, 2 + (|host| + 3) / 4 + 3, groups, Head(now, host, uid, gid, |groups|));
    return Some(OpaqueAuth(AUTH_SYS, buf[..]));
  }

  lemma HeadSpelled(stamp: uint32, host: seq<byte>, uid: uint32, gid: uint32, len: uint32)
    requires |host| <= UINT32_MAX
    ensures var h := Head(stamp, host, uid, gid, len);
      && h == Put32(stamp) + Put32(|host|) + Padded(host) + Put32(uid) + Put32(gid) + Put32(len)
      && |h| == 20 + (|host| + 3) / 4 * 4
  {
  }

  /** while (len-- > 0) buf[idx++] = htonl(*groups++) */
  method WriteGroups(buf: array<byte>, start: nat, groups: seq<uint32>, ghost head: seq<byte>)
    requires buf.Length == 4 * start + 4 * |groups| && buf[..4 * start] == head
    modifies buf
    ensures buf[..] == head + WordsOf(groups)
  {
    hide WordsOf, Put32;
    var i := 0;
    WordsStep(groups, 0);
    assert groups[0..] == groups;
    while i < |groups|
      invariant 0 <= i <= |groups|
      invariant buf[..4 * (start + i)] + WordsOf(groups[i..]) == head + WordsOf(groups)
    {
      ghost var before := buf[..4 * (start + i)];
      PutWordAt(buf, 4 * (start + i), groups[i]);
      WordsStep(groups, i);
      assert before + (Put32(groups[i]) + WordsOf(groups[i + 1..])) ==
             before + Put32(groups[i]) + WordsOf(groups[i + 1..]);
      i := i + 1;
    }
    WordsStep(groups, |groups|);
    assert buf[..4 * (start + i)] + [] == buf[..];
  }

  lemma {:induction false} WordsInOrder(head: seq<byte>, groups: seq<uint32>)
    ensures var at := |head|;
      && (head + WordsOf(groups))[..at] == head
      && forall i :: 0 <= i < |groups| ==> (head + WordsOf(groups))[at + 4 * i..at + 4 * i + 4] == Put32(groups[i])
    decreases |groups|
  {
    if groups != [] {
      var more := head + Put32(groups[0]);
      WordsInOrder(more, groups[1..]);
      assert head + WordsOf(groups) == more + WordsOf(groups[1..]);
      assert (more + WordsOf(groups[1..]))[|head|..|head| + 4] == Put32(groups[0]);
      hide WordsOf, Put32;
      forall i | 0 <= i < |groups|
        ensures (head + WordsOf(groups))[|head| + 4 * i..|head| + 4 * i + 4] == Put32(groups[i])
      {
        assert i > 0 ==> groups[i] == groups[1..][i - 1] && |head| + 4 * i == |more| + 4 * (i - 1);
      }
    }
  }

  lemma WordsStep(groups: seq<uint32>, i: nat)
    requires i <= |groups|
    ensures WordsOf(groups[i..]) ==
      if i == |groups| then [] else Put32(groups[i]) + WordsOf(groups[i + 1..])
  {
    assert i < |groups| ==> groups[i..][1..] == groups[i + 1..];
  }

  /** Everything before the groups. The padding of the name is the zeroes the
      buffer starts with. */
  method WriteHead(buf: array<byte>, host: seq<byte>, uid: uint32, gid: uint32, len: uint32, now: uint32)
    requires |host| < 0x7FFF_FF00 && buf.Length == 20 + Pad4(|host|) + 4 * len
    requires forall k :: 0 <= k < buf.Length ==> buf[k] == 0
    modifies buf
    ensures buf[..20 + Pad4(|host|)] == Head(now, host, uid, gid, len)
  {
    PutWordAt(buf, 0, now);
    PutWordAt(buf, 4, |host|);
    assert buf[..8] == Put32(now) + Put32(|host|);
    forall k | 0 <= k < |host| {
      buf[8 + k] := host[k];
    }
    var at := 8 + Pad4(|host|);
    assert buf[..at] == Put32(now) + Put32(|host|) + Padded(host);
    PutWordAt(buf, at, uid);
    PutWordAt(buf, at + 4, gid);
    PutWordAt(buf, at + 8, len);
  }
}
