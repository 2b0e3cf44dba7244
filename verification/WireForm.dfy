/** What encodings look like byte by byte, as RFC 4506 draws them, in terms of
    neither the encoder nor the decoder. */
module WireForm {
  import opened Wrappers
  import opened Bytes
  import opened Xdr

  // ----- numbers

  /** The number that bytes spell, the first of them most significant. */
  function BigEndian(b: seq<byte>): nat {
    if b == [] then 0 else BigEndian(b[..|b| - 1]) * 256 + b[|b| - 1] as nat
  }

  lemma FourBytes(b: seq<byte>)
    requires |b| == 4
    ensures BigEndian(b) == 16777216 * b[0] as int + 65536 * b[1] as int + 256 * b[2] as int + b[3] as int
  {
    assert b[..3][..2] == b[..2] && b[..2][..1] == b[..1] && b[..1][..0] == [];
    assert BigEndian(b) == BigEndian(b[..3]) * 256 + b[3] as nat;
    assert BigEndian(b[..3]) == BigEndian(b[..2]) * 256 + b[2] as nat;
    assert BigEndian(b[..2]) == BigEndian(b[..1]) * 256 + b[1] as nat;
    assert BigEndian(b[..1]) == b[0] as nat;
  }

  lemma WordBytes(u: uint32)
    ensures var b := Put32(u);
      u == 16777216 * b[0] as int + 65536 * b[1] as int + 256 * b[2] as int + b[3] as int
  {
    Digits(u);
  }

  lemma {:induction false} BigEndianOfTwo(a: seq<byte>, b: seq<byte>)
    requires |b| == 4
    ensures BigEndian(a + b) == BigEndian(a) * 4294967296 + BigEndian(b)
  {
    FourBytes(b);
    var s := a + b;
    assert s[..|s| - 1] == a + b[..3] && (a + b[..3])[..|s| - 2] == a + b[..2];
    assert (a + b[..2])[..|s| - 3] == a + b[..1] && (a + b[..1])[..|s| - 4] == a;
    assert BigEndian(s) == BigEndian(a + b[..3]) * 256 + b[3] as nat;
    assert BigEndian(a + b[..3]) == BigEndian(a + b[..2]) * 256 + b[2] as nat;
    assert BigEndian(a + b[..2]) == BigEndian(a + b[..1]) * 256 + b[1] as nat;
    assert BigEndian(a + b[..1]) == BigEndian(a) * 256 + b[0] as nat;
  }

  /** A word is its number in four bytes, and a hyper in eight. */
  lemma Numbers(types: Types, u: uint32, h: uint64)
    ensures var b := Encode(types, UInt, Num(u));
      && |b| == 4 && BigEndian(b) == u
      && u == 16777216 * b[0] as int + 65536 * b[1] as int + 256 * b[2] as int + b[3] as int
    ensures var b := Encode(types, Hyper, Big(h)); |b| == 8 && BigEndian(b) == h
  {
    WordBytes(u);
    FourBytes(Put32(u));
    WordBytes(High(h));
    WordBytes(Low(h));
    FourBytes(Put32(High(h)));
    FourBytes(Put32(Low(h)));
    BigEndianOfTwo(Put32(High(h)), Put32(Low(h)));
  }

  /** The first byte in which `a` and `b` differ is the smaller in `a`. */
  ghost predicate Before(a: seq<byte>, b: seq<byte>) {
    exists k :: Differ(a, b, k)
  }

  predicate Differ(a: seq<byte>, b: seq<byte>, k: int) {
    0 <= k < |a| && k < |b| && a[..k] == b[..k] && a[k] < b[k]
  }

  /** Among strings of bytes of one length the alphabetic order is that of the
      numbers. */
  lemma {:induction false} OrderIsThatOfNumbers(a: seq<byte>, b: seq<byte>)
    requires |a| == |b|
    ensures Before(a, b) <==> BigEndian(a) < BigEndian(b)
    ensures BigEndian(a) == BigEndian(b) ==> a == b
  {
    if a != [] {
      var n := |a| - 1;
      OrderIsThatOfNumbers(a[..n], b[..n]);
      OneMore(a, b);
      assert a == a[..n] + [a[n]] && b == b[..n] + [b[n]];
      hide Before;
      OneByte(a);
      OneByte(b);
    }
  }

  lemma OneByte(b: seq<byte>)
    requires b != []
    ensures BigEndian(b) == BigEndian(b[..|b| - 1]) * 256 + b[|b| - 1] as nat
  {
  }

  lemma OneMore(a: seq<byte>, b: seq<byte>)
    requires |a| == |b| > 0
    ensures var n := |a| - 1;
      Before(a, b) <==> Before(a[..n], b[..n]) || (a[..n] == b[..n] && a[n] < b[n])
  {
    var n := |a| - 1;
    if k :| 0 <= k < n && Differ(a, b, k) {
      SamePrefix(a, b, n, k);
      assert Differ(a[..n], b[..n], k);
    }
    if k :| 0 <= k < n && Differ(a[..n], b[..n], k) {
      SamePrefix(a, b, n, k);
      assert Differ(a, b, k);
    }
    assert Differ(a, b, n) <==> a[..n] == b[..n] && a[n] < b[n];
  }

  lemma SamePrefix(a: seq<byte>, b: seq<byte>, n: nat, k: nat)
    requires k < n <= |a| && n <= |b|
    ensures Differ(a, b, k) <==> Differ(a[..n], b[..n], k)
  {
    assert a[..n][..k] == a[..k] && b[..n][..k] == b[..k];
  }

  /** So numbers are ordered as their encodings are. */
  lemma EncodingsAreOrdered(types: Types, u: uint32, v: uint32, g: uint64, h: uint64)
    ensures u < v <==> Before(Encode(types, UInt, Num(u)), Encode(types, UInt, Num(v)))
    ensures g < h <==> Before(Encode(types, Hyper, Big(g)), Encode(types, Hyper, Big(h)))
  {
    Numbers(types, u, g);
    Numbers(types, v, h);
    OrderIsThatOfNumbers(Encode(types, UInt, Num(u)), Encode(types, UInt, Num(v)));
    OrderIsThatOfNumbers(Encode(types, Hyper, Big(g)), Encode(types, Hyper, Big(h)));
  }

  // ----- bytes

  /** `b` starts with a count of four bytes, then come as many bytes of payload and
      zeroes up to a whole word. */
  predicate IsCounted(b: seq<byte>, payload: seq<byte>) {
    var n := |payload|;
    && |b| % 4 == 0 && 4 + n <= |b| < 8 + n
    && 16777216 * b[0] as int + 65536 * b[1] as int + 256 * b[2] as int + b[3] as int == n
    && b[4..4 + n] == payload
    && forall k :: 4 + n <= k < |b| ==> b[k] == 0
  }

  lemma Counted(types: Types, max: uint32, v: Value)
    requires v.Data? && |v.bytes| <= UINT32_MAX
    ensures IsCounted(Encode(types, Schema.Bytes(max), v), v.bytes)
    ensures 0 !in v.bytes ==> IsCounted(Encode(types, String(max), v), v.bytes)
  {
    CountAndPayload(v.bytes);
    hide IsCounted, Put32, Padded;
  }

  lemma CountAndPayload(bytes: seq<byte>)
    requires |bytes| <= UINT32_MAX
    ensures IsCounted(Put32(|bytes|) + Padded(bytes), bytes)
  {
    WordBytes(|bytes|);
    PayloadThenZeroes(bytes);
    var n, word, b := |bytes|, Put32(|bytes|), Put32(|bytes|) + Padded(bytes);
    hide Put32, Padded;
    assert b[0] == word[0] && b[1] == word[1] && b[2] == word[2] && b[3] == word[3];
    assert b[4..4 + n] == Padded(bytes)[..n] == bytes;
    assert forall k :: 4 + n <= k < |b| ==> b[k] == Padded(bytes)[k - 4];
  }

  lemma PayloadThenZeroes(bytes: seq<byte>)
    ensures var b := Padded(bytes);
      && |b| % 4 == 0 && |bytes| <= |b| < |bytes| + 4 && b[..|bytes|] == bytes
      && forall k :: |bytes| <= k < |b| ==> b[k] == 0
  {
  }

  /** Opaque data of a fixed length has no count. */
  lemma Fixed(types: Types, n: length, v: Value)
    requires v.Data? && |v.bytes| == n
    ensures var b := Encode(types, Opaque(n), v);
      && |b| % 4 == 0 && n <= |b| < n + 4 && b[..n] == v.bytes && forall k :: n <= k < |b| ==> b[k] == 0
  {
  }

  // ----- composites

  /** Optional data: the word 0, or the word 1 and the data. */
  lemma Presence(types: Types, size: nat, name: nat, v: Value)
    requires Shape(types, Pointer(size, name), v)
    ensures Encode(types, Pointer(size, name), v) ==
      if v == Null then [0, 0, 0, 0] else [0, 0, 0, 1] + Encode(types, types[name], v.target)
  {
    hide Shape;
  }

  /** A union: its tag, then what the first arm with that tag says, or else the
      default arm. */
  lemma TagThenArm(types: Types, arms: seq<Arm>, otherwise: Option<Schema>, v: Value)
    requires Shape(types, Union(arms, otherwise), v)
    ensures var b := Encode(types, Union(arms, otherwise), v);
      && |b| >= 4
      && 16777216 * b[0] as int + 65536 * b[1] as int + 256 * b[2] as int + b[3] as int == v.tag
      && (forall i :: 0 <= i < |arms| && arms[i].tag == v.tag && (forall j :: 0 <= j < i ==> arms[j].tag != v.tag) ==>
            Shape(types, arms[i].body, v.body) && b[4..] == Encode(types, arms[i].body, v.body))
      && ((forall i :: 0 <= i < |arms| ==> arms[i].tag != v.tag) && otherwise.Some? ==>
            Shape(types, otherwise.value, v.body) && b[4..] == Encode(types, otherwise.value, v.body))
  {
    WordBytes(v.tag);
    FirstArm(arms, v.tag);
  }

  lemma {:induction false} FirstArm(arms: seq<Arm>, tag: uint32)
    ensures forall i :: 0 <= i < |arms| && arms[i].tag == tag && (forall j :: 0 <= j < i ==> arms[j].tag != tag) ==>
      Select(arms, tag) == Some(arms[i].body)
    ensures (forall i :: 0 <= i < |arms| ==> arms[i].tag != tag) ==> Select(arms, tag) == None
  {
    if arms != [] {
      FirstArm(arms[1..], tag);
      forall i | 0 <= i < |arms| && arms[i].tag == tag && forall j :: 0 <= j < i ==> arms[j].tag != tag
        ensures Select(arms, tag) == Some(arms[i].body)
      {
        if i > 0 {
          assert arms[1..][i - 1] == arms[i];
          assert forall j :: 0 <= j < i - 1 ==> arms[1..][j] == arms[j + 1];
        }
      }
      assert forall i :: 0 <= i < |arms[1..]| ==> arms[1..][i] == arms[i + 1];
    }
  }

  /** The encodings of the elements, in their order. */
  ghost predicate InOrder(b: seq<byte>, types: Types, elems: seq<Schema>, vs: seq<Value>) {
    && |elems| == |vs|
    && if vs == [] then b == []
       else
         && Shape(types, elems[0], vs[0])
         && var n := |Encode(types, elems[0], vs[0])|;
            n <= |b| && b[..n] == Encode(types, elems[0], vs[0]) && InOrder(b[n..], types, elems[1..], vs[1..])
  }

  lemma {:induction false} FieldsInOrder(types: Types, fields: seq<Schema>, vs: seq<Value>)
    requires ShapeFields(types, fields, vs)
    ensures InOrder(EncodeFields(types, fields, vs), types, fields, vs)
    decreases |vs|
  {
    if vs != [] {
      FieldsInOrder(types, fields[1..], vs[1..]);
    }
  }

  lemma {:induction false} ItemsInOrder(types: Types, elem: Schema, vs: seq<Value>)
    requires ShapeAll(types, elem, vs)
    ensures InOrder(EncodeAll(types, elem, vs), types, seq(|vs|, _ => elem), vs)
    decreases |vs|
  {
    if vs != [] {
      ItemsInOrder(types, elem, vs[1..]);
      assert seq(|vs|, _ => elem)[1..] == seq(|vs[1..]|, _ => elem);
    }
  }

  /** Structures and fixed arrays are their members, one after the other, and other
      arrays have the number of elements in front. */
  lemma Members(types: Types, s: Schema, v: Value)
    requires Shape(types, s, v)
    ensures var b := Encode(types, s, v);
      match s
      case Struct(fields) => InOrder(b, types, fields, v.items)
      case Vector(n, elem) => InOrder(b, types, seq(n, _ => elem), v.items)
      case Array(_, _, elem) =>
        && |b| >= 4
        && 16777216 * b[0] as int + 65536 * b[1] as int + 256 * b[2] as int + b[3] as int == |v.items|
        && InOrder(b[4..], types, seq(|v.items|, _ => elem), v.items)
      case _ => true
  {
    match s
    case Struct(fields) => FieldsInOrder(types, fields, v.items);
    case Vector(n, elem) => ItemsInOrder(types, elem, v.items);
    case Array(_, _, elem) =>
      WordBytes(|v.items|);
      ItemsInOrder(types, elem, v.items);
      var b := Encode(types, s, v);
      assert b[4..] == EncodeAll(types, elem, v.items);
    case _ =>
  }

  // ----- what a decoder takes

  /** Numbers and opaque data of a fixed length are taken exactly if they are there. */
  lemma FixedTaken(types: Types, n: length, b: seq<byte>)
    ensures
      if |b| < 4 then Decode(types, UInt, b) == None
      else
        Decode(types, UInt, b) ==
        Some((Num(16777216 * b[0] as int + 65536 * b[1] as int + 256 * b[2] as int + b[3] as int), 4))
    ensures
      if |b| < 8 then Decode(types, Hyper, b) == None
      else BigEndian(b[..8]) < 0x1_0000_0000_0000_0000 && Decode(types, Hyper, b) == Some((Big(BigEndian(b[..8])), 8))
    ensures
      if |b| < n then Decode(types, Opaque(n), b) == None
      else Decode(types, Opaque(n), b) == Some((Data(b[..n]), Min((n + 3) / 4 * 4, |b|)))
  {
    if |b| >= 8 {
      var first, second := b[..4], b[4..][..4];
      assert b[..8] == first + second;
      FourBytes(first);
      FourBytes(second);
      BigEndianOfTwo(first, second);
      assert Get32(b) == BigEndian(first) && Get32(b[4..]) == BigEndian(second);
    }
  }

  /** A union is taken as the first arm with its tag says, or else the default arm;
      a tag with neither is an error. */
  lemma TagTaken(types: Types, arms: seq<Arm>, otherwise: Option<Schema>, b: seq<byte>)
    requires |b| >= 4
    ensures var tag := 16777216 * b[0] as int + 65536 * b[1] as int + 256 * b[2] as int + b[3] as int;
      && (forall i :: 0 <= i < |arms| && arms[i].tag == tag && (forall j :: 0 <= j < i ==> arms[j].tag != tag) ==>
            Decode(types, Union(arms, otherwise), b) == Behind(tag, Decode(types, arms[i].body, b[4..])))
      && ((forall i :: 0 <= i < |arms| ==> arms[i].tag != tag) ==>
            Decode(types, Union(arms, otherwise), b) ==
            if otherwise.Some? then Behind(tag, Decode(types, otherwise.value, b[4..])) else None)
  {
    FirstArm(arms, Get32(b));
    UnionTaken(types, arms, otherwise, b);
    hide Decode, Select, Behind;
  }

  lemma UnionTaken(types: Types, arms: seq<Arm>, otherwise: Option<Schema>, b: seq<byte>)
    requires |b| >= 4
    ensures Decode(types, Union(arms, otherwise), b) ==
      match Chosen(arms, otherwise, Get32(b))
      case Some(body) => Behind(Get32(b), Decode(types, body, b[4..]))
      case None => None
  {
    hide Select;
  }

  function Behind(tag: uint32, d: Decoded): Decoded {
    match d
    case None => None
    case Some((v, k)) => Some((Tagged(tag, v), 4 + k))
  }

  /** Counted data is taken exactly if its count is within the limit given, where 0
      and 2^32 - 1 are none, and 2^30, and within the bytes that follow. */
  lemma BytesTaken(types: Types, max: uint32, b: seq<byte>)
    ensures
      if |b| < 4 then Decode(types, Schema.Bytes(max), b) == None
      else
        var n := 16777216 * b[0] as int + 65536 * b[1] as int + 256 * b[2] as int + b[3] as int;
        if n > |b| - 4 || n > 1073741824 || (max != 0 && max != 4294967295 && n > max) then
          Decode(types, Schema.Bytes(max), b) == None
        else
          Decode(types, Schema.Bytes(max), b) == Some((Data(b[4..4 + n]), Min(4 + (n + 3) / 4 * 4, |b|)))
  {
    assert |b| >= 4 ==> forall n :: 0 <= n <= |b| - 4 ==> b[4..][..n] == b[4..4 + n];
  }

  /** An array needs a word for each element, and room for what it is decoded to. */
  lemma CountTaken(types: Types, max: uint32, elsize: pos, elem: Schema, b: seq<byte>)
    requires |b| >= 4
    ensures var n := 16777216 * b[0] as int + 65536 * b[1] as int + 256 * b[2] as int + b[3] as int;
      if n > (|b| - 4) / 4 || n * elsize > 1073741824 || (max != 0 && max != 4294967295 && n > max) then
        Decode(types, Array(max, elsize, elem), b) == None
      else
        (Decode(types, Array(max, elsize, elem), b).Some? <==> DecodeAll(types, elem, n, b[4..]).Some?)
  {
    hide DecodeAll;
  }

  /** A string is taken within the same bounds, except that only one that has to be
      copied, because no zero byte follows it, need fit into 2^30 bytes, with the
      terminator. */
  lemma StringTaken(types: Types, max: uint32, b: seq<byte>)
    ensures
      if |b| < 4 then Decode(types, String(max), b) == None
      else
        var n := 16777216 * b[0] as int + 65536 * b[1] as int + 256 * b[2] as int + b[3] as int;
        if n > |b| - 4 || (max != 0 && max != 4294967295 && n > max)
           || (n >= 1073741824 && !(4 + n < |b| && b[4 + n] == 0)) then
          Decode(types, String(max), b) == None
        else
          Decode(types, String(max), b) == Some((Data(b[4..4 + n]), Min(4 + (n + 3) / 4 * 4, |b|)))
  {
    assert |b| >= 4 ==> forall n :: 0 <= n <= |b| - 4 ==> b[4..][..n] == b[4..4 + n];
  }

  /** Any word but 0 says that optional data follows. */
  lemma AnyFlag(types: Types, size: nat, name: nat, b: seq<byte>)
    requires |b| >= 4
    ensures
      if b[..4] == [0, 0, 0, 0] then Decode(types, Pointer(size, name), b) == Some((Null, 4))
      else if size > 1073741824 || name >= |types| then Decode(types, Pointer(size, name), b) == None
      else match Decode(types, types[name], b[4..])
        case None => Decode(types, Pointer(size, name), b) == None
        case Some((v, k)) => Decode(types, Pointer(size, name), b) == Some((To(v), 4 + k))
  {
    assert b[0] == b[..4][0] && b[1] == b[..4][1] && b[2] == b[..4][2] && b[3] == b[..4][3];
    assert Get32(b) == 0 <==> b[..4] == [0, 0, 0, 0];
  }
}
