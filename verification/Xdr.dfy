/** XDR (RFC 4506) as data: schemas, the values they type, and the encoding and
    decoding that the buffer code of Zdr.dfy is proved to perform. */
module Xdr {
  import opened Wrappers
  import opened Bytes

  /** 1 GB: the most zdr_malloc and the variable-length opaque code handle. */
  const MAX_SIZE: nat := 0x4000_0000
  const UINT32_MAX: nat := 0xFFFF_FFFF

  /** The types rpcgen composes. `Pointer` is optional data and refers to a
      named type, which is how a type can contain itself. `elsize` and `size`
      are the C sizes of the decoded objects. */
  datatype Schema =
    | UInt                                             // sections 4.1 to 4.4
    | Hyper                                            // section 4.5
    | Opaque(n: length)                                // section 4.9
    | Bytes(max: uint32)                               // section 4.10
    | String(max: uint32)                              // section 4.11
    | Vector(count: nat, elem: Schema)                     // section 4.12
    | Array(max: uint32, elsize: pos, elem: Schema)    // section 4.13
    | Struct(fields: seq<Schema>)                      // section 4.14
    | Union(arms: seq<Arm>, otherwise: Option<Schema>)     // section 4.15, with the default arm
    | Nothing                                          // section 4.16
    | Pointer(size: nat, name: nat)                    // section 4.19

  /** A fixed length: positions plus it stay below 2^32. */
  type length = x: int | 0 <= x < 0x8000_0000
  type pos = x: int | 0 < x witness 1

  datatype Arm = Arm(tag: uint32, body: Schema)

  datatype Value =
    | Num(u: uint32)
    | Big(h: uint64)
    | Data(bytes: seq<byte>)
    | List(items: seq<Value>)
    | Tagged(tag: uint32, body: Value)
    | Void
    | Null
    | To(target: Value)

  type Types = seq<Schema>

  /** libnfs_zdr_size_ok: 0 and ~0 mean no limit. */
  predicate SizeOk(size: nat, max: uint32) {
    max == 0 || max == UINT32_MAX || size <= max
  }

  /** The arm a tag selects among those of its own, if any. */
  function Select(arms: seq<Arm>, tag: uint32): Option<Schema> {
    if arms == [] then None
    else if arms[0].tag == tag then Some(arms[0].body)
    else Select(arms[1..], tag)
  }

  /** What follows a tag; a tag without an arm is an error. */
  function Chosen(arms: seq<Arm>, otherwise: Option<Schema>, tag: uint32): Option<Schema> {
    if Select(arms, tag).Some? then Select(arms, tag) else otherwise
  }

  // ----- values of a type

  /** `v` is laid out as `s` says. Strings are C strings, without zero bytes. */
  ghost predicate Shape(types: Types, s: Schema, v: Value)
    decreases v, 1
  {
    match s
    case UInt => v.Num?
    case Hyper => v.Big?
    case Opaque(n) => v.Data? && |v.bytes| == n
    case Bytes(_) => v.Data? && |v.bytes| <= UINT32_MAX
    case String(_) => v.Data? && |v.bytes| <= UINT32_MAX && 0 !in v.bytes
    case Vector(n, elem) => v.List? && |v.items| == n && ShapeAll(types, elem, v.items)
    case Array(_, _, elem) => v.List? && |v.items| < 0x8000_0000 && ShapeAll(types, elem, v.items)
    case Struct(fields) => v.List? && ShapeFields(types, fields, v.items)
    case Union(arms, otherwise) =>
      v.Tagged? &&
      (match Chosen(arms, otherwise, v.tag)
       case Some(body) => Shape(types, body, v.body)
       case None => v.body == Void)
    case Nothing => v == Void
    case Pointer(_, name) => v == Null || (v.To? && name < |types| && Shape(types, types[name], v.target))
  }

  ghost predicate ShapeAll(types: Types, elem: Schema, vs: seq<Value>)
    decreases vs, 0
  {
    vs != [] ==> Shape(types, elem, vs[0]) && ShapeAll(types, elem, vs[1..])
  }

  ghost predicate ShapeFields(types: Types, fields: seq<Schema>, vs: seq<Value>)
    decreases vs, 0
  {
    if fields == [] then vs == []
    else vs != [] && Shape(types, fields[0], vs[0]) && ShapeFields(types, fields[1..], vs[1..])
  }

  // ----- encoding

  function Encode(types: Types, s: Schema, v: Value): seq<byte>
    requires Shape(types, s, v)
    decreases v, 1
  {
    match s
    case UInt => Put32(v.u)
    case Hyper => Put64(v.h)
    case Opaque(_) => Padded(v.bytes)
    case Bytes(_) => Put32(|v.bytes|) + Padded(v.bytes)
    case String(_) => Put32(|v.bytes|) + Padded(v.bytes)
    case Vector(_, elem) => EncodeAll(types, elem, v.items)
    case Array(_, _, elem) => Put32(|v.items|) + EncodeAll(types, elem, v.items)
    case Struct(fields) => EncodeFields(types, fields, v.items)
    case Union(arms, otherwise) =>
      Put32(v.tag) +
      (match Chosen(arms, otherwise, v.tag)
       case Some(body) => Encode(types, body, v.body)
       case None => [])
    case Nothing => []
    case Pointer(_, name) => if v.Null? then Put32(0) else Put32(1) + Encode(types, types[name], v.target)
  }

  function Padded(bytes: seq<byte>): (b: seq<byte>)
    ensures |b| == Pad4(|bytes|)
  {
    bytes + Zeros(Pad4(|bytes|) - |bytes|)
  }

  function EncodeAll(types: Types, elem: Schema, vs: seq<Value>): seq<byte>
    requires ShapeAll(types, elem, vs)
    decreases vs, 0
  {
    if vs == [] then [] else Encode(types, elem, vs[0]) + EncodeAll(types, elem, vs[1..])
  }

  function EncodeFields(types: Types, fields: seq<Schema>, vs: seq<Value>): seq<byte>
    requires ShapeFields(types, fields, vs)
    decreases vs, 0
  {
    if fields == [] then [] else Encode(types, fields[0], vs[0]) + EncodeFields(types, fields[1..], vs[1..])
  }

  // ----- decoding

  /** A value and the number of bytes it took. */
  type Decoded = Option<(Value, nat)>

  /** Padding is stepped over, not checked, and stops at the end of the data. */
  function Skip4(n: nat, room: nat): nat {
    Min(Pad4(n), room)
  }

  /** `k` of `len` bytes taken: whole words, or everything. */
  predicate Lands(k: nat, len: nat) {
    k <= len && (k % 4 == 0 || k == len)
  }

  lemma SkipLands(n: nat, room: nat)
    requires n <= room
    ensures Lands(4 + Skip4(n, room), 4 + room)
  {
  }

  lemma LandsAfter(j: nat, k: nat, len: nat)
    requires Lands(j, len) && Lands(k, len - j)
    ensures Lands(j + k, len)
  {
  }

  function DecodeBytes(max: uint32, b: seq<byte>): (r: Decoded)
    ensures r.Some? ==> Lands(r.value.1, |b|)
  {
    if |b| < 4 then None
    else
      var n, rest := Get32(b), b[4..];
      if !SizeOk(n, max) || n > MAX_SIZE || n > |rest| then None
      else
        SkipLands(n, |rest|);
        Some((Data(rest[..n]), 4 + Skip4(n, |rest|)))
  }

  /** A string that a zero byte happens to follow is used in place; any other
      is copied, which bounds its length. */
  function DecodeString(max: uint32, b: seq<byte>): (r: Decoded)
    ensures r.Some? ==> Lands(r.value.1, |b|)
  {
    if |b| < 4 then None
    else
      var n, rest := Get32(b), b[4..];
      if !SizeOk(n, max) || n > |rest| then None
      else if !(n < |rest| && rest[n] == 0) && n + 1 > MAX_SIZE then None
      else
        SkipLands(n, |rest|);
        Some((Data(rest[..n]), 4 + Skip4(n, |rest|)))
  }

  /** The count of an array is checked against its limit, the bytes left and
      the memory it would need. */
  predicate CountOk(n: nat, max: uint32, elsize: pos, room: nat) {
    SizeOk(n, max) && n <= room / 4 && n * elsize <= MAX_SIZE
  }

  function Decode(types: Types, s: Schema, b: seq<byte>): (r: Decoded)
    ensures r.Some? ==> Lands(r.value.1, |b|)
    decreases |b|, s, 0
  {
    match s
    case UInt => if |b| < 4 then None else Some((Num(Get32(b)), 4))
    case Hyper => if |b| < 8 then None else Some((Big(Get64(b)), 8))
    case Opaque(n) => if |b| < n then None else Some((Data(b[..n]), Skip4(n, |b|)))
    case Bytes(max) => DecodeBytes(max, b)
    case String(max) => DecodeString(max, b)
    case Vector(n, elem) => AsList(DecodeAll(types, elem, n, b), 0, |b|)
    case Array(max, elsize, elem) =>
      if |b| < 4 || !CountOk(Get32(b), max, elsize, |b| - 4) then None
      else AsList(DecodeAll(types, elem, Get32(b), b[4..]), 4, |b|)
    case Struct(fields) => AsList(DecodeFields(types, fields, b), 0, |b|)
    case Union(arms, otherwise) =>
      if |b| < 4 then None
      else
        (match Chosen(arms, otherwise, Get32(b))
         case Some(body) => AsTagged(Get32(b), Decode(types, body, b[4..]), |b|)
         case None => None)
    case Nothing => Some((Void, 0))
    case Pointer(size, name) =>
      if |b| < 4 then None
      else if Get32(b) == 0 then Some((Null, 4))
      else if size > MAX_SIZE || name >= |types| then None
      else AsTarget(Decode(types, types[name], b[4..]), |b|)
  }

  function AsList(r: Option<(seq<Value>, nat)>, head: nat, ghost room: nat): (d: Decoded)
    requires head % 4 == 0 && head <= room && (r.Some? ==> Lands(r.value.1, room - head))
    ensures d.Some? ==> Lands(d.value.1, room)
  {
    match r
    case None => None
    case Some((vs, k)) => Some((List(vs), head + k))
  }

  function AsTagged(tag: uint32, r: Decoded, ghost room: nat): (d: Decoded)
    requires 4 <= room && (r.Some? ==> Lands(r.value.1, room - 4))
    ensures d.Some? ==> Lands(d.value.1, room)
  {
    match r
    case None => None
    case Some((v, k)) => Some((Tagged(tag, v), 4 + k))
  }

  function AsTarget(r: Decoded, ghost room: nat): (d: Decoded)
    requires 4 <= room && (r.Some? ==> Lands(r.value.1, room - 4))
    ensures d.Some? ==> Lands(d.value.1, room)
  {
    match r
    case None => None
    case Some((v, k)) => Some((To(v), 4 + k))
  }

  function DecodeAll(types: Types, elem: Schema, n: nat, b: seq<byte>): (r: Option<(seq<Value>, nat)>)
    ensures r.Some? ==> |r.value.0| == n && Lands(r.value.1, |b|)
    decreases |b|, elem, n + 1
  {
    if n == 0 then Some(([], 0))
    else match Decode(types, elem, b)
      case None => None
      case Some((v, j)) =>
        match DecodeAll(types, elem, n - 1, b[j..])
        case None => None
        case Some((vs, k)) => LandsAfter(j, k, |b|); Some(([v] + vs, j + k))
  }

  function DecodeFields(types: Types, fields: seq<Schema>, b: seq<byte>): (r: Option<(seq<Value>, nat)>)
    ensures r.Some? ==> Lands(r.value.1, |b|)
    decreases |b|, fields, 0
  {
    if fields == [] then Some(([], 0))
    else match Decode(types, fields[0], b)
      case None => None
      case Some((v, j)) =>
        match DecodeFields(types, fields[1..], b[j..])
        case None => None
        case Some((vs, k)) => LandsAfter(j, k, |b|); Some(([v] + vs, j + k))
  }
}
