/** Decoding undoes encoding, for every schema, as far as the decoder's guard on
    array counts lets it. */
module XdrRoundTrip {
  import opened Wrappers
  import opened Bytes
  import opened Xdr

  /** The limits on `v`: those the encoder enforces, and with `memory` also the
      ones on what the decoder allocates. */
  ghost predicate Allowed(types: Types, s: Schema, v: Value, memory: bool)
    requires Shape(types, s, v)
    decreases v, 1
  {
    match s
    case UInt => true
    case Hyper => true
    case Opaque(_) => true
    case Bytes(max) => SizeOk(|v.bytes|, max) && |v.bytes| <= MAX_SIZE
    case String(max) => SizeOk(|v.bytes|, max) && (memory ==> |v.bytes| < MAX_SIZE)
    case Vector(_, elem) => AllowedAll(types, elem, v.items, memory)
    case Array(max, elsize, elem) =>
      && SizeOk(|v.items|, max)
      && |v.items| * elsize <= (if memory then MAX_SIZE else UINT32_MAX)
      && AllowedAll(types, elem, v.items, memory)
    case Struct(fields) => AllowedFields(types, fields, v.items, memory)
    case Union(arms, otherwise) =>
      (match Chosen(arms, otherwise, v.tag)
       case Some(body) => Allowed(types, body, v.body, memory)
       case None => false)
    case Nothing => true
    case Pointer(size, name) =>
      v == Null || ((memory ==> size <= MAX_SIZE) && Allowed(types, types[name], v.target, memory))
  }

  ghost predicate AllowedAll(types: Types, elem: Schema, vs: seq<Value>, memory: bool)
    requires ShapeAll(types, elem, vs)
    decreases vs, 0
  {
    vs != [] ==> Allowed(types, elem, vs[0], memory) && AllowedAll(types, elem, vs[1..], memory)
  }

  ghost predicate AllowedFields(types: Types, fields: seq<Schema>, vs: seq<Value>, memory: bool)
    requires ShapeFields(types, fields, vs)
    decreases vs, 0
  {
    fields != [] ==> Allowed(types, fields[0], vs[0], memory) && AllowedFields(types, fields[1..], vs[1..], memory)
  }

  /** The limits in numbers, where 0 and 2^32 - 1 stand for none: the encoder keeps
      counted data and the size of arrays within them, the decoder also what it
      allocates. */
  lemma LimitsAre(types: Types, max: uint32, elsize: pos, elem: Schema, bytes: seq<byte>, vs: seq<Value>)
    requires |bytes| <= UINT32_MAX && |vs| < 0x8000_0000 && ShapeAll(types, elem, vs)
    ensures forall memory :: Allowed(types, Schema.Bytes(max), Data(bytes), memory) <==>
      (max == 0 || max == 4294967295 || |bytes| <= max) && |bytes| <= 1073741824
    ensures 0 !in bytes ==> forall memory :: Allowed(types, String(max), Data(bytes), memory) <==>
      (max == 0 || max == 4294967295 || |bytes| <= max) && (memory ==> |bytes| < 1073741824)
    ensures forall memory :: Allowed(types, Array(max, elsize, elem), List(vs), memory) <==>
      && (max == 0 || max == 4294967295 || |vs| <= max)
      && |vs| * elsize <= (if memory then 1073741824 else 4294967295)
      && AllowedAll(types, elem, vs, memory)
  {
  }

  /** What the decoder can take, the encoder may send. */
  lemma {:induction false} AllowedWithoutMemory(types: Types, s: Schema, v: Value)
    requires Shape(types, s, v) && Allowed(types, s, v, true)
    ensures Allowed(types, s, v, false)
    decreases v, 1
  {
    match s
    case Vector(_, elem) => AllAllowedWithoutMemory(types, elem, v.items);
    case Array(_, _, elem) => AllAllowedWithoutMemory(types, elem, v.items);
    case Struct(fields) => FieldsAllowedWithoutMemory(types, fields, v.items);
    case Union(arms, otherwise) => AllowedWithoutMemory(types, Chosen(arms, otherwise, v.tag).value, v.body);
    case Pointer(_, name) =>
      if v != Null {
        AllowedWithoutMemory(types, types[name], v.target);
      }
    case _ =>
  }

  lemma {:induction false} AllAllowedWithoutMemory(types: Types, elem: Schema, vs: seq<Value>)
    requires ShapeAll(types, elem, vs) && AllowedAll(types, elem, vs, true)
    ensures AllowedAll(types, elem, vs, false)
    decreases vs, 0
  {
    hide Shape, Allowed;
    if vs != [] {
      AllowedWithoutMemory(types, elem, vs[0]);
      AllAllowedWithoutMemory(types, elem, vs[1..]);
    }
  }

  lemma {:induction false} FieldsAllowedWithoutMemory(types: Types, fields: seq<Schema>, vs: seq<Value>)
    requires ShapeFields(types, fields, vs) && AllowedFields(types, fields, vs, true)
    ensures AllowedFields(types, fields, vs, false)
    decreases vs, 0
  {
    hide Shape, Allowed;
    if fields != [] {
      AllowedWithoutMemory(types, fields[0], vs[0]);
      FieldsAllowedWithoutMemory(types, fields[1..], vs[1..]);
    }
  }

  /** Every value of `s` takes at least one word. */
  ghost predicate Fat(s: Schema) {
    match s
    case Opaque(n) => n > 0
    case Vector(count, elem) => count > 0 && Fat(elem)
    case Struct(fields) => exists i :: 0 <= i < |fields| && Fat(fields[i])
    case Nothing => false
    case _ => true
  }

  /** No array in `s` has elements that can take no bytes at all; `pointers`
      says whether `s` may refer to other types. */
  ghost predicate Sound(s: Schema, pointers: bool) {
    match s
    case Vector(_, elem) => Sound(elem, pointers)
    case Array(_, _, elem) => Fat(elem) && Sound(elem, pointers)
    case Struct(fields) => forall i :: 0 <= i < |fields| ==> Sound(fields[i], pointers)
    case Union(arms, otherwise) =>
      && (forall i :: 0 <= i < |arms| ==> Sound(arms[i].body, pointers))
      && (otherwise.Some? ==> Sound(otherwise.value, pointers))
    case Pointer(_, _) => pointers
    case _ => true
  }

  ghost predicate AllSound(types: Types) {
    forall i :: 0 <= i < |types| ==> Sound(types[i], true)
  }

  // ----- sizes

  ghost predicate WholeWords(b: seq<byte>) {
    |b| % 4 == 0
  }

  lemma WholeWordsTwo(a: seq<byte>, b: seq<byte>)
    requires WholeWords(a) && WholeWords(b)
    ensures WholeWords(a + b)
  {
  }

  lemma WholeWordsParts(u: uint32, h: uint64, bytes: seq<byte>)
    ensures WholeWords(Put32(u)) && WholeWords(Put64(h)) && WholeWords(Padded(bytes)) && WholeWords([])
  {
  }

  /** RFC 4506 section 3: every encoding is a whole number of words. */
  lemma {:induction false} EncodesToWords(types: Types, s: Schema, v: Value)
    requires Shape(types, s, v)
    ensures WholeWords(Encode(types, s, v))
    decreases v, 1
  {
    hide WholeWords;
    match s
    case UInt => WholeWordsParts(v.u, 0, []);
    case Hyper => WholeWordsParts(0, v.h, []);
    case Opaque(_) => WholeWordsParts(0, 0, v.bytes);
    case Bytes(_) =>
      WholeWordsParts(|v.bytes|, 0, v.bytes);
      WholeWordsTwo(Put32(|v.bytes|), Padded(v.bytes));
    case String(_) =>
      WholeWordsParts(|v.bytes|, 0, v.bytes);
      WholeWordsTwo(Put32(|v.bytes|), Padded(v.bytes));
    case Vector(_, elem) => AllEncodeToWords(types, elem, v.items);
    case Array(_, _, elem) =>
      WholeWordsParts(|v.items|, 0, []);
      AllEncodeToWords(types, elem, v.items);
      WholeWordsTwo(Put32(|v.items|), EncodeAll(types, elem, v.items));
    case Struct(fields) => FieldsEncodeToWords(types, fields, v.items);
    case Union(arms, otherwise) =>
      WholeWordsParts(v.tag, 0, []);
      var chosen := Chosen(arms, otherwise, v.tag);
      var body := match chosen case Some(t) => Encode(types, t, v.body) case None => [];
      if chosen.Some? {
        EncodesToWords(types, chosen.value, v.body);
      }
      WholeWordsTwo(Put32(v.tag), body);
    case Nothing => WholeWordsParts(0, 0, []);
    case Pointer(_, name) =>
      WholeWordsParts(0, 0, []);
      if v != Null {
        WholeWordsParts(1, 0, []);
        EncodesToWords(types, types[name], v.target);
        WholeWordsTwo(Put32(1), Encode(types, types[name], v.target));
      }
  }

  lemma {:induction false} AllEncodeToWords(types: Types, elem: Schema, vs: seq<Value>)
    requires ShapeAll(types, elem, vs)
    ensures WholeWords(EncodeAll(types, elem, vs))
    decreases vs, 0
  {
    hide Shape, Encode, WholeWords;
    WholeWordsParts(0, 0, []);
    if vs != [] {
      EncodesToWords(types, elem, vs[0]);
      AllEncodeToWords(types, elem, vs[1..]);
      WholeWordsTwo(Encode(types, elem, vs[0]), EncodeAll(types, elem, vs[1..]));
    }
  }

  lemma {:induction false} FieldsEncodeToWords(types: Types, fields: seq<Schema>, vs: seq<Value>)
    requires ShapeFields(types, fields, vs)
    ensures WholeWords(EncodeFields(types, fields, vs))
    decreases vs, 0
  {
    hide Shape, Encode, WholeWords;
    WholeWordsParts(0, 0, []);
    if fields != [] {
      EncodesToWords(types, fields[0], vs[0]);
      FieldsEncodeToWords(types, fields[1..], vs[1..]);
      WholeWordsTwo(Encode(types, fields[0], vs[0]), EncodeFields(types, fields[1..], vs[1..]));
    }
  }

  lemma {:induction false} FatTakesAWord(types: Types, s: Schema, v: Value)
    requires Shape(types, s, v) && Fat(s)
    ensures |Encode(types, s, v)| >= 4
    decreases v, 1
  {
    match s
    case Vector(_, elem) => FatTakesAWord(types, elem, v.items[0]);
    case Struct(fields) => FatField(types, fields, v.items);
    case _ =>
  }

  lemma {:induction false} FatField(types: Types, fields: seq<Schema>, vs: seq<Value>)
    requires ShapeFields(types, fields, vs) && exists i :: 0 <= i < |fields| && Fat(fields[i])
    ensures |EncodeFields(types, fields, vs)| >= 4
    decreases vs, 0
  {
    if Fat(fields[0]) {
      FatTakesAWord(types, fields[0], vs[0]);
    } else {
      var i :| 0 <= i < |fields| && Fat(fields[i]);
      assert fields[1..][i - 1] == fields[i];
      FatField(types, fields[1..], vs[1..]);
    }
  }

  lemma {:induction false} FatItems(types: Types, elem: Schema, vs: seq<Value>)
    requires ShapeAll(types, elem, vs) && Fat(elem)
    ensures 4 * |vs| <= |EncodeAll(types, elem, vs)|
  {
    if vs != [] {
      FatTakesAWord(types, elem, vs[0]);
      FatItems(types, elem, vs[1..]);
    }
  }

  // ----- the guard on array counts

  /** The guard on array counts lets `v` through when `after` bytes follow its
      encoding: everywhere in it an array has a word for each element in what is
      left of the buffer. */
  ghost predicate Guarded(types: Types, s: Schema, v: Value, after: nat)
    requires Shape(types, s, v)
    decreases v, 1
  {
    match s
    case Vector(_, elem) => GuardedAll(types, elem, v.items, after)
    case Array(_, _, elem) =>
      && 4 * |v.items| <= |EncodeAll(types, elem, v.items)| + after
      && GuardedAll(types, elem, v.items, after)
    case Struct(fields) => GuardedFields(types, fields, v.items, after)
    case Union(arms, otherwise) =>
      (match Chosen(arms, otherwise, v.tag)
       case Some(body) => Guarded(types, body, v.body, after)
       case None => true)
    case Pointer(_, name) => v == Null || Guarded(types, types[name], v.target, after)
    case _ => true
  }

  ghost predicate GuardedAll(types: Types, elem: Schema, vs: seq<Value>, after: nat)
    requires ShapeAll(types, elem, vs)
    decreases vs, 0
  {
    vs != [] ==>
      && Guarded(types, elem, vs[0], |EncodeAll(types, elem, vs[1..])| + after)
      && GuardedAll(types, elem, vs[1..], after)
  }

  ghost predicate GuardedFields(types: Types, fields: seq<Schema>, vs: seq<Value>, after: nat)
    requires ShapeFields(types, fields, vs)
    decreases vs, 0
  {
    fields != [] ==>
      && Guarded(types, fields[0], vs[0], |EncodeFields(types, fields[1..], vs[1..])| + after)
      && GuardedFields(types, fields[1..], vs[1..], after)
  }

  lemma ChosenIsSound(arms: seq<Arm>, otherwise: Option<Schema>, tag: uint32, pointers: bool)
    requires Sound(Union(arms, otherwise), pointers) && Chosen(arms, otherwise, tag).Some?
    ensures Sound(Chosen(arms, otherwise, tag).value, pointers)
  {
    if Select(arms, tag).Some? {
      SelectedArm(arms, tag);
    }
  }

  lemma {:induction false} SelectedArm(arms: seq<Arm>, tag: uint32)
    requires Select(arms, tag).Some?
    ensures exists i :: 0 <= i < |arms| && Select(arms, tag).value == arms[i].body
  {
    if arms[0].tag != tag {
      SelectedArm(arms[1..], tag);
      var i :| 0 <= i < |arms[1..]| && Select(arms[1..], tag).value == arms[1..][i].body;
      assert arms[i + 1] == arms[1..][i];
    }
  }

  /** Where every element of every array takes a word, the guard lets everything
      through. */
  lemma {:induction false} SoundIsGuarded(types: Types, s: Schema, v: Value, after: nat, pointers: bool)
    requires (pointers ==> AllSound(types)) && Sound(s, pointers) && Shape(types, s, v)
    ensures Guarded(types, s, v, after)
    decreases v, 1
  {
    match s
    case Vector(_, elem) => SoundAllGuarded(types, elem, v.items, after, pointers);
    case Array(_, _, elem) =>
      FatItems(types, elem, v.items);
      SoundAllGuarded(types, elem, v.items, after, pointers);
    case Struct(fields) => SoundFieldsGuarded(types, fields, v.items, after, pointers);
    case Union(arms, otherwise) =>
      if Chosen(arms, otherwise, v.tag).Some? {
        ChosenIsSound(arms, otherwise, v.tag, pointers);
        SoundIsGuarded(types, Chosen(arms, otherwise, v.tag).value, v.body, after, pointers);
      }
    case Pointer(_, name) =>
      if v != Null {
        SoundIsGuarded(types, types[name], v.target, after, pointers);
      }
    case _ =>
  }

  lemma {:induction false} SoundAllGuarded(types: Types, elem: Schema, vs: seq<Value>, after: nat, pointers: bool)
    requires (pointers ==> AllSound(types)) && Sound(elem, pointers) && ShapeAll(types, elem, vs)
    ensures GuardedAll(types, elem, vs, after)
    decreases vs, 0
  {
    hide Shape, Guarded, Sound, AllSound, EncodeAll;
    if vs != [] {
      SoundIsGuarded(types, elem, vs[0], |EncodeAll(types, elem, vs[1..])| + after, pointers);
      SoundAllGuarded(types, elem, vs[1..], after, pointers);
    }
  }

  lemma {:induction false} SoundFieldsGuarded(types: Types, fields: seq<Schema>, vs: seq<Value>, after: nat,
                                              pointers: bool)
    requires (pointers ==> AllSound(types)) && forall i :: 0 <= i < |fields| ==> Sound(fields[i], pointers)
    requires ShapeFields(types, fields, vs)
    ensures GuardedFields(types, fields, vs, after)
    decreases vs, 0
  {
    hide Shape, Guarded, Sound, AllSound, EncodeFields;
    if fields != [] {
      SoundIsGuarded(types, fields[0], vs[0], |EncodeFields(types, fields[1..], vs[1..])| + after, pointers);
      SoundFieldsGuarded(types, fields[1..], vs[1..], after, pointers);
    }
  }

  /** Enough bytes after an encoding let any value through. */
  lemma {:induction false} EnoughRoom(types: Types, s: Schema, v: Value) returns (room: nat)
    requires Shape(types, s, v)
    ensures forall after: nat :: after >= room ==> Guarded(types, s, v, after)
    decreases v, 1
  {
    room := 0;
    match s {
      case Vector(_, elem) => room := EnoughForAll(types, elem, v.items);
      case Array(_, _, elem) =>
        room := EnoughForAll(types, elem, v.items);
        room := room + 4 * |v.items|;
      case Struct(fields) => room := EnoughForFields(types, fields, v.items);
      case Union(arms, otherwise) =>
        if Chosen(arms, otherwise, v.tag).Some? {
          room := EnoughRoom(types, Chosen(arms, otherwise, v.tag).value, v.body);
        }
      case Pointer(_, name) =>
        if v != Null {
          room := EnoughRoom(types, types[name], v.target);
        }
      case _ =>
    }
  }

  lemma {:induction false} EnoughForAll(types: Types, elem: Schema, vs: seq<Value>) returns (room: nat)
    requires ShapeAll(types, elem, vs)
    ensures forall after: nat :: after >= room ==> GuardedAll(types, elem, vs, after)
    decreases vs, 0
  {
    hide Shape, Guarded, EncodeAll;
    room := 0;
    if vs != [] {
      var first := EnoughRoom(types, elem, vs[0]);
      var rest := EnoughForAll(types, elem, vs[1..]);
      room := first + rest;
    }
  }

  lemma {:induction false} EnoughForFields(types: Types, fields: seq<Schema>, vs: seq<Value>) returns (room: nat)
    requires ShapeFields(types, fields, vs)
    ensures forall after: nat :: after >= room ==> GuardedFields(types, fields, vs, after)
    decreases vs, 0
  {
    hide Shape, Guarded, EncodeFields;
    room := 0;
    if fields != [] {
      var first := EnoughRoom(types, fields[0], vs[0]);
      var rest := EnoughForFields(types, fields[1..], vs[1..]);
      room := first + rest;
    }
  }

  // ----- round trip

  /** Decoding the encoding of `v`, whatever follows it, gives `v` back and stops
      where the encoding ends, exactly if the guard on array counts lets it. */
  lemma {:induction false} RoundTrip(types: Types, s: Schema, v: Value, tail: seq<byte>)
    requires Shape(types, s, v) && Allowed(types, s, v, true)
    ensures Decode(types, s, Encode(types, s, v) + tail) ==
      if Guarded(types, s, v, |tail|) then Some((v, |Encode(types, s, v)|)) else None
    decreases v, 1
  {
    hide ShapeAll, ShapeFields, AllowedAll, AllowedFields, EncodeAll, EncodeFields, DecodeAll, DecodeFields, Lands,
         GuardedAll, GuardedFields;
    var b := Encode(types, s, v) + tail;
    match s
    case UInt => GetPut32(v.u, tail);
    case Hyper => GetPut64(v.h, tail);
    case Opaque(n) =>
      assert b[..n] == v.bytes;
    case Bytes(_) => CountedBytes(v.bytes, tail);
    case String(_) => CountedBytes(v.bytes, tail);
    case Vector(_, elem) => RoundTripAll(types, elem, v.items, tail);
    case Array(max, elsize, elem) =>
      RoundTripAll(types, elem, v.items, tail);
      After32(|v.items|, EncodeAll(types, elem, v.items), tail);
    case Struct(fields) => RoundTripFields(types, fields, v.items, tail);
    case Union(arms, otherwise) =>
      var body := Chosen(arms, otherwise, v.tag).value;
      After32(v.tag, Encode(types, body, v.body), tail);
      RoundTrip(types, body, v.body, tail);
    case Nothing => assert b == tail;
    case Pointer(_, name) =>
      if v == Null {
        GetPut32(0, tail);
      } else {
        After32(1, Encode(types, types[name], v.target), tail);
        RoundTrip(types, types[name], v.target, tail);
      }
  }

  lemma After32(u: uint32, inner: seq<byte>, tail: seq<byte>)
    ensures var b := Put32(u) + inner + tail; |b| >= 4 && Get32(b) == u && b[4..] == inner + tail
  {
    GetPut32(u, inner + tail);
    assert Put32(u) + inner + tail == Put32(u) + (inner + tail);
  }

  lemma CountedBytes(bytes: seq<byte>, tail: seq<byte>)
    requires |bytes| <= UINT32_MAX
    ensures var b := Put32(|bytes|) + Padded(bytes) + tail;
      && |b| >= 4 && Get32(b) == |bytes| && |bytes| <= |b[4..]| && b[4..][..|bytes|] == bytes
      && Skip4(|bytes|, |b[4..]|) == |Padded(bytes)|
  {
    After32(|bytes|, Padded(bytes), tail);
    assert (Padded(bytes) + tail)[..|bytes|] == bytes;
  }

  lemma {:induction false} RoundTripAll(types: Types, elem: Schema, vs: seq<Value>, tail: seq<byte>)
    requires ShapeAll(types, elem, vs) && AllowedAll(types, elem, vs, true)
    ensures DecodeAll(types, elem, |vs|, EncodeAll(types, elem, vs) + tail) ==
      if GuardedAll(types, elem, vs, |tail|) then Some((vs, |EncodeAll(types, elem, vs)|)) else None
    decreases vs, 0
  {
    hide Shape, Encode, Decode, Allowed, Guarded, Lands;
    if vs == [] {
      assert EncodeAll(types, elem, vs) == [];
    } else {
      hide ShapeAll, EncodeAll, DecodeAll, AllowedAll, GuardedAll;
      EncodeCons(types, elem, vs, |tail|);
      var e, es := Encode(types, elem, vs[0]), EncodeAll(types, elem, vs[1..]);
      RoundTrip(types, elem, vs[0], es + tail);
      RoundTripAll(types, elem, vs[1..], tail);
      Regroup(e, es, tail);
      if GuardedAll(types, elem, vs, |tail|) {
        DecodeCons(types, elem, e + (es + tail), vs, |e|, |es|);
      } else {
        DecodeNone(types, elem, e + (es + tail), |vs|);
      }
    }
  }

  /** Decoding a list whose first element and the rest are understood ... */
  lemma DecodeCons(types: Types, elem: Schema, b: seq<byte>, vs: seq<Value>, j: nat, k: nat)
    requires vs != [] && j <= |b| && Decode(types, elem, b) == Some((vs[0], j))
    requires DecodeAll(types, elem, |vs| - 1, b[j..]) == Some((vs[1..], k))
    ensures DecodeAll(types, elem, |vs|, b) == Some((vs, j + k))
  {
    hide Decode, Lands;
    assert [vs[0]] + vs[1..] == vs;
  }

  /** ... or not. */
  lemma DecodeNone(types: Types, elem: Schema, b: seq<byte>, n: nat)
    requires n > 0
    requires var d := Decode(types, elem, b);
      d.None? || (d.value.1 <= |b| && DecodeAll(types, elem, n - 1, b[d.value.1..]) == None)
    ensures DecodeAll(types, elem, n, b) == None
  {
    hide Decode, Lands;
  }

  lemma EncodeCons(types: Types, elem: Schema, vs: seq<Value>, after: nat)
    requires vs != [] && ShapeAll(types, elem, vs) && AllowedAll(types, elem, vs, true)
    ensures Shape(types, elem, vs[0]) && Allowed(types, elem, vs[0], true)
    ensures ShapeAll(types, elem, vs[1..]) && AllowedAll(types, elem, vs[1..], true)
    ensures EncodeAll(types, elem, vs) == Encode(types, elem, vs[0]) + EncodeAll(types, elem, vs[1..])
    ensures GuardedAll(types, elem, vs, after) <==>
      Guarded(types, elem, vs[0], |EncodeAll(types, elem, vs[1..])| + after) && GuardedAll(types, elem, vs[1..], after)
  {
    hide Encode, Shape, Allowed, Guarded;
  }

  lemma Regroup(e: seq<byte>, es: seq<byte>, tail: seq<byte>)
    ensures e + es + tail == e + (es + tail)
    ensures (e + (es + tail))[|e|..] == es + tail
  {
  }

  lemma {:induction false} RoundTripFields(types: Types, fields: seq<Schema>, vs: seq<Value>, tail: seq<byte>)
    requires ShapeFields(types, fields, vs) && AllowedFields(types, fields, vs, true)
    ensures DecodeFields(types, fields, EncodeFields(types, fields, vs) + tail) ==
      if GuardedFields(types, fields, vs, |tail|) then Some((vs, |EncodeFields(types, fields, vs)|)) else None
    decreases vs, 0
  {
    hide Shape, Encode, Decode, Allowed, Guarded, Lands;
    if fields != [] {
      var e, es := Encode(types, fields[0], vs[0]), EncodeFields(types, fields[1..], vs[1..]);
      RoundTrip(types, fields[0], vs[0], es + tail);
      RoundTripFields(types, fields[1..], vs[1..], tail);
      Regroup(e, es, tail);
      assert [vs[0]] + vs[1..] == vs;
    }
  }

  /** So it is always decoded where no array has elements of less than a word. */
  lemma SoundRoundTrip(types: Types, s: Schema, v: Value, tail: seq<byte>)
    requires AllSound(types) && Sound(s, true)
    requires Shape(types, s, v) && Allowed(types, s, v, true)
    ensures Decode(types, s, Encode(types, s, v) + tail) == Some((v, |Encode(types, s, v)|))
  {
    RoundTrip(types, s, v, tail);
    SoundIsGuarded(types, s, v, |tail|, true);
  }

  /** No encoding is a proper prefix of another, nor do two values share one. */
  lemma PrefixFree(types: Types, s: Schema, v: Value, w: Value, t: seq<byte>, u: seq<byte>)
    requires Shape(types, s, v) && Allowed(types, s, v, true)
    requires Shape(types, s, w) && Allowed(types, s, w, true)
    requires Encode(types, s, v) + t == Encode(types, s, w) + u
    ensures v == w && t == u
  {
    hide Encode, Decode, Shape, Allowed, Guarded;
    var m := EnoughRoom(types, s, v);
    var n := EnoughRoom(types, s, w);
    var more := Zeros(m + n);
    var e, f := Encode(types, s, v), Encode(types, s, w);
    RoundTrip(types, s, v, t + more);
    RoundTrip(types, s, w, u + more);
    assert e + (t + more) == (e + t) + more && f + (u + more) == (f + u) + more;
    assert t == (e + t)[|e|..] && u == (f + u)[|f|..];
  }

  /** One empty structure in an array at the end of a message is rejected, and so
      is an array that holds only this one, although its element takes a word. */
  lemma GuardRejects()
    ensures var s, v := Array(0, 1, Struct([])), List([List([])]);
      && Shape([], s, v) && Allowed([], s, v, true)
      && Decode([], s, Encode([], s, v)) == None
    ensures var s, v := Array(0, 1, Array(0, 1, Struct([]))), List([List([List([])])]);
      && Shape([], s, v) && Allowed([], s, v, true)
      && Decode([], s, Encode([], s, v)) == None
  {
    var s, v := Array(0, 1, Struct([])), List([List([])]);
    assert [List([])][1..] == [];
    assert EncodeAll([], Struct([]), [List([])]) == [] + EncodeAll([], Struct([]), []);
    assert !Guarded([], s, v, 0);
    RoundTrip([], s, v, []);
    assert Encode([], s, v) + [] == Encode([], s, v);
    NestedRejects(s, v);
  }

  lemma NestedRejects(s: Schema, v: Value)
    requires s.Array? && Shape([], s, v) && Allowed([], s, v, true) && !Guarded([], s, v, 0)
    ensures var t, w := Array(0, 1, s), List([v]);
      && Shape([], t, w) && Allowed([], t, w, true)
      && Decode([], t, Encode([], t, w)) == None
  {
    hide Shape, Allowed, Guarded;
    var t, w := Array(0, 1, s), List([v]);
    assert [v][1..] == [];
    assert ShapeAll([], s, []) && ShapeAll([], s, [v]);
    assert AllowedAll([], s, [], true) && AllowedAll([], s, [v], true);
    assert EncodeAll([], s, []) == [];
    assert !GuardedAll([], s, [v], 0);
    OneLevel(t, w);
    RoundTrip([], t, w, []);
    assert Encode([], t, w) + [] == Encode([], t, w);
  }

  lemma OneLevel(t: Schema, w: Value)
    requires t.Array? && t.max == 0 && t.elsize == 1 && w.List? && |w.items| == 1
    requires ShapeAll([], t.elem, w.items) && AllowedAll([], t.elem, w.items, true)
    requires !GuardedAll([], t.elem, w.items, 0)
    ensures Shape([], t, w) && Allowed([], t, w, true) && !Guarded([], t, w, 0)
  {
    hide ShapeAll, AllowedAll, GuardedAll;
  }
}
