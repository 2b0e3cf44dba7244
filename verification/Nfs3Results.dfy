/** Two NFSv3 results as the code reads them from replies: a union whose default
    arm has a body, and a list of entries that refers to itself. */
module Nfs3Results {
  import opened Wrappers
  import Bytes
  import opened Xdr
  import opened XdrRoundTrip
  import opened RpcMessage

  const NFS3_FHSIZE: nat := 64
  const NFS3_COOKIEVERFSIZE: nat := 8
  const NFS3_OK: nat := 0

  const FH3: Schema := Schema.Bytes(NFS3_FHSIZE)
  const FILENAME3: Schema := Schema.String(UINT32_MAX)
  const TIME3: Schema := Struct([UInt, UInt])
  const FATTR3: Schema :=
    Struct([UInt, UInt, UInt, UInt, UInt, Hyper, Hyper, Struct([UInt, UInt]), Hyper, Hyper, TIME3, TIME3, TIME3])
  const POST_OP_ATTR: Schema := Union([Arm(1, FATTR3), Arm(0, Nothing)], None)

  /** LOOKUP3res */
  const LOOKUP3RES: Schema :=
    Union([Arm(NFS3_OK, Struct([FH3, POST_OP_ATTR, POST_OP_ATTR]))], Some(Struct([POST_OP_ATTR])))

  /** The one type that refers to itself is entry3; its C size is immaterial here
      as long as it can be allocated. */
  const ENTRIES: Schema := Pointer(40, 0)
  const ENTRY3: Schema := Struct([Hyper, FILENAME3, Hyper, ENTRIES])
  const TYPES: Types := [ENTRY3]

  /** READDIR3res */
  const READDIR3RES: Schema :=
    Union([Arm(NFS3_OK, Struct([POST_OP_ATTR, Schema.Opaque(NFS3_COOKIEVERFSIZE), Struct([ENTRIES, UInt])]))],
          Some(Struct([POST_OP_ATTR])))

  lemma AttributesAreSound()
    ensures Sound(POST_OP_ATTR, true) && Sound(FH3, true)
  {
    assert Sound(TIME3, true) && Sound(Struct([UInt, UInt]), true);
    assert Sound(FATTR3, true);
  }

  lemma ResultsAreSound()
    ensures Sound(LOOKUP3RES, true) && Sound(READDIR3RES, true) && AllSound(TYPES)
  {
    AttributesAreSound();
    assert Sound(Struct([FH3, POST_OP_ATTR, POST_OP_ATTR]), true) && Sound(Struct([POST_OP_ATTR]), true);
    assert Sound(Struct([ENTRIES, UInt]), true);
    assert Sound(Struct([POST_OP_ATTR, Schema.Opaque(NFS3_COOKIEVERFSIZE), Struct([ENTRIES, UInt])]), true);
    assert Sound(ENTRY3, true);
  }

  /** A reply that carries either of them, a listing of any length included, is
      understood as it was sent. */
  lemma ReplyRoundTrip(results: Schema, m: Message, tail: seq<Bytes.byte>)
    requires results == LOOKUP3RES || results == READDIR3RES
    requires Sendable(TYPES, results, m)
    ensures Shape(TYPES, MessageSchema(results), ToValue(m))
    ensures var e := Encode(TYPES, MessageSchema(results), ToValue(m));
      Decode(TYPES, MessageSchema(results), e + tail) == Some((ToValue(m), |e|))
  {
    ResultsAreSound();
    HeaderRoundTrip(TYPES, results, m, tail);
    if m.body.Accepted? && m.body.reply.Success? {
      SoundIsGuarded(TYPES, results, m.body.reply.results, |tail|, true);
    }
  }

  /** A LOOKUP that succeeds: the word 0, the handle with its length, and the attributes
      of what was found and of the directory. */
  lemma LookupBytes(fh: seq<Bytes.byte>, found: Value, dir: Value)
    requires |fh| <= UINT32_MAX && Shape(TYPES, POST_OP_ATTR, found) && Shape(TYPES, POST_OP_ATTR, dir)
    ensures var v := Tagged(0, List([Data(fh), found, dir]));
      && Shape(TYPES, LOOKUP3RES, v)
      && Encode(TYPES, LOOKUP3RES, v) ==
         Bytes.Put32(0) + Bytes.Put32(|fh|) + Padded(fh) + Encode(TYPES, POST_OP_ATTR, found)
         + Encode(TYPES, POST_OP_ATTR, dir)
  {
    HandleLeaf(fh);
    var body := [FH3, POST_OP_ATTR, POST_OP_ATTR];
    hide Shape, Encode, Padded, Bytes.Put32, ShapeFields, EncodeFields;
    LayoutNil(TYPES);
    LayoutCons(TYPES, POST_OP_ATTR, [], dir, []);
    LayoutCons(TYPES, POST_OP_ATTR, [POST_OP_ATTR] + [], found, [dir] + []);
    LayoutCons(TYPES, FH3, [POST_OP_ATTR] + ([POST_OP_ATTR] + []), Data(fh), [found] + ([dir] + []));
    assert [FH3] + ([POST_OP_ATTR] + ([POST_OP_ATTR] + [])) == body;
    assert [Data(fh)] + ([found] + ([dir] + [])) == [Data(fh), found, dir];
    LayoutStruct(TYPES, body, [Data(fh), found, dir]);
    FoundBytes(List([Data(fh), found, dir]));
  }

  lemma HandleLeaf(fh: seq<Bytes.byte>)
    requires |fh| <= UINT32_MAX
    ensures Shape(TYPES, FH3, Data(fh)) && Encode(TYPES, FH3, Data(fh)) == Bytes.Put32(|fh|) + Padded(fh)
  {
  }

  lemma FoundBytes(v: Value)
    requires var body := Struct([FH3, POST_OP_ATTR, POST_OP_ATTR]); Shape(TYPES, body, v)
    ensures Shape(TYPES, LOOKUP3RES, Tagged(0, v))
    ensures Encode(TYPES, LOOKUP3RES, Tagged(0, v)) ==
      Bytes.Put32(0) + Encode(TYPES, Struct([FH3, POST_OP_ATTR, POST_OP_ATTR]), v)
  {
    var body := Struct([FH3, POST_OP_ATTR, POST_OP_ATTR]);
    assert Chosen([Arm(NFS3_OK, body)], Some(Struct([POST_OP_ATTR])), 0) == Some(body);
  }

  /** An entry of a READDIR listing: file number, name, cookie, and the rest of the list,
      0 at its end and 1 in front of the next entry. */
  lemma EntryBytes(fileid: Bytes.uint64, name: seq<Bytes.byte>, cookie: Bytes.uint64, rest: Value)
    requires |name| <= UINT32_MAX && 0 !in name && Shape(TYPES, ENTRIES, rest)
    ensures var v := To(List([Big(fileid), Data(name), Big(cookie), rest]));
      && Shape(TYPES, ENTRIES, v)
      && Encode(TYPES, ENTRIES, v) ==
         Bytes.Put32(1) + Bytes.Put64(fileid) + Bytes.Put32(|name|) + Padded(name) + Bytes.Put64(cookie)
         + Encode(TYPES, ENTRIES, rest)
    ensures Encode(TYPES, ENTRIES, Null) == Bytes.Put32(0)
  {
    hide Shape, Encode, Padded, Bytes.Put32, Bytes.Put64;
    EntryFields(fileid, name, cookie, rest);
    EntryIsNext(List([Big(fileid), Data(name), Big(cookie), rest]));
  }

  lemma EntryLeaves(fileid: Bytes.uint64, name: seq<Bytes.byte>, cookie: Bytes.uint64)
    requires |name| <= UINT32_MAX && 0 !in name
    ensures Shape(TYPES, FILENAME3, Data(name))
    ensures Encode(TYPES, FILENAME3, Data(name)) == Bytes.Put32(|name|) + Padded(name)
    ensures Shape(TYPES, Hyper, Big(fileid)) && Encode(TYPES, Hyper, Big(fileid)) == Bytes.Put64(fileid)
    ensures Shape(TYPES, Hyper, Big(cookie)) && Encode(TYPES, Hyper, Big(cookie)) == Bytes.Put64(cookie)
  {
  }

  lemma EntryFields(fileid: Bytes.uint64, name: seq<Bytes.byte>, cookie: Bytes.uint64, rest: Value)
    requires |name| <= UINT32_MAX && 0 !in name && Shape(TYPES, ENTRIES, rest)
    ensures var v := List([Big(fileid), Data(name), Big(cookie), rest]);
      && Shape(TYPES, ENTRY3, v)
      && Encode(TYPES, ENTRY3, v) ==
         Bytes.Put64(fileid) + (Bytes.Put32(|name|) + Padded(name) + (Bytes.Put64(cookie)
         + (Encode(TYPES, ENTRIES, rest) + [])))
  {
    EntryLeaves(fileid, name, cookie);
    hide Shape, Encode, Padded, Bytes.Put32, Bytes.Put64, ShapeFields, EncodeFields;
    LayoutNil(TYPES);
    LayoutCons(TYPES, ENTRIES, [], rest, []);
    LayoutCons(TYPES, Hyper, [ENTRIES] + [], Big(cookie), [rest] + []);
    LayoutCons(TYPES, FILENAME3, [Hyper] + ([ENTRIES] + []), Data(name), [Big(cookie)] + ([rest] + []));
    var fs, vs := [FILENAME3] + ([Hyper] + ([ENTRIES] + [])), [Data(name)] + ([Big(cookie)] + ([rest] + []));
    LayoutCons(TYPES, Hyper, fs, Big(fileid), vs);
    LayoutStruct(TYPES, [Hyper] + fs, [Big(fileid)] + vs);
    assert [Hyper] + fs == [Hyper, FILENAME3, Hyper, ENTRIES];
    assert [Big(fileid)] + vs == [Big(fileid), Data(name), Big(cookie), rest];
  }

  lemma EntryIsNext(v: Value)
    requires Shape(TYPES, ENTRY3, v)
    ensures Shape(TYPES, ENTRIES, To(v)) && Encode(TYPES, ENTRIES, To(v)) == Bytes.Put32(1) + Encode(TYPES, ENTRY3, v)
    ensures Shape(TYPES, ENTRIES, Null) && Encode(TYPES, ENTRIES, Null) == Bytes.Put32(0)
  {
    hide ShapeFields, EncodeFields, Bytes.Put32;
  }

  /** An error reply of LOOKUP carries attributes too. */
  lemma FailuresCarryAttributes(status: Bytes.uint32, attr: Value)
    requires status != NFS3_OK && Shape(TYPES, POST_OP_ATTR, attr)
    ensures Shape(TYPES, LOOKUP3RES, Tagged(status, List([attr])))
    ensures Encode(TYPES, LOOKUP3RES, Tagged(status, List([attr]))) ==
            Bytes.Put32(status) + Encode(TYPES, POST_OP_ATTR, attr)
  {
    assert [POST_OP_ATTR][1..] == [] && [attr][1..] == [];
    assert Select([Arm(NFS3_OK, Struct([FH3, POST_OP_ATTR, POST_OP_ATTR]))], status) == None;
    assert ShapeFields(TYPES, [], []) && EncodeFields(TYPES, [], []) == [];
    assert ShapeFields(TYPES, [POST_OP_ATTR], [attr]);
    assert EncodeFields(TYPES, [POST_OP_ATTR], [attr]) == Encode(TYPES, POST_OP_ATTR, attr) + [];
  }
}
