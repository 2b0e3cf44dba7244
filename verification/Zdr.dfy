/** The bidirectional codec over one mutable buffer (struct ZDR and the
    libnfs_zdr_* primitives). Every operation is proved to encode and decode
    what Xdr.dfy says, on every buffer content. */
module Zdr {
  import opened Wrappers
  import opened Bytes
  import opened Xdr
  import opened XdrRoundTrip
  import WireForm

  datatype Op = ENCODE | DECODE

  lemma SliceOfSlice(b: seq<byte>, p: nat, i: nat, j: nat)
    requires p <= |b| && i <= j <= |b| - p
    ensures b[p..][i..j] == b[p + i..p + j]
  {
  }

  lemma CountFits(n: nat, elsize: pos)
    ensures n > UINT32_MAX / elsize <==> n * elsize > UINT32_MAX
  {
    var q := UINT32_MAX / elsize;
    assert UINT32_MAX == q * elsize + UINT32_MAX % elsize;
    if n > q {
      MulMonotone(q + 1, n, elsize);
      assert (q + 1) * elsize == q * elsize + elsize;
    } else {
      MulMonotone(n, q, elsize);
    }
  }

  lemma MulMonotone(a: nat, b: nat, c: nat)
    requires a <= b
    ensures a * c <= b * c
  {
    assert b * c == a * c + (b - a) * c;
  }

  /** Padding at an aligned start. */
  lemma PadLength(start: nat, n: nat)
    requires start % 4 == 0
    ensures (4 - (start + n) % 4) % 4 == Pad4(n) - n
  {
  }

  /** Padding after a payload that ends within the buffer. */
  lemma PadAfter(start: nat, n: nat, size: nat)
    requires start + n <= size && (start % 4 == 0 || start == size)
    ensures var end := Min(Pad4(start + n), size);
      end == start + Skip4(n, size - start) && (end % 4 == 0 || end == size)
  {
    if start % 4 == 0 {
      var q := start / 4;
      assert (start + n + 3) / 4 == q + (n + 3) / 4;
      assert Pad4(start + n) == start + Pad4(n);
    }
  }

  /** What a decoding loop has so far, followed by what is to come. */
  ghost function Prepend(vs: seq<Value>, k: nat, r: Option<(seq<Value>, nat)>): Option<(seq<Value>, nat)> {
    match r
    case None => None
    case Some((ws, j)) => Some((vs + ws, k + j))
  }

  lemma PrependNothing(r: Option<(seq<Value>, nat)>)
    ensures Prepend([], 0, r) == r
  {
    if r.Some? {
      assert [] + r.value.0 == r.value.0;
    }
  }

  // ----- one more element of a loop

  lemma EncodeItem(types: Types, elem: Schema, vs: seq<Value>, i: nat, done: seq<byte>)
    requires i < |vs| && ShapeAll(types, elem, vs) && ShapeAll(types, elem, vs[i..])
    requires EncodeAll(types, elem, vs) == done + EncodeAll(types, elem, vs[i..])
    requires AllowedAll(types, elem, vs, false) == AllowedAll(types, elem, vs[i..], false)
    ensures Shape(types, elem, vs[i]) && ShapeAll(types, elem, vs[i + 1..])
    ensures var e := Encode(types, elem, vs[i]);
      && EncodeAll(types, elem, vs) == done + e + EncodeAll(types, elem, vs[i + 1..])
      && AllowedAll(types, elem, vs, false) ==
         (Allowed(types, elem, vs[i], false) && AllowedAll(types, elem, vs[i + 1..], false))
  {
    assert vs[i..][1..] == vs[i + 1..];
    var e, rest := Encode(types, elem, vs[i]), EncodeAll(types, elem, vs[i + 1..]);
    assert done + (e + rest) == done + e + rest;
  }

  lemma EncodeField(types: Types, fields: seq<Schema>, vs: seq<Value>, i: nat, done: seq<byte>)
    requires i < |fields| && i <= |vs|
    requires ShapeFields(types, fields, vs) && ShapeFields(types, fields[i..], vs[i..])
    requires EncodeFields(types, fields, vs) == done + EncodeFields(types, fields[i..], vs[i..])
    requires AllowedFields(types, fields, vs, false) == AllowedFields(types, fields[i..], vs[i..], false)
    ensures i < |vs| && Shape(types, fields[i], vs[i]) && ShapeFields(types, fields[i + 1..], vs[i + 1..])
    ensures var e := Encode(types, fields[i], vs[i]);
      && EncodeFields(types, fields, vs) == done + e + EncodeFields(types, fields[i + 1..], vs[i + 1..])
      && AllowedFields(types, fields, vs, false) ==
         (Allowed(types, fields[i], vs[i], false) && AllowedFields(types, fields[i + 1..], vs[i + 1..], false))
  {
    assert vs[i..][1..] == vs[i + 1..] && fields[i..][1..] == fields[i + 1..];
    var e, rest := Encode(types, fields[i], vs[i]), EncodeFields(types, fields[i + 1..], vs[i + 1..]);
    assert done + (e + rest) == done + e + rest;
  }

  /** How one decoded element extends what a decoding loop has. */
  lemma PrependOne(out: seq<Value>, k: nat, v: Value, j: nat, r: Option<(seq<Value>, nat)>)
    ensures Prepend(out, k, Prepend([v], j, r)) == Prepend(out + [v], k + j, r)
  {
    if r.Some? {
      assert out + ([v] + r.value.0) == out + [v] + r.value.0;
    }
  }

  /** Decoding from a position of a buffer. */
  ghost function DecodeAt(types: Types, s: Schema, b: seq<byte>, p: nat): Decoded
    requires p <= |b|
  {
    Decode(types, s, b[p..])
  }

  ghost function DecodeAllAt(types: Types, elem: Schema, n: nat, b: seq<byte>, p: nat): Option<(seq<Value>, nat)>
    requires p <= |b|
  {
    DecodeAll(types, elem, n, b[p..])
  }

  ghost function DecodeFieldsAt(types: Types, fields: seq<Schema>, b: seq<byte>, p: nat): Option<(seq<Value>, nat)>
    requires p <= |b|
  {
    DecodeFields(types, fields, b[p..])
  }

  lemma DecodeItem(types: Types, elem: Schema, n: nat, b: seq<byte>, p: nat, out: seq<Value>, k: nat)
    requires n > 0 && p <= |b|
    ensures var d := DecodeAt(types, elem, b, p);
      && (d.Some? ==> p + d.value.1 <= |b|)
      && Prepend(out, k, DecodeAllAt(types, elem, n, b, p)) ==
         if d.None? then None
         else Prepend(out + [d.value.0], k + d.value.1, DecodeAllAt(types, elem, n - 1, b, p + d.value.1))
  {
    hide Decode;
    var d := DecodeAt(types, elem, b, p);
    if d.Some? {
      PrependOne(out, k, d.value.0, d.value.1, DecodeAllAt(types, elem, n - 1, b, p + d.value.1));
      assert b[p..][d.value.1..] == b[p + d.value.1..];
    }
  }

  lemma DecodeField(types: Types, fields: seq<Schema>, i: nat, b: seq<byte>, p: nat, out: seq<Value>, k: nat)
    requires i < |fields| && p <= |b|
    ensures var d := DecodeAt(types, fields[i], b, p);
      && (d.Some? ==> p + d.value.1 <= |b|)
      && Prepend(out, k, DecodeFieldsAt(types, fields[i..], b, p)) ==
         if d.None? then None
         else Prepend(out + [d.value.0], k + d.value.1, DecodeFieldsAt(types, fields[i + 1..], b, p + d.value.1))
  {
    var d := DecodeAt(types, fields[i], b, p);
    assert fields[i..][1..] == fields[i + 1..];
    if d.Some? {
      PrependOne(out, k, d.value.0, d.value.1, DecodeFieldsAt(types, fields[i + 1..], b, p + d.value.1));
      assert b[p..][d.value.1..] == b[p + d.value.1..];
    }
  }

  /** Two stretches written one after the other. */
  lemma Adjoin(b: seq<byte>, c: seq<byte>, i: nat, j: nat, k: nat)
    requires i <= j <= k <= |b| == |c|
    requires forall m :: i <= m < j ==> b[m] == c[m]
    ensures c[i..k] == b[i..j] + c[j..k]
  {
  }

  lemma NoItems(types: Types, elem: Schema, b: seq<byte>, p: nat)
    requires p <= |b|
    ensures ShapeAll(types, elem, []) && EncodeAll(types, elem, []) == [] && AllowedAll(types, elem, [], false)
    ensures DecodeAllAt(types, elem, 0, b, p) == Some(([], 0))
  {
  }

  lemma NoFields(types: Types, fields: seq<Schema>, b: seq<byte>, p: nat)
    requires fields == [] && p <= |b|
    ensures forall ws :: ShapeFields(types, fields, ws) <==> ws == []
    ensures EncodeFields(types, fields, []) == [] && AllowedFields(types, fields, [], false)
    ensures DecodeFieldsAt(types, fields, b, p) == Some(([], 0))
  {
  }

  class Zdr {
    const op: Op
    const types: Types
    const buf: array<byte>
    var pos: nat

    constructor (op: Op, types: Types, buf: array<byte>)
      requires buf.Length < 0x8000_0000
      ensures Valid() && pos == 0 && this.op == op && this.types == types && this.buf == buf
    {
      this.op, this.types, this.buf, this.pos := op, types, buf, 0;
    }

    /** The position stays in the buffer and word-aligned, except that a
        decoder may have reached the end of a buffer of odd size. */
    ghost predicate Valid()
      reads this
    {
      && buf.Length < 0x8000_0000
      && pos <= buf.Length
      && (pos % 4 == 0 || (op == DECODE && pos == buf.Length))
    }

    /** What every operation keeps, whether it succeeds or fails, on any buffer:
        a position that does not move back, and every byte outside the stretch
        it moved over; a decoder changes no byte at all. */
    twostate predicate Kept()
      reads this, buf
    {
      && old(pos) <= pos
      && (forall k :: 0 <= k < buf.Length && !(old(pos) <= k < pos) ==> buf[k] == old(buf[k]))
      && (op == DECODE ==> buf[..] == old(buf[..]))
    }

    /** `bytes` were encoded in place, or did not fit or were not allowed. */
    twostate predicate Encoded(ok: bool, allowed: bool, bytes: seq<byte>)
      reads this, buf
    {
      && (ok <==> allowed && old(pos) + |bytes| <= buf.Length)
      && (ok ==> pos == old(pos) + |bytes| && pos <= buf.Length && buf[old(pos)..pos] == bytes)
    }

    /** The bytes ahead were decoded as `d` says. */
    twostate predicate Taken(ok: bool, out: Value, d: Decoded)
      reads this
    {
      match d
      case None => !ok
      case Some((v, n)) => ok && out == v && pos == old(pos) + n
    }

    /** libnfs_zdr_pad4 */
    method Pad()
      requires op == DECODE && pos <= buf.Length
      modifies this`pos
      ensures pos == Min(Pad4(old(pos)), buf.Length)
    {
      pos := Pad4(pos);
      if pos > buf.Length {
        pos := buf.Length;
      }
    }

    /** htonl or ntohl at the position. */
    method PutWord(u: uint32)
      requires pos + 4 <= buf.Length
      modifies this`pos, buf
      ensures pos == old(pos) + 4 && buf[old(pos)..pos] == Put32(u)
      ensures forall k :: 0 <= k < buf.Length && !(old(pos) <= k < pos) ==> buf[k] == old(buf[k])
      ensures u == 16777216 * buf[pos - 4] as int + 65536 * buf[pos - 3] as int + 256 * buf[pos - 2] as int
                   + buf[pos - 1] as int
    {
      WireForm.WordBytes(u);
      var w := Put32(u);
      buf[pos], buf[pos + 1], buf[pos + 2], buf[pos + 3] := w[0], w[1], w[2], w[3];
      pos := pos + 4;
    }

    method GetWord() returns (u: uint32)
      requires pos + 4 <= buf.Length
      modifies this`pos
      ensures pos == old(pos) + 4 && u == Get32(buf[old(pos)..])
      ensures u == 16777216 * buf[pos - 4] as int + 65536 * buf[pos - 3] as int + 256 * buf[pos - 2] as int
                   + buf[pos - 1] as int
    {
      u := Get32(buf[pos..pos + 4]);
      assert forall k :: 0 <= k < 4 ==> buf[pos..][k] == buf[pos..pos + 4][k];
      pos := pos + 4;
    }

    /** libnfs_zdr_u_int, to which the signed, enum and bool primitives cast. */
    method UInt(u: uint32) returns (ok: bool, out: uint32)
      requires Valid()
      modifies this`pos, buf
      ensures Valid() && Kept()
      ensures op == ENCODE ==> out == u && Encoded(ok, true, Put32(u))
      ensures op == DECODE ==> Taken(ok, Num(out), old(DecodeAt(types, Schema.UInt, buf[..], pos)))
      ensures !ok ==> pos == old(pos)
      ensures ok <==> old(pos) + 4 <= buf.Length
      ensures ok ==> pos == old(pos) + 4
      ensures ok ==> out == 16777216 * buf[pos - 4] as int + 65536 * buf[pos - 3] as int + 256 * buf[pos - 2] as int
                            + buf[pos - 1] as int
    {
      hide Put32, Get32;
      out := u;
      if pos + 4 > buf.Length {
        return false, u;
      }
      match op {
        case ENCODE => PutWord(u);
        case DECODE => out := GetWord();
      }
      ok := true;
    }

    /** libnfs_zdr_uint64_t */
    method UInt64(h: uint64) returns (ok: bool, out: uint64)
      requires Valid()
      modifies this`pos, buf
      ensures Valid() && Kept()
      ensures op == ENCODE ==> out == h && Encoded(ok, true, Put64(h))
      ensures op == DECODE ==> Taken(ok, Big(out), old(DecodeAt(types, Hyper, buf[..], pos)))
    {
      hide Put32, High, Low, Get32, Words;
      out := h;
      if pos + 8 > buf.Length {
        return false, h;
      }
      match op {
        case ENCODE => PutWords(h);
        case DECODE => out := GetWords();
      }
      ok := true;
    }

    method PutWords(h: uint64)
      requires pos + 8 <= buf.Length
      modifies this`pos, buf
      ensures pos == old(pos) + 8 && buf[old(pos)..pos] == Put64(h)
      ensures forall k :: 0 <= k < buf.Length && !(old(pos) <= k < pos) ==> buf[k] == old(buf[k])
    {
      hide Put32, High, Low;
      PutWord(High(h));
      ghost var between, first := pos, buf[..];
      PutWord(Low(h));
      Adjoin(first, buf[..], old(pos), between, pos);
    }

    method GetWords() returns (h: uint64)
      requires pos + 8 <= buf.Length
      modifies this`pos
      ensures pos == old(pos) + 8 && h == Get64(buf[old(pos)..])
    {
      hide Get32, Words;
      var hi := GetWord();
      var lo := GetWord();
      h := Words(hi, lo);
      assert buf[old(pos)..][4..] == buf[old(pos) + 4..];
    }

    /** The payload and its padding, which must fit. */
    method PutPadded(bytes: seq<byte>)
      requires Valid() && op == ENCODE && pos + Pad4(|bytes|) <= buf.Length
      modifies this`pos, buf
      ensures Valid() && Kept()
      ensures pos == old(pos) + Pad4(|bytes|) && buf[old(pos)..pos] == Padded(bytes)
    {
      ghost var start, before := pos, buf[..];
      PutBytes(bytes);
      ghost var between, filled := pos, buf[..];
      PadLength(start, |bytes|);
      PutBytes(Zeros((4 - pos % 4) % 4));
      Adjoin(filled, buf[..], start, between, pos);
    }

    /** memcpy or memset at the position. */
    method PutBytes(bytes: seq<byte>)
      requires op == ENCODE && pos + |bytes| <= buf.Length
      modifies this`pos, buf
      ensures pos == old(pos) + |bytes| && buf[old(pos)..pos] == bytes
      ensures forall k :: 0 <= k < buf.Length && !(old(pos) <= k < pos) ==> buf[k] == old(buf[k])
    {
      var start := pos;
      forall i | 0 <= i < |bytes| {
        buf[start + i] := bytes[i];
      }
      pos := pos + |bytes|;
    }

    /** The payload, stepping over its padding. */
    method GetPadded(n: nat) returns (out: seq<byte>)
      requires Valid() && op == DECODE && pos + n <= buf.Length
      modifies this`pos
      ensures Valid() && old(pos) <= pos
      ensures out == buf[old(pos)..][..n] && pos == old(pos) + Skip4(n, buf.Length - old(pos))
    {
      out := buf[pos..pos + n];
      SliceOfSlice(buf[..], pos, 0, n);
      PadAfter(pos, n, buf.Length);
      hide Pad4, Skip4;
      pos := pos + n;
      Pad();
    }

    /** libnfs_zdr_opaque */
    method Opaque(n: length, data: seq<byte>) returns (ok: bool, out: seq<byte>)
      requires Valid() && (op == ENCODE ==> |data| == n)
      modifies this`pos, buf
      ensures Valid() && Kept()
      ensures op == ENCODE ==> out == data && Encoded(ok, true, Padded(data))
      ensures op == DECODE ==> Taken(ok, Data(out), old(DecodeAt(types, Schema.Opaque(n), buf[..], pos)))
    {
      out := data;
      match op {
        case ENCODE =>
          if pos + n > buf.Length || pos + Pad4(n) > buf.Length {
            return false, data;
          }
          PutPadded(data);
        case DECODE =>
          if pos + n > buf.Length {
            return false, data;
          }
          out := GetPadded(n);
      }
      ok := true;
    }

    /** libnfs_zdr_bytes. With `into` the caller supplies storage, of `max`
        bytes; otherwise the result points into the buffer. */
    method Bytes(data: seq<byte>, max: uint32, into: bool) returns (ok: bool, out: seq<byte>)
      requires Valid() && |data| <= UINT32_MAX
      modifies this`pos, buf
      ensures Valid() && Kept()
      ensures op == ENCODE ==>
        out == data && Encoded(ok, SizeOk(|data|, max) && |data| <= MAX_SIZE, Put32(|data|) + Padded(data))
      ensures op == DECODE ==>
        var d := old(DecodeBytes(max, buf[..][pos..]));
        if into && d.Some? && |d.value.0.bytes| > max then !ok else Taken(ok, Data(out), d)
    {
      hide Padded, Put32, Get32, SizeOk, Pad4;
      out := data;
      if op == ENCODE && !SizeOk(|data|, max) {
        return false, data;
      }
      var size;
      ok, size := UInt(|data|);
      if !ok {
        return false, data;
      }
      if op == DECODE {
        assert buf[old(pos)..][4..] == buf[pos..];
        if !SizeOk(size, max) {
          return false, data;
        }
      }
      if size > MAX_SIZE {
        return false, data;
      }
      if pos + size > buf.Length {
        return false, data;
      }
      match op {
        case ENCODE =>
          if pos + Pad4(size) > buf.Length {
            return false, data;
          }
          PutPadded(data);
          assert buf[old(pos)..pos] == Put32(|data|) + Padded(data);
        case DECODE =>
          if into && size > max {
            return false, data;
          }
          out := GetPadded(size);
      }
    }

    /** libnfs_zdr_string. The fast path returns a pointer into the buffer when
        a zero byte already follows; the slow path copies. */
    method String(data: seq<byte>, max: uint32) returns (ok: bool, out: seq<byte>)
      requires Valid() && |data| <= UINT32_MAX
      modifies this`pos, buf
      ensures Valid() && Kept()
      ensures op == ENCODE ==> out == data && Encoded(ok, SizeOk(|data|, max), Put32(|data|) + Padded(data))
      ensures op == DECODE ==> Taken(ok, Data(out), old(DecodeString(max, buf[..][pos..])))
    {
      hide Padded, Put32, Get32, SizeOk, Pad4;
      out := data;
      if op == ENCODE && !SizeOk(|data|, max) {
        return false, data;
      }
      var size;
      ok, size := UInt(|data|);
      if !ok {
        return false, data;
      }
      if op == DECODE {
        assert buf[old(pos)..][4..] == buf[pos..];
        if !SizeOk(size, max) {
          return false, data;
        }
      }
      if size > buf.Length {
        return false, data;
      }
      if pos + size > buf.Length {
        return false, data;
      }
      match op {
        case ENCODE =>
          ok, out := Opaque(size, data);
          assert ok ==> buf[old(pos)..pos] == Put32(|data|) + Padded(data);
        case DECODE =>
          if buf.Length > pos + size && buf[pos + size] == 0 {
            out := GetPadded(size);
            return true, out;
          }
          // zdr_malloc(size + 1)
          if size + 1 > MAX_SIZE {
            return false, data;
          }
          ok, out := Opaque(size, data);
      }
    }

    // ----- composites

    /** The function rpcgen makes for a type: the primitive or the composite. */
    method Proc(s: Schema, v: Value) returns (ok: bool, out: Value)
      requires Valid() && (op == ENCODE ==> Shape(types, s, v))
      modifies this`pos, buf
      ensures Valid() && Kept()
      ensures op == ENCODE ==> out == v && Encoded(ok, Allowed(types, s, v, false), Encode(types, s, v))
      ensures op == DECODE ==> Taken(ok, out, old(DecodeAt(types, s, buf[..], pos)))
      decreases buf.Length - pos, s, 1
    {
      out := v;
      match s
      case UInt =>
        var u;
        ok, u := UInt(if op == ENCODE then v.u else 0);
        out := Num(u);
      case Hyper =>
        var h;
        ok, h := UInt64(if op == ENCODE then v.h else 0);
        out := Big(h);
      case Opaque(n) =>
        var b;
        ok, b := Opaque(n, if op == ENCODE then v.bytes else []);
        out := Data(b);
      case Bytes(max) =>
        var b;
        ok, b := Bytes(if op == ENCODE then v.bytes else [], max, false);
        out := Data(b);
      case String(max) =>
        var b;
        ok, b := String(if op == ENCODE then v.bytes else [], max);
        out := Data(b);
      case Vector(n, elem) =>
        var vs;
        ok, vs := Items(elem, n, if op == ENCODE then v.items else []);
        out := List(vs);
      case Array(max, elsize, elem) => ok, out := Counted(max, elsize, elem, v);
      case Struct(fields) =>
        var vs;
        ok, vs := Fields(fields, if op == ENCODE then v.items else []);
        out := List(vs);
      case Union(arms, otherwise) => ok, out := Discriminated(arms, otherwise, v);
      case Nothing => ok, out := true, Void;
      case Pointer(size, name) => ok, out := Optional(size, name, v);
    }

    /** The loop of libnfs_zdr_array and libnfs_zdr_vector. */
    method Items(elem: Schema, n: nat, vs: seq<Value>) returns (ok: bool, out: seq<Value>)
      requires Valid() && (op == ENCODE ==> |vs| == n && ShapeAll(types, elem, vs))
      modifies this`pos, buf
      ensures Valid() && Kept()
      ensures op == ENCODE ==>
        out == vs && Encoded(ok, AllowedAll(types, elem, vs, false), EncodeAll(types, elem, vs))
      ensures op == DECODE ==>
        match old(DecodeAllAt(types, elem, n, buf[..], pos))
        case None => !ok
        case Some((ws, k)) => ok && out == ws && pos == old(pos) + k
      decreases buf.Length - pos, elem, n + 2
    {
      hide Decode, Encode, Shape, Allowed, DecodeAll, EncodeAll, ShapeAll, AllowedAll, DecodeAllAt;
      out := [];
      var i := 0;
      ghost var b := buf[..];
      NoItems(types, elem, b, pos);
      assert vs[0..] == vs && buf[old(pos)..pos] == [];
      PrependNothing(DecodeAllAt(types, elem, n, b, pos));
      while i < n
        invariant 0 <= i <= n && Valid() && Kept()
        invariant op == ENCODE ==> out == vs[..i] && ShapeAll(types, elem, vs[i..])
        invariant op == ENCODE ==>
          && EncodeAll(types, elem, vs) == buf[old(pos)..pos] + EncodeAll(types, elem, vs[i..])
          && AllowedAll(types, elem, vs, false) == AllowedAll(types, elem, vs[i..], false)
        invariant op == DECODE ==>
          DecodeAllAt(types, elem, n, b, old(pos)) ==
          Prepend(out, pos - old(pos), DecodeAllAt(types, elem, n - i, b, pos))
      {
        ghost var here, before := pos, buf[..];
        if op == ENCODE {
          EncodeItem(types, elem, vs, i, buf[old(pos)..pos]);
        } else {
          DecodeItem(types, elem, n - i, b, pos, out, pos - old(pos));
        }
        var v;
        ok, v := Proc(elem, if op == ENCODE then vs[i] else Null);
        if !ok {
          return false, if op == ENCODE then vs else out;
        }
        Adjoin(before, buf[..], old(pos), here, pos);
        out := out + [v];
        i := i + 1;
      }
      NoItems(types, elem, b, pos);
      assert op == ENCODE ==> vs[i..] == [] && vs[..i] == vs;
      assert op == ENCODE ==> EncodeAll(types, elem, vs) == buf[old(pos)..pos];
      return true, out;
    }

    /** The members of a structure, one after the other. */
    method Fields(fields: seq<Schema>, vs: seq<Value>) returns (ok: bool, out: seq<Value>)
      requires Valid() && (op == ENCODE ==> ShapeFields(types, fields, vs))
      modifies this`pos, buf
      ensures Valid() && Kept()
      ensures op == ENCODE ==>
        out == vs && Encoded(ok, AllowedFields(types, fields, vs, false), EncodeFields(types, fields, vs))
      ensures op == DECODE ==>
        match old(DecodeFieldsAt(types, fields, buf[..], pos))
        case None => !ok
        case Some((ws, k)) => ok && out == ws && pos == old(pos) + k
      decreases buf.Length - pos, fields, 0
    {
      hide Decode, Encode, Shape, Allowed, DecodeFields, EncodeFields, ShapeFields, AllowedFields, DecodeFieldsAt;
      out := [];
      var i := 0;
      ghost var b := buf[..];
      assert vs[0..] == vs && fields[0..] == fields && buf[old(pos)..pos] == [];
      PrependNothing(DecodeFieldsAt(types, fields, b, pos));
      while i < |fields|
        invariant 0 <= i <= |fields| && Valid() && Kept()
        invariant op == ENCODE ==> i <= |vs| && out == vs[..i] && ShapeFields(types, fields[i..], vs[i..])
        invariant op == ENCODE ==>
          && EncodeFields(types, fields, vs) == buf[old(pos)..pos] + EncodeFields(types, fields[i..], vs[i..])
          && AllowedFields(types, fields, vs, false) == AllowedFields(types, fields[i..], vs[i..], false)
        invariant op == DECODE ==>
          DecodeFieldsAt(types, fields, b, old(pos)) ==
          Prepend(out, pos - old(pos), DecodeFieldsAt(types, fields[i..], b, pos))
      {
        ghost var here, before := pos, buf[..];
        if op == ENCODE {
          EncodeField(types, fields, vs, i, buf[old(pos)..pos]);
        } else {
          DecodeField(types, fields, i, b, pos, out, pos - old(pos));
        }
        var v;
        ok, v := Proc(fields[i], if op == ENCODE then vs[i] else Null);
        if !ok {
          return false, if op == ENCODE then vs else out;
        }
        Adjoin(before, buf[..], old(pos), here, pos);
        out := out + [v];
        i := i + 1;
      }
      NoFields(types, fields[i..], b, pos);
      assert op == ENCODE ==> vs[i..] == [] && vs[..i] == vs;
      assert op == ENCODE ==> EncodeFields(types, fields, vs) == buf[old(pos)..pos];
      return true, out;
    }

    /** The checks of libnfs_zdr_array between the count and the elements. */
    method CountAccepted(size: uint32, max: uint32, elsize: pos) returns (ok: bool)
      requires pos <= buf.Length
      ensures op == ENCODE ==> (ok <==> size * elsize <= UINT32_MAX)
      ensures op == DECODE ==> (ok <==> CountOk(size, max, elsize, buf.Length - pos))
    {
      if op == DECODE && !SizeOk(size, max) {
        return false;
      }
      CountFits(size, elsize);
      if size > UINT32_MAX / elsize {
        return false;
      }
      if op == DECODE && size > (buf.Length - pos) / 4 {
        return false;
      }
      // zdr_malloc(size * elsize)
      return op == ENCODE || size * elsize <= MAX_SIZE;
    }

    /** libnfs_zdr_array */
    method Counted(max: uint32, elsize: pos, elem: Schema, v: Value) returns (ok: bool, out: Value)
      requires Valid() && (op == ENCODE ==> Shape(types, Array(max, elsize, elem), v))
      modifies this`pos, buf
      ensures Valid() && Kept()
      ensures op == ENCODE ==>
        var s := Array(max, elsize, elem);
        out == v && Encoded(ok, Allowed(types, s, v, false), Encode(types, s, v))
      ensures op == DECODE ==> Taken(ok, out, old(DecodeAt(types, Array(max, elsize, elem), buf[..], pos)))
      decreases buf.Length - pos, Array(max, elsize, elem), 0
    {
      out := v;
      var vs := if op == ENCODE then v.items else [];
      if op == ENCODE && !SizeOk(|vs|, max) {
        return false, v;
      }
      var size;
      ok, size := UInt(|vs|);
      if !ok {
        return false, v;
      }
      ok := CountAccepted(size, max, elsize);
      if !ok {
        return false, v;
      }
      ghost var here, before := pos, buf[..];
      ok, vs := Items(elem, size, vs);
      out := List(vs);
      Adjoin(before, buf[..], old(pos), here, pos);
      assert op == DECODE ==> before[old(pos)..][4..] == before[here..];
    }

    /** A discriminated union: the tag, then the arm it selects. */
    method Discriminated(arms: seq<Arm>, otherwise: Option<Schema>, v: Value) returns (ok: bool, out: Value)
      requires Valid() && (op == ENCODE ==> Shape(types, Union(arms, otherwise), v))
      modifies this`pos, buf
      ensures Valid() && Kept()
      ensures op == ENCODE ==>
        var s := Union(arms, otherwise);
        out == v && Encoded(ok, Allowed(types, s, v, false), Encode(types, s, v))
      ensures op == DECODE ==> Taken(ok, out, old(DecodeAt(types, Union(arms, otherwise), buf[..], pos)))
      decreases buf.Length - pos, Union(arms, otherwise), 0
    {
      out := v;
      var tag;
      ok, tag := UInt(if op == ENCODE then v.tag else 0);
      if !ok {
        return false, v;
      }
      ghost var here, before := pos, buf[..];
      assert op == DECODE ==> before[old(pos)..][4..] == before[here..];
      match Chosen(arms, otherwise, tag)
      case Some(body) =>
        var w;
        ok, w := Proc(body, if op == ENCODE then v.body else Null);
        out := Tagged(tag, w);
        Adjoin(before, buf[..], old(pos), here, pos);
      case None =>
        ok := false;
    }

    /** libnfs_zdr_pointer */
    method Optional(size: nat, name: nat, v: Value) returns (ok: bool, out: Value)
      requires Valid() && (op == ENCODE ==> Shape(types, Pointer(size, name), v))
      modifies this`pos, buf
      ensures Valid() && Kept()
      ensures op == ENCODE ==>
        var s := Pointer(size, name);
        out == v && Encoded(ok, Allowed(types, s, v, false), Encode(types, s, v))
      ensures op == DECODE ==> Taken(ok, out, old(DecodeAt(types, Pointer(size, name), buf[..], pos)))
      decreases buf.Length - pos, Pointer(size, name), 0
    {
      out := v;
      var more;
      ok, more := UInt(if op == ENCODE && v != Null then 1 else 0);
      if !ok {
        return false, v;
      }
      if more == 0 {
        return true, Null;
      }
      // zdr_malloc(size); a name outside the table is no type
      if op == DECODE && (size > MAX_SIZE || name >= |types|) {
        return false, v;
      }
      ghost var here, before := pos, buf[..];
      var w;
      ok, w := Proc(types[name], if op == ENCODE then v.target else Null);
      out := To(w);
      Adjoin(before, buf[..], old(pos), here, pos);
      assert op == DECODE ==> before[old(pos)..][4..] == before[here..];
    }
  }

  /** Through the buffer: what one side encodes the other decodes, exactly if it
      fits and the guard on array counts lets it, whatever the buffer held before. */
  method SendAndReceive(types: Types, s: Schema, v: Value, buf: array<byte>) returns (ok: bool, out: Value)
    requires buf.Length < 0x8000_0000
    requires Shape(types, s, v) && Allowed(types, s, v, true)
    modifies buf
    ensures ok <==> |Encode(types, s, v)| <= buf.Length && Guarded(types, s, v, buf.Length - |Encode(types, s, v)|)
    ensures ok ==> out == v
    ensures forall k :: |Encode(types, s, v)| <= k < buf.Length ==> buf[k] == old(buf[k])
  {
    hide Shape, Encode, Decode, Guarded;
    AllowedWithoutMemory(types, s, v);
    var enc := new Zdr(ENCODE, types, buf);
    ok, out := enc.Proc(s, v);
    if !ok {
      return;
    }
    ghost var e := Encode(types, s, v);
    assert buf[..] == e + buf[|e|..] by {
      assert buf[0..|e|] == e;
    }
    RoundTrip(types, s, v, buf[|e|..]);
    var dec := new Zdr(DECODE, types, buf);
    assert buf[..][0..] == buf[..];
    ok, out := dec.Proc(s, Null);
  }
}
