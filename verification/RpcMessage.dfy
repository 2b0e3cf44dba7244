/** RPC call and reply headers (section 9 of RFC 5531). */
module RpcMessage {
  import opened Wrappers
  import opened Bytes
  import opened Xdr
  import opened XdrRoundTrip

  const CALL: uint32 := 0
  const REPLY: uint32 := 1
  const MSG_ACCEPTED: uint32 := 0
  const MSG_DENIED: uint32 := 1
  const SUCCESS: uint32 := 0
  const PROG_MISMATCH: uint32 := 2
  const RPC_MISMATCH: uint32 := 0
  const AUTH_ERROR: uint32 := 1
  const AUTH_SYS: uint32 := 1

  // ----- the structures

  /** opaque_cred and opaque_verf */
  datatype OpaqueAuth = OpaqueAuth(flavor: uint32, body: seq<byte>)

  datatype CallBody = CallBody(rpcvers: uint32, prog: uint32, vers: uint32, procedure: uint32,
                               cred: OpaqueAuth, verf: OpaqueAuth)

  datatype AcceptedReply =
    | Success(results: Value)
    | ProgMismatch(low: uint32, high: uint32)
    | OtherStat(stat: uint32)

  datatype RejectedReply =
    | RpcMismatch(low: uint32, high: uint32)
    | AuthError(stat: uint32)
    | OtherReject(stat: uint32)

  datatype Body =
    | Call(call: CallBody)
    | Accepted(verf: OpaqueAuth, reply: AcceptedReply)
    | Denied(rejected: RejectedReply)

  datatype Message = Message(xid: uint32, body: Body)

  /** The discriminants agree with the arms. */
  predicate WellTagged(m: Message) {
    match m.body
    case Accepted(_, OtherStat(s)) => s != SUCCESS && s != PROG_MISMATCH
    case Denied(OtherReject(s)) => s != RPC_MISMATCH && s != AUTH_ERROR
    case _ => true
  }

  // ----- their layout, as libnfs_rpc_msg and its callees compose it

  /** The length passed as a limit is the length of the body itself when it is
      encoded, and zero, no limit, in the zeroed structure it is decoded to. */
  const AUTH: Schema := Struct([UInt, Schema.Bytes(0)])
  const TWO: Schema := Struct([UInt, UInt])
  const CALL_BODY: Schema := Struct([UInt, UInt, UInt, UInt, AUTH, AUTH])
  const REJECTED: Schema := Union([Arm(RPC_MISMATCH, TWO), Arm(AUTH_ERROR, UInt)], Some(Nothing))

  function AcceptedSchema(results: Schema): Schema {
    Struct([AUTH, ResultUnion(results)])
  }

  function ResultUnion(results: Schema): Schema {
    Union([Arm(SUCCESS, results), Arm(PROG_MISMATCH, TWO)], Some(Nothing))
  }

  function ReplySchema(results: Schema): Schema {
    Union([Arm(MSG_ACCEPTED, AcceptedSchema(results)), Arm(MSG_DENIED, REJECTED)], None)
  }

  function MessageSchema(results: Schema): Schema {
    Struct([UInt, BodySchema(results)])
  }

  function BodySchema(results: Schema): Schema {
    Union([Arm(CALL, CALL_BODY), Arm(REPLY, ReplySchema(results))], None)
  }

  function AuthValue(a: OpaqueAuth): Value {
    List([Num(a.flavor), Data(a.body)])
  }

  function ToValue(m: Message): Value {
    List([Num(m.xid), BodyValue(m.body)])
  }

  function BodyValue(b: Body): Value {
    match b
    case Call(c) => Tagged(CALL, CallValue(c))
    case Accepted(verf, reply) => Tagged(REPLY, Tagged(MSG_ACCEPTED, List([AuthValue(verf), AcceptedValue(reply)])))
    case Denied(rejected) => Tagged(REPLY, Tagged(MSG_DENIED, RejectedValue(rejected)))
  }

  function CallValue(c: CallBody): Value {
    List([Num(c.rpcvers), Num(c.prog), Num(c.vers), Num(c.procedure), AuthValue(c.cred), AuthValue(c.verf)])
  }

  function AcceptedValue(r: AcceptedReply): Value {
    match r
    case Success(results) => Tagged(SUCCESS, results)
    case ProgMismatch(low, high) => Tagged(PROG_MISMATCH, List([Num(low), Num(high)]))
    case OtherStat(s) => Tagged(s, Void)
  }

  function RejectedValue(r: RejectedReply): Value {
    match r
    case RpcMismatch(low, high) => Tagged(RPC_MISMATCH, List([Num(low), Num(high)]))
    case AuthError(s) => Tagged(AUTH_ERROR, Num(s))
    case OtherReject(s) => Tagged(s, Void)
  }

  // ----- distinct messages are laid out as distinct values

  lemma AuthInjective(a: OpaqueAuth, b: OpaqueAuth)
    requires AuthValue(a) == AuthValue(b)
    ensures a == b
  {
    var x, y := AuthValue(a).items, AuthValue(b).items;
    assert x[0] == y[0] && x[1] == y[1];
  }

  lemma CallInjective(a: CallBody, b: CallBody)
    requires CallValue(a) == CallValue(b)
    ensures a == b
  {
    hide AuthValue;
    var x, y := CallValue(a).items, CallValue(b).items;
    assert x[0] == y[0] && x[1] == y[1] && x[2] == y[2] && x[3] == y[3] && x[4] == y[4] && x[5] == y[5];
    AuthInjective(a.cred, b.cred);
    AuthInjective(a.verf, b.verf);
  }

  lemma AcceptedInjective(a: AcceptedReply, b: AcceptedReply)
    requires AcceptedValue(a) == AcceptedValue(b)
    requires WellTagged(Message(0, Accepted(OpaqueAuth(0, []), a)))
    requires WellTagged(Message(0, Accepted(OpaqueAuth(0, []), b)))
    ensures a == b
  {
    if a.ProgMismatch? {
      var x, y := AcceptedValue(a).body.items, AcceptedValue(b).body.items;
      assert x[0] == y[0] && x[1] == y[1];
    }
  }

  lemma RejectedInjective(a: RejectedReply, b: RejectedReply)
    requires RejectedValue(a) == RejectedValue(b)
    requires WellTagged(Message(0, Denied(a))) && WellTagged(Message(0, Denied(b)))
    ensures a == b
  {
    if a.RpcMismatch? {
      var x, y := RejectedValue(a).body.items, RejectedValue(b).body.items;
      assert x[0] == y[0] && x[1] == y[1];
    }
  }

  lemma ToValueInjective(m: Message, n: Message)
    requires WellTagged(m) && WellTagged(n) && ToValue(m) == ToValue(n)
    ensures m == n
  {
    hide AuthValue, CallValue, AcceptedValue, RejectedValue;
    var x, y := ToValue(m).items, ToValue(n).items;
    assert x[0] == y[0] && x[1] == y[1];
    match m.body
    case Call(c) => CallInjective(c, n.body.call);
    case Accepted(verf, reply) =>
      var u, w := x[1].body.body.items, y[1].body.body.items;
      assert u[0] == y[1].body.body.items[0] && u[1] == w[1];
      AuthInjective(verf, n.body.verf);
      AcceptedInjective(reply, n.body.reply);
    case Denied(rejected) => RejectedInjective(rejected, n.body.rejected);
  }

  // ----- round trip

  /** `m` can be sent with results of type `results` and understood. */
  ghost predicate Sendable(types: Types, results: Schema, m: Message) {
    && WellTagged(m)
    && match m.body
       case Call(c) => |c.cred.body| <= MAX_SIZE && |c.verf.body| <= MAX_SIZE
       case Accepted(verf, reply) =>
         && |verf.body| <= MAX_SIZE
         && (reply.Success? ==> Shape(types, results, reply.results) && Allowed(types, results, reply.results, true))
       case Denied(_) => true
  }

  /** `v` has type `s` and is within all limits. */
  ghost predicate Good(types: Types, s: Schema, v: Value) {
    Shape(types, s, v) && Allowed(types, s, v, true)
  }

  ghost predicate GoodFields(types: Types, fields: seq<Schema>, vs: seq<Value>) {
    ShapeFields(types, fields, vs) && AllowedFields(types, fields, vs, true)
  }

  lemma GoodCons(types: Types, f: Schema, fs: seq<Schema>, v: Value, vs: seq<Value>)
    requires Good(types, f, v) && GoodFields(types, fs, vs)
    ensures GoodFields(types, [f] + fs, [v] + vs)
  {
    hide Shape, Allowed;
    assert ([f] + fs)[1..] == fs && ([v] + vs)[1..] == vs;
  }

  lemma GoodNil(types: Types)
    ensures GoodFields(types, [], [])
  {
  }

  lemma GoodStruct(types: Types, fields: seq<Schema>, vs: seq<Value>)
    requires GoodFields(types, fields, vs)
    ensures Good(types, Struct(fields), List(vs))
  {
    hide ShapeFields, AllowedFields;
  }

  lemma GoodTwo(types: Types, f: Schema, g: Schema, v: Value, w: Value)
    requires Good(types, f, v) && Good(types, g, w)
    ensures Good(types, Struct([f, g]), List([v, w]))
  {
    hide Good, GoodFields;
    GoodNil(types);
    GoodCons(types, g, [], w, []);
    assert [g] + [] == [g] && [w] + [] == [w];
    GoodCons(types, f, [g], v, [w]);
    assert [f] + [g] == [f, g] && [v] + [w] == [v, w];
    GoodStruct(types, [f, g], [v, w]);
  }

  lemma GoodNum(types: Types, u: uint32)
    ensures Good(types, UInt, Num(u))
  {
  }

  lemma GoodVoid(types: Types)
    ensures Good(types, Nothing, Value.Void)
  {
  }

  lemma GoodAuth(types: Types, a: OpaqueAuth)
    requires |a.body| <= MAX_SIZE
    ensures Good(types, AUTH, AuthValue(a))
  {
    GoodNum(types, a.flavor);
    assert Good(types, Schema.Bytes(0), Data(a.body));
    hide Good;
    GoodTwo(types, UInt, Schema.Bytes(0), Num(a.flavor), Data(a.body));
  }

  lemma GoodCall(types: Types, c: CallBody)
    requires |c.cred.body| <= MAX_SIZE && |c.verf.body| <= MAX_SIZE
    ensures Good(types, CALL_BODY, CallValue(c))
  {
    hide Good, GoodFields, AuthValue;
    GoodAuth(types, c.cred);
    GoodAuth(types, c.verf);
    GoodNum(types, c.rpcvers);
    GoodNum(types, c.prog);
    GoodNum(types, c.vers);
    GoodNum(types, c.procedure);
    GoodNil(types);
    var cred, verf := AuthValue(c.cred), AuthValue(c.verf);
    GoodCons(types, AUTH, [], verf, []);
    GoodCons(types, AUTH, [AUTH] + [], cred, [verf] + []);
    GoodCons(types, UInt, [AUTH] + ([AUTH] + []), Num(c.procedure), [cred] + ([verf] + []));
    var gs, ws := [UInt] + ([AUTH] + ([AUTH] + [])), [Num(c.procedure)] + ([cred] + ([verf] + []));
    GoodCons(types, UInt, gs, Num(c.vers), ws);
    var fs, vs := [UInt] + gs, [Num(c.vers)] + ws;
    GoodCons(types, UInt, fs, Num(c.prog), vs);
    GoodCons(types, UInt, [UInt] + fs, Num(c.rpcvers), [Num(c.prog)] + vs);
    assert [UInt] + ([UInt] + fs) == [UInt, UInt, UInt, UInt, AUTH, AUTH];
    assert [Num(c.rpcvers)] + ([Num(c.prog)] + vs) ==
           [Num(c.rpcvers), Num(c.prog), Num(c.vers), Num(c.procedure), cred, verf];
    GoodStruct(types, [UInt, UInt, UInt, UInt, AUTH, AUTH],
               [Num(c.rpcvers), Num(c.prog), Num(c.vers), Num(c.procedure), cred, verf]);
  }

  /** A union of two arms: what each tag selects. */
  lemma SelectTwo(a: Arm, b: Arm, tag: uint32)
    ensures Select([a, b], tag) ==
      if tag == a.tag then Some(a.body) else if tag == b.tag then Some(b.body) else None
  {
    var arms := [a, b];
    assert arms[1..] == [b] && arms[1..][1..] == [];
    assert Select(arms[1..], tag) == if tag == b.tag then Some(b.body) else Select(arms[1..][1..], tag);
  }

  lemma GoodUnion(types: Types, a: Arm, b: Arm, otherwise: Option<Schema>, tag: uint32, v: Value)
    requires if tag == a.tag then Good(types, a.body, v) else if tag == b.tag then Good(types, b.body, v)
             else otherwise.Some? && Good(types, otherwise.value, v)
    ensures Good(types, Union([a, b], otherwise), Tagged(tag, v))
  {
    SelectTwo(a, b, tag);
    assert Shape(types, Union([a, b], otherwise), Tagged(tag, v));
    assert Allowed(types, Union([a, b], otherwise), Tagged(tag, v), true);
  }

  lemma GoodMessage(types: Types, results: Schema, m: Message)
    requires Sendable(types, results, m)
    ensures Good(types, MessageSchema(results), ToValue(m))
  {
    GoodNum(types, m.xid);
    assert m.body.Accepted? && m.body.reply.Success? ==> Good(types, results, m.body.reply.results);
    hide Good, AuthValue, CallValue;
    match m.body {
      case Call(c) => GoodCall(types, c);
      case Accepted(verf, reply) =>
        GoodAuth(types, verf);
        GoodAccepted(types, results, reply);
        GoodTwo(types, AUTH, ResultUnion(results), AuthValue(verf), AcceptedValue(reply));
      case Denied(rejected) => GoodRejected(types, rejected);
    }
    GoodBody(types, results, m);
    GoodTwo(types, UInt, BodySchema(results), Num(m.xid), BodyValue(m.body));
  }

  lemma GoodBody(types: Types, results: Schema, m: Message)
    requires match m.body
      case Call(c) => Good(types, CALL_BODY, CallValue(c))
      case Accepted(verf, reply) => Good(types, AcceptedSchema(results), List([AuthValue(verf), AcceptedValue(reply)]))
      case Denied(rejected) => Good(types, REJECTED, RejectedValue(rejected))
    ensures Good(types, BodySchema(results), BodyValue(m.body))
  {
    hide Good, AuthValue, CallValue, AcceptedValue, RejectedValue;
    var call, reply := Arm(CALL, CALL_BODY), Arm(REPLY, ReplySchema(results));
    var accepted, denied := Arm(MSG_ACCEPTED, AcceptedSchema(results)), Arm(MSG_DENIED, REJECTED);
    match m.body {
      case Call(c) => GoodUnion(types, call, reply, None, CALL, CallValue(c));
      case Accepted(verf, r) =>
        var v := List([AuthValue(verf), AcceptedValue(r)]);
        GoodUnion(types, accepted, denied, None, MSG_ACCEPTED, v);
        GoodUnion(types, call, reply, None, REPLY, Tagged(MSG_ACCEPTED, v));
      case Denied(r) =>
        GoodUnion(types, accepted, denied, None, MSG_DENIED, RejectedValue(r));
        GoodUnion(types, call, reply, None, REPLY, Tagged(MSG_DENIED, RejectedValue(r)));
    }
  }

  lemma GoodAccepted(types: Types, results: Schema, r: AcceptedReply)
    requires r.Success? ==> Good(types, results, r.results)
    requires r.OtherStat? ==> r.stat != SUCCESS && r.stat != PROG_MISMATCH
    ensures Good(types, ResultUnion(results), AcceptedValue(r))
  {
    hide Good;
    var a, b := Arm(SUCCESS, results), Arm(PROG_MISMATCH, TWO);
    if r.ProgMismatch? {
      GoodNum(types, r.low);
      GoodNum(types, r.high);
      GoodTwo(types, UInt, UInt, Num(r.low), Num(r.high));
    }
    GoodVoid(types);
    GoodUnion(types, a, b, Some(Nothing), AcceptedValue(r).tag, AcceptedValue(r).body);
  }

  lemma GoodRejected(types: Types, r: RejectedReply)
    requires r.OtherReject? ==> r.stat != RPC_MISMATCH && r.stat != AUTH_ERROR
    ensures Good(types, REJECTED, RejectedValue(r))
  {
    hide Good;
    var a, b := Arm(RPC_MISMATCH, TWO), Arm(AUTH_ERROR, UInt);
    if r.RpcMismatch? {
      GoodNum(types, r.low);
      GoodNum(types, r.high);
      GoodTwo(types, UInt, UInt, Num(r.low), Num(r.high));
    }
    if r.AuthError? {
      GoodNum(types, r.stat);
    }
    GoodVoid(types);
    GoodUnion(types, a, b, Some(Nothing), RejectedValue(r).tag, RejectedValue(r).body);
  }

  // ----- the bytes of a header

  lemma LayoutNil(types: Types)
    ensures ShapeFields(types, [], []) && EncodeFields(types, [], []) == []
  {
  }

  lemma LayoutCons(types: Types, f: Schema, fs: seq<Schema>, v: Value, vs: seq<Value>)
    requires Shape(types, f, v) && ShapeFields(types, fs, vs)
    ensures ShapeFields(types, [f] + fs, [v] + vs)
    ensures EncodeFields(types, [f] + fs, [v] + vs) == Encode(types, f, v) + EncodeFields(types, fs, vs)
  {
    hide Shape, Encode;
    assert ([f] + fs)[1..] == fs && ([v] + vs)[1..] == vs;
  }

  lemma LayoutStruct(types: Types, fields: seq<Schema>, vs: seq<Value>)
    requires ShapeFields(types, fields, vs)
    ensures Shape(types, Struct(fields), List(vs))
    ensures Encode(types, Struct(fields), List(vs)) == EncodeFields(types, fields, vs)
  {
    hide ShapeFields, EncodeFields;
  }

  lemma LayoutTwo(types: Types, f: Schema, g: Schema, v: Value, w: Value)
    requires Shape(types, f, v) && Shape(types, g, w)
    ensures Shape(types, Struct([f, g]), List([v, w]))
    ensures Encode(types, Struct([f, g]), List([v, w])) == Encode(types, f, v) + Encode(types, g, w)
  {
    hide Shape, Encode, ShapeFields, EncodeFields;
    LayoutNil(types);
    LayoutCons(types, g, [], w, []);
    LayoutCons(types, f, [g] + [], v, [w] + []);
    LayoutStruct(types, [f] + ([g] + []), [v] + ([w] + []));
    assert [f] + ([g] + []) == [f, g] && [v] + ([w] + []) == [v, w];
  }

  lemma LayoutNum(types: Types, u: uint32)
    ensures Shape(types, UInt, Num(u)) && Encode(types, UInt, Num(u)) == Put32(u)
  {
  }

  function AuthBytes(a: OpaqueAuth): seq<byte>
    requires |a.body| <= UINT32_MAX
  {
    Put32(a.flavor) + (Put32(|a.body|) + Padded(a.body))
  }

  lemma LayoutAuth(types: Types, a: OpaqueAuth)
    requires |a.body| <= MAX_SIZE
    ensures Shape(types, AUTH, AuthValue(a)) && Encode(types, AUTH, AuthValue(a)) == AuthBytes(a)
  {
    LayoutNum(types, a.flavor);
    var s := Schema.Bytes(0);
    assert Shape(types, s, Data(a.body)) && Encode(types, s, Data(a.body)) == Put32(|a.body|) + Padded(a.body);
    LayoutTwo(types, UInt, s, Num(a.flavor), Data(a.body));
  }

  lemma LayoutCall(types: Types, c: CallBody)
    requires |c.cred.body| <= MAX_SIZE && |c.verf.body| <= MAX_SIZE
    ensures Shape(types, CALL_BODY, CallValue(c))
    ensures Encode(types, CALL_BODY, CallValue(c)) ==
      Put32(c.rpcvers) + (Put32(c.prog) + (Put32(c.vers) + (Put32(c.procedure) + (AuthBytes(c.cred) +
      (AuthBytes(c.verf) + [])))))
  {
    hide Shape, Encode, ShapeFields, EncodeFields, AuthValue, AuthBytes, Put32;
    LayoutAuth(types, c.cred);
    LayoutAuth(types, c.verf);
    LayoutNum(types, c.rpcvers);
    LayoutNum(types, c.prog);
    LayoutNum(types, c.vers);
    LayoutNum(types, c.procedure);
    LayoutNil(types);
    var cred, verf := AuthValue(c.cred), AuthValue(c.verf);
    LayoutCons(types, AUTH, [], verf, []);
    LayoutCons(types, AUTH, [AUTH] + [], cred, [verf] + []);
    LayoutCons(types, UInt, [AUTH] + ([AUTH] + []), Num(c.procedure), [cred] + ([verf] + []));
    var gs, ws := [UInt] + ([AUTH] + ([AUTH] + [])), [Num(c.procedure)] + ([cred] + ([verf] + []));
    LayoutCons(types, UInt, gs, Num(c.vers), ws);
    var fs, vs := [UInt] + gs, [Num(c.vers)] + ws;
    LayoutCons(types, UInt, fs, Num(c.prog), vs);
    LayoutCons(types, UInt, [UInt] + fs, Num(c.rpcvers), [Num(c.prog)] + vs);
    LayoutStruct(types, [UInt] + ([UInt] + fs), [Num(c.rpcvers)] + ([Num(c.prog)] + vs));
    assert [UInt] + ([UInt] + fs) == [UInt, UInt, UInt, UInt, AUTH, AUTH];
    assert [Num(c.rpcvers)] + ([Num(c.prog)] + vs) ==
           [Num(c.rpcvers), Num(c.prog), Num(c.vers), Num(c.procedure), cred, verf];
  }

  lemma LayoutUnion(types: Types, a: Arm, b: Arm, otherwise: Option<Schema>, tag: uint32, v: Value)
    requires if tag == a.tag then Shape(types, a.body, v) else if tag == b.tag then Shape(types, b.body, v)
             else otherwise == Some(Nothing) && v == Value.Void
    ensures Shape(types, Union([a, b], otherwise), Tagged(tag, v))
    ensures Encode(types, Union([a, b], otherwise), Tagged(tag, v)) ==
      Put32(tag) + if tag == a.tag then Encode(types, a.body, v) else if tag == b.tag then Encode(types, b.body, v)
                   else []
  {
    SelectTwo(a, b, tag);
  }

  /** A call, word by word: its number, 0 for a call, the versions and the procedure,
      and the credential and the verifier, each a flavour and counted bytes. */
  lemma CallBytes(types: Types, results: Schema, xid: uint32, c: CallBody)
    requires |c.cred.body| <= MAX_SIZE && |c.verf.body| <= MAX_SIZE
    ensures var m := Message(xid, Call(c));
      && Shape(types, MessageSchema(results), ToValue(m))
      && Encode(types, MessageSchema(results), ToValue(m)) ==
         Put32(xid) + Put32(0) + Put32(c.rpcvers) + Put32(c.prog) + Put32(c.vers) + Put32(c.procedure)
         + Put32(c.cred.flavor) + Put32(|c.cred.body|) + Padded(c.cred.body)
         + Put32(c.verf.flavor) + Put32(|c.verf.body|) + Padded(c.verf.body)
  {
    hide Shape, Encode, CallValue, Put32, Padded;
    LayoutCall(types, c);
    LayoutNum(types, xid);
    var call, reply := Arm(CALL, CALL_BODY), Arm(REPLY, ReplySchema(results));
    LayoutUnion(types, call, reply, None, 0, CallValue(c));
    LayoutTwo(types, UInt, BodySchema(results), Num(xid), Tagged(CALL, CallValue(c)));
  }

  /** What follows the two words 1 and 0 of an accepted reply ... */
  lemma LayoutAccepted(types: Types, results: Schema, r: AcceptedReply)
    requires r.Success? ==> Shape(types, results, r.results)
    requires r.OtherStat? ==> r.stat != SUCCESS && r.stat != PROG_MISMATCH
    ensures Shape(types, ResultUnion(results), AcceptedValue(r))
    ensures Encode(types, ResultUnion(results), AcceptedValue(r)) ==
      if r.Success? then Put32(0) + Encode(types, results, r.results)
      else if r.ProgMismatch? then Put32(2) + (Put32(r.low) + Put32(r.high))
      else Put32(r.stat)
  {
    hide Shape, Encode, Put32;
    if r.ProgMismatch? {
      LayoutNum(types, r.low);
      LayoutNum(types, r.high);
      LayoutTwo(types, UInt, UInt, Num(r.low), Num(r.high));
    }
    LayoutUnion(types, Arm(SUCCESS, results), Arm(PROG_MISMATCH, TWO), Some(Nothing),
                AcceptedValue(r).tag, AcceptedValue(r).body);
  }

  /** ... and the words 1 and 1 of a denied one. */
  lemma LayoutRejected(types: Types, r: RejectedReply)
    requires r.OtherReject? ==> r.stat != RPC_MISMATCH && r.stat != AUTH_ERROR
    ensures Shape(types, REJECTED, RejectedValue(r))
    ensures Encode(types, REJECTED, RejectedValue(r)) ==
      match r
      case RpcMismatch(low, high) => Put32(0) + (Put32(low) + Put32(high))
      case AuthError(stat) => Put32(1) + Put32(stat)
      case OtherReject(stat) => Put32(stat)
  {
    hide Shape, Encode, Put32;
    if r.RpcMismatch? {
      LayoutNum(types, r.low);
      LayoutNum(types, r.high);
      LayoutTwo(types, UInt, UInt, Num(r.low), Num(r.high));
    }
    if r.AuthError? {
      LayoutNum(types, r.stat);
    }
    LayoutUnion(types, Arm(RPC_MISMATCH, TWO), Arm(AUTH_ERROR, UInt), Some(Nothing),
                RejectedValue(r).tag, RejectedValue(r).body);
  }

  lemma LayoutReply(types: Types, results: Schema, xid: uint32, tag: uint32, v: Value)
    requires tag <= 1
    requires if tag == 0 then Shape(types, AcceptedSchema(results), v) else Shape(types, REJECTED, v)
    ensures var m := List([Num(xid), Tagged(REPLY, Tagged(tag, v))]);
      && Shape(types, MessageSchema(results), m)
      && Encode(types, MessageSchema(results), m) ==
         Put32(xid) + (Put32(1) + (Put32(tag) +
         if tag == 0 then Encode(types, AcceptedSchema(results), v) else Encode(types, REJECTED, v)))
  {
    hide Shape, Encode, Put32;
    var call, reply := Arm(CALL, CALL_BODY), Arm(REPLY, ReplySchema(results));
    LayoutNum(types, xid);
    LayoutUnion(types, Arm(MSG_ACCEPTED, AcceptedSchema(results)), Arm(MSG_DENIED, REJECTED), None, tag, v);
    LayoutUnion(types, call, reply, None, 1, Tagged(tag, v));
    LayoutTwo(types, UInt, BodySchema(results), Num(xid), Tagged(REPLY, Tagged(tag, v)));
  }

  /** A reply, word by word: its number, 1 for a reply, 0 if it was accepted, with
      the server's verifier, or 1, and then how it went: 0 and the results, 2 and two
      versions, or another status; 0 and two versions, 1 and the reason, or another. */
  lemma ReplyBytes(types: Types, results: Schema, m: Message)
    requires Sendable(types, results, m) && !m.body.Call?
    ensures Shape(types, MessageSchema(results), ToValue(m))
    ensures m.body.Accepted? ==>
      var verf, r := m.body.verf, m.body.reply;
      Encode(types, MessageSchema(results), ToValue(m)) ==
      Put32(m.xid) + Put32(1) + Put32(0) + Put32(verf.flavor) + Put32(|verf.body|) + Padded(verf.body) +
      if r.Success? then Put32(0) + Encode(types, results, r.results)
      else if r.ProgMismatch? then Put32(2) + Put32(r.low) + Put32(r.high)
      else Put32(r.stat)
    ensures m.body.Denied? ==>
      var r := m.body.rejected;
      Encode(types, MessageSchema(results), ToValue(m)) ==
      Put32(m.xid) + Put32(1) + Put32(1) +
      if r.RpcMismatch? then Put32(0) + Put32(r.low) + Put32(r.high)
      else if r.AuthError? then Put32(1) + Put32(r.stat)
      else Put32(r.stat)
  {
    hide Shape, Encode, Put32, Padded, AuthBytes, AuthValue, AcceptedValue, RejectedValue;
    match m.body
    case Accepted(verf, reply) => AcceptedBytes(types, results, m.xid, verf, reply);
    case Denied(rejected) =>
      LayoutRejected(types, rejected);
      LayoutReply(types, results, m.xid, 1, RejectedValue(rejected));
  }

  lemma AcceptedBytes(types: Types, results: Schema, xid: uint32, verf: OpaqueAuth, r: AcceptedReply)
    requires Sendable(types, results, Message(xid, Accepted(verf, r)))
    ensures var m := ToValue(Message(xid, Accepted(verf, r)));
      && Shape(types, MessageSchema(results), m)
      && Encode(types, MessageSchema(results), m) ==
         Put32(xid) + Put32(1) + Put32(0) + Put32(verf.flavor) + Put32(|verf.body|) + Padded(verf.body) +
         if r.Success? then Put32(0) + Encode(types, results, r.results)
         else if r.ProgMismatch? then Put32(2) + Put32(r.low) + Put32(r.high)
         else Put32(r.stat)
  {
    hide Shape, Encode, Put32, Padded, AuthValue, AcceptedValue, AuthBytes;
    LayoutAuth(types, verf);
    LayoutAccepted(types, results, r);
    LayoutTwo(types, AUTH, ResultUnion(results), AuthValue(verf), AcceptedValue(r));
    LayoutReply(types, results, xid, 0, List([AuthValue(verf), AcceptedValue(r)]));
    AuthIs(verf);
    Regrouped(Put32(xid), Put32(1), Put32(0), Put32(verf.flavor), Put32(|verf.body|), Padded(verf.body),
              Encode(types, ResultUnion(results), AcceptedValue(r)));
  }

  lemma AuthIs(a: OpaqueAuth)
    requires |a.body| <= UINT32_MAX
    ensures AuthBytes(a) == Put32(a.flavor) + (Put32(|a.body|) + Padded(a.body))
  {
  }

  lemma Regrouped(a: seq<byte>, b: seq<byte>, c: seq<byte>, d: seq<byte>, e: seq<byte>, f: seq<byte>, g: seq<byte>)
    ensures a + (b + (c + (d + (e + f) + g))) == a + b + c + d + e + f + g
  {
  }

  // ----- headers

  lemma GuardedTwo(types: Types, f: Schema, g: Schema, v: Value, w: Value, after: nat)
    requires Shape(types, f, v) && Shape(types, g, w)
    ensures Shape(types, Struct([f, g]), List([v, w]))
    ensures Guarded(types, Struct([f, g]), List([v, w]), after) <==>
      Guarded(types, f, v, |Encode(types, g, w)| + after) && Guarded(types, g, w, after)
  {
    var fs, vs := [f, g], [v, w];
    assert fs[1..] == [g] && vs[1..] == [w] && [g][1..] == [] && [w][1..] == [];
    assert ShapeFields(types, [], []) && ShapeFields(types, [g], [w]);
    assert EncodeFields(types, [], []) == [] && EncodeFields(types, [g], [w]) == Encode(types, g, w);
    assert GuardedFields(types, [], [], after);
    assert GuardedFields(types, [g], [w], after) <==> Guarded(types, g, w, after);
  }

  /** No array of the header itself can be refused, only one in the results. */
  ghost predicate ResultsGuarded(types: Types, results: Schema, m: Message, after: nat)
    requires Sendable(types, results, m)
  {
    m.body.Accepted? && m.body.reply.Success? ==> Guarded(types, results, m.body.reply.results, after)
  }

  lemma GuardedMessage(types: Types, results: Schema, m: Message, after: nat)
    requires Sendable(types, results, m)
    ensures Shape(types, MessageSchema(results), ToValue(m))
    ensures Guarded(types, MessageSchema(results), ToValue(m), after) <==> ResultsGuarded(types, results, m, after)
  {
    GuardedBody(types, results, m, after);
    GoodNum(types, m.xid);
    assert Guarded(types, UInt, Num(m.xid), |Encode(types, BodySchema(results), BodyValue(m.body))| + after);
    hide Good, Guarded, Shape;
    GuardedTwo(types, UInt, BodySchema(results), Num(m.xid), BodyValue(m.body), after);
  }

  lemma GuardedUnion(types: Types, a: Arm, b: Arm, otherwise: Option<Schema>, body: Schema, tag: uint32, v: Value,
                     after: nat)
    requires Shape(types, body, v)
    requires if tag == a.tag then body == a.body else if tag == b.tag then body == b.body else otherwise == Some(body)
    ensures Shape(types, Union([a, b], otherwise), Tagged(tag, v))
    ensures Guarded(types, Union([a, b], otherwise), Tagged(tag, v), after) <==> Guarded(types, body, v, after)
  {
    SelectTwo(a, b, tag);
  }

  lemma GuardedHeader(types: Types, s: Schema, v: Value, after: nat)
    requires Shape(types, s, v) && Sound(s, false)
    ensures Guarded(types, s, v, after)
  {
    SoundIsGuarded(types, s, v, after, false);
  }

  lemma HeadersAreSound()
    ensures Sound(AUTH, false) && Sound(TWO, false) && Sound(CALL_BODY, false) && Sound(REJECTED, false)
    ensures Sound(Nothing, false)
  {
    assert Sound(TWO, false) && Sound(AUTH, false);
  }

  lemma GuardedBody(types: Types, results: Schema, m: Message, after: nat)
    requires Sendable(types, results, m)
    ensures Shape(types, BodySchema(results), BodyValue(m.body))
    ensures Guarded(types, BodySchema(results), BodyValue(m.body), after) <==> ResultsGuarded(types, results, m, after)
  {
    var call, reply := Arm(CALL, CALL_BODY), Arm(REPLY, ReplySchema(results));
    var accepted, denied := Arm(MSG_ACCEPTED, AcceptedSchema(results)), Arm(MSG_DENIED, REJECTED);
    HeadersAreSound();
    match m.body {
      case Call(c) =>
        GoodCall(types, c);
        hide Guarded, Sound, Shape, CallValue;
        GuardedHeader(types, CALL_BODY, CallValue(c), after);
        GuardedUnion(types, call, reply, None, CALL_BODY, CALL, CallValue(c), after);
      case Accepted(verf, r) =>
        var v := List([AuthValue(verf), AcceptedValue(r)]);
        GuardedAccepted(types, results, m, after);
        hide Guarded, Sound, Shape, AcceptedValue, AuthValue;
        GuardedUnion(types, accepted, denied, None, AcceptedSchema(results), MSG_ACCEPTED, v, after);
        GuardedUnion(types, call, reply, None, ReplySchema(results), REPLY, Tagged(MSG_ACCEPTED, v), after);
      case Denied(r) =>
        GoodRejected(types, r);
        hide Guarded, Sound, Shape, RejectedValue;
        GuardedHeader(types, REJECTED, RejectedValue(r), after);
        GuardedUnion(types, accepted, denied, None, REJECTED, MSG_DENIED, RejectedValue(r), after);
        var v := Tagged(MSG_DENIED, RejectedValue(r));
        GuardedUnion(types, call, reply, None, ReplySchema(results), REPLY, v, after);
    }
  }

  lemma GuardedAccepted(types: Types, results: Schema, m: Message, after: nat)
    requires Sendable(types, results, m) && m.body.Accepted?
    ensures var v := List([AuthValue(m.body.verf), AcceptedValue(m.body.reply)]);
      && Shape(types, AcceptedSchema(results), v)
      && (Guarded(types, AcceptedSchema(results), v, after) <==> ResultsGuarded(types, results, m, after))
  {
    var r := m.body.reply;
    GoodAuth(types, m.body.verf);
    HeadersAreSound();
    GuardedResults(types, results, r, after);
    hide Guarded, Sound, Shape, AcceptedValue, AuthValue;
    GuardedHeader(types, AUTH, AuthValue(m.body.verf), |Encode(types, ResultUnion(results), AcceptedValue(r))| + after);
    GuardedTwo(types, AUTH, ResultUnion(results), AuthValue(m.body.verf), AcceptedValue(r), after);
  }

  lemma GuardedResults(types: Types, results: Schema, r: AcceptedReply, after: nat)
    requires r.Success? ==> Shape(types, results, r.results)
    requires r.OtherStat? ==> r.stat != SUCCESS && r.stat != PROG_MISMATCH
    ensures Shape(types, ResultUnion(results), AcceptedValue(r))
    ensures Guarded(types, ResultUnion(results), AcceptedValue(r), after) <==>
      (r.Success? ==> Guarded(types, results, r.results, after))
  {
    var a, b := Arm(SUCCESS, results), Arm(PROG_MISMATCH, TWO);
    match r {
      case Success(v) => GuardedUnion(types, a, b, Some(Nothing), results, SUCCESS, v, after);
      case ProgMismatch(low, high) =>
        GoodNum(types, low);
        GoodNum(types, high);
        GoodTwo(types, UInt, UInt, Num(low), Num(high));
        HeadersAreSound();
        hide Guarded, Sound, Shape;
        GuardedHeader(types, TWO, List([Num(low), Num(high)]), after);
        GuardedUnion(types, a, b, Some(Nothing), TWO, PROG_MISMATCH, List([Num(low), Num(high)]), after);
      case OtherStat(stat) =>
        GoodVoid(types);
        GuardedUnion(types, a, b, Some(Nothing), Nothing, stat, Value.Void, after);
    }
  }

  /** A header sent by one side decodes, on the other, to the same header and to
      nothing else, and leaves what follows it, exactly if the guard on array
      counts lets its results through. */
  lemma HeaderRoundTrip(types: Types, results: Schema, m: Message, tail: seq<byte>)
    requires Sendable(types, results, m)
    ensures Shape(types, MessageSchema(results), ToValue(m))
    ensures var e := Encode(types, MessageSchema(results), ToValue(m));
      Decode(types, MessageSchema(results), e + tail) ==
      if ResultsGuarded(types, results, m, |tail|) then Some((ToValue(m), |e|)) else None
    ensures forall n :: WellTagged(n) && ToValue(n) == ToValue(m) ==> n == m
  {
    GoodMessage(types, results, m);
    GuardedMessage(types, results, m, |tail|);
    RoundTrip(types, MessageSchema(results), ToValue(m), tail);
    forall n | WellTagged(n) && ToValue(n) == ToValue(m)
      ensures n == m
    {
      ToValueInjective(m, n);
    }
  }
}
