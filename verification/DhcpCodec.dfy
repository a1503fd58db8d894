// The DHCP message codec: the option walk of received replies, and the
// 548-byte frames built in place.
module DhcpCodec {
  import opened Buffers
  import opened MachineInts

  const MSG_SIZE := 548
  const OPT_MASK := 1
  const OPT_ROUTER := 3
  const OPT_HOSTNAME := 12
  const OPT_REQUESTED_IP := 50
  const OPT_LEASE_TIME := 51
  const OPT_MSG_TYPE := 53
  const OPT_SERVER_ID := 54
  const OPT_PARAM_LIST := 55
  const OPT_T1 := 58
  const OPT_T2 := 59
  const OPT_CLIENT_ID := 61
  const OPT_END := 255

  type Ip = b: Bytes | |b| == 4 witness [0, 0, 0, 0]
  type Mac = b: Bytes | |b| == 6 witness [0, 0, 0, 0, 0, 0]

  const COOKIE: Bytes := [99, 130, 83, 99]
  const BCAST: Ip := [255, 255, 255, 255]
  const HOSTNAME: Bytes := [0x65, 0x73, 0x70, 0x33, 0x32, 0x2D, 0x6E, 0x74, 0x70]
  const PARAMS: Bytes := [1, 3, 51, 54, 58, 59]

  // ---- Options ----

  datatype Opt = Pad | Opt(code: Byte, value: Bytes)

  predicate OptOk(o: Opt) {
    o.Opt? ==> o.code != 0 && o.code != OPT_END && |o.value| < 0x100
  }

  predicate OptsOk(opts: seq<Opt>) {
    forall i :: 0 <= i < |opts| ==> OptOk(opts[i])
  }

  function EncodeOpt(o: Opt): Bytes
    requires OptOk(o)
  {
    match o
    case Pad => [0]
    case Opt(code, value) => [code, |value|] + value
  }

  function EncodeOpts(opts: seq<Opt>): Bytes
    requires OptsOk(opts)
  {
    if opts == [] then [] else EncodeOpt(opts[0]) + EncodeOpts(opts[1..])
  }

  /** The options a receiver finds: up to END, or up to one that does not fit. */
  function Walk(s: Bytes): (opts: seq<Opt>)
    ensures OptsOk(opts)
    decreases |s|
  {
    if |s| < 2 || s[0] == OPT_END then []
    else if s[0] == 0 then [Pad] + Walk(s[1..])
    else if 2 + s[1] > |s| then []
    else [Opt(s[0], s[2..2 + s[1]])] + Walk(s[2 + s[1]..])
  }

  lemma WalkOne(o: Opt, rest: Bytes)
    requires OptOk(o) && rest != []
    ensures Walk(EncodeOpt(o) + rest) == [o] + Walk(rest)
  {
    var s := EncodeOpt(o) + rest;
    match o
    case Pad => assert s[1..] == rest;
    case Opt(code, value) =>
      assert s[0] == code && s[1] == |value| && s[2..2 + |value|] == value && s[2 + |value|..] == rest;
  }

  lemma WalkEnd(tail: Bytes)
    ensures Walk([OPT_END] + tail) == []
  {
  }

  /** Walking an encoded list closed by END gives the list back, whatever
      follows END. */
  lemma {:induction false} WalkInverts(opts: seq<Opt>, tail: Bytes)
    requires OptsOk(opts)
    ensures Walk(EncodeOpts(opts) + [255] + tail) == opts
    decreases |opts|
  {
    hide Walk, EncodeOpt;
    if opts == [] {
      assert EncodeOpts(opts) + [OPT_END] + tail == [OPT_END] + tail;
      WalkEnd(tail);
    } else {
      var rest := EncodeOpts(opts[1..]) + [OPT_END] + tail;
      assert EncodeOpts(opts) + [OPT_END] + tail == EncodeOpt(opts[0]) + rest;
      WalkOne(opts[0], rest);
      WalkInverts(opts[1..], tail);
    }
  }

  lemma {:induction false} EncodeAppend(a: seq<Opt>, b: seq<Opt>)
    requires OptsOk(a) && OptsOk(b)
    ensures OptsOk(a + b) && EncodeOpts(a + b) == EncodeOpts(a) + EncodeOpts(b)
    decreases |a|
  {
    hide EncodeOpt;
    if a == [] {
      assert a + b == b;
    } else {
      assert (a + b)[0] == a[0] && (a + b)[1..] == a[1..] + b;
      EncodeAppend(a[1..], b);
      Regroup(EncodeOpt(a[0]), EncodeOpts(a[1..]), EncodeOpts(b));
    }
  }

  lemma EncodeLast(a: seq<Opt>, o: Opt)
    requires OptsOk(a) && OptOk(o)
    ensures OptsOk(a + [o]) && EncodeOpts(a + [o]) == EncodeOpts(a) + EncodeOpt(o)
  {
    EncodeAppend(a, [o]);
    assert EncodeOpts([o]) == EncodeOpt(o) + EncodeOpts([]);
  }

  // ---- Replies ----

  datatype Reply = Reply(
    msgType: Byte, yiaddr: Ip, serverId: Ip, mask: Ip, router: Ip,
    lease: U32, t1: U32, t2: U32, hasMask: bool, hasRouter: bool, hasServer: bool)

  const ZERO4: Ip := [0, 0, 0, 0]

  function NoReply(yiaddr: Ip): Reply {
    Reply(0, yiaddr, ZERO4, ZERO4, ZERO4, 0, 0, 0, false, false, false)
  }

  /** What one option contributes; too short or unknown ones nothing. */
  function Absorb(r: Reply, o: Opt): Reply {
    if o.Pad? then r
    else if o.code == OPT_MSG_TYPE && |o.value| >= 1 then r.(msgType := o.value[0])
    else if |o.value| < 4 then r
    else if o.code == OPT_SERVER_ID then r.(serverId := o.value[..4], hasServer := true)
    else if o.code == OPT_MASK then r.(mask := o.value[..4], hasMask := true)
    else if o.code == OPT_ROUTER then r.(router := o.value[..4], hasRouter := true)
    else if o.code == OPT_LEASE_TIME then r.(lease := FromBE32(o.value))
    else if o.code == OPT_T1 then r.(t1 := FromBE32(o.value))
    else if o.code == OPT_T2 then r.(t2 := FromBE32(o.value))
    else r
  }

  function AbsorbAll(r: Reply, opts: seq<Opt>): Reply
    decreases |opts|
  {
    if opts == [] then r else AbsorbAll(Absorb(r, opts[0]), opts[1..])
  }

  /** The value of the last option with this code and at least `min` bytes. */
  function LastValue(opts: seq<Opt>, code: Byte, min: nat): Option<Bytes>
    decreases |opts|
  {
    if opts == [] then None
    else
      var o := opts[|opts| - 1];
      if o.Opt? && o.code == code && |o.value| >= min then Some(o.value)
      else LastValue(opts[..|opts| - 1], code, min)
  }

  function Address(v: Option<Bytes>): Ip {
    if v.Some? && |v.value| >= 4 then v.value[..4] else ZERO4
  }

  function Seconds(v: Option<Bytes>): U32 {
    if v.Some? && |v.value| >= 4 then FromBE32(v.value) else 0
  }

  /** The reply as the option list means it, RFC 2131 section 4.1 and RFC 2132. */
  function Meaning(yiaddr: Ip, opts: seq<Opt>): Reply {
    var t := LastValue(opts, OPT_MSG_TYPE, 1);
    var server, mask, router :=
      LastValue(opts, OPT_SERVER_ID, 4), LastValue(opts, OPT_MASK, 4), LastValue(opts, OPT_ROUTER, 4);
    Reply(
      if t.Some? && |t.value| >= 1 then t.value[0] else 0,
      yiaddr, Address(server), Address(mask), Address(router),
      Seconds(LastValue(opts, OPT_LEASE_TIME, 4)), Seconds(LastValue(opts, OPT_T1, 4)), Seconds(LastValue(opts, OPT_T2, 4)),
      mask.Some?, router.Some?, server.Some?)
  }

  lemma {:induction false} LastValueLong(opts: seq<Opt>, code: Byte, min: nat)
    ensures LastValue(opts, code, min).Some? ==> |LastValue(opts, code, min).value| >= min
    decreases |opts|
  {
    if opts != [] {
      LastValueLong(opts[..|opts| - 1], code, min);
    }
  }

  lemma {:induction false} AbsorbAppend(r: Reply, opts: seq<Opt>, o: Opt)
    ensures AbsorbAll(r, opts + [o]) == Absorb(AbsorbAll(r, opts), o)
    decreases |opts|
  {
    hide Absorb;
    if opts == [] {
      assert (opts + [o])[1..] == [];
    } else {
      assert (opts + [o])[1..] == opts[1..] + [o];
      AbsorbAppend(Absorb(r, opts[0]), opts[1..], o);
    }
  }

  lemma LastStep(opts: seq<Opt>, o: Opt, code: Byte, min: nat)
    ensures LastValue(opts + [o], code, min) ==
            if o.Opt? && o.code == code && |o.value| >= min then Some(o.value) else LastValue(opts, code, min)
  {
    assert (opts + [o])[..|opts|] == opts;
  }

  lemma MeaningStep(yiaddr: Ip, opts: seq<Opt>, o: Opt)
    ensures Meaning(yiaddr, opts + [o]) == Absorb(Meaning(yiaddr, opts), o)
  {
    hide LastValue, FromBE32;
    LastStep(opts, o, OPT_MSG_TYPE, 1);
    LastStep(opts, o, OPT_SERVER_ID, 4);
    LastStep(opts, o, OPT_MASK, 4);
    LastStep(opts, o, OPT_ROUTER, 4);
    LastStep(opts, o, OPT_LEASE_TIME, 4);
    LastStep(opts, o, OPT_T1, 4);
    LastStep(opts, o, OPT_T2, 4);
  }

  /** Absorbing options in order leaves the last sufficiently long value of each. */
  lemma {:induction false} AbsorbIsMeaning(yiaddr: Ip, opts: seq<Opt>)
    ensures AbsorbAll(NoReply(yiaddr), opts) == Meaning(yiaddr, opts)
    decreases |opts|
  {
    hide Absorb;
    if opts != [] {
      hide Meaning, NoReply;
      var init, o := opts[..|opts| - 1], opts[|opts| - 1];
      assert init + [o] == opts;
      AbsorbIsMeaning(yiaddr, init);
      AbsorbAppend(NoReply(yiaddr), init, o);
      MeaningStep(yiaddr, init, o);
    }
  }

  /** A datagram accepted as a reply to transaction xid of this client. */
  predicate ForUs(p: Bytes, xid: U32, mac: Mac)
  {
    && |p| >= 244 && p[0] == 2
    && FromBE32(p[4..8]) == xid
    && p[28..34] == mac
    && p[236..240] == COOKIE
  }

  /** parse_reply as a function of the datagram. */
  function Parse(p: Bytes, xid: U32, mac: Mac): Option<Reply>
  {
    if !ForUs(p, xid, mac) then None
    else
      var r := Meaning(p[16..20], Walk(p[240..]));
      if r.msgType == 0 then None else Some(r)
  }

  /** parse_reply over the first n bytes of the message buffer. */
  method ParseReply(p: array<Byte>, n: nat, xid: U32, mac: Mac) returns (out: Option<Reply>)
    requires n <= p.Length <= 0xFF00
    ensures out == Parse(p[..n], xid, mac)
  {
    if n < 244 { return None; }
    ghost var s := p[..n];
    assert s[4..8] == p[4..8] && s[28..34] == p[28..34] && s[236..240] == p[236..240] && s[16..20] == p[16..20];
    if p[0] != 2 { return None; }
    if FromBE32(p[4..8]) != xid { return None; }
    if p[28..34] != mac { return None; }
    if p[236..240] != COOKIE { return None; }
    var r := NoReply(p[16..20]);
    r := ParseOptions(p, n, r);
    AbsorbIsMeaning(p[16..20], Walk(s[240..]));
    out := if r.msgType == 0 then None else Some(r);
  }

  method ParseOptions(p: array<Byte>, n: nat, start: Reply) returns (r: Reply)
    requires 244 <= n <= p.Length <= 0xFF00
    ensures r == AbsorbAll(start, Walk(p[..n][240..]))
  {
    r := start;
    ghost var goal := AbsorbAll(start, Walk(p[..n][240..]));
    var i := 240;
    while i + 1 < n
      invariant 240 <= i <= n
      invariant AbsorbAll(r, Walk(p[..n][i..])) == goal
      decreases n - i
    {
      ghost var s := p[..n][i..];
      var code := p[i];
      assert s[0] == p[i] && s[1] == p[i + 1];
      if code == OPT_END { break; }
      if code == 0 {
        assert s[1..] == p[..n][i + 1..];
        WalkStep(r, s);
        i := i + 1;
        continue;
      }
      var len := p[i + 1];
      if i + 2 + len > n { break; }
      assert s[2..2 + len] == p[i + 2..i + 2 + len] && s[2 + len..] == p[..n][i + 2 + len..];
      WalkStep(r, s);
      r := Absorb(r, Opt(code, p[i + 2..i + 2 + len]));
      i := i + 2 + len;
    }
    WalkStep(r, p[..n][i..]);
  }

  lemma WalkStep(r: Reply, s: Bytes)
    ensures AbsorbAll(r, Walk(s)) ==
            if |s| < 2 || s[0] == OPT_END then r
            else if s[0] == 0 then AbsorbAll(r, Walk(s[1..]))
            else if 2 + s[1] > |s| then r
            else AbsorbAll(Absorb(r, Opt(s[0], s[2..2 + s[1]])), Walk(s[2 + s[1]..]))
  {
    hide Absorb;
    if |s| >= 2 && s[0] != OPT_END && (s[0] == 0 || 2 + s[1] <= |s|) {
      var o := if s[0] == 0 then Pad else Opt(s[0], s[2..2 + s[1]]);
      assert Walk(s)[1..] == if s[0] == 0 then Walk(s[1..]) else Walk(s[2 + s[1]..]);
      assert Absorb(r, Pad) == r by { PadIsNothing(r); }
    }
  }

  lemma PadIsNothing(r: Reply)
    ensures Absorb(r, Pad) == r
  {
  }

  // ---- Messages ----

  function Zeros(n: nat): (z: Bytes)
    ensures |z| == n && forall i :: 0 <= i < n ==> z[i] == 0
  {
    seq(n, _ => 0)
  }

  /** The 236 fixed bytes of a request and the cookie, RFC 2131 section 2. */
  function Fixed(xid: U32, bcast: bool, ciaddr: Ip, mac: Mac): (h: Bytes)
    ensures |h| == 240
  {
    [1, 1, 6, 0] + BE32(xid) + [0, 0] + [if bcast then 0x80 else 0, 0] + ciaddr + Zeros(12) + mac + Zeros(202) + COOKIE
  }

  /** A whole message: fixed part, options, END, zero padding to 548 bytes. */
  function Message(fixed: Bytes, opts: seq<Opt>): (m: Bytes)
    requires OptsOk(opts) && |fixed| + |EncodeOpts(opts)| < MSG_SIZE
    ensures |m| == MSG_SIZE
  {
    fixed + EncodeOpts(opts) + [OPT_END] + Zeros(MSG_SIZE - |fixed| - |EncodeOpts(opts)| - 1)
  }

  /** A server reading the message finds exactly these options and fields. */
  lemma MessageDecodes(xid: U32, bcast: bool, ciaddr: Ip, mac: Mac, opts: seq<Opt>)
    requires OptsOk(opts) && 240 + |EncodeOpts(opts)| < MSG_SIZE
    ensures var m := Message(Fixed(xid, bcast, ciaddr, mac), opts);
            && |m| == MSG_SIZE && Walk(m[240..]) == opts
            && m[0] == 1 && FromBE32(m[4..8]) == xid && m[12..16] == ciaddr && m[28..34] == mac
            && m[236..240] == COOKIE && (m[10] >= 0x80 <==> bcast)
  {
    hide EncodeOpts, Walk, Fixed, Zeros, Message;
    var fixed := Fixed(xid, bcast, ciaddr, mac);
    var pad := Zeros(MSG_SIZE - 240 - |EncodeOpts(opts)| - 1);
    MessageParts(fixed, opts);
    WalkInverts(opts, pad);
    FixedFields(xid, bcast, ciaddr, mac);
    var m := Message(fixed, opts);
    Subslice(m, 4, 8);
    Subslice(m, 12, 16);
    Subslice(m, 28, 34);
    Subslice(m, 236, 240);
    assert m[0] == fixed[0] && m[10] == fixed[10];
  }

  lemma MessageParts(fixed: Bytes, opts: seq<Opt>)
    requires OptsOk(opts) && |fixed| == 240 && 240 + |EncodeOpts(opts)| < MSG_SIZE
    ensures var m := Message(fixed, opts);
            m[..240] == fixed && m[240..] == EncodeOpts(opts) + [OPT_END] + Zeros(MSG_SIZE - 240 - |EncodeOpts(opts)| - 1)
  {
    hide EncodeOpts, Zeros;
  }

  lemma Subslice(m: Bytes, a: nat, b: nat)
    requires a <= b <= 240 <= |m|
    ensures m[..240][a..b] == m[a..b]
  {
  }

  lemma FixedFields(xid: U32, bcast: bool, ciaddr: Ip, mac: Mac)
    ensures var h := Fixed(xid, bcast, ciaddr, mac);
            && h[0] == 1 && FromBE32(h[4..8]) == xid && h[12..16] == ciaddr && h[28..34] == mac
            && h[236..240] == COOKIE && (h[10] >= 0x80 <==> bcast)
  {
    var h := Fixed(xid, bcast, ciaddr, mac);
    assert h[4..8] == BE32(xid);
    BE32RoundTrip(xid);
  }

  function CommonOpts(msgType: Byte, mac: Mac): (opts: seq<Opt>)
    ensures OptsOk(opts)
  {
    [Opt(OPT_MSG_TYPE, [msgType]), Opt(OPT_CLIENT_ID, [1] + mac), Opt(OPT_HOSTNAME, HOSTNAME)]
  }

  /** The buffer holds the start of a message: these bytes, zeros behind them. */
  ghost predicate Started(msg: array<Byte>, k: nat, bytes: Bytes)
    reads msg
  {
    msg.Length == MSG_SIZE && k <= MSG_SIZE && msg[..k] == bytes && forall j :: k <= j < MSG_SIZE ==> msg[j] == 0
  }

  /** Skipping over bytes that stay zero. */
  lemma Skip(msg: array<Byte>, k: nat, next: nat, bytes: Bytes)
    requires Started(msg, k, bytes) && k <= next <= MSG_SIZE
    ensures Started(msg, next, bytes + Zeros(next - k))
  {
    assert msg[..next] == msg[..k] + Zeros(next - k);
  }

  method PutOption(msg: array<Byte>, k: nat, code: Byte, value: Bytes, ghost bytes: Bytes) returns (next: nat)
    requires OptOk(Opt(code, value)) && Started(msg, k, bytes) && k + 2 + |value| <= MSG_SIZE
    modifies msg
    ensures next == k + 2 + |value| && Started(msg, next, bytes + EncodeOpt(Opt(code, value)))
  {
    next := Put(msg, k, [code, |value|]);
    next := Put(msg, next, value);
    Regroup(bytes, [code, |value|], value);
  }

  /** build_header: the fixed part and the options every message carries. */
  method BuildHeader(msg: array<Byte>, xid: U32, msgType: Byte, renewing: bool, haveIp: bool,
                     leaseIp: Ip, mac: Mac) returns (k: nat)
    requires msg.Length == MSG_SIZE
    modifies msg
    ensures k == 263
    ensures Started(msg, k, Fixed(xid, !renewing, if haveIp then leaseIp else ZERO4, mac) + EncodeOpts(CommonOpts(msgType, mac)))
  {
    ghost var fixed := Fixed(xid, !renewing, if haveIp then leaseIp else ZERO4, mac);
    BuildFixed(msg, xid, renewing, haveIp, leaseIp, mac);
    CommonEncoded(fixed, msgType, mac);
    hide EncodeOpts, EncodeOpt, Fixed;
    k := PutOption(msg, 240, OPT_MSG_TYPE, [msgType], fixed);
    ghost var one := fixed + EncodeOpt(Opt(OPT_MSG_TYPE, [msgType]));
    k := PutOption(msg, k, OPT_CLIENT_ID, [1] + mac, one);
    ghost var two := one + EncodeOpt(Opt(OPT_CLIENT_ID, [1] + mac));
    k := PutOption(msg, k, OPT_HOSTNAME, HOSTNAME, two);
  }

  lemma CommonEncoded(fixed: Bytes, msgType: Byte, mac: Mac)
    ensures fixed + EncodeOpts(CommonOpts(msgType, mac)) ==
            fixed + EncodeOpt(Opt(OPT_MSG_TYPE, [msgType])) + EncodeOpt(Opt(OPT_CLIENT_ID, [1] + mac))
            + EncodeOpt(Opt(OPT_HOSTNAME, HOSTNAME))
  {
    hide EncodeOpt, EncodeOpts;
    var a, b, c := Opt(OPT_MSG_TYPE, [msgType]), Opt(OPT_CLIENT_ID, [1] + mac), Opt(OPT_HOSTNAME, HOSTNAME);
    EncodeOne(a);
    EncodeLast([a], b);
    EncodeLast([a, b], c);
    assert [a] + [b] == [a, b] && [a, b] + [c] == [a, b, c] == CommonOpts(msgType, mac);
    Regroup(fixed, EncodeOpt(a), EncodeOpt(b));
    Regroup(fixed, EncodeOpt(a) + EncodeOpt(b), EncodeOpt(c));
  }

  lemma EncodeOne(o: Opt)
    requires OptOk(o)
    ensures EncodeOpts([o]) == EncodeOpt(o)
  {
    assert EncodeOpts([o]) == EncodeOpt(o) + EncodeOpts([]);
  }

  /** The bytes up to ciaddr, as written over the zeroed buffer. */
  function FixedFront(xid: U32, renewing: bool, haveIp: bool, leaseIp: Ip): Bytes {
    [1, 1, 6] + Zeros(1) + BE32(xid) + Zeros(2) + (if !renewing then [0x80] else Zeros(1)) + Zeros(1)
    + (if haveIp then leaseIp else Zeros(4))
  }

  method BuildFront(msg: array<Byte>, xid: U32, renewing: bool, haveIp: bool, leaseIp: Ip)
    requires msg.Length == MSG_SIZE
    modifies msg
    ensures Started(msg, 16, FixedFront(xid, renewing, haveIp, leaseIp))
  {
    hide Zeros;
    forall j | 0 <= j < MSG_SIZE { msg[j] := 0; }
    var k := Put(msg, 0, [1, 1, 6]);
    Skip(msg, k, 4, [1, 1, 6]);
    ghost var b := [1, 1, 6] + Zeros(1);
    k := Put(msg, 4, BE32(xid));
    b := b + BE32(xid);
    Skip(msg, k, 10, b);
    b := b + Zeros(2);
    if !renewing {
      k := Put(msg, 10, [0x80]);
      b := b + [0x80];
    } else {
      Skip(msg, 10, 11, b);
      b := b + Zeros(1);
    }
    Skip(msg, 11, 12, b);
    b := b + Zeros(1);
    if haveIp {
      k := Put(msg, 12, leaseIp);
    } else {
      Skip(msg, 12, 16, b);
    }
  }

  method BuildFixed(msg: array<Byte>, xid: U32, renewing: bool, haveIp: bool, leaseIp: Ip, mac: Mac)
    requires msg.Length == MSG_SIZE
    modifies msg
    ensures Started(msg, 240, Fixed(xid, !renewing, if haveIp then leaseIp else ZERO4, mac))
  {
    hide Zeros, FixedFront, Fixed;
    BuildFront(msg, xid, renewing, haveIp, leaseIp);
    ghost var b := FixedFront(xid, renewing, haveIp, leaseIp);
    Skip(msg, 16, 28, b);
    b := b + Zeros(12);
    var k := Put(msg, 28, mac);
    b := b + mac;
    Skip(msg, 34, 236, b);
    b := b + Zeros(202);
    k := Put(msg, 236, COOKIE);
    FixedAssembled(xid, renewing, haveIp, leaseIp, mac);
  }

  lemma FixedAssembled(xid: U32, renewing: bool, haveIp: bool, leaseIp: Ip, mac: Mac)
    ensures FixedFront(xid, renewing, haveIp, leaseIp) + Zeros(12) + mac + Zeros(202) + COOKIE
         == Fixed(xid, !renewing, if haveIp then leaseIp else ZERO4, mac)
  {
    assert Zeros(1) == [0] && Zeros(2) == [0, 0] && Zeros(4) == ZERO4;
    assert [1, 1, 6] + [0] == [1, 1, 6, 0];
    assert (if !renewing then [0x80] else Zeros(1)) + Zeros(1) == [if !renewing then 0x80 else 0, 0];
  }

  /** The END option; the rest of the message is already zero. */
  method Close(msg: array<Byte>, k: nat, ghost fixed: Bytes, ghost opts: seq<Opt>)
    requires OptsOk(opts) && Started(msg, k, fixed + EncodeOpts(opts)) && k < MSG_SIZE
    modifies msg
    ensures msg[..] == Message(fixed, opts)
  {
    var next := Put(msg, k, [OPT_END]);
    assert msg[..] == msg[..next] + Zeros(MSG_SIZE - next);
  }
}
