/** RADIUS messages (section 3 of RFC 2865): attributes, hidden passwords, the
    Response-Authenticator and the Message-Authenticator (section 3.2 of RFC 3579). */
module RadiusMessage {
  import opened Bytes
  import opened RadiusCrypt

  const ACCESS_REQUEST: byte := 1
  const USER_PASSWORD: byte := 2
  const EAP_MESSAGE: byte := 79
  const MESSAGE_AUTHENTICATOR: byte := 80
  const MAX_ATTRIBUTE_SIZE: nat := 253
  const HEADER_SIZE: nat := 20

  /** The shared secret, the hash function, and the MAC under the secret. */
  datatype Keys = Keys(secret: seq<byte>, hash: Hash, mac: Hash)

  /** A value of any size, as it is handed to `add`. */
  datatype Value = Attr(kind: byte, value: seq<byte>)

  /** An attribute of a message. */
  type Attr = a: Value | |a.value| <= MAX_ATTRIBUTE_SIZE witness Attr(0, [])

  /** `tail` is what is left when the bytes do not hold another attribute. */
  datatype Message = Message(
    code: byte, identifier: byte, authenticator: seq<byte>, attrs: seq<Attr>, tail: seq<byte>)

  // ----- encoding

  function EncodeAttr(a: Attr): (s: seq<byte>)
    ensures |s| == |a.value| + 2 && s[2..] == a.value
  {
    [a.kind, |a.value| + 2] + a.value
  }

  function EncodeAttrs(attrs: seq<Attr>): seq<byte> {
    Flatten(EncodeAttr, attrs)
  }

  /** The enumerator stops here. */
  predicate Unreadable(s: seq<byte>) {
    |s| < 2 || |s| < s[1]
  }

  /** The message is well formed and n more bytes fit its length field. */
  predicate Room(m: Message, n: nat) {
    && |m.authenticator| == 16 && Unreadable(m.tail) && (n > 0 ==> m.tail == [])
    && HEADER_SIZE + |EncodeAttrs(m.attrs)| + |m.tail| + n < 0x1_0000
  }

  predicate WellFormed(m: Message) {
    Room(m, 0)
  }

  function Encode(m: Message): (s: seq<byte>)
    requires WellFormed(m)
    ensures |s| == HEADER_SIZE + |EncodeAttrs(m.attrs)| + |m.tail| && s[0] == m.code && s[1] == m.identifier
    ensures U16(s[2], s[3]) == |s| && s[4..20] == m.authenticator && s[20..] == EncodeAttrs(m.attrs) + m.tail
  {
    var body := EncodeAttrs(m.attrs) + m.tail;
    [m.code, m.identifier] + FromU16(HEADER_SIZE + |body|) + m.authenticator + body
  }

  // ----- decoding

  /** Attributes until the bytes run out or do not hold another one. */
  function DecodeAttrs(s: seq<byte>): seq<Attr>
    decreases |s|
  {
    if Unreadable(s) || s[1] < 2 then [] else [Attr(s[0], s[2..s[1]])] + DecodeAttrs(s[s[1]..])
  }

  function TailOf(s: seq<byte>): seq<byte>
    decreases |s|
  {
    if Unreadable(s) || s[1] < 2 then s else TailOf(s[s[1]..])
  }

  /** No attribute claims to be shorter than its own header. */
  predicate Walkable(s: seq<byte>)
    decreases |s|
  {
    Unreadable(s) || (s[1] >= 2 && Walkable(s[s[1]..]))
  }

  lemma {:induction false} DecodeEncoded(attrs: seq<Attr>, tail: seq<byte>)
    requires Unreadable(tail)
    ensures DecodeAttrs(EncodeAttrs(attrs) + tail) == attrs && TailOf(EncodeAttrs(attrs) + tail) == tail
    ensures Walkable(EncodeAttrs(attrs) + tail)
  {
    var s := EncodeAttrs(attrs) + tail;
    if attrs == [] {
      assert s == tail;
    } else {
      var first, rest := EncodeAttr(attrs[0]), EncodeAttrs(attrs[1..]) + tail;
      assert s == first + rest;
      OneMore(attrs[0], rest);
      DecodeEncoded(attrs[1..], tail);
    }
  }

  lemma OneMore(a: Attr, rest: seq<byte>)
    ensures var s, n := EncodeAttr(a) + rest, |a.value| + 2;
      !Unreadable(s) && s[0] == a.kind && s[1] == n && s[2..n] == a.value && s[n..] == rest
  {
    var s, n := EncodeAttr(a) + rest, |a.value| + 2;
    assert s[2..n] == EncodeAttr(a)[2..];
  }

  lemma {:induction false} EncodeDecoded(s: seq<byte>)
    requires Walkable(s)
    ensures EncodeAttrs(DecodeAttrs(s)) + TailOf(s) == s && Unreadable(TailOf(s))
    decreases |s|
  {
    if !Unreadable(s) {
      var n: nat := s[1];
      EncodeDecoded(s[n..]);
      FirstAttr(s, DecodeAttrs(s[n..]), TailOf(s));
    }
  }

  lemma FirstAttr(s: seq<byte>, rest: seq<Attr>, tail: seq<byte>)
    requires !Unreadable(s) && s[1] >= 2 && EncodeAttrs(rest) + tail == s[s[1]..]
    ensures EncodeAttrs([Attr(s[0], s[2..s[1]])] + rest) + tail == s
  {
    var n: nat := s[1];
    var a: Attr := Attr(s[0], s[2..n]);
    FlattenAppend(EncodeAttr, [a], rest);
    FlattenOne(EncodeAttr, a);
    assert EncodeAttr(a) == s[..n];
    assert s == s[..n] + s[n..];
  }

  /** Every byte string with the right length field and walkable attributes is a message. */
  function Decode(s: seq<byte>): (m: Message)
    requires |s| >= HEADER_SIZE && U16(s[2], s[3]) == |s| && Walkable(s[20..])
    ensures WellFormed(m) && Encode(m) == s
  {
    var m := Message(s[0], s[1], s[4..20], DecodeAttrs(s[20..]), TailOf(s[20..]));
    EncodeDecoded(s[20..]);
    SameBytes(s, m);
    m
  }

  lemma SameBytes(s: seq<byte>, m: Message)
    requires |s| >= HEADER_SIZE && U16(s[2], s[3]) == |s| && s[20..] == EncodeAttrs(m.attrs) + m.tail
    requires Unreadable(m.tail)
    requires m.code == s[0] && m.identifier == s[1] && m.authenticator == s[4..20]
    ensures WellFormed(m) && Encode(m) == s
  {
    assert FromU16(|s|) == s[2..4];
    assert s == [s[0], s[1]] + s[2..4] + s[4..20] + s[20..];
  }

  // ----- what signing and verifying do to a message

  function Default(reqAuth: Option<seq<byte>>): seq<byte> {
    match reqAuth case Some(a) => a case None => Zeros(16)
  }

  function Pad16(s: seq<byte>): (p: seq<byte>)
    ensures |p| % 16 == 0 && (p == [] <==> s == [])
  {
    s + Zeros(PadLen(|s|, 16))
  }

  function Truncated(s: seq<byte>): (t: seq<byte>)
    ensures |t| <= MAX_ATTRIBUTE_SIZE
  {
    if |s| < MAX_ATTRIBUTE_SIZE then s else s[..MAX_ATTRIBUTE_SIZE]
  }

  function Added(m: Message, kind: byte, data: seq<byte>): Message {
    m.(attrs := m.attrs + [Attr(kind, Truncated(data))])
  }

  lemma AddedForm(m: Message, kind: byte, data: seq<byte>, more: nat)
    requires Room(m, 2 + |Truncated(data)| + more)
    ensures Room(Added(m, kind, data), more)
    ensures EncodeAttrs(Added(m, kind, data).attrs)
      == EncodeAttrs(m.attrs) + [kind, |Truncated(data)| + 2] + Truncated(data)
  {
    var a: Attr := Attr(kind, Truncated(data));
    FlattenAppend(EncodeAttr, m.attrs, [a]);
    FlattenOne(EncodeAttr, a);
  }

  function HidePassword(m: Message, password: seq<byte>, k: Keys): Message {
    if password == [] then m
    else Added(m, USER_PASSWORD, EncryptChain(k.hash, k.secret, Seed(k.hash, k.secret, m.authenticator, []), password))
  }

  /** With a random Request-Authenticator, that of a request, or zeros, and the
      password hidden under it. */
  function Prepared(m: Message, start: seq<byte>, password: seq<byte>, k: Keys): Message {
    HidePassword(m.(authenticator := start), password, k)
  }

  function PasswordSize(password: seq<byte>): nat {
    if password == [] then 0 else 2 + |Truncated(password)|
  }

  /** Password and Message-Authenticator still fit. */
  predicate Fits(m: Message, start: seq<byte>, password: seq<byte>, msgAuth: bool) {
    |start| == 16 && Room(m, PasswordSize(password) + if msgAuth then 18 else 0)
  }

  lemma PreparedFits(m: Message, start: seq<byte>, password: seq<byte>, k: Keys, msgAuth: bool)
    requires Fits(m, start, password, msgAuth)
    ensures Room(Prepared(m, start, password, k), if msgAuth then 18 else 0)
  {
    if password != [] {
      var n := m.(authenticator := start);
      var hidden := EncryptChain(k.hash, k.secret, Seed(k.hash, k.secret, start, []), password);
      AddedForm(n, USER_PASSWORD, hidden, if msgAuth then 18 else 0);
    }
  }

  function WithValue(m: Message, i: nat, value: seq<byte>): Message
    requires i < |m.attrs| && |value| <= MAX_ATTRIBUTE_SIZE
  {
    m.(attrs := m.attrs[i := m.attrs[i].(value := value)])
  }

  lemma SameRoom(m: Message, i: nat, value: seq<byte>)
    requires WellFormed(m) && i < |m.attrs| && |value| == |m.attrs[i].value|
    ensures WellFormed(WithValue(m, i, value)) && |EncodeAttrs(WithValue(m, i, value).attrs)| == |EncodeAttrs(m.attrs)|
  {
    FlattenSize(EncodeAttr, m.attrs, WithValue(m, i, value).attrs);
  }

  /** A Message-Authenticator is computed over the message with zeros in its place. */
  function WithMac(m: Message, mac: Hash): (q: Message)
    requires Room(m, 18)
    ensures WellFormed(q) && q.code == m.code && q.authenticator == m.authenticator
  {
    var blank := Added(m, MESSAGE_AUTHENTICATOR, Zeros(16));
    AddedForm(m, MESSAGE_AUTHENTICATOR, Zeros(16), 0);
    SameRoom(blank, |m.attrs|, mac(Encode(blank)));
    WithValue(blank, |m.attrs|, mac(Encode(blank)))
  }

  function WithResponse(m: Message, k: Keys): Message
    requires WellFormed(m)
  {
    m.(authenticator := k.hash(Encode(m) + k.secret))
  }

  function Authenticated(p: Message, k: Keys, msgAuth: bool): (q: Message)
    requires Room(p, if msgAuth then 18 else 0)
    ensures WellFormed(q) && q.code == p.code && q.authenticator == p.authenticator
  {
    if msgAuth then WithMac(p, k.mac) else p
  }

  function Finished(q: Message, withRandom: bool, k: Keys): (s: Message)
    requires WellFormed(q)
    ensures WellFormed(s) && s == q.(authenticator := s.authenticator)
  {
    if withRandom then q else WithResponse(q, k)
  }

  function Start(reqAuth: Option<seq<byte>>, random: Option<seq<byte>>): seq<byte> {
    match random case Some(r) => r case None => Default(reqAuth)
  }

  /** `random` is the output of the generator, if one is given. */
  function Signed(m: Message, reqAuth: Option<seq<byte>>, random: Option<seq<byte>>, password: seq<byte>,
                  k: Keys, msgAuth: bool): (s: Message)
    requires Fits(m, Start(reqAuth, random), password, msgAuth)
    ensures WellFormed(s)
  {
    PreparedFits(m, Start(reqAuth, random), password, k, msgAuth);
    Finished(Authenticated(Prepared(m, Start(reqAuth, random), password, k), k, msgAuth), random.Some?, k)
  }

  function FirstAuth(attrs: seq<Attr>): (i: Option<nat>)
    ensures i.Some? ==> i.value < |attrs| && attrs[i.value].kind == MESSAGE_AUTHENTICATOR
    ensures forall k | 0 <= k < (if i.Some? then i.value else |attrs|) :: attrs[k].kind != MESSAGE_AUTHENTICATOR
  {
    if attrs == [] then None
    else if attrs[0].kind == MESSAGE_AUTHENTICATOR then Some(0)
    else match FirstAuth(attrs[1..])
      case None => None
      case Some(i) => Some(i + 1)
  }

  predicate HasEap(attrs: seq<Attr>) {
    exists i :: 0 <= i < |attrs| && attrs[i].kind == EAP_MESSAGE
  }

  /** The message as it was when its authenticators were computed. */
  function Restored(m: Message, reqAuth: Option<seq<byte>>): (r: Message)
    requires WellFormed(m) && |Default(reqAuth)| == 16
    ensures WellFormed(r) && r.attrs == m.attrs
  {
    if m.code == ACCESS_REQUEST then m else m.(authenticator := Default(reqAuth))
  }

  function Blanked(r: Message, i: nat): (b: Message)
    requires WellFormed(r) && i < |r.attrs| && |r.attrs[i].value| == 16
    ensures WellFormed(b) && b.authenticator == r.authenticator
  {
    SameRoom(r, i, Zeros(16));
    WithValue(r, i, Zeros(16))
  }

  predicate ResponseOk(m: Message, r: Message, k: Keys)
    requires WellFormed(r)
  {
    m.code == ACCESS_REQUEST || k.hash(Encode(r) + k.secret) == m.authenticator
  }

  predicate MessageAuthOk(r: Message, mac: Hash)
    requires WellFormed(r)
  {
    match FirstAuth(r.attrs)
    case None => !HasEap(r.attrs)
    case Some(i) => |r.attrs[i].value| == 16 && mac(Encode(Blanked(r, i))) == r.attrs[i].value
  }

  predicate Verified(m: Message, reqAuth: Option<seq<byte>>, k: Keys)
    requires WellFormed(m) && |Default(reqAuth)| == 16
  {
    ResponseOk(m, Restored(m, reqAuth), k) && MessageAuthOk(Restored(m, reqAuth), k.mac)
  }

  // ----- verifying what was signed

  lemma {:induction false} FirstAuthAppend(attrs: seq<Attr>, a: Attr)
    requires FirstAuth(attrs) == None
    ensures FirstAuth(attrs + [a]) == if a.kind == MESSAGE_AUTHENTICATOR then Some(|attrs|) else None
  {
    if attrs == [] {
      assert attrs + [a] == [a];
    } else {
      assert (attrs + [a])[1..] == attrs[1..] + [a];
      FirstAuthAppend(attrs[1..], a);
    }
  }

  /** Where the Message-Authenticator is, and that blanking it gives what was signed. */
  lemma MacPlace(p: Message, mac: Hash)
    requires Room(p, 18) && FirstAuth(p.attrs) == None
    ensures var q, blank := WithMac(p, mac), Added(p, MESSAGE_AUTHENTICATOR, Zeros(16));
      && FirstAuth(q.attrs) == Some(|p.attrs|) && |q.attrs| == |p.attrs| + 1
      && WellFormed(blank) && q.attrs[|p.attrs|].value == mac(Encode(blank))
      && Blanked(q, |p.attrs|) == blank
  {
    var n, blank, q := |p.attrs|, Added(p, MESSAGE_AUTHENTICATOR, Zeros(16)), WithMac(p, mac);
    AddedForm(p, MESSAGE_AUTHENTICATOR, Zeros(16), 0);
    assert q.attrs == p.attrs + [Attr(MESSAGE_AUTHENTICATOR, mac(Encode(blank)))];
    FirstAuthAppend(p.attrs, q.attrs[n]);
    assert Blanked(q, n).attrs == blank.attrs;
  }

  lemma PreparedAttrs(m: Message, start: seq<byte>, password: seq<byte>, k: Keys)
    requires FirstAuth(m.attrs) == None
    ensures var p := Prepared(m, start, password, k);
      && FirstAuth(p.attrs) == None && (HasEap(p.attrs) ==> HasEap(m.attrs))
      && p.code == m.code && p.authenticator == start
  {
    var p := Prepared(m, start, password, k);
    if password != [] {
      FirstAuthAppend(m.attrs, p.attrs[|m.attrs|]);
      if i :| 0 <= i < |p.attrs| && p.attrs[i].kind == EAP_MESSAGE {
        assert m.attrs[i].kind == EAP_MESSAGE;
      }
    }
  }

  lemma AuthenticatedOk(p: Message, k: Keys, msgAuth: bool)
    requires Room(p, if msgAuth then 18 else 0)
    requires FirstAuth(p.attrs) == None && (HasEap(p.attrs) ==> msgAuth)
    ensures MessageAuthOk(Authenticated(p, k, msgAuth), k.mac)
  {
    if msgAuth {
      MacPlace(p, k.mac);
    }
  }

  /** What comes back when the request authenticator is put in again. */
  lemma ResponseRestored(q: Message, reqAuth: Option<seq<byte>>, random: Option<seq<byte>>, k: Keys)
    requires WellFormed(q) && |Default(reqAuth)| == 16 && q.authenticator == Start(reqAuth, random)
    requires random.Some? <==> q.code == ACCESS_REQUEST
    ensures var s := Finished(q, random.Some?, k); Restored(s, reqAuth) == q && ResponseOk(s, q, k)
  {
  }

  /** The authenticator fits the code: a random one for requests only. */
  predicate Usual(code: byte, random: Option<seq<byte>>) {
    random.Some? <==> code == ACCESS_REQUEST
  }

  /** No earlier Message-Authenticator, and one for EAP. */
  predicate Signable(m: Message, msgAuth: bool) {
    FirstAuth(m.attrs) == None && (HasEap(m.attrs) ==> msgAuth)
  }

  lemma AcceptsUsual(p: Message, reqAuth: Option<seq<byte>>, random: Option<seq<byte>>, k: Keys, msgAuth: bool)
    requires Room(p, if msgAuth then 18 else 0) && Signable(p, msgAuth)
    requires |Default(reqAuth)| == 16 && p.authenticator == Start(reqAuth, random) && Usual(p.code, random)
    ensures Verified(Finished(Authenticated(p, k, msgAuth), random.Some?, k), reqAuth, k)
  {
    AuthenticatedOk(p, k, msgAuth);
    ResponseRestored(Authenticated(p, k, msgAuth), reqAuth, random, k);
  }

  /** A request needs no Response-Authenticator, whatever its authenticator is. */
  lemma AcceptsRequest(p: Message, reqAuth: Option<seq<byte>>, random: Option<seq<byte>>, k: Keys)
    requires WellFormed(p) && Signable(p, false) && |Default(reqAuth)| == 16 && p.code == ACCESS_REQUEST
    ensures Verified(Finished(Authenticated(p, k, false), random.Some?, k), reqAuth, k)
  {
  }

  /** Without a MAC, or with the authenticator that its kind of message has, a signed
      message verifies with the same keys and request authenticator. */
  lemma VerifyAfterSign(m: Message, reqAuth: Option<seq<byte>>, random: Option<seq<byte>>, password: seq<byte>,
                        k: Keys, msgAuth: bool)
    requires |Default(reqAuth)| == 16 && Fits(m, Start(reqAuth, random), password, msgAuth) && Signable(m, msgAuth)
    requires Usual(m.code, random) || (m.code == ACCESS_REQUEST && !msgAuth)
    ensures Verified(Signed(m, reqAuth, random, password, k, msgAuth), reqAuth, k)
  {
    var start := Start(reqAuth, random);
    PreparedAttrs(m, start, password, k);
    PreparedFits(m, start, password, k, msgAuth);
    if Usual(m.code, random) {
      AcceptsUsual(Prepared(m, start, password, k), reqAuth, random, k, msgAuth);
    } else {
      AcceptsRequest(Prepared(m, start, password, k), reqAuth, random, k);
    }
  }

  // ----- and when it does not

  /** Sixteen bytes unlike the given ones. */
  function Other(s: seq<byte>): (r: seq<byte>)
    ensures |r| == 16 && r != s
  {
    if s == Zeros(16) then
      assert ([1] + Zeros(15))[0] != s[0];
      [1] + Zeros(15)
    else Zeros(16)
  }

  lemma ConstantGives16(c: seq<byte>)
    requires |c| == 16
    ensures Gives16((s: seq<byte>) => c)
  {
  }

  /** A MAC that shows the authenticator. */
  function ShowAuthenticator(s: seq<byte>): seq<byte> {
    if |s| >= 20 then s[4..20] else Zeros(16)
  }

  /** Keys under which no response has the given authenticator. */
  function BadKeys(secret: seq<byte>, c: seq<byte>): (k: Keys)
    ensures k.secret == secret && (forall s :: k.hash(s) == Other(c)) && (forall s :: k.mac(s) == ShowAuthenticator(s))
  {
    var other := Other(c);
    ConstantGives16(other);
    assert Gives16(ShowAuthenticator);
    Keys(secret, (s: seq<byte>) => other, ShowAuthenticator)
  }

  /** Signed with a generator but no request: the random number is no response. */
  lemma RandomIsNoResponse(q: Message, reqAuth: Option<seq<byte>>, k: Keys)
    requires WellFormed(q) && |Default(reqAuth)| == 16 && q.code != ACCESS_REQUEST
    requires forall s :: k.hash(s) == Other(q.authenticator)
    ensures !Verified(Finished(q, true, k), reqAuth, k)
  {
  }

  /** A request signed without a generator: the MAC covers another authenticator. */
  lemma MacCoversOther(p: Message, reqAuth: Option<seq<byte>>, k: Keys)
    requires Room(p, 18) && FirstAuth(p.attrs) == None && |Default(reqAuth)| == 16 && p.code == ACCESS_REQUEST
    requires forall s :: k.hash(s) == Other(p.authenticator)
    requires forall s :: k.mac(s) == ShowAuthenticator(s)
    ensures !Verified(Finished(Authenticated(p, k, true), false, k), reqAuth, k)
  {
    MacPlace(p, k.mac);
    var n, q := |p.attrs|, Authenticated(p, k, true);
    var s := Finished(q, false, k);
    assert s.attrs == q.attrs && s.authenticator == Other(p.authenticator);
    assert k.mac(Encode(Blanked(s, n))) == s.authenticator;
    assert s.attrs[n].value == p.authenticator;
  }

  lemma Refused(m: Message, reqAuth: Option<seq<byte>>, random: Option<seq<byte>>, password: seq<byte>,
                secret: seq<byte>, msgAuth: bool)
    requires |Default(reqAuth)| == 16 && Fits(m, Start(reqAuth, random), password, msgAuth) && Signable(m, msgAuth)
    requires !Usual(m.code, random) && (m.code == ACCESS_REQUEST ==> msgAuth)
    ensures !Verified(Signed(m, reqAuth, random, password, BadKeys(secret, Start(reqAuth, random)), msgAuth), reqAuth,
                      BadKeys(secret, Start(reqAuth, random)))
  {
    var start := Start(reqAuth, random);
    var k := BadKeys(secret, start);
    PreparedAttrs(m, start, password, k);
    PreparedFits(m, start, password, k, msgAuth);
    var p := Prepared(m, start, password, k);
    if m.code == ACCESS_REQUEST {
      MacCoversOther(p, reqAuth, k);
    } else {
      RandomIsNoResponse(Authenticated(p, k, msgAuth), reqAuth, k);
    }
  }

  /** Signed messages verify under all keys exactly if the authenticator is the usual one
      for the code, or a request has no MAC. */
  lemma SignVerifyTheorem(m: Message, reqAuth: Option<seq<byte>>, random: Option<seq<byte>>, password: seq<byte>,
                          secret: seq<byte>, msgAuth: bool)
    requires |Default(reqAuth)| == 16 && Fits(m, Start(reqAuth, random), password, msgAuth) && Signable(m, msgAuth)
    ensures (forall k: Keys | k.secret == secret ::
               Verified(Signed(m, reqAuth, random, password, k, msgAuth), reqAuth, k))
      <==> Usual(m.code, random) || (m.code == ACCESS_REQUEST && !msgAuth)
  {
    if Usual(m.code, random) || (m.code == ACCESS_REQUEST && !msgAuth) {
      forall k: Keys | k.secret == secret
        ensures Verified(Signed(m, reqAuth, random, password, k, msgAuth), reqAuth, k)
      {
        VerifyAfterSign(m, reqAuth, random, password, k, msgAuth);
      }
    } else {
      Refused(m, reqAuth, random, password, secret, msgAuth);
    }
  }

  /** The hidden password comes back exactly when it still fits one attribute. */
  lemma PasswordRecovered(m: Message, start: seq<byte>, password: seq<byte>, k: Keys)
    requires password != [] && |password| % 16 == 0
    ensures var p := Prepared(m, start, password, k);
      && |p.attrs| == |m.attrs| + 1 && p.attrs[|m.attrs|].kind == USER_PASSWORD
      && (|password| <= 240 <==>
          && |p.attrs[|m.attrs|].value| % 16 == 0
          && DecryptChain(k.hash, k.secret, Seed(k.hash, k.secret, start, []), p.attrs[|m.attrs|].value) == password)
  {
    DecryptAfterEncrypt(k.hash, k.secret, Seed(k.hash, k.secret, start, []), password);
  }

  /** A password of 256 bytes is cut within a block, which `crypt` refuses. */
  lemma LongPasswordIsLost(m: Message, start: seq<byte>, password: seq<byte>, k: Keys)
    requires |password| == 256
    ensures |Prepared(m, start, password, k).attrs[|m.attrs|].value| == 253 && 253 % 16 != 0
  {
  }

  // ----- any sequence of additions

  /** The attributes of a message and the password kept aside for signing. */
  datatype Pending = Pending(attrs: seq<Attr>, password: seq<byte>)

  predicate KeepsAside(p: Pending, kind: byte) {
    kind == USER_PASSWORD && p.password == []
  }

  function AddOne(p: Pending, a: Value): Pending {
    if KeepsAside(p, a.kind) then p.(password := Pad16(a.value)) else p.(attrs := p.attrs + Cut([a]))
  }

  function AddAll(p: Pending, list: seq<Value>): Pending
    decreases |list|
  {
    if list == [] then p else AddAll(AddOne(p, list[0]), list[1..])
  }

  function Cut(list: seq<Value>): (r: seq<Attr>)
    ensures |r| == |list|
  {
    if list == [] then [] else [Attr(list[0].kind, Truncated(list[0].value))] + Cut(list[1..])
  }

  /** All but the passwords up to the first non-empty one. */
  function Visible(list: seq<Value>): seq<Value> {
    if list == [] then []
    else if list[0].kind != USER_PASSWORD then [list[0]] + Visible(list[1..])
    else if list[0].value == [] then Visible(list[1..])
    else list[1..]
  }

  /** The first non-empty password. */
  function KeptAside(list: seq<Value>): seq<byte> {
    if list == [] then []
    else if list[0].kind == USER_PASSWORD && list[0].value != [] then Pad16(list[0].value)
    else KeptAside(list[1..])
  }

  lemma CutCons(a: Value, rest: seq<Value>)
    ensures Cut([a] + rest) == Cut([a]) + Cut(rest)
  {
    assert ([a] + rest)[1..] == rest;
    assert Cut([a]) == [Attr(a.kind, Truncated(a.value))] + Cut([]);
  }

  lemma {:induction false} AddWithPassword(p: Pending, list: seq<Value>)
    requires p.password != []
    ensures AddAll(p, list) == Pending(p.attrs + Cut(list), p.password)
    decreases |list|
  {
    if list != [] {
      AddWithPassword(AddOne(p, list[0]), list[1..]);
      CutCons(list[0], list[1..]);
      assert list == [list[0]] + list[1..];
      assert p.attrs + Cut([list[0]]) + Cut(list[1..]) == p.attrs + Cut(list);
    }
  }

  lemma {:induction false} AddWithoutPassword(p: Pending, list: seq<Value>)
    requires p.password == []
    ensures AddAll(p, list) == Pending(p.attrs + Cut(Visible(list)), KeptAside(list))
    decreases |list|
  {
    if list != [] {
      var p', rest := AddOne(p, list[0]), list[1..];
      if list[0].kind == USER_PASSWORD && list[0].value != [] {
        AddWithPassword(p', rest);
      } else {
        AddWithoutPassword(p', rest);
        if list[0].kind != USER_PASSWORD {
          CutCons(list[0], Visible(rest));
          assert p'.attrs + Cut(Visible(rest)) == p.attrs + Cut(Visible(list));
        }
      }
    }
  }

  lemma {:induction false} AllVisible(list: seq<Value>)
    requires forall i | 0 <= i < |list| :: list[i].kind != USER_PASSWORD
    ensures Visible(list) == list && KeptAside(list) == []
  {
    if list != [] {
      AllVisible(list[1..]);
    }
  }

  /** Enumerating the bytes of a message gives back what was added to it, cut to 253
      bytes, save for the passwords kept aside. */
  lemma EnumerateAfterAdds(m: Message, list: seq<Value>)
    requires m.attrs == AddAll(Pending([], []), list).attrs && WellFormed(m)
    ensures DecodeAttrs(Encode(m)[20..]) == Cut(Visible(list))
    ensures AddAll(Pending([], []), list).password == KeptAside(list)
  {
    AddWithoutPassword(Pending([], []), list);
    DecodeEncoded(m.attrs, m.tail);
  }

  /** Without passwords that is everything. */
  lemma EnumerateWithoutPasswords(m: Message, list: seq<Value>)
    requires m.attrs == AddAll(Pending([], []), list).attrs && WellFormed(m)
    requires forall i | 0 <= i < |list| :: list[i].kind != USER_PASSWORD
    ensures DecodeAttrs(Encode(m)[20..]) == Cut(list) && AddAll(Pending([], []), list).password == []
  {
    EnumerateAfterAdds(m, list);
    AllVisible(list);
  }

  /** An empty password leaves no trace. */
  lemma EmptyPasswordIsLost(p: Pending)
    requires p.password == []
    ensures AddOne(p, Attr(USER_PASSWORD, [])) == p
  {
    assert Pad16([]) == [];
  }

  // ----- patching bytes in place

  lemma PatchAuthenticator(m: Message, a: seq<byte>)
    requires WellFormed(m) && |a| == 16
    ensures Patched(Encode(m), 4, a) == Encode(m.(authenticator := a))
  {
  }

  /** Where the k-th attribute starts. */
  function Offset(m: Message, k: nat): nat
    requires k <= |m.attrs|
  {
    HEADER_SIZE + |EncodeAttrs(m.attrs[..k])|
  }

  /** The bytes around the i-th attribute. */
  lemma BytesAround(m: Message, i: nat)
    requires WellFormed(m) && i < |m.attrs|
    ensures Encode(m)[20..]
      == EncodeAttrs(m.attrs[..i]) + EncodeAttr(m.attrs[i]) + (EncodeAttrs(m.attrs[i + 1..]) + m.tail)
    ensures Offset(m, i + 1) == Offset(m, i) + |m.attrs[i].value| + 2 <= |Encode(m)|
  {
    FlattenAround(EncodeAttr, m.attrs, i);
    FlattenUpTo(EncodeAttr, m.attrs, i);
  }

  lemma PatchValue(m: Message, i: nat, v: seq<byte>)
    requires WellFormed(m) && i < |m.attrs| && |v| == |m.attrs[i].value|
    ensures WellFormed(WithValue(m, i, v)) && Offset(m, i) + 2 + |v| <= |Encode(m)|
    ensures Patched(Encode(m), Offset(m, i) + 2, v) == Encode(WithValue(m, i, v))
  {
    var w := WithValue(m, i, v);
    var before, head := EncodeAttrs(m.attrs[..i]), [m.attrs[i].kind, |v| + 2];
    var after := EncodeAttrs(m.attrs[i + 1..]) + m.tail;
    SameRoom(m, i, v);
    SameFront(m, w);
    BytesAround(m, i);
    BytesAroundNew(m, i, v);
    PatchMiddle(Encode(m), Encode(w), before, head, m.attrs[i].value, v, after);
  }

  lemma BytesAroundNew(m: Message, i: nat, v: seq<byte>)
    requires WellFormed(m) && i < |m.attrs| && |v| == |m.attrs[i].value| && WellFormed(WithValue(m, i, v))
    ensures Encode(WithValue(m, i, v))[20..] == EncodeAttrs(m.attrs[..i]) + ([m.attrs[i].kind, |v| + 2] + v)
      + (EncodeAttrs(m.attrs[i + 1..]) + m.tail)
  {
    var w := WithValue(m, i, v);
    BytesAround(w, i);
    assert w.attrs[..i] == m.attrs[..i] && w.attrs[i + 1..] == m.attrs[i + 1..];
  }

  lemma SameFront(m: Message, w: Message)
    requires WellFormed(m) && WellFormed(w) && w == m.(attrs := w.attrs)
    requires |EncodeAttrs(m.attrs)| == |EncodeAttrs(w.attrs)|
    ensures Encode(m)[..20] == Encode(w)[..20]
  {
  }

  lemma PatchMiddle(s: seq<byte>, t: seq<byte>, before: seq<byte>, head: seq<byte>,
                    u: seq<byte>, v: seq<byte>, after: seq<byte>)
    requires |s| >= 20 && |t| >= 20 && s[..20] == t[..20] && |u| == |v|
    requires s[20..] == before + (head + u) + after && t[20..] == before + (head + v) + after
    ensures Patched(s, 20 + |before| + |head|, v) == t
  {
    var front := s[..20] + before + head;
    Regroup(s, before, head, u, after);
    Regroup(t, before, head, v, after);
    Replace(front, u, v, after);
  }

  lemma Regroup(s: seq<byte>, before: seq<byte>, head: seq<byte>, u: seq<byte>, after: seq<byte>)
    requires |s| >= 20 && s[20..] == before + (head + u) + after
    ensures s == s[..20] + before + head + u + after
  {
    assert s == s[..20] + s[20..];
  }

  lemma Replace(front: seq<byte>, u: seq<byte>, v: seq<byte>, after: seq<byte>)
    requires |u| == |v|
    ensures Patched(front + u + after, |front|, v) == front + v + after
  {
  }

  lemma PatchAdded(m: Message, kind: byte, data: seq<byte>)
    requires Room(m, 2 + |Truncated(data)|)
    ensures WellFormed(Added(m, kind, data))
    ensures var d := Truncated(data);
      Patched(Encode(m) + [kind, |d| + 2] + d, 2, FromU16(|Encode(m)| + 2 + |d|)) == Encode(Added(m, kind, data))
  {
    AddedForm(m, kind, data, 0);
  }

  lemma NextAttr(m: Message, k: nat)
    requires WellFormed(m) && k < |m.attrs|
    ensures var s, at, n := Encode(m), Offset(m, k), |m.attrs[k].value|;
      && at + n + 2 == Offset(m, k + 1) <= |s| && s[at] == m.attrs[k].kind && s[at + 1] == n + 2
      && s[at + 2..at + n + 2] == m.attrs[k].value
  {
    BytesAround(m, k);
    Middle(Encode(m), EncodeAttrs(m.attrs[..k]), EncodeAttr(m.attrs[k]), EncodeAttrs(m.attrs[k + 1..]) + m.tail);
  }

  lemma Middle(s: seq<byte>, before: seq<byte>, a: seq<byte>, after: seq<byte>)
    requires |s| >= 20 && s[20..] == before + a + after && |a| >= 2
    ensures var at := 20 + |before|;
      at + |a| <= |s| && s[at] == a[0] && s[at + 1] == a[1] && s[at + 2..at + |a|] == a[2..]
  {
    var at := |before|;
    assert s[20..][at..at + |a|] == a;
  }

  lemma NoMoreAttrs(m: Message)
    requires WellFormed(m)
    ensures Offset(m, |m.attrs|) + |m.tail| == |Encode(m)| && Encode(m)[Offset(m, |m.attrs|)..] == m.tail
    ensures |Encode(m)| < 22 ==> m.attrs == []
  {
    assert m.attrs[..|m.attrs|] == m.attrs;
    assert m.attrs != [] ==> |EncodeAttrs(m.attrs)| >= |EncodeAttr(m.attrs[0])|;
  }

  // ----- the message object

  /** The first Message-Authenticator, if there is one, is right. */
  predicate MacOk(r: Message, mac: Hash)
    requires WellFormed(r)
  {
    FirstAuth(r.attrs) == None || MessageAuthOk(r, mac)
  }

  function MacLeft(r: Message): Message
    requires WellFormed(r)
  {
    match FirstAuth(r.attrs)
    case None => r
    case Some(i) => if |r.attrs[i].value| == 16 then Blanked(r, i) else r
  }

  /** What is left in the buffer: a failed check leaves its changes behind. */
  function LeftBehind(m: Message, reqAuth: Option<seq<byte>>, k: Keys): Message
    requires WellFormed(m) && |Default(reqAuth)| == 16
  {
    var r := Restored(m, reqAuth);
    if !ResponseOk(m, r, k) then r
    else if MacOk(r, k.mac) then m
    else MacLeft(r)
  }

  /** The buffer is as it was exactly if both checks of authenticators pass, or what they
      write over it was there before. */
  lemma LeftUnchanged(m: Message, reqAuth: Option<seq<byte>>, k: Keys)
    requires WellFormed(m) && |Default(reqAuth)| == 16
    ensures var r, i := Restored(m, reqAuth), FirstAuth(m.attrs);
      LeftBehind(m, reqAuth, k) == m <==>
        || (ResponseOk(m, r, k) && MacOk(r, k.mac))
        || (r == m && (!ResponseOk(m, r, k) || i == None || |m.attrs[i.value].value| != 16
                       || m.attrs[i.value].value == Zeros(16)))
  {
    var r, i := Restored(m, reqAuth), FirstAuth(m.attrs);
    if i.Some? && |m.attrs[i.value].value| == 16 {
      var b := Blanked(r, i.value);
      assert b.attrs[i.value].value == Zeros(16);
      if m.attrs[i.value].value == Zeros(16) {
        assert b.attrs == r.attrs;
      }
    }
  }

  /** A response under the wrong keys: the receiver is left with the request's
      authenticator in it. */
  lemma WrongResponseIsChanged(m: Message, reqAuth: Option<seq<byte>>, secret: seq<byte>)
    requires WellFormed(m) && |Default(reqAuth)| == 16
    requires m.code != ACCESS_REQUEST && m.authenticator != Default(reqAuth)
    ensures var k := BadKeys(secret, m.authenticator);
      !Verified(m, reqAuth, k) && LeftBehind(m, reqAuth, k) != m
  {
  }

  // ----- in terms of bytes: code 1 is Access-Request, attribute 2 is User-Password, 79 is
  // EAP-Message, and 80 is Message-Authenticator

  /** Type, length and value; at most 253 bytes of what is added; passwords end in the
      zeros that fill a block; without a request its authenticator is zeros. */
  lemma AttributeBytes(a: Attr, data: seq<byte>)
    ensures EncodeAttr(a)[0] == a.kind && EncodeAttr(a)[1] == |EncodeAttr(a)| && EncodeAttr(a)[2..] == a.value
    ensures Truncated(data) <= data && |Truncated(data)| == if |data| < 253 then |data| else 253
    ensures data <= Pad16(data) && |Pad16(data)| < |data| + 16
    ensures Default(None) == Zeros(16) && Default(Some(data)) == data
    ensures forall i | |data| <= i < |Pad16(data)| :: Pad16(data)[i] == 0
  {
  }

  predicate AnyOf(attrs: seq<Attr>, kind: byte) {
    exists i :: 0 <= i < |attrs| && attrs[i].kind == kind
  }

  predicate IsFirst(attrs: seq<Attr>, kind: byte, i: nat) {
    i < |attrs| && attrs[i].kind == kind && forall j | 0 <= j < i :: attrs[j].kind != kind
  }

  /** The hash over the bytes with the authenticator of the request in them. */
  predicate ResponseRight(s: seq<byte>, a: seq<byte>, k: Keys)
    requires |s| >= 20
  {
    s[0] == 1 || s[4..20] == k.hash(s[..4] + a + s[20..] + k.secret)
  }

  /** The bytes that a Message-Authenticator covers: with the authenticator of the request
      in a response, and sixteen zeros in its own place. */
  function Covered(s: seq<byte>, a: seq<byte>, at: nat): seq<byte>
    requires |s| >= 20 && |a| == 16 && at + 16 <= |s|
  {
    Patched(if s[0] == 1 then s else s[..4] + a + s[20..], at, Zeros(16))
  }

  ghost predicate MacRight(m: Message, a: seq<byte>, mac: Hash, i: nat)
    requires WellFormed(m) && |a| == 16 && i < |m.attrs|
  {
    && |m.attrs[i].value| == 16 && Offset(m, i) + 18 <= |Encode(m)|
    && m.attrs[i].value == mac(Covered(Encode(m), a, Offset(m, i) + 2))
  }

  lemma ResponseMeans(m: Message, reqAuth: Option<seq<byte>>, k: Keys)
    requires WellFormed(m) && |Default(reqAuth)| == 16
    ensures ResponseOk(m, Restored(m, reqAuth), k) <==> ResponseRight(Encode(m), Default(reqAuth), k)
    ensures Encode(Restored(m, reqAuth))
      == var s := Encode(m); if s[0] == 1 then s else s[..4] + Default(reqAuth) + s[20..]
  {
    PatchAuthenticator(m, Default(reqAuth));
    var s := Encode(m);
    assert s == s[..4] + s[4..20] + s[20..];
  }

  lemma MacMeans(m: Message, reqAuth: Option<seq<byte>>, mac: Hash, i: nat)
    requires WellFormed(m) && |Default(reqAuth)| == 16 && i < |m.attrs|
    ensures |m.attrs[i].value| == 16 ==>
      (mac(Encode(Blanked(Restored(m, reqAuth), i))) == m.attrs[i].value <==> MacRight(m, Default(reqAuth), mac, i))
  {
    if |m.attrs[i].value| == 16 {
      var r := Restored(m, reqAuth);
      ResponseMeans(m, reqAuth, Keys([], mac, mac));
      PatchValue(r, i, Zeros(16));
      assert Offset(r, i) == Offset(m, i);
    }
  }

  /** Exactly these messages verify, whoever made them: the response is right, and either
      there is neither EAP nor a Message-Authenticator, or the first of these is right. */
  lemma VerifiedMeans(m: Message, reqAuth: Option<seq<byte>>, k: Keys)
    requires WellFormed(m) && |Default(reqAuth)| == 16
    ensures Verified(m, reqAuth, k) <==>
      && ResponseRight(Encode(m), Default(reqAuth), k)
      && ((!AnyOf(m.attrs, 79) && !AnyOf(m.attrs, 80))
          || exists i :: IsFirst(m.attrs, 80, i) && MacRight(m, Default(reqAuth), k.mac, i))
  {
    ResponseMeans(m, reqAuth, k);
    var first := FirstAuth(m.attrs);
    if first.Some? {
      MacMeans(m, reqAuth, k.mac, first.value);
      assert IsFirst(m.attrs, 80, first.value);
      forall i | IsFirst(m.attrs, 80, i) ensures i == first.value {
        assert !(i < first.value) && !(first.value < i);
      }
    }
  }

  /** EAP without a Message-Authenticator is refused under all keys, and leaves the buffer
      as it was unless the response was wrong already; without either, the response decides. */
  lemma EapNeedsMac(m: Message, reqAuth: Option<seq<byte>>, k: Keys)
    requires WellFormed(m) && |Default(reqAuth)| == 16 && !AnyOf(m.attrs, 80)
    ensures AnyOf(m.attrs, 79) ==> !Verified(m, reqAuth, k)
    ensures ResponseRight(Encode(m), Default(reqAuth), k) ==> LeftBehind(m, reqAuth, k) == m
    ensures !AnyOf(m.attrs, 79) ==>
      (Verified(m, reqAuth, k) <==> ResponseRight(Encode(m), Default(reqAuth), k))
  {
    VerifiedMeans(m, reqAuth, k);
    ResponseMeans(m, reqAuth, k);
  }

  /** A hidden password: a prefix of its exclusive or with the chain of pads. */
  ghost predicate HidesPassword(v: seq<byte>, start: seq<byte>, password: seq<byte>, k: Keys) {
    exists h :: Hides(k.hash, k.secret, k.hash(k.secret + start), password, h) && v == Truncated(h)
  }

  lemma PasswordMeans(m: Message, start: seq<byte>, password: seq<byte>, k: Keys)
    requires |start| == 16
    ensures var p := Prepared(m, start, password, k);
      && p.authenticator == start && p.code == m.code && p.identifier == m.identifier && p.tail == m.tail
      && if password == [] then p.attrs == m.attrs
         else exists v: seq<byte> :: |v| <= MAX_ATTRIBUTE_SIZE && p.attrs == m.attrs + [Attr(2, v)]
                                     && HidesPassword(v, start, password, k)
  {
    var first := k.hash(k.secret + start);
    var h := EncryptChain(k.hash, k.secret, first, password);
    assert k.secret + start + [] == k.secret + start;
    EncryptHides(k.hash, k.secret, first, password);
    assert HidesPassword(Truncated(h), start, password, k);
  }

  /** What signing writes: the random authenticator, or the hash over the bytes with that
      of the request; the Message-Authenticator last, over the bytes with zeros there. */
  lemma SignedMeans(m: Message, reqAuth: Option<seq<byte>>, random: Option<seq<byte>>, password: seq<byte>,
                    k: Keys, msgAuth: bool, start: seq<byte>, p: Message, s: seq<byte>)
    requires start == (match random case Some(r) => r case None => Default(reqAuth))
    requires Fits(m, start, password, msgAuth) && p == Prepared(m, start, password, k)
    requires s == Encode(Signed(m, reqAuth, random, password, k, msgAuth))
    ensures s[0] == m.code && s[1] == m.identifier
    ensures s[4..20] == match random case Some(r) => r case None => k.hash(s[..4] + start + s[20..] + k.secret)
    ensures var attrs := Signed(m, reqAuth, random, password, k, msgAuth).attrs;
      if msgAuth then EndsInMac(attrs, p.attrs, s, start, k.mac) else attrs == p.attrs
  {
    PreparedFits(m, start, password, k, msgAuth);
    FinishedMeans(p, random, k, msgAuth, start, Finished(Authenticated(p, k, msgAuth), random.Some?, k));
  }

  lemma FinishedMeans(p: Message, random: Option<seq<byte>>, k: Keys, msgAuth: bool, start: seq<byte>, q: Message)
    requires Room(p, if msgAuth then 18 else 0) && p.authenticator == start && (random.Some? ==> random.value == start)
    requires q == Finished(Authenticated(p, k, msgAuth), random.Some?, k)
    ensures var s := Encode(q);
      && s[0] == p.code && s[1] == p.identifier
      && s[4..20] == (match random case Some(r) => r case None => k.hash(s[..4] + start + s[20..] + k.secret))
      && if msgAuth then EndsInMac(q.attrs, p.attrs, s, start, k.mac) else q.attrs == p.attrs
  {
    var a := Authenticated(p, k, msgAuth);
    SignedResponse(a, q, start, k, random);
    if msgAuth {
      SignedMac(p, k.mac);
      SameEnd(Encode(q), Encode(a));
    }
  }

  /** The last attribute is the MAC over the bytes with the given authenticator and zeros
      in its own place. */
  ghost predicate EndsInMac(attrs: seq<Attr>, before: seq<Attr>, s: seq<byte>, start: seq<byte>, mac: Hash) {
    && |s| >= 38 && |start| == 16 && attrs == before + [Attr(80, s[|s| - 16..])]
    && s[|s| - 16..] == mac(Patched(s[..4] + start + s[20..], |s| - 16, Zeros(16)))
  }

  lemma SameEnd(s: seq<byte>, t: seq<byte>)
    requires |s| == |t| >= 38 && s[20..] == t[20..]
    ensures s[|s| - 16..] == t[|t| - 16..]
  {
    assert s[|s| - 16..] == s[20..][|s| - 36..];
  }

  lemma SignedResponse(a: Message, q: Message, start: seq<byte>, k: Keys, random: Option<seq<byte>>)
    requires WellFormed(a) && a.authenticator == start && q == Finished(a, random.Some?, k)
    requires random.Some? ==> random.value == start
    ensures var s := Encode(q);
      && s[4..20] == (match random case Some(r) => r case None => k.hash(s[..4] + start + s[20..] + k.secret))
      && s[..4] + start + s[20..] == Encode(a) && s[20..] == Encode(a)[20..]
  {
    PatchAuthenticator(q, start);
    assert q.(authenticator := start) == a;
  }

  lemma ValueAtEnd(q: Message)
    requires WellFormed(q) && q.tail == [] && q.attrs != [] && |q.attrs[|q.attrs| - 1].value| == 16
    ensures var s, n := Encode(q), |q.attrs| - 1;
      |s| >= 38 && Offset(q, n) + 18 == |s| && s[|s| - 16..] == q.attrs[n].value
  {
    NextAttr(q, |q.attrs| - 1);
    NoMoreAttrs(q);
  }

  lemma SignedMac(p: Message, mac: Hash)
    requires Room(p, 18)
    ensures var q := WithMac(p, mac);
      var s := Encode(q);
      && |s| >= 38 && q.attrs == p.attrs + [Attr(MESSAGE_AUTHENTICATOR, s[|s| - 16..])]
      && s[|s| - 16..] == mac(Patched(s, |s| - 16, Zeros(16)))
  {
    var n, q, blank := |p.attrs|, WithMac(p, mac), Added(p, MESSAGE_AUTHENTICATOR, Zeros(16));
    AddedForm(p, MESSAGE_AUTHENTICATOR, Zeros(16), 0);
    assert q.attrs == p.attrs + [Attr(MESSAGE_AUTHENTICATOR, mac(Encode(blank)))];
    PatchValue(q, n, Zeros(16));
    assert WithValue(q, n, Zeros(16)).attrs == blank.attrs;
    ValueAtEnd(q);
  }

  lemma BlankedSameOffset(m: Message, k: nat)
    requires WellFormed(m) && k < |m.attrs| && |m.attrs[k].value| == 16
    ensures Offset(Blanked(m, k), k) == Offset(m, k) && |Blanked(m, k).attrs[k].value| == 16
  {
    assert Blanked(m, k).attrs[..k] == m.attrs[..k];
  }

  lemma Unblanked(m: Message, k: nat)
    requires WellFormed(m) && k < |m.attrs| && |m.attrs[k].value| == 16
    ensures WithValue(Blanked(m, k), k, m.attrs[k].value) == m
  {
    assert WithValue(Blanked(m, k), k, m.attrs[k].value).attrs == m.attrs;
  }

  /** No Message-Authenticator among the first k attributes, and EAP or not. */
  ghost predicate Scanned(attrs: seq<Attr>, k: nat, hasEap: bool) {
    && k <= |attrs| && (forall i | 0 <= i < k :: attrs[i].kind != MESSAGE_AUTHENTICATOR)
    && (hasEap <==> exists i :: 0 <= i < k && attrs[i].kind == EAP_MESSAGE)
  }

  lemma ScanOne(attrs: seq<Attr>, k: nat, hasEap: bool)
    requires Scanned(attrs, k, hasEap) && k < |attrs| && attrs[k].kind != MESSAGE_AUTHENTICATOR
    ensures Scanned(attrs, k + 1, hasEap || attrs[k].kind == EAP_MESSAGE)
  {
  }

  lemma ScanEnds(attrs: seq<Attr>, k: nat, hasEap: bool)
    requires Scanned(attrs, k, hasEap)
    ensures k == |attrs| ==> FirstAuth(attrs) == None && hasEap == HasEap(attrs)
    ensures k < |attrs| && attrs[k].kind == MESSAGE_AUTHENTICATOR ==> FirstAuth(attrs) == Some(k)
  {
    FirstIs(attrs, k, FirstAuth(attrs));
  }

  lemma FirstIs(attrs: seq<Attr>, k: nat, first: Option<nat>)
    requires k <= |attrs| && (first.Some? ==> first.value < |attrs|)
    requires first.Some? ==> attrs[first.value].kind == MESSAGE_AUTHENTICATOR
    requires forall i | 0 <= i < (if first.Some? then first.value else |attrs|) ::
      attrs[i].kind != MESSAGE_AUTHENTICATOR
    requires forall i | 0 <= i < k :: attrs[i].kind != MESSAGE_AUTHENTICATOR
    ensures k == |attrs| ==> first == None
    ensures k < |attrs| && attrs[k].kind == MESSAGE_AUTHENTICATOR ==> first == Some(k)
  {
  }

  class RadiusMessage {
    var msg: seq<byte>
    var password: seq<byte>
    ghost var content: Message

    ghost predicate Valid()
      reads this
    {
      WellFormed(content) && msg == Encode(content) && |password| % 16 == 0
    }

    /** A new message with an authenticator still to be set. */
    constructor (code: byte, identifier: byte)
      ensures Valid() && content == Message(code, identifier, Zeros(16), [], []) && password == []
    {
      msg := [code, identifier] + FromU16(20) + Zeros(16);
      password := [];
      content := Message(code, identifier, Zeros(16), [], []);
    }

    constructor FromBytes(data: seq<byte>)
      requires |data| >= HEADER_SIZE && U16(data[2], data[3]) == |data|
      ensures msg == data && password == []
      ensures Walkable(data[20..]) ==> Valid() && content == Decode(data)
    {
      msg, password := data, [];
      content := if Walkable(data[20..]) then Decode(data) else Message(0, 0, [], [], []);
    }

    /** What was received becomes a message if its length field is right. */
    static method Parse(data: seq<byte>) returns (m: RadiusMessage?)
      ensures m == null <==> |data| < HEADER_SIZE || U16(data[2], data[3]) != |data|
      ensures m != null ==>
        && fresh(m) && m.msg == data && m.password == []
        && (Walkable(data[20..]) ==> m.Valid() && m.content == Decode(data))
    {
      if |data| < HEADER_SIZE || U16(data[2], data[3]) != |data| {
        return null;
      }
      m := new RadiusMessage.FromBytes(data);
    }

    method Add(kind: byte, data: seq<byte>)
      requires Valid()
      requires KeepsAside(Pending(content.attrs, password), kind) || Room(content, 2 + |Truncated(data)|)
      modifies this
      ensures Valid() && content == old(content).(attrs := content.attrs)
      ensures Pending(content.attrs, password) == AddOne(old(Pending(content.attrs, password)), Attr(kind, data))
    {
      if kind == USER_PASSWORD && |password| == 0 {
        password := data + Zeros(PadLen(|data|, 16));
        return;
      }
      var d := Truncated(data);
      var length := U16(msg[2], msg[3]);
      PatchAdded(content, kind, data);
      msg := Patched(msg + [kind, |d| + 2] + d, 2, FromU16(length + 2 + |d|));
      content := Added(content, kind, data);
      assert Cut([Attr(kind, data)]) == [Attr(kind, d)];
    }

    /** The cursor has just yielded attribute k, or there was none. */
    ghost predicate Yielded(k: nat, more: bool, kind: byte, value: nat, next: nat)
      reads this
      requires Valid()
    {
      && (more <==> k < |content.attrs|)
      && (more ==>
        && value == Offset(content, k) + 2 <= next <= |msg| && next == Offset(content, k + 1)
        && content.attrs[k] == Attr(kind, msg[value..next]))
    }

    /** One step of the attribute cursor. */
    method Next(at: nat, ghost k: nat) returns (more: bool, kind: byte, value: nat, next: nat)
      requires Valid() && k <= |content.attrs| && at == Offset(content, k)
      ensures Yielded(k, more, kind, value, next)
    {
      if k < |content.attrs| {
        NextAttr(content, k);
      } else {
        NoMoreAttrs(content);
      }
      more, kind, value, next := false, 0, 0, 0;
      var left := |msg| - at;
      if left == 0 {
        return;
      }
      if left < 2 || left < msg[at + 1] {
        return;
      }
      more, kind, value, next := true, msg[at], at + 2, at + msg[at + 1];
    }

    method Enumerate() returns (attrs: seq<Attr>)
      requires Valid()
      ensures attrs == content.attrs == DecodeAttrs(msg[20..])
    {
      attrs := [];
      DecodeEncoded(content.attrs, content.tail);
      if U16(msg[2], msg[3]) < 22 {
        NoMoreAttrs(content);
        return;
      }
      var more: bool, kind: byte, value: nat, next: nat := Next(20, 0);
      while more
        invariant |attrs| <= |content.attrs| && attrs == content.attrs[..|attrs|]
        invariant Yielded(|attrs|, more, kind, value, next)
        decreases |content.attrs| - |attrs|
      {
        var a: Attr := Attr(kind, msg[value..next]);
        assert attrs + [a] == content.attrs[..|attrs| + 1];
        attrs := attrs + [a];
        more, kind, value, next := Next(next, |attrs|);
      }
    }

    method SetAuthenticator(a: seq<byte>)
      requires Valid() && |a| == 16
      modifies this
      ensures Valid() && content == old(content).(authenticator := a) && password == old(password)
    {
      PatchAuthenticator(content, a);
      msg := Patched(msg, 4, a);
      content := content.(authenticator := a);
    }

    method SetValue(at: nat, v: seq<byte>, ghost k: nat)
      requires Valid() && k < |content.attrs| && at == Offset(content, k) + 2 && |v| == |content.attrs[k].value|
      modifies this
      ensures Valid() && content == WithValue(old(content), k, v) && password == old(password)
    {
      PatchValue(content, k, v);
      msg := Patched(msg, at, v);
      content := WithValue(content, k, v);
    }

    method Blank(at: nat, mac: Hash, ghost k: nat) returns (ok: bool)
      requires Valid() && k < |content.attrs| && at == Offset(content, k) + 2 && |content.attrs[k].value| == 16
      modifies this
      ensures Valid() && password == old(password)
      ensures ok <==> mac(Encode(Blanked(old(content), k))) == old(content).attrs[k].value
      ensures content == if ok then old(content) else Blanked(old(content), k)
    {
      ghost var m := content;
      NextAttr(content, k);
      var buf := msg[at..at + 16];
      SetValue(at, Zeros(16), k);
      ok := mac(msg) == buf;
      if ok {
        BlankedSameOffset(m, k);
        SetValue(at, buf, k);
        Unblanked(m, k);
      }
    }

    /** Looks for the first Message-Authenticator, and for EAP before it. */
    method FindAuth() returns (found: bool, value: nat, next: nat, hasEap: bool)
      requires Valid()
      ensures found == FirstAuth(content.attrs).Some? && (!found ==> hasEap == HasEap(content.attrs))
      ensures found ==>
        var k := FirstAuth(content.attrs).value;
        value == Offset(content, k) + 2 && next == Offset(content, k + 1) == value + |content.attrs[k].value|
    {
      hasEap := false;
      var kind: byte;
      found, kind, value, next := Next(20, 0);
      ghost var k := 0;
      while found
        invariant Scanned(content.attrs, k, hasEap) && Yielded(k, found, kind, value, next)
        decreases |content.attrs| - k
      {
        if kind == MESSAGE_AUTHENTICATOR {
          ScanEnds(content.attrs, k, hasEap);
          return;
        }
        ScanOne(content.attrs, k, hasEap);
        if kind == EAP_MESSAGE {
          hasEap := true;
        }
        k := k + 1;
        found, kind, value, next := Next(next, k);
      }
      ScanEnds(content.attrs, k, hasEap);
    }

    /** Checks the first Message-Authenticator. */
    method CheckMac(mac: Hash) returns (ok: bool, hasEap: bool, hasAuth: bool)
      requires Valid()
      modifies this
      ensures Valid() && password == old(password) && ok == MacOk(old(content), mac)
      ensures content == if ok then old(content) else MacLeft(old(content))
      ensures ok ==> hasAuth == FirstAuth(content.attrs).Some? && (!hasAuth ==> hasEap == HasEap(content.attrs))
    {
      var value: nat, next: nat;
      hasAuth, value, next, hasEap := FindAuth();
      ok := true;
      if hasAuth {
        if next - value != 16 {
          return false, hasEap, false;
        }
        ok := Blank(value, mac, FirstAuth(content.attrs).value);
      }
    }

    /** On success, and when only an EAP-Message lacks its Message-Authenticator, the
        buffer is as it was. */
    method Verify(reqAuth: Option<seq<byte>>, k: Keys) returns (ok: bool)
      requires Valid() && |Default(reqAuth)| == 16
      modifies this
      ensures Valid() && password == old(password)
      ensures ok == Verified(old(content), reqAuth, k)
      ensures content == LeftBehind(old(content), reqAuth, k)
      ensures ok ==> msg == old(msg)
    {
      ghost var m := content;
      var resAuth := msg[4..20];
      if msg[0] != ACCESS_REQUEST {
        SetAuthenticator(Default(reqAuth));
        if k.hash(msg + k.secret) != resAuth {
          return false;
        }
      }
      assert content == Restored(m, reqAuth) && ResponseOk(m, content, k);
      var hasEap, hasAuth;
      ok, hasEap, hasAuth := CheckMac(k.mac);
      if !ok {
        return;
      }
      if msg[0] != ACCESS_REQUEST {
        SetAuthenticator(resAuth);
      }
      assert content == m;
      ok := !(hasEap && !hasAuth);
    }

    /** Encrypts the stored password in place and moves it into the message. */
    method AddPassword(k: Keys)
      requires Valid() && Room(content, PasswordSize(password))
      modifies this
      ensures Valid() && content == HidePassword(old(content), old(password), k) && password == []
    {
      if |password| > 0 {
        var buffer := new byte[|password|](i requires 0 <= i < |password| reads this => password[i]);
        assert buffer[..] == password;
        var _ := Crypt(k.hash, k.secret, msg[4..20], [], buffer, buffer);
        Add(USER_PASSWORD, buffer[..]);
        password := [];
      }
    }

    method AddMac(mac: Hash)
      requires Valid() && Room(content, 18)
      modifies this
      ensures Valid() && content == WithMac(old(content), mac) && password == old(password)
    {
      ghost var k := |content.attrs|;
      ghost var m := content;
      Add(MESSAGE_AUTHENTICATOR, Zeros(16));
      assert content == Added(m, MESSAGE_AUTHENTICATOR, Zeros(16));
      NextAttr(content, k);
      NoMoreAttrs(content);
      SetValue(|msg| - 16, mac(msg), k);
    }

    method Sign(reqAuth: Option<seq<byte>>, k: Keys, random: Option<seq<byte>>, msgAuth: bool)
      requires Valid() && Fits(content, Start(reqAuth, random), password, msgAuth)
      modifies this
      ensures Valid() && password == []
      ensures content == Signed(old(content), reqAuth, random, old(password), k, msgAuth)
    {
      PreparedFits(content, Start(reqAuth, random), password, k, msgAuth);
      SetAuthenticator(Start(reqAuth, random));
      AddPassword(k);
      if msgAuth {
        AddMac(k.mac);
      }
      if random == None {
        SetAuthenticator(k.hash(msg + k.secret));
      }
    }
  }

  lemma DecodeUndoesEncode(m: Message)
    requires WellFormed(m)
    ensures Walkable(Encode(m)[20..]) && Decode(Encode(m)) == m
  {
    DecodeEncoded(m.attrs, m.tail);
  }

  /** What one side signs, the other side parses and verifies, and then it holds the same
      bytes. */
  method SignThenVerify(sender: RadiusMessage, reqAuth: Option<seq<byte>>, k: Keys, random: Option<seq<byte>>,
                        msgAuth: bool) returns (received: RadiusMessage?, ok: bool)
    requires sender.Valid() && |Default(reqAuth)| == 16
    requires Fits(sender.content, Start(reqAuth, random), sender.password, msgAuth) && Signable(sender.content, msgAuth)
    requires Usual(sender.content.code, random) || (sender.content.code == ACCESS_REQUEST && !msgAuth)
    modifies sender
    ensures sender.Valid() && received != null && ok && received.msg == sender.msg
  {
    VerifyAfterSign(sender.content, reqAuth, random, sender.password, k, msgAuth);
    sender.Sign(reqAuth, k, random, msgAuth);
    DecodeUndoesEncode(sender.content);
    received := RadiusMessage.Parse(sender.msg);
    ok := received.Verify(reqAuth, k);
  }
}
