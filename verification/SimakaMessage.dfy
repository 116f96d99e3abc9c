/** Receiving EAP-SIM and EAP-AKA messages (section 10 of RFC 4187): parsing attributes,
    some of which come in an encrypted sub-stream, and verifying the MAC. */
module SimakaMessage {
  import opened Bytes
  import opened Ciphers
  import opened SimakaWire

  const AKA_CHALLENGE: byte := 1
  const AKA_AUTHENTICATION_REJECT: byte := 2
  const AKA_SYNCHRONIZATION_FAILURE: byte := 4
  const AKA_IDENTITY: byte := 5
  const SIM_START: byte := 10
  const SIM_CHALLENGE: byte := 11
  const SIM_NOTIFICATION: byte := 12
  const SIM_REAUTHENTICATION: byte := 13
  const SIM_CLIENT_ERROR: byte := 14

  // ----- what parsing makes of a chunk

  predicate PBit(data: seq<byte>) {
    |data| > 0 && data[0] / 64 % 2 == 1
  }

  /** The parsed attributes, and what is remembered for decryption and verification;
      the MAC is a place in the message. */
  datatype View = View(attrs: seq<Attr>, pBit: bool, iv: seq<byte>, encr: seq<byte>, mac: Option<nat>)

  const Fresh: View := View([], true, [], [], None)

  /** One attribute that was read at a place in the message. */
  function Absorb(v: View, a: Attr, at: nat, encrypted: bool): Option<View> {
    var more := v.(attrs := v.attrs + [a]);
    if a.kind == AT_MAC then Some(v.(mac := Some(at + 4)))
    else if a.kind == AT_IV then Some(v.(iv := a.data))
    else if a.kind == AT_ENCR_DATA then Some(v.(encr := a.data))
    else if a.kind == AT_PADDING then Some(v)
    else if a.kind == AT_NOTIFICATION && v.pBit then Some(more.(pBit := PBit(a.data)))
    else if a.kind == AT_NOTIFICATION && !encrypted then None
    else Some(more)
  }

  predicate Unwelcome(kind: byte, encrypted: bool) {
    MustBeHidden(kind) && !encrypted
  }

  datatype Step = Step(view: View, next: seq<byte>)

  /** The next attribute of a chunk: what is known after it, and the rest of the chunk. */
  function ParseNext(v: View, s: seq<byte>, at: nat, encrypted: bool): (r: Option<Step>)
    ensures r.Some? ==> |r.value.next| < |s|
  {
    if |s| < 2 || Unwelcome(s[0], encrypted) then None
    else match ReadAttr(s)
      case Got(data, next) => Then(Absorb(v, Attr(s[0], data), at, encrypted), next)
      case Invalid => None
      case Outside => None
  }

  function Then(v: Option<View>, next: seq<byte>): Option<Step> {
    if v == None then None else Some(Step(v.value, next))
  }

  // ----- one attribute after the other

  type Stepper = (View, seq<byte>, nat) -> Option<Step>

  /** Going through a chunk that starts at a place in the message. */
  function Iterate(f: Stepper, v: View, s: seq<byte>, at: nat): Option<View>
    decreases |s|
  {
    if s == [] then Some(v)
    else match f(v, s, at)
      case None => None
      case Some(Step(w, next)) =>
        if |next| < |s| then Iterate(f, w, next, at + (|s| - |next|)) else None
  }

  /** All chunks that are met on the way are fine. */
  predicate Meets(f: Stepper, fine: seq<byte> -> bool, v: View, s: seq<byte>, at: nat)
    decreases |s|
  {
    s != [] ==> fine(s) && match f(v, s, at)
      case None => true
      case Some(Step(w, next)) => |next| < |s| ==> Meets(f, fine, w, next, at + (|s| - |next|))
  }

  function Next(encrypted: bool): Stepper {
    (v: View, s: seq<byte>, at: nat) => ParseNext(v, s, at, encrypted)
  }

  function Fine(encrypted: bool): seq<byte> -> bool {
    s => NextInBounds(s, encrypted)
  }

  /** Parsing any chunk. */
  function ParseBytes(v: View, s: seq<byte>, at: nat, encrypted: bool): Option<View> {
    Iterate(Next(encrypted), v, s, at)
  }

  /** Reading the next attribute does not go beyond the chunk, and nothing that is
      remembered as a place in the message lies in decrypted data. */
  predicate NextInBounds(s: seq<byte>, encrypted: bool) {
    |s| < 2 || Unwelcome(s[0], encrypted) || (
      && ReadAttr(s) != Outside
      && (encrypted ==> s[0] != AT_MAC && s[0] != AT_IV && s[0] != AT_ENCR_DATA))
  }

  predicate InBounds(v: View, s: seq<byte>, at: nat, encrypted: bool) {
    Meets(Next(encrypted), Fine(encrypted), v, s, at)
  }

  /** Hidden attributes are read with a key, an IV and data. */
  predicate Unlocks(c: Option<Crypter>, v: View) {
    c.Some? && v.iv != [] && v.encr != []
  }

  predicate WholeBlocks(c: Option<Crypter>, v: View)
    requires c.Some? ==> c.value.blockSize > 0
  {
    Unlocks(c, v) && |v.encr| % c.value.blockSize == 0
  }

  function ParseHidden(v: View, c: Option<Crypter>): Option<View>
    requires c.Some? ==> c.value.blockSize > 0
  {
    if !Unlocks(c, v) then Some(v)
    else if !WholeBlocks(c, v) then None
    else ParseBytes(v, c.value.decrypt(v.encr, v.iv), 0, true)
  }

  /** A message that already has attributes is only decrypted. */
  function ParseClear(v: View, body: seq<byte>): Option<View> {
    if v.attrs != [] then Some(v) else ParseBytes(v, body, 8, false)
  }

  function ParseAll(v: View, c: Option<Crypter>, body: seq<byte>): Option<View>
    requires c.Some? ==> c.value.blockSize > 0
  {
    match ParseClear(v, body)
    case None => None
    case Some(w) => ParseHidden(w, c)
  }

  /** Whatever gets decrypted is in bounds. */
  predicate HiddenInBounds(v: View, c: Option<Crypter>)
    requires c.Some? ==> c.value.blockSize > 0
  {
    WholeBlocks(c, v) ==> InBounds(v, c.value.decrypt(v.encr, v.iv), 0, true)
  }

  // ----- verification

  predicate NeedsMac(subtype: byte) {
    subtype == SIM_CHALLENGE || subtype == AKA_CHALLENGE || subtype == SIM_REAUTHENTICATION
  }

  predicate IgnoresMac(subtype: byte) {
    || subtype == SIM_START || subtype == SIM_CLIENT_ERROR || subtype == AKA_AUTHENTICATION_REJECT
    || subtype == AKA_SYNCHRONIZATION_FAILURE || subtype == AKA_IDENTITY
  }

  /** Verification passes without a look at the MAC. */
  predicate Exempt(subtype: byte, v: View) {
    IgnoresMac(subtype) || (subtype == SIM_NOTIFICATION && v.pBit)
  }

  /** The MAC is looked at, and for that it is overwritten with zeros. */
  predicate Looks(subtype: byte, v: View, signer: Option<Signer>) {
    && !Exempt(subtype, v) && (NeedsMac(subtype) || subtype == SIM_NOTIFICATION)
    && v.mac.Some? && signer.Some?
  }

  function Zeroed(hdr: seq<byte>, at: nat): (h: seq<byte>)
    requires at + 16 <= |hdr|
    ensures |h| == |hdr|
  {
    Patched(hdr, at, Zeros(16))
  }

  /** Does the MAC, or the lack of one, satisfy the rules of the subtype? */
  predicate Verified(hdr: seq<byte>, v: View, signer: Option<Signer>, sigdata: seq<byte>)
    requires |hdr| >= 8 && (v.mac.Some? ==> v.mac.value + 16 <= |hdr|)
  {
    Exempt(hdr[5], v) || (
      && Looks(hdr[5], v, signer)
      && signer.value.mac(Zeroed(hdr, v.mac.value) + sigdata) == hdr[v.mac.value..v.mac.value + 16])
  }

  /** The message after verification. */
  function AfterVerify(hdr: seq<byte>, v: View, signer: Option<Signer>): (h: seq<byte>)
    requires |hdr| >= 8 && (v.mac.Some? ==> v.mac.value + 16 <= |hdr|)
    ensures |h| == |hdr|
  {
    if Looks(hdr[5], v, signer) then Zeroed(hdr, v.mac.value) else hdr
  }

  /** By number: Start, client error, authentication reject, synchronization failure and
      identity go without a MAC, as does a notification with its P bit set; challenges,
      reauthentication and other notifications need the right one, and nothing else
      passes at all. */
  lemma VerifiedMeans(hdr: seq<byte>, v: View, signer: Option<Signer>, sigdata: seq<byte>, subtype: byte)
    requires |hdr| >= 8 && (v.mac.Some? ==> v.mac.value + 16 <= |hdr|) && subtype == hdr[5]
    ensures Verified(hdr, v, signer, sigdata) <==>
      || subtype in {2, 4, 5, 10, 14} || (subtype == 12 && v.pBit)
      || (subtype in {1, 11, 12, 13} && v.mac.Some? && signer.Some?
          && var at := v.mac.value;
             signer.value.mac(hdr[..at] + Zeros(16) + hdr[at + 16..] + sigdata) == hdr[at..at + 16])
    ensures AfterVerify(hdr, v, signer)
      == if v.mac.Some? && signer.Some? && (subtype in {1, 11, 13} || (subtype == 12 && !v.pBit))
         then hdr[..v.mac.value] + Zeros(16) + hdr[v.mac.value + 16..] else hdr
  {
  }

  /** A notification counts by bit 0x40 of its first byte: in the clear, none may follow
      one that had it cleared. Anything else is kept, or remembered. */
  lemma AbsorbMeans(v: View, a: Attr, at: nat, encrypted: bool)
    ensures var r, bit := Absorb(v, a, at, encrypted), |a.data| > 0 && a.data[0] % 128 >= 64;
      match a.kind
      case 6 => r == Some(v)
      case 11 => r == Some(View(v.attrs, v.pBit, v.iv, v.encr, Some(at + 4)))
      case 12 => r == if !v.pBit && !encrypted then None
                      else Some(View(v.attrs + [a], v.pBit && bit, v.iv, v.encr, v.mac))
      case 129 => r == Some(View(v.attrs, v.pBit, a.data, v.encr, v.mac))
      case 130 => r == Some(View(v.attrs, v.pBit, v.iv, a.data, v.mac))
      case _ => r == Some(View(v.attrs + [a], v.pBit, v.iv, v.encr, v.mac))
  {
  }

  /** What needs encryption is refused in the clear. */
  lemma UnhiddenIsRefused(v: View, s: seq<byte>, at: nat)
    requires |s| >= 1 && s[0] in {19, 20, 21, 132, 133}
    ensures ParseNext(v, s, at, false) == None
  {
  }

  /** With key, IV and data, hidden attributes are those of the decrypted data, which is
      whole blocks; without one of these there are none. */
  lemma HiddenMeans(v: View, c: Option<Crypter>)
    requires c.Some? ==> c.value.blockSize > 0
    ensures c == None || v.iv == [] || v.encr == [] ==> ParseHidden(v, c) == Some(v)
    ensures c.Some? && v.iv != [] && v.encr != [] ==>
      ParseHidden(v, c) == if |v.encr| % c.value.blockSize == 0
        then ParseBytes(v, c.value.decrypt(v.encr, v.iv), 0, true) else None
  {
  }

  /** A second verification of a message that was accepted: since its MAC is gone, it
      is accepted again only if no MAC was looked at, or it was all zeros anyway. */
  lemma VerifyAgain(hdr: seq<byte>, v: View, signer: Option<Signer>, sigdata: seq<byte>)
    requires |hdr| >= 8 && (v.mac.Some? ==> 8 <= v.mac.value && v.mac.value + 16 <= |hdr|)
    requires Verified(hdr, v, signer, sigdata)
    ensures Verified(AfterVerify(hdr, v, signer), v, signer, sigdata) <==>
      Looks(hdr[5], v, signer) ==> signer.value.mac(Zeroed(hdr, v.mac.value) + sigdata) == Zeros(16)
  {
    if Looks(hdr[5], v, signer) {
      var at, h := v.mac.value, AfterVerify(hdr, v, signer);
      assert h[5] == hdr[5];
      PatchedThere(hdr, at, Zeros(16));
      ZeroedTwice(hdr, at);
    }
  }

  lemma ZeroedTwice(hdr: seq<byte>, at: nat)
    requires at + 16 <= |hdr|
    ensures Zeroed(Zeroed(hdr, at), at) == Zeroed(hdr, at)
  {
  }

  // ----- the message object

  class SimakaMessage {
    var hdr: seq<byte>
    var attributes: seq<Attr>
    var encrypted: bool
    var pBit: bool
    var mac: Option<nat>
    var encr: seq<byte>
    var iv: seq<byte>

    constructor (data: seq<byte>)
      ensures hdr == data && !encrypted && Seen() == Fresh
    {
      hdr, attributes, encrypted, pBit := data, [], false, true;
      mac, encr, iv := None, [], [];
    }

    ghost function Seen(): View
      reads this
    {
      View(attributes, pBit, iv, encr, mac)
    }

    method AddAttribute(kind: byte, data: seq<byte>)
      modifies this`attributes
      ensures attributes == old(attributes) + [Attr(kind, data)]
    {
      attributes := attributes + [Attr(kind, data)];
    }

    /** The second switch of the parser. */
    method Handle(kind: byte, data: seq<byte>, at: nat) returns (ok: bool)
      modifies this
      ensures hdr == old(hdr) && encrypted == old(encrypted)
      ensures match Absorb(old(Seen()), Attr(kind, data), at, encrypted)
        case None => !ok
        case Some(v) => ok && Seen() == v
    {
      if kind == AT_MAC {
        mac := Some(at + 4);
      } else if kind == AT_IV {
        iv := data;
      } else if kind == AT_ENCR_DATA {
        encr := data;
      } else if kind != AT_PADDING {
        if kind == AT_NOTIFICATION {
          if pBit {
            pBit := PBit(data);
          } else if !encrypted {
            return false;
          }
        }
        AddAttribute(kind, data);
      }
      return true;
    }

    /** Reads one attribute and returns the rest of the chunk. */
    method ParseOne(left: seq<byte>, at: nat) returns (ok: bool, next: seq<byte>)
      requires NextInBounds(left, encrypted)
      modifies this
      ensures hdr == old(hdr) && encrypted == old(encrypted)
      ensures ParseNext(old(Seen()), left, at, encrypted) == if ok then Some(Step(Seen(), next)) else None
    {
      next := left;
      if |left| < 2 || (MustBeHidden(left[0]) && !encrypted) {
        return false, next;
      }
      var data;
      ok, data, next := ReadOne(left);
      if ok {
        ok := Handle(left[0], data, at);
      }
    }

    /** The loop over a shrinking chunk that starts at `start` in the message. */
    method ParseLoop(input: seq<byte>, start: nat, ghost f: Stepper, ghost fine: seq<byte> -> bool) returns (ok: bool)
      requires forall v, s, at {:trigger ParseNext(v, s, at, encrypted)} ::
        f(v, s, at) == ParseNext(v, s, at, encrypted)
      requires forall s {:trigger NextInBounds(s, encrypted)} :: fine(s) == NextInBounds(s, encrypted)
      requires Meets(f, fine, Seen(), input, start)
      modifies this
      ensures hdr == old(hdr) && encrypted == old(encrypted)
      ensures match Iterate(f, old(Seen()), input, start)
        case None => !ok
        case Some(v) => ok && Seen() == v
    {
      var left: seq<byte>, at: nat := input, start;
      ok := true;
      while left != []
        invariant hdr == old(hdr) && encrypted == old(encrypted) && ok && Meets(f, fine, Seen(), left, at)
        invariant Iterate(f, Seen(), left, at) == Iterate(f, old(Seen()), input, start)
        decreases |left|
      {
        ghost var inBounds := NextInBounds(left, encrypted);
        var next;
        ok, next := ParseOne(left, at);
        if !ok {
          return;
        }
        at, left := at + (|left| - |next|), next;
      }
    }

    method ParseAttributes(input: seq<byte>, start: nat) returns (ok: bool)
      requires InBounds(Seen(), input, start, encrypted)
      modifies this
      ensures hdr == old(hdr) && encrypted == old(encrypted)
      ensures match ParseBytes(old(Seen()), input, start, encrypted)
        case None => !ok
        case Some(v) => ok && Seen() == v
    {
      ok := ParseLoop(input, start, Next(encrypted), Fine(encrypted));
    }

    /** Decrypts and parses the hidden attributes, if there is all it takes. */
    method Decrypt(crypter: Option<Crypter>) returns (ok: bool)
      requires !encrypted && (crypter.Some? ==> crypter.value.blockSize > 0) && HiddenInBounds(Seen(), crypter)
      modifies this
      ensures hdr == old(hdr) && !encrypted
      ensures match ParseHidden(old(Seen()), crypter)
        case None => !ok
        case Some(v) => ok && Seen() == v
    {
      if crypter == None || |iv| == 0 || |encr| == 0 || encrypted {
        return true;
      }
      if |encr| % crypter.value.blockSize != 0 {
        return false;
      }
      var plain := crypter.value.decrypt(encr, iv);
      encrypted := true;
      ok := ParseAttributes(plain, 0);
      encrypted := false;
    }

    method Parse(crypter: Option<Crypter>) returns (ok: bool)
      requires !encrypted && |hdr| >= 8 && U16(hdr[2], hdr[3]) == |hdr|
      requires crypter.Some? ==> crypter.value.blockSize > 0
      requires attributes == [] ==> InBounds(Seen(), hdr[8..], 8, false)
      requires ParseClear(Seen(), hdr[8..]).Some? ==> HiddenInBounds(ParseClear(Seen(), hdr[8..]).value, crypter)
      modifies this
      ensures hdr == old(hdr) && !encrypted
      ensures match ParseAll(old(Seen()), crypter, hdr[8..])
        case None => !ok
        case Some(v) => ok && Seen() == v
    {
      if |attributes| > 0 {
        ok := Decrypt(crypter);
        return;
      }
      ok := ParseAttributes(hdr[8..], 8);
      if !ok {
        return;
      }
      ok := Decrypt(crypter);
    }

    /** The MAC is zeroed, and stays so, exactly if it gets looked at. */
    method Verify(signer: Option<Signer>, sigdata: seq<byte>) returns (ok: bool)
      requires |hdr| >= 8 && (mac.Some? ==> mac.value + 16 <= |hdr|)
      modifies this`hdr
      ensures ok == Verified(old(hdr), Seen(), signer, sigdata)
      ensures hdr == AfterVerify(old(hdr), Seen(), signer)
    {
      var subtype := hdr[5];
      if IgnoresMac(subtype) {
        return true;
      } else if NeedsMac(subtype) {
        if mac == None || signer == None {
          return false;
        }
      } else if subtype == SIM_NOTIFICATION {
        if pBit {
          return true;
        }
        if mac == None || signer == None {
          return false;
        }
      } else {
        return false;
      }
      var backup := hdr[mac.value..mac.value + 16];
      hdr := Patched(hdr, mac.value, Zeros(16));
      return signer.value.mac(hdr + sigdata) == backup;
    }
  }

  // ----- parsing again once there are keys

  lemma NextGrows(v: View, s: seq<byte>, at: nat)
    ensures var r := ParseNext(v, s, at, false); r.Some? ==> |r.value.view.attrs| >= |v.attrs|
  {
  }

  /** A way to go on that never forgets attributes. */
  ghost predicate Grows(f: Stepper) {
    forall v, s, at :: f(v, s, at).Some? ==> |f(v, s, at).value.view.attrs| >= |v.attrs|
  }

  lemma {:induction false} AttrsGrow(f: Stepper, v: View, s: seq<byte>, at: nat)
    requires Grows(f)
    ensures var w := Iterate(f, v, s, at); w.Some? ==> |w.value.attrs| >= |v.attrs|
    decreases |s|
  {
    var r := f(v, s, at);
    if s != [] && r.Some? && |r.value.next| < |s| {
      AttrsGrow(f, r.value.view, r.value.next, at + (|s| - |r.value.next|));
    }
  }

  /** Two states that differ in what is remembered, before and after. */
  predicate Follows(v: View, v': View, w: View, w': View) {
    && v.attrs == v'.attrs == w.attrs == w'.attrs && v.pBit == v'.pBit == w.pBit == w'.pBit
    && (w'.iv == w.iv || w'.iv == v'.iv) && (v.iv == v'.iv ==> w.iv == w'.iv)
    && (w'.encr == w.encr || w'.encr == v'.encr) && (v.encr == v'.encr ==> w.encr == w'.encr)
    && (w'.mac == w.mac || w'.mac == v'.mac) && (v.mac == v'.mac ==> w.mac == w'.mac)
  }

  /** From states that only differ in what is remembered, two steps go together. */
  ghost predicate Together(v: View, v': View, r: Option<Step>, r': Option<Step>) {
    v.attrs == v'.attrs && v.pBit == v'.pBit && r.Some? && |r.value.view.attrs| <= |v.attrs| ==>
      r'.Some? && r'.value.next == r.value.next && Follows(v, v', r.value.view, r'.value.view)
  }

  /** A step without a new attribute does not depend on what is remembered. */
  ghost predicate Forgets(f: Stepper) {
    forall v: View, v': View, s, at :: Together(v, v', f(v, s, at), f(v', s, at))
  }

  lemma NextTogether(v: View, v': View, s: seq<byte>, at: nat)
    ensures Together(v, v', ParseNext(v, s, at, false), ParseNext(v', s, at, false))
  {
  }

  lemma NextForgets()
    ensures Grows(Next(false)) && Forgets(Next(false))
  {
    var f := Next(false);
    forall v, s, at ensures f(v, s, at).Some? ==> |f(v, s, at).value.view.attrs| >= |v.attrs| {
      NextGrows(v, s, at);
    }
    forall v: View, v': View, s, at ensures Together(v, v', f(v, s, at), f(v', s, at)) {
      NextTogether(v, v', s, at);
    }
  }

  lemma {:induction false} ParseAgain(f: Stepper, v: View, v': View, s: seq<byte>, at: nat)
    requires Grows(f) && Forgets(f) && v.attrs == v'.attrs && v.pBit == v'.pBit
    requires var w := Iterate(f, v, s, at); w.Some? && w.value.attrs == v.attrs
    ensures var w, w' := Iterate(f, v, s, at), Iterate(f, v', s, at);
      w'.Some? && Follows(v, v', w.value, w'.value)
    decreases |s|
  {
    if s != [] {
      var Step(w, next) := f(v, s, at).value;
      var at' := at + (|s| - |next|);
      AttrsGrow(f, w, next, at');
      assert Together(v, v', f(v, s, at), f(v', s, at));
      ParseAgain(f, w, f(v', s, at).value.view, next, at');
    }
  }

  /** Parsing before the keys are known and again afterwards gives what parsing with
      the keys gives. */
  lemma KeysMayComeLater(c: Crypter, body: seq<byte>)
    requires c.blockSize > 0
    requires ParseAll(Fresh, None, body).Some?
    ensures ParseAll(ParseAll(Fresh, None, body).value, Some(c), body) == ParseAll(Fresh, Some(c), body)
  {
    var w := ParseAll(Fresh, None, body).value;
    if w.attrs == [] {
      NextForgets();
      ParseAgain(Next(false), Fresh, Fresh, body, 8);
      ParseAgain(Next(false), Fresh, w, body, 8);
    }
  }
}
