/** Generating EAP-SIM and EAP-AKA messages, and what their receiver makes of them. */
module SimakaGenerate {
  import opened Bytes
  import opened Ciphers
  import opened SimakaWire
  import opened SimakaMessage

  // ----- attributes to be sent

  predicate HasRule(kind: byte) {
    LayoutOf(kind) != Other && kind != AT_IV && kind != AT_MAC && kind != AT_ENCR_DATA
  }

  /** Enough data for the rule; attributes without a rule are skipped. */
  predicate Enough(a: Attr) {
    HasRule(a.kind) ==>
      match LayoutOf(a.kind)
      case Empty => true
      case Two => |a.data| >= 2
      case Counted => |a.data| <= 1016
      case Sixteen => |a.data| >= 16
      case Variable => |a.data| % 4 == 0 && |a.data| <= 1016
      case Fourteen => |a.data| >= 14
      case Other => true
  }

  type Sendable = a: Attr | Enough(a) witness Attr(0, [])

  predicate Hides(a: Attr) {
    MustBeHidden(a.kind) || (a.kind == AT_NOTIFICATION && !PBit(a.data))
  }

  /** By number: which attributes are written, and which of them travel hidden. */
  lemma RuleNumbers(a: Attr)
    ensures HasRule(a.kind) <==> a.kind in {1, 2, 3, 4, 7, 10, 12, 13, 14, 15, 16, 17, 19, 20, 21, 22, 132, 133}
    ensures Hides(a) <==>
      || a.kind in {19, 20, 21, 132, 133}
      || (a.kind == 12 && (a.data == [] || a.data[0] % 128 < 64))
  {
  }

  /** What a length in bits, multiplied after the conversion to network order on a
      little-endian host, stands for. */
  function ResLength(n: nat): (k: nat)
    ensures k <= n
    ensures n < 1024 ==> (k == n <==> n % 256 < 32)
  {
    n / 256 * 256 + n % 256 % 32
  }

  /** How much of its data a receiver gets to see. */
  function Shown(a: Sendable): (k: nat)
    ensures k <= |a.data|
  {
    if !HasRule(a.kind) || LayoutOf(a.kind) == Variable then |a.data| else
      match LayoutOf(a.kind)
      case Empty => 0
      case Two => 2
      case Counted => if a.kind == AT_RES then ResLength(|a.data|) else |a.data|
      case Sixteen => 16
      case Fourteen => 14
  }

  /** All of it: the data has exactly the size of the rule, and AT_RES a lucky one. */
  predicate Exact(a: Attr) {
    HasRule(a.kind) ==>
      match LayoutOf(a.kind)
      case Empty => |a.data| == 0
      case Two => |a.data| == 2
      case Counted => a.kind == AT_RES ==> |a.data| % 256 < 32
      case Sixteen => |a.data| == 16
      case Fourteen => |a.data| == 14
      case Variable => true
      case Other => true
  }

  lemma ShownAll(a: Sendable)
    ensures Shown(a) == |a.data| <==> Exact(a)
  {
  }

  function Read(a: Sendable): Attr {
    Attr(a.kind, a.data[..Shown(a)])
  }

  function AttrOf(i: Item): Attr {
    Attr(i.kind, i.data)
  }

  function ItemOf(a: Sendable): (i: Item)
    requires HasRule(a.kind)
    ensures AttrOf(i) == Read(a)
  {
    var seen := a.data[..Shown(a)];
    match LayoutOf(a.kind)
    case Empty | Sixteen | Variable => Field(a.kind, seen, [0, 0])
    case Two | Fourteen => Field(a.kind, seen, [])
    case Counted => Field(a.kind, seen, a.data[Shown(a)..] + Zeros(PadLen(|a.data|, 4)))
  }

  function ItemsOf(a: Sendable): seq<Item> {
    if HasRule(a.kind) then [ItemOf(a)] else []
  }

  function PickItems(hidden: bool): Sendable -> seq<Item> {
    (a: Sendable) => if Hides(a) == hidden then ItemsOf(a) else []
  }

  /** The attributes that travel hidden, or those that do not, in their order. */
  function Items(attrs: seq<Sendable>, hidden: bool): seq<Item> {
    Flatten(PickItems(hidden), attrs)
  }

  function Part(attrs: seq<Sendable>, hidden: bool): seq<Sendable> {
    if attrs == [] then []
    else (if HasRule(attrs[0].kind) && Hides(attrs[0]) == hidden then [attrs[0]] else []) + Part(attrs[1..], hidden)
  }

  function ReadAll(attrs: seq<Sendable>): (r: seq<Attr>)
    ensures |r| == |attrs|
  {
    if attrs == [] then [] else [Read(attrs[0])] + ReadAll(attrs[1..])
  }

  // ----- encoding one attribute

  /** The bytes of a 16-bit value in the memory of a little-endian host. */
  function Stored(v: nat): seq<byte>
    requires v < 0x1_0000
  {
    [v % 256, v / 256]
  }

  function Htons(n: nat): (v: nat)
    requires n < 0x1_0000
    ensures v < 0x1_0000
  {
    n % 256 * 256 + n / 256
  }

  lemma LengthInBytes(n: nat)
    requires n < 1024
    ensures Stored(Htons(n)) == FromU16(n)
  {
    DivModUnique(n % 256, n / 256, 256);
  }

  lemma HtonsParts(h: nat, low: nat, n: nat)
    requires h < 256 && low < 256 && n == 256 * h + low
    ensures Htons(n) == low * 256 + h
  {
    DivModUnique(h, low, 256);
  }

  /** The bits of a length above 256, between 32 and 256, and below 32. */
  lemma LengthParts(n: nat) returns (h: nat, a: nat, b: nat)
    requires n < 1024
    ensures h < 4 && a < 8 && b < 32 && n == 256 * h + 32 * a + b && ResLength(n) == h * 256 + b
  {
    h, a, b := n / 256, n % 256 / 32, n % 256 % 32;
  }

  /** Of the length that is converted to network order first and multiplied then, the
      bits in the middle are lost. */
  lemma LengthInBits(n: nat, swapped: nat, h: nat, a: nat, b: nat)
    requires h < 4 && a < 8 && b < 32 && n == 256 * h + 32 * a + b && swapped == Htons(n)
    ensures swapped * 8 % 0x1_0000 == 2048 * b + 8 * h
  {
    HtonsParts(h, 32 * a + b, n);
    BitsBeforeSwap(h, a, b);
  }

  lemma BitsBeforeSwap(h: nat, a: nat, b: nat)
    requires h < 4 && a < 8 && b < 32
    ensures ((32 * a + b) * 256 + h) * 8 % 0x1_0000 == 2048 * b + 8 * h
  {
    DivModUnique(a, 2048 * b + 8 * h, 0x1_0000);
  }

  lemma BitsAfterSwap(h: nat, b: nat, stored: nat, sent: nat)
    requires h < 4 && b < 32 && stored == 2048 * b + 8 * h && sent == 8 * (h * 256 + b)
    ensures Stored(stored) == FromU16(sent)
  {
    DivModUnique(8 * b, 8 * h, 256);
    DivModUnique(8 * h, 8 * b, 256);
  }

  method EncodeLength(kind: byte, n: nat) returns (b: seq<byte>)
    requires n < 1024
    ensures b == FromU16(Unit(kind) * if kind == AT_RES then ResLength(n) else n)
  {
    if kind == AT_RES {
      b := EncodeBits(n);
    } else {
      LengthInBytes(n);
      b := Stored(Htons(n));
    }
  }

  /** AT_RES uses a length in bits. */
  method EncodeBits(n: nat) returns (b: seq<byte>)
    requires n < 1024
    ensures b == FromU16(8 * ResLength(n))
  {
    var len := Htons(n);
    ghost var high, middle, low := LengthParts(n);
    LengthInBits(n, len, high, middle, low);
    len := len * 8 % 0x1_0000;
    BitsAfterSwap(high, low, len, 8 * ResLength(n));
    b := Stored(len);
  }

  method CountWords(n: nat) returns (words: nat, padding: nat)
    ensures padding == PadLen(n, 4) && 4 * words == n + padding + 4
  {
    words, padding := n / 4 + 1, (4 - n % 4) % 4;
    if padding != 0 {
      words := words + 1;
    }
  }

  lemma CountedBody(a: Sendable)
    requires HasRule(a.kind) && LayoutOf(a.kind) == Counted
    ensures Body(ItemOf(a)) == FromU16(Unit(a.kind) * Shown(a)) + (a.data + Zeros(PadLen(|a.data|, 4)))
  {
    var i := ItemOf(a);
    assert i.data + i.slack == a.data + Zeros(PadLen(|a.data|, 4));
  }

  method EncodeCounted(a: Sendable) returns (s: seq<byte>)
    requires HasRule(a.kind) && LayoutOf(a.kind) == Counted
    ensures s == Print(ItemOf(a))
  {
    CountedBody(a);
    var length := EncodeLength(a.kind, |a.data|);
    var words, padding := CountWords(|a.data|);
    PrintIs(ItemOf(a), words, length + (a.data + Zeros(padding)));
    s := [a.kind, words] + (length + (a.data + Zeros(padding)));
  }

  lemma PrintIs(i: Item, words: nat, body: seq<byte>)
    requires Body(i) == body && 4 * words == |body| + 2
    ensures words < 256 && Print(i) == [i.kind, words] + body
  {
  }

  /** The bytes written for one attribute. */
  method EncodeOne(a: Sendable) returns (s: seq<byte>)
    ensures s == PrintAll(ItemsOf(a))
  {
    if a.kind == AT_IV || a.kind == AT_MAC || a.kind == AT_ENCR_DATA || LayoutOf(a.kind) == Other {
      return [];
    }
    s := EncodeRule(a);
    FlattenOne(Print, ItemOf(a));
  }

  lemma RuleBody(a: Sendable)
    requires HasRule(a.kind) && LayoutOf(a.kind) != Counted
    ensures Body(ItemOf(a)) == match LayoutOf(a.kind)
      case Empty => [0, 0]
      case Two => a.data[..2]
      case Sixteen => [0, 0] + a.data[..16]
      case Fourteen => a.data[..14]
      case Variable => [0, 0] + a.data
  {
  }

  method EncodeRule(a: Sendable) returns (s: seq<byte>)
    requires HasRule(a.kind)
    ensures s == Print(ItemOf(a))
  {
    if LayoutOf(a.kind) == Counted {
      s := EncodeCounted(a);
      return;
    }
    RuleBody(a);
    var words: nat, body;
    match LayoutOf(a.kind) {
      case Empty => words, body := 1, [0, 0];
      case Two => words, body := 1, a.data[..2];
      case Sixteen => words, body := 5, [0, 0] + a.data[..16];
      case Variable => words, body := 1 + |a.data| / 4, [0, 0] + a.data;
      case Fourteen => words, body := 4, a.data[..14];
    }
    PrintIs(ItemOf(a), words, body);
    s := [a.kind, words] + body;
  }

  // ----- encoding all of them

  lemma AddItems(attrs: seq<Sendable>, i: nat, hidden: bool)
    requires i < |attrs|
    ensures PrintAll(Items(attrs[..i + 1], hidden))
      == PrintAll(Items(attrs[..i], hidden)) + if Hides(attrs[i]) == hidden then PrintAll(ItemsOf(attrs[i])) else []
  {
    FlattenUpTo(PickItems(hidden), attrs, i);
    FlattenAppend(Print, Items(attrs[..i], hidden), PickItems(hidden)(attrs[i]));
  }

  /** The loop over the attributes, with its two buffers. */
  method EncodeAll(attrs: seq<Sendable>) returns (out: seq<byte>, encr: seq<byte>)
    ensures out == PrintAll(Items(attrs, false)) && encr == PrintAll(Items(attrs, true))
  {
    out, encr := [], [];
    for i := 0 to |attrs|
      invariant out == PrintAll(Items(attrs[..i], false)) && encr == PrintAll(Items(attrs[..i], true))
    {
      var s := EncodeOne(attrs[i]);
      AddItems(attrs, i, false);
      AddItems(attrs, i, true);
      if Hides(attrs[i]) {
        encr := encr + s;
      } else {
        out := out + s;
      }
    }
    assert attrs[..|attrs|] == attrs;
  }

  // ----- padding

  predicate WordBlocks(blockSize: nat) {
    0 < blockSize <= 512 && blockSize % 4 == 0
  }

  lemma WholeWordsLeft(len: nat, blockSize: nat)
    requires blockSize > 0 && blockSize % 4 == 0 && len % 4 == 0
    ensures (len % blockSize) % 4 == 0
    ensures (len + (blockSize - len % blockSize)) % blockSize == 0
  {
    var q, r := Divided(len, blockSize);
    WordsLeft(q, r, len, blockSize);
    NextBlock(q, r, len, blockSize);
  }

  lemma Divided(n: nat, d: nat) returns (q: nat, r: nat)
    requires d > 0
    ensures r == n % d < d && n == q * d + r
  {
    q, r := n / d, n % d;
  }

  lemma WordsLeft(q: nat, r: nat, len: nat, blockSize: nat)
    requires len == q * blockSize + r && blockSize % 4 == 0 && len % 4 == 0
    ensures r % 4 == 0
  {
    TimesFour(q, blockSize);
    Difference(len, q * blockSize, r);
  }

  lemma Difference(a: nat, b: nat, c: nat)
    requires a == b + c && a % 4 == 0 && b % 4 == 0
    ensures c % 4 == 0
  {
  }

  lemma TimesFour(q: nat, n: nat)
    requires n % 4 == 0
    ensures q * n % 4 == 0
  {
    var m := n / 4;
    assert q * n == (q * m) * 4 + 0;
    DivModUnique(q * m, 0, 4);
  }

  lemma NextBlock(q: nat, r: nat, len: nat, blockSize: nat)
    requires blockSize > 0 && len == q * blockSize + r && r < blockSize
    ensures (len + (blockSize - r)) % blockSize == 0
  {
    assert len + (blockSize - r) == (q + 1) * blockSize + 0;
    DivModUnique(q + 1, 0, blockSize);
  }

  /** How much is missing to whole blocks, a block if nothing is. */
  function Missing(len: nat, blockSize: nat): (n: nat)
    requires WordBlocks(blockSize) && len % 4 == 0
    ensures 4 <= n <= blockSize && n % 4 == 0 && (len + n) % blockSize == 0
  {
    WholeWordsLeft(len, blockSize);
    blockSize - len % blockSize
  }

  /** The padding attribute. */
  function PaddingItem(n: nat): (i: Item)
    requires 4 <= n <= 512 && n % 4 == 0
    ensures i.kind == AT_PADDING && Print(i) == [AT_PADDING, n / 4] + Zeros(n - 2)
  {
    Field(AT_PADDING, Zeros(n - 2), [])
  }

  /** The hidden stream with its padding. */
  function Padded(hidden: seq<byte>, blockSize: nat): (plain: seq<byte>)
    requires WordBlocks(blockSize) && |hidden| % 4 == 0
    ensures |plain| == |hidden| + Missing(|hidden|, blockSize)
    ensures |plain| % blockSize == 0 && |plain| % 4 == 0 && plain != []
  {
    var n := Missing(|hidden|, blockSize);
    var plain := hidden + ([AT_PADDING, n / 4] + Zeros(n - 2));
    assert |plain| == |hidden| + n;
    WordsAddUp(|hidden|, n);
    plain
  }

  lemma WordsAddUp(a: nat, b: nat)
    requires a % 4 == 0 && b % 4 == 0
    ensures (a + b) % 4 == 0
  {
  }

  method Pad(encr: seq<byte>, blockSize: nat) returns (plain: seq<byte>)
    requires WordBlocks(blockSize) && |encr| % 4 == 0
    ensures plain == Padded(encr, blockSize)
  {
    ghost var missing := Missing(|encr|, blockSize);
    var padding: nat := blockSize - |encr| % blockSize;
    plain := encr + ([AT_PADDING, padding / 4] + Zeros(padding - 2));
  }

  /** Section 10.12 of RFC 4187: padding where it is needed, of 4, 8 or 12 bytes. The
      code keeps to that exactly if the blocks are not full already. */
  lemma PaddingTheorem(len: nat, blockSize: nat)
    requires WordBlocks(blockSize) && len % 4 == 0
    ensures |Print(PaddingItem(Missing(len, blockSize)))| == Missing(len, blockSize)
    ensures Missing(len, blockSize) == blockSize <==> len % blockSize == 0
    ensures blockSize == 16 ==>
      (Missing(len, 16) == 4 || Missing(len, 16) == 8 || Missing(len, 16) == 12 <==> len % 16 != 0)
  {
    var n := Missing(len, blockSize);
    assert |Print(PaddingItem(n))| == |[AT_PADDING, n / 4] + Zeros(n - 2)|;
  }

  /** A counter, a nonce and a short identity fill two blocks of 16 bytes, and get a
      third one of padding. */
  lemma FullBlocksArePadded(counter: seq<byte>, nonce: seq<byte>, id: seq<byte>)
    requires |counter| == 2 && |nonce| == 16 && |id| == 4
    ensures var attrs: seq<Sendable> :=
        [Attr(AT_COUNTER, counter), Attr(AT_NONCE_S, nonce), Attr(AT_NEXT_REAUTH_ID, id)];
      |PrintAll(Items(attrs, true))| == 32 && Missing(|PrintAll(Items(attrs, true))|, 16) == 16
  {
    var a: Sendable, b: Sendable := Attr(AT_COUNTER, counter), Attr(AT_NONCE_S, nonce);
    var c: Sendable := Attr(AT_NEXT_REAUTH_ID, id);
    HiddenThree(a, b, c);
    PrintSizes(a, b, c);
  }

  lemma PrintSizes(a: Sendable, b: Sendable, c: Sendable)
    requires a.kind == AT_COUNTER && b.kind == AT_NONCE_S && c.kind == AT_NEXT_REAUTH_ID
    requires |a.data| == 2 && |b.data| == 16 && |c.data| == 4
    ensures |Print(ItemOf(a))| == 4 && |Print(ItemOf(b))| == 20 && |Print(ItemOf(c))| == 8
  {
    assert |Print(ItemOf(a))| == 4 by {
      RuleBody(a);
    }
    assert |Print(ItemOf(b))| == 20 by {
      RuleBody(b);
    }
    assert |Print(ItemOf(c))| == 8 by {
      CountedBody(c);
    }
  }

  lemma HiddenThree(a: Sendable, b: Sendable, c: Sendable)
    requires HasRule(a.kind) && HasRule(b.kind) && HasRule(c.kind) && Hides(a) && Hides(b) && Hides(c)
    ensures PrintAll(Items([a, b, c], true)) == Print(ItemOf(a)) + Print(ItemOf(b)) + Print(ItemOf(c))
  {
    FlattenThree(PickItems(true), a, b, c);
    assert Items([a, b, c], true) == [ItemOf(a), ItemOf(b), ItemOf(c)];
    FlattenThree(Print, ItemOf(a), ItemOf(b), ItemOf(c));
  }

  // ----- the whole message

  /** A message to be generated: its header, the attributes, and what is needed to hide
      and to sign. */
  datatype Draft = Draft(
    hdr: seq<byte>, attrs: seq<Sendable>, crypter: Crypter, iv: seq<byte>, signer: Signer, sigdata: seq<byte>)

  ghost predicate Usable(d: Draft) {
    && |d.hdr| >= 8
    && SoundCrypter(d.crypter) && WordBlocks(d.crypter.blockSize) && |d.iv| == d.crypter.ivSize == 16
    && SoundSigner(d.signer) && d.signer.blockSize == 16
  }

  /** The encrypted data: nothing, if nothing is hidden. */
  ghost function Encrypted(c: Crypter, iv: seq<byte>, hidden: seq<byte>): (data: seq<byte>)
    requires SoundCrypter(c) && WordBlocks(c.blockSize) && |hidden| % 4 == 0
    ensures |data| % 4 == 0 && |data| % c.blockSize == 0 && (data == [] <==> hidden == [])
    ensures |data| <= |Padded(hidden, c.blockSize)|
  {
    if hidden == [] then [] else c.encrypt(Padded(hidden, c.blockSize), iv)
  }

  ghost function SealedData(d: Draft): (data: seq<byte>)
    requires Usable(d)
    ensures |data| % 4 == 0
  {
    Encrypted(d.crypter, d.iv, PrintAll(Items(d.attrs, true)))
  }

  /** AT_IV and AT_ENCR_DATA around some data. */
  function SealedItems(iv: seq<byte>, data: seq<byte>): seq<Item>
    requires |iv| == 16 && |data| % 4 == 0 && |data| <= 1016
  {
    if data == [] then [] else [Field(AT_IV, iv, [0, 0]), Field(AT_ENCR_DATA, data, [0, 0])]
  }

  function SealedBytes(iv: seq<byte>, data: seq<byte>): seq<byte>
    requires |data| <= 1016
  {
    if data == [] then [] else [AT_IV, 5, 0, 0] + iv + ([AT_ENCR_DATA, |data| / 4 + 1, 0, 0] + data)
  }

  function MacItems(subtype: byte, mac: seq<byte>): seq<Item>
    requires |mac| == 16
  {
    if NeedsMac(subtype) then [Field(AT_MAC, mac, [0, 0])] else []
  }

  function MacBytes(subtype: byte, mac: seq<byte>): seq<byte> {
    if NeedsMac(subtype) then [AT_MAC, 5, 0, 0] + mac else []
  }

  lemma PrintReserved(i: Item)
    requires LayoutOf(i.kind) == Sixteen || LayoutOf(i.kind) == Variable
    requires i.slack == [0, 0]
    ensures Print(i) == [i.kind, |i.data| / 4 + 1, 0, 0] + i.data
  {
    PrintIs(i, |i.data| / 4 + 1, [0, 0] + i.data);
  }

  lemma PrintSealed(iv: seq<byte>, data: seq<byte>)
    requires |iv| == 16 && |data| % 4 == 0 && |data| <= 1016
    ensures PrintAll(SealedItems(iv, data)) == SealedBytes(iv, data)
  {
    if data != [] {
      var a: Item, b: Item := Field(AT_IV, iv, [0, 0]), Field(AT_ENCR_DATA, data, [0, 0]);
      assert SealedItems(iv, data) == [a] + [b];
      FlattenAppend(Print, [a], [b]);
      FlattenOne(Print, a);
      FlattenOne(Print, b);
      PrintReserved(a);
      PrintReserved(b);
    }
  }

  lemma PrintMac(subtype: byte, mac: seq<byte>)
    requires |mac| == 16
    ensures PrintAll(MacItems(subtype, mac)) == MacBytes(subtype, mac)
  {
    if NeedsMac(subtype) {
      FlattenOne(Print, MacItems(subtype, mac)[0]);
      PrintReserved(MacItems(subtype, mac)[0]);
    }
  }

  /** Everything before the MAC. */
  ghost function Unsigned(d: Draft): seq<byte>
    requires Usable(d) && |SealedData(d)| <= 1016
  {
    PrintAll(Items(d.attrs, false)) + SealedBytes(d.iv, SealedData(d))
  }

  /** The buffers of 512 and 1024 bytes are large enough. */
  ghost predicate Fits(d: Draft) {
    && Usable(d) && |Padded(PrintAll(Items(d.attrs, true)), d.crypter.blockSize)| <= 512
    && 8 + |Unsigned(d)| + |MacBytes(d.hdr[5], Zeros(16))| <= 1024
  }

  function Framed(hdr: seq<byte>, body: seq<byte>): (s: seq<byte>)
    requires |hdr| >= 8
    ensures |s| == 8 + |body| && s[8..] == body && s[4..8] == hdr[4..8] && s[..2] == hdr[..2] && s[5] == hdr[5]
    ensures |s| < 0x1_0000 ==> U16(s[2], s[3]) == |s|
  {
    Patched(hdr[..8] + body, 2, FromU16(8 + |body|))
  }

  /** The MAC of the message with zeros in its place. */
  ghost function MacOf(d: Draft): (mac: seq<byte>)
    requires Fits(d)
    ensures |mac| == 16
  {
    d.signer.mac(Framed(d.hdr, Unsigned(d) + MacBytes(d.hdr[5], Zeros(16))) + d.sigdata)
  }

  ghost function Generated(d: Draft): (g: seq<byte>)
    requires Fits(d)
    ensures 8 <= |g| <= 1024 && U16(g[2], g[3]) == |g| && g[4..8] == d.hdr[4..8] && g[..2] == d.hdr[..2]
  {
    Framed(d.hdr, Unsigned(d) + MacBytes(d.hdr[5], MacOf(d)))
  }

  /** Pads and encrypts what is hidden, and writes it after its IV. */
  method Seal(encr: seq<byte>, c: Crypter, iv: seq<byte>) returns (s: seq<byte>)
    requires SoundCrypter(c) && WordBlocks(c.blockSize) && |iv| == c.ivSize == 16
    requires |encr| % 4 == 0 && |Padded(encr, c.blockSize)| <= 512
    ensures s == SealedBytes(iv, Encrypted(c, iv, encr))
  {
    if encr == [] {
      return [];
    }
    var plain := Pad(encr, c.blockSize);
    var data := c.encrypt(plain, iv);
    assert data == Encrypted(c, iv, encr);
    assert |data| == |plain|;
    s := [AT_IV, |iv| / 4 + 1, 0, 0] + iv + ([AT_ENCR_DATA, |data| / 4 + 1, 0, 0] + data);
  }

  lemma PatchMac(hdr: seq<byte>, before: seq<byte>, blank: seq<byte>, mac: seq<byte>)
    requires |hdr| >= 8 && |blank| == |mac| == 16
    ensures var s := Framed(hdr, before + ([AT_MAC, 5, 0, 0] + blank));
      Patched(s, |s| - 16, mac) == Framed(hdr, before + ([AT_MAC, 5, 0, 0] + mac))
  {
  }

  /** Adds the MAC, if there is one, and the length. */
  method Finish(hdr: seq<byte>, body: seq<byte>, signer: Signer, sigdata: seq<byte>) returns (gen: seq<byte>)
    requires |hdr| >= 8 && SoundSigner(signer) && signer.blockSize == 16
    ensures var blank := Framed(hdr, body + MacBytes(hdr[5], Zeros(16)));
      gen == Framed(hdr, body + MacBytes(hdr[5], signer.mac(blank + sigdata)))
  {
    var out := body;
    if NeedsMac(hdr[5]) {
      out := out + ([AT_MAC, signer.blockSize / 4 + 1, 0, 0] + Zeros(signer.blockSize));
    }
    assert out == body + MacBytes(hdr[5], Zeros(16));
    gen := Patched(hdr[..8] + out, 2, FromU16(8 + |out|));
    if NeedsMac(hdr[5]) {
      var mac := signer.mac(gen + sigdata);
      PatchMac(hdr, body, Zeros(16), mac);
      gen := Patched(gen, |gen| - 16, mac);
    }
  }

  method Generate(d: Draft) returns (gen: seq<byte>)
    requires Fits(d)
    ensures gen == Generated(d)
  {
    var out, encr := EncodeAll(d.attrs);
    var hidden := Seal(encr, d.crypter, d.iv);
    gen := Finish(d.hdr, out + hidden, d.signer, d.sigdata);
  }

  // ----- what a receiver takes from printed attributes

  type Taker = (View, Item, nat) -> Option<View>
  type Printer = Item -> seq<byte>

  /** Taking one attribute after the other, each at its place. */
  function TakeAll(p: Printer, g: Taker, v: View, items: seq<Item>, at: nat): Option<View>
    decreases |items|
  {
    if items == [] then Some(v)
    else match g(v, items[0], at)
      case None => None
      case Some(w) => TakeAll(p, g, w, items[1..], at + |p(items[0])|)
  }

  lemma {:induction false} TakeAppend(p: Printer, g: Taker, v: View, a: seq<Item>, b: seq<Item>, at: nat)
    ensures var w := TakeAll(p, g, v, a, at);
      TakeAll(p, g, v, a + b, at) == if w == None then None else TakeAll(p, g, w.value, b, at + |Flatten(p, a)|)
    decreases |a|
  {
    if a == [] {
      assert a + b == b;
    } else {
      assert (a + b)[0] == a[0] && (a + b)[1..] == a[1..] + b;
      var w, next := g(v, a[0], at), at + |p(a[0])|;
      if w.Some? {
        assert TakeAll(p, g, v, a, at) == TakeAll(p, g, w.value, a[1..], next);
        assert TakeAll(p, g, v, a + b, at) == TakeAll(p, g, w.value, a[1..] + b, next);
        TakeAppend(p, g, w.value, a[1..], b, next);
        assert at + |Flatten(p, a)| == next + |Flatten(p, a[1..])|;
      }
    }
  }

  lemma TakeOne(p: Printer, g: Taker, v: View, i: Item, at: nat)
    ensures TakeAll(p, g, v, [i], at) == g(v, i, at)
  {
    var one := [i];
    assert one[1..] == [];
    var w := g(v, i, at);
    assert w.Some? ==> TakeAll(p, g, w.value, one[1..], at + |p(i)|) == w;
  }

  /** The step takes a printed attribute. */
  ghost predicate Matches(p: Printer, f: Stepper, g: Taker) {
    && (forall i: Item :: |p(i)| > 0)
    && forall v: View, i: Item, rest: seq<byte>, at: nat {:trigger f(v, p(i) + rest, at)} ::
         f(v, p(i) + rest, at) == Then(g(v, i, at), rest)
  }

  lemma {:induction false} IteratePrinted(p: Printer, f: Stepper, g: Taker, v: View, items: seq<Item>, at: nat)
    requires Matches(p, f, g)
    ensures Iterate(f, v, Flatten(p, items), at) == TakeAll(p, g, v, items, at)
    decreases |items|
  {
    if items != [] {
      var rest := Flatten(p, items[1..]);
      assert f(v, p(items[0]) + rest, at) == Then(g(v, items[0], at), rest);
      var w := g(v, items[0], at);
      if w.Some? {
        IteratePrinted(p, f, g, w.value, items[1..], at + |p(items[0])|);
      }
    }
  }

  lemma {:induction false} MeetsPrinted(p: Printer, f: Stepper, fine: seq<byte> -> bool, g: Taker, v: View,
                                        items: seq<Item>, at: nat)
    requires Matches(p, f, g)
    requires forall k, rest: seq<byte> | 0 <= k < |items| :: fine(p(items[k]) + rest)
    ensures Meets(f, fine, v, Flatten(p, items), at)
    decreases |items|
  {
    if items != [] {
      var rest := Flatten(p, items[1..]);
      assert fine(p(items[0]) + rest);
      assert f(v, p(items[0]) + rest, at) == Then(g(v, items[0], at), rest);
      forall k, r: seq<byte> | 0 <= k < |items[1..]| ensures fine(p(items[1..][k]) + r) {
        assert fine(p(items[k + 1]) + r);
      }
      var w := g(v, items[0], at);
      if w.Some? {
        MeetsPrinted(p, f, fine, g, w.value, items[1..], at + |p(items[0])|);
      }
    }
  }

  function TakeItem(v: View, i: Item, at: nat, encrypted: bool): Option<View> {
    if Unwelcome(i.kind, encrypted) then None else Absorb(v, AttrOf(i), at, encrypted)
  }

  function Take(encrypted: bool): Taker {
    (v: View, i: Item, at: nat) => TakeItem(v, i, at, encrypted)
  }

  lemma NextPrinted(v: View, i: Item, rest: seq<byte>, at: nat, encrypted: bool)
    ensures ParseNext(v, Print(i) + rest, at, encrypted) == Then(TakeItem(v, i, at, encrypted), rest)
  {
    ReadPrinted(i, rest);
    assert (Print(i) + rest)[0] == i.kind;
  }

  lemma NextMatches(encrypted: bool)
    ensures Matches(Print, Next(encrypted), Take(encrypted))
  {
    forall v: View, i: Item, rest: seq<byte>, at: nat
      ensures Next(encrypted)(v, Print(i) + rest, at) == Then(Take(encrypted)(v, i, at), rest)
    {
      NextPrinted(v, i, rest, at, encrypted);
    }
  }

  /** Parsing printed attributes is taking them one by one. */
  lemma ParsePrinted(v: View, items: seq<Item>, at: nat, encrypted: bool)
    ensures ParseBytes(v, PrintAll(items), at, encrypted) == TakeAll(Print, Take(encrypted), v, items, at)
  {
    NextMatches(encrypted);
    IteratePrinted(Print, Next(encrypted), Take(encrypted), v, items, at);
  }

  predicate Ordinary(kind: byte) {
    kind != AT_MAC && kind != AT_IV && kind != AT_ENCR_DATA
  }

  lemma FinePrinted(i: Item, rest: seq<byte>, encrypted: bool)
    requires encrypted ==> Ordinary(i.kind)
    ensures NextInBounds(Print(i) + rest, encrypted)
  {
    ReadPrinted(i, rest);
    assert (Print(i) + rest)[0] == i.kind;
  }

  /** Printed attributes are in bounds, those in encrypted data if they are ordinary. */
  lemma PrintedInBounds(v: View, items: seq<Item>, at: nat, encrypted: bool)
    requires encrypted ==> forall k | 0 <= k < |items| :: Ordinary(items[k].kind)
    ensures InBounds(v, PrintAll(items), at, encrypted)
  {
    NextMatches(encrypted);
    forall k, rest: seq<byte> | 0 <= k < |items| ensures Fine(encrypted)(Print(items[k]) + rest) {
      FinePrinted(items[k], rest, encrypted);
    }
    MeetsPrinted(Print, Next(encrypted), Fine(encrypted), Take(encrypted), v, items, at);
  }

  // ----- parsing what was generated

  predicate HidesNotification(attrs: seq<Sendable>) {
    attrs != [] && ((attrs[0].kind == AT_NOTIFICATION && Hides(attrs[0])) || HidesNotification(attrs[1..]))
  }

  /** The state after the attributes of one part. */
  function Taken(v: View, attrs: seq<Sendable>, hidden: bool): View {
    v.(attrs := v.attrs + ReadAll(Part(attrs, hidden)), pBit := v.pBit && !(hidden && HidesNotification(attrs)))
  }

  function TakenOne(v: View, a: Sendable, hidden: bool): View {
    v.(attrs := v.attrs + (if HasRule(a.kind) then [Read(a)] else []),
       pBit := v.pBit && !(hidden && a.kind == AT_NOTIFICATION))
  }

  lemma TakeRule(v: View, a: Sendable, at: nat, hidden: bool)
    requires Hides(a) == hidden && (hidden || v.pBit) && HasRule(a.kind)
    ensures TakeItem(v, ItemOf(a), at, hidden) == Some(TakenOne(v, a, hidden))
  {
  }

  lemma TakeAttr(v: View, a: Sendable, at: nat, hidden: bool)
    requires Hides(a) == hidden && (hidden || v.pBit)
    ensures TakeAll(Print, Take(hidden), v, ItemsOf(a), at) == Some(TakenOne(v, a, hidden))
  {
    if HasRule(a.kind) {
      TakeRule(v, a, at, hidden);
      TakeOne(Print, Take(hidden), v, ItemOf(a), at);
    } else {
      assert v.attrs + [] == v.attrs;
    }
  }

  lemma TakenStep(v: View, attrs: seq<Sendable>, hidden: bool)
    requires attrs != [] && Hides(attrs[0]) == hidden
    ensures Taken(TakenOne(v, attrs[0], hidden), attrs[1..], hidden) == Taken(v, attrs, hidden)
  {
    var first := if HasRule(attrs[0].kind) then [Read(attrs[0])] else [];
    PartStep(attrs, hidden);
    AddAll(v.attrs, first, ReadAll(Part(attrs[1..], hidden)));
  }

  lemma AddAll(a: seq<Attr>, b: seq<Attr>, c: seq<Attr>)
    ensures a + b + c == a + (b + c)
  {
  }

  lemma TakenSkip(v: View, attrs: seq<Sendable>, hidden: bool)
    requires attrs != [] && Hides(attrs[0]) != hidden
    ensures Taken(v, attrs[1..], hidden) == Taken(v, attrs, hidden) && Items(attrs, hidden) == Items(attrs[1..], hidden)
  {
    PickFirst(attrs, hidden);
    assert Part(attrs, hidden) == Part(attrs[1..], hidden);
  }

  lemma PartStep(attrs: seq<Sendable>, hidden: bool)
    requires attrs != []
    ensures ReadAll(Part(attrs, hidden))
      == (if HasRule(attrs[0].kind) && Hides(attrs[0]) == hidden then [Read(attrs[0])] else [])
         + ReadAll(Part(attrs[1..], hidden))
  {
    var rest := Part(attrs[1..], hidden);
    if HasRule(attrs[0].kind) && Hides(attrs[0]) == hidden {
      ReadCons(attrs[0], rest);
    } else {
      assert Part(attrs, hidden) == rest;
    }
  }

  lemma ReadCons(a: Sendable, rest: seq<Sendable>)
    ensures ReadAll([a] + rest) == [Read(a)] + ReadAll(rest)
  {
    assert ([a] + rest)[1..] == rest;
  }

  lemma PickFirst(attrs: seq<Sendable>, hidden: bool)
    requires attrs != []
    ensures Items(attrs, hidden)
      == (if Hides(attrs[0]) == hidden then ItemsOf(attrs[0]) else []) + Items(attrs[1..], hidden)
  {
  }

  /** Each attribute that belongs to the part is taken. */
  ghost predicate TakesEach(p: Printer, g: Taker, hidden: bool) {
    forall v: View, a: Sendable, at: nat {:trigger TakeAll(p, g, v, ItemsOf(a), at)} ::
      Hides(a) == hidden && (hidden || v.pBit) ==> TakeAll(p, g, v, ItemsOf(a), at) == Some(TakenOne(v, a, hidden))
  }

  lemma TakeTwo(p: Printer, g: Taker, v: View, a: seq<Item>, b: seq<Item>, at: nat, w: View, x: View)
    requires TakeAll(p, g, v, a, at) == Some(w) && TakeAll(p, g, w, b, at + |Flatten(p, a)|) == Some(x)
    ensures TakeAll(p, g, v, a + b, at) == Some(x)
  {
    TakeAppend(p, g, v, a, b, at);
  }

  lemma TakeOneOf(p: Printer, g: Taker, v: View, a: Sendable, at: nat, hidden: bool)
    requires TakesEach(p, g, hidden) && Hides(a) == hidden && (hidden || v.pBit)
    ensures TakeAll(p, g, v, ItemsOf(a), at) == Some(TakenOne(v, a, hidden))
  {
  }

  lemma {:induction false} TakeEach(p: Printer, g: Taker, v: View, attrs: seq<Sendable>, at: nat, hidden: bool)
    requires TakesEach(p, g, hidden) && (hidden || v.pBit)
    ensures TakeAll(p, g, v, Items(attrs, hidden), at) == Some(Taken(v, attrs, hidden))
    decreases |attrs|
  {
    if attrs == [] {
      assert v.attrs + [] == v.attrs;
    } else {
      var a, rest := attrs[0], attrs[1..];
      PickFirst(attrs, hidden);
      if Hides(a) == hidden {
        TakenStep(v, attrs, hidden);
        var w, first := TakenOne(v, a, hidden), ItemsOf(a);
        TakeOneOf(p, g, v, a, at, hidden);
        TakeEach(p, g, w, rest, at + |Flatten(p, first)|, hidden);
        TakeTwo(p, g, v, first, Items(rest, hidden), at, w, Taken(v, attrs, hidden));
      } else {
        TakenSkip(v, attrs, hidden);
        TakeEach(p, g, v, rest, at, hidden);
      }
    }
  }

  lemma TakePart(v: View, attrs: seq<Sendable>, at: nat, hidden: bool)
    requires hidden || v.pBit
    ensures TakeAll(Print, Take(hidden), v, Items(attrs, hidden), at) == Some(Taken(v, attrs, hidden))
  {
    forall v: View, a: Sendable, at: nat | Hides(a) == hidden && (hidden || v.pBit)
      ensures TakeAll(Print, Take(hidden), v, ItemsOf(a), at) == Some(TakenOne(v, a, hidden))
    {
      TakeAttr(v, a, at, hidden);
    }
    TakeEach(Print, Take(hidden), v, attrs, at, hidden);
  }

  function Unsealed(v: View, iv: seq<byte>, data: seq<byte>): View {
    if data == [] then v else v.(iv := iv, encr := data)
  }

  lemma TakeSealed(v: View, iv: seq<byte>, data: seq<byte>, at: nat)
    requires |iv| == 16 && |data| % 4 == 0 && |data| <= 1016
    ensures TakeAll(Print, Take(false), v, SealedItems(iv, data), at) == Some(Unsealed(v, iv, data))
  {
    if data != [] {
      var a: Item, b: Item := Field(AT_IV, iv, [0, 0]), Field(AT_ENCR_DATA, data, [0, 0]);
      TakeOne(Print, Take(false), v, a, at);
      TakeAppend(Print, Take(false), v, [a], [b], at);
      TakeOne(Print, Take(false), v.(iv := iv), b, at + |Flatten(Print, [a])|);
      assert SealedItems(iv, data) == [a] + [b];
    }
  }

  function WithMac(v: View, subtype: byte, at: nat): View {
    if NeedsMac(subtype) then v.(mac := Some(at + 4)) else v
  }

  lemma TakeMac(v: View, subtype: byte, mac: seq<byte>, at: nat)
    requires |mac| == 16
    ensures TakeAll(Print, Take(false), v, MacItems(subtype, mac), at) == Some(WithMac(v, subtype, at))
  {
    if NeedsMac(subtype) {
      TakeOne(Print, Take(false), v, MacItems(subtype, mac)[0], at);
    }
  }

  function ClearPart(attrs: seq<Sendable>): View {
    Fresh.(attrs := ReadAll(Part(attrs, false)))
  }

  /** Before decryption: the clear attributes, and what it takes for the rest; `n` is
      where the MAC goes. */
  function ClearView(subtype: byte, attrs: seq<Sendable>, iv: seq<byte>, data: seq<byte>, n: nat): View {
    WithMac(Unsealed(ClearPart(attrs), iv, data), subtype, n)
  }

  lemma TakeThree(p: Printer, g: Taker, v: View, a: seq<Item>, b: seq<Item>, m: seq<Item>, at: nat,
                  w: View, x: View, y: View)
    requires TakeAll(p, g, v, a, at) == Some(w) && TakeAll(p, g, w, b, at + |Flatten(p, a)|) == Some(x)
    requires TakeAll(p, g, x, m, at + |Flatten(p, a)| + |Flatten(p, b)|) == Some(y)
    ensures TakeAll(p, g, v, a + (b + m), at) == Some(y)
  {
    TakeTwo(p, g, w, b, m, at + |Flatten(p, a)|, x, y);
    TakeTwo(p, g, v, a, b + m, at, w, y);
  }

  lemma TakeClearPart(attrs: seq<Sendable>, at: nat)
    ensures TakeAll(Print, Take(false), Fresh, Items(attrs, false), at) == Some(ClearPart(attrs))
  {
    TakePart(Fresh, attrs, at, false);
    assert Fresh.attrs + ReadAll(Part(attrs, false)) == ReadAll(Part(attrs, false));
  }

  ghost predicate TakesSealed(p: Printer, g: Taker, iv: seq<byte>, data: seq<byte>, items: seq<Item>) {
    forall v: View, at: nat :: TakeAll(p, g, v, items, at) == Some(Unsealed(v, iv, data))
  }

  ghost predicate TakesMac(p: Printer, g: Taker, subtype: byte, items: seq<Item>) {
    forall v: View, at: nat :: TakeAll(p, g, v, items, at) == Some(WithMac(v, subtype, at))
  }

  /** The three groups of attributes in the clear, one after the other. */
  lemma TakeGroups(p: Printer, g: Taker, attrs: seq<Sendable>, a: seq<Item>, b: seq<Item>, m: seq<Item>,
                   iv: seq<byte>, data: seq<byte>, subtype: byte, at: nat, end: nat)
    requires TakeAll(p, g, Fresh, a, at) == Some(ClearPart(attrs))
    requires TakesSealed(p, g, iv, data, b) && TakesMac(p, g, subtype, m)
    requires end == at + |Flatten(p, a)| + |Flatten(p, b)|
    ensures TakeAll(p, g, Fresh, a + (b + m), at) == Some(ClearView(subtype, attrs, iv, data, end))
  {
    var v := ClearPart(attrs);
    var w := Unsealed(v, iv, data);
    TakeThree(p, g, Fresh, a, b, m, at, v, w, WithMac(w, subtype, end));
  }

  lemma SealedIsTaken(iv: seq<byte>, data: seq<byte>)
    requires |iv| == 16 && |data| % 4 == 0 && |data| <= 1016
    ensures TakesSealed(Print, Take(false), iv, data, SealedItems(iv, data))
  {
    forall v: View, at: nat
      ensures TakeAll(Print, Take(false), v, SealedItems(iv, data), at) == Some(Unsealed(v, iv, data))
    {
      TakeSealed(v, iv, data, at);
    }
  }

  lemma MacIsTaken(subtype: byte, mac: seq<byte>)
    requires |mac| == 16
    ensures TakesMac(Print, Take(false), subtype, MacItems(subtype, mac))
  {
    forall v: View, at: nat
      ensures TakeAll(Print, Take(false), v, MacItems(subtype, mac), at) == Some(WithMac(v, subtype, at))
    {
      TakeMac(v, subtype, mac, at);
    }
  }

  /** Items that stand for the sealed data and for the MAC. */
  ghost predicate Groups(d: Draft, b: seq<Item>, m: seq<Item>)
    requires Fits(d)
  {
    && TakesSealed(Print, Take(false), d.iv, SealedData(d), b) && PrintAll(b) == SealedBytes(d.iv, SealedData(d))
    && TakesMac(Print, Take(false), d.hdr[5], m) && PrintAll(m) == MacBytes(d.hdr[5], MacOf(d))
  }

  lemma SomeGroups(d: Draft) returns (b: seq<Item>, m: seq<Item>)
    requires Fits(d)
    ensures Groups(d, b, m)
  {
    b, m := SealedItems(d.iv, SealedData(d)), MacItems(d.hdr[5], MacOf(d));
    SealedIsTaken(d.iv, SealedData(d));
    PrintSealed(d.iv, SealedData(d));
    MacIsTaken(d.hdr[5], MacOf(d));
    PrintMac(d.hdr[5], MacOf(d));
  }

  lemma FlattenParts(p: Printer, a: seq<Item>, b: seq<Item>, m: seq<Item>)
    ensures Flatten(p, a + (b + m)) == Flatten(p, a) + Flatten(p, b) + Flatten(p, m)
  {
    FlattenAppend(p, a, b + m);
    FlattenAppend(p, b, m);
  }

  // ----- the hidden part

  ghost function HiddenItems(attrs: seq<Sendable>, blockSize: nat): seq<Item>
    requires WordBlocks(blockSize)
  {
    Items(attrs, true) + [PaddingItem(Missing(|PrintAll(Items(attrs, true))|, blockSize))]
  }

  lemma HiddenBytes(attrs: seq<Sendable>, blockSize: nat)
    requires WordBlocks(blockSize)
    ensures PrintAll(HiddenItems(attrs, blockSize)) == Padded(PrintAll(Items(attrs, true)), blockSize)
  {
    var items := Items(attrs, true);
    var pad := PaddingItem(Missing(|PrintAll(items)|, blockSize));
    FlattenAppend(Print, items, [pad]);
    FlattenOne(Print, pad);
  }

  lemma {:induction false} OrdinaryItems(attrs: seq<Sendable>, hidden: bool)
    ensures forall i | 0 <= i < |Items(attrs, hidden)| :: Ordinary(Items(attrs, hidden)[i].kind)
  {
    if attrs != [] {
      PickFirst(attrs, hidden);
      OrdinaryItems(attrs[1..], hidden);
    }
  }

  lemma TakeHidden(v: View, attrs: seq<Sendable>, blockSize: nat)
    requires WordBlocks(blockSize)
    ensures TakeAll(Print, Take(true), v, HiddenItems(attrs, blockSize), 0) == Some(Taken(v, attrs, true))
  {
    var items := Items(attrs, true);
    var pad := PaddingItem(Missing(|PrintAll(items)|, blockSize));
    TakePart(v, attrs, 0, true);
    TakeAppend(Print, Take(true), v, items, [pad], 0);
    TakeOne(Print, Take(true), Taken(v, attrs, true), pad, |Flatten(Print, items)|);
  }

  lemma {:induction false} NothingHidden(attrs: seq<Sendable>)
    requires Items(attrs, true) == []
    ensures Part(attrs, true) == [] && !HidesNotification(attrs)
  {
    if attrs != [] {
      PickFirst(attrs, true);
      NothingHidden(attrs[1..]);
    }
  }

  /** Decrypting gives back the padded stream. */
  lemma DecryptsBack(c: Crypter, iv: seq<byte>, attrs: seq<Sendable>)
    requires SoundCrypter(c) && WordBlocks(c.blockSize) && |iv| == c.ivSize && Items(attrs, true) != []
    ensures c.decrypt(Encrypted(c, iv, PrintAll(Items(attrs, true))), iv) == PrintAll(HiddenItems(attrs, c.blockSize))
  {
    HiddenBytes(attrs, c.blockSize);
  }

  lemma ParseHiddenPart(v: View, attrs: seq<Sendable>, c: Crypter, iv: seq<byte>)
    requires SoundCrypter(c) && WordBlocks(c.blockSize) && |iv| == c.ivSize == 16
    requires v.encr == Encrypted(c, iv, PrintAll(Items(attrs, true))) && v.iv == if v.encr == [] then [] else iv
    ensures HiddenInBounds(v, Some(c)) && ParseHidden(v, Some(c)) == Some(Taken(v, attrs, true))
  {
    if Items(attrs, true) == [] {
      NothingHidden(attrs);
      assert v.attrs + [] == v.attrs;
    } else {
      var items := HiddenItems(attrs, c.blockSize);
      DecryptsBack(c, iv, attrs);
      OrdinaryItems(attrs, true);
      PrintedInBounds(v, items, 0, true);
      ParsePrinted(v, items, 0, true);
      TakeHidden(v, attrs, c.blockSize);
    }
  }

  // ----- the main results

  /** What parsing gives after generating: the clear attributes, then the hidden ones,
      each in their order. */
  lemma ParseAfterGenerate(d: Draft)
    requires Fits(d)
    ensures var body, v := Generated(d)[8..], ReceivedClear(d);
      && InBounds(Fresh, body, 8, false) && ParseClear(Fresh, body) == Some(v) && HiddenInBounds(v, Some(d.crypter))
      && ParseAll(Fresh, Some(d.crypter), body) == Some(v.(
        attrs := ReadAll(Part(d.attrs, false)) + ReadAll(Part(d.attrs, true)), pBit := !HidesNotification(d.attrs)))
  {
    var b, m := SomeGroups(d);
    FlattenParts(Print, Items(d.attrs, false), b, m);
    ParseClearPart(d, b, m);
    ParseHiddenPart(ReceivedClear(d), d.attrs, d.crypter, d.iv);
  }

  /** What is known before decryption. */
  ghost function ReceivedClear(d: Draft): View
    requires Fits(d)
  {
    ClearView(d.hdr[5], d.attrs, d.iv, SealedData(d), 8 + |Unsigned(d)|)
  }

  lemma UnsignedSize(d: Draft, b: seq<Item>, m: seq<Item>)
    requires Fits(d) && Groups(d, b, m)
    ensures |Unsigned(d)| == |Flatten(Print, Items(d.attrs, false))| + |Flatten(Print, b)|
  {
  }

  lemma ParseClearPart(d: Draft, b: seq<Item>, m: seq<Item>)
    requires Fits(d) && Groups(d, b, m)
    ensures var s := PrintAll(Items(d.attrs, false) + (b + m));
      InBounds(Fresh, s, 8, false) && ParseClear(Fresh, s) == Some(ReceivedClear(d))
  {
    var items := Items(d.attrs, false) + (b + m);
    PrintedInBounds(Fresh, items, 8, false);
    ParsePrinted(Fresh, items, 8, false);
    UnsignedSize(d, b, m);
    TakeClearPart(d.attrs, 8);
    TakeGroups(Print, Take(false), d.attrs, Items(d.attrs, false), b, m, d.iv, SealedData(d), d.hdr[5],
               8, 8 + |Unsigned(d)|);
  }

  /** Verification of a generated message succeeds, except that a notification before
      the end of phase one gets no MAC but is expected to have one. */
  lemma VerifyAfterGenerate(d: Draft, v: View)
    requires Fits(d) && v.mac == (if NeedsMac(d.hdr[5]) then Some(12 + |Unsigned(d)|) else None)
    requires v.pBit == !HidesNotification(d.attrs)
    ensures var g := Generated(d);
      && (v.mac.Some? ==> v.mac.value + 16 == |g|)
      && (Verified(g, v, Some(d.signer), d.sigdata) <==>
          || NeedsMac(d.hdr[5]) || IgnoresMac(d.hdr[5])
          || (d.hdr[5] == SIM_NOTIFICATION && !HidesNotification(d.attrs)))
  {
    VerifyFramed(d.hdr, Unsigned(d), d.signer, d.sigdata, MacOf(d), Generated(d), v);
  }

  lemma VerifyFramed(hdr: seq<byte>, body: seq<byte>, signer: Signer, sigdata: seq<byte>, mac: seq<byte>,
                     g: seq<byte>, v: View)
    requires |hdr| >= 8 && |mac| == 16 && g == Framed(hdr, body + MacBytes(hdr[5], mac))
    requires mac == signer.mac(Framed(hdr, body + MacBytes(hdr[5], Zeros(16))) + sigdata)
    requires v.mac == if NeedsMac(hdr[5]) then Some(12 + |body|) else None
    ensures v.mac.Some? ==> v.mac.value + 16 == |g|
    ensures Verified(g, v, Some(signer), sigdata)
      <==> NeedsMac(hdr[5]) || IgnoresMac(hdr[5]) || (hdr[5] == SIM_NOTIFICATION && v.pBit)
  {
    if NeedsMac(hdr[5]) {
      OwnMac(hdr, body, signer, sigdata, g, mac);
    }
  }

  lemma OwnMac(hdr: seq<byte>, body: seq<byte>, signer: Signer, sigdata: seq<byte>, g: seq<byte>, mac: seq<byte>)
    requires |hdr| >= 8 && NeedsMac(hdr[5])
    requires mac == signer.mac(Framed(hdr, body + MacBytes(hdr[5], Zeros(16))) + sigdata) && |mac| == 16
    requires g == Framed(hdr, body + MacBytes(hdr[5], mac))
    ensures |g| == 8 + |body| + 20 && g[|g| - 16..|g|] == mac
    ensures signer.mac(Zeroed(g, |g| - 16) + sigdata) == mac
  {
    PatchMac(hdr, body, mac, Zeros(16));
    assert g[|g| - 16..] == g[8..][|body| + 4..];
  }

  /** Such a notification: it is generated, and then refused. */
  lemma HiddenNotifyIsRefused(d: Draft)
    requires Fits(d) && d.hdr[5] == SIM_NOTIFICATION && d.attrs == [Attr(AT_NOTIFICATION, [0, 0])]
    ensures var v := ParseAll(Fresh, Some(d.crypter), Generated(d)[8..]);
      v.Some? && v.value.attrs == d.attrs && v.value.mac == None
      && !Verified(Generated(d), v.value, Some(d.signer), d.sigdata)
  {
    var v := ParseAll(Fresh, Some(d.crypter), Generated(d)[8..]);
    ParseAfterGenerate(d);
    OneNotification(d.attrs);
    VerifyAfterGenerate(d, v.value);
  }

  lemma OneNotification(attrs: seq<Sendable>)
    requires attrs == [Attr(AT_NOTIFICATION, [0, 0])]
    ensures HidesNotification(attrs) && ReadAll(Part(attrs, false)) + ReadAll(Part(attrs, true)) == attrs
  {
    var a: Sendable := attrs[0];
    assert attrs[1..] == [] && Hides(a) && HasRule(a.kind);
    assert Part(attrs, false) == [] && Part(attrs, true) == [a];
    ReadExact(a);
    assert ReadAll([a]) == [Read(a)] + ReadAll([a][1..]);
  }

  /** A generated message that is verified twice: the second time its MAC is gone. */
  lemma VerifyGeneratedTwice(d: Draft, v: View)
    requires Fits(d) && NeedsMac(d.hdr[5]) && v.mac == Some(12 + |Unsigned(d)|)
    requires v.pBit == !HidesNotification(d.attrs)
    ensures v.mac.Some? && v.mac.value + 16 == |Generated(d)|
    ensures Verified(AfterVerify(Generated(d), v, Some(d.signer)), v, Some(d.signer), d.sigdata)
      <==> MacOf(d) == Zeros(16)
  {
    VerifyAfterGenerate(d, v);
    OwnMac(d.hdr, Unsigned(d), d.signer, d.sigdata, Generated(d), MacOf(d));
    VerifyAgain(Generated(d), v, Some(d.signer), d.sigdata);
  }

  // ----- what is generated, in bytes

  /** The hidden attributes, and AT_PADDING up to the next block. */
  lemma PlainBytes(d: Draft)
    requires Fits(d)
    ensures var hidden, size := PrintAll(Items(d.attrs, true)), d.crypter.blockSize;
      var plain := Padded(hidden, size);
      && hidden < plain && |plain| % size == 0 && |plain| <= |hidden| + size
      && plain[|hidden|] == 6 && 4 * (plain[|hidden| + 1] as nat) == |plain| - |hidden|
      && forall i | |hidden| + 2 <= i < |plain| :: plain[i] == 0
  {
  }

  /** AT_IV and AT_ENCR_DATA around what is hidden. */
  predicate IsSealed(sealed: seq<byte>, iv: seq<byte>, data: seq<byte>) {
    && |data| <= 1016
    && sealed == if data == [] then [] else [129, 5, 0, 0] + iv + ([130, |data| / 4 + 1, 0, 0] + data)
  }

  /** Header with the length, clear attributes, what is hidden, and AT_MAC over everything,
      with zeros in its place. */
  lemma GeneratedBytes(d: Draft, g: seq<byte>, clear: seq<byte>, sealed: seq<byte>)
    requires Fits(d) && g == Generated(d) && clear == PrintAll(Items(d.attrs, false))
    requires IsSealed(sealed, d.iv, SealedData(d))
    ensures g[..2] == d.hdr[..2] && U16(g[2], g[3]) == |g| && g[4..8] == d.hdr[4..8]
    ensures if d.hdr[5] in {1, 11, 13} then
        && |g| >= 28 && g[8..] == clear + sealed + [11, 5, 0, 0] + g[|g| - 16..]
        && g[|g| - 16..] == d.signer.mac(g[..|g| - 16] + Zeros(16) + d.sigdata)
      else g[8..] == clear + sealed
  {
    assert Unsigned(d) == clear + sealed;
    if NeedsMac(d.hdr[5]) {
      MacOfGenerated(d, g, clear + sealed);
    }
  }

  lemma MacOfGenerated(d: Draft, g: seq<byte>, before: seq<byte>)
    requires Fits(d) && g == Generated(d) && before == Unsigned(d) && NeedsMac(d.hdr[5])
    ensures |g| >= 28 && g[8..] == before + [11, 5, 0, 0] + g[|g| - 16..]
    ensures g[|g| - 16..] == d.signer.mac(g[..|g| - 16] + Zeros(16) + d.sigdata)
  {
    OwnMac(d.hdr, before, d.signer, d.sigdata, g, MacOf(d));
    MacLast(g, before, MacOf(d));
  }

  lemma SealedMeans(d: Draft, hidden: seq<byte>)
    requires Fits(d) && hidden == PrintAll(Items(d.attrs, true))
    ensures SealedData(d) == if hidden == [] then [] else d.crypter.encrypt(Padded(hidden, d.crypter.blockSize), d.iv)
    ensures hidden != [] ==> d.crypter.decrypt(SealedData(d), d.iv) == Padded(hidden, d.crypter.blockSize)
  {
  }

  lemma MacLast(g: seq<byte>, before: seq<byte>, mac: seq<byte>)
    requires |g| >= 8 && |mac| == 16 && g[8..] == before + ([11, 5, 0, 0] + mac)
    ensures |g| >= 28 && g[|g| - 16..] == mac && g[8..] == before + [11, 5, 0, 0] + mac
    ensures Zeroed(g, |g| - 16) == g[..|g| - 16] + Zeros(16)
  {
    assert g[|g| - 16..] == g[8..][|before| + 4..];
  }

  // ----- two messages

  /** A cipher that leaves data alone. */
  const Plain: Crypter := Crypter(16, 16, (p, iv) => p, (p, iv) => p)

  /** A MAC that is always the same. */
  const Stamp: Signer := Signer(16, s => [1] + Zeros(15))

  ghost predicate Simple(d: Draft) {
    |d.hdr| == 8 && d.crypter == Plain && |d.iv| == 16 && d.signer == Stamp
  }

  lemma SimpleIsUsable(d: Draft)
    requires Simple(d)
    ensures Usable(d)
  {
  }

  lemma SmallFits(d: Draft)
    requires Usable(d) && d.crypter.blockSize == 16
    requires PrintAll(Items(d.attrs, false)) == [] && |PrintAll(Items(d.attrs, true))| <= 16
    ensures Fits(d)
  {
    assert |Padded(PrintAll(Items(d.attrs, true)), 16)| <= 48;
  }

  lemma OneHidden(attrs: seq<Sendable>, a: Sendable)
    requires attrs == [a] && a == Attr(AT_NOTIFICATION, [0, 0])
    ensures PrintAll(Items(attrs, false)) == [] && |PrintAll(Items(attrs, true))| == 4
  {
    FlattenOne(PickItems(true), a);
    FlattenOne(PickItems(false), a);
    FlattenOne(Print, ItemOf(a));
    RuleBody(a);
  }

  /** A message that its receiver refuses at once. */
  lemma RefusedNotification(d: Draft)
    requires Simple(d) && d.hdr[5] == SIM_NOTIFICATION && d.attrs == [Attr(AT_NOTIFICATION, [0, 0])]
    ensures Fits(d) && RefusedAtOnce(d)
  {
    SimpleIsUsable(d);
    OneHidden(d.attrs, d.attrs[0]);
    SmallFits(d);
    HiddenNotifyIsRefused(d);
  }

  ghost predicate RefusedAtOnce(d: Draft)
    requires Fits(d)
  {
    var v := ParseAll(Fresh, Some(d.crypter), Generated(d)[8..]);
    && v.Some? && v.value.attrs == d.attrs && v.value.mac == None
    && !Verified(Generated(d), v.value, Some(d.signer), d.sigdata)
  }

  ghost predicate RefusedLater(d: Draft)
    requires Fits(d)
  {
    var g, v := Generated(d), ParseAll(Fresh, Some(d.crypter), Generated(d)[8..]);
    && v.Some? && (v.value.mac.Some? ==> v.value.mac.value + 16 <= |g|)
    && Verified(g, v.value, Some(d.signer), d.sigdata)
    && !Verified(AfterVerify(g, v.value, Some(d.signer)), v.value, Some(d.signer), d.sigdata)
  }

  /** And one that it refuses the second time only. */
  lemma RefusedTheSecondTime(d: Draft)
    requires Simple(d) && NeedsMac(d.hdr[5]) && d.attrs == []
    ensures Fits(d) && RefusedLater(d)
  {
    SimpleIsUsable(d);
    SmallFits(d);
    StampIsNotZero(d);
    LaterIfNotZero(d);
  }

  lemma StampIsNotZero(d: Draft)
    requires Fits(d) && d.signer == Stamp
    ensures MacOf(d) != Zeros(16)
  {
    assert MacOf(d)[0] == 1;
  }

  lemma LaterIfNotZero(d: Draft)
    requires Fits(d) && NeedsMac(d.hdr[5]) && MacOf(d) != Zeros(16)
    ensures RefusedLater(d)
  {
    var v := ParseAll(Fresh, Some(d.crypter), Generated(d)[8..]);
    ParseAfterGenerate(d);
    VerifyAfterGenerate(d, v.value);
    VerifyGeneratedTwice(d, v.value);
  }

  // ----- exactly which lists come back

  predicate AllExact(attrs: seq<Sendable>) {
    forall i | 0 <= i < |attrs| :: Exact(attrs[i])
  }

  lemma ReadExact(a: Sendable)
    ensures Read(a) == a <==> Exact(a)
  {
    ShownAll(a);
    assert a.data[..|a.data|] == a.data;
    assert |Read(a).data| == Shown(a);
  }

  lemma ConsEqual(a: Attr, s: seq<Attr>, b: Attr, t: seq<Attr>)
    ensures [a] + s == [b] + t <==> a == b && s == t
  {
    if [a] + s == [b] + t {
      assert ([a] + s)[0] == ([b] + t)[0] && ([a] + s)[1..] == ([b] + t)[1..];
    }
  }

  lemma AllExactCons(attrs: seq<Sendable>)
    requires attrs != []
    ensures AllExact(attrs) <==> Exact(attrs[0]) && AllExact(attrs[1..])
  {
    assert forall i | 0 <= i < |attrs[1..]| :: attrs[1..][i] == attrs[i + 1];
    if AllExact(attrs) {
      forall i | 0 <= i < |attrs[1..]| ensures Exact(attrs[1..][i]) {
        assert Exact(attrs[i + 1]);
      }
    } else if Exact(attrs[0]) {
      var i :| 0 <= i < |attrs| && !Exact(attrs[i]);
      assert !Exact(attrs[1..][i - 1]);
    }
  }

  lemma {:induction false} ReadAllExact(attrs: seq<Sendable>)
    ensures ReadAll(attrs) == attrs <==> AllExact(attrs)
  {
    if attrs != [] {
      var a, rest := attrs[0], attrs[1..];
      ReadAllExact(rest);
      ReadExact(a);
      ConsEqual(Read(a), ReadAll(rest), a, rest);
      AllExactCons(attrs);
      assert attrs == [a] + rest;
    }
  }

  /** A result of 32 bytes arrives as an empty one. */
  lemma LongResIsLost(data: seq<byte>)
    requires |data| == 32
    ensures ReadAll([Attr(AT_RES, data)]) == [Attr(AT_RES, [])]
  {
    var a: Sendable := Attr(AT_RES, data);
    assert Shown(a) == 0;
    assert ReadAll([a]) == [Read(a)] + ReadAll([a][1..]);
  }

  /** Every attribute with a rule is in exactly one of the two parts, as often as it
      was added. */
  lemma {:induction false} Partition(attrs: seq<Sendable>, a: Sendable, hidden: bool)
    ensures multiset(Part(attrs, hidden))[a] == if HasRule(a.kind) && Hides(a) == hidden then multiset(attrs)[a] else 0
  {
    if attrs != [] {
      var x, rest := attrs[0], attrs[1..];
      Partition(rest, a, hidden);
      CountCons(x, rest, a);
      CountCons(x, Part(rest, hidden), a);
      assert attrs == [x] + rest;
      assert Part(attrs, hidden) == Part(rest, hidden) || Part(attrs, hidden) == [x] + Part(rest, hidden);
    }
  }

  lemma CountCons(x: Sendable, s: seq<Sendable>, a: Sendable)
    ensures multiset([x] + s)[a] == multiset(s)[a] + if x == a then 1 else 0
  {
  }

  /** What one side generates, the other side parses and verifies. */
  method GenerateThenParse(d: Draft) returns (message: SimakaMessage, ok: bool)
    requires Fits(d) && NeedsMac(d.hdr[5])
    ensures ok && fresh(message) && message.attributes == ReadAll(Part(d.attrs, false)) + ReadAll(Part(d.attrs, true))
  {
    var gen := Generate(d);
    message, ok := Receive(d, gen);
  }

  method Receive(d: Draft, gen: seq<byte>) returns (message: SimakaMessage, ok: bool)
    requires Fits(d) && NeedsMac(d.hdr[5]) && gen == Generated(d)
    ensures ok && fresh(message) && message.attributes == ReadAll(Part(d.attrs, false)) + ReadAll(Part(d.attrs, true))
  {
    ParseAfterGenerate(d);
    message := new SimakaMessage(gen);
    ok := message.Parse(Some(d.crypter));
    VerifyAfterGenerate(d, message.Seen());
    ok := message.Verify(Some(d.signer), d.sigdata);
  }
}
