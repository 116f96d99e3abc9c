/** Attributes of EAP-SIM and EAP-AKA messages on the wire (section 8.1 of RFC 4187):
    their layouts, printing them, and reading them from any bytes. */
module SimakaWire {
  import opened Bytes

  const AT_RAND: byte := 1
  const AT_AUTN: byte := 2
  const AT_RES: byte := 3
  const AT_AUTS: byte := 4
  const AT_PADDING: byte := 6
  const AT_NONCE_MT: byte := 7
  const AT_PERMANENT_ID_REQ: byte := 10
  const AT_MAC: byte := 11
  const AT_NOTIFICATION: byte := 12
  const AT_ANY_ID_REQ: byte := 13
  const AT_IDENTITY: byte := 14
  const AT_VERSION_LIST: byte := 15
  const AT_SELECTED_VERSION: byte := 16
  const AT_FULLAUTH_ID_REQ: byte := 17
  const AT_COUNTER: byte := 19
  const AT_COUNTER_TOO_SMALL: byte := 20
  const AT_NONCE_S: byte := 21
  const AT_CLIENT_ERROR_CODE: byte := 22
  const AT_IV: byte := 129
  const AT_ENCR_DATA: byte := 130
  const AT_NEXT_PSEUDONYM: byte := 132
  const AT_NEXT_REAUTH_ID: byte := 133

  /** No data; two bytes; a length field and data; 16 bytes after two reserved ones;
      any number of words after two reserved bytes; 14 bytes; 4n + 2 bytes. */
  datatype Layout = Empty | Two | Counted | Sixteen | Variable | Fourteen | Other

  function LayoutOf(kind: byte): Layout {
    if IsEmpty(kind) then Empty
    else if kind == AT_COUNTER || kind == AT_CLIENT_ERROR_CODE || kind == AT_SELECTED_VERSION || kind == AT_NOTIFICATION
    then Two
    else if IsCounted(kind) then Counted
    else if kind == AT_NONCE_S || kind == AT_AUTN || kind == AT_NONCE_MT || kind == AT_IV || kind == AT_MAC then Sixteen
    else if kind == AT_ENCR_DATA || kind == AT_RAND then Variable
    else if kind == AT_AUTS then Fourteen
    else Other
  }

  predicate IsEmpty(kind: byte) {
    || kind == AT_COUNTER_TOO_SMALL || kind == AT_ANY_ID_REQ
    || kind == AT_PERMANENT_ID_REQ || kind == AT_FULLAUTH_ID_REQ
  }

  predicate IsCounted(kind: byte) {
    || kind == AT_NEXT_PSEUDONYM || kind == AT_NEXT_REAUTH_ID
    || kind == AT_RES || kind == AT_IDENTITY || kind == AT_VERSION_LIST
  }

  /** These are refused outside of AT_ENCR_DATA. */
  predicate MustBeHidden(kind: byte) {
    || kind == AT_COUNTER_TOO_SMALL || kind == AT_COUNTER || kind == AT_NONCE_S
    || kind == AT_NEXT_PSEUDONYM || kind == AT_NEXT_REAUTH_ID
  }

  datatype Attr = Attr(kind: byte, data: seq<byte>)

  /** The unit of the length field: bits for AT_RES, bytes for the others. */
  function Unit(kind: byte): nat {
    if kind == AT_RES then 8 else 1
  }

  // ----- printing

  /** An attribute with the bytes around its data: reserved ones or padding. */
  datatype Field = Field(kind: byte, data: seq<byte>, slack: seq<byte>)

  type Item = f: Field | WellFormed(f) witness Field(AT_ANY_ID_REQ, [], [0, 0])

  predicate WellFormed(i: Field) {
    match LayoutOf(i.kind)
    case Empty => |i.data| == 0 && |i.slack| == 2
    case Two => |i.data| == 2 && |i.slack| == 0
    case Counted => (|i.data| + |i.slack|) % 4 == 0 && |i.data| + |i.slack| <= 1016
    case Sixteen => |i.data| == 16 && |i.slack| == 2
    case Variable => |i.data| % 4 == 0 && |i.data| <= 1016 && |i.slack| == 2
    case Fourteen => |i.data| == 14 && |i.slack| == 0
    case Other => |i.data| % 4 == 2 && |i.data| <= 1018 && |i.slack| == 0
  }

  function LengthField(kind: byte, n: nat): (b: seq<byte>)
    ensures |b| == 2
  {
    FromU16(Unit(kind) * n)
  }

  /** What follows type and length. */
  function Body(i: Item): (b: seq<byte>)
    ensures |b| % 4 == 2 && |b| <= 1018
  {
    match LayoutOf(i.kind)
    case Empty => i.slack
    case Two | Fourteen | Other => i.data
    case Counted => LengthField(i.kind, |i.data|) + i.data + i.slack
    case Sixteen | Variable => i.slack + i.data
  }

  /** The length counts words, type and length included. */
  function Print(i: Item): (s: seq<byte>)
    ensures |s| == |Body(i)| + 2 && s[0] == i.kind && s[1] == |s| / 4 && s[2..] == Body(i)
  {
    [i.kind, (|Body(i)| + 2) / 4] + Body(i)
  }

  lemma {:induction false} FlattenWords<T(!new)>(f: T -> seq<byte>, items: seq<T>)
    requires forall x :: |f(x)| % 4 == 0 && |f(x)| > 0
    ensures |Flatten(f, items)| % 4 == 0 && (Flatten(f, items) == [] <==> items == [])
  {
    if items != [] {
      FlattenWords(f, items[1..]);
    }
  }

  function PrintAll(items: seq<Item>): (s: seq<byte>)
    ensures |s| % 4 == 0 && (s == [] <==> items == [])
  {
    FlattenWords(Print, items);
    Flatten(Print, items)
  }

  // ----- reading

  /** What the parser makes of the next attribute. It is `Outside` if it would read beyond
      the chunk, or not move on at all. */
  datatype Reading = Got(data: seq<byte>, next: seq<byte>) | Invalid | Outside

  function ReadFixed(s: seq<byte>, words: nat, from: nat, to: nat): (r: Reading)
    requires |s| >= 2 && from <= to <= 4 * words
    ensures r.Got? && words > 0 ==> |r.next| < |s|
  {
    if s[1] != words || |s| < 4 * words then Invalid else Got(s[from..to], s[4 * words..])
  }

  function ReadCounted(s: seq<byte>): (r: Reading)
    requires |s| >= 2
    ensures r.Got? ==> |r.next| < |s|
  {
    if s[1] < 1 || |s| < 4 then Invalid else
      var words: nat, field := s[1], U16(s[2], s[3]);
      var len := if s[0] == AT_RES then field / 8 else field;
      if len > 4 * words || len > |s| then Invalid
      else if len + 4 > |s| then Outside
      else Got(s[4..4 + len], Skip(s, 4 * words))
  }

  function ReadWords(s: seq<byte>, from: nat): (r: Reading)
    requires |s| >= 2 && from <= 4
    ensures r.Got? ==> |r.next| < |s|
  {
    var words: nat := s[1];
    if 4 * words > |s| || |s| < 4 then Invalid
    else if words == 0 then Outside
    else Got(s[from..4 * words], s[4 * words..])
  }

  function ReadAttr(s: seq<byte>): (r: Reading)
    requires |s| >= 2
    ensures r.Got? ==> |r.next| < |s|
  {
    match LayoutOf(s[0])
    case Empty => ReadFixed(s, 1, 4, 4)
    case Two => ReadFixed(s, 1, 2, 4)
    case Counted => ReadCounted(s)
    case Sixteen => ReadFixed(s, 5, 4, 20)
    case Variable => ReadWords(s, 4)
    case Fourteen => ReadFixed(s, 4, 2, 16)
    case Other => ReadWords(s, 2)
  }

  method ReadCountedAttr(s: seq<byte>) returns (ok: bool, data: seq<byte>, next: seq<byte>)
    requires |s| >= 2 && ReadCounted(s) != Outside
    ensures if ok then ReadCounted(s) == Got(data, next) else ReadCounted(s) == Invalid
  {
    ok, data, next := false, [], s;
    if s[1] < 1 || |s| < 4 {
      return;
    }
    var words: nat, len := s[1], U16(s[2], s[3]);
    if s[0] == AT_RES {
      len := len / 8;
    }
    if len > 4 * words || len > |s| {
      return;
    }
    ok, data, next := true, s[4..4 + len], Skip(s, 4 * words);
  }

  /** The first switch of the parser: length checks, data, and the bytes after it. */
  method ReadOne(s: seq<byte>) returns (ok: bool, data: seq<byte>, next: seq<byte>)
    requires |s| >= 2 && ReadAttr(s) != Outside
    ensures if ok then ReadAttr(s) == Got(data, next) else ReadAttr(s) == Invalid
  {
    ok, data, next := false, [], s;
    var words: nat := s[1];
    match LayoutOf(s[0])
    case Empty =>
      if words == 1 && |s| >= 4 {
        ok, data, next := true, [], s[4..];
      }
    case Two =>
      if words == 1 && |s| >= 4 {
        ok, data, next := true, s[2..4], s[4..];
      }
    case Counted =>
      ok, data, next := ReadCountedAttr(s);
    case Sixteen =>
      if words == 5 && |s| >= 20 {
        ok, data, next := true, s[4..20], s[20..];
      }
    case Variable =>
      if 4 * words <= |s| && |s| >= 4 {
        ok, data, next := true, s[4..4 * words], s[4 * words..];
      }
    case Fourteen =>
      if words == 4 && |s| >= 16 {
        ok, data, next := true, s[2..16], s[16..];
      }
    case Other =>
      if 4 * words <= |s| && |s| >= 4 {
        ok, data, next := true, s[2..4 * words], s[4 * words..];
      }
  }

  // ----- by number, in bytes

  /** The attributes of section 11 of RFC 4187 and section 14 of RFC 4186. */
  lemma LayoutNumbers(kind: byte)
    ensures LayoutOf(kind) == Empty <==> kind in {10, 13, 17, 20}
    ensures LayoutOf(kind) == Two <==> kind in {12, 16, 19, 22}
    ensures LayoutOf(kind) == Counted <==> kind in {3, 14, 15, 132, 133}
    ensures LayoutOf(kind) == Sixteen <==> kind in {2, 7, 11, 21, 129}
    ensures LayoutOf(kind) == Variable <==> kind in {1, 130}
    ensures LayoutOf(kind) == Fourteen <==> kind == 4
    ensures MustBeHidden(kind) <==> kind in {19, 20, 21, 132, 133}
  {
  }

  /** Where data is, and how many words the whole attribute has. */
  predicate Shows(s: seq<byte>, data: seq<byte>, words: nat, from: nat) {
    |s| == 4 * words && from <= |s| && s[from..] == data
  }

  lemma PrintMeans(i: Item, s: seq<byte>)
    requires s == Print(i)
    ensures |s| >= 4 && s[0] == i.kind && |s| == 4 * (s[1] as nat)
    ensures i.kind in {10, 13, 17, 20} ==> Shows(s, [], 1, 4)
    ensures i.kind in {12, 16, 19, 22} ==> Shows(s, i.data, 1, 2)
    ensures i.kind in {2, 7, 11, 21, 129} ==> Shows(s, i.data, 5, 4)
    ensures i.kind in {1, 130} ==> s[4..] == i.data
    ensures i.kind == 4 ==> Shows(s, i.data, 4, 2)
  {
    LayoutNumbers(i.kind);
    PrintedParts(i, []);
    assert s + [] == s;
    if LayoutOf(i.kind) != Counted {
      BodyData(i);
      assert s[4..] == Body(i)[2..];
    }
  }

  lemma PrintCountedMeans(i: Item, s: seq<byte>, n: nat)
    requires s == Print(i) && n == |i.data| && i.kind in {3, 14, 15, 132, 133}
    ensures n + 4 <= |s| && s[4..4 + n] == i.data
    ensures U16(s[2], s[3]) == if i.kind == 3 then 8 * n else n
  {
    CountedParts(i);
    AfterHeader(i, s, n);
    UnitIs(i.kind, n);
  }

  lemma AfterHeader(i: Item, s: seq<byte>, n: nat)
    requires s == Print(i) && n + 2 <= |Body(i)|
    ensures n + 4 <= |s| && s[4..4 + n] == Body(i)[2..2 + n] && s[2] == Body(i)[0] && s[3] == Body(i)[1]
  {
    assert s[2..] == Body(i);
  }

  lemma UnitIs(kind: byte, n: nat)
    ensures Unit(kind) * n == if kind == 3 then 8 * n else n
  {
  }

  /** Which lengths are accepted, and which bytes are the data. */
  lemma ReadMeans(s: seq<byte>)
    requires |s| >= 4
    ensures var kind, w: nat, r := s[0], s[1], ReadAttr(s);
      && (kind in {10, 13, 17, 20} ==> r == if w == 1 then Got([], s[4..]) else Invalid)
      && (kind in {12, 16, 19, 22} ==> r == if w == 1 then Got(s[2..4], s[4..]) else Invalid)
      && (kind in {2, 7, 11, 21, 129} ==> r == if w == 5 && |s| >= 20 then Got(s[4..20], s[20..]) else Invalid)
      && (kind == 4 ==> r == if w == 4 && |s| >= 16 then Got(s[2..16], s[16..]) else Invalid)
  {
    LayoutNumbers(s[0]);
  }

  lemma ReadVariableMeans(s: seq<byte>)
    requires |s| >= 4 && s[1] >= 1
    ensures var kind, w: nat, r := s[0], s[1], ReadAttr(s);
      && (kind in {1, 130} ==> r == if 4 * w <= |s| then Got(s[4..4 * w], s[4 * w..]) else Invalid)
      && (kind !in {1, 2, 3, 4, 7, 10, 11, 12, 13, 14, 15, 16, 17, 19, 20, 21, 22, 129, 130, 132, 133} ==>
            r == if 4 * w <= |s| then Got(s[2..4 * w], s[4 * w..]) else Invalid)
  {
    LayoutNumbers(s[0]);
  }

  lemma ReadCountedMeans(s: seq<byte>, n: nat)
    requires |s| >= 4 && s[0] in {3, 14, 15, 132, 133}
    requires n == if s[0] == 3 then U16(s[2], s[3]) / 8 else U16(s[2], s[3])
    ensures var w: nat, r := s[1], ReadAttr(s);
      if w == 0 || n > 4 * w || n > |s| then r == Invalid
      else if n + 4 > |s| then r == Outside
      else r == Got(s[4..4 + n], Skip(s, 4 * w))
  {
    LayoutNumbers(s[0]);
  }

  /** Fewer than four bytes are never an attribute. */
  lemma ShortIsInvalid(s: seq<byte>)
    requires 2 <= |s| < 4
    ensures ReadAttr(s) == Invalid
  {
  }

  // ----- reading what was printed

  lemma PrintedParts(i: Item, rest: seq<byte>)
    ensures var s, n := Print(i) + rest, |Print(i)|;
      && |s| >= n >= 4 && s[0] == i.kind && s[1] == n / 4 && n % 4 == 0
      && s[2..n] == Body(i) && s[n..] == rest && (forall k | 2 <= k < n :: s[k] == Body(i)[k - 2])
  {
    var s, n := Print(i) + rest, |Print(i)|;
    assert s[2..n] == Print(i)[2..];
  }

  lemma CountedParts(i: Item)
    requires LayoutOf(i.kind) == Counted
    ensures var b, n := Body(i), |i.data|;
      n + 2 <= |b| && U16(b[0], b[1]) == Unit(i.kind) * n && b[2..2 + n] == i.data
  {
  }

  lemma ReadPrintedCounted(i: Item, rest: seq<byte>)
    requires LayoutOf(i.kind) == Counted
    ensures ReadCounted(Print(i) + rest) == Got(i.data, rest)
  {
    var s, n := Print(i) + rest, |i.data|;
    PrintedParts(i, rest);
    CountedParts(i);
    FieldShows(i.kind, n, U16(s[2], s[3]));
    assert s[4..4 + n] == Body(i)[2..2 + n];
  }

  lemma FieldShows(kind: byte, n: nat, field: nat)
    requires field == Unit(kind) * n
    ensures n == if kind == AT_RES then field / 8 else field
  {
  }

  lemma ReadPrintedFixed(i: Item, rest: seq<byte>, words: nat, from: nat, to: nat)
    requires 2 <= from <= to <= 4 * words == |Print(i)| && Body(i)[from - 2..to - 2] == i.data
    ensures ReadFixed(Print(i) + rest, words, from, to) == Got(i.data, rest)
    ensures to == 4 * words && from <= 4 ==> ReadWords(Print(i) + rest, from) == Got(i.data, rest)
  {
    var s := Print(i) + rest;
    PrintedParts(i, rest);
    assert s[from..to] == Body(i)[from - 2..to - 2];
  }

  lemma BodyData(i: Item)
    requires LayoutOf(i.kind) != Counted
    ensures var b := Body(i); match LayoutOf(i.kind)
      case Empty => |b| == 2 && b[2..2] == i.data
      case Two => |b| == 2 && b[0..2] == i.data
      case Sixteen => |b| == 18 && b[2..18] == i.data
      case Variable => b[2..|b|] == i.data
      case Fourteen => |b| == 14 && b[0..14] == i.data
      case Other => b[0..|b|] == i.data
  {
  }

  /** Every well-formed attribute is read as it was printed, whatever follows. */
  lemma ReadPrinted(i: Item, rest: seq<byte>)
    ensures ReadAttr(Print(i) + rest) == Got(i.data, rest)
  {
    assert (Print(i) + rest)[0] == i.kind;
    if LayoutOf(i.kind) == Counted {
      ReadPrintedCounted(i, rest);
    } else {
      var n := |Print(i)|;
      BodyData(i);
      WholeWords(i);
      match LayoutOf(i.kind)
      case Empty => ReadPrintedFixed(i, rest, 1, 4, 4);
      case Two => ReadPrintedFixed(i, rest, 1, 2, 4);
      case Sixteen => ReadPrintedFixed(i, rest, 5, 4, 20);
      case Variable => ReadPrintedFixed(i, rest, n / 4, 4, n);
      case Fourteen => ReadPrintedFixed(i, rest, 4, 2, 16);
      case Other => ReadPrintedFixed(i, rest, n / 4, 2, n);
    }
  }

  lemma WholeWords(i: Item)
    ensures |Print(i)| / 4 * 4 == |Print(i)|
  {
  }
}
