/** Bytes, big-endian fields and alignment, shared by the protocol modules. */
module Bytes {

  type byte = x: int | 0 <= x < 256

  datatype Option<+T> = None | Some(value: T)

  function U16(hi: byte, lo: byte): nat {
    hi * 256 + lo
  }

  /** The low 16 bits of n in network order. */
  function FromU16(n: nat): (b: seq<byte>)
    ensures |b| == 2
    ensures n < 0x1_0000 ==> U16(b[0], b[1]) == n
  {
    [n / 256 % 256, n % 256]
  }

  function U32(b: seq<byte>): nat
    requires |b| == 4
  {
    U16(b[0], b[1]) * 0x1_0000 + U16(b[2], b[3])
  }

  function FromU32(n: nat): (b: seq<byte>)
    ensures |b| == 4
    ensures n < 0x1_0000_0000 ==> U32(b) == n
  {
    FromU16(n / 0x1_0000) + FromU16(n)
  }

  /** Network order is most significant byte first. */
  lemma NetworkOrder(b: seq<byte>)
    requires |b| == 4
    ensures U16(b[0], b[1]) == 0x100 * (b[0] as nat) + b[1]
    ensures U32(b) == 0x100_0000 * (b[0] as nat) + 0x1_0000 * (b[1] as nat) + 0x100 * (b[2] as nat) + b[3]
  {
  }

  function Zeros(n: nat): (b: seq<byte>)
    ensures |b| == n && forall i | 0 <= i < n :: b[i] == 0
  {
    seq(n, _ => 0)
  }

  /** What `chunk_skip` leaves. */
  function Skip(s: seq<byte>, n: nat): (t: seq<byte>)
    ensures IsSuffix(t, s)
  {
    if |s| > n then s[n..] else []
  }

  predicate IsSuffix(t: seq<byte>, s: seq<byte>) {
    |t| <= |s| && t == s[|s| - |t|..]
  }

  lemma SuffixTransitive(a: seq<byte>, b: seq<byte>, c: seq<byte>)
    requires IsSuffix(a, b) && IsSuffix(b, c)
    ensures IsSuffix(a, c)
  {
  }

  /** Writing over part of a buffer. */
  function Patched(s: seq<byte>, at: nat, b: seq<byte>): (r: seq<byte>)
    requires at + |b| <= |s|
    ensures |r| == |s|
  {
    s[..at] + b + s[at + |b|..]
  }

  lemma PatchedElsewhere(s: seq<byte>, at: nat, b: seq<byte>, lo: nat, hi: nat)
    requires at + |b| <= |s| && lo <= hi <= |s| && (hi <= at || at + |b| <= lo)
    ensures Patched(s, at, b)[lo..hi] == s[lo..hi]
  {
  }

  lemma PatchedThere(s: seq<byte>, at: nat, b: seq<byte>)
    requires at + |b| <= |s|
    ensures Patched(s, at, b)[at..at + |b|] == b
  {
  }

  /** Concatenating what each item stands for. */
  function Flatten<T, U>(f: T -> seq<U>, items: seq<T>): seq<U> {
    if items == [] then [] else f(items[0]) + Flatten(f, items[1..])
  }

  lemma {:induction false} FlattenAppend<T, U>(f: T -> seq<U>, a: seq<T>, b: seq<T>)
    ensures Flatten(f, a + b) == Flatten(f, a) + Flatten(f, b)
  {
    if a == [] {
      assert a + b == b;
    } else {
      FlattenAppend(f, a[1..], b);
      assert (a + b)[1..] == a[1..] + b;
    }
  }

  lemma FlattenOne<T, U>(f: T -> seq<U>, x: T)
    ensures Flatten(f, [x]) == f(x)
  {
    assert Flatten(f, [x]) == f(x) + Flatten(f, []);
  }

  lemma FlattenThree<T, U>(f: T -> seq<U>, x: T, y: T, z: T)
    ensures Flatten(f, [x, y, z]) == f(x) + f(y) + f(z)
  {
    assert [x, y, z] == [x] + [y] + [z];
    FlattenAppend(f, [x] + [y], [z]);
    FlattenAppend(f, [x], [y]);
    FlattenOne(f, x);
    FlattenOne(f, y);
    FlattenOne(f, z);
  }

  lemma FlattenUpTo<T, U>(f: T -> seq<U>, items: seq<T>, i: nat)
    requires i < |items|
    ensures Flatten(f, items[..i + 1]) == Flatten(f, items[..i]) + f(items[i])
  {
    assert items[..i + 1] == items[..i] + [items[i]];
    FlattenAppend(f, items[..i], [items[i]]);
    FlattenOne(f, items[i]);
  }

  lemma FlattenAround<T, U>(f: T -> seq<U>, items: seq<T>, i: nat)
    requires i < |items|
    ensures Flatten(f, items) == Flatten(f, items[..i]) + f(items[i]) + Flatten(f, items[i + 1..])
  {
    assert items == items[..i + 1] + items[i + 1..];
    FlattenAppend(f, items[..i + 1], items[i + 1..]);
    FlattenUpTo(f, items, i);
  }

  lemma {:induction false} FlattenSize<T, U>(f: T -> seq<U>, a: seq<T>, b: seq<T>)
    requires |a| == |b| && forall i | 0 <= i < |a| :: |f(a[i])| == |f(b[i])|
    ensures |Flatten(f, a)| == |Flatten(f, b)|
  {
    if a != [] {
      FlattenSize(f, a[1..], b[1..]);
    }
  }

  /** The padding that makes size a multiple of alignment. */
  function PadLen(size: nat, alignment: nat): (k: nat)
    requires alignment > 0
    ensures k < alignment && (size + k) % alignment == 0
  {
    var remainder := size % alignment;
    if remainder != 0 then
      assert size + (alignment - remainder) == (size / alignment + 1) * alignment + 0;
      DivModUnique(size / alignment + 1, 0, alignment);
      alignment - remainder
    else 0
  }

  lemma DivModUnique(q: int, r: int, n: nat)
    requires 0 <= r < n
    ensures (q * n + r) / n == q && (q * n + r) % n == r
  {
    var a := q * n + r;
    var d := a / n - q;
    assert d * n == r - a % n;
    assert d >= 1 ==> d * n >= n;
    assert d <= -1 ==> d * n <= 0 - n;
  }
}
