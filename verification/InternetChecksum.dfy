/** The Internet checksum (RFC 1071): the complement of a ones' complement sum. */
module InternetChecksum {
  import opened Bytes

  /** The sum of all 16-bit words; an odd byte at the end counts as a high byte. */
  function Words(s: seq<byte>): nat {
    if s == [] then 0
    else if |s| == 1 then U16(s[0], 0)
    else U16(s[0], s[1]) + Words(s[2..])
  }

  /** A sum with its carries added back in until none is left, and how many that were. */
  ghost predicate Folds(n: nat, r: nat, carries: nat) {
    r <= 0xffff && (r == 0 <==> n == 0) && n == r + 0xffff * carries
  }

  ghost function FoldPair(n: nat): (p: (nat, nat))
    ensures Folds(n, p.0, p.1)
  {
    assert Folds(n, if n == 0 then 0 else 1 + (n - 1) % 0xffff, if n == 0 then 0 else (n - 1) / 0xffff);
    var r: nat, carries: nat :| Folds(n, r, carries);
    (r, carries)
  }

  /** The number with the same remainder modulo 0xffff, and zero for zero only. */
  ghost function Fold(n: nat): (r: nat)
    ensures r <= 0xffff && (r == 0 <==> n == 0) && n == r + 0xffff * Carries(n)
  {
    FoldPair(n).0
  }

  ghost function Carries(n: nat): nat {
    FoldPair(n).1
  }

  /** That is the only such number. */
  lemma FoldUnique(n: nat, r: nat, carries: int)
    requires r <= 0xffff && (r == 0 <==> n == 0) && n == r + 0xffff * carries
    ensures r == Fold(n)
  {
    assert 0xffff * (carries - Carries(n)) == Fold(n) - r;
  }

  /** Sums are 32-bit numbers. */
  function Wrapped(sum: nat): nat {
    if sum < 0x1_0000_0000 then sum else sum % 0x1_0000_0000
  }

  ghost function Complement(sum: nat): (c: nat)
    ensures c <= 0xffff
  {
    0xffff - Fold(Wrapped(sum))
  }

  ghost function Checksum(data: seq<byte>): (c: nat)
    ensures c <= 0xffff
  {
    Complement(Words(data))
  }

  /** The checksum of data, going on from that of what came before. */
  ghost function ChecksumInc(data: seq<byte>, before: nat): (c: nat)
    requires before <= 0xffff
    ensures c <= 0xffff
  {
    Complement(0xffff - before + Words(data))
  }

  method Compute(data: seq<byte>, before: nat) returns (c: nat)
    requires before <= 0xffff
    ensures c == ChecksumInc(data, before) && (before == 0xffff ==> c == Checksum(data))
  {
    var sum := AddWords(data, 0xffff - before);
    c := FoldCarries(sum);
    return 0xffff - c;
  }

  method FoldCarries(sum: nat) returns (c: nat)
    ensures c == Fold(sum)
  {
    ghost var carries: nat := 0;
    c := sum;
    while c >= 0x1_0000
      invariant sum == c + 0xffff * carries && (c == 0 <==> sum == 0)
    {
      carries := carries + c / 0x1_0000;
      c := c % 0x1_0000 + c / 0x1_0000;
    }
    FoldUnique(sum, c, carries);
  }

  method AddWords(data: seq<byte>, start: nat) returns (sum: nat)
    requires start < 0x1_0000_0000
    ensures sum == Wrapped(start + Words(data))
  {
    ghost var wraps: nat := 0;
    var left := data;
    sum := start;
    while |left| > 1
      invariant sum < 0x1_0000_0000 && sum + Words(left) + 0x1_0000_0000 * wraps == start + Words(data)
      decreases |left|
    {
      ghost var more: nat;
      sum, more := Add32(sum, U16(left[0], left[1]));
      left, wraps := left[2..], wraps + more;
    }
    if left != [] {
      ghost var more: nat;
      sum, more := Add32(sum, U16(left[0], 0));
      wraps := wraps + more;
    }
    DivModUnique(wraps, sum, 0x1_0000_0000);
  }

  method Add32(a: nat, b: nat) returns (sum: nat, ghost wraps: nat)
    ensures sum < 0x1_0000_0000 && a + b == sum + 0x1_0000_0000 * wraps
  {
    sum, wraps := (a + b) % 0x1_0000_0000, (a + b) / 0x1_0000_0000;
  }

  lemma {:induction false} WordsBound(s: seq<byte>)
    ensures Words(s) <= 0x8000 * (|s| + 1)
  {
    if |s| > 1 {
      WordsBound(s[2..]);
    }
  }

  lemma {:induction false} NotAllZero(s: seq<byte>, i: nat)
    requires i < |s| && s[i] != 0
    ensures Words(s) > 0
  {
    if i > 1 {
      NotAllZero(s[2..], i - 2);
    }
  }

  lemma {:induction false} WordsAppend(a: seq<byte>, b: seq<byte>)
    requires |a| % 2 == 0
    ensures Words(a + b) == Words(a) + Words(b)
  {
    if a == [] {
      assert a + b == b;
    } else {
      WordsAppend(a[2..], b);
      assert (a + b)[2..] == a[2..] + b;
    }
  }

  /** Bytes at even places count 256 times, also the last one of an odd number. */
  function Weighed(s: seq<byte>): nat {
    if s == [] then 0
    else Weighed(s[..|s| - 1]) + s[|s| - 1] as nat * Weight(|s| - 1)
  }

  function Weight(place: nat): nat {
    if place % 2 == 0 then 256 else 1
  }

  lemma {:induction false} WordsOneMore(s: seq<byte>, last: byte)
    ensures Words(s + [last]) == Words(s) + last as nat * Weight(|s|)
  {
    var t := s + [last];
    if |s| >= 2 {
      assert t[2..] == s[2..] + [last];
      WordsOneMore(s[2..], last);
    } else if |s| == 1 {
      OneWord(t);
    }
  }

  lemma {:induction false} WordsAreWeighed(s: seq<byte>)
    ensures Words(s) == Weighed(s)
  {
    if s != [] {
      var n := |s| - 1;
      WordsAreWeighed(s[..n]);
      WordsOneMore(s[..n], s[n]);
      assert s == s[..n] + [s[n]];
    }
  }

  lemma WordsOfFour(a: seq<byte>, b: seq<byte>, c: seq<byte>, d: seq<byte>)
    requires |a| % 2 == 0 && |b| % 2 == 0 && |c| % 2 == 0
    ensures Words(a + b + c + d) == Words(a) + Words(b) + Words(c) + Words(d)
  {
    WordsAppend(a + b + c, d);
    WordsAppend(a + b, c);
    WordsAppend(a, b);
  }

  lemma OneWord(s: seq<byte>)
    requires |s| == 2
    ensures Words(s) == U16(s[0], s[1])
  {
    assert s[2..] == [];
  }

  lemma {:induction false} NoWords(n: nat)
    ensures Words(Zeros(n)) == 0
  {
    if n > 1 {
      assert Zeros(n)[2..] == Zeros(n - 2);
      NoWords(n - 2);
    }
  }

  /** A word written over zeros adds itself. */
  lemma {:induction false} WordsPatched(s: seq<byte>, at: nat, two: seq<byte>)
    requires at % 2 == 0 && at + 2 <= |s| && |two| == 2 && s[at] == 0 && s[at + 1] == 0
    ensures Words(Patched(s, at, two)) == Words(s) + U16(two[0], two[1])
  {
    var r := Patched(s, at, two);
    if at == 0 {
      assert r[2..] == s[2..];
    } else {
      assert r[0] == s[0] && r[1] == s[1] && r[2..] == Patched(s[2..], at - 2, two);
      WordsPatched(s[2..], at - 2, two);
    }
  }

  /** What a receiver sums up: everything, with the checksum in it, gives all ones. */
  ghost predicate Checks(before: seq<byte>, segment: seq<byte>) {
    Fold(Words(before) + Words(segment)) == 0xffff
  }

  /** Folding early makes no difference. */
  lemma FoldFirst(a: nat, b: nat)
    ensures Fold(Fold(a) + b) == Fold(a + b)
  {
    FoldUnique(a + b, Fold(Fold(a) + b), Carries(a) + Carries(Fold(a) + b));
  }

  lemma AllOnes(n: nat)
    ensures Fold(n + (0xffff - Fold(n))) == 0xffff
  {
    FoldUnique(n + (0xffff - Fold(n)), 0xffff, Carries(n));
  }

  lemma NoWrap(sum: nat)
    requires sum < 0x1_0000_0000
    ensures Complement(sum) == 0xffff - Fold(sum)
  {
  }

  lemma SumInTwoStages(a: nat, b: nat, first: nat)
    requires a + b + 0xffff < 0x1_0000_0000 && first == Complement(a)
    ensures Complement(0xffff - first + b) == 0xffff - Fold(a + b)
  {
    NoWrap(a);
    NoWrap(Fold(a) + b);
    FoldFirst(a, b);
  }

  /** The checksum in two stages is the complement of one sum. */
  lemma TwoStages(before: seq<byte>, segment: seq<byte>, a: nat, b: nat)
    requires a == Words(before) && b == Words(segment) && a + b + 0xffff < 0x1_0000_0000
    ensures ChecksumInc(segment, Checksum(before)) == 0xffff - Fold(a + b)
  {
    SumInTwoStages(a, b, Checksum(before));
    GoingOn(segment, Checksum(before), 0xffff - Checksum(before) + b);
  }

  lemma GoingOn(data: seq<byte>, before: nat, sum: nat)
    requires before <= 0xffff && sum == 0xffff - before + Words(data)
    ensures ChecksumInc(data, before) == Complement(sum)
  {
  }

  lemma SumChecks(a: nat, b: nat, check: nat)
    requires check == 0xffff - Fold(a + b)
    ensures Fold(a + (b + check)) == 0xffff
  {
    AllOnes(a + b);
    assert a + (b + check) == (a + b) + (0xffff - Fold(a + b));
  }

  lemma SmallSums(before: seq<byte>, segment: seq<byte>)
    requires |before| < 0x100 && |segment| < 0x1_0000
    ensures Words(before) + Words(segment) + 0xffff < 0x1_0000_0000
  {
    WordsBound(before);
    WordsBound(segment);
  }

  /** Putting the checksum of a first part and a segment into the segment makes them
      check. */
  lemma ChecksumChecks(before: seq<byte>, segment: seq<byte>, at: nat)
    requires |before| < 0x100 && |segment| < 0x1_0000
    requires at % 2 == 0 && at + 2 <= |segment| && segment[at] == 0 && segment[at + 1] == 0
    ensures Checks(before, Patched(segment, at, FromU16(ChecksumInc(segment, Checksum(before)))))
  {
    var check := ChecksumInc(segment, Checksum(before));
    OneSum(before, segment, Words(before), Words(segment), check);
    CheckWith(before, segment, at, Words(before), Words(segment), check);
  }

  lemma CheckWith(before: seq<byte>, segment: seq<byte>, at: nat, a: nat, b: nat, check: nat)
    requires at % 2 == 0 && at + 2 <= |segment| && segment[at] == 0 && segment[at + 1] == 0 && check <= 0xffff
    requires a == Words(before) && b == Words(segment) && Fold(a + (b + check)) == 0xffff
    ensures Checks(before, Patched(segment, at, FromU16(check)))
  {
    WordsWith(segment, at, check);
    ChecksIf(before, Patched(segment, at, FromU16(check)), a, b + check);
  }

  lemma OneSum(before: seq<byte>, segment: seq<byte>, a: nat, b: nat, check: nat)
    requires |before| < 0x100 && |segment| < 0x1_0000 && a == Words(before) && b == Words(segment)
    requires check == ChecksumInc(segment, Checksum(before))
    ensures Fold(a + (b + check)) == 0xffff
  {
    SmallSums(before, segment);
    TwoStages(before, segment, a, b);
    SumChecks(a, b, check);
  }

  lemma WordsWith(segment: seq<byte>, at: nat, check: nat)
    requires at % 2 == 0 && at + 2 <= |segment| && segment[at] == 0 && segment[at + 1] == 0 && check <= 0xffff
    ensures Words(Patched(segment, at, FromU16(check))) == Words(segment) + check
  {
    WordsPatched(segment, at, FromU16(check));
  }

  lemma ChecksIf(before: seq<byte>, segment: seq<byte>, a: nat, b: nat)
    requires a == Words(before) && b == Words(segment) && Fold(a + b) == 0xffff
    ensures Checks(before, segment)
  {
  }

  lemma NothingBefore(segment: seq<byte>)
    ensures ChecksumInc(segment, Checksum([])) == Checksum(segment)
  {
    NoWrap(0);
    assert Checksum([]) == 0xffff;
    assert 0xffff - Checksum([]) + Words(segment) == Words(segment);
  }

  /** The checksum comes out as zero exactly when the whole sum folds to all ones. */
  lemma ZeroChecksum(before: seq<byte>, segment: seq<byte>, sum: nat)
    requires |before| < 0x100 && |segment| < 0x1_0000 && Words(before) > 0
    requires sum == Words(before) + Words(segment)
    ensures ChecksumInc(segment, Checksum(before)) == 0 <==> Fold(sum) == 0xffff
  {
    SmallSums(before, segment);
    TwoStages(before, segment, Words(before), Words(segment));
  }

  /** Which a positive sum does exactly if it is a multiple of 0xffff. */
  lemma FoldsToOnes(n: nat)
    requires n > 0
    ensures Fold(n) == 0xffff <==> n % 0xffff == 0
  {
  }
}
