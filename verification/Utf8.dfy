/** UTF-8 as bytes: the grammar of RFC 3629, the codec of src/ucb/unicode.c, and
    the theorems that connect the two.

    Masks and shifts are written arithmetically: for a byte b, `b & 0x3F` is
    `b % 64`, `(b & 0xE0) == 0xC0` is `b / 32 == 6`, and `x << 6 | y` with
    y < 64 is `x * 64 + y`. */
module Utf8 {

  type byte = b: int | 0 <= b < 256

  predicate IsScalar(cp: int) {
    0 <= cp < 0xD800 || 0xDFFF < cp <= 0x10FFFF
  }

  /** A Unicode scalar value: a code point that is not a surrogate. */
  type scalar = cp: int | 0 <= cp < 0xD800 || 0xDFFF < cp <= 0x10FFFF

  // ---------------------------------------------------------------------------
  // The grammar (section 4 of RFC 3629)
  // ---------------------------------------------------------------------------

  predicate Tail(b: int) {
    0x80 <= b <= 0xBF
  }

  /** The production UTF8-char of RFC 3629, by its four alternatives. */
  predicate Utf8Char(c: seq<byte>) {
    || (|c| == 1 && c[0] <= 0x7F)
    || (|c| == 2 && 0xC2 <= c[0] <= 0xDF && Tail(c[1]))
    || (|c| == 3 && Char3(c[0], c[1], c[2]))
    || (|c| == 4 && Char4(c[0], c[1], c[2], c[3]))
  }

  predicate Char3(c0: int, c1: int, c2: int) {
    && Tail(c2)
    && (|| (c0 == 0xE0 && 0xA0 <= c1 <= 0xBF)
        || (0xE1 <= c0 <= 0xEC && Tail(c1))
        || (c0 == 0xED && 0x80 <= c1 <= 0x9F)
        || (0xEE <= c0 <= 0xEF && Tail(c1)))
  }

  predicate Char4(c0: int, c1: int, c2: int, c3: int) {
    && Tail(c2) && Tail(c3)
    && (|| (c0 == 0xF0 && 0x90 <= c1 <= 0xBF)
        || (0xF1 <= c0 <= 0xF3 && Tail(c1))
        || (c0 == 0xF4 && 0x80 <= c1 <= 0x8F))
  }

  /** Some UTF8-char of k bytes starts s. */
  predicate StartsWithChar(s: seq<byte>, k: nat) {
    1 <= k <= 4 && k <= |s| && Utf8Char(s[..k])
  }

  function Concat(cs: seq<seq<byte>>): seq<byte> {
    if cs == [] then [] else cs[0] + Concat(cs[1..])
  }

  predicate AllChars(cs: seq<seq<byte>>) {
    forall i :: 0 <= i < |cs| ==> Utf8Char(cs[i])
  }

  /** The production UTF8-octets: any number of UTF8-chars. */
  ghost predicate WellFormed(s: seq<byte>) {
    exists cs :: AllChars(cs) && Concat(cs) == s
  }

  // ---------------------------------------------------------------------------
  // The codec
  // ---------------------------------------------------------------------------

  /** A continuation byte carrying the low six bits of x. */
  function Cont(x: int): byte {
    0x80 + x % 64
  }

  /** ucb_uc_encode_codepoint on a scalar value. */
  function Encode(cp: scalar): (r: seq<byte>)
    ensures 1 <= |r| <= 4
    ensures Utf8Char(r)
  {
    Digits(cp);
    if cp <= 0x7F then [cp]
    else if cp <= 0x7FF then [0xC0 + cp / 64, Cont(cp)]
    else if cp <= 0xFFFF then [0xE0 + cp / 4096, Cont(cp / 64), Cont(cp)]
    else [0xF0 + cp / 262144, Cont(cp / 4096), Cont(cp / 64), Cont(cp)]
  }

  /** Base-64 digits of a code point. */
  lemma Digits(cp: int)
    requires 0 <= cp <= 0x10FFFF
    ensures cp / 4096 == cp / 64 / 64 && cp / 262144 == cp / 4096 / 64
    ensures cp == cp / 64 * 64 + cp % 64
    ensures cp / 64 == cp / 4096 * 64 + cp / 64 % 64
    ensures cp / 4096 == cp / 262144 * 64 + cp / 4096 % 64
  {
  }

  function EncodeAll(cps: seq<scalar>): seq<byte> {
    if cps == [] then [] else Encode(cps[0]) + EncodeAll(cps[1..])
  }

  function Fetch2(b0: int, b1: int): int {
    b0 % 32 * 64 + b1 % 64
  }

  function Fetch3(b0: int, b1: int, b2: int): int {
    b0 % 16 * 4096 + b1 % 64 * 64 + b2 % 64
  }

  function Fetch4(b0: int, b1: int, b2: int, b3: int): int {
    b0 % 8 * 262144 + b1 % 64 * 4096 + b2 % 64 * 64 + b3 % 64
  }

  /** How far ucb_uc_next_valid advances, read off the lead byte alone. */
  function LeadLen(b: byte): (n: nat)
    ensures 1 <= n <= 4
  {
    if b < 0x80 then 1 else if b / 32 == 6 then 2 else if b / 16 == 14 then 3 else 4
  }

  /** What ucb_uc_next_valid decodes at the start of s; it checks nothing. */
  function FetchAt(s: seq<byte>): int
    requires |s| > 0 && LeadLen(s[0]) <= |s|
  {
    match LeadLen(s[0])
    case 1 => s[0]
    case 2 => Fetch2(s[0], s[1])
    case 3 => Fetch3(s[0], s[1], s[2])
    case _ => Fetch4(s[0], s[1], s[2], s[3])
  }

  /** Reading back base-64 digits: h counts 64s, l is the low digit. */
  lemma Recombine(h: int, l: int)
    requires 0 <= h && 0x80 <= l <= 0xBF
    ensures (h * 64 + l % 64) / 64 == h && Cont(h * 64 + l % 64) == l
  {
  }

  lemma LeadDigits(b: int)
    requires 0xC0 <= b <= 0xF7
    ensures b < 0xE0 ==> b % 32 == b - 0xC0 && b / 32 == 6
    ensures 0xE0 <= b < 0xF0 ==> b % 16 == b - 0xE0 && b / 32 == 7 && b / 16 == 14
    ensures 0xF0 <= b ==> b % 8 == b - 0xF0 && b / 32 == 7 && b / 16 == 15
  {
  }

  lemma CharDecodes2(c0: byte, c1: byte)
    requires 0xC2 <= c0 <= 0xDF && Tail(c1)
    ensures IsScalar(Fetch2(c0, c1)) && Encode(Fetch2(c0, c1)) == [c0, c1]
  {
    LeadDigits(c0);
    var h: int := c0 as int % 32;
    Recombine(h, c1);
  }

  lemma CharDecodes3(c0: byte, c1: byte, c2: byte)
    requires Char3(c0, c1, c2)
    ensures IsScalar(Fetch3(c0, c1, c2)) && Encode(Fetch3(c0, c1, c2)) == [c0, c1, c2]
  {
    LeadDigits(c0);
    var h: int := c0 as int % 16;
    var m: int := h * 64 + c1 as int % 64;
    var cp := Fetch3(c0, c1, c2);
    assert cp == m * 64 + c2 as int % 64;
    Recombine(h, c1);
    Recombine(m, c2);
    Digits(cp);
    assert cp / 64 == m && cp / 4096 == h;
    assert 0x7FF < cp <= 0xFFFF && IsScalar(cp);
  }

  lemma CharDecodes4(c0: byte, c1: byte, c2: byte, c3: byte)
    requires Char4(c0, c1, c2, c3)
    ensures IsScalar(Fetch4(c0, c1, c2, c3)) && Encode(Fetch4(c0, c1, c2, c3)) == [c0, c1, c2, c3]
  {
    LeadDigits(c0);
    var h: int := c0 as int % 8;
    var m1: int := h * 64 + c1 as int % 64;
    var m2: int := m1 * 64 + c2 as int % 64;
    var cp := Fetch4(c0, c1, c2, c3);
    assert cp == m2 * 64 + c3 as int % 64;
    Recombine(h, c1);
    Recombine(m1, c2);
    Recombine(m2, c3);
    Digits(cp);
    assert cp / 64 == m2 && cp / 4096 == m1 && cp / 262144 == h;
    assert 0x10000 <= cp <= 0x10FFFF;
  }

  lemma LeadLenOfChar(c: seq<byte>)
    requires Utf8Char(c)
    ensures LeadLen(c[0]) == |c|
  {
    if |c| > 1 {
      LeadDigits(c[0]);
    }
  }

  /** The lead byte fixes the length of a UTF8-char, and the fetched value is
      the scalar that encodes to it. */
  lemma CharDecodes(c: seq<byte>)
    requires Utf8Char(c)
    ensures LeadLen(c[0]) == |c|
    ensures IsScalar(FetchAt(c)) && Encode(FetchAt(c)) == c
  {
    LeadLenOfChar(c);
    if |c| == 1 {
      assert Encode(FetchAt(c)) == [c[0]] == c;
    } else if |c| == 2 {
      CharDecodes2(c[0], c[1]);
      assert c == [c[0], c[1]];
    } else if |c| == 3 {
      CharDecodes3(c[0], c[1], c[2]);
      assert c == [c[0], c[1], c[2]];
    } else {
      CharDecodes4(c[0], c[1], c[2], c[3]);
      assert c == [c[0], c[1], c[2], c[3]];
    }
  }

  /** Decoding one encoded scalar, whatever follows it. */
  lemma FetchEncode(cp: scalar, rest: seq<byte>)
    ensures LeadLen((Encode(cp) + rest)[0]) == |Encode(cp)|
    ensures FetchAt(Encode(cp) + rest) == cp
  {
    var c := Encode(cp);
    CharDecodes(c);
    assert forall i :: 0 <= i < |c| ==> (c + rest)[i] == c[i];
    assert FetchAt(c + rest) == FetchAt(c);
    EncodeInjective(FetchAt(c), cp);
  }

  lemma EncodeInjective(a: scalar, b: scalar)
    requires Encode(a) == Encode(b)
    ensures a == b
  {
    if a < b {
      var i := FirstDifference(a, b);
    } else if b < a {
      var i := FirstDifference(b, a);
    }
  }

  lemma {:induction false} EncodeAllConcat(a: seq<scalar>, b: seq<scalar>)
    ensures EncodeAll(a + b) == EncodeAll(a) + EncodeAll(b)
  {
    if a == [] {
      assert a + b == b;
    } else {
      assert (a + b)[0] == a[0] && (a + b)[1..] == a[1..] + b;
      EncodeAllConcat(a[1..], b);
    }
  }

  // ---------------------------------------------------------------------------
  // Well-formed byte strings are exactly the encodings
  // ---------------------------------------------------------------------------

  /** No UTF8-char is a proper prefix of another: at most one starts s. */
  lemma CharPrefixUnique(s: seq<byte>, j: nat, k: nat)
    requires StartsWithChar(s, j) && StartsWithChar(s, k)
    ensures j == k
  {
    CharDecodes(s[..j]);
    CharDecodes(s[..k]);
    assert s[..j][0] == s[..k][0] == s[0];
  }

  lemma WellFormedTail(s: seq<byte>, k: nat)
    requires StartsWithChar(s, k)
    ensures WellFormed(s) <==> WellFormed(s[k..])
  {
    if WellFormed(s) {
      var cs :| AllChars(cs) && Concat(cs) == s;
      assert StartsWithChar(s, |cs[0]|) by {
        assert s[..|cs[0]|] == cs[0];
      }
      CharPrefixUnique(s, |cs[0]|, k);
      assert AllChars(cs[1..]) && Concat(cs[1..]) == s[k..];
    }
    if WellFormed(s[k..]) {
      var cs :| AllChars(cs) && Concat(cs) == s[k..];
      var more := [s[..k]] + cs;
      assert more[1..] == cs;
      assert AllChars(more) && Concat(more) == s;
    }
  }

  lemma EmptyIsWellFormed()
    ensures WellFormed([])
  {
    assert AllChars([]) && Concat([]) == [];
  }

  lemma EncodePrefix(cp: scalar, rest: seq<byte>)
    ensures StartsWithChar(Encode(cp) + rest, |Encode(cp)|)
    ensures (Encode(cp) + rest)[|Encode(cp)|..] == rest
  {
    assert (Encode(cp) + rest)[..|Encode(cp)|] == Encode(cp);
  }

  lemma {:induction false} EncodeAllWellFormed(cps: seq<scalar>)
    ensures WellFormed(EncodeAll(cps))
  {
    if cps == [] {
      EmptyIsWellFormed();
    } else {
      EncodeAllWellFormed(cps[1..]);
      EncodePrefix(cps[0], EncodeAll(cps[1..]));
      WellFormedTail(EncodeAll(cps), |Encode(cps[0])|);
    }
  }

  /** Repeated ucb_uc_next_valid over a validated string. */
  function DecodeAll(s: seq<byte>): (cps: seq<scalar>)
    requires WellFormed(s)
    ensures EncodeAll(cps) == s
    decreases |s|
  {
    if s == [] then []
    else
      LeadOfWellFormed(s);
      [FetchAt(s)] + DecodeAll(s[LeadLen(s[0])..])
  }

  lemma LeadOfWellFormed(s: seq<byte>)
    requires WellFormed(s) && s != []
    ensures StartsWithChar(s, LeadLen(s[0]))
    ensures WellFormed(s[LeadLen(s[0])..])
    ensures IsScalar(FetchAt(s)) && Encode(FetchAt(s)) == s[..LeadLen(s[0])]
  {
    var cs :| AllChars(cs) && Concat(cs) == s;
    var k := |cs[0]|;
    assert s[..k] == cs[0];
    CharDecodes(cs[0]);
    WellFormedTail(s, k);
    assert FetchAt(s) == FetchAt(s[..k]);
  }

  lemma {:induction false} DecodeEncode(cps: seq<scalar>)
    ensures WellFormed(EncodeAll(cps))
    ensures DecodeAll(EncodeAll(cps)) == cps
  {
    EncodeAllWellFormed(cps);
    if cps != [] {
      FetchEncode(cps[0], EncodeAll(cps[1..]));
      EncodePrefix(cps[0], EncodeAll(cps[1..]));
      DecodeEncode(cps[1..]);
    }
  }

  /** The accepted strings are exactly the encodings of scalar sequences. */
  lemma WellFormedIffEncoding(s: seq<byte>)
    ensures WellFormed(s) <==> exists cps: seq<scalar> :: EncodeAll(cps) == s
  {
    if WellFormed(s) {
      assert EncodeAll(DecodeAll(s)) == s;
    }
    forall cps: seq<scalar> | EncodeAll(cps) == s
      ensures WellFormed(s)
    {
      EncodeAllWellFormed(cps);
    }
  }

  // ---------------------------------------------------------------------------
  // Byte order is code point order
  // ---------------------------------------------------------------------------

  /** Lexicographic three-way comparison, a proper prefix being smaller. */
  function Compare(a: seq<int>, b: seq<int>): (r: int)
    ensures -1 <= r <= 1
  {
    if a == [] && b == [] then 0
    else if a == [] then -1
    else if b == [] then 1
    else if a[0] < b[0] then -1
    else if a[0] > b[0] then 1
    else Compare(a[1..], b[1..])
  }

  /** a comes first: at the first place where they differ, or because it ends there. */
  predicate ComesBefore(a: seq<int>, b: seq<int>) {
    exists k :: 0 <= k < |b| && k <= |a| && a[..k] == b[..k] && (k == |a| || a[k] < b[k])
  }

  lemma {:induction false} CompareMeans(a: seq<int>, b: seq<int>)
    ensures Compare(a, b) == -1 <==> ComesBefore(a, b)
    ensures Compare(a, b) == 1 <==> ComesBefore(b, a)
    ensures Compare(a, b) == 0 <==> a == b
  {
    if a != [] && b != [] && a[0] == b[0] {
      CompareMeans(a[1..], b[1..]);
      BeforeInTails(a, b);
      BeforeInTails(b, a);
      assert a == [a[0]] + a[1..] && b == [b[0]] + b[1..];
    } else {
      BeforeAtOnce(a, b);
      BeforeAtOnce(b, a);
    }
  }

  lemma BeforeAtOnce(a: seq<int>, b: seq<int>)
    requires a == [] || b == [] || a[0] != b[0]
    ensures ComesBefore(a, b) <==> b != [] && (a == [] || a[0] < b[0])
  {
    if b != [] && (a == [] || a[0] < b[0]) {
      assert a[..0] == b[..0];
    }
    if a != [] && b != [] {
      forall k | 0 < k <= |a| && k <= |b| ensures a[..k] != b[..k] {
        assert a[..k][0] == a[0] && b[..k][0] == b[0];
      }
    }
  }

  lemma BeforeInTails(a: seq<int>, b: seq<int>)
    requires a != [] && b != [] && a[0] == b[0]
    ensures ComesBefore(a, b) <==> ComesBefore(a[1..], b[1..])
  {
    var x, y := a[1..], b[1..];
    if ComesBefore(a, b) {
      var k :| 0 <= k < |b| && k <= |a| && a[..k] == b[..k] && (k == |a| || a[k] < b[k]);
      assert x[..k - 1] == a[..k][1..] && y[..k - 1] == b[..k][1..];
    }
    if ComesBefore(x, y) {
      var k :| 0 <= k < |y| && k <= |x| && x[..k] == y[..k] && (k == |x| || x[k] < y[k]);
      assert a[..k + 1] == [a[0]] + x[..k] && b[..k + 1] == [b[0]] + y[..k];
    }
  }

  lemma {:induction false} CompareCommonPrefix(p: seq<int>, a: seq<int>, b: seq<int>)
    ensures Compare(p + a, p + b) == Compare(a, b)
  {
    if p == [] {
      assert p + a == a && p + b == b;
    } else {
      assert (p + a)[1..] == p[1..] + a && (p + b)[1..] == p[1..] + b;
      CompareCommonPrefix(p[1..], a, b);
    }
  }

  /** Distinct scalars compare like their encodings, whatever follows. */
  lemma EncodeOrder(a: scalar, b: scalar, x: seq<byte>, y: seq<byte>)
    requires a < b
    ensures Compare(Encode(a) + x, Encode(b) + y) == -1
    ensures Compare(Encode(b) + y, Encode(a) + x) == 1
  {
    var i := FirstDifference(a, b);
    var s, t := Encode(a) + x, Encode(b) + y;
    var p := Encode(a)[..i];
    assert s == p + s[i..] && t == p + t[i..];
    CompareCommonPrefix(p, s[i..], t[i..]);
    CompareCommonPrefix(p, t[i..], s[i..]);
  }

  lemma FirstDifference(a: scalar, b: scalar) returns (i: nat)
    requires a < b
    ensures i < |Encode(a)| && i < |Encode(b)|
    ensures Encode(a)[..i] == Encode(b)[..i] && Encode(a)[i] < Encode(b)[i]
  {
    Digits(a);
    Digits(b);
    if |Encode(a)| < |Encode(b)| {
      i := 0;
    } else {
      assert |Encode(a)| == |Encode(b)|;
      i := FirstDigit(a, b, |Encode(a)|);
    }
  }

  /** Among encodings of the same length n, the first differing base-64 digit
      decides. */
  lemma FirstDigit(a: scalar, b: scalar, n: nat) returns (i: nat)
    requires a < b && |Encode(a)| == |Encode(b)| == n
    ensures i < n && Encode(a)[..i] == Encode(b)[..i] && Encode(a)[i] < Encode(b)[i]
  {
    Digits(a);
    Digits(b);
    var x, y := Encode(a), Encode(b);
    if x[0] != y[0] {
      i := 0;
      assert x[0] < y[0];
    } else if x[1] != y[1] {
      i := 1;
      assert x[1] < y[1];
    } else if x[2] != y[2] {
      i := 2;
      assert x[2] < y[2];
    } else {
      i := 3;
      assert x[3] < y[3];
    }
  }

  /** Section 1 of RFC 3629: the byte-value lexicographic sorting order of UTF-8
      strings is the same as if ordered by character numbers. */
  lemma {:induction false} EncodeAllOrder(a: seq<scalar>, b: seq<scalar>)
    ensures Compare(EncodeAll(a), EncodeAll(b)) == Compare(a, b)
  {
    if a != [] && b != [] {
      if a[0] == b[0] {
        CompareCommonPrefix(Encode(a[0]), EncodeAll(a[1..]), EncodeAll(b[1..]));
        EncodeAllOrder(a[1..], b[1..]);
      } else if a[0] < b[0] {
        EncodeOrder(a[0], b[0], EncodeAll(a[1..]), EncodeAll(b[1..]));
      } else {
        EncodeOrder(b[0], a[0], EncodeAll(b[1..]), EncodeAll(a[1..]));
      }
    }
  }
}
