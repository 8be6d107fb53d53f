/** The UTF-8 loops of src/ucb/unicode.c, proved against module Utf8. */
module Utf8Codec {
  import opened Utf8
  import opened Buffer

  /** What ucb_uc_validate reports when it stops before the end. */
  datatype Verdict = Valid | Truncated(pos: nat, expected: nat) | Malformed(pos: nat)

  predicate LeadsWith(b: byte, n: nat) {
    (n == 2 && b / 32 == 6) || (n == 3 && b / 16 == 14) || (n == 4 && b / 8 == 30)
  }

  /** The first position at which no UTF8-char starts, everything before it
      being well formed. */
  ghost predicate StopsAt(s: seq<byte>, pos: nat) {
    && pos < |s|
    && WellFormed(s[..pos])
    && forall k: nat :: !StartsWithChar(s[pos..], k)
  }

  lemma StopsMeansIllFormed(s: seq<byte>, pos: nat)
    requires StopsAt(s, pos)
    ensures !WellFormed(s)
  {
    var cps := DecodeAll(s[..pos]);
    SuffixDecides(cps, s[pos..]);
    assert s == EncodeAll(cps) + s[pos..];
    if WellFormed(s[pos..]) {
      LeadOfWellFormed(s[pos..]);
    }
  }

  lemma {:induction false} SuffixDecides(cps: seq<scalar>, rest: seq<byte>)
    ensures WellFormed(EncodeAll(cps) + rest) <==> WellFormed(rest)
  {
    if cps == [] {
      assert EncodeAll(cps) + rest == rest;
    } else {
      var s := EncodeAll(cps) + rest;
      var tail := EncodeAll(cps[1..]) + rest;
      assert s == Encode(cps[0]) + tail;
      EncodePrefix(cps[0], tail);
      WellFormedTail(s, |Encode(cps[0])|);
      SuffixDecides(cps[1..], rest);
    }
  }

  lemma WellFormedExtend(s: seq<byte>, i: nat, k: nat)
    requires i <= |s| && WellFormed(s[..i]) && StartsWithChar(s[i..], k)
    ensures i + k <= |s| && WellFormed(s[..i + k])
  {
    var cps := DecodeAll(s[..i]);
    var c := s[i..][..k];
    assert s[..i + k] == EncodeAll(cps) + c;
    SuffixDecides(cps, c);
    assert c[..k] == c && c[k..] == [];
    EmptyIsWellFormed();
    WellFormedTail(c, k);
  }

  lemma CharRanges2(c0: byte, c1: byte)
    ensures c0 / 32 == 6 && c1 / 64 == 2 && Fetch2(c0, c1) >= 0x80 <==> 0xC2 <= c0 <= 0xDF && Tail(c1)
  {
  }

  lemma CharRanges3(c0: byte, c1: byte, c2: byte)
    requires c0 / 16 == 14
    ensures c1 / 64 == 2 && c2 / 64 == 2 && 0x800 <= Fetch3(c0, c1, c2) && !(0xD800 <= Fetch3(c0, c1, c2) <= 0xDFFF)
      <==> Char3(c0, c1, c2)
  {
    assert c0 as int % 16 == c0 as int - 0xE0;
    if c1 / 64 == 2 && c2 / 64 == 2 {
      assert c1 as int % 64 == c1 as int - 0x80 && c2 as int % 64 == c2 as int - 0x80;
    }
  }

  lemma CharRanges4(c0: byte, c1: byte, c2: byte, c3: byte)
    requires c0 / 8 == 30
    ensures c1 / 64 == 2 && c2 / 64 == 2 && c3 / 64 == 2 && 0x10000 <= Fetch4(c0, c1, c2, c3) <= 0x10FFFF
      <==> Char4(c0, c1, c2, c3)
  {
    assert c0 as int % 8 == c0 as int - 0xF0;
    if c1 / 64 == 2 && c2 / 64 == 2 && c3 / 64 == 2 {
      assert c1 as int % 64 == c1 as int - 0x80;
    }
  }

  /** One step of the validator at the start of a non-empty r: the length of
      the sequence it accepts, or 0. */
  function StepLen(r: seq<byte>): nat
    requires r != []
  {
    if r[0] < 0x80 then 1
    else if r[0] / 32 == 6 then
      if |r| < 2 || r[1] / 64 != 2 || Fetch2(r[0], r[1]) < 0x80 then 0 else 2
    else if r[0] / 16 == 14 then
      if |r| < 3 || r[1] / 64 != 2 || r[2] / 64 != 2 then 0
      else
        var cp := Fetch3(r[0], r[1], r[2]);
        if cp < 0x800 || 0xD800 <= cp <= 0xDFFF then 0 else 3
    else if r[0] / 8 == 30 then
      if |r| < 4 || r[1] / 64 != 2 || r[2] / 64 != 2 || r[3] / 64 != 2 then 0
      else
        var cp := Fetch4(r[0], r[1], r[2], r[3]);
        if cp < 0x10000 || cp > 0x10FFFF then 0 else 4
    else 0
  }

  /** The validator's masks and range tests are the grammar. */
  lemma StepLenIsGrammar(r: seq<byte>, k: nat)
    requires r != []
    ensures StartsWithChar(r, k) <==> k == StepLen(r) > 0
  {
    if |r| >= 2 {
      CharRanges2(r[0], r[1]);
    }
    if |r| >= 3 && r[0] / 16 == 14 {
      CharRanges3(r[0], r[1], r[2]);
    }
    if |r| >= 4 && r[0] / 8 == 30 {
      CharRanges4(r[0], r[1], r[2], r[3]);
    }
  }

  /** ucb_uc_validate. A truncated sequence is one whose lead byte announces
      more bytes than are left. */
  method Validate(s: seq<byte>) returns (v: Verdict)
    ensures v.Valid? <==> WellFormed(s)
    ensures !v.Valid? ==> StopsAt(s, v.pos)
    ensures v.Truncated? ==> LeadsWith(s[v.pos], v.expected) && v.pos + v.expected > |s|
    ensures v.Malformed? ==> forall n: nat :: LeadsWith(s[v.pos], n) ==> v.pos + n <= |s|
  {
    var i := 0;
    EmptyIsWellFormed();
    assert s[..0] == [];
    while i < |s|
      invariant i <= |s| && WellFormed(s[..i])
    {
      ghost var r := s[i..];
      assert forall j :: 0 <= j < |r| ==> r[j] == s[i + j];
      forall k: nat ensures StartsWithChar(r, k) <==> k == StepLen(r) > 0 {
        StepLenIsGrammar(r, k);
      }
      if StepLen(r) > 0 {
        WellFormedExtend(s, i, StepLen(r));
      } else {
        StopsMeansIllFormed(s, i);
      }
      var c := s[i];
      if c < 0x80 {
        i := i + 1;
        continue;
      }
      if c / 32 == 6 {
        if i + 1 >= |s| {
          return Truncated(i, 2);
        }
        if s[i + 1] / 64 != 2 || Fetch2(c, s[i + 1]) < 0x80 {
          return Malformed(i);
        }
        i := i + 2;
      } else if c / 16 == 14 {
        if i + 2 >= |s| {
          return Truncated(i, 3);
        }
        if s[i + 1] / 64 != 2 || s[i + 2] / 64 != 2 {
          return Malformed(i);
        }
        var cp := Fetch3(c, s[i + 1], s[i + 2]);
        if cp < 0x800 || 0xD800 <= cp <= 0xDFFF {
          return Malformed(i);
        }
        i := i + 3;
      } else if c / 8 == 30 {
        if i + 3 >= |s| {
          return Truncated(i, 4);
        }
        if s[i + 1] / 64 != 2 || s[i + 2] / 64 != 2 || s[i + 3] / 64 != 2 {
          return Malformed(i);
        }
        var cp := Fetch4(c, s[i + 1], s[i + 2], s[i + 3]);
        if cp < 0x10000 || cp > 0x10FFFF {
          return Malformed(i);
        }
        i := i + 4;
      } else {
        return Malformed(i);
      }
    }
    assert s[..i] == s;
    return Verdict.Valid;
  }

  /** ucb_uc_encode_codepoint with a destination: writes at off and returns the
      length, or -1 for a surrogate or a value beyond the code space. */
  method EncodeCodepoint(dst: array<byte>, off: nat, cp: nat) returns (len: int)
    requires off + 4 <= dst.Length
    modifies dst
    ensures IsScalar(cp) ==> len == |Encode(cp)| && dst[..off + len] == old(dst[..off]) + Encode(cp)
    ensures !IsScalar(cp) ==> len == -1
    ensures forall i :: 0 <= i < dst.Length && !(off <= i < off + len) ==> dst[i] == old(dst[i])
  {
    if cp <= 0x7F {
      dst[off] := cp;
      return 1;
    }
    EncodeDigits(cp);
    if cp <= 0x7FF {
      dst[off] := 0xC0 + cp / 64;
      dst[off + 1] := 0x80 + cp % 64;
      return 2;
    }
    if cp <= 0xFFFF {
      if 0xD800 <= cp <= 0xDFFF {
        return -1;
      }
      dst[off] := 0xE0 + cp / 4096;
      dst[off + 1] := 0x80 + cp / 64 % 64;
      dst[off + 2] := 0x80 + cp % 64;
      return 3;
    }
    if cp <= 0x10FFFF {
      dst[off] := 0xF0 + cp / 262144;
      dst[off + 1] := 0x80 + cp / 4096 % 64;
      dst[off + 2] := 0x80 + cp / 64 % 64;
      dst[off + 3] := 0x80 + cp % 64;
      return 4;
    }
    return -1;
  }

  /** The bytes that the four branches write. */
  lemma EncodeDigits(cp: nat)
    ensures cp <= 0x10FFFF ==> 0 <= cp / 262144 <= 4 && 0 <= cp / 4096 && (cp <= 0xFFFF ==> cp / 4096 < 16)
    ensures 0x7F < cp <= 0x7FF ==> cp / 64 < 32 && Encode(cp) == [0xC0 + cp / 64, 0x80 + cp % 64]
    ensures 0x7FF < cp <= 0xFFFF && IsScalar(cp) ==>
              Encode(cp) == [0xE0 + cp / 4096, 0x80 + cp / 64 % 64, 0x80 + cp % 64]
    ensures 0xFFFF < cp <= 0x10FFFF ==>
              Encode(cp) == [0xF0 + cp / 262144, 0x80 + cp / 4096 % 64, 0x80 + cp / 64 % 64, 0x80 + cp % 64]
  {
    if cp <= 0x10FFFF {
      Digits(cp);
    }
  }

  ghost predicate AllScalars(cps: seq<nat>) {
    forall i :: 0 <= i < |cps| ==> IsScalar(cps[i])
  }

  lemma EncodeAllSnoc(cps: seq<scalar>, cp: scalar)
    ensures EncodeAll(cps + [cp]) == EncodeAll(cps) + Encode(cp)
  {
    EncodeAllConcat(cps, [cp]);
    assert EncodeAll([cp]) == Encode(cp) + EncodeAll([]) == Encode(cp);
  }

  /** One turn of the loop below: encode cps[i] behind the bytes not yet sent. */
  method EncodeNext(scratch: array<byte>, len: nat, cps: seq<nat>, i: nat, ghost sent: seq<byte>) returns (res: int)
    requires i < |cps| && len + 4 <= scratch.Length
    requires AllScalars(cps[..i]) && sent + scratch[..len] == EncodeAll(cps[..i])
    modifies scratch
    ensures res < 0 <==> !IsScalar(cps[i])
    ensures res >= 0 ==> res <= 4 && AllScalars(cps[..i + 1])
    ensures res >= 0 ==> sent + scratch[..len + res] == EncodeAll(cps[..i + 1])
  {
    ghost var unsent := scratch[..len];
    res := EncodeCodepoint(scratch, len, cps[i]);
    if res >= 0 {
      EncodePrefixStep(cps, i);
      assert sent + (unsent + Encode(cps[i])) == sent + unsent + Encode(cps[i]);
    }
  }

  /** ucb_uc_encode_codepoints. The scratch array holds 5 * multi bytes and is
      pushed once 4 * multi of them are used; with multi >= 3 a further
      sequence of 4 bytes always fits, so no write leaves the array. */
  method EncodeCodepoints(buf: ByteBuffer, cps: seq<nat>, multi: nat) returns (ok: bool)
    requires multi >= 3 && buf.Valid()
    modifies buf, buf.data
    ensures buf.Valid() && (buf.data == old(buf.data) || fresh(buf.data))
    ensures ok <==> Succeeds(Start(old(buf.Contents()), old(buf.data.Length)), cps, buf.doubling, buf.largest)
    ensures ok ==> buf.Contents() == old(buf.Contents()) + EncodeAll(cps)
    ensures ok ==> buf.data.Length == Capacity(old(buf.data.Length), old(buf.size) + |EncodeAll(cps)|, buf.doubling)
    ensures !ok ==> old(buf.Contents()) <= buf.Contents()
  {
    ghost var start := Start(buf.Contents(), buf.data.Length);
    ghost var sent;
    ok, sent := EncodeChunks(buf, cps, multi, start);
  }

  /** The whole of it, relative to the state at the beginning. */
  method EncodeChunks(buf: ByteBuffer, cps: seq<nat>, multi: nat, ghost start: Start) returns (ok: bool, ghost sent: seq<byte>)
    requires multi >= 3 && Sending(buf, start, [])
    modifies buf, buf.data
    ensures buf.data == old(buf.data) || fresh(buf.data)
    ensures Sending(buf, start, sent)
    ensures ok <==> Succeeds(start, cps, buf.doubling, buf.largest)
    ensures ok ==> sent == EncodeAll(cps)
  {
    var scratch := new byte[5 * multi](_ => 0);
    var len: nat := 0;
    sent := [];
    for i := 0 to |cps|
      invariant len < 4 * multi
      invariant Sending(buf, start, sent) && scratch != buf.data
      invariant buf.data == old(buf.data) || fresh(buf.data)
      invariant AllScalars(cps[..i]) && sent + scratch[..len] == EncodeAll(cps[..i])
    {
      ok, len, sent := EncodeTurn(buf, scratch, len, cps, i, 4 * multi, start, sent);
      if !ok {
        return;
      }
    }
    assert cps[..|cps|] == cps;
    ok, sent := Send(buf, scratch[..len], start, sent);
  }

  /** The buffer at the beginning. */
  datatype Start = Start(contents: seq<byte>, capacity: nat)

  /** The buffer after the bytes sent so far. */
  ghost predicate Sending(buf: ByteBuffer, start: Start, sent: seq<byte>)
    reads buf, buf.data
  {
    buf.Valid() && buf.Contents() == start.contents + sent && Grew(start, buf.data.Length, |sent|, buf.doubling)
  }

  /** The capacity after a number of bytes is the one they need. */
  ghost predicate Grew(start: Start, capacity: nat, sent: nat, doubling: bool) {
    start.capacity <= SIZE_MAX && capacity == Capacity(start.capacity, |start.contents| + sent, doubling)
  }

  /** The text is encoded and fits. */
  ghost predicate Succeeds(start: Start, cps: seq<nat>, doubling: bool, largest: nat) {
    AllScalars(cps) && !Refused(start, |EncodeAll(cps)|, doubling, largest)
  }

  /** One turn of the loop: encode cps[i], and push if the limit is reached. */
  method EncodeTurn(buf: ByteBuffer, scratch: array<byte>, len: nat, cps: seq<nat>, i: nat, limit: nat,
                    ghost start: Start, ghost sent: seq<byte>)
    returns (ok: bool, len': nat, ghost sent': seq<byte>)
    requires i < |cps| && len + 4 <= scratch.Length && limit > 0
    requires Sending(buf, start, sent) && scratch != buf.data
    requires AllScalars(cps[..i]) && sent + scratch[..len] == EncodeAll(cps[..i])
    modifies buf, buf.data, scratch
    ensures buf.data == old(buf.data) || fresh(buf.data)
    ensures Sending(buf, start, sent')
    ensures ok ==> len' < limit && len' <= scratch.Length && AllScalars(cps[..i + 1])
    ensures ok ==> sent' + scratch[..len'] == EncodeAll(cps[..i + 1])
    ensures !ok ==> !Succeeds(start, cps, buf.doubling, buf.largest)
  {
    var res := EncodeNext(scratch, len, cps, i, sent);
    if res < 0 {
      return false, len, sent;
    }
    assert Sending(buf, start, sent);
    ok, len', sent' := SendFull(buf, scratch, len + res, limit, start, sent);
    if !ok {
      TooLarge(start, buf.doubling, buf.largest, cps, i + 1);
    }
  }

  /** What does not fit after some code points does not fit after all of them. */
  lemma TooLarge(start: Start, doubling: bool, largest: nat, cps: seq<nat>, i: nat)
    requires i <= |cps| && AllScalars(cps[..i]) && Refused(start, |EncodeAll(cps[..i])|, doubling, largest)
    ensures AllScalars(cps) ==> Refused(start, |EncodeAll(cps)|, doubling, largest)
  {
    if AllScalars(cps) {
      EncodePrefixShorter(cps, i);
      CapacityGrows(start.capacity, |start.contents| + |EncodeAll(cps[..i])|, |start.contents| + |EncodeAll(cps)|, doubling);
    }
  }

  lemma EncodePrefixShorter(cps: seq<scalar>, i: nat)
    requires i <= |cps|
    ensures |EncodeAll(cps[..i])| <= |EncodeAll(cps)|
  {
    EncodeAllConcat(cps[..i], cps[i..]);
    assert cps[..i] + cps[i..] == cps;
  }

  /** Push the first len scratch bytes if they reach the limit. */
  method SendFull(buf: ByteBuffer, scratch: array<byte>, len: nat, limit: nat, ghost start: Start, ghost sent: seq<byte>)
    returns (ok: bool, len': nat, ghost sent': seq<byte>)
    requires Sending(buf, start, sent) && scratch != buf.data && len <= scratch.Length && limit > 0
    modifies buf, buf.data
    ensures buf.data == old(buf.data) || fresh(buf.data)
    ensures Sending(buf, start, sent')
    ensures ok ==> len' < limit && len' <= scratch.Length && sent' + scratch[..len'] == sent + scratch[..len]
    ensures !ok ==> Refused(start, |sent + scratch[..len]|, buf.doubling, buf.largest)
  {
    ok, len', sent' := true, len, sent;
    if len >= limit {
      ok, sent' := Send(buf, scratch[..len], start, sent);
      len' := 0;
      assert sent' + scratch[..len'] == sent';
    }
  }

  /** The buffer refuses to hold that many bytes more than at the beginning. */
  ghost predicate Refused(start: Start, more: nat, doubling: bool, largest: nat) {
    start.capacity <= SIZE_MAX && Capacity(start.capacity, |start.contents| + more, doubling) > largest
  }

  method Send(buf: ByteBuffer, bytes: seq<byte>, ghost start: Start, ghost sent: seq<byte>)
    returns (ok: bool, ghost sent': seq<byte>)
    requires Sending(buf, start, sent)
    modifies buf, buf.data
    ensures buf.data == old(buf.data) || fresh(buf.data)
    ensures Sending(buf, start, sent') && sent' == if ok then sent + bytes else sent
    ensures ok <==> !Refused(start, |sent + bytes|, buf.doubling, buf.largest)
  {
    StepFits(start, buf.data.Length, |sent|, |bytes|, buf.doubling);
    assert start.contents + (sent + bytes) == (start.contents + sent) + bytes;
    if |bytes| == 0 {
      return true, sent + bytes;
    }
    ok := buf.Push(bytes);
    sent' := if ok then sent + bytes else sent;
  }

  lemma StepFits(start: Start, capacity: nat, sent: nat, more: nat, doubling: bool)
    requires Grew(start, capacity, sent, doubling) && capacity <= SIZE_MAX
    ensures Grew(start, Capacity(capacity, |start.contents| + sent + more, doubling), sent + more, doubling)
  {
    CapacityInSteps(start.capacity, |start.contents| + sent, |start.contents| + sent + more, doubling);
  }

  lemma EncodePrefixStep(cps: seq<nat>, i: nat)
    requires i < |cps| && AllScalars(cps[..i]) && IsScalar(cps[i])
    ensures AllScalars(cps[..i + 1])
    ensures EncodeAll(cps[..i + 1]) == EncodeAll(cps[..i]) + Encode(cps[i])
  {
    assert cps[..i + 1] == cps[..i] + [cps[i]];
    EncodeAllSnoc(cps[..i], cps[i]);
  }

  lemma DecodeAllStep(s: seq<byte>, pos: nat, len: nat, cp: nat)
    requires pos < |s| && WellFormed(s[pos..]) && len == LeadLen(s[pos]) && cp == FetchAt(s[pos..])
    ensures pos < pos + len <= |s| && WellFormed(s[pos + len..])
    ensures IsScalar(cp) && DecodeAll(s[pos..]) == [cp] + DecodeAll(s[pos + len..])
  {
    LeadOfWellFormed(s[pos..]);
    assert s[pos..][len..] == s[pos + len..];
  }

  /** ucb_uc_iter_next at a position before the end: decode and step over one
      code point. */
  method NextValid(s: seq<byte>, pos: nat) returns (cp: scalar, next: nat)
    requires pos < |s| && WellFormed(s[pos..])
    ensures pos < next <= |s| && WellFormed(s[next..])
    ensures DecodeAll(s[pos..]) == [cp] + DecodeAll(s[next..])
  {
    var len, value := LeadLen(s[pos]), FetchAt(s[pos..]);
    DecodeAllStep(s, pos, len, value);
    cp, next := value, pos + len;
  }

  /** ucb_uc_num_cp: counting lead bytes skips exactly one scalar at a time. */
  method NumCodepoints(s: seq<byte>) returns (num: nat)
    requires WellFormed(s)
    ensures num == |DecodeAll(s)|
  {
    num := 0;
    var pos := 0;
    while pos < |s|
      invariant pos <= |s| && WellFormed(s[pos..])
      invariant num + |DecodeAll(s[pos..])| == |DecodeAll(s)|
    {
      var cp;
      cp, pos := NextValid(s, pos);
      num := num + 1;
    }
  }
}
