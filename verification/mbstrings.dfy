/** Counting the code points of a UTF-8 string the way the game counts the
    characters of a player's name. */
module MbStrings {
  import opened Wrappers

  newtype byte = x: int | 0 <= x < 256

  /** The bytes of a C string before its terminator hold no NUL. */
  predicate NulFree(s: seq<byte>) {
    forall i :: 0 <= i < |s| ==> s[i] != 0
  }

  /** Byte `i` of the C string: at and past the end lies the terminator. */
  function At(s: seq<byte>, i: nat): byte {
    if i < |s| then s[i] else 0
  }

  /** The number of bytes a lead byte announces, or 0 when the byte starts
      no code point. The tests run in the source's order; each compares the
      byte's top bits, so `b / 2^k` stands for masking off the low k bits. */
  function LeadLength(b: byte): nat {
    if b / 128 == 0 then 1         // 0xxxxxxx
    else if b / 32 == 6 then 2     // 110xxxxx
    else if b / 16 == 14 then 3    // 1110xxxx
    else if b / 8 == 30 then 4     // 11110xxx
    else 0
  }

  /** A continuation byte, 10xxxxxx. */
  predicate IsCont(b: byte) {
    b / 64 == 2
  }

  /** The grammar the decoder accepts: a sequence of chunks, each a lead
      byte followed by as many continuation bytes as the lead announces. */
  predicate ValidChunks(s: seq<byte>)
    decreases |s|
  {
    |s| == 0 ||
    (var n := LeadLength(s[0]);
     && 1 <= n <= |s|
     && (forall i :: 1 <= i < n ==> IsCont(s[i]))
     && ValidChunks(s[n..]))
  }

  /** The number of bytes that are not continuation bytes. */
  function LeadCount(s: seq<byte>): (r: nat)
    ensures r <= |s|
  {
    if |s| == 0 then 0 else (if IsCont(s[0]) then 0 else 1) + LeadCount(s[1..])
  }

  /** One chunk holds one lead byte. */
  lemma {:induction false} LeadCountChunk(t: seq<byte>, n: nat)
    requires 1 <= n <= |t| && LeadLength(t[0]) == n
    requires forall i :: 1 <= i < n ==> IsCont(t[i])
    ensures LeadCount(t) == 1 + LeadCount(t[n..])
  {
    var k := 1;
    while k < n
      invariant 1 <= k <= n
      invariant LeadCount(t) == 1 + LeadCount(t[k..])
    {
      assert t[k..][0] == t[k] && t[k..][1..] == t[k + 1..];
      k := k + 1;
    }
  }

  /** mbslen: -1 for a NULL pointer or a byte sequence outside the chunk
      grammar, otherwise the number of code points. */
  method Mbslen(bytes: Option<seq<byte>>) returns (r: int)
    requires bytes.Some? ==> NulFree(bytes.value)
    ensures bytes.None? ==> r == -1
    ensures bytes.Some? && ValidChunks(bytes.value) ==> r == LeadCount(bytes.value)
    ensures bytes.Some? && !ValidChunks(bytes.value) ==> r == -1
  {
    if bytes.None? {
      return -1;
    }
    var s := bytes.value;
    var count := 0;
    var p := 0;
    while At(s, p) != 0
      invariant 0 <= p <= |s|
      invariant ValidChunks(s) <==> ValidChunks(s[p..])
      invariant ValidChunks(s[p..]) ==> count + LeadCount(s[p..]) == LeadCount(s)
      decreases |s| - p
    {
      var cur := s[p..];
      var n := LeadLength(cur[0]);
      if n == 0 {
        return -1;
      }
      var i := 1;
      while i < n
        invariant 1 <= i <= n
        invariant i <= |cur|
        invariant forall j :: 1 <= j < i ==> IsCont(cur[j])
      {
        if !IsCont(At(cur, i)) {
          return -1;
        }
        i := i + 1;
      }
      assert cur[n..] == s[p + n..];
      if ValidChunks(cur) {
        LeadCountChunk(cur, n);
      }
      p := p + n;
      count := count + 1;
    }
    assert s[p..] == [];
    return count;
  }

  // Properties of the reference definitions.

  lemma {:induction false} LeadCountAppend(a: seq<byte>, b: seq<byte>)
    ensures LeadCount(a + b) == LeadCount(a) + LeadCount(b)
    decreases |a|
  {
    if |a| > 0 {
      assert (a + b)[1..] == a[1..] + b;
      LeadCountAppend(a[1..], b);
    } else {
      assert a + b == b;
    }
  }

  /** After a string of whole chunks, the grammar restarts. */
  lemma {:induction false} ValidChunksAppend(a: seq<byte>, b: seq<byte>)
    requires ValidChunks(a)
    ensures ValidChunks(a + b) <==> ValidChunks(b)
    decreases |a|
  {
    if |a| == 0 {
      assert a + b == b;
    } else {
      var n := LeadLength(a[0]);
      assert (a + b)[0] == a[0];
      assert forall i :: 1 <= i < n ==> (a + b)[i] == a[i];
      assert (a + b)[n..] == a[n..] + b;
      ValidChunksAppend(a[n..], b);
    }
  }

  /** The code points of two valid strings add up when they are joined. */
  lemma ConcatCounts(a: seq<byte>, b: seq<byte>)
    requires ValidChunks(a) && ValidChunks(b)
    ensures ValidChunks(a + b) && LeadCount(a + b) == LeadCount(a) + LeadCount(b)
  {
    ValidChunksAppend(a, b);
    LeadCountAppend(a, b);
  }

  /** A string of 7-bit bytes is valid and has one code point per byte. */
  lemma {:induction false} AsciiLength(s: seq<byte>)
    requires forall i :: 0 <= i < |s| ==> s[i] < 128
    ensures ValidChunks(s) && LeadCount(s) == |s|
    decreases |s|
  {
    if |s| > 0 {
      AsciiLength(s[1..]);
    }
  }

  /** A byte the decoder cannot start on makes the string invalid: a stray
      continuation byte, or 11111xxx. */
  lemma BadLeadRejected(s: seq<byte>)
    requires |s| > 0 && (IsCont(s[0]) || s[0] >= 248)
    ensures !ValidChunks(s)
  {
  }

  // The encoder as an independent partner of the decoder.

  /** The UTF-8 encoding of one code point (the classic bit layout). */
  function Encode(cp: nat): (r: seq<byte>)
    requires cp < 0x11_0000
    ensures 1 <= |r| <= 4
  {
    if cp < 0x80 then [cp as byte]
    else if cp < 0x800 then [(0xC0 + cp / 64) as byte, (0x80 + cp % 64) as byte]
    else if cp < 0x1_0000 then
      [(0xE0 + cp / 4096) as byte, (0x80 + cp / 64 % 64) as byte, (0x80 + cp % 64) as byte]
    else
      [(0xF0 + cp / 262144) as byte, (0x80 + cp / 4096 % 64) as byte,
       (0x80 + cp / 64 % 64) as byte, (0x80 + cp % 64) as byte]
  }

  function EncodeAll(cps: seq<nat>): seq<byte>
    requires forall i :: 0 <= i < |cps| ==> cps[i] < 0x11_0000
  {
    if |cps| == 0 then [] else Encode(cps[0]) + EncodeAll(cps[1..])
  }

  /** One encoded code point is one chunk, and NUL-free unless it is U+0000. */
  lemma EncodeOne(cp: nat)
    requires cp < 0x11_0000
    ensures ValidChunks(Encode(cp)) && LeadCount(Encode(cp)) == 1
    ensures cp != 0 ==> NulFree(Encode(cp))
  {
    var e := Encode(cp);
    assert e[|e|..] == [];
    LeadCountChunk(e, |e|);
  }

  /** The decoder counts exactly the code points the encoder was given: for
      every list of code points other than U+0000, the encoding is a valid,
      NUL-free C string whose length in code points is the list's length. */
  lemma {:induction false} EncodeAllRoundTrip(cps: seq<nat>)
    requires forall i :: 0 <= i < |cps| ==> 0 < cps[i] < 0x11_0000
    ensures NulFree(EncodeAll(cps))
    ensures ValidChunks(EncodeAll(cps)) && LeadCount(EncodeAll(cps)) == |cps|
    decreases |cps|
  {
    if |cps| > 0 {
      EncodeOne(cps[0]);
      EncodeAllRoundTrip(cps[1..]);
      ConcatCounts(Encode(cps[0]), EncodeAll(cps[1..]));
    }
  }
}
