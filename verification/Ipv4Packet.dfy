/** Fragmentation and reassembly of IPv4 packets and the header checksum (sections 3.1 and 3.2 of RFC 791). */
module Ipv4Module {
  import opened Bits

  type Byte = x: nat | x < 256
  type Word = x: nat | x < 0x10000

  const IP_MF := 0x2000

  // ---------------------------------------------------------------- fields

  /** The number of bytes of the header. */
  function HeaderLength(u: seq<Byte>): nat
    requires u != []
  {
    (u[0] % 16) * 4
  }

  function ReadU16(u: seq<Byte>, i: nat): Word
    requires i + 1 < |u|
  {
    var hi: nat := u[i];
    hi * 256 + u[i + 1]
  }

  function WriteU16(u: seq<Byte>, i: nat, v: Word): (r: seq<Byte>)
    requires i + 1 < |u|
    ensures |r| == |u| && ReadU16(r, i) == v
    ensures forall k :: 0 <= k < |u| && k != i && k != i + 1 ==> r[k] == u[k]
  {
    u[i := v / 256][i + 1 := v % 256]
  }

  /** The header is complete and the packet's length fits its field. */
  predicate Whole(u: seq<Byte>) { u != [] && 20 <= HeaderLength(u) <= |u| < 0x10000 }

  function TotalLength(u: seq<Byte>): Word requires Whole(u) { ReadU16(u, 2) }
  function Ident(u: seq<Byte>): Word requires Whole(u) { ReadU16(u, 4) }
  function Flags(u: seq<Byte>): Word requires Whole(u) { ReadU16(u, 6) }
  function Checksum(u: seq<Byte>): Word requires Whole(u) { ReadU16(u, 10) }
  function Offset(u: seq<Byte>): nat requires Whole(u) { Flags(u) % IP_MF }
  predicate MoreFragments(u: seq<Byte>) requires Whole(u) { Flags(u) / IP_MF % 2 == 1 }
  function Payload(u: seq<Byte>): seq<Byte> requires Whole(u) { u[HeaderLength(u)..] }
  predicate IsFragment(u: seq<Byte>) requires Whole(u) { Ident(u) != 0 && (MoreFragments(u) || Offset(u) != 0) }

  // ---------------------------------------------------------------- the checksum

  /** The sum of the header's words below index n, without the checksum. */
  function HeaderSum(u: seq<Byte>, n: nat): nat
    requires n % 2 == 0 && n <= |u|
  {
    if n == 0 then 0 else HeaderSum(u, n - 2) + if n - 2 == 10 then 0 else ReadU16(u, n - 2)
  }

  /** Add the carries until the sum fits 16 bits. */
  function Folded(s: nat): (f: Word)
    ensures f % 0xFFFF == s % 0xFFFF && (f == 0 <==> s == 0)
  {
    if s / 0x10000 == 0 then s
    else
      var t := s % 0x10000 + s / 0x10000;
      FoldStep(s, t);
      Folded(t)
  }

  lemma FoldStep(s: nat, t: nat)
    requires s / 0x10000 != 0 && t == s % 0x10000 + s / 0x10000
    ensures t < s && t > 0 && t % 0xFFFF == s % 0xFFFF
  {
    var q := s / 0x10000;
    assert s == t + 0xFFFF * q;
    ModUnique(s, 0xFFFF, t / 0xFFFF + q, t % 0xFFFF);
  }

  function ComputedChecksum(u: seq<Byte>): Word
    requires Whole(u)
  {
    0xFFFF - Folded(HeaderSum(u, HeaderLength(u)))
  }

  predicate HasValidChecksum(u: seq<Byte>) requires Whole(u) { Checksum(u) == ComputedChecksum(u) }

  /** The stored checksum makes the ones' complement sum of the whole header zero exactly when it is the
      computed one, or the other representation of zero. */
  lemma ChecksumIff(u: seq<Byte>)
    requires Whole(u)
    ensures (HeaderSum(u, HeaderLength(u)) + Checksum(u)) % 0xFFFF == 0
       <==> HasValidChecksum(u) || (ComputedChecksum(u) == 0 && Checksum(u) == 0xFFFF)
  {
    HeaderSumStarts(u, HeaderLength(u));
    var s: nat, c: nat := HeaderSum(u, HeaderLength(u)), Checksum(u);
    var f: nat := Folded(s);
    assert f > 0 && ComputedChecksum(u) == 0xFFFF - f;
    var q, p := s / 0xFFFF, f / 0xFFFF;
    assert s == 0xFFFF * q + s % 0xFFFF && f == 0xFFFF * p + s % 0xFFFF;
    ModShift(f + c, q - p, s + c);
    hide Folded;
    Residue(f, c);
  }

  /** The first word, which holds the header length, keeps the sum of a whole header from being zero. */
  lemma {:induction false} HeaderSumStarts(u: seq<Byte>, n: nat)
    requires 2 <= n <= |u| && n % 2 == 0
    ensures HeaderSum(u, n) >= ReadU16(u, 0)
    decreases n
  {
    if n > 2 { HeaderSumStarts(u, n - 2); }
  }

  lemma ModShift(a: nat, k: int, b: nat)
    requires b == a + 0xFFFF * k
    ensures b % 0xFFFF == a % 0xFFFF
  {
    ModUnique(b, 0xFFFF, a / 0xFFFF + k, a % 0xFFFF);
  }

  lemma Residue(f: nat, c: nat)
    requires 0 < f < 0x10000 && c < 0x10000
    ensures (f + c) % 0xFFFF == 0 <==> c == 0xFFFF - f || (f == 0xFFFF && c == 0xFFFF)
  {
  }

  /** The packet with its checksum computed. */
  function Sealed(u: seq<Byte>): (r: seq<Byte>)
    requires Whole(u)
    ensures |r| == |u| && (forall k :: 0 <= k < |u| && k != 10 && k != 11 ==> r[k] == u[k])
    ensures Whole(r) && HasValidChecksum(r)
  {
    var r := WriteU16(u, 10, ComputedChecksum(u));
    SameSum(u, r, HeaderLength(u));
    r
  }

  lemma {:induction false} SameSum(u: seq<Byte>, v: seq<Byte>, n: nat)
    requires n % 2 == 0 && n <= |u| == |v| && forall k :: 0 <= k < |u| && k != 10 && k != 11 ==> u[k] == v[k]
    ensures HeaderSum(u, n) == HeaderSum(v, n)
  {
    if n > 0 { SameSum(u, v, n - 2); }
  }

  // ---------------------------------------------------------------- fragments

  lemma Powers()
    ensures Two(13) == IP_MF && Two(14) == 2 * IP_MF && Two(16) == 0x10000
  {
    assert Two(4) == 16 && Two(8) == 256 && Two(12) == 4096;
  }

  function OrWord(a: Word, b: Word): Word {
    Powers();
    OrBelow(a, b, 16);
    Or(a, b)
  }

  /** x without the more-fragments bit. */
  function ClearMore(x: Word): Word { x - IP_MF * (x / IP_MF % 2) }

  /** A packet with the header of u, the given payload, identity and flags, and its length and checksum set. */
  function Built(u: seq<Byte>, data: seq<Byte>, id: Word, flags: Word): (r: seq<Byte>)
    requires Whole(u) && HeaderLength(u) + |data| < 0x10000
    ensures |r| == HeaderLength(u) + |data| && Whole(r)
  {
    var p := u[..HeaderLength(u)] + data;
    Sealed(WriteU16(WriteU16(WriteU16(p, 4, id), 6, flags), 2, |p|))
  }

  lemma BuiltIs(u: seq<Byte>, data: seq<Byte>, id: Word, flags: Word)
    requires Whole(u) && HeaderLength(u) + |data| < 0x10000
    ensures var f := Built(u, data, id, flags);
      && HeaderLength(f) == HeaderLength(u) && Payload(f) == data
      && Ident(f) == id && Flags(f) == flags && TotalLength(f) == |f| && HasValidChecksum(f)
      && (forall k :: 0 <= k < HeaderLength(u) && !(2 <= k < 8) && k != 10 && k != 11 ==> f[k] == u[k])
  {
    hide HeaderSum, Folded, ComputedChecksum, HasValidChecksum, WriteU16, ReadU16, Sealed;
    var hl := HeaderLength(u);
    var p := u[..hl] + data;
    var p3 := WriteU16(WriteU16(WriteU16(p, 4, id), 6, flags), 2, |p|);
    WrittenIs(p, id, flags, |p|);
    SealedKeeps(p3);
    var f := Sealed(p3);
    assert f == Built(u, data, id, flags);
    assert forall k :: 0 <= k < |data| ==> f[hl + k] == p[hl + k] == data[k];
  }

  lemma WrittenIs(p: seq<Byte>, id: Word, flags: Word, n: Word)
    requires |p| >= 20
    ensures var r := WriteU16(WriteU16(WriteU16(p, 4, id), 6, flags), 2, n);
      && |r| == |p| && ReadU16(r, 4) == id && ReadU16(r, 6) == flags && ReadU16(r, 2) == n
      && forall k :: 0 <= k < |p| && !(2 <= k < 8) ==> r[k] == p[k]
  {
    hide WriteU16;
  }

  lemma SealedKeeps(u: seq<Byte>)
    requires Whole(u)
    ensures var r := Sealed(u); ReadU16(r, 4) == ReadU16(u, 4) && ReadU16(r, 6) == ReadU16(u, 6) && ReadU16(r, 2) == ReadU16(u, 2)
  {
    hide Sealed;
  }

  /** Part of the payload with a copy of the header. */
  function OneFragment(u: seq<Byte>, offset: Word, dataLen: nat, id: Word, isLast: bool): (r: seq<Byte>)
    requires Whole(u) && offset + dataLen <= |Payload(u)|
    ensures |r| == HeaderLength(u) + dataLen && Whole(r)
  {
    var flags := if isLast then ClearMore(OrWord(Flags(u), offset / 8)) else OrWord(OrWord(Flags(u), IP_MF), offset / 8);
    Built(u, Payload(u)[offset..offset + dataLen], id, flags)
  }

  /** Neither part of a larger packet nor announced as one. */
  predicate Unfragmented(u: seq<Byte>) requires Whole(u) { Offset(u) == 0 && !MoreFragments(u) }

  /** The flags of the fragments of an unfragmented packet. */
  lemma FragmentFlags(flags: Word, off: nat)
    requires flags % IP_MF == 0 && flags / IP_MF % 2 == 0 && off < IP_MF
    ensures OrWord(OrWord(flags, IP_MF), off) == flags + IP_MF + off
    ensures ClearMore(OrWord(flags, off)) == flags + off
  {
    hide Or, Two, OrWord, ClearMore;
    var t := flags / (2 * IP_MF);
    FlagSplit(flags);
    Powers();
    OrFlag(flags, IP_MF, t, 14);
    OrFlag(flags + IP_MF, off, 2 * t + 1, 13);
    OrFlag(flags, off, 2 * t, 13);
    ClearMoreIs(flags + off, t, off);
  }

  lemma FlagSplit(flags: Word)
    requires flags % IP_MF == 0 && flags / IP_MF % 2 == 0
    ensures flags == flags / (2 * IP_MF) * 0x4000
  {
  }

  lemma OrFlag(a: Word, b: nat, t: nat, n: nat)
    requires a == t * Two(n) && b < Two(n) && a + b < 0x10000 && b < 0x10000
    ensures OrWord(a, b) == a + b
  {
    OrDisjoint(t, b, n);
  }

  lemma ClearMoreIs(x: Word, t: nat, off: nat)
    requires x == t * 0x4000 + off && off < 0x2000
    ensures ClearMore(x) == x
  {
    ModUnique(x, 0x2000, 2 * t, off);
  }

  /** What a fragment of an unfragmented packet says and carries. */
  lemma FragmentIs(u: seq<Byte>, offset: Word, dataLen: nat, id: Word, isLast: bool)
    requires Whole(u) && Unfragmented(u) && offset + dataLen <= |Payload(u)| && offset % 8 == 0
    ensures var f := OneFragment(u, offset, dataLen, id, isLast);
      && HeaderLength(f) == HeaderLength(u) && Payload(f) == Payload(u)[offset..offset + dataLen]
      && Offset(f) == offset / 8 && MoreFragments(f) == !isLast && Ident(f) == id
      && TotalLength(f) == |f| && HasValidChecksum(f)
      && Flags(f) == Flags(u) + (if isLast then 0 else IP_MF) + offset / 8
      && (forall k :: 0 <= k < HeaderLength(u) && !(2 <= k < 8) && k != 10 && k != 11 ==> f[k] == u[k])
  {
    hide OrWord, ClearMore, Built, HasValidChecksum, HeaderSum, Folded, ComputedChecksum, ReadU16, WriteU16;
    FragmentFlags(Flags(u), offset / 8);
    var flags := if isLast then ClearMore(OrWord(Flags(u), offset / 8)) else OrWord(OrWord(Flags(u), IP_MF), offset / 8);
    BuiltIs(u, Payload(u)[offset..offset + dataLen], id, flags);
    FlagParts(Flags(u), offset / 8, isLast);
  }

  lemma FlagParts(flags: Word, off: nat, isLast: bool)
    requires flags % IP_MF == 0 && flags / IP_MF % 2 == 0 && off < IP_MF
    ensures var f := flags + (if isLast then 0 else IP_MF) + off;
      f % IP_MF == off && (f / IP_MF % 2 == 1) == !isLast
  {
    var t := flags / (2 * IP_MF);
    assert flags == 2 * IP_MF * t;
    if isLast {
      ModUnique(flags + off, IP_MF, 2 * t, off);
    } else {
      ModUnique(flags + IP_MF + off, IP_MF, 2 * t + 1, off);
    }
  }

  /** The largest payload of a fragment: a multiple of eight bytes. */
  function MaxData(u: seq<Byte>, maxLen: nat): (n: nat)
    requires Whole(u) && maxLen >= HeaderLength(u) + 8
    ensures 8 <= n <= maxLen - HeaderLength(u) < n + 8 && n % 8 == 0
  {
    (maxLen - HeaderLength(u)) / 8 * 8
  }

  /** The fragments of the payload from index p on. */
  function FragmentsFrom(u: seq<Byte>, maxData: nat, id: Word, p: nat): (frags: seq<seq<Byte>>)
    requires Whole(u) && p <= |Payload(u)| && maxData >= 8
    ensures frags != []
    decreases |Payload(u)| - p
  {
    if p + maxData < |Payload(u)| then [OneFragment(u, p, maxData, id, false)] + FragmentsFrom(u, maxData, id, p + maxData)
    else [OneFragment(u, p, |Payload(u)| - p, id, true)]
  }

  /** A series of packets that carries the payload of u from index p to its end, without gap or overlap. */
  predicate Series(u: seq<Byte>, frags: seq<seq<Byte>>, maxLen: nat, id: Word, p: nat)
    requires Whole(u)
    decreases |frags|
  {
    && frags != [] && Whole(frags[0])
    && var f := frags[0];
       && |f| <= maxLen && TotalLength(f) == |f| && HasValidChecksum(f) && Ident(f) == id
       && 8 * Offset(f) == p && p + |Payload(f)| <= |Payload(u)| && Payload(f) == Payload(u)[p..p + |Payload(f)|]
       && MoreFragments(f) == (|frags| > 1) && (|frags| > 1 ==> Payload(f) != [])
       && if |frags| == 1 then p + |Payload(f)| == |Payload(u)| else Series(u, frags[1..], maxLen, id, p + |Payload(f)|)
  }

  lemma {:induction false} FragmentsAreSeries(u: seq<Byte>, maxLen: nat, id: Word, p: nat)
    requires Whole(u) && Unfragmented(u) && maxLen >= HeaderLength(u) + 8 && p <= |Payload(u)| && p % 8 == 0
    ensures Series(u, FragmentsFrom(u, MaxData(u, maxLen), id, p), maxLen, id, p)
    decreases |Payload(u)| - p
  {
    hide OneFragment, HasValidChecksum, Unfragmented, Offset, MoreFragments, Ident, TotalLength, Flags;
    var n := MaxData(u, maxLen);
    if p + n < |Payload(u)| {
      FragmentIs(u, p, n, id, false);
      FragmentsAreSeries(u, maxLen, id, p + n);
      var f, rest := OneFragment(u, p, n, id, false), FragmentsFrom(u, n, id, p + n);
      assert ([f] + rest)[1..] == rest;
    } else {
      FragmentIs(u, p, |Payload(u)| - p, id, true);
    }
  }

  /** Every fragment with another behind it is full: eight bytes more would exceed the limit. The last one carries what
      is left, and there is none for nothing. */
  lemma {:induction false} FragmentsFull(u: seq<Byte>, maxLen: nat, id: Word, p: nat, i: nat)
    requires Whole(u) && Unfragmented(u) && maxLen >= HeaderLength(u) + 8 && p <= |Payload(u)| && p % 8 == 0
    requires i < |FragmentsFrom(u, MaxData(u, maxLen), id, p)|
    ensures var frags := FragmentsFrom(u, MaxData(u, maxLen), id, p);
      if i + 1 < |frags| then |frags[i]| <= maxLen < |frags[i]| + 8
      else |frags[i]| > HeaderLength(u) || p == |Payload(u)|
    decreases i
  {
    hide OneFragment, Unfragmented;
    if i > 0 { FragmentsFull(u, maxLen, id, p + MaxData(u, maxLen), i - 1); }
  }

  function Payloads(frags: seq<seq<Byte>>): seq<Byte>
    requires forall i :: 0 <= i < |frags| ==> Whole(frags[i])
  {
    if frags == [] then [] else Payload(frags[0]) + Payloads(frags[1..])
  }

  lemma {:induction false} SeriesWhole(u: seq<Byte>, frags: seq<seq<Byte>>, maxLen: nat, id: Word, p: nat)
    requires Whole(u) && Series(u, frags, maxLen, id, p)
    ensures forall i :: 0 <= i < |frags| ==> Whole(frags[i])
    ensures Payloads(frags) == Payload(u)[p..]
    decreases |frags|
  {
    hide Whole, Series, Payload;
    SeriesFirst(u, frags, maxLen, id, p);
    var rest, next := frags[1..], p + |Payload(frags[0])|;
    if |frags| > 1 {
      SeriesWhole(u, rest, maxLen, id, next);
      assert forall i :: 1 <= i < |frags| ==> frags[i] == rest[i - 1];
      assert Payload(u)[p..] == Payload(u)[p..next] + Payload(u)[next..];
    } else {
      assert rest == [];
    }
  }

  lemma SeriesFirst(u: seq<Byte>, frags: seq<seq<Byte>>, maxLen: nat, id: Word, p: nat)
    requires Whole(u) && Series(u, frags, maxLen, id, p)
    ensures frags != [] && Whole(frags[0])
    ensures var next := p + |Payload(frags[0])|;
      next <= |Payload(u)| && Payload(frags[0]) == Payload(u)[p..next]
      && if |frags| == 1 then next == |Payload(u)| else Series(u, frags[1..], maxLen, id, next)
  {
    hide Whole, HasValidChecksum, Offset, MoreFragments, Ident, TotalLength, Payload;
  }

  /** Fragments of a packet that is split at all are recognised as such exactly when their identity is not zero. */
  lemma {:induction false} RecognisedIff(u: seq<Byte>, frags: seq<seq<Byte>>, maxLen: nat, id: Word, p: nat, i: nat)
    requires Whole(u) && Series(u, frags, maxLen, id, p) && i < |frags| && (|frags| > 1 || p > 0)
    ensures Whole(frags[i]) && (IsFragment(frags[i]) <==> id != 0)
    decreases |frags|
  {
    hide HasValidChecksum, Offset, MoreFragments, Ident, TotalLength, Payload;
    if i > 0 {
      var next := p + |Payload(frags[0])|;
      RecognisedIff(u, frags[1..], maxLen, id, next, i - 1);
    }
  }

  // ---------------------------------------------------------------- reassembly

  /** x without the offset and the more-fragments bit. */
  function ClearFragmentation(x: Word): Word { x / (2 * IP_MF) * (2 * IP_MF) }

  /** The whole packet, from its last fragment and a buffer with all of the payload. */
  function Defragmented(u: seq<Byte>, buf: seq<Byte>): (r: seq<Byte>)
    requires Whole(u)
    requires var bufLen := Offset(u) * 8 + |Payload(u)|; |buf| >= bufLen && HeaderLength(u) + bufLen < 0x10000
    ensures Whole(r)
  {
    Built(u, buf[..Offset(u) * 8 + |Payload(u)|], 0, ClearFragmentation(Flags(u)))
  }

  /** Only the bytes of the header that are not rewritten matter. */
  lemma BuiltSame(u: seq<Byte>, v: seq<Byte>, data: seq<Byte>, id: Word, flags: Word)
    requires Whole(u) && Whole(v) && HeaderLength(u) == HeaderLength(v) && HeaderLength(u) + |data| < 0x10000
    requires forall k :: 0 <= k < HeaderLength(u) && !(2 <= k < 8) && k != 10 && k != 11 ==> u[k] == v[k]
    ensures Built(u, data, id, flags) == Built(v, data, id, flags)
  {
    hide HeaderSum, Folded;
    var hl := HeaderLength(u);
    var a, b := u[..hl] + data, v[..hl] + data;
    var a3 := WriteU16(WriteU16(WriteU16(a, 4, id), 6, flags), 2, |a|);
    var b3 := WriteU16(WriteU16(WriteU16(b, 4, id), 6, flags), 2, |a|);
    assert forall k :: 0 <= k < |a| && k != 10 && k != 11 ==> a3[k] == b3[k];
    SameSum(a3, b3, hl);
    hide WriteU16;
    assert ComputedChecksum(a3) == ComputedChecksum(b3);
    SealedSame(a3, b3, ComputedChecksum(a3));
  }

  lemma SealedSame(a: seq<Byte>, b: seq<Byte>, c: Word)
    requires |a| == |b| >= 12 && forall k :: 0 <= k < |a| && k != 10 && k != 11 ==> a[k] == b[k]
    ensures WriteU16(a, 10, c) == WriteU16(b, 10, c)
  {
  }

  lemma {:induction false} LastOfSeries(u: seq<Byte>, frags: seq<seq<Byte>>, maxLen: nat, id: Word, p: nat)
    requires Whole(u) && Series(u, frags, maxLen, id, p)
    ensures var f := frags[|frags| - 1];
      && Whole(f) && !MoreFragments(f) && 8 * Offset(f) + |Payload(f)| == |Payload(u)|
    decreases |frags|
  {
    hide HasValidChecksum, Offset, MoreFragments, Ident, TotalLength, Payload;
    if |frags| > 1 { LastOfSeries(u, frags[1..], maxLen, id, p + |Payload(frags[0])|); }
  }

  lemma {:induction false} LastFragment(u: seq<Byte>, maxLen: nat, id: Word, p: nat)
    requires Whole(u) && Unfragmented(u) && maxLen >= HeaderLength(u) + 8 && p <= |Payload(u)| && p % 8 == 0
    ensures var frags := FragmentsFrom(u, MaxData(u, maxLen), id, p);
      var f := frags[|frags| - 1];
      && Whole(f) && HeaderLength(f) == HeaderLength(u) && Flags(f) == Flags(u) + Offset(f)
      && (forall k :: 0 <= k < HeaderLength(u) && !(2 <= k < 8) && k != 10 && k != 11 ==> f[k] == u[k])
    decreases |Payload(u)| - p
  {
    hide OneFragment, HasValidChecksum, Unfragmented, Offset, MoreFragments, Ident, TotalLength, Flags;
    var n := MaxData(u, maxLen);
    if p + n < |Payload(u)| {
      LastFragment(u, maxLen, id, p + n);
    } else {
      FragmentIs(u, p, |Payload(u)| - p, id, true);
    }
  }

  /** Fragmenting a packet and putting the payloads back into the last fragment gives the packet back, with
      its identity cleared and its length and checksum computed. */
  lemma Reassembly(u: seq<Byte>, maxLen: nat, id: Word)
    requires Whole(u) && Unfragmented(u) && maxLen >= HeaderLength(u) + 8
    ensures var frags := FragmentsFrom(u, MaxData(u, maxLen), id, 0);
      && Series(u, frags, maxLen, id, 0)
      && (forall i :: 0 <= i < |frags| ==> Whole(frags[i]))
      && var last := frags[|frags| - 1];
         && |Payloads(frags)| == Offset(last) * 8 + |Payload(last)|
         && HeaderLength(last) + |Payloads(frags)| < 0x10000
         && Defragmented(last, Payloads(frags)) == Built(u, Payload(u), 0, Flags(u))
  {
    hide OneFragment, HasValidChecksum, Built, MoreFragments, Ident, TotalLength, FragmentsFrom, Series, Payloads;
    var frags := FragmentsFrom(u, MaxData(u, maxLen), id, 0);
    var last := frags[|frags| - 1];
    FragmentsAreSeries(u, maxLen, id, 0);
    SeriesWhole(u, frags, maxLen, id, 0);
    LastOfSeries(u, frags, maxLen, id, 0);
    LastFragment(u, maxLen, id, 0);
    FlagsCleared(u, last);
    BuiltSame(u, last, Payload(u), 0, Flags(u));
    assert Payload(u)[0..] == Payload(u);
    assert Payloads(frags)[..Offset(last) * 8 + |Payload(last)|] == Payload(u);
  }

  lemma FlagsCleared(u: seq<Byte>, f: seq<Byte>)
    requires Whole(u) && Whole(f) && Unfragmented(u) && Flags(f) == Flags(u) + Offset(f)
    ensures ClearFragmentation(Flags(f)) == Flags(u)
  {
    var t := Flags(u) / (2 * IP_MF);
    assert Flags(u) == 2 * IP_MF * t;
    ModUnique(Flags(f), 2 * IP_MF, t, Offset(f));
  }

  /** A packet whose length field is right differs from what reassembly gives in its identity and checksum only. */
  lemma ReassemblyRestores(u: seq<Byte>)
    requires Whole(u) && TotalLength(u) == |u|
    ensures Built(u, Payload(u), 0, Flags(u)) == Sealed(WriteU16(u, 4, 0))
  {
    hide HeaderSum, Folded, ComputedChecksum, HasValidChecksum;
    var p := u[..HeaderLength(u)] + Payload(u);
    assert p == u;
    var a := WriteU16(u, 4, 0);
    SameValue(a, 6, Flags(u));
    SameValue(a, 2, |u|);
  }

  lemma SameValue(u: seq<Byte>, i: nat, v: Word)
    requires i + 1 < |u| && ReadU16(u, i) == v
    ensures WriteU16(u, i, v) == u
  {
  }

  // ---------------------------------------------------------------- the packet object

  class Ipv4Packet {
    var unit: seq<Byte>

    constructor (unit: seq<Byte>)
      ensures this.unit == unit
    {
      this.unit := unit;
    }

    method ComputeChecksum() returns (checksum: Word)
      requires Whole(unit)
      ensures checksum == ComputedChecksum(unit)
    {
      var sum: nat, i := 0, 0;
      while i < HeaderLength(unit)
        invariant i <= HeaderLength(unit) && i % 2 == 0 && sum == HeaderSum(unit, i)
      {
        if i != 10 { sum := sum + ReadU16(unit, i); }
        i := i + 2;
      }
      while sum / 0x10000 != 0
        invariant Folded(sum) == Folded(HeaderSum(unit, HeaderLength(unit)))
        decreases sum
      {
        FoldStep(sum, sum % 0x10000 + sum / 0x10000);
        sum := sum % 0x10000 + sum / 0x10000;
      }
      return 0xFFFF - sum;
    }

    /** Store the computed checksum. */
    method Seal()
      requires Whole(unit)
      modifies this
      ensures unit == Sealed(old(unit))
    {
      hide *;
      var checksum := ComputeChecksum();
      SealedIs(unit);
      unit := WriteU16(unit, 10, checksum);
    }

    method MakeOneFragment(offset: Word, dataLen: nat, id: Word, isLast: bool) returns (frag: Ipv4Packet)
      requires Whole(unit) && offset + dataLen <= |Payload(unit)|
      ensures fresh(frag) && frag.unit == OneFragment(unit, offset, dataLen, id, isLast)
    {
      hide HeaderSum, Folded, ComputedChecksum, HasValidChecksum, WriteU16, Sealed, OrWord, ClearMore;
      var hl := HeaderLength(unit);
      frag := new Ipv4Packet(unit[..hl] + Payload(unit)[offset..offset + dataLen]);
      frag.unit := WriteU16(frag.unit, 4, id);
      var flags := if isLast then ClearMore(OrWord(Flags(unit), offset / 8)) else OrWord(OrWord(Flags(unit), IP_MF), offset / 8);
      frag.unit := WriteU16(frag.unit, 6, flags);
      frag.unit := WriteU16(frag.unit, 2, hl + dataLen);
      frag.Seal();
    }

    /** Break the packet into packets of at most maxLen bytes. */
    method Fragment(maxLen: Word, commonId: Word) returns (frags: seq<Ipv4Packet>)
      requires Whole(unit) && maxLen >= HeaderLength(unit) + 8
      ensures |frags| == |FragmentsFrom(unit, MaxData(unit, maxLen), commonId, 0)|
      ensures forall i :: 0 <= i < |frags| ==> frags[i].unit == FragmentsFrom(unit, MaxData(unit, maxLen), commonId, 0)[i]
    {
      hide OneFragment, MaxData;
      var maxData, p := MaxData(unit, maxLen), 0;
      ghost var all := FragmentsFrom(unit, maxData, commonId, 0);
      frags := [];
      var dataLen := |unit| - HeaderLength(unit);
      while p + maxData < dataLen
        invariant 0 <= p <= dataLen < 0x10000 && dataLen == |Payload(unit)| && |frags| <= |all|
        invariant forall i :: 0 <= i < |frags| ==> fresh(frags[i]) && frags[i].unit == all[i]
        invariant all[|frags|..] == FragmentsFrom(unit, maxData, commonId, p)
        decreases dataLen - p
      {
        var frag := MakeOneFragment(p, maxData, commonId, false);
        assert all[|frags|] == all[|frags|..][0] && all[|frags| + 1..] == all[|frags|..][1..];
        frags := frags + [frag];
        p := p + maxData;
      }
      var last := MakeOneFragment(p, dataLen - p, commonId, true);
      assert all[|frags|] == all[|frags|..][0] && |all| == |frags| + 1;
      frags := frags + [last];
    }

    /** Rebuild the whole packet from the last fragment and the payload. */
    method Defragment(newDataBuf: seq<Byte>)
      requires Whole(unit)
      requires var bufLen := Offset(unit) * 8 + |Payload(unit)|;
        |newDataBuf| >= bufLen && HeaderLength(unit) + bufLen < 0x10000
      modifies this
      ensures unit == Defragmented(old(unit), newDataBuf)
    {
      hide HeaderSum, Folded, ComputedChecksum, HasValidChecksum, Sealed, ClearFragmentation, WriteU16;
      var bufLen := Offset(unit) * 8 + |Payload(unit)|;
      var hl := HeaderLength(unit);
      ghost var u, data := unit, newDataBuf[..bufLen];
      unit := Resized(unit, hl + bufLen);
      ResizedHeader(u, hl + bufLen);
      ghost var grown := unit;
      var flags := ClearFragmentation(Flags(unit));
      unit := WriteU16(unit, 6, flags);
      unit := unit[..hl] + newDataBuf[..bufLen];
      FlagsThenData(grown, hl, flags, data);
      unit := WriteU16(unit, 2, |unit|);
      unit := WriteU16(unit, 4, 0);
      WritesCommute(u[..hl] + data, 0, flags, hl + bufLen);
      Seal();
    }
  }

  /** The unit with a new length: cut off, or extended. */
  function Resized(u: seq<Byte>, n: nat): (r: seq<Byte>)
    ensures |r| == n
  {
    if n <= |u| then u[..n] else u + seq(n - |u|, i => 0)
  }

  lemma ResizedHeader(u: seq<Byte>, n: nat)
    requires Whole(u) && HeaderLength(u) <= n < 0x10000
    ensures var r := Resized(u, n);
      r[..HeaderLength(u)] == u[..HeaderLength(u)] && Whole(r) && HeaderLength(r) == HeaderLength(u) && Flags(r) == Flags(u)
  {
  }

  lemma FlagsThenData(u: seq<Byte>, hl: nat, flags: Word, data: seq<Byte>)
    requires 20 <= hl <= |u|
    ensures WriteU16(u, 6, flags)[..hl] + data == WriteU16(u[..hl] + data, 6, flags)
  {
  }

  lemma WritesCommute(p: seq<Byte>, id: Word, flags: Word, n: Word)
    requires |p| >= 20
    ensures WriteU16(WriteU16(WriteU16(p, 6, flags), 2, n), 4, id) == WriteU16(WriteU16(WriteU16(p, 4, id), 6, flags), 2, n)
  {
  }

  lemma SealedIs(u: seq<Byte>)
    requires Whole(u)
    ensures Sealed(u) == WriteU16(u, 10, ComputedChecksum(u)) && |u| >= 12
  {
  }
}
