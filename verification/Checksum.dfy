/** The Internet checksum (sections 1 and 2 of RFC 1071) on a little-endian machine: the two
    implementations, and the two-step computation in which ping patches a timestamp into a probe. */
module Checksum {

  type byte = x: int | 0 <= x < 0x100
  type Word = x: int | 0 <= x < 0x1_0000

  const INT_MAX := 0x7fff_ffff
  const UINT_MAX := 0xffff_ffff

  /** The sum of the 16-bit words, an odd byte at the end being padded with zero. */
  function WordSum(s: seq<byte>): nat {
    if s == [] then 0
    else if |s| == 1 then s[0]
    else Pair(s[0], s[1]) + WordSum(s[2..])
  }

  function Pair(low: int, high: int): int { low + 0x100 * high }

  /** The one's complement sum: carries are added back in until none are left. Of the two forms of zero
      it is 0 only for a sum of nothing but zeros. */
  function OnesSum(n: nat): Word {
    if n == 0 then 0 else (n - 1) % 0xffff + 1
  }

  /** The checksum of a packet. */
  function CheckOf(s: seq<byte>): Word { 0xffff - OnesSum(WordSum(s)) }

  /** The same, with all ones for zero. */
  function NonZeroCheckOf(s: seq<byte>): Word { if CheckOf(s) == 0 then 0xffff else CheckOf(s) }

  // ---------- sums of words ----------

  lemma {:induction false} SumBound(s: seq<byte>)
    ensures WordSum(s) <= 0xffff * ((|s| + 1) / 2)
  {
    if |s| > 1 { SumBound(s[2..]); }
  }

  lemma {:induction false} SumParts(a: seq<byte>, b: seq<byte>)
    requires |a| % 2 == 0
    ensures WordSum(a + b) == WordSum(a) + WordSum(b)
  {
    if a == [] {
      assert a + b == b;
    } else {
      assert (a + b)[2..] == a[2..] + b;
      SumParts(a[2..], b);
    }
  }

  /** An odd byte at the end counts as if a zero followed, and so as the low byte of a word. */
  lemma {:induction false} OddByte(s: seq<byte>)
    requires |s| % 2 == 1
    ensures WordSum(s) == WordSum(s + [0]) == WordSum(s[..|s| - 1]) + s[|s| - 1]
  {
    if |s| == 1 {
      assert s + [0] == [s[0], 0] && [s[0], 0][2..] == [];
    } else {
      assert (s + [0])[2..] == s[2..] + [0] && s[..|s| - 1][2..] == s[2..][..|s| - 3];
      OddByte(s[2..]);
    }
  }

  lemma {:induction false} SumZeros(s: seq<byte>)
    requires forall i :: 0 <= i < |s| ==> s[i] == 0
    ensures WordSum(s) == 0
  {
    if |s| > 1 { SumZeros(s[2..]); }
  }

  /** The example in section 3 of RFC 1071: the checksum is 22 0d, in the order of the bytes. */
  lemma KnownCheck()
    ensures CheckOf([0x00, 0x01, 0xf2, 0x03, 0xf4, 0xf5, 0xf6, 0xf7]) == Pair(0x22, 0x0d)
  {
    var s: seq<byte> := [0x00, 0x01, 0xf2, 0x03, 0xf4, 0xf5, 0xf6, 0xf7];
    assert s[2..] == [0xf2, 0x03, 0xf4, 0xf5, 0xf6, 0xf7] && s[2..][2..] == [0xf4, 0xf5, 0xf6, 0xf7];
    assert s[2..][2..][2..] == [0xf6, 0xf7] && WordSum(s[2..][2..][2..]) == Pair(0xf6, 0xf7);
  }

  // ---------- folding ----------

  /** Numbers that agree modulo 0xffff and are both positive have the same one's complement sum. */
  lemma OnesSumBy(m: nat, n: nat, k: int)
    requires m == n + 0xffff * k && (m == 0 <==> n == 0)
    ensures OnesSum(m) == OnesSum(n)
  {
    if m > 0 {
      var q, r := (n - 1) / 0xffff, (n - 1) % 0xffff;
      assert m - 1 == 0xffff * (q + k) + r;
      Remainder(m - 1, q + k, r);
    }
  }

  lemma Remainder(x: int, q: int, r: int)
    requires x == 0xffff * q + r && 0 <= r < 0xffff
    ensures x % 0xffff == r
  {
  }

  lemma OnesSumIs(n: nat) returns (k: nat)
    ensures n == OnesSum(n) + 0xffff * k && (OnesSum(n) == 0 <==> n == 0)
  {
    k := if n == 0 then 0 else (n - 1) / 0xffff;
  }

  /** Two folds are enough for any 32-bit sum. */
  lemma TwoFolds(sum: nat)
    requires sum <= UINT_MAX
    ensures var once := sum / 0x1_0000 + sum % 0x1_0000;
      var twice := once + once / 0x1_0000;
      twice % 0x1_0000 == OnesSum(sum) && once <= 2 * 0xffff
  {
    var h, l := sum / 0x1_0000, sum % 0x1_0000;
    var once := h + l;
    OnesSumBy(sum, once, h);
    if 0 < once <= 0xffff { Remainder(once - 1, 0, once - 1); }
    if 0x1_0000 <= once { Remainder(once - 1, 1, once - 1 - 0xffff); }
  }

  /** The one's complement sum may be taken in two parts. */
  lemma SumOnwards(a: nat, b: nat)
    ensures OnesSum(OnesSum(a) + b) == OnesSum(a + b)
  {
    var k := OnesSumIs(a);
    OnesSumBy(a + b, OnesSum(a) + b, k);
  }

  // ---------- in_cksum and in_csum ----------

  /** in_cksum of ping: the checksum of `len` bytes on top of the sum `csum`. The signed 32-bit
      accumulator does not overflow. */
  method InCksum(buf: array<byte>, off: nat, len: nat, csum: Word) returns (answer: Word)
    requires off + len <= buf.Length && 0xffff * ((len + 1) / 2 + 1) <= INT_MAX
    ensures answer == 0xffff - OnesSum(csum + WordSum(buf[off..off + len]))
  {
    var nleft, w := len, off;
    var sum: int := csum;
    ghost var whole := csum + WordSum(buf[off..off + len]);
    SumBound(buf[off..off + len]);
    while nleft > 1
      invariant off <= w && 0 <= nleft && w + nleft == off + len && (w - off) % 2 == 0
      invariant 0 <= sum && sum + WordSum(buf[w..off + len]) == whole <= INT_MAX
      decreases nleft
    {
      assert buf[w..off + len][2..] == buf[w + 2..off + len];
      sum := sum + Pair(buf[w], buf[w + 1]);
      w := w + 2;
      nleft := nleft - 2;
    }
    if nleft == 1 {
      sum := sum + buf[w];
    }
    TwoFolds(sum);
    sum := sum / 0x1_0000 + sum % 0x1_0000;
    sum := sum + sum / 0x1_0000;
    answer := 0xffff - sum % 0x1_0000;
  }

  /** in_csum of traceroute: an unsigned accumulator, and never the result 0. */
  method InCsum(buf: array<byte>, off: nat, len: nat) returns (res: Word)
    requires off + len <= buf.Length && 0xffff * ((len + 1) / 2) <= UINT_MAX
    ensures res == NonZeroCheckOf(buf[off..off + len])
  {
    var nw, p := len / 2, off;
    var sum: int := 0;
    ghost var whole := WordSum(buf[off..off + len]);
    SumBound(buf[off..off + len]);
    while nw > 0
      invariant 0 <= nw && p == off + (len / 2 - nw) * 2
      invariant 0 <= sum && sum + WordSum(buf[p..off + len]) == whole <= UINT_MAX
      decreases nw
    {
      assert buf[p..off + len][2..] == buf[p + 2..off + len];
      sum := sum + Pair(buf[p], buf[p + 1]);
      p := p + 2;
      nw := nw - 1;
    }
    if len % 2 == 1 {
      sum := sum + buf[p];
    }
    TwoFolds(sum);
    sum := sum / 0x1_0000 + sum % 0x1_0000;
    sum := sum + sum / 0x1_0000;
    res := 0xffff - sum % 0x1_0000;
    if res == 0 { res := 0xffff; }
  }

  // ---------- the probe ----------

  const HEADER := 8                          // struct icmphdr
  const TIMEVAL := 16                        // struct timeval
  const MAX_DATA := 0xffff - 8 - 20

  /** The packet with its checksum field set to `c`. */
  function WithCheck(s: seq<byte>, c: Word): seq<byte>
    requires |s| >= HEADER
  {
    s[..2] + [c % 0x100, c / 0x100] + s[4..]
  }

  /** The checksum field adds its value to the sum of the packet without it. */
  lemma CheckAdds(s: seq<byte>, c: Word)
    requires |s| >= HEADER
    ensures WordSum(WithCheck(s, c)) == WordSum(WithCheck(s, 0)) + c
  {
    SumField(s, c);
    SumField(s, 0);
  }

  lemma SumField(s: seq<byte>, c: Word)
    requires |s| >= HEADER
    ensures WordSum(WithCheck(s, c)) == WordSum(s[..2]) + c + WordSum(s[4..])
  {
    SumParts(s[..2], [c % 0x100, c / 0x100] + s[4..]);
    assert s[..2] + ([c % 0x100, c / 0x100] + s[4..]) == WithCheck(s, c);
    SumParts([c % 0x100, c / 0x100], s[4..]);
    PairSum(c);
  }

  lemma PairSum(c: Word)
    ensures WordSum([c % 0x100, c / 0x100]) == c
  {
    assert [c % 0x100, c / 0x100][2..] == [];
  }

  /** A receiver that sums the packet finds zero for the right checksum and no other, but for the two
      forms of zero. */
  lemma OnlyTheCheckPasses(s: seq<byte>, c: Word)
    requires |s| >= HEADER
    ensures CheckOf(WithCheck(s, c)) == 0 <==>
      c == CheckOf(WithCheck(s, 0)) || (c == 0xffff && CheckOf(WithCheck(s, 0)) == 0)
  {
    var n := WordSum(WithCheck(s, 0));
    CheckAdds(s, c);
    SumOnwards(n, c);
    var m := OnesSum(n) + c;
    if 0 < m <= 0xffff { Remainder(m - 1, 0, m - 1); }
    if m > 0xffff { Remainder(m - 1, 1, m - 1 - 0xffff); }
  }

  /** The two implementations agree up to the two forms of zero: they differ only where the sum is all ones,
      and a packet that carries either checksum sums to zero. */
  lemma ImplementationsAgree(s: seq<byte>)
    requires |s| >= HEADER
    ensures var p := WithCheck(s, 0);
      var a, b := CheckOf(p), NonZeroCheckOf(p);
      b != 0 && a % 0xffff == b % 0xffff && (a != b <==> OnesSum(WordSum(p)) == 0xffff) &&
      CheckOf(WithCheck(s, a)) == CheckOf(WithCheck(s, b)) == 0
  {
    var p := WithCheck(s, 0);
    OnlyTheCheckPasses(s, CheckOf(p));
    OnlyTheCheckPasses(s, NonZeroCheckOf(p));
  }

  /** A stretch of an even number of bytes at an even place, written over zeros, adds its own sum. */
  lemma PatchAdds(before: seq<byte>, zeros: seq<byte>, patch: seq<byte>, rest: seq<byte>)
    requires |before| % 2 == 0 && |patch| % 2 == 0 && |zeros| == |patch|
    requires forall i :: 0 <= i < |zeros| ==> zeros[i] == 0
    ensures WordSum(before + patch + rest) == WordSum(before + zeros + rest) + WordSum(patch)
  {
    SumZeros(zeros);
    SumThree(before, patch, rest);
    SumThree(before, zeros, rest);
  }

  lemma SumThree(a: seq<byte>, b: seq<byte>, c: seq<byte>)
    requires |a| % 2 == 0 && |b| % 2 == 0
    ensures WordSum(a + b + c) == WordSum(a) + WordSum(b) + WordSum(c)
  {
    SumParts(a, b);
    assert |a + b| % 2 == 0;
    SumParts(a + b, c);
  }

  /** Patching in the timestamp after the first checksum comes to the same as computing the checksum of
      the patched packet in one pass. */
  lemma TwoStepsAreOne(before: seq<byte>, zeros: seq<byte>, patch: seq<byte>, rest: seq<byte>)
    requires |before| % 2 == 0 && |patch| % 2 == 0 && |zeros| == |patch|
    requires forall i :: 0 <= i < |zeros| ==> zeros[i] == 0
    ensures 0xffff - OnesSum((0xffff - CheckOf(before + zeros + rest)) + WordSum(patch)) ==
      CheckOf(before + patch + rest)
  {
    PatchAdds(before, zeros, patch, rest);
    SumOnwards(WordSum(before + zeros + rest), WordSum(patch));
  }

  /** Copies `bytes` into the packet. */
  method Write(packet: array<byte>, off: nat, bytes: seq<byte>)
    requires off + |bytes| <= packet.Length
    modifies packet
    ensures packet[..] == old(packet[..off]) + bytes + old(packet[off + |bytes|..])
  {
    var i := 0;
    while i < |bytes|
      invariant 0 <= i <= |bytes|
      invariant packet[..] == old(packet[..off]) + bytes[..i] + old(packet[off + i..])
    {
      packet[off + i] := bytes[i];
      i := i + 1;
    }
  }

  /** A 16-bit field in host order. */
  function Bytes(c: Word): seq<byte> { [c % 0x100, c / 0x100] }

  /** What the packet is to be: an echo request with its identifier and sequence number, the timestamp
      `time` if there is one, and the data that was there. */
  function Probe(data: seq<byte>, id: Word, sequence: Word, time: seq<byte>): seq<byte>
    requires |time| <= |data|
  {
    [8, 0, 0, 0] + Bytes(id) + Bytes(sequence) + time + data[|time|..]
  }

  lemma ProbeSum(data: seq<byte>, id: Word, sequence: Word, time: seq<byte>)
    requires |time| <= |data|
    ensures WordSum(Probe(data, id, sequence, time)) > 0
    ensures WithCheck(Probe(data, id, sequence, time), 0) == Probe(data, id, sequence, time)
  {
    var s := Probe(data, id, sequence, time);
    assert WithCheck(s, 0) == s;
    assert Pair(s[0], s[1]) == 8;
  }

  /** The checksum part of ping4_send_probe: writes the header and, when the round trip is timed, the
      timestamp `now` into the packet, either before the checksum is computed or, without F_LATENCY,
      over zeros after it. Both ways the packet carries the checksum of itself. */
  method SendProbe(packet: array<byte>, datalen: nat, id: Word, sequence: Word, timing: bool, latency: bool,
    now: seq<byte>)
    requires HEADER + datalen <= packet.Length && datalen <= MAX_DATA
    requires |now| == TIMEVAL && (timing ==> datalen >= TIMEVAL)
    modifies packet
    ensures var probe := Probe(old(packet[HEADER..HEADER + datalen]), id, sequence, if timing then now else []);
      packet[..HEADER + datalen] == WithCheck(probe, CheckOf(probe))
    ensures CheckOf(packet[..HEADER + datalen]) == 0
    ensures packet[HEADER + datalen..] == old(packet[HEADER + datalen..])
  {
    ghost var data, rest := packet[HEADER..HEADER + datalen], packet[HEADER + datalen..];
    var time := if !timing then [] else if latency then now else seq(TIMEVAL, _ => 0);
    WriteProbe(packet, datalen, id, sequence, time);
    ghost var probe := Probe(data, id, sequence, if timing then now else []);
    ProbeSum(data, id, sequence, if timing then now else []);
    OnlyTheCheckPasses(probe, CheckOf(probe));
    assert packet[0..0 + (HEADER + datalen)] == Probe(data, id, sequence, time);
    var check := InCksum(packet, 0, HEADER + datalen, 0);
    if timing && !latency {
      check := PatchTime(packet, datalen, id, sequence, time, now, check, data, rest);
    } else {
      SetCheck(packet, check, probe, rest);
    }
  }

  /** Sets the checksum field of a packet that is followed by `rest`. */
  method SetCheck(packet: array<byte>, c: Word, ghost s: seq<byte>, ghost rest: seq<byte>)
    requires |s| >= HEADER && packet[..] == s + rest
    modifies packet
    ensures packet[..] == WithCheck(s, c) + rest
  {
    Write(packet, 2, Bytes(c));
  }

  method WriteProbe(packet: array<byte>, datalen: nat, id: Word, sequence: Word, time: seq<byte>)
    requires HEADER + datalen <= packet.Length && |time| <= datalen
    modifies packet
    ensures packet[..] == Probe(old(packet[HEADER..HEADER + datalen]), id, sequence, time) +
      old(packet[HEADER + datalen..])
  {
    Write(packet, 0, [8, 0, 0, 0] + Bytes(id) + Bytes(sequence));
    Write(packet, HEADER, time);
  }

  /** The second step: the timestamp goes over the zeros, and its sum on top of the first one. */
  method PatchTime(packet: array<byte>, datalen: nat, id: Word, sequence: Word, zeros: seq<byte>, now: seq<byte>,
    first: Word,
                   ghost data: seq<byte>, ghost rest: seq<byte>) returns (check: Word)
    requires |zeros| == |now| == TIMEVAL && (forall i :: 0 <= i < |zeros| ==> zeros[i] == 0)
    requires |data| == datalen >= TIMEVAL && packet[..] == Probe(data, id, sequence, zeros) + rest
    requires first == CheckOf(Probe(data, id, sequence, zeros))
    modifies packet
    ensures check == CheckOf(Probe(data, id, sequence, now))
    ensures packet[..] == WithCheck(Probe(data, id, sequence, now), check) + rest
  {
    SetCheck(packet, first, Probe(data, id, sequence, zeros), rest);
    ghost var head, tail := [8, 0] + Bytes(first) + Bytes(id) + Bytes(sequence), data[TIMEVAL..] + rest;
    ghost var stamped := WithCheck(Probe(data, id, sequence, now), first);
    ProbeParts(data, id, sequence, zeros, first, rest);
    ProbeParts(data, id, sequence, now, first, rest);
    ghost var before := packet[..];
    Write(packet, HEADER, now);
    Replaced(head, zeros, now, tail);
    assert packet[..] == before[..HEADER] + now + before[HEADER + TIMEVAL..];
    check := InCksum(packet, HEADER, TIMEVAL, 0xffff - first);
    Patched(data, id, sequence, zeros, now);
    SetCheck(packet, check, stamped, rest);
    assert WithCheck(stamped, check) == WithCheck(Probe(data, id, sequence, now), check);
  }

  lemma ProbeParts(data: seq<byte>, id: Word, sequence: Word, time: seq<byte>, c: Word, rest: seq<byte>)
    requires |time| <= |data|
    ensures WithCheck(Probe(data, id, sequence, time), c) + rest ==
      [8, 0] + Bytes(c) + Bytes(id) + Bytes(sequence) + time + (data[|time|..] + rest)
  {
    var p := Probe(data, id, sequence, time);
    assert p[..2] == [8, 0] && p[4..] == Bytes(id) + Bytes(sequence) + time + data[|time|..];
  }

  /** Bytes in the middle are overwritten. */
  lemma Replaced(head: seq<byte>, a: seq<byte>, b: seq<byte>, tail: seq<byte>)
    requires |a| == |b|
    ensures var s, t := head + a + tail, head + b + tail;
      s[..|head|] + b + s[|head| + |b|..] == t && t[|head|..|head| + |b|] == b
  {
  }

  lemma Patched(data: seq<byte>, id: Word, sequence: Word, zeros: seq<byte>, now: seq<byte>)
    requires |zeros| == |now| <= |data| && |now| % 2 == 0 && forall i :: 0 <= i < |zeros| ==> zeros[i] == 0
    ensures var first := CheckOf(Probe(data, id, sequence, zeros));
      0xffff - OnesSum((0xffff - first) + WordSum(now)) == CheckOf(Probe(data, id, sequence, now))
  {
    TwoStepsAreOne([8, 0, 0, 0] + Bytes(id) + Bytes(sequence), zeros, now, data[|now|..]);
  }
}
