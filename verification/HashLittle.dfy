/** The string hash of the table, on a little-endian machine: the paths for keys aligned to four bytes,
    to two bytes and to none, against one definition on the bytes of the key. */
module HashLittle {

  const WORD := 0x1_0000_0000

  type byte = x: int | 0 <= x < 0x100
  type word = x: int | 0 <= x < WORD

  // ---------- mixing ----------

  datatype State<W> = State(a: W, b: W, c: W)

  /** The operations on words that mixing uses. */
  datatype Ops<!W> = Ops(add: (W, W) -> W, sub: (W, W) -> W, xor: (W, W) -> W, rot: (W, nat) -> W)

  /** The macro mix. */
  function MixWith<W>(o: Ops<W>, s: State<W>): State<W> {
    var a1 := o.xor(o.sub(s.a, s.c), o.rot(s.c, 4));   var c1 := o.add(s.c, s.b);
    var b1 := o.xor(o.sub(s.b, a1), o.rot(a1, 6));     var a2 := o.add(a1, c1);
    var c2 := o.xor(o.sub(c1, b1), o.rot(b1, 8));      var b2 := o.add(b1, a2);
    var a3 := o.xor(o.sub(a2, c2), o.rot(c2, 16));     var c3 := o.add(c2, b2);
    var b3 := o.xor(o.sub(b2, a3), o.rot(a3, 19));     var a4 := o.add(a3, c3);
    var c4 := o.xor(o.sub(c3, b3), o.rot(b3, 4));      var b4 := o.add(b3, a4);
    State(a4, b4, c4)
  }

  /** mix in reverse. */
  function UnmixWith<W>(o: Ops<W>, s: State<W>): State<W> {
    var b3 := o.sub(s.b, s.a);   var c3 := o.add(o.xor(s.c, o.rot(b3, 4)), b3);
    var a3 := o.sub(s.a, c3);    var b2 := o.add(o.xor(b3, o.rot(a3, 19)), a3);
    var c2 := o.sub(c3, b2);     var a2 := o.add(o.xor(a3, o.rot(c2, 16)), c2);
    var b1 := o.sub(b2, a2);     var c1 := o.add(o.xor(c2, o.rot(b1, 8)), b1);
    var a1 := o.sub(a2, c1);     var b := o.add(o.xor(b1, o.rot(a1, 6)), a1);
    var c := o.sub(c1, b);       var a := o.add(o.xor(a1, o.rot(c, 4)), c);
    State(a, b, c)
  }

  ghost predicate Lawful<W(!new)>(o: Ops<W>) {
    (forall x, y :: o.sub(o.add(x, y), y) == x) && (forall x, y :: o.add(o.sub(x, y), y) == x) &&
    (forall x, y :: o.xor(o.xor(x, y), y) == x)
  }

  lemma UnmixMix<W(!new)>(o: Ops<W>, s: State<W>)
    requires Lawful(o)
    ensures UnmixWith(o, MixWith(o, s)) == s
  {
  }

  function Add(x: word, y: word): word { (x + y) % WORD }

  function Sub(x: word, y: word): word { (x - y) % WORD }

  function Pow2(k: nat): (r: nat)
    ensures r > 0
  {
    if k == 0 then 1 else 2 * Pow2(k - 1)
  }

  /** Rotates to the left. */
  function Rot(x: word, k: nat): word {
    if k <= 32 then (x * Pow2(k) + x / Pow2(32 - k)) % WORD else x
  }

  /** The exclusive or of the lowest `n` bits. */
  function XorBits(x: nat, y: nat, n: nat): (r: nat)
    ensures r < Pow2(n)
  {
    if n == 0 then 0 else 2 * XorBits(x / 2, y / 2, n - 1) + if x % 2 == y % 2 then 0 else 1
  }

  lemma {:induction false} XorBitsTwice(x: nat, y: nat, n: nat)
    requires x < Pow2(n)
    ensures XorBits(XorBits(x, y, n), y, n) == x
  {
    if n > 0 {
      XorBitsTwice(x / 2, y / 2, n - 1);
      var r := XorBits(x, y, n);
      assert r / 2 == XorBits(x / 2, y / 2, n - 1);
    }
  }

  lemma Pow32()
    ensures Pow2(32) == WORD
  {
    assert Pow2(8) == 0x100;
    assert Pow2(16) == 0x1_0000;
    assert Pow2(24) == 0x100_0000;
  }

  function Xor(x: word, y: word): word {
    Pow32();
    XorBits(x, y, 32)
  }

  lemma XorTwice(x: word, y: word)
    ensures Xor(Xor(x, y), y) == x
  {
    Pow32();
    XorBitsTwice(x, y, 32);
  }

  lemma AddSub(x: word, y: word)
    ensures Sub(Add(x, y), y) == x
  {
    if x + y >= WORD { assert Add(x, y) == x + y - WORD; }
  }

  lemma SubAdd(x: word, y: word)
    ensures Add(Sub(x, y), y) == x
  {
    if x < y { assert Sub(x, y) == x - y + WORD; }
  }

  const WORDS: Ops<word> := Ops<word>.Ops(Add, Sub, Xor, Rot)

  lemma WordsLawful()
    ensures Lawful(WORDS)
  {
    forall x: word, y: word
      ensures WORDS.sub(WORDS.add(x, y), y) == x && WORDS.add(WORDS.sub(x, y), y) == x &&
        WORDS.xor(WORDS.xor(x, y), y) == x
    {
      AddSub(x, y);
      SubAdd(x, y);
      XorTwice(x, y);
    }
  }

  function Mix(s: State<word>): State<word> { MixWith(WORDS, s) }

  function Unmix(s: State<word>): State<word> { UnmixWith(WORDS, s) }

  /** Mixing loses nothing. */
  lemma MixReversible(s: State<word>)
    ensures Unmix(Mix(s)) == s
  {
    WordsLawful();
    UnmixMix(WORDS, s);
  }

  /** The macro final. */
  function FinalWith<W>(o: Ops<W>, s: State<W>): W {
    var c1 := o.sub(o.xor(s.c, s.b), o.rot(s.b, 14));
    var a1 := o.sub(o.xor(s.a, c1), o.rot(c1, 11));
    var b1 := o.sub(o.xor(s.b, a1), o.rot(a1, 25));
    var c2 := o.sub(o.xor(c1, b1), o.rot(b1, 16));
    var a2 := o.sub(o.xor(a1, c2), o.rot(c2, 4));
    var b2 := o.sub(o.xor(b1, a2), o.rot(a2, 14));
    o.sub(o.xor(c2, b2), o.rot(b2, 24))
  }

  function Final(s: State<word>): word { FinalWith(WORDS, s) }

  /** The two macros; what follows does not depend on which they are. */
  datatype Mixer = Mixer(mix: State<word> -> State<word>, final: State<word> -> word)

  const JENKINS := Mixer(Mix, Final)

  // ---------- words in memory ----------

  function Pow256(n: nat): (r: nat)
    ensures r > 0
  {
    if n == 0 then 1 else 0x100 * Pow256(n - 1)
  }

  /** The number whose bytes these are, the lowest first. */
  function Number(bytes: seq<byte>): (r: nat)
    ensures r < Pow256(|bytes|)
  {
    if bytes == [] then 0 else bytes[0] + 0x100 * Number(bytes[1..])
  }

  function Word(bytes: seq<byte>): word
    requires |bytes| <= 4
  {
    FourBytes(|bytes|);
    Number(bytes)
  }

  lemma FourBytes(n: nat)
    requires n <= 4
    ensures Pow256(n) <= WORD
    ensures Pow256(0) == 1 && Pow256(1) == 0x100 && Pow256(2) == 0x1_0000 && Pow256(3) == 0x100_0000 &&
      Pow256(4) == WORD
  {
    assert Pow256(2) == 0x100 * Pow256(1);
    assert Pow256(3) == 0x100 * Pow256(2);
    assert Pow256(4) == 0x100 * Pow256(3);
  }

  /** Of four bytes of the key, those that it has. */
  function Part(key: seq<byte>, i: nat): (r: seq<byte>)
    ensures |r| <= 4
  {
    if i >= |key| then [] else if i + 4 <= |key| then key[i..i + 4] else key[i..]
  }

  /** The next twelve bytes, or what is left of the key, are added in. */
  function Absorb(s: State<word>, key: seq<byte>): State<word> {
    State(Add(s.a, Word(Part(key, 0))), Add(s.b, Word(Part(key, 4))), Add(s.c, Word(Part(key, 8))))
  }

  /** The state once all blocks but the last have been mixed in. */
  function Blocks(m: Mixer, s: State<word>, key: seq<byte>): State<word>
    decreases |key|
  {
    if |key| <= 12 then s else Blocks(m, m.mix(Absorb(s, key)), key[12..])
  }

  /** The last block, of at most twelve bytes. */
  function Last(key: seq<byte>): seq<byte>
    decreases |key|
  {
    if |key| <= 12 then key else Last(key[12..])
  }

  function Finish(m: Mixer, s: State<word>, key: seq<byte>): word {
    if key == [] then s.c else m.final(Absorb(s, key))
  }

  function Start(length: nat, initval: word): State<word> {
    var x := (0xdeadbeef + length + initval) % WORD;
    State(x, x, x)
  }

  /** The hash of a key. */
  function Hash(m: Mixer, key: seq<byte>, initval: word): word {
    Finish(m, Blocks(m, Start(|key|, initval), key), Last(key))
  }

  // ---------- the key read four bytes at a time ----------

  /** An aligned 32-bit read. */
  function Read32(mem: array<byte>, i: nat): word
    requires i % 4 == 0 && i + 4 <= mem.Length
    reads mem
  {
    Word(mem[i..i + 4])
  }

  /** An aligned 16-bit read. */
  function Read16(mem: array<byte>, i: nat): word
    requires i % 2 == 0 && i + 2 <= mem.Length
    reads mem
  {
    Word(mem[i..i + 2])
  }

  /** What a word adds when `n` of its bytes, or more than all, belong to the key: the others are masked
      off, with 0xff, 0xffff and 0xffffff. */
  function Masked(w: word, n: int): word {
    if n >= 4 then w
    else if n == 3 then w % 0x100_0000
    else if n == 2 then w % 0x1_0000
    else if n == 1 then w % 0x100
    else 0
  }

  lemma Peel(bytes: seq<byte>, rest: seq<byte>, b: int)
    requires bytes != [] && rest == bytes[1..] && b == bytes[0]
    ensures Number(bytes) == b + 0x100 * Number(rest)
  {
  }

  lemma Low1(bytes: seq<byte>)
    requires |bytes| == 4
    ensures Number(bytes) % 0x100 == Number(bytes[..1])
  {
    Peel(bytes, bytes[1..], bytes[0]);
    Peel(bytes[..1], [], bytes[0]);
  }

  lemma Low2(bytes: seq<byte>)
    requires |bytes| == 4
    ensures Number(bytes) % 0x1_0000 == Number(bytes[..2])
  {
    Peel(bytes, bytes[1..], bytes[0]);
    Peel(bytes[1..], bytes[2..], bytes[1]);
    Peel(bytes[..2], [bytes[1]], bytes[0]);
    Peel([bytes[1]], [], bytes[1]);
  }

  lemma Low3(bytes: seq<byte>)
    requires |bytes| == 4
    ensures Number(bytes) % 0x100_0000 == Number(bytes[..3])
  {
    Peel(bytes, bytes[1..], bytes[0]);
    Peel(bytes[1..], bytes[2..], bytes[1]);
    Peel(bytes[2..], bytes[3..], bytes[2]);
    Peel(bytes[..3], bytes[1..3], bytes[0]);
    Peel(bytes[1..3], [bytes[2]], bytes[1]);
    Peel([bytes[2]], [], bytes[2]);
  }

  lemma MaskedWord(bytes: seq<byte>, n: nat)
    requires |bytes| == 4
    ensures Masked(Word(bytes), n) == Word(if n < 4 then bytes[..n] else bytes)
  {
    if n == 1 { Low1(bytes); }
    if n == 2 { Low2(bytes); }
    if n == 3 { Low3(bytes); }
  }

  lemma Within<T>(s: seq<T>, k: nat, length: nat, i: nat, j: nat)
    requires k + length <= |s| && i <= j <= length
    ensures s[k..k + length][i..j] == s[k + i..k + j]
  {
    var a := s[k..k + length];
    assert |a[i..j]| == |s[k + i..k + j]|;
    forall x | 0 <= x < j - i
      ensures a[i..j][x] == s[k + i..k + j][x]
    {
      assert a[i..j][x] == a[i + x] == s[k + (i + x)];
    }
  }

  /** Where a part of the key lies in memory. */
  lemma PartIs(mem: array<byte>, k: nat, length: nat, i: nat)
    requires k + length <= mem.Length
    ensures Part(mem[k..k + length], i) ==
      if i >= length then [] else if i + 4 <= length then mem[k + i..k + i + 4] else mem[k + i..k + length]
  {
    if i + 4 <= length { Within(mem[..], k, length, i, i + 4); }
    else if i < length { Within(mem[..], k, length, i, length); }
    assert mem[..][k..k + length] == mem[k..k + length];
    if i + 4 <= length { assert mem[..][k + i..k + i + 4] == mem[k + i..k + i + 4]; }
    else if i < length { assert mem[..][k + i..k + length] == mem[k + i..k + length]; }
  }

  lemma MaskedAt(mem: array<byte>, k: nat, length: nat, i: nat)
    requires (k + i) % 4 == 0 && k + length <= mem.Length && mem.Length % 4 == 0
    ensures i < length ==>
      k + i + 4 <= mem.Length && Word(Part(mem[k..k + length], i)) == Masked(Read32(mem, k + i), length - i)
    ensures i >= length ==> Word(Part(mem[k..k + length], i)) == 0
  {
    if i < length {
      var bytes, n := mem[k + i..k + i + 4], length - i;
      MaskedWord(bytes, n);
      PartIs(mem, k, length, i);
      if n < 4 {
        Within(mem[..], k + i, 4, 0, n);
        assert bytes == mem[..][k + i..k + i + 4] && bytes[..n] == bytes[0..n];
        assert mem[k + i..k + length] == mem[..][k + i..k + i + n];
      }
    }
  }

  lemma AddZero(x: word)
    ensures Add(x, 0) == x
  {
  }

  /** One step of the loop over whole blocks. */
  lemma BlockStep(m: Mixer, s: State<word>, key: seq<byte>, rest: seq<byte>)
    requires |key| > 12 && rest == key[12..]
    ensures Blocks(m, m.mix(Absorb(s, key)), rest) == Blocks(m, s, key) && Last(rest) == Last(key)
  {
  }

  /** The last block of an aligned key: whole words are read, and what is beyond the key masked off. */
  method Tail4(m: Mixer, mem: array<byte>, k: nat, length: nat, a0: word, b0: word, c0: word) returns (h: word)
    requires k % 4 == 0 && k + length <= mem.Length && mem.Length % 4 == 0 && length <= 12
    ensures h == Finish(m, State(a0, b0, c0), mem[k..k + length])
  {
    var a, b, c := a0, b0, c0;
    if length == 0 { return c; }
    MaskedAt(mem, k, length, 0);
    MaskedAt(mem, k, length, 4);
    MaskedAt(mem, k, length, 8);
    AddZero(b);
    AddZero(c);
    if length == 12 { c := Add(c, Read32(mem, k + 8)); b := Add(b, Read32(mem, k + 4)); a := Add(a, Read32(mem, k)); }
    else if length == 11 {
      c := Add(c, Read32(mem, k + 8) % 0x100_0000);
      b := Add(b, Read32(mem, k + 4));
      a := Add(a, Read32(mem, k));
    }
    else if length == 10 {
      c := Add(c, Read32(mem, k + 8) % 0x1_0000);
      b := Add(b, Read32(mem, k + 4));
      a := Add(a, Read32(mem, k));
    }
    else if length == 9 {
      c := Add(c, Read32(mem, k + 8) % 0x100);
      b := Add(b, Read32(mem, k + 4));
      a := Add(a, Read32(mem, k));
    }
    else if length == 8 { b := Add(b, Read32(mem, k + 4)); a := Add(a, Read32(mem, k)); }
    else if length == 7 { b := Add(b, Read32(mem, k + 4) % 0x100_0000); a := Add(a, Read32(mem, k)); }
    else if length == 6 { b := Add(b, Read32(mem, k + 4) % 0x1_0000); a := Add(a, Read32(mem, k)); }
    else if length == 5 { b := Add(b, Read32(mem, k + 4) % 0x100); a := Add(a, Read32(mem, k)); }
    else if length == 4 { a := Add(a, Read32(mem, k)); }
    else if length == 3 { a := Add(a, Read32(mem, k) % 0x100_0000); }
    else if length == 2 { a := Add(a, Read32(mem, k) % 0x1_0000); }
    else { a := Add(a, Read32(mem, k) % 0x100); }
    h := m.final(State(a, b, c));
  }

  lemma Aligned(k: nat)
    requires k % 4 == 0
    ensures (k + 4) % 4 == 0 && (k + 8) % 4 == 0 && (k + 12) % 4 == 0
  {
  }

  lemma WholeBlock4(s: State<word>, mem: array<byte>, k: nat, length: nat)
    requires k % 4 == 0 && k + length <= mem.Length && mem.Length % 4 == 0 && length > 12
    ensures Absorb(s, mem[k..k + length]) ==
      State(Add(s.a, Read32(mem, k)), Add(s.b, Read32(mem, k + 4)), Add(s.c, Read32(mem, k + 8)))
  {
    MaskedAt(mem, k, length, 0);
    MaskedAt(mem, k, length, 4);
    MaskedAt(mem, k, length, 8);
  }

  method HashAligned4(m: Mixer, mem: array<byte>, off: nat, length: nat, initval: word) returns (h: word)
    requires off % 4 == 0 && off + length <= mem.Length && mem.Length % 4 == 0
    ensures h == Hash(m, mem[off..off + length], initval)
  {
    ghost var key := mem[off..off + length];
    var s, k, len := Start(length, initval), off, length;
    while len > 12
      invariant k % 4 == 0 && k + len == off + length
      invariant Blocks(m, s, mem[k..k + len]) == Blocks(m, Start(length, initval), key) &&
        Last(mem[k..k + len]) == Last(key)
      decreases len
    {
      Aligned(k);
      ghost var rest := mem[k..k + len];
      assert mem[k + 12..k + len] == rest[12..];
      BlockStep(m, s, rest, mem[k + 12..k + len]);
      WholeBlock4(s, mem, k, len);
      s := m.mix(State(Add(s.a, Read32(mem, k)), Add(s.b, Read32(mem, k + 4)), Add(s.c, Read32(mem, k + 8))));
      len := len - 12;
      k := k + 12;
    }
    h := Tail4(m, mem, k, len, s.a, s.b, s.c);
  }

  // ---------- the key read byte by byte, or two bytes at a time ----------

  function Shl8(b: byte): word { 0x100 * b }
  function Shl16(b: byte): word { 0x1_0000 * b }
  function Shl24(b: byte): word { 0x100_0000 * b }

  lemma AddTwice(x: word, y: nat, z: nat)
    requires y + z < WORD
    ensures Add(Add(x, y), z) == Add(x, y + z)
  {
  }

  /** The sum of up to four bytes in their places. */
  lemma InPlaces(bytes: seq<byte>)
    requires |bytes| <= 4
    ensures Number(bytes) ==
      Byte(bytes, 0) + Shl8(Byte(bytes, 1)) + Shl16(Byte(bytes, 2)) + Shl24(Byte(bytes, 3))
  {
    if |bytes| > 0 { Peel(bytes, bytes[1..], bytes[0]); }
    if |bytes| > 1 { Peel(bytes[1..], bytes[2..], bytes[1]); }
    if |bytes| > 2 { Peel(bytes[2..], bytes[3..], bytes[2]); }
    if |bytes| > 3 { Peel(bytes[3..], [], bytes[3]); }
  }

  function Byte(bytes: seq<byte>, i: nat): byte { if i < |bytes| then bytes[i] else 0 }

  /** Bytes added one by one, from the highest or from the lowest. */
  lemma AddBytes(x: word, bytes: seq<byte>)
    requires |bytes| <= 4
    ensures Add(Add(Add(Add(x, Shl24(Byte(bytes, 3))), Shl16(Byte(bytes, 2))), Shl8(Byte(bytes, 1))),
      Byte(bytes, 0)) == Add(x, Word(bytes))
    ensures Add(Add(Add(Add(x, Byte(bytes, 0)), Shl8(Byte(bytes, 1))), Shl16(Byte(bytes, 2))),
      Shl24(Byte(bytes, 3))) == Add(x, Word(bytes))
  {
    var b0, b1, b2, b3 := Byte(bytes, 0), Shl8(Byte(bytes, 1)), Shl16(Byte(bytes, 2)), Shl24(Byte(bytes, 3));
    InPlaces(bytes);
    AddTwice(x, b3, b2); AddTwice(x, b3 + b2, b1); AddTwice(x, b3 + b2 + b1, b0);
    AddTwice(x, b0, b1); AddTwice(x, b0 + b1, b2); AddTwice(x, b0 + b1 + b2, b3);
  }

  /** What falling through the cases of a word does: its bytes are added from the highest present. */
  function HighFirst(x: word, bytes: seq<byte>): word
    requires |bytes| <= 4
  {
    var x3 := if |bytes| > 3 then Add(x, Shl24(bytes[3])) else x;
    var x2 := if |bytes| > 2 then Add(x3, Shl16(bytes[2])) else x3;
    var x1 := if |bytes| > 1 then Add(x2, Shl8(bytes[1])) else x2;
    if |bytes| > 0 then Add(x1, bytes[0]) else x1
  }

  lemma HighFirstIs(x: word, bytes: seq<byte>)
    requires |bytes| <= 4
    ensures HighFirst(x, bytes) == Add(x, Word(bytes))
  {
    AddBytes(x, bytes);
    AddZero(x);
    if 0 < |bytes| <= 3 { AddZero(HighFirst(x, bytes)); }
  }

  /** The four cases of the word at `at`: each falls through to those below it. */
  method TailWord1(mem: array<byte>, k: nat, length: nat, at: nat, x: word) returns (y: word)
    requires k + length <= mem.Length
    ensures y == Add(x, Word(Part(mem[k..k + length], at)))
  {
    ghost var part := Part(mem[k..k + length], at);
    PartIs(mem, k, length, at);
    y := x;
    if length >= at + 4 { y := Add(y, Shl24(mem[k + at + 3])); }
    if length >= at + 3 { y := Add(y, Shl16(mem[k + at + 2])); }
    if length >= at + 2 { y := Add(y, Shl8(mem[k + at + 1])); }
    if length >= at + 1 { y := Add(y, mem[k + at]); }
    assert y == HighFirst(x, part);
    HighFirstIs(x, part);
  }

  /** The last block, byte by byte. */
  method Tail1(m: Mixer, mem: array<byte>, k: nat, length: nat, a0: word, b0: word, c0: word) returns (h: word)
    requires k + length <= mem.Length && length <= 12
    ensures h == Finish(m, State(a0, b0, c0), mem[k..k + length])
  {
    if length == 0 { return c0; }
    var c := TailWord1(mem, k, length, 8, c0);
    var b := TailWord1(mem, k, length, 4, b0);
    var a := TailWord1(mem, k, length, 0, a0);
    h := m.final(State(a, b, c));
  }

  /** A whole word, byte by byte from the lowest. */
  method AddWord1(mem: array<byte>, k: nat, x: word) returns (y: word)
    requires k + 4 <= mem.Length
    ensures y == Add(x, Word(mem[k..k + 4]))
  {
    y := Add(x, mem[k]);
    y := Add(y, Shl8(mem[k + 1]));
    y := Add(y, Shl16(mem[k + 2]));
    y := Add(y, Shl24(mem[k + 3]));
    AddBytes(x, mem[k..k + 4]);
  }

  lemma WholeParts(mem: array<byte>, k: nat, length: nat)
    requires k + length <= mem.Length && length > 12
    ensures var key := mem[k..k + length];
      Part(key, 0) == mem[k..k + 4] && Part(key, 4) == mem[k + 4..k + 8] && Part(key, 8) == mem[k + 8..k + 12] &&
      mem[k + 12..k + length] == key[12..]
  {
    PartIs(mem, k, length, 0);
    PartIs(mem, k, length, 4);
    PartIs(mem, k, length, 8);
  }

  lemma NextBlock(m: Mixer, s: State<word>, mem: array<byte>, k: nat, length: nat)
    requires k + length <= mem.Length && length > 12
    ensures var s1 := m.mix(State(Add(s.a, Word(mem[k..k + 4])), Add(s.b, Word(mem[k + 4..k + 8])),
      Add(s.c, Word(mem[k + 8..k + 12]))));
      Blocks(m, s1, mem[k + 12..k + length]) == Blocks(m, s, mem[k..k + length])
    ensures Last(mem[k + 12..k + length]) == Last(mem[k..k + length])
  {
    WholeParts(mem, k, length);
    BlockStep(m, s, mem[k..k + length], mem[k + 12..k + length]);
  }

  method HashBytes(m: Mixer, mem: array<byte>, off: nat, length: nat, initval: word) returns (h: word)
    requires off + length <= mem.Length
    ensures h == Hash(m, mem[off..off + length], initval)
  {
    ghost var key := mem[off..off + length];
    var s, k, len := Start(length, initval), off, length;
    while len > 12
      invariant k + len == off + length
      invariant Blocks(m, s, mem[k..k + len]) == Blocks(m, Start(length, initval), key) &&
        Last(mem[k..k + len]) == Last(key)
      decreases len
    {
      NextBlock(m, s, mem, k, len);
      var a := AddWord1(mem, k, s.a);
      var b := AddWord1(mem, k + 4, s.b);
      var c := AddWord1(mem, k + 8, s.c);
      s := m.mix(State(a, b, c));
      len := len - 12;
      k := k + 12;
    }
    h := Tail1(m, mem, k, len, s.a, s.b, s.c);
  }

  /** Two halves make a word. */
  lemma TwoHalves(mem: array<byte>, k: nat)
    requires k % 2 == 0 && k + 4 <= mem.Length
    ensures Read16(mem, k) + 0x1_0000 * Read16(mem, k + 2) == Word(mem[k..k + 4])
  {
    InPlaces(mem[k..k + 2]);
    InPlaces(mem[k + 2..k + 4]);
    InPlaces(mem[k..k + 4]);
  }

  /** A whole word in two reads. */
  function ReadTwice(mem: array<byte>, k: nat): (w: word)
    requires k % 2 == 0 && k + 4 <= mem.Length
    reads mem
    ensures w == Word(mem[k..k + 4])
  {
    TwoHalves(mem, k);
    Read16(mem, k) + 0x1_0000 * Read16(mem, k + 2)
  }

  /** The cases of the word at `at` in a key aligned to two bytes: a single byte is read as one, two as a
      half word, three as both. */
  method TailWord2(mem: array<byte>, k: nat, length: nat, at: nat, x: word) returns (y: word)
    requires k % 2 == 0 && at % 2 == 0 && k + length <= mem.Length
    ensures y == Add(x, Word(Part(mem[k..k + length], at)))
  {
    ghost var part := Part(mem[k..k + length], at);
    PartIs(mem, k, length, at);
    y := x;
    if length >= at + 4 {
      assert part == mem[k + at..k + at + 4];
      y := Add(y, ReadTwice(mem, k + at));
    } else if length == at + 3 {
      ThreeBytes(mem, k + at, x);
      assert part == mem[k + at..k + at + 3];
      y := Add(y, Shl16(mem[k + at + 2]));
      y := Add(y, Read16(mem, k + at));
    } else if length == at + 2 {
      assert part == mem[k + at..k + at + 2];
      y := Add(y, Read16(mem, k + at));
    } else if length == at + 1 {
      assert part == mem[k + at..k + at + 1];
      InPlaces(part);
      y := Add(y, mem[k + at]);
    } else {
      AddZero(x);
    }
  }

  lemma ThreeBytes(mem: array<byte>, k: nat, x: word)
    requires k % 2 == 0 && k + 3 <= mem.Length
    ensures Add(Add(x, Shl16(mem[k + 2])), Read16(mem, k)) == Add(x, Word(mem[k..k + 3]))
  {
    InPlaces(mem[k..k + 2]);
    InPlaces(mem[k..k + 3]);
    AddTwice(x, Shl16(mem[k + 2]), Read16(mem, k));
  }

  /** The last block of a key aligned to two bytes. */
  method Tail2(m: Mixer, mem: array<byte>, k: nat, length: nat, a0: word, b0: word, c0: word) returns (h: word)
    requires k % 2 == 0 && k + length <= mem.Length && length <= 12
    ensures h == Finish(m, State(a0, b0, c0), mem[k..k + length])
  {
    if length == 0 { return c0; }
    var c := TailWord2(mem, k, length, 8, c0);
    var b := TailWord2(mem, k, length, 4, b0);
    var a := TailWord2(mem, k, length, 0, a0);
    h := m.final(State(a, b, c));
  }

  lemma StillEven(k: nat)
    requires k % 2 == 0
    ensures (k + 12) % 2 == 0
  {
  }

  method Block2(m: Mixer, s: State<word>, mem: array<byte>, k: nat) returns (r: State<word>)
    requires k % 2 == 0 && k + 12 <= mem.Length
    ensures r == m.mix(State(Add(s.a, Word(mem[k..k + 4])), Add(s.b, Word(mem[k + 4..k + 8])),
      Add(s.c, Word(mem[k + 8..k + 12]))))
  {
    r := m.mix(State(Add(s.a, ReadTwice(mem, k)), Add(s.b, ReadTwice(mem, k + 4)), Add(s.c, ReadTwice(mem, k + 8))));
  }

  method HashAligned2(m: Mixer, mem: array<byte>, off: nat, length: nat, initval: word) returns (h: word)
    requires off % 2 == 0 && off + length <= mem.Length
    ensures h == Hash(m, mem[off..off + length], initval)
  {
    ghost var key := mem[off..off + length];
    var s, k, len := Start(length, initval), off, length;
    while len > 12
      invariant k % 2 == 0 && k + len == off + length
      invariant Blocks(m, s, mem[k..k + len]) == Blocks(m, Start(length, initval), key) &&
        Last(mem[k..k + len]) == Last(key)
      decreases len
    {
      NextBlock(m, s, mem, k, len);
      StillEven(k);
      s := Block2(m, s, mem, k);
      len := len - 12;
      k := k + 12;
    }
    h := Tail2(m, mem, k, len, s.a, s.b, s.c);
  }

  /** hashlittle: the path depends on where the key lies, the hash does not, nor on what follows the key. */
  method Hashlittle(mem: array<byte>, off: nat, length: nat, initval: word) returns (h: word)
    requires off + length <= mem.Length && mem.Length % 4 == 0
    ensures h == Hash(JENKINS, mem[off..off + length], initval)
  {
    if off % 4 == 0 {
      h := HashAligned4(JENKINS, mem, off, length, initval);
    } else if off % 2 == 0 {
      h := HashAligned2(JENKINS, mem, off, length, initval);
    } else {
      h := HashBytes(JENKINS, mem, off, length, initval);
    }
  }
}
