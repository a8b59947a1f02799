/** What the tokener makes of the escapes in a string literal, against what they mean (section 7 of
    RFC 8259), and that the decoded bytes are well-formed UTF-8 (section 4 of RFC 3629). */
module JsonStrings {
  import opened Options
  import opened Sequences
  import opened Json
  import opened JsonFeed
  import opened JsonMachine
  import opened JsonRoundTrip

  // ---------- UTF-8 ----------

  /** What must come next: a new character, `n` continuation bytes of which the first is between `lo` and
      `hi`, or nothing any more. */
  datatype Utf = Clean | Want(n: nat, lo: nat, hi: nat) | Bad

  /** The grammar of section 4 of RFC 3629. */
  function Next(st: Utf, c: char): Utf {
    var b := c as int;
    match st
    case Clean =>
      if b < 0x80 then Clean
      else if 0xc2 <= b <= 0xdf then Want(1, 0x80, 0xbf)
      else if b == 0xe0 then Want(2, 0xa0, 0xbf)
      else if b == 0xed then Want(2, 0x80, 0x9f)
      else if 0xe1 <= b <= 0xef then Want(2, 0x80, 0xbf)
      else if b == 0xf0 then Want(3, 0x90, 0xbf)
      else if 0xf1 <= b <= 0xf3 then Want(3, 0x80, 0xbf)
      else if b == 0xf4 then Want(3, 0x80, 0x8f)
      else Bad
    case Want(n, lo, hi) =>
      if lo <= b <= hi then if n <= 1 then Clean else Want(n - 1, 0x80, 0xbf) else Bad
    case Bad => Bad
  }

  function Reads(st: Utf, s: Bytes): Utf
    decreases |s|
  {
    if s == [] then st else Reads(Next(st, s[0]), s[1..])
  }

  predicate WellFormed(s: Bytes) { Reads(Clean, s) == Clean }

  lemma {:induction false} ReadsParts(st: Utf, a: Bytes, b: Bytes)
    ensures Reads(st, a + b) == Reads(Reads(st, a), b)
    decreases |a|
  {
    if a == [] {
      assert a + b == b;
    } else {
      assert (a + b)[1..] == a[1..] + b;
      ReadsParts(Next(st, a[0]), a[1..], b);
    }
  }

  lemma {:induction false} BadStays(s: Bytes)
    ensures Reads(Bad, s) == Bad
    decreases |s|
  {
    if s != [] { BadStays(s[1..]); }
  }

  predicate Scalar(u: nat) { u < 0xd800 || 0xe000 <= u < 0x11_0000 }

  /** Section 3 of RFC 3629. */
  function Encode(u: nat): Bytes
    requires Scalar(u)
  {
    if u < 0x80 then [Byte(u)] else if u < 0x800 then Encode2(u) else if u < 0x1_0000 then Encode3(u) else Encode4(u)
  }

  lemma ReadsFour(st: Utf, s: Bytes)
    ensures |s| == 1 ==> Reads(st, s) == Next(st, s[0])
    ensures |s| == 2 ==> Reads(st, s) == Next(Next(st, s[0]), s[1])
    ensures |s| == 3 ==> Reads(st, s) == Next(Next(Next(st, s[0]), s[1]), s[2])
    ensures |s| == 4 ==> Reads(st, s) == Next(Next(Next(Next(st, s[0]), s[1]), s[2]), s[3])
    decreases |s|
  {
    if 1 < |s| <= 4 { ReadsFour(Next(st, s[0]), s[1..]); }
  }

  lemma Encode2WellFormed(u: nat)
    requires 0x80 <= u < 0x800
    ensures WellFormed(Encode2(u))
  {
    ReadsFour(Clean, Encode2(u));
    assert 2 <= u / 0x40 < 0x20;
  }

  lemma Encode3WellFormed(u: nat)
    requires 0x800 <= u < 0x1_0000 && Scalar(u)
    ensures WellFormed(Encode3(u))
  {
    ReadsFour(Clean, Encode3(u));
    var a := u / 0x40;
    assert u / 0x1000 == a / 0x40 && a == a / 0x40 * 0x40 + a % 0x40;
    assert a / 0x40 < 0x10 && (a / 0x40 == 0 ==> a % 0x40 >= 0x20) && (a / 0x40 == 0xd ==> a % 0x40 < 0x20);
  }

  lemma Encode4WellFormed(u: nat)
    requires 0x1_0000 <= u < 0x11_0000
    ensures WellFormed(Encode4(u))
  {
    ReadsFour(Clean, Encode4(u));
    var a := u / 0x1000;
    assert u / 0x4_0000 == a / 0x40 && a == a / 0x40 * 0x40 + a % 0x40 && 0x10 <= a < 0x110;
    assert a / 0x40 <= 4 && (a / 0x40 == 0 ==> a % 0x40 >= 0x10) && (a / 0x40 == 4 ==> a % 0x40 < 0x10);
  }

  lemma EncodeWellFormed(u: nat)
    requires Scalar(u)
    ensures WellFormed(Encode(u))
  {
    if u < 0x80 { ReadsFour(Clean, Encode(u)); }
    else if u < 0x800 { Encode2WellFormed(u); }
    else if u < 0x1_0000 { Encode3WellFormed(u); }
    else { Encode4WellFormed(u); }
  }

  function EncodeAll(us: seq<nat>): Bytes
    requires forall i :: 0 <= i < |us| ==> Scalar(us[i])
  {
    if us == [] then [] else Encode(us[0]) + EncodeAll(us[1..])
  }

  lemma {:induction false} EncodeAllWellFormed(us: seq<nat>)
    requires forall i :: 0 <= i < |us| ==> Scalar(us[i])
    ensures WellFormed(EncodeAll(us))
    decreases |us|
  {
    if us != [] {
      EncodeWellFormed(us[0]);
      ReadsParts(Clean, Encode(us[0]), EncodeAll(us[1..]));
      EncodeAllWellFormed(us[1..]);
    }
  }

  // ---------- what the validation lets through ----------

  /** A first byte that begins no character of RFC 3629, or a second byte that makes the character too long for
      its value, a surrogate, or greater than U+10FFFF. */
  predicate MisfitFirst(s: Bytes)
    requires s != []
  {
    var b := s[0] as int;
    b == 0xc0 || b == 0xc1 || 0xf5 <= b <= 0xf7 ||
    (|s| > 1 && var b1 := s[1] as int;
      (b == 0xe0 && b1 < 0xa0) || (b == 0xed && b1 > 0x9f) || (b == 0xf0 && b1 < 0x90) || (b == 0xf4 && b1 > 0x8f))
  }

  predicate Misfit(s: Bytes) { s != [] && (MisfitFirst(s) || Misfit(s[1..])) }

  /** A number of continuation bytes to come, and what the grammar wants. */
  predicate SameCount(st: Utf, left: nat) {
    match st
    case Clean => left == 0
    case Want(n, lo, hi) => left == n > 0 && 0x80 <= lo <= hi <= 0xbf
    case Bad => false
  }

  predicate FirstFits(st: Utf, s: Bytes) { st.Want? && s != [] ==> st.lo <= s[0] as int <= st.hi }

  lemma {:induction false} ValidationStep(st: Utf, s: Bytes, left: nat, config: Config)
    requires SameCount(st, left) && config.validateUtf8
    ensures Reads(st, s) == Clean <==> SeenAll(s, left, config) == Left(0) && !Misfit(s) && FirstFits(st, s)
    decreases |s|
  {
    if s != [] {
      var next, o := Next(st, s[0]), Seen(s[0], left, config);
      if next == Bad {
        BadStays(s[1..]);
      } else {
        ValidationStep(next, s[1..], o.n, config);
        ContinuationComes(s[1..], o.n, config);
      }
    }
  }

  lemma ContinuationComes(s: Bytes, left: nat, config: Config)
    requires config.validateUtf8
    ensures SeenAll(s, left, config) == Left(0) && left > 0 ==> s != [] && 0x80 <= s[0] as int <= 0xbf
  {
  }

  /** json_tokener_validate_utf8 lets through all of UTF-8, and exactly the misfits besides. */
  lemma ValidationExact(s: Bytes, config: Config)
    requires config.validateUtf8
    ensures WellFormed(s) <==> Passes(s, config) && !Misfit(s)
  {
    ValidationStep(Clean, s, 0, config);
  }

  /** A surrogate in UTF-8, and an overlong NUL. */
  lemma MisfitsPass(config: Config)
    ensures var s := [0xed as char, 0xa0 as char, 0x80 as char]; Passes(s, config) && !WellFormed(s)
    ensures var s := [0xc0 as char, 0x80 as char]; Passes(s, config) && !WellFormed(s)
  {
    var s, t := [0xed as char, 0xa0 as char, 0x80 as char], [0xc0 as char, 0x80 as char];
    ReadsFour(Clean, s);
    ReadsFour(Clean, t);
    if config.validateUtf8 {
      assert s[1..] == [0xa0 as char, 0x80 as char] && s[1..][1..] == [0x80 as char] == t[1..];
      assert SeenAll([0x80 as char], 1, config) == SeenAll([], 0, config) == Left(0);
      assert SeenAll(s[1..], 2, config) == Left(0);
    } else {
      SeenNothing(s, 0, config);
      SeenNothing(t, 0, config);
    }
  }

  /** How long a character is, by its first byte. */
  function Length(c: char): nat {
    if c as int < 0x80 then 1 else if c as int < 0xe0 then 2 else if c as int < 0xf0 then 3 else 4
  }

  lemma FirstLength(s: Bytes)
    requires s != [] && WellFormed(s)
    ensures var n := Length(s[0]); n <= |s| && WellFormed(s[..n]) && WellFormed(s[n..])
  {
    var n := Length(s[0]);
    if n > |s| {
      ReadsFour(Clean, s);
    } else {
      ReadsFour(Clean, s[..n]);
      ReadsParts(Clean, s[..n], s[n..]);
      assert s[..n] + s[n..] == s;
      if Reads(Clean, s[..n]) == Bad { BadStays(s[n..]); }
    }
  }

  lemma Decoded2(s: Bytes) returns (u: nat)
    requires |s| == 2 == Length(s[0]) && WellFormed(s)
    ensures Scalar(u) && Encode(u) == s
  {
    ReadsFour(Clean, s);
    u := (s[0] as int - 0xc0) * 0x40 + (s[1] as int - 0x80);
  }

  lemma Decoded3(s: Bytes) returns (u: nat)
    requires |s| == 3 == Length(s[0]) && WellFormed(s)
    ensures Scalar(u) && Encode(u) == s
  {
    ReadsFour(Clean, s);
    var high := (s[0] as int - 0xe0) * 0x40 + (s[1] as int - 0x80);
    u := high * 0x40 + (s[2] as int - 0x80);
    assert u / 0x40 == high && u / 0x1000 == high / 0x40;
  }

  lemma Decoded4(s: Bytes) returns (u: nat)
    requires |s| == 4 == Length(s[0]) && WellFormed(s)
    ensures Scalar(u) && Encode(u) == s
  {
    ReadsFour(Clean, s);
    var top := (s[0] as int - 0xf0) * 0x40 + (s[1] as int - 0x80);
    var high := top * 0x40 + (s[2] as int - 0x80);
    u := high * 0x40 + (s[3] as int - 0x80);
    assert u / 0x40 == high && high / 0x40 == top && u / 0x1000 == top && u / 0x4_0000 == top / 0x40;
  }

  /** The first character of a well-formed text. */
  lemma FirstCharacter(s: Bytes) returns (u: nat, n: nat)
    requires s != [] && WellFormed(s)
    ensures 0 < n <= |s| && Scalar(u) && Encode(u) == s[..n] && WellFormed(s[n..])
  {
    n := Length(s[0]);
    FirstLength(s);
    if n == 1 { u := s[0] as int; }
    else if n == 2 { u := Decoded2(s[..2]); }
    else if n == 3 { u := Decoded3(s[..3]); }
    else { u := Decoded4(s[..4]); }
  }

  /** A text is well-formed exactly if it is the encoding of some characters. */
  lemma {:induction false} WellFormedIsEncoded(s: Bytes)
    requires WellFormed(s)
    ensures exists us: seq<nat> :: (forall i :: 0 <= i < |us| ==> Scalar(us[i])) && EncodeAll(us) == s
    decreases |s|
  {
    if s == [] {
      assert EncodeAll([]) == s;
    } else {
      var u, n := FirstCharacter(s);
      WellFormedIsEncoded(s[n..]);
      var us: seq<nat> :| (forall i :: 0 <= i < |us| ==> Scalar(us[i])) && EncodeAll(us) == s[n..];
      assert ([u] + us)[1..] == us;
      assert EncodeAll([u] + us) == s[..n] + s[n..] == s;
    }
  }

  // ---------- the parts of a literal ----------

  /** A byte as it is, an escape of one character, or an escape of four hexadecimal digits. */
  datatype Unit = Raw(c: char) | Short(c: char) | Code(digits: Bytes)

  predicate ValidUnit(u: Unit, quote: char) {
    match u
    case Raw(c) => c != quote && c != '\\' && c != '\0'
    case Short(c) => c in ['"', '\\', '/', 'b', 'n', 'r', 't', 'f']
    case Code(d) => |d| == 4 && forall i :: 0 <= i < 4 ==> IsHex(d[i])
  }

  predicate ValidUnits(units: seq<Unit>, quote: char) { forall i :: 0 <= i < |units| ==> ValidUnit(units[i], quote) }

  function SourceOf(u: Unit): Bytes {
    match u
    case Raw(c) => [c]
    case Short(c) => ['\\', c]
    case Code(d) => ['\\', 'u'] + d
  }

  function Source(units: seq<Unit>): Bytes { if units == [] then [] else SourceOf(units[0]) + Source(units[1..]) }

  // ---------- hexadecimal digits ----------

  const HEX_LOWER := "0123456789abcdef"
  const HEX_UPPER := "0123456789ABCDEF"

  /** The digit stands at place `n` of a table. */
  predicate Denotes(c: char, n: nat) { n < 16 && (HEX_LOWER[n] == c || HEX_UPPER[n] == c) }

  /** A digit counts for its place, in lower or upper case, and there are no other digits. */
  lemma HexPlaces(c: char)
    ensures forall n: nat :: Denotes(c, n) ==> IsHex(c) && HexValue(c) == n
    ensures IsHex(c) ==> Denotes(c, HexValue(c))
  {
  }

  function CodeOf(u: Unit): (r: nat)
    requires u.Code? && ValidUnit(u, '"')
    ensures r < 0x1_0000
  {
    HexValue(u.digits[0]) * 0x1000 + HexValue(u.digits[1]) * 0x100 + HexValue(u.digits[2]) * 0x10 +
      HexValue(u.digits[3])
  }

  /** The code of four digits, in either case, in base 16. */
  lemma CodeMeans(u: Unit, a: nat, b: nat, c: nat, d: nat)
    requires u.Code? && |u.digits| == 4
    requires Denotes(u.digits[0], a) && Denotes(u.digits[1], b) && Denotes(u.digits[2], c) && Denotes(u.digits[3], d)
    ensures ValidUnit(u, '"') && CodeOf(u) == ((a * 16 + b) * 16 + c) * 16 + d
  {
    HexPlaces(u.digits[0]);
    HexPlaces(u.digits[1]);
    HexPlaces(u.digits[2]);
    HexPlaces(u.digits[3]);
  }

  // ---------- what the tokener makes of them ----------

  function Unused(high: nat): Bytes { if high != 0 then REPLACEMENT else [] }

  /** What one part adds to the text, and the high surrogate that waits after it. */
  datatype Emitted = Emitted(bytes: Bytes, high: nat)

  function Emit(high: nat, u: Unit, quote: char): Emitted
    requires ValidUnit(u, quote)
  {
    match u
    case Raw(c) => Emitted(Unused(high) + [c], 0)
    case Short(c) => Emitted(Unused(high) + SimpleEscape(c), 0)
    case Code(_) =>
      var code := CodeOf(u);
      var paired := high != 0 && IsLow(code);
      var v := if paired then Pair(high, code) else code;
      var before := if paired then [] else Unused(high);
      if Decode(v).Waits? then Emitted(before, v) else Emitted(before + Decode(v).bytes, 0)
  }

  function Out(high: nat, units: seq<Unit>, quote: char): Bytes
    requires ValidUnits(units, quote)
    decreases |units|
  {
    if units == [] then Unused(high)
    else
      var e := Emit(high, units[0], quote);
      e.bytes + Out(e.high, units[1..], quote)
  }

  /** Reading the string, with or without a high surrogate that waits. */
  function InText(m: Machine, q: Quoting, text: Bytes, high: nat): Machine {
    m.(mode := if high == 0 then Text(q, text) else NeedEscape(q, text), high := high)
  }

  lemma RawRead(m: Machine, q: Quoting, text: Bytes, high: nat, c: char, config: Config)
    requires c != q.quote && c != '\\' && c != '\0'
    ensures Fed(InText(m, q, text, high), [c], config) == Some(InText(m, q, text + (Unused(high) + [c]), 0))
  {
    var m0, m1 := InText(m, q, text, high), InText(m, q, text + Unused(high), 0);
    assert text + [] == text;
    assert Take(m0, c, config) == Take(m1, c, config);
    assert Take(m1, c, config) == AtText(m1, c);
    assert text + Unused(high) + [c] == text + (Unused(high) + [c]);
    FedByte(m0, c, InText(m, q, text + (Unused(high) + [c]), 0), config);
  }

  /** After a backslash. */
  function AfterSlash(m: Machine, q: Quoting, text: Bytes, high: nat): Machine {
    m.(mode := if high == 0 then Escaped(q, text) else NeedU(q, text), high := high)
  }

  lemma SlashRead(m: Machine, q: Quoting, text: Bytes, high: nat, config: Config)
    requires q.quote != '\\'
    ensures Fed(InText(m, q, text, high), ['\\'], config) == Some(AfterSlash(m, q, text, high))
  {
    var m0 := InText(m, q, text, high);
    if high == 0 { assert Take(m0, '\\', config) == AtText(m0, '\\'); }
    FedByte(m0, '\\', AfterSlash(m, q, text, high), config);
  }

  lemma ShortRead(m: Machine, q: Quoting, text: Bytes, high: nat, c: char, config: Config)
    requires c in ['"', '\\', '/', 'b', 'n', 'r', 't', 'f'] && q.quote != '\\'
    ensures Fed(InText(m, q, text, high), ['\\', c], config) ==
      Some(InText(m, q, text + (Unused(high) + SimpleEscape(c)), 0))
  {
    var m0, m1 := AfterSlash(m, q, text, high), AfterSlash(m, q, text + Unused(high), 0);
    var m2 := InText(m, q, text + (Unused(high) + SimpleEscape(c)), 0);
    SlashRead(m, q, text, high, config);
    assert text + [] == text;
    assert Take(m0, c, config) == Take(m1, c, config);
    assert Take(m1, c, config) == AtEscaped(m1, c);
    assert text + Unused(high) + SimpleEscape(c) == text + (Unused(high) + SimpleEscape(c));
    FedByte(m0, c, m2, config);
    FedParts(InText(m, q, text, high), ['\\'], [c], m0, config);
    assert ['\\'] + [c] == ['\\', c];
  }

  lemma CodeRead(m: Machine, q: Quoting, text: Bytes, high: nat, u: Unit, config: Config)
    requires u.Code? && ValidUnit(u, q.quote) && q.quote != '\\'
    ensures var e := Emit(high, u, q.quote);
      Fed(InText(m, q, text, high), SourceOf(u), config) == Some(InText(m, q, text + e.bytes, e.high))
  {
    var start := InText(m, q, text, high);
    var s, m0 := AfterSlash(m, q, text, high), m.(mode := Unicode(q, text, 0, 0), high := high);
    SlashRead(m, q, text, high, config);
    if high == 0 { assert Take(s, 'u', config) == AtEscaped(s, 'u'); }
    FedByte(s, 'u', m0, config);
    FedParts(start, ['\\'], ['u'], s, config);
    CodeDigits(m, q, text, high, u, config);
    FedParts(start, ['\\'] + ['u'], u.digits, m0, config);
    assert ['\\'] + ['u'] + u.digits == SourceOf(u);
  }

  /** The digits of an escape, with a high surrogate before it or not. */
  lemma CodeDigits(m: Machine, q: Quoting, text: Bytes, high: nat, u: Unit, config: Config)
    requires u.Code? && ValidUnit(u, q.quote)
    ensures var e := Emit(high, u, q.quote);
      Fed(m.(mode := Unicode(q, text, 0, 0), high := high), u.digits, config) ==
        Some(InText(m, q, text + e.bytes, e.high))
  {
    var d, m0 := u.digits, m.(mode := Unicode(q, text, 0, 0), high := high);
    var m3 := DigitsFed(m0, d, config);
    LastDigit(m3, q, text, high, u, config);
    FedParts(m0, d[..3], [d[3]], m3, config);
    assert d[..3] + [d[3]] == d;
  }

  lemma ShiftedIs(x: nat)
    ensures Shifted16(x, 1) == x * 0x10 && Shifted16(x, 2) == x * 0x100 && Shifted16(x, 3) == x * 0x1000
  {
    assert Shifted16(x, 1) == 16 * Shifted16(x, 0);
    assert Shifted16(x, 2) == 16 * Shifted16(x, 1);
  }

  /** Three of the four digits. */
  lemma DigitsFed(m: Machine, d: Bytes, config: Config) returns (m3: Machine)
    requires m.mode.Unicode? && m.mode.digits == 0 && m.mode.ucs == 0 && |d| == 4 && forall i :: 0 <= i < 4 ==>
      IsHex(d[i])
    ensures Fed(m, d[..3], config) == Some(m3)
    ensures m3 == m.(mode := m.mode.(digits := 3, ucs := HexValue(d[0]) * 0x1000 + HexValue(d[1]) * 0x100 +
      HexValue(d[2]) * 0x10))
  {
    ShiftedIs(HexValue(d[0]));
    ShiftedIs(HexValue(d[1]));
    ShiftedIs(HexValue(d[2]));
    var m1 := m.(mode := m.mode.(digits := 1, ucs := HexValue(d[0]) * 0x1000));
    var m2 := m.(mode := m.mode.(digits := 2, ucs := HexValue(d[0]) * 0x1000 + HexValue(d[1]) * 0x100));
    m3 := m.(mode := m.mode.(digits := 3, ucs := HexValue(d[0]) * 0x1000 + HexValue(d[1]) * 0x100 +
      HexValue(d[2]) * 0x10));
    assert Take(m, d[0], config) == AtUnicode(m, d[0]);
    FedByte(m, d[0], m1, config);
    assert Take(m1, d[1], config) == AtUnicode(m1, d[1]);
    FedByte(m1, d[1], m2, config);
    assert Take(m2, d[2], config) == AtUnicode(m2, d[2]);
    FedByte(m2, d[2], m3, config);
    FedParts(m, [d[0]], [d[1]], m1, config);
    FedParts(m, [d[0]] + [d[1]], [d[2]], m2, config);
    assert [d[0]] + [d[1]] + [d[2]] == d[..3];
  }

  lemma LastDigit(m3: Machine, q: Quoting, text: Bytes, high: nat, u: Unit, config: Config)
    requires u.Code? && ValidUnit(u, q.quote) && m3.high == high
    requires m3.mode == Unicode(q, text, 3, HexValue(u.digits[0]) * 0x1000 + HexValue(u.digits[1]) * 0x100 +
      HexValue(u.digits[2]) * 0x10)
    ensures var e := Emit(high, u, q.quote);
      Fed(m3, [u.digits[3]], config) == Some(InText(m3, q, text + e.bytes, e.high))
  {
    var e, c := Emit(high, u, q.quote), u.digits[3];
    assert Take(m3, c, config) == AtUnicode(m3, c) == Go(EndEscape(m3, q, text, CodeOf(u)));
    assert text + [] == text;
    var code := CodeOf(u);
    var paired := high != 0 && IsLow(code);
    var v := if paired then Pair(high, code) else code;
    if Decode(v).Bytes? {
      var text1 := if high != 0 && !paired then text + REPLACEMENT else text;
      assert text1 + Decode(v).bytes == text + e.bytes;
    }
    FedByte(m3, c, InText(m3, q, text + e.bytes, e.high), config);
  }

  lemma UnitRead(m: Machine, q: Quoting, text: Bytes, high: nat, u: Unit, config: Config)
    requires ValidUnit(u, q.quote) && q.quote != '\\'
    ensures var e := Emit(high, u, q.quote);
      Fed(InText(m, q, text, high), SourceOf(u), config) == Some(InText(m, q, text + e.bytes, e.high))
  {
    match u
    case Raw(c) => RawRead(m, q, text, high, c, config);
    case Short(c) => ShortRead(m, q, text, high, c, config);
    case Code(_) => CodeRead(m, q, text, high, u, config);
  }

  lemma QuoteRead(m: Machine, q: Quoting, text: Bytes, high: nat, config: Config)
    requires q.quote != '\\'
    ensures Fed(InText(m, q, text, high), [q.quote], config) ==
      Fed(InText(m, q, text + Unused(high), 0), [q.quote], config)
  {
    var m0, m1 := InText(m, q, text, high), InText(m, q, text + Unused(high), 0);
    assert text + [] == text;
    assert Take(m0, q.quote, config) == Take(m1, q.quote, config);
  }

  /** The parts of a literal up to its closing quote. */
  lemma {:induction false} UnitsRead(m: Machine, q: Quoting, text: Bytes, high: nat, units: seq<Unit>, config: Config)
    requires ValidUnits(units, q.quote) && q.quote != '\\' && q.quote != '\0'
    ensures Fed(InText(m, q, text, high), Source(units) + [q.quote], config) ==
      Fed(InText(m, q, text + Out(high, units, q.quote), 0), [q.quote], config)
    decreases |units|
  {
    if units == [] {
      QuoteRead(m, q, text, high, config);
      assert Source(units) + [q.quote] == [q.quote];
    } else {
      var e, rest := Emit(high, units[0], q.quote), Source(units[1..]);
      UnitRead(m, q, text, high, units[0], config);
      UnitsRead(m, q, text + e.bytes, e.high, units[1..], config);
      Regroup(SourceOf(units[0]), rest, [q.quote]);
      Regroup(text, e.bytes, Out(e.high, units[1..], q.quote));
      FedParts(InText(m, q, text, high), SourceOf(units[0]), rest + [q.quote], InText(m, q, text + e.bytes, e.high),
        config);
    }
  }

  /** A string value, from its opening quote to its closing one. */
  lemma LiteralRead(m: Machine, units: seq<Unit>, config: Config)
    requires m.mode == Ws(Start) && m.high == 0 && ValidUnits(units, '"')
    ensures Fed(m, "\"" + Source(units) + "\"", config) == Some(Complete(m, Str(Out(0, units, '"'))))
  {
    var q := Quoting(false, '"');
    var m0 := m.(mode := Text(q, []));
    StartByte(m, '"', config);
    FedByte(m, '"', m0, config);
    UnitsRead(m, q, [], 0, units, config);
    var out := Out(0, units, '"');
    assert [] + out == out;
    var m1 := InText(m, q, out, 0);
    assert Take(m1, '"', config) == AtText(m1, '"');
    FedByte(m1, '"', Complete(m, Str(out)), config);
    FedParts(m, "\"", Source(units) + "\"", m0, config);
    assert "\"" + (Source(units) + "\"") == "\"" + Source(units) + "\"";
  }

  // ---------- decoded strings are well-formed ----------

  lemma SurrogateBits(u: nat)
    requires u < 0x1_0000
    ensures IsHigh(u) <==> 0xd800 <= u < 0xdc00
    ensures IsLow(u) <==> 0xdc00 <= u < 0xe000
  {
  }

  lemma PairRange(high: nat, low: nat)
    ensures 0x1_0000 <= Pair(high, low) < 0x11_0000
  {
  }

  lemma ReplacementWellFormed()
    ensures WellFormed(REPLACEMENT)
  {
    ReadsFour(Clean, REPLACEMENT);
  }

  /** What an escape adds is well-formed by itself. */
  lemma EscapeWellFormed(high: nat, u: Unit, quote: char)
    requires ValidUnit(u, quote) && !u.Raw?
    ensures WellFormed(Emit(high, u, quote).bytes)
  {
    ReplacementWellFormed();
    match u
    case Short(c) =>
      ReadsFour(Clean, SimpleEscape(c));
      ReadsParts(Clean, Unused(high), SimpleEscape(c));
    case Code(_) =>
      var code := CodeOf(u);
      var paired := high != 0 && IsLow(code);
      var v := if paired then Pair(high, code) else code;
      if paired { PairRange(high, code); } else { SurrogateBits(code); }
      if Decode(v).Bytes? {
        if Scalar(v) { EncodeWellFormed(v); }
        ReadsParts(Clean, if paired then [] else Unused(high), Decode(v).bytes);
      }
  }

  /** Continuation bytes are never ASCII. */
  predicate Multibyte(st: Utf) { st.Want? ==> st.lo >= 0x80 }

  /** If the source of a string is well-formed, so is the string, whatever escapes it has. */
  lemma {:induction false} OutWellFormed(st: Utf, high: nat, units: seq<Unit>, quote: char)
    requires ValidUnits(units, quote) && Multibyte(st) && (high != 0 ==> st == Clean) &&
      Reads(st, Source(units)) == Clean
    ensures Reads(st, Out(high, units, quote)) == Clean
    decreases |units|
  {
    ReplacementWellFormed();
    if units != [] {
      var u, rest := units[0], units[1..];
      var e, source := Emit(high, u, quote), SourceOf(u);
      ReadsParts(st, source, Source(rest));
      ReadsParts(st, e.bytes, Out(e.high, rest, quote));
      if u.Raw? {
        ReadsFour(st, [u.c]);
        ReadsParts(st, Unused(high), [u.c]);
        OutWellFormed(Next(st, u.c), 0, rest, quote);
      } else {
        EscapeWellFormed(high, u, quote);
        SlashClean(st, source, Source(rest));
        OutWellFormed(Clean, e.high, rest, quote);
      }
    }
  }

  /** A backslash stands between characters, and so does what follows an escape. */
  lemma SlashClean(st: Utf, source: Bytes, rest: Bytes)
    requires Multibyte(st) && Reads(Reads(st, source), rest) == Clean
    requires |source| > 1 && forall i :: 0 <= i < |source| ==> source[i] < '\U{0080}'
    ensures st == Clean && Reads(st, source) == Clean
  {
    if st != Clean {
      assert Next(st, source[0]) == Bad;
      BadStays(source[1..]);
      BadStays(rest);
    } else {
      AsciiClean(source);
    }
  }

  lemma {:induction false} AsciiClean(s: Bytes)
    requires forall i :: 0 <= i < |s| ==> s[i] < '\U{0080}'
    ensures WellFormed(s)
    decreases |s|
  {
    if s != [] { AsciiClean(s[1..]); }
  }

  // ---------- what escapes mean ----------

  /** A code and the code after it make one character. */
  predicate IsPair(units: seq<Unit>)
    requires ValidUnits(units, '"')
  {
    |units| > 1 && units[0].Code? && units[1].Code? &&
    0xd800 <= CodeOf(units[0]) < 0xdc00 && 0xdc00 <= CodeOf(units[1]) < 0xe000
  }

  /** The character of a surrogate pair. */
  function Joined(units: seq<Unit>): (u: nat)
    requires ValidUnits(units, '"') && IsPair(units)
    ensures 0x1_0000 <= u < 0x11_0000
  {
    0x1_0000 + (CodeOf(units[0]) - 0xd800) * 0x400 + (CodeOf(units[1]) - 0xdc00)
  }

  /** What the first part means. A surrogate without its partner stands for U+FFFD. */
  function Meant(units: seq<Unit>): Bytes
    requires units != [] && ValidUnits(units, '"')
  {
    match units[0]
    case Raw(c) => [c]
    case Short(c) => SimpleEscape(c)
    case Code(_) =>
      if IsPair(units) then Encode(Joined(units))
      else if Scalar(CodeOf(units[0])) then Encode(CodeOf(units[0]))
      else REPLACEMENT
  }

  function Meaning(units: seq<Unit>): Bytes
    requires ValidUnits(units, '"')
    decreases |units|
  {
    if units == [] then [] else Meant(units) + Meaning(units[if IsPair(units) then 2 else 1..])
  }

  /** The escapes of two characters, by the table in section 7 of RFC 8259. */
  lemma ShortMeans(i: nat)
    requires i < 8
    ensures var meant := ['"', '\\', '/', '\U{0008}', '\U{000C}', '\U{000A}', '\U{000D}', '\U{0009}'];
      SimpleEscape("\"\\/bfnrt"[i]) == [meant[i]]
  {
  }

  /** The bits of a character are spread over its bytes as in section 3 of RFC 3629. */
  lemma EncodeMeans(u: nat)
    requires Scalar(u)
    ensures var s := Encode(u);
      match |s|
      case 1 => u < 0x80 && s[0] as int == u
      case 2 => 0x80 <= u < 0x800 && (s[0] as int - 0xc0) * 0x40 + (s[1] as int - 0x80) == u
      case 3 =>
        0x800 <= u < 0x1_0000 &&
        ((s[0] as int - 0xe0) * 0x40 + (s[1] as int - 0x80)) * 0x40 + (s[2] as int - 0x80) == u
      case 4 =>
        0x1_0000 <= u < 0x11_0000 &&
        (((s[0] as int - 0xf0) * 0x40 + (s[1] as int - 0x80)) * 0x40 + (s[2] as int - 0x80)) * 0x40 +
          (s[3] as int - 0x80) == u
      case _ => false
    ensures REPLACEMENT == Encode(0xfffd)
  {
    if u >= 0x1_0000 { EncodeValue(u); }
    if 0x800 <= u < 0x1_0000 { assert u / 0x1000 == u / 0x40 / 0x40; }
  }

  /** The tests for surrogates look at the low 16 bits, also of a character above U+FFFF. */
  predicate TakenForSurrogate(u: nat) { 0xd800 <= u % 0x1_0000 < 0xe000 }

  /** Some pair denotes a character that is taken for a surrogate. */
  predicate Mistaken(units: seq<Unit>)
    requires ValidUnits(units, '"')
    decreases |units|
  {
    units != [] &&
    ((IsPair(units) && TakenForSurrogate(Joined(units))) || Mistaken(units[if IsPair(units) then 2 else 1..]))
  }

  lemma SurrogateBitsAbove(u: nat)
    ensures IsHigh(u) || IsLow(u) <==> TakenForSurrogate(u)
    ensures IsHigh(u) ==> u != 0
  {
  }

  lemma JoinedIsPair(units: seq<Unit>)
    requires ValidUnits(units, '"') && IsPair(units)
    ensures Joined(units) == Pair(CodeOf(units[0]), CodeOf(units[1]))
  {
  }

  /** Without a pair in front, the first part adds what it means, unless it is a high surrogate, which waits. */
  lemma EmitOne(units: seq<Unit>)
    requires units != [] && ValidUnits(units, '"')
    ensures var e := Emit(0, units[0], '"');
      if units[0].Code? && 0xd800 <= CodeOf(units[0]) < 0xdc00 then e == Emitted([], CodeOf(units[0]))
      else e == Emitted(Meant(units), 0)
  {
    if units[0].Code? { SurrogateBits(CodeOf(units[0])); }
  }

  lemma EmitUnused(high: nat, u: Unit)
    requires ValidUnit(u, '"') && high != 0 && !(u.Code? && IsLow(CodeOf(u)))
    ensures var e0 := Emit(0, u, '"'); Emit(high, u, '"') == Emitted(REPLACEMENT + e0.bytes, e0.high)
  {
    var e0 := Emit(0, u, '"');
    match u
    case Raw(c) => assert [] + [c] == [c];
    case Short(c) => assert [] + SimpleEscape(c) == SimpleEscape(c);
    case Code(_) =>
      if Decode(CodeOf(u)).Bytes? {
        var bytes := Decode(CodeOf(u)).bytes;
        assert e0 == Emitted([] + bytes, 0) && [] + bytes == bytes;
      } else {
        assert e0 == Emitted([], CodeOf(u)) && REPLACEMENT + [] == REPLACEMENT;
      }
  }

  /** After a high surrogate that finds no partner. */
  lemma EmitNext(high: nat, units: seq<Unit>)
    requires units != [] && ValidUnits(units, '"') && high != 0 && !(units[0].Code? && IsLow(CodeOf(units[0])))
    ensures Out(high, units, '"') == REPLACEMENT + Out(0, units, '"')
  {
    EmitUnused(high, units[0]);
    var e0 := Emit(0, units[0], '"');
    Regroup(REPLACEMENT, e0.bytes, Out(e0.high, units[1..], '"'));
  }

  /** A pair that is not mistaken. */
  lemma PairOut(units: seq<Unit>)
    requires ValidUnits(units, '"') && IsPair(units) && !TakenForSurrogate(Joined(units))
    ensures Out(CodeOf(units[0]), units[1..], '"') == Encode(Joined(units)) + Out(0, units[2..], '"')
  {
    var high, rest := CodeOf(units[0]), units[1..];
    JoinedIsPair(units);
    SurrogateBits(CodeOf(units[1]));
    SurrogateBitsAbove(Joined(units));
    assert [] + Encode(Joined(units)) == Encode(Joined(units));
    assert Emit(high, rest[0], '"') == Emitted(Encode(Joined(units)), 0);
    assert rest[1..] == units[2..];
  }

  /** What the first parts add if they are not mistaken. */
  lemma OutFirst(units: seq<Unit>)
    requires units != [] && ValidUnits(units, '"') && !(IsPair(units) && TakenForSurrogate(Joined(units)))
    ensures Out(0, units, '"') == Meant(units) + Out(0, units[if IsPair(units) then 2 else 1..], '"')
  {
    EmitOne(units);
    var rest := units[1..];
    if units[0].Code? && 0xd800 <= CodeOf(units[0]) < 0xdc00 {
      var high := CodeOf(units[0]);
      assert Out(0, units, '"') == [] + Out(high, rest, '"') == Out(high, rest, '"');
      if IsPair(units) {
        PairOut(units);
      } else if rest != [] {
        if rest[0].Code? { SurrogateBits(CodeOf(rest[0])); }
        EmitNext(high, rest);
      } else {
        assert REPLACEMENT + [] == REPLACEMENT;
      }
    }
  }

  /** What a character above U+FFFF that waits as if it were a high surrogate leads to: U+FFFD, or another
      character that does not. */
  lemma {:induction false} Stuck(high: nat, units: seq<Unit>)
    requires ValidUnits(units, '"') && high != 0
    ensures var out := Out(high, units, '"');
      |out| > 0 && (out[0] == REPLACEMENT[0] ||
      (exists u :: 0x1_0000 <= u < 0x11_0000 && !IsHigh(u) && Encode4(u) <= out))
    decreases |units|
  {
    if units != [] {
      var u, e := units[0], Emit(high, units[0], '"');
      if u.Code? && IsLow(CodeOf(u)) {
        var v := Pair(high, CodeOf(u));
        PairRange(high, CodeOf(u));
        SurrogateBitsAbove(v);
        if IsHigh(v) {
          Stuck(v, units[1..]);
          assert Out(high, units, '"') == [] + Out(v, units[1..], '"') == Out(v, units[1..], '"');
        } else if !IsLow(v) {
          assert e == Emitted([] + Encode4(v), 0);
          assert Encode4(v) <= Out(high, units, '"');
        }
      } else {
        assert |e.bytes| > 0 && e.bytes[0] == REPLACEMENT[0];
      }
    }
  }

  lemma EncodeValue(u: nat)
    requires u < 0x11_0000
    ensures var s := Encode4(u);
      u == (s[0] as int - 0xf0) * 0x4_0000 + (s[1] as int - 0x80) * 0x1000 + (s[2] as int - 0x80) * 0x40 +
        (s[3] as int - 0x80)
  {
    var a := u / 0x40;
    var b := a / 0x40;
    assert a == b * 0x40 + a % 0x40 && u == a * 0x40 + u % 0x40 && b == b / 0x40 * 0x40 + b % 0x40;
  }

  lemma EncodeOne(u: nat, v: nat)
    requires u < 0x11_0000 && v < 0x11_0000 && Encode4(u) == Encode4(v)
    ensures u == v
  {
    EncodeValue(u);
    EncodeValue(v);
  }

  /** A mistaken pair is not decoded as what it means, whatever follows. */
  lemma MistakenFirst(units: seq<Unit>)
    requires ValidUnits(units, '"') && IsPair(units) && TakenForSurrogate(Joined(units))
    ensures !(Encode(Joined(units)) <= Out(0, units, '"'))
  {
    var rest, u := units[1..], Joined(units);
    var high := CodeOf(units[0]);
    EmitOne(units);
    JoinedIsPair(units);
    SurrogateBits(CodeOf(units[1]));
    SurrogateBitsAbove(u);
    assert Out(0, units, '"') == [] + Out(high, rest, '"') == Out(high, rest, '"');
    if IsHigh(u) {
      assert Emit(high, rest[0], '"') == Emitted([], u);
      var out := Out(u, rest[1..], '"');
      assert Out(high, rest, '"') == [] + out == out;
      Stuck(u, rest[1..]);
      if Encode4(u) <= out && out[0] != REPLACEMENT[0] {
        var v :| 0x1_0000 <= v < 0x11_0000 && !IsHigh(v) && Encode4(v) <= out;
        assert Encode4(u) == out[..4] == Encode4(v);
        EncodeOne(u, v);
      }
    } else {
      assert Emit(high, rest[0], '"') == Emitted([] + REPLACEMENT, 0);
      assert Out(high, rest, '"')[0] == REPLACEMENT[0];
    }
  }

  lemma SameHead(a: Bytes, x: Bytes, y: Bytes)
    ensures a + x == a + y <==> x == y
  {
    assert (a + x)[|a|..] == x && (a + y)[|a|..] == y;
  }

  /** A string is decoded as what its escapes mean exactly if no surrogate pair in it denotes a character
      above U+FFFF whose low 16 bits look like a surrogate. */
  lemma {:induction false} DecodedAsMeant(units: seq<Unit>)
    requires ValidUnits(units, '"')
    ensures Out(0, units, '"') == Meaning(units) <==> !Mistaken(units)
    decreases |units|
  {
    if units != [] {
      var rest := units[if IsPair(units) then 2 else 1..];
      if IsPair(units) && TakenForSurrogate(Joined(units)) {
        MistakenFirst(units);
      } else {
        OutFirst(units);
        DecodedAsMeant(rest);
        SameHead(Meant(units), Out(0, rest, '"'), Meaning(rest));
      }
    }
  }

  // ---------- whole literals ----------

  /** A text that is one string literal: it is parsed as a string, which is well-formed UTF-8 if the text
      is, and which is what its escapes mean unless one of its pairs is taken for a surrogate. */
  lemma StringParsed(units: seq<Unit>, config: Config)
    requires ValidUnits(units, '"') && config.maxDepth > 0 && Passes("\"" + Source(units) + "\"", config)
    ensures var text, s := "\"" + Source(units) + "\"", Out(0, units, '"');
      Parse(INIT, text, config) == Result.Value(Str(s), |text|, INIT) && (WellFormed(text) ==> WellFormed(s)) &&
      (s == Meaning(units) <==> !Mistaken(units))
  {
    var text := "\"" + Source(units) + "\"";
    LiteralRead(INIT, units, config);
    var m1 := Complete(INIT, Str(Out(0, units, '"')));
    assert text[..|text|] == text;
    FedStart(INIT, text, |text|, m1, config);
    DecodedAsMeant(units);
    if WellFormed(text) {
      ReadsParts(Clean, "\"", Source(units) + "\"");
      assert "\"" + (Source(units) + "\"") == text;
      ReadsFour(Clean, "\"");
      ReadsParts(Clean, Source(units), "\"");
      QuoteClean(Reads(Clean, Source(units)), Source(units));
      OutWellFormed(Clean, 0, units, '"');
    }
  }

  /** The escapes of U+1D800, the first character that is taken for a high surrogate. */
  const MISTAKEN := [Code("d836"), Code("dc00")]

  /** It is read as U+FFFD. */
  lemma MistakenRead(config: Config)
    requires config.maxDepth > 0
    ensures ValidUnits(MISTAKEN, '"') && Mistaken(MISTAKEN) && Meaning(MISTAKEN) == Encode(0x1_d800)
    ensures Parse(INIT, "\"\\ud836\\udc00\"", config) == Result.Value(Str(REPLACEMENT), 14, INIT)
  {
    var text := "\"\\ud836\\udc00\"";
    MistakenUnits();
    assert "\"" + Source(MISTAKEN) + "\"" == text;
    AsciiPasses(text, config);
    StringParsed(MISTAKEN, config);
  }

  lemma MistakenUnits()
    ensures ValidUnits(MISTAKEN, '"') && Mistaken(MISTAKEN) && Meaning(MISTAKEN) == Encode(0x1_d800)
    ensures Out(0, MISTAKEN, '"') == REPLACEMENT && Source(MISTAKEN) == "\\ud836\\udc00"
  {
    var us := MISTAKEN;
    assert HexValue('d') == 13 && HexValue('8') == 8 && HexValue('3') == 3 && HexValue('6') == 6;
    assert HexValue('c') == 12 && HexValue('0') == 0;
    assert CodeOf(us[0]) == 0xd836 && CodeOf(us[1]) == 0xdc00;
    assert IsPair(us) && Joined(us) == 0x1_d800;
    assert us[2..] == [] && us[1..] == [us[1]] && [us[1]][1..] == [];
    assert Meaning(us) == Meant(us) + Meaning(us[2..]);
    assert IsHigh(0xd836) && IsLow(0xdc00) && Pair(0xd836, 0xdc00) == 0x1_d800 && IsHigh(0x1_d800);
    assert Emit(0, us[0], '"') == Emitted([], 0xd836) && Emit(0xd836, us[1], '"') == Emitted([], 0x1_d800);
    assert Out(0x1_d800, [], '"') == REPLACEMENT;
    assert Out(0xd836, [us[1]], '"') == [] + Out(0x1_d800, [], '"');
    assert Source(us) == SourceOf(us[0]) + (SourceOf(us[1]) + Source([]));
  }

  lemma {:induction false} StaysMultibyte(st: Utf, s: Bytes)
    requires Multibyte(st)
    ensures Multibyte(Reads(st, s))
    decreases |s|
  {
    if s != [] { StaysMultibyte(Next(st, s[0]), s[1..]); }
  }

  lemma QuoteClean(st: Utf, s: Bytes)
    requires st == Reads(Clean, s) && Reads(st, "\"") == Clean
    ensures st == Clean
  {
    StaysMultibyte(Clean, s);
    ReadsFour(st, "\"");
  }

  // ---------- a high surrogate that outlives a reset ----------

  /** A text that stops after a high surrogate leaves it waiting, and json_tokener_reset does not clear it. */
  lemma SurrogateLeft(u: Unit, config: Config)
    requires ValidUnit(u, '"') && u.Code? && IsHigh(CodeOf(u)) && config.maxDepth > 0
    ensures var r := Parse(INIT, "\"" + SourceOf(u), config); r.More? && r.m.high == CodeOf(u)
  {
    var q, text := Quoting(false, '"'), "\"" + SourceOf(u);
    var m0 := INIT.(mode := Text(q, []));
    var m1 := InText(INIT, q, [], CodeOf(u));
    SurrogateBits(CodeOf(u));
    StartByte(INIT, '"', config);
    FedByte(INIT, '"', m0, config);
    UnitRead(INIT, q, [], 0, u, config);
    assert "" + "" == "";
    FedParts(INIT, "\"", SourceOf(u), m0, config);
    assert text[..|text|] == text;
    AsciiPasses(text, config);
    FedStart(INIT, text, |text|, m1, config);
  }

  /** What becomes of a literal when a surrogate was left: it waits for the first escape of four digits. */
  function LeftOut(high: nat, units: seq<Unit>): (e: Emitted)
    requires ValidUnits(units, '"')
    decreases |units|
  {
    if units == [] then Emitted([], high)
    else if units[0].Code? then
      var e := Emit(high, units[0], '"');
      Emitted(e.bytes + Out(e.high, units[1..], '"'), 0)
    else
      var e := LeftOut(high, units[1..]);
      Emitted(Emit(0, units[0], '"').bytes + e.bytes, e.high)
  }

  const QUOTED := Quoting(false, '"')

  /** The machine inside a string value. */
  function Reading(m: Machine, text: Bytes, high: nat): Machine { m.(mode := Text(QUOTED, text), high := high) }

  lemma PlainUnitRead(m: Machine, text: Bytes, high: nat, u: Unit, config: Config)
    requires ValidUnit(u, '"') && !u.Code?
    ensures Fed(Reading(m, text, high), SourceOf(u), config) == Some(Reading(m, text + Emit(0, u, '"').bytes, high))
  {
    var m0 := Reading(m, text, high);
    match u
    case Raw(c) =>
      assert Take(m0, c, config) == AtText(m0, c);
      assert [] + [c] == [c];
      FedByte(m0, c, Reading(m, text + [c], high), config);
    case Short(c) =>
      var m1, m2 := m0.(mode := Escaped(QUOTED, text)), Reading(m, text + SimpleEscape(c), high);
      assert Take(m0, '\\', config) == AtText(m0, '\\');
      FedByte(m0, '\\', m1, config);
      assert Take(m1, c, config) == AtEscaped(m1, c);
      FedByte(m1, c, m2, config);
      FedParts(m0, ['\\'], [c], m1, config);
      assert ['\\'] + [c] == ['\\', c] && [] + SimpleEscape(c) == SimpleEscape(c);
  }

  lemma CodeUnitRead(m: Machine, text: Bytes, high: nat, u: Unit, config: Config)
    requires ValidUnit(u, '"') && u.Code?
    ensures var e := Emit(high, u, '"');
      Fed(Reading(m, text, high), SourceOf(u), config) == Some(InText(m, QUOTED, text + e.bytes, e.high))
  {
    var m0 := Reading(m, text, high);
    var m1, m2 := m0.(mode := Escaped(QUOTED, text)), m0.(mode := Unicode(QUOTED, text, 0, 0));
    var e := Emit(high, u, '"');
    assert Take(m0, '\\', config) == AtText(m0, '\\');
    FedByte(m0, '\\', m1, config);
    assert Take(m1, 'u', config) == AtEscaped(m1, 'u');
    FedByte(m1, 'u', m2, config);
    CodeDigits(m, QUOTED, text, high, u, config);
    FedThree(m0, ['\\'], ['u'], u.digits, m1, m2, InText(m, QUOTED, text + e.bytes, e.high), config);
    assert ['\\'] + ['u'] + u.digits == SourceOf(u);
  }

  /** The end of the string. */
  function Ended(m: Machine, text: Bytes, high: nat): Machine {
    m.(current := Str(text), mode := Ws(Finish), high := high)
  }

  lemma EndRead(m: Machine, text: Bytes, high: nat, config: Config)
    ensures Fed(Reading(m, text, high), "\"", config) == Some(Ended(m, text, high))
  {
    var m0 := Reading(m, text, high);
    assert Take(m0, '"', config) == AtText(m0, '"');
    FedByte(m0, '"', Ended(m, text, high), config);
  }

  lemma {:induction false} LeftRead(m: Machine, text: Bytes, high: nat, units: seq<Unit>, config: Config)
    requires ValidUnits(units, '"')
    ensures var e := LeftOut(high, units);
      Fed(Reading(m, text, high), Source(units) + "\"", config) == Some(Ended(m, text + e.bytes, e.high))
    decreases |units|
  {
    if units == [] {
      EndRead(m, text, high, config);
      assert Source(units) + "\"" == "\"" && text + [] == text;
    } else {
      var u, rest := units[0], Source(units[1..]) + "\"";
      Regroup(SourceOf(u), Source(units[1..]), "\"");
      if u.Code? {
        var e := Emit(high, u, '"');
        var out := Out(e.high, units[1..], '"');
        CodeUnitRead(m, text, high, u, config);
        UnitsRead(m, QUOTED, text + e.bytes, e.high, units[1..], config);
        EndRead(m, text + e.bytes + out, 0, config);
        Regroup(text, e.bytes, out);
        FedParts(Reading(m, text, high), SourceOf(u), rest, InText(m, QUOTED, text + e.bytes, e.high), config);
      } else {
        var bytes := Emit(0, u, '"').bytes;
        PlainUnitRead(m, text, high, u, config);
        LeftRead(m, text + bytes, high, units[1..], config);
        Regroup(text, bytes, LeftOut(high, units[1..]).bytes);
        FedParts(Reading(m, text, high), SourceOf(u), rest, Reading(m, text + bytes, high), config);
      }
    }
  }

  /** A literal with a surrogate left, or without one. */
  lemma LeftParsed(high: nat, units: seq<Unit>, config: Config)
    requires ValidUnits(units, '"') && config.maxDepth > 0 && Passes("\"" + Source(units) + "\"", config)
    ensures var text, e := "\"" + Source(units) + "\"", LeftOut(high, units);
      Parse(INIT.(high := high), text, config) == Result.Value(Str(e.bytes), |text|, INIT.(high := e.high))
  {
    var m, text, e := INIT.(high := high), "\"" + Source(units) + "\"", LeftOut(high, units);
    StartByte(m, '"', config);
    FedByte(m, '"', Reading(m, [], high), config);
    LeftRead(m, [], high, units, config);
    assert [] + e.bytes == e.bytes;
    Regroup("\"", Source(units), "\"");
    FedParts(m, "\"", Source(units) + "\"", Reading(m, [], high), config);
    assert text[..|text|] == text;
    FedStart(m, text, |text|, Ended(m, e.bytes, e.high), config);
  }

  predicate StartsLow(units: seq<Unit>)
    requires ValidUnits(units, '"')
  {
    units != [] && units[0].Code? && IsLow(CodeOf(units[0]))
  }

  /** The surrogate that was left makes no difference to the text from the first escape on: there is none, or
      it is a low surrogate, and the pair is taken for a surrogate itself, which then finds no partner. */
  predicate NoDifference(high: nat, units: seq<Unit>)
    requires ValidUnits(units, '"')
  {
    high == 0 || units == [] ||
    (if units[0].Code? then
       StartsLow(units) &&
       (IsLow(Pair(high, CodeOf(units[0]))) || (IsHigh(Pair(high, CodeOf(units[0]))) && !StartsLow(units[1..])))
     else NoDifference(high, units[1..]))
  }

  /** A waiting surrogate can save at most the three bytes that stand for an unpaired one. */
  lemma {:induction false} AtMostThree(high: nat, units: seq<Unit>)
    requires ValidUnits(units, '"') && high != 0
    ensures |Out(high, units, '"')| <= 3 + |Out(0, units, '"')|
    decreases |units|
  {
    if StartsLow(units) {
      var v := Pair(high, CodeOf(units[0]));
      PairRange(high, CodeOf(units[0]));
      SurrogateBits(CodeOf(units[0]));
      LowOut(high, units);
      if IsHigh(v) { AtMostThree(v, units[1..]); }
    } else if units != [] {
      EmitNext(high, units);
    }
  }

  /** A low surrogate first, with and without a high one before it. */
  lemma LowOut(high: nat, units: seq<Unit>)
    requires ValidUnits(units, '"') && StartsLow(units) && high != 0
    ensures Out(0, units, '"') == REPLACEMENT + Out(0, units[1..], '"')
    ensures var v := Pair(high, CodeOf(units[0]));
      Out(high, units, '"') ==
        if IsHigh(v) then Out(v, units[1..], '"')
        else (if IsLow(v) then REPLACEMENT else Encode4(v)) + Out(0, units[1..], '"')
  {
    var u, v := units[0], Pair(high, CodeOf(units[0]));
    SurrogateBits(CodeOf(u));
    PairRange(high, CodeOf(u));
    assert Emit(0, u, '"') == Emitted([] + REPLACEMENT, 0) && [] + REPLACEMENT == REPLACEMENT;
    if IsHigh(v) {
      assert Emit(high, u, '"') == Emitted([], v);
      assert [] + Out(v, units[1..], '"') == Out(v, units[1..], '"');
    } else if IsLow(v) {
      assert Emit(high, u, '"') == Emitted([] + REPLACEMENT, 0);
    } else {
      assert Emit(high, u, '"') == Emitted([] + Encode4(v), 0) && [] + Encode4(v) == Encode4(v);
    }
  }

  /** A waiting surrogate before a low one always makes a difference. */
  lemma LowDiffers(high: nat, units: seq<Unit>)
    requires ValidUnits(units, '"') && StartsLow(units) && high != 0
    ensures Out(high, units, '"') != REPLACEMENT + Out(0, units, '"')
  {
    var v := Pair(high, CodeOf(units[0]));
    LowOut(high, units);
    PairRange(high, CodeOf(units[0]));
    if IsHigh(v) { AtMostThree(v, units[1..]); }
  }

  lemma FirstCodeExact(high: nat, units: seq<Unit>)
    requires ValidUnits(units, '"') && high != 0 && units != [] && units[0].Code?
    ensures Out(high, units, '"') == Out(0, units, '"') <==> NoDifference(high, units)
  {
    if StartsLow(units) {
      var v, rest := Pair(high, CodeOf(units[0])), units[1..];
      LowOut(high, units);
      PairRange(high, CodeOf(units[0]));
      if IsHigh(v) {
        if StartsLow(rest) { LowDiffers(v, rest); }
        else if rest != [] { EmitNext(v, rest); }
        else { assert REPLACEMENT + [] == REPLACEMENT; }
      }
    } else {
      EmitNext(high, units);
      assert |REPLACEMENT + Out(0, units, '"')| > |Out(0, units, '"')|;
    }
  }

  lemma {:induction false} LeftExact(high: nat, units: seq<Unit>)
    requires ValidUnits(units, '"')
    ensures LeftOut(high, units).bytes == LeftOut(0, units).bytes <==> NoDifference(high, units)
    decreases |units|
  {
    if units != [] && high != 0 {
      if units[0].Code? {
        FirstCodeExact(high, units);
      } else {
        LeftExact(high, units[1..]);
        SameHead(Emit(0, units[0], '"').bytes, LeftOut(high, units[1..]).bytes, LeftOut(0, units[1..]).bytes);
      }
    }
  }

  /** The next literal may then be read otherwise than by a new tokener: exactly when the surrogate makes a
      difference. If the literal has no escape of four digits, the surrogate goes on waiting. */
  lemma LeftSurrogateMatters(high: nat, units: seq<Unit>, config: Config)
    requires ValidUnits(units, '"') && config.maxDepth > 0 && Passes("\"" + Source(units) + "\"", config)
    ensures var text := "\"" + Source(units) + "\"";
      var r, r0 := Parse(INIT.(high := high), text, config), Parse(INIT, text, config);
      r.Value? && r0.Value? && (r.value == r0.value <==> NoDifference(high, units)) &&
      r.next == INIT.(high := if exists i :: 0 <= i < |units| && units[i].Code? then 0 else high)
  {
    LeftParsed(high, units, config);
    LeftParsed(0, units, config);
    LeftExact(high, units);
    LeftWaits(high, units);
  }

  lemma {:induction false} LeftWaits(high: nat, units: seq<Unit>)
    requires ValidUnits(units, '"')
    ensures LeftOut(high, units).high == if exists i :: 0 <= i < |units| && units[i].Code? then 0 else high
    decreases |units|
  {
    if units != [] && !units[0].Code? {
      LeftWaits(high, units[1..]);
      assert forall i :: 0 < i < |units| ==> units[i] == units[1..][i - 1];
    }
  }
}
