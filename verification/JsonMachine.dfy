/** The JSON tokener as a machine that takes one byte at a time: what the parser is to do, whatever the
    chunks its text arrives in. */
module JsonMachine {
  import opened Json

  // ---------- configuration and errors ----------

  /** Flags, the size of the stack, and which number texts strtod accepts. */
  datatype Config = Config(strict: bool, allowTrailing: bool, validateUtf8: bool, maxDepth: nat,
    isDouble: Bytes -> bool)

  datatype Error =
    | Success | Continue | TooDeep | Eof | Unexpected | NotNull | NotBoolean | NotNumber | NotArray
    | NotKeyName | NotKeySep | NotValueSep | NotString | NotComment | NotUtf8

  // ---------- the machine ----------

  /** What is expected at the current level. */
  datatype Place =
    | Start | Finish
    | FirstItem | NextItem | ItemEnd                 // array, array_after_sep, array_sep
    | FirstField | NextField | FieldEnd(key: Bytes)  // object_field_start, .._after_sep, object_field_end
    | FieldValue(key: Bytes) | ValueEnd              // object_value, object_sep

  /** Which string is being read: a value, or the name of a field. */
  datatype Quoting = Quoting(isKey: bool, quote: char)

  datatype Mode =
    | Ws(place: Place)                               // skipping white space before a place
    | Exactly(place: Place)                          // at a place with a byte in hand
    | CommentStart(place: Place) | Comment(place: Place) | CommentEol(place: Place) | CommentEnd(place: Place)
    | InfWord(negative: bool, pos: nat)
    | NullWord(text: Bytes) | BoolWord(text: Bytes)
    | Number(text: Bytes, scan: Scan)
    | Text(q: Quoting, text: Bytes)
    | Escaped(q: Quoting, text: Bytes)
    | Unicode(q: Quoting, text: Bytes, digits: nat, ucs: nat)
    | NeedEscape(q: Quoting, text: Bytes)            // after a high surrogate: a backslash is wanted
    | NeedU(q: Quoting, text: Bytes)                 // and now the letter u

  /** Where the number loop stands: how many bytes it has read in this call, whether there was a point or an
      exponent, and which signs may come. */
  datatype Scan = Scan(run: nat, isDouble: bool, exponent: bool, minusOk: bool, plusOk: bool)

  /** A level below the top of the stack: the container, which waits for an element. */
  datatype Frame = ArrayFrame(items: seq<Json>) | ObjectFrame(members: seq<Member>, key: Bytes)

  /** `high` is the last high surrogate that was read, until it is used, or 0. Below the frames there may be
      `lost` more levels that an earlier success has reset without leaving them. */
  datatype Machine = Machine(frames: seq<Frame>, current: Json, mode: Mode, high: nat, lost: nat)

  const INIT := Machine([], Null, Ws(Start), 0, 0)

  /** tok->depth. */
  function Depth(m: Machine): nat { m.lost + |m.frames| }

  /** A byte was taken; or the value is complete and the byte is not part of it; or there is an error. */
  datatype Outcome = Go(m: Machine) | Done(m: Machine) | Fail(m: Machine, e: Error)

  // ---------- bytes ----------

  predicate IsSpace(c: char) { c == ' ' || '\t' <= c <= '\r' }

  predicate IsDigit(c: char) { '0' <= c <= '9' }

  function ToLower(c: char): char {
    if 'A' <= c <= 'Z' then (c as int + 32) as char else c
  }

  /** strncmp or strncasecmp of the first `n` bytes says they are equal. */
  predicate Matches(word: Bytes, text: Bytes, n: nat, ignoreCase: bool)
    requires n <= |word| && n <= |text|
  {
    forall i :: 0 <= i < n ==> text[i] == word[i] || (ignoreCase && ToLower(text[i]) == ToLower(word[i]))
  }

  predicate WordPrefix(word: Bytes, text: Bytes, strict: bool) {
    Matches(word, text, if |text| < |word| then |text| else |word|, !strict)
  }

  predicate IsHex(c: char) { IsDigit(c) || 'a' <= c <= 'f' || 'A' <= c <= 'F' }

  function HexValue(c: char): (r: nat)
    requires IsHex(c)
    ensures r < 16
  {
    if IsDigit(c) then c as int - '0' as int
    else if 'a' <= c <= 'f' then c as int - 'a' as int + 10
    else c as int - 'A' as int + 10
  }

  // ---------- unicode escapes ----------

  /** IS_HIGH_SURROGATE and IS_LOW_SURROGATE look at the bits 10 to 15 only. */
  predicate IsHigh(u: nat) { u / 0x400 % 0x40 == 0x36 }
  predicate IsLow(u: nat) { u / 0x400 % 0x40 == 0x37 }

  function Pair(high: nat, low: nat): nat { high % 0x400 * 0x400 + low % 0x400 + 0x1_0000 }

  const REPLACEMENT: Bytes := [0xef as char, 0xbf as char, 0xbd as char]

  function Byte(n: nat): char
    requires n < 0x100
  {
    n as char
  }

  function Encode2(u: nat): Bytes
    requires u < 0x800
  {
    [Byte(0xc0 + u / 0x40), Byte(0x80 + u % 0x40)]
  }

  function Encode3(u: nat): Bytes
    requires u < 0x1_0000
  {
    [Byte(0xe0 + u / 0x1000), Byte(0x80 + u / 0x40 % 0x40), Byte(0x80 + u % 0x40)]
  }

  function Encode4(u: nat): Bytes
    requires u < 0x20_0000
  {
    [Byte(0xf0 + u / 0x4_0000), Byte(0x80 + u / 0x1000 % 0x40), Byte(0x80 + u / 0x40 % 0x40), Byte(0x80 + u % 0x40)]
  }

  /** The bytes of a decoded escape, or None for a high surrogate, which waits for a low one. */
  datatype Decoded = Bytes(bytes: seq<char>) | Waits

  function Decode(u: nat): Decoded {
    if u < 0x80 then Decoded.Bytes([Byte(u)])
    else if u < 0x800 then Decoded.Bytes(Encode2(u))
    else if IsHigh(u) then Waits
    else if IsLow(u) then Decoded.Bytes(REPLACEMENT)
    else if u < 0x1_0000 then Decoded.Bytes(Encode3(u))
    else if u < 0x11_0000 then Decoded.Bytes(Encode4(u))
    else Decoded.Bytes(REPLACEMENT)
  }

  /** All four digits of an escape are there. */
  function EndEscape(m: Machine, q: Quoting, text: Bytes, ucs: nat): Machine {
    var paired := m.high != 0 && IsLow(ucs);
    var text1 := if m.high != 0 && !paired then text + REPLACEMENT else text;
    var u := if paired then Pair(m.high, ucs) else ucs;
    match Decode(u)
    case Bytes(bytes) => m.(mode := Text(q, text1 + bytes), high := 0)
    case Waits => m.(mode := NeedEscape(q, text1), high := u)
  }

  /** A digit with `n` more after it. */
  function Shifted16(x: nat, n: nat): nat { if n == 0 then x else 16 * Shifted16(x, n - 1) }

  function SimpleEscape(c: char): Bytes {
    if c == 'b' then ['\U{0008}'] else if c == 'n' then "\n" else if c == 'r' then "\r"
    else if c == 't' then "\t" else if c == 'f' then ['\U{000C}'] else [c]
  }

  // ---------- numbers ----------

  /** May the byte belong to the number? */
  predicate Accepts(n: Scan, c: char) {
    IsDigit(c) || (!n.exponent && (c == 'e' || c == 'E')) || (n.minusOk && c == '-') || (n.plusOk && c == '+') ||
    (!n.isDouble && c == '.')
  }

  function Scanned(n: Scan, c: char): Scan {
    var n1 := n.(run := n.run + 1, minusOk := false, plusOk := false);
    if c == '.' then n1.(isDouble := true, minusOk := true, plusOk := true)
    else if c == 'e' || c == 'E' then n1.(exponent := true, isDouble := true, minusOk := true, plusOk := true)
    else n1
  }

  /** What may follow a number inside an array or object. */
  predicate EndsNumber(c: char) {
    c == ',' || c == ']' || c == '}' || c == '/' || c == 'I' || c == 'i' || IsSpace(c)
  }

  predicate HasE(text: Bytes) { 'e' in text || 'E' in text }

  /** Where the exponent starts: at the first e, or else at the first E. */
  predicate ExponentLast(text: Bytes) {
    text != [] &&
    (if 'e' in text then First(text, 'e') == |text| - 1 else 'E' in text && First(text, 'E') == |text| - 1)
  }

  function First(text: Bytes, c: char): nat {
    if text == [] || text[0] == c then 0 else 1 + First(text[1..], c)
  }

  /** The scan as a call of the parser starts it anew from the text saved so far. */
  function ScanFrom(text: Bytes, isDouble: bool): Scan {
    if HasE(text) then Scan(0, isDouble, true, ExponentLast(text), ExponentLast(text))
      else Scan(0, isDouble, false, true, false)
  }

  function NumberFrom(text: Bytes, isDouble: bool): Mode { Number(text, ScanFrom(text, isDouble)) }

  function Trimmed(text: Bytes): (r: Bytes)
    ensures |r| <= |text|
  {
    if |text| > 1 && text[|text| - 1] in ['e', 'E', '-', '+'] then Trimmed(text[..|text| - 1]) else text
  }

  function NumberOf(digits: Bytes): nat
    requires forall i :: 0 <= i < |digits| ==> IsDigit(digits[i])
  {
    if digits == [] then 0
    else
      assert IsDigit(digits[|digits| - 1]);
      10 * NumberOf(digits[..|digits| - 1]) + (digits[|digits| - 1] as int - '0' as int)
  }

  /** What strtoll and strtoull read: the digits before anything else. */
  function LeadingDigits(text: Bytes): (r: Bytes)
    ensures forall i :: 0 <= i < |r| ==> IsDigit(r[i])
  {
    if text == [] || !IsDigit(text[0]) then [] else [text[0]] + LeadingDigits(text[1..])
  }

  function Min(a: int, b: int): int { if a < b then a else b }

  datatype Parsed = Parsed(value: Json) | NoNumber

  /** The value of a complete number; strtoll and strtoull saturate. */
  function ParseTrimmed(text: Bytes, isDouble: bool, config: Config): Parsed {
    if isDouble then if config.isDouble(text) then Parsed(Double(text)) else NoNumber
    else if text == [] then NoNumber
    else if text[0] == '-' then
      var digits := LeadingDigits(text[1..]);
      if digits == [] then NoNumber else Parsed(Int(-Min(NumberOf(digits), -INT64_MIN)))
    else
      var digits := LeadingDigits(text);
      var n := Min(NumberOf(digits), UINT64_MAX);
      if digits == [] || (n != 0 && text[0] == '0' && config.strict) then NoNumber
      else Parsed(if n <= INT64_MAX then Int(n) else UInt(n))
  }

  /** Doubles are trimmed first unless the mode is strict. */
  function ParseNumber(text: Bytes, isDouble: bool, config: Config): Parsed {
    ParseTrimmed(if isDouble && !config.strict then Trimmed(text) else text, isDouble, config)
  }

  // ---------- taking a byte ----------

  /** What strdup copies: the text up to its first NUL. */
  function CString(text: Bytes): Bytes {
    if text == [] || text[0] == '\0' then [] else [text[0]] + CString(text[1..])
  }

  /** How often a byte may be looked at again: each time the machine is in a mode of a lower rank. */
  function PlaceRank(p: Place): nat {
    if p.FirstItem? || p.NextItem? || p.FieldValue? then 9 else if p.Start? then 7 else if p.Finish? then 3 else 0
  }

  function ModeRank(mode: Mode): nat {
    match mode
    case Ws(p) => 1 + PlaceRank(p)
    case Exactly(p) => PlaceRank(p)
    case Number(_, _) => 6
    case InfWord(_, _) => 5
    case NullWord(_) => 5
    case BoolWord(_) => 5
    case NeedEscape(_, _) => 1
    case NeedU(_, _) => 1
    case _ => 0
  }

  /** What the machine does with a byte. Where the program jumps to redo_char, the byte is taken again in
      another mode. */
  function Take(m: Machine, c: char, config: Config): Outcome
    decreases m.lost, ModeRank(m.mode), 1
  {
    match m.mode
    case Ws(p) =>
      if IsSpace(c) then Go(m)
      else if c == '/' && !config.strict then Go(m.(mode := CommentStart(p)))
      else Take(m.(mode := Exactly(p)), c, config)
    case Exactly(p) => AtPlace(m, p, c, config)
    case CommentStart(p) =>
      if c == '*' then Go(m.(mode := Comment(p))) else if c == '/' then Go(m.(mode := CommentEol(p)))
        else Fail(m, NotComment)
    case Comment(p) => Go(m.(mode := if c == '*' then CommentEnd(p) else Comment(p)))
    case CommentEol(p) => Go(m.(mode := if c == '\n' then Ws(p) else CommentEol(p)))
    case CommentEnd(p) => Go(m.(mode := if c == '/' then Ws(p) else Comment(p)))
    case InfWord(_, _) => AtInf(m, c, config)
    case NullWord(_) => AtNull(m, c, config)
    case BoolWord(_) => AtBool(m, c, config)
    case Number(_, _) => AtNumber(m, c, config)
    case Text(_, _) => AtText(m, c)
    case Escaped(_, _) => AtEscaped(m, c)
    case Unicode(_, _, _, _) => AtUnicode(m, c)
    case NeedEscape(q, text) =>
      if c == '\\' then Go(m.(mode := NeedU(q, text)))
      else Take(m.(mode := Text(q, text + REPLACEMENT), high := 0), c, config)
    case NeedU(q, text) =>
      if c == 'u' then Go(m.(mode := Unicode(q, text, 0, 0)))
      else Take(m.(mode := Escaped(q, text + REPLACEMENT), high := 0), c, config)
  }

  /** The value is complete; the byte in hand has still to be looked at. */
  function Complete(m: Machine, v: Json): Machine { m.(current := v, mode := Ws(Finish)) }

  function ItemsOf(v: Json): seq<Json> { if v.Array? then v.items else [] }
  function MembersOf(v: Json): seq<Member> { if v.Object? then v.members else [] }

  /** The value on top goes into the container below. A level that was reset has none: the value is dropped,
      and another one may start there. */
  function Popped(m: Machine): Machine
    requires Depth(m) > 0
  {
    if m.frames == [] then Machine([], Null, Ws(Start), m.high, m.lost - 1)
    else
      var rest := m.frames[..|m.frames| - 1];
      match m.frames[|m.frames| - 1]
      case ArrayFrame(items) => Machine(rest, Array(items + [m.current]), Ws(ItemEnd), m.high, m.lost)
      case ObjectFrame(members, key) =>
        Machine(rest, Object(Added(members, key, m.current)), Ws(ValueEnd), m.high, m.lost)
  }

  /** A new level for an element. */
  function Pushed(m: Machine, f: Frame): Machine {
    Machine(m.frames + [f], Null, Ws(Start), m.high, m.lost)
  }

  function AtPlace(m: Machine, p: Place, c: char, config: Config): Outcome
    requires m.mode == Exactly(p)
    decreases m.lost, ModeRank(m.mode), 0
  {
    match p
    case Start => AtStart(m, c, config)
    case Finish => if Depth(m) == 0 then Done(m) else Take(Popped(m), c, config)
    case FirstItem => if c == ']' then Go(m.(mode := Ws(Finish))) else AtItem(m, p, c, config)
    case NextItem =>
      if c == ']' then if config.strict then Fail(m, Unexpected) else Go(m.(mode := Ws(Finish)))
      else AtItem(m, p, c, config)
    case ItemEnd =>
      if c == ']' then Go(m.(mode := Ws(Finish)))
      else if c == ',' then Go(m.(mode := Ws(NextItem)))
      else Fail(m, NotArray)
    case FirstField => AtField(m, c, config)
    case NextField => AtField(m, c, config)
    case FieldEnd(key) => if c == ':' then Go(m.(mode := Ws(FieldValue(key)))) else Fail(m, NotKeySep)
    case FieldValue(key) =>
      if Depth(m) + 1 >= config.maxDepth then Fail(m, TooDeep)
      else Take(Pushed(m, ObjectFrame(MembersOf(m.current), key)), c, config)
    case ValueEnd =>
      if c == '}' then Go(m.(mode := Ws(Finish)))
      else if c == ',' then Go(m.(mode := Ws(NextField)))
      else Fail(m, NotValueSep)
  }

  function AtItem(m: Machine, p: Place, c: char, config: Config): Outcome
    requires m.mode == Exactly(p) && (p.FirstItem? || p.NextItem?)
    decreases m.lost, ModeRank(m.mode), 0, 0
  {
    if Depth(m) + 1 >= config.maxDepth then Fail(m, TooDeep)
    else Take(Pushed(m, ArrayFrame(ItemsOf(m.current))), c, config)
  }

  function AtField(m: Machine, c: char, config: Config): Outcome {
    if c == '}' then
      if m.mode == Exactly(NextField) && config.strict then Fail(m, Unexpected) else Go(m.(mode := Ws(Finish)))
    else if c == '"' || c == '\'' then Go(m.(mode := Text(Quoting(true, c), [])))
    else Fail(m, NotKeyName)
  }

  function AtStart(m: Machine, c: char, config: Config): Outcome
    requires m.mode == Exactly(Start)
    decreases m.lost, ModeRank(m.mode), 0, 0
  {
    if c == '{' then Go(m.(current := Object([]), mode := Ws(FirstField)))
    else if c == '[' then Go(m.(current := Array([]), mode := Ws(FirstItem)))
    else if c == 'I' || c == 'i' then Take(m.(mode := InfWord(false, 0)), c, config)
    else if c == 'N' || c == 'n' then Take(m.(mode := NullWord([])), c, config)
    else if c == '"' || (c == '\'' && !config.strict) then Go(m.(mode := Text(Quoting(false, c), [])))
    else if c == 'T' || c == 't' || c == 'F' || c == 'f' then Take(m.(mode := BoolWord([])), c, config)
    else if IsDigit(c) || c == '-' then Take(m.(mode := NumberFrom([], false)), c, config)
    else Fail(m, Unexpected)
  }

  const INFINITY := "Infinity"
  const INFINITY_LOWER := "infinity"

  function AtInf(m: Machine, c: char, config: Config): Outcome
    requires m.mode.InfWord?
    decreases m.lost, ModeRank(m.mode), 0
  {
    var pos := m.mode.pos;
    if pos >= 8 then Take(Complete(m, Infinity(m.mode.negative)), c, config)
    else if (if config.strict then c == INFINITY[pos] else ToLower(c) == INFINITY_LOWER[pos]) then
      Go(m.(mode := m.mode.(pos := pos + 1)))
    else Fail(m, Unexpected)
  }

  function AtNull(m: Machine, c: char, config: Config): Outcome
    requires m.mode.NullWord?
    decreases m.lost, ModeRank(m.mode), 0
  {
    var text := m.mode.text + [c];
    if WordPrefix("null", text, config.strict) then
      if |text| > 4 then Take(Complete(m, Null), c, config) else Go(m.(mode := NullWord(text)))
    else if WordPrefix("NaN", text, config.strict) then
      if |text| > 3 then Take(Complete(m, NaN), c, config) else Go(m.(mode := NullWord(text)))
    else Fail(m, NotNull)
  }

  function AtBool(m: Machine, c: char, config: Config): Outcome
    requires m.mode.BoolWord?
    decreases m.lost, ModeRank(m.mode), 0
  {
    var text := m.mode.text + [c];
    if WordPrefix("true", text, config.strict) then
      if |text| > 4 then Take(Complete(m, Bool(true)), c, config) else Go(m.(mode := BoolWord(text)))
    else if WordPrefix("false", text, config.strict) then
      if |text| > 5 then Take(Complete(m, Bool(false)), c, config) else Go(m.(mode := BoolWord(text)))
    else Fail(m, NotBoolean)
  }

  function AtNumber(m: Machine, c: char, config: Config): Outcome
    requires m.mode.Number?
    decreases m.lost, ModeRank(m.mode), 0
  {
    var text, n := m.mode.text, m.mode.scan;
    if Accepts(n, c) then Go(m.(mode := Number(text + [c], Scanned(n, c))))
    else if Depth(m) > 0 && !EndsNumber(c) then Fail(m, NotNumber)
    else if text != [] && text[0] == '-' && n.run <= 1 && (c == 'i' || c == 'I') then
      Take(m.(mode := InfWord(true, 0)), c, config)
    else
      match ParseNumber(text, n.isDouble, config)
      case Parsed(v) => Take(Complete(m, v), c, config)
      case NoNumber => Fail(m, NotNumber)
  }

  function AtText(m: Machine, c: char): Outcome
    requires m.mode.Text?
  {
    var q, text := m.mode.q, m.mode.text;
    if c == q.quote then
      if q.isKey then Go(m.(mode := Ws(FieldEnd(CString(text)))))
      else Go(m.(current := Str(text), mode := Ws(Finish)))
    else if c == '\\' then Go(m.(mode := Escaped(q, text)))
    else Go(m.(mode := Text(q, text + [c])))
  }

  function AtEscaped(m: Machine, c: char): Outcome
    requires m.mode.Escaped?
  {
    var q, text := m.mode.q, m.mode.text;
    if c == 'u' then Go(m.(mode := Unicode(q, text, 0, 0)))
    else if c in ['"', '\\', '/', 'b', 'n', 'r', 't', 'f'] then Go(m.(mode := Text(q, text + SimpleEscape(c))))
    else Fail(m, NotString)
  }

  function AtUnicode(m: Machine, c: char): Outcome
    requires m.mode.Unicode?
  {
    var u := m.mode;
    if !IsHex(c) || u.digits >= 4 then Fail(m, NotString)
    else
      var ucs := u.ucs + Shifted16(HexValue(c), 3 - u.digits);
      if u.digits == 3 then Go(EndEscape(m, u.q, u.text, ucs))
      else Go(m.(mode := u.(digits := u.digits + 1, ucs := ucs)))
  }

  // ---------- a whole call ----------

  /** What one call gives: nothing yet, a value and what the next call starts with, or an error; and how
      many bytes it looked at. */
  datatype Result = More(m: Machine) | Value(value: Json, taken: nat, next: Machine) | Error(e: Error, taken: nat)

  /** After a success every level is reset, but the depth stays. */
  function Restarted(m: Machine): Machine { Machine([], Null, Ws(Start), m.high, Depth(m)) }

  /** json_tokener_validate_utf8: `left` continuation bytes are to come. None stands for a bad byte. */
  datatype Utf8 = Left(n: nat) | BadByte

  function Validate(c: char, left: nat): Utf8 {
    var b := c as int;
    if left == 0 then
      if b < 0x80 then Left(0)
      else if b / 0x20 == 6 then Left(1)
      else if b / 0x10 == 14 then Left(2)
      else if b / 8 == 30 then Left(3)
      else BadByte
    else if b / 0x40 == 2 then Left(left - 1) else BadByte
  }

  /** Nothing but white space and comments may follow: the state or the saved state is finish. */
  predicate Settled(mode: Mode) {
    mode == Ws(Finish) || mode == Exactly(Finish) || mode == CommentStart(Finish) || mode == Comment(Finish) ||
    mode == CommentEol(Finish) || mode == CommentEnd(Finish)
  }

  /** What the next call starts with: of a number, only its text has been kept. */
  function Resumed(m: Machine): Machine {
    if m.mode.Number? then m.(mode := NumberFrom(m.mode.text, m.mode.scan.isDouble)) else m
  }

  /** The end of a call: `e` is the error so far, `nul` says that the last byte was NUL. */
  function Conclude(m: Machine, e: Error, left: nat, nul: bool, taken: nat, config: Config): Result {
    var e1 := if config.validateUtf8 && left != 0 then NotUtf8 else e;
    var trailing := !nul && m.mode == Exactly(Finish) && Depth(m) == 0;
    var e2 := if trailing && config.strict && !config.allowTrailing then Unexpected else e1;
    var e3 := if nul && !Settled(m.mode) then Eof else e2;
    if e3 == Success then Result.Value(m.current, taken, Restarted(m))
    else if e3 == Continue then More(Resumed(m))
    else Result.Error(e3, taken)
  }

  /** From byte `i` on, which has been looked at already. */
  function AfterPeek(m: Machine, s: Bytes, i: nat, left: nat, config: Config): Result
    requires i < |s|
    decreases |s| - i, 0
  {
    match Take(m, s[i], config)
    case Go(m1) => AfterGo(m1, s, i, left, config)
    case Done(m1) => Conclude(m1, Success, left, s[i] == '\0', i, config)
    case Fail(m1, e) => Conclude(m1, e, left, s[i] == '\0', i, config)
  }

  /** Byte `i` has been taken. */
  function AfterGo(m: Machine, s: Bytes, i: nat, left: nat, config: Config): Result
    requires i < |s|
    decreases |s| - i - 1, 2
  {
    if s[i] == '\0' then Conclude(m, Success, left, true, i + 1, config) else ParseFrom(m, s, i + 1, left, config)
  }

  /** json_tokener_parse_ex from byte `i` on. */
  function ParseFrom(m: Machine, s: Bytes, i: nat, left: nat, config: Config): Result
    requires i <= |s|
    decreases |s| - i, 1
  {
    if i == |s| then
      Conclude(m, if Depth(m) == 0 && m.mode == Ws(Finish) then Success else Continue, left, false, i, config)
    else if config.validateUtf8 then
      match Validate(s[i], left)
      case BadByte => Conclude(m, NotUtf8, left, false, i, config)
      case Left(n) => AfterPeek(m, s, i, n, config)
    else AfterPeek(m, s, i, left, config)
  }

  function Parse(m: Machine, s: Bytes, config: Config): Result { ParseFrom(m, s, 0, 0, config) }
}
