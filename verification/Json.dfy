/** JSON values, their equality, and their printed form. A C char is a Dafny char, a byte string a
    sequence of them. */
module Json {

  type Bytes = seq<char>

  const INT64_MIN := -0x8000_0000_0000_0000
  const INT64_MAX := 0x7fff_ffff_ffff_ffff
  const UINT64_MAX := 0xffff_ffff_ffff_ffff

  /** json_object. A double is kept as the text it was read from. */
  datatype Json =
    | Null
    | Bool(b: bool)
    | Int(i: int)
    | UInt(u: int)
    | Double(text: Bytes)
    | Infinity(negative: bool)
    | NaN
    | Str(s: Bytes)
    | Array(items: seq<Json>)
    | Object(members: seq<Member>)

  datatype Member = Member(key: Bytes, value: Json)

  /** Where a key stands, or the number of members. */
  function IndexOf(members: seq<Member>, key: Bytes): (i: nat)
    ensures i <= |members| && (i < |members| ==> members[i].key == key)
    ensures forall j :: 0 <= j < i ==> members[j].key != key
  {
    if members == [] || members[0].key == key then 0 else 1 + IndexOf(members[1..], key)
  }

  /** json_object_object_add: the value of a key that is there is replaced, another one is appended. */
  function Added(members: seq<Member>, key: Bytes, value: Json): seq<Member> {
    var i := IndexOf(members, key);
    if i < |members| then members[i := Member(key, value)] else members + [Member(key, value)]
  }

  ghost predicate UniqueKeys(members: seq<Member>) {
    forall i, j :: 0 <= i < j < |members| ==> members[i].key != members[j].key
  }

  // ---------- equality ----------

  /** json_object_equal: integers are compared by value, and objects without regard to order.
      Doubles are compared by their text only. */
  predicate Equal(a: Json, b: Json)
    decreases a, 1
  {
    match a
    case Null => b.Null?
    case Bool(x) => b.Bool? && x == b.b
    case Int(x) => (b.Int? && x == b.i) || (b.UInt? && x >= 0 && x == b.u)
    case UInt(x) => (b.UInt? && x == b.u) || (b.Int? && b.i >= 0 && x == b.i)
    case Double(x) => b.Double? && x == b.text
    case Infinity(n) => b.Infinity? && n == b.negative
    case NaN => false
    case Str(x) => b.Str? && x == b.s
    case Array(xs) => b.Array? && |xs| == |b.items| && forall i :: 0 <= i < |xs| ==> Equal(xs[i], b.items[i])
    case Object(ms) =>
      b.Object? && (forall i :: 0 <= i < |ms| ==> EqualIn(ms[i], b.members)) &&
      (forall i :: 0 <= i < |b.members| ==> IndexOf(ms, b.members[i].key) < |ms|)
  }

  /** The member has an equal in `members`. */
  predicate EqualIn(m: Member, members: seq<Member>)
    decreases m, 0
  {
    var i := IndexOf(members, m.key);
    i < |members| && Equal(m.value, members[i].value)
  }

  // ---------- well-formed values ----------

  /** Values as the library can hold them: integers in range, keys unique and free of NUL. Doubles are
      outside the round trip. */
  ghost predicate Valid(v: Json)
    decreases v
  {
    match v
    case Null | Bool(_) | Str(_) => true
    case Int(i) => INT64_MIN <= i <= INT64_MAX
    case UInt(u) => 0 <= u <= UINT64_MAX
    case Double(_) | Infinity(_) | NaN => false
    case Array(xs) => forall i :: 0 <= i < |xs| ==> Valid(xs[i])
    case Object(ms) =>
      UniqueKeys(ms) && (forall i :: 0 <= i < |ms| ==> '\0' !in ms[i].key && Valid(ms[i].value))
  }

  /** Levels of nesting below the value. */
  function Height(v: Json): nat
    decreases v, 1
  {
    match v
    case Array(xs) => MaxHeight(v, |xs|)
    case Object(ms) => MaxHeight(v, |ms|)
    case _ => 0
  }

  /** One more than the greatest height of the first `n` elements, or 0. */
  function MaxHeight(v: Json, n: nat): nat
    requires (v.Array? && n <= |v.items|) || (v.Object? && n <= |v.members|)
    decreases v, 0, n
  {
    if n == 0 then 0
    else
      var h := 1 + Height(if v.Array? then v.items[n - 1] else v.members[n - 1].value);
      var g := MaxHeight(v, n - 1);
      if h > g then h else g
  }

  lemma {:induction false} HeightOfPart(v: Json, n: nat, i: nat)
    requires (v.Array? && n <= |v.items|) || (v.Object? && n <= |v.members|)
    requires i < n
    ensures MaxHeight(v, n) >= 1 + Height(if v.Array? then v.items[i] else v.members[i].value)
  {
    if i < n - 1 { HeightOfPart(v, n - 1, i); }
  }

  // ---------- printing ----------

  /** JSON_C_TO_STRING flags; PLAIN is none of them. */
  datatype Flags = Flags(spaced: bool, pretty: bool, prettyTab: bool, noSlashEscape: bool)

  function HexDigit(n: nat): char
    requires n < 16
  {
    "0123456789abcdef"[n]
  }

  /** What json_escape_str makes of one byte. */
  function Escape(c: char, flags: Flags): Bytes {
    if c == '\U{0008}' then "\\b"
    else if c == '\n' then "\\n"
    else if c == '\r' then "\\r"
    else if c == '\t' then "\\t"
    else if c == '\U{000C}' then "\\f"
    else if c == '"' then "\\\""
    else if c == '\\' then "\\\\"
    else if c == '/' then if flags.noSlashEscape then "/" else "\\/"
    else if c < ' ' then "\\u00" + [HexDigit(c as int / 16), HexDigit(c as int % 16)]
    else [c]
  }

  function EscapeAll(s: Bytes, flags: Flags): Bytes {
    if s == [] then [] else Escape(s[0], flags) + EscapeAll(s[1..], flags)
  }

  function Digits(n: nat): (r: Bytes)
    ensures r != [] && forall i :: 0 <= i < |r| ==> '0' <= r[i] <= '9'
    ensures r[0] == '0' ==> n == 0 && |r| == 1
  {
    (if n < 10 then [] else Digits(n / 10)) + [(n % 10 + '0' as int) as char]
  }

  function Decimal(i: int): Bytes {
    if i < 0 then "-" + Digits(-i) else Digits(i)
  }

  function Repeat(c: char, n: nat): (r: Bytes)
    ensures |r| == n && forall i :: 0 <= i < n ==> r[i] == c
  {
    if n == 0 then [] else [c] + Repeat(c, n - 1)
  }

  function Indent(level: nat, flags: Flags): Bytes {
    if !flags.pretty then [] else if flags.prettyTab then Repeat('\t', level) else Repeat(' ', 2 * level)
  }

  function NewLine(flags: Flags): Bytes { if flags.pretty then "\n" else "" }

  /** A space is printed only on a single line. */
  function Space(flags: Flags): Bytes { if flags.spaced && !flags.pretty then " " else "" }

  function Colon(flags: Flags): Bytes { if flags.spaced then "\": " else "\":" }

  /** The end of an array or object after its elements, without the closing bracket. */
  function Tail(any: bool, level: nat, flags: Flags): Bytes {
    (if any then NewLine(flags) else []) + Indent(level, flags) + Space(flags)
  }

  /** What precedes an element. */
  function Lead(first: bool, level: nat, flags: Flags): Bytes {
    (if first then [] else "," + NewLine(flags)) + Space(flags) + Indent(level + 1, flags)
  }

  function Quoted(s: Bytes, flags: Flags): Bytes { "\"" + EscapeAll(s, flags) + "\"" }

  /** The printed form of a value at a level of indentation. */
  function Print(v: Json, level: nat, flags: Flags): Bytes
    decreases v, 1
  {
    match v
    case Null => "null"
    case Bool(b) => if b then "true" else "false"
    case Int(i) => Decimal(i)
    case UInt(u) => Decimal(u)
    case Double(text) => text
    case Infinity(negative) => if negative then "-Infinity" else "Infinity"
    case NaN => "NaN"
    case Str(s) => Quoted(s, flags)
    case Array(xs) => "[" + NewLine(flags) + Elements(v, |xs|, level, flags) + Tail(xs != [], level, flags) + "]"
    case Object(ms) => "{" + NewLine(flags) + Elements(v, |ms|, level, flags) + Tail(ms != [], level, flags) + "}"
  }

  /** The first `n` elements of an array or object, each with what precedes it. */
  function Elements(v: Json, n: nat, level: nat, flags: Flags): Bytes
    requires (v.Array? && n <= |v.items|) || (v.Object? && n <= |v.members|)
    decreases v, 0, n
  {
    if n == 0 then []
    else Elements(v, n - 1, level, flags) + Lead(n == 1, level, flags) + Element(v, n - 1, level, flags)
  }

  /** One element; a member of an object has its key before it. */
  function Element(v: Json, i: nat, level: nat, flags: Flags): Bytes
    requires (v.Array? && i < |v.items|) || (v.Object? && i < |v.members|)
    decreases v, 0, i
  {
    if v.Array? then Print(v.items[i], level + 1, flags)
    else "\"" + EscapeAll(v.members[i].key, flags) + Colon(flags) + Print(v.members[i].value, level + 1, flags)
  }
}
