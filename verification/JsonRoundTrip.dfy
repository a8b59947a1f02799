/** Parsing the printed form of a value gives an equal value back, for every combination of printing
    flags. */
module JsonRoundTrip {
  import opened Options
  import opened Sequences
  import opened Json
  import opened JsonFeed
  import opened JsonMachine

  // ---------- what may follow ----------

  /** What may follow a value. */
  predicate Follows(c: char, m: Machine) {
    c in {',', ']', '}', ' ', '\t', '\n', '\r'} || (c == '\0' && Depth(m) == 0)
  }

  /** Whatever follows, `m1` does with it what `m2` does. */
  ghost predicate Like(m1: Machine, m2: Machine, config: Config) {
    forall c :: Follows(c, m2) ==> Take(m1, c, config) == Take(m2, c, config)
  }

  lemma {:induction false} SpacesSkipped(m: Machine, text: Bytes, config: Config)
    requires m.mode.Ws? && forall i :: 0 <= i < |text| ==> text[i] == ' ' || text[i] == '\t' || text[i] == '\n'
    ensures Fed(m, text, config) == Some(m)
    decreases |text|
  {
    if text != [] { SpacesSkipped(m, text[1..], config); }
  }

  // ---------- strings ----------

  /** One printed byte of a string is read as the byte itself. */
  lemma EscapeRead(m: Machine, c: char, flags: Flags, config: Config)
    requires m.mode.Text? && m.mode.q.quote == '"' && m.high == 0
    ensures Fed(m, Escape(c, flags), config) == Some(m.(mode := Text(m.mode.q, m.mode.text + [c])))
  {
    var q, text := m.mode.q, m.mode.text;
    var esc := m.(mode := Escaped(q, text));
    if |Escape(c, flags)| == 1 {
      FedByte(m, c, m.(mode := Text(q, text + [c])), config);
    } else if |Escape(c, flags)| == 2 {
      var d := Escape(c, flags)[1];
      FedByte(m, '\\', esc, config);
      assert Take(esc, d, config) == AtEscaped(esc, d);
      FedByte(esc, d, m.(mode := Text(q, text + [c])), config);
      FedParts(m, ['\\'], [d], esc, config);
      assert Escape(c, flags) == ['\\'] + [d];
    } else {
      ControlRead(m, c, config);
      assert Escape(c, flags) == "\\u00" + [HexDigit(c as int / 16), HexDigit(c as int % 16)];
    }
  }

  lemma HexRead(n: nat)
    requires n < 16
    ensures IsHex(HexDigit(n)) && HexValue(HexDigit(n)) == n && HexDigit(n) != '\0'
  {
  }

  /** A control character, written as a unicode escape. */
  lemma ControlRead(m: Machine, c: char, config: Config)
    requires m.mode.Text? && m.mode.q.quote == '"' && m.high == 0 && c < ' '
    ensures Fed(m, "\\u00" + [HexDigit(c as int / 16), HexDigit(c as int % 16)], config) ==
      Some(m.(mode := Text(m.mode.q, m.mode.text + [c])))
  {
    var q, text, n := m.mode.q, m.mode.text, c as int;
    var h, l := HexDigit(n / 16), HexDigit(n % 16);
    HexRead(n / 16);
    HexRead(n % 16);
    var m0 := m.(mode := Escaped(q, text));
    var m1 := m.(mode := Unicode(q, text, 0, 0));
    var m2 := m.(mode := Unicode(q, text, 1, 0));
    var m3 := m.(mode := Unicode(q, text, 2, 0));
    var m4 := m.(mode := Unicode(q, text, 3, n / 16 * 16));
    var m5 := m.(mode := Text(q, text + [c]));
    assert forall x: nat :: Shifted16(x, 1) == 16 * x by { assert forall x: nat :: Shifted16(x, 0) == x; }
    FedByte(m, '\\', m0, config);
    assert Take(m0, 'u', config) == AtEscaped(m0, 'u');
    FedByte(m0, 'u', m1, config);
    assert Take(m1, '0', config) == AtUnicode(m1, '0');
    FedByte(m1, '0', m2, config);
    assert Take(m2, '0', config) == AtUnicode(m2, '0');
    FedByte(m2, '0', m3, config);
    assert Take(m3, h, config) == AtUnicode(m3, h);
    FedByte(m3, h, m4, config);
    assert Take(m4, l, config) == AtUnicode(m4, l) == Go(EndEscape(m4, q, text, n));
    FedByte(m4, l, m5, config);
    FedParts(m, ['\\'], ['u'], m0, config);
    FedParts(m, ['\\'] + ['u'], ['0'], m1, config);
    FedParts(m, ['\\'] + ['u'] + ['0'], ['0'], m2, config);
    FedParts(m, ['\\'] + ['u'] + ['0'] + ['0'], [h], m3, config);
    FedParts(m, ['\\'] + ['u'] + ['0'] + ['0'] + [h], [l], m4, config);
    assert "\\u00" + [h, l] == ['\\'] + ['u'] + ['0'] + ['0'] + [h] + [l];
  }

  lemma {:induction false} TextRead(m: Machine, s: Bytes, flags: Flags, config: Config)
    requires m.mode.Text? && m.mode.q.quote == '"' && m.high == 0
    ensures Fed(m, EscapeAll(s, flags), config) == Some(m.(mode := Text(m.mode.q, m.mode.text + s)))
    decreases |s|
  {
    if s == [] {
      assert m.mode.text + s == m.mode.text;
    } else {
      var m1 := m.(mode := Text(m.mode.q, m.mode.text + [s[0]]));
      EscapeRead(m, s[0], flags, config);
      TextRead(m1, s[1..], flags, config);
      FedParts(m, Escape(s[0], flags), EscapeAll(s[1..], flags), m1, config);
      Regroup(m.mode.text, [s[0]], s[1..]);
      assert [s[0]] + s[1..] == s;
    }
  }

  /** A string between its quotes. */
  lemma QuotedRead(m: Machine, s: Bytes, flags: Flags, config: Config)
    requires m.mode == Ws(Start) && m.high == 0
    ensures Fed(m, Quoted(s, flags), config) == Some(Complete(m, Str(s)))
  {
    var q := Quoting(false, '"');
    var m0 := m.(mode := Text(q, []));
    var m1 := m.(mode := Text(q, s));
    StartByte(m, '"', config);
    FedByte(m, '"', m0, config);
    TextRead(m0, s, flags, config);
    assert [] + s == s;
    assert Take(m1, '"', config) == AtText(m1, '"');
    FedByte(m1, '"', Complete(m, Str(s)), config);
    FedParts(m, "\"", EscapeAll(s, flags), m0, config);
    FedParts(m, "\"" + EscapeAll(s, flags), "\"", m1, config);
  }

  /** The first byte of a value is looked at as such. */
  lemma StartByte(m: Machine, c: char, config: Config)
    requires m.mode == Ws(Start) && !IsSpace(c) && c != '/'
    ensures Take(m, c, config) == AtStart(m.(mode := Exactly(Start)), c, config)
  {
    var at := m.(mode := Exactly(Start));
    assert Take(m, c, config) == Take(at, c, config);
    assert Take(at, c, config) == AtPlace(at, Start, c, config);
  }

  // ---------- words and numbers ----------

  lemma NullRead(m: Machine, config: Config) returns (m1: Machine)
    requires m.mode == Ws(Start)
    ensures Fed(m, "null", config) == Some(m1) && Like(m1, Complete(m, Null), config) && Depth(m1) == Depth(m)
  {
    m1 := m.(mode := NullWord("null"));
    var w0, w1, w2, w3 := m.(mode := NullWord([])), m.(mode := NullWord("n")), m.(mode := NullWord("nu")),
      m.(mode := NullWord("nul"));
    StartByte(m, 'n', config);
    assert [] + ['n'] == "n" && "n" + ['u'] == "nu" && "nu" + ['l'] == "nul" && "nul" + ['l'] == "null";
    assert Take(w0, 'n', config) == AtNull(w0, 'n', config);
    FedByte(m, 'n', w1, config);
    assert Take(w1, 'u', config) == AtNull(w1, 'u', config);
    FedByte(w1, 'u', w2, config);
    assert Take(w2, 'l', config) == AtNull(w2, 'l', config);
    FedByte(w2, 'l', w3, config);
    assert Take(w3, 'l', config) == AtNull(w3, 'l', config);
    FedByte(w3, 'l', m1, config);
    FedParts(m, "n", "u", w1, config);
    FedParts(m, "nu", "l", w2, config);
    FedParts(m, "nul", "l", w3, config);
    forall c
      ensures Take(m1, c, config) == Take(Complete(m, Null), c, config)
    {
      assert Take(m1, c, config) == AtNull(m1, c, config);
      assert WordPrefix("null", "null" + [c], config.strict);
    }
  }

  /** The first letters of "true" and "false" are told apart. */
  lemma NotTrueYet(text: Bytes, strict: bool)
    requires text != [] && text[0] == 'f'
    ensures !WordPrefix("true", text, strict)
  {
    assert ToLower('f') != ToLower('t');
  }

  lemma BoolStep(m: Machine, word: Bytes, n: nat, b: bool, config: Config)
    requires word == (if b then "true" else "false") && n < |word| && m.mode == BoolWord(word[..n])
    ensures Take(m, word[n], config) == Go(m.(mode := BoolWord(word[..n + 1])))
  {
    assert Take(m, word[n], config) == AtBool(m, word[n], config);
    assert word[..n] + [word[n]] == word[..n + 1];
    if !b { NotTrueYet(word[..n + 1], config.strict); }
  }

  lemma {:induction false} BoolReadFrom(m: Machine, word: Bytes, n: nat, b: bool, config: Config)
    requires word == (if b then "true" else "false") && n <= |word| && m.mode == BoolWord(word[..n])
    ensures Fed(m, word[n..], config) == Some(m.(mode := BoolWord(word)))
    decreases |word| - n
  {
    if n == |word| {
      assert word[..n] == word;
    } else {
      BoolStep(m, word, n, b, config);
      BoolReadFrom(m.(mode := BoolWord(word[..n + 1])), word, n + 1, b, config);
      assert word[n..][1..] == word[n + 1..];
    }
  }

  lemma BoolRead(m: Machine, b: bool, config: Config) returns (m1: Machine)
    requires m.mode == Ws(Start)
    ensures Fed(m, if b then "true" else "false", config) == Some(m1) && Like(m1, Complete(m, Bool(b)), config) &&
      Depth(m1) == Depth(m)
  {
    var word := if b then "true" else "false";
    var m0 := m.(mode := BoolWord([]));
    m1 := m.(mode := BoolWord(word));
    StartByte(m, word[0], config);
    BoolReadFrom(m0, word, 0, b, config);
    assert word[0..] == word && word[..0] == [];
    forall c
      ensures Take(m1, c, config) == Take(Complete(m, Bool(b)), c, config)
    {
      assert Take(m1, c, config) == AtBool(m1, c, config);
      assert WordPrefix(word, word + [c], config.strict);
      if !b { NotTrueYet(word + [c], config.strict); }
    }
  }

  lemma {:induction false} DigitsValue(n: nat)
    ensures (forall i :: 0 <= i < |Digits(n)| ==> IsDigit(Digits(n)[i])) && NumberOf(Digits(n)) == n
  {
    var d := Digits(n);
    assert d[|d| - 1] == (n % 10 + '0' as int) as char;
    if n >= 10 {
      DigitsValue(n / 10);
      assert d[..|d| - 1] == Digits(n / 10);
    } else {
      assert d[..|d| - 1] == [];
    }
  }

  lemma {:induction false} LeadingAll(digits: Bytes)
    requires forall i :: 0 <= i < |digits| ==> IsDigit(digits[i])
    ensures LeadingDigits(digits) == digits
  {
    if digits != [] { LeadingAll(digits[1..]); }
  }

  lemma {:induction false} DigitsRead(m: Machine, digits: Bytes, config: Config) returns (m1: Machine)
    requires m.mode.Number? && forall i :: 0 <= i < |digits| ==> IsDigit(digits[i])
    ensures Fed(m, digits, config) == Some(m1) && m1 == m.(mode := m1.mode) && m1.mode.Number?
    ensures m1.mode.text == m.mode.text + digits && m1.mode.scan.run == m.mode.scan.run + |digits|
    ensures m1.mode.scan.isDouble == m.mode.scan.isDouble && m1.mode.scan.exponent == m.mode.scan.exponent
    ensures digits != [] ==> !m1.mode.scan.minusOk && !m1.mode.scan.plusOk
    decreases |digits|
  {
    if digits == [] {
      m1 := m;
      assert m.mode.text + digits == m.mode.text;
    } else {
      var c := digits[0];
      var m0 := m.(mode := Number(m.mode.text + [c], Scanned(m.mode.scan, c)));
      assert Take(m, c, config) == AtNumber(m, c, config) == Go(m0);
      m1 := DigitsRead(m0, digits[1..], config);
      assert m.mode.text + [c] + digits[1..] == m.mode.text + digits;
    }
  }

  /** The value that the text of an integer is read as. */
  function Read(i: int): Json { if i <= INT64_MAX then Int(i) else UInt(i) }

  lemma NegativeValue(digits: Bytes, n: int, config: Config)
    requires digits != [] && LeadingDigits(digits) == digits && NumberOf(digits) == n && 0 < n <= -INT64_MIN
    ensures ParseTrimmed("-" + digits, false, config) == Parsed(Int(-n))
  {
    var text := "-" + digits;
    assert text[0] == '-' && text[1..] == digits;
  }

  lemma PositiveValue(digits: Bytes, n: int, config: Config)
    requires digits != [] && LeadingDigits(digits) == digits && NumberOf(digits) == n && 0 <= n <= UINT64_MAX
    requires IsDigit(digits[0]) && (digits[0] == '0' ==> n == 0)
    ensures ParseTrimmed(digits, false, config) == Parsed(Read(n))
  {
  }

  /** Digits, after a minus sign if need be, that are read as the value `v`. */
  ghost predicate IsNumber(text: Bytes, v: Json, config: Config) {
    text != [] && (IsDigit(text[0]) || text[0] == '-') && (forall k :: 1 <= k < |text| ==> IsDigit(text[k])) &&
    (text[0] == '-' ==> |text| > 1) && ParseTrimmed(text, false, config) == Parsed(v)
  }

  lemma DigitsNumber(digits: Bytes, n: int, negative: bool, config: Config)
    requires digits != [] && (forall k :: 0 <= k < |digits| ==> IsDigit(digits[k])) && NumberOf(digits) == n
    requires (digits[0] == '0' ==> n == 0) && if negative then 0 < n <= -INT64_MIN else 0 <= n <= UINT64_MAX
    ensures IsNumber(if negative then "-" + digits else digits, Read(if negative then -n else n), config)
  {
    LeadingAll(digits);
    if negative { NegativeValue(digits, n, config); } else { PositiveValue(digits, n, config); }
  }

  lemma DecimalValue(i: int, config: Config)
    requires INT64_MIN <= i <= UINT64_MAX
    ensures IsNumber(Decimal(i), Read(i), config)
  {
    var n := if i < 0 then -i else i;
    DigitsValue(n);
    DigitsNumber(Digits(n), n, i < 0, config);
  }

  /** An integer is read from its first byte on, and is complete when something else follows. */
  lemma NumberTextRead(m: Machine, text: Bytes, v: Json, config: Config) returns (m1: Machine)
    requires m.mode == Ws(Start) && IsNumber(text, v, config)
    ensures Fed(m, text, config) == Some(m1) && Like(m1, Complete(m, v), config) && Depth(m1) == Depth(m)
  {
    var c := text[0];
    var m0 := m.(mode := NumberFrom([], false));
    var n1 := m.(mode := Number([] + [c], Scanned(ScanFrom([], false), c)));
    StartByte(m, c, config);
    assert Take(m0, c, config) == AtNumber(m0, c, config) == Go(n1);
    FedByte(m, c, n1, config);
    m1 := DigitsRead(n1, text[1..], config);
    FedParts(m, [c], text[1..], n1, config);
    assert [c] + text[1..] == text && [] + [c] + text[1..] == text;
    NumberEnds(m1, v, config);
  }

  lemma NumberEnds(m: Machine, v: Json, config: Config)
    requires m.mode.Number? && !m.mode.scan.isDouble && !m.mode.scan.exponent &&
      ParseTrimmed(m.mode.text, false, config) == Parsed(v)
    requires !m.mode.scan.minusOk && !m.mode.scan.plusOk
    ensures Like(m, Complete(m, v), config)
  {
    forall t | Follows(t, m)
      ensures Take(m, t, config) == Take(Complete(m, v), t, config)
    {
      assert Take(m, t, config) == AtNumber(m, t, config);
    }
  }

  lemma NumberRead(m: Machine, i: int, config: Config) returns (m1: Machine)
    requires m.mode == Ws(Start) && INT64_MIN <= i <= UINT64_MAX
    ensures Fed(m, Decimal(i), config) == Some(m1) && Like(m1, Complete(m, Read(i)), config) && Depth(m1) == Depth(m)
  {
    DecimalValue(i, config);
    m1 := NumberTextRead(m, Decimal(i), Read(i), config);
  }

  // ---------- arrays and objects ----------

  /** What a value is read back as: an unsigned number that fits is a signed one. */
  function Norm(v: Json): Json
    decreases v, 1
  {
    match v
    case UInt(u) => Read(u)
    case Array(xs) => Filled(v, |xs|)
    case Object(ms) => Filled(v, |ms|)
    case _ => v
  }

  /** The number of elements. */
  function Size(v: Json): nat { if v.Array? then |v.items| else if v.Object? then |v.members| else 0 }

  /** The container read back as far as its first `n` elements. */
  function Filled(v: Json, n: nat): (r: Json)
    requires (v.Array? || v.Object?) && n <= Size(v)
    ensures if v.Array? then r.Array? && |r.items| == n else r.Object? && |r.members| == n
    decreases v, 0, n
  {
    if n == 0 then if v.Array? then Array([]) else Object([])
    else
      var r := Filled(v, n - 1);
      if v.Array? then Array(r.items + [Norm(v.items[n - 1])])
      else Object(r.members + [Member(v.members[n - 1].key, Norm(v.members[n - 1].value))])
  }

  function ElementOf(v: Json, i: nat): Json
    requires (v.Array? || v.Object?) && i < Size(v)
  {
    if v.Array? then v.items[i] else v.members[i].value
  }

  /** The machine inside the container `v` of which `n` elements have been read. */
  function Inside(m: Machine, v: Json, n: nat, mode: Mode): Machine
    requires (v.Array? || v.Object?) && n <= Size(v)
  {
    m.(current := Filled(v, n), mode := mode)
  }

  /** Where element `i` is expected. */
  function BeforeElement(v: Json, i: nat): Mode {
    if v.Array? then Ws(if i == 0 then FirstItem else NextItem) else Ws(if i == 0 then FirstField else NextField)
  }

  /** Where its value is expected: in an object, after the name. */
  function BeforeValue(v: Json, i: nat): Mode
    requires (v.Array? || v.Object?) && i < Size(v)
  {
    if v.Object? then Ws(FieldValue(v.members[i].key)) else BeforeElement(v, i)
  }

  /** The machine on the level of element `i`. */
  function OnElement(m: Machine, v: Json, i: nat): Machine
    requires (v.Array? || v.Object?) && i < Size(v)
  {
    Pushed(m, if v.Array? then ArrayFrame(Filled(v, i).items) else ObjectFrame(Filled(v, i).members, v.members[i].key))
  }

  function Opened(m: Machine, v: Json): Machine
    requires v.Array? || v.Object?
  {
    Inside(m, v, 0, Ws(if v.Array? then FirstItem else FirstField))
  }

  lemma {:induction false} FilledKeys(v: Json, n: nat, i: nat)
    requires v.Object? && i < n <= Size(v)
    ensures Filled(v, n).members[i].key == v.members[i].key && Filled(v, n).members[i].value == Norm(v.members[i].value)
  {
    if i < n - 1 { FilledKeys(v, n - 1, i); }
  }

  lemma {:induction false} FilledItems(v: Json, n: nat, i: nat)
    requires v.Array? && i < n <= Size(v)
    ensures Filled(v, n).items[i] == Norm(v.items[i])
  {
    if i < n - 1 { FilledItems(v, n - 1, i); }
  }

  /** A complete element is put into its container, after the others. */
  lemma ElementAdded(m: Machine, v: Json, i: nat)
    requires (v.Array? || v.Object?) && i < Size(v) && (v.Object? ==> UniqueKeys(v.members))
    ensures Popped(Complete(OnElement(m, v, i), Norm(ElementOf(v, i)))) ==
      Inside(m, v, i + 1, Ws(if v.Array? then ItemEnd else ValueEnd))
  {
    var f := if v.Array? then ArrayFrame(Filled(v, i).items) else ObjectFrame(Filled(v, i).members, v.members[i].key);
    assert (m.frames + [f])[..|m.frames|] == m.frames;
    if v.Object? {
      var ms := Filled(v, i).members;
      var k := IndexOf(ms, v.members[i].key);
      if k < |ms| { FilledKeys(v, i, k); }
    }
  }

  /** What a comma or a closing bracket after an element leads to. */
  lemma AfterElement(m: Machine, v: Json, i: nat, c: char, config: Config)
    requires (v.Array? || v.Object?) && i < Size(v) && (v.Object? ==> UniqueKeys(v.members))
    requires c == ',' || c == (if v.Array? then ']' else '}')
    ensures Take(Complete(OnElement(m, v, i), Norm(ElementOf(v, i))), c, config) ==
      Go(Inside(m, v, i + 1, Ws(if c != ',' then Finish else if v.Array? then NextItem else NextField)))
  {
    var e := Complete(OnElement(m, v, i), Norm(ElementOf(v, i)));
    var at := e.(mode := Exactly(Finish));
    var p := Inside(m, v, i + 1, Ws(if v.Array? then ItemEnd else ValueEnd));
    var q := p.(mode := Exactly(p.mode.place));
    ElementAdded(m, v, i);
    assert Popped(at) == Popped(e) == p;
    assert Take(e, c, config) == Take(at, c, config);
    assert Take(at, c, config) == AtPlace(at, Finish, c, config) == Take(p, c, config);
    assert Take(p, c, config) == Take(q, c, config);
    assert Take(q, c, config) == AtPlace(q, p.mode.place, c, config);
  }

  /** The state after `n` elements, which the last one may leave unfinished until something follows. */
  ghost predicate AfterElements(m1: Machine, m: Machine, v: Json, n: nat, config: Config)
    requires (v.Array? || v.Object?) && n <= Size(v)
  {
    if n == 0 then m1 == Opened(m, v)
    else
      var e := Complete(OnElement(m, v, n - 1), Norm(ElementOf(v, n - 1)));
      Like(m1, e, config) && Depth(m1) == Depth(e)
  }

  predicate AllSpaces(text: Bytes) {
    forall i :: 0 <= i < |text| ==> text[i] == ' ' || text[i] == '\t' || text[i] == '\n'
  }

  lemma IndentSpaces(level: nat, flags: Flags)
    ensures AllSpaces(NewLine(flags)) && AllSpaces(Indent(level, flags)) && AllSpaces(Space(flags))
  {
  }

  /** A comma, if there is an element before, and white space. */
  lemma LeadRead(m0: Machine, m: Machine, v: Json, n: nat, level: nat, flags: Flags, config: Config)
    requires (v.Array? || v.Object?) && n < Size(v) && (v.Object? ==> UniqueKeys(v.members)) &&
      AfterElements(m0, m, v, n, config)
    ensures Fed(m0, Lead(n == 0, level, flags), config) ==
      Some(Inside(m, v, n, BeforeElement(v, n)))
  {
    IndentSpaces(level + 1, flags);
    var m1 := Inside(m, v, n, BeforeElement(v, n));
    var spaces := Space(flags) + Indent(level + 1, flags);
    if n == 0 {
      assert Lead(true, level, flags) == spaces;
      SpacesSkipped(m1, spaces, config);
    } else {
      var e := Complete(OnElement(m, v, n - 1), Norm(ElementOf(v, n - 1)));
      AfterElement(m, v, n - 1, ',', config);
      assert Follows(',', e) && Take(m0, ',', config) == Go(m1);
      SpacesSkipped(m1, NewLine(flags) + spaces, config);
      FedByte(m0, ',', m1, config);
      FedParts(m0, ",", NewLine(flags) + spaces, m1, config);
      assert Lead(false, level, flags) == "," + (NewLine(flags) + spaces);
    }
  }

  /** The white space before a closing bracket, and the bracket. */
  lemma CloseRead(m0: Machine, m: Machine, v: Json, level: nat, flags: Flags, config: Config)
    requires (v.Array? || v.Object?) && (v.Object? ==> UniqueKeys(v.members)) &&
      AfterElements(m0, m, v, Size(v), config)
    ensures Fed(m0, Tail(Size(v) > 0, level, flags) + (if v.Array? then "]" else "}"), config) ==
      Some(Complete(m, Norm(v)))
  {
    IndentSpaces(level, flags);
    var tail, c := Tail(Size(v) > 0, level, flags), if v.Array? then ']' else '}';
    var m1 := Complete(m, Norm(v));
    assert AllSpaces(tail);
    if Size(v) == 0 {
      var at := m0.(mode := Exactly(m0.mode.place));
      assert Take(m0, c, config) == Take(at, c, config);
      assert Take(at, c, config) == AtPlace(at, m0.mode.place, c, config) == Go(m1);
      SpacesSkipped(m0, tail, config);
      FedByte(m0, c, m1, config);
      FedParts(m0, tail, [c], m0, config);
    } else {
      var e := Complete(OnElement(m, v, Size(v) - 1), Norm(ElementOf(v, Size(v) - 1)));
      AfterElement(m, v, Size(v) - 1, c, config);
      if tail == [] {
        assert Follows(c, e) && Take(m0, c, config) == Go(m1);
        FedByte(m0, c, m1, config);
        assert tail + [c] == [c];
      } else {
        TailFirst(level, flags);
        assert Follows(tail[0], e) && Take(m0, tail[0], config) == Take(e, tail[0], config) == Go(e);
        SpacesSkipped(e, tail[1..], config);
        assert Fed(m0, tail, config) == Some(e);
        FedByte(e, c, m1, config);
        FedParts(m0, tail, [c], e, config);
      }
    }
  }

  lemma TailFirst(level: nat, flags: Flags)
    ensures Tail(true, level, flags) != [] ==> Tail(true, level, flags)[0] in {' ', '\n'}
  {
  }

  // ---------- values ----------

  /** The first byte of a printed value starts a value, wherever one may start. */
  lemma FirstByte(v: Json, level: nat, flags: Flags)
    requires Valid(v)
    ensures var text := Print(v, level, flags);
      text != [] && !IsSpace(text[0]) && text[0] != '/' && text[0] != ']' && text[0] != '}' && text[0] != '\0'
  {
    match v
    case Int(i) => DigitsValue(if i < 0 then -i else i);
    case UInt(u) => DigitsValue(u);
    case _ =>
  }

  /** A value that starts at the place of an element is read on a level of its own. */
  lemma OnItsLevel(l: Machine, m: Machine, v: Json, i: nat, text: Bytes, config: Config)
    requires (v.Array? || v.Object?) && i < Size(v) && Depth(m) + 1 < config.maxDepth && text != []
    requires !IsSpace(text[0]) && text[0] != '/' && text[0] != ']' && text[0] != '}'
    requires l == Inside(m, v, i, BeforeValue(v, i))
    ensures Fed(l, text, config) == Fed(OnElement(m, v, i), text, config)
  {
    var at := l.(mode := Exactly(l.mode.place));
    assert Take(l, text[0], config) == Take(at, text[0], config);
    assert Take(at, text[0], config) == AtPlace(at, l.mode.place, text[0], config);
    if v.Array? { assert AtPlace(at, l.mode.place, text[0], config) == AtItem(at, l.mode.place, text[0], config); }
  }

  lemma {:induction false} KeyKept(key: Bytes)
    requires '\0' !in key
    ensures CString(key) == key
  {
    if key != [] { KeyKept(key[1..]); }
  }

  /** The name of a field between its quotes. */
  lemma NameText(l: Machine, key: Bytes, flags: Flags, config: Config)
    requires l.mode == Ws(FirstField) || l.mode == Ws(NextField)
    requires '\0' !in key && l.high == 0
    ensures Fed(l, "\"" + EscapeAll(key, flags) + "\"", config) == Some(l.(mode := Ws(FieldEnd(key))))
  {
    var at := l.(mode := Exactly(l.mode.place));
    var q := Quoting(true, '"');
    var t0, t1 := l.(mode := Text(q, [])), l.(mode := Text(q, key));
    KeyKept(key);
    assert Take(l, '"', config) == Take(at, '"', config);
    assert Take(at, '"', config) == AtPlace(at, l.mode.place, '"', config) == AtField(at, '"', config);
    FedByte(l, '"', t0, config);
    TextRead(t0, key, flags, config);
    assert [] + key == key;
    assert Take(t1, '"', config) == AtText(t1, '"');
    FedByte(t1, '"', l.(mode := Ws(FieldEnd(key))), config);
    FedParts(l, "\"", EscapeAll(key, flags), t0, config);
    FedParts(l, "\"" + EscapeAll(key, flags), "\"", t1, config);
  }

  /** The colon, and a space after it if need be. */
  lemma ColonRead(e: Machine, key: Bytes, flags: Flags, config: Config)
    requires e.mode == Ws(FieldEnd(key))
    ensures Fed(e, if flags.spaced then ": " else ":", config) == Some(e.(mode := Ws(FieldValue(key))))
  {
    var at, f := e.(mode := Exactly(FieldEnd(key))), e.(mode := Ws(FieldValue(key)));
    assert Take(e, ':', config) == Take(at, ':', config);
    assert Take(at, ':', config) == AtPlace(at, FieldEnd(key), ':', config);
    FedByte(e, ':', f, config);
    if flags.spaced {
      SpacesSkipped(f, " ", config);
      FedParts(e, ":", " ", f, config);
      assert ":" + " " == ": ";
    }
  }

  /** The name of a field and the colon. */
  lemma KeyRead(m: Machine, v: Json, i: nat, flags: Flags, config: Config)
    requires v.Object? && i < Size(v) && '\0' !in v.members[i].key && m.high == 0
    ensures Fed(Inside(m, v, i, Ws(if i == 0 then FirstField else NextField)),
      "\"" + EscapeAll(v.members[i].key, flags) + Colon(flags),
      config) == Some(Inside(m, v, i, Ws(FieldValue(v.members[i].key))))
  {
    var key := v.members[i].key;
    var l := Inside(m, v, i, Ws(if i == 0 then FirstField else NextField));
    var e := l.(mode := Ws(FieldEnd(key)));
    var colon := if flags.spaced then ": " else ":";
    NameText(l, key, flags, config);
    ColonRead(e, key, flags, config);
    FedParts(l, "\"" + EscapeAll(key, flags) + "\"", colon, e, config);
    assert "\"" + colon == Colon(flags);
    Regroup("\"" + EscapeAll(key, flags), "\"", colon);
  }

  /** The printed form of a value is read as the value. */
  lemma {:induction false} ValueRead(m: Machine, v: Json, level: nat, flags: Flags,
    config: Config) returns (m1: Machine)
    requires m.mode == Ws(Start) && m.current == Null && m.high == 0 && Valid(v) &&
      Depth(m) + 1 + Height(v) <= config.maxDepth
    ensures Fed(m, Print(v, level, flags), config) == Some(m1) && Like(m1, Complete(m, Norm(v)), config) &&
      Depth(m1) == Depth(m)
    decreases v, 1, 0
  {
    match v
    case Null => m1 := NullRead(m, config);
    case Bool(b) => m1 := BoolRead(m, b, config);
    case Int(i) => m1 := NumberRead(m, i, config);
    case UInt(u) => m1 := NumberRead(m, u, config);
    case Str(s) =>
      QuotedRead(m, s, flags, config);
      m1 := Complete(m, v);
    case Array(xs) => m1 := ContainerRead(m, v, level, flags, config);
    case Object(ms) => m1 := ContainerRead(m, v, level, flags, config);
  }

  lemma {:induction false} ContainerRead(m: Machine, v: Json, level: nat, flags: Flags,
    config: Config) returns (m1: Machine)
    requires m.mode == Ws(Start) && m.current == Null && m.high == 0 && Valid(v) &&
      Depth(m) + 1 + Height(v) <= config.maxDepth
    requires v.Array? || v.Object?
    ensures Fed(m, Print(v, level, flags), config) == Some(m1) && m1 == Complete(m, Norm(v))
    decreases v, 0, Size(v) + 1
  {
    var c, o := if v.Array? then '[' else '{', Opened(m, v);
    StartByte(m, c, config);
    FedByte(m, c, o, config);
    IndentSpaces(level, flags);
    SpacesSkipped(o, NewLine(flags), config);
    FedParts(m, [c], NewLine(flags), o, config);
    var m0 := ElementsRead(m, v, Size(v), level, flags, config);
    var head, elements, tail := [c] + NewLine(flags), Elements(v, Size(v), level, flags),
      Tail(Size(v) > 0, level, flags);
    m1 := Complete(m, Norm(v));
    CloseRead(m0, m, v, level, flags, config);
    var close := if v.Array? then "]" else "}";
    FedThree(m, head, elements, tail + close, o, m0, m1, config);
    Regroup(head + elements, tail, close);
  }

  /** There is room for the level of an element. */
  lemma ElementFits(m: Machine, v: Json, n: nat, config: Config)
    requires (v.Array? || v.Object?) && 0 < n <= Size(v) && m.high == 0 && Valid(v) &&
      Depth(m) + 1 + MaxHeight(v, n) <= config.maxDepth
    ensures var o, e := OnElement(m, v, n - 1), ElementOf(v, n - 1);
      o.mode == Ws(Start) && o.current == Null && o.high == 0 && Valid(e) && Depth(o) + 1 + Height(e) <= config.maxDepth
    ensures Depth(m) + 1 < config.maxDepth && Depth(m) + 1 + MaxHeight(v, n - 1) <= config.maxDepth
  {
    HeightOfPart(v, n, n - 1);
  }

  lemma {:induction false} ElementsRead(m: Machine, v: Json, n: nat, level: nat, flags: Flags,
    config: Config) returns (m1: Machine)
    requires (v.Array? || v.Object?) && n <= Size(v)
    requires m.mode == Ws(Start) && m.high == 0 && Valid(v) && Depth(m) + 1 + MaxHeight(v, n) <= config.maxDepth
    ensures Fed(Opened(m, v), Elements(v, n, level, flags), config) == Some(m1) && AfterElements(m1, m, v, n, config)
    decreases v, 0, n
  {
    if n == 0 {
      m1 := Opened(m, v);
    } else {
      ElementFits(m, v, n, config);
      var m0 := ElementsRead(m, v, n - 1, level, flags, config);
      var before, lead := Elements(v, n - 1, level, flags), Lead(n == 1, level, flags);
      LeadRead(m0, m, v, n - 1, level, flags, config);
      var l := Fed(m0, lead, config).value;
      m1 := ValueRead(OnElement(m, v, n - 1), ElementOf(v, n - 1), level + 1, flags, config);
      ElementRead(l, m, v, n - 1, m1, level, flags, config);
      FedThree(Opened(m, v), before, lead, Element(v, n - 1, level, flags), m0, l, m1, config);
    }
  }

  /** An element at its place, given how it is read on its own level. */
  lemma ElementRead(l: Machine, m: Machine, v: Json, i: nat, m1: Machine, level: nat, flags: Flags, config: Config)
    requires (v.Array? || v.Object?) && i < Size(v) && Valid(v) && m.high == 0 && Depth(m) + 1 < config.maxDepth
    requires l == Inside(m, v, i, BeforeElement(v, i))
    requires Fed(OnElement(m, v, i), Print(ElementOf(v, i), level + 1, flags), config) == Some(m1)
    ensures Fed(l, Element(v, i, level, flags), config) == Some(m1)
  {
    var text := Print(ElementOf(v, i), level + 1, flags);
    FirstByte(ElementOf(v, i), level + 1, flags);
    if v.Array? {
      OnItsLevel(l, m, v, i, text, config);
    } else {
      var f := Inside(m, v, i, Ws(FieldValue(v.members[i].key)));
      KeyRead(m, v, i, flags, config);
      OnItsLevel(f, m, v, i, text, config);
      var name := "\"" + EscapeAll(v.members[i].key, flags) + Colon(flags);
      FedParts(l, name, text, f, config);
      assert Element(v, i, level, flags) == name + text;
    }
  }

  // ---------- the round trip ----------

  lemma FilledUnique(v: Json)
    requires v.Object? && UniqueKeys(v.members)
    ensures var ms := Filled(v, Size(v)).members;
      forall i :: 0 <= i < |ms| ==>
        IndexOf(ms, v.members[i].key) == i && ms[i].key == v.members[i].key && ms[i].value == Norm(v.members[i].value)
    ensures forall i :: 0 <= i < Size(v) ==> IndexOf(v.members, v.members[i].key) == i
  {
    forall i | 0 <= i < Size(v)
      ensures Filled(v, Size(v)).members[i].key == v.members[i].key &&
        Filled(v, Size(v)).members[i].value == Norm(v.members[i].value)
    {
      FilledKeys(v, Size(v), i);
    }
  }

  /** What is read back equals what was printed. */
  lemma {:induction false} EqualNorm(v: Json)
    requires Valid(v)
    ensures Equal(v, Norm(v))
    decreases v
  {
    match v
    case Array(xs) =>
      forall i | 0 <= i < |xs|
        ensures Equal(xs[i], Norm(v).items[i])
      {
        FilledItems(v, |xs|, i);
        EqualNorm(xs[i]);
      }
    case Object(ms) =>
      FilledUnique(v);
      forall i | 0 <= i < |ms|
        ensures EqualIn(ms[i], Norm(v).members)
      {
        EqualNorm(ms[i].value);
      }
    case _ =>
  }

  // ---------- validation ----------

  /** All strings and keys pass. */
  ghost predicate StringsPass(v: Json, config: Config)
    decreases v
  {
    match v
    case Str(s) => Passes(s, config)
    case Array(xs) => forall i :: 0 <= i < |xs| ==> StringsPass(xs[i], config)
    case Object(ms) => forall i :: 0 <= i < |ms| ==> Passes(ms[i].key, config) && StringsPass(ms[i].value, config)
    case _ => true
  }

  lemma PassesThree(a: Bytes, b: Bytes, c: Bytes, config: Config)
    requires Passes(a, config) && Passes(b, config) && Passes(c, config)
    ensures Passes(a + b + c, config)
  {
    SeenParts(a, b, 0, config);
    SeenParts(a + b, c, 0, config);
  }

  lemma {:induction false} AsciiPasses(s: Bytes, config: Config)
    requires forall i :: 0 <= i < |s| ==> s[i] as int < 0x80
    ensures Passes(s, config)
    decreases |s|
  {
    if s != [] { AsciiPasses(s[1..], config); }
  }

  lemma EscapeSeen(c: char, left: nat, flags: Flags, config: Config)
    requires Seen(c, left, config).Left?
    ensures SeenAll(Escape(c, flags), left, config) == Seen(c, left, config)
  {
    var text := Escape(c, flags);
    if !config.validateUtf8 {
      SeenNothing(text, left, config);
    } else if c as int < 0x80 {
      AsciiPasses(text, config);
    } else {
      assert SeenAll([c][1..], Seen(c, left, config).n, config) == Seen(c, left, config);
    }
  }

  lemma {:induction false} EscapeAllSeen(s: Bytes, left: nat, flags: Flags, config: Config)
    requires SeenAll(s, left, config) == Left(0)
    ensures SeenAll(EscapeAll(s, flags), left, config) == Left(0)
    decreases |s|
  {
    if s != [] {
      EscapeSeen(s[0], left, flags, config);
      EscapeAllSeen(s[1..], Seen(s[0], left, config).n, flags, config);
      SeenParts(Escape(s[0], flags), EscapeAll(s[1..], flags), left, config);
    }
  }

  /** The printed form passes if all the strings in it do. */
  lemma {:induction false} PrintPasses(v: Json, level: nat, flags: Flags, config: Config)
    requires Valid(v) && StringsPass(v, config)
    ensures Passes(Print(v, level, flags), config)
    decreases v, 1
  {
    var text := Print(v, level, flags);
    match v
    case Str(s) =>
      EscapeAllSeen(s, 0, flags, config);
      AsciiPasses("\"", config);
      PassesThree("\"", EscapeAll(s, flags), "\"", config);
    case Array(_) => PartsPass(v, level, flags, config);
    case Object(_) => PartsPass(v, level, flags, config);
    case _ => AsciiPasses(text, config);
  }

  lemma {:induction false} PartsPass(v: Json, level: nat, flags: Flags, config: Config)
    requires (v.Array? || v.Object?) && Valid(v) && StringsPass(v, config)
    ensures Passes(Print(v, level, flags), config)
    decreases v, 0, Size(v) + 1
  {
    var open, close := [if v.Array? then '[' else '{'] + NewLine(flags), if v.Array? then "]" else "}";
    var elements, tail := Elements(v, Size(v), level, flags), Tail(Size(v) > 0, level, flags);
    ElementsPass(v, Size(v), level, flags, config);
    AsciiPasses(open, config);
    AsciiPasses(tail, config);
    AsciiPasses(close, config);
    PassesThree(open, elements, tail, config);
    PassesThree(open + elements + tail, close, [], config);
    assert open + elements + tail + close + [] == open + elements + tail + close;
  }

  lemma {:induction false} ElementsPass(v: Json, n: nat, level: nat, flags: Flags, config: Config)
    requires (v.Array? || v.Object?) && n <= Size(v) && Valid(v) && StringsPass(v, config)
    ensures Passes(Elements(v, n, level, flags), config)
    decreases v, 0, n
  {
    if n > 0 {
      ElementsPass(v, n - 1, level, flags, config);
      var lead := Lead(n == 1, level, flags);
      AsciiPasses(lead, config);
      PrintPasses(ElementOf(v, n - 1), level + 1, flags, config);
      if v.Object? { KeyPasses(v, n - 1, level, flags, config); }
      PassesThree(Elements(v, n - 1, level, flags), lead, Element(v, n - 1, level, flags), config);
    }
  }

  lemma KeyPasses(v: Json, i: nat, level: nat, flags: Flags, config: Config)
    requires v.Object? && i < |v.members| && Passes(v.members[i].key, config)
    requires Passes(Print(v.members[i].value, level + 1, flags), config)
    ensures Passes(Element(v, i, level, flags), config)
  {
    var key := EscapeAll(v.members[i].key, flags);
    EscapeAllSeen(v.members[i].key, 0, flags, config);
    AsciiPasses("\"", config);
    AsciiPasses(Colon(flags), config);
    PassesThree("\"", key, Colon(flags), config);
    SeenParts("\"" + key + Colon(flags), Print(v.members[i].value, level + 1, flags), 0, config);
  }

  /** Parsing the printed text of a value, with the NUL that ends it, gives the value back, whatever the
      printing flags, if its nesting leaves one level of the stack free. */
  lemma RoundTrip(v: Json, flags: Flags, config: Config)
    requires Valid(v) && Height(v) < config.maxDepth && StringsPass(v, config)
    ensures Parse(INIT, Print(v, 0, flags) + "\0", config) == Result.Value(Norm(v), |Print(v, 0, flags)|, INIT)
    ensures Equal(v, Norm(v))
  {
    var text := Print(v, 0, flags);
    var s := text + "\0";
    var m1 := ValueRead(INIT, v, 0, flags, config);
    assert s[..|text|] == text;
    PrintPasses(v, 0, flags, config);
    FedStart(INIT, s, |text|, m1, config);
    ParseAt(m1, s, |text|, 0, config);
    var e := Complete(INIT, Norm(v));
    var at := e.(mode := Exactly(Finish));
    assert Follows('\0', e) && Take(m1, '\0', config) == Take(e, '\0', config) == Take(at, '\0', config);
    assert Take(at, '\0', config) == AtPlace(at, Finish, '\0', config) == Done(at);
    assert s[|text|] == '\0';
    EqualNorm(v);
  }

  // ---------- values that are nested too deeply ----------

  /** After the text `a` the byte `c` is one level too many. */
  ghost predicate FailsAfter(m: Machine, a: Bytes, c: char, config: Config) {
    var o := Fed(m, a, config);
    o.Some? && 0 < c as int < 0x80 && Take(o.value, c, config).Fail? && Take(o.value, c, config).e == TooDeep &&
    Take(o.value, c, config).m.mode != Exactly(Finish)
  }

  lemma FailsLater(m: Machine, head: Bytes, m0: Machine, a: Bytes, c: char, config: Config)
    requires Fed(m, head, config) == Some(m0) && FailsAfter(m0, a, c, config)
    ensures FailsAfter(m, head + a, c, config)
  {
    FedParts(m, head, a, m0, config);
  }

  /** The first element that is nested too deeply. */
  lemma FirstTooDeep(v: Json, n: nat, limit: int) returns (i: nat)
    requires (v.Array? || v.Object?) && n <= Size(v) && MaxHeight(v, n) > limit >= 0
    ensures i < n && MaxHeight(v, i) <= limit && 1 + Height(ElementOf(v, i)) > limit
    decreases n
  {
    if MaxHeight(v, n - 1) > limit { i := FirstTooDeep(v, n - 1, limit); } else { i := n - 1; }
  }

  /** The text up to an element: the opening bracket, the elements before it, and what leads to it. */
  lemma HeadRead(m: Machine, v: Json, i: nat, level: nat, flags: Flags, config: Config)
    returns (head: Bytes, l: Machine)
    requires (v.Array? || v.Object?) && i < Size(v) && m.mode == Ws(Start) && m.high == 0 && Valid(v)
    requires m.current == Null && Depth(m) + 1 + MaxHeight(v, i) <= config.maxDepth
    ensures Fed(m, head, config) == Some(l) && head + Element(v, i, level, flags) <= Print(v, level, flags)
    ensures l == Inside(m, v, i, BeforeElement(v, i))
  {
    var b, o := if v.Array? then '[' else '{', Opened(m, v);
    StartByte(m, b, config);
    FedByte(m, b, o, config);
    IndentSpaces(level, flags);
    SpacesSkipped(o, NewLine(flags), config);
    FedParts(m, [b], NewLine(flags), o, config);
    var m0 := ElementsRead(m, v, i, level, flags, config);
    LeadRead(m0, m, v, i, level, flags, config);
    var lead, elements := Lead(i == 0, level, flags), Elements(v, i, level, flags);
    l := Fed(m0, lead, config).value;
    FedParts(m, [b] + NewLine(flags), elements, o, config);
    FedParts(m, [b] + NewLine(flags) + elements, lead, m0, config);
    head := [b] + NewLine(flags) + elements + lead;
    HeadPrefix(v, i, level, flags);
  }

  lemma HeadPrefix(v: Json, i: nat, level: nat, flags: Flags)
    requires (v.Array? || v.Object?) && i < Size(v)
    ensures [if v.Array? then '[' else '{'] + NewLine(flags) + Elements(v, i, level, flags) +
      Lead(i == 0, level, flags) +
      Element(v, i, level, flags) <= Print(v, level, flags)
  {
    ElementPrefix(v, i, Size(v), level, flags);
    InsidePrefix(Print(v, level, flags), [if v.Array? then '[' else '{'] + NewLine(flags), Elements(v, i, level, flags),
      Lead(i == 0, level, flags), Element(v, i, level, flags), Elements(v, Size(v), level, flags),
        Tail(Size(v) > 0, level, flags),
      if v.Array? then "]" else "}");
  }

  lemma InsidePrefix(text: Bytes, head: Bytes, a: Bytes, b: Bytes, c: Bytes, all: Bytes, tail: Bytes, close: Bytes)
    requires a + b + c <= all && text == head + all + tail + close
    ensures head + a + b + c <= text
  {
    assert head + a + b + c == head + (a + b + c);
    assert head + all + tail + close == head + all + (tail + close);
  }

  lemma {:induction false} TooDeepFails(m: Machine, v: Json, level: nat, flags: Flags,
    config: Config) returns (a: Bytes, c: char)
    requires m.mode == Ws(Start) && m.current == Null && m.high == 0 && Valid(v)
    requires Depth(m) + 1 <= config.maxDepth < Depth(m) + 1 + Height(v)
    ensures FailsAfter(m, a, c, config) && a + [c] <= Print(v, level, flags)
    decreases v
  {
    var i := FirstTooDeep(v, Size(v), config.maxDepth - Depth(m) - 1);
    var head, l := HeadRead(m, v, i, level, flags, config);
    var name, f := NameRead(l, m, v, i, level, flags, config);
    var a1, c1 := ElementFails(f, m, v, i, level, flags, config);
    FailsLater(l, name, f, a1, c1, config);
    FailsLater(m, head, l, name + a1, c1, config);
    a, c := head + (name + a1), c1;
    assert a + [c] == head + (name + (a1 + [c]));
    PrefixKept(head, name, a1 + [c], Print(ElementOf(v, i), level + 1, flags));
  }

  lemma PrefixKept(head: Bytes, name: Bytes, a: Bytes, text: Bytes)
    requires a <= text
    ensures head + (name + a) <= head + (name + text)
  {
  }

  /** What comes before the value of an element: nothing in an array, the name of the field in an object. */
  lemma NameRead(l: Machine, m: Machine, v: Json, i: nat, level: nat, flags: Flags,
    config: Config) returns (name: Bytes, f: Machine)
    requires (v.Array? || v.Object?) && i < Size(v) && Valid(v) && m.high == 0
    requires l == Inside(m, v, i, BeforeElement(v, i))
    ensures Fed(l, name, config) == Some(f)
    ensures f == Inside(m, v, i, BeforeValue(v, i))
    ensures Element(v, i, level, flags) == name + Print(ElementOf(v, i), level + 1, flags)
  {
    if v.Array? {
      name, f := [], l;
    } else {
      KeyRead(m, v, i, flags, config);
      name, f := "\"" + EscapeAll(v.members[i].key, flags) + Colon(flags),
        Inside(m, v, i, Ws(FieldValue(v.members[i].key)));
    }
  }

  /** The stack is full at the element, or inside it. */
  lemma {:induction false} ElementFails(f: Machine, m: Machine, v: Json, i: nat, level: nat, flags: Flags,
    config: Config) returns (a: Bytes, c: char)
    requires (v.Array? || v.Object?) && i < Size(v) && Valid(v) && m.high == 0
    requires Depth(m) + 1 <= config.maxDepth < Depth(m) + 2 + Height(ElementOf(v, i))
    requires f == Inside(m, v, i, BeforeValue(v, i))
    ensures FailsAfter(f, a, c, config) && a + [c] <= Print(ElementOf(v, i), level + 1, flags)
    decreases v, 0
  {
    var e := ElementOf(v, i);
    var text := Print(e, level + 1, flags);
    FirstByte(e, level + 1, flags);
    if Depth(m) + 1 == config.maxDepth {
      var at := f.(mode := Exactly(f.mode.place));
      a, c := [], text[0];
      assert Take(f, c, config) == Take(at, c, config);
      assert Take(at, c, config) == AtPlace(at, f.mode.place, c, config);
      if v.Array? { assert AtPlace(at, f.mode.place, c, config) == AtItem(at, f.mode.place, c, config); }
    } else {
      a, c := TooDeepFails(OnElement(m, v, i), e, level + 1, flags, config);
      assert text[0] == (a + [c])[0];
      OnItsLevelFails(f, m, v, i, a, c, config);
    }
  }

  lemma OnItsLevelFails(f: Machine, m: Machine, v: Json, i: nat, a: Bytes, c: char, config: Config)
    requires (v.Array? || v.Object?) && i < Size(v) && Depth(m) + 1 < config.maxDepth
    requires var c0 := (a + [c])[0]; !IsSpace(c0) && c0 != '/' && c0 != ']' && c0 != '}'
    requires f == Inside(m, v, i, BeforeValue(v, i))
    requires FailsAfter(OnElement(m, v, i), a, c, config)
    ensures FailsAfter(f, a, c, config)
  {
    if a == [] {
      var at := f.(mode := Exactly(f.mode.place));
      assert Take(f, c, config) == Take(at, c, config);
      assert Take(at, c, config) == AtPlace(at, f.mode.place, c, config);
      if v.Array? { assert AtPlace(at, f.mode.place, c, config) == AtItem(at, f.mode.place, c, config); }
    } else {
      OnItsLevel(f, m, v, i, a, config);
    }
  }

  /** The text up to and with an element is where the printed form starts. */
  lemma {:induction false} ElementPrefix(v: Json, i: nat, n: nat, level: nat, flags: Flags)
    requires (v.Array? || v.Object?) && i < n <= Size(v)
    ensures Elements(v, i, level, flags) + Lead(i == 0, level, flags) + Element(v, i, level, flags) <=
      Elements(v, n, level, flags)
  {
    if i < n - 1 { ElementPrefix(v, i, n - 1, level, flags); }
  }

  /** The round trip works exactly for the values whose nesting leaves one level of the stack free; for
      all others the parser says that they are nested too deeply. */
  lemma DepthIsExact(v: Json, flags: Flags, config: Config)
    requires Valid(v) && config.maxDepth > 0 && StringsPass(v, config)
    ensures var r := Parse(INIT, Print(v, 0, flags) + "\0", config);
      if Height(v) < config.maxDepth then r == Result.Value(Norm(v), |Print(v, 0, flags)|, INIT)
      else r.Error? && r.e == TooDeep
  {
    if Height(v) < config.maxDepth {
      RoundTrip(v, flags, config);
    } else {
      var text := Print(v, 0, flags);
      var s := text + "\0";
      var a, c := TooDeepFails(INIT, v, 0, flags, config);
      var m1 := Fed(INIT, a, config).value;
      assert a == (a + [c])[..|a|] && c == (a + [c])[|a|];
      assert s[..|a|] == a && s[|a|] == c;
      assert a + [c] + text[|a| + 1..] == text;
      PrintPasses(v, 0, flags, config);
      PassesUpTo(a, c, text[|a| + 1..], config);
      FedStart(INIT, s, |a|, m1, config);
      ParseAt(m1, s, |a|, 0, config);
      var m2 := Take(m1, c, config).m;
      assert AfterPeek(m1, s, |a|, 0, config) == Conclude(m2, TooDeep, 0, false, |a|, config);
    }
  }
}
