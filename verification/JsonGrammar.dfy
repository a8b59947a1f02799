/** The grammar of RFC 8259: every text that it allows is parsed as the value it stands for. */
module JsonGrammar {
  import opened Options
  import opened Sequences
  import opened Json
  import opened JsonFeed
  import opened JsonMachine
  import opened JsonRoundTrip
  import opened JsonStrings

  // ---------- documents ----------

  /** A document with all that its text leaves open: white space, escapes, and how a number is written. */
  datatype Doc =
    | NullDoc
    | BoolDoc(b: bool)
    | NumberDoc(negative: bool, whole: Bytes, frac: Bytes, exp: Bytes)
    | StringDoc(units: seq<Unit>)
    | ArrayDoc(blank: Bytes, items: seq<Item>)
    | ObjectDoc(blank: Bytes, fields: seq<Field>)

  datatype Item = Item(before: Bytes, doc: Doc, after: Bytes)

  datatype Field = Field(before: Bytes, name: seq<Unit>, colon: Bytes, beforeValue: Bytes, doc: Doc, after: Bytes)

  /** White space, section 2. */
  predicate Blank(s: Bytes) { forall i :: 0 <= i < |s| ==> s[i] in {' ', '\t', '\n', '\r'} }

  predicate AllDigits(s: Bytes) { s != [] && forall i :: 0 <= i < |s| ==> IsDigit(s[i]) }

  /** Section 6: no leading zeros; a fraction and an exponent, if there is one, have digits. */
  predicate NumberOk(whole: Bytes, frac: Bytes, exp: Bytes) {
    AllDigits(whole) && (whole[0] == '0' ==> |whole| == 1) &&
    (frac != [] ==> frac[0] == '.' && AllDigits(frac[1..])) &&
    (exp != [] ==> (exp[0] == 'e' || exp[0] == 'E') && AllDigits(exp[ExpSign(exp)..]))
  }

  /** Where the digits of an exponent begin. */
  function ExpSign(exp: Bytes): nat { if |exp| > 1 && (exp[1] == '+' || exp[1] == '-') then 2 else 1 }

  function NumberText(d: Doc): Bytes
    requires d.NumberDoc?
  {
    (if d.negative then "-" else []) + d.whole + d.frac + d.exp
  }

  /** The parts of the grammar; strtod reads every number with a fraction or an exponent. */
  ghost predicate Good(d: Doc, config: Config)
    decreases d
  {
    match d
    case NumberDoc(negative, whole, frac, exp) =>
      NumberOk(whole, frac, exp) && (frac != [] || exp != [] ==> config.isDouble(NumberText(d)))
    case StringDoc(units) => ValidUnits(units, '"')
    case ArrayDoc(blank, items) =>
      Blank(blank) && forall i :: 0 <= i < |items| ==>
        Blank(items[i].before) && Blank(items[i].after) && Good(items[i].doc, config)
    case ObjectDoc(blank, fields) =>
      Blank(blank) && forall i :: 0 <= i < |fields| ==>
        Blank(fields[i].before) && Blank(fields[i].colon) && Blank(fields[i].beforeValue) && Blank(fields[i].after) &&
        ValidUnits(fields[i].name, '"') && Good(fields[i].doc, config)
    case _ => true
  }

  predicate Container(d: Doc) { d.ArrayDoc? || d.ObjectDoc? }

  function Count(d: Doc): nat { if d.ArrayDoc? then |d.items| else if d.ObjectDoc? then |d.fields| else 0 }

  function Part(d: Doc, i: nat): Doc
    requires Container(d) && i < Count(d)
  {
    if d.ArrayDoc? then d.items[i].doc else d.fields[i].doc
  }

  function Before(d: Doc, i: nat): Bytes
    requires Container(d) && i < Count(d)
  {
    if d.ArrayDoc? then d.items[i].before else d.fields[i].before
  }

  function After(d: Doc, i: nat): Bytes
    requires Container(d) && i < Count(d)
  {
    if d.ArrayDoc? then d.items[i].after else d.fields[i].after
  }

  // ---------- the text of a document ----------

  function Open(d: Doc): Bytes { if d.ArrayDoc? then "[" else "{" }

  function Close(d: Doc): Bytes { if d.ArrayDoc? then "]" else "}" }

  function Render(d: Doc): Bytes
    decreases d, 1
  {
    match d
    case NullDoc => "null"
    case BoolDoc(b) => if b then "true" else "false"
    case NumberDoc(_, _, _, _) => NumberText(d)
    case StringDoc(units) => "\"" + Source(units) + "\""
    case ArrayDoc(blank, items) => "[" + (if items == [] then blank else Parts(d, |items|)) + "]"
    case ObjectDoc(blank, fields) => "{" + (if fields == [] then blank else Parts(d, |fields|)) + "}"
  }

  /** The first `n` parts, with commas between them. */
  function Parts(d: Doc, n: nat): Bytes
    requires Container(d) && n <= Count(d)
    decreases d, 0, n
  {
    if n == 0 then []
    else Parts(d, n - 1) + (if n == 1 then [] else ",") + (Lead(d, n - 1) + Render(Part(d, n - 1)) + After(d, n - 1))
  }

  /** What stands before the value of a part. */
  function Lead(d: Doc, i: nat): Bytes
    requires Container(d) && i < Count(d)
  {
    Before(d, i) + Name(d, i)
  }

  /** The name of a field and its colon. */
  function Name(d: Doc, i: nat): Bytes
    requires Container(d) && i < Count(d)
  {
    if d.ArrayDoc? then []
    else "\"" + Source(d.fields[i].name) + "\"" + d.fields[i].colon + ":" + d.fields[i].beforeValue
  }

  // ---------- what a document stands for ----------

  function KeyOf(d: Doc, i: nat): Bytes
    requires d.ObjectDoc? && i < |d.fields| && ValidUnits(d.fields[i].name, '"')
  {
    CString(Out(0, d.fields[i].name, '"'))
  }

  /** An integer is held as far as 64 bits reach; every other number as its text. */
  function NumberValue(d: Doc): Json
    requires d.NumberDoc? && NumberOk(d.whole, d.frac, d.exp)
  {
    var n := NumberOf(d.whole);
    if d.frac != [] || d.exp != [] then Double(NumberText(d))
    else if d.negative then Int(-Min(n, -INT64_MIN))
    else Read(Min(n, UINT64_MAX))
  }

  ghost function ValueOf(d: Doc, config: Config): Json
    requires Good(d, config)
    decreases d, 1
  {
    match d
    case NullDoc => Null
    case BoolDoc(b) => Bool(b)
    case NumberDoc(_, _, _, _) => NumberValue(d)
    case StringDoc(units) => Str(Out(0, units, '"'))
    case ArrayDoc(_, items) => Held(d, |items|, config)
    case ObjectDoc(_, fields) => Held(d, |fields|, config)
  }

  /** The container with its first `n` parts; of fields with one name, the last one counts. */
  ghost function Held(d: Doc, n: nat, config: Config): (r: Json)
    requires Container(d) && n <= Count(d) && Good(d, config)
    ensures if d.ArrayDoc? then r.Array? else r.Object?
    decreases d, 0, n
  {
    if n == 0 then if d.ArrayDoc? then Array([]) else Object([])
    else
      var r := Held(d, n - 1, config);
      if d.ArrayDoc? then Array(r.items + [ValueOf(d.items[n - 1].doc, config)])
      else Object(Added(r.members, KeyOf(d, n - 1), ValueOf(d.fields[n - 1].doc, config)))
  }

  function Nesting(d: Doc): nat
    decreases d, 1
  {
    if Container(d) then MaxNesting(d, Count(d)) else 0
  }

  function MaxNesting(d: Doc, n: nat): nat
    requires Container(d) && n <= Count(d)
    decreases d, 0, n
  {
    if n == 0 then 0
    else
      var h, g := 1 + Nesting(if d.ArrayDoc? then d.items[n - 1].doc else d.fields[n - 1].doc), MaxNesting(d, n - 1);
      if h > g then h else g
  }

  // ---------- numbers ----------

  lemma {:induction false} BlankSkipped(m: Machine, s: Bytes, config: Config)
    requires m.mode.Ws? && Blank(s)
    ensures Fed(m, s, config) == Some(m)
    decreases |s|
  {
    if s != [] { BlankSkipped(m, s[1..], config); }
  }

  /** One byte of a number. */
  lemma NumberByte(m: Machine, c: char, config: Config)
    requires m.mode.Number? && Accepts(m.mode.scan, c) && c != '\0'
    ensures Fed(m, [c], config) == Some(m.(mode := Number(m.mode.text + [c], Scanned(m.mode.scan, c))))
  {
    var m1 := m.(mode := Number(m.mode.text + [c], Scanned(m.mode.scan, c)));
    assert Take(m, c, config) == AtNumber(m, c, config) == Go(m1);
    FedByte(m, c, m1, config);
  }

  /** What has been scanned: a number up to some digits. */
  ghost predicate Scanning(m1: Machine, m: Machine, text: Bytes, isDouble: bool, exponent: bool) {
    m1 == m.(mode := m1.mode) && m1.mode.Number? && m1.mode.text == text && m1.mode.scan.isDouble == isDouble &&
    m1.mode.scan.exponent == exponent && !m1.mode.scan.minusOk && !m1.mode.scan.plusOk
  }

  lemma WholeRead(m: Machine, d: Doc, config: Config) returns (m1: Machine)
    requires m.mode == Ws(Start) && d.NumberDoc? && NumberOk(d.whole, d.frac, d.exp)
    ensures var text := (if d.negative then "-" else []) + d.whole;
      Fed(m, text, config) == Some(m1) && Scanning(m1, m, text, false, false)
  {
    var m0 := m.(mode := NumberFrom([], false));
    var c := if d.negative then '-' else d.whole[0];
    var rest := if d.negative then d.whole else d.whole[1..];
    var n1 := m.(mode := Number([] + [c], Scanned(ScanFrom([], false), c)));
    StartByte(m, c, config);
    assert Take(m0, c, config) == AtNumber(m0, c, config) == Go(n1);
    FedByte(m, c, n1, config);
    m1 := DigitsRead(n1, rest, config);
    FedParts(m, [c], rest, n1, config);
    assert [c] + rest == (if d.negative then "-" else []) + d.whole && [] + [c] + rest == [c] + rest;
  }

  lemma FracRead(m: Machine, m0: Machine, text: Bytes, frac: Bytes, config: Config) returns (m1: Machine)
    requires Scanning(m0, m, text, false, false) && (frac != [] ==> frac[0] == '.' && AllDigits(frac[1..]))
    ensures Fed(m0, frac, config) == Some(m1) && Scanning(m1, m, text + frac, frac != [], false)
  {
    if frac == [] {
      m1 := m0;
      assert text + frac == text;
    } else {
      var n1 := m0.(mode := Number(text + ['.'], Scanned(m0.mode.scan, '.')));
      NumberByte(m0, '.', config);
      m1 := DigitsRead(n1, frac[1..], config);
      FedParts(m0, ['.'], frac[1..], n1, config);
      assert ['.'] + frac[1..] == frac && text + ['.'] + frac[1..] == text + frac;
    }
  }

  lemma ExpRead(m: Machine, m0: Machine, text: Bytes, isDouble: bool, exp: Bytes, config: Config)
    returns (m1: Machine)
    requires Scanning(m0, m, text, isDouble, false)
    requires exp != [] ==> (exp[0] == 'e' || exp[0] == 'E') && AllDigits(exp[ExpSign(exp)..])
    ensures Fed(m0, exp, config) == Some(m1) && Scanning(m1, m, text + exp, isDouble || exp != [], exp != [])
  {
    if exp == [] {
      m1 := m0;
      assert text + exp == text;
    } else {
      var n1 := m0.(mode := Number(text + [exp[0]], Scanned(m0.mode.scan, exp[0])));
      NumberByte(m0, exp[0], config);
      if ExpSign(exp) == 1 {
        m1 := DigitsRead(n1, exp[1..], config);
        FedParts(m0, [exp[0]], exp[1..], n1, config);
        assert [exp[0]] + exp[1..] == exp && text + [exp[0]] + exp[1..] == text + exp;
      } else {
        var n2 := m0.(mode := Number(text + [exp[0]] + [exp[1]], Scanned(n1.mode.scan, exp[1])));
        NumberByte(n1, exp[1], config);
        m1 := DigitsRead(n2, exp[2..], config);
        FedThree(m0, [exp[0]], [exp[1]], exp[2..], n1, n2, m1, config);
        assert [exp[0]] + [exp[1]] + exp[2..] == exp;
        assert text + [exp[0]] + [exp[1]] + exp[2..] == text + exp;
      }
    }
  }

  /** The value of a number that has been scanned to its end. */
  lemma NumberIs(d: Doc, config: Config)
    requires d.NumberDoc? && Good(d, config)
    ensures ParseNumber(NumberText(d), d.frac != [] || d.exp != [], config) == Parsed(NumberValue(d))
  {
    var text := NumberText(d);
    if d.frac != [] || d.exp != [] {
      LastIsDigit(d);
      assert Trimmed(text) == text;
    } else {
      LeadingAll(d.whole);
      if d.negative {
        assert text == "-" + d.whole && text[1..] == d.whole;
      } else {
        assert text == d.whole;
        if d.whole[0] == '0' { assert d.whole == "0" && d.whole[..0] == []; }
      }
    }
  }

  lemma LastIsDigit(d: Doc)
    requires d.NumberDoc? && NumberOk(d.whole, d.frac, d.exp)
    ensures var text := NumberText(d); text != [] && IsDigit(text[|text| - 1])
  {
    var text := NumberText(d);
    if d.exp != [] {
      assert text[|text| - 1] == d.exp[|d.exp| - 1] == d.exp[ExpSign(d.exp)..][|d.exp| - ExpSign(d.exp) - 1];
    } else if d.frac != [] {
      assert text[|text| - 1] == d.frac[|d.frac| - 1] == d.frac[1..][|d.frac| - 2];
    }
  }

  lemma ScanEnds(m1: Machine, m: Machine, text: Bytes, isDouble: bool, exponent: bool, v: Json, config: Config)
    requires Scanning(m1, m, text, isDouble, exponent) && ParseNumber(text, isDouble, config) == Parsed(v)
    ensures Like(m1, Complete(m, v), config)
  {
    var e := Complete(m, v);
    forall c | Follows(c, e)
      ensures Take(m1, c, config) == Take(e, c, config)
    {
      assert Take(m1, c, config) == AtNumber(m1, c, config);
      assert Complete(m1, v) == e;
    }
  }

  lemma NumberRead(m: Machine, d: Doc, config: Config) returns (m1: Machine)
    requires m.mode == Ws(Start) && d.NumberDoc? && Good(d, config)
    ensures Fed(m, Render(d), config) == Some(m1) && Like(m1, Complete(m, NumberValue(d)), config)
  {
    var whole := (if d.negative then "-" else []) + d.whole;
    var a := WholeRead(m, d, config);
    var b := FracRead(m, a, whole, d.frac, config);
    m1 := ExpRead(m, b, whole + d.frac, d.frac != [], d.exp, config);
    FedThree(m, whole, d.frac, d.exp, a, b, m1, config);
    NumberIs(d, config);
    ScanEnds(m1, m, NumberText(d), d.frac != [] || d.exp != [], d.exp != [], NumberValue(d), config);
  }

  // ---------- arrays and objects ----------

  /** The machine inside the container of which `n` parts have been read. */
  ghost function Holding(m: Machine, d: Doc, n: nat, mode: Mode, config: Config): Machine
    requires Container(d) && n <= Count(d) && Good(d, config)
  {
    m.(current := Held(d, n, config), mode := mode)
  }

  /** Where part `i` may begin, and where its value may. */
  function PartMode(d: Doc, i: nat): Mode {
    Ws(if d.ArrayDoc? then if i == 0 then FirstItem else NextItem else if i == 0 then FirstField else NextField)
  }

  ghost function ValueMode(d: Doc, i: nat, config: Config): Mode
    requires Container(d) && i < Count(d) && Good(d, config)
  {
    if d.ArrayDoc? then PartMode(d, i) else Ws(FieldValue(KeyOf(d, i)))
  }

  function EndMode(d: Doc): Mode { Ws(if d.ArrayDoc? then ItemEnd else ValueEnd) }

  /** The level on which the value of part `i` is read. */
  ghost function Inner(m: Machine, d: Doc, i: nat, config: Config): Machine
    requires Container(d) && i < Count(d) && Good(d, config)
  {
    var r := Held(d, i, config);
    Pushed(m, if d.ArrayDoc? then ArrayFrame(r.items) else ObjectFrame(r.members, KeyOf(d, i)))
  }

  /** No part has been read, or what comes next is taken as after the last part. */
  ghost predicate AfterParts(x: Machine, m: Machine, d: Doc, n: nat, config: Config)
    requires Container(d) && n <= Count(d) && Good(d, config)
  {
    if n == 0 then x == Holding(m, d, 0, PartMode(d, 0), config)
    else
      forall c :: c in {',', ']', '}'} ==>
        Take(x, c, config) == Take(Holding(m, d, n, EndMode(d), config), c, config)
  }

  lemma CommaRead(x: Machine, m: Machine, d: Doc, n: nat, config: Config)
    requires Container(d) && n < Count(d) && Good(d, config) && AfterParts(x, m, d, n, config)
    ensures Fed(x, if n == 0 then [] else ",", config) == Some(Holding(m, d, n, PartMode(d, n), config))
  {
    if n > 0 {
      var e, l := Holding(m, d, n, EndMode(d), config), Holding(m, d, n, PartMode(d, n), config);
      var at := e.(mode := Exactly(e.mode.place));
      assert Take(x, ',', config) == Take(e, ',', config) == Take(at, ',', config);
      assert Take(at, ',', config) == AtPlace(at, e.mode.place, ',', config) == Go(l);
      FedByte(x, ',', l, config);
    }
  }

  /** The name of a field between its quotes. */
  lemma NameQuoted(l: Machine, units: seq<Unit>, config: Config)
    requires (l.mode == Ws(FirstField) || l.mode == Ws(NextField)) && l.high == 0 && ValidUnits(units, '"')
    ensures Fed(l, "\"" + Source(units) + "\"", config) ==
      Some(l.(mode := Ws(FieldEnd(CString(Out(0, units, '"'))))))
  {
    var at := l.(mode := Exactly(l.mode.place));
    var q, out := Quoting(true, '"'), Out(0, units, '"');
    var t0, t1 := InText(l, q, [], 0), InText(l, q, out, 0);
    assert Take(l, '"', config) == Take(at, '"', config);
    assert Take(at, '"', config) == AtPlace(at, l.mode.place, '"', config) == AtField(at, '"', config);
    FedByte(l, '"', t0, config);
    UnitsRead(l, q, [], 0, units, config);
    assert [] + out == out;
    assert Take(t1, '"', config) == AtText(t1, '"');
    FedByte(t1, '"', l.(mode := Ws(FieldEnd(CString(out)))), config);
    FedParts(l, "\"", Source(units) + "\"", t0, config);
    Regroup("\"", Source(units), "\"");
  }

  lemma ColonTaken(e: Machine, key: Bytes, config: Config)
    requires e.mode == Ws(FieldEnd(key))
    ensures Fed(e, ":", config) == Some(e.(mode := Ws(FieldValue(key))))
  {
    var at := e.(mode := Exactly(FieldEnd(key)));
    assert Take(e, ':', config) == Take(at, ':', config) == AtPlace(at, FieldEnd(key), ':', config);
    FedByte(e, ':', e.(mode := Ws(FieldValue(key))), config);
  }

  /** White space before a part, and the name and colon of a field. */
  lemma LeadTaken(m: Machine, d: Doc, i: nat, config: Config)
    requires Container(d) && i < Count(d) && Good(d, config) && m.high == 0
    ensures Fed(Holding(m, d, i, PartMode(d, i), config), Lead(d, i), config) ==
      Some(Holding(m, d, i, ValueMode(d, i, config), config))
  {
    var l := Holding(m, d, i, PartMode(d, i), config);
    BlankSkipped(l, Before(d, i), config);
    if d.ArrayDoc? {
      assert Before(d, i) + [] == Before(d, i);
    } else {
      var f := d.fields[i];
      var name := "\"" + Source(f.name) + "\"";
      var e, v := l.(mode := Ws(FieldEnd(KeyOf(d, i)))), l.(mode := Ws(FieldValue(KeyOf(d, i))));
      NameQuoted(l, f.name, config);
      BlankSkipped(e, f.colon, config);
      ColonTaken(e, KeyOf(d, i), config);
      BlankSkipped(v, f.beforeValue, config);
      FedThree(l, name, f.colon, ":", e, e, v, config);
      FedParts(l, name + f.colon + ":", f.beforeValue, v, config);
      FedParts(l, f.before, Name(d, i), l, config);
    }
  }

  /** The first byte of a document starts a value wherever one may start. */
  lemma FirstOf(d: Doc, config: Config)
    requires Good(d, config)
    ensures var text := Render(d);
      text != [] && !IsSpace(text[0]) && text[0] != '/' && text[0] != ']' && text[0] != '}' && text[0] != '\0'
  {
  }

  /** The value of a part is read on a level of its own. */
  lemma OnInner(m: Machine, d: Doc, i: nat, text: Bytes, config: Config)
    requires Container(d) && i < Count(d) && Good(d, config) && Depth(m) + 1 < config.maxDepth && text != []
    requires !IsSpace(text[0]) && text[0] != '/' && text[0] != ']' && text[0] != '}'
    ensures Fed(Holding(m, d, i, ValueMode(d, i, config), config), text, config) ==
      Fed(Inner(m, d, i, config), text, config)
  {
    var l := Holding(m, d, i, ValueMode(d, i, config), config);
    var at := l.(mode := Exactly(l.mode.place));
    var c := text[0];
    assert Take(l, c, config) == Take(at, c, config) == AtPlace(at, l.mode.place, c, config);
    if d.ArrayDoc? { assert AtPlace(at, l.mode.place, c, config) == AtItem(at, l.mode.place, c, config); }
  }

  /** After the value, and the white space behind it, the part is in its container. */
  lemma PartEnds(m: Machine, d: Doc, i: nat, m1: Machine, config: Config) returns (x: Machine)
    requires Container(d) && i < Count(d) && Good(d, config) && Good(Part(d, i), config)
    requires Like(m1, Complete(Inner(m, d, i, config), ValueOf(Part(d, i), config)), config)
    ensures Fed(m1, After(d, i), config) == Some(x) && AfterParts(x, m, d, i + 1, config)
  {
    var e := Complete(Inner(m, d, i, config), ValueOf(Part(d, i), config));
    var at, p, after := e.(mode := Exactly(Finish)), Holding(m, d, i + 1, EndMode(d), config), After(d, i);
    PopIs(m, d, i, config);
    forall c | c in {',', ']', '}'}
      ensures Take(e, c, config) == Take(p, c, config)
    {
      assert Take(e, c, config) == Take(at, c, config) == AtPlace(at, Finish, c, config) == Take(Popped(at), c, config);
    }
    if after == [] {
      x := m1;
      assert forall c :: c in {',', ']', '}'} ==> Follows(c, e);
    } else {
      x := e;
      BlankSkipped(e, after, config);
      assert Follows(after[0], e) && Take(m1, after[0], config) == Take(e, after[0], config);
    }
  }

  lemma PopIs(m: Machine, d: Doc, i: nat, config: Config)
    requires Container(d) && i < Count(d) && Good(d, config) && Good(Part(d, i), config)
    ensures var at := Complete(Inner(m, d, i, config), ValueOf(Part(d, i), config)).(mode := Exactly(Finish));
      Depth(at) > 0 && Popped(at) == Holding(m, d, i + 1, EndMode(d), config)
  {
    var f := if d.ArrayDoc? then ArrayFrame(Held(d, i, config).items)
      else ObjectFrame(Held(d, i, config).members, KeyOf(d, i));
    assert (m.frames + [f])[..|m.frames|] == m.frames;
  }

  /** There is room for the level of a part. */
  lemma {:induction false} PartFits(d: Doc, n: nat, i: nat)
    requires Container(d) && i < n <= Count(d)
    ensures MaxNesting(d, n) >= 1 + Nesting(Part(d, i))
  {
    if i < n - 1 { PartFits(d, n - 1, i); }
  }

  /** A document is read as the value it stands for, whatever its white space. */
  lemma {:induction false} DocRead(m: Machine, d: Doc, config: Config) returns (m1: Machine)
    requires m.mode == Ws(Start) && m.current == Null && m.high == 0 && Good(d, config)
    requires Depth(m) + 1 + Nesting(d) <= config.maxDepth
    ensures Fed(m, Render(d), config) == Some(m1) && Like(m1, Complete(m, ValueOf(d, config)), config)
    decreases d, 1, 0
  {
    match d
    case NullDoc => m1 := NullRead(m, config);
    case BoolDoc(b) => m1 := BoolRead(m, b, config);
    case NumberDoc(_, _, _, _) => m1 := NumberRead(m, d, config);
    case StringDoc(units) =>
      LiteralRead(m, units, config);
      m1 := Complete(m, ValueOf(d, config));
    case _ => m1 := ContainerTaken(m, d, config);
  }

  lemma {:induction false} ContainerTaken(m: Machine, d: Doc, config: Config) returns (m1: Machine)
    requires m.mode == Ws(Start) && m.current == Null && m.high == 0 && Good(d, config) && Container(d)
    requires Depth(m) + 1 + Nesting(d) <= config.maxDepth
    ensures Fed(m, Render(d), config) == Some(m1) && m1 == Complete(m, ValueOf(d, config))
    decreases d, 0, Count(d) + 1
  {
    var o := Holding(m, d, 0, PartMode(d, 0), config);
    StartByte(m, Open(d)[0], config);
    FedByte(m, Open(d)[0], o, config);
    m1 := Complete(m, ValueOf(d, config));
    var inside := if Count(d) == 0 then d.blank else Parts(d, Count(d));
    var x := o;
    if Count(d) == 0 {
      BlankSkipped(o, inside, config);
    } else {
      x := PartsRead(m, d, Count(d), config);
    }
    Closed(x, m, d, config);
    FedThree(m, Open(d), inside, Close(d), o, x, m1, config);
  }

  lemma Closed(x: Machine, m: Machine, d: Doc, config: Config)
    requires Container(d) && Good(d, config) && AfterParts(x, m, d, Count(d), config)
    ensures Fed(x, Close(d), config) == Some(Complete(m, ValueOf(d, config)))
  {
    var c := Close(d)[0];
    var e := Holding(m, d, Count(d), if Count(d) == 0 then PartMode(d, 0) else EndMode(d), config);
    var at := e.(mode := Exactly(e.mode.place));
    assert Take(x, c, config) == Take(e, c, config) == Take(at, c, config);
    assert Take(at, c, config) == AtPlace(at, e.mode.place, c, config);
    FedByte(x, c, Complete(m, ValueOf(d, config)), config);
  }

  lemma InnerFits(m: Machine, d: Doc, i: nat, config: Config)
    requires m.high == 0 && Container(d) && i < Count(d) && Good(d, config)
    requires Depth(m) + 1 + Nesting(d) <= config.maxDepth
    ensures var o, p := Inner(m, d, i, config), Part(d, i);
      o.mode == Ws(Start) && o.current == Null && o.high == 0 && Good(p, config) &&
      Depth(o) + 1 + Nesting(p) <= config.maxDepth && Depth(m) + 1 < config.maxDepth
  {
    PartFits(d, Count(d), i);
  }

  /** A part, with what stands before and after its value. */
  lemma PartRead(m: Machine, d: Doc, i: nat, x0: Machine, m1: Machine, config: Config) returns (x: Machine)
    requires m.high == 0 && Container(d) && i < Count(d) && Good(d, config) && Good(Part(d, i), config)
    requires Depth(m) + 1 < config.maxDepth && AfterParts(x0, m, d, i, config)
    requires Fed(Inner(m, d, i, config), Render(Part(d, i)), config) == Some(m1)
    requires Like(m1, Complete(Inner(m, d, i, config), ValueOf(Part(d, i), config)), config)
    ensures Fed(x0, (if i == 0 then [] else ",") + (Lead(d, i) + Render(Part(d, i)) + After(d, i)), config) == Some(x)
    ensures AfterParts(x, m, d, i + 1, config)
  {
    var l, v := Holding(m, d, i, PartMode(d, i), config), Holding(m, d, i, ValueMode(d, i, config), config);
    CommaRead(x0, m, d, i, config);
    LeadTaken(m, d, i, config);
    FirstOf(Part(d, i), config);
    OnInner(m, d, i, Render(Part(d, i)), config);
    x := PartEnds(m, d, i, m1, config);
    FedThree(l, Lead(d, i), Render(Part(d, i)), After(d, i), v, m1, x, config);
    FedParts(x0, if i == 0 then [] else ",", Lead(d, i) + Render(Part(d, i)) + After(d, i), l, config);
  }

  lemma PartsJoined(o: Machine, x0: Machine, d: Doc, i: nat, x: Machine, config: Config)
    requires Container(d) && i < Count(d) && Fed(o, Parts(d, i), config) == Some(x0)
    requires Fed(x0, (if i == 0 then [] else ",") + (Lead(d, i) + Render(Part(d, i)) + After(d, i)), config) == Some(x)
    ensures Fed(o, Parts(d, i + 1), config) == Some(x)
  {
    var comma, part := if i == 0 then [] else ",", Lead(d, i) + Render(Part(d, i)) + After(d, i);
    FedParts(o, Parts(d, i), comma + part, x0, config);
    Regroup(Parts(d, i), comma, part);
  }

  lemma {:induction false} PartsRead(m: Machine, d: Doc, n: nat, config: Config) returns (x: Machine)
    requires m.mode == Ws(Start) && m.high == 0 && Container(d) && n <= Count(d) && Good(d, config)
    requires Depth(m) + 1 + Nesting(d) <= config.maxDepth
    ensures Fed(Holding(m, d, 0, PartMode(d, 0), config), Parts(d, n), config) == Some(x)
    ensures AfterParts(x, m, d, n, config)
    decreases d, 0, n
  {
    var o := Holding(m, d, 0, PartMode(d, 0), config);
    if n == 0 {
      x := o;
    } else {
      var i := n - 1;
      var x0 := PartsRead(m, d, i, config);
      InnerFits(m, d, i, config);
      var m1 := DocRead(Inner(m, d, i, config), Part(d, i), config);
      x := PartRead(m, d, i, x0, m1, config);
      PartsJoined(o, x0, d, i, x, config);
    }
  }

  // ---------- whole texts ----------

  /** Every text of the grammar, with white space around it, is parsed as the value it stands for, in every mode,
      if its nesting leaves one level of the stack free. */
  lemma GrammarParsed(d: Doc, before: Bytes, after: Bytes, config: Config)
    requires Good(d, config) && Blank(before) && Blank(after) && Nesting(d) < config.maxDepth
    requires Passes(before + Render(d) + after, config)
    ensures var text := before + Render(d) + after;
      Parse(INIT, text + "\0", config) == Result.Value(ValueOf(d, config), |text|, INIT)
  {
    var text, e := before + Render(d) + after, Complete(INIT, ValueOf(d, config));
    var s := text + "\0";
    var at := e.(mode := Exactly(Finish));
    BlankSkipped(INIT, before, config);
    var m1 := DocRead(INIT, d, config);
    var m2 := if after == [] then m1 else e;
    BlankSkipped(e, after, config);
    if after != [] {
      assert Follows(after[0], e) && Take(m1, after[0], config) == Take(e, after[0], config);
    }
    FedThree(INIT, before, Render(d), after, INIT, m1, m2, config);
    assert s[..|text|] == text && s[|text|] == '\0';
    FedStart(INIT, s, |text|, m2, config);
    ParseAt(m2, s, |text|, 0, config);
    assert Follows('\0', e) && Take(m2, '\0', config) == Take(e, '\0', config) == Take(at, '\0', config);
    assert Take(at, '\0', config) == AtPlace(at, Finish, '\0', config) == Done(at);
  }
}
