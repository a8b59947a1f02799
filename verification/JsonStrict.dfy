/** What the tokener takes beyond the grammar, and that strict mode takes it no more. */
module JsonStrict {
  import opened Options
  import opened Sequences
  import opened Json
  import opened JsonFeed
  import opened JsonMachine
  import opened JsonRoundTrip
  import opened JsonStrings
  import opened JsonGrammar

  /** isspace: the white space of the grammar, and vertical tab and form feed. */
  lemma SpaceIs(c: char)
    ensures IsSpace(c) <==> c in {' ', '\t', '\n', '\r', '\U{000B}', '\U{000C}'}
  {
  }

  /** The text ends after a value that is complete. */
  lemma EndOfText(m: Machine, s: Bytes, i: nat, m1: Machine, v: Json, config: Config)
    requires i + 1 == |s| && s[i] == '\0' && Fed(m, s[..i], config) == Some(m1) && Passes(s[..i], config)
    requires m.frames == [] && m.lost == 0 && Take(m1, '\0', config) == Take(Complete(m, v), '\0', config)
    ensures Parse(m, s, config) == Result.Value(v, i, Machine([], Null, Ws(Start), m.high, 0))
  {
    var at := Complete(m, v).(mode := Exactly(Finish));
    FedStart(m, s, i, m1, config);
    ParseAt(m1, s, i, 0, config);
    assert Take(Complete(m, v), s[i], config) == Take(at, s[i], config);
    assert Take(at, s[i], config) == AtPlace(at, Finish, s[i], config) == Done(at);
  }

  /** The first byte, or the first after what has been taken, is an error. */
  lemma FailsAt(m: Machine, s: Bytes, i: nat, m1: Machine, e: Error, config: Config)
    requires i < |s| && Fed(m, s[..i], config) == Some(m1) && Passes(s[..i], config) && 0 < s[i] as int < 0x80
    requires var o := Take(m1, s[i], config); o.Fail? && o.e == e && o.m.mode != Exactly(Finish)
    requires e != Success && e != Continue
    ensures Parse(m, s, config) == Result.Error(e, i)
  {
    FedStart(m, s, i, m1, config);
    ParseAt(m1, s, i, 0, config);
  }

  // ---------- a comma at the end ----------

  lemma CommaLast(m: Machine, d: Doc, x: Machine, blank: Bytes, config: Config)
    requires Container(d) && Count(d) > 0 && Good(d, config) && Blank(blank)
    requires AfterParts(x, m, d, Count(d), config)
    ensures var l := Holding(m, d, Count(d), Ws(if d.ArrayDoc? then NextItem else NextField), config);
      Fed(x, "," + blank, config) == Some(l) &&
      Take(l, Close(d)[0], config) ==
        if config.strict then Fail(l.(mode := Exactly(l.mode.place)), Unexpected)
        else Go(Complete(m, ValueOf(d, config)))
  {
    var e := Holding(m, d, Count(d), EndMode(d), config);
    var l := e.(mode := Ws(if d.ArrayDoc? then NextItem else NextField));
    var at, next, c := e.(mode := Exactly(e.mode.place)), l.(mode := Exactly(l.mode.place)), Close(d)[0];
    assert Take(x, ',', config) == Take(e, ',', config) == Take(at, ',', config);
    assert Take(at, ',', config) == AtPlace(at, e.mode.place, ',', config) == Go(l);
    FedByte(x, ',', l, config);
    BlankSkipped(l, blank, config);
    FedParts(x, ",", blank, l, config);
    assert Take(l, c, config) == Take(next, c, config) == AtPlace(next, l.mode.place, c, config);
    if d.ObjectDoc? { assert AtPlace(next, l.mode.place, c, config) == AtField(next, c, config); }
  }

  /** A comma before the closing bracket of an array or object is an error in strict mode, and makes no difference
      otherwise. */
  lemma TrailingComma(d: Doc, blank: Bytes, config: Config)
    requires Container(d) && Count(d) > 0 && Good(d, config) && Blank(blank) && Nesting(d) < config.maxDepth
    requires Passes(Open(d) + Parts(d, Count(d)) + ("," + blank) + Close(d), config)
    ensures var text := Open(d) + Parts(d, Count(d)) + ("," + blank) + Close(d);
      Parse(INIT, text + "\0", config) ==
        if config.strict then Result.Error(Unexpected, |text| - 1) else Result.Value(ValueOf(d, config), |text|, INIT)
  {
    var o, parts := Holding(INIT, d, 0, PartMode(d, 0), config), Parts(d, Count(d));
    var text := Open(d) + parts + ("," + blank) + Close(d);
    var s, i := text + "\0", |text| - 1;
    StartByte(INIT, Open(d)[0], config);
    FedByte(INIT, Open(d)[0], o, config);
    var x := PartsRead(INIT, d, Count(d), config);
    CommaLast(INIT, d, x, blank, config);
    var l := Fed(x, "," + blank, config).value;
    FedThree(INIT, Open(d), parts, "," + blank, o, x, l, config);
    var head := Open(d) + parts + ("," + blank);
    assert s[..i] == head && s[i] == Close(d)[0] && s[..i + 1] == text;
    assert text == head + [Close(d)[0]] + [];
    PassesUpTo(head, Close(d)[0], [], config);
    if config.strict {
      FailsAt(INIT, s, i, l, Unexpected, config);
    } else {
      var e := Complete(INIT, ValueOf(d, config));
      FedByte(l, Close(d)[0], e, config);
      FedParts(INIT, head, Close(d), l, config);
      EndOfText(INIT, s, i + 1, e, ValueOf(d, config), config);
    }
  }

  // ---------- comments ----------

  lemma {:induction false} CommentBody(m: Machine, p: Place, body: Bytes, config: Config)
    requires m.mode == Comment(p) && forall i :: 0 <= i < |body| ==> body[i] != '*' && body[i] != '\0'
    ensures Fed(m, body, config) == Some(m)
    decreases |body|
  {
    if body != [] { CommentBody(m, p, body[1..], config); }
  }

  /** A comment before a document is an error in strict mode, and makes no difference otherwise. */
  lemma CommentBefore(d: Doc, body: Bytes, config: Config)
    requires Good(d, config) && Nesting(d) < config.maxDepth
    requires forall i :: 0 <= i < |body| ==> body[i] != '*' && body[i] != '\0'
    requires Passes("/*" + body + "*/" + Render(d), config)
    ensures var text := "/*" + body + "*/" + Render(d);
      Parse(INIT, text + "\0", config) ==
        if config.strict then Result.Error(Unexpected, 0) else Result.Value(ValueOf(d, config), |text|, INIT)
  {
    var text := "/*" + body + "*/" + Render(d);
    var s := text + "\0";
    assert s[..0] == [] && s[0] == '/';
    if config.strict {
      var at := INIT.(mode := Exactly(Start));
      assert Take(INIT, '/', config) == Take(at, '/', config) == AtPlace(at, Start, '/', config);
      FailsAt(INIT, s, 0, INIT, Unexpected, config);
    } else {
      var c0, c1, c2 := INIT.(mode := CommentStart(Start)), INIT.(mode := Comment(Start)),
        INIT.(mode := CommentEnd(Start));
      FedByte(INIT, '/', c0, config);
      FedByte(c0, '*', c1, config);
      FedParts(INIT, "/", "*", c0, config);
      CommentBody(c1, Start, body, config);
      FedByte(c1, '*', c2, config);
      FedByte(c2, '/', INIT, config);
      FedParts(c1, "*", "/", c2, config);
      assert "/" + "*" == "/*" && "*" + "/" == "*/";
      FedThree(INIT, "/*", body, "*/", c1, c1, INIT, config);
      var m1 := DocRead(INIT, d, config);
      FedParts(INIT, "/*" + body + "*/", Render(d), INIT, config);
      assert s[..|text|] == text && s[|text|] == '\0';
      assert Follows('\0', Complete(INIT, ValueOf(d, config)));
      EndOfText(INIT, s, |text|, m1, ValueOf(d, config), config);
    }
  }

  // ---------- single quotes ----------

  /** A string in single quotes is an error in strict mode, and a string otherwise. */
  lemma SingleQuotes(units: seq<Unit>, config: Config)
    requires ValidUnits(units, '\'') && config.maxDepth > 0 && Passes("'" + Source(units) + "'", config)
    ensures var text := "'" + Source(units) + "'";
      Parse(INIT, text + "\0", config) ==
        if config.strict then Result.Error(Unexpected, 0)
        else Result.Value(Str(Out(0, units, '\'')), |text|, INIT)
  {
    var text := "'" + Source(units) + "'";
    var s := text + "\0";
    assert s[..0] == [] && s[0] == '\'';
    StartByte(INIT, '\'', config);
    if config.strict {
      FailsAt(INIT, s, 0, INIT, Unexpected, config);
    } else {
      var q, out := Quoting(false, '\''), Out(0, units, '\'');
      var t0, t1, e := InText(INIT, q, [], 0), InText(INIT, q, out, 0), Complete(INIT, Str(out));
      FedByte(INIT, '\'', t0, config);
      UnitsRead(INIT, q, [], 0, units, config);
      assert [] + out == out;
      assert Take(t1, '\'', config) == AtText(t1, '\'');
      FedByte(t1, '\'', e, config);
      FedParts(INIT, "'", Source(units) + "'", t0, config);
      Regroup("'", Source(units), "'");
      assert s[..|text|] == text;
      EndOfText(INIT, s, |text|, e, Str(out), config);
    }
  }

  // ---------- leading zeros ----------

  lemma ZeroValue(text: Bytes, config: Config)
    requires AllDigits(text) && text[0] == '0' && NumberOf(text) > 0
    ensures ParseNumber(text, false, config) ==
      if config.strict then NoNumber else Parsed(Read(Min(NumberOf(text), UINT64_MAX)))
  {
    LeadingAll(text);
  }

  /** A zero before the digits of a positive integer is an error in strict mode, and makes no difference
      otherwise. */
  lemma LeadingZero(digits: Bytes, config: Config)
    requires AllDigits("0" + digits) && NumberOf("0" + digits) > 0 && config.maxDepth > 0
    ensures var text := "0" + digits;
      Parse(INIT, text + " \0", config) ==
        if config.strict then Result.Error(NotNumber, |text|)
        else Result.Value(Read(Min(NumberOf(text), UINT64_MAX)), |text| + 1, INIT)
  {
    var text := "0" + digits;
    var s := text + " \0";
    var m0, n1 := INIT.(mode := NumberFrom([], false)),
      INIT.(mode := Number([] + ['0'], Scanned(ScanFrom([], false), '0')));
    StartByte(INIT, '0', config);
    assert Take(m0, '0', config) == AtNumber(m0, '0', config) == Go(n1);
    FedByte(INIT, '0', n1, config);
    assert text[1..] == digits;
    var m1 := DigitsRead(n1, digits, config);
    FedParts(INIT, "0", digits, n1, config);
    assert [] + ['0'] + digits == text;
    ZeroValue(text, config);
    AsciiPasses(text, config);
    assert s[..|text|] == text && s[|text|] == ' ';
    if config.strict {
      assert Take(m1, ' ', config) == AtNumber(m1, ' ', config);
      FailsAt(INIT, s, |text|, m1, NotNumber, config);
    } else {
      var v := Read(Min(NumberOf(text), UINT64_MAX));
      var e := Complete(INIT, v);
      ScanEnds(m1, INIT, text, false, false, v, config);
      assert Follows(' ', e) && Take(m1, ' ', config) == Take(e, ' ', config) == Go(e);
      FedByte(m1, ' ', e, config);
      FedParts(INIT, text, " ", m1, config);
      AsciiPasses(text + " ", config);
      assert s[..|text| + 1] == text + " ";
      EndOfText(INIT, s, |text| + 1, e, v, config);
    }
  }
}
