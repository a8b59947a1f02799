/** A text that is parsed in pieces, one call for each, gives what one call on the whole text gives. */
module JsonChunks {
  import opened Options
  import opened Json
  import opened JsonFeed
  import opened JsonMachine

  // ---------- what every byte keeps ----------

  /** The scan of a number agrees with its text: exponent or not, and a call that has read nothing of it
      has just made its scan anew. */
  ghost predicate Steady(mode: Mode) {
    mode.Number? ==>
      mode.scan.exponent == HasE(mode.text) && mode.scan.run <= |mode.text| &&
        (mode.scan.run == 0 ==> mode == NumberFrom(mode.text, mode.scan.isDouble))
  }

  /** No byte leaves the machine in the middle of a step, and no error is taken for success. */
  ghost predicate Sound(m0: Machine, o: Outcome) {
    match o
    case Go(m) => Steady(m.mode) && !m.mode.Exactly? && m.lost <= m0.lost
    case Done(m) => true
    case Fail(m, e) => e != Success && e != Continue
  }

  lemma {:induction false} TakeSound(m: Machine, c: char, config: Config)
    requires Steady(m.mode)
    ensures Sound(m, Take(m, c, config))
    decreases m.lost, ModeRank(m.mode), 1
  {
    match m.mode
    case Ws(p) => if !IsSpace(c) && (c != '/' || config.strict) { TakeSound(m.(mode := Exactly(p)), c, config); }
    case Exactly(p) => PlaceSound(m, p, c, config);
    case InfWord(negative, pos) =>
      assert Take(m, c, config) == AtInf(m, c, config);
      if pos >= 8 { TakeSound(Complete(m, Infinity(negative)), c, config); }
    case NullWord(text) =>
      assert Take(m, c, config) == AtNull(m, c, config);
      TakeSound(Complete(m, Null), c, config);
      TakeSound(Complete(m, NaN), c, config);
    case BoolWord(text) =>
      assert Take(m, c, config) == AtBool(m, c, config);
      TakeSound(Complete(m, Bool(true)), c, config);
      TakeSound(Complete(m, Bool(false)), c, config);
    case Number(text, n) => NumberSound(m, c, config);
    case Text(q, text) => assert Take(m, c, config) == AtText(m, c);
    case Escaped(q, text) => assert Take(m, c, config) == AtEscaped(m, c);
    case Unicode(q, text, digits, ucs) => assert Take(m, c, config) == AtUnicode(m, c);
    case NeedEscape(q, text) => TakeSound(m.(mode := Text(q, text + REPLACEMENT), high := 0), c, config);
    case NeedU(q, text) => TakeSound(m.(mode := Escaped(q, text + REPLACEMENT), high := 0), c, config);
    case _ =>
  }

  lemma {:induction false} PlaceSound(m: Machine, p: Place, c: char, config: Config)
    requires m.mode == Exactly(p)
    ensures Sound(m, Take(m, c, config))
    decreases m.lost, ModeRank(m.mode), 0
  {
    assert Take(m, c, config) == AtPlace(m, p, c, config);
    match p
    case Start =>
      assert AtPlace(m, p, c, config) == AtStart(m, c, config);
      TakeSound(m.(mode := InfWord(false, 0)), c, config);
      TakeSound(m.(mode := NullWord([])), c, config);
      TakeSound(m.(mode := BoolWord([])), c, config);
      TakeSound(m.(mode := NumberFrom([], false)), c, config);
    case Finish => if Depth(m) > 0 { TakeSound(Popped(m), c, config); }
    case FirstItem => TakeSound(Pushed(m, ArrayFrame(ItemsOf(m.current))), c, config);
    case NextItem => TakeSound(Pushed(m, ArrayFrame(ItemsOf(m.current))), c, config);
    case FieldValue(key) => TakeSound(Pushed(m, ObjectFrame(MembersOf(m.current), key)), c, config);
    case _ =>
  }

  lemma {:induction false} NumberSound(m: Machine, c: char, config: Config)
    requires m.mode.Number? && Steady(m.mode)
    ensures Sound(m, Take(m, c, config))
    decreases m.lost, ModeRank(m.mode), 0
  {
    var text, n := m.mode.text, m.mode.scan;
    assert Take(m, c, config) == AtNumber(m, c, config);
    if Accepts(n, c) {
      assert forall d :: d in text + [c] <==> d in text || d == c;
    } else {
      TakeSound(m.(mode := InfWord(true, 0)), c, config);
      match ParseNumber(text, n.isDouble, config)
      case Parsed(v) => TakeSound(Complete(m, v), c, config);
      case NoNumber =>
    }
  }

  // ---------- numbers that are scanned anew ----------

  /** Equal but for how far the number loop has run. */
  ghost predicate SameButRun(m1: Machine, m2: Machine) {
    m1.mode.Number? && m2.mode.Number? && m1.mode.text != [] &&
    m2 == m1.(mode := m1.mode.(scan := m1.mode.scan.(run := m2.mode.scan.run)))
  }

  /** ... where that makes no difference any more. */
  ghost predicate Near(m1: Machine, m2: Machine) {
    m1 == m2 || (SameButRun(m1, m2) && (m1.mode.text[0] != '-' || (m1.mode.scan.run > 1 && m2.mode.scan.run > 1)))
  }

  /** Outcomes after which a parse goes on alike. */
  ghost predicate Alike(o1: Outcome, o2: Outcome) {
    o1 == o2 || (o1.Go? && o2.Go? && Near(o1.m, o2.m)) ||
    (o1.Fail? && o2.Fail? && o1.e == o2.e == NotNumber && o1.m.mode.Number? && o2.m.mode.Number?)
  }

  lemma RunStep(m1: Machine, m2: Machine, c: char, config: Config)
    requires SameButRun(m1, m2) && (Near(m1, m2) || (c !in ['i', 'I'] && m1.mode.scan.run > 0 && m2.mode.scan.run > 0))
    ensures Alike(Take(m1, c, config), Take(m2, c, config))
  {
    assert Take(m1, c, config) == AtNumber(m1, c, config);
    assert Take(m2, c, config) == AtNumber(m2, c, config);
    var v := ParseNumber(m1.mode.text, m1.mode.scan.isDouble, config);
    assert v.Parsed? ==> Complete(m1, v.value) == Complete(m2, v.value);
    assert m1.(mode := InfWord(true, 0)) == m2.(mode := InfWord(true, 0));
  }

  lemma {:induction false} AlikeParse(m1: Machine, m2: Machine, s: Bytes, i: nat, left: nat, config: Config)
    requires i < |s| && m1.mode.Number? && m2.mode.Number?
    requires Alike(Take(m1, s[i], config), Take(m2, s[i], config))
    ensures ParseFrom(m1, s, i, left, config) == ParseFrom(m2, s, i, left, config)
    decreases |s| - i, 0
  {
    var o1, o2 := Take(m1, s[i], config), Take(m2, s[i], config);
    ParseAt(m1, s, i, left, config);
    ParseAt(m2, s, i, left, config);
    if o1.Go? && Seen(s[i], left, config).Left? {
      var n := Seen(s[i], left, config).n;
      assert AfterPeek(m1, s, i, n, config) == AfterGo(o1.m, s, i, n, config);
      assert AfterPeek(m2, s, i, n, config) == AfterGo(o2.m, s, i, n, config);
      NearParse(o1.m, o2.m, s, i + 1, n, config);
    }
  }

  /** From byte `i` on, both machines give the same; what is kept of a number for the next call does not
      tell how far the loop has run. */
  lemma {:induction false} NearParse(m1: Machine, m2: Machine, s: Bytes, i: nat, left: nat, config: Config)
    requires Near(m1, m2) && i <= |s|
    ensures ParseFrom(m1, s, i, left, config) == ParseFrom(m2, s, i, left, config)
    decreases |s| - i, 1
  {
    if i < |s| && m1 != m2 {
      RunStep(m1, m2, s[i], config);
      AlikeParse(m1, m2, s, i, left, config);
    }
  }

  // ---------- when a cut matters ----------

  /** A value on top does not fall to a level that an earlier success has reset. */
  predicate Whole(m: Machine) { m.lost == 0 || m.frames != [] }

  /** The byte after the digits: the scan that has run on takes an i as the end of the number, a new one as
      the start of "-Infinity". Both complain alike if the text has to end there. */
  predicate InfinityDiffers(m: Machine, c: char, config: Config)
    requires m.mode.Number?
  {
    m.mode.text != [] && m.mode.text[0] == '-' && m.mode.scan.run > 1 && (c == 'i' || c == 'I') &&
    !(config.strict && c == 'i' && Depth(m) == 0 && !config.allowTrailing &&
      ParseNumber(m.mode.text, m.mode.scan.isDouble, config).Parsed?)
  }

  /** The machine after a byte that belongs to the number. */
  function Longer(m: Machine, c: char): Machine
    requires m.mode.Number?
  {
    m.(mode := Number(m.mode.text + [c], Scanned(m.mode.scan, c)))
  }

  /** A number is cut before `b`, and the scan that the next call makes anew does not go on as the running one
      would have: the two differ on whether the first byte belongs to the number, or on an infinity. */
  predicate CutMatters(m: Machine, b: Bytes, config: Config) {
    m.mode.Number? && b != [] &&
    (if Accepts(m.mode.scan, b[0]) != Accepts(Resumed(m).mode.scan, b[0]) then true
     else if Accepts(m.mode.scan, b[0]) then |b| > 1 && InfinityDiffers(Longer(m, b[0]), b[1], config)
     else InfinityDiffers(m, b[0], config))
  }

  lemma {:induction false} TakenAtLeast(m: Machine, s: Bytes, i: nat, left: nat, config: Config)
    requires i <= |s|
    ensures var r := ParseFrom(m, s, i, left, config); !r.More? ==> r.taken >= i
    decreases |s| - i
  {
    if i < |s| && Seen(s[i], left, config).Left? {
      var n, o := Seen(s[i], left, config).n, Take(m, s[i], config);
      ParseAt(m, s, i, left, config);
      if o.Go? {
        assert AfterPeek(m, s, i, n, config) == AfterGo(o.m, s, i, n, config);
        TakenAtLeast(o.m, s, i + 1, n, config);
      }
    }
  }

  /** A call that stops at an ASCII byte and one that takes it give different results. */
  lemma StopOrTake(m1: Machine, m2: Machine, s: Bytes, i: nat, config: Config)
    requires i < |s| && s[i] as int < 0x80 && Take(m1, s[i], config).Go? && !Take(m2, s[i], config).Go?
    requires Sound(m2, Take(m2, s[i], config))
    ensures ParseFrom(m1, s, i, 0, config) != ParseFrom(m2, s, i, 0, config)
  {
    var o := Take(m1, s[i], config);
    ParseAt(m1, s, i, 0, config);
    ParseAt(m2, s, i, 0, config);
    assert AfterPeek(m1, s, i, 0, config) == AfterGo(o.m, s, i, 0, config);
    if s[i] != '\0' { TakenAtLeast(o.m, s, i + 1, 0, config); }
  }

  /** A byte that is no part of the number and does not start an infinity is not taken. */
  lemma NumberStops(m: Machine, c: char, config: Config)
    requires m.mode.Number? && !Accepts(m.mode.scan, c)
    requires c in ['-', '+'] || (c in ['i', 'I'] && Whole(m) &&
      (m.mode.text == [] || m.mode.text[0] != '-' || m.mode.scan.run > 1))
    ensures var o := Take(m, c, config);
      !o.Go? && Sound(m, o) && (o.Fail? ==> o.e != Unexpected) &&
      (o.Done? <==> Depth(m) == 0 && ParseNumber(m.mode.text, m.mode.scan.isDouble, config).Parsed?)
    ensures var o := Take(m, c, config);
      (o.Done? ==> o.m.mode == Exactly(Finish) && Depth(o.m) == 0) && (o.Fail? ==> o.m.mode != Exactly(Finish))
  {
    assert Take(m, c, config) == AtNumber(m, c, config);
    match ParseNumber(m.mode.text, m.mode.scan.isDouble, config)
    case NoNumber =>
    case Parsed(v) =>
      var e := Complete(m, v);
      var at := e.(mode := Exactly(Finish));
      assert Take(e, c, config) == Take(at, c, config) == AtPlace(at, Finish, c, config);
      if Depth(m) > 0 && EndsNumber(c) {
        var p := Popped(at);
        var q := p.(mode := Exactly(p.mode.place));
        assert Take(p, c, config) == Take(q, c, config) == AtPlace(q, p.mode.place, c, config);
      }
  }

  /** A new scan takes an i after a minus sign for an infinity; strict mode wants a capital. */
  lemma InfinityStarts(m: Machine, c: char, config: Config)
    requires m.mode.Number? && m.mode.text != [] && m.mode.text[0] == '-' && m.mode.scan.run <= 1 && c in ['i', 'I']
    ensures var o := Take(m, c, config);
      if config.strict && c == 'i' then o.Fail? && o.e == Unexpected && o.m.mode.InfWord? else o.Go?
  {
    assert Take(m, c, config) == AtNumber(m, c, config);
    var w := m.(mode := InfWord(true, 0));
    assert Take(w, c, config) == AtInf(w, c, config);
  }

  /** Where the new scan starts an infinity and the running one does not. */
  lemma InfinityExact(m: Machine, r: Machine, s: Bytes, i: nat, config: Config)
    requires i < |s| && m.mode.Number? && r.mode.Number?
    requires Whole(m) || !InfinityDiffers(m, s[i], config)
    requires m.mode.text == r.mode.text && m.mode.text != [] && m.mode.text[0] == '-' && m.mode.scan.run > 1 &&
      r.mode.scan.run <= 1
    requires s[i] == 'i' || s[i] == 'I'
    ensures ParseFrom(m, s, i, 0, config) == ParseFrom(r, s, i, 0, config) <==> !InfinityDiffers(m, s[i], config)
  {
    var c := s[i];
    NumberStops(m, c, config);
    InfinityStarts(r, c, config);
    if Take(r, c, config).Go? {
      StopOrTake(r, m, s, i, config);
    } else {
      ParseAt(m, s, i, 0, config);
      ParseAt(r, s, i, 0, config);
    }
  }

  /** Both scans take the first byte. */
  lemma CutLater(m: Machine, b: Bytes, config: Config)
    requires m.mode.Number? && Steady(m.mode) && b != [] && (Whole(m) || !CutMatters(m, b, config))
    requires m.mode.scan.run > 0
    requires Accepts(m.mode.scan, b[0]) && Accepts(Resumed(m).mode.scan, b[0])
    ensures Parse(m, b, config) == Parse(Resumed(m), b, config) <==> !CutMatters(m, b, config)
  {
    var c, r := b[0], Resumed(m);
    var m1, r1 := Longer(m, c), Longer(r, c);
    assert Take(m, c, config) == AtNumber(m, c, config) == Go(m1);
    assert Take(r, c, config) == AtNumber(r, c, config) == Go(r1);
    assert (m.mode.text + [c])[0] == m.mode.text[0];
    ParseAt(m, b, 0, 0, config);
    ParseAt(r, b, 0, 0, config);
    if Seen(c, 0, config).Left? {
      var n := Seen(c, 0, config).n;
      assert Accepts(m.mode.scan, c) ==> c as int < 0x80;
      assert AfterPeek(m, b, 0, 0, config) == AfterGo(m1, b, 0, 0, config) == ParseFrom(m1, b, 1, 0, config);
      assert AfterPeek(r, b, 0, 0, config) == AfterGo(r1, b, 0, 0, config) == ParseFrom(r1, b, 1, 0, config);
      if m.mode.text[0] != '-' {
        NearParse(m1, r1, b, 1, 0, config);
      } else if |b| > 1 {
        if b[1] == 'i' || b[1] == 'I' {
          InfinityExact(m1, r1, b, 1, config);
        } else {
          RunStep(m1, r1, b[1], config);
          AlikeParse(m1, r1, b, 1, 0, config);
        }
      }
    }
  }

  /** Neither takes it. */
  lemma CutAtEnd(m: Machine, b: Bytes, config: Config)
    requires m.mode.Number? && Steady(m.mode) && b != [] && (Whole(m) || !CutMatters(m, b, config))
    requires !Accepts(m.mode.scan, b[0]) && !Accepts(Resumed(m).mode.scan, b[0])
    ensures Parse(m, b, config) == Parse(Resumed(m), b, config) <==> !CutMatters(m, b, config)
  {
    var c, r := b[0], Resumed(m);
    if m.mode.text != [] && m.mode.text[0] == '-' && m.mode.scan.run > 1 && (c == 'i' || c == 'I') {
      InfinityExact(m, r, b, 0, config);
    } else {
      assert Take(m, c, config) == AtNumber(m, c, config);
      assert Take(r, c, config) == AtNumber(r, c, config);
      var v := ParseNumber(m.mode.text, m.mode.scan.isDouble, config);
      assert v.Parsed? ==> Complete(m, v.value) == Complete(r, v.value);
      assert m.(mode := InfWord(true, 0)) == r.(mode := InfWord(true, 0));
      AlikeParse(m, r, b, 0, 0, config);
    }
  }

  /** What is kept of the machine for the next call leads to the same result exactly if no number is cut where
      it matters. */
  lemma CutExact(m: Machine, b: Bytes, config: Config)
    requires Steady(m.mode) && (Whole(m) || !CutMatters(m, b, config))
    ensures Parse(m, b, config) == Parse(Resumed(m), b, config) <==> !CutMatters(m, b, config)
  {
    if m.mode.Number? && b != [] && Resumed(m) != m {
      var c, r := b[0], Resumed(m);
      var a1, a2 := Accepts(m.mode.scan, c), Accepts(r.mode.scan, c);
      if a1 && a2 {
        CutLater(m, b, config);
      } else if !a1 && !a2 {
        CutAtEnd(m, b, config);
      } else {
        assert c == '-' || c == '+';
        assert Take(m, c, config) == AtNumber(m, c, config);
        assert Take(r, c, config) == AtNumber(r, c, config);
        if a1 {
          NumberStops(r, c, config);
          StopOrTake(m, r, b, 0, config);
        } else {
          NumberStops(m, c, config);
          StopOrTake(r, m, b, 0, config);
        }
      }
    }
  }

  // ---------- pieces ----------

  /** A result counted from a byte that is `n` bytes further on. */
  function Shifted(r: Result, n: nat): Result {
    match r
    case More(m) => r
    case Value(v, taken, next) => Result.Value(v, taken + n, next)
    case Error(e, taken) => Result.Error(e, taken + n)
  }

  lemma {:induction false} ParseLater(m: Machine, a: Bytes, b: Bytes, i: nat, left: nat, config: Config)
    requires i <= |b|
    ensures ParseFrom(m, a + b, |a| + i, left, config) == Shifted(ParseFrom(m, b, i, left, config), |a|)
    decreases |b| - i
  {
    if i < |b| {
      var o := Take(m, b[i], config);
      assert (a + b)[|a| + i] == b[i];
      ParseAt(m, b, i, left, config);
      ParseAt(m, a + b, |a| + i, left, config);
      if o.Go? && Seen(b[i], left, config).Left? {
        var n := Seen(b[i], left, config).n;
        assert AfterPeek(m, b, i, n, config) == AfterGo(o.m, b, i, n, config);
        assert AfterPeek(m, a + b, |a| + i, n, config) == AfterGo(o.m, a + b, |a| + i, n, config);
        ParseLater(o.m, a, b, i + 1, n, config);
      }
    }
  }

  /** The machine after all of the text. */
  function Running(m: Machine, a: Bytes, config: Config): Machine {
    if Fed(m, a, config).Some? then Fed(m, a, config).value else m
  }

  /** A call that validates has found the end of its text inside a character. */
  predicate CutInside(r: Result, n: nat) { r == Result.Error(NotUtf8, n) }

  /** The first part of a text is parsed as if it were alone: an error in it is the error of the whole
      text; if it asks for more, the rest is parsed from where it stopped. */
  lemma {:induction false} JoinFrom(m: Machine, a: Bytes, b: Bytes, i: nat, left: nat, config: Config)
    requires i <= |a| && Steady(m.mode) && !m.mode.Exactly? && (!config.validateUtf8 ==> left == 0)
    ensures var r := ParseFrom(m, a, i, left, config);
      match r
      case More(m1) =>
        var m2 := Running(m, a[i..], config);
        Fed(m, a[i..], config).Some? && m1 == Resumed(m2) && Steady(m2.mode) && !m2.mode.Exactly? &&
          m2.lost <= m.lost &&
        ParseFrom(m, a + b, i, left, config) == Shifted(Parse(m2, b, config), |a|)
      case Value(_, taken, _) => taken == |a| || ParseFrom(m, a + b, i, left, config) == r
      case Error(_, _) => CutInside(r, |a|) || ParseFrom(m, a + b, i, left, config) == r
    decreases |a| - i
  {
    if i == |a| {
      if left == 0 { ParseLater(m, a, b, 0, 0, config); }
    } else {
      var o := Take(m, a[i], config);
      TakeSound(m, a[i], config);
      assert (a + b)[i] == a[i];
      ParseAt(m, a, i, left, config);
      ParseAt(m, a + b, i, left, config);
      if o.Go? && Seen(a[i], left, config).Left? {
        var n := Seen(a[i], left, config).n;
        assert AfterPeek(m, a, i, n, config) == AfterGo(o.m, a, i, n, config);
        assert AfterPeek(m, a + b, i, n, config) == AfterGo(o.m, a + b, i, n, config);
        assert a[i..][0] == a[i] && a[i..][1..] == a[i + 1..];
        if a[i] != '\0' { JoinFrom(o.m, a, b, i + 1, n, config); }
      }
    }
  }

  /** One cut: two calls and one call on the whole text differ exactly if a number is cut where it matters. */
  lemma OneCut(m: Machine, a: Bytes, b: Bytes, config: Config)
    requires Steady(m.mode) && !m.mode.Exactly? && m.lost == 0 && Parse(m, a, config).More?
    ensures Calls(m, [a, b], config) == Parse(m, a + b, config) <==> !CutMatters(Running(m, a, config), b, config)
  {
    JoinFrom(m, a, b, 0, 0, config);
    assert a[0..] == a && [a, b][1..] == [b];
    var m2 := Running(m, a, config);
    CutExact(m2, b, config);
    assert Calls(m, [a, b], config) == Shifted(Calls(Resumed(m2), [b], config), |a|);
  }

  function Concat(chunks: seq<Bytes>): Bytes { if chunks == [] then [] else chunks[0] + Concat(chunks[1..]) }

  /** A call for each piece, for as long as the parser asks for more. */
  function Calls(m: Machine, chunks: seq<Bytes>, config: Config): Result
    requires chunks != []
    decreases |chunks|
  {
    var r := Parse(m, chunks[0], config);
    if |chunks| > 1 && r.More? then Shifted(Calls(r.m, chunks[1..], config), |chunks[0]|) else r
  }

  // ---------- where pieces and the whole differ ----------

  /** One call on "[1-2]" fails, but the calls for "[1" and "-2]" together accept an array. */
  lemma CutBeforeSign(config: Config)
    requires config.maxDepth > 1
    ensures Parse(INIT, "[1-2]", config) == Result.Error(NotNumber, 2)
    ensures Calls(INIT, ["[1", "-2]"], config) == Result.Value(Array([Int(1)]), 5, INIT)
  {
    var s, a, b := "[1-2]", "[1", "-2]";
    var m1 := INIT.(current := Array([]), mode := Ws(FirstItem));
    var m2 := OneRead();
    BracketOne(config);
    assert ParseFrom(INIT, s, 0, 0, config) == AfterPeek(INIT, s, 0, 0, config) == AfterGo(m1, s, 0, 0, config) ==
      ParseFrom(m1, s, 1, 0, config);
    assert ParseFrom(m1, s, 1, 0, config) == AfterPeek(m1, s, 1, 0, config) == AfterGo(m2, s, 1, 0, config) ==
      ParseFrom(m2, s, 2, 0, config);
    assert Take(m2, '-', config) == AtNumber(m2, '-', config) == Fail(m2, NotNumber);
    assert ParseFrom(m2, s, 2, 0, config) == AfterPeek(m2, s, 2, 0, config) ==
      Conclude(m2, NotNumber, 0, false, 2, config);
    assert ParseFrom(INIT, a, 0, 0, config) == AfterPeek(INIT, a, 0, 0, config) == AfterGo(m1, a, 0, 0, config) ==
      ParseFrom(m1, a, 1, 0, config);
    assert ParseFrom(m1, a, 1, 0, config) == AfterPeek(m1, a, 1, 0, config) == AfterGo(m2, a, 1, 0, config) ==
      ParseFrom(m2, a, 2, 0, config);
    assert ParseFrom(m2, a, 2, 0, config) == More(Resumed(m2));
    RestAccepted(config);
    assert ["[1", "-2]"][1..] == [b];
  }

  /** The machine after "[1". */
  function OneRead(): Machine {
    Machine([ArrayFrame([])], Null, Number("1", Scan(1, false, false, false, false)), 0, 0)
  }

  lemma BracketOne(config: Config)
    requires config.maxDepth > 1
    ensures var m1 := INIT.(current := Array([]), mode := Ws(FirstItem));
      Take(INIT, '[', config) == Go(m1) && Take(m1, '1', config) == Go(OneRead())
  {
    var m1 := INIT.(current := Array([]), mode := Ws(FirstItem));
    var at0, at1 := INIT.(mode := Exactly(Start)), m1.(mode := Exactly(FirstItem));
    assert Take(INIT, '[', config) == Take(at0, '[', config) == AtPlace(at0, Start, '[', config) ==
      AtStart(at0, '[', config);
    assert Take(m1, '1', config) == Take(at1, '1', config) == AtPlace(at1, FirstItem, '1', config) ==
      AtItem(at1, FirstItem, '1', config);
    var p := Pushed(at1, ArrayFrame([]));
    var at2 := p.(mode := Exactly(Start));
    assert p == Machine([ArrayFrame([])], Null, Ws(Start), 0, 0);
    assert Take(p, '1', config) == Take(at2, '1', config) == AtPlace(at2, Start, '1', config) ==
      AtStart(at2, '1', config);
    var n := at2.(mode := NumberFrom([], false));
    assert Take(n, '1', config) == AtNumber(n, '1', config);
    assert [] + ['1'] == "1";
  }

  lemma RestAccepted(config: Config)
    requires config.maxDepth > 1
    ensures Parse(Resumed(OneRead()), "-2]", config) == Result.Value(Array([Int(1)]), 3, INIT)
  {
    var b := "-2]";
    var m := Resumed(OneRead());
    var m1 := m.(mode := Number("1-", Scan(1, false, false, false, false)));
    var m2 := m.(mode := Number("1-2", Scan(2, false, false, false, false)));
    var m3 := INIT.(current := Array([Int(1)]), mode := Ws(Finish));
    assert m.mode == NumberFrom("1", false) && !HasE("1");
    assert "1" + ['-'] == "1-" && "1-" + ['2'] == "1-2";
    assert Take(m, '-', config) == AtNumber(m, '-', config) == Go(m1);
    assert Take(m1, '2', config) == AtNumber(m1, '2', config) == Go(m2);
    OneClosed(m2, config);
    assert ParseFrom(m, b, 0, 0, config) == AfterPeek(m, b, 0, 0, config) == AfterGo(m1, b, 0, 0, config);
    assert ParseFrom(m1, b, 1, 0, config) == AfterPeek(m1, b, 1, 0, config) == AfterGo(m2, b, 1, 0, config);
    assert ParseFrom(m2, b, 2, 0, config) == AfterPeek(m2, b, 2, 0, config) == AfterGo(m3, b, 2, 0, config);
  }

  /** "1-2" is read as 1, and the bracket closes the array. */
  lemma OneClosed(m: Machine, config: Config)
    requires m == OneRead().(mode := Number("1-2", Scan(2, false, false, false, false)))
    ensures Take(m, ']', config) == Go(INIT.(current := Array([Int(1)]), mode := Ws(Finish)))
  {
    LeadingOne();
    var e := Complete(m, Int(1));
    assert Take(m, ']', config) == AtNumber(m, ']', config) == Take(e, ']', config);
    var at := e.(mode := Exactly(Finish));
    var p := INIT.(current := Array([Int(1)]), mode := Ws(ItemEnd));
    var q := p.(mode := Exactly(ItemEnd));
    assert [ArrayFrame([])][..0] == [] && [] + [Int(1)] == [Int(1)];
    assert Popped(at) == p;
    assert Take(e, ']', config) == Take(at, ']', config) == AtPlace(at, Finish, ']', config) == Take(p, ']', config);
    assert Take(p, ']', config) == Take(q, ']', config) == AtPlace(q, ItemEnd, ']', config);
  }

  lemma LeadingOne()
    ensures LeadingDigits("1-2") == "1" && NumberOf("1") == 1
  {
    assert "1-2"[1..] == "-2" && LeadingDigits("-2") == [];
    assert "1"[..0] == [];
  }
}
