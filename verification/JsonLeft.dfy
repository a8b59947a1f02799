/** A call of the tokener that succeeds without having closed the text: which ones do, what they leave
    behind, and what that does to the next call. */
module JsonLeft {
  import opened Options
  import opened Json
  import opened JsonFeed
  import opened JsonMachine
  import opened JsonRoundTrip

  // ---------- what a byte can do ----------

  predicate CommentMode(mode: Mode) { mode.CommentStart? || mode.Comment? || mode.CommentEol? || mode.CommentEnd? }

  /** Strings are quoted by double or single quotes. */
  predicate QuoteOk(mode: Mode) {
    (mode.Text? || mode.Escaped? || mode.Unicode? || mode.NeedEscape? || mode.NeedU?) ==>
      mode.q.quote == '"' || mode.q.quote == '\''
  }

  /** Inside a string or comment, where a character that is not ASCII may stand. */
  predicate Wide(mode: Mode) { mode.Text? || mode.Comment? || mode.CommentEol? }

  /** In an open comment after a complete value. */
  predicate InComment(mode: Mode) {
    mode == Comment(Finish) || mode == CommentEol(Finish) || mode == CommentEnd(Finish)
  }

  predicate InSameComment(m: Machine, m1: Machine) {
    CommentMode(m.mode) && CommentMode(m1.mode) && m1 == m.(mode := m1.mode) &&
      (InComment(m1.mode) <==> InComment(m.mode))
  }

  /** NUL and the bytes above ASCII are taken in strings and comments only; a comment starts outside strict mode
      only; and the machine is done on the outermost level only. */
  ghost predicate Restrained(m: Machine, c: char, o: Outcome, config: Config) {
    match o
    case Go(m1) =>
      QuoteOk(m1.mode) &&
      (c == '\0' ==> m1.mode.Text? || InSameComment(m, m1)) &&
      (c as int >= 0x80 ==> Wide(m1.mode)) &&
      (config.strict && !CommentMode(m.mode) ==> !CommentMode(m1.mode))
    case Done(m1) => Depth(m1) == 0
    case Fail(_, e) => e != Success && e != Continue
  }

  lemma {:induction false} TakeRestrained(m: Machine, c: char, config: Config)
    requires QuoteOk(m.mode)
    ensures Restrained(m, c, Take(m, c, config), config)
    decreases m.lost, ModeRank(m.mode), 1, 0
  {
    match m.mode
    case Ws(p) =>
      if !IsSpace(c) && (c != '/' || config.strict) { PlaceRestrained(m.(mode := Exactly(p)), p, c, config); }
    case Exactly(p) => PlaceRestrained(m, p, c, config);
    case InfWord(_, _) => WordRestrained(m, c, config);
    case NullWord(_) => WordRestrained(m, c, config);
    case BoolWord(_) => WordRestrained(m, c, config);
    case Number(_, _) => NumberRestrained(m, c, config);
    case Text(q, text) => assert Take(m, c, config) == AtText(m, c);
    case Escaped(q, text) => assert Take(m, c, config) == AtEscaped(m, c);
    case Unicode(q, text, digits, ucs) => assert Take(m, c, config) == AtUnicode(m, c);
    case NeedEscape(q, text) =>
      if c != '\\' { TakeRestrained(m.(mode := Text(q, text + REPLACEMENT), high := 0), c, config); }
    case NeedU(q, text) =>
      if c != 'u' { TakeRestrained(m.(mode := Escaped(q, text + REPLACEMENT), high := 0), c, config); }
    case _ =>
  }

  /** A byte that ends a word or number comes after a complete value. */
  lemma {:induction false} AfterValue(m: Machine, v: Json, c: char, config: Config)
    requires ModeRank(m.mode) >= 5
    ensures Restrained(m, c, Take(Complete(m, v), c, config), config)
    decreases m.lost, ModeRank(m.mode), 0, 0
  {
    TakeRestrained(Complete(m, v), c, config);
  }

  lemma {:induction false} WordRestrained(m: Machine, c: char, config: Config)
    requires m.mode.InfWord? || m.mode.NullWord? || m.mode.BoolWord?
    ensures Restrained(m, c, Take(m, c, config), config)
    decreases m.lost, ModeRank(m.mode), 0, 1
  {
    if m.mode.InfWord? {
      assert Take(m, c, config) == AtInf(m, c, config);
      AfterValue(m, Infinity(m.mode.negative), c, config);
    } else if m.mode.NullWord? {
      assert Take(m, c, config) == AtNull(m, c, config);
      if !Ascii(c) { InWord("null", m.mode.text, c, config.strict); InWord("NaN", m.mode.text, c, config.strict); }
      AfterValue(m, Null, c, config);
      AfterValue(m, NaN, c, config);
    } else {
      assert Take(m, c, config) == AtBool(m, c, config);
      if !Ascii(c) { InWord("true", m.mode.text, c, config.strict); InWord("false", m.mode.text, c, config.strict); }
      AfterValue(m, Bool(true), c, config);
      AfterValue(m, Bool(false), c, config);
    }
  }

  predicate Ascii(c: char) { 0 < c as int < 0x80 }

  lemma InWord(word: Bytes, text: Bytes, c: char, strict: bool)
    requires word in ["null", "NaN", "true", "false"] && !Ascii(c)
    ensures WordPrefix(word, text + [c], strict) ==> |text| >= |word|
  {
    if |text| < |word| {
      assert (text + [c])[|text|] == c;
      assert ToLower(word[|text|]) != ToLower(c);
    }
  }

  lemma {:induction false} NumberRestrained(m: Machine, c: char, config: Config)
    requires m.mode.Number?
    ensures Restrained(m, c, Take(m, c, config), config)
    decreases m.lost, ModeRank(m.mode), 0, 1
  {
    assert Take(m, c, config) == AtNumber(m, c, config);
    TakeRestrained(m.(mode := InfWord(true, 0)), c, config);
    match ParseNumber(m.mode.text, m.mode.scan.isDouble, config)
    case Parsed(v) => AfterValue(m, v, c, config);
    case NoNumber =>
  }

  lemma {:induction false} PlaceRestrained(m: Machine, p: Place, c: char, config: Config)
    requires m.mode == Exactly(p)
    ensures Restrained(m, c, Take(m, c, config), config)
    decreases m.lost, ModeRank(m.mode), 0, 1
  {
    assert Take(m, c, config) == AtPlace(m, p, c, config);
    match p
    case Start =>
      assert AtPlace(m, p, c, config) == AtStart(m, c, config);
      TakeRestrained(m.(mode := InfWord(false, 0)), c, config);
      TakeRestrained(m.(mode := NullWord([])), c, config);
      TakeRestrained(m.(mode := BoolWord([])), c, config);
      TakeRestrained(m.(mode := NumberFrom([], false)), c, config);
    case Finish => if Depth(m) > 0 { TakeRestrained(Popped(m), c, config); }
    case FirstItem => TakeRestrained(Pushed(m, ArrayFrame(ItemsOf(m.current))), c, config);
    case NextItem => TakeRestrained(Pushed(m, ArrayFrame(ItemsOf(m.current))), c, config);
    case FieldValue(key) => TakeRestrained(Pushed(m, ObjectFrame(MembersOf(m.current), key)), c, config);
    case _ =>
  }

  // ---------- which calls leave levels behind ----------

  /** The text is taken up to a NUL, byte `k`, that comes inside a comment after a complete value, and that
      value is not the outermost one. */
  ghost predicate StopsInComment(m: Machine, s: Bytes, k: nat, left: nat, config: Config) {
    k < |s| && s[k] == '\0' && SeenAll(s[..k], left, config) == Left(0) &&
    var o := Fed(m, s[..k], config);
    o.Some? && InComment(o.value.mode) && Depth(o.value) > 0
  }

  lemma {:induction false} LeftBehindFrom(m: Machine, s: Bytes, i: nat, left: nat, config: Config) returns (k: nat)
    requires i <= |s| && QuoteOk(m.mode) && (!config.validateUtf8 ==> left == 0)
    ensures var r := ParseFrom(m, s, i, left, config); r.Value? && r.next.lost > 0 ==>
      i <= k && StopsInComment(m, s[i..], k - i, left, config)
    decreases |s| - i
  {
    k := i;
    if i < |s| && Seen(s[i], left, config).Left? {
      var n := Seen(s[i], left, config).n;
      ParseAt(m, s, i, left, config);
      var o := Take(m, s[i], config);
      TakeRestrained(m, s[i], config);
      if o.Go? {
        assert AfterPeek(m, s, i, n, config) == AfterGo(o.m, s, i, n, config);
        if s[i] == '\0' {
          assert s[i..][..0] == [] && Fed(m, [], config) == Some(m);
        } else {
          k := LeftBehindFrom(o.m, s, i + 1, n, config);
          if i + 1 <= k < |s| { FedOne(m, s[i..], k - i, left, o.m, config); }
          assert s[i..][1..] == s[i + 1..];
        }
      }
    }
  }

  lemma FedOne(m: Machine, s: Bytes, k: nat, left: nat, m1: Machine, config: Config)
    requires 0 < k <= |s| && s[0] != '\0' && Take(m, s[0], config) == Go(m1)
    ensures Fed(m, s[..k], config) == Fed(m1, s[1..][..k - 1], config)
    ensures SeenAll(s[..k], left, config) ==
      match Seen(s[0], left, config)
      case BadByte => BadByte
      case Left(n) => SeenAll(s[1..][..k - 1], n, config)
  {
    assert s[..k][0] == s[0] && s[..k][1..] == s[1..][..k - 1];
  }

  /** A call leaves levels behind exactly if it stops at a NUL inside a comment after a value that is not the
      outermost one. Then it returns that value, and the depth of it is what stays. */
  lemma LeavesLevels(m: Machine, s: Bytes, config: Config)
    requires QuoteOk(m.mode)
    ensures var r := Parse(m, s, config); (r.Value? && r.next.lost > 0) <==>
      exists k: nat :: StopsInComment(m, s, k, 0, config)
    ensures forall k: nat :: StopsInComment(m, s, k, 0, config) ==>
      var m1 := Fed(m, s[..k], config).value; Parse(m, s, config) == Result.Value(m1.current, k + 1, Restarted(m1))
  {
    var r := Parse(m, s, config);
    var k0 := LeftBehindFrom(m, s, 0, 0, config);
    assert s[0..] == s;
    forall k: nat | StopsInComment(m, s, k, 0, config)
      ensures r.Value? && r.next.lost > 0
      ensures var m1 := Fed(m, s[..k], config).value; r == Result.Value(m1.current, k + 1, Restarted(m1))
    {
      StopsThere(m, s, k, config);
    }
  }

  lemma StopsThere(m: Machine, s: Bytes, k: nat, config: Config)
    requires StopsInComment(m, s, k, 0, config)
    ensures var m1 := Fed(m, s[..k], config).value;
      Parse(m, s, config) == Result.Value(m1.current, k + 1, Restarted(m1))
  {
    var m1 := Fed(m, s[..k], config).value;
    FedStart(m, s, k, m1, config);
    ParseAt(m1, s, k, 0, config);
    var m2 := Take(m1, '\0', config).m;
    assert m2 == m1.(mode := m2.mode) && Settled(m2.mode);
    assert AfterPeek(m1, s, k, 0, config) == AfterGo(m2, s, k, 0, config);
  }

  lemma {:induction false} NoCommentFed(m: Machine, s: Bytes, config: Config)
    requires QuoteOk(m.mode) && config.strict && !CommentMode(m.mode) && Fed(m, s, config).Some?
    ensures !CommentMode(Fed(m, s, config).value.mode)
    decreases |s|
  {
    if s != [] {
      TakeRestrained(m, s[0], config);
      NoCommentFed(Take(m, s[0], config).m, s[1..], config);
    }
  }

  /** It never happens in strict mode, nor with a text that holds no NUL. */
  lemma NothingLeft(m: Machine, s: Bytes, config: Config)
    requires QuoteOk(m.mode) && ((config.strict && !CommentMode(m.mode)) || '\0' !in s)
    ensures var r := Parse(m, s, config); r.Value? ==> r.next.lost == 0
  {
    var r := Parse(m, s, config);
    var k := LeftBehindFrom(m, s, 0, 0, config);
    assert s[0..] == s;
    if r.Value? && r.next.lost > 0 && config.strict && !CommentMode(m.mode) { NoCommentFed(m, s[..k], config); }
  }

  /** Both kinds of comment, after any value in an array. */
  lemma OpenComment(v: Json, line: bool, flags: Flags, config: Config)
    requires Valid(v) && StringsPass(v, config) && Height(v) + 1 < config.maxDepth && !config.strict
    ensures var text := "[" + Print(v, 0, flags) + (if line then " //" else " /*");
      Parse(INIT, text + "\0", config) == Result.Value(Norm(v), |text| + 1, INIT.(lost := 1))
  {
    var a, value, end := Array([v]), Print(v, 0, flags), if line then " //" else " /*";
    var text := "[" + value + end;
    var o := Opened(INIT, a);
    StartByte(INIT, '[', config);
    FedByte(INIT, '[', o, config);
    FirstByte(v, 0, flags);
    OnItsLevel(o, INIT, a, 0, value, config);
    var m1 := ValueRead(OnElement(INIT, a, 0), v, 0, flags, config);
    var e := Complete(OnElement(INIT, a, 0), Norm(v));
    var m2 := e.(mode := if line then CommentEol(Finish) else Comment(Finish));
    CommentRead(m1, e, line, config);
    FedThree(INIT, "[", value, end, o, m1, m2, config);
    var s := text + "\0";
    assert s[..|text|] == text;
    PrintPasses(v, 0, flags, config);
    AsciiPasses("[", config);
    AsciiPasses(end, config);
    PassesThree("[", value, end, config);
    StopsThere(INIT, s, |text|, config);
  }

  lemma CommentRead(m1: Machine, e: Machine, line: bool, config: Config)
    requires Like(m1, e, config) && e.mode == Ws(Finish) && !config.strict
    ensures Fed(m1, if line then " //" else " /*", config) ==
      Some(e.(mode := if line then CommentEol(Finish) else Comment(Finish)))
  {
    var c, m2 := if line then '/' else '*', e.(mode := CommentStart(Finish));
    assert Follows(' ', e) && Take(m1, ' ', config) == Take(e, ' ', config) == Go(e);
    FedByte(m1, ' ', e, config);
    FedByte(e, '/', m2, config);
    FedByte(m2, c, e.(mode := if line then CommentEol(Finish) else Comment(Finish)), config);
    FedThree(m1, " ", "/", [c], e, m2, e.(mode := if line then CommentEol(Finish) else Comment(Finish)), config);
    assert " " + "/" + [c] == if line then " //" else " /*";
  }

  /** The level that a success has reset is left without a container to put the value in. */
  function Dropped(m: Machine): Machine
    requires m.lost > 0
  {
    Machine([], Null, Ws(Start), m.high, m.lost - 1)
  }

  /** After such a call any value that the text completes on the level that was reset, as in `e`, is dropped:
      what follows it, byte `i`, is taken for the start of another value on the level below, whatever the value
      was. */
  lemma NextValueDropped(m0: Machine, m: Machine, e: Machine, s: Bytes, i: nat, config: Config)
    requires i < |s| && Fed(m0, s[..i], config) == Some(m) && Passes(s[..i], config) && Seen(s[i], 0, config).Left?
    requires e.mode == Ws(Finish) && e.frames == [] && e.lost > 0 && Take(m, s[i], config) == Take(e, s[i], config)
    requires !IsSpace(s[i]) && (s[i] == '/' ==> config.strict)
    ensures Parse(m0, s, config) == ParseFrom(Dropped(e), s, i, 0, config)
  {
    var c, d := s[i], Dropped(e);
    FedStart(m0, s, i, m, config);
    ParseAt(m, s, i, 0, config);
    ParseAt(d, s, i, 0, config);
    var at := e.(mode := Exactly(Finish));
    assert Popped(at) == d;
    assert Take(e, c, config) == Take(at, c, config) == AtPlace(at, Finish, c, config) == Take(d, c, config);
  }

  /** So a bracket that would close the array is an error. */
  lemma PrintedValueDropped(v: Json, lost: nat, flags: Flags, config: Config)
    requires Valid(v) && lost > 0 && lost + 1 + Height(v) <= config.maxDepth && StringsPass(v, config)
    ensures Parse(INIT.(lost := lost), Print(v, 0, flags) + "]", config) ==
      Result.Error(Unexpected, |Print(v, 0, flags)|)
  {
    var m, text := INIT.(lost := lost), Print(v, 0, flags);
    var s := text + "]";
    var m1 := ValueRead(m, v, 0, flags, config);
    assert s[..|text|] == text && s[|text|] == ']';
    PrintPasses(v, 0, flags, config);
    var e := Complete(m, Norm(v));
    assert Follows(']', e) && Take(m1, ']', config) == Take(e, ']', config);
    NextValueDropped(m, m1, e, s, |text|, config);
    var d := Dropped(e);
    var q := d.(mode := Exactly(Start));
    StartByte(d, ']', config);
    ParseAt(d, s, |text|, 0, config);
    assert AfterPeek(d, s, |text|, 0, config) == Conclude(q, Unexpected, 0, false, |text|, config);
  }
}
