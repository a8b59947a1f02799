/** A high surrogate that json_tokener_reset has left waiting, and any text that is parsed next. */
module JsonSurrogate {
  import opened Options
  import opened Sequences
  import opened Json
  import opened JsonFeed
  import opened JsonMachine
  import opened JsonStrings

  // ---------- until an escape of four digits ends ----------

  /** No surrogate has been read. */
  predicate Quiet(m: Machine) { m.high == 0 && !m.mode.NeedEscape? && !m.mode.NeedU? }

  /** The byte is the last digit of an escape. */
  predicate EndsEscape(m: Machine, c: char) { m.mode.Unicode? && m.mode.digits == 3 && IsHex(c) }

  function CodeAt(m: Machine, c: char): nat
    requires EndsEscape(m, c)
  {
    m.mode.ucs + HexValue(c)
  }

  function Waiting(m: Machine, high: nat): Machine { m.(high := high) }

  function WaitingAfter(o: Outcome, high: nat): Outcome {
    match o
    case Go(m) => Go(Waiting(m, high))
    case Done(m) => Done(Waiting(m, high))
    case Fail(m, e) => Fail(Waiting(m, high), e)
  }

  /** A byte that ends no escape does the same with and without a surrogate that waits. */
  ghost predicate Unmoved(m: Machine, high: nat, c: char, config: Config) {
    var o := Take(m, c, config);
    Take(Waiting(m, high), c, config) == WaitingAfter(o, high) && Quiet(o.m)
  }

  lemma {:induction false} TakeWaits(m: Machine, high: nat, c: char, config: Config)
    requires Quiet(m) && !EndsEscape(m, c)
    ensures Unmoved(m, high, c, config)
    decreases m.lost, ModeRank(m.mode), 1, 0
  {
    var h := Waiting(m, high);
    match m.mode
    case Ws(p) =>
      if !IsSpace(c) && (c != '/' || config.strict) {
        PlaceWaits(m.(mode := Exactly(p)), p, high, c, config);
        assert h.(mode := Exactly(p)) == Waiting(m.(mode := Exactly(p)), high);
      }
    case Exactly(p) => PlaceWaits(m, p, high, c, config);
    case InfWord(_, _) => WordWaits(m, high, c, config);
    case NullWord(_) => WordWaits(m, high, c, config);
    case BoolWord(_) => WordWaits(m, high, c, config);
    case Number(_, _) => NumberWaits(m, high, c, config);
    case Text(_, _) => assert Take(m, c, config) == AtText(m, c) && Take(h, c, config) == AtText(h, c);
    case Escaped(_, _) => assert Take(m, c, config) == AtEscaped(m, c) && Take(h, c, config) == AtEscaped(h, c);
    case Unicode(_, _, _, _) => assert Take(m, c, config) == AtUnicode(m, c) && Take(h, c, config) == AtUnicode(h, c);
    case _ =>
  }

  /** A byte that ends a word or number. */
  lemma {:induction false} CompleteWaits(m: Machine, v: Json, high: nat, c: char, config: Config)
    requires ModeRank(m.mode) >= 5 && Quiet(m)
    ensures Unmoved(Complete(m, v), high, c, config) && Complete(Waiting(m, high), v) == Waiting(Complete(m, v), high)
    decreases m.lost, ModeRank(m.mode), 0, 0
  {
    TakeWaits(Complete(m, v), high, c, config);
  }

  lemma {:induction false} WordWaits(m: Machine, high: nat, c: char, config: Config)
    requires m.mode.InfWord? || m.mode.NullWord? || m.mode.BoolWord?
    requires Quiet(m)
    ensures Unmoved(m, high, c, config)
    decreases m.lost, ModeRank(m.mode), 0, 1
  {
    var h := Waiting(m, high);
    if m.mode.InfWord? {
      assert Take(m, c, config) == AtInf(m, c, config) && Take(h, c, config) == AtInf(h, c, config);
      CompleteWaits(m, Infinity(m.mode.negative), high, c, config);
    } else if m.mode.NullWord? {
      assert Take(m, c, config) == AtNull(m, c, config) && Take(h, c, config) == AtNull(h, c, config);
      CompleteWaits(m, Null, high, c, config);
      CompleteWaits(m, NaN, high, c, config);
    } else {
      assert Take(m, c, config) == AtBool(m, c, config) && Take(h, c, config) == AtBool(h, c, config);
      CompleteWaits(m, Bool(true), high, c, config);
      CompleteWaits(m, Bool(false), high, c, config);
    }
  }

  lemma {:induction false} NumberWaits(m: Machine, high: nat, c: char, config: Config)
    requires m.mode.Number? && Quiet(m)
    ensures Unmoved(m, high, c, config)
    decreases m.lost, ModeRank(m.mode), 0, 1
  {
    var h, w := Waiting(m, high), m.(mode := InfWord(true, 0));
    assert Take(m, c, config) == AtNumber(m, c, config) && Take(h, c, config) == AtNumber(h, c, config);
    TakeWaits(w, high, c, config);
    assert h.(mode := InfWord(true, 0)) == Waiting(w, high);
    match ParseNumber(m.mode.text, m.mode.scan.isDouble, config)
    case Parsed(v) => CompleteWaits(m, v, high, c, config);
    case NoNumber =>
  }

  lemma {:induction false} PlaceWaits(m: Machine, p: Place, high: nat, c: char, config: Config)
    requires m.mode == Exactly(p) && Quiet(m)
    ensures Unmoved(m, high, c, config)
    decreases m.lost, ModeRank(m.mode), 0, 2
  {
    var h := Waiting(m, high);
    assert Take(m, c, config) == AtPlace(m, p, c, config) && Take(h, c, config) == AtPlace(h, p, c, config);
    match p
    case Start => StartWaits(m, high, c, config);
    case Finish =>
      if Depth(m) > 0 {
        TakeWaits(Popped(m), high, c, config);
        assert Popped(h) == Waiting(Popped(m), high);
      }
    case FirstItem =>
      PushedWaits(m, ArrayFrame(ItemsOf(m.current)), high, c, config);
      assert c != ']' ==>
        Take(m, c, config) == AtItem(m, p, c, config) && Take(h, c, config) == AtItem(h, p, c, config);
    case NextItem =>
      PushedWaits(m, ArrayFrame(ItemsOf(m.current)), high, c, config);
      assert c != ']' ==>
        Take(m, c, config) == AtItem(m, p, c, config) && Take(h, c, config) == AtItem(h, p, c, config);
    case FieldValue(key) => PushedWaits(m, ObjectFrame(MembersOf(m.current), key), high, c, config);
    case _ =>
  }

  lemma {:induction false} PushedWaits(m: Machine, f: Frame, high: nat, c: char, config: Config)
    requires ModeRank(m.mode) >= 9 && Quiet(m)
    ensures Unmoved(Pushed(m, f), high, c, config) && Pushed(Waiting(m, high), f) == Waiting(Pushed(m, f), high)
    decreases m.lost, ModeRank(m.mode), 0, 0
  {
    TakeWaits(Pushed(m, f), high, c, config);
  }

  lemma {:induction false} StartWaits(m: Machine, high: nat, c: char, config: Config)
    requires m.mode == Exactly(Start) && Quiet(m)
    ensures Unmoved(m, high, c, config)
    decreases m.lost, ModeRank(m.mode), 0, 1
  {
    var h := Waiting(m, high);
    assert Take(m, c, config) == AtPlace(m, Start, c, config) == AtStart(m, c, config);
    assert Take(h, c, config) == AtPlace(h, Start, c, config) == AtStart(h, c, config);
    ModeWaits(m, InfWord(false, 0), high, c, config);
    ModeWaits(m, NullWord([]), high, c, config);
    ModeWaits(m, BoolWord([]), high, c, config);
    ModeWaits(m, NumberFrom([], false), high, c, config);
  }

  lemma {:induction false} ModeWaits(m: Machine, mode: Mode, high: nat, c: char, config: Config)
    requires m.mode == Exactly(Start) && Quiet(m) && 0 < ModeRank(mode) < 7 && ModeRank(mode) >= 5
    ensures Unmoved(m.(mode := mode), high, c, config)
    ensures Waiting(m, high).(mode := mode) == Waiting(m.(mode := mode), high)
    decreases m.lost, ModeRank(m.mode), 0, 0
  {
    TakeWaits(m.(mode := mode), high, c, config);
  }

  // ---------- the first escape ----------

  /** With and without the surrogate the first escape leaves the same only if it is a low surrogate and the pair
      is taken for one itself. */
  lemma EscapeMeets(m: Machine, high: nat, c: char, config: Config)
    requires Quiet(m) && EndsEscape(m, c) && high != 0
    ensures var o, o1, code := Take(m, c, config), Take(Waiting(m, high), c, config), CodeAt(m, c);
      o.Go? && o1.Go? && (o == o1 <==> IsLow(code) && IsLow(Pair(high, code)))
    ensures var o, o1 := Take(m, c, config), Take(Waiting(m, high), c, config);
      o != o1 ==> TextOf(o.m.mode) != TextOf(o1.m.mode)
  {
    var h, code := Waiting(m, high), CodeAt(m, c);
    var q, text := m.mode.q, m.mode.text;
    assert Shifted16(HexValue(c), 0) == HexValue(c);
    assert Take(m, c, config) == AtUnicode(m, c) == Go(EndEscape(m, q, text, code));
    assert Take(h, c, config) == AtUnicode(h, c) == Go(EndEscape(h, q, text, code));
    if IsLow(code) {
      LowDecoded(code);
      PairDecoded(high, code);
      assert |text + REPLACEMENT| == |text| + 3;
    } else {
      var bytes := if Decode(code).Bytes? then Decode(code).bytes else [];
      assert |text + REPLACEMENT + bytes| == |text + bytes| + 3;
    }
  }

  lemma LowDecoded(code: nat)
    requires IsLow(code)
    ensures Decode(code) == Decoded.Bytes(REPLACEMENT)
  {
  }

  lemma PairDecoded(high: nat, code: nat)
    ensures var v := Pair(high, code);
      if IsHigh(v) then Decode(v) == Waits
      else if IsLow(v) then Decode(v) == Decoded.Bytes(REPLACEMENT)
      else Decode(v).Bytes? && |Decode(v).bytes| == 4
  {
    PairRange(high, code);
  }

  /** The text of the string that is being read. */
  function TextOf(mode: Mode): Bytes {
    if mode.Text? || mode.Escaped? || mode.Unicode? || mode.NeedEscape? || mode.NeedU? then mode.text else []
  }

  // ---------- any next text ----------

  /** The text is parsed without the end of an escape of four digits. */
  predicate EscapeFree(m: Machine, s: Bytes, config: Config)
    decreases |s|
  {
    s != [] ==>
      !EndsEscape(m, s[0]) &&
      (Take(m, s[0], config).Go? && s[0] != '\0' ==> EscapeFree(Take(m, s[0], config).m, s[1..], config))
  }

  /** The first escape makes no difference. */
  predicate MeetsUnnoticed(m: Machine, high: nat, s: Bytes, config: Config)
    decreases |s|
  {
    s != [] &&
    if EndsEscape(m, s[0]) then IsLow(CodeAt(m, s[0])) && IsLow(Pair(high, CodeAt(m, s[0])))
    else
      Take(m, s[0], config).Go? && s[0] != '\0' && MeetsUnnoticed(Take(m, s[0], config).m, high, s[1..], config)
  }

  function WaitingResult(r: Result, high: nat): Result {
    match r
    case More(m) => More(Waiting(m, high))
    case Value(v, taken, next) => Result.Value(v, taken, Waiting(next, high))
    case Error(_, _) => r
  }

  /** Without an escape the result is the same, and the surrogate goes on waiting; after an escape that does not
      notice it, all is the same. */
  lemma {:induction false} ParseWaits(m: Machine, high: nat, s: Bytes, i: nat, left: nat, config: Config)
    requires i <= |s| && Quiet(m) && high != 0
    ensures var r, r1 := ParseFrom(m, s, i, left, config), ParseFrom(Waiting(m, high), s, i, left, config);
      (EscapeFree(m, s[i..], config) ==> r1 == WaitingResult(r, high)) &&
      (MeetsUnnoticed(m, high, s[i..], config) ==> r1 == r)
    decreases |s| - i
  {
    if i < |s| {
      var h, c := Waiting(m, high), s[i];
      assert s[i..][0] == c && s[i..][1..] == s[i + 1..];
      ParseAt(m, s, i, left, config);
      ParseAt(h, s, i, left, config);
      if EndsEscape(m, c) {
        EscapeMeets(m, high, c, config);
      } else {
        TakeWaits(m, high, c, config);
        var o := Take(m, c, config);
        if o.Go? && Seen(c, left, config).Left? {
          var n := Seen(c, left, config).n;
          assert AfterPeek(m, s, i, n, config) == AfterGo(o.m, s, i, n, config);
          assert AfterPeek(h, s, i, n, config) == AfterGo(Waiting(o.m, high), s, i, n, config);
          if c != '\0' { ParseWaits(o.m, high, s, i + 1, n, config); }
        }
      }
    }
  }

  /** In every other text there is a first escape, which ends with byte `k`; from there on the text of the string
      that is being read is not what it would be. */
  lemma {:induction false} FirstEscape(m: Machine, high: nat, s: Bytes, config: Config) returns (k: nat)
    requires Quiet(m) && high != 0 && !EscapeFree(m, s, config) && !MeetsUnnoticed(m, high, s, config)
    ensures k < |s| && Fed(m, s[..k + 1], config).Some? && Fed(Waiting(m, high), s[..k + 1], config).Some?
    ensures TextOf(Fed(m, s[..k + 1], config).value.mode) !=
      TextOf(Fed(Waiting(m, high), s[..k + 1], config).value.mode)
    decreases |s|
  {
    var h, c, o := Waiting(m, high), s[0], Take(m, s[0], config);
    k := 0;
    if EndsEscape(m, c) {
      EscapeMeets(m, high, c, config);
      assert s[..1] == [c];
      FedByte(m, c, o.m, config);
      FedByte(h, c, Take(h, c, config).m, config);
    } else {
      TakeWaits(m, high, c, config);
      k := FirstEscape(o.m, high, s[1..], config);
      k := k + 1;
      assert s[..k + 1][0] == c && s[..k + 1][1..] == s[1..][..k];
    }
  }

  /** For a new tokener and any next text at all. */
  lemma AnyNextText(high: nat, s: Bytes, config: Config)
    requires high != 0
    ensures var r, r1 := Parse(INIT, s, config), Parse(INIT.(high := high), s, config);
      (EscapeFree(INIT, s, config) ==> r1 == WaitingResult(r, high)) &&
      (MeetsUnnoticed(INIT, high, s, config) ==> r1 == r)
    ensures !EscapeFree(INIT, s, config) && !MeetsUnnoticed(INIT, high, s, config) ==>
      exists k: nat :: Apart(high, s, k, config)
  {
    assert s[0..] == s;
    ParseWaits(INIT, high, s, 0, 0, config);
    if !EscapeFree(INIT, s, config) && !MeetsUnnoticed(INIT, high, s, config) {
      var k := FirstEscape(INIT, high, s, config);
      assert Apart(high, s, k, config);
    }
  }

  /** After byte `k` the strings that are being read differ. */
  ghost predicate Apart(high: nat, s: Bytes, k: nat, config: Config) {
    k < |s| &&
    var o, o1 := Fed(INIT, s[..k + 1], config), Fed(INIT.(high := high), s[..k + 1], config);
    o.Some? && o1.Some? && TextOf(o.value.mode) != TextOf(o1.value.mode)
  }

  lemma {:induction false} FedWaits(m: Machine, high: nat, a: Bytes, config: Config)
    requires Quiet(m) && EscapeFree(m, a, config) && Fed(m, a, config).Some?
    ensures var m1 := Fed(m, a, config).value; Fed(Waiting(m, high), a, config) == Some(Waiting(m1, high)) && Quiet(m1)
    decreases |a|
  {
    if a != [] {
      TakeWaits(m, high, a[0], config);
      FedWaits(Take(m, a[0], config).m, high, a[1..], config);
    }
  }

  /** The first string value with an escape, wherever it stands: it is read otherwise exactly when the surrogate
      makes a difference to its units. */
  lemma AnyString(m: Machine, high: nat, a: Bytes, m1: Machine, units: seq<Unit>, config: Config)
    requires Quiet(m) && EscapeFree(m, a, config) && Fed(m, a, config) == Some(m1)
    requires m1.mode == Text(QUOTED, []) && ValidUnits(units, '"')
    ensures var text, e, e0 := a + (Source(units) + "\""), LeftOut(high, units), LeftOut(0, units);
      Fed(m, text, config) == Some(Ended(m1, e0.bytes, e0.high)) &&
      Fed(Waiting(m, high), text, config) == Some(Ended(m1, e.bytes, e.high)) &&
      (e.bytes == e0.bytes <==> NoDifference(high, units))
  {
    var e, e0 := LeftOut(high, units), LeftOut(0, units);
    FedWaits(m, high, a, config);
    LeftRead(m1, [], 0, units, config);
    LeftRead(m1, [], high, units, config);
    assert Reading(m1, [], 0) == m1 && Reading(m1, [], high) == Waiting(m1, high);
    assert [] + e.bytes == e.bytes && [] + e0.bytes == e0.bytes;
    FedParts(m, a, Source(units) + "\"", m1, config);
    FedParts(Waiting(m, high), a, Source(units) + "\"", Waiting(m1, high), config);
    LeftExact(high, units);
  }
}
