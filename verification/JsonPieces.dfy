/** Any number of calls on the pieces of a text: exactly when they give what one call on the text gives. */
module JsonPieces {
  import opened Options
  import opened Json
  import opened JsonFeed
  import opened JsonMachine
  import opened JsonChunks
  import opened JsonLeft

  // ---------- how a piece can end ----------

  predicate EndsInNul(a: Bytes) { a != [] && a[|a| - 1] == '\0' }

  /** The call for a piece returns a value at its end, or finds the end inside a character of which `n` bytes
      are to come; or its result is that of any longer text. */
  lemma {:induction false} EndOfPiece(m: Machine, a: Bytes, b: Bytes, i: nat, left: nat, config: Config)
    returns (n: nat)
    requires i <= |a| && Steady(m.mode) && !m.mode.Exactly? && QuoteOk(m.mode)
    requires (!config.validateUtf8 ==> left == 0) && (left > 0 ==> Wide(m.mode))
    ensures var r, m2 := ParseFrom(m, a, i, left, config), Running(m, a[i..], config);
      (r.More? ==> QuoteOk(m2.mode)) &&
      (r.Value? ==> r.taken <= |a|) &&
      (r.Value? ==>
        if r.taken == |a| && !EndsInNul(a[i..]) then
          Fed(m, a[i..], config).Some? && m2.mode == Ws(Finish) && Depth(m2) == 0 &&
          r == Result.Value(m2.current, |a|, Restarted(m2)) &&
          ParseFrom(m, a + b, i, left, config) == ParseFrom(m2, a + b, |a|, 0, config)
        else ParseFrom(m, a + b, i, left, config) == r) &&
      (CutInside(r, |a|) ==>
        Fed(m, a[i..], config).Some? && Wide(m2.mode) && QuoteOk(m2.mode) && config.validateUtf8 && n > 0 &&
        ParseFrom(m, a + b, i, left, config) == ParseFrom(m2, a + b, |a|, n, config))
    decreases |a| - i
  {
    n := left;
    if i == |a| {
      assert a[i..] == [];
    } else {
      var o := Take(m, a[i], config);
      TakeSound(m, a[i], config);
      TakeRestrained(m, a[i], config);
      assert (a + b)[i] == a[i] && a[i..][0] == a[i] && a[i..][1..] == a[i + 1..];
      ParseAt(m, a, i, left, config);
      ParseAt(m, a + b, i, left, config);
      if o.Go? && Seen(a[i], left, config).Left? {
        var k := Seen(a[i], left, config).n;
        assert AfterPeek(m, a, i, k, config) == AfterGo(o.m, a, i, k, config);
        assert AfterPeek(m, a + b, i, k, config) == AfterGo(o.m, a + b, i, k, config);
        assert i + 1 < |a| ==> EndsInNul(a[i..]) == EndsInNul(a[i + 1..]);
        if a[i] != '\0' { n := EndOfPiece(o.m, a, b, i + 1, k, config); }
      }
    }
  }

  /** A byte that ends the text after a complete value. */
  predicate EndsText(c: char, config: Config) {
    !IsSpace(c) && (c == '/' ==> config.strict) && (config.validateUtf8 ==> c as int < 0x80) &&
    (config.strict && !config.allowTrailing ==> c == '\0')
  }

  lemma AfterText(m: Machine, b: Bytes, config: Config)
    requires m.mode == Ws(Finish) && Depth(m) == 0
    ensures Parse(m, b, config) == Result.Value(m.current, 0, Restarted(m)) <==> b == [] || EndsText(b[0], config)
  {
    if b != [] {
      var c, at, o := b[0], m.(mode := Exactly(Finish)), Take(m, b[0], config);
      ParseAt(m, b, 0, 0, config);
      assert Take(at, c, config) == AtPlace(at, Finish, c, config) == Done(at);
      assert !IsSpace(c) && (c == '/' ==> config.strict) ==> o == Done(at);
      if o.Go? && c != '\0' && Seen(c, 0, config).Left? {
        TakenAtLeast(o.m, b, 1, Seen(c, 0, config).n, config);
      }
    }
  }

  /** The text goes on inside a character: only a continuation byte is no error there. */
  lemma InsideCharacter(m: Machine, s: Bytes, i: nat, n: nat, config: Config)
    requires i <= |s| && Wide(m.mode) && QuoteOk(m.mode) && n > 0 && config.validateUtf8
    ensures CutInside(ParseFrom(m, s, i, n, config), i) <==> i == |s| || s[i] as int / 0x40 != 2
  {
    if i < |s| {
      ParseAt(m, s, i, n, config);
      if s[i] as int / 0x40 == 2 {
        var o := Take(m, s[i], config);
        assert m.mode.Text? ==> o == AtText(m, s[i]);
        TakenAtLeast(o.m, s, i + 1, n - 1, config);
      }
    }
  }

  // ---------- a number that is cut where it matters ----------

  predicate Beyond(r: Result, n: nat) { r.More? || r.taken >= n }

  /** The first byte decides how far the calls get. */
  lemma AtOnce(r: Machine, chunks: seq<Bytes>, config: Config)
    requires chunks != [] && chunks[0] != [] && chunks[0][0] as int < 0x80
    requires var o := Take(r, chunks[0][0], config); o.Fail? ==> o.e != Success && o.e != Continue
    ensures var c := chunks[0][0];
      if Take(r, c, config).Go? then c != '\0' ==> Beyond(Calls(r, chunks, config), 1)
      else Calls(r, chunks, config) == Parse(r, Concat(chunks), config) && !Calls(r, chunks, config).More?
  {
    var a, b := chunks[0], Concat(chunks);
    var o := Take(r, a[0], config);
    assert b[0] == a[0];
    ParseAt(r, a, 0, 0, config);
    ParseAt(r, b, 0, 0, config);
    if o.Go? {
      assert AfterPeek(r, a, 0, 0, config) == AfterGo(o.m, a, 0, 0, config);
      if a[0] != '\0' { TakenAtLeast(o.m, a, 1, 0, config); }
    }
  }

  /** Calls for pieces of which the first has lost a byte. */
  lemma CallsStep(r: Machine, chunks: seq<Bytes>, r1: Machine, config: Config)
    requires chunks != [] && chunks[0] != [] && 0 < chunks[0][0] as int < 0x80
    requires Take(r, chunks[0][0], config) == Go(r1)
    ensures var rest := [chunks[0][1..]] + chunks[1..];
      Calls(r, chunks, config) == Shifted(Calls(r1, rest, config), 1) && Concat(rest) == Concat(chunks)[1..]
  {
    var a := chunks[0];
    var rest := [a[1..]] + chunks[1..];
    assert [a[0]] + a[1..] == a && rest[1..] == chunks[1..];
    ParseAt(r, a, 0, 0, config);
    assert AfterPeek(r, a, 0, 0, config) == AfterGo(r1, a, 0, 0, config) == ParseFrom(r1, a, 1, 0, config);
    ParseLater(r1, [a[0]], a[1..], 0, 0, config);
  }

  /** The scan that was made anew starts an infinity where the running one stops, whatever the pieces. */
  lemma {:induction false} InfinityApart(m: Machine, r: Machine, chunks: seq<Bytes>, config: Config)
    requires chunks != [] && Concat(chunks) != [] && m.mode.Number? && r.mode.Number? && Whole(m)
    requires m.mode.text == r.mode.text && m.mode.text != [] && m.mode.text[0] == '-' && m.mode.scan.run > 1 &&
      r.mode.scan.run <= 1
    requires InfinityDiffers(m, Concat(chunks)[0], config)
    ensures Calls(r, chunks, config) != Parse(m, Concat(chunks), config)
    decreases |chunks|
  {
    var b := Concat(chunks);
    if chunks[0] == [] {
      assert Parse(r, [], config) == More(Resumed(r)) && b == Concat(chunks[1..]);
      InfinityApart(m, Resumed(r), chunks[1..], config);
    } else {
      var c := b[0];
      assert c == chunks[0][0];
      NumberStops(m, c, config);
      InfinityStarts(r, c, config);
      AtOnce(r, chunks, config);
      ParseAt(m, b, 0, 0, config);
      InfinityExact(m, r, b, 0, config);
    }
  }

  /** A cut that matters is never undone by a later one. */
  lemma {:induction false} NeverUndone(m: Machine, chunks: seq<Bytes>, config: Config)
    requires chunks != [] && m.mode.Number? && Steady(m.mode) && m.lost == 0 && CutMatters(m, Concat(chunks), config)
    ensures Calls(Resumed(m), chunks, config) != Parse(m, Concat(chunks), config)
    decreases |chunks|
  {
    var b, r := Concat(chunks), Resumed(m);
    if chunks[0] == [] {
      assert Parse(r, [], config) == More(r) && b == Concat(chunks[1..]);
      NeverUndone(m, chunks[1..], config);
    } else {
      var c := b[0];
      assert c == chunks[0][0];
      var a1, a2 := Accepts(m.mode.scan, c), Accepts(r.mode.scan, c);
      if a1 && a2 {
        SameFirst(m, chunks, config);
      } else if !a1 && !a2 {
        InfinityApart(m, r, chunks, config);
      } else {
        OtherFirst(m, chunks, config);
      }
    }
  }

  lemma SameFirst(m: Machine, chunks: seq<Bytes>, config: Config)
    requires chunks != [] && chunks[0] != [] && m.mode.Number? && Steady(m.mode) && m.lost == 0
    requires CutMatters(m, Concat(chunks), config) && Accepts(m.mode.scan, chunks[0][0])
    requires Accepts(Resumed(m).mode.scan, chunks[0][0])
    ensures Calls(Resumed(m), chunks, config) != Parse(m, Concat(chunks), config)
  {
    var b, r, c := Concat(chunks), Resumed(m), chunks[0][0];
    var m1, r1, rest := Longer(m, c), Longer(r, c), [chunks[0][1..]] + chunks[1..];
    assert b[0] == c && [c] + b[1..] == b && (m.mode.text + [c])[0] == m1.mode.text[0];
    assert Take(m, c, config) == AtNumber(m, c, config) == Go(m1);
    assert Take(r, c, config) == AtNumber(r, c, config) == Go(r1);
    CallsStep(r, chunks, r1, config);
    ParseAt(m, b, 0, 0, config);
    assert AfterPeek(m, b, 0, 0, config) == AfterGo(m1, b, 0, 0, config) == ParseFrom(m1, b, 1, 0, config);
    ParseLater(m1, [c], b[1..], 0, 0, config);
    InfinityApart(m1, r1, rest, config);
    assert Calls(r1, rest, config) != Parse(m1, b[1..], config);
  }

  lemma OtherFirst(m: Machine, chunks: seq<Bytes>, config: Config)
    requires chunks != [] && chunks[0] != [] && m.mode.Number? && Steady(m.mode) && m.lost == 0
    requires Accepts(m.mode.scan, chunks[0][0]) != Accepts(Resumed(m).mode.scan, chunks[0][0])
    ensures Calls(Resumed(m), chunks, config) != Parse(m, Concat(chunks), config)
  {
    var b, r, c := Concat(chunks), Resumed(m), chunks[0][0];
    assert b[0] == c && (c == '-' || c == '+');
    assert Take(m, c, config) == AtNumber(m, c, config);
    assert Take(r, c, config) == AtNumber(r, c, config);
    ParseAt(m, b, 0, 0, config);
    ParseAt(r, b, 0, 0, config);
    if Accepts(m.mode.scan, c) {
      NumberStops(r, c, config);
      AtOnce(r, chunks, config);
      StopOrTake(m, r, b, 0, config);
    } else {
      NumberStops(m, c, config);
      TakeSound(r, c, config);
      AtOnce(r, chunks, config);
    }
  }

  // ---------- any number of pieces ----------

  /** A piece that is not the last asks for more, and the rest does not depend on a number that was cut; or it
      fails; or its end, where a value is returned or a character is cut, would be the end of the whole text. */
  predicate CutsHarmless(m: Machine, chunks: seq<Bytes>, config: Config)
    decreases |chunks|
  {
    |chunks| > 1 ==>
      var a, b, r := chunks[0], Concat(chunks[1..]), Parse(m, chunks[0], config);
      match r
      case More(m1) => !CutMatters(Running(m, a, config), b, config) && CutsHarmless(m1, chunks[1..], config)
      case Value(_, taken, _) => taken < |a| || EndsInNul(a) || b == [] || EndsText(b[0], config)
      case Error(_, _) => CutInside(r, |a|) ==> b == [] || b[0] as int / 0x40 != 2
  }

  /** The calls for the pieces of a text give the result, the error and the position of one call on the whole
      text exactly under that condition, unless an earlier success has left levels behind. */
  lemma {:induction false} PiecesAreWhole(m: Machine, chunks: seq<Bytes>, config: Config)
    requires chunks != [] && Steady(m.mode) && !m.mode.Exactly? && QuoteOk(m.mode)
    ensures CutsHarmless(m, chunks, config) ==> Calls(m, chunks, config) == Parse(m, Concat(chunks), config)
    ensures m.lost == 0 && Calls(m, chunks, config) == Parse(m, Concat(chunks), config) ==>
      CutsHarmless(m, chunks, config)
    decreases |chunks|
  {
    if |chunks| == 1 {
      assert Concat(chunks) == chunks[0];
    } else {
      var a, b := chunks[0], Concat(chunks[1..]);
      var r, m2 := Parse(m, a, config), Running(m, a, config);
      assert a[0..] == a && Concat(chunks) == a + b;
      JoinFrom(m, a, b, 0, 0, config);
      var n := EndOfPiece(m, a, b, 0, 0, config);
      if r.More? {
        PiecesAreWhole(r.m, chunks[1..], config);
        if !CutMatters(m2, b, config) {
          CutExact(m2, b, config);
          ShiftedApart(Calls(r.m, chunks[1..], config), Parse(r.m, b, config), |a|);
        } else if m.lost == 0 {
          NeverUndone(m2, chunks[1..], config);
          ShiftedApart(Calls(r.m, chunks[1..], config), Parse(m2, b, config), |a|);
        }
      } else if r.Value? && r.taken == |a| && !EndsInNul(a) {
        ParseLater(m2, a, b, 0, 0, config);
        AfterText(m2, b, config);
        ShiftedApart(Parse(m2, b, config), Result.Value(m2.current, 0, Restarted(m2)), |a|);
      } else if CutInside(r, |a|) {
        InsideCharacter(m2, a + b, |a|, n, config);
        assert b != [] ==> (a + b)[|a|] == b[0];
      }
    }
  }

  /** A new tokener. */
  lemma WholeFromStart(chunks: seq<Bytes>, config: Config)
    requires chunks != []
    ensures Calls(INIT, chunks, config) == Parse(INIT, Concat(chunks), config) <==> CutsHarmless(INIT, chunks, config)
  {
    PiecesAreWhole(INIT, chunks, config);
  }

  lemma ShiftedApart(r1: Result, r2: Result, n: nat)
    ensures Shifted(r1, n) == Shifted(r2, n) <==> r1 == r2
  {
  }
}
