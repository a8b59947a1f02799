/** The words of JSON, and NaN and the infinities besides: in any case, or as they are written in strict mode. */
module JsonWords {
  import opened Options
  import opened Sequences
  import opened Json
  import opened JsonFeed
  import opened JsonMachine
  import opened JsonRoundTrip
  import opened JsonStrict

  /** The two cases of a letter. */
  predicate OtherCase(c: char, d: char) {
    ('a' <= c <= 'z' && d as int == c as int - 32) || ('A' <= c <= 'Z' && d as int == c as int + 32)
  }

  /** The word with letters of either case; in strict mode, just the word. */
  predicate Variant(t: Bytes, word: Bytes, strict: bool) {
    |t| == |word| && forall i :: 0 <= i < |t| ==> t[i] == word[i] || (!strict && OtherCase(t[i], word[i]))
  }

  /** What has been read of a word. */
  lemma Prefixes(t: Bytes, word: Bytes, strict: bool, n: nat)
    requires Variant(t, word, strict) && n <= |t|
    ensures WordPrefix(word, t[..n], strict)
    ensures forall c :: WordPrefix(word, t + [c], strict)
  {
  }

  /** Words that differ in their second letter, or in their first. */
  lemma Other(t: Bytes, word: Bytes, other: Bytes, strict: bool, k: nat, n: nat)
    requires Variant(t, word, strict) && k < |other| && k < n <= |t| && ToLower(word[k]) != ToLower(other[k])
    ensures !WordPrefix(other, t[..n], strict)
    ensures forall c :: !WordPrefix(other, t + [c], strict)
  {
    assert t[..n][k] == t[k] && forall c :: (t + [c])[k] == t[k];
  }

  // ---------- null and NaN ----------

  lemma {:induction false} NullFed(m: Machine, t: Bytes, n: nat, isNull: bool, config: Config)
    requires Variant(t, if isNull then "null" else "NaN", config.strict) && n <= |t| && m.mode == NullWord(t[..n])
    ensures Fed(m, t[n..], config) == Some(m.(mode := NullWord(t)))
    decreases |t| - n
  {
    if n == |t| {
      assert t[..n] == t;
    } else {
      var m1 := m.(mode := NullWord(t[..n + 1]));
      assert t[..n] + [t[n]] == t[..n + 1] && t[n..][1..] == t[n + 1..] && t[n] != '\0';
      Prefixes(t, if isNull then "null" else "NaN", config.strict, n + 1);
      assert Take(m, t[n], config) == AtNull(m, t[n], config) == Go(m1);
      NullFed(m1, t, n + 1, isNull, config);
    }
  }

  lemma NullVariant(m: Machine, t: Bytes, isNull: bool, config: Config)
    requires m.mode == Ws(Start) && Variant(t, if isNull then "null" else "NaN", config.strict)
    ensures var m1, v := m.(mode := NullWord(t)), if isNull then Null else NaN;
      Fed(m, t, config) == Some(m1) && forall c :: Take(m1, c, config) == Take(Complete(m, v), c, config)
  {
    var m0, m1, v := m.(mode := NullWord([])), m.(mode := NullWord(t)), if isNull then Null else NaN;
    StartByte(m, t[0], config);
    assert t[..0] == [] && t[0..] == t;
    NullFed(m0, t, 0, isNull, config);
    Prefixes(t, if isNull then "null" else "NaN", config.strict, 1);
    if !isNull { Other(t, "NaN", "null", config.strict, 1, 2); }
    forall c
      ensures Take(m1, c, config) == Take(Complete(m, v), c, config)
    {
      assert Take(m1, c, config) == AtNull(m1, c, config);
    }
  }

  // ---------- true and false ----------

  lemma {:induction false} BoolFed(m: Machine, t: Bytes, n: nat, b: bool, config: Config)
    requires Variant(t, if b then "true" else "false", config.strict) && n <= |t| && m.mode == BoolWord(t[..n])
    ensures Fed(m, t[n..], config) == Some(m.(mode := BoolWord(t)))
    decreases |t| - n
  {
    if n == |t| {
      assert t[..n] == t;
    } else {
      var m1 := m.(mode := BoolWord(t[..n + 1]));
      assert t[..n] + [t[n]] == t[..n + 1] && t[n..][1..] == t[n + 1..] && t[n] != '\0';
      Prefixes(t, if b then "true" else "false", config.strict, n + 1);
      if !b { Other(t, "false", "true", config.strict, 0, n + 1); }
      assert Take(m, t[n], config) == AtBool(m, t[n], config) == Go(m1);
      BoolFed(m1, t, n + 1, b, config);
    }
  }

  lemma BoolVariant(m: Machine, t: Bytes, b: bool, config: Config)
    requires m.mode == Ws(Start) && Variant(t, if b then "true" else "false", config.strict)
    ensures var m1 := m.(mode := BoolWord(t));
      Fed(m, t, config) == Some(m1) && forall c :: Take(m1, c, config) == Take(Complete(m, Bool(b)), c, config)
  {
    var m0 := m.(mode := BoolWord([]));
    assert t[0] in {'t', 'T', 'f', 'F'};
    StartByte(m, t[0], config);
    assert t[..0] == [] && t[0..] == t;
    BoolFed(m0, t, 0, b, config);
    BoolEnds(m, t, b, config);
  }

  lemma BoolEnds(m: Machine, t: Bytes, b: bool, config: Config)
    requires Variant(t, if b then "true" else "false", config.strict)
    ensures var m1 := m.(mode := BoolWord(t));
      forall c :: Take(m1, c, config) == Take(Complete(m, Bool(b)), c, config)
  {
    var m1 := m.(mode := BoolWord(t));
    Prefixes(t, if b then "true" else "false", config.strict, 1);
    if !b { Other(t, "false", "true", config.strict, 0, 1); }
    forall c
      ensures Take(m1, c, config) == Take(Complete(m, Bool(b)), c, config)
    {
      assert Take(m1, c, config) == AtBool(m1, c, config);
    }
  }

  // ---------- infinities ----------

  lemma {:induction false} InfFed(m: Machine, t: Bytes, n: nat, negative: bool, config: Config)
    requires Variant(t, INFINITY, config.strict) && n <= |t| && m.mode == InfWord(negative, n)
    ensures Fed(m, t[n..], config) == Some(m.(mode := InfWord(negative, 8)))
    decreases |t| - n
  {
    if n < |t| {
      var m1 := m.(mode := InfWord(negative, n + 1));
      assert ToLower(INFINITY[n]) == INFINITY_LOWER[n] && t[n] != '\0' && t[n..][1..] == t[n + 1..];
      assert Take(m, t[n], config) == AtInf(m, t[n], config) == Go(m1);
      InfFed(m1, t, n + 1, negative, config);
    }
  }

  lemma InfVariant(m: Machine, t: Bytes, negative: bool, config: Config)
    requires m.mode == Ws(Start) && Variant(t, INFINITY, config.strict)
    ensures var m1 := m.(mode := InfWord(negative, 8));
      Fed(m, (if negative then "-" else []) + t, config) == Some(m1) &&
      forall c :: Take(m1, c, config) == Take(Complete(m, Infinity(negative)), c, config)
  {
    var i0, m1 := m.(mode := InfWord(negative, 0)), m.(mode := InfWord(negative, 8));
    assert t[0..] == t && t[0] in {'I', 'i'};
    InfFed(i0, t, 0, negative, config);
    if negative {
      var m0 := m.(mode := NumberFrom([], false));
      var n1 := m.(mode := Number([] + ['-'], Scanned(ScanFrom([], false), '-')));
      StartByte(m, '-', config);
      assert Take(m0, '-', config) == AtNumber(m0, '-', config) == Go(n1);
      FedByte(m, '-', n1, config);
      assert Take(n1, t[0], config) == AtNumber(n1, t[0], config) == Take(i0, t[0], config);
      FedParts(m, "-", t, n1, config);
    } else {
      StartByte(m, t[0], config);
      assert [] + t == t;
    }
    forall c
      ensures Take(m1, c, config) == Take(Complete(m, Infinity(negative)), c, config)
    {
      assert Take(m1, c, config) == AtInf(m1, c, config);
    }
  }

  // ---------- texts that are one word ----------

  /** The value of a word. */
  function Meant(word: Bytes): Option<Json> {
    if word == "null" then Some(Null)
    else if word == "true" then Some(Bool(true))
    else if word == "false" then Some(Bool(false))
    else if word == "NaN" then Some(NaN)
    else if word == "Infinity" then Some(Infinity(false))
    else if word == "-Infinity" then Some(Infinity(true))
    else None
  }

  lemma VariantAscii(t: Bytes, word: Bytes, strict: bool)
    requires Variant(t, word, strict) && Meant(word).Some?
    ensures forall i :: 0 <= i < |t| ==> t[i] as int < 0x80
  {
  }

  /** A text that is one of the words is parsed as the value of the word. */
  lemma WordParsed(t: Bytes, word: Bytes, config: Config)
    requires Variant(t, word, config.strict) && Meant(word).Some?
    ensures Parse(INIT, t + "\0", config) == Result.Value(Meant(word).value, |t|, INIT)
  {
    var s, v := t + "\0", Meant(word).value;
    if word == "null" || word == "NaN" {
      NullVariant(INIT, t, word == "null", config);
    } else if word == "true" || word == "false" {
      BoolVariant(INIT, t, word == "true", config);
    } else if word == "Infinity" {
      InfVariant(INIT, t, false, config);
      assert [] + t == t;
    } else {
      var u := t[1..];
      assert "-" + u == t && Variant(u, INFINITY, config.strict);
      InfVariant(INIT, u, true, config);
    }
    VariantAscii(t, word, config.strict);
    AsciiPasses(t, config);
    assert s[..|t|] == t;
    EndOfText(INIT, s, |t|, Fed(INIT, t, config).value, v, config);
  }
}
