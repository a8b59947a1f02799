/** Texts that the machine takes whole. */
module JsonFeed {
  import opened Options
  import opened Json
  import opened JsonMachine

  /** The machine after all of the text, if it takes every byte of it and none is NUL. */
  function Fed(m: Machine, text: Bytes, config: Config): Option<Machine>
    decreases |text|
  {
    if text == [] then Some(m)
    else
      var o := Take(m, text[0], config);
      if o.Go? && text[0] != '\0' then Fed(o.m, text[1..], config) else None
  }

  lemma {:induction false} FedParts(m: Machine, a: Bytes, b: Bytes, m1: Machine, config: Config)
    requires Fed(m, a, config) == Some(m1)
    ensures Fed(m, a + b, config) == Fed(m1, b, config)
    decreases |a|
  {
    if a == [] {
      assert a + b == b;
    } else {
      assert (a + b)[1..] == a[1..] + b;
      FedParts(Take(m, a[0], config).m, a[1..], b, m1, config);
    }
  }

  lemma FedThree(m: Machine, a: Bytes, b: Bytes, c: Bytes, m1: Machine, m2: Machine, m3: Machine, config: Config)
    requires Fed(m, a, config) == Some(m1) && Fed(m1, b, config) == Some(m2) && Fed(m2, c, config) == Some(m3)
    ensures Fed(m, a + b + c, config) == Some(m3)
  {
    FedParts(m, a, b, m1, config);
    FedParts(m, a + b, c, m2, config);
  }

  lemma FedByte(m: Machine, c: char, m1: Machine, config: Config)
    requires Take(m, c, config) == Go(m1) && c != '\0'
    ensures Fed(m, [c], config) == Some(m1)
  {
    assert Fed(m1, [c][1..], config) == Some(m1);
  }

  /** What a call that validates makes of a byte; one that does not validate counts nothing. */
  function Seen(c: char, left: nat, config: Config): Utf8 {
    if config.validateUtf8 then Validate(c, left) else Left(left)
  }

  /** The continuation bytes that are to come after all of the text. */
  function SeenAll(s: Bytes, left: nat, config: Config): Utf8
    decreases |s|
  {
    if s == [] then Left(left)
    else match Seen(s[0], left, config)
      case BadByte => BadByte
      case Left(n) => SeenAll(s[1..], n, config)
  }

  /** The text is not validated, or it passes and does not end inside a character. */
  predicate Passes(s: Bytes, config: Config) { SeenAll(s, 0, config) == Left(0) }

  lemma {:induction false} SeenParts(a: Bytes, b: Bytes, left: nat, config: Config)
    ensures SeenAll(a + b, left, config) ==
      match SeenAll(a, left, config)
      case BadByte => BadByte
      case Left(n) => SeenAll(b, n, config)
    decreases |a|
  {
    if a == [] {
      assert a + b == b;
    } else {
      assert (a + b)[1..] == a[1..] + b;
      match Seen(a[0], left, config)
      case BadByte =>
      case Left(n) => SeenParts(a[1..], b, n, config);
    }
  }

  /** An ASCII byte stands between characters. */
  lemma PassesUpTo(a: Bytes, c: char, b: Bytes, config: Config)
    requires Passes(a + [c] + b, config) && c as int < 0x80
    ensures Passes(a, config)
  {
    SeenParts(a + [c], b, 0, config);
    SeenParts(a, [c], 0, config);
    if !config.validateUtf8 { SeenNothing(a, 0, config); }
  }

  lemma {:induction false} SeenNothing(s: Bytes, left: nat, config: Config)
    requires !config.validateUtf8
    ensures SeenAll(s, left, config) == Left(left)
    decreases |s|
  {
    if s != [] { SeenNothing(s[1..], left, config); }
  }

  /** One byte of a parse. */
  lemma ParseAt(m: Machine, s: Bytes, i: nat, left: nat, config: Config)
    requires i < |s|
    ensures ParseFrom(m, s, i, left, config) ==
      match Seen(s[i], left, config)
      case BadByte => Conclude(m, NotUtf8, left, false, i, config)
      case Left(n) => AfterPeek(m, s, i, n, config)
  {
  }

  /** A parse goes on where the feeding ends. */
  lemma {:induction false} FedParse(m: Machine, s: Bytes, i: nat, j: nat, left: nat, m1: Machine, config: Config)
    requires i <= j <= |s| && Fed(m, s[i..j], config) == Some(m1) && SeenAll(s[i..j], left, config).Left?
    ensures ParseFrom(m, s, i, left, config) == ParseFrom(m1, s, j, SeenAll(s[i..j], left, config).n, config)
    decreases j - i
  {
    if i == j {
      assert s[i..j] == [];
    } else {
      assert s[i..j][0] == s[i] && s[i..j][1..] == s[i + 1..j];
      var m0 := Take(m, s[i], config).m;
      var n := Seen(s[i], left, config).n;
      ParseAt(m, s, i, left, config);
      assert AfterGo(m0, s, i, n, config) == ParseFrom(m0, s, i + 1, n, config);
      FedParse(m0, s, i + 1, j, n, m1, config);
    }
  }

  /** From the start of a text that passes. */
  lemma FedStart(m: Machine, s: Bytes, j: nat, m1: Machine, config: Config)
    requires j <= |s| && Fed(m, s[..j], config) == Some(m1) && Passes(s[..j], config)
    ensures Parse(m, s, config) == ParseFrom(m1, s, j, 0, config)
  {
    assert s[0..j] == s[..j];
    FedParse(m, s, 0, j, 0, m1, config);
  }
}
