/** The layout of printed values: where lines begin, how far they are indented, and which slashes are escaped. */
module JsonLayout {
  import opened Sequences
  import opened Json
  import opened JsonRoundTrip

  predicate AllOf(s: Bytes, c: char, n: nat) { |s| == n && forall i :: 0 <= i < n ==> s[i] == c }

  /** The white space at the start of a line, `depth` levels deep. */
  predicate Indented(s: Bytes, depth: nat, flags: Flags) {
    if flags.prettyTab then AllOf(s, '\t', depth) else AllOf(s, ' ', 2 * depth)
  }

  function Opening(v: Json): char { if v.Array? then '[' else '{' }

  /** Every element comes after the opening bracket or a comma: on a line of its own, one level deeper than its
      container, if the flags ask for that; otherwise after one space or none. */
  lemma ElementLine(v: Json, i: nat, level: nat, flags: Flags) returns (head: Bytes, space: Bytes)
    requires (v.Array? || v.Object?) && i < Size(v)
    ensures head + space + Element(v, i, level, flags) <= Print(v, level, flags)
    ensures var mark := if i == 0 then Opening(v) else ',';
      if flags.pretty then
        |head| > 1 && head[|head| - 1] == '\n' && head[|head| - 2] == mark && Indented(space, level + 1, flags)
      else
        head != [] && head[|head| - 1] == mark && space == if flags.spaced then " " else ""
  {
    var start, lead := [Opening(v)] + NewLine(flags) + Elements(v, i, level, flags), Lead(i == 0, level, flags);
    var mark := if i == 0 then [] else "," + NewLine(flags);
    head, space := start + mark, Space(flags) + Indent(level + 1, flags);
    HeadPrefix(v, i, level, flags);
    Regroup(mark, Space(flags), Indent(level + 1, flags));
    Regroup(start, mark, space);
    assert lead == mark + space;
    assert head + space == start + lead;
  }

  /** The closing bracket stands on a line of its own, as deep as its container began. */
  lemma ClosingLine(v: Json, level: nat, flags: Flags) returns (head: Bytes, space: Bytes)
    requires (v.Array? || v.Object?) && flags.pretty
    ensures Print(v, level, flags) == head + space + if v.Array? then "]" else "}"
    ensures head != [] && head[|head| - 1] == '\n' && Indented(space, level, flags)
  {
    var elements := Elements(v, Size(v), level, flags);
    var line := if Size(v) > 0 then NewLine(flags) else [];
    head, space := [Opening(v)] + NewLine(flags) + elements + line, Indent(level, flags);
    assert Tail(Size(v) > 0, level, flags) == line + space;
    Regroup([Opening(v)] + NewLine(flags) + elements, line, space);
    if Size(v) == 0 { assert elements == []; }
  }

  // ---------- slashes ----------

  /** Unless the flags say otherwise, every slash has a backslash before it. */
  lemma {:induction false} SlashesEscaped(s: Bytes, flags: Flags, i: nat)
    requires !flags.noSlashEscape && i < |EscapeAll(s, flags)| && EscapeAll(s, flags)[i] == '/'
    ensures i > 0 && EscapeAll(s, flags)[i - 1] == '\\'
    decreases |s|
  {
    var first := Escape(s[0], flags);
    if i < |first| {
      assert first[i] == '/';
    } else {
      SlashesEscaped(s[1..], flags, i - |first|);
    }
  }

  function Slashes(s: Bytes): nat { if s == [] then 0 else (if s[0] == '/' then 1 else 0) + Slashes(s[1..]) }

  /** That is one byte for each slash, and nothing else. */
  lemma {:induction false} SlashesCost(s: Bytes, flags: Flags)
    ensures |EscapeAll(s, flags)| == |EscapeAll(s, flags.(noSlashEscape := true))| +
      if flags.noSlashEscape then 0 else Slashes(s)
    decreases |s|
  {
    if s != [] { SlashesCost(s[1..], flags); }
  }
}
