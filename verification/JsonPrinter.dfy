/** json_object_to_json_string: the printers, which append to a buffer, against the printed form. */
module JsonPrinter {
  import opened Sequences
  import opened Json
  import opened Printbuf

  // ---------- strings ----------

  lemma {:induction false} EscapeParts(a: Bytes, b: Bytes, flags: Flags)
    ensures EscapeAll(a + b, flags) == EscapeAll(a, flags) + EscapeAll(b, flags)
    decreases |a|
  {
    if a == [] {
      assert a + b == b;
    } else {
      assert (a + b)[1..] == a[1..] + b;
      EscapeParts(a[1..], b, flags);
    }
  }

  /** The printed form of a string that ends one byte later. */
  lemma EscapeNext(s: Bytes, i: nat, flags: Flags)
    requires i < |s|
    ensures EscapeAll(s[..i + 1], flags) == EscapeAll(s[..i], flags) + Escape(s[i], flags)
    ensures |EscapeAll(s[..i + 1], flags)| <= |EscapeAll(s, flags)|
  {
    EscapeParts(s[..i], [s[i]], flags);
    assert s[..i] + [s[i]] == s[..i + 1];
    assert EscapeAll([s[i]], flags) == Escape(s[i], flags) + EscapeAll([s[i]][1..], flags);
    EscapeParts(s[..i + 1], s[i + 1..], flags);
    assert s[..i + 1] + s[i + 1..] == s;
  }

  /** What has been appended, with the plain bytes from `start` to `pos` that still wait for that, is the
      printed form of the first `pos` bytes. */
  ghost predicate Printed(text: Bytes, before: Bytes, str: Bytes, start: nat, pos: nat, flags: Flags) {
    start <= pos <= |str| && text + str[start..pos] == before + EscapeAll(str[..pos], flags)
  }

  lemma PlainByte(text: Bytes, before: Bytes, str: Bytes, start: nat, pos: nat, flags: Flags)
    requires Printed(text, before, str, start, pos, flags) && pos < |str| && Escape(str[pos], flags) == [str[pos]]
    ensures Printed(text, before, str, start, pos + 1, flags)
  {
    EscapeNext(str, pos, flags);
    assert str[start..pos + 1] == str[start..pos] + [str[pos]];
    Regroup(text, str[start..pos], [str[pos]]);
    Regroup(before, EscapeAll(str[..pos], flags), [str[pos]]);
  }

  lemma EscapedByte(text: Bytes, before: Bytes, str: Bytes, start: nat, pos: nat, flags: Flags)
    requires Printed(text, before, str, start, pos, flags) && pos < |str|
    ensures Printed(text + str[start..pos] + Escape(str[pos], flags), before, str, pos + 1, pos + 1, flags)
  {
    EscapeNext(str, pos, flags);
    Regroup(before, EscapeAll(str[..pos], flags), Escape(str[pos], flags));
    assert str[pos + 1..pos + 1] == [];
  }

  /** json_escape_str: runs of plain bytes are appended at once. */
  method EscapeStr(pb: Printbuf, str: Bytes, flags: Flags)
    requires pb.Valid() && pb.bpos + |EscapeAll(str, flags)| <= LIMIT
    modifies pb, pb.buf
    ensures pb.Valid() && (pb.buf == old(pb.buf) || fresh(pb.buf))
    ensures pb.Contents() == old(pb.Contents()) + EscapeAll(str, flags)
  {
    ghost var before := pb.Contents();
    var pos, start := 0, 0;
    assert str[..0] == [];
    while pos < |str|
      invariant pb.Valid() && (pb.buf == old(pb.buf) || fresh(pb.buf)) && 0 <= start <= pos
      invariant Printed(pb.Contents(), before, str, start, pos, flags)
    {
      var c := str[pos];
      if (c in ['\U{0008}', '\n', '\r', '\t', '\U{000C}', '"', '\\', '/'] && !(flags.noSlashEscape && c == '/')) ||
        c < ' ' {
        FlushEscape(pb, before, str, start, pos, flags);
        pos := pos + 1;
        start := pos;
      } else {
        PlainByte(pb.Contents(), before, str, start, pos, flags);
        pos := pos + 1;
      }
    }
    assert str[..pos] == str;
    if pos > start { var _ := pb.Memappend(str[start..pos]); }
  }

  /** The plain bytes before an escape, and the escape. */
  method FlushEscape(pb: Printbuf, ghost before: Bytes, str: Bytes, start: nat, pos: nat, flags: Flags)
    requires pb.Valid() && Printed(pb.Contents(), before, str, start, pos, flags)
    requires pos < |str| && |before| + |EscapeAll(str, flags)| <= LIMIT
    modifies pb, pb.buf
    ensures pb.Valid() && (pb.buf == old(pb.buf) || fresh(pb.buf))
    ensures Printed(pb.Contents(), before, str, pos + 1, pos + 1, flags)
  {
    ghost var text := pb.Contents();
    EscapedByte(text, before, str, start, pos, flags);
    EscapeNext(str, pos, flags);
    if pos > start { var _ := pb.Memappend(str[start..pos]); }
    var _ := pb.Memappend(Escape(str[pos], flags));
    assert pb.Contents() == text + str[start..pos] + Escape(str[pos], flags);
  }

  /** json_object_string_to_json_string. */
  method PrintString(pb: Printbuf, s: Bytes, flags: Flags) returns (r: int)
    requires pb.Valid() && pb.bpos + |Quoted(s, flags)| <= LIMIT
    modifies pb, pb.buf
    ensures pb.Valid() && (pb.buf == old(pb.buf) || fresh(pb.buf))
    ensures pb.Contents() == old(pb.Contents()) + Quoted(s, flags) && pb.Terminated() && r >= 0
  {
    PutQuote(pb, s, flags);
    var _ := pb.Memappend("\"");
    Regroup(old(pb.Contents()), "\"" + EscapeAll(s, flags), "\"");
    r := 0;
  }

  /** A quote and an escaped string. */
  method PutQuote(pb: Printbuf, s: Bytes, flags: Flags)
    requires pb.Valid() && pb.bpos + 1 + |EscapeAll(s, flags)| <= LIMIT
    modifies pb, pb.buf
    ensures pb.Valid() && (pb.buf == old(pb.buf) || fresh(pb.buf))
    ensures pb.Contents() == old(pb.Contents()) + ("\"" + EscapeAll(s, flags))
  {
    var _ := pb.Memappend("\"");
    EscapeStr(pb, s, flags);
    Regroup(old(pb.Contents()), "\"", EscapeAll(s, flags));
  }

  // ---------- arrays and objects ----------

  /** indent. */
  method PutIndent(pb: Printbuf, level: nat, flags: Flags)
    requires pb.Valid() && pb.bpos + |Indent(level, flags)| <= LIMIT
    modifies pb, pb.buf
    ensures pb.Valid() && (pb.buf == old(pb.buf) || fresh(pb.buf))
    ensures pb.Contents() == old(pb.Contents()) + Indent(level, flags)
  {
    if flags.pretty {
      if flags.prettyTab {
        var _ := pb.Memset(-1, '\t', level);
      } else {
        var _ := pb.Memset(-1, ' ', level * 2);
      }
    }
    assert pb.Contents() == old(pb.Contents()) + Indent(level, flags);
  }

  /** What precedes an element: a comma unless it is the first, and white space. */
  method PutLead(pb: Printbuf, first: bool, level: nat, flags: Flags)
    requires pb.Valid() && pb.bpos + |Lead(first, level, flags)| <= LIMIT
    modifies pb, pb.buf
    ensures pb.Valid() && (pb.buf == old(pb.buf) || fresh(pb.buf))
    ensures pb.Contents() == old(pb.Contents()) + Lead(first, level, flags)
  {
    ghost var before := pb.Contents();
    ghost var comma := if first then [] else "," + NewLine(flags);
    if !first { PutComma(pb, flags); }
    assert pb.Contents() == before + comma;
    if flags.spaced && !flags.pretty { var _ := pb.Memappend(" "); }
    assert pb.Contents() == before + comma + Space(flags);
    PutIndent(pb, level + 1, flags);
    Regroup(before + comma, Space(flags), Indent(level + 1, flags));
    Regroup(before, comma, Space(flags) + Indent(level + 1, flags));
    Regroup(comma, Space(flags), Indent(level + 1, flags));
  }

  method PutComma(pb: Printbuf, flags: Flags)
    requires pb.Valid() && pb.bpos + 1 + |NewLine(flags)| <= LIMIT
    modifies pb, pb.buf
    ensures pb.Valid() && (pb.buf == old(pb.buf) || fresh(pb.buf))
    ensures pb.Contents() == old(pb.Contents()) + ("," + NewLine(flags))
  {
    var _ := pb.Memappend(",");
    if flags.pretty { var _ := pb.Memappend("\n"); }
  }

  /** The end of an array or object. */
  method PutTail(pb: Printbuf, any: bool, close: char, level: nat, flags: Flags) returns (r: int)
    requires pb.Valid() && pb.bpos + |Tail(any, level, flags)| + 1 <= LIMIT
    modifies pb, pb.buf
    ensures pb.Valid() && (pb.buf == old(pb.buf) || fresh(pb.buf))
    ensures pb.Contents() == old(pb.Contents()) + (Tail(any, level, flags) + [close]) && pb.Terminated() && r >= 0
  {
    if flags.pretty {
      if any { var _ := pb.Memappend("\n"); }
      PutIndent(pb, level, flags);
    }
    if flags.spaced && !flags.pretty {
      r := pb.Memappend([' ', close]);
    } else {
      r := pb.Memappend([close]);
    }
  }

  lemma {:induction false} ElementsLonger(v: Json, i: nat, n: nat, level: nat, flags: Flags)
    requires (v.Array? && i <= n <= |v.items|) || (v.Object? && i <= n <= |v.members|)
    ensures |Elements(v, i, level, flags)| <= |Elements(v, n, level, flags)|
    decreases n
  {
    if i < n { ElementsLonger(v, i, n - 1, level, flags); }
  }

  /** An element with what precedes it. */
  function Piece(v: Json, i: nat, level: nat, flags: Flags): Bytes
    requires (v.Array? && i < |v.items|) || (v.Object? && i < |v.members|)
  {
    Lead(i == 0, level, flags) + Element(v, i, level, flags)
  }

  /** The text of an array or object as far as element `i`. */
  function Partly(v: Json, i: nat, level: nat, flags: Flags): Bytes
    requires (v.Array? && i <= |v.items|) || (v.Object? && i <= |v.members|)
  {
    [if v.Array? then '[' else '{'] + NewLine(flags) + Elements(v, i, level, flags)
  }

  lemma PartlyNext(before: Bytes, v: Json, i: nat, level: nat, flags: Flags)
    requires (v.Array? && i < |v.items|) || (v.Object? && i < |v.members|)
    ensures before + Partly(v, i + 1, level, flags) == before + Partly(v, i, level, flags) + Piece(v, i, level, flags)
    ensures |Partly(v, i + 1, level, flags)| <= |Print(v, level, flags)|
  {
    ElementsLonger(v, i + 1, if v.Array? then |v.items| else |v.members|, level, flags);
    var head := [if v.Array? then '[' else '{'] + NewLine(flags);
    var elements, lead, element := Elements(v, i, level, flags), Lead(i == 0, level, flags),
      Element(v, i, level, flags);
    Regroup(elements, lead, element);
    Regroup(head, elements, lead + element);
    Regroup(before, head + elements, lead + element);
  }

  lemma PartlyWhole(before: Bytes, v: Json, level: nat, flags: Flags)
    requires v.Array? || v.Object?
    ensures var n := if v.Array? then |v.items| else |v.members|;
      before + Print(v, level, flags) ==
      before + Partly(v, n, level, flags) + (Tail(n > 0, level, flags) + [if v.Array? then ']' else '}']) &&
      |Print(v, level, flags)| == |Partly(v, n, level, flags)| + |Tail(n > 0, level, flags)| + 1
  {
    var n := if v.Array? then |v.items| else |v.members|;
    var tail, end := Tail(n > 0, level, flags), [if v.Array? then ']' else '}'];
    Regroup(Partly(v, n, level, flags), tail, end);
    Regroup(before, Partly(v, n, level, flags), tail + end);
  }

  method PutHead(pb: Printbuf, open: char, flags: Flags)
    requires pb.Valid() && pb.bpos + 1 + |NewLine(flags)| <= LIMIT
    modifies pb, pb.buf
    ensures pb.Valid() && (pb.buf == old(pb.buf) || fresh(pb.buf))
    ensures pb.Contents() == old(pb.Contents()) + ([open] + NewLine(flags))
  {
    var _ := pb.Memappend([open]);
    if flags.pretty { var _ := pb.Memappend("\n"); }
  }

  /** The body of the loop over the elements of an array. */
  method PrintItem(pb: Printbuf, v: Json, i: nat, level: nat, flags: Flags) returns (r: int)
    requires v.Array? && i < |v.items| && pb.Valid() && pb.bpos + |Piece(v, i, level, flags)| <= LIMIT
    modifies pb, pb.buf
    ensures pb.Valid() && (pb.buf == old(pb.buf) || fresh(pb.buf))
    ensures pb.Contents() == old(pb.Contents()) + Piece(v, i, level, flags) && r >= 0
    decreases v, 0, 1
  {
    PutLead(pb, i == 0, level, flags);
    r := PrintValue(pb, v.items[i], level + 1, flags);
    Regroup(old(pb.Contents()), Lead(i == 0, level, flags), Element(v, i, level, flags));
  }

  /** The loop over the elements of an array. */
  method PrintItems(pb: Printbuf, v: Json, ghost before: Bytes, level: nat, flags: Flags) returns (r: int)
    requires v.Array? && pb.Valid() && |before| + |Print(v, level, flags)| <= LIMIT
    requires pb.Contents() == before + Partly(v, 0, level, flags)
    modifies pb, pb.buf
    ensures pb.Valid() && (pb.buf == old(pb.buf) || fresh(pb.buf))
    ensures pb.Contents() == before + Partly(v, |v.items|, level, flags) && r >= 0
    decreases v, 1
  {
    var i := 0;
    while i < |v.items|
      invariant 0 <= i <= |v.items| && pb.Valid() && (pb.buf == old(pb.buf) || fresh(pb.buf))
      invariant pb.Contents() == before + Partly(v, i, level, flags)
    {
      PartlyNext(before, v, i, level, flags);
      r := PrintItem(pb, v, i, level, flags);
      if r < 0 { return -1; }
      i := i + 1;
    }
    r := 0;
  }

  /** json_object_array_to_json_string. */
  method PrintArray(pb: Printbuf, v: Json, level: nat, flags: Flags) returns (r: int)
    requires v.Array? && pb.Valid() && pb.bpos + |Print(v, level, flags)| <= LIMIT
    modifies pb, pb.buf
    ensures pb.Valid() && (pb.buf == old(pb.buf) || fresh(pb.buf))
    ensures pb.Contents() == old(pb.Contents()) + Print(v, level, flags) && pb.Terminated() && r >= 0
    decreases v, 2
  {
    ghost var before := pb.Contents();
    PutHead(pb, '[', flags);
    assert Partly(v, 0, level, flags) == ['['] + NewLine(flags);
    r := PrintItems(pb, v, before, level, flags);
    if r < 0 { return -1; }
    PartlyWhole(before, v, level, flags);
    r := PutTail(pb, |v.items| > 0, ']', level, flags);
  }

  /** The name of a member and the colon. */
  method PutKey(pb: Printbuf, key: Bytes, flags: Flags)
    requires pb.Valid() && pb.bpos + 1 + |EscapeAll(key, flags)| + |Colon(flags)| <= LIMIT
    modifies pb, pb.buf
    ensures pb.Valid() && (pb.buf == old(pb.buf) || fresh(pb.buf))
    ensures pb.Contents() == old(pb.Contents()) + ("\"" + EscapeAll(key, flags) + Colon(flags))
  {
    PutQuote(pb, key, flags);
    var _ := pb.Memappend(if flags.spaced then "\": " else "\":");
    Regroup(old(pb.Contents()), "\"" + EscapeAll(key, flags), Colon(flags));
  }

  /** The name and the value of a member. */
  method PrintField(pb: Printbuf, v: Json, i: nat, level: nat, flags: Flags) returns (r: int)
    requires v.Object? && i < |v.members| && pb.Valid() && pb.bpos + |Element(v, i, level, flags)| <= LIMIT
    modifies pb, pb.buf
    ensures pb.Valid() && (pb.buf == old(pb.buf) || fresh(pb.buf))
    ensures pb.Contents() == old(pb.Contents()) + Element(v, i, level, flags) && r >= 0
    decreases v, 0, 0
  {
    ghost var name := "\"" + EscapeAll(v.members[i].key, flags) + Colon(flags);
    ghost var value := Print(v.members[i].value, level + 1, flags);
    assert Element(v, i, level, flags) == name + value;
    PutKey(pb, v.members[i].key, flags);
    r := PrintValue(pb, v.members[i].value, level + 1, flags);
    Regroup(old(pb.Contents()), name, value);
  }

  /** The body of the loop over the members of an object. */
  method PrintMember(pb: Printbuf, v: Json, i: nat, level: nat, flags: Flags) returns (r: int)
    requires v.Object? && i < |v.members| && pb.Valid() && pb.bpos + |Piece(v, i, level, flags)| <= LIMIT
    modifies pb, pb.buf
    ensures pb.Valid() && (pb.buf == old(pb.buf) || fresh(pb.buf))
    ensures pb.Contents() == old(pb.Contents()) + Piece(v, i, level, flags) && r >= 0
    decreases v, 0, 1
  {
    PutLead(pb, i == 0, level, flags);
    r := PrintField(pb, v, i, level, flags);
    Regroup(old(pb.Contents()), Lead(i == 0, level, flags), Element(v, i, level, flags));
  }

  /** The loop over the members of an object, in the order of insertion. */
  method PrintMembers(pb: Printbuf, v: Json, ghost before: Bytes, level: nat, flags: Flags) returns (r: int)
    requires v.Object? && pb.Valid() && |before| + |Print(v, level, flags)| <= LIMIT
    requires pb.Contents() == before + Partly(v, 0, level, flags)
    modifies pb, pb.buf
    ensures pb.Valid() && (pb.buf == old(pb.buf) || fresh(pb.buf))
    ensures pb.Contents() == before + Partly(v, |v.members|, level, flags) && r >= 0
    decreases v, 1
  {
    var i := 0;
    while i < |v.members|
      invariant 0 <= i <= |v.members| && pb.Valid() && (pb.buf == old(pb.buf) || fresh(pb.buf))
      invariant pb.Contents() == before + Partly(v, i, level, flags)
    {
      PartlyNext(before, v, i, level, flags);
      r := PrintMember(pb, v, i, level, flags);
      if r < 0 { return -1; }
      i := i + 1;
    }
    r := 0;
  }

  /** json_object_object_to_json_string. */
  method PrintObject(pb: Printbuf, v: Json, level: nat, flags: Flags) returns (r: int)
    requires v.Object? && pb.Valid() && pb.bpos + |Print(v, level, flags)| <= LIMIT
    modifies pb, pb.buf
    ensures pb.Valid() && (pb.buf == old(pb.buf) || fresh(pb.buf))
    ensures pb.Contents() == old(pb.Contents()) + Print(v, level, flags) && pb.Terminated() && r >= 0
    decreases v, 2
  {
    ghost var before := pb.Contents();
    PutHead(pb, '{', flags);
    assert Partly(v, 0, level, flags) == ['{'] + NewLine(flags);
    r := PrintMembers(pb, v, before, level, flags);
    if r < 0 { return -1; }
    PartlyWhole(before, v, level, flags);
    r := PutTail(pb, |v.members| > 0, '}', level, flags);
  }

  /** The printer of each kind of value. */
  method PrintValue(pb: Printbuf, v: Json, level: nat, flags: Flags) returns (r: int)
    requires pb.Valid() && pb.bpos + |Print(v, level, flags)| <= LIMIT
    modifies pb, pb.buf
    ensures pb.Valid() && (pb.buf == old(pb.buf) || fresh(pb.buf))
    ensures pb.Contents() == old(pb.Contents()) + Print(v, level, flags) && pb.Terminated() && r >= 0
    decreases v, 3
  {
    match v
    case Null => r := pb.Memappend("null");
    case Bool(b) => r := pb.Memappend(if b then "true" else "false");
    case Int(i) => r := pb.Memappend(Decimal(i));
    case UInt(u) => r := pb.Memappend(Decimal(u));
    case Double(text) => r := pb.Memappend(text);
    case Infinity(negative) => r := pb.Memappend(if negative then "-Infinity" else "Infinity");
    case NaN => r := pb.Memappend("NaN");
    case Str(s) => r := PrintString(pb, s, flags);
    case Array(_) => r := PrintArray(pb, v, level, flags);
    case Object(_) => r := PrintObject(pb, v, level, flags);
  }

  /** json_object_to_json_string_ext: the buffer holds the printed form, as a C string. */
  method ToJsonString(pb: Printbuf, v: Json, flags: Flags)
    requires pb.Valid() && |Print(v, 0, flags)| <= LIMIT
    modifies pb, pb.buf
    ensures pb.Valid() && pb.Contents() == Print(v, 0, flags) && pb.Terminated()
  {
    pb.Reset();
    var r := PrintValue(pb, v, 0, flags);
  }
}
