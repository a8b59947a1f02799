/** json_tokener: the parser as the program has it, with its explicit stack, its shared registers and
    its tight loops, against the machine that takes one byte at a time. */
module JsonTokener {
  import opened Options
  import opened Sequences
  import opened Json
  import opened JsonMachine
  import opened JsonMemory

  /** enum json_tokener_state. Its states array_add and object_value_add, in which a level waits for the one
      above it, are the two kinds of Frame. */
  datatype State =
    | EatWs | StateStart | StateFinish | StateNull
    | StateComment | StateCommentStart | StateCommentEol | StateCommentEnd
    | StateString | StateStringEscape | StateEscapeUnicode | StateNeedEscape | StateNeedU | StateBoolean | StateNumber
    | StateArray | StateArrayAfterSep | StateArraySep
    | StateFieldStart | StateFieldStartAfterSep | StateField | StateFieldEnd
    | StateObjectValue | StateObjectSep | StateInf

  /** json_tokener_srec of the level on top, without its value: the states, and the name of a field. */
  datatype Level = Level(state: State, saved: State, field: Option<Bytes>)

  const RESET_LEVEL := Level(EatWs, StateStart, None)

  /** How a case of the switch ends: the byte is taken, it is looked at again, or the call ends. */
  datatype Flow = Advance | Redo | Out

  // ---------- what the stack and the registers stand for ----------

  function FieldOf(r: Level): Bytes { if r.field.Some? then r.field.value else [] }

  predicate IsPlace(s: State) {
    s == StateStart || s == StateFinish || s == StateArray || s == StateArrayAfterSep || s == StateArraySep ||
      s == StateFieldStart ||
    s == StateFieldStartAfterSep || s == StateFieldEnd || s == StateObjectValue || s == StateObjectSep
  }

  function PlaceOf(s: State, r: Level): Place {
    match s
    case StateFinish => Finish
    case StateArray => FirstItem
    case StateArrayAfterSep => NextItem
    case StateArraySep => ItemEnd
    case StateFieldStart => FirstField
    case StateFieldStartAfterSep => NextField
    case StateFieldEnd => FieldEnd(FieldOf(r))
    case StateObjectValue => FieldValue(FieldOf(r))
    case StateObjectSep => ValueEnd
    case _ => Start
  }

  /** The registers that the levels share. */
  datatype Registers =
    Registers(pb: Bytes, quote: char, stPos: nat, ucs: nat, high: nat, isDouble: bool)

  function QuotingOf(r: Level, g: Registers): Quoting { Quoting(r.saved.StateField?, g.quote) }

  function ModeOf(r: Level, g: Registers): Mode {
    match r.state
    case EatWs => Ws(PlaceOf(r.saved, r))
    case StateCommentStart => CommentStart(PlaceOf(r.saved, r))
    case StateComment => Comment(PlaceOf(r.saved, r))
    case StateCommentEol => CommentEol(PlaceOf(r.saved, r))
    case StateCommentEnd => CommentEnd(PlaceOf(r.saved, r))
    case StateInf => InfWord(g.pb != [] && g.pb[0] == '-', g.stPos)
    case StateNull => NullWord(g.pb)
    case StateBoolean => BoolWord(g.pb)
    case StateNumber => NumberFrom(g.pb, g.isDouble)
    case StateString => Text(Quoting(false, g.quote), g.pb)
    case StateField => Text(Quoting(true, g.quote), g.pb)
    case StateStringEscape => Escaped(QuotingOf(r, g), g.pb)
    case StateEscapeUnicode => Unicode(QuotingOf(r, g), g.pb, g.stPos, g.ucs)
    case StateNeedEscape => NeedEscape(QuotingOf(r, g), g.pb)
    case StateNeedU => NeedU(QuotingOf(r, g), g.pb)
    case _ => Exactly(PlaceOf(r.state, r))
  }

  predicate InArray(s: State) { s == StateArray || s == StateArrayAfterSep || s == StateArraySep }

  predicate InSep(s: State) { s == StateArraySep || s == StateObjectSep }

  predicate InObject(s: State) { s == StateFieldStart || s == StateFieldStartAfterSep || s == StateObjectSep }

  predicate InField(s: State) { s == StateFieldEnd || s == StateObjectValue }

  /** What is being filled at a place is there, and nothing is where a value may start. */
  predicate CurrentOk(s: State, field: Option<Bytes>, current: Json) {
    (s == StateStart && current.Null?) || (InArray(s) && current.Array?) || (InObject(s) && current.Object?) ||
    (InField(s) && current.Object? && field.Some?) || s == StateFinish
  }

  predicate IsWs(s: State) {
    s == EatWs || s == StateCommentStart || s == StateComment || s == StateCommentEol || s == StateCommentEnd
  }

  /** The saved state is finish only where the value is complete. */
  predicate SavedOk(r: Level) { r.saved == StateFinish ==> IsWs(r.state) || r.state == StateFinish }

  /** How much of a word has been read. */
  predicate WordOk(s: State, g: Registers, strict: bool) {
    (s == StateInf && g.stPos <= 8) || s == StateNumber ||
    (s == StateNull && g.stPos == |g.pb| && (|g.pb| <= 3 || (|g.pb| == 4 && WordPrefix("null", g.pb, strict)))) ||
    (s == StateBoolean && g.stPos == |g.pb| && (|g.pb| <= 4 || (|g.pb| == 5 && WordPrefix("false", g.pb, strict))))
  }

  predicate EscapeOk(s: State, g: Registers) {
    s == StateStringEscape || (s == StateEscapeUnicode && g.stPos < 4) ||
    ((s == StateNeedEscape || s == StateNeedU) && g.ucs == 0 && g.stPos == 0)
  }

  /** Inside a string, to which an escape returns. */
  predicate InString(s: State, current: Json) {
    (s == StateString && current.Null?) || (s == StateField && current.Object?)
  }

  /** The level on top may be in this state, with these registers: at a place, or at white space before one;
      in a word or number; in a string; or in an escape in a string. */
  predicate TopOk(r: Level, current: Json, g: Registers, strict: bool) {
    (IsWs(r.state) && IsPlace(r.saved) && CurrentOk(r.saved, r.field, current)) ||
    (IsPlace(r.state) && r.saved == r.state && CurrentOk(r.state, r.field, current)) ||
    (WordOk(r.state, g, strict) && r.saved == StateStart && current.Null?) ||
    (InString(r.state, current) && r.saved != StateFinish) ||
    (EscapeOk(r.state, g) && InString(r.saved, current))
  }

  /** A longer text agrees with the word that the shorter one was. */
  lemma WordKept(word: Bytes, pb: Bytes, c: char, strict: bool)
    requires |pb| >= |word| && WordPrefix(word, pb, strict)
    ensures WordPrefix(word, pb + [c], strict)
  {
  }

  lemma NotTrue(pb: Bytes, strict: bool)
    requires |pb| >= 5 && WordPrefix("false", pb, strict)
    ensures !WordPrefix("true", pb, strict)
  {
    assert Matches("false", pb, 5, !strict);
    assert pb[0] == 'f' || ToLower(pb[0]) == ToLower('f');
  }

  function AbsOf(levels: seq<Frame>, lost: nat, top: Level, current: Json, g: Registers): Machine {
    Machine(levels, current, ModeOf(top, g), g.high, lost)
  }

  /** How often a byte may be looked at again: every such step leads to a state of a lower rank. */
  function StateRank(s: State): nat {
    match s
    case StateStart => 7
    case StateNumber => 6
    case StateInf => 5
    case StateNull => 5
    case StateBoolean => 5
    case StateFinish => 3
    case StateNeedEscape => 1
    case StateNeedU => 1
    case StateArray => 9
    case StateArrayAfterSep => 9
    case StateObjectValue => 9
    case _ => 0
  }

  function RankOf(r: Level): nat { if r.state.EatWs? then 1 + StateRank(r.saved) else StateRank(r.state) }

  /** Words start with a letter of any case. */
  predicate StartsWord(c: char) {
    c == 'I' || c == 'i' || c == 'N' || c == 'n' || c == 'T' || c == 't' || c == 'F' || c == 'f'
  }

  // ---------- steps ----------

  /** The machine stops, with this error, in a state that is the same as far as the end of a call looks. */
  predicate StopsAs(o: Outcome, m: Machine, e: Error) {
    (o == Done(m) && e == Success) ||
    (o.Fail? && o.e == e && e != Success && e != Continue && o.m.mode != Exactly(Finish) && m.mode != Exactly(Finish) &&
     (Settled(o.m.mode) <==> Settled(m.mode)))
  }

  /** A case of the switch does what the machine does with the byte in hand. */
  predicate Steps(flow: Flow, m0: Machine, c: char, config: Config, m: Machine, e: Error) {
    match flow
    case Advance => Take(m0, c, config) == Go(m)
    case Redo => Take(m0, c, config) == Take(m, c, config)
    case Out => StopsAs(Take(m0, c, config), m, e)
  }

  // ---------- the nodes ----------

  /** The container that a level holds. */
  function Container(f: Frame): Json { if f.ArrayFrame? then Array(f.items) else Object(f.members) }

  /** The memory holds the values in the slots of the stack, and every node is owned once, by a slot or
      outside. A level that was reset holds nothing. */
  ghost predicate Holds(mem: Memory, outside: multiset<nat>, levels: seq<Frame>, current: Json) {
    Owned(mem, outside) && Shows(mem.top, current) && |mem.lower| == |levels| &&
    forall i :: 0 <= i < |levels| ==> Shows(mem.lower[i], Container(levels[i]))
  }

  /** The same; the count-down keeps the definition out of proofs that only pass the fact on. */
  ghost predicate Balanced(mem: Memory, outside: multiset<nat>, levels: seq<Frame>, current: Json, n: nat) {
    if n > 0 then Balanced(mem, outside, levels, current, n - 1) else Holds(mem, outside, levels, current)
  }

  lemma BalancedIs(mem: Memory, outside: multiset<nat>, levels: seq<Frame>, current: Json)
    ensures Balanced(mem, outside, levels, current, 3) <==> Holds(mem, outside, levels, current)
  {
    assert Balanced(mem, outside, levels, current, 2) <==> Balanced(mem, outside, levels, current, 1);
  }

  /** A new node for the empty slot on top; the JSON null has none. */
  lemma ValueHeld(mem: Memory, outside: multiset<nat>, levels: seq<Frame>, v: Json) returns (mem1: Memory)
    requires Balanced(mem, outside, levels, Null, 3) && !(v.Array? && v.items != []) && !(v.Object? && v.members != [])
    ensures Balanced(mem1, outside, levels, v, 3)
  {
    BalancedIs(mem, outside, levels, Null);
    mem1 := if v.Null? then mem else Created(mem);
    if !v.Null? { CreatedOwned(mem, outside); }
    BalancedIs(mem1, outside, levels, v);
  }

  lemma DeeperHeld(mem: Memory, outside: multiset<nat>, levels: seq<Frame>, f: Frame) returns (mem1: Memory)
    requires Balanced(mem, outside, levels, Container(f), 3)
    ensures Balanced(mem1, outside, levels + [f], Null, 3)
  {
    BalancedIs(mem, outside, levels, Container(f));
    DeeperOwned(mem, outside);
    mem1 := Deeper(mem);
    BalancedIs(mem1, outside, levels + [f], Null);
  }

  /** The container with the value put into it: the states array_add and object_value_add. */
  function WithElement(f: Frame, v: Json): Json {
    if f.ArrayFrame? then Array(f.items + [v]) else Object(Added(f.members, f.key, v))
  }

  /** Where the value goes in the container. */
  function Slot(f: Frame): nat { if f.ArrayFrame? then |f.items| else IndexOf(f.members, f.key) }

  lemma AttachedHeld(mem: Memory, outside: multiset<nat>, levels: seq<Frame>, current: Json) returns (mem1: Memory)
    requires Balanced(mem, outside, levels, current, 3) && levels != []
    ensures Balanced(mem1, outside, levels[..|levels| - 1], WithElement(levels[|levels| - 1], current), 3)
  {
    BalancedIs(mem, outside, levels, current);
    var f, p := levels[|levels| - 1], mem.lower[|levels| - 1];
    assert Shows(p, Container(f));
    AttachedShows(p, f, mem.top, current);
    AttachedOwned(mem, Slot(f), outside);
    mem1 := Attached(mem, Slot(f));
    BalancedIs(mem1, outside, levels[..|levels| - 1], WithElement(f, current));
  }

  lemma AttachedShows(p: Node, f: Frame, n: Node, v: Json)
    requires Shows(p, Container(f)) && Shows(n, v)
    ensures p.Node? && Slot(f) <= |p.kids| &&
      Shows(Node(p.id, if Slot(f) < |p.kids| then p.kids[Slot(f) := n] else p.kids + [n]), WithElement(f, v))
  {
  }

  /** The references of a dropped value are nobody's; a null has none. */
  lemma DroppedHeld(mem: Memory, outside: multiset<nat>, current: Json) returns (mem1: Memory)
    requires Balanced(mem, outside, [], current, 3)
    ensures Balanced(mem1, outside + Ids(mem.top), [], Null, 3) && (Ids(mem.top) == multiset{} <==> current.Null?)
  {
    BalancedIs(mem, outside, [], current);
    DroppedOwned(mem, outside);
    mem1 := Dropped(mem);
    BalancedIs(mem1, outside + Ids(mem.top), [], Null);
  }

  lemma Leaked(given: multiset<nat>, leaked: multiset<nat>, ids: multiset<nat>)
    ensures given + leaked + ids == given + (leaked + ids) && (leaked + ids == leaked <==> ids == multiset{})
  {
    if leaked + ids == leaked {
      assert forall id :: (leaked + ids)[id] == leaked[id] + ids[id];
    }
  }

  /** The caller has the references of the value. */
  lemma ReturnedHeld(mem: Memory, outside: multiset<nat>, levels: seq<Frame>, current: Json) returns (mem1: Memory)
    requires Balanced(mem, outside, levels, current, 3)
    ensures Balanced(mem1, outside + Ids(mem.top), [], Null, 3) && Shows(mem.top, current)
  {
    BalancedIs(mem, outside, levels, current);
    ReturnedOwned(mem, outside);
    mem1 := Returned(mem);
    BalancedIs(mem1, outside + Ids(mem.top), [], Null);
  }

  /** Nothing is left but what is outside. */
  lemma ClearedHeld(mem: Memory, outside: multiset<nat>, levels: seq<Frame>, current: Json) returns (mem1: Memory)
    requires Balanced(mem, outside, levels, current, 3)
    ensures Balanced(mem1, outside, [], Null, 3) && mem1.refs == outside
  {
    BalancedIs(mem, outside, levels, current);
    ClearedOwned(mem, outside);
    mem1 := Cleared(mem);
    BalancedIs(mem1, outside, [], Null);
  }

  // ---------- the tokener ----------

  class Tokener {
    const config: Config
    var levels: seq<Frame>  // the levels below the top of the stack, without those that a success has reset
    var lost: nat           // how many of those there are
    var top: Level          // the level on top
    var current: Json       // the value on top
    var reg: Registers
    var charOffset: nat
    var err: Error
    // the locals of json_tokener_parse_ex
    var c: char
    var nBytes: nat
    // the nodes, and the references to them that callers were given and that nobody has any more
    ghost var mem: Memory
    ghost var given: multiset<nat>
    ghost var leaked: multiset<nat>

    /** tok->depth. */
    function TokDepth(): nat
      reads this`levels, this`lost
    {
      lost + |levels|
    }

    ghost predicate Shape()
      reads this`levels, this`lost, this`top
    {
      TokDepth() < config.maxDepth && SavedOk(top)
    }

    ghost predicate Valid()
      reads this`levels, this`lost, this`top, this`current, this`reg
    {
      Shape() && TopOk(top, current, reg, config.strict)
    }

    /** Every node that was built is owned exactly once. */
    ghost predicate Tidy()
      reads this`levels, this`current, this`mem, this`given, this`leaked
    {
      Balanced(mem, given + leaked, levels, current, 3)
    }

    ghost function Abs(): Machine
      reads this`levels, this`lost, this`top, this`current, this`reg
    {
      AbsOf(levels, lost, top, current, reg)
    }

    /** A byte of the text is in hand. */
    ghost predicate InHand(s: Bytes)
      reads this
    {
      Valid() && charOffset < |s| && c == s[charOffset] && err == Success
    }

    /** What the machine makes of the rest of the text. */
    ghost function Pending(s: Bytes): Result
      requires InHand(s)
      reads this
    {
      AfterPeek(Abs(), s, charOffset, nBytes, config)
    }

    ghost predicate FlowOk(flow: Flow, s: Bytes)
      reads this
    {
      if flow == Out then Shape() && (err == Continue ==> Valid()) else InHand(s)
    }

    ghost function Ended(flow: Flow, s: Bytes): Result
      requires FlowOk(flow, s)
      reads this
    {
      match flow
      case Advance => AfterGo(Abs(), s, charOffset, nBytes, config)
      case Redo => Pending(s)
      case Out => Conclude(Abs(), err, nBytes, c == '\0', charOffset, config)
    }

    /** json_tokener_new_ex. */
    constructor (config: Config)
      requires config.maxDepth > 0
      ensures Valid() && Abs() == INIT && this.config == config && Tidy() && given == leaked == multiset{}
    {
      this.config := config;
      levels, lost, top, current := [], 0, RESET_LEVEL, Null;
      reg := Registers([], '"', 0, 0, 0, false);
      charOffset, err, c, nBytes := 0, Success, '\U{0001}', 0;
      mem, given, leaked := FRESH, multiset{}, multiset{};
      BalancedIs(FRESH, multiset{} + multiset{}, [], Null);
    }

    /** json_tokener_reset. It forgets everything but a high surrogate that is still waiting, and frees every
        node that no caller was given, but for those that were leaked before. */
    method Reset()
      requires Shape() && Tidy()
      modifies this`levels, this`lost, this`top, this`current, this`err, this`mem
      ensures Valid() && err == Success && Abs() == INIT.(high := reg.high)
      ensures Tidy() && mem.refs == given + leaked
    {
      ghost var mem1 := ClearedHeld(mem, given + leaked, levels, current);
      while TokDepth() > 0
        decreases TokDepth()
      {
        if levels == [] { lost := lost - 1; } else { levels := levels[..|levels| - 1]; }
      }
      top, current, err, mem := RESET_LEVEL, Null, Success, mem1;
    }

    // ---------- looking at the next byte ----------

    /** The machine `m` agrees with the tokener on whether the value is complete. */
    ghost predicate Mirrors(m: Machine)
      reads this
    {
      Shape() && Depth(m) == TokDepth() && (m.mode == Ws(Finish) <==> top.state == EatWs && top.saved == StateFinish)
    }

    /** PEEK_CHAR. */
    method Peek(s: Bytes, ghost m: Machine) returns (ok: bool)
      requires charOffset <= |s| && c != '\0' && Mirrors(m)
      modifies this`err, this`c, this`nBytes
      ensures ok ==> charOffset < |s| && c == s[charOffset] && err == old(err)
      ensures ok ==> ParseFrom(m, s, charOffset, old(nBytes), config) == AfterPeek(m, s, charOffset, nBytes, config)
      ensures !ok ==> c == old(c)
      ensures !ok ==>
        ParseFrom(m, s, charOffset, old(nBytes), config) == Conclude(m, err, nBytes, false, charOffset, config)
    {
      if charOffset == |s| {
        err := if TokDepth() == 0 && top.state == EatWs && top.saved == StateFinish then Success else Continue;
        return false;
      }
      if config.validateUtf8 {
        match Validate(s[charOffset], nBytes)
        case BadByte =>
          err := NotUtf8;
          return false;
        case Left(n) =>
          nBytes := n;
      }
      c := s[charOffset];
      return true;
    }

    /** ADVANCE_CHAR and PEEK_CHAR, as the tight loops use them: after a NUL there is nothing to look at. */
    method Next(s: Bytes, ghost m: Machine) returns (more: bool)
      requires charOffset < |s| && c == s[charOffset] && err == Success && Mirrors(m)
      modifies this`charOffset, this`err, this`c, this`nBytes
      ensures charOffset == old(charOffset) + 1
      ensures more ==> charOffset < |s| && c == s[charOffset] && err == Success
      ensures more ==>
        AfterGo(m, s, old(charOffset), old(nBytes), config) == AfterPeek(m, s, charOffset, nBytes, config)
      ensures !more ==>
        AfterGo(m, s, old(charOffset), old(nBytes), config) ==
        Conclude(m, err, nBytes, c == '\0', charOffset, config)
    {
      charOffset := charOffset + 1;
      if c == '\0' { return false; }
      more := Peek(s, m);
    }

    /** ADVANCE_CHAR and PEEK_CHAR after the byte in hand has been taken. */
    method Forward(s: Bytes) returns (flow: Flow)
      requires InHand(s)
      modifies this`charOffset, this`err, this`c, this`nBytes
      ensures flow != Advance && FlowOk(flow, s) && charOffset == old(charOffset) + 1
      ensures Ended(flow, s) == old(Ended(Advance, s))
    {
      var more := Next(s, Abs());
      flow := if more then Redo else Out;
    }

    /** The byte in hand leads from `m0` to the machine as it is; the next one is looked at. */
    method StepOn(s: Bytes, ghost m0: Machine) returns (flow: Flow)
      requires InHand(s) && Take(m0, c, config) == Go(Abs())
      modifies this`charOffset, this`err, this`c, this`nBytes
      ensures flow != Advance && FlowOk(flow, s) && charOffset == old(charOffset) + 1
      ensures Ended(flow, s) == old(AfterPeek(m0, s, charOffset, nBytes, config))
    {
      flow := Forward(s);
    }

    // ---------- white space and comments ----------

    method CaseEatWs(s: Bytes) returns (flow: Flow)
      requires InHand(s) && top.state == EatWs
      modifies this`reg, this`top, this`charOffset, this`err, this`c, this`nBytes
      ensures FlowOk(flow, s) && Ended(flow, s) == old(Pending(s)) && charOffset >= old(charOffset)
      ensures flow == Redo ==> charOffset > old(charOffset) || RankOf(top) < old(RankOf(top))
    {
      while IsSpace(c)
        invariant InHand(s) && Pending(s) == old(Pending(s)) && charOffset >= old(charOffset) && top == old(top)
        decreases |s| - charOffset
      {
        var more := Next(s, Abs());
        if !more { return Out; }
      }
      if c == '/' && !config.strict {
        reg := reg.(pb := [c]);
        top := top.(state := StateCommentStart);
        return Advance;
      }
      top := top.(state := top.saved);
      return Redo;
    }

    method CaseComment() returns (flow: Flow)
      requires Valid() && top.state in {StateCommentStart, StateCommentEnd}
      modifies this`reg, this`err, this`top
      ensures Shape() && flow != Redo && (flow != Out ==> Valid() && err == old(err)) &&
        Steps(flow, old(Abs()), c, config, Abs(), err)
    {
      if top.state == StateCommentStart {
        if c != '*' && c != '/' {
          err := NotComment;
          return Out;
        }
        reg := reg.(pb := reg.pb + [c]);
        top := top.(state := if c == '*' then StateComment else StateCommentEol);
      } else {
        reg := reg.(pb := reg.pb + [c]);
        top := top.(state := if c == '/' then EatWs else StateComment);
      }
      return Advance;
    }

    /** A comment up to the next star, or to the end of the line; what was passed over is appended at once. */
    method CaseCommentLoop(s: Bytes) returns (flow: Flow)
      requires InHand(s) && top.state in {StateComment, StateCommentEol}
      modifies this`reg, this`top, this`charOffset, this`err, this`c, this`nBytes
      ensures flow != Redo && FlowOk(flow, s) && Ended(flow, s) == old(Pending(s)) && charOffset >= old(charOffset)
    {
      var star := top.state == StateComment;
      var caseStart := charOffset;
      while c != if star then '*' else '\n'
        invariant InHand(s) && Pending(s) == old(Pending(s)) && charOffset >= caseStart == old(charOffset) &&
          top == old(top)
        decreases |s| - charOffset
      {
        var more := Next(s, Abs());
        if !more {
          reg := reg.(pb := reg.pb + s[caseStart..charOffset]);
          return Out;
        }
      }
      if star {
        reg := reg.(pb := reg.pb + s[caseStart..charOffset + 1]);
        top := top.(state := StateCommentEnd);
      } else {
        reg := reg.(pb := reg.pb + s[caseStart..charOffset]);
        top := top.(state := EatWs);
      }
      return Advance;
    }

    // ---------- the start of a value ----------

    method CaseStart() returns (flow: Flow)
      requires Valid() && Tidy() && top.state == StateStart
      modifies this`reg, this`err, this`top, this`current, this`mem
      ensures Shape() && (flow != Out ==> Valid() && err == old(err)) && Steps(flow, old(Abs()), c, config, Abs(), err)
      ensures flow == Redo ==> RankOf(top) < old(RankOf(top))
      ensures Tidy()
    {
      if IsDigit(c) || c == '-' {
        flow := StartNumber();
      } else if StartsWord(c) {
        flow := StartWord();
      } else {
        flow := StartOther();
      }
    }

    /** A number is read, from its first byte on. */
    method StartNumber() returns (flow: Flow)
      requires Valid() && top.state == StateStart && (IsDigit(c) || c == '-')
      modifies this`reg, this`top
      ensures flow == Redo && Valid() && Take(old(Abs()), c, config) == Take(Abs(), c, config)
      ensures RankOf(top) < old(RankOf(top))
    {
      assert Take(Abs(), c, config) == AtStart(Abs(), c, config);
      reg := reg.(pb := [], isDouble := false);
      top := top.(state := StateNumber);
      flow := Redo;
    }

    /** A word is read, from its first letter on. */
    method StartWord() returns (flow: Flow)
      requires Valid() && top.state == StateStart && StartsWord(c)
      modifies this`reg, this`top
      ensures flow == Redo && Valid() && Take(old(Abs()), c, config) == Take(Abs(), c, config)
      ensures RankOf(top) < old(RankOf(top))
    {
      assert Take(Abs(), c, config) == AtStart(Abs(), c, config);
      reg := reg.(pb := [], stPos := 0);
      var word := if c == 'I' || c == 'i' then StateInf else if c == 'N' || c == 'n' then StateNull else StateBoolean;
      top := top.(state := word);
      flow := Redo;
    }

    method StartOther() returns (flow: Flow)
      requires Valid() && Tidy() && top.state == StateStart
      requires !IsDigit(c) && c != '-' && !StartsWord(c)
      modifies this`reg, this`err, this`top, this`current, this`mem
      ensures Shape() && flow != Redo && (flow != Out ==> Valid() && err == old(err)) &&
        Steps(flow, old(Abs()), c, config, Abs(), err)
      ensures Tidy()
    {
      assert Take(Abs(), c, config) == AtStart(Abs(), c, config);
      if c == '{' || c == '[' {
        top := top.(state := EatWs, saved := if c == '{' then StateFieldStart else StateArray);
        SetCurrent(if c == '{' then Object([]) else Array([]));
        flow := Advance;
      } else if c == '"' || (c == '\'' && !config.strict) {
        reg := reg.(pb := [], quote := c);
        top := top.(state := StateString);
        flow := Advance;
      } else {
        err := Unexpected;
        flow := Out;
      }
    }

    /** One of json_object_new_*: the new node has one reference, which the empty slot takes. */
    method SetCurrent(v: Json)
      requires Tidy() && current.Null? && !(v.Array? && v.items != []) && !(v.Object? && v.members != [])
      modifies this`current, this`mem
      ensures current == v && Tidy()
    {
      ghost var mem1 := ValueHeld(mem, given + leaked, levels, v);
      current, mem := v, mem1;
    }

    // ---------- words ----------

    method CaseNull() returns (flow: Flow)
      requires Valid() && Tidy() && top.state == StateNull
      modifies this`reg, this`err, this`top, this`current, this`mem
      ensures Shape() && (flow != Out ==> Valid() && err == old(err)) && Steps(flow, old(Abs()), c, config, Abs(), err)
      ensures flow == Redo ==> RankOf(top) < old(RankOf(top))
      ensures Tidy()
    {
      assert Take(Abs(), c, config) == AtNull(Abs(), c, config);
      if |reg.pb| == 4 { WordKept("null", reg.pb, c, config.strict); }
      reg := reg.(pb := reg.pb + [c]);
      if WordPrefix("null", reg.pb, config.strict) {
        if reg.stPos == 4 {
          flow := Completed(Null);
        } else {
          reg := reg.(stPos := reg.stPos + 1);
          flow := Advance;
        }
      } else if WordPrefix("NaN", reg.pb, config.strict) {
        if reg.stPos == 3 {
          flow := Completed(NaN);
        } else {
          reg := reg.(stPos := reg.stPos + 1);
          flow := Advance;
        }
      } else {
        err := NotNull;
        flow := Out;
      }
    }

    /** The value of the level is there; the byte in hand comes after it. */
    method Completed(v: Json) returns (flow: Flow)
      requires Shape() && Tidy() && current.Null? && !v.Array? && !v.Object?
      modifies this`top, this`current, this`mem
      ensures flow == Redo && top == Level(EatWs, StateFinish, old(top.field)) && current == v
      ensures Tidy()
    {
      SetCurrent(v);
      top := top.(state := EatWs, saved := StateFinish);
      flow := Redo;
    }

    method CaseBoolean() returns (flow: Flow)
      requires Valid() && Tidy() && top.state == StateBoolean
      modifies this`reg, this`err, this`top, this`current, this`mem
      ensures Shape() && (flow != Out ==> Valid() && err == old(err)) && Steps(flow, old(Abs()), c, config, Abs(), err)
      ensures flow == Redo ==> RankOf(top) < old(RankOf(top))
      ensures Tidy()
    {
      assert Take(Abs(), c, config) == AtBool(Abs(), c, config);
      if |reg.pb| == 5 {
        WordKept("false", reg.pb, c, config.strict);
        NotTrue(reg.pb + [c], config.strict);
      }
      reg := reg.(pb := reg.pb + [c]);
      if WordPrefix("true", reg.pb, config.strict) {
        if reg.stPos == 4 {
          flow := Completed(Bool(true));
        } else {
          reg := reg.(stPos := reg.stPos + 1);
          flow := Advance;
        }
      } else if WordPrefix("false", reg.pb, config.strict) {
        if reg.stPos == 5 {
          flow := Completed(Bool(false));
        } else {
          reg := reg.(stPos := reg.stPos + 1);
          flow := Advance;
        }
      } else {
        err := NotBoolean;
        flow := Out;
      }
    }

    /** The rest of "Infinity" in a tight loop. */
    method CaseInf(s: Bytes) returns (flow: Flow)
      requires InHand(s) && Tidy() && top.state == StateInf
      modifies this`reg, this`top, this`current, this`mem, this`charOffset, this`err, this`c, this`nBytes
      ensures FlowOk(flow, s) && Ended(flow, s) == old(Pending(s)) && charOffset >= old(charOffset)
      ensures flow == Redo ==> RankOf(top) < old(RankOf(top))
      ensures Tidy()
    {
      while reg.stPos < 8
        invariant InHand(s) && Pending(s) == old(Pending(s)) && charOffset >= old(charOffset)
        invariant top == old(top) && current == old(current) && mem == old(mem)
        decreases |s| - charOffset
      {
        var more := InfByte(s);
        if !more { return Out; }
      }
      flow := EndInf(s);
    }

    method EndInf(s: Bytes) returns (flow: Flow)
      requires InHand(s) && Tidy() && top.state == StateInf && reg.stPos == 8
      modifies this`top, this`current, this`mem
      ensures flow == Redo && InHand(s) && Tidy() && Take(old(Abs()), c, config) == Take(Abs(), c, config)
      ensures top == Level(EatWs, StateFinish, old(top.field))
    {
      assert Take(Abs(), c, config) == AtInf(Abs(), c, config);
      flow := Completed(Infinity(reg.pb != [] && reg.pb[0] == '-'));
    }

    /** One more letter of the word. */
    method InfByte(s: Bytes) returns (more: bool)
      requires InHand(s) && top.state == StateInf && reg.stPos < 8
      modifies this`reg, this`charOffset, this`err, this`c, this`nBytes
      ensures FlowOk(if more then Redo else Out, s) && Ended(if more then Redo else Out, s) == old(Pending(s))
      ensures if more then charOffset == old(charOffset) + 1 else charOffset >= old(charOffset)
    {
      ghost var m := Abs();
      assert Take(m, c, config) == AtInf(m, c, config);
      if (if config.strict then c else ToLower(c)) != (if config.strict then INFINITY else INFINITY_LOWER)[reg.stPos] {
        err := Unexpected;
        return false;
      }
      reg := reg.(stPos := reg.stPos + 1);
      var flow := StepOn(s, m);
      more := flow == Redo;
    }

    // ---------- strings ----------

    /** The machine in the middle of a string. */
    ghost function InText(s: Bytes, caseStart: nat): Machine
      requires caseStart <= charOffset <= |s|
      reads this
    {
      AbsOf(levels, lost, top, current, reg.(pb := reg.pb + s[caseStart..charOffset]))
    }

    /** A string or field name up to its quote or the next backslash; what was passed over is appended at
        once. */
    method CaseString(s: Bytes) returns (flow: Flow)
      requires InHand(s) && Tidy() && top.state in {StateString, StateField}
      modifies this`reg, this`top, this`current, this`mem, this`charOffset, this`err, this`c, this`nBytes
      ensures flow != Redo && FlowOk(flow, s) && Ended(flow, s) == old(Pending(s)) && charOffset >= old(charOffset)
      ensures Tidy()
    {
      var caseStart := charOffset;
      assert reg.pb + s[caseStart..charOffset] == reg.pb;
      while c != reg.quote && c != '\\'
        invariant InHand(s) && charOffset >= caseStart == old(charOffset) && reg.pb == old(reg.pb) && top == old(top)
        invariant current == old(current) && mem == old(mem)
        invariant AfterPeek(InText(s, caseStart), s, charOffset, nBytes, config) == old(Pending(s))
        decreases |s| - charOffset
      {
        var more := StringByte(s, caseStart);
        if !more {
          reg := reg.(pb := reg.pb + s[caseStart..charOffset]);
          return Out;
        }
      }
      flow := EndText(s, caseStart);
    }

    /** One more byte of the string. */
    method StringByte(s: Bytes, caseStart: nat) returns (more: bool)
      requires InHand(s) && top.state in {StateString, StateField} && c != reg.quote && c != '\\' &&
        caseStart <= charOffset
      modifies this`charOffset, this`err, this`c, this`nBytes
      ensures charOffset == old(charOffset) + 1
      ensures if more then InHand(s) else Valid() && charOffset <= |s|
      ensures old(AfterPeek(InText(s, caseStart), s, charOffset, nBytes, config)) ==
              if more then AfterPeek(InText(s, caseStart), s, charOffset, nBytes, config)
              else Conclude(InText(s, caseStart), err, nBytes, c == '\0', charOffset, config)
    {
      ghost var m := InText(s, caseStart);
      assert Take(m, c, config) == AtText(m, c);
      Regroup(reg.pb, s[caseStart..charOffset], [c]);
      assert s[caseStart..charOffset] + [c] == s[caseStart..charOffset + 1];
      more := Next(s, AbsOf(levels, lost, top, current, reg.(pb := reg.pb + s[caseStart..charOffset + 1])));
    }

    method EndText(s: Bytes, caseStart: nat) returns (flow: Flow)
      requires InHand(s) && Tidy() && top.state in {StateString, StateField} && (c == reg.quote || c == '\\') &&
        caseStart <= charOffset
      modifies this`reg, this`top, this`current, this`mem
      ensures flow == Advance && InHand(s)
      ensures old(Take(InText(s, caseStart), c, config)) == Go(Abs())
      ensures Tidy()
    {
      ghost var m := InText(s, caseStart);
      assert Take(m, c, config) == AtText(m, c);
      reg := reg.(pb := reg.pb + s[caseStart..charOffset]);
      flow := EndString();
    }

    /** A quote ends the string, and a backslash starts an escape. */
    method EndString() returns (flow: Flow)
      requires Shape() && Tidy() && top.state in {StateString, StateField} && (c == reg.quote || c == '\\')
      requires top.state == StateString ==> current.Null?
      modifies this`top, this`current, this`mem
      ensures flow == Advance && Tidy()
      ensures var r := old(top);
        top ==
        (if c != reg.quote then r.(state := StateStringEscape, saved := r.state)
        else if r.state == StateString then r.(state := EatWs, saved := StateFinish)
        else r.(state := EatWs, saved := StateFieldEnd, field := Some(CString(reg.pb)))) &&
        current == if c == reg.quote && r.state == StateString then Str(reg.pb) else old(current)
    {
      if c == reg.quote {
        if top.state == StateString {
          SetCurrent(Str(reg.pb));
          top := top.(state := EatWs, saved := StateFinish);
        } else {
          top := top.(field := Some(CString(reg.pb)));
          top := top.(state := EatWs, saved := StateFieldEnd);
        }
      } else {
        top := top.(state := StateStringEscape, saved := top.state);
      }
      flow := Advance;
    }

    method CaseStringEscape() returns (flow: Flow)
      requires Valid() && top.state == StateStringEscape
      modifies this`reg, this`err, this`top
      ensures Shape() && flow != Redo && (flow != Out ==> Valid() && err == old(err)) &&
        Steps(flow, old(Abs()), c, config, Abs(), err)
    {
      if c in ['"', '\\', '/', 'b', 'n', 'r', 't', 'f'] {
        reg := reg.(pb := reg.pb + SimpleEscape(c));
        top := top.(state := top.saved);
        flow := Advance;
      } else if c == 'u' {
        reg := reg.(ucs := 0, stPos := 0);
        top := top.(state := StateEscapeUnicode);
        flow := Advance;
      } else {
        err := NotString;
        flow := Out;
      }
    }

    /** After a high surrogate: anything but a backslash and the letter u leaves it unpaired. */
    method CaseNeed() returns (flow: Flow)
      requires Valid() && top.state in {StateNeedEscape, StateNeedU}
      modifies this`reg, this`top
      ensures flow != Out && Valid() && Steps(flow, old(Abs()), c, config, Abs(), err)
      ensures flow == Redo ==> RankOf(top) < old(RankOf(top))
    {
      var needU := top.state == StateNeedU;
      if c == if needU then 'u' else '\\' {
        top := top.(state := if needU then StateEscapeUnicode else StateNeedU);
        flow := Advance;
      } else {
        reg := reg.(pb := reg.pb + REPLACEMENT, high := 0, ucs := 0, stPos := 0);
        top := top.(state := if needU then StateStringEscape else top.saved);
        flow := Redo;
      }
    }

    /** The bytes of a complete escape. */
    method EndUnicode(ghost m: Machine, ghost q: Quoting, ghost text: Bytes, ghost u: nat)
      requires Valid() && top.state == StateEscapeUnicode && Abs() == m.(mode := Unicode(q, text, reg.stPos, u))
      modifies this`reg, this`top
      ensures Valid() && Abs() == EndEscape(m, q, text, u)
    {
      reg := reg.(stPos := 0);
      if reg.high != 0 {
        if IsLow(reg.ucs) {
          reg := reg.(ucs := Pair(reg.high, reg.ucs));
        } else {
          reg := reg.(pb := reg.pb + REPLACEMENT);
        }
        reg := reg.(high := 0);
      }
      match Decode(reg.ucs)
      case Bytes(bytes) =>
        reg := reg.(pb := reg.pb + bytes);
        top := top.(state := top.saved);
      case Waits =>
        reg := reg.(high := reg.ucs, ucs := 0);
        top := top.(state := StateNeedEscape);
    }

    /** The four digits of a unicode escape in a tight loop. */
    method CaseUnicode(s: Bytes) returns (flow: Flow)
      requires InHand(s) && top.state == StateEscapeUnicode
      modifies this`reg, this`top, this`charOffset, this`err, this`c, this`nBytes
      ensures flow != Redo && FlowOk(flow, s) && Ended(flow, s) == old(Pending(s)) && charOffset >= old(charOffset)
    {
      flow := Redo;
      while flow == Redo
        invariant FlowOk(flow, s) && Ended(flow, s) == old(Pending(s)) && charOffset >= old(charOffset)
        invariant flow == Redo ==> top.state == StateEscapeUnicode
        decreases |s| - charOffset, flow == Redo
      {
        flow := UnicodeByte(s);
      }
    }

    /** One digit; the last one completes the escape. */
    method UnicodeByte(s: Bytes) returns (flow: Flow)
      requires InHand(s) && top.state == StateEscapeUnicode
      modifies this`reg, this`top, this`charOffset, this`err, this`c, this`nBytes
      ensures FlowOk(flow, s) && Ended(flow, s) == old(Pending(s)) && charOffset >= old(charOffset)
      ensures flow == Redo ==> top.state == StateEscapeUnicode && charOffset == old(charOffset) + 1
    {
      assert Take(Abs(), c, config) == AtUnicode(Abs(), c);
      if !IsHex(c) {
        err := NotString;
        return Out;
      }
      if reg.stPos == 3 {
        flow := LastHex(s);
      } else {
        flow := NextHex(s);
      }
    }

    lemma LastDigitTaken(m: Machine, q: Quoting, text: Bytes, u: nat, m1: Machine)
      requires IsHex(c) && m.mode.Unicode? && m.mode == Unicode(q, text, 3, m.mode.ucs) && u == m.mode.ucs + HexValue(c)
      requires m1 == EndEscape(m, q, text, u)
      ensures Take(m, c, config) == Go(m1)
    {
      assert Take(m, c, config) == AtUnicode(m, c);
    }

    method LastHex(s: Bytes) returns (flow: Flow)
      requires InHand(s) && top.state == StateEscapeUnicode && IsHex(c) && reg.stPos == 3
      modifies this`reg, this`top
      ensures flow == Advance && InHand(s) && Take(old(Abs()), c, config) == Go(Abs())
    {
      ghost var m, q, text := Abs(), QuotingOf(top, reg), reg.pb;
      var u := reg.ucs + Shifted16(HexValue(c), 3 - reg.stPos);
      reg := reg.(ucs := u);
      EndUnicode(m, q, text, u);
      LastDigitTaken(m, q, text, u, Abs());
      flow := Advance;
    }

    method NextHex(s: Bytes) returns (flow: Flow)
      requires InHand(s) && top.state == StateEscapeUnicode && IsHex(c) && reg.stPos < 3
      modifies this`reg, this`charOffset, this`err, this`c, this`nBytes
      ensures flow != Advance && FlowOk(flow, s) && Ended(flow, s) == old(Pending(s)) &&
        charOffset == old(charOffset) + 1
    {
      ghost var m, q, text := Abs(), QuotingOf(top, reg), reg.pb;
      var u, n := reg.ucs + Shifted16(HexValue(c), 3 - reg.stPos), reg.stPos + 1;
      assert Take(m, c, config) == AtUnicode(m, c) == Go(m.(mode := Unicode(q, text, n, u)));
      reg := reg.(ucs := u, stPos := n);
      flow := StepOn(s, m);
    }

    // ---------- arrays and objects ----------

    /** A level for an element, unless the stack is full. */
    method PushLevel(f: Frame) returns (flow: Flow)
      requires Valid() && Tidy() && Container(f) == current
      modifies this`levels, this`top, this`current, this`err, this`mem
      ensures if old(TokDepth()) + 1 >= config.maxDepth then
                flow == Out && err == TooDeep && Abs() == old(Abs()) && top == old(top)
              else flow == Redo && err == old(err) && Abs() == Pushed(old(Abs()), f) && Valid() && top == RESET_LEVEL
      ensures Shape() && Tidy()
    {
      if TokDepth() + 1 >= config.maxDepth {
        err := TooDeep;
        return Out;
      }
      ghost var mem1 := DeeperHeld(mem, given + leaked, levels, f);
      levels := levels + [f];
      top, current, mem := RESET_LEVEL, Null, mem1;
      flow := Redo;
    }

    method CaseArray() returns (flow: Flow)
      requires Valid() && Tidy() && top.state in {StateArray, StateArrayAfterSep}
      modifies this`levels, this`top, this`current, this`err, this`mem
      ensures Shape() && (flow != Out ==> Valid() && err == old(err)) && Steps(flow, old(Abs()), c, config, Abs(), err)
      ensures flow == Redo ==> RankOf(top) < old(RankOf(top))
      ensures Tidy()
    {
      if c == ']' {
        if top.state == StateArrayAfterSep && config.strict {
          err := Unexpected;
          flow := Out;
        } else {
          top := top.(state := EatWs, saved := StateFinish);
          flow := Advance;
        }
      } else {
        assert Take(Abs(), c, config) == AtItem(Abs(), PlaceOf(top.state, top), c, config);
        flow := PushLevel(ArrayFrame(current.items));
      }
    }

    /** After an element: a comma or the end. */
    method CaseSep() returns (flow: Flow)
      requires Valid() && top.state in {StateArraySep, StateObjectSep}
      modifies this`top, this`err
      ensures Shape() && flow != Redo && (flow != Out ==> Valid() && err == old(err)) &&
        Steps(flow, old(Abs()), c, config, Abs(), err)
    {
      var inArray := top.state == StateArraySep;
      if c == if inArray then ']' else '}' {
        top := top.(state := EatWs, saved := StateFinish);
        flow := Advance;
      } else if c == ',' {
        top := top.(state := EatWs, saved := if inArray then StateArrayAfterSep else StateFieldStartAfterSep);
        flow := Advance;
      } else {
        err := if inArray then NotArray else NotValueSep;
        flow := Out;
      }
    }

    method CaseFieldStart() returns (flow: Flow)
      requires Valid() && top.state in {StateFieldStart, StateFieldStartAfterSep}
      modifies this`top, this`reg, this`err
      ensures Shape() && flow != Redo && (flow != Out ==> Valid() && err == old(err)) &&
        Steps(flow, old(Abs()), c, config, Abs(), err)
    {
      if c == '}' {
        if top.state == StateFieldStartAfterSep && config.strict {
          err := Unexpected;
          flow := Out;
        } else {
          top := top.(state := EatWs, saved := StateFinish);
          flow := Advance;
        }
      } else if c == '"' || c == '\'' {
        reg := reg.(quote := c, pb := []);
        top := top.(state := StateField);
        flow := Advance;
      } else {
        err := NotKeyName;
        flow := Out;
      }
    }

    method CaseFieldEnd() returns (flow: Flow)
      requires Valid() && top.state == StateFieldEnd
      modifies this`top, this`err
      ensures Shape() && flow != Redo && (flow != Out ==> Valid() && err == old(err)) &&
        Steps(flow, old(Abs()), c, config, Abs(), err)
    {
      if c == ':' {
        top := top.(state := EatWs, saved := StateObjectValue);
        flow := Advance;
      } else {
        err := NotKeySep;
        flow := Out;
      }
    }

    method CaseObjectValue() returns (flow: Flow)
      requires Valid() && Tidy() && top.state == StateObjectValue
      modifies this`levels, this`top, this`current, this`err, this`mem
      ensures Shape() && (flow != Out ==> Valid() && err == old(err)) && Steps(flow, old(Abs()), c, config, Abs(), err)
      ensures flow == Redo ==> RankOf(top) < old(RankOf(top))
      ensures Tidy()
    {
      assert Take(Abs(), c, config) == AtPlace(Abs(), FieldValue(FieldOf(top)), c, config);
      flow := PushLevel(ObjectFrame(current.members, top.field.value));
    }

    /** A complete value goes into the container below it: the states finish and array_add or
        object_value_add, one right after the other. If the level below was reset, the value goes nowhere:
        that is the one way to leak a node. */
    method CaseFinish() returns (flow: Flow)
      requires Valid() && Tidy() && top.state == StateFinish
      modifies this`levels, this`lost, this`top, this`current, this`mem, this`leaked
      ensures flow != Advance && Valid() && Steps(flow, old(Abs()), c, config, Abs(), Success)
      ensures flow == Redo ==> lost < old(lost) || RankOf(top) < old(RankOf(top))
      ensures Tidy() && (leaked == old(leaked) <==> !old(lost > 0 && levels == [] && !current.Null?))
      ensures lost == if old(lost > 0 && levels == []) then old(lost) - 1 else old(lost)
    {
      assert Take(Abs(), c, config) == AtPlace(Abs(), Finish, c, config);
      if TokDepth() == 0 { return Out; }
      if levels == [] { DropValue(); } else { AddValue(); }
      flow := Redo;
    }

    /** To the container below. */
    method AddValue()
      requires Valid() && Tidy() && levels != []
      modifies this`levels, this`top, this`current, this`mem
      ensures Valid() && Tidy() && Abs() == Popped(old(Abs())) && top.state == EatWs && InSep(top.saved)
    {
      var f := levels[|levels| - 1];
      ghost var mem1 := AttachedHeld(mem, given + leaked, levels, current);
      top := Level(EatWs, if f.ArrayFrame? then StateArraySep else StateObjectSep, None);
      levels, current, mem := levels[..|levels| - 1], WithElement(f, current), mem1;
    }

    /** To a level that was reset: the value is forgotten. */
    method DropValue()
      requires Valid() && Tidy() && levels == [] && lost > 0
      modifies this`lost, this`top, this`current, this`mem, this`leaked
      ensures Valid() && Tidy() && Abs() == Popped(old(Abs())) && lost == old(lost) - 1
      ensures leaked == old(leaked) <==> old(current).Null?
    {
      ghost var mem1 := DroppedHeld(mem, given + leaked, current);
      Leaked(given, leaked, Ids(mem.top));
      leaked := leaked + Ids(mem.top);
      lost, top, current, mem := lost - 1, RESET_LEVEL, Null, mem1;
    }

    // ---------- numbers ----------

    method CaseNumber(s: Bytes) returns (flow: Flow)
      requires InHand(s) && Tidy() && top.state == StateNumber
      modifies this`reg, this`top, this`current, this`mem, this`charOffset, this`err, this`c, this`nBytes
      ensures FlowOk(flow, s) && Ended(flow, s) == old(Pending(s)) && charOffset >= old(charOffset)
      ensures flow == Redo ==> RankOf(top) < old(RankOf(top))
      ensures Tidy()
    {
      var caseStart := charOffset;
      var ended, n := ReadNumber(s);
      if !ended { return Out; }
      flow := EndNumber(s[caseStart..charOffset], n);
    }

    /** The machine in the middle of a number. */
    ghost function InNumber(s: Bytes, caseStart: nat, n: Scan): Machine
      requires caseStart <= charOffset <= |s|
      reads this
    {
      Machine(levels, current, Number(reg.pb + s[caseStart..charOffset], n), reg.high, lost)
    }

    /** Reads on to the first byte that cannot belong to the number. */
    method ReadNumber(s: Bytes) returns (ended: bool, n: Scan)
      requires InHand(s) && top.state == StateNumber
      modifies this`reg, this`charOffset, this`err, this`c, this`nBytes
      ensures charOffset >= old(charOffset)
      ensures !ended ==> FlowOk(Out, s) && Ended(Out, s) == old(Pending(s))
      ensures ended ==> InHand(s) && reg == old(reg).(isDouble := n.isDouble) && !Accepts(n, c)
      ensures ended ==> AfterPeek(InNumber(s, old(charOffset), n), s, charOffset, nBytes, config) == old(Pending(s))
    {
      var caseStart := charOffset;
      n := ScanFrom(reg.pb, reg.isDouble);
      assert reg.pb + s[caseStart..charOffset] == reg.pb;
      while Accepts(n, c)
        invariant InHand(s) && charOffset >= caseStart == old(charOffset) && reg == old(reg).(isDouble := n.isDouble)
        invariant AfterPeek(InNumber(s, caseStart, n), s, charOffset, nBytes, config) == old(Pending(s))
        decreases |s| - charOffset
      {
        var more;
        more, n := NumberByte(s, caseStart, n);
        if !more {
          NumberRunsOut(s, caseStart, n);
          return false, n;
        }
      }
      ended := true;
    }

    /** One more byte of the number. */
    method NumberByte(s: Bytes, caseStart: nat, n0: Scan) returns (more: bool, n: Scan)
      requires InHand(s) && top.state == StateNumber && Accepts(n0, c) && n0.isDouble == reg.isDouble &&
        caseStart <= charOffset
      modifies this`reg, this`charOffset, this`err, this`c, this`nBytes
      ensures reg == old(reg).(isDouble := n.isDouble) && charOffset == old(charOffset) + 1
      ensures if more then InHand(s) else Valid() && charOffset <= |s|
      ensures old(AfterPeek(InNumber(s, caseStart, n0), s, charOffset, nBytes, config)) ==
              if more then AfterPeek(InNumber(s, caseStart, n), s, charOffset, nBytes, config)
              else Conclude(InNumber(s, caseStart, n), err, nBytes, c == '\0', charOffset, config)
    {
      ghost var m := InNumber(s, caseStart, n0);
      assert Take(m, c, config) == AtNumber(m, c, config);
      Regroup(reg.pb, s[caseStart..charOffset], [c]);
      assert s[caseStart..charOffset] + [c] == s[caseStart..charOffset + 1];
      n := Scanned(n0, c);
      reg := reg.(isDouble := n.isDouble);
      ghost var m1 := Machine(levels, current, Number(reg.pb + s[caseStart..charOffset + 1], n), reg.high, lost);
      assert Take(m, c, config) == Go(m1);
      more := Next(s, m1);
    }

    /** The text ends inside the number, of which only the bytes are kept. */
    method NumberRunsOut(s: Bytes, caseStart: nat, n: Scan)
      requires Valid() && top.state == StateNumber && caseStart <= charOffset <= |s| && n.isDouble == reg.isDouble
      modifies this`reg
      ensures FlowOk(Out, s) && Ended(Out, s) ==
        Conclude(old(InNumber(s, caseStart, n)), err, nBytes, c == '\0', charOffset, config)
    {
      reg := reg.(pb := reg.pb + s[caseStart..charOffset]);
    }

    /** The byte in hand is not part of the number, of which `run` was read in this call. */
    method EndNumber(run: Bytes, n: Scan) returns (flow: Flow)
      requires Valid() && Tidy() && top.state == StateNumber && !Accepts(n, c) && n.isDouble == reg.isDouble
      modifies this`reg, this`top, this`current, this`err, this`mem
      ensures Shape() && flow != Advance && (flow != Out ==> Valid() && err == old(err))
      ensures Steps(flow, old(Abs().(mode := Number(reg.pb + run, n))), c, config, Abs(), err)
      ensures flow == Redo ==> RankOf(top) < old(RankOf(top))
      ensures Tidy()
    {
      ghost var m := Machine(levels, current, Number(reg.pb + run, n), reg.high, lost);
      assert m == Abs().(mode := Number(reg.pb + run, n));
      if TokDepth() > 0 && !EndsNumber(c) {
        assert Take(m, c, config) == AtNumber(m, c, config);
        err := NotNumber;
        flow := Out;
      } else {
        reg := reg.(pb := reg.pb + run);
        flow := NumberEnded(m, n);
      }
    }

    /** All of the number is in the buffer; it may be the minus sign of an infinity. */
    method NumberEnded(ghost m: Machine, n: Scan) returns (flow: Flow)
      requires Valid() && Tidy() && top.state == StateNumber && !Accepts(n, c) && n.isDouble == reg.isDouble
      requires m == Machine(levels, current, Number(reg.pb, n), reg.high, lost) && (TokDepth() == 0 || EndsNumber(c))
      modifies this`reg, this`top, this`current, this`err, this`mem
      ensures Shape() && flow != Advance && (flow != Out ==> Valid() && err == old(err))
      ensures Steps(flow, m, c, config, Abs(), err)
      ensures flow == Redo ==> RankOf(top) < old(RankOf(top))
      ensures Tidy()
    {
      assert Take(m, c, config) == AtNumber(m, c, config);
      if reg.pb != [] && reg.pb[0] == '-' && n.run <= 1 && (c == 'i' || c == 'I') {
        reg := reg.(stPos := 0);
        top := top.(state := StateInf);
        flow := Redo;
      } else {
        flow := EndDigits(m, n);
      }
    }

    /** The number in the buffer is complete. */
    method EndDigits(ghost m: Machine, n: Scan) returns (flow: Flow)
      requires Valid() && Tidy() && top.state == StateNumber && n.isDouble == reg.isDouble
      requires m == Machine(levels, current, Number(reg.pb, n), reg.high, lost)
      requires var v := ParseNumber(reg.pb, reg.isDouble, config);
        Take(m, c, config) == if v.Parsed? then Take(Complete(m, v.value), c, config) else Fail(m, NotNumber)
      modifies this`reg, this`top, this`current, this`err, this`mem
      ensures Shape() && flow != Advance && (flow != Out ==> Valid() && err == old(err))
      ensures Steps(flow, m, c, config, Abs(), err)
      ensures flow == Redo ==> RankOf(top) < old(RankOf(top))
      ensures Tidy()
    {
      flow := NumberValue();
    }

    /** The value of the number in the buffer. */
    method NumberValue() returns (flow: Flow)
      requires Valid() && Tidy() && top.state == StateNumber
      modifies this`reg, this`top, this`current, this`err, this`mem
      ensures reg == old(reg).(pb := reg.pb)
      ensures var v := ParseNumber(old(reg.pb), reg.isDouble, config);
        if v.Parsed? then flow == Redo && err == old(err) && top == Level(EatWs, StateFinish, old(top.field)) &&
          current == v.value
        else flow == Out && err == NotNumber && top == old(top) && current == old(current)
      ensures Tidy()
    {
      TrimNumber();
      match ParseTrimmed(reg.pb, reg.isDouble, config)
      case Parsed(v) =>
        flow := Completed(v);
      case NoNumber =>
        err := NotNumber;
        flow := Out;
    }

    /** Trims some bytes off the end of a double, so that "123e+" is accepted. */
    method TrimNumber()
      modifies this`reg
      ensures reg == old(reg).(pb := if reg.isDouble && !config.strict then Trimmed(old(reg.pb)) else old(reg.pb))
    {
      if reg.isDouble && !config.strict {
        while |reg.pb| > 1 && reg.pb[|reg.pb| - 1] in ['e', 'E', '-', '+']
          invariant Trimmed(reg.pb) == Trimmed(old(reg.pb)) && reg == old(reg).(pb := reg.pb)
          decreases |reg.pb|
        {
          reg := reg.(pb := reg.pb[..|reg.pb| - 1]);
        }
      }
    }

    // ---------- the call ----------

    lemma StepsGive(flow: Flow, m0: Machine, m: Machine, e: Error, s: Bytes, i: nat, left: nat)
      requires i < |s| && Steps(flow, m0, s[i], config, m, e)
      ensures AfterPeek(m0, s, i, left, config) ==
        match flow
        case Advance => AfterGo(m, s, i, left, config)
        case Redo => AfterPeek(m, s, i, left, config)
        case Out => Conclude(m, e, left, s[i] == '\0', i, config)
    {
    }

    /** The states in which a case looks at one byte only. */
    method DispatchByte() returns (flow: Flow)
      requires Valid() && Tidy() && err == Success
      requires top.state !in {EatWs, StateComment, StateCommentEol, StateInf, StateString, StateField,
        StateEscapeUnicode, StateNumber}
      modifies this`reg, this`levels, this`top, this`current, this`err, this`lost, this`mem, this`leaked
      ensures Shape() && (flow != Out ==> Valid() && err == Success) && Steps(flow, old(Abs()), c, config, Abs(), err)
      ensures flow == Redo ==> lost < old(lost) || RankOf(top) < old(RankOf(top))
      ensures Tidy() && lost <= old(lost) && (lost == old(lost) ==> leaked == old(leaked))
    {
      match top.state
      case StateStart => flow := CaseStart();
      case StateFinish => flow := CaseFinish();
      case StateNull => flow := CaseNull();
      case StateBoolean => flow := CaseBoolean();
      case StateCommentStart => flow := CaseComment();
      case StateCommentEnd => flow := CaseComment();
      case StateStringEscape => flow := CaseStringEscape();
      case StateNeedEscape => flow := CaseNeed();
      case StateNeedU => flow := CaseNeed();
      case StateArray => flow := CaseArray();
      case StateArrayAfterSep => flow := CaseArray();
      case StateArraySep => flow := CaseSep();
      case StateObjectSep => flow := CaseSep();
      case StateFieldStart => flow := CaseFieldStart();
      case StateFieldStartAfterSep => flow := CaseFieldStart();
      case StateFieldEnd => flow := CaseFieldEnd();
      case StateObjectValue => flow := CaseObjectValue();
    }

    /** The switch. */
    method Dispatch(s: Bytes) returns (flow: Flow)
      requires InHand(s) && Tidy()
      modifies this
      ensures given == old(given)
      ensures FlowOk(flow, s) && Ended(flow, s) == old(Pending(s)) && charOffset >= old(charOffset)
      ensures flow == Redo ==> charOffset > old(charOffset) || lost < old(lost) || RankOf(top) < old(RankOf(top))
      ensures Tidy() && lost <= old(lost) && (lost == old(lost) ==> leaked == old(leaked))
    {
      if top.state == EatWs {
        flow := CaseEatWs(s);
      } else if top.state == StateComment || top.state == StateCommentEol {
        flow := CaseCommentLoop(s);
      } else if top.state == StateInf {
        flow := CaseInf(s);
      } else if top.state == StateString || top.state == StateField {
        flow := CaseString(s);
      } else if top.state == StateEscapeUnicode {
        flow := CaseUnicode(s);
      } else if top.state == StateNumber {
        flow := CaseNumber(s);
      } else {
        ghost var m := Abs();
        flow := DispatchByte();
        StepsGive(flow, m, Abs(), err, s, charOffset, nBytes);
      }
    }

    /** One round of the main loop. */
    method Turn(s: Bytes) returns (flow: Flow)
      requires InHand(s) && Tidy()
      modifies this
      ensures flow != Advance && FlowOk(flow, s) && Ended(flow, s) == old(Pending(s)) && charOffset >= old(charOffset)
      ensures flow == Redo ==> charOffset > old(charOffset) || lost < old(lost) || RankOf(top) < old(RankOf(top))
      ensures Tidy() && given == old(given) && lost <= old(lost) && (lost == old(lost) ==> leaked == old(leaked))
    {
      flow := Dispatch(s);
      if flow == Advance { flow := Forward(s); }
    }

    /** The main loop: runs to the end of the text or to a jump out. */
    method Loop(s: Bytes)
      requires InHand(s) && Tidy()
      modifies this
      ensures FlowOk(Out, s) && Ended(Out, s) == old(Pending(s))
      ensures Tidy() && given == old(given) && lost <= old(lost) && (lost == old(lost) ==> leaked == old(leaked))
    {
      var flow := Redo;
      while flow == Redo
        invariant FlowOk(flow, s) && Ended(flow, s) == old(Pending(s)) && flow != Advance
        invariant Tidy() && given == old(given) && lost <= old(lost) && (lost == old(lost) ==> leaked == old(leaked))
        decreases if flow == Redo then 1 + |s| - charOffset else 0, lost, RankOf(top)
      {
        flow := Turn(s);
      }
    }

    /** json_tokener_parse_ex: one call does what the machine does with the text, whatever it was given
        before. When it wants more, the machine's state is kept. A value is given to the caller with the one
        reference that each of its nodes has; nothing else leaves the parser, and nothing is leaked unless
        an earlier success has left levels behind. */
    method ParseEx(s: Bytes) returns (obj: Option<Json>, ghost node: Node)
      requires Valid() && Tidy()
      modifies this
      ensures Shape() && Tidy() && (old(lost) == 0 ==> leaked == old(leaked))
      ensures given == old(given) + if obj.Some? then Ids(node) else multiset{}
      ensures match Parse(old(Abs()), s, config)
        case More(m) => obj == None && err == Continue && Valid() && Abs() == m
        case Value(v, n, m) => obj == Some(v) && Shows(node, v) && err == Success && charOffset == n && Valid() &&
          Abs() == m
        case Error(e, n) => obj == None && err == e && charOffset == n
    {
      ScanText(s);
      obj, node := Leave();
    }

    /** From the start of a call to the label out. */
    method ScanText(s: Bytes)
      requires Valid() && Tidy()
      modifies this
      ensures FlowOk(Out, s) && Ended(Out, s) == Parse(old(Abs()), s, config)
      ensures Tidy() && given == old(given) && (old(lost) == 0 ==> leaked == old(leaked))
    {
      charOffset, err, c, nBytes := 0, Success, '\U{0001}', 0;
      var more := Peek(s, Abs());
      if more { Loop(s); }
    }

    /** The tests that follow the label out. */
    method FinalError()
      requires Shape()
      modifies this`err
      ensures old(Conclude(Abs(), err, nBytes, c == '\0', charOffset, config)) ==
        if err == Success then Result.Value(current, charOffset, Restarted(Abs()))
        else if err == Continue then More(Resumed(Abs()))
        else Result.Error(err, charOffset)
      ensures err == Continue ==> old(err) == Continue
    {
      if config.validateUtf8 && nBytes != 0 { err := NotUtf8; }
      if c != '\0' && top.state == StateFinish && TokDepth() == 0 && config.strict && !config.allowTrailing {
        err := Unexpected;
      }
      if c == '\0' && top.state != StateFinish && top.saved != StateFinish { err := Eof; }
    }

    /** What follows the label out. */
    method Leave() returns (obj: Option<Json>, ghost node: Node)
      requires Shape() && Tidy() && (err == Continue ==> Valid())
      modifies this`err, this`levels, this`top, this`current, this`lost, this`mem, this`given
      ensures Shape() && Tidy()
      ensures given == old(given) + if obj.Some? then Ids(node) else multiset{}
      ensures match old(Conclude(Abs(), err, nBytes, c == '\0', charOffset, config))
        case More(m) => obj == None && err == Continue && Valid() && Abs() == m
        case Value(v, n, m) => obj == Some(v) && Shows(node, v) && err == Success && charOffset == n && Valid() &&
          Abs() == m
        case Error(e, n) => obj == None && err == e && charOffset == n
    {
      FinalError();
      node := mem.top;
      if err != Success { return None, node; }
      obj := Some(current);
      ResetLevels();
    }

    /** After a success every level is reset, but the depth stays. */
    method ResetLevels()
      requires Shape() && Tidy()
      modifies this`levels, this`lost, this`top, this`current, this`mem, this`given
      ensures Valid() && Abs() == Restarted(old(Abs()))
      ensures Tidy() && given == old(given) + Ids(old(mem.top)) && Shows(old(mem.top), old(current))
    {
      ghost var mem1 := ReturnedHeld(mem, given + leaked, levels, current);
      assert given + leaked + Ids(mem.top) == given + Ids(mem.top) + leaked;
      given, mem := given + Ids(mem.top), mem1;
      levels, lost := [], TokDepth();
      top, current := RESET_LEVEL, Null;
    }
  }
}
