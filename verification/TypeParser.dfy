/** The recursive-descent type parser: a cursor class, the function it computes,
    and the round trip with the printer. */
module TypeParser {
  import opened TypeRefs

  datatype Parsed = Failure | Success(ref: TypeRef, pos: nat)
  datatype ParsedArguments = ArgumentFailure | Arguments(args: TypeList, pos: nat)
  datatype Name = NoName | Named(id: Identifier, pos: nat)

  function SkipSpace(t: Table, s: string, i: nat): (r: nat)
    requires i <= |s|
    ensures i <= r <= |s|
    decreases |s| - i
  {
    if i < |s| && s[i] in t.spaces then SkipSpace(t, s, i + 1) else i
  }

  function WordEnd(t: Table, s: string, i: nat): (r: nat)
    requires i <= |s|
    ensures i <= r <= |s|
    decreases |s| - i
  {
    if i < |s| && s[i] in t.words then WordEnd(t, s, i + 1) else i
  }

  lemma {:induction false} WordEndLongest(t: Table, s: string, i: nat)
    requires i <= |s|
    ensures var r := WordEnd(t, s, i);
            (forall k :: i <= k < r ==> s[k] in t.words) && (r < |s| ==> s[r] !in t.words)
    decreases |s| - i
  {
    if i < |s| && s[i] in t.words { WordEndLongest(t, s, i + 1); }
  }

  predicate Starts(s: string, i: nat, w: string)
    decreases |w|, |s|
  {
    w == "" || (i < |s| && s[i] == w[0] && Starts(s, i + 1, w[1..]))
  }

  lemma {:induction false} StartsSlice(s: string, i: nat, w: string)
    requires i <= |s|
    ensures Starts(s, i, w) <==> i + |w| <= |s| && s[i..i + |w|] == w
    decreases |w|
  {
    if w != "" {
      assert w == [w[0]] + w[1..];
      if i < |s| {
        StartsSlice(s, i + 1, w[1..]);
        if i + |w| <= |s| { assert s[i..i + |w|] == [s[i]] + s[i + 1..i + |w|]; }
      }
    }
  }

  predicate StartsWord(t: Table, s: string, i: nat, w: string) {
    Starts(s, i, w) && (i + |w| < |s| ==> s[i + |w|] !in t.words)
  }

  function AfterWord(t: Table, s: string, i: nat, w: string): (r: nat)
    requires i <= |s|
    ensures i <= r <= |s|
  {
    StartsSlice(s, i, w);
    if StartsWord(t, s, i, w) then i + |w| else i
  }

  function PlainName(t: Table, s: string, i: nat): (r: Name)
    requires i <= |s|
    ensures r.Named? ==> i < r.pos <= |s| && IsName(t, r.id) && !r.id.LongLong?
  {
    var start := SkipSpace(t, s, i);
    var end := WordEnd(t, s, start);
    WordEndLongest(t, s, start);
    if start == end then NoName else Named(Identify(s[start..end]), end)
  }

  /** Optional const, optional std::, the name, and `long long` as one name. */
  function Head(t: Table, s: string, i: nat): (r: (bool, Name))
    requires i <= |s|
    ensures r.1.Named? ==> i < r.1.pos <= |s| && IsName(t, r.1.id)
  {
    var start := SkipSpace(t, s, i);
    var after := AfterWord(t, s, start, "const");
    (after > start, LongName(t, s, StdName(t, s, PlainName(t, s, after))))
  }

  function StdName(t: Table, s: string, name: Name): (r: Name)
    requires name.Named? ==> name.pos <= |s| && IsName(t, name.id) && !name.id.LongLong?
    ensures r.Named? ==> name.Named? && name.pos <= r.pos <= |s| && IsName(t, r.id) && !r.id.LongLong?
  {
    if name.Named? && name.id.Std? then
      var colon := SkipSpace(t, s, name.pos);
      StartsSlice(s, colon, "::");
      if Starts(s, colon, "::") then PlainName(t, s, colon + 2) else NoName
    else name
  }

  function LongName(t: Table, s: string, name: Name): (r: Name)
    requires name.Named? ==> name.pos <= |s| && IsName(t, name.id) && !name.id.LongLong?
    ensures r.Named? ==> name.Named? && name.pos <= r.pos <= |s| && IsName(t, r.id)
  {
    if name.Named? && name.id.Long? then
      var next := SkipSpace(t, s, name.pos);
      StartsSlice(s, next, "long");
      if StartsWord(t, s, next, "long") then Named(LongLong, next + 4) else Named(Long, next)
    else name
  }

  /** Trailing const and at most one of `&&`, `&`, `*`. */
  function Tail(t: Table, s: string, i: nat, isConst: bool, id: Identifier, args: TypeList): (r: Parsed)
    requires i <= |s|
    ensures r.Success? && i <= r.pos <= |s| && r.ref.name == id && r.ref.arguments == args
  {
    var start := SkipSpace(t, s, i);
    var after := AfterWord(t, s, start, "const");
    var p := SkipSpace(t, s, after);
    var c := isConst || after > start;
    StartsSlice(s, p, "&&");
    if Starts(s, p, "&&") then Success(TypeRef(id, args, c, RValueReference, false), p + 2)
    else if p < |s| && s[p] == '&' then Success(TypeRef(id, args, c, LValueReference, false), p + 1)
    else if p < |s| && s[p] == '*' then Success(TypeRef(id, args, c, NoReference, true), p + 1)
    else Success(TypeRef(id, args, c, NoReference, false), p)
  }

  function TypeAt(t: Table, s: string, i: nat, depth: nat): (r: Parsed)
    requires i <= |s|
    ensures r.Success? ==> i < r.pos <= |s|
    decreases 2 * (MAX_DEPTH + 1 - depth), |s|, 1
  {
    if depth > MAX_DEPTH then Failure
    else
      var (isConst, name) := Head(t, s, i);
      if name.NoName? then Failure else AfterName(t, s, SkipSpace(t, s, name.pos), depth, isConst, name.id)
  }

  /** Template arguments, when the name is followed by `<`, and the tail. */
  function AfterName(t: Table, s: string, p: nat, depth: nat, isConst: bool, id: Identifier): (r: Parsed)
    requires p <= |s| && depth <= MAX_DEPTH
    ensures r.Success? ==> p <= r.pos <= |s|
    decreases 2 * (MAX_DEPTH + 1 - depth), |s|, 0
  {
    if p < |s| && s[p] == '<' then
      if depth >= MAX_DEPTH then Failure
      else WithArguments(t, s, ArgumentsAt(t, s, p + 1, depth), isConst, id)
    else Tail(t, s, p, isConst, id, End)
  }

  function WithArguments(t: Table, s: string, parsed: ParsedArguments, isConst: bool, id: Identifier): (r: Parsed)
    requires parsed.Arguments? ==> parsed.pos <= |s|
    ensures r.Success? ==> parsed.Arguments? && parsed.pos <= r.pos <= |s|
  {
    match parsed
    case ArgumentFailure => Failure
    case Arguments(args, q) => Tail(t, s, q, isConst, id, args)
  }

  function ArgumentsAt(t: Table, s: string, i: nat, depth: nat): (r: ParsedArguments)
    requires i <= |s| && depth < MAX_DEPTH
    ensures r.Arguments? ==> i < r.pos <= |s| && r.args.More?
    decreases 2 * (MAX_DEPTH - depth) + 1, |s| - i, 1
  {
    AfterArgument(t, s, TypeAt(t, s, i, depth + 1), depth)
  }

  /** A `>` closes the list, a comma asks for another argument. */
  function AfterArgument(t: Table, s: string, first: Parsed, depth: nat): (r: ParsedArguments)
    requires depth < MAX_DEPTH && (first.Success? ==> 0 < first.pos <= |s|)
    ensures r.Arguments? ==> first.Success? && first.pos < r.pos <= |s| && r.args.More?
    decreases 2 * (MAX_DEPTH - depth) + 1, if first.Success? then |s| - first.pos else 0, 0
  {
    match first
    case Failure => ArgumentFailure
    case Success(ref, after) =>
      var p := SkipSpace(t, s, after);
      if p < |s| && s[p] == '>' then Arguments(More(ref, End), p + 1)
      else if p < |s| && s[p] == ',' then Push(ref, ArgumentsAt(t, s, p + 1, depth))
      else ArgumentFailure
  }

  function Push(a: TypeRef, rest: ParsedArguments): ParsedArguments {
    match rest
    case ArgumentFailure => ArgumentFailure
    case Arguments(more, pos) => Arguments(More(a, more), pos)
  }

  function Prepend(args: TypeList, rest: ParsedArguments): ParsedArguments {
    match rest
    case ArgumentFailure => ArgumentFailure
    case Arguments(more, pos) => Arguments(Concat(args, more), pos)
  }

  function TrimLeft(t: Table, s: string): string { s[SkipSpace(t, s, 0)..] }

  function TrimRight(t: Table, s: string): string
    decreases |s|
  {
    if s != "" && s[|s| - 1] in t.spaces then TrimRight(t, s[..|s| - 1]) else s
  }

  function Utf8Length(s: string): nat {
    if s == "" then 0
    else
      var c := s[0] as int;
      (if c < 0x80 then 1 else if c < 0x800 then 2 else if c < 0x1_0000 then 3 else 4) + Utf8Length(s[1..])
  }

  /** What Parse returns: the reference, or a failure. */
  function ParseSpec(t: Table, declared: string): (r: Parsed) {
    if Utf8Length(declared) > MAX_LENGTH then Failure
    else
      var input := TrimRight(t, TrimLeft(t, declared));
      if input == "" then Failure
      else match TypeAt(t, input, 0, 0)
        case Failure => Failure
        case Success(ref, pos) =>
          var end := SkipSpace(t, input, pos);
          if end == |input| then Success(ref, end) else Failure
  }

  function NormalizeSpec(t: Table, declared: string): string {
    match ParseSpec(t, declared)
    case Failure => declared
    case Success(ref, _) => ValueName(ref)
  }

  // ----- the cursor object -----

  class Cursor {
    const table: Table
    const input: string
    var pos: nat

    constructor (table: Table, input: string)
      ensures this.table == table && this.input == input && pos == 0
    {
      this.table, this.input, pos := table, input, 0;
    }

    ghost predicate Valid()
      reads this
    {
      pos <= |input|
    }

    method Skip()
      requires Valid()
      modifies this
      ensures Valid() && pos == SkipSpace(table, input, old(pos))
    {
      while pos < |input| && input[pos] in table.spaces
        invariant Valid() && SkipSpace(table, input, pos) == SkipSpace(table, input, old(pos))
        decreases |input| - pos
      {
        pos := pos + 1;
      }
    }

    method ConsumeByte(value: char) returns (ok: bool)
      requires Valid()
      modifies this
      ensures Valid() && ok == (old(pos) < |input| && input[old(pos)] == value)
      ensures pos == if ok then old(pos) + 1 else old(pos)
    {
      if pos >= |input| || input[pos] != value { return false; }
      pos := pos + 1;
      return true;
    }

    method ConsumeString(value: string) returns (ok: bool)
      requires Valid()
      modifies this
      ensures Valid() && ok == Starts(input, old(pos), value)
      ensures pos == if ok then old(pos) + |value| else old(pos)
    {
      var next := pos;
      for k := 0 to |value|
        invariant next == pos + k && Starts(input, pos, value) == Starts(input, next, value[k..])
        invariant pos == old(pos) && next <= |input|
      {
        assert value[k..][0] == value[k] && value[k..][1..] == value[k + 1..];
        if next >= |input| || input[next] != value[k] { return false; }
        next := next + 1;
      }
      pos := next;
      return true;
    }

    method ConsumeWord(word: string) returns (ok: bool)
      requires Valid()
      modifies this
      ensures Valid() && ok == StartsWord(table, input, old(pos), word)
      ensures pos == AfterWord(table, input, old(pos), word)
    {
      var start := pos;
      var found := ConsumeString(word);
      if !found { return false; }
      if pos < |input| && input[pos] in table.words {
        pos := start;
        return false;
      }
      return true;
    }

    method ParseName() returns (name: Name)
      requires Valid()
      modifies this
      ensures Valid() && name == PlainName(table, input, old(pos))
      ensures name.Named? ==> pos == name.pos
    {
      Skip();
      var start := pos;
      while pos < |input| && input[pos] in table.words
        invariant Valid() && start <= pos && WordEnd(table, input, pos) == WordEnd(table, input, start)
        decreases |input| - pos
      {
        pos := pos + 1;
      }
      if start == pos { return NoName; }
      return Named(Identify(input[start..pos]), pos);
    }

    method ParseHead() returns (isConst: bool, name: Name)
      requires Valid()
      modifies this
      ensures Valid() && (isConst, name) == Head(table, input, old(pos))
      ensures name.Named? ==> pos == name.pos
    {
      Skip();
      isConst := ConsumeWord("const");
      SkipTwice(table, input, pos);
      if isConst { Skip(); }
      name := ParseName();
      name := ParseStd(name);
      name := ParseLong(name);
    }

    method ParseStd(name: Name) returns (r: Name)
      requires Valid() && (name.Named? ==> name.pos == pos && IsName(table, name.id) && !name.id.LongLong?)
      modifies this
      ensures Valid() && r == StdName(table, input, name)
      ensures r.Named? ==> r.pos == pos
    {
      if name.NoName? || !name.id.Std? { return name; }
      Skip();
      var colons := ConsumeString("::");
      if !colons { return NoName; }
      r := ParseName();
    }

    method ParseLong(name: Name) returns (r: Name)
      requires Valid() && (name.Named? ==> name.pos == pos && IsName(table, name.id) && !name.id.LongLong?)
      modifies this
      ensures Valid() && r == LongName(table, input, name)
      ensures r.Named? ==> r.pos == pos
    {
      if name.NoName? || !name.id.Long? { return name; }
      Skip();
      var second := ConsumeWord("long");
      return Named(if second then LongLong else Long, pos);
    }

    method ParseTail(isConst: bool, id: Identifier, args: TypeList) returns (r: Parsed)
      requires Valid()
      modifies this
      ensures Valid() && r == Tail(table, input, old(pos), isConst, id, args)
      ensures r.Success? && pos == r.pos
    {
      var ref := TypeRef(id, args, isConst, NoReference, false);
      Skip();
      var trailing := ConsumeWord("const");
      if trailing {
        ref := ref.(isConst := true);
        Skip();
      } else {
        SkipTwice(table, input, old(pos));
      }
      var rvalue := ConsumeString("&&");
      if rvalue {
        ref := ref.(reference := RValueReference);
      } else {
        var lvalue := ConsumeByte('&');
        if lvalue {
          ref := ref.(reference := LValueReference);
        } else {
          var star := ConsumeByte('*');
          if star { ref := ref.(pointer := true); }
        }
      }
      return Success(ref, pos);
    }

    /** One argument and the delimiter after it: a comma asks for more. */
    method ParseArgument(depth: nat) returns (argument: Parsed, more: bool)
      requires Valid() && depth < MAX_DEPTH
      modifies this
      ensures Valid() && (argument.Success? ==> old(pos) < pos)
      ensures ArgumentsAt(table, input, old(pos), depth) ==
              if argument.Failure? then ArgumentFailure
              else if more then Push(argument.ref, ArgumentsAt(table, input, pos, depth))
              else Arguments(More(argument.ref, End), pos)
      decreases 2 * (MAX_DEPTH - depth) + 1, 0
    {
      hide TypeAt, AfterName, SkipSpace;
      argument := ParseType(depth + 1);
      more := false;
      if argument.Failure? { return; }
      Skip();
      var close := ConsumeByte('>');
      if close { return; }
      var comma := ConsumeByte(',');
      if comma { return argument, true; }
      return Failure, false;
    }

    method ParseArguments(depth: nat) returns (r: ParsedArguments)
      requires Valid() && depth < MAX_DEPTH
      modifies this
      ensures Valid() && r == ArgumentsAt(table, input, old(pos), depth)
      ensures r.Arguments? ==> pos == r.pos
      decreases 2 * (MAX_DEPTH - depth) + 1, 1
    {
      var args: TypeList := End;
      ghost var whole := ArgumentsAt(table, input, pos, depth);
      var more := true;
      while more
        invariant Valid()
        invariant whole == if more then Prepend(args, ArgumentsAt(table, input, pos, depth)) else Arguments(args, pos)
        decreases |input| - pos, more
      {
        var argument;
        argument, more := ParseArgument(depth);
        if argument.Failure? { return ArgumentFailure; }
        PrependOne(args, argument.ref, ArgumentsAt(table, input, pos, depth));
        args := Concat(args, More(argument.ref, End));
      }
      return Arguments(args, pos);
    }

    method ParseType(depth: nat) returns (r: Parsed)
      requires Valid()
      modifies this
      ensures Valid() && r == TypeAt(table, input, old(pos), depth)
      ensures r.Success? ==> pos == r.pos
      decreases 2 * (MAX_DEPTH + 1 - depth), 1
    {
      if depth > MAX_DEPTH { return Failure; }
      var isConst, name := ParseHead();
      if name.NoName? { return Failure; }
      Skip();
      r := ParseAfterName(depth, isConst, name.id);
    }

    method ParseAfterName(depth: nat, isConst: bool, id: Identifier) returns (r: Parsed)
      requires Valid() && depth <= MAX_DEPTH
      modifies this
      ensures Valid() && r == AfterName(table, input, old(pos), depth, isConst, id)
      ensures r.Success? ==> pos == r.pos
      decreases 2 * (MAX_DEPTH + 1 - depth), 0
    {
      var open := ConsumeByte('<');
      var args: TypeList := End;
      if open {
        if depth >= MAX_DEPTH { return Failure; }
        var parsed := ParseArguments(depth);
        if parsed.ArgumentFailure? { return Failure; }
        args := parsed.args;
      }
      r := ParseTail(isConst, id, args);
    }
  }

  lemma PrependOne(args: TypeList, a: TypeRef, rest: ParsedArguments)
    ensures Prepend(args, Push(a, rest)) == Prepend(Concat(args, More(a, End)), rest)
  {
    if rest.Arguments? {
      ConcatAssociative(args, More(a, End), rest.args);
      assert Concat(More(a, End), rest.args) == More(a, Concat(End, rest.args));
    }
  }

  lemma {:induction false} SkipTwice(t: Table, s: string, i: nat)
    requires i <= |s|
    ensures SkipSpace(t, s, SkipSpace(t, s, i)) == SkipSpace(t, s, i)
    decreases |s| - i
  {
    if i < |s| && s[i] in t.spaces { SkipTwice(t, s, i + 1); }
  }

  method Parse(table: Table, declared: string) returns (r: Parsed)
    ensures r == ParseSpec(table, declared)
  {
    if Utf8Length(declared) > MAX_LENGTH { return Failure; }
    var parser := new Cursor(table, TrimRight(table, TrimLeft(table, declared)));
    if |parser.input| == 0 { return Failure; }
    r := parser.ParseType(0);
    if r.Failure? { return; }
    parser.Skip();
    if parser.pos != |parser.input| { return Failure; }
    return Success(r.ref, parser.pos);
  }

  method Normalize(table: Table, declared: string) returns (name: string)
    ensures name == NormalizeSpec(table, declared)
  {
    var parsed := Parse(table, declared);
    if parsed.Failure? { return declared; }
    return ValueName(parsed.ref);
  }
}
