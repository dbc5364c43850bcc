/** The printer and the parser undo each other. */
module TypeRoundTrip {
  import opened TypeRefs
  import opened TypeParser

  lemma {:induction false} StartsSplit(s: string, i: nat, a: string, b: string)
    requires Starts(s, i, a + b)
    ensures Starts(s, i, a) && Starts(s, i + |a|, b)
    decreases |a|
  {
    if a == "" {
      assert a + b == b;
    } else {
      assert (a + b)[0] == a[0] && (a + b)[1..] == a[1..] + b;
      StartsSplit(s, i + 1, a[1..], b);
    }
  }

  lemma {:induction false} StartsCharacter(s: string, i: nat, w: string, k: nat)
    requires Starts(s, i, w) && k < |w|
    ensures i + k < |s| && s[i + k] == w[k]
    decreases k
  {
    if k > 0 { StartsCharacter(s, i + 1, w[1..], k - 1); }
  }

  lemma WordCharacters(t: Table, s: string, i: nat, n: string)
    requires IsWord(t, n) && Starts(s, i, n)
    ensures i + |n| <= |s| && s[i..i + |n|] == n && forall k :: i <= k < i + |n| ==> s[k] in t.words
  {
    hide Starts;
    forall k | i <= k < i + |n| ensures k < |s| && s[k] == n[k - i] { StartsCharacter(s, i, n, k - i); }
    StartsCharacter(s, i, n, |n| - 1);
  }

  /** Where a printed name may stop. */
  ghost predicate Closes(s: string, e: nat) {
    e == |s| || (e < |s| && (s[e] == '<' || s[e] == ',' || s[e] == '>' || s[e] == '*'))
  }

  ghost predicate Ends(s: string, e: nat) {
    e == |s| || (e < |s| && (s[e] == ',' || s[e] == '>'))
  }

  lemma WordReads(t: Table, s: string, i: nat, n: string)
    requires Sound(t)
    requires IsWord(t, n) && Starts(s, i, n)
    requires i + |n| < |s| ==> s[i + |n|] !in t.words
    ensures SkipSpace(t, s, i) == i && PlainName(t, s, i) == Named(Identify(n), i + |n|)
  {
    StartsCharacter(s, i, n, 0);
    WordCharacters(t, s, i, n);
    hide Starts, Identify, WordEnd, IsWord;
    WordEndLongest(t, s, i);
    assert s[i] in t.words;
  }

  lemma KeywordReads(t: Table, s: string, i: nat, n: string, w: string)
    requires Sound(t)
    requires IsWord(t, n) && Starts(s, i, n) && IsWord(t, w)
    requires i + |n| < |s| ==> s[i + |n|] !in t.words
    ensures StartsWord(t, s, i, w) <==> n == w
  {
    WordReads(t, s, i, n);
    if StartsWord(t, s, i, w) { WordReads(t, s, i, w); }
  }

  lemma LongLongReads(t: Table, s: string, i: nat)
    requires Sound(t)
    requires Starts(s, i, "long long") && Closes(s, i + 9)
    ensures Head(t, s, i) == (false, Named(LongLong, i + 9))
  {
    assert "long long" == "long" + (" " + "long");
    StartsSplit(s, i, "long", " " + "long");
    StartsSplit(s, i + 4, " ", "long");
    WordReads(t, s, i, "long");
    KeywordReads(t, s, i, "long", "const");
    WordReads(t, s, i + 5, "long");
    KeywordReads(t, s, i + 5, "long", "long");
    assert SkipSpace(t, s, i + 4) == i + 5;
  }

  /** After a printed name there is no white space, no word and no `::`. */
  lemma NothingFollows(t: Table, s: string, e: nat)
    requires Sound(t)
    requires Closes(s, e)
    ensures SkipSpace(t, s, e) == e && PlainName(t, s, e) == NoName
    ensures !Starts(s, e, "::") && !Starts(s, e, "long") && !Starts(s, e, "const") && !Starts(s, e, "&&")
  {
  }

  /** The head of a printed name: every name but the two reserved ones is read back. */
  lemma HeadReads(t: Table, s: string, i: nat, id: Identifier)
    requires Sound(t)
    requires IsName(t, id) && Starts(s, i, Text(id)) && Closes(s, i + |Text(id)|)
    ensures if Reserved(id) then Head(t, s, i).1 == NoName else Head(t, s, i) == (false, Named(id, i + |Text(id)|))
  {
    hide Starts, SkipSpace, WordEnd, Identify;
    var n := Text(id);
    if id.LongLong? {
      LongLongReads(t, s, i);
    } else {
        WordReads(t, s, i, n);
      KeywordReads(t, s, i, n, "const");
      NothingFollows(t, s, i + |n|);
    }
  }

  lemma TailReads(t: Table, s: string, p: nat, id: Identifier, args: TypeList, pointer: bool)
    requires Sound(t)
    requires (pointer ==> p < |s| && s[p] == '*') && (!pointer ==> Ends(s, p))
    ensures Tail(t, s, p, false, id, args)
         == Success(TypeRef(id, args, false, NoReference, pointer), if pointer then p + 1 else p)
  {
    NothingFollows(t, s, p);
  }

  // ----- one unfolding of each parser function -----

  lemma TypeByHead(t: Table, s: string, i: nat, depth: nat)
    requires i <= |s| && depth <= MAX_DEPTH
    ensures var (c, name) := Head(t, s, i);
            TypeAt(t, s, i, depth) ==
            if name.NoName? then Failure else AfterName(t, s, SkipSpace(t, s, name.pos), depth, c, name.id)
  {
  }

  lemma NameByArguments(t: Table, s: string, p: nat, depth: nat, id: Identifier)
    requires p < |s| && s[p] == '<' && depth < MAX_DEPTH
    ensures AfterName(t, s, p, depth, false, id) == WithArguments(t, s, ArgumentsAt(t, s, p + 1, depth), false, id)
  {
  }

  lemma NameByTail(t: Table, s: string, p: nat, depth: nat, id: Identifier)
    requires p <= |s| && (p < |s| ==> s[p] != '<') && depth <= MAX_DEPTH
    ensures AfterName(t, s, p, depth, false, id) == Tail(t, s, p, false, id, End)
  {
  }

  lemma ArgumentsByFirst(t: Table, s: string, i: nat, depth: nat)
    requires i <= |s| && depth < MAX_DEPTH
    ensures ArgumentsAt(t, s, i, depth) == AfterArgument(t, s, TypeAt(t, s, i, depth + 1), depth)
  {
  }

  // ----- where a printed type stands in a text -----

  function TypeEnd(i: nat, r: TypeRef): (e: nat)
    ensures e >= i + |Text(r.name)|
    decreases r
  {
    var q := ArgumentsEnd(i + |Text(r.name)|, r.arguments);
    if r.pointer then q + 1 else q
  }

  /** `p` is where the name ends; the arguments stand in angle brackets. */
  function ArgumentsEnd(p: nat, args: TypeList): (e: nat)
    ensures e >= p
    decreases args, 1
  {
    if args.End? then p else ListEnd(p + 1, args) + 1
  }

  function ListEnd(i: nat, args: TypeList): (e: nat)
    requires args.More?
    ensures e >= i
    decreases args, 0
  {
    var e := TypeEnd(i, args.first);
    if args.rest.End? then e else ListEnd(e + 1, args.rest)
  }

  /** The characters of `s` from `i` on spell `r`. */
  ghost predicate Spells(s: string, i: nat, r: TypeRef)
    decreases r
  {
    var p := i + |Text(r.name)|;
    var q := ArgumentsEnd(p, r.arguments);
    && Starts(s, i, Text(r.name)) && p <= |s|
    && SpellsArguments(s, p, r.arguments) && q <= |s|
    && (r.pointer ==> q < |s| && s[q] == '*')
  }

  ghost predicate SpellsArguments(s: string, p: nat, args: TypeList)
    decreases args, 1
  {
    args.More? ==>
      var q := ListEnd(p + 1, args);
      p < |s| && s[p] == '<' && SpellsAll(s, p + 1, args) && q < |s| && s[q] == '>'
  }

  ghost predicate SpellsAll(s: string, i: nat, args: TypeList)
    requires args.More?
    decreases args, 0
  {
    var e := TypeEnd(i, args.first);
    Spells(s, i, args.first) && (args.rest.More? ==> e < |s| && s[e] == ',' && SpellsAll(s, e + 1, args.rest))
  }

  lemma {:induction false} PrintedSpells(s: string, i: nat, r: TypeRef)
    ensures i + |ValueName(r)| == TypeEnd(i, r)
    ensures i <= |s| && Starts(s, i, ValueName(r)) ==> Spells(s, i, r)
    decreases r, 1
  {
    hide Starts;
    var args := r.arguments;
    var star := if r.pointer then "*" else "";
    var angle := if args.End? then "" else "<" + ValueNames(args) + ">";
    var p := i + |Text(r.name)|;
    assert ValueName(r) == Text(r.name) + (angle + star);
    if args.More? { PrintedSpellsAll(s, p + 1, args); }
    if i <= |s| && Starts(s, i, ValueName(r)) {
      StartsSplit(s, i, Text(r.name), angle + star);
      StartsSplit(s, p, angle, star);
      StartsWithin(s, i, Text(r.name));
      if args.More? { StartsBracket(s, p, ValueNames(args)); }
    }
  }

  lemma StartsWithin(s: string, i: nat, w: string)
    requires i <= |s| && Starts(s, i, w)
    ensures i + |w| <= |s|
  {
    StartsSlice(s, i, w);
  }

  lemma StartsBracket(s: string, p: nat, inner: string)
    requires Starts(s, p, "<" + inner + ">")
    ensures p + 2 + |inner| <= |s| && s[p] == '<' && Starts(s, p + 1, inner) && s[p + 1 + |inner|] == '>'
  {
    assert "<" + inner + ">" == "<" + (inner + ">");
    StartsSplit(s, p, "<", inner + ">");
    StartsSplit(s, p + 1, inner, ">");
  }

  lemma StartsComma(s: string, i: nat, first: string, rest: string)
    requires Starts(s, i, first + ("," + rest))
    ensures Starts(s, i, first) && i + |first| < |s| && s[i + |first|] == ',' && Starts(s, i + |first| + 1, rest)
  {
    StartsSplit(s, i, first, "," + rest);
    StartsSplit(s, i + |first|, ",", rest);
  }

  lemma {:induction false} PrintedSpellsAll(s: string, i: nat, args: TypeList)
    requires args.More?
    ensures i + |ValueNames(args)| == ListEnd(i, args)
    ensures i <= |s| && Starts(s, i, ValueNames(args)) ==> SpellsAll(s, i, args)
    decreases args, 0
  {
    var first := ValueName(args.first);
    var e := i + |first|;
    PrintedSpells(s, i, args.first);
    assert args.rest.End? ==> ValueNames(args) == first;
    if args.rest.More? {
      var rest := ValueNames(args.rest);
      assert ValueNames(args) == first + ("," + rest);
      PrintedSpellsAll(s, e + 1, args.rest);
      if i <= |s| && Starts(s, i, ValueNames(args)) {
        StartsComma(s, i, first, rest);
      }
    }
  }

  lemma SpellsItself(r: TypeRef)
    ensures Spells(ValueName(r), 0, r) && |ValueName(r)| == TypeEnd(0, r)
  {
    var p := ValueName(r);
    StartsSlice(p, 0, p);
    assert p[0..0 + |p|] == p;
    PrintedSpells(p, 0, r);
  }

  // ----- reading back -----

  ghost function ReadType(r: TypeRef, end: nat): Parsed {
    if Clean(r) then Success(Erase(r), end) else Failure
  }

  ghost function ReadTypes(args: TypeList, end: nat): ParsedArguments {
    if AllClean(args) then Arguments(EraseAll(args), end) else ArgumentFailure
  }

  ghost function ReadSuffix(r: TypeRef, end: nat): Parsed {
    if AllClean(r.arguments) then Success(TypeRef(r.name, EraseAll(r.arguments), false, NoReference, r.pointer), end)
    else Failure
  }

  lemma ReadStep(r: TypeRef, end: nat)
    ensures ReadType(r, end) == if Reserved(r.name) then Failure else ReadSuffix(r, end)
  {
  }

  /** Parsing a spelled type, wherever it stands, gives its erased tree; a tree holding a
      reserved name never parses. */
  lemma {:induction false} TypeReads(t: Table, s: string, i: nat, r: TypeRef, depth: nat)
    requires Sound(t) && depth <= MAX_DEPTH && Shaped(t, r, MAX_DEPTH - depth)
    requires Spells(s, i, r) && Ends(s, TypeEnd(i, r))
    ensures TypeAt(t, s, i, depth) == ReadType(r, TypeEnd(i, r))
    decreases r
  {
    hide Starts, TypeAt, AfterName, ArgumentsAt, Clean, AllClean, Erase, EraseAll, ReadSuffix, ReadType, ReadTypes;
    var p := i + |Text(r.name)|;
    if r.arguments.More? { ArgumentsRead(t, s, p + 1, r.arguments, depth); }
    SuffixReads(t, s, i, p, r, depth);
    TypeStep(t, s, i, p, depth, r.name, ReadSuffix(r, TypeEnd(i, r)));
    ReadStep(r, TypeEnd(i, r));
  }

  lemma SuffixReads(t: Table, s: string, i: nat, p: nat, r: TypeRef, depth: nat)
    requires Sound(t) && depth <= MAX_DEPTH && p == i + |Text(r.name)| && Spells(s, i, r) && Ends(s, TypeEnd(i, r))
    requires r.arguments.More? ==>
               && depth < MAX_DEPTH && p < |s|
               && ArgumentsAt(t, s, p + 1, depth) == ReadTypes(r.arguments, ListEnd(p + 1, r.arguments) + 1)
    ensures p <= |s| && Closes(s, p) && AfterName(t, s, p, depth, false, r.name) == ReadSuffix(r, TypeEnd(i, r))
  {
    hide Starts, Tail, AfterName, ArgumentsAt;
    var args := r.arguments;
    SuffixStep(t, s, p, depth, r.name, AllClean(args), EraseAll(args), ArgumentsEnd(p, args), r.pointer);
  }

  lemma TypeStep(t: Table, s: string, i: nat, p: nat, depth: nat, id: Identifier, rest: Parsed)
    requires Sound(t) && depth <= MAX_DEPTH && IsName(t, id) && Starts(s, i, Text(id))
    requires p == i + |Text(id)| && p <= |s| && Closes(s, p)
    requires AfterName(t, s, p, depth, false, id) == rest
    ensures TypeAt(t, s, i, depth) == if Reserved(id) then Failure else rest
  {
    hide Starts, TypeAt, AfterName, Head, Tail;
    HeadReads(t, s, i, id);
    TypeByHead(t, s, i, depth);
    NothingFollows(t, s, p);
  }

  /** After the name: arguments read as `erased` up to `q`, then perhaps a star. */
  lemma SuffixStep(t: Table, s: string, p: nat, depth: nat, id: Identifier, clean: bool, erased: TypeList, q: nat,
                   pointer: bool)
    requires Sound(t) && depth <= MAX_DEPTH && p <= q <= |s|
    requires if p < |s| && s[p] == '<' then
               depth < MAX_DEPTH &&
               ArgumentsAt(t, s, p + 1, depth) == (if clean then Arguments(erased, q) else ArgumentFailure)
             else clean && erased == End && q == p
    requires if pointer then q < |s| && s[q] == '*' else Ends(s, q)
    ensures AfterName(t, s, p, depth, false, id) ==
            if clean then Success(TypeRef(id, erased, false, NoReference, pointer), if pointer then q + 1 else q)
            else Failure
  {
    TailReads(t, s, q, id, erased, pointer);
    if p < |s| && s[p] == '<' {
      NameByArguments(t, s, p, depth, id);
    } else {
      NameByTail(t, s, p, depth, id);
    }
  }

  lemma {:induction false} ArgumentsRead(t: Table, s: string, i: nat, args: TypeList, depth: nat)
    requires Sound(t)
    requires depth < MAX_DEPTH && args.More? && AllShaped(t, args, MAX_DEPTH - depth - 1)
    requires SpellsAll(s, i, args) && ListEnd(i, args) < |s| && s[ListEnd(i, args)] == '>'
    ensures ArgumentsAt(t, s, i, depth) == ReadTypes(args, ListEnd(i, args) + 1)
    decreases args
  {
    hide Starts, TypeAt, AfterName, ArgumentsAt, Clean, AllClean, Erase, EraseAll, ReadType, ReadTypes;
    TypeReads(t, s, i, args.first, depth + 1);
    var e := TypeEnd(i, args.first);
    if args.rest.End? {
      LastArgument(t, s, i, args, depth, e);
    } else {
      ArgumentsRead(t, s, e + 1, args.rest, depth);
      MoreArguments(t, s, i, args, depth, e, ListEnd(i, args) + 1);
    }
  }

  lemma LastArgument(t: Table, s: string, i: nat, args: TypeList, depth: nat, e: nat)
    requires Sound(t)
    requires depth < MAX_DEPTH && args.More? && args.rest.End? && i <= |s| && 0 < e < |s| && s[e] == '>'
    requires TypeAt(t, s, i, depth + 1) == ReadType(args.first, e)
    ensures ArgumentsAt(t, s, i, depth) == ReadTypes(args, e + 1)
  {
    ArgumentsByFirst(t, s, i, depth);
    AtDelimiter(t, s, depth, ReadType(args.first, e), e);
    ListRead(args, Arguments(End, e + 1), e + 1);
  }

  lemma MoreArguments(t: Table, s: string, i: nat, args: TypeList, depth: nat, e: nat, end: nat)
    requires Sound(t)
    requires depth < MAX_DEPTH && args.More? && args.rest.More? && i <= |s| && 0 < e < |s| && s[e] == ','
    requires TypeAt(t, s, i, depth + 1) == ReadType(args.first, e)
    requires ArgumentsAt(t, s, e + 1, depth) == ReadTypes(args.rest, end)
    ensures ArgumentsAt(t, s, i, depth) == ReadTypes(args, end)
  {
    ArgumentsByFirst(t, s, i, depth);
    AtDelimiter(t, s, depth, ReadType(args.first, e), e);
    ListRead(args, ReadTypes(args.rest, end), end);
  }

  /** Clean and erased lists, head and tail. */
  lemma ListRead(args: TypeList, rest: ParsedArguments, end: nat)
    requires args.More?
    requires rest == ReadTypes(args.rest, end)
    ensures (if Clean(args.first) then Push(Erase(args.first), rest) else ArgumentFailure) == ReadTypes(args, end)
  {
  }

  /** One step of the argument list at a delimiter. */
  lemma AtDelimiter(t: Table, s: string, depth: nat, first: Parsed, e: nat)
    requires Sound(t)
    requires depth < MAX_DEPTH && 0 < e < |s| && (s[e] == ',' || s[e] == '>')
    requires first.Success? ==> first.pos == e
    ensures AfterArgument(t, s, first, depth) ==
            if first.Failure? then ArgumentFailure
            else Push(first.ref, if s[e] == '>' then Arguments(End, e + 1) else ArgumentsAt(t, s, e + 1, depth))
  {
    assert SkipSpace(t, s, e) == e;
  }

  // ----- whole strings -----

  lemma {:induction false} PrintedEdges(t: Table, r: TypeRef)
    requires Sound(t)
    requires IsName(t, r.name)
    ensures var p := ValueName(r); p != "" && p[0] !in t.spaces && p[|p| - 1] !in t.spaces
  {
    var n := Text(r.name);
    assert r.name.LongLong? ==> n[0] == 'l' && n[|n| - 1] == 'g';
    assert n[0] in t.words && n[|n| - 1] in t.words;
    assert ValueName(r)[0] == n[0];
  }

  lemma TrimPrinted(t: Table, p: string)
    requires p != "" && p[0] !in t.spaces && p[|p| - 1] !in t.spaces
    ensures TrimRight(t, TrimLeft(t, p)) == p
  {
    assert SkipSpace(t, p, 0) == 0;
    assert p[0..] == p;
  }

  /** Within the length and depth limits, parsing the printed name erases qualifiers and
      nothing else, exactly when no name in the tree is `const` or `std`. */
  lemma RoundTrip(t: Table, r: TypeRef)
    requires Sound(t)
    requires Shaped(t, r, MAX_DEPTH) && Utf8Length(ValueName(r)) <= MAX_LENGTH
    ensures ParseSpec(t, ValueName(r)) == if Clean(r) then Success(Erase(r), |ValueName(r)|) else Failure
  {
    var p := ValueName(r);
    PrintedEdges(t, r);
    TrimPrinted(t, p);
    SpellsItself(r);
    TypeReads(t, p, 0, r, 0);
  }

  /** Equal printed names come from trees equal up to qualifiers. */
  lemma PrinterInjective(t: Table, a: TypeRef, b: TypeRef)
    requires Sound(t)
    requires Shaped(t, a, MAX_DEPTH) && Shaped(t, b, MAX_DEPTH) && Clean(a) && Clean(b)
    ensures ValueName(a) == ValueName(b) <==> Erase(a) == Erase(b)
  {
    SpellsItself(a);
    SpellsItself(b);
    TypeReads(t, ValueName(a), 0, a, 0);
    TypeReads(t, ValueName(b), 0, b, 0);
    ErasePrintsAlike(a);
    ErasePrintsAlike(b);
  }

  // ----- everything parsed is shaped -----

  lemma {:induction false} TypeAtShaped(t: Table, s: string, i: nat, depth: nat)
    requires i <= |s| && TypeAt(t, s, i, depth).Success?
    ensures depth <= MAX_DEPTH && Shaped(t, TypeAt(t, s, i, depth).ref, MAX_DEPTH - depth)
    decreases 2 * (MAX_DEPTH + 1 - depth), 1
  {
    var (isConst, name) := Head(t, s, i);
    AfterNameShaped(t, s, SkipSpace(t, s, name.pos), depth, isConst, name.id);
  }

  lemma {:induction false} AfterNameShaped(t: Table, s: string, p: nat, depth: nat, isConst: bool, id: Identifier)
    requires p <= |s| && depth <= MAX_DEPTH && IsName(t, id) && AfterName(t, s, p, depth, isConst, id).Success?
    ensures Shaped(t, AfterName(t, s, p, depth, isConst, id).ref, MAX_DEPTH - depth)
    decreases 2 * (MAX_DEPTH + 1 - depth), 0
  {
    if p < |s| && s[p] == '<' {
      ArgumentsAtShaped(t, s, p + 1, depth);
    }
  }

  lemma {:induction false} ArgumentsAtShaped(t: Table, s: string, i: nat, depth: nat)
    requires i <= |s| && depth < MAX_DEPTH && ArgumentsAt(t, s, i, depth).Arguments?
    ensures AllShaped(t, ArgumentsAt(t, s, i, depth).args, MAX_DEPTH - depth - 1)
    decreases 2 * (MAX_DEPTH - depth) + 1, |s| - i, 1
  {
    ArgumentsByFirst(t, s, i, depth);
    TypeAtShaped(t, s, i, depth + 1);
    AfterArgumentShaped(t, s, TypeAt(t, s, i, depth + 1), depth);
  }

  lemma {:induction false} AfterArgumentShaped(t: Table, s: string, first: Parsed, depth: nat)
    requires depth < MAX_DEPTH && first.Success? && 0 < first.pos <= |s| && Shaped(t, first.ref, MAX_DEPTH - depth - 1)
    requires AfterArgument(t, s, first, depth).Arguments?
    ensures AllShaped(t, AfterArgument(t, s, first, depth).args, MAX_DEPTH - depth - 1)
    decreases 2 * (MAX_DEPTH - depth) + 1, |s| - first.pos, 0
  {
    hide TypeAt, ArgumentsAt, Shaped;
    var p := SkipSpace(t, s, first.pos);
    if s[p] == ',' { ArgumentsAtShaped(t, s, p + 1, depth); }
  }

  lemma ParseShaped(t: Table, declared: string)
    requires ParseSpec(t, declared).Success?
    ensures Shaped(t, ParseSpec(t, declared).ref, MAX_DEPTH)
  {
    hide TypeAt, Shaped, TrimLeft, TrimRight, Utf8Length, SkipSpace;
    var input := TrimRight(t, TrimLeft(t, declared));
    assert TypeAt(t, input, 0, 0).Success?;
    TypeAtShaped(t, input, 0, 0);
  }

  /** Normalising twice is normalising once, on every string: also on those whose printed
      name is over the limits or holds a reserved word and so no longer parses. */
  lemma NormalizeIdempotent(t: Table, declared: string)
    requires Sound(t)
    ensures NormalizeSpec(t, NormalizeSpec(t, declared)) == NormalizeSpec(t, declared)
  {
    if ParseSpec(t, declared).Success? {
      var ref := ParseSpec(t, declared).ref;
      ParseShaped(t, declared);
      if Utf8Length(ValueName(ref)) <= MAX_LENGTH {
        RoundTrip(t, ref);
        ErasePrintsAlike(ref);
      }
    }
  }
}
