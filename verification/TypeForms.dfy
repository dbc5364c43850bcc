/** The declared forms of C++ types: white space, `const`, `std::`, references and pointers as a
    problem's metadata may write them, and what the parser makes of them. */
module TypeForms {
  import opened Options
  import opened TypeRefs
  import opened TypeParser
  import opened TypeRoundTrip

  datatype Suffix = Nothing | Ampersand | DoubleAmpersand | Star

  /** One way to write a type: white space before it, a leading `const` and the white space after it,
      `std` and `::` with white space after each, the name (with the white space inside `long long`),
      the arguments, and white space, a trailing `const` with white space after it, and a suffix. */
  datatype Form = Form(before: string, lead: Option<string>, prefix: Option<(string, string)>, id: Identifier,
                       inner: string, arguments: ArgumentForms, gap: string, constant: Option<string>, suffix: Suffix)

  /** Arguments in angle brackets, with white space before the first bracket and after each. */
  datatype ArgumentForms = NoArguments | Angled(space: string, list: FormList)

  datatype FormList = Last(form: Form, after: string) | Next(form: Form, after: string, rest: FormList)

  // ----- the text of a form -----

  function LeadText(lead: Option<string>): string { if lead.None? then "" else "const" + lead.value }

  function PrefixText(prefix: Option<(string, string)>): string {
    if prefix.None? then "" else "std" + (prefix.value.0 + ("::" + prefix.value.1))
  }

  function NameText(id: Identifier, inner: string): string {
    if id.LongLong? then "long" + (inner + "long") else Text(id)
  }

  function HeadText(f: Form): string {
    f.before + (LeadText(f.lead) + (PrefixText(f.prefix) + NameText(f.id, f.inner)))
  }

  function SuffixText(suffix: Suffix): string {
    match suffix
    case Nothing => ""
    case Ampersand => "&"
    case DoubleAmpersand => "&&"
    case Star => "*"
  }

  function TailText(f: Form): string { f.gap + (LeadText(f.constant) + SuffixText(f.suffix)) }

  function Render(f: Form): string
    decreases f, 0
  {
    HeadText(f) + (ArgumentsText(f.arguments) + TailText(f))
  }

  function ArgumentsText(arguments: ArgumentForms): string
    decreases arguments, 0
  {
    if arguments.NoArguments? then "" else arguments.space + ("<" + (ListText(arguments.list) + ">"))
  }

  function ListText(list: FormList): string
    decreases list, 0
  {
    match list
    case Last(f, after) => Render(f) + after
    case Next(f, after, rest) => Render(f) + (after + ("," + ListText(rest)))
  }

  // ----- the type a form declares -----

  function ReferenceOf(suffix: Suffix): Reference {
    match suffix
    case Ampersand => LValueReference
    case DoubleAmpersand => RValueReference
    case Nothing => NoReference
    case Star => NoReference
  }

  function Meaning(f: Form): TypeRef
    decreases f, 0
  {
    TypeRef(f.id, Meanings(f.arguments), f.lead.Some? || f.constant.Some?,
            ReferenceOf(f.suffix), f.suffix.Star?)
  }

  function Meanings(arguments: ArgumentForms): TypeList
    decreases arguments, 0
  {
    if arguments.NoArguments? then End else ListMeaning(arguments.list)
  }

  function ListMeaning(list: FormList): TypeList
    decreases list, 0
  {
    match list
    case Last(f, _) => More(Meaning(f), End)
    case Next(f, _, rest) => More(Meaning(f), ListMeaning(rest))
  }

  // ----- which forms are allowed -----

  predicate Blank(t: Table, w: string) { forall i :: 0 <= i < |w| ==> w[i] in t.spaces }

  /** White space where there may be some, and where words must be kept apart there is some. A type may
      be called `const` only behind `const` or `std::`, and `std` only behind `std::`. */
  predicate Spaced(t: Table, f: Form) {
    && Blank(t, f.before) && Blank(t, f.inner) && Blank(t, f.gap)
    && (f.lead.Some? ==> Blank(t, f.lead.value) && f.lead.value != "")
    && (f.prefix.Some? ==> Blank(t, f.prefix.value.0) && Blank(t, f.prefix.value.1))
    && IsName(t, f.id) && (if f.id.LongLong? then f.inner != "" else f.inner == "")
    && (f.id.Const? ==> f.lead.Some? || f.prefix.Some?) && (f.id.Std? ==> f.prefix.Some?)
    && (f.constant.Some? ==> Blank(t, f.constant.value) && (f.arguments.NoArguments? ==> f.gap != ""))
  }

  /** Arguments nest at most `room` levels deep. */
  predicate Allowed(t: Table, f: Form, room: nat)
    decreases f, 0
  {
    Spaced(t, f) && AllowedArguments(t, f.arguments, room)
  }

  predicate AllowedArguments(t: Table, arguments: ArgumentForms, room: nat)
    decreases arguments, 1
  {
    arguments.Angled? ==> room > 0 && Blank(t, arguments.space) && AllAllowed(t, arguments.list, room - 1)
  }

  predicate AllAllowed(t: Table, list: FormList, room: nat)
    decreases list, 0
  {
    match list
    case Last(f, after) => Allowed(t, f, room) && Blank(t, after)
    case Next(f, after, rest) => Allowed(t, f, room) && Blank(t, after) && AllAllowed(t, rest, room)
  }

  // ----- white space -----

  lemma {:induction false} SkipsBlank(t: Table, s: string, i: nat, w: string)
    requires Blank(t, w) && Starts(s, i, w) && i <= |s|
    ensures i + |w| <= |s| && SkipSpace(t, s, i) == SkipSpace(t, s, i + |w|)
    decreases |w|
  {
    if w != "" {
      assert w[0] in t.spaces && Blank(t, w[1..]);
      SkipsBlank(t, s, i + 1, w[1..]);
    }
  }

  lemma SkipEnds(t: Table, s: string, i: nat)
    requires i <= |s| && (i < |s| ==> s[i] !in t.spaces)
    ensures SkipSpace(t, s, i) == i
  {
  }

  /** White space, and then something else. */
  lemma SkipsTo(t: Table, s: string, i: nat, w: string)
    requires Blank(t, w) && Starts(s, i, w) && i <= |s| && (i + |w| < |s| ==> s[i + |w|] !in t.spaces)
    ensures i + |w| <= |s| && SkipSpace(t, s, i) == i + |w|
  {
    SkipsBlank(t, s, i, w);
    SkipEnds(t, s, i + |w|);
  }

  /** The first character of white space and what follows is no word character. */
  lemma BlankApart(t: Table, s: string, i: nat, w: string)
    requires Sound(t) && Blank(t, w) && Starts(s, i, w) && i <= |s|
    requires w != "" || i == |s| || s[i] !in t.words
    ensures i < |s| ==> s[i] !in t.words
  {
    if w != "" { assert w[0] in t.spaces; }
  }

  lemma Keywords(t: Table)
    requires Sound(t)
    ensures IsWord(t, "const") && IsWord(t, "std") && IsWord(t, "long")
  {
  }

  // ----- the head -----

  /** White space and a word are read as the name. */
  lemma NameAfter(t: Table, s: string, i: nat, w: string, n: string)
    requires Sound(t) && Blank(t, w) && IsWord(t, n) && i <= |s| && Starts(s, i, w) && Starts(s, i + |w|, n)
    requires i + |w| + |n| < |s| ==> s[i + |w| + |n|] !in t.words
    ensures i + |w| + |n| <= |s| && SkipSpace(t, s, i) == i + |w|
    ensures PlainName(t, s, i) == Named(Identify(n), i + |w| + |n|)
  {
    hide Starts, IsWord, Blank, SkipSpace, WordEnd, Identify;
    SkipsBlank(t, s, i, w);
    WordReads(t, s, i + |w|, n);
    StartsWithin(s, i + |w|, n);
  }

  /** The word that stands for the name, or for the first half of `long long`. */
  function FirstWord(id: Identifier): string { if id.LongLong? then "long" else Text(id) }

  function AfterFirst(f: Form): string { if f.id.LongLong? then f.inner + "long" else "" }

  lemma NameSplit(s: string, i: nat, f: Form)
    requires Starts(s, i, NameText(f.id, f.inner))
    ensures Starts(s, i, FirstWord(f.id)) && Starts(s, i + |FirstWord(f.id)|, AfterFirst(f))
    ensures |NameText(f.id, f.inner)| == |FirstWord(f.id)| + |AfterFirst(f)|
  {
    hide Starts;
    var a, b := FirstWord(f.id), AfterFirst(f);
    assert NameText(f.id, f.inner) == a + b;
    StartsSplit(s, i, a, b);
  }

  lemma FirstIsWord(t: Table, f: Form)
    requires Sound(t) && Spaced(t, f)
    ensures IsWord(t, FirstWord(f.id)) && Identify(FirstWord(f.id)) == (if f.id.LongLong? then Long else f.id)
  {
    Keywords(t);
  }

  /** The optional `std::` and the first word. */
  lemma PrefixReads(t: Table, s: string, i: nat, w: string, f: Form, q: nat)
    requires Sound(t) && Spaced(t, f) && Blank(t, w) && i <= |s| && Starts(s, i, w)
    requires Starts(s, i + |w|, PrefixText(f.prefix) + FirstWord(f.id))
    requires q == i + |w| + |PrefixText(f.prefix)| + |FirstWord(f.id)| && (q < |s| ==> s[q] !in t.words)
    ensures q <= |s| && StdName(t, s, PlainName(t, s, i)) == Named(Identify(FirstWord(f.id)), q)
  {
    hide Starts, IsWord, Blank, SkipSpace, Identify, PlainName;
    FirstIsWord(t, f);
    var n := FirstWord(f.id);
    StartsSplit(s, i + |w|, PrefixText(f.prefix), n);
    if f.prefix.None? {
      NameAfter(t, s, i, w, n);
      assert !Identify(n).Std?;
    } else {
      var (a, b) := f.prefix.value;
      var p := i + |w| + 3;
      assert PrefixText(f.prefix) == "std" + (a + ("::" + b));
      StartsSplit(s, i + |w|, "std", a + ("::" + b));
      StartsSplit(s, p, a, "::" + b);
      StartsSplit(s, p + |a|, "::", b);
      ColonsRead(t, s, i, w, a);
      SkipsColons(t, s, p, a);
      NameAfter(t, s, p + |a| + 2, b, n);
    }
  }

  lemma ColonsRead(t: Table, s: string, i: nat, w: string, a: string)
    requires Sound(t) && Blank(t, w) && Blank(t, a) && i <= |s|
    requires Starts(s, i, w) && Starts(s, i + |w|, "std") && Starts(s, i + |w| + 3, a) &&
             Starts(s, i + |w| + 3 + |a|, "::")
    ensures PlainName(t, s, i) == Named(Std, i + |w| + 3)
  {
    Keywords(t);
    StartsWithin(s, i, w);
    StartsWithin(s, i + |w|, "std");
    var p := i + |w| + 3;
    assert p < |s| && s[p] !in t.words by {
      if a != "" { assert a[0] in t.spaces; } else { StartsCharacter(s, p, "::", 0); }
    }
    hide Starts, IsWord, Blank, SkipSpace, PlainName;
    NameAfter(t, s, i, w, "std");
  }

  lemma SkipsColons(t: Table, s: string, p: nat, a: string)
    requires Sound(t) && Blank(t, a) && p <= |s| && Starts(s, p, a) && Starts(s, p + |a|, "::")
    ensures SkipSpace(t, s, p) == p + |a| && p + |a| + 2 <= |s|
  {
    StartsWithin(s, p, a);
    StartsWithin(s, p + |a|, "::");
    StartsCharacter(s, p + |a|, "::", 0);
    SkipsTo(t, s, p, a);
  }

  /** The second half of `long long`. */
  lemma SecondLong(t: Table, s: string, q: nat, w: string, e: nat)
    requires Sound(t) && Blank(t, w) && q <= |s| && Starts(s, q, w + "long") && e == q + |w| + 4 <= |s|
    requires e < |s| ==> s[e] !in t.words
    ensures LongName(t, s, Named(Long, q)) == Named(LongLong, e)
  {
    Keywords(t);
    hide Starts, IsWord, WordEnd, Blank, PlainName;
    StartsSplit(s, q, w, "long");
    WordReads(t, s, q + |w|, "long");
    SkipsBlank(t, s, q, w);
    KeywordReads(t, s, q + |w|, "long", "long");
  }

  /** The second word of the name, if any; a single `long` must not be followed by another one. */
  lemma LongReads(t: Table, s: string, q: nat, f: Form, e: nat)
    requires Sound(t) && Spaced(t, f) && q <= |s| && Starts(s, q, AfterFirst(f)) && e == q + |AfterFirst(f)| <= |s|
    requires e < |s| ==> s[e] !in t.words
    requires f.id.Long? ==> !StartsWord(t, s, SkipSpace(t, s, q), "long")
    ensures var r := LongName(t, s, Named(Identify(FirstWord(f.id)), q));
            r.Named? && r.id == f.id && e <= r.pos <= |s| && SkipSpace(t, s, r.pos) == SkipSpace(t, s, e)
  {
    FirstIsWord(t, f);
    hide Starts, IsWord, Identify, WordEnd, StartsWord, SkipSpace, Blank;
    SkipTwice(t, s, q);
    if f.id.LongLong? { SecondLong(t, s, q, f.inner, e); }
  }

  /** After the first word of the name there is no word character. */
  lemma FirstApart(t: Table, s: string, q: nat, f: Form, e: nat)
    requires Sound(t) && Spaced(t, f) && q <= |s| && Starts(s, q, AfterFirst(f)) && e == q + |AfterFirst(f)| <= |s|
    requires e < |s| ==> s[e] !in t.words
    ensures q < |s| ==> s[q] !in t.words
  {
    if f.id.LongLong? { assert f.inner[0] in t.spaces && AfterFirst(f)[0] == f.inner[0]; }
  }

  /** The leading `const`, or the word that stands in its place. */
  lemma LeadReads(t: Table, s: string, p: nat, f: Form, q: nat)
    requires Sound(t) && Spaced(t, f) && p <= |s|
    requires Starts(s, p, LeadText(f.lead) + (PrefixText(f.prefix) + FirstWord(f.id)))
    requires q == p + |LeadText(f.lead)| + |PrefixText(f.prefix)| + |FirstWord(f.id)| <= |s| &&
             (q < |s| ==> s[q] !in t.words)
    ensures SkipSpace(t, s, p) == p && AfterWord(t, s, p, "const") == if f.lead.Some? then p + 5 else p
  {
    hide IsWord, WordEnd, Identify, Starts;
    Keywords(t);
    FirstIsWord(t, f);
    var rest := PrefixText(f.prefix) + FirstWord(f.id);
    StartsSplit(s, p, LeadText(f.lead), rest);
    if f.lead.Some? {
      StartsSplit(s, p, "const", f.lead.value);
      BlankNext(t, s, p + 5, f.lead.value);
      WordReads(t, s, p, "const");
      KeywordReads(t, s, p, "const", "const");
    } else if f.prefix.Some? {
      StartsSplit(s, p, PrefixText(f.prefix), FirstWord(f.id));
      StdApart(t, s, p, f.prefix.value);
      WordReads(t, s, p, "std");
      KeywordReads(t, s, p, "std", "const");
    } else {
      assert rest == FirstWord(f.id);
      WordReads(t, s, p, FirstWord(f.id));
      KeywordReads(t, s, p, FirstWord(f.id), "const");
      assert FirstWord(f.id) != "const";
    }
  }

  lemma BlankNext(t: Table, s: string, i: nat, w: string)
    requires Sound(t) && Blank(t, w) && w != "" && Starts(s, i, w)
    ensures i < |s| && s[i] !in t.words
  {
    assert w[0] in t.spaces;
  }

  lemma StdApart(t: Table, s: string, p: nat, prefix: (string, string))
    requires Sound(t) && Blank(t, prefix.0) && Starts(s, p, PrefixText(Some(prefix)))
    ensures Starts(s, p, "std") && p + 3 < |s| && s[p + 3] !in t.words
  {
    hide Starts;
    var (a, b) := prefix;
    assert PrefixText(Some(prefix)) == "std" + (a + ("::" + b));
    StartsSplit(s, p, "std", a + ("::" + b));
    StartsSplit(s, p + 3, a, "::" + b);
    if a != "" {
      BlankNext(t, s, p + 3, a);
    } else {
      StartsCharacter(s, p + 3, "::" + b, 0);
    }
  }

  /** White space behind a leading `const`. */
  function LeadSpace(f: Form): string { if f.lead.Some? then f.lead.value else "" }

  lemma SpacedBefore(t: Table, f: Form)
    requires Spaced(t, f)
    ensures Blank(t, f.before) && Blank(t, LeadSpace(f))
    ensures |LeadText(f.lead)| == |LeadSpace(f)| + if f.lead.Some? then 5 else 0
  {
  }

  lemma HeadParts(s: string, i: nat, f: Form)
    requires Starts(s, i, HeadText(f)) && i + |HeadText(f)| <= |s|
    ensures var p := i + |f.before|;
            var q := p + |LeadText(f.lead)| + |PrefixText(f.prefix)| + |FirstWord(f.id)|;
            && Starts(s, i, f.before) && Starts(s, p, LeadText(f.lead) + (PrefixText(f.prefix) + FirstWord(f.id)))
            && Starts(s, p + |LeadText(f.lead)| - |LeadSpace(f)|, LeadSpace(f))
            && Starts(s, p + |LeadText(f.lead)|, PrefixText(f.prefix) + FirstWord(f.id))
            && Starts(s, q, AfterFirst(f)) && i + |HeadText(f)| == q + |AfterFirst(f)|
  {
    hide Starts;
    var lead, prefix, first, later := LeadText(f.lead), PrefixText(f.prefix), FirstWord(f.id), AfterFirst(f);
    assert NameText(f.id, f.inner) == first + later;
    assert HeadText(f) == f.before + ((lead + (prefix + first)) + later);
    StartsSplit(s, i, f.before, (lead + (prefix + first)) + later);
    var p := i + |f.before|;
    StartsSplit(s, p, lead + (prefix + first), later);
    StartsSplit(s, p, lead, prefix + first);
    if f.lead.Some? { StartsSplit(s, p, "const", f.lead.value); } else { StartsSplit(s, p, "", lead); }
  }

  /** Up to the first word of the name. */
  lemma HeadBegins(t: Table, s: string, i: nat, f: Form, e: nat) returns (q: nat)
    requires Sound(t) && Spaced(t, f) && i <= |s| && Starts(s, i, HeadText(f)) && e == i + |HeadText(f)| <= |s|
    requires e < |s| ==> s[e] !in t.words
    ensures q <= |s| && Starts(s, q, AfterFirst(f)) && e == q + |AfterFirst(f)|
    ensures var start := SkipSpace(t, s, i);
            var after := AfterWord(t, s, start, "const");
            && (after > start <==> f.lead.Some?)
            && StdName(t, s, PlainName(t, s, after)) == Named(Identify(FirstWord(f.id)), q)
  {
    hide Starts, SkipSpace, PlainName, StdName, Identify, FirstWord, AfterFirst, PrefixText, IsWord, WordEnd, HeadText,
         Blank, LeadText, LeadSpace, Spaced, AfterWord, StartsWord, IsName;
    HeadParts(s, i, f);
    SpacedBefore(t, f);
    var p := i + |f.before|;
    q := p + |LeadText(f.lead)| + |PrefixText(f.prefix)| + |FirstWord(f.id)|;
    FirstApart(t, s, q, f, e);
    LeadReads(t, s, p, f, q);
    SkipsBlank(t, s, i, f.before);
    PrefixReads(t, s, p + |LeadText(f.lead)| - |LeadSpace(f)|, LeadSpace(f), f, q);
  }

  /** The parser reads the head of a form: whether it starts with `const`, and the name. */
  lemma FormHead(t: Table, s: string, i: nat, f: Form, e: nat)
    requires Sound(t) && Spaced(t, f) && i <= |s| && Starts(s, i, HeadText(f)) && e == i + |HeadText(f)| <= |s|
    requires e < |s| ==> s[e] !in t.words
    requires f.id.Long? ==> !StartsWord(t, s, SkipSpace(t, s, e), "long")
    ensures var (c, r) := Head(t, s, i);
            c == f.lead.Some? && r.Named? && r.id == f.id && e <= r.pos <= |s|
            && SkipSpace(t, s, r.pos) == SkipSpace(t, s, e)
  {
    hide Starts, SkipSpace, PlainName, StdName, LongName, Identify, FirstWord, HeadText, Spaced, StartsWord, AfterWord;
    var q := HeadBegins(t, s, i, f, e);
    LongReads(t, s, q, f, e);
  }

  // ----- the tail -----

  /** Behind a type comes the end, a comma or a closing bracket, perhaps after white space. */
  ghost predicate Ended(t: Table, s: string, e: nat) {
    e <= |s| &&
    var n := SkipSpace(t, s, e);
    n == |s| || s[n] == ',' || s[n] == '>'
  }

  lemma EndedNext(t: Table, s: string, e: nat)
    requires Sound(t) && Ended(t, s, e) && e < |s|
    ensures s[e] !in t.words && s[e] != '&' && s[e] != '*' && s[e] != '<'
    ensures s[e] in t.spaces || s[e] == ',' || s[e] == '>'
  {
  }

  lemma StartsFirst(s: string, p: nat, w: string)
    requires w != ""
    ensures Starts(s, p, w) ==> p < |s| && s[p] == w[0]
  {
  }

  lemma NoKeyword(t: Table, s: string, p: nat)
    requires Sound(t) && (p < |s| ==> s[p] !in t.words)
    ensures !Starts(s, p, "const") && !Starts(s, p, "long")
  {
    StartsFirst(s, p, "const");
    StartsFirst(s, p, "long");
  }

  lemma SuffixText0(t: Table, s: string, p: nat, suffix: Suffix)
    requires Sound(t) && Starts(s, p, SuffixText(suffix)) && !suffix.Nothing?
    ensures p + |SuffixText(suffix)| <= |s| && s[p] == (if suffix.Star? then '*' else '&')
    ensures s[p] !in t.spaces && s[p] !in t.words
    ensures suffix.DoubleAmpersand? ==> Starts(s, p, "&&")
  {
    StartsCharacter(s, p, SuffixText(suffix), 0);
    StartsCharacter(s, p, SuffixText(suffix), |SuffixText(suffix)| - 1);
  }

  lemma NoSuffix(t: Table, s: string, e: nat)
    requires Sound(t) && Ended(t, s, e)
    ensures var n := SkipSpace(t, s, e);
            !Starts(s, n, "&&") && (n < |s| ==> s[n] !in t.words && s[n] != '&' && s[n] != '*' && s[n] != '<')
  {
    StartsFirst(s, SkipSpace(t, s, e), "&&");
    hide Starts, SkipSpace;
  }

  lemma SomeSuffix(t: Table, s: string, p: nat, suffix: Suffix, e: nat)
    requires Sound(t) && Starts(s, p, SuffixText(suffix)) && !suffix.Nothing?
    requires e == p + |SuffixText(suffix)| && Ended(t, s, e)
    ensures p < e && s[p] == (if suffix.Star? then '*' else '&') && SkipSpace(t, s, p) == p
    ensures Starts(s, p, "&&") <==> suffix.DoubleAmpersand?
  {
    SuffixText0(t, s, p, suffix);
    SkipEnds(t, s, p);
    StartsSlice(s, p, "&&");
    if e < |s| { EndedNext(t, s, e); }
    hide Starts, SkipSpace, Ended;
  }

  /** The suffix behind white space, as the parser looks for it. */
  lemma SuffixFound(t: Table, s: string, i: nat, g: string, suffix: Suffix, e: nat)
    requires Sound(t) && Blank(t, g) && i <= |s| && Starts(s, i, g + SuffixText(suffix))
    requires e == i + |g| + |SuffixText(suffix)| && Ended(t, s, e)
    ensures var p := SkipSpace(t, s, i);
            && (suffix.Nothing? ==> p == SkipSpace(t, s, e)) && (!suffix.Nothing? ==> p + |SuffixText(suffix)| == e)
            && (Starts(s, p, "&&") <==> suffix.DoubleAmpersand?)
            && (p < |s| && s[p] == '&' <==> suffix.Ampersand? || suffix.DoubleAmpersand?)
            && (p < |s| && s[p] == '*' <==> suffix.Star?)
            && (p < |s| ==> s[p] !in t.words && s[p] != '<')
  {
    hide Starts, SkipSpace, Blank, Ended;
    StartsSplit(s, i, g, SuffixText(suffix));
    SkipsBlank(t, s, i, g);
    if suffix.Nothing? { NoSuffix(t, s, e); } else { SomeSuffix(t, s, i + |g|, suffix, e); }
  }

  lemma TailSkip(t: Table, s: string, i: nat, c: bool, id: Identifier, args: TypeList)
    requires i <= |s|
    ensures Tail(t, s, SkipSpace(t, s, i), c, id, args) == Tail(t, s, i, c, id, args)
  {
    SkipTwice(t, s, i);
  }

  /** What the tail of a form adds to the type, and where the parser stops. */
  ghost function TailMeaning(t: Table, s: string, f: Form, c: bool, args: TypeList, e: nat): Parsed
    requires e <= |s|
  {
    Success(TypeRef(f.id, args, c || f.constant.Some?,
                    ReferenceOf(f.suffix), f.suffix.Star?),
            if f.suffix.Nothing? then SkipSpace(t, s, e) else e)
  }

  lemma FormTail(t: Table, s: string, i: nat, f: Form, c: bool, args: TypeList, e: nat)
    requires Sound(t) && Spaced(t, f) && i <= |s| && Starts(s, i, TailText(f))
    requires e == i + |TailText(f)| && Ended(t, s, e)
    ensures Tail(t, s, i, c, f.id, args) == TailMeaning(t, s, f, c, args, e)
  {
    hide Starts, SkipSpace, Ended;
    if f.constant.None? {
      assert TailText(f) == f.gap + SuffixText(f.suffix);
      SuffixFound(t, s, i, f.gap, f.suffix, e);
      var p := SkipSpace(t, s, i);
      NoKeyword(t, s, p);
      SkipTwice(t, s, i);
    } else {
      var p, g := i + |f.gap|, f.constant.value;
      TrailingConst(t, s, i, f, e);
      SuffixFound(t, s, p + 5, g, f.suffix, e);
    }
  }

  lemma SpacedAfter(t: Table, f: Form)
    requires Spaced(t, f)
    ensures Blank(t, f.gap) && (f.constant.Some? ==> Blank(t, f.constant.value))
  {
  }

  lemma TrailingConst(t: Table, s: string, i: nat, f: Form, e: nat)
    requires Sound(t) && Spaced(t, f) && i <= |s| && Starts(s, i, TailText(f)) && f.constant.Some?
    requires e == i + |TailText(f)| && Ended(t, s, e)
    ensures var p := i + |f.gap|;
            SkipSpace(t, s, i) == p && p + 5 <= |s| && AfterWord(t, s, p, "const") == p + 5
            && Starts(s, p + 5, f.constant.value + SuffixText(f.suffix))
  {
    hide Starts, IsWord, WordEnd, Identify, Ended, SkipSpace, Spaced, Blank;
    Keywords(t);
    SpacedAfter(t, f);
    var p, g := i + |f.gap|, f.constant.value;
    assert TailText(f) == f.gap + ("const" + (g + SuffixText(f.suffix)));
    StartsSplit(s, i, f.gap, "const" + (g + SuffixText(f.suffix)));
    StartsSplit(s, p, "const", g + SuffixText(f.suffix));
    StartsWithin(s, i, f.gap);
    StartsWithin(s, p, "const");
    SkipsBlank(t, s, i, f.gap);
    ConstApart(t, s, p + 5, f, e);
    WordReads(t, s, p, "const");
    KeywordReads(t, s, p, "const", "const");
  }

  lemma ConstApart(t: Table, s: string, i: nat, f: Form, e: nat)
    requires Sound(t) && Spaced(t, f) && f.constant.Some? && i <= |s|
    requires Starts(s, i, f.constant.value + SuffixText(f.suffix))
    requires e == i + |f.constant.value| + |SuffixText(f.suffix)| && Ended(t, s, e)
    ensures i < |s| ==> s[i] !in t.words
  {
    var g := f.constant.value;
    hide Starts, Ended;
    StartsSplit(s, i, g, SuffixText(f.suffix));
    if g != "" {
      BlankNext(t, s, i, g);
    } else if !f.suffix.Nothing? {
      SuffixText0(t, s, i, f.suffix);
    } else if i < |s| {
      EndedNext(t, s, e);
    }
  }

  /** What stands behind a name without arguments. */
  lemma TailApart(t: Table, s: string, i: nat, f: Form, e: nat)
    requires Sound(t) && Spaced(t, f) && f.arguments.NoArguments? && i <= |s| && Starts(s, i, TailText(f))
    requires e == i + |TailText(f)| && Ended(t, s, e)
    ensures i < |s| ==> s[i] !in t.words
    ensures var p := SkipSpace(t, s, i); !StartsWord(t, s, p, "long") && (p < |s| ==> s[p] != '<')
  {
    hide Starts, SkipSpace, Ended;
    StartsSplit(s, i, f.gap, LeadText(f.constant) + SuffixText(f.suffix));
    if f.constant.None? {
      assert LeadText(f.constant) + SuffixText(f.suffix) == SuffixText(f.suffix);
      SuffixFound(t, s, i, f.gap, f.suffix, e);
      NoKeyword(t, s, SkipSpace(t, s, i));
      if f.gap != "" { BlankNext(t, s, i, f.gap); }
      else if !f.suffix.Nothing? { SuffixText0(t, s, i, f.suffix); }
      else if i < |s| { EndedNext(t, s, e); }
    } else {
      BlankNext(t, s, i, f.gap);
      TrailingConst(t, s, i, f, e);
      ConstNotLong(t, s, i + |f.gap|);
    }
  }

  lemma ConstNotLong(t: Table, s: string, p: nat)
    requires p + 5 <= |s| && AfterWord(t, s, p, "const") == p + 5
    ensures !StartsWord(t, s, p, "long") && s[p] != '<'
  {
    StartsCharacter(s, p, "const", 0);
    if StartsWord(t, s, p, "long") { StartsCharacter(s, p, "long", 0); }
  }

  // ----- whole types -----

  /** Where the parser stops: behind the suffix, or behind the white space where one might stand. */
  function Stop(t: Table, s: string, f: Form, e: nat): (r: nat)
    requires e <= |s|
    ensures e <= r <= |s|
  {
    if f.suffix.Nothing? then SkipSpace(t, s, e) else e
  }

  lemma RenderParts(s: string, i: nat, f: Form)
    requires i <= |s| && Starts(s, i, Render(f))
    ensures var p := i + |HeadText(f)|; var q := p + |ArgumentsText(f.arguments)|;
            && p <= q <= |s| && i + |Render(f)| == q + |TailText(f)| <= |s|
            && Starts(s, i, HeadText(f)) && Starts(s, p, ArgumentsText(f.arguments)) && Starts(s, q, TailText(f))
  {
    hide Starts, HeadText, ArgumentsText, TailText;
    var p := i + |HeadText(f)|;
    StartsWithin(s, i, Render(f));
    StartsSplit(s, i, HeadText(f), ArgumentsText(f.arguments) + TailText(f));
    StartsSplit(s, p, ArgumentsText(f.arguments), TailText(f));
  }

  /** Where the bracket and the list of arguments stand. */
  lemma AngledParts(t: Table, s: string, p: nat, space: string, list: FormList)
    requires Sound(t) && Blank(t, space) && p <= |s| && Starts(s, p, ArgumentsText(Angled(space, list)))
    ensures var b := p + |space|; var q := b + 1 + |ListText(list)|;
            && q < |s| && SkipSpace(t, s, p) == b && s[b] == '<' && Starts(s, b + 1, ListText(list)) && s[q] == '>'
            && p + |ArgumentsText(Angled(space, list))| == q + 1
  {
    hide Starts, Blank, ListText;
    assert ArgumentsText(Angled(space, list)) == space + ("<" + ListText(list) + ">");
    StartsSplit(s, p, space, "<" + ListText(list) + ">");
    StartsBracket(s, p + |space|, ListText(list));
    SkipsTo(t, s, p, space);
  }

  lemma BracketApart(t: Table, s: string, p: nat, space: string)
    requires Sound(t) && Blank(t, space) && Starts(s, p, space) && p + |space| < |s| && s[p + |space|] == '<'
    ensures p < |s| && s[p] !in t.words && !StartsWord(t, s, p + |space|, "long")
  {
    StartsFirst(s, p + |space|, "long");
    if space != "" { BlankNext(t, s, p, space); }
  }

  /** The name and its arguments, once those have been read. */
  lemma AngledReads(t: Table, s: string, i: nat, f: Form, depth: nat, e: nat)
    requires Sound(t) && Spaced(t, f) && depth < MAX_DEPTH && i <= |s| && Starts(s, i, Render(f))
    requires e == i + |Render(f)| && Ended(t, s, e) && f.arguments.Angled? && Blank(t, f.arguments.space)
    requires var b := i + |HeadText(f)| + |f.arguments.space|; var q := b + 1 + |ListText(f.arguments.list)|;
             b < |s| ==> ArgumentsAt(t, s, b + 1, depth) == Arguments(ListMeaning(f.arguments.list), q + 1)
    ensures TypeAt(t, s, i, depth) == Success(Meaning(f), Stop(t, s, f, e))
  {
    hide Starts, HeadText, ArgumentsText, TailText, ListText, ListMeaning, TypeAt, ArgumentsAt, AfterName, SkipSpace,
         Spaced, Blank,
         StartsWord, Head, Tail, Ended;
    RenderParts(s, i, f);
    var p := i + |HeadText(f)|;
    AngledParts(t, s, p, f.arguments.space, f.arguments.list);
    AngledStarts(s, p, f.arguments.space, f.arguments.list);
    BracketApart(t, s, p, f.arguments.space);
    var q := p + |ArgumentsText(f.arguments)|;
    FormHead(t, s, i, f, p);
    TypeByHead(t, s, i, depth);
    NameByAngle(t, s, p + |f.arguments.space|, depth, f.lead.Some?, f.id);
    FormTail(t, s, q, f, f.lead.Some?, ListMeaning(f.arguments.list), e);
  }

  lemma AngledStarts(s: string, p: nat, space: string, list: FormList)
    requires Starts(s, p, ArgumentsText(Angled(space, list)))
    ensures Starts(s, p, space)
  {
    StartsSplit(s, p, space, "<" + (ListText(list) + ">"));
  }

  lemma NameByAngle(t: Table, s: string, p: nat, depth: nat, c: bool, id: Identifier)
    requires p < |s| && s[p] == '<' && depth < MAX_DEPTH
    ensures AfterName(t, s, p, depth, c, id) == WithArguments(t, s, ArgumentsAt(t, s, p + 1, depth), c, id)
  {
  }

  lemma NameByEnd(t: Table, s: string, p: nat, depth: nat, c: bool, id: Identifier)
    requires p <= |s| && (p < |s| ==> s[p] != '<') && depth <= MAX_DEPTH
    ensures AfterName(t, s, p, depth, c, id) == Tail(t, s, p, c, id, End)
  {
  }

  /** A name without arguments. */
  lemma PlainReads(t: Table, s: string, i: nat, f: Form, depth: nat, e: nat)
    requires Sound(t) && Spaced(t, f) && depth <= MAX_DEPTH && i <= |s| && Starts(s, i, Render(f))
    requires e == i + |Render(f)| && Ended(t, s, e) && f.arguments.NoArguments?
    ensures TypeAt(t, s, i, depth) == Success(Meaning(f), Stop(t, s, f, e))
  {
    hide Starts, HeadText, TailText, TypeAt, AfterName, SkipSpace, Spaced, StartsWord, Head, Tail, Ended;
    RenderParts(s, i, f);
    var p := i + |HeadText(f)|;
    TailApart(t, s, p, f, e);
    FormHead(t, s, i, f, p);
    TypeByHead(t, s, i, depth);
    NameByEnd(t, s, SkipSpace(t, s, p), depth, f.lead.Some?, f.id);
    TailSkip(t, s, p, f.lead.Some?, f.id, End);
    FormTail(t, s, p, f, f.lead.Some?, End, e);
  }

  /** Wherever a form stands, the parser reads it as the type it declares. */
  lemma {:induction false} FormReads(t: Table, s: string, i: nat, f: Form, depth: nat, e: nat)
    requires Sound(t) && depth <= MAX_DEPTH && Allowed(t, f, MAX_DEPTH - depth)
    requires i <= |s| && Starts(s, i, Render(f)) && e == i + |Render(f)| && Ended(t, s, e)
    ensures TypeAt(t, s, i, depth) == Success(Meaning(f), Stop(t, s, f, e))
    decreases f, 1
  {
    hide Starts, HeadText, ArgumentsText, TailText, ListText, ListMeaning, TypeAt, ArgumentsAt, SkipSpace, Spaced,
         Blank, Render,
         Ended, Meaning, AllAllowed;
    if f.arguments.NoArguments? {
      PlainReads(t, s, i, f, depth, e);
    } else {
      RenderParts(s, i, f);
      var p := i + |HeadText(f)|;
      AngledParts(t, s, p, f.arguments.space, f.arguments.list);
      var b := p + |f.arguments.space|;
      ListReads(t, s, b + 1, f.arguments.list, depth, b + 1 + |ListText(f.arguments.list)|);
      AngledReads(t, s, i, f, depth, e);
    }
  }

  lemma {:induction false} ListReads(t: Table, s: string, i: nat, list: FormList, depth: nat, e: nat)
    requires Sound(t) && depth < MAX_DEPTH && AllAllowed(t, list, MAX_DEPTH - depth - 1)
    requires i <= |s| && Starts(s, i, ListText(list)) && e == i + |ListText(list)| && e < |s| && s[e] == '>'
    ensures ArgumentsAt(t, s, i, depth) == Arguments(ListMeaning(list), e + 1)
    decreases list, 0
  {
    hide Starts, TypeAt, ArgumentsAt, SkipSpace, Blank, Render, Ended, Meaning, Allowed;
    var f, after := list.form, list.after;
    var a := i + |Render(f)|;
    if list.Last? {
      assert ListText(list) == Render(f) + after;
      StartsSplit(s, i, Render(f), after);
      StartsWithin(s, i, Render(f));
      SkipsTo(t, s, a, after);
      DelimiterEnds(t, s, a, e);
      FormReads(t, s, i, f, depth + 1, a);
      SkipTwice(t, s, a);
      ArgumentStep(t, s, i, depth, Meaning(f), Stop(t, s, f, a), e);
    } else {
      var rest := ListText(list.rest);
      assert ListText(list) == Render(f) + (after + ("," + rest));
      StartsSplit(s, i, Render(f), after + ("," + rest));
      StartsWithin(s, i, Render(f));
      StartsComma(s, a, after, rest);
      var c := a + |after|;
      SkipsTo(t, s, a, after);
      DelimiterEnds(t, s, a, c);
      FormReads(t, s, i, f, depth + 1, a);
      ListReads(t, s, c + 1, list.rest, depth, e);
      SkipTwice(t, s, a);
      ArgumentStep(t, s, i, depth, Meaning(f), Stop(t, s, f, a), c);
    }
  }

  lemma DelimiterEnds(t: Table, s: string, a: nat, d: nat)
    requires Sound(t) && a <= d < |s| && SkipSpace(t, s, a) == d && (s[d] == ',' || s[d] == '>')
    ensures Ended(t, s, a)
  {
  }

  /** One argument and the delimiter behind it. */
  lemma ArgumentStep(t: Table, s: string, i: nat, depth: nat, ref: TypeRef, p: nat, d: nat)
    requires depth < MAX_DEPTH && i <= |s| && TypeAt(t, s, i, depth + 1) == Success(ref, p)
    requires 0 < p <= |s| && SkipSpace(t, s, p) == d < |s| && (s[d] == ',' || s[d] == '>')
    ensures ArgumentsAt(t, s, i, depth) ==
            Push(ref, if s[d] == '>' then Arguments(End, d + 1) else ArgumentsAt(t, s, d + 1, depth))
  {
    hide TypeAt;
    ArgumentsByFirst(t, s, i, depth);
  }

  // ----- whole strings -----

  lemma {:induction false} TrimsRight(t: Table, x: string, w: string)
    requires Blank(t, w) && x != "" && x[|x| - 1] !in t.spaces
    ensures TrimRight(t, x + w) == x
    decreases |w|
  {
    if w == "" {
      assert x + w == x;
    } else {
      var v := w[..|w| - 1];
      assert (x + w)[..|x + w| - 1] == x + v && (x + w)[|x + w| - 1] == w[|w| - 1];
      TrimsRight(t, x, v);
    }
  }

  lemma Trims(t: Table, w: string, x: string, v: string)
    requires Blank(t, w) && Blank(t, v) && x != "" && x[0] !in t.spaces && x[|x| - 1] !in t.spaces
    ensures TrimRight(t, TrimLeft(t, w + (x + v))) == x
  {
    var d := w + (x + v);
    StartsSlice(d, 0, w);
    assert d[0..|w|] == w && d[|w|] == x[0] && d[|w|..] == x + v;
    SkipsTo(t, d, 0, w);
    TrimsRight(t, x, v);
  }

  /** The form without the white space around it. */
  function Tight(f: Form): Form {
    var g := f.(before := "");
    if !f.suffix.Nothing? then g else if f.constant.Some? then g.(constant := Some("")) else g.(gap := "")
  }

  function Loose(f: Form): string {
    if !f.suffix.Nothing? then "" else if f.constant.Some? then f.constant.value else f.gap
  }

  lemma TightHead(f: Form)
    ensures HeadText(f) == f.before + HeadText(Tight(f))
  {
    hide NameText, PrefixText, LeadText;
  }

  lemma TightTail(f: Form)
    ensures TailText(f) == TailText(Tight(f)) + Loose(f)
  {
    if f.suffix.Nothing? { assert TailText(f) == if f.constant.Some? then f.gap + ("const" + f.constant.value)
                          else f.gap; }
  }

  lemma Regroup(b: string, h: string, a: string, c: string, l: string)
    ensures (b + h) + (a + (c + l)) == b + ((h + (a + c)) + l)
  {
  }

  lemma TightRenders(f: Form)
    ensures Render(f) == f.before + (Render(Tight(f)) + Loose(f))
  {
    hide ArgumentsText, HeadText, TailText, Loose;
    TightHead(f);
    TightTail(f);
    var g := Tight(f);
    assert g.arguments == f.arguments;
    Regroup(f.before, HeadText(g), ArgumentsText(f.arguments), TailText(g), Loose(f));
  }

  lemma TightAllowed(t: Table, f: Form, room: nat)
    requires Allowed(t, f, room)
    ensures Allowed(t, Tight(f), room) && Blank(t, f.before) && Blank(t, Loose(f)) && Meaning(Tight(f)) == Meaning(f)
  {
  }

  lemma NameEdges(t: Table, f: Form)
    requires Sound(t) && Spaced(t, f)
    ensures var x := NameText(f.id, f.inner); x != "" && x[0] in t.words && x[|x| - 1] in t.words
  {
  }

  lemma HeadEdges(t: Table, f: Form)
    requires Sound(t) && Spaced(t, f) && f.before == ""
    ensures var x := HeadText(f); x != "" && x[0] in t.words && x[|x| - 1] in t.words
  {
    NameEdges(t, f);
    hide NameText, Spaced;
  }

  /** What stands at the end of a form without white space there. */
  lemma TailEdge(t: Table, f: Form)
    requires Sound(t)
    ensures var x := TailText(Tight(f)); x != "" ==> x[|x| - 1] !in t.spaces
  {
    assert f.suffix.Nothing? && f.constant.Some? ==> TailText(Tight(f)) == f.gap + "const";
  }

  lemma TightEdges(t: Table, f: Form)
    requires Sound(t) && Spaced(t, Tight(f))
    ensures var x := Render(Tight(f)); x != "" && x[0] !in t.spaces && x[|x| - 1] !in t.spaces
  {
    HeadEdges(t, Tight(f));
    TailEdge(t, f);
    hide HeadText, TailText, Spaced, Tight;
    var g := Tight(f);
    assert g.arguments.Angled? ==> var y := ArgumentsText(g.arguments); y[|y| - 1] == '>';
  }

  lemma StandsAlone(t: Table, x: string)
    ensures Starts(x, 0, x) && SkipSpace(t, x, |x|) == |x| && Ended(t, x, |x|)
  {
    StartsSlice(x, 0, x);
    assert x[0..0 + |x|] == x;
    SkipEnds(t, x, |x|);
  }

  lemma TightReads(t: Table, f: Form)
    requires Sound(t) && Allowed(t, f, MAX_DEPTH)
    ensures TypeAt(t, Render(Tight(f)), 0, 0) == Success(Meaning(f), |Render(Tight(f))|)
  {
    hide Render, Meaning, Tight, TypeAt, Starts, Allowed, Ended, SkipSpace, Sound;
    TightAllowed(t, f, MAX_DEPTH);
    var x := Render(Tight(f));
    StandsAlone(t, x);
    FormReads(t, x, 0, Tight(f), 0, |x|);
  }

  lemma BlankBoth(t: Table, v: string, w: string)
    requires Blank(t, v) && Blank(t, w)
    ensures Blank(t, v + w)
  {
  }

  lemma TightTrims(t: Table, f: Form, after: string)
    requires Sound(t) && Allowed(t, f, MAX_DEPTH) && Blank(t, after)
    ensures var x := Render(Tight(f)); x != "" && TrimRight(t, TrimLeft(t, Render(f) + after)) == x
  {
    hide Render, Tight, Loose, TrimLeft, TrimRight, Meaning, Blank;
    TightAllowed(t, f, MAX_DEPTH);
    TightRenders(f);
    TightEdges(t, f);
    BlankBoth(t, Loose(f), after);
    var x := Render(Tight(f));
    assert Render(f) + after == f.before + (x + (Loose(f) + after));
    Trims(t, f.before, x, Loose(f) + after);
  }

  /** Whatever white space, `const`, `std::` and suffix a type is declared with, the parser gives the
      type that was meant. */
  lemma DeclaredParses(t: Table, f: Form, after: string)
    requires Sound(t) && Allowed(t, f, MAX_DEPTH) && Blank(t, after) && Utf8Length(Render(f) + after) <= MAX_LENGTH
    ensures var r := ParseSpec(t, Render(f) + after); r.Success? && r.ref == Meaning(f)
  {
    hide Render, Meaning, Tight, TrimLeft, TrimRight, TypeAt, Allowed, Utf8Length;
    TightReads(t, f);
    TightTrims(t, f, after);
    SkipEnds(t, Render(Tight(f)), |Render(Tight(f))|);
  }
}
