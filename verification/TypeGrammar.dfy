/** The parser accepts nothing but declared forms: every text it reads is one, and with `TypeForms`
    it accepts exactly these and gives the type they declare. */
module TypeGrammar {
  import opened Options
  import opened TypeRefs
  import opened TypeParser
  import opened TypeRoundTrip
  import opened TypeForms

  lemma Join(s: string, a: nat, b: nat, c: nat)
    requires a <= b <= c <= |s|
    ensures s[a..b] + s[b..c] == s[a..c]
  {
  }

  lemma {:induction false} SkippedBlank(t: Table, s: string, i: nat)
    requires i <= |s|
    ensures var n := SkipSpace(t, s, i); Blank(t, s[i..n]) && (n < |s| ==> s[n] !in t.spaces)
    decreases |s| - i
  {
    if i < |s| && s[i] in t.spaces {
      SkippedBlank(t, s, i + 1);
      assert s[i..SkipSpace(t, s, i)] == [s[i]] + s[i + 1..SkipSpace(t, s, i)];
    }
  }

  // ----- the head -----

  lemma NameFound(t: Table, s: string, i: nat)
    requires i <= |s| && PlainName(t, s, i).Named?
    ensures var r := PlainName(t, s, i); var b := SkipSpace(t, s, i);
            && Blank(t, s[i..b]) && b < r.pos <= |s| && s[b..r.pos] == Text(r.id) && s[b] in t.words
            && IsWord(t, Text(r.id)) && r.id == Identify(Text(r.id)) && (r.pos < |s| ==> s[r.pos] !in t.words)
  {
    SkippedBlank(t, s, i);
    WordEndLongest(t, s, SkipSpace(t, s, i));
    hide Blank, SkipSpace, WordEnd, Identify;
  }

  /** White space and a word at `i`, up to the end of that word. */
  ghost predicate WordAt(t: Table, s: string, i: nat, r: Name) {
    && i <= |s| && r.Named? && SkipSpace(t, s, i) < r.pos <= |s| && s[SkipSpace(t, s, i)] in t.words
    && IsWord(t, Text(r.id)) && r.id == Identify(Text(r.id)) && (r.pos < |s| ==> s[r.pos] !in t.words)
  }

  lemma FirstFound(t: Table, s: string, i: nat)
    requires i <= |s| && PlainName(t, s, i).Named?
    ensures var r := PlainName(t, s, i); var b := SkipSpace(t, s, i);
            WordAt(t, s, i, r) && s[i..r.pos] == s[i..b] + (PrefixText(None) + Text(r.id)) && Blank(t, s[i..b])
  {
    hide Blank, SkipSpace, PlainName, Identify, IsWord;
    NameFound(t, s, i);
    var r, b := PlainName(t, s, i), SkipSpace(t, s, i);
    Join(s, i, b, r.pos);
    assert PrefixText(None) + Text(r.id) == Text(r.id);
  }

  lemma StdFound(t: Table, s: string, a: nat) returns (x: string, y: string)
    requires a <= |s| && PlainName(t, s, a).Named? && PlainName(t, s, a).id.Std?
    requires StdName(t, s, PlainName(t, s, a)).Named?
    ensures var r := StdName(t, s, PlainName(t, s, a)); var b := SkipSpace(t, s, a);
            && b < r.pos <= |s| && s[a..r.pos] == s[a..b] + (PrefixText(Some((x, y))) + Text(r.id))
            && Blank(t, s[a..b]) && Blank(t, x) && Blank(t, y) && s[b] in t.words
            && IsWord(t, Text(r.id)) && r.id == Identify(Text(r.id)) && (r.pos < |s| ==> s[r.pos] !in t.words)
  {
    hide Blank, SkipSpace, PlainName, Identify, IsWord, Starts, PrefixText;
    NameFound(t, s, a);
    var b, p := SkipSpace(t, s, a), PlainName(t, s, a).pos;
    var colon := SkipSpace(t, s, p);
    ColonsFound(t, s, p);
    NameFound(t, s, colon + 2);
    var n := SkipSpace(t, s, colon + 2);
    x, y := s[p..colon], s[colon + 2..n];
    PrefixPieces(s, a, b, p, colon, n, PlainName(t, s, colon + 2).pos);
  }

  /** White space, an optional `std::` and a word, as the parser read them from `a` on. */
  lemma PrefixForm(t: Table, s: string, a: nat) returns (prefix: Option<(string, string)>)
    requires a <= |s| && StdName(t, s, PlainName(t, s, a)).Named?
    ensures var r := StdName(t, s, PlainName(t, s, a)); var w := s[a..SkipSpace(t, s, a)];
            WordAt(t, s, a, r) && s[a..r.pos] == w + (PrefixText(prefix) + Text(r.id)) && Blank(t, w)
            && (prefix.Some? ==> Blank(t, prefix.value.0) && Blank(t, prefix.value.1))
            && (prefix.None? ==> r == PlainName(t, s, a) && !r.id.Std?)
  {
    hide Blank, SkipSpace, PlainName, Identify, IsWord, PrefixText, Starts;
    if PlainName(t, s, a).id.Std? {
      var x, y := StdFound(t, s, a);
      prefix := Some((x, y));
    } else {
      FirstFound(t, s, a);
      prefix := None;
    }
  }

  lemma ColonsFound(t: Table, s: string, p: nat)
    requires p <= |s| && Starts(s, SkipSpace(t, s, p), "::")
    ensures var c := SkipSpace(t, s, p); c + 2 <= |s| && s[c..c + 2] == "::" && Blank(t, s[p..c])
  {
    StartsSlice(s, SkipSpace(t, s, p), "::");
    SkippedBlank(t, s, p);
  }

  lemma PrefixPieces(s: string, a: nat, b: nat, p: nat, colon: nat, n: nat, e: nat)
    requires a <= b <= p <= colon <= colon + 2 <= n <= e <= |s| && s[b..p] == "std" && s[colon..colon + 2] == "::"
    ensures s[a..e] == s[a..b] + (PrefixText(Some((s[p..colon], s[colon + 2..n]))) + s[n..e])
  {
    Join(s, a, b, e);
    Join(s, b, p, e);
    Join(s, p, colon, e);
    Join(s, colon, colon + 2, e);
    Join(s, colon + 2, n, e);
    var x, y, z := s[p..colon], s[colon + 2..n], s[n..e];
    assert PrefixText(Some((x, y))) + z == "std" + (x + ("::" + (y + z)));
  }

  /** The white space inside `long long`, and the end of the name. */
  lemma LongForm(t: Table, s: string, name: Name) returns (inner: string, e: nat)
    requires Sound(t) && name.Named? && name.pos <= |s| && IsName(t, name.id) && !name.id.LongLong?
    requires name.pos < |s| ==> s[name.pos] !in t.words
    ensures var r := LongName(t, s, name);
            && r.Named? && name.pos <= e <= r.pos <= |s| && SkipSpace(t, s, r.pos) == SkipSpace(t, s, e)
            && Blank(t, inner) && (r.id.LongLong? ==> inner != "" && name.id.Long?)
            && (!r.id.LongLong? ==> inner == "" && r.id == name.id)
            && NameText(r.id, inner) == Text(name.id) + s[name.pos..e] && (e < |s| ==> s[e] !in t.words)
  {
    var r := LongName(t, s, name);
    if r.id.LongLong? {
      SecondFound(t, s, name.pos);
      var next := SkipSpace(t, s, name.pos);
      inner, e := s[name.pos..next], next + 4;
      Join(s, name.pos, next, e);
    } else {
      inner, e := "", name.pos;
      SkipTwice(t, s, name.pos);
    }
  }

  lemma SecondFound(t: Table, s: string, p: nat)
    requires Sound(t) && p <= |s| && StartsWord(t, s, SkipSpace(t, s, p), "long") && (p < |s| ==> s[p] !in t.words)
    ensures var n := SkipSpace(t, s, p);
            p < n && n + 4 <= |s| && s[n..n + 4] == "long" && Blank(t, s[p..n]) &&
                (n + 4 < |s| ==> s[n + 4] !in t.words)
  {
    StartsFirst(s, SkipSpace(t, s, p), "long");
    StartsSlice(s, SkipSpace(t, s, p), "long");
    SkippedBlank(t, s, p);
    hide Starts, Blank, SkipSpace;
  }

  /** A word `const` would have been taken for the qualifier. */
  lemma ConstTaken(t: Table, s: string, p: nat)
    requires Sound(t) && p <= |s| && SkipSpace(t, s, p) == p && AfterWord(t, s, p, "const") == p &&
             PlainName(t, s, p).Named?
    ensures !PlainName(t, s, p).id.Const?
  {
    NameFound(t, s, p);
    hide Starts, SkipSpace, WordEnd, PlainName;
    var r := PlainName(t, s, p);
    if r.id.Const? { StartsSlice(s, p, "const"); }
  }

  lemma ConstFound(t: Table, s: string, p: nat)
    requires p <= |s| && AfterWord(t, s, p, "const") > p
    ensures p + 5 <= |s| && AfterWord(t, s, p, "const") == p + 5 && s[p..p + 5] == "const"
    ensures p + 5 < |s| ==> s[p + 5] !in t.words
  {
    StartsSlice(s, p, "const");
  }

  lemma HeadSpaced(t: Table, f: Form)
    requires f.gap == "" && f.constant.None? && Blank(t, f.before) && Blank(t, f.inner) && IsName(t, f.id)
    requires f.lead.Some? ==> Blank(t, f.lead.value) && f.lead.value != ""
    requires f.prefix.Some? ==> Blank(t, f.prefix.value.0) && Blank(t, f.prefix.value.1)
    requires if f.id.LongLong? then f.inner != "" else f.inner == ""
    requires (f.id.Const? ==> f.lead.Some? || f.prefix.Some?) && (f.id.Std? ==> f.prefix.Some?)
    ensures Spaced(t, f)
  {
  }

  /** The white space behind a leading `const`, or the word that stands there instead of it. */
  lemma LeadFound(t: Table, s: string, start: nat)
    requires Sound(t) && start <= |s| && SkipSpace(t, s, start) == start
    requires var after := AfterWord(t, s, start, "const"); WordAt(t, s, after, PlainName(t, s, after))
    ensures var after := AfterWord(t, s, start, "const");
            if after > start then
              after == start + 5 && s[start..after] == "const" && SkipSpace(t, s, after) > after
            else after == start && !PlainName(t, s, after).id.Const?
  {
    hide SkipSpace, PlainName, Starts, Identify, IsWord;
    if AfterWord(t, s, start, "const") > start { ConstFound(t, s, start); } else { ConstTaken(t, s, start); }
  }

  /** A form without arguments and tail for the head the parser has read. */
  lemma HeadForm(t: Table, s: string, i: nat) returns (f: Form, e: nat)
    requires Sound(t) && i <= |s| && Head(t, s, i).1.Named?
    ensures var (c, r) := Head(t, s, i);
            && i <= e <= r.pos <= |s| && HeadText(f) == s[i..e] && SkipSpace(t, s, r.pos) == SkipSpace(t, s, e)
            && f.lead.Some? == c && f.id == r.id && (e < |s| ==> s[e] !in t.words)
    ensures Spaced(t, f) && f.arguments.NoArguments? && f.constant.None?
  {
    hide Blank, SkipSpace, PlainName, StdName, LongName, AfterWord, Starts, Identify, IsWord, PrefixText, Spaced,
         HeadText, NameText;
    var start := SkipSpace(t, s, i);
    var after := AfterWord(t, s, start, "const");
    var name := StdName(t, s, PlainName(t, s, after));
    SkippedBlank(t, s, i);
    SkipTwice(t, s, i);
    var prefix := PrefixForm(t, s, after);
    PlainFound(t, s, after);
    LeadFound(t, s, start);
    var inner;
    inner, e := LongForm(t, s, name);
    var id := LongName(t, s, name).id;
    var w := s[after..SkipSpace(t, s, after)];
    f := Form(s[i..start], if after > start then Some(w) else None, prefix, id, inner, NoArguments, "", None, Nothing);
    HeadSpaced(t, f);
    HeadPieces(s, i, start, after, name.pos, e, f, w, Text(name.id));
  }

  lemma PlainFound(t: Table, s: string, i: nat)
    requires i <= |s| && PlainName(t, s, i).Named?
    ensures WordAt(t, s, i, PlainName(t, s, i))
  {
    FirstFound(t, s, i);
  }

  lemma HeadPieces(s: string, i: nat, start: nat, after: nat, n: nat, e: nat, f: Form, w: string, word: string)
    requires i <= start <= after <= n <= e <= |s| && f.before == s[i..start]
    requires s[after..n] == w + (PrefixText(f.prefix) + word)
    requires if f.lead.Some? then s[start..after] == "const" && f.lead.value == w else after == start && w == ""
    requires NameText(f.id, f.inner) == word + s[n..e]
    ensures HeadText(f) == s[i..e]
  {
    hide PrefixText, NameText;
    Join(s, i, start, e);
    Join(s, start, after, e);
    Join(s, after, n, e);
    var x, y := PrefixText(f.prefix), s[n..e];
    assert s[after..e] == w + (x + (word + y));
    assert s[start..e] == LeadText(f.lead) + (x + (word + y)) by {
      if f.lead.Some? { assert "const" + (w + (x + (word + y))) == ("const" + w) + (x + (word + y)); }
    }
  }

  // ----- the tail -----

  /** The suffix the parser finds at `p`. */
  lemma SuffixRead(s: string, p: nat) returns (suffix: Suffix)
    requires p <= |s|
    ensures p + |SuffixText(suffix)| <= |s| && s[p..p + |SuffixText(suffix)|] == SuffixText(suffix)
    ensures Starts(s, p, "&&") <==> suffix.DoubleAmpersand?
    ensures !Starts(s, p, "&&") && p < |s| && s[p] == '&' <==> suffix.Ampersand?
    ensures !Starts(s, p, "&&") && p < |s| && s[p] == '*' <==> suffix.Star?
  {
    StartsSlice(s, p, "&&");
    hide Starts;
    suffix := if p + 2 <= |s| && s[p..p + 2] == "&&" then DoubleAmpersand
              else if p < |s| && s[p] == '&' then Ampersand
              else if p < |s| && s[p] == '*' then Star else Nothing;
  }

  lemma TailStep(t: Table, s: string, i: nat, c: bool, id: Identifier, args: TypeList, suffix: Suffix)
    requires i <= |s|
    requires var p := SkipSpace(t, s, AfterWord(t, s, SkipSpace(t, s, i), "const"));
             && (Starts(s, p, "&&") <==> suffix.DoubleAmpersand?)
             && (!Starts(s, p, "&&") && p < |s| && s[p] == '&' <==> suffix.Ampersand?)
             && (!Starts(s, p, "&&") && p < |s| && s[p] == '*' <==> suffix.Star?)
    ensures var after := AfterWord(t, s, SkipSpace(t, s, i), "const");
            Tail(t, s, i, c, id, args) ==
            Success(TypeRef(id, args, c || after > SkipSpace(t, s, i), ReferenceOf(suffix), suffix.Star?),
                    SkipSpace(t, s, after) + |SuffixText(suffix)|)
  {
    hide Starts, SkipSpace, AfterWord;
  }

  lemma ConstWord(t: Table, s: string, start: nat)
    requires Sound(t) && start + 5 <= |s| && s[start..start + 5] == "const"
    ensures s[start] in t.words
  {
    assert s[start] == s[start..start + 5][0];
  }

  /** White space, a trailing `const` with white space, and a suffix, as the parser read them. */
  lemma TailForm(t: Table, s: string, i: nat, c: bool, id: Identifier, args: TypeList)
      returns (gap: string, constant: Option<string>, suffix: Suffix)
    requires Sound(t) && i <= |s|
    ensures var r := Tail(t, s, i, c, id, args);
            && s[i..r.pos] == gap + (LeadText(constant) + SuffixText(suffix)) && Blank(t, gap)
            && (constant.Some? ==> Blank(t, constant.value) && (gap == "" ==> i < |s| && s[i] in t.words))
            && r.ref == TypeRef(id, args, c || constant.Some?, ReferenceOf(suffix), suffix.Star?)
  {
    hide Blank, SkipSpace, AfterWord, Starts, SuffixText, LeadText, Tail, ReferenceOf, StartsWord, Sound;
    var start := SkipSpace(t, s, i);
    var after := AfterWord(t, s, start, "const");
    var p := SkipSpace(t, s, after);
    SkippedBlank(t, s, i);
    SkippedBlank(t, s, after);
    suffix := SuffixRead(s, p);
    TailStep(t, s, i, c, id, args, suffix);
    gap := s[i..start];
    Join(s, i, start, p + |SuffixText(suffix)|);
    if after > start {
      ConstFound(t, s, start);
      ConstPieces(t, s, start, after, p, suffix);
      constant := Some(s[after..p]);
    } else {
      SkipTwice(t, s, i);
      constant := None;
      NoConst(suffix);
    }
  }

  lemma NoConst(suffix: Suffix)
    ensures LeadText(None) + SuffixText(suffix) == SuffixText(suffix)
  {
  }

  lemma ConstPieces(t: Table, s: string, start: nat, after: nat, p: nat, suffix: Suffix)
    requires Sound(t) && after == start + 5 <= p && p + |SuffixText(suffix)| <= |s| && s[start..after] == "const"
    requires s[p..p + |SuffixText(suffix)|] == SuffixText(suffix)
    ensures s[start..p + |SuffixText(suffix)|] == LeadText(Some(s[after..p])) + SuffixText(suffix)
    ensures s[start] in t.words
  {
    hide SuffixText;
    ConstWord(t, s, start);
    var q := p + |SuffixText(suffix)|;
    Join(s, start, after, q);
    Join(s, after, p, q);
    assert s[start..q] == "const" + (s[after..p] + SuffixText(suffix));
  }

  // ----- types and lists -----

  /** The form put together from its head, its arguments and its tail. */
  function Whole(h: Form, arguments: ArgumentForms, gap: string, constant: Option<string>, suffix: Suffix): Form {
    h.(arguments := arguments, gap := gap, constant := constant, suffix := suffix)
  }

  lemma WholeSpaced(t: Table, h: Form, arguments: ArgumentForms, gap: string, constant: Option<string>, suffix: Suffix)
    requires Spaced(t, h) && Blank(t, gap)
    requires constant.Some? ==> Blank(t, constant.value) && (arguments.NoArguments? ==> gap != "")
    ensures var f := Whole(h, arguments, gap, constant, suffix); Spaced(t, f) && HeadText(f) == HeadText(h)
  {
  }

  lemma WholeRenders(s: string, i: nat, p: nat, q: nat, e: nat, f: Form)
    requires i <= p <= q <= e <= |s| && HeadText(f) == s[i..p] && ArgumentsText(f.arguments) == s[p..q] &&
             TailText(f) == s[q..e]
    ensures Render(f) == s[i..e]
  {
    hide HeadText, ArgumentsText, TailText;
    Join(s, i, p, e);
    Join(s, p, q, e);
  }

  /** Every text the parser reads is a declared form of the type it returns. */
  lemma {:induction false} TypeForm(t: Table, s: string, i: nat, depth: nat) returns (f: Form)
    requires Sound(t) && i <= |s| && TypeAt(t, s, i, depth).Success?
    ensures depth <= MAX_DEPTH && Allowed(t, f, MAX_DEPTH - depth)
    ensures var r := TypeAt(t, s, i, depth); Render(f) == s[i..r.pos] && Meaning(f) == r.ref
    decreases 2 * (MAX_DEPTH + 1 - depth), 1
  {
    hide TypeAt, AfterName, Head, Tail, SkipSpace, Spaced, Blank, HeadText, ArgumentsText, TailText, Render,
         ArgumentsAt, Meaning;
    DepthWithin(t, s, i, depth);
    TypeByHead(t, s, i, depth);
    var h, e := HeadForm(t, s, i);
    var p := SkipSpace(t, s, e);
    if p < |s| && s[p] == '<' {
      f := AngledForm(t, s, i, depth, h, e);
    } else {
      NameByEnd(t, s, p, depth, h.lead.Some?, h.id);
      TailSkip(t, s, e, h.lead.Some?, h.id, End);
      f := EndForm(t, s, i, h, e);
    }
  }

  lemma DepthWithin(t: Table, s: string, i: nat, depth: nat)
    requires i <= |s| && TypeAt(t, s, i, depth).Success?
    ensures depth <= MAX_DEPTH && Head(t, s, i).1.Named?
  {
    hide Head, AfterName;
  }

  lemma EndForm(t: Table, s: string, i: nat, h: Form, e: nat) returns (f: Form)
    requires Sound(t) && i <= e <= |s| && HeadText(h) == s[i..e] && Spaced(t, h) && (e < |s| ==> s[e] !in t.words)
    ensures var r := Tail(t, s, e, h.lead.Some?, h.id, End);
            Spaced(t, f) && f.arguments.NoArguments? && Render(f) == s[i..r.pos] && Meaning(f) == r.ref
  {
    hide Tail, Spaced, Blank, HeadText, Render;
    var gap, constant, suffix := TailForm(t, s, e, h.lead.Some?, h.id, End);
    f := Whole(h, NoArguments, gap, constant, suffix);
    WholeSpaced(t, h, NoArguments, gap, constant, suffix);
    WholeRenders(s, i, e, e, Tail(t, s, e, h.lead.Some?, h.id, End).pos, f);
  }

  /** A bracket behind the name opens the arguments. */
  lemma AngleFound(t: Table, s: string, p: nat, depth: nat, c: bool, id: Identifier)
    requires p < |s| && s[p] == '<' && depth <= MAX_DEPTH && AfterName(t, s, p, depth, c, id).Success?
    ensures depth < MAX_DEPTH && ArgumentsAt(t, s, p + 1, depth).Arguments?
    ensures var a := ArgumentsAt(t, s, p + 1, depth);
            a.args.More? && p + 1 < a.pos <= |s| && AfterName(t, s, p, depth, c, id) == Tail(t, s, a.pos, c, id, a.args)
  {
    hide ArgumentsAt, Tail;
  }

  lemma AngledForm(t: Table, s: string, i: nat, depth: nat, h: Form, e: nat) returns (f: Form)
    requires Sound(t) && i <= e <= |s| && HeadText(h) == s[i..e] && Spaced(t, h) && depth <= MAX_DEPTH
    requires var p := SkipSpace(t, s, e);
             p < |s| && s[p] == '<' && AfterName(t, s, p, depth, h.lead.Some?, h.id).Success?
    ensures Allowed(t, f, MAX_DEPTH - depth)
    ensures var r := AfterName(t, s, SkipSpace(t, s, e), depth, h.lead.Some?, h.id);
            Render(f) == s[i..r.pos] && Meaning(f) == r.ref
    decreases 2 * (MAX_DEPTH + 1 - depth), 0
  {
    hide AfterName, Tail, SkipSpace, Spaced, Blank, HeadText, ArgumentsAt, Render, ListText, ListMeaning, AllAllowed;
    var p := SkipSpace(t, s, e);
    AngleFound(t, s, p, depth, h.lead.Some?, h.id);
    var a := ArgumentsAt(t, s, p + 1, depth);
    var list := ListForm(t, s, p + 1, depth);
    var gap, constant, suffix := TailForm(t, s, a.pos, h.lead.Some?, h.id, a.args);
    SkippedBlank(t, s, e);
    f := Whole(h, Angled(s[e..p], list), gap, constant, suffix);
    WholeSpaced(t, h, Angled(s[e..p], list), gap, constant, suffix);
    BracketPieces(s, e, p, a.pos, list);
    WholeRenders(s, i, e, a.pos, Tail(t, s, a.pos, h.lead.Some?, h.id, a.args).pos, f);
  }

  lemma BracketPieces(s: string, e: nat, p: nat, q: nat, list: FormList)
    requires e <= p < q <= |s| && s[p] == '<' && ListText(list) + ">" == s[p + 1..q]
    ensures ArgumentsText(Angled(s[e..p], list)) == s[e..q]
  {
    hide ListText;
    Join(s, e, p, q);
    Join(s, p, p + 1, q);
    assert s[p..p + 1] == "<";
  }

  lemma {:induction false} ListForm(t: Table, s: string, i: nat, depth: nat) returns (list: FormList)
    requires Sound(t) && i <= |s| && depth < MAX_DEPTH && ArgumentsAt(t, s, i, depth).Arguments?
    ensures AllAllowed(t, list, MAX_DEPTH - depth - 1)
    ensures var a := ArgumentsAt(t, s, i, depth); ListMeaning(list) == a.args && ListText(list) + ">" == s[i..a.pos]
    decreases 2 * (MAX_DEPTH - depth) + 1, |s| - i
  {
    hide TypeAt, ArgumentsAt, SkipSpace, Blank, Render, Meaning, Allowed;
    ArgumentFound(t, s, i, depth);
    var first := TypeAt(t, s, i, depth + 1);
    var f := TypeForm(t, s, i, depth + 1);
    var d := SkipSpace(t, s, first.pos);
    SkippedBlank(t, s, first.pos);
    var after := s[first.pos..d];
    Join(s, i, first.pos, d);
    if s[d] == '>' {
      list := Last(f, after);
      Join(s, i, d, d + 1);
      assert s[d..d + 1] == ">";
    } else {
      var rest := ListForm(t, s, d + 1, depth);
      list := Next(f, after, rest);
      var q := ArgumentsAt(t, s, i, depth).pos;
      CommaPieces(s, i, first.pos, d, q, Render(f), after, ListText(rest));
    }
  }

  lemma CommaPieces(s: string, i: nat, p: nat, d: nat, q: nat, first: string, after: string, rest: string)
    requires i <= p <= d < q <= |s| && first == s[i..p] && after == s[p..d] && s[d] == ',' && rest + ">" == s[d + 1..q]
    ensures (first + (after + ("," + rest))) + ">" == s[i..q]
  {
    Join(s, i, p, q);
    Join(s, p, d, q);
    Join(s, d, d + 1, q);
    assert s[d..d + 1] == ",";
    assert (first + (after + ("," + rest))) + ">" == first + (after + ("," + (rest + ">")));
  }

  lemma ArgumentFound(t: Table, s: string, i: nat, depth: nat)
    requires i <= |s| && depth < MAX_DEPTH && ArgumentsAt(t, s, i, depth).Arguments?
    ensures var first := TypeAt(t, s, i, depth + 1);
            first.Success? && i < first.pos <= |s| &&
            var d := SkipSpace(t, s, first.pos);
            && d < |s| && (s[d] == '>' || s[d] == ',')
            && (s[d] == ',' ==> ArgumentsAt(t, s, d + 1, depth).Arguments?)
            && ArgumentsAt(t, s, i, depth) ==
               Push(first.ref, if s[d] == '>' then Arguments(End, d + 1) else ArgumentsAt(t, s, d + 1, depth))
  {
    hide TypeAt;
    ArgumentsByFirst(t, s, i, depth);
  }

  // ----- whole strings -----

  lemma {:induction false} TrimmedRight(t: Table, s: string) returns (v: string)
    ensures s == TrimRight(t, s) + v && Blank(t, v)
    decreases |s|
  {
    if s != "" && s[|s| - 1] in t.spaces {
      var u := TrimmedRight(t, s[..|s| - 1]);
      v := u + [s[|s| - 1]];
      assert s == s[..|s| - 1] + [s[|s| - 1]];
    } else {
      v := "";
    }
  }

  /** `declared` is the form `f` with white space behind it, within the limit on the length. */
  ghost predicate Declares(t: Table, f: Form, after: string, declared: string) {
    && Allowed(t, f, MAX_DEPTH) && Blank(t, after) && declared == Render(f) + after
    && Utf8Length(declared) <= MAX_LENGTH
  }

  lemma Widened(g: Form, w: string)
    ensures Render(g.(before := w + g.before)) == w + Render(g)
  {
    hide LeadText, PrefixText, NameText, ArgumentsText, TailText;
    var f := g.(before := w + g.before);
    assert HeadText(f) == w + HeadText(g) && TailText(f) == TailText(g) by { WidenedHead(g, w); }
    hide HeadText;
  }

  lemma WidenedHead(g: Form, w: string)
    ensures var f := g.(before := w + g.before); HeadText(f) == w + HeadText(g) && TailText(f) == TailText(g)
  {
  }

  lemma Surrounded(t: Table, g: Form, w: string, v: string, declared: string) returns (f: Form)
    requires Allowed(t, g, MAX_DEPTH) && Blank(t, w) && Blank(t, v) && declared == w + (Render(g) + v)
    requires Utf8Length(declared) <= MAX_LENGTH
    ensures Declares(t, f, v, declared) && Meaning(f) == Meaning(g)
  {
    f := g.(before := w + g.before);
    Widened(g, w);
    hide Render, Utf8Length;
  }

  lemma ParsedForm(t: Table, declared: string) returns (f: Form, after: string)
    requires Sound(t) && ParseSpec(t, declared).Success?
    ensures Declares(t, f, after, declared) && Meaning(f) == ParseSpec(t, declared).ref
  {
    hide TypeAt, SkipSpace, Blank, Render, Meaning, Allowed, Utf8Length;
    var x := TrimRight(t, TrimLeft(t, declared));
    var n := SkipSpace(t, declared, 0);
    SkippedBlank(t, declared, 0);
    var v := TrimmedRight(t, TrimLeft(t, declared));
    var g := TypeForm(t, x, 0, 0);
    var r := TypeAt(t, x, 0, 0);
    SkippedBlank(t, x, r.pos);
    after := x[r.pos..] + v;
    assert x[r.pos..|x|] == x[r.pos..];
    BlankBoth(t, x[r.pos..], v);
    Join(x, 0, r.pos, |x|);
    assert declared == declared[0..n] + (x + v);
    assert x[0..|x|] == x;
    assert x + v == Render(g) + after;
    f := Surrounded(t, g, declared[0..n], after, declared);
  }

  /** The parser accepts exactly the declared forms within its limits, and returns the type declared. */
  lemma ParsesExactly(t: Table, declared: string)
    requires Sound(t)
    ensures ParseSpec(t, declared).Success? <==> exists f, after :: Declares(t, f, after, declared)
    ensures forall f, after :: Declares(t, f, after, declared) ==> ParseSpec(t, declared).ref == Meaning(f)
  {
    hide ParseSpec, Allowed, Blank, Render, Meaning, Utf8Length;
    if ParseSpec(t, declared).Success? {
      var f, after := ParsedForm(t, declared);
    }
    forall f, after | Declares(t, f, after, declared)
      ensures ParseSpec(t, declared).Success? && ParseSpec(t, declared).ref == Meaning(f)
    {
      DeclaredParses(t, f, after);
    }
  }

  /** Normalising any declared form of a type prints the type; any other text is left as it is. */
  lemma NormalizesExactly(t: Table, declared: string)
    requires Sound(t)
    ensures forall f, after :: Declares(t, f, after, declared) ==> NormalizeSpec(t, declared) == ValueName(Meaning(f))
    ensures !(exists f, after :: Declares(t, f, after, declared)) ==> NormalizeSpec(t, declared) == declared
  {
    hide ParseSpec, Declares, Meaning, ValueName;
    ParsesExactly(t, declared);
  }

  // ----- every type can be declared -----

  /** No type is both a pointer and a reference. */
  predicate Single(r: TypeRef)
    decreases r
  {
    (r.pointer ==> r.reference.NoReference?) && AllSingle(r.arguments)
  }

  predicate AllSingle(args: TypeList)
    decreases args
  {
    args.More? ==> Single(args.first) && AllSingle(args.rest)
  }

  /** The plainest form of a type. */
  function Plain(r: TypeRef): Form
    decreases r, 0
  {
    Form("", if r.isConst then Some(" ") else None, if Reserved(r.name) then Some(("", "")) else None, r.name,
         if r.name.LongLong? then " " else "", PlainArguments(r.arguments), "", None,
         match r.reference
         case LValueReference => Ampersand
         case RValueReference => DoubleAmpersand
         case NoReference => if r.pointer then Star else Nothing)
  }

  function PlainArguments(args: TypeList): ArgumentForms
    decreases args, 1
  {
    if args.End? then NoArguments else Angled("", PlainList(args))
  }

  function PlainList(args: TypeList): FormList
    requires args.More?
    decreases args, 0
  {
    if args.rest.End? then Last(Plain(args.first), "") else Next(Plain(args.first), "", PlainList(args.rest))
  }

  lemma {:induction false} PlainAllowed(t: Table, r: TypeRef, room: nat)
    requires Sound(t) && Shaped(t, r, room) && Single(r)
    ensures Allowed(t, Plain(r), room) && Meaning(Plain(r)) == r
    decreases r, 0
  {
    if r.arguments.More? { PlainListAllowed(t, r.arguments, room - 1); }
  }

  lemma {:induction false} PlainListAllowed(t: Table, args: TypeList, room: nat)
    requires Sound(t) && args.More? && AllShaped(t, args, room) && AllSingle(args)
    ensures AllAllowed(t, PlainList(args), room) && ListMeaning(PlainList(args)) == args
    decreases args, 0
  {
    PlainAllowed(t, args.first, room);
    if args.rest.More? { PlainListAllowed(t, args.rest, room); }
  }

  /** Every type of words within the depth limit, qualifiers and all, is read back from its plainest form. */
  lemma QualifiedRoundTrip(t: Table, r: TypeRef)
    requires Sound(t) && Shaped(t, r, MAX_DEPTH) && Single(r) && Utf8Length(Render(Plain(r))) <= MAX_LENGTH
    ensures var p := ParseSpec(t, Render(Plain(r))); p.Success? && p.ref == r
  {
    PlainAllowed(t, r, MAX_DEPTH);
    hide ParseSpec, Plain, Allowed, Render, Meaning, Utf8Length;
    assert Render(Plain(r)) + "" == Render(Plain(r));
    DeclaredParses(t, Plain(r), "");
  }

  /** The parser returns no other types. */
  lemma {:induction false} MeaningSingle(f: Form)
    ensures Single(Meaning(f))
    decreases f, 0
  {
    if f.arguments.Angled? { MeaningsSingle(f.arguments.list); }
  }

  lemma {:induction false} MeaningsSingle(list: FormList)
    ensures AllSingle(ListMeaning(list))
    decreases list, 0
  {
    MeaningSingle(list.form);
    if list.Next? { MeaningsSingle(list.rest); }
  }

  lemma {:induction false} Utf8Within(s: string)
    ensures |s| <= Utf8Length(s) <= 4 * |s|
  {
    if s != "" { Utf8Within(s[1..]); }
  }

  lemma ShortDeclared(t: Table, f: Form, text: string)
    requires Sound(t) && Allowed(t, f, MAX_DEPTH) && Render(f) == text && |text| <= 1000
    ensures NormalizeSpec(t, text) == ValueName(Meaning(f))
  {
    hide Allowed, Render, Meaning, ParseSpec, ValueName, Utf8Length;
    Utf8Within(text);
    assert Render(f) + "" == text;
    DeclaredParses(t, f, "");
  }

  lemma ShortParses(t: Table, f: Form, text: string)
    requires Sound(t) && Allowed(t, f, MAX_DEPTH) && Render(f) == text && |text| <= 1000
    ensures var r := ParseSpec(t, text); r.Success? && r.ref == Meaning(f)
  {
    hide Allowed, Render, Meaning, ParseSpec, Utf8Length;
    Utf8Within(text);
    assert Render(f) + "" == text;
    DeclaredParses(t, f, "");
  }

  /** A word with at most one qualifier on either side. */
  function Simple(n: string, lead: Option<string>, gap: string, constant: Option<string>, suffix: Suffix): Form {
    Form("", lead, None, Identify(n), "", NoArguments, gap, constant, suffix)
  }

  lemma SimpleParses(t: Table, n: string, lead: Option<string>, gap: string, constant: Option<string>, suffix: Suffix)
    requires Sound(t) && IsWord(t, n) && n != "const" && n != "std" && |n| <= 900
    requires lead.None? || lead == Some(" ")
    requires if constant.None? then gap == "" else gap == " " && constant == Some("")
    ensures var r := ParseSpec(t, LeadText(lead) + n + gap + LeadText(constant) + SuffixText(suffix));
            r.Success? && r.ref == TypeRef(Identify(n), End, lead.Some? || constant.Some?, ReferenceOf(suffix),
                                           suffix.Star?)
  {
    hide ParseSpec, IsWord;
    var f := Simple(n, lead, gap, constant, suffix);
    assert Render(f) == LeadText(lead) + n + gap + LeadText(constant) + SuffixText(suffix);
    ShortParses(t, f, Render(f));
  }

  /** What each qualifier means, on every name. */
  lemma Qualifiers(t: Table, n: string)
    requires Sound(t) && IsWord(t, n) && n != "const" && n != "std" && |n| <= 900
    ensures var name := Identify(n);
            && Returns(t, n, TypeRef(name, End, false, NoReference, false))
            && Returns(t, n + "&", TypeRef(name, End, false, LValueReference, false))
            && Returns(t, n + "&&", TypeRef(name, End, false, RValueReference, false))
            && Returns(t, n + "*", TypeRef(name, End, false, NoReference, true))
            && Returns(t, "const " + n, TypeRef(name, End, true, NoReference, false))
            && Returns(t, n + " const", TypeRef(name, End, true, NoReference, false))
  {
    hide ParseSpec, IsWord, Identify, Sound;
    SimpleParses(t, n, None, "", None, Nothing);
    SimpleParses(t, n, None, "", None, Ampersand);
    SimpleParses(t, n, None, "", None, DoubleAmpersand);
    SimpleParses(t, n, None, "", None, Star);
    SimpleParses(t, n, Some(" "), "", None, Nothing);
    SimpleParses(t, n, None, " ", Some(""), Nothing);
    assert "" + n + "" + "" + "" == n;
    assert "" + n + "" + "" + "&" == n + "&" && "" + n + "" + "" + "&&" == n + "&&" &&
           "" + n + "" + "" + "*" == n + "*";
    assert "const" + " " + n + "" + "" + "" == "const " + n && "" + n + " " + ("const" + "") + "" == n + " const";
  }

  predicate Returns(t: Table, text: string, ref: TypeRef) {
    ParseSpec(t, text).Success? && ParseSpec(t, text).ref == ref
  }

  function Int(before: string): Form { Form(before, None, None, Other("int"), "", NoArguments, "", None, Nothing) }

  lemma IntRenders(t: Table, before: string)
    requires Sound(t) && IsWord(t, "int") && Blank(t, before)
    ensures Render(Int(before)) == before + "int" && Allowed(t, Int(before), 0) &&
            ValueName(Meaning(Int(before))) == "int"
    ensures Meaning(Int(before)) == TypeRef(Other("int"), End, false, NoReference, false)
  {
  }

  /** The parameter type of the documentation. */
  lemma VectorReference(t: Table)
    requires Sound(t) && IsWord(t, "vector") && IsWord(t, "int")
    ensures NormalizeSpec(t, "vector<int>&") == "vector<int>"
  {
    hide IsWord, NormalizeSpec, Allowed, Sound, Utf8Length;
    IntRenders(t, "");
    var f := Form("", None, None, Other("vector"), "", Angled("", Last(Int(""), "")), "", None, Ampersand);
    VectorAllowed(t, f);
    assert Render(f) == "vector<int>&" by { assert ListText(Last(Int(""), "")) == "int"; }
    assert ValueName(Meaning(f)) == "vector<int>" by { assert ValueNames(More(Meaning(Int("")), End)) == "int"; }
    ShortDeclared(t, f, "vector<int>&");
  }

  lemma VectorAllowed(t: Table, f: Form)
    requires Sound(t) && IsWord(t, "vector") && IsWord(t, "int")
    requires f == Form("", None, None, Other("vector"), "", Angled("", Last(Int(""), "")), "", None, Ampersand)
    ensures Allowed(t, f, MAX_DEPTH)
  {
    assert Allowed(t, Int(""), MAX_DEPTH - 1);
  }
}
