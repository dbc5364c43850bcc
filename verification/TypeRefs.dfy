/** Parsed C++ types and their printed names. */
module TypeRefs {

  datatype Reference = NoReference | LValueReference | RValueReference

  datatype TypeRef = TypeRef(name: Identifier, arguments: TypeList, isConst: bool, reference: Reference, pointer: bool)

  /** A type name; the words the parser treats specially have their own constructors. */
  datatype Identifier = Const | Std | Long | LongLong | Other(text: string)

  function Text(id: Identifier): string {
    match id
    case Const => "const"
    case Std => "std"
    case Long => "long"
    case LongLong => "long long"
    case Other(text) => text
  }

  /** The identifier a scanned word stands for. */
  function Identify(word: string): (id: Identifier)
    ensures Text(id) == word && !id.LongLong?
    ensures word == "const" <==> id.Const?
  {
    if word == "const" then Const
    else if word == "std" then Std
    else if word == "long" then Long
    else Other(word)
  }

  /** Template arguments in order. */
  datatype TypeList = End | More(first: TypeRef, rest: TypeList)

  function Concat(a: TypeList, b: TypeList): TypeList {
    match a
    case End => b
    case More(x, rest) => More(x, Concat(rest, b))
  }

  lemma {:induction false} ConcatAssociative(a: TypeList, b: TypeList, c: TypeList)
    ensures Concat(a, Concat(b, c)) == Concat(Concat(a, b), c)
    decreases a
  {
    if a.More? { ConcatAssociative(a.rest, b, c); }
  }

  /** The Unicode tables the parser consults: letters, digits and `_`, and white space. */
  datatype Table = Table(words: set<char>, spaces: set<char>)

  /** What any such table satisfies: the classes are apart, and ASCII is where it should be. */
  predicate Sound(t: Table) {
    && t.words !! t.spaces
    && 'c' in t.words && 'd' in t.words && 'g' in t.words && 'l' in t.words
    && 'n' in t.words && 'o' in t.words && 's' in t.words && 't' in t.words
    && ' ' in t.spaces
    && '<' !in t.words && '>' !in t.words && ',' !in t.words && '*' !in t.words && ':' !in t.words && '&' !in t.words
    && '<' !in t.spaces && '>' !in t.spaces && ',' !in t.spaces && '*' !in t.spaces && ':' !in t.spaces &&
        '&' !in t.spaces
  }

  const MAX_LENGTH := 4096
  const MAX_DEPTH := 64

  predicate IsWord(t: Table, w: string) {
    w != "" && forall i :: 0 <= i < |w| ==> w[i] in t.words
  }

  predicate Reserved(id: Identifier) { id.Const? || id.Std? }

  /** The names the parser can produce: one word, or `long long`. */
  predicate IsName(t: Table, id: Identifier) {
    id.LongLong? || (IsWord(t, Text(id)) && Identify(Text(id)) == id)
  }

  /** Trees of such names, nested at most `room` levels deep. */
  predicate Shaped(t: Table, r: TypeRef, room: nat)
    decreases r
  {
    IsName(t, r.name) && (r.arguments.End? || (room > 0 && AllShaped(t, r.arguments, room - 1)))
  }

  predicate AllShaped(t: Table, args: TypeList, room: nat)
    decreases args
  {
    match args
    case End => true
    case More(a, rest) => Shaped(t, a, room) && AllShaped(t, rest, room)
  }

  predicate Clean(r: TypeRef)
    decreases r
  {
    !Reserved(r.name) && AllClean(r.arguments)
  }

  predicate AllClean(args: TypeList)
    decreases args
  {
    match args
    case End => true
    case More(a, rest) => Clean(a) && AllClean(rest)
  }

  /** The tree without const and reference qualifiers; pointers stay. */
  function Erase(r: TypeRef): TypeRef
    decreases r
  {
    TypeRef(r.name, EraseAll(r.arguments), false, NoReference, r.pointer)
  }

  function EraseAll(args: TypeList): TypeList
    decreases args
  {
    match args
    case End => End
    case More(a, rest) => More(Erase(a), EraseAll(rest))
  }

  /** ValueName and CanonicalName of the source. */
  function ValueName(r: TypeRef): string
    decreases r
  {
    Text(r.name)
    + (if r.arguments.End? then "" else "<" + ValueNames(r.arguments) + ">")
    + (if r.pointer then "*" else "")
  }

  function ValueNames(args: TypeList): string
    requires args.More?
    decreases args
  {
    ValueName(args.first) + (if args.rest.End? then "" else "," + ValueNames(args.rest))
  }

  lemma {:induction false} ErasePrintsAlike(r: TypeRef)
    ensures ValueName(Erase(r)) == ValueName(r)
    decreases r
  {
    if r.arguments.More? { EraseAllPrintsAlike(r.arguments); }
  }

  lemma {:induction false} EraseAllPrintsAlike(args: TypeList)
    requires args.More?
    ensures ValueNames(EraseAll(args)) == ValueNames(args)
    decreases args
  {
    ErasePrintsAlike(args.first);
    if args.rest.More? { EraseAllPrintsAlike(args.rest); }
  }
}
