# YexJudge: a verified model

YexJudge is an online judge. A server admits submissions into a PostgreSQL table that serves as a
lease-fenced queue; workers claim them, compile them, borrow a reusable sandbox and run the test
cases in a supervised batch. For function problems a harness generates a driver program from a
declared C++ type and JSON metadata, and the judge compares the text the driver prints with the
canonical text of the expectation.

This project models the logic of these parts and proves what they promise each other. Nothing here
runs the original program. `dafny verify dfyconfig.toml` checks everything.

| files | part |
|---|---|
| `Options`, `Sets`, `Text`, `Strings` | comma-joined canonical text and when it is unambiguous; C++ and JSON string escapes |
| `Traversal`, `Graphs`, `Numbering`, `GraphJson`, `GraphRuntime` | breadth-first numbering and what fixes it, canonical graphs, the Go canonicaliser, the C++ and Python graph code on the heap |
| `Trees`, `TreeRuntime`, `TreeJudge`, `TreeShapes` | level-order trees, the builders and serializers on the heap, build-then-serialize, returned trees on any heap |
| `ListRuntime`, `RandomLists`, `Sharing` | lists, random-pointer lists, the `disjoint` postcondition |
| `CppTypes`, `Values`, `Accepted`, `Observations`, `Unordered` | types and overload lookup, type-directed literals and canonical text, what each type accepts and prints, observation documents, unordered comparison |
| `Returned`, `Rereading`, `TypedJudge` | returned pointers as typed values, reading printed text again, and the comparison of whole documents and unordered arrays of typed values |
| `TypeRefs`, `TypeParser`, `TypeRoundTrip`, `TypeForms`, `TypeGrammar` | the C++ type parser, its printer, their round trip, and the declared forms that the parser accepts |
| `Submissions`, `Leases`, `Admission` | the table with one method per SQL statement, the lease protocol over whole runs, queue admission |
| `Pool`, `Capacity` | the sandbox pool as interleaved steps, the compile workers, the memory budget |
| `Verdict`, `Workspace` | supervisor loop, result decoder and verdict loop; workspace restoration between cases |

How code became Dafny. Code that changes state step by step is imperative here: heap nodes are
classes, the parser is a cursor object, the table, the admission store, the pool and the file system
are objects whose methods each equal one step of a transition function. Concurrency is interleaving
of such steps, and theorems quantify over all runs. Foreign calls (executor, file contents, clocks,
contestant code) are parameters with any outcome. Clock readings of SQL statements are arbitrary
integers; only the theorems about live leases relate them.

Some properties one would expect fail of the code; each has its exact condition:

- A level-order array is reproduced by the C++ build-and-serialize pair exactly when it is well
  formed and no value stands past position 200000 (`TreeJudge.BuildThenSerialize`); the Python
  builder refuses exactly the arrays that are not well formed
  (`TreeJudge.PythonBuildThenSerialize`).
- The C++ text of a returned tree is its level order exactly when no value stands past that position
  (`TreeShapes.CppPrintsEncoding`). On any heap, with sharing and cycles, the comparison is right about
  every expectation exactly when the root is that of an unshared tree within the limit
  (`TreeShapes.TreeVerdictExact`): C++ prints a shared node's second place without children, so every
  other root prints the text of some tree that it does not show (`TreeShapes.PrintsWellFormed`,
  `TreeShapes.SharedLooksLikeTree`). The Python serializer refuses everything but trees
  (`TreeShapes.PythonAcceptsTrees`), and the two drivers print alike exactly for trees within the limit
  (`TreeShapes.DriversAgree`).
- The documented type `optional<vector<int>>` cannot be printed by the C++ driver: the template for
  optionals comes before those for vectors, and argument-dependent lookup finds the later ones only
  for types that mention a runtime pointer. A type can be printed exactly when no optional in it
  directly wraps a vector without runtime pointers (`CppTypes.ResolvesExactly`,
  `CppTypes.OptionalVector`); the theorems on typed values carry that condition.
- The printed name of a parsed type parses again exactly when no name in it is `const` or `std`
  (`TypeRoundTrip.RoundTrip`).
- The C++ text of a cyclic list equals that of a finite one (`ListRuntime.CycleLooksFinite`);
  equality of texts means equality of the walks (`ListRuntime.ListVerdict`), and it is right about
  every expectation exactly for the lists that end (`ListRuntime.ListVerdictExact`).
- A C++ random pointer that leaves its list prints like null (`RandomLists.OutsideLooksNull`); the
  comparison is right about every expectation exactly for the lists that end and whose random pointers
  stay inside (`RandomLists.RandomVerdictExact`).
- A C++ null neighbour prints as node 0, so a graph is compared with such pointers read as edges to
  the root (`GraphRuntime.GraphVerdictExact`); the comparison is right about every expectation exactly
  when no null neighbour is reachable (`GraphRuntime.GraphVerdictSound`).
- The queue keeps its limit in every reachable state if and only if the configuration allows a single
  attempt (`Admission.LimitHoldsExactly`). Otherwise it exceeds the limit by at most the number of
  requeues (`Admission.AdmissionBound`), and for every number of requeues by that many
  (`Admission.BoundIsReached`).
- `Close` of the sandbox pool may leave a live sandbox behind. `Close` waits for the registered
  replacements before it takes the mutex, so a goroutine that holds the mutex between the check that
  the pool is open and the registration of a replacement is not waited for. When the wait returns, a
  leak is possible from there if and only if some goroutine stands at that point
  (`Pool.CloseLeaksExactly`); if none ever does, nothing leaks (`Pool.NoLeakAfterClose`). Such a
  moment is reachable (`Pool.LeakIsReached`).
- JSON null is accepted where it need not be: it canonicalises to `false`, `""` and `[]` for bool,
  string and vector types (`Accepted.NullAccepted`).

## Model

| member | source | states |
|---|---|---|
| Text.JoinInjective | internal/judge/harness/cpp/types/vector.go:67 | comma-joined lists of self-delimiting texts are equal only if the lists are equal |
| Text.ArrayInjective | internal/judge/harness/cpp/types/vector.go:53-68 | arrays, and objects, of self-delimiting texts have equal text exactly when their elements are equal |
| Text.EnclosedToken | internal/judge/harness/cpp/types/vector.go:53-68 | an array or object of self-delimiting texts is self-delimiting, so nesting keeps the property |
| Text.Int10Injective | internal/judge/harness/cpp/types/scalar.go:56-68 | decimal texts of integers are equal exactly when the integers are |
| Text.ItemsInjective | internal/judge/harness/cpp/types/runtime.go:512-524 | arrays of integers and nulls have equal text exactly when they are equal |
| Strings.LiteralRoundTrip | internal/judge/harness/cpp/types/scalar.go:121-154 | a compiler that reads the generated literal with maximal octal escapes gets back the same bytes, for every byte string |
| Strings.StringLiteral | internal/judge/harness/cpp/types/scalar.go:121-154 | the byte loop produces that escape, it reads back, and the length argument is the byte count |
| Strings.QuoteExact | internal/judge/harness/cpp/types/scalar.go:156-169 | JSON-quoted ASCII strings are self-delimiting and equal exactly when the strings are |
| Strings.QuoteReads | internal/judge/harness/cpp/types/scalar.go:156-169 | a reader of JSON strings (section 7 of RFC 8259) gets every ASCII string back from its quotation |
| Strings.AppendEscaped | internal/judge/harness/cpp/serializer.go:6-20 | each branch of the C++ escaping loop appends the JSON escape of the character |
| Strings.EscapeJsonString | internal/judge/harness/cpp/serializer.go:4-23 | the C++ string serializer prints the canonicaliser's JSON encoding |
| Traversal.BfsExact | internal/judge/harness/cpp/types/runtime.go:440-452 | breadth-first numbering lists exactly the nodes reachable from the root, and is closed under successors |
| Traversal.BfsRenamed | internal/judge/harness/cpp/types/runtime.go:440-452 | renaming nodes by an embedding renames the breadth-first order position by position |
| Traversal.PopOrderIsDiscoveryOrder | internal/judge/harness/cpp/types/runtime.go:706-722 | numbering nodes when they leave the queue gives the same order as numbering them when discovered |
| Graphs.OrderPermutation | internal/judge/harness/cpp/types/runtime.go:370-390 | for an accepted graph the order holds every node exactly once |
| Graphs.EmbeddingSameCanon | internal/judge/harness/cpp/types/runtime.go:428-467 | graphs related by a root-fixing, value- and order-preserving map have the same canonical document |
| Graphs.SameCanonIsomorphic | internal/judge/harness/cpp/types/runtime.go:428-467 | equal canonical documents come from isomorphic graphs |
| Graphs.CanonIsCanonical | internal/judge/harness/cpp/types/runtime.go:428-467 | a canonical document is valid, fully reachable and its own canonical document |
| Numbering.CanonNumbered | internal/judge/harness/cpp/types/runtime.go:440-452 | the canonical document writes the nodes down root first, and read row by row its numbers come up in order |
| Numbering.NumberedMeans | internal/judge/harness/cpp/types/runtime.go:440-452 | numbers come up in order exactly when no row is read before its number has come up and every entry is at most one more than the largest of 0 and all earlier entries |
| Numbering.NumberedIsCanon | internal/judge/harness/cpp/types/runtime.go:440-452 | a document that writes down the reachable nodes and is numbered in order is the canonical one |
| Numbering.NumberedUnique | internal/judge/harness/cpp/types/runtime.go:428-467 | a document numbered in order and isomorphic to a graph, root to root, is its canonical document |
| GraphJson.CheckShape | internal/judge/harness/cpp/types/runtime.go:354-369 | length, value and neighbour checks with their errors, in order; passes exactly documents of equal lengths with 32-bit values and indices in range |
| GraphJson.MarkReachable | internal/judge/harness/cpp/types/runtime.go:370-384 | the depth-first marking marks exactly the nodes reachable from node 0 |
| GraphJson.ParseGraph | internal/judge/harness/cpp/types/runtime.go:331-392 | accepts exactly the admissible documents in which every node is reachable from node 0 |
| GraphJson.PrintInjective | internal/judge/harness/cpp/types/runtime.go:466 | documents print alike exactly when they are equal (or both empty), and the text is self-delimiting |
| GraphJson.CanonicalGraph | internal/judge/harness/cpp/types/runtime.go:428-467 | accepts exactly the valid graphs, and prints a document that lists each node once with its value and its neighbours in their order, numbered in order: the first new neighbour gets the next number |
| GraphJson.DiscoveryOrder | internal/judge/harness/cpp/types/runtime.go:440-452 | the order slice and index map of the canonicaliser write down the nodes so that numbers come up in order, and the map holds the positions |
| GraphJson.CanonicalTextComplete | internal/judge/harness/cpp/types/runtime.go:428-467 | two valid graphs have equal canonical text if and only if they are isomorphic with node 0 fixed, values and neighbour order kept |
| GraphJson.CanonicalTextIdempotent | internal/judge/harness/cpp/types/runtime.go:428-467 | the canonical document is accepted again and canonicalises to itself |
| GraphRuntime.BuildGraph | internal/judge/harness/cpp/types/runtime.go:693-704 | allocates one node per value and wires the neighbour lists by index, entry by entry |
| GraphRuntime.PopOrder | internal/judge/harness/cpp/types/runtime.go:707-719 | the C++ queue loop numbers the reachable nodes so that numbers come up in order, on any heap |
| GraphRuntime.SerializeGraph | internal/judge/harness/cpp/types/runtime.go:706-736 | on any heap, prints a document that lists the nodes below the root with values and neighbours, nulls read as the root, numbered in order |
| GraphRuntime.PythonGraph | internal/judge/harness/python/runtime.go:164-171 | the Python serializer gives such a document too, and fails exactly on a reachable null neighbour |
| GraphRuntime.BuildThenSerialize | internal/judge/harness/cpp/types/runtime.go:693-736 | building a literal and serializing it prints the Go canonical text |
| GraphRuntime.GraphVerdictExact | internal/judge/harness/cpp/types/runtime.go:428-467 | a returned graph prints the expected text if and only if it is isomorphic to the expected document |
| GraphRuntime.GraphVerdictSound | internal/judge/harness/cpp/types/runtime.go:706-736 | text comparison is right about every expectation if and only if no null neighbour is reachable |
| Trees.WellFormedIsBeforeStop | internal/judge/harness/cpp/types/runtime.go:780-785 | every value has a parent before it exactly when no value stands at or past the first position that is nobody's child |
| Trees.TreeRoundTrip | internal/judge/harness/cpp/types/runtime.go:774-787 | every binary tree is the tree that its own trimmed level order describes |
| Trees.ArrayRoundTrip | internal/judge/harness/cpp/types/runtime.go:774-812 | a well-formed array is the level order of its tree up to trailing nulls |
| Trees.TrimCanonical | internal/judge/harness/cpp/types/runtime.go:505-511 | trimmed arrays are equal exactly when the arrays agree at every position |
| TreeRuntime.BuildTree | internal/judge/harness/cpp/types/runtime.go:774-787 | with r nodes before it, a node has its children at positions 2r + 1 and 2r + 2, on every array; null root exactly if the first value is null |
| TreeRuntime.PythonBuildTree | internal/judge/harness/python/runtime.go:61-83 | builds the same wiring, and refuses exactly the arrays with a value that is nobody's child |
| TreeRuntime.SerializeTree | internal/judge/harness/cpp/types/runtime.go:789-812 | prints the trimmed values of the queue, with its seen set and size limit, on any heap, and terminates; `TreeShapes.PrintsQueue` says what the queue is |
| TreeRuntime.PythonSerializeTree | internal/judge/harness/python/runtime.go:129-143 | the trimmed values in the order popped, or an error on a repeated node; `TreeShapes` says for which roots |
| TreeJudge.CanonicalTree | internal/judge/harness/cpp/types/runtime.go:505-524 | the canonicaliser prints the array up to its last value, and null if there is none |
| TreeJudge.CppPrints | internal/judge/harness/cpp/types/runtime.go:774-812 | the text of a built array is its canonical text if and only if the array fits |
| TreeJudge.BuildThenSerialize | internal/judge/harness/cpp/types/runtime.go:774-812 | for every array: build-then-serialize equals the canonical text if and only if no value stands further back than two positions per earlier node, or past position 200000 |
| TreeJudge.SmallTreesFit | internal/judge/harness/cpp/types/runtime.go:794 | well-formed arrays with at most 100000 values always fit |
| TreeJudge.PythonBuildThenSerialize | internal/judge/harness/python/runtime.go:61-83 | the Python pair reproduces exactly the well-formed arrays, without a size limit |
| TreeShapes.PythonAcceptsTrees | internal/judge/harness/python/runtime.go:129-143 | on any heap, accepts exactly the roots of trees whose nodes stand in one place each, and collects the tree's level order |
| TreeShapes.CppPrintsEncoding | internal/judge/harness/cpp/types/runtime.go:789-812 | for a tree on any heap, the printed text is its trimmed level order if and only if that fits the queue limit |
| TreeShapes.SmallTreePrints | internal/judge/harness/cpp/types/runtime.go:794 | trees of at most 100000 nodes fit |
| TreeShapes.DriversAgree | internal/judge/harness/python/runtime.go:129-143 | on any heap the C++ and the Python text exist and are equal if and only if the root is that of a fitting tree |
| TreeShapes.PrintsWellFormed | internal/judge/harness/cpp/types/runtime.go:789-812 | on any heap, shared or cyclic, the printed text is that of some well-formed array |
| TreeShapes.PrintsQueue | internal/judge/harness/cpp/types/runtime.go:789-812 | on any heap the printed queue starts with the root, the j-th node met for the first time has its children at 2j + 1 and 2j + 2, a node met again has none, and the queue ends by itself or at 200001 entries |
| TreeShapes.TreeVerdictFits | internal/judge/harness/cpp/types/runtime.go:497-525 | for a returned tree, text comparison decides equality with every well-formed expectation if and only if the tree fits |
| TreeShapes.TreeVerdictExact | internal/judge/harness/cpp/types/runtime.go:789-812 | for every heap and root: text comparison is right about every well-formed expectation if and only if the root is that of an unshared tree that fits |
| TreeShapes.PythonVerdictExact | internal/judge/harness/python/runtime.go:129-143 | for any heap and root, the Python text is the expected one if and only if the root shows the expected tree without sharing |
| TreeShapes.WiredIsTree | internal/judge/harness/cpp/types/runtime.go:774-787 | both builders make the unshared tree that the array describes |
| TreeShapes.CopyTree | internal/judge/harness/python/runtime.go:61-143 | serializing a returned tree and building the result gives the same tree on fresh nodes |
| TreeShapes.SharedLooksLikeTree | internal/judge/harness/cpp/types/runtime.go:794-800 | a root whose children are one node prints like a tree that it does not show; Python refuses it |
| ListRuntime.BuildList | internal/judge/harness/cpp/types/runtime.go:536-544 | the dummy-head loop builds the chain of the values: each node with its value and the next node |
| ListRuntime.SerializeList | internal/judge/harness/cpp/types/runtime.go:546-559 | on any heap prints the values of the different nodes met from the head on, up to the end or the first repeated node |
| ListRuntime.PythonSerializeList | internal/judge/harness/python/runtime.go:119-128 | the same values, refusing exactly the chains whose last new node has a successor |
| ListRuntime.BuildThenSerializeList | internal/judge/harness/cpp/types/runtime.go:536-559 | building and serializing gives the canonical list text |
| ListRuntime.ListVerdict | internal/judge/harness/cpp/types/runtime.go:191-211 | a returned list prints the expected text if and only if its walk meets the expected values |
| ListRuntime.ListVerdictExact | internal/judge/harness/cpp/types/runtime.go:546-559 | text comparison is right about every expectation if and only if the returned list ends |
| ListRuntime.CycleLooksFinite | internal/judge/harness/cpp/types/runtime.go:550 | a one-node cycle and a one-node list print alike |
| RandomLists.CanonicalRandomList | internal/judge/harness/cpp/types/runtime.go:218-325 | accepts exactly equal-length documents with 32-bit values and indices in range, and prints values and indices in order |
| RandomLists.RandomTextInjective | internal/judge/harness/cpp/types/runtime.go:298-324 | random-list texts are equal exactly when the documents are, empty ones apart |
| RandomLists.BuildRandomList | internal/judge/harness/cpp/types/runtime.go:592-603 | the three passes build the chain with its random pointers |
| RandomLists.BuiltMeans | internal/judge/harness/cpp/types/runtime.go:592-603 | such a chain has, node by node, its value, the next node, and the random target or null |
| RandomLists.SerializeRandomList | internal/judge/harness/cpp/types/runtime.go:613-638 | prints the document of the chain from the head, pointers out of the chain as null, on any heap |
| RandomLists.PythonSerializeRandom | internal/judge/harness/python/runtime.go:144-163 | the same document, refusing exactly cyclic chains and pointers out of the chain |
| RandomLists.RandomPrintExact | internal/judge/harness/cpp/types/runtime.go:613-638 | on any heap the text lists the nodes met along the list, value by value, and each random pointer by the number of its node, null outside; Python accepts exactly the lists that end and keep their pointers inside |
| RandomLists.BuildThenSerializeRandom | internal/judge/harness/cpp/types/runtime.go:593-638 | building a literal and serializing it prints the canonical text |
| RandomLists.BuildAndPrint | internal/judge/harness/cpp/types/runtime.go:269-296 | the builder call a literal makes, with -1 for null, prints the text of its document |
| RandomLists.RandomVerdict | internal/judge/harness/cpp/types/runtime.go:613-638 | a returned list prints the expected text if and only if it shows the expected document |
| RandomLists.RandomVerdictExact | internal/judge/harness/cpp/types/runtime.go:613-638 | text comparison is right about every expectation if and only if the returned list ends and its random pointers stay inside |
| RandomLists.OutsideLooksNull | internal/judge/harness/cpp/types/runtime.go:613-638 | a random pointer out of the list prints like null; Python refuses it |
| Sharing.Collect | internal/judge/harness/cpp/types/runtime.go:648-659 | the first pass terminates on any heap and collects exactly the reachable nodes |
| Sharing.ReachesByPath | internal/judge/harness/cpp/types/runtime.go:648-659 | a node is reached exactly when following pointers from the start leads to it |
| Sharing.Disjoint | internal/judge/harness/cpp/types/runtime.go:814-837 | true if and only if no two pointer paths from the arguments end in the same node, on heaps with cycles and sharing |
| Sharing.ChainDisjoint | internal/judge/harness/cpp/types/runtime.go:561-572 | the list version decides the same |
| Sharing.PythonDisjoint | internal/judge/harness/python/runtime.go:182-214 | the Python object collector and postcondition decide the same |
| CppTypes.ResolvesExactly | internal/judge/harness/cpp/serializer.go:50-75 | by declaration order and associated namespaces, a type can be printed if and only if no optional in it directly wraps a vector without runtime pointers |
| CppTypes.OptionalVector | docs/architecture.md:98 | the documented `optional<vector<int>>` cannot be printed, the neighbouring types can |
| Values.BuildSerializeAgrees | internal/judge/harness/cpp/types/vector.go:19-68 | for every type and accepted JSON value the literal exists exactly when the canonical text does, and the program prints that text for what it constructs if and only if the type can be printed |
| Values.RunPointer | internal/judge/harness/cpp/types/runtime.go:527-812 | for lists, trees, random lists and graphs, running the builder on the heap and the serializer on its result prints the text of the expression's value |
| Values.SerializeDecides | internal/judge/harness/cpp/serializer.go:50-75 | a value has a text if and only if its type can be printed, and then texts are self-delimiting and equal exactly when the values are, absent optionals counting as null |
| Values.ReturnedValueVerdict | internal/judge/testcases.go:199-202 | a returned value prints the expected text if and only if its type can be printed and it is the value the expectation's literal constructs |
| Returned.PrintList | internal/judge/harness/cpp/types/runtime.go:546-559 | a list pointer on any heap prints as the typed value of its walk |
| Returned.PrintTree | internal/judge/harness/cpp/types/runtime.go:789-812 | a tree pointer on any heap prints as a typed tree value |
| Returned.TreeValueShows | internal/judge/harness/cpp/types/runtime.go:789-812 | which for a fitting tree is its trimmed level order |
| Returned.PrintRandomList | internal/judge/harness/cpp/types/runtime.go:613-638 | a random-list pointer on any heap prints as the typed value of the document it shows |
| Returned.PrintGraph | internal/judge/harness/cpp/types/runtime.go:706-736 | a graph pointer on any closed heap prints as the typed value of its canonical document |
| Returned.ListStorable | internal/judge/harness/cpp/types/runtime.go:546-559 | a list value from a heap of 32-bit values can be read back, as `Rereading.ReadAgain` asks |
| Returned.TreeStorable | internal/judge/harness/cpp/types/runtime.go:789-812 | so can a tree value |
| Returned.RandomStorable | internal/judge/harness/cpp/types/runtime.go:613-638 | so can a random-list value |
| Returned.GraphStorable | internal/judge/harness/cpp/types/runtime.go:706-736 | so can a graph value |
| Rereading.JsonTextExact | internal/judge/harness/cpp/types/vector.go:88-94 | compact texts of integers, ASCII strings, arrays and plain objects are equal only for equal JSON values, so reading is determined |
| Rereading.ReadAgain | internal/judge/testcases.go:205-231 | what a program prints for a returned value is read in exactly one way, and canonicalising what was read gives the same text |
| Rereading.CanonicalTwice | internal/judge/testcases.go:205-231 | canonicalising an expectation's canonical text again keeps it |
| Values.NullTexts | internal/judge/harness/cpp/types/optional.go:48-53 | only absent optionals and null pointers print as null |
| Values.IntegerReads | internal/judge/harness/cpp/types/scalar.go:70-80 | the text of an integer literal is read back as that integer |
| Accepted.DecimalDigits | internal/judge/harness/cpp/types/scalar.go:56-64 | the decimal text has the digits of the number, most significant first |
| Accepted.IntegerTexts | internal/judge/harness/cpp/types/scalar.go:70-80 | the texts read as an integer are its decimal text, and `-0` |
| Accepted.IntegerAccepted | internal/judge/harness/cpp/types/scalar.go:56-80 | 32-bit and 64-bit integers are accepted as numbers or strings exactly within their bounds, and canonicalise to the decimal text |
| Accepted.BoolAccepted | internal/judge/harness/cpp/types/scalar.go:104-117 | booleans are true, false, and null for false |
| Accepted.NullAccepted | internal/judge/harness/cpp/types/optional.go:48-53 | null canonicalises to false, an empty string or vector, or null, by type; integers refuse it |
| Accepted.VectorAccepted | internal/judge/harness/cpp/types/vector.go:53-68 | a vector accepts exactly the arrays of accepted elements, and prints their texts in order between brackets |
| Accepted.ListAccepted | internal/judge/harness/cpp/types/runtime.go:191-211 | a list accepts an array of integers and prints them in order, null if there are none |
| Accepted.TreeAccepted | internal/judge/harness/cpp/types/runtime.go:497-525 | a tree accepts an array of integers and nulls and prints it up to the last integer |
| Accepted.LastFieldWins | internal/judge/harness/cpp/types/runtime.go:331-352 | of several fields with one name the last is read, and none only if there is none |
| Accepted.ValueLayouts | internal/judge/harness/cpp/serializer.go:42-75 | the C++ texts of booleans, integers, strings, optionals and vectors, the elements in order |
| Accepted.Layouts | internal/judge/harness/cpp/types/runtime.go:298-467 | the texts of graphs, lists, trees and random lists, written out |
| Observations.DriverDocument | internal/judge/harness/cpp/function.go:314-382 | the generated driver prints the document of its observations and postconditions |
| Observations.ExpectedDocument | internal/judge/testcases.go:251-355 | the judge's expected document has the expectation's parts in the same shape with every postcondition true, or is an error exactly when an observed part is missing |
| Observations.DocumentExact | internal/judge/testcases.go:199-202 | the two documents are equal if and only if the result and all observed parameters agree and every postcondition holds |
| Observations.DocumentLayout | internal/judge/harness/cpp/function.go:314-382 | the document written out: result, observed parameters and postconditions in this order, each only if there is one; the result alone if nothing is observed |
| Observations.JoinAppend | internal/judge/harness/cpp/function.go:314-382 | joining two lists joins their texts with one comma between them if neither is empty |
| Observations.SerializePrefix | internal/judge/harness/cpp/serializer.go:77-88 | prints the first elements, none for a negative length and at most all |
| Observations.PrefixExact | internal/judge/harness/cpp/serializer.go:77-88 | a prefix view equals the expected array exactly when that many first elements do |
| TypedJudge.DocumentVerdict | internal/judge/harness/cpp/function.go:314-382 | for typed results, full and prefix views and postconditions: the driver's document is the expected one if and only if every printed type can be printed, each part is the value its expectation constructs, and every postcondition holds |
| Unordered.CanonicalUnordered | internal/judge/harness/cpp/types/vector.go:70-86 | joins the element texts in ascending order: at their first difference the earlier text has the smaller character or ends |
| Unordered.AtMostMeans | internal/judge/harness/cpp/types/vector.go:84 | the order of the sort is that of the first difference |
| Unordered.SortedUnique | internal/judge/harness/cpp/types/vector.go:84 | a multiset of strings has only one sorted arrangement |
| Unordered.UnorderedIsMultisetEquality | internal/judge/testcases.go:199-211 | unordered forms are equal if and only if the element texts are equal as multisets |
| TypedJudge.PrintedForm | internal/judge/harness/cpp/types/vector.go:70-86 | for a printed array, reading, canonicalising and sorting is sorting the printed elements |
| TypedJudge.UnorderedVerdict | internal/judge/testcases.go:199-216 | from the printed text and the expectation's canonical text, both read and canonicalised again: accepted if and only if the elements are those the expectation constructs, as multisets |
| TypedJudge.UnorderedDocumentVerdict | internal/judge/testcases.go:214-236 | the same within whole documents, where also the parameters must be as expected and the postconditions hold |
| Unordered.BareTextsCollide | internal/judge/harness/cpp/types/vector.go:85 | without self-delimiting texts joining would confuse different multisets |
| TypeParser.Cursor.Skip | internal/judge/harness/cpp/types/parser.go:164-168 | moves past white space |
| TypeParser.Cursor.ConsumeString | internal/judge/harness/cpp/types/parser.go:144-154 | consumes the text exactly if it is next, otherwise leaves the cursor |
| TypeParser.Cursor.ConsumeWord | internal/judge/harness/cpp/types/parser.go:129-142 | consumes the word exactly if it is next and ends there, otherwise restores the cursor |
| TypeParser.Cursor.ParseName | internal/judge/harness/cpp/types/parser.go:112-127 | reads the longest word |
| TypeParser.Cursor.ParseArguments | internal/judge/harness/cpp/types/parser.go:77-97 | the argument loop reads the list the grammar describes and terminates |
| TypeParser.Cursor.ParseType | internal/judge/harness/cpp/types/parser.go:42-110 | the recursive-descent method computes the grammar function, at any depth |
| TypeParser.Parse | internal/judge/harness/cpp/types/parser.go:22-40 | parses a whole declared type, with the length limit, trimming and trailing check; `TypeGrammar` says which texts it accepts and what it returns |
| TypeParser.Normalize | internal/judge/harness/cpp/types/registry.go:197-203 | the printed name of the parsed type, or the text itself; `TypeGrammar.NormalizesExactly` says when |
| TypeParser.WordEndLongest | internal/judge/harness/cpp/types/parser.go:115-122 | a name is the longest run of word characters |
| TypeRefs.ErasePrintsAlike | internal/judge/harness/cpp/types/ref.go:28-48 | const and reference qualifiers do not show in the printed name |
| TypeRoundTrip.RoundTrip | internal/judge/harness/cpp/types/parser.go:22-110 | within the limits, parsing a printed type gives the same tree without const and reference if no name is `const` or `std`, and fails otherwise |
| TypeRoundTrip.PrinterInjective | internal/judge/harness/cpp/types/ref.go:28-48 | clean types print alike exactly when they are equal up to qualifiers |
| TypeRoundTrip.ParseShaped | internal/judge/harness/cpp/types/parser.go:42-110 | everything the parser returns is made of words and `long long`, within the depth limit |
| TypeRoundTrip.NormalizeIdempotent | internal/judge/harness/cpp/types/registry.go:197-203 | normalising twice is normalising once, on every string |
| TypeForms.FormReads | internal/judge/harness/cpp/types/parser.go:42-110 | wherever a declared form stands (leading or trailing `const`, `std::`, arguments, `&`, `&&` or `*`, white space between tokens), the parser reads the type it declares and stops behind it |
| TypeForms.DeclaredParses | internal/judge/harness/cpp/types/parser.go:22-40 | parsing any declared form within the limits returns the declared type, const, reference and pointer included |
| TypeGrammar.TypeForm | internal/judge/harness/cpp/types/parser.go:42-110 | every text the parser reads is a declared form of the type it returns |
| TypeGrammar.ParsesExactly | internal/judge/harness/cpp/types/parser.go:22-110 | a text parses if and only if it is a declared form with white space around it, within the limits, and the type it declares is returned |
| TypeGrammar.NormalizesExactly | internal/judge/harness/cpp/types/registry.go:197-203 | normalising a declared form prints the declared type; any other text is left as it is |
| TypeGrammar.QualifiedRoundTrip | internal/judge/harness/cpp/types/parser.go:42-110 | every type of words within the limits is read back from its plainest declared form, qualifiers and all |
| TypeGrammar.Qualifiers | internal/judge/harness/cpp/types/parser.go:48-108 | on every name: `&` and `&&` declare an lvalue and an rvalue reference, `*` a pointer, and `const` before or behind the name a constant |
| TypeGrammar.MeaningSingle | internal/judge/harness/cpp/types/parser.go:100-108 | no parsed type is both a pointer and a reference |
| TypeGrammar.VectorReference | docs/usage.md:72 | the documented parameter type `vector<int>&` normalises to `vector<int>` |
| Submissions.Configured | internal/judge/postgres_queue.go:60-69 | non-positive options are replaced by 60 seconds, 3 attempts and 100 places |
| Submissions.SubmissionTable.Insert | db/queries/submissions.sql:1-7 | inserts a queued row unless the id exists |
| Submissions.SubmissionTable.Oldest | db/queries/submissions.sql:96-102 | finds the oldest queued row that is not locked, if there is one |
| Submissions.SubmissionTable.Claim | db/queries/submissions.sql:89-104 | marks the oldest unlocked queued row running with the next attempt number and a lease of the configured length from now; nothing if there is none |
| Submissions.SubmissionTable.Renew | db/queries/submissions.sql:49-59 | moves the lease of the current attempt to a lease from now, never back, if it has not expired; the row count tells |
| Submissions.SubmissionTable.Update | db/queries/submissions.sql:15-32 | writes a row of the current attempt while its lease lasts, or fails a row that was never claimed |
| Submissions.SubmissionTable.LockExpired | db/queries/submissions.sql:61-68 | returns every expired running row that is not locked, each once, with its attempt, ordered by lease and age |
| Submissions.SubmissionTable.Requeue | db/queries/submissions.sql:70-78 | puts one row back in the queue and clears result, start and lease |
| Submissions.SubmissionTable.Fail | db/queries/submissions.sql:80-87 | fails one row with a result and clears its lease |
| Submissions.SubmissionTable.RecoverExpired | internal/judge/postgres_queue.go:141-200 | one pass recovers exactly the expired rows that are not locked: requeued with attempts left, failed otherwise, field by field |
| Submissions.SubmissionTable.Migrate | db/migrations/002_queue_leases.sql:14-18 | the upgrade rewrites running rows only |
| Leases.StepKeepsGood | db/queries/submissions.sql:15-104 | no statement breaks the row invariant, whatever its clock says |
| Leases.RunKeepsGood | internal/judge/postgres_queue.go:155-195 | in every reachable state a row has a lease iff it runs, queued rows have attempts left, and attempts never exceed the limit |
| Leases.RunEvolves | db/queries/submissions.sql:15-104 | over any stretch of a run attempts grow, ranks do not, terminal rows are frozen, and a lost attempt stays lost |
| Leases.Fenced | db/queries/submissions.sql:28-32 | once an attempt was recovered or finalised, no later renewal or update with it succeeds |
| Leases.ClaimedOnce | db/queries/submissions.sql:89-104 | no (id, attempt) pair is claimed twice |
| Leases.OneTerminalResult | db/queries/submissions.sql:28-32 | a terminal row is never written again |
| Leases.MoveLowersRank | internal/judge/postgres_queue.go:155-195 | claims, recoveries and final updates lower the rank of a row; other steps keep status and attempt |
| Leases.BoundedClaims | internal/judge/postgres_queue.go:155-162 | the attempt number counts the claims, so there are at most as many as configured |
| Leases.BoundedMoves | internal/judge/postgres_queue.go:155-195 | claims, recoveries and final updates of one submission are at most twice the attempt limit |
| Leases.RunningWasClaimed | internal/judge/postgres_queue.go:208-223 | a running row was claimed by its attempt and held by it ever since |
| Leases.ResultProvenance | internal/judge/postgres_store.go:191-215 | the result of a finished row was written by the attempt that had held the row without a break since claiming it |
| Leases.LiveWorkerKeepsLease | cmd/server/main.go:204-228 | while renewals come in time and the worker is not done, recovery never selects its row, its statements are accepted and its lease never decreases |
| Leases.LeaseIsLatest | db/queries/submissions.sql:49-59 | in every run the lease of a held row is exactly the largest of the claim's and the accepted renewals' times plus one lease |
| Leases.DeadlineDecides | db/queries/submissions.sql:49-68 | a recovery pass over the row ends a silent attempt if and only if its clock is at or past that time; a renewal or update is accepted if and only if it is before |
| Leases.RegularBeatsFeed | cmd/server/main.go:204-228 | with a monotone clock it is enough that each renewal runs less than a lease after the one before |
| Leases.MigrationEstablishesGood | db/migrations/002_queue_leases.sql:14-18 | the upgrade establishes the invariant on legacy and current tables, keeps other rows, and is idempotent |
| Admission.ActionKeepsBound | internal/judge/postgres_store.go:82-107 | each lock, count, commit, rollback and foreign statement keeps the bound |
| Admission.AdmissionBound | internal/judge/postgres_store.go:82-107 | in every interleaving the queue holds at most the limit plus the requeues so far, and at most the limit without requeues |
| Admission.BoundIsReached | db/queries/submissions.sql:70-78 | for every configuration with more than one attempt and every r, the limit plus r is reached with exactly r requeues |
| Admission.LimitHoldsExactly | internal/judge/postgres_queue.go:155-162 | the queue limit holds in every reachable state if and only if there is one attempt |
| Admission.SubmissionStore.CountQueued | internal/judge/postgres_store.go:96-102 | counts the queue under the lock and tells whether there is room |
| Admission.SubmissionStore.InsertAndCommit | internal/judge/postgres_store.go:103-106 | inserts and releases the lock, or rolls back on a duplicate id |
| Pool.StepInvariant | internal/judge/pool.go:91-265 | every step of any goroutine keeps places, slots and responsibilities in order |
| Pool.Conservation | internal/judge/pool.go:91-204 | before Close, available, held and starting slots add up to the capacity, and no sandbox is in two places |
| Pool.SendNeverBlocks | internal/judge/pool.go:221-227 | the send that gives a sandbox back always finds room |
| Pool.LiveBound | internal/judge/pool.go:160-204 | there are never more live sandboxes than the capacity |
| Pool.TransitReady | internal/judge/pool.go:119-204 | in an open pool a slot in transit can take its next step, or another goroutine holds the mutex and one step of it frees that |
| Pool.TransitProgress | internal/judge/pool.go:119-204 | every step of its own brings the slot closer to the channel or to a replacement |
| Pool.Undisturbed | internal/judge/pool.go:91-204 | other goroutines leave a held sandbox alone |
| Pool.SlotRestored | internal/judge/pool.go:119-204 | in every run and while the pool is open: once the goroutine with a slot in transit has taken as many steps as its rank, the sandbox is in the channel or was removed with a replacement registered, whatever the others did; `Pool.RightWayBack` says which |
| Pool.ReplacementRestored | internal/judge/pool.go:194-201 | in every run and while the pool is open: three steps after its start a replacement is in the channel |
| Pool.SlotReturns | internal/judge/pool.go:119-204 | both in one run of an open pool: the sandbox is in the channel, or a replacement was registered, started and put there |
| Pool.HeldBecause | internal/judge/pool.go:119-158 | in every run, the stage of a held sandbox determines the steps on it since it was taken or started |
| Pool.SentBecauseHealthy | internal/judge/pool.go:143-157 | a sandbox is sent back only after exactly these steps on it: taken and configured, then released with a restart, or released and reset with success; or it is new |
| Pool.RemovedBecauseFailed | internal/judge/pool.go:119-158 | in an open pool a goroutine removes a sandbox only after its configuration failed, its release asked for a replacement, or its reset failed; so a restarted or reset one is sent |
| Pool.RightWayBack | internal/judge/pool.go:143-157 | in every run the two ways back are decided by what happened to the sandbox: sent after success only, replaced after failure only |
| Pool.FoundOpen | internal/judge/pool.go:91-158 | a sandbox is configured or reset only after the check of its goroutine found the pool open |
| Pool.AllRestored | internal/judge/pool.go:119-204 | when nothing is in transit and no replacement is due, every slot is in the channel or with a user |
| Pool.CloseLeaksExactly | internal/judge/pool.go:248-265 | when Close's wait returns, a leak is possible from there if and only if a goroutine stands between the check and the registration of a replacement |
| Pool.NoLeakAfterClose | internal/judge/pool.go:248-265 | after Close and all releases every started sandbox has been removed, if no goroutine stood there when the wait returned |
| Pool.LeakIsReached | internal/judge/pool.go:163-170 | the other case is reachable from a pool of one sandbox, and so is a leak |
| Pool.ExecutorSandboxPool.SendBack | internal/judge/pool.go:221-227 | the send is the model's step and keeps the channel within its capacity |
| Pool.ExecutorSandboxPool.Stats | internal/judge/pool.go:67-78 | busy is what goroutines hold, in an open pool |
| Capacity.StepOrderly | internal/judge/compile_workers.go:72-133 | each step keeps requests in one place with at most one result |
| Capacity.CompileBound | internal/judge/compile_workers.go:107-133 | never more compilations than slots, and no request gets a second result |
| Capacity.AllAnswered | internal/judge/compile_workers.go:107-133 | a request that has left the queue and its worker has exactly one result |
| Capacity.FirstComeFirstServed | internal/judge/compile_workers.go:72-105 | in every run the compilations start in the order of submission |
| Capacity.ValidateConfig | cmd/server/config.go:123-150 | accepts exactly the configurations within the ranges whose reservation fits the budget |
| Capacity.TotalAdds | internal/judge/compile_workers.go:107-133 | the memory of the running compilations is the sum of their limits, none below 512 MiB |
| Capacity.MemoryWithinBudget | cmd/server/config.go:145-148 | in every reachable state of pool and compile workers the memory limits stay within 8192 MiB |
| Verdict.Supervise | cmd/yexsupervisor/main.go:125-145 | emits the results up to the first case that stops the loop, and fails exactly when a reset, cleanup or validation up to there does, with the results before it |
| Verdict.Decode | internal/judge/supervisor_executor.go:107-147 | accepts exactly the complete streams: enough results, or fewer with the last one stopping the run, and nothing trailing |
| Verdict.JudgeBatch | internal/judge/testcases.go:52-184 | accepts with the maxima if every case passes; otherwise answers for the first case that does not: output limit, time limit, memory limit, runtime error or wrong answer by that run's flags, exit code and memory, with its time, its message and the trimmed output |
| Verdict.JudgeCase | internal/judge/testcases.go:91-176 | one round: the checks in order with status, counts, memory, message and failed case |
| Verdict.JudgeOneByOne | internal/judge/testcases.go:60-75 | running the cases one at a time gives the same answer |
| Verdict.JudgeSupervised | internal/judge/testcases.go:31-58 | supervisor, stream, decoder and verdict loop together refine judging one at a time, for every program behaviour, and fail exactly when a round up to the stop is not clean or has a negative measurement |
| Verdict.BatchRefines | internal/judge/testcases.go:52-184 | the cases after the batch never matter |
| Verdict.CorrectUnique | internal/judge/testcases.go:52-184 | the promised answer is unique |
| Verdict.NoResultUnreachable | internal/judge/testcases.go:54-58 | the error for a missing result cannot occur after a successful decode |
| Verdict.PassedIsFirstFailure | internal/judge/testcases.go:161-184 | the passed count is the position of the first failing case, and acceptance means all cases passed |
| Verdict.MaximaBound | internal/judge/testcases.go:172-184 | the reported time and memory are the maxima over the cases |
| Workspace.Filesystem.ClearWorkspace | cmd/yexsupervisor/main.go:341-366 | keeps exactly the protected entries, and fails exactly on a protected entry of a foreign kind |
| Workspace.Filesystem.Snapshot | cmd/yexsupervisor/main.go:275-306 | takes the baseline of exactly the safe trees |
| Workspace.Filesystem.ValidateBaseline | cmd/yexsupervisor/main.go:308-327 | succeeds exactly if every protected path is there, of its kind, root-owned and not writable |
| Workspace.Filesystem.RunCase | cmd/yexsupervisor/main.go:125-138 | whatever tree a case leaves, the round succeeds exactly if every staged path is there, of its kind, root-owned and not writable, and then the workspace is restored |
| Workspace.Filesystem.RunCases | cmd/yexsupervisor/main.go:125-146 | every case starts from exactly the staged paths with their kinds, and the loop stops at the first case that does not leave them intact |
| Workspace.KeptRestored | cmd/yexsupervisor/main.go:329-366 | clearing the workspace leaves the protected part of what was there and nothing else |

## Left out

- PostgreSQL itself: connections, timeouts, transactions that fail midway, JSON columns and the generated query code. Each statement is one atomic step; a transaction that rolls back is no step.
- The unfenced `SaveContext` path and `Enqueue`: the PostgreSQL store always admits through `SaveAdmitted`.
- `startWorker`, `ProcessSubmission` and the polling loop as programs: the protocol theorems allow any process to issue any of their statements at any time, so their own order adds nothing; statements that the service never issues (an update back to queued) are excluded by `Submissions.Issued`.
- Docker, processes, signals, seccomp, rlimits, tar transfer and uid handling: executor operations succeed or fail at will.
- Pool.StepInvariant: does not model nil sandboxes, metrics and timeouts; `Done` comes together with the step before it, which only lets Close's wait return earlier; the 500 ms wait of a replacement goroutine is a step that may happen at any time.
- Verdict.JudgeSupervised: does not model cancelled contexts, the reset-between-cases mode, the transport size limit and the limit of 500 cases, which job validation already enforces; memory is in bytes, so the division by 2^20 for display is not rounded.
- Verdict.Decode: does not model the lexing of JSON; a message is a complete result object or not.
- Workspace.Filesystem.RunCases: does not model file contents, `/tmp` and `/dev/shm`; a root-owned, non-writable regular file is taken to keep its bytes.
- Values.BuildSerializeAgrees: does not cover doubles, non-ASCII strings and container-qualified pointers, whose text forms depend on library formatting or which the registry ignores; trees must fit as `TreeJudge.Fits` says. Integer literals are read as their mathematical value, including the least 64-bit integer.
- TypedJudge.UnorderedDocumentVerdict: takes the re-encoded document as its fields in key order with their texts kept; the escaping of `<`, `>` and `&` inside strings by the JSON encoder is not modelled.
- Rereading.ReadAgain: takes a reader to find a JSON value with the given compact text; the lexing of JSON is not modelled. Values are within 32 bits and lists and graphs within 2^31 nodes, as in memory.
- CppTypes.ResolvesExactly: does not model `double` and types outside the registry; a vector of booleans has two suitable overloads, and both print it.
- The class harness, registry bookkeeping and metadata validation: each check is settled by reading one branch.
- TypeParser.Parse: does not model invalid UTF-8 in the declared type; letters, digits and spaces are those of a table that is only assumed to classify ASCII as usual.
- Python's builders for lists, random lists and graphs and its JSON printer: they repeat the C++ loops on validated metadata.
- HTTP handlers, configuration loading, diagnostics, logging and metrics: thin.
