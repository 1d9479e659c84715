# yacl option registry: a Dafny model of its token source, option tree and validators

yacl is a header-only C++ library for declaring command-line options. A
caller builds a `yacl::map`, a tree of named nodes. `map["host"]` creates or
returns a child, and `map["host"].req<std::string>("h", "help")` declares the
option that node stands for. `yacl::convert` turns a command line into
argv-style tokens and back. `read`, `range` and `oneof` are the validators a
declaration can carry.

This project models what `yacl.hpp` actually does. That is less than the
library sets out to do. The parser, the typed conversion and `opt` are still
stubs in the code, and the model follows the code:

- `opt` only checks the node's name. It installs no optional record and
  stores no default.
- `help()` on a fresh named child returns `""`. It does not fail, because
  `map(s)` always allocates an empty record.
- `operator[](unsigned int)` never creates a positional child. It returns the
  node itself.
- The untyped `get()` returns `""` after the name check.

The model has four modules:

- `Wrappers` (`wrappers.dfy`) holds `Option`, `Result` and `Outcome`. It also
  holds `Error`, which stands for `std::domain_error`, the one exception the
  modelled code throws.
- `Tokens` (`tokens.dfy`) models `struct convert`.
  - Tokens are `seq<string>`, not `char**`.
  - `Words` is the reference definition of stream extraction. It skips C-locale
    whitespace and takes the longest run without any.
  - `Join` is the reference definition of the argv join.
  - `CString` reads an argument as a C string, cut at its first NUL, as
    `std::string(argv[i])` does.
  - The methods `ConvertString` and `ConvertArgv` follow the two constructors'
    loops. Each is proved equal to its reference.
  - The three `operator>>` overloads read the three fields of `Converter`.
- `OptionTree` (`option_tree.dfy`) models `class map` as an immutable tree,
  `Node(name, children, record)`.
  - A node is reached through a key path.
  - `Touch` models evaluating an `operator[]` chain.
  - `ReqAt` models `req` on the node at the end of a path.
  - A thrown `domain_error` becomes `Failure`, and the tree stays unchanged.
  - `Wf` is the class invariant. A named node has a record, and each child is
    named by its own key. Both constructors establish it and every operation
    is proved to keep it.
- `Validators` (`validators.dfy`) models `read`, `range` on integers, and
  `oneof` together with the `std::find` it uses.

## Model

| member | source | states |
|---|---|---|
| Tokens.Words | yacl.hpp:380-383 | every token extracted from a line is non-empty and contains no whitespace |
| Tokens.ConvertString | yacl.hpp:373-400 | the string constructor keeps the text verbatim, its tokens are exactly the stream-extraction tokens in order, and the count equals their number |
| Tokens.CString | yacl.hpp:368-369 | an argument read as a C string is its longest prefix without NUL: the whole argument when it holds no NUL, otherwise the part before the first NUL |
| Tokens.ConvertArgv | yacl.hpp:361-371 | the argv constructor keeps count and arguments as given; with fewer than one argument the text is empty, otherwise it is argv[0] followed by " " + a for every later argument, each argument cut at its first NUL |
| Tokens.ConvertBack | test/tests_yacl.cpp:59-74 | for any line, splitting it and rebuilding from the count and tokens read back joins the tokens cut at their first NUL with single blanks; for a single-blank-separated line without NUL this is the line itself |
| Tokens.WordsAtRun | yacl.hpp:380-383 | one extraction at a non-blank position takes exactly the run up to the next whitespace or the end of the line |
| Tokens.WordsWithoutNul | yacl.hpp:368-383 | on a line without NUL, cutting each extracted token at its first NUL changes nothing |
| Tokens.NulCutsRoundTrip | yacl.hpp:368-369 | the single-spaced line "a\0b" is rebuilt as "a", because the rebuilt argument is read as a C string |
| Tokens.WordsEmptyIffAllSpace | yacl.hpp:385-389 | a line yields zero tokens if and only if every character is whitespace (the empty line included) |
| Tokens.WordsOfToken | yacl.hpp:381-383 | a non-empty whitespace-free string is read as exactly one token, itself |
| Tokens.WordsSplitAtSpace | yacl.hpp:380-383 | a whitespace character splits a line's tokens into those on its left followed by those on its right, so tokens are the maximal whitespace-free runs in order |
| Tokens.JoinSnoc | yacl.hpp:368-370 | appending an argument to a non-empty argument list appends one blank and that argument to the joined text |
| Tokens.WordsJoin | yacl.hpp:361-383 | splitting the join of whitespace-free non-empty tokens returns the tokens |
| Tokens.JoinWords | yacl.hpp:361-385 | joining the tokens of a single-blank-separated line with no leading or trailing whitespace returns the line |
| Tokens.JoinIsSingleSpaced | yacl.hpp:368-370 | the join of valid tokens is single-blank separated, so such lines and token sequences correspond one to one |
| Tokens.SampleLineSplits | test/tests_yacl.cpp:60-73 | the test line splits into 7 tokens, the first "--op1=123", the second "positional_1", the last "positional_3", and joining them reproduces the line |
| OptionTree.CheckCondition | yacl.hpp:214-217 | the name check fails, with "description parameter missing", exactly when the node's name is empty |
| OptionTree.Named | yacl.hpp:222-225 | `map(s)` gives a well-formed node named s, with no children and a value-initialised record: no help text and kind OPTIONAL, zero-initialised |
| OptionTree.Index | yacl.hpp:302-309 | indexing by name returns the existing child unchanged when present, else inserts a fresh child named by the key with a fresh record; the parent's name, record and other children are unchanged and its key set grows by exactly the key |
| OptionTree.IndexPosition | yacl.hpp:311-317 | indexing by position creates nothing and returns the node itself unchanged |
| OptionTree.IndexAll | yacl.hpp:319-321 | indexing by `all` returns the node itself unchanged |
| OptionTree.Assign | yacl.hpp:323-325 | assigning a vector of strings discards it and leaves the node unchanged |
| OptionTree.Size | yacl.hpp:287-288 | `size()` is the number of named children |
| OptionTree.Req | yacl.hpp:198-257 | `req` fails with the name-check error exactly on an unnamed node; otherwise the node keeps its name and children and gets a record with the given help and short name, long name equal to its own name, kind Required and the chosen filter |
| OptionTree.Opt | yacl.hpp:259-272 | `opt` fails exactly on an unnamed node and otherwise succeeds without changing anything |
| OptionTree.Help | yacl.hpp:296-300 | `help()` fails exactly on an unnamed node; otherwise it returns the help text of the node's record |
| OptionTree.GetText | yacl.hpp:282-285 | the untyped `get()` fails exactly on an unnamed node and otherwise returns the empty string |
| OptionTree.GetTyped | yacl.hpp:274-280 | `get<T>()` fails exactly on an unnamed node; otherwise its value is the abstract retrieval applied to the node's record |
| OptionTree.Touch | yacl.hpp:302-309 | after an index chain the path leads to a node; the root keeps its name and record; root children other than the chain's first key are unchanged; a chain over an existing path changes nothing |
| OptionTree.ReqAt | yacl.hpp:227-257 | `req` through a key path fails exactly when the node at the path is unnamed, always with "description parameter missing", and otherwise puts the declared node at that path |
| OptionTree.IndexIdempotent | yacl.hpp:302-305 | indexing the same name a second time returns the same child and changes nothing |
| OptionTree.IndexEachAdds | yacl.hpp:302-309 | indexing a sequence of names adds exactly those names as children and leaves existing children, name and record unchanged |
| OptionTree.SizeCountsDistinctNames | yacl.hpp:287-288 | `size()` of a root after indexing some names equals the number of distinct names indexed |
| OptionTree.FreshChildHelpIsEmpty | yacl.hpp:222-225 | a freshly created child with a non-empty name answers `help()` with "" rather than failing |
| OptionTree.IndexEachCreatesFresh | yacl.hpp:302-309 | a name that a run of index calls creates is a child exactly as `map(s)` builds it |
| OptionTree.RootWf | yacl.hpp:221 | `map()` gives a node that satisfies the class invariant |
| OptionTree.IndexEachKeepsWf | yacl.hpp:302-309 | a run of index calls on the same node keeps the class invariant |
| OptionTree.IndexKeepsWf | yacl.hpp:302-309 | indexing keeps the class invariant and the returned child is named by its key |
| OptionTree.NameCheckGuardsEverything | yacl.hpp:214-300 | on an unnamed node `help`, `get()`, `get<T>()`, `req` and `opt` all fail with the same domain error; on a named node none of them throws the name-check error (for `get<T>()` the failed cast that follows it is not modelled) |
| OptionTree.ReqLastWriteWins | yacl.hpp:198-208 | a second `req` on a node gives the same node as that `req` alone: the last declaration replaces the earlier one entirely |
| OptionTree.HelpAfterReq | yacl.hpp:205 | after `req` on a named node, `help()` returns the help text just declared |
| OptionTree.ReqKeepsWf | yacl.hpp:198-208 | `req` keeps the class invariant |
| OptionTree.AtWf | yacl.hpp:307 | in a well-formed tree every reachable node is well formed and a node reached by a non-empty path is named by the path's last key |
| OptionTree.TouchKeepsWf | yacl.hpp:302-309 | an index chain keeps the class invariant |
| OptionTree.TouchLeavesOthers | yacl.hpp:302-309 | an index chain leaves every path that is neither a prefix nor an extension of the chain's path leading where it did before |
| OptionTree.TouchCreatesFresh | yacl.hpp:302-309 | an index chain over a path that leads nowhere ends at a fresh node, as `map(s)` builds it, named by the path's last key |
| OptionTree.TouchCreatesFreshAlong | yacl.hpp:302-309 | every node an index chain creates along its path, intermediate ones included, is named by its key and holds the fresh record of `map(s)` |
| OptionTree.TouchKeepsAncestors | yacl.hpp:302-309 | an index chain keeps the name and record of every node that already existed on its path |
| OptionTree.TouchIdempotent | yacl.hpp:302-309 | evaluating the same index chain twice gives the same tree as once |
| OptionTree.ReqAtLeavesOthers | yacl.hpp:198-208 | `req` through a path leaves every node that is not an ancestor of the target unchanged, the target's own descendants included |
| OptionTree.ReqAtKeepsAncestors | yacl.hpp:198-208 | `req` through a path keeps the name, record and child names of every ancestor of the target, the root included |
| OptionTree.ReqAtKeepsWf | yacl.hpp:198-208 | `req` through a path keeps the class invariant |
| OptionTree.DeclarationFailsIffLastNameEmpty | yacl.hpp:214-235 | on a well-formed tree, `req` after an index chain fails exactly when the chain's last name is empty |
| OptionTree.MapSimpleValues | test/tests_yacl.cpp:11-18 | declaring `host` with `req` and `port` with `opt` leaves `host`'s help as declared and the root with 2 children |
| OptionTree.MapEmptyAssert | test/tests_yacl.cpp:85-93 | on a root `help`, `get()`, `get<int>()`, `req` and `opt` all fail with the domain error |
| OptionTree.MapCustomChecks | test/tests_yacl.cpp:27-50 | after six successive `req` calls on `x` only the last declaration's help, names, kind and filter remain |
| Validators.Read | yacl.hpp:21-24 | `read` returns its argument unchanged |
| Validators.MakeOneOf | yacl.hpp:181-184 | `oneof(first, args...)` keeps `first` as the first candidate and the other arguments after it, in order |
| Validators.RangeCall | yacl.hpp:26-32 | `range(b, e)` applied to d yields 1 if and only if b <= d <= e, and 0 otherwise |
| Validators.Find | yacl.hpp:171 | the search returns the position of the first candidate equal to the value, or the length of the list if none is equal |
| Validators.OneOfCall | yacl.hpp:163-179 | `oneof` accepts exactly when the converted value is one of the candidates, then returns the converted value; otherwise it fails with "The input value [v] is not allowed" |
| Validators.OneOfOneToFive | yacl.hpp:181-184 | `oneof(1, 2, 3, 4, 5)` rejects a raw "6" that converts to 6 and accepts a raw "3" that converts to 3 |

## Left out

- The parser is left out. Both `map::parse` overloads are stubs: one returns `true`, and the other has no return statement. The code has no token grammar, no warning list and no binding of values to model.
- `filter_string_stream::filter` is left out. Its stream read is commented out, so it returns a default-initialised `T t;`: indeterminate for a scalar `T`, the empty string for `std::string`.
- OptionTree.GetTyped: the `dynamic_cast` and the conversion it performs are replaced by an abstract `retrieve` parameter. The parameter is applied to the node's record. The failed cast is not represented: when the record is not an `option<T>`, which includes the empty record of every fresh `map(s)` child, the source dereferences a null pointer, and the model still returns `retrieve` of the record.
- Validators.OneOfCall: the string-to-`T` conversion is an abstract `convert` parameter, because the library's own conversion is the unimplemented one above.
- The filter wrapper classes `option_with_object_filter` (both forms) and `option_with_lambda_filter` are left out. A record keeps only which of them `req` chose, in `Filter`. The lambda form applies the lambda after the base conversion.
- OptionTree.Req: the value type `T` of `req<T>` is not recorded in the model, only the filter variant.
- Validators.RangeCall: `range` is modelled on integers only. It returns its boolean test converted to `T`, which for an integer type is 1 or 0. Other types are not modelled.
- `file_exist` is left out. It returns `true` for every input.
- `del`, `to_string`, `operator<<` and `to_argv` are left out. The first two return constants, `operator<<` only prints, and `to_argv` reads a stream and stores nothing.
- The heap copies of the tokens that `convert(std::string)` allocates, and leaks, are left out. Tokens are values here.
- Tokens.ConvertString: the count is a mathematical integer. The narrowing of the vector's size to a C++ `int` is not modelled.
- OptionTree.Size: the count is a mathematical integer. The narrowing of `multi_options.size()` to the `int` that `size()` returns is not modelled.
- OptionTree.IndexPosition: `int_options` is left out, because no operation of the class ever adds an entry to it.
- The `description` field is the node's `name`. The unused `long_name` parameter of `add` is left out, because `add` takes the long name from the node's name.
- Mutation through references and `shared_ptr` aliasing are left out. The model is value-based, so a reference into the tree becomes a key path.
