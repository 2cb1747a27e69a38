# vxde `.vxd` parser, modelled in Dafny

This project models `VxdeParser::from_file` of the Rust crate vxde. It reads a `.vxd` file line
by line and finds at most one declaration per line, of the form `name: type = value;`. It
coerces the value text by its type name into a `VxdValue` and collects the results in a map from
name to value, which `get_variables` returns.

The model has six modules, one file each:

- `wrappers.dfy` (`Wrappers`): `Option` and `Result`.
- `text.dfy` (`Text`): the whitespace class and `str::trim`.
  - Both the `regex` crate's `\s` and `str::trim` use the Unicode `White_Space` property. `IsWs`
    lists its code points, so one predicate serves both.
- `matcher.dfy` (`Matcher`): the declaration pattern of `from_file`.
  - `MatchAt` is a scanner over characters, and `CapturesIter` iterates over its matches with the
    `(?m)^` anchor.
  - `DeclarationAt` and `Declares` state the grammar the pattern denotes. Soundness and
    completeness lemmas tie the scanner to the grammar, production by production.
- `numbers.dfy` (`Numbers`): Rust's decimal `str::parse` for the integer types.
  - `ParseInt` follows the library's procedure: an optional sign, then a checked digit-by-digit
    fold that gives up at the first bad character or overflow.
  - It is proved equal to an independent definition of integer literals and their values.
- `values.dfy` (`Values`): `VxdValue` (`Value`) and the `match vtype` coercion (`Coerce`).
- `parser.dfy` (`Parser`): the driver.
  - `FromFile` is a method with the source's two nested loops, updating a map variable, with an
    early return on the first failed read.
  - It is proved equal to the function `Parse`. The lemmas about `Parse` state what a
    successful parse holds and when the parse fails.

The file system is a parameter: a `Source` is either the error `File::open` raised or the
items `reader.lines()` yields, each a line without its line break or an I/O error. Float parsing
is a parameter too: `FloatParsers` holds two uninterpreted partial functions.

Where the crate's documentation and the code disagree, the model follows the code:

- **Malformed lines.** A line that does not match the pattern is skipped, not reported. This
  covers a missing `:` or `;` and an unknown type name such as `X: foo = 1;`. The crate
  documentation at `src/lib.rs:51-52` says both are errors. `NoColonOrNoSemicolonNoDeclaration`,
  `LineGrammar` and `FailsIffReadError` prove the code's behaviour.
- **The unsupported-type error is dead code.** The pattern admits only the nine type names
  `string i32 i64 u32 u64 f32 f64 bool char`, so the `_` arm of the coercion can never be taken.
  - These exact names are the only ones accepted: `int32` or `float64` do not match the pattern.
  - `InsertAllNeverFails` proves the arm unreachable. `FromFile` states it as `assert false` in
    that branch.
- **At most one declaration per line.** `(?m)^` matches only at the start of a line, and lines
  carry no line break, so `captures_iter` yields at most one match per line. Text after the
  first declaration's `;` is ignored, even a second declaration.
- **String values keep their quotes.** `key: string = "value";` stores `"value"` with the quote
  characters (`src/lib.rs:150`). The example at `src/lib.rs:59` suggests otherwise.
- **`char` does not check for `null`.** `key: char = null;` stores `Char('n')`, and `'a'`
  stores the quote character (`src/lib.rs:160`). The wording at `src/lib.rs:67` suggests
  otherwise.
- **No value has a line break.** The test at `tests/parsing_tests.rs:18` expects a value that
  holds a line break. No input can produce one, because the file is split into lines before
  matching; `NoValueHoldsLineBreak` proves it.

## Model

| member | source | states |
|---|---|---|
| Text.SkipWs | src/lib.rs:133 | a greedy `\s*` stops at the end of the text or at the first character outside the class |
| Text.Trim | src/lib.rs:142 | `trim` is no longer than its text and neither starts nor ends with whitespace; `TrimShape` and `TrimUnique` pin down what it removes |
| Text.TrimKeepsOut | src/lib.rs:142 | `trim` only removes characters: a character absent from a text is absent from its trimmed form |
| Text.TrimShape | src/lib.rs:142 | `trim` leaves a whitespace prefix and a whitespace suffix around a core that neither starts nor ends with whitespace |
| Text.TrimUnique | src/lib.rs:142 | any such split of a text gives exactly `trim`'s result, so the two properties define `trim` |
| Text.TrimSkipsLeading | src/lib.rs:142 | whitespace in front of a text does not change its trimmed form |
| Matcher.SpellsKeyword | src/lib.rs:133 | the character test the scanner uses for a type name holds exactly when the text holds that type name's letters |
| Matcher.KeywordsDistinct | src/lib.rs:133 | no two of the nine type names can both be spelled at the same position |
| Matcher.TagAt | src/lib.rs:133 | the alternation, tried left to right, finds only a type name that is actually spelled there |
| Matcher.TagAtComplete | src/lib.rs:133 | whatever type name is spelled at a position is the one the alternation finds, so the order of the alternatives does not matter |
| Matcher.MatchAt | src/lib.rs:133 | a match at a position is non-empty and ends within the text; what it accepts is stated by `MatchSound` and `MatchComplete` |
| Matcher.CapturesIter | src/lib.rs:139 | every match consumes at least one character, so a text yields at most as many matches as it has characters; which ones is stated by `AtMostOneDeclarationPerLine` |
| Matcher.FindSemicolon | src/lib.rs:133 | `[^;]*;` stops at a `;` |
| Matcher.FindSemicolonExact | src/lib.rs:133 | the first `;` after a run free of `;` is the one found |
| Matcher.MatchSound | src/lib.rs:133 | whatever the scanner accepts at a position is a declaration of the grammar, with the same captures and end |
| Matcher.MatchComplete | src/lib.rs:133 | every declaration of the grammar at a position is accepted by the scanner, with the same captures and the same end |
| Matcher.MatchAtIffDeclares | src/lib.rs:133 | the scanner yields captures at the start of a line exactly when the line begins with a declaration with those captures |
| Matcher.AtMostOneDeclarationPerLine | src/lib.rs:133-139 | on a line without a line break, `captures_iter` yields the match at the line's start and nothing else, so at most one declaration |
| Matcher.TextAfterDeclarationIgnored | src/lib.rs:133-139 | replacing everything after a declaration's `;` leaves the match unchanged |
| Matcher.NoColonOrNoSemicolonNoDeclaration | src/lib.rs:133-139 | a line without `:` or without `;` yields no declaration, and does not fail |
| Matcher.RawValueExtraction | src/lib.rs:142 | the raw value is the text between the line's first `=` and the first `;` after it, trimmed; without `=` it is empty |
| Numbers.ParseInt | src/lib.rs:153-156 | a parsed integer lies within the type's bounds; which texts parse, and to what, is stated by `ParseIntCorrect` |
| Numbers.AccumulateUpCorrect | src/lib.rs:153-156 | checking the upper bound after every digit rejects exactly the digit runs whose whole value exceeds it |
| Numbers.AccumulateDownCorrect | src/lib.rs:153-156 | the same for a negative number against the lower bound |
| Numbers.ParseIntCorrect | src/lib.rs:153-156 | integer parsing succeeds exactly on a sign (`-` only for signed types) and digits whose value fits the type, and then yields that value |
| Values.Value | src/lib.rs:78-89 | the ten variants of `VxdValue`, the integer payloads restricted to their Rust types' ranges and the floats held as IEEE 754 bit patterns of their width |
| Values.Coerce | src/lib.rs:145-162 | the coercion fails exactly for a type name outside the nine, with the message `Unsupported type: <name>`; otherwise the value has the named type or is `Null` |
| Values.StringCoercion | src/lib.rs:146-152 | a `string` value is `Null` exactly for the empty text and `null`; otherwise it is the text itself, quotes kept |
| Values.IntegerCoercion | src/lib.rs:153-156 | an integer type holds a number exactly when the text is a literal in the type's range, and then holds its value; everything else, overflow included, is `Null` and never an error |
| Values.BoolCoercion | src/lib.rs:159 | `bool` is `true` or `false` only for exactly those words, `Null` otherwise |
| Values.CharCoercion | src/lib.rs:160 | `char` holds the first character of any non-empty text, so `null` gives `Char('n')`; only the empty text gives `Null` |
| Values.NullForEveryType | src/lib.rs:146-160 | an empty text is `Null` under every type, and `null` is `Null` under every type but `char` |
| Parser.KeywordIsTypeName | src/lib.rs:161 | every type name the pattern admits has its own coercion arm |
| Parser.Decoded | src/lib.rs:140-162 | a match's value is the `Ok` result of coercing its trimmed raw value by its type name, and has that type or is `Null` |
| Parser.InsertAll | src/lib.rs:139-165 | the inner loop fails only with an `InvalidInput` error and otherwise only adds names to the map |
| Parser.InsertAllNeverFails | src/lib.rs:139-165 | the inner loop never takes the unsupported-type error: it inserts the coerced matches in order |
| Parser.LineGrammar | src/lib.rs:139 | a line yields a declaration exactly when it is one, read from its start, and a line that is none yields nothing |
| Parser.ParseLines | src/lib.rs:135-166 | the outer loop succeeds only if no read failed |
| Parser.Parse | src/lib.rs:126-169 | `from_file` succeeds only if the file opened and no read failed; the failures are stated by `ParseFails` |
| Parser.FromFile | src/lib.rs:126-169 | the nested loops with the early return compute exactly `Parse` of what the file yields |
| Parser.ParseLinesOk | src/lib.rs:135-166 | without a failed read, the parse succeeds with the declarations of the lines inserted in file order |
| Parser.FirstReadError | src/lib.rs:136 | the first failed read is the error of the whole parse |
| Parser.FailsIffReadError | src/lib.rs:135-136 | the loop fails exactly when some read fails, and only ever with that I/O error |
| Parser.ParseFails | src/lib.rs:129-136 | `from_file` fails exactly on an open error or a failed read, always with an I/O error, and never returns a partial map |
| Parser.AssignKeys | src/lib.rs:164 | after the insertions, the names defined are those from before plus those declared |
| Parser.AssignLastWins | src/lib.rs:164 | a name holds the value of its last insertion |
| Parser.AssignKeeps | src/lib.rs:164 | a name that no match declares keeps its value |
| Parser.AssignAppend | src/lib.rs:135-165 | inserting two runs of matches equals inserting the first run and then the second |
| Parser.VariableNames | src/lib.rs:164-168 | after a successful parse, `get_variables` holds exactly the names declared in the file, and nothing for an empty file |
| Parser.LastDeclarationWins | src/lib.rs:164 | after a successful parse, each name holds the coerced value of its last declaration in the file |
| Parser.MatchesAreDeclarations | src/lib.rs:135-139 | the matches `captures_iter` yields over all lines are the lines' declarations in file order, at most one per line |
| Parser.NoValueHoldsLineBreak | src/lib.rs:135-150 | after a successful parse, no text value holds a line break, so the value `tests/parsing_tests.rs:18` expects cannot occur |

## Left out

- File I/O: `File::open`, `BufReader` and `reader.lines()` (`src/lib.rs:129-130`, `135-136`) are
  replaced by the `Source` datatype, which holds the open error or the items the reader yields.
  How a file is split into lines and which I/O errors can occur are not modelled.
- The `regex` crate is not modelled. A character scanner stands in for it, and a grammar
  predicate states what the pattern denotes; the grammar is proved equivalent to the scanner,
  not to the crate.
- Floating-point parsing (`src/lib.rs:157-158`) is the parameter `FloatParsers`, holding two
  uninterpreted functions from text to an optional IEEE 754 bit pattern. Nothing is claimed
  about their numeric results. `NullForEveryType` assumes, through its precondition, that they
  reject the empty text and `null`, as Rust's float parsing does.
- `print_variables` (`src/lib.rs:193-208`) only prints and is not modelled.
- `HashMap`'s iteration order is unspecified; the model's `map` has no order.
- The inline tests (`src/lib.rs:210-227`) depend on fixture files whose contents are not part
  of this model.
- `tests/parsing_tests.rs` is not modelled as intended behaviour. The value with a line break it
  expects cannot be produced, as explained above.
- Parser.GetVariables: the getter has no contract of its own; what it returns is stated by
  `VariableNames` and `LastDeclarationWins`.
- `VxdeParser::from_file` takes a path. The model takes what opening that path yields instead,
  so the path itself does not appear.
