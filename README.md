# Command-log interpreter, modelled in Dafny

The program reads a log of text commands, one per line. It parses each line
into a command (`SET k v`, `GET k`, `DEL k`, `INCR k`, `FLUSH`) and applies it
to an in-memory key-value store, printing one reply per line: `OK`, `nil`,
or a stored value. The whole program is `src/main.rs`.

The model has seven modules:

- `Wrappers` holds the `Option` type shared by the others: `None` stands
  for Rust's `None` and for an `Err` that carries no information.
- `Parser` is the command grammar. It re-defines the nom combinators
  `tag`, `space1` and `alphanumeric1` as functions over strings and builds
  the five rules from them. `parse_command` is a chain of `if`s that tries
  the rules in the order `alt` does and builds each command as `map` does.
- `ParserProperties` proves the grammar's properties. The parser agrees
  with an independent grammar relation in both directions, the keyword
  rules exclude each other, and the remainder is left unconsumed. It also
  works through concrete accepted and rejected lines.
- `Decimal` models Rust's `str::parse::<i64>` and `i64::to_string`,
  which INCR relies on, with the round trip between them.
- `Store` holds the executor:
  - `Step` is one command's effect and reply as a function.
  - `Fold` feeds inputs to a step function in order until one fails.
  - The `KvStore` class owns the map and updates it in place through
    `Apply`, which is proved against `Step`.
- `StoreProperties` proves the per-command postconditions. It also proves
  the laws of `Fold`: prefix, append, stop at failure, and agreement of
  two folds. Finally, it proves that `n` INCRs count from an absent key
  to `n`.
- `Interpreter` holds the loop of `main`:
  - `Interpret` is the whole run as a value: a fold of "parse, then
    apply" over the lines.
  - `RunLine` is one iteration of the loop on a `KvStore` object, proved
    against `StepLine`.
  - `Run` is the imperative loop over a `KvStore` object, proved equal to
    `Interpret`.
  - The sample sessions are proved end to end.

Both panics in the program become explicit failures that end the run:
`ParseError` for the `unwrap` on `parse_command`, and `IncrTypeError` for the
`unwrap` on `parse::<i64>`. `value + 1` at `i64::MAX` is the third failure,
`IncrOverflow`; a debug build panics there. The replies given before a
failure are kept, and nothing after it is applied. The parser's error type
is `()`, so every parse failure is the same `Failed` and carries no rule
trail.

## Model

| member | source | states |
|---|---|---|
| Parser.Span | src/main.rs:97 | the length of the longest prefix whose characters satisfy the predicate: every character inside satisfies it, and the next one, if any, does not |
| Parser.TakeWhile1 | src/main.rs:97 | succeeds exactly when the first character satisfies the predicate; the input is output + remainder, the output is non-empty and satisfies the predicate, and the remainder does not start with a satisfying character |
| Parser.Tag | src/main.rs:93 | succeeds exactly when the keyword is a prefix (case-sensitive); the remainder is the rest of the input |
| Parser.Space1 | src/main.rs:97 | fails exactly on empty input or a first character that is not space or tab; otherwise it splits off a maximal separator run |
| Parser.Alphanumeric1 | src/main.rs:97 | fails exactly on empty input or a first character that is not an ASCII letter or digit; otherwise it splits off a maximal token, and the remainder cannot extend it |
| Parser.ParseKeywordArg | src/main.rs:96-98 | a success returns the keyword itself, and the keyword, separator, token and remainder it returns concatenate back to the input |
| Parser.ParseGet | src/main.rs:100-102 | a success is GET, a separator, a key token and a remainder that cannot extend the key, concatenating back to the input |
| Parser.ParseDelete | src/main.rs:96-98 | a success is DEL, a separator, a key token and a remainder that cannot extend the key, concatenating back to the input |
| Parser.ParseIncr | src/main.rs:110-112 | a success is INCR, a separator, a key token and a remainder that cannot extend the key, concatenating back to the input |
| Parser.ParseFlush | src/main.rs:92-94 | succeeds exactly on the inputs starting with FLUSH, and the remainder is everything after the keyword |
| Parser.ParseSet | src/main.rs:104-108 | a success is SET, separator, token, separator, token and a remainder that cannot extend the last token, concatenating back to the input |
| Parser.ParseCommand | src/main.rs:63-90 | a success starts with its command's keyword, carries only non-empty alphanumeric keys and values, and leaves a proper suffix of the input as remainder; that remainder cannot continue the last token, except after FLUSH |
| ParserProperties.TakeWhile1Exact | src/main.rs:97 | a maximal run followed by a character outside it is taken whole |
| ParserProperties.ConcatTag | src/main.rs:93 | a keyword followed by anything is matched with that remainder |
| ParserProperties.KeywordArgSound | src/main.rs:96-102 | what the shared one-argument shape returns is a separator, a token, and a remainder that cannot extend the token |
| ParserProperties.KeywordArgExact | src/main.rs:96-102 | keyword, separator, token and a non-extending remainder parse to exactly those parts |
| ParserProperties.SetExact | src/main.rs:104-108 | SET with two separated tokens parses to exactly its five parts |
| ParserProperties.KeywordsDistinct | src/main.rs:65-84 | no keyword is a prefix of another: two keywords both prefixing one input are the same |
| ParserProperties.ParseGetShape | src/main.rs:66-68 | "GET" sp k rest parses to Get(k) with remainder rest |
| ParserProperties.ParseSetShape | src/main.rs:69-74 | "SET" sp1 k sp2 v rest parses to Set(k, v) with remainder rest |
| ParserProperties.ParseDelShape | src/main.rs:75-77 | "DEL" sp k rest parses to Del(k) with remainder rest |
| ParserProperties.ParseIncrShape | src/main.rs:81-83 | "INCR" sp k rest parses to Incr(k) with remainder rest |
| ParserProperties.ParseFlushShape | src/main.rs:78-80 | "FLUSH" rest parses to Flush with remainder rest, whatever rest is |
| ParserProperties.ParseComplete | src/main.rs:63-112 | whatever the grammar relation derives, the parser returns, with the same remainder |
| ParserProperties.ParseSound | src/main.rs:63-112 | every successful parse is a derivation of the grammar relation |
| ParserProperties.ParseIff | src/main.rs:63-112 | the parser returns (rest, c) if and only if the grammar derives c with remainder rest |
| ParserProperties.DerivesUnique | src/main.rs:63-112 | an input derives at most one command and one remainder |
| ParserProperties.FailsIffNoDerivation | src/main.rs:63-112 | the parser fails exactly when no command derives the input: there are no partial commands |
| ParserProperties.RulesExclusive | src/main.rs:65-84 | at most one of the five alternatives succeeds on any input, so their order does not change the result |
| ParserProperties.ExampleGet | src/main.rs:100-102 | "GET foo" parses to Get("foo") with nothing left |
| ParserProperties.ExampleTrailing | src/main.rs:22 | "GET a b" parses to Get("a") and leaves " b", which the loop discards |
| ParserProperties.ExampleSet | src/main.rs:104-108 | "SET a b" parses to Set("a", "b") |
| ParserProperties.ExampleSeparators | src/main.rs:107 | tabs and runs of spaces separate, and punctuation ends a token: "SET\tk1  v2!" gives Set("k1", "v2") and leaves "!" |
| ParserProperties.ExampleDel | src/main.rs:96-98 | "DEL a" parses to Del("a") |
| ParserProperties.ExampleIncr | src/main.rs:110-112 | "INCR n" parses to Incr("n") |
| ParserProperties.ExampleFlush | src/main.rs:92-94 | "FLUSH" parses to Flush, and "FLUSHALL" parses to Flush leaving "ALL" |
| ParserProperties.ExampleMissingValue | src/main.rs:107 | "SET a" fails |
| ParserProperties.ExampleGlued | src/main.rs:101 | "GETx" fails: the separator is required |
| ParserProperties.ExampleBareKeyword | src/main.rs:97 | "DEL " fails: the argument is required |
| ParserProperties.ExampleUnknownKeyword | src/main.rs:65-84 | "FOO bar" fails, and so does "get a": keywords are case-sensitive |
| Decimal.DigitChar | src/main.rs:43 | the digit character for a value below ten, inverse to its value |
| Decimal.ShowNat | src/main.rs:43 | the decimal form is non-empty, has no leading zero unless it is "0", and reads back to the number |
| Decimal.ShowInt | src/main.rs:43 | `to_string` is never empty and starts with `-` exactly for negative numbers; its value is in `ShowIntValue` and its canonical form in `ShowIntCanonical` |
| Decimal.ShowIntValue | src/main.rs:43 | `to_string` writes an optional sign and digits that denote the number again, whatever its size; with `ShowIntCanonical`, the sign is only ever `-` |
| Decimal.ShowIntCanonical | src/main.rs:43 | `to_string` writes the canonical form: never a `+`, and no leading zero unless the number is zero |
| Decimal.ParseI64 | src/main.rs:42 | a successful parse lies in the 64-bit signed range |
| Decimal.ParseI64Meaning | src/main.rs:42 | `parse::<i64>` succeeds exactly on one optional `+` or `-` followed by one or more ASCII digits whose signed value fits in 64 bits, and then returns that value |
| Decimal.ParseShowRoundTrip | src/main.rs:42-43 | `parse` after `to_string` gives back every 64-bit value and rejects every value outside the range instead of wrapping it; INCR writes and reads this text |
| Decimal.ParseDigits | src/main.rs:42 | the digit reader of `parse::<i64>` succeeds exactly on non-empty strings of ASCII digits |
| Decimal.ParseDigitsValue | src/main.rs:42 | the value the digit reader computes is the positional value of the digits, most significant first |
| Decimal.ParseRejects | src/main.rs:42 | "hello", "-", "" and "+-1" are not integers |
| Decimal.ParseAccepts | src/main.rs:42 | "0", "+7", "-12" and "007" parse to 0, 7, -12 and 7 |
| Store.Step | src/main.rs:24-50 | only INCR can fail, and never with a parse error; every successful command except GET replies "OK"; GET leaves the store unchanged |
| Store.Fold | src/main.rs:20-51 | the run fails exactly when it replies to fewer inputs than it was given, and never replies more than once per input |
| Store.Execute | src/main.rs:24-50 | executing commands in order replies once per applied command, and fails exactly when some command is left without a reply |
| Store.KvStore.constructor | src/main.rs:18 | the store starts empty |
| Store.KvStore.Apply | src/main.rs:24-50 | on success the map becomes exactly the one `Step` gives, and the reply is returned; on failure the map is unchanged and the failure is returned |
| StoreProperties.SetThenGet | src/main.rs:25-35 | after Set(k, v), k maps to v, every other key is as it was, and Get(k) replies v |
| StoreProperties.GetReplies | src/main.rs:29-35 | GET leaves the store unchanged and replies the stored value; it replies "nil" exactly when the key is absent or holds the text "nil" |
| StoreProperties.DelRemovesOnlyKey | src/main.rs:36-39 | DEL removes the key and nothing else, replies "OK", and leaves the store unchanged on an absent key |
| StoreProperties.DelIdempotent | src/main.rs:36-39 | deleting twice is deleting once |
| StoreProperties.IncrAbsent | src/main.rs:40-44 | INCR on an absent key stores "1" and replies "OK" |
| StoreProperties.IncrNumeric | src/main.rs:40-44 | INCR on a stored integer below the maximum stores its successor's decimal form and changes no other key |
| StoreProperties.IncrAfterIncr | src/main.rs:42-43 | a value INCR wrote is read back by the next INCR |
| StoreProperties.IncrFailures | src/main.rs:42-43 | INCR on a non-integer fails with IncrTypeError, and INCR at i64::MAX fails with IncrOverflow |
| StoreProperties.FlushClears | src/main.rs:46-48 | FLUSH empties the store, so any later GET replies "nil" |
| StoreProperties.FoldHalt | src/main.rs:20-22 | a first input that fails ends the run in the store it found, with no reply |
| StoreProperties.FoldCons | src/main.rs:20-51 | a first input that succeeds contributes its reply and hands its store to the rest |
| StoreProperties.FoldNextHalt | src/main.rs:20-51 | one success then a failure give one reply and stop, whatever follows |
| StoreProperties.FoldAfterHalt | src/main.rs:20-51 | after earlier replies, a failing input ends the run keeping those replies |
| StoreProperties.FoldAfterNext | src/main.rs:20-51 | after earlier replies, a succeeding input appends its reply and continues from its store |
| StoreProperties.FoldStopsAtFailure | src/main.rs:20-51 | a failing run stops at the first failing input: the replies cover exactly the inputs before it, and running those alone gives the same replies and store |
| StoreProperties.FoldAppend | src/main.rs:20-51 | running a then b equals running a + b, and nothing of b is applied after a failure in a |
| StoreProperties.FoldAgree | src/main.rs:20-51 | two runs whose steps agree input by input give the same trace |
| StoreProperties.ExecuteAllOk | src/main.rs:20-51 | commands that each reply "OK" through given stores give n "OK"s and end in the last store |
| StoreProperties.IncrStepAt | src/main.rs:40-44 | INCR moves a counter from the decimal form of j to that of j + 1 |
| StoreProperties.IncrSteps | src/main.rs:40-44 | n INCRs from m pass through the decimal forms of m + 1, ..., m + n, each replying "OK" |
| StoreProperties.IncrFrom | src/main.rs:40-44 | n INCRs on the decimal form of m leave the decimal form of m + n |
| StoreProperties.IncrFromOne | src/main.rs:40-44 | the INCRs after the first on a new key continue counting from "1" |
| StoreProperties.IncrCounts | src/main.rs:40-44 | n INCRs from an absent key leave it equal to the decimal form of n, and each replies "OK" |
| StoreProperties.ExecuteCons | src/main.rs:24-50 | a succeeding first command replies first and hands its store on |
| Interpreter.StepLine | src/main.rs:22-50 | a line fails with ParseError exactly when it does not parse; otherwise it has the effect of its command |
| Interpreter.Interpret | src/main.rs:20-51 | the whole run as a value: `StepLine` folded over the lines from the given store, stopping at the first failure; `Run` is proved equal to it |
| Interpreter.RunLine | src/main.rs:21-50 | one iteration on a `KvStore` object: on success the map and the reply are exactly what `StepLine` gives; on failure the map is unchanged and the failure is returned |
| Interpreter.Run | src/main.rs:16-52 | the loop over a KvStore object returns exactly the replies and failure of the run as a value |
| Interpreter.InterpretParsed | src/main.rs:20-24 | when every line parses, running the lines is executing their commands; the text after a command plays no part |
| Interpreter.InterpretFailingLine | src/main.rs:20-51 | a failed run stopped at a line that either does not parse (exactly the ParseError case) or whose command fails on the store reached; every earlier line was applied and replied to |
| Interpreter.ParsesSetA1 | src/main.rs:104-108 | "SET a 1" parses to Set("a", "1") |
| Interpreter.ParsesIncrA | src/main.rs:110-112 | "INCR a" parses to Incr("a") |
| Interpreter.ParsesGetA | src/main.rs:100-102 | "GET a" parses to Get("a") |
| Interpreter.SessionParses | src/main.rs:63-112 | each line of the sample session parses to its command |
| Interpreter.SessionEnd | src/main.rs:29-48 | GET, DEL, GET, FLUSH on {a: "2"} reply 2, OK, nil, OK and empty the store |
| Interpreter.IncrOneToTwo | src/main.rs:40-44 | INCR turns the stored "1" into "2" |
| Interpreter.SessionExecutes | src/main.rs:24-50 | the sample session's commands reply OK, OK, 2, OK, nil, OK and leave the store empty |
| Interpreter.Session | src/main.rs:16-52 | the lines SET a 1, INCR a, GET a, DEL a, GET a, FLUSH reply OK, OK, 2, OK, nil, OK |
| Interpreter.ParsesSetAHello | src/main.rs:104-108 | "SET a hello" parses to Set("a", "hello") |
| Interpreter.IncrOnHello | src/main.rs:42 | INCR on the stored text "hello" fails with IncrTypeError |
| Interpreter.SessionIncrTypeError | src/main.rs:16-52 | SET a hello, INCR a replies OK once, then halts with IncrTypeError, keeping "hello" |
| Interpreter.SessionParseError | src/main.rs:20-22 | SET a b, get a, DEL a replies OK once, then halts with ParseError; the DEL is never applied |

## Left out

- Opening `commands.log` and reading it line by line (src/main.rs:17, 20-21) are not modelled. The lines are a parameter of `Run`, so an I/O error and the stripping of line terminators are outside the model.
- `println!` is not modelled. Each reply is returned as a string in order instead of printed.
- The nom crate itself is not part of this model. The combinators the program uses are re-defined with their documented behaviour on `&str`:
  - `tag` is a case-sensitive prefix;
  - `space1` is a run of spaces and tabs;
  - `alphanumeric1` is a run of ASCII letters and digits.
- `context` only labels errors, and the error type is `()`, so it is dropped.
- `alt` over `map` is written as the five rules tried in order, each mapped to its command.
- A parse failure carries no rule-context trail. `context` could attach one only with a richer error type than `()`, which the program does not use.
- `HashMap` hashing and iteration order are not modelled. The store is a Dafny `map<string, string>`, and no operation depends on order.
- Panics are not modelled as unwinding or process exit. A panic is a failure that ends the run and keeps the store and replies reached before it.
- `value + 1` at `i64::MAX` is treated as the failure `IncrOverflow`, matching a debug build. The wrap-around of a release build is not modelled.
- `entry(key).or_insert("0")` is modelled as written in `KvStore.Apply`: it inserts "0" before reading. `Step` describes only the net effect. Because "0" always parses, the difference is never visible.
- Strings are sequences of characters. Non-ASCII characters are neither separators nor alphanumerics, as in the combinators above. Byte-level UTF-8 encoding is not modelled.
