# Polo, modelled in Dafny

Polo is a bi-temporal fact ledger: facts carry the time they hold and the time they were recorded, live on
branches of namespaces, and are read as of a past time, queried in a small language (PQL), merged, compared,
collected and restored. This project models its core and proves what it keeps.

- `Base`, `Strings`, `StableSort`: results, ordering of strings, and the stable sort with its uniqueness.
- `Hlc`, `Clock`: the packed timestamp and the lock-free clock. Loads and compare-and-swaps are separate steps of
  any number of threads on any number of nodes; wall readings are inputs that may go backwards.
- `PqlSyntax`, `PqlLexis`, `PqlLexer`, `PqlText`: tokens, what each text lexes to, the lexer, and the text of tokens.
- `PqlGrammar`, `PqlParser`, `PqlPrinter`, `PqlQueryPrinter`, `Pql`: the grammar, the recursive-descent parser, the
  printer, and the round trip from queries to text and back.
- `Like`, `Ledger`, `PqlEval`: LIKE, facts and scans, and the evaluator with its pushdown. `PqlMeaning`: what filters,
  rows and orders mean on the fields of facts.
- `Store`, `MemoryStore`: what each store operation does to the state, and the class whose methods do it in place.
  `Writes`: the same, field by field.
- `Reads`, `Merge`, `Diff`, `Gc`: what reads, merges, differences and collections mean.
- `StoreRuns`, `AsofChanges`, `AsofRuns`: invariants over whole runs of operations, what each operation does to a read,
  and reads over whole runs.
- `Concurrent`: operations whose tick and application are separate steps, over the clock protocol and one store.
- `Retention`, `RetentionHistory`, `RetentionPass`, `RetentionLoops`: retention of one key, of histories, and over all
  keys of all branches. `RetentionTurns`, `RetentionExact`: turn after turn, exactly. `RetentionCounts`: what is
  counted.
- `Generators`, `Db`, `Restore`, `Requests`: the database's loops over the store, dump and restore, query requests.

Facts have opaque string ids. Clock ticks, fact ids, transaction ids and wall readings are inputs: functions of how
many were drawn before. A theorem that needs fresh ids says that the generator is injective. Each store call is one
atomic step. A method of the store or the database states its new state as a function of the old one; the lemmas are
about those functions.

Where the code departs from its documentation or tests, the model follows the code:

- LIMIT and OFFSET are pushed below ORDER BY when there is no WHERE; the exact condition under which that is harmless
  is `PqlEval.PushdownIsSafe`. `pql::run` on such a query ignores LIMIT, against
  `pkg/polo-core/tests/core_tests.rs:315`.
- Merge and diff index a branch by the oldest live fact of each key, not the newest.
- A merge refused under ErrorOnConflict can have recorded facts.
- The repository's README says a retraction writes a new fact; the code changes the fact in place, so past answers
  change. It also says a branch forks the fact tree; a created branch starts without facts.
- `before_ms` is documented in milliseconds, with zero for no cutoff; the code compares it with the packed timestamp
  (16 more bits), and zero collects nothing.
- The clock's comment gives 65535 timestamps for each millisecond; the bound is 65536.
- `max_age_secs` is an age in seconds, turned to milliseconds; the code compares the cutoff with the packed timestamp
  here too, so with clock readings of today an age limit lets nothing go, unless the age exceeds the clock and the
  subtraction wraps.
- A retention policy without any threshold retracts every live fact. Retracted facts count as versions of the first
  live key of each branch, whose turn collects them.
- A merge stamps its facts with a clock made for it, which does not know the shared clock's counter: two ticks of the
  shared clock in the merge's millisecond put the merge in the past of reads already made.
- `record`, `bulk_record` and `retract` tick and apply in two steps, so a read at the present can change while a call
  is under way.
- Dump lists newest first and restore stamps in line order, so restored history is reversed. A retracted fact comes
  back live, unless it was retracted no later than it became valid: then its line is refused and skipped.

## Model

| member | source | states |
|---|---|---|
| `Hlc.PackingRoundTrips` | pkg/polo-core/src/clock.rs:29-39 | a timestamp gives back its physical and logical parts if and only if the physical part fits 48 bits |
| `Hlc.IntegerOrderIsPairOrder` | pkg/polo-core/src/clock.rs:11-39 | comparing packed integers compares milliseconds first, then the counter |
| `Hlc.DisplayParses` | pkg/polo-core/src/clock.rs:54-71 | the 16-digit hexadecimal text of every timestamp parses back to it |
| `Hlc.DisplayOrder` | pkg/polo-core/src/clock.rs:54-58 | texts compare lexicographically as the timestamps compare |
| `Hlc.AnyCasingParses` | pkg/polo-core/src/clock.rs:66-71 | the displayed text parses back with any of its letters as capitals |
| `Hlc.PrefixesParse` | pkg/polo-core/src/clock.rs:66-71 | `0x` before a text changes nothing, nor does one plus sign before a digit |
| `Hlc.ParsedTextIsHex` | pkg/polo-core/src/clock.rs:66-71 | a text that parses is digits after every `0x` and at most one sign, and at least one digit |
| `Clock.TickAdvancesExactly` | pkg/polo-core/src/clock.rs:87-111 | one `tick` iteration spins if and only if the reading is not ahead and the counter is exhausted; otherwise it moves the word strictly up if and only if the reading loses no bits that decide the comparison |
| `Clock.TickIsLeast` | pkg/polo-core/src/clock.rs:87-111 | `tick` takes the least timestamp that is after its word and not before the reading |
| `Clock.SpinsExactly` | pkg/polo-core/src/clock.rs:87-100 | `tick` spins if and only if every such timestamp is in a later millisecond than a word the reading is not ahead of |
| `Clock.ObserveAdvancesExactly` | pkg/polo-core/src/clock.rs:126-148 | `observe` never goes below the word or the received timestamp, and passes both strictly if and only if no winning counter is saturated |
| `Clock.ObserveIsLeast` | pkg/polo-core/src/clock.rs:126-148 | `observe` takes the least timestamp that is after its word and the one received and not before the reading; if a winner is saturated, the greater of the two, the last of its millisecond |
| `Clock.SaturatesExactly` | pkg/polo-core/src/clock.rs:126-148 | a winner is saturated exactly if the greater input is the last timestamp of its millisecond and the reading is not ahead of it |
| `Clock.RunInv` | pkg/polo-core/src/clock.rs:87-149 | every interleaving of loads, compare-and-swaps, starts, returns and messages keeps the protocol invariant: commits ordered per node and along messages, calls tied to their commit, bounded drift |
| `Clock.ClockNeverGoesBack` | pkg/polo-core/src/clock.rs:87-153 | after any further steps a node's word is not smaller |
| `Clock.TicksAreDistinct` | pkg/polo-core/src/clock.rs:87-111 | no two ticks of a node return the same timestamp, for any number of threads and any readings |
| `Clock.RealTimeOrder` | pkg/polo-core/src/clock.rs:87-149 | a call that starts after another returned returns no less, and strictly more if it is a `tick` |
| `Clock.DriftRejectionChangesNothing` | pkg/polo-core/src/clock.rs:116-124 | beginning an `observe` leaves words and calls alone exactly when the timestamp is more than 60 s ahead |
| `Clock.DriftIsBounded` | pkg/polo-core/src/clock.rs:23-149 | no timestamp issued is more than 60000 ms above the largest reading its node has taken |
| `Clock.TicksPerMillisecond` | pkg/polo-core/src/clock.rs:87-111 | at most 65536 ticks of a node share one physical millisecond |
| `Clock.HappensBeforeNeverFalls` | pkg/polo-core/src/clock.rs:87-149 | along any chain of same-node and message steps the last timestamp is not below the first, saturated observes included |
| `Clock.HappensBeforeIsOrdered` | pkg/polo-core/src/clock.rs:87-149 | and strictly above it as soon as one commit after the first is a tick or an unsaturated observe |
| `Like.LikeMatch` | pkg/polo-core/src/pql/eval.rs:251-275 | the leftmost-greedy matcher returns true exactly when some choice of strings for the `%` signs gives the input |
| `Like.WildMiddle` | pkg/polo-core/src/pql/eval.rs:267-271 | for a part between two `%` signs, the leftmost occurrence is as good as any |
| `Like.WildLast` | pkg/polo-core/src/pql/eval.rs:263-266 | for the part after the last `%`, the rest matches exactly when it ends with the part |
| `Strings.CompareStrIs` | pkg/polo-core/src/pql/eval.rs:245 | strings compare by the first character that differs, and a proper prefix comes first |
| `PqlParser.Parser.OrExpr` | pkg/polo-core/src/pql/parser.rs:119-127 | from any position, gives the tree, the rest or the error of the OR level of the grammar |
| `PqlParser.Parser.AndExpr` | pkg/polo-core/src/pql/parser.rs:129-137 | the same for the AND level |
| `PqlParser.Parser.NotExpr` | pkg/polo-core/src/pql/parser.rs:139-146 | the same for the NOT level |
| `PqlParser.Parser.Predicate` | pkg/polo-core/src/pql/parser.rs:148-244 | the same for comparisons, LIKE, IN and IS NULL |
| `PqlParser.Parser.Literals` | pkg/polo-core/src/pql/parser.rs:216-224 | the same for the literal list of IN |
| `PqlParser.Parser.Atom` | pkg/polo-core/src/pql/parser.rs:246-260 | the same for names, literals and parentheses |
| `PqlParser.Parser.Columns` | pkg/polo-core/src/pql/parser.rs:88-113 | the same for the column list, a trailing comma included |
| `PqlParser.Parser.OrderItems` | pkg/polo-core/src/pql/parser.rs:274-306 | the same for ORDER BY items |
| `PqlParser.Parser.Clause` | pkg/polo-core/src/pql/parser.rs:40-75 | the same for one clause of the loop, a later clause of a kind replacing an earlier one |
| `PqlParser.Parser.Parse` | pkg/polo-core/src/pql/parser.rs:17-86 | the parser computes the grammar's query or error for every token list |
| `PqlPrinter.PrintParses` | pkg/polo-core/src/pql/parser.rs:115-272 | a well-formed tree, printed, parses back to itself and leaves exactly the tokens that follow |
| `PqlPrinter.PrintIsShortest` | pkg/polo-core/src/pql/parser.rs:115-272 | no tokens that parse to a tree are fewer than those printed, so with any printed pair of parentheses left out the rest parses to another tree or not at all |
| `PqlPrinter.ParsesExactlyWellFormed` | pkg/polo-core/src/pql/parser.rs:115-272 | the trees the parser can produce are exactly those whose IN lists are not empty |
| `PqlQueryPrinter.QueryParses` | pkg/polo-core/src/pql/parser.rs:17-86 | the tokens of columns, namespace and any list of clauses parse to those clauses applied in order |
| `PqlQueryPrinter.ClauseOrderIsIrrelevant` | pkg/polo-core/src/pql/parser.rs:33-74 | clauses given once each give the same query in any order |
| `PqlQueryPrinter.PrintedQueryParses` | pkg/polo-core/src/pql/parser.rs:17-86 | every printable query, printed, parses back to itself |
| `PqlLexer.Lexer.TokenizeAll` | pkg/polo-core/src/pql/lexer.rs:17-28 | the lexer computes the token list or error of its specification, on every text |
| `PqlLexer.Lexer.Next` | pkg/polo-core/src/pql/lexer.rs:105-178 | from any position, the next token, the rest or the error |
| `PqlLexer.Lexer.Word` | pkg/polo-core/src/pql/lexer.rs:150-175 | keywords and the two-word keywords, with what is consumed when the second word is missing |
| `PqlLexer.Lexer.IdentIfKeyword` | pkg/polo-core/src/pql/lexer.rs:180-195 | reads a word and goes back when it is not the one expected |
| `PqlLexer.Lexer.StringLiteral` | pkg/polo-core/src/pql/lexer.rs:56-79 | string text with its escapes, and both unterminated errors |
| `PqlLexer.Lexer.Number` | pkg/polo-core/src/pql/lexer.rs:81-103 | integers within 64 bits, floats, and both errors |
| `PqlText.EscapedReads` | pkg/polo-core/src/pql/lexer.rs:56-79 | every string, escaped, reads back |
| `PqlText.IntTextReads` | pkg/polo-core/src/pql/lexer.rs:98-102 | the decimal text of every 64-bit integer parses back |
| `PqlText.WordReads` | pkg/polo-core/src/pql/lexer.rs:48-54 | a word ends exactly before a character that is not a letter, a digit, an underscore or a slash |
| `PqlText.KeywordReads` | pkg/polo-core/src/pql/lexer.rs:150-175 | every keyword is read in any casing, if and only if the word ends there |
| `PqlText.IntegersFitExactly` | pkg/polo-core/src/pql/lexer.rs:98-102 | a decimal text with either sign or none is an integer if and only if it fits 64 bits |
| `PqlText.IntegersAreDigits` | pkg/polo-core/src/pql/lexer.rs:98-102 | an integer is digits after its sign, at least one |
| `PqlText.LeadingZerosAreIgnored` | pkg/polo-core/src/pql/lexer.rs:98-102 | a zero before the digits of an integer changes nothing |
| `PqlText.FloatsAreAccepted` | pkg/polo-core/src/pql/lexer.rs:94-97 | digits, a point and digits, an exponent: every text put together like a float is accepted |
| `PqlText.AcceptedAreFloats` | pkg/polo-core/src/pql/lexer.rs:94-97 | and every text accepted as a float is put together so |
| `PqlText.OtherEscapesStay` | pkg/polo-core/src/pql/lexer.rs:66-71 | a backslash before any other character stays in the string, the character after it |
| `PqlText.OtherCharactersAreRefused` | pkg/polo-core/src/pql/lexer.rs:105-178 | a character is refused if and only if no token starts with it |
| `PqlText.WrittenTokenReads` | pkg/polo-core/src/pql/lexer.rs:105-178 | every writable token's text reads back as that token and leaves the rest, if and only if the token ends before what follows |
| `PqlText.StandingTouches` | pkg/polo-core/src/pql/lexer.rs:105-178 | strings, punctuation and operators may touch their neighbours, but for `=` and a point on the right |
| `PqlText.WrittenTokensRead` | pkg/polo-core/src/pql/lexer.rs:17-178 | a list of writable tokens lexes to that list and the end marker with any casing of keywords, any white space, and none where a token ends before the next begins |
| `Pql.Parse` | pkg/polo-core/src/pql/mod.rs:12-15 | parsing a text is lexing it and parsing the tokens, with the first error |
| `Pql.WrittenQueryParses` | pkg/polo-core/src/pql/mod.rs:12-15 | every readable query, written as text with any such casing and spacing, parses back to itself |
| `StableSort.StableSortUnique` | pkg/polo-core/src/pql/eval.rs:57-66 | a sequence is sorted and keeps equal elements in input order exactly if it is the stable sort, so any stable algorithm computes it |
| `StableSort.FilterSort` | pkg/polo-core/src/pql/eval.rs:44-66 | filtering commutes with a stable sort |
| `StableSort.SortTwice` | pkg/polo-core/src/pql/eval.rs:57-66 | sorting by a minor key and then by a major key is one lexicographic sort |
| `PqlEval.RepeatedSortsAreLexicographic` | pkg/polo-core/src/pql/eval.rs:57-66 | stable sorts over the reversed key list are one sort by (key 1, key 2, ...), ties in input order |
| `PqlEval.UnknownKeyIsNoOp` | pkg/polo-core/src/pql/eval.rs:277-285 | a key that names no sortable column changes nothing |
| `PqlEval.Eval` | pkg/polo-core/src/pql/eval.rs:43-76 | the filter, sort and page steps, rows being facts |
| `PqlMeaning.ComparisonMeaning` | pkg/polo-core/src/pql/eval.rs:176-223 | a comparison holds if and only if both operands stand for literals, a column for the field of its name, that the operator relates |
| `PqlMeaning.ValueAgainstInteger` | pkg/polo-core/src/pql/eval.rs:176-249 | for an integer literal each operator holds of an integer value as in arithmetic; a value of another kind only differs, a float besides by its comparison, no value at all fails |
| `PqlMeaning.ValueAgainstText` | pkg/polo-core/src/pql/eval.rs:176-249 | for a string literal each operator holds of a text value by the first differing character |
| `PqlMeaning.ValueAgainstBool` | pkg/polo-core/src/pql/eval.rs:176-249 | for a boolean literal each operator holds of a boolean value, false before true |
| `PqlMeaning.TextColumns` | pkg/polo-core/src/pql/eval.rs:207-223 | entity, attribute, branch, namespace and author are the texts of the fact's fields |
| `PqlMeaning.Trichotomy` | pkg/polo-core/src/pql/eval.rs:176-249 | of integers, strings or booleans exactly one of `<`, `=` and `>` holds, and the other operators follow |
| `PqlMeaning.OperandsExchange` | pkg/polo-core/src/pql/eval.rs:176-249 | exchanging the operands exchanges `<` with `>` and `<=` with `>=`, if floats compare so |
| `PqlMeaning.IsNullMeaning` | pkg/polo-core/src/pql/eval.rs:142-155 | IS NULL selects exactly the facts whose column has no value, which are those that fail every comparison of it with a literal; IS NOT NULL the others |
| `PqlMeaning.InMeaning` | pkg/polo-core/src/pql/eval.rs:164-171 | IN is the disjunction of the equalities with its members |
| `PqlMeaning.LikeMeaning` | pkg/polo-core/src/pql/eval.rs:156-163 | LIKE matches the column's text, empty if it has none, by wildcard semantics |
| `PqlMeaning.ConnectivesMean` | pkg/polo-core/src/pql/eval.rs:137-172 | AND, OR and NOT are those of logic, and a name or literal alone lets every fact pass |
| `PqlMeaning.OnlyColumnsAreTested` | pkg/polo-core/src/pql/eval.rs:142-171 | on anything but a column IS NULL, IN and LIKE fail and IS NOT NULL holds, and only columns and literals can be compared |
| `PqlEval.ExtractIsImplied` | pkg/polo-core/src/pql/eval.rs:299-322 | the entity and attribute pushed down are implied by the filter, repeated conjuncts included |
| `PqlEval.ExtractIsLast` | pkg/polo-core/src/pql/eval.rs:287-322 | what is pushed down is the last equality conjunct on entity and on attribute, if there is one |
| `PqlEval.FilteredPushdown` | pkg/polo-core/src/pql/eval.rs:19-41 | with a WHERE, scanning what was pushed down and evaluating gives what the query says |
| `PqlEval.UnsafePushdown` | pkg/polo-core/src/pql/eval.rs:31-40 | for every unsafe query, a store on which pushing LIMIT or OFFSET below ORDER BY gives a wrong answer |
| `PqlEval.PushdownPreservesMeaningExactly` | pkg/polo-core/src/pql/eval.rs:19-76 | scan plus evaluation equals filtering, ordering and paging the visible facts on every store if and only if the query has a WHERE, a page that cuts nothing, or an order that keeps newest first |
| `PqlMeaning.RowsAreExactly` | pkg/polo-core/src/pql/eval.rs:19-76 | without a page, the rows are exactly the live facts of the namespace and branch not later than AS OF, valid at EFFECTIVE AT, that pass the WHERE |
| `PqlMeaning.ValidityShowsExactly` | internal/polo-store/src/memory.rs:205-211 | a fact is among the rows of EFFECTIVE AT exactly from its first instant until before its last |
| `PqlMeaning.RowsAreOrdered` | pkg/polo-core/src/pql/eval.rs:57-66 | of two rows the later never comes before the earlier by the first key that tells them apart, on the fields, and where none does the newer is first |
| `PqlMeaning.AnswerIsPaged` | pkg/polo-core/src/pql/eval.rs:68-73 | row i of a page is row offset + i of the rows without one, up to the limit |
| `PqlEval.EvaluateAloneIgnoresPage` | pkg/polo-core/src/pql/eval.rs:68-73 | without a WHERE, evaluating given facts ignores LIMIT and OFFSET; it agrees with paging exactly if the page cuts nothing |
| `Requests.RunRequest` | internal/polo-server/src/api/query.rs:35-42 | a query request: parse, scan what is pushed down, evaluate |
| `Requests.WrittenQueriesAnswerExactly` | internal/polo-server/src/api/query.rs:35-42 | from text to rows: however a query is cased and spaced, its rows are what it says on every store if and only if its pushdown is safe |
| `Requests.WrittenQueriesSelect` | internal/polo-server/src/api/query.rs:35-42 | the rows of a written query without a page are exactly the facts it selects, on their fields, in the order of its keys |
| `Requests.PastQueriesRepeat` | internal/polo-server/src/api/query.rs:35-42 | a query AS OF a past time has the same rows after any run of later records, bulk records, merges and collections |
| `MemoryStore.MemoryStore.Record` | internal/polo-store/src/memory.rs:85-150 | one atomic record: idempotency, the fact, the transaction count, the head and the cache, with the whole new state |
| `MemoryStore.MemoryStore.CountFact` | internal/polo-store/src/memory.rs:117-131 | the first transaction with the id counts one more, or a new one is appended |
| `Writes.RecordWrites` | internal/polo-store/src/memory.rs:85-150 | what a record appends, field by field, with its transaction, its branch's head and its key, and what stays |
| `Writes.NewStoreHolds` | internal/polo-store/src/memory.rs:30-61 | a new store has no facts and one namespace with its main branch |
| `MemoryStore.MemoryStore.Retract` | internal/polo-store/src/memory.rs:152-181 | the first matching live fact is retracted in place, a transaction appended, the head set; or not found and nothing changes |
| `Writes.RetractRefusedExactly` | internal/polo-store/src/memory.rs:152-162 | a retract is refused if and only if the branch has no live fact of the id |
| `Writes.RetractWrites` | internal/polo-store/src/memory.rs:152-181 | otherwise the first such fact is no longer live, its validity ended at the millisecond of the retract, all else as it was |
| `MemoryStore.MemoryStore.Scan` | internal/polo-store/src/memory.rs:193-220 | the matching facts, newest first, ties in insertion order, one page |
| `MemoryStore.MemoryStore.CreateBranch` | internal/polo-store/src/memory.rs:231-262 | the new branch record, or the error and no change |
| `Writes.CreateBranchWrites` | internal/polo-store/src/memory.rs:231-262 | exactly when each error is given, the new branch field by field, and that all else stays |
| `MemoryStore.MemoryStore.DeleteBranch` | internal/polo-store/src/memory.rs:276-290 | removes a branch that has a parent, or the error and no change |
| `Writes.DeleteBranchWrites` | internal/polo-store/src/memory.rs:276-290 | exactly when each error is given, and that only the branch goes, its facts staying |
| `MemoryStore.MemoryStore.CreateNamespace` | internal/polo-store/src/memory.rs:308-336 | the namespace and its main branch, or the error and no change |
| `Writes.CreateNamespaceWrites` | internal/polo-store/src/memory.rs:308-336 | exactly when the error is given, the namespace and its main branch field by field, and that all else stays |
| `MemoryStore.MemoryStore.ListBranches` | internal/polo-store/src/memory.rs:264-274 | exactly the namespace's branches, oldest first |
| `MemoryStore.MemoryStore.ListEntities` | internal/polo-store/src/memory.rs:587-604 | exactly the entities with a live fact, strictly ascending |
| `MemoryStore.MemoryStore.ListAttrs` | internal/polo-store/src/memory.rs:606-628 | exactly the attributes with a live fact, strictly ascending |
| `MemoryStore.MemoryStore.Merge` | internal/polo-store/src/memory.rs:366-464 | the merge as a whole is the replay of the source's live facts onto the target's index |
| `MemoryStore.MemoryStore.Replay` | internal/polo-store/src/memory.rs:391-463 | the loop, one record at a time, equals appending the copies of the facts let through, up to the first rejected one |
| `MemoryStore.MemoryStore.Diff` | internal/polo-store/src/memory.rs:466-516 | the strictly sorted entries of exactly the keys whose indexed facts differ |
| `MemoryStore.MemoryStore.Differences` | internal/polo-store/src/memory.rs:491-512 | the unordered loop over both key sets collects each differing key once |
| `MemoryStore.MemoryStore.Gc` | internal/polo-store/src/memory.rs:518-562 | the report and the whole new state, for real and dry runs |
| `MemoryStore.MemoryStore.RemoveFacts` | internal/polo-store/src/memory.rs:523-541 | removing positions from the last to the first equals filtering out exactly the eligible facts, in order |
| `Reads.ScanOne` | internal/polo-store/src/memory.rs:215-219 | a scan limited to one fact is the newest match, the earliest inserted on ties |
| `Reads.ScanLists` | internal/polo-store/src/memory.rs:193-215 | a scan without a page lists exactly the facts its options let through, on their fields, newest first |
| `Reads.ScanKeepsInsertionOrder` | internal/polo-store/src/memory.rs:215 | facts of one time are listed in insertion order, each as often as it was inserted |
| `Reads.ScanPage` | internal/polo-store/src/memory.rs:217-219 | row i of a scan's page is row offset + i of the scan without one, up to the limit |
| `Reads.AsofMeaning` | pkg/polo-core/src/db.rs:205-226 | `asof` answers with the fact of that namespace, branch, entity and attribute, not retracted and not later than the time asked, of greatest transaction time, the earliest inserted on ties, or nothing exactly if there is none |
| `Reads.EffectiveMeaning` | pkg/polo-core/src/db.rs:182-203 | `effective` answers with the newest such fact whose validity has begun and not ended at the instant, or nothing exactly if there is none |
| `Reads.OnlyFactAnswersExactly` | pkg/polo-core/src/db.rs:182-203 | the only live fact of a key is answered exactly from its first instant until before its last |
| `Reads.TwoFactsSplitTheInstants` | pkg/polo-core/src/db.rs:182-203 | two live facts of a key, one valid until the other begins, split the instants there |
| `Merge.IndexHoldsOldest` | internal/polo-store/src/memory.rs:383-386 | the target index holds, for exactly the live keys, the oldest live fact, the latest inserted on ties |
| `Merge.LiveFactsAre` | internal/polo-store/src/memory.rs:370-382 | what a merge or a diff reads from a branch is its live facts, newest first |
| `Merge.LastWriteWinsExactly` | internal/polo-store/src/memory.rs:417-434 | comparing with the index is last-write-wins for a key if and only if all its live target facts have one time |
| `Merge.MergeAppends` | internal/polo-store/src/memory.rs:394-463 | facts before stay an exact prefix; then one fact for each live source fact let through, in scan order, with its entity, attribute, value and validity, the target branch, and the merge's author, time and transaction; applied plus TargetWins is the number of source facts; one conflict for each source fact whose key is live in the target |
| `Merge.MergeReportsConflicts` | internal/polo-store/src/memory.rs:397-434 | the conflicts, in scan order: each names the source fact, the oldest live target fact of its key, and the side that wins |
| `Merge.FailedMergeKeepsPrefix` | internal/polo-store/src/memory.rs:397-405 | a merge refused under ErrorOnConflict has recorded such facts for exactly the source facts before the first conflict, and changed nothing if and only if that is the first |
| `Merge.MergeIsOneTransaction` | internal/polo-store/src/memory.rs:391-455 | everything applied is one transaction that counts it, and the target's head |
| `Merge.MergeLeavesOthers` | internal/polo-store/src/memory.rs:366-464 | every scan of another branch or namespace is unchanged |
| `Merge.AsofAfterMerge` | internal/polo-store/src/memory.rs:366-464 | at the merge's time or later, whatever that time and whether it succeeds, reading a target key gives a fact with the value and validity of its newest live source fact if the source replaces it and the time overtakes the old answer, and the old answer otherwise |
| `Merge.MergeChangesAsofExactly` | internal/polo-store/src/memory.rs:366-464 | for any branch, key and time of reading, the answer changes if and only if the merge writes there no later, replaces the key and overtakes the old answer; it is then stamped by the merge |
| `Merge.SuccessReachesAll` | internal/polo-store/src/memory.rs:394-463 | a merge that succeeds comes to every source fact, so for it only the policy decides whether a key is replaced |
| `Merge.AsofBeforeMerge` | internal/polo-store/src/memory.rs:366-464 | reads before the merge's time are unchanged on every branch |
| `Diff.DiffIsUnique` | internal/polo-store/src/memory.rs:466-516 | there is only one difference of two branches |
| `Diff.KeysAscend` | internal/polo-store/src/memory.rs:514 | entries ascend strictly by entity and then attribute, by the first differing character |
| `Diff.DiffMeaning` | internal/polo-store/src/memory.rs:482-512 | an entry is in the difference exactly if its sides are the oldest live facts of its key and they differ in some field |
| `Diff.DiffWithItself` | internal/polo-store/src/memory.rs:496-512 | a branch against itself is empty if and only if every indexed fact equals itself, as NaN does not |
| `Diff.DiffOfBranches` | internal/polo-store/src/memory.rs:496-512 | two distinct branches differ at exactly the union of their live keys |
| `Diff.DiffSwapped` | internal/polo-store/src/memory.rs:466-516 | exchanging the branches exchanges the sides of every entry, if float equality is symmetric |
| `Gc.LiveScansUnchanged` | internal/polo-store/src/memory.rs:518-562 | every scan without retracted facts reads the same |
| `Gc.OnlyCollectableRemoved` | internal/polo-store/src/memory.rs:523-541 | exactly the retracted facts of the branch that are older than the cutoff go, each condition only if given; every other selection of facts keeps its order |
| `Gc.DryRunPredicts` | internal/polo-store/src/memory.rs:535-561 | a dry run reports the number of facts the real run removes |
| `Gc.SecondRunRemovesNothing` | internal/polo-store/src/memory.rs:518-562 | a second identical run removes no facts and no transactions |
| `Gc.CutoffCollectsIntendedExactly` | internal/polo-store/src/memory.rs:523-533 | comparing the millisecond cutoff with the packed timestamp never collects too much, and collects what was meant if and only if no fact lies between its milliseconds and its packed value |
| `Gc.RealCutoffCollectsNothing` | internal/polo-store/src/memory.rs:529 | so a cutoff a clock can show collects nothing stamped 2^32 ms after the epoch or later |
| `Gc.HeadDanglesExactly` | internal/polo-store/src/memory.rs:543-548 | a branch head is left naming a purged transaction if and only if all its facts were collected |
| `StoreRuns.StepKeeps` | internal/polo-store/src/memory.rs:85-562 | every operation keeps the invariant below, and all but collection keep the balance |
| `StoreRuns.ReachableStatesAreSound` | internal/polo-store/src/memory.rs:85-562 | in every reachable state fact and transaction ids are unique, every fact's transaction exists, every namespace has its parentless main branch |
| `StoreRuns.RunsWithoutGcBalance` | internal/polo-store/src/memory.rs:85-464 | without collection the transaction counts sum to facts plus retracted facts, and every head names a transaction |
| `StoreRuns.ReachableBranchesAreNamed` | internal/polo-store/src/memory.rs:231-336 | in every reachable state branch records carry the names they are stored under, so no namespace lists a name twice |
| `StoreRuns.OpDraws` | internal/polo-store/src/memory.rs:85-464 | a record draws one fact id, a batch one for each spec, a merge one for each fact it appends at least; each of these and a retract draws one transaction id, the others none |
| `StoreRuns.KeysAreIdempotent` | internal/polo-store/src/memory.rs:88-148 | a key once used answers every later record with the same ids and changes nothing, whatever operations came between |
| `AsofRuns.AsofRepeats` | pkg/polo-core/src/db.rs:205-226 | over any run of records, bulk records, merges stamped later, collections and branch operations, `asof` at a past time repeats for every key |
| `AsofChanges.OpChangesAsofExactly` | internal/polo-store/src/memory.rs:85-562 | what any operation does to a read of any branch, key and time: it changes the answer if and only if it disturbs the read, and only a retract can put an older answer in its place |
| `AsofChanges.BulkChangesAsofExactly` | pkg/polo-core/src/db.rs:426-470 | a batch of records of any times changes a read if and only if some record of it disturbs the read when its turn comes |
| `AsofChanges.RetractedAnswerComesBack` | internal/polo-store/src/memory.rs:152-181 | a record that disturbed a read, once retracted, has the old answer back, so with retracts an answer that is the same at the end may not have held |
| `AsofRuns.AsofHoldsExactly` | pkg/polo-core/src/db.rs:109-226 | over any run whatsoever, retracts and merges of any stamp included, an answer holds all along if and only if no operation of the run disturbs it |
| `AsofRuns.AsofRepeatsExactly` | pkg/polo-core/src/db.rs:109-226 | over any run without retracts, an answer is the same at the end if and only if no operation disturbs it |
| `AsofRuns.AsofNowRepeatsExactly` | pkg/polo-core/src/db.rs:109-226 | with one shared clock for records, a read at its present word repeats over a run without retracts if and only if no operation disturbs it, and then only a merge can |
| `AsofRuns.MergeStampIsLaterExactly` | internal/polo-store/src/memory.rs:391-393 | a merge's stamp, drawn from a clock made for it, is later than a shared word if and only if the word is below the tick's reading, or not above the reading the clock was made at if the tick's is no later |
| `AsofChanges.RetractChangesAsofExactly` | internal/polo-store/src/memory.rs:152-181 | a retract changes a past answer, of any namespace, branch and key, if and only if the answer was the retracted fact |
| `AsofChanges.RecordChangesAsofExactly` | internal/polo-store/src/memory.rs:85-150 | a record of any time changes a read if and only if it writes the key no later than the read, is no duplicate, and overtakes the answer; the answer is then its fact |
| `Concurrent.PresentReadsHoldExactly` | pkg/polo-core/src/db.rs:109-153 | with clock steps of any threads, records, bulk records and retracts applied after their ticks, merges under clocks of their own, collections and branch operations interleaved, a read at the present word holds all along if and only if no step disturbs it; and a step that does is a record or bulk record whose call had ticked but not applied it at the read, a retract of the answer, or a merge whose clock lags |
| `Concurrent.PresentReadsRepeatExactly` | pkg/polo-core/src/db.rs:109-153 | without retracts, it is the same at the end if and only if no step disturbs it |
| `Concurrent.QuietReadsHold` | pkg/polo-core/src/db.rs:109-153 | a read made while no call is under way holds as long as nothing retracts its answer and no merge's own clock lags behind the word |
| `Concurrent.ReachableMoments` | pkg/polo-core/src/db.rs:109-153 | from the start of clocks and store every moment satisfies the invariants of both, which the theorems above ask for |
| `Concurrent.CallsApplyOnce` | pkg/polo-core/src/db.rs:109-153 | with any interleaving of clock steps and applications, no call is applied twice and no two calls of a node are applied under one time |
| `Concurrent.UntimedAppliesAtOnce` | pkg/polo-core/src/db.rs:244-303 | collections, branches and namespaces take no tick and are applied in one step |
| `Db.Db.Record` | pkg/polo-core/src/db.rs:86-129 | validity and schema are checked before the clock ticks; then one record with the tick |
| `Db.RecordMeaning` | pkg/polo-core/src/db.rs:86-129 | a record is refused, with nothing drawn, exactly if its validity ends no later than it begins or the schema forbids the value; otherwise it draws one tick and, unless its key was used, appends the fact, field by field |
| `Db.Db.BulkRecord` | pkg/polo-core/src/db.rs:426-470 | all specs recorded under one tick and one transaction id, or the error for none |
| `Db.BulkAppends` | pkg/polo-core/src/db.rs:426-470 | a bulk record appends one live fact for each spec, in order, with the spec's fields and the returned ids, time and transaction |
| `Db.Db.Asof` | pkg/polo-core/src/db.rs:205-226 | the first fact of the limited scan |
| `Db.Db.Retract` | pkg/polo-core/src/db.rs:131-153 | a tick is used even when the fact is not found |
| `Db.SelectEligible` | pkg/polo-core/src/db.rs:353-369 | the facts of an ordered history that the policy lets go |
| `Db.Db.RetainKey` | pkg/polo-core/src/db.rs:332-396 | one key: history, eligible facts, retracts with successive ticks, collection of the branch; the result and whole new state are those of the specification |
| `Db.Db.RetainBranches` | pkg/polo-core/src/db.rs:327-399 | the three loops, branches, their live entities and their live attributes as listed at each turn: all counts and the whole new state are those of the specification |
| `Db.Db.ApplyRetention` | pkg/polo-core/src/db.rs:305-402 | all counts, the error and the whole new state are those of the specification; if fact ids are distinct it never fails; what is left of the history of every key of the chosen branches is exactly what the policy and the readings of the turns say; so each key keeps a suffix of its live facts, oldest first, none past every threshold by a reading of this call, and loses only facts that by their place in the history were past every threshold by such a reading; other branches and namespaces keep all their live facts; `retracted` is the drop in live facts, one tick each; a dry run changes nothing |
| `Retention.ExcessIs` | pkg/polo-core/src/db.rs:349-369 | in oldest-first order both thresholds cut off a prefix, which is exactly what is eligible |
| `RetentionCounts.EligibleIs` | pkg/polo-core/src/db.rs:349-369 | a fact of a history is eligible exactly at a position past the age and the number of versions, as far as these are limited |
| `RetentionCounts.CutoffIs` | pkg/polo-core/src/db.rs:345-347 | the cutoff is the age before the reading, and wraps at 64 bits if the age exceeds it |
| `Retention.RetractAllSucceeds` | pkg/polo-core/src/db.rs:373-387 | no internal retract fails, and exactly the live facts given stop being live, one tick each |
| `Retention.RetainKeyDrops` | pkg/polo-core/src/db.rs:345-396 | retaining a key drops exactly its eligible live facts and leaves nothing collectable on the branch |
| `RetentionCounts.TurnKeepsExactly` | pkg/polo-core/src/db.rs:345-396 | a live fact outlasts its key's turn if and only if only retracted facts are to go, it is not older than the cutoff, or it is among the most recent versions |
| `RetentionCounts.RetractsAreSigned` | pkg/polo-core/src/db.rs:373-386 | every internal retract is a transaction of its own with the next tick, signed `polo-retain` |
| `RetentionCounts.TurnIsCounted` | pkg/polo-core/src/db.rs:345-397 | one turn adds the key's facts to what was inspected and its past positions to what was eligible |
| `RetentionCounts.DryRunForetells` | pkg/polo-core/src/db.rs:371-372 | a dry run counts what the real run counts; of a key without retracted facts, as many as the real run lets go |
| `RetentionCounts.DryRunInspects` | pkg/polo-core/src/db.rs:327-399 | over any list of branches a dry run inspects exactly the facts of live keys, and changes nothing |
| `Retention.RetainKeyTrims` | pkg/polo-core/src/db.rs:345-396 | the key keeps a suffix of its live facts in oldest-first order, none past every threshold |
| `Retention.RetainKeySparesOthers` | pkg/polo-core/src/db.rs:345-396 | every other key, on any branch and namespace, keeps all its live facts although the collection ignores namespaces |
| `Retention.AgeLimitRetiresIntendedExactly` | pkg/polo-core/src/db.rs:345-361 | comparing the cutoff in milliseconds with the packed timestamp never lets too much go, and lets go what was meant if and only if no such fact lies between its milliseconds and its packed value |
| `Retention.RealAgeLimitRetiresNothing` | pkg/polo-core/src/db.rs:345-361 | so an age limit a clock can show lets nothing go that is stamped 2^32 ms after the epoch or later |
| `RetentionHistory.RetainKeySpares` | pkg/polo-core/src/db.rs:353-369 | a live fact lost was past every threshold by its place in the key's oldest-first history, and histories of all keys only thin out |
| `RetentionTurns.TurnExactly` | pkg/polo-core/src/db.rs:345-396 | one turn, whatever the policy: of its key's history exactly what follows the excess stays, of every other all, but for retracted facts the cutoff reaches |
| `RetentionPass.RetainKeyElsewhere` | pkg/polo-core/src/db.rs:388-394 | facts on branches of other names stay exactly as they are, retracted ones included |
| `RetentionPass.SettledVersions` | pkg/polo-core/src/db.rs:363-367 | with only a number of versions asked for, at most that many live facts remain |
| `RetentionPass.EmptyPolicyLeavesNothing` | pkg/polo-core/src/db.rs:354-369 | a policy that sets no threshold leaves no live fact |
| `RetentionExact.PassRetains` | pkg/polo-core/src/db.rs:327-399 | for every list of branches, repeated ones included, what the three loops keep, lose and count, as said for the method |
| `RetentionExact.BranchTurns` | pkg/polo-core/src/db.rs:327-397 | whatever the policy, the history of every key after the turns of a branch is known exactly from the start and the readings, one for each live key: its own turn cuts the excess off what earlier collections left, and later ones take retracted facts they reach |
| `RetentionExact.RecentAfter` | pkg/polo-core/src/db.rs:345-396 | a key's live facts afterwards are the live part of what cutoff and number of versions leave of its history at its own turn, with the reading of that turn |
| `RetentionExact.DistinctBranchesExact` | pkg/polo-core/src/db.rs:327-397 | over several branches none of which comes twice, each is exact from the start of the pass, with the readings that follow those of the branches before it |
| `RetentionExact.TurnKeysAreLive` | pkg/polo-core/src/db.rs:328-331 | the keys that take a turn are exactly those with a live fact when the branch's turns begin |
| `RetentionExact.ExactIsExpected` | pkg/polo-core/src/db.rs:345-396 | without an age limit the first live key of a branch keeps the live facts among the last k of its history, and every other key exactly the last k of its live facts, because the first turn collects the branch |
| `RetentionExact.KeysKeepVersions` | pkg/polo-core/src/db.rs:363-396 | on a branch with no retracted fact every key, and on any branch every key but the first, keeps exactly its most recent live facts: k, or all if there are no more |
| `RetentionExact.AtMostVersions` | pkg/polo-core/src/db.rs:363-367 | after a pass with only a number of versions no key of its branches has more live facts |
| `Restore.RestoreNamespace` | internal/polo-server/src/api/backup.rs:72-113 | the replay loop, line by line, with both counts |
| `Restore.RestoreCounts` | internal/polo-server/src/api/backup.rs:69-113 | imported plus skipped is the number of lines that are not blank, and imported is the number of facts appended |
| `Restore.SecondRestoreImportsNothing` | internal/polo-server/src/api/backup.rs:72-113 | restoring a body again imports nothing and leaves the store as it is, whatever operations came between |
| `Restore.DumpNamespace` | internal/polo-server/src/api/backup.rs:23-48 | the lines are those of all branches of the namespace, branch after branch; none comes twice if the records carry their names |
| `Restore.RestoreImportsExactly` | internal/polo-server/src/api/backup.rs:72-113 | after any number of lines exactly those are imported whose validity is not empty, whose value the schema accepts and whose id is first seen, by line and by store; each is appended live, with the id and tick next when its line came, and exactly the keys of acceptable lines are taken |
| `Restore.ImportIsSigned` | internal/polo-server/src/api/backup.rs:84-105 | an imported line's transaction is its own, with the line's author and the message `restore` |
| `Restore.RestoredBranch` | internal/polo-server/src/api/backup.rs:72-113 | if the branch's facts are older than the next tick, it then lists its imports in reverse of the lines, and then what it listed before |
| `Restore.DumpImportsExactly` | internal/polo-server/src/api/backup.rs:23-113 | from a dump of any branches exactly the facts with non-empty validity, accepted value and new id are imported; every line if and only if all facts are such |
| `Restore.RestoredHistoryIsReversed` | internal/polo-server/src/api/backup.rs:23-113 | each branch of a dump, restored where the facts of the branch are older than the next tick, lists its importable facts live and in reverse, position by position, before what the target branch listed |
| `Restore.RetractedComesBackExactly` | pkg/polo-core/src/db.rs:95-100 | a retracted fact comes back from its dump if and only if it was retracted after it became valid |

## Left out

- HTTP routing, authentication, events, the client and the command line: plumbing around the operations modelled.
- The SQLite store: its meaning lies in SQL text and a library that is not part of this model, and nothing here
  claims that the two stores agree.
- JSON: a restore line is blank, not a fact, or a fact; a `Json` value is its text.
- RFC 3339 text: reading a time is a parameter of the parser, and the round trip assumes that some text reads as each
  time of the query.
- Floating-point comparison is a parameter, and a float token or value keeps its text; PQL theorems hold for every
  comparison.
- Messages of errors, and the projection of facts onto columns with its unknown-column error.
- Tags, statistics, transaction listings and single lookups: easy members that add no hard property.
- Interleaving of other operations within one merge, bulk record, retention pass or restore: each is modelled as one
  sequence of atomic store calls.
- Bytes: the lexer is modelled on characters, so byte positions and invalid UTF-8 are not.
- Clock.RunInv: wall readings are below 2^48 ms in the protocol; single steps with larger readings are covered by
  `Clock.TickAdvancesExactly`. The sum `wall + 60000` does not wrap.
- MemoryStore.MemoryStore.ListBranches: branches created at one instant may come in any order, as from a hash map.
- Db.Db.ApplyRetention: if a retract fails, which distinct ids exclude, only the error is stated. The age cutoff wraps as
  an unchecked subtraction does, where a checked build would stop, and a reading is drawn for every key.
- Db.Db.Record: a duplicate draws a fact id from the generator although the code would not; ids stay fresh.
- PqlEval.Extract: threads the pair found so far through the tree instead of writing through two references.
