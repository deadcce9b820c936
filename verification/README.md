# Verified models of the EitohForge SDK

This project models the in-process algorithms of the EitohForge SDK in Dafny 4.11 and proves what
their callers rely on. `dafny verify dfyconfig.toml` checks all of it.

| files | what they model |
|---|---|
| `PolicyAst`, `PolicyLexer`, `PolicyText`, `PolicyParser`, `PolicyPrinter`, `PolicyErrors`, `PolicyEval`, `PolicyMeaning` | the policy expression language: lexer, recursive-descent parser, evaluator, a reference printer, where and how parsing fails, and what every operator yields |
| `RateLimiter` | the sliding-window rate limiter |
| `QuerySpec`, `RowHelpers`, `FilterMeaning`, `CursorPaging`, `Keyset`, `SortAgreement` | filtering, sorting and paging in the repositories, and what every filter operator keeps |
| `Backoff`, `JobQueue`, `CircuitBreaker` | retry delays, the background job queue, the resilient API client |
| `TagCache`, `SocketHub`, `TwoWayIndex` | the tag and prefix index over the TTL cache, the socket hub, and the two-way map both keep |
| `Base64Url`, `CompactJwt`, `RefreshTokens` | base64url segments, compact tokens, refresh-token rotation |
| `RequestSigning` | timestamp window and nonce store of signed requests |
| `Saga` | the saga orchestrator of generated projects |
| `Text` | results, ASCII character classes, the order of texts, decimal text |

## How the models are built

Each operation is a function on values that has the branches of the source. Where the source changes
state step by step, a class with the same fields has a method with the same loops, proved to compute
that function. Runs are inductive histories of events, and the main theorems hold of every history.

What the program draws from outside is a parameter: readings of the clock, uuids, handler outcomes,
transport replies, saga steps, JSON and HMAC. Freshness of ids, a clock that does not run back, and
that JSON reads back what it wrote are preconditions of the theorems that need them, and of no others.
Time is exact; `int(...)` truncates toward zero, as Python does. In a few places the code does not do
what one might expect of it, and the model follows the code:

- a keyset cursor without an explicit sort goes by the id, but `ORDER BY` does not
  (`UnsortedIdLosesRow`), and a NULL in the sort column ends a walk or is never reached
  (`LateNullLost`); `KeysetExact` gives the exact condition;
- the documentation lets keyset mode use the first applicable sort
  (`docs/guides/query-spec-reference.md:32`); the code looks only at the first entry and falls back to
  the id even when a later entry names a column (`DocumentationHolds`, `LaterSortIgnored`);
- in the dict-backed repository only cursor mode reads the cursor (`OtherModesRepeat`);
- the SQL repository counts `total` before the filters, so the last cursor can lead to an empty page;
  `LastPageEmptyExactly` says when;
- later sort entries of the dict-backed repository dominate earlier ones, while `ORDER BY` gives the
  first priority (`TwoEntriesDiffer`); the one is the other for the reversed entries
  (`ReversedEntries`);
- a rate limit of zero or less raises on the first call (`Broken`), and a call under a shorter window
  makes the limiter forget times that a longer one relies on (`ShorterWindowForgets`);
  `DecidesRightlyExactly` says when it decides rightly;
- the limiter computes `retry_after` from the oldest time in its bucket, which is not the one to wait
  for after calls under a greater maximum (`RetryAfterExact`, `GreaterMaximumToldWrong`);
- additional claims may replace the reserved ones; `TokenNamesExactly` says for which of them an
  issued refresh token still names its own record;
- a nonce outlives its timestamp only if its life is at least twice the skew and a second
  (`NoReplay`, `ReplayableExactly`);
- a nonce is remembered before the signature is checked (`ReplayedExactly`);
- the saga status `compensated` says that some step compensated, not that all did (`CompensatedInPart`).

## Model

| member | source | states |
|---|---|---|
| PolicyLexer.LexString | src/eitohforge_sdk/core/policy_dsl/parse.py:76-101 | scans a string body to its closing quote, resolving escapes, or reports which way it is unterminated |
| PolicyLexer.LexNumeral | src/eitohforge_sdk/core/policy_dsl/parse.py:108-118 | finds the end of the longest numeral with at most one dot |
| PolicyLexer.LexWord | src/eitohforge_sdk/core/policy_dsl/parse.py:129-131 | finds the end of the longest word |
| PolicyLexer.LexOperator | src/eitohforge_sdk/core/policy_dsl/parse.py:57-75 | the two-character operators before the one-character ones, and the errors for a lone `=` or `!` |
| PolicyLexer.Lex | src/eitohforge_sdk/core/policy_dsl/parse.py:35-143 | the whole loop yields the scanned tokens closed by the end mark, or the first lexical error |
| PolicyLexer.ScanSound | src/eitohforge_sdk/core/policy_dsl/parse.py:40-140 | every token found is spelled by the text it covers, and that text could not be longer |
| PolicyLexer.ScanComplete | src/eitohforge_sdk/core/policy_dsl/parse.py:40-140 | any legal spelling of a token, followed by text that does not prolong it, is scanned as that token |
| PolicyText.LexExact | src/eitohforge_sdk/core/policy_dsl/parse.py:35-143 | lexing succeeds with a token list exactly on the legal layouts of that list, in any quoting, escaping, letter case of keywords and spacing |
| PolicyText.LexErrorExactly | src/eitohforge_sdk/core/policy_dsl/parse.py:72-101 | lexing fails exactly on the texts in which, behind legally laid out tokens, a lone `=` or `!`, a string that does not end or a character that begins no token stands, with the error for that |
| PolicyText.StripKeepsTokens | src/eitohforge_sdk/core/policy_dsl/parse.py:258-261 | stripping the source first never adds, removes or changes a token |
| PolicyText.LexRender | src/eitohforge_sdk/core/policy_dsl/parse.py:35-143 | lexing undoes rendering on every list of well-formed tokens: strings with any characters, signed and decimal numerals, identifiers |
| PolicyText.EscapesStand | src/eitohforge_sdk/core/policy_dsl/parse.py:76-101 | in either quoting a backslash before any character but `n` stands for that character, and before `n` for a newline: a text written so, with whatever characters escaped, lexes to that text |
| PolicyParser.Parser.Advance | src/eitohforge_sdk/core/policy_dsl/parse.py:154-158 | moves on by one token, but never past the end mark |
| PolicyParser.Parser.Expect | src/eitohforge_sdk/core/policy_dsl/parse.py:160-164 | consumes the expected token or raises, naming both tokens |
| PolicyParser.Parser.Or | src/eitohforge_sdk/core/policy_dsl/parse.py:172-178 | the loop folds `or` operands to the left as the recursive descent specifies; the index stays inside the list and moves on |
| PolicyParser.Parser.And | src/eitohforge_sdk/core/policy_dsl/parse.py:180-186 | the loop folds `and` operands to the left as the recursive descent specifies |
| PolicyParser.Parser.Not | src/eitohforge_sdk/core/policy_dsl/parse.py:188-192 | `not` binds looser than comparison and tighter than `and` |
| PolicyParser.Parser.Comparison | src/eitohforge_sdk/core/policy_dsl/parse.py:194-210 | at most one comparison or membership operator between two primaries, `not in` by two tokens of lookahead |
| PolicyParser.Parser.Primary | src/eitohforge_sdk/core/policy_dsl/parse.py:212-236 | parentheses, literals, references, or the error for any other token |
| PolicyParser.Parser.Reference | src/eitohforge_sdk/core/policy_dsl/parse.py:238-253 | the loop reads a dotted path of identifiers, or raises after a dot without one |
| PolicyParser.Parser.Run | src/eitohforge_sdk/core/policy_dsl/parse.py:166-170 | a tree is returned only if it reaches to the end mark |
| PolicyParser.SoundOr | src/eitohforge_sdk/core/policy_dsl/parse.py:172-236 | whatever a descent from an index accepts is derived by the grammar from exactly the tokens it consumed |
| PolicyParser.CompleteOr | src/eitohforge_sdk/core/policy_dsl/parse.py:172-236 | whatever the grammar derives from a stretch that ends at `or`, a closing parenthesis or the end, the descent accepts with the same tree |
| PolicyParser.ParseExact | src/eitohforge_sdk/core/policy_dsl/parse.py:146-253 | the parser returns a tree exactly when the declared grammar derives that tree from the whole token list |
| PolicyParser.GrammarUnambiguous | src/eitohforge_sdk/core/policy_dsl/parse.py:172-253 | no token list derives two trees |
| PolicyErrors.FirstErrorExactly | src/eitohforge_sdk/core/policy_dsl/parse.py:160-253 | when parsing fails, the tokens before some index can be completed to an expression, no expression goes on with the token there (`not` with the one behind it), and the error names that token: a missing identifier behind a dot, a missing parenthesis behind an operand unless an expression ends there, an unexpected token otherwise |
| PolicyPrinter.ParseSource | src/eitohforge_sdk/core/policy_dsl/parse.py:256-262 | `parse_expr`: strips, refuses an empty source, lexes and parses |
| PolicyPrinter.ParseExprExact | src/eitohforge_sdk/core/policy_dsl/parse.py:256-262 | a source parses to a tree exactly when it is a legal layout of tokens that derive the tree |
| PolicyErrors.SourceErrorExactly | src/eitohforge_sdk/core/policy_dsl/parse.py:256-262 | a source fails, and with which error, exactly if it is blank, offends lexically, or is a legal layout of tokens that fail to parse |
| PolicyPrinter.TextRoundTrip | src/eitohforge_sdk/core/policy_dsl/parse.py:35-262 | lexing and parsing the printed text of any well-formed tree gives back exactly that tree |
| PolicyPrinter.ParsedTreesPrint | src/eitohforge_sdk/core/policy_dsl/parse.py:35-262 | every parsed tree is well-formed, and printing and parsing it again changes nothing |
| PolicyPrinter.PrintShortest | src/eitohforge_sdk/core/policy_dsl/parse.py:172-236 | no token list that derives a tree is shorter than its printed one: parentheses stand only where precedence needs them |
| PolicyEval.ResolveRef | src/eitohforge_sdk/core/policy_dsl/evaluate.py:16-35 | the loop walks the path from its root through mappings and attributes; unknown roots are an error |
| PolicyEval.AndChainMeaning | src/eitohforge_sdk/core/policy_dsl/evaluate.py:48-51 | an `and` chain of any grouping ends at the first operand that fails or is falsy, with its error or `False`, else yields its last operand; nothing after that operand is read |
| PolicyEval.OrChainMeaning | src/eitohforge_sdk/core/policy_dsl/evaluate.py:52-55 | the same for `or` and truthy operands |
| PolicyEval.GroupingIsFree | src/eitohforge_sdk/core/policy_dsl/evaluate.py:38-58 | chains of the same operands have the same value, error and order of reads however they are grouped |
| PolicyEval.AnyReadingMeansTheSame | src/eitohforge_sdk/core/policy_dsl/parse.py:172-262 | any source that can be read as a tree with its chains grouped in some way, with or without parentheses inside them, parses, to a tree of the same meaning |
| PolicyEval.ChainParenthesesAreFree | src/eitohforge_sdk/core/policy_dsl/parse.py:172-262 | a source that leaves out any of the parentheses that only group operands of one `and` or `or` chain still parses, to a tree of the same meaning |
| PolicyEval.NotInReadsEitherWay | src/eitohforge_sdk/core/policy_dsl/parse.py:188-209 | `not x in y` and `x not in y` parse to different trees that always evaluate alike |
| PolicyEval.ParsedSourceErrors | src/eitohforge_sdk/core/policy_dsl/evaluate.py:65-85 | a parsed source can only raise unknown-root and operand-type errors |
| PolicyEval.OrderingsAgree | src/eitohforge_sdk/core/policy_dsl/evaluate.py:69-80 | on any two values the four orderings and equality are consistent, or none of the orderings applies |
| PolicyMeaning.OperandsDecide | src/eitohforge_sdk/core/policy_dsl/evaluate.py:65-85 | an operator yields what it yields on the values of its operands, whose errors come first, the left one before the right |
| PolicyMeaning.IntOperators | src/eitohforge_sdk/core/policy_dsl/evaluate.py:69-80 | on integers the six comparisons are the six relations |
| PolicyMeaning.NumberOperators | src/eitohforge_sdk/core/policy_dsl/evaluate.py:69-80 | on integers, decimals and booleans they compare by cross-multiplying the powers of ten |
| PolicyMeaning.StringOperators | src/eitohforge_sdk/core/policy_dsl/evaluate.py:69-80 | strings compare by the first character in which they differ |
| PolicyMeaning.SequenceEquality | src/eitohforge_sdk/core/policy_dsl/evaluate.py:69-72 | tuples, and lists, are equal if they are as long and `==` holds item by item |
| PolicyMeaning.SequenceOrder | src/eitohforge_sdk/core/policy_dsl/evaluate.py:73-80 | tuples, and lists, are ordered as their first unequal items are, or as their lengths, with the error of that comparison if it has one |
| PolicyMeaning.KindsApart | src/eitohforge_sdk/core/policy_dsl/evaluate.py:69-80 | values of different kinds are unequal, and ordering them raises |
| PolicyMeaning.UnorderedEquality | src/eitohforge_sdk/core/policy_dsl/evaluate.py:69-80 | mappings and principals equal part by part; ordering them, or `None`, raises |
| PolicyMeaning.NegationsAgree | src/eitohforge_sdk/core/policy_dsl/evaluate.py:71-84 | `!=` is the negation of `==`, and `not in` of `in`, on any operands, errors included |
| PolicyMeaning.OperandsExchange | src/eitohforge_sdk/core/policy_dsl/evaluate.py:69-80 | `a > b` is `b < a`, `a >= b` is `b <= a`, `a == b` is `b == a`, on any values, errors included |
| PolicyMeaning.InSequence | src/eitohforge_sdk/core/policy_dsl/evaluate.py:81-84 | a value is in a tuple or list exactly when `==` holds of some item |
| PolicyMeaning.InText | src/eitohforge_sdk/core/policy_dsl/evaluate.py:81-84 | only a string is in a string, and exactly when it stands at some index of it; any other value raises |
| PolicyMeaning.InMapping | src/eitohforge_sdk/core/policy_dsl/evaluate.py:81-84 | a string is in a mapping as a key; what cannot be a key raises, also inside a tuple or principal |
| PolicyMeaning.InNothingElse | src/eitohforge_sdk/core/policy_dsl/evaluate.py:81-84 | membership in any other value raises |
| PolicyMeaning.UnknownOperators | src/eitohforge_sdk/core/policy_dsl/evaluate.py:85 | any other operator raises, naming it |
| PolicyMeaning.UnknownUnary | src/eitohforge_sdk/core/policy_dsl/evaluate.py:44-46 | `not` is the only unary operator; any other raises, naming it, and reads nothing |
| PolicyMeaning.TruthOperators | src/eitohforge_sdk/core/policy_dsl/evaluate.py:44-62 | `not`, `and` and `or` by the values that count as false: `None`, zero, and what is empty |
| PolicyMeaning.ReferenceStep | src/eitohforge_sdk/core/policy_dsl/evaluate.py:30-35 | a longer path is one more lookup: a key of a mapping, a field of the principal, else `None` |
| PolicyMeaning.ReferenceRoots | src/eitohforge_sdk/core/policy_dsl/evaluate.py:17-29 | the two roots, and the errors for an empty path and any other root |
| PolicyMeaning.ReadsSuffice | src/eitohforge_sdk/core/policy_dsl/evaluate.py:38-57 | the value, error and reads of an expression depend on nothing but the references it reads |
| RateLimiter.InMemoryRateLimiter.Allow | src/eitohforge_sdk/core/rate_limit.py:33-45 | drops expired times, then admits, refuses with a waiting time, or breaks on a rule that admits nothing; no other key changes |
| RateLimiter.BucketIsRecentHistory | src/eitohforge_sdk/core/rate_limit.py:33-45 | in every run, of any rules, the part of a bucket newer than a moment is never more than the admitted history newer than it, and is all of it if and only if no call has dropped an admitted time newer than the moment |
| RateLimiter.DecidesRightlyExactly | src/eitohforge_sdk/core/rate_limit.py:36-45 | the limiter decides by the admitted calls in the window, for every maximum, if and only if no call before has dropped one of them |
| RateLimiter.AdmittedExactly | src/eitohforge_sdk/core/rate_limit.py:36-45 | a call of which none before has dropped an admitted time in its window is admitted exactly when its window holds fewer admitted calls of its key than the maximum |
| RateLimiter.WindowsNeverGrowCovered | src/eitohforge_sdk/core/rate_limit.py:33-45 | that is so for all calls of a key whose windows never grow |
| RateLimiter.NoWindowOverLimit | src/eitohforge_sdk/core/rate_limit.py:26-45 | in every run, also of different rules, in which no call looks back at an admitted time that another dropped, no window (T - w, T] holds more admitted calls of a key than the maximum |
| RateLimiter.OneRuleKeepsLimit | src/eitohforge_sdk/core/rate_limit.py:26-45 | in every run under one rule no window (T - w, T] holds more admitted calls of a key than the maximum |
| RateLimiter.ShorterWindowForgets | src/eitohforge_sdk/core/rate_limit.py:36-37 | an input on which a call under a shorter window drops admitted times, and a call under a longer one is admitted over its limit |
| RateLimiter.RetryAfterExact | src/eitohforge_sdk/core/rate_limit.py:40-42 | the announced waiting time is the least sufficient whole number of seconds if and only if the rule admits any call and the kept time to wait for leaves the window in the same second as the oldest |
| RateLimiter.WaitExact | src/eitohforge_sdk/core/rate_limit.py:36-45 | after n whole seconds without another call of its key, a refused caller is admitted exactly when so many kept times have left the window that there is room |
| RateLimiter.SameMaximumToldRight | src/eitohforge_sdk/core/rate_limit.py:39-42 | the announced waiting time is right if no rule allowed more before |
| RateLimiter.GreaterMaximumToldWrong | src/eitohforge_sdk/core/rate_limit.py:39-42 | an input on which it is too short |
| RowHelpers.FilterRows | src/eitohforge_sdk/infrastructure/repositories/repository_row_helpers.py:28-29 | one filter pass keeps the matching rows in order, or raises at the first row whose values have no order |
| RowHelpers.FilteredRows | src/eitohforge_sdk/infrastructure/repositories/repository_row_helpers.py:21-33 | tenant scope, then every filter, then one stable sort per entry, or the error of one of them |
| RowHelpers.StableSortKeepsTies | src/eitohforge_sdk/infrastructure/repositories/repository_row_helpers.py:30-32 | a pass in either direction keeps each class of tied rows in the order it was in |
| RowHelpers.FilteredRowsOrdered | src/eitohforge_sdk/infrastructure/repositories/repository_row_helpers.py:21-33 | the result is a permutation of the rows in scope that satisfy every filter, ordered lexicographically with the last sort entry first, ties in stored order |
| RowHelpers.OrderIsDetermined | src/eitohforge_sdk/infrastructure/repositories/repository_row_helpers.py:30-33 | those properties leave exactly one result |
| RowHelpers.QueryRaisesExactly | src/eitohforge_sdk/infrastructure/repositories/repository_row_helpers.py:83-128 | a query raises exactly when a row in scope reaches a filter with values of no order, or a sort column mixes numbers and strings |
| FilterMeaning.OrderingKeeps | src/eitohforge_sdk/infrastructure/repositories/repository_row_helpers.py:93-100 | where the cells have an order with the operand, each ordering filter keeps exactly the rows whose cell stands in it |
| FilterMeaning.OrderingRaises | src/eitohforge_sdk/infrastructure/repositories/repository_row_helpers.py:93-100 | it raises exactly if some row has the field with a cell that has no order with the operand |
| FilterMeaning.IntFilters | src/eitohforge_sdk/infrastructure/repositories/repository_row_helpers.py:89-100 | on integers GT, GTE, LT, LTE and EQ keep exactly the rows in that relation |
| FilterMeaning.BetweenKeeps | src/eitohforge_sdk/infrastructure/repositories/repository_row_helpers.py:107-110 | BETWEEN keeps exactly the rows from the first to the second bound, both included |
| FilterMeaning.BetweenShape | src/eitohforge_sdk/infrastructure/repositories/repository_row_helpers.py:107-110 | it keeps nothing unless its operand is a sequence of two |
| FilterMeaning.BetweenRaises | src/eitohforge_sdk/infrastructure/repositories/repository_row_helpers.py:109 | it raises exactly if the first bound has no order with some cell, or the second has none with a cell that is not below the first |
| FilterMeaning.EqualityKeeps | src/eitohforge_sdk/infrastructure/repositories/repository_row_helpers.py:89-92 | EQ keeps the rows whose cell is the operand, NE the other rows that have the field |
| FilterMeaning.MembershipKeeps | src/eitohforge_sdk/infrastructure/repositories/repository_row_helpers.py:111-118 | IN keeps the rows whose cell equals an item, NOT_IN the other rows that have the field, and both keep none for an operand that is no sequence |
| FilterMeaning.ContainsKeeps | src/eitohforge_sdk/infrastructure/repositories/repository_row_helpers.py:101-102 | CONTAINS keeps the rows of whose text the operand is a part; an operand that is no string raises on the first row with the field |
| FilterMeaning.EndsKeep | src/eitohforge_sdk/infrastructure/repositories/repository_row_helpers.py:103-106 | STARTSWITH and ENDSWITH keep the rows whose text has that of the operand at its begin or end |
| FilterMeaning.PresenceKeeps | src/eitohforge_sdk/infrastructure/repositories/repository_row_helpers.py:119-122 | EXISTS keeps the rows with a value in the field, or with `None` in it for a false operand |
| FilterMeaning.TenantKeeps | src/eitohforge_sdk/infrastructure/repositories/repository_row_helpers.py:49-57 | with a tenant, the rows of other tenants go and rows without the field stay |
| FilterMeaning.FiltersTogether | src/eitohforge_sdk/infrastructure/repositories/repository_row_helpers.py:27-33 | a query returns, each as often as stored, exactly the rows that pass the tenant scope and every filter in queries of their own |
| FilterMeaning.OneSortOrders | src/eitohforge_sdk/infrastructure/repositories/repository_row_helpers.py:30-32 | a sort entry puts the cells in ascending or descending order, `None` last ascending and first descending, and raises exactly on a column with strings and numbers |
| SortAgreement.ReversedEntries | src/eitohforge_sdk/infrastructure/repositories/sqlalchemy_repository.py:287-292 | the dict-backed order is one that ORDER BY admits for the reversed entries, and where all values can be compared these are the same orders |
| SortAgreement.OneEntryAgrees | src/eitohforge_sdk/infrastructure/repositories/repository_row_helpers.py:21-33 | with at most one entry a dict-backed query returns its rows in an order that ORDER BY admits |
| SortAgreement.TwoEntriesDiffer | src/eitohforge_sdk/infrastructure/repositories/repository_row_helpers.py:30-33 | an input with two entries on which it does not |
| CursorPaging.SqlPagesAlike | src/eitohforge_sdk/infrastructure/repositories/sqlalchemy_repository.py:356-371 | with nothing filtered out the SQL and the dict-backed repository return the same pages outside keyset mode |
| CursorPaging.FollowYieldsRest | src/eitohforge_sdk/infrastructure/repositories/sqlalchemy_repository.py:356-387 | following SQL cursors from offset o yields exactly the rows from o on; the page count follows from the unfiltered total and the filtered rows |
| CursorPaging.LastPageEmptyExactly | src/eitohforge_sdk/infrastructure/repositories/sqlalchemy_repository.py:164-180 | the last cursor leads to an empty page if and only if the unfiltered total announces a page more than the filtered rows fill |
| CursorPaging.EmptyPageFollows | src/eitohforge_sdk/infrastructure/repositories/sqlalchemy_repository.py:164-180 | an input on which it does |
| CursorPaging.DictTraversal | src/eitohforge_sdk/infrastructure/repositories/memory_repository.py:116-128 | following dict-backed cursors yields exactly rows[o:] in max(1, ceil((n-o)/page_size)) pages, the ceiling by its bounds |
| CursorPaging.OtherModesRepeat | src/eitohforge_sdk/infrastructure/repositories/repository_row_helpers.py:42-46 | following a cursor makes progress exactly in cursor mode or when the first page is the last |
| Keyset.PagesFollowOrder | src/eitohforge_sdk/infrastructure/repositories/sqlalchemy_repository.py:287-380 | paging follows the leading ORDER BY column exactly when the first sort entry names a column, or the first that does is the ascending id |
| Keyset.DocumentationHolds | src/eitohforge_sdk/infrastructure/repositories/sqlalchemy_repository.py:373-380 | pages continue along the first applicable sort entry, or else the id, exactly when the first entry names a column, none does, or the first that does is the ascending id |
| Keyset.CursorRoundTrip | src/eitohforge_sdk/infrastructure/repositories/sqlalchemy_repository.py:389-404 | an int or string key survives the cursor text |
| Keyset.RemainingShrinks | src/eitohforge_sdk/infrastructure/repositories/sqlalchemy_repository.py:341-371 | the cursor of a page can be read back and leaves exactly the rows beyond its last row, fewer than before |
| Keyset.KeysetExact | src/eitohforge_sdk/infrastructure/repositories/sqlalchemy_repository.py:341-371 | following keyset cursors, with or without NULL in the column, yields every row once in database order if and only if every page end separates the rows by the column |
| Keyset.OrderedKeysetExact | src/eitohforge_sdk/infrastructure/repositories/sqlalchemy_repository.py:341-371 | with an explicit first sort that holds exactly when no NULL stands right before a page end or anywhere after it, and no tie lies across it |
| Keyset.LateNullLost | src/eitohforge_sdk/infrastructure/repositories/sqlalchemy_repository.py:346-367 | a row with NULL in the column that is not on the first page is never yielded |
| Keyset.NullRowLost | src/eitohforge_sdk/infrastructure/repositories/sqlalchemy_repository.py:346-367 | an input on which that loses a row |
| Keyset.DistinctColumnTraversal | src/eitohforge_sdk/infrastructure/repositories/sqlalchemy_repository.py:287-371 | with distinct non-NULL values, ascending or descending: every row once, in sort order, in ceil(n/page_size)+1 pages |
| Keyset.SortedTraversal | src/eitohforge_sdk/infrastructure/repositories/sqlalchemy_repository.py:287-380 | for any further sort entries and any order that `ORDER BY` admits: if the first entry names a column, all rows are yielded once in that order exactly on those page ends; distinct non-NULL values always are, in ceil(n/page_size)+1 pages |
| Keyset.UnsortedIdLosesRow | src/eitohforge_sdk/infrastructure/repositories/sqlalchemy_repository.py:373-380 | the id fallback, which ORDER BY does not get, can lose a row |
| Keyset.LaterSortIgnored | src/eitohforge_sdk/infrastructure/repositories/sqlalchemy_repository.py:287-380 | an input on which the documented column is not the one paged along, and a row is lost |
| Backoff.JobDelaysGrow | src/eitohforge_sdk/infrastructure/jobs/contracts.py:20-26 | job delays never fall with the attempt number and stay within the cap |
| Backoff.CallDelaysGrow | src/eitohforge_sdk/infrastructure/external_api/contracts.py:44-49 | the same for the delays between sends |
| Backoff.CallDelayAmounts | src/eitohforge_sdk/infrastructure/external_api/contracts.py:44-49 | no delay before the first attempt, the base before the second, and each further one the multiplier times the one before it, within 0 and the cap |
| Backoff.JobDelayAmounts | src/eitohforge_sdk/infrastructure/jobs/contracts.py:20-26 | a job delay is the whole seconds of the call delay under the same numbers |
| JobQueue.InMemoryBackgroundJobQueue.Enqueue | src/eitohforge_sdk/infrastructure/jobs/memory.py:32-46 | a new job goes to the back with no attempts made |
| JobQueue.InMemoryBackgroundJobQueue.RunNextJob | src/eitohforge_sdk/infrastructure/jobs/memory.py:48-56 | only a ready head is taken and dispatched |
| JobQueue.InMemoryBackgroundJobQueue.DispatchJob | src/eitohforge_sdk/infrastructure/jobs/memory.py:67-113 | without a handler, on success, at the last attempt and on retry: the new queue and the result |
| JobQueue.InMemoryBackgroundJobQueue.RunAllAvailable | src/eitohforge_sdk/infrastructure/jobs/memory.py:58-65 | the endless loop ends and does what draining specifies |
| JobQueue.RunNextWorks | src/eitohforge_sdk/infrastructure/jobs/memory.py:48-113 | every call that runs a job leaves strictly fewer attempts, whatever the handler does |
| JobQueue.DrainEnds | src/eitohforge_sdk/infrastructure/jobs/memory.py:58-65 | draining stops for every clock and outcome, exactly because the queue is empty or its head is delayed |
| JobQueue.Conserved | src/eitohforge_sdk/infrastructure/jobs/memory.py:32-117 | in every run the enqueued jobs are divided up among pending, dead-lettered and succeeded |
| JobQueue.ExactlyOnePlace | src/eitohforge_sdk/infrastructure/jobs/memory.py:32-117 | each enqueued job is in exactly one of the three |
| JobQueue.FirstDispatchesInOrder | src/eitohforge_sdk/infrastructure/jobs/memory.py:45-55 | first dispatches are a prefix of the enqueue order, and the jobs not yet tried wait in that order |
| JobQueue.HandlerRunsBounded | src/eitohforge_sdk/infrastructure/jobs/memory.py:79-95 | no handler runs more than max(1, max_attempts) times for one job |
| JobQueue.RetriesWaitOutDelay | src/eitohforge_sdk/infrastructure/jobs/memory.py:101-106 | two handler calls of one job lie at least the policy delay apart |
| JobQueue.RetryWaitsGrow | src/eitohforge_sdk/infrastructure/jobs/memory.py:101-106 | and these waits never get shorter, up to the cap |
| JobQueue.DeadLettersExhausted | src/eitohforge_sdk/infrastructure/jobs/memory.py:92-94 | a job whose handler ran is dead-lettered exactly when it failed its last allowed attempt |
| JobQueue.ResultsTellTruth | src/eitohforge_sdk/infrastructure/jobs/memory.py:48-113 | in every run a result is of the oldest pending job, counts the calls of its handler so far, and says truly whether it succeeded, waits last in the queue or is dead-lettered, nothing else being moved |
| JobQueue.NothingDueExactly | src/eitohforge_sdk/infrastructure/jobs/memory.py:48-56 | a call runs nothing exactly if the queue is empty or its head is not due, and then changes nothing |
| JobQueue.ReachableBounded | src/eitohforge_sdk/infrastructure/jobs/memory.py:92-106 | every reachable queue can be drained |
| CircuitBreaker.ResilientExternalApiClient.OnFailure | src/eitohforge_sdk/infrastructure/external_api/client.py:102-111 | the breaker after a failure, half-open or not |
| CircuitBreaker.ResilientExternalApiClient.PerformCall | src/eitohforge_sdk/infrastructure/external_api/client.py:32-88 | short circuit, attempts, sleeps, result and new breaker of one call |
| CircuitBreaker.AttemptsExactly | src/eitohforge_sdk/infrastructure/external_api/client.py:49-79 | every attempt before the last failed retryably, and the last succeeded, may not be retried or was the last allowed |
| CircuitBreaker.SleepsGrow | src/eitohforge_sdk/infrastructure/external_api/client.py:74-77 | a call sleeps longer and longer between its sends, up to the cap |
| CircuitBreaker.SleepsExactly | src/eitohforge_sdk/infrastructure/external_api/client.py:74-77 | with positive delays a call sleeps before each attempt but the first, as long as the strategy says for that attempt |
| CircuitBreaker.OpenIffThresholdReached | src/eitohforge_sdk/infrastructure/external_api/client.py:98-111 | in every interleaving the breaker is set exactly when the count has reached the threshold; this holds if and only if the threshold is at least 1 |
| CircuitBreaker.StateExactly | src/eitohforge_sdk/infrastructure/external_api/client.py:90-111 | whatever the threshold and the order of settling, the circuit is closed while there were fewer failures than the threshold since the last success, or none; otherwise open for the timeout after the last of them and half-open from then on |
| CircuitBreaker.FailuresTell | src/eitohforge_sdk/infrastructure/external_api/client.py:98-111 | after every run the failures since the last success determine the count and the moment of opening |
| CircuitBreaker.CallExactly | src/eitohforge_sdk/infrastructure/external_api/client.py:32-88 | a call is cut short exactly while the timeout runs; otherwise every attempt before the last may be retried, the last decides, the limit holds, and the call settles as it reports |
| CircuitBreaker.OpenBreakerPacesSends | src/eitohforge_sdk/infrastructure/external_api/client.py:32-111 | in sequential runs without success the k-th send after opening comes at least k recovery timeouts later |
| TagCache.MemoryCacheProvider.Get | src/eitohforge_sdk/infrastructure/cache/memory.py:18-25 | a live value, or nothing; an expired entry is dropped on the way |
| TagCache.AdvancedCacheProvider.DetachKeyFromTags | src/eitohforge_sdk/infrastructure/cache/invalidation.py:92-100 | the key leaves both maps, which stay mirrors without empty sets |
| TagCache.AdvancedCacheProvider.SetWithTags | src/eitohforge_sdk/infrastructure/cache/invalidation.py:29-44 | the entry is stored and its tags replaced by the normalised new ones |
| TagCache.AdvancedCacheProvider.Delete | src/eitohforge_sdk/infrastructure/cache/invalidation.py:46-51 | only a stored key loses its entry, its known mark and its tags |
| TagCache.AdvancedCacheProvider.InvalidateKeys | src/eitohforge_sdk/infrastructure/cache/invalidation.py:70-75 | exactly the given keys go, and the count is of those that were stored |
| TagCache.AdvancedCacheProvider.InvalidateTag | src/eitohforge_sdk/infrastructure/cache/invalidation.py:56-61 | the one-index cache without the keys that carry the normalised tag |
| TagCache.AdvancedCacheProvider.InvalidatePrefix | src/eitohforge_sdk/infrastructure/cache/invalidation.py:63-68 | the one-index cache without the known keys that start with the stripped prefix, and the count of those that were stored |
| TagCache.AdvancedCacheProvider.WriteThrough | src/eitohforge_sdk/infrastructure/cache/invalidation.py:77-90 | the prefixes go, one after another, before the value is written |
| TagCache.IndexIsLastWrite | src/eitohforge_sdk/infrastructure/cache/invalidation.py:24-100 | in every run stored keys are known and indexed under exactly the tags of their most recent write |
| TagCache.InvalidateTagExact | src/eitohforge_sdk/infrastructure/cache/invalidation.py:56-61 | invalidating a tag removes exactly the live keys whose most recent write carried it, and changes no other entry |
| TagCache.InvalidatePrefixExact | src/eitohforge_sdk/infrastructure/cache/invalidation.py:63-68 | the same for prefixes |
| TagCache.ReadsLastWrite | src/eitohforge_sdk/infrastructure/cache/invalidation.py:21-100 | in every run a key yields the value of its last write, exactly until its time to live is over or a deletion, a tag of that write or a prefix of the key removes it; other keys have no influence |
| TagCache.SameTagExactly | src/eitohforge_sdk/infrastructure/cache/invalidation.py:57 | two spellings name one tag exactly if they differ in letter case and surrounding whitespace only |
| TwoWayIndex.DiscardRelates | src/eitohforge_sdk/infrastructure/cache/invalidation.py:95-100 | taking a pair out of one map of sets, with its set when that empties, removes just that pair |
| TwoWayIndex.MirrorIsUnique | src/eitohforge_sdk/infrastructure/cache/invalidation.py:17-19 | of two maps that mirror each other without empty sets, each determines the other |
| SocketHub.InMemorySocketHub.Register | src/eitohforge_cli/template_parts/socket_templates.py:111-116 | a new connection under an id made from the counter |
| SocketHub.InMemorySocketHub.JoinRoom | src/eitohforge_cli/template_parts/socket_templates.py:127-135 | a live connection joins the stripped room; both maps gain the pair |
| SocketHub.InMemorySocketHub.LeaveRoom | src/eitohforge_cli/template_parts/socket_templates.py:137-152 | both maps lose the pair, and empty sets go |
| SocketHub.InMemorySocketHub.Disconnect | src/eitohforge_cli/template_parts/socket_templates.py:118-125 | the loop takes the connection out of every room it was in |
| SocketHub.InMemorySocketHub.Broadcast | src/eitohforge_cli/template_parts/socket_templates.py:173-200 | exactly the members of the room but the excluded one are sent the message, all of them live |
| SocketHub.GoneForever | src/eitohforge_cli/template_parts/socket_templates.py:111-152 | a connection that has gone is in no room, and never is again however the run goes on |
| SocketHub.LiveExactly | src/eitohforge_cli/template_parts/socket_templates.py:111-125 | in every run the n-th connection made is `conn-n`, and is live exactly until it is disconnected |
| SocketHub.MemberExactly | src/eitohforge_cli/template_parts/socket_templates.py:118-152 | in every run a connection is in a room exactly if it joined it, live and under any spelling, and neither left it nor was disconnected since |
| SocketHub.UnstrippedRoomIsEmpty | src/eitohforge_cli/template_parts/socket_templates.py:127-134 | a room name that is not stripped names no room |
| Base64Url.PadRestores | src/eitohforge_sdk/core/auth/jwt.py:282-289 | stripping the padding and adding `-len % 4` signs restores the padded text, and the stripped text is alphabet characters only |
| Base64Url.UrlRoundTrip | src/eitohforge_sdk/core/auth/jwt.py:282-291 | every byte string survives unpadded encoding and decoding |
| Base64Url.AlphabetExactly | src/eitohforge_sdk/core/auth/jwt.py:282-289 | the characters taken are the 64 of the alphabet of section 5 of RFC 4648, each read as the value it stands for |
| Base64Url.EncodedBits | src/eitohforge_sdk/core/auth/jwt.py:282-283 | every group of four characters stands for the 24 bits of its three bytes, the highest first, in the alphabet of section 5 of RFC 4648; a text of n bytes has ceil(8n/6) characters |
| Base64Url.EncodedVectors | src/eitohforge_sdk/core/auth/jwt.py:282-283 | two test vectors of section 10 of RFC 4648, and a text with the characters for 62 and 63 |
| CompactJwt.SplitJoin | src/eitohforge_sdk/core/auth/jwt.py:251-264 | three dot-free segments joined by dots split back into just those three |
| CompactJwt.ThreeSegments | src/eitohforge_sdk/core/auth/jwt.py:260-264 | a text with three segments is its segments joined |
| CompactJwt.TokenRoundTrip | src/eitohforge_sdk/core/auth/jwt.py:251-264 | decoding an encoded token yields its own claims |
| CompactJwt.TokenAcceptedExactly | src/eitohforge_sdk/core/auth/jwt.py:144-174 | an encoded token passes exactly when its claims meet type, expiry, issuer and audience |
| CompactJwt.AcceptedIsSigned | src/eitohforge_sdk/core/auth/jwt.py:148-152 | whatever is accepted is three segments of which the last signs the first two |
| CompactJwt.TextRefusedExactly | src/eitohforge_sdk/core/auth/jwt.py:148-156 | any text is refused as malformed unless it is three dot-free segments, as unsigned unless the last signs the first two, as unreadable unless the second decodes to an object; what is accepted is that object |
| CompactJwt.TokenRefusedExactly | src/eitohforge_sdk/core/auth/jwt.py:158-172 | an encoded token is refused for the first of type, missing expiry, expiry, issuer and audience that does not hold |
| CompactJwt.TamperEvident | src/eitohforge_sdk/core/auth/jwt.py:148-152 | if the digest tells inputs apart, two accepted texts with the same signature are the same text |
| RefreshTokens.JwtTokenManager.IssueTokenPair | src/eitohforge_sdk/core/auth/jwt.py:116-142 | the two tokens and the new record |
| RefreshTokens.JwtTokenManager.RotateRefreshToken | src/eitohforge_sdk/core/auth/jwt.py:176-191 | each way to fail and what it leaves, and the pair and records after success |
| RefreshTokens.JwtTokenManager.RevokeRefreshToken | src/eitohforge_sdk/core/auth/jwt.py:193-199 | the record a valid token names is revoked |
| RefreshTokens.IssuedPairSays | src/eitohforge_sdk/core/auth/jwt.py:116-142 | every claim of both issued tokens by name, the record of the refresh token, and that no other record changes |
| RefreshTokens.RotatedPairSays | src/eitohforge_sdk/core/auth/jwt.py:176-191 | a rotation with success carries subject and tenant of the used record over to both tokens and the new record, and revokes the used one only |
| RefreshTokens.RotationRefusedExactly | src/eitohforge_sdk/core/auth/jwt.py:178-188 | each way in which a rotation fails, in order, and what it leaves |
| RefreshTokens.RevokeExactly | src/eitohforge_sdk/core/auth/jwt.py:193-199 | a valid token revokes the record it names and nothing else; others change nothing |
| RefreshTokens.ReservedNamesKept | src/eitohforge_sdk/core/auth/jwt.py:230-245 | additional claims without reserved names leave the reserved claims as issued |
| RefreshTokens.TokenNamesExactly | src/eitohforge_sdk/core/auth/jwt.py:144-248 | for every set of additional claims, an issued refresh token passes for an id exactly if they leave type, expiry, issuer and audience as expected and the id is their `jti`, or its own without one |
| RefreshTokens.NamesId | src/eitohforge_sdk/core/auth/jwt.py:178-181 | a token with given claims passes for an id, is of the wrong type or lacks an id exactly as its claims say |
| RefreshTokens.IssuedTokenNamesRecord | src/eitohforge_sdk/core/auth/jwt.py:219-248 | a refresh token names its own record exactly if the additional claims leave it admissible and hold no other `jti`; without reserved names, until the whole second of its expiry |
| RefreshTokens.FreshTokenRotates | src/eitohforge_sdk/core/auth/jwt.py:176-191 | for every set of additional claims, a fresh refresh token rotates exactly while it is admissible and the record it names is unrevoked and unexpired; the access token is of the wrong type exactly unless they replace it |
| RefreshTokens.OverriddenIdWins | src/eitohforge_sdk/core/auth/jwt.py:244-245 | an admissible token passes for another id than its own exactly if the additional claims hold that id as `jti` |
| RefreshTokens.RevokedForever | src/eitohforge_sdk/core/auth/jwt.py:86-89 | a revoked record stays revoked in every continuation of a run |
| RefreshTokens.RecordRotatesAtMostOnce | src/eitohforge_sdk/core/auth/jwt.py:176-191 | in every run no record is used up by two successful rotations, whatever texts name it |
| RefreshTokens.RotatesAtMostOnce | src/eitohforge_sdk/core/auth/jwt.py:176-191 | in every run no token text is rotated with success twice |
| RefreshTokens.RevokedNeverRotates | src/eitohforge_sdk/core/auth/jwt.py:193-199 | after a revocation that found its record the token is never rotated |
| RefreshTokens.OneUsablePerChain | src/eitohforge_sdk/core/auth/jwt.py:176-191 | each chain started by one issued pair has at most one unrevoked record at any time |
| RequestSigning.InMemoryRequestNonceStore.Prune | src/eitohforge_sdk/core/request_signing.py:65-68 | the loop drops exactly the expired nonces |
| RequestSigning.InMemoryRequestNonceStore.MarkNonce | src/eitohforge_sdk/core/request_signing.py:57-63 | an unexpired nonce is refused, any other remembered with its expiry |
| RequestSigning.RequestSigningMiddleware.HandleRequest | src/eitohforge_sdk/core/request_signing.py:106-144 | the verdicts in the order of the checks, and the store after each |
| RequestSigning.VerdictExactly | src/eitohforge_sdk/core/request_signing.py:106-144 | in every run the first check that fails decides, the nonce by what was remembered last and the signature by the five lines |
| RequestSigning.AcceptedExactly | src/eitohforge_sdk/core/request_signing.py:106-144 | a request is accepted if and only if its headers are there, its timestamp is a number within the skew, its nonce is not on record, and its signature is that of its five lines under a known secret |
| RequestSigning.TamperEvident | src/eitohforge_sdk/core/request_signing.py:71-80 | if the digest tells inputs apart, two requests accepted with one secret and one signature agree in method, path, timestamp, nonce and body digest |
| RequestSigning.RecordsLast | src/eitohforge_sdk/core/request_signing.py:57-68 | a nonce is on record from when it is remembered until a reading of the clock at or after its expiry |
| RequestSigning.ReplayedExactly | src/eitohforge_sdk/core/request_signing.py:106-126 | a request is refused as a replay if and only if its headers and timestamp pass and its nonce was remembered and has not expired, whatever the signatures |
| RequestSigning.NoReplay | src/eitohforge_sdk/core/request_signing.py:113-126 | if nonce_ttl >= 2*skew + 1 + the lag between the two clock readings, no (key id, nonce, timestamp) is accepted twice in any run |
| RequestSigning.ShorterLifeAdmitsTwo | src/eitohforge_sdk/core/request_signing.py:113-126 | for every properly signed request whose timestamp can pass, two arrivals of which both are accepted if and only if the nonce lives shorter than its timestamp passes plus the lag |
| RequestSigning.ReplayableExactly | src/eitohforge_sdk/core/request_signing.py:113-126 | some run accepts a properly signed request twice if and only if its timestamp can pass and the nonce may expire, up to the lag, before it |
| Saga.SagaOrchestrator.Run | src/eitohforge_cli/templates.py:1151-1186 | result, business state and logged events of a run |
| Saga.SagaOrchestrator.Compensate | src/eitohforge_cli/templates.py:1172-1178 | the loop offers compensation to the executed steps in reverse, and goes on past those that raise |
| Saga.FailsAtFirst | src/eitohforge_cli/templates.py:1160-1163 | the steps before the one that raises succeeded one after another |
| Saga.EveryStepOffered | src/eitohforge_cli/templates.py:1171-1178 | after a failure every executed step is offered compensation, last first, each in the state the offer before it left, raising or not; those that do not raise are listed |
| Saga.LoggedInOrder | src/eitohforge_cli/templates.py:1157-1186 | the log entry by entry: start, executed steps, compensated steps, end |
| Saga.StampedInOrder | src/eitohforge_cli/templates.py:1157-1186 | every entry carries the name and id of its saga |
| Saga.VerdictExactly | src/eitohforge_cli/templates.py:1159-1186 | status, executed and compensated names and the event log, and exactly when every executed step is listed as compensated |
| Saga.CompensatedInPart | src/eitohforge_cli/templates.py:1171-1186 | an input on which the status is `compensated` and a step stays as it was |
| Saga.CompensationGoesOn | src/eitohforge_cli/templates.py:1171-1178 | an input on which the first compensation offered raises and the next still runs |
| Saga.FailedSagaRestores | src/eitohforge_cli/templates.py:1171-1186 | if in the states reached the executed steps are undone by their compensations and the failing step changes nothing, a failed run restores the business state |

## Left out

- Non-ASCII source text: letters, digits and spaces outside ASCII are not classified as Python does, so identifiers and strings of policies and tags are only exact on ASCII outside string literals.
- Token positions and the wording of error messages; errors keep their kind and the tokens they name.
- Float rounding: a number with a dot is its exact decimal numeral, delays and times are exact numbers.
- PolicyEval.ResolveRef: attributes other than the three fields of a principal are not modelled, because they belong to Python's objects; a reference into any other value that is not a mapping yields `None`.
- Recursion limits of the interpreter on deeply nested expressions.
- PolicyEval.OrderingsAgree: does not state that the orderings are transitive, because that belongs to Python's values and not to the evaluator.
- RowHelpers.FilteredRows: `list.sort` is replaced by the only stable sort there is; its internal order of comparisons is not modelled.
- Row values other than `None`, booleans, integers and strings, and resolving the tenant from the ambient context.
- Creating, updating and deleting rows, `apply_write_context` and specification objects: short case distinctions on one row.
- CursorPaging.DictTraversal: page-size limits of the DTO other than at least 1 are not used.
- Keyset.KeysetExact: float, bool and datetime columns are not modelled; text is compared by code points, as a binary collation does, and not by the locale of a database.
- SQL sessions, `search_path` and the database: a statement is a filter over rows in the order the database returns them. The filters of `_apply_query` are not modelled apart from that order.
- Text-to-integer conversion accepts an optional minus sign and digits; the other spellings that `int` accepts are not modelled.
- Handlers that enqueue jobs while the queue drains, and concurrency inside the limiter, cache, hub and job queue.
- Cached values that are themselves `None`, and `exists`, which is a `get`.
- Connection objects, principals and presence grouping of the hub, and failures while sending.
- Base64Url.UrlRoundTrip: the decoder of the model rejects characters outside the alphabet, which the library skips; no claim is made about such texts.
- Claims whose value is a boolean, which Python takes for 0 or 1 where it asks for an integer expiry.
- UTF-8 encoding of signing inputs, the length check on secrets, and signature schemes: the digest is any function.
- Requests that the signing rule does not cover, and reading the body.
- RequestSigning.NoReplay: needs a clock at or after zero, because truncation toward zero widens the window around it.
- Exceptions raised by the saga's state store itself.
- FastAPI and Starlette wiring, settings, network and vendor adapters, CLI commands, feature flags, registries and templates: plumbing and short case distinctions.
