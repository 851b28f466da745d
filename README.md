# Code smell detector and the library sample, modelled in Dafny

This project models two Python files.

The first is the core of the code smell detector, `CodeSmellDetector` in
`detector/smell_detector.py`. It covers:
- the resolver that picks the active smells from the configuration and the
  only/exclude lists;
- `analyze_file`, which runs the detector of each active smell on a parsed file;
- the six detectors: LongMethod, GodClass, DuplicatedCode, LargeParameterList,
  MagicNumbers and FeatureEnvy;
- `get_context_for_node`, which names the function or class around a magic
  number.

The second is `LibraryManagementSystem` in `detector/smelly_code.py`, the
deliberately smelly sample the detector is run on. It covers adding books,
registering members, checkout, the overdue fee processing with its
notifications and counters, and the two search functions.

Modules:
- `SyntaxTree` (`syntax_tree.dfy`): the parsed tree, as a datatype of the node
  kinds the detectors look at. It defines `ast.walk` as the breadth-first queue
  loop that it is. The walk is proved to be a permutation of a depth-first
  listing of the tree.
- `SmellRules` (`smell_rules.dfy`): what each tree detector decides about one
  walked node. For each detector, a lemma states what the detector reports over
  the whole tree: a finding exactly for the nodes that cross the threshold, with
  the values the source records.
- `Duplicates` (`duplicates.dfy`): line normalisation and the window search of
  DuplicatedCode. The search includes its suppression test on the rendered
  `lines1` labels, which is proved to mean "a pair for this start was already
  recorded". The reported pairs are characterised uniquely: one pair per start
  that has a similar partner, holding the nearest partner, in start order.
- `SmellConfig` (`smell_config.dfy`): the configuration, the default
  configuration and `determine_active_smells`.
- `SmellDetector` (`smell_detector.dfy`): the `CodeSmellDetector` class. Its
  `results` map is updated in place by one method per detector. Each method's
  loop is proved against the specification functions of `SmellRules` and
  `Duplicates`.
- `Library` (`library.dfy`): the `LibraryManagementSystem` class. Its tables are
  class fields that the methods update, under an invariant:
  - `book_categories` indexes `books` by category;
  - members are numbered 1, 2, … in registration order, and `member_types`
    mirrors them;
  - each lent copy has exactly one transaction;
  - each member's `borrowed_books` lists the isbns of that member's
    transactions;
  - every recorded fee is positive.
- `Text`, `Seqs` and `Wrappers`: the Python string operations used
  (`strip`, `split`, `lower`, `startswith`, `str(n)`), generic sequence lemmas,
  and `Option`.

In the source, `book_categories` holds the same book dictionaries as `books`. A
checkout decrements `available` through that shared object, and both tables see
the change. The model keeps `book_categories` as positions into `books`, so the
sharing is kept as it is.

The duplicate search lets both loops stop before `len(normalized_lines) -
min_lines`, so the window that ends on the last normalised line is never
compared. With `min_lines = 3`, the lines `a, b, c, a, b, c` contain two
identical windows, yet nothing is reported. The model keeps these bounds, and
`Duplicates.LastWindowNeverCompared` shows the example.

## Model

| member | source | states |
|---|---|---|
| SmellConfig.SmellKindsComplete | detector/smell_detector.py:20-27 | the results map has a list for each of the six kinds, and the kinds are told apart by their names |
| SmellConfig.ActiveSmells | detector/smell_detector.py:52-64 | every active smell is a key of the configuration's `smells` table |
| SmellConfig.OnlyListSelection | detector/smell_detector.py:56-57 | with an only-list, the active smells are the listed names that are configured, in list order and with their repetitions; unknown names are dropped |
| SmellConfig.ExcludeListSelection | detector/smell_detector.py:58-60 | with an exclude-list and no only-list, the active smells are the configured names not excluded, in configuration order |
| SmellConfig.EnabledSelection | detector/smell_detector.py:61-62 | with neither list, a configured smell is active if and only if its `enabled` flag is set; the order is the configuration order |
| SmellConfig.IsEnabledFindsEntry | detector/smell_detector.py:62 | looking up a configured name yields that entry's own `enabled` flag |
| SmellConfig.DefaultConfigRunsEverySmell | detector/smell_detector.py:39-50 | the default configuration activates all six smells, in the order `analyze_file` runs them |
| SmellDetector.CodeSmellDetector.constructor | detector/smell_detector.py:18-28 | a detector starts with six empty result lists and no active smell |
| SmellDetector.CodeSmellDetector.DetermineActiveSmells | detector/smell_detector.py:52-64 | the resolver's choice is stored and returned, and it contains only configured names |
| SmellDetector.CodeSmellDetector.AnalyzeFile | detector/smell_detector.py:66-95 | the results map after the six guarded detector runs on the lines of `source.split('\n')` |
| SmellDetector.CodeSmellDetector.DetectIfActive | detector/smell_detector.py:79-95 | an active detector appends its findings to its own list only; an inactive one changes nothing |
| SmellDetector.AnalysisAppends | detector/smell_detector.py:79-95 | after `analyze_file`, each active kind's list has gained exactly its detector's findings, once, and every other list is unchanged |
| SmellDetector.DuplicateFindings | detector/smell_detector.py:177-182 | DuplicatedCode appends exactly one finding, holding all pairs, if and only if some pair was found |
| SmellDetector.CodeSmellDetector.DetectLongMethods | detector/smell_detector.py:97-115 | LongMethod appends the findings of its per-node test over the whole walk, in walk order; no other list changes |
| SmellDetector.CodeSmellDetector.DetectGodClasses | detector/smell_detector.py:117-145 | GodClass appends the findings of its per-class test over the walk; no other list changes |
| SmellDetector.CountInitAttributes | detector/smell_detector.py:126-135 | the attribute counter is the number of `self.<attr>` assignment targets met by walking each synchronous `__init__` of the class body |
| SmellDetector.CodeSmellDetector.DetectDuplicatedCode | detector/smell_detector.py:147-182 | DuplicatedCode appends the single finding over the pairs of the window search on the normalised lines, if there is a pair |
| SmellDetector.CodeSmellDetector.DetectLargeParameterLists | detector/smell_detector.py:184-205 | LargeParameterList appends the findings of its per-definition test over the walk |
| SmellDetector.CodeSmellDetector.DetectMagicNumbers | detector/smell_detector.py:207-234 | MagicNumbers appends the findings of its per-literal test over the walk |
| SmellDetector.JudgeNumber | detector/smell_detector.py:211-234 | one walked node yields a finding with its line, value and context exactly when it is a numeric literal that is not allowed |
| SmellDetector.ContextForNode | detector/smell_detector.py:236-243 | the context is the name of the first synchronous function or class in walk order whose span contains the line, or `"module"` |
| SmellDetector.CodeSmellDetector.DetectFeatureEnvy | detector/smell_detector.py:245-280 | FeatureEnvy appends the findings of its per-method test over the walk |
| SmellDetector.JudgeEnvy | detector/smell_detector.py:250-280 | one walked node yields a finding exactly when it is a synchronous method with a `self` receiver whose external ratio exceeds the threshold and which has more than three external accesses |
| SmellDetector.CountAccesses | detector/smell_detector.py:255-264 | the two counters are the `self.<attr>` accesses and the `<other name>.<attr>` accesses over the method's whole subtree |
| SyntaxTree.WalkVisitsEveryNode | detector/smell_detector.py:101 | `ast.walk` yields the root first, then every node of the tree exactly as often as a depth-first listing does |
| SyntaxTree.WalkFromPrefix | detector/smell_detector.py:238 | the walk is breadth-first: the nodes already queued come out first, in queue order |
| SyntaxTree.WalkTopLevel | detector/smell_detector.py:238 | walking a module yields its top-level statements right after the module, in order, before any nested node |
| SmellRules.MethodLength | detector/smell_detector.py:103-105 | a definition's length counts both boundary lines, and is 1 when the end line is missing |
| SmellRules.ParameterCount | detector/smell_detector.py:190-193 | the count is the number of positional parameters, one less exactly when the first is `self` or `cls` |
| SmellRules.FindContext | detector/smell_detector.py:238-243 | the position found is the first enclosing node, and no node before it encloses the line; if none is found, no node encloses it |
| SmellRules.ScanWalk | detector/smell_detector.py:101 | the findings of a `for node in ast.walk(tree)` loop are a reordering of those of a depth-first visit, and a finding is present if and only if some node of the tree produces it |
| SmellRules.LongMethodReport | detector/smell_detector.py:97-115 | a definition anywhere in the tree is reported, with its span, length and threshold, if and only if it spans more than `max_lines` lines; every finding comes from such a definition |
| SmellRules.NestedDefsJudgedIndependently | detector/smell_detector.py:101-107 | a long definition nested inside another one is reported whatever the enclosing definition's verdict |
| SmellRules.GodClassReport | detector/smell_detector.py:117-145 | a class anywhere in the tree is reported, with its method and attribute counts, if and only if one of them exceeds its threshold; every finding comes from such a class |
| SmellRules.MethodCountDirectDefs | detector/smell_detector.py:124 | the method count covers exactly the direct body items that are definitions, each with its multiplicity |
| SmellRules.InitAttributesDepthFirst | detector/smell_detector.py:127-135 | the attributes of an `__init__` are its `self.<attr>` assignment targets over the whole subtree, repeats included, whatever the walk order |
| SmellRules.AttributeCountOrderFree | detector/smell_detector.py:127-135 | the attribute count of a class body does not depend on the order of its items |
| SmellRules.ParameterListReport | detector/smell_detector.py:184-205 | a definition anywhere in the tree is reported, with its count and full parameter list, if and only if the count exceeds `max_parameters`; every finding comes from such a definition |
| SmellRules.MagicNumberReport | detector/smell_detector.py:207-234 | a numeric literal anywhere in the tree is reported, with its line and context, if and only if its value is not allowed; no allowed value is ever reported |
| SmellRules.ContextIsEnclosing | detector/smell_detector.py:236-243 | the context is `"module"` when no candidate of the tree spans the line, and otherwise the name of a candidate that does |
| SmellRules.TopLevelContext | detector/smell_detector.py:236-243 | in a module, the first top-level function or class spanning the line names the context, even when a method inside it also spans the line |
| SmellRules.FeatureEnvyReport | detector/smell_detector.py:245-280 | every envious synchronous method with a `self` receiver anywhere in the tree is reported, with its counts, its ratio and the threshold; every finding comes from such a method |
| SmellRules.FeatureEnvyFindingsBounds | detector/smell_detector.py:266-270 | every FeatureEnvy finding has more than three external accesses and an external ratio above the threshold |
| SmellRules.AccessCountsDepthFirst | detector/smell_detector.py:258-264 | the access counts of a method do not depend on the walk order |
| SmellRules.EnvyMonotone | detector/smell_detector.py:266-270 | more external accesses never clear a flagged method, and fewer self accesses never clear one |
| Duplicates.NormalizeLines | detector/smell_detector.py:153-157 | the normalisation loop yields the stripped lines that are neither blank nor comments |
| Duplicates.NormalizedLines | detector/smell_detector.py:153-157 | the normalised lines are the kept stripped lines, in input order, each occurring as often as among the stripped lines (repeats kept), and there are at most as many as input lines |
| Duplicates.NormalizedLinesAreClean | detector/smell_detector.py:153-157 | every normalised line is non-empty, does not start with `#` and is already stripped |
| Duplicates.Similarity | detector/smell_detector.py:166 | the similarity of two windows is a fraction between 0 and 1 |
| Duplicates.FirstPartner | detector/smell_detector.py:161-175 | the partner found for a start is similar to it, and no smaller compared partner is similar; if none is found, no compared partner is similar |
| Duplicates.LabelStartsWith | detector/smell_detector.py:170 | for a pair recorded no later than start `i`, `lines1` starts with `str(i+1)` if and only if the pair starts at `i` |
| Duplicates.SuppressionMeansRecorded | detector/smell_detector.py:169-175 | during the inner loop for start `i`, the suppression test holds if and only if a pair for `i` was already recorded |
| Duplicates.FindPartner | detector/smell_detector.py:161-175 | the inner loop adds the pair with the nearest similar partner of start `i`, if there is one |
| Duplicates.FindDuplicates | detector/smell_detector.py:160-175 | the two loops yield the search's pairs |
| Duplicates.DuplicateReport | detector/smell_detector.py:160-175 | the pairs found are in increasing order of start, one per start with a similar partner, each with the nearest such partner, the window length and the exact similarity |
| Duplicates.DuplicateReportUnique | detector/smell_detector.py:160-175 | any list with the report property is the search's list |
| Duplicates.LastWindowNeverCompared | detector/smell_detector.py:160-161 | with `min_lines = 3`, the lines `a, b, c, a, b, c` hold two identical windows, yet no pair is reported |
| Text.SplitJoin | detector/smell_detector.py:77 | joining the pieces of `split` with the separator gives back the string, and no piece contains the separator |
| Text.StripSlice | detector/smell_detector.py:155 | `strip` removes a run of leading and a run of trailing whitespace and nothing else |
| Text.StripIdempotent | detector/smell_detector.py:155 | stripping twice is stripping once |
| Text.ParseDecimalString | detector/smell_detector.py:170 | the decimal rendering `str(n)` parses back to `n` |
| Text.ProperDecimalPrefix | detector/smell_detector.py:170 | if `str(a)` is a proper prefix of `str(b)`, then `b >= 10 * a` |
| Text.LowerIdempotent | detector/smelly_code.py:189 | lower-casing twice is lower-casing once |
| Library.LibraryManagementSystem.constructor | detector/smelly_code.py:18-26 | a new system has all its tables empty, and they are consistent |
| Library.LibraryManagementSystem.AddBook | detector/smelly_code.py:28-41 | one more book with every copy available is listed under its category, and the category is created when new; all other tables are unchanged, and the invariant holds |
| Library.AddedBook | detector/smelly_code.py:28-41 | adding a book keeps the tables consistent |
| Library.AddedBookIndexed | detector/smelly_code.py:39-41 | after adding a book, each category's list is the positions of that category's books |
| Library.CategoryIndicesExact | detector/smelly_code.py:39-41 | a category list holds exactly the positions of that category, each once and in increasing order |
| Library.LibraryManagementSystem.RegisterMember | detector/smelly_code.py:43-56 | the new member gets the next id, has borrowed nothing, and has its type recorded; all other tables are unchanged, and the invariant holds |
| Library.RegisteredMember | detector/smelly_code.py:43-56 | registering a member keeps the tables consistent |
| Library.RegisteredMemberNumbered | detector/smelly_code.py:46-56 | members stay numbered 1, 2, … in registration order, and `member_types` mirrors them |
| Library.FirstMatch | detector/smelly_code.py:63-67 | the position found is the first one satisfying the test; if none is found, no position satisfies it |
| Library.LibraryManagementSystem.FindBook | detector/smelly_code.py:63-67 | the book search finds the first book with that isbn and a copy left |
| Library.LibraryManagementSystem.FindMember | detector/smelly_code.py:72-76 | the member search finds the first member with that id |
| Library.LibraryManagementSystem.ProcessBookCheckout | detector/smelly_code.py:58-93 | a checkout succeeds if and only if an available copy and the member exist; then it takes one copy, adds the isbn to that member's list and records the transaction; on failure nothing changes |
| Library.LibraryManagementSystem.Lend | detector/smelly_code.py:81-92 | lending takes one copy, adds the isbn to the member's list and appends the transaction, and the invariant holds |
| Library.CheckedOut | detector/smelly_code.py:81-92 | a checkout keeps the tables consistent |
| Library.CheckoutLends | detector/smelly_code.py:81-92 | after a checkout, the lent copies still equal the transactions, and each member's list is still their transactions' isbns |
| Library.LibraryManagementSystem.ProcessOverdueFees | detector/smelly_code.py:95-155 | for a known member: the report of their overdue unreturned loans with the total fee, the fees charged to their key only, a notice per book (a second one past 30 days) and the overdue counter raised; for an unknown member: no report and no change |
| Library.LibraryManagementSystem.ChargeOverdue | detector/smelly_code.py:109-144 | the transaction loop yields the overdue books, their total, the fee table and the notifications |
| Library.ChargeTransaction | detector/smelly_code.py:113-144 | one transaction adds its overdue entry, fee, charge and notifications, or changes nothing |
| Library.LibraryManagementSystem.Record | detector/smelly_code.py:146-148 | the fee table and notifications are replaced, and `overdue_count` is raised by the number of overdue books, starting at zero |
| Library.OverdueFee | detector/smelly_code.py:119-126 | the fee of an overdue book is positive |
| Library.FeeAccrues | detector/smelly_code.py:119-126 | the fee schedule equals day-by-day accrual at 5, 10, 15 and 20 a day, without jumps at days 7, 14 and 30, where it stands at 35, 105 and 345 |
| Library.FeeIncreasing | detector/smelly_code.py:119-126 | every extra day overdue costs more |
| Library.OverdueBooksExact | detector/smelly_code.py:112-133 | the overdue books are exactly the member's unreturned transactions with a positive delay, each with that delay and its scheduled fee |
| Library.OverdueTotal | detector/smelly_code.py:116-133 | each reported book is overdue and charged by the schedule, so a non-empty report has a positive total |
| Library.NoticeCount | detector/smelly_code.py:139-144 | the notifications are one per overdue book plus one per book more than 30 days overdue |
| Library.ChargedOnlyMember | detector/smelly_code.py:135-137 | the fee lands on the member's key only; the key is created only when a fee is charged |
| Library.SearchBooks | detector/smelly_code.py:187-199 | the search loop returns nothing when no book matches, and otherwise lists the matching books |
| Library.SearchBooksByAuthor | detector/smelly_code.py:182-199 | `search_books_by_author` is the search on the author field |
| Library.SearchBooksByCategory | detector/smelly_code.py:202-219 | `search_books_by_category` is the search on the category field |
| Library.SearchFindsMatches | detector/smelly_code.py:187-199 | a search returns nothing if and only if no book matches; otherwise it lists every matching book, and only those, in library order |
| Library.SearchIgnoresCase | detector/smelly_code.py:189 | the search ignores the case of the name searched for |

## Left out

- Reading files is not modelled: `open`, `yaml.safe_load` (`load_config`) and
  `ast.parse` with its `SyntaxError` path. The detector receives a configuration
  value, a parsed tree and the source text.
- The command-line entry point (`main`) is not modelled. The report functions
  `generate_report` and `save_report` are not modelled either, since they only
  format findings and print or write them.
- Findings carry no rendered `message` text, and no `lines`/`lines1`/`lines2`
  strings. The duplicate search's suppression test does render `lines1` and
  compares it literally.
- Library.FeeReport leaves out `notifications_sent`. That field counts the
  notification strings that contain `str(member_id)` as a substring. Notifications
  are modelled by the facts they state, not as formatted strings, so this
  substring count cannot be stated.
- Floating point is not modelled. Thresholds, similarities and ratios are exact
  reals.
- Rounding is not modelled. DuplicatedCode's `similarity` is stored exactly
  rather than as `round(similarity * 100, 1)`, and FeatureEnvy's `ratio`
  exactly rather than `round(..., 2)`.
- SmellRules.MagicNumberVerdict covers only int and float literals. Boolean
  literals reach the `ast.Constant` branch of the source, because `bool` is a
  subclass of `int`; the model does not cover them. Complex literals are left out
  too.
- The `ast.Num` and `ast.Constant` branches of `detect_magic_numbers` are
  modelled as one test, since both record the same values.
- The syntax tree is a closed datatype of the node kinds the detectors inspect.
  Every other node kind keeps only its children, in `ast.iter_child_nodes` order.
- The `ctx` child (`Load`/`Store`) of `Attribute` and `Name` nodes is not
  modelled, and neither is the `type_params` child of a `ClassDef` (Python
  3.12+). Both are leaves that produce no finding, and dropping them does not
  change the relative order in which the walk visits the other nodes.
- Text.LowerChar folds only ASCII letters. Python's `str.lower()` also folds
  other Unicode letters.
- A missing `end_lineno` is modelled as an absent value. The context lookup skips
  such a definition, and LongMethod uses `lineno`. Trees produced by `ast.parse`
  always carry `end_lineno`. In the source, a `None` end line would make the
  comparison in `get_context_for_node` raise. It would also make LongMethod's
  subtraction at `end_line - start_line` raise: from Python 3.8 on, `hasattr`
  always finds `end_lineno`, so the source never takes its `else start_line`
  fallback. The model's length of 1 follows that fallback.
- SmellDetector.CodeSmellDetector.DetectDuplicatedCode requires `min_lines > 0`.
  With `min_lines = 0` and at least one normalised line, the source divides by
  zero. A negative `min_lines` makes it compare slices of unequal length. Neither
  case is modelled, and `SmellDetector.Findings` gives no DuplicatedCode finding
  for them.
- SmellDetector.CodeSmellDetector.AnalyzeFile requires `min_lines > 0` when
  DuplicatedCode is active, for the same reason.
- SmellDetector.CodeSmellDetector.DetectIfActive requires the same of its
  DuplicatedCode run.
- Each detector reads its thresholds from fields of the loaded configuration.
  A configuration that lacks an entry or a key is not modelled; the source would
  raise `KeyError` there.
- `datetime` is not modelled. Dates are whole day numbers, so
  `(return_date - due_date).days` is a subtraction.
- `registration_date` is not modelled: it takes the current time.
- `generate_member_report` is not modelled. It only formats a member's fields
  into a string.
