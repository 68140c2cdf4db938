# Verified models of tokora's planners, parsers and fixtures

This project models the logic of the tokora repository that carries an argument, and proves the
argument. Each module follows one source component.

* `Scheduling`, `MiriShard`: the greedy longest-processing-time scheduler of the Miri shards, its
  partition checker and its flag lines. The header's 4/3 bound is Graham's theorem, proved here
  for every weight table, shard count and rival assignment; every shard count reaches it.
* `CfgLexer`, `CfgSpans`, `CfgScan`, `CfgTokens`, `CfgParse`, `CfgReading`, `CfgGate`, `CfgPredicate`,
  `CfgFeatures`, `CfgLegs`: the feature-coverage gate. The source lexer and the two scanners that read
  under its mask, the token pattern and the predicate parser, the gate of a whole file, the
  three-valued evaluation and its polarity walk, the feature closure, and the subset dominance that
  says which CI legs may be deleted.
* `Regex`, `JsonStrings`: the two strict JSON string rules and the loose one, as the regular
  expressions are written, and the exact relation between their languages.
* `TokenInput`, `EventTree`, `SExpression`, `SExpressionCst`, `JsonCst`: the example parsers over a
  position in a token sequence, the lossless ones with a log of opened and closed nodes. Each is
  proved against a parsing function, and that function against a declarative spelling of trees; a
  reader of logs that knows only events rebuilds the tree.
* `PrattDriver`, `PrattPairs`, `PrattChains`: the token-level Pratt driver against the precedence
  grammar it implements, its two kinds of emitter, the laws of two operators over one operand, and
  what it makes of the benchmark's chains.
* `SurfaceDiff`, `SurfaceBinding`, `SurfaceMemo`, `SurfaceView`, `SurfaceWalk`: memoised glob
  resolution, what an item binds, what one memo for many roots keeps and loses, and the walk over
  public modules, with exactly when it ends.
* `ChainFold`, `ChainSource`, `ChainReader`: the benchmark's checksum modulo 2^64, its fixture
  generators, and a reader of what they write.
* `Spelling`, `Fences`: the path-dropping loop and the fence reader of the API-digest census.
* `Wrappers`, `Sequences`, `Sorting`: shared helpers.

Loops and objects that change state are methods and classes, proved against functions of their
inputs; the laws are lemmas about those functions, and say in letters, places and counts what the
functions compute. White space, word characters and weights are parameters where the source takes
them from its surroundings.

Where the code and its own text disagree, the model follows the code:

* `ci/miri_shard.py:946-947` says the scheduler cannot leave a shard empty. With zero weights it
  can; `MiriShard.PlanEmptiness` gives the exact condition.
* `tokora-benches/benches/pratt_typed.rs:954-957` says that permuting any operands changes the left
  value. Exchanging two does; `ChainFold.LastDifferenceDecides` says exactly when any change does, and
  `ChainFold.LeftCollision` shows a permutation that does not.
* `ci/feature_cfg_coverage.py:656-677` promises the conjunction of the crate attributes. The joined
  text means that only for parts that the token pattern reads to their end, without a dangling `=` or
  a leading `)` (`CfgGate.GateIsTheConjunction`).
* `tokora/src/api_digest_census.rs:538-541` describes dropping leading path segments. A plain
  left-to-right pass does not always finish that; the loop does, and `Spelling.LoopIsPassIff` says
  when the two agree.
* `ci/name_collision/surface_diff.py:70-76` memoises what a cut search returned, so on a glob cycle
  a shared memo loses names; `SurfaceMemo.GraphDecides` says on which glob graphs it can.

## Model

| member | source | states |
|---|---|---|
| Scheduling.GrahamBound | ci/miri_shard.py:22-26 | For any rival assignment of makespan L on the same m machines, every machine load of greedy LPT is at most (4m-1)/(3m) of L, the "at most 4/3 of optimal" of the header |
| Scheduling.GrahamBoundIsReached | ci/miri_shard.py:22-26 | For every number of machines m the bound is reached: there are jobs of which greedy LPT puts 4m-1 on one machine, an assignment keeps every machine at 3m, and none does with less |
| Scheduling.LargeJobsFit | ci/miri_shard.py:540-545 | If the job placed last exceeds a third of the rival makespan, the least loaded machine still takes it within that makespan |
| Scheduling.NoMachineEmpty | ci/miri_shard.py:539-545 | With at least m jobs, greedy LPT leaves no machine empty if and only if at least m-1 jobs have positive weight |
| Scheduling.LoadsConserveWork | ci/miri_shard.py:541-545 | Over any assignment the machine loads add up to the total work |
| MiriShard.Distribute | ci/miri_shard.py:539-546 | The loop over the sorted names with its running costs computes the schedule: the names by falling weight, then in name order; each on the lowest shard of least weight so far; each shard in name order |
| Sorting.NameLeIff | ci/miri_shard.py:516-518 | The order of names: one is a prefix of the other, or the first differing character is smaller |
| MiriShard.PlanIsTheSchedule | ci/miri_shard.py:516-546 | A list of shards is the plan if and only if there are an order of the names, by falling weight (the table entry, or the default) and then by name, and places, each the lowest of least weight so far, such that every shard holds exactly its names, in name order |
| MiriShard.Partition | ci/miri_shard.py:513-549 | Each of the five refusals with its exact condition on the input, the empty shard by its index, a name twice and a name out of order told apart; a plan exactly when 1 <= shards <= names, the names are strictly sorted and enough of them weigh something, and then it is an exact cover |
| MiriShard.VerifyPartition | ci/miri_shard.py:552-582 | Accepts if and only if no shard is empty, the names are strictly sorted and the shards together are exactly the names; each of the four refusals exactly when its check is the first to fail |
| MiriShard.SortedIff | ci/miri_shard.py:580-582 | For a list without duplicates, `sorted(flat) == names` means names strictly sorted and the same names |
| MiriShard.PlanCovers | ci/miri_shard.py:539-546 | The shards of the plan hold every name exactly as often as the input does |
| MiriShard.PlanEmptiness | ci/miri_shard.py:539-549 | With at least m names, shard s of the plan is empty exactly when its index exceeds the number of names of positive weight |
| MiriShard.EmptyShardWitness | ci/miri_shard.py:946-947 | Zero weights make the plan leave a shard empty, against the remark that it cannot |
| MiriShard.PlanIgnoresInputOrder | ci/miri_shard.py:516-521 | The plan depends on which names are given, not on their order |
| MiriShard.WithinFourThirdsOfAnyRival | ci/miri_shard.py:22-26 | The 4/3 bound stated of shards: against any other distribution of the same names over as many shards |
| MiriShard.EmitFlags | ci/miri_shard.py:585-616 | Refused if and only if the unit is unknown; otherwise the words of the shard, joined, and the caller that splits the line at white space gets them back |
| MiriShard.WordsAre | ci/miri_shard.py:585-616 | The words letter by letter: doctests on shard 0 and SKIP elsewhere, `--lib` first on shard 0 for logos and on shard 1, if there is one, for raw, and `--test=` with each name of the shard in order |
| MiriShard.JoinIs | ci/miri_shard.py:616 | One space between each two words and nothing else |
| MiriShard.EveryTargetOncePerPass | ci/miri_shard.py:164-167 | Over all shards of a plan a logos or raw pass prints every target flag once and `--lib` once, for every shard count |
| MiriShard.DoctestsOncePerPlan | ci/miri_shard.py:586-593 | Over all shards `--doc` is printed once, and every other shard prints SKIP |
| MiriShard.CallerSeesTheWords | ci/miri_shard.py:604-616 | Word-splitting the printed line gives back exactly the flags, for names that pass the name guard |
| MiriShard.SplitJoin | ci/miri_shard.py:616 | Splitting a joined line at white space returns the words, if none is empty or holds white space |
| CfgLexer.Lex | ci/feature_cfg_coverage.py:447-519 | The scanning loop computes the lexed text and the string mask, which `CfgSpans.LexedIff` says outright |
| CfgLexer.NextStep | ci/feature_cfg_coverage.py:468-518 | One turn of the loop: which kind of span starts here, and where it ends |
| CfgLexer.CommentEnd | ci/feature_cfg_coverage.py:475-488 | The loop with its depth counter stops where the nested comment ends, which `CfgSpans.CommentEndsIff` says outright |
| CfgLexer.QuotedEnd | ci/feature_cfg_coverage.py:522-532 | The loop with its escapes stops where the quoted text ends, which `CfgSpans.QuotedEndsIff` says outright |
| CfgSpans.CommentEndsIff | ci/feature_cfg_coverage.py:475-488 | A block comment ends at r if and only if the text up to r spells one comment of comments and other text, or r is the end and no place does |
| CfgSpans.QuotedEndsIff | ci/feature_cfg_coverage.py:522-532 | A quoted body ends at j if and only if it is a run of backslash pairs and of characters other than backslash and quote, and then a quote, or j is the end and no place does |
| CfgSpans.RawEndsIff | ci/feature_cfg_coverage.py:494-498 | A raw string ends behind the first quote with its number of hashes, or at the end |
| CfgSpans.StringOpensIff | ci/feature_cfg_coverage.py:491-493 | A prefixed string opens where `r`, `b`, `br` or `rb`, hashes and a quote stand, and these are unique |
| CfgSpans.CharLiteralIff | ci/feature_cfg_coverage.py:507-514 | A char literal is a quote, a character other than backslash and quote, or a backslash and any but a newline, and a quote |
| CfgSpans.StepIff | ci/feature_cfg_coverage.py:468-518 | The one span that begins at a place, of what kind and up to where, by those spellings and the order of the branches |
| CfgSpans.LexedIff | ci/feature_cfg_coverage.py:447-519 | A text and a mask are the lexed ones if and only if they are those of a cut of the whole text into such spans: comments and char literals blank but for newlines, strings masked, all else as it was |
| CfgLexer.CodeKeeps | ci/feature_cfg_coverage.py:447-461 | Length, newlines and masked characters are kept; a changed character becomes a space |
| CfgLexer.ChangedOnlyWhenBlanked | ci/feature_cfg_coverage.py:464-514 | A changed character lies in a comment or a char literal |
| CfgLexer.LexIdempotent | ci/feature_cfg_coverage.py:447-519 | Lexing lexed text gives the same text and the same mask |
| CfgLexer.PieceLexesToItself | ci/feature_cfg_coverage.py:572-595 | A piece of lexed text cut at unmasked characters, not behind a word character, lexes to itself under its part of the mask |
| CfgScan.SplitTop | ci/feature_cfg_coverage.py:572-595 | The parts are the stripped non-blank pieces between the separating commas of the re-lexed text |
| CfgScan.KeptSnoc | ci/feature_cfg_coverage.py:594-595 | One span more gives its text without the white space at its ends, if anything is left |
| CfgScan.CutSpans | ci/feature_cfg_coverage.py:583-594 | The loop with its depth counter cuts exactly the spans of the specification |
| CfgScan.NestingCounts | ci/feature_cfg_coverage.py:583-593 | The nesting over a stretch is the number of opening characters outside strings less that of closing ones |
| CfgScan.SplitsExactlyAtSeparators | ci/feature_cfg_coverage.py:584-593 | A list of spans is the result if and only if they tile the text, whole in themselves, with one top-level comma outside strings between each two |
| CfgScan.PiecesRejoin | ci/feature_cfg_coverage.py:584-595 | The pieces joined with commas again are the text |
| CfgScan.SplittingAgainIsIdle | ci/feature_cfg_coverage.py:572-595 | A piece re-lexes to itself and is not split further |
| CfgScan.Attributes | ci/feature_cfg_coverage.py:535-569 | The scanning loop computes the attributes of the specification |
| CfgScan.OpensIff | ci/feature_cfg_coverage.py:546-556 | An attribute opens exactly where `#[` or `#![` stands with its `#` outside strings |
| CfgScan.FindCloser | ci/feature_cfg_coverage.py:557-566 | The bracket loop stops at the bracket that brings the depth to zero |
| CfgScan.CloserIsExact | ci/feature_cfg_coverage.py:557-568 | The bracket found is where the nesting first returns to zero; none is found exactly when none does |
| CfgScan.AttributesInOrder | ci/feature_cfg_coverage.py:535-569 | Attributes come in order and apart, each opened by a `#` outside strings and closed by its own bracket |
| CfgScan.NothingIsMissed | ci/feature_cfg_coverage.py:546-569 | An opening not inside an attribute found stands at or behind an opening that is never closed, which ends the scan |
| CfgScan.AttributesOfLexedText | ci/feature_cfg_coverage.py:535-545 | In a lexed file all this holds, and each attribute body lexes to itself, so a later reader of the body sees the mask the file has |
| CfgTokens.LexemeIff | ci/feature_cfg_coverage.py:822 | A text is matched whole if and only if it is a word (a letter or underscore, then letters, digits, underscores and hyphens), a quoted text (backslash pairs, without a newline in them, and other characters between quotes) or one of the four marks |
| CfgTokens.TokenOfLexeme | ci/feature_cfg_coverage.py:828-859 | Which of these it is says which token the parser sees, with its text |
| CfgTokens.NormaliseIs | ci/feature_cfg_coverage.py:673 | Normalised, a text is its words with one space between each two |
| CfgTokens.ReadsItsLayouts | ci/feature_cfg_coverage.py:822 | The pattern reads a text to its end into given lexemes if and only if the text is a layout of them: each as long as it can be, white space anywhere between |
| CfgTokens.LexemesConcat | ci/feature_cfg_coverage.py:822 | A text read to its end keeps its lexemes whatever is put behind it, if that does not lengthen a word |
| CfgTokens.LexemesStop | ci/feature_cfg_coverage.py:822 | A text in which reading stops, other than at an unclosed quote, stops it there whatever is put behind it |
| CfgTokens.NormalisedLexemes | ci/feature_cfg_coverage.py:673 | Normalising white space changes no lexeme but the inside of quoted ones, and reading goes on only past a place where it stopped before |
| CfgTokens.NormalisingIsHarmlessIff | ci/feature_cfg_coverage.py:673 | The normalised text has the lexemes of the text if and only if no quoted one holds white space but single spaces and nothing more is read where reading stopped |
| CfgTokens.NothingMoreIsRead | ci/feature_cfg_coverage.py:822 | Without a backslash before a newline, normalising never lets the pattern read further |
| CfgTokens.BrokenEscapeIsRead | ci/feature_cfg_coverage.py:822 | With one it can: a quoted text is refused as it stands and read once normalised |
| CfgGate.PredicateIs | ci/feature_cfg_coverage.py:598-615 | Exactly what predicate an attribute body yields: of `cfg(P)` the text P, stripped; of `cfg_attr(...)` the first part that is not blank, up to the first comma outside strings and parentheses, stripped, and none if there is nothing but blanks and commas; of any other body none |
| CfgGate.PredicateOfLexed | ci/feature_cfg_coverage.py:598-615 | In an attribute of a lexed file the same is said of the text and the mask the file has |
| CfgGate.PredicateOfCfgAttr | ci/feature_cfg_coverage.py:598-615 | So `cfg_attr(P, ...)` yields P, stripped, if P is not blank and the comma behind it is the first that separates |
| CfgGate.WrappedIff | ci/feature_cfg_coverage.py:608-611 | The body has the form if and only if it is the head, something, and a closing parenthesis |
| CfgGate.CrateGate | ci/feature_cfg_coverage.py:656-677 | The prologue is the longest run of inner attributes from the top with only white space before and between them; the gate is the text of their predicates, normalised and joined |
| CfgGate.PrologueIff | ci/feature_cfg_coverage.py:668-670 | An attribute goes on with the prologue if and only if only white space stands between it and the one before, or the top, and a `!` behind its `#` |
| CfgGate.PredicatesSnoc | ci/feature_cfg_coverage.py:668-674 | One attribute more gives the predicate of the text between its brackets, stripped, if it has one |
| CfgGate.GateTextFirst | ci/feature_cfg_coverage.py:675-677 | No predicate gives no gate, one is the gate, two stand behind `all(` with a comma and a space between them |
| CfgGate.GateTextSnoc | ci/feature_cfg_coverage.py:675-677 | One predicate more goes behind a comma and a space, before the closing parenthesis |
| CfgGate.NormalisedIsRead | ci/feature_cfg_coverage.py:673 | A predicate read to its end as written is so once normalised, with the same tokens if its quoted text holds no white space but single spaces |
| CfgGate.GateIsTheConjunction | ci/feature_cfg_coverage.py:656-677 | From the predicates of a file, none ending in an unclosed quote: the text of the gate parses to their conjunction if and only if there is one only, or the token pattern reads all to their end and none ends in a dangling `=` or begins with `)` |
| CfgGate.GateDecidesTogether | ci/feature_cfg_coverage.py:656-677 | Then the gate decides a leg as all the predicates together do |
| CfgGate.TextRoundTrip | ci/feature_cfg_coverage.py:825-866 | Whatever the layout of the printed text, parsing the print of a predicate tree returns the tree |
| CfgParse.Reader.Tok | ci/feature_cfg_coverage.py:828-834 | Consumes and returns the token at hand; at the end returns none and stays |
| CfgParse.Reader.Expr | ci/feature_cfg_coverage.py:840-861 | The recursive reader computes the parsing specification, position included |
| CfgParse.ParsePredicate | ci/feature_cfg_coverage.py:822-866 | The whole predicate, from its text, with its four errors |
| CfgReading.ExprIff | ci/feature_cfg_coverage.py:840-861 | The parser reads a tree from a place if and only if that tree stands there: which name opens a list, commas optional, what a leaf takes behind an `=`; and stops where it ends |
| CfgReading.ParseIff | ci/feature_cfg_coverage.py:840-866 | A text is accepted as a tree if and only if all its tokens are that tree |
| CfgReading.RefusedFor | ci/feature_cfg_coverage.py:840-866 | Refused for trailing tokens if and only if a tree ends before the text does; any other error has its place: nothing to read, a `not` of some other number of trees than one, or a quoted value that is no JSON |
| CfgParse.ReadBack | ci/feature_cfg_coverage.py:840-861 | Wherever the print of a well-formed tree stands, the reader returns that tree and stops behind it |
| CfgParse.RoundTrip | ci/feature_cfg_coverage.py:825-866 | Parsing the print of any well-formed predicate tree returns the tree with nothing left over |
| CfgParse.JoinedGates | ci/feature_cfg_coverage.py:677 | The `all(...)` that joins separately parsed parts parses to their conjunction if and only if no part ends in a dangling `=` or begins with `)` |
| CfgParse.CrateGateIsConjunction | ci/feature_cfg_coverage.py:656-677 | The gate of a crate evaluates to the minimum over its parts, for one part or several |
| CfgParse.DanglingEqualsMisreads | ci/feature_cfg_coverage.py:677 | A part with a dangling `=` swallows the joining comma as its value |
| CfgPredicate.VerdictSound | ci/feature_cfg_coverage.py:869-882 | A TRUE verdict holds, and a FALSE one fails, under every completion that decides each UNKNOWN leaf occurrence either way |
| CfgPredicate.VerdictExact | ci/feature_cfg_coverage.py:869-882 | TRUE if and only if every completion holds, FALSE if and only if every one fails, covered if and only if some one holds |
| CfgPredicate.VerdictSoundUnder | ci/feature_cfg_coverage.py:869-882 | The same under any assignment of the unknown leaves that is a function of the leaf |
| CfgPredicate.ExcludedMiddleIsUnknown | ci/feature_cfg_coverage.py:869-882 | For consistent assignments the verdict is not exact: `any(unix, not(unix))` is UNKNOWN and always holds |
| CfgPredicate.OneSidedIsExact | ci/feature_cfg_coverage.py:869-882 | If no undecided leaf occurs both under an even and under an odd number of `not`s, the verdict is exact for consistent assignments: TRUE if and only if all hold, FALSE if and only if none does |
| CfgPredicate.MoreFeatures | ci/feature_cfg_coverage.py:896-912 | Turning on features without negative occurrence never lowers the verdict, and under an odd number of `not`s never raises it |
| CfgPredicate.NegativeFeaturesAreFound | ci/feature_cfg_coverage.py:896-912 | The list is that of the feature leaves under an odd number of `not`s, by their paths, one for each occurrence |
| CfgPredicate.AbsenceCarriesOver | ci/feature_cfg_coverage.py:794-799 | A predicate FALSE under a leg is FALSE under any leg with a subset of its features, if it has no negative leaf on a dropped feature |
| CfgPredicate.NegativeGateInverts | ci/feature_cfg_coverage.py:689-692 | With a negative leaf the absence is reversed, so the restriction is needed |
| CfgLegs.Hits | ci/feature_cfg_coverage.py:1081-1092 | The legs listed for a suite are exactly those that compile its gate |
| CfgLegs.HitsIff | ci/feature_cfg_coverage.py:1081-1092 | A leg is listed if and only if it builds tests and the gate holds in some build it could be |
| CfgLegs.HitsSnoc | ci/feature_cfg_coverage.py:1081-1092 | In the order the legs are declared in |
| CfgLegs.LoadBearingSuites | ci/feature_cfg_coverage.py:757-817 | A leg is recorded for a suite if and only if no other leg compiling the suite has a subset of its features; the value is what the others add; nothing else is recorded |
| CfgLegs.LoadBearingIff | ci/feature_cfg_coverage.py:809-812 | Every other leg compiling the suite has some feature on that this one has off |
| CfgLegs.AdditionsIff | ci/feature_cfg_coverage.py:813-816 | A feature is recorded if and only if it is off here and on in some other leg compiling the suite |
| CfgLegs.GroupResolved | ci/feature_cfg_coverage.py:1039-1052 | The legs grouped by what they resolve to, in order; the duplicate check is quiet if and only if no two legs resolve to the same features and test setting |
| CfgLegs.PruningSafeIff | ci/feature_cfg_coverage.py:757-817 | Every leg compiling a suite has a reported leg with a subset of its features if and only if no minimal feature set is shared by two legs |
| CfgLegs.TwinsHideEachOther | ci/feature_cfg_coverage.py:1040-1044 | Two legs with one feature set are both unreported |
| CfgLegs.DeletingUnreportedLegs | ci/feature_cfg_coverage.py:757-799 | Without duplicates, after deleting every unreported leg at once each leg has a survivor that shows every absence the leg showed, for predicates monotone in the dropped features |
| CfgLegs.AdditionsMeaning | ci/feature_cfg_coverage.py:801-806 | The additions are empty if and only if no other leg compiles the suite; they are off in the leg, and every other leg turns one on |
| CfgLegs.IntersectionImpliesLoadBearing | ci/feature_cfg_coverage.py:795-799 | What the rejected intersection test marks, dominance marks |
| CfgLegs.DominanceSeesMore | ci/feature_cfg_coverage.py:768-778 | Three legs where dominance reports a leg the intersection test drops |
| CfgFeatures.Closure | ci/feature_cfg_coverage.py:934-958 | Terminates on every feature graph, cycles included; succeeds if and only if every name reached is a feature, and returns the least closed set, whatever the pop order |
| CfgFeatures.TargetIff | ci/feature_cfg_coverage.py:947-957 | An entry turns on a feature if and only if it is its name without a slash, or the name before the first slash of a feature of this crate that no question mark ends; never behind `dep:` |
| CfgFeatures.ClosedIff | ci/feature_cfg_coverage.py:934-958 | A set is closed exactly when it holds whatever the entries of its features turn on |
| CfgFeatures.EnabledIsLeast | ci/feature_cfg_coverage.py:934-958 | The result contains the seed, is closed under the enabling edges and lies in every such set |
| CfgFeatures.LeastIsEnabled | ci/feature_cfg_coverage.py:934-958 | A least closed set of features is the result |
| CfgFeatures.EnabledMonotone | ci/feature_cfg_coverage.py:934-958 | A larger seed enables no less |
| CfgFeatures.EnabledIdempotent | ci/feature_cfg_coverage.py:934-958 | Closing again changes nothing |
| CfgFeatures.EnabledUnion | ci/feature_cfg_coverage.py:934-958 | The closure of a union of seeds is the union of the closures |
| JsonStrings.KindsByBackslash | tokora/examples/json.rs:242-250 | The two regular expressions as written: `String` is quotes around unescaped characters, `EscapedString` quotes around well-paired escapes with at least one backslash |
| JsonStrings.KindsDisjoint | tokora/examples/json.rs:237-241 | No text is both |
| JsonStrings.LooseTokens | tokora/examples/json_cst.rs:57 | The loose rule accepts exactly quotes around a text that decodes to UTF-16 code units |
| JsonStrings.StrictIsLooseAndWellFormed | tokora/examples/json.rs:220-250 | The union of the two strict rules is exactly the loose strings whose code units are well-formed UTF-16 (section 7 of RFC 8259; definition D91 in section 3.9 of the Unicode Standard) |
| JsonStrings.LoneHalfIsLooseOnly | tokora/examples/json.rs:224-226 | A lone surrogate half is accepted by the loose rule alone |
| JsonStrings.StrictElement | tokora/examples/json.rs:233-236 | One element of the strict rule: what the nested alternatives match is what the decoder admits, of that length |
| JsonStrings.SimpleEscapesAre | tokora/examples/json.rs:233-236 | The two-character escapes of section 7 of RFC 8259, each with the code unit it stands for |
| TokenInput.InputRef.Next | tokora/src/input/input_ref/mod.rs:4060 | Consumes the token at hand and records it; at the end nothing changes |
| TokenInput.InputRef.TryExpect | tokora/src/input/input_ref/try_expect.rs:269 | Consumes the token at hand exactly when it is wanted |
| TokenInput.InputRef.SkipWhile | tokora/src/input/input_ref/skip_while.rs:398 | Consumes and records the longest run of skipped tokens |
| SExpression.ParseExpr | tokora/examples/s_expression.rs:249-322 | The recursive parser computes the parsing specification, errors included, on every token stream |
| SExpression.ParseList | tokora/examples/s_expression.rs:325-343 | The loop to the closing parenthesis computes the list specification |
| SExpression.AtomIff | tokora/examples/s_expression.rs:249-322 | Which token stands for which atom, one by one |
| SExpression.ErrorArises | tokora/examples/s_expression.rs:249-343 | Every error has its place: the end of the tokens where an expression is wanted, a token none begins with, a quote mark without its parenthesis, or no closing parenthesis behind the third part of a conditional |
| SExpression.AcceptedIsSpelling | tokora/examples/s_expression.rs:249-343 | Whatever is accepted is the canonical spelling of what is returned, and the parser stops behind it |
| SExpression.SpellingIsAccepted | tokora/examples/s_expression.rs:249-343 | Wherever the spelling of an expression stands, the parser returns that expression, whatever follows |
| SExpression.ParserInvertsSpelling | tokora/examples/s_expression.rs:249-343 | Parser and spelling are inverse to each other, both ways |
| SExpression.SpellingIsPrefixFree | tokora/examples/s_expression.rs:249-343 | No spelling is a prefix of another |
| TokenInput.Peek | tokora/examples/s_expression_cst.rs:269-281 | Commits the trivia at hand, consumes nothing significant, and returns the next significant token |
| TokenInput.Expect | tokora/examples/s_expression_cst.rs:284-294 | Skips trivia and consumes exactly the wanted token, or fails |
| TokenInput.Begin | tokora/src/parser/node.rs:320-331 | Opens a node in the log, consuming nothing |
| TokenInput.End | tokora/src/parser/node.rs:329-330 | Closes the node opened last |
| TokenInput.TriviaIsInsignificant | tokora/examples/s_expression_cst.rs:121-123 | Trivia put in or taken out anywhere leaves the significant tokens as they were |
| SExpressionCst.Expr | tokora/examples/s_expression_cst.rs:297-309 | Outcome, remaining tokens and recorded events are those of the specification on the significant tokens |
| SExpressionCst.ParseAtom | tokora/examples/s_expression_cst.rs:314-342 | Wraps one atom token, `if` included, or fails |
| SExpressionCst.ParseElems | tokora/examples/s_expression_cst.rs:353-361 | The loop of `list`: elements until the closing parenthesis |
| SExpressionCst.ParseQuoted | tokora/examples/s_expression_cst.rs:367-376 | A quote mark and one expression under a node |
| SExpressionCst.Run | tokora/examples/s_expression_cst.rs:383-393 | A whole run over a lossless stream: outcome and trivia-free tree are functions of the significant tokens, and the log holds every token up to the end of the run; no node begins or ends with trivia; on success the events rebuild one expression node, on failure the error is the end of the text |
| SExpressionCst.SuccessRecordsExpression | tokora/examples/s_expression_cst.rs:297-376 | The log of a success is well nested, and every node it rebuilds is what its own children make it: an atom one token, a list nodes between parentheses, a quotation a quote mark and a node |
| SExpressionCst.AcceptsExactlySpellings | tokora/examples/s_expression_cst.rs:297-376 | Accepts exactly the spellings of trees of atoms, lists and quotes, whatever follows |
| SExpressionCst.ShapeHoldsYield | tokora/examples/s_expression_cst.rs:297-376 | The leaves of the recorded tree, in order, are exactly the significant tokens consumed |
| SExpressionCst.LogDeterminesTree | tokora/examples/s_expression_cst.rs:297-376 | Two trees with one log are one tree |
| SExpressionCst.TwinSimulates | tokora/examples/s_expression_cst.rs:297-376 | Whenever the tree-building parser accepts a prefix, the recogniser consumes exactly that prefix |
| SExpressionCst.AgreeExactlyOnProper | tokora/examples/s_expression_cst.rs:297-376 | Of what the recogniser accepts, the tree-building parser accepts exactly the proper trees and stops at the same place |
| SExpressionCst.RecognisedButRefused | tokora/examples/s_expression_cst.rs:311-312 | `()`, `(if)` and a quoted atom are recognised and refused by the tree-building parser |
| JsonCst.Value | tokora/examples/json_cst.rs:253-271 | Outcome, remaining tokens and recorded events are those of the specification on the significant tokens |
| JsonCst.ParseObject | tokora/examples/json_cst.rs:275-296 | The brace, no member or members with commas between, the closing brace |
| JsonCst.ParseMember | tokora/examples/json_cst.rs:300-312 | A string, a colon and a value under a node |
| JsonCst.ParseArray | tokora/examples/json_cst.rs:315-336 | The bracket, no value or values with commas between, the closing bracket |
| JsonCst.Document | tokora/examples/json_cst.rs:339-348 | One value and the trailing trivia; what follows is not looked at |
| JsonCst.Run | tokora/examples/json_cst.rs:339-348 | Outcome and trivia-free tree are functions of the significant tokens, and the log holds every token up to the end of the run; trivia ends no node and begins none but a member behind a comma; on success the events rebuild one value, on failure the error is an unexpected token |
| JsonCst.SuccessRecordsValue | tokora/examples/json_cst.rs:253-336 | The log of a success is well nested, and every node it rebuilds is an object exactly if it has braces and members with commas between, an array if it has brackets and values, a member if it has a string, a colon and a value |
| JsonCst.AcceptsExactlyTheGrammar | tokora/examples/json_cst.rs:253-336 | Accepts exactly the spellings of the grammar of sections 2 to 5 of RFC 8259, whatever follows, and returns the tree spelled |
| JsonCst.SucceedsIffAValueLeads | tokora/examples/json_cst.rs:339-348 | Acceptance alone: the parse succeeds if and only if the significant tokens begin with the spelling of a JSON value |
| JsonCst.ShapeHoldsYield | tokora/examples/json_cst.rs:253-336 | The leaves of the recorded tree, in order, are exactly the significant tokens consumed |
| JsonCst.LogDeterminesTree | tokora/examples/json_cst.rs:253-336 | Two values with one log are one value |
| SurfaceDiff.Resolver.Namespace | ci/name_collision/surface_diff.py:57-107 | The search terminates on every index, computes the specified namespace and memo, and leaves the stack as it found it |
| SurfaceBinding.BindsIff | ci/name_collision/surface_diff.py:92-106 | Which name, kind and sub an item gives its module: of a re-export the alias with the kind and module of its target, or `use` and none if the target is not in the index; of any other item its own |
| SurfaceBinding.ReexportIsListing | ci/name_collision/surface_diff.py:92-97 | A named re-export binds what its target would bind there under that name |
| SurfaceBinding.NamespaceIsListed | ci/name_collision/surface_diff.py:57-107 | From scratch: the bindings returned are of items listed by the least set of modules closed under glob imports, and every name bound there is returned |
| SurfaceBinding.FirstItemWins | ci/name_collision/surface_diff.py:57-107 | On every glob graph and from any sound memo: the first item of a module to give a name decides its binding |
| SurfaceBinding.FirstImportWins | ci/name_collision/surface_diff.py:86-92 | And so does the first glob import to give it, with what its own first item gives |
| SurfaceDiff.MergeMeans | ci/name_collision/surface_diff.py:90-92 | `setdefault` in order adds exactly the new names and rebinds none |
| SurfaceDiff.ResolveSearches | ci/name_collision/surface_diff.py:57-107 | What one search visits is new, leads only to visited modules and the stack, and is covered by and drawn from the namespaces it builds |
| SurfaceDiff.ScratchIsExact | ci/name_collision/surface_diff.py:57-107 | On any graph a search from scratch visits exactly the least glob-closed set of modules and returns exactly the names they define |
| SurfaceDiff.ReachIsLeast | ci/name_collision/surface_diff.py:57-107 | The modules a search from scratch visits are the least glob-closed set, which the other results call reachable |
| SurfaceDiff.ResolveSound | ci/name_collision/surface_diff.py:57-107 | On every glob graph, cycles included, and from any memo built before, every binding returned or memoised is one that a reachable module defines |
| SurfaceMemo.ResolveIsPlain | ci/name_collision/surface_diff.py:70-76 | Without a glob cycle between different modules memo and cut change nothing: the result is plain first-definition-wins resolution, and the memo stays right |
| SurfaceMemo.UntangledIsRanked | ci/name_collision/surface_diff.py:70-76 | If no two modules glob-reach each other, the size of what a module reaches falls along every glob import of another module |
| SurfaceMemo.RankedIsUntangled | ci/name_collision/surface_diff.py:70-76 | And any such rank means that no two modules glob-reach each other |
| SurfaceMemo.UntangledIsExact | ci/name_collision/surface_diff.py:70-76 | There a search with a shared memo returns exactly what it returns from scratch, order and bindings included, and the memo stays so |
| SurfaceMemo.ResolveAll | ci/name_collision/surface_diff.py:110-127 | One memo shared by any number of roots, on every glob graph: each result is sound, and it is the one from scratch if no two modules glob-reach each other |
| SurfaceMemo.SecondStaysBehind | ci/name_collision/surface_diff.py:70-76 | What a root gets after another one, from which it is reached, is drawn from the modules from which the globs lead out only to that other one |
| SurfaceMemo.NameIsLost | ci/name_collision/surface_diff.py:70-76 | On every glob graph: of two modules that glob-reach each other, the one resolved second loses each name of the first that no module behind it defines |
| SurfaceMemo.OwnNameIsLost | ci/name_collision/surface_diff.py:70-76 | In particular each name that the first alone defines of all it reaches |
| SurfaceMemo.CompleteIffUntangled | ci/name_collision/surface_diff.py:70-76 | Where tangled modules each define a name of their own, a shared memo is complete for every order of roots if and only if no two different modules glob-reach each other |
| SurfaceMemo.GraphDecides | ci/name_collision/surface_diff.py:70-76 | For every glob graph: a shared memo is complete under every naming of its items if and only if no two different modules glob-reach each other |
| SurfaceMemo.OwnNamesStay | ci/name_collision/surface_diff.py:70-76 | What is never lost: after any roots, a module resolves to all the names it defines itself |
| SurfaceMemo.CycleLeavesSecondShort | ci/name_collision/surface_diff.py:70-76 | The two-module cycle: the second gets only its own names, complete exactly when they include the first one's |
| SurfaceMemo.ExampleLosesAName | ci/name_collision/surface_diff.py:70-76 | A concrete index where the shared memo loses a name |
| SurfaceView.NamedCycleHasNoListing | ci/name_collision/surface_diff.py:116-127 | If names lead from a module back to itself, no finite table lists its subtree |
| SurfaceView.ListedIffNoCycle | ci/name_collision/surface_diff.py:116-127 | Through any resolved namespaces: the tree of names below a module can be listed if and only if no module that names lead to from it leads back to itself |
| SurfaceWalk.ScratchListedIff | ci/name_collision/surface_diff.py:116-127 | The same of an index, by the namespaces of its modules from scratch |
| SurfaceWalk.WalkEndsIff | ci/name_collision/surface_diff.py:116-127 | On every index: the walk ends if and only if names lead along no cycle from the root, by what it resolves in as many levels as there are items and one; and then that many levels are enough |
| SurfaceWalk.UntangledWalkEndsIff | ci/name_collision/surface_diff.py:116-127 | If no two modules glob-reach each other: the walk ends if and only if names lead along no cycle from the root by the namespaces from scratch |
| SurfaceWalk.DescendingWalkEnds | ci/name_collision/surface_diff.py:116-127 | On every glob graph: if the names of what the root leads to name only deeper modules, the walk ends |
| SurfaceWalk.CrateThatNamesItself | ci/name_collision/surface_diff.py:116-127 | A concrete index, a crate with `pub use crate as me`, on which the walk does not end |
| SurfaceWalk.EmptyRootEnds | ci/name_collision/surface_diff.py:116-127 | A root without names ends the walk, whatever cycles there are elsewhere |
| SurfaceWalk.Walker.Visit | ci/name_collision/surface_diff.py:116-127 | Wherever some number of levels is enough: lists the subtree of a path and nothing else, and leaves the memo the walk of that subtree leaves |
| SurfaceWalk.WalkModules | ci/name_collision/surface_diff.py:110-131 | For every index on which the walk ends, and under that condition alone: the paths listed are exactly those that lead from the root to a module name by name, each with the names and kinds of that module as the walk resolved it; drawn from what it reaches, and from scratch if no two modules glob-reach each other |
| ChainFold.FoldIsExact | tokora-benches/benches/pratt_typed.rs:935-937 | The wrapping fold is 31 l + r modulo 2^64 |
| ChainFold.ExpectedExpression | tokora-benches/benches/pratt_typed.rs:967-984 | Both loops compute the integer value of the chain wrapped once: the Horner value on the left, 31 times the leading operands plus the last on the right |
| ChainFold.SwapChangesLeft | tokora-benches/benches/pratt_typed.rs:954-957 | Exchanging any two unequal operands changes the left value over the integers |
| ChainFold.SwapChangesWrappedLeft | tokora-benches/benches/pratt_typed.rs:954-957 | And modulo 2^64 while 32 times their distance times their difference stays below 2^64 |
| ChainFold.FourDigitSwapIsNoticed | tokora-benches/benches/pratt_typed.rs:954-957 | So every exchange of unequal four-digit operands is noticed, at depths up to 2^32 |
| ChainFold.RightIgnoresLeadingOrder | tokora-benches/benches/pratt_typed.rs:945-953 | The right value ignores any rearrangement of the leading operands |
| ChainFold.CollisionIff | tokora-benches/benches/pratt_typed.rs:954-957 | Two operand lists that agree behind place j have one left value if and only if their difference at j is a multiple of 31 and the values up to j differ by minus a 31st of it |
| ChainFold.LastDifferenceDecides | tokora-benches/benches/pratt_typed.rs:954-957 | So for any two different lists of one length the last differing place decides whether the difference is noticed |
| ChainFold.IncongruentIsNoticed | tokora-benches/benches/pratt_typed.rs:954-957 | A last differing pair that is not congruent modulo 31 is always noticed |
| ChainFold.CloseRearrangementIsNoticed | tokora-benches/benches/pratt_typed.rs:954-957 | If the operands lie closer together than 31, every rearrangement of any number of them is noticed |
| ChainFold.WrappedCollisionIff | tokora-benches/benches/pratt_typed.rs:954-957 | The exact condition for the wrapped values, modulo 2^64 |
| ChainFold.LeftCollision | tokora-benches/benches/pratt_typed.rs:954-957 | A rearrangement of three four-digit operands that is not noticed, an instance of the condition: 5100 - 2000 is 31 times 100 |
| ChainFold.LeftAgainstRight | tokora-benches/benches/pratt_typed.rs:940-944 | With one operator the two folds agree; with more, on positive operands, the left value is strictly larger |
| ChainSource.Operand | tokora-benches/benches/pratt_typed.rs:844-846 | Every operand has four digits |
| ChainSource.TakeCensus | tokora-benches/benches/pratt_typed.rs:864-887 | The one-pass census counts digit runs, operators and terminators |
| ChainSource.SourceShape | tokora-benches/benches/pratt_typed.rs:1205-1229 | For every depth and count: seven bytes an operand, and the census of the bytes equals the loop counters |
| ChainSource.Chain | tokora-benches/benches/pratt_typed.rs:1205-1229 | The generator returns the fixture of its depth with its checksum, and every assertion of `check_invariants` holds of it, for every target and depth |
| ChainSource.Bare | tokora-benches/benches/pratt_typed.rs:1180-1193 | The operator-free generator likewise |
| ChainReader.FixtureReads | tokora-benches/benches/pratt_typed.rs:1205-1229 | Read back by place value, the text of the fixture is expression by expression the operands and signs whose chain values add up to the expected value, wrapped; operand i is 1000 and a residue below 9000 of a residue modulo 2^32 of the product over the integers |
| ChainReader.BareReads | tokora-benches/benches/pratt_typed.rs:1180-1193 | The operator-free text likewise |
| ChainSource.FixtureIsSound | tokora-benches/benches/pratt_typed.rs:1040-1094 | Byte, operand, operator and token counts, and overshoot below one expression |
| ChainSource.CheckInvariants | tokora-benches/benches/pratt_typed.rs:1040-1094 | Passes exactly the cells for which all assertions hold |
| ChainSource.CheckPair | tokora-benches/benches/pratt_typed.rs:1110-1152 | Passes exactly the pairs for which all assertions hold |
| ChainReader.SoundIff | tokora-benches/benches/pratt_typed.rs:1040-1094 | What the check of a fixture asks: the places where digit runs begin, of operators and of terminators are as many as the counters say, seven bytes an operand, and the target reached by less than one expression |
| ChainReader.PairIff | tokora-benches/benches/pratt_typed.rs:1110-1152 | What the check of a pair asks: one length, differences only `^` against `+`, as many as operators, and values that differ from depth 2 on |
| ChainSource.PairOfFixtures | tokora-benches/benches/pratt_typed.rs:1096-1152 | The two fixtures of a depth differ exactly at the operators; the pair passes if and only if the expected values differ at depth 2 and above, where the integer checksums always do |
| ChainSource.PairPasses | tokora-benches/benches/pratt_typed.rs:1110-1152 | The pair of a depth passes wherever the largest sum its operands allow stays below 2^64 |
| ChainSource.BenchmarkPairPasses | tokora-benches/benches/pratt_typed.rs:1110-1152 | At the target of the benchmark that is so for every depth up to 8, the measured 1, 2 and 8 among them |
| ChainSource.SameLength | tokora-benches/benches/pratt_typed.rs:1199-1201 | Both generators stop after the same number of expressions |
| ChainSource.ChecksumsCompare | tokora-benches/benches/pratt_typed.rs:1101-1106 | The checksums agree at depth 1 and differ as integers from depth 2 on |
| Spelling.DropPaths | tokora/src/api_digest_census.rs:551-575 | The drain loop terminates in the normal form, where nothing can be cut |
| Spelling.CanCutIff | tokora/src/api_digest_census.rs:555-569 | A removal is possible exactly at a lower-case identifier, not the placeholder, before a separator and not behind one |
| Spelling.OtherWordsLast | tokora/src/api_digest_census.rs:538-552 | Every word that is no lower-case identifier and no separator, the placeholder included, lasts, in order and as often as it occurs |
| Spelling.PathIsKept | tokora/src/api_digest_census.rs:538-543 | Words and separators in turn, the first word of that kind, stay as they are |
| Spelling.CutKeepsForm | tokora/src/api_digest_census.rs:570-572 | Any single removal keeps the normal form |
| Spelling.EveryOrderEndsAlike | tokora/src/api_digest_census.rs:551-575 | Every order of removals that runs to the end gives the same words |
| Spelling.DropIsIdempotent | tokora/src/api_digest_census.rs:551-575 | Dropping again changes nothing |
| Spelling.LoopIsPassIff | tokora/src/api_digest_census.rs:538-552 | The loop equals a plain left-to-right pass if and only if no opening segment stands before dropped segments and one separator more |
| Spelling.PassIs | tokora/src/api_digest_census.rs:538-552 | The plain pass: a lower-case identifier goes with the separator behind it, unless a separator was kept just before |
| Spelling.StutterExample | tokora/src/api_digest_census.rs:551-552 | Two separators in a row make the plain pass stop short of the loop |
| Fences.ReadFences | tokora/src/api_digest_census.rs:291-356 | From the lines as written, the reading loop computes the fences of the specification: lines, info, body and annotation |
| Fences.UndocIff | tokora/src/api_digest_census.rs:257-265 | The content of a line: what stands behind a doc prefix and one space, or the whole line |
| Fences.MarkerIffSpelled | tokora/src/api_digest_census.rs:272-288 | A line carries a marker if and only if it spells it: white space, a longest run of three or more backticks or tildes, and the info, without a backtick behind backticks |
| Fences.FindAnnotation | tokora/src/api_digest_census.rs:332-345 | The upward probe computes the annotation |
| Fences.AnnotationIsNearest | tokora/src/api_digest_census.rs:330-345 | A line is the annotation if and only if it annotates and only blank lines lie below it |
| Fences.AnnotatesIff | tokora/src/api_digest_census.rs:338-342 | A line annotates if and only if its content, stripped, begins with the mark, letter by letter |
| Fences.FencesAreGenuine | tokora/src/api_digest_census.rs:291-356 | Each fence runs from an opener to the first line that closes it, in order and apart; its info is the opener's, its body the lines between without the opener's indentation, its annotation that of the opener |
| Fences.EveryMarkerAccountedFor | tokora/src/api_digest_census.rs:303-328 | Every marker line lies within a fence found or opens nothing that closes |
| PrattDriver.Emitter.Emit | tokora/src/emitter/pratt.rs:6-22 | The diagnostic joins those emitted; a fail-fast emitter asks for an error |
| PrattDriver.PrattIn | tokora/src/input/input_ref/pratt.rs:198-261 | One frame under either emitter: result, position and diagnostics are those of the specification, the bare operator standing in for a missing operand if the emitter records |
| PrattDriver.FoldOperators | tokora/src/input/input_ref/pratt.rs:298-449 | The operator loop under either emitter: floor, latch, right operand, the refused adjacency, and the left side alone for a missing right operand if the emitter records |
| PrattDriver.FailFastParses | tokora/src/input/input_ref/pratt.rs:239-252 | Under a fail-fast emitter a frame is the plain parse that the grammar results are about |
| PrattDriver.RecordingGoesOn | tokora/src/input/input_ref/pratt.rs:403-433 | A recording run goes on where the plain parse stops: cut at its first diagnostic it is that parse, and without a diagnostic they end alike |
| PrattDriver.DriverIsTheGrammar | tokora/src/parser/pratt/mod.rs:48-79 | The driver returns a tree if and only if the precedence grammar derives it there within the depth budget, and it stops where the derivation ends |
| PrattDriver.GrammarIsUnambiguous | tokora/src/parser/pratt/mod.rs:48-79 | From one position and floor at most one tree respects precedence and associativity |
| PrattDriver.MoreBudgetChangesNothing | tokora/src/input/input_ref/pratt.rs:217-224 | A larger budget returns the same tree |
| PrattDriver.BudgetAboveTokensSuffices | tokora/src/input/input_ref/pratt.rs:287-291 | Every descent is preceded by a commit, so a budget above the token count never runs out |
| PrattDriver.NonAssociativityIsPerOperator | tokora/src/parser/pratt/mod.rs:152-160 | `a < b == c` is read and `a == b < c` refused, at one power |
| PrattPairs.TwoInfixes | tokora/src/parser/pratt/mod.rs:48-79 | Of two infix operators the second takes the operand between them if it binds tighter, or as tight behind a right-associative one; two of one power are refused behind a non-associative one; otherwise the first keeps it |
| PrattPairs.InfixAndPostfix | tokora/src/parser/pratt/mod.rs:48-79 | The same of an infix and a postfix operator |
| PrattPairs.PrefixAndInfix | tokora/src/parser/pratt/mod.rs:48-79 | An infix operator takes the operand of a prefix if it binds as tight or tighter |
| PrattPairs.PrefixAndPostfix | tokora/src/parser/pratt/mod.rs:48-79 | The same of a postfix operator |
| PrattPairs.BelowTheFloor | tokora/src/input/input_ref/pratt.rs:298-449 | An operator below an inclusive floor, or not above an exclusive one, is left where it is |
| PrattPairs.NothingBehind | tokora/src/input/input_ref/pratt.rs:239-252 | What a missing operand and a missing right side do under either emitter |
| PrattChains.ChainParses | tokora-benches/benches/pratt_typed.rs:940-984 | A chain of one operator parses to the tree that leans its associativity's way: two frames for a left chain, one per operand for a right chain |
| PrattChains.DriverFoldsToChainValue | tokora-benches/benches/pratt_typed.rs:967-984 | Folding the tree the driver returns with the wrapping fold gives the chain value the generator predicts, modulo 2^64 |

## Left out

- Floating-point weights are scaled to naturals, so rounding of shard costs is not modelled.
- Reading the target list, `cargo metadata`, file walking, notes, printing and exit codes are not modelled; their results are parameters.
- MiriShard.CallerSeesTheWords: white space is space, tab and newline; quoting and globbing by the shell are not modelled.
- CfgLexer.Lex: the word-character test is a parameter, of which only a few ordinary characters are assumed; agreement with Rust on unhashed raw strings, which the code reads with escapes, is not claimed.
- CfgScan.AttributesOfLexedText: speaks of an attribute body before the code strips white space off its ends.
- CfgScan.SplittingAgainIsIdle: speaks of a piece before it is stripped; stripping can cut into a string that is never closed.
- CfgGate.GateIsTheConjunction: speaks of predicates that do not end in an unclosed quote once normalised.
- CfgGate.CrateGate: `json.loads` and the white-space test are parameters; the text tests of `doc_only` are not modelled.
- Suite scanning, the coverage verdict over files and the negative-family report of `main` only combine these pieces and are left out.
- TokenInput.InputRef.Next: caching, transactions, lexer errors, limits and partial input of the real input are not modelled; lexing has already happened.
- SExpressionCst.Run: on failure the error, the tokens and the place of trivia are stated, not the nodes abandoned; a demoted node leaves nothing in the tree.
- JsonCst.Run: as for the S-expression twin; numbers and strings are tokens, their text is not read.
- The evaluator of the S-expression example is left out: one-branch facts.
- SurfaceWalk.WalkModules: a path is its list of names; where the walk does not end, the exhaustion of the stack is not modelled.
- Trait items, inherent items and the printed delta of `surface_diff.py` are left out.
- ChainSource.PairOfFixtures: that the two expected values differ modulo 2^64 at the depths 32 and 64 of the benchmark, where the sums exceed 2^64, is not proved; depths up to 8 are `BenchmarkPairPasses`.
- Spelling.DropPaths: tokenising a type and rejoining the words with spaces are not modelled.
- Fences.ReadFences: the text comes as lines; splitting it into lines and reading the annotation are not modelled.
- PrattDriver.PrattIn: folds that fail, scanner stops and error offsets are not modelled, and the depth counter is a parameter.
- The typed Pratt driver, the cache, other emitters and the event sink are not part of this model; the chains are read by the token driver.
