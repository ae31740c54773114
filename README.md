# GitHub activity README updater, modelled in Dafny

The system is a GitHub Action (`src/index.js`). It fetches a user's public
events and rewrites a region of a Markdown file. The region starts with
`<!-- ACTIVITY:START -->` and ends with `<!-- ACTIVITY:END -->`, and the
Action fills it with one line per recent event. A run does the following:

1. **normalize**: each raw event becomes an activity event with:
   - a normalized `event_type` (`issues_opened`, `pr_merged`, `push`, …);
   - the repository split into owner and name;
   - the issue or pull-request number and link.
2. **human date**: each event gets a label: `Today`, `Yesterday`,
   `N days ago`, or an absolute date.
3. **sort**: events are stably sorted by creation time, newest first.
4. **filter**: only events whose template is non-blank are kept.
   - The template is looked up by `event_type`, then by the raw type.
5. **truncate**: at most `MAX` events are kept (`slice(0, MAX)`).
6. **render**: each event's template is rendered with its bindings.
   - The bindings are `index`, `total_count`, `human_date` and every field
     of the event.
   - `{{ expr }}` placeholders are translated into a JavaScript template
     literal.
7. **block and patch**: the lines are joined between the two markers, and
   the block replaces the first marked region of the document. The file is
   written only when the text changed.

## Modules

| module | what it holds |
|---|---|
| `Wrappers` | `Option` and `Result` |
| `JsString` | the string operations the code relies on: whitespace as `\s`/`trim`, ASCII `toLowerCase`, `replace(/Event$/, "")`, `indexOf`, `split`/`join`, decimal numerals |
| `JsValue` | JSON-like values with JavaScript truthiness, property access that throws on `undefined`/`null`, and template-literal string conversion |
| `Normalizer` | `normalize(e)` |
| `RelativeDate` | the label choice of `formatDate` |
| `Sorting` | a stable sort by descending key |
| `Template` | `render(tpl, vars)`: the placeholder scanner (the lazy regular expression, exactly), compilation into literal pieces and expressions, and interpolation |
| `Expression` | a tokenizer, parser and evaluator for the expression subset that placeholders may use |
| `DocumentPatch` | the block, the region match of `START[\s\S]*?END`, the replacement both as written and as intended, and the class `Document` whose `Publish` decides whether the file is written |
| `Pipeline` | `map(normalize)`, dating, sort, filter, truncation, rendering, and the whole run |

### Where the model follows the code rather than the documentation

- **`repo_name`.** It is the *second* part of `repo.name.split("/")`, not
  everything after the first `/`. For `a/b/c` the name is `b`.
- **Empty `event_type`.** The fallback `type.replace(/Event$/, "").toLowerCase()`
  is empty for the types `""` and `"Event"`. `Normalizer.EventTypeEmptyIff`
  shows these two are the only cases.
- **`MAX` has no default.** It is whatever `parseInt` gives, and a negative
  value drops events from the end, as `slice` does.
- **A blank event-type template drops the event.** An entry for the event
  type that is blank is used, not skipped: `??` falls through only on a
  missing entry. So the event is dropped even when its raw type has a
  template.

## Model

| member | source | states |
|---|---|---|
| JsValue.Get | src/index.js:79-93 | reading a property of an object gives its field, and `undefined` when the field is absent |
| JsValue.Member | src/index.js:99-107 | a property read throws exactly when the receiver is `undefined` or `null`, and the error is a TypeError |
| JsValue.ToStrFacts | src/index.js:99-103 | a string converts to itself; a non-negative integer converts to a decimal numeral that reads back as the same integer |
| JsString.SplitTwo | src/index.js:80 | a name with exactly one `/` splits into two parts, and owner + `/` + name rebuilds it |
| JsString.SplitJoin | src/index.js:80 | joining the parts of a split with the separator gives back the original string |
| JsString.SplitPartsFree | src/index.js:80 | no part of a split contains the separator |
| JsString.SplitCount | src/index.js:80 | a split has one more part than the string has separators |
| JsString.StripSuffix | src/index.js:111 | with the suffix present, the result followed by the suffix is the input; otherwise the input is unchanged |
| JsString.Lower | src/index.js:107 | lowercasing keeps the length and maps every character on its own |
| JsString.BlankIffAllSpace | src/index.js:143 | `trim()` gives `""` exactly when every character is whitespace |
| JsString.TrimStartEmptyIff | src/index.js:143 | trimming the front leaves nothing exactly when the text is all whitespace |
| JsString.TrimEndEmptyIff | src/index.js:143 | trimming the back leaves nothing exactly when the text is all whitespace |
| JsString.ParseNatToString | src/index.js:51 | the numeral of `diffDays` reads back as `diffDays` |
| JsString.NatToStringInjective | src/index.js:51 | different day counts give different numerals |
| JsString.IndexOfSpec | src/index.js:162 | the search finds the leftmost occurrence at or after the start, and finds none only when there is none |
| Normalizer.EventValue | src/index.js:121 | the raw event seen by a template has exactly the members `type`, `payload`, `repo` (with `name`), `actor` (with `login`), `created_at`, and `org` (with `login`) exactly when the event has an org, each holding the event's own value |
| Normalizer.Links | src/index.js:82-93 | the number and url of the three overwriting `if`s, and a TypeError for a nullish payload; stated by `LinkPrecedence`, `CommentNeverSetsNumber` and `NormalizeFailsIff` |
| Normalizer.EventType | src/index.js:96-111 | the nested conditional choosing `event_type`; stated by `EventTypeFollowsTable` (the first matching row of an independent table), `RowHit`, `RowMiss`, `FallbackEventType` and `EventTypeEmptyIff` |
| Normalizer.Normalize | src/index.js:78-123 | normalize succeeds exactly when both the link reads and the event-type computation succeed. A normalized event has the `event_type` of the conditional, the number and url of the three `if`s, and the owner and name from the split of `repo.name`. It keeps the raw type, repository, actor, timestamp, org, payload and raw event unchanged |
| Normalizer.NormalizeFailsIff | src/index.js:78-123 | normalize throws exactly when one of three things holds: the payload is nullish; a closed pull-request event has no `pull_request`; or a review event has no review or a non-string review state |
| Normalizer.LinkPrecedence | src/index.js:82-93 | for `number`, a pull request beats an issue; for `url`, a comment beats a pull request, which beats an issue; absent sources give undefined |
| Normalizer.CommentNeverSetsNumber | src/index.js:82-93 | adding a comment to the payload changes neither the number nor the `event_type` |
| Normalizer.RepoSplit | src/index.js:80 | the owner never contains `/`; with one `/` in the name, owner `/` name is the repository |
| Normalizer.EventTypeFollowsTable | src/index.js:96-111 | the nested conditional is the first matching row of a six-row table, and the raw-type fallback applies when no row matches |
| Normalizer.RowMiss | src/index.js:96-111 | a row whose guard fails passes the decision to the rows after it |
| Normalizer.RowHit | src/index.js:96-111 | the first row whose guard holds gives the `event_type` |
| Normalizer.FallbackEventType | src/index.js:110-111 | for any other type, a trailing `Event` is dropped and the rest lowercased; a type without that suffix is only lowercased |
| Normalizer.EventTypeEmptyIff | src/index.js:96-111 | the `event_type` is empty exactly for the types `""` and `"Event"` |
| Normalizer.StripSuffixEmptyIff | src/index.js:111 | removing a non-empty suffix leaves nothing exactly when the text was empty or was the suffix |
| Normalizer.PushExample | src/index.js:111 | `PushEvent` normalizes to `push` |
| RelativeDate.RelativeLabelRoundTrip | src/index.js:49-51 | each difference from 0 to 7 days gets a label that reads back as that difference |
| RelativeDate.ParseDayLabelExact | src/index.js:49-51 | every text that reads as a difference of 0 to 7 days is exactly the label of that difference |
| RelativeDate.RelativeLabelsDistinct | src/index.js:49-51 | different differences within a week get different labels |
| RelativeDate.OtherDifferencesAreAbsolute | src/index.js:53-58 | a negative difference or one over a week gives the absolute date |
| RelativeDate.DayLabelExamples | src/index.js:49-58 | 3 days gives `3 days ago`; 10 days gives the absolute date |
| RelativeDate.DayLabel | src/index.js:49-58 | `Today`, `Yesterday`, `N days ago` or the absolute date; stated by `RelativeLabelRoundTrip`, `ParseDayLabelExact`, `RelativeLabelsDistinct` and `OtherDifferencesAreAbsolute` |
| Sorting.SortPermutation | src/index.js:139 | sorting keeps exactly the same events, with multiplicity |
| Sorting.SortSorted | src/index.js:139 | the sorted events are newest first |
| Sorting.SortStable | src/index.js:139 | events with equal timestamps keep their input order |
| Sorting.StableSortIsUnique | src/index.js:139 | every stable newest-first sort of the events gives this same result, so the host's sort algorithm does not matter |
| Sorting.InsertPermutation | src/index.js:139 | insertion adds exactly the one element |
| Sorting.InsertSorted | src/index.js:139 | insertion into a newest-first sequence keeps it newest first |
| Sorting.SortByKeyDesc | src/index.js:139 | the sort keeps the number of events; that it is a stable newest-first permutation is stated by `SortPermutation`, `SortSorted`, `SortStable` and `StableSortIsUnique` |
| Pipeline.CollectSucceeds | src/index.js:136-137 | a `map` whose callback may throw succeeds exactly when every call succeeds |
| Pipeline.CollectFirstError | src/index.js:136-137 | a failing `map` throws the error of its first failing element |
| Pipeline.NormalizeAll | src/index.js:136-137 | normalizing all events succeeds exactly when each one does, and then gives each event's result at its position |
| Pipeline.NormalizeAllFirstError | src/index.js:136-137 | a failure is the error of the first event that does not normalize |
| Pipeline.AttachDates | src/index.js:138 | every event keeps its position and gets the label of its own timestamp |
| Pipeline.HasTemplateIff | src/index.js:141-144 | an event is kept exactly when its `event_type` entry has a non-whitespace character, or it has no such entry and its raw-type entry does |
| Pipeline.ChosenTemplateIsFilterTemplate | src/index.js:141-150 | for a kept event, the template chosen for rendering exists, is the one the filter tested, and is not blank |
| Pipeline.WithTemplatesMembers | src/index.js:141-144 | an event survives the filter exactly when it was present and has a template |
| Pipeline.WithTemplatesSorted | src/index.js:139-144 | filtering keeps the newest-first order |
| Pipeline.WithTemplatesStable | src/index.js:139-144 | filtering keeps the input order of events with equal timestamps |
| Pipeline.WithTemplates | src/index.js:141-144 | `filter` never adds events; what it keeps is stated by `WithTemplatesMembers`, `WithTemplatesSorted` and `WithTemplatesStable` |
| Pipeline.TruncationBounds | src/index.js:146 | for `MAX >= 0` the selection is the prefix of length `min(MAX, n)` |
| Pipeline.NegativeBoundDropsFromEnd | src/index.js:146 | a negative `MAX` drops that many events from the end, leaving none when there are fewer |
| Pipeline.SliceKeepsOrder | src/index.js:146 | truncation keeps the newest-first order and adds no events |
| Pipeline.Slice | src/index.js:146 | `slice(0, MAX)`; stated by `TruncationBounds`, `NegativeBoundDropsFromEnd` and `SliceKeepsOrder` |
| Pipeline.Candidates | src/index.js:136-144 | the filtered events are newest first, each has a template, and each is one of the normalized events |
| Pipeline.SelectProperties | src/index.js:136-146 | the shown events are newest first and at most `MAX`, and each has a template and comes from a raw event; they are the first `MAX` filtered events, exactly `MAX` when there are that many |
| Pipeline.Select | src/index.js:136-146 | normalize, date, sort, filter and truncate; stated by `Candidates` and `SelectProperties` |
| Pipeline.BindingsKeys | src/index.js:151-156 | a template sees exactly the fifteen names `index`, `total_count`, `human_date` and the fields of the normalized event |
| Pipeline.LineResults | src/index.js:148-158 | each selected event is rendered with its 1-based position and the selection size |
| Pipeline.RenderLinesIndexing | src/index.js:148-158 | each line is the chosen template of its event, rendered with that event's position and the total |
| Pipeline.RenderLinesFailure | src/index.js:148-158 | rendering fails exactly when some line fails, and then with the error of the first failing line |
| Pipeline.SingleEventSelected | src/index.js:136-146 | one event with a template and `MAX >= 1` is selected on its own, with its label |
| Pipeline.SingleLine | src/index.js:148-158 | one selected event produces its one line |
| Pipeline.SingleEventRun | src/index.js:136-160 | one event with a template gives the block with its line |
| Pipeline.NumberActorLine | src/index.js:148-157 | a template `…{{number}}…{{actor}}` renders the event's number and actor between its literal parts |
| Pipeline.RenderTwoPlaceholders | src/index.js:68-76 | a template with two bound placeholders renders both values between its literal parts |
| Pipeline.IssueEventNormalizes | src/index.js:83-99 | an issues event normalizes to `issues_<action>` with the issue's number and link |
| Pipeline.OneIssueRun | src/index.js:136-160 | one issues event whose template shows number and actor produces a block with that one line |
| Pipeline.EndToEndScenario | src/index.js:136-160 | issue #7 opened by `x` with template `#{{number}} by {{actor}}` produces the block holding `#7 by x` |
| Pipeline.Run | src/index.js:136-160 | the whole run up to the block; stated by `SingleEventRun`, `OneIssueRun` and `EndToEndScenario`, and through `Select` and `RenderLines` by their lemmas |
| Template.WsRunSpec | src/index.js:71 | the `\s*` run is all whitespace and stops at a non-space or at the end |
| Template.FirstCloseSpec | src/index.js:71 | the lazy capture stops at the first position followed by optional space and `}}`, and fails only if there is none |
| Template.MatchAt | src/index.js:71 | a placeholder match is at least five characters long and stays within the text |
| Template.MatchAtShape | src/index.js:71 | a match opens with `{{`, closes with `}}` and captures non-empty code |
| Template.SearchLeftmost | src/index.js:70-73 | the scan replaces the leftmost placeholder first |
| Template.SearchNone | src/index.js:70-73 | the scan finds no placeholder exactly when none matches at any position |
| Template.ScanFlatten | src/index.js:70-73 | the scanned segments put back together give the template text unchanged |
| Template.ScanPlain | src/index.js:70-73 | text without `{{` is one literal segment |
| Template.PlaceholderMatch | src/index.js:71 | `{{ ws name ws }}` is matched whole and captures exactly the name |
| Template.ScanPlaceholder | src/index.js:70-73 | text then a placeholder scans as that text, that placeholder, then the scan of the rest |
| Template.Scan | src/index.js:70-73 | the global placeholder replace; stated by `ScanFlatten`, `ScanPlain` and `ScanPlaceholder`, with each match given by `SearchLeftmost` and `MatchAtShape` |
| Template.CompileText | src/index.js:69-74 | literal text that compiles is copied unchanged |
| Template.Compile | src/index.js:74 | a compiled template has one piece per segment |
| Template.CompileAppend | src/index.js:74 | compiling concatenated segments compiles each part in order, and the first error wins |
| Template.InterpolateAppend | src/index.js:74-75 | interpolating concatenated pieces evaluates them left to right, and the first exception wins |
| Template.PlainTextCompiles | src/index.js:69-74 | text without `{`, backslash or carriage return compiles to itself |
| Template.RenderPlain | src/index.js:68-76 | text without placeholders and without escapes renders as itself |
| Template.RenderPlaceholder | src/index.js:68-76 | a placeholder naming a binding renders as that value's string form; an unbound name throws ReferenceError; a syntax error later in the template throws first |
| Template.Render | src/index.js:68-76 | scan, compile, then interpolate; stated by `RenderPlain`, `RenderPlaceholder`, `CompileAppend` and `InterpolateAppend` |
| Expression.CompileIdentifier | src/index.js:74 | an identifier that is not a literal, a reserved word, `this` or `arguments` compiles to a reference to that binding |
| Expression.EvaluateIdentifier | src/index.js:74-75 | such a name evaluates to its binding's value; an unbound one throws ReferenceError |
| Expression.RefusedWordIsRefused | src/index.js:74 | a reserved word, `this` or `arguments` is refused, not read as a binding name |
| Expression.RefusedExamples | src/index.js:74 | `this` and `arguments` are refused |
| Expression.LeadingZeroRefused | src/index.js:74 | a numeral of two or more digits starting with `0`, a legacy octal literal in sloppy-mode code, is refused, not read as decimal |
| Expression.SumAssociatesLeft | src/index.js:74 | `x + y + z` parses as `(x + y) + z` |
| Expression.MixedSum | src/index.js:74-75 | with `a = 1`, `b = 2`, `c = "x"`: `(a + b) + c` is `"3x"` and `(c + a) + b` is `"x12"`, so numbers add until a string turns the sum into a concatenation |
| Expression.NumeralPointRefused | src/index.js:74 | a numeral directly followed by `.` is refused, never read as a member access on the number |
| Expression.NumeralPointExamples | src/index.js:74 | `5.x` and `5. x` are refused |
| Expression.Evaluate | src/index.js:74-75 | compile, then evaluate in the bindings; stated by `EvaluateIdentifier`, `RefusedWordIsRefused`, `LeadingZeroRefused`, `NumeralPointRefused`, `SumAssociatesLeft` and `MixedSum` |
| DocumentPatch.MarkersAreMarkers | src/index.js:64-65 | both markers start with `<` and contain no other `<` and no line break |
| DocumentPatch.FindRegionBetween | src/index.js:162 | a found region spans at least both markers and lies inside the document |
| DocumentPatch.RegionIsFirstMatch | src/index.js:162 | the region begins at the first START, ends at the nearest END after it, and holds no END in between |
| DocumentPatch.RegionNone | src/index.js:162 | no region is found exactly when no END follows any START |
| DocumentPatch.PatchSplices | src/index.js:162 | the result is the text before the region, the block, and the text after it; without a region, the document unchanged |
| DocumentPatch.ExpandNoDollar | src/index.js:162 | a replacement without `$` is inserted as it is |
| DocumentPatch.ExpandAppend | src/index.js:162 | a `$`-free prefix of a replacement is copied before the expansion of the rest |
| DocumentPatch.AsWrittenAgreesWithoutDollar | src/index.js:162 | when the block holds no `$`, the replacement as written is the literal splice |
| DocumentPatch.DollarLineBetween | src/index.js:162 | with markers and a `$&` line, the as-written replacement is longer than the literal one by the matched text minus two characters |
| DocumentPatch.DollarLineCounterexample | src/index.js:162 | with a line `$&`, the as-written replacement differs from the literal splice |
| DocumentPatch.BlockEnd | src/index.js:160 | the block's END marker is the first END after its START, whatever follows the block |
| DocumentPatch.BlockIsFirstRegion | src/index.js:160-162 | a block written after START-free text is exactly the region found next time |
| DocumentPatch.PatchIdempotentBetween | src/index.js:160-162 | with any two markers, patching the same block twice equals patching it once, when the lines hold no END |
| DocumentPatch.PatchIdempotent | src/index.js:160-162 | a second run with the same lines leaves the document as the first run left it, when the lines hold no END |
| DocumentPatch.PatchAsWrittenIdempotent | src/index.js:160-162 | the replacement as written is idempotent too when the block holds no `$` and the lines hold no END |
| DocumentPatch.Block | src/index.js:160 | `[START, ...lines, END].join("\n")`; stated by `BlockEnd`, `BlockIsFirstRegion` and `PatchIdempotent` |
| DocumentPatch.Patch | src/index.js:162 | the literal splice into the first marked region; stated by `PatchSplices`, `RegionIsFirstMatch`, `RegionNone` and `PatchIdempotent` |
| DocumentPatch.Expand | src/index.js:162 | the `$` patterns of a replacement string; stated by `ExpandNoDollar` and `ExpandAppend` |
| DocumentPatch.PatchAsWritten | src/index.js:162 | the replacement as the code writes it; stated by `AsWrittenAgreesWithoutDollar`, `DollarLineCounterexample` and `PatchAsWrittenIdempotent` |
| DocumentPatch.Document.constructor | src/index.js:161 | the document holds the text read from the file |
| DocumentPatch.Document.Publish | src/index.js:161-169 | the new text is the literal splice of the block, which is the replacement as written whenever the block holds no `$`; the file is written exactly when the text changed |

## Left out

- The events request, its token and its JSON response are not modelled
  (network I/O). The raw events are an input.
- Reading the environment and parsing `event_templates` as JSON are not
  modelled (process environment). The template map is an input, so the
  exit on missing inputs or invalid JSON is absent.
- Reading and writing the README file and the console messages are not
  modelled (file and console I/O). `Document` holds the text, and `Publish`
  returns whether it would be written.
- Time and dates are parameters of a `DateHost`, not computed:
  - parsing `created_at`;
  - the current time;
  - time zones and the day difference of `formatDate`;
  - the German absolute date;
  - the fallback for an invalid time zone.

  These depend on the host clock, locale and time-zone data.
- A `MAX` that is not a number (NaN from `parseInt`) is not modelled; `MAX`
  is an integer.
- Invalid timestamps (NaN in the sort comparator) are not modelled. Every
  timestamp has an integer time.
- Expression.Evaluate: evaluates a subset of JavaScript, not the whole of
  what `new Function` runs:
  - identifiers, decimal integers without a leading zero, quoted strings
    without escapes, `true`, `false`, `null`, `undefined`, member access, `+`,
    `===`, `!==`, `?:` and parentheses;
  - other syntax is refused as `Unsupported`. So are reserved words, `this`,
    `arguments`, numerals with a leading zero, a numeral directly followed by
    `.` (a fraction, or a syntax error such as `5.x`), and a sum that would be
    NaN.
- Expression.EvaluateIdentifier: a name that is neither a binding nor a
  literal throws ReferenceError. The host's global names (`Math`, `JSON`,
  `process`, `globalThis`, …) are not modelled, though in JavaScript such a
  name evaluates to the global.
- Template.RenderPlaceholder: its ReferenceError clause rests on the same
  simplification, with no host globals.
- Integers are exact, including integer literals: JavaScript rounds numbers
  beyond 2^53, and the model does not.
- Template.CompileText: literal text holding a backslash, a carriage
  return or `${` is refused as `Unsupported`. It is not interpreted as
  template-literal escapes, line-ending normalisation or substitution.
- `toLowerCase` is modelled for ASCII letters only; other characters are
  unchanged.
- Numbers are integers; floating-point numbers and their string forms are
  not modelled.
- Inherited members are not modelled. That covers `Object.prototype` names
  such as `constructor` as template-map keys or payload fields, and methods
  of strings and arrays read through `.` in a placeholder. All of these read
  as undefined.
- Normalizer.EventValue: the raw event a template sees as `raw_event` holds
  only `type`, `payload`, `repo.name`, `actor.login`, `created_at` and
  `org.login`. The other members of the API event (`id`, `public`,
  `actor.id`, `actor.display_login`, `repo.id`, …) read as undefined.
- Normalizer.Normalize: the event's members are assumed present and of the
  types `RawEvent` gives them, so some of the code's TypeErrors are not
  modelled: a missing `repo` or a non-string `repo.name` (src/index.js:80), a
  missing `actor` (:116), and a missing or non-string `type` (:111). An `org`
  that is `null`, or has no `login`, cannot be represented either.
- Normalizer.NormalizeFailsIff: its "exactly" covers the failures of events
  of that shape, the nullish payload and the two `payload` reads of :101 and
  :107; the failures of the previous line are not among them.
- JsValue.Get: `length` of a string counts Unicode code points. JavaScript
  counts UTF-16 code units, so the two differ for characters outside the
  Basic Multilingual Plane.
- DocumentPatch.Document.Publish: writes the literal splice `Patch`, the
  corrected behaviour of the finding below, not the `$`-expanded text the
  code writes. Its second clause shows the two agree whenever the block
  holds no `$`.
- An invalid time zone is not modelled as a failure. In the code,
  `toLocaleDateString` with that time zone throws a RangeError for every
  event dated outside the last week, so the whole run fails. The model's
  `DateHost` always gives an absolute date.
- Template values that are not strings (`null`, numbers) are not modelled;
  templates are strings.
- Comparing two objects with `===` is refused. Object identity is not
  modelled.
- Pipeline.Bindings: has no contract of its own. Its key set is stated by
  `Pipeline.BindingsKeys`, and its values are read through the rendering
  lemmas.

## Findings

| source | as written | input that shows it | evidently intended | confidence | as-written member | corrected member |
|---|---|---|---|---|---|---|
| src/index.js:162 | the block is passed to `String.prototype.replace` as a replacement *pattern*, so `$$`, `$&`, `` $` `` and `$'` in a rendered line are expanded | a document `START` + `END` and one rendered line `$&`: the block gets the matched region inserted where the line was | the rendered block is inserted literally | not executed | DocumentPatch.DollarLineCounterexample | DocumentPatch.PatchIdempotent |

The as-written behaviour is `DocumentPatch.PatchAsWritten`. The corrected
behaviour is `DocumentPatch.Patch`, which is what `Pipeline` and
`Document.Publish` use. A block without `$` is patched the same way by both
(`DocumentPatch.AsWrittenAgreesWithoutDollar`).
