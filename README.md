# Lesson viewer core, modelled in Dafny

The lesson viewer (`app.js`) is a single-page client. It loads a manifest of
lessons, lists them in a sidebar grouped by category and filtered by a search
box, renders a lesson's mini-markdown with embedded quizzes, and keeps
per-lesson progress (opened / done) and quiz answers. Underneath the DOM,
`fetch` and `localStorage` glue there is a small deterministic core. This
project models that core and proves what it does.

- `builtins.dfy` (`Builtins`): the JavaScript built-ins the core relies on,
  stated over `seq<char>`:
  - `Array.prototype.filter`;
  - `String.prototype.trim`, with the exact ECMAScript WhiteSpace and
    LineTerminator sets;
  - `toLowerCase`, for ASCII and Latin-1;
  - `includes`, `join`, and `split("||")`, which splits at leftmost
    non-overlapping separators.
- `escape.dfy` (`Escape`): `escapeHtml`, plus an entity decoder used to state
  that escaping loses nothing.
- `markdown.dfy` (`Markdown`): the four line rules `###`, `##`, `#` and `>`
  from the head of the renderer's regex chain. Each rule is applied to the
  whole text with the `g` and `m` flags, so it acts line by line.
- `quiz.dfy` (`Quiz`):
  - the quiz-body parse (`trim`, `split("||")`, `map(trim)`, `filter(Boolean)`,
    `shift`, then the options with a trailing `*` stripped and read as the
    correctness flag);
  - a writer for quiz bodies, used to state a parse/format round trip;
  - the rendered widget, with the saved-answer lookup
    `answers[id] || null` compared by `==`.
- `lessons.dfy` (`Lessons`): the lesson record, the search predicate,
  `manifest.find` by id, the sidebar grouping by category, and the completion
  percentage.
- `session.dfy` (`App`): the mutable `state` record as the class
  `ViewerState`. The `quiz` answers that the source keeps in localStorage are
  its field `answers`. Its methods are the handlers that change state:
  - boot once the manifest has arrived;
  - search;
  - the "hide completed" checkbox;
  - the sidebar grouping loop;
  - the state part of `openById`;
  - the quiz click handler;
  - reset.

Inputs the browser supplies become parameters:
- the fetched manifest and the stored progress and answers, for the
  constructor;
- the search text;
- the checkbox value;
- the `confirm` result;
- the quiz instance id that `Math.random` produces;
- whether the lesson fetch and render completed (`loaded`).

Two behaviours of the source are kept as written:
- A stored quiz answer of `0` reads as `null` through `|| null`, so it never
  highlights an option. The first option, whose index is 0, is never shown as
  answered.
- A quiz body with no non-empty piece makes `escapeHtml(undefined)` throw.
  `ParseQuiz` and `RenderQuiz` return `None` there.

Also, quiz instance ids are drawn afresh at every render. A stored answer is
therefore only found again when the same id is passed in.

## Model

| member | source | states |
|---|---|---|
| Builtins.Filter | app.js:59-63 | `Array.prototype.filter`, also used at app.js:142: the elements the predicate accepts, in order; the result is never longer than the input |
| Builtins.FilterSubsequence | app.js:59-63 | `filter` keeps its elements in their original order, and each kept element satisfies the predicate |
| Builtins.FilterMultiplicity | app.js:59-63 | `filter` keeps each accepted element exactly as often as it occurs, and no rejected element |
| Builtins.FilterSpec | app.js:59-63 | `filter` keeps its result in the original order, as a subsequence, and keeps each element exactly as often as it occurs when the predicate accepts it, otherwise never |
| Builtins.FilterMembers | app.js:142 | an element is in the filtered sequence iff it is in the input and the predicate accepts it |
| Builtins.FilterSnoc | app.js:75-80 | filtering a sequence extended by one element extends the result by that element exactly when the predicate accepts it |
| Builtins.FilterFilter | app.js:75-76 | filtering twice keeps what both predicates accept |
| Builtins.Trim | app.js:142 | `trim` returns a contiguous slice of the input with no whitespace at either end, and only whitespace was cut off around it |
| Builtins.TrimStart | app.js:142 | the leading-whitespace cut leaves a suffix of the input that does not start with whitespace, and everything cut is whitespace |
| Builtins.TrimEnd | app.js:142 | the trailing-whitespace cut leaves a prefix of the input that does not end in whitespace, and everything cut is whitespace |
| Builtins.TrimStartOfWhitespace | app.js:57-58 | a string of whitespace is cut away entirely from the front |
| Builtins.TrimOfTrimmed | app.js:142 | trimming a string without surrounding whitespace changes nothing |
| Builtins.TrimOfWhitespace | app.js:57-58 | a string of whitespace trims to the empty string |
| Builtins.ToLower | app.js:57-62 | `toLowerCase`, character by character, so the length is kept; only ASCII and Latin-1 letters change |
| Builtins.ToLowerIdempotent | app.js:57 | lower-casing twice is lower-casing once |
| Builtins.ToLowerConcat | app.js:60-62 | lower-casing distributes over concatenation |
| Builtins.Join | app.js:61 | `join(sep)`: the parts with `sep` between each pair, `""` for no parts |
| Builtins.Contains | app.js:60-62 | `includes` holds iff the query occurs at some position of the string |
| Builtins.FirstDoubleBar | app.js:142 | the split point is the leftmost position where `||` starts, or the end of the string when there is none |
| Builtins.SplitDoubleBar | app.js:142 | `split("||")` returns at least one piece; joining the pieces with `||` gives the input back; no piece holds `||`; no piece but the last ends in `|` |
| Builtins.SplitJoin | app.js:142 | splitting pieces joined with `||` gives those pieces back, when none holds `||` and none but the last ends in `|` |
| Escape.EscapeHtml | app.js:207-209 | the escaped text holds none of `<`, `>`, `"` or `'`, and is never shorter than the input |
| Escape.EscapeConcat | app.js:207-209 | escaping works character by character: it distributes over concatenation |
| Escape.EscapeGrows | app.js:207-209 | a string holding one of the five special characters gets strictly longer when escaped |
| Escape.EscapeIdentity | app.js:207-209 | a string is left unchanged iff it contains none of the five special characters |
| Escape.UnescapeEscape | app.js:207-209 | decoding the entities of the escaped text gives the original text back |
| Markdown.RewriteLine | app.js:125-128 | one rule on one line: a line starting with the marker becomes the rest of the line wrapped in the tag; any other line is kept |
| Markdown.ApplyRule | app.js:125-128 | one `replace` with the `gm` flags: every line of the text rewritten by the rule, line terminators kept in place |
| Markdown.HeadingRules | app.js:125-128 | the four replaces in source order: `###`, then `##`, then `#`, then `>` |
| Markdown.LineRules | app.js:125-128 | the four rules, in the same order, applied to a single line |
| Markdown.RulesOnLine | app.js:125-128 | on a text of one line the four `gm` rules are the four rules applied to that line in source order, and the result is again one line |
| Markdown.RulesSplitLines | app.js:125-128 | the rules treat the text line by line: the first line is rewritten on its own, the terminator after it is kept, and the rest is processed alike |
| Markdown.HeadingLevels | app.js:125-128 | `# t`, `## t` and `### t` become `<h1>`, `<h2>` and `<h3>` headings holding exactly `t`, and `> t` becomes a blockquote holding `t`, because `###` is tried before `##`, which is tried before `#` |
| Markdown.PlainLineUnchanged | app.js:125-128 | a line starting with neither `#` nor `>` passes through unchanged |
| Quiz.QuizPieces | app.js:142 | `body.trim().split("||").map(s=>s.trim()).filter(Boolean)` |
| Quiz.TrimAll | app.js:142 | mapping `trim` over the pieces keeps their number and leaves every piece trimmed |
| Quiz.MakeOption | app.js:144 | option `i` of a piece: the text with one trailing `*` removed, correct iff the piece ends in `*`, and index `i` |
| Quiz.MakeOptionSource | app.js:144 | an option's text followed by `*` when it is correct reads back as the piece it came from |
| Quiz.OptionsOf | app.js:144 | option `i` has index `i`; it is correct iff its piece ends in `*`; its text is the piece with one trailing `*` removed |
| Quiz.ParseQuiz | app.js:142-144 | there is no quiz iff no piece is non-empty; otherwise the question is the first piece, there is one option per remaining piece, and option `i` is built from piece `i + 1` as above |
| Quiz.QuizPiecesClean | app.js:142 | every piece is non-empty, trimmed, and free of `||` |
| Quiz.QuizPiecesComplete | app.js:142 | every segment of the split that is not blank is kept, trimmed, among the pieces |
| Quiz.PieceKept | app.js:142 | a split segment that is not blank after trimming survives `map(trim).filter(Boolean)` |
| Builtins.FilterKeepsAll | app.js:142 | `filter` keeps every element when the predicate accepts all of them |
| Quiz.PiecesOfFormat | app.js:141-142 | the pieces of the body written for a well-formed quiz are the question followed by each option's text with its `*` |
| Quiz.OptionsOfSources | app.js:144 | reading options back from those written pieces gives the quiz's options |
| Quiz.ParseFormat | app.js:141-144 | parsing the body written for a well-formed quiz gives that quiz back |
| Quiz.SavedAnswer | app.js:147 | `answers[id] \|\| null`: the stored answer, or none when it is missing or 0 |
| Quiz.MarkFor | app.js:149 | `saved==o.i`: an option is marked when the saved answer equals its index, as correct or incorrect by the option's flag, and unmarked otherwise |
| Quiz.ViewOption | app.js:149 | one `<label>`: the option's index, flag, mark and escaped text |
| Quiz.RenderWidget | app.js:145-150 | the widget of a parsed quiz carries the given instance id and one option view per option |
| Quiz.WidgetShowsQuiz | app.js:149-150 | the heading and labels decode to the question and option texts and hold no markup characters; each view carries its option's index and correctness |
| Quiz.WidgetMarks | app.js:147-149 | option view `i` is marked iff the saved answer for the id is present, non-zero and equal to the option's index; the mark is "correct" iff the option is correct |
| Quiz.WidgetZeroMarksNothing | app.js:147-149 | a saved answer of 0 reads as null, so no option view is marked |
| Quiz.RenderQuiz | app.js:145-150 | the widget exists iff the body has a non-empty piece; it carries the given instance id and one option view per option |
| Quiz.RenderShowsQuiz | app.js:149-150 | the heading and labels decode to the question and option texts and hold no markup characters; each view carries its option's index and correctness |
| Quiz.MarkedOption | app.js:147-149 | an option is marked iff the saved answer for the quiz id is present, non-zero and equal to its index; the mark is "correct" iff the option is correct |
| Quiz.SavedZeroMarksNothing | app.js:147-149 | a saved answer of 0 marks no option |
| Quiz.FirstOptionNeverMarked | app.js:147-149 | the first option is never marked, whatever is saved |
| Lessons.NormalizeQuery | app.js:57 | the typed text lower-cased, then trimmed |
| Lessons.SearchCategory | app.js:62 | `item.category \|\| ""`: the category text, or `""` when the lesson has none |
| Lessons.Matches | app.js:59-63 | the lower-cased title, space-joined tags or category contains the query |
| Lessons.SearchResult | app.js:56-63 | the whole manifest for a blank query, otherwise the manifest filtered by `Matches` |
| Lessons.SearchSpec | app.js:56-63 | the search result is an order-preserving subsequence of the manifest. It holds each lesson as often as the manifest does when the query is blank after trimming or the lesson matches, and never otherwise |
| Lessons.SearchKeepsOrder | app.js:56-63 | the search result is an order-preserving subsequence of the manifest, for a blank query and for a filtering one alike |
| Lessons.BlankQueryRestores | app.js:57-58 | a query of whitespace only restores the whole manifest |
| Lessons.SearchIgnoresCase | app.js:57 | searching for the lower-cased query gives the same result as searching for the query |
| Lessons.FindById | app.js:115 | no lesson is found iff no manifest entry has the id; otherwise the found lesson is the first entry with that id |
| Lessons.Visible | app.js:75-76 | the filtered lessons the loop does not skip: all of them, or only those not done when "hide completed" is set |
| Lessons.GroupKey | app.js:77-78 | the property key `groups[item.category]` uses: the category, or `"undefined"` when the lesson has none |
| Lessons.InCategory | app.js:77-79 | the group of key `c`: the listed lessons filed under `c`, in order |
| Lessons.Categories | app.js:77-81 | the group keys in the order the loop creates them, which is the order `Object.entries` lists them in, integer-like keys aside |
| Lessons.InCategoryMembers | app.js:77-79 | a lesson is in the group of `c` iff it is listed and filed under `c` |
| Lessons.MissingCategoryGroup | app.js:62-79 | a lesson without a category is grouped under "undefined", together with a lesson whose category is the text "undefined", and not under `""`, although the search reads its category as `""` |
| Lessons.VisibleSpec | app.js:75-76 | the sidebar lists exactly the filtered lessons not hidden as completed; each category group keeps filtered order |
| Lessons.VisibleSnoc | app.js:75-76 | appending a lesson to the filtered list appends it to the listed lessons, unless it is done and completed lessons are hidden |
| Lessons.InCategorySnoc | app.js:77-79 | appending a lesson appends it to its own category's group and to no other |
| Lessons.NoItemInAbsentCategory | app.js:77-79 | a category none of the lessons has gets an empty group |
| Lessons.ConcatGroupsSnocItem | app.js:74-80 | with distinct keys, appending a lesson adds it exactly once to the groups taken together when its category is a key, and not at all otherwise |
| Lessons.CategoriesSpec | app.js:77-79 | the group keys list each category once, and exactly the categories of the listed lessons |
| Lessons.GroupingStep | app.js:77-79 | one loop step appends the lesson to its category's group, creating the group and its key first when missing, and keeps the grouping exact |
| Lessons.NewCategoryGroup | app.js:77-79 | a lesson whose category is new gets a group of its own, placed after the existing ones, holding just that lesson |
| Lessons.GroupsPartition | app.js:74-80 | the groups, taken in key order, hold exactly the listed lessons, each as often as it occurs: nothing is lost or duplicated |
| Lessons.CompletionPercent | app.js:106-109 | with no lessons the figure is NaN (0 done) or Infinity (some done); otherwise it is 100·done/total rounded to the nearest integer, halves up |
| Lessons.RoundedPercentUnique | app.js:109 | exactly one integer is a correct rounding |
| Lessons.CompletionBounds | app.js:106-109 | with no more done entries than lessons the figure lies in 0..100; none done gives 0 and all done gives 100 |
| Lessons.CompletionWithinRange | app.js:106-109 | while every progress key names a manifest lesson, the figure lies in 0..100 |
| Lessons.DoneCount | app.js:108 | `Object.values(progress).filter(p => p.done).length`: the number of entries marked done |
| Lessons.DoneCountMarkDone | app.js:198 | marking a lesson done raises the done count by one, unless it was done already |
| Lessons.DoneCountOpen | app.js:174-175 | marking a lesson opened while keeping its done flag leaves the done count alone |
| Lessons.DoneCountBound | app.js:108 | the done count never exceeds the number of progress entries |
| App.ViewerState.constructor | app.js:37-40 | once the manifest has arrived: the whole manifest is shown, nothing is current, "hide completed" is off, and progress and answers are what storage held |
| App.ViewerState.SetHideComplete | app.js:32-35 | the checkbox sets `hideComplete`, and nothing else changes |
| App.ViewerState.OnSearch | app.js:56-65 | `filtered` becomes the search result for the typed text; it stays a subsequence of the manifest, and nothing else changes |
| App.ViewerState.GroupSidebar | app.js:72-80 | the loop returns the category keys in first-appearance order, exactly one group per key, and each group holds the visible filtered lessons of its category in order |
| App.ViewerState.OpenById | app.js:114-176 | an unknown id changes nothing; a known id makes the first lesson with that id current; once loaded, the lesson's entry is marked opened with its done flag kept; no other entry changes; the done count is unchanged; "done implies opened" and "keys name lessons" are preserved |
| App.ViewerState.AnswerQuiz | app.js:186-199 | the selected index is stored under the quiz id, and no other answer changes. A correct answer, while a lesson with a non-empty id is current, sets that lesson's entry to opened and done; otherwise progress is untouched. No done flag is ever cleared |
| App.ViewerState.ResetProgress | app.js:25-30 | once confirmed, progress is empty; the quiz answers and everything else are untouched |
| App.ViewerState.Completion | app.js:106-109 | the figure shown is the rounded percentage of done entries over manifest lessons, NaN or Infinity for an empty manifest, and lies within 0..100 while every progress key names a lesson |

## Left out

- DOM construction and event wiring are left out as presentation only (app.js:10-24, 81-103, 153, 157-171, 182-193). This covers the keyboard shortcut, the sidebar toggle, the `active`/`done` classes, the `padStart` numbering and the next-lesson cards.
- Network access (`fetch`) is left out: the manifest is a constructor parameter. Whether a lesson's text arrived is the `loaded` parameter of `OpenById`.
- `localStorage` and JSON (de)serialisation are left out. Stored progress and answers are in-memory maps, and corrupt stored JSON (which makes the source throw) is not modelled.
- `Math.random` quiz ids are left out: the id is a parameter of `RenderQuiz` and `AnswerQuiz`.
- The `confirm` dialog is left out: its answer is the `confirmed` parameter.
- Routing via `location.hash` and `hashchange` is left out as browser plumbing (app.js:44-52, 118). This includes boot's choice of the lesson to open first.
- Interleaving of overlapping `openById` calls is left out, because it is a matter of concurrency. Each call is modelled as one step.
- The rest of the regex chain is left out (app.js:129-141): inline code, lists, fenced code, paragraphs and quiz-block extraction. It depends on lazy `s`-flag matching, lookahead and the interplay of the rules. The quiz body is taken as given.
- Lessons.Matches: a lesson without a `title` makes the source throw; the model requires every lesson to have one. A missing `tags` is modelled as empty, as `||[]` makes it. A missing `category` is None: the search reads it as `""` (`||""`), and the grouping files it under the key "undefined" (`Lessons.GroupKey`).
- Builtins.ToLower: lower-cases ASCII and Latin-1 letters only. The rest of Unicode case mapping is not modelled.
- Lessons.Categories: lists categories in insertion order, but `Object.entries` puts integer-like keys first in ascending order. The model does not capture that reordering.
- App.ViewerState.GroupSidebar: the `order` result has the same limitation, since it is insertion order.
- Category names that name `Object.prototype` members (for example `constructor`) are not modelled. There `groups[key] || []` returns the inherited member, and `.push` on it throws (app.js:78-79).
- Lesson ids that name `Object.prototype` members (for example `constructor` or `__proto__`) are treated like any other id. The source does not throw for them, but it behaves differently:
  - `openById` reads the inherited member through `state.progress[item.id] || {}` and sets `opened` on it (app.js:174-175). For `__proto__` that write lands on `Object.prototype`.
  - `JSON.stringify` then drops the entry (app.js:176).
  - `?.done` (app.js:76, 89) reads the inherited member without throwing.
  - The quiz handler's `state.progress[cur] = {opened:true, done:true}` (app.js:198) does not throw either. For `__proto__` it replaces the prototype of `state.progress` instead of adding an entry.
- Lessons.CompletionPercent: uses exact rational rounding. The source rounds an IEEE double, which can fall just below or above an exact half.
- Lessons.CompletionPercent: `Whole`, `NaN` and `Infinity` stand for the number the source prints. The CSS width set from it is not modelled.
