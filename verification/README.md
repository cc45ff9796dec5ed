# SugarCube story validator, modelled in Dafny

`lib/sugarValidatorLib.js` exports `validate(fileData, localStorage)`, a checker
for a published Twine/SugarCube story file. It works in this order:

1. It cuts the file into `<tw-passagedata>` passages. For each passage it
   decodes the HTML entities of the passage text and re-encodes the markup
   inside exclusion zones (`"""…"""`, `<nowiki>`, `{{{…}}}`, comments,
   `<<script>>`), so that later scans skip those zones.
2. It builds a registry of the known macros. The sources are:
   - the built-in tables;
   - the macros the user script defines;
   - saved overrides;
   - the `<<widget>>` definitions of passages tagged `widget`.
3. It runs these checks on every passage inside one `try`:
   - quote parity (`matchQuotes`);
   - `<<`/`>>` balance (`matchGTLT`);
   - the tag and macro nesting automaton (`matchTags`, with `digStackForTag`,
     `hiderTag`, `tagNameAt` and `tagQNameAt`);
   - deprecated syntax;
   - the condition and setter checks;
   - widgets used outside a widget passage.

   A thrown error ends only the checks of its own passage.
4. Finally it scans the user script for deprecated calls.

The model has one Dafny module per concern:

| Module | What it models |
|---|---|
| `JsStrings` | the JavaScript string primitives the code relies on, with their edge cases (negative and out-of-range indices, `substr` with a negative start, `split`, `trim`, `\s`, `\w`) |
| `Entities` | the entity codec |
| `Exclusions` | `parsePassage` |
| `Document` | the splitter and `getHTMLAttr` |
| `Quotes` | `matchQuotes` |
| `Balance` | `matchGTLT` |
| `Names` | `tagNameAt` and `tagQNameAt` |
| `Registry` | the macro tables, registration and the saved overrides |
| `Stack` | `digStackForTag`, `hiderTag` and the choice of a sub-tag's context |
| `Tags` | `matchTags` |
| `Expressions` | `replaceText` |
| `Deprecations` | both deprecation scans |
| `Widgets` | `findAllWidgets` and `checkInvalidWidgets` |
| `Diagnostics` | diagnostics |
| `Validator` | the driver |

A diagnostic is its kind, the positions it points at, the header it is filed
under, and its severity. A thrown error of a check becomes a `Result` or a
`Stop` value, and the `try` of the driver becomes a function that files what
a passage's checks found up to the first error.

Some behaviour is kept exactly as written:

- After a sub-tag whose context is open but out of order, line 326 names an
  undeclared variable `index`. The `ReferenceError` this raises is caught by
  the driver's `catch` as an unhandled exception. The model keeps that.
- Lines 840 and 613 read the `tags` attribute of a header that has none. The
  resulting `TypeError` behaves differently in the two places:
  - in `findAllWidgets`, which runs outside the `try`, it ends the whole run;
  - in `checkInvalidWidgets`, which runs inside it, it is an unhandled
    exception of that passage only.

Where the code is evidently wrong, the model keeps both readings. A member
whose behaviour depends on such a defect takes a `Reading`: `AsWritten`
follows the code, `Intended` follows the corrected definition. Lemmas show
where the two differ. `Validator.Validate` is the run as written: the
exclusion loop with its stale cursor, the built-in table with `'optionsfrom '`,
the macro lookup and the override test through `Object.prototype`, and the
script's last line read as line 1. `Validator.ValidateIntended` is the same
run with all four corrected. See "## Findings".

## Model

| member | source | states |
|---|---|---|
| Entities.EntityShape | lib/sugarValidatorLib.js:5-12 | the substitution table has six entries, each with a non-empty entity and a non-empty replacement |
| Entities.RecodeIsEncJoin | lib/sugarValidatorLib.js:20-26 | re-encoding, pass by pass in reverse table order, equals encoding the text piece by piece: two spaces become a tab, and each markup character becomes its entity |
| Entities.DecodeRecode | lib/sugarValidatorLib.js:13-26 | decoding undoes re-encoding for every tab-free text (a tab decodes to two spaces, so it cannot round-trip) |
| Entities.RecodeHidesMarkup | lib/sugarValidatorLib.js:20-26 | re-encoded text holds no `<`, `>`, `"` or `'` |
| Entities.RecodeKeeps | lib/sugarValidatorLib.js:20-26 | re-encoding neither adds nor removes a `{` or a `/` |
| Exclusions.MarkupShape | lib/sugarValidatorLib.js:28-36 | the exclusion table has seven entries, and every opener starts with one of `"`, `<`, `{`, `/` |
| Exclusions.FirstOpenerSpec | lib/sugarValidatorLib.js:42-50 | the scan over the table finds no opener exactly when none occurs at or after the cursor; otherwise it finds the leftmost one, and on a tie the one earlier in the table |
| Exclusions.ExcludeStep | lib/sugarValidatorLib.js:41-64 | one round either ends (no opener), or reports the earliest opener whose closer is missing, or re-encodes that opener's zone up to the first closer after it. In the last case the text outside the zone is unchanged, the cursor moves past the closer's old position, and fewer opener characters remain after the cursor |
| Exclusions.RecodeStep | lib/sugarValidatorLib.js:56-64 | for an opener whose closer is found, the round rewrites exactly the zone between them and moves the cursor to the closer's end as found before the rewrite |
| Exclusions.Rezone | lib/sugarValidatorLib.js:63 | the rewritten text keeps everything up to the opener's end and from the closer on; the zone in between is the re-encoded zone |
| Exclusions.ZoneFacts | lib/sugarValidatorLib.js:63 | a re-encoded zone holds no markup character, and it decodes back to the original zone when the zone is tab-free |
| Exclusions.ExcludeFrom | lib/sugarValidatorLib.js:41-65 | the loop, as written, terminates. Any warning names an opener of the final text with no closer after it, the text before the cursor is kept, and a text without openers is returned unchanged and without warning |
| Exclusions.ParsePassage | lib/sugarValidatorLib.js:37-69 | the header is the text from the start index to the content index; any warning points at an unclosed opener of the content; a passage with no exclusion opener is its decoded text, with no warning |
| Exclusions.LocateZone | lib/sugarValidatorLib.js:42-61 | a round of the corrected loop finds no zone exactly when no opener occurs. An open zone is an unclosed opener; a closed zone lies inside the text and leaves fewer opener characters after it |
| Exclusions.LocateAgrees | lib/sugarValidatorLib.js:42-61 | the corrected round picks the same opener and the same closer as a round of the loop as written, and resumes at the same place for the first round |
| Exclusions.ExcludeRest | lib/sugarValidatorLib.js:41-65 | the corrected loop only appends to the text it has finished |
| Exclusions.RestWarning | lib/sugarValidatorLib.js:57-60 | a warning of the corrected loop names an opener of the final text with no closer after it |
| Exclusions.ExcludeFromIntended | lib/sugarValidatorLib.js:41-65 | the corrected loop warns only about unclosed openers, and leaves a text without openers untouched and without warning |
| Exclusions.ParsePassageIntended | lib/sugarValidatorLib.js:37-69 | `parsePassage` with the corrected loop keeps the same three promises |
| Exclusions.ParsePassageIn | lib/sugarValidatorLib.js:37-69 | whichever reading the splitter uses, the passage keeps those three promises |
| Exclusions.FirstRoundSample | lib/sugarValidatorLib.js:63-64 | on `/*<<{{{*/` the first round re-encodes the comment, which grows by six characters, and sets the cursor to 9 |
| Exclusions.SecondRoundSample | lib/sugarValidatorLib.js:64 | from cursor 9 of the rewritten text, the next round meets the `{{{` inside the comment and reports it as unclosed |
| Exclusions.RescannedAsWritten | lib/sugarValidatorLib.js:63-64 | the loop as written warns about an unclosed `{{{` in the fully closed comment `/*<<{{{*/` |
| Exclusions.NotRescannedIntended | lib/sugarValidatorLib.js:63-64 | the corrected loop re-encodes the same comment and gives no warning |
| Document.SplitFrom | lib/sugarValidatorLib.js:84-94 | the splitting loop finds no passage exactly when no start tag follows. Every cut starts at a start tag at or after the resume point, its header is that tag up to its first `>`, and it ends at the first close tag after its start. The cuts are in file order without overlap; the loop fails only at a start tag with no close tag after it |
| Document.SplitAt | lib/sugarValidatorLib.js:85-93 | one round either fails at its start tag (no close tag follows) or yields cuts beginning at that tag, each well formed, in file order |
| Document.HeaderCut | lib/sugarValidatorLib.js:89 | the first `>` after a start tag lies past the tag's own characters and no later than the close tag's `>`, so the header is the start tag up to that `>` |
| Document.ResumeAfterClose | lib/sugarValidatorLib.js:93 | resuming at `endIndex + 16`, one short of the close tag's length, finds the same passages as resuming just past the tag |
| Document.ParseCuts | lib/sugarValidatorLib.js:90-92 | one passage per cut, in order: each has its cut's header, warns only about an unclosed opener, and is the decoded text when that holds no opener, in either reading |
| Document.SplitPassages | lib/sugarValidatorLib.js:80-94 | the file yields no passages exactly when it has no start tag; the only failure is an unclosed passage, at its start tag. Otherwise there is one passage per cut of the splitting loop, in file order, each parsed from its cut as `parsePassage` promises |
| Document.GetHTMLAttr | lib/sugarValidatorLib.js:71-78 | a value is returned exactly when `attr="` occurs and a `"` follows it. The value then has no `"`, and `attr="value"` occurs at the first occurrence of `attr="` |
| Document.AttrRoundTrip | lib/sugarValidatorLib.js:71-78 | an attribute written at the front without a `"` in its value reads back as written |
| Diagnostics.FileAll | lib/sugarValidatorLib.js:98-110 | filing keeps every diagnostic, in order, under its header and with its severity |
| Quotes.MatchQuotes | lib/sugarValidatorLib.js:112-121 | each of the three warnings is given exactly when its count is odd (`"` characters, non-overlapping `''`, non-overlapping `//`), and no other warning is given |
| Quotes.MatchQuotesConcat | lib/sugarValidatorLib.js:112-121 | cut after a character other than `'` and `/`, a passage gets each warning exactly when one of the two parts gets it |
| Quotes.DoubleQuotesConcat | lib/sugarValidatorLib.js:113-115 | the double-quote warning of a concatenation is the exclusive-or of the parts' warnings, wherever the cut |
| Quotes.DualQuotesConcat | lib/sugarValidatorLib.js:117-118 | the same for `''`, when the first part does not end with `'` |
| Quotes.DualSlashesConcat | lib/sugarValidatorLib.js:119-120 | the same for `//`, when the first part does not end with `/` |
| Balance.NextToken | lib/sugarValidatorLib.js:127-133 | the next token is the first `<<` or `>>` at or after the cursor; there is none exactly when neither search finds one |
| Balance.NextTokenIsIndexOf | lib/sugarValidatorLib.js:127-128 | the token search is JavaScript's `indexOf` of `<<` and of `>>` |
| Balance.TokensFound | lib/sugarValidatorLib.js:126-137 | every token the loop meets is a `<<` or `>>` at or after the cursor, and there are none exactly when neither occurs |
| Balance.CheckFrom | lib/sugarValidatorLib.js:123-152 | the loop fails only with an unmatched `>>` or an unmatched `<<` |
| Balance.MatchGTLT | lib/sugarValidatorLib.js:123-152 | `matchGTLT` throws only those two errors |
| Balance.CheckIsAutomaton | lib/sugarValidatorLib.js:126-151 | the loop over the text is the stack automaton run over the text's tokens |
| Balance.AutomatonIsWalk | lib/sugarValidatorLib.js:133-150 | the automaton agrees with a depth counter. It passes exactly when the depth ends at zero; it reports an unmatched `>>` exactly when the depth would go negative, and an unmatched `<<` exactly when the depth ends above zero |
| Balance.CheckIsWalk | lib/sugarValidatorLib.js:123-152 | the same agreement, stated for the loop over the text |
| Balance.MatchGTLTBalanced | lib/sugarValidatorLib.js:123-152 | `matchGTLT` passes exactly when the `<<`/`>>` tokens of the passage balance |
| Balance.CloseErrorAt | lib/sugarValidatorLib.js:139-142 | an unmatched `>>` is reported at the first token that takes the depth below zero |
| Balance.OpenErrorAt | lib/sugarValidatorLib.js:147-149 | an unmatched `<<` is reported at the innermost `<<` left open |
| Balance.CloseErrorIsToken | lib/sugarValidatorLib.js:139-142 | for a whole passage, the reported `>>` is a token that closes more than was opened before it |
| Balance.OpenErrorIsToken | lib/sugarValidatorLib.js:147-149 | for a whole passage, the reported `<<` is a token whose rest of the passage balances |
| Names.ScanName | lib/sugarValidatorLib.js:227-229 | the scan stops at the first character outside `[\w-]` |
| Names.TagNameAt | lib/sugarValidatorLib.js:242-253 | leading white space is skipped. A name is read exactly when a letter follows it, and then the name runs up to the first character outside `[\w-]` |
| Names.TagNameRoundTrip | lib/sugarValidatorLib.js:242-253 | white space then a name, then a character that cannot continue the name: the bounds of that name are read back |
| Names.TagQNameAt | lib/sugarValidatorLib.js:219-239 | the name is at least one character and stops at the first character outside `[\w-]`. A quoted name ends at the same quote it started with; nothing is returned only when a quote after the white space is not matched |
| Names.QNameRoundTrip | lib/sugarValidatorLib.js:219-239 | a name after white space, bare or between matching quotes, is read back with its bounds and whether it was quoted |
| Stack.DigHtml | lib/sugarValidatorLib.js:169-186 | closing an HTML tag either finds the matching HTML tag on top, or pushes a placeholder (with a warning unless the stack was empty); either way the index names the new top |
| Stack.DigUnordered | lib/sugarValidatorLib.js:188-195 | the unordered search returns the 1-based index of the topmost open macro frame of that name, or 0 |
| Stack.DigUnorderedFinds | lib/sugarValidatorLib.js:188-195 | it returns 0 exactly when no open macro frame of that name is on the stack |
| Stack.DigStrict | lib/sugarValidatorLib.js:196-215 | the strict search only pops frames from the top, with one warning per frame discarded |
| Stack.DigStrictSpec | lib/sugarValidatorLib.js:196-215 | the strict search discards only non-macro frames, each with its own warning (at end of text or before the tag). It stops at a macro frame or the bottom, and succeeds exactly when it stops at a macro frame of the sought name |
| Stack.HiderTagSpec | lib/sugarValidatorLib.js:154-166 | `hiderTag` blames the top frame, and it blames one exactly when that frame has another name and a frame of the sought name lies below |
| Stack.HiderFromSpec | lib/sugarValidatorLib.js:156-165 | the popping loop returns the first frame it popped when the name is found, otherwise nothing |
| Stack.FirstFit | lib/sugarValidatorLib.js:310-322 | reference reading of the context search: the first context that is open, and on top when ordered |
| Stack.ChooseFromSpec | lib/sugarValidatorLib.js:309-331 | the search loop picks the first fitting context. Failing that it asks for the order warning when some context is open, and otherwise falls back to the first context |
| Stack.ChooseContextSpec | lib/sugarValidatorLib.js:306-336 | a single context is taken as is; with several, the first fitting one, else the order warning if one is open, else the first |
| Registry.SimpleMacroSpec | lib/sugarValidatorLib.js:706-709 | `addSimpleMacro` makes the name known and replaces only its entry, with the given `closed` flag |
| Registry.DeprecatedEndSpec | lib/sugarValidatorLib.js:710-713 | `addDeprecatedEndMacro` gives the name an unclosed entry standing for the macro named after its first three characters |
| Registry.AddSubsKnown | lib/sugarValidatorLib.js:699-704 | the sub-tag loop makes exactly the sub-tags known |
| Registry.ComplexMacroSpec | lib/sugarValidatorLib.js:696-705 | `addComplexMacro` makes the macro and its sub-tags known and gives the macro a fresh closed entry; other names keep their entries |
| Registry.ComplexAppendsContext | lib/sugarValidatorLib.js:699-704 | a sub-tag listed once keeps its entry and gains one context, which is last exactly when the sub-tag is the list's last |
| Registry.AllSimpleSpec | lib/sugarValidatorLib.js:716-717 | loading a list of simple macros gives each listed name the fresh entry and leaves every other name alone |
| Registry.AllEndsSpec | lib/sugarValidatorLib.js:725 | loading the deprecated ends makes each listed name an alias of the close of the macro named after `end` |
| Registry.ComplexTableContexts | lib/sugarValidatorLib.js:719-720 | loading the complex table gives a sub-tag exactly the contexts of the entries that list it, in table order |
| Registry.TablesEndAlias | lib/sugarValidatorLib.js:714-725 | after all four tables, a deprecated end is still the alias of its macro's close |
| Registry.TablesUnmentioned | lib/sugarValidatorLib.js:714-725 | after all four tables, a name no table mentions has no entry |
| Registry.TablesSubTag | lib/sugarValidatorLib.js:714-725 | after all four tables, a name only the complex table mentions is an unclosed sub-tag with exactly its contexts |
| Registry.BuiltInEndifAlias | lib/sugarValidatorLib.js:725 | `endif` stands for the close of `if` |
| Registry.OptionsFromAsWritten | lib/sugarValidatorLib.js:719 | as loaded, `optionsfrom` has no entry |
| Registry.OptionsFromSpaced | lib/sugarValidatorLib.js:719 | only the unreadable name `optionsfrom ` carries the sub-tag's contexts |
| Registry.OptionsFromIntended | lib/sugarValidatorLib.js:719 | with the corrected spelling, `optionsfrom` is the last sub-tag of both `cycle` and `listbox`, unordered |
| Registry.RegisterOne | lib/sugarValidatorLib.js:775-780 | a known name only gives a conflict warning and changes nothing. An unknown name becomes known; without sub-tags it is simple and closed exactly when `tags` was given, and with sub-tags it is a closed complex macro |
| Registry.Register | lib/sugarValidatorLib.js:774-781 | every evaluated definition's name ends up known, nothing known is forgotten, and the only warnings are conflicts, at most one per definition |
| Registry.RegisterKnownOnlyWarns | lib/sugarValidatorLib.js:777 | definitions of known names leave the registry unchanged and give one conflict each, in order |
| Registry.LoadIgnoredMacros | lib/sugarValidatorLib.js:743-752 | the known names and the own entries are not changed; a saved override is added exactly for a name that the lookup does not find. As written that lookup reads `Object.prototype`, so `toString` or `constructor` is never added; corrected, every saved name without an own entry is added |
| Registry.LoadIgnoredIdempotent | lib/sugarValidatorLib.js:743-752 | loading the same overrides twice adds nothing, in either reading |
| Registry.Find | lib/sugarValidatorLib.js:292 | the macro lookup finds every own entry. Without one, as written it finds exactly the `Object.prototype` names; corrected it finds nothing |
| Registry.DeprecatedSyntaxUnreached | lib/sugarValidatorLib.js:796-801 | at a `/macros` the character one past the slash is `m`, never white space, so the deprecated definitions are never read |
| Tags.MacroAction | lib/sugarValidatorLib.js:292-337 | a name without an entry stops with an unrecognized macro, or an unrecognized close when closing. Closing an unclosed macro stops with `MacroShouldNotBeClosed`. A closed macro opens a frame or closes strictly; an unclosed one with a replacement closes what it stands for; a sub-tag becomes a sub-tag step; an open-order conflict stops with an unhandled exception |
| Tags.ClassifyIn | lib/sugarValidatorLib.js:270-368 | a `<` is skipped (the cursor moves at most three places), stops with an error at that `<`, pushes a frame read in full at that `<`, or starts a search. A single `<` can only concern the tracked HTML tags, and a `<<` never does. A `<</` with no name, or whose name is not followed by `>>`, stops; so does a macro name that the lookup does not find, and the close of an unclosed macro |
| Tags.MatchFrom | lib/sugarValidatorLib.js:257-412 | every warning of the automaton is a stack warning pointing at a `<` of the passage, and so is its error; with no `<` left, the end-of-text check decides |
| Tags.MatchTags | lib/sugarValidatorLib.js:257-412 | the same for a whole passage from an empty stack; a passage without `<` passes with no diagnostic |
| Tags.MacroErrorsStop | lib/sugarValidatorLib.js:284-299 | a malformed close, a macro name without an entry and the close of an unclosed macro each end the automaton at once, with that error and nothing more |
| Tags.ApplyOk | lib/sugarValidatorLib.js:372-410 | the stack update keeps every frame a real tag read at a `<`, and advances the cursor |
| Tags.TopMacro | lib/sugarValidatorLib.js:262-266 | reference reading: the topmost macro frame, with only non-macro frames above it |
| Tags.FinishSpec | lib/sugarValidatorLib.js:262-268 | at the end of the text the frames above the topmost macro frame are discarded, one warning each, and that macro frame, if any, is the unmatched tag |
| Tags.HtmlCloseNeverFails | lib/sugarValidatorLib.js:399-408 | closing an HTML tag never stops the automaton: it pops a matching tag on top, or warns and leaves the stack as it was |
| Tags.UnorderedSubKeepsStack | lib/sugarValidatorLib.js:376-397 | an unordered sub-tag passes exactly when its macro is open somewhere, and then leaves the stack untouched |
| Tags.LastStageIsFinal | lib/sugarValidatorLib.js:389-396 | an ordered last sub-tag (`else`, `default`) puts its macro in the last stage, and any later sub-tag of it stops with the last-stage error |
| Tags.DeprecatedEndCloses | lib/sugarValidatorLib.js:300-302 | an `<<endX>>` registered as a deprecated end is read as the close of `X` |
| Tags.InheritedNameSkipped | lib/sugarValidatorLib.js:292-304 | as written, `<<toString>>` is silently skipped; corrected, it is an unrecognized macro |
| Tags.UnknownMacroRejected | lib/sugarValidatorLib.js:292-295 | corrected, any macro name without an entry stops the automaton, and an opening is reported as unrecognized at its `<<` |
| Tags.EndifCloses | lib/sugarValidatorLib.js:300-302 | with the built-in alias, `<<endif>>` closes an `<<if>>` in either reading |
| Expressions.OpenFrom | lib/sugarValidatorLib.js:418 | the search finds the leftmost `/*` at or after the start, or reports none |
| Expressions.QuotedSpan | lib/sugarValidatorLib.js:426 | the match of a quoted string runs from the first quote to the next one, with no quote inside it or before it; when there is no match, the text holds fewer than two such quotes |
| Expressions.ValidOpenFrom | lib/sugarValidatorLib.js:435 | the leftmost comment opener the comment pattern accepts |
| Expressions.CommentSpan | lib/sugarValidatorLib.js:435 | the comment pattern matches exactly when some opener is followed, with no star in between, by a `*/`; the match contains an opener |
| Expressions.RoundQuoteCase | lib/sugarValidatorLib.js:424-432 | when a quote comes first, the round replaces that quoted string by ` x ` |
| Expressions.RoundCommentCase | lib/sugarValidatorLib.js:434-441 | when a comment opener comes first, the round replaces the comment and its surrounding spaces by one space |
| Expressions.RoundShrinks | lib/sugarValidatorLib.js:415-451 | every round that does not break removes at least one quote or comment opener, so the loop ends |
| Expressions.ReplaceText | lib/sugarValidatorLib.js:414-453 | the result is a text on which the next round breaks out, and it holds no more quotes and openers than the input |
| Expressions.ReplaceTextIdempotent | lib/sugarValidatorLib.js:414-453 | blanking out twice is blanking out once |
| Expressions.PlainUnchanged | lib/sugarValidatorLib.js:414-453 | a text without quotes and comment openers is returned unchanged |
| Expressions.RoundBlanksQuote | lib/sugarValidatorLib.js:424-449 | a closed quoted string preceded only by plain text is replaced by ` x ` |
| Expressions.RoundBlanksComment | lib/sugarValidatorLib.js:434-441 | a comment without an inner star, preceded only by plain text, is replaced by one space |
| Expressions.ReplaceTextStep | lib/sugarValidatorLib.js:424-449 | so `replaceText` reads a leading closed string as the placeholder ` x ` |
| Expressions.ReplaceTextCommentStep | lib/sugarValidatorLib.js:434-441 | and a leading comment as one space |
| Expressions.NoCommentLeft | lib/sugarValidatorLib.js:434-441 | where the blanking out stops and no quote is left, no comment the pattern accepts is left |
| Widgets.NextWidget | lib/sugarValidatorLib.js:843-871 | each round moves past the next `<<`, and reports a definition or an invalid one at that `<<` |
| Widgets.WidgetsFrom | lib/sugarValidatorLib.js:842-871 | the loop only adds names, and files only widget errors at a `<<` |
| Widgets.WidgetsFromSpec | lib/sugarValidatorLib.js:864-865 | known names keep their entries, and a newly known name is a simple unclosed macro |
| Widgets.WidgetDefinitionRegisters | lib/sugarValidatorLib.js:836-872 | `<<widget "hello">>` of a fresh name registers exactly `hello`, with no error |
| Widgets.FindAllWidgets | lib/sugarValidatorLib.js:836-872 | the widget scan fails exactly when the header has no `tags` attribute; a passage not tagged `widget` changes nothing |
| Widgets.CheckInvalidWidgets | lib/sugarValidatorLib.js:609-617 | a header without `tags` is an unhandled exception. An error is given exactly when the passage is not tagged `widget` and contains `<<widget `, and it points at the first occurrence |
| Widgets.WidgetChecksComplement | lib/sugarValidatorLib.js:609-617 | the two widget checks split the tagged passages: a widget passage is never flagged, and the others register nothing |
| Deprecations.PassageFrom | lib/sugarValidatorLib.js:645-651 | each warning names a key, in key order, at that key's first occurrence |
| Deprecations.PassageFromComplete | lib/sugarValidatorLib.js:645-651 | every key that occurs is reported at its first occurrence |
| Deprecations.LineIntendedSpec | lib/sugarValidatorLib.js:679-681 | the corrected line is the line holding the key: its number counts the line breaks before it, and its text is that whole line, trimmed |
| Deprecations.LastLineAsWritten | lib/sugarValidatorLib.js:679-681 | as written, a key with no line break after it is reported on line 1 with empty text |
| Deprecations.LinesAgreeBeforeBreak | lib/sugarValidatorLib.js:679-681 | wherever a line break follows the key, the code and the corrected reading agree |
| Deprecations.SecondLineMisreported | lib/sugarValidatorLib.js:679-684 | a key on the second and last line is reported on line 1 as written, but lies on line 2 |
| Deprecations.LineSpec | lib/sugarValidatorLib.js:679-681 | as written, the reported line is the line holding the key wherever a line break follows the key, and line 1 with empty text otherwise; corrected, it is always the line holding the key |
| Deprecations.NextHit | lib/sugarValidatorLib.js:669-671 | the next occurrence of the key from the cursor, if it starts before the end of the script |
| Deprecations.ScriptHits | lib/sugarValidatorLib.js:668-689 | every occurrence the inner loop visits is an occurrence in the window |
| Deprecations.Report | lib/sugarValidatorLib.js:672-687 | an occurrence is reported exactly when it is stand-alone (for `macros.`) and its line, as the reading has it, is not a comment line; the report carries the key, the position and that line |
| Deprecations.ReportsSound | lib/sugarValidatorLib.js:672-687 | every report is about one of the occurrences, passes both filters, and carries the line of the occurrence as the reading has it |
| Deprecations.ReportsComplete | lib/sugarValidatorLib.js:672-687 | every occurrence that passes the filters, with the reading's line, is reported |
| Deprecations.ScriptFromSound | lib/sugarValidatorLib.js:666-689 | every warning of the inner loop is about its key, in the window, with the reading's line |
| Deprecations.ScriptKeysNoBorder | lib/sugarValidatorLib.js:656-661 | no script key but the first can overlap itself |
| Deprecations.ScriptHitsComplete | lib/sugarValidatorLib.js:668-689 | for a key that cannot overlap itself, the loop visits every occurrence in the window |
| Deprecations.ScriptFromComplete | lib/sugarValidatorLib.js:666-689 | for such a key, every occurrence in the window that passes the filters is reported with the reading's line |
| Deprecations.ScriptCheckComplete | lib/sugarValidatorLib.js:654-691 | every occurrence in the window of a key that cannot overlap itself is reported, unless its line is a comment or it is a `macros.` that does not stand alone |
| Deprecations.ScriptKeysFrom | lib/sugarValidatorLib.js:665-690 | every warning is a script warning about one of the keys from the current one on, in the window; the warnings come in key order |
| Deprecations.FindDeprecatedInScript | lib/sugarValidatorLib.js:654-691 | every warning is about a key occurring in the window between the user script's `id` and the next `</script>`, stand-alone where required, not on a comment line, in key order; without a `</script>` there is nothing to report |
| Deprecations.NoWindow | lib/sugarValidatorLib.js:664-671 | with no end of script, every key's loop stops at once |
| Deprecations.ScriptWarningsSound | lib/sugarValidatorLib.js:666-689 | every warning lies in the window, at an occurrence of its key. Its line is the line that holds it, except that as written a key with no line break after it is on line 1 with empty text |
| Validator.FileChecks | lib/sugarValidatorLib.js:887-888 | the condition and setter findings are filed in order under the passage |
| Validator.File | lib/sugarValidatorLib.js:882-894 | everything is filed under the passage's header, and the quote warnings come first |
| Validator.CheckPassage | lib/sugarValidatorLib.js:881-895 | the checks of a passage file only under it, the quote warnings first; an unbalanced `<<`/`>>` leaves only the quote warnings before its error, and an error of the automaton is the last entry |
| Validator.BalanceErrorStops | lib/sugarValidatorLib.js:884 | an unbalanced `<<`/`>>` ends the passage's checks: its error is filed last, after the quote warnings |
| Validator.TagsErrorStops | lib/sugarValidatorLib.js:885 | an error of the automaton ends the passage's checks: after its warnings, it is the last entry |
| Validator.ExpressionThrowStops | lib/sugarValidatorLib.js:887-893 | an exception of the condition or setter checks ends the passage after what they filed, with an unhandled exception last; the widget check does not run |
| Validator.UnstoppedRunsAll | lib/sugarValidatorLib.js:882-889 | when nothing stops a passage, every later check files all it finds, and a widget error comes last |
| Validator.CheckPassageWarnings | lib/sugarValidatorLib.js:883-885 | the quote warnings and the automaton's warnings of a passage are of their own kinds |
| Validator.CheckAllConcat | lib/sugarValidatorLib.js:881-895 | passages are checked independently: the loop over two runs of passages is the two loops one after the other |
| Validator.FatalStopsOnlyItsPassage | lib/sugarValidatorLib.js:881-895 | what passage `i` files stands between what the passages before and after it file, whatever it throws |
| Validator.ParseWarnings | lib/sugarValidatorLib.js:58-60 | the warnings filed while cutting are unclosed exclusions, at most one per passage |
| Validator.AllWidgets | lib/sugarValidatorLib.js:878-880 | the widget loop only adds names, and its errors are widget redefinitions and invalid definitions; it fails only on a header without `tags` |
| Validator.AllWidgetsFails | lib/sugarValidatorLib.js:878-880 | the widget loop fails exactly when some header has no `tags`, and it fails at the first such header |
| Validator.Start | lib/sugarValidatorLib.js:84-901 | an unclosed passage ends the run without a result; otherwise the run fails exactly when some passage has no `tags` attribute, and a result opens with the cutting warnings and ends with exactly the script deprecations |
| Validator.Run | lib/sugarValidatorLib.js:874-901 | once the file is cut, the run fails exactly when some passage has no `tags` attribute. A result opens with the unclosed-exclusion warnings of the cut, and its entries under the script deprecations are exactly its last ones, the script check's warnings |
| Validator.RunLayout | lib/sugarValidatorLib.js:874-901 | whatever the passage loops file lies between the cutting warnings and the script deprecations, since it is filed under passages or the user script |
| Validator.Validate | lib/sugarValidatorLib.js:84-901 | the run as written keeps the outcome `Start` states, over the as-written cut and script check |
| Validator.ValidateIntended | lib/sugarValidatorLib.js:84-901 | the corrected run keeps the same outcome, over the corrected cut and script check |

## Left out

- `tryEvalMacro` and the discovery loop of `findAllCustomMacros` (727-786)
  evaluate JavaScript with `eval`.
  - The model takes the evaluated `Macro.add` definitions as an input list.
  - It models only what registering them does (775-780).
  - The warnings for macros that could not be parsed or evaluated are not
    produced.
- `findAllCustomMacrosDeprecated` (788-834) registers nothing: line 798 tests
  the character right after the `/` of `/macros`, which is always `m` and
  never white space, so every occurrence is skipped and lines 802-832 never
  run (`Registry.DeprecatedSyntaxUnreached`). The model has no deprecated
  definitions.
- `findInvalidConditions` and `findInvalidSetters` (455-607) are chains of
  regular-expression rewrites. They are a parameter of the driver: a
  function from a passage's text to what they file, in order, and whether
  they end by throwing. `findInvalidConditions` reads `pn` at line 462 before
  its declaration at line 466, so the first condition it examines throws a
  `ReferenceError`; the parameter's `threw` flag stands for that.
- Message text is not modelled: the 80-character excerpts of `errorMsgAt`, the
  `\n`/`\t` escaping of `addError`, and the 200-character excerpt of the
  unclosed-passage exception. A diagnostic keeps its kind and positions.
- The result is an ordered list of entries, each with header, severity and
  diagnostic. The source groups the same entries into one object per header,
  for errors and for warnings; that grouping is this list filtered by header
  and severity.
- The position of a placeholder frame (`{}` has no `pos`) is modelled as 0.
  It only affects message text.
- `localStorage` is the map `saved` of overrides. A saved entry with an
  explicitly empty `ctx` array is not told apart from one without `ctx`: the
  model skips such a macro as it skips one without `ctx`. In the code `[]` is
  truthy, so line 303 does not skip it; `isMacro.ctx[0]` is `undefined` and
  `ctx.main` at line 333 throws a `TypeError`, which the driver files as an
  unhandled exception. Only a saved override can hold such an entry.
- The `module.exports` line (904) is left out: it has no behaviour.
- Strings are sequences of characters. UTF-16 surrogate pairs are not treated
  specially; `\s` is JavaScript's white-space set and `\w` is ASCII.
- Validator.Validate: its contract is the run's outcome as `Start` states it
  (failure cases and the order of the result). It does not characterise every
  entry of the result; the per-passage lemmas do that piece by piece.
- MatchFrom: the contract states where diagnostics point, the end-of-text
  case, and (in `Tags.MacroErrorsStop`) the fatal macro errors. It does not
  characterise the set of passages the automaton accepts as a grammar.
- MatchTags: the same as `MatchFrom`, for a whole passage.
- Deprecations.ScriptFromComplete: completeness is proved only for keys that
  cannot overlap themselves (every script key but `state.active.variables`).
  For a key that can, the loop resumes after each occurrence and may skip an
  overlapping one, so the code does not report every occurrence either.
- Exclusions.ExcludeFromIntended: it states soundness of the warning and the
  no-opener case. It does not state that every unclosed opener is found,
  because the loop stops at the first one, as the code does.

## Findings

| source | as written | input that shows it | evidently intended | confidence | as-written member | corrected member |
|---|---|---|---|---|---|---|
| lib/sugarValidatorLib.js:719 | the sub-tag of `cycle` and `listbox` is registered as `'optionsfrom '`, with a trailing space that `tagNameAt` never reads | `<<cycle>><<optionsfrom _list>><</cycle>>`: the name read is `optionsfrom`, which has no entry, so the passage stops with an unrecognized macro | register `optionsfrom` as the last, unordered sub-tag of both macros | high; not executed | Registry.OptionsFromAsWritten | Registry.OptionsFromIntended |
| lib/sugarValidatorLib.js:292 | `allMacros[next]` also reads properties inherited from `Object.prototype` | `<<toString>>` with no such macro: the inherited function is truthy, has no `closed` and no `ctx`, so the tag is skipped without a diagnostic | report a name without an own entry as an unrecognized macro | medium; not executed | Tags.InheritedNameSkipped | Tags.UnknownMacroRejected |
| lib/sugarValidatorLib.js:63-64 | the cursor is set past the closer's position in the text before the rewrite, but the rewritten zone can grow | `/*<<{{{*/`: the zone `<<{{{` becomes `&lt;&lt;{{{`, and the next round starts inside the comment, so the passage gets a warning about an unclosed `{{{` | resume right after the closer in the rewritten text | high; not executed | Exclusions.RescannedAsWritten | Exclusions.NotRescannedIntended |
| lib/sugarValidatorLib.js:679-681 | `fileData.indexOf('\n', startIndex)` is -1 when no line break follows the key, and `substring(0, -1)` is empty | a user script whose last line, with no line break after it, is `x = state.active.variables;` on line 2: it is reported as line 1 with empty text | the number and text of the line holding the key, reading the end of the file as the end of the line | high; not executed | Deprecations.SecondLineMisreported | Deprecations.LineIntendedSpec |
