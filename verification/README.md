# doing: template rendering, colours, dates and the changelog, in Dafny

This project models the core of `doing`, a command-line journal written in Ruby. It covers
four parts:

- **The template exporter.** Each entry ("item") is rendered through a user template. Colour
  names such as `%red`, and the directives `%date`, `%interval`, `%shortdate`, `%title`,
  `%section`, the note directives, `%hr`, `%n` and `%t`, are replaced in a fixed order. Tags
  can be highlighted, and tag time totals can close the output.
- **The colour helpers.** These are the ANSI attribute table, the colour methods generated
  from it, colour-name validation and normalisation, `uncolor`, and the `{xy}` colour-template
  shorthand.
- **The date helpers.** These are `humanize`, `relative_date` and `time_ago`.
- **The changelog reader.** It splits the changelog into versioned changes, narrows them by
  a version query and a search, and prints the latest one or all of them.

Everything is modelled with immutable datatypes and pure functions. Ruby's regular
expressions are written out as scanning functions that find the same match the regex engine
finds: the leftmost match, with greedy or lazy repetition resolved in backtracking order.
Ruby's `sub`/`gsub` with a replacement string expands backslash sequences. That expansion
is modelled as well (module `Backrefs`), and its possible failure (`\k<name>` raises) is a
`Result` error.

Modules, one per file:

| module | file | models |
|---|---|---|
| `Wrappers` | wrappers.dfy | `Option`/`Result` for Ruby's `nil` and raised errors |
| `Strings` | strings.dfy | `strip`, `chomp`, `join`, literal `sub`/`gsub`, character classes |
| `Backrefs` | backrefs.dfy | replacement-string expansion of `sub`/`gsub` |
| `Wrap` | wrap.dfy | the `(.{1,w})(\s+\|\Z)` word wrap of titles and note lines |
| `Notes` | notes.dfy | note preparation and the note directives |
| `Tags` | tags.dfy | `@tag` highlighting |
| `TemplateExport` | template_export.dfy | one item's passes, the batch, `render` |
| `Times` | times.dfy | `humanize`, `relative_date`, `time_ago` |
| `Colors` | colors.dfy | attributes, colour methods, `validate_color`, `normalize_color`, `uncolor` |
| `ColorTemplate` | color_template.dfy | `Color.template` (`gsub` into `%<c>s`, then `format`) |
| `Changelog` | changelog.dfy | `parse_changes`, `lookup`, `search`, `latest`, `to_s` |

## Model

| member | source | states |
|---|---|---|
| Backrefs.SubString | lib/doing/plugins/export/template_export.rb:51 | when the pattern does not occur, `sub` succeeds and leaves the text as it was |
| Backrefs.SubStringPlain | lib/doing/plugins/export/template_export.rb:51-55 | a replacement without a backslash is inserted literally in place of the first occurrence |
| Backrefs.ExpandPlain | lib/doing/plugins/export/template_export.rb:69 | a replacement string without a backslash expands to itself, whatever the match and its groups |
| Backrefs.ExpandGroupFront | lib/doing/plugins/export/template_export.rb:78 | a leading `\1`..`\9` naming an existing group expands to that group's text followed by the rest's expansion |
| Backrefs.ExpandGroupExamples | lib/doing/plugins/export/template_export.rb:78 | `\0` and `\&` give the whole match; a group the pattern does not have gives the empty string |
| Backrefs.ExpandEscapeExamples | lib/doing/plugins/export/template_export.rb:84-86 | `\\` gives one backslash, an unknown escape such as `\q` is kept as is, `\'` gives the text after the match |
| Backrefs.ExpandNameExamples | lib/doing/plugins/export/template_export.rb:84-86 | `\k<x>` raises because the pattern has no named group, and an unterminated `\k<x` raises too |
| Wrap.ChunkLenMax | lib/doing/plugins/export/template_export.rb:36 | no chunk longer than the chosen one fits: the greedy `.{1,w}` backs off only as far as a whitespace or the end |
| Wrap.PieceChunk | lib/doing/plugins/export/template_export.rb:36 | a fitting chunk is kept, followed by the break string, and the whole whitespace run after it is consumed |
| Wrap.PieceCopy | lib/doing/plugins/export/template_export.rb:36 | where no chunk fits (a word longer than the width), one character is copied and the scan moves on |
| Wrap.WrapHead | lib/doing/plugins/export/template_export.rb:36 | the wrapped text is empty exactly when the input is, and it starts with the input's first character |
| Wrap.WrapReplacement | lib/doing/plugins/export/template_export.rb:36 | the replacement `\1` plus the break expands to the chunk followed by the break |
| Wrap.WrapKeepsWords | lib/doing/plugins/export/template_export.rb:36 | for any all-whitespace break, wrapping keeps the text's words, in order, with none added or lost |
| Wrap.WrapLinesFit | lib/doing/plugins/export/template_export.rb:36 | for a one-line text that does not start with whitespace (the note lines are stripped first), when every word fits the width, every line of the wrapped text is at most the width long |
| Wrap.WrapEndsWithBreak | lib/doing/plugins/export/template_export.rb:62-63 | for a positive wrap width, every non-empty title that does not end in a line feed wraps to a text ending with the break string, whatever its leading whitespace and word lengths |
| Wrap.WrapLongWord | lib/doing/plugins/export/template_export.rb:63 | a word longer than the width (`abcdef` at width 3) is copied a character at a time until its tail fits, and the break still follows: `abcdef` and the break |
| Wrap.WrapLeadingSpace | lib/doing/plugins/export/template_export.rb:63 | an unstripped title ` abc` at width 3 wraps to ` abc` and the break: the leading space is copied and the first line is longer than the width |
| Notes.NonBlankMembers | lib/doing/plugins/export/template_export.rb:32 | a line is kept exactly when it is the non-empty strip of some note line |
| Notes.NonBlankAppend | lib/doing/plugins/export/template_export.rb:32 | the kept lines of a note are those of its first part followed by those of the rest: order and repetitions are the note's |
| Notes.NonBlankOne | lib/doing/plugins/export/template_export.rb:32 | a single line is kept, stripped, exactly when its strip is not empty |
| Notes.NonBlankStripped | lib/doing/plugins/export/template_export.rb:32 | every kept line is non-empty and already stripped |
| Notes.DropBullet | lib/doing/plugins/export/template_export.rb:33 | removing leading tabs and an em-dash bullet leaves a suffix of the line |
| Notes.RebulletLine | lib/doing/plugins/export/template_export.rb:33 | on one line, `- ` becomes an em dash only at the start, and nothing else changes |
| Notes.FormatDash | lib/doing/plugins/export/template_export.rb:33 | `- y` becomes `— y` followed by two spaces |
| Notes.FormatEmDash | lib/doing/plugins/export/template_export.rb:33 | a line that already starts with `— ` loses that bullet |
| Notes.FormatPlain | lib/doing/plugins/export/template_export.rb:33 | a line without leading tab, bullet or dash only gets two trailing spaces |
| Notes.FormatTwice | lib/doing/plugins/export/template_export.rb:33 | formatting a formatted `- y` line again drops its bullet: the formatting is not idempotent |
| Notes.FormatAgain | lib/doing/plugins/export/template_export.rb:33 | re-formatting a stripped `— y` line gives `y` and two spaces |
| Notes.FormatLineKeptIdempotent | lib/doing/plugins/export/template_export.rb:33 | with the em-dash bullet kept, formatting a stripped formatted line again changes nothing |
| Notes.PrepareNote | lib/doing/plugins/export/template_export.rb:31-40 | no note, an empty note or notes switched off give no lines; otherwise one line per non-blank note line |
| Notes.PrepareNoteWords | lib/doing/plugins/export/template_export.rb:32-37 | each prepared line is the formatted line; with a positive width, it has that line's words |
| Notes.NewlinesWords | lib/doing/plugins/export/template_export.rb:101 | replacing runs of line feeds by a space keeps the words |
| Notes.TrimLeftWords | lib/doing/plugins/export/template_export.rb:101 | removing leading whitespace keeps the words |
| Notes.TrimRightWords | lib/doing/plugins/export/template_export.rb:101 | removing trailing whitespace keeps the words |
| Notes.SqueezeJoin | lib/doing/plugins/export/template_export.rb:101 | squeezing whitespace runs of a trimmed text gives its words joined by single spaces |
| Notes.ChompLineWords | lib/doing/plugins/export/template_export.rb:100-102 | a `%chompnote` line is exactly its words joined by single spaces |
| Notes.Indent | lib/doing/plugins/export/template_export.rb:90-95 | no indent character gives no indent; otherwise `icount` tabs (for `t`) or spaces |
| Notes.NoteLinesAppend | lib/doing/plugins/export/template_export.rb:84-86 | the block's lines follow the note's: the lines of a note split in two are the lines of each part, in order, and no note gives no lines |
| Notes.NoteBlockLines | lib/doing/plugins/export/template_export.rb:84-86 | the inserted block is an empty line followed by the note lines, one per line |
| Notes.NoteBlockStartsWith | lib/doing/plugins/export/template_export.rb:84 | the block starts with a line feed, the lead and the first stripped note line |
| Notes.DeleteCopies | lib/doing/plugins/export/template_export.rb:82 | a stretch without `%` passes through the deleting gsub unchanged |
| Notes.DeleteWithoutNote | lib/doing/plugins/export/template_export.rb:82 | a template in which `note` never occurs is left unchanged by the deleting gsub |
| Notes.ChompnoteSurvives | lib/doing/plugins/export/template_export.rb:82 | `%chompnote` is not matched by the deleting pattern and stays in the output |
| Notes.DeleteWhole | lib/doing/plugins/export/template_export.rb:82 | a template that is one whole directive is deleted to nothing |
| Notes.DeleteIdnote | lib/doing/plugins/export/template_export.rb:82 | `%idnote` is deleted |
| Notes.DeleteMarked | lib/doing/plugins/export/template_export.rb:82 | `%^>t2-note` (mark, indent, count and prefix) is deleted |
| Notes.DeleteCounted | lib/doing/plugins/export/template_export.rb:82 | `%3note` is deleted |
| Notes.DirectiveAt | lib/doing/plugins/export/template_export.rb:87 | a match ends with the word `note` in any case, and its count is all digits |
| Notes.FirstDirective | lib/doing/plugins/export/template_export.rb:87 | the directive filled in is the leftmost position where the pattern matches |
| Notes.MarkedMatch | lib/doing/plugins/export/template_export.rb:87-96 | `%^>t2-note` captures mark `>`, indent character `t`, count `2`, prefix `-` |
| Notes.FillWhole | lib/doing/plugins/export/template_export.rb:97 | a template that is one directive becomes the note block with that directive's lead |
| Notes.FillMarked | lib/doing/plugins/export/template_export.rb:88-97 | the lead of `%^>t2-note` is `>`, two tabs and `-` |
| Notes.FillUpperT | lib/doing/plugins/export/template_export.rb:87-91 | `%T2note` matches under `/i`, but `T` is not `t`, so the indent is two spaces |
| Notes.FillBareCount | lib/doing/plugins/export/template_export.rb:90-95 | a count without an indent character gives no indent |
| Notes.FillUpperCase | lib/doing/plugins/export/template_export.rb:87 | `%NOTE` matches the case-insensitive pattern |
| Notes.ChompnoteNoDirective | lib/doing/plugins/export/template_export.rb:87 | the parametrised pattern never matches at `%chompnote`, which is left for line 99 |
| Notes.NoDirectiveWithoutPercent | lib/doing/plugins/export/template_export.rb:87 | no directive is found in a text without `%` |
| Notes.NotePass | lib/doing/plugins/export/template_export.rb:81-82 | with no note lines, the note pass is exactly the deletion of every note directive |
| Notes.NotePassNoPercent | lib/doing/plugins/export/template_export.rb:81-105 | a template without `%` passes through the note directives unchanged |
| Notes.NotePassBackslash | lib/doing/plugins/export/template_export.rb:84 | a note whose first line starts with `\k<` makes the note pass raise |
| Notes.SubNoteFails | lib/doing/plugins/export/template_export.rb:84 | the `%note` sub itself raises on such a note |
| Notes.NotePassFirstSub | lib/doing/plugins/export/template_export.rb:84-99 | a raising `%note` sub makes the whole note pass raise |
| Notes.NotePassLiteral | lib/doing/plugins/export/template_export.rb:81-105 | with the note inserted literally and no note lines, the pass is the deletion of every directive |
| Notes.NotePassLiteralAgrees | lib/doing/plugins/export/template_export.rb:84-86 | for a note without a backslash, the as-written pass succeeds and equals the literal insertion |
| Tags.EscapeMatch | lib/doing/plugins/export/template_export.rb:72 | a match is an escape sequence copied from the text, followed by non-escape text that ends in `@` |
| Tags.Scan | lib/doing/plugins/export/template_export.rb:72 | every captured code is an escape sequence; a text without ESC yields none |
| Tags.LastColorPlain | lib/doing/plugins/export/template_export.rb:73-77 | without escape sequences, the colour before the tags is the default colour |
| Tags.LastColorEscape | lib/doing/plugins/export/template_export.rb:72-75 | an escape sequence followed by text that holds an `@` is the colour in force |
| Tags.EscapeMatchAt | lib/doing/plugins/export/template_export.rb:72 | such a text matches the scan at its start, capturing the escape sequence |
| Tags.TagPass | lib/doing/plugins/export/template_export.rb:71 | without a tag colour, the tag pass leaves the text unchanged |
| Tags.TagReplacement | lib/doing/plugins/export/template_export.rb:78 | the replacement `\1<tag colour>\2<last colour>` expands to both groups with the colours between them |
| Tags.TagFromClean | lib/doing/plugins/export/template_export.rb:78 | for colours without a backslash, the gsub equals the literal highlighting of every tag |
| Tags.TagPassHighlights | lib/doing/plugins/export/template_export.rb:71-79 | the tag pass highlights with the named colour and the last colour, and cannot fail for clean colours |
| Tags.HighlightNothing | lib/doing/plugins/export/template_export.rb:78 | with empty colours, highlighting changes nothing |
| Tags.HighlightNoTags | lib/doing/plugins/export/template_export.rb:78 | a text without `@` is not changed |
| Tags.TagFromNoTags | lib/doing/plugins/export/template_export.rb:78 | without `@`, the gsub succeeds whatever the replacement |
| Tags.HighlightOneTag | lib/doing/plugins/export/template_export.rb:78 | ` @t` becomes a space, the tag colour, `@t`, then the last colour |
| TemplateExport.ConfigFlagStore | lib/doing/plugins/export/template_export.rb:31 | a read sees the value stored under the same key; storing under one key (a string key, say) leaves a read of any other key (the symbol of the same name) unchanged; an empty configuration reads false |
| TemplateExport.IncludeNotesIgnored | lib/doing/plugins/export/template_export.rb:31 | read with a symbol key, a configuration with string keys (the default one included) never shows notes |
| TemplateExport.IncludeNotesRead | lib/doing/configuration.rb:81 | read with the string key the configuration uses, the default configuration shows every non-blank note line |
| TemplateExport.ColorPassPlain | lib/doing/plugins/export/template_export.rb:43-49 | a template without `%` is not changed by the colour pass |
| TemplateExport.ColorPassName | lib/doing/plugins/export/template_export.rb:43-49 | `%name` becomes the colour when `name` is a key of the colour map, and stays otherwise |
| TemplateExport.ColorPassAppend | lib/doing/plugins/export/template_export.rb:43 | the colour pass distributes over a concatenation whose second part does not start with a lower-case letter |
| TemplateExport.IntervalText | lib/doing/plugins/export/template_export.rb:53-54 | without the times option, the interval text is empty |
| TemplateExport.TitlePass | lib/doing/plugins/export/template_export.rb:61 | without `%title`, the title pass changes nothing |
| TemplateExport.TitleFlag | lib/doing/plugins/export/template_export.rb:23-29 | the first `%title` becomes the flag colour, the title text and the reset, inserted literally; both are empty when the item is not flagged |
| TemplateExport.TitleWords | lib/doing/plugins/export/template_export.rb:62-65 | wrapped or not, the title text has the words of the title |
| TemplateExport.TitleKeepsLastBreak | lib/doing/plugins/export/template_export.rb:62-63 | for a positive wrap width, `chomp` leaves the wrapped title unchanged and it ends with `\n\t `, for every non-empty title that does not end in a line feed |
| TemplateExport.MarkerExamples | lib/doing/plugins/export/template_export.rb:23 | `@flagged` flags a title in any case when it ends a word, and not in `@flaggedness` |
| TemplateExport.SectionPass | lib/doing/plugins/export/template_export.rb:69 | without a section, or without `%section`, the text is unchanged |
| TemplateExport.SectionPassInserts | lib/doing/plugins/export/template_export.rb:69 | a section name without a backslash replaces the first `%section` |
| TemplateExport.SectionPassExpands | lib/doing/plugins/export/template_export.rb:69 | a section named `\0` puts the matched `%section` back, since the name is a replacement string |
| TemplateExport.HrPassPlain | lib/doing/plugins/export/template_export.rb:107-113 | a text without `%` is not changed by the rule pass |
| TemplateExport.HrRules | lib/doing/plugins/export/template_export.rb:107-113 | `%hr` becomes `columns` dashes and `%hr_under` becomes `columns` underscores |
| TemplateExport.HrPassAppend | lib/doing/plugins/export/template_export.rb:107 | the rule pass distributes over a concatenation whose second part cannot continue a directive |
| TemplateExport.RenderItem | lib/doing/plugins/export/template_export.rb:43-115 | with no tag colour, no flag, no section, no note, and no backslash in the date and interval, the item renders |
| TemplateExport.EscapesClear | lib/doing/plugins/export/template_export.rb:114-115 | after the last two passes, no `%n` or `%t` is left |
| TemplateExport.NoEscapesLeft | lib/doing/plugins/export/template_export.rb:114-115 | a rendered block contains no `%n` or `%t` |
| TemplateExport.PlainTemplate | lib/doing/plugins/export/template_export.rb:41-115 | a template without `%` (and without `@` when tags are coloured) renders as itself |
| TemplateExport.RenderAllWith | lib/doing/plugins/export/template_export.rb:22 | an empty item list renders to the empty text |
| TemplateExport.RenderOne | lib/doing/plugins/export/template_export.rb:117 | one item renders to its block followed by a line feed, or to its error |
| TemplateExport.RenderAllAppend | lib/doing/plugins/export/template_export.rb:22-118 | rendering a concatenation of lists concatenates their outputs, and the first error wins |
| TemplateExport.RenderBlocks | lib/doing/plugins/export/template_export.rb:22-118 | the loop appends each block and a line feed, stopping at the first block that raises |
| TemplateExport.Render | lib/doing/plugins/export/template_export.rb:17-121 | nil items give nil; otherwise the blocks, or the first error, followed by the totals when asked for |
| Times.Decompose | lib/doing/time.rb:18-25 | seconds, minutes and hours are within their ranges, and the parts add back up to the total |
| Times.DecomposeUnique | lib/doing/time.rb:19-25 | any in-range decomposition of a total is the one computed |
| Times.UnitsOfShown | lib/doing/time.rb:27-31 | a unit is shown exactly when its count is positive |
| Times.UnitsOfRanked | lib/doing/time.rb:28-31 | shown units are in the order days, hours, minutes, seconds |
| Times.HumanizeEmpty | lib/doing/time.rb:18-33 | the text is empty exactly for a whole number of days that is not positive |
| Times.HumanizeEmptyElapsed | lib/doing/time.rb:18-33 | for a non-negative duration, the text is empty exactly when it is zero |
| Times.UnitsExamples | lib/doing/time.rb:19-25 | 3661 s is 1 hour, 1 minute and 1 second; -1 s floors to -1 day, which is not shown |
| Times.HumanizeExample | lib/doing/time.rb:18-33 | the three units of 3661 s are joined by `, ` |
| Times.RelativeStyle | lib/doing/time.rb:6-16 | after today's midnight the time alone; within six days the weekday; this year month and day; else the full date |
| Times.RelativeStyleMonotone | lib/doing/time.rb:6-16 | a later time never gets a longer style than an earlier one |
| Times.FullDateOnlyBeforeThisYear | lib/doing/time.rb:11-14 | the full date is used only for a year before the current one |
| Times.TimeAgo | lib/doing/time.rb:35-40 | today gives the elapsed time in words and ` ago`; yesterday gives `Yesterday at` and the time |
| Times.TimeAgoFollowsRelativeDate | lib/doing/time.rb:41-47 | before yesterday, `time_ago` takes the same branch as `relative_date`, with seconds in the format |
| Times.TimeAgoToday | lib/doing/time.rb:36-38 | a time from today reads just ` ago` exactly when it is the current second |
| Colors.Paint | lib/doing/colors.rb:184-198 | without colouring, only the text; without text, only the opening escape; otherwise the opening, the text and the reset |
| Colors.MethodTableExact | lib/doing/colors.rb:183-226 | every attribute has a method, every bold one also a bright alias with the same code, and there is no other method |
| Colors.ColorMethod | lib/doing/colors.rb:183-226 | a colour method exists exactly for the attribute names and their bright aliases |
| Colors.Delete | lib/doing/colors.rb:126 | every occurrence of the character is removed and every other character is kept as often as it occurs |
| Colors.DeleteAppend | lib/doing/colors.rb:126 | deleting works piece by piece, so the kept characters stay in their order |
| Colors.Normalize | lib/doing/colors.rb:125-127 | a normalised name never contains `_` |
| Colors.NormalizeBgBold | lib/doing/colors.rb:118-127 | in a name without `_` and without `bright`, the first `bgbold` becomes `boldbg` and nothing else changes |
| Colors.NormalizeBgBoldColor | lib/doing/colors.rb:58-66 | `bgbold<colour>` normalises to the table name `boldbg<colour>`, e.g. `bgboldred` to `boldbgred` |
| Colors.NormalizeBright | lib/doing/colors.rb:126 | a bright alias normalises back to its bold name |
| Colors.BrightOfBold | lib/doing/colors.rb:208 | the alias of `boldX` is `brightX` |
| Colors.BoldOfBright | lib/doing/colors.rb:126 | `brightX` becomes `boldX` again |
| Colors.ValidateColor | lib/doing/colors.rb:107-116 | the result is the longest prefix of the normalised name that is an attribute name, or nil when there is none |
| Colors.RapidBlinkUnreachable | lib/doing/colors.rb:26 | `rapid_blink` is an attribute name with `_`, which no validated name contains |
| Colors.LongestPlain | lib/doing/colors.rb:110-113 | the longest prefix that matches a table name with `_` ignored, or none |
| Colors.ValidateColorPlain | lib/doing/colors.rb:107-116 | the result is an attribute name that, without `_`, is a prefix of the normalised name |
| Colors.ValidatePlainWhole | lib/doing/colors.rb:110-113 | a normalised name that matches a table name as a whole validates to that name |
| Colors.ValidatePlainTableName | lib/doing/colors.rb:17-79 | every table name without `g` (and not starting with `_`) validates to a name equal to it with `_` ignored |
| Colors.ValidatePlainRapidBlink | lib/doing/colors.rb:26 | `rapid_blink` is accepted |
| Colors.EscapeLen | lib/doing/colors.rb:230 | a match is ESC `[`, an optional simple code, `m` |
| Colors.Uncolor | lib/doing/colors.rb:234-244 | uncolouring never lengthens the text |
| Colors.UncolorPlain | lib/doing/colors.rb:238 | a text without ESC is not changed |
| Colors.UncolorSplit | lib/doing/colors.rb:238 | uncolouring distributes over a split made in front of an ESC |
| Colors.UncolorOpenSimple | lib/doing/colors.rb:230 | an opening escape with a simple code is removed |
| Colors.UncolorOpenComposite | lib/doing/colors.rb:230 | an opening escape with a composite code such as `1;31;43` is kept |
| Colors.UncolorPaint | lib/doing/colors.rb:230-244 | painting a text and uncolouring it gives the text back, or the kept composite opening and the text |
| Colors.UncolorTable | lib/doing/colors.rb:17-79 | for every attribute, uncolour after paint is the identity, except that the combinations keep their opening |
| Colors.UncolorNotIdempotent | lib/doing/colors.rb:230-238 | `ESC[ESC[mm` uncolours to `ESC[m`, which uncolours again to nothing |
| Colors.UncolorShrinks | lib/doing/colors.rb:238 | uncolouring either changes nothing or makes the text strictly shorter |
| Colors.UncolorAll | lib/doing/colors.rb:234-244 | repeated to a fixed point, the result has no escape left, is no longer than the input, and is the input when it has none |
| Colors.UncolorAllIdempotent | lib/doing/colors.rb:234-244 | removing escapes to a fixed point is idempotent and absorbs one `uncolor` |
| Colors.UncolorAllClears | lib/doing/colors.rb:230-238 | `ESC[ESC[mm` clears to nothing |
| Colors.UncolorSgrPaint | lib/doing/colors.rb:228-238 | with every `ESC[<digits and ;>m` escape removed, uncolour after paint gives the text back for any such code |
| Colors.UncolorSgrTable | lib/doing/colors.rb:17-79 | with that strip, uncolour after paint is the identity for every attribute, the combinations and `default` included |
| ColorTemplate.KeyValue | lib/doing/colors.rb:173-179 | a reference succeeds exactly for the single letters of the hash; any other name raises a missing-key error |
| ColorTemplate.GroupLen | lib/doing/colors.rb:169 | a group is `{`, one or more word characters, `}` |
| ColorTemplate.BracesGroup | lib/doing/colors.rb:169-171 | a `{letters}` group becomes one `%<c>s` per letter |
| ColorTemplate.FormatRefs | lib/doing/colors.rb:170-179 | the references of a group format to the group's escapes |
| ColorTemplate.FormatPercent | lib/doing/colors.rb:179 | `%%` formats to a single `%` |
| ColorTemplate.FormatNamed | lib/doing/colors.rb:179 | `%<name>s` formats to the value for `name`, or raises |
| ColorTemplate.FormatBraced | lib/doing/colors.rb:179 | `%{name}` formats to the value for `name`, or raises |
| ColorTemplate.FormatMalformed | lib/doing/colors.rb:179 | a `%` followed by none of `%`, `<`, `{` raises |
| ColorTemplate.TemplatePlain | lib/doing/colors.rb:167-179 | a template without `{` or `%` is returned as it is |
| ColorTemplate.TemplateGroup | lib/doing/colors.rb:167-179 | a leading `{letters}` gives the letters' escapes in front of the rest's result |
| ColorTemplate.TemplatePercentBrace | lib/doing/colors.rb:169-179 | `%{w}` comes out as the literal `%<w>s` |
| ColorTemplate.TemplateNamedRef | lib/doing/colors.rb:179 | a `%<c>s` written in the template is filled like one made from a group |
| ColorTemplate.GroupEscapesUnknown | lib/doing/colors.rb:170-179 | the first letter of a group that is not a key raises a missing-key error for that letter |
| ColorTemplate.GroupEscapesKeys | lib/doing/colors.rb:173-179 | a group of keys succeeds: empty without colouring, starting with the first letter's escape with it |
| Changelog.VersionLen | lib/doing/changelog/changes.rb:37 | a version is at least five characters and ends at a non-word character or the end |
| Changelog.BodyEndFirst | lib/doing/changelog/changes.rb:37 | the lazy body ends at the first `\n### `, the end, or a final line feed |
| Changelog.HeaderVersion | lib/doing/changelog/changes.rb:37 | the captured header text is a version |
| Changelog.ScanShape | lib/doing/changelog/changes.rb:37-38 | every scanned change has a version |
| Changelog.NewChange | lib/doing/changelog/changes.rb:41 | the change keeps the version, and its content is the stripped body |
| Changelog.ParseChanges | lib/doing/changelog/changes.rb:36-42 | one change per header match, each with a version and stripped content |
| Changelog.ScanDocument | lib/doing/changelog/changes.rb:37 | scanning a written changelog gives back each header and body |
| Changelog.ParseDocument | lib/doing/changelog/changes.rb:36-42 | parsing a written changelog gives back exactly its changes, in order |
| Changelog.DirectionOf | lib/doing/changelog/changes.rb:59-66 | older exactly when the query holds `<`, prior, before or older; equal only when no newer word occurs |
| Changelog.RangeFrom | lib/doing/changelog/changes.rb:51 | a range query has a dash between two version numbers |
| Changelog.SubQueries | lib/doing/changelog/changes.rb:56 | every extracted query is one bound and one version number |
| Changelog.SubQueryIsSingle | lib/doing/changelog/changes.rb:55-66 | an extracted query is neither a range nor multiple, and its direction is that of its bound |
| Changelog.Select | lib/doing/changelog/changes.rb:69-71 | the selection is a subsequence of the changes and holds exactly the changes that compare true |
| Changelog.SelectAppend | lib/doing/changelog/changes.rb:69-71 | selecting distributes over concatenation, so the kept changes keep their order and repetitions |
| Changelog.SelectOne | lib/doing/changelog/changes.rb:69-71 | one change is kept exactly when it compares true |
| Changelog.SelectCount | lib/doing/changelog/changes.rb:69-71 | a change that compares true is kept as many times as it occurs, any other not at all |
| Changelog.Lookup | lib/doing/changelog/changes.rb:48-73 | a lookup keeps a subsequence of the changes |
| Changelog.LookupRange | lib/doing/changelog/changes.rb:51-54 | a range is a `>` lookup of its start followed by a `<` lookup of its end |
| Changelog.LookupMulti | lib/doing/changelog/changes.rb:55-57 | several bounds are looked up one after another |
| Changelog.LookupSingle | lib/doing/changelog/changes.rb:58-71 | a single query keeps exactly the changes that compare true in its direction, each as many times as it occurs |
| Changelog.Search | lib/doing/changelog/changes.rb:75-81 | every change with matching entries survives with those entries, and nothing else survives |
| Changelog.SearchKeepsOrder | lib/doing/changelog/changes.rb:75-81 | the survivors keep their versions, contents and relative order |
| Changelog.ParseWith | lib/doing/changelog/changes.rb:44-45 | without a search, the result is a subsequence of the parsed changes, and all of them without a lookup too |
| Changelog.ParseWithKeepsOrder | lib/doing/changelog/changes.rb:44-45 | lookup and search keep the headers in their parsed order; a search alone is the search of the parsed changes |
| Changelog.Latest | lib/doing/changelog/changes.rb:18-24 | the first change printed; with no change, the changes-only form raises and the full form is the empty string (`nil.to_s`) |
| Changelog.LatestOpensListing | lib/doing/changelog/changes.rb:18-32 | the latest change's text opens the full listing |
| Strings.Strip | lib/doing/plugins/export/template_export.rb:32 | the result neither starts nor ends with whitespace or NUL, and is no longer than the input |
| Strings.StripInfix | lib/doing/plugins/export/template_export.rb:32 | the result is the input's text between its leading and its trailing runs of whitespace and NUL, unchanged |
| Strings.StripOutside | lib/doing/plugins/export/template_export.rb:32 | every character strip drops, in front of or after what it keeps, is whitespace or NUL |
| Strings.Chomp | lib/doing/plugins/export/template_export.rb:63-65 | a final `\r\n` is removed whole; otherwise one final `\n` or `\r`; the text is unchanged exactly when it ends in neither |
| Strings.FindFrom | lib/doing/plugins/export/template_export.rb:51 | the leftmost occurrence at or after the start, or none at all |
| Strings.Repeat | lib/doing/plugins/export/template_export.rb:109-111 | `n` copies of the character, none for a non-positive `n` |

## Left out

- The changelog file is not read. `Changes.new` reads `CHANGELOG.md` and raises when it is missing (changes.rb:9-16); the model takes the content as a string. `force_encoding` is dropped, since strings are sequences of characters.
- `Version#compare`, `Change#search_entries`, the entry parser, `Change#to_s` and `Change#changes_only` belong to classes outside this model. They are the parameters `compare`, `searchEntries`, `entriesOf` and `Printer`.
- The clock, `strftime` and `String#pluralize` are parameters. The clock is `Clock`: the current time, today's and yesterday's midnights, six days ago, and the year of a timestamp.
- Times.TimeAgo: timestamps are whole seconds. Ruby's `Time.now - self` (time.rb:37) is a Float. `humanize` floors every part, and floor(x / 60) = floor(floor(x) / 60), so `Humanize` over the floored elapsed time has the same parts. A fractional remainder is not represented.
- TemplateExport.Render: the totals text `tagTimes` is a constant of the environment. In Ruby, `get_interval(item, record: true)` (template_export.rb:53) records each interval, and `tag_times` (line 119) totals what was recorded. The model does not link the totals to the rendered items.
- TemplateExport.IntervalText: `get_interval` is the parameter `interval`; its recording side effect is the one described above.
- MarkerAt: the marker tag is compared as a literal string, case-folded over ASCII letters, and followed by an ASCII word boundary. Ruby builds `/@#{marker_tag}\b/i` (template_export.rb:23). A tag with regex metacharacters (`a.b`) is a pattern there. `\b` and `/i` may also treat non-ASCII letters as word characters and fold them: with `@flaggedé` and tag `flagged`, Ruby sees no boundary after `d`, but the model flags the title.
- TemplateExport.TitleFlag: the flag decision is `MarkerAt`, with the limits above.
- TemplateExport.MarkerExamples: the examples are ASCII and free of regex metacharacters, where the model and Ruby agree.
- CiEqual and ToLower (module Strings) fold ASCII letters only. They serve `/bright/i` in `normalize_color` (colors.rb:126) and the `(?mi)` note pattern (template_export.rb:87). Unicode case folding is not modelled.
- Colors.Normalize: `/bright/i` is matched with ASCII case folding.
- TemplateExport.HrRules: the width of `tput cols` (template_export.rb:109) is the environment field `columns`. The shell command is not run.
- TemplateExport.ConfigFlagStore: configuration values are booleans. Only the `include_notes` flag is read from the configuration in the part modelled.
- The renderer's own `Env.includeNotes` is a boolean that the caller supplies. `IncludeNotes` and `IncludeNotesAsWritten` show how it is read from the configuration hash.
- ColorTemplate.Format: among the directives of `Kernel#format`, only `%%`, `%<name>s` and `%{name}` are modelled. Flags, width or precision after a name, other conversions, and a `%` at the end or before a line feed are treated as a raised error. `Color.template` produces only `%<c>s` itself, so this matters only for a `%` typed into a template.
- The global `Color.coloring?` flag is the parameter `coloring`. Generating methods with `module_eval` is the table `MethodTable` plus `ColorMethod`. The block, string and receiver forms of the colour methods and of `uncolor` are one optional text argument.
- `Color.support?` is not modelled. It is a query outside the rendering path. `Color.attributes` is `IsAttributeName`.
- Wrap.WrapLinesFit: the line-length bound is proved only for one-line texts that do not start with whitespace and whose words all fit the width. Note lines are stripped before wrapping (template_export.rb:36), so they qualify. Titles are wrapped unstripped (line 63): a leading space is copied on its own and the first line can exceed the width (WrapLeadingSpace). For a longer word the model computes what the gsub does: characters are copied until the word's tail fits (WrapLongWord). No line bound is stated for such a text.

## Findings

| source | as written | input that shows it | evidently intended | confidence | as-written member | corrected member |
|---|---|---|---|---|---|---|
| lib/doing/colors.rb:230-244 | `uncolor` removes the escapes in one left-to-right pass, so removing one can join two halves into a new escape | `"\e[\e[mm"` uncolours to `"\e[m"` | uncolouring leaves no escape sequence, so doing it twice changes nothing | not executed | Colors.UncolorNotIdempotent | Colors.UncolorAll |
| lib/doing/plugins/export/template_export.rb:33 | the bullet rewrite drops a leading `— ` and then turns `- ` into `— `, so formatting a formatted line removes its bullet | `"- x"` gives `"— x  "`, and formatting that line again gives `"x  "` | formatting a note line is idempotent and keeps its bullet | not executed | Notes.FormatTwice | Notes.FormatLineKeptIdempotent |
| lib/doing/plugins/export/template_export.rb:84-86 | the note text is passed to `sub!` as a replacement string, so its backslashes are interpreted | a note whose first line is `\k<x>` makes `sub!` raise | the note lines are inserted literally and rendering does not raise | not executed | Notes.NotePassBackslash | Notes.NotePassLiteralAgrees |
| lib/doing/colors.rb:26 | `normalize_color` deletes every `_`, but the table name `rapid_blink` has one, so validation can never return it | `"rapid_blink"` normalises to `"rapidblink"`, which matches no table name | `rapid_blink` (the only table name with `_`) can be validated | not executed | Colors.RapidBlinkUnreachable | Colors.ValidatePlainRapidBlink |
| lib/doing/colors.rb:228-238 | `COLORED_REGEXP` matches only escapes with no code or one simple code, so the opening escape of a combined attribute such as `default` (`0;39`) survives `uncolor` | `uncolor(default("x"))` gives `"\e[0;39mx"` | `uncolor` strips every escape the colour methods produce, so uncolour after paint gives the text back | not executed | Colors.UncolorTable | Colors.UncolorSgrTable |
| lib/doing/plugins/export/template_export.rb:31 | notes are shown only when `config[:include_notes]` (a symbol key) is true, but the configuration stores `'include_notes'` (a string key, configuration.rb:81 and 206) | the default configuration `{'include_notes' => true}` shows no notes | the `include_notes` setting decides whether notes are shown | not executed | TemplateExport.IncludeNotesIgnored | TemplateExport.IncludeNotesRead |
