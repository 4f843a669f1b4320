# prettipy line wrapper and syntax highlighter, in Dafny

prettipy renders Python source files as paginated, syntax-coloured PDF
documents. This project models the two parts of it that do real text
processing, and proves what they promise.

- **`CodeFormatter`** (src/prettipy/formatter.py) wraps an overlong source
  line. Comment lines are wrapped at word boundaries and re-prefixed with
  `"# "` on continuation lines. Code lines are cut after one of twelve break
  strings, or hard at the width, and re-indented by four.
- **`SyntaxHighlighter`** (src/prettipy/syntax.py) turns Pygments tokens into
  HTML for ReportLab paragraphs:
  - the colour lookup over the token-type hierarchy;
  - the escaping of a token's text;
  - per-line highlighting;
  - the multiline-aware compositor, which tokenizes a whole file once and
    routes each token part to the line it sits on.

Layout:

| file | module | what |
|---|---|---|
| wrappers.dfy | `Wrappers` | `Option` |
| pystr.dfy | `PyStr` | Python `str` operations: `isspace`, `strip`, `lstrip`, `rstrip`, clamped slices, `split`, `join` |
| formatter_spec.dfy | `FormatterSpec` | what each wrapper operation computes, as functions; each loop of the source is a recursive function over its loop state |
| formatter_proofs.dfy | `FormatterProofs` | the properties of the wrapper |
| formatter.dfy | `Formatter` | `class CodeFormatter`, with the loops of the source, each method proved to compute its function |
| syntax_spec.dfy | `SyntaxSpec` | token types, colour schemes, escaping, Pygments' preprocessing of its input, highlighting and routing as functions |
| syntax_proofs.dfy | `SyntaxProofs` | colour lookup, the escaped payload, and the text an HTML fragment shows |
| routing_proofs.dfy | `RoutingProofs` | the cursor and the routing of token parts onto lines |
| syntax.dfy | `Syntax` | `class SyntaxHighlighter`, with the loops of the source |

Modelling choices:

- A Pygments token type is its path from the root, so `Token.Name.Builtin`
  is `["Name", "Builtin"]`. `token_type in ttype` holds when `ttype` is a
  prefix of `token_type`. `Token.String` and `Token.Number` are Pygments'
  aliases of `Token.Literal.String` and `Token.Literal.Number`.
- A colour scheme is a sequence of (category, colour) pairs in dictionary
  order. `_get_token_color` iterates `items()` in that order.
- The lexer is a `Lexer` value: a tokenizer function plus its `stripnl`
  option.
  - `Lex` applies Pygments' preprocessing before tokenizing: drop one
    byte-order mark, turn `\r\n` and `\r` into `\n`, with `stripnl` strip
    the newlines at both ends, and ensure one final newline.
  - `PythonLexer()` has `stripnl` on.
  - The tokenizer itself is a parameter. The one thing assumed of it is the
    lexer contract `Spells`: the token values, in order, are the text it was
    given.
- The text an HTML fragment shows is given by `Text`, a reference decoder.
  `Text` drops tags and decodes the five entities `html.escape` produces,
  plus `&nbsp;`. It states losslessness: what a fragment shows is its
  source text, with each tab shown as four spaces.
- Each method of the two classes is proved equal to the function that
  describes it (`ensures r == Spec(...)`), and the properties are lemmas
  about those functions.
  - Three stretches of `_wrap_line_with_comment` are separate methods:
    - `CommentFirstLine`, the four first-line branches;
    - `ContinueComment`, the `while remaining` loop;
    - `ContinuationRound`, one round of that loop.
  - The loops of `highlight_code_multiline_aware` are `ColorizeLines` (over
    the tokens) and `PlaceToken` (over the parts of one token).
  - `highlighted_lines` is an `array`, updated in place as in the source.

Behaviours of the code that the model keeps:

- `_find_break_point` does not return the rightmost qualifying break. It
  compares each candidate's START with the best END so far. On
  `"x and (y)"` at width 8 it returns 6, although `" ("` ends at 7
  (`FormatterProofs.BreakPointNotRightmost`).
- Colour lookup takes the first matching entry in scheme order, so a
  general entry listed first wins over a more specific one
  (`SyntaxProofs.FirstEntryWins`).
- Apart from a `\r` in the code and a leading byte-order mark (see
  "## Left out"), a compositor entry differs from its line in two ways:
  - Tabs come out as four `&nbsp;` each.
  - With Pygments' default `stripnl`, leading blank lines are dropped before
    tokenizing, which shifts the entries (see Findings).
- When the first line of a wrapped comment is the code alone, the comment
  keeps its own `#`, so the first continuation line reads `"# #…"`
  (`FormatterProofs.CodeAloneDoubleHash`).

## Model

| member | source | states |
|---|---|---|
| Formatter.CodeFormatter.constructor | src/prettipy/formatter.py:15-36 | the width is the argument (90 by default) and the break strings are the twelve of the source, in order, each holding a visible character |
| FormatterSpec.BreakCharsValid | src/prettipy/formatter.py:23-36 | every installed break string holds a non-whitespace character |
| Formatter.CodeFormatter.WrapLine | src/prettipy/formatter.py:38-57 | equals `WrapLineSpec`: a line that fits comes back alone; otherwise at least one line, each within the width, with the visible text (whitespace and `#` aside) unchanged and in order, and for a line without `#` the non-whitespace characters exactly kept |
| FormatterProofs.WrapLineCorrect | src/prettipy/formatter.py:48-57 | the same properties, proved of the specification function |
| FormatterSpec.FirstHash | src/prettipy/formatter.py:52-53 | where `re.search(r"#.*", line)` matches: none exactly when there is no `#`, else the index of the first `#` |
| Formatter.CodeFormatter.WrapLineWithComment | src/prettipy/formatter.py:59-152 | equals `WrapComment`; every line within the width; the visible text unchanged and in order |
| FormatterProofs.WrapCommentCorrect | src/prettipy/formatter.py:70-152 | every line within the width; when the code fits and the comment is wrapped, every line after the first starts with the continuation indent and `"# "`; visible text kept in order |
| FormatterProofs.FittingCommentCorrect | src/prettipy/formatter.py:74-77 | the one-line result of the branch taken when code and comment fit (code, a space and the comment, or the comment alone when there is no code) shows the line's visible text; that it fits the width is stated by `WrapCommentCorrect` |
| FormatterProofs.WrappedCommentCorrect | src/prettipy/formatter.py:79-149 | a wrapped comment is the first line then the continuation lines, which fit, are indented and keep the visible text |
| Formatter.CodeFormatter.CommentFirstLine | src/prettipy/formatter.py:80-120 | equals `CommentHead`, the first output line and the comment text left for the loop |
| FormatterProofs.HeadWithCode | src/prettipy/formatter.py:87-104 | with code before the `#`, the first line fits, and it and the rest keep the visible text |
| FormatterProofs.HeadSplitsComment | src/prettipy/formatter.py:90-98 | code, a space and the comment up to the word break, then the stripped rest less one leading `#` |
| FormatterProofs.HeadKeepsComment | src/prettipy/formatter.py:99-104 | the code alone, leaving the whole comment, whose text is already stripped |
| FormatterProofs.HeadAlone | src/prettipy/formatter.py:105-120 | with no code before the `#`, the first line fits at the line's indentation and keeps the visible text |
| FormatterProofs.HeadAloneCut | src/prettipy/formatter.py:107-118 | where that first line is cut: at the word break, or at exactly the available width |
| Formatter.CodeFormatter.ContinueComment | src/prettipy/formatter.py:122-147 | the loop appends exactly `ContinuationLines` of the remaining comment |
| Formatter.CodeFormatter.ContinuationRound | src/prettipy/formatter.py:124-147 | equals `ContinuationStep`: the emitted line and the next remaining text |
| FormatterProofs.ContinuationLinesCorrect | src/prettipy/formatter.py:122-147 | every continuation line fits, starts with the continuation indent and `"# "`, and together they keep the comment's visible text in order |
| FormatterProofs.StepCorrect | src/prettipy/formatter.py:133-147 | one round: the line fits, is indented with `"# "`, leaves stripped text, and the two keep the visible text |
| FormatterSpec.StepShortens | src/prettipy/formatter.py:133-147 | with at least three columns a round leaves less comment text, so the loop ends |
| FormatterProofs.ContinuationRepeats | src/prettipy/formatter.py:126-147 | with one or two columns a round gives the same remaining text back: the loop does not end |
| FormatterProofs.CommentWithoutRest | src/prettipy/formatter.py:105-149 | two spaces, `"# abc"` and six spaces at width 8 leave no column after the continuation indent, yet the first line takes all the comment text and the result is that line alone |
| FormatterProofs.NegativeRoomOverflows | src/prettipy/formatter.py:99-147 | `"x # abc "` at width 3 lies outside `CommentTerminates`: the code goes alone, and the continuation round, with -1 columns, emits `"    # # abc"`, wider than the width, and leaves nothing |
| FormatterProofs.FirstContinuationDoubleHash | src/prettipy/formatter.py:122-125 | a remaining comment that starts with `#` gives a first continuation line starting with the indent and `"# #"` |
| FormatterProofs.CodeAloneDoubleHash | src/prettipy/formatter.py:99-104 | when the code goes alone on the first line, the second line starts with the continuation indent and `"# #"` |
| FormatterProofs.VisibleDropHash | src/prettipy/formatter.py:95-98 | stripping and dropping one leading `#` loses no visible text |
| Formatter.CodeFormatter.FindCommentBreak | src/prettipy/formatter.py:154-178 | equals `CommentBreak` |
| FormatterSpec.CommentBreak | src/prettipy/formatter.py:166-178 | -1 for empty text or a non-positive limit, the length when the text fits, else the end of a space within the limit or -1 |
| FormatterSpec.LastSpaceEndIsLast | src/prettipy/formatter.py:174-176 | no space lies between the position found and the limit: the scan finds the last one |
| FormatterSpec.CommentBreakIsLast | src/prettipy/formatter.py:169-178 | when the text does not fit, the break is the last space within the limit |
| Formatter.CodeFormatter.WrapPlainLine | src/prettipy/formatter.py:180-209 | equals `WrapPlain`; at least one line, each within the width, every line after the first starting with exactly `indent + 4` spaces then text, non-whitespace characters unchanged and in order |
| FormatterProofs.WrapPlainCorrect | src/prettipy/formatter.py:190-209 | the same, proved of the specification function |
| FormatterProofs.PlainLinesWidth | src/prettipy/formatter.py:195-207 | every line of the plain loop fits the width |
| FormatterProofs.PlainLinesIndented | src/prettipy/formatter.py:195-207 | every line after the first carries exactly the continuation indent |
| FormatterProofs.PlainLinesLossless | src/prettipy/formatter.py:195-207 | the plain loop loses and adds no non-whitespace character |
| FormatterSpec.PlainCutProgress | src/prettipy/formatter.py:195-204 | a round cuts after the indentation and within the width and leaves fewer visible characters, so the loop ends; when the width equals the continuation indent, the next state is that indent alone, which fits |
| FormatterProofs.WrapPlainFirstCut | src/prettipy/formatter.py:197-203 | the first cut lies after the indentation and within the width, and at exactly the width when no break string qualifies |
| FormatterProofs.PlainLoopRepeats | src/prettipy/formatter.py:195-204 | with a width no larger than the continuation indent, a round gives the same state back: the loop does not end |
| FormatterProofs.PlainDiverges | src/prettipy/formatter.py:195-204 | on a line outside `PlainTerminates` that does not fit a width of at least 0, the state after the first round does not fit, and every later round gives it back unchanged: the loop never stops |
| FormatterProofs.BlankTailTerminates | src/prettipy/formatter.py:195-209 | `"abcd"` and five spaces at width 4 leave no room after the continuation indent, yet the loop stops, with the single line `"abcd"` |
| Formatter.CodeFormatter.FindBreakPoint | src/prettipy/formatter.py:211-230 | equals `BreakPoint`; -1 or a position after `min_pos` and within the width |
| FormatterSpec.BreakPointAfterMeaning | src/prettipy/formatter.py:222-230 | -1 exactly when no break string qualifies, else the end of the last occurrence of one that does |
| FormatterSpec.RFind | src/prettipy/formatter.py:224 | `str.rfind(sub, 0, end)`: an occurrence wholly inside the clamped slice, with none after it |
| FormatterProofs.BreakPointNotRightmost | src/prettipy/formatter.py:225 | the start-against-end comparison skips a later-ending break: 6 for `"x and (y)"` at width 8, where `" ("` ends at 7 |
| PyStr.Split | src/prettipy/syntax.py:142 | `code.split('\n')`: one more piece than there are newlines, and no piece holds one |
| PyStr.LStrip | src/prettipy/formatter.py:95 | `lstrip()`: a suffix that starts with no whitespace |
| PyStr.RStrip | src/prettipy/formatter.py:70 | `rstrip()`: a prefix that ends with no whitespace |
| PyStr.Indent | src/prettipy/formatter.py:192 | `len(line) - len(line.lstrip())`: the leading characters are whitespace and the next is not |
| SyntaxSpec.ChosenScheme | src/prettipy/syntax.py:42 | `color_scheme or DEFAULT_COLORS`: never empty; a non-empty scheme given is used, otherwise the default scheme |
| Syntax.SyntaxHighlighter.constructor | src/prettipy/syntax.py:33-42 | the scheme is `ChosenScheme` of the argument and the lexer is built with `stripnl` on unless asked otherwise |
| Syntax.SyntaxHighlighter.GetTokenColor | src/prettipy/syntax.py:89-102 | none exactly when no entry is the token type or an ancestor of it; otherwise the colour of the first such entry |
| SyntaxProofs.ColorOfFirst | src/prettipy/syntax.py:99-101 | the first entry that is an ancestor gives the colour |
| SyntaxProofs.ColorOfNone | src/prettipy/syntax.py:99-102 | no colour exactly when no entry is an ancestor |
| SyntaxProofs.ColorOfEntry | src/prettipy/syntax.py:99-101 | a colour found belongs to an ancestor entry |
| SyntaxProofs.FirstEntryWins | src/prettipy/syntax.py:99-101 | order decides, not specificity: `Comment` listed before `Comment.Single` colours single-line comments |
| SyntaxProofs.DefaultInherits | src/prettipy/syntax.py:19-31 | in the default scheme `Name.Builtin.Pseudo` takes the colour of `Name.Builtin` |
| Syntax.SyntaxHighlighter.ColorizeToken | src/prettipy/syntax.py:65-87 | equals `Colorize`: the escaped payload, inside `<font color=…>` when the colour is non-empty and the token is not all whitespace |
| SyntaxProofs.PayloadTranslates | src/prettipy/syntax.py:77-80 | escape, then space and tab replacement, is one translation per character |
| SyntaxProofs.PayloadHasNoRaw | src/prettipy/syntax.py:77-80 | the payload holds no raw space, tab, `<`, `>`, `"` or `'` |
| SyntaxProofs.TextOfTranslate | src/prettipy/syntax.py:77-80 | the payload shows the token's text with tabs expanded |
| SyntaxProofs.TextOfColorize | src/prettipy/syntax.py:65-87 | a colourized token shows its text, tabs expanded: the `<font>` tag adds none |
| SyntaxProofs.TextOfFont | src/prettipy/syntax.py:85-86 | the `<font>` wrapper around a payload shows exactly the payload's text |
| SyntaxProofs.DefaultColorsTagSafe | src/prettipy/syntax.py:19-31 | no default colour holds a `>` |
| SyntaxProofs.ColorTagSafe | src/prettipy/syntax.py:99-101 | a colour found in a scheme free of `>` is free of `>` |
| Syntax.SyntaxHighlighter.HighlightLine | src/prettipy/syntax.py:44-63 | equals `HighlightedLine`; `<br/>` for a blank line; for a line of code it shows the line, tabs expanded, and the newline Pygments adds |
| SyntaxProofs.TextOfRender | src/prettipy/syntax.py:60-63 | the joined colourized tokens show the tokens' text |
| SyntaxProofs.TextOfHighlightedLine | src/prettipy/syntax.py:44-63 | a highlighted line shows nothing when blank, else its tokens' text |
| SyntaxProofs.ShownLine | src/prettipy/syntax.py:54-57 | what that is for a line with no newline, carriage return or byte-order mark |
| SyntaxProofs.PreparedPlain | src/prettipy/syntax.py:57 | Pygments tokenizes such text unchanged, with one final newline ensured |
| Syntax.SyntaxHighlighter.HighlightCode | src/prettipy/syntax.py:104-119 | equals `HighlightCodeSpec`; the HTML shows what each line shows, in order |
| SyntaxProofs.TextOfJoin | src/prettipy/syntax.py:118-119 | the `<br/>` joins add no text |
| SyntaxProofs.TextOfHighlightCode | src/prettipy/syntax.py:104-119 | `highlight_code` shows each non-blank line's text, in order |
| Syntax.SyntaxHighlighter.HighlightCodeMultilineAware | src/prettipy/syntax.py:121-166 | equals `MultilineHighlight`; empty code gives no entry; otherwise one entry per line (newlines + 1), none empty; entry `j` shows line `j` of the tokenized text; with `stripnl` off, line `j` of the code |
| Syntax.SyntaxHighlighter.ColorizeLines | src/prettipy/syntax.py:145-163 | entry `j` is the colourized token parts routed to line `j` |
| Syntax.SyntaxHighlighter.PlaceToken | src/prettipy/syntax.py:148-163 | cursor and entries after one token are those of `PlaceParts` |
| RoutingProofs.PlacePartsCursor | src/prettipy/syntax.py:150-158 | a token with `k` newlines moves the cursor exactly `k` lines down, stopping at the line count |
| RoutingProofs.PlaceTokensForward | src/prettipy/syntax.py:148-163 | the cursor never decreases or passes the line count; entries only grow; lines above the cursor are never written again |
| RoutingProofs.PlaceTokensMatches | src/prettipy/syntax.py:148-163 | the entries hold the lines of the text seen so far and the cursor is on the last |
| RoutingProofs.RouteShowsTokens | src/prettipy/syntax.py:145-163 | line `j` receives exactly line `j` of the tokens' text, and lines past it nothing |
| RoutingProofs.RouteText | src/prettipy/syntax.py:139-163 | when the tokens spell out the code (a final newline allowed), line `j` of the code receives exactly line `j` |
| RoutingProofs.FinalNewline | src/prettipy/syntax.py:142 | a final newline changes none of the lines already there |
| RoutingProofs.MultilineShowsTokens | src/prettipy/syntax.py:121-166 | entry `j` shows line `j` of the text the lexer tokenized, tabs expanded |
| RoutingProofs.MultilineShowsLines | src/prettipy/syntax.py:121-166 | with `stripnl` off, entry `j` shows line `j` of the code, tabs expanded |
| RoutingProofs.EntryShowsLine | src/prettipy/syntax.py:166 | an entry, `<br/>` when it received nothing, shows its pieces' text |
| RoutingProofs.LeadingNewlineShifts | src/prettipy/syntax.py:139-163 | with `stripnl` on, `"\npass"` puts `pass` in entry 0, blank in the code, and nothing in entry 1 |
| RoutingProofs.StripPass | src/prettipy/syntax.py:139 | Pygments with `stripnl` tokenizes `"pass\n"` for `"\npass"` |

## Left out

- Formatter.CodeFormatter.WrapPlainLine: requires `PlainTerminates`, which
  holds on exactly the lines on which the loop of `_wrap_plain_line` stops.
  These are the lines that fit, and lines whose width exceeds the
  indentation plus 4. A width equal to the indentation plus 4 also stops
  the loop when the first cut leaves only whitespace
  (`BlankTailTerminates`). On every other line the loop runs forever
  (`PlainDiverges`, `PlainLoopRepeats`). A negative width never ends it,
  since no string is shorter than that.
- Formatter.CodeFormatter.ContinueComment: requires at least three columns
  after the continuation indent while comment text remains. With one or two
  columns, remaining text that starts with a visible character other than
  `#` comes back unchanged, and the loop runs forever
  (`ContinuationRepeats`). The model says nothing about two kinds of
  excluded input on which the loop does end:
  - one or two columns, with remaining text made only of `#` and
    whitespace (the rounds emit lines holding a bare `#`, without the
    `"# "` prefix);
  - zero or fewer columns, where Python's negative slice bounds can end the
    loop with lines wider than the width (`NegativeRoomOverflows`: `"x # abc "`
    at width 3 gives `["x", "    # # abc"]`).
- Formatter.CodeFormatter.WrapLineWithComment: requires `CommentTerminates`.
  When the code fits the width, this means one of three things:
  - the comment fits beside the code;
  - three columns remain after the continuation indent;
  - the first line takes all the comment text, and is cut within a positive
    width (`CommentWithoutRest`).

  When the code does not fit, `PlainTerminates` decides. Excluded and not
  described: the terminating inputs listed under `ContinueComment`, and a
  comment with no code before it whose indentation reaches the width. There
  the first line is cut by a slice with a non-positive bound.
- Formatter.CodeFormatter.WrapLine: requires `WrapTerminates`. A line that
  fits always qualifies. Otherwise the requirement is `PlainTerminates` for a
  line without `#` and `CommentTerminates` for the others, so it leaves out
  the inputs named in the three entries above.
- The Pygments tokenizer (`PythonLexer`'s lexing rules) is a function
  parameter.
  - Losslessness is proved under the lexer contract `Spells`: the token
    values, in order, are the text tokenized.
  - Token categories for particular Python code are not modelled.
- The lossless-text statements require a colour scheme free of `>`
  (`TagSafe`). A colour with `>` would end its `<font>` tag early. The
  default scheme is free of `>` (`DefaultColorsTagSafe`).
- `Text` is a reference decoder for what ReportLab shows. It is not code of
  the program, and it knows only the entities the highlighter emits.
- The lossless statements for the multiline path (`MultilineShowsLines`,
  `ShownLine`, `PreparedPlain`) assume no `\r` in the code and no leading
  byte-order mark. The routing itself is modelled for any code. On such
  code an entry differs from its line in more ways:
  - Pygments turns `\r\n` into `\n`, while `code.split('\n')` keeps the
    `\r`, so a `\r\n` line shows without its `\r`.
  - Pygments turns a lone `\r` into `\n` as well. The text after it then
    goes one line lower, and what is pushed past the last line is never
    shown, since the cursor stops at the line count.
  - Pygments drops a leading byte-order mark, which `code.split('\n')`
    keeps (a file read as `utf-8` keeps it), so entry 0 lacks that
    character.
- core.py, kindle.py, ipynb_converter.py and notebook_handler.py are not part
  of this model. They cover file discovery, PDF layout, e-mail delivery and
  notebook conversion. The model also does not capture core.py joining the
  multiline entries with `<br/>`.
- The ReportLab rendering of the produced HTML is not modelled.

## Findings

| source | as written | input that shows it | evidently intended | confidence | as-written member | corrected member |
|---|---|---|---|---|---|---|
| src/prettipy/syntax.py:41 | `PythonLexer()` keeps Pygments' default `stripnl=True`, so the newlines at the start of the file are dropped before tokenizing, and every line of the highlighted file lands that many entries too early | code `"\npass"`: entry 0 (a blank line) shows `pass`, entry 1 (the `pass` line) is `<br/>` | `PythonLexer(stripnl=False)`, so that entry `j` shows line `j` of the code | medium (depends on Pygments' default `stripnl`); not executed | RoutingProofs.LeadingNewlineShifts | RoutingProofs.MultilineShowsLines |
