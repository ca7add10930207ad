# argparse string utilities, modelled in Dafny

This project models the string logic of the `argparse` Go package's
`utils.go`:

- `extractOptions` is the token classifier. It walks the raw argument list with a cursor and
  splits it into option names and plain arguments:
  - `-abc` expands to `a`, `b`, `c`.
  - `--name` yields `name`.
  - `--` followed by another token forces that token into the arguments.
  - Everything else is an argument.
- `join`, `spacer` and `wordWrap` are the help-formatting helpers:
  - `join` joins strings with a delimiter.
  - `spacer` builds a run of spaces.
  - `wordWrap` does greedy word wrapping on single spaces.

Each Go function has two forms here:

- a pure recursive function that serves as its specification;
- a method that follows the Go loop step by step and is proved to compute that function.

Lemmas state the properties the code promises.

Files and modules:

- `text.dfy`, module `Text`: `Join`, `Spacer` and `Split`, plus the buffered loops of `join`
  and `spacer`. `Split` models `strings.Split(s, " ")`. `Join(" ", Split(s)) == s` is proved
  for every `s`, and `Split(Join(" ", ws)) == ws` for non-empty lists `ws` of space-free words.
- `option_pattern.dfy`, module `OptionPattern`: the option pattern `^-{1,2}[a-zA-Z]+$`. It is
  written as a predicate (`IsOptionToken`) and as a one-pass scan over a five-state automaton.
  The scan stands for the `regexp` match.
- `extract_options.dfy`, module `Extract`: the classifier `ExtractOptions`, its loop
  `ExtractOptionsLoop`, and lemmas for the escape rule, plain tokens, short clusters, long
  names and composition.
- `word_wrap.dfy`, module `Wrap`: the greedy packing `Pack`, `WordWrap`, its loop
  `WordWrapLoop`, and lemmas for line width, rejoining, greediness and word preservation.

Strings are `seq<char>`.

## Model

| member | source | states |
|---|---|---|
| Text.Join | utils.go:70-86 | the definition of `join`: no parts give `""`, one part gives itself, otherwise the first part, the delimiter, and the join of the rest |
| Text.JoinShape | utils.go:68-86 | no parts give `""`; one part gives that part; otherwise the length is the sum of the part lengths plus (n-1) delimiters; the first part opens the result and the last part closes it, so there is no leading or trailing delimiter |
| Text.JoinSnoc | utils.go:78-83 | joining one more part appends one delimiter and then that part |
| Text.JoinAppend | utils.go:78-83 | joining a concatenation joins the two halves with exactly one delimiter between them |
| Text.JoinBuffered | utils.go:70-86 | the buffer loop writes each part and then a delimiter unless the part is last; it computes `Join` and returns `""` for no parts |
| Text.Spacer | utils.go:88-101 | the result contains only spaces; its length is `length` when that is positive and 0 otherwise |
| Text.SpacerBuffered | utils.go:90-101 | the counting loop computes `Spacer`, including the empty result for a negative length |
| Text.Split | utils.go:113 | there is at least one piece and no piece contains a space |
| Text.SplitCount | utils.go:113-118 | there is one more piece than the text has spaces; a text without spaces is a single piece |
| Text.JoinOfSplit | utils.go:113 | joining the pieces with single spaces gives the text back |
| Text.SplitOfJoin | utils.go:113 | splitting a space-joined non-empty list of space-free words gives the words back |
| OptionPattern.IsOptionToken | utils.go:30-31 | the pattern `^-{1,2}[a-zA-Z]+$`: one or two leading dashes, then one or more ASCII letters, then the end of the token |
| OptionPattern.OptionForm | utils.go:37-41 | on an option token, the long test (`len > 2` and a `--` prefix) holds exactly when the second character is a dash; a long token is `--` plus a word and a short token is `-` plus a word |
| OptionPattern.MatchOptionPattern | utils.go:29-31 | the scan accepts exactly the tokens made of one or two dashes followed by one or more ASCII letters |
| Extract.Yield | utils.go:29-50 | for a token that is not an escape: it is an argument exactly when it fails the pattern; every option name it yields is a non-empty ASCII word |
| Extract.ExtractOptions | utils.go:14-55 | every option name is a non-empty word of ASCII letters, so it is never a dash and never empty |
| Extract.ArgumentsKeepInputOrder | utils.go:23-34 | the arguments are a subsequence of the input: input tokens in input order |
| Extract.EscapedTokenIsArgument | utils.go:21-27 | `--` followed by any token puts that token in the arguments verbatim, even when it looks like an option; neither token yields an option, and classification continues two tokens on |
| Extract.PlainTokenIsArgument | utils.go:29-35 | a token that fails the pattern is appended to the arguments unchanged; this includes a lone `--` at the end |
| Extract.TrailingEscapeIsArgument | utils.go:23-34 | a final lone `--` after tokens that do not end on a lone `--` becomes the last argument |
| Extract.ShortClusterYieldsLetters | utils.go:38-47 | `-` plus a word yields exactly the word's letters, in order, as separate options, and no argument |
| Extract.LongOptionYieldsName | utils.go:38-50 | `--` plus a word yields exactly that word as one option, and no argument |
| Extract.SeparateFlagsYieldLetters | utils.go:43-47 | the one-letter flags `-a -b …` yield exactly the letters `a`, `b`, … in order as options, and no argument |
| Extract.ClusterSameAsSeparateFlags | utils.go:43-47 | `-ab…` classifies exactly like `-a -b …`, whatever follows |
| Extract.ExtractAppend | utils.go:18-52 | classifying a concatenation is classifying each half, provided the first half does not end on a lone `--` |
| Extract.PlainInputPassesThrough | utils.go:18-52 | input without option tokens yields no options; if it also has no `--`, the arguments are the input verbatim |
| Extract.ExtractOptionsLoop | utils.go:14-55 | the cursor loop, with its inner loop over a cluster's letters, computes `ExtractOptions` |
| Wrap.WordWrap | utils.go:109-118 | a text no longer than `max`, or one without a space, is returned as the single line `[text]` |
| Wrap.Pack | utils.go:120-130 | the greedy loop: a word joins the current line unless its length plus the line's word lengths plus one space per word on the line exceeds `max`, in which case the line is emitted and the word opens the next; the last line is emitted at the end |
| Wrap.PackKeepsWords | utils.go:120-130 | concatenating the packed lines' word lists gives the words in order, with none lost or repeated |
| Wrap.PackShape | utils.go:120-130 | every line after the first is non-empty; from an empty start, the first line is empty exactly when the first word is longer than `max` |
| Wrap.PackLinesFit | utils.go:120-130 | every packed line of two or more words fits within `max` columns with single spaces |
| Wrap.PackIsGreedy | utils.go:121-125 | a line was closed only because the next line's first word did not fit onto it |
| Wrap.PackRejoins | utils.go:120-130 | the lines joined with spaces equal the words joined with spaces; when the first word exceeds `max`, an empty first line comes before them |
| Wrap.WrapLongLineIsOneWord | utils.go:105-133 | a wrapped line longer than `max` contains no space, so it is a single word |
| Wrap.WrapRejoins | utils.go:105-133 | rejoining the lines with single spaces gives the text back; the exception is an overlong first word, where the lines are an empty line followed by lines that rejoin to the text |
| Wrap.WrapIsGreedy | utils.go:120-132 | the first word of each line would not have fitted after a space on the line before it |
| Wrap.WordWrapLoop | utils.go:105-133 | the Go loop, with its running line length and the buffered `join`, computes `WordWrap` |
| Wrap.EmptyFirstLineExample | utils.go:120-124 | `wordWrap("abcdef gh", 3)` is `["", "abcdef", "gh"]` |
| Wrap.WordWrapFixed | utils.go:120-132 | with the first word always put on the first line, the lines rejoin to the text in every case |
| Wrap.FixedDropsEmptyFirstLine | utils.go:120-132 | the corrected wrap differs from `wordWrap` only by dropping the leading empty line |

## Findings

| source | as written | input that shows it | evidently intended | confidence | as-written member | corrected member |
|---|---|---|---|---|---|---|
| utils.go:120-124 | The first word is checked against an empty line. When the word is longer than `max`, the empty line is emitted before it. | `wordWrap("abcdef gh", 3)` gives `["", "abcdef", "gh"]` | `["abcdef", "gh"]`: no blank line ahead of the description | medium, not executed | Wrap.EmptyFirstLineExample | Wrap.WordWrapFixed |

## Left out

- `getScreenWidth` (utils.go:57-66) is left out. It queries the terminal through the external
  `termbox` library and panics on failure. The width reaches `WordWrap` as the parameter `max`.
- The `regexp` engine is not modelled. The pattern `^-{1,2}[a-zA-Z]+$` is written out by hand
  as `IsOptionToken`, and `MatchOptionPattern` scans for it.
- `bytes.Buffer` and the internals of `strings.Split` are not modelled. The buffer is sequence
  concatenation. `strings.Split(s, " ")` is the specified function `Split`.
- Lengths differ for non-ASCII text. Go's `len` counts UTF-8 bytes, while the model counts
  characters, so `WordWrap`'s comparisons against `max` agree with Go only for ASCII text.
  Option tokens are always ASCII, so `extractOptions` is unaffected.
- Go's `nil` versus empty slices is not modelled. An empty result is the empty sequence.
- The rest of the parser is not part of this model. That covers the argument registry, the
  binder, the validator, the result namespace and the help renderer that calls these helpers.
