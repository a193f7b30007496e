# ObjectDecorator of ruby_jard, modelled in Dafny

ruby_jard is a terminal debugger UI for Ruby. Its variable panes render values through
decorators; `RubyJard::ObjectDecorator` is the generic one. It turns a value's `to_s`
text into styled spans that fit a character budget, and it can lay a value out over
several rows, one per instance variable, with a closing "▸ N more..." row for the
variables that did not fit.

The project models that decorator:

- `wrappers.dfy` (`Wrappers`): the `Option` type.
- `spans.dfy` (`Spans`): `Span` (content, left and right margin, style tag), its width,
  and rows of spans with their width and text.
- `ruby_text.dfy` (`RubyText`): Ruby's `s[0..n]` slice (no clamping, a negative end
  counts from the end of the string, never nil because the start is 0) and
  `Integer#to_s`, with the digits proved to read back to the number.
- `address_pattern.dfy` (`AddressPattern`): `OBJECT_ADDRESS_PATTERN`,
  `/#<(.*)(:0x[0-9]+.*)>/i`. `IsMatch` says when the pattern matches a stretch of the text
  and what its two groups are. `.` does not match a newline, and under `/i` only the `x`
  has a case. `Split` computes a match by scanning and is proved to return exactly the
  match Ruby's backtracking picks: the leftmost start, then the longest group 1, then the
  longest group 2. It returns None exactly when no match exists.
- `object_decorator.dfy` (`Decorators`): values as their `to_s` text plus an optional,
  ordered list of instance variables; `DecorateSingleline` with a lemma per branch; the
  class `ObjectDecorator`, which holds the general decorator given to its constructor.
  Its method `DecorateMultiline` keeps the source's loop, counter and early `break`. It
  is proved equal to `MultilineRows`, which describes the rows all at once, and the
  properties of the rows are lemmas about `MultilineRows`.

What the proofs establish, in the code's own terms:

- Plain text that fits comes out whole; the bound is inclusive.
- Longer plain text with `line_limit >= 3` is cut to exactly `line_limit` characters,
  ending in "…>". Below 3 it is wider than the limit.
- A signature whose detail fits strictly is shown whole, and the four spans spell out
  the matched part of the text.
- When `line_limit - len(name) - 4 >= 0`, a truncated detail keeps
  `line_limit - len(name) - 3` characters plus "…". The row is then `line_limit + 1`
  columns wide, one more than the limit. Below that bound the slice end is negative and
  counts back from the end of the detail, so the row can be much wider than the limit. For the text
  "#<Foo:0x00001234 extra details...>" at width 20 the detail is 15 characters and
  the row 21 columns.
- The multi-line render always starts with the single-line row at `first_line_limit`.
  It then shows `min(F, max(1, lines - 2))` of the F instance variables, in declaration
  order. Each field row has a prefix exactly `len(name) + 7` columns wide, which is the
  amount deducted from the width its value gets. A summary row with the exact count
  follows exactly when variables were left out.
- With `lines >= 3` there are at most `lines` rows, and exactly `lines` when the
  variables do not all fit. With `lines <= 2` and two or more variables there are 3 rows.

Facts about the code that a reader might not expect:

- The code never clamps widths.
- The truncated signature row is `line_limit + 1` wide.
- A failing field is not caught.
- Five variables with `lines = 4` give two field rows and "▸ 3 more..." (`F - (lines - 2)`).

Rendering is a pure function of its inputs here, so rendering the same value twice with
the same budgets gives the same rows.

## Model

| member | source | states |
|---|---|---|
| `AddressPattern.SplitCorrect` | lib/ruby_jard/decorators/object_decorator.rb:5-13 | Split's result is a match of the pattern, with the name and detail taken from the text, and no other match comes before it in Ruby's backtracking order. Split returns None exactly when the pattern matches nowhere in the text. |
| `AddressPattern.SplitMatches` | lib/ruby_jard/decorators/object_decorator.rb:13 | A reported match is a match of the pattern, and the name and detail are the text of groups 1 and 2. |
| `AddressPattern.MatchAtCorrect` | lib/ruby_jard/decorators/object_decorator.rb:5 | At a given start, the attempt finds a match exactly when one exists there. The match it finds has the longest group 1, and for that group 1 the longest group 2. |
| `AddressPattern.SearchFromCorrect` | lib/ruby_jard/decorators/object_decorator.rb:13 | Scanning starts from left to right gives the first-tried match among all matches at or after the scan's start, and None exactly when there is none. |
| `AddressPattern.SplitSpellsMatch` | lib/ruby_jard/decorators/object_decorator.rb:13-17 | "#<" + name + detail + ">" is exactly the stretch of the text starting at the match start. |
| `AddressPattern.SplitIsFirstTried` | lib/ruby_jard/decorators/object_decorator.rb:13 | The split is unique: any match that backtracking would try before every other is the one Split returns. |
| `RubyText.Take` | lib/ruby_jard/decorators/object_decorator.rb:19 | Ruby's `s[0..n]` is a prefix of `s`. It keeps the indices 0 to n when `n >= 0`, and 0 to `len + n` when n is negative, as far as those indices exist. |
| `RubyText.NatToString` | lib/ruby_jard/decorators/object_decorator.rb:70 | The interpolated count is a non-empty run of decimal digits with no leading zero. |
| `RubyText.DecimalRoundTrip` | lib/ruby_jard/decorators/object_decorator.rb:70 | Reading the interpolated digits back gives the number written. |
| `Decorators.DecorateSingleline` | lib/ruby_jard/decorators/object_decorator.rb:11-42 | One span, or four spans exactly when the text matches the pattern. Every span is `:text_secondary` with no margins. |
| `Decorators.SinglelineShortPlain` | lib/ruby_jard/decorators/object_decorator.rb:27-33 | Unmatched text with length at most `line_limit` (inclusive) comes out as one span holding the text unchanged. |
| `Decorators.SinglelineLongPlain` | lib/ruby_jard/decorators/object_decorator.rb:34-40 | Unmatched text longer than a limit of at least 3 gives its first `line_limit - 2` characters + "…>", exactly `line_limit` columns. |
| `Decorators.SinglelineLongPlainNarrow` | lib/ruby_jard/decorators/object_decorator.rb:34-40 | With a limit below 3, the long plain branch is wider than the limit. |
| `Decorators.SinglelineSignatureFits` | lib/ruby_jard/decorators/object_decorator.rb:13-26 | A detail shorter than `line_limit - len(name) - 3` gives the four spans "#<", name, detail, ">". Their text is the matched part of the text, and they are narrower than `line_limit`. |
| `Decorators.SinglelineSignatureTruncated` | lib/ruby_jard/decorators/object_decorator.rb:18-26 | Otherwise, with `n = line_limit - len(name) - 4 >= 0`, the detail becomes its first n + 1 characters + "…", of length `line_limit - len(name) - 2`. The other spans are unchanged and the row is `line_limit + 1` wide. |
| `Decorators.FitDetailTruncated` | lib/ruby_jard/decorators/object_decorator.rb:15-20 | When `line_limit - len(name) - 4 >= 0`, a detail that does not fit becomes its first `line_limit - len(name) - 3` characters + "…", of length `line_limit - len(name) - 2`. Below that bound the negative slice end counts back from the end of the detail (not stated by this lemma). |
| `Decorators.SignatureRowWidth` | lib/ruby_jard/decorators/object_decorator.rb:21-26 | The four signature spans are "#<" + name + detail + ">" and are `len(name) + len(detail) + 3` wide. |
| `Decorators.FooSplit` | lib/ruby_jard/decorators/object_decorator.rb:5-13 | The text "#<Foo:0x00001234 extra details...>" splits into name "Foo" and detail ":0x00001234 extra details...". |
| `Decorators.SinglelineFooAt20` | lib/ruby_jard/decorators/object_decorator.rb:15-26 | At width 20 that text gives the detail ":0x00001234 ex…" (15 characters) and a 21-column row. |
| `Decorators.FieldPrefixWidth` | lib/ruby_jard/decorators/object_decorator.rb:54-59 | The bullet/name/"=" prefix is exactly `len(name) + 7` wide, the width deducted on line 59. |
| `Decorators.FieldRowWidth` | lib/ruby_jard/decorators/object_decorator.rb:52-61 | A field row is `len(name) + 7` plus the width of the general decorator's output for the value at `line_limit - len(name) - 7`. |
| `Decorators.ShownCountIsMin` | lib/ruby_jard/decorators/object_decorator.rb:63-64 | The number of field rows is `min(F, max(1, lines - 2))`, so at least one shows when `F >= 1`. |
| `Decorators.SummaryRowCount` | lib/ruby_jard/decorators/object_decorator.rb:68-73 | The summary text is "▸ ", decimal digits, " more...", and the digits denote exactly the number of omitted variables. |
| `Decorators.MultilineFirstRow` | lib/ruby_jard/decorators/object_decorator.rb:45-48 | Row 0 is the single-line render at `first_line_limit`. Without instance variables it is the only row. |
| `Decorators.FieldRowsInOrder` | lib/ruby_jard/decorators/object_decorator.rb:51-61 | There is one field row per instance variable, and the i-th row is the i-th variable's row: none is dropped, repeated or moved. |
| `Decorators.MultilineFieldRow` | lib/ruby_jard/decorators/object_decorator.rb:50-65 | Row i + 1 is the i-th instance variable in declaration order: its prefix, then the general decorator's output for its value at `line_limit - len(name) - 7`. |
| `Decorators.MultilineSummary` | lib/ruby_jard/decorators/object_decorator.rb:67-76 | A summary row is the last row exactly when F exceeds the shown count, and it carries `F - shown`. Otherwise there are shown + 1 rows. |
| `Decorators.MultilineRowBudget` | lib/ruby_jard/decorators/object_decorator.rb:63-76 | For `lines >= 3`, at most `lines` rows, and exactly `lines` when `F > lines - 2`. For `lines <= 2` with F >= 2, three rows. |
| `Decorators.MultilineFiveFieldsFourLines` | lib/ruby_jard/decorators/object_decorator.rb:50-76 | Five variables and four lines give four rows, the last "▸ 3 more...". |
| `Decorators.MultilineOneFieldFourLines` | lib/ruby_jard/decorators/object_decorator.rb:50-76 | One variable and four lines give two rows and no summary. |
| `Decorators.ObjectDecorator.constructor` | lib/ruby_jard/decorators/object_decorator.rb:7-9 | The decorator keeps the general decorator it is given. |
| `Decorators.ObjectDecorator.DecorateMultiline` | lib/ruby_jard/decorators/object_decorator.rb:44-77 | The loop with its counter and early break returns exactly `MultilineRows`. |

## Left out

- lib/ruby_jard.rb is not part of this model: the session singleton, benchmarking, the debug log, key bindings, the `Kernel#jard` patch and the Byebug configuration.
- Ruby reflection (`respond_to?`, `instance_variables`, `instance_variable_get`) is replaced by the value's optional list of (name, value) pairs. The three calls of `instance_variables` are taken to return the same list.
- The general decorator and the array, hash and string decorators behind it are not shown. The general decorator is an arbitrary function from a value and a width to spans.
- `RubyJard::Span` is not shown: it is modelled with content, two margins that default to 0, and a style tag. Styles are the symbolic tags `:text_secondary` and `:text_dim`; colours are not modelled.
- The regex engine in general is not modelled, only this one pattern. Characters are Unicode code points, with "…" and "▸" one character each, as Ruby's `length` counts them.
- Exceptions raised while rendering a field are not modelled: the code does not catch them, and the general decorator here is a total function.
