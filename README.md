# Blog content pipeline and theme cycle

This project models the blog back end of the *modern-canvas* portfolio site in
Dafny and proves properties of the model. The back end is `src/lib/posts.ts`:

- **Frontmatter parser** (`parseFrontmatter`). An anchored `---\n … \n---\n`
  header is matched lazily. Each header line is split at its first colon. One
  pair of outer quotes is stripped, and a bracketed value becomes a list. The
  record is built by a `forEach` that overwrites earlier keys, and the body is
  returned trimmed.
- **Read-time estimate** (`calculateReadTime`). It counts the tokens of
  `split(/\s+/)` at 200 words per minute, rounded up, and renders `"<N> min"`.
- **Repository** (`getAllPosts`). One post is pushed per Markdown module. Its
  slug comes from the file name and missing fields get their defaults. The
  list is then sorted newest first by the engine's stable sort.
- **Lookup** (`getPostBySlug`). It returns the first post of that listing whose
  slug matches, or null.

It also models the theme button's next-state rule, `cycleTheme` in
`src/components/ThemeToggle.tsx`.

The model has these modules:

- `Strings` (`strings.dfy`): the JavaScript string built-ins the pipeline uses.
  These are `trim`, `indexOf`, `split` on a character, `split(/\s+/)`,
  `.pop()` of a path split, `replace(/["']/g, '')` and decimal rendering.
  Whitespace is the exact ECMAScript *WhiteSpace* and *LineTerminator* set,
  which is what both `\s` and `trim` use.
- `Frontmatter` (`frontmatter.dfy`): the header match, value and line parsing,
  and the record fold. `ParseFrontmatter`, its per-line callback
  `ApplyLine` and the callback's value steps `ReadValue` are methods, proved against the value-level specification
  `Parse`.
- `ReadingTime` (`reading_time.dfy`).
- `Posts` (`posts.dfy`): slugs, defaults, the stable date sort, the
  `GetAllPosts` loop and the lookup.
- `ThemeToggle` (`theme_toggle.dfy`).
- `Wrappers` (`wrappers.dfy`): `Option`.

Header values are a tagged union, `Value = Scalar(text) | List(items)`. The
record is typed `Record<string, any>` and is read with `||`, so a post's
`title`, `excerpt`, `date`, `author` and `tags` are `Value`s. A list title or
a scalar `tags` passes through unchanged, exactly as in the source.

A field is falsy when its key is missing or its value is the empty string. A
list, even an empty one, is truthy.

These are parameters of the model:

- the content modules, as a sequence of `Source(path, raw)`;
- today's date, `today`;
- the timestamp that the sort comparator reads off a date, `stamp`.

## Model

| member | source | states |
|---|---|---|
| Strings.Trim | src/lib/posts.ts:22 | `trim` yields a string that neither starts nor ends with whitespace |
| Strings.TrimRemovesOnlySpace | src/lib/posts.ts:22 | what `trim` cuts off is whitespace, and only at the two ends; the kept text is a contiguous piece of the input |
| Strings.TrimUnique | src/lib/posts.ts:22 | any bare piece of the input with only whitespace around it is the trim result |
| Strings.TrimIdempotent | src/lib/posts.ts:54 | trimming twice is the same as trimming once |
| Strings.IndexOfFrom | src/lib/posts.ts:32 | `indexOf` gives the first occurrence at or after the start index, and -1 (None) exactly when there is none |
| Strings.IndexOfChar | src/lib/posts.ts:32 | for one character, `indexOf` is -1 iff the character is absent; otherwise it is the index of its first occurrence |
| Strings.TrimKeeps | src/lib/posts.ts:34 | trimming adds no character, so a key cut before the first colon is colon-free |
| Strings.Split | src/lib/posts.ts:31 | `split` on a character gives at least one part, no part holds the separator, and joining the parts with it gives the input back |
| Strings.SplitJoin | src/lib/posts.ts:45 | splitting a join of separator-free parts gives those parts back |
| Strings.SplitAppend | src/lib/posts.ts:31 | splitting `a + sep + b` is splitting `a` followed by splitting `b` |
| Strings.LastPart | src/lib/posts.ts:71 | `split('/').pop()` is a separator-free suffix of the path |
| Strings.LastPartAfterSeparator | src/lib/posts.ts:71 | the last segment of `dir/name` is `name` |
| Strings.SplitOnSpaceRuns | src/lib/posts.ts:60 | `split(/\s+/)` gives at least one piece and no piece holds whitespace |
| Strings.SplitOnSpaceRunsOfWords | src/lib/posts.ts:60 | non-empty words separated by non-empty whitespace gaps of any length and kind (spaces, tabs, blank lines) split back into exactly those words |
| Strings.SplitOnSpaceRunsAfterGap | src/lib/posts.ts:60 | a whole whitespace run before a word is one separator: it leaves an empty first piece and nothing else |
| Strings.RemoveQuotes | src/lib/posts.ts:45 | `replace(/["']/g, '')` leaves no quote character, never lengthens, and leaves quote-free text unchanged |
| Strings.RemoveQuotesChar | src/lib/posts.ts:45 | on one character the replacement deletes a `"` or `'` and keeps anything else |
| Strings.RemoveQuotesAppend | src/lib/posts.ts:45 | the replacement is global and character by character: the result for `a + b` is the result for `a` followed by the result for `b`; with `RemoveQuotesChar` this fixes the result on every input |
| Strings.NatToString | src/lib/posts.ts:62 | `${n}` is a non-empty string of digits without a leading zero |
| Strings.NatToStringValue | src/lib/posts.ts:62 | reading the rendered digits back gives the number |
| Frontmatter.MatchHeader | src/lib/posts.ts:16-17 | the regex matches iff the input starts with `---\n` and has `\n---\n` at index 4 or later; the input is then opening + header + closing + rest, and the closing delimiter is the first one (lazy match) |
| Frontmatter.MatchHeaderOf | src/lib/posts.ts:16 | a file laid out as `---\n<header>\n---\n<rest>`, with no earlier closing delimiter, matches with exactly that header and rest |
| Frontmatter.AdjacentDelimitersDoNotMatch | src/lib/posts.ts:16 | `"---\n---\nx"` has no header |
| Frontmatter.EmptyHeaderMatches | src/lib/posts.ts:16 | `"---\n\n---\nx"` has an empty header and body `x` |
| Frontmatter.CrlfNeverMatches | src/lib/posts.ts:16 | a file whose line breaks are all CRLF never has a header |
| Frontmatter.Unquote | src/lib/posts.ts:38-41 | a value in one matching pair of `"` or `'` loses exactly that pair (a lone quote becomes empty); any other value is unchanged |
| Frontmatter.Items | src/lib/posts.ts:45 | a list has one item per comma-separated part, item i is the i-th part trimmed and with its quote characters removed, and no item holds a quote character |
| Frontmatter.ParseValue | src/lib/posts.ts:38-48 | the value is a list iff the unquoted text is bracketed; a scalar holds the unquoted text; a list holds the items of the text inside the brackets |
| Frontmatter.ParsePlainValue | src/lib/posts.ts:47 | a value neither quoted nor bracketed is stored unchanged |
| Frontmatter.ParseQuotedValue | src/lib/posts.ts:38-41 | `"s"` and `'s'` are stored as `s` |
| Frontmatter.TrimPadded | src/lib/posts.ts:45 | trimming a bare piece with whitespace on both sides gives the piece |
| Frontmatter.RemoveWrappingQuotes | src/lib/posts.ts:45 | a quote-free item wrapped in one pair of `"` or `'` quotes, or in none, becomes the item |
| Frontmatter.CellItem | src/lib/posts.ts:45 | a cell made of whitespace, an item optionally in quotes, and whitespace yields exactly that item |
| Frontmatter.ParseListValue | src/lib/posts.ts:44-45 | a bracketed value whose comma-separated cells are comma-free, quote-free items, each padded with whitespace and optionally quoted, reads back as exactly those items in order |
| Frontmatter.SpacedListValue | src/lib/posts.ts:44-45 | `[a, b, c]` with plain items gives the list `a`, `b`, `c` |
| Frontmatter.QuotedListValue | src/lib/posts.ts:44-45 | `["a", 'b']` gives the list `a`, `b` |
| Frontmatter.EmptyBracketsGiveOneEmptyItem | src/lib/posts.ts:45 | `[]` becomes a list of one empty item |
| Frontmatter.LoneBracketStaysScalar | src/lib/posts.ts:44 | a lone `[` stays a scalar |
| Frontmatter.ParseLine | src/lib/posts.ts:32-35 | a line yields an entry iff it holds a colon and does not start with one; the key is trimmed and colon-free |
| Frontmatter.ParseLineAtFirstColon | src/lib/posts.ts:32-35 | for `key:value` with a colon-free key, later colons stay in the value |
| Frontmatter.AssembleKeys | src/lib/posts.ts:29-50 | a key is in the record iff some entry names it |
| Frontmatter.AssembleLastWins | src/lib/posts.ts:45-47 | the record holds the value of the last entry naming a key |
| Frontmatter.CollectKeys | src/lib/posts.ts:31-35 | a key is in the record iff some header line yields an entry for it |
| Frontmatter.CollectLastWins | src/lib/posts.ts:31-50 | a later header line for the same key overwrites an earlier one |
| Frontmatter.ParseBodyIsTrimmed | src/lib/posts.ts:52-55 | the returned body never starts or ends with whitespace |
| Frontmatter.ParseWithoutHeader | src/lib/posts.ts:19-24 | without a match the record is empty and the body is the whole input, trimmed |
| Frontmatter.ParseWithHeader | src/lib/posts.ts:26-55 | with a header, the record comes from the header's lines and the body is what follows the first closing delimiter, trimmed |
| Frontmatter.ApplyLine | src/lib/posts.ts:31-49 | the `forEach` callback stores the line's entry under its trimmed key, or leaves the record alone when the line has no colon past index 0 |
| Frontmatter.ReadValue | src/lib/posts.ts:35-48 | the callback's value steps (one pair of outer quotes removed, a bracketed value split into items) give exactly `ParseValue` of the trimmed value |
| Frontmatter.ParseFrontmatter | src/lib/posts.ts:15-56 | the imperative parser, with its loop over header lines, returns exactly `Parse(content)` |
| ReadingTime.TokenCount | src/lib/posts.ts:60 | there is always at least one token |
| ReadingTime.Minutes | src/lib/posts.ts:61 | N is at least 1, and the least number of minutes such that N·200 covers every token |
| ReadingTime.CalculateReadTime | src/lib/posts.ts:58-63 | the result is decimal digits without a leading zero whose value is N, followed by `" min"` |
| ReadingTime.TokenCountOfWords | src/lib/posts.ts:60 | words separated by whitespace gaps of any length and kind count one token each |
| ReadingTime.FourHundredWordsTakeTwoMinutes | src/lib/posts.ts:58-63 | 400 words, however they are spaced, give `"2 min"` |
| ReadingTime.EmptyBodyTakesOneMinute | src/lib/posts.ts:58-63 | an empty body gives `"1 min"` |
| Posts.DropExtensionRemovesFirst | src/lib/posts.ts:71 | `replace('.md', '')` leaves the name alone when `.md` is absent and otherwise cuts out its first occurrence, as found by `indexOf` |
| Posts.DropExtensionAbsent | src/lib/posts.ts:71 | a name without `.md` is kept |
| Posts.DropExtensionFirst | src/lib/posts.ts:71 | the first `.md` is the one cut out |
| Posts.SlugHasNoSlash | src/lib/posts.ts:71 | a slug never holds a `/` |
| Posts.SlugOfMarkdownFile | src/lib/posts.ts:71 | `<dir>/<base>.md` gets slug `<base>` when `base` holds neither `/` nor `.md` |
| Posts.DefaultExcerpt | src/lib/posts.ts:78 | the default excerpt is the first min(150, length) characters of the body followed by `...`, so at most 153 characters |
| Posts.BuildAllAt | src/lib/posts.ts:68-85 | the i-th post before sorting is built from the i-th module |
| Posts.BuiltPostBasics | src/lib/posts.ts:70-83 | a post's slug comes from its path, its content is the trimmed parsed body, and its read time is that body's, at least one minute |
| Posts.BuiltPostDefaults | src/lib/posts.ts:77-82 | each field takes the header's value when truthy, and otherwise its default: slug, excerpt, today, `Juan Díaz`, `[]` |
| Posts.PostWithoutHeader | src/lib/posts.ts:19-24 | a file without a header gets every default, and its whole text, trimmed, as content |
| Posts.HeaderFieldReachesPost | src/lib/posts.ts:31-50 | the last header line naming a field decides that field of the post when its value is truthy |
| Posts.UntitledPostUsesSlug | src/lib/posts.ts:77 | a post without a title is titled by its slug |
| Posts.DefaultExcerptBound | src/lib/posts.ts:78 | a defaulted excerpt is at most 153 characters: a prefix of the content, then `...` |
| Posts.InsertByDate | src/lib/posts.ts:87 | inserting one post adds exactly that post |
| Posts.SortByDate | src/lib/posts.ts:87 | the sort is a permutation: same posts, same length |
| Posts.InsertByDateSorted | src/lib/posts.ts:87 | inserting into a newest-first list keeps it newest first |
| Posts.InsertByDateDatedAt | src/lib/posts.ts:87 | an inserted post goes ahead of the posts of its own date, and other dates are unchanged |
| Posts.SortByDateSorted | src/lib/posts.ts:87 | the sorted list is newest first |
| Posts.SortByDateStable | src/lib/posts.ts:87 | posts with equal dates keep their discovery order |
| Posts.StableOrderUnique | src/lib/posts.ts:87 | two newest-first orders of the same posts that keep each date's order are equal |
| Posts.SortByDateIsTheStableSort | src/lib/posts.ts:87 | any newest-first order that keeps each date's discovery order is the sort's result |
| Posts.LoadPost | src/lib/posts.ts:69-84 | the loop body parses one module and builds exactly its post |
| Posts.GetAllPosts | src/lib/posts.ts:65-88 | the result has one post per module; it is a permutation of the built posts, newest first, with equal dates in discovery order |
| Posts.FindBySlug | src/lib/posts.ts:92 | `find` gives null iff no post has the slug, and otherwise the first post that has it |
| Posts.HasSlugOfSamePosts | src/lib/posts.ts:91-92 | reordering the posts does not change which slugs are present |
| Posts.HasSlugOfBuilt | src/lib/posts.ts:71 | some built post has a slug iff some module's path gives that slug |
| Posts.GetPostBySlug | src/lib/posts.ts:90-93 | the result is the first match in the sorted listing; it is null iff no module's path gives the slug, and otherwise a built post with that slug |
| ThemeToggle.CycleTheme | src/components/ThemeToggle.tsx:8-12 | the next theme is always dark, light or system, and never the current one |
| ThemeToggle.DarkGoesToLight | src/components/ThemeToggle.tsx:9 | dark goes to light |
| ThemeToggle.LightGoesToSystem | src/components/ThemeToggle.tsx:10 | light goes to system |
| ThemeToggle.OtherGoesToDark | src/components/ThemeToggle.tsx:11 | every other value, system included, goes to dark |
| ThemeToggle.ThreePressesReturn | src/components/ThemeToggle.tsx:8-12 | three presses bring each theme back to itself, passing through the other two |

## Left out

- File discovery and asynchronous loading (`import.meta.glob` and the awaited module loads, src/lib/posts.ts:2, 69). The modules are given as a sequence of `(path, raw)` pairs, in the order the `for…in` loop visits them.
- The clock. The default date `new Date().toISOString().split('T')[0]` is the parameter `today`.
- Date parsing in the sort comparator. The timestamp of a date is an abstract integer function `stamp`. Dates that do not parse give NaN in the source, and that inconsistent comparator is not modelled.
- Posts.SortByDate: the engine sorts the array in place; the model sorts a value sequence, and its result is proved to be the unique stable descending order.
- Character units: characters are Dafny `char`s, not UTF-16 code units, so a `substring(0, 150)` that would split a surrogate pair is not modelled.
- Object-prototype effects of the record: a header key such as `__proto__` behaves specially in a JavaScript object and is treated here as an ordinary key.
- Slug uniqueness and non-emptiness. The source guarantees neither, so a file named `.md` gets the empty slug and two files can share a slug (the lookup then returns the first in the sorted listing).
- The `useTheme` state holder behind the theme button and the `setTheme` call. `CycleTheme` returns the value passed to `setTheme`.
- All React and UI code, and Markdown rendering by react-markdown.
