# Tab file path: a verified model of the tab-title computation

This project models the core of an Obsidian plugin that changes the title of
each open Markdown tab. Instead of the bare file name, a tab shows the file
name plus a configurable number of parent folders (the "depth"). The model
covers the following parts of `main.ts`:

- `getLeafName`: strips a trailing `.md` in any letter case.
- The segmentation `path.split('/').filter(Boolean)`.
- `getTruncatedPath`: keeps the file name and up to `depth` parent folders.
  With a depth of 0 or less, or a non-finite depth, it keeps the whole path.
- The depth field's change handler: `Number.parseInt(value, 10)`, then a
  clamp to a non-negative finite number, then save, then rewrite the titles.
- `DEFAULT_SETTINGS` and the default merge in `loadSettings`.
- `setTabTitles` and `setLeafTitle`: every open leaf gets its computed title
  written into its tab header's `aria-label` and into its title element's
  `innerText`, and that element is tagged with the `tab__title` class.

Files:

- `js_number.dfy` (module `JsNumber`): the ECMAScript Number behaviour the
  plugin relies on. A depth value is an unbounded integer or `NonFinite`.
  `ParseInt` follows section 19.2.5 of ECMA-262 for radix 10: skip leading
  white space, take an optional sign, then read the longest decimal digit run.
  No digits gives NaN. A value of at least 2^1024 - 2^970 rounds to Infinity.
  `DecimalText` is `String(n)` for n up to 2^53.
- `path_title.dfy` (module `PathTitle`): the title formatter.
- `settings.dfy` (module `Settings`): the settings record, its default
  merge and the rule that turns the field's text into a depth.
- `plugin.dfy` (module `TabFilePath`): the plugin and settings-tab classes.
  Leaves are objects whose label fields are updated in place.

Some functions only compute and carry no contract of their own: `Join`,
`TruncatedPath`, `TabTitle`, `ReadDigits` and `DepthFromField`. The lemmas
named in the table below state their properties.

Behaviour of the code worth knowing before reading the model:

- Titles are rewritten only on `layout-change` and `rename` events, on load,
  and after a settings change. There is no mutation watch and no reentrancy
  guard.
- Only the value typed into the settings field is clamped. A stored depth
  that is negative, NaN, infinite or not a number is used as loaded.
  `getTruncatedPath` treats every such value like depth 0: it shows the full
  path.

## Model

| member | source | states |
|---|---|---|
| `PathTitle.LeafName` | main.ts:81 | if the path ends in ".md" in any letter case, the result is the path minus exactly its last 3 characters; otherwise it is the path unchanged |
| `PathTitle.LeafNameStripsSuffix` | main.ts:81 | appending ".md", ".MD", ".Md" or ".mD" to a name and stripping gives back the name; only one suffix is removed |
| `PathTitle.Split` | main.ts:69 | `split('/')` gives at least one piece, no piece holds '/', and `Join` (`join('/')`) of the pieces gives back the string |
| `PathTitle.SplitJoin` | main.ts:69 | splitting a '/'-join of at least one '/'-free piece gives back exactly those pieces |
| `PathTitle.SplitSeparatorFree` | main.ts:69 | a string without '/' splits into itself alone |
| `PathTitle.SplitPrefixed` | main.ts:69 | splitting `p + "/" + s`, where `p` has no '/', gives `p` followed by the pieces of `s` |
| `PathTitle.NonEmptyParts` | main.ts:69 | `filter(Boolean)` keeps exactly the non-empty strings, and no empty string is left |
| `PathTitle.NonEmptyPartsCounts` | main.ts:69 | the filter keeps every non-empty string as many times as it occurs and drops every empty one (multisets) |
| `PathTitle.NonEmptyPartsKeepsAll` | main.ts:69 | the filter returns a list with no empty string unchanged |
| `PathTitle.NonEmptyPartsAppend` | main.ts:69 | filtering a concatenation is the concatenation of the filtered halves, so the filter keeps the order of what it keeps |
| `PathTitle.Segments` | main.ts:69 | every segment is non-empty and holds no '/' |
| `PathTitle.SplitWellFormedNoEmpty` | main.ts:69 | a path with no leading, trailing or doubled '/' splits into non-empty pieces only |
| `PathTitle.JoinWellFormed` | main.ts:69 | joining one or more non-empty, '/'-free segments gives a path with no leading, trailing or doubled '/' |
| `PathTitle.SegmentsRoundTrip` | main.ts:69 | joining the segments with '/' gives back the path if and only if the path is empty or has no leading, trailing or doubled '/' |
| `PathTitle.JoinConcat` | main.ts:110 | `join('/')` of two non-empty lists put together is the two joins with one '/' between them |
| `PathTitle.SplitConcat` | main.ts:69 | splitting `a + "/" + b` gives the pieces of `a` followed by the pieces of `b` |
| `PathTitle.SegmentsConcat` | main.ts:69 | the segments of `a + "/" + b` are the segments of `a` followed by those of `b`, however many '/' stand at the seam |
| `PathTitle.SegmentsSeparatorFree` | main.ts:69 | a non-empty string with no '/' is its own single segment |
| `PathTitle.KeptCount` | main.ts:104-110 | the number of segments kept never exceeds the number available |
| `PathTitle.KeptParts` | main.ts:103-111 | the kept segments are a suffix of the segments. With a depth of 0 or less, or a non-finite depth, all are kept; otherwise `min(depth + 1, count)` are kept, with no padding |
| `PathTitle.JoinSuffix` | main.ts:110 | joining a suffix of the segments gives a suffix of the joined string |
| `PathTitle.JoinEndsWithLast` | main.ts:110 | a '/'-join ends with its last piece |
| `PathTitle.TruncatedPathIsSuffix` | main.ts:103-111 | `TruncatedPath` (getTruncatedPath) returns a suffix of the full joined path, ends with the file-name segment when there is one, and returns the empty title for an empty segment list |
| `PathTitle.TruncatedPathSegments` | main.ts:103-111 | cutting the `TruncatedPath` title at its '/' gives back exactly the kept segments: none is lost, merged or padded |
| `PathTitle.TruncatedPathFullWhenNotPositive` | main.ts:104-107 | with a depth of 0 or less, or a non-finite depth, `TruncatedPath` is the full joined path |
| `PathTitle.TabTitleSegments` | main.ts:67-75 | cutting a leaf's `TabTitle` at its '/' gives exactly the segments of its ".md"-stripped path that the depth keeps |
| `PathTitle.TitleDepthOne` | main.ts:67-75 | for any three non-empty '/'-free names, "a/b/c.md" at depth 1 is shown as "b/c" |
| `PathTitle.TitleExampleDepthOne` | main.ts:67-75 | "notes/projects/alpha.md" at depth 1 gives "projects/alpha" |
| `PathTitle.TitleExampleShortPath` | main.ts:67-75 | "alpha.md" at depth 1 gives "alpha": a short path is shown whole |
| `PathTitle.TitleExampleDepthZero` | main.ts:67-75 | "a/b/c/d.md" at depth 0 gives "a/b/c/d" |
| `PathTitle.SegmentsExample` | main.ts:69 | "/a//b/" has the segments "a" and "b" |
| `JsNumber.TrimStart` | main.ts:142 | parseInt's leading trim removes a prefix made only of ECMAScript white space and line terminators, and stops at the first other character |
| `JsNumber.DecimalPrefix` | main.ts:142 | parseInt reads the longest prefix made only of decimal digits |
| `JsNumber.ParseInt` | main.ts:142 | a finite result of `Number.parseInt(value, 10)` lies strictly between -(2^1024 - 2^970) and 2^1024 - 2^970 |
| `JsNumber.ParseIntNegativeHasMinus` | main.ts:142 | a negative result needs a '-' as the first character after the white space |
| `JsNumber.DecimalText` | main.ts:140 | the full decimal digits of a depth below 10^21 (`String(depth)` for a depth up to 2^53) form a non-empty digit string; it starts with '0' only for 0, and is then exactly "0" |
| `JsNumber.DecimalTextValue` | main.ts:140 | the digits `DecimalText(n)` writes have the value n |
| `JsNumber.DecimalPrefixOfDigits` | main.ts:142 | the digit run of digits followed by a non-digit is exactly those digits |
| `JsNumber.ParseIntUnsignedStart` | main.ts:142 | text that starts with a digit is neither trimmed nor read for a sign: its leading digit run is read as a non-negative number |
| `JsNumber.ParseIntSignStart` | main.ts:142 | text that starts with '+' or '-' is read from the character after the sign, negated for '-' |
| `JsNumber.ParseIntDigits` | main.ts:142 | digits followed by anything that is not a digit parse to their value, or to a non-finite number when the value is too large for a double |
| `JsNumber.TrimStartWhiteSpace` | main.ts:142 | the trim removes all of a white-space prefix and nothing after it |
| `JsNumber.ParseIntSkipsWhiteSpace` | main.ts:142 | white space in front of text that does not start with white space does not change what parseInt returns |
| `JsNumber.ParseIntSign` | main.ts:142 | '+' before digits changes nothing and '-' negates their value; an overflowing run is non-finite either way |
| `JsNumber.ParseIntSignRead` | main.ts:142 | '+' or '-', then digits, then a non-digit: parseInt reads exactly that digit run, with the sign |
| `JsNumber.ParseIntSignedStart` | main.ts:142 | text made of an optional '+' or '-', then digits, then a non-digit, starts with no white space. It reads as the digit value, negated after '-', or as a non-finite number at or above 2^1024 - 2^970 |
| `JsNumber.ParseIntSigned` | main.ts:142 | white space, then an optional '+' or '-', then digits, then anything that is not a digit: parseInt skips the white space. The result is the digit value, negated after '-', or a non-finite number when the value is at least 2^1024 - 2^970 |
| `JsNumber.ParseIntDecimalText` | main.ts:140-142 | parsing the digits `DecimalText(n)` writes gives back n, so the field's text `String(n)` reads back as n for n up to 2^53 |
| `JsNumber.ParseIntNoDigits` | main.ts:142 | input with no digit after optional white space and sign parses to NaN |
| `JsNumber.ParseIntNegative` | main.ts:142 | input that starts with '-' after white space never parses to a positive number |
| `Settings.MergeSettings` | main.ts:114 | `Object.assign({}, DEFAULT_SETTINGS, loaded)` with DEFAULT_SETTINGS of main.ts:14-16: the depth is 1 when nothing was stored or the stored object has no depth; a stored depth overrides the default |
| `Settings.Persisted` | main.ts:117-119 | the object `saveSettings` writes loads back, through the default merge, as exactly the settings that were saved |
| `Settings.ClampDepth` | main.ts:143 | a finite non-negative number is kept; a negative or non-finite one becomes 0 |
| `Settings.DepthFromFieldPositive` | main.ts:142-143 | `DepthFromField` (parse, then clamp) gives a positive depth exactly when the text parses to a positive finite number, and that depth is the number parsed; every depth it gives is below 2^1024 - 2^970 |
| `Settings.DepthFromDigits` | main.ts:142-143 | field text that starts with digits sets the depth those digits spell, whatever follows them |
| `Settings.DepthFromSignedDigits` | main.ts:142-143 | white space and a '+' in front of the digits do not change the depth; a '-' in front sets 0 |
| `Settings.DepthFromHugeDigits` | main.ts:142-143 | a digit string too large for a double parses to Infinity and sets depth 0 |
| `Settings.DepthFromNonNumeric` | main.ts:142-143 | field text with no digit after optional white space and sign sets depth 0 |
| `Settings.DepthFromNegative` | main.ts:142-143 | field text that starts with '-' after white space sets depth 0 |
| `Settings.DepthFieldRoundTrip` | main.ts:140-143 | submitting the text the field shows for a depth below 10^21 keeps that depth |
| `Settings.DepthFieldTrailingLetters` | main.ts:142-143 | "12abc" sets depth 12 |
| `Settings.DepthFieldFraction` | main.ts:142-143 | "3.9" sets depth 3 |
| `Settings.DepthFieldHexPrefix` | main.ts:142-143 | "0x1A" sets depth 0, because radix 10 does not read a hexadecimal prefix |
| `Settings.DepthFieldZeroExamples` | main.ts:142-143 | "-3", "abc" and the empty field each set depth 0 |
| `TabFilePath.TabFilePathPlugin.constructor` | main.ts:18-19 | the settings start at the defaults |
| `TabFilePath.TabFilePathPlugin.OnLoad` | main.ts:21-61 | after load, the settings are the merge of the stored data over the defaults, every leaf shows the title for its path at the loaded depth, every title element is tagged, and no path changes |
| `TabFilePath.TabFilePathPlugin.LoadSettings` | main.ts:113-115 | the settings become the stored data merged over the defaults |
| `TabFilePath.TabFilePathPlugin.SaveSettings` | main.ts:117-119 | the object written to storage loads back as the current settings |
| `TabFilePath.TabFilePathPlugin.LeafTitles` | main.ts:66-71 | there is one title per leaf, in enumeration order, and each is the title computed from that leaf's own path at the current depth |
| `TabFilePath.TabFilePathPlugin.SetTabTitles` | main.ts:63-76 | afterwards every leaf's aria-label and inner text both equal the title of its own path, every leaf is tagged, and no path changes. When the labels were already up to date, the pass writes back identical values |
| `TabFilePath.TabFilePathPlugin.WriteTitles` | main.ts:73-75 | the k-th title ends up in both label fields of the k-th leaf, every leaf is tagged, and no path changes, provided a leaf listed twice is given one title |
| `TabFilePath.TabFilePathPlugin.SetLeafTitle` | main.ts:84-101 | both label fields get the title, the title element is tagged, and the path is untouched |
| `TabFilePath.TabFilePathSettingTab.constructor` | main.ts:125-128 | the settings tab keeps a reference to the plugin it edits |
| `TabFilePath.TabFilePathSettingTab.OnDepthChange` | main.ts:141-146 | the new depth is the clamped parse of the text and nothing else in the settings changes. The saved object loads back as the new settings, every leaf shows its title at the new depth, every title element is tagged, and no path changes |
| `TabFilePath.TabFilePathSettingTab.ApplyDepth` | main.ts:143-145 | the given depth is stored and nothing else in the settings changes. The saved object loads back as the new settings, every leaf shows its title at that depth, every title element is tagged, and no path changes |

## Left out

- Reading the path off a leaf is left out. The `isDeferred` branch chooses between `leaf.view.state.file` and `leaf.view.file.path` (main.ts:80). Each leaf's `path` field stands for whichever string that branch yields.
- `getLeavesOfType('markdown')` is a host call (main.ts:65). The open leaves are a parameter of `SetTabTitles`, `OnLoad` and `OnDepthChange`.
- The DOM is reduced to fields of `Leaf` (main.ts:98-100). `setAttribute('aria-label', …)` becomes the `ariaLabel` field and `innerText` becomes the `innerText` field. `classList.add('tab__title')` becomes the `tagged` flag: the class list is not modelled as a set, so the model does not say that other classes stay unchanged.
- Event registration and the 100 ms debounce are timer and host-event plumbing (main.ts:47-61). `addSettingTab` and the construction of the settings panel are host UI (main.ts:45, main.ts:130-141). None of them is modelled.
- `loadData` and `saveData` are asynchronous storage. The stored object is a parameter of `LoadSettings`, and `SaveSettings` returns the object it would write. Keys other than `depth` that `Object.assign` would copy from the stored object are not modelled.
- `setTabTitles` computes the segments in its `map` and calls `getTruncatedPath` in its `forEach` (main.ts:66-75). `LeafTitles` computes the whole title in its loop, and `WriteTitles` then writes the titles. The truncation is pure, so the titles are the same.
- The `fileName` computed at main.ts:70 is never used, so the model does not compute it.
- The constructor: in the source `settings` stays unset until `onload` loads it. The model starts it at the defaults.
- Floating point: a depth is an exact unbounded integer or `NonFinite`. `NonFinite` covers NaN, both infinities and stored values that are not numbers. Stored fractional depths such as 1.5 are not modelled; the settings field never produces one. Finite parses above 2^53 are kept exact instead of being rounded to a double. Any such depth already keeps every segment, so titles are unaffected. The overflow bound assumes correctly rounded string-to-number conversion. ECMA-262 lets an implementation ignore digits after the 20th, which could move the bound slightly.
- `JsNumber.DecimalText`: covers only depths below 10^21. At or above 10^21, `String(n)` uses exponent notation ("1e+21"), which parses back as 1. From 2^54 on, `String(n)` may write fewer significant digits followed by zeros (`String(2^60)` is "1152921504606847000"), while `DecimalText` writes every digit; the program's `parseInt` reads either text back as the same double.
- Strings are sequences of Unicode scalar values rather than UTF-16 code units. The ".md" suffix test looks at its last three characters with ASCII case folding. No other character lower-cases to '.', 'm' or 'd', so this matches `toLowerCase().endsWith('.md')`.
