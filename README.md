# CV viewer: keyword emphasis, zoom, tilt and theme, in Dafny

This project models the logic of a small browser CV viewer. The viewer shows a
résumé as one document. The document can be zoomed, tilted in a 3D view that
follows the pointer, and switched between a light and a dark theme. Its free
text gets keyword emphasis. Five modules, one per component:

- `Emphasis` (emphasis.dfy) models `highlightKeywords` and the summary's
  paragraph split from `CVContent.tsx`. `\b` is a word boundary over the ASCII
  class `\w`. A `.` in a keyword is a wildcard that matches any character
  except a line terminator, because the keyword goes into the regular
  expression unescaped. One global replace pass is `ReplaceFrom`: it tries
  each position from left to right, replaces a match, and resumes right after
  the matched text. `HighlightKeywords` is the `forEach` loop, one pass per
  keyword in list order. It is proved equal to `ApplyPasses` over the keyword
  list, which the lemmas are about.
- `Toolbar` (toolbar.dfy) models the zoom buttons' clamps and the percentage
  label. Zoom is counted in hundredths: 85 is the default, 10 is one step,
  and the range is 40 to 150.
- `Theme` (theme.dfy) holds the browser state behind the theme. `Host` is a
  class with `rootDark` (the root element carries the class `dark`) and
  `stored` (the `theme` entry of local storage). `Toggle` is the effect of a
  theme switch on that state, and `ApplyStored` is the container's mount
  effect.
- `Sidebar` (sidebar.dfy) and `Container` (container.dfy) are classes. Their
  fields are the components' React state and the motion values `x`/`y`. Their
  methods are the event handlers and mount effects. The sidebar's theme click
  and the container's `toggleTheme` are coded differently, but both are
  proved to have the effect `Theme.Toggle`.

`Container.PageLoad` runs the mount effects in React's order: the child
(sidebar) first, then the parent (container). So the sidebar's icon copy
`isDark` shows the root's class from before the container applies the stored
theme. With "dark" stored and a light root at load, the container and the root
end up dark while the sidebar's copy says light. Its contract states this.

Both components write the root class and `localStorage` directly.

The container's `toggleTheme` is modelled but is not passed to any child
(CVContainer.tsx:98 passes only `is3D` and `setIs3D`). The toggle in use is
the sidebar's.

## Model

| member | source | states |
|---|---|---|
| `Emphasis.HighlightKeywords` | src/components/cv/CVContent.tsx:9-41 | the loop returns the result of one replace pass per keyword, in list order, each pass over the previous result (`ApplyPasses` over `Keywords`) |
| `Emphasis.KeywordsNonSelfOverlapping` | src/components/cv/CVContent.tsx:10-34 | every listed keyword is non-empty, and no two whole-word matches of the same keyword can overlap in any text |
| `Emphasis.Keywords` | src/components/cv/CVContent.tsx:10-34 | definition: the 23 keywords, in source order |
| `Emphasis.IsWordChar` | src/components/cv/CVContent.tsx:37 | definition: `\w` without the `u` and `i` flags: ASCII letters, digits and '_' |
| `Emphasis.IsLineTerminator` | src/components/cv/CVContent.tsx:37 | definition: the characters `.` does not match without the `s` flag: '\n', '\r', U+2028 and U+2029 |
| `Emphasis.CharMatches` | src/components/cv/CVContent.tsx:37 | definition: a keyword character is literal, except the unescaped '.', which matches any character that is not a line terminator |
| `Emphasis.IsBoundary` | src/components/cv/CVContent.tsx:37 | definition: `\b` holds at a position exactly when one side of it is a word character |
| `Emphasis.CharsMatch` | src/components/cv/CVContent.tsx:37 | definition: the keyword's characters, as a pattern, match the text from a position on |
| `Emphasis.MatchesAt` | src/components/cv/CVContent.tsx:37 | definition: `\bkw\b` matches at i: a boundary on both sides over ASCII `\w`, and the keyword's characters match in between |
| `Emphasis.Wrap` | src/components/cv/CVContent.tsx:38 | definition: the replacement `<strong>kw</strong>`, with the keyword as listed |
| `Emphasis.ReplaceFrom` | src/components/cv/CVContent.tsx:37-38 | definition: the global replace of `\bkw\b` by `<strong>kw</strong>`, scanning left to right from a position and resuming after each match |
| `Emphasis.ReplaceAll` | src/components/cv/CVContent.tsx:37-38 | definition: one `String.prototype.replace` pass over the whole text |
| `Emphasis.ReplaceFromNoMatch` | src/components/cv/CVContent.tsx:37-38 | with no whole-word match at or after a position, the pass copies the rest of the text unchanged |
| `Emphasis.ReplaceFromFirstMatch` | src/components/cv/CVContent.tsx:37-38 | the leftmost match at or after a position is replaced by `<strong>kw</strong>`; the text before it is copied; the scan resumes after the matched text of the original, so the replacement is never rescanned |
| `Emphasis.ReplaceFromLength` | src/components/cv/CVContent.tsx:37-38 | a pass never shortens the text, and it lengthens the text exactly when some match is left |
| `Emphasis.ReplaceAllIdentity` | src/components/cv/CVContent.tsx:37-38 | a pass returns its input if and only if the keyword has no whole-word match in it |
| `Emphasis.MatchIsWrapped` | src/components/cv/CVContent.tsx:37-38 | a match that no earlier match overlaps is wrapped: the output ends with the replacement followed by the output of the scan resumed after the match |
| `Emphasis.NoOverlappingMatches` | src/components/cv/CVContent.tsx:37 | for a keyword of the non-self-overlapping kind, no match starts inside another match |
| `Emphasis.EveryMatchWrapped` | src/components/cv/CVContent.tsx:37-38 | for such a keyword, every whole-word case-sensitive occurrence is wrapped by its pass |
| `Emphasis.ApplyPasses` | src/components/cv/CVContent.tsx:35-40 | definition: one pass per keyword of a list, in list order, each over the previous result |
| `Emphasis.Highlighted` | src/components/cv/CVContent.tsx:35-40 | definition: `highlightKeywords`, the passes of the 23 listed keywords in their order |
| `Emphasis.ApplyPassesAppend` | src/components/cv/CVContent.tsx:35-39 | the passes for a list followed by another are the first list's passes and then the second's |
| `Emphasis.ApplyPassesAround` | src/components/cv/CVContent.tsx:35-39 | the pass of the keyword at a position runs on the result of the passes before it, and the passes after it run on its result |
| `Emphasis.HighlightedByOnePass` | src/components/cv/CVContent.tsx:35-40 | when only one keyword's pass changes the text, and no later keyword matches what it produced, that pass's output is the highlighted text |
| `Emphasis.ApplyPassesLength` | src/components/cv/CVContent.tsx:35-39 | the passes never shorten the text |
| `Emphasis.ApplyPassesIdentity` | src/components/cv/CVContent.tsx:35-39 | the passes return their input if and only if no keyword of the list has a whole-word match in it |
| `Emphasis.HighlightedIdentity` | src/components/cv/CVContent.tsx:35-40 | `highlightKeywords` returns a text unchanged if and only if no keyword has a whole-word occurrence in it |
| `Emphasis.PrefixPassSplitsLonger` | src/components/cv/CVContent.tsx:11-20 | where a keyword starts a longer one (React / React Native), the shorter keyword's pass wraps it inside every whole-word occurrence of the longer one and copies the character after it |
| `Emphasis.PrefixOfLongerMatches` | src/components/cv/CVContent.tsx:11-20 | inside a whole-word occurrence of React Native (Expo Go) the shorter keyword matches as a whole word, and no match of it starts right after it |
| `Emphasis.NoLongerMatchAtWrapped` | src/components/cv/CVContent.tsx:36-39 | whatever text precedes the wrapped shorter keyword, the longer keyword's later pass cannot match at it, because the closing tag follows it |
| `Emphasis.PrefixKeywordsComeFirst` | src/components/cv/CVContent.tsx:11-20 | React (position 0) precedes React Native (7) and Expo (8) precedes Expo Go (9), and both pairs meet the two lemmas' conditions |
| `Emphasis.NoMatchBeforeWordChar` | src/components/cv/CVContent.tsx:37 | whole words only: no match where a word character follows |
| `Emphasis.NoMatchAfterWordChar` | src/components/cv/CVContent.tsx:37 | whole words only: no match right after a word character |
| `Emphasis.WholeWordExamples` | src/components/cv/CVContent.tsx:37 | "Reactive", "GitHub" and the lower-case "react" are left as they are by the React and Git passes |
| `Emphasis.ReactNativeExample` | src/components/cv/CVContent.tsx:37-38 | the React pass turns "React Native" into `<strong>React</strong> Native` |
| `Emphasis.ExpoGoExample` | src/components/cv/CVContent.tsx:37-38 | the Expo pass turns "Expo Go" into `<strong>Expo</strong> Go` |
| `Emphasis.WildcardExample` | src/components/cv/CVContent.tsx:37-38 | the unescaped dot matches any character: the Next.js pass rewrites "Next-js" to `<strong>Next.js</strong>` |
| `Emphasis.HighlightReactNative` | src/components/cv/CVContent.tsx:10-40 | `highlightKeywords("React Native")` is `<strong>React</strong> Native`: React is emphasised, and React Native, split by the earlier React pass, never is |
| `Emphasis.HighlightExpoGo` | src/components/cv/CVContent.tsx:10-40 | `highlightKeywords("Expo Go")` is `<strong>Expo</strong> Go`, for the same reason with Expo before Expo Go |
| `Emphasis.SentenceReactPass` | src/components/cv/CVContent.tsx:37-38 | the React pass over "Built with React and Reactive patterns" wraps the whole word React and leaves Reactive as it is |
| `Emphasis.HighlightSentence` | src/components/cv/CVContent.tsx:10-40 | `highlightKeywords("Built with React and Reactive patterns")` emphasises only the whole word React |
| `Emphasis.SplitFrom` | src/components/cv/CVContent.tsx:51 | definition: `String.prototype.split` with a non-empty string separator; the leftmost occurrence ends a piece and the search resumes after it |
| `Emphasis.Split` | src/components/cv/CVContent.tsx:51 | definition: the split of the whole text |
| `Emphasis.Join` | src/components/cv/CVContent.tsx:51 | definition: the pieces with the separator between consecutive ones, the inverse the split lemmas are stated against |
| `Emphasis.Paragraphs` | src/components/cv/CVContent.tsx:51 | definition: `summary.split('\n\n')` |
| `Emphasis.SplitFromCount` | src/components/cv/CVContent.tsx:51 | the split has exactly one piece more than the separator has non-overlapping occurrences, counted left to right |
| `Emphasis.SplitFromProperties` | src/components/cv/CVContent.tsx:51 | `split` with a string separator gives at least one piece; joining the pieces with the separator rebuilds the text; no piece holds the separator |
| `Emphasis.ParagraphsProperties` | src/components/cv/CVContent.tsx:51 | joining the summary's paragraphs with "\n\n" gives the summary back; no paragraph holds "\n\n"; the summary is two characters longer than the paragraphs together for each paragraph after the first; there is one paragraph more than the summary has non-overlapping "\n\n" |
| `Emphasis.HighlightEach` | src/components/cv/CVContent.tsx:51-52 | definition: `highlightKeywords` applied to each paragraph (or bullet, :71-72), one result per text and in order (the ensures unfold the comprehension) |
| `Emphasis.ParagraphMatchInSummary` | src/components/cv/CVContent.tsx:51-52 | a whole-word keyword match inside a paragraph is one in the summary too, since paragraphs end at a line feed or at an end of the summary |
| `Emphasis.HighlightParagraphsUnchanged` | src/components/cv/CVContent.tsx:51-52 | a summary in which no keyword matches renders as its paragraphs unchanged, and they join back to the summary |
| `Toolbar.ZoomOut` | src/components/cv/CVToolbar.tsx:20 | the result is at least 0.4 and is either 0.4 or one step below the zoom |
| `Toolbar.ZoomIn` | src/components/cv/CVToolbar.tsx:24 | the result is at most 1.5 and is either 1.5 or one step above the zoom |
| `Toolbar.ZoomAtBounds` | src/components/cv/CVToolbar.tsx:20-24 | zoom-out at 0.4 gives 0.4 and zoom-in at 1.5 gives 1.5 |
| `Toolbar.ZoomExactStep` | src/components/cv/CVToolbar.tsx:20-24 | from 0.5 or more zoom-out takes exactly one step down; from 1.4 or less zoom-in takes exactly one step up |
| `Toolbar.ZoomStaysInRange` | src/components/cv/CVToolbar.tsx:20-24 | each button keeps a zoom within [0.4, 1.5] |
| `Toolbar.ZoomInverse` | src/components/cv/CVToolbar.tsx:20-24 | zoom-in undoes a full zoom-out step, and zoom-out undoes a full zoom-in step |
| `Toolbar.PressAllStaysInRange` | src/components/cv/CVToolbar.tsx:20-24 | any sequence of presses from a zoom within [0.4, 1.5] stays within it |
| `Toolbar.NatToString` | src/components/cv/CVToolbar.tsx:23 | a number prints as a non-empty run of decimal digits with no leading zero |
| `Toolbar.NatToStringValue` | src/components/cv/CVToolbar.tsx:23 | reading the printed digits back gives the number |
| `Toolbar.IntToString` | src/components/cv/CVToolbar.tsx:23 | definition: the decimal text of an integer, with a leading '-' below zero |
| `Toolbar.ZoomLabel` | src/components/cv/CVToolbar.tsx:23 | definition: the label `Math.round(zoom * 100)` followed by '%' |
| `Toolbar.ZoomLabelReadsBack` | src/components/cv/CVToolbar.tsx:23 | in range, the label is two or three digits and a final '%', and the digits read back as the zoom in hundredths (`Math.round(zoom * 100)`) |
| `Theme.ThemeName` | src/components/cv/CVContainer.tsx:75 | definition: the value stored under `theme`, "dark" or "light" (also written at CVSidebar.tsx:23,27) |
| `Theme.StoredIsDark` | src/components/cv/CVContainer.tsx:26 | definition: `savedTheme === 'dark'`, so only the exact string "dark" selects the dark theme (also CVContainer.tsx:18) |
| `Theme.Toggle` | src/components/cv/CVContainer.tsx:62-78 | definition: the effect of a theme switch on the browser state: the root's class is negated and storage records the new theme |
| `Theme.ApplyStored` | src/components/cv/CVContainer.tsx:24-34 | definition: the mount effect on the browser state: the root is dark exactly when "dark" is stored, storage unchanged |
| `Theme.ToggleFlips` | src/components/cv/CVContainer.tsx:62-78 | a toggle negates the root's class; afterwards storage holds "dark" if the root is dark, else "light" |
| `Theme.ToggleTwice` | src/components/cv/CVSidebar.tsx:18-30 | two toggles restore the root's class, and restore storage too when it named the root's theme before |
| `Theme.ToggleIgnoresStored` | src/components/cv/CVContainer.tsx:63-77 | a toggle reads the root's class, not the stored entry: what was stored does not change its result |
| `Theme.ApplyStoredProperties` | src/components/cv/CVContainer.tsx:24-34 | after the mount effect the root is dark exactly when "dark" is stored; storage is unchanged; the state is consistent exactly when "dark" or "light" was stored; applying it again changes nothing |
| `Theme.ReloadKeepsToggledTheme` | src/components/cv/CVContainer.tsx:24-78 | a reload after a toggle (the mount effect reading what the toggle stored) shows the toggled theme |
| `Container.RotateXRange` | src/components/cv/CVContainer.tsx:41 | definition: the output range of the rotation about the horizontal axis, 5deg to -5deg in 3D and 0deg to 0deg otherwise |
| `Container.RotateYRange` | src/components/cv/CVContainer.tsx:42 | definition: the output range of the rotation about the vertical axis, -5deg to 5deg in 3D and 0deg to 0deg otherwise |
| `Container.Interpolate` | src/components/cv/CVContainer.tsx:41-42 | definition: `useTransform` as a clamped linear map from [-0.5, 0.5] onto an output range |
| `Container.InitialIsDark` | src/components/cv/CVContainer.tsx:15-21 | definition: the first render's theme copy, dark exactly when a window exists and "dark" is stored |
| `Container.FlatViewDoesNotRotate` | src/components/cv/CVContainer.tsx:41-42 | with 3D off both output ranges are 0deg to 0deg, so every offset gives no rotation |
| `Container.TiltBounded` | src/components/cv/CVContainer.tsx:41-42 | each rotation stays within ±5 degrees, and the centred pointer gives none |
| `Container.TiltMonotone` | src/components/cv/CVContainer.tsx:41-42 | in 3D the rotation about the vertical axis grows with the horizontal offset, and the rotation about the horizontal axis shrinks as the vertical offset grows (the sign flip of the two ranges) |
| `Container.CVContainer.constructor` | src/components/cv/CVContainer.tsx:9-37 | zoom 0.85, 3D off, offsets 0; the theme copy is dark exactly when a window exists and "dark" is stored |
| `Container.CVContainer.MountEffect` | src/components/cv/CVContainer.tsx:24-34 | the root's class is set from storage (`Theme.ApplyStored`) and the theme copy equals it; nothing else changes |
| `Container.CVContainer.SetIs3D` | src/components/cv/CVContainer.tsx:12-14 | the 3D flag takes the requested value; nothing else changes |
| `Container.CVContainer.MouseMove` | src/components/cv/CVContainer.tsx:46-55 | with 3D on and the document mounted the offsets take the pointer's values; otherwise x and y are unchanged; nothing else changes |
| `Container.CVContainer.MouseLeave` | src/components/cv/CVContainer.tsx:57-60 | both offsets become 0; nothing else changes |
| `Container.CVContainer.ToggleTheme` | src/components/cv/CVContainer.tsx:62-78 | the browser state becomes `Theme.Toggle` of the old one, and the theme copy equals the new root class |
| `Container.CVContainer.Reset` | src/components/cv/CVContainer.tsx:84-89 | zoom 0.85, 3D off, offsets 0 from any state; the theme, its copy and storage are not touched |
| `Container.CVContainer.ZoomOutClick` | src/components/cv/CVToolbar.tsx:20 | the zoom becomes `Toolbar.ZoomOut` of the old zoom and stays in range |
| `Container.CVContainer.ZoomInClick` | src/components/cv/CVToolbar.tsx:24 | the zoom becomes `Toolbar.ZoomIn` of the old zoom and stays in range |
| `Container.CVContainer.Sidebar3DClick` | src/components/cv/CVContainer.tsx:98 | the sidebar's 3D button negates the container's flag and touches no theme state |
| `Container.PageLoad` | src/components/cv/CVContainer.tsx:15-34 | after a load the root is dark exactly when "dark" is stored and the container's copy agrees; the sidebar's copy shows the root's class from before the stored theme was applied |
| `Sidebar.CVSidebar.constructor` | src/components/cv/CVSidebar.tsx:11 | the sidebar's theme copy starts light |
| `Sidebar.CVSidebar.MountEffect` | src/components/cv/CVSidebar.tsx:13-16 | the sidebar's copy takes the root's current class |
| `Sidebar.CVSidebar.ThemeClick` | src/components/cv/CVSidebar.tsx:18-30 | the browser state becomes `Theme.Toggle` of the old one (the same effect as the container's `toggleTheme`), and the copy equals the new root class; the 3D flag is not touched |
| `Sidebar.CVSidebar.Is3DClick` | src/components/cv/CVSidebar.tsx:32-34 | the value requested from `setIs3D` is the opposite of the flag the sidebar was given; nothing is changed |

## Left out

- `window.print()` behind the "Descargar PDF" button is host I/O and is not modelled. No other export exists in the code.
- framer-motion is a foreign animation library: its springs, the reflection opacity, and the real `useTransform`. `Container.Interpolate` stands for `useTransform` as an ideal clamped linear map, and nothing is smoothed.
- The pointer offsets come from `getBoundingClientRect` and float division. They are parameters of `MouseMove`.
- Floating point: zoom is an exact count of hundredths, so the drift of repeated 0.1 steps is not modelled, and `Math.round(zoom * 100)` is the count itself.
- React is not modelled as such. State setters are immediate assignments, and re-renders and batching are not modelled. The effects run once, in the order `PageLoad` gives them.
- Real `localStorage` and `document.documentElement` are the two `Host` fields. Storage errors are not modelled; the code has no handler for them. Server rendering (no `window`) appears only as the `hasWindow` parameter of the container's first render.
- `console.log` calls and all JSX layout and styling are not modelled. This includes the experience, education and contact blocks (they keep sequence order), `src/components/ui/badge.tsx` with its `cn` helper, and `tailwind.config.ts`.
- The HTML-injection risk of rendering the emphasised text as raw markup is not modelled; browser parsing is out of scope.
- Characters are Unicode scalar values, while JavaScript strings are UTF-16 code units. A `.` next to a character outside the Basic Multilingual Plane matches one code unit in the source and a whole character here.
- `Emphasis.ReplaceFrom` requires a non-empty keyword (every listed keyword is non-empty). It reads a keyword's characters as literals apart from `.`, and the replacement string as plain text. The list uses no other regular-expression metacharacter and no `$`.
- `Emphasis.NoLongerMatchAtWrapped`: the ordering is proved for the pair of passes only. The React pass splits every whole-word "React Native" (`PrefixPassSplitsLonger`), and the React Native pass cannot match at the wrapped "React", wherever it stands in the text. That none of the passes in between rebuilds a match is not proved for every text; it is proved through all 23 passes for "React Native", "Expo Go" and one sentence (`HighlightReactNative`, `HighlightExpoGo`, `HighlightSentence`).
