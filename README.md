# ChatOutline outline engine in Dafny

ChatOutline is a browser extension. It adds an outline panel to chat sites
(ChatGPT, DeepSeek, Tongyi, Doubao, and any other page through a generic
strategy). Its content script, `content.js`, does several jobs:

- It finds the message elements on the page and turns them into *turns*.
- It groups the turns into question/answer *pairs*.
- It gives every element a stable id.
- It builds the list of outline *items* with an id-to-position map.
- It tracks which item is nearest the reading line, a jump history for back
  and forward, and a single debounced rebuild timer.

This project models that engine and proves properties of it. Host-page
elements become abstract identifiers (`Common.Elem`). Whatever the engine
reads from the DOM through selectors becomes a given function in
`Page.Dom`: texts, roles, containment, the panel/chrome/wrapper tests, and
the presence of code.

Modules, in dependency order:

- `Common`: `Option`, `slice(0, n)` (`Take`), `filter` (`Filter`), and the
  sequence predicates the contracts use.
- `Text`: the core of `normalizeText`, `stripLeadingRolePrefixes`,
  `pickPreviewFromText`, `clamp` and `buildSearchTextFromRaw`.
- `Format`: decimal rendering of an index, `toString(16)`, and the 8-digit
  zero padding.
- `Hash`: `hash32`. This is 32-bit FNV-1a, written in the source as
  shift-and-add. The model proves that this form equals multiplying by the
  FNV prime modulo 2^32.
- `Page`: the page as seen by the engine.
- `Identity`: `stableIdFor`.
  - The pure function `StableId` works over the two id tables: the
    `data-chatoutline-id` attributes and the weak map.
  - The class `IdentityStore` updates those tables in place.
- `Candidates`: `looksLikeMessageEl`, `uniqueElements`,
  `filterToLeafCandidates`, and the generic strategy's length ranking.
- `Outline`: `buildTurns`, `buildPairsFromTurns`, and the item mapping and
  `idToIndex` map of `rebuildIndex`.
- `Viewport`: the argmin loop of `updateActiveFromViewport`.
- `Navigation`: the `history`/`future` stacks and the rebuild timer slot.
- `State`: the engine's `state` object, as a class whose methods are the
  state-changing operations.

How the code is modelled:

- Each loop in the source becomes a Dafny method with a loop and
  invariants, proved equal to a pure specification function:
  - `Hash.Hash32`
  - `Candidates.UniqueElements`
  - `Candidates.FilterToLeafCandidates`
  - `Outline.BuildTurns`
  - `Outline.BuildPairsFromTurns`
  - `Viewport.ActiveFromTops`
- Each state update becomes a method whose `ensures` gives the new state as
  that function of the old state. The lemmas then state the properties of
  those functions.
- The regular expressions of the text pipeline are written out as
  recursive functions:
  - `\s` is the set of characters in `Text.IsSpace`.
  - The role-label alternation is tried label by label in the pattern's
    order (`Text.AfterFirstLabel`).
  - The `i` flag compares letters after `AsciiLower`. Without the `u` flag,
    JavaScript's case folding never maps a non-ASCII character to an ASCII
    one. The labels' other characters (CJK) have no case, so ASCII folding
    is exact here.

## Model

| member | source | states |
|---|---|---|
| Common.Filter | content.js:95 | `Array.prototype.filter`: the reference definition; `FilterSpec` states what it keeps |
| Common.Take | content.js:290-292 | `slice(0, n)` yields the first n elements of `s`, or all of them when there are fewer |
| Common.FilterSpec | content.js:95 | `filter` keeps exactly the elements satisfying the predicate, as an order-preserving subsequence, never more than the input |
| Common.SubsequenceElements | content.js:95 | an order-preserving subsequence is no longer and has no new elements |
| Text.TrimStart | content.js:373 | the result is a suffix of the input that does not start with whitespace |
| Text.TrimStartDropsSpaces | content.js:373 | every character `trimStart` drops is whitespace |
| Text.TrimEnd | content.js:373 | the result is a prefix of the input that does not end with whitespace |
| Text.TrimEndDropsSpaces | content.js:373 | every character `trimEnd` drops is whitespace |
| Text.Trim | content.js:373 | `trim` leaves no whitespace at either end and never lengthens |
| Text.TrimKeepsShapes | content.js:373 | trimming keeps "only plain spaces", "no zero-width space" and "no colon" |
| Text.TrimOfTrimmed | content.js:383 | trimming an already trimmed string changes nothing |
| Text.TrimEmptyIff | content.js:373 | `trim` yields "" exactly when every character is whitespace |
| Text.CollapseWhitespace | content.js:371 | `replace(/\s+/g, " ")` is empty iff its input is, keeps a visible first character and turns a whitespace first character into a space; the run rule is stated by `CollapseAroundVisible` and `CollapseSpaceRun` |
| Text.CollapseLeavesPlainSpaces | content.js:371 | after collapsing, the only whitespace character left is the plain space |
| Text.CollapseAroundVisible | content.js:371 | a visible character splits the collapse: the text on each side of it is collapsed separately, so words are never joined |
| Text.CollapseBeforeVisible | content.js:371 | the collapse of a text followed by a part starting with a visible character is the two collapses concatenated |
| Text.CollapseSpaceRun | content.js:371 | a non-empty run of whitespace collapses to exactly one plain space |
| Text.CollapseKeepsVisible | content.js:371 | the non-whitespace characters of the output are exactly those of the input, every occurrence, in order |
| Text.RemoveZwsp | content.js:372 | `replace(/\u200B/g, "")` yields an order-preserving subsequence of the input, shorter by exactly the number of zero-width spaces, with none left |
| Text.RemoveZwspKeepsVisible | content.js:372 | removing zero-width spaces keeps every visible character, each occurrence, in order |
| Text.RemoveZwspKeepsPlainSpaces | content.js:372 | removing zero-width spaces keeps "only plain spaces" |
| Text.NormalizeText | content.js:369-374 | `normalizeText` as the composition collapse, remove zero-width spaces, trim; its properties are `NormalizeKeepsVisible`, `NormalizeTextShape` and `NormalizeEmptyIff` |
| Text.NormalizeTextShape | content.js:369-374 | the output of `normalizeText` has only plain spaces, no zero-width space, no whitespace at either end, and is no longer than its input |
| Text.TrimKeepsVisible | content.js:373 | `trim` keeps every visible character, each occurrence, in order |
| Text.NormalizeKeepsVisible | content.js:369-374 | the visible characters (neither whitespace nor zero-width space) of `normalizeText`'s output are exactly those of its input, every occurrence, in order |
| Text.NormalizeEmptyIff | content.js:369-374 | `normalizeText` returns "" exactly when its input is only whitespace and zero-width spaces |
| Text.SuffixShapes | content.js:379-382 | removing a leading part keeps the character-wise shapes |
| Text.StartsWithIgnoringCaseLength | content.js:380 | a case-insensitive match of a label needs at least the label's length |
| Text.SpacesEnd | content.js:380 | `\s*` consumes only whitespace and stops at the first non-whitespace character or the end |
| Text.AfterLabel | content.js:379-382 | when label, optional spaces and a colon match, what remains is strictly shorter than the text |
| Text.AfterLabelMatches | content.js:380 | `label\s*[:：]\s*` matches exactly when the text starts with the label (letter case aside), whitespace, a colon and whitespace; the cut ends after that longest whitespace run |
| Text.AfterFirstLabel | content.js:380 | the first label of the alternation that matches decides the cut; what remains is strictly shorter |
| Text.RemoveLabel | content.js:379-382 | removing the matched prefix leaves a suffix of the text |
| Text.StripLeadingRolePrefixes | content.js:376-384 | the result has no whitespace at either end and is never longer than the input |
| Text.StripKeepsShapes | content.js:376-384 | stripping keeps "only plain spaces" and "no zero-width space" |
| Text.StripRemovesOnlyALabel | content.js:377-383 | the result is the trimmed input exactly when no label matches it; otherwise it is strictly shorter |
| Text.StripNeedsAColon | content.js:378-380 | text with no colon (of either width) is only trimmed, never stripped |
| Text.NoColonNoLabel | content.js:380 | no label matches a text without a colon |
| Text.SkipUnmatchedLabels | content.js:380 | the alternation skips labels that do not match, in order |
| Text.StripUsesFirstMatchingLabel | content.js:379-383 | when label k is the first that matches, the result is the trimmed rest after label k and its colon |
| Text.StrippedText | content.js:387 | `stripLeadingRolePrefixes(normalizeText(text))`, shared by the preview and the search text; `StrippedTextNormalized` states its shape |
| Text.StrippedTextNormalized | content.js:387 | the stripped, normalised text has plain spaces only, no zero-width space and no surrounding whitespace |
| Text.PreviewOf | content.js:388-390 | the preview is empty iff the text is; it is the text itself up to 90 characters, otherwise the first 90 characters followed by "…"; at most 91 characters |
| Text.PickPreviewFromText | content.js:386-391 | `pickPreviewFromText` is empty exactly when the stripped text is empty, has at most 91 characters, and is trimmed with only plain spaces |
| Text.Clamp | content.js:325-327 | `clamp` returns `n` inside the range and the nearer bound outside it; `min` when `max < min` |
| Text.SearchTextOf | content.js:395-398 | the search text is a prefix of the stripped text and empty iff it is: all of it for "full", `clamp(prefixLength, 100, 20000)` characters for "prefix" and 90 otherwise, or all of it when it is shorter |
| Text.BuildSearchTextFromRaw | content.js:393-399 | `buildSearchTextFromRaw` is a prefix of the stripped text, empty exactly when that text is |
| Text.PreviewScopeMatchesPreview | content.js:390 | with the "preview" scope, the search text is the preview without its ellipsis |
| Format.DecimalString | content.js:457-458 | `${idx}` is a non-empty string of decimal digits with no leading zero |
| Format.DecimalRoundTrip | content.js:457-458 | reading the decimal rendering back gives the number |
| Format.HexString | content.js:322 | `toString(16)` is a non-empty string of lower-case hex digits with no leading zero |
| Format.HexRoundTrip | content.js:322 | reading the hex rendering back gives the number |
| Format.HexLength | content.js:322 | a number below 16^k has at most k hex digits |
| Format.LeadingZeros | content.js:322 | padding zeros do not change the value |
| Format.Hex8 | content.js:322 | `("0000000" + h.toString(16)).slice(-8)`; `Hex8Properties` states its digits and value |
| Format.Hex8Properties | content.js:322 | `("0000000" + h.toString(16)).slice(-8)` is exactly 8 lower-case hex digits denoting `h` |
| Hash.XorBitsBound | content.js:319 | the xor of the low k bits has at most k bits |
| Hash.XorIsWord | content.js:319 | `h ^= code` stays a 32-bit value |
| Hash.FnvStep | content.js:319-320 | one FNV-1a step: xor with the code unit, multiplied by the FNV prime 16777619 modulo 2^32; `ShiftSumIsPrimeProduct` ties it to the shift-and-add form |
| Hash.Fnv1a | content.js:317-321 | FNV-1a from the offset basis 0x811c9dc5 over the code units in order: the reference `Hash32` is proved against |
| Hash.ShiftSumIsPrimeProduct | content.js:320 | `(h + (h<<1) + (h<<4) + (h<<7) + (h<<8) + (h<<24)) >>> 0` equals `h * 16777619 mod 2^32` |
| Hash.Hash32 | content.js:315-323 | the loop computes FNV-1a (offset basis 0x811c9dc5, xor then multiply by the prime, over each code unit) and returns it as exactly 8 hex digits denoting that value |
| Identity.IdStem | content.js:458 | the `co-{role}-{idx}-` part of a fresh id; `FreshId` states that it heads the id |
| Identity.PlaceholderId | content.js:452 | `co-{role}-{idx}` for a missing element; `StableId` states it is returned then, with no table changed |
| Identity.FreshId | content.js:457-458 | a fresh id is `co-{role}-{idx}-` followed by 8 lower-case hex digits denoting `hash32` of the signature of role, index, preview and text length |
| Identity.Existing | content.js:453-456 | the attribute wins over the weak map; an empty string counts as no id |
| Identity.StableId | content.js:451-466 | no element gives `co-{role}-{idx}`; an existing id is returned with the tables unchanged; otherwise the fresh id is stored in the weak map and, unless `setAttribute` fails, in the attribute |
| Identity.StableIdIdempotent | content.js:453-456 | once an element has an id, every later call returns it whatever role, index, preview and length, and changes nothing |
| Identity.StableIdKeepsOthers | content.js:459-461 | assigning an id leaves every other element's id as it was |
| Identity.StableIdRecorded | content.js:459-465 | after the call the element carries the returned id |
| Identity.IdentityStore.constructor | content.js:24 | the weak map starts empty, over the page's attributes |
| Identity.IdentityStore.StableIdFor | content.js:451-466 | the in-place update, hashing with the source's loop, returns the id and leaves the tables that `StableId` gives |
| Candidates.Unique | content.js:37-46 | the reference definition of `uniqueElements`; `UniqueMembers`, `UniqueNoDuplicates`, `UniqueFirstOccurrences` and `UniqueLength` state its properties |
| Candidates.UniqueElements | content.js:37-46 | the loop with its `seen` set returns `Unique(arr)` |
| Candidates.UniqueMembers | content.js:40-44 | `uniqueElements` keeps exactly the non-null elements of the input |
| Candidates.UniqueNoDuplicates | content.js:41 | the output has no repeats |
| Candidates.UniqueFirstOccurrences | content.js:40-44 | the output lists the elements in the order of their first occurrences |
| Candidates.UniqueLength | content.js:37-46 | the output is no longer than the input |
| Candidates.LooksLikeMessage | content.js:53-91 | `looksLikeMessageEl`: outside the panel and the page chrome, and a normalised length of 10 to 200000, or 1 to 9 when the site allows short messages and the wrapper test holds; `LeafCandidatesMembers` states it of every candidate kept |
| Candidates.LeafSelection | content.js:96-109 | the reference definition of the leaf filter with its fall-back; `LeafSelectionSpec` and `LeafSelectionKeepsLeaves` state its properties |
| Candidates.LeafCandidates | content.js:93-110 | `filterToLeafCandidates` as de-duplication, the message test and the leaf selection; `LeafCandidatesMembers` states its properties |
| Candidates.FilterToLeafCandidates | content.js:93-110 | the nested loops with early `break` return the leaf selection of the de-duplicated message-like candidates |
| Candidates.LeavesOfLongerPrefix | content.js:98-108 | one outer iteration appends the element exactly when it contains no other candidate |
| Candidates.LeafSelectionSpec | content.js:96-109 | the selection is an order-preserving subsequence; it falls back to the whole list only when nothing is a leaf; otherwise no kept element contains another candidate |
| Candidates.LeafSelectionKeepsLeaves | content.js:97-109 | without the fall-back, exactly the leaves are kept |
| Candidates.LeafCandidatesMembers | content.js:53-110 | the filter returns distinct, non-null input elements that pass `looksLikeMessageEl` (outside the panel and chrome, 10 to 200000 characters, or 1 to 9 inside a wrapper on DeepSeek, Tongyi or Doubao) |
| Candidates.SubsequenceNoDuplicates | content.js:95-109 | a subsequence of a list without repeats has none |
| Candidates.NoFallBackInATree | content.js:109 | when containment is a document tree, some candidate is always a leaf, so the fall-back never fires |
| Candidates.MinimalCandidate | content.js:100-105 | in a tree, descending through contained candidates ends at a leaf |
| Candidates.ScoreAll | content.js:287 | each candidate is paired with the length of its normalised text |
| Candidates.KeepInRange | content.js:288 | `.filter((x) => x.len >= 12 && x.len <= 120000)`; `RankSpec` states the bounds of what survives |
| Candidates.Insert | content.js:289 | one insertion step of the stable descending sort; the `Insert` lemmas state its properties |
| Candidates.SortByLength | content.js:289 | `.sort((a, b) => b.len - a.len)` as an insertion sort; `SortByLengthSorted`, `SortByLengthPermutes` and `SortByLengthStable` state its properties |
| Candidates.InsertPermutes | content.js:289 | inserting adds exactly one element |
| Candidates.InsertSorted | content.js:289 | inserting into a longest-first list keeps it longest-first |
| Candidates.SortByLengthSorted | content.js:289 | the ranking is longest first |
| Candidates.SortByLengthPermutes | content.js:289 | the ranking is a permutation of its input |
| Candidates.InsertStable | content.js:289 | an insertion goes after every element of the same length |
| Candidates.SortByLengthStable | content.js:289 | candidates of equal length keep their input order, as with the stable `Array.prototype.sort` |
| Candidates.RankSpec | content.js:286-290 | at most 300 entries, each of 12 to 120000 characters and from the input, longest first |
| Candidates.RankedCandidates | content.js:285-291 | score, keep in range, sort, take 300, keep the elements; `RankedCandidatesSpec` states its properties |
| Candidates.GenericMessageElements | content.js:283-293 | the generic strategy's `messageElements` over the given candidates: the leaf filter of the ranking, cut at 400; `GenericSliceIsNoOp` shows the cut never applies |
| Candidates.RankedCandidatesSpec | content.js:285-291 | the ranked elements are at most 300 of the candidates |
| Candidates.GenericSliceIsNoOp | content.js:292 | the final `.slice(0, 400)` never cuts, since at most 300 elements remain |
| Outline.TurnsSpec | content.js:540-563 | the reference definition of `buildTurns` over the id tables; the `Turns` lemmas state its properties |
| Outline.BuildTurns | content.js:540-563 | the loop with its running `idx` and the identity store gives the turns and tables of `TurnsSpec` |
| Outline.TurnsFollowInput | content.js:544-561 | the turns are the kept elements (outside the panel, non-empty preview) in input order, each with its role, preview, search text and code flag |
| Outline.TurnsTouchOnlyTheirElements | content.js:550-552 | an element that is no kept turn's element keeps its entry in the id tables |
| Outline.TurnsNumberedConsecutively | content.js:543-552 | the k-th kept turn, when its element has no id yet and is no earlier turn's element, gets the fresh id of ordinal k, whatever ids other elements carry |
| Outline.LastTurn | content.js:545-560 | a kept last element adds exactly one turn after the earlier ones, carrying its role, preview and the id `stableIdFor` returns at `idx` equal to the number of turns so far |
| Outline.TurnsKeepTables | content.js:453-456 | building turns never changes an id already in the tables |
| Outline.TurnsKeepOldIds | content.js:453-456 | a turn whose element already carried an id has that id |
| Outline.RepeatedElementsShareIds | content.js:451-466 | an element listed twice gets the same id both times |
| Outline.StableIdKeepsExisting | content.js:453-456 | a call of `stableIdFor` never changes an id already present |
| Outline.TurnsRecorded | content.js:552 | after building, every turn's element carries the turn's id |
| Outline.RebuildOverRecordedIds | content.js:453-456 | building over tables that already hold the turns' ids yields the same turns and changes no table |
| Outline.RebuildIsStable | content.js:540-563 | rebuilding over an unchanged page returns the same turns and leaves the id tables as they were |
| Outline.PairsOf | content.js:565-609 | the reference definition of `buildPairsFromTurns`; `PairsPartitionTurns`, `PairsAreGreedy` and `QuestionAndAnswerArePaired` state its properties |
| Outline.BuildPairsFromTurns | content.js:565-609 | the one-pass loop with look-ahead returns `PairsOf(turns)` |
| Outline.PairsOfSuffix | content.js:569-607 | one step of the pass: joined pair and skip two, lone user pair, or orphan pair |
| Outline.PairsPartitionTurns | content.js:565-609 | concatenating the pairs' turns gives back exactly the turns, in order |
| Outline.PairsAreGreedy | content.js:571-606 | every pair is a user turn with the assistant turn after it, a lone user turn, or a lone turn of another role; a lone user turn is never followed by an assistant turn |
| Outline.QuestionAndAnswerArePaired | content.js:571-583 | a user turn directly followed by an assistant turn forms one pair whose target is the user turn's element |
| Outline.PairsExample | content.js:565-609 | user, assistant, user, user, assistant gives a joined pair, a lone user pair and a joined pair |
| Outline.TurnItem | content.js:920-929 | the item of one turn; `TurnItems` states its fields |
| Outline.PairSearchText | content.js:938 | the user and assistant search texts joined by a newline and trimmed, or the preview when that is empty; `ItemsHaveText` states when it is non-empty |
| Outline.PairItem | content.js:932-941 | the item of one pair; `PairItems` states its fields |
| Outline.ItemsOf | content.js:918-942 | turn items or pair items by granularity; `ItemsAreIndexed` and `ItemsHaveText` state their properties |
| Outline.TurnItems | content.js:920-929 | one item per turn, at its own index, with the search text falling back to the preview |
| Outline.PairItems | content.js:932-941 | one item per pair, at its own index |
| Outline.ItemsAreIndexed | content.js:919-942 | `items[i].index == i`, and there is one item per turn or per pair |
| Outline.ItemsHaveText | content.js:926 | when every turn has a preview, every item has a non-empty preview and search text |
| Outline.MemberOfPair | content.js:576-601 | every turn a pair holds is one of the turns |
| Outline.IdIndex | content.js:944 | `new Map(items.map((it) => [it.id, it.index]))`; `IdIndexFindsLastOccurrence` states what it maps |
| Outline.IdIndexFindsLastOccurrence | content.js:944 | every item id is in `idToIndex` and maps to the position of its last occurrence |
| Viewport.Scan | content.js:965-978 | the state of the argmin loop after a prefix of the items; `ScanFindsFirstNearest` states it |
| Viewport.ActiveIndex | content.js:959-980 | the reference definition of the active index; `ActiveIndexSpec` states it |
| Viewport.ScanFindsFirstNearest | content.js:967-978 | the loop's variables: no distance yet iff no item with a target was seen; otherwise the first nearest item seen and its distance |
| Viewport.ActiveIndexSpec | content.js:959-980 | -1 iff there are no items; 0 when no item has a target; otherwise the lowest index at minimal distance from the reading line |
| Viewport.FirstNearestUnique | content.js:974 | the strict `<` update makes the choice unique |
| Viewport.ActiveFromTops | content.js:961-979 | the loop returns that index |
| Navigation.Push | content.js:782-786 | `navPushCurrent` on the two stacks; `PushKeepsLatest` states the result |
| Navigation.Back | content.js:788-795 | `navBack` on the two stacks, with the offset to scroll to; `MovesKeepSize` and the round-trip lemmas state its properties |
| Navigation.Forward | content.js:797-804 | `navForward` on the two stacks, with the offset to scroll to; `MovesKeepSize` and the round-trip lemmas state its properties |
| Navigation.LastN | content.js:785 | the latest k offsets, or all of them when there are fewer |
| Navigation.PushKeepsLatest | content.js:782-786 | a push ends `history` with the current offset, keeps the latest 50, and empties `future` |
| Navigation.MovesKeepSize | content.js:788-804 | back or forward does nothing on an empty source stack; otherwise it keeps the total size, so the bound of 50 holds |
| Navigation.BackThenForward | content.js:788-804 | forward after back restores the stacks and returns to where the user was |
| Navigation.ForwardThenBack | content.js:788-804 | back after forward restores the stacks and returns to where the user was |
| Navigation.Schedule | content.js:951-957 | `scheduleRebuild` on the timer slot: the pending timer is replaced by the new one |
| Navigation.Fire | content.js:953-956 | the callback runs only for the pending timer, and clears the slot |
| Navigation.LaterScheduleWins | content.js:951-957 | of two scheduled rebuilds only the later fires, and it fires once |
| State.TopsOf | content.js:970-972 | each item's top is that of its target element |
| State.Rebuilt | content.js:916-944 | the items, `idToIndex` and id tables after `rebuildIndex`; `RebuiltIndexFindsItems` and `RebuildIdempotent` state its properties |
| State.RebuiltIndexFindsItems | content.js:916-944 | after a rebuild every item sits at its index and its id finds it; a shared id finds its last item |
| State.RebuildIdempotent | content.js:916-944 | a second rebuild over an unchanged page gives the same items, ids and tables |
| State.OutlineState.constructor | content.js:6-22 | the default settings (pairs, preview scope, prefix 800), no items, active index -1, empty stacks, no timer |
| State.OutlineState.UpdateActiveFromViewport | content.js:959-980 | `activeIndex` becomes the first item nearest `headerOffset + 24`, and the invariant holds |
| State.OutlineState.RebuildIndex | content.js:916-947 | items, `idToIndex` and id tables become the rebuilt ones, then the active index is updated |
| State.OutlineState.ScheduleRebuild | content.js:951-957 | the pending timer is replaced by one with a fresh handle |
| State.OutlineState.TimerFired | content.js:953-956 | only the pending timer rebuilds, and it empties the slot; any other handle changes nothing |
| State.OutlineState.NavPushCurrent | content.js:782-786 | the stacks become `Push` of the old ones, and stay bounded |
| State.OutlineState.NavBack | content.js:788-795 | the stacks and the offset to scroll to are those of `Back` |
| State.OutlineState.NavForward | content.js:797-804 | the stacks and the offset to scroll to are those of `Forward` |

## Left out

- DOM querying, selectors and geometry are inputs (`Page.Dom`, integer tops and the header offset):
  - `querySelectorAll`, `closest`, `matches`, `getBoundingClientRect`, `getComputedStyle`
  - `getHeaderOffset`, `findConversationRoot`
  - `isScrollableElement`, `findScrollableAncestor`, `resolveScrollerFromTarget`
- The per-site `roleForMessage` functions and `detectRoleByTextHints`: the role is given per element.
- `extractRawTextForTurn`: the raw text is given per element (`Page.Dom.rawText`).
- The `messageElements` of the ChatGPT, DeepSeek, Tongyi and Doubao strategies are site selectors, so they are left out. `getSiteStrategy` is a host-name lookup; the site is a parameter instead.
- The panel is left out: `createUI`, `renderList`, `syncActiveUI`, `setOpen`, `setWidth`, `updateSearchPlaceholder`, `highlightEl` and the search query.
- `scrollToEl`, `scrollToTop` and `scrollToBottom` are side effects on the page. The navigation methods return the offset to scroll to instead of scrolling.
- `state.scroller`, `bindScrollListener` and `getScrollTop` are left out; the current offset is a parameter.
- `chrome.storage`, `loadSettings` and the settings change listener are left out: settings are a field of the state.
- The `MutationObserver`, `attachObservers`, `init` and event listeners are left out.
- Browser timers are replaced by abstract handles (`Navigation.Timer`). `setTimeout` returns the next handle, and the callback runs when `TimerFired` is called with that handle.
- options.js and background.js are not part of this model: an options form over `chrome.storage`, and a call to `openOptionsPage`.
- A Dafny `char` is a Unicode scalar value, so each `char` stands for one UTF-16 code unit only for text inside the Basic Multilingual Plane. A character outside it is one `char` here but two code units (a surrogate pair) in JavaScript, and a lone surrogate cannot be represented. For such text, `.length`, the 90-character preview cut, the 10-character minimum and the `charCodeAt` values hashed by `hash32` differ from the source.
- Tops and distances are integers, not floating-point numbers.
- A `prefixLength` that is not an integer (fractional, `NaN`, missing) is not modelled. The `|| 0` fallback only matters for those values.
- `uniqueElements` with a null array (`arr || []`) is not modelled; the input is always a list.
- Candidates.LooksLikeMessage: the three site wrapper selectors are one given test, `wrapperMatch`. On DeepSeek it includes the `querySelector("div.ds-message")` descendant test; for Tongyi and Doubao it includes the `closest` ancestor match. The source catches errors thrown by those selector calls; the given test never throws.
- Hash.Xor: JavaScript's `^` yields a signed 32-bit integer. The model keeps its residue modulo 2^32 (`XorIsWord`), which gives the same final `>>> 0` value.
- State.TopsOf: every item has a target element, since items only come from turns.
