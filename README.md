# NFC profile block documents — a Dafny model

This project models the logic at the centre of an NFC business-card web app.
A user's public profile is a record of basic fields, a theme and an ordered
list of typed content blocks (`link`, `social`, `text`, `video`, `gallery`).
The model covers four parts of the app:

- **The profile editor** (`editor.dfy`, with `blocks.dfy` and `profiles.dfy`).
  - It keeps the profile and the block list as two state cells. Blocks can be added, removed, updated wholesale, edited one key at a time, and reordered by drag and drop.
  - The basic fields and the theme can be edited.
  - Saving builds a wire form with the store-managed fields and every block id stripped.
  - `class Editor.Editor` holds the state cells. Each handler is a method whose new state is a pure function in `Blocks` or `Profiles`, and the properties of those functions are lemmas there.
- **The public page** (`public_render.dfy`). It covers the header policy (avatar shown or hidden, accent colour) and how the block list turns into rendered items.
  - Disabled blocks and blocks of unknown type render as nothing.
  - A video block embeds its URL when the URL contains `youtube` or `youtu.be` anywhere, so `https://vimeo.com/youtube-clip` embeds too. The video id is the piece after the first `v=`, or, when that is missing or empty, the last path segment.
  - A TypeError thrown while rendering (for example a known block type without `data`) fails the whole list. The model represents this as a `Result`.
- **The business-card text heuristic** (`card_scanner.dfy`).
  - It takes the text returned by OCR, splits it into non-blank lines, and takes the first two as the name and the company.
  - It then picks the first email-shaped and the first phone-shaped substring.
  - Both regular expressions are modelled as matchers. Each matcher is proved sound and complete against a declarative shape of its pattern's language, and to pick the leftmost-longest match.
- **The API base URL** (`api_config.dfy`). It turns the build-time variable into a URL ending in `/api/v1`.

`strings.dfy` models the JavaScript string operations these rely on: `indexOf`, `includes`, `endsWith`, `split`, `join`, `trim` and decimal formatting. `wrappers.dfy` holds `Option` and `Result`.

Modelling choices:

- `Date.now()` is a parameter `now: nat`.
- The build-time variable `VITE_API_URL` is a parameter: `None` when unset.
- The OCR text is a parameter of `ParseText`.
- A block payload is a map from keys to strings or string lists. These are the only values the editor writes.
- Profile fields are strings or integers.

Behaviour of the code that the model keeps, though a reader might expect otherwise:

- `addComponent` never fails. An unknown type gets the payload `{label: 'Item'}` (`Blocks.AddUnknownKind`).
- `removeComponent` and the update handler act on every block carrying the id, not just one.
- Two adds within one millisecond give two blocks the same id (`Blocks.SameMillisecondAddsCollide`).
- Hydration takes `components || []` as it is. Blocks loaded without `_id` keep no id, so the handlers cannot tell them apart: editing one rewrites all of them, and removing one removes all of them (`Blocks.SharedIdEditsBoth`, `Blocks.IdlessBlocksShareEdits`). The model writes a missing `_id` as the reserved id `Blocks.MissingId`, the empty string, which no store or temporary id equals.
- A save does not replace the editor state with the store's answer. The request is sent and the state is left as it was (`Editor.Editor.Save`).

## Model

| member | source | states |
|---|---|---|
| Blocks.DefaultData | src/pages/profile/ProfileEdit.jsx:163-180 | the default payload holds every key the kind's form edits; an unknown kind gets `{label: 'Item'}` |
| Blocks.Add | src/pages/profile/ProfileEdit.jsx:162-188 | one block is appended after the unchanged list; it is enabled, of the asked kind, with the clock-reading id |
| Blocks.AddAppends | src/pages/profile/ProfileEdit.jsx:162-188 | adding appends one block at the end and keeps the earlier blocks; the new block is enabled, has the `temp-` id and the type's default payload |
| Blocks.AddUnknownKind | src/pages/profile/ProfileEdit.jsx:178-179 | an unknown type is accepted and gets `{label: 'Item'}` |
| Blocks.TempIdsDiffer | src/pages/profile/ProfileEdit.jsx:183 | ids made at different clock readings differ |
| Blocks.TempId | src/pages/profile/ProfileEdit.jsx:183 | a temporary id is `temp-` followed by at least one decimal digit and nothing else |
| Blocks.SameMillisecondAddsCollide | src/pages/profile/ProfileEdit.jsx:183 | two adds at the same clock reading give two blocks with the same id |
| Blocks.AddKeepsIdsDistinct | src/pages/profile/ProfileEdit.jsx:182-188 | ids stay distinct after an add when the new id is fresh |
| Blocks.AddDistinctNeedsFreshId | src/pages/profile/ProfileEdit.jsx:182-188 | if ids are distinct after an add, the new id was fresh |
| Blocks.Remove | src/pages/profile/ProfileEdit.jsx:191-193 | the result is no longer than the input and holds no block with the id |
| Blocks.RemoveKeeps | src/pages/profile/ProfileEdit.jsx:191-193 | a block is kept exactly when it was present and carries another id |
| Blocks.RemoveAppend | src/pages/profile/ProfileEdit.jsx:192 | removal splits over concatenation, so the survivors keep their relative order |
| Blocks.RemoveAbsent | src/pages/profile/ProfileEdit.jsx:192 | removing an absent id leaves the list unchanged |
| Blocks.RemoveUnique | src/pages/profile/ProfileEdit.jsx:192 | with distinct ids, removing block k's id gives the list without position k |
| Blocks.RemoveBetween | src/pages/profile/ProfileEdit.jsx:192 | removing the id found only at one position cuts out exactly that block |
| Blocks.RemoveUndoesAdd | src/pages/profile/ProfileEdit.jsx:183-192 | removing a freshly added block restores the list |
| Blocks.RemoveKeepsIdsDistinct | src/pages/profile/ProfileEdit.jsx:192 | removal keeps ids distinct |
| Blocks.UpdateData | src/pages/profile/ProfileEdit.jsx:212-214 | the update keeps the length |
| Blocks.UpdateDataOnlyTouchesData | src/pages/profile/ProfileEdit.jsx:212-214 | only blocks with the id get the new data; ids, types, enabled flags and order are unchanged |
| Blocks.UpdateDataAbsent | src/pages/profile/ProfileEdit.jsx:213 | an update for an absent id changes nothing |
| Blocks.Patch | src/pages/profile/ProfileEdit.jsx:19-22 | the key is set, the other existing keys keep their values, absent data counts as `{}` |
| Blocks.CurrentImages | src/pages/profile/ProfileEdit.jsx:93-94 | the images an upload starts from: the list, `[]` when absent, and one entry per character when `images` is a string |
| Blocks.Edited | src/pages/profile/ProfileEdit.jsx:19-22 | a form edit sets its one key of the data object to the value the input gives (the label, url or text typed, the current images followed by the uploaded files, the textarea split at line breaks) and keeps every other key |
| Blocks.EditAt | src/pages/profile/ProfileEdit.jsx:19-22 | the edit of block k keeps the length and the ids, gives block k the edited data, and leaves every block with another id as it was |
| Blocks.DefaultDataCoversForm | src/pages/profile/ProfileEdit.jsx:42-104 | every input a block's form shows edits a key its default payload has |
| Blocks.UnknownKindHasNoForm | src/pages/profile/ProfileEdit.jsx:42-78 | a block of an unknown type shows no input |
| Blocks.UploadAppendsImages | src/pages/profile/ProfileEdit.jsx:93-94 | an upload appends the new images after the existing ones, which stay a prefix |
| Blocks.ImageListTextRoundTrip | src/pages/profile/ProfileEdit.jsx:103-104 | re-splitting the textarea text of a non-empty image list without newlines gives the same list |
| Blocks.ClearedImageListKeepsOneEntry | src/pages/profile/ProfileEdit.jsx:104 | clearing the textarea leaves one empty image entry, not an empty list |
| Blocks.EditAtSetsOneKey | src/pages/profile/ProfileEdit.jsx:19-22 | with distinct ids a form edit gives one block the data the edit computes from its current data (one key set, the others kept) and leaves the other blocks as they were |
| Blocks.ArrayMove | src/pages/profile/ProfileEdit.jsx:157 | the move keeps the length and puts the moved element at the target index |
| Blocks.ArrayMoveLands | src/pages/profile/ProfileEdit.jsx:157 | the moved element ends at the target index |
| Blocks.ArrayMoveKeepsOthers | src/pages/profile/ProfileEdit.jsx:157 | without the moved element both lists are equal, so the others keep their relative order |
| Blocks.ArrayMoveUndo | src/pages/profile/ProfileEdit.jsx:157 | moving back restores the list |
| Blocks.ArrayMoveInPlace | src/pages/profile/ProfileEdit.jsx:157 | a move onto the same index changes nothing |
| Blocks.ArrayMoveAt | src/pages/profile/ProfileEdit.jsx:157 | each result position holds the input element at a computed source index |
| Blocks.ArrayMoveIsPermutation | src/pages/profile/ProfileEdit.jsx:157 | the move is a permutation; the index map is injective and keeps the order of the other positions |
| Blocks.ArrayMoveKeepsIdsDistinct | src/pages/profile/ProfileEdit.jsx:157 | a move keeps ids distinct |
| Blocks.FindIndex | src/pages/profile/ProfileEdit.jsx:155-156 | the first index with the id, -1 exactly when it is absent |
| Blocks.Reorder | src/pages/profile/ProfileEdit.jsx:150-160 | the drop is a permutation that puts the dragged block at the index of the block it was dropped over |
| Blocks.ReorderMoves | src/pages/profile/ProfileEdit.jsx:150-160 | dropping on itself changes nothing; otherwise a permutation where the dragged block takes the target's index and the rest keep their order |
| Blocks.SharedIdEditsBoth | src/pages/profile/ProfileEdit.jsx:192-213 | with two blocks of one id, editing the first rewrites the second too, and removing the first removes both |
| Blocks.IdlessBlocksShareEdits | src/pages/profile/ProfileEdit.jsx:199-213 | an edit of one block loaded without `_id` rewrites the data of every such block |
| Profiles.SetInfo | src/pages/profile/ProfileEdit.jsx:276-303 | the edited field holds the new text; theme and blocks are kept |
| Profiles.SetTheme | src/pages/profile/ProfileEdit.jsx:317-333 | on a loaded profile the edited theme key holds the new value, the theme's keys are the old ones plus that key, and the fields and blocks are kept; a null profile gives none |
| Profiles.SetInfoChangesOneField | src/pages/profile/ProfileEdit.jsx:273-303 | an info edit sets one field and keeps the others, the theme and the blocks; a null profile becomes a profile with that field alone |
| Profiles.SetThemeChangesOneKey | src/pages/profile/ProfileEdit.jsx:317-333 | a theme edit sets layout or colour, adds no other theme key, keeps the other theme keys' values and every profile field; on a null profile nothing happens |
| Profiles.Sanitize | src/pages/profile/ProfileEdit.jsx:203 | a wire block keeps the type, data and enabled flag and drops the id |
| Profiles.ToWire | src/pages/profile/ProfileEdit.jsx:199-205 | no store-managed field is sent, and there is one wire block per block |
| Profiles.IdSegment | src/pages/profile/ProfileEdit.jsx:205 | the path segment is the profile's `_id` as text, `undefined` when it is missing |
| Profiles.SaveRequestFor | src/pages/profile/ProfileEdit.jsx:195-205 | no request while the profile is null; otherwise one to `/profiles/` followed by the profile's id whose body is the profile with the current blocks in wire form |
| Profiles.ToWireShape | src/pages/profile/ProfileEdit.jsx:199-205 | the body has the profile's fields minus the five store-managed ones, the same theme, and the blocks in order with ids dropped |
| Profiles.ToWireIgnoresIds | src/pages/profile/ProfileEdit.jsx:203 | blocks that differ only in id give the same body, so no temporary id is sent |
| Profiles.ResaveIsStable | src/pages/profile/ProfileEdit.jsx:199-205 | if the wire form is stored and read back, saving it again sends the same body |
| Editor.Editor.constructor | src/pages/profile/ProfileEdit.jsx:117-119 | no profile, no blocks, loading |
| Editor.Editor.Loaded | src/pages/profile/ProfileEdit.jsx:132-148 | the first fetched profile and its `components` or `[]` are taken; an empty answer keeps the state |
| Editor.Editor.LoadFailed | src/pages/profile/ProfileEdit.jsx:143-147 | a failed fetch only clears the loading flag |
| Editor.Editor.AddComponent | src/pages/profile/ProfileEdit.jsx:162-188 | the list becomes the appended list; the prior blocks are a prefix; distinct ids are kept when the new id is fresh |
| Editor.Editor.RemoveComponent | src/pages/profile/ProfileEdit.jsx:191-193 | the list becomes the filtered list, with exactly the blocks of other ids; distinct ids are kept |
| Editor.Editor.UpdateComponent | src/pages/profile/ProfileEdit.jsx:212-214 | the list becomes the updated list with the same ids in the same order |
| Editor.Editor.ChangeField | src/pages/profile/ProfileEdit.jsx:19-22 | a form edit goes through the update handler with the patched data; ids are unchanged |
| Editor.Editor.DragEnd | src/pages/profile/ProfileEdit.jsx:150-160 | the list becomes the reordered list, a permutation that keeps ids distinct; a drop outside the list changes nothing |
| Editor.Editor.EditInfo | src/pages/profile/ProfileEdit.jsx:273-303 | the profile becomes the edited profile; the blocks are unchanged |
| Editor.Editor.EditTheme | src/pages/profile/ProfileEdit.jsx:317-333 | the profile becomes the theme-edited profile, or stays null |
| Editor.Editor.Save | src/pages/profile/ProfileEdit.jsx:195-205 | the request sent goes to `/profiles/` followed by the id and carries the wire form of the editor's current profile and blocks; none when the profile is null |
| PublicRender.RenderBlock | src/pages/public/PublicProfile.jsx:81-146 | skipped blocks give nothing; a shown block gives one item or a throw; missing data throws the data-undefined fault for its kind, and the only other throws are a video's unsplittable url and a gallery's unmappable images |
| PublicRender.RenderAll | src/pages/public/PublicProfile.jsx:81-147 | the page renders exactly when every block renders, with at most one item per block; a failed page throws the fault of its first failing block |
| PublicRender.RenderComponents | src/pages/public/PublicProfile.jsx:80-148 | no block list gives no items; otherwise the rendering of that list, at most one item per block |
| PublicRender.Get | src/pages/public/PublicProfile.jsx:90-140 | reading `comp.data.<key>` gives a value exactly when the payload has the key, and then the value stored under it |
| PublicRender.SkippedBlocksRenderNothing | src/pages/public/PublicProfile.jsx:81-85 | a disabled block or one of an unknown type renders as nothing and never throws |
| PublicRender.DisabledBlocksIgnored | src/pages/public/PublicProfile.jsx:81-82 | dropping the disabled blocks first gives the same page |
| PublicRender.RenderedInDocumentOrder | src/pages/public/PublicProfile.jsx:81-148 | a page that renders has one item per enabled block of known type, in document order, each the rendering of its block |
| PublicRender.ShownBlockStep | src/pages/public/PublicProfile.jsx:81-148 | an enabled block of known type in front of a rendered page puts its item in front of the items |
| PublicRender.SkippedBlockStep | src/pages/public/PublicProfile.jsx:81-84 | a skipped block in front of a rendered page changes neither the items nor the blocks shown |
| PublicRender.WellTypedBlocksRender | src/pages/public/PublicProfile.jsx:81-143 | if every shown block has data with a string `url` and a list `images`, the page renders without throwing; skipped blocks may hold anything |
| PublicRender.RenderableShowsOne | src/pages/public/PublicProfile.jsx:85-144 | an enabled block of known type with well-typed data renders as exactly one item |
| PublicRender.OneOfTwoShown | src/pages/public/PublicProfile.jsx:81-82 | a disabled block next to an enabled one gives exactly one item |
| PublicRender.LinkAndTextItems | src/pages/public/PublicProfile.jsx:86-146 | links and social links show `data.label` and point at `data.url`, text shows `data.text`, a video shows the embed choice for `data.url` and a gallery the image list of `data.images`, each throwing what those throw |
| PublicRender.RenderGallery | src/pages/public/PublicProfile.jsx:140 | a list of images shows those images; absent or empty-string images show none; any other string throws, and the throw is the images-not-mappable fault |
| PublicRender.GalleryShowsEveryImage | src/pages/public/PublicProfile.jsx:140-142 | a gallery shows every entry of `images`, in order |
| PublicRender.UploadedImagesShownAfterExisting | src/pages/public/PublicProfile.jsx:140-142 | after an upload the earlier images show first, then the new ones |
| PublicRender.IsSupportedVideo | src/pages/public/PublicProfile.jsx:120 | a url is supported exactly when `youtube` or `youtu.be` occurs anywhere in it |
| PublicRender.VideoId | src/pages/public/PublicProfile.jsx:123 | the id is a piece of the `v=` split or of the `/` split; without `v=` it is the last segment |
| PublicRender.RenderVideo | src/pages/public/PublicProfile.jsx:115-136 | an embed only for a supported string url, with src the embed prefix plus its id; a throw, the unsplittable-url fault, only for an array url listing a provider name |
| PublicRender.VideoEmbedsOnlySupported | src/pages/public/PublicProfile.jsx:120-132 | a string url embeds exactly when it names a supported provider; the src is the embed prefix plus the id |
| PublicRender.MissingUrlUnsupported | src/pages/public/PublicProfile.jsx:120 | a video without a url shows the fallback |
| PublicRender.FirstOccurrenceAfter | src/pages/public/PublicProfile.jsx:123 | the first `v=` is the one after a prefix that has none |
| PublicRender.VideoIdFromQuery | src/pages/public/PublicProfile.jsx:123 | the id is the text after the first `v=` and before any next one |
| PublicRender.VideoIdFromPath | src/pages/public/PublicProfile.jsx:123 | without `v=` the id is the last `/` segment |
| PublicRender.VideoIdEmptyQuery | src/pages/public/PublicProfile.jsx:123 | a first `v=` followed by nothing or by another `v=` leaves an empty query piece, so the id falls back to the last path segment |
| PublicRender.LastSegment | src/pages/public/PublicProfile.jsx:123 | `split('/').pop()` is the text after the last `/` |
| PublicRender.WatchUrlEmbeds | src/pages/public/PublicProfile.jsx:120-123 | a `youtube.com/watch?v=ID` link embeds `ID` |
| PublicRender.WatchUrlId | src/pages/public/PublicProfile.jsx:123 | the id of a watch link is the text after `v=` |
| PublicRender.WatchUrlSupported | src/pages/public/PublicProfile.jsx:120 | a watch link names `youtube` |
| PublicRender.ShortUrlId | src/pages/public/PublicProfile.jsx:123 | the id of a `youtu.be/ID` link is `ID` |
| PublicRender.ShortUrlSupported | src/pages/public/PublicProfile.jsx:120 | a `youtu.be/` link names a supported provider |
| PublicRender.ShortUrlEmbeds | src/pages/public/PublicProfile.jsx:120-123 | a `youtu.be/ID` link embeds `ID` |
| PublicRender.VimeoExample | src/pages/public/PublicProfile.jsx:129-132 | a Vimeo link shows the fallback |
| PublicRender.RenderHeader | src/pages/public/PublicProfile.jsx:48-65 | the accent is never empty and the minimal layout hides the avatar |
| PublicRender.ThemeValue | src/pages/public/PublicProfile.jsx:48-65 | `profile.theme?.[key]` is present exactly when the profile has a theme holding the key, and then it is that key's value |
| PublicRender.HeaderPolicy | src/pages/public/PublicProfile.jsx:48-65 | the avatar is hidden exactly under the minimal layout; a set, non-empty theme colour is the accent, and `#c6ff00` is the accent exactly when the colour is unset, empty or itself `#c6ff00` |
| PublicRender.ThemeEditsReachHeader | src/pages/public/PublicProfile.jsx:48-65 | the minimal layout hides the avatar and a palette colour becomes the accent |
| CardScanner.NonBlankLines | src/pages/dashboard/CardScanner.jsx:48 | every kept line is non-blank, and there are no more of them than lines |
| CardScanner.Filter | src/pages/dashboard/CardScanner.jsx:48 | the filter is no longer than its input and keeps only accepted lines |
| CardScanner.FilterMembers | src/pages/dashboard/CardScanner.jsx:48 | an entry is kept exactly when it is present and accepted (for the card text: non-blank) |
| CardScanner.FilterAppend | src/pages/dashboard/CardScanner.jsx:48 | filtering splits over concatenation, so the original order is kept |
| CardScanner.FilterHead | src/pages/dashboard/CardScanner.jsx:48 | the first kept line is the first accepted one; nothing is kept exactly when every line is refused |
| CardScanner.SplitPartsLackSep | src/pages/dashboard/CardScanner.jsx:48 | no piece of `split(c)` contains `c` |
| CardScanner.NonBlankLinesAreLines | src/pages/dashboard/CardScanner.jsx:48 | no kept line contains a newline |
| CardScanner.RunEnd | src/pages/dashboard/CardScanner.jsx:49-50 | a greedy run of a character class stops at the first character outside it |
| CardScanner.EmailAt | src/pages/dashboard/CardScanner.jsx:49 | a match found at a position ends after it, within the text |
| CardScanner.PhoneAt | src/pages/dashboard/CardScanner.jsx:50 | a match found at a position ends after it, within the text |
| CardScanner.Search | src/pages/dashboard/CardScanner.jsx:52-53 | the leftmost position where the pattern matches, none when there is none |
| CardScanner.FirstMatch | src/pages/dashboard/CardScanner.jsx:52-59 | the picked text is no longer than the text and empty exactly when no start position matches |
| CardScanner.EmailAtSound | src/pages/dashboard/CardScanner.jsx:49 | a match is a local part, `@`, and a domain with an inner `.` |
| CardScanner.EmailAtComplete | src/pages/dashboard/CardScanner.jsx:49 | every word of the email language at a position is matched, and the match is at least as long |
| CardScanner.PhoneAtSound | src/pages/dashboard/CardScanner.jsx:50 | a match is an optional `+` then ten or more digits, spaces or dashes |
| CardScanner.PhoneAtComplete | src/pages/dashboard/CardScanner.jsx:50 | every word of the phone language at a position is matched, and the match is at least as long |
| CardScanner.MatchAtIsLongest | src/pages/dashboard/CardScanner.jsx:49-50 | at one position the matcher succeeds exactly when the language has a word there, and takes the longest |
| CardScanner.FirstMatchIsLeftmostLongest | src/pages/dashboard/CardScanner.jsx:52-59 | the picked text is the leftmost-longest word of the language, `''` exactly when there is none |
| CardScanner.EmailMatchShape | src/pages/dashboard/CardScanner.jsx:49-58 | an email match is made of `[A-Za-z0-9._-]` and exactly one `@`, with a `.` after the `@` |
| CardScanner.PhoneMatchShape | src/pages/dashboard/CardScanner.jsx:50-59 | a phone match is an optional `+` then at least ten digits, spaces or dashes |
| CardScanner.FirstKeptEmpty | src/pages/dashboard/CardScanner.jsx:56 | `lines[0] \|\| ''` is empty exactly when no line is kept |
| CardScanner.FirstTwoKept | src/pages/dashboard/CardScanner.jsx:56-57 | the first kept line is the first non-blank one, the second the next non-blank one |
| CardScanner.FirstKept | src/pages/dashboard/CardScanner.jsx:56 | `lines[0] \|\| ''` is empty or a line of the list that the filter keeps |
| CardScanner.SecondKept | src/pages/dashboard/CardScanner.jsx:57 | `lines[1] \|\| ''` is empty or a line of the list that the filter keeps |
| CardScanner.Lines | src/pages/dashboard/CardScanner.jsx:48 | the text splits into at least one line, and joining the lines with line breaks gives the text back |
| CardScanner.ParseText | src/pages/dashboard/CardScanner.jsx:46-63 | the notes are the whole text; name and company are empty or non-blank, no company is guessed without a name; email and phone are the first match of their patterns in the whole text |
| CardScanner.ParseTextNoName | src/pages/dashboard/CardScanner.jsx:56-60 | the name is `''` exactly when every line is blank; the notes are the whole text |
| CardScanner.ParseTextNameAndCompany | src/pages/dashboard/CardScanner.jsx:56-57 | the name is the first non-blank line, the company the first non-blank line after it |
| Strings.TrimEmptyIff | src/pages/dashboard/CardScanner.jsx:48 | a line trims to empty exactly when it is all white space |
| Strings.SplitJoin | src/pages/profile/ProfileEdit.jsx:103-104 | splitting the join of a non-empty list without the separator gives the list back |
| Strings.JoinSplit | src/pages/profile/ProfileEdit.jsx:103-104 | joining the pieces of a split gives the text back |
| Strings.Join | src/pages/profile/ProfileEdit.jsx:103 | joining nothing gives the empty text; otherwise the first piece starts the result |
| Strings.Split | src/pages/public/PublicProfile.jsx:123 | a split always yields at least one piece |
| Strings.IndexOf | src/pages/public/PublicProfile.jsx:123 | the index found is the first occurrence at or after the start; none when there is none |
| Strings.Trim | src/pages/dashboard/CardScanner.jsx:48 | trimming never lengthens a line, and a non-empty result neither starts nor ends with white space |
| Strings.Contains | src/pages/public/PublicProfile.jsx:120 | `includes` holds only when the needle fits in the text (see ContainsIff for the full meaning) |
| Strings.ContainsIff | src/pages/public/PublicProfile.jsx:120 | `includes` holds exactly when the needle occurs at some index of the text |
| Strings.EndsWith | src/services/api.js:10-11 | a text that ends with a suffix is its remaining front followed by that suffix |
| Strings.Last | src/pages/public/PublicProfile.jsx:123 | `pop()` of a non-empty list gives one of its entries |
| Strings.NatToString | src/pages/profile/ProfileEdit.jsx:183 | a non-negative number is written as one or more decimal digits, at least two from 10 up |
| Strings.NatToStringInjective | src/pages/profile/ProfileEdit.jsx:183 | different numbers are written differently |
| Strings.IntToString | src/pages/profile/ProfileEdit.jsx:205 | an integer is written as a leading `-` exactly when it is negative, followed by decimal digits |
| ApiConfig.BaseUrl | src/services/api.js:4-13 | the result ends with `/api/v1` and starts with the variable; unset or empty gives `/api/v1` |
| ApiConfig.BaseUrlCases | src/services/api.js:10-12 | a URL ending in `/api/v1` is kept, after a `/` only `api/v1` is added, otherwise `/api/v1` |
| ApiConfig.BaseUrlIdempotent | src/services/api.js:7-12 | the rule applied to its own result changes nothing |
| ApiConfig.BaseUrlLength | src/services/api.js:11-12 | at most the suffix is added, and a trailing `/` is never doubled |

## Left out

- JSX markup, styling, the editor's live-preview panel, routing and the pages outside the four parts above. These are presentation or navigation.
- dnd-kit sensors and gesture capture. Only the resulting move is modelled, and `arrayMove` follows dnd-kit's splice-out, splice-in behaviour. It is not part of this model's source files.
- `Editor.Editor.DragEnd`: it requires both ids to be in the list. The sortable context only reports ids of listed blocks, so the negative-index behaviour of `arrayMove` is not modelled.
- FileReader and base64 loading of images and of the avatar and cover pictures. Only the resulting append or field write is modelled.
- The axios client, its interceptors, `localStorage` token handling, toasts and error logging. These are network and storage plumbing; the fetch result is a parameter of `Editor.Editor.Loaded`.
- The Tesseract OCR call, the webcam capture, the progress bar, and `originalImage`, which is a stale copy of the screenshot. Saving a scanned lead is a network call.
- NFC card writing and the analytics click-through rate. The rate is floating-point formatting.
- Payload values other than strings and string lists, such as numbers, nested objects or `null`.
- Strings are sequences of Unicode scalar values, while JavaScript strings are UTF-16 code units. None of the patterns, separators or prefixes used here holds a character outside the Basic Multilingual Plane, and the spread of a string iterates code points, so the two views agree on every operation modelled.
- Case-insensitive matching of the email pattern beyond ASCII. Without the `u` flag the class matches only ASCII letters, digits and `._-`, which is what the model states.
