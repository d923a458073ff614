# Photo catalogue and gallery selection of the Arthuro Visuals portfolio

This project models the photo catalogue of a one-photographer portfolio site, written in Dafny.
It covers how bundled image paths become photo records and how the home page picks previews.
It covers how a gallery route selects photos, titles the page and names a download.
It also covers the filter of the single-page mock portfolio in the root `App.jsx`.
Everything in the modelled code is a pure function of its inputs, so the model is made of datatypes, functions and lemmas.

- `Text` (`text.dfy`) holds the JavaScript string operations the code relies on.
  These are `toLowerCase` on ASCII letters, `includes`, and `replace` with a string pattern, which removes only the first occurrence.
  They also include the global replacements `/-/g` and `/\s+/g`, `split('/').pop()`, and the decimal form of an id in a template literal.
- `Sequences` (`sequences.dfy`) holds `Array.prototype.filter` and `slice(0, n)`.
  The filter is characterised as the subsequence that holds exactly the kept elements.
- `PhotoData` (`photo_data.dfy`) holds `src/utils/photoData.js`.
  It models the per-path record (`id`, `url`, `category`, `title`), the keyword classification with its fixed priority, and `getEventPreviews`.
- `Gallery` (`gallery.dfy`) holds the pure parts of `src/pages/Gallery.jsx`.
  These are the normalisation of the route parameters, the `filteredPhotos` predicate, `displayTitle` and the download file name.
  The module also holds the slug the home page builds for each preview link (`src/pages/Home.jsx:117`).
  The main result is that following that link selects exactly the photos of the preview's category.
- `Portfolio` (`portfolio.dfy`) holds the root `App.jsx`: the six mock photos and the `'all'`-or-category filter.

The image paths come from the bundler's `import.meta.glob` at build time.
Here they are an input `seq<string>`, given in the order of the glob's keys.

A remote image listing is out of scope: the code classifies local paths by keyword, and the model follows that code.

## Model

| member | source | states |
|---|---|---|
| `Text.Lower` | src/utils/photoData.js:11 | `toLowerCase` keeps the length, leaves no ASCII capital and lower-cases each character in place |
| `Text.LowerAppend` | src/utils/photoData.js:11 | lower-casing a path lower-cases each part of it |
| `Text.LowerOfSameIgnoringCase` | src/utils/photoData.js:11 | two strings that differ only in letter case have the same lower-case form |
| `Text.Contains` | src/utils/photoData.js:14 | `includes` scans the text from the left; a string that contains a pattern is at least as long as the pattern |
| `Text.ContainsIffOccurs` | src/utils/photoData.js:14 | `includes` holds exactly when the pattern occurs at some index, in both directions |
| `Text.ContainsInContext` | src/utils/photoData.js:14 | a string that contains a keyword still contains it with any text added before and after |
| `Text.RemoveFirst` | src/utils/photoData.js:10 | `replace(pat, '')` with a string pattern shortens the text by exactly the pattern's length when the pattern occurs, and not at all otherwise |
| `Text.RemoveFirstSpec` | src/utils/photoData.js:10 | `replace('/public', '')` removes exactly the first occurrence and leaves a string without one unchanged |
| `Text.RemoveFirstAbsent` | src/utils/photoData.js:10 | a path without `/public` is returned as it is |
| `Text.RemoveFirstAt` | src/utils/photoData.js:10 | when the first occurrence starts at `i`, exactly the characters `i .. i + 7` are removed |
| `Text.FirstOccurrence` | src/utils/photoData.js:10 | a string that contains the pattern has a first occurrence of it |
| `Text.DashesToSpaces` | src/pages/Gallery.jsx:44 | `replace(/-/g, ' ')` keeps the length of the text |
| `Text.DashesToSpacesSpec` | src/pages/Gallery.jsx:44 | `replace(/-/g, ' ')` keeps the length, leaves no hyphen and changes only hyphens |
| `Text.DashesToSpacesNoDash` | src/pages/Gallery.jsx:44 | a parameter without hyphens is compared as it is |
| `Text.LowerDashesToSpaces` | src/pages/Gallery.jsx:44 | lower-casing and turning hyphens into spaces can be done in either order |
| `Text.IsWhitespace` | src/pages/Gallery.jsx:149 | the characters `\s` matches: the ECMAScript WhiteSpace and LineTerminator code points |
| `Text.SkipWhitespace` | src/pages/Gallery.jsx:149 | the leading run that `\s+` matches is all whitespace and is followed by a non-whitespace character or the end |
| `Text.WhitespaceRunsToDashes` | src/pages/Gallery.jsx:149 | `replace(/\s+/g, '-')` leaves no whitespace, never lengthens the text, only adds hyphens, and keeps a non-empty text non-empty |
| `Text.SkipRun` | src/pages/Gallery.jsx:149 | the match of `\s+` ends exactly where its whitespace run ends |
| `Text.SkipAppend` | src/pages/Gallery.jsx:149 | a run that ends inside a text ends at the same place when more text follows |
| `Text.RunsAppend` | src/pages/Gallery.jsx:149 | `replace(/\s+/g, '-')` works piece by piece when the first piece does not end inside a whitespace run |
| `Text.RunThen` | src/pages/Gallery.jsx:149 | a whole whitespace run at the front, however long, becomes one hyphen |
| `Text.Collapse` | src/pages/Gallery.jsx:149 | each maximal whitespace run between two texts becomes exactly one hyphen, and the texts on either side are kept |
| `Text.WhitespaceRunsToDashesIdentity` | src/pages/Gallery.jsx:149 | text without whitespace passes through `replace(/\s+/g, '-')` unchanged |
| `Text.NoWhitespaceAppend` | src/pages/Gallery.jsx:149 | joining two whitespace-free pieces gives a whitespace-free name |
| `Text.WhitespaceRunsToDashesLowerCase` | src/pages/Home.jsx:117 | the slug of a lower-case name is lower-case |
| `Text.SlugRoundTrip` | src/pages/Home.jsx:117 | for single-spaced words without hyphens, turning spaces into hyphens and back gives the original |
| `Text.DashesToSpacesCons` | src/pages/Gallery.jsx:44 | `replace(/-/g, ' ')` works character by character from the front |
| `Text.LastSegment` | src/utils/photoData.js:26 | `split('/').pop()` is no longer than the path and holds no `/` |
| `Text.LastSegmentSpec` | src/utils/photoData.js:26 | `split('/').pop()` is a suffix of the path without `/`; it is the whole path when there is no `/`, and otherwise follows a `/` |
| `Text.DigitChar` | src/pages/Gallery.jsx:149 | each digit `d` is rendered as the character `d` places after `'0'` |
| `Text.Decimal` | src/pages/Gallery.jsx:149 | an id is rendered as a non-empty string of decimal digits with no leading zero, except for the id 0 itself |
| `Text.DecimalRoundTrip` | src/pages/Gallery.jsx:149 | reading the rendered digits back gives the id |
| `Text.LowerChar` | src/utils/photoData.js:11 | an ASCII capital moves 32 code points up to its small letter; every other character is unchanged |
| `Sequences.Filter` | src/utils/photoData.js:34 | `filter` returns a subsequence of its input whose every element passes the test |
| `Sequences.FilterCount` | src/pages/Gallery.jsx:41-45 | every element that passes the test is kept as often as it occurs in the input |
| `Sequences.FilterMembership` | src/pages/Gallery.jsx:41-45 | an element is in the result exactly when it is in the input and passes the test |
| `Sequences.FilterNone` | src/pages/Gallery.jsx:44 | a test no element passes returns nothing |
| `Sequences.FilterCongruent` | src/pages/Gallery.jsx:41-45 | two tests that agree on every element select the same photos |
| `Sequences.Take` | src/utils/photoData.js:34 | `slice(0, n)` is the prefix of length `min(n, length)` |
| `Sequences.SubsequenceReflexive` | App.jsx:19-20 | the unfiltered list is a subsequence of itself |
| `Sequences.SubsequenceLength` | src/utils/photoData.js:35 | a filtered list is never longer than the list it came from |
| `Sequences.SubsequenceElement` | src/pages/Gallery.jsx:41-45 | every element of a filtered list occurs in the original list |
| `Sequences.SubsequenceSorted` | src/utils/photoData.js:31-35 | dropping groups keeps the remaining groups in their fixed order |
| `PhotoData.CategoryOrder` | src/utils/photoData.js:31 | the four categories in the order the home page shows them |
| `PhotoData.HasJrotcKeyword` | src/utils/photoData.js:14 | some keyword of `broward`, `raider`, `jrotc` occurs in the lower-cased path |
| `PhotoData.Classify` | src/utils/photoData.js:13-20 | the category is always one of `jrotc`, `sports`, `social events`, `landscape` |
| `PhotoData.ClassifyJrotcFirst` | src/utils/photoData.js:14-15 | a path with `broward`, `raider` or `jrotc` in it is `jrotc`, whatever else it contains |
| `PhotoData.ClassifySportsBeforeLandscape` | src/utils/photoData.js:16-19 | without a JROTC keyword, a path containing `sport` is `sports` even when it also contains `landscape` |
| `PhotoData.ClassifyLandscape` | src/utils/photoData.js:18-19 | without a JROTC keyword or `sport`, a path containing `landscape` is `landscape` |
| `PhotoData.ClassifyFallback` | src/utils/photoData.js:13-20 | `social events` is given exactly when no keyword occurs |
| `PhotoData.ClassifyIgnoresCase` | src/utils/photoData.js:11 | paths that differ only in letter case get the same category |
| `PhotoData.ClassifyKeywordAnywhere` | src/utils/photoData.js:11-15 | a JROTC keyword in any mix of cases anywhere in the path makes it `jrotc` |
| `PhotoData.MakePhoto` | src/utils/photoData.js:22-27 | the record for position `index` has id `index` and a category from the fixed four |
| `PhotoData.Catalogue` | src/utils/photoData.js:8 | one record per path, with record `i` carrying id `i` and one of the four categories |
| `PhotoData.CatalogueIds` | src/utils/photoData.js:23 | ids rise with position, so no two records share an id |
| `PhotoData.CatalogueUrl` | src/utils/photoData.js:10 | a record's URL is its path with the first `/public` removed, or the path itself when it has none |
| `PhotoData.CatalogueTitle` | src/utils/photoData.js:26 | a record's title is the text after the last `/` of its path |
| `PhotoData.CatalogueCategory` | src/utils/photoData.js:11-20 | a record's category is the classification of its own path |
| `PhotoData.InCategory` | src/utils/photoData.js:34 | the photos of one category, in catalogue order, are a subsequence of the catalogue |
| `PhotoData.InCategoryCount` | src/utils/photoData.js:34 | every catalogue photo of the category is kept, as often as the catalogue holds it |
| `PhotoData.PreviewOf` | src/utils/photoData.js:32-34 | a category's preview carries that category's name and at most two photos, all of that category |
| `PhotoData.AllPreviews` | src/utils/photoData.js:31-34 | one preview is built per category, in the order `jrotc, sports, social events, landscape` |
| `PhotoData.EventPreviews` | src/utils/photoData.js:35 | no preview that is returned is empty |
| `PhotoData.Rank` | src/utils/photoData.js:31 | each category's rank is its position in the display order |
| `PhotoData.PreviewGroup` | src/utils/photoData.js:32-35 | each preview holds the first `min(2, count)` photos of its category in catalogue order, all of that category |
| `PhotoData.PreviewsOrdered` | src/utils/photoData.js:31-35 | previews follow the order `jrotc, sports, social events, landscape`, so their names are distinct |
| `PhotoData.PreviewsAtMostFour` | src/utils/photoData.js:31-35 | there are at most four previews |
| `PhotoData.PreviewsPresence` | src/utils/photoData.js:31-35 | a category has a preview exactly when some catalogue photo has that category |
| `Gallery.Normalize` | src/pages/Gallery.jsx:30-31 | a missing route parameter becomes `""`; a given one is lower-cased, and the result has no capital |
| `Gallery.Shows` | src/pages/Gallery.jsx:42-44 | the per-photo test: the URL contains the sub-category when there is one, otherwise the category matches the parameter with hyphens read as spaces |
| `Gallery.FilteredPhotos` | src/pages/Gallery.jsx:41-45 | the shown photos are an order-preserving subsequence of the catalogue |
| `Gallery.SubCategorySelects` | src/pages/Gallery.jsx:43 | with a sub-category, a photo is shown exactly when its lower-cased URL contains the sub-category |
| `Gallery.SubCategoryIgnoresCategory` | src/pages/Gallery.jsx:43 | with a sub-category, the category parameter makes no difference |
| `Gallery.CategorySelects` | src/pages/Gallery.jsx:44 | without a sub-category, a photo is shown exactly when its lower-cased category equals the category parameter with hyphens read as spaces |
| `Gallery.NoParametersShowNothing` | src/pages/Gallery.jsx:44 | with both parameters empty, nothing from the catalogue is shown |
| `Gallery.Slug` | src/pages/Home.jsx:117 | the link segment built from a category name has no whitespace |
| `Gallery.CategoriesLowerCase` | src/utils/photoData.js:13-19 | every category name is already lower-case |
| `Gallery.SingleSpacedReadsBack` | src/pages/Gallery.jsx:44 | a lower-case, single-spaced name reads back from its slug unchanged |
| `Gallery.CategoriesSingleSpaced` | src/utils/photoData.js:31 | the four category names are lower-case words separated by single spaces |
| `Gallery.SlugReadsBack` | src/pages/Home.jsx:117 | the slug of each category, normalised as the gallery does, is that category again |
| `Gallery.PreviewLinkRoundTrip` | src/pages/Home.jsx:117 | the link of any home-page preview opens a gallery showing exactly the catalogue photos of that category |
| `Gallery.DisplayTitle` | src/pages/Gallery.jsx:47-49 | the sub-category when it is non-empty, otherwise the category, with hyphens read as spaces |
| `Gallery.DisplayTitleSpec` | src/pages/Gallery.jsx:47-49 | the title comes from the sub-category when it is non-empty, otherwise from the category, with hyphens read as spaces; it has no hyphen |
| `Gallery.DisplayTitleOfRoute` | src/pages/Gallery.jsx:30-49 | the title is the raw sub-category when one is given, otherwise the raw category, lower-cased with hyphens read as spaces; without hyphens it is just the lower-case parameter |
| `Gallery.PreviewLinkTitle` | src/pages/Gallery.jsx:47-49 | the gallery reached from a preview is titled with that preview's category name |
| `Gallery.DownloadName` | src/pages/Gallery.jsx:149 | `ArthuroVisuals-`, the title with whitespace runs as hyphens, `-`, the photo id, `.jpg` |
| `Gallery.DownloadNameNoWhitespace` | src/pages/Gallery.jsx:149 | a download name contains no whitespace |
| `Gallery.DownloadNameShape` | src/pages/Gallery.jsx:149 | a download name starts with `ArthuroVisuals-`, ends with `-<id>.jpg`, and the id reads back from it |
| `Portfolio.MockPhotos` | App.jsx:6-13 | the six mock records, with their ids, URLs, categories and titles |
| `Portfolio.FilterButtons` | App.jsx:64 | the filter buttons in drawing order, `all` first |
| `Portfolio.Selection` | App.jsx:19-21 | the shown photos are a subsequence of the list; for any button but `all` they all have that category |
| `Portfolio.SelectAllUnchanged` | App.jsx:19-20 | the `all` button shows the list unchanged |
| `Portfolio.SelectCategoryMembers` | App.jsx:21 | any other button shows a photo exactly when its category equals the button |
| `Portfolio.SelectCategoryCount` | App.jsx:21 | a button shows each matching photo as often as the list holds it |
| `Portfolio.MockCategoriesAreButtons` | App.jsx:6-13 | every mock photo's category is one of the four category buttons |
| `Portfolio.MockIdsDistinct` | App.jsx:6-13 | the mock photo ids, used as render keys, are distinct |
| `Portfolio.ButtonsPartitionMockPhotos` | App.jsx:21 | each mock photo appears under exactly its own category button, and no category button is empty |

## Left out

- Image discovery through `import.meta.glob` (`src/utils/photoData.js:2-6`) is bundler I/O. The paths are an input sequence instead.
- Text.Lower: JavaScript's `toLowerCase` also lower-cases non-ASCII letters. The model changes only `A`..`Z`.
- Text.IsWhitespace: `\s` is modelled by code point over the ECMAScript WhiteSpace and LineTerminator set. JavaScript strings are UTF-16, and the model's characters are Unicode scalar values.
- React rendering, routing, framer-motion animation and its delays are presentation only.
- The React state (`selectedPhoto`, `copied`, `isSystemDark`, `activeCategory`) and the handlers that set it are UI only.
- The OS colour-scheme subscription through `matchMedia` (`src/pages/Gallery.jsx:22-28`, `src/App.jsx:16-28`) is a browser event subscription.
- The clipboard write and its `setTimeout` reset (`src/pages/Gallery.jsx:51-57`) are browser side effects and timers.
- Theme-class choices (`src/pages/Gallery.jsx:8-13`, `34-39`) and the eyebrow label above the title (`src/pages/Gallery.jsx:74`) are styling text with no behaviour.
- The navbar, footer, scroll-to-top, contact form, about page and photo grid (`src/components/*`, `src/pages/Contact.jsx`, `src/pages/About.jsx`, `src/PhotoGrid.jsx`) are markup and DOM effects.
- The home page's section themes and rendering (`src/pages/Home.jsx`) are styling. Only the preview link slug at `src/pages/Home.jsx:117` is modelled.
- SmartImage's Cloudinary URL rewrite (`src/components/SmartImage.jsx:9`) follows the convention of a remote service that cannot be seen.
- A remote image listing, with its grouping and not-found handling, is in no modelled source file.
