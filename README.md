# BeDownloader core in Dafny

BeDownloader downloads the images of Behance projects. The user pastes URLs. A
URL is either a gallery (one project) or a listing: a moodboard, a profile or a
likes page. A browser expands each listing into project links. Each project page
is scraped for its title, owners and image URLs. The images are then saved under
generated file names in a download folder, and every finished project is
recorded in a download-history file. With history skipping on, projects already
in that file are not downloaded again.

The repository holds three generations of the same pipeline, and all three are
modelled:

- `src/` (TypeScript, Playwright): `src/utils.ts`, `src/download-pw.ts` and the
  shared `appState` of `src/states/app.ts`;
- `app/js/` (JavaScript, puppeteer): `app/js/puppeteer.js` and `app/js/utils.js`;
- `src/services.js`, the oldest script.

## Modules

| module | file | what it models |
|---|---|---|
| `Text` | text.dfy | JavaScript string built-ins as the code uses them: `includes`, `startsWith`, `split`, `join`, `trim`, `lastIndexOf`, `split('?')[0]`, `[...new Set(xs)]`, `filter`, `map` |
| `Numbers` | numbers.dfy | `toLocaleString('en-US', { minimumIntegerDigits: 2 })`, the older `'0' + n` padding, `parseInt(s, 10)` |
| `ImageFilter` | images.dfy | the choice of a project's own images among all image URLs on its page, and the rewrite of the resolution folder to `source` |
| `Naming` | naming.dfy | `makeValidBehanceUrl`, `formatUrlForUi`, `shortenUrl`, the kebab-case pipeline, and the image file names of all three scripts |
| `History` | history.dfy | the history file: one URL per line, read, written and appended to |
| `Folder` | folder.dfy | the download folder and the placement of a downloaded temporary file (`downloadImage`, new and old) |
| `Collector` | collector.dfy | the page script of `collectProjectsUrlsFromPage`, which turns grid elements into project links |
| `Controller` | controller.dfy | `appState`, list building with the history skip, the download loop with its abort checks, `taskEnding` |
| `Legacy` | legacy.dfy | the module-level state of `app/js/puppeteer.js`: list building, `saveProjectToHistory`, the download loop and its final signals |
| `Services` | services.dfy | `src/services.js`: seed expansion, the fixed tier table, per-project numbering of downloads |

Form follows the source:

- Pure helpers are functions, with lemmas stating their properties.
- Code that works step by step is a method with loops and invariants, proved equal to a specification function. This covers the tier-table loop, seed expansion, the history skip and the download loops.
- State that is updated in place is a class:
  - `appState` is `Controller.App`;
  - the module variables of `app/js/puppeteer.js` are `Legacy.LegacyTask`;
  - the history file is `History.TextFile`;
  - the download folder is `Folder.DownloadFolder`.

Inputs from outside enter as parameters:

- what the browser returns: links per listing, the page view per project, the intercepted image requests;
- the size a fetch leaves on disk and the size after the EXIF rewrite, both `Option<nat>` (`None` when that step fails);
- the transliteration function `latinize`, about which nothing is assumed;
- the abort flag, as a sample `press(k)` for the `k`-th read of `isAborted`.

A JavaScript number that may be `undefined` or `NaN` is modelled as such (`Controller.JsCount`, `Option<int>` in `Numbers`).

### Behaviour the code has that a reader might not expect

The model follows the code in each case below.

- `generateProjectsList` in the newer script and the older one never removes duplicate projects. The same gallery pasted twice is downloaded twice.
- The new number in `downloadImage` comes from the *last* file, in listing order, whose name starts with the pattern. It is not the largest such number. `readdirSync` lists names in `strcmp` order (libuv's `scandir` sorts them), so `x-100.jpg` comes before `x-99.jpg`. `Folder.LastListedNotMax` shows that in a folder holding `x-01.jpg`, `x-99.jpg` and `x-100.jpg`, a new `x-01.jpg` of another size overwrites `x-100.jpg`.
- `makeValidBehanceUrl` is not idempotent: an empty link grows by the origin each time.
- `projectsFailed` has no initial value in `src/states/app.ts`, so every `+= 1` gives `NaN`, and "some projects were failed to download" can never be reported (`Controller.FailedNeverReported`). `resetPuppeteerDataInState` does not reset that counter either.
- `src/download-pw.ts:5` imports `resetPlaywrightDataInState`, which `src/states/app.ts` does not define. The reset modelled is `resetPuppeteerDataInState`, as written.
- The extension test `/\.jpe?g|png$/i` accepts `.jpg` or `.jpeg` anywhere in the URL, or `png` at its very end. It runs before the query is stripped.
- In `project_modules/1400/x/file.jpg` only the innermost folder `x` becomes `source`.
- Sizes are compared through `(bytes / 1024).toFixed(2)`. `Folder.KbKey` models this as the exact number of hundredths, with halves rounded up.
- In `app/js/puppeteer.js`, `projectsTotal` keeps its old value when no URL is pasted.
- That script saves the page's `og:url` to the history, not the list entry it loaded. Errors there are not caught. A failed page load, a page whose `og:` meta tag is missing, a failed fetch or a failed rename ends the whole run (`crashed`), and neither `task:skipped` nor `task:done` is sent.
- `src/services.js` reads its project pages the same way. A missing `og:` tag, or an `img` without `src`, ends its run too (`Services.DownloadProjects` returns `failed`).

## Model

| member | source | states |
|---|---|---|
| Numbers.DecimalValue | src/utils.ts:149-151 | the decimal digits of `n` read back as `n` |
| Numbers.TwoDigitsSmall | src/utils.ts:149-151 | for `0 <= n < 1000` the en-US two-digit form has at least two characters, only digits, and the value `n` |
| Numbers.TwoDigitsGrouped | src/utils.ts:149-151 | from 1000 on the formatted index holds a comma |
| Numbers.ParseTwoDigits | src/utils.ts:424-425 | `parseInt` reads back every index below 1000, and its negation, formatted by `addZeroForNumberLessTen` |
| Numbers.ParseDigits | src/utils.ts:424 | a digit string parses to its value, and with a leading `-` to the negation |
| Numbers.ParseThousand | src/utils.ts:424-425 | `parseInt("1,000")` is 1: the comma stops the parse |
| Numbers.ZeroBelowTenAgrees | src/services.js:204-206 | for `0..999` the older `'0' + n` padding and the `toLocaleString` padding give the same text |
| Numbers.ZeroBelowTenDiffers | src/services.js:204-206 | the two paddings differ on every index from 1000 on, where only the `toLocaleString` form has a comma, and on every negative index, where the older form starts `0-` |
| ImageFilter.AcceptMeans | src/utils.ts:106-126 | an accepted URL holds no deny-list fragment and no `base64` in any case, and on `behance.net` it holds `/project_modules/` |
| ImageFilter.RunStartLeftmost | src/utils.ts:132 | the start of the name-character run before a slash is the leftmost possible start of a match |
| ImageFilter.TierRewriteNoMatch | src/utils.ts:132 | without a match of `/([\w.-]+)(\/[\w.-]+)$/` the URL is unchanged |
| ImageFilter.TierRewriteMatch | src/utils.ts:132 | at the leftmost match the first group becomes `source` and the rest of the string stays |
| ImageFilter.TierRewriteShape | src/utils.ts:131-134 | `head + tier + "/" + file`, with name-character `tier` and `file` and `head` not ending in one, becomes `head + "source/" + file` |
| ImageFilter.TierRewriteIdempotent | src/utils.ts:131-134 | rewriting twice equals rewriting once |
| ImageFilter.TierRewriteNoQuery | src/utils.ts:130-132 | the rewrite neither adds nor removes a `?` |
| ImageFilter.UpgradeIdempotent | src/utils.ts:131-134 | the conditional upgrade of a URL is idempotent |
| ImageFilter.Resolve | src/utils.ts:130-134 | the resolved URL holds no `?` |
| ImageFilter.ProjectImagesMembers | src/utils.ts:128-136 | a URL is in the output exactly when some accepted input resolves to it |
| ImageFilter.ProjectImagesShape | src/utils.ts:128-136 | the output has no duplicates and no `?`, and keeps the order of first occurrence |
| ImageFilter.RejectedContributesNothing | src/utils.ts:118-129 | a rejected URL contributes nothing, wherever it stands in the input |
| ImageFilter.DeniedRejected | src/utils.ts:107-120 | a URL with a deny-list fragment or `base64` is rejected |
| ImageFilter.AcceptedStringsMember | app/js/puppeteer.js:228-247 | a string is kept exactly when it is a candidate and `checkImageUrl` accepts it; non-strings never pass |
| ImageFilter.LegacyImagesMembers | app/js/puppeteer.js:249-262 | an output image is the upgrade of an accepted page source or intercepted request, and every such upgrade is output |
| ImageFilter.SourcesMember | app/js/puppeteer.js:252 | the candidates hold a string exactly when the page or the requests do |
| ImageFilter.LegacyImagesShape | app/js/puppeteer.js:261 | the older output has no duplicates and keeps the order of first occurrence |
| ImageFilter.LegacyAcceptsMore | app/js/puppeteer.js:228-247 | the older test accepts everything the newer one does, and also Adobe CDN URLs |
| ImageFilter.VariantsAgree | app/js/puppeteer.js:249-262 | without queries, Adobe URLs, missing attributes or requests, the older and newer selections agree |
| ImageFilter.Vector1200Max | app/js/testing.js:4 | `project_modules/1200_max/` becomes `project_modules/source/` |
| ImageFilter.Vector2800Opt | app/js/testing.js:5 | `project_modules/2800_opt_1/` becomes `project_modules/source/` |
| ImageFilter.VectorFs | app/js/testing.js:7 | `project_modules/fs/` becomes `project_modules/source/` |
| ImageFilter.VectorNested | app/js/testing.js:3 | in `project_modules/1400/x/` only `x` is replaced |
| ImageFilter.VectorRoot | app/js/testing.js:6 | a URL outside `project_modules` is left alone |
| Text.Dedup | src/utils.ts:136 | `[...new Set(xs)]` has no duplicates, holds only elements of `xs`, and holds all of them |
| Text.DedupOrder | src/utils.ts:136 | the deduplicated list follows the order of first occurrence |
| Text.BeforeQuery | src/utils.ts:130 | `split('?')[0]` is the longest `?`-free prefix |
| Naming.MakeValidBehanceUrlSpec | src/utils.ts:177-183 | the result has no `?`, and the origin is prepended exactly when the input lacks `behance.net/` |
| Naming.MakeValidBehanceUrlFixed | src/utils.ts:177-183 | an output that contains `behance.net/` is a fixed point |
| Naming.MakeValidRelative | src/utils.ts:177-183 | site-relative links become absolute, and normalising them twice equals normalising once |
| Naming.MakeValidNotIdempotent | src/utils.ts:177-183 | the empty link is not a fixed point |
| Naming.ShownSpec | src/utils.ts:194-200 | the shown path: up to its query when shorter than `max`, else a prefix and `...`, exactly `max` long when `max >= 3` |
| Naming.FormatUrlForUiShort | src/utils.ts:188-192 | a URL with fewer than five `/`-pieces is shown as it is |
| Naming.FormatUrlForUiLong | src/utils.ts:186-205 | for longer URLs the text is taken from after the third slash, cut at the query and to `max` |
| Naming.ShortenUrlSpec | app/js/utils.js:31-34 | the result is bracketed; inside is the whole path when it fits, else its first `max` characters and `...` |
| Naming.ShortenUrlPath | app/js/utils.js:32 | with four or more pieces the shortened path is what follows the third slash |
| Naming.ReplaceNonEnglish | src/utils.ts:154-156 | every character of the result is an ASCII letter or digit, or comes from the symbol |
| Naming.Squeeze | src/utils.ts:159-161 | the result is never longer than the input and holds only its characters |
| Naming.SqueezeNoDoubleDash | src/utils.ts:159-161 | after the collapse no two dashes are adjacent |
| Naming.SqueezeFixed | src/utils.ts:159-161 | a string without adjacent dashes is left as it is |
| Naming.SqueezeKeepsOthers | src/utils.ts:159-161 | the collapse removes only dashes: every other character stays, in order |
| Naming.SqueezeIdempotent | src/utils.ts:159-161 | collapsing twice equals collapsing once |
| Naming.KebabSpec | src/utils.ts:169-174 | for any transliteration the kebab form holds only `a-z`, `0-9` and single dashes |
| Naming.FirstOwnerSpec | src/utils.ts:221 | the first owner is a prefix of the owner list without `, `, and all of it when there is none |
| Naming.LastDotPieceSpec | src/utils.ts:224 | the extension is the text after the last dot, or the whole URL without a dot |
| Naming.TemplateStart | src/utils.ts:226-227 | every collapsed template starts with `behance-` and has no `--` |
| Naming.TemplateEnd | src/utils.ts:226-227 | the collapsed template ends with `-<number>.<ext>` when the extension has no `--` |
| Naming.ImageFileNameSpec | src/utils.ts:212-230 | the file name starts with `behance-`, has no `--`, and ends with `-`, the padded index, `.` and the extension |
| Naming.LegacyFilePathSpec | app/js/puppeteer.js:270-284 | the older path is the folder, `/` and a name of the same shape, with the extension taken after the query is stripped |
| Naming.ServicesFileNameSpec | src/services.js:227-242 | the oldest file name starts with `behance-` and has no `--` |
| History.TextFile.ReadLines | src/utils.ts:251-263 | the lines read are `[]` when the file is unreadable, else its trimmed text split at the line break; the file is unchanged |
| History.TextFile.WriteLines | src/utils.ts:266-274 | the file now exists and holds the lines joined by the break, trimmed when `trim` is set |
| History.TextFile.AddUrl | src/utils.ts:310-317 | the file after an add is the file read, with the URL appended and written back only when missing |
| History.ReadWritten | app/js/utils.js:78-93 | reading back a written non-empty list gives the list, when no line holds a break and the text has no space at either end |
| History.AppendedIsListed | src/utils.ts:310-317 | after appending a URL to whatever the file held, reading it lists the URL |
| History.AddUrlIdempotent | src/utils.ts:310-317 | adding a URL twice equals adding it once |
| History.AddListedUnchanged | src/utils.ts:313 | adding a URL already listed leaves the file as it was |
| Folder.Remove | src/utils.ts:400 | after removing a name the listing holds exactly the other names, and stays free of duplicates |
| Folder.WriteValid | src/utils.ts:384 | a write keeps the listing in `strcmp` order and in agreement with the name-to-size map |
| Folder.UnlinkValid | src/utils.ts:407 | an unlink keeps the listing sorted and in agreement |
| Folder.RenameValid | src/utils.ts:400 | a rename keeps the listing sorted and in agreement |
| Folder.ValidListing | src/utils.ts:418-419 | a valid folder's listing names each file once and is the only `strcmp`-ordered listing of its files, which is what `readdirSync` returns |
| Folder.SortedUnique | src/utils.ts:418-419 | two `strcmp`-ordered listings of the same names are equal |
| Folder.SortedNoDup | src/utils.ts:418-419 | a listing in `strcmp` order repeats no name |
| Folder.BelowAfterPrefix | src/utils.ts:418-419 | names that share a prefix are listed in the order of what follows it |
| Folder.Insert | src/utils.ts:400 | a created name joins the listing: the result holds exactly the old names and the new one |
| Folder.InsertSorted | src/utils.ts:400 | inserting an unlisted name keeps the listing in `strcmp` order |
| Folder.RemoveSorted | src/utils.ts:407 | removing a name keeps the listing in `strcmp` order |
| Folder.ExtSpec | src/utils.ts:380 | stem and extension put back together give the name; the extension is empty or begins with a dot |
| Folder.ExtOf | src/utils.ts:423 | a dot-free stem, a dot and a dot-free extension parse into those parts |
| Folder.GeneratedIsNotTemp | src/utils.ts:381 | a generated `behance-` name is never the temporary name |
| Folder.PatternPrefix | src/utils.ts:415-420 | the pattern is a prefix of the target's name, so the target always matches |
| Folder.Matching | src/utils.ts:418-420 | the matching names are listed names, in listing order, that start with the pattern |
| Folder.NextNameLast | src/utils.ts:422-426 | only the last matching name decides the next name |
| Folder.NextNameDefined | src/utils.ts:418-422 | a target that exists always has a next name |
| Folder.KbKeyCoarse | src/utils.ts:300-308 | the size key grows with the size, sizes 11 or more bytes apart never share it, and sizes 4 bytes apart can |
| Folder.NoTempNoChange | src/utils.ts:391-430 | without a temporary file nothing changes |
| Folder.PlaceFresh | src/utils.ts:399-402 | a new target: the temporary file becomes the target |
| Folder.PlaceSameSize | src/utils.ts:406-410 | an existing same-size target is replaced by the temporary file |
| Folder.PlaceTempIsTarget | src/utils.ts:406-408 | a target that is the temporary name itself is deleted |
| Folder.PlaceDifferentSize | src/utils.ts:414-430 | another size: the temporary file moves to the next name, and the target is untouched unless the next name is the target |
| Folder.DownloadImageValid | src/utils.ts:373-434 | the whole step keeps the listing and the file map in agreement |
| Folder.LastListedNotMax | src/utils.ts:418-429 | any valid folder holding `x-01.jpg`, `x-100.jpg` and `x-99.jpg` lists them in that order, so a new `x-01.jpg` of another size is renamed over `x-100.jpg` |
| Folder.LegacyFetchedSpec | app/js/puppeteer.js:306-312 | after the fetch the temporary file holds the fetched size, or the size the EXIF step wrote for a JPEG |
| Folder.LegacyPlaceFresh | app/js/puppeteer.js:314-342 | a new target: the temporary file is renamed to it and the run goes on |
| Folder.LegacyPlaceSameSize | app/js/puppeteer.js:337-342 | a same-size target is deleted, then replaced by the temporary file |
| Folder.LegacyPlaceDifferentSize | app/js/puppeteer.js:320-342 | another size: the temporary file goes to the next name |
| Folder.LegacyFetchFails | app/js/puppeteer.js:309 | a failed fetch ends the run before the folder changes |
| Folder.LegacyDownloadValid | app/js/puppeteer.js:305-344 | the older step keeps listing and file map in agreement |
| Folder.DownloadFolder.constructor | src/utils.ts:418-419 | the folder as the first `readdirSync` finds it |
| Folder.DownloadFolder.WriteFile | src/utils.ts:384 | the folder after a write: the size recorded, and a new name inserted at its `strcmp` place in the listing |
| Folder.DownloadFolder.Unlink | src/utils.ts:407 | `unlinkSync`: succeeds exactly on an existing file, which it removes |
| Folder.DownloadFolder.Rename | src/utils.ts:400 | `renameSync`: succeeds exactly on an existing source, replaces the target, and lists a created target at its `strcmp` place |
| Folder.DownloadFolder.DownloadImage | src/utils.ts:373-434 | the folder after `downloadImage` is the placement specification applied to the old folder |
| Folder.DownloadFolder.LegacyDownloadImage | app/js/puppeteer.js:305-344 | the folder and the escaped-error flag are the older placement specification applied to the old folder |
| Collector.ClassifySpec | src/download-pw.ts:255-283 | an element is kept exactly when href and src are non-empty and the href has `/gallery/`; the link is `image` exactly for a `DIV` outside an `ARTICLE` without forced galleries |
| Collector.Chosen | src/download-pw.ts:234-243 | a selector contributes only grids it matched |
| Collector.SelectedGrids | src/download-pw.ts:234-243 | on a moodboard at most one grid per selector; every grid comes from some selector |
| Collector.ChosenMoodboard | src/download-pw.ts:238-242 | on a moodboard a selector contributes exactly its first grid |
| Collector.ClassifiedMember | src/download-pw.ts:255-283 | a link is collected exactly when some element yields it |
| Collector.CollectProjectLinks | src/download-pw.ts:230-285 | the page script: the chosen grids, the elements below them per selector, one link per usable element |
| Collector.SelectGrids | src/download-pw.ts:233-244 | the grid loop equals its specification |
| Collector.GatherItems | src/download-pw.ts:247-252 | the element loop equals its specification |
| Collector.ClassifyItems | src/download-pw.ts:255-283 | the classification loop equals its specification |
| Collector.ClassifiedLinks | src/download-pw.ts:261-280 | every link has a non-empty gallery URL and cover; forced galleries give no `image` link |
| Collector.ClassifiedKeepsCopies | src/download-pw.ts:255-283 | two equal usable elements give two equal links |
| Controller.IncTimesNotNum | src/download-pw.ts:325 | a counter that started `undefined` or `NaN` stays non-numeric after any number of increments |
| Controller.IncTimesNum | src/download-pw.ts:325 | a numeric counter counts |
| Controller.GatheredStep | src/download-pw.ts:312-340 | one more pasted URL appends its links |
| Controller.FailedAfterCount | src/download-pw.ts:324-325 | the failure counter is incremented once per failed listing |
| Controller.AddSeed | src/download-pw.ts:313-339 | one URL: a gallery appends its valid-URL link; a failed listing counts a failure; else the normalised links are appended |
| Controller.AddSeeds | src/download-pw.ts:312-345 | the URL loop appends every URL's links in order and counts one failure per failed listing |
| Controller.NextSeed | src/download-pw.ts:313-343 | one turn takes the list and the failure count after `i` URLs to those after `i + 1` |
| Controller.SkipByHistory | src/download-pw.ts:348-362 | the skip loop keeps the filtered list and counts the drops |
| Controller.GallerySeedBlock | src/download-pw.ts:313-318 | a gallery URL adds exactly one `gallery` link with its valid URL and an empty cover, in its place, and no failure |
| Controller.FailedSeedBlock | src/download-pw.ts:322-326 | a failed listing adds no link and exactly one failure |
| Controller.NoDedup | src/download-pw.ts:303-368 | the same gallery pasted twice is listed twice |
| Controller.KeptIsFilter | src/download-pw.ts:348-365 | the skip is the order-keeping filter that drops exactly the gallery links in the history; kept plus dropped is the whole list |
| Controller.KeptImages | src/download-pw.ts:352-359 | `image` links and unlisted galleries are never dropped, and nothing else is kept |
| Controller.AllSeedsFail | src/download-pw.ts:322-326 | if every URL is a failed listing, the list is empty with one failure per URL |
| Controller.BuildProjectsList | src/download-pw.ts:303-368 | the four fields as the list specification gives them: links appended, total counted before the skip, failures, skipped count |
| Controller.Sources | src/download-pw.ts:416-421 | the sources are exactly the present `src` attributes |
| Controller.CollectDataSpec | src/download-pw.ts:374-438 | there is data exactly with a page, a URL, an id and an unlocked view; an `image` link keeps its cover, a gallery takes every page source |
| Controller.ProjectJobs | src/download-pw.ts:521-530 | one download per project image, in order |
| Controller.ImageJob | src/download-pw.ts:528-530 | download `i` fetches image `i` |
| Controller.Tasks | src/download-pw.ts:496 | one task per project, in list order |
| Controller.ImageLoopJobs | src/download-pw.ts:521-532 | the image loop appends the project's downloads in order and stops short only at an abort |
| Controller.AbortedProject | src/download-pw.ts:534-543 | an abort seen in the image loop leaves the project neither completed nor in the history |
| Controller.ProjectStepSpec | src/download-pw.ts:500-543 | one project completes at most once, fails at most once, and adds at most its own gallery URL to the history, only when completed |
| Controller.RunExtends | src/download-pw.ts:496-548 | the run only counts up and appends; once the flag is seen set nothing more is downloaded or counted |
| Controller.RunHistory | src/download-pw.ts:539-541 | every URL added to the history is a gallery URL among the remaining projects |
| Controller.ImageLoopAllDone | src/download-pw.ts:521-532 | without an abort every remaining image is downloaded |
| Controller.RunAllComplete | src/download-pw.ts:496-548 | without an abort and with data for every project, all are completed and none fails |
| Controller.DownloadImages | src/download-pw.ts:521-532 | the image loop equals its specification |
| Controller.NextImage | src/download-pw.ts:521-531 | one image turn: the check, then the image's download unless stopped |
| Controller.DownloadProject | src/download-pw.ts:499-547 | one project equals its specification, and the history file is rewritten exactly when a gallery completes |
| Controller.SaveToHistory | src/utils.ts:310-317 | the history file after the add |
| Controller.NextProject | src/download-pw.ts:496-548 | one project turn keeps the loop invariant |
| Controller.DownloadAll | src/download-pw.ts:496-548 | the project loop equals the run specification, and the history file mirrors it |
| Controller.FailedNeverReported | src/download-pw.ts:461-473 | with an `undefined` failure counter the "some failed" status is never chosen |
| Controller.SuccessReported | src/download-pw.ts:461-468 | a skip-filtered list run without abort, with data for every project, ends "all downloaded" unless nothing was listed or all skipped |
| Controller.App.constructor | src/states/app.ts:4-14 | the initial record: no window, browser or page, empty lists, zero counters, not aborted, `projectsFailed` undefined |
| Controller.App.ResetPuppeteerData | src/states/app.ts:17-26 | the reset: browser and page gone, lists empty, counters zero, not aborted; window and `projectsFailed` kept |
| Controller.App.GenerateProjectsList | src/download-pw.ts:303-368 | without a window nothing changes; else the list fields follow the list specification and nothing else changes |
| Controller.App.DownloadProjects | src/download-pw.ts:488-549 | without a window nothing changes; else the state is the run specification applied to the old state |
| Controller.App.Status | src/download-pw.ts:444-482 | a status exactly when there is a window |
| Services.ReplaceFirstSpec | src/services.js:176 | a string pattern replaces only its first occurrence, and a missing one changes nothing |
| Services.ApplyTableNoEntry | src/services.js:164-177 | a URL holding no table entry passes unchanged |
| Services.CorrectUrl | src/services.js:175-178 | the table loop applies every entry in order |
| Services.CorrectProjectData | src/services.js:161-186 | same title, owners, URL and id; one corrected image per page image, in order |
| Services.GenerateProjectsList | src/services.js:95-111 | the seed loop equals the expansion specification |
| Services.ExpandedVerbatim | src/services.js:100-107 | without moodboards the list is the seed list |
| Services.ExpandedPrefix | src/services.js:100-107 | a longer seed list extends the shorter one's list |
| Services.ExpandedKeepsSeed | src/services.js:104-105 | a non-moodboard seed is listed |
| Services.ProjectDownloads | src/services.js:252-270 | one download per image |
| Services.DownloadProjects | src/services.js:244-274 | the project loop gives every project's downloads in order, and stops with `failed` at the first page that cannot be read |
| Services.DownloadProject | src/services.js:252-270 | the image loop numbers from 1 |
| Services.ProjectDownloadsSpec | src/services.js:227-270 | download `j` fetches image `j` into a `behance-` name without `--` ending in the counter `j + 1` and the extension |
| Services.RunDownloadsCount | src/services.js:247-270 | the run stops exactly when some page cannot be read; otherwise it writes one file per corrected image, project after project |
| Services.RunDownloadsStops | src/services.js:247-249 | after a page that cannot be read, later pages write nothing |
| Legacy.ExpandSeeds | app/js/puppeteer.js:148-160 | the seed loop: galleries kept as pasted, listings replaced by their links; the total set after each seed |
| Legacy.ListProjects | app/js/puppeteer.js:145-169 | the list and total as the list specification gives them |
| Legacy.ProjectsListSpec | app/js/puppeteer.js:162-169 | entries cut at `?`; when skipping none is in the history and every unlisted cut entry stays; without the skip nothing is dropped |
| Legacy.ExpandedKeepsCopies | app/js/puppeteer.js:148-154 | a gallery pasted twice is listed twice |
| Legacy.SaveListSpec | app/js/puppeteer.js:297-303 | a save lists the URL, adds at most that URL, leaves a listed URL's list unchanged, and is idempotent |
| Legacy.SavedFileReadsBack | app/js/puppeteer.js:297-303 | the untrimmed file a save writes reads back as the saved list |
| Legacy.SaveToHistory | app/js/puppeteer.js:297-303 | only an unlisted URL rewrites the file, with the whole list |
| Legacy.ImageLoopSpec | app/js/puppeteer.js:361-376 | the image loop counts nothing and leaves the history alone; an abort seen before it leaves everything but the checks |
| Legacy.ProjectStepSpec | app/js/puppeteer.js:357-386 | a page that cannot be read rejects the run and changes nothing else; a read page completes at most once and adds at most its page URL to the history, only when it completes |
| Legacy.RunExtends | app/js/puppeteer.js:352-387 | the run only counts up and appends; once the flag is seen set nothing more changes |
| Legacy.RunAllComplete | app/js/puppeteer.js:352-387 | a run ending neither aborted nor crashed completes every remaining project |
| Legacy.RunAllSaved | app/js/puppeteer.js:357-380 | such a run has read every remaining page and has its URL in the history |
| Legacy.StepSaved | app/js/puppeteer.js:357-380 | a project that neither rejects the run nor sees the flag set had its page read and its URL saved |
| Legacy.RunHistory | app/js/puppeteer.js:378-380 | every URL added to the history is one of those page URLs |
| Legacy.ImageLoopValid | app/js/puppeteer.js:361-376 | every file operation of the image loop keeps the folder consistent |
| Legacy.RunValid | app/js/puppeteer.js:352-387 | the whole run keeps the folder consistent |
| Legacy.EndingSpec | app/js/puppeteer.js:389-395 | `task:skipped` exactly for an empty list, `task:done` exactly for a non-empty one with the flag clear, never both |
| Legacy.NextImage | app/js/puppeteer.js:361-376 | one image turn: the check, then the placement unless stopped, with the folder listed in `strcmp` order afterwards |
| Legacy.DownloadImages | app/js/puppeteer.js:361-376 | the image loop equals its specification |
| Legacy.NextProject | app/js/puppeteer.js:352-386 | one project turn equals the run step, including the rejection on an unreadable page; a save appends exactly the page URL |
| Legacy.FinishProject | app/js/puppeteer.js:378-386 | the end of a project: the check, then the save and the count |
| Legacy.DownloadAll | app/js/puppeteer.js:352-387 | the project loop equals the run specification, and the history file mirrors it |
| Legacy.LegacyTask.constructor | app/js/puppeteer.js:57-72 | the four counters `initPuppeteer` zeroes, an empty project list, the flag clear |
| Legacy.LegacyTask.GenerateProjectsList | app/js/puppeteer.js:140-174 | history read from its file; list, total, to-download and passed counts as specified |
| Legacy.LegacyTask.SaveProjectToHistory | app/js/puppeteer.js:297-303 | the list and file after a save, with every other field unchanged |
| Legacy.LegacyTask.DownloadProjects | app/js/puppeteer.js:347-396 | folder, history, counter, flag and final signal are the run and ending specifications applied to the old state |

## Left out

- Browser automation is left out: launch, login, page loads, `page.evaluate`, scrolling until the page stops growing, and request interception. What these return enters as parameters by project and listing.
- HTTP fetching and streaming. A fetch is reduced to the size it leaves on disk, or `None`.
- EXIF reading and writing with piexif, and `JSON.stringify`. Only the JPEG test on the path (`Naming.IsJpegPath`) and the size the rewrite leaves are kept.
- Transliteration is an arbitrary function `latinize`.
- `Folder.KbKey`: `toFixed(2)` is modelled as exact rounding of the hundredths. Binary floating-point rounding at exact halves is not modelled.
- `Numbers.TwoDigits`: grouping is modelled from 1000 on, but no file-name property is claimed for indices of 1000 or more.
- The abort handler runs asynchronously. The model samples the flag at each check instead of modelling concurrency.
- `path.join` and `path.dirname`: a path is a folder and a file name, without normalisation.
- In `src/download-pw.ts`, `page.evaluate` rejections outside the page scripts, and write errors of the history file, are not modelled.
- The update messages sent to the renderer, `console.log`, the waits between steps, `createDirectoryIfNotExists` and `createDirIfNotExists` are not modelled.
- `launchProcessingTask` only sequences the modelled steps and browser work, and calls the missing `resetPlaywrightDataInState`. The history read it does at its start is `History.TextFile.ReadLines`.
- In `app/js/puppeteer.js`, null hrefs from `getPageProjects` are not modelled. Links enter as strings.
- In `src/services.js`, fetch failures are not modelled. Every download is taken to succeed.
- `Services.DownloadProjects` records the download list but not the EXIF write that follows each file.
- The compiled copies under `dist/` are not modelled separately. Their one behavioural difference is the line break `os.EOL`, which is the `eol` parameter of `History`.
- The Electron windows, IPC and the configuration loading are not modelled.
- ShownSpec (`Naming.ShownSpec`): lengths are counted in Unicode characters, but `formatUrlForUi` counts UTF-16 code units in `length` and `substring`. For a URL holding a character outside the Basic Multilingual Plane, the cut and the "exactly `max` long" result are off from the program's. `Naming.Prefix`, `Naming.FormatUrlForUi` and `Naming.Shown` count the same way.
- FormatUrlForUiLong (`Naming.FormatUrlForUiLong`): the same counting in characters rather than UTF-16 code units applies to its cut.
- ShortenUrlSpec (`Naming.ShortenUrlSpec`): `shortenUrl` compares `length` and cuts with `slice` in UTF-16 code units. The model counts characters, here and in `Naming.ShortenUrl` and `Naming.JsSlice`.
- `readdirSync` order is modelled as libuv's `strcmp` sort. NTFS lists names case-insensitively, an order that can differ for names with upper-case letters, `_` or non-ASCII characters. The stems of the generated `behance-...` names hold only lower-case letters, digits and `-`.
