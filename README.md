# dou-black-list, modelled in Dafny

dou-black-list is a browser content script for the comment threads of
dou.ua. For each comment it:

- adds a ban button next to the author's name;
- fetches the author's profile page and shows a small info block with the
  author's comment count, topic count and years since registration;
- hides the content of comments whose author is banned behind a
  placeholder, which a click reveals.

The ban map (author id to "banned") lives in memory and in localStorage.

This project models the logic of the script, `extension.ts`:

- the author id taken out of the profile link (`getAuthor`);
- the ban map and its stored copy (`getStorage`, `updateStorage`,
  `isCommentFromBanned`);
- the index of comments by author, with one stats slot per author
  (`indexOne`);
- the author header's controls (`addBanButtonAndInfo`): the old ones
  removed, the ban button's label, the info block in summary or long form,
  and the info block's click;
- the hide/reveal state of a comment (`hideContentIfNeeded` and the
  comment's click handler);
- the parsing half of `fetchStats` (registration line, years since
  registration, activities and their short labels);
- the loops over an author's comments (the ban button's handler, the
  arrival of stats) and the initial pass over the page.

Files:

- `wrappers.dfy`: `Option` and `Result`.
- `text.dfy` (module `Text`): the JavaScript string operations the script
  chains:
  - `trim` and `split("\n").slice(-1)[0]`;
  - the replacements used as filters;
  - `slice(-4)`, `parseInt` and `toString(10)`;
  - `join`.
- `authors.dfy` (module `Authors`): `getAuthor` as a leftmost, greedy match
  of `users\/(.+)\/`, and `getUrl`.
- `store.dfy` (module `BanStore`): the ban map, its stored document,
  `isCommentFromBanned` and the toggle.
- `stats.dfy` (module `Stats`): the stats record, its parsing and the
  compact summary text.
- `comments.dfy` (module `Comments`): one comment.
  - Its content is the author link's `href`, the text element's text and
    the author header's children.
  - Its state is the saved `data-banned` copy and its click handler.
  - The functions in it state what each operation does to one comment.
- `overlay.dfy` (module `Overlay`): the script's closure state as the class
  `BlackList`.
  - The state is the ban map, its stored copy, the index and the page's
    comments.
  - Each DOM update and each `forEach` loop is a method proved equal to a
    fold over the comments it visits.
  - The folds' properties are proved as lemmas.
  - Every method keeps the class invariant `Valid`: the stored document
    loads as the ban map, the index refers only to comments on the page,
    every indexed author's stats are requested, and every comment is
    consistent (a saved copy exists only behind the placeholder with the
    reveal handler).

Comments are referred to by their position on the page, so an index entry
holding the same comment twice behaves as in the script.

## Model

| member | source | states |
|---|---|---|
| Authors.GetAuthor | extension.ts:42-44 | no link or an empty `href` (the placeholder's anchor) gives no author; an author id is never empty and never spans a line break |
| Authors.MatchAt | extension.ts:43 | a match starting at a position begins with `users/`, and its capture runs from just after it to a `/` on the same line, after which the line holds no `/` |
| Authors.Capture | extension.ts:43 | a capture is never empty and never spans a line break |
| Authors.MatchAtIsGreedy | extension.ts:43 | measured against `IsMatch` (`users/`, then one or more characters that are not line terminators, then `/`): no match starts at a position exactly when `MatchAt` finds none; otherwise `MatchAt` finds a match and its end is the last one possible |
| Authors.NoCaptureNoMatch | extension.ts:43 | there is no capture from a position on exactly when no match starts at or after it |
| Authors.GetAuthorNoMatch | extension.ts:43 | `getAuthor` gives no author exactly when the `href` holds no match |
| Authors.GetAuthorLeftmostGreedy | extension.ts:43 | the id is the capture of the match that starts leftmost and, among those, ends last |
| Authors.CaptureSkips | extension.ts:43 | positions where no match starts do not change the leftmost match |
| Authors.ProfileLinkRoundTrip | extension.ts:43 | the id read from a profile link built for an author is that author, even when the id holds `/` or `users/`, and whatever follows the link short of a `/` |
| Authors.ActivitiesUrl | extension.ts:48 | `getUrl` gives the author's profile link followed by `activities/` |
| Authors.ActivitiesUrlIsGreedy | extension.ts:43-48 | reading an author id from the author's activities URL gives the id followed by `/activities`, because the match is greedy |
| BanStore.Load | extension.ts:46-47 | a missing or empty document reads as the empty map; loading fails exactly when the document is malformed |
| BanStore.SaveLoadRoundTrip | extension.ts:46-59 | what `updateStorage` stores loads back as the same map |
| BanStore.IsCommentFromBannedAsWritten | extension.ts:54-55 | as written, a comment without a resolvable author counts as banned exactly when the id "undefined" is banned |
| BanStore.IsCommentFromBanned | extension.ts:54-55 | a comment counts as banned only when its author resolves |
| BanStore.BannedReadingsAgree | extension.ts:54-55 | the as-written ban test agrees with the corrected one on every resolvable author; with no author it reads the flag of the id "undefined" |
| BanStore.Updated | extension.ts:58 | setting one key adds that key with the given value and keeps every other key and value |
| BanStore.Toggled | extension.ts:88 | a confirmed toggle flips the author's status (an absent key counts as not banned) and keeps every other author's |
| BanStore.ToggleTwice | extension.ts:88 | toggling the same author twice gives every author back their status |
| Overlay.BlackList.UpdateStorage | extension.ts:57-60 | the in-memory map gets the one key set and the stored document becomes the serialisation of the whole new map, which loads back as that map |
| Overlay.PushFiles | extension.ts:171-178 | the comment goes last in its author's list, even when it is listed already; the list is created on first sighting; the stats are requested only when the slot is empty; every other entry is kept |
| Overlay.IndexedAuthor | extension.ts:163-170 | a comment is filed exactly when its author resolves and its text is non-empty, and it is filed under that author |
| Overlay.Indexed | extension.ts:162-179 | `indexOne` throws exactly when the author resolves and the text element is missing; a skipped comment leaves the index as it was; otherwise the comment is pushed under its author |
| Overlay.IndexedKeepsShape | extension.ts:162-179 | indexing keeps every handle on the page and every entry's stats requested |
| Overlay.BlackList.IndexOne | extension.ts:162-179 | the index becomes what `Indexed` gives and only moves forward; `requested` holds exactly when the comment's author had no entry before |
| Text.RemoveTabs | extension.ts:197 | the result holds no tab |
| Text.RemoveTabBetween | extension.ts:197 | removing the tab between two tab-free texts joins them |
| Text.FilterAppend | extension.ts:197-203 | a filter keeps the order: the filter of a concatenation is the concatenation of the filters |
| Text.FilterKeepsCount | extension.ts:197-203 | a filter keeps every occurrence of an accepted character |
| Text.TrimStartDropsWhiteSpace | extension.ts:198 | what `trimStart` drops is white space |
| Text.TrimEndDropsWhiteSpace | extension.ts:198 | what `trimEnd` drops is white space |
| Text.Trim | extension.ts:198 | the trimmed text neither starts nor ends with white space |
| Text.TrimKeepsCharacters | extension.ts:198 | the trimmed text is the slice of the input between its leading and trailing white space, and holds no other character |
| Text.LastLine | extension.ts:199-200 | the last line is a suffix without a newline, preceded by a newline unless it is the whole text |
| Text.LastLineKeepsCharacters | extension.ts:199-200 | the last line holds no character the text does not hold |
| Text.LastLineAfterNewline | extension.ts:199-200 | the last line of `a + "\n" + b` is `b` when `b` has no newline |
| Text.TakeLast | extension.ts:203 | `slice(-4)` gives the last four characters, or the whole text when it is shorter |
| Text.KeepDigits | extension.ts:203 | removing the non-digits leaves only digits |
| Text.DigitsValue | extension.ts:203 | `parseInt` of `n` digits is below `10^n` |
| Text.NatToStringRoundTrip | extension.ts:202-204 | reading back the decimal text of a number gives the number |
| Text.IntToString | extension.ts:202-204 | the text is the number's decimal digits, with no leading zero (short of "0" itself), preceded by a minus sign exactly when the number is negative |
| Text.Join | extension.ts:115 | the joined text is empty for no parts, and otherwise starts with the first part and ends with the last |
| Stats.Registration | extension.ts:195-200 | the registration line holds no newline |
| Stats.RegistrationHasNoTab | extension.ts:195-200 | the registration line holds no tab |
| Stats.RegistrationOfTwoLines | extension.ts:195-200 | for a status of two lines whose second line is tab-indented, the registration is the second line |
| Stats.RegistrationExample | extension.ts:195-200 | `"Joined:\n\tSep 2015"` gives the registration line `"Sep 2015"` |
| Stats.RegistrationYear | extension.ts:203 | there is no year exactly when the line holds no digit; a year has at most four digits |
| Stats.YearAtEndOfLine | extension.ts:203 | a line ending in four digits, with no digit before them, gives those four digits as the year |
| Stats.RegistrationShort | extension.ts:202-204 | the result is "NaN" exactly when there is no year; otherwise it is the decimal text of YEAR minus the year, without a leading zero |
| Stats.RegistrationShortExample | extension.ts:202-204 | "Sep 2015" read in 2024 gives "9" |
| Stats.NonEmptyItems | extension.ts:211 | the kept items are exactly the menu items with non-empty text |
| Stats.NonEmptyItemsAppend | extension.ts:211 | the items keep document order: the items of a concatenation are the items of its parts, one after the other |
| Stats.SelectedItems | extension.ts:211-212 | the selection is the second and third non-empty items, as far as they exist (0, 1 or 2 items) |
| Stats.Activities | extension.ts:206-213 | one activity per selected item (so at most two), each the first element child of that item |
| Stats.ActivitiesShort | extension.ts:214-216 | the short labels are exactly the non-empty `sub` texts of the activities: none is empty, each is some activity's, and every activity's non-empty `sub` is among them |
| Stats.ActivitiesShortAppend | extension.ts:214-216 | the labels keep the order of their activities: the labels of a concatenation are the labels of its parts, one after the other |
| Stats.LabelsOfTwoActivities | extension.ts:108-113 | with both activities labelled, the first label (shown as "c.") is the first activity's and the second (shown as "t.") the second's |
| Stats.LabelMovesUp | extension.ts:108-113 | when the first activity has no label, the second activity's label takes the first place, which the summary marks "c." |
| Stats.BuildStats | extension.ts:195-222 | the stored record holds the registration line, its years-since text, the activities and exactly their short labels; it starts collapsed |
| Stats.ParseProfile | extension.ts:195-216 | parsing succeeds exactly when the status region and the menu exist and every selected item has an element child; it reports the first lookup that throws (status region, then menu, then a selected item without an element child) |
| Stats.SummaryParts | extension.ts:103-114 | the compact text has one to three parts |
| Stats.SummaryPartsShape | extension.ts:103-114 | one part per non-empty label, plus the years part, which is always last; the comments label is first when present; the topics label is second to last when present |
| Stats.Summary | extension.ts:103-115 | the compact text always ends with `<years> yo.` |
| Stats.SummaryStarts | extension.ts:103-115 | the compact text starts with `<comments> c.` when that label is non-empty |
| Stats.SummaryText | extension.ts:103-115 | the compact text is `<c> c. \| ` when the comments label is non-empty, then `<t> t. \| ` when the topics label is non-empty, then `<years> yo.`, covering all four shapes |
| Stats.SummaryWithOneLabel | extension.ts:103-115 | with exactly one label present the text is that label, marked `c.` in the first place or `t.` in the second, then ` \| <years> yo.` |
| Stats.SummaryWithoutLabels | extension.ts:103-115 | with no label present the text is `<years> yo.` alone |
| Stats.JoinTwo | extension.ts:115 | two parts joined are the first part, the separator and the second part |
| Stats.SummaryWithBothLabels | extension.ts:103-115 | with both labels present the text is `<c> c. \| <t> t. \| <y> yo.` |
| Comments.PlaceholderHasNoAuthor | extension.ts:20-35 | the placeholder's anchor has no `href`, so a hidden comment has no author |
| Comments.CountAppend | extension.ts:67-76 | counting controls, and listing the page's own header children, distribute over concatenation |
| Comments.RemoveFirst | extension.ts:67-76 | removing the first control of a kind takes one of that kind away when there is one, and keeps every other kind and the page's own children |
| Comments.RemoveFirstSkips | extension.ts:67-76 | removal skips a leading part that holds nothing of the kind |
| Comments.OnlyOne | extension.ts:67-76 | with at most one control of a kind, two controls of that kind are the same control |
| Comments.ButtonFor | extension.ts:77-80 | the button's title is "unban" exactly for a banned author |
| Comments.InfoFor | extension.ts:104-121 | the info block shows the long form exactly when the stats have been expanded |
| Comments.Rendered | extension.ts:62-125 | a render keeps the author link and the text |
| Comments.RenderedOutcome | extension.ts:62-125 | a render keeps the page's own header children; it leaves a comment without author alone; it throws exactly when the author has no index entry |
| Comments.RenderedHeader | extension.ts:67-124 | after a render the header holds the author's current button, one button and, exactly when the stats are stored, one info block for those stats |
| Comments.RenderedLabel | extension.ts:77-80 | every ban button in the rendered header is the author's button, titled "unban" exactly when the author is banned |
| Comments.StripAppended | extension.ts:67-76 | removing the first button and the first info block undoes what one render appended |
| Comments.RenderedIdempotent | extension.ts:62-125 | rendering a rendered comment again changes nothing |
| Comments.Restore | extension.ts:137-158 | a reveal puts back the rendered saved content and clears the saved copy; it installs the empty handler only when the render did not throw |
| Comments.Hide | extension.ts:133-147 | hiding saves the current content and shows the placeholder |
| Comments.HideWith | extension.ts:127-160 | no text element: nothing changes; banned: hidden, whatever was shown; not banned with a saved copy: revealed; not banned without one: nothing changes |
| Comments.HideContentIfNeeded | extension.ts:127-160 | hiding and revealing keep the comment consistent: a saved copy exists only behind the placeholder with the reveal handler |
| Comments.HideContentIfNeededAsWritten | extension.ts:127-160 | the as-written ban test also keeps the comment consistent |
| Comments.Click | extension.ts:135-149 | only the hide/reveal handler reacts; on a hidden comment it reveals it as `Restore` says (saved content put back, rendered against the flags and index of the moment, saved copy cleared, empty handler when the render passes); on a shown comment it hides it again; it keeps the comment consistent |
| Comments.Refreshed | extension.ts:90-93 | one turn of the ban button's loop keeps the comment consistent |
| Comments.NotBannedUntouched | extension.ts:150-159 | a comment whose author is not banned and that has nothing saved is left as it is |
| Comments.RefreshHidesBanned | extension.ts:90-93 | a shown comment of a banned author is hidden and saves its freshly rendered content |
| Comments.RevealRestores | extension.ts:133-143 | hiding and then clicking shows the content as rendered before hiding, with the empty handler |
| Comments.RefreshRevealsUnbanned | extension.ts:150-158 | after an unban, a hidden comment shows its saved content rendered with the new status, with the empty handler |
| Comments.ReapplyReveals | extension.ts:127-160 | applied to a hidden comment, the corrected `hideContentIfNeeded` always reveals it |
| Comments.AsWrittenLosesSavedContent | extension.ts:54-55 | as written, once "undefined" is banned, a hidden comment gets the placeholder saved over its content, and a click then shows the placeholder |
| Comments.AsWrittenAgrees | extension.ts:54-55 | as long as the id "undefined" is not banned, `hideContentIfNeeded` with the as-written test does exactly what the corrected one does |
| Comments.AsWrittenHidesAuthorless | extension.ts:54-55 | as written, once "undefined" is banned, a comment with text but no author is hidden; the corrected version leaves it alone |
| Overlay.StepOf | extension.ts:90-93 | each loop step keeps the comment consistent |
| Overlay.ApplyEach | extension.ts:90-93 | the loop keeps the page's comments (their number) |
| Overlay.ApplyEachOutside | extension.ts:89-93 | comments the loop does not visit (other authors' comments) are unchanged |
| Overlay.ApplyEachStops | extension.ts:90-93 | once a step throws, the rest of the loop does nothing |
| Overlay.ApplyEachAt | extension.ts:90-93 | a completed loop over distinct comments applies the step exactly once to each of them, to the comment as it was before the loop |
| Overlay.StepPasses | extension.ts:90-98 | a step on a comment whose authors have index entries does not throw |
| Overlay.ApplyEachPasses | extension.ts:90-93 | a loop over distinct comments whose authors have index entries completes |
| Overlay.BanHidesAll | extension.ts:87-93 | after a ban, every shown comment of the author that has a text element is hidden with its freshly rendered content |
| Overlay.UnbanRevealsAll | extension.ts:87-93 | after an unban, every hidden comment of the author shows its saved content rendered with the new status |
| Overlay.BlackList.AddBanButtonAndInfo | extension.ts:62-125 | only the comment at `h` changes, to its rendered content, and the outcome is the render's |
| Overlay.BlackList.HideContentIfNeeded | extension.ts:127-160 | only the comment at `h` changes, as `hideContentIfNeeded` says |
| Overlay.BlackList.Refresh | extension.ts:91-92 | render, then hide or reveal unless the render threw; only the comment at `h` changes |
| Overlay.BlackList.ClickComment | extension.ts:135-149 | only the comment at `h` changes, as its click handler says |
| Overlay.BlackList.ClickBanButton | extension.ts:81-95 | declined: nothing changes, the stored document included; confirmed: the author's flag is toggled and stored, then either the lookup throws (no entry) or every comment of the author is refreshed in index order, up to the first throw |
| Overlay.BlackList.RenderEach | extension.ts:223 | the loop gives the fold `ApplyEach` with `Render` over the handles |
| Overlay.BlackList.RefreshEach | extension.ts:90-93 | the loop gives the fold `ApplyEach` with `RenderAndHide` over the handles |
| Overlay.SlotUpdateKeepsShape | extension.ts:217-222 | storing a later slot keeps the handles and moves the index forward |
| Overlay.BlackList.ClickInfoBlock | extension.ts:116-120 | on any comment showing a summary block of its author's stored stats (also one left stale after another comment of the author was expanded), the author's stats are marked expanded, the index only moves forward, and the re-rendered comment shows the long form |
| Overlay.BlackList.ReceiveStats | extension.ts:195-223 | a page that fails to parse changes nothing; otherwise the parsed record is stored in the author's slot and each of the author's comments is rendered, up to the first throw |
| Overlay.BlackList.StoreStats | extension.ts:217-223 | the record is stored in the author's slot, and the loop gives the fold `ApplyEach` with `Render` over the author's comments |
| Overlay.ActivateOne | extension.ts:228-232 | one turn of the initial pass indexes the comment and changes no other comment |
| Overlay.Activated | extension.ts:227-233 | the pass keeps the page's comments (their number) |
| Overlay.ActivatedAt | extension.ts:227-233 | on a fresh page the pass leaves at each comment it reached what that comment's own turn made of it (rendered, then hidden or not), against the index as it stood after filing it; later turns do not touch it |
| Overlay.ActivationShows | extension.ts:227-233 | after the pass over a fresh page, every reached comment whose author resolves carries the ban button for the author's status; a banned author's comment is hidden behind the placeholder with its rendered content saved, and any other comment shows its rendered content |
| Overlay.ActivatedOutside | extension.ts:227-233 | the pass does not touch comments it has not reached |
| Overlay.ActivatedStep | extension.ts:227-233 | while the pass has not thrown, one more comment is one more turn |
| Overlay.ActivatedStops | extension.ts:227-233 | once the pass has thrown, the rest of the page is not processed |
| Overlay.Listed | extension.ts:171-174 | the comments filed under an author are exactly the comments among the first `n` that the pass files under that author, in increasing order |
| Overlay.IndexedUpToListsInOrder | extension.ts:162-179 | indexing the page from an empty index gives an entry exactly for the authors with a filed comment; each entry lists that author's comments in document order and has its stats pending |
| Overlay.FreshPagePasses | extension.ts:227-233 | on a freshly loaded page where every comment with an author has text, no turn throws, and the index is the one indexing alone builds |
| Overlay.ActivationIndexesInOrder | extension.ts:227-233 | on such a page the pass completes, with every author's comments listed in document order and every author's stats pending |
| Overlay.BlackList.ActivateAt | extension.ts:228-232 | one turn is the next step of the fold `Activated`; it reports whether it started the author's stats request |
| Overlay.BlackList.Activate | extension.ts:226-233 | the loop gives the fold `Activated` over the whole page |
| Overlay.Served | extension.ts:227 | the page as served: one comment per comment element, nothing hidden and no handler |
| Overlay.BlackList.constructor | extension.ts:51-53 | the ban map is the loaded one, the index is empty and every comment is as the page served it |
| Overlay.Start | extension.ts:50-53 | `getStorage` at start-up: a malformed stored document stops the script before it touches the page; otherwise the ban map is the loaded one, and the index, the comments and the outcome are those of the initial pass over the page as served |

## Left out

- Network and asynchrony are left out: `fetch`, `response.text()`, the `setTimeout` retry and the `inProgressPromises` admission counter (extension.ts:181-192).
  - The counter is not decremented on a response that is not ok. After three such responses every later request only reschedules itself, so those authors' slots stay pending for good. The model cannot see this.
  - Stats arrive as the operation `ReceiveStats`, which may come at any time for an author whose slot is pending.
- Parsing HTML is left out. The fetched page is given as the text of its status region and the child nodes of its content menu. A comment is given as its author link's `href`, its text and its author header's children.
- `JSON.parse`, `JSON.stringify` and localStorage are left out. The stored document is the map it encodes; a malformed one is a separate case.
  - BanStore.Toggled: assumes stored values are booleans, as the script writes them. A hand-edited document with other JSON values is not modelled.
- `confirm` is the boolean `confirmed`, and the year from the clock is the `year` parameter.
- `console.time`, `console.log` and the `window.__dou_black_list__` export are left out (extension.ts:94, extension.ts:226, extension.ts:234-236).
- DOM node identity is left out.
  - `appendChild` moves the activity elements into the long info block, so a second comment of the same author would take them away from the first.
  - The model copies the elements instead.
- Keys inherited from `Object.prototype` are left out. For example, for an author id such as `constructor`, `index[a]` and `storage[a]` find inherited values.
- Overlay.BlackList.ClickBanButton: requires the comment to show a ban button and its author to resolve (`Overlay.ShowsBanButton`). A render appends the button only for a resolvable author, and the handler reads the author again at click time.
- Overlay.BlackList.ClickInfoBlock: requires the comment to show a summary info block of its author's stored stats, the only info block with a handler. Because `preventDefault` does not stop propagation, the click also reaches the comment's own handler. That is `ClickComment`, a separate call.
- Overlay.BlackList.Activate: does not report which authors' stats it requested. Each turn reports it in `ActivateAt`'s `requested`.
- The members below follow the corrected ban test of the Findings row (a comment without a resolvable author is never banned), not the script's `storage["undefined"]` reading. Each does exactly what the script does as long as the id "undefined" is not banned (`Comments.AsWrittenAgrees`); with that id banned they reveal a hidden comment and leave an authorless comment alone where the script saves the placeholder over it or hides it (`Comments.AsWrittenLosesSavedContent`, `Comments.AsWrittenHidesAuthorless`).
- Comments.Refreshed: follows the corrected ban test; the script's turn differs only when the id "undefined" is banned.
- Comments.RefreshRevealsUnbanned: holds of the corrected ban test; of the script's, only when the id "undefined" is not banned.
- Overlay.StepOf: follows the corrected ban test in its `RenderAndHide` step; the script's differs only when the id "undefined" is banned.
- Overlay.UnbanRevealsAll: holds of the corrected ban test; of the script's, only when the id "undefined" is not banned.
- Overlay.ActivateOne: follows the corrected ban test; the script's turn differs only when the id "undefined" is banned.
- Overlay.Activated: folds the corrected turn; the script's pass differs only when the id "undefined" is banned.
- Overlay.ActivatedAt: states the corrected turn's result; the script's differs only when the id "undefined" is banned.
- Overlay.ActivationShows: holds of the corrected ban test; of the script's, only when the id "undefined" is not banned.
- Overlay.BlackList.HideContentIfNeeded: follows the corrected ban test; the script's differs only when the id "undefined" is banned.
- Overlay.BlackList.Refresh: follows the corrected ban test; the script's differs only when the id "undefined" is banned.
- Overlay.BlackList.RefreshEach: folds the corrected turn; the script's differs only when the id "undefined" is banned.
- Overlay.BlackList.ClickBanButton: folds the corrected turn; the script's differs only when the id "undefined" is banned.
- Overlay.BlackList.ActivateAt: follows the corrected ban test; the script's turn differs only when the id "undefined" is banned.
- Overlay.BlackList.Activate: folds the corrected turn; the script's differs only when the id "undefined" is banned.
- Overlay.Start: its initial pass follows the corrected ban test; the script's differs only when the id "undefined" is banned. A throw in the pass ends the script's set-up, and the export that follows is left out.
- Text.Join: states the first and the last part of the joined text; the full text of every summary the script joins (one, two or three parts) is stated by `Stats.SummaryText`.
- The model follows the script in these cases:
  - a malformed stored document makes `getStorage` throw; only a missing or empty one reads as `{}`;
  - `indexOne` throws when the author resolves but the comment has no text element; only empty text is skipped;
  - applying `hideContentIfNeeded` to a hidden comment reveals it, so applying it twice to a banned comment shows the comment again (`Comments.ReapplyReveals`);
  - rendering a comment whose author has no index entry throws after the ban button is appended, so the initial pass stops at a comment with empty text by an author not yet indexed;
  - a summary info block left on another comment of an author whose stats were expanded elsewhere keeps its click handler, and a click on it renders the long form there.
- The "hide again" branch of the comment's click handler (extension.ts:145-147) is modelled, but the script never reaches it. It needs a reveal whose render throws, and no reveal's render can throw:
  - a comment is hidden only after its own render passed, or by the ban loop over its author's index entry, so the author of its saved content has an index entry, and entries are never removed;
  - a comment hidden by the as-written "undefined" test saves content with no author, whose render returns before the index lookup.
  - the model does not carry "a hidden comment's saved author is indexed" as an invariant, so `Comments.Click` states the branch as the handler is written.

## Findings

| source | as written | input that shows it | evidently intended | confidence | as-written member | corrected member |
|---|---|---|---|---|---|---|
| extension.ts:54-55 | with no resolvable author, `storage[getAuthor(comment)]` reads `storage["undefined"]`; this covers the placeholder of a hidden comment | the id "undefined" is banned; author `a` has one comment revealed by a click and one still hidden, and `a` is unbanned from the revealed one's button: the hidden one gets the placeholder saved over its content and can never be revealed; also, any comment with text but no author link is hidden | a comment without a resolvable author is never treated as banned | not executed | Comments.HideContentIfNeededAsWritten, Comments.AsWrittenLosesSavedContent, Comments.AsWrittenHidesAuthorless | Comments.HideContentIfNeeded, Comments.ReapplyReveals |
