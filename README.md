# Image board core, modelled in Dafny

This project models the core of a small PHP image board (a "chan"). It covers four scripts:

- **b/index.php** — the public board.
- **b/mod.php** — the moderator panel.
- **b/catalogo.php** — the catalog page.
- **b/get_catalog.php** — its AJAX fragment.

Everything is stated in the board's own terms:

- **The tables.** The unified `posts` table holds threads and replies. The `mentions` table holds `>>N` quote links. There is also a `settings` table, and the upload files on disk.
- **Public submission.** Checks run in the source's order: CSRF token, read-only switch, empty body, per-session cooldown, word filter, and for a reply the thread lookup and upload checks. After that the row is inserted, its quote links are registered, a reply's thread is bumped, and the cooldown is restarted.
- **Self-deletion** of a post by its password.
- **The word filter** and its maintenance in the panel.
- **Stylesheet selection.**
- **Listings.** The index pager and listing, the moderator pager, and the reply preview under each thread.
- **The two catalogs.**
- **The moderator panel.** Input sanitizers, the settings form, the moderator's own posting form, the message editor, and the moderation actions: approve, reject, delete, lock, sticky.

Modules:

| module | content |
|---|---|
| `Base` | Option/Outcome, Filter, Count, Map, IndexOf |
| `Php` | The PHP built-ins the core relies on, written out: `trim`, `(int)`, `FILTER_VALIDATE_INT`, `mb_strtolower`, `strpos`, `htmlspecialchars` and its decoding, `preg_split('/\s+/')`, `preg_replace('/\s+/', ' ')`, `implode`, `basename`, `pathinfo` |
| `Ordering` | `ORDER BY … DESC` as a sort proved sorted and a permutation |
| `WordFilter` | `checkWordFilters()`, and `word_filters.json` as a class whose lists the panel edits in place |
| `AntiSpam`, `Session` | The cooldown, and the visitor's session and style cookie as a class |
| `Styles` | `getCurrentStyle()` of both pages |
| `Mentions` | `extractMentions()` |
| `Board` | The database as a class `Db`. Each method is one SQL statement. `WellFormed` is its invariant: AUTOINCREMENT ids, replies under existing threads, mention rows between existing posts |
| `Public` | The b/index.php handlers |
| `Listing` | Pagination, listings and the reply preview |
| `Catalog` | Both catalogs |
| `Moderation` | The b/mod.php handlers |

Handlers that change state are methods on the `Db`, `Visitor` and `FilterStore` objects. Each is proved against a function of the old state, and the lemmas state what the source promises about that function.

## Model

| member | source | states |
|---|---|---|
| AntiSpam.CheckAntiSpam | b/index.php:117-134 | A session may post exactly when it never posted or ANTI_SPAM_TIME seconds have passed since its last post. Otherwise the wait is positive and ends exactly ANTI_SPAM_TIME seconds after the last post. |
| AntiSpam.RemainingTimeAgrees | b/index.php:142-156 | getAntiSpamRemainingTime() is 0 exactly when checkAntiSpam() lets the session post. Otherwise it equals the wait checkAntiSpam() reports. |
| AntiSpam.WaitMessage | b/index.php:125-129 | The refusal message contains the remaining wait written in decimal. |
| AntiSpam.CooldownWindow | b/index.php:117-139 | After a post at time t, a post at t is refused with a wait of ANTI_SPAM_TIME, and any post from t + ANTI_SPAM_TIME on passes. |
| Styles.IndexCurrentStyle | b/index.php:1174-1200 | The style shown is always an available one (or 'yotsuba' when none exists). A usable cookie wins over a usable session value, and that wins over the fallback ('yotsuba', then the first style). |
| Styles.CatalogCurrentStyle | b/catalogo.php:49-80 | The same precedence as the index, with 'miku' tried between 'yotsuba' and the first style. |
| Styles.CurrentStylesAgree | b/catalogo.php:68-77 | The index and the catalog show different styles exactly when neither preference is usable, 'yotsuba' is missing, 'miku' exists and is not the first style. |
| Session.Visitor.constructor | b/index.php:110-115 | A new session has last-post time 0 and no style preference. |
| Session.Visitor.RegisterAntiSpam | b/index.php:136-139 | The last-post time becomes now. The style preferences are untouched. |
| Session.Visitor.SwitchStyle | b/index.php:1268-1289 | A request redirects exactly when the requested style is available. It then sets both the cookie and the session to it; otherwise nothing changes. |
| Session.SwitchedStyleIsCurrent | b/index.php:1202-1205 | After a switch, both pages show the requested style. |
| WordFilter.StripTrailing | b/index.php:87-88 | The stripped token is the longest prefix ending in a letter or digit. Everything cut off is neither. |
| WordFilter.AnyTokenIs | b/index.php:84-91 | The inner loop finds a hit exactly when some lower-cased, stripped token equals the lower-cased filter word. |
| WordFilter.CheckWordFilters | b/index.php:77-103 | The two nested loops return exactly BlockedWord, the function the lemmas below characterise. |
| WordFilter.FirstExactIsFirst | b/index.php:80-92 | When the i-th exact word is the first one that hits, it is the one returned. |
| WordFilter.FirstExactNone | b/index.php:80-92 | No exact word is returned exactly when none hits. |
| WordFilter.FirstSubstringIsFirst | b/index.php:95-100 | When the i-th contains-word is the first occurring in the lower-cased text, it is the one returned. |
| WordFilter.FirstSubstringNone | b/index.php:95-100 | No contains-word is returned exactly when none occurs. |
| WordFilter.BlockedWordNoneIff | b/index.php:77-103 | A text passes exactly when no exact word equals a stripped token (ignoring case) and no contains-word occurs in it (ignoring case). |
| WordFilter.BlockedWordExactFirst | b/index.php:80-92 | Exact words take precedence: the first hitting exact word is reported. |
| WordFilter.BlockedWordSubstringNext | b/index.php:95-102 | With no exact hit, the first occurring contains-word is reported. |
| WordFilter.ExactWordExample | b/index.php:84-90 | The exact filter "foo" blocks "Foo!": case is ignored and trailing punctuation is stripped. |
| WordFilter.ExactInsideWordExample | b/index.php:84-90 | The exact filter "foo" does not block "foobar". |
| WordFilter.SubstringInsideWordExample | b/index.php:95-100 | The contains filter "foo" blocks "foobar". |
| WordFilter.RemoveFirstDropsOne | b/mod.php:134-139 | Removing a listed word drops exactly one occurrence and keeps every other entry. |
| WordFilter.RemoveUndoesAppend | b/mod.php:108-146 | Removing a word right after adding it restores the list. |
| WordFilter.KindOf | b/mod.php:477-481 | The form's filter_type selects the contains list exactly when it is 'contains'; anything else means exact. |
| WordFilter.FilterStore.constructor | b/index.php:60-75 | Without a filter file, both lists are empty. |
| WordFilter.FilterStore.Add | b/mod.php:108-128 | The trimmed word is refused when it is PHP-empty, already in that list, or cannot be saved; nothing changes then. Otherwise it is appended to that list only. |
| WordFilter.FilterStore.Remove | b/mod.php:131-146 | Succeeds exactly when the word is in that list and the file is saved; its first occurrence is then removed and the gap closed. Otherwise nothing changes. The other list never changes. |
| Mentions.Matches | b/index.php:398 | Every captured group is a non-empty string of digits. |
| Mentions.MatchesSound | b/index.php:398 | Every captured group is the whole digit run that follows some ">>" in the text. |
| Mentions.MatchesComplete | b/index.php:398 | Every ">>" followed by a digit contributes its whole digit run to the matches. |
| Mentions.MatchesEmptyIff | b/index.php:396-404 | Nothing is captured exactly when no ">>" is followed by a digit. |
| Mentions.DedupSpec | b/index.php:400 | array_unique keeps each value once, loses none, and keeps first occurrences in their original order. |
| Mentions.ExtractMentionsSpec | b/index.php:396-404 | extractMentions() returns each value once, in order of first appearance, and a value is returned exactly when it is the whole digit run after some ">>" in the text. |
| Mentions.ExtractMentionsEmptyIff | b/index.php:396-404 | No mention is extracted exactly when the text has no ">>" followed by a digit. |
| Mentions.LeadingZeroDuplicate | b/index.php:396-420 | ">>05 >>5" yields both "05" and "5". These name the same post 5, so it is linked twice. |
| Board.FilesOf | b/index.php:1144-1151 | A row's files are its media and thumb paths that are not PHP-empty. |
| Board.Family | b/mod.php:1651-1653 | A thread's family is the thread and every row whose parent it is. |
| Board.FamilyFiles | b/mod.php:1635-1665 | deletePostFiles() removes exactly the files of the row and of its children. |
| Board.RowFiles | b/mod.php:1667-1685 | deleteReplyFile() removes exactly the row's own files, and none for a missing row. |
| Board.Cascade | b/index.php:236-257 | DELETE with ON DELETE CASCADE removes the roots and every row whose parent is a root. |
| Board.EdgesWithout | b/index.php:288-295 | The mention rows kept are exactly those touching no removed post. |
| Board.HardDeleteWellFormed | b/index.php:236-295 | A cascading delete keeps the invariants: no orphan reply and no dangling mention row. |
| Board.CascadeIsFamily | b/mod.php:980 | `DELETE … WHERE id = ? OR parent_id = ?` removes the same rows as the cascade of deleting the thread alone. |
| Board.MentionEdgesSpec | b/index.php:406-420 | registerMentions() adds an edge from the source to every extracted id naming a live post, and to nothing else. |
| Board.Db.constructor | b/index.php:236-295 | A fresh database has empty tables and next id 1. |
| Board.Db.Insert | b/index.php:1382-1383 | The row gets the next AUTOINCREMENT id, larger than every existing id. Only posts, next id and files change. |
| Board.Db.RegisterMentions | b/index.php:406-420 | The loop appends exactly TextMentionEdges to the mentions table and keeps the invariants. |
| Board.Db.Bump | b/index.php:1392-1393 | Only the thread's updated_at changes. |
| Board.Db.MarkDeleted | b/index.php:1227-1228 | Only the row's deleted flag changes. |
| Board.Db.Approve | b/mod.php:925-926 | The row becomes approved with approved_at now; nothing else changes. |
| Board.Db.ToggleLock | b/mod.php:1019-1020 | Only the row's locked flag flips (`1 - locked`). |
| Board.Db.ToggleSticky | b/mod.php:1029-1030 | Only the row's sticky flag flips. |
| Board.Db.SetMessage | b/mod.php:740-741 | Only the row's message changes. |
| Board.Db.HardDelete | b/mod.php:1037-1049 | The cascade of the roots is removed, with their mention rows. The invariants are kept. |
| Board.Db.RemoveFiles | b/mod.php:1628-1633 | The given paths are gone from disk; the tables are untouched. |
| Board.Db.SaveSetting | b/mod.php:354-357 | INSERT OR REPLACE sets the key to the value. |
| Board.Db.SeedSetting | b/mod.php:334-343 | A missing key is created with the value; an existing one is kept. |
| Board.GetSetting | b/index.php:377-382 | The stored value, or the default when the key is absent. |
| Board.SaveThenGet | b/mod.php:346-357 | A saved setting reads back as saved. |
| Board.ToggleInvolution | b/mod.php:1017-1035 | Lock and sticky are involutions that touch only their own flag. They flip a 0/1 flag to the other value. |
| Board.ApproveRestamps | b/mod.php:923-943 | Approving twice is not idempotent: approved_at is re-stamped. |
| Board.PublicBacklinks | b/index.php:422-433 | The public back-links of a post are exactly its mention rows from live sources, newest first. |
| Board.ModBacklinks | b/mod.php:413-423 | The panel's back-links are all its mention rows, newest first. |
| Board.BacklinksDiffer | b/mod.php:413-423 | A back-link is public exactly when the panel shows it and its source is not deleted. |
| Board.GetPostInfo | b/index.php:435-440 | A post has info exactly when it is live, and the info is its id, kind and parent. |
| Board.PostInfoThread | b/index.php:435-440 | A live reply's info names an existing thread; a thread's names no parent. |
| Listing.TotalPages | b/index.php:2615-2616 | At least one page; exactly enough pages of POSTS_PER_PAGE to hold every thread. |
| Listing.ClampPage | b/index.php:2618-2622 | The page lies within [1, totalPages]: a request below 1 gives page 1, one past the end gives the last page, and an in-range request is honoured. |
| Listing.ModRequestedPage | b/mod.php:2337 | A missing, invalid or zero page parameter reads as page 1; any other value FILTER_VALIDATE_INT accepts is the page. |
| Listing.ModRequestedPageRoundTrip | b/mod.php:2337 | A non-zero page number, spelled as FILTER_VALIDATE_INT reads it (surrounding whitespace, a '+'), is read back as itself. |
| Listing.PageInRange | b/index.php:2614-2624 | The page is in range and its offset is non-negative. When threads exist, the offset points inside the list. |
| Listing.Window | b/index.php:2630 | LIMIT/OFFSET returns at most `limit` rows, the contiguous slice from the offset. |
| Listing.PublicThreads | b/index.php:2626-2631 | The public listing is a permutation of the live, approved threads, sorted sticky first and then by updated_at descending. |
| Listing.PublicThreadsMembers | b/index.php:2626-2631 | A row is in the public listing exactly when it is a stored live approved thread. |
| Listing.IndexPage | b/index.php:2614-2633 | An index page holds at most 20 threads of the public listing, in sticky-then-bump order. |
| Listing.IndexPageSpec | b/index.php:2614-2633 | An index page holds at most 20 stored public threads in bump order. It is never empty while a public thread exists, whatever page was asked for. |
| Listing.IndexPageNonEmpty | b/index.php:2614-2624 | Clamping keeps a page of a non-empty listing non-empty. |
| Listing.ModPage | b/mod.php:3471-3472 | A moderator page holds at most 10 threads of the approved listing, in sticky-then-bump order. |
| Listing.ModPageSpec | b/mod.php:2335-2341 | Each thread on a moderator page is a stored live approved thread. Because the pager counts pending threads too, the page is empty exactly when its offset (used by the query at b/mod.php:3471) reaches the end of the approved listing, not the end of the counted threads. |
| Listing.ModPageNonEmpty | b/mod.php:2335-2341 | With no live thread pending approval, the moderator page of a non-empty listing is never empty. |
| Listing.ModCountCoversListing | b/mod.php:2335-2341 | The panel's pager counts at least as many threads as its listing shows, and exactly as many only when no live thread is pending approval. |
| Listing.Reversed | b/index.php:1059 | array_reverse() puts element i at position n-1-i. |
| Listing.NewestFive | b/index.php:1056-1059 | The newest five, reversed: min(5, n) rows in chronological order, none of the rows left out newer than the first shown. |
| Listing.PreviewSpec | b/index.php:1028-1059 | A thread's preview shows min(5, count) approved live replies, oldest first. Every left-out reply is older, and the omitted count makes up the rest. |
| Ordering.SortDesc | b/index.php:2629 | ORDER BY … DESC returns a permutation of its input, sorted by the key descending. |
| Ordering.SortDescMembers | b/index.php:2629 | Sorting keeps exactly the same members. |
| Php.Trim | b/index.php:1303-1304 | trim() leaves no character of PHP's whitespace set at either end. |
| Php.TrimShape | b/index.php:1303-1304 | trim() keeps one contiguous slice of the text and cuts only whitespace characters before and after it. |
| Php.TrimIdempotent | b/mod.php:759-764 | Trimming twice is trimming once. |
| Php.IntCast | b/index.php:1342 | The (int) cast always yields a 64-bit integer, and text that does not start with a number (after leading whitespace) gives 0. |
| Php.IntCastRoundTrip | b/index.php:1241 | Every 64-bit integer written in decimal casts back to itself. |
| Php.IntCastFraction | b/index.php:1342 | A decimal fraction casts to its whole part, truncated toward zero, sign kept. |
| Php.IntCastExponent | b/index.php:1342 | "<digits>e<digits>" casts to the scaled value, capped at PHP_INT_MAX, and to 0 once the value is beyond the double range. |
| Php.IntCastSaturates | b/index.php:1241 | A numeral beyond the 64-bit range but inside the double range casts to PHP_INT_MAX, or PHP_INT_MIN when negative. |
| Php.IntCastLeadingBlank | b/index.php:1342 | Leading whitespace is skipped and anything after the digits that cannot continue a numeral is ignored: whitespace + digits + junk casts to the digits' value. |
| Php.IntCastExamples | b/index.php:1342 | "1e3" casts to 1000, "0.5e1" to 5, "-2.5" to -2, and " 12abc" to 12. |
| Php.ValidateInt | b/mod.php:155-162 | FILTER_VALIDATE_INT accepts only values within the range and within PHP's integer width. |
| Php.ValidateIntIff | b/mod.php:155-162 | FILTER_VALIDATE_INT reads n exactly when the trimmed text is n in decimal, '+' and a non-negative n, or "-0" for 0, and n lies in both ranges. |
| Php.ValidateIntAccepts | b/mod.php:155-162 | Such a spelling with filter whitespace (space, tab, CR, LF, VT) around it validates to its value. |
| Php.ValidateIntSpelling | b/mod.php:155-162 | Every accepted value is spelled by the trimmed text: no leading zeros, no fraction, no exponent, nothing else around it. |
| Php.CanonicalRoundTrip | b/mod.php:155-162 | A digit string without a leading zero is the decimal rendering of its value, so an accepted numeral has a single reading. |
| Php.Contains | b/index.php:97 | strpos() !== false exactly when the needle occurs somewhere. |
| Php.HtmlSpecialChars | b/catalogo.php:137 | The escaped text contains no `<`, `>`, `"` or `'`, is at least as long, and decodes back to the original text. |
| Php.SplitSpaces | b/index.php:84 | preg_split('/\s+/') yields at least one piece and no piece contains whitespace. |
| Php.SplitSpacesSpec | b/index.php:84 | Joining the pieces with single spaces gives the text with every whitespace run collapsed. Only the first and last piece can be empty: the first exactly when the text is empty or starts with whitespace, the last exactly when it is empty or ends with whitespace. |
| Php.Basename | b/catalogo.php:146 | basename() is the slash-free tail of the path after its trailing slashes are dropped, and it starts the path or follows a slash. |
| Php.BasenameOf | b/catalogo.php:146 | basename("dir/name///") is "name" for any directory part and any run of trailing slashes. |
| Public.CheckUpload | b/index.php:1360-1367 | An upload passes exactly when absent, or of an allowed type and at most MAX_UPLOAD_SIZE. |
| Public.ReplyTarget | b/index.php:1341-1342 | A submission is a reply exactly when the thread field is not PHP-empty. It then names the (int) cast of the field. |
| Public.ReplyTargetRoundTrip | b/index.php:1341-1342 | The thread id the reply form writes in decimal names that thread. |
| Public.ImageCheck | b/index.php:606-639 | After the type and size checks, an image that is not an animated GIF is refused exactly when getimagesize() rejects it. |
| Public.GatePassesIff | b/index.php:1294-1372 | A submission is accepted exactly when every one of these holds: the token is valid, the board is not read-only, the body is not blank, the cooldown is over, and no filter matches. A reply's thread must also be live, approved and unlocked. The upload must have an allowed type and size and, when it is an image other than an animated GIF, be readable by getimagesize(). |
| Public.ReadOnlyFirst | b/index.php:1294-1301 | A read-only board refuses every submission with a valid token before any other check. |
| Public.BlockedOnlyAfterCooldown | b/index.php:1307-1319 | A filtered word is reported only for a non-blank submission whose cooldown is over. |
| Public.PosterName | b/index.php:1303 | The name is the trimmed field, or 'Anônimo' when that is PHP-falsy; never falsy. |
| Public.NewRow | b/index.php:1323-1339 | The inserted row is live, unlocked and unpinned, carries the trimmed body, and is approved exactly when approval is off. It is a reply exactly when it has a thread, spoilered only with a file, and has a password hash exactly when a password was given. |
| Public.StoredSpec | b/index.php:1382-1393 | Storing adds exactly the new row. Of the existing rows only the replied-to thread changes, and only its updated_at. |
| Public.AcceptedChangesOnly | b/index.php:1382-1455 | An accepted thread leaves every old row untouched. An accepted reply changes only its thread's updated_at. |
| Public.Screen | b/index.php:1294-1372 | The checks run against the live state and return Gate's verdict; nothing is written. |
| Public.Store | b/index.php:1382-1393 | Insert, register mentions and bump give the Accepted table, the new mention rows and the new files, with the invariants kept. |
| Public.Accept | b/index.php:1382-1397 | As Store, and the session's last-post time becomes now. |
| Public.Submit | b/index.php:1293-1455 | The verdict is Gate's. A refusal changes no table. An acceptance writes exactly the Accepted state and restarts the cooldown. |
| Public.DeleteCheck | b/index.php:1207-1221 | Self-deletion is allowed exactly when the row exists, has a password, and the password verifies. |
| Public.SelfDeleteIdempotent | b/index.php:1223-1228 | Self-deletion is idempotent and touches no other row; a thread's replies stay. |
| Public.DeletePost | b/index.php:1207-1231 | On success the row is marked deleted and its own files removed; on failure nothing changes. |
| Public.DeleteHandler | b/index.php:1235-1266 | A bad token, an id ≤ 0 or an empty password is refused, in that order, before deletePost(). |
| Catalog.ImagesAmongReplies | b/catalogo.php:108-109 | A thread's image count never exceeds its reply count. |
| Catalog.ApprovedCountsSmaller | b/get_catalog.php:15-16 | The AJAX counts, which only count approved replies, never exceed the full page's. |
| Catalog.CatalogoSpec | b/catalogo.php:106-116 | The full catalog shows at most 150 stored live threads, approved or not, newest bump first. |
| Catalog.CatalogoComplete | b/catalogo.php:106-116 | With at most 150 live threads, every one of them is shown. |
| Catalog.AjaxSpec | b/get_catalog.php:13-23 | The AJAX catalog shows at most 150 stored public threads in sticky-then-bump order. |
| Catalog.PendingThreadOnlyInCatalogo | b/get_catalog.php:18 | A thread awaiting approval never appears in the AJAX catalog. It does appear on the full page while there are at most 150 live threads. |
| Catalog.CollapseSpacesSpec | b/catalogo.php:130 | Every whitespace run becomes a single space, and the visible characters are kept in order. |
| Catalog.NormalizedShape | b/catalogo.php:130-131 | The normalized text has only single spaces and no space at either end. |
| Catalog.CatalogTextSpec | b/catalogo.php:133-135 | A text of at most 120 characters is shown whole. A longer one keeps exactly its first 120 characters followed by "...". |
| Catalog.FormatCatalogText | b/catalogo.php:128-138 | The catalog text contains no HTML-special characters and decodes back to the normalized, cut text. |
| Catalog.ThumbPath | b/get_catalog.php:41-67 | The path is empty exactly when the media is absent, PHP-empty or missing on disk; otherwise it names an existing file. |
| Catalog.ThumbPreference | b/get_catalog.php:41-67 | With WebP lookup on, an existing WebP thumb wins, a missing one falls back to the original-name thumb, and with neither the media file itself is shown. With it off, an existing original-name thumb is chosen. |
| Catalog.StatsSpec | b/get_catalog.php:115-124 | The stats line starts with the post total (replies + 1). It carries the pin exactly for sticky threads and the lock exactly for locked ones. It ends in " (SPOILER)" exactly for a spoilered thread with a picture. |
| Catalog.CardPictures | b/get_catalog.php:95-110 | A card shows an image only when the media exists on disk. The AJAX card never shows a spoilered thread's own picture. |
| Catalog.CatalogResponse | b/get_catalog.php:73-156 | The intended reply: a non-AJAX request is redirected to catalogo.php. An AJAX one gets one card per selected thread, in order. |
| Catalog.Delivered | b/get_catalog.php:73-156 | The intended reply puts no board page on the wire. A redirect sends its Location header; cards are sent as they are. |
| Catalog.CatalogResponseAsWritten | b/get_catalog.php:6-156 | As written, every request gets the board page first and no Location header. An AJAX request gets its cards after the page; any other request gets nothing more. |
| Catalog.CatalogAsWrittenDiffers | b/get_catalog.php:6-156 | What is sent never matches the intended reply. A plain request is not redirected, and an AJAX request's cards follow a whole page. |
| Moderation.SanitizeInt | b/mod.php:155-162 | The result lies in [min, max]. It is the value FILTER_VALIDATE_INT accepts, or min when the value is rejected. |
| Moderation.RequestId | b/mod.php:909-910 | The action's id is always a positive PHP integer. |
| Moderation.RequestIdRoundTrip | b/mod.php:909-910 | An id the panel writes in decimal reads back as itself. |
| Moderation.RequestIdFallsBack | b/mod.php:909-910 | A missing id, "0" or an id with a leading zero falls back to 1. |
| Moderation.SanitizeString | b/mod.php:165-174 | The result is the first maxLength characters of the trimmed value. With escaping it holds no HTML-special characters and decodes back to exactly that prefix. |
| Moderation.ModBody | b/mod.php:760-772 | The moderator body is at most 5000 characters, and is empty exactly when the trimmed field is. |
| Moderation.ModBodySanitized | b/mod.php:760-764 | ModBody is sanitizeString(trim(body), 5000, false). |
| Moderation.ModName | b/mod.php:759-769 | The moderator name is never empty, is 'admin' when blank, and has no angle brackets. |
| Moderation.FormFlag | b/mod.php:365-366 | A settings checkbox saves '1' exactly when posted as '1', and '0' otherwise. |
| Moderation.SavedSettingsTakeEffect | b/mod.php:360-375 | After saving, the public board requires approval exactly when that box was ticked. It refuses every submission as read-only exactly when that box was. |
| Moderation.SeedDefaults | b/mod.php:334-343 | Both switches exist afterwards. A missing one is created as '0'; existing values are kept. |
| Moderation.SaveSettings | b/mod.php:360-375 | Only a moderator with a valid token saves both flags. Anyone else changes nothing. |
| Moderation.ModCheckUpload | b/mod.php:804-822 | A moderator upload passes exactly when the public checks pass and, for an image, getimagesize() succeeds. |
| Moderation.ModReplyTarget | b/mod.php:783-784 | A moderator post is a reply exactly when the thread field is not PHP-empty. It then names sanitizeInt() of the field, a thread id ≥ 1. |
| Moderation.ModReplyTargetRoundTrip | b/mod.php:783-784 | A thread id ≥ 1, spelled as FILTER_VALIDATE_INT reads it, names that thread. |
| Moderation.FilterSubmit | b/mod.php:466-505 | A bad CSRF token is refused before either list is touched. With a good one, an add is addWordFilter() on the trimmed word and a remove is removeWordFilter() on the word as posted, in the list filter_type names (anything but 'contains' is 'exact'); the other list never changes. |
| Moderation.ModGatePassesIff | b/mod.php:755-822 | A moderator post passes exactly when the token is valid, the body is not blank, a reply's thread is live and unlocked, and the upload passes. There is no read-only switch, cooldown or filter. |
| Moderation.ModeratorReachesPending | b/mod.php:786-799 | A moderator can reply to a thread awaiting approval, which the public form refuses. |
| Moderation.MalformedThreadIsOne | b/mod.php:784 | A non-empty thread field that FILTER_VALIDATE_INT rejects names thread 1. |
| Moderation.ModRow | b/mod.php:836-837 | A moderator row is approved, signed 'admin', without a password, live, unlocked and unpinned, and a reply exactly when it has a thread. |
| Moderation.ModPostIsPublic | b/mod.php:834-847 | A moderator post adds exactly one row, public at once; a moderator thread is listed on the index immediately. |
| Moderation.ModScreen | b/mod.php:755-822 | The checks run against the live state and return ModGate's verdict. |
| Moderation.ModAccept | b/mod.php:834-903 | Insert, mentions and bump give the ModPosted table, the new mention rows and files, with the invariants kept. |
| Moderation.ModPost | b/mod.php:755-904 | Non-moderators get the login page. A refusal changes nothing. A pass writes exactly the ModPosted state. |
| Moderation.EditedSpec | b/mod.php:728-750 | An edit changes at most one row and only its message, to the trimmed text cut to 5000 characters. A blank text changes nothing, and the edit is idempotent. |
| Moderation.EditSubmit | b/mod.php:728-750 | Only a moderator with a valid token edits. The tables then equal Edited; otherwise nothing changes. |
| Moderation.ActedWellFormed | b/mod.php:923-1063 | Every moderation action keeps the database invariants and the settings. |
| Moderation.PurgeThreadSpec | b/mod.php:945-983 | Rejecting or deleting a thread removes it, its replies, their mention rows and all their files, and leaves every other row as it was. |
| Moderation.PurgeReplySpec | b/mod.php:985-1015 | Rejecting or deleting a reply removes exactly that row and its own files. |
| Moderation.DeleteReplyOnThreadKeepsReplyFiles | b/mod.php:1051-1063 | delete_reply given a thread id removes the thread's replies through the cascade but leaves their files on disk. |
| Moderation.ToggleActionsUndo | b/mod.php:1017-1035 | Locking or pinning twice restores the tables. Approving twice re-stamps approved_at. |
| Moderation.ApprovedThreadIsPublic | b/mod.php:923-943 | Approving a live thread makes it listed and open to public replies. |
| Moderation.ForgedRequestChangesNothing | b/mod.php:912-920 | Without a valid token no action changes the tables. |
| Moderation.Dispatch | b/mod.php:905-1063 | The dispatcher's reply and new tables are exactly Dispatched's: non-moderators get the login page, destructive actions need the token, and each action is Acted. |

## Left out

- Image and video processing are out of scope: thumbnail generation, GIF/WebP conversion, getimagesize(), isAnimatedGif() and mime_content_type(). The upload is given as its MIME type, its size, the results of getimagesize() and isAnimatedGif(), and the paths the image processing would produce.
- Public.ImageCheck: models only the getimagesize() refusal of processAndOptimizeImage(). Its other refusals depend on the image library and are not modelled: an unsupported image type (b/index.php:657), a decoder failure (b/index.php:661), a failed copy of an animated GIF (b/index.php:627), and a failed video save (b/index.php:840).
- Php.IntCast: truncates the exact decimal value. PHP first rounds the numeral to the nearest double and truncates that, so the two differ for numerals with more than 15 significant digits whose value lies above 2^53.
- A POST to b/get_catalog.php first runs the submission and deletion handlers of b/index.php, which it loads. Those handlers are modelled in `Public` and are not repeated for this script.
- HTML rendering is out of scope: renderPost, renderReply, formatPostTextWithMentions, formatName and tripcodes, formatTime, banners, the news section (news_submit, delete_news, edit_news) and the edit form. These produce markup, not state.
- CSRF tokens, the login form and session internals are reduced to booleans: `csrfOk` and `canManage`.
- time(), datetime('now') and password_hash()/password_verify() become parameters: `now`, the stored hash, and a `verify` function.
- The JSON file behind the word filter is reduced to its two lists. A failed write is a `saved` flag.
- Schema creation, migrations and the legacy `replies` table are not modelled. Only the database's invariants are.
- Moderation.SanitizeString: cuts the text to `maxLength` characters, whereas PHP's `substr` cuts bytes.
- Php.Lower: covers ASCII and Latin-1 only. The Unicode letter/digit classes `\p{L}\p{N}` are modelled up to U+017F.
- Catalog.FormatCatalogText: takes text that strip_tags() has already cleaned. strip_tags() is not modelled.
- Ordering.SortDesc: ties in `ORDER BY` are unspecified in SQL, so the listings and catalogs are only claimed to be sorted permutations, not a particular tie order.
- WordFilter.FilterStore.Add: uses exact string equality, where PHP's `in_array` and `array_search` compare loosely (e.g. "1" == "01").
- WordFilter.FilterStore.Remove: uses exact string equality as well.
- AntiSpam.CheckAntiSpam: uses ANTI_SPAM_TIME as set in b/index.php:30, which is 1 second.
- Board.Db.Approve: approving re-stamps approved_at on every call (b/mod.php:925-926), so a second approval changes the row again.
- Moderation.Dispatch: the moderator's delete is a permanent DELETE whose cascade removes a thread's replies (b/mod.php:1037-1049). The row is not marked deleted.
- Moderation.DeleteReplyOnThreadKeepsReplyFiles: records that delete_reply given a thread id orphans the replies' files. The panel only offers delete_reply on replies, so the model keeps the behaviour as written.

## Findings

| source | as written | input that shows it | evidently intended | confidence | as-written member | corrected member |
|---|---|---|---|---|---|---|
| b/get_catalog.php:6-156 | The script loads b/index.php first. That script empties every output buffer (b/index.php:1492-1494) and writes the whole board page. The header() calls at b/get_catalog.php:76 and :154 come after output has started, so PHP drops them. | A GET of b/get_catalog.php without `X-Requested-With: XMLHttpRequest` gets the board page and no redirect. With the header, it gets the board page followed by the cards. | A plain request is redirected to catalogo.php. An AJAX request gets only the cards. | not executed | Catalog.CatalogResponseAsWritten, Catalog.CatalogAsWrittenDiffers | Catalog.CatalogResponse |
