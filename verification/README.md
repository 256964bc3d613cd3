# Cafe Between — a Dafny model of its core

Cafe Between is a café website. It has two parts:

- a Go backend (`backend/`) that stores menu items, menu categories and news in PostgreSQL and serves them over a REST API;
- a React front end (`frontend/src/`) with public pages and a password-gated admin panel.

This project models the logic at the core of both as pure Dafny functions over immutable values and proves properties of it.

**Backend**

- The repositories become operations on in-memory tables.
  - Menu items and news are a map from id to row plus the next `SERIAL` id (`Tables`, `MenuRepository`, `NewsRepository`).
  - Menu categories are a sequence of rows. They keep the `UNIQUE` constraints on `name_ru` and `name_en`, the `VARCHAR(255)` limits and the 32-bit `integer` range of `id` and `sort_order` (`CategoryRepository`).
- The handlers become transitions of a server state (`ServerState.State`): the three tables, the go-cache map and the upload directory (`MenuHandlers`, `NewsHandlers`, `CategoryHandlers`).
  - A handler takes its decoded input and an environment. The environment says, for each repository call of the request, whether that call reaches the database, and supplies the clock readings and UUIDs.
  - A handler returns a status, a body and the next state.
- The JWT gate: `Auth.Login`, `Auth.Middleware`, `Auth.GenerateClaims`.
- The upload helpers of `utils.go` (`Uploads`) and the category-key transliteration (`Translit`).
- The image-list reconciliation of the two update handlers (`ImageReconcile`).
- `strconv.Atoi` (`Numbers`) and `time.Parse(time.RFC3339, …)` (`Rfc3339`), which the handlers depend on for ids, calories and `postedAt`.

**Front end**

- The API client's headers and ok-check (`ApiClient`).
- The admin pages' filters, validators, selection and image-slot editing (`AdminCommon`, `AdminMenu`, `AdminNews`).
- The public menu's grouping, category order and headings (`MenuView`).
- The newest-first news lists (`NewsView`, using the stable sort of `Sorting`).
- The notification panel (`Notifications`).

Every operation has a partner stated against it: an inverse, a frame it keeps, or an independent reference definition, with an all-inputs lemma connecting the two. Examples:

- `Transliterate` is idempotent and ignores case.
- The bearer header the client builds is the token the middleware extracts.
- Parsing a formatted RFC 3339 date-time gives the date-time back.
- A successful update followed by a lookup finds the new row.
- The menu page shows every item in exactly one section.

Where the code and the specification disagree, the model follows the code:

- **Future news.** The specification hides news whose `postedAt` is in the future from public views. No page, handler or repository filters on it (`Home.tsx:16-17`, `News.tsx:16-17`, `news_repository.go:36-53`), so the model shows every fetched item.
- **Server-side validation.** The specification states price > 0 and description limits as data invariants. Only the admin forms check them (`AdminMenu.tsx:66-76`, `AdminNews.tsx:68-78`). The handlers store any price that parses and any description.
- **Deleting a used category.** The specification says it is rejected with the item titles in the message. The code has no such request: after a menu item is deleted, `DeleteUnusedMenuCategory` silently keeps a category that is still used (`menu_category_repository.go:72-87`).
- **News update.** The specification does not mention `createdAt`. The update handler overwrites it with Go's zero time (see Findings).

## Model

| member | source | states |
|---|---|---|
| Translit.RuneOut | backend/internal/handlers/utils.go:77-98 | one rune's contribution is lower-or-upper Latin letters, digits, `_` or a space, at most 4 characters, and empty exactly for ъ, ь, Ъ, Ь |
| Translit.Build | backend/internal/handlers/utils.go:90-99 | the builder's text uses only the raw alphabet and is at most four characters per input rune |
| Translit.SpacesToUnderscores | backend/internal/handlers/utils.go:100 | same length; exactly the spaces become `_`, every other character is kept at its position |
| Translit.Transliterate | backend/internal/handlers/utils.go:76-101 | the key uses only `a-z`, `0-9` and `_`, contains no space, and is at most 4 characters per input rune |
| Translit.BuildConcat | backend/internal/handlers/utils.go:91-99 | the builder distributes over concatenation |
| Translit.TransliterateConcat | backend/internal/handlers/utils.go:91-100 | transliteration distributes over concatenation: t(a+b) = t(a)+t(b) |
| Translit.SpaceBecomesUnderscore | backend/internal/handlers/utils.go:94-100 | a space between two texts becomes exactly one `_` between their keys |
| Translit.RuneContribution | backend/internal/handlers/utils.go:77-97 | ъ, ь, Ъ, Ь contribute nothing to the key; every other rune contributes 1 to 4 characters |
| Translit.KeyIsFixedPoint | backend/internal/handlers/utils.go:94-100 | a text that is already a key transliterates to itself |
| Translit.TransliterateIdempotent | backend/internal/handlers/utils.go:94-100 | t(t(s)) = t(s) for every text |
| Translit.TableIgnoresCase | backend/internal/handlers/utils.go:78-88 | every upper-case Russian letter's spelling lower-cases to its lower-case partner's spelling |
| Translit.LowerCaseRuneSameKey | backend/internal/handlers/utils.go:77-100 | a rune and its lower-case form give the same key |
| Translit.TransliterateIgnoresCase | backend/internal/handlers/utils.go:77-100 | lower-casing the input first never changes the key, so upper and lower case of a Cyrillic letter give identical output |
| Uploads.Base | backend/internal/handlers/utils.go:17 | `filepath.Base` is never empty and is `/` or has no slash |
| Uploads.DeleteTarget | backend/internal/handlers/utils.go:17-18 | an owned URL is removed at `/root/uploads/` plus its base name |
| Uploads.Targets | backend/internal/handlers/utils.go:15-18 | only URLs containing `/uploads/` yield a path to remove, at most one per URL |
| Uploads.TargetsAreOwnedUrls | backend/internal/handlers/utils.go:15-18 | a path is removed exactly when some URL containing `/uploads/` maps to it |
| Uploads.TargetsOfOwnedUrls | backend/internal/handlers/utils.go:15-18 | when every URL contains `/uploads/`, one path is removed per URL, in the URLs' order |
| Uploads.TargetsOfConcat | backend/internal/handlers/utils.go:15 | the paths for two URL lists in a row are the first list's paths followed by the second's, so the loop keeps order |
| Uploads.DeleteUploadedFiles | backend/internal/handlers/utils.go:14-25 | succeeds iff no target's removal fails for a reason other than not-exist; on success every target is gone; files not targeted stay; nothing is added |
| Uploads.ForeignUrlsIgnored | backend/internal/handlers/utils.go:16 | appending a URL without `/uploads/` changes neither the verdict nor the disk |
| Uploads.TargetOfOwnedUrl | backend/internal/handlers/utils.go:16-18 | every owned URL of the list is a removal target |
| Uploads.Ext | backend/internal/handlers/utils.go:53 | `filepath.Ext` is empty or a suffix of the name that starts with its only dot and has no slash |
| Uploads.AcceptedPrefix | backend/internal/handlers/utils.go:29-45 | the files before the first rejected one all pass the open, type and size checks, and the one at the index fails one of them |
| Uploads.SaveFrom | backend/internal/handlers/utils.go:29-71 | the suffix loop succeeds iff every file passes; its URLs are `/uploads/` plus a fresh name per file, in input order; the files written before a rejection stay on disk |
| Uploads.SaveUploadedFiles | backend/internal/handlers/utils.go:27-73 | succeeds iff every file opens, has an `image/` type, is at most 5 MiB and is written; on success it returns one `/uploads/<uuid><ext>` per file, in order; otherwise it returns the first failing file's error |
| Uploads.SaveRejects | backend/internal/handlers/utils.go:37-45 | any file whose type lacks the `image/` prefix or whose size exceeds 5·1024·1024 makes the whole save fail |
| ImageReconcile.KeptImages | backend/internal/handlers/menuHandlers.go:200-210 | an absent `existingImages` keeps nothing, a JSON list keeps that list, malformed JSON is the 400 case |
| ImageReconcile.FinalImages | backend/internal/handlers/menuHandlers.go:210 | the stored list is the kept images followed by the uploaded paths, in that order |
| ImageReconcile.MinusProperties | backend/internal/handlers/menuHandlers.go:222-235 | the images to delete are exactly the current ones not in the new list, in current order |
| ImageReconcile.ImagesToDelete | backend/internal/handlers/newsHandlers.go:182-195 | the loop computes the same list as the reference difference; it is disjoint from the new list and a subsequence of the current one |
| ImageReconcile.KeptImagesSurvive | backend/internal/handlers/menuHandlers.go:200-235 | an image that is kept or uploaded is never scheduled for deletion |
| Numbers.Atoi | backend/internal/handlers/menuHandlers.go:175-179 | `strconv.Atoi` accepts exactly an optional sign followed by decimal digits whose value fits in 64 bits, and returns that value |
| Numbers.AtoiOfIntToString | backend/internal/handlers/menuHandlers.go:175-179 | every 64-bit integer written in decimal parses back to itself |
| Numbers.AtoiRejectsNonDigits | backend/internal/handlers/menuHandlers.go:175-179 | a non-digit after the first character makes the id invalid |
| Rfc3339.Parse | backend/internal/handlers/newsHandlers.go:33-37 | an accepted `postedAt` has a year of 0-9999, a valid calendar day, an hour of 0-23, a minute and second of 0-59, and an offset of at most 24:60 |
| Rfc3339.ParseDate | backend/internal/handlers/newsHandlers.go:33 | an accepted date has a month 1-12 and a day that exists in that month of that year |
| Rfc3339.ParseZone | backend/internal/handlers/newsHandlers.go:33 | `Z` is UTC; any other accepted zone is a signed `hh:mm` offset |
| Rfc3339.ParseFormat | backend/internal/handlers/newsHandlers.go:33 | parsing the RFC 3339 text of any in-range date-time gives that date-time back |
| Rfc3339.ParseDateFormat | backend/internal/handlers/newsHandlers.go:33 | the date part round-trips |
| Rfc3339.ParseClockFormat | backend/internal/handlers/newsHandlers.go:33 | the time part, fraction and zone round-trip |
| Rfc3339.ParseFormattedZone | backend/internal/handlers/newsHandlers.go:33 | a formatted zone parses back to itself |
| Rfc3339.Millis | backend/internal/handlers/newsHandlers.go:33-44 | the stored instant plus the zone offset is the civil day count times 86 400 000 plus the time of day |
| Rfc3339.OffsetShiftsInstant | backend/internal/handlers/newsHandlers.go:33 | a `+hh:mm` offset moves the instant earlier by that amount and `-hh:mm` later |
| Rfc3339.EpochIsDayZero | backend/internal/handlers/newsHandlers.go:33 | the day count is anchored at 1970-01-01 |
| Rfc3339.NextDay | backend/internal/handlers/newsHandlers.go:33 | consecutive days are consecutive day numbers |
| Rfc3339.ParseMillis | backend/internal/handlers/newsHandlers.go:203-207 | an instant is produced iff the text parses, and it is the parsed date-time's instant |
| Rfc3339.RejectsLeapSecond | backend/internal/handlers/newsHandlers.go:33-37 | a `:60` second is rejected with "Invalid postedAt format" |
| Rfc3339.RejectsLowerCaseT | backend/internal/handlers/newsHandlers.go:33-37 | a lower-case `t` separator is rejected |
| Rfc3339.AcceptsOneDigitHour | backend/internal/handlers/newsHandlers.go:33-37 | a one-digit hour is accepted |
| NewsHandlers.ZeroTimeIsYearOne | backend/internal/handlers/newsHandlers.go:209-215 | the zero time an update stores is 0001-01-01T00:00:00Z |
| Auth.GenerateClaims | backend/internal/handlers/authHandler.go:30-37 | claims carry user 1 and role admin; with one clock reading expiry is exactly issue time plus 7 days |
| Auth.Login | backend/internal/handlers/authHandler.go:43-65 | a body that is not JSON gives 400 "Invalid JSON"; a password other than `ADMIN_PASSWORD` gives 401 "Invalid password" and no token; a token is returned iff the password matches and signing succeeds |
| Auth.UnsetPasswordAdmitsEmptyBody | backend/internal/handlers/authHandler.go:50-57 | with `ADMIN_PASSWORD` unset, an empty password logs in |
| Auth.ExtractToken | backend/internal/handlers/authHandler.go:81-84 | the token is the header itself, or the header is `Bearer ` followed by the non-empty token |
| Auth.BarePrefixIsTheToken | backend/internal/handlers/authHandler.go:82 | a header of exactly `Bearer ` is used unchanged as the token |
| Auth.Middleware | backend/internal/handlers/authHandler.go:73-101 | an empty header, and only it, gives 401 "Missing token"; any other header passes iff verification of the extracted token succeeds, with the verified claims |
| ApiClient.GetAuthHeaders | frontend/src/api.ts:5-12 | no stored token or an empty one gives no headers; a non-empty token `t` gives exactly `Authorization: Bearer t` |
| ApiClient.BearerRoundTrip | frontend/src/api.ts:9 | for every non-empty token, the middleware extracts from the client's header exactly that token |
| ApiClient.RequestFor | frontend/src/api.ts:14-118 | reads send no headers; create and update send the auth headers plus `Content-Type: application/json`; delete sends only the auth headers; mutating calls go to `/admin/` URLs |
| ApiClient.Settle | frontend/src/api.ts:14-65 | a call resolves iff the status is 2xx; otherwise it throws the call's non-empty failure message |
| Tables.Lookup | backend/models/menu_repository.go:22-35 | a lookup succeeds iff the database answers and the id is stored; a missing id is NotFound, distinct from a failed query |
| Tables.Insert | backend/models/menu_repository.go:15-19 | an insert takes a fresh id from the table's sequence, above every stored one, adds exactly that row and changes no other |
| Tables.Delete | backend/models/menu_repository.go:56-66 | a delete succeeds iff the id is stored; the rows afterwards are exactly the old ones without that id; a missing id is NotFound and changes nothing |
| Tables.Replace | backend/models/menu_repository.go:68-79 | an update succeeds iff the id is stored; only that row changes; a missing id is NotFound |
| Tables.ListRows | backend/models/menu_repository.go:37-54 | a scan returns every stored row exactly once |
| Tables.DeletedIdNotReused | backend/models/menu_repository.go:15-19 | an id freed by a delete is never handed out again |
| MenuRepository.CreateMenuItem | backend/models/menu_repository.go:14-20 | a created row has a fresh id, the bound content, and `createdAt == updatedAt` = the clock plus three hours; a failed insert changes nothing |
| MenuRepository.GetMenuItemByID | backend/models/menu_repository.go:22-35 | a missing id gives `ErrMenuItemNotFound`; a found row is the stored row with that id |
| MenuRepository.GetMenu | backend/models/menu_repository.go:37-54 | every stored row is returned exactly once, in no promised order |
| MenuRepository.DelMenuItem | backend/models/menu_repository.go:56-66 | a missing id gives `ErrMenuItemNotFound`; a present id loses only its row |
| MenuRepository.UpdateMenuItem | backend/models/menu_repository.go:68-79 | a missing id gives `ErrMenuItemNotFound`; otherwise the six content fields and `updatedAt` change, while the id, `createdAt` and every other row stay |
| MenuRepository.CreateThenGet | backend/models/menu_repository.go:14-35 | a created item can be read back by the id the insert returned |
| MenuRepository.UpdateThenGet | backend/models/menu_repository.go:22-79 | reading after an update gives the new content with the old creation time |
| MenuRepository.DeleteThenGet | backend/models/menu_repository.go:22-66 | reading after a delete gives NotFound |
| NewsRepository.CreateNews | backend/models/news_repository.go:14-19 | a created row has a fresh id, title, description, images and `postedAt` and no preview, and takes its two timestamps from two clock readings |
| NewsRepository.GetNewsByID | backend/models/news_repository.go:21-34 | a missing id gives `ErrNewsNotFound`; a found row is the stored row with that id |
| NewsRepository.GetNews | backend/models/news_repository.go:36-53 | every stored row is returned exactly once |
| NewsRepository.DelNews | backend/models/news_repository.go:55-65 | a missing id gives `ErrNewsNotFound`; a present id loses only its row |
| NewsRepository.UpdateNews | backend/models/news_repository.go:67-78 | a missing id gives `ErrNewsNotFound`; otherwise the row becomes the new content with the caller's `createdAt` and `updatedAt = now` |
| NewsRepository.CreateThenGet | backend/models/news_repository.go:14-34 | a created item can be read back by its id |
| NewsRepository.UpdateOverwritesCreatedAt | backend/models/news_repository.go:68-69 | `createdAt` is not preserved: after an update it is whatever the caller passed |
| NewsRepository.DeleteThenGet | backend/models/news_repository.go:21-65 | reading after a delete gives NotFound |
| CategoryRepository.FindNameRu | backend/models/menu_category_repository.go:59-70 | finds the row with that `name_ru`, or reports that none exists |
| CategoryRepository.MaxSortOrder | backend/models/menu_category_repository.go:21-26 | the largest stored `sort_order`, and 0 for an empty table (`COALESCE`) |
| CategoryRepository.CreateMenuCategory | backend/models/menu_category_repository.go:13-38 | an existing `name_ru` returns its id and inserts nothing; otherwise the new row is exactly (next id, the given names, `max(sort_order)+1` with 0 for an empty table, now), placed after every existing row; when that is past 2147483647 or the id sequence is exhausted the insert fails and nothing changes; an insert that would break a `UNIQUE` or length rule fails; the table stays well formed |
| CategoryRepository.CreateIsIdempotent | backend/models/menu_category_repository.go:13-38 | creating the same `name_ru` again returns the same id and leaves the table as it is |
| CategoryRepository.CreateThenLookup | backend/models/menu_category_repository.go:13-70 | after a create, the lookup by `name_ru` finds the row with the returned id |
| CategoryRepository.InsertOrdered | backend/models/menu_category_repository.go:41 | insertion into a listing ordered by (`sort_order`, `name_ru`) keeps it ordered and is a permutation |
| CategoryRepository.SortRows | backend/models/menu_category_repository.go:41 | the listing is ordered by (`sort_order`, `name_ru`) and is a permutation of the rows |
| CategoryRepository.GetMenuCategories | backend/models/menu_category_repository.go:40-57 | succeeds iff the database answers, and returns every row ordered by (`sort_order`, `name_ru`) |
| CategoryRepository.ListingIsStrict | backend/models/menu_category_repository.go:41 | since `name_ru` is unique (`migrate.go:28`), the listing order is strict: no two rows tie |
| CategoryRepository.GetMenuCategoryByNameRu | backend/models/menu_category_repository.go:59-70 | a missing `name_ru` gives `ErrMenuCategoryNotFound`; a found row has that name |
| CategoryRepository.GetMenuCategoryByID | backend/models/menu_category_repository.go:95-106 | an id outside the 32-bit range is a database error, not `ErrMenuCategoryNotFound`; an in-range missing id gives `ErrMenuCategoryNotFound`; a found row has that id |
| CategoryRepository.Without | backend/models/menu_category_repository.go:82-86 | a `DELETE … WHERE` keeps exactly the rows the predicate spares, in order, and keeps names distinct |
| CategoryRepository.DeleteUnusedMenuCategory | backend/models/menu_category_repository.go:72-87 | the `name_en` row is removed only when no menu row uses that category; otherwise nothing changes |
| CategoryRepository.DeleteMenuCategoryByID | backend/models/menu_category_repository.go:108-112 | removes exactly the rows with that id; a missing id is no error; an id outside the 32-bit range fails and changes nothing |
| CategoryRepository.UpdateMenuCategorySortOrder | backend/models/menu_category_repository.go:89-93 | succeeds iff the database answers and both the id and the sort order fit the 32-bit range; then only that row's `sort_order` changes and every other field and row stays |
| CategoryRepository.UpdateMissingIdIsNoOp | backend/models/menu_category_repository.go:89-93 | updating an id the lookup reports missing changes nothing, and succeeds iff the sort order fits the 32-bit range |
| ServerState.Invalidate | backend/internal/handlers/menuHandlers.go:79-80 | the deleted cache keys are absent afterwards and every other entry is kept |
| MenuHandlers.Calories | backend/internal/handlers/menuHandlers.go:40-43 | calories that do not parse as an integer become 0; otherwise they are the parsed value |
| MenuHandlers.FormContent | backend/internal/handlers/menuHandlers.go:57-64 | the stored category is the transliterated form category, and the images are the saved paths |
| MenuHandlers.CreateMenuItemHandler | backend/internal/handlers/menuHandlers.go:14-81 | an unparsable form gives 400 with nothing changed; a failed image save gives 400 "Failed to save images: " plus the error; a non-number price gives 400 "Invalid price" and an empty category 400 "Category is required", each after the images are saved; 201 iff the images save, the price parses, the category is non-empty and create-or-get, insert and read-back all succeed; a 201 returns the one new row with the form's content and Moscow-shifted timestamps, ensures the category exists, and drops both cache keys |
| MenuHandlers.StoreMenuItem | backend/internal/handlers/menuHandlers.go:51-81 | 201 iff create-or-get of the category, the insert and the read-back all succeed; any failure gives 500 with the cache untouched; success adds exactly one row and drops "menu" and "menu_categories" |
| MenuHandlers.CategoryExists | backend/internal/handlers/menuHandlers.go:51-55 | after a successful create-or-get, the category is present |
| MenuHandlers.GetMenuHandler | backend/internal/handlers/menuHandlers.go:83-98 | a cache hit answers from the cache without reading the store; a miss reads every row and caches exactly the answer; a failed read gives 500 |
| MenuHandlers.GetMenuItemHandler | backend/internal/handlers/menuHandlers.go:100-120 | a non-integer id gives 400 "Invalid ID"; 200 iff the id is stored, with that row; a missing id gives 404 |
| MenuHandlers.DelMenuItemHandler | backend/internal/handlers/menuHandlers.go:122-170 | a non-integer id gives 400; a missing id gives 404 with nothing changed; 204 iff the row exists, its images delete and the delete succeeds; then exactly that row is gone and the write keys are out of the cache; any failure leaves the tables and the cache as they were |
| MenuHandlers.DeletedMenuItemIsGone | backend/internal/handlers/menuHandlers.go:122-140 | after a 204 delete, fetching or deleting the same id answers 404 |
| MenuHandlers.CreatedMenuItemIsFetchable | backend/internal/handlers/menuHandlers.go:14-81 | after a 201 create, fetching the returned id answers 200 with the body the create returned |
| MenuHandlers.CleanupFailureIgnored | backend/internal/handlers/menuHandlers.go:159-169 | a failure of the unused-category cleanup never changes the response |
| MenuHandlers.FormProblem | backend/internal/handlers/menuHandlers.go:243-259 | an unparsable price gives "Invalid price" before an empty category gives "Category is required" |
| MenuHandlers.StartUpdate | backend/internal/handlers/menuHandlers.go:172-220 | id, form, saved images, `existingImages` and the row lookup are checked in that order; a found row comes with the final image list kept+uploaded |
| MenuHandlers.StoreUpdate | backend/internal/handlers/menuHandlers.go:255-287 | 204 iff the category and the update succeed; then only that row's content changes, its `createdAt` stays, the category exists and the write keys are out of the cache |
| MenuHandlers.UpdateMenuHandler | backend/internal/handlers/menuHandlers.go:172-288 | a non-integer id gives 400 "Invalid ID"; a 204 stores the final image list, removes the dropped uploaded images from disk and invalidates the cache; every other answer leaves the menu and the cache unchanged |
| MenuHandlers.RejectedUpdateLosesImages | backend/internal/handlers/menuHandlers.go:222-247 | an update rejected for its price has already deleted a dropped image file that the unchanged row still lists |
| MenuHandlers.UpdateMenuHandlerChecked | backend/internal/handlers/menuHandlers.go:172-288 | with the price and category checked first, a 400 never removes a file |
| MenuHandlers.CheckedUpdateAgrees | backend/internal/handlers/menuHandlers.go:222-288 | on a form whose price and category are valid, the corrected order and the written order give the same reply and state |
| NewsHandlers.FormContent | backend/internal/handlers/newsHandlers.go:39-45 | the stored content is the form's title, description, the saved images and the parsed `postedAt` |
| NewsHandlers.CreateNewsHandler | backend/internal/handlers/newsHandlers.go:14-60 | an unparsable form gives 400; a bad `postedAt` gives 400 after the images are saved; 201 iff everything succeeds, returning the stored row, whose title, description, saved image paths and parsed `postedAt` are the form's; the cache is never touched |
| NewsHandlers.StoreNews | backend/internal/handlers/newsHandlers.go:47-59 | an insert failure gives 500 "Failed to create News item" with nothing changed; a read-back failure gives 500 with the row stored; 201 returns the new row |
| NewsHandlers.GetNewsHandler | backend/internal/handlers/newsHandlers.go:62-70 | a failed read gives 500; otherwise every stored row exactly once |
| NewsHandlers.GetNewsByIdHandler | backend/internal/handlers/newsHandlers.go:72-92 | a non-integer id gives 400; 200 iff the id is stored, with that row; a missing id gives 404 |
| NewsHandlers.DelNewsHandler | backend/internal/handlers/newsHandlers.go:94-130 | a non-integer id gives 400; a missing id gives 404 "News not found" with nothing changed; 204 iff the row exists, its images delete and the delete succeeds, after which exactly that row is gone and none of its owned image files remain |
| NewsHandlers.DeletedNewsIsGone | backend/internal/handlers/newsHandlers.go:94-130 | after a 204 delete, fetching or deleting the same id answers 404 |
| NewsHandlers.CreatedNewsIsFetchable | backend/internal/handlers/newsHandlers.go:14-60 | after a 201 create, fetching the returned id answers 200 with the body the create returned |
| NewsHandlers.StartUpdate | backend/internal/handlers/newsHandlers.go:132-180 | id, form, saved images, `existingImages` and the lookup are checked in that order; a found row comes with the list kept+uploaded |
| NewsHandlers.StoreUpdate | backend/internal/handlers/newsHandlers.go:217-226 | 204 iff the id is stored; then only that row changes, to the new content with the given creation time and `updatedAt = now` |
| NewsHandlers.UpdateNewsHandler | backend/internal/handlers/newsHandlers.go:132-227 | a non-integer id gives 400; a 204 stores the form's fields with kept+uploaded images and the parsed `postedAt`, leaves none of the dropped uploads on disk, and sets `createdAt` to Go's zero time |
| NewsHandlers.UpdateResetsCreatedAt | backend/internal/handlers/newsHandlers.go:209-217 | after every successful update the row's `createdAt` is 0001-01-01T00:00:00Z |
| NewsHandlers.RejectedUpdateLosesImages | backend/internal/handlers/newsHandlers.go:182-207 | an update rejected for a bad `postedAt` has already deleted a dropped image file that the unchanged row still lists |
| NewsHandlers.UpdateNewsHandlerChecked | backend/internal/handlers/newsHandlers.go:132-227 | with `postedAt` checked first and `createdAt` kept, a 400 never removes a file and a 204 preserves the creation time |
| NewsHandlers.StoreUpdateIgnoresCreatedAt | backend/internal/handlers/newsHandlers.go:209-226 | the creation time passed to the store affects nothing but that field |
| NewsHandlers.CheckedUpdateAgrees | backend/internal/handlers/newsHandlers.go:182-227 | when `postedAt` parses, the corrected and written orders agree on the reply, the disk and every row's content |
| CategoryHandlers.GetMenuCategoriesHandler | backend/internal/handlers/menuCategoryHandlers.go:13-28 | a hit answers from the cache without reading the store; a miss lists the categories in order and stores them under "menu_categories"; a failed read gives 500 |
| CategoryHandlers.UpdateMenuCategorySortOrderHandler | backend/internal/handlers/menuCategoryHandlers.go:30-56 | a bad id or body gives 400 and nothing changes; a store error or an id or sort order outside the 32-bit range gives 500 with both cache keys kept; 204 iff both parse, fit that range and the store answers, after which both keys are gone |
| CategoryHandlers.ReorderThenList | backend/internal/handlers/menuCategoryHandlers.go:13-56 | after a reorder, the next listing comes from the store and shows the new `sort_order` |
| Sorting.InsertBy | frontend/src/pages/News.tsx:16 | inserting into a key-sorted list keeps it sorted and is a permutation |
| Sorting.InsertByWithKey | frontend/src/pages/News.tsx:16 | insertion puts the element ahead of every equal-keyed one (which makes the sort stable) |
| Sorting.SortBy | frontend/src/pages/News.tsx:16 | the result is sorted by key and is a permutation of the input |
| Sorting.SortByIsStable | frontend/src/pages/News.tsx:16 | elements with equal keys keep their input order, as `Array.prototype.sort` promises |
| NewsView.NewestFirst | frontend/src/pages/News.tsx:16-17 | the shown list is a permutation of the fetched news, non-increasing by `postedAt` |
| NewsView.TiesKeepFetchOrder | frontend/src/pages/News.tsx:16 | news with the same `postedAt` keep their fetched order |
| NewsView.HomeNews | frontend/src/pages/Home.tsx:16-17 | the home page shows min(5, n) items, a prefix of the newest-first list |
| NewsView.HomeShowsLatest | frontend/src/pages/Home.tsx:16-17 | an item left off the home page is no newer than any item shown |
| NewsView.Photos | frontend/src/pages/News.tsx:37-42 | at most three photos are shown per item, the first three in order; `Home.tsx:44` slices the same way |
| MenuView.GroupKey | frontend/src/pages/Menu.tsx:39 | the group key is the category, or 'Без категории' when it is empty |
| MenuView.FindGroup | frontend/src/pages/Menu.tsx:40 | finds the group with that key, or reports that none exists |
| MenuView.GroupMenu | frontend/src/pages/Menu.tsx:38-45 | the group keys are exactly the distinct keys in first-seen order (the order the object's properties are added); each group holds exactly the items with its key, in fetched order |
| MenuView.IndexOf | frontend/src/pages/Menu.tsx:49-50 | `indexOf` is the first position of the key, or -1 exactly when it is absent |
| MenuView.CategoryRank | frontend/src/pages/Menu.tsx:35-50 | known keys rank by their position in `categoryOrder`; unknown keys rank after all of them |
| MenuView.CompareFollowsRank | frontend/src/pages/Menu.tsx:48-55 | the comparator is negative, zero or positive exactly as the ranks compare |
| MenuView.ObjectKeys | frontend/src/pages/Menu.tsx:48 | `Object.keys` returns the same keys with every array-index key ("0" to "4294967294" in canonical form) ahead of the others and in ascending numeric order |
| MenuView.ObjectKeysKeepOtherKeysInOrder | frontend/src/pages/Menu.tsx:48 | keys that are not array indices come out of `Object.keys` in insertion order |
| MenuView.Categories | frontend/src/pages/Menu.tsx:48-55 | the section keys are the distinct group keys; every known key comes before every unknown one, and known keys follow `categoryOrder` |
| MenuView.UnknownKeysKeepObjectKeysOrder | frontend/src/pages/Menu.tsx:48-55 | unknown keys keep the order `Object.keys` gives the first-seen keys, since the sort is stable and ranks them all alike |
| MenuView.UnknownOtherKeysKeepFirstSeenOrder | frontend/src/pages/Menu.tsx:38-55 | unknown keys that are not array indices appear in the order the menu first shows them |
| MenuView.ArrayIndexKeyListedFirst | frontend/src/pages/Menu.tsx:38-55 | with "kofe" seen before "2024", the page shows the section "2024" first |
| MenuView.Heading | frontend/src/pages/Menu.tsx:70 | the heading is the Russian name of a known key, otherwise the key itself |
| MenuView.MenuPage | frontend/src/pages/Menu.tsx:67-90 | one section per key of `categories`, in that order (so array-index keys among the unknown ones come first, ascending), each with its heading and its group's items |
| MenuView.GroupItemsOfKey | frontend/src/pages/Menu.tsx:38-76 | a section's items are exactly the menu's items with that key, in fetched order |
| MenuView.EveryItemShownOnce | frontend/src/pages/Menu.tsx:38-90 | every fetched item appears in some section, and all sections containing it have the same key |
| MenuView.SectionOfItem | frontend/src/pages/Menu.tsx:38-90 | the section that shows an item is the one for the item's key |
| MenuView.GroupMenuAsWritten | frontend/src/pages/Menu.tsx:38-45 | the reduce over `{}` either throws or gives the same groups as the reference grouping |
| MenuView.AsWrittenThrowsIff | frontend/src/pages/Menu.tsx:40-43 | the reduce throws iff some item's key is a property every plain object inherits |
| MenuView.ConstructorIsStoredAsIs | backend/internal/handlers/utils.go:76-101 | the category "constructor" is stored as the key "constructor" |
| MenuView.ConstructorCategoryBreaksMenu | frontend/src/pages/Menu.tsx:38-45 | a menu with an item in category "constructor" makes the page throw, while the reference grouping shows one group |
| AdminCommon.ToggleItemSelection | frontend/src/pages/AdminMenu.tsx:152-158 | exactly the toggled id changes membership; no duplicates are introduced; removal keeps order; an absent id is appended |
| AdminCommon.ToggleTwiceRestores | frontend/src/pages/AdminNews.tsx:170-176 | toggling an absent id twice restores the selection |
| AdminCommon.ToggleAll | frontend/src/pages/AdminMenu.tsx:416-417 | the header checkbox clears when the counts are equal and otherwise selects every listed id |
| AdminCommon.ToggleAllComparesCountsOnly | frontend/src/pages/AdminMenu.tsx:416-417 | equal counts clear even when a listed item is not selected |
| AdminCommon.AddImageURL | frontend/src/pages/AdminMenu.tsx:183-185 | a new empty slot is appended and the others are kept |
| AdminCommon.UpdateImageURL | frontend/src/pages/AdminMenu.tsx:187-191 | only the slot at the index changes |
| AdminCommon.RemoveImageURL | frontend/src/pages/AdminMenu.tsx:193-198 | a list of at most one slot is unchanged; otherwise exactly the slot at the index is removed and the others keep their order |
| AdminCommon.RemoveThenAddKeepsLength | frontend/src/pages/AdminNews.tsx:198-213 | removing a slot and adding one gives back the original length |
| AdminCommon.HandleBulkDelete | frontend/src/pages/AdminNews.tsx:153-168 | an empty selection does nothing; otherwise a confirmation is shown; a confirmed delete is issued for every selected id; the selection clears iff all succeed |
| AdminMenu.FilterMenu | frontend/src/pages/AdminMenu.tsx:48-64 | the result is a subsequence of the menu; an item is kept iff the lowered term occurs in its lowered title, description or category (when a term is given) and its category equals the selected one (when one is selected) |
| AdminMenu.FilterMenuIdentity | frontend/src/pages/AdminMenu.tsx:49-63 | with no term and no category the menu is returned unchanged |
| AdminMenu.ValidateForm | frontend/src/pages/AdminMenu.tsx:66-76 | each of title, price, category and description has an error iff its rule fails, with the page's message |
| AdminMenu.ValidIff | frontend/src/pages/AdminMenu.tsx:66-76 | the form is valid iff title.trim ≠ "", price > 0, category.trim ≠ "" and description is at most 250 long |
| AdminMenu.Categories | frontend/src/pages/AdminMenu.tsx:181 | the category list has no duplicates and no empty string, and contains every non-empty category of the menu |
| AdminMenu.CategoriesInFirstOccurrenceOrder | frontend/src/pages/AdminMenu.tsx:181 | the list follows first-occurrence order |
| AdminCommon.SelectAllItems | frontend/src/pages/AdminMenu.tsx:160-162 | the selection becomes the filtered items' ids, in order; `AdminNews.tsx:178-180` is the same function |
| AdminCommon.SelectAllMarksEveryItem | frontend/src/pages/AdminMenu.tsx:160-162 | every listed item is selected afterwards |
| AdminNews.FilterNews | frontend/src/pages/AdminNews.tsx:54-66 | an empty term returns the list unchanged; otherwise the subsequence of items whose title, description or preview contains the term case-insensitively |
| AdminNews.SearchIgnoresTermCase | frontend/src/pages/AdminNews.tsx:58-62 | the search gives the same verdict for a term and its lower-case form |
| AdminNews.ValidateForm | frontend/src/pages/AdminNews.tsx:68-78 | title, description and preview each have an error iff their rule fails; a too-long description overrides "required" |
| AdminNews.ValidIff | frontend/src/pages/AdminNews.tsx:68-78 | the form is valid iff title and description are not blank, preview is at most 50 long and description at most 250 |
| AdminNews.TooLongOverridesRequired | frontend/src/pages/AdminNews.tsx:72-74 | a 251-space description reports "Description too long" |
| Notifications.GetIcon | frontend/src/components/NotificationPanel.tsx:12-25 | success, error and warning get distinct icons; every other type, info included, gets the info icon |
| Notifications.FormatTimestamp | frontend/src/components/NotificationPanel.tsx:27-40 | a difference under a minute, negative included, is 'только что'; under an hour it is whole minutes 'мин назад'; otherwise whole hours 'ч назад' |
| Notifications.HoursOfMinutes | frontend/src/components/NotificationPanel.tsx:30-37 | floor(floor(d/60000)/60) = floor(d/3600000) |
| Notifications.Panel | frontend/src/components/NotificationPanel.tsx:8-75 | the panel renders nothing iff the list is empty; otherwise a header counting them and one entry per notification, in order, with its id, class name `notification-item notification-<type>`, icon, message and elapsed-time text |
| Notifications.ClosingDropsOneEntry | frontend/src/components/NotificationPanel.tsx:55-72 | without one notification the panel shows the other entries unchanged and in order under a header counting one fewer, and nothing once the last is gone |

## Left out

**HTTP and storage**

- HTTP plumbing: multipart parsing, JSON encoding and decoding, mux routing, CORS and `main.go`.
  - A form or body that does not decode arrives as `None`.
  - A response is a status plus a message or payload.
  - The JSON of `existingImages` arrives already decoded as absent, a list, or malformed.
  - The front end sends JSON where the handlers expect multipart. The wire format is not modelled.
- PostgreSQL and pgx: the tables are in-memory values.
  - Whether each repository call of a request reaches the database is a parameter (`db(k)` for the k-th call). A call that runs several statements has one flag for all of them: `CreateMenuCategory` for its SELECT, MAX and INSERT, `DeleteUnusedMenuCategory` for its COUNT and DELETE.
  - There is no concurrency between requests, so the check-then-insert race in `CreateMenuCategory` is not modelled.
  - The menu and news ids are unbounded integers: their column types are not part of this model (only `migrate.go` for `menu_categories` is), so no range limit is applied to them.
- CategoryRepository.GetMenuCategories: names that tie on `sort_order` are compared by code point. PostgreSQL compares them with the database collation, which under a ru_RU or en_US locale puts "банан" before "Яблоко", the reverse of code-point order. Ties are real: the `ALTER TABLE` of `migrate.go:40` gives every existing row `sort_order` 0.
- go-cache: the cache is a plain map from key to value. Its TTL and cleanup (`cache.go:9`) are not modelled.
- Disk I/O: the upload directory is a set of stored paths plus a set of paths whose removal fails for a reason other than not-exist.
  - Whether an upload fails to open, or fails to be written (`MkdirAll`, `os.Create`, `io.Copy`), is given with the upload.
  - A failed write is taken to leave no file behind, although a failed `io.Copy` in Go leaves a partial file.
  - The contents of the files are not modelled.
- `LogoutHandler` and the static or configuration-only files (`database.go`, `App.tsx`, `Login.tsx`, `AuthContext.tsx`, the detail pages, header and footer) are not part of this model.

**Foreign libraries**

- JWT signing and verification (golang-jwt) are parameters: a signing function that may fail and a verifying function.
- UUID generation is a parameter: the name of the k-th upload.
- The clocks are parameters.
- MenuRepository.CreateMenuItem: the column binding is a parameter, so the contract does not state which columns receive which fields. `menu_repository.go:18` binds category, calories and description out of the column order given at line 15, and the effect depends on PostgreSQL's casts.

**Numbers and time**

- Floats: the price arrives parsed and already truncated by `int(price)`, or `None` when `strconv.ParseFloat` fails. The admin form's `parseFloat` is not modelled.
- Time zones: timestamps are integer milliseconds. The menu repository's `+3h` shift (`menu_repository.go:17,69`) is kept as a constant offset. The Moscow conversions of `AdminNews.tsx:18-23,89-96,123-126` are not modelled.
- Rfc3339.Parse: only part of the leniency of Go's general layout parser is modelled: a one-digit hour, a comma before the fraction, and offsets up to 24:60. Other inputs that parser also accepts are rejected by the model.

**Text**

- Unicode: strings are sequences of code points.
  - Invalid UTF-8 is not modelled; Go would decode it to U+FFFD and `transliterate` would turn it into `_`.
  - `toLowerCase` is modelled for ASCII and the Cyrillic block U+0400–U+044F only. Other letters are kept as they are.
- AdminMenu.ValidateForm: lengths are counted in code points, while JavaScript's `.length` counts UTF-16 code units. A character outside the Basic Multilingual Plane (an emoji, say) counts twice in the browser, so near the 250-character limit the browser can reject a description the model accepts.
- AdminNews.ValidateForm: lengths are counted in code points rather than UTF-16 code units, with the same consequence near the description's 250 and the preview's 50 characters.

**Payloads**

- NewsHandlers.CreateNewsHandler: the preview is read and discarded. `newsHandlers.go:41` sets a `Preview` field that `models.News` does not have, and `news_repository.go:15-17` has no column for it.
- CategoryHandlers.UpdateMenuCategorySortOrderHandler: the decoded body is an `Option<int>`. A JSON body without `sort_order` decodes to 0 in Go, which the caller has to pass as `Some(0)`.

**Front end**

- React rendering, effects, `setTimeout` auto-clear, `window.confirm` (a parameter of `HandleBulkDelete`), `URL.createObjectURL` and the parallel `Promise.all`. The bulk delete's outcome is a parameter.
- The notification list itself (add, remove, clear) is not part of this model; only the panel that renders it is modelled.
- The drag-and-drop category reorder of the admin front end is not part of this model; only its server side is modelled.

## Findings

| source | as written | input that shows it | evidently intended | confidence | as-written member | corrected member |
|---|---|---|---|---|---|---|
| frontend/src/pages/Menu.tsx:38-45 | groups are collected in a plain `{}`, so `acc[category]` is truthy for inherited keys such as `constructor` and `push` is called on a function | a menu item whose category is "constructor" (stored as the key "constructor") | every category gets its own group | not executed | MenuView.ConstructorCategoryBreaksMenu | MenuView.GroupMenu |
| backend/internal/handlers/menuHandlers.go:222-247 | dropped images are deleted before the price and category are validated | an update of an item with one uploaded image, an empty `existingImages`, no files and price "x": 400 "Invalid price", and the file is gone while the row still lists it | validate first, then delete | not executed | MenuHandlers.RejectedUpdateLosesImages | MenuHandlers.UpdateMenuHandlerChecked |
| backend/internal/handlers/newsHandlers.go:182-207 | dropped images are deleted before `postedAt` is validated | the same update of a news item with `postedAt` "": 400 "Invalid postedAt format", with the file gone | validate first, then delete | not executed | NewsHandlers.RejectedUpdateLosesImages | NewsHandlers.UpdateNewsHandlerChecked |
| backend/internal/handlers/newsHandlers.go:209-217 | the update never sets `CreatedAt`, and `news_repository.go:68-69` writes it, so the row's creation time becomes 0001-01-01T00:00:00Z | any successful update of a news item | the row keeps its creation time | not executed | NewsHandlers.UpdateResetsCreatedAt | NewsHandlers.UpdateNewsHandlerChecked |
