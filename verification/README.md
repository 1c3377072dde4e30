# Product list back-end model, in Dafny

This project models the server-side product list model of a web store (the wish
lists, "saved for later" and "request a quote" lists of a shopper). It covers:

- the session gate;
- reading one list, or the list of a special type, with its fallback to a configured
  template;
- the listing of all lists of a user, which merges in the predefined templates the user
  has no list for and narrows the result in single-list deployments;
- creating, updating and soft-deleting lists;
- the sanitising of names and descriptions, and the sort order token of the search.

The platform's record store and search are replaced by an in-memory table of records
(`Records.RecordStore`). A search returns the active records of the table whose owner
field reads as the user's id, in table order, narrowed by id or by type id. The
configuration is a value given to the model object (`ProductList.Model`). Its template
list is a field, because both the listing and the special-type fallback change its
entries in place.

Layout:

- `outcomes.dfy` (`Outcomes`): `Option`, `Result`, `Outcome` and the errors the
  model raises: Unauthorized, NotFound, the record store's load failure, and the
  TypeError of the search as written (see Findings).
- `js_values.dfy` (`JsValues`): the JavaScript values a configured template field can
  hold (`undefined`, a string, a number). It defines truthiness, `parseInt(s, 10)`, and
  number-to-string conversion with its round trip. Strict equality `===` is equality of
  these values, so a numeric type id `2` is *not* the string `'2'`.
- `text.dfy` (`Text`, `TextExamples`): `sanitize`, and the `\n` to `<br>` rewrite of a
  stored description when it is shown.
- `sort_order.dfy` (`SortOrder`): the `"column:direction"` order token and the column
  sort it requests (see Findings).
- `listing.dfy` (`Listing`): listing entries, the template ids of the stored rows, the
  completion of missing templates, `isSingleList`, and the final type filter.
- `records.dfy` (`Records`): stored records, search matching, the row format, the
  records `create`, `update` and `delete` submit, and the record store class.
- `operations.dfy` (`Operations`): what each operation returns and leaves behind, as
  functions of the table, the templates and the request, and the lemmas that relate the
  operations.
- `product_list.dfy` (`ProductList`): the `Model` class. Its methods are written step
  by step like the source, and each is proved to compute its `Operations` function.

Deliberate decisions:

- Ownership is the source's own test: the owner field read with `parseInt(…, 10)`
  equals the user. The search filter `owner is user` is modelled by the same test.
- The special-type fallback fills a missing scope with `{id: type_id, name: 'private'}`.
  It reuses the *type* id as the scope id, exactly as the code does.
- `search` performs no session check, as in the code; every other public operation
  does.

## Model

| member | source | states |
|---|---|---|
| JsValues.ParseInt | ProductList.Model.js:400 | `parseInt(owner, 10)` is a number exactly when at least one digit follows the leading white space and optional sign |
| JsValues.IntToString | ProductList.Model.js:389 | the owner field written for a user id is never empty; ParseIntOfIntToString and IntToStringInjective state its round trip |
| JsValues.ParseIntOfIntToString | ProductList.Model.js:389 | the owner written from a user id parses back to that id, so the ownership checks at 400 and 423 accept the creator |
| JsValues.IntToStringInjective | ProductList.Model.js:389 | distinct users write distinct owner fields |
| JsValues.AsString | ProductList.Model.js:227 | `scopeId += ''` always yields a string and leaves a string unchanged |
| JsValues.AsStringOfNumber | ProductList.Model.js:227 | a numeric scope id becomes a string that reads back as the same number |
| Text.ReplaceBr | ProductList.Model.js:111 | `replace(/<br>/g, '\n')` never lengthens the text; ReplaceBrAroundTag and ReplaceBrWithoutTag state what it replaces |
| Text.ReplaceChar | ProductList.Model.js:112-113 | the global replace of one character by a text; ReplaceCharRemoves, ReplaceCharKeepsAbsent, ReplaceCharAbsent and ReplaceCharAppend state what it does |
| Text.Escape | ProductList.Model.js:112-113 | the two escaping passes leave no `<` and no `>` |
| Text.Display | ProductList.Model.js:150-154 | a shown description holds no newline; DisplayAroundNewline states that each one is shown as `<br>` |
| Text.Sanitize | ProductList.Model.js:109-116 | the sanitised text contains no `<` and no `>` |
| Text.SanitizeIsEscapedReplace | ProductList.Model.js:109-116 | the falsy-text branch (`''`) agrees with replacing `<br>` and then escaping |
| Text.SanitizeIdempotent | ProductList.Model.js:109-116 | sanitising an already sanitised text changes nothing |
| Text.ReplaceBrAroundTag | ProductList.Model.js:111 | every `<br>` becomes a newline, whatever text surrounds it |
| Text.SanitizeAroundTag | ProductList.Model.js:109-116 | sanitising text around a `<br>` is sanitising each side, joined by a newline |
| Text.ReplaceCharRemoves | ProductList.Model.js:112-113 | after the global replace of a character by a text without it, the character is gone |
| Text.ReplaceCharKeepsAbsent | ProductList.Model.js:112-113 | a global character replace introduces no character that neither the input nor the replacement holds |
| Text.ReplaceCharAbsent | ProductList.Model.js:112-113 | the global replace of an absent character changes nothing |
| Text.ReplaceBrWithoutTag | ProductList.Model.js:111 | a text without `<` has no `<br>` to replace |
| Text.ReplaceCharAppend | ProductList.Model.js:112-113 | a one-character global replace works piecewise over a concatenation |
| Text.EscapeAppend | ProductList.Model.js:112-113 | escaping works piecewise over a concatenation |
| Text.EscapeWithoutBrackets | ProductList.Model.js:112-113 | escaping text without angle brackets changes nothing |
| Text.ReplaceBrWithoutR | ProductList.Model.js:111 | text without the letter `r` holds no `<br>` |
| Text.ReplaceBrOfDisplay | ProductList.Model.js:150-154 | turning `<br>` back into newlines undoes the display rewrite of a text without `<` |
| Text.SanitizeDisplayRoundTrip | ProductList.Model.js:150-154 | a stored description without angle brackets survives being shown and submitted again |
| Text.DescriptionRewriteStable | ProductList.Model.js:150-154 | a description read back through the listing and saved again is stored unchanged |
| Text.DisplayAroundNewline | ProductList.Model.js:150-154 | each stored newline is shown as `<br>`, whatever text surrounds it |
| TextExamples.EscapeSingle | ProductList.Model.js:112-113 | `<` becomes `&lt;` and `>` becomes `&gt;` |
| TextExamples.EscapeBracketed | ProductList.Model.js:112-113 | both brackets of a bracketed letter are escaped |
| TextExamples.EscapeOpen | ProductList.Model.js:112 | a lone `<` between letters is escaped |
| TextExamples.SanitizeLetterAroundTag | ProductList.Model.js:109-116 | a letter, `<br>`, then text becomes the letter, a newline and the escaped text |
| TextExamples.SanitizeExample | ProductList.Model.js:109-116 | `a<br>b<c>` is stored as `a`, newline, `b&lt;c&gt;` |
| TextExamples.ReadBackStored | ProductList.Model.js:109-116 | `x<br>y<z` is stored as `x`, newline, `y&lt;z` |
| TextExamples.ReadBackShown | ProductList.Model.js:150-154 | that stored description is shown as `x<br>y&lt;z` |
| TextExamples.ReadBackExample | ProductList.Model.js:150-154 | submitting `x<br>y<z` and reading it back shows `x<br>y&lt;z` |
| SortOrder.Split | ProductList.Model.js:120 | `split(':')` yields at least one piece, and no piece contains `:` |
| SortOrder.JoinSplit | ProductList.Model.js:120 | the pieces of the split, joined by `:`, give back the order token |
| SortOrder.SplitAfterFirst | ProductList.Model.js:120 | the text before the first `:` is the first piece |
| SortOrder.SplitWithoutSeparator | ProductList.Model.js:120 | a token without `:` is a single piece |
| SortOrder.FirstPiece | ProductList.Model.js:121 | the first piece is the prefix of the token up to the first `:` |
| SortOrder.ParseOrder | ProductList.Model.js:120-122 | the sort column is never empty and never contains `:`; the lemmas below state which column and direction a token gives |
| SortOrder.DefaultOrder | ProductList.Model.js:120-122 | an absent order sorts by `name`, ascending |
| SortOrder.ParseOrderColumn | ProductList.Model.js:121 | the column is the text before the first `:`, or `name` when that is empty |
| SortOrder.ParseOrderDescendingSound | ProductList.Model.js:122-125 | a descending sort means the second token is `DESC` |
| SortOrder.ParseOrderDescendingComplete | ProductList.Model.js:122-125 | a second token `DESC` sorts descending, whatever follows a third `:` |
| SortOrder.DescendingLast | ProductList.Model.js:122-125 | `column:DESC` sorts descending |
| SortOrder.DescendingMiddle | ProductList.Model.js:122-125 | `column:DESC:anything` sorts descending |
| SortOrder.ParseTwoTokens | ProductList.Model.js:120-122 | `column:direction` reads back as that column, descending exactly for `DESC` |
| SortOrder.ParseToStringOrder | ProductList.Model.js:120-122 | `toString:ASC` names the column `toString`, ascending |
| SortOrder.ColumnSortAsWritten | ProductList.Model.js:125 | as written: a sort exactly when the column is one of the nine search columns, in the requested direction, and a TypeError exactly when it is an inherited object property |
| SortOrder.ColumnSortAsWrittenThrows | ProductList.Model.js:125 | as written, the order `toString:ASC` names no search column yet throws a TypeError |
| SortOrder.ColumnSortOf | ProductList.Model.js:36-48 | corrected: a column is sorted exactly when it is one of the nine search columns, in the requested direction, and nothing ever throws |
| SortOrder.ColumnSortAgrees | ProductList.Model.js:125 | as written and corrected agree on every order whose column is not an inherited object property |
| SortOrder.DefaultColumnSort | ProductList.Model.js:120-125 | an absent order sorts the `name` column ascending |
| Listing.TemplateIds | ProductList.Model.js:178-180 | the collected ids are exactly the truthy template ids of the rows |
| Listing.TemplateIdsAppend | ProductList.Model.js:178-180 | the ids of two runs of rows are the ids of the first run, then those of the second |
| Listing.Eligible | ProductList.Model.js:206-207 | a template is appended when its id is not among the rows' ids and it has a truthy id and name; SynthesizedMembers states that these are exactly the appended ones |
| Listing.WithDefaults | ProductList.Model.js:211-227 | a completed template keeps its id, name, owner and scope; it gets a non-empty string scope id and a type |
| Listing.WithDefaultsFields | ProductList.Model.js:211-227 | each default is filled exactly when its field is falsy, and set fields are kept |
| Listing.WithDefaultsIdempotent | ProductList.Model.js:211-227 | completing a completed template changes nothing |
| Listing.Completed | ProductList.Model.js:205-231 | the configuration after the loop has one entry per template; CompletedAt states each entry |
| Listing.CompletedAt | ProductList.Model.js:205-231 | each configured template is completed in place exactly when it is eligible, and left alone otherwise |
| Listing.Synthesized | ProductList.Model.js:205-231 | the loop appends at most one entry per template; SynthesizedMembers states which |
| Listing.SynthesizedMembers | ProductList.Model.js:205-231 | an entry is appended exactly when it completes an eligible template |
| Listing.SynthesizedAppend | ProductList.Model.js:205-231 | templates are appended in configuration order |
| Listing.SynthesizedShape | ProductList.Model.js:206-229 | every appended template has an id and a name; its id is not among the rows' ids, its scope id is a non-empty string and its type is set |
| Listing.CompletedStable | ProductList.Model.js:205-231 | running the loop again over the completed configuration changes it no further and appends the same entries |
| Listing.OrdinaryCountZero | ProductList.Model.js:358-370 | no ordinary template is counted exactly when none is untyped or of a non-special type |
| Listing.OrdinaryCountOne | ProductList.Model.js:358-370 | the filter has length 1 exactly when exactly one template is untyped or of a non-special type |
| Listing.CountOneUnique | ProductList.Model.js:358-370 | a count of one means a unique ordinary template |
| Listing.UniqueCountOne | ProductList.Model.js:358-370 | a unique ordinary template means a count of one |
| Listing.IsSingleList | ProductList.Model.js:358-370 | `isSingleList()` as a predicate of the configuration; IsSingleListIff states what it means |
| Listing.IsSingleListIff | ProductList.Model.js:358-370 | single-list mode holds exactly when additions are off, templates are configured, and exactly one of them is ordinary |
| Listing.CompletedKeepsOrdinaryCount | ProductList.Model.js:224-227 | completing the templates does not change whether the deployment is single-list |
| Listing.Visible | ProductList.Model.js:234-245 | the final filter never lengthens the listing; VisibleSpec states what it keeps |
| Listing.VisibleSpec | ProductList.Model.js:234-245 | the final filter keeps, in order, exactly the entries its predicate accepts |
| Listing.VisibleTypes | ProductList.Model.js:234-245 | in single-list mode only predefined lists remain; otherwise no saved-for-later or request-a-quote list remains |
| Records.OwnedBy | ProductList.Model.js:400 | a record is the user's when its owner field read with `parseInt(…, 10)` is the user's id |
| Records.Matching | ProductList.Model.js:128-132 | the platform search returns at most the table's rows; MatchingSpec states which, in which order |
| Records.MatchingSpec | ProductList.Model.js:191-192 | the search returns, in table order, exactly the active rows owned by the user that satisfy the filters |
| Records.MatchingAppend | ProductList.Model.js:128-132 | searching two runs of the table is searching each, in order |
| Records.MatchingFirst | ProductList.Model.js:59-62 | the first result is the earliest matching row of the table |
| Records.IndexOfId | ProductList.Model.js:398 | loading by id finds a stored row with that id, or fails when none exists |
| Records.ByIdMatching | ProductList.Model.js:55-57 | a search by id returns the record with that id when it is active and owned by the user, and nothing otherwise |
| Records.MatchingOnly | ProductList.Model.js:55-57 | when at most one row can match, the search returns that row or nothing |
| Records.MatchingNone | ProductList.Model.js:128-132 | a search where no row matches returns nothing |
| Records.RowEntry | ProductList.Model.js:138-176 | a row keeps the stored template and type ids, shows the description with `<br>` for newlines, and carries the record id |
| Records.RowEntryId | ProductList.Model.js:139 | a row's internal id reads back as the record id |
| Records.Rows | ProductList.Model.js:137-183 | one row per result, in result order |
| Records.RowTemplateIds | ProductList.Model.js:178-180 | the collected ids are exactly the non-empty template ids of the results |
| Records.Created | ProductList.Model.js:373-390 | a new record is active, owned by the user, with the supplied template, scope and type ids and the sanitised name and description |
| Records.Updated | ProductList.Model.js:403-412 | an update keeps id, owner and inactive flag; template, scope and type ids are overwritten only when supplied, the name only when supplied and then sanitised, and the description always, sanitised or emptied |
| Records.Deactivated | ProductList.Model.js:427 | delete sets the inactive flag and nothing else |
| Records.RecordStore.constructor | ProductList.Model.js:128-132 | an empty table whose next id is 0 |
| Records.RecordStore.Insert | ProductList.Model.js:376-391 | a new record is appended under the next id, which is returned; ids stay unique |
| Records.RecordStore.Load | ProductList.Model.js:398 | the stored record with that id, or a load failure |
| Records.RecordStore.Put | ProductList.Model.js:414 | the stored record with that id is replaced; nothing else changes |
| Operations.FirstOfType | ProductList.Model.js:89-93 | the first configured template with a truthy type id strictly equal to the type, or none when there is no such template |
| Operations.WithScope | ProductList.Model.js:95-101 | the fallback template keeps its id, name and type; a missing scope becomes `{id: type_id, name: 'private'}` and a present one is kept; a falsy description becomes `''` and a truthy one is kept |
| Operations.GetResult | ProductList.Model.js:51-65 | what `get` returns; GetFindsOwnedActive and GetSuccessIff state its meaning |
| Operations.GetFindsOwnedActive | ProductList.Model.js:51-65 | `get` returns the list with that id exactly when it is stored, active and owned by the user; otherwise NotFound |
| Operations.SpecialResult | ProductList.Model.js:76-106 | what the special-type lookup returns and how it changes the templates; SpecialResultSpec and SpecialResultStable state its meaning |
| Operations.SpecialResultSpec | ProductList.Model.js:76-106 | the special-type list is always of the requested type: the first owned active stored list of that type, else a template of that type; NotFound exactly when neither exists |
| Operations.ScopeFallbackUsesTypeId | ProductList.Model.js:95-97 | the filled-in scope id is the type id, and its name is `private` |
| Operations.SpecialResultStable | ProductList.Model.js:94-103 | after the in-place fill, asking again returns the same list and changes nothing further |
| Operations.Merged | ProductList.Model.js:189-231 | the stored rows followed by the appended templates; MergedSpec states its contents |
| Operations.SearchResult | ProductList.Model.js:189-245 | what `search` returns and how it changes the templates, with the corrected sort; SearchResultSpec and SearchResultStable state its meaning |
| Operations.MergedSpec | ProductList.Model.js:189-231 | the merged listing holds the user's stored rows first, then exactly the completed eligible templates |
| Operations.SearchResultSpec | ProductList.Model.js:189-245 | the listing is an ordered selection of the merged list: in single-list mode exactly its predefined entries, otherwise exactly those of neither special type |
| Operations.SearchResultStable | ProductList.Model.js:205-231 | a second listing over the completed configuration returns the same lists and changes nothing further |
| Operations.SearchSkipsTemplateWithoutId | ProductList.Model.js:206-210 | with no stored list and two templates, one of them without an id, the listing holds only the completed valid template |
| Operations.SearchAsWritten | ProductList.Model.js:189-201 | `search` as written: the order is applied before anything else, so a TypeError there leaves the templates untouched |
| Operations.SearchAsWrittenThrows | ProductList.Model.js:125 | as written, `search` with the order `toString:ASC` throws a TypeError and changes no template |
| Operations.SearchAsWrittenAgrees | ProductList.Model.js:125 | as written, `search` throws exactly when the order's column is an inherited object property, and otherwise returns what the corrected search returns |
| Operations.CreateResult | ProductList.Model.js:373-392 | what `create` returns and stores; CreatedVisibleToCreator states its meaning |
| Operations.UpdateResult | ProductList.Model.js:395-415 | what `update` returns and stores; UpdateRequiresOwnership and UpdateKeepsVisibility state its meaning |
| Operations.DeleteResult | ProductList.Model.js:418-432 | what `delete` returns and stores; DeleteHides and DeleteIdempotent state its meaning |
| Operations.UniqueIdsAppend | ProductList.Model.js:391 | appending a record under an unused id keeps ids unique |
| Operations.UniqueIdsReplace | ProductList.Model.js:414 | replacing a record by one with the same id keeps ids unique |
| Operations.IndexOfIdSameIds | ProductList.Model.js:398 | replacing records by ones with the same ids keeps where each id is found |
| Operations.GetSuccessIff | ProductList.Model.js:51-65 | whether `get` finds a list depends only on the stored record with that id: it must be active and owned by the user |
| Operations.CreatedVisibleToCreator | ProductList.Model.js:373-392 | a created list is found by its creator under the returned id, and by no other user |
| Operations.UpdateRequiresOwnership | ProductList.Model.js:395-402 | `update` succeeds exactly on an existing record owned by the user; any failure leaves the table unchanged |
| Operations.UpdateKeepsVisibility | ProductList.Model.js:395-415 | a successful update changes one record, and `get` finds exactly the same ids for every user as before |
| Operations.GetAfterReplace | ProductList.Model.js:414 | replacing one stored record changes what `get` finds for that id only |
| Operations.DeleteHides | ProductList.Model.js:418-432 | after `delete` the list is still stored but inactive, `get` finds it for nobody, and no other record changes |
| Operations.DeleteIdempotent | ProductList.Model.js:418-432 | deleting a list twice leaves the table as deleting it once |
| Operations.RefusedSessionChangesNothing | ProductList.Model.js:27-34 | with the session refused, every gated operation is Unauthorized and changes neither the table nor the configuration |
| Operations.UpdatedDescriptionRoundTrip | ProductList.Model.js:409-412 | an updated description is shown with `<br>` line breaks, and submitting it again stores the same description |
| ProductList.Model.constructor | ProductList.Model.js:20-25 | the model holds the given configuration and record store |
| ProductList.Model.VerifySession | ProductList.Model.js:27-34 | Unauthorized exactly when login is required and the shopper is not logged in |
| ProductList.Model.SearchHelper | ProductList.Model.js:118-186 | the rows of the matching records in table order, their template ids when asked for, and the requested sort, corrected as in Findings |
| ProductList.Model.Get | ProductList.Model.js:51-65 | returns what `Operations.GetResult` specifies |
| ProductList.Model.GetSpecialTypeProductList | ProductList.Model.js:76-106 | returns the list and leaves the templates as `Operations.SpecialResult` specifies |
| ProductList.Model.GetSavedForLaterProductList | ProductList.Model.js:68-70 | the special-type lookup for type `'2'` |
| ProductList.Model.GetRequestAQuoteProductList | ProductList.Model.js:72-74 | the special-type lookup for type `'4'` |
| ProductList.Model.Search | ProductList.Model.js:189-245 | returns the listing and leaves the templates as `Operations.SearchResult` specifies, for every order, because it applies the corrected sort |
| ProductList.Model.AddMissingTemplates | ProductList.Model.js:205-231 | completes the configuration in place and appends exactly the completed eligible templates, in order |
| ProductList.Model.CompleteTemplate | ProductList.Model.js:206-230 | a template is completed and appended exactly when it is eligible |
| ProductList.Model.Create | ProductList.Model.js:373-392 | the table and the result are as `Operations.CreateResult` specifies; the next id advances on success |
| ProductList.Model.Update | ProductList.Model.js:395-415 | the table and the outcome are as `Operations.UpdateResult` specifies |
| ProductList.Model.Delete | ProductList.Model.js:418-432 | the table and the result are as `Operations.DeleteResult` specifies |

## Left out

- The mail export branch of `search` (lines 247-354): it builds a spreadsheet, stores a file and sends an email, all platform I/O. When it completes, the returned list is the one without it. It throws a TypeError in two cases the model does not capture: when an appended template passes the filter, because a template has no `items` (line 258), and when the filtered listing is empty, because it reads `product_list_results[0].name` (line 274).
- Items of a list (`ProductListItemSearch.search`): they are another component. Rows carry no `items` field.
- The `created` and `lastmodified` stamps and the formatted modification date: clocks and date formatting.
- Console logging, including the message for a template without an id or a name. The model skips that template silently.
- The platform search, load and submit: these are replaced by the in-memory record table. The search's effect on sorting is returned as a value (`ColumnSort`) and not applied to the row order.
- `Configuration.get`: the configuration is passed to the model object as values.
- The session object: whether the shopper is logged in is a boolean argument of each gated operation.
- Display names of owner, scope and type (`getText`): these are a function given with the table.
- Create and update inputs are strings, with `""` standing for an absent or falsy field. JSON values of other types are not modelled.
- JsValues.ParseInt: does not model number precision beyond 2^53, which does not arise from owner fields written from integer user ids.
- ProductList.Model.Search: applies the corrected column sort (`SortOrder.ColumnSortOf`), so it never raises the TypeError that line 125 raises for an order naming an inherited object property such as `toString:ASC`. That behaviour is modelled on values by `Operations.SearchAsWritten`. The sort itself does not reorder the rows (see the platform search above).
- ProductList.Model.SearchHelper: returns the corrected column sort, not the as-written one; for orders naming an inherited property the source throws here instead.
- Records.RecordStore.Put: ids are assumed unique in the table, as the platform guarantees. This is a precondition, not a checked error.

## Findings

| source | as written | input that shows it | evidently intended | confidence | as-written member | corrected member |
|---|---|---|---|---|---|---|
| ProductList.Model.js:125 | `columns[sort_column] && columns[sort_column].setSort(...)` looks the column up on a plain object, so inherited properties such as `toString` are truthy, and calling `setSort` on them throws a TypeError | order `toString:ASC` | sort only when the column is one of the nine search columns, otherwise leave the search unsorted | not executed | SortOrder.ColumnSortAsWrittenThrows | SortOrder.ColumnSortOf |
