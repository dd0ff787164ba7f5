# vetala-store-backend, modelled in Dafny

The store backend is a Flask service that keeps a catalog of games in a SQLite
table and its admin accounts in a JSON secrets file. This project models the
logic underneath the routes and proves what that logic promises:

- **Catalog** (`store.py`). Rows become records: genres split on commas, the
  rating upper-cased, the platform lower-cased, keyed `0..n-1` in scan order.
  On top of that sit:
  - the public listing and the single-game lookup, with field redaction;
  - the tag and free-text search;
  - the de-duplicated tag facets;
  - the download counter;
  - the admin add-game and remove-games flows.
- **Credentials** (`store.py`). Login compares an n-fold hash chain of the
  password with the stored hash. Adding, editing and removing accounts each
  check their conditions in the order the code does. The removal page lists
  only the removable accounts.
- **Earlier iteration** (`app.py`). It has the same projection and search
  over a ten-column table, with `compile_type` in place of `platform`. Its
  results are lists, and they are not redacted.

Files:

- `wrappers.dfy`: `Option`, `Result` and the Python exceptions the routes can
  raise.
- `pytext.dfy`: the Python string and list behaviour the code relies on:
  - slices that clamp at the end;
  - `split` that keeps empty fields, and `join`;
  - ASCII `upper`/`lower`;
  - substring `in`;
  - `replace`;
  - append-if-absent de-duplication.
- `searchterms.dfy`: the `tags=`/`free-text=` prefix dispatch and the match
  rules that both iterations share.
- `catalog.dfy`: the catalog, as the class `GameTable` over `seq<Row>`.
  - A dict that `format_data` fills with a `length` counter is a
    `map<int, Record>`.
  - The ghost predicate `Keyed` ties that map to the sequence it holds.
  - A deleted key (`URL`, `base64`, `in_pack_man`) is an `Option` field set
    to `None`.
- `credentials.dfy`: the secrets file, as the class `SecretsFile` over
  `map<string, Secret>`.
- `legacyapp.dfy`: the earlier `app.py`, and how its search relates to the
  later one.

A search term with neither prefix does not give an empty result: the result
variable is never bound, so the redaction loop raises `UnboundLocalError`
(store.py:226), and app.py fails the same way at line 119.

## Model

| member | source | states |
|---|---|---|
| `PyText.Prefix` | store.py:206-217 | `term[:n]` is a prefix of the term of length `min(n, len)` |
| `PyText.Suffix` | store.py:207 | `term[n:]` is what follows `term[:n]`, empty when the term is shorter |
| `PyText.Split` | store.py:132 | `split(",")` yields at least one field and no field contains the separator |
| `PyText.JoinSplit` | store.py:132 | joining the fields of a split gives back the original text |
| `PyText.SplitJoin` | store.py:381 | splitting a join of comma-free fields gives back the fields |
| `PyText.SplitAfterPlainPrefix` | store.py:132 | splitting `p + t` with comma-free `p` glues `p` onto the first field of `t` |
| `PyText.Upper` | store.py:134 | `upper()` keeps the length, leaves no lower-case letter and changes nothing but case |
| `PyText.Lower` | store.py:134 | `lower()` keeps the length, leaves no upper-case letter and changes nothing but case |
| `PyText.UpperIdempotent` | store.py:134 | upper-casing twice is upper-casing once |
| `PyText.LowerIdempotent` | store.py:134 | lower-casing twice is lower-casing once |
| `PyText.LowerOfUpper` | store.py:223 | lower-casing forgets an earlier upper-casing |
| `PyText.UpperOfLower` | store.py:312 | upper-casing forgets an earlier lower-casing |
| `PyText.EmptyInEverything` | store.py:223 | the empty string is a substring of every string |
| `PyText.ReplaceChar` | store.py:304 | `replace(" ", "_")` keeps the length, turns every space into `_`, keeps every other character, and so leaves no space |
| `PyText.Dedup` | store.py:239-245 | the append-if-absent list is no longer than the input and holds only its elements |
| `PyText.DedupMembers` | store.py:239-245 | the append-if-absent lists hold exactly the input's elements, each once |
| `PyText.DedupSnoc` | store.py:241-242 | one append-if-absent step extends the de-duplicated list by the element exactly when it is new |
| `PyText.FirstIndex` | store.py:239-245 | the first position of an element: it is there and nowhere before |
| `PyText.FirstIndexUnique` | store.py:239-245 | a position holding the element with no earlier copy is its first position |
| `PyText.FirstIndexOfExtended` | store.py:239-245 | appending does not move an element's first position |
| `PyText.DedupKeepsFirstAppearanceOrder` | store.py:239-245 | the de-duplicated list is ordered by first appearance in the input |
| `Catalog.FirstWith` | store.py:179 | the index of the first row with the value, `None` exactly when no row has it |
| `Catalog.Select` | store.py:179 | `SELECT ... WHERE` keeps exactly the matching rows, is empty iff none match, starts with the first match |
| `Catalog.Projected` | store.py:127-138 | one record per row, each still carrying URL, key and package-manager flag |
| `Catalog.Redacted` | store.py:226-230 | every record loses `URL` and `in_pack_man`, keeps `base64` only for internal callers, keeps all other fields |
| `Catalog.Hits` | store.py:204-225 | the search result is never longer than the catalog |
| `Catalog.HitsMembers` | store.py:211-225 | the search result holds exactly the catalog records that match the query |
| `Catalog.HitsSnoc` | store.py:222-225 | the last game is kept exactly when it matches |
| `Catalog.HitsWithin` | store.py:214 | every hit is a catalog record |
| `Catalog.SetDownloads` | store.py:196 | the `UPDATE` writes the new count on exactly the rows with that key, keeps every other row's count, and changes no other column of any row |
| `Catalog.NewRow` | store.py:301-314 | the inserted row: one download, the form's name with each space turned into `_`, the form's rating upper-cased and platform lower-cased (equal up to case), URL, genres, screenshots, description and key as given, the clock reading as add time, flag set iff the field is non-empty |
| `Catalog.FormatData` | store.py:127-138 | the dict holds key `k` for each row `k` and nothing else, `genres` split, rating upper-cased, platform lower-cased |
| `Catalog.RedactEach` | store.py:226-230 | the in-place `del` loop leaves the dict keyed to the redacted records |
| `Catalog.FormatFirst` | store.py:194-196 | `format_data(...)[0]` is the first matching row as a record, `KeyError` when none matches |
| `Catalog.GameTable.GameFrontPage` | store.py:161-172 | the listing holds every game in catalog order, redacted for the public |
| `Catalog.GameTable.ViewGame` | store.py:177-187 | `{}` exactly when no game has the name, otherwise the first such game, redacted |
| `Catalog.GameTable.DownloadGame` | store.py:192-199 | no match: `KeyError` and no write; otherwise the first match's URL and flag, and its count+1 written to exactly the rows sharing its key |
| `Catalog.GameTable.Search` | store.py:204-232 | the matching games in catalog order, each once, redacted by the internal flag; neither prefix raises `UnboundLocalError` |
| `Catalog.GameTable.GetTags` | store.py:236-247 | the three facet lists are the de-duplications of all genres, ratings and platforms of the listing |
| `Catalog.GameTable.AddGame` | store.py:296-323 | exactly one row, the new one, is appended; the page shows the name with underscores turned back into spaces |
| `Catalog.GameTable.RemovalCandidates` | store.py:356-381 | empty input raises `IndexError`; otherwise one checkbox per internal search hit (key and shown name) and the comma-joined keys |
| `Catalog.GameTable.RemoveGames` | store.py:389-405 | a ticked key that selects no row raises and nothing is deleted; otherwise the first-row names per ticked key, and every row with a ticked key deleted |
| `Catalog.DeleteTicked` | store.py:396-401 | the removal loop fails iff some ticked key finds no row; otherwise it leaves the rows without ticked keys and reports the names |
| `Catalog.DeleteStep` | store.py:397-401 | one pass of the loop: an unticked key changes nothing; a ticked key raises iff no remaining row has it, and otherwise extends the report and the deletions |
| `Catalog.TickedKeyStep` | store.py:397-398 | a ticked key fails the loop exactly when no remaining row has it |
| `Catalog.TickedKeyName` | store.py:398-400 | a ticked key with a remaining row adds that row's shown name to the report |
| `Catalog.UntickedKeyStep` | store.py:397 | an unticked key changes neither the outcome, the ticked set nor the report |
| `Catalog.FirstRemaining` | store.py:398-401 | the first remaining row with a key is the first row of the whole table with it |
| `Catalog.FailsLater` | store.py:396-398 | once the loop has failed, the request fails |
| `Catalog.DeletedNamesSnoc` | store.py:400 | reporting one more key appends that key's name |
| `Catalog.TagHitsOf` | store.py:206-216 | the tag loop with `break` stores each matching game once, in catalog order |
| `Catalog.TextHitsOf` | store.py:217-225 | the free-text loop stores exactly the games whose name or description holds the text, ignoring case |
| `Catalog.CollectTags` | store.py:237-247 | the loops of `get_tags` build the three facet lists of the listing, de-duplicated in order of first appearance |
| `Catalog.AddFacets` | store.py:239-246 | one pass adds the game's new genres, then its rating and platform if new |
| `Catalog.FacetStep` | store.py:239-246 | one more game extends the genre list by its genres and each other facet by its value if new |
| `Catalog.AppendNewStep` | store.py:241-242 | one genre extends the de-duplicated list exactly when it is new |
| `Catalog.AppendNew` | store.py:240-242 | the inner genre loop de-duplicates onto what was already collected |
| `Catalog.Checkboxes` | store.py:368-380 | the checkbox loop lists every result's key and shown name in result order |
| `Catalog.KeyedEmpty` | store.py:165-166 | `data == {}` exactly when there are no records; otherwise key 0 holds the first |
| `Catalog.KeyedAppend` | store.py:136-137 | `return_data[length] = ...; length += 1` extends the keyed sequence |
| `Catalog.FirstSelected` | store.py:179-181 | a selection is empty iff there is no first match, else it starts with the first match |
| `Catalog.FirstOfSelection` | store.py:194-196 | key 0 of the formatted selection is missing iff nothing matches, else it is the first match projected |
| `Catalog.FailsStep` | store.py:397-398 | one more key fails the removal loop iff it is ticked and selects no row or was already deleted |
| `Catalog.TickedStep` | store.py:397 | one more key adds itself to the ticked set exactly when ticked |
| `Catalog.RemovedOne` | store.py:398-400 | deleting a ticked key appends its first row's shown name to the report |
| `Catalog.SelectWithout` | store.py:398-401 | after deleting keys, a lookup finds nothing for a deleted key and the original rows for any other |
| `Catalog.WithoutTwice` | store.py:401 | deleting one more key is deleting the enlarged key set |
| `Catalog.WithoutNothing` | store.py:396 | deleting no key leaves the table alone |
| `Catalog.WithoutMembers` | store.py:401 | removal keeps exactly the rows whose key was not deleted |
| `Catalog.RemovalTermParses` | store.py:357-361 | the rewritten term always has a recognised prefix and reads back as the typed tags or text |
| `Catalog.HiddenKeysReadBack` | store.py:343 | when the page has at least one checkbox, splitting the hidden key list on commas gives back the checkbox keys (with none, `""` splits to `[""]`) |
| `Catalog.ProjectionKeepsColumns` | store.py:132-134 | joining the genres gives back the column; rating and platform agree with the stored ones up to case, the rating upper-case and the platform lower-case |
| `Catalog.HitsConcat` | store.py:211-225 | searching a concatenation searches each part, in order |
| `Catalog.HitsCount` | store.py:211-216 | each game occurs in the result as often as in the catalog if it matches, not at all otherwise |
| `Catalog.HitsAgree` | store.py:217-225 | queries that agree on every game find the same games |
| `Catalog.TextSearchIgnoresCase` | store.py:223 | upper-casing the search text does not change the result |
| `Catalog.EmptyTextListsEverything` | store.py:217-225 | `free-text=` with no text lists the whole catalog |
| `Catalog.AllGenresMembers` | store.py:239-241 | the genre facet holds exactly the genres of the listed games |
| `Catalog.RatingsMembers` | store.py:242-243 | the rating facet holds exactly the ratings of the listed games |
| `Catalog.PlatformsMembers` | store.py:244-245 | the platform facet holds exactly the platforms of the listed games |
| `Catalog.IsFirstUnique` | store.py:194 | there is one first match |
| `Catalog.DownloadTwiceCountsTwo` | store.py:191-199 | a download finds the same game again, so two downloads add two |
| `Catalog.SetDownloadsKeepsNames` | store.py:196 | the counter update changes no name and no key |
| `Catalog.FirstWithAppend` | store.py:315-316 | an appended row becomes the first match only when there was none |
| `Catalog.AddedGameIsFound` | store.py:304-316 | a game added under a new name is what a lookup of that name finds |
| `Catalog.NameRoundTrip` | store.py:304-321 | a name without underscores is shown back exactly as typed |
| `Credentials.IteratedHash` | store.py:463-465 | the `getattr` and rehash loop yield the n-fold chain, `AttributeError` for an unknown name, `TypeError` for a length-less digest |
| `Credentials.RemovalOutcome` | store.py:514-516 | the route fails exactly for a name not in the file |
| `Credentials.IntendedRemovalOutcome` | store.py:514-516 | the intended route never fails and reports a missing account exactly for an unknown name |
| `Credentials.SecretsFile.LoginPost` | store.py:265-275 | login succeeds iff the entry is an account whose hash chain of the password equals the stored hash; the crash cases |
| `Credentials.SecretsFile.AddAccount` | store.py:441-472 | mismatch first, then a taken name (account or setting), then hash errors, else exactly one entry added |
| `Credentials.SecretsFile.EditAccount` | store.py:558-584 | mismatch, then lookup errors, then changed algorithm or count with an empty password, then hash errors, else three fields overwritten and the flag kept |
| `Credentials.SecretsFile.RemoveAccount` | store.py:509-519 | any named entry is deleted whatever its flag; an unknown name raises `TypeError` |
| `Credentials.SecretsFile.RemoveAccountAsIntended` | store.py:509-519 | any named entry is deleted; an unknown name reports the missing account |
| `Credentials.SecretsFile.RemovableAccounts` | store.py:493-499 | the listed names are exactly the account entries with the removable flag, each once |
| `Credentials.ChainInjective` | store.py:269-270 | with an injective digest, equal chains come from equal passwords |
| `Credentials.NewAccountCanLogIn` | store.py:463-467 | a created account accepts its password at login |
| `Credentials.OtherPasswordRejected` | store.py:266-275 | with an injective digest, a created account rejects every other password |
| `Credentials.EditedAccountCanLogIn` | store.py:575-580 | after an edit the account accepts the new password |
| `Credentials.EmptyPasswordEditOpensAccount` | store.py:567-580 | an edit with empty passwords and unchanged settings makes the empty password log in |
| `Credentials.RemovalOnlyLocksOutThatName` | store.py:516 | removal locks out the removed name and no other |
| `Credentials.AddingKeepsOtherLogins` | store.py:466 | adding an entry changes no other login |
| `Credentials.UnknownAccountRemovalCrashes` | store.py:514-515 | an unknown name makes the route fail where the intended route reports it |
| `LegacyApp.LegacyProjected` | app.py:66-75 | one record per row |
| `LegacyApp.Named` | app.py:94 | the lookup keeps exactly the rows with that name |
| `LegacyApp.LegacyHits` | app.py:101-118 | the search result is never longer than the catalog |
| `LegacyApp.LegacyHitsMembers` | app.py:107-118 | the search result holds exactly the records that match |
| `LegacyApp.LegacyHitsSnoc` | app.py:116-118 | the last game is kept exactly when it matches |
| `LegacyApp.FormatData` | app.py:66-75 | the list is the row-by-row projection (genres split, rating upper-cased, compile type lower-cased), in order |
| `LegacyApp.GetGame` | app.py:92-96 | every row with the name, projected and not redacted |
| `LegacyApp.Search` | app.py:101-120 | the matching records in catalog order, unredacted; neither prefix raises `UnboundLocalError` |
| `LegacyApp.TagSearch` | app.py:103-111 | the tag loop with `break` appends each matching game once, in order |
| `LegacyApp.TextSearch` | app.py:112-118 | the free-text loop appends exactly the games whose name or description holds the text, ignoring case |
| `LegacyApp.LegacyProjectionKeepsColumns` | app.py:70-72 | the genres join back to the column; rating and compile type agree with the stored ones up to case, the rating upper-case and the compile type lower-case |
| `LegacyApp.LegacyHitsCount` | app.py:107-111 | each game occurs in the result as often as in the catalog if it matches, not at all otherwise |
| `LegacyApp.SameMatchesAsStore` | app.py:107-117 | a row projects to records that correspond field for field in both iterations, and both match them alike |
| `LegacyApp.SameHitsAsStore` | app.py:101-118 | the two searches return corresponding games, position by position |
| `LegacyApp.ProjectedPrefixes` | app.py:68-74 | dropping the last row drops the last record in both iterations |
| `LegacyApp.HitsStep` | app.py:107-118 | searches that agree on all but the last records, whose last records correspond and match alike, agree |
| `LegacyApp.AppendCorresponding` | app.py:110 | corresponding result lists stay corresponding when each is extended by corresponding records |

## Left out

- Concurrency: `app.run()` (store.py:588) serves requests on threads, but each route is modelled as one atomic step. `Catalog.GameTable.DownloadGame` reads the count (store.py:194-195) and writes it back (store.py:196) in separate statements, so two concurrent downloads can both write the same count and lose an increment. `Credentials.SecretsFile.AddAccount`, `EditAccount` and `RemoveAccount` load the whole secrets file and dump it back (e.g. store.py:443-444, store.py:468-469), so concurrent account routes can overwrite each other's change. These lost updates are not captured; `Catalog.DownloadTwiceCountsTwo` covers only sequential downloads.

- HTTP and UI glue: Flask routing, `flask_login` sessions and its user loader, `render_template`, and all HTML assembly (checkbox and radio markup, placeholder replacement, the hidden previous-search field). Only the data these pages carry is modelled.
- SQLite and SQL text: the table is an in-memory sequence of rows with equality lookups. Query construction by `%` formatting, and the injection it allows, is not modelled. A connection's uncommitted deletions are visible to its own later selects, and work that is never committed is lost; the removal flow is modelled on those grounds.
- Reading and writing `settings.json` and the secrets file: `SecretsFile` holds the file's contents between routes. The insertion order of the JSON object is not modelled, so the order of the removable list is not stated.
- `hashlib`: digests are an uninterpreted function passed in with the module's constructor names. Text encoding is part of that function. `getattr` on a module attribute that is not a hash constructor is treated as an unknown name.
- The algorithm radio buttons of the account pages, including the filter that hides `shake` algorithms: this is page rendering.
- `base64.encodestring` (MIME base64 of section 6.8 of RFC 2045) and its `strip` calls: the encoded key is an input string.
- `gen_rand_string`, the SHA-512 secret key and `time.time()`: the add time is an integer parameter, not a float.
- Case mapping: `upper`/`lower` are modelled for ASCII letters only.
- Form fields: an absent field is an empty string, not `None`. `int()` parsing of the hash count is not modelled; the count is an integer input. A `None` password or username, and the errors it would raise, are not modelled.
- The strip loop of `rg_post_toggle` (store.py:344-346) only rebinds its loop variable, so it does nothing. The route's split of the hidden field (store.py:343) is covered by `Catalog.HiddenKeysReadBack`.
- The `print(data)` debugging call in `remove_games`, and `json.dumps` of the app.py results.
- The later pages that each account route renders (`serve_add_account`, `serve_edit_account`, `serve_remove_account`): each route's outcome is the notice it asks for. Those pages re-read the secrets file for the current user, and that is not modelled.

## Findings

| source | as written | input that shows it | evidently intended | confidence | as-written member | corrected member |
|---|---|---|---|---|---|---|
| store.py:514-515 | `serve_remove_account(error="missing_account")` passes a keyword the function (store.py:477) does not take, so the call raises `TypeError` | a removal form naming an account not in the secrets file, e.g. `"nobody"` | show the "Account Not Found!" notice and leave the file alone | high (not executed; follows from the signature at store.py:477) | `Credentials.SecretsFile.RemoveAccount` | `Credentials.SecretsFile.RemoveAccountAsIntended` |
