# Crawl-pipeline backlog and text normalisation, modelled in Dafny

This project models `src/utils/storage.py` of a YouTube crawl pipeline
(channels → playlist items → video details → comments → trending lists).
That file decides which work remains. It has four parts, each with its own
Dafny module:

- **Text normaliser** (`text_normalizer.dfy`). Vietnamese letters are folded
  onto plain letters by a fixed table that is applied replacement by
  replacement. NUL characters are removed from every value of a record, in
  place.
- **Stage readers** (`tables.dfy`, `readers.dfy`). The store is a datatype
  with one row sequence per table: VideoCategory, ChannelList,
  ChannelPlaylistItem, ChannelSnippet, VideoDetail, MostPopular and
  TopLevelComment. Each `get_db_*` query is a function answering
  `Failed` (the source's `False` after a storage error) or `Rows(ids)`. Its
  contract states the query's relational meaning as membership in the tables.
- **Backlog resolvers** (`backlog.dfy`). `channel_list_except` and
  `video_detail_except` are modelled with Python's truthiness test. Their
  outcome type has three cases: `ReturnsFalse`, `ReturnsList` and
  `RaisesTypeError`. The last one is the `TypeError` that `set(False)` raises.
- **Candidate filters** (`filters.dfy`). These are the category-exclusion
  join and the audio-language join over MostPopular.
- **Category sync** (`category_sync.dfy`). `save_video_categories` is a
  method of a `Database` class. It appends one VideoCategory row per fetched
  item and stops at the first failed commit.

Environment inputs are parameters of the model:

- The storage error a query may raise is a `fault: bool` argument, one per
  read. Two reads in one call can fail independently.
- The result of the external category fetch is a `Fetched` value.
- Which commits fail is given as the set `failing` of item indices.

Three behaviours of the code are easy to misread:

- `channel_list_except` answers `False` when both reads succeed but are
  empty. It raises `TypeError` when exactly one read fails and the other is
  non-empty.
- `video_detail_except` answers `False` when either table is empty, not
  only when a read fails.
- Every listed character, upper-case ones included, folds to a lower-case
  base letter. Upper-case letters outside the table (such as `N`) keep
  their case.

## Model

| member | source | states |
|---|---|---|
| `TextNormalizer.VietnameseReplace` | src/utils/storage.py:237-258 | the nested replacement loop over the table yields exactly the character-wise fold of the input: same length, each character folded independently |
| `TextNormalizer.ListedFolds` | src/utils/storage.py:246-254 | every character listed under a base letter folds to that lower-case base letter, so no character is listed under two letters |
| `TextNormalizer.Unlisted` | src/utils/storage.py:255-258 | a character the table does not list is left unchanged |
| `TextNormalizer.ClassesAreListed` | src/utils/storage.py:246-254 | each letter's character class is exactly the table's list for that letter, in both directions |
| `TextNormalizer.FoldCharIdempotent` | src/utils/storage.py:246-258 | folding a folded character changes nothing; base letters fold to themselves |
| `TextNormalizer.FoldIdempotent` | src/utils/storage.py:237-258 | folding a folded string changes nothing |
| `TextNormalizer.FoldConcat` | src/utils/storage.py:255-258 | folding works on each part of a string independently |
| `TextNormalizer.FoldLeavesNoListedCharacter` | src/utils/storage.py:246-258 | no listed character other than a base letter itself occurs in a folded string |
| `TextNormalizer.FoldLowersListedCase` | src/utils/storage.py:247-253 | case is not preserved: 'Ạ', 'A' → 'a', 'Đ' → 'd', 'Y' → 'y'; the unlisted 'N' stays 'N' |
| `TextNormalizer.StripNulRemovesAll` | src/utils/storage.py:271 | no NUL is left, wherever and however often it occurred |
| `TextNormalizer.StripNulKeepsOthers` | src/utils/storage.py:271 | every other character is kept as many times as it occurred |
| `TextNormalizer.StripNulConcat` | src/utils/storage.py:271 | stripping works piece by piece, so the kept characters stay in order |
| `TextNormalizer.StripNulKeepsClean` | src/utils/storage.py:271 | a value without NUL is left unchanged |
| `TextNormalizer.StripNulIdempotent` | src/utils/storage.py:271 | stripping a stripped value changes nothing |
| `TextNormalizer.StripValuesProperties` | src/utils/storage.py:270-272 | stripping a record keeps its key set, leaves no NUL in any value and is idempotent |
| `TextNormalizer.Record.PgsqlNulReplace` | src/utils/storage.py:261-272 | the record is changed in place so that every value is NUL-stripped under the same key set, and the same record is returned |
| `Tables.Distinct` | src/utils/storage.py:90-92 | DISTINCT: the answer has no duplicates and holds exactly the values of the column |
| `Tables.Select` | src/utils/storage.py:73-75 | a column of the rows a predicate keeps; when every row is kept, the i-th value is the column of the i-th row, duplicates included |
| `Readers.GetDbVideoCategory` | src/utils/storage.py:43-62 | `False` exactly on a storage error; otherwise the distinct category ids of rows of the region with `assignable` true |
| `Readers.GetDbChannelListChannelId` | src/utils/storage.py:65-79 | `False` exactly on a storage error; otherwise the i-th answer is the channel id of the i-th ChannelList row, with no DISTINCT |
| `Readers.ChannelListKeepsDuplicates` | src/utils/storage.py:73-75 | a channel listed twice in ChannelList is answered twice |
| `Readers.GetDbChannelPlayListItemChannelId` | src/utils/storage.py:82-96 | `False` exactly on a storage error; otherwise the distinct playlist channel ids, empty only for an empty table |
| `Readers.GetDbChannelPlayListItemVideoId` | src/utils/storage.py:99-113 | `False` exactly on a storage error; otherwise the distinct playlist video ids, empty only for an empty table |
| `Readers.GetDbVideoDetailVideoId` | src/utils/storage.py:116-130 | `False` exactly on a storage error; otherwise the distinct detailed video ids, empty only for an empty table |
| `Readers.GetDbCommentVideoId` | src/utils/storage.py:133-147 | `False` exactly on a storage error; otherwise the distinct commented video ids |
| `Readers.GetDbRegionChannelId` | src/utils/storage.py:150-161 | `False` exactly on a storage error; otherwise the distinct channel ids whose snippet has the region as country and that have a playlist item |
| `Backlog.SetDifference` | src/utils/storage.py:173 | `list(set(p) - set(l))`: no duplicates, exactly the values of `p` not in `l` |
| `Backlog.ChannelListExcept` | src/utils/storage.py:164-175 | `False` iff both reads are falsy; raises iff exactly one read failed and the other table is non-empty; otherwise the duplicate-free playlist channels not in ChannelList |
| `Backlog.ChannelListExceptExample` | src/utils/storage.py:164-175 | playlist channels {A, B, C} against ChannelList {A} leave exactly {B, C} |
| `Backlog.ChannelListExceptRaises` | src/utils/storage.py:170-173 | a failed ChannelList read with playlist items present raises `TypeError` |
| `Backlog.ChannelListExceptGuarded` | src/utils/storage.py:164-175 | corrected resolver: never raises; a failed read counts as no rows, so `False` iff neither read has rows, otherwise the playlist channels the ChannelList read did not return |
| `Backlog.ChannelListExceptGuardedAgrees` | src/utils/storage.py:164-175 | the corrected resolver agrees with the source wherever the source does not raise |
| `Backlog.ChannelListExceptGuardedOnFailedRead` | src/utils/storage.py:170-173 | where the source raises, the corrected resolver answers every playlist channel (failed ChannelList read) or nothing (failed playlist read) |
| `Backlog.VideoDetailExcept` | src/utils/storage.py:178-189 | never raises; `False` iff a read failed or either table is empty; otherwise the duplicate-free playlist videos without details |
| `Backlog.VideoDetailExceptEmptyDetails` | src/utils/storage.py:186 | with playlist items and an empty VideoDetail table the answer is `False` |
| `Backlog.VideoDetailExceptGuarded` | src/utils/storage.py:178-189 | corrected resolver: `False` iff a read failed, otherwise the playlist videos without details, even when VideoDetail is empty |
| `Filters.ExceptSpecificCategoryVideoId` | src/utils/storage.py:192-211 | `False` exactly on a storage error; otherwise the distinct videos with a MostPopular row outside the excluded categories (default `[0]`) and a playlist item |
| `Filters.MixedCategoryVideoKept` | src/utils/storage.py:203-206 | a video with one excluded-category row and one allowed row is still kept |
| `Filters.ExcludedOnlyVideoDropped` | src/utils/storage.py:203-206 | a video all of whose rows are in excluded categories is dropped |
| `Filters.ExceptSpecificCategoryExample` | src/utils/storage.py:192-208 | rows (v1,1), (v2,2), (v3,3) with playlist items for v1 and v2: excluding {2} keeps exactly v1; the default keeps v1 and v2 |
| `Filters.SpecificDefaultAudioLanguageVideoId` | src/utils/storage.py:214-234 | `False` exactly on a storage error; otherwise the distinct MostPopular videos with a detail row whose non-NULL audio language contains `language` |
| `Filters.PrefixContains` | src/utils/storage.py:228 | a language code matches every regional variant written after it |
| `Filters.AudioLanguageExample` | src/utils/storage.py:225-229 | "en" keeps a video in "en-US" and drops one in "fr-FR" |
| `CategorySync.FirstFailure` | src/utils/storage.py:32-38 | the least index whose commit fails, or the item count if none fails |
| `CategorySync.Database.SaveVideoCategories` | src/utils/storage.py:10-40 | a non-dict fetch writes nothing and answers `False`; otherwise the rows of the items before the first failed commit are appended in order, fields copied from each item and the region, and the answer is `True` iff no commit failed; other tables are unchanged |
| `CategorySync.SavedCategoriesAreRead` | src/utils/storage.py:22-59 | after a sync the region's category reader answers every stored assignable id, and only ids that were assignable before or are assignable in the new rows |

## Findings

| source | as written | input that shows it | evidently intended | confidence | as-written member | corrected member |
|---|---|---|---|---|---|---|
| src/utils/storage.py:172-173 | `set(playlist_id)-set(channel_list)` runs when one read answered `False` | ChannelList read fails, ChannelPlaylistItem has a row: `set(False)` raises `TypeError` | a failed read counted as no rows, as the `or` guard on line 172 already counts it | medium, not executed | `Backlog.ChannelListExceptRaises` | `Backlog.ChannelListExceptGuarded` |
| src/utils/storage.py:186 | `if video_detail_id and playlist_id` treats an empty VideoDetail table like a failed read | ChannelPlaylistItem has a row, VideoDetail is empty: the answer is `False` though every playlist video is pending | `False` only when a read failed; every playlist video pending when no details exist | medium, not executed | `Backlog.VideoDetailExceptEmptyDetails` | `Backlog.VideoDetailExceptGuarded` |

## Left out

- Creating the Flask app and the `app.app_context()` scopes are framework plumbing. The store is an explicit value or object instead.
- SQLAlchemy sessions, commits and rollbacks are reduced to a per-read `fault` flag and a set of failing commit indices.
- The network call `videos.get_video_category` is replaced by its result, a `Fetched` value.
- The `print` logging of error types is I/O only.
- `LIKE` collation, case sensitivity, and `%` or `_` inside `language` are database-engine behaviour. The match is a plain substring test.
- The order of rows in query answers and in `list(set(...))` is not modelled. Contracts speak of membership and absence of duplicates. The model's functions pick one particular order.
- SQLAlchemy's treatment of an empty `notin_` list is not modelled. The model treats it as excluding nothing.
- NULL category ids or channel countries are not modelled. `models/model.py` is not part of this model, so the column types are chosen here: MostPopular category ids are integers and the other identifiers are strings.
- `str(v)` of non-string values is not modelled. Record values are already strings.
- A `KeyError` from a malformed category item or a missing `items` key is not modelled.
- Concurrent re-syncs that produce duplicate category rows are not modelled.
- The model's corrected resolvers are not used by any other member. No caller of the resolvers is part of this model.
