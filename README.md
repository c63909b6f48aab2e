# Locale resolution and persistence of the ryuuRyuusei bot, in Dafny

This project models the i18n module of the ryuuRyuusei Discord bot. The module exists in two
near-identical copies, `ryuuryuusei/modules/i18n.py` and `modules/i18n.py`. Both are modelled by
one core. A `Copy` value (`Ryuuryuusei` or `Modules`) selects the behaviour where the copies
differ.

The module does five things:

- it checks a language code against the language index (`check_lang_exist`);
- it fuzzy-searches the index by name, native name and dialect (`search_language`);
- it cuts the index into pages of 15 entries, each with a flag (`paginate_language`);
- it resolves the language of an interaction: the user's row, else the server's row, else `LANGUAGE_CODE` (`read_user_language`);
- it stores a user or server preference in a tab-separated table (`set_default_language`).

It also loads a language file, falling back to the default code (`fetch_language_data`).

The files are modelled as values:

- the language index is a `seq<LanguageEntry>`;
- the language directory is a map from code to document;
- each preference table is `Missing` or `Present(keyColumn, rows)`.

Lookups select rows by column NAME, as pandas does. `set_default_language` changes the two
tables in place, so it is modelled as methods of a `Database` class. The class has one field
per table file. The rest is pure functions and lemmas.

Modules:

- `Wrappers`: Option and Result.
- `Catalog`: the index, code validation, language-file loading.
- `Search`: the fuzzy search.
- `Browse`: flags and pagination.
- `Preferences`: tables, lookup, upsert.
- `Resolver`: `read_user_language` in both copies.
- `Store`: the `Database` class and `set_default_language`.

Behaviour of the code that the model keeps, including where it departs from the design
description of the subsystem:

- A new key is put in FRONT of the table (`dfa.append(dataframe)`), not appended.
- An existing key has `language` overwritten on EVERY matching row.
- Any failure inside the `try` makes the handler rewrite the table as its header plus one
  row. This includes a missing file and a header without the key column. All other rows are lost.
- The server table is written with header `serverId` but read by column `discordId`. The
  resulting `KeyError` is swallowed, so a server preference written by the bot is never
  read back (`Resolver.ServerTableNeverRead`, and the finding below).
- The user-table read in `read_user_language` is outside the `try`. A missing
  `member.csv`, or one without a `discordId` column, raises instead of falling back to the default.
- Guild scope with no guild:
  - the `Ryuuryuusei` copy sends "only in a server" and writes nothing, before it validates the code;
  - the `Modules` copy validates first. It then fails on `ctx.guild.id` inside the `try`,
    and fails again inside the handler, after opening `server.csv` for writing and writing
    the header. The table is left as a bare header and the exception escapes.
- When reading, the two copies handle a missing guild differently: one returns early, the other
  swallows an `AttributeError`. `Resolver.CopiesAgree` proves they always return the same result.
- Guild-scope writes do not raise a "no group" error. The `Ryuuryuusei` copy replies and
  returns; the `Modules` copy crashes after truncating the table.
- `fetch_language_data` falls back by calling itself with the default code and WITHOUT
  `use_raw`. The fallback therefore returns the whole default document even when only the
  strings were asked for.
- `paginate_language` takes `code.split("_")[1]`. A code without `_` raises `IndexError`
  and aborts the whole command.

## Model

| member | source | states |
|---|---|---|
| `Catalog.LangExists` | ryuuryuusei/modules/i18n.py:139-154 | true exactly when some index entry's code equals the given code, case-sensitively |
| `Catalog.FetchLanguageData` | modules/i18n.py:22-40 | the load fails exactly when the file exists, the strings were asked for and the file has no `strings` member (the escaping `KeyError`); a missing file never fails while the default file exists |
| `Catalog.FetchPresent` | ryuuryuusei/modules/i18n.py:33-38 | an existing file gives the whole document when `use_raw` is set, its `strings` member otherwise, and raises `KeyError` when asked for strings it lacks |
| `Catalog.FetchMissingFallsBack` | ryuuryuusei/modules/i18n.py:39-40 | a missing file gives the whole default-language document, whatever `use_raw` was |
| `Search.Max3` | ryuuryuusei/modules/i18n.py:133 | the result is one of the three scores and at least each of them |
| `Search.BestRatio` | ryuuryuusei/modules/i18n.py:130-133 | the best score is at least each of the name, native and dialect scores and equals one of them |
| `Search.SearchLanguage` | ryuuryuusei/modules/i18n.py:116-136 | the loop returns the order-preserving filter of the index; an entry is in the result iff it is in the index and its best score is at least 70 |
| `Search.Filtered` | ryuuryuusei/modules/i18n.py:129-135 | every kept entry is an entry of the index that reaches the threshold |
| `Search.FilteredMembership` | ryuuryuusei/modules/i18n.py:129-135 | every result scores at least 70 on name, native name or dialect; every entry of the index that does is a result |
| `Search.FilteredAppend` | modules/i18n.py:125-132 | filtering the concatenation of two index parts gives the two filtered parts in order, so results keep index order |
| `Search.SingleEntry` | modules/i18n.py:129-131 | one entry is kept exactly when its best score reaches the threshold |
| `Search.FilteredLength` | ryuuryuusei/modules/i18n.py:128-136 | the result is never longer than the index |
| `Browse.Region` | ryuuryuusei/modules/i18n.py:91 | `split("_")[1]` is absent exactly when the code has no `_`, and never contains `_` |
| `Browse.Lower` | ryuuryuusei/modules/i18n.py:91 | same length; every upper-case ASCII letter is lowered, every other character is kept, and no upper-case ASCII letter remains |
| `Browse.Flag` | ryuuryuusei/modules/i18n.py:91-96 | a flag exists exactly when the code contains `_`; it has the region's length and no upper-case ASCII letter |
| `Browse.RegionSplits` | modules/i18n.py:89 | the region is the text right after the first `_` and runs up to the next `_` or the end |
| `Browse.FlagNeedsRegion` | ryuuryuusei/modules/i18n.py:91 | a code has a flag exactly when it contains `_` |
| `Browse.FlagSpIsRs` | ryuuryuusei/modules/i18n.py:92-94 | a region that lowers to `sp` gets the flag `rs` |
| `Browse.FlagOtherwiseLowered` | ryuuryuusei/modules/i18n.py:95-96 | any other region gets its lower-cased self as flag |
| `Browse.FlagShape` | modules/i18n.py:89-92 | a flag holds no upper-case ASCII letter and no `_` |
| `Browse.Chunks` | ryuuryuusei/modules/i18n.py:88-90 | every chunk `langs[i:i+15]` holds only entries of the index |
| `Browse.ChunksCover` | ryuuryuusei/modules/i18n.py:88-90 | the concatenated chunks are exactly the index |
| `Browse.ChunkSizes` | modules/i18n.py:86-88 | ceil(n/15) chunks, each holding 1 to 15 entries, all but the last exactly 15 |
| `Browse.PaginateLanguage` | ryuuryuusei/modules/i18n.py:77-111 | the nested loops fail iff some code has no `_`, naming such a code; otherwise they give one page of fields per chunk of 15 |
| `Browse.PagesCoverIndex` | modules/i18n.py:86-107 | read page after page, the fields are those of the whole index in index order |
| `Preferences.FirstLanguage` | ryuuryuusei/modules/i18n.py:56-60 | absent iff no row has the key; otherwise the language of the first row with the key |
| `Preferences.FirstLanguageAt` | ryuuryuusei/modules/i18n.py:59-60 | the first matching row decides, whatever rows follow it |
| `Preferences.Lookup` | ryuuryuusei/modules/i18n.py:65-69 | fails iff the file is missing or its header lacks the selected column; otherwise gives the first matching row's language |
| `Preferences.KeyCount` | ryuuryuusei/modules/i18n.py:179 | the count is zero exactly when the key's `query` is empty, and never exceeds the row count |
| `Preferences.Relabel` | ryuuryuusei/modules/i18n.py:188 | the masked assignment keeps the row count and every key, gives every matching row the new code and leaves every other row as it was |
| `Preferences.Recreated` | ryuuryuusei/modules/i18n.py:191-196 | the handler's table has the scope's header and one row, and the key reads back as the code |
| `Preferences.Upsert` | ryuuryuusei/modules/i18n.py:177-196 | after any upsert the table exists, has the scope's key header and at least one row |
| `Preferences.UpsertNewKey` | ryuuryuusei/modules/i18n.py:211-215 | a new key gives one more row, in front, with the old rows after it in order |
| `Preferences.UpsertExistingKey` | ryuuryuusei/modules/i18n.py:216-220 | an existing key keeps the row count and every key; only matching rows get the new language |
| `Preferences.UpsertRecreates` | ryuuryuusei/modules/i18n.py:222-227 | a missing table, or one without the key column, becomes exactly the header plus one row `(id, code)` |
| `Preferences.UpsertReadBack` | ryuuryuusei/modules/i18n.py:203-227 | reading the key just written, by the column it was written under, gives the new code |
| `Preferences.UpsertKeepsOthers` | ryuuryuusei/modules/i18n.py:179-189 | in a well-formed table, every other key reads as before |
| `Preferences.UpsertIdempotent` | modules/i18n.py:201-210 | setting the same code twice equals setting it once, so no duplicate row appears |
| `Preferences.UpsertKeyCount` | modules/i18n.py:201-210 | an absent key has exactly one row afterwards; a present key keeps its number of rows |
| `Preferences.UpsertKeepsValid` | ryuuryuusei/modules/i18n.py:172-189 | since the code is validated before the write, a table whose languages are all index codes still has only index codes afterwards |
| `Resolver.UserRowWins` | ryuuryuusei/modules/i18n.py:53-60 | with a user row, its first row's language is returned whatever the server table holds |
| `Resolver.GuildRow` | modules/i18n.py:62-67 | the copy-specific `try` body: no guild in the Ryuuryuusei copy reads nothing; a language is read only from a present table with the selected column, inside a guild, and is then its first row for the guild |
| `Resolver.GuildOrDefault` | ryuuryuusei/modules/i18n.py:62-74 | the result is the default or the guild's first row from a table readable by the selected column; when such a row exists it is the result |
| `Resolver.ReadUserLanguage` | ryuuryuusei/modules/i18n.py:43-74 | fails exactly when the user table is missing or lacks `discordId`; with a user row, the first one's language; otherwise the default or the guild's first row in a server table readable by `discordId` |
| `Resolver.ReadUserLanguageFixed` | modules/i18n.py:43-72 | the same read with the server table selected by `serverId`: the same failure condition and user-row rule, otherwise the default or the guild's first row in a `serverId` table |
| `Resolver.MemberTableUnreadable` | modules/i18n.py:53-56 | a missing user table raises `FileNotFound`, and one without `discordId` raises `KeyError` |
| `Resolver.NoGuildGivesDefault` | ryuuryuusei/modules/i18n.py:62-64 | with no user row and no guild, both copies give the default code |
| `Resolver.GuildRowOrDefault` | ryuuryuusei/modules/i18n.py:65-74 | with no user row in a guild: the guild's first row if the server table is readable by `discordId` and has one, else the default |
| `Resolver.CopiesAgree` | modules/i18n.py:62-72 | the two copies of `read_user_language` give the same result from every state and context |
| `Resolver.ServerTableNeverRead` | ryuuryuusei/modules/i18n.py:65-67 | a server table with the written header `serverId` (or none) never changes the answer: with no user row it is the default |
| `Resolver.GuildSettingLost` | modules/i18n.py:63-67 | after a guild saves any code, a member with no row still gets the default |
| `Resolver.GuildSettingLostExample` | ryuuryuusei/modules/i18n.py:67 | guild 7 saving `fr_FR` leaves user 42 of that guild on the default `en_US` |
| `Resolver.GuildRoundTripFixed` | ryuuryuusei/modules/i18n.py:195 | reading by `serverId`, a guild's saved code is what members without a row get |
| `Resolver.UserRoundTrip` | ryuuryuusei/modules/i18n.py:197-227 | after a user saves a code, resolving for that user gives that code, in any guild and from any prior table |
| `Resolver.UserOverridesGuildExample` | modules/i18n.py:53-60 | user 42 with `fr_FR` in guild 7 with `de_DE` resolves to `fr_FR` |
| `Store.AssignLanguageWhere` | ryuuryuusei/modules/i18n.py:218-219 | the frame is overwritten in place with every matching row relabelled |
| `Store.WriteUpsert` | ryuuryuusei/modules/i18n.py:177-196 | the written table is the upsert of the old one, and the new key reads back as the code |
| `Store.Database.Resolve` | ryuuryuusei/modules/i18n.py:43-60 | resolution from the current tables fails exactly when the user table is unreadable, and a user row decides it |
| `Store.Database.SetUserLanguage` | ryuuryuusei/modules/i18n.py:197-227 | an invalid code raises before any write; otherwise the user table is upserted, the server table is untouched, and every resolution for the author gives the code; stored languages stay index codes |
| `Store.Database.SetGuildLanguage` | modules/i18n.py:164-187 | the behaviour with no guild depends on the copy; an invalid code raises before any write; otherwise the server table is upserted under `serverId` and the user table is untouched; stored languages stay index codes |

## Findings

| source | as written | input that shows it | evidently intended | confidence | as-written member | corrected member |
|---|---|---|---|---|---|---|
| ryuuryuusei/modules/i18n.py:67 | the server table is selected by column `discordId`, but `set_default_language` writes it with header `serverId`; the `KeyError` is swallowed | guild 7 saves `fr_FR`; user 42, with no row, in guild 7 resolves to `en_US` | select by `serverId`, so the guild's code is returned | high (not executed) | `Resolver.GuildSettingLostExample` | `Resolver.GuildRoundTripFixed` |

`Resolver.ReadUserLanguage` models the code as written, and `Store.Database.Resolve` uses it.
`Resolver.ReadUserLanguageFixed` is the corrected read; `Resolver.GuildRoundTripFixed` proves
the guild round trip for it. The same line is at `modules/i18n.py:65`.

## Left out

- File I/O: JSON parsing, CSV parsing and writing, tab delimiters, encodings. The files are values; `LANGUAGE_CODE` is a parameter because `modules.commons`, which defines it, is not part of this model.
- `fuzz.token_set_ratio` is a parameter of type `(string, string) -> Ratio`, with `Ratio` restricted to 0..100. Its numerics are not modelled.
- Presentation and delivery: `Embed`/`EmbedField` formatting, title, description, colour, `Paginator` (timeout 60), `ctx.send` and async. Pages are sequences of `(flag, code, name, native)` fields.
- Concurrent writers and the lost-update race on the table files. The model is sequential.
- `Catalog.FetchLanguageData`: requires the default language file to exist. Without it the source recurses without bound.
- `Browse.Lower`: lowers ASCII letters only, where Python's `str.lower` also lowers other Unicode letters.
- Table shapes the bot never writes: a second column other than `language`, empty or malformed files, non-integer ids. Ids are integers; the write path's `str(id)` and the read path's integer comparison agree on them.
- `DataFrame.append` is taken to exist, as in pandas 1.x. Under pandas 2 it raises, and every new-key write would take the handler path.
- Exception message texts. The messages are reduced to outcome values.
- `modules/const.py`, `extensions/random.py` and `extensions/events.py`: constants, command registration and event plumbing, with no locale logic.
