# bevy_easy_localize: the `Localize` translation store in Dafny

This project models the translation store of `bevy_easy_localize` (`src/lib.rs`).
A `Localize` resource holds five pieces of state:

- a pending language name,
- the index of the active language,
- a map from language name to language index,
- a map from keyword to that keyword's translations,
- an optional handle of the asset the table comes from.

The table is a CSV file. Its header row names the languages from column 2 on.
Every data row holds a keyword in column 0, a note in column 1 and one translation per language from column 2 on.

The model has three modules.

- `Table` (`table.dfy`) is pure. `LanguagesOf` and `WordsOf` give the maps that `set_data` builds with its overwriting inserts. Lemmas characterise both maps: their key sets, and "the last occurrence wins".
- `Localization` (`localize.dfy`) is imperative.
  - The class `Localize` has the source's fields, with its constructors `Empty` and `FromData` and its methods `SetData`, `SetHandle`, `SetLanguage` and `Get`.
  - `SetData` builds the maps with two `for` loops, as the source does.
  - `InitLocalizeResource` is the per-frame system. It loops over the frame's asset events, reloads on matching ones, and then retries a pending language name.
- `LocalizeProperties` (`properties.dfy`) holds lemmas and client methods that run several operations on a store. They prove what `get` returns after a load, how a deferred language is applied, and how a pending name outlives a later `set_language`.

Three behaviours of the code that a caller may not expect:

- `set_language` with a known name does not clear an earlier pending name (src/lib.rs:115-117). Only the frame system clears it (src/lib.rs:155). So a stale pending name can override a later, successful choice once a reloaded table learns it (`StalePendingWins`).
- A pending name is resolved only by the frame system, after the event loop. `set_data` itself never resolves it.
- A table that cannot be parsed makes `set_data` panic on every path, the asset path included. The model states this as a precondition. It has no recoverable-error path.

## Model

| member | source | states |
|---|---|---|
| `Table.LanguagesOf` | src/lib.rs:80-82 | the map built by inserting `names[i] -> i` for i = 0, 1, ... in turn, later inserts overwriting earlier ones |
| `Table.WordsOf` | src/lib.rs:83-87 | the map built by inserting `row[0] -> row[2..]` for every data row in turn, later inserts overwriting earlier ones |
| `Localization.AssetEvent.Reloads` | src/lib.rs:142-143 | an event reloads the table exactly when it is `Created` or `Modified` and names the stored handle |
| `Table.LanguagesOfSpec` | src/lib.rs:80-82 | the language map holds exactly the header's language names; each is mapped to the position (from column 2) of its last occurrence |
| `Table.LanguageIndex` | src/lib.rs:80-82 | the header cell at column 2 + i maps to i, unless a later column repeats the name |
| `Table.WordsOfSpec` | src/lib.rs:83-87 | the word map holds exactly the data rows' keywords; each is mapped to columns 2.. of the last row carrying it |
| `Table.RowTranslations` | src/lib.rs:83-87 | the keyword of a row that no later row repeats maps to that row's columns 2.. in order |
| `Table.MissingKeyword` | src/lib.rs:83-87 | a keyword that no data row carries is absent from the word map |
| `Localization.Localize.Empty` | src/lib.rs:54-62 | a new store has index 0, no pending name, empty maps and no handle |
| `Localization.Localize.FromData` | src/lib.rs:65-69 | `from_data` is `empty` followed by `set_data`: index 0, nothing pending, no handle, the records' table |
| `Localization.Localize.SetData` | src/lib.rs:71-91 | replaces both maps wholesale with those built from the records; pending name, index and handle are unchanged |
| `Localization.Localize.SetHandle` | src/lib.rs:93-95 | stores the handle and changes nothing else |
| `Localization.Localize.Get` | src/lib.rs:100-112 | total lookup: the keyword's cell at the active index when the keyword is known and the row is long enough, "" otherwise |
| `Localization.Localize.SetLanguage` | src/lib.rs:114-121 | a known name sets the index to its column and keeps the pending name; an unknown name becomes pending and the index stays |
| `Localization.InitLocalizeResource` | src/lib.rs:133-159 | with a handle, the table becomes the asset's table iff some `Created`/`Modified` event names that handle, otherwise it is unchanged; the handle is unchanged; then a pending name the table knows becomes the index and is cleared, an unknown one stays pending with the index unchanged; a missing resource is left alone |
| `LocalizeProperties.GetAfterLoad` | src/lib.rs:71-112 | after a load, `get` of a keyword gives its last row's cell in column 2 + active index, or "" for a short row |
| `LocalizeProperties.GetMissingKeyword` | src/lib.rs:83-112 | after a load, a keyword no row carries reads "" whatever the active language |
| `LocalizeProperties.DeferredSelection` | src/lib.rs:114-159 | a language asked for before the asset loads is pending; the frame that sees the asset created selects its last column and clears the pending name |
| `LocalizeProperties.StalePendingWins` | src/lib.rs:114-157 | a known `set_language` takes effect but keeps an older pending name, which the next frame applies once a reload learns it |
| `LocalizeProperties.UnrelatedEventsKeepTable` | src/lib.rs:139-157 | events for other handles and `Removed` events leave both maps (languages and words), the index and an unresolvable pending name as they were |
| `LocalizeProperties.Greeting` | src/lib.rs:65-121 | on the table `kw,note,English,German` / `hello,,Hi,Hallo`, "hello" reads "Hi", then "Hallo" after selecting German; an unknown keyword reads "" |

## Left out

- CSV tokenisation (`get_records`, src/lib.rs:122-130) is delegated to the `csv` crate, which is not part of this model. `set_data` and the asset store take already-tokenised records (`seq<seq<string>>`). The crate's quoting and row-length rules are not modelled, so the model accepts rows of any length of at least two cells, ragged rows included.
- The panics of `set_data` are preconditions, not modelled behaviour. These are a tokenisation error, a header with fewer than two cells, and a data row with fewer than two cells. The same goes for the `unwrap` on a missing asset in the frame system (src/lib.rs:144).
- The asset loader (`TranslationsAssetLoader`, src/lib.rs:165-183) is left out. It loads asynchronously and decodes UTF-8, and a decoding failure panics. Assets appear in the model as a map from handle id to records.
- Plugin registration and the engine's resource and event plumbing (src/lib.rs:13-21, 133-137) are left out. The optional resource is a nullable `Localize?`. The frame's events are a plain sequence of `Created`, `Modified` and `Removed` events, each carrying a handle id.
- Hash-map hashing and iteration order are not modelled; both maps are Dafny `map`s. Strings are `seq<char>`, with no UTF-8 encoding.
- The text-binding component (`LocalizeText`) and the constructors `from_asset_path` and `with_default_language` are used by the example programs but are not defined in src/lib.rs. They are not part of this model. Neither are the example programs.
- Determinism of parsing holds by construction: `LanguagesOf` and `WordsOf` are functions.
- A CSV parse failure of an asset that did decode has no counterpart: `set_data` panics on it (src/lib.rs:77, reached from src/lib.rs:145), so the model makes well-formed records a precondition of the frame system. An asset whose UTF-8 decoding fails is covered: the loader panics before any asset is stored (src/lib.rs:174), no `Created`/`Modified` event arrives, and the model then keeps both maps unchanged.
