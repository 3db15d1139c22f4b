# Billboard Hot 100 to Spotify playlist: a Dafny model of the scraping and lookup passes

The program asks for a date, scrapes the Billboard Hot 100 page for that week, looks up every
song on Spotify and fills a new private playlist with the tracks it found. This project models
the two list-processing passes at its core, separated from their I/O:

- **the chart-row filter** (`Top100Song.get_top_100_songs`, top100.py): every `li` chart row
  is reduced to the text of its `span` (the artist column) and of its `h3` (the title), each
  possibly absent. The pass cleans the artist (newlines and tabs removed) and the title (all
  whitespace removed), drops rank and rank-change cells (numeric artists, `"-"`, `"NEW"`,
  `"RE-ENTRY"`) and builds the list of `{"artist", "song"}` dictionaries in chart order. The
  variable `artist` lives across iterations, and the song branch re-tests `artist` instead of
  the song. So a row without a `span` is judged by the previous row's artist. Such a row can
  raise `UnboundLocalError` (no earlier artist) or `TypeError` (an assignment into `None`).
  Both are modelled as error results (`UnboundArtist`, `AssignIntoNone`).
- **the page URL and the year** (`_define_url` and the year in `__init__`, top100.py).
- **the URI lookup** (`get_song_uris`, main.py): each entry is searched with its song, artist
  and the chart year. The first candidate's URI is kept. An entry without candidates is
  skipped (the caught `IndexError`). An entry without a `"song"` key ends the call with
  `KeyError`.

Modules:

- `Wrappers` (wrappers.dfy): `Option` and `Result`.
- `Seqs` (seqs.dfy): `FilterMap`, "keep the present results of a per-element function, in
  order". Both passes have this shape once their exceptions are set aside. It comes with its
  order, length and membership lemmas.
- `Top100` (top100.dfy): the row filter as the method `GetTopSongs`. It has a `for` loop that
  carries `artist` (`None` while the Python name is unbound) and builds each record in two
  steps, artist then song, as the source does. The record is a value: the source never touches
  a dictionary again once it is appended, since it rebinds the name on every row. It is proved
  equal to the specification `TopSongs`, a left fold of `Step` (one loop iteration) over the
  rows. `TopSongs` is in turn characterised against `Expected`, where
  each row contributes only its own artist and song, and against `Crashes`, which says when
  a row raises. The module also holds `DefineUrl` and `Year`.
- `SongUris` (song_uris.dfy): the lookup as the method `GetSongUris`, proved equal to the
  specification `UrisOf`. `UrisOf` is characterised as `FilterMap` of "first candidate" over
  the queries sent. The Spotify search is a parameter `search: Query -> seq<string>` that
  maps a query to the URIs of the tracks returned, in Spotify's order. The method also
  returns `sent`, the searches it issued in order. That log is how the model states that the
  search runs once per entry, in input order, and stops at the failing entry.

A reader might expect a row missing either field to be skipped without error. The code does
otherwise: a row without `span` but with `h3` can end the run, and a row with a kept
artist but no `h3` yields an entry without `"song"`, which later makes `get_song_uris` raise
`KeyError`. The model follows the code. `SonglessRowFailsLookup` states the cross-pass
consequence.

## Model

| member | source | states |
|---|---|---|
| `Top100.RemoveAll` | top100.py:50 | no character of the removed class is left in the result, and the result is never longer than the input |
| `Top100.RemoveAllCounts` | top100.py:50 | every character outside the removed class occurs in the result exactly as often as in the input; every character inside it occurs zero times |
| `Top100.RemoveAllAppend` | top100.py:39 | removing characters distributes over concatenation, so the surviving characters keep their relative order |
| `Top100.RemoveAllKeepsClean` | top100.py:39 | a text with none of the removed characters is returned unchanged |
| `Top100.StripArtist` | top100.py:39 | the cleaned artist contains no newline and no tab |
| `Top100.StripArtistKeeps` | top100.py:39 | the artist clean-up keeps every other character, spaces included, as often as it occurs |
| `Top100.StripSong` | top100.py:50 | the cleaned song contains no whitespace character at all, including the spaces between words |
| `Top100.StripSongKeeps` | top100.py:50 | the song clean-up keeps every non-whitespace character as often as it occurs |
| `Top100.Step` | top100.py:36-59 | one iteration raises exactly when the row has an `h3`, has no `span`, and the carried artist is unbound (`UnboundArtist`) or kept (`AssignIntoNone`); otherwise it appends exactly the row's own entry (`RowEntry`, independent of the carried artist) and carries the row's cleaned artist, or the old one when there is no `span` |
| `Top100.GetTopSongs` | top100.py:28-61 | the loop with the carried `artist`, building each record artist first and song second, returns exactly `TopSongs(rows)`, exceptions included |
| `Top100.ScanRowsErrSticks` | top100.py:51-54 | once a row has raised, the whole call raises that same exception |
| `Top100.NoCrashSnoc` | top100.py:35-54 | adding a row keeps the run free of exceptions exactly when the new row does not raise, given the rows before it |
| `Top100.ScanRowsOk` | top100.py:33-59 | the loop completes exactly when no row crashes; then the carried artist is the last `span` artist and the list is every row's own contribution in order |
| `Top100.ScanRowsErr` | top100.py:38-54 | when the loop raises, there is a crashing row preceded only by crash-free rows, and the exception matches that row's leftover artist (unbound or kept) |
| `Top100.TopSongsCharacterised` | top100.py:28-61 | `get_top_100_songs` succeeds exactly when no row crashes, then returns `Expected(rows)`; otherwise it raises the exception of the first crashing row |
| `Top100.RowContribution` | top100.py:36-59 | a row contributes an entry exactly when its `span` is present and its cleaned artist is neither numeric nor a placeholder; that entry sits between the entries of the earlier and of the later rows (order kept) |
| `Top100.ExpectedLength` | top100.py:58-59 | at most one entry per row, so the list is never longer than the row list |
| `Top100.EmittedEntryShape` | top100.py:38-54 | every emitted artist is kept by the filter and holds no newline or tab; every emitted song holds no whitespace |
| `Top100.SongNotValidated` | top100.py:48-56 | next to a kept artist, the title `"-"` is emitted as the song, and a row without `h3` yields an entry with no song |
| `Top100.FirstRowWithoutSpan` | top100.py:38-51 | a first row with an `h3` but no `span` makes the whole call raise the unbound-variable error |
| `Top100.DefineUrl` | top100.py:68-70 | the page URL is the chart URL, then `/`, then the timeframe verbatim |
| `Top100.FormatDecimal` | top100.py:25 | `%Y` writes the year as decimal digits without a leading zero that read back as the same number |
| `Top100.FormatDecimalValue` | top100.py:25 | writing out the value of a digit run without a leading zero gives back the same digits |
| `Top100.Year` | top100.py:25 | for a `YYYY-MM-DD` calendar date with a year of at least 1000, parsing with `%Y-%m-%d` and formatting with `%Y` gives the first four characters of the timeframe |
| `Seqs.FilterMapAppend` | main.py:14-22 | the results for consecutive stretches of input are concatenated, so both passes keep input order |
| `Seqs.FilterMapLength` | main.py:15-21 | at most one result per element, and one for every element exactly when none is skipped |
| `Seqs.FilterMapMember` | main.py:18-19 | a value is in the result exactly when some element yields it |
| `SongUris.FirstMissing` | main.py:15-16 | the stopping point is the first entry without a song (every entry before it has one), or the end of the list |
| `SongUris.GetSongUris` | main.py:12-22 | the loop returns exactly `UrisOf(entries, search, year)`; the searches it issues are one per entry, with that entry's song, artist and the run's year, in input order, up to the first entry without a song |
| `SongUris.UrisOfCharacterised` | main.py:14-22 | the call raises `KeyError` exactly when some entry has no song; otherwise it returns the first candidate of each query, in entry order, leaving out the queries with no candidate |
| `SongUris.FirstMissingPrefix` | main.py:15-16 | cutting the entry list short moves the stopping point to the cut at the latest |
| `SongUris.AllSongsSucceed` | main.py:15-21 | when every entry has a song, the call succeeds with the filter-map of the first candidates |
| `SongUris.QueriesSlice` | main.py:16 | the queries for a stretch of entries are that stretch of the queries |
| `SongUris.UriCount` | main.py:15-21 | never more URIs than entries, and exactly as many exactly when every search returned a candidate |
| `SongUris.UriMember` | main.py:18-19 | every returned URI is the first candidate of some entry's search, and every such first candidate is returned |
| `SongUris.EmptySearchSkipped` | main.py:17-21 | an entry whose search returns nothing is skipped rather than replaced, and the loop goes on: the URIs are those of the earlier entries followed by those of the later ones |
| `SongUris.SonglessRowFailsLookup` | main.py:16 | over the scraped entries, the lookup raises `KeyError` exactly when some row had a kept artist but no `h3` |

## Left out

- spotify.py as a whole is not part of this model: the OAuth login, `current_user`, playlist
  creation and track addition are calls into the spotipy SDK and the network. The search is
  reduced to the parameter `search`. Its query string and the playlist name are plain string
  formatting.
- Fetching the page and parsing it with BeautifulSoup (`_create_html_soup`, `find_all`) are
  left out. The rows are an input, and `data.span` / `data.h3` are the text of the first such
  node, or absent.
- The interactive `input()` prompt (`_get_user_input`) is left out. The timeframe is a
  parameter.
- Module-level side effects in main.py are left out: `load_dotenv`, constructing the two
  objects (which prompts and logs in), the `__main__` pipeline and `open_playlist_link`
  (browser launch).
- `Top100Song` keeps only values fixed at construction. It is modelled as the constants
  `UnallowedValues` and `ChartUrl` plus a timeframe parameter, not as a class.
- `Top100.IsNumeric`: `str.isnumeric` is approximated by "non-empty and all ASCII digits".
  Other Unicode numeric characters (superscripts, fractions, other scripts' digits) are not
  treated as numeric.
- `Top100.IsWhitespace` lists the characters Python's `\s` matches in a str pattern.
  No other Unicode semantics of `re` is modelled.
- `Top100.Year` requires a well-formed `YYYY-MM-DD` date with a year of at least 1000.
  The `ValueError` that `strptime` raises on other input is not modelled, and neither are the
  looser forms it also accepts (one-digit month or day). `%Y` output for years below 1000
  depends on the platform and is left out.
- `SongUris.GetSongUris`: the search response is reduced to its list of item URIs. A
  malformed response (missing `tracks`, `items` or `uri`, which would raise `KeyError`) and
  transport failures are not modelled. Only the `IndexError` of an empty result and the
  `KeyError` of a missing `"song"` are modelled.
