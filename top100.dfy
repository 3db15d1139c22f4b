/**
 * The chart scraper (top100.py): the pass that turns the scraped chart rows
 * into artist/song entries, the page URL, and the year derived from the
 * user's timeframe.
 *
 * A scraped `li` row is abstracted to the text of its first `span` (the
 * artist column) and of its first `h3` (the song title), each absent when
 * the row has no such node. The entries the pass builds are dictionaries
 * with an "artist" key and, sometimes, a "song" key; an Entry keeps the
 * song as an Option for that reason.
 */
module Top100 {
  import opened Wrappers
  import opened Seqs

  // ---------------------------------------------------------------------
  // Configuration fixed by Top100Song.__init__
  // ---------------------------------------------------------------------

  /** Artist-column texts that mark a rank-change cell rather than an artist. */
  const UnallowedValues: seq<string> := ["-", "NEW", "RE-ENTRY"]

  /** The chart page that the timeframe is appended to. */
  const ChartUrl: string := "https://www.billboard.com/charts/hot-100"

  // ---------------------------------------------------------------------
  // Text clean-up (the two re.sub calls) and the artist test
  // ---------------------------------------------------------------------

  /** The characters the artist clean-up `[\n\t]*` removes. */
  predicate IsArtistNoise(c: char) {
    c == '\n' || c == '\t'
  }

  /** The characters Python's `\s` matches in a str pattern (those for which `str.isspace` holds). */
  predicate IsWhitespace(c: char) {
    || '\t' <= c <= '\r'
    || '\U{1C}' <= c <= ' '
    || c == '\U{85}' || c == '\U{A0}' || c == '\U{1680}'
    || '\U{2000}' <= c <= '\U{200A}'
    || c == '\U{2028}' || c == '\U{2029}' || c == '\U{202F}' || c == '\U{205F}' || c == '\U{3000}'
  }

  /** `re.sub(pattern, "", s)` for a pattern that is a starred character class:
      every character of the class is deleted, the others stay in order. */
  function RemoveAll(s: string, drop: char -> bool): (r: string)
    ensures |r| <= |s|
    ensures forall i :: 0 <= i < |r| ==> !drop(r[i])
  {
    if s == [] then []
    else (if drop(s[0]) then [] else [s[0]]) + RemoveAll(s[1..], drop)
  }

  /** Every character outside the class is kept as often as it occurs; every one inside is gone. */
  lemma {:induction false} RemoveAllCounts(s: string, drop: char -> bool, c: char)
    ensures multiset(RemoveAll(s, drop))[c] == if drop(c) then 0 else multiset(s)[c]
  {
    if s != [] {
      assert s == [s[0]] + s[1..];
      RemoveAllCounts(s[1..], drop, c);
    }
  }

  /** Removing distributes over concatenation, so the kept characters keep their order. */
  lemma {:induction false} RemoveAllAppend(a: string, b: string, drop: char -> bool)
    ensures RemoveAll(a + b, drop) == RemoveAll(a, drop) + RemoveAll(b, drop)
  {
    if a != [] {
      assert (a + b)[0] == a[0];
      assert (a + b)[1..] == a[1..] + b;
      RemoveAllAppend(a[1..], b, drop);
    } else {
      assert a + b == b;
    }
  }

  /** A text holding none of the removed characters comes back unchanged. */
  lemma {:induction false} RemoveAllKeepsClean(s: string, drop: char -> bool)
    requires forall i :: 0 <= i < |s| ==> !drop(s[i])
    ensures RemoveAll(s, drop) == s
  {
    if s != [] {
      RemoveAllKeepsClean(s[1..], drop);
    }
  }

  /** The artist text after `re.sub(r"[\n\t]*", "", artist)` (top100.py:39). */
  function StripArtist(text: string): (r: string)
    ensures forall i :: 0 <= i < |r| ==> r[i] != '\n' && r[i] != '\t'
  {
    RemoveAll(text, IsArtistNoise)
  }

  /** The artist clean-up keeps every other character, spaces included, as often as it occurs. */
  lemma StripArtistKeeps(text: string, c: char)
    requires c != '\n' && c != '\t'
    ensures multiset(StripArtist(text))[c] == multiset(text)[c]
  {
    RemoveAllCounts(text, IsArtistNoise, c);
  }

  /** The song text after `re.sub(r"[\n\t\s]*", "", song)` (top100.py:50). */
  function StripSong(text: string): (r: string)
    ensures forall i :: 0 <= i < |r| ==> !IsWhitespace(r[i])
  {
    RemoveAll(text, IsWhitespace)
  }

  /** The song clean-up keeps every non-whitespace character as often as it occurs. */
  lemma StripSongKeeps(text: string, c: char)
    requires !IsWhitespace(c)
    ensures multiset(StripSong(text))[c] == multiset(text)[c]
  {
    RemoveAllCounts(text, IsWhitespace, c);
  }

  /** `str.isnumeric`, restricted to the ASCII digits. False on the empty text. */
  predicate IsNumeric(s: string) {
    |s| > 0 && AllDigits(s)
  }

  /** The artist test of top100.py:40 and 51, in its "else" sense: the artist is kept. */
  predicate Allowed(artist: string) {
    !IsNumeric(artist) && artist !in UnallowedValues
  }

  // ---------------------------------------------------------------------
  // Rows, entries and one iteration of the loop
  // ---------------------------------------------------------------------

  /** One `li` chart row: the text of its `span` and of its `h3`, when present. */
  datatype Row = Row(span: Option<string>, h3: Option<string>)

  /** One `artist_and_song` dictionary: the "artist" key is always set, "song" only sometimes. */
  datatype Entry = Entry(artist: string, song: Option<string>)

  /** The exceptions that escape the loop. */
  datatype ScrapeError =
    | UnboundArtist    // `artist` read at line 51 before any row bound it (UnboundLocalError)
    | AssignIntoNone   // `artist_and_song["song"] = …` while `artist_and_song` is None (TypeError)

  /** Which exception a song-bearing row without a `span` raises, given the artist left over. */
  function CrashError(leftover: Option<string>): ScrapeError {
    if leftover.None? then UnboundArtist else AssignIntoNone
  }

  /** What a row contributes judged on its own: its own cleaned artist, when that is
      kept, paired with its own cleaned song, when it has one. */
  function RowEntry(row: Row): Option<Entry> {
    if row.span.Some? && Allowed(StripArtist(row.span.value)) then
      Some(Entry(StripArtist(row.span.value),
                 if row.h3.Some? then Some(StripSong(row.h3.value)) else None))
    else
      None
  }

  /**
   * One iteration of the loop of get_top_100_songs, as the source writes it.
   * `artist` is the variable carried over from earlier rows (None while it is
   * unbound); the result is the artist carried forward and the dictionary the
   * row appends, or the exception the row raises.
   */
  function Step(artist: Option<string>, row: Row): (r: Result<(Option<string>, Option<Entry>), ScrapeError>)
    ensures r.Err? <==> row.span.None? && row.h3.Some? && (artist.None? || Allowed(artist.value))
    ensures r.Err? ==> r.error == CrashError(artist)
    ensures r.Ok? ==> r.value.1 == RowEntry(row)
    ensures r.Ok? ==> r.value.0 == if row.span.Some? then Some(StripArtist(row.span.value)) else artist
  {
    // first try-block: a missing span raises AttributeError, which is swallowed
    var current := if row.span.Some? then Some(StripArtist(row.span.value)) else artist;
    var record := if row.span.Some? && Allowed(current.value) then Some(Entry(current.value, None)) else None;
    // second try-block: the test is on `artist` again, not on the song
    if row.h3.None? then Ok((current, record))
    else if current.None? then Err(UnboundArtist)
    else if !Allowed(current.value) then Ok((current, record))
    else if record.None? then Err(AssignIntoNone)
    else Ok((current, Some(record.value.(song := Some(StripSong(row.h3.value))))))
  }

  /** The loop's state after some rows: the carried artist and the list built so far. */
  datatype Scan = Scan(artist: Option<string>, entries: seq<Entry>)

  /** The loop run over `rows`, one Step per row, stopping at the first exception. */
  function ScanRows(rows: seq<Row>): Result<Scan, ScrapeError>
    decreases |rows|
  {
    if rows == [] then Ok(Scan(None, []))
    else
      match ScanRows(rows[..|rows| - 1])
      case Err(e) => Err(e)
      case Ok(s) =>
        match Step(s.artist, rows[|rows| - 1])
        case Err(e) => Err(e)
        case Ok(next) => Ok(Scan(next.0, s.entries + OptionToSeq(next.1)))
  }

  /** The value get_top_100_songs returns on `rows`, or the exception it raises. */
  function TopSongs(rows: seq<Row>): Result<seq<Entry>, ScrapeError> {
    match ScanRows(rows)
    case Ok(s) => Ok(s.entries)
    case Err(e) => Err(e)
  }

  /** Once the loop has raised, the whole call raises the same exception. */
  lemma {:induction false} ScanRowsErrSticks(rows: seq<Row>, k: nat)
    requires k <= |rows|
    requires ScanRows(rows[..k]).Err?
    ensures ScanRows(rows) == ScanRows(rows[..k])
  {
    if k < |rows| {
      var p := rows[..|rows| - 1];
      assert p[..k] == rows[..k];
      ScanRowsErrSticks(p, k);
    } else {
      assert rows[..k] == rows;
    }
  }

  /**
   * get_top_100_songs (top100.py:28-61) with the page already parsed into rows.
   */
  method GetTopSongs(rows: seq<Row>) returns (r: Result<seq<Entry>, ScrapeError>)
    ensures r == TopSongs(rows)
  {
    var entries: seq<Entry> := [];
    var artist: Option<string> := None;  // None while the name `artist` is unbound
    for i := 0 to |rows|
      invariant ScanRows(rows[..i]) == Ok(Scan(artist, entries))
    {
      assert rows[..i + 1][..i] == rows[..i] && rows[..i + 1][i] == rows[i];
      ghost var carried, before := artist, entries;
      var row := rows[i];
      var record: Option<Entry> := None;
      if row.span.Some? {
        artist := Some(StripArtist(row.span.value));
        if !Allowed(artist.value) {
        } else {
          record := Some(Entry(artist.value, None));
        }
      }
      if row.h3.Some? {
        var song := StripSong(row.h3.value);
        if artist.None? {
          ScanRowsErrSticks(rows, i + 1);
          return Err(UnboundArtist);
        } else if !Allowed(artist.value) {
        } else if record.None? {
          ScanRowsErrSticks(rows, i + 1);
          return Err(AssignIntoNone);
        } else {
          record := Some(record.value.(song := Some(song)));
        }
      }
      assert Step(carried, row) == Ok((artist, record));
      // a dictionary that was created always holds "artist", so it is truthy
      if record.Some? {
        entries := entries + [record.value];
      }
      assert entries == before + OptionToSeq(record);
    }
    assert rows[..|rows|] == rows;
    r := Ok(entries);
  }

  // ---------------------------------------------------------------------
  // What the pass computes, stated without the carried variable
  // ---------------------------------------------------------------------

  /** Every row's own contribution, in row order. */
  function Expected(rows: seq<Row>): seq<Entry> {
    FilterMap(rows, RowEntry)
  }

  /** The cleaned artist of the last row that had a `span`; None if no row had one. */
  function LastArtist(rows: seq<Row>): Option<string>
    decreases |rows|
  {
    if rows == [] then None
    else if rows[|rows| - 1].span.Some? then Some(StripArtist(rows[|rows| - 1].span.value))
    else LastArtist(rows[..|rows| - 1])
  }

  /** A row raises when it has a song but no `span` and the leftover artist is unbound or kept. */
  predicate Crashes(before: seq<Row>, row: Row) {
    row.span.None? && row.h3.Some? && (LastArtist(before).None? || Allowed(LastArtist(before).value))
  }

  /** No row of `rows` crashes, judged against the rows before it. */
  predicate NoCrash(rows: seq<Row>) {
    forall i :: 0 <= i < |rows| ==> !Crashes(rows[..i], rows[i])
  }

  /** Adding a row keeps the run crash-free exactly when that row does not crash. */
  lemma NoCrashSnoc(rows: seq<Row>)
    requires rows != []
    ensures NoCrash(rows) <==> NoCrash(rows[..|rows| - 1]) && !Crashes(rows[..|rows| - 1], rows[|rows| - 1])
  {
    var p := rows[..|rows| - 1];
    assert forall i :: 0 <= i < |p| ==> p[..i] == rows[..i] && p[i] == rows[i];
  }

  /** The loop gets through all rows exactly when no row crashes; it then carries the
      last artist seen and has built every row's own contribution. */
  lemma {:induction false} ScanRowsOk(rows: seq<Row>)
    ensures ScanRows(rows).Ok? <==> NoCrash(rows)
    ensures ScanRows(rows).Ok? ==> ScanRows(rows).value == Scan(LastArtist(rows), Expected(rows))
    decreases |rows|
  {
    if rows != [] {
      var n := |rows| - 1;
      var p := rows[..n];
      ScanRowsOk(p);
      NoCrashSnoc(rows);
      if ScanRows(p).Ok? && !Crashes(p, rows[n]) {
        assert Expected(rows) == Expected(p) + OptionToSeq(RowEntry(rows[n]));
      }
    }
  }

  /** When the loop raises, it is at a row that crashes after crash-free rows, and the
      exception is the one that row's leftover artist calls for. */
  lemma {:induction false} ScanRowsErr(rows: seq<Row>)
    requires ScanRows(rows).Err?
    ensures exists i ::
              && 0 <= i < |rows| && NoCrash(rows[..i]) && Crashes(rows[..i], rows[i])
              && ScanRows(rows).error == CrashError(LastArtist(rows[..i]))
    decreases |rows|
  {
    var n := |rows| - 1;
    var p := rows[..n];
    if ScanRows(p).Err? {
      ScanRowsErr(p);
      var i :| 0 <= i < n && NoCrash(p[..i]) && Crashes(p[..i], p[i])
        && ScanRows(p).error == CrashError(LastArtist(p[..i]));
      assert p[..i] == rows[..i] && p[i] == rows[i];
    } else {
      ScanRowsOk(p);
      assert rows[..n] == p;
    }
  }

  /** get_top_100_songs, summed up: it fails exactly when some row crashes, with the
      exception of the first such row, and otherwise returns every row's own contribution. */
  lemma TopSongsCharacterised(rows: seq<Row>)
    ensures TopSongs(rows).Ok? <==> NoCrash(rows)
    ensures TopSongs(rows).Ok? ==> TopSongs(rows).value == Expected(rows)
    ensures TopSongs(rows).Err? ==>
      exists i ::
        && 0 <= i < |rows| && NoCrash(rows[..i]) && Crashes(rows[..i], rows[i])
        && TopSongs(rows).error == CrashError(LastArtist(rows[..i]))
  {
    ScanRowsOk(rows);
    if ScanRows(rows).Err? {
      ScanRowsErr(rows);
    }
  }

  /** Row i contributes an entry exactly when its `span` is present and its cleaned artist
      is kept; that entry sits between the entries of the rows before and after it. */
  lemma RowContribution(rows: seq<Row>, i: nat)
    requires i < |rows|
    ensures Expected(rows) == Expected(rows[..i]) + (OptionToSeq(RowEntry(rows[i])) + Expected(rows[i + 1..]))
    ensures RowEntry(rows[i]).Some? <==> rows[i].span.Some? && Allowed(StripArtist(rows[i].span.value))
  {
    FilterMapAt(rows, i, RowEntry);
  }

  /** At most one entry per row. */
  lemma ExpectedLength(rows: seq<Row>)
    ensures |Expected(rows)| <= |rows|
  {
    FilterMapLength(rows, RowEntry);
  }

  /** Every emitted entry has a kept artist free of newlines and tabs, and a song (when
      there is one) free of whitespace. */
  lemma EmittedEntryShape(rows: seq<Row>, e: Entry)
    requires e in Expected(rows)
    ensures Allowed(e.artist)
    ensures forall k :: 0 <= k < |e.artist| ==> e.artist[k] != '\n' && e.artist[k] != '\t'
    ensures e.song.Some? ==> forall k :: 0 <= k < |e.song.value| ==> !IsWhitespace(e.song.value[k])
  {
    FilterMapMember(rows, RowEntry, e);
  }

  /** The song is never tested on its own: next to a kept artist, a placeholder title such
      as "-" is emitted as the song, and a row without `h3` gives an entry with no song. */
  lemma SongNotValidated(artist: Option<string>, text: string)
    requires Allowed(StripArtist(text))
    ensures Step(artist, Row(Some(text), Some("-"))) == Ok((Some(StripArtist(text)), Some(Entry(StripArtist(text), Some("-")))))
    ensures Step(artist, Row(Some(text), None)) == Ok((Some(StripArtist(text)), Some(Entry(StripArtist(text), None))))
  {
    RemoveAllKeepsClean("-", IsWhitespace);
  }

  /** A first row with a song but no `span` reads `artist` before anything bound it. */
  lemma FirstRowWithoutSpan(rows: seq<Row>)
    requires rows != [] && rows[0].span.None? && rows[0].h3.Some?
    ensures TopSongs(rows) == Err(UnboundArtist)
  {
    assert rows[..1][..0] == [] && rows[..1][0] == rows[0];
    ScanRowsErrSticks(rows, 1);
  }

  // ---------------------------------------------------------------------
  // The page URL and the year
  // ---------------------------------------------------------------------

  /** _define_url (top100.py:68-70): the chart URL, a slash, then the timeframe verbatim. */
  function DefineUrl(timeframe: string): (url: string)
    ensures |url| == |ChartUrl| + 1 + |timeframe|
    ensures url[..|ChartUrl|] == ChartUrl && url[|ChartUrl|] == '/'
    ensures url[|ChartUrl| + 1..] == timeframe
  {
    ChartUrl + "/" + timeframe
  }

  predicate IsDigit(c: char) {
    '0' <= c <= '9'
  }

  predicate AllDigits(s: string) {
    forall i :: 0 <= i < |s| ==> IsDigit(s[i])
  }

  function DigitValue(c: char): nat
    requires IsDigit(c)
  {
    c as int - '0' as int
  }

  function DigitChar(d: nat): char
    requires d < 10
  {
    ('0' as int + d) as char
  }

  /** The number a run of decimal digits denotes (int() of the digits). */
  function DecimalValue(s: string): nat
    requires AllDigits(s)
    decreases |s|
  {
    if s == [] then 0 else DecimalValue(s[..|s| - 1]) * 10 + DigitValue(s[|s| - 1])
  }

  /** A number written in decimal without leading zeros, as `%Y` writes a year. */
  function FormatDecimal(n: nat): (s: string)
    ensures |s| >= 1 && AllDigits(s)
    ensures DecimalValue(s) == n
    ensures n > 0 ==> s[0] != '0'
    decreases n
  {
    if n < 10 then [DigitChar(n)]
    else
      var s := FormatDecimal(n / 10) + [DigitChar(n % 10)];
      assert s[..|s| - 1] == FormatDecimal(n / 10);
      s
  }

  /** Digits without a leading zero denote at least 1. */
  lemma {:induction false} DecimalValuePositive(s: string)
    requires |s| >= 1 && AllDigits(s) && s[0] != '0'
    ensures DecimalValue(s) >= 1
    decreases |s|
  {
    if |s| > 1 {
      DecimalValuePositive(s[..|s| - 1]);
    }
  }

  /** Writing out the value of a digit run without leading zero gives the run back. */
  lemma {:induction false} FormatDecimalValue(s: string)
    requires |s| >= 1 && AllDigits(s) && s[0] != '0'
    ensures FormatDecimal(DecimalValue(s)) == s
    decreases |s|
  {
    if |s| > 1 {
      var p, last := s[..|s| - 1], s[|s| - 1];
      var v, d := DecimalValue(p), DigitValue(last);
      DecimalValuePositive(p);
      FormatDecimalValue(p);
      assert (v * 10 + d) / 10 == v && (v * 10 + d) % 10 == d;
      assert DigitChar(d) == last;
      assert FormatDecimal(v * 10 + d) == FormatDecimal(v) + [DigitChar(d)];
      assert s == p + [last];
    }
  }

  predicate IsLeapYear(y: int) {
    y % 4 == 0 && (y % 100 != 0 || y % 400 == 0)
  }

  function DaysInMonth(y: int, m: int): int {
    if m == 2 then (if IsLeapYear(y) then 29 else 28)
    else if m == 4 || m == 6 || m == 9 || m == 11 then 30
    else 31
  }

  /** A calendar date written `YYYY-MM-DD` with a year of at least 1000. */
  predicate IsIsoDate(t: string) {
    && |t| == 10
    && AllDigits(t[..4]) && t[4] == '-' && AllDigits(t[5..7]) && t[7] == '-' && AllDigits(t[8..])
    && DecimalValue(t[..4]) >= 1000
    && 1 <= DecimalValue(t[5..7]) <= 12
    && 1 <= DecimalValue(t[8..]) <= DaysInMonth(DecimalValue(t[..4]), DecimalValue(t[5..7]))
  }

  /** The year of top100.py:25: the timeframe is parsed with `%Y-%m-%d` and its year
      written back with `%Y`; that is the first four characters of the timeframe. */
  function Year(timeframe: string): (year: string)
    requires IsIsoDate(timeframe)
    ensures year == timeframe[..4]
  {
    assert timeframe[0] != '0' by {
      if timeframe[0] == '0' {
        assert timeframe[..4] == [timeframe[0]] + timeframe[1..4];
        LeadingZeroBelow1000(timeframe[..4]);
      }
    }
    FormatDecimalValue(timeframe[..4]);
    FormatDecimal(DecimalValue(timeframe[..4]))
  }

  /** Four digits starting with a zero denote less than 1000. */
  lemma LeadingZeroBelow1000(s: string)
    requires |s| == 4 && AllDigits(s) && s[0] == '0'
    ensures DecimalValue(s) < 1000
  {
    assert s[..1][..0] == [] && s[..1][0] == s[0];
    assert DecimalValue(s[..1]) == 0;
    assert s[..2][..1] == s[..1];
    assert DecimalValue(s[..2]) < 10;
    assert s[..3][..2] == s[..2];
    assert DecimalValue(s[..3]) < 100;
    assert s[..4][..3] == s[..3] && s[..4] == s;
  }
}
