/**
 * get_song_uris (main.py:12-22): each chart entry is looked up on the music
 * service with its song, its artist and the chart year; the first candidate's
 * URI is collected, an entry without candidates is skipped.
 *
 * The service's search is a parameter: a function from the query to the URIs
 * of the tracks it returns, in the service's order (`['tracks']['items']`,
 * each item reduced to its `uri`). The method also hands back the queries it
 * sent, in order, which is what the call does to the outside world.
 */
module SongUris {
  import opened Wrappers
  import opened Seqs
  import opened Top100

  /** The three search hints: track title, artist and release year. */
  datatype Query = Query(track: string, artist: string, year: string)

  /** The one exception that escapes: `artist_and_song['song']` on an entry without a song (KeyError). */
  datatype LookupError = MissingSongKey

  /** `items[0]['uri']`: the first candidate, or None where Python raises IndexError. */
  function FirstUri(candidates: seq<string>): Option<string> {
    if candidates == [] then None else Some(candidates[0])
  }

  /** The URI a query yields under `search`, if any. */
  function Candidate(search: Query -> seq<string>): Query -> Option<string> {
    q => FirstUri(search(q))
  }

  predicate AllHaveSongs(entries: seq<Entry>) {
    forall j :: 0 <= j < |entries| ==> entries[j].song.Some?
  }

  /** Where the lookup stops: the first entry without a song, or the end. */
  function FirstMissing(entries: seq<Entry>): (k: nat)
    ensures k <= |entries|
    ensures forall j :: 0 <= j < k ==> entries[j].song.Some?
    ensures k < |entries| ==> entries[k].song.None?
    decreases |entries|
  {
    if entries == [] || entries[0].song.None? then 0
    else
      var k := 1 + FirstMissing(entries[1..]);
      assert forall j :: 1 <= j < k ==> entries[j] == entries[1..][j - 1];
      k
  }

  /** The queries made for entries that all have a song, one per entry, in order. */
  function Queries(entries: seq<Entry>, year: string): (qs: seq<Query>)
    requires AllHaveSongs(entries)
  {
    seq(|entries|, i requires 0 <= i < |entries| => Query(entries[i].song.value, entries[i].artist, year))
  }

  /** The value get_song_uris returns, or the exception it raises: the loop, entry by entry. */
  function UrisOf(entries: seq<Entry>, search: Query -> seq<string>, year: string): Result<seq<string>, LookupError>
    decreases |entries|
  {
    if entries == [] then Ok([])
    else
      match UrisOf(entries[..|entries| - 1], search, year)
      case Err(e) => Err(e)
      case Ok(uris) =>
        var entry := entries[|entries| - 1];
        if entry.song.None? then Err(MissingSongKey)
        else
          match FirstUri(search(Query(entry.song.value, entry.artist, year)))
          case None => Ok(uris)
          case Some(uri) => Ok(uris + [uri])
  }

  /**
   * get_song_uris with the search service as a parameter; `sent` lists the
   * searches issued, in order.
   */
  method GetSongUris(entries: seq<Entry>, search: Query -> seq<string>, year: string)
    returns (r: Result<seq<string>, LookupError>, sent: seq<Query>)
    ensures r == UrisOf(entries, search, year)
    ensures sent == Queries(entries[..FirstMissing(entries)], year)
  {
    var uris: seq<string> := [];
    sent := [];
    for i := 0 to |entries|
      invariant i <= FirstMissing(entries)
      invariant UrisOf(entries[..i], search, year) == Ok(uris)
      invariant sent == Queries(entries[..i], year)
    {
      var entry := entries[i];
      assert entries[..i + 1][..i] == entries[..i] && entries[..i + 1][i] == entry;
      if entry.song.None? {
        // the KeyError is not caught
        UrisOfCharacterised(entries, search, year);
        assert UrisOf(entries, search, year).error.MissingSongKey?;
        return Err(MissingSongKey), sent;
      }
      var query := Query(entry.song.value, entry.artist, year);
      var candidates := search(query);
      sent := sent + [query];
      if candidates == [] {
        // IndexError: skip this entry and go on
        continue;
      }
      uris := uris + [candidates[0]];
    }
    assert entries[..|entries|] == entries;
    r := Ok(uris);
  }

  /** The lookup fails exactly when some entry has no song; otherwise its URIs are the
      first candidates of the queries, in query order, with the empty searches left out. */
  lemma {:induction false} UrisOfCharacterised(entries: seq<Entry>, search: Query -> seq<string>, year: string)
    ensures UrisOf(entries, search, year).Err? <==> FirstMissing(entries) < |entries|
    ensures UrisOf(entries, search, year).Ok? ==>
      AllHaveSongs(entries) && UrisOf(entries, search, year).value == FilterMap(Queries(entries, year), Candidate(search))
    decreases |entries|
  {
    if entries != [] {
      var n := |entries| - 1;
      var p := entries[..n];
      UrisOfCharacterised(p, search, year);
      FirstMissingPrefix(entries, n);
      if UrisOf(p, search, year).Ok? && entries[n].song.Some? {
        assert AllHaveSongs(entries);
        QueriesSlice(entries, year, 0, n);
        var qs := Queries(entries, year);
        assert entries[0..n] == p && qs[0..n] == qs[..n];
        assert FilterMap(qs, Candidate(search)) == FilterMap(qs[..n], Candidate(search)) + OptionToSeq(Candidate(search)(qs[n]));
      }
    }
  }

  /** Cutting the entries short moves the stopping point no further than the cut. */
  lemma FirstMissingPrefix(entries: seq<Entry>, n: nat)
    requires n <= |entries|
    ensures FirstMissing(entries[..n]) == if FirstMissing(entries) < n then FirstMissing(entries) else n
  {
    var k, k' := FirstMissing(entries), FirstMissing(entries[..n]);
    if k < n {
      assert entries[..n][k] == entries[k];
    }
    if k' < n {
      assert entries[..n][k'] == entries[k'];
    }
  }

  /** At most one URI per entry, and one for each exactly when every search found something. */
  lemma UriCount(entries: seq<Entry>, search: Query -> seq<string>, year: string)
    requires UrisOf(entries, search, year).Ok?
    ensures |UrisOf(entries, search, year).value| <= |entries|
    ensures AllHaveSongs(entries)
    ensures |UrisOf(entries, search, year).value| == |entries| <==>
      forall i :: 0 <= i < |entries| ==> search(Queries(entries, year)[i]) != []
  {
    UrisOfCharacterised(entries, search, year);
    FilterMapLength(Queries(entries, year), Candidate(search));
  }

  /** Every URI returned is the first candidate of one of the searches, and every first
      candidate is returned. */
  lemma UriMember(entries: seq<Entry>, search: Query -> seq<string>, year: string, uri: string)
    requires UrisOf(entries, search, year).Ok?
    ensures AllHaveSongs(entries)
    ensures uri in UrisOf(entries, search, year).value <==>
      exists i :: 0 <= i < |entries| && search(Queries(entries, year)[i]) != [] && search(Queries(entries, year)[i])[0] == uri
  {
    UrisOfCharacterised(entries, search, year);
    var qs := Queries(entries, year);
    FilterMapMember(qs, Candidate(search), uri);
  }

  /** With a song on every entry, the lookup succeeds. */
  lemma AllSongsSucceed(entries: seq<Entry>, search: Query -> seq<string>, year: string)
    requires AllHaveSongs(entries)
    ensures UrisOf(entries, search, year) == Ok(FilterMap(Queries(entries, year), Candidate(search)))
  {
    UrisOfCharacterised(entries, search, year);
  }

  /** The queries of a stretch of entries are that stretch of the queries. */
  lemma QueriesSlice(entries: seq<Entry>, year: string, lo: nat, hi: nat)
    requires AllHaveSongs(entries) && lo <= hi <= |entries|
    ensures AllHaveSongs(entries[lo..hi])
    ensures Queries(entries, year)[lo..hi] == Queries(entries[lo..hi], year)
  {
    assert forall j :: 0 <= j < hi - lo ==> entries[lo..hi][j] == entries[lo + j];
  }

  /** An entry whose search finds nothing is skipped, not replaced: the URIs are those of
      the entries before it followed by those of the entries after it. */
  lemma EmptySearchSkipped(entries: seq<Entry>, search: Query -> seq<string>, year: string, i: nat)
    requires UrisOf(entries, search, year).Ok?
    requires i < |entries|
    requires entries[i].song.Some? && search(Query(entries[i].song.value, entries[i].artist, year)) == []
    ensures UrisOf(entries[..i], search, year).Ok? && UrisOf(entries[i + 1..], search, year).Ok?
    ensures UrisOf(entries, search, year).value ==
      UrisOf(entries[..i], search, year).value + UrisOf(entries[i + 1..], search, year).value
  {
    UrisOfCharacterised(entries, search, year);
    var qs := Queries(entries, year);
    assert UrisOf(entries[..i], search, year) == Ok(FilterMap(qs[..i], Candidate(search))) by {
      QueriesSlice(entries, year, 0, i);
      assert entries[0..i] == entries[..i] && qs[0..i] == qs[..i];
      AllSongsSucceed(entries[..i], search, year);
    }
    assert UrisOf(entries[i + 1..], search, year) == Ok(FilterMap(qs[i + 1..], Candidate(search))) by {
      QueriesSlice(entries, year, i + 1, |entries|);
      assert entries[i + 1..|entries|] == entries[i + 1..] && qs[i + 1..|entries|] == qs[i + 1..];
      AllSongsSucceed(entries[i + 1..], search, year);
    }
    assert Candidate(search)(qs[i]) == None;
    FilterMapAt(qs, i, Candidate(search));
  }

  /** Chaining the two passes: the lookup over the scraped entries fails exactly when some
      row has a kept artist but no `h3`, since that row's entry carries no song. */
  lemma SonglessRowFailsLookup(rows: seq<Row>, search: Query -> seq<string>, year: string)
    requires TopSongs(rows).Ok?
    ensures UrisOf(TopSongs(rows).value, search, year).Err? <==>
      exists i :: 0 <= i < |rows| && rows[i].span.Some? && Allowed(StripArtist(rows[i].span.value)) && rows[i].h3.None?
  {
    TopSongsCharacterised(rows);
    var entries := TopSongs(rows).value;
    UrisOfCharacterised(entries, search, year);
    if UrisOf(entries, search, year).Err? {
      var k := FirstMissing(entries);
      FilterMapMember(rows, RowEntry, entries[k]);
      var i :| 0 <= i < |rows| && RowEntry(rows[i]) == Some(entries[k]);
      assert rows[i].span.Some? && Allowed(StripArtist(rows[i].span.value)) && rows[i].h3.None?;
    }
    if exists i :: 0 <= i < |rows| && rows[i].span.Some? && Allowed(StripArtist(rows[i].span.value)) && rows[i].h3.None? {
      var i :| 0 <= i < |rows| && rows[i].span.Some? && Allowed(StripArtist(rows[i].span.value)) && rows[i].h3.None?;
      var e := Entry(StripArtist(rows[i].span.value), None);
      assert RowEntry(rows[i]) == Some(e);
      FilterMapMember(rows, RowEntry, e);
      var k :| 0 <= k < |entries| && entries[k] == e;
    }
  }
}
