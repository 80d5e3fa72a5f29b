/** Stream selection for `/stream/:type/:id.json`: every download (hoster or
    not) whose metadata id is the base of the requested id, and for a
    series only the files that match the requested episode. */
module Streams {
  import opened Strings
  import opened Records
  import opened Episode

  const StreamName: string := "MOJE RD"

  function StreamOf(f: Download): Stream {
    Stream(StreamName, f.filename, f.download)
  }

  /** A download is offered for the parsed request. */
  predicate Selected(f: Download, md: map<string, Meta>, mediaType: string, p: Parsed) {
    f.id in md && md[f.id].id == p.baseId
    && (mediaType == "series" ==> MatchesEpisode(f.filename, p.season, p.episode))
  }

  /** The streams offered, in cache order. */
  function StreamsFor(cache: seq<Download>, md: map<string, Meta>, mediaType: string, p: Parsed): seq<Stream> {
    if cache == [] then []
    else
      var f := cache[|cache| - 1];
      StreamsFor(cache[..|cache| - 1], md, mediaType, p)
      + (if Selected(f, md, mediaType, p) then [StreamOf(f)] else [])
  }

  /** The handler's loop over the whole downloads cache. */
  method CollectStreams(cache: seq<Download>, md: map<string, Meta>, mediaType: string, id: string)
    returns (streams: seq<Stream>)
    ensures streams == StreamsFor(cache, md, mediaType, ParseSeasonEpisode(id))
  {
    var p := ParseSeasonEpisode(id);
    streams := [];
    var i := 0;
    while i < |cache|
      invariant 0 <= i <= |cache|
      invariant streams == StreamsFor(cache[..i], md, mediaType, p)
    {
      var f := cache[i];
      assert cache[..i + 1][..i] == cache[..i];
      if f.id in md && md[f.id].id == p.baseId {
        if mediaType == "series" {
          if MatchesEpisode(f.filename, p.season, p.episode) {
            streams := streams + [StreamOf(f)];
          }
        } else {
          streams := streams + [StreamOf(f)];
        }
      }
      i := i + 1;
    }
    assert cache[..i] == cache;
  }

  // ---------------------------------------------------------------------

  /** A stream is offered exactly for each selected download, and the
      result never holds more entries than the cache. */
  lemma {:induction false} StreamsForSpec(cache: seq<Download>, md: map<string, Meta>, mediaType: string,
                                          p: Parsed, s: Stream)
    ensures |StreamsFor(cache, md, mediaType, p)| <= |cache|
    ensures s in StreamsFor(cache, md, mediaType, p) <==>
      exists f :: f in cache && Selected(f, md, mediaType, p) && StreamOf(f) == s
  {
    if cache != [] {
      var init, f := cache[..|cache| - 1], cache[|cache| - 1];
      StreamsForSpec(init, md, mediaType, p, s);
      assert cache == init + [f];
    }
  }

  /** The streams of a cache are those of its parts, in order: one stream
      per selected download, in cache order. */
  lemma {:induction false} StreamsForAppend(a: seq<Download>, b: seq<Download>, md: map<string, Meta>,
                                            mediaType: string, p: Parsed)
    ensures StreamsFor(a + b, md, mediaType, p) == StreamsFor(a, md, mediaType, p) + StreamsFor(b, md, mediaType, p)
    decreases |b|
  {
    if b == [] {
      assert a + b == a;
    } else {
      var b' := b[..|b| - 1];
      assert (a + b)[..|a + b| - 1] == a + b';
      StreamsForAppend(a, b', md, mediaType, p);
    }
  }

  /** A single download gives its stream when it is selected, and nothing
      otherwise. */
  lemma StreamsForOne(f: Download, md: map<string, Meta>, mediaType: string, p: Parsed)
    ensures StreamsFor([f], md, mediaType, p) == if Selected(f, md, mediaType, p) then [StreamOf(f)] else []
  {
    assert [f][..0] == [];
  }

  /** For a movie every download whose metadata id is the requested id is
      offered, whatever its filename says. */
  lemma MovieStreams(cache: seq<Download>, md: map<string, Meta>, mediaType: string, id: string, f: Download)
    requires mediaType != "series" && NoSep(id, ':')
    requires f in cache && f.id in md && md[f.id].id == id
    ensures StreamOf(f) in StreamsFor(cache, md, mediaType, ParseSeasonEpisode(id))
  {
    ParseMovieId(id);
    StreamsForSpec(cache, md, mediaType, ParseSeasonEpisode(id), StreamOf(f));
  }

  /** A series request without `:season:episode` finds no stream. */
  lemma {:induction false} SeriesWithoutEpisode(cache: seq<Download>, md: map<string, Meta>, id: string)
    requires NoSep(id, ':')
    ensures StreamsFor(cache, md, "series", ParseSeasonEpisode(id)) == []
  {
    if cache != [] {
      SeriesWithoutEpisode(cache[..|cache| - 1], md, id);
      ParseMovieId(id);
    }
  }

  /** A series episode request offers every download of that title whose
      filename matches the episode (`StreamsForSpec` gives the converse). */
  lemma EpisodeStreams(cache: seq<Download>, md: map<string, Meta>, baseId: string,
                       season: string, episode: string, f: Download)
    requires NoSep(baseId, ':') && NoSep(season, ':') && NoSep(episode, ':')
    requires f in cache && f.id in md && md[f.id].id == baseId
    ensures StreamOf(f) in StreamsFor(cache, md, "series", ParseSeasonEpisode(baseId + ":" + season + ":" + episode))
        <== MatchesEpisode(f.filename, Some(season), Some(episode))
  {
    ParseRoundTrip(baseId, season, episode);
    StreamsForSpec(cache, md, "series", ParseSeasonEpisode(baseId + ":" + season + ":" + episode), StreamOf(f));
  }
}
