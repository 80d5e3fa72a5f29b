/** The server of `index.js`: the same handlers without hidden groups, and
    an update-group that writes nothing when the lookup fails. */
module Server {
  import opened Strings
  import opened Records
  import opened Episode
  import opened Grouping
  import opened Catalog
  import opened Streams
  import opened Manage
  import opened Sync

  class Addon {
    var downloads: seq<Download>
    var metadata: map<string, Meta>
    var isUpdating: bool

    constructor ()
      ensures downloads == [] && metadata == map[] && !isUpdating
    {
      downloads := [];
      metadata := map[];
      isUpdating := false;
    }

    /** `GET /manager`: the groups of the hoster files, most files first. */
    method Manager() returns (cards: seq<Group>)
      ensures cards == SortByCount(Groups(HostersOnly(downloads), KeyOf, TitleOf, metadata))
    {
      var files := HostersOnly(downloads);
      var groups := BuildGroups(files, KeyOf, TitleOf, metadata);
      cards := SortByCount(groups);
    }

    /** `POST /manager/update-group`; `lookup` is what `fetchCinemeta(imdbId)`
        returned. A failed lookup changes nothing. */
    method UpdateGroup(groupKey: string, imdbId: string, lookup: Option<Meta>)
      modifies this
      ensures StartsWith(imdbId, "tt") && lookup.Some? ==>
        metadata == Assigned(HostersOnly(downloads), KeyOf, old(metadata), groupKey, lookup.value)
      ensures !StartsWith(imdbId, "tt") || lookup.None? ==> metadata == old(metadata)
      ensures downloads == old(downloads) && isUpdating == old(isUpdating)
    {
      if imdbId != [] && StartsWith(imdbId, "tt") {
        if lookup.Some? {
          var files := HostersOnly(downloads);
          metadata := AssignGroup(files, KeyOf, metadata, groupKey, lookup.value);
        }
      }
    }

    /** `GET /catalog/:type/:id.json`, with no hidden keys to skip. */
    method CatalogRequest(mediaType: string) returns (metas: seq<Meta>)
      ensures metas == CatalogOf(HostersOnly(downloads), KeyOf, metadata, {}, mediaType)
    {
      metas := CollectCatalog(HostersOnly(downloads), KeyOf, metadata, {}, mediaType);
    }

    /** `GET /stream/:type/:id.json` */
    method StreamRequest(mediaType: string, id: string) returns (streams: seq<Stream>)
      ensures streams == StreamsFor(downloads, metadata, mediaType, ParseSeasonEpisode(id))
    {
      streams := CollectStreams(downloads, metadata, mediaType, id);
    }

    /** `syncAllDownloads`, with `pages` standing for the Real-Debrid
        responses. A call while a sync is running does nothing. */
    method SyncAllDownloads(pages: seq<PageOutcome>)
      requires Terminates(pages)
      modifies this
      ensures old(isUpdating) ==> downloads == old(downloads) && isUpdating
      ensures !old(isUpdating) ==> downloads == SyncedCache(old(downloads), pages) && !isUpdating
      ensures metadata == old(metadata)
    {
      if isUpdating {
        return;
      }
      isUpdating := true;
      var items, threw := FetchAllPages(pages);
      if !threw && |items| > 0 {
        downloads := items;
      }
      isUpdating := false;
    }
  }
}
