/** The server of `index-najlepszy-stabilny.js`: the module-level state
    (downloads cache, metadata cache, hidden group keys, busy flag) as the
    fields of one object, and each handler as a method on it. */
module StableServer {
  import opened Strings
  import opened Records
  import opened Episode
  import opened Grouping
  import opened Catalog
  import opened Streams
  import opened Manage
  import opened Sync

  class Addon {
    var downloads: seq<Download>
    var metadata: map<string, Meta>
    var hidden: set<string>
    var isUpdating: bool

    constructor ()
      ensures downloads == [] && metadata == map[] && hidden == {} && !isUpdating
    {
      downloads := [];
      metadata := map[];
      hidden := {};
      isUpdating := false;
    }

    /** `GET /manager`: the groups of the hoster files, most files first,
        without the hidden ones unless `showHidden`. */
    method Manager(showHidden: bool) returns (cards: seq<Group>)
      ensures cards == Dashboard(downloads, metadata, hidden, showHidden)
    {
      var files := HostersOnly(downloads);
      var groups := BuildGroups(files, KeyOf, TitleOf, metadata);
      cards := VisibleGroups(SortByCount(groups), hidden, showHidden);
    }

    /** `POST /manager/toggle-hide` */
    method ToggleHide(groupKey: string)
      modifies this
      ensures hidden == Toggled(old(hidden), groupKey)
      ensures downloads == old(downloads) && metadata == old(metadata) && isUpdating == old(isUpdating)
    {
      if groupKey in hidden {
        hidden := hidden - {groupKey};
      } else {
        hidden := hidden + {groupKey};
      }
    }

    /** `POST /manager/update-group`; `lookup` is what `fetchCinemeta(imdbId)`
        returned. A failed lookup writes a forced value instead. */
    method UpdateGroup(groupKey: string, imdbId: string, lookup: Option<Meta>)
      modifies this
      ensures StartsWith(imdbId, "tt") ==>
        metadata == Assigned(HostersOnly(downloads), KeyOf, old(metadata), groupKey,
                             if lookup.Some? then lookup.value else ForcedMeta(imdbId, groupKey))
      ensures !StartsWith(imdbId, "tt") ==> metadata == old(metadata)
      ensures downloads == old(downloads) && hidden == old(hidden) && isUpdating == old(isUpdating)
    {
      if imdbId != [] && StartsWith(imdbId, "tt") {
        var meta := if lookup.Some? then lookup.value else ForcedMeta(imdbId, groupKey);
        var files := HostersOnly(downloads);
        metadata := AssignGroup(files, KeyOf, metadata, groupKey, meta);
      }
    }

    /** `GET /catalog/:type/:id.json` */
    method CatalogRequest(mediaType: string) returns (metas: seq<Meta>)
      ensures metas == CatalogOf(HostersOnly(downloads), KeyOf, metadata, hidden, mediaType)
    {
      metas := CollectCatalog(HostersOnly(downloads), KeyOf, metadata, hidden, mediaType);
    }

    /** `GET /stream/:type/:id.json` */
    method StreamRequest(mediaType: string, id: string) returns (streams: seq<Stream>)
      ensures streams == StreamsFor(downloads, metadata, mediaType, ParseSeasonEpisode(id))
    {
      streams := CollectStreams(downloads, metadata, mediaType, id);
    }

    /** `syncAllDownloads`, with `pages` standing for the Real-Debrid
        responses. A call while a sync is running does nothing. */
    method SyncAllDownloads(pages: seq<PageOutcome>)
      requires Terminates(pages)
      modifies this
      ensures old(isUpdating) ==> downloads == old(downloads) && isUpdating
      ensures !old(isUpdating) ==> downloads == SyncedCache(old(downloads), pages) && !isUpdating
      ensures metadata == old(metadata) && hidden == old(hidden)
    {
      if isUpdating {
        return;
      }
      isUpdating := true;
      var items, threw := FetchAllPages(pages);
      if !threw && |items| > 0 {
        downloads := items;
      }
      isUpdating := false;
    }
  }
}
