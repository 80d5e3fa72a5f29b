/** The records the addon keeps: Real-Debrid download entries, the metadata
    values assigned to them and the stream entries handed to Stremio. */
module Records {
  import opened Strings

  /** One entry of the Real-Debrid downloads list (the fields the addon reads). */
  datatype Download = Download(id: string, filename: string, link: string, download: string, streamable: int)

  /** A metadata value: found by the Cinemeta lookup or forced by hand. */
  datatype Meta = Meta(id: string, name: string, poster: Option<string>, mediaType: string)

  /** An entry of a Stremio stream response. */
  datatype Stream = Stream(name: string, title: string, url: string)

  /** A download is hosted (not a torrent leftover) when it is streamable and
      its link is not a `/d/` link. */
  predicate IsHoster(d: Download) {
    d.streamable == 1 && !Contains(d.link, "/d/")
  }

  /** `hostersOnly(downloads)` */
  function HostersOnly(ds: seq<Download>): (r: seq<Download>)
    ensures |r| <= |ds|
    ensures forall i :: 0 <= i < |r| ==> IsHoster(r[i])
  {
    if ds == [] then [] else HostersOnly(ds[..|ds| - 1]) + (if IsHoster(ds[|ds| - 1]) then [ds[|ds| - 1]] else [])
  }

  /** Filtering distributes over concatenation, so the order of the records
      is kept. */
  lemma {:induction false} HostersOnlyAppend(a: seq<Download>, b: seq<Download>)
    ensures HostersOnly(a + b) == HostersOnly(a) + HostersOnly(b)
    decreases |b|
  {
    if b == [] {
      assert a + b == a;
    } else {
      assert (a + b)[..|a + b| - 1] == a + b[..|b| - 1];
      HostersOnlyAppend(a, b[..|b| - 1]);
    }
  }

  /** A record is kept exactly when it is a hoster. */
  lemma {:induction false} HostersOnlyMembers(ds: seq<Download>, d: Download)
    ensures d in HostersOnly(ds) <==> d in ds && IsHoster(d)
  {
    if ds != [] {
      HostersOnlyMembers(ds[..|ds| - 1], d);
      assert ds == ds[..|ds| - 1] + [ds[|ds| - 1]];
    }
  }

  /** Each record is kept as many times as it occurs, when it is a hoster. */
  lemma {:induction false} HostersOnlyCounts(ds: seq<Download>, d: Download)
    ensures multiset(HostersOnly(ds))[d] == if IsHoster(d) then multiset(ds)[d] else 0
  {
    if ds != [] {
      HostersOnlyCounts(ds[..|ds| - 1], d);
      assert ds == ds[..|ds| - 1] + [ds[|ds| - 1]];
    }
  }

  /** A list of hosters is left as it is; in particular filtering twice is
      filtering once. */
  lemma {:induction false} HostersOnlyKeepsHosters(ds: seq<Download>)
    requires forall i :: 0 <= i < |ds| ==> IsHoster(ds[i])
    ensures HostersOnly(ds) == ds
  {
    if ds != [] {
      HostersOnlyKeepsHosters(ds[..|ds| - 1]);
    }
  }

  lemma HostersOnlyIdempotent(ds: seq<Download>)
    ensures HostersOnly(HostersOnly(ds)) == HostersOnly(ds)
  {
    HostersOnlyKeepsHosters(HostersOnly(ds));
  }
}
