/**
 * The ShoreSquad service worker: an install handler that pre-populates the
 * current cache generation from a fixed manifest, an activate handler that
 * deletes every other generation, and a network-first fetch handler that
 * falls back to the cache and then to the application shell.
 *
 * Each handler runs as one atomic step over the `caches` object.  Network
 * outcomes are parameters: `net(u)` is what fetching `u` does.
 */
module ServiceWorker {
  import opened Wrappers
  import opened CacheStore

  /** The generation this version of the worker owns. */
  const CacheName: Name := "shoresquad-v1"

  /** The manifest pre-populated at install time. */
  const UrlsToCache: seq<Url> := [
    "/",
    "/index.html",
    "/css/styles.css",
    "/js/app.js",
    "https://unpkg.com/leaflet@1.9.4/dist/leaflet.min.css",
    "https://unpkg.com/leaflet@1.9.4/dist/leaflet.min.js"
  ]

  /** The offline shell served when a request has no cached copy. */
  const ShellUrl: Url := "/index.html"

  datatype Request = Request(verb: string, url: Url)

  /**
   * What the fetch handler does with a request: leave it to the browser
   * (respondWith is never called), or answer it.  `Responded(None)` is an
   * answer with no response, which the page sees as a network error.
   */
  datatype FetchOutcome = NotIntercepted | Responded(response: Option<Response>)

  /**
   * The rejected-fetch branch: the cached entry for `url` if any generation
   * holds one, otherwise whatever caches.match finds for the shell.
   */
  function OfflineAnswer(names: seq<Name>, gens: map<Name, Cache>, url: Url): (r: Option<Response>)
    ensures (exists n :: n in names && Holds(gens, n, url)) ==> r == Match(names, gens, url) && r.Some?
    ensures (forall n :: n in names ==> !Holds(gens, n, url)) ==> r == Match(names, gens, ShellUrl)
    ensures r.None? <==> forall n :: n in names ==> !Holds(gens, n, url) && !Holds(gens, n, ShellUrl)
  {
    match Match(names, gens, url)
    case Some(cached) => Some(cached)
    case None => Match(names, gens, ShellUrl)
  }

  /** A generation after the fetch handler's put of `resp` under `url`. */
  function StoredAfter(c: Cache, url: Url, resp: Response): (r: Cache)
    ensures Storable(resp) ==> url in r && r[url] == resp
    ensures !Storable(resp) ==> r == c
    ensures forall u :: u != url ==> (u in r <==> u in c) && (u in c ==> r[u] == c[u])
  {
    if Storable(resp) then c[url := resp] else c
  }

  /**
   * The install handler: open CacheName, addAll the manifest, and only if
   * that resolved call skipWaiting.  `skippedWaiting` reports whether
   * skipWaiting was reached; when it was not, the install promise rejected.
   * caches.open has already created the generation either way.
   */
  method Install(caches: CacheStorage, net: Url -> NetworkOutcome) returns (skippedWaiting: bool)
    requires caches.Valid()
    modifies caches
    ensures caches.Valid()
    ensures skippedWaiting <==> forall u :: u in UrlsToCache ==> Usable(net(u))
    ensures caches.names == if CacheName in old(caches.names) then old(caches.names) else old(caches.names) + [CacheName]
    ensures skippedWaiting ==>
      caches.gens == old(caches.gens)[CacheName := AddAllResult(Generation(old(caches.gens), CacheName), UrlsToCache, net).value]
    ensures !skippedWaiting ==> caches.gens == old(caches.gens)[CacheName := Generation(old(caches.gens), CacheName)]
  {
    ghost var before := Generation(caches.gens, CacheName);
    caches.Open(CacheName);
    assert caches.gens[CacheName] == before;
    skippedWaiting := caches.AddAll(CacheName, UrlsToCache, net);
  }

  /**
   * The activate handler: list the generations and delete every one whose
   * name is not CacheName.  CacheName itself, if present, keeps its entries.
   */
  method Activate(caches: CacheStorage)
    requires caches.Valid()
    modifies caches
    ensures caches.Valid()
    ensures caches.names == if CacheName in old(caches.names) then [CacheName] else []
    ensures forall n :: n in caches.names ==> n == CacheName
    ensures CacheName in old(caches.gens) ==> caches.gens == map[CacheName := old(caches.gens)[CacheName]]
    ensures CacheName !in old(caches.gens) ==> caches.gens == map[]
  {
    var cacheNames := caches.names;
    var i := 0;
    while i < |cacheNames|
      invariant 0 <= i <= |cacheNames|
      invariant caches.Valid() && Distinct(cacheNames)
      invariant forall n :: n in caches.names <==> n in cacheNames[i..] || (n == CacheName && n in cacheNames)
      invariant forall n :: n in caches.gens ==> n in old(caches.gens) && caches.gens[n] == old(caches.gens)[n]
    {
      var cacheName := cacheNames[i];
      DistinctAt(cacheNames, i);
      if cacheName != CacheName {
        var _ := caches.Delete(cacheName);
      }
      i := i + 1;
    }
    OnlyOneLeft(caches.names, CacheName);
    SoleGeneration(caches.gens, old(caches.gens), CacheName);
  }

  /**
   * The fetch handler.  A non-GET request returns before respondWith.  A
   * GET request goes to the network first: a resolved fetch is the answer
   * and is also put into CacheName whatever its status, except that the
   * put of a 206 response rejects unobserved and stores nothing; a rejected fetch is
   * answered from the caches, then from the shell, and writes nothing.
   */
  method Fetch(caches: CacheStorage, request: Request, network: NetworkOutcome) returns (outcome: FetchOutcome)
    requires caches.Valid()
    modifies caches
    ensures caches.Valid()
    ensures request.verb != "GET" ==>
      outcome == NotIntercepted && caches.names == old(caches.names) && caches.gens == old(caches.gens)
    ensures request.verb == "GET" && network.Resolved? ==>
      outcome == Responded(Some(network.response)) &&
      caches.names == (if CacheName in old(caches.names) then old(caches.names) else old(caches.names) + [CacheName]) &&
      caches.gens == old(caches.gens)[CacheName := StoredAfter(Generation(old(caches.gens), CacheName), request.url, network.response)]
    ensures request.verb == "GET" && network.Rejected? ==>
      outcome == Responded(OfflineAnswer(old(caches.names), old(caches.gens), request.url)) &&
      caches.names == old(caches.names) && caches.gens == old(caches.gens)
  {
    if request.verb != "GET" {
      return NotIntercepted;
    }
    match network
    case Resolved(response) =>
      caches.Open(CacheName);
      var _ := caches.Put(CacheName, request.url, response);
      outcome := Responded(Some(response));
    case Rejected =>
      var cached := Match(caches.names, caches.gens, request.url);
      if cached.Some? {
        outcome := Responded(cached);
      } else {
        outcome := Responded(Match(caches.names, caches.gens, ShellUrl));
      }
  }

  /**
   * Freshness: once a resolved fetch has put a storable `resp` under `url`, a later
   * offline request for `url` is answered with `resp`, provided no other
   * generation also holds `url` (as is the case after activate).
   */
  lemma FreshAfterPut(names: seq<Name>, gens: map<Name, Cache>, url: Url, resp: Response)
    requires CacheName in names
    requires forall n :: n in names && n != CacheName ==> !Holds(gens, n, url)
    ensures Storable(resp) ==>
      OfflineAnswer(names, gens[CacheName := StoredAfter(Generation(gens, CacheName), url, resp)], url) == Some(resp)
  {
    var after := gens[CacheName := StoredAfter(Generation(gens, CacheName), url, resp)];
    if !Storable(resp) {
      return;
    }
    assert Holds(after, CacheName, url);
    var idx :| 0 <= idx < |names| && names[idx] == CacheName;
    var k := FirstHolder(names, after, url);
    assert names[k] in names;
    assert names[k] == CacheName;
  }

  /**
   * After activate only CacheName can remain, so caches.match reads exactly
   * the current generation.
   */
  lemma MatchAfterActivate(names: seq<Name>, gens: map<Name, Cache>, url: Url)
    requires names == [] || names == [CacheName]
    ensures Match(names, gens, url) == if Holds(gens, CacheName, url) && names != [] then Some(gens[CacheName][url]) else None
  {
  }

  /**
   * A complete install followed by an activate leaves one generation from
   * which every manifest URL is answered offline with what install fetched.
   */
  lemma ManifestServedOffline(before: Cache, net: Url -> NetworkOutcome, u: Url)
    requires forall v :: v in UrlsToCache ==> Usable(net(v))
    requires u in UrlsToCache
    ensures OfflineAnswer([CacheName], map[CacheName := AddAllResult(before, UrlsToCache, net).value], u) == Some(net(u).response)
  {
    var after := AddAllResult(before, UrlsToCache, net).value;
    assert Holds(map[CacheName := after], CacheName, u);
  }

  /**
   * Before activate has run, caches.match also sees older generations: if
   * a generation created before CacheName holds `url`, the answer comes from
   * an older generation, never from CacheName.
   */
  lemma StaleGenerationShadows(names: seq<Name>, gens: map<Name, Cache>, url: Url, i: nat, j: nat)
    requires Distinct(names) && i < j < |names| && names[j] == CacheName
    requires Holds(gens, names[i], url)
    ensures exists k ::
              && 0 <= k <= i && names[k] != CacheName && Holds(gens, names[k], url)
              && Match(names, gens, url) == Some(gens[names[k]][url])
  {
    var k := FirstHolder(names, gens, url);
    assert k <= i;
    assert names[k] != CacheName;
  }
}
