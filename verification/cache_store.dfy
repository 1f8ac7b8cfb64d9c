/**
 * The browser's CacheStorage as the service worker sees it: named cache
 * generations, listed in creation order, each mapping a request URL to a
 * stored response.  Only GET requests ever reach the store, so a URL is the
 * whole request key.
 */
module CacheStore {
  import opened Wrappers

  type Name = string
  type Url = string

  /** A response is opaque to the worker apart from its HTTP status. */
  datatype Response = Response(status: int, body: string)

  /** What one network fetch does: resolve with a response, or reject. */
  datatype NetworkOutcome = Resolved(response: Response) | Rejected

  /** One cache generation. */
  type Cache = map<Url, Response>

  predicate Distinct(s: seq<Name>)
  {
    forall i, j :: 0 <= i < j < |s| ==> s[i] != s[j]
  }

  /** Generation `n` exists and holds an entry for `url`. */
  predicate Holds(gens: map<Name, Cache>, n: Name, url: Url)
  {
    n in gens && url in gens[n]
  }

  /** The contents of generation `n`, or an empty cache when there is none. */
  function Generation(gens: map<Name, Cache>, n: Name): Cache
  {
    if n in gens then gens[n] else map[]
  }

  /** Index of the first generation, in creation order, that holds `url`; |names| when none does. */
  function FirstHolder(names: seq<Name>, gens: map<Name, Cache>, url: Url): (k: nat)
    ensures k <= |names|
    ensures forall j :: 0 <= j < k ==> !Holds(gens, names[j], url)
    ensures k < |names| ==> Holds(gens, names[k], url)
  {
    if names == [] then 0
    else if Holds(gens, names[0], url) then 0
    else 1 + FirstHolder(names[1..], gens, url)
  }

  /**
   * caches.match: looks in every generation, oldest first, and answers with
   * the first entry found.
   */
  function Match(names: seq<Name>, gens: map<Name, Cache>, url: Url): (r: Option<Response>)
    ensures r.None? <==> forall n :: n in names ==> !Holds(gens, n, url)
    ensures r.Some? ==>
      exists k :: 0 <= k < |names| && Holds(gens, names[k], url) && r.value == gens[names[k]][url] &&
        forall j :: 0 <= j < k ==> !Holds(gens, names[j], url)
  {
    var k := FirstHolder(names, gens, url);
    if k < |names| then Some(gens[names[k]][url]) else None
  }

  /** Cache.put and Cache.addAll reject a partial-content response. */
  predicate Storable(resp: Response)
  {
    resp.status != 206
  }

  /** A response that Cache.addAll accepts: the fetch resolved with a 2xx status other than 206. */
  predicate Usable(o: NetworkOutcome)
  {
    o.Resolved? && 200 <= o.response.status <= 299 && Storable(o.response)
  }

  /**
   * Cache.addAll on a cache `c`: every URL is fetched; if any fetch rejects
   * or answers with a non-2xx or a 206 status the whole call rejects and nothing is
   * written, otherwise every response is stored under its URL.
   */
  function AddAllResult(c: Cache, urls: seq<Url>, net: Url -> NetworkOutcome): (r: Option<Cache>)
    ensures r.Some? <==> forall u :: u in urls ==> Usable(net(u))
    ensures r.Some? ==> r.value.Keys == c.Keys + set u | u in urls
    ensures r.Some? ==> forall u :: u in urls ==> r.value[u] == net(u).response
    ensures r.Some? ==> forall u :: u in c && u !in urls ==> r.value[u] == c[u]
  {
    if forall u :: u in urls ==> Usable(net(u)) then
      Some(map u | u in c.Keys + (set v | v in urls) :: if u in urls then net(u).response else c[u])
    else None
  }

  lemma DistinctTail(s: seq<Name>)
    requires Distinct(s) && s != []
    ensures Distinct(s[1..])
  {
    assert forall i, j :: 0 <= i < j < |s| - 1 ==> s[1..][i] == s[i + 1] && s[1..][j] == s[j + 1];
  }

  /** In a list without repeats, the element at `i` occurs neither before nor after `i`. */
  lemma DistinctAt(s: seq<Name>, i: nat)
    requires Distinct(s) && i < |s|
    ensures s[..i + 1] == s[..i] + [s[i]] && s[i..] == [s[i]] + s[i + 1..]
    ensures s[i] !in s[..i] && s[i] !in s[i + 1..]
  {
    assert s[i..] == [s[i]] + s[i + 1..];
    forall j | 0 <= j < i ensures s[..i][j] != s[i] { }
    forall j | i + 1 <= j < |s| ensures s[j] != s[i] { }
  }

  /** `s` with every occurrence of `n` removed, the rest in order. */
  function Without(s: seq<Name>, n: Name): (r: seq<Name>)
    ensures forall x :: x in r <==> x in s && x != n
    ensures Distinct(s) ==> Distinct(r)
    ensures |r| <= |s|
  {
    if s == [] then []
    else if s[0] == n then Without(s[1..], n)
    else
      var rest := Without(s[1..], n);
      assert Distinct(s) ==> Distinct(s[1..]) && s[0] !in rest by {
        if Distinct(s) {
          DistinctTail(s);
        }
      }
      var r := [s[0]] + rest;
      assert forall j :: 0 < j < |r| ==> r[j] == rest[j - 1];
      r
  }

  lemma {:induction false} WithoutAbsent(s: seq<Name>, n: Name)
    requires n !in s
    ensures Without(s, n) == s
  {
    if s != [] {
      WithoutAbsent(s[1..], n);
      assert s == [s[0]] + s[1..];
    }
  }

  /** Deleting a name that occurs once removes exactly that position. */
  lemma {:induction false} WithoutSplit(a: seq<Name>, n: Name, b: seq<Name>)
    requires n !in a && n !in b
    ensures Without(a + ([n] + b), n) == a + b
  {
    if a == [] {
      assert (a + ([n] + b))[1..] == b;
      WithoutAbsent(b, n);
    } else {
      assert (a + ([n] + b))[1..] == a[1..] + ([n] + b);
      WithoutSplit(a[1..], n, b);
      assert a + b == [a[0]] + (a[1..] + b);
    }
  }

  /** A list without repeats whose every element is `keep` is empty or just [keep]. */
  lemma {:induction false} OnlyOneLeft(s: seq<Name>, keep: Name)
    requires Distinct(s) && forall n :: n in s ==> n == keep
    ensures s == if keep in s then [keep] else []
  {
    if s != [] {
      assert s[0] in s;
      DistinctAt(s, 0);
      DistinctTail(s);
      assert forall n :: n in s[1..] ==> n in s;
      OnlyOneLeft(s[1..], keep);
      assert s == [s[0]] + s[1..];
    }
  }

  /** A store whose only possible key is `keep`, and which kept `keep` untouched, is `before` cut down to `keep`. */
  lemma SoleGeneration(after: map<Name, Cache>, before: map<Name, Cache>, keep: Name)
    requires forall n :: n in after ==> n == keep && n in before && after[n] == before[n]
    requires keep in before ==> keep in after
    ensures after == if keep in before then map[keep := before[keep]] else map[]
  {
  }

  /**
   * The global `caches` object.  `names` lists the generations in the order
   * they were created, as caches.keys() reports them; `gens` holds their
   * contents.
   */
  class CacheStorage {
    var names: seq<Name>
    var gens: map<Name, Cache>

    ghost predicate Valid()
      reads this
    {
      Distinct(names) && forall n :: n in gens <==> n in names
    }

    constructor ()
      ensures Valid() && names == [] && gens == map[]
    {
      names := [];
      gens := map[];
    }

    /** caches.open: creates an empty generation when `name` does not exist yet. */
    method Open(name: Name)
      requires Valid()
      modifies this
      ensures Valid()
      ensures names == if name in old(names) then old(names) else old(names) + [name]
      ensures gens == old(gens)[name := Generation(old(gens), name)]
    {
      if name !in names {
        names := names + [name];
        gens := gens[name := map[]];
      }
    }

    /**
     * Cache.put: stores `resp` under `url`, replacing any earlier entry;
     * a 206 response is rejected and nothing is written.  `stored` tells
     * whether the call resolved.
     */
    method Put(name: Name, url: Url, resp: Response) returns (stored: bool)
      requires Valid() && name in gens
      modifies this
      ensures Valid() && names == old(names)
      ensures stored <==> Storable(resp)
      ensures stored ==> gens == old(gens)[name := old(gens)[name][url := resp]]
      ensures !stored ==> gens == old(gens)
    {
      stored := Storable(resp);
      if stored {
        gens := gens[name := gens[name][url := resp]];
      }
    }

    /** Cache.addAll: all or nothing; `ok` tells whether the call resolved. */
    method AddAll(name: Name, urls: seq<Url>, net: Url -> NetworkOutcome) returns (ok: bool)
      requires Valid() && name in gens
      modifies this
      ensures Valid() && names == old(names)
      ensures ok <==> forall u :: u in urls ==> Usable(net(u))
      ensures ok ==> gens == old(gens)[name := AddAllResult(old(gens)[name], urls, net).value]
      ensures !ok ==> gens == old(gens)
    {
      var added := AddAllResult(gens[name], urls, net);
      ok := added.Some?;
      if ok {
        gens := gens[name := added.value];
      }
    }

    /** caches.delete: a missing name is not an error; `existed` reports whether one was removed. */
    method Delete(name: Name) returns (existed: bool)
      requires Valid()
      modifies this
      ensures Valid()
      ensures existed <==> name in old(names)
      ensures names == Without(old(names), name)
      ensures gens == old(gens) - {name}
    {
      existed := name in names;
      names := Without(names, name);
      gens := gens - {name};
    }
  }
}
