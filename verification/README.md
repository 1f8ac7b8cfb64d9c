# ShoreSquad offline cache and app state, in Dafny

ShoreSquad is a beach-cleanup progressive web app. This project models two parts of it.

**The service worker (`sw.js`).** The browser's `caches` object is a store of named cache
generations. Each generation maps a request URL to a stored response.
- Module `CacheStore` models that store as the class `CacheStorage`. It has a list of
  generation names in creation order and a map from name to contents. It supports the
  Cache API calls the worker makes: `open`, `put`, `addAll`, `delete` and `match`.
- Module `ServiceWorker` models the three event handlers as atomic methods over that object.
  - **Install** opens `shoresquad-v1` and runs `addAll` on the six-entry manifest. It reaches
    `skipWaiting` only if `addAll` resolved.
  - **Activate** deletes every generation not named `shoresquad-v1`.
  - **Fetch** is network-first. A non-GET request is not intercepted. A resolved fetch is the
    answer, and a copy goes into `shoresquad-v1`. A rejected fetch is answered from the
    caches, and then from `/index.html`.
- Network outcomes are parameters of the handlers: `net(u)` for install, and one
  `NetworkOutcome` for a fetch.

**The in-memory app logic (`js/app.js`).**
- Module `Weather` models `getWeatherIcon`. It lower-cases the text and then tries its
  keyword tests in order.
- Module `ShoreSquad` models the `AppState` events and crew lists. It covers the handlers that
  change them: delete an event, join the next cleanup, create an event from the form, and
  invite a crew member. It also covers the crew display name.
- Ids and timestamps that the app reads from the clock are inputs.

Some behaviours of the worker are worth stating plainly:
- Install makes sure `shoresquad-v1` exists: `caches.open` creates it only if it is new. A
  failed install leaves that generation in place with its previous contents, which are empty
  if it was new.
- `caches.match` searches every generation, oldest first. Before activate has run, an older
  generation can therefore answer instead of the new one (`StaleGenerationShadows`).
- The fetch handler stores a resolved response whatever its HTTP status. `put` itself
  rejects a 206 (partial content) response. That rejection is never observed, and nothing
  is stored.
- `addAll` rejects unless every response has a 2xx status other than 206.
- The offline shell is `/index.html`. There is no fetch timeout.

## Model

| member | source | states |
|---|---|---|
| CacheStore.Match | sw.js:53-54 | `caches.match`. The answer is absent exactly when no generation holds the URL. Otherwise it is the entry of the first generation, in creation order, that holds it. |
| CacheStore.AddAllResult | sw.js:18 | `addAll` is all or nothing. It succeeds exactly when every URL's fetch resolves with a 2xx status other than 206. It then stores each URL's response, adds exactly those keys, and keeps every other entry. |
| CacheStore.OnlyOneLeft | sw.js:27-33 | A generation list without repeats whose every name is the kept one is empty or just that name. After activate, at most one generation is left. |
| CacheStore.WithoutSplit | sw.js:31 | Deleting a generation that occurs once removes exactly that name. The other generations keep their order. |
| CacheStore.CacheStorage.Open | sw.js:17 | `caches.open` appends an empty generation when the name is new. Otherwise it changes nothing. |
| CacheStore.CacheStorage.Put | sw.js:48 | `cache.put` resolves exactly when the response is not a 206. It then replaces the entry for the URL in that generation. Otherwise nothing is written. The rest of the store is unchanged either way. |
| CacheStore.CacheStorage.AddAll | sw.js:18 | When every fetch is usable, the generation becomes the `addAll` result and the call resolves. Otherwise the store is untouched and the call rejects. |
| CacheStore.CacheStorage.Delete | sw.js:31 | `caches.delete` removes the name and its contents. It reports whether the name existed, and a missing name is not an error. |
| ServiceWorker.Install | sw.js:14-21 | Install makes sure `shoresquad-v1` exists: `caches.open` appends it only if it is new. `skipWaiting` is reached exactly when every manifest fetch is usable, and then the generation holds the `addAll` result. Otherwise it keeps its previous contents, which are empty if it was new. |
| ServiceWorker.ManifestServedOffline | sw.js:4-18 | After a complete install and activate, every manifest URL is answered offline with the response install fetched. |
| ServiceWorker.Activate | sw.js:24-37 | Afterwards the only generation name is `shoresquad-v1`, or none if it never existed. Its contents are unchanged. |
| ServiceWorker.MatchAfterActivate | sw.js:27-33 | Once activate has run, `caches.match` reads exactly the current generation. |
| ServiceWorker.StaleGenerationShadows | sw.js:53 | In any store, if a generation created before `shoresquad-v1` holds the URL, `caches.match` answers from an older generation, never from `shoresquad-v1`. |
| ServiceWorker.Fetch | sw.js:40-57 | A non-GET request is not intercepted and the store is unchanged. A resolved fetch returns exactly that response. It is stored in `shoresquad-v1` whatever its status, except a 206, which `put` rejects so nothing is stored. A rejected fetch writes nothing and answers with `OfflineAnswer`. |
| ServiceWorker.OfflineAnswer | sw.js:52-54 | On a cache hit the answer is the cached entry, never the shell. On a miss it is the lookup of `/index.html`. It is absent only when neither is cached. |
| ServiceWorker.FreshAfterPut | sw.js:44-54 | After a resolved fetch stored a storable (non-206) response, a later offline request for that URL gets exactly that response, provided no other generation holds the URL. |
| Weather.Lower | js/app.js:231 | Lower-casing keeps the length, leaves no upper-case letter, maps each upper-case letter to its lower-case form and leaves every other character alone. |
| Weather.LowerIdempotent | js/app.js:231 | Lower-casing twice is the same as lower-casing once. |
| Weather.ContainsPrefix | js/app.js:232 | A text containing "thundery" (or "cloudy", "sunny") also contains "thunder" ("cloud", "sun"). The longer keywords are redundant. |
| Weather.WeatherIcon | js/app.js:230-240 | The result is always one of the eight fixed icons. |
| Weather.FirstMatchWins | js/app.js:232-239 | For each of the seven keyword groups (thunder, shower/rain, cloud, sun, clear, wind, haze), its icon is chosen exactly when that group matches and no earlier group does. The default icon is chosen exactly when no keyword matches. |
| Weather.ThunderBeforeShower | js/app.js:232-233 | A text mentioning both thunder and a shower gets the thunderstorm icon. |
| Weather.ClearBeforeWind | js/app.js:236-237 | A text that matches none of the first four groups but mentions both "clear" and "wind" gets the clear icon, not the wind icon. |
| Weather.CaseInsensitive | js/app.js:231 | The icon does not depend on letter case. |
| ShoreSquad.RemoveById | js/app.js:527 | The filtered list has no event with the id, contains only events of the input, and is no longer than the input. |
| ShoreSquad.RemoveByIdKeepsOthers | js/app.js:527 | Every event with another id is kept as often as it occurred, in its original relative order. Events with the id are dropped. |
| ShoreSquad.RemoveAbsentId | js/app.js:527 | Deleting an id that no event has leaves the list as it is. |
| ShoreSquad.DeleteIdempotent | js/app.js:526-530 | Deleting the same id twice is the same as deleting it once. |
| ShoreSquad.DeleteUndoesCreate | js/app.js:335 | Deleting an event that was just appended under an unused id restores the previous list. |
| ShoreSquad.DeleteLeavesNoJoin | js/app.js:299 | After a delete, the join guard no longer finds the user in an event with that id. |
| ShoreSquad.NextCleanup | js/app.js:286-296 | The featured event's id is `event_pasir_ris_` plus the stamp. The user is its creator and sole participant. |
| ShoreSquad.AlreadyJoinedAfterPush | js/app.js:299 | The `.some` guard holds after a push exactly when it held before, or the pushed event has the id and lists the user. |
| ShoreSquad.JoinNext | js/app.js:299-305 | The list is unchanged exactly when the guard finds the user already joined. Otherwise the event is appended. Afterwards the guard finds the user joined. |
| ShoreSquad.JoinIdempotent | js/app.js:299-305 | Joining twice under the same id adds the event once. |
| ShoreSquad.GuardIsPerId | js/app.js:287-305 | The guard compares whole ids. When no event has the new id, the event is appended, even if the user joined an earlier Pasir Ris cleanup. |
| ShoreSquad.DisplayName | js/app.js:370 | The name is the longest prefix of the email that contains no `@`. It stops at the first `@`, or at the end of the text. |
| ShoreSquad.DisplayNameOfAddress | js/app.js:370 | For `local@domain` where the local part has no `@`, the display name is the local part. |
| ShoreSquad.AppState.constructor | js/app.js:6-13 | The app starts with empty events and crew lists for the given user id. |
| ShoreSquad.AppState.DeleteEvent | js/app.js:526-530 | `events` becomes the filtered list and `crew` is unchanged. |
| ShoreSquad.AppState.JoinNextCleanup | js/app.js:285-308 | The Pasir Ris event is appended exactly when no event with its id already lists the user. Otherwise `events` is unchanged. |
| ShoreSquad.AppState.CreateEvent | js/app.js:320-341 | The form's event is appended at the end. Its id is `event_` plus the stamp, the user is its creator and sole participant, and it carries the form fields. |
| ShoreSquad.AppState.InviteCrew | js/app.js:344-357 | A member is appended exactly when the entered email is present and non-empty. It always has status `pending`, and nothing else changes. |

## Left out

- Promise chaining, `event.waitUntil` and `event.respondWith` are not modelled. Each handler is one atomic step. In the source, the `put` after a resolved fetch is not awaited, so the page can get its response before the copy is stored.
- Concurrent fetch handlers and concurrent deletes in activate are not modelled. The deletes run one after another, which gives the same final store.
- `console.log` calls are left out.
- The real `fetch` is not modelled. Its outcome is a parameter.
- `response.clone()` and response bodies are not modelled. A response is an opaque value with a status.
- Cache API details the worker never relies on are left out: `Vary` headers, query options, and `addAll` rejecting duplicate requests. The manifest has no duplicates.
- ServiceWorker.Install: assumes storage never fails. `caches.open` and `addAll` cannot reject for reasons such as an exceeded quota. In the source, such a failure also stops install before `skipWaiting`.
- ServiceWorker.Fetch: assumes storage never fails. `caches.open` and `put` of a non-206 response always succeed. In the source, such a failure leaves the response unstored and the rejection unobserved.
- URLs are compared as the raw strings the worker uses. The browser resolves relative manifest entries and `/index.html` against the worker's location and matches absolute URLs. In the model, a request for `https://host/index.html` does not hit the key `/index.html`.
- Request keys are URLs. Only GET requests ever reach the store.
- `skipWaiting` and the worker lifecycle states are not modelled. Install only reports whether `skipWaiting` was reached.
- Weather.Lower: lower-cases ASCII letters only, while `toLowerCase` also folds non-ASCII letters.
- Map setup, markers and geolocation are left out: they are foreign-library and UI calls.
- The weather HTTP fetch and the temperature, humidity and wind averages are left out: they are network I/O and floating point.
- DOM rendering, view switching, modals, notifications and timers are left out. Only the display-name part of `displayCrew` is modelled.
- `localStorage` persistence, JSON and export are left out: they are I/O done by the runtime.
- Event coordinates are left out because they are floating point.
- `Date` values are opaque strings.
- `parseInt` is not modelled. Its result is an input, with `None` standing for NaN.
- The `Date.now()` ids are inputs (`stamp`).
- `currentUser` is reduced to its id. Its profile fields and stats are not used by the modelled handlers.
