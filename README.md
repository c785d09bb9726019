# OPDS catalog navigator — a Dafny model

This project models the logic of the single-page front end of an OPDS
(Atom-based) e-book catalog viewer for the Flibusta library, which browses the
remote catalog through a local proxy (`/opds/...` for catalog pages, `/b/...`
for book files). The modelled part is the `App` component:

- the link normaliser `normalizeHref`, which rewrites an href of a feed
  towards the proxy's routes (module `Links`); below, a "proxy path" is a
  string starting with `/b` or `/opds`, the prefixes the normaliser tests
  (which also admits `/bar` or `/opdsx`);
- the navigation state — the history of visited locations, the current
  location and the search box text — with its four transitions `goTo`,
  `goBack`, the breadcrumb click and `searchByAuthor` (module `Navigation` as
  pure functions on a `State` value, module `App` as the class `Navigator`
  whose methods update the fields in place and are proved to perform exactly
  those transitions);
- the rendering rules that decide what the user can click: the breadcrumb
  label, the entry's "open" target, its download links and their format
  labels, and the hiding of the "Моя полка" (my shelf) entry (modules
  `Navigation` and `Catalog`);
- the JavaScript string and array operations these rely on (`startsWith`,
  `includes`, `trim`, `split`, `filter`, `find`, `pop`) in modules `Strings`
  and `Sequences`, with their own contracts and lemmas.

A parsed entry is an input value (`Catalog.Entry`: title, content, authors,
links with `href`/`type`/`rel`, each attribute optional). `encodeURIComponent`
is a parameter `encode: string -> string`. `trim` is defined concretely, over
the ECMAScript whitespace and line-terminator code points.

The model adds one layer the handlers do not have on their own:
`Navigation.Step` dispatches a user action only when the control for it is on
the page (an entry card with a catalog link, an existing breadcrumb, the
search form at the root), and `Navigation.Run` applies a sequence of actions.

Behaviour of the code worth knowing, proved in the model:

- `normalizeHref` is not idempotent: an absolute href on the origin whose
  remainder is not a proxy path, such as `http://flibusta.is/genre`, gives
  `/genre`, which normalises again to `/opds/genre`
  (`Links.NormalizeNotIdempotent`). What does hold: exactly `""` and the proxy
  paths are fixed points (`Links.NormalizeFixedPoints`), and every href not on
  the origin normalises to a fixed point in one step. The remainder after the
  origin is kept verbatim even when it does not start with `/`, and a result
  need not be a proxy path in that case; the model follows the code.
- The breadcrumb label "Главная" is not reserved for `/opds`: a location like
  `/Главная` gets it too (`Navigation.HomeLabelNotExclusive`). A location made
  only of slashes has no label. The query string is part of the last piece, so
  a search breadcrumb reads `search?searchTerm=<encoded text>`.
- The breadcrumb click handler does no bounds check; its index always comes
  from the rendered history, so the model requires `i < |history|`.

## Model

| member | source | states |
|---|---|---|
| Links.NormalizeHref | src/App.jsx:25-31 | the result is "" exactly for an absent or empty href or the bare origin; a proxy path is returned unchanged; for an href on the origin, origin + result gives back the href; any other href yields "/opds" followed by the href; an href not on the origin always yields "" or a proxy path |
| Links.NormalizeFixedPoints | src/App.jsx:25-30 | normalising a string leaves it unchanged if and only if it is empty or starts with "/b" or "/opds" |
| Links.NormalizeIdempotentOffOrigin | src/App.jsx:26-30 | for an absent href or one not on the origin, normalising twice equals normalising once |
| Links.NormalizeNotIdempotent | src/App.jsx:29-30 | "http://flibusta.is/genre" normalises to "/genre", which normalises to "/opds/genre" |
| Links.NormalizeExamples | src/App.jsx:27-30 | an absolute catalog href loses the origin, "/genre/33" becomes "/opds/genre/33", "/b/123/epub" is kept |
| Strings.Trim | src/App.jsx:35 | the result is a slice of the input with only whitespace outside it; it is empty exactly when the input is all whitespace, otherwise it starts and ends with non-whitespace |
| Strings.TrimStart | src/App.jsx:35 | strips leading whitespace only: the result is a suffix not starting with whitespace |
| Strings.TrimEnd | src/App.jsx:35 | strips trailing whitespace only: the result is a prefix not ending with whitespace |
| Strings.Split | src/App.jsx:81 | splitting at '/' gives at least one piece and no piece contains '/' |
| Strings.JoinSplit | src/App.jsx:81 | joining the pieces of a split with the separator gives back the string |
| Strings.SplitJoin | src/App.jsx:81 | splitting the join of separator-free pieces gives back the pieces |
| Strings.SplitConcat | src/App.jsx:81 | splitting a + '/' + b is splitting a followed by splitting b |
| Strings.SplitNoSep | src/App.jsx:81 | a string without '/' splits into itself alone |
| Strings.SplitAllEmpty | src/App.jsx:81 | every piece is empty if and only if the string consists of separators only |
| Strings.StartsWith | src/App.jsx:27-29 | `startsWith` holds exactly when the prefix is no longer than the string and agrees with it character by character |
| Strings.Contains | src/App.jsx:148 | `includes(t)` is true only when t occurs at some position (ContainsAt gives the converse) |
| Strings.ContainsAt | src/App.jsx:148 | an occurrence of t at some position makes `includes(t)` true |
| Strings.NotContainsFirstChar | src/App.jsx:148 | `includes(t)` is false when t's first character is absent |
| Sequences.Filter | src/App.jsx:148 | the result keeps exactly the elements satisfying the predicate and is no longer than the input |
| Sequences.FilterAppend | src/App.jsx:148 | filtering a concatenation is the concatenation of the filtered parts, so the original order is kept |
| Sequences.FindIndex | src/App.jsx:138 | the index found is the first whose element satisfies the predicate; none exactly when no element does |
| Sequences.Last | src/App.jsx:81 | `pop` yields nothing exactly for an empty array, and otherwise the last element |
| Sequences.LastOfFilter | src/App.jsx:81 | the last element surviving a filter is an input element satisfying the predicate after which no element does |
| Catalog.OpenTarget | src/App.jsx:138-141 | the open button exists exactly when some link is a catalog link (IsCatalogLink: a type is present and starts with "application/atom+xml"); it targets the normalised href of the first such link |
| Catalog.IsFormatLink | src/App.jsx:148 | a link gets a download control exactly when it has a type and that type gets a non-empty format label |
| Catalog.FormatLinks | src/App.jsx:147-148 | the download links are exactly the links whose type mentions epub, fb2 or mobi |
| Catalog.FormatLinksAppend | src/App.jsx:147-148 | download links keep their original order (filtering distributes over concatenation) |
| Catalog.FormatLinksSingle | src/App.jsx:148 | a single link yields a download link exactly when its type mentions a format |
| Catalog.FormatLabel | src/App.jsx:150-153 | the label is EPUB exactly when the type mentions epub, FB2 when it mentions fb2 but not epub, MOBI when it mentions mobi but neither, and "" when none |
| Catalog.Downloads | src/App.jsx:147-158 | one control per download link, in order, labelled by FormatLabel, pointing to the normalised href, never with an empty label |
| Catalog.EpubLabel | src/App.jsx:151 | the EPUB media type is labelled EPUB |
| Catalog.Fb2Label | src/App.jsx:152 | the FB2 media type is labelled FB2 |
| Catalog.Cards | src/App.jsx:123-128 | the cards are exactly the entries not titled "Моя полка" |
| Catalog.CardsAppend | src/App.jsx:123-128 | cards keep the feed order |
| Catalog.ShelfOnlyFeed | src/App.jsx:124 | a feed holding only the shelf entry shows no cards |
| Navigation.Initial | src/App.jsx:5-9 | the initial state has history ["/opds"], location "/opds" and an empty search box, so it satisfies the invariant and is rooted |
| Navigation.GoTo | src/App.jsx:11-14 | the history grows by one, earlier entries are unchanged, the new location is current and the invariant holds |
| Navigation.GoBack | src/App.jsx:16-23 | no change with at most one location; otherwise exactly the last location is dropped and the one before becomes current; the invariant is kept |
| Navigation.JumpTo | src/App.jsx:86-90 | the history becomes its first i + 1 locations, location i is current, the invariant holds |
| Navigation.SearchUrl | src/App.jsx:37 | the search location is "/opds/search?searchTerm=" followed by the encoded query |
| Navigation.SearchByAuthor | src/App.jsx:33-41 | the state is unchanged if and only if the trimmed query is empty; otherwise the search location for the trimmed query is pushed and current and the box is cleared |
| Navigation.SetAuthorQuery | src/App.jsx:112 | the box holds the typed text; history and location are unchanged |
| Navigation.BreadcrumbLabel | src/App.jsx:81 | "/opds" is labelled "Главная"; a location has no label exactly when it is not "/opds" and consists of slashes only; any other label is non-empty and holds no '/' |
| Navigation.LabelIsLastSegment | src/App.jsx:81 | the label of a location other than the root is a non-empty '/'-free piece of it followed only by empty pieces |
| Navigation.LabelOfJoin | src/App.jsx:81 | a location built from '/'-free pieces with a non-empty last piece is labelled by that last piece |
| Navigation.SearchLabel | src/App.jsx:81 | a search breadcrumb reads "search?searchTerm=" followed by the encoded text: the query is not removed |
| Navigation.HomeLabelNotExclusive | src/App.jsx:81 | "/Главная" is also labelled "Главная" |
| Navigation.BackUndoesGoTo | src/App.jsx:11-23 | going back right after goTo restores the previous state |
| Navigation.BackUndoesSearch | src/App.jsx:16-41 | going back right after a search restores the previous location, with the box cleared |
| Navigation.BackIsJumpToPrevious | src/App.jsx:16-23 | going back equals clicking the breadcrumb before the last |
| Navigation.JumpToCurrent | src/App.jsx:86-90 | clicking the current breadcrumb changes nothing |
| Navigation.JumpTwice | src/App.jsx:86-90 | clicking breadcrumb i and then an earlier j equals clicking j |
| Navigation.NavigationScenario | src/App.jsx:11-23 | push, push, back is at the first pushed location with two breadcrumbs; a click on breadcrumb 0 of three leaves ["/opds"] |
| Navigation.Step | src/App.jsx:84-144 | every user action either cuts the history back to a prefix or pushes exactly one location; the first breadcrumb never changes; away from "/opds" the search text never changes |
| Navigation.Run | src/App.jsx:80-117 | after any sequence of actions the history is still non-empty and its first location is unchanged |
| Navigation.StepKeepsInvariant | src/App.jsx:80-141 | every user action keeps the history non-empty, rooted at "/opds" and ending in the current location |
| Navigation.RunKeepsInvariant | src/App.jsx:5-41 | any sequence of user actions keeps that invariant |
| Navigation.FirstBreadcrumbIsHome | src/App.jsx:80-81 | from the initial page, after any actions, the first breadcrumb is "Главная" and the current location is the last breadcrumb |
| App.Navigator.constructor | src/App.jsx:5-9 | starts at "/opds" with history ["/opds"] and an empty search box |
| App.Navigator.GoTo | src/App.jsx:11-14 | appends the location, makes it current, performs Navigation.GoTo |
| App.Navigator.GoBack | src/App.jsx:16-23 | drops the last location unless it is the only one, performs Navigation.GoBack |
| App.Navigator.JumpTo | src/App.jsx:86-90 | cuts the history to i + 1 locations with location i current, performs Navigation.JumpTo |
| App.Navigator.SetAuthorQuery | src/App.jsx:112 | replaces the search text, performs Navigation.SetAuthorQuery |
| App.Navigator.SearchByAuthor | src/App.jsx:33-41 | no change for a blank query, else pushes the search location and clears the box; performs Navigation.SearchByAuthor |

## Left out

- The feed loader (`useEffect` with `fetch`, `DOMParser` and `querySelector`, src/App.jsx:43-72): network I/O and a foreign XML parser; parsed entries are inputs, and `entries`/`feedTitle` are not fields of the model.
- JSX rendering, CSS classes, `dangerouslySetInnerHTML`, the authors line and `preventDefault`: presentation only. Each handler is one atomic state update; React's asynchronous batching of `setState` calls is not modelled.
- `encodeURIComponent`: its internals are not modelled; it is the parameter `encode`, a total function. The real function throws `URIError` on a lone UTF-16 surrogate; strings here are sequences of Unicode scalar values, which cannot hold one, so that error path is not modelled.
- Strings.Trim: treats JavaScript strings as sequences of code points, not UTF-16 code units.
- proxy.js (the Express reverse proxy and static file server) is not part of this model: network forwarding and streaming only.
- Content summarising, pagination through `next` links and an iOS download view are not present in the modelled code, so they are not modelled.
