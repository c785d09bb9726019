/** The navigation state of the catalog view as a value: the history of
    visited locations, the current location and the search box text; one
    function per state transition, the breadcrumb label rule, and the user
    actions the page offers. */
module Navigation {
  import opened Wrappers
  import opened Strings
  import opened Sequences
  import opened Links
  import opened Catalog

  /** The label of the root breadcrumb ("Home"). */
  const HomeLabel := "Главная"
  /** The location of an author search, before the encoded query text. */
  const SearchPrefix := "/opds/search?searchTerm="

  datatype State = State(history: seq<string>, url: string, authorQuery: string)

  /** The history is never empty and its last element is the current location. */
  predicate Inv(s: State) {
    |s.history| >= 1 && s.url == s.history[|s.history| - 1]
  }

  /** The history starts at the root catalog. */
  predicate Rooted(s: State) {
    |s.history| >= 1 && s.history[0] == CatalogRoot
  }

  /** The state the page starts in: at the root catalog, with an empty search box. */
  function Initial(): (s: State)
    ensures s.history == [CatalogRoot] && s.url == CatalogRoot && s.authorQuery == ""
    ensures Inv(s) && Rooted(s)
  {
    State([CatalogRoot], CatalogRoot, "")
  }

  /** `goTo`: push a location, which becomes current. */
  function GoTo(s: State, u: string): (t: State)
    ensures Inv(t) && t.url == u
    ensures |t.history| == |s.history| + 1 && t.history[..|s.history|] == s.history
    ensures t.authorQuery == s.authorQuery
  {
    s.(history := s.history + [u], url := u)
  }

  /** `goBack`: with more than one location, drop the current one and return
      to the one before; otherwise nothing changes. */
  function GoBack(s: State): (t: State)
    ensures |s.history| <= 1 ==> t == s
    ensures |s.history| > 1 ==> Inv(t) && t.history == s.history[..|s.history| - 1]
    ensures Inv(s) ==> Inv(t)
    ensures t.authorQuery == s.authorQuery
  {
    if |s.history| <= 1 then s
    else
      var newHistory := s.history[..|s.history| - 1];
      s.(history := newHistory, url := newHistory[|newHistory| - 1])
  }

  /** A click on breadcrumb `i`: the history is cut back to its first `i + 1`
      locations and location `i` becomes current. */
  function JumpTo(s: State, i: nat): (t: State)
    requires i < |s.history|
    ensures Inv(t) && |t.history| == i + 1 && t.url == s.history[i]
    ensures forall k :: 0 <= k <= i ==> t.history[k] == s.history[k]
    ensures t.authorQuery == s.authorQuery
  {
    s.(url := s.history[i], history := s.history[..i + 1])
  }

  /** The location an author search goes to, for the given query text. */
  function SearchUrl(query: string, encode: string -> string): (u: string)
    ensures StartsWith(u, SearchPrefix) && u[|SearchPrefix|..] == encode(query)
  {
    assert (SearchPrefix + encode(query))[..|SearchPrefix|] == SearchPrefix;
    SearchPrefix + encode(query)
  }

  /** `searchByAuthor`: nothing happens when the trimmed query is empty;
      otherwise the search location for the trimmed query is pushed and becomes
      current, and the search box is cleared. `encode` is `encodeURIComponent`. */
  function SearchByAuthor(s: State, encode: string -> string): (t: State)
    ensures Trim(s.authorQuery) == "" <==> t == s
    ensures Trim(s.authorQuery) != "" ==>
      && Inv(t) && t.authorQuery == ""
      && t.history == s.history + [t.url]
      && t.url == SearchUrl(Trim(s.authorQuery), encode)
  {
    var query := Trim(s.authorQuery);
    if query == "" then s
    else
      var searchUrl := SearchUrl(query, encode);
      s.(history := s.history + [searchUrl], url := searchUrl, authorQuery := "")
  }

  /** The search box's change handler: the text is replaced. */
  function SetAuthorQuery(s: State, text: string): (t: State)
    ensures t.authorQuery == text && t.history == s.history && t.url == s.url
  {
    s.(authorQuery := text)
  }

  /** A non-empty path segment. */
  predicate IsNonEmpty(segment: string) {
    segment != ""
  }

  /** The text of the breadcrumb for location `h`: "Главная" for the root,
      otherwise the last non-empty piece of `h` split at '/' (the query string
      is part of it); none when `h` has no such piece, which happens exactly
      when `h` consists of slashes only. */
  function BreadcrumbLabel(h: string): (r: Option<string>)
    ensures h == CatalogRoot ==> r == Some(HomeLabel)
    ensures r.None? <==> h != CatalogRoot && forall i :: 0 <= i < |h| ==> h[i] == '/'
    ensures r.Some? && h != CatalogRoot ==> r.value != "" && '/' !in r.value
  {
    if h == CatalogRoot then Some(HomeLabel)
    else
      var parts := Split(h, '/');
      var named := Filter(parts, IsNonEmpty);
      SplitAllEmpty(h, '/');
      assert named != [] ==> named[0] in parts && named[0] != [];
      assert named == [] <==> forall k :: 0 <= k < |parts| ==> parts[k] == [];
      Last(named)
  }

  /** The label of a location other than the root is one of its pieces split
      at '/', is not empty, holds no '/' and only empty pieces follow it. */
  lemma {:induction false} LabelIsLastSegment(h: string, name: string)
    requires h != CatalogRoot && BreadcrumbLabel(h) == Some(name)
    ensures name != "" && '/' !in name
    ensures exists k ::
      && 0 <= k < |Split(h, '/')| && Split(h, '/')[k] == name
      && forall j :: k < j < |Split(h, '/')| ==> Split(h, '/')[j] == ""
  {
    LastOfFilter(Split(h, '/'), IsNonEmpty, name);
  }

  /** Joining separator-free pieces with '/' gives, unless the result is the
      root, a location whose label is the last piece, provided it is not empty. */
  lemma {:induction false} LabelOfJoin(parts: seq<string>)
    requires |parts| >= 1 && parts[|parts| - 1] != ""
    requires forall k :: 0 <= k < |parts| ==> '/' !in parts[k]
    requires Join(parts, '/') != CatalogRoot
    ensures BreadcrumbLabel(Join(parts, '/')) == Some(parts[|parts| - 1])
  {
    var n := |parts|;
    SplitJoin(parts, '/');
    assert parts == parts[..n - 1] + [parts[n - 1]];
    FilterAppend(parts[..n - 1], [parts[n - 1]], IsNonEmpty);
    assert Filter([parts[n - 1]], IsNonEmpty) == [parts[n - 1]] + Filter([], IsNonEmpty);
  }

  /** The breadcrumb of a search keeps the query: it is "search?searchTerm="
      followed by the encoded text (encodeURIComponent escapes '/'). */
  lemma {:induction false} SearchLabel(query: string, encode: string -> string)
    requires '/' !in encode(query)
    ensures BreadcrumbLabel(SearchUrl(query, encode)) == Some("search?searchTerm=" + encode(query))
  {
    var head := "search?searchTerm=";
    var tail := head + encode(query);
    assert '/' !in tail by {
      assert forall i :: 0 <= i < |head| ==> head[i] != '/';
    }
    var parts := ["", "opds", tail];
    assert Join(parts, '/') == "" + ['/'] + ("opds" + ['/'] + tail) by {
      assert parts[1..] == ["opds", tail];
      assert parts[1..][1..] == [tail];
      assert Join([tail], '/') == tail;
      assert Join(["opds", tail], '/') == "opds" + ['/'] + tail;
    }
    assert Join(parts, '/') == SearchUrl(query, encode);
    LabelOfJoin(parts);
  }

  /** "Главная" is not reserved for the root: a location whose last piece is
      that word gets the same label. */
  lemma HomeLabelNotExclusive()
    ensures BreadcrumbLabel("/Главная") == Some(HomeLabel)
  {
    var parts := ["", HomeLabel];
    assert parts[1..] == [HomeLabel];
    assert Join(parts, '/') == "/Главная";
    LabelOfJoin(parts);
  }

  /** Going back right after `goTo` returns to the state before it. */
  lemma BackUndoesGoTo(s: State, u: string)
    requires Inv(s)
    ensures GoBack(GoTo(s, u)) == s
  {
  }

  /** Going back right after a search returns to the location before it; only
      the search box stays cleared. */
  lemma BackUndoesSearch(s: State, encode: string -> string)
    requires Inv(s) && Trim(s.authorQuery) != ""
    ensures GoBack(SearchByAuthor(s, encode)) == s.(authorQuery := "")
  {
  }

  /** Going back is the jump to the breadcrumb before the current one. */
  lemma BackIsJumpToPrevious(s: State)
    requires |s.history| >= 2
    ensures GoBack(s) == JumpTo(s, |s.history| - 2)
  {
  }

  /** A click on the current breadcrumb changes nothing. */
  lemma JumpToCurrent(s: State)
    requires Inv(s)
    ensures JumpTo(s, |s.history| - 1) == s
  {
  }

  /** Two breadcrumb clicks in a row, the second to an earlier one, are the
      second click alone. */
  lemma JumpTwice(s: State, i: nat, j: nat)
    requires j <= i < |s.history|
    ensures JumpTo(JumpTo(s, i), j) == JumpTo(s, j)
  {
  }

  /** Push, push, back lands on the first pushed location with two
      breadcrumbs; from three breadcrumbs, a click on the first leaves only
      the root. */
  lemma NavigationScenario()
    ensures GoBack(GoTo(GoTo(Initial(), "/opds/genre/1"), "/opds/genre/1/sub")).url == "/opds/genre/1"
    ensures |GoBack(GoTo(GoTo(Initial(), "/opds/genre/1"), "/opds/genre/1/sub")).history| == 2
    ensures JumpTo(GoTo(GoTo(Initial(), "/opds/genre/1"), "/opds/genre/1/sub"), 0).history == [CatalogRoot]
  {
  }

  /** What the user can do on the page. */
  datatype Action =
    | Open(entry: Entry)   // the "Открыть" button of an entry card
    | Back                 // the "← Назад" button
    | Crumb(index: nat)    // a breadcrumb link
    | Type(text: string)   // typing into the search box
    | Submit               // submitting the search form

  /** One user action. Controls that are not on the page do nothing: an entry
      without a catalog link, or the shelf entry, has no open button; only
      existing breadcrumbs can be clicked; the search form is shown only at the
      root. The back button is shown only with more than one breadcrumb, and
      `goBack` does nothing otherwise, so it needs no guard. */
  function Step(s: State, a: Action, encode: string -> string): (t: State)
    ensures || (|t.history| <= |s.history| && t.history == s.history[..|t.history|])
            || (|t.history| == |s.history| + 1 && t.history[..|s.history|] == s.history)
    ensures |s.history| >= 1 ==> |t.history| >= 1 && t.history[0] == s.history[0]
    ensures s.url != CatalogRoot ==> t.authorQuery == s.authorQuery
  {
    match a
    case Open(e) =>
      if !IsCard(e) then s
      else (match OpenTarget(e) case None => s case Some(h) => GoTo(s, h))
    case Back => GoBack(s)
    case Crumb(i) => if i < |s.history| then JumpTo(s, i) else s
    case Type(text) => if s.url == CatalogRoot then SetAuthorQuery(s, text) else s
    case Submit => if s.url == CatalogRoot then SearchByAuthor(s, encode) else s
  }

  /** The state after a sequence of user actions; the first breadcrumb never
      changes. */
  function Run(s: State, actions: seq<Action>, encode: string -> string): (t: State)
    ensures |s.history| >= 1 ==> |t.history| >= 1 && t.history[0] == s.history[0]
    decreases |actions|
  {
    if actions == [] then s else Run(Step(s, actions[0], encode), actions[1..], encode)
  }

  /** Every action keeps the history non-empty, rooted at the catalog root and
      ending in the current location. */
  lemma StepKeepsInvariant(s: State, a: Action, encode: string -> string)
    requires Inv(s) && Rooted(s)
    ensures Inv(Step(s, a, encode)) && Rooted(Step(s, a, encode))
  {
  }

  /** Whatever the user does, the history stays non-empty, rooted at the
      catalog root, and ends in the current location. */
  lemma {:induction false} RunKeepsInvariant(s: State, actions: seq<Action>, encode: string -> string)
    requires Inv(s) && Rooted(s)
    ensures Inv(Run(s, actions, encode)) && Rooted(Run(s, actions, encode))
    decreases |actions|
  {
    if actions != [] {
      StepKeepsInvariant(s, actions[0], encode);
      RunKeepsInvariant(Step(s, actions[0], encode), actions[1..], encode);
    }
  }

  /** From the initial page, whatever the user does, the first breadcrumb is
      "Главная" and the current location is the last breadcrumb. */
  lemma {:induction false} FirstBreadcrumbIsHome(actions: seq<Action>, encode: string -> string)
    ensures var t := Run(Initial(), actions, encode);
      && |t.history| >= 1 && t.url == t.history[|t.history| - 1]
      && BreadcrumbLabel(t.history[0]) == Some(HomeLabel)
  {
    RunKeepsInvariant(Initial(), actions, encode);
  }
}
