/** The `App` component's navigation state as an object: the `history`, `url`
    and `authorQuery` state variables are fields, and each event handler is a
    method that updates them in one atomic step. Each method is proved to
    perform the transition the `Navigation` module specifies. */
module App {
  import opened Strings
  import opened Links
  import Navigation

  class Navigator {
    var history: seq<string>
    var url: string
    var authorQuery: string

    /** The fields as a `Navigation.State` value. */
    function Snapshot(): Navigation.State
      reads this
    {
      Navigation.State(history, url, authorQuery)
    }

    ghost predicate Valid()
      reads this
    {
      Navigation.Inv(Snapshot()) && Navigation.Rooted(Snapshot())
    }

    /** The initial state: at the root catalog with an empty search box. */
    constructor ()
      ensures Valid()
      ensures history == [CatalogRoot] && url == CatalogRoot && authorQuery == ""
      ensures Snapshot() == Navigation.Initial()
    {
      url := CatalogRoot;
      history := [CatalogRoot];
      authorQuery := "";
    }

    /** `goTo`: push `newUrl` and make it current. */
    method GoTo(newUrl: string)
      requires Valid()
      modifies this
      ensures Valid()
      ensures history == old(history) + [newUrl] && url == newUrl && authorQuery == old(authorQuery)
      ensures Snapshot() == Navigation.GoTo(old(Snapshot()), newUrl)
    {
      history := history + [newUrl];
      url := newUrl;
    }

    /** `goBack`: drop the current location unless it is the only one. */
    method GoBack()
      requires Valid()
      modifies this
      ensures Valid()
      ensures |old(history)| <= 1 ==> history == old(history) && url == old(url)
      ensures |old(history)| > 1 ==>
        history == old(history)[..|old(history)| - 1] && url == old(history)[|old(history)| - 2]
      ensures authorQuery == old(authorQuery)
      ensures Snapshot() == Navigation.GoBack(old(Snapshot()))
    {
      if |history| <= 1 {
        return;
      }
      var newHistory := history[..|history| - 1];
      url := newHistory[|newHistory| - 1];
      history := newHistory;
    }

    /** The click handler of breadcrumb `i`. */
    method JumpTo(i: nat)
      requires Valid() && i < |history|
      modifies this
      ensures Valid()
      ensures history == old(history)[..i + 1] && url == old(history)[i] && authorQuery == old(authorQuery)
      ensures Snapshot() == Navigation.JumpTo(old(Snapshot()), i)
    {
      url := history[i];
      history := history[..i + 1];
    }

    /** The change handler of the search box. */
    method SetAuthorQuery(text: string)
      requires Valid()
      modifies this
      ensures Valid()
      ensures history == old(history) && url == old(url) && authorQuery == text
      ensures Snapshot() == Navigation.SetAuthorQuery(old(Snapshot()), text)
    {
      authorQuery := text;
    }

    /** `searchByAuthor`, with `encode` standing for `encodeURIComponent`. */
    method SearchByAuthor(encode: string -> string)
      requires Valid()
      modifies this
      ensures Valid()
      ensures Trim(old(authorQuery)) == "" ==>
        history == old(history) && url == old(url) && authorQuery == old(authorQuery)
      ensures Trim(old(authorQuery)) != "" ==>
        && url == Navigation.SearchPrefix + encode(Trim(old(authorQuery)))
        && history == old(history) + [url]
        && authorQuery == ""
      ensures Snapshot() == Navigation.SearchByAuthor(old(Snapshot()), encode)
    {
      var query := Trim(authorQuery);
      if query == "" {
        return;
      }
      var searchUrl := Navigation.SearchPrefix + encode(query);
      history := history + [searchUrl];
      url := searchUrl;
      authorQuery := "";
    }
  }
}
