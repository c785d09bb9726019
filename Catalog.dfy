/** The parsed catalog entries and what the entry cards derive from them: the
    "open" target (a sub-catalog), the download links with their format labels,
    and the filter that hides the "Моя полка" (my shelf) entry. */
module Catalog {
  import opened Wrappers
  import opened Strings
  import opened Sequences
  import opened Links

  /** A `<link>` element: its `href`, `type` and `rel` attributes, each absent
      when the element does not carry it. */
  datatype Link = Link(href: Option<string>, mimeType: Option<string>, rel: Option<string>)

  /** An `<entry>` element: its title and content text (absent when the element
      is missing), its authors' names and its links, in document order. */
  datatype Entry = Entry(title: Option<string>, content: Option<string>, authors: seq<string>, links: seq<Link>)

  /** A download control: the format label and the normalised target. */
  datatype Download = Download(format: string, href: string)

  const AtomType := "application/atom+xml"
  const ShelfTitle := "Моя полка"

  /** A link to a sub-catalog: its type starts with the Atom media type. */
  predicate IsCatalogLink(l: Link) {
    l.mimeType.Some? && StartsWith(l.mimeType.value, AtomType)
  }

  /** A link to a book file: its type mentions epub, fb2 or mobi, which is
      exactly when its type gets a format label. */
  predicate IsFormatLink(l: Link)
    ensures IsFormatLink(l) <==> l.mimeType.Some? && FormatLabel(l.mimeType.value) != ""
  {
    l.mimeType.Some?
    && (Contains(l.mimeType.value, "epub") || Contains(l.mimeType.value, "fb2") || Contains(l.mimeType.value, "mobi"))
  }

  /** Where the "Открыть" (open) button goes: the normalised href of the first
      catalog link; no button when the entry has none. */
  function OpenTarget(e: Entry): (r: Option<string>)
    ensures r.None? <==> forall k :: 0 <= k < |e.links| ==> !IsCatalogLink(e.links[k])
    ensures r.Some? ==>
      exists k ::
        && 0 <= k < |e.links| && IsCatalogLink(e.links[k])
        && (forall j :: 0 <= j < k ==> !IsCatalogLink(e.links[j]))
        && r.value == NormalizeHref(e.links[k].href)
  {
    match FindIndex(e.links, IsCatalogLink)
    case None => None
    case Some(k) => Some(NormalizeHref(e.links[k].href))
  }

  /** The links that get a download control, in their original order. */
  function FormatLinks(links: seq<Link>): (r: seq<Link>)
    ensures |r| <= |links|
    ensures forall k :: 0 <= k < |r| ==> r[k] in links && IsFormatLink(r[k])
    ensures forall k :: 0 <= k < |links| && IsFormatLink(links[k]) ==> links[k] in r
  {
    Filter(links, IsFormatLink)
  }

  /** The download links of a concatenation are those of each part, in order. */
  lemma {:induction false} FormatLinksAppend(a: seq<Link>, b: seq<Link>)
    ensures FormatLinks(a + b) == FormatLinks(a) + FormatLinks(b)
  {
    FilterAppend(a, b, IsFormatLink);
  }

  /** A single link yields a download control exactly when it is a format link. */
  lemma FormatLinksSingle(l: Link)
    ensures FormatLinks([l]) == if IsFormatLink(l) then [l] else []
  {
  }

  /** The label of a download control: the first of epub, fb2 and mobi that
      the type mentions decides it; "" when it mentions none. */
  function FormatLabel(t: string): (name: string)
    ensures name == "EPUB" <==> Contains(t, "epub")
    ensures name == "FB2" <==> !Contains(t, "epub") && Contains(t, "fb2")
    ensures name == "MOBI" <==> !Contains(t, "epub") && !Contains(t, "fb2") && Contains(t, "mobi")
    ensures name == "" <==> !Contains(t, "epub") && !Contains(t, "fb2") && !Contains(t, "mobi")
  {
    if Contains(t, "epub") then "EPUB"
    else if Contains(t, "fb2") then "FB2"
    else if Contains(t, "mobi") then "MOBI"
    else ""
  }

  /** The download controls of an entry: one per format link, in order, each
      labelled and pointing at the normalised href; no label is empty. */
  function Downloads(e: Entry): (r: seq<Download>)
    ensures |r| == |FormatLinks(e.links)|
    ensures forall k :: 0 <= k < |r| ==>
      var l := FormatLinks(e.links)[k];
      && l.mimeType.Some?
      && r[k] == Download(FormatLabel(l.mimeType.value), NormalizeHref(l.href))
      && r[k].format in {"EPUB", "FB2", "MOBI"}
  {
    var f := FormatLinks(e.links);
    seq(|f|, k requires 0 <= k < |f| => Download(FormatLabel(f[k].mimeType.value), NormalizeHref(f[k].href)))
  }

  /** An entry that gets a card: anything but the shelf entry. */
  predicate IsCard(e: Entry) {
    e.title != Some(ShelfTitle)
  }

  /** The entries shown as cards, in feed order: the shelf entry is hidden. */
  function Cards(entries: seq<Entry>): (r: seq<Entry>)
    ensures |r| <= |entries|
    ensures forall k :: 0 <= k < |r| ==> r[k] in entries && r[k].title != Some(ShelfTitle)
    ensures forall k :: 0 <= k < |entries| && entries[k].title != Some(ShelfTitle) ==> entries[k] in r
  {
    Filter(entries, IsCard)
  }

  /** The cards of a concatenation are those of each part, in order. */
  lemma {:induction false} CardsAppend(a: seq<Entry>, b: seq<Entry>)
    ensures Cards(a + b) == Cards(a) + Cards(b)
  {
    FilterAppend(a, b, IsCard);
  }

  /** A root feed holding only the shelf entry shows no cards. */
  lemma ShelfOnlyFeed(shelf: Entry)
    requires shelf.title == Some(ShelfTitle)
    ensures Cards([shelf]) == []
  {
  }

  /** Sample EPUB and FB2 media types. */
  const EpubType := "application/epub+zip"
  const Fb2Type := "application/fb2+zip"

  /** The EPUB media type is labelled EPUB. */
  lemma EpubLabel()
    ensures FormatLabel(EpubType) == "EPUB"
  {
    assert EpubType[12..16] == "epub";
    ContainsAt(EpubType, "epub", 12);
  }

  /** The FB2 media type has no 'e', so it does not mention epub. */
  lemma Fb2TypeMentionsNoEpub()
    ensures !Contains(Fb2Type, "epub")
  {
    assert forall i :: 0 <= i < |Fb2Type| ==> Fb2Type[i] != 'e';
    NotContainsFirstChar(Fb2Type, "epub");
  }

  /** The FB2 media type mentions fb2 at position 12. */
  lemma Fb2TypeMentionsFb2()
    ensures Contains(Fb2Type, "fb2")
  {
    assert Fb2Type[12..15] == "fb2";
    ContainsAt(Fb2Type, "fb2", 12);
  }

  /** The FB2 media type is labelled FB2. */
  lemma Fb2Label()
    ensures FormatLabel(Fb2Type) == "FB2"
  {
    Fb2TypeMentionsNoEpub();
    Fb2TypeMentionsFb2();
  }
}
