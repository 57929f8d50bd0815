/**
 * The incremental scan of the channel's listing page: which of the page's
 * newest-first video tiles are new since the last recorded video.
 *
 * The browser is not modelled. A tile is given by the attributes the scan
 * reads from it: the `alt` and `src` of its thumbnail image and the `href`
 * of its link, each element or attribute possibly missing.
 */
module Videos {
  import opened Wrappers
  import opened Text

  /** Prefix that turns a tile's relative href into an absolute URL. */
  const RumbleOrigin: string := "https://rumble.com"
  /** The uploader recorded for every scraped video. */
  const WarRoomUploader: string := "https://warroom.org"

  /** A stored video entry: the JSON object {"title", "link", "thumbnail", "uploader"}. */
  datatype Video = Video(title: string, link: string, thumbnail: Option<string>, uploader: string)

  /** Attributes of the tile's <img class="thumbnail__image"> element. */
  datatype ImageAttrs = ImageAttrs(alt: Option<string>, src: Option<string>)
  /** Attributes of the tile's <a class="videostream__link link"> element. */
  datatype LinkAttrs = LinkAttrs(href: Option<string>)
  /** One tile of the listing page; None stands for a missing element. */
  datatype Tile = Tile(image: Option<ImageAttrs>, anchor: Option<LinkAttrs>)

  /** What the loop body sees for one tile: the values of title, thumbnail and link in scope. */
  datatype Item = Item(title: Option<string>, thumbnail: Option<string>, href: Option<string>)

  /** The first tile seen with a title and a link, as the scan remembers it. */
  datatype Seen = Seen(title: string, url: string)

  /** The title in scope after the tile: its image's alt, or the previous title when it has no image. */
  function TitleAfter(t: Tile, title: Option<string>): Option<string> {
    if t.image.Some? then t.image.value.alt else title
  }

  /** The thumbnail in scope after the tile, carried over in the same way as the title. */
  function ThumbnailAfter(t: Tile, thumbnail: Option<string>): Option<string> {
    if t.image.Some? then t.image.value.src else thumbnail
  }

  /** The tile's link: the href of its link element, none without one. */
  function Href(t: Tile): Option<string> {
    if t.anchor.Some? then t.anchor.value.href else None
  }

  /**
   * The items the loop body sees, given the title and thumbnail still in scope
   * from earlier tiles. A tile without an image keeps the previous tile's title
   * and thumbnail; before any image the title is unbound, which raises, is
   * caught, and skips the tile just as a missing title does (None here).
   */
  function Resolve(tiles: seq<Tile>, title: Option<string>, thumbnail: Option<string>): (r: seq<Item>)
    ensures |r| == |tiles|
  {
    if tiles == [] then []
    else
      var title', thumbnail' := TitleAfter(tiles[0], title), ThumbnailAfter(tiles[0], thumbnail);
      [Item(title', thumbnail', Href(tiles[0]))] + Resolve(tiles[1..], title', thumbnail')
  }

  /** The items of a whole page, scanned from the first tile. */
  function PageItems(tiles: seq<Tile>): (r: seq<Item>)
    ensures |r| == |tiles|
  {
    Resolve(tiles, None, None)
  }

  /** Python truthiness of an optional string: present and non-empty. */
  predicate Truthy(o: Option<string>) {
    o.Some? && o.value != []
  }

  /** The tile has both a title and a link (`if title and link`). */
  predicate WellFormed(it: Item) {
    Truthy(it.title) && Truthy(it.href)
  }

  /** The absolute URL of the item's link. */
  function Url(it: Item): string
    requires it.href.Some?
  {
    RumbleOrigin + it.href.value
  }

  /** The entry recorded for a well-formed item. */
  function Entry(it: Item): (v: Video)
    requires WellFormed(it)
  {
    Video(Strip(it.title.value), Url(it), it.thumbnail, WarRoomUploader)
  }

  /** The entries of every well-formed item, in page order: the scan with no boundary. */
  function Entries(items: seq<Item>): (r: seq<Video>)
    ensures |r| <= |items|
  {
    if items == [] then []
    else if WellFormed(items[0]) then [Entry(items[0])] + Entries(items[1..])
    else Entries(items[1..])
  }

  /**
   * The new videos the scan collects: entries in page order up to, and not
   * including, the first well-formed item whose URL is the last known one.
   */
  function Collect(items: seq<Item>, last: Option<string>): seq<Video> {
    if items == [] then []
    else if !WellFormed(items[0]) then Collect(items[1..], last)
    else if last == Some(Url(items[0])) then []
    else [Entry(items[0])] + Collect(items[1..], last)
  }

  /** The most recent video the scan sees: the first well-formed item. */
  function FirstSeen(items: seq<Item>): (r: Option<Seen>)
    ensures r.None? <==> forall k :: 0 <= k < |items| ==> !WellFormed(items[k])
  {
    if items == [] then None
    else if WellFormed(items[0]) then Some(Seen(items[0].title.value, Url(items[0])))
    else FirstSeen(items[1..])
  }

  /** The video is the boundary: its link is the last known URL. */
  predicate IsBoundary(v: Video, last: Option<string>) {
    last == Some(v.link)
  }

  /** Collect is a prefix of the page's entries. */
  lemma {:induction false} CollectIsPrefix(items: seq<Item>, last: Option<string>)
    ensures |Collect(items, last)| <= |Entries(items)|
    ensures Collect(items, last) == Entries(items)[..|Collect(items, last)|]
  {
    if items != [] {
      var rest := items[1..];
      CollectIsPrefix(rest, last);
      var c, e := Collect(rest, last), Entries(rest);
      if WellFormed(items[0]) && last != Some(Url(items[0])) {
        var v := Entry(items[0]);
        assert Entries(items) == [v] + e;
        assert Collect(items, last) == [v] + c;
        assert ([v] + e)[..|c| + 1] == [v] + e[..|c|];
      }
    }
  }

  /** Collect never holds the boundary. */
  lemma {:induction false} CollectAvoidsBoundary(items: seq<Item>, last: Option<string>)
    ensures forall j :: 0 <= j < |Collect(items, last)| ==> !IsBoundary(Collect(items, last)[j], last)
  {
    if items != [] {
      var rest := items[1..];
      CollectAvoidsBoundary(rest, last);
      if WellFormed(items[0]) && last != Some(Url(items[0])) {
        var c := Collect(rest, last);
        var r := [Entry(items[0])] + c;
        assert Collect(items, last) == r;
        forall j | 0 <= j < |r| ensures !IsBoundary(r[j], last) {
          if j > 0 {
            assert r[j] == c[j - 1];
          }
        }
      }
    }
  }

  /** When Collect stops short of the page's entries, the next entry is the boundary. */
  lemma {:induction false} CollectStopsAtBoundary(items: seq<Item>, last: Option<string>)
    ensures |Collect(items, last)| < |Entries(items)| ==>
              IsBoundary(Entries(items)[|Collect(items, last)|], last)
  {
    if items != [] {
      var rest := items[1..];
      CollectStopsAtBoundary(rest, last);
      if WellFormed(items[0]) && last != Some(Url(items[0])) {
        var v := Entry(items[0]);
        assert Entries(items) == [v] + Entries(rest);
        assert Collect(items, last) == [v] + Collect(rest, last);
      }
    }
  }

  /**
   * Collect is the longest prefix of the page's entries in which no link is
   * the last known URL: it is a prefix, it never holds the boundary, and when
   * it stops short the next entry is the boundary.
   */
  lemma CollectIsPrefixBeforeBoundary(items: seq<Item>, last: Option<string>)
    ensures |Collect(items, last)| <= |Entries(items)|
    ensures Collect(items, last) == Entries(items)[..|Collect(items, last)|]
    ensures forall j :: 0 <= j < |Collect(items, last)| ==> !IsBoundary(Collect(items, last)[j], last)
    ensures |Collect(items, last)| < |Entries(items)| ==>
              IsBoundary(Entries(items)[|Collect(items, last)|], last)
  {
    CollectIsPrefix(items, last);
    CollectAvoidsBoundary(items, last);
    CollectStopsAtBoundary(items, last);
  }

  /** Without a last known URL, or when it is not on the page, every well-formed item is collected. */
  lemma CollectWithoutBoundary(items: seq<Item>, last: Option<string>)
    requires forall j :: 0 <= j < |Entries(items)| ==> !IsBoundary(Entries(items)[j], last)
    ensures Collect(items, last) == Entries(items)
  {
    CollectIsPrefixBeforeBoundary(items, last);
  }

  /** With no last known URL the scan collects every well-formed item. */
  lemma CollectAll(items: seq<Item>)
    ensures Collect(items, None) == Entries(items)
  {
    CollectWithoutBoundary(items, None);
  }

  /** Entries keep page order: the entries of a concatenation are the concatenated entries. */
  lemma {:induction false} EntriesAppend(a: seq<Item>, b: seq<Item>)
    ensures Entries(a + b) == Entries(a) + Entries(b)
  {
    if a == [] {
      assert a + b == b;
    } else {
      var c := a + b;
      assert c[0] == a[0] && c[1..] == a[1..] + b;
      EntriesAppend(a[1..], b);
      if WellFormed(a[0]) {
        calc {
          Entries(c);
          [Entry(a[0])] + Entries(a[1..] + b);
          [Entry(a[0])] + (Entries(a[1..]) + Entries(b));
          ([Entry(a[0])] + Entries(a[1..])) + Entries(b);
        }
      }
    }
  }

  /** A recorded entry: stripped title, absolute rumble.com link, the fixed uploader. */
  predicate Recorded(v: Video) {
    v.uploader == WarRoomUploader &&
    |RumbleOrigin| < |v.link| && v.link[..|RumbleOrigin|] == RumbleOrigin &&
    (v.title == [] || (!IsSpace(v.title[0]) && !IsSpace(v.title[|v.title| - 1])))
  }

  /** Every entry, hence every collected video, has the recorded shape. */
  lemma {:induction false} EntriesRecorded(items: seq<Item>)
    ensures forall j :: 0 <= j < |Entries(items)| ==> Recorded(Entries(items)[j])
  {
    if items != [] {
      EntriesRecorded(items[1..]);
      if WellFormed(items[0]) {
        var v := Entry(items[0]);
        StripSpec(items[0].title.value);
        assert v.link[..|RumbleOrigin|] == RumbleOrigin;
        assert Recorded(v);
      }
    }
  }

  /** Every new video the scan collects has the recorded shape. */
  lemma CollectRecorded(items: seq<Item>, last: Option<string>)
    ensures forall v | v in Collect(items, last) :: Recorded(v)
  {
    var found := Collect(items, last);
    EntriesRecorded(items);
    CollectIsPrefix(items, last);
    forall v | v in found ensures Recorded(v) {
      var j :| 0 <= j < |found| && found[j] == v;
      assert found[j] == Entries(items)[j];
    }
  }

  /**
   * The most recent video seen is the first entry of the page (with its title
   * before stripping); there is none exactly when the page has no entry.
   */
  lemma {:induction false} FirstSeenIsFirstEntry(items: seq<Item>)
    ensures FirstSeen(items).None? <==> Entries(items) == []
    ensures FirstSeen(items).Some? ==>
              FirstSeen(items).value.url == Entries(items)[0].link &&
              Strip(FirstSeen(items).value.title) == Entries(items)[0].title
  {
    if items != [] && !WellFormed(items[0]) {
      FirstSeenIsFirstEntry(items[1..]);
    }
  }

  /** When the most recent video seen is the boundary, nothing is new. */
  lemma {:induction false} FirstSeenAtBoundary(items: seq<Item>, last: Option<string>)
    requires FirstSeen(items).Some? && last == Some(FirstSeen(items).value.url)
    ensures Collect(items, last) == []
  {
    if !WellFormed(items[0]) {
      FirstSeenAtBoundary(items[1..], last);
    }
  }

  /**
   * Item k holds its own tile's link, and, when that tile has an image, its
   * own alt as title and src as thumbnail, whatever the tiles before it hold.
   */
  lemma {:induction false} ResolveOwnAttributes(tiles: seq<Tile>, title: Option<string>, thumbnail: Option<string>, k: nat)
    requires k < |tiles|
    ensures Resolve(tiles, title, thumbnail)[k].href == Href(tiles[k])
    ensures tiles[k].image.Some? ==>
              Resolve(tiles, title, thumbnail)[k].title == tiles[k].image.value.alt &&
              Resolve(tiles, title, thumbnail)[k].thumbnail == tiles[k].image.value.src
  {
    if k > 0 {
      ResolveOwnAttributes(tiles[1..], TitleAfter(tiles[0], title), ThumbnailAfter(tiles[0], thumbnail), k - 1);
    }
  }

  /** Tiles without an image from the start keep the title that was in scope before them. */
  lemma {:induction false} ResolveKeepsTitle(tiles: seq<Tile>, title: Option<string>, thumbnail: Option<string>, k: nat)
    requires k < |tiles| && forall j :: 0 <= j <= k ==> tiles[j].image.None?
    ensures Resolve(tiles, title, thumbnail)[k].title == title
  {
    if k > 0 {
      ResolveKeepsTitle(tiles[1..], title, thumbnail, k - 1);
    }
  }

  /**
   * A tile before the first image on the page is skipped: the title is
   * still unbound there, which the scan treats as a missing title.
   */
  lemma NoTitleBeforeFirstImage(tiles: seq<Tile>, k: nat)
    requires k < |tiles| && forall j :: 0 <= j <= k ==> tiles[j].image.None?
    ensures !WellFormed(PageItems(tiles)[k])
  {
    ResolveKeepsTitle(tiles, None, None, k);
  }

  /** A tile without an image reuses the title and thumbnail of the tile before it. */
  lemma {:induction false} ResolveCarriesOver(tiles: seq<Tile>, title: Option<string>, thumbnail: Option<string>, k: nat)
    requires 0 < k < |tiles| && tiles[k].image.None?
    ensures Resolve(tiles, title, thumbnail)[k].title == Resolve(tiles, title, thumbnail)[k - 1].title
    ensures Resolve(tiles, title, thumbnail)[k].thumbnail == Resolve(tiles, title, thumbnail)[k - 1].thumbnail
  {
    var t := tiles[0];
    var title' := if t.image.Some? then t.image.value.alt else title;
    var thumbnail' := if t.image.Some? then t.image.value.src else thumbnail;
    if k > 1 {
      ResolveCarriesOver(tiles[1..], title', thumbnail', k - 1);
    }
  }

  /** The videos already collected, followed by those Collect adds: the state the scan loop keeps. */
  function CollectOnto(acc: seq<Video>, items: seq<Item>, last: Option<string>): seq<Video>
    decreases |items|
  {
    if items == [] then acc
    else if !WellFormed(items[0]) then CollectOnto(acc, items[1..], last)
    else if last == Some(Url(items[0])) then acc
    else CollectOnto(acc + [Entry(items[0])], items[1..], last)
  }

  lemma {:induction false} CollectOntoIsAppend(acc: seq<Video>, items: seq<Item>, last: Option<string>)
    ensures CollectOnto(acc, items, last) == acc + Collect(items, last)
    decreases |items|
  {
    if items == [] {
      assert acc + [] == acc;
    } else if !WellFormed(items[0]) {
      CollectOntoIsAppend(acc, items[1..], last);
    } else if last == Some(Url(items[0])) {
      assert acc + [] == acc;
    } else {
      var v, c := Entry(items[0]), Collect(items[1..], last);
      CollectOntoIsAppend(acc + [v], items[1..], last);
      assert Collect(items, last) == [v] + c;
      assert (acc + [v]) + c == acc + ([v] + c);
    }
  }

  /**
   * One step of the scan at position i: the scan state from there on, and
   * the first well-formed item from there on, in terms of the item the loop
   * body sees at i and the items after it.
   */
  lemma ScanAt(tiles: seq<Tile>, i: nat, title: Option<string>, thumbnail: Option<string>,
               acc: seq<Video>, last: Option<string>)
    requires i < |tiles|
    ensures var title', thumbnail' := TitleAfter(tiles[i], title), ThumbnailAfter(tiles[i], thumbnail);
            var it := Item(title', thumbnail', Href(tiles[i]));
            var rest := Resolve(tiles[i + 1..], title', thumbnail');
            CollectOnto(acc, Resolve(tiles[i..], title, thumbnail), last) ==
              (if !WellFormed(it) then CollectOnto(acc, rest, last)
               else if last == Some(Url(it)) then acc
               else CollectOnto(acc + [Entry(it)], rest, last)) &&
            FirstSeen(Resolve(tiles[i..], title, thumbnail)) ==
              (if WellFormed(it) then Some(Seen(it.title.value, Url(it))) else FirstSeen(rest))
  {
    var title', thumbnail' := TitleAfter(tiles[i], title), ThumbnailAfter(tiles[i], thumbnail);
    var it := Item(title', thumbnail', Href(tiles[i]));
    var rest := Resolve(tiles[i + 1..], title', thumbnail');
    assert tiles[i..][0] == tiles[i] && tiles[i..][1..] == tiles[i + 1..];
    var r := Resolve(tiles[i..], title, thumbnail);
    assert r == [it] + rest;
    assert r[0] == it && r[1..] == rest;
  }

  /**
   * The scan loop of the updater over one listing page: walks the tiles
   * newest first, remembers the first well-formed one, and collects entries
   * until the tile whose URL is the last known one.
   */
  method ScrapePage(tiles: seq<Tile>, lastVideoUrl: Option<string>)
    returns (newVideos: seq<Video>, mostRecent: Option<Seen>, totalScraped: nat)
    ensures newVideos == Collect(PageItems(tiles), lastVideoUrl)
    ensures mostRecent == FirstSeen(PageItems(tiles))
    ensures totalScraped == |newVideos|
  {
    newVideos, mostRecent, totalScraped := [], None, 0;
    if |tiles| == 0 {
      return;
    }
    var title: Option<string> := None;
    var thumbnail: Option<string> := None;
    var i := 0;
    assert tiles[0..] == tiles;
    CollectOntoIsAppend([], PageItems(tiles), lastVideoUrl);
    assert [] + Collect(PageItems(tiles), lastVideoUrl) == Collect(PageItems(tiles), lastVideoUrl);
    while i < |tiles|
      invariant 0 <= i <= |tiles|
      invariant CollectOnto(newVideos, Resolve(tiles[i..], title, thumbnail), lastVideoUrl) ==
                Collect(PageItems(tiles), lastVideoUrl)
      invariant mostRecent.None? ==>
                  FirstSeen(Resolve(tiles[i..], title, thumbnail)) == FirstSeen(PageItems(tiles))
      invariant mostRecent.Some? ==> mostRecent == FirstSeen(PageItems(tiles))
    {
      ScanAt(tiles, i, title, thumbnail, newVideos, lastVideoUrl);
      var tile := tiles[i];
      if tile.image.Some? {
        title := tile.image.value.alt;
        thumbnail := tile.image.value.src;
      }
      if tile.anchor.Some? {
        var link := tile.anchor.value.href;
        if Truthy(title) && Truthy(link) {
          var videoUrl := RumbleOrigin + link.value;
          if mostRecent.None? {
            mostRecent := Some(Seen(title.value, videoUrl));
          }
          if lastVideoUrl == Some(videoUrl) {
            break;
          }
          newVideos := newVideos + [Video(Strip(title.value), videoUrl, thumbnail, WarRoomUploader)];
        }
      }
      i := i + 1;
    }
    totalScraped := totalScraped + |newVideos|;
  }
}
