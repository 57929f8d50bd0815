/**
 * One run of the updater: load the most recent stored link, scan the
 * listing page down to it, and prepend what is new to the stored list.
 */
module Updater {
  import opened Wrappers
  import opened Videos
  import opened Store

  /** The output file after one run over a listing page. */
  function Cycle(f: StoredFile, tiles: seq<Tile>): (r: StoredFile)
    ensures |ExistingVideos(f)| <= |ExistingVideos(r)|
    ensures ExistingVideos(r)[|ExistingVideos(r)| - |ExistingVideos(f)|..] == ExistingVideos(f)
    ensures forall j :: 0 <= j < |ExistingVideos(r)| - |ExistingVideos(f)| ==>
              Recorded(ExistingVideos(r)[j]) && ExistingVideos(r)[j].link !in Links(ExistingVideos(f))
    ensures ExistingVideos(r) == Merge(Collect(PageItems(tiles), FirstLink(ExistingVideos(f))), ExistingVideos(f))
    ensures forall v :: v in Collect(PageItems(tiles), FirstLink(ExistingVideos(f))) ==>
              v.link in Links(ExistingVideos(r))
    ensures f.Unreadable? && Collect(PageItems(tiles), FirstLink(ExistingVideos(f))) == [] ==> r == f
    ensures !(f.Unreadable? && Collect(PageItems(tiles), FirstLink(ExistingVideos(f))) == []) ==>
              r.Parsed? && r.doc.Wrapped?
  {
    var stored := ExistingVideos(f);
    var loaded := LoadExisting(f);
    var found := Collect(PageItems(tiles), FirstLink(stored));
    assert loaded.lastLink == FirstLink(stored);
    CollectRecorded(PageItems(tiles), FirstLink(stored));
    MergeOfRecorded(found, stored);
    assert f.Unreadable? ==> loaded.file == f;
    assert !f.Unreadable? ==> loaded.file.Parsed? && loaded.file.doc.Wrapped?;
    assert Merge([], stored) == [] + stored;
    if found == [] then loaded.file else AppendData(loaded.file, found)
  }

  /**
   * Merging recorded videos keeps the existing list at the end, puts only
   * recorded videos with fresh links in front, and stores every link of the
   * batch.
   */
  lemma MergeOfRecorded(found: seq<Video>, stored: seq<Video>)
    requires forall v | v in found :: Recorded(v)
    ensures var r := Merge(found, stored);
            |stored| <= |r| && r[|r| - |stored|..] == stored &&
            (forall j :: 0 <= j < |r| - |stored| ==> Recorded(r[j]) && r[j].link !in Links(stored)) &&
            (forall v :: v in found ==> v.link in Links(r))
  {
    var u := UniqueNew(found, Links(stored));
    var r := Merge(found, stored);
    forall j | 0 <= j < |r| - |stored| ensures Recorded(r[j]) {
      assert r[j] == u[j];
    }
    MergeLinks(found, stored);
    forall v | v in found ensures v.link in Links(found) { }
  }

  /**
   * The run itself: load, scan the page, and write the merged list only when
   * the scan found something. Also yields the most recent video seen, which
   * the run reports when nothing is new.
   */
  method ScrapeRumble(f: StoredFile, tiles: seq<Tile>) returns (r: StoredFile, mostRecent: Option<Seen>)
    ensures r == Cycle(f, tiles)
    ensures mostRecent == FirstSeen(PageItems(tiles))
  {
    var loaded := LoadExisting(f);
    var newVideos, totalScraped;
    newVideos, mostRecent, totalScraped := ScrapePage(tiles, loaded.lastLink);
    if newVideos != [] {
      r := AppendData(loaded.file, newVideos);
    } else {
      r := loaded.file;
    }
  }

  /** Every video of the existing list is still there after it gets entries in front. */
  lemma LinksOfSuffix(front: seq<Video>, existing: seq<Video>)
    ensures Links(existing) <= Links(front + existing)
  {
    forall l | l in Links(existing) ensures l in Links(front + existing) {
      var v :| v in existing && v.link == l;
      assert v in front + existing;
    }
  }

  /**
   * Scanning the page again after its new videos were merged finds only
   * videos that are stored: the scan now stops at the first of them.
   */
  lemma RescanFindsNothingNew(items: seq<Item>, existing: seq<Video>)
    ensures var stored := Merge(Collect(items, FirstLink(existing)), existing);
            UniqueNew(Collect(items, FirstLink(stored)), Links(stored)) == []
  {
    var found1 := Collect(items, FirstLink(existing));
    var unique := UniqueNew(found1, Links(existing));
    var stored := unique + existing;
    var found2 := Collect(items, FirstLink(stored));
    var entries := Entries(items);
    CollectIsPrefixBeforeBoundary(items, FirstLink(existing));
    CollectIsPrefixBeforeBoundary(items, FirstLink(stored));
    LinksOfSuffix(unique, existing);
    if unique == [] {
      assert stored == existing;
      UniqueNewEmptyIff(found1, Links(existing));
    } else {
      var p := UniqueNewHead(found1, Links(existing));
      assert found1[p] == entries[p];
      assert |found2| <= p by {
        if |found2| > p {
          assert found2[p] == entries[p];
          assert IsBoundary(found2[p], FirstLink(stored));
        }
      }
      forall j | 0 <= j < |found2| ensures found2[j].link in Links(stored) {
        assert found2[j] == found1[j];
      }
    }
    UniqueNewEmptyIff(found2, Links(stored));
  }

  /** Running again over the same page leaves the file as the first run left it. */
  lemma RerunIsNoOp(f: StoredFile, tiles: seq<Tile>)
    ensures Cycle(Cycle(f, tiles), tiles) == Cycle(f, tiles)
  {
    var items := PageItems(tiles);
    var existing := ExistingVideos(f);
    var found1 := Collect(items, FirstLink(existing));
    var f1 := Cycle(f, tiles);
    LoadExistingIdempotent(f);
    if found1 != [] {
      var stored := Merge(found1, existing);
      assert f1 == Parsed(Wrapped(stored));
      RescanFindsNothingNew(items, existing);
      assert Merge(Collect(items, FirstLink(stored)), stored) == [] + stored;
    }
  }
}
