/**
 * The JSON output file: reading the most recent link (with the upgrade of the
 * old bare-list format) and prepending a batch of new videos without
 * duplicating links already stored.
 */
module Store {
  import opened Wrappers
  import opened Videos

  /**
   * The parsed JSON document: the old format, a bare list of videos, or the
   * current one, an object {"last_updated": ..., "videos": [...]}.
   */
  datatype Document = Bare(videos: seq<Video>) | Wrapped(videos: seq<Video>)

  /** The output file: missing, not valid JSON, or holding a document. */
  datatype StoredFile = Absent | Unreadable | Parsed(doc: Document)

  /** What loading yields: the most recent stored link, and the file as it is afterwards. */
  datatype Loaded = Loaded(lastLink: Option<string>, file: StoredFile)

  /** The link of the first (most recent) video of a list, if there is one. */
  function FirstLink(videos: seq<Video>): (r: Option<string>)
    ensures r.Some? <==> videos != []
  {
    if videos == [] then None else Some(videos[0].link)
  }

  /** The stored videos as the merge reads them: none when the file is missing or unreadable. */
  function ExistingVideos(f: StoredFile): seq<Video> {
    if f.Parsed? then f.doc.videos else []
  }

  /**
   * Loading the stored data: a missing file is created holding no videos; an
   * unreadable one is left alone; a bare list is rewritten in the current
   * format. The result is the link of the first stored video.
   */
  function LoadExisting(f: StoredFile): (r: Loaded)
    ensures ExistingVideos(r.file) == ExistingVideos(f)
    ensures r.lastLink == FirstLink(ExistingVideos(f))
    ensures !f.Unreadable? ==> r.file.Parsed? && r.file.doc.Wrapped?
    ensures f.Unreadable? ==> r.file == f
  {
    match f
    case Absent => Loaded(None, Parsed(Wrapped([])))
    case Unreadable => Loaded(None, Unreadable)
    case Parsed(doc) => Loaded(FirstLink(doc.videos), Parsed(Wrapped(doc.videos)))
  }

  /** Loading an already loaded file changes nothing further. */
  lemma LoadExistingIdempotent(f: StoredFile)
    ensures LoadExisting(LoadExisting(f).file) == LoadExisting(f)
  {
  }

  /** The set of links of a list of videos. */
  function Links(videos: seq<Video>): set<string> {
    set v | v in videos :: v.link
  }

  /** The videos of the batch whose link is not known, in batch order. */
  function UniqueNew(batch: seq<Video>, known: set<string>): (r: seq<Video>)
    ensures |r| <= |batch|
    ensures forall j :: 0 <= j < |r| ==> r[j] in batch && r[j].link !in known
    ensures forall j :: 0 <= j < |batch| && batch[j].link !in known ==> batch[j] in r
  {
    if batch == [] then []
    else if batch[0].link in known then UniqueNew(batch[1..], known)
    else [batch[0]] + UniqueNew(batch[1..], known)
  }

  /** The merged list: the batch's unknown videos in front of the existing ones. */
  function Merge(batch: seq<Video>, existing: seq<Video>): (r: seq<Video>)
    ensures |r| == |UniqueNew(batch, Links(existing))| + |existing|
    ensures r[|r| - |existing|..] == existing
    ensures forall j :: 0 <= j < |r| - |existing| ==> r[j].link !in Links(existing)
  {
    UniqueNew(batch, Links(existing)) + existing
  }

  /** The file the merge writes: the current format holding the merged list. */
  function AppendData(f: StoredFile, batch: seq<Video>): (r: StoredFile)
    ensures r.Parsed? && r.doc.Wrapped?
    ensures ExistingVideos(r) == Merge(batch, ExistingVideos(f))
  {
    Parsed(Wrapped(Merge(batch, ExistingVideos(f))))
  }

  /** The filter keeps order: filtering a concatenation concatenates the filtered parts. */
  lemma {:induction false} UniqueNewAppend(a: seq<Video>, b: seq<Video>, known: set<string>)
    ensures UniqueNew(a + b, known) == UniqueNew(a, known) + UniqueNew(b, known)
  {
    if a == [] {
      assert a + b == b;
    } else {
      var c := a + b;
      assert c[0] == a[0] && c[1..] == a[1..] + b;
      UniqueNewAppend(a[1..], b, known);
      if a[0].link !in known {
        calc {
          UniqueNew(c, known);
          [a[0]] + UniqueNew(a[1..] + b, known);
          [a[0]] + (UniqueNew(a[1..], known) + UniqueNew(b, known));
          ([a[0]] + UniqueNew(a[1..], known)) + UniqueNew(b, known);
        }
      }
    }
  }

  /** Nothing is new exactly when every link of the batch is known. */
  lemma {:induction false} UniqueNewEmptyIff(batch: seq<Video>, known: set<string>)
    ensures UniqueNew(batch, known) == [] <==> forall j :: 0 <= j < |batch| ==> batch[j].link in known
  {
    if batch != [] {
      UniqueNewEmptyIff(batch[1..], known);
      assert forall j :: 1 <= j < |batch| ==> batch[j] == batch[1..][j - 1];
    }
  }

  /** A batch with no known link is kept whole, duplicates inside the batch included. */
  lemma {:induction false} UniqueNewKeepsUnknown(batch: seq<Video>, known: set<string>)
    requires forall j :: 0 <= j < |batch| ==> batch[j].link !in known
    ensures UniqueNew(batch, known) == batch
  {
    if batch != [] {
      var rest := batch[1..];
      assert forall j :: 0 <= j < |rest| ==> rest[j].link == batch[j + 1].link;
      UniqueNewKeepsUnknown(rest, known);
      assert batch[0].link !in known;
      assert UniqueNew(batch, known) == [batch[0]] + rest;
    }
  }

  /** The first kept video is the first of the batch with an unknown link. */
  lemma {:induction false} UniqueNewHead(batch: seq<Video>, known: set<string>) returns (p: nat)
    requires UniqueNew(batch, known) != []
    ensures p < |batch| && batch[p] == UniqueNew(batch, known)[0] && batch[p].link !in known
    ensures forall j :: 0 <= j < p ==> batch[j].link in known
  {
    if batch[0].link in known {
      var q := UniqueNewHead(batch[1..], known);
      p := q + 1;
      assert forall j :: 1 <= j < p ==> batch[j] == batch[1..][j - 1];
    } else {
      p := 0;
    }
  }

  /** After the merge every link of the batch is stored, and no other link was added. */
  lemma MergeLinks(batch: seq<Video>, existing: seq<Video>)
    ensures Links(Merge(batch, existing)) == Links(existing) + Links(batch)
  {
    var u := UniqueNew(batch, Links(existing));
    var r := Merge(batch, existing);
    assert r == u + existing;
    forall l | l in Links(batch) ensures l in Links(r) {
      var v :| v in batch && v.link == l;
      if l !in Links(existing) {
        var j :| 0 <= j < |batch| && batch[j] == v;
        assert v in u;
      }
    }
  }

  /** Merging the same batch a second time adds nothing. */
  lemma MergeIdempotent(batch: seq<Video>, existing: seq<Video>)
    ensures Merge(batch, Merge(batch, existing)) == Merge(batch, existing)
  {
    var r := Merge(batch, existing);
    MergeLinks(batch, existing);
    assert forall j :: 0 <= j < |batch| ==> batch[j].link in Links(r);
    UniqueNewEmptyIff(batch, Links(r));
    assert Merge(batch, r) == [] + r;
  }
}
