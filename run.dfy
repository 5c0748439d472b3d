/** `run` itself: the state it changes and the order it changes it in.
    The destination directory is an object whose fields are the files it
    holds, the downloader's archive in it, the rss.xml feed file, and the log
    of externally visible actions (downloader calls, the feed write, file
    removals) in the order `run` performs them. */
module Ytpod {
  import opened Failures
  import opened Feed
  import opened Ledger
  import Text

  /** One externally visible action of a run. */
  datatype Effect =
    | Requested(url: string)  // the downloader was called for this video url
    | Wrote(feed: Podcast)    // rss.xml was written with this feed
    | Removed(name: string)   // this file was deleted

  /** The downloader calls for the ids in `youtube_identifiers`, one per id, in order. */
  function Downloads(ids: seq<string>): seq<Effect>
  {
    seq(|ids|, i requires 0 <= i < |ids| => Requested(VideoUrl(ids[i])))
  }

  lemma DownloadsSnoc(ids: seq<string>, id: string)
    ensures Downloads(ids + [id]) == Downloads(ids) + [Requested(VideoUrl(id))]
  {
    assert forall i :: 0 <= i < |ids| ==> (ids + [id])[i] == ids[i];
  }

  /** `log` deletes each file of `names` exactly once and nothing else. */
  ghost predicate RemovesExactly(log: seq<Effect>, names: set<string>)
  {
    && (forall i :: 0 <= i < |log| ==> log[i].Removed? && log[i].name in names)
    && (forall n :: n in names ==> Removed(n) in log)
    && (forall i, j :: 0 <= i < j < |log| ==> log[i] != log[j])
  }

  /** Two removal logs over disjoint sets of files remove their union. */
  lemma RemovesConcat(a: seq<Effect>, names: set<string>, b: seq<Effect>, more: set<string>)
    requires RemovesExactly(a, names) && RemovesExactly(b, more) && names !! more
    ensures RemovesExactly(a + b, names + more)
  {
    var ab := a + b;
    forall i, j | 0 <= i < j < |ab| ensures ab[i] != ab[j] {
      if i < |a| && j >= |a| {
        assert ab[i].name in names && ab[j].name in more;
      }
    }
    forall n | n in names + more ensures Removed(n) in ab {
      if n in names {
        var k :| 0 <= k < |a| && a[k] == Removed(n);
        assert ab[k] == Removed(n);
      } else {
        var k :| 0 <= k < |b| && b[k] == Removed(n);
        assert ab[|a| + k] == Removed(n);
      }
    }
  }

  /** The name of the feed file in the destination directory. */
  const FeedName: string := "rss.xml"

  /** The feed file's content after the directory went from `before` to
      `after` by removals only: gone if the removals took rss.xml, else as
      it was. */
  function FeedAfter(before: set<string>, after: set<string>, feed: Option<Podcast>): Option<Podcast>
  {
    if FeedName in before && FeedName !in after then None else feed
  }

  /** Two rounds of removals are one: rss.xml is gone after both exactly when
      one of them took it. */
  lemma FeedAfterTwice(a: set<string>, b: set<string>, c: set<string>, feed: Option<Podcast>)
    requires c <= b <= a
    ensures FeedAfter(b, c, FeedAfter(a, b, feed)) == FeedAfter(a, c, feed)
  {
  }

  /** The pattern `rss.*` of an archived id `rss` outside the window matches
      the feed file just written, so pruning deletes it. */
  lemma ArchivedRssTakesFeed(files: set<string>, kept: seq<string>)
    requires "rss" !in kept
    ensures FeedName in Condemned(files + {FeedName}, ["rss"], kept)
  {
    var ids := ["rss"];
    assert ids[0] !in kept;
    assert Matches(FeedName, ids[0]) by {
      assert FeedName[..4] == "rss.";
    }
  }

  class Destination {
    var files: set<string>             // names of the files in the directory
    var archive: Option<seq<string>>   // lines of download_log, None when it is absent
    var feedFile: Option<Podcast>      // content of rss.xml, None once it is deleted
    var effects: seq<Effect>           // what runs have done here, in order

    constructor (files: set<string>, archive: Option<seq<string>>, feedFile: Option<Podcast>)
      ensures this.files == files && this.archive == archive && this.feedFile == feedFile
      ensures effects == []
    {
      this.files := files;
      this.archive := archive;
      this.feedFile := feedFile;
      effects := [];
    }

    /** One pass of the loop body for `entry`: split the video id out of the
        entry id, call the downloader, look up the extension and build the
        output entry. The downloader is called exactly when the id split
        succeeds. */
    method FetchEntry(entry: Entry, root: string, env: Env)
      returns (videoId: Option<string>, item: Result<OutputEntry>)
      modifies this`effects
      ensures item == EntryItem(entry, root, env)
      ensures videoId.Some? <==> VideoId(entry.id).Ok?
      ensures videoId.Some? ==> videoId.value == VideoId(entry.id).value
      ensures effects == old(effects) + (if videoId.Some? then [Requested(VideoUrl(videoId.value))] else [])
    {
      var fields := Text.Split(entry.id, ':');
      if |fields| < 3 {
        return None, Err(MalformedEntryId(entry.id));
      }
      videoId := Some(fields[2]);
      var videoUrl := VideoUrl(fields[2]);
      effects := effects + [Requested(videoUrl)];
      var info := env.download(videoUrl);
      if info.None? {
        return videoId, Err(DownloadFailed(videoUrl));
      }
      var extension := Extension(info.value);
      if extension.Err? {
        return videoId, Err(extension.error);
      }
      var fileUrl := env.urljoin(root, fields[2] + "." + extension.value);
      if |entry.thumbnails| == 0 {
        return videoId, Err(NoThumbnail(fields[2]));
      }
      item := Ok(OutputEntry(fileUrl, entry.links, entry.title, entry.summary,
                             Enclosure(fileUrl, 0, env.guessType(fileUrl)),
                             entry.thumbnails[0], entry.published));
    }

    /** The loop over the windowed entries: each entry's video id is recorded
        once split out, and its output entry appended once built; the icon is
        the entry's thumbnail while it is unset or empty. The first failing
        entry ends the loop. */
    method DownloadWindow(w: seq<Entry>, root: string, env: Env)
      returns (ids: seq<string>, items: seq<OutputEntry>, icon: Option<string>, failure: Option<Error>)
      modifies this`effects
      ensures WindowPass(w, root, env) == Pass(ids, items, failure)
      ensures icon == ChannelIcon(Images(items))
      ensures effects == old(effects) + Downloads(ids)
    {
      ids, items, icon, failure := [], [], None, None;
      var i := 0;
      assert w[0..] == w;
      while i < |w|
        invariant i <= |w|
        invariant WindowPass(w, root, env) == Resumed(ids, items, WindowPass(w[i..], root, env))
        invariant icon == ChannelIcon(Images(items))
        invariant effects == old(effects) + Downloads(ids)
      {
        var videoId, result := FetchEntry(w[i], root, env);
        if videoId.None? {
          ResumeBadId(w, root, env, i, ids, items, WindowPass(w, root, env));
          failure := Some(result.error);
          return;
        }
        DownloadsSnoc(ids, videoId.value);
        if result.Err? {
          ResumeFailed(w, root, env, i, ids, items, WindowPass(w, root, env), videoId.value, result.error);
          ids := ids + [videoId.value];
          failure := Some(result.error);
          return;
        }
        var item := result.value;
        ResumeBuilt(w, root, env, i, ids, items, WindowPass(w, root, env), videoId.value, item);
        ChannelIconSnoc(Images(items), item.image);
        ImagesSnoc(items, item);
        ids := ids + [videoId.value];
        items := items + [item];
        if icon.None? || icon == Some("") {
          icon := Some(item.image);
        }
        i := i + 1;
      }
      assert ids + [] == ids && items + [] == items;
    }

    /** `for name in glob('<id>.*'): os.remove(name)`: the matching files are
        removed one at a time, in whatever order the listing gives. */
    method RemoveMatching(id: string) returns (ghost removals: seq<Effect>)
      modifies this`files, this`effects, this`feedFile
      ensures files == old(files) - Matching(old(files), id)
      ensures feedFile == (if FeedName in Matching(old(files), id) then None else old(feedFile))
      ensures feedFile == FeedAfter(old(files), files, old(feedFile))
      ensures effects == old(effects) + removals
      ensures RemovesExactly(removals, Matching(old(files), id))
    {
      var listed := set f | f in files && Matches(f, id);
      ghost var removed: set<string> := {};
      removals := [];
      while listed != {}
        invariant listed + removed == Matching(old(files), id) && listed !! removed
        invariant files == old(files) - removed
        invariant feedFile == (if FeedName in removed then None else old(feedFile))
        invariant effects == old(effects) + removals
        invariant RemovesExactly(removals, removed)
        decreases listed
      {
        var name :| name in listed;
        files := files - {name};
        if name == FeedName {
          feedFile := None;
        }
        effects := effects + [Removed(name)];
        removals := removals + [Removed(name)];
        listed := listed - {name};
        removed := removed + {name};
      }
    }

    /** The prune step for one archived id: its files go unless the window
        kept it. `base` is the directory before pruning, `seen` the ids read
        before this one and `removals` what they removed. */
    method PruneId(id: string, kept: seq<string>, ghost base: set<string>,
                   ghost seen: seq<string>, ghost removals: seq<Effect>) returns (ghost more: seq<Effect>)
      requires files == base - Condemned(base, seen, kept)
      requires RemovesExactly(removals, Condemned(base, seen, kept))
      modifies this`files, this`effects, this`feedFile
      ensures files == base - Condemned(base, seen + [id], kept)
      ensures files <= old(files)
      ensures feedFile == FeedAfter(old(files), files, old(feedFile))
      ensures effects == old(effects) + more
      ensures RemovesExactly(removals + more, Condemned(base, seen + [id], kept))
    {
      CondemnedSnoc(base, seen, kept, id);
      more := [];
      if id !in kept {
        ghost var gone := Condemned(base, seen, kept);
        more := RemoveMatching(id);
        RemovesConcat(removals, gone, more, Matching(base - gone, id));
      } else {
        assert removals + more == removals;
      }
    }

    /** `with open(download_log)`: a missing archive stops the run before
        anything is pruned; otherwise its lines are pruned. */
    method Prune(kept: seq<string>) returns (failure: Option<Error>, ghost removals: seq<Effect>)
      modifies this`files, this`effects, this`feedFile
      ensures effects == old(effects) + removals
      ensures feedFile == FeedAfter(old(files), files, old(feedFile))
      ensures archive.None? ==> failure == Some(MissingLedger) && files == old(files) && removals == []
      ensures archive.Some? ==>
                var scan := ScanLedger(archive.value);
                && files == old(files) - Condemned(old(files), scan.ids, kept)
                && failure == (if scan.malformed.Some? then Some(ShortLedgerLine(scan.malformed.value)) else None)
                && RemovesExactly(removals, Condemned(old(files), scan.ids, kept))
    {
      if archive.None? {
        return Some(MissingLedger), [];
      }
      failure, removals := PruneLines(archive.value, kept);
    }

    /** The prune loop over the lines of download_log: blank lines are
        skipped, each other line's second field is an id, and the files of an
        id that is not in `kept` are removed; a line with one field stops the
        loop. */
    method PruneLines(lines: seq<string>, kept: seq<string>) returns (failure: Option<Error>, ghost removals: seq<Effect>)
      modifies this`files, this`effects, this`feedFile
      ensures effects == old(effects) + removals
      ensures feedFile == FeedAfter(old(files), files, old(feedFile))
      ensures files == old(files) - Condemned(old(files), ScanLedger(lines).ids, kept)
      ensures failure == (if ScanLedger(lines).malformed.Some? then Some(ShortLedgerLine(ScanLedger(lines).malformed.value)) else None)
      ensures RemovesExactly(removals, Condemned(old(files), ScanLedger(lines).ids, kept))
    {
      removals := [];
      failure := None;
      ghost var seen: seq<string> := [];
      var i := 0;
      assert lines[0..] == lines && [] + ScanLedger(lines).ids == ScanLedger(lines).ids;
      while i < |lines|
        invariant i <= |lines|
        invariant ScanLedger(lines) == ScanFrom(seen, ScanLedger(lines[i..]))
        invariant files == old(files) - Condemned(old(files), seen, kept)
        invariant feedFile == FeedAfter(old(files), files, old(feedFile))
        invariant effects == old(effects) + removals
        invariant RemovesExactly(removals, Condemned(old(files), seen, kept))
      {
        var line := lines[i];
        if Text.IsBlank(line) {
          ScanBlank(lines, i, seen, ScanLedger(lines));
        } else {
          var fields := Text.Fields(line);
          if |fields| < 2 {
            ScanShort(lines, i, seen, ScanLedger(lines));
            failure := Some(ShortLedgerLine(line));
            return;
          }
          ScanId(lines, i, seen, ScanLedger(lines));
          var id := fields[1];
          ghost var before := files;
          ghost var more := PruneId(id, kept, old(files), seen, removals);
          FeedAfterTwice(old(files), before, files, old(feedFile));
          removals := removals + more;
          seen := seen + [id];
        }
        i := i + 1;
      }
      assert seen + [] == seen;
    }

    /** The whole of `run`: validate the feed, build the window, write rss.xml,
        then prune. An abort leaves everything after it undone. */
    method Run(url: string, root: string, limit: int, feed: ParsedFeed, env: Env)
      returns (failure: Option<Error>)
      modifies this`files, this`effects, this`feedFile
      ensures CheckFeed(url, feed).Some? ==>
                failure == CheckFeed(url, feed) && files == old(files)
                && feedFile == old(feedFile) && effects == old(effects)
      ensures CheckFeed(url, feed).None? ==>
                var pass := WindowPass(Window(feed.entries, limit), root, env);
                var downloaded := old(effects) + Downloads(pass.handed);
                && |effects| >= |downloaded| && effects[..|downloaded|] == downloaded
                && (pass.failure.Some? ==>
                      failure == pass.failure && files == old(files)
                      && feedFile == old(feedFile) && effects == downloaded)
                && (pass.failure.None? ==>
                      var podcast := Published(feed.meta.value, root, env, pass.items);
                      var written := old(files) + {FeedName};
                      && feedFile == (if FeedName in files then Some(podcast) else None)
                      && |effects| > |downloaded| && effects[|downloaded|] == Wrote(podcast)
                      && (archive.None? ==>
                            failure == Some(MissingLedger) && files == written
                            && effects == downloaded + [Wrote(podcast)])
                      && (archive.Some? ==>
                            var scan := ScanLedger(archive.value);
                            && files == written - Condemned(written, scan.ids, pass.handed)
                            && failure == (if scan.malformed.Some? then Some(ShortLedgerLine(scan.malformed.value)) else None)
                            && RemovesExactly(effects[|downloaded| + 1..], Condemned(written, scan.ids, pass.handed))))
    {
      failure := CheckFeed(url, feed);
      if failure.Some? {
        return;
      }
      var meta := feed.meta.value;
      var window := Window(feed.entries, limit);
      var ids, items, icon, passFailure := DownloadWindow(window, root, env);
      if passFailure.Some? {
        return passFailure;
      }
      var podcast := Published(meta, root, env, items);
      assert podcast.image == icon;
      ghost var downloaded := effects;
      feedFile := Some(podcast);
      files := files + {FeedName};
      effects := effects + [Wrote(podcast)];
      ghost var removals;
      failure, removals := Prune(ids);
      assert effects == downloaded + [Wrote(podcast)] + removals;
      assert effects[..|downloaded|] == downloaded;
      assert effects[|downloaded| + 1..] == removals;
    }
  }
}
