/** The feed side of `run`: the parsed channel feed, the checks made on it,
    the retention window, and how one windowed entry becomes one item of the
    podcast feed. The downloader, `mimetypes.guess_type` and `urljoin` are
    collaborators and appear only as the functions of an `Env`. */
module Feed {
  import opened Failures
  import Text

  // ---------------------------------------------------------------------
  // Inputs: the parsed feed and the collaborators
  // ---------------------------------------------------------------------

  /** One entry of the channel's feed, with the fields `run` reads. */
  datatype Entry = Entry(
    id: string,                // e.g. "yt:video:<video id>"
    links: seq<string>,        // passed through to the output entry
    title: string,
    summary: string,
    thumbnails: seq<string>,   // the urls of `media_thumbnail`, in order
    published: string)

  /** The channel metadata `feed['feed']`; `None` when it is missing or empty. */
  datatype ChannelMeta = ChannelMeta(channelId: string, title: string, author: string, link: string)

  /** What the feed parser returns for the channel url. */
  datatype ParsedFeed = ParsedFeed(bozo: bool, entries: seq<Entry>, meta: Option<ChannelMeta>)

  /** One row of the downloader's format table. */
  datatype Format = Format(formatId: string, ext: string)

  /** What the downloader reports for one video: the format it chose and its format table. */
  datatype Info = Info(formatId: string, formats: seq<Format>)

  /** The collaborators: the downloader (None when it raises), the mime type
      guess for a url and url reference resolution `urljoin(base, ref)`. */
  datatype Env = Env(
    download: string -> Option<Info>,
    guessType: string -> Option<string>,
    urljoin: (string, string) -> string)

  // ---------------------------------------------------------------------
  // Output: the records handed to the feed generator
  // ---------------------------------------------------------------------

  datatype Enclosure = Enclosure(url: string, length: int, mimeType: Option<string>)

  /** One entry of the generated podcast feed. */
  datatype OutputEntry = OutputEntry(
    id: string,
    links: seq<string>,
    title: string,
    summary: string,
    enclosure: Enclosure,
    image: string,
    published: string)

  /** The podcast feed written to rss.xml. */
  datatype Podcast = Podcast(
    id: string,
    title: string,
    authorName: string,
    authorUri: string,
    selfLink: string,
    description: string,
    image: Option<string>,
    entries: seq<OutputEntry>)

  // ---------------------------------------------------------------------
  // Feed validation and the window
  // ---------------------------------------------------------------------

  /** The three checks made before anything else, in the order they are made. */
  function CheckFeed(url: string, feed: ParsedFeed): (r: Option<Error>)
    ensures r.None? <==> !feed.bozo && |feed.entries| >= 1 && feed.meta.Some?
    ensures feed.bozo ==> r == Some(Fail("Could not parse feed from " + url))
    ensures !feed.bozo && |feed.entries| == 0 ==> r == Some(Fail("Channel appears to contain no videos."))
    ensures !feed.bozo && |feed.entries| >= 1 && feed.meta.None? ==>
              r == Some(Fail("Channel appears to contain no feed metadata"))
  {
    if feed.bozo then Some(Fail("Could not parse feed from " + url))
    else if |feed.entries| < 1 then Some(Fail("Channel appears to contain no videos."))
    else if feed.meta.None? then Some(Fail("Channel appears to contain no feed metadata"))
    else None
  }

  /** `entries[0:limit]` with Python's slice rules: a negative limit counts
      back from the end. */
  function Window(entries: seq<Entry>, limit: int): (w: seq<Entry>)
    ensures |w| <= |entries| && w == entries[..|w|]
    ensures limit >= 0 ==> |w| == (if limit < |entries| then limit else |entries|)
    ensures limit < 0 ==> |w| == (if |entries| + limit > 0 then |entries| + limit else 0)
  {
    if limit >= 0 then
      (if limit < |entries| then entries[..limit] else entries)
    else if |entries| + limit > 0 then entries[..|entries| + limit]
    else []
  }

  // ---------------------------------------------------------------------
  // One entry
  // ---------------------------------------------------------------------

  /** `entry_id.split(':')[2]`: the video id is the third ':'-separated field. */
  function VideoId(entryId: string): (r: Result<string>)
    ensures r.Ok? ==> ':' !in r.value
    ensures r.Ok? <==> |Text.Split(entryId, ':')| >= 3
  {
    var fields := Text.Split(entryId, ':');
    if |fields| < 3 then Err(MalformedEntryId(entryId)) else Ok(fields[2])
  }

  /** For an id made of ':'-free fields the video id is the third field, and
      there is none when there are fewer than three. */
  lemma VideoIdOfFields(fs: seq<string>)
    requires |fs| >= 1
    requires forall i :: 0 <= i < |fs| ==> ':' !in fs[i]
    ensures |fs| >= 3 ==> VideoId(Text.Join(fs, ':')) == Ok(fs[2])
    ensures |fs| < 3 ==> VideoId(Text.Join(fs, ':')) == Err(MalformedEntryId(Text.Join(fs, ':')))
  {
    Text.SplitJoin(fs, ':');
  }

  /** The entry ids the channel feed carries, "yt:video:<id>", give back the id. */
  lemma VideoIdOfChannelEntry(v: string)
    requires ':' !in v
    ensures VideoId("yt:video:" + v) == Ok(v)
  {
    var fs := ["yt", "video", v];
    assert Text.Join(fs, ':') == "yt:video:" + v by {
      assert Text.Join(fs[1..], ':') == "video" + [':'] + Text.Join(fs[2..], ':');
      assert Text.Join(fs[2..], ':') == v;
    }
    VideoIdOfFields(fs);
  }

  /** The watch-page prefix of every url handed to the downloader. */
  const WatchPrefix: string := "https://www.youtube.com/watch?v="

  /** The url handed to the downloader for a video id. */
  function VideoUrl(videoId: string): string
  {
    WatchPrefix + videoId
  }

  /** The url is the watch page, with the id as everything after the fixed
      prefix. */
  lemma VideoUrlMeaning(videoId: string)
    ensures |VideoUrl(videoId)| == |WatchPrefix| + |videoId|
    ensures VideoUrl(videoId)[..|WatchPrefix|] == WatchPrefix
    ensures VideoUrl(videoId)[|WatchPrefix|..] == videoId
  {
  }

  /** Different video ids are fetched from different urls. */
  lemma VideoUrlInjective(a: string, b: string)
    requires VideoUrl(a) == VideoUrl(b)
    ensures a == b
  {
    VideoUrlMeaning(a);
    VideoUrlMeaning(b);
  }

  /** The index of the first format whose id is `formatId`. */
  function FormatIndex(formats: seq<Format>, formatId: string): (r: Option<nat>)
    ensures r.Some? ==> r.value < |formats| && formats[r.value].formatId == formatId
    ensures r.Some? ==> forall j :: 0 <= j < r.value ==> formats[j].formatId != formatId
    ensures r.None? <==> forall j :: 0 <= j < |formats| ==> formats[j].formatId != formatId
  {
    if formats == [] then None
    else if formats[0].formatId == formatId then Some(0)
    else match FormatIndex(formats[1..], formatId)
      case None => None
      case Some(k) => Some(k + 1)
  }

  /** The extension of the downloaded file: the `ext` of the first format
      whose id is the chosen one; no match is a StopIteration. */
  function Extension(info: Info): Result<string>
  {
    match FormatIndex(info.formats, info.formatId)
    case Some(k) => Ok(info.formats[k].ext)
    case None => Err(NoMatchingFormat(info.formatId))
  }

  /** The extension is that of the first matching format, and there is none
      exactly when no format has the chosen id. */
  lemma ExtensionMeaning(info: Info)
    ensures Extension(info).Err? <==> forall j :: 0 <= j < |info.formats| ==> info.formats[j].formatId != info.formatId
    ensures Extension(info).Err? ==> Extension(info).error == NoMatchingFormat(info.formatId)
    ensures forall k :: 0 <= k < |info.formats| && info.formats[k].formatId == info.formatId &&
                        (forall j :: 0 <= j < k ==> info.formats[j].formatId != info.formatId) ==>
                        Extension(info) == Ok(info.formats[k].ext)
  {
    var idx := FormatIndex(info.formats, info.formatId);
    if idx.Some? {
      forall k | 0 <= k < |info.formats| && info.formats[k].formatId == info.formatId &&
                 (forall j :: 0 <= j < k ==> info.formats[j].formatId != info.formatId)
        ensures k == idx.value
      {
        assert !(k < idx.value) && !(idx.value < k);
      }
    }
  }

  /** What `run` does for one windowed entry, in its order: split the video id
      out of the entry id, download it, look up the extension, and build the
      output entry, whose image is the entry's first thumbnail. */
  function EntryItem(e: Entry, root: string, env: Env): Result<OutputEntry>
  {
    match VideoId(e.id)
    case Err(x) => Err(x)
    case Ok(videoId) =>
      match env.download(VideoUrl(videoId))
      case None => Err(DownloadFailed(VideoUrl(videoId)))
      case Some(info) =>
        match Extension(info)
        case Err(x) => Err(x)
        case Ok(ext) =>
          if |e.thumbnails| == 0 then Err(NoThumbnail(videoId))
          else
            var fileUrl := env.urljoin(root, videoId + "." + ext);
            Ok(OutputEntry(fileUrl, e.links, e.title, e.summary,
                           Enclosure(fileUrl, 0, env.guessType(fileUrl)),
                           e.thumbnails[0], e.published))
  }

  /** Each step of one entry, in the order `run` takes them: an id that does
      not split, a download that raises, a chosen format missing from the
      format table and an entry without a thumbnail each end the entry with
      its own error; otherwise the item is built. Its id and enclosure url are
      `root` resolved against `<video id>.<ext>`, the enclosure has length 0
      and the guessed mime type, the image is the first thumbnail, and the
      other fields are copied. */
  lemma EntryItemMeaning(e: Entry, root: string, env: Env)
    ensures VideoId(e.id).Err? ==> EntryItem(e, root, env) == Err(VideoId(e.id).error)
    ensures VideoId(e.id).Ok? ==>
              var v := VideoId(e.id).value;
              var d := env.download(VideoUrl(v));
              var r := EntryItem(e, root, env);
              && (d.None? ==> r == Err(DownloadFailed(VideoUrl(v))))
              && (d.Some? && Extension(d.value).Err? ==> r == Err(NoMatchingFormat(d.value.formatId)))
              && (d.Some? && Extension(d.value).Ok? && |e.thumbnails| == 0 ==> r == Err(NoThumbnail(v)))
              && (r.Ok? <==> d.Some? && Extension(d.value).Ok? && |e.thumbnails| > 0)
              && (r.Ok? ==>
                    && r.value.id == env.urljoin(root, v + "." + Extension(d.value).value)
                    && r.value.enclosure == Enclosure(r.value.id, 0, env.guessType(r.value.id))
                    && r.value.image == e.thumbnails[0]
                    && r.value.title == e.title && r.value.summary == e.summary
                    && r.value.published == e.published && r.value.links == e.links)
  {
  }

  /** An entry whose video id is `v` and whose chosen format is in the format
      table becomes an output entry whose id is `root` resolved against
      `<v>.<ext>`, with the extension of the first matching format. */
  lemma ItemOfEntry(e: Entry, root: string, env: Env, v: string, info: Info, k: nat)
    requires VideoId(e.id) == Ok(v)
    requires env.download(VideoUrl(v)) == Some(info)
    requires k < |info.formats| && info.formats[k].formatId == info.formatId
    requires forall j :: 0 <= j < k ==> info.formats[j].formatId != info.formatId
    requires |e.thumbnails| > 0
    ensures EntryItem(e, root, env).Ok?
    ensures EntryItem(e, root, env).value.id == env.urljoin(root, v + "." + info.formats[k].ext)
  {
    ExtensionMeaning(info);
  }

  /** The same for the entry ids the channel feed carries, "yt:video:<v>". */
  lemma ItemOfChannelEntry(e: Entry, root: string, env: Env, v: string, info: Info, k: nat)
    requires ':' !in v && e.id == "yt:video:" + v
    requires env.download(VideoUrl(v)) == Some(info)
    requires k < |info.formats| && info.formats[k].formatId == info.formatId
    requires forall j :: 0 <= j < k ==> info.formats[j].formatId != info.formatId
    requires |e.thumbnails| > 0
    ensures EntryItem(e, root, env).Ok?
    ensures EntryItem(e, root, env).value.id == env.urljoin(root, v + "." + info.formats[k].ext)
  {
    VideoIdOfChannelEntry(v);
    ItemOfEntry(e, root, env, v, info, k);
  }

  // ---------------------------------------------------------------------
  // The whole window
  // ---------------------------------------------------------------------

  /** The outcome of running the window loop: the ids handed to the downloader
      (`youtube_identifiers`), the output entries built, and the error that
      stopped the loop, if any. */
  datatype Pass = Pass(handed: seq<string>, items: seq<OutputEntry>, failure: Option<Error>)

  /** The window loop as a whole. The items are those of the entries before
      the first failing one, in feed order; an entry that fails after its id
      was split has still been handed to the downloader. */
  function WindowPass(w: seq<Entry>, root: string, env: Env): Pass
  {
    if w == [] then Pass([], [], None)
    else
      match VideoId(w[0].id)
      case Err(x) => Pass([], [], Some(x))
      case Ok(videoId) =>
        match EntryItem(w[0], root, env)
        case Err(x) => Pass([videoId], [], Some(x))
        case Ok(item) =>
          var rest := WindowPass(w[1..], root, env);
          Pass([videoId] + rest.handed, [item] + rest.items, rest.failure)
  }

  /** The items of a pass are those of the entries before the first failing
      one, in feed order, and the failure is that entry's error. */
  lemma {:induction false} WindowPassItems(w: seq<Entry>, root: string, env: Env, p: Pass)
    requires p == WindowPass(w, root, env)
    ensures |p.items| <= |w|
    ensures forall i :: 0 <= i < |p.items| ==> EntryItem(w[i], root, env) == Ok(p.items[i])
    ensures p.failure.None? <==> |p.items| == |w|
    ensures p.failure.Some? ==> EntryItem(w[|p.items|], root, env) == Err(p.failure.value)
  {
    if w != [] && EntryItem(w[0], root, env).Ok? {
      var rest := WindowPass(w[1..], root, env);
      WindowPassItems(w[1..], root, env, rest);
      assert p.items == [EntryItem(w[0], root, env).value] + rest.items && p.failure == rest.failure;
      forall i | 1 <= i < |p.items|
        ensures EntryItem(w[i], root, env) == Ok(p.items[i])
      {
        assert w[i] == w[1..][i - 1];
      }
      if |p.items| < |w| {
        assert w[|p.items|] == w[1..][|rest.items|];
      }
    }
  }

  /** The downloader is handed one id per built entry, and one more when the
      failing entry's id split. */
  lemma {:induction false} WindowPassHandedCount(w: seq<Entry>, root: string, env: Env, p: Pass)
    requires p == WindowPass(w, root, env)
    ensures |p.items| <= |w| && (p.failure.Some? ==> |p.items| < |w|)
    ensures |p.handed| == |p.items| || |p.handed| == |p.items| + 1
    ensures |p.handed| == |p.items| + 1 <==> (p.failure.Some? && VideoId(w[|p.items|].id).Ok?)
    ensures |p.handed| <= |w|
  {
    if w != [] && VideoId(w[0].id).Ok? && EntryItem(w[0], root, env).Ok? {
      var rest := WindowPass(w[1..], root, env);
      WindowPassHandedCount(w[1..], root, env, rest);
      assert |p.handed| == 1 + |rest.handed| && |p.items| == 1 + |rest.items| && p.failure == rest.failure;
      if p.failure.Some? {
        assert w[|p.items|] == w[1..][|rest.items|];
      }
    }
  }

  /** The ids handed to the downloader are the video ids of the entries
      reached, in feed order. */
  lemma {:induction false} WindowPassHanded(w: seq<Entry>, root: string, env: Env, p: Pass)
    requires p == WindowPass(w, root, env)
    ensures |p.handed| <= |w|
    ensures forall i :: 0 <= i < |p.handed| ==> VideoId(w[i].id) == Ok(p.handed[i])
  {
    if w != [] && VideoId(w[0].id).Ok? && EntryItem(w[0], root, env).Ok? {
      var rest := WindowPass(w[1..], root, env);
      WindowPassHanded(w[1..], root, env, rest);
      assert p.handed == [VideoId(w[0].id).value] + rest.handed;
      forall i | 1 <= i < |p.handed|
        ensures VideoId(w[i].id) == Ok(p.handed[i])
      {
        assert w[i] == w[1..][i - 1];
      }
    }
  }

  /** What the window loop achieves. The items are those of the entries
      before the first failing one, in feed order, so a complete pass has one
      item per windowed entry; the ids handed to the downloader are the video
      ids of the entries reached, including a failing entry whose id split. */
  lemma WindowPassMeaning(w: seq<Entry>, root: string, env: Env, p: Pass)
    requires p == WindowPass(w, root, env)
    ensures |p.items| <= |w|
    ensures forall i :: 0 <= i < |p.items| ==> EntryItem(w[i], root, env) == Ok(p.items[i])
    ensures p.failure.None? <==> |p.items| == |w|
    ensures p.failure.Some? ==> EntryItem(w[|p.items|], root, env) == Err(p.failure.value)
    ensures |p.handed| == |p.items| || |p.handed| == |p.items| + 1
    ensures |p.handed| == |p.items| + 1 <==> (p.failure.Some? && VideoId(w[|p.items|].id).Ok?)
    ensures |p.handed| <= |w|
    ensures forall i :: 0 <= i < |p.handed| ==> VideoId(w[i].id) == Ok(p.handed[i])
  {
    WindowPassItems(w, root, env, p);
    WindowPassHandedCount(w, root, env, p);
    WindowPassHanded(w, root, env, p);
  }

  /** When every entry before `k` builds and entry `k` does not, the pass
      stops at `k` with that entry's error: for instance a chosen format
      missing from the format table, by `EntryItemMeaning`. */
  lemma FirstFailureStops(w: seq<Entry>, root: string, env: Env, k: nat)
    requires k < |w|
    requires forall i :: 0 <= i < k ==> EntryItem(w[i], root, env).Ok?
    requires EntryItem(w[k], root, env).Err?
    ensures |WindowPass(w, root, env).items| == k
    ensures WindowPass(w, root, env).failure == Some(EntryItem(w[k], root, env).error)
  {
    var p := WindowPass(w, root, env);
    WindowPassMeaning(w, root, env, p);
  }

  /** The items and the failure alone are determined by the entries that
      build and the first that does not. */
  lemma {:induction false} PassItemsOfFacts(w: seq<Entry>, root: string, env: Env,
                                            items: seq<OutputEntry>, failure: Option<Error>)
    requires |items| <= |w|
    requires forall i :: 0 <= i < |items| ==> EntryItem(w[i], root, env) == Ok(items[i])
    requires failure.None? <==> |items| == |w|
    requires failure.Some? ==> EntryItem(w[|items|], root, env) == Err(failure.value)
    ensures WindowPass(w, root, env).items == items
    ensures WindowPass(w, root, env).failure == failure
  {
    if w != [] && items != [] {
      forall i | 0 <= i < |items| - 1
        ensures EntryItem(w[1..][i], root, env) == Ok(items[1..][i])
      {
        assert w[1..][i] == w[i + 1];
      }
      assert w[1..][|items| - 1..] == w[|items|..];
      PassItemsOfFacts(w[1..], root, env, items[1..], failure);
      assert EntryItem(w[0], root, env) == Ok(items[0]);
      assert [items[0]] + items[1..] == items;
    }
  }

  /** The converse: those facts determine the pass, so any loop that
      establishes them has computed `WindowPass`. */
  lemma PassOfFacts(w: seq<Entry>, root: string, env: Env,
                    ids: seq<string>, items: seq<OutputEntry>, failure: Option<Error>)
    requires |items| <= |w|
    requires forall i :: 0 <= i < |items| ==> EntryItem(w[i], root, env) == Ok(items[i])
    requires failure.None? <==> |items| == |w|
    requires failure.Some? ==> EntryItem(w[|items|], root, env) == Err(failure.value)
    requires |ids| == |items| || |ids| == |items| + 1
    requires |ids| == |items| + 1 <==> (failure.Some? && VideoId(w[|items|].id).Ok?)
    requires |ids| <= |w|
    requires forall i :: 0 <= i < |ids| ==> VideoId(w[i].id) == Ok(ids[i])
    ensures WindowPass(w, root, env) == Pass(ids, items, failure)
  {
    var p := WindowPass(w, root, env);
    PassItemsOfFacts(w, root, env, items, failure);
    WindowPassHandedCount(w, root, env, p);
    WindowPassHanded(w, root, env, p);
    assert |p.handed| == |ids|;
    assert forall i :: 0 <= i < |ids| ==> p.handed[i] == ids[i];
  }

  /** A pass over the window that completes has one item per windowed entry,
      `min(limit, |entries|)` of them for a non-negative limit, in feed order,
      and has handed every windowed entry's video id to the downloader. */
  lemma CompletePass(entries: seq<Entry>, limit: int, root: string, env: Env)
    requires WindowPass(Window(entries, limit), root, env).failure.None?
    ensures var p := WindowPass(Window(entries, limit), root, env);
            && |p.items| == |p.handed| == |Window(entries, limit)|
            && (limit >= 0 ==> |p.items| == (if limit < |entries| then limit else |entries|))
            && (forall i :: 0 <= i < |p.items| ==> EntryItem(entries[i], root, env) == Ok(p.items[i]))
            && (forall i :: 0 <= i < |p.handed| ==> VideoId(entries[i].id) == Ok(p.handed[i]))
  {
    var w := Window(entries, limit);
    WindowPassMeaning(w, root, env, WindowPass(w, root, env));
    assert forall i :: 0 <= i < |w| ==> w[i] == entries[i];
  }

  /** The pass over the whole window, seen from entry `i` on: the ids and
      items gathered before `i`, followed by the pass over the rest. */
  function Resumed(ids: seq<string>, items: seq<OutputEntry>, rest: Pass): Pass
  {
    Pass(ids + rest.handed, items + rest.items, rest.failure)
  }

  /** An entry whose id does not split ends the pass there, with nothing
      more handed out. `pass` is the pass over the whole window. */
  lemma ResumeBadId(w: seq<Entry>, root: string, env: Env, i: nat,
                    ids: seq<string>, items: seq<OutputEntry>, pass: Pass)
    requires i < |w| && pass == Resumed(ids, items, WindowPass(w[i..], root, env))
    requires VideoId(w[i].id).Err?
    ensures pass == Pass(ids, items, Some(VideoId(w[i].id).error))
  {
    assert w[i..][0] == w[i];
    assert ids + [] == ids && items + [] == items;
  }

  /** An entry whose id splits but whose item cannot be built ends the pass
      there, its id having been handed out. */
  lemma ResumeFailed(w: seq<Entry>, root: string, env: Env, i: nat,
                     ids: seq<string>, items: seq<OutputEntry>, pass: Pass, videoId: string, x: Error)
    requires i < |w| && pass == Resumed(ids, items, WindowPass(w[i..], root, env))
    requires VideoId(w[i].id) == Ok(videoId) && EntryItem(w[i], root, env) == Err(x)
    ensures pass == Pass(ids + [videoId], items, Some(x))
  {
    assert w[i..][0] == w[i];
    assert items + [] == items;
  }

  /** An entry whose item is built moves the resumption point one entry on. */
  lemma ResumeBuilt(w: seq<Entry>, root: string, env: Env, i: nat,
                    ids: seq<string>, items: seq<OutputEntry>, pass: Pass, videoId: string, item: OutputEntry)
    requires i < |w| && pass == Resumed(ids, items, WindowPass(w[i..], root, env))
    requires VideoId(w[i].id) == Ok(videoId) && EntryItem(w[i], root, env) == Ok(item)
    ensures pass == Resumed(ids + [videoId], items + [item], WindowPass(w[i + 1..], root, env))
  {
    assert w[i..][0] == w[i] && w[i..][1..] == w[i + 1..];
    var rest := WindowPass(w[i + 1..], root, env);
    assert ids + ([videoId] + rest.handed) == (ids + [videoId]) + rest.handed;
    assert items + ([item] + rest.items) == (items + [item]) + rest.items;
  }

  /** The thumbnails of the built entries, in order. */
  function Images(items: seq<OutputEntry>): seq<string>
  {
    seq(|items|, i requires 0 <= i < |items| => items[i].image)
  }

  lemma ImagesSnoc(items: seq<OutputEntry>, item: OutputEntry)
    ensures Images(items + [item]) == Images(items) + [item.image]
  {
    assert forall i :: 0 <= i < |items| ==> (items + [item])[i] == items[i];
  }

  /** The channel icon `feed_icon` after the loop: `if not feed_icon` takes
      a thumbnail while the icon is None or empty, so the icon is the first
      non-empty thumbnail, "" when every thumbnail is empty, and None when
      no entry was processed. */
  function ChannelIcon(ts: seq<string>): (r: Option<string>)
    ensures r.None? <==> ts == []
    ensures r == Some("") ==> forall j :: 0 <= j < |ts| ==> ts[j] == ""
    ensures r.Some? && r.value != "" ==>
              exists k :: 0 <= k < |ts| && ts[k] == r.value && forall j :: 0 <= j < k ==> ts[j] == ""
  {
    if ts == [] then None
    else if ts[0] != "" then Some(ts[0])
    else
      var rest := ChannelIcon(ts[1..]);
      if rest.None? then Some("") else rest
  }

  /** One more thumbnail changes the icon only while it is None or empty. */
  lemma {:induction false} ChannelIconSnoc(ts: seq<string>, t: string)
    ensures ChannelIcon(ts + [t]) ==
            if ChannelIcon(ts).None? || ChannelIcon(ts) == Some("") then Some(t) else ChannelIcon(ts)
  {
    if ts != [] {
      assert (ts + [t])[1..] == ts[1..] + [t];
      ChannelIconSnoc(ts[1..], t);
    }
  }

  /** Once the icon is a non-empty thumbnail, later entries never change it. */
  lemma {:induction false} ChannelIconStable(ts: seq<string>, more: seq<string>)
    requires ChannelIcon(ts).Some? && ChannelIcon(ts).value != ""
    ensures ChannelIcon(ts + more) == ChannelIcon(ts)
  {
    assert ts != [];
    if ts[0] == "" {
      assert (ts + more)[1..] == ts[1..] + more;
      ChannelIconStable(ts[1..], more);
    } else {
      assert (ts + more)[0] == ts[0];
    }
  }

  /** The feed written to rss.xml: the channel header built from the
      metadata, the icon chosen by the loop, and the items in loop order. */
  function Published(meta: ChannelMeta, root: string, env: Env, items: seq<OutputEntry>): (r: Podcast)
    ensures r.id == meta.channelId && r.title == meta.title
    ensures r.authorName == meta.author && r.authorUri == meta.link
    ensures r.selfLink == env.urljoin(root, "rss.xml")
    ensures r.description == meta.title + " Youtube-as-Podcast"
    ensures r.entries == items
    ensures r.image.None? <==> items == []
    ensures r.image.Some? && r.image.value != "" ==>
              exists k :: 0 <= k < |items| && items[k].image == r.image.value
                          && forall j :: 0 <= j < k ==> items[j].image == ""
  {
    assert forall k :: 0 <= k < |items| ==> Images(items)[k] == items[k].image;
    Podcast(meta.channelId, meta.title, meta.author, meta.link,
            env.urljoin(root, "rss.xml"), meta.title + " Youtube-as-Podcast",
            ChannelIcon(Images(items)), items)
  }
}
