# ytpod: `run` as a verified model

ytpod turns a YouTube channel's feed into a podcast. Its one command, `run`,
works through these steps:

- It checks the parsed channel feed.
- It takes the first `limit` entries (the window).
- For each windowed entry, it splits the video id out of the entry id, has the
  downloader fetch the video, looks up the downloaded file's extension in the
  downloader's format table, and builds one podcast item.
- It keeps the first non-empty thumbnail as the channel icon.
- It writes `rss.xml`.
- It prunes the destination directory. It replays the downloader's archive
  `download_log` and deletes the files `<id>.*` of every archived id that is
  not in the window.

The model has five modules:

- `Failures` (errors.dfy): the ways a run stops early. `Fail` is the program's
  `fail` abort. The other variants are the exceptions that escape `run`.
- `Text` (text.dfy): `str.split(':')` with its inverse `Join`, and
  `str.split()` / `str.strip()` over the whitespace set of Python 2 byte
  strings (space, tab, line feed, carriage return, vertical tab, form feed).
  Python 2 is the language the code is written for: ytpod.py imports
  `urlparse`, a module only Python 2 has. setup.py declares
  `python_requires=">=3.8"`, but under Python 3 the import fails, and Python
  3's `str.split()` would also split on further Unicode whitespace.
- `Feed` (feed.dfy): the parsed feed, the three feed checks and the window.
  It also describes one entry becoming one item (`EntryItem`), the whole
  window loop (`WindowPass`) and the channel icon (`ChannelIcon`).
- `Ledger` (ledger.dfy): reading the archive (`ScanLedger`), the glob
  `<id>.*` as a prefix match, and the set of files pruning deletes
  (`Condemned`).
- `Ytpod` (run.dfy): the destination directory. It is a class with these
  fields:
  - its file names, updated in place by `run`;
  - the content of `rss.xml`, written by `run` and cleared when pruning
    deletes the file;
  - an ordered log of the visible actions (downloader calls, the feed write
    and file removals), extended by `run`;
  - its archive, which `run` only reads. It stands for the lines of
    `download_log` as pruning opens it.

  Its methods are the three loops of `run`, each proved against the
  functions above: `DownloadWindow` over the window (ytpod.py:63),
  `PruneLines` over the archive lines (ytpod.py:93) and `RemoveMatching` over
  the glob listing (ytpod.py:97). `Run` itself is the fourth method.

The collaborators are fields of an `Env` value:

- the downloader, returning `None` where it raises;
- `mimetypes.guess_type`;
- `urlparse.urljoin`.

## What `run` does

These facts about ytpod.py shape the model:

- Every windowed entry the loop reaches is handed to youtube_dl, even one
  downloaded in an earlier run. youtube_dl's `download_archive` decides
  whether it downloads the video again.
- The loop stops at the first entry that fails, so no entry after it is
  handed to youtube_dl.
- The icon test is `if not feed_icon` (ytpod.py:82). An empty thumbnail
  therefore counts as unset: the icon is the first non-empty thumbnail, not
  necessarily the first entry's.
- A negative `limit` counts back from the end, following Python slice rules.
- `glob('<id>.*')` matches file names that start with `<id>.`. A kept video's
  files can therefore be deleted by a pruned id that, followed by a dot,
  begins the kept id. `Ledger.DottedIdTakesKeptFile` shows a
  pruned id `a` deleting the kept file `a.b.mp4`. For ids without a dot, as
  YouTube video ids are, `Ledger.CondemnedFile` shows that a window id's
  files are never deleted.
- The glob also sees the `rss.xml` that `run` has just written. An archived
  id `rss` outside the window therefore deletes the feed
  (`Ytpod.ArchivedRssTakesFeed`), and the model's feed file is then gone.

## Model

| member | source | states |
|---|---|---|
| Feed.CheckFeed | ytpod.py:31-39 | The run goes on iff the feed parsed, has at least one entry and has metadata. Otherwise it fails with the first failing check's exact message. |
| Feed.Window | ytpod.py:63 | `entries[0:limit]` is a prefix of the entries. Its length is `min(limit, n)` for a non-negative limit and `max(n + limit, 0)` for a negative one. |
| Text.Split | ytpod.py:64 | `split(sep)` gives at least one piece, and no piece contains the separator. |
| Text.JoinSplit | ytpod.py:64 | Joining the pieces of a split with the separator gives back the string. |
| Text.SplitJoin | ytpod.py:64 | Splitting a join of at least one separator-free piece gives back the pieces. |
| Text.SplitAfterPiece | ytpod.py:64 | A separator-free piece followed by the separator splits off as the first piece. |
| Text.SplitPiece | ytpod.py:64 | A separator-free string splits into itself. |
| Feed.VideoId | ytpod.py:64 | The video id exists iff the entry id has at least three ':'-fields. The id then contains no ':'. |
| Feed.VideoIdOfFields | ytpod.py:64 | Joining ':'-free fields and taking the video id gives the third field, or `MalformedEntryId` when there are fewer than three fields. |
| Feed.VideoIdOfChannelEntry | ytpod.py:64 | The entry id `yt:video:<v>` gives back the video id `v`. |
| Feed.VideoUrlMeaning | ytpod.py:66 | `VideoUrl`: the downloader url is the watch-page prefix `https://www.youtube.com/watch?v=` followed by exactly the video id. |
| Feed.VideoUrlInjective | ytpod.py:66 | Different video ids give different downloader urls. |
| Feed.FormatIndex | ytpod.py:70-72 | Returns the index of the first format whose id is the chosen one, or None iff no format has that id. |
| Feed.ExtensionMeaning | ytpod.py:70-72 | `Extension`: the extension is the `ext` of the first format with the chosen id. When no format has that id, the result is the StopIteration error `NoMatchingFormat`. |
| Feed.EntryItemMeaning | ytpod.py:64-85 | `EntryItem`, one loop body on values: each step of one entry, in order, and its error: an id that does not split is `MalformedEntryId`, a download that raises is `DownloadFailed`, a format missing from the table is `NoMatchingFormat`, no thumbnail is `NoThumbnail`. The item is built iff none of these happens. Then its id is `urljoin(root, v + '.' + ext)`, its enclosure is that url with length 0 and the guessed mime type, its image is the first thumbnail, and links, title, summary and published are copied. |
| Feed.ItemOfEntry | ytpod.py:64-80 | For any entry whose video id is `v` and whose chosen format is listed, the item is built and its id is `urljoin(root, v + "." + ext)` with the first match's extension. |
| Feed.ItemOfChannelEntry | ytpod.py:64-80 | The same for the channel's entry ids `yt:video:<v>`. |
| Feed.WindowPassItems | ytpod.py:63-85 | The items are those of the entries before the first failing one, in feed order. There is no failure iff every entry built. Otherwise the failure is the first failing entry's error. |
| Feed.WindowPassHandedCount | ytpod.py:63-85 | One id is handed out per built entry, plus one more exactly when the failing entry's id split. |
| Feed.WindowPassHanded | ytpod.py:63-85 | The ids handed out are the video ids of the first entries, in feed order. |
| Feed.WindowPassMeaning | ytpod.py:63-85 | `WindowPass`, the window loop on values: items come from the entries before the first failing one, in feed order. The pass is complete iff there is one item per entry. A failure is the error of the first failing entry. The ids handed out are the video ids of the entries reached, including a failing entry whose id split. |
| Feed.FirstFailureStops | ytpod.py:63-85 | If every entry before `k` builds and entry `k` fails (for instance with `NoMatchingFormat`), the pass stops after `k` items, with entry `k`'s error. |
| Feed.PassItemsOfFacts | ytpod.py:63-85 | The built entries and the first failing entry fix the items and the failure of the pass. |
| Feed.PassOfFacts | ytpod.py:63-85 | Conversely, those facts determine the pass uniquely. |
| Feed.CompletePass | ytpod.py:63-85 | A complete pass has one item and one handed id per windowed entry: `min(limit, n)` of each for a non-negative limit, in feed order. |
| Feed.ResumeBadId | ytpod.py:64 | An entry id that does not split ends the pass with nothing further handed out. |
| Feed.ResumeFailed | ytpod.py:65-81 | An entry that fails after its id split ends the pass with its id handed out. |
| Feed.ResumeBuilt | ytpod.py:63-85 | A built entry moves the loop position on by one, keeping its id and item. |
| Feed.ImagesSnoc | ytpod.py:81 | One more item adds its image to the thumbnails. |
| Feed.ChannelIcon | ytpod.py:82-88 | The icon is None iff no entry was processed. It is "" only when every thumbnail is "". Otherwise it is the first non-empty thumbnail. |
| Feed.ChannelIconSnoc | ytpod.py:82-83 | A further thumbnail replaces the icon exactly while the icon is None or "". |
| Feed.ChannelIconStable | ytpod.py:82-83 | Once the icon is a non-empty thumbnail, later entries never change it. |
| Feed.Published | ytpod.py:44-51 | The feed header copies the channel id, title, author name and uri from the metadata. Its self link is `urljoin(root, 'rss.xml')` and its description is `<title> Youtube-as-Podcast`. Its entries are the items in loop order. Its icon is None iff there are no items; a non-empty icon is the image of an item preceded only by items with empty images. |
| Text.TokenEnd | ytpod.py:95 | The token length is the length of the leading run of non-whitespace characters. |
| Text.Fields | ytpod.py:94-95 | `split()` gives whitespace-free non-empty fields, and none exactly when `strip()` leaves the line empty. |
| Text.FieldsAfterToken | ytpod.py:95 | A token followed by whitespace is the first field. |
| Text.TokenFields | ytpod.py:95 | A lone token is its only field. |
| Text.TokenEndOfToken | ytpod.py:95 | The leading token run of a token followed by whitespace ends at the token's end. |
| Text.SpaceFields | ytpod.py:95 | Leading whitespace contributes no field. |
| Ledger.ScanLedger | ytpod.py:92-95 | Reading the archive yields at most one id per line. |
| Ledger.ScanLedgerTokens | ytpod.py:92-95 | Each id read is a non-empty, whitespace-free token. |
| Ledger.ScanLedgerOrigin | ytpod.py:92-95 | Each id read is the second field of one of the archive's lines. |
| Ledger.ScanLedgerStop | ytpod.py:92-95 | A line that stops the reading is one of the archive's lines and has exactly one field. |
| Ledger.ScanLedgerMeaning | ytpod.py:92-95 | Each id read is a token and the second field of one of the lines. A line that stops the reading is one of the lines and has exactly one field. |
| Ledger.ScanLedgerLine | ytpod.py:94-95 | On a single line: a blank line gives nothing, a one-field line stops the reading, any other line gives its second field. |
| Ledger.ScanLedgerConcat | ytpod.py:92-95 | Reading two stretches in turn: the ids of the second follow those of the first unless a line of the first stopped the reading. |
| Ledger.ScanLedgerReads | ytpod.py:93-95 | A line with two or more fields that no earlier line stopped is read: its second field is the next id after those of the lines before it. |
| Ledger.ScanBlank | ytpod.py:94 | A blank line is skipped. |
| Ledger.ScanShort | ytpod.py:95 | A non-blank single-field line stops the reading with that line. |
| Ledger.ScanId | ytpod.py:95 | Any other line contributes its second field. |
| Ledger.ArchiveLineFields | ytpod.py:95 | An archive line `<extractor> <id>\n` has the fields extractor and id. |
| Ledger.ScanArchive | ytpod.py:92-95 | Reading back an archive of such lines yields its ids in order, with no failure. |
| Ledger.DotFreeMatch | ytpod.py:97 | A dot-free id's pattern matches `<owner>.<ext>` of a dot-free owner only when id and owner are equal. |
| Ledger.CondemnedFile | ytpod.py:96-98 | `Condemned`, the files the prune loop deletes (the union of `Matching` over the archived ids outside the window): with dot-free ids, `<v>.<ext>` is deleted iff `v` is an archived id outside the window. So files of window ids stay, and so do files of ids the archive does not mention. |
| Ledger.DottedIdTakesKeptFile | ytpod.py:97 | A pruned id `a` deletes the file `a.b.mp4` of a kept id `a.b`. |
| Ledger.CondemnedSnoc | ytpod.py:96-98 | Reading one more id outside the window adds the files it matches (`Matching`, the listing of `glob('<id>.*')`) among those left. An id in the window adds nothing. |
| Ytpod.Destination.PruneId | ytpod.py:96-98 | One archived id: if the window did not keep it, its matching files are removed, each once. The files left and the removals so far are then those of `Condemned` with this id added. The feed file is cleared iff this step deleted `rss.xml`. |
| Ytpod.DownloadsSnoc | ytpod.py:65-69 | `Downloads`, one downloader call per handed id in order: one more handed id adds one downloader call for its url. |
| Ytpod.RemovesConcat | ytpod.py:97-98 | Removal logs of disjoint file sets together remove the union, each file once. |
| Ytpod.Destination.FetchEntry | ytpod.py:64-85 | One loop body. It yields `EntryItem` of the entry. It calls the downloader for the video url exactly when the id split succeeds. |
| Ytpod.Destination.DownloadWindow | ytpod.py:63-85 | The loop computes `WindowPass`: the handed ids, the items and the failure. Its icon is `ChannelIcon` of the items' thumbnails, and its log gains one downloader call per handed id, in order. |
| Ytpod.Destination.RemoveMatching | ytpod.py:97-98 | Deletes exactly the files matching `<id>.*`, each once, and logs the removals. The feed file is cleared iff `rss.xml` was among them. |
| Ytpod.ArchivedRssTakesFeed | ytpod.py:89-98 | An archived id `rss` outside the window condemns the `rss.xml` just written. |
| Ytpod.Destination.Prune | ytpod.py:92-98 | A missing archive is `MissingLedger` and changes nothing. Otherwise the files left are those not in `Condemned`, each condemned file is removed exactly once, and a single-field line is the `ShortLedgerLine` failure. The feed file is cleared iff pruning deleted `rss.xml`. |
| Ytpod.Destination.PruneLines | ytpod.py:93-98 | The loop over the archive's lines leaves the files not in `Condemned` of the ids read. It removes each condemned file exactly once, stops with `ShortLedgerLine` at a single-field line, and clears the feed file iff it deleted `rss.xml`. |
| Ytpod.Destination.Run | ytpod.py:30-98 | A rejected feed changes nothing. Downloader calls come first, in window order. A failing entry stops the run before rss.xml is written or anything is pruned. A complete pass writes rss.xml with `Published` of the items and then prunes. Pruning then removes exactly the condemned files of the directory as written, each once. Afterwards the feed file holds that feed iff `rss.xml` is still in the directory. |

## Left out

- The command line (`click` arguments and options, ytpod.py:23-30): `url`, `root` and `limit` are parameters of `Run`. The destination is the `Destination` object. The `--format` option only reaches the downloader.
- Fetching and parsing the feed with `feedparser` (ytpod.py:31): the parsed feed is an input value.
- A feed or entry lacking one of the keys `run` reads (a KeyError): the records always carry every field.
- The `youtube_dl` download itself, its archive-skip behaviour and the files and archive lines it writes: the downloader is the function `Env.download`, modelled only by its result or by the fact that it raised. `Run` reads `download_log` as it stands when pruning opens it.
- `FeedGenerator`: the feed is the `Podcast` record. The model records each item's image, the argument of the `itunes_image` call at ytpod.py:84, and the channel icon of ytpod.py:88. That record describes ytpod.py's own calls, not the XML file feedgen writes. Two effects of feedgen are not modelled. First, the order in which `add_entry` places new entries in the written file, which may be the reverse of the loop order: `Published.entries == items` is the loop order. Second, any check `itunes_image` applies to its url, which may reject an empty thumbnail at ytpod.py:84 or an empty icon at ytpod.py:88 that the model accepts. Its XML serialisation is not modelled either.
- `mimetypes.guess_type` and `urlparse.urljoin` (RFC 3986 section 5.2 reference resolution): uninterpreted functions of `Env`. The file set gains the name `rss.xml` instead of the joined path.
- `fail`'s message printing and exit status: an abort is the returned `Error`.
- Real paths, `os.path.join` and glob metacharacters in ids: the directory is a set of names, and `glob('<id>.*')` is a match on the prefix `<id>.`.
- The order in which `glob` lists files: `RemoveMatching` removes them in an arbitrary order. Its contract fixes the set removed, not the order.
- Ytpod.Destination.Run: states the removed set for all ids. The guarantee that files of window ids survive is `Ledger.CondemnedFile`, which holds only for dot-free ids, because a dotted id can match another id's files (`Ledger.DottedIdTakesKeptFile`).
- Ledger.CondemnedFile: stated for dot-free ids only, for the same reason.
- Enclosure byte sizes: `run` passes the constant 0 (ytpod.py:80), and the model records that constant.
- setup.py is packaging metadata and is not part of this model.
