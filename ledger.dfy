/** The downloader's archive file `download_log` as `run` reads it when it
    prunes, and which files of the destination directory a ledger id names.
    The archive is a sequence of lines; the directory is a set of file names,
    and `glob('<id>.*')` is a match on the prefix `<id>.`. */
module Ledger {
  import opened Failures
  import Text

  /** What reading the archive yields: the ids of the lines read, in order,
      and the line that stopped the reading, if one did. */
  datatype Scan = Scan(ids: seq<string>, malformed: Option<string>)

  /** Blank lines are skipped; every other line gives its second
      whitespace-separated field as an id, and a line with a single field
      stops the reading with an IndexError. */
  function ScanLedger(lines: seq<string>): (r: Scan)
    ensures |r.ids| <= |lines|
  {
    if lines == [] then Scan([], None)
    else if Text.IsBlank(lines[0]) then ScanLedger(lines[1..])
    else
      var fields := Text.Fields(lines[0]);
      if |fields| < 2 then Scan([], Some(lines[0]))
      else
        var rest := ScanLedger(lines[1..]);
        Scan([fields[1]] + rest.ids, rest.malformed)
  }

  /** `id` is the second field of one of `lines`. */
  ghost predicate SecondFieldOf(lines: seq<string>, id: string)
  {
    exists l :: l in lines && |Text.Fields(l)| >= 2 && Text.Fields(l)[1] == id
  }

  /** Each id read is a token: whitespace-free and not empty. */
  lemma {:induction false} ScanLedgerTokens(lines: seq<string>, r: Scan)
    requires r == ScanLedger(lines)
    ensures forall j :: 0 <= j < |r.ids| ==> Text.IsToken(r.ids[j])
  {
    if lines != [] {
      var rest := ScanLedger(lines[1..]);
      ScanLedgerTokens(lines[1..], rest);
      if !Text.IsBlank(lines[0]) && |Text.Fields(lines[0])| >= 2 {
        assert r.ids == [Text.Fields(lines[0])[1]] + rest.ids;
      }
    }
  }

  /** Each id read is the second field of one of the lines. */
  lemma {:induction false} ScanLedgerOrigin(lines: seq<string>, r: Scan)
    requires r == ScanLedger(lines)
    ensures forall j :: 0 <= j < |r.ids| ==> SecondFieldOf(lines, r.ids[j])
  {
    if lines != [] {
      var rest := ScanLedger(lines[1..]);
      ScanLedgerOrigin(lines[1..], rest);
      if !Text.IsBlank(lines[0]) && |Text.Fields(lines[0])| >= 2 {
        assert r.ids == [Text.Fields(lines[0])[1]] + rest.ids;
        assert SecondFieldOf(lines, r.ids[0]) by {
          assert lines[0] in lines;
        }
        forall j | 1 <= j < |r.ids|
          ensures SecondFieldOf(lines, r.ids[j])
        {
          var l :| l in lines[1..] && |Text.Fields(l)| >= 2 && Text.Fields(l)[1] == rest.ids[j - 1];
          assert l in lines;
        }
      } else {
        forall j | 0 <= j < |r.ids|
          ensures SecondFieldOf(lines, r.ids[j])
        {
          var l :| l in lines[1..] && |Text.Fields(l)| >= 2 && Text.Fields(l)[1] == rest.ids[j];
          assert l in lines;
        }
      }
    }
  }

  /** A line that stops the reading is one of the lines and has exactly one
      field. */
  lemma {:induction false} ScanLedgerStop(lines: seq<string>, r: Scan)
    requires r == ScanLedger(lines)
    ensures r.malformed.Some? ==> r.malformed.value in lines && |Text.Fields(r.malformed.value)| == 1
  {
    if lines != [] {
      var rest := ScanLedger(lines[1..]);
      ScanLedgerStop(lines[1..], rest);
      assert forall l :: l in lines[1..] ==> l in lines;
    }
  }

  /** Where the ids come from: each is a token that is the second field of
      one of the lines, and a line that stops the reading is one of the lines
      and has exactly one field. */
  lemma ScanLedgerMeaning(lines: seq<string>, r: Scan)
    requires r == ScanLedger(lines)
    ensures forall j :: 0 <= j < |r.ids| ==> Text.IsToken(r.ids[j]) && SecondFieldOf(lines, r.ids[j])
    ensures r.malformed.Some? ==> r.malformed.value in lines && |Text.Fields(r.malformed.value)| == 1
  {
    ScanLedgerTokens(lines, r);
    ScanLedgerOrigin(lines, r);
    ScanLedgerStop(lines, r);
  }

  /** The reading of the whole archive, seen from line `i` on: the ids read
      before `i`, followed by the reading of the rest. */
  function ScanFrom(seen: seq<string>, rest: Scan): Scan
  {
    Scan(seen + rest.ids, rest.malformed)
  }

  /** A single line: blank, it gives nothing; with one field, it stops the
      reading; otherwise it gives its second field. */
  lemma ScanLedgerLine(line: string)
    ensures Text.IsBlank(line) ==> ScanLedger([line]) == Scan([], None)
    ensures !Text.IsBlank(line) && |Text.Fields(line)| < 2 ==> ScanLedger([line]) == Scan([], Some(line))
    ensures !Text.IsBlank(line) && |Text.Fields(line)| >= 2 ==>
              ScanLedger([line]) == Scan([Text.Fields(line)[1]], None)
  {
    assert [line][1..] == [];
  }

  /** Reading two stretches of the archive one after the other: the reading
      of the first, and, unless a line of the first stopped it, the ids of
      the second after those of the first. So the ids come out in line order,
      and every line before the stop contributes. */
  lemma {:induction false} ScanLedgerConcat(a: seq<string>, b: seq<string>)
    ensures ScanLedger(a + b) ==
            if ScanLedger(a).malformed.Some? then ScanLedger(a)
            else ScanFrom(ScanLedger(a).ids, ScanLedger(b))
  {
    if a == [] {
      assert a + b == b;
      assert [] + ScanLedger(b).ids == ScanLedger(b).ids;
    } else {
      assert (a + b)[0] == a[0] && (a + b)[1..] == a[1..] + b;
      ScanLedgerConcat(a[1..], b);
      if !Text.IsBlank(a[0]) && |Text.Fields(a[0])| >= 2 {
        var id := Text.Fields(a[0])[1];
        var rest := ScanLedger(a[1..]);
        assert [id] + (rest.ids + ScanLedger(b).ids) == ([id] + rest.ids) + ScanLedger(b).ids;
      }
    }
  }

  /** A line with two or more fields that no earlier line stopped is read:
      its second field is the next id after those of the lines before it. */
  lemma ScanLedgerReads(a: seq<string>, line: string, b: seq<string>)
    requires ScanLedger(a).malformed.None?
    requires !Text.IsBlank(line) && |Text.Fields(line)| >= 2
    ensures |ScanLedger(a + [line] + b).ids| > |ScanLedger(a).ids|
    ensures ScanLedger(a + [line] + b).ids[..|ScanLedger(a).ids|] == ScanLedger(a).ids
    ensures ScanLedger(a + [line] + b).ids[|ScanLedger(a).ids|] == Text.Fields(line)[1]
  {
    ScanLedgerConcat(a, [line] + b);
    assert a + [line] + b == a + ([line] + b);
    ScanLedgerConcat([line], b);
    ScanLedgerLine(line);
    var ids := ScanLedger(a).ids;
    assert ScanLedger(a + [line] + b).ids == ids + ([Text.Fields(line)[1]] + ScanLedger(b).ids);
    assert (ids + ([Text.Fields(line)[1]] + ScanLedger(b).ids))[..|ids|] == ids;
  }

  /** A blank line is skipped. `scan` is the reading of the whole archive. */
  lemma ScanBlank(lines: seq<string>, i: nat, seen: seq<string>, scan: Scan)
    requires i < |lines| && scan == ScanFrom(seen, ScanLedger(lines[i..]))
    requires Text.IsBlank(lines[i])
    ensures scan == ScanFrom(seen, ScanLedger(lines[i + 1..]))
  {
    assert lines[i..][0] == lines[i] && lines[i..][1..] == lines[i + 1..];
  }

  /** A non-blank line with a single field stops the reading. */
  lemma ScanShort(lines: seq<string>, i: nat, seen: seq<string>, scan: Scan)
    requires i < |lines| && scan == ScanFrom(seen, ScanLedger(lines[i..]))
    requires !Text.IsBlank(lines[i]) && |Text.Fields(lines[i])| < 2
    ensures scan == Scan(seen, Some(lines[i]))
  {
    assert lines[i..][0] == lines[i];
    assert seen + [] == seen;
  }

  /** Any other line contributes its second field. */
  lemma ScanId(lines: seq<string>, i: nat, seen: seq<string>, scan: Scan)
    requires i < |lines| && scan == ScanFrom(seen, ScanLedger(lines[i..]))
    requires !Text.IsBlank(lines[i]) && |Text.Fields(lines[i])| >= 2
    ensures scan == ScanFrom(seen + [Text.Fields(lines[i])[1]], ScanLedger(lines[i + 1..]))
  {
    assert lines[i..][0] == lines[i] && lines[i..][1..] == lines[i + 1..];
    var id := Text.Fields(lines[i])[1];
    var rest := ScanLedger(lines[i + 1..]);
    assert seen + ([id] + rest.ids) == (seen + [id]) + rest.ids;
  }

  /** The line the downloader appends to its archive for a video:
      "<extractor> <id>" and a line feed. */
  function ArchiveLine(extractor: string, videoId: string): string
  {
    extractor + " " + videoId + "\n"
  }

  function ArchiveLines(extractor: string, ids: seq<string>): seq<string>
  {
    seq(|ids|, i requires 0 <= i < |ids| => ArchiveLine(extractor, ids[i]))
  }

  /** The fields of an archive line are the extractor and the video id. */
  lemma ArchiveLineFields(extractor: string, videoId: string)
    requires Text.IsToken(extractor) && Text.IsToken(videoId)
    ensures Text.Fields(ArchiveLine(extractor, videoId)) == [extractor, videoId]
  {
    var tail := videoId + "\n";
    assert ArchiveLine(extractor, videoId) == extractor + [' '] + tail;
    Text.FieldsAfterToken(extractor, ' ', tail);
    Text.SpaceFields(' ', tail);
    assert tail == videoId + ['\n'] + "";
    Text.FieldsAfterToken(videoId, '\n', "");
    assert ['\n'] + "" == "\n";
    Text.SpaceFields('\n', "");
  }

  /** Reading back an archive the downloader wrote yields its ids, in order. */
  lemma {:induction false} ScanArchive(extractor: string, ids: seq<string>)
    requires Text.IsToken(extractor)
    requires forall i :: 0 <= i < |ids| ==> Text.IsToken(ids[i])
    ensures ScanLedger(ArchiveLines(extractor, ids)) == Scan(ids, None)
  {
    var lines := ArchiveLines(extractor, ids);
    if ids != [] {
      ArchiveLineFields(extractor, ids[0]);
      assert !Text.IsBlank(lines[0]);
      assert lines[1..] == ArchiveLines(extractor, ids[1..]);
      ScanArchive(extractor, ids[1..]);
      assert [ids[0]] + ids[1..] == ids;
    }
  }

  /** `name` matches the pattern `<id>.*`. */
  predicate Matches(name: string, id: string)
  {
    |name| > |id| && name[..|id| + 1] == id + "."
  }

  /** The files `glob('<id>.*')` lists. */
  function Matching(files: set<string>, id: string): set<string>
  {
    set f | f in files && Matches(f, id)
  }

  /** The files prune deletes: those matching some ledger id that is not in
      the window's `kept` ids. */
  function Condemned(files: set<string>, ids: seq<string>, kept: seq<string>): set<string>
  {
    set f | f in files && exists j :: 0 <= j < |ids| && ids[j] !in kept && Matches(f, ids[j])
  }

  /** A dot-free id names only the files of its own dot-free id. */
  lemma DotFreeMatch(name: string, id: string, owner: string, ext: string)
    requires '.' !in id && '.' !in owner
    requires name == owner + "." + ext
    requires Matches(name, id)
    ensures id == owner
  {
    // the first dot of `name` is where `id` ends and also where `owner` ends
    assert name[|id|] == (id + ".")[|id|] == '.';
    assert forall i :: 0 <= i < |id| ==> name[i] == id[i] != '.';
    assert name[|owner|] == '.';
    assert forall i :: 0 <= i < |owner| ==> name[i] == owner[i] != '.';
    assert name[..|id|] == id && name[..|owner|] == owner;
  }

  /** With dot-free ids (as video ids are), the file `<v>.<ext>` is deleted
      exactly when `v` is a ledger id outside the window: files of window
      ids survive, and so do files of ids the ledger does not mention. */
  lemma CondemnedFile(files: set<string>, ids: seq<string>, kept: seq<string>, v: string, ext: string)
    requires forall j :: 0 <= j < |ids| ==> '.' !in ids[j]
    requires '.' !in v
    requires v + "." + ext in files
    ensures v + "." + ext in Condemned(files, ids, kept) <==> v in ids && v !in kept
  {
    var name := v + "." + ext;
    if name in Condemned(files, ids, kept) {
      var j :| 0 <= j < |ids| && ids[j] !in kept && Matches(name, ids[j]);
      DotFreeMatch(name, ids[j], v, ext);
    }
    if v in ids && v !in kept {
      var j :| 0 <= j < |ids| && ids[j] == v;
      assert name[..|v| + 1] == v + ".";
      assert Matches(name, ids[j]);
    }
  }

  /** Why the ids must be dot-free: the window's file "a.b.mp4" of kept id
      "a.b" is picked up by the pattern `a.*` of a pruned ledger id "a". */
  lemma DottedIdTakesKeptFile()
    ensures "a.b.mp4" in Condemned({"a.b.mp4"}, ["a"], ["a.b"])
  {
    var ids := ["a"];
    assert ids[0] !in ["a.b"];
    assert Matches("a.b.mp4", ids[0]) by {
      assert "a.b.mp4"[..2] == "a.";
    }
  }

  /** Reading one more id adds the files it matches among those still left. */
  lemma CondemnedSnoc(files: set<string>, ids: seq<string>, kept: seq<string>, id: string)
    ensures id in kept ==> Condemned(files, ids + [id], kept) == Condemned(files, ids, kept)
    ensures id !in kept ==>
              Condemned(files, ids + [id], kept)
              == Condemned(files, ids, kept) + Matching(files - Condemned(files, ids, kept), id)
  {
    var ids' := ids + [id];
    assert forall j :: 0 <= j < |ids| ==> ids'[j] == ids[j];
    assert ids'[|ids|] == id;
  }
}
