/** The Unix path of the library: parse `df` output into usage records,
    parse `mount` output line by line, join each mount line to its usage
    record, and keep the records without undefined properties. */
module UnixParser {
  import opened Wrappers
  import opened JsText
  import opened Drives

  /** The mount type reported for FUSE block devices (NTFS or exFAT sticks
      mounted through FUSE), taken as the mark of a USB drive. */
  const FuseBlk: string := "fuseblk"

  /** `text.split("\n")`: lines without a line feed which, joined with
      line feeds, give the text back. */
  function Lines(text: string): (r: seq<string>)
    ensures |r| >= 1 && JoinWith(r, "\n") == text
    ensures forall k :: 0 <= k < |r| ==> !Contains(r[k], "\n")
  {
    SplitOnPiecesAreFree(text, "\n");
    SplitOn(text, "\n")
  }

  // ---------------------------------------------------------------------
  // df

  /** One `df` line: its first six whitespace-separated tokens, in column
      order; a missing token leaves its field undefined and tokens after the
      sixth are ignored. Columns are positional, so a record with a path has
      every field. */
  function ParseDfLine(line: string): (r: DfRecord)
    ensures r.path.Some? <==> |Tokens(line, IsJsWhitespace)| >= 6
    ensures r.path.Some? ==> DfDefined(r)
  {
    var t := Tokens(line, IsJsWhitespace);
    DfRecord(At(t, 0), At(t, 1), At(t, 2), At(t, 3), At(t, 4), At(t, 5))
  }

  /** `parseDfDetails`: one record per line after the header line, in order. */
  function ParseDfDetails(text: string): (r: seq<DfRecord>)
    ensures |r| == |Lines(text)| - 1
    ensures forall k :: 0 <= k < |r| ==> r[k] == ParseDfLine(Lines(text)[k + 1])
    ensures WellShaped(r)
  {
    Map(Lines(text)[1..], ParseDfLine)
  }

  /** Every record that has a path has all its fields. */
  predicate WellShaped(dfs: seq<DfRecord>) {
    forall k :: 0 <= k < |dfs| && dfs[k].path.Some? ==> DfDefined(dfs[k])
  }

  /** The columns of a `df` line are its tokens in order, whatever
      whitespace character separates them. */
  lemma DfLineColumns(cols: seq<string>, c: char)
    requires IsJsWhitespace(c)
    requires forall k :: 0 <= k < |cols| ==> IsToken(cols[k], IsJsWhitespace)
    ensures ParseDfLine(JoinWith(cols, [c])) ==
      DfRecord(At(cols, 0), At(cols, 1), At(cols, 2), At(cols, 3), At(cols, 4), At(cols, 5))
  {
    TokensOfJoin(cols, c, IsJsWhitespace);
  }

  /** `df` output made of a header line and rows gives one record per row. */
  lemma DfDetailsOfRows(header: string, rows: seq<string>)
    requires '\n' !in header
    requires forall k :: 0 <= k < |rows| ==> '\n' !in rows[k]
    ensures ParseDfDetails(JoinWith([header] + rows, "\n")) == Map(rows, ParseDfLine)
  {
    var lines := [header] + rows;
    forall k | 0 <= k < |lines|
      ensures !Contains(lines[k], "\n")
    {
      if k == 0 {
        CharNotContained(header, "\n");
      } else {
        assert lines[k] == rows[k - 1];
        CharNotContained(rows[k - 1], "\n");
      }
    }
    SplitOnJoin(lines, "\n");
    assert lines[1..] == rows;
  }

  // ---------------------------------------------------------------------
  // join

  predicate Matches(r: DfRecord, fileSystem: Option<string>, path: Option<string>) {
    r.fileSystem == fileSystem && r.path == path
  }

  /** The index of the first record at or after k whose fileSystem and path
      equal the given ones (`===`, under which undefined equals undefined). */
  function FindDfIndex(dfs: seq<DfRecord>, fileSystem: Option<string>, path: Option<string>, k: nat): (r: Option<nat>)
    requires k <= |dfs|
    ensures r.Some? ==> k <= r.value < |dfs| && Matches(dfs[r.value], fileSystem, path)
    ensures r.Some? ==> forall j :: k <= j < r.value ==> !Matches(dfs[j], fileSystem, path)
    ensures r.None? ==> forall j :: k <= j < |dfs| ==> !Matches(dfs[j], fileSystem, path)
    decreases |dfs| - k
  {
    if k == |dfs| then None
    else if Matches(dfs[k], fileSystem, path) then Some(k)
    else FindDfIndex(dfs, fileSystem, path, k + 1)
  }

  /** `dfDetailsArray.find(...)`: the first matching record, if any. */
  function FindDf(dfs: seq<DfRecord>, fileSystem: Option<string>, path: Option<string>): (r: Option<DfRecord>)
    ensures r.Some? ==> r.value in dfs && Matches(r.value, fileSystem, path)
    ensures r.None? <==> forall j :: 0 <= j < |dfs| ==> !Matches(dfs[j], fileSystem, path)
  {
    match FindDfIndex(dfs, fileSystem, path, 0)
    case None => None
    case Some(i) => Some(dfs[i])
  }

  /** The record found is the first match in `df` order. */
  lemma FindDfIsFirst(dfs: seq<DfRecord>, fileSystem: Option<string>, path: Option<string>, i: nat)
    requires i < |dfs| && Matches(dfs[i], fileSystem, path)
    requires forall j :: 0 <= j < i ==> !Matches(dfs[j], fileSystem, path)
    ensures FindDf(dfs, fileSystem, path) == Some(dfs[i])
  {
  }

  // ---------------------------------------------------------------------
  // mount

  /** The drive name: the last `/`-separated segment of the path, or
      "Local Disk" when the path is missing or empty or the segment is empty. */
  function MountName(path: Option<string>): (r: string)
    ensures r != [] && '/' !in r
    ensures path.None? ==> r == LocalDisk
  {
    var segments := if path.Some? && path.value != [] then SplitOn(path.value, "/") else [];
    if |segments| > 0 && segments[|segments| - 1] != [] then
      var last := segments[|segments| - 1];
      assert '/' !in last by {
        SplitOnPiecesAreFree(path.value, "/");
        CharNotIn(last, '/');
      }
      last
    else
      assert '/' !in LocalDisk;
      LocalDisk
  }

  /** Whatever the path, the name is its segment after the last slash, and
      "Local Disk" when that segment is empty. */
  lemma MountNameIsLastSegment(prefix: string, segment: string)
    requires prefix == [] || prefix[|prefix| - 1] == '/'
    requires '/' !in segment
    ensures MountName(Some(prefix + segment)) == if segment == [] then LocalDisk else segment
  {
    var p := prefix + segment;
    CharNotContained(segment, "/");
    SplitOnWithout(segment, "/");
    if prefix != [] {
      var q := prefix[..|prefix| - 1];
      assert p == q + "/" + segment;
      SplitOnConcat(q, "/", segment);
    } else {
      assert p == segment;
    }
  }

  /** One `mount` line (`<device> on <path> type <type> (<options>)`):
      tokens 0, 2 and 4 are the file system, the path and the type; the
      first `df` record with the same file system and path is attached. */
  function ParseMountLine(line: string, dfs: seq<DfRecord>): (d: Drive)
    ensures d.UnixDrive?
    ensures d.usage.Some? ==> d.usage.value in dfs
    ensures d.usage.Some? ==> d.usage.value.fileSystem == d.fileSystem && d.usage.value.path == d.path
    ensures d.isUsb <==> d.fsType == Some(FuseBlk)
  {
    var t := Tokens(line, IsJsWhitespace);
    var fileSystem, path, fsType := At(t, 0), At(t, 2), At(t, 4);
    UnixDrive(fileSystem, path, MountName(path), fsType, fsType == Some(FuseBlk),
      FindDf(dfs, fileSystem, path))
  }

  function MountParser(dfs: seq<DfRecord>): string -> Drive {
    line => ParseMountLine(line, dfs)
  }

  /** The columns of a mount line are read by position, whatever
      whitespace character separates them. */
  lemma MountLineColumns(cols: seq<string>, c: char, dfs: seq<DfRecord>)
    requires IsJsWhitespace(c)
    requires forall k :: 0 <= k < |cols| ==> IsToken(cols[k], IsJsWhitespace)
    ensures var d := ParseMountLine(JoinWith(cols, [c]), dfs);
      && d.fileSystem == At(cols, 0) && d.path == At(cols, 2) && d.fsType == At(cols, 4)
      && d.name == MountName(At(cols, 2))
      && (d.isUsb <==> |cols| > 4 && cols[4] == FuseBlk)
      && d.usage == FindDf(dfs, At(cols, 0), At(cols, 2))
  {
    TokensOfJoin(cols, c, IsJsWhitespace);
  }

  /** Tokens 1 and 3 ("on" and "type") are never read. */
  lemma MountLineIgnoresConnectors(cols: seq<string>, x: string, y: string, c: char, dfs: seq<DfRecord>)
    requires IsJsWhitespace(c) && |cols| > 3
    requires forall k :: 0 <= k < |cols| ==> IsToken(cols[k], IsJsWhitespace)
    requires IsToken(x, IsJsWhitespace) && IsToken(y, IsJsWhitespace)
    ensures ParseMountLine(JoinWith(cols, [c]), dfs) == ParseMountLine(JoinWith(cols[1 := x][3 := y], [c]), dfs)
  {
    var cols' := cols[1 := x][3 := y];
    TokensOfJoin(cols, c, IsJsWhitespace);
    TokensOfJoin(cols', c, IsJsWhitespace);
    assert At(cols', 0) == At(cols, 0) && At(cols', 2) == At(cols, 2) && At(cols', 4) == At(cols, 4);
  }

  /** A mount line that names a file system, a path and a type. */
  predicate HasMountColumns(line: string) {
    |Tokens(line, IsJsWhitespace)| >= 5
  }

  /** Against well-shaped `df` records, a parsed mount line has no undefined
      property exactly when the line has at least five tokens: a matching
      record always has a path, hence every field. */
  lemma DefinedIffMountColumns(line: string, dfs: seq<DfRecord>)
    requires WellShaped(dfs)
    ensures HasNoUndefined(ParseMountLine(line, dfs)) <==> HasMountColumns(line)
  {
    var d := ParseMountLine(line, dfs);
    if HasMountColumns(line) && d.usage.Some? {
      var k :| 0 <= k < |dfs| && dfs[k] == d.usage.value;
      assert dfs[k].path.Some?;
    }
  }

  // ---------------------------------------------------------------------
  // detectDrivesOnUnix

  /** The records of `detectDrivesOnUnix` for the given outputs of `mount`
      and `df`: every one is a Unix drive with no undefined property. */
  function UnixDrives(mountText: string, dfText: string): (r: seq<Drive>)
    ensures forall k :: 0 <= k < |r| ==> r[k].UnixDrive? && HasNoUndefined(r[k])
    ensures forall k :: 0 <= k < |r| ==> (r[k].isUsb <==> r[k].fsType == Some(FuseBlk))
  {
    var ds := Map(Lines(mountText), MountParser(ParseDfDetails(dfText)));
    assert forall d | d in ds :: d.UnixDrive? && (d.isUsb <==> d.fsType == Some(FuseBlk));
    Filter(ds, HasNoUndefined)
  }

  lemma {:induction false} FilterMapMountLines(lines: seq<string>, dfs: seq<DfRecord>)
    requires WellShaped(dfs)
    ensures Filter(Map(lines, MountParser(dfs)), HasNoUndefined)
         == Map(Filter(lines, HasMountColumns), MountParser(dfs))
    decreases |lines|
  {
    if lines != [] {
      var l, rest := lines[0], lines[1..];
      assert lines == [l] + rest;
      FilterMapMountLines(rest, dfs);
      DefinedIffMountColumns(l, dfs);
      var ds := Map(lines, MountParser(dfs));
      assert ds == [ParseMountLine(l, dfs)] + Map(rest, MountParser(dfs));
      FilterCons(ParseMountLine(l, dfs), Map(rest, MountParser(dfs)), HasNoUndefined);
      FilterCons(l, rest, HasMountColumns);
      var kept := Filter(rest, HasMountColumns);
      if HasMountColumns(l) {
        assert Map([l] + kept, MountParser(dfs)) == [ParseMountLine(l, dfs)] + Map(kept, MountParser(dfs));
      }
    }
  }

  /** The completeness filter keeps exactly the mount lines with at least
      five tokens, in order, whether or not a `df` record matched them; a
      blank line (such as the one after the final newline) is dropped. */
  lemma UnixDrivesKeepMountLines(mountText: string, dfText: string)
    ensures var kept := Filter(Lines(mountText), HasMountColumns);
      var r := UnixDrives(mountText, dfText);
      && |r| == |kept|
      && forall k :: 0 <= k < |r| ==> r[k] == ParseMountLine(kept[k], ParseDfDetails(dfText))
  {
    FilterMapMountLines(Lines(mountText), ParseDfDetails(dfText));
  }

  // ---------------------------------------------------------------------
  // an example

  const ExampleDfColumns: seq<string> := ["/dev/sda1", "102400", "51200", "51200", "50%", "/mnt/data"]
  const ExampleDf: string :=
    "Filesystem" + "\n" + JoinWith(ExampleDfColumns, " ") + "\n"

  const ExampleMountData: seq<string> := ["/dev/sda1", "on", "/mnt/data", "type", "ext4", "(rw)"]
  const ExampleMountProc: seq<string> := ["proc", "on", "/proc", "type", "proc", "(rw)"]
  const ExampleMount: string :=
    JoinWith(ExampleMountData, " ") + "\n" + JoinWith(ExampleMountProc, " ") + "\n"

  /** Output ending in a newline has an empty last line. */
  lemma ThreeLines(a: string, b: string)
    requires '\n' !in a && '\n' !in b
    ensures Lines(a + "\n" + b + "\n") == [a, b, ""]
  {
    var lines := [a, b, ""];
    assert JoinWith(lines[1..], "\n") == b + "\n" + "";
    assert a + "\n" + b + "\n" == JoinWith(lines, "\n");
    forall k | 0 <= k < |lines|
      ensures !Contains(lines[k], "\n")
    {
      CharNotContained(lines[k], "\n");
    }
    SplitOnJoin(lines, "\n");
  }

  lemma DfColumnsAreWords()
    ensures forall k :: 0 <= k < |ExampleDfColumns| ==> IsToken(ExampleDfColumns[k], IsJsWhitespace)
    ensures '\n' !in JoinWith(ExampleDfColumns, " ")
  {
    VisibleColumns(ExampleDfColumns);
  }

  lemma MountDataAreWords()
    ensures forall k :: 0 <= k < |ExampleMountData| ==> IsToken(ExampleMountData[k], IsJsWhitespace)
    ensures '\n' !in JoinWith(ExampleMountData, " ")
  {
    VisibleColumns(ExampleMountData);
  }

  lemma MountProcAreWords()
    ensures forall k :: 0 <= k < |ExampleMountProc| ==> IsToken(ExampleMountProc[k], IsJsWhitespace)
    ensures '\n' !in JoinWith(ExampleMountProc, " ")
  {
    VisibleColumns(ExampleMountProc);
  }

  /** The `df` output above gives its one row and, for the empty line after
      the final newline, a record with every field undefined. */
  lemma ExampleDfDetails()
    ensures ParseDfDetails(ExampleDf) == [
      DfRecord(Some("/dev/sda1"), Some("102400"), Some("51200"), Some("51200"), Some("50%"), Some("/mnt/data")),
      DfRecord(None, None, None, None, None, None)]
  {
    var row := JoinWith(ExampleDfColumns, " ");
    DfColumnsAreWords();
    assert Lines(ExampleDf) == ["Filesystem", row, ""] by {
      ThreeLines("Filesystem", row);
    }
    DfLineColumns(ExampleDfColumns, ' ');
  }

  lemma ExampleNames()
    ensures MountName(Some("/mnt/data")) == "data"
    ensures MountName(Some("/proc")) == "proc"
  {
    assert "/mnt/" + "data" == "/mnt/data";
    MountNameIsLastSegment("/mnt/", "data");
    assert "/" + "proc" == "/proc";
    MountNameIsLastSegment("/", "proc");
  }

  /** Two complete mount lines followed by a newline give two drives. */
  lemma UnixDrivesOfTwoLines(a: string, b: string, dfText: string)
    requires '\n' !in a && '\n' !in b
    requires HasMountColumns(a) && HasMountColumns(b)
    ensures UnixDrives(a + "\n" + b + "\n", dfText) ==
      [ParseMountLine(a, ParseDfDetails(dfText)), ParseMountLine(b, ParseDfDetails(dfText))]
  {
    ThreeLines(a, b);
    assert Filter([a, b, ""], HasMountColumns) == [a, b] by {
      FilterCons(a, [b, ""], HasMountColumns);
      FilterCons(b, [""], HasMountColumns);
      FilterCons("", [], HasMountColumns);
    }
    UnixDrivesKeepMountLines(a + "\n" + b + "\n", dfText);
  }

  lemma ExampleMountLines()
    ensures UnixDrives(ExampleMount, ExampleDf) == [
      ParseMountLine(JoinWith(ExampleMountData, " "), ParseDfDetails(ExampleDf)),
      ParseMountLine(JoinWith(ExampleMountProc, " "), ParseDfDetails(ExampleDf))]
  {
    var l1, l2 := JoinWith(ExampleMountData, " "), JoinWith(ExampleMountProc, " ");
    assert '\n' !in l1 && HasMountColumns(l1) by {
      MountDataAreWords();
      TokensOfJoin(ExampleMountData, ' ', IsJsWhitespace);
    }
    assert '\n' !in l2 && HasMountColumns(l2) by {
      MountProcAreWords();
      TokensOfJoin(ExampleMountProc, ' ', IsJsWhitespace);
    }
    UnixDrivesOfTwoLines(l1, l2, ExampleDf);
  }

  /** The mounted volume's line matches the `df` row; `/proc` matches no
      record. */
  lemma ExampleUsage()
    ensures FindDf(ParseDfDetails(ExampleDf), Some("/dev/sda1"), Some("/mnt/data")) ==
      Some(DfRecord(Some("/dev/sda1"), Some("102400"), Some("51200"), Some("51200"), Some("50%"), Some("/mnt/data")))
    ensures FindDf(ParseDfDetails(ExampleDf), Some("proc"), Some("/proc")).None?
  {
    var dfs := ParseDfDetails(ExampleDf);
    ExampleDfDetails();
    FindDfIsFirst(dfs, Some("/dev/sda1"), Some("/mnt/data"), 0);
    assert "proc" != "/dev/sda1";
  }

  lemma ExampleDataLine()
    ensures ParseMountLine(JoinWith(ExampleMountData, " "), ParseDfDetails(ExampleDf)) ==
      UnixDrive(Some("/dev/sda1"), Some("/mnt/data"), "data", Some("ext4"), false,
        Some(DfRecord(Some("/dev/sda1"), Some("102400"), Some("51200"), Some("51200"), Some("50%"), Some("/mnt/data"))))
  {
    var dfs := ParseDfDetails(ExampleDf);
    var d := ParseMountLine(JoinWith(ExampleMountData, " "), dfs);
    assert && d.fileSystem == Some("/dev/sda1") && d.path == Some("/mnt/data") && d.fsType == Some("ext4")
           && d.name == MountName(Some("/mnt/data")) && !d.isUsb
           && d.usage == FindDf(dfs, Some("/dev/sda1"), Some("/mnt/data")) by {
      MountDataAreWords();
      MountLineColumns(ExampleMountData, ' ', dfs);
    }
    ExampleUsage();
    ExampleNames();
  }

  lemma ExampleProcLine()
    ensures ParseMountLine(JoinWith(ExampleMountProc, " "), ParseDfDetails(ExampleDf)) ==
      UnixDrive(Some("proc"), Some("/proc"), "proc", Some("proc"), false, None)
  {
    var dfs := ParseDfDetails(ExampleDf);
    var d := ParseMountLine(JoinWith(ExampleMountProc, " "), dfs);
    assert && d.fileSystem == Some("proc") && d.path == Some("/proc") && d.fsType == Some("proc")
           && d.name == MountName(Some("/proc")) && !d.isUsb
           && d.usage == FindDf(dfs, Some("proc"), Some("/proc")) by {
      MountProcAreWords();
      MountLineColumns(ExampleMountProc, ' ', dfs);
    }
    ExampleUsage();
    ExampleNames();
  }

  /** The mounted volume is joined to its usage; `/proc`, which `df` does
      not list, is kept without usage; the empty last line is dropped. */
  lemma ExampleUnixDrives()
    ensures UnixDrives(ExampleMount, ExampleDf) == [
      UnixDrive(Some("/dev/sda1"), Some("/mnt/data"), "data", Some("ext4"), false,
        Some(DfRecord(Some("/dev/sda1"), Some("102400"), Some("51200"), Some("51200"), Some("50%"), Some("/mnt/data")))),
      UnixDrive(Some("proc"), Some("/proc"), "proc", Some("proc"), false, None)]
  {
    ExampleMountLines();
    ExampleDataLine();
    ExampleProcLine();
  }
}
