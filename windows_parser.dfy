/** The Windows path of the library: the output of
    `wmic logicaldisk get Caption,VolumeName,DriveType,Size,FileSystem,FreeSpace,Description`
    is trimmed, cut into CRLF-terminated rows, stripped of its header row,
    and every row is read by position. No row is dropped. */
module WindowsParser {
  import opened Wrappers
  import opened JsText
  import opened JsNumber
  import opened Drives

  /** The wmic drive-type code of a removable disk. */
  const RemovableDriveType: int := 2

  /** The row separator of wmic output, `"\r\n"`. */
  const Crlf: string := "\r\n"

  /** The separator of the regular expression `/s+/` as written: the letter
      s, not whitespace. */
  predicate IsLetterS(c: char) {
    c == 's'
  }

  /** How a template literal prints an optional string: `undefined` when
      the value is missing. */
  function Show(v: Option<string>): (r: string)
    ensures v.Some? ==> r == v.value
    ensures v.None? ==> r == "undefined"
  {
    match v
    case Some(s) => s
    case None => "undefined"
  }

  /** `parseInt(driveType) === 2`; an undefined or blank drive type parses
      to NaN, so it is never removable. */
  function IsRemovable(driveType: Option<string>): (b: bool)
    ensures b ==> driveType.Some? && TrimStart(driveType.value) != []
  {
    driveType.Some? && ParseInt(driveType.value) == Some(RemovableDriveType)
  }

  /** The data rows: `text.trim().split("\r\n").slice(1)`. None holds a
      CRLF, and blank output has none. */
  function WmicRows(text: string): (r: seq<string>)
    ensures forall k :: 0 <= k < |r| ==> !Contains(r[k], Crlf)
    ensures Trim(text) == [] ==> r == []
  {
    SplitOnPiecesAreFree(Trim(text), Crlf);
    SplitOn(Trim(text), Crlf)[1..]
  }

  /** One wmic row, split into columns by runs of separator characters:
      Caption, three words of Description, DriveType, FileSystem, FreeSpace,
      Size, and every remaining word joined by single spaces as the name
      ("Local Disk" when there is none). */
  function ParseWmicRow(row: string, isSep: char -> bool): (d: Drive)
    ensures d.WindowsDrive?
    ensures d.path.Some? <==> |Tokens(row, isSep)| >= 1
    ensures d.driveType.Some? <==> |Tokens(row, isSep)| >= 5
    ensures d.totalSize.Some? <==> |Tokens(row, isSep)| >= 8
    ensures d.isUsb <==> IsRemovable(d.driveType)
    ensures |Tokens(row, isSep)| <= 8 ==> d.name == LocalDisk
    ensures |d.description| >= 2
  {
    var t := Tokens(row, isSep);
    var driveType := At(t, 4);
    WindowsDrive(
      At(t, 0),
      Show(At(t, 1)) + " " + Show(At(t, 2)) + " " + Show(At(t, 3)),
      driveType,
      At(t, 5),
      At(t, 6),
      At(t, 7),
      if |t| > 8 then JoinWith(t[8..], " ") else LocalDisk,
      IsRemovable(driveType))
  }

  function RowParser(isSep: char -> bool): string -> Drive {
    row => ParseWmicRow(row, isSep)
  }

  /** `detectDrivesOnWindows` for the given wmic output, with the columns
      split by runs of the given separator characters: one drive per data
      row, in order. */
  function WindowsDrivesWith(text: string, isSep: char -> bool): (r: seq<Drive>)
    ensures |r| == |WmicRows(text)|
    ensures forall k :: 0 <= k < |r| ==> r[k] == ParseWmicRow(WmicRows(text)[k], isSep)
    ensures forall k :: 0 <= k < |r| ==> r[k].WindowsDrive?
    ensures forall k :: 0 <= k < |r| ==> (r[k].isUsb <==> IsRemovable(r[k].driveType))
  {
    Map(WmicRows(text), RowParser(isSep))
  }

  /** The rows as the source splits them, on runs of the letter s. */
  function WindowsDrivesAsWritten(text: string): (r: seq<Drive>)
    ensures |r| == |WmicRows(text)|
    ensures forall k :: 0 <= k < |r| ==> r[k] == ParseWmicRow(WmicRows(text)[k], IsLetterS)
  {
    WindowsDrivesWith(text, IsLetterS)
  }

  /** The rows split on runs of whitespace, as `/\s+/` would. */
  function WindowsDrives(text: string): (r: seq<Drive>)
    ensures |r| == |WmicRows(text)|
    ensures forall k :: 0 <= k < |r| ==> r[k] == ParseWmicRow(WmicRows(text)[k], IsJsWhitespace)
  {
    WindowsDrivesWith(text, IsJsWhitespace)
  }

  /** wmic output made of a header row and data rows, each ended by CRLF
      and padded with whitespace, gives back exactly the data rows. */
  lemma WmicRowsOf(w1: string, header: string, rows: seq<string>, w2: string)
    requires forall i :: 0 <= i < |w1| ==> IsJsWhitespace(w1[i])
    requires forall i :: 0 <= i < |w2| ==> IsJsWhitespace(w2[i])
    requires '\r' !in header && forall k :: 0 <= k < |rows| ==> '\r' !in rows[k]
    requires var body := JoinWith([header] + rows, Crlf);
      |body| > 0 ==> !IsJsWhitespace(body[0]) && !IsJsWhitespace(body[|body| - 1])
    ensures WmicRows(w1 + JoinWith([header] + rows, Crlf) + w2) == rows
  {
    var lines := [header] + rows;
    TrimPadded(w1, JoinWith(lines, Crlf), w2);
    forall k | 0 <= k < |lines|
      ensures !Contains(lines[k], Crlf)
    {
      if k == 0 {
        CharNotContained(header, Crlf);
      } else {
        assert lines[k] == rows[k - 1];
        CharNotContained(rows[k - 1], Crlf);
      }
    }
    SplitOnJoin(lines, Crlf);
    assert lines[1..] == rows;
  }

  /** The columns of a row are read by position, whatever separator
      character stands between them. */
  lemma WmicRowColumns(cols: seq<string>, c: char, isSep: char -> bool)
    requires isSep(c)
    requires forall k :: 0 <= k < |cols| ==> IsToken(cols[k], isSep)
    ensures var d := ParseWmicRow(JoinWith(cols, [c]), isSep);
      && d.path == At(cols, 0)
      && d.description == Show(At(cols, 1)) + " " + Show(At(cols, 2)) + " " + Show(At(cols, 3))
      && d.driveType == At(cols, 4)
      && d.fileSystem == At(cols, 5)
      && d.availableSize == At(cols, 6)
      && d.totalSize == At(cols, 7)
      && d.name == (if |cols| > 8 then JoinWith(cols[8..], " ") else LocalDisk)
      && (d.isUsb <==> |cols| > 4 && ParseInt(cols[4]) == Some(RemovableDriveType))
  {
    TokensOfJoin(cols, c, isSep);
  }

  /** Split on whitespace, the description holds the second to fourth
      words of the row, each kept whole. */
  lemma DescriptionWords(row: string)
    requires |Tokens(row, IsJsWhitespace)| >= 4
    ensures var t := Tokens(row, IsJsWhitespace);
      Tokens(ParseWmicRow(row, IsJsWhitespace).description, IsJsWhitespace) == t[1..4]
  {
    var t := Tokens(row, IsJsWhitespace);
    var w := t[1..4];
    assert ParseWmicRow(row, IsJsWhitespace).description == t[1] + " " + t[2] + " " + t[3];
    assert forall k :: 0 <= k < |w| ==> IsToken(w[k], IsJsWhitespace);
    JoinThree(w);
    TokensOfJoin(w, ' ', IsJsWhitespace);
  }

  lemma JoinThree(w: seq<string>)
    requires |w| == 3
    ensures JoinWith(w, " ") == w[0] + " " + w[1] + " " + w[2]
  {
    assert JoinWith(w[1..], " ") == w[1] + " " + w[2];
  }

  /** Split on whitespace, the name holds every word of the row from the
      ninth on, each kept whole. */
  lemma NameWords(row: string)
    requires |Tokens(row, IsJsWhitespace)| > 8
    ensures var t := Tokens(row, IsJsWhitespace);
      Tokens(ParseWmicRow(row, IsJsWhitespace).name, IsJsWhitespace) == t[8..]
  {
    var t := Tokens(row, IsJsWhitespace);
    assert forall k :: 0 <= k < |t[8..]| ==> IsToken(t[8..][k], IsJsWhitespace);
    TokensOfJoin(t[8..], ' ', IsJsWhitespace);
  }

  /** A drive is flagged USB exactly when its drive-type column is the
      numeral 2. */
  lemma IsRemovableDecimal(n: nat)
    ensures IsRemovable(Some(DecimalString(n))) <==> n == RemovableDriveType
  {
    ParseIntOfDecimal(n, "");
    assert DecimalString(n) + "" == DecimalString(n);
  }

  // ---------------------------------------------------------------------
  // the separator of the column split

  /** A fixed disk's row, its columns separated by single spaces. */
  const FixedDiskColumns: seq<string> := ["C:", "Local", "Fixed", "Disk", "3", "NTFS", "100", "200", "Data"]
  const FixedDiskRow: string := JoinWith(FixedDiskColumns, " ")

  /** The row before and after the s of "Disk". */
  const FixedDiskBeforeS: string := JoinWith(FixedDiskColumns[..3], " ") + " Di"
  const FixedDiskAfterS: string := "k " + JoinWith(FixedDiskColumns[4..], " ")

  /** The letter s of "Disk" cuts the row in two. */
  lemma FixedDiskRowLetterS()
    ensures FixedDiskRow == FixedDiskBeforeS + "s" + FixedDiskAfterS
    ensures 's' !in FixedDiskBeforeS && 's' !in FixedDiskAfterS
  {
    var c := FixedDiskColumns;
    var head, tail := JoinWith(c[..3], " "), JoinWith(c[4..], " ");
    assert FixedDiskRow == (head + " Di") + "s" + ("k " + tail) by {
      JoinSplitAt(c, 3, " ");
      assert c[3..] == ["Disk"] + c[4..];
      JoinCons("Disk", c[4..], " ");
    }
    HalvesWithoutS();
  }

  lemma HalvesWithoutS()
    ensures 's' !in JoinWith(FixedDiskColumns[..3], " ")
    ensures 's' !in JoinWith(FixedDiskColumns[4..], " ")
  {
    JoinAvoids(FixedDiskColumns[..3], " ", 's');
    JoinAvoids(FixedDiskColumns[4..], " ", 's');
  }

  /** As written, the row splits into two columns at the s of "Disk": the
      caption swallows three more words and the drive type is undefined. */
  lemma FixedDiskRowAsWritten()
    ensures var d := ParseWmicRow(FixedDiskRow, IsLetterS);
      && d.path.Some? && d.path != Some(FixedDiskColumns[0])
      && d.driveType.None? && d.fileSystem.None? && d.totalSize.None?
      && d.name == LocalDisk && !d.isUsb
  {
    var a, b := FixedDiskBeforeS, FixedDiskAfterS;
    assert Tokens(FixedDiskRow, IsLetterS) == [a, b] by {
      FixedDiskRowLetterS();
      assert IsToken(a, IsLetterS) && IsToken(b, IsLetterS);
      TokensAppendSep(a, 's', b, IsLetterS);
      TokensOfToken(a, IsLetterS);
      TokensOfToken(b, IsLetterS);
    }
    assert |a| > 2;
  }

  lemma LocalFixedDisk()
    ensures "Local" + " " + "Fixed" + " " + "Disk" == "Local Fixed Disk"
  {
  }

  lemma FixedDiskColumnsAreWords()
    ensures forall k :: 0 <= k < |FixedDiskColumns| ==> IsToken(FixedDiskColumns[k], IsJsWhitespace)
  {
    VisibleColumns(FixedDiskColumns);
  }

  /** Split on whitespace, the same row gives each column its own value. */
  lemma FixedDiskRowCorrected()
    ensures ParseWmicRow(FixedDiskRow, IsJsWhitespace) ==
      WindowsDrive(Some("C:"), "Local Fixed Disk", Some("3"), Some("NTFS"), Some("100"), Some("200"), "Data", false)
  {
    var c := FixedDiskColumns;
    var d := ParseWmicRow(FixedDiskRow, IsJsWhitespace);
    assert && d.path == Some(c[0]) && d.driveType == Some(c[4]) && d.fileSystem == Some(c[5])
           && d.availableSize == Some(c[6]) && d.totalSize == Some(c[7])
           && d.description == c[1] + " " + c[2] + " " + c[3]
           && d.name == JoinWith(c[8..], " ") && (d.isUsb <==> ParseInt(c[4]) == Some(RemovableDriveType)) by {
      FixedDiskColumnsAreWords();
      WmicRowColumns(c, ' ', IsJsWhitespace);
    }
    assert c[8..] == ["Data"];
    assert d.description == "Local Fixed Disk" by {
      assert c[1] == "Local" && c[2] == "Fixed" && c[3] == "Disk";
      LocalFixedDisk();
    }
    assert !d.isUsb by {
      IsRemovableDecimal(3);
      assert DecimalString(3) == "3";
    }
  }

  // ---------------------------------------------------------------------
  // positional columns

  /** A removable disk's row: its description has two words, not three. */
  const RemovableDiskColumns: seq<string> := ["E:", "Removable", "Disk", "2", "FAT32", "100", "200", "STICK"]

  lemma RemovableDiskColumnsAreWords()
    ensures forall k :: 0 <= k < |RemovableDiskColumns| ==> IsToken(RemovableDiskColumns[k], IsJsWhitespace)
  {
    VisibleColumns(RemovableDiskColumns);
  }

  lemma FileSystemIsNaN()
    ensures ParseInt("FAT32") == None
  {
    ParseIntNaN("FAT32");
  }

  /** Even split on whitespace, the columns are read by position: when the
      description has two words the drive type "2" becomes the third word
      of the description, the file system is read as the drive type, and
      the drive is not flagged USB. */
  lemma RemovableDiskRowShifts()
    ensures var d := ParseWmicRow(JoinWith(RemovableDiskColumns, " "), IsJsWhitespace);
      && d.driveType == Some("FAT32") && d.fileSystem == Some("100") && !d.isUsb
  {
    var c := RemovableDiskColumns;
    var d := ParseWmicRow(JoinWith(c, " "), IsJsWhitespace);
    assert d.driveType == Some(c[4]) && d.fileSystem == Some(c[5])
        && (d.isUsb <==> ParseInt(c[4]) == Some(RemovableDriveType)) by {
      RemovableDiskColumnsAreWords();
      WmicRowColumns(c, ' ', IsJsWhitespace);
    }
    assert c[4] == "FAT32";
    FileSystemIsNaN();
  }
}
