/** The library's entry points. Every shell command is replaced by what it
    reported (an error, its stdout, its stderr) and `os.platform()` by a
    parameter; every entry point returns the drives or the message of the
    Error it rejects with. */
module Detect {
  import opened Wrappers
  import opened JsText
  import opened Drives
  import opened UnixParser
  import opened WindowsParser

  /** What `child_process.exec` passes to its callback: an error, whose
      message is kept, or none; and the text of stdout and stderr. */
  datatype ExecReport = ExecReport(error: Option<string>, stdout: string, stderr: string)

  /** Why `execCommand` rejected: with the error object `exec` reported, or,
      when there was none, with the stderr text, a bare string that has no
      `message` property. */
  datatype CommandFailure = ErrorObject(message: string) | StderrText(text: string)

  /** `execCommand`: rejects when `error || stderr` is truthy, preferring
      the error; resolves with stdout otherwise. */
  function ExecCommand(report: ExecReport): (r: Result<string, CommandFailure>)
    ensures r.Success? <==> report.error.None? && report.stderr == []
    ensures r.Success? ==> r.value == report.stdout
    ensures report.error.Some? ==> r == Failure(ErrorObject(report.error.value))
    ensures r.Failure? && r.error.StderrText? ==> r.error.text == report.stderr && r.error.text != []
  {
    if report.error.Some? then Failure(ErrorObject(report.error.value))
    else if report.stderr != [] then Failure(StderrText(report.stderr))
    else Success(report.stdout)
  }

  /** `errMsg`: a non-empty message that names the platform. */
  function FallbackMessage(platform: string): (m: string)
    ensures |m| == |platform| + 40 && m[32..32 + |platform|] == platform
  {
    "Unable to detect drives on your " + platform + " system!"
  }

  /** `new Error(error.message || errMsg)`: the failure's own message when it
      has a non-empty one, the fallback otherwise. */
  function ErrorMessage(failure: CommandFailure, platform: string): (m: string)
    ensures m != []
    ensures failure.ErrorObject? && failure.message != [] ==> m == failure.message
    ensures failure.ErrorObject? && failure.message == [] ==> m == FallbackMessage(platform)
    ensures failure.StderrText? ==> m == FallbackMessage(platform)
  {
    match failure
    case ErrorObject(message) => if message != [] then message else FallbackMessage(platform)
    case StderrText(_) => FallbackMessage(platform)
  }

  /** `detectDrivesOnUnix`: runs `mount` and `df` together; when either
      fails it rejects (with mount's failure when both do), otherwise it
      resolves with the complete drives of the mount lines. */
  function DetectDrivesOnUnix(mount: ExecReport, df: ExecReport, platform: string): (r: Result<seq<Drive>, string>)
    ensures r.Success? <==> ExecCommand(mount).Success? && ExecCommand(df).Success?
    ensures r.Success? ==> r.value == UnixDrives(mount.stdout, df.stdout)
    ensures r.Success? ==> forall k :: 0 <= k < |r.value| ==> r.value[k].UnixDrive? && HasNoUndefined(r.value[k])
    ensures ExecCommand(mount).Failure? ==> r == Failure(ErrorMessage(ExecCommand(mount).error, platform))
    ensures ExecCommand(mount).Success? && ExecCommand(df).Failure? ==>
      r == Failure(ErrorMessage(ExecCommand(df).error, platform))
    ensures r.Failure? ==> r.error != []
  {
    var m, d := ExecCommand(mount), ExecCommand(df);
    if m.Failure? then Failure(ErrorMessage(m.error, platform))
    else if d.Failure? then Failure(ErrorMessage(d.error, platform))
    else Success(UnixDrives(m.value, d.value))
  }

  /** `detectDrivesOnWindows`: one drive per data row of the wmic output,
      its columns split as the source splits them (on runs of the letter
      s), or the failure's message. */
  function DetectDrivesOnWindows(wmic: ExecReport, platform: string): (r: Result<seq<Drive>, string>)
    ensures r.Success? <==> ExecCommand(wmic).Success?
    ensures r.Success? ==> r.value == WindowsDrivesAsWritten(wmic.stdout)
    ensures r.Success? ==> |r.value| == |WmicRows(wmic.stdout)|
    ensures r.Success? ==> forall k :: 0 <= k < |r.value| ==>
      r.value[k] == ParseWmicRow(WmicRows(wmic.stdout)[k], IsLetterS)
    ensures ExecCommand(wmic).Failure? ==> r == Failure(ErrorMessage(ExecCommand(wmic).error, platform))
    ensures r.Failure? ==> r.error != []
  {
    match ExecCommand(wmic)
    case Failure(f) => Failure(ErrorMessage(f, platform))
    case Success(out) => Success(WindowsDrivesAsWritten(out))
  }

  /** `detectDrivesOnWindows` with the columns split on runs of whitespace,
      as `/\s+/` would: the same rows and the same failures, each row read
      column by column. */
  function DetectDrivesOnWindowsCorrected(wmic: ExecReport, platform: string): (r: Result<seq<Drive>, string>)
    ensures r.Success? <==> ExecCommand(wmic).Success?
    ensures r.Success? ==> r.value == WindowsDrives(wmic.stdout)
    ensures r.Success? ==> forall k :: 0 <= k < |r.value| ==>
      r.value[k] == ParseWmicRow(WmicRows(wmic.stdout)[k], IsJsWhitespace)
    ensures r.Failure? ==> r == DetectDrivesOnWindows(wmic, platform)
  {
    match ExecCommand(wmic)
    case Failure(f) => Failure(ErrorMessage(f, platform))
    case Success(out) => Success(WindowsDrives(out))
  }

  /** `detectAllLinuxDrives` up to the decoding of the JSON document: refuses
      Windows and macOS with the fallback message, whatever lsblk would
      report; otherwise resolves with lsblk's output or its failure's
      message. */
  function DetectAllLinuxDrives(platform: string, lsblk: ExecReport): (r: Result<string, string>)
    ensures platform == "win32" || platform == "darwin" ==> r == Failure(FallbackMessage(platform))
    ensures r.Success? <==> platform != "win32" && platform != "darwin" && ExecCommand(lsblk).Success?
    ensures r.Success? ==> r.value == lsblk.stdout
    ensures platform != "win32" && platform != "darwin" && ExecCommand(lsblk).Failure? ==>
      r == Failure(ErrorMessage(ExecCommand(lsblk).error, platform))
    ensures r.Failure? ==> r.error != []
  {
    if platform == "win32" || platform == "darwin" then Failure(FallbackMessage(platform))
    else
      match ExecCommand(lsblk)
      case Failure(f) => Failure(ErrorMessage(f, platform))
      case Success(out) => Success(out)
  }

  /** `detectDrives`: the Windows path on "win32", the Unix path on every
      other platform. */
  function DetectDrives(platform: string, mount: ExecReport, df: ExecReport, wmic: ExecReport): (r: Result<seq<Drive>, string>)
    ensures platform == "win32" ==> r == DetectDrivesOnWindows(wmic, platform)
    ensures platform != "win32" ==> r == DetectDrivesOnUnix(mount, df, platform)
  {
    if platform == "win32" then DetectDrivesOnWindows(wmic, platform)
    else DetectDrivesOnUnix(mount, df, platform)
  }

  /** `drives.filter((drive) => drive.isUsb)`. */
  function UsbOnly(drives: seq<Drive>): (r: seq<Drive>)
    ensures forall k :: 0 <= k < |r| ==> r[k].isUsb && r[k] in drives
    ensures forall k :: 0 <= k < |drives| && drives[k].isUsb ==> drives[k] in r
    ensures forall d :: d in drives ==> multiset(r)[d] == if d.isUsb then multiset(drives)[d] else 0
  {
    var r := Filter(drives, IsUsb);
    assert forall k :: 0 <= k < |r| ==> r[k] in r;
    assert forall d | d in drives && IsUsb(d) :: d in r;
    FilterKeepsCopies(drives, IsUsb);
    r
  }

  /** `detectUsbDrives`: the drives flagged USB, in order, or the same
      failure. */
  function DetectUsbDrives(platform: string, mount: ExecReport, df: ExecReport, wmic: ExecReport): (r: Result<seq<Drive>, string>)
    ensures var all := DetectDrives(platform, mount, df, wmic);
      && (r.Failure? <==> all.Failure?)
      && (r.Failure? ==> r.error == all.error)
      && (r.Success? ==> forall k :: 0 <= k < |r.value| ==> r.value[k].isUsb && r.value[k] in all.value)
      && (r.Success? ==> forall k :: 0 <= k < |all.value| && all.value[k].isUsb ==> all.value[k] in r.value)
      && (r.Success? ==> forall d :: d in all.value ==>
            multiset(r.value)[d] == if d.isUsb then multiset(all.value)[d] else 0)
  {
    var all := DetectDrives(platform, mount, df, wmic);
    if all.Failure? then Failure(all.error) else Success(UsbOnly(all.value))
  }

  /** The USB drives keep the order in which `detectDrives` lists them. */
  lemma UsbDrivesKeepOrder(platform: string, mount: ExecReport, df: ExecReport, wmic: ExecReport)
    requires DetectDrives(platform, mount, df, wmic).Success?
    ensures IsSubsequence(DetectUsbDrives(platform, mount, df, wmic).value, DetectDrives(platform, mount, df, wmic).value)
  {
    FilterIsSubsequence(DetectDrives(platform, mount, df, wmic).value, IsUsb);
  }

  /** On Unix a drive is USB exactly when it is mounted as "fuseblk"; on
      Windows exactly when its drive type parses to 2. */
  lemma UsbDrivesByPlatform(platform: string, mount: ExecReport, df: ExecReport, wmic: ExecReport)
    requires DetectUsbDrives(platform, mount, df, wmic).Success?
    ensures var usb := DetectUsbDrives(platform, mount, df, wmic).value;
      forall k :: 0 <= k < |usb| ==>
        if platform == "win32" then usb[k].WindowsDrive? && IsRemovable(usb[k].driveType)
        else usb[k].UnixDrive? && usb[k].fsType == Some(FuseBlk)
  {
    var all := DetectDrives(platform, mount, df, wmic).value;
    var usb := DetectUsbDrives(platform, mount, df, wmic).value;
    forall k | 0 <= k < |usb|
      ensures if platform == "win32" then usb[k].WindowsDrive? && IsRemovable(usb[k].driveType)
              else usb[k].UnixDrive? && usb[k].fsType == Some(FuseBlk)
    {
      var j :| 0 <= j < |all| && all[j] == usb[k];
    }
  }

  /** `detectDrives` runs only the commands of its platform: the Windows
      result does not depend on mount and df, the Unix one not on wmic. */
  lemma DetectDrivesRunsOnlyItsCommands(platform: string, mount: ExecReport, df: ExecReport, wmic: ExecReport,
                                        mount': ExecReport, df': ExecReport, wmic': ExecReport)
    ensures platform == "win32" ==> DetectDrives(platform, mount, df, wmic) == DetectDrives(platform, mount', df', wmic)
    ensures platform != "win32" ==> DetectDrives(platform, mount, df, wmic) == DetectDrives(platform, mount, df, wmic')
  {
  }
}
