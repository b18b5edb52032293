/** The drive descriptors the library returns. JavaScript objects whose
    properties may be `undefined` become records of `Option` fields. */
module Drives {
  import opened Wrappers

  /** The name given to a drive whose mount path has no last segment, or a
      Windows volume without a label. */
  const LocalDisk: string := "Local Disk"

  /** One line of `df` output, read by position. */
  datatype DfRecord = DfRecord(
    fileSystem: Option<string>,
    totalSize: Option<string>,
    usedSize: Option<string>,
    availableSize: Option<string>,
    usedSizeInPercentage: Option<string>,
    path: Option<string>)

  /** A drive as returned to callers: the Unix shape built from a `mount`
      line and the `df` record it was joined to, or the Windows shape built
      from a `wmic logicaldisk` row. In the Unix shape the `df` record's
      properties are spread over the mount fields: `usage` holds it, and its
      fileSystem and path override the mount line's. */
  datatype Drive =
    | UnixDrive(
        fileSystem: Option<string>,
        path: Option<string>,
        name: string,
        fsType: Option<string>,
        isUsb: bool,
        usage: Option<DfRecord>)
    | WindowsDrive(
        path: Option<string>,
        description: string,
        driveType: Option<string>,
        fileSystem: Option<string>,
        availableSize: Option<string>,
        totalSize: Option<string>,
        name: string,
        isUsb: bool)

  /** Every property of the `df` record is defined. */
  predicate DfDefined(r: DfRecord) {
    && r.fileSystem.Some? && r.totalSize.Some? && r.usedSize.Some?
    && r.availableSize.Some? && r.usedSizeInPercentage.Some? && r.path.Some?
  }

  /** `Object.values(drive).every((val) => val !== undefined)`: no property
      of the object is undefined. A Unix drive without a `df` record has no
      `df` properties at all. */
  predicate HasNoUndefined(d: Drive) {
    match d
    case UnixDrive(fileSystem, path, _, fsType, _, usage) =>
      fileSystem.Some? && path.Some? && fsType.Some? && (usage.Some? ==> DfDefined(usage.value))
    case WindowsDrive(path, _, driveType, fileSystem, availableSize, totalSize, _, _) =>
      path.Some? && driveType.Some? && fileSystem.Some? && availableSize.Some? && totalSize.Some?
  }

  predicate IsUsb(d: Drive) {
    d.isUsb
  }
}
