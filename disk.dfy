/** The configuration record of one storage disk. */
module Disks {
  import opened Wrappers

  /** An open database connection, known only by identity: the storage code
      passes it on and compares it with nil, nothing more. */
  datatype DbHandle = DbHandle(id: nat)

  datatype Disk = Disk(
    diskName: string,
    driver: string,
    url: string,
    visibility: string,
    db: Option<DbHandle>,
    tableName: string,
    root: string,
    key: string,
    secret: string,
    region: string,
    bucket: string,
    endpoint: string,
    usePathStyleEndpoint: bool,
    throw: bool)

  /** The zero value of the record: every string empty, no database, both
      flags off. */
  const ZeroDisk: Disk := Disk("", "", "", "", None, "", "", "", "", "", "", "", false, false)

  /** lo.IsEmpty on a disk: it equals the zero value. */
  predicate IsEmpty(d: Disk) {
    d == ZeroDisk
  }
}
