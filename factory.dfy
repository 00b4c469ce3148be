/** The backend factory: an ordered chain of checks on a disk, then a
    dispatch on its driver. */
module Factory {
  import opened Wrappers
  import opened Consts
  import opened Disks

  /** The options the SQL backend is built from. */
  datatype SqlStorageOptions = SqlStorageOptions(
    db: Option<DbHandle>, filestoreTable: string, url: string,
    automigrateEnabled: bool, debugEnabled: bool)

  /** A configured SQL backend. */
  datatype SqlConfig = SqlConfig(
    db: DbHandle, filestoreTable: string, url: string,
    automigrateEnabled: bool, debugEnabled: bool)

  /** The backend a disk yields. */
  datatype Backend =
    | S3Backend(disk: Disk)
    | SqlBackend(config: SqlConfig)
    | StaticBackend(disk: Disk)

  const EmptyDisk := "disk cannot be empty"
  const DriverRequired := "driver is required field"
  const UrlRequired := "url is required field"
  const RegionRequired := "region is required field"
  const KeyRequired := "key is required field"
  const SecretRequired := "secret is required field"
  const DriverNotSupported := "driver not supported"
  const DbRequired := "DB is required"
  const TableRequired := "FilestoreTable is required"

  /** NewSqlStorage. Opening the record store is a call into the store
      library; `storeInit` is the error that call reports, if any. */
  function NewSqlStorage(options: SqlStorageOptions, storeInit: Option<string>): (r: Result<SqlConfig>)
    ensures options.db.None? ==> r == Err(DbRequired)
    ensures options.db.Some? && options.filestoreTable == "" ==> r == Err(TableRequired)
    ensures options.db.Some? && options.filestoreTable != "" && storeInit.Some? ==> r == Err(storeInit.value)
    ensures r.Ok? <==> options.db.Some? && options.filestoreTable != "" && storeInit.None?
    ensures r.Ok? ==> r.value == SqlConfig(options.db.value, options.filestoreTable, options.url,
                                           options.automigrateEnabled, options.debugEnabled)
  {
    if options.db.None? then Err(DbRequired)
    else if options.filestoreTable == "" then Err(TableRequired)
    else if storeInit.Some? then Err(storeInit.value)
    else Ok(SqlConfig(options.db.value, options.filestoreTable, options.url,
                      options.automigrateEnabled, options.debugEnabled))
  }

  /** The options NewStorage hands to the SQL backend: automigration on,
      debugging off. */
  function SqlOptionsOf(disk: Disk): SqlStorageOptions {
    SqlStorageOptions(disk.db, disk.tableName, disk.url, true, false)
  }

  /** NewStorage. */
  function NewStorage(disk: Disk, storeInit: Option<string>): (r: Result<Backend>)
    ensures r.Ok? <==> Accepted(disk, storeInit)
    ensures r.Ok? && disk.driver == DriverS3 ==> r.value == S3Backend(disk)
    ensures r.Ok? && disk.driver == DriverStatic ==> r.value == StaticBackend(disk)
    ensures r.Ok? && disk.driver == DriverSql ==>
      r.value == SqlBackend(SqlConfig(disk.db.value, disk.tableName, disk.url, true, false))
  {
    if IsEmpty(disk) then Err(EmptyDisk)
    else if disk.driver == "" then Err(DriverRequired)
    else if disk.url == "" then Err(UrlRequired)
    else if disk.driver == DriverS3 && disk.region == "" then Err(RegionRequired)
    else if disk.driver == DriverS3 && disk.key == "" then Err(KeyRequired)
    else if disk.driver == DriverS3 && disk.secret == "" then Err(SecretRequired)
    else if disk.driver == DriverS3 then Ok(S3Backend(disk))
    else if disk.driver == DriverSql then
      match NewSqlStorage(SqlOptionsOf(disk), storeInit)
      case Ok(config) => Ok(SqlBackend(config))
      case Err(e) => Err(e)
    else if disk.driver == DriverStatic then Ok(StaticBackend(disk))
    else Err(DriverNotSupported)
  }

  /** The disks NewStorage accepts, stated field by field: a url, a known
      driver, the credentials and region for s3, a database and a table for
      sql (whose store must then open). */
  predicate Accepted(disk: Disk, storeInit: Option<string>) {
    && disk.url != ""
    && (disk.driver == DriverS3 ==> disk.region != "" && disk.key != "" && disk.secret != "")
    && (disk.driver == DriverSql ==> disk.db.Some? && disk.tableName != "" && storeInit.None?)
    && disk.driver in {DriverS3, DriverSql, DriverStatic}
  }

  /** The zero disk is refused before anything else is looked at. */
  lemma EmptyDiskRefused(storeInit: Option<string>)
    ensures NewStorage(ZeroDisk, storeInit) == Err(EmptyDisk)
  {
  }

  /** A missing driver is reported before a missing url. */
  lemma DriverBeforeUrl(disk: Disk, storeInit: Option<string>)
    requires !IsEmpty(disk) && disk.driver == ""
    ensures NewStorage(disk, storeInit) == Err(DriverRequired)
  {
  }

  lemma UrlRequiredForEveryDriver(disk: Disk, storeInit: Option<string>)
    requires !IsEmpty(disk) && disk.driver != "" && disk.url == ""
    ensures NewStorage(disk, storeInit) == Err(UrlRequired)
  {
  }

  /** For s3 the region, the key and the secret are checked, in that order. */
  lemma S3CredentialsInOrder(disk: Disk, storeInit: Option<string>)
    requires disk.driver == DriverS3 && disk.url != ""
    ensures disk.region == "" ==> NewStorage(disk, storeInit) == Err(RegionRequired)
    ensures disk.region != "" && disk.key == "" ==> NewStorage(disk, storeInit) == Err(KeyRequired)
    ensures disk.region != "" && disk.key != "" && disk.secret == "" ==>
      NewStorage(disk, storeInit) == Err(SecretRequired)
  {
  }

  /** Credentials matter only to s3: a sql or static disk without them is
      still accepted. */
  lemma CredentialsOnlyForS3(disk: Disk, storeInit: Option<string>)
    requires disk.driver != DriverS3 && Accepted(disk, storeInit)
    ensures NewStorage(disk.(region := "", key := "", secret := ""), storeInit).Ok?
  {
  }

  /** The bucket is never checked: an s3 disk without one is accepted as it is. */
  lemma BucketNotChecked(disk: Disk, storeInit: Option<string>)
    requires disk.driver == DriverS3 && Accepted(disk, storeInit)
    ensures NewStorage(disk.(bucket := ""), storeInit) == Ok(S3Backend(disk.(bucket := "")))
  {
  }

  /** The sql driver reports the SQL backend's own errors: nil database
      first, then the missing table name. */
  lemma SqlDelegates(disk: Disk, storeInit: Option<string>)
    requires disk.driver == DriverSql && disk.url != ""
    ensures NewStorage(disk, storeInit) ==
      match NewSqlStorage(SqlOptionsOf(disk), storeInit)
      case Ok(config) => Ok(SqlBackend(config))
      case Err(e) => Err(e)
    ensures disk.db.None? ==> NewStorage(disk, storeInit) == Err(DbRequired)
    ensures disk.db.Some? && disk.tableName == "" ==> NewStorage(disk, storeInit) == Err(TableRequired)
  {
  }

  /** Any other driver is refused, once the disk has a driver and a url. */
  lemma UnknownDriverRefused(disk: Disk, storeInit: Option<string>)
    requires disk.driver !in {"", DriverS3, DriverSql, DriverStatic} && disk.url != ""
    ensures NewStorage(disk, storeInit) == Err(DriverNotSupported)
  {
  }
}
