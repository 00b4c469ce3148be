/** The package constants: disk names, driver names and the path separator. */
module Consts {
  const Default: string := "default"
  const Cdn: string := "cdn"

  const DriverS3: string := "s3"
  const DriverSql: string := "sql"
  const DriverStatic: string := "static"

  const Separator: char := '/'
  const PathSeparator: string := [Separator]
  const RootPath: string := PathSeparator
}
