/** The configuration file's settings and the defaults that stand in for the
    ones it leaves out (src/main.rs). Reading and parsing the TOML file is
    left to the caller, which passes the parsed record; a file that does not
    parse ends the program before any default is applied. */
module Config {
  import opened Wrappers

  datatype ClientConfig = ClientConfig(user: Option<string>, password: Option<string>)
  datatype DbConfig = DbConfig(path: Option<string>, host: Option<string>, dbname: Option<string>)
  datatype LogConfig = LogConfig(file: Option<string>)

  /** The file's three tables; `[logging]` may be absent altogether. */
  datatype Config = Config(client: ClientConfig, db: DbConfig, logging: Option<LogConfig>)

  const DefaultUser: string := "oerec"
  const DefaultPath: string := "/var/run/postgres"
  const DefaultHost: string := "localhost"
  const DefaultDbName: string := "oere"
  const DefaultLogfile: string := "/var/log/oerec.log"

  /** The settings the database connection is opened with. A password is
      only set when the file gives one. */
  datatype Connection = Connection(user: string, hostPath: string, host: string, dbname: string, password: Option<string>)

  function OrElse(o: Option<string>, default: string): (r: string)
    ensures o.Some? ==> r == o.value
    ensures o.None? ==> r == default
  {
    match o
    case Some(v) => v
    case None => default
  }

  /** The connection settings: each field from the file, or its default. */
  function ConnectionOf(c: Config): (r: Connection)
    ensures c.client.user.Some? ==> r.user == c.client.user.value
    ensures c.client.user.None? ==> r.user == DefaultUser
    ensures c.db.path.Some? ==> r.hostPath == c.db.path.value
    ensures c.db.path.None? ==> r.hostPath == DefaultPath
    ensures c.db.host.Some? ==> r.host == c.db.host.value
    ensures c.db.host.None? ==> r.host == DefaultHost
    ensures c.db.dbname.Some? ==> r.dbname == c.db.dbname.value
    ensures c.db.dbname.None? ==> r.dbname == DefaultDbName
    ensures r.password == c.client.password
  {
    Connection(OrElse(c.client.user, DefaultUser), OrElse(c.db.path, DefaultPath),
               OrElse(c.db.host, DefaultHost), OrElse(c.db.dbname, DefaultDbName), c.client.password)
  }

  /** The log file: the one `[logging]` names, else the default, whether the
      table is missing or only its `file` key is. */
  function LogFile(c: Config): (r: string)
    ensures r == DefaultLogfile <==> c.logging.None? || c.logging.value.file.None? || c.logging.value.file.value == DefaultLogfile
    ensures c.logging.Some? && c.logging.value.file.Some? ==> r == c.logging.value.file.value
  {
    match c.logging
    case None => DefaultLogfile
    case Some(l) => OrElse(l.file, DefaultLogfile)
  }

  /** The settings of a file that gives nothing beyond its required tables. */
  const Minimal: Config := Config(ClientConfig(None, None), DbConfig(None, None, None), None)

  /** A file that sets nothing connects as `oerec` to the database `oere` on
      localhost over `/var/run/postgres` and logs to `/var/log/oerec.log`. */
  lemma MinimalUsesDefaults()
    ensures ConnectionOf(Minimal) == Connection("oerec", "/var/run/postgres", "localhost", "oere", None)
    ensures LogFile(Minimal) == "/var/log/oerec.log"
    ensures LogFile(Minimal.(logging := Some(LogConfig(None)))) == LogFile(Minimal)
  {
  }

  /** A value given in the file always wins over its default, and the
      connection settings never depend on the logging table. */
  lemma GivenValuesWin(c: Config, user: string, path: string, host: string, dbname: string, file: string)
    ensures var c' := Config(ClientConfig(Some(user), c.client.password), DbConfig(Some(path), Some(host), Some(dbname)),
                             Some(LogConfig(Some(file))));
      ConnectionOf(c') == Connection(user, path, host, dbname, c.client.password) && LogFile(c') == file
    ensures ConnectionOf(c.(logging := None)) == ConnectionOf(c)
  {
  }
}
