/**
 * `db_open`: checks the database configuration and picks the adapter for the
 * configured driver. Where the program aborts (`die`, which logs the message and
 * panics) the model returns the message as an error.
 */
module Database {
  import opened Wrappers

  /** `DB`: the adapter expression chosen for the driver. */
  datatype DB = DB(adapter: string)

  const NoEndpoint := "Invalid database configuration - must specify either hostname or UNIX socket"
  const TwoEndpoints := "Invalid database configuration - cannot specify both hostname and UNIX socket"
  const UnsupportedDriver := "An unsupported database driver has been specified!"

  /** The adapter of each supported driver. */
  function Adapter(dbType: string): Option<string> {
    match dbType
    case "sqlite" => Some("QM_PDO_SQLITE::open($sock, $host, $port, $user, $pass, $name)")
    case "mysql" => Some("QM_PDO_MYSQL::open($sock, $host, $port, $user, $pass, $name)")
    case "pgsql" => Some("QM_PDO_PGSQL::open($sock, $host, $port, $user, $pass, $name)")
    case _ => None
  }

  /**
   * `db_open`: exactly one of the socket and the host must be given, and the
   * driver must be supported; the port, user, password and name are not checked.
   */
  function DbOpen(dbType: string, sock: string, host: string, port: string, user: string, pass: string, name: string)
    : (r: Result<DB, string>)
    ensures r.Ok? <==> (sock == "") != (host == "") && dbType in {"sqlite", "mysql", "pgsql"}
    ensures sock == "" && host == "" ==> r == Err(NoEndpoint)
    ensures sock != "" && host != "" ==> r == Err(TwoEndpoints)
    ensures (sock == "") != (host == "") && dbType !in {"sqlite", "mysql", "pgsql"} ==> r == Err(UnsupportedDriver)
    ensures r.Ok? ==> Some(r.value.adapter) == Adapter(dbType)
  {
    if |sock| == 0 && |host| == 0 then Err(NoEndpoint)
    else if |sock| != 0 && |host| != 0 then Err(TwoEndpoints)
    else
      match Adapter(dbType)
      case Some(a) => Ok(DB(a))
      case None => Err(UnsupportedDriver)
  }
}
