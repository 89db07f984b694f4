/**
 * The SQLite connection (app/src/Database/ConnectionFactory.php): the
 * database path is resolved once and the connection is opened at most once
 * per factory. Whether the pdo_sqlite extension is loaded and what opening
 * the file answers are parameters; the directory creation is not modelled.
 */
module ConnectionFactory {
  import opened Wrappers
  import Text

  const DefaultPath := "data/db/lastfm.sqlite"
  const NoDriver := "PDO_SQLITE extension is not enabled (pdo_sqlite)"

  predicate AsciiLetter(c: char) {
    'A' <= c <= 'Z' || 'a' <= c <= 'z'
  }

  /** A Windows drive prefix such as C:\ (the pattern /^[A-Za-z]:\\/). */
  predicate DrivePrefix(path: string) {
    |path| >= 3 && AsciiLetter(path[0]) && path[1] == ':' && path[2] == '\\'
  }

  predicate Absolute(path: string) {
    Text.StartsWith(path, "/") || DrivePrefix(path)
  }

  /** The database file: an absolute path as it is, a relative one under the base path. */
  function ResolvePath(basePath: string, path: string): (full: string)
    ensures Absolute(path) ==> full == path
    ensures !Absolute(path) ==> full == basePath + "/" + path
  {
    if Absolute(path) then path else basePath + "/" + path
  }

  /** With an absolute base path the result is absolute, so resolving it again changes nothing. */
  lemma ResolveIdempotent(basePath: string, path: string)
    requires Text.StartsWith(basePath, "/")
    ensures Absolute(ResolvePath(basePath, path))
    ensures ResolvePath(basePath, ResolvePath(basePath, path)) == ResolvePath(basePath, path)
  {
    var full := ResolvePath(basePath, path);
    if !Absolute(path) {
      assert full[..1] == basePath[..1];
    }
  }

  /** The path setting: SQLITE_PATH, else the default. */
  function ConfiguredPath(env: map<string, string>): (path: string)
    ensures "SQLITE_PATH" !in env ==> path == DefaultPath
  {
    if "SQLITE_PATH" in env then env["SQLITE_PATH"] else DefaultPath
  }

  /** An open database handle. */
  class Connection {
    const dsn: string

    constructor (dsn: string)
      ensures this.dsn == dsn
    {
      this.dsn := dsn;
    }
  }

  class Factory {
    const basePath: string
    var pdo: Option<Connection>

    constructor (basePath: string)
      ensures this.basePath == basePath && pdo == None
    {
      this.basePath := basePath;
      pdo := None;
    }

    /**
     * pdo(): the remembered connection when there is one. Otherwise the
     * driver is checked before anything else, the file is opened at the
     * resolved path (`openError` is the PDOException opening may raise,
     * passed on), and the connection is remembered.
     */
    method Pdo(env: map<string, string>, driverLoaded: bool, openError: Option<string>) returns (r: Result<Connection>)
      modifies this
      ensures old(pdo).Some? ==> r == Ok(old(pdo).value) && pdo == old(pdo)
      ensures old(pdo).None? && !driverLoaded ==> r == Err(NoDriver) && pdo == None
      ensures old(pdo).None? && driverLoaded && openError.Some? ==> r == Err(openError.value) && pdo == None
      ensures old(pdo).None? && driverLoaded && openError.None? ==>
                r.Ok? && fresh(r.value) && pdo == Some(r.value)
                && r.value.dsn == "sqlite:" + ResolvePath(basePath, ConfiguredPath(env))
    {
      if pdo.Some? {
        return Ok(pdo.value);
      }
      if !driverLoaded {
        return Err(NoDriver);
      }
      var full := ResolvePath(basePath, ConfiguredPath(env));
      if openError.Some? {
        return Err(openError.value);
      }
      var c := new Connection("sqlite:" + full);
      pdo := Some(c);
      r := Ok(c);
    }
  }

  /** Two calls in a row hand out the very same connection once the first succeeds. */
  method PdoTwice(f: Factory, env: map<string, string>, driverLoaded: bool, openError: Option<string>)
    returns (first: Result<Connection>, second: Result<Connection>)
    modifies f
    ensures first.Ok? ==> second == first
  {
    first := f.Pdo(env, driverLoaded, openError);
    second := f.Pdo(env, driverLoaded, openError);
  }
}
