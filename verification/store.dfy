/**
 The processed-set store: the `images` table of the embedded database,
 whose only column `path` is the primary key. The table is modelled as the
 finite set of paths it holds. The database engine is left abstract: whether
 a statement fails for reasons other than the primary key is an oracle
 argument (`fails`), decided by the caller.
 */
module ProcessedStore {

  /** A file path, as the scanner builds it. */
  type Path = string

  /** The `images` table. The primary key on `path` makes it a set. */
  datatype Store = Store(paths: set<Path>)

  /** The errors a statement on the table can raise. */
  datatype DbError =
    | UniqueViolation   // an INSERT of a path the table already holds
    | EngineFailure     // any other failure of the engine: I/O, locking, a closed cursor, ...

  datatype Option<+T> = None | Some(value: T)

  datatype Result<+T> = Ok(value: T) | Err(error: DbError)

  /** `SELECT path FROM images WHERE path = ?` followed by `fetchone()`:
      the matching row, or None, or the engine's error when the lookup fails. */
  function SelectPath(s: Store, p: Path, fails: bool): (r: Result<Option<Path>>)
    ensures fails <==> r.Err?
    ensures r.Ok? ==> (r.value.Some? <==> p in s.paths)
    ensures r.Ok? && r.value.Some? ==> r.value.value == p
  {
    if fails then Err(EngineFailure)
    else if p in s.paths then Ok(Some(p))
    else Ok(None)
  }

  /** `INSERT INTO images VALUES (?)` and its commit: the grown table, or the
      error the statement raises. A present path always hits the primary key. */
  function InsertRow(s: Store, p: Path, fails: bool): (r: Result<Store>)
    ensures p in s.paths ==> r == Err(UniqueViolation)
    ensures r.Ok? <==> p !in s.paths && !fails
    ensures r.Ok? ==> p !in s.paths && r.value.paths - s.paths == {p} && s.paths <= r.value.paths
  {
    if p in s.paths then Err(UniqueViolation)
    else if fails then Err(EngineFailure)
    else Ok(Store(s.paths + {p}))
  }

  /** `Database.already_exists`: the truthiness of the fetched row. Any error
      of the lookup is answered "exists", so that the path is skipped. */
  function AlreadyExists(s: Store, p: Path, lookupFails: bool): (found: bool)
    ensures lookupFails ==> found
    ensures !lookupFails ==> (found <==> p in s.paths)
  {
    match SelectPath(s, p, lookupFails)
    case Err(_) => true
    case Ok(row) => row.Some?
  }

  /** `Database.insert_path`: records `p`, swallowing every error of the
      statement, so the caller always gets a table back and never an error. */
  function InsertPath(s: Store, p: Path, insertFails: bool): (s': Store)
    ensures s.paths <= s'.paths
    ensures s'.paths - s.paths <= {p}
    ensures p in s'.paths <==> p in s.paths || !insertFails
  {
    match InsertRow(s, p, insertFails)
    case Ok(grown) => grown
    case Err(_) => s
  }

  /** Recording a path that is already present, or an insert that fails,
      leaves the table as it was. */
  lemma InsertWithoutEffect(s: Store, p: Path, insertFails: bool)
    requires p in s.paths || insertFails
    ensures InsertPath(s, p, insertFails) == s
  {
    var s' := InsertPath(s, p, insertFails);
    assert s'.paths == s.paths;
  }

  /** Recording a path twice has the effect of recording it once. */
  lemma InsertIdempotent(s: Store, p: Path, insertFails: bool)
    ensures InsertPath(InsertPath(s, p, insertFails), p, insertFails) == InsertPath(s, p, insertFails)
  {
    var s' := InsertPath(s, p, insertFails);
    if p !in s'.paths {
      assert insertFails;
    }
    InsertWithoutEffect(s', p, insertFails);
  }

  /** Once a path is recorded, a later lookup of it reports "exists". */
  lemma InsertThenExists(s: Store, p: Path, lookupFails: bool)
    ensures AlreadyExists(InsertPath(s, p, false), p, lookupFails)
  {
  }

  /** A lookup that reports "exists" keeps doing so on any larger table. */
  lemma ExistsMonotone(s: Store, t: Store, p: Path, lookupFails: bool)
    requires s.paths <= t.paths
    requires AlreadyExists(s, p, lookupFails)
    ensures AlreadyExists(t, p, lookupFails)
  {
  }
}
