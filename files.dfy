/**
 * The file system the scripts read and write, held in memory: a map from a
 * path to what opening that path would find.
 */
module Files {
  import opened Wrappers
  import opened Strings

  /**
   * What is at a path: a text file, a file whose bytes are not valid text
   * (reading it raises `UnicodeDecodeError`), or something `open` fails on
   * with an `OSError` (a directory, a file without permission).
   */
  datatype Entry = Contents(text: string) | Undecodable | Inaccessible

  type FileSystem = map<string, Entry>

  /**
   * The exceptions a read can raise: `FileNotFoundError`,
   * `UnicodeDecodeError` (a `ValueError`) and any other `OSError`.
   */
  datatype IoError = NotFound | DecodeFailure | OsFailure

  /** Opening `path` for reading or writing raises an `OSError`. */
  predicate IsInaccessible(fs: FileSystem, path: string) {
    path in fs && fs[path].Inaccessible?
  }

  /**
   * `os.path.join(dir, name)` on POSIX: an absolute name replaces the
   * directory; otherwise a `/` separates them unless `dir` is empty or
   * already ends with one.
   */
  function PathJoin(dir: string, name: string): string {
    if name != [] && name[0] == '/' then name
    else if dir == [] || dir[|dir| - 1] == '/' then dir + name
    else dir + "/" + name
  }

  /**
   * The joined path is the name after the directory, with a `/` between them
   * exactly when the directory is non-empty and does not end with one; an
   * absolute name is the whole path.
   */
  lemma PathJoinShape(dir: string, name: string)
    ensures var p := PathJoin(dir, name);
            |name| <= |p| && p[|p| - |name|..] == name
    ensures name != [] && name[0] == '/' ==> PathJoin(dir, name) == name
    ensures name == [] || name[0] != '/' ==>
              PathJoin(dir, name) == (if dir != [] && dir[|dir| - 1] != '/' then dir + "/" else dir) + name
  {
    var p := PathJoin(dir, name);
    assert p[|p| - |name|..] == name;
  }

  /** The joined path ends with the name, so it keeps the name's extension. */
  lemma PathJoinEndsWith(dir: string, name: string, suffix: string)
    requires EndsWith(name, suffix)
    ensures EndsWith(PathJoin(dir, name), suffix)
  {
    var p := PathJoin(dir, name);
    assert p[|p| - |name|..] == name;
    assert p[|p| - |suffix|..] == name[|name| - |suffix|..];
  }

  /** Two relative names joined onto the same directory give the same path only if they are the same name. */
  lemma PathJoinInjective(dir: string, a: string, b: string)
    requires a == [] || a[0] != '/'
    requires b == [] || b[0] != '/'
    requires PathJoin(dir, a) == PathJoin(dir, b)
    ensures a == b
  {
    var prefix := if dir == [] || dir[|dir| - 1] == '/' then dir else dir + "/";
    assert PathJoin(dir, a) == prefix + a;
    assert PathJoin(dir, b) == prefix + b;
    assert a == (prefix + a)[|prefix|..];
    assert b == (prefix + b)[|prefix|..];
  }

  /**
   * `open(path, "r").read()`: the text with universal newlines translated,
   * or the error the call raises.
   */
  function ReadText(fs: FileSystem, path: string): (r: Result<string, IoError>)
    ensures r.Ok? <==> path in fs && fs[path].Contents?
    ensures r.Ok? ==> r.value == TranslateNewlines(fs[path].text) && '\r' !in r.value
    ensures r == Err(NotFound) <==> path !in fs
    ensures r == Err(DecodeFailure) <==> path in fs && fs[path].Undecodable?
    ensures r == Err(OsFailure) <==> IsInaccessible(fs, path)
  {
    if path !in fs then Err(NotFound)
    else match fs[path]
      case Contents(text) => Ok(TranslateNewlines(text))
      case Undecodable => Err(DecodeFailure)
      case Inaccessible => Err(OsFailure)
  }

  /**
   * `os.makedirs(dirpath)` when `os.path.exists(dirpath)` is false: only the
   * empty path fails (`FileNotFoundError`); directories are not otherwise modelled.
   */
  predicate CanMakeDirs(dirpath: string) {
    dirpath != []
  }
}
