/**
 * The parsed configuration: an ordered map from repository name to its
 * record, whose keys are all optional. Values of `tag` and `commit` keep
 * their YAML types because the pipeline tests them for truthiness.
 */
module Config {
  import opened Optional

  /** A YAML scalar as JavaScript sees it after parsing; `Undefined` is an unset variable. */
  datatype Value = Undefined | Null | Bool(b: bool) | Num(n: int) | Str(s: string)

  /** JavaScript truthiness of a scalar. */
  predicate Truthy(v: Value) {
    match v
    case Undefined => false
    case Null => false
    case Bool(b) => b
    case Num(n) => n != 0
    case Str(s) => s != ""
  }

  /** The `file` map of a repository: (path in the repository, destination) in key order. */
  type FileMap = seq<(string, string)>

  /**
   * One entry of `repos`. A field is `Some` when its key is present
   * (`'url' in repo`); `file` is `None` when `repo.file` is falsy.
   */
  datatype Repo = Repo(url: Option<string>, tag: Option<Value>, commit: Option<Value>, file: Option<FileMap>)
}
