/**
 * The data of the pre-commit engine: the `Repo` and `Hook` records of a
 * `.pre-commit-config.yaml`, the recommended-hook catalog, the response
 * record, the errors, and the YAML parser the engine calls, taken as an
 * abstract input.
 */
module Precommit {

  datatype Option<T> = None | Some(value: T)

  datatype Result<T, E> = Ok(value: T) | Err(error: E)

  /** One `- id: ...` entry under a repo's `hooks:`. */
  datatype Hook = Hook(id: string)

  /** One `- repo: ...` entry: its URL, its pinned `rev` and its hooks. */
  datatype Repo = Repo(repo: string, rev: string, hooks: seq<Hook>)

  /**
   * The recommended-hook catalog: detected language -> candidate repos.
   * The key `Common` lists repos recommended for every project.
   */
  type Catalog = map<string, seq<Repo>>

  const Common: string := "common"

  /** The repos recommended for every project (none when the key is absent). */
  function CommonRepos(catalog: Catalog): seq<Repo>
  {
    if Common in catalog then catalog[Common] else []
  }

  /** The 1-based line and column the YAML parser reports for a node. */
  datatype Position = Position(line: nat, column: nat)

  /**
   * What the patcher reads off the parsed node tree of a text:
   * `hooksSeq`, the position of the first sequence node under a `hooks`
   * key anywhere in the document, and `anchor(url)`, the node the
   * tree lookup reports for a repo name (none when the name is absent).
   */
  datatype NodeTree = NodeTree(hooksSeq: Option<Position>, anchor: string -> Option<Position>)

  /**
   * The YAML library, as the engine uses it: `decode` reads a text into
   * its list of repos, `nodes` into its node tree; `None` is a parse error.
   */
  datatype Yaml = Yaml(decode: string -> Option<seq<Repo>>, nodes: string -> Option<NodeTree>)

  datatype Error =
    | ParseError                 // the YAML text does not parse
    | ConfigFileError            // the catalog file cannot be read
    | RepoNotFound(repo: string) // the repo name has no node in the document
    | IndexPanic                 // Go aborts with "index out of range"

  /** The response record returned to the caller. */
  datatype Response = Response(
    originalInput: string,
    finalOutput: string,
    isChanged: bool,
    configfileFetchError: bool)
}
