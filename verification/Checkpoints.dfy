/** What the fetcher and the scan share: the checkpoint of an endpoint (`internal/fetcher/types.go`). */
module Checkpoints {
  /**
   A value of Go type `any`, as far as the scan tells values apart.  `Int` and `Texts`
   exist only until the state is written as JSON.
   */
  datatype Json =
    | Null
    | Int(n: int)
    | Number(x: real)
    | Text(s: string)
    | Texts(ts: seq<string>)
    | List(items: seq<Element>)
    | Other

  datatype Element = Word(s: string) | Thing

  /** The keys of the provider state: the five the scan owns, and any other by name. */
  datatype Key = StartedKey | PagesKey | RecentKey | IssueKey | CompletedKey | OtherKey(name: string)

  type ProviderState = map<Key, Json>

  datatype Checkpoint = Checkpoint(cursor: string, etag: string, lastModified: string, state: ProviderState)

  /** The first of two texts that is not empty. */
  function First(a: string, b: string): string {
    if a != "" then a else b
  }
}
