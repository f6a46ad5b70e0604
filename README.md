# GerritFacade, modelled in Dafny

A model of `GerritFacade`, the client facade that a SonarQube plugin uses to
talk to a Gerrit code-review server. The facade does two things.

- It lists the files of one revision. A fetch strips Gerrit's XSSI guard
  `)]}'`, parses the JSON object and drops the `/COMMIT_MSG` pseudo-file.
  It then maps each path, normalised to the build tool's `src/`-rooted
  form, to the path as Gerrit reports it, and puts that map in the cache.
  The facade fetches on every call until a fetch yields at least one file.
  From then on it returns the cached map without contacting the server.
- It posts a review: it serialises the review as JSON and sends it.
  Serialisation failures and transport failures become the same error.

Modules:

- `Wrappers`: `Option`, `Result`, `Outcome`.
- `Strings`: substring search (first occurrence, last occurrence in a
  range). It also defines lines in the sense of `java.util.regex`, whose `.`
  matches no line terminator (`\n`, `\r`, U+0085, U+2028, U+2029).
- `Json`: the object mapper as an oracle. Reading a body yields the key set
  of the parsed object, the JSON literal `null`, or a processing failure.
  Writing a review yields JSON text or a failure. `ReviewInput` is an
  abstract type.
- `Connector`: the HTTP transport as an oracle object (`GerritConnector`).
  It logs every request. The server's answer is a function of the request
  and of how many requests came before it.
- `GerritFacade`: the constants, `TrimResponse`, `ParseFileName` and their
  lemmas, and the predicates that say what a file list is. Also the class
  `Facade`, whose `fileList` field is the cache, with `ListFiles` and
  `SetReview`.

How `replaceFirst(".*src/", "src/")` is modelled. `SrcRootMatch(s, p, e)`
says "the pattern matches `s[p..e]`". `FirstLongestMatch` picks the match
`Matcher.find` reports: the leftmost start, and from that start the
longest match, because `.*` is greedy. `ParseFileName` is specified
against that predicate. It is computed from the first `src/`, the line it
lies on, and the last `src/` on that line. For a single-line path this
means the cut runs to the LAST `src/`, so `a/src/b/src/c.java` becomes
`src/c.java`. It is not segment-aware, so `mysrc/x` becomes `src/x`. A
first-occurrence reading of the normalisation would give
`src/b/src/c.java`. That is not what the code does, and the model follows
the code. Paths that hold line terminators are modelled as Java treats
them (the match stays within one line), so `ParseFileName` has no
precondition.

The listing iterates over the parsed key set with `:|`, so the order is
unspecified, as it is for a `HashMap` key set. The method's contract gives
the cache's key set exactly, and it ties every entry to its value by
`key == ParseFileName(value)`.

## Model

| member | source | states |
|---|---|---|
| `GerritFacade.TrimResponse` | src/main/java/fr/techad/sonar/gerrit/GerritFacade.java:79-81 | With no `)]}'` in the body, the result is the body. Otherwise the result is the text before the FIRST occurrence followed by the text after it, and it is 4 characters shorter. |
| `GerritFacade.TrimResponseOfGuarded` | src/main/java/fr/techad/sonar/gerrit/GerritFacade.java:22 | A body that starts with `)]}'` is unwrapped to exactly what follows the guard. |
| `GerritFacade.FindSrcRoot` | src/main/java/fr/techad/sonar/gerrit/GerritFacade.java:84 | It returns None exactly when `.*src/` matches nowhere. Otherwise it returns the leftmost-longest match: the leftmost start, and from it the longest greedy match within one line. |
| `GerritFacade.ParseFileName` | src/main/java/fr/techad/sonar/gerrit/GerritFacade.java:83-85 | With no match, the result is the path unchanged. Otherwise the leftmost-longest match `fileName[p..e]` of `.*src/` is replaced by `src/`, and the text before `p` and after `e` is kept. |
| `GerritFacade.ParseFileNameWithoutSrcRoot` | src/main/java/fr/techad/sonar/gerrit/GerritFacade.java:84 | A path with no `src/` anywhere is returned unchanged. |
| `GerritFacade.ParseFileNameOfSingleLine` | src/main/java/fr/techad/sonar/gerrit/GerritFacade.java:24 | On a path without line terminators, the result is `src/` followed by the suffix after the LAST `src/`, and that suffix holds no `src/`. |
| `GerritFacade.ParseFileNameOfSingleLineContaining` | src/main/java/fr/techad/sonar/gerrit/GerritFacade.java:84 | On a path without line terminators that holds `src/`, the result is `src/` followed by the suffix after the last `src/`. |
| `GerritFacade.ParseFileNameCutsPrefix` | src/main/java/fr/techad/sonar/gerrit/GerritFacade.java:84 | For a prefix and a rest without line terminators, `prefix + "src/" + rest` becomes `"src/" + rest` whenever `rest` has no `src/`, whatever `src/` the prefix holds. |
| `GerritFacade.ExampleNotSegmentAware` | src/main/java/fr/techad/sonar/gerrit/GerritFacade.java:24 | `mysrc/x` becomes `src/x`: the pattern ignores segment boundaries. |
| `GerritFacade.ExampleNoSrcRoot` | src/main/java/fr/techad/sonar/gerrit/GerritFacade.java:84 | `README.md` is returned unchanged. |
| `GerritFacade.ParseFileNameContainsSrcRoot` | src/main/java/fr/techad/sonar/gerrit/GerritFacade.java:84 | The result contains `src/` if and only if the path does. |
| `GerritFacade.ParseFileNameIdempotent` | src/main/java/fr/techad/sonar/gerrit/GerritFacade.java:84 | Normalising a normalised path changes nothing. |
| `GerritFacade.ParseFileNameToCommitMsg` | src/main/java/fr/techad/sonar/gerrit/GerritFacade.java:23 | A path normalises to `/COMMIT_MSG` if and only if it is `/COMMIT_MSG`. |
| `GerritFacade.CommitMsgNotListed` | src/main/java/fr/techad/sonar/gerrit/GerritFacade.java:55-57 | In a map whose entries are normalised non-commit-message paths, `/COMMIT_MSG` is neither a key nor a value. |
| `GerritFacade.FileListEmpty` | src/main/java/fr/techad/sonar/gerrit/GerritFacade.java:47-58 | A file list built from a key set is empty if and only if the key set holds nothing but `/COMMIT_MSG`. |
| `GerritFacade.FileListUnique` | src/main/java/fr/techad/sonar/gerrit/GerritFacade.java:56-58 | When no two listed paths normalise to the same local path, the file list is determined by the key set. |
| `GerritFacade.Facade.constructor` | src/main/java/fr/techad/sonar/gerrit/GerritFacade.java:28-30 | The facade starts with an empty cache and the given connector and object mapper. |
| `GerritFacade.Facade.ListFiles` | src/main/java/fr/techad/sonar/gerrit/GerritFacade.java:45-64 | A non-empty cache is returned unchanged, with no request. With an empty cache, exactly one list-files request is made. An I/O failure or a malformed body fails with "Error listing files" and leaves the cache empty. A JSON `null` body fails unwrapped and leaves the cache empty. Parsed keys fill the cache so that its key set is the image of `ParseFileName` over the keys minus `/COMMIT_MSG`. Each value is such a key, and each key is `ParseFileName` of its value. A successful result never holds `/COMMIT_MSG`. |
| `GerritFacade.Facade.SetReview` | src/main/java/fr/techad/sonar/gerrit/GerritFacade.java:66-76 | If serialisation fails, the result is "Error setting review" and no request is made. Otherwise exactly one set-review request carries the JSON. A transport failure gives the same "Error setting review" kind, and delivery gives success. |
| `GerritFacade.ListFilesTwice` | src/main/java/fr/techad/sonar/gerrit/GerritFacade.java:47-48 | Once a listing has returned a non-empty map, a second listing returns the same map and sends nothing, even for another revision: the connector's log gains only the first call's `ListFilesRequest(first)`, and only when the cache was empty before. When the first listing fails or returns an empty map (a listing of nothing but `/COMMIT_MSG`), the log gains exactly `ListFilesRequest(first)` then `ListFilesRequest(second)`. |
| `Connector.GerritConnector.ListFiles` | src/main/java/fr/techad/sonar/gerrit/GerritFacade.java:51 | The list-files request is appended to the request log, and the reply is the server's answer to it. |
| `Connector.GerritConnector.SetReview` | src/main/java/fr/techad/sonar/gerrit/GerritFacade.java:70 | The set-review request and its JSON are appended to the request log, and the delivery is the server's answer to it. |

## Left out

- `GerritConnector` internals are not part of this model. The transport is
  an oracle object, with no HTTP, host/port/base-path composition or
  basic/digest authentication.
- The two public constructors (lines 32-39) are modelled only as the
  facade constructor, which takes the connector and the object mapper as
  parameters. That constructor also stands in for the `setGerritConnector`
  test hook (lines 87-89).
- Jackson's `readValue`/`writeValueAsString` are oracles in `Json`.
  `ReviewInput` is not part of this model and is an abstract type.
  Exceptions other than the processing/I/O exceptions the source catches
  are not modelled, except the null-dereference on a JSON `null` body.
- SLF4J logging carries no behaviour and is left out.
- `Collections.unmodifiableMap`: a Dafny `map` value is already immutable.
  The source returns a live read-only view of the cache, not a copy, so a
  map that one call returned empty later shows the entries a later call
  puts in. The model returns a snapshot instead.
- GerritFacade.Facade.ListFiles: it does not say which server path the cache
  keeps when two paths normalise to the same local path, because `HashMap`
  iteration order is unspecified. `FileListUnique` covers the case without
  such collisions.
- Java strings are UTF-16 code units. Here a `char` is a Unicode scalar
  value, so surrogate pairs are not modelled.
- Null arguments and a null connector response are not modelled. The
  source's parameters are `@NotNull`, and the facade itself does not check
  that the identity strings are non-empty.
- Concurrency is not modelled. The facade is single-threaded state, and the
  cache is not keyed by revision: `ListFilesTwice` shows the consequence.
