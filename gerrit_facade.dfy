/**
 * The client facade over a Gerrit server: unwrapping of response bodies,
 * normalisation of server paths to build-tool paths, the per-instance
 * file-list cache, and the error kinds of its two operations.
 */
module GerritFacade {
  import opened Wrappers
  import opened Strings
  import opened Json
  import opened Connector

  /** The XSSI guard Gerrit prepends to JSON bodies. */
  const ResponsePrefix := ")]}'"
  /** The pseudo-file Gerrit lists for the commit message. */
  const CommitMsg := "/COMMIT_MSG"
  /** The literal that ends the path-normalisation pattern `.*src/`. */
  const SrcRoot := "src/"

  const ErrorListing := "Error listing files"
  const ErrorSetting := "Error setting review"

  // ---------------------------------------------------------------------
  // Response unwrapping

  /** Removes the first occurrence of the XSSI guard, wherever it is. */
  function TrimResponse(response: string): (json: string)
    ensures !Contains(response, ResponsePrefix) ==> json == response
    ensures forall i :: IsFirstOccurrence(response, ResponsePrefix, i) ==>
              json == response[..i] + response[i + |ResponsePrefix|..]
    ensures Contains(response, ResponsePrefix) ==> |json| == |response| - |ResponsePrefix|
  {
    match IndexOf(response, ResponsePrefix)
    case None => response
    case Some(i) => response[..i] + response[i + |ResponsePrefix|..]
  }

  /** A body that starts with the guard is unwrapped to exactly what follows it. */
  lemma TrimResponseOfGuarded(body: string)
    ensures TrimResponse(ResponsePrefix + body) == body
  {
  }

  // ---------------------------------------------------------------------
  // Path normalisation: `fileName.replaceFirst(".*src/", "src/")`

  /**
   * The pattern `.*src/` matches `s[p..e]`: the text ends with `src/` and,
   * since `.` matches no line terminator, holds none.
   */
  ghost predicate SrcRootMatch(s: string, p: int, e: int) {
    && 0 <= p <= e - |SrcRoot|
    && OccursAt(s, SrcRoot, e - |SrcRoot|)
    && NoLineTerminatorIn(s, p, e)
  }

  /**
   * `s[p..e]` is the match `Matcher.find` reports: the leftmost start, and
   * from it the longest match, since `.*` is greedy.
   */
  ghost predicate FirstLongestMatch(s: string, p: int, e: int) {
    && SrcRootMatch(s, p, e)
    && (forall p', e' :: SrcRootMatch(s, p', e') ==> p <= p')
    && (forall e' :: SrcRootMatch(s, p, e') ==> e' <= e)
  }

  lemma SrcRootIsSingleLine()
    ensures SingleLine(SrcRoot)
  {
  }

  /**
   * The match, found as: the first `src/`, the line it lies on, and the
   * last `src/` on that line.
   */
  function FindSrcRoot(s: string): (m: Option<(nat, nat)>)
    ensures m.None? ==> forall p, e :: !SrcRootMatch(s, p, e)
    ensures m.Some? ==> FirstLongestMatch(s, m.value.0, m.value.1)
  {
    match IndexOf(s, SrcRoot)
    case None => None
    case Some(k) =>
      SrcRootIsSingleLine();
      OccurrenceIsSingleLine(s, SrcRoot, k);
      var p := LineStart(s, k);
      var end := LineEnd(s, k);
      var last := LastOccurrenceIn(s, SrcRoot, k, end - |SrcRoot|);
      FindSrcRootIsFirstLongest(s, k, p, end, last);
      Some((p, last + |SrcRoot|))
  }

  /**
   * From the first `src/` at `k`, the line `[p, end)` around it and the last
   * `src/` at `last` on that line, `s[p..last + 4]` is the reported match.
   */
  lemma FindSrcRootIsFirstLongest(s: string, k: nat, p: nat, end: nat, last: nat)
    requires IsFirstOccurrence(s, SrcRoot, k)
    requires k + |SrcRoot| <= end <= |s|
    requires p <= k && NoLineTerminatorIn(s, p, k) && (p == 0 || IsLineTerminator(s[p - 1]))
    requires NoLineTerminatorIn(s, k, end) && (end == |s| || IsLineTerminator(s[end]))
    requires k <= last <= end - |SrcRoot| && OccursAt(s, SrcRoot, last)
    requires forall j :: last < j <= end - |SrcRoot| ==> !OccursAt(s, SrcRoot, j)
    ensures FirstLongestMatch(s, p, last + |SrcRoot|)
  {
  }

  /** There is at most one reported match. */
  lemma FirstLongestMatchUnique(s: string, p: int, e: int, p': int, e': int)
    requires FirstLongestMatch(s, p, e) && FirstLongestMatch(s, p', e')
    ensures p == p' && e == e'
  {
  }

  /** Rewrites the leftmost-longest match of `.*src/` to `src/`; a path without `src/` is unchanged. */
  function ParseFileName(fileName: string): (r: string)
    ensures (forall p, e :: !SrcRootMatch(fileName, p, e)) ==> r == fileName
    ensures forall p, e :: FirstLongestMatch(fileName, p, e) ==>
              r == fileName[..p] + SrcRoot + fileName[e..]
  {
    match FindSrcRoot(fileName)
    case None => fileName
    case Some((p, e)) =>
      assert forall p', e' :: FirstLongestMatch(fileName, p', e') ==> p' == p && e' == e by {
        forall p', e' | FirstLongestMatch(fileName, p', e') ensures p' == p && e' == e {
          FirstLongestMatchUnique(fileName, p, e, p', e');
        }
      }
      fileName[..p] + SrcRoot + fileName[e..]
  }

  /** A path with no `src/` is returned unchanged. */
  lemma ParseFileNameWithoutSrcRoot(fileName: string)
    requires !Contains(fileName, SrcRoot)
    ensures ParseFileName(fileName) == fileName
  {
  }

  /**
   * On a single-line path, the greedy `.*` reaches the LAST `src/`: the
   * result is `src/` followed by what comes after it, which holds no `src/`.
   */
  lemma {:induction false} ParseFileNameOfSingleLine(fileName: string, k: int)
    requires SingleLine(fileName)
    requires IsLastOccurrence(fileName, SrcRoot, k)
    ensures ParseFileName(fileName) == SrcRoot + fileName[k + |SrcRoot|..]
    ensures !Contains(fileName[k + |SrcRoot|..], SrcRoot)
  {
    var e := k + |SrcRoot|;
    assert SrcRootMatch(fileName, 0, e);
    forall e' | SrcRootMatch(fileName, 0, e') ensures e' <= e {
      assert !(k < e' - |SrcRoot|) by {
        assert OccursAt(fileName, SrcRoot, e' - |SrcRoot|);
      }
    }
    assert FirstLongestMatch(fileName, 0, e);
    assert fileName[..0] + SrcRoot + fileName[e..] == SrcRoot + fileName[e..];
    var rest := fileName[e..];
    forall j ensures !OccursAt(rest, SrcRoot, j) {
      if 0 <= j && j + |SrcRoot| <= |rest| {
        assert rest[j..j + |SrcRoot|] == fileName[e + j..e + j + |SrcRoot|];
        assert !OccursAt(fileName, SrcRoot, e + j);
      }
    }
  }

  /** On a single-line path that holds `src/`, the cut runs to its last `src/`. */
  lemma ParseFileNameOfSingleLineContaining(fileName: string)
    requires SingleLine(fileName) && Contains(fileName, SrcRoot)
    ensures exists k :: IsLastOccurrence(fileName, SrcRoot, k)
                        && ParseFileName(fileName) == SrcRoot + fileName[k + |SrcRoot|..]
  {
    var k := LastOccurrenceIn(fileName, SrcRoot, IndexOf(fileName, SrcRoot).value, |fileName| - |SrcRoot|);
    ParseFileNameOfSingleLine(fileName, k);
  }

  /** The result holds `src/` exactly when the path does. */
  lemma ParseFileNameContainsSrcRoot(fileName: string)
    ensures Contains(ParseFileName(fileName), SrcRoot) <==> Contains(fileName, SrcRoot)
  {
    var m := FindSrcRoot(fileName);
    if m.Some? {
      var (p, e) := m.value;
      var r := fileName[..p] + SrcRoot + fileName[e..];
      assert ParseFileName(fileName) == r;
      SpliceChars(fileName, p, e);
      assert r[p..p + |SrcRoot|] == SrcRoot;
      assert OccursAt(r, SrcRoot, p);
      assert OccursAt(fileName, SrcRoot, e - |SrcRoot|);
    }
  }

  /** The match of `.*src/` starts a line: else it would extend one character to the left. */
  lemma MatchStartsLine(f: string, p: int, e: int)
    requires FirstLongestMatch(f, p, e)
    ensures p == 0 || IsLineTerminator(f[p - 1])
  {
    assert p > 0 && !IsLineTerminator(f[p - 1]) ==> SrcRootMatch(f, p - 1, e);
  }

  /** Where the characters of `f[..p] + SrcRoot + f[e..]` come from. */
  lemma SpliceChars(f: string, p: int, e: int)
    requires 0 <= p <= e <= |f|
    ensures var g := f[..p] + SrcRoot + f[e..];
      && |g| == p + |SrcRoot| + |f| - e
      && (forall i :: 0 <= i < p ==> g[i] == f[i])
      && (forall i :: p <= i < p + |SrcRoot| ==> g[i] == SrcRoot[i - p])
      && (forall i :: p + |SrcRoot| <= i < |g| ==> g[i] == f[i - p - |SrcRoot| + e])
  {
  }

  /** After the rewrite, no match starts before the `src/` just written. */
  lemma {:induction false} RewriteLeftmost(f: string, p: int, e: int, p': int, e': int)
    requires FirstLongestMatch(f, p, e)
    requires SrcRootMatch(f[..p] + SrcRoot + f[e..], p', e')
    ensures p <= p'
  {
    var g := f[..p] + SrcRoot + f[e..];
    var n := |SrcRoot|;
    SpliceChars(f, p, e);
    if e' <= p {
      // the match lies wholly in the untouched prefix, so it is a match of f
      assert g[e' - n..e'] == f[e' - n..e'];
      assert SrcRootMatch(f, p', e');
    } else {
      // it would have to span the terminator before p
      MatchStartsLine(f, p, e);
      assert p == 0 || g[p - 1] == f[p - 1];
    }
  }

  /** A match from `p` that ends in the copied suffix is, shifted back, a match of f from `p`. */
  lemma {:induction false} SuffixMatchShifts(f: string, p: int, e: int, e': int)
    requires SrcRootMatch(f, p, e)
    requires SrcRootMatch(f[..p] + SrcRoot + f[e..], p, e')
    requires p + 2 * |SrcRoot| <= e'
    ensures SrcRootMatch(f, p, e' - p - |SrcRoot| + e)
  {
    var g := f[..p] + SrcRoot + f[e..];
    var n := |SrcRoot|;
    var big := e' - p - n + e;
    SpliceChars(f, p, e);
    forall i | e' - n <= i < e' ensures g[i] == f[i - e' + big] { }
    assert f[big - n..big] == g[e' - n..e'];
    forall j | e <= j < big ensures !IsLineTerminator(f[j]) {
      assert f[j] == g[j - e + p + n];
    }
  }

  /** After the rewrite, the longest match from `p` is the `src/` just written. */
  lemma {:induction false} RewriteLongest(f: string, p: int, e: int, e': int)
    requires FirstLongestMatch(f, p, e)
    requires SrcRootMatch(f[..p] + SrcRoot + f[e..], p, e')
    ensures e' <= p + |SrcRoot|
  {
    var g := f[..p] + SrcRoot + f[e..];
    var n := |SrcRoot|;
    var k' := e' - n;
    if k' < p + n {
      // only the first character of `src/` is an `s`
      SpliceChars(f, p, e);
      assert g[k'] == g[k'..e'][0] == 's';
      assert g[k'] == SrcRoot[k' - p];
    } else {
      // a later `src/` in the copied suffix would be a longer match of f from p
      SuffixMatchShifts(f, p, e, e');
    }
  }

  /** Rewriting the match leaves a path whose match is the `src/` just written. */
  lemma RewriteMatchesItself(f: string, p: int, e: int)
    requires FirstLongestMatch(f, p, e)
    ensures FirstLongestMatch(f[..p] + SrcRoot + f[e..], p, p + |SrcRoot|)
  {
    var g := f[..p] + SrcRoot + f[e..];
    SpliceChars(f, p, e);
    SrcRootIsSingleLine();
    assert g[p..p + |SrcRoot|] == SrcRoot;
    assert SrcRootMatch(g, p, p + |SrcRoot|);
    forall p', e' | SrcRootMatch(g, p', e') ensures p <= p' {
      RewriteLeftmost(f, p, e, p', e');
    }
    forall e' | SrcRootMatch(g, p, e') ensures e' <= p + |SrcRoot| {
      RewriteLongest(f, p, e, e');
    }
  }

  /** Normalising a normalised path changes nothing. */
  lemma ParseFileNameIdempotent(fileName: string)
    ensures ParseFileName(ParseFileName(fileName)) == ParseFileName(fileName)
  {
    match FindSrcRoot(fileName)
    case None =>
    case Some((p, e)) =>
      var g := fileName[..p] + SrcRoot + fileName[e..];
      RewriteMatchesItself(fileName, p, e);
      assert g[..p] == fileName[..p];
      assert g[p + |SrcRoot|..] == fileName[e..];
  }

  /** The commit-message pseudo-file is the only path normalised to its own name. */
  lemma ParseFileNameToCommitMsg(fileName: string)
    ensures ParseFileName(fileName) == CommitMsg <==> fileName == CommitMsg
  {
    assert !Contains(CommitMsg, SrcRoot) by {
      // `/COMMIT_MSG` has no lower-case `s`
      assert forall j :: 0 <= j < |CommitMsg| ==> CommitMsg[j] != 's';
      forall i | 0 <= i <= |CommitMsg| - |SrcRoot| ensures !OccursAt(CommitMsg, SrcRoot, i) {
        assert CommitMsg[i..i + |SrcRoot|][0] == CommitMsg[i];
      }
    }
    ParseFileNameContainsSrcRoot(fileName);
    ParseFileNameWithoutSrcRoot(CommitMsg);
    if !Contains(fileName, SrcRoot) {
      ParseFileNameWithoutSrcRoot(fileName);
    }
  }

  /** No `src/` starts at or after `from` when no `s` does. */
  lemma NoSrcRootFrom(s: string, from: int)
    requires 0 <= from
    requires forall j :: from <= j < |s| ==> s[j] != 's'
    ensures forall j :: from <= j ==> !OccursAt(s, SrcRoot, j)
  {
    forall j | from <= j && j + |SrcRoot| <= |s| ensures !OccursAt(s, SrcRoot, j) {
      assert s[j..j + |SrcRoot|][0] == s[j];
    }
  }

  /**
   * Everything up to a `src/` after which no `src/` follows is cut off,
   * whatever the prefix holds (`module-a/src/main/Bar.java` becomes
   * `src/main/Bar.java`, `a/src/b/src/c.java` becomes `src/c.java`).
   */
  lemma {:induction false} ParseFileNameCutsPrefix(prefix: string, rest: string)
    requires SingleLine(prefix) && SingleLine(rest)
    requires !Contains(rest, SrcRoot)
    ensures ParseFileName(prefix + SrcRoot + rest) == SrcRoot + rest
  {
    var f := prefix + SrcRoot + rest;
    var k, n := |prefix|, |SrcRoot|;
    assert forall i :: 0 <= i < k ==> f[i] == prefix[i];
    assert forall i :: k <= i < k + n ==> f[i] == SrcRoot[i - k];
    assert forall i :: k + n <= i < |f| ==> f[i] == rest[i - k - n];
    SrcRootIsSingleLine();
    assert SingleLine(f);
    assert f[k..k + n] == SrcRoot;
    forall j | k < j ensures !OccursAt(f, SrcRoot, j) {
      if k + n <= j && j + n <= |f| {
        assert f[j..j + n] == rest[j - k - n..j - k];
        assert !OccursAt(rest, SrcRoot, j - k - n);
      } else if j + n <= |f| {
        // only the first character of `src/` is an `s`
        assert f[j..j + n][0] == f[j] == SrcRoot[j - k];
      }
    }
    ParseFileNameOfSingleLine(f, k);
    assert f[k + n..] == rest;
  }

  /** The rewrite ignores segment boundaries: `mysrc/` counts. */
  lemma ExampleNotSegmentAware()
    ensures ParseFileName("mysrc/x") == "src/x"
  {
    var f := "mysrc/x";
    NoSrcRootFrom(f, 3);
    assert f[2..6] == SrcRoot;
    ParseFileNameOfSingleLine(f, 2);
    assert f[6..] == "x";
  }

  lemma ExampleNoSrcRoot()
    ensures ParseFileName("README.md") == "README.md"
  {
    NoSrcRootFrom("README.md", 0);
    ParseFileNameWithoutSrcRoot("README.md");
  }

  // ---------------------------------------------------------------------
  // The file list: normalised local path -> path as the server reports it

  /** Every entry maps the normalisation of a real (non commit-message) server path to that path. */
  ghost predicate NormalisedEntries(files: map<string, string>) {
    forall local :: local in files ==> files[local] != CommitMsg && ParseFileName(files[local]) == local
  }

  /**
   * `files` is a file list built from the server paths `paths`: its keys are
   * the normalisations of the paths other than `/COMMIT_MSG`, and each key
   * maps to one such path that normalises to it.
   */
  ghost predicate IsFileListOf(files: map<string, string>, paths: set<string>) {
    && NormalisedEntries(files)
    && (forall local :: local in files ==> files[local] in paths)
    && files.Keys == set path | path in paths - {CommitMsg} :: ParseFileName(path)
  }

  /** `/COMMIT_MSG` is neither a key nor a value of a file list. */
  lemma CommitMsgNotListed(files: map<string, string>)
    requires NormalisedEntries(files)
    ensures CommitMsg !in files && CommitMsg !in files.Values
  {
    if CommitMsg in files {
      ParseFileNameToCommitMsg(files[CommitMsg]);
    }
  }

  /**
   * A file list is empty exactly when the server listed nothing but
   * `/COMMIT_MSG`; then the cache stays empty and the next call fetches again.
   */
  lemma FileListEmpty(files: map<string, string>, paths: set<string>)
    requires IsFileListOf(files, paths)
    ensures files == map[] <==> paths <= {CommitMsg}
  {
    if path :| path in paths && path != CommitMsg {
      assert ParseFileName(path) in files.Keys;
    }
  }

  /** When no two listed paths normalise alike, the file list is determined by the paths. */
  lemma FileListUnique(a: map<string, string>, b: map<string, string>, paths: set<string>)
    requires IsFileListOf(a, paths) && IsFileListOf(b, paths)
    requires forall x, y ::
               x in paths && y in paths && x != CommitMsg && y != CommitMsg && ParseFileName(x) == ParseFileName(y)
               ==> x == y
    ensures a == b
  {
  }

  /** How a listing that reached the server ends, given its reply. */
  ghost predicate FetchedAs(reply: Reply, mapper: ObjectMapper,
                            result: Result<map<string, string>, FacadeError>, files: map<string, string>)
  {
    match reply
    case IoError =>
      result == Failure(GerritPluginError(ErrorListing, TransportFailure)) && files == map[]
    case Body(text) =>
      match mapper.readFiles(TrimResponse(text))
      case Malformed =>
        result == Failure(GerritPluginError(ErrorListing, JsonFailure)) && files == map[]
      case JsonNull =>
        result == Failure(NullDereference) && files == map[]
      case Files(paths) =>
        result == Success(files) && IsFileListOf(files, paths)
  }

  /** What went wrong underneath a plugin error. */
  datatype Cause = TransportFailure | JsonFailure

  datatype FacadeError =
    | GerritPluginError(message: string, cause: Cause)
    | NullDereference  // a body of JSON `null` is dereferenced; not wrapped

  class Facade {
    const connector: GerritConnector
    const mapper: ObjectMapper
    /** The cache: filled at most once, by the first listing that yields a file. */
    var fileList: map<string, string>

    ghost predicate Valid()
      reads this
    {
      NormalisedEntries(fileList)
    }

    constructor (connector: GerritConnector, mapper: ObjectMapper)
      ensures Valid()
      ensures this.connector == connector && this.mapper == mapper
      ensures fileList == map[]
    {
      this.connector := connector;
      this.mapper := mapper;
      fileList := map[];
    }

    /**
     * The file list of a revision: the cache if it holds anything, otherwise
     * fetched, unwrapped, parsed and normalised into the cache.
     */
    method ListFiles(revision: Revision) returns (result: Result<map<string, string>, FacadeError>)
      requires Valid()
      modifies this, connector
      ensures Valid()
      ensures result.Success? ==> result.value == fileList
      ensures result.Success? ==> CommitMsg !in result.value && CommitMsg !in result.value.Values
      ensures old(fileList) != map[] ==>
                result == Success(old(fileList)) && fileList == old(fileList)
                && connector.requests == old(connector.requests)
      ensures old(fileList) == map[] ==>
                connector.requests == old(connector.requests) + [ListFilesRequest(revision)]
                && FetchedAs(connector.listReply(|old(connector.requests)|, revision), mapper, result, fileList)
    {
      if fileList != map[] {
        CommitMsgNotListed(fileList);
        return Success(fileList);
      }
      var reply := connector.ListFiles(revision);
      match reply {
        case IoError =>
          result := Failure(GerritPluginError(ErrorListing, TransportFailure));
        case Body(text) =>
          var json := TrimResponse(text);
          match mapper.readFiles(json) {
            case Malformed =>
              result := Failure(GerritPluginError(ErrorListing, JsonFailure));
            case JsonNull =>
              result := Failure(NullDereference);
            case Files(paths) =>
              var keys := paths - {CommitMsg};
              var remaining := keys;
              ghost var done: set<string> := {};
              while remaining != {}
                invariant remaining <= keys && done == keys - remaining
                invariant NormalisedEntries(fileList)
                invariant forall local :: local in fileList ==> fileList[local] in done
                invariant fileList.Keys == set path | path in done :: ParseFileName(path)
                modifies this
                decreases remaining
              {
                var key :| key in remaining;
                fileList := fileList[ParseFileName(key) := key];
                remaining := remaining - {key};
                done := done + {key};
              }
              CommitMsgNotListed(fileList);
              result := Success(fileList);
          }
      }
    }

    /** Serialises a review and sends it; either failure becomes the one review error. */
    method SetReview(revision: Revision, review: ReviewInput) returns (outcome: Outcome<FacadeError>)
      modifies connector
      ensures mapper.writeReview(review).Unserialisable? ==>
                outcome == Fail(GerritPluginError(ErrorSetting, JsonFailure))
                && connector.requests == old(connector.requests)
      ensures mapper.writeReview(review).Text? ==>
                var json := mapper.writeReview(review).text;
                && connector.requests == old(connector.requests) + [SetReviewRequest(revision, json)]
                && outcome == (match connector.reviewReply(|old(connector.requests)|, revision, json)
                               case Delivered => Pass
                               case Undelivered => Fail(GerritPluginError(ErrorSetting, TransportFailure)))
    {
      match mapper.writeReview(review) {
        case Unserialisable =>
          outcome := Fail(GerritPluginError(ErrorSetting, JsonFailure));
        case Text(json) =>
          var delivery := connector.SetReview(revision, json);
          outcome := if delivery.Delivered? then Pass else Fail(GerritPluginError(ErrorSetting, TransportFailure));
      }
    }
  }

  /**
   * Two listings through one facade: once the first yields files, the
   * second returns the same map without a request, whatever revision it
   * names (the cache is not keyed by revision); when the first fails or
   * yields no file, the second asks the server again.
   */
  method ListFilesTwice(facade: Facade, first: Revision, second: Revision)
    returns (a: Result<map<string, string>, FacadeError>, b: Result<map<string, string>, FacadeError>)
    requires facade.Valid()
    modifies facade, facade.connector
    ensures a.Success? && a.value != map[] ==>
              b == a
              && facade.connector.requests ==
                 old(facade.connector.requests) + (if old(facade.fileList) == map[] then [ListFilesRequest(first)] else [])
    ensures a.Failure? || a == Success(map[]) ==>
              facade.connector.requests ==
                old(facade.connector.requests) + [ListFilesRequest(first), ListFilesRequest(second)]
  {
    a := facade.ListFiles(first);
    b := facade.ListFiles(second);
  }
}
