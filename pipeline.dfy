/** github_repo_to_markdown (rep2md4LLM.py:10-51) up to the document it would
    write: check the URL and take the names out of it, request the root
    listing, then render. The listing request is answered from `listings`, a
    map from listing URL to the entries the server returns; a URL missing from
    it is a request that failed (an exception, or an error status caught by
    raise_for_status). Writing the file and printing are not modelled. */
module Pipeline {
  import opened Errors
  import opened RepoUrl
  import opened Markdown

  const ApiBase := "https://api.github.com/repos/"
  const ContentsPath := "/contents/"

  /** The listing endpoint of the root of a repository: the API base, then
      "owner/repo", then the contents path. */
  function ApiUrl(id: RepoId): (r: string)
    ensures |r| == |ApiBase| + |id.owner + "/" + id.repo| + |ContentsPath|
    ensures r[..|ApiBase|] == ApiBase && r[|r| - |ContentsPath|..] == ContentsPath
    ensures r[|ApiBase|..|r| - |ContentsPath|] == id.owner + "/" + id.repo
  {
    ApiBase + id.owner + "/" + id.repo + ContentsPath
  }

  /** Each repository has its own listing URL: two repositories with valid
      names share it only when they are the same repository. */
  lemma ApiUrlNamesRepo(a: RepoId, b: RepoId)
    requires IsSegment(a.owner) && IsSegment(a.repo) && IsSegment(b.owner) && IsSegment(b.repo)
    requires ApiUrl(a) == ApiUrl(b)
    ensures a == b
  {
    var u := ApiUrl(a);
    assert u[|ApiBase|..|u| - |ContentsPath|] == a.owner + "/" + a.repo == b.owner + "/" + b.repo;
    JoinedNamesDetermine(a, b);
  }

  /** The whole run. `requested` lists every request made, in order: the
      listing request first, then one content request per file entry. A URL
      that fails either check makes no request at all. A successful run made
      one request more than there are file entries, and its document opens
      with the title naming "owner/repo" and the description. */
  method RepoToMarkdown(netloc: string, path: string, listings: map<string, seq<Entry>>, pages: map<string, string>)
    returns (result: Result<string>, requested: seq<string>)
    ensures ParseRepoPath(netloc, path).Err? ==>
      result == Err(ParseRepoPath(netloc, path).error) && requested == []
    ensures ParseRepoPath(netloc, path).Ok? ==>
      var id := ParseRepoPath(netloc, path).value;
      var api := ApiUrl(id);
      (api !in listings ==> result == Err(ListingFailed(api)) && requested == [api]) &&
      (api in listings ==>
        var listing := listings[api];
        (result.Ok? <==> Fetchable(listing, pages)) &&
        (result.Ok? ==>
          result.value == Document(id, listing, pages) && requested == [api] + Requests(listing) &&
          |requested| == 1 + |Files(listing)| &&
          TitleLine(id) + Description <= result.value) &&
        (result.Err? ==>
          exists k :: FirstMissing(listing, pages, k) && result.error == FetchFailed(listing[k].downloadUrl) &&
                      requested == [api] + Requests(listing[..k + 1])))
  {
    var parsed := ParseRepoPath(netloc, path);
    if parsed.Err? {
      return Err(parsed.error), [];
    }
    var id := parsed.value;
    var api := ApiUrl(id);
    requested := [api];
    if api !in listings {
      return Err(ListingFailed(api)), requested;
    }
    var contents := listings[api];
    var fetched;
    result, fetched := RenderDocument(id, contents, pages);
    requested := requested + fetched;
    RequestsPerFile(contents);
    if result.Ok? {
      assert result.value == Header(id) + Concat(Sections(contents, pages));
    }
  }
}
