/** Lines 20-23 of rep2md4LLM.py: checking the shape of a repository URL and
    taking the owner and repository names out of its path. The URL is given
    already parsed, as its host (`netloc`) and its `path`. */
module RepoUrl {
  import opened PyStr
  import opened Errors

  const GitHubHost := "github.com"

  /** Owner and repository name of a GitHub repository. */
  datatype RepoId = RepoId(owner: string, repo: string)

  /** A name the two-name unpack can produce: non-empty and without '/'. */
  predicate IsSegment(s: string)
  {
    s != "" && Free(s, '/')
  }

  /** The URL check (rejects unless the host is github.com and the path has
      three '/'-separated pieces), then `path.strip('/').split('/')` unpacked
      into exactly two names. */
  function ParseRepoPath(netloc: string, path: string): (r: Result<RepoId>)
    ensures r.Ok? ==> netloc == GitHubHost && IsSegment(r.value.owner) && IsSegment(r.value.repo)
  {
    if !(netloc == GitHubHost && |Split(path, '/')| == 3) then
      Err(InvalidRepositoryUrl)
    else
      var names := Split(Strip(path, '/'), '/');
      if |names| != 2 then Err(UnpackMismatch(|names|))
      else
        NamesOfStripped(Strip(path, '/'));
        Ok(RepoId(names[0], names[1]))
  }

  /** The first check rejects exactly the URLs whose host is not github.com or
      whose path does not hold exactly two '/'. */
  lemma ShapeCheck(netloc: string, path: string)
    ensures ParseRepoPath(netloc, path) == Err(InvalidRepositoryUrl)
        <==> !(netloc == GitHubHost && Count(path, '/') == 2)
  {
  }

  /** A stripped path with one '/' splits into two names, both non-empty
      because the strip left no '/' at either end. */
  lemma {:induction false} NamesOfStripped(s: string)
    requires s == [] || (s[0] != '/' && s[|s| - 1] != '/')
    requires |Split(s, '/')| == 2
    ensures IsSegment(Split(s, '/')[0]) && IsSegment(Split(s, '/')[1])
    ensures s == Split(s, '/')[0] + "/" + Split(s, '/')[1]
  {
    var names := Split(s, '/');
    JoinSplit(s, '/');
    assert Join(names, '/') == names[0] + "/" + names[1];
  }

  /** A path with two '/' around a core with one '/' has exactly one '/'
      stripped: either in front or behind. */
  lemma {:induction false} OneSlashStripped(path: string, s: string, i: nat)
    requires Padded(path, s, '/', i)
    requires Count(path, '/') == 2 && Count(s, '/') == 1
    ensures path == "/" + s || path == s + "/"
  {
    var front, back := path[..i], path[i + |s|..];
    assert path == front + s + back;
    CountOfRun(front, '/');
    CountOfRun(back, '/');
    CountAppend(front, s, '/');
    CountAppend(front + s, back, '/');
    if i == 1 {
      assert front == "/";
    } else {
      assert back == "/";
    }
  }

  /** Whatever is accepted comes from github.com, both names are non-empty and
      free of '/', and the path was "/owner/repo" or "owner/repo/". */
  lemma ParseSound(netloc: string, path: string)
    requires ParseRepoPath(netloc, path).Ok?
    ensures netloc == GitHubHost
    ensures var id := ParseRepoPath(netloc, path).value;
      IsSegment(id.owner) && IsSegment(id.repo) &&
      (path == "/" + id.owner + "/" + id.repo || path == id.owner + "/" + id.repo + "/")
  {
    var s := Strip(path, '/');
    var names := Split(s, '/');
    assert Count(path, '/') == 2 && |names| == 2;
    var id := ParseRepoPath(netloc, path).value;
    assert id == RepoId(names[0], names[1]);
    AcceptedShape(path, s);
  }

  /** A path with two '/' whose strip splits into two names is those names
      with one '/' added in front or behind. */
  lemma AcceptedShape(path: string, s: string)
    requires s == Strip(path, '/')
    requires Count(path, '/') == 2 && |Split(s, '/')| == 2
    ensures var names := Split(s, '/');
      path == "/" + names[0] + "/" + names[1] || path == names[0] + "/" + names[1] + "/"
  {
    var names := Split(s, '/');
    assert s == names[0] + "/" + names[1] && IsSegment(names[0]) && IsSegment(names[1]) by {
      NamesOfStripped(s);
    }
    assert path == "/" + s || path == s + "/" by {
      OneSlashStripped(path, s, StripOffset(path, '/'));
    }
    if path == "/" + s {
      AppendAssoc("/", names[0] + "/", names[1]);
      AppendAssoc("/", names[0], "/");
    }
  }

  /** The pieces of "owner/repo". */
  lemma SplitRepoId(owner: string, repo: string)
    requires IsSegment(owner) && IsSegment(repo)
    ensures Split(owner + "/" + repo, '/') == [owner, repo]
  {
    SplitAround(owner, '/', repo);
    SplitFree(owner, '/');
    SplitFree(repo, '/');
  }

  /** "owner/repo" names one repository: two pairs of non-empty, '/'-free
      names that give the same "owner/repo" are the same pair. */
  lemma JoinedNamesDetermine(a: RepoId, b: RepoId)
    requires IsSegment(a.owner) && IsSegment(a.repo) && IsSegment(b.owner) && IsSegment(b.repo)
    requires a.owner + "/" + a.repo == b.owner + "/" + b.repo
    ensures a == b
  {
    SplitRepoId(a.owner, a.repo);
    SplitRepoId(b.owner, b.repo);
  }

  /** The number of '/' in a path made of '/'-free names and `k` slashes. */
  lemma CountSlashes(a: string, b: string, c: string)
    ensures Count(a + b + c, '/') == Count(a, '/') + Count(b, '/') + Count(c, '/')
  {
    CountAppend(a, b, '/');
    CountAppend(a + b, c, '/');
  }

  /** The URL check and the unpack, from the number of '/' in the path and
      the pieces of its strip. */
  lemma ParseFrom(path: string, slashes: nat, stripped: string, names: seq<string>)
    requires Count(path, '/') == slashes && Strip(path, '/') == stripped && Split(stripped, '/') == names
    ensures slashes != 2 ==> ParseRepoPath(GitHubHost, path) == Err(InvalidRepositoryUrl)
    ensures slashes == 2 && |names| != 2 ==> ParseRepoPath(GitHubHost, path) == Err(UnpackMismatch(|names|))
    ensures slashes == 2 && |names| == 2 ==> ParseRepoPath(GitHubHost, path) == Ok(RepoId(names[0], names[1]))
  {
  }

  /** Every "/owner/repo" on github.com with non-empty, '/'-free names is
      accepted, and gives back those names. */
  lemma ParseCompleteLeading(owner: string, repo: string)
    requires IsSegment(owner) && IsSegment(repo)
    ensures ParseRepoPath(GitHubHost, "/" + owner + "/" + repo) == Ok(RepoId(owner, repo))
  {
    var core := owner + "/" + repo;
    var path := "/" + owner + "/" + repo;
    assert path == "/" + core + [] by {
      AppendAssoc("/", owner + "/", repo);
      AppendAssoc("/", owner, "/");
    }
    assert Count(path, '/') == 2 by {
      CountZeroIsFree(owner, '/');
      CountZeroIsFree(repo, '/');
      CountSlashes(owner, "/", repo);
      CountSlashes("/", core, []);
    }
    assert Strip(path, '/') == core by {
      StripOfPadded("/", core, [], '/');
    }
    SplitRepoId(owner, repo);
    ParseFrom(path, 2, core, [owner, repo]);
  }

  /** Every "owner/repo/" on github.com with non-empty, '/'-free names is
      accepted too, and gives back those names. */
  lemma ParseCompleteTrailing(owner: string, repo: string)
    requires IsSegment(owner) && IsSegment(repo)
    ensures ParseRepoPath(GitHubHost, owner + "/" + repo + "/") == Ok(RepoId(owner, repo))
  {
    var core := owner + "/" + repo;
    var path := core + "/";
    assert path == [] + core + "/";
    assert Count(path, '/') == 2 by {
      CountZeroIsFree(owner, '/');
      CountZeroIsFree(repo, '/');
      CountSlashes(owner, "/", repo);
      CountSlashes([], core, "/");
    }
    assert Strip(path, '/') == core by {
      StripOfPadded([], core, "/", '/');
    }
    SplitRepoId(owner, repo);
    ParseFrom(path, 2, core, [owner, repo]);
  }

  /** A single name between two '/' passes the three-piece check and fails
      the unpack with one name: "/n/". */
  lemma RejectsMissingRepo(n: string)
    requires IsSegment(n)
    ensures ParseRepoPath(GitHubHost, "/" + n + "/") == Err(UnpackMismatch(1))
  {
    var path := "/" + n + "/";
    assert Count(path, '/') == 2 by {
      CountZeroIsFree(n, '/');
      CountSlashes("/", n, "/");
    }
    assert Strip(path, '/') == n by {
      StripOfPadded("/", n, "/", '/');
    }
    SplitFree(n, '/');
    ParseFrom(path, 2, n, [n]);
  }

  /** A single name after two '/' passes the three-piece check and fails the
      unpack with one name: "//n". */
  lemma RejectsMissingOwner(n: string)
    requires IsSegment(n)
    ensures ParseRepoPath(GitHubHost, "//" + n) == Err(UnpackMismatch(1))
  {
    var path := "//" + n;
    assert path == "//" + n + [];
    assert Count(path, '/') == 2 by {
      CountZeroIsFree(n, '/');
      CountSlashes("//", n, []);
    }
    assert Strip(path, '/') == n by {
      StripOfPadded("//", n, [], '/');
    }
    SplitFree(n, '/');
    ParseFrom(path, 2, n, [n]);
  }

  /** A single name before two '/' passes the three-piece check and fails the
      unpack with one name: "n//". */
  lemma RejectsNameBeforeSlashes(n: string)
    requires IsSegment(n)
    ensures ParseRepoPath(GitHubHost, n + "//") == Err(UnpackMismatch(1))
  {
    var path := n + "//";
    assert path == [] + n + "//";
    assert Count(path, '/') == 2 by {
      CountZeroIsFree(n, '/');
      CountSlashes([], n, "//");
    }
    assert Strip(path, '/') == n by {
      StripOfPadded([], n, "//", '/');
    }
    SplitFree(n, '/');
    ParseFrom(path, 2, n, [n]);
  }

  /** "owner//repo" passes the three-piece check and fails the unpack with
      three names. */
  lemma RejectsEmptyMiddle(owner: string, repo: string)
    requires IsSegment(owner) && IsSegment(repo)
    ensures ParseRepoPath(GitHubHost, owner + "//" + repo) == Err(UnpackMismatch(3))
  {
    var path := owner + "//" + repo;
    assert Count(path, '/') == 2 by {
      CountZeroIsFree(owner, '/');
      CountZeroIsFree(repo, '/');
      CountSlashes(owner, "//", repo);
    }
    assert Strip(path, '/') == path by {
      assert path == [] + path + [];
      StripOfPadded([], path, [], '/');
    }
    ParseFrom(path, 2, path, Split(path, '/'));
  }

  /** A trailing '/' after "/owner/repo" makes four pieces, which the first
      check rejects. */
  lemma RejectsTrailingSlash(owner: string, repo: string)
    requires IsSegment(owner) && IsSegment(repo)
    ensures ParseRepoPath(GitHubHost, "/" + owner + "/" + repo + "/") == Err(InvalidRepositoryUrl)
  {
    var path := "/" + owner + "/" + repo + "/";
    assert Count(path, '/') == 3 by {
      CountZeroIsFree(owner, '/');
      CountZeroIsFree(repo, '/');
      CountSlashes("/", owner, "/");
      CountSlashes("/" + owner + "/", repo, "/");
    }
    ParseFrom(path, 3, Strip(path, '/'), Split(Strip(path, '/'), '/'));
  }

  /** "//" passes the three-piece check; strip leaves the empty string,
      which splits into one empty name, and the unpack fails. */
  lemma RejectsSlashesOnly()
    ensures ParseRepoPath(GitHubHost, "//") == Err(UnpackMismatch(1))
  {
    TrimStartOfRun("//", [], '/');
    assert "//" + [] == "//";
  }
}
