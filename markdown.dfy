/** Lines 32-45 of rep2md4LLM.py: building the Markdown document from the
    root listing of the repository and the text behind each file's download
    URL. The content requests are answered from `pages`, a map from download
    URL to the text the server returns; a URL missing from it is a request
    that raised. */
module Markdown {
  import opened PyStr
  import opened Errors
  import opened RepoUrl

  /** One item of the contents listing: its `type` ("file", "dir",
      "symlink", "submodule"), its `path` and its `download_url`. */
  datatype Entry = Entry(kind: string, path: string, downloadUrl: string)

  const Title := "# Code from GitHub repository: "
  const Description := "This document contains the content of all the files present in the root of the specified GitHub repository. Each file's content is placed under a heading corresponding to the filename.\n\n"

  /** The title line, naming the repository as "owner/repo". */
  function TitleLine(id: RepoId): (r: string)
    ensures |r| == |Title| + |id.owner + "/" + id.repo| + 2
    ensures r[..|Title|] == Title && r[|r| - 2..] == "\n\n"
    ensures r[|Title|..|r| - 2] == id.owner + "/" + id.repo
  {
    Title + id.owner + "/" + id.repo + "\n\n"
  }

  /** The title line, then the description paragraph. */
  function Header(id: RepoId): (r: string)
    ensures |r| == |TitleLine(id)| + |Description|
    ensures r[..|TitleLine(id)|] == TitleLine(id) && r[|TitleLine(id)|..] == Description
  {
    TitleLine(id) + Description
  }

  /** The header names the repository: two repositories with valid names
      get the same header only when they are the same repository. */
  lemma HeaderNamesRepo(a: RepoId, b: RepoId)
    requires IsSegment(a.owner) && IsSegment(a.repo) && IsSegment(b.owner) && IsSegment(b.repo)
    requires Header(a) == Header(b)
    ensures a == b
  {
    var ha := Header(a);
    assert |TitleLine(a)| == |TitleLine(b)|;
    assert TitleLine(a) == ha[..|TitleLine(a)|] == TitleLine(b);
    var t := TitleLine(a);
    assert t[|Title|..|t| - 2] == a.owner + "/" + a.repo == b.owner + "/" + b.repo;
    JoinedNamesDetermine(a, b);
  }

  /** Only entries whose type is exactly "file" are rendered. */
  predicate IsFile(e: Entry)
  {
    e.kind == "file"
  }

  /** The section of one file: a level-2 heading with its name, a blank line,
      its text as fetched, and a blank line. */
  function Section(name: string, content: string): (r: string)
    ensures |r| == |name| + |content| + 7
    ensures r[..3] == "## " && r[3..3 + |name|] == name && r[3 + |name|..5 + |name|] == "\n\n"
    ensures r[5 + |name|..5 + |name| + |content|] == content && r[|r| - 2..] == "\n\n"
  {
    "## " + name + "\n\n" + content + "\n\n"
  }

  /** A section can be read back: when names hold no line break, the
      section determines both the file name in its heading and its text. */
  lemma SectionReadBack(n1: string, c1: string, n2: string, c2: string)
    requires Free(n1, '\n') && Free(n2, '\n')
    requires Section(n1, c1) == Section(n2, c2)
    ensures n1 == n2 && c1 == c2
  {
    HeadingEnds(n1, c1, n2, c2);
    HeadingEnds(n2, c2, n1, c1);
    var s := Section(n1, c1);
    assert n1 == s[3..3 + |n1|] == n2;
  }

  /** Without the condition on line breaks, sections are ambiguous: a file
      named "a\n\nb" holding "c" and a file named "a" holding "b\n\nc" give
      the same section. */
  lemma SectionAmbiguity()
    ensures IsName("a\n\nb") && IsName("a")
    ensures Section("a\n\nb", "c") == Section("a", "b\n\nc")
  {
  }

  /** The heading of a section ends at the first line break after "## ", so
      a name without line breaks is not longer than the one in the heading. */
  lemma HeadingEnds(n1: string, c1: string, n2: string, c2: string)
    requires Free(n2, '\n')
    requires Section(n1, c1) == Section(n2, c2)
    ensures |n2| <= |n1|
  {
    if |n1| < |n2| {
      HeadingBreak(n1, c1);
      assert false;
    }
  }

  /** The character right after the name in a heading is a line break. */
  lemma HeadingBreak(name: string, content: string)
    ensures Section(name, content)[3 + |name|] == '\n'
  {
    var s := Section(name, content);
    assert s[3 + |name|..5 + |name|][0] == '\n';
  }

  /** The file entries of a listing, in listing order. */
  function Files(listing: seq<Entry>): (r: seq<Entry>)
    ensures |r| <= |listing|
    ensures forall k :: 0 <= k < |r| ==> IsFile(r[k])
  {
    if listing == [] then []
    else
      var init, last := listing[..|listing| - 1], listing[|listing| - 1];
      Files(init) + (if IsFile(last) then [last] else [])
  }

  /** The content requests the renderer makes for a listing: the download
      URLs of its file entries, in listing order. */
  function Requests(listing: seq<Entry>): (r: seq<string>)
    ensures |r| == |Files(listing)|
  {
    if listing == [] then []
    else
      var init, last := listing[..|listing| - 1], listing[|listing| - 1];
      Requests(init) + (if IsFile(last) then [last.downloadUrl] else [])
  }

  /** Every file entry's content request is answered. */
  predicate Fetchable(listing: seq<Entry>, pages: map<string, string>)
  {
    forall k :: 0 <= k < |listing| && IsFile(listing[k]) ==> listing[k].downloadUrl in pages
  }

  /** The section of a file entry: headed by the name of its path. */
  function SectionOf(e: Entry, pages: map<string, string>): string
    requires e.downloadUrl in pages
  {
    Section(BaseName(e.path), pages[e.downloadUrl])
  }

  /** The sections of a listing, in listing order. */
  function Sections(listing: seq<Entry>, pages: map<string, string>): seq<string>
    requires Fetchable(listing, pages)
  {
    if listing == [] then []
    else
      var init, last := listing[..|listing| - 1], listing[|listing| - 1];
      Sections(init, pages) + (if IsFile(last) then [SectionOf(last, pages)] else [])
  }

  /** The strings of `ss` one after the other. */
  function Concat(ss: seq<string>): string
  {
    if ss == [] then "" else Concat(ss[..|ss| - 1]) + ss[|ss| - 1]
  }

  /** The sum of the lengths of the strings of `ss`. */
  function TotalLength(ss: seq<string>): nat
  {
    if ss == [] then 0 else TotalLength(ss[..|ss| - 1]) + |ss[|ss| - 1]|
  }

  /** The document the source writes for a listing whose requests all succeed. */
  function Document(id: RepoId, listing: seq<Entry>, pages: map<string, string>): (r: string)
    requires Fetchable(listing, pages)
    ensures |Header(id)| <= |r| && r[..|Header(id)|] == Header(id)
  {
    Header(id) + Concat(Sections(listing, pages))
  }

  /** The content request of the entry at `k` is the first one that fails. */
  predicate FirstMissing(listing: seq<Entry>, pages: map<string, string>, k: int)
  {
    0 <= k < |listing| && Fetchable(listing[..k], pages) &&
    IsFile(listing[k]) && listing[k].downloadUrl !in pages
  }

  /** The loop of lines 32-45: the header, then for each entry of type "file"
      in listing order one content request and one section. It stops at the
      first request that fails, as the uncaught exception does. `requested`
      lists the content requests made, in order. */
  method RenderDocument(id: RepoId, listing: seq<Entry>, pages: map<string, string>)
    returns (result: Result<string>, requested: seq<string>)
    ensures result.Ok? <==> Fetchable(listing, pages)
    ensures result.Ok? ==> result.value == Document(id, listing, pages) && requested == Requests(listing)
    ensures result.Err? ==>
      exists k :: FirstMissing(listing, pages, k) && result.error == FetchFailed(listing[k].downloadUrl) &&
                  requested == Requests(listing[..k + 1])
  {
    var doc := TitleLine(id);
    doc := doc + Description;
    ghost var head := Header(id);
    requested := [];
    var i := 0;
    while i < |listing|
      invariant 0 <= i <= |listing|
      invariant Fetchable(listing[..i], pages)
      invariant doc == head + Concat(Sections(listing[..i], pages))
      invariant requested == Requests(listing[..i])
    {
      var item := listing[i];
      RequestsStep(listing, i);
      if item.kind == "file" {
        var url := item.downloadUrl;
        requested := requested + [url];
        if url !in pages {
          assert FirstMissing(listing, pages, i);
          return Err(FetchFailed(url)), requested;
        }
        var content := pages[url];
        var name := BaseName(item.path);
        var heading := "## " + name + "\n\n";
        FileStep(head, listing, pages, i);
        doc := doc + (heading + content + "\n\n");
      } else {
        NonFileStep(listing, pages, i);
      }
      i := i + 1;
    }
    assert listing[..i] == listing;
    result := Ok(doc);
  }

  /** The requests of one more entry of the listing. */
  lemma RequestsStep(listing: seq<Entry>, i: nat)
    requires i < |listing|
    ensures Requests(listing[..i + 1]) ==
      Requests(listing[..i]) + (if IsFile(listing[i]) then [listing[i].downloadUrl] else [])
  {
    assert listing[..i + 1][..i] == listing[..i];
  }

  /** One more file entry, answered, appends its section to the document:
      "## ", the name of its path, a blank line, its text and a blank line. */
  lemma FileStep(head: string, listing: seq<Entry>, pages: map<string, string>, i: nat)
    requires i < |listing| && Fetchable(listing[..i], pages)
    requires IsFile(listing[i]) && listing[i].downloadUrl in pages
    ensures Fetchable(listing[..i + 1], pages)
    ensures head + Concat(Sections(listing[..i + 1], pages)) ==
      head + Concat(Sections(listing[..i], pages)) +
      ("## " + BaseName(listing[i].path) + "\n\n" + pages[listing[i].downloadUrl] + "\n\n")
  {
    assert listing[..i + 1][..i] == listing[..i];
    var done := Sections(listing[..i], pages);
    var sec := SectionOf(listing[i], pages);
    assert Sections(listing[..i + 1], pages) == done + [sec];
    assert (done + [sec])[..|done|] == done;
    AppendAssoc(head, Concat(done), sec);
  }

  /** One more entry that is not a file leaves the sections as they are. */
  lemma NonFileStep(listing: seq<Entry>, pages: map<string, string>, i: nat)
    requires i < |listing| && Fetchable(listing[..i], pages) && !IsFile(listing[i])
    ensures Fetchable(listing[..i + 1], pages)
    ensures Sections(listing[..i + 1], pages) == Sections(listing[..i], pages)
  {
    assert listing[..i + 1][..i] == listing[..i];
  }

  /** As many sections as file entries. */
  lemma {:induction false} SectionsCount(listing: seq<Entry>, pages: map<string, string>)
    requires Fetchable(listing, pages)
    ensures |Sections(listing, pages)| == |Files(listing)|
  {
    if listing != [] {
      SectionsCount(listing[..|listing| - 1], pages);
    }
  }

  /** One section per file entry, in listing order, each headed by the name
      of that entry's path and holding its text. */
  lemma {:induction false} SectionsPerFile(listing: seq<Entry>, pages: map<string, string>)
    requires Fetchable(listing, pages)
    ensures |Sections(listing, pages)| == |Files(listing)|
    ensures forall k :: 0 <= k < |Files(listing)| ==>
      Files(listing)[k].downloadUrl in pages &&
      Sections(listing, pages)[k] == Section(BaseName(Files(listing)[k].path), pages[Files(listing)[k].downloadUrl])
  {
    if listing != [] {
      SectionsPerFile(listing[..|listing| - 1], pages);
    }
  }

  /** One content request per file entry, in listing order, for that entry's
      download URL. */
  lemma {:induction false} RequestsPerFile(listing: seq<Entry>)
    ensures |Requests(listing)| == |Files(listing)|
    ensures forall k :: 0 <= k < |Files(listing)| ==> Requests(listing)[k] == Files(listing)[k].downloadUrl
  {
    if listing != [] {
      RequestsPerFile(listing[..|listing| - 1]);
    }
  }

  lemma {:induction false} ConcatAppend(a: seq<string>, b: seq<string>)
    ensures Concat(a + b) == Concat(a) + Concat(b)
  {
    if b == [] {
      assert a + b == a;
    } else {
      var init, last := b[..|b| - 1], b[|b| - 1];
      assert (a + b)[..|a + b| - 1] == a + init && (a + b)[|a + b| - 1] == last;
      ConcatAppend(a, init);
      AppendAssoc(Concat(a), Concat(init), last);
    }
  }

  lemma {:induction false} ConcatLength(ss: seq<string>)
    ensures |Concat(ss)| == TotalLength(ss)
  {
    if ss != [] {
      ConcatLength(ss[..|ss| - 1]);
    }
  }

  lemma {:induction false} FetchableSplit(a: seq<Entry>, b: seq<Entry>, pages: map<string, string>)
    ensures Fetchable(a + b, pages) <==> Fetchable(a, pages) && Fetchable(b, pages)
  {
    assert forall k :: 0 <= k < |a| ==> (a + b)[k] == a[k];
    assert forall k :: 0 <= k < |b| ==> (a + b)[|a| + k] == b[k];
  }

  /** Rendering a listing in two parts gives the sections of the first part
      followed by those of the second. */
  lemma {:induction false} SectionsAppend(a: seq<Entry>, b: seq<Entry>, pages: map<string, string>)
    requires Fetchable(a + b, pages)
    ensures Fetchable(a, pages) && Fetchable(b, pages)
    ensures Sections(a + b, pages) == Sections(a, pages) + Sections(b, pages)
  {
    FetchableSplit(a, b, pages);
    if b == [] {
      assert a + b == a;
    } else {
      var init, last := b[..|b| - 1], b[|b| - 1];
      assert (a + b)[..|a + b| - 1] == a + init;
      assert b == init + [last];
      FetchableSplit(init, [last], pages);
      FetchableSplit(a, init, pages);
      SectionsAppend(a, init, pages);
      AppendAssoc(Sections(a, pages), Sections(init, pages), if IsFile(last) then [SectionOf(last, pages)] else []);
    }
  }

  /** The requests of a listing in two parts are those of the first part
      followed by those of the second. */
  lemma {:induction false} RequestsAppend(a: seq<Entry>, b: seq<Entry>)
    ensures Requests(a + b) == Requests(a) + Requests(b)
  {
    if b == [] {
      assert a + b == a;
    } else {
      var init, last := b[..|b| - 1], b[|b| - 1];
      assert (a + b)[..|a + b| - 1] == a + init;
      RequestsAppend(a, init);
      AppendAssoc(Requests(a), Requests(init), if IsFile(last) then [last.downloadUrl] else []);
    }
  }

  /** The file entries of a listing in two parts are those of the first part
      followed by those of the second. */
  lemma {:induction false} FilesAppend(a: seq<Entry>, b: seq<Entry>)
    ensures Files(a + b) == Files(a) + Files(b)
  {
    if b == [] {
      assert a + b == a;
    } else {
      var init, last := b[..|b| - 1], b[|b| - 1];
      assert (a + b)[..|a + b| - 1] == a + init;
      FilesAppend(a, init);
      AppendAssoc(Files(a), Files(init), if IsFile(last) then [last] else []);
    }
  }

  /** A listing of one entry that is not a file renders nothing. */
  lemma NonFileAlone(e: Entry, pages: map<string, string>)
    requires !IsFile(e)
    ensures Files([e]) == [] && Requests([e]) == []
    ensures Fetchable([e], pages) && Sections([e], pages) == []
  {
    assert [e][..0] == [];
  }

  /** An entry that is not a file, wherever it stands in the listing, adds no
      section and no content request, and does not change the document. */
  lemma NonFileAddsNothing(id: RepoId, a: seq<Entry>, e: Entry, b: seq<Entry>, pages: map<string, string>)
    requires !IsFile(e)
    ensures Fetchable(a + [e] + b, pages) <==> Fetchable(a + b, pages)
    ensures Requests(a + [e] + b) == Requests(a + b)
    ensures Fetchable(a + b, pages) ==>
      Fetchable(a + [e] + b, pages) && Document(id, a + [e] + b, pages) == Document(id, a + b, pages)
  {
    NonFileAlone(e, pages);
    assert Fetchable(a + [e] + b, pages) <==> Fetchable(a + b, pages) by {
      FetchableSplit(a, [e], pages);
      FetchableSplit(a + [e], b, pages);
      FetchableSplit(a, b, pages);
    }
    assert Requests(a + [e] + b) == Requests(a + b) by {
      RequestsAppend(a + [e], b);
      RequestsAppend(a, [e]);
      RequestsAppend(a, b);
      assert Requests(a) + [] == Requests(a);
    }
    if Fetchable(a + b, pages) {
      assert Sections(a + [e] + b, pages) == Sections(a + b, pages) by {
        SectionsAppend(a + [e], b, pages);
        SectionsAppend(a, [e], pages);
        SectionsAppend(a, b, pages);
        assert Sections(a, pages) + [] == Sections(a, pages);
      }
    }
  }

  /** A listing of one file entry renders one request and, when it is
      answered, one section. */
  lemma FileAlone(e: Entry, pages: map<string, string>)
    requires IsFile(e)
    ensures Files([e]) == [e] && Requests([e]) == [e.downloadUrl]
    ensures Fetchable([e], pages) <==> e.downloadUrl in pages
    ensures e.downloadUrl in pages ==> Sections([e], pages) == [SectionOf(e, pages)]
  {
    var one := [e];
    assert one[..0] == [] && one[0] == e;
    assert Files(one) == [] + [e];
    assert Requests(one) == [] + [e.downloadUrl];
    if e.downloadUrl in pages {
      assert Fetchable(one, pages);
      assert Sections(one, pages) == [] + [SectionOf(e, pages)];
    }
  }

  /** Rendering the listing is rendering its file entries alone: the other
      entries change neither the requests nor the sections. */
  lemma {:induction false} OnlyFilesMatter(listing: seq<Entry>, pages: map<string, string>)
    ensures Requests(Files(listing)) == Requests(listing)
    ensures Fetchable(Files(listing), pages) <==> Fetchable(listing, pages)
    ensures Fetchable(listing, pages) ==> Sections(Files(listing), pages) == Sections(listing, pages)
  {
    if listing != [] {
      var init, last := listing[..|listing| - 1], listing[|listing| - 1];
      OnlyFilesMatter(init, pages);
      assert listing == init + [last];
      FetchableSplit(init, [last], pages);
      if IsFile(last) {
        FileAlone(last, pages);
        assert Files(listing) == Files(init) + [last];
        RequestsAppend(Files(init), [last]);
        FetchableSplit(Files(init), [last], pages);
        if Fetchable(listing, pages) {
          SectionsAppend(Files(init), [last], pages);
        }
      } else {
        NonFileAlone(last, pages);
        assert Files(listing) == Files(init);
        assert Requests(listing) == Requests(init);
        if Fetchable(listing, pages) {
          assert Sections(listing, pages) == Sections(init, pages);
        }
      }
    }
  }

  /** The document is as long as the header and all sections together. */
  lemma DocumentLength(id: RepoId, listing: seq<Entry>, pages: map<string, string>)
    requires Fetchable(listing, pages)
    ensures |Document(id, listing, pages)| == |Header(id)| + TotalLength(Sections(listing, pages))
  {
    ConcatLength(Sections(listing, pages));
  }

  /** Where the section of the k-th file entry starts in the document. */
  function SectionStart(id: RepoId, listing: seq<Entry>, pages: map<string, string>, k: nat): nat
    requires Fetchable(listing, pages) && k <= |Files(listing)|
  {
    SectionsCount(listing, pages);
    |Header(id)| + TotalLength(Sections(listing, pages)[..k])
  }

  /** A concatenation cut around its k-th string. */
  lemma ConcatAround(ss: seq<string>, k: nat)
    requires k < |ss|
    ensures Concat(ss) == Concat(ss[..k]) + ss[k] + Concat(ss[k + 1..])
    ensures |Concat(ss[..k])| == TotalLength(ss[..k])
  {
    assert ss == ss[..k] + [ss[k]] + ss[k + 1..];
    ConcatAppend(ss[..k] + [ss[k]], ss[k + 1..]);
    ConcatAppend(ss[..k], [ss[k]]);
    assert Concat([ss[k]]) == ss[k] by {
      assert [ss[k]][..0] == [];
    }
    ConcatLength(ss[..k]);
  }

  /** The document opens with the header, and the section of the k-th file
      entry stands at SectionStart: its heading names the entry's path and its
      text is the fetched text, character for character. */
  lemma SectionPlacement(id: RepoId, listing: seq<Entry>, pages: map<string, string>, k: nat)
    requires Fetchable(listing, pages) && k < |Files(listing)|
    ensures Header(id) <= Document(id, listing, pages)
    ensures var f := Files(listing)[k];
      f.downloadUrl in pages &&
      Placed(Document(id, listing, pages), SectionStart(id, listing, pages, k), BaseName(f.path), pages[f.downloadUrl])
  {
    var ss := Sections(listing, pages);
    var f := Files(listing)[k];
    SectionsCount(listing, pages);
    assert f.downloadUrl in pages && ss[k] == Section(BaseName(f.path), pages[f.downloadUrl]) by {
      SectionsPerFile(listing, pages);
    }
    var doc := Document(id, listing, pages);
    var before, after := Header(id) + Concat(ss[..k]), Concat(ss[k + 1..]);
    assert doc == before + ss[k] + after && |before| == SectionStart(id, listing, pages, k) by {
      ConcatAround(ss, k);
      AppendAssoc(Header(id), Concat(ss[..k]) + ss[k], after);
      AppendAssoc(Header(id), Concat(ss[..k]), ss[k]);
    }
    assert Header(id) <= doc by {
      AppendAssoc(Header(id), Concat(ss[..k]), ss[k]);
      AppendAssoc(Header(id), Concat(ss[..k]) + ss[k], after);
      Infix(Header(id), Concat(ss[..k]) + ss[k], after);
    }
    Infix(before, ss[k], after);
    PlacedSection(doc, |before|, BaseName(f.path), pages[f.downloadUrl]);
  }

  /** Where `b` stands in `a + b + c`. */
  lemma Infix(a: string, b: string, c: string)
    ensures a <= a + b + c
    ensures (a + b + c)[|a|..|a| + |b|] == b
  {
  }

  /** `doc` holds the section of `name` with text `content` at `start`, and
      so holds `content` itself right after the heading. */
  predicate Placed(doc: string, start: nat, name: string, content: string)
  {
    start + |Section(name, content)| <= |doc| &&
    doc[start..start + |Section(name, content)|] == Section(name, content) &&
    doc[start + 5 + |name|..start + 5 + |name| + |content|] == content
  }

  lemma PlacedSection(doc: string, start: nat, name: string, content: string)
    requires start + |Section(name, content)| <= |doc|
    requires doc[start..start + |Section(name, content)|] == Section(name, content)
    ensures Placed(doc, start, name, content)
  {
    var sec := Section(name, content);
    assert sec[5 + |name|..5 + |name| + |content|] == content;
    var at := 5 + |name|;
    forall i | 0 <= i < |content|
      ensures doc[start + at + i] == content[i]
    {
      assert doc[start..start + |sec|][at + i] == sec[at + i];
    }
  }

  /** Sections follow the listing order: the section of an earlier file entry
      ends before the section of a later one starts. */
  lemma {:induction false} SectionsInOrder(id: RepoId, listing: seq<Entry>, pages: map<string, string>, j: nat, k: nat)
    requires Fetchable(listing, pages) && j < k <= |Files(listing)|
    ensures |Sections(listing, pages)| == |Files(listing)|
    ensures SectionStart(id, listing, pages, j) + |Sections(listing, pages)[j]| <= SectionStart(id, listing, pages, k)
  {
    var ss := Sections(listing, pages);
    SectionsCount(listing, pages);
    if k == j + 1 {
      assert ss[..k][..j] == ss[..j];
    } else {
      SectionsInOrder(id, listing, pages, j, k - 1);
      assert ss[..k][..k - 1] == ss[..k - 1];
    }
  }
}
