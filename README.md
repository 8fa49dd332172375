# rep2md4LLM in Dafny

A model of `github_repo_to_markdown` from `rep2md4LLM.py`, the function that
turns a public GitHub repository's root into one Markdown document for a
language model. It models the two parts of that function that hold logic:

- **The repository URL check** (lines 20-23). The URL arrives already parsed,
  as its host (`netloc`) and its `path`. It is rejected unless the host is
  exactly `github.com` and `path.split('/')` has exactly three pieces.
  `path.strip('/').split('/')` is then unpacked into `owner` and `repo`; a
  wrong number of names is the `ValueError` of that unpack. Python's
  `str.split`, `str.strip`, `str.join` and `PurePosixPath.name` are modelled
  on `string` in module `PyStr`. The model proves which paths are accepted:
  exactly `/owner/repo` and `owner/repo/`, with both names non-empty and
  free of `/`. So `/n/`, `//n`, `n//` and `//` pass the first check and fail the
  unpack with one name, `owner//repo` fails it with three names, and
  `/owner/repo/` fails the first check.
- **The document assembly** (lines 32-45). The method `RenderDocument` has
  the source's loop over the listing, with the `+=` accumulator. It writes
  the title line `# Code from GitHub repository: owner/repo` and the fixed
  description paragraph. Then, for each entry whose `type` is `"file"`, in
  listing order, it makes one content request and appends
  `"## " + name + "\n\n" + content + "\n\n"`. Here `name` is the last
  component of the entry's `path`. The loop invariant ties the accumulator to
  `Header` followed by the `Sections` of the entries seen so far. Lemmas
  prove the following: one section and one request per file entry, in order;
  other entries change nothing; the length of the document; and where each
  file's text stands in the document, verbatim. The header and the listing URL
  can be read back: they determine the repository they were made from. A
  section determines its file name and text only for file names without
  line breaks.

`Pipeline.RepoToMarkdown` puts these together with the listing request of
line 27. Every request made is recorded in `requested`. The method proves
that a rejected URL makes no request at all, that a failed listing request
makes exactly that one, and that a successful run makes one listing request
and one content request per file entry.

The network is replaced by two maps. `listings` maps a listing URL to the
entries it returns. A URL missing from it is a listing request that raised,
either a transport error or an error status caught by `raise_for_status`.
`pages` maps a download URL to the text returned. A URL missing from it is a
content request that raised. The source does not call `raise_for_status` on
content requests, so the body of an error response is just text in `pages`.
Every exception of the source ends the run; here each is an `Err` of
`Errors.Error`.

`rep2md4LLM.py` appends each file's raw text without a code fence and keeps
entries only by `type == "file"`. It has no exclusion list and no list of
omitted files, and it does not rename an existing output file; neither does
the model.

Files: `errors.dfy` (the outcomes), `pystr.dfy` (the Python string and path
operations), `repo_url.dfy` (lines 20-23), `markdown.dfy` (lines 32-45),
`pipeline.dfy` (the function as a whole).

## Model

| member | source | states |
|---|---|---|
| `PyStr.Split` | rep2md4LLM.py:21 | `str.split('/')`: one more piece than there are separators, and no piece contains the separator |
| `PyStr.JoinSplit` | rep2md4LLM.py:21 | joining the pieces of a split with the separator gives the string back, so the split loses nothing |
| `PyStr.SplitAround` | rep2md4LLM.py:21 | the pieces of `a + sep + b` are the pieces of `a` followed by the pieces of `b` |
| `PyStr.SplitFree` | rep2md4LLM.py:23 | a string without the separator splits into itself alone |
| `PyStr.TrimStart` | rep2md4LLM.py:23 | the result is a suffix of the input, does not start with the character, and everything cut was that character |
| `PyStr.TrimEnd` | rep2md4LLM.py:23 | the result is a prefix of the input, does not end with the character, and everything cut was that character |
| `PyStr.TrimStartOfRun` | rep2md4LLM.py:23 | trimming the front of a run of the character followed by text not starting with it cuts exactly the run |
| `PyStr.TrimEndOfRun` | rep2md4LLM.py:23 | trimming the back of text not ending with the character followed by a run of it cuts exactly the run |
| `PyStr.Strip` | rep2md4LLM.py:23 | `str.strip('/')`: the result neither starts nor ends with '/', and it is the input with runs of '/' cut from the front and the back only |
| `PyStr.StripOfPadded` | rep2md4LLM.py:23 | stripping a core that neither starts nor ends with the character, padded by runs of it on both sides, gives the core back |
| `PyStr.BaseName` | rep2md4LLM.py:42 | `Path(path).name` is empty or a file name: non-empty, without '/', and not "." |
| `PyStr.BaseNameInPath` | rep2md4LLM.py:42 | a non-empty name is one of the '/'-separated segments of the path |
| `PyStr.BaseNameOfName` | rep2md4LLM.py:42 | a bare file name is its own name |
| `PyStr.BaseNameOfChild` | rep2md4LLM.py:42 | the name of `dir/n` is `n`, whatever the directory part |
| `RepoUrl.ParseRepoPath` | rep2md4LLM.py:21-23 | an accepted URL has host github.com, and the owner and repository names are non-empty and free of '/' |
| `RepoUrl.ShapeCheck` | rep2md4LLM.py:21-22 | the first `ValueError` is raised exactly when the host is not github.com or the path does not hold exactly two '/' |
| `RepoUrl.NamesOfStripped` | rep2md4LLM.py:23 | a stripped path that splits into two pieces gives two non-empty '/'-free names, joined by '/' |
| `RepoUrl.OneSlashStripped` | rep2md4LLM.py:21-23 | when the check passes and the unpack succeeds, strip cut exactly one '/', at the front or at the back |
| `RepoUrl.ParseSound` | rep2md4LLM.py:21-23 | every accepted path is "/owner/repo" or "owner/repo/" with non-empty, '/'-free names, and the host is github.com |
| `RepoUrl.AcceptedShape` | rep2md4LLM.py:21-23 | a path holding two '/' whose strip splits into two names is those names joined by '/', with one more '/' in front or behind |
| `RepoUrl.JoinedNamesDetermine` | rep2md4LLM.py:23-26 | "owner/repo" names one repository: two pairs of non-empty, '/'-free names giving the same "owner/repo" are equal |
| `RepoUrl.SplitRepoId` | rep2md4LLM.py:23 | "owner/repo" splits into exactly the two names |
| `RepoUrl.ParseCompleteLeading` | rep2md4LLM.py:21-23 | every "/owner/repo" on github.com with non-empty, '/'-free names is accepted with those names (the converse of ParseSound) |
| `RepoUrl.ParseCompleteTrailing` | rep2md4LLM.py:21-23 | every "owner/repo/" on github.com with non-empty, '/'-free names is accepted with those names |
| `RepoUrl.RejectsMissingRepo` | rep2md4LLM.py:21-23 | "/n/", for any name n, passes the three-piece check and fails the unpack with one name |
| `RepoUrl.RejectsMissingOwner` | rep2md4LLM.py:21-23 | "//n" passes the three-piece check and fails the unpack with one name |
| `RepoUrl.RejectsNameBeforeSlashes` | rep2md4LLM.py:21-23 | "n//" passes the three-piece check and fails the unpack with one name |
| `RepoUrl.RejectsEmptyMiddle` | rep2md4LLM.py:21-23 | "owner//repo" passes the three-piece check and fails the unpack with three names |
| `RepoUrl.RejectsTrailingSlash` | rep2md4LLM.py:21-22 | "/owner/repo/" has four pieces and is rejected by the first check |
| `RepoUrl.RejectsSlashesOnly` | rep2md4LLM.py:21-23 | "//" passes the three-piece check, strips to the empty string, and fails the unpack with one (empty) name |
| `Markdown.TitleLine` | rep2md4LLM.py:32 | the title line is "# Code from GitHub repository: ", then "owner/repo", then a blank line |
| `Markdown.Header` | rep2md4LLM.py:32-33 | the header is the title line followed by the fixed description paragraph, and nothing else |
| `Markdown.HeaderNamesRepo` | rep2md4LLM.py:32-33 | the header names the repository: two repositories with valid names get the same header only if they are the same |
| `Markdown.Section` | rep2md4LLM.py:42-45 | a file's section is "## ", its name, a blank line, its text verbatim and a blank line: seven characters more than name and text |
| `Markdown.HeadingEnds` | rep2md4LLM.py:43-45 | the heading ends at the first line break after "## ", so a name without line breaks is no longer than the name in the heading |
| `Markdown.SectionAmbiguity` | rep2md4LLM.py:42-45 | a file name holding a blank line makes sections ambiguous: "a\n\nb" with text "c" and "a" with text "b\n\nc" give the same section |
| `Markdown.SectionReadBack` | rep2md4LLM.py:43-45 | for names without line breaks, a section determines its file name and its text: the output can be read back |
| `Markdown.Files` | rep2md4LLM.py:36-37 | the entries kept are all of type "file", and there are no more of them than entries |
| `Markdown.Requests` | rep2md4LLM.py:36-39 | the content requests of a listing: exactly one per file entry (RequestsPerFile pins each to its entry's download URL) |
| `Markdown.Sections` | rep2md4LLM.py:36-45 | the reference definition of what the loop appends: the section of each file entry, in listing order. It carries no contract of its own; SectionsCount and SectionsPerFile state what it is |
| `Markdown.SectionsCount` | rep2md4LLM.py:36-45 | there are as many sections as file entries |
| `Markdown.Document` | rep2md4LLM.py:32-45 | the document for a listing whose requests all succeed opens with the header; DocumentLength and SectionPlacement give its length and where each file's text stands |
| `Markdown.RenderDocument` | rep2md4LLM.py:32-45 | the loop succeeds exactly when every file entry's request is answered. Then the document is `Document` and the requests are the file entries' download URLs in order. Otherwise it stops at the first failing request, having requested the URLs up to and including it |
| `Markdown.FileStep` | rep2md4LLM.py:37-45 | one more file entry, when answered, appends exactly `"## " + name + "\n\n" + text + "\n\n"` to the document, with the name of its path and its fetched text |
| `Markdown.SectionsPerFile` | rep2md4LLM.py:36-45 | the k-th section is the section of the k-th file entry: heading with the name of its path, then its fetched text |
| `Markdown.RequestsPerFile` | rep2md4LLM.py:37-39 | one content request per file entry, in listing order, for that entry's download URL |
| `Markdown.FetchableSplit` | rep2md4LLM.py:38-39 | all requests of a listing in two parts succeed exactly when those of both parts do |
| `Markdown.SectionsAppend` | rep2md4LLM.py:36-45 | the sections of a listing in two parts are those of the first part followed by those of the second |
| `Markdown.FilesAppend` | rep2md4LLM.py:36-37 | the file entries of a listing in two parts are those of the first part followed by those of the second |
| `Markdown.RequestsAppend` | rep2md4LLM.py:36-39 | the requests of a listing in two parts are those of the first part followed by those of the second |
| `Markdown.NonFileAlone` | rep2md4LLM.py:36-37 | an entry that is not a file is not kept as a file entry, and makes no request and no section |
| `Markdown.FileAlone` | rep2md4LLM.py:36-45 | a file entry makes exactly one request, for its download URL, and when answered exactly one section |
| `Markdown.NonFileAddsNothing` | rep2md4LLM.py:36-37 | inserting an entry that is not a file anywhere in the listing changes neither the requests, nor success, nor the document |
| `Markdown.OnlyFilesMatter` | rep2md4LLM.py:36-37 | rendering a listing gives the same requests, success and sections as rendering its file entries alone |
| `Markdown.ConcatAppend` | rep2md4LLM.py:45 | appending sections one after the other distributes over splitting the list of sections |
| `Markdown.ConcatLength` | rep2md4LLM.py:45 | the concatenated sections are as long as the sum of their lengths |
| `Markdown.DocumentLength` | rep2md4LLM.py:32-45 | the document's length is the header's length plus the sum of the section lengths |
| `Markdown.ConcatAround` | rep2md4LLM.py:45 | the concatenated sections, cut around the k-th, are those before it, it, and those after it |
| `Markdown.SectionPlacement` | rep2md4LLM.py:32-45 | the document opens with the header. The section of the k-th file entry stands at its start offset, and the fetched text stands verbatim right after its heading |
| `Markdown.PlacedSection` | rep2md4LLM.py:43-45 | where a section stands in the document, its text stands right after the heading `"## " + name + "\n\n"` |
| `Markdown.SectionsInOrder` | rep2md4LLM.py:36-45 | the section of an earlier file entry ends before the section of a later one starts |
| `Pipeline.ApiUrl` | rep2md4LLM.py:26 | the listing URL is "https://api.github.com/repos/", then "owner/repo", then "/contents/" |
| `Pipeline.ApiUrlNamesRepo` | rep2md4LLM.py:26 | each repository with valid names has its own listing URL |
| `Pipeline.RepoToMarkdown` | rep2md4LLM.py:20-45 | a rejected URL gives that error and makes no request. A failed listing request gives ListingFailed and makes only that request. Otherwise the outcome is the loop's, after the one listing request. A success made one request more than there are file entries, and its document opens with the title naming "owner/repo" and the description |

## Left out

- urlparse (line 20): the model starts from the host and path that urlparse returns. It does not model how they are obtained from the URL string.
- HTTP requests (lines 27-29 and 39): `requests.get`, `raise_for_status`, `.json()` and `.text` are answers looked up in the `listings` and `pages` maps. Timeouts, retries and the JSON format are not modelled. Each listing item is taken to have `type`, `path` and `download_url`, so the `KeyError` of a malformed item cannot happen.
- Writing the output file and printing the message (lines 48-51): filesystem and console I/O. The model ends with the document that would be written.
- The `__main__` block (lines 53-72): reading `config.yaml`, the `input()` prompt with its default, and building the output path are I/O.
- Characters: Python strings are sequences of code points and Dafny's `char` stands for one. No encoding is modelled; the source writes UTF-8.
- `Markdown.SectionReadBack` holds only for file names without line breaks. Git allows line breaks in file names and `Path(...).name` keeps them, so for such names the output cannot always be read back; `Markdown.SectionAmbiguity` shows a pair of sections that coincide.
- `PyStr.BaseName` follows `PurePosixPath` on '/'-separated paths: empty and "." segments are not components. It does not model Windows path flavours, which GitHub paths do not use.
