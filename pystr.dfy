/** The pieces of Python's string and path library that github_repo_to_markdown
    relies on, over `string` (a sequence of characters): `str.split` and
    `str.strip` with a one-character argument, and the `name` of a
    `pathlib.PurePosixPath`. `Join` (`str.join`) is here only as the inverse
    of `Split`, to show that splitting loses nothing. */
module PyStr {

  lemma AppendAssoc<T>(a: seq<T>, b: seq<T>, c: seq<T>)
    ensures (a + b) + c == a + (b + c)
  {
  }

  /** Number of occurrences of `c` in `s`. */
  function Count(s: string, c: char): nat
  {
    if s == [] then 0 else (if s[0] == c then 1 else 0) + Count(s[1..], c)
  }

  /** `s` does not contain `c`. */
  predicate Free(s: string, c: char)
  {
    forall i :: 0 <= i < |s| ==> s[i] != c
  }

  lemma {:induction false} CountAppend(a: string, b: string, c: char)
    ensures Count(a + b, c) == Count(a, c) + Count(b, c)
  {
    if a == [] {
      assert a + b == b;
    } else {
      assert (a + b)[1..] == a[1..] + b;
      CountAppend(a[1..], b, c);
    }
  }

  lemma {:induction false} CountZeroIsFree(s: string, c: char)
    ensures Count(s, c) == 0 <==> Free(s, c)
  {
    if s != [] {
      CountZeroIsFree(s[1..], c);
      assert forall i :: 1 <= i < |s| ==> s[i] == s[1..][i - 1];
    }
  }

  /** A string made only of `c` has as many `c` as characters. */
  lemma {:induction false} CountOfRun(s: string, c: char)
    requires forall i :: 0 <= i < |s| ==> s[i] == c
    ensures Count(s, c) == |s|
  {
    if s != [] {
      CountOfRun(s[1..], c);
    }
  }

  /** `s.split(sep)`: the pieces between the separators, in order. There is
      always one more piece than there are separators, so the empty string
      gives one empty piece and a leading or trailing separator an empty
      first or last piece. */
  function Split(s: string, sep: char): (r: seq<string>)
    ensures |r| == Count(s, sep) + 1
    ensures forall k :: 0 <= k < |r| ==> Free(r[k], sep)
  {
    if s == [] then [""]
    else
      var rest := Split(s[1..], sep);
      if s[0] == sep then [""] + rest
      else [[s[0]] + rest[0]] + rest[1..]
  }

  /** `sep.join(parts)`. */
  function Join(parts: seq<string>, sep: char): string
  {
    if parts == [] then ""
    else if |parts| == 1 then parts[0]
    else parts[0] + [sep] + Join(parts[1..], sep)
  }

  /** Joining the pieces of a split with the same separator gives the string back. */
  lemma {:induction false} JoinSplit(s: string, sep: char)
    ensures Join(Split(s, sep), sep) == s
  {
    if s != [] {
      var rest := Split(s[1..], sep);
      var r := Split(s, sep);
      JoinSplit(s[1..], sep);
      assert s == [s[0]] + s[1..];
      if s[0] == sep {
        assert r == [""] + rest && r[1..] == rest;
        assert Join(r, sep) == "" + [sep] + Join(rest, sep);
        assert "" + [sep] == [sep];
      } else if |rest| == 1 {
        assert r == [[s[0]] + rest[0]];
      } else {
        assert r[0] == [s[0]] + rest[0] && r[1..] == rest[1..];
        var tail := Join(rest[1..], sep);
        assert Join(r, sep) == ([s[0]] + rest[0]) + [sep] + tail;
        assert Join(rest, sep) == rest[0] + [sep] + tail;
        AppendAssoc([s[0]], rest[0], [sep]);
        AppendAssoc([s[0]], rest[0] + [sep], tail);
      }
    }
  }

  /** Splitting distributes over a separator: the pieces of `a + sep + b` are
      the pieces of `a` followed by the pieces of `b`. */
  lemma {:induction false} SplitAround(a: string, sep: char, b: string)
    ensures Split(a + [sep] + b, sep) == Split(a, sep) + Split(b, sep)
  {
    var s := a + [sep] + b;
    if a == [] {
      assert s == [sep] + b && s[1..] == b;
    } else {
      assert s[0] == a[0];
      assert s[1..] == a[1..] + [sep] + b;
      SplitAround(a[1..], sep, b);
      var rest, ra, rb := Split(s[1..], sep), Split(a[1..], sep), Split(b, sep);
      assert rest == ra + rb;
      if a[0] == sep {
        assert Split(s, sep) == [""] + rest;
        AppendAssoc([""], ra, rb);
      } else {
        assert Split(s, sep) == [[a[0]] + rest[0]] + rest[1..];
        assert rest[0] == ra[0] && rest[1..] == ra[1..] + rb;
        AppendAssoc([[a[0]] + ra[0]], ra[1..], rb);
      }
    }
  }

  /** A string without the separator is a single piece. */
  lemma {:induction false} SplitFree(s: string, sep: char)
    requires Free(s, sep)
    ensures Split(s, sep) == [s]
  {
    CountZeroIsFree(s, sep);
    JoinSplit(s, sep);
  }

  /** `s.lstrip(c)`: `s` without its leading run of `c`. */
  function TrimStart(s: string, c: char): (r: string)
    ensures |r| <= |s| && r == s[|s| - |r|..]
    ensures r == [] || r[0] != c
    ensures forall i :: 0 <= i < |s| - |r| ==> s[i] == c
  {
    if s != [] && s[0] == c then TrimStart(s[1..], c) else s
  }

  /** `s.rstrip(c)`: `s` without its trailing run of `c`. */
  function TrimEnd(s: string, c: char): (r: string)
    ensures |r| <= |s| && r == s[..|r|]
    ensures r == [] || r[|r| - 1] != c
    ensures forall i :: |r| <= i < |s| ==> s[i] == c
  {
    if s != [] && s[|s| - 1] == c then TrimEnd(s[..|s| - 1], c) else s
  }

  /** `r` is `s` with `i` characters `c` cut from its front and the rest of
      what `r` does not cover, also all `c`, cut from its back. */
  predicate Padded(s: string, r: string, c: char, i: nat)
  {
    i + |r| <= |s| && s[i..i + |r|] == r &&
    (forall k :: 0 <= k < i ==> s[k] == c) &&
    (forall k :: i + |r| <= k < |s| ==> s[k] == c)
  }

  /** How many characters `c` `s.strip(c)` cuts from the front of `s`. */
  function StripOffset(s: string, c: char): nat
  {
    |s| - |TrimStart(s, c)|
  }

  /** `s.strip(c)`: `s` without its leading and trailing runs of `c`. */
  function Strip(s: string, c: char): (r: string)
    ensures r == [] || (r[0] != c && r[|r| - 1] != c)
    ensures Padded(s, r, c, StripOffset(s, c))
  {
    TrimEnd(TrimStart(s, c), c)
  }

  /** Trimming the front of a run of `c` followed by a string that does not
      start with `c` cuts exactly the run. */
  lemma {:induction false} TrimStartOfRun(run: string, rest: string, c: char)
    requires forall i :: 0 <= i < |run| ==> run[i] == c
    requires rest == [] || rest[0] != c
    ensures TrimStart(run + rest, c) == rest
  {
    if run == [] {
      assert run + rest == rest;
    } else {
      assert (run + rest)[1..] == run[1..] + rest;
      TrimStartOfRun(run[1..], rest, c);
    }
  }

  /** Trimming the back of a string that does not end with `c` followed by a
      run of `c` cuts exactly the run. */
  lemma {:induction false} TrimEndOfRun(rest: string, run: string, c: char)
    requires forall i :: 0 <= i < |run| ==> run[i] == c
    requires rest == [] || rest[|rest| - 1] != c
    ensures TrimEnd(rest + run, c) == rest
  {
    if run == [] {
      assert rest + run == rest;
    } else {
      var shorter := run[..|run| - 1];
      assert (rest + run)[..|rest + run| - 1] == rest + shorter;
      TrimEndOfRun(rest, shorter, c);
    }
  }

  /** Stripping `c` from a core that neither starts nor ends with `c`, with
      runs of `c` around it, gives the core. */
  lemma StripOfPadded(front: string, core: string, back: string, c: char)
    requires core != [] && core[0] != c && core[|core| - 1] != c
    requires forall i :: 0 <= i < |front| ==> front[i] == c
    requires forall i :: 0 <= i < |back| ==> back[i] == c
    ensures Strip(front + core + back, c) == core
  {
    AppendAssoc(front, core, back);
    TrimStartOfRun(front, core + back, c);
    TrimEndOfRun(core, back, c);
  }

  /** The last component in a list of path segments, where empty segments and
      "." are not components; "" when there is none. */
  function LastName(segs: seq<string>): string
  {
    if segs == [] then ""
    else
      var last := segs[|segs| - 1];
      if last == "" || last == "." then LastName(segs[..|segs| - 1]) else last
  }

  /** A file name as a path component: non-empty, no '/', and not ".". */
  predicate IsName(n: string)
  {
    n != "" && n != "." && Free(n, '/')
  }

  /** `pathlib.PurePosixPath(p).name`: the last component of `p`. */
  function BaseName(p: string): (r: string)
    ensures r == "" || IsName(r)
  {
    BaseNameIsSegment(Split(p, '/'));
    LastName(Split(p, '/'))
  }

  lemma {:induction false} BaseNameIsSegment(segs: seq<string>)
    requires forall k :: 0 <= k < |segs| ==> Free(segs[k], '/')
    ensures LastName(segs) == "" || (IsName(LastName(segs)) && LastName(segs) in segs)
  {
    if segs != [] {
      var last := segs[|segs| - 1];
      if last == "" || last == "." {
        BaseNameIsSegment(segs[..|segs| - 1]);
      }
    }
  }

  /** The name of a path is always one of its `/`-separated segments. */
  lemma BaseNameInPath(p: string)
    ensures BaseName(p) == "" || BaseName(p) in Split(p, '/')
  {
    BaseNameIsSegment(Split(p, '/'));
  }

  /** A bare file name is its own name. */
  lemma BaseNameOfName(n: string)
    requires IsName(n)
    ensures BaseName(n) == n
  {
    SplitFree(n, '/');
  }

  /** The name of `dir/n` is `n`, whatever the directory part. */
  lemma BaseNameOfChild(dir: string, n: string)
    requires IsName(n)
    ensures BaseName(dir + "/" + n) == n
  {
    SplitAround(dir, '/', n);
    SplitFree(n, '/');
  }
}
