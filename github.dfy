/** Owner and project names taken from a GitHub URL, and the checkout directory
    named after them (`owner_project_from_github_url` and `get_project_dir`). */
module Github {
  import opened Wrappers
  import opened Strings

  /** A character of the class `[a-zA-Z0-9-_]`. */
  predicate IsNameChar(ch: char)
  {
    ('a' <= ch <= 'z') || ('A' <= ch <= 'Z') || ('0' <= ch <= '9') || ch == '-' || ch == '_'
  }

  predicate AllNameChars(s: string)
  {
    forall i :: 0 <= i < |s| ==> IsNameChar(s[i])
  }

  lemma NameCharsHaveNoSlash(s: string)
    requires AllNameChars(s)
    ensures '/' !in s
  {
    assert forall i :: 0 <= i < |s| ==> s[i] != '/';
  }

  /** How many characters `[a-zA-Z0-9-_]*` consumes at the start of `s`: the
      longest prefix made of name characters. */
  function NameRun(s: string): (n: nat)
    ensures n <= |s|
    ensures forall i :: 0 <= i < n ==> IsNameChar(s[i])
    ensures n < |s| ==> !IsNameChar(s[n])
  {
    if s == [] || !IsNameChar(s[0]) then 0 else 1 + NameRun(s[1..])
  }

  /** The regular expression `https://github.com/([a-zA-Z0-9-_]*)/[a-zA-Z0-9-_]*`
      matched at the start of `url`. The unescaped `.` stands for any character
      but a newline; the owner run is greedy and no name character is a `/`, so
      the `/` must follow the longest run; the trailing run may be empty, so
      anything may follow. */
  predicate MatchesGithubPattern(url: string)
  {
    |url| >= 19 && url[..14] == "https://github" && url[14] != '\n' && url[15..19] == "com/"
    && 19 + NameRun(url[19..]) < |url| && url[19 + NameRun(url[19..])] == '/'
  }

  /** A URL of the shape the pattern accepts: host wildcard `c`, owner, rest. */
  function GithubUrl(c: char, owner: string, rest: string): string
  {
    "https://github" + [c] + "com/" + owner + "/" + rest
  }

  lemma MatchOfGithubUrl(c: char, owner: string, rest: string)
    requires c != '\n' && AllNameChars(owner)
    ensures MatchesGithubPattern(GithubUrl(c, owner, rest))
  {
    var url := GithubUrl(c, owner, rest);
    assert url[19..] == owner + "/" + rest;
    assert url[19 + |owner|] == '/';
  }

  lemma GithubUrlOfMatch(url: string) returns (c: char, owner: string, rest: string)
    requires MatchesGithubPattern(url)
    ensures c != '\n' && AllNameChars(owner)
    ensures url == GithubUrl(c, owner, rest)
  {
    var n := NameRun(url[19..]);
    c, owner, rest := url[14], url[19..19 + n], url[20 + n..];
    assert url == url[..14] + [url[14]] + url[15..19] + url[19..19 + n] + [url[19 + n]] + url[20 + n..];
  }

  /** `owner_project_from_github_url(url)`: when the pattern does not match the
      program reports the URL and exits (`None`); otherwise the URL is split at
      every `/` and the last two fields are the owner and the project. */
  function OwnerProject(url: string): (r: Option<(string, string)>)
    ensures r.Some? <==> MatchesGithubPattern(url)
    ensures r.Some? ==> '/' !in r.value.0 && '/' !in r.value.1
  {
    if !MatchesGithubPattern(url) then None
    else
      assert url[6] == '/';
      SplitAtLeastTwo(url, '/');
      var fields := Split(url, '/');
      Some((fields[|fields| - 2], fields[|fields| - 1]))
  }

  /** The fields of the host part of a matching URL, before the owner. */
  function HostFields(c: char): seq<string>
  {
    if c == '/' then ["https:", "", "github", "com"] else ["https:", "", "github" + [c] + "com"]
  }

  lemma SplitGithubUrl(c: char, owner: string, rest: string)
    requires AllNameChars(owner)
    ensures Split(GithubUrl(c, owner, rest), '/') == HostFields(c) + [owner] + Split(rest, '/')
  {
    var tail := owner + "/" + rest;
    NameCharsHaveNoSlash(owner);
    SplitAtSeparator(owner, '/', rest);
    assert GithubUrl(c, owner, rest) == "https://github" + [c] + "com/" + tail;
    SplitHost(c, tail);
  }

  /** The scheme and host part of a URL split at `/`. */
  lemma SplitHost(c: char, tail: string)
    ensures Split("https://github" + [c] + "com/" + tail, '/') == HostFields(c) + Split(tail, '/')
  {
    var host := "github" + [c] + "com";
    var afterHost := host + "/" + tail;
    assert "https://github" + [c] + "com/" + tail == "https://" + afterHost;
    SplitScheme(afterHost);
    if c == '/' {
      assert afterHost == "github/com/" + tail;
      SplitHostSlash(tail);
    } else {
      SplitAtSeparator(host, '/', tail);
    }
  }

  lemma SplitScheme(rest: string)
    ensures Split("https://" + rest, '/') == ["https:", ""] + Split(rest, '/')
  {
    assert "https://" + rest == "https:" + "/" + ("" + "/" + rest);
    SplitAtSeparator("https:", '/', "" + "/" + rest);
    SplitAtSeparator("", '/', rest);
  }

  lemma SplitHostSlash(tail: string)
    ensures Split("github/com/" + tail, '/') == ["github", "com"] + Split(tail, '/')
  {
    assert "github/com/" + tail == "github" + "/" + ("com" + "/" + tail);
    SplitAtSeparator("github", '/', "com" + "/" + tail);
    SplitAtSeparator("com", '/', tail);
  }

  /** The round trip the program documents: for an owner and a project made of
      name characters, `https://github.com/<owner>/<project>` (with any character
      in place of the dot but a newline) gives back the owner and the project. */
  lemma OwnerProjectOfGithubUrl(c: char, owner: string, project: string)
    requires c != '\n' && AllNameChars(owner) && AllNameChars(project)
    ensures OwnerProject(GithubUrl(c, owner, project)) == Some((owner, project))
  {
    MatchOfGithubUrl(c, owner, project);
    SplitGithubUrl(c, owner, project);
    NameCharsHaveNoSlash(project);
    SplitWithoutSeparator(project, '/');
  }

  /** The owner and project are the last two path fields, wherever the matched
      part of the URL ends: a URL with further path segments after the project
      yields the last two segments instead. */
  lemma OwnerProjectWithMorePath(c: char, owner: string, first: string, second: string)
    requires c != '\n' && AllNameChars(owner) && '/' !in first && '/' !in second
    ensures OwnerProject(GithubUrl(c, owner, first + "/" + second)) == Some((first, second))
  {
    MatchOfGithubUrl(c, owner, first + "/" + second);
    SplitGithubUrl(c, owner, first + "/" + second);
    SplitAtSeparator(first, '/', second);
    SplitWithoutSeparator(second, '/');
  }

  lemma SampleNamesAreNames()
    ensures AllNameChars("graalvm") && AllNameChars("sulong")
  {
    assert forall i :: 0 <= i < 7 ==> "graalvm"[i] in "aglmrv";
    assert forall i :: 0 <= i < 6 ==> "sulong"[i] in "glnosu";
  }

  /** The example the program documents. */
  lemma OwnerProjectExample()
    ensures OwnerProject("https://github.com/graalvm/sulong") == Some(("graalvm", "sulong"))
  {
    SampleNamesAreNames();
    assert GithubUrl('.', "graalvm", "sulong") == "https://github.com/graalvm/sulong";
    OwnerProjectOfGithubUrl('.', "graalvm", "sulong");
  }

  /** With a trailing `/` the field after it is empty, so it is taken as the
      project and the project as the owner. */
  lemma OwnerProjectTrailingSlash()
    ensures OwnerProject("https://github.com/graalvm/sulong/") == Some(("sulong", ""))
  {
    SampleNamesAreNames();
    assert GithubUrl('.', "graalvm", "sulong" + "/" + "") == "https://github.com/graalvm/sulong/";
    OwnerProjectWithMorePath('.', "graalvm", "sulong", "");
  }

  /** A host other than GitHub is refused. */
  lemma OwnerProjectRefusesOtherHost()
    ensures OwnerProject("https://gitlab.com/graalvm/sulong") == None
  {
    assert "https://gitlab.com/graalvm/sulong"[11] != "https://github"[11];
  }

  /** Every matching URL ends with `/<owner>/<project>` for the pair it yields,
      and `front` is the part before. */
  lemma OwnerProjectEndsUrl(url: string) returns (front: string)
    requires MatchesGithubPattern(url)
    ensures url == front + "/" + OwnerProject(url).value.0 + "/" + OwnerProject(url).value.1
  {
    var c, owner, rest := GithubUrlOfMatch(url);
    SplitGithubUrl(c, owner, rest);
    var fields := Split(url, '/');
    assert |fields| >= 3;
    JoinSplit(url, '/');
    front := JoinLastTwo(fields, '/');
  }

  /** `sep.join(parts)` of three or more fields ends with the last two, each
      after a separator. */
  lemma {:induction false} JoinLastTwo(parts: seq<string>, sep: char) returns (front: string)
    requires |parts| >= 3
    ensures Join(parts, sep) == front + [sep] + parts[|parts| - 2] + [sep] + parts[|parts| - 1]
  {
    assert Join(parts, sep) == parts[0] + [sep] + Join(parts[1..], sep);
    if |parts| == 3 {
      assert Join(parts[1..], sep) == parts[1] + [sep] + Join(parts[2..], sep);
      assert Join(parts[2..], sep) == parts[2];
      front := parts[0];
    } else {
      var f := JoinLastTwo(parts[1..], sep);
      front := parts[0] + [sep] + f;
    }
  }

  /** `os.path.join(a, b)` on POSIX: an absolute `b` replaces `a`; otherwise a `/`
      is put between them unless `a` is empty or already ends with one. */
  function PathJoin(a: string, b: string): (r: string)
    ensures |b| <= |r| && r[|r| - |b|..] == b
    ensures |b| > 0 && b[0] == '/' ==> r == b
    ensures !(|b| > 0 && b[0] == '/') ==> |a| <= |r| && r[..|a|] == a
    ensures !(|b| > 0 && b[0] == '/') && |r| != |a| + |b| ==> |r| == |a| + |b| + 1 && r[|a|] == '/'
    ensures !(|b| > 0 && b[0] == '/') && |a| > 0 && a[|a| - 1] != '/' ==> |r| == |a| + |b| + 1
    ensures !(|b| > 0 && b[0] == '/') && (a == [] || a[|a| - 1] == '/') ==> |r| == |a| + |b|
  {
    if |b| > 0 && b[0] == '/' then b
    else if a == [] || a[|a| - 1] == '/' then a + b
    else a + "/" + b
  }

  /** `get_project_dir(url)`: `<owner>-<project>` under the projects directory
      (the configured `project_dir`, a parameter here); `None` where
      `owner_project_from_github_url` exits. */
  function ProjectDir(projectsDir: string, url: string): (r: Option<string>)
    ensures r.Some? <==> MatchesGithubPattern(url)
  {
    match OwnerProject(url)
    case None => None
    case Some((owner, project)) => Some(PathJoin(projectsDir, owner + "-" + project))
  }

  /** A project URL of the documented shape maps to `<dir>/<owner>-<project>`
      when the projects directory is a relative or absolute directory path
      without a trailing slash. */
  lemma ProjectDirOfGithubUrl(projectsDir: string, c: char, owner: string, project: string)
    requires c != '\n' && AllNameChars(owner) && AllNameChars(project)
    requires |projectsDir| > 0 && projectsDir[|projectsDir| - 1] != '/'
    ensures ProjectDir(projectsDir, GithubUrl(c, owner, project)) == Some(projectsDir + "/" + owner + "-" + project)
  {
    OwnerProjectOfGithubUrl(c, owner, project);
    if |owner| > 0 {
      assert IsNameChar(owner[0]);
    }
    var name := owner + "-" + project;
    if owner == [] {
      assert name[0] == '-';
    } else {
      assert name[0] == owner[0];
    }
    assert projectsDir + "/" + name == projectsDir + "/" + owner + "-" + project;
  }
}
