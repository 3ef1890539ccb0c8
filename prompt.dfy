/** The prompt line of `src/main.rs`: the working directory abbreviated
    against the home directory, in cyan, followed by the branch named in
    `.git/HEAD`. The directory, `HOME` and the contents of `.git/HEAD` are
    parameters here instead of reads of the environment and the file
    system. */
module Prompt {
  import opened Strings
  import opened Paths

  const Escape: char := '\U{1B}'
  /** The ANSI sequence that switches the foreground to cyan. */
  const Cyan: string := "\U{1B}[36m"
  /** The ANSI sequence that restores the default colours. */
  const Reset: string := "\U{1B}[0m"

  /** `get_path`: the working directory `cwd` shown relative to `home`
      (the text of `HOME`), whose components are compared whole. */
  function GetPath(cwd: Path, home: string): (r: string)
    ensures Components(home) == cwd ==> r == "~"
    ensures Components(home) < cwd ==> r == "~/" + Display(cwd[|Components(home)|..])
    ensures !(Components(home) <= cwd) ==> r == Display(cwd)
  {
    match StripPrefix(cwd, Components(home))
    case Some(rest) =>
      if rest == [] then "~" else "~/" + Display(rest)
    case None => Display(cwd)
  }

  /** Undoes the abbreviation: `~` is the home directory and `~/` its
      inside; any other text is an ordinary path. */
  function ExpandHome(shown: string, home: string): (p: Path)
    ensures shown == "~" ==> p == Components(home)
    ensures |shown| > 0 && shown[0] == '/' ==> p == Components(shown)
  {
    if shown == "~" then Components(home)
    else if |shown| >= 2 && shown[..2] == "~/" then Components(home) + Components(shown[2..])
    else Components(shown)
  }

  /** The abbreviation loses nothing: expanding it against the same home
      gives back the working directory, whatever `HOME` holds. */
  lemma GetPathExpands(cwd: Path, home: string)
    requires Canonical(cwd)
    ensures ExpandHome(GetPath(cwd, home), home) == cwd
  {
    var h := Components(home);
    var r := GetPath(cwd, home);
    if h < cwd {
      var rest := cwd[|h|..];
      assert r[..2] == "~/" && r[2..] == Display(rest);
      if h == [] {
        assert rest == cwd;
        DisplayCanonical(cwd);
      } else {
        assert h[0] == cwd[0] == RootDir;
        assert rest == cwd[1..][|h| - 1..];
        DisplayNames(rest);
      }
      assert h + rest == cwd;
    } else if !(h <= cwd) {
      DisplayCanonical(cwd);
    }
  }

  /** The three outcomes are told apart by their first characters: exactly
      `~` at home, `~/` strictly below it, and `/` (an unchanged absolute
      path) outside it. */
  lemma GetPathCases(cwd: Path, home: string)
    requires Canonical(cwd)
    ensures var r := GetPath(cwd, home);
      && (r == "~" <==> Components(home) == cwd)
      && ((|r| >= 2 && r[..2] == "~/") <==> Components(home) < cwd)
      && ((|r| > 0 && r[0] == '~') <==> Components(home) <= cwd)
      && ((|r| > 0 && r[0] == '/') <==> !(Components(home) <= cwd))
  {
    var h := Components(home);
    var r := GetPath(cwd, home);
    if h == cwd {
      assert r == "~";
    } else if h < cwd {
      var d := Display(cwd[|h|..]);
      assert r == "~/" + d;
      assert r[..2] == "~/" && r[0] == '~' && |r| >= 2;
    } else {
      var d := Display(cwd);
      assert r == d && d[0] == '/';
    }
  }

  /** A directory whose name merely extends the last name of home, such as
      `/home/u2` against `HOME=/home/u`, is outside home. */
  lemma SiblingIsOutside(cwd: Path, home: string)
    requires cwd == [RootDir, Normal("home"), Normal("u2")] && home == "/home/u"
    ensures GetPath(cwd, home) == "/home/u2"
  {
    HomeU(home);
    assert cwd[2] != Normal("u");
    assert Texts(cwd[1..]) == ["home", "u2"];
    assert Join(["home", "u2"], '/') == "home/u2";
  }

  /** The components of `/home/u`, the home used by the examples. */
  lemma HomeU(home: string)
    requires home == "/home/u"
    ensures Components(home) == [RootDir, Normal("home"), Normal("u")]
  {
    var p: Path := [RootDir, Normal("home"), Normal("u")];
    assert Display(p) == home by {
      assert Texts(p[1..]) == ["home", "u"];
    }
    DisplayCanonical(p);
  }

  /** A trailing `/` on `HOME` changes nothing. */
  lemma HomeTrailingSlash(cwd: Path, home: string)
    requires home != []
    ensures GetPath(cwd, home + "/") == GetPath(cwd, home)
  {
    TrailingSlash(home);
  }

  /** The branch shown for the contents of `.git/HEAD`: the text after the
      last `/`, trimmed of white space. It never holds a `/` and never
      starts or ends with white space. */
  function Branch(contents: string): (b: string)
    ensures '/' !in b
    ensures Trimmed(b)
    ensures |b| <= |contents|
  {
    var last := LastPiece(contents, '/');
    var b := Trim(last);
    assert b == last[|last| - |TrimStart(last)|..][..|b|];
    b
  }

  /** For contents that hold a `/`, the branch is the text after the last
      `/`, trimmed. */
  lemma BranchAfterLastSlash(prefix: string, rest: string)
    requires '/' !in rest
    ensures Branch(prefix + "/" + rest) == Trim(rest)
  {
    var s := prefix + "/" + rest;
    assert s[|s| - |rest|..] == rest && s[|s| - |rest| - 1] == '/';
    LastPieceUnique(s, '/', rest);
  }

  /** A symbolic ref such as `ref: refs/heads/main` followed by white space
      shows the last name of the ref, with any white space around it
      dropped; an empty name shows as empty. */
  lemma BranchOfRef(prefix: string, lead: string, name: string, trail: string)
    requires '/' !in name && Trimmed(name)
    requires AllWhitespace(lead) && AllWhitespace(trail)
    ensures Branch(prefix + "/" + lead + name + trail) == name
  {
    var rest := lead + name + trail;
    WhitespaceHasNo(lead, '/');
    WhitespaceHasNo(trail, '/');
    assert prefix + "/" + lead + name + trail == prefix + "/" + rest;
    BranchAfterLastSlash(prefix, rest);
    TrimPadded(lead, name, trail);
  }

  /** Contents with no `/` at all, such as the commit hash of a detached
      HEAD, show as a whole, trimmed. */
  lemma BranchOfDetached(contents: string)
    requires '/' !in contents
    ensures Branch(contents) == Trim(contents)
  {
    LastPieceUnique(contents, '/', contents);
  }

  /** The usual contents of `.git/HEAD` on branch `main`. */
  lemma BranchOfMain(contents: string)
    requires contents == "ref: refs/heads/main\n"
    ensures Branch(contents) == "main"
  {
    assert contents == "ref: refs/heads" + "/" + "" + "main" + "\n";
    NewlineIsWhitespace();
    PrintableNotWhitespace('m');
    PrintableNotWhitespace('n');
    BranchOfRef("ref: refs/heads", "", "main", "\n");
  }

  /** Only the last name of a branch that itself holds a `/` is shown. */
  lemma BranchOfNested(contents: string)
    requires contents == "ref: refs/heads/feature/x\n"
    ensures Branch(contents) == "x"
  {
    assert contents == "ref: refs/heads/feature" + "/" + "" + "x" + "\n";
    NewlineIsWhitespace();
    PrintableNotWhitespace('x');
    BranchOfRef("ref: refs/heads/feature", "", "x", "\n");
  }

  /** `get_git_status_file`: `head` is the contents of `.git/HEAD`, or
      `None` when reading it failed. A failed read gives nothing; otherwise
      the branch in parentheses after a space. */
  function GitStatusFile(head: Option<string>): (r: string)
    ensures r == [] <==> head.None?
    ensures head.Some? ==>
      |r| >= 3 && r[..2] == " (" && r[|r| - 1] == ')' && r[2..|r| - 1] == Branch(head.value)
  {
    match head
    case Some(contents) => " (" + Branch(contents) + ")"
    case None => []
  }

  /** For a symbolic ref the git segment is the ref's last name in
      parentheses. */
  lemma GitStatusOfRef(prefix: string, lead: string, name: string, trail: string)
    requires '/' !in name && Trimmed(name)
    requires AllWhitespace(lead) && AllWhitespace(trail)
    ensures GitStatusFile(Some(prefix + "/" + lead + name + trail)) == " (" + name + ")"
  {
    BranchOfRef(prefix, lead, name, trail);
  }

  /** The line `main` prints: the abbreviated directory in cyan, then the
      git segment, then a newline. It ends with the reset sequence and the
      newline exactly when there is no git segment. */
  function Line(cwd: Path, home: string, head: Option<string>): (line: string)
    ensures |line| > |Cyan| && line[..|Cyan|] == Cyan && line[|line| - 1] == '\n'
    ensures head.None? <==> line[|line| - |Reset| - 1..] == Reset + "\n"
  {
    var git := GitStatusFile(head);
    LineEnds(Cyan, GetPath(cwd, home), Reset, git);
    Cyan + GetPath(cwd, home) + Reset + git + "\n"
  }

  /** A line that ends in `r` and a newline, where `r` ends in `m`, keeps
      that ending exactly when nothing that ends in `)` comes between. */
  lemma LineEnds(c: string, p: string, r: string, g: string)
    requires |r| >= 1 && r[|r| - 1] == 'm'
    requires g == [] || g[|g| - 1] == ')'
    ensures var line := c + p + r + g + "\n";
      |line| > |c| && line[..|c|] == c && line[|line| - 1] == '\n'
      && (g == [] <==> line[|line| - |r| - 1..] == r + "\n")
  {
    var line := c + p + r + g + "\n";
    if g != [] {
      assert line[|line| - 2] == ')';
      assert (r + "\n")[|r| - 1] == 'm';
    } else {
      assert line == (c + p) + (r + "\n");
    }
  }

  /** The directory text of a printed line: what stands between the
      leading cyan sequence and the next escape character. */
  function ShownPath(line: string): string {
    if |line| >= |Cyan| && line[..|Cyan|] == Cyan then Split(line[|Cyan|..], Escape)[0]
    else []
  }

  predicate NoEscapes(p: Path) {
    forall i :: 0 <= i < |p| ==> Escape !in ComponentText(p[i])
  }

  lemma {:induction false} NoEscapeInJoin(p: Path)
    requires NoEscapes(p)
    ensures Escape !in Join(Texts(p), '/')
    decreases |p|
  {
    if |p| > 1 {
      assert Texts(p)[1..] == Texts(p[1..]);
      NoEscapeInJoin(p[1..]);
    }
  }

  /** The abbreviation of a directory whose names hold no escape holds
      none either. */
  lemma GetPathNoEscape(cwd: Path, home: string)
    requires Canonical(cwd) && NoEscapes(cwd)
    ensures Escape !in GetPath(cwd, home)
  {
    var h := Components(home);
    NoEscapeInJoin(cwd[1..]);
    if h < cwd && h != [] {
      var rest := cwd[|h|..];
      assert rest == cwd[1..][|h| - 1..];
      NoEscapeInJoin(rest);
    }
  }

  lemma Regroup(c: string, p: string, r: string, g: string, n: string)
    requires |r| >= 1
    ensures c + p + r + g + n == c + (p + [r[0]] + (r[1..] + g + n))
  {
    assert r == [r[0]] + r[1..];
  }

  /** The printed line determines the directory: when no directory name
      holds an escape character, the text after the cyan sequence, expanded
      against the same home, is the working directory. */
  lemma LineShowsDirectory(cwd: Path, home: string, head: Option<string>)
    requires Canonical(cwd) && NoEscapes(cwd)
    ensures ShownPath(Line(cwd, home, head)) == GetPath(cwd, home)
    ensures ExpandHome(ShownPath(Line(cwd, home, head)), home) == cwd
  {
    var path := GetPath(cwd, home);
    GetPathNoEscape(cwd, home);
    var git := GitStatusFile(head);
    var after := Reset[1..] + git + "\n";
    var tail := path + [Escape] + after;
    assert Line(cwd, home, head) == Cyan + path + Reset + git + "\n";
    Regroup(Cyan, path, Reset, git, "\n");
    assert (Cyan + tail)[..|Cyan|] == Cyan;
    assert (Cyan + tail)[|Cyan|..] == tail;
    SplitFirstPiece(path, Escape, after);
    GetPathExpands(cwd, home);
  }

  /** In `/home/u/proj` with `HOME=/home/u` the directory shows as
      `~/proj`. */
  lemma GetPathOfProject(cwd: Path, home: string)
    requires cwd == [RootDir, Normal("home"), Normal("u"), Normal("proj")] && home == "/home/u"
    ensures GetPath(cwd, home) == "~/proj"
  {
    HomeU(home);
    assert cwd[3..] == [Normal("proj")];
    assert Texts([Normal("proj")]) == ["proj"];
  }

  /** On a symbolic ref, the line is the abbreviated directory in cyan
      followed by the ref's last name in parentheses; with
      `ref: refs/heads/main` and a newline in `.git/HEAD` that is
      ` (main)`. */
  lemma LineOnRef(cwd: Path, home: string, prefix: string, lead: string, name: string, trail: string)
    requires '/' !in name && Trimmed(name)
    requires AllWhitespace(lead) && AllWhitespace(trail)
    ensures Line(cwd, home, Some(prefix + "/" + lead + name + trail))
      == Cyan + GetPath(cwd, home) + Reset + (" (" + name + ")") + "\n"
  {
    GitStatusOfRef(prefix, lead, name, trail);
  }
}
