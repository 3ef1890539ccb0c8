/** Unix paths as Rust's `std::path` sees them: a path is the sequence of
    its components, `Path::components` reads that sequence off the text,
    `Path::display` writes it back, and `Path::strip_prefix` compares whole
    components, never characters. */
module Paths {
  import opened Strings

  datatype Option<T> = None | Some(value: T)

  /** `std::path::Component` without the Windows prefix. */
  datatype Component = RootDir | CurDir | ParentDir | Normal(name: string)

  type Path = seq<Component>

  /** A name a directory can have: not empty, no separator, and not one of
      the two names that mean "this" and "parent" directory. */
  predicate ValidName(n: string) {
    n != [] && '/' !in n && n != "." && n != ".."
  }

  predicate NormalNames(p: Path) {
    forall i :: 0 <= i < |p| ==> p[i].Normal? && ValidName(p[i].name)
  }

  /** The shape of the path `std::env::current_dir` returns: the root
      followed by plain directory names. */
  predicate Canonical(p: Path) {
    |p| >= 1 && p[0] == RootDir && NormalNames(p[1..])
  }

  /** Rust's `parse_single_component` for one piece between separators:
      empty pieces and `.` vanish, `..` is the parent. */
  function PieceComponents(pieces: seq<string>): (p: Path)
    ensures forall i :: 0 <= i < |p| ==> p[i].ParentDir? || p[i].Normal?
  {
    if pieces == [] then []
    else
      var head: Path :=
        if pieces[0] == "" || pieces[0] == "." then []
        else if pieces[0] == ".." then [ParentDir]
        else [Normal(pieces[0])];
      head + PieceComponents(pieces[1..])
  }

  /** Rust's `Path::components` on Unix: a leading `/` (or several) is the
      root, a leading `.` piece of a relative path is kept as the current
      directory, and the remaining pieces go through `PieceComponents`. */
  function Components(s: string): (p: Path)
    ensures (|p| > 0 && p[0] == RootDir) <==> (|s| > 0 && s[0] == '/')
    ensures forall i :: 0 < i < |p| ==> p[i].ParentDir? || p[i].Normal?
  {
    var rooted := |s| > 0 && s[0] == '/';
    var cur := !rooted && |s| > 0 && s[0] == '.' && (|s| == 1 || s[1] == '/');
    (if rooted then [RootDir] else []) + (if cur then [CurDir] else [])
      + PieceComponents(Split(s, '/'))
  }

  function ComponentText(c: Component): string {
    match c
    case RootDir => ""
    case CurDir => "."
    case ParentDir => ".."
    case Normal(n) => n
  }

  function Texts(p: Path): seq<string> {
    seq(|p|, i requires 0 <= i < |p| => ComponentText(p[i]))
  }

  /** `Path::display` of a path built from these components: the root as a
      leading `/`, the other components joined by `/`. */
  function Display(p: Path): string {
    if |p| > 0 && p[0] == RootDir then "/" + Join(Texts(p[1..]), '/')
    else Join(Texts(p), '/')
  }

  /** `Path::strip_prefix`: the components left after `base`, when `base`'s
      components begin `p`'s. */
  function StripPrefix(p: Path, base: Path): (rest: Option<Path>)
    ensures rest.Some? <==> base <= p
    ensures rest.Some? ==> base + rest.value == p
  {
    if base <= p then Some(p[|base|..]) else None
  }

  lemma {:induction false} PiecesOfNames(p: Path)
    requires NormalNames(p)
    ensures PieceComponents(Texts(p)) == p
    decreases |p|
  {
    if p != [] {
      assert Texts(p)[1..] == Texts(p[1..]);
      PiecesOfNames(p[1..]);
    }
  }

  lemma NamesSplitBack(p: Path)
    requires |p| >= 1 && NormalNames(p)
    ensures Split(Join(Texts(p), '/'), '/') == Texts(p)
  {
    SplitJoin(Texts(p), '/');
  }

  /** Text that starts with `/` is the root followed by its pieces. */
  lemma RootedComponents(s: string)
    requires |s| > 0 && s[0] == '/'
    ensures Components(s) == [RootDir] + PieceComponents(Split(s[1..], '/'))
  {
    var pieces := Split(s[1..], '/');
    assert Split(s, '/') == [[]] + pieces;
    assert ([[]] + pieces)[1..] == pieces;
    assert PieceComponents([[]] + pieces) == PieceComponents(pieces);
  }

  /** Reading back a displayed directory gives the same components. */
  lemma DisplayCanonical(p: Path)
    requires Canonical(p)
    ensures Components(Display(p)) == p
  {
    var q := p[1..];
    var j := Join(Texts(q), '/');
    var s := Display(p);
    assert s == "/" + j && s[1..] == j;
    RootedComponents(s);
    if q == [] {
      assert Split(j, '/') == [[]];
      assert PieceComponents([[]]) == [] + PieceComponents([]);
    } else {
      NamesSplitBack(q);
      PiecesOfNames(q);
    }
    assert [RootDir] + q == p;
  }

  /** Reading back a displayed relative path of directory names gives the
      same components. */
  lemma DisplayNames(p: Path)
    requires |p| >= 1 && NormalNames(p)
    ensures Components(Display(p)) == p
  {
    var n := p[0].name;
    var s := Join(Texts(p), '/');
    assert Texts(p)[0] == n;
    if |p| > 1 {
      assert s == n + ("/" + Join(Texts(p)[1..], '/'));
    }
    assert s[..|n|] == n;
    assert s[0] == n[0];
    if |n| == 1 {
      assert n == [n[0]];
    } else {
      assert s[1] == n[1];
    }
    assert Display(p) == s;
    assert !(s[0] == '/');
    assert !(s[0] == '.' && (|s| == 1 || s[1] == '/'));
    NamesSplitBack(p);
    PiecesOfNames(p);
    assert Components(s) == PieceComponents(Split(s, '/'));
  }

  /** A trailing `/` does not change the components of a non-empty path,
      so `HOME=/home/u/` names the same directory as `HOME=/home/u`. */
  lemma TrailingSlash(s: string)
    requires s != []
    ensures Components(s + "/") == Components(s)
  {
    SplitTrailingSep(s, '/');
    PiecesAppendEmpty(Split(s, '/'));
    var t := s + "/";
    assert t[0] == s[0];
    assert |s| >= 2 ==> t[1] == s[1];
  }

  lemma {:induction false} PiecesAppendEmpty(pieces: seq<string>)
    ensures PieceComponents(pieces + [[]]) == PieceComponents(pieces)
    decreases |pieces|
  {
    if pieces == [] {
      assert PieceComponents([[]]) == [] + PieceComponents([]);
    } else {
      assert (pieces + [[]])[1..] == pieces[1..] + [[]];
      PiecesAppendEmpty(pieces[1..]);
    }
  }
}
