/** The two string operations of Rust's `str` that the prompt relies on:
    splitting at a separator character (`split`/`rsplit`) and trimming
    white space from both ends (`trim`). */
module Strings {

  /** The characters with the Unicode White_Space property, which Rust's
      `char::is_whitespace` recognises, up to the space: U+0009 to U+000D
      and U+0020. */
  const AsciiWhitespace: seq<char> := ['\t', '\n', '\U{B}', '\U{C}', '\r', ' ']

  /** The rest of them: U+0085, U+00A0, U+1680, U+2000 to U+200A, U+2028,
      U+2029, U+202F, U+205F and U+3000. */
  const OtherWhitespace: seq<char> :=
    ['\U{85}', '\U{A0}', '\U{1680}',
     '\U{2000}', '\U{2001}', '\U{2002}', '\U{2003}', '\U{2004}', '\U{2005}',
     '\U{2006}', '\U{2007}', '\U{2008}', '\U{2009}', '\U{200A}',
     '\U{2028}', '\U{2029}', '\U{202F}', '\U{205F}', '\U{3000}']

  /** Rust's `char::is_whitespace`: one of the 25 characters on the two
      lists above. */
  predicate IsWhitespace(c: char) {
    if c <= ' ' then c in AsciiWhitespace
    else '\U{85}' <= c && c in OtherWhitespace
  }

  /** The white-space characters are exactly those on the two lists. */
  lemma WhitespaceExactly(c: char)
    ensures IsWhitespace(c) <==> c in AsciiWhitespace + OtherWhitespace
  {
    assert c in AsciiWhitespace ==> c <= ' ';
    assert c in OtherWhitespace ==> '\U{85}' <= c;
  }

  /** No printable ASCII character other than the space is white space. */
  lemma PrintableNotWhitespace(c: char)
    requires '!' <= c <= '~'
    ensures !IsWhitespace(c)
  {
  }

  /** White space holds no printable ASCII character. */
  lemma {:induction false} WhitespaceHasNo(s: string, c: char)
    requires AllWhitespace(s) && '!' <= c <= '~'
    ensures c !in s
  {
    PrintableNotWhitespace(c);
  }

  /** A newline is white space. */
  lemma NewlineIsWhitespace()
    ensures AllWhitespace("\n")
  {
    assert AsciiWhitespace[1] == '\n';
  }

  predicate AllWhitespace(s: string) {
    forall i :: 0 <= i < |s| ==> IsWhitespace(s[i])
  }

  /** Neither end of `s` is a white-space character. */
  predicate Trimmed(s: string) {
    s == [] || (!IsWhitespace(s[0]) && !IsWhitespace(s[|s| - 1]))
  }

  /** The pieces are glued back together with one separator between
      neighbours. */
  function Join(pieces: seq<string>, sep: char): string
  {
    if |pieces| == 0 then []
    else if |pieces| == 1 then pieces[0]
    else pieces[0] + [sep] + Join(pieces[1..], sep)
  }

  /** The pieces of `s` between occurrences of `sep`, in order, as Rust's
      `split` yields them; `rsplit` yields the same pieces last first. The
      empty string has one (empty) piece, so there is always at least one. */
  function Split(s: string, sep: char): (pieces: seq<string>)
    ensures |pieces| >= 1
    ensures forall i :: 0 <= i < |pieces| ==> sep !in pieces[i]
    ensures Join(pieces, sep) == s
    decreases |s|
  {
    if s == [] then [[]]
    else
      var rest := Split(s[1..], sep);
      if s[0] == sep then [[]] + rest
      else [[s[0]] + rest[0]] + rest[1..]
  }

  /** Splitting a join of separator-free pieces gives back those pieces. */
  lemma {:induction false} SplitJoin(pieces: seq<string>, sep: char)
    requires |pieces| >= 1
    requires forall i :: 0 <= i < |pieces| ==> sep !in pieces[i]
    ensures Split(Join(pieces, sep), sep) == pieces
    decreases |pieces|, |pieces[0]|
  {
    var p := pieces[0];
    if |pieces| == 1 {
      SplitFree(p, sep);
    } else if p == [] {
      var tail := pieces[1..];
      assert Join(pieces, sep) == [sep] + Join(tail, sep);
      SplitJoin(tail, sep);
      assert ([sep] + Join(tail, sep))[1..] == Join(tail, sep);
    } else {
      var shorter := [p[1..]] + pieces[1..];
      assert shorter[1..] == pieces[1..];
      assert Join(pieces, sep) == [p[0]] + Join(shorter, sep);
      SplitJoin(shorter, sep);
      assert ([p[0]] + Join(shorter, sep))[1..] == Join(shorter, sep);
      assert [p[0]] + p[1..] == p;
      assert [[p[0]] + p[1..]] + pieces[1..] == pieces;
    }
  }

  /** A string with no separator is a single piece. */
  lemma {:induction false} SplitFree(s: string, sep: char)
    requires sep !in s
    ensures Split(s, sep) == [s]
    decreases |s|
  {
    if s != [] {
      SplitFree(s[1..], sep);
      assert [s[0]] + s[1..] == s;
    }
  }

  /** The first piece `rsplit(sep)` yields: the text after the last `sep`,
      or all of `s` when it has none. `Split` always has a piece, so this
      never fails. */
  function LastPiece(s: string, sep: char): (r: string)
    ensures sep !in r
    ensures |r| <= |s| && r == s[|s| - |r|..]
    ensures |r| == |s| || s[|s| - |r| - 1] == sep
  {
    var pieces := Split(s, sep);
    LastPieceIsSuffix(s, sep);
    pieces[|pieces| - 1]
  }

  lemma {:induction false} LastPieceIsSuffix(s: string, sep: char)
    ensures var pieces := Split(s, sep);
      var b := pieces[|pieces| - 1];
      |b| <= |s| && b == s[|s| - |b|..] && (|b| == |s| || s[|s| - |b| - 1] == sep)
    decreases |s|
  {
    if s != [] {
      var rest := Split(s[1..], sep);
      var pieces := Split(s, sep);
      LastPieceIsSuffix(s[1..], sep);
      var c := rest[|rest| - 1];
      if s[0] != sep && |rest| == 1 {
        assert Join(rest, sep) == rest[0];
        assert pieces[|pieces| - 1] == [s[0]] + c;
        assert [s[0]] + s[1..] == s;
      } else {
        assert pieces[|pieces| - 1] == c;
        assert s[|s| - |c|..] == s[1..][|s| - 1 - |c|..];
      }
    }
  }

  /** The text after the last `sep` is characterised by its three
      properties: any separator-free suffix that starts the string or
      follows a separator is that text. */
  lemma LastPieceUnique(s: string, sep: char, b: string)
    requires sep !in b
    requires |b| <= |s| && b == s[|s| - |b|..]
    requires |b| == |s| || s[|s| - |b| - 1] == sep
    ensures LastPiece(s, sep) == b
  {
  }

  /** Rust's `trim_start`: drops the leading white space. */
  function TrimStart(s: string): (r: string)
    ensures |r| <= |s| && r == s[|s| - |r|..]
    ensures AllWhitespace(s[..|s| - |r|])
    ensures r == [] || !IsWhitespace(r[0])
    decreases |s|
  {
    if s != [] && IsWhitespace(s[0]) then
      var r := TrimStart(s[1..]);
      assert s[..|s| - |r|] == [s[0]] + s[1..][..|s| - 1 - |r|];
      r
    else s
  }

  /** Rust's `trim_end`: drops the trailing white space. */
  function TrimEnd(s: string): (r: string)
    ensures |r| <= |s| && r == s[..|r|]
    ensures AllWhitespace(s[|r|..])
    ensures r == [] || !IsWhitespace(r[|r| - 1])
    decreases |s|
  {
    if s != [] && IsWhitespace(s[|s| - 1]) then
      var t := s[..|s| - 1];
      var r := TrimEnd(t);
      assert s[|r|..] == t[|r|..] + [s[|s| - 1]];
      r
    else s
  }

  /** Rust's `trim`: `s` is the leading white space, then the result, then
      the trailing white space, and the result has white space at neither
      end. */
  function Trim(s: string): (r: string)
    ensures Trimmed(r)
    ensures var k := |s| - |TrimStart(s)|;
      k + |r| <= |s| && r == s[k..k + |r|]
      && AllWhitespace(s[..k]) && AllWhitespace(s[k + |r|..])
  {
    var t := TrimStart(s);
    TrimmedMiddle(s, t, TrimEnd(t));
    TrimEnd(t)
  }

  /** Trimming the end of a string whose start is trimmed leaves the middle
      of the original. */
  lemma TrimmedMiddle(s: string, t: string, r: string)
    requires |t| <= |s| && t == s[|s| - |t|..] && AllWhitespace(s[..|s| - |t|])
    requires t == [] || !IsWhitespace(t[0])
    requires |r| <= |t| && r == t[..|r|] && AllWhitespace(t[|r|..])
    requires r == [] || !IsWhitespace(r[|r| - 1])
    ensures var k := |s| - |t|;
      k + |r| <= |s| && r == s[k..k + |r|]
      && AllWhitespace(s[..k]) && AllWhitespace(s[k + |r|..]) && Trimmed(r)
  {
    var k := |s| - |t|;
    assert s[k + |r|..] == t[|r|..];
    assert r != [] ==> r[0] == t[0];
  }

  /** Trimming a string that has no white space at either end changes
      nothing. */
  lemma TrimTrimmed(s: string)
    requires Trimmed(s)
    ensures Trim(s) == s
  {
  }

  /** Trimming twice is trimming once. */
  lemma TrimIdempotent(s: string)
    ensures Trim(Trim(s)) == Trim(s)
  {
    TrimTrimmed(Trim(s));
  }

  /** The first piece of a split is the text before the first separator. */
  lemma {:induction false} SplitFirstPiece(a: string, sep: char, b: string)
    requires sep !in a
    ensures Split(a + [sep] + b, sep)[0] == a
    decreases |a|
  {
    var s := a + [sep] + b;
    if a != [] {
      assert s[1..] == a[1..] + [sep] + b;
      SplitFirstPiece(a[1..], sep, b);
      assert [a[0]] + a[1..] == a;
    } else {
      assert s[0] == sep;
    }
  }

  /** A separator at the end adds one empty last piece. */
  lemma {:induction false} SplitTrailingSep(s: string, sep: char)
    ensures Split(s + [sep], sep) == Split(s, sep) + [[]]
    decreases |s|
  {
    if s == [] {
      assert Split([sep], sep) == [[]] + Split([], sep);
    } else {
      assert (s + [sep])[1..] == s[1..] + [sep];
      SplitTrailingSep(s[1..], sep);
    }
  }

  /** Leading white space is dropped by `TrimStart`, up to the first other
      character. */
  lemma {:induction false} TrimStartPadded(lead: string, x: string)
    requires AllWhitespace(lead)
    requires x == [] || !IsWhitespace(x[0])
    ensures TrimStart(lead + x) == x
    decreases |lead|
  {
    if lead != [] {
      assert (lead + x)[1..] == lead[1..] + x;
      TrimStartPadded(lead[1..], x);
    }
  }

  /** Trailing white space is dropped by `TrimEnd`, back to the last other
      character. */
  lemma {:induction false} TrimEndPadded(x: string, trail: string)
    requires AllWhitespace(trail)
    requires x == [] || !IsWhitespace(x[|x| - 1])
    ensures TrimEnd(x + trail) == x
    decreases |trail|
  {
    if trail != [] {
      var s := x + trail;
      assert s[..|s| - 1] == x + trail[..|trail| - 1];
      TrimEndPadded(x, trail[..|trail| - 1]);
    }
  }

  /** `trim` gives back exactly the text between white-space padding. */
  lemma TrimPadded(lead: string, x: string, trail: string)
    requires AllWhitespace(lead) && AllWhitespace(trail) && Trimmed(x)
    ensures Trim(lead + x + trail) == x
  {
    if x == [] {
      assert lead + x + trail == lead + trail;
      TrimWhitespace(lead + trail);
    } else {
      assert lead + x + trail == lead + (x + trail);
      TrimStartPadded(lead, x + trail);
      TrimEndPadded(x, trail);
    }
  }

  /** `trim` of nothing but white space is empty. */
  lemma TrimWhitespace(w: string)
    requires AllWhitespace(w)
    ensures Trim(w) == []
  {
    TrimStartPadded(w, []);
    assert w + [] == w;
  }
}
