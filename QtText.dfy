/** The Qt string and file-reading behaviour that the static domain loader of
    DomainBrowser::startBrowse relies on: QString::split with a character
    separator (empty parts kept), QString::trimmed, QString::fromUtf8 applied
    to a NUL-terminated buffer, and the line-by-line reading of a text file
    with QIODevice::readLine until atEnd. Text is a sequence of characters. */
module QtText {

  /** QChar::isSpace: the ASCII white space characters, U+0085, U+00A0 and
      the Unicode space, line and paragraph separators. */
  predicate IsSpace(c: char) {
    ('\t' <= c <= '\r') || c == ' ' || c == '\U{85}' || c == '\U{A0}' ||
    c == '\U{1680}' || ('\U{2000}' <= c <= '\U{200A}') || c == '\U{2028}' ||
    c == '\U{2029}' || c == '\U{202F}' || c == '\U{205F}' || c == '\U{3000}'
  }

  ghost predicate AllSpace(s: string) {
    forall k :: 0 <= k < |s| ==> IsSpace(s[k])
  }

  /** Neither end of s is white space. */
  predicate Unpadded(s: string) {
    s == [] || (!IsSpace(s[0]) && !IsSpace(s[|s| - 1]))
  }

  // ---------------------------------------------------------------------
  // QString::split(QChar sep), keeping empty parts
  // ---------------------------------------------------------------------

  /** Number of occurrences of c in s. */
  function Occurrences(s: string, c: char): nat {
    if s == [] then 0 else (if s[0] == c then 1 else 0) + Occurrences(s[1..], c)
  }

  /** The pieces of s between occurrences of sep: always one more piece than
      there are separators, none of them containing the separator. */
  function Split(s: string, sep: char): (r: seq<string>)
    ensures |r| == Occurrences(s, sep) + 1
    ensures forall i :: 0 <= i < |r| ==> sep !in r[i]
  {
    if s == [] then [""]
    else
      var rest := Split(s[1..], sep);
      if s[0] == sep then [""] + rest
      else [[s[0]] + rest[0]] + rest[1..]
  }

  /** The pieces glued back together with sep between neighbours. */
  function Join(parts: seq<string>, sep: char): string {
    if parts == [] then ""
    else if |parts| == 1 then parts[0]
    else parts[0] + [sep] + Join(parts[1..], sep)
  }

  /** Splitting loses nothing: joining the pieces gives back the string. */
  lemma {:induction false} JoinSplit(s: string, sep: char)
    ensures Join(Split(s, sep), sep) == s
  {
    if s != [] {
      var rest := Split(s[1..], sep);
      JoinSplit(s[1..], sep);
      if s[0] == sep {
        assert Split(s, sep) == [""] + rest;
        assert s == [sep] + s[1..];
      } else if |rest| == 1 {
        assert Split(s, sep) == [[s[0]] + rest[0]];
        assert s == [s[0]] + s[1..];
      } else {
        var parts := [[s[0]] + rest[0]] + rest[1..];
        assert Split(s, sep) == parts;
        assert parts[1..] == rest[1..];
        assert Join(rest, sep) == rest[0] + [sep] + Join(rest[1..], sep);
        assert s == [s[0]] + s[1..];
      }
    }
  }

  /** A piece free of the separator is split off whole before a separator. */
  lemma {:induction false} SplitHead(p: string, sep: char, t: string)
    requires sep !in p
    ensures Split(p + [sep] + t, sep) == [p] + Split(t, sep)
  {
    if p == [] {
      assert p + [sep] + t == [sep] + t;
      assert ([sep] + t)[1..] == t;
    } else {
      var s := p + [sep] + t;
      assert s[0] == p[0] && s[1..] == p[1..] + [sep] + t;
      SplitHead(p[1..], sep, t);
      assert [p[0]] + p[1..] == p;
    }
  }

  /** A string free of the separator splits into itself alone. */
  lemma {:induction false} SplitSingle(p: string, sep: char)
    requires sep !in p
    ensures Split(p, sep) == [p]
  {
    if p != [] {
      SplitSingle(p[1..], sep);
      assert [p[0]] + p[1..] == p;
    }
  }

  /** Joining separator-free pieces and splitting again recovers them. */
  lemma {:induction false} SplitJoin(parts: seq<string>, sep: char)
    requires |parts| >= 1
    requires forall i :: 0 <= i < |parts| ==> sep !in parts[i]
    ensures Split(Join(parts, sep), sep) == parts
  {
    if |parts| == 1 {
      SplitSingle(parts[0], sep);
    } else {
      SplitJoin(parts[1..], sep);
      SplitHead(parts[0], sep, Join(parts[1..], sep));
      assert [parts[0]] + parts[1..] == parts;
    }
  }

  /** A separator at the end leaves an empty last piece. */
  lemma {:induction false} SplitTrailing(s: string, sep: char)
    requires s != [] && s[|s| - 1] == sep
    ensures var r := Split(s, sep); r[|r| - 1] == ""
  {
    if |s| > 1 {
      SplitTrailing(s[1..], sep);
      JoinSplit(s[1..], sep);
    }
  }

  /** Two separators side by side leave an empty piece that is not the
      first. */
  lemma {:induction false} SplitDoubled(s: string, sep: char, k: nat)
    requires k + 1 < |s| && s[k] == sep && s[k + 1] == sep
    ensures exists i :: 1 <= i < |Split(s, sep)| && Split(s, sep)[i] == ""
  {
    var r := Split(s, sep);
    var rest := Split(s[1..], sep);
    if k == 0 {
      assert r == [""] + rest;
      assert s[1..][0] == sep;
      assert rest == [""] + Split(s[1..][1..], sep);
      assert 1 < |r| && r[1] == "";
    } else {
      SplitDoubled(s[1..], sep, k - 1);
      var j :| 1 <= j < |rest| && rest[j] == "";
      if s[0] == sep {
        assert r[j + 1] == "";
      } else {
        assert r[j] == "";
      }
    }
  }

  // ---------------------------------------------------------------------
  // QString::trimmed
  // ---------------------------------------------------------------------

  /** s without its leading white space. */
  function TrimStart(s: string): (r: string)
    ensures |r| <= |s|
  {
    if s != [] && IsSpace(s[0]) then TrimStart(s[1..]) else s
  }

  /** TrimStart cuts off exactly the white space at the start. */
  lemma {:induction false} TrimStartSpec(s: string)
    ensures var r := TrimStart(s);
      r == s[|s| - |r|..] && AllSpace(s[..|s| - |r|]) && (r == [] || !IsSpace(r[0]))
  {
    if s != [] && IsSpace(s[0]) {
      TrimStartSpec(s[1..]);
    }
  }

  /** s without its trailing white space. */
  function TrimEnd(s: string): (r: string)
    ensures |r| <= |s|
  {
    if s != [] && IsSpace(s[|s| - 1]) then TrimEnd(s[..|s| - 1]) else s
  }

  /** TrimEnd cuts off exactly the white space at the end. */
  lemma {:induction false} TrimEndSpec(s: string)
    ensures var r := TrimEnd(s);
      r == s[..|r|] && AllSpace(s[|r|..]) && (r == [] || !IsSpace(r[|r| - 1]))
  {
    if s != [] && IsSpace(s[|s| - 1]) {
      var t := s[..|s| - 1];
      TrimEndSpec(t);
      assert s[|TrimEnd(t)|..] == t[|TrimEnd(t)|..] + [s[|s| - 1]];
    }
  }

  /** The number of white space characters at the start of s. */
  function Leading(s: string): (n: nat)
    ensures n <= |s|
  {
    |s| - |TrimStart(s)|
  }

  /** QString::trimmed: s without white space at either end. */
  function Trim(s: string): (r: string)
    ensures |r| <= |s|
  {
    TrimEnd(TrimStart(s))
  }

  /** The trimmed string is the piece of s after its leading white space; only
      white space follows it in s, and it has no white space at either end. */
  lemma TrimSpec(s: string)
    ensures var r := Trim(s);
      Unpadded(r) &&
      Leading(s) + |r| <= |s| && s[Leading(s)..Leading(s) + |r|] == r &&
      AllSpace(s[..Leading(s)]) && AllSpace(s[Leading(s) + |r|..])
  {
    var t := TrimStart(s);
    var r := TrimEnd(t);
    TrimStartSpec(s);
    TrimEndSpec(t);
    var i := |s| - |t|;
    assert Leading(s) == i;
    assert Unpadded(r) by {
      if r != [] {
        assert r[0] == t[0];
      }
    }
    assert s[i..i + |r|] == r by {
      assert t == s[i..];
      assert r == t[..|r|];
    }
    assert AllSpace(s[i + |r|..]) by {
      assert s[i + |r|..] == t[|r|..];
    }
  }

  /** Trimming is determined by the unpadded core: padding a string free of
      outer white space with white space on both sides and trimming gives the
      string back. */
  lemma {:induction false} TrimPadded(p: string, c: string, q: string)
    requires AllSpace(p) && AllSpace(q) && Unpadded(c)
    ensures Trim(p + c + q) == c
  {
    var s := p + c + q;
    if c == [] {
      assert AllSpace(s) by {
        assert s == p + q;
      }
      TrimStartSpec(s);
    } else {
      assert s == p + (c + q);
      TrimStartPadded(p, c + q);
      TrimEndPadded(c, q);
    }
  }

  lemma {:induction false} TrimStartPadded(p: string, t: string)
    requires AllSpace(p) && (t == [] || !IsSpace(t[0]))
    ensures TrimStart(p + t) == t
  {
    if p != [] {
      assert (p + t)[1..] == p[1..] + t;
      TrimStartPadded(p[1..], t);
    } else {
      assert p + t == t;
    }
  }

  lemma {:induction false} TrimEndPadded(c: string, q: string)
    requires AllSpace(q) && c != [] && !IsSpace(c[|c| - 1])
    ensures TrimEnd(c + q) == c
  {
    if q != [] {
      assert (c + q)[..|c + q| - 1] == c + q[..|q| - 1];
      TrimEndPadded(c, q[..|q| - 1]);
    } else {
      assert c + q == c;
    }
  }

  /** Trimming twice is trimming once. */
  lemma TrimIdempotent(s: string)
    ensures Trim(Trim(s)) == Trim(s)
  {
    TrimSpec(s);
    TrimPadded([], Trim(s), []);
    assert [] + Trim(s) + [] == Trim(s);
  }

  // ---------------------------------------------------------------------
  // QString::fromUtf8(const char *): reads up to the first NUL
  // ---------------------------------------------------------------------

  /** The longest prefix of s before its first NUL character. */
  function UpToNul(s: string): (r: string)
    ensures |r| <= |s|
  {
    if s == [] || s[0] == '\0' then [] else [s[0]] + UpToNul(s[1..])
  }

  /** UpToNul keeps the text before the first NUL and nothing else: the result
      is a prefix without NUL, followed in s by a NUL unless it is all of s. */
  lemma {:induction false} UpToNulSpec(s: string)
    ensures var r := UpToNul(s);
      r == s[..|r|] && '\0' !in r && (|r| < |s| ==> s[|r|] == '\0')
  {
    if !(s == [] || s[0] == '\0') {
      UpToNulSpec(s[1..]);
    }
  }

  // ---------------------------------------------------------------------
  // QIODevice::readLine on a file opened in text mode, until atEnd
  // ---------------------------------------------------------------------

  /** The next line that readLine returns from the unread text s: everything
      up to and including the first newline, or the whole rest when there is
      no newline. */
  function FirstLine(s: string): (r: string)
    requires s != []
    ensures 0 < |r| <= |s|
  {
    if s[0] == '\n' || |s| == 1 then s[..1] else [s[0]] + FirstLine(s[1..])
  }

  /** The line readLine returns is a prefix of the unread text that holds a
      newline only as its last character, and ends with one unless it is the
      rest of the file. */
  lemma {:induction false} FirstLineShape(s: string)
    requires s != []
    ensures var r := FirstLine(s);
      r == s[..|r|] &&
      (forall k :: 0 <= k < |r| - 1 ==> r[k] != '\n') &&
      (r[|r| - 1] == '\n' || |r| == |s|)
  {
    if !(s[0] == '\n' || |s| == 1) {
      FirstLineShape(s[1..]);
    }
  }

  /** The lines readLine returns one by one until the end of the file. */
  function ReadLines(s: string): (r: seq<string>)
    decreases |s|
  {
    if s == [] then [] else var line := FirstLine(s); [line] + ReadLines(s[|line|..])
  }

  /** Reading line by line loses nothing: the lines, none of them empty, make
      up the text. */
  lemma {:induction false} ReadLinesConcat(s: string)
    decreases |s|
    ensures var r := ReadLines(s);
      Concat(r) == s && (forall i :: 0 <= i < |r| ==> r[i] != []) &&
      forall i :: 0 <= i < |r| - 1 ==> r[i][|r[i]| - 1] == '\n'
  {
    if s != [] {
      var line := FirstLine(s);
      var rest := ReadLines(s[|line|..]);
      var r := [line] + rest;
      ReadLinesConcat(s[|line|..]);
      FirstLineShape(s);
      assert r[1..] == rest;
      assert line + s[|line|..] == s;
      forall i | 0 <= i < |r| - 1
        ensures r[i][|r[i]| - 1] == '\n'
      {
        if i == 0 {
          assert s[|line|..] != [];
        } else {
          assert r[i] == rest[i - 1];
        }
      }
    }
  }

  function Concat(parts: seq<string>): string {
    if parts == [] then "" else parts[0] + Concat(parts[1..])
  }
}
