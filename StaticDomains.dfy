/** The statically configured browsing domains that DomainBrowser::startBrowse
    feeds to gotNewDomain in browsing mode: first the pieces of the
    AVAHI_BROWSE_DOMAINS environment variable, then the lines of the
    avahi/browse-domains file under the generic configuration directory. Both
    sources are inputs here; reading them is left to the caller. */
module StaticDomains {
  import opened Wrappers
  import opened QtText

  /** The separator of the environment variable's list. */
  const EnvSeparator: char := ':'

  /** The names taken from the environment variable: none when it is empty,
      otherwise every ':'-separated piece, empty pieces included. */
  function EnvDomains(evar: string): (r: seq<string>)
    ensures evar == "" <==> r == []
    ensures evar != "" ==> |r| == Occurrences(evar, EnvSeparator) + 1
    ensures forall i :: 0 <= i < |r| ==> EnvSeparator !in r[i]
    ensures Join(r, EnvSeparator) == evar
  {
    if evar == "" then []
    else
      JoinSplit(evar, EnvSeparator);
      Split(evar, EnvSeparator)
  }

  /** An empty piece is passed on as a domain exactly when the variable has
      two separators side by side or one at either end. */
  lemma EnvEmptyPieces(evar: string)
    requires evar != ""
    ensures var r := EnvDomains(evar);
      (exists i :: 0 <= i < |r| && r[i] == "") <==>
        evar[0] == EnvSeparator || evar[|evar| - 1] == EnvSeparator ||
        exists k :: 0 <= k < |evar| - 1 && evar[k] == EnvSeparator && evar[k + 1] == EnvSeparator
  {
    var r := EnvDomains(evar);
    assert r == Split(evar, EnvSeparator);
    if i :| 0 <= i < |r| && r[i] == "" {
      EmptyPieceHasNeighbours(r, i);
    }
    if evar[0] == EnvSeparator {
      assert r[0] == "";
    } else if evar[|evar| - 1] == EnvSeparator {
      SplitTrailing(evar, EnvSeparator);
      assert r[|r| - 1] == "";
    } else if k :| 0 <= k < |evar| - 1 && evar[k] == EnvSeparator && evar[k + 1] == EnvSeparator {
      SplitDoubled(evar, EnvSeparator, k);
    }
  }

  lemma {:induction false} EmptyPieceHasNeighbours(r: seq<string>, i: nat)
    requires i < |r| && r[i] == "" && Join(r, EnvSeparator) != ""
    decreases |r|
    ensures var s := Join(r, EnvSeparator);
      s[0] == EnvSeparator || s[|s| - 1] == EnvSeparator ||
      exists k :: 0 <= k < |s| - 1 && s[k] == EnvSeparator && s[k + 1] == EnvSeparator
  {
    var s := Join(r, EnvSeparator);
    var t := Join(r[1..], EnvSeparator);
    assert |r| >= 2;
    assert s == r[0] + [EnvSeparator] + t;
    if i == 0 {
      assert s[0] == EnvSeparator;
    } else if t == "" {
      assert s[|s| - 1] == EnvSeparator;
    } else {
      assert r[1..][i - 1] == "";
      EmptyPieceHasNeighbours(r[1..], i - 1);
      if t[0] == EnvSeparator {
        assert s[|r[0]|] == EnvSeparator && s[|r[0]| + 1] == EnvSeparator;
      } else if t[|t| - 1] == EnvSeparator {
        assert s[|s| - 1] == t[|t| - 1];
      } else {
        var k :| 0 <= k < |t| - 1 && t[k] == EnvSeparator && t[k + 1] == EnvSeparator;
        var off := |r[0]| + 1;
        assert s[off + k] == t[k] && s[off + k + 1] == t[k + 1];
      }
    }
  }

  /** What one line read from the configuration file becomes: the line as
      QString::fromUtf8 reads it from a NUL-terminated buffer, trimmed. */
  function CleanLine(line: string): (r: string)
    ensures |r| <= |line|
  {
    Trim(UpToNul(line))
  }

  /** A line as readLine returns it gives a name with no white space at
      either end, no NUL, and no newline: the one a line may end with is cut
      off with the surrounding white space. */
  lemma CleanLineSpec(line: string)
    requires forall k :: 0 <= k < |line| - 1 ==> line[k] != '\n'
    ensures var d := CleanLine(line);
      Unpadded(d) && '\n' !in d && '\0' !in d
  {
    var u := UpToNul(line);
    UpToNulSpec(line);
    TrimSpec(u);
  }

  /** The cleaned lines in file order. */
  function CleanLines(lines: seq<string>): (r: seq<string>)
    ensures |r| == |lines|
  {
    if lines == [] then [] else [CleanLine(lines[0])] + CleanLines(lines[1..])
  }

  lemma {:induction false} CleanLinesAt(lines: seq<string>, i: nat)
    requires i < |lines|
    ensures CleanLines(lines)[i] == CleanLine(lines[i])
  {
    if i > 0 {
      CleanLinesAt(lines[1..], i - 1);
    }
  }

  /** The names taken from the configuration file: none when it cannot be
      opened, otherwise one per line that readLine returns, in file order. */
  function ConfigDomains(file: Option<string>): seq<string> {
    match file
    case None => []
    case Some(content) => CleanLines(ReadLines(content))
  }

  /** No name taken from the configuration file spans two lines, has white
      space at either end or holds a NUL. */
  lemma ConfigDomainsShape(file: Option<string>, i: nat)
    requires i < |ConfigDomains(file)|
    ensures var d := ConfigDomains(file)[i];
      Unpadded(d) && '\n' !in d && '\0' !in d
  {
    var content := file.value;
    ReadLineShape(content, i);
    CleanLinesAt(ReadLines(content), i);
    CleanLineSpec(ReadLines(content)[i]);
  }

  /** Each line readLine returns is non-empty and has a newline at most at its
      end. */
  lemma {:induction false} ReadLineShape(s: string, i: nat)
    requires i < |ReadLines(s)|
    decreases |s|
    ensures var l := ReadLines(s)[i];
      l != [] && forall k :: 0 <= k < |l| - 1 ==> l[k] != '\n'
  {
    var line := FirstLine(s);
    FirstLineShape(s);
    if i > 0 {
      ReadLineShape(s[|line|..], i - 1);
    }
  }
}
