/**
 * Basename formatting of the `find` utility (user/find.c, fmtname).
 *
 * fmtname takes the path component after the last '/', returns it as is when it
 * is at least DIRSIZ characters long, and otherwise copies it into a static
 * DIRSIZ+1 byte buffer, pads it with blanks and cuts the trailing blanks off
 * again by storing a NUL after the last non-blank character.
 *
 * Strings are the characters before C's terminating NUL, so a path never
 * contains '\0'.
 */
module Find {

  /** Length of a directory entry name (xv6's kernel/fs.h, which is not part of this model). */
  const DIRSIZ: nat := 14

  /** The component of `path` after its last '/', or all of `path` when it has none. */
  function Basename(path: string): (c: string)
    ensures |c| <= |path| && c == path[|path| - |c|..]
    ensures '/' !in c
    ensures |c| < |path| ==> path[|path| - |c| - 1] == '/'
  {
    if path == [] then []
    else if path[|path| - 1] == '/' then []
    else Basename(path[..|path| - 1]) + [path[|path| - 1]]
  }

  /** `s` without its trailing blanks. */
  function TrimRight(s: string): (t: string)
    ensures |t| <= |s| && t == s[..|t|]
    ensures t == [] || t[|t| - 1] != ' '
    ensures forall k :: |t| <= k < |s| ==> s[k] == ' '
  {
    if s == [] then []
    else if s[|s| - 1] == ' ' then TrimRight(s[..|s| - 1])
    else s
  }

  /** `n` blanks. */
  function Blanks(n: nat): (s: string)
    ensures |s| == n && forall k :: 0 <= k < n ==> s[k] == ' '
  {
    seq(n, _ => ' ')
  }

  /**
   * What fmtname returns: a long component unchanged, a short one with its
   * trailing blanks removed, and DIRSIZ blanks for a short component that is
   * empty or all blanks (the trimming loop never looks at position 0).
   */
  function FmtName(path: string): (r: string)
    ensures '/' !in r
    ensures |Basename(path)| >= DIRSIZ ==> r == Basename(path)
    ensures |Basename(path)| < DIRSIZ ==> |r| <= DIRSIZ
  {
    var c := Basename(path);
    if |c| >= DIRSIZ then c else ShortName(c)
  }

  /** The blank-padded, then trimmed, form of a component shorter than DIRSIZ. */
  function ShortName(c: string): (r: string)
    requires |c| < DIRSIZ
    ensures |r| <= DIRSIZ
    ensures forall k :: 0 <= k < |r| ==> r[k] == ' ' || r[k] in c
  {
    if TrimRight(c) == [] then Blanks(DIRSIZ) else TrimRight(c)
  }

  /**
   * A component shorter than DIRSIZ with a non-blank character comes back as
   * its longest prefix ending in a non-blank; only blanks were cut off.
   */
  lemma ShortNameTrims(c: string, i: nat)
    requires |c| < DIRSIZ && i < |c| && c[i] != ' '
    ensures var r := ShortName(c);
      i < |r| <= |c| && r == c[..|r|] && r[|r| - 1] != ' ' &&
      forall k :: |r| <= k < |c| ==> c[k] == ' '
  {
    var t := TrimRight(c);
    assert i < |t|;
  }

  /** A component shorter than DIRSIZ that is empty or all blanks comes back as DIRSIZ blanks. */
  lemma ShortNameOfBlanks(c: string)
    requires |c| < DIRSIZ
    requires forall k :: 0 <= k < |c| ==> c[k] == ' '
    ensures ShortName(c) == Blanks(DIRSIZ)
  {
    TrimRightOfBlanks(c);
  }

  lemma {:induction false} TrimRightOfBlanks(s: string)
    requires forall k :: 0 <= k < |s| ==> s[k] == ' '
    ensures TrimRight(s) == []
  {
    if s != [] {
      TrimRightOfBlanks(s[..|s| - 1]);
    }
  }

  /** C's strlen: the number of characters before the first NUL. */
  function StrLen(s: seq<char>): (n: nat)
    ensures n <= |s| && '\0' !in s[..n]
    ensures n < |s| ==> s[n] == '\0'
  {
    if s == [] || s[0] == '\0' then 0 else 1 + StrLen(s[1..])
  }

  /** strlen of a buffer whose first NUL is at index n. */
  lemma {:induction false} StrLenAt(s: seq<char>, n: nat)
    requires n < |s| && s[n] == '\0'
    requires forall k :: 0 <= k < n ==> s[k] != '\0'
    ensures StrLen(s) == n
  {
    if n > 0 {
      StrLenAt(s[1..], n - 1);
    }
  }

  /** The backward search stops on the last '/': what follows it is the basename. */
  lemma {:induction false} BasenameAfterLastSlash(path: string, p: nat)
    requires p <= |path| && (p == 0 || path[p - 1] == '/')
    requires forall k :: p <= k < |path| ==> path[k] != '/'
    ensures Basename(path) == path[p..]
  {
    if p < |path| {
      BasenameAfterLastSlash(path[..|path| - 1], p);
      assert path[..|path| - 1][p..] + [path[|path| - 1]] == path[p..];
    }
  }

  /**
   * fmtname as the C code runs it: a backward search for the last '/', a copy
   * into a DIRSIZ+1 byte buffer padded with blanks, and a backward loop that
   * stores a NUL after the last non-blank. The result is the C string the
   * returned pointer designates.
   */
  method FmtNameInBuffer(path: string) returns (r: string)
    requires '\0' !in path
    ensures r == FmtName(path)
  {
    // p starts on the terminating NUL and walks back to the last '/' (or one
    // before the start); *p is the NUL when p == |path|.
    var p: int := |path|;
    while p >= 0 && (p == |path| || path[p] != '/')
      invariant -1 <= p <= |path|
      invariant forall k :: p < k < |path| ==> path[k] != '/'
      decreases p
    {
      p := p - 1;
    }
    p := p + 1;
    BasenameAfterLastSlash(path, p);
    var c := path[p..];
    var len := |path| - p;
    if len >= DIRSIZ {
      r := c;
      return;
    }
    r := PadAndTrim(c);
  }

  /**
   * The second half of fmtname: copy a short component into the static
   * DIRSIZ+1 byte buffer, pad it with blanks, and store a NUL after the last
   * non-blank, scanning backwards from position DIRSIZ-2 down to 0.
   */
  method PadAndTrim(c: string) returns (r: string)
    requires '\0' !in c && |c| < DIRSIZ
    ensures r == ShortName(c)
  {
    var len := |c|;
    // The static buffer: its last byte stays NUL, since nothing below writes there.
    var buf := new char[DIRSIZ + 1](_ => '\0');
    forall k | 0 <= k < len {
      buf[k] := c[k];
    }
    forall k | len <= k < DIRSIZ {
      buf[k] := ' ';
    }
    ghost var padded := c + Blanks(DIRSIZ - len);
    assert forall k :: 0 <= k < DIRSIZ ==> buf[k] == padded[k];
    assert buf[..] == padded + ['\0'];
    // The early return on an empty buffer (strlen(buf) == 0) cannot happen:
    // the buffer holds DIRSIZ characters before its NUL.
    StrLenAt(buf[..], DIRSIZ);
    var n := StrLen(buf[..]);
    var i := n - 1;
    while i > 0
      invariant 0 <= i <= n - 1
      invariant buf[..] == padded + ['\0']
      invariant forall k :: i <= k < DIRSIZ ==> padded[k] == ' '
    {
      if buf[i - 1] != ' ' {
        buf[i] := '\0';
        StrLenAt(buf[..], i);
        r := buf[..StrLen(buf[..])];
        assert r == c[..i];
        assert forall k :: i <= k < |c| ==> c[k] == ' ' by {
          assert forall k :: 0 <= k < |c| ==> c[k] == padded[k];
        }
        TrimRightOfPadded(c, i);
        return;
      }
      i := i - 1;
    }
    StrLenAt(buf[..], DIRSIZ);
    r := buf[..StrLen(buf[..])];
    assert r == padded;
    assert forall k :: 0 <= k < |c| ==> c[k] == ' ' by {
      assert forall k :: 0 <= k < |c| ==> c[k] == padded[k];
    }
    TrimRightOfBlanks(c);
  }

  /** Where the trimming loop stops: just after the last non-blank of the component. */
  lemma {:induction false} TrimRightOfPadded(c: string, i: nat)
    requires 0 < i <= |c| && c[i - 1] != ' '
    requires forall k :: i <= k < |c| ==> c[k] == ' '
    ensures TrimRight(c) == c[..i]
  {
    if i < |c| {
      TrimRightOfPadded(c[..|c| - 1], i);
      assert c[..|c| - 1][..i] == c[..i];
    }
  }
}
