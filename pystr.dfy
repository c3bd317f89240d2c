/**
 * The Python `str` built-ins that main.py relies on, over Dafny strings
 * (sequences of Unicode scalar values): `in`, `replace`, `isspace`, `strip`,
 * `splitlines`, `split`, `join` and `lower`.
 */
module PyStr {

  /** `pat` occurs in `s` starting at index `i`. */
  predicate OccursAt(s: string, pat: string, i: nat) {
    i + |pat| <= |s| && s[i..i + |pat|] == pat
  }

  /** Python's `pat in s`. */
  predicate Contains(s: string, pat: string) {
    exists i :: 0 <= i <= |s| - |pat| && OccursAt(s, pat, i)
  }

  /** A string made of `n` copies of `c`. */
  function Repeat(c: char, n: nat): (r: string)
    ensures |r| == n && forall k :: 0 <= k < n ==> r[k] == c
  {
    seq(n, _ => c)
  }

  // ---------------------------------------------------------------------
  // str.replace(pat, rep): left to right, non-overlapping
  // ---------------------------------------------------------------------

  /**
   * Python's `s.replace(pat, rep)` for a non-empty `pat`: the string is
   * scanned from the left; wherever `pat` starts, it is replaced by `rep`
   * and the scan resumes after it, so matches never overlap.
   * Every character of the result comes from `s` or from `rep`.
   */
  function ReplaceAll(s: string, pat: string, rep: string): (r: string)
    requires pat != ""
    ensures forall c :: c in r ==> c in s || c in rep
    decreases |s|
  {
    if |s| < |pat| then s
    else if s[..|pat|] == pat then rep + ReplaceAll(s[|pat|..], pat, rep)
    else [s[0]] + ReplaceAll(s[1..], pat, rep)
  }

  /** Where `pat` does not occur, `replace` changes nothing. */
  lemma {:induction false} ReplaceAllAbsent(s: string, pat: string, rep: string)
    requires pat != ""
    requires !Contains(s, pat)
    ensures ReplaceAll(s, pat, rep) == s
    decreases |s|
  {
    if |s| < |pat| {
    } else {
      assert !OccursAt(s, pat, 0);
      forall i | 0 <= i <= |s[1..]| - |pat|
        ensures !OccursAt(s[1..], pat, i)
      {
        assert s[1..][i..i + |pat|] == s[i + 1..i + 1 + |pat|];
        assert !OccursAt(s, pat, i + 1);
      }
      ReplaceAllAbsent(s[1..], pat, rep);
    }
  }

  /** No match can start inside a prefix that lacks the pattern's first character. */
  lemma {:induction false} ReplaceAllSkip(a: string, b: string, pat: string, rep: string)
    requires pat != "" && pat[0] !in a
    ensures ReplaceAll(a + b, pat, rep) == a + ReplaceAll(b, pat, rep)
    decreases |a|
  {
    if a != "" {
      var s := a + b;
      assert a == [a[0]] + a[1..];
      if |s| < |pat| {
        assert ReplaceAll(b, pat, rep) == b;
      } else {
        assert s[..|pat|] != pat by {
          assert s[..|pat|][0] == a[0];
        }
        calc == {
          ReplaceAll(s, pat, rep);
          [a[0]] + ReplaceAll(s[1..], pat, rep);
          { assert s[1..] == a[1..] + b; }
          [a[0]] + ReplaceAll(a[1..] + b, pat, rep);
          { ReplaceAllSkip(a[1..], b, pat, rep); }
          [a[0]] + (a[1..] + ReplaceAll(b, pat, rep));
        }
      }
    } else {
      assert a + b == b;
    }
  }

  /** A match at the front is replaced and the scan resumes after it. */
  lemma ReplaceAllMatch(b: string, pat: string, rep: string)
    requires pat != ""
    ensures ReplaceAll(pat + b, pat, rep) == rep + ReplaceAll(b, pat, rep)
  {
    assert (pat + b)[..|pat|] == pat;
    assert (pat + b)[|pat|..] == b;
  }

  /** A text without the pattern's first character is left as it is. */
  lemma ReplaceAllNone(a: string, pat: string, rep: string)
    requires pat != "" && pat[0] !in a
    ensures ReplaceAll(a, pat, rep) == a
  {
    ReplaceAllSkip(a, "", pat, rep);
    assert a + "" == a;
  }

  /** Replacing a single character works piece by piece. */
  lemma {:induction false} ReplaceCharConcat(a: string, b: string, c: char, rep: string)
    ensures ReplaceAll(a + b, [c], rep) == ReplaceAll(a, [c], rep) + ReplaceAll(b, [c], rep)
    decreases |a|
  {
    if a == "" {
      assert a + b == b;
    } else {
      assert (a + b)[1..] == a[1..] + b;
      assert (a + b)[..1] == a[..1];
      ReplaceCharConcat(a[1..], b, c, rep);
    }
  }

  /**
   * Replacing a single character by a single character works position by
   * position: the length is kept and only the occurrences of `c` change.
   */
  lemma {:induction false} ReplaceCharPointwise(s: string, c: char, d: char)
    ensures |ReplaceAll(s, [c], [d])| == |s|
    ensures forall k :: 0 <= k < |s| ==> ReplaceAll(s, [c], [d])[k] == if s[k] == c then d else s[k]
    decreases |s|
  {
    if s != "" {
      ReplaceCharPointwise(s[1..], c, d);
      var r := ReplaceAll(s, [c], [d]);
      var t := ReplaceAll(s[1..], [c], [d]);
      assert r == (if s[0] == c then [d] else [s[0]]) + t;
    }
  }

  /** Replacing a single character by a text without it removes every occurrence. */
  lemma {:induction false} ReplaceAllRemoves(s: string, c: char, rep: string)
    requires c !in rep
    ensures c !in ReplaceAll(s, [c], rep)
    decreases |s|
  {
    if |s| >= 1 {
      ReplaceAllRemoves(s[1..], c, rep);
    }
  }

  /** A text that starts with some character other than `*` keeps it in front when `**` is deleted. */
  lemma KeepsHeadWithoutStar(t: string)
    requires t != "" && t[0] != '*'
    ensures ReplaceAll(t, "**", "") != "" && ReplaceAll(t, "**", "")[0] == t[0]
  {
    if |t| >= 2 {
      assert t[..2] != "**";
    }
  }

  /**
   * Deleting `**` leaves no `**` behind: a `*` that survives is one not
   * followed by another `*`, and the character after it survives too.
   */
  lemma {:induction false} DeleteDoubleStarLeavesNone(s: string)
    ensures !Contains(ReplaceAll(s, "**", ""), "**")
    decreases |s|
  {
    var r := ReplaceAll(s, "**", "");
    if |s| < 2 {
      assert |r| < 2;
    } else if s[..2] == "**" {
      DeleteDoubleStarLeavesNone(s[2..]);
      assert r == ReplaceAll(s[2..], "**", "");
    } else {
      var tail := ReplaceAll(s[1..], "**", "");
      DeleteDoubleStarLeavesNone(s[1..]);
      assert r == [s[0]] + tail;
      if s[0] == '*' {
        assert s[1] != '*';
        KeepsHeadWithoutStar(s[1..]);
      }
      forall i | 0 <= i <= |r| - 2
        ensures !OccursAt(r, "**", i)
      {
        if i == 0 {
          if s[0] == '*' {
            assert r[1] == s[1];
          }
        } else {
          assert r[i..i + 2] == tail[i - 1..i + 1];
          assert !OccursAt(tail, "**", i - 1);
        }
      }
    }
  }

  /** A run of `n` stars loses its pairs from the left: `***` becomes `*`. */
  lemma {:induction false} DeleteDoubleStarOnRun(n: nat)
    ensures ReplaceAll(Repeat('*', n), "**", "") == Repeat('*', n % 2)
    decreases n
  {
    var s := Repeat('*', n);
    if n >= 2 {
      assert s[..2] == "**";
      assert s[2..] == Repeat('*', n - 2);
      DeleteDoubleStarOnRun(n - 2);
    }
  }

  // ---------------------------------------------------------------------
  // str.isspace, str.strip
  // ---------------------------------------------------------------------

  /**
   * Python's `c.isspace()`: the characters of bidirectional class WS, B or S
   * or of general category Zs.
   */
  predicate IsSpace(c: char) {
    var n := c as int;
    (0x09 <= n <= 0x0D) || (0x1C <= n <= 0x20) || n == 0x85 || n == 0xA0 ||
    n == 0x1680 || (0x2000 <= n <= 0x200A) || n == 0x2028 || n == 0x2029 ||
    n == 0x202F || n == 0x205F || n == 0x3000
  }

  /** No leading and no trailing whitespace. */
  predicate Trimmed(s: string) {
    s == "" || (!IsSpace(s[0]) && !IsSpace(s[|s| - 1]))
  }

  /** The number of whitespace characters `s` starts with. */
  function LeadingSpace(s: string): (i: nat)
    ensures i <= |s| && forall k :: 0 <= k < i ==> IsSpace(s[k])
    ensures i < |s| ==> !IsSpace(s[i])
  {
    SpaceRun(s, 0)
  }

  /** The length of the run of whitespace in `s` that starts at `from`. */
  function SpaceRun(s: string, from: nat): (n: nat)
    requires from <= |s|
    ensures from + n <= |s| && forall k :: from <= k < from + n ==> IsSpace(s[k])
    ensures from + n < |s| ==> !IsSpace(s[from + n])
    decreases |s| - from
  {
    if from < |s| && IsSpace(s[from]) then 1 + SpaceRun(s, from + 1) else 0
  }

  /** Python's `s.lstrip()`: the suffix left after dropping leading whitespace. */
  function StripLeft(s: string): (r: string)
    ensures |r| <= |s| && r == s[|s| - |r|..]
    ensures forall k :: 0 <= k < |s| - |r| ==> IsSpace(s[k])
    ensures r != "" ==> !IsSpace(r[0])
  {
    s[LeadingSpace(s)..]
  }

  /** Python's `s.rstrip()`: the prefix left after dropping trailing whitespace. */
  function StripRight(s: string): (r: string)
    ensures |r| <= |s| && r == s[..|r|]
    ensures forall k :: |r| <= k < |s| ==> IsSpace(s[k])
    ensures r != "" ==> !IsSpace(r[|r| - 1])
    decreases |s|
  {
    if s != "" && IsSpace(s[|s| - 1]) then StripRight(s[..|s| - 1]) else s
  }

  /**
   * Python's `s.strip()`: the infix of `s` that remains after dropping the
   * whitespace at both ends.
   */
  function Strip(s: string): (r: string)
    ensures Trimmed(r)
    ensures |r| <= |s| && forall c :: c in r ==> c in s
    ensures LeadingSpace(s) + |r| <= |s|
    ensures forall k :: 0 <= k < |r| ==> r[k] == s[LeadingSpace(s) + k]
    ensures forall k :: LeadingSpace(s) + |r| <= k < |s| ==> IsSpace(s[k])
  {
    StripRightFrom(s, LeadingSpace(s), StripRight(s[LeadingSpace(s)..]));
    StripRight(s[LeadingSpace(s)..])
  }

  /**
   * Right-stripping `s[i..]`, where `s[i]` is not whitespace, leaves a
   * trimmed infix of `s` starting at `i`, followed only by whitespace.
   */
  lemma StripRightFrom(s: string, i: nat, r: string)
    requires i <= |s| && (i < |s| ==> !IsSpace(s[i]))
    requires r == StripRight(s[i..])
    ensures Trimmed(r) && i + |r| <= |s|
    ensures forall k :: 0 <= k < |r| ==> r[k] == s[i + k]
    ensures forall k :: i + |r| <= k < |s| ==> IsSpace(s[k])
    ensures forall c :: c in r ==> c in s
  {
    var l := s[i..];
    InfixOfSuffix(s, i, r);
    forall k | i + |r| <= k < |s| ensures IsSpace(s[k]) {
      assert s[k] == l[k - i];
    }
  }

  /** A prefix of `s[i..]` is the infix of `s` starting at `i`. */
  lemma InfixOfSuffix(s: string, i: nat, r: string)
    requires i <= |s| && |r| <= |s| - i && r == s[i..][..|r|]
    ensures i + |r| <= |s| && forall k :: 0 <= k < |r| ==> r[k] == s[i + k]
    ensures forall c :: c in r ==> c in s
  {
    forall c | c in r ensures c in s {
      var j :| 0 <= j < |r| && r[j] == c;
      assert s[i + j] == c;
    }
  }

  /** `s.strip() == ""` exactly when every character of `s` is whitespace. */
  lemma StripEmptyIffAllSpace(s: string)
    ensures Strip(s) == "" <==> forall k :: 0 <= k < |s| ==> IsSpace(s[k])
  {
    var l := StripLeft(s);
    if l != "" {
      assert s[|s| - |l|] == l[0];
      assert l[..1] == StripRight(l)[..1];
    }
  }

  /** A string without leading or trailing whitespace is its own strip. */
  lemma StripTrimmed(s: string)
    requires Trimmed(s)
    ensures Strip(s) == s
  {
  }

  // ---------------------------------------------------------------------
  // str.splitlines
  // ---------------------------------------------------------------------

  /** The characters Python's `str.splitlines` breaks at. */
  predicate IsLineBoundary(c: char) {
    var n := c as int;
    (0x0A <= n <= 0x0D) || (0x1C <= n <= 0x1E) || n == 0x85 || n == 0x2028 || n == 0x2029
  }

  predicate NoLineBoundary(s: string) {
    forall k :: 0 <= k < |s| ==> !IsLineBoundary(s[k])
  }

  /** Index of the first line boundary in `s`, or `|s|` when there is none. */
  function FirstBoundary(s: string): (k: nat)
    ensures k <= |s| && NoLineBoundary(s[..k])
    ensures k < |s| ==> IsLineBoundary(s[k])
  {
    BoundaryFrom(s, 0)
  }

  /** Index of the first line boundary in `s` at or after `from`, or `|s|` when there is none. */
  function BoundaryFrom(s: string, from: nat): (k: nat)
    requires from <= |s|
    ensures from <= k <= |s| && forall j :: from <= j < k ==> !IsLineBoundary(s[j])
    ensures k < |s| ==> IsLineBoundary(s[k])
    decreases |s| - from
  {
    if from == |s| || IsLineBoundary(s[from]) then from else BoundaryFrom(s, from + 1)
  }

  /**
   * Python's `s.splitlines()`: the pieces between line boundaries, where
   * `\r\n` counts as one boundary and a final boundary opens no empty piece.
   * The pieces hold no boundary character, and there are none only for the
   * empty string.
   */
  function SplitLines(s: string): (r: seq<string>)
    ensures r == [] <==> s == ""
    ensures forall j :: 0 <= j < |r| ==> NoLineBoundary(r[j])
    decreases |s|
  {
    if s == "" then []
    else
      var k := FirstBoundary(s);
      if k == |s| then [s]
      else
        var width := if s[k] == '\r' && k + 1 < |s| && s[k + 1] == '\n' then 2 else 1;
        [s[..k]] + SplitLines(s[k + width..])
  }

  // ---------------------------------------------------------------------
  // sep.join(lines), s.split(sep) for a one-character separator
  // ---------------------------------------------------------------------

  /** Python's `sep.join(ls)`. */
  function Join(ls: seq<string>, sep: char): (r: string)
    ensures forall c :: c in r ==> c == sep || exists j :: 0 <= j < |ls| && c in ls[j]
  {
    if ls == [] then ""
    else if |ls| == 1 then ls[0]
    else ls[0] + [sep] + Join(ls[1..], sep)
  }

  /** Joining a first piece in front of at least one more puts the separator between them. */
  lemma JoinCons(head: string, tail: seq<string>, sep: char)
    requires |tail| >= 1
    ensures Join([head] + tail, sep) == head + [sep] + Join(tail, sep)
  {
    assert ([head] + tail)[1..] == tail;
  }

  /** Index of the first `sep` in `s`, or `|s|` when there is none. */
  function IndexOf(s: string, sep: char): (k: nat)
    ensures k <= |s| && sep !in s[..k]
    ensures k < |s| ==> s[k] == sep
    decreases |s|
  {
    if s == "" then 0
    else if s[0] == sep then 0
    else 1 + IndexOf(s[1..], sep)
  }

  /**
   * Python's `s.split(sep)`: every piece between separators, empty ones
   * included, so there is always at least one piece.
   */
  function Split(s: string, sep: char): (r: seq<string>)
    ensures |r| >= 1
    ensures forall j :: 0 <= j < |r| ==> sep !in r[j]
    decreases |s|
  {
    var k := IndexOf(s, sep);
    if k == |s| then [s]
    else [s[..k]] + Split(s[k + 1..], sep)
  }

  /** Splitting a join gives the pieces back, as long as none holds the separator. */
  lemma {:induction false} SplitJoin(ls: seq<string>, sep: char)
    requires ls != []
    requires forall j :: 0 <= j < |ls| ==> sep !in ls[j]
    ensures Split(Join(ls, sep), sep) == ls
    decreases |ls|
  {
    var s := Join(ls, sep);
    if |ls| == 1 {
      IndexOfAbsent(s, sep);
    } else {
      var rest := Join(ls[1..], sep);
      assert s == ls[0] + [sep] + rest;
      IndexOfAt(ls[0], sep, rest);
      assert s[|ls[0]| + 1..] == rest;
      assert s[..|ls[0]|] == ls[0];
      assert Split(s, sep) == [ls[0]] + Split(rest, sep);
      assert ls == [ls[0]] + ls[1..];
      SplitJoin(ls[1..], sep);
    }
  }

  /** Joining the pieces of a split gives the string back. */
  lemma {:induction false} JoinSplit(s: string, sep: char)
    ensures Join(Split(s, sep), sep) == s
    decreases |s|
  {
    var k := IndexOf(s, sep);
    if k < |s| {
      var head, rest := s[..k], s[k + 1..];
      var tail := Split(rest, sep);
      assert Split(s, sep) == [head] + tail;
      JoinSplit(rest, sep);
      JoinCons(head, tail, sep);
      CutAt(s, k);
      PrefixKeepsSum(head + [sep], Join(tail, sep), "", rest);
    }
  }

  /** A string is what comes before index `k`, the character there, and what follows. */
  lemma CutAt(s: string, k: nat)
    requires k < |s|
    ensures s == s[..k] + [s[k]] + s[k + 1..]
  {
  }

  lemma {:induction false} IndexOfAbsent(s: string, sep: char)
    requires sep !in s
    ensures IndexOf(s, sep) == |s|
    decreases |s|
  {
    if s != "" {
      assert s[0] in s;
      IndexOfAbsent(s[1..], sep);
    }
  }

  lemma {:induction false} IndexOfAt(a: string, sep: char, b: string)
    requires sep !in a
    ensures IndexOf(a + [sep] + b, sep) == |a|
    decreases |a|
  {
    var s := a + [sep] + b;
    if a != "" {
      assert a[0] in a;
      assert s[1..] == a[1..] + [sep] + b;
      IndexOfAt(a[1..], sep, b);
    }
  }

  /** A text without line boundaries is a single piece. */
  lemma SplitLinesSingle(a: string)
    requires a != "" && NoLineBoundary(a)
    ensures SplitLines(a) == [a]
  {
    assert a[..|a|] == a;
    FirstBoundaryOf(a, "");
  }

  /**
   * `splitlines` cuts at the first line boundary, which it drops; a `\r`
   * is a boundary of its own unless a `\n` follows it.
   */
  lemma SplitLinesAtBoundary(a: string, c: char, b: string)
    requires NoLineBoundary(a) && IsLineBoundary(c)
    requires !(c == '\r' && b != "" && b[0] == '\n')
    ensures SplitLines(a + [c] + b) == [a] + SplitLines(b)
  {
    var s := a + [c] + b;
    FirstBoundaryOf(a, [c] + b);
    assert s == a + ([c] + b);
    assert s[..|a|] == a && s[|a| + 1..] == b;
  }

  /** `\r\n` is one boundary: it is dropped as a whole and opens no empty piece. */
  lemma SplitLinesAtCrLf(a: string, b: string)
    requires NoLineBoundary(a)
    ensures SplitLines(a + "\r\n" + b) == [a] + SplitLines(b)
  {
    var s := a + "\r\n" + b;
    FirstBoundaryOf(a, "\r\n" + b);
    assert s == a + ("\r\n" + b);
    assert s[..|a|] == a && s[|a| + 2..] == b;
  }

  /** `splitlines` cuts at the first `\n`, which it drops. */
  lemma SplitLinesAtNewlineOf(a: string, b: string)
    requires NoLineBoundary(a)
    ensures SplitLines(a + "\n" + b) == [a] + SplitLines(b)
  {
    SplitLinesAtBoundary(a, '\n', b);
  }

  /** A boundary, then a line ended by `\n`: an empty piece and that line. */
  lemma BoundaryThenLine(c: char, b: string)
    requires IsLineBoundary(c) && b != "" && NoLineBoundary(b)
    ensures SplitLines([c] + b + "\n") == ["", b]
  {
    assert [c] + b + "\n" == "" + [c] + (b + "\n");
    assert !IsLineBoundary(b[0]);
    SplitLinesAtBoundary("", c, b + "\n");
    assert b + "\n" == b + "\n" + "";
    SplitLinesAtNewlineOf(b, "");
  }

  /** The first boundary of `a + b` is where `b` starts, when `a` has none and `b` opens with one. */
  lemma FirstBoundaryOf(a: string, b: string)
    requires NoLineBoundary(a)
    requires b != "" ==> IsLineBoundary(b[0])
    ensures FirstBoundary(a + b) == |a|
  {
    var s := a + b;
    assert forall j :: 0 <= j < |a| ==> s[j] == a[j];
    if b != "" {
      assert s[|a|] == b[0];
    }
  }

  /**
   * `splitlines` undone: when `\n` is the only line boundary in `s`, joining
   * the pieces with `\n` gives `s` back, less a final `\n`.
   */
  lemma {:induction false} JoinSplitLines(s: string)
    requires forall k :: 0 <= k < |s| && IsLineBoundary(s[k]) ==> s[k] == '\n'
    ensures Join(SplitLines(s), '\n') + FinalNewline(s) == s
    decreases |s|
  {
    if s != "" {
      var k := FirstBoundary(s);
      if k == |s| {
        assert s[..k] == s;
        JoinSplitLinesOfLine(s);
      } else {
        var head, rest := s[..k], s[k + 1..];
        CutAt(s, k);
        if rest == "" {
          JoinSplitLinesOfLastLine(head);
        } else {
          OnlyNewlinesAfter(s, k + 1);
          JoinSplitLines(rest);
          JoinSplitLinesStep(head, rest);
        }
      }
    }
  }

  /** A line without a boundary joins back to itself. */
  lemma JoinSplitLinesOfLine(s: string)
    requires s != "" && NoLineBoundary(s)
    ensures Join(SplitLines(s), '\n') + FinalNewline(s) == s
  {
    SplitLinesSingle(s);
    assert !IsLineBoundary(s[|s| - 1]);
  }

  /** A line and its final `\n` join back to themselves. */
  lemma JoinSplitLinesOfLastLine(head: string)
    requires NoLineBoundary(head)
    ensures Join(SplitLines(head + "\n"), '\n') + FinalNewline(head + "\n") == head + "\n"
  {
    assert head + "\n" == head + "\n" + "";
    SplitLinesAtNewlineOf(head, "");
  }

  /** What follows index `i` of a text whose only boundary is `\n` has no other boundary either. */
  lemma OnlyNewlinesAfter(s: string, i: nat)
    requires i <= |s|
    requires forall k :: 0 <= k < |s| && IsLineBoundary(s[k]) ==> s[k] == '\n'
    ensures forall j :: 0 <= j < |s[i..]| && IsLineBoundary(s[i..][j]) ==> s[i..][j] == '\n'
  {
    forall j | 0 <= j < |s[i..]| && IsLineBoundary(s[i..][j]) ensures s[i..][j] == '\n' {
      assert s[i..][j] == s[i + j];
    }
  }

  /** The `\n` that a text ends with, which `splitlines` drops; empty otherwise. */
  function FinalNewline(s: string): string {
    if s != "" && s[|s| - 1] == '\n' then "\n" else ""
  }

  /** One step of `JoinSplitLines`: a first line and `\n` put in front of a text that joins back. */
  lemma JoinSplitLinesStep(head: string, rest: string)
    requires NoLineBoundary(head) && rest != ""
    requires Join(SplitLines(rest), '\n') + FinalNewline(rest) == rest
    ensures Join(SplitLines(head + "\n" + rest), '\n') + FinalNewline(head + "\n" + rest) == head + "\n" + rest
  {
    var tail := SplitLines(rest);
    SplitLinesAtNewlineOf(head, rest);
    JoinCons(head, tail, '\n');
    FinalNewlineOfSuffix(head + "\n", rest);
    PrefixKeepsSum(head + "\n", Join(tail, '\n'), FinalNewline(rest), rest);
  }

  lemma PrefixKeepsSum(p: string, a: string, b: string, s: string)
    requires a + b == s
    ensures p + a + b == p + s
  {
  }

  lemma FinalNewlineOfSuffix(a: string, b: string)
    requires b != ""
    ensures FinalNewline(a + b) == FinalNewline(b)
  {
    assert (a + b)[|a + b| - 1] == b[|b| - 1];
  }

  // ---------------------------------------------------------------------
  // str.lower, restricted to ASCII letters
  // ---------------------------------------------------------------------

  function LowerChar(c: char): char {
    if 'A' <= c <= 'Z' then (c as int + 32) as char else c
  }

  /** `s.lower()` on the ASCII letters; every other character is kept. */
  function Lower(s: string): (r: string)
    ensures |r| == |s|
    ensures forall k :: 0 <= k < |s| ==> r[k] == LowerChar(s[k])
  {
    seq(|s|, k requires 0 <= k < |s| => LowerChar(s[k]))
  }
}
