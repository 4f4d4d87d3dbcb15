/** The mirror-list body handling of `get_mirror_list`: Python's
    `str.splitlines`, `str.strip`, the `#` comment filter, and the
    comprehension that combines them.  The HTTP request itself is not part of
    this model: the body text is a parameter. */
module MirrorList {

  /** Python's `str.isspace` for one character: the characters that
      `str.strip()` removes from either end. */
  predicate IsSpace(c: char) {
    var n := c as int;
    (0x09 <= n <= 0x0D) || (0x1C <= n <= 0x20) || n == 0x85 || n == 0xA0 ||
    n == 0x1680 || (0x2000 <= n <= 0x200A) || n == 0x2028 || n == 0x2029 ||
    n == 0x202F || n == 0x205F || n == 0x3000
  }

  /** The characters at which `str.splitlines` ends a line (a "\r\n" pair is
      one boundary, handled in SplitLines). */
  predicate IsLineBoundary(c: char) {
    var n := c as int;
    (0x0A <= n <= 0x0D) || (0x1C <= n <= 0x1E) || n == 0x85 || n == 0x2028 || n == 0x2029
  }

  predicate NoLineBoundary(s: string) {
    forall k :: 0 <= k < |s| ==> !IsLineBoundary(s[k])
  }

  /** `s.lstrip()`. */
  function TrimLeft(s: string): (r: string)
    ensures |r| <= |s| && (r == [] || !IsSpace(r[0]))
  {
    if s != [] && IsSpace(s[0]) then TrimLeft(s[1..]) else s
  }

  /** `s.rstrip()`. */
  function TrimRight(s: string): (r: string)
    ensures |r| <= |s| && (r == [] || !IsSpace(r[|r| - 1]))
  {
    if s != [] && IsSpace(s[|s| - 1]) then TrimRight(s[..|s| - 1]) else s
  }

  /** `lstrip` returns the suffix of `s` left after dropping its leading
      whitespace: what it drops is whitespace and what it keeps does not
      start with whitespace. */
  lemma {:induction false} TrimLeftDropsLeadingSpace(s: string)
    ensures |TrimLeft(s)| <= |s| && TrimLeft(s) == s[|s| - |TrimLeft(s)|..]
    ensures forall k :: 0 <= k < |s| - |TrimLeft(s)| ==> IsSpace(s[k])
    ensures TrimLeft(s) == [] || !IsSpace(TrimLeft(s)[0])
  {
    if s != [] && IsSpace(s[0]) {
      TrimLeftDropsLeadingSpace(s[1..]);
      LeadingSpaceStep(s, TrimLeft(s[1..]));
    }
  }

  lemma LeadingSpaceStep(s: string, r: string)
    requires s != [] && IsSpace(s[0])
    requires |r| <= |s| - 1 && r == s[1..][|s| - 1 - |r|..]
    requires forall k :: 0 <= k < |s| - 1 - |r| ==> IsSpace(s[1..][k])
    ensures r == s[|s| - |r|..]
    ensures forall k :: 0 <= k < |s| - |r| ==> IsSpace(s[k])
  {
    assert s[1..][|s| - 1 - |r|..] == s[|s| - |r|..];
    forall k | 0 <= k < |s| - |r| ensures IsSpace(s[k]) {
      if k > 0 {
        assert s[k] == s[1..][k - 1];
      }
    }
  }

  /** `rstrip` returns the prefix of `s` left after dropping its trailing
      whitespace. */
  lemma {:induction false} TrimRightDropsTrailingSpace(s: string)
    ensures |TrimRight(s)| <= |s| && TrimRight(s) == s[..|TrimRight(s)|]
    ensures forall k :: |TrimRight(s)| <= k < |s| ==> IsSpace(s[k])
    ensures TrimRight(s) == [] || !IsSpace(TrimRight(s)[|TrimRight(s)| - 1])
  {
    if s != [] && IsSpace(s[|s| - 1]) {
      TrimRightDropsTrailingSpace(s[..|s| - 1]);
      TrailingSpaceStep(s, s[..|s| - 1], TrimRight(s[..|s| - 1]));
    }
  }

  lemma TrailingSpaceStep(s: string, t: string, r: string)
    requires s != [] && IsSpace(s[|s| - 1]) && t == s[..|s| - 1]
    requires |r| <= |t| && r == t[..|r|]
    requires forall k :: |r| <= k < |t| ==> IsSpace(t[k])
    ensures r == s[..|r|]
    ensures forall k :: |r| <= k < |s| ==> IsSpace(s[k])
  {
    assert t[..|r|] == s[..|r|];
    forall k | |r| <= k < |s| ensures IsSpace(s[k]) {
      if k < |t| {
        assert s[k] == t[k];
      }
    }
  }

  /** `s.strip()`: `s` without its leading and trailing whitespace. */
  function Strip(s: string): (r: string)
    ensures |r| <= |s|
  {
    TrimRight(TrimLeft(s))
  }

  /** What `strip` keeps is the slice s[i..i+|Strip(s)|] for the given i, and
      everything outside that slice is whitespace, while the slice starts
      and ends with a non-space. */
  lemma {:induction false} StripIsTrimmedSlice(s: string) returns (i: nat)
    ensures i + |Strip(s)| <= |s| && Strip(s) == s[i..i + |Strip(s)|]
    ensures forall k :: 0 <= k < i ==> IsSpace(s[k])
    ensures forall k :: i + |Strip(s)| <= k < |s| ==> IsSpace(s[k])
    ensures Strip(s) == [] || (!IsSpace(Strip(s)[0]) && !IsSpace(Strip(s)[|Strip(s)| - 1]))
  {
    TrimLeftDropsLeadingSpace(s);
    TrimRightDropsTrailingSpace(TrimLeft(s));
    i := TrimmedSlice(s, TrimLeft(s), Strip(s));
  }

  /** StripIsTrimmedSlice, stated on the two trimming results alone. */
  lemma TrimmedSlice(s: string, l: string, r: string) returns (i: nat)
    requires |l| <= |s| && l == s[|s| - |l|..]
    requires forall k :: 0 <= k < |s| - |l| ==> IsSpace(s[k])
    requires l == [] || !IsSpace(l[0])
    requires |r| <= |l| && r == l[..|r|]
    requires forall k :: |r| <= k < |l| ==> IsSpace(l[k])
    requires r == [] || !IsSpace(r[|r| - 1])
    ensures i + |r| <= |s| && r == s[i..i + |r|]
    ensures forall k :: 0 <= k < i ==> IsSpace(s[k])
    ensures forall k :: i + |r| <= k < |s| ==> IsSpace(s[k])
    ensures r == [] || (!IsSpace(r[0]) && !IsSpace(r[|r| - 1]))
  {
    i := |s| - |l|;
    SliceOfSuffix(s, i, |r|);
    assert r != [] ==> r[0] == l[0];
    forall k | i + |r| <= k < |s| ensures IsSpace(s[k]) {
      assert s[k] == l[k - i];
    }
  }

  lemma SliceOfSuffix(s: string, i: nat, n: nat)
    requires i + n <= |s|
    ensures s[i..][..n] == s[i..i + n]
  {
  }

  /** Stripping twice is stripping once. */
  lemma StripIdempotent(s: string)
    ensures Strip(Strip(s)) == Strip(s)
  {
    var t := Strip(s);
    var _ := StripIsTrimmedSlice(s);
    assert t == [] || !IsSpace(t[0]);
    assert TrimLeft(t) == t;
    assert t == [] || !IsSpace(t[|t| - 1]);
  }

  /** Index of the first line boundary in `s`, or |s| when there is none. */
  function BoundaryIndex(s: string): (i: nat)
    ensures i <= |s|
    ensures i < |s| ==> IsLineBoundary(s[i])
    ensures NoLineBoundary(s[..i])
  {
    if s == [] then 0
    else if IsLineBoundary(s[0]) then 0
    else
      var j := BoundaryIndex(s[1..]);
      assert s[..1 + j] == [s[0]] + s[1..][..j];
      1 + j
  }

  /** `s.splitlines()`: the lines of `s` without their terminators; "\r\n"
      ends one line, and a final terminator does not start an extra one. */
  function SplitLines(s: string): (lines: seq<string>)
    ensures forall k :: 0 <= k < |lines| ==> NoLineBoundary(lines[k])
    ensures |lines| <= |s| && (s != [] ==> |lines| >= 1)
    decreases |s|
  {
    if s == [] then []
    else
      var i := BoundaryIndex(s);
      if i == |s| then [s]
      else
        var next := if s[i] == '\r' && i + 1 < |s| && s[i + 1] == '\n' then i + 2 else i + 1;
        [s[..i]] + SplitLines(s[next..])
  }

  /** Lines joined back, each one followed by "\n". */
  function JoinLines(lines: seq<string>): string {
    if lines == [] then [] else lines[0] + "\n" + JoinLines(lines[1..])
  }

  lemma {:induction false} BoundaryAfterLine(line: string, c: char, rest: string)
    requires NoLineBoundary(line) && IsLineBoundary(c)
    ensures BoundaryIndex(line + [c] + rest) == |line|
  {
    if line != [] {
      assert (line + [c] + rest)[1..] == line[1..] + [c] + rest;
      BoundaryAfterLine(line[1..], c, rest);
    }
  }

  /** `splitlines` undoes joining with "\n" when no line holds a boundary. */
  lemma {:induction false} SplitJoinRoundTrip(lines: seq<string>)
    requires forall k :: 0 <= k < |lines| ==> NoLineBoundary(lines[k])
    ensures SplitLines(JoinLines(lines)) == lines
  {
    if lines != [] {
      SplitFirstLine(lines[0], JoinLines(lines[1..]));
      SplitJoinRoundTrip(lines[1..]);
    }
  }

  /** A line ended by "\n" is split off whole. */
  lemma SplitFirstLine(line: string, rest: string)
    requires NoLineBoundary(line)
    ensures SplitLines(line + "\n" + rest) == [line] + SplitLines(rest)
  {
    var s := line + "\n" + rest;
    assert s == line + ['\n'] + rest;
    BoundaryAfterLine(line, '\n', rest);
    assert s[..|line|] == line;
    assert s[|line| + 1..] == rest;
  }

  /** A line ended by "\r\n" is split off whole: the pair is one boundary,
      so no empty line appears between `line` and `rest`. */
  lemma SplitFirstCrlfLine(line: string, rest: string)
    requires NoLineBoundary(line)
    ensures SplitLines(line + "\r\n" + rest) == [line] + SplitLines(rest)
  {
    var s := line + "\r\n" + rest;
    assert s == line + ['\r'] + (['\n'] + rest);
    BoundaryAfterLine(line, '\r', ['\n'] + rest);
    assert s[|line|] == '\r' && s[|line| + 1] == '\n';
    assert s[..|line|] == line;
    assert s[|line| + 2..] == rest;
  }

  /** Lines joined back, each one followed by "\r\n". */
  function JoinCrlfLines(lines: seq<string>): string {
    if lines == [] then [] else lines[0] + "\r\n" + JoinCrlfLines(lines[1..])
  }

  /** `splitlines` also undoes joining with "\r\n", as in a mirror list
      served with CRLF line endings. */
  lemma {:induction false} SplitJoinCrlfRoundTrip(lines: seq<string>)
    requires forall k :: 0 <= k < |lines| ==> NoLineBoundary(lines[k])
    ensures SplitLines(JoinCrlfLines(lines)) == lines
  {
    if lines != [] {
      SplitFirstCrlfLine(lines[0], JoinCrlfLines(lines[1..]));
      SplitJoinCrlfRoundTrip(lines[1..]);
    }
  }

  /** `line.startswith('#')`, tested on the unstripped line. */
  predicate IsComment(line: string) {
    |line| > 0 && line[0] == '#'
  }

  /** `[line.strip() for line in lines if not line.startswith('#')]`. */
  function ParseMirrorList(lines: seq<string>): (mirrors: seq<string>)
    ensures |mirrors| <= |lines|
  {
    if lines == [] then []
    else
      var last := lines[|lines| - 1];
      ParseMirrorList(lines[..|lines| - 1]) + (if IsComment(last) then [] else [Strip(last)])
  }

  /** The mirror list of a response body, as `get_mirror_list` computes it. */
  function GetMirrorList(body: string): (mirrors: seq<string>)
    ensures |mirrors| <= |body|
    ensures SelectsNonComments(SplitLines(body), mirrors, KeptIndices(SplitLines(body)))
  {
    ParseSelectsNonComments(SplitLines(body));
    ParseMirrorList(SplitLines(body))
  }

  /** Indices of the lines that are not comments, in increasing order. */
  function KeptIndices(lines: seq<string>): seq<nat> {
    if lines == [] then []
    else
      KeptIndices(lines[..|lines| - 1]) + (if IsComment(lines[|lines| - 1]) then [] else [|lines| - 1])
  }

  /** `idx` lists, in increasing order, exactly the non-comment lines, and
      entry k of `mirrors` is line idx[k] stripped. */
  ghost predicate SelectsNonComments(lines: seq<string>, mirrors: seq<string>, idx: seq<nat>) {
    |idx| == |mirrors| && EntriesAreStripped(lines, mirrors, idx) && Increasing(idx) && CoversNonComments(lines, idx)
  }

  /** Entry k of `mirrors` is non-comment line idx[k], stripped. */
  ghost predicate EntriesAreStripped(lines: seq<string>, mirrors: seq<string>, idx: seq<nat>)
    requires |idx| == |mirrors|
  {
    forall k :: 0 <= k < |idx| ==> idx[k] < |lines| && !IsComment(lines[idx[k]]) && mirrors[k] == Strip(lines[idx[k]])
  }

  ghost predicate Increasing(idx: seq<nat>) {
    forall k, m :: 0 <= k < m < |idx| ==> idx[k] < idx[m]
  }

  ghost predicate CoversNonComments(lines: seq<string>, idx: seq<nat>) {
    forall i :: 0 <= i < |lines| && !IsComment(lines[i]) ==> i in idx
  }

  /** Every parsed entry is a non-comment input line stripped, in input
      order, and no non-comment line is lost. */
  lemma {:induction false} ParseSelectsNonComments(lines: seq<string>)
    ensures SelectsNonComments(lines, ParseMirrorList(lines), KeptIndices(lines))
  {
    if lines != [] {
      var n := |lines| - 1;
      var init, p, q := lines[..n], ParseMirrorList(lines[..n]), KeptIndices(lines[..n]);
      ParseSelectsNonComments(init);
      assert lines == init + [lines[n]];
      SelectsStep(init, lines[n], p, q);
      if IsComment(lines[n]) {
        assert ParseMirrorList(lines) == p && KeptIndices(lines) == q;
      } else {
        assert ParseMirrorList(lines) == p + [Strip(lines[n])] && KeptIndices(lines) == q + [n];
      }
    }
  }

  /** One more line keeps the selection: a comment adds nothing, any other
      line adds its stripped text and its index. */
  lemma SelectsStep(init: seq<string>, line: string, p: seq<string>, q: seq<nat>)
    requires SelectsNonComments(init, p, q)
    ensures IsComment(line) ==> SelectsNonComments(init + [line], p, q)
    ensures !IsComment(line) ==> SelectsNonComments(init + [line], p + [Strip(line)], q + [|init|])
  {
    if IsComment(line) {
      SelectsSkip(init, line, p, q);
    } else {
      SelectsKeep(init, line, p, q);
    }
  }

  lemma SelectsSkip(init: seq<string>, line: string, p: seq<string>, q: seq<nat>)
    requires SelectsNonComments(init, p, q) && IsComment(line)
    ensures SelectsNonComments(init + [line], p, q)
  {
    var lines := init + [line];
    forall k | 0 <= k < |q| ensures q[k] < |lines| && lines[q[k]] == init[q[k]] {
    }
    forall i | 0 <= i < |lines| && !IsComment(lines[i]) ensures i in q {
      assert i < |init| && lines[i] == init[i];
    }
  }

  lemma SelectsKeep(init: seq<string>, line: string, p: seq<string>, q: seq<nat>)
    requires SelectsNonComments(init, p, q) && !IsComment(line)
    ensures SelectsNonComments(init + [line], p + [Strip(line)], q + [|init|])
  {
    KeepEntries(init, line, p, q);
    KeepIncreasing(q, |init|);
    KeepCovers(init, line, q);
  }

  lemma KeepEntries(init: seq<string>, line: string, p: seq<string>, q: seq<nat>)
    requires |q| == |p| && EntriesAreStripped(init, p, q) && !IsComment(line)
    ensures EntriesAreStripped(init + [line], p + [Strip(line)], q + [|init|])
  {
    var lines, p', q' := init + [line], p + [Strip(line)], q + [|init|];
    forall k | 0 <= k < |q'|
      ensures q'[k] < |lines| && !IsComment(lines[q'[k]]) && p'[k] == Strip(lines[q'[k]])
    {
      if k < |q| {
        assert q'[k] == q[k] && p'[k] == p[k] && lines[q[k]] == init[q[k]];
      }
    }
  }

  lemma KeepIncreasing(q: seq<nat>, n: nat)
    requires Increasing(q) && forall k :: 0 <= k < |q| ==> q[k] < n
    ensures Increasing(q + [n])
  {
  }

  lemma KeepCovers(init: seq<string>, line: string, q: seq<nat>)
    requires CoversNonComments(init, q)
    ensures CoversNonComments(init + [line], q + [|init|])
  {
    var lines := init + [line];
    forall i | 0 <= i < |lines| && !IsComment(lines[i]) ensures i in q + [|init|] {
      if i < |init| {
        assert lines[i] == init[i];
        assert i in q;
      }
    }
  }

  /** A line that does not start with '#' is kept, stripped. */
  lemma NonCommentIsKept(lines: seq<string>, i: nat)
    requires i < |lines| && !IsComment(lines[i])
    ensures Strip(lines[i]) in ParseMirrorList(lines)
  {
    ParseSelectsNonComments(lines);
    var idx := KeptIndices(lines);
    assert i in idx;
    var k :| 0 <= k < |idx| && idx[k] == i;
    assert ParseMirrorList(lines)[k] == Strip(lines[i]);
  }

  /** A comment marker after leading blanks is not a comment: the line is
      kept, and only after stripping does it start with '#'. */
  lemma IndentedHashIsKept(lines: seq<string>, i: nat)
    requires i < |lines| && |lines[i]| > 0 && IsSpace(lines[i][0])
    ensures Strip(lines[i]) in ParseMirrorList(lines)
    ensures !IsComment("  # x") && Strip("  # x") == "# x"
  {
    NonCommentIsKept(lines, i);
    assert "  # x"[1..] == " # x" && " # x"[1..] == "# x";
    assert TrimLeft("  # x") == TrimLeft(" # x") == "# x";
    assert TrimRight("# x") == "# x";
  }

  /** A blank or all-whitespace line is kept as the empty string. */
  lemma BlankLineIsKept(lines: seq<string>, i: nat)
    requires i < |lines| && forall k :: 0 <= k < |lines[i]| ==> IsSpace(lines[i][k])
    ensures "" in ParseMirrorList(lines)
  {
    TrimLeftAllSpace(lines[i]);
    NonCommentIsKept(lines, i);
  }

  lemma {:induction false} TrimLeftAllSpace(s: string)
    requires forall k :: 0 <= k < |s| ==> IsSpace(s[k])
    ensures TrimLeft(s) == [] && Strip(s) == []
  {
    if s != [] {
      assert forall k :: 0 <= k < |s| - 1 ==> s[1..][k] == s[k + 1];
      TrimLeftAllSpace(s[1..]);
    }
  }
}
