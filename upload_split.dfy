/** app/upload/page.tsx: `splitMaybeList`, which turns one caption text
    returned by the model into list items, and `normalizeCaptions`, which
    flattens the shapes a caption can arrive in. */
module CaptionLists {
  import opened Wrappers
  import opened JsString

  /** Length of the run of `\n` in `s` that starts at `from`. */
  function NewlineRun(s: string, from: nat): (n: nat)
    requires from <= |s|
    ensures from + n <= |s|
    ensures forall k :: from <= k < from + n ==> s[k] == '\n'
    ensures from + n == |s| || s[from + n] != '\n'
    decreases |s| - from
  {
    if from < |s| && s[from] == '\n' then 1 + NewlineRun(s, from + 1) else 0
  }

  /** Length of the match of `/\r?\n+/` at the start of `s`; 0 when it does
      not match there. A match is an optional `\r` and then the whole run of
      `\n` that follows. */
  function BreakLen(s: string): (n: nat)
    ensures n <= |s|
    ensures n == 0 <==> s == [] || (s[0] != '\n' && !(|s| >= 2 && s[0] == '\r' && s[1] == '\n'))
    ensures n > 0 ==> (s[0] == '\n' || s[0] == '\r') && forall k :: 1 <= k < n ==> s[k] == '\n'
    ensures n > 0 ==> s[n - 1] == '\n' && (n == |s| || s[n] != '\n')
  {
    if s != [] && s[0] == '\n' then NewlineRun(s, 0)
    else if |s| >= 2 && s[0] == '\r' && s[1] == '\n' then 1 + NewlineRun(s, 1)
    else 0
  }

  /** `s.split(/\r?\n+/)`: the pieces between the maximal line-break runs. */
  function SplitLineBreaks(s: string): (r: seq<string>)
    ensures |r| >= 1
    ensures forall k :: 0 <= k < |r| ==> '\n' !in r[k]
    decreases |s|
  {
    if s == [] then [""]
    else if BreakLen(s) > 0 then [""] + SplitLineBreaks(s[BreakLen(s)..])
    else
      var rest := SplitLineBreaks(s[1..]);
      [[s[0]] + rest[0]] + rest[1..]
  }

  /** Lines that `SplitLineBreaks` gives back from their `\n`-join: no line
      holds a `\n`, none but the last ends with `\r`, and only the first and
      the last may be empty. */
  predicate JoinableLines(lines: seq<string>) {
    && |lines| >= 1
    && (forall k :: 0 <= k < |lines| ==> '\n' !in lines[k])
    && (forall k :: 0 <= k < |lines| - 1 ==> lines[k] == [] || lines[k][|lines[k]| - 1] != '\r')
    && (forall k :: 0 < k < |lines| - 1 ==> lines[k] != [])
  }

  /** A text without `\r` and without two `\n` in a row: its line breaks are
      single `\n` characters. */
  predicate SingleBreaks(s: string) {
    && '\r' !in s
    && forall k :: 0 <= k < |s| - 1 ==> !(s[k] == '\n' && s[k + 1] == '\n')
  }

  /** A line that cannot end in a break glues onto the first piece of what
      follows it. */
  lemma {:induction false} SplitAfterLine(l: string, t: string)
    requires '\n' !in l
    requires l == [] || l[|l| - 1] != '\r' || t == [] || t[0] != '\n'
    ensures SplitLineBreaks(l + t) == [l + SplitLineBreaks(t)[0]] + SplitLineBreaks(t)[1..]
    decreases |l|
  {
    var r := SplitLineBreaks(t);
    if l == [] {
      assert l + t == t && l + r[0] == r[0];
      assert r == [r[0]] + r[1..];
    } else {
      var l' := l[1..];
      assert l' == [] || l'[|l'| - 1] == l[|l| - 1];
      SplitAfterLine(l', t);
      SplitAfterChar(l, t);
    }
  }

  /** One step of `SplitAfterLine`: the first character of the line. */
  lemma {:induction false} SplitAfterChar(l: string, t: string)
    requires l != [] && '\n' !in l
    requires l[|l| - 1] != '\r' || t == [] || t[0] != '\n'
    requires SplitLineBreaks(l[1..] + t) == [l[1..] + SplitLineBreaks(t)[0]] + SplitLineBreaks(t)[1..]
    ensures SplitLineBreaks(l + t) == [l + SplitLineBreaks(t)[0]] + SplitLineBreaks(t)[1..]
  {
    var r := SplitLineBreaks(t);
    var lt := l + t;
    var l' := l[1..];
    var rt := SplitLineBreaks(l' + t);
    assert rt[0] == l' + r[0] && rt[1..] == r[1..];
    assert lt[0] == l[0] && lt[1..] == l' + t;
    NoBreakAtLine(l, t);
    SplitNoBreak(lt);
    assert [l[0]] + l' == l;
    ConcatAssoc([l[0]], l', r[0]);
    assert SplitLineBreaks(lt) == [[l[0]] + rt[0]] + rt[1..];
  }

  /** No break starts at a line that holds no `\n` and cannot end in a `\r`
      before one. */
  lemma {:induction false} NoBreakAtLine(l: string, t: string)
    requires l != [] && '\n' !in l
    requires l[|l| - 1] != '\r' || t == [] || t[0] != '\n'
    ensures BreakLen(l + t) == 0
  {
    var lt := l + t;
    assert lt[0] == l[0] && l[0] != '\n';
    assert |l| > 1 ==> lt[1] == l[1] && l[1] != '\n';
    assert |l| == 1 && t != [] ==> lt[1] == t[0];
  }

  /** Where no break starts, the first character joins the first piece. */
  lemma SplitNoBreak(s: string)
    requires s != [] && BreakLen(s) == 0
    ensures SplitLineBreaks(s) == [[s[0]] + SplitLineBreaks(s[1..])[0]] + SplitLineBreaks(s[1..])[1..]
  {
  }

  /** The first character of a join is the first character of its first
      piece. */
  lemma JoinHead(lines: seq<string>, sep: char)
    requires |lines| >= 1 && lines[0] != []
    ensures Join(lines, sep) != [] && Join(lines, sep)[0] == lines[0][0]
  {
  }

  /** Splitting the `\n`-join of joinable lines gives the lines back. */
  lemma {:induction false} SplitJoinLines(lines: seq<string>)
    requires JoinableLines(lines)
    ensures SplitLineBreaks(Join(lines, '\n')) == lines
    decreases |lines|
  {
    if |lines| == 1 {
      SplitAfterLine(lines[0], []);
      assert lines[0] + [] == lines[0];
    } else {
      var tail := lines[1..];
      JoinableTail(lines);
      SplitJoinLines(tail);
      var t := ['\n'] + Join(tail, '\n');
      SplitAfterBreak(tail);
      SplitAfterLine(lines[0], t);
      assert Join(lines, '\n') == lines[0] + t;
      assert lines[0] + "" == lines[0];
      assert [lines[0]] + tail == lines;
    }
  }

  /** Dropping the first of joinable lines leaves joinable lines. */
  lemma JoinableTail(lines: seq<string>)
    requires JoinableLines(lines) && |lines| >= 2
    ensures JoinableLines(lines[1..])
  {
    var tail := lines[1..];
    forall k | 0 <= k < |tail| ensures '\n' !in tail[k] { assert tail[k] == lines[k + 1]; }
    forall k | 0 <= k < |tail| - 1 ensures tail[k] == [] || tail[k][|tail[k]| - 1] != '\r' {
      assert tail[k] == lines[k + 1];
    }
    forall k | 0 < k < |tail| - 1 ensures tail[k] != [] { assert tail[k] == lines[k + 1]; }
  }

  /** A single `\n` in front of the join of the remaining lines opens one
      empty piece. */
  lemma {:induction false} SplitAfterBreak(tail: seq<string>)
    requires |tail| >= 1 && (|tail| == 1 || tail[0] != [])
    requires SplitLineBreaks(Join(tail, '\n')) == tail
    ensures SplitLineBreaks(['\n'] + Join(tail, '\n')) == [""] + tail
  {
    var j := Join(tail, '\n');
    var t := ['\n'] + j;
    if j != [] {
      if |tail| == 1 {
        assert j == tail[0];
        assert '\n' !in SplitLineBreaks(j)[0];
      } else {
        JoinHead(tail, '\n');
        assert '\n' !in SplitLineBreaks(j)[0];
      }
      assert t[1] == j[0] != '\n';
    }
    assert BreakLen(t) == 1;
    assert t[1..] == j;
  }

  /** Gluing a character onto the first piece puts it in front of the join. */
  lemma JoinConsChar(c: char, r: seq<string>, sep: char)
    requires |r| >= 1
    ensures Join([[c] + r[0]] + r[1..], sep) == [c] + Join(r, sep)
  {
    var q := [[c] + r[0]] + r[1..];
    if |r| > 1 {
      assert q[1..] == r[1..];
    }
  }

  /** A text whose line breaks are single `\n` is the `\n`-join of its
      split: nothing but the breaks is lost. */
  lemma {:induction false} JoinSplitLines(s: string)
    requires SingleBreaks(s)
    ensures Join(SplitLineBreaks(s), '\n') == s
    decreases |s|
  {
    if s != [] {
      assert SingleBreaks(s[1..]) by {
        forall k | 0 <= k < |s[1..]| - 1 ensures !(s[1..][k] == '\n' && s[1..][k + 1] == '\n') {
          assert s[1..][k] == s[k + 1] && s[1..][k + 1] == s[k + 2];
        }
      }
      JoinSplitLines(s[1..]);
      var r := SplitLineBreaks(s[1..]);
      if s[0] == '\n' {
        assert |s| >= 2 ==> s[1] != '\n';
        assert BreakLen(s) == 1;
        assert SplitLineBreaks(s) == [""] + r;
        assert ([""] + r)[1..] == r;
        assert s == [s[0]] + s[1..];
      } else {
        assert s[0] != '\r' by { assert s[0] in s; }
        assert BreakLen(s) == 0;
        JoinConsChar(s[0], r, '\n');
        assert s == [s[0]] + s[1..];
      }
    }
  }

  /** `s[p..e]` matches `\s*\d+[.)]\s+`: whitespace up to `i`, digits up to
      `j`, the `.` or `)` at `j`, and whitespace after it up to `e`. */
  predicate NumberedParts(s: string, p: nat, i: nat, j: nat, e: nat) {
    && p <= i < j && j + 1 < e <= |s|
    && (forall k :: p <= k < i ==> IsWhitespace(s[k]))
    && (forall k :: i <= k < j ==> IsDigit(s[k]))
    && (s[j] == '.' || s[j] == ')')
    && (forall k :: j + 1 <= k < e ==> IsWhitespace(s[k]))
  }

  /** `s[p..e]` matches `\s*[-•]\s+`, with the bullet at `i`. */
  predicate BulletParts(s: string, p: nat, i: nat, e: nat) {
    && p <= i && i + 1 < e <= |s|
    && (forall k :: p <= k < i ==> IsWhitespace(s[k]))
    && (s[i] == '-' || s[i] == '\U{2022}')
    && (forall k :: i + 1 <= k < e ==> IsWhitespace(s[k]))
  }

  /** Length of the match of `/\s*\d+[.)]\s+/` at index `p` of `s`; 0 when it
      does not match there. The match is greedy: it ends before a character
      that is not whitespace. */
  function NumberedPrefixLen(s: string, p: nat): (n: nat)
    requires p <= |s|
    ensures p + n <= |s|
    ensures n > 0 ==> IsWhitespace(s[p + n - 1])
    ensures n > 0 ==> p + n == |s| || !IsWhitespace(s[p + n])
  {
    var a := SpaceRun(s, p);
    var d := DigitRun(s, p + a);
    var m := p + a + d;
    if d > 0 && m < |s| && (s[m] == '.' || s[m] == ')') && SpaceRun(s, m + 1) > 0 then
      a + d + 1 + SpaceRun(s, m + 1)
    else 0
  }

  /** Length of the match of `/\s*[-•]\s+/` at index `p` of `s`; 0 when it
      does not match there. The match is greedy as well. */
  function BulletPrefixLen(s: string, p: nat): (n: nat)
    requires p <= |s|
    ensures p + n <= |s|
    ensures n > 0 ==> IsWhitespace(s[p + n - 1])
    ensures n > 0 ==> p + n == |s| || !IsWhitespace(s[p + n])
  {
    var a := SpaceRun(s, p);
    var m := p + a;
    if m < |s| && (s[m] == '-' || s[m] == '\U{2022}') && SpaceRun(s, m + 1) > 0 then
      a + 1 + SpaceRun(s, m + 1)
    else 0
  }

  /** A non-zero length is a match of the numbered pattern. */
  lemma NumberedPrefixMatches(s: string, p: nat) returns (i: nat, j: nat)
    requires p <= |s| && NumberedPrefixLen(s, p) > 0
    ensures NumberedParts(s, p, i, j, p + NumberedPrefixLen(s, p))
  {
    i := p + SpaceRun(s, p);
    j := i + DigitRun(s, i);
  }

  /** Every match of the numbered pattern at `p` is found, and the length is
      the longest one: it is exactly the match that stops before a
      character that is not whitespace. */
  lemma NumberedPrefixLongest(s: string, p: nat, i: nat, j: nat, e: nat)
    requires NumberedParts(s, p, i, j, e)
    ensures NumberedPrefixLen(s, p) > 0 && e <= p + NumberedPrefixLen(s, p)
    ensures e == |s| || !IsWhitespace(s[e]) ==> p + NumberedPrefixLen(s, p) == e
  {
    assert IsDigit(s[i]) && !IsWhitespace(s[i]) && !IsDigit(s[j]);
    SpaceRunCovers(s, p, i);
    DigitRunCovers(s, i, j);
    SpaceRunCovers(s, j + 1, e);
    NumberedLenFromRuns(s, p, i, j);
  }

  /** The numbered length read off the three runs it is made of. */
  lemma NumberedLenFromRuns(s: string, p: nat, i: nat, j: nat)
    requires p <= i < j < |s| && (s[j] == '.' || s[j] == ')')
    requires SpaceRun(s, p) == i - p && DigitRun(s, i) == j - i && SpaceRun(s, j + 1) > 0
    ensures NumberedPrefixLen(s, p) == j + 1 + SpaceRun(s, j + 1) - p
  {
  }

  /** A non-zero length is a match of the bullet pattern. */
  lemma BulletPrefixMatches(s: string, p: nat) returns (i: nat)
    requires p <= |s| && BulletPrefixLen(s, p) > 0
    ensures BulletParts(s, p, i, p + BulletPrefixLen(s, p))
  {
    i := p + SpaceRun(s, p);
  }

  /** Every match of the bullet pattern at `p` is found, and the length is
      the longest one. */
  lemma BulletPrefixLongest(s: string, p: nat, i: nat, e: nat)
    requires BulletParts(s, p, i, e)
    ensures BulletPrefixLen(s, p) > 0 && e <= p + BulletPrefixLen(s, p)
    ensures e == |s| || !IsWhitespace(s[e]) ==> p + BulletPrefixLen(s, p) == e
  {
    assert !IsWhitespace(s[i]);
    SpaceRunCovers(s, p, i);
    SpaceRunCovers(s, i + 1, e);
  }

  /** Where `^` matches in a multiline regular expression. */
  predicate LineStart(s: string, p: nat) {
    p == 0 || (p <= |s| && IsLineTerminator(s[p - 1]))
  }

  /** `/^\s*\d+[.)]\s+/m.test(s[p..])` with `^` read against all of `s`: some
      line start at or after `p` opens a numbered prefix. */
  predicate LooksNumbered(s: string, p: nat := 0)
    decreases |s| - p
  {
    p <= |s| && ((LineStart(s, p) && NumberedPrefixLen(s, p) > 0) || LooksNumbered(s, p + 1))
  }

  /** `/^\s*[-•]\s+/m.test(s)`, read the same way. */
  predicate LooksBulleted(s: string, p: nat := 0)
    decreases |s| - p
  {
    p <= |s| && ((LineStart(s, p) && BulletPrefixLen(s, p) > 0) || LooksBulleted(s, p + 1))
  }

  predicate IsListLike(raw: string) {
    '\n' in raw || LooksNumbered(raw) || LooksBulleted(raw)
  }

  /** One line of a list with one `N.`/`N)` prefix and then one `-`/`•`
      prefix removed: a suffix of the line. */
  function StripMarkers(line: string): (b: string)
    ensures |b| <= |line| && b == line[|line| - |b|..]
  {
    DropBullet(DropNumbered(line))
  }

  /** `line.replace(/^\s*\d+[.)]\s+/, "")`. */
  function DropNumbered(line: string): (a: string)
    ensures |a| <= |line| && a == line[|line| - |a|..]
  {
    line[NumberedPrefixLen(line, 0)..]
  }

  /** `line.replace(/^\s*[-•]\s+/, "")`. */
  function DropBullet(line: string): (a: string)
    ensures |a| <= |line| && a == line[|line| - |a|..]
  {
    line[BulletPrefixLen(line, 0)..]
  }

  /** One line of a list: the markers removed and the rest trimmed. */
  function CleanLine(line: string): (r: string)
    ensures IsTrimmed(r)
  {
    var b := StripMarkers(line);
    TrimIsTrimmed(b);
    Trim(b)
  }

  /** Trimming keeps a last character that is not whitespace. */
  lemma TrimKeepsLast(b: string)
    requires b != [] && !IsWhitespace(b[|b| - 1])
    ensures Trim(b) != [] && Trim(b)[|Trim(b)| - 1] == b[|b| - 1]
  {
    var t := TrimStart(b);
    assert t != [] && t[|t| - 1] == b[|b| - 1];
    assert TrimEnd(t) == t;
  }

  /** The markers end in whitespace, so stripping them keeps a last character
      that is not whitespace. */
  lemma StripKeepsLast(line: string)
    requires line != [] && !IsWhitespace(line[|line| - 1])
    ensures StripMarkers(line) != [] && StripMarkers(line)[|StripMarkers(line)| - 1] == line[|line| - 1]
  {
    var n := NumberedPrefixLen(line, 0);
    assert n < |line|;
    var a := line[n..];
    assert a[|a| - 1] == line[|line| - 1];
    var m := BulletPrefixLen(a, 0);
    assert m < |a|;
  }

  /** A line ending in anything but whitespace keeps its last character. */
  lemma CleanLineKeepsLast(line: string)
    requires line != [] && !IsWhitespace(line[|line| - 1])
    ensures CleanLine(line) != [] && CleanLine(line)[|CleanLine(line)| - 1] == line[|line| - 1]
  {
    StripKeepsLast(line);
    TrimKeepsLast(StripMarkers(line));
  }

  /** A numbered prefix that ends at `e` (greedily: no whitespace at `e`)
      is what goes. */
  lemma {:induction false} NumberedGoes(line: string, i: nat, j: nat, e: nat)
    requires NumberedParts(line, 0, i, j, e)
    requires e == |line| || !IsWhitespace(line[e])
    ensures DropNumbered(line) == line[e..]
  {
    NumberedPrefixLongest(line, 0, i, j, e);
  }

  /** A bullet prefix that starts at `e`, has its bullet at `b` and ends at
      `f` is what goes from the rest of the line. */
  lemma {:induction false} BulletGoes(line: string, e: nat, b: nat, f: nat)
    requires BulletParts(line, e, b, f)
    requires f == |line| || !IsWhitespace(line[f])
    ensures DropBullet(line[e..]) == line[f..]
  {
    var a := line[e..];
    assert BulletParts(a, 0, b - e, f - e) by {
      forall k | 0 <= k < b - e ensures IsWhitespace(a[k]) {
        assert a[k] == line[e + k];
      }
      forall k | b - e + 1 <= k < f - e ensures IsWhitespace(a[k]) {
        assert a[k] == line[e + k];
      }
    }
    assert f - e < |a| ==> a[f - e] == line[f];
    BulletPrefixLongest(a, 0, b - e, f - e);
    assert a[f - e..] == line[f..];
  }

  /** A line that opens with neither whitespace nor a bullet keeps what
      `DropBullet` would remove. */
  lemma NoBulletStays(a: string)
    requires a == [] || (!IsWhitespace(a[0]) && a[0] != '-' && a[0] != '\U{2022}')
    ensures DropBullet(a) == a
  {
    assert a[0..] == a;
  }

  /** A line opening with a numbered prefix that ends at `e`, and no bullet
      after it: only the number goes. */
  lemma {:induction false} StripNumbered(line: string, i: nat, j: nat, e: nat)
    requires NumberedParts(line, 0, i, j, e)
    requires e == |line| || (!IsWhitespace(line[e]) && line[e] != '-' && line[e] != '\U{2022}')
    ensures StripMarkers(line) == line[e..]
    ensures CleanLine(line) == Trim(line[e..])
  {
    NumberedGoes(line, i, j, e);
    var a := line[e..];
    assert a != [] ==> a[0] == line[e];
    NoBulletStays(a);
  }

  /** A numbered prefix directly followed by a bullet prefix: both go. */
  lemma {:induction false} StripNumberedBulleted(line: string, i: nat, j: nat, e: nat, f: nat)
    requires NumberedParts(line, 0, i, j, e) && BulletParts(line, e, e, f)
    requires f == |line| || !IsWhitespace(line[f])
    ensures StripMarkers(line) == line[f..]
    ensures CleanLine(line) == Trim(line[f..])
  {
    NumberedGoes(line, i, j, e);
    BulletGoes(line, e, e, f);
  }

  /** A line opening with a bullet prefix only: the bullet goes. */
  lemma {:induction false} StripBulleted(line: string, b: nat, f: nat)
    requires BulletParts(line, 0, b, f)
    requires f == |line| || !IsWhitespace(line[f])
    ensures StripMarkers(line) == line[f..]
    ensures CleanLine(line) == Trim(line[f..])
  {
    assert !IsWhitespace(line[b]) && !IsDigit(line[b]);
    SpaceRunCovers(line, 0, b);
    assert NumberedPrefixLen(line, 0) == 0;
    assert DropNumbered(line) == line[0..] == line;
    BulletGoes(line, 0, b, f);
  }

  /** A line opening with neither marker, nor with whitespace, is kept
      whole. */
  lemma {:induction false} StripUnmarked(line: string)
    requires line == [] || (!IsWhitespace(line[0]) && !IsDigit(line[0]) && line[0] != '-' && line[0] != '\U{2022}')
    ensures StripMarkers(line) == line
    ensures CleanLine(line) == Trim(line)
  {
    assert DropNumbered(line) == line[0..] == line;
    NoBulletStays(line);
  }

  /** `.filter(Boolean)`: the non-empty strings, in order. */
  function NonEmpty(xs: seq<string>): (r: seq<string>)
    ensures |r| <= |xs|
    ensures forall k :: 0 <= k < |r| ==> r[k] != "" && r[k] in xs
    ensures forall k :: 0 <= k < |xs| && xs[k] != "" ==> xs[k] in r
  {
    if xs == [] then []
    else if xs[0] == "" then NonEmpty(xs[1..])
    else [xs[0]] + NonEmpty(xs[1..])
  }

  /** Filtering distributes over concatenation, and keeps a single string
      exactly when it is not empty: order and repeats are kept. */
  lemma {:induction false} NonEmptyAppend(a: seq<string>, b: seq<string>)
    ensures forall x :: NonEmpty([x]) == if x != "" then [x] else []
    ensures NonEmpty(a + b) == NonEmpty(a) + NonEmpty(b)
    decreases |a|
  {
    forall x ensures NonEmpty([x]) == if x != "" then [x] else [] {
      assert [x][1..] == [];
    }
    if a == [] {
      assert a + b == b;
    } else {
      assert (a + b)[1..] == a[1..] + b;
      NonEmptyAppend(a[1..], b);
    }
  }

  /** Nothing is dropped from strings that are all non-empty. */
  lemma {:induction false} NonEmptyKeepsAll(xs: seq<string>)
    requires forall k :: 0 <= k < |xs| ==> xs[k] != ""
    ensures NonEmpty(xs) == xs
    decreases |xs|
  {
    if xs != [] {
      NonEmptyKeepsAll(xs[1..]);
    }
  }

  function CleanLines(lines: seq<string>): (r: seq<string>)
    ensures |r| == |lines| && forall k :: 0 <= k < |r| ==> r[k] == CleanLine(lines[k])
  {
    seq(|lines|, k requires 0 <= k < |lines| => CleanLine(lines[k]))
  }

  /** One piece of a `;`-separated caption, trimmed. */
  function TrimPiece(p: string): (r: string)
    ensures IsTrimmed(r)
  {
    TrimIsTrimmed(p);
    Trim(p)
  }

  function TrimAll(pieces: seq<string>): (r: seq<string>)
    ensures |r| == |pieces| && forall k :: 0 <= k < |r| ==> r[k] == TrimPiece(pieces[k])
  {
    seq(|pieces|, k requires 0 <= k < |pieces| => TrimPiece(pieces[k]))
  }

  /** `splitMaybeList` on the trimmed input `raw`: every item is non-empty
      and trimmed. */
  function SplitRaw(raw: string): (r: seq<string>)
    requires IsTrimmed(raw)
    ensures forall k :: 0 <= k < |r| ==> r[k] != "" && IsTrimmed(r[k])
    ensures raw == "" ==> r == []
  {
    if raw == "" then []
    else if IsListLike(raw) then NonEmpty(CleanLines(SplitLineBreaks(raw)))
    else if Count(raw, ';') >= 2 then NonEmpty(TrimAll(Split(raw, ';')))
    else [raw]
  }

  /** `splitMaybeList(s)`: every item is non-empty and trimmed, and blank
      input gives no item. */
  function SplitMaybeList(s: string): (r: seq<string>)
    ensures forall k :: 0 <= k < |r| ==> r[k] != "" && IsTrimmed(r[k])
    ensures AllWhitespace(s) ==> r == []
  {
    TrimIsTrimmed(s);
    SplitRaw(Trim(s))
  }

  /** The last piece of `r` ends with `c`. */
  predicate LastPieceEndsWith(r: seq<string>, c: char) {
    r != [] && r[|r| - 1] != [] && r[|r| - 1][|r[|r| - 1]| - 1] == c
  }

  /** The last piece of the line split ends with the last character of the
      input, when that is not a line break. */
  lemma {:induction false} LastLineEnds(s: string)
    requires s != [] && s[|s| - 1] != '\n'
    ensures LastPieceEndsWith(SplitLineBreaks(s), s[|s| - 1])
    decreases |s|
  {
    var c := s[|s| - 1];
    var n := BreakLen(s);
    if n > 0 {
      BreakBeforeEnd(s);
      var t := s[n..];
      assert t[|t| - 1] == c;
      LastLineEnds(t);
      var rest := SplitLineBreaks(t);
      assert SplitLineBreaks(s) == [""] + rest;
      assert ([""] + rest)[|rest|] == rest[|rest| - 1];
    } else if |s| > 1 {
      var t := s[1..];
      assert t[|t| - 1] == c;
      LastLineEnds(t);
      var rest := SplitLineBreaks(t);
      assert SplitLineBreaks(s) == [[s[0]] + rest[0]] + rest[1..];
      LastPieceOfJoin(s[0], rest, c);
    } else {
      assert s[1..] == [];
      var rest := SplitLineBreaks(s[1..]);
      assert rest == [""];
      assert [s[0]] + rest[0] == [s[0]];
      assert SplitLineBreaks(s) == [[s[0]]];
    }
  }

  lemma LastPieceOfJoin(h: char, rest: seq<string>, c: char)
    requires LastPieceEndsWith(rest, c)
    ensures LastPieceEndsWith([[h] + rest[0]] + rest[1..], c)
  {
    var r := [[h] + rest[0]] + rest[1..];
    if |rest| == 1 {
      assert r == [[h] + rest[0]];
    } else {
      assert r[|r| - 1] == rest[|rest| - 1];
    }
  }

  /** A line-break run that matches at the start stops before a last character
      that is not a line break. */
  lemma BreakBeforeEnd(s: string)
    requires s != [] && s[|s| - 1] != '\n' && BreakLen(s) > 0
    ensures BreakLen(s) < |s|
  {
    if s[0] == '\n' {
      var n := NewlineRun(s, 0);
      assert n != |s| by { assert s[|s| - 1] != '\n'; }
    } else {
      var n := NewlineRun(s, 1);
      assert 1 + n != |s| by { assert s[|s| - 1] != '\n'; }
    }
  }

  /** Input with a character that is neither whitespace nor `;` gives at
      least one item. */
  lemma NotBlankGivesItems(s: string, k: nat)
    requires k < |s| && s[k] != ';' && !IsWhitespace(s[k])
    ensures SplitMaybeList(s) != []
  {
    var j := TrimKeepsInner(s, k);
    TrimIsTrimmed(s);
    RawGivesItems(Trim(s), j);
  }

  lemma RawGivesItems(raw: string, j: nat)
    requires IsTrimmed(raw) && j < |raw| && raw[j] != ';' && !IsWhitespace(raw[j])
    ensures SplitRaw(raw) != []
  {
    if IsListLike(raw) {
      ListLastItem(raw);
    } else if Count(raw, ';') >= 2 {
      SemicolonItem(raw, j);
    }
  }

  lemma ListLastItem(raw: string)
    requires raw != [] && IsTrimmed(raw)
    ensures NonEmpty(CleanLines(SplitLineBreaks(raw))) != []
  {
    LastLineEnds(raw);
    var lines := SplitLineBreaks(raw);
    CleanLineKeepsLast(lines[|lines| - 1]);
    assert CleanLines(lines)[|lines| - 1] != "";
  }

  lemma SemicolonItem(raw: string, j: nat)
    requires j < |raw| && raw[j] != ';' && !IsWhitespace(raw[j])
    ensures NonEmpty(TrimAll(Split(raw, ';'))) != []
  {
    var i := SplitCoversChar(raw, ';', j);
    var pieces := Split(raw, ';');
    TrimNotBlank(pieces[i], raw[j]);
    assert TrimAll(pieces)[i] != "";
  }

  /** A character of `s` that is not whitespace survives trimming. */
  lemma TrimKeepsInner(s: string, k: nat) returns (j: nat)
    requires k < |s| && !IsWhitespace(s[k])
    ensures j < |Trim(s)| && Trim(s)[j] == s[k]
  {
    j := TrimStartKeeps(s, k);
    TrimEndKeeps(TrimStart(s), j);
  }

  lemma {:induction false} TrimStartKeeps(s: string, k: nat) returns (j: nat)
    requires k < |s| && !IsWhitespace(s[k])
    ensures j < |TrimStart(s)| && TrimStart(s)[j] == s[k]
  {
    if IsWhitespace(s[0]) {
      assert s[1..][k - 1] == s[k];
      j := TrimStartKeeps(s[1..], k - 1);
    } else {
      j := k;
    }
  }

  lemma TrimEndKeeps(t: string, j: nat)
    requires j < |t| && !IsWhitespace(t[j])
    ensures j < |TrimEnd(t)| && TrimEnd(t)[j] == t[j]
  {
  }

  /** A string with a character that is not whitespace does not trim to empty. */
  lemma TrimNotBlank(s: string, c: char)
    requires c in s && !IsWhitespace(c)
    ensures Trim(s) != ""
  {
    TrimIsTrimmed(s);
  }

  /** Every character of `s` other than the separator lies in some piece. */
  lemma {:induction false} SplitCoversChar(s: string, sep: char, j: nat) returns (i: nat)
    requires j < |s| && s[j] != sep
    ensures i < |Split(s, sep)| && s[j] in Split(s, sep)[i]
  {
    var rest := Split(s[1..], sep);
    if j == 0 {
      i := 0;
      assert s[0] in Split(s, sep)[0];
    } else {
      var i' := SplitCoversChar(s[1..], sep, j - 1);
      if s[0] == sep {
        i := i' + 1;
        assert Split(s, sep)[i] == rest[i'];
      } else if i' == 0 {
        i := 0;
        assert Split(s, sep)[0] == [s[0]] + rest[0];
      } else {
        i := i';
        assert Split(s, sep)[i] == rest[i'];
      }
    }
  }

  /** No cleaned line holds a line break. */
  lemma ListPieces(raw: string)
    ensures forall k :: 0 <= k < |CleanLines(SplitLineBreaks(raw))| ==> '\n' !in CleanLines(SplitLineBreaks(raw))[k]
  {
    var lines := SplitLineBreaks(raw);
    forall k | 0 <= k < |lines| ensures '\n' !in CleanLine(lines[k]) {
      NoCharAfterClean(lines[k], '\n');
    }
  }

  /** List-like input: the items are the cleaned lines that are not empty. */
  lemma ListBranch(s: string)
    requires !AllWhitespace(s) && IsListLike(Trim(s))
    ensures SplitMaybeList(s) == NonEmpty(CleanLines(SplitLineBreaks(Trim(s))))
    ensures forall k :: 0 <= k < |SplitMaybeList(s)| ==> '\n' !in SplitMaybeList(s)[k]
  {
    TrimIsTrimmed(s);
    ListPieces(Trim(s));
  }

  /** The last character of a join is the last character of its last
      piece. */
  lemma {:induction false} JoinLast(lines: seq<string>, sep: char)
    requires |lines| >= 1 && lines[|lines| - 1] != []
    ensures Join(lines, sep) != []
    ensures Join(lines, sep)[|Join(lines, sep)| - 1] == lines[|lines| - 1][|lines[|lines| - 1]| - 1]
    decreases |lines|
  {
    if |lines| > 1 {
      JoinLast(lines[1..], sep);
    }
  }

  /** A list written one item per line comes back item by item: if the lines
      are joinable, the whole text is trimmed and each line cleans to its
      item, `splitMaybeList` of the `\n`-join gives exactly the items. */
  lemma {:induction false} ListRoundTrip(lines: seq<string>, items: seq<string>)
    requires ListLines(lines)
    requires CleanLines(lines) == items && forall k :: 0 <= k < |items| ==> items[k] != ""
    ensures SplitMaybeList(Join(lines, '\n')) == items
  {
    JoinedLinesTrimmed(lines);
    ListBranch(Join(lines, '\n'));
    SplitJoinLines(lines);
    NonEmptyKeepsAll(items);
  }

  /** Lines that each clean to their item. */
  lemma {:induction false} CleanLinesAre(lines: seq<string>, items: seq<string>)
    requires |lines| == |items|
    requires forall k :: 0 <= k < |items| ==> CleanLine(lines[k]) == items[k]
    ensures CleanLines(lines) == items
  {
  }

  /** Two or more joinable lines, the first opening and the last closing
      with something other than whitespace. */
  predicate ListLines(lines: seq<string>) {
    && |lines| >= 2 && JoinableLines(lines)
    && lines[0] != [] && !IsWhitespace(lines[0][0])
    && lines[|lines| - 1] != [] && !IsWhitespace(lines[|lines| - 1][|lines[|lines| - 1]| - 1])
  }

  /** The `\n`-join of two or more lines that open and close with something
      other than whitespace is trimmed, not blank and list-like. */
  lemma {:induction false} JoinedLinesTrimmed(lines: seq<string>)
    requires |lines| >= 2
    requires lines[0] != [] && !IsWhitespace(lines[0][0])
    requires lines[|lines| - 1] != [] && !IsWhitespace(lines[|lines| - 1][|lines[|lines| - 1]| - 1])
    ensures IsTrimmed(Join(lines, '\n')) && Trim(Join(lines, '\n')) == Join(lines, '\n')
    ensures !AllWhitespace(Join(lines, '\n')) && IsListLike(Join(lines, '\n'))
  {
    var s := Join(lines, '\n');
    JoinHead(lines, '\n');
    JoinLast(lines, '\n');
    TrimmedFixpoint(s);
    assert s == lines[0] + ['\n'] + Join(lines[1..], '\n');
    assert s[|lines[0]|] == '\n';
  }

  /** Trimmed lines that open with no marker come back unchanged. */
  lemma {:induction false} PlainListRoundTrip(items: seq<string>)
    requires |items| >= 2
    requires forall k :: 0 <= k < |items| ==> items[k] != "" && IsTrimmed(items[k]) && '\n' !in items[k]
    requires forall k :: 0 <= k < |items| ==> !IsDigit(items[k][0]) && items[k][0] != '-' && items[k][0] != '\U{2022}'
    ensures SplitMaybeList(Join(items, '\n')) == items
  {
    PlainCleans(items);
    ListRoundTrip(items, items);
  }

  lemma {:induction false} PlainCleans(items: seq<string>)
    requires forall k :: 0 <= k < |items| ==> items[k] != "" && IsTrimmed(items[k])
    requires forall k :: 0 <= k < |items| ==> !IsDigit(items[k][0]) && items[k][0] != '-' && items[k][0] != '\U{2022}'
    ensures CleanLines(items) == items
  {
    forall k | 0 <= k < |items| ensures CleanLine(items[k]) == items[k] {
      StripUnmarked(items[k]);
      TrimmedFixpoint(items[k]);
    }
    CleanLinesAre(items, items);
  }

  /** `- item` lines give back the items without their bullets. */
  lemma {:induction false} BulletedListRoundTrip(items: seq<string>)
    requires |items| >= 2
    requires forall k :: 0 <= k < |items| ==> items[k] != "" && IsTrimmed(items[k]) && '\n' !in items[k]
    ensures SplitMaybeList(Join(Bulleted(items), '\n')) == items
  {
    var lines := Bulleted(items);
    BulletedJoinable(items);
    BulletedCleans(items);
    ListRoundTrip(lines, items);
  }

  /** `- item` lines are joinable and open and close with something other
      than whitespace. */
  lemma {:induction false} BulletedJoinable(items: seq<string>)
    requires |items| >= 2
    requires forall k :: 0 <= k < |items| ==> items[k] != "" && IsTrimmed(items[k]) && '\n' !in items[k]
    ensures ListLines(Bulleted(items))
  {
    var lines := Bulleted(items);
    forall k | 0 <= k < |items|
      ensures '\n' !in lines[k] && lines[k][|lines[k]| - 1] == items[k][|items[k]| - 1]
    {
      BulletedLineShape(items[k]);
    }
  }

  /** `- item` lines clean to their items. */
  lemma {:induction false} BulletedCleans(items: seq<string>)
    requires forall k :: 0 <= k < |items| ==> items[k] != "" && IsTrimmed(items[k])
    ensures CleanLines(Bulleted(items)) == items
  {
    var lines := Bulleted(items);
    forall k | 0 <= k < |items| ensures CleanLine(lines[k]) == items[k] {
      BulletedLineCleans(items[k]);
    }
    CleanLinesAre(lines, items);
  }

  /** One `- item` line adds no line break and ends where the item ends. */
  lemma {:induction false} BulletedLineShape(item: string)
    requires item != "" && '\n' !in item
    ensures '\n' !in "- " + item
    ensures ("- " + item)[|"- " + item| - 1] == item[|item| - 1]
  {
    var l := "- " + item;
    forall k | 0 <= k < |l| ensures l[k] != '\n' {
      if k >= 2 {
        assert l[k] == item[k - 2];
      }
    }
  }

  /** One `- item` line cleans back to the item. */
  lemma {:induction false} BulletedLineCleans(item: string)
    requires item != "" && IsTrimmed(item)
    ensures CleanLine("- " + item) == item
  {
    var l := "- " + item;
    assert l[2..] == item;
    assert BulletParts(l, 0, 0, 2);
    StripBulleted(l, 0, 2);
    TrimmedFixpoint(item);
  }

  /** Each item with `- ` put in front. */
  function Bulleted(items: seq<string>): (r: seq<string>)
    ensures |r| == |items| && forall k :: 0 <= k < |r| ==> r[k] == "- " + items[k]
  {
    seq(|items|, k requires 0 <= k < |items| => "- " + items[k])
  }

  /** No piece of the split holds the separator, nor does it once trimmed. */
  lemma SemicolonPieces(raw: string)
    ensures forall k :: 0 <= k < |TrimAll(Split(raw, ';'))| ==> ';' !in TrimAll(Split(raw, ';'))[k]
  {
    var pieces := Split(raw, ';');
    forall k | 0 <= k < |pieces| ensures ';' !in Trim(pieces[k]) {
      NoCharAfterTrim(pieces[k], ';');
    }
  }

  /** Semicolon-separated input: with two or more `;` and no list marker, the
      items are the trimmed non-empty pieces between them. */
  lemma SemicolonBranch(s: string)
    requires !AllWhitespace(s) && !IsListLike(Trim(s)) && Count(Trim(s), ';') >= 2
    ensures SplitMaybeList(s) == NonEmpty(TrimAll(Split(Trim(s), ';')))
    ensures forall k :: 0 <= k < |SplitMaybeList(s)| ==> ';' !in SplitMaybeList(s)[k]
  {
    TrimIsTrimmed(s);
    SemicolonPieces(Trim(s));
  }

  /** Anything else is one item: the trimmed input. */
  lemma SingleBranch(s: string)
    requires !AllWhitespace(s) && !IsListLike(Trim(s)) && Count(Trim(s), ';') < 2
    ensures SplitMaybeList(s) == [Trim(s)]
  {
    TrimIsTrimmed(s);
  }

  lemma NoCharAfterTrim(s: string, c: char)
    requires c !in s
    ensures c !in Trim(s)
  {
    var t := TrimStart(s);
    var d := |s| - |t|;
    var r := TrimEnd(t);
    forall k | 0 <= k < |r| ensures r[k] != c {
      assert r[k] == t[k] == s[d + k];
    }
  }

  lemma NoCharAfterClean(line: string, c: char)
    requires c !in line
    ensures c !in CleanLine(line)
  {
    var b := StripMarkers(line);
    assert c !in b by {
      assert forall k :: 0 <= k < |b| ==> b[k] == line[|line| - |b| + k];
    }
    NoCharAfterTrim(b, c);
  }

  /** A caption as the captions endpoint may return it: a bare string or an
      object with optional `content`, `caption` and `text` fields. */
  datatype ApiCaption = Text(s: string) | Fields(content: Option<string>, caption: Option<string>, text: Option<string>)

  /** An optional string that is present and not empty: what `||` keeps. */
  predicate Filled(a: Option<string>) {
    a.Some? && a.value != ""
  }

  /** `a || b` on an optional string: `a` when it is present and not empty. */
  function OrElse(a: Option<string>, b: string): string {
    if a.Some? && a.value != "" then a.value else b
  }

  /** The text of one caption item: an object uses `content`, else `caption`,
      else `text`, else `""`, skipping empty fields. */
  function ItemText(it: ApiCaption): (t: string)
    ensures it.Text? ==> t == it.s
    ensures it.Fields? && t != "" ==> Some(t) in {it.content, it.caption, it.text}
    ensures it.Fields? && Filled(it.content) ==> t == it.content.value
    ensures it.Fields? && !Filled(it.content) && Filled(it.caption) ==> t == it.caption.value
    ensures it.Fields? && !Filled(it.content) && !Filled(it.caption) && Filled(it.text) ==> t == it.text.value
    ensures it.Fields? ==> (t == "" <==> !Filled(it.content) && !Filled(it.caption) && !Filled(it.text))
  {
    match it
    case Text(s) => s
    case Fields(content, caption, text) => OrElse(content, OrElse(caption, OrElse(text, "")))
  }

  /** The items one caption item contributes. */
  function CaptionItems(it: ApiCaption): (r: seq<string>)
    ensures forall k :: 0 <= k < |r| ==> r[k] != "" && IsTrimmed(r[k])
  {
    SplitMaybeList(ItemText(it))
  }

  /** `f` applied to each element, the results concatenated in order. */
  function FlatMap<T>(f: T -> seq<string>, arr: seq<T>): seq<string> {
    if arr == [] then [] else FlatMap(f, arr[..|arr| - 1]) + f(arr[|arr| - 1])
  }

  lemma FlatMapStep<T>(f: T -> seq<string>, arr: seq<T>, i: nat)
    requires i < |arr|
    ensures FlatMap(f, arr[..i + 1]) == FlatMap(f, arr[..i]) + f(arr[i])
  {
    assert arr[..i + 1][..i] == arr[..i];
  }

  /** The items of `normalizeCaptions(arr)`: the splits of the items' texts,
      concatenated in input order. */
  function NormalizeAll(arr: seq<ApiCaption>): seq<string> {
    FlatMap(CaptionItems, arr)
  }

  /** `normalizeCaptions(arr)`. */
  method NormalizeCaptions(arr: seq<ApiCaption>) returns (out: seq<string>)
    ensures out == NormalizeAll(arr)
    ensures forall k :: 0 <= k < |out| ==> out[k] != "" && IsTrimmed(out[k])
  {
    out := [];
    for i := 0 to |arr|
      invariant out == FlatMap(CaptionItems, arr[..i])
      invariant forall k :: 0 <= k < |out| ==> out[k] != "" && IsTrimmed(out[k])
    {
      var items := CaptionItems(arr[i]);
      FlatMapStep(CaptionItems, arr, i);
      out := out + items;
    }
    assert arr[..|arr|] == arr;
  }

  /** Mapping a concatenation concatenates the results. */
  lemma {:induction false} FlatMapAppend<T>(f: T -> seq<string>, a: seq<T>, b: seq<T>)
    ensures FlatMap(f, a + b) == FlatMap(f, a) + FlatMap(f, b)
    decreases |b|
  {
    if b == [] {
      assert a + b == a;
    } else {
      var b' := b[..|b| - 1];
      assert (a + b)[..|a + b| - 1] == a + b';
      assert (a + b)[|a + b| - 1] == b[|b| - 1];
      FlatMapAppend(f, a, b');
    }
  }

  /** Normalising a concatenation concatenates the normalisations, so each
      caption item contributes its own split, in order. */
  lemma NormalizeAllAppend(a: seq<ApiCaption>, b: seq<ApiCaption>)
    ensures NormalizeAll(a + b) == NormalizeAll(a) + NormalizeAll(b)
  {
    FlatMapAppend(CaptionItems, a, b);
  }

  /** The caption list of the step-4 response: the response itself when it
      is an array, else its `captions` field, else nothing. */
  datatype Step4Response = CaptionArray(items: seq<ApiCaption>) | CaptionObject(captions: Option<seq<ApiCaption>>)

  function Step4Items(resp: Step4Response): seq<ApiCaption> {
    match resp
    case CaptionArray(items) => items
    case CaptionObject(captions) => if captions.Some? then captions.value else []
  }
}
