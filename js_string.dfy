/** The few JavaScript string built-ins the core relies on, stated over `seq<char>`:
    the `\s` class and `trim` (ECMAScript WhiteSpace and LineTerminator code
    points), `toLowerCase` restricted to ASCII letters, `split` on a one-character
    separator, `startsWith` and `endsWith`. */
module JsString {

  /** The code points that the regular-expression class `\s` matches and that
      `String.prototype.trim` removes. */
  predicate IsWhitespace(c: char) {
    || c == '\t' || c == '\n' || c == '\U{000B}' || c == '\U{000C}' || c == '\r'
    || c == ' ' || c == '\U{00A0}' || c == '\U{1680}'
    || ('\U{2000}' <= c <= '\U{200A}')
    || c == '\U{2028}' || c == '\U{2029}' || c == '\U{202F}' || c == '\U{205F}'
    || c == '\U{3000}' || c == '\U{FEFF}'
  }

  /** The code points after which `^` matches in a multiline regular expression. */
  predicate IsLineTerminator(c: char) {
    c == '\n' || c == '\r' || c == '\U{2028}' || c == '\U{2029}'
  }

  /** The class `\d`. */
  predicate IsDigit(c: char) {
    '0' <= c <= '9'
  }

  /** Length of the run of whitespace in `s` that starts at index `from`. */
  function SpaceRun(s: string, from: nat): (n: nat)
    requires from <= |s|
    ensures from + n <= |s|
    ensures forall k :: from <= k < from + n ==> IsWhitespace(s[k])
    ensures from + n == |s| || !IsWhitespace(s[from + n])
    decreases |s| - from
  {
    if from < |s| && IsWhitespace(s[from]) then 1 + SpaceRun(s, from + 1) else 0
  }

  /** A whitespace run covers every stretch of whitespace that starts where
      it starts, and ends where such a stretch is followed by a character
      that is not whitespace. */
  lemma {:induction false} SpaceRunCovers(s: string, from: nat, e: nat)
    requires from <= e <= |s|
    requires forall k :: from <= k < e ==> IsWhitespace(s[k])
    ensures SpaceRun(s, from) >= e - from
    ensures e == |s| || !IsWhitespace(s[e]) ==> SpaceRun(s, from) == e - from
    decreases e - from
  {
    if from < e {
      SpaceRunCovers(s, from + 1, e);
    }
  }

  /** Length of the run of decimal digits in `s` that starts at index `from`. */
  function DigitRun(s: string, from: nat): (n: nat)
    requires from <= |s|
    ensures from + n <= |s|
    ensures forall k :: from <= k < from + n ==> IsDigit(s[k])
    ensures from + n == |s| || !IsDigit(s[from + n])
    decreases |s| - from
  {
    if from < |s| && IsDigit(s[from]) then 1 + DigitRun(s, from + 1) else 0
  }

  /** A digit run covers every stretch of digits that starts where it
      starts, and ends where such a stretch is followed by a non-digit. */
  lemma {:induction false} DigitRunCovers(s: string, from: nat, e: nat)
    requires from <= e <= |s|
    requires forall k :: from <= k < e ==> IsDigit(s[k])
    ensures DigitRun(s, from) >= e - from
    ensures e == |s| || !IsDigit(s[e]) ==> DigitRun(s, from) == e - from
    decreases e - from
  {
    if from < e {
      DigitRunCovers(s, from + 1, e);
    }
  }

  predicate AllWhitespace(s: string) {
    forall k :: 0 <= k < |s| ==> IsWhitespace(s[k])
  }

  /** Neither starts nor ends with whitespace: what `trim` returns. */
  predicate IsTrimmed(s: string) {
    s == [] || (!IsWhitespace(s[0]) && !IsWhitespace(s[|s| - 1]))
  }

  /** `trimStart`: a suffix of `s`, reached by dropping whitespace only. */
  function TrimStart(s: string): (r: string)
    ensures |r| <= |s| && r == s[|s| - |r|..]
    ensures AllWhitespace(s[..|s| - |r|])
    ensures r == [] || !IsWhitespace(r[0])
  {
    if s != [] && IsWhitespace(s[0]) then TrimStart(s[1..]) else s
  }

  /** `trimEnd`: a prefix of `s`, reached by dropping whitespace only. */
  function TrimEnd(s: string): (r: string)
    ensures |r| <= |s| && r == s[..|r|]
    ensures AllWhitespace(s[|r|..])
    ensures r == [] || !IsWhitespace(r[|r| - 1])
  {
    if s != [] && IsWhitespace(s[|s| - 1]) then TrimEnd(s[..|s| - 1]) else s
  }

  /** `trim`. */
  function Trim(s: string): string {
    TrimEnd(TrimStart(s))
  }

  /** What `trim` returns has no whitespace at either end, and it is empty
      exactly when the input is blank. */
  lemma TrimIsTrimmed(s: string)
    ensures IsTrimmed(Trim(s))
    ensures |Trim(s)| <= |s|
    ensures Trim(s) == [] <==> AllWhitespace(s)
  {
    var t := TrimStart(s);
    var r := TrimEnd(t);
    if r != [] {
      assert r[0] == t[0];
    }
    if r == [] {
      // a non-empty `t` starts with a non-space, which `TrimEnd` keeps
      assert t == [] by {
        assert t[|r|..] == t;
      }
      assert s[..|s| - |t|] == s;
    } else {
      assert !IsWhitespace(s[|s| - |t|]);
    }
  }

  /** `trimStart` stops inside `x` when `x` ends with a non-space. */
  lemma {:induction false} TrimStartConcat(x: string, z: string)
    requires x != [] && !IsWhitespace(x[|x| - 1])
    ensures TrimStart(x + z) == TrimStart(x) + z
    decreases |x|
  {
    var xz := x + z;
    assert xz[0] == x[0];
    if IsWhitespace(x[0]) {
      assert |x| > 1;
      assert xz[1..] == x[1..] + z;
      assert x[1..][|x[1..]| - 1] == x[|x| - 1];
      TrimStartConcat(x[1..], z);
    }
  }

  /** `trimEnd` stops inside `y` when `y` starts with a non-space. */
  lemma {:induction false} TrimEndConcat(z: string, y: string)
    requires y != [] && !IsWhitespace(y[0])
    ensures TrimEnd(z + y) == z + TrimEnd(y)
    decreases |y|
  {
    var zy := z + y;
    assert zy[|zy| - 1] == y[|y| - 1];
    if IsWhitespace(y[|y| - 1]) {
      assert |y| > 1;
      var y' := y[..|y| - 1];
      assert zy[..|zy| - 1] == z + y';
      assert y'[0] == y[0];
      TrimEndConcat(z, y');
    }
  }

  /** `trim` leaves an already trimmed string alone (so it is idempotent). */
  lemma TrimmedFixpoint(s: string)
    requires IsTrimmed(s)
    ensures Trim(s) == s
  {
  }

  lemma TrimIdempotent(s: string)
    ensures Trim(Trim(s)) == Trim(s)
  {
    TrimIsTrimmed(s);
    TrimmedFixpoint(Trim(s));
  }

  /** A character-by-character map, the shape of `toLowerCase` on ASCII and of a
      `replace` with a one-character class and a one-character replacement. */
  function MapChars(f: char -> char, s: string): (r: string)
    ensures |r| == |s|
    ensures forall k :: 0 <= k < |s| ==> r[k] == f(s[k])
  {
    seq(|s|, k requires 0 <= k < |s| => f(s[k]))
  }

  predicate KeepsWhitespace(f: char -> char) {
    forall c :: IsWhitespace(f(c)) <==> IsWhitespace(c)
  }

  lemma {:induction false} TrimStartMapCommute(f: char -> char, s: string)
    requires KeepsWhitespace(f)
    ensures TrimStart(MapChars(f, s)) == MapChars(f, TrimStart(s))
    decreases |s|
  {
    if s != [] {
      assert MapChars(f, s)[1..] == MapChars(f, s[1..]);
      TrimStartMapCommute(f, s[1..]);
    }
  }

  lemma {:induction false} TrimEndMapCommute(f: char -> char, s: string)
    requires KeepsWhitespace(f)
    ensures TrimEnd(MapChars(f, s)) == MapChars(f, TrimEnd(s))
    decreases |s|
  {
    if s != [] {
      assert MapChars(f, s)[..|s| - 1] == MapChars(f, s[..|s| - 1]);
      TrimEndMapCommute(f, s[..|s| - 1]);
    }
  }

  /** Trimming commutes with any character map that sends whitespace to
      whitespace and nothing else to whitespace. */
  lemma TrimMapCommute(f: char -> char, s: string)
    requires KeepsWhitespace(f)
    ensures Trim(MapChars(f, s)) == MapChars(f, Trim(s))
  {
    TrimStartMapCommute(f, s);
    TrimEndMapCommute(f, TrimStart(s));
  }

  /** `toLowerCase` on one character, for ASCII letters only. */
  function LowerChar(c: char): (r: char)
    ensures 'A' <= c <= 'Z' ==> 'a' <= r <= 'z' && r as int == c as int + 32
    ensures !('A' <= c <= 'Z') ==> r == c
  {
    if 'A' <= c <= 'Z' then (c as int + 32) as char else c
  }

  function Lower(s: string): string {
    MapChars(LowerChar, s)
  }

  lemma LowerKeepsWhitespace()
    ensures KeepsWhitespace(LowerChar)
  {
  }

  lemma ConcatAssoc(a: string, b: string, c: string)
    ensures a + (b + c) == (a + b) + c
  {
  }

  lemma DropOfConcat(x: string, y: string, n: nat)
    requires n <= |x|
    ensures (x + y)[n..] == x[n..] + y
  {
  }

  /** `s.startsWith(p)`. */
  predicate StartsWith(s: string, p: string) {
    |p| <= |s| && s[..|p|] == p
  }

  /** `s.endsWith(p)`. */
  predicate EndsWith(s: string, p: string) {
    |p| <= |s| && s[|s| - |p|..] == p
  }

  /** `s.split(sep)` for a one-character separator. */
  function Split(s: string, sep: char): (r: seq<string>)
    ensures |r| >= 1
    ensures forall k :: 0 <= k < |r| ==> sep !in r[k]
  {
    if s == [] then [""]
    else
      var rest := Split(s[1..], sep);
      if s[0] == sep then [""] + rest else [[s[0]] + rest[0]] + rest[1..]
  }

  /** `pieces.join(sep)`. */
  function Join(pieces: seq<string>, sep: char): string {
    if |pieces| == 0 then ""
    else if |pieces| == 1 then pieces[0]
    else pieces[0] + [sep] + Join(pieces[1..], sep)
  }

  /** Number of occurrences of `c` in `s`. */
  function Count(s: string, c: char): nat {
    if s == [] then 0 else (if s[0] == c then 1 else 0) + Count(s[1..], c)
  }

  /** Splitting loses nothing: joining the pieces back gives the input. */
  lemma {:induction false} JoinSplit(s: string, sep: char)
    ensures Join(Split(s, sep), sep) == s
  {
    if s != [] {
      var rest := Split(s[1..], sep);
      JoinSplit(s[1..], sep);
      if s[0] == sep {
        assert Split(s, sep) == [""] + rest;
        assert ([""] + rest)[1..] == rest;
      } else {
        var r := [[s[0]] + rest[0]] + rest[1..];
        if |rest| == 1 {
          assert Join(rest, sep) == rest[0];
        } else {
          assert Join(rest, sep) == rest[0] + [sep] + Join(rest[1..], sep);
          assert r[1..] == rest[1..];
        }
      }
    }
  }

  /** There is one more piece than there are separators. */
  lemma {:induction false} SplitLength(s: string, sep: char)
    ensures |Split(s, sep)| == Count(s, sep) + 1
  {
    if s != [] {
      SplitLength(s[1..], sep);
    }
  }

  /** The first piece is what precedes the first separator (all of `s` when
      there is none). */
  lemma {:induction false} SplitFirstPiece(s: string, sep: char)
    ensures var p := Split(s, sep)[0];
      && StartsWith(s, p) && sep !in p
      && (sep in s ==> |p| < |s| && s[|p|] == sep)
      && (sep !in s ==> p == s)
  {
    if s != [] {
      SplitFirstPiece(s[1..], sep);
      if s[0] != sep {
        assert s == [s[0]] + s[1..];
      }
    }
  }
}
