/** app/upload/page.tsx: the caption dedupe key, shared by `uniqCaptions`, the
    insert filter of `runPipeline` and `loadHistory`. The key is the trimmed
    caption, lower-cased, with every whitespace run turned into one space,
    curly double quotes and the right single quote straightened, and the
    trailing run of `.`, `!`, `?` removed. */
module CaptionKeys {
  import opened JsString

  /** `s.replace(/\s+/g, " ")`: every maximal whitespace run becomes one space. */
  function Collapse(s: string): (r: string)
    ensures |r| <= |s|
    ensures r == [] <==> s == []
    decreases |s|
  {
    if s == [] then []
    else if IsWhitespace(s[0]) then [' '] + Collapse(s[SpaceRun(s, 0)..])
    else [s[0]] + Collapse(s[1..])
  }

  /** What collapsing leaves: whitespace only as single spaces, never two in
      a row, and a first character that is whitespace exactly when the
      input's is. */
  lemma {:induction false} CollapseShape(s: string)
    ensures Collapse(s) != [] ==> (IsWhitespace(Collapse(s)[0]) <==> IsWhitespace(s[0]))
    ensures forall k :: 0 <= k < |Collapse(s)| && IsWhitespace(Collapse(s)[k]) ==> Collapse(s)[k] == ' '
    ensures forall k :: 0 <= k < |Collapse(s)| - 1 ==> !(IsWhitespace(Collapse(s)[k]) && IsWhitespace(Collapse(s)[k + 1]))
    decreases |s|
  {
    if s != [] {
      var n := if IsWhitespace(s[0]) then SpaceRun(s, 0) else 1;
      var rest := s[n..];
      CollapseShape(rest);
      var c := Collapse(rest);
      var h := if IsWhitespace(s[0]) then ' ' else s[0];
      assert Collapse(s) == [h] + c;
      assert IsWhitespace(s[0]) && c != [] ==> !IsWhitespace(c[0]) by {
        if IsWhitespace(s[0]) && c != [] {
          assert rest[0] == s[n];
        }
      }
    }
  }

  /** `.replace(/[“”]/g, '"').replace(/[’]/g, "'")` on one character. */
  function StraightChar(c: char): char {
    if c == '\U{201C}' || c == '\U{201D}' then '"' else if c == '\U{2019}' then '\'' else c
  }

  function Straighten(s: string): string {
    MapChars(StraightChar, s)
  }

  predicate IsEndPunct(c: char) {
    c == '.' || c == '!' || c == '?'
  }

  /** `s.replace(/[.!?]+$/g, "")`: the trailing run of `.`, `!`, `?` removed. */
  function DropEndPunct(s: string): (r: string)
    ensures |r| <= |s| && r == s[..|r|]
    ensures r == [] || !IsEndPunct(r[|r| - 1])
    ensures forall k :: |r| <= k < |s| ==> IsEndPunct(s[k])
  {
    if s != [] && IsEndPunct(s[|s| - 1]) then DropEndPunct(s[..|s| - 1]) else s
  }

  /** The key of an already trimmed caption. */
  function NormalizeKey(s: string): string {
    DropEndPunct(Straighten(Collapse(Lower(s))))
  }

  /** The key of a caption as the page computes it, trimming first. */
  function CaptionKey(c: string): string {
    NormalizeKey(Trim(c))
  }

  lemma {:induction false} SpaceRunMap(f: char -> char, s: string, from: nat)
    requires KeepsWhitespace(f) && from <= |s|
    ensures SpaceRun(MapChars(f, s), from) == SpaceRun(s, from)
    decreases |s| - from
  {
    if from < |s| {
      SpaceRunMap(f, s, from + 1);
    }
  }

  /** Collapsing runs commutes with a character map that keeps whitespace
      whitespace and the space a space (lower-casing, straightening quotes). */
  lemma {:induction false} CollapseMapCommute(f: char -> char, s: string)
    requires KeepsWhitespace(f) && f(' ') == ' '
    ensures Collapse(MapChars(f, s)) == MapChars(f, Collapse(s))
    decreases |s|
  {
    if s != [] {
      var n := if IsWhitespace(s[0]) then SpaceRun(s, 0) else 1;
      CollapseMapCommute(f, s[n..]);
      if IsWhitespace(s[0]) {
        CollapseMapSpace(f, s);
      } else {
        CollapseMapChar(f, s);
      }
    }
  }

  /** One step of `CollapseMapCommute` for `s` starting with a whitespace
      run. */
  lemma {:induction false} CollapseMapSpace(f: char -> char, s: string)
    requires KeepsWhitespace(f) && f(' ') == ' '
    requires s != [] && IsWhitespace(s[0])
    requires Collapse(MapChars(f, s[SpaceRun(s, 0)..])) == MapChars(f, Collapse(s[SpaceRun(s, 0)..]))
    ensures Collapse(MapChars(f, s)) == MapChars(f, Collapse(s))
  {
    var m := MapChars(f, s);
    SpaceRunMap(f, s, 0);
    var n := SpaceRun(s, 0);
    assert IsWhitespace(m[0]);
    assert m[n..] == MapChars(f, s[n..]);
    var rest := Collapse(s[n..]);
    assert MapChars(f, [' '] + rest) == [' '] + MapChars(f, rest);
  }

  /** One step of `CollapseMapCommute` for `s` starting with a non-space. */
  lemma {:induction false} CollapseMapChar(f: char -> char, s: string)
    requires KeepsWhitespace(f)
    requires s != [] && !IsWhitespace(s[0])
    requires Collapse(MapChars(f, s[1..])) == MapChars(f, Collapse(s[1..]))
    ensures Collapse(MapChars(f, s)) == MapChars(f, Collapse(s))
  {
    var m := MapChars(f, s);
    assert !IsWhitespace(m[0]);
    assert m[1..] == MapChars(f, s[1..]);
    var rest := Collapse(s[1..]);
    assert MapChars(f, [s[0]] + rest) == [f(s[0])] + MapChars(f, rest);
  }

  /** A string without whitespace is its own collapse. */
  lemma {:induction false} CollapseNoSpace(p: string)
    requires forall k :: 0 <= k < |p| ==> !IsWhitespace(p[k])
    ensures Collapse(p) == p
  {
    if p != [] {
      CollapseNoSpace(p[1..]);
    }
  }

  /** A whitespace run that starts inside `x` ends inside `x` when `x` ends
      with a non-space. */
  lemma {:induction false} SpaceRunConcat(x: string, y: string, from: nat)
    requires from < |x| && !IsWhitespace(x[|x| - 1])
    ensures SpaceRun(x + y, from) == SpaceRun(x, from) && from + SpaceRun(x, from) < |x|
    decreases |x| - from
  {
    assert (x + y)[from] == x[from];
    if IsWhitespace(x[from]) {
      SpaceRunConcat(x, y, from + 1);
    }
  }

  /** One step of `CollapseConcat` for `x` starting with a whitespace run. */
  lemma CollapseConcatSpace(x: string, y: string)
    requires x != [] && IsWhitespace(x[0]) && !IsWhitespace(x[|x| - 1])
    requires Collapse(x[SpaceRun(x, 0)..] + y) == Collapse(x[SpaceRun(x, 0)..]) + Collapse(y)
    ensures Collapse(x + y) == Collapse(x) + Collapse(y)
  {
    var n := SpaceRun(x, 0);
    var xy := x + y;
    SpaceRunConcat(x, y, 0);
    assert xy[0] == x[0];
    DropOfConcat(x, y, n);
    ConcatAssoc([' '], Collapse(x[n..]), Collapse(y));
  }

  /** One step of `CollapseConcat` for `x` starting with a non-space. */
  lemma CollapseConcatChar(x: string, y: string)
    requires x != [] && !IsWhitespace(x[0])
    requires Collapse(x[1..] + y) == Collapse(x[1..]) + Collapse(y)
    ensures Collapse(x + y) == Collapse(x) + Collapse(y)
  {
    var xy := x + y;
    assert xy[0] == x[0];
    DropOfConcat(x, y, 1);
    ConcatAssoc([x[0]], Collapse(x[1..]), Collapse(y));
  }

  /** Collapsing splits over a boundary that is not inside a whitespace run. */
  lemma {:induction false} CollapseConcat(x: string, y: string)
    requires x == [] || !IsWhitespace(x[|x| - 1])
    ensures Collapse(x + y) == Collapse(x) + Collapse(y)
    decreases |x|
  {
    if x == [] {
      assert x + y == y;
    } else {
      var n := if IsWhitespace(x[0]) then SpaceRun(x, 0) else 1;
      if IsWhitespace(x[0]) {
        SpaceRunConcat(x, y, 0);
      }
      if n < |x| {
        assert x[n..][|x[n..]| - 1] == x[|x| - 1];
      }
      CollapseConcat(x[n..], y);
      if IsWhitespace(x[0]) {
        CollapseConcatSpace(x, y);
      } else {
        CollapseConcatChar(x, y);
      }
    }
  }

  /** A maximal, non-empty whitespace run between `x` and `y` becomes one
      space, and both sides collapse on their own. */
  lemma {:induction false} CollapseRun(x: string, w: string, y: string)
    requires x == [] || !IsWhitespace(x[|x| - 1])
    requires w != [] && AllWhitespace(w)
    requires y == [] || !IsWhitespace(y[0])
    ensures Collapse(x + w + y) == Collapse(x) + " " + Collapse(y)
  {
    var wy := w + y;
    assert x + w + y == x + wy;
    CollapseConcat(x, wy);
    assert wy[0] == w[0];
    assert |w| < |wy| ==> wy[|w|] == y[0];
    SpaceRunCovers(wy, 0, |w|);
    assert wy[|w|..] == y;
    ConcatAssoc(Collapse(x), " ", Collapse(y));
  }

  lemma {:induction false} DropEndPunctConcat(z: string, p: string)
    requires forall k :: 0 <= k < |p| ==> IsEndPunct(p[k])
    ensures DropEndPunct(z + p) == DropEndPunct(z)
    decreases |p|
  {
    if p != [] {
      var zp := z + p;
      assert zp[..|zp| - 1] == z + p[..|p| - 1];
      DropEndPunctConcat(z, p[..|p| - 1]);
    } else {
      assert z + p == z;
    }
  }

  /** Captions that differ only in letter case share a key. */
  lemma KeyIgnoresCase(a: string, b: string)
    requires Lower(a) == Lower(b)
    ensures CaptionKey(a) == CaptionKey(b)
  {
    LowerKeepsWhitespace();
    TrimMapCommute(LowerChar, a);
    TrimMapCommute(LowerChar, b);
  }

  /** Captions that differ only in the length or kind of one inner
      whitespace run share a key: the run between `x` and `y` may be any
      non-empty whitespace. */
  lemma {:induction false} KeyIgnoresWhitespaceRuns(x: string, w1: string, w2: string, y: string)
    requires x != [] && !IsWhitespace(x[|x| - 1])
    requires y != [] && !IsWhitespace(y[0])
    requires w1 != [] && AllWhitespace(w1) && w2 != [] && AllWhitespace(w2)
    ensures CaptionKey(x + w1 + y) == CaptionKey(x + w2 + y)
  {
    TrimAround(x, w1, y);
    TrimAround(x, w2, y);
    var tx := TrimStart(x);
    var ty := TrimEnd(y);
    assert tx[|tx| - 1] == x[|x| - 1] && ty[0] == y[0];
    CollapseRun(tx, w1, ty);
    CollapseRun(tx, w2, ty);
    KeyOfCollapsed(x + w1 + y, x + w2 + y);
  }

  /** Trimming `x + w + y` touches only the outer ends of `x` and `y`. */
  lemma {:induction false} TrimAround(x: string, w: string, y: string)
    requires x != [] && !IsWhitespace(x[|x| - 1])
    requires y != [] && !IsWhitespace(y[0])
    ensures Trim(x + w + y) == TrimStart(x) + w + TrimEnd(y)
    ensures TrimStart(x) != [] && TrimEnd(y) != []
  {
    var wy := w + y;
    var tx := TrimStart(x);
    var txw := tx + w;
    assert x + w + y == x + wy;
    TrimStartConcat(x, wy);
    assert tx + wy == txw + y;
    TrimEndConcat(txw, y);
    assert Trim(x + w + y) == TrimEnd(txw + y);
    assert txw + TrimEnd(y) == tx + w + TrimEnd(y);
  }

  /** Captions whose trimmed texts collapse to the same string share a
      key. */
  lemma {:induction false} KeyOfCollapsed(a: string, b: string)
    requires Collapse(Trim(a)) == Collapse(Trim(b))
    ensures CaptionKey(a) == CaptionKey(b)
  {
    LowerKeepsWhitespace();
    CollapseMapCommute(LowerChar, Trim(a));
    CollapseMapCommute(LowerChar, Trim(b));
  }

  lemma StraightKeepsWhitespace()
    ensures KeepsWhitespace(StraightChar) && StraightChar(' ') == ' '
  {
  }

  lemma StraightenLowerCommute(s: string)
    ensures Straighten(Lower(s)) == Lower(Straighten(s))
  {
    assert forall k :: 0 <= k < |s| ==> StraightChar(LowerChar(s[k])) == LowerChar(StraightChar(s[k]));
  }

  /** Captions that differ only in curly against straight quotes share a key. */
  lemma KeyIgnoresCurlyQuotes(a: string, b: string)
    requires Straighten(a) == Straighten(b)
    ensures CaptionKey(a) == CaptionKey(b)
  {
    StraightKeepsWhitespace();
    LowerKeepsWhitespace();
    TrimMapCommute(StraightChar, a);
    TrimMapCommute(StraightChar, b);
    StraightenLowerCommute(Trim(a));
    StraightenLowerCommute(Trim(b));
    CollapseMapCommute(StraightChar, Lower(Trim(a)));
    CollapseMapCommute(StraightChar, Lower(Trim(b)));
    TrimMapCommute(LowerChar, Straighten(Trim(a)));
    TrimMapCommute(LowerChar, Straighten(Trim(b)));
    CollapseMapCommute(StraightChar, Lower(Trim(a)));
    assert Straighten(Collapse(Lower(Trim(a)))) == Collapse(Lower(Straighten(Trim(a))));
    assert Straighten(Collapse(Lower(Trim(b)))) == Collapse(Lower(Straighten(Trim(b))));
  }

  lemma PunctTrimmed(c: string, p: string)
    requires IsTrimmed(c)
    requires forall k :: 0 <= k < |p| ==> IsEndPunct(p[k])
    ensures IsTrimmed(c + p)
  {
    var cp := c + p;
    if cp != [] {
      if c == [] { assert cp == p; }
      else { assert cp[0] == c[0]; }
      if p != [] { assert cp[|cp| - 1] == p[|p| - 1]; }
      else { assert cp == c; }
    }
  }

  /** The character maps of the key leave `.`, `!` and `?` alone. */
  lemma MapsKeepPunct(c: string, p: string)
    requires forall k :: 0 <= k < |p| ==> IsEndPunct(p[k])
    ensures Lower(c + p) == Lower(c) + p
    ensures Straighten(c + p) == Straighten(c) + p
  {
  }

  lemma LowerEndsLikeInput(c: string)
    requires IsTrimmed(c)
    ensures Lower(c) == [] || !IsWhitespace(Lower(c)[|c| - 1])
  {
    if c != [] {
      assert Lower(c)[|c| - 1] == LowerChar(c[|c| - 1]);
    }
  }

  lemma PunctIsNotSpace(p: string)
    requires forall k :: 0 <= k < |p| ==> IsEndPunct(p[k])
    ensures forall k :: 0 <= k < |p| ==> !IsWhitespace(p[k])
  {
  }

  /** Trimmed strings with the same normalised key have the same key. */
  lemma SameKeyOfTrimmed(t: string, u: string)
    requires IsTrimmed(t) && IsTrimmed(u) && NormalizeKey(t) == NormalizeKey(u)
    ensures CaptionKey(t) == CaptionKey(u)
  {
    TrimmedFixpoint(t);
    TrimmedFixpoint(u);
  }

  /** Lower-casing and collapsing carry a trailing punctuation run through
      unchanged. */
  lemma CollapseLowerPunct(c: string, p: string)
    requires IsTrimmed(c)
    requires forall k :: 0 <= k < |p| ==> IsEndPunct(p[k])
    ensures Collapse(Lower(c + p)) == Collapse(Lower(c)) + p
  {
    var lc := Lower(c);
    MapsKeepPunct(c, p);
    LowerEndsLikeInput(c);
    CollapseConcat(lc, p);
    PunctIsNotSpace(p);
    CollapseNoSpace(p);
  }

  /** The key of a trimmed string ignores a trailing punctuation run. */
  lemma NormalizeKeyPunct(c: string, p: string)
    requires IsTrimmed(c)
    requires forall k :: 0 <= k < |p| ==> IsEndPunct(p[k])
    ensures NormalizeKey(c + p) == NormalizeKey(c)
  {
    CollapseLowerPunct(c, p);
    var col := Collapse(Lower(c));
    MapsKeepPunct(col, p);
    DropEndPunctConcat(Straighten(col), p);
  }

  /** A trimmed caption followed by a run of `.`, `!`, `?` has the key of the
      caption alone. */
  lemma KeyIgnoresEndPunct(c: string, p: string)
    requires IsTrimmed(c)
    requires forall k :: 0 <= k < |p| ==> IsEndPunct(p[k])
    ensures CaptionKey(c + p) == CaptionKey(c)
  {
    PunctTrimmed(c, p);
    NormalizeKeyPunct(c, p);
    SameKeyOfTrimmed(c + p, c);
  }
}
