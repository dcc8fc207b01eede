/** app/page.tsx: the background gallery of the home page. Which image URLs it
    accepts (`isSupportedUrl`), the pool built from the `images` rows, the
    4 x 6 grid of tile spots, and the choice of a random pool image
    (`pickRandom`), with the random draws taken as an input. */
module HomeGallery {
  import opened Wrappers
  import opened JsString

  // ------------------------------------------------------------- isSupportedUrl

  /** `u.toLowerCase().split("?")[0].split("#")[0]`: the lower-cased URL up to
      its first `?` and its first `#`. */
  function UrlPath(u: string): string {
    Split(Split(Lower(u), '?')[0], '#')[0]
  }

  /** The accepted extensions, without their dot. */
  const Extensions: seq<string> := ["jpg", "jpeg", "png", "webp", "gif", "heic", "heif"]

  /** The `endsWith` chain of `isSupportedUrl`. */
  predicate HasImageSuffix(s: string) {
    || EndsWith(s, ".jpg") || EndsWith(s, ".jpeg") || EndsWith(s, ".png") || EndsWith(s, ".webp")
    || EndsWith(s, ".gif") || EndsWith(s, ".heic") || EndsWith(s, ".heif")
  }

  /** `isSupportedUrl(u)`. */
  predicate IsSupportedUrl(u: string) {
    HasImageSuffix(UrlPath(u))
  }

  /** The text after the last `.` of `s`, or `None` when `s` has no dot. */
  function Extension(s: string): (r: Option<string>)
    ensures r.None? <==> '.' !in s
    ensures r.Some? ==> ('.' !in r.value && |r.value| < |s| && s[|s| - |r.value| - 1] == '.'
      && s[|s| - |r.value|..] == r.value)
  {
    if s == [] then None
    else if s[|s| - 1] == '.' then Some([])
    else
      var e := Extension(s[..|s| - 1]);
      if e.None? then None else Some(e.value + [s[|s| - 1]])
  }

  /** Ending in `.` followed by a dot-free `e` is having the extension `e`. */
  lemma EndsWithDotIff(s: string, e: string)
    requires '.' !in e
    ensures EndsWith(s, ['.'] + e) <==> Extension(s) == Some(e)
  {
    var d := ['.'] + e;
    var x := Extension(s);
    if EndsWith(s, d) {
      var n := |s| - |d|;
      assert s[n] == d[0] == '.';
      assert forall k :: n < k < |s| ==> s[k] != '.' by {
        forall k | n < k < |s| ensures s[k] != '.' {
          assert s[k] == d[k - n] == e[k - n - 1];
        }
      }
      var r := x.value;
      assert forall k :: |s| - |r| <= k < |s| ==> s[k] != '.' by {
        forall k | |s| - |r| <= k < |s| ensures s[k] != '.' {
          assert s[k] == r[k - (|s| - |r|)];
        }
      }
      assert |r| == |e|;
      assert e == d[1..] == s[n + 1..];
    }
    if x == Some(e) {
      var n := |s| - |d|;
      assert s[n..] == [s[n]] + s[n + 1..];
    }
  }

  /** The `endsWith` chain holds exactly when the text after the last dot is
      one of the seven extensions. */
  lemma SuffixIffExtension(s: string)
    ensures HasImageSuffix(s) <==> (var e := Extension(s); e.Some? && e.value in Extensions)
  {
    EndsWithDotIff(s, "jpg");
    EndsWithDotIff(s, "jpeg");
    EndsWithDotIff(s, "png");
    EndsWithDotIff(s, "webp");
    EndsWithDotIff(s, "gif");
    EndsWithDotIff(s, "heic");
    EndsWithDotIff(s, "heif");
    assert ['.'] + "jpg" == ".jpg" && ['.'] + "jpeg" == ".jpeg" && ['.'] + "png" == ".png";
    assert ['.'] + "webp" == ".webp" && ['.'] + "gif" == ".gif";
    assert ['.'] + "heic" == ".heic" && ['.'] + "heif" == ".heif";
  }

  /** `isSupportedUrl` accepts exactly the URLs whose path, lower-cased and
      cut at the first `?` and `#`, has one of the seven extensions after its
      last dot. */
  lemma SupportedIffExtension(u: string)
    ensures IsSupportedUrl(u) <==> (var e := Extension(UrlPath(u)); e.Some? && e.value in Extensions)
  {
    SuffixIffExtension(UrlPath(u));
  }

  /** The first piece of a split of `x + y`. */
  lemma {:induction false} SplitFirstConcat(x: string, y: string, c: char)
    ensures Split(x + y, c)[0] == if c in x then Split(x, c)[0] else x + Split(y, c)[0]
  {
    if x == [] {
      assert x + y == y;
    } else {
      var xy := x + y;
      assert xy[0] == x[0] && xy[1..] == x[1..] + y;
      if x[0] == c {
        assert Split(xy, c)[0] == "" == Split(x, c)[0];
      } else {
        SplitFirstConcat(x[1..], y, c);
        assert c in x <==> c in x[1..];
        assert Split(xy, c)[0] == [x[0]] + Split(x[1..] + y, c)[0];
        assert Split(x, c)[0] == [x[0]] + Split(x[1..], c)[0];
        assert x == [x[0]] + x[1..];
      }
    }
  }

  lemma LowerConcat(a: string, b: string)
    ensures Lower(a + b) == Lower(a) + Lower(b)
  {
  }

  /** The first piece of a split of `x + [c] + y` is `x` when `c` is not in `x`. */
  lemma FirstPieceBeforeSep(x: string, c: char, y: string)
    requires c !in x
    ensures Split(x + [c] + y, c)[0] == x
  {
    var s := x + [c] + y;
    SplitFirstPiece(s, c);
    var p := Split(s, c)[0];
    assert s[|x|] == c;
    assert p == s[..|x|] == x;
  }

  /** Lower-casing passes a character that is not an upper-case letter through. */
  lemma LowerAround(u: string, c: char, q: string)
    requires !('A' <= c <= 'Z')
    ensures Lower(u + [c] + q) == Lower(u) + [c] + Lower(q)
  {
    LowerConcat(u + [c], q);
    LowerConcat(u, [c]);
  }

  /** Whatever follows a `?` does not matter. */
  lemma IgnoresQuery(u: string, q: string)
    requires '?' !in u
    ensures IsSupportedUrl(u + ['?'] + q) == IsSupportedUrl(u)
  {
    var lu := Lower(u);
    LowerAround(u, '?', q);
    assert '?' !in lu by {
      forall k | 0 <= k < |lu| ensures lu[k] != '?' { assert u[k] != '?'; }
    }
    FirstPieceBeforeSep(lu, '?', Lower(q));
    SplitFirstPiece(lu, '?');
  }

  /** Whatever follows a `#` does not matter. */
  lemma IgnoresFragment(u: string, f: string)
    requires '#' !in u
    ensures IsSupportedUrl(u + ['#'] + f) == IsSupportedUrl(u)
  {
    var lu := Lower(u);
    var lf := Lower(f);
    LowerConcat(u + ['#'], f);
    LowerConcat(u, ['#']);
    assert '#' !in lu by {
      forall k | 0 <= k < |lu| ensures lu[k] != '#' { assert u[k] != '#'; }
    }
    assert Lower(u + ['#'] + f) == lu + (['#'] + lf);
    SplitFirstConcat(lu, ['#'] + lf, '?');
    SplitFirstPiece(lu, '?');
    var p := Split(lu, '?')[0];
    assert '#' !in p by {
      forall k | 0 <= k < |p| ensures p[k] != '#' { assert p[k] == lu[k]; }
    }
    SplitFirstPiece(p, '#');
    if '?' !in lu {
      var rest := Split(['#'] + lf, '?')[0];
      SplitFirstConcat(lu, rest, '#');
      assert rest[0] == '#' by { SplitFirstPiece(['#'] + lf, '?'); }
      assert Split(rest, '#')[0] == [] by { SplitFirstPiece(rest, '#'); }
      assert lu + [] == lu;
    }
  }

  /** Letter case does not matter. */
  lemma IgnoresCase(a: string, b: string)
    requires Lower(a) == Lower(b)
    ensures IsSupportedUrl(a) == IsSupportedUrl(b)
  {
  }

  // -------------------------------------------------------------------- the pool

  /** The `url` column of the `images` rows, in query order, without the
      values that are not strings (`None`) or are empty, and without the URLs
      that `isSupportedUrl` refuses. */
  function PoolUrls(urls: seq<Option<string>>): (r: seq<string>)
    ensures forall x :: x in r <==> Some(x) in urls && x != "" && IsSupportedUrl(x)
  {
    if urls == [] then []
    else
      var rest := PoolUrls(urls[..|urls| - 1]);
      var u := urls[|urls| - 1];
      assert urls == urls[..|urls| - 1] + [u];
      if u.Some? && u.value != "" && IsSupportedUrl(u.value) then rest + [u.value] else rest
  }

  /** Filtering works value by value: it distributes over concatenation, and
      one value is kept exactly when it is a non-empty supported URL, so
      order and repeats are kept. */
  lemma {:induction false} PoolUrlsAppend(a: seq<Option<string>>, b: seq<Option<string>>)
    ensures forall u :: PoolUrls([u]) == if Accepted(u) then [u.value] else []
    ensures PoolUrls(a + b) == PoolUrls(a) + PoolUrls(b)
    decreases |b|
  {
    forall u ensures PoolUrls([u]) == if Accepted(u) then [u.value] else [] {
      PoolUrlsOne(u);
    }
    if b == [] {
      assert a + b == a;
    } else {
      var b' := b[..|b| - 1];
      var l := b[|b| - 1];
      assert a + b == (a + b') + [l];
      assert b == b' + [l];
      PoolUrlsSnoc(a + b', l);
      PoolUrlsSnoc(b', l);
      PoolUrlsAppend(a, b');
      ConcatAssocSeq(PoolUrls(a), PoolUrls(b'), PoolUrls([l]));
    }
  }

  /** One value more at the end. */
  lemma PoolUrlsSnoc(xs: seq<Option<string>>, u: Option<string>)
    ensures PoolUrls(xs + [u]) == PoolUrls(xs) + PoolUrls([u])
  {
    var ys := xs + [u];
    assert ys[..|ys| - 1] == xs;
    PoolUrlsOne(u);
  }

  lemma PoolUrlsOne(u: Option<string>)
    ensures PoolUrls([u]) == if Accepted(u) then [u.value] else []
  {
    assert [u][..0] == [];
  }

  lemma ConcatAssocSeq(a: seq<string>, b: seq<string>, c: seq<string>)
    ensures a + (b + c) == (a + b) + c
  {
  }

  /** Index of the first `Some(x)` in `urls`, `|urls|` when absent. */
  function FirstAt(urls: seq<Option<string>>, x: string): (k: nat)
    ensures k <= |urls| && (k < |urls| <==> Some(x) in urls)
    ensures k < |urls| ==> urls[k] == Some(x)
    ensures forall j :: 0 <= j < k ==> urls[j] != Some(x)
  {
    if urls == [] then 0 else if urls[0] == Some(x) then 0 else 1 + FirstAt(urls[1..], x)
  }

  lemma {:induction false} FirstAtAppend(urls: seq<Option<string>>, u: Option<string>, x: string)
    ensures FirstAt(urls + [u], x) == if Some(x) in urls then FirstAt(urls, x) else if u == Some(x) then |urls| else |urls| + 1
  {
    if urls == [] {
      assert [u][1..] == [];
    } else if urls[0] != Some(x) {
      assert (urls + [u])[1..] == urls[1..] + [u];
      FirstAtAppend(urls[1..], u, x);
      assert Some(x) in urls <==> Some(x) in urls[1..];
    }
  }

  /** A row value that the filter keeps. */
  predicate Accepted(u: Option<string>) {
    u.Some? && u.value != "" && IsSupportedUrl(u.value)
  }

  /** Among accepted URLs, the filtered list orders first occurrences as the
      rows do. */
  lemma {:induction false} PoolOrderIff(urls: seq<Option<string>>, x: string, y: string)
    requires x in PoolUrls(urls) && y in PoolUrls(urls)
    ensures FirstIndex(PoolUrls(urls), x) < FirstIndex(PoolUrls(urls), y) <==> FirstAt(urls, x) < FirstAt(urls, y)
  {
    var init := urls[..|urls| - 1];
    var u := urls[|urls| - 1];
    assert urls == init + [u];
    var ip := PoolUrls(init);
    FirstAtAppend(init, u, x);
    FirstAtAppend(init, u, y);
    if !Accepted(u) {
      assert PoolUrls(urls) == ip;
      PoolOrderIff(init, x, y);
    } else {
      if x in ip {
        FirstIndexAppend(ip, u.value, x);
      } else {
        NewInPool(init, u, x);
      }
      if y in ip {
        FirstIndexAppend(ip, u.value, y);
      } else {
        NewInPool(init, u, y);
      }
      if x in ip && y in ip {
        PoolOrderIff(init, x, y);
      }
    }
  }

  /** A URL kept only thanks to the last row is that row's value, seen for
      the first time, at the end of the filtered list. */
  lemma NewInPool(init: seq<Option<string>>, u: Option<string>, x: string)
    requires Accepted(u) && x in PoolUrls(init + [u]) && x !in PoolUrls(init)
    ensures u == Some(x) && Some(x) !in init
    ensures FirstIndex(PoolUrls(init + [u]), x) == |PoolUrls(init)|
  {
    var urls := init + [u];
    var ip := PoolUrls(init);
    assert urls[..|urls| - 1] == init;
    var p := PoolUrls(urls);
    assert p == ip + [u.value];
    assert p[|ip|] == u.value;
  }

  /** `Array.from(new Set(xs))`: each value once, at its first occurrence. */
  function Distinct(xs: seq<string>): seq<string> {
    if xs == [] then []
    else
      var d := Distinct(xs[..|xs| - 1]);
      if xs[|xs| - 1] in d then d else d + [xs[|xs| - 1]]
  }

  /** The background pool. */
  function ImagePool(urls: seq<Option<string>>): seq<string> {
    Distinct(PoolUrls(urls))
  }

  /** Index of the first occurrence of `x` in `xs`, `|xs|` when absent. */
  function FirstIndex(xs: seq<string>, x: string): (k: nat)
    ensures k <= |xs| && (k < |xs| <==> x in xs)
    ensures k < |xs| ==> xs[k] == x
    ensures forall j :: 0 <= j < k ==> xs[j] != x
  {
    if xs == [] then 0 else if xs[0] == x then 0 else 1 + FirstIndex(xs[1..], x)
  }

  lemma {:induction false} FirstIndexAppend(xs: seq<string>, y: string, x: string)
    requires x in xs
    ensures FirstIndex(xs + [y], x) == FirstIndex(xs, x)
  {
    if xs[0] != x {
      assert (xs + [y])[1..] == xs[1..] + [y];
      FirstIndexAppend(xs[1..], y, x);
    }
  }

  predicate NoDuplicates(d: seq<string>) {
    forall j, k :: 0 <= j < k < |d| ==> d[j] != d[k]
  }

  /** The set dedupe keeps every value exactly once, and in the order of first
      appearance. */
  lemma {:induction false} DistinctShape(xs: seq<string>)
    ensures var d := Distinct(xs);
      && NoDuplicates(d)
      && (forall x :: x in d <==> x in xs)
      && (forall j, k :: 0 <= j < k < |d| ==> FirstIndex(xs, d[j]) < FirstIndex(xs, d[k]))
  {
    if xs != [] {
      var init := xs[..|xs| - 1];
      var y := xs[|xs| - 1];
      DistinctShape(init);
      var d := Distinct(init);
      assert xs == init + [y];
      forall x | x in init ensures FirstIndex(xs, x) == FirstIndex(init, x) {
        FirstIndexAppend(init, y, x);
      }
      if y !in d {
        var d' := d + [y];
        assert FirstIndex(xs, y) == |init| by {
          assert forall j :: 0 <= j < |init| ==> xs[j] == init[j];
        }
        forall j, k | 0 <= j < k < |d'| ensures FirstIndex(xs, d'[j]) < FirstIndex(xs, d'[k]) {
          if k == |d| {
            assert d'[j] == d[j] && d[j] in d;
          } else {
            assert d'[j] == d[j] && d'[k] == d[k] && d[j] in d && d[k] in d;
          }
        }
        forall j, k | 0 <= j < k < |d'| ensures d'[j] != d'[k] {
          if k == |d| {
            assert d'[j] == d[j] && d[j] in d;
          }
        }
      }
    }
  }

  /** The pool holds each accepted URL exactly once, non-empty and supported,
      and nothing else, in the order in which the rows first show it. */
  lemma PoolShape(urls: seq<Option<string>>)
    ensures var p := ImagePool(urls);
      && NoDuplicates(p)
      && (forall x :: x in p <==> Some(x) in urls && x != "" && IsSupportedUrl(x))
      && (forall j, k :: 0 <= j < k < |p| ==> FirstAt(urls, p[j]) < FirstAt(urls, p[k]))
  {
    var q := PoolUrls(urls);
    var p := ImagePool(urls);
    DistinctShape(q);
    forall j, k | 0 <= j < k < |p| ensures FirstAt(urls, p[j]) < FirstAt(urls, p[k]) {
      assert p[j] in p && p[k] in p;
      PoolOrderIff(urls, p[j], p[k]);
    }
  }

  // ------------------------------------------------------------------- the grid

  /** One tile spot: position in percent of the viewport, width in pixels,
      rotation in degrees and flicker period in milliseconds. */
  datatype Spot = Spot(top: int, left: int, w: int, rot: int, periodMs: int)

  const Rows: nat := 4
  const Cols: nat := 6
  const PadX: int := 10
  const PadY: int := 14

  /** The spot at row-major index `idx` of the grid, in closed form. */
  function SpotAt(idx: nat): Spot {
    var r := idx / Cols;
    var c := idx % Cols;
    Spot(PadY + 24 * r, PadX + 16 * c, 190,
         (if idx % 2 == 0 then -1 else 1) * (4 + idx % 3),
         1400 + (idx % 8) * 150)
  }

  /** The `spots` memo: two nested loops over the rows and columns, pushing
      one spot each and counting `idx`. The divisions are exact for these
      constants, so integer division gives the page's values. */
  method BuildSpots() returns (out: seq<Spot>)
    ensures |out| == Rows * Cols
    ensures forall idx :: 0 <= idx < |out| ==> out[idx] == SpotAt(idx)
  {
    out := [];
    var idx := 0;
    for r := 0 to Rows
      invariant idx == r * Cols && |out| == idx
      invariant forall k :: 0 <= k < |out| ==> out[k] == SpotAt(k)
    {
      for c := 0 to Cols
        invariant idx == r * Cols + c && |out| == idx
        invariant forall k :: 0 <= k < |out| ==> out[k] == SpotAt(k)
      {
        var left := PadX + (c * (100 - 2 * PadX)) / (Cols - 1);
        var top := PadY + (r * (100 - 2 * PadY)) / (Rows - 1);
        var rdeg := (if idx % 2 == 0 then -1 else 1) * (4 + idx % 3);
        var periodMs := 1400 + (idx % 8) * 150;
        assert idx / Cols == r && idx % Cols == c;
        out := out + [Spot(top, left, 190, rdeg, periodMs)];
        idx := idx + 1;
      }
    }
  }

  /** Every spot lies on the grid lines 10..90 % across and 14..86 % down,
      flickers with a period in 1400..2450 ms, and is tilted by 4 to 6
      degrees, to the left at even indices and to the right at odd ones. */
  lemma SpotRanges(idx: nat)
    requires idx < Rows * Cols
    ensures var s := SpotAt(idx);
      && s.left in {10, 26, 42, 58, 74, 90} && s.top in {14, 38, 62, 86}
      && 1400 <= s.periodMs <= 2450
      && (idx % 2 == 0 ==> -6 <= s.rot <= -4) && (idx % 2 == 1 ==> 4 <= s.rot <= 6)
  {
    var r := idx / Cols;
    assert r < 4;
  }

  /** No two spots share a position. */
  lemma SpotsDistinct(i: nat, j: nat)
    requires i < j < Rows * Cols
    ensures (SpotAt(i).top, SpotAt(i).left) != (SpotAt(j).top, SpotAt(j).left)
  {
    var ri, ci := i / Cols, i % Cols;
    var rj, cj := j / Cols, j % Cols;
    assert i == Cols * ri + ci && j == Cols * rj + cj;
    if ri == rj {
      assert ci != cj;
    }
  }

  // ------------------------------------------------------------------ pickRandom

  /** The image a draw selects: `Math.floor(Math.random() * arr.length)`
      supplied as `draw`, reduced to the pool. */
  function Drawn(arr: seq<string>, draw: nat): string
    requires arr != []
  {
    arr[draw % |arr|]
  }

  /** What the loop accepts: a non-empty URL other than `exclude`. */
  predicate Acceptable(u: string, exclude: Option<string>) {
    u != "" && exclude != Some(u)
  }

  /** The number of draws `pickRandom` tries before the fallback. */
  const Tries: nat := 20

  /** The first of the draws from `k` on (at most `Tries` in all) that gives
      an acceptable image. */
  function FirstAcceptable(arr: seq<string>, exclude: Option<string>, draws: seq<nat>, k: nat): (r: Option<nat>)
    requires arr != []
    ensures r.Some? ==> (k <= r.value < Tries && r.value < |draws| && Acceptable(Drawn(arr, draws[r.value]), exclude)
      && forall m :: k <= m < r.value ==> !Acceptable(Drawn(arr, draws[m]), exclude))
    ensures r.None? ==> forall m :: k <= m < Tries && m < |draws| ==> !Acceptable(Drawn(arr, draws[m]), exclude)
    decreases Tries - k
  {
    if k >= Tries || k >= |draws| then None
    else if Acceptable(Drawn(arr, draws[k]), exclude) then Some(k)
    else FirstAcceptable(arr, exclude, draws, k + 1)
  }

  /** `arr.find((x) => x !== exclude)`. */
  function FindOther(arr: seq<string>, exclude: Option<string>): (r: Option<string>)
    ensures r.Some? ==> r.value in arr && exclude != Some(r.value)
    ensures r.None? <==> forall x :: x in arr ==> exclude == Some(x)
    ensures forall i :: 0 <= i < |arr| && exclude != Some(arr[i]) && (forall m :: 0 <= m < i ==> exclude == Some(arr[m]))
                        ==> r == Some(arr[i])
  {
    if arr == [] then None
    else if exclude != Some(arr[0]) then Some(arr[0])
    else
      var r := FindOther(arr[1..], exclude);
      assert forall x :: x in arr ==> x == arr[0] || x in arr[1..];
      assert forall i :: 1 <= i < |arr| ==> arr[i] == arr[1..][i - 1];
      r
  }

  /** `arr.find((x) => x !== exclude) || arr[0]`. */
  function Fallback(arr: seq<string>, exclude: Option<string>): string
    requires arr != []
  {
    var f := FindOther(arr, exclude);
    if f.Some? && f.value != "" then f.value else arr[0]
  }

  /** `pickRandom(exclude)` on the pool `arr` with the random indices `draws`. */
  function Pick(arr: seq<string>, exclude: Option<string>, draws: seq<nat>): string {
    if |arr| == 0 then ""
    else if |arr| == 1 then arr[0]
    else
      var k := FirstAcceptable(arr, exclude, draws, 0);
      if k.Some? then Drawn(arr, draws[k.value]) else Fallback(arr, exclude)
  }

  /** `pickRandom` as the page runs it: up to twenty draws with an early
      return, then the fallback. */
  method PickRandom(arr: seq<string>, exclude: Option<string>, draws: seq<nat>) returns (u: string)
    ensures u == Pick(arr, exclude, draws)
  {
    if |arr| == 0 {
      return "";
    }
    if |arr| == 1 {
      return arr[0];
    }
    u := "";
    var k := 0;
    while k < Tries && k < |draws|
      invariant 0 <= k <= Tries
      invariant FirstAcceptable(arr, exclude, draws, 0) == FirstAcceptable(arr, exclude, draws, k)
    {
      u := Drawn(arr, draws[k]);
      if Acceptable(u, exclude) {
        return u;
      }
      k := k + 1;
    }
    u := Fallback(arr, exclude);
  }

  /** An empty pool gives `""`, a one-image pool its image whatever `exclude`
      is, and a larger pool one of its images. */
  lemma PickFromPool(arr: seq<string>, exclude: Option<string>, draws: seq<nat>)
    ensures |arr| == 0 ==> Pick(arr, exclude, draws) == ""
    ensures |arr| == 1 ==> Pick(arr, exclude, draws) == arr[0]
    ensures |arr| >= 2 ==> Pick(arr, exclude, draws) in arr
  {
  }

  /** On a pool as the page builds it (non-empty URLs, no duplicates) with at
      least two images, the pick never repeats `exclude`. */
  lemma PickAvoidsExclude(arr: seq<string>, exclude: Option<string>, draws: seq<nat>)
    requires |arr| >= 2 && NoDuplicates(arr)
    requires forall k :: 0 <= k < |arr| ==> arr[k] != ""
    ensures exclude != Some(Pick(arr, exclude, draws))
  {
    if FirstAcceptable(arr, exclude, draws, 0).None? {
      assert exclude != Some(arr[0]) || exclude != Some(arr[1]) by {
        assert arr[0] != arr[1];
      }
      var f := FindOther(arr, exclude);
      assert f.Some?;
      assert f.value != "";
    }
  }

  /** The fallback may repeat `exclude` when the first other element is empty:
      the guard `|| arr[0]` then falls back to the first image. The pool never
      holds `""`, so the page never reaches this case. */
  lemma FallbackRepeatsWithEmpty()
    ensures Fallback(["a", ""], Some("a")) == "a"
  {
    assert FindOther(["a", ""], Some("a")) == Some("");
  }
}
