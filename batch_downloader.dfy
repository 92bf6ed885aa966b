/**
 * The batch downloader of the data-acquisition stage: parsing a pasted list of YouTube links
 * (one per line, optionally with an `m:ss` start time), turning video titles into file names, and
 * the download loop that skips repeated video ids and catalogues the successful downloads.
 *
 * File reading and the yt-dlp calls are outside the model: the lines of the list are an input,
 * and the metadata fetch and the download are oracles that report an outcome.
 */
module BatchDownloader {
  import opened Wrappers
  import opened PyText

  /** t begins with h. */
  predicate StartsWith(t: string, h: string)
  {
    |h| <= |t| && forall k {:trigger h[k]} :: 0 <= k < |h| ==> t[k] == h[k]
  }

  lemma StartsWithSpec(t: string, h: string)
    ensures StartsWith(t, h) <==> |h| <= |t| && t[..|h|] == h
  {
  }

  /** The leftmost of the positions i..n where found holds: `re.search` tries start positions from left to right. */
  function Leftmost(n: nat, i: nat, found: nat -> bool): (r: Option<nat>)
    ensures r.Some? ==> i <= r.value <= n && found(r.value)
    decreases n - i
  {
    if n < i then None else if found(i) then Some(i) else Leftmost(n, i + 1, found)
  }

  lemma {:induction false} LeftmostSpec(n: nat, i: nat, found: nat -> bool)
    ensures Leftmost(n, i, found).Some? ==> forall k :: i <= k < Leftmost(n, i, found).value ==> !found(k)
    ensures Leftmost(n, i, found).None? ==> forall k :: i <= k <= n ==> !found(k)
    decreases n - i
  {
    if i <= n && !found(i) {
      LeftmostSpec(n, i + 1, found);
    }
  }

  // ---------------------------------------------------------------------------------------
  // The URL pattern `https?://(?:www\.)?(?:youtube\.com/watch\?v=|youtube\.com/shorts/|youtu\.be/)([\w-]+)`

  predicate IsScheme(s: string) { s == "https://" || s == "http://" }
  predicate IsHostPrefix(h: string) { h == "www." || h == "" }
  predicate IsPathPrefix(p: string) { p == "youtube.com/watch?v=" || p == "youtube.com/shorts/" || p == "youtu.be/" }

  /** `[\w-]`. */
  predicate IsIdChar(c: char) { IsWordChar(c) || c == '-' }

  /**
   * The length of the `https?://` that t starts with, 0 if none. Taking the `s` greedily loses
   * nothing: without it the next character would have to be `:`.
   */
  function SchemeLength(t: string): nat
  {
    if StartsWith(t, "https://") then 8
    else if StartsWith(t, "http://") then 7
    else 0
  }

  /** The length of the optional `www.` at the start of t (taking it is the only way the rest can match). */
  function HostLength(t: string): nat
  {
    if StartsWith(t, "www.") then 4 else 0
  }

  /** The length of the path alternative t starts with, 0 if none; at most one of them can match. */
  function PathLength(t: string): nat
  {
    if StartsWith(t, "youtube.com/watch?v=") then 20
    else if StartsWith(t, "youtube.com/shorts/") then 19
    else if StartsWith(t, "youtu.be/") then 9
    else 0
  }

  /** SchemeLength measures an `http://` or `https://` at the start of t. */
  lemma SchemeLengthSpec(t: string)
    ensures SchemeLength(t) == 0 || (SchemeLength(t) <= |t| && IsScheme(t[..SchemeLength(t)]))
  {
    StartsWithSpec(t, "https://");
    StartsWithSpec(t, "http://");
  }

  /** HostLength measures the optional `www.` at position i of t. */
  lemma HostLengthSpec(t: string, i: nat)
    requires i <= |t|
    ensures i + HostLength(t[i..]) <= |t| && IsHostPrefix(t[i..i + HostLength(t[i..])])
  {
    StartsWithSpec(t[i..], "www.");
    assert HostLength(t[i..]) > 0 ==> t[i..i + 4] == t[i..][..4];
  }

  /** PathLength measures one of the three path prefixes at position i of t. */
  lemma PathLengthSpec(t: string, i: nat)
    requires i <= |t|
    ensures var b := PathLength(t[i..]);
      b == 0 || (i + b <= |t| && IsPathPrefix(t[i..i + b]))
  {
    var b := PathLength(t[i..]);
    StartsWithSpec(t[i..], "youtube.com/watch?v=");
    StartsWithSpec(t[i..], "youtube.com/shorts/");
    StartsWithSpec(t[i..], "youtu.be/");
    assert b > 0 ==> t[i..i + b] == t[i..][..b];
  }

  /** A match of the URL pattern: group 1 is line[start..end], group 2 (the video id) line[idStart..end]. */
  datatype UrlMatch = UrlMatch(start: nat, idStart: nat, end: nat)

  /** The match of the URL pattern at the very start of t, if any; the id run is taken greedily. */
  function MatchUrl(t: string): (m: Option<UrlMatch>)
    ensures m.Some? ==> m.value.start == 0 < m.value.idStart < m.value.end <= |t|
  {
    var a := SchemeLength(t);
    if a == 0 then None
    else
      var w := HostLength(t[a..]);
      var b := PathLength(t[a + w..]);
      if b == 0 then None
      else
        var idStart := a + w + b;
        var n := RunLength(t[idStart..], IsIdChar);
        if n == 0 then None else Some(UrlMatch(0, idStart, idStart + n))
  }

  /** The match of the URL pattern that starts at position i of line, if any. */
  function MatchUrlAt(line: string, i: nat): (m: Option<UrlMatch>)
    requires i <= |line|
    ensures m.Some? ==> m.value.start == i < m.value.idStart < m.value.end <= |line|
  {
    match MatchUrl(line[i..])
    case None => None
    case Some(m) => Some(UrlMatch(i, i + m.idStart, i + m.end))
  }

  /** A URL the pattern accepts: a scheme, an optional `www.`, a path prefix, then the id. */
  ghost predicate IsVideoUrl(url: string, id: string)
  {
    && id != []
    && (forall k :: 0 <= k < |id| ==> IsIdChar(id[k]))
    && exists s, h, p :: IsScheme(s) && IsHostPrefix(h) && IsPathPrefix(p) && url == s + h + p + id
  }

  /** A match at the start of t is a well-formed video URL whose id is a maximal run of id characters. */
  lemma MatchUrlIsVideoUrl(t: string)
    requires MatchUrl(t).Some?
    ensures var m := MatchUrl(t).value;
      && IsVideoUrl(t[..m.end], t[m.idStart..m.end])
      && (m.end == |t| || !IsIdChar(t[m.end]))
  {
    var m := MatchUrl(t).value;
    var a := SchemeLength(t);
    var w := HostLength(t[a..]);
    var b := PathLength(t[a + w..]);
    MatchUrlParts(t, a, w, b);
    MeasuredPiecesAreUrl(t, a, w, b, m.end);
  }

  /** The measured scheme, host and path prefixes followed by a non-empty id run make a video URL. */
  lemma MeasuredPiecesAreUrl(t: string, a: nat, w: nat, b: nat, e: nat)
    requires a == SchemeLength(t) > 0 && a <= |t| && w == HostLength(t[a..]) && a + w <= |t|
    requires b == PathLength(t[a + w..]) > 0 && a + w + b <= |t|
    requires e == a + w + b + RunLength(t[a + w + b..], IsIdChar) && a + w + b < e
    ensures IsVideoUrl(t[..e], t[a + w + b..e]) && (e == |t| || !IsIdChar(t[e]))
  {
    SchemeLengthSpec(t);
    HostLengthSpec(t, a);
    PathLengthSpec(t, a + w);
    IdRun(t, a + w + b);
    UrlPieces(t, a, a + w, a + w + b, e);
  }

  /** A match is made of the measured scheme, host and path prefixes, then the id run. */
  lemma MatchUrlParts(t: string, a: nat, w: nat, b: nat)
    requires MatchUrl(t).Some?
    requires a == SchemeLength(t) && a <= |t| && w == HostLength(t[a..]) && a + w <= |t| && b == PathLength(t[a + w..])
    ensures 0 < a && 0 < b && MatchUrl(t).value.idStart == a + w + b
    ensures MatchUrl(t).value.end == a + w + b + RunLength(t[a + w + b..], IsIdChar)
  {
  }

  /** Every match of the URL pattern is a well-formed video URL whose id is a maximal run of id characters. */
  lemma MatchIsVideoUrl(line: string, i: nat)
    requires i <= |line| && MatchUrlAt(line, i).Some?
    ensures var m := MatchUrlAt(line, i).value;
      && IsVideoUrl(line[m.start..m.end], line[m.idStart..m.end])
      && (m.end == |line| || !IsIdChar(line[m.end]))
  {
    var t := line[i..];
    MatchUrlIsVideoUrl(t);
    var u := MatchUrl(t).value;
    MatchAtShift(line, i, t, u);
    ShiftedVideoUrl(line, i, t, u, MatchUrlAt(line, i).value);
  }

  /** A match in the suffix line[i..] is the match at i, shifted by i. */
  lemma MatchAtShift(line: string, i: nat, t: string, u: UrlMatch)
    requires i <= |line| && t == line[i..] && MatchUrl(t) == Some(u)
    ensures MatchUrlAt(line, i) == Some(UrlMatch(i, i + u.idStart, i + u.end))
  {
  }

  /** A video URL u found in the suffix line[i..] is the same video URL m in line, shifted by i. */
  lemma ShiftedVideoUrl(line: string, i: nat, t: string, u: UrlMatch, m: UrlMatch)
    requires i <= |line| && t == line[i..] && u.idStart <= u.end <= |t|
    requires IsVideoUrl(t[..u.end], t[u.idStart..u.end]) && (u.end == |t| || !IsIdChar(t[u.end]))
    requires m == UrlMatch(i, i + u.idStart, i + u.end)
    ensures IsVideoUrl(line[m.start..m.end], line[m.idStart..m.end]) && (m.end == |line| || !IsIdChar(line[m.end]))
  {
    SuffixSlices(line, i, u.idStart, u.end);
    VideoUrlTransfer(t[..u.end], line[m.start..m.end], t[u.idStart..u.end], line[m.idStart..m.end]);
  }

  /** A text that begins with a scheme has exactly that scheme measured. */
  lemma SchemeLengthOf(t: string, s: string)
    requires IsScheme(s) && |s| <= |t| && t[..|s|] == s
    ensures SchemeLength(t) == |s|
  {
    StartsWithSpec(t, "https://");
    StartsWithSpec(t, "http://");
    if s == "http://" {
      assert t[4] == t[..|s|][4] == ':';
    }
  }

  /** Before a path prefix, the optional `www.` is measured exactly. */
  lemma HostLengthOf(t: string, h: string, p: string)
    requires IsHostPrefix(h) && IsPathPrefix(p) && |h| + |p| <= |t|
    requires t[..|h|] == h && t[|h|..|h| + |p|] == p
    ensures HostLength(t) == |h|
  {
    StartsWithSpec(t, "www.");
    if h == "" {
      assert t[0] == t[|h|..|h| + |p|][0] == 'y';
    }
  }

  /** A text that begins with a path prefix has exactly that prefix measured. */
  lemma PathLengthOf(t: string, p: string)
    requires IsPathPrefix(p) && |p| <= |t| && t[..|p|] == p
    ensures PathLength(t) == |p|
  {
    StartsWithSpec(t, "youtube.com/watch?v=");
    StartsWithSpec(t, "youtube.com/shorts/");
    StartsWithSpec(t, "youtu.be/");
    if p == "youtube.com/shorts/" {
      assert t[12] == t[..|p|][12] == 's';
    } else if p == "youtu.be/" {
      assert t[5] == t[..|p|][5] == '.';
    }
  }

  /** A host prefix at x1 followed by a path prefix is measured exactly by HostLength. */
  lemma HostLengthAt(t: string, x1: nat, x2: nat, x3: nat)
    requires x1 <= x2 <= x3 <= |t| && IsHostPrefix(t[x1..x2]) && IsPathPrefix(t[x2..x3])
    ensures HostLength(t[x1..]) == x2 - x1
  {
    SuffixSlices(t, x1, 0, x2 - x1);
    SuffixSlices(t, x1, x2 - x1, x3 - x1);
    HostLengthOf(t[x1..], t[x1..x2], t[x2..x3]);
  }

  /** A path prefix at x2 is measured exactly by PathLength. */
  lemma PathLengthAt(t: string, x2: nat, x3: nat)
    requires x2 <= x3 <= |t| && IsPathPrefix(t[x2..x3])
    ensures PathLength(t[x2..]) == x3 - x2
  {
    SuffixSlices(t, x2, 0, x3 - x2);
    PathLengthOf(t[x2..], t[x2..x3]);
  }

  /** The matcher reports the pieces its three length measures give it, then the id run. */
  lemma MatchUrlOfMeasures(t: string, x1: nat, x2: nat, x3: nat)
    requires x1 <= x2 <= x3 < |t| && IsIdChar(t[x3])
    requires SchemeLength(t) == x1 > 0 && HostLength(t[x1..]) == x2 - x1 && PathLength(t[x2..]) == x3 - x2 > 0
    ensures MatchUrl(t) == Some(UrlMatch(0, x3, x3 + RunLength(t[x3..], IsIdChar)))
  {
    assert t[x3..][0] == t[x3];
  }

  /**
   * The converse of MatchUrlIsVideoUrl: a text that starts with a scheme, an optional `www.`, a
   * path prefix and id characters is matched there, with the id starting after the path prefix
   * and running at least as far; when the id characters end there, the match ends there too.
   */
  lemma MatchUrlFinds(t: string, s: string, h: string, p: string, id: string)
    requires IsScheme(s) && IsHostPrefix(h) && IsPathPrefix(p)
    requires id != [] && forall k :: 0 <= k < |id| ==> IsIdChar(id[k])
    requires StartsWith(t, s + h + p + id)
    ensures MatchUrl(t).Some? && MatchUrl(t).value.idStart == |s + h + p| && |s + h + p + id| <= MatchUrl(t).value.end
    ensures |s + h + p + id| == |t| || !IsIdChar(t[|s + h + p + id|]) ==>
      MatchUrl(t) == Some(UrlMatch(0, |s + h + p|, |s + h + p + id|))
  {
    var x1, x2, x3, e := |s|, |s + h|, |s + h + p|, |s + h + p + id|;
    PiecesOfPrefix(t, s, h, p, id);
    MatchUrlOfRun(t, x1, x2, x3, e);
  }

  /** A text that starts with s + h + p + id holds each piece at its own position. */
  lemma PiecesOfPrefix(t: string, s: string, h: string, p: string, id: string)
    requires StartsWith(t, s + h + p + id)
    ensures var x1, x2, x3, e := |s|, |s + h|, |s + h + p|, |s + h + p + id|;
      && e <= |t| && t[..x1] == s && t[x1..x2] == h && t[x2..x3] == p
      && forall k :: x3 <= k < e ==> t[k] == id[k - x3]
  {
    var x1, x2, x3, e := |s|, |s + h|, |s + h + p|, |s + h + p + id|;
    StartsWithSpec(t, s + h + p + id);
    Concat4(t, x1, x2, x3, e);
    ConcatParts(s, h, p, id, t[..x1], t[x1..x2], t[x2..x3], t[x3..e]);
    assert forall k :: x3 <= k < e ==> t[k] == t[x3..e][k - x3];
  }

  /**
   * With the three prefixes in place and id characters over x3..e, the match starts its id at x3
   * and ends at e or further; exactly at e when the id characters end there.
   */
  lemma MatchUrlOfRun(t: string, x1: nat, x2: nat, x3: nat, e: nat)
    requires x1 <= x2 <= x3 < e <= |t|
    requires IsScheme(t[..x1]) && IsHostPrefix(t[x1..x2]) && IsPathPrefix(t[x2..x3])
    requires forall k :: x3 <= k < e ==> IsIdChar(t[k])
    ensures MatchUrl(t).Some? && MatchUrl(t).value.idStart == x3 && e <= MatchUrl(t).value.end
    ensures e == |t| || !IsIdChar(t[e]) ==> MatchUrl(t) == Some(UrlMatch(0, x3, e))
  {
    SchemeLengthOf(t, t[..x1]);
    HostLengthAt(t, x1, x2, x3);
    PathLengthAt(t, x2, x3);
    RunReaches(t, x3, e);
    MatchUrlOfMeasures(t, x1, x2, x3);
  }

  /** The id run from x3 covers id characters up to e, and stops at e when they end there. */
  lemma RunReaches(t: string, x3: nat, e: nat)
    requires x3 <= e <= |t| && forall k :: x3 <= k < e ==> IsIdChar(t[k])
    ensures e <= x3 + RunLength(t[x3..], IsIdChar)
    ensures e == |t| || !IsIdChar(t[e]) ==> x3 + RunLength(t[x3..], IsIdChar) == e
  {
    var n := RunLength(t[x3..], IsIdChar);
    IdRun(t, x3);
    if x3 + n < e {
      assert false;
    }
    if (e == |t| || !IsIdChar(t[e])) && e < x3 + n {
      assert false;
    }
  }

  /** Two four-part concatenations with parts of equal lengths are equal part by part. */
  lemma ConcatParts(s: string, h: string, p: string, id: string, s': string, h': string, p': string, id': string)
    requires |s| == |s'| && |h| == |h'| && |p| == |p'| && s + h + p + id == s' + h' + p' + id'
    ensures s == s' && h == h' && p == p' && id == id'
  {
    var u, u' := s + h + p + id, s' + h' + p' + id';
    assert s == u[..|s|] == u'[..|s|] == s';
    assert h == u[|s|..|s| + |h|] == u'[|s|..|s| + |h|] == h';
    assert p == u[|s| + |h|..|s| + |h| + |p|] == u'[|s| + |h|..|s| + |h| + |p|] == p';
    assert id == u[|s| + |h| + |p|..] == u'[|s| + |h| + |p|..] == id';
  }

  /**
   * Every URL of the pattern is found: where line[i..] starts with a scheme, an optional `www.`,
   * a path prefix and id characters, the pattern matches at i, with group 2 starting after the
   * path prefix and running at least over those id characters. When they are a maximal run, the
   * match is exactly that URL.
   */
  lemma MatchUrlComplete(line: string, i: nat, s: string, h: string, p: string, id: string)
    requires i <= |line|
    requires IsScheme(s) && IsHostPrefix(h) && IsPathPrefix(p)
    requires id != [] && forall k :: 0 <= k < |id| ==> IsIdChar(id[k])
    requires StartsWith(line[i..], s + h + p + id)
    ensures var m := MatchUrlAt(line, i);
      m.Some? && m.value.idStart == i + |s + h + p| && i + |s + h + p + id| <= m.value.end
    ensures i + |s + h + p + id| == |line| || !IsIdChar(line[i + |s + h + p + id|]) ==>
      MatchUrlAt(line, i) == Some(UrlMatch(i, i + |s + h + p|, i + |s + h + p + id|))
  {
    var n := |s + h + p + id|;
    assert n < |line[i..]| ==> line[i..][n] == line[i + n];
    MatchUrlFinds(line[i..], s, h, p, id);
  }

  lemma VideoUrlTransfer(url: string, url': string, id: string, id': string)
    requires IsVideoUrl(url, id) && url == url' && id == id'
    ensures IsVideoUrl(url', id')
  {
  }

  /** Slices of the suffix line[i..] are slices of line, shifted by i. */
  lemma SuffixSlices(line: string, i: nat, x: nat, e: nat)
    requires i + x <= i + e <= |line|
    ensures line[i..][..e] == line[i..i + e]
    ensures line[i..][x..e] == line[i + x..i + e]
    ensures i + e < |line| ==> line[i..][e] == line[i + e]
  {
  }

  /** Gluing the pieces the matcher measured back together gives a video URL. */
  lemma UrlPieces(t: string, x1: nat, x2: nat, x3: nat, e: nat)
    requires x1 <= x2 <= x3 < e <= |t|
    requires IsScheme(t[..x1]) && IsHostPrefix(t[x1..x2]) && IsPathPrefix(t[x2..x3])
    requires forall k :: x3 <= k < e ==> IsIdChar(t[k])
    ensures IsVideoUrl(t[..e], t[x3..e])
  {
    Concat4(t, x1, x2, x3, e);
    assert forall k :: x3 <= k < e ==> t[x3..e][k - x3] == t[k];
    VideoUrlIntro(t[..x1], t[x1..x2], t[x2..x3], t[x3..e], t[..e]);
  }

  /** Four adjacent slices of t make up the prefix of t that they cover. */
  lemma Concat4(t: string, x1: nat, x2: nat, x3: nat, x4: nat)
    requires x1 <= x2 <= x3 <= x4 <= |t|
    ensures t[..x4] == t[..x1] + t[x1..x2] + t[x2..x3] + t[x3..x4]
  {
  }

  lemma VideoUrlIntro(s: string, h: string, p: string, id: string, url: string)
    requires IsScheme(s) && IsHostPrefix(h) && IsPathPrefix(p) && url == s + h + p + id
    requires id != [] && forall k :: 0 <= k < |id| ==> IsIdChar(id[k])
    ensures IsVideoUrl(url, id)
  {
  }

  /** The run RunLength measures from position k is made of id characters and is maximal. */
  lemma IdRun(line: string, k: nat)
    requires k <= |line|
    ensures var n := RunLength(line[k..], IsIdChar);
      && k + n <= |line|
      && (forall j :: k <= j < k + n ==> IsIdChar(line[j]))
      && (k + n == |line| || !IsIdChar(line[k + n]))
  {
    RunLengthCovers(line[k..], IsIdChar);
  }

  /** The start positions of line where the URL pattern matches. */
  function UrlFound(line: string): nat -> bool
  {
    (j: nat) => j <= |line| && MatchUrlAt(line, j).Some?
  }

  /** `re.search(url_pattern, line)`. */
  function SearchUrl(line: string): (r: Option<UrlMatch>)
    ensures r.Some? ==> r.value.start <= |line| && r == MatchUrlAt(line, r.value.start)
  {
    match Leftmost(|line|, 0, UrlFound(line))
    case None => None
    case Some(j) => MatchUrlAt(line, j)
  }

  /** The search returns the leftmost match, and no match only when no position matches. */
  lemma SearchUrlLeftmost(line: string)
    ensures SearchUrl(line).Some? ==> forall k :: 0 <= k < SearchUrl(line).value.start ==> MatchUrlAt(line, k).None?
    ensures SearchUrl(line).None? ==> forall j :: 0 <= j <= |line| ==> MatchUrlAt(line, j).None?
  {
    LeftmostSpec(|line|, 0, UrlFound(line));
    forall k | 0 <= k <= |line| && !UrlFound(line)(k)
      ensures MatchUrlAt(line, k).None?
    {
    }
  }

  // ---------------------------------------------------------------------------------------
  // The time pattern `(\d{1,2}:\d{2})`

  /** A match of the time pattern: minutes line[start..colon], seconds line[colon + 1..colon + 3]. */
  datatype TimeMatch = TimeMatch(start: nat, colon: nat)

  /** `\d{k}:\d{2}` at position i of line, for k minute digits. */
  ghost predicate IsTimeAt(line: string, i: nat, k: nat)
  {
    && 1 <= k <= 2 && i + k + 3 <= |line|
    && (forall j :: i <= j < i + k ==> IsDigit(line[j]))
    && line[i + k] == ':' && IsDigit(line[i + k + 1]) && IsDigit(line[i + k + 2])
  }

  /**
   * The match of the time pattern at position i. Two minute digits are tried first; backing off
   * to one digit cannot help then, since the colon would have to sit on the second digit.
   */
  function MatchTimeAt(line: string, i: nat): (m: Option<TimeMatch>)
    ensures m.Some? <==> IsTimeAt(line, i, 1) || IsTimeAt(line, i, 2)
    ensures m.Some? ==>
      && m.value.start == i && i + 1 <= m.value.colon <= i + 2
      && IsTimeAt(line, i, m.value.colon - i)
      && (m.value.colon == i + 2 <==> IsTimeAt(line, i, 2))
  {
    if i + 5 <= |line| && IsDigit(line[i]) && IsDigit(line[i + 1]) && line[i + 2] == ':'
       && IsDigit(line[i + 3]) && IsDigit(line[i + 4])
    then Some(TimeMatch(i, i + 2))
    else if i + 4 <= |line| && IsDigit(line[i]) && line[i + 1] == ':'
       && IsDigit(line[i + 2]) && IsDigit(line[i + 3])
    then Some(TimeMatch(i, i + 1))
    else None
  }

  /** The start positions of line where the time pattern matches. */
  function TimeFound(line: string): nat -> bool
  {
    (j: nat) => MatchTimeAt(line, j).Some?
  }

  /** `re.search(time_pattern, line)`. */
  function SearchTime(line: string): (r: Option<TimeMatch>)
    ensures r.Some? ==> r == MatchTimeAt(line, r.value.start)
  {
    match Leftmost(|line|, 0, TimeFound(line))
    case None => None
    case Some(j) => MatchTimeAt(line, j)
  }

  lemma SearchTimeLeftmost(line: string)
    ensures SearchTime(line).Some? ==> forall k :: 0 <= k < SearchTime(line).value.start ==> MatchTimeAt(line, k).None?
    ensures SearchTime(line).None? ==> forall j :: 0 <= j <= |line| ==> MatchTimeAt(line, j).None?
  {
    LeftmostSpec(|line|, 0, TimeFound(line));
    forall k | 0 <= k <= |line| && !TimeFound(line)(k)
      ensures MatchTimeAt(line, k).None?
    {
    }
  }

  /** `int(parts[0]) * 60 + int(parts[1])` for the matched `m:ss`; the seconds are not range-checked. */
  function Seconds(line: string, m: TimeMatch): nat
    requires m.start < m.colon && m.colon + 3 <= |line|
    requires forall k :: m.start <= k < m.colon ==> IsDigit(line[k])
    requires IsDigit(line[m.colon + 1]) && IsDigit(line[m.colon + 2])
  {
    ParseDigits(line[m.start..m.colon]) * 60 + ParseDigits(line[m.colon + 1..m.colon + 3])
  }

  /** The start time the line carries: the leftmost `d:dd` or `dd:dd`, in seconds; None when there is none. */
  function StartTime(line: string): (t: Option<nat>)
  {
    match SearchTime(line)
    case None => None
    case Some(m) => Some(Seconds(line, m))
  }

  /** The start time is taken from the leftmost time match, and is absent only when nothing matches. */
  lemma StartTimeLeftmost(line: string)
    ensures StartTime(line).None? <==> forall j :: 0 <= j <= |line| ==> MatchTimeAt(line, j).None?
    ensures StartTime(line).Some? ==>
      var m := SearchTime(line).value;
      && m == MatchTimeAt(line, m.start).value
      && StartTime(line).value == 60 * ParseDigits(line[m.start..m.colon]) + ParseDigits(line[m.colon + 1..m.colon + 3])
      && forall j :: 0 <= j < m.start ==> MatchTimeAt(line, j).None?
    ensures StartTime(line).None? <==> forall j: nat, k: nat :: !IsTimeAt(line, j, k)
    ensures StartTime(line).Some? ==>
      var m := SearchTime(line).value;
      && IsTimeAt(line, m.start, m.colon - m.start)
      && forall j: nat, k: nat :: j < m.start ==> !IsTimeAt(line, j, k)
  {
    SearchTimeLeftmost(line);
    if StartTime(line).None? {
      forall j: nat, k: nat ensures !IsTimeAt(line, j, k) {
        if j <= |line| {
          assert MatchTimeAt(line, j).None?;
        }
      }
    } else {
      var m := SearchTime(line).value;
      forall j: nat, k: nat | j < m.start ensures !IsTimeAt(line, j, k) {
        assert MatchTimeAt(line, j).None?;
      }
    }
  }

  /** Seconds past 59 are accepted as written: `1:75` is 135 seconds. */
  lemma SecondsNotRangeChecked()
    ensures StartTime("at 1:75") == Some(135)
  {
    var line := "at 1:75";
    assert MatchTimeAt(line, 0).None?;
    assert MatchTimeAt(line, 1).None?;
    assert MatchTimeAt(line, 2).None?;
    assert MatchTimeAt(line, 3) == Some(TimeMatch(3, 4));
    assert Leftmost(|line|, 0, TimeFound(line)) == Some(3);
    assert line[3..4] == ['1'];
    assert line[5..7] == ['7', '5'];
    assert ParseDigits(['7']) == 7;
  }

  // ---------------------------------------------------------------------------------------
  // parse_raw_list

  /** One element of the list handed to the downloader. */
  datatype Entry = Entry(url: string, id: string, startTime: Option<nat>, source: string)

  const MentorSource: string := "Mentor List"

  /** Lines 20-34 for one line of the file. */
  function ParseLine(raw: string): (e: Option<Entry>)
  {
    var line := Strip(raw);
    if line == [] then None
    else
      match SearchUrl(line)
      case None => None
      case Some(m) => Some(Entry(line[m.start..m.end], line[m.idStart..m.end], StartTime(line), MentorSource))
  }

  /**
   * A blank line gives no entry; any other line gives one exactly when the URL pattern matches
   * somewhere in it. The entry's URL and id are the text of the leftmost match and of its id
   * group, and they make a well-formed URL ending in that id.
   */
  lemma ParseLineSpec(raw: string)
    ensures Strip(raw) == [] ==> ParseLine(raw).None?
    ensures ParseLine(raw).Some? <==> exists j :: 0 <= j <= |Strip(raw)| && MatchUrlAt(Strip(raw), j).Some?
    ensures ParseLine(raw).Some? ==>
      var e := ParseLine(raw).value;
      && SearchUrl(Strip(raw)).Some?
      && var m := SearchUrl(Strip(raw)).value;
      && e.url == Strip(raw)[m.start..m.end]
      && e.id == Strip(raw)[m.idStart..m.end]
      && (forall k :: 0 <= k < m.start ==> MatchUrlAt(Strip(raw), k).None?)
      && IsVideoUrl(e.url, e.id)
      && e.startTime == StartTime(Strip(raw))
      && e.source == MentorSource
  {
    var line := Strip(raw);
    SearchUrlLeftmost(line);
    if SearchUrl(line).Some? {
      MatchIsVideoUrl(line, SearchUrl(line).value.start);
    }
  }

  /**
   * A line that contains a URL of the pattern yields an entry: the match the search finds starts
   * at that URL or further left.
   */
  lemma ParseLineFindsUrl(raw: string, i: nat, s: string, h: string, p: string, id: string)
    requires i <= |Strip(raw)|
    requires IsScheme(s) && IsHostPrefix(h) && IsPathPrefix(p)
    requires id != [] && forall k :: 0 <= k < |id| ==> IsIdChar(id[k])
    requires StartsWith(Strip(raw)[i..], s + h + p + id)
    ensures ParseLine(raw).Some?
    ensures SearchUrl(Strip(raw)).Some? && SearchUrl(Strip(raw)).value.start <= i
  {
    MatchUrlComplete(Strip(raw), i, s, h, p, id);
    ParseLineSpec(raw);
    SearchUrlLeftmost(Strip(raw));
  }

  /** The one-element list of a present value, the empty list otherwise. */
  function Present<U>(o: Option<U>): seq<U>
  {
    if o.Some? then [o.value] else []
  }

  /** `f` applied to each element in turn, keeping the results that are present. */
  function FilterMap<T, U>(xs: seq<T>, f: T -> Option<U>): (ys: seq<U>)
    ensures |ys| <= |xs|
  {
    if xs == [] then []
    else
      var n := |xs| - 1;
      FilterMap(xs[..n], f) + Present(f(xs[n]))
  }

  lemma FilterMapSnoc<T, U>(xs: seq<T>, x: T, f: T -> Option<U>)
    ensures FilterMap(xs + [x], f) == FilterMap(xs, f) + Present(f(x))
  {
    assert (xs + [x])[..|xs|] == xs;
  }

  lemma FilterMapPrefix<T, U>(xs: seq<T>, i: nat, f: T -> Option<U>)
    requires i < |xs|
    ensures FilterMap(xs[..i + 1], f) == FilterMap(xs[..i], f) + Present(f(xs[i]))
  {
    assert xs[..i + 1][..i] == xs[..i];
  }

  /** Elements are handled one at a time and in order: the results for a + b are those of a, then those of b. */
  lemma {:induction false} FilterMapAppend<T, U>(a: seq<T>, b: seq<T>, f: T -> Option<U>)
    ensures FilterMap(a + b, f) == FilterMap(a, f) + FilterMap(b, f)
    decreases |b|
  {
    if b == [] {
      assert a + b == a;
    } else {
      var n := |b| - 1;
      var last := Present(f(b[n]));
      assert a + b == (a + b[..n]) + [b[n]];
      FilterMapSnoc(a + b[..n], b[n], f);
      FilterMapSnoc(b[..n], b[n], f);
      assert b == b[..n] + [b[n]];
      FilterMapAppend(a, b[..n], f);
      assert FilterMap(a + b, f) == FilterMap(a, f) + FilterMap(b[..n], f) + last;
    }
  }

  /** A property every present result has holds of every element of the output. */
  lemma {:induction false} FilterMapAll<T, U>(xs: seq<T>, f: T -> Option<U>, P: U -> bool)
    requires forall k :: 0 <= k < |xs| && f(xs[k]).Some? ==> P(f(xs[k]).value)
    ensures forall j :: 0 <= j < |FilterMap(xs, f)| ==> P(FilterMap(xs, f)[j])
  {
    if xs != [] {
      var n := |xs| - 1;
      assert forall k :: 0 <= k < n ==> xs[..n][k] == xs[k];
      FilterMapAll(xs[..n], f, P);
    }
  }

  /** The entries of the given lines, in line order. */
  function ParsedLines(lines: seq<string>): seq<Entry>
  {
    FilterMap(lines, ParseLine)
  }

  /** Lines are parsed independently and in order: the entries of a + b are those of a, then those of b. */
  lemma ParsedLinesAppend(a: seq<string>, b: seq<string>)
    ensures ParsedLines(a + b) == ParsedLines(a) + ParsedLines(b)
  {
    FilterMapAppend(a, b, ParseLine);
  }

  /** Each line contributes at most one entry; every entry is a well-formed video URL from the mentor list. */
  lemma {:induction false} ParsedLinesEntries(lines: seq<string>)
    ensures |ParsedLines(lines)| <= |lines|
    ensures forall j :: 0 <= j < |ParsedLines(lines)| ==>
      IsVideoUrl(ParsedLines(lines)[j].url, ParsedLines(lines)[j].id) && ParsedLines(lines)[j].source == MentorSource
  {
    if lines != [] {
      var n := |lines| - 1;
      ParsedLinesEntries(lines[..n]);
      ParseLineSpec(lines[n]);
    }
  }

  /** Lines 20-34 for one raw line: the entry it yields, or None for a line that is skipped. */
  method ParseOne(raw: string) returns (e: Option<Entry>)
    ensures e == ParseLine(raw)
  {
    var line := Strip(raw);
    if line == [] {
      return None;
    }
    var urlMatch := SearchUrl(line);
    if urlMatch.None? {
      return None;
    }
    var m := urlMatch.value;
    var startTime := StartTime(line);
    e := Some(Entry(line[m.start..m.end], line[m.idStart..m.end], startTime, MentorSource));
  }

  /** `parse_raw_list` after the file has been read into lines: the loop of lines 19-35. */
  method ParseRawList(lines: seq<string>) returns (entries: seq<Entry>)
    ensures entries == ParsedLines(lines)
  {
    entries := [];
    var i := 0;
    while i < |lines|
      invariant 0 <= i <= |lines|
      invariant entries == ParsedLines(lines[..i])
    {
      FilterMapPrefix(lines, i, ParseLine);
      var e := ParseOne(lines[i]);
      if e.Some? {
        entries := entries + [e.value];
      }
      assert entries == ParsedLines(lines[..i]) + Present(e);
      i := i + 1;
    }
    assert lines[..i] == lines;
  }


  // ---------------------------------------------------------------------------------------
  // sanitize_filename

  /** The characters `[^\w\s-]` does not delete. */
  predicate KeptInName(c: char) { IsWordChar(c) || IsSpace(c) || c == '-' }

  /** A title with the unwanted characters deleted and the surrounding whitespace stripped. */
  function CleanTitle(name: string): string
  {
    Strip(Filter(name, KeptInName))
  }

  /**
   * `sanitize_filename`: delete everything but word characters, whitespace and `-`, strip, turn
   * each whitespace run into `_`; when nothing is left, fall back to the id with each run of
   * non-word characters turned into `_`.
   */
  function SanitizeFilename(name: string, fallbackId: string): string
  {
    var sanitized := ReplaceRuns(CleanTitle(name), IsSpace, '_');
    if sanitized == [] then ReplaceRuns(fallbackId, NotWordChar, '_') else sanitized
  }

  /**
   * A usable title gives a name of word characters and `-` only, which starts and ends with the
   * title's own first and last kept characters (never an `_` made from whitespace).
   */
  lemma SanitizedTitle(name: string, fallbackId: string)
    requires CleanTitle(name) != []
    ensures var r, t := SanitizeFilename(name, fallbackId), CleanTitle(name);
      && r == ReplaceRuns(t, IsSpace, '_')
      && (forall k :: 0 <= k < |r| ==> IsWordChar(r[k]) || r[k] == '-')
      && r[0] == t[0] && r[|r| - 1] == t[|t| - 1]
  {
    var t := CleanTitle(name);
    CleanTitleKept(name);
    ReplaceRunsPreserves(t, IsSpace, '_', KeptInName);
    ReplaceRunsEnds(t, IsSpace, '_');
  }

  /** Every character of the cleaned title is one the filter keeps. */
  lemma CleanTitleKept(name: string)
    ensures forall k :: 0 <= k < |CleanTitle(name)| ==> KeptInName(CleanTitle(name)[k])
  {
    var t := CleanTitle(name);
    var f := Filter(name, KeptInName);
    StripRemovesOnlySpace(f);
    var lo := RunLength(f, IsSpace);
    assert forall k :: 0 <= k < |t| ==> t[k] == f[lo + k];
  }

  /** A title with nothing usable falls back to the id, reduced to word characters. */
  lemma SanitizedFallback(name: string, fallbackId: string)
    requires CleanTitle(name) == []
    ensures var r := SanitizeFilename(name, fallbackId);
      && r == ReplaceRuns(fallbackId, NotWordChar, '_')
      && (forall k :: 0 <= k < |r| ==> IsWordChar(r[k]))
      && (r == [] <==> fallbackId == [])
  {
  }

  /** The result never holds whitespace. */
  lemma SanitizedHasNoSpace(name: string, fallbackId: string)
    ensures forall k :: 0 <= k < |SanitizeFilename(name, fallbackId)| ==> !IsSpace(SanitizeFilename(name, fallbackId)[k])
  {
    if CleanTitle(name) != [] {
      SanitizedTitle(name, fallbackId);
    }
  }

  /** Sanitising a sanitised name changes nothing. */
  lemma SanitizeIdempotent(name: string, fallbackId: string, otherId: string)
    requires SanitizeFilename(name, fallbackId) != []
    ensures SanitizeFilename(SanitizeFilename(name, fallbackId), otherId) == SanitizeFilename(name, fallbackId)
  {
    var r := SanitizeFilename(name, fallbackId);
    if CleanTitle(name) != [] {
      SanitizedTitle(name, fallbackId);
    }
    FilterKeepsClean(r, KeptInName);
    StripKeepsTrimmed(r);
    ReplaceRunsKeepsClean(r, IsSpace, '_');
  }

  // ---------------------------------------------------------------------------------------
  // download_batch

  /** What the metadata fetch reports: it raised, or it returned info with or without a title. */
  datatype InfoOutcome = InfoRaised | Info(title: Option<string>)

  /** The per-video download options that vary: the URL, the output template and the ffmpeg arguments. */
  datatype DownloadRequest = DownloadRequest(url: string, outputTemplate: string, postprocessorArgs: seq<string>)

  /** One catalogue record. */
  datatype CatalogEntry = CatalogEntry(id: string, title: string, category: string, filePath: string)

  /** `os.path.join(a, b)` on POSIX paths. */
  function JoinPath(a: string, b: string): string
  {
    if StartsWith(b, "/") then b
    else if a == [] || a[|a| - 1] == '/' then a + b
    else a + "/" + b
  }

  /**
   * The ffmpeg arguments: from a truthy start time, cut 180 s starting there; otherwise (no
   * start time, or 0) keep the first 300 s.
   */
  function PostprocessorArgs(startTime: Option<nat>): seq<string>
  {
    if startTime.Some? && startTime.value != 0 then ["-ss", NatToString(startTime.value), "-t", "180"]
    else ["-t", "300"]
  }

  /**
   * The arguments always end in a duration limit, 180 s after a seek and 300 s without one; a
   * seek appears exactly for a positive start time, and its argument reads back as that time.
   */
  lemma PostprocessorArgsSpec(startTime: Option<nat>)
    ensures var args := PostprocessorArgs(startTime);
      && |args| >= 2 && args[|args| - 2] == "-t"
      && (args[0] == "-ss" <==> startTime.Some? && startTime.value > 0)
      && (args[0] == "-ss" ==>
            && |args| == 4 && args[3] == "180"
            && (forall k :: 0 <= k < |args[1]| ==> IsDigit(args[1][k]))
            && ParseDigits(args[1]) == startTime.value)
      && (args[0] != "-ss" ==> args == ["-t", "300"])
  {
    if startTime.Some? && startTime.value != 0 {
      NatToStringRoundTrip(startTime.value);
    }
  }

  /** Lines 71-113 for an entry whose id has not been seen: the catalogue record, if the video was downloaded. */
  function Process(e: Entry, outputDir: string, fetch: string -> InfoOutcome, download: DownloadRequest -> bool): Option<CatalogEntry>
  {
    match fetch(e.url)
    case InfoRaised => None
    case Info(t) =>
      var title := t.GetOr("Unknown");
      var safeTitle := SanitizeFilename(title, e.id);
      var request := DownloadRequest(e.url, JoinPath(outputDir, safeTitle + ".%(ext)s"), PostprocessorArgs(e.startTime));
      if download(request) then Some(CatalogEntry(e.id, title, e.source, JoinPath(outputDir, safeTitle + ".wav")))
      else None
  }

  /**
   * The video is downloaded with the entry's URL, the template `output_dir/<sanitised title>.%(ext)s`
   * and the ffmpeg arguments of its start time; the entry has a record exactly when the metadata
   * fetch and that download both succeed. A record carries the entry's id and source, and its
   * file is named after the sanitised title.
   */
  lemma ProcessSpec(e: Entry, outputDir: string, fetch: string -> InfoOutcome, download: DownloadRequest -> bool)
    ensures var r := Process(e, outputDir, fetch, download);
      && (fetch(e.url).InfoRaised? ==> r.None?)
      && (r.Some? <==>
            && fetch(e.url).Info?
            && download(DownloadRequest(e.url,
                 JoinPath(outputDir, SanitizeFilename(fetch(e.url).title.GetOr("Unknown"), e.id) + ".%(ext)s"),
                 PostprocessorArgs(e.startTime))))
      && (r.Some? ==>
            && fetch(e.url).Info?
            && r.value.id == e.id && r.value.category == e.source
            && r.value.title == fetch(e.url).title.GetOr("Unknown")
            && r.value.filePath == JoinPath(outputDir, SanitizeFilename(r.value.title, e.id) + ".wav"))
  {
  }

  /** The ids of a list of entries. */
  function Ids(entries: seq<Entry>): set<string>
  {
    if entries == [] then {} else Ids(entries[..|entries| - 1]) + {entries[|entries| - 1].id}
  }

  /** An id is in Ids exactly when some entry carries it. */
  lemma {:induction false} IdsSpec(entries: seq<Entry>)
    ensures forall k :: 0 <= k < |entries| ==> entries[k].id in Ids(entries)
    ensures forall x :: x in Ids(entries) ==> exists k :: 0 <= k < |entries| && entries[k].id == x
  {
    if entries != [] {
      var n := |entries| - 1;
      IdsSpec(entries[..n]);
      assert forall k :: 0 <= k < n ==> entries[..n][k] == entries[k];
    }
  }

  /** The entries the loop gets past the seen-id check: the first occurrence of each id, in order. */
  function Dedup(entries: seq<Entry>): seq<Entry>
  {
    if entries == [] then []
    else
      var n := |entries| - 1;
      Dedup(entries[..n]) + (if entries[n].id in Ids(entries[..n]) then [] else [entries[n]])
  }

  /** One more entry adds its id, and is kept exactly when its id is new. */
  lemma DedupPrefix(entries: seq<Entry>, i: nat)
    requires i < |entries|
    ensures Ids(entries[..i + 1]) == Ids(entries[..i]) + {entries[i].id}
    ensures entries[i].id in Ids(entries[..i]) ==> Dedup(entries[..i + 1]) == Dedup(entries[..i])
    ensures entries[i].id !in Ids(entries[..i]) ==> Dedup(entries[..i + 1]) == Dedup(entries[..i]) + [entries[i]]
  {
    assert entries[..i + 1][..i] == entries[..i];
    assert Dedup(entries[..i]) + [] == Dedup(entries[..i]);
  }

  /** The de-duplicated entries come from the input and cover every id. */
  lemma {:induction false} DedupCovers(entries: seq<Entry>)
    ensures forall j :: 0 <= j < |Dedup(entries)| ==> Dedup(entries)[j] in entries
    ensures Ids(Dedup(entries)) == Ids(entries)
  {
    if entries != [] {
      var n := |entries| - 1;
      var prefix := entries[..n];
      DedupCovers(prefix);
      var d, dp := Dedup(entries), Dedup(prefix);
      assert Ids(entries) == Ids(prefix) + {entries[n].id};
      if entries[n].id !in Ids(prefix) {
        assert d == dp + [entries[n]];
        assert d[..|d| - 1] == dp;
        assert Ids(d) == Ids(dp) + {entries[n].id};
        forall j | 0 <= j < |d|
          ensures d[j] in entries
        {
          if j < |dp| {
            assert d[j] == dp[j] && dp[j] in prefix;
            var k :| 0 <= k < n && prefix[k] == dp[j];
            assert entries[k] == prefix[k];
          } else {
            assert d[j] == entries[n];
          }
        }
      } else {
        assert d == dp;
        forall j | 0 <= j < |d|
          ensures d[j] in entries
        {
          assert dp[j] in prefix;
          var k :| 0 <= k < n && prefix[k] == dp[j];
          assert entries[k] == prefix[k];
        }
      }
    }
  }

  /** The de-duplicated entries have pairwise distinct ids. */
  lemma {:induction false} DedupDistinct(entries: seq<Entry>)
    ensures forall i, j :: 0 <= i < j < |Dedup(entries)| ==> Dedup(entries)[i].id != Dedup(entries)[j].id
  {
    if entries != [] {
      var n := |entries| - 1;
      var prefix := entries[..n];
      DedupDistinct(prefix);
      if entries[n].id !in Ids(prefix) {
        DedupCovers(prefix);
        IdsSpec(Dedup(prefix));
      }
    }
  }

  /** The first occurrence of every id is kept: a later repeat never displaces it. */
  lemma {:induction false} DedupKeepsFirst(entries: seq<Entry>, k: nat)
    requires k < |entries|
    requires forall j :: 0 <= j < k ==> entries[j].id != entries[k].id
    ensures entries[k] in Dedup(entries)
  {
    var n := |entries| - 1;
    var prefix := entries[..n];
    if k < n {
      DedupKeepsFirst(prefix, k);
    } else {
      IdsSpec(prefix);
    }
  }

  /** The per-entry step with the session's output directory and oracles fixed. */
  function Processor(outputDir: string, fetch: string -> InfoOutcome, download: DownloadRequest -> bool): Entry -> Option<CatalogEntry>
  {
    e => Process(e, outputDir, fetch, download)
  }

  /** The catalogue built from entries that all get past the seen-id check, processed in order. */
  function Catalogue(entries: seq<Entry>, outputDir: string, fetch: string -> InfoOutcome, download: DownloadRequest -> bool): seq<CatalogEntry>
  {
    FilterMap(entries, Processor(outputDir, fetch, download))
  }

  /** The catalogue grows by the record of the last entry, if that entry is downloaded. */
  lemma CatalogueSnoc(entries: seq<Entry>, e: Entry, outputDir: string, fetch: string -> InfoOutcome, download: DownloadRequest -> bool)
    ensures Catalogue(entries + [e], outputDir, fetch, download)
      == Catalogue(entries, outputDir, fetch, download) + Present(Process(e, outputDir, fetch, download))
  {
    FilterMapSnoc(entries, e, Processor(outputDir, fetch, download));
  }

  /**
   * At most one record per entry; each record carries the id of one of the entries, and its file
   * path is the output directory joined with the sanitised title and `.wav`.
   */
  lemma CatalogueRecords(entries: seq<Entry>, outputDir: string, fetch: string -> InfoOutcome, download: DownloadRequest -> bool)
    ensures var c := Catalogue(entries, outputDir, fetch, download);
      && |c| <= |entries|
      && forall j :: 0 <= j < |c| ==>
           && c[j].id in Ids(entries)
           && c[j].filePath == JoinPath(outputDir, SanitizeFilename(c[j].title, c[j].id) + ".wav")
  {
    var f := Processor(outputDir, fetch, download);
    IdsSpec(entries);
    forall k | 0 <= k < |entries| && f(entries[k]).Some?
      ensures f(entries[k]).value.id in Ids(entries)
      ensures f(entries[k]).value.filePath == JoinPath(outputDir, SanitizeFilename(f(entries[k]).value.title, f(entries[k]).value.id) + ".wav")
    {
      ProcessSpec(entries[k], outputDir, fetch, download);
    }
    FilterMapAll(entries, f, (c: CatalogEntry) => c.id in Ids(entries) && c.filePath == JoinPath(outputDir, SanitizeFilename(c.title, c.id) + ".wav"));
  }

  /** Whether the metadata fetch and then the download of an entry's video both succeed. */
  predicate Downloaded(e: Entry, outputDir: string, fetch: string -> InfoOutcome, download: DownloadRequest -> bool)
  {
    && fetch(e.url).Info?
    && download(DownloadRequest(e.url,
         JoinPath(outputDir, SanitizeFilename(fetch(e.url).title.GetOr("Unknown"), e.id) + ".%(ext)s"),
         PostprocessorArgs(e.startTime)))
  }

  /** r is the record of one of the entries, and that entry's fetch and download both succeeded. */
  ghost predicate RecordOfDownloaded(entries: seq<Entry>, r: CatalogEntry, outputDir: string, fetch: string -> InfoOutcome, download: DownloadRequest -> bool)
  {
    exists k :: 0 <= k < |entries| && Downloaded(entries[k], outputDir, fetch, download) && Process(entries[k], outputDir, fetch, download) == Some(r)
  }

  /** Every element of FilterMap(xs, f) is the present result of f on some element of xs. */
  lemma {:induction false} FilterMapFrom<T, U>(xs: seq<T>, f: T -> Option<U>)
    ensures forall j :: 0 <= j < |FilterMap(xs, f)| ==> exists k :: 0 <= k < |xs| && f(xs[k]) == Some(FilterMap(xs, f)[j])
  {
    if xs != [] {
      var n := |xs| - 1;
      var ys, prev := FilterMap(xs, f), FilterMap(xs[..n], f);
      FilterMapFrom(xs[..n], f);
      assert ys == prev + Present(f(xs[n]));
      forall j | 0 <= j < |ys|
        ensures exists k :: 0 <= k < |xs| && f(xs[k]) == Some(ys[j])
      {
        if j < |prev| {
          var k :| 0 <= k < |xs[..n]| && f(xs[..n][k]) == Some(prev[j]);
          assert xs[k] == xs[..n][k] && ys[j] == prev[j];
          assert f(xs[k]) == Some(ys[j]);
        } else {
          assert ys[j] == Present(f(xs[n]))[j - |prev|];
          assert f(xs[n]) == Some(ys[j]);
        }
      }
    } else {
      assert FilterMap(xs, f) == [];
    }
  }

  /**
   * Only downloads that succeed are catalogued: every record is the record of one of the
   * entries, and that entry's fetch and download both succeeded.
   */
  lemma CatalogueOnlyDownloaded(entries: seq<Entry>, outputDir: string, fetch: string -> InfoOutcome, download: DownloadRequest -> bool)
    ensures var c := Catalogue(entries, outputDir, fetch, download);
      forall j :: 0 <= j < |c| ==>
        RecordOfDownloaded(entries, c[j], outputDir, fetch, download)
  {
    var f := Processor(outputDir, fetch, download);
    var c := Catalogue(entries, outputDir, fetch, download);
    assert c == FilterMap(entries, f);
    FilterMapFrom(entries, f);
    forall j | 0 <= j < |c|
      ensures RecordOfDownloaded(entries, c[j], outputDir, fetch, download)
    {
      var k :| 0 <= k < |entries| && f(entries[k]) == Some(c[j]);
      assert f(entries[k]) == Process(entries[k], outputDir, fetch, download);
      ProcessSpec(entries[k], outputDir, fetch, download);
      assert Downloaded(entries[k], outputDir, fetch, download);
    }
  }

  /** The same for the catalogue of the de-duplicated entries, traced back to the input entries. */
  lemma DedupCatalogueOnlyDownloaded(entries: seq<Entry>, c: seq<CatalogEntry>, outputDir: string, fetch: string -> InfoOutcome, download: DownloadRequest -> bool)
    requires c == Catalogue(Dedup(entries), outputDir, fetch, download)
    ensures forall j :: 0 <= j < |c| ==>
      RecordOfDownloaded(entries, c[j], outputDir, fetch, download)
  {
    var d := Dedup(entries);
    CatalogueOnlyDownloaded(d, outputDir, fetch, download);
    DedupCovers(entries);
    forall j | 0 <= j < |c|
      ensures RecordOfDownloaded(entries, c[j], outputDir, fetch, download)
    {
      assert RecordOfDownloaded(d, c[j], outputDir, fetch, download);
      var k :| 0 <= k < |d| && Downloaded(d[k], outputDir, fetch, download) && Process(d[k], outputDir, fetch, download) == Some(c[j]);
      assert d[k] in entries;
      var m :| 0 <= m < |entries| && entries[m] == d[k];
    }
  }

  /** An id none of whose entries is downloaded has no record. */
  lemma {:induction false} CatalogueOmits(entries: seq<Entry>, id: string, outputDir: string, fetch: string -> InfoOutcome, download: DownloadRequest -> bool)
    requires forall k :: 0 <= k < |entries| && entries[k].id == id ==> Process(entries[k], outputDir, fetch, download).None?
    ensures forall j :: 0 <= j < |Catalogue(entries, outputDir, fetch, download)| ==>
      Catalogue(entries, outputDir, fetch, download)[j].id != id
  {
    if entries != [] {
      var n := |entries| - 1;
      var prefix := entries[..n];
      assert forall k :: 0 <= k < n ==> prefix[k] == entries[k];
      CatalogueOmits(prefix, id, outputDir, fetch, download);
      assert entries == prefix + [entries[n]];
      CatalogueSnoc(prefix, entries[n], outputDir, fetch, download);
      ProcessSpec(entries[n], outputDir, fetch, download);
    }
  }


  /**
   * Lines 70-110 for one entry: fetch the title, download, and return the catalogue record when
   * the download succeeded.
   */
  method DownloadOne(entry: Entry, outputDir: string, fetch: string -> InfoOutcome, download: DownloadRequest -> bool)
    returns (record: Option<CatalogEntry>)
    ensures record.Some? <==>
      && fetch(entry.url).Info?
      && download(DownloadRequest(entry.url,
           JoinPath(outputDir, SanitizeFilename(fetch(entry.url).title.GetOr("Unknown"), entry.id) + ".%(ext)s"),
           PostprocessorArgs(entry.startTime)))
    ensures record.Some? ==>
      record.value == CatalogEntry(entry.id, fetch(entry.url).title.GetOr("Unknown"), entry.source,
        JoinPath(outputDir, SanitizeFilename(fetch(entry.url).title.GetOr("Unknown"), entry.id) + ".wav"))
    ensures record == Process(entry, outputDir, fetch, download)
  {
    var info := fetch(entry.url);
    if info.InfoRaised? {
      return None;
    }
    var title := info.title.GetOr("Unknown");
    var safeTitle := SanitizeFilename(title, entry.id);
    var request := DownloadRequest(entry.url, JoinPath(outputDir, safeTitle + ".%(ext)s"), PostprocessorArgs(entry.startTime));
    var downloaded := download(request);
    if downloaded {
      record := Some(CatalogEntry(entry.id, title, entry.source, JoinPath(outputDir, safeTitle + ".wav")));
    } else {
      record := None;
    }
  }

  /** `download_batch`: each id is processed once, the first occurrence winning, and only downloads that succeed are catalogued. */
  method DownloadBatch(entries: seq<Entry>, outputDir: string, fetch: string -> InfoOutcome, download: DownloadRequest -> bool)
    returns (catalog: seq<CatalogEntry>)
    ensures catalog == Catalogue(Dedup(entries), outputDir, fetch, download)
    ensures forall j :: 0 <= j < |catalog| ==>
      RecordOfDownloaded(entries, catalog[j], outputDir, fetch, download)
  {
    catalog := [];
    var seenIds: set<string> := {};
    var i := 0;
    while i < |entries|
      invariant 0 <= i <= |entries|
      invariant seenIds == Ids(entries[..i])
      invariant catalog == Catalogue(Dedup(entries[..i]), outputDir, fetch, download)
    {
      var entry := entries[i];
      DedupPrefix(entries, i);
      if entry.id in seenIds {
        i := i + 1;
        continue;
      }
      seenIds := seenIds + {entry.id};
      CatalogueSnoc(Dedup(entries[..i]), entry, outputDir, fetch, download);
      var record := DownloadOne(entry, outputDir, fetch, download);
      if record.Some? {
        catalog := catalog + [record.value];
      }
      i := i + 1;
    }
    assert entries[..i] == entries;
    DedupCatalogueOnlyDownloaded(entries, catalog, outputDir, fetch, download);
  }

  /**
   * An id is marked seen before its metadata is fetched, so when its first occurrence fails
   * (fetch or download) no later repeat of the id reaches the catalogue either.
   */
  lemma FailedFirstSuppressesRepeats(entries: seq<Entry>, k: nat, outputDir: string, fetch: string -> InfoOutcome, download: DownloadRequest -> bool)
    requires k < |entries|
    requires forall j :: 0 <= j < k ==> entries[j].id != entries[k].id
    requires Process(entries[k], outputDir, fetch, download).None?
    ensures forall j :: 0 <= j < |Catalogue(Dedup(entries), outputDir, fetch, download)| ==>
      Catalogue(Dedup(entries), outputDir, fetch, download)[j].id != entries[k].id
  {
    var d := Dedup(entries);
    DedupDistinct(entries);
    DedupKeepsFirst(entries, k);
    var i :| 0 <= i < |d| && d[i] == entries[k];
    assert forall kk :: 0 <= kk < |d| && d[kk].id == entries[k].id ==> kk == i;
    CatalogueOmits(d, entries[k].id, outputDir, fetch, download);
  }
}
