/**
 * The command-line front end (index.js): recognising the video, choosing the target
 * formats, and drawing one progress bar per format on its own terminal row.
 */
module Cli {
  import opened Wrappers
  import opened JsText
  import opened ProgressParse

  // ---------------------------------------------------------------------------
  // Video ids and URLs

  /** `[\w-]` */
  predicate IsIdChar(c: char) { IsWordChar(c) || c == '-' }

  /** `/^[\w-]{11}$/` */
  predicate IsVideoId(s: string) {
    |s| == 11 && forall k :: 0 <= k < |s| ==> IsIdChar(s[k])
  }

  /** `([\w-]{11})` at index `i`, with nothing required after it. */
  function IdAt(s: string, i: nat): (r: Option<string>)
    ensures r.Some? <==> i + 11 <= |s| && IsVideoId(s[i..i + 11])
    ensures r.Some? ==> r.value == s[i..i + 11]
  {
    if i + 11 <= |s| && IsVideoId(s[i..i + 11]) then Some(s[i..i + 11]) else None
  }

  /** An id written at position `|p|` is read back whatever surrounds it. */
  lemma IdAtReadsId(p: string, id: string, q: string)
    requires IsVideoId(id)
    ensures IdAt(p + id + q, |p|) == Some(id)
  {
    assert (p + id + q)[|p|..|p| + 11] == id;
  }

  /** The first alternative that matches, as a regular expression tries them. */
  function OrElse(first: Option<string>, second: Option<string>): Option<string> {
    if first.Some? then first else second
  }

  /** End of the run of characters `.` matches (all but line terminators), from `j`. */
  function DotEnd(s: string, j: nat): (e: nat)
    requires j <= |s|
    ensures j <= e <= |s| && (e < |s| ==> IsLineTerminator(s[e]))
    ensures forall k :: j <= k < e ==> !IsLineTerminator(s[k])
    decreases |s| - j
  {
    if j == |s| || IsLineTerminator(s[j]) then j else DotEnd(s, j + 1)
  }

  /** An `&` at `p` followed by `v=` and an 11-character id: where `.+&v=([\w-]{11})` can end its `.+`. */
  predicate AmpParam(s: string, p: nat) {
    p < |s| && s[p] == '&' && OccursAtIgnoreCase(s, "v=", p + 1) && IdAt(s, p + 3).Some?
  }

  /**
   * `.+&v=([\w-]{11})` after `watch?` at `j`, with `.+` giving back one character at a
   * time from its longest run: the `&` tried is at `a`, then at `a - 1`, down to `j + 1`.
   */
  function AmpSearch(s: string, j: nat, a: nat): (r: Option<string>)
    ensures r.Some? ==> exists p :: j + 1 <= p <= a && AmpParam(s, p) && r == IdAt(s, p + 3)
    decreases a
  {
    if a < j + 1 then None
    else if AmpParam(s, a) then IdAt(s, a + 3)
    else AmpSearch(s, j, a - 1)
  }

  /** The position of the last `&v=<id>` in `[j + 1, a]`, if there is one. */
  function LastAmp(s: string, j: nat, a: nat): (r: Option<nat>)
    ensures r.Some? ==> j + 1 <= r.value <= a && AmpParam(s, r.value)
                        && forall q :: r.value < q <= a ==> !AmpParam(s, q)
    ensures r.None? ==> forall q :: j + 1 <= q <= a ==> !AmpParam(s, q)
    decreases a
  {
    if a < j + 1 then None
    else if AmpParam(s, a) then Some(a)
    else LastAmp(s, j, a - 1)
  }

  /** The search yields the id after the last `&v=<id>` in its range, and nothing without one. */
  lemma {:induction false} AmpSearchIsLast(s: string, j: nat, a: nat)
    ensures LastAmp(s, j, a).None? ==> AmpSearch(s, j, a) == None
    ensures LastAmp(s, j, a).Some? ==> AmpSearch(s, j, a) == IdAt(s, LastAmp(s, j, a).value + 3)
    decreases a
  {
    if a >= j + 1 && !AmpParam(s, a) {
      AmpSearchIsLast(s, j, a - 1);
    }
  }

  /**
   * The search finds an id exactly when some `&v=<id>` lies in the range, and the id it
   * finds follows the last one.
   */
  lemma AmpSearchLast(s: string, j: nat, a: nat)
    ensures AmpSearch(s, j, a).Some? <==> exists p :: j + 1 <= p <= a && AmpParam(s, p)
    ensures AmpSearch(s, j, a).Some? ==>
      exists p :: j + 1 <= p <= a && AmpParam(s, p) && AmpSearch(s, j, a) == IdAt(s, p + 3)
               && forall q :: p < q <= a ==> !AmpParam(s, q)
  {
    AmpSearchIsLast(s, j, a);
    var last := LastAmp(s, j, a);
    if last.Some? {
      var p := last.value;
      assert j + 1 <= p <= a && AmpParam(s, p) && AmpSearch(s, j, a) == IdAt(s, p + 3);
    }
  }

  /** `(?:.+&)?v=([\w-]{11})` at `j`. */
  function WatchId(s: string, j: nat): Option<string> {
    var withAmp := if j <= |s| then AmpSearch(s, j, DotEnd(s, j)) else None;
    OrElse(withAmp, if OccursAtIgnoreCase(s, "v=", j) then IdAt(s, j + 2) else None)
  }

  /** `(?:watch\?(?:.+&)?v=|v\/|e(?:mbed)?\/)([\w-]{11})` at `j`. */
  function PathId(s: string, j: nat): Option<string> {
    OrElse(if OccursAtIgnoreCase(s, "watch?", j) then WatchId(s, j + 6) else None,
    OrElse(if OccursAtIgnoreCase(s, "v/", j) then IdAt(s, j + 2) else None,
    OrElse(if OccursAtIgnoreCase(s, "embed/", j) then IdAt(s, j + 6) else None,
           if OccursAtIgnoreCase(s, "e/", j) then IdAt(s, j + 2) else None)))
  }

  /** `(?:youtu\.be\/|(?:www\.|m\.)?youtube\.com\/...)([\w-]{11})` at `i`. */
  function HostId(s: string, i: nat): Option<string> {
    OrElse(if OccursAtIgnoreCase(s, "youtu.be/", i) then IdAt(s, i + 9) else None,
    OrElse(if OccursAtIgnoreCase(s, "www.youtube.com/", i) then PathId(s, i + 16) else None,
    OrElse(if OccursAtIgnoreCase(s, "m.youtube.com/", i) then PathId(s, i + 14) else None,
           if OccursAtIgnoreCase(s, "youtube.com/", i) then PathId(s, i + 12) else None)))
  }

  /** The scheme part `(?:(?:(?:h?ttps?)?:)?\/\/)?` in the order its alternatives are tried. */
  const Schemes: seq<string> := ["https://", "http://", "ttps://", "ttp://", "://", "//", ""]

  function FromScheme(s: string, schemes: seq<string>): Option<string> {
    if schemes == [] then None
    else OrElse(if OccursAtIgnoreCase(s, schemes[0], 0) then HostId(s, |schemes[0]|) else None,
                FromScheme(s, schemes[1..]))
  }

  /** `target.match(rxYtUrl)[1]`, absent when there is no match. */
  function MatchYtUrl(s: string): Option<string> {
    FromScheme(s, Schemes)
  }

  /** Whatever the URL pattern captures is itself a video id. */
  lemma {:induction false} MatchYtUrlIsId(s: string)
    ensures MatchYtUrl(s).Some? ==> IsVideoId(MatchYtUrl(s).value)
  {
    SchemeIsId(s, Schemes);
  }

  lemma {:induction false} SchemeIsId(s: string, schemes: seq<string>)
    ensures FromScheme(s, schemes).Some? ==> IsVideoId(FromScheme(s, schemes).value)
    decreases |schemes|
  {
    if schemes != [] {
      SchemeIsId(s, schemes[1..]);
      if OccursAtIgnoreCase(s, schemes[0], 0) {
        HostIsId(s, |schemes[0]|);
      }
    }
  }

  lemma HostIsId(s: string, i: nat)
    ensures HostId(s, i).Some? ==> IsVideoId(HostId(s, i).value)
  {
    PathIsId(s, i + 16);
    PathIsId(s, i + 14);
    PathIsId(s, i + 12);
  }

  lemma PathIsId(s: string, j: nat)
    ensures PathId(s, j).Some? ==> IsVideoId(PathId(s, j).value)
  {
    if j + 6 <= |s| {
      var e := DotEnd(s, j + 6);
      if AmpSearch(s, j + 6, e).Some? {
        var p :| j + 7 <= p <= e && AmpParam(s, p) && AmpSearch(s, j + 6, e) == IdAt(s, p + 3);
      }
    }
  }

  /** No line terminator from `j` on: `.` runs to the end. */
  lemma {:induction false} DotEndAll(s: string, j: nat)
    requires j <= |s|
    requires forall k :: j <= k < |s| ==> !IsLineTerminator(s[k])
    ensures DotEnd(s, j) == |s|
    decreases |s| - j
  {
    if j < |s| {
      DotEndAll(s, j + 1);
    }
  }

  /** No `&` between `j + 1` and `a`: the search finds nothing. */
  lemma {:induction false} AmpSearchNone(s: string, j: nat, a: nat)
    requires forall k :: j + 1 <= k <= a && k < |s| ==> s[k] != '&'
    ensures AmpSearch(s, j, a) == None
    decreases a
  {
    if a >= j + 1 {
      AmpSearchNone(s, j, a - 1);
    }
  }

  /** No `&` between `b + 1` and `a`: the search goes on from `b`. */
  lemma {:induction false} AmpSearchSkip(s: string, j: nat, a: nat, b: nat)
    requires j <= b <= a
    requires forall k :: b < k <= a && k < |s| ==> s[k] != '&'
    ensures AmpSearch(s, j, a) == AmpSearch(s, j, b)
    decreases a
  {
    if a > b {
      AmpSearchSkip(s, j, a - 1, b);
    }
  }

  // ---------------------------------------------------------------------------
  // The alternatives exclude each other: one literal decides which one applies

  /** A target starting with `y` has no scheme part. */
  lemma NoScheme(s: string)
    requires |s| > 0 && LowerAscii(s[0]) == 'y'
    ensures MatchYtUrl(s) == HostId(s, 0)
  {
    var schemes := Schemes;
    assert forall n :: 0 <= n < 6 ==> schemes[n][0] in "ht:/";
    assert forall n :: 0 <= n < 6 ==> !OccursAtIgnoreCase(s, schemes[n], 0) by {
      forall n | 0 <= n < 6 ensures !OccursAtIgnoreCase(s, schemes[n], 0) {
        assert LowerAscii(s[0]) != LowerAscii(schemes[n][0]);
      }
    }
    assert schemes[6..] == [""] && schemes[6] == "";
    assert FromScheme(s, [""]) == HostId(s, 0);
    assert FromScheme(s, schemes[5..]) == HostId(s, 0);
    assert FromScheme(s, schemes[4..]) == HostId(s, 0);
    assert FromScheme(s, schemes[3..]) == HostId(s, 0);
    assert FromScheme(s, schemes[2..]) == HostId(s, 0);
    assert FromScheme(s, schemes[1..]) == HostId(s, 0);
  }

  /** Behind `https://`, the host decides. */
  lemma HttpsScheme(s: string)
    requires OccursAtIgnoreCase(s, "https://", 0) && HostId(s, 8).Some?
    ensures MatchYtUrl(s) == HostId(s, 8)
  {
  }

  /** `www.youtube.com/` rules out the other hosts. */
  lemma WwwHost(s: string, i: nat)
    requires OccursAtIgnoreCase(s, "www.youtube.com/", i)
    ensures HostId(s, i) == PathId(s, i + 16)
  {
    assert LowerAscii(s[i]) == LowerAscii("www.youtube.com/"[0]);
    assert !OccursAtIgnoreCase(s, "youtu.be/", i) by { assert LowerAscii(s[i]) != LowerAscii("youtu.be/"[0]); }
    assert !OccursAtIgnoreCase(s, "m.youtube.com/", i) by { assert LowerAscii(s[i]) != LowerAscii("m.youtube.com/"[0]); }
    assert !OccursAtIgnoreCase(s, "youtube.com/", i) by { assert LowerAscii(s[i]) != LowerAscii("youtube.com/"[0]); }
  }

  /** `youtube.com/` with no subdomain rules out the other hosts. */
  lemma BareHost(s: string, i: nat)
    requires OccursAtIgnoreCase(s, "youtube.com/", i)
    ensures HostId(s, i) == PathId(s, i + 12)
  {
    assert LowerAscii(s[i]) == LowerAscii("youtube.com/"[0]);
    assert LowerAscii(s[i + 5]) == LowerAscii("youtube.com/"[5]);
    assert !OccursAtIgnoreCase(s, "youtu.be/", i) by { assert LowerAscii(s[i + 5]) != LowerAscii("youtu.be/"[5]); }
    assert !OccursAtIgnoreCase(s, "www.youtube.com/", i) by { assert LowerAscii(s[i]) != LowerAscii("www.youtube.com/"[0]); }
    assert !OccursAtIgnoreCase(s, "m.youtube.com/", i) by { assert LowerAscii(s[i]) != LowerAscii("m.youtube.com/"[0]); }
  }

  /** `watch?` rules out the other paths. */
  lemma WatchPath(s: string, j: nat)
    requires OccursAtIgnoreCase(s, "watch?", j)
    ensures PathId(s, j) == WatchId(s, j + 6)
  {
    assert LowerAscii(s[j]) == LowerAscii("watch?"[0]);
    assert !OccursAtIgnoreCase(s, "v/", j) by { assert LowerAscii(s[j]) != LowerAscii("v/"[0]); }
    assert !OccursAtIgnoreCase(s, "embed/", j) by { assert LowerAscii(s[j]) != LowerAscii("embed/"[0]); }
    assert !OccursAtIgnoreCase(s, "e/", j) by { assert LowerAscii(s[j]) != LowerAscii("e/"[0]); }
  }

  // ---------------------------------------------------------------------------
  // Every URL shape the pattern names

  /** The hosts of the `(?:www\.|m\.)?youtube\.com\/` alternative. */
  const YoutubeHosts: seq<string> := ["www.youtube.com/", "m.youtube.com/", "youtube.com/"]

  /** The paths `v\/` and `e(?:mbed)?\/` that the id follows directly. */
  const IdPaths: seq<string> := ["v/", "embed/", "e/"]

  /** One character that differs rules a literal out. */
  lemma Mismatch(s: string, pat: string, i: nat, k: nat)
    requires k < |pat| && i + k < |s| && LowerAscii(s[i + k]) != LowerAscii(pat[k])
    ensures !OccursAtIgnoreCase(s, pat, i)
  {
  }

  /** When the `n`th scheme is the first to occur, the alternatives before it give nothing. */
  lemma {:induction false} FromSchemeAt(s: string, schemes: seq<string>, n: nat)
    requires n < |schemes| && OccursAtIgnoreCase(s, schemes[n], 0)
    requires forall m :: 0 <= m < n ==> !OccursAtIgnoreCase(s, schemes[m], 0)
    ensures FromScheme(s, schemes) == OrElse(HostId(s, |schemes[n]|), FromScheme(s, schemes[n + 1..]))
    decreases n
  {
    if n > 0 {
      assert !OccursAtIgnoreCase(s, schemes[0], 0);
      var tail := schemes[1..];
      assert forall m :: 0 <= m < n - 1 ==> tail[m] == schemes[m + 1];
      FromSchemeAt(s, tail, n - 1);
      assert tail[n - 1 + 1..] == schemes[n + 1..];
    }
  }

  /** The first letter of every host the pattern names. */
  predicate HostInitial(c: char) { c == 'y' || c == 'w' || c == 'm' }

  /**
   * Any scheme of the pattern, followed by a host starting with `y`, `w` or `m`, hands the
   * match to the host part.
   */
  lemma SchemeDecides(s: string, scheme: string)
    requires scheme in Schemes && OccursAtIgnoreCase(s, scheme, 0)
    requires |scheme| < |s| && HostInitial(LowerAscii(s[|scheme|]))
    requires HostId(s, |scheme|).Some?
    ensures MatchYtUrl(s) == HostId(s, |scheme|)
  {
    var schemes := Schemes;
    var n :| 0 <= n < 7 && schemes[n] == scheme;
    EarlierSchemesAbsent(s, n);
    FromSchemeAt(s, schemes, n);
  }

  /** The host part after the scheme yields `v`: so does the whole pattern. */
  lemma SchemeGives(s: string, scheme: string, v: Option<string>)
    requires scheme in Schemes && OccursAtIgnoreCase(s, scheme, 0)
    requires |scheme| < |s| && HostInitial(LowerAscii(s[|scheme|]))
    requires HostId(s, |scheme|) == v && v.Some?
    ensures MatchYtUrl(s) == v
  {
    SchemeDecides(s, scheme);
  }

  /** The schemes tried before the one written do not occur. */
  lemma EarlierSchemesAbsent(s: string, n: nat)
    requires n < |Schemes| && OccursAtIgnoreCase(s, Schemes[n], 0)
    requires |Schemes[n]| < |s| && HostInitial(LowerAscii(s[|Schemes[n]|]))
    ensures forall m :: 0 <= m < n ==> !OccursAtIgnoreCase(s, Schemes[m], 0)
  {
    var schemes := Schemes;
    var scheme := schemes[n];
    if n < 6 {
      assert LowerAscii(s[0]) == LowerAscii(scheme[0]);
    }
    if n == 1 {
      assert LowerAscii(s[4]) == LowerAscii(scheme[4]);
      Mismatch(s, schemes[0], 0, 4);
    } else if n == 3 {
      assert LowerAscii(s[3]) == LowerAscii(scheme[3]);
      Mismatch(s, schemes[0], 0, 0);
      Mismatch(s, schemes[1], 0, 0);
      Mismatch(s, schemes[2], 0, 3);
    } else if n == 5 {
      Mismatch(s, schemes[4], 0, 0);
      forall m | 0 <= m < 4 ensures !OccursAtIgnoreCase(s, schemes[m], 0) {
        Mismatch(s, schemes[m], 0, 0);
      }
    } else {
      forall m | 0 <= m < n ensures !OccursAtIgnoreCase(s, schemes[m], 0) {
        Mismatch(s, schemes[m], 0, 0);
      }
    }
  }

  /** `m.youtube.com/` rules out the other hosts. */
  lemma MobileHost(s: string, i: nat)
    requires OccursAtIgnoreCase(s, "m.youtube.com/", i)
    ensures HostId(s, i) == PathId(s, i + 14)
  {
    assert LowerAscii(s[i]) == LowerAscii("m.youtube.com/"[0]);
    Mismatch(s, "youtu.be/", i, 0);
    Mismatch(s, "www.youtube.com/", i, 0);
    Mismatch(s, "youtube.com/", i, 0);
  }

  /** Each `youtube.com` host hands the match to the path part. */
  lemma HostDecides(s: string, i: nat, host: string)
    requires host in YoutubeHosts && OccursAtIgnoreCase(s, host, i)
    ensures HostId(s, i) == PathId(s, i + |host|)
  {
    if host == "www.youtube.com/" {
      WwwHost(s, i);
    } else if host == "m.youtube.com/" {
      MobileHost(s, i);
    } else {
      BareHost(s, i);
    }
  }

  /** Each of `v/`, `embed/` and `e/` is followed directly by the id. */
  lemma PathDecides(s: string, j: nat, path: string)
    requires path in IdPaths && OccursAtIgnoreCase(s, path, j)
    ensures PathId(s, j) == IdAt(s, j + |path|)
  {
    assert LowerAscii(s[j]) == LowerAscii(path[0]);
    assert LowerAscii(s[j + 1]) == LowerAscii(path[1]);
    Mismatch(s, "watch?", j, 0);
    if path == "v/" {
      Mismatch(s, "embed/", j, 0);
      Mismatch(s, "e/", j, 0);
    } else if path == "embed/" {
      Mismatch(s, "v/", j, 0);
      Mismatch(s, "e/", j, 1);
    } else {
      Mismatch(s, "v/", j, 0);
      Mismatch(s, "embed/", j, 1);
    }
  }

  /** The literals and the id of a URL written one after another occur where they were written. */
  lemma UrlParts(a: string, b: string, c: string, d: string, e: string)
    ensures var s := a + b + c + d + e;
            OccursAtIgnoreCase(s, a, 0) && OccursAtIgnoreCase(s, b, |a|)
            && OccursAtIgnoreCase(s, c, |a| + |b|)
            && s[|a| + |b| + |c|..|a| + |b| + |c| + |d|] == d
  {
    var s := a + b + c + d + e;
    forall k | 0 <= k < |a| ensures s[k] == a[k] { }
    forall k | 0 <= k < |b| ensures s[|a| + k] == b[k] { }
    forall k | 0 <= k < |c| ensures s[|a| + |b| + k] == c[k] { }
  }

  /** A host of the pattern, its path and an id after them: the host part captures the id. */
  lemma HostPartAt(s: string, i: nat, host: string, path: string, id: string)
    requires (host == "youtu.be/" && path == "") || (host in YoutubeHosts && path in IdPaths)
    requires OccursAtIgnoreCase(s, host, i) && OccursAtIgnoreCase(s, path, i + |host|)
    requires IdAt(s, i + |host| + |path|) == Some(id)
    ensures HostId(s, i) == Some(id) && HostInitial(LowerAscii(s[i]))
  {
    assert LowerAscii(s[i]) == LowerAscii(host[0]);
    if host == "youtu.be/" {
      assert |host| == 9 && |path| == 0;
    } else {
      var j := i + |host|;
      PathDecides(s, j, path);
      assert PathId(s, j) == Some(id);
      HostDecides(s, i, host);
      assert HostId(s, i) == PathId(s, j);
    }
  }

  /** A `youtube.com` host followed by `watch?` hands the match to the query part. */
  lemma HostWatch(s: string, i: nat, host: string)
    requires host in YoutubeHosts && OccursAtIgnoreCase(s, host, i)
    requires OccursAtIgnoreCase(s, "watch?", i + |host|)
    ensures HostId(s, i) == WatchId(s, i + |host| + 6) && HostInitial(LowerAscii(s[i]))
  {
    assert LowerAscii(s[i]) == LowerAscii(host[0]);
    if host == "www.youtube.com/" {
      assert |host| == 16;
      WatchPath(s, i + 16);
      WwwHost(s, i);
    } else if host == "m.youtube.com/" {
      assert |host| == 14;
      WatchPath(s, i + 14);
      MobileHost(s, i);
    } else {
      assert |host| == 12;
      WatchPath(s, i + 12);
      BareHost(s, i);
    }
  }

  /** Scheme, host, path and id found where they stand: the whole pattern captures the id. */
  lemma UrlAt(s: string, scheme: string, host: string, path: string, id: string)
    requires scheme in Schemes && OccursAtIgnoreCase(s, scheme, 0)
    requires (host == "youtu.be/" && path == "") || (host in YoutubeHosts && path in IdPaths)
    requires OccursAtIgnoreCase(s, host, |scheme|) && OccursAtIgnoreCase(s, path, |scheme| + |host|)
    requires IdAt(s, |scheme| + |host| + |path|) == Some(id)
    ensures MatchYtUrl(s) == Some(id)
  {
    HostPartAt(s, |scheme|, host, path, id);
    SchemeGives(s, scheme, Some(id));
  }

  /** Scheme, host and `watch?` found where they stand: the query part decides the match. */
  lemma WatchAt(s: string, scheme: string, host: string)
    requires scheme in Schemes && OccursAtIgnoreCase(s, scheme, 0)
    requires host in YoutubeHosts && OccursAtIgnoreCase(s, host, |scheme|)
    requires OccursAtIgnoreCase(s, "watch?", |scheme| + |host|)
    requires WatchId(s, |scheme| + |host| + 6).Some?
    ensures MatchYtUrl(s) == WatchId(s, |scheme| + |host| + 6)
  {
    HostWatch(s, |scheme|, host);
    SchemeGives(s, scheme, WatchId(s, |scheme| + |host| + 6));
  }

  /**
   * A scheme of the pattern (or none), then `youtu.be/`, or a `youtube.com` host with the
   * path `v/`, `embed/` or `e/`, then an id: the id is captured, whatever follows it.
   */
  lemma UrlRecognised(scheme: string, host: string, path: string, id: string, rest: string)
    requires scheme in Schemes && IsVideoId(id)
    requires (host == "youtu.be/" && path == "") || (host in YoutubeHosts && path in IdPaths)
    ensures MatchYtUrl(scheme + host + path + id + rest) == Some(id)
  {
    UrlParts(scheme, host, path, id, rest);
    UrlAt(scheme + host + path + id + rest, scheme, host, path, id);
  }

  /** Behind a scheme and a `youtube.com` host, `watch?` hands the match to its query part. */
  lemma WatchRecognised(scheme: string, host: string, query: string)
    requires scheme in Schemes && host in YoutubeHosts
    requires WatchId(scheme + host + "watch?" + query, |scheme| + |host| + 6).Some?
    ensures MatchYtUrl(scheme + host + "watch?" + query)
         == WatchId(scheme + host + "watch?" + query, |scheme| + |host| + 6)
  {
    UrlParts(scheme, host, "watch?", query, "");
    assert scheme + host + "watch?" + query + "" == scheme + host + "watch?" + query;
    WatchAt(scheme + host + "watch?" + query, scheme, host);
  }

  /** A literal made of two parts occurs as its first part followed by its second. */
  lemma OccursSplit(s: string, a: string, b: string, i: nat)
    requires OccursAtIgnoreCase(s, a + b, i)
    ensures OccursAtIgnoreCase(s, a, i) && OccursAtIgnoreCase(s, b, i + |a|)
  {
    forall k | 0 <= k < |a| ensures LowerAscii(s[i + k]) == LowerAscii(a[k]) {
      assert (a + b)[k] == a[k];
    }
    forall k | 0 <= k < |b| ensures LowerAscii(s[i + |a| + k]) == LowerAscii(b[k]) {
      assert (a + b)[|a| + k] == b[k];
    }
  }

  /** `v=<id>` at `j` and no `&v=<id>` after it: the query part yields that id. */
  lemma WatchIdFirst(s: string, j: nat, id: string)
    requires OccursAtIgnoreCase(s, "v=", j) && IdAt(s, j + 2) == Some(id)
    requires forall p :: j + 1 <= p < |s| ==> !AmpParam(s, p)
    ensures WatchId(s, j) == Some(id)
  {
    AmpSearchLast(s, j, DotEnd(s, j));
  }

  /** The last `&v=<id>` up to `a` is at `p`: the search yields its id. */
  lemma {:induction false} AmpSearchAt(s: string, j: nat, a: nat, p: nat)
    requires j + 1 <= p <= a && AmpParam(s, p)
    requires forall q :: p < q <= a ==> !AmpParam(s, q)
    ensures AmpSearch(s, j, a) == IdAt(s, p + 3)
    decreases a
  {
    if a > p {
      assert !AmpParam(s, a);
      AmpSearchAt(s, j, a - 1, p);
    }
  }

  /** The last `&v=<id>` of the line after `j` is at `p`: the query part yields its id. */
  lemma WatchIdLast(s: string, j: nat, p: nat)
    requires j <= |s| && j + 1 <= p <= DotEnd(s, j) && AmpParam(s, p)
    requires forall q :: p < q <= DotEnd(s, j) ==> !AmpParam(s, q)
    ensures WatchId(s, j) == IdAt(s, p + 3) && WatchId(s, j).Some?
  {
    AmpSearchAt(s, j, DotEnd(s, j), p);
  }

  /** `watch?v=<id>` with no `&v=<id>` after it: the first parameter is captured. */
  lemma WatchFirstParameter(scheme: string, host: string, id: string, rest: string)
    requires scheme in Schemes && host in YoutubeHosts && IsVideoId(id)
    requires var s := scheme + host + "watch?v=" + id + rest;
             forall p :: |scheme| + |host| + 7 <= p < |s| ==> !AmpParam(s, p)
    ensures MatchYtUrl(scheme + host + "watch?v=" + id + rest) == Some(id)
  {
    var s := scheme + host + "watch?v=" + id + rest;
    UrlParts(scheme, host, "watch?v=", id, rest);
    OccursSplit(s, "watch?", "v=", |scheme| + |host|);
    WatchFirstAt(s, scheme, host, id);
  }

  /** Scheme, host and `watch?v=<id>` where they stand, no `&v=<id>` after: the id is captured. */
  lemma WatchFirstAt(s: string, scheme: string, host: string, id: string)
    requires scheme in Schemes && OccursAtIgnoreCase(s, scheme, 0)
    requires host in YoutubeHosts && OccursAtIgnoreCase(s, host, |scheme|)
    requires OccursAtIgnoreCase(s, "watch?", |scheme| + |host|)
    requires OccursAtIgnoreCase(s, "v=", |scheme| + |host| + 6)
    requires IdAt(s, |scheme| + |host| + 8) == Some(id)
    requires forall p :: |scheme| + |host| + 7 <= p < |s| ==> !AmpParam(s, p)
    ensures MatchYtUrl(s) == Some(id)
  {
    WatchIdFirst(s, |scheme| + |host| + 6, id);
    WatchAt(s, scheme, host);
  }

  /** The `&v=<id>` at `p` is the last one on the line after `watch?`: its id is captured. */
  lemma WatchLastParameter(scheme: string, host: string, query: string, p: nat)
    requires scheme in Schemes && host in YoutubeHosts
    requires var s := scheme + host + "watch?" + query;
             var j := |scheme| + |host| + 6;
             j + 1 <= p <= DotEnd(s, j) && AmpParam(s, p)
             && forall q :: p < q <= DotEnd(s, j) ==> !AmpParam(s, q)
    ensures var s := scheme + host + "watch?" + query;
            MatchYtUrl(s) == IdAt(s, p + 3)
  {
    var s := scheme + host + "watch?" + query;
    UrlParts(scheme, host, "watch?", query, "");
    assert s + "" == s;
    WatchLastAt(s, scheme, host, p);
  }

  /** Scheme, host and `watch?` where they stand, and the last `&v=<id>` at `p`: its id is captured. */
  lemma WatchLastAt(s: string, scheme: string, host: string, p: nat)
    requires scheme in Schemes && OccursAtIgnoreCase(s, scheme, 0)
    requires host in YoutubeHosts && OccursAtIgnoreCase(s, host, |scheme|)
    requires OccursAtIgnoreCase(s, "watch?", |scheme| + |host|)
    requires var j := |scheme| + |host| + 6;
             j + 1 <= p <= DotEnd(s, j) && AmpParam(s, p)
             && forall q :: p < q <= DotEnd(s, j) ==> !AmpParam(s, q)
    ensures MatchYtUrl(s) == IdAt(s, p + 3)
  {
    WatchIdLast(s, |scheme| + |host| + 6, p);
    WatchAt(s, scheme, host);
  }

  // ---------------------------------------------------------------------------
  // Example URLs

  /** `https://youtu.be/<id>`, followed by anything. */
  lemma ShortUrl(id: string, rest: string, scheme: string, host: string)
    requires IsVideoId(id) && scheme == "https://" && host == "youtu.be/"
    ensures MatchYtUrl(scheme + host + id + rest) == Some(id)
  {
    var s := scheme + host + id + rest;
    assert OccursAtIgnoreCase(s, "https://", 0);
    assert OccursAtIgnoreCase(s, "youtu.be/", 8);
    assert s[17..28] == id;
  }

  /** `https://www.youtube.com/watch?v=<id>`, with no `&` after it. */
  lemma WatchUrl(id: string, rest: string, scheme: string, host: string, path: string)
    requires IsVideoId(id) && scheme == "https://" && host == "www.youtube.com/" && path == "watch?v="
    requires forall k :: 0 <= k < |rest| ==> rest[k] != '&'
    ensures MatchYtUrl(scheme + host + path + id + rest) == Some(id)
  {
    var front := scheme + host + path;
    var s := front + id + rest;
    assert s == scheme + host + path + id + rest;
    assert |front| == 32 && s[31] == front[31] == '=';
    assert s[32..43] == id;
    assert forall k :: 31 <= k < |s| ==> s[k] != '&' by {
      forall k | 32 <= k < |s| ensures s[k] != '&' {
        if k < 43 { assert s[k] == id[k - 32]; } else { assert s[k] == rest[k - 43]; }
      }
    }
    assert OccursAtIgnoreCase(s, "v=", 30);
    assert OccursAtIgnoreCase(s, "watch?", 24);
    assert OccursAtIgnoreCase(s, "www.youtube.com/", 8);
    assert OccursAtIgnoreCase(s, "https://", 0);
    HttpsWatch(s, id);
  }

  /** `https://www.youtube.com/watch?v=` followed by an id at index 32 and no `&` after `v`. */
  lemma HttpsWatch(s: string, id: string)
    requires |s| >= 43 && IsVideoId(id) && s[32..43] == id
    requires forall k :: 31 <= k < |s| ==> s[k] != '&'
    requires OccursAtIgnoreCase(s, "v=", 30) && OccursAtIgnoreCase(s, "watch?", 24)
    requires OccursAtIgnoreCase(s, "www.youtube.com/", 8) && OccursAtIgnoreCase(s, "https://", 0)
    ensures MatchYtUrl(s) == Some(id)
  {
    AmpSearchNone(s, 30, DotEnd(s, 30));
    assert WatchId(s, 30) == Some(id);
    WatchPath(s, 24);
    WwwHost(s, 8);
    HttpsScheme(s);
  }

  /** With two `v=` parameters, the one after the last `&` wins. */
  lemma LastParameterWins(first: string, second: string, host: string, path: string, amp: string)
    requires IsVideoId(first) && IsVideoId(second)
    requires host == "youtube.com/" && path == "watch?v=" && amp == "&v="
    ensures MatchYtUrl(host + path + first + amp + second) == Some(second)
  {
    var front := host + path + first;
    var s := front + amp + second;
    assert s == host + path + first + amp + second;
    assert |front| == 31 && |s| == 45;
    assert s[31] == amp[0] && s[32] == amp[1] && s[33] == amp[2];
    assert s[34..45] == second;
    assert forall k :: 34 <= k < 45 ==> s[k] == second[k - 34];
    assert forall k :: 20 <= k < 31 ==> s[k] == first[k - 20];
    assert forall k :: 0 <= k < |s| ==> !IsLineTerminator(s[k]) by {
      forall k | 0 <= k < |s| ensures !IsLineTerminator(s[k]) {
        if 20 <= k < 31 { assert IsIdChar(first[k - 20]); }
        else if 34 <= k { assert IsIdChar(second[k - 34]); }
      }
    }
    assert OccursAtIgnoreCase(s, "watch?", 12);
    assert OccursAtIgnoreCase(s, "youtube.com/", 0);
    BareWatchAfterAmp(s, second);
  }

  /** `youtube.com/watch?` with an 11-character parameter after a final `&v=` at index 31. */
  lemma BareWatchAfterAmp(s: string, second: string)
    requires |s| == 45 && IsVideoId(second) && s[34..45] == second
    requires forall k :: 0 <= k < |s| ==> !IsLineTerminator(s[k])
    requires forall k :: 34 <= k < 45 ==> s[k] == second[k - 34]
    requires s[31] == '&' && s[32] == 'v' && s[33] == '='
    requires OccursAtIgnoreCase(s, "watch?", 12) && OccursAtIgnoreCase(s, "youtube.com/", 0)
    ensures MatchYtUrl(s) == Some(second)
  {
    AfterLastAmp(s, second);
    BareWatch(s, second);
  }

  /** The `&` at index 31 is the last one, and an id follows its `v=`. */
  lemma AfterLastAmp(s: string, second: string)
    requires |s| == 45 && IsVideoId(second) && s[34..45] == second
    requires forall k :: 0 <= k < |s| ==> !IsLineTerminator(s[k])
    requires forall k :: 34 <= k < 45 ==> s[k] == second[k - 34]
    requires s[31] == '&' && s[32] == 'v' && s[33] == '='
    ensures WatchId(s, 18) == Some(second)
  {
    AmpVAt(s, 31, second);
    DotEndAll(s, 18);
    AmpSearchSkip(s, 18, 45, 31);
  }

  /** `&v=` at `p`, followed by an id. */
  lemma AmpVAt(s: string, p: nat, id: string)
    requires p + 14 <= |s| && IsVideoId(id) && s[p + 3..p + 14] == id
    requires s[p] == '&' && s[p + 1] == 'v' && s[p + 2] == '='
    ensures AmpParam(s, p) && IdAt(s, p + 3) == Some(id)
  {
    assert OccursAtIgnoreCase(s, "v=", p + 1);
  }

  /** `youtube.com/watch?` at the start: the id is the one the query part yields. */
  lemma BareWatch(s: string, id: string)
    requires WatchId(s, 18) == Some(id)
    requires OccursAtIgnoreCase(s, "watch?", 12) && OccursAtIgnoreCase(s, "youtube.com/", 0)
    ensures MatchYtUrl(s) == Some(id)
  {
    WatchPath(s, 12);
    BareHost(s, 0);
    assert LowerAscii(s[0]) == LowerAscii("youtube.com/"[0]);
    NoScheme(s);
  }

  // ---------------------------------------------------------------------------
  // The command line

  /** What `download()` does with its arguments before starting the downloader. */
  datatype Command =
    | Start(videoId: string, outputDir: string, targetFormats: seq<string>)
    | Exit(code: int)
    | Crash

  /** The `switch (format)` of index.js:39-56; absent for an unknown format. */
  function TargetFormats(format: string): (r: Option<seq<string>>)
    ensures r.Some? <==> format == "mp4" || format == "webm" || format == "both"
    ensures r.Some? ==> forall f :: f in r.value <==> if format == "both" then f == "mp4" || f == "webm" else f == format
    ensures format == "mp4" ==> r == Some(["mp4"])
    ensures format == "webm" ==> r == Some(["webm"])
    ensures format == "both" ==> r == Some(["mp4", "webm"])
    ensures r.Some? ==> forall a, b :: 0 <= a < b < |r.value| ==> r.value[a] != r.value[b]
  {
    match format
    case "mp4" => Some(["mp4"])
    case "webm" => Some(["webm"])
    case "both" => Some(["mp4", "webm"])
    case _ => None
  }

  /** `value || fallback` for an optional string argument. */
  function OrDefault(arg: Option<string>, fallback: string): string {
    if arg.Some? && arg.value != "" then arg.value else fallback
  }

  /** index.js:14-56 for `process.argv[2..4]` and the working directory. */
  function CommandLine(target: Option<string>, outputArg: Option<string>, formatArg: Option<string>, cwd: string): (r: Command)
    ensures target.None? <==> r.Crash?
    ensures r.Start? ==> IsVideoId(r.videoId) && r.outputDir == OrDefault(outputArg, cwd)
    ensures r.Start? && target.Some? && IsVideoId(target.value) ==> r.videoId == target.value
    ensures r == Exit(1) <==> target.Some? && !IsVideoId(target.value) && MatchYtUrl(target.value).None?
    ensures r == Exit(2) <==>
      target.Some? && (IsVideoId(target.value) || MatchYtUrl(target.value).Some?)
      && TargetFormats(OrDefault(formatArg, "both")).None?
    ensures r != Exit(10)
    ensures r.Start? <==>
      target.Some? && (IsVideoId(target.value) || MatchYtUrl(target.value).Some?)
      && TargetFormats(OrDefault(formatArg, "both")).Some?
    ensures r.Start? ==> r.targetFormats == TargetFormats(OrDefault(formatArg, "both")).value
    ensures r.Start? && !IsVideoId(target.value) ==> r.videoId == MatchYtUrl(target.value).value
  {
    match target
    case None => Crash
    case Some(t) =>
      var outputDir := OrDefault(outputArg, cwd);
      var format := OrDefault(formatArg, "both");
      MatchYtUrlIsId(t);
      var videoId :=
        if IsVideoId(t) then Some(t) else MatchYtUrl(t);
      if videoId.None? then Exit(1)
      else if !IsVideoId(videoId.value) then Exit(10)
      else match TargetFormats(format)
        case None => Exit(2)
        case Some(formats) => Start(videoId.value, outputDir, formats)
  }

  /** The exit-10 re-check never fires: every captured id already satisfies the id pattern. */
  lemma RegexErrorUnreachable(t: string)
    requires !IsVideoId(t) && MatchYtUrl(t).Some?
    ensures IsVideoId(MatchYtUrl(t).value)
  {
    MatchYtUrlIsId(t);
  }

  // ---------------------------------------------------------------------------
  // The progress bar

  const BarWidth := 70

  /** `Math.round(x)`: the nearest integer, halves rounded up. */
  function Round(x: real): (n: int)
    ensures n as real - 0.5 <= x < n as real + 0.5
  {
    (x + 0.5).Floor
  }

  /** `'#'.repeat(size) + ' '.repeat(70 - size)` between brackets. */
  function Bar(size: nat): (r: string)
    requires size <= BarWidth
    ensures |r| == BarWidth + 2 && r[0] == '[' && r[BarWidth + 1] == ']'
    ensures forall k :: 1 <= k <= BarWidth ==> (r[k] == '#' <==> k <= size) && (r[k] == ' ' <==> k > size)
  {
    ['['] + seq(size, _ => '#') + seq(BarWidth - size, _ => ' ') + [']']
  }

  /**
   * The text `writeProgressBar` writes; absent where `repeat` throws a `RangeError`
   * (a negative or infinite count). NaN repeats nothing.
   */
  function ProgressBar(progress: Progress): (r: Option<string>)
    ensures r.Some? <==> progress.NaN? || (progress.Ratio? && -1.0 / 140.0 <= progress.value < 141.0 / 140.0)
    ensures progress.NaN? ==> r == Some("[]")
    ensures progress.Ratio? && r.Some? ==> r == Some(Bar(Round(70.0 * progress.value)))
  {
    match progress
    case NaN => Some("[]")
    case PlusInfinity => None
    case MinusInfinity => None
    case Ratio(p) =>
      var size := Round(BarWidth as real * p);
      if 0 <= size <= BarWidth then Some(Bar(size)) else None
  }

  /** For progress in [0, 1] the bar is 72 characters and no `#` follows a space. */
  lemma BarShape(p: real)
    requires 0.0 <= p <= 1.0
    ensures ProgressBar(Ratio(p)).Some?
    ensures var r := ProgressBar(Ratio(p)).value;
      |r| == 72 && forall i, j :: 0 <= i < j < |r| && r[i] == ' ' ==> r[j] != '#'
  {
  }

  /** More progress never empties a cell of the bar. */
  lemma BarMonotone(p: real, q: real)
    requires -1.0 / 140.0 <= p <= q < 141.0 / 140.0
    ensures var a, b := ProgressBar(Ratio(p)).value, ProgressBar(Ratio(q)).value;
      forall k :: 0 <= k < 72 && a[k] == '#' ==> b[k] == '#'
  {
    var m, n := Round(70.0 * p), Round(70.0 * q);
    assert m <= n;
  }

  // ---------------------------------------------------------------------------
  // Rows and columns

  /** The longest name, 0 for none. */
  function MaxLength(names: seq<string>): (m: nat)
    ensures forall k :: 0 <= k < |names| ==> |names[k]| <= m
    ensures |names| > 0 ==> exists k :: 0 <= k < |names| && |names[k]| == m
    ensures |names| == 0 ==> m == 0
  {
    if names == [] then 0
    else
      var n := |names| - 1;
      var m := MaxLength(names[..n]);
      if |names[n]| > m then |names[n]| else
        assert n > 0 ==> names[..n][0] == names[0];
        m
  }

  /**
   * The first loop over the emitters (index.js:73-81): each format gets the next row, and
   * the bars start one column after the longest format name.
   */
  method Layout(names: seq<string>) returns (x: int, y: int, idToY: map<string, int>)
    requires forall i, j :: 0 <= i < j < |names| ==> names[i] != names[j]
    ensures y == |names| && x == MaxLength(names) + 1
    ensures forall name :: name in idToY <==> name in names
    ensures forall k :: 0 <= k < |names| ==> idToY[names[k]] == k
    ensures forall name :: name in idToY ==> -y <= idToY[name] - y <= -1
  {
    idToY := map[];
    x := 0;
    y := 0;
    var i := 0;
    while i < |names|
      invariant i <= |names| && y == i
      invariant x == MaxLength(names[..i])
      invariant forall name :: name in idToY ==> name in names[..i]
      invariant forall k :: 0 <= k < i ==> names[k] in idToY && idToY[names[k]] == k
      invariant forall name :: name in idToY ==> 0 <= idToY[name] < y
    {
      MaxLengthStep(names, i);
      RowStep(names, i, idToY, idToY[names[i] := y]);
      x := if x < |names[i]| then |names[i]| else x;
      idToY := idToY[names[i] := y];
      y := y + 1;
      i := i + 1;
    }
    assert names[..i] == names;
    x := x + 1;
  }

  /** Giving the next name the next row keeps the rows of the names so far. */
  lemma RowStep(names: seq<string>, i: nat, rows: map<string, int>, rows': map<string, int>)
    requires i < |names| && forall a, b :: 0 <= a < b < |names| ==> names[a] != names[b]
    requires rows' == rows[names[i] := i]
    requires forall name :: name in rows ==> name in names[..i]
    requires forall k :: 0 <= k < i ==> names[k] in rows && rows[names[k]] == k
    requires forall name :: name in rows ==> 0 <= rows[name] < i
    ensures forall name :: name in rows' ==> name in names[..i + 1]
    ensures forall k :: 0 <= k < i + 1 ==> names[k] in rows' && rows'[names[k]] == k
    ensures forall name :: name in rows' ==> 0 <= rows'[name] < i + 1
  {
    assert names[..i + 1] == names[..i] + [names[i]];
  }

  /** One more name raises the longest length to at least its own. */
  lemma MaxLengthStep(names: seq<string>, i: nat)
    requires i < |names|
    ensures MaxLength(names[..i + 1]) == if MaxLength(names[..i]) < |names[i]| then |names[i]| else MaxLength(names[..i])
  {
    assert names[..i + 1][..i] == names[..i];
  }
}
