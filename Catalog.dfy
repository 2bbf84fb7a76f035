/**
 * The format catalog (downloader.js:256-269): `adaptive_fmts` is cut at commas, each piece
 * is decoded into a format object, its MIME `type` is parsed into track type, container
 * format and codec, and the objects are grouped as `fmts[format][type]` in catalog order.
 */
module Catalog {
  import opened Wrappers
  import opened JsText

  // ---------------------------------------------------------------------------
  // `String.prototype.split` with a one-character separator

  /** Index of the first `c` in `s`, or `|s|` when there is none. */
  function FirstIndexOf(s: string, c: char): (i: nat)
    ensures i <= |s| && c !in s[..i]
    ensures i < |s| ==> s[i] == c
  {
    if s == [] then 0
    else if s[0] == c then 0
    else
      var i := 1 + FirstIndexOf(s[1..], c);
      assert s[..i] == [s[0]] + s[1..][..i - 1];
      i
  }

  /** The first `c` is the only index with no `c` before it and `c` at it. */
  lemma FirstIndexAt(s: string, c: char, i: nat)
    requires i <= |s| && c !in s[..i] && (i < |s| ==> s[i] == c)
    ensures FirstIndexOf(s, c) == i
  {
  }

  /** `s.split(c)`: the texts between the separators, at least one of them. */
  function SplitOn(s: string, c: char): (r: seq<string>)
    ensures |r| >= 1
    ensures forall k :: 0 <= k < |r| ==> c !in r[k]
    decreases |s|
  {
    var i := FirstIndexOf(s, c);
    if i == |s| then [s] else [s[..i]] + SplitOn(s[i + 1..], c)
  }

  /** `pieces.join(c)` */
  function Join(pieces: seq<string>, c: char): string
    requires |pieces| >= 1
  {
    if |pieces| == 1 then pieces[0] else pieces[0] + [c] + Join(pieces[1..], c)
  }

  /** Joining the pieces of a split gives the text back. */
  lemma {:induction false} JoinSplit(s: string, c: char)
    ensures Join(SplitOn(s, c), c) == s
    decreases |s|
  {
    var i := FirstIndexOf(s, c);
    if i < |s| {
      var rest := SplitOn(s[i + 1..], c);
      JoinSplit(s[i + 1..], c);
      assert SplitOn(s, c) == [s[..i]] + rest;
      assert ([s[..i]] + rest)[1..] == rest;
      assert s == s[..i] + [c] + s[i + 1..];
    }
  }

  /** Splitting pieces joined by a separator none of them holds gives the pieces back. */
  lemma {:induction false} SplitJoin(pieces: seq<string>, c: char)
    requires |pieces| >= 1 && forall k :: 0 <= k < |pieces| ==> c !in pieces[k]
    ensures SplitOn(Join(pieces, c), c) == pieces
    decreases |pieces|
  {
    var p := pieces[0];
    if |pieces| == 1 {
      SplitWhole(p, c);
    } else {
      var rest := Join(pieces[1..], c);
      assert Join(pieces, c) == p + [c] + rest;
      SplitFirst(p, c, rest);
      SplitJoin(pieces[1..], c);
      assert pieces == [p] + pieces[1..];
    }
  }

  /** A text without the separator splits into itself. */
  lemma SplitWhole(p: string, c: char)
    requires c !in p
    ensures SplitOn(p, c) == [p]
  {
    assert p[..|p|] == p;
    FirstIndexAt(p, c, |p|);
  }

  /** The first separator after a separator-free text ends the first piece. */
  lemma SplitFirst(p: string, c: char, rest: string)
    requires c !in p
    ensures SplitOn(p + [c] + rest, c) == [p] + SplitOn(rest, c)
  {
    var s := p + [c] + rest;
    assert s[..|p|] == p && s[|p|] == c && s[|p| + 1..] == rest;
    FirstIndexAt(s, c, |p|);
  }

  // ---------------------------------------------------------------------------
  // The MIME type pattern `^\s*(\w+)\/(\w+)(?:;\s*codecs=["']([^"']+)["'])?\s*$` (flag i)

  /** End of the run of `\w` characters that starts at `i`. */
  function WordEnd(s: string, i: nat): (j: nat)
    requires i <= |s|
    ensures i <= j <= |s|
    ensures forall k :: i <= k < j ==> IsWordChar(s[k])
    ensures j < |s| ==> !IsWordChar(s[j])
    decreases |s| - i
  {
    if i < |s| && IsWordChar(s[i]) then WordEnd(s, i + 1) else i
  }

  predicate IsQuote(c: char) { c == '"' || c == '\'' }

  /** End of the run of `[^"']` characters that starts at `i`. */
  function QuoteFreeEnd(s: string, i: nat): (j: nat)
    requires i <= |s|
    ensures i <= j <= |s|
    ensures forall k :: i <= k < j ==> !IsQuote(s[k])
    ensures j < |s| ==> IsQuote(s[j])
    decreases |s| - i
  {
    if i < |s| && !IsQuote(s[i]) then QuoteFreeEnd(s, i + 1) else i
  }

  /** The three capture groups: track type, container format and the optional codec. */
  datatype Mime = Mime(trackType: string, format: string, codec: Option<string>)

  /** What the three groups can hold: word characters, and a codec free of quotes. */
  predicate WellFormed(m: Mime) {
    |m.trackType| > 0 && AllWordChars(m.trackType) && |m.format| > 0 && AllWordChars(m.format)
    && (m.codec.Some? ==> |m.codec.value| > 0 && forall k :: 0 <= k < |m.codec.value| ==> !IsQuote(m.codec.value[k]))
  }

  /** `codecs=` at `p`, letters in either case. */
  predicate CodecsAt(t: string, p: nat) {
    p + 7 <= |t| && LowerAscii(t[p]) == 'c' && LowerAscii(t[p + 1]) == 'o' && LowerAscii(t[p + 2]) == 'd'
    && LowerAscii(t[p + 3]) == 'e' && LowerAscii(t[p + 4]) == 'c' && LowerAscii(t[p + 5]) == 's' && t[p + 6] == '='
  }

  /**
   * The optional `;\s*codecs=["']([^"']+)["']` group followed by `\s*$`, tried at `k`;
   * `codecs=` is matched without regard to case and the two quotes need not agree.
   */
  function CodecGroup(t: string, k: nat): (r: Option<string>)
    requires k <= |t|
    ensures r.Some? ==> |r.value| > 0 && forall i :: 0 <= i < |r.value| ==> !IsQuote(r.value[i])
  {
    if k < |t| && t[k] == ';' then
      var p := SkipSpaces(t, k + 1);
      var q := p + 7;
      if CodecsAt(t, p) && q < |t| && IsQuote(t[q]) then
        var e := QuoteFreeEnd(t, q + 1);
        if e > q + 1 && e < |t| && SkipSpaces(t, e + 1) == |t| then Some(t[q + 1..e]) else None
      else None
    else None
  }

  /** `type.match(...)`: the capture groups, or absent for `null`. */
  function ParseMime(t: string): (r: Option<Mime>)
    ensures r.Some? ==> WellFormed(r.value)
  {
    var i := SkipSpaces(t, 0);
    var j := WordEnd(t, i);
    if j == i || j == |t| || t[j] != '/' then None
    else
      var k := WordEnd(t, j + 1);
      if k == j + 1 then None
      else
        var codec := CodecGroup(t, k);
        if codec.Some? then Some(Mime(t[i..j], t[j + 1..k], codec))
        else if SkipSpaces(t, k) == |t| then Some(Mime(t[i..j], t[j + 1..k], None))
        else None
  }

  /** The text a catalog entry carries for a MIME value, `video/mp4; codecs="avc1.4d401f"`. */
  function MimeText(m: Mime): string {
    m.trackType + "/" + m.format + (if m.codec.Some? then "; codecs=\"" + m.codec.value + "\"" else "")
  }

  /** Parsing the text of a well-formed MIME value gives the value back. */
  lemma ParseMimeText(m: Mime)
    requires WellFormed(m)
    ensures ParseMime(MimeText(m)) == Some(m)
  {
    var t := MimeText(m);
    var a, k := |m.trackType|, |m.trackType| + 1 + |m.format|;
    var rest := if m.codec.Some? then "; codecs=\"" + m.codec.value + "\"" else "";
    assert t == m.trackType + "/" + m.format + rest;
    assert t[..a] == m.trackType && t[a] == '/' && t[a + 1..k] == m.format && t[k..] == rest;
    MimeWords(t, a, k);
    ParseMimeAt(t, a, k);
    if m.codec.None? {
      assert CodecGroup(t, k).None?;
    } else {
      CodecGroupText(t, k, m.codec.value);
    }
  }

  /** Word characters, `/`, word characters and then `;` or the end: the two runs end where expected. */
  lemma MimeWords(t: string, a: nat, k: nat)
    requires 0 < a && a + 1 < k <= |t|
    requires AllWordChars(t[..a]) && t[a] == '/' && AllWordChars(t[a + 1..k]) && (k < |t| ==> t[k] == ';')
    ensures SkipSpaces(t, 0) == 0 && WordEnd(t, 0) == a && WordEnd(t, a + 1) == k
  {
    forall i | 0 <= i < a ensures IsWordChar(t[i]) { assert t[i] == t[..a][i]; }
    forall i | a + 1 <= i < k ensures IsWordChar(t[i]) { assert t[i] == t[a + 1..k][i - a - 1]; }
    assert SkipSpaces(t, 0) == 0 by { assert IsWordChar(t[0]); }
    WordEndAt(t, 0, a);
    WordEndAt(t, a + 1, k);
  }

  /** Once the two words are located, the parse depends only on what follows the second. */
  lemma ParseMimeAt(t: string, a: nat, k: nat)
    requires 0 < a && a + 1 < k <= |t|
    requires SkipSpaces(t, 0) == 0 && WordEnd(t, 0) == a && t[a] == '/' && WordEnd(t, a + 1) == k
    ensures ParseMime(t) == (if CodecGroup(t, k).Some? then Some(Mime(t[..a], t[a + 1..k], CodecGroup(t, k)))
                             else if SkipSpaces(t, k) == |t| then Some(Mime(t[..a], t[a + 1..k], None)) else None)
  {
    assert t[0..a] == t[..a];
  }

  lemma CodecGroupText(t: string, k: nat, c: string)
    requires k <= |t| && |c| > 0 && forall i :: 0 <= i < |c| ==> !IsQuote(c[i])
    requires t[k..] == "; codecs=\"" + c + "\""
    ensures CodecGroup(t, k) == Some(c)
  {
    var tail := t[k..];
    assert forall i :: 0 <= i < |tail| ==> t[k + i] == tail[i];
    assert SkipSpaces(t, k + 1) == k + 2 by {
      assert IsSpace(t[k + 1]) && !IsSpace(t[k + 2]);
    }
    assert CodecsAt(t, k + 2);
    var q := k + 9;
    assert t[q] == '"';
    assert forall i :: 0 <= i < |c| ==> t[q + 1 + i] == c[i];
    QuoteFreeEndAt(t, q + 1, q + 1 + |c|);
    assert t[q + 1..q + 1 + |c|] == c;
  }

  lemma {:induction false} WordEndAt(s: string, i: nat, j: nat)
    requires i <= j <= |s| && forall k :: i <= k < j ==> IsWordChar(s[k])
    requires j < |s| ==> !IsWordChar(s[j])
    ensures WordEnd(s, i) == j
    decreases j - i
  {
    if i < j { WordEndAt(s, i + 1, j); }
  }

  lemma {:induction false} QuoteFreeEndAt(s: string, i: nat, j: nat)
    requires i <= j <= |s| && forall k :: i <= k < j ==> !IsQuote(s[k])
    requires j < |s| ==> IsQuote(s[j])
    ensures QuoteFreeEnd(s, i) == j
    decreases j - i
  {
    if i < j { QuoteFreeEndAt(s, i + 1, j); }
  }

  // ---------------------------------------------------------------------------
  // Grouping

  /** The fields of a decoded `adaptive_fmts` piece that the downloader reads. */
  datatype FmtObj = FmtObj(mimeType: Option<string>, bitrate: Option<string>, url: Option<string>)

  /** A format object with the parsed codec added (`fmtObj.codec = codec`). */
  datatype Source = Source(fmt: FmtObj, codec: Option<string>)

  /** One catalog piece, classified. */
  datatype Entry = Entry(format: string, trackType: string, source: Source)

  /** `fmts`: container format, then track type, then the sources in catalog order. */
  type Fmts = map<string, map<string, seq<Source>>>

  /** The piece classified, or absent where the source throws: no `type`, or a `type` the pattern rejects. */
  function EntryOf(o: FmtObj): (r: Option<Entry>)
    ensures r.Some? <==> o.mimeType.Some? && ParseMime(o.mimeType.value).Some?
    ensures r.Some? ==> var m := ParseMime(o.mimeType.value).value;
      r.value == Entry(m.format, m.trackType, Source(o, m.codec))
  {
    if o.mimeType.None? then None
    else match ParseMime(o.mimeType.value)
      case None => None
      case Some(m) => Some(Entry(m.format, m.trackType, Source(o, m.codec)))
  }

  /** A piece whose `type` is the text of a well-formed MIME value is classified by that value. */
  lemma EntryOfText(o: FmtObj, m: Mime)
    requires WellFormed(m) && o.mimeType == Some(MimeText(m))
    ensures EntryOf(o) == Some(Entry(m.format, m.trackType, Source(o, m.codec)))
  {
    ParseMimeText(m);
  }

  /** Each piece decoded and classified, in catalog order. */
  function Classified(pieces: seq<string>, decode: string -> FmtObj): (r: seq<Option<Entry>>)
    ensures |r| == |pieces|
  {
    seq(|pieces|, k requires 0 <= k < |pieces| => EntryOf(decode(pieces[k])))
  }

  /** The classified entries, absent as soon as one of them is. */
  function Collect(os: seq<Option<Entry>>): (r: Option<seq<Entry>>)
    ensures r.Some? ==> |r.value| == |os|
  {
    if os == [] then Some([])
    else
      var n := |os| - 1;
      var prefix := Collect(os[..n]);
      if prefix.None? || os[n].None? then None else Some(prefix.value + [os[n].value])
  }

  /** The pieces decoded and classified in order, absent as soon as one of them throws. */
  function EntriesOf(pieces: seq<string>, decode: string -> FmtObj): (r: Option<seq<Entry>>)
    ensures r.Some? ==> |r.value| == |pieces|
  {
    Collect(Classified(pieces, decode))
  }

  lemma ClassifiedAt(pieces: seq<string>, decode: string -> FmtObj, k: nat)
    requires k < |pieces|
    ensures Classified(pieces, decode)[k] == EntryOf(decode(pieces[k]))
  {
  }

  lemma {:induction false} CollectAll(os: seq<Option<Entry>>)
    ensures Collect(os).Some? <==> forall k :: 0 <= k < |os| ==> os[k].Some?
    ensures Collect(os).Some? ==> forall k :: 0 <= k < |os| ==> Collect(os).value[k] == os[k].value
  {
    if os != [] {
      var n := |os| - 1;
      var prefix := os[..n];
      CollectAll(prefix);
      assert forall k :: 0 <= k < n ==> prefix[k] == os[k];
      if Collect(os).Some? {
        var es := Collect(prefix).value;
        assert Collect(os).value == es + [os[n].value];
      } else if Collect(prefix).None? {
        var k :| 0 <= k < n && prefix[k].None?;
        assert os[k].None?;
      }
    }
  }

  /** The entries exist exactly when every piece classifies, and then they are the pieces' entries in order. */
  lemma EntriesOfAll(pieces: seq<string>, decode: string -> FmtObj)
    ensures EntriesOf(pieces, decode).Some? <==> forall k :: 0 <= k < |pieces| ==> EntryOf(decode(pieces[k])).Some?
    ensures EntriesOf(pieces, decode).Some? ==>
      forall k :: 0 <= k < |pieces| ==> EntriesOf(pieces, decode).value[k] == EntryOf(decode(pieces[k])).value
  {
    var os := Classified(pieces, decode);
    CollectAll(os);
    forall k | 0 <= k < |pieces| ensures os[k] == EntryOf(decode(pieces[k])) {
      ClassifiedAt(pieces, decode, k);
    }
  }

  /** `fmts[format][type]`, empty when either key is missing. */
  function Bucket(fmts: Fmts, format: string, trackType: string): seq<Source> {
    if format in fmts && trackType in fmts[format] then fmts[format][trackType] else []
  }

  /** One step of the grouping loop: create the levels that are missing, then push. */
  function Add(fmts: Fmts, e: Entry): Fmts {
    var inner := if e.format in fmts then fmts[e.format] else map[];
    fmts[e.format := inner[e.trackType := Bucket(fmts, e.format, e.trackType) + [e.source]]]
  }

  /** `fmts` after the loop has run over `es`. */
  function Group(es: seq<Entry>): Fmts {
    if es == [] then map[] else Add(Group(es[..|es| - 1]), es[|es| - 1])
  }

  /** The sources of the entries of one format and track type, in order. */
  function Matching(es: seq<Entry>, format: string, trackType: string): seq<Source> {
    if es == [] then []
    else
      var e := es[|es| - 1];
      Matching(es[..|es| - 1], format, trackType) + (if e.format == format && e.trackType == trackType then [e.source] else [])
  }

  /** Every bucket is the in-order list of the entries with its format and track type. */
  lemma {:induction false} GroupBuckets(es: seq<Entry>, format: string, trackType: string)
    ensures Bucket(Group(es), format, trackType) == Matching(es, format, trackType)
  {
    if es != [] {
      GroupBuckets(es[..|es| - 1], format, trackType);
    }
  }

  /** A format, and a track type under it, is a key exactly when some entry carries it. */
  lemma GroupKeys(es: seq<Entry>)
    ensures forall f :: f in Group(es) <==> exists k :: 0 <= k < |es| && es[k].format == f
    ensures forall f, ty :: f in Group(es) && ty in Group(es)[f] <==>
      exists k :: 0 <= k < |es| && es[k].format == f && es[k].trackType == ty
  {
    GroupFormats(es);
    GroupTypes(es);
  }

  lemma {:induction false} GroupFormats(es: seq<Entry>)
    ensures forall f :: f in Group(es) <==> exists k :: 0 <= k < |es| && es[k].format == f
  {
    if es != [] {
      var n := |es| - 1;
      GroupFormats(es[..n]);
      forall f ensures f in Group(es) <==> exists k :: 0 <= k < |es| && es[k].format == f {
        if f in Group(es) && f != es[n].format {
          assert f in Group(es[..n]);
          var k :| 0 <= k < n && es[..n][k].format == f;
          assert es[k].format == f;
        }
        if exists k :: 0 <= k < |es| && es[k].format == f {
          var k :| 0 <= k < |es| && es[k].format == f;
          if k < n { assert es[..n][k].format == f; }
        }
      }
    }
  }

  lemma {:induction false} GroupTypes(es: seq<Entry>)
    ensures forall f, ty :: f in Group(es) && ty in Group(es)[f] ==>
      exists k :: 0 <= k < |es| && es[k].format == f && es[k].trackType == ty
    ensures forall k :: 0 <= k < |es| ==> es[k].format in Group(es) && es[k].trackType in Group(es)[es[k].format]
  {
    if es != [] {
      var n := |es| - 1;
      var e := es[n];
      var before := Group(es[..n]);
      assert Group(es) == Add(before, e);
      GroupTypes(es[..n]);
      forall f, ty | f in Group(es) && ty in Group(es)[f]
        ensures exists k :: 0 <= k < |es| && es[k].format == f && es[k].trackType == ty
      {
        AddTypes(before, e, f, ty);
        if f in before && ty in before[f] {
          var k :| 0 <= k < n && es[..n][k].format == f && es[..n][k].trackType == ty;
          assert es[k].format == f && es[k].trackType == ty;
        } else {
          assert es[n].format == f && es[n].trackType == ty;
        }
      }
      forall k | 0 <= k < |es| ensures es[k].format in Group(es) && es[k].trackType in Group(es)[es[k].format] {
        AddTypes(before, e, es[k].format, es[k].trackType);
        if k < n {
          assert es[..n][k] == es[k];
        }
      }
    }
  }

  /** A step of the loop adds exactly the entry's format and track type to the keys. */
  lemma AddTypes(fmts: Fmts, e: Entry, f: string, ty: string)
    ensures f in Add(fmts, e) && ty in Add(fmts, e)[f] <==>
      (f in fmts && ty in fmts[f]) || (f == e.format && ty == e.trackType)
  {
  }

  /** `fmts` for a whole `adaptive_fmts` string, absent when the grouping throws. */
  function CatalogOf(adaptiveFmts: string, decode: string -> FmtObj): Option<Fmts> {
    match EntriesOf(SplitOn(adaptiveFmts, ','), decode)
    case None => None
    case Some(es) => Some(Group(es))
  }

  /**
   * The grouping loop (downloader.js:257-269), with `querystring.parse` as `decode`;
   * absent when a piece has no `type` or one the MIME pattern rejects.
   */
  method GroupCatalog(adaptiveFmts: string, decode: string -> FmtObj) returns (r: Option<Fmts>)
    ensures r == CatalogOf(adaptiveFmts, decode)
  {
    var pieces := SplitOn(adaptiveFmts, ',');
    var fmts: Fmts := map[];
    ghost var os := Classified(pieces, decode);
    ghost var es: seq<Entry> := [];
    var i := 0;
    while i < |pieces|
      invariant i <= |pieces|
      invariant Collect(os[..i]) == Some(es)
      invariant fmts == Group(es)
    {
      var fmtObj := decode(pieces[i]);
      var parsed := ClassifyPiece(fmtObj);
      ClassifiedAt(pieces, decode, i);
      if parsed.None? {
        NoneStops(os, i);
        return None;
      }
      CollectStep(os, i, parsed.value);
      GroupSnoc(es, parsed.value);
      fmts := Push(fmts, parsed.value);
      es := es + [parsed.value];
      i := i + 1;
    }
    GroupedAll(adaptiveFmts, decode, os, es);
    r := Some(fmts);
  }

  /** Once every piece has been classified, the loop's `fmts` is the catalog. */
  lemma GroupedAll(adaptiveFmts: string, decode: string -> FmtObj, os: seq<Option<Entry>>, es: seq<Entry>)
    requires os == Classified(SplitOn(adaptiveFmts, ','), decode)
    requires Collect(os[..|os|]) == Some(es)
    ensures CatalogOf(adaptiveFmts, decode) == Some(Group(es))
  {
    assert os[..|os|] == os;
  }

  /** `fmtObj.type.match(...)` and the codec added to the object: the entry, or absent where the source throws. */
  method ClassifyPiece(fmtObj: FmtObj) returns (r: Option<Entry>)
    ensures r == EntryOf(fmtObj)
  {
    if fmtObj.mimeType.None? {
      return None;
    }
    var parsedType := ParseMime(fmtObj.mimeType.value);
    if parsedType.None? {
      return None;
    }
    var trackType, format, codec := parsedType.value.trackType, parsedType.value.format, parsedType.value.codec;
    r := Some(Entry(format, trackType, Source(fmtObj, codec)));
  }

  /** `if (!fmts[format]) ...; if (!fmts[format][type]) ...; fmts[format][type].push(fmtObj)` (downloader.js:263-268) */
  method Push(fmts: Fmts, e: Entry) returns (r: Fmts)
    ensures r == Add(fmts, e)
  {
    ghost var inner := if e.format in fmts then fmts[e.format] else map[];
    ghost var bucket := Bucket(fmts, e.format, e.trackType);
    r := fmts;
    if e.format !in r {
      r := r[e.format := map[]];
    }
    if e.trackType !in r[e.format] {
      r := r[e.format := r[e.format][e.trackType := []]];
    }
    assert r[e.format][e.trackType] == bucket;
    assert r[e.format] == inner[e.trackType := bucket];
    r := r[e.format := r[e.format][e.trackType := r[e.format][e.trackType] + [e.source]]];
    assert r[e.format] == inner[e.trackType := bucket + [e.source]];
    assert r.Keys == Add(fmts, e).Keys;
  }

  /** Classifying one more piece appends its entry. */
  lemma CollectStep(os: seq<Option<Entry>>, i: nat, e: Entry)
    requires i < |os| && Collect(os[..i]).Some? && os[i] == Some(e)
    ensures Collect(os[..i + 1]) == Some(Collect(os[..i]).value + [e])
  {
    assert os[..i + 1][..i] == os[..i];
  }

  /** Grouping one more entry is one more step of the loop. */
  lemma GroupSnoc(es: seq<Entry>, e: Entry)
    ensures Group(es + [e]) == Add(Group(es), e)
  {
    assert (es + [e])[..|es|] == es;
  }

  /** A piece that throws makes the whole catalog absent. */
  lemma NoEntryStops(pieces: seq<string>, decode: string -> FmtObj, i: nat)
    requires i < |pieces| && EntryOf(decode(pieces[i])).None?
    ensures EntriesOf(pieces, decode).None?
  {
    ClassifiedAt(pieces, decode, i);
    NoneStops(Classified(pieces, decode), i);
  }

  lemma {:induction false} NoneStops(os: seq<Option<Entry>>, i: nat)
    requires i < |os| && os[i].None?
    ensures Collect(os).None?
    decreases |os|
  {
    var n := |os| - 1;
    if i < n {
      assert os[..n][i] == os[i];
      NoneStops(os[..n], i);
    }
  }
}
