/** Deriving a result's link and patent identifier: resolving a relative
    `href` against the patents host, the main path's regular-expression
    search for the identifier, and the fallback path's `split`-based one. */
module Links {
  import opened Strings

  const PatentsOrigin: string := "https://patents.google.com"
  const PatentMarker: string := "/patent/"

  /** `urljoin("https://patents.google.com", href) if href.startswith("/") else href`,
      for an `href` whose leading `/` starts an absolute path. */
  function ResolveLink(href: string): (link: string)
    ensures link == [] <==> href == []
    ensures StartsWith(href, "/") ==> StartsWith(link, PatentsOrigin + "/") && link[|PatentsOrigin|..] == href
    ensures !StartsWith(href, "/") ==> link == href
  {
    if StartsWith(href, "/") then PatentsOrigin + href else href
  }

  // ---------------------------------------------------- main path: re.search

  /** `[A-Z0-9]` */
  predicate IsIdChar(c: char) {
    IsUpper(c) || IsDigit(c)
  }

  /** The whole of `^[A-Z]{2}\d+[A-Z0-9]*$`. */
  predicate IsPatentId(id: string) {
    && |id| >= 3
    && IsUpper(id[0]) && IsUpper(id[1]) && IsDigit(id[2])
    && forall k :: 2 <= k < |id| ==> IsIdChar(id[k])
  }

  /** End of the longest run of `[A-Z0-9]` that starts at `i`. */
  function IdRunEnd(s: string, i: nat): (e: nat)
    requires i <= |s|
    ensures i <= e <= |s|
    ensures forall k :: i <= k < e ==> IsIdChar(s[k])
    ensures e == |s| || !IsIdChar(s[e])
    decreases |s| - i
  {
    if i < |s| && IsIdChar(s[i]) then IdRunEnd(s, i + 1) else i
  }

  /** `/patent/([A-Z]{2}\d+[A-Z0-9]*)` matches starting at index `p`. */
  predicate IdMatchAt(s: string, p: int) {
    OccursAt(s, PatentMarker, p) && p + 11 <= |s|
    && IsUpper(s[p + 8]) && IsUpper(s[p + 9]) && IsDigit(s[p + 10])
  }

  /** The leftmost match at or after `from`, as `re.search` finds it. */
  function FirstIdMatch(s: string, from: nat): (r: Option<nat>)
    ensures r.Some? ==> from <= r.value && IdMatchAt(s, r.value)
    ensures forall p :: from <= p && (r.None? || p < r.value) ==> !IdMatchAt(s, p)
    decreases |s| - from
  {
    if from + 11 > |s| then None
    else if IdMatchAt(s, from) then Some(from)
    else FirstIdMatch(s, from + 1)
  }

  /** Group 1 of the match at `p`: two letters, then the greedy `\d+[A-Z0-9]*`,
      which together take the longest `[A-Z0-9]` run after the letters. */
  function IdAt(s: string, p: nat): string
    requires IdMatchAt(s, p)
  {
    s[p + 8..IdRunEnd(s, p + 10)]
  }

  /** `m.group(1) if m else ""` with `m = re.search(r"/patent/([A-Z]{2}\d+[A-Z0-9]*)", link)`. */
  function PatentId(link: string): (id: string)
    ensures id == [] <==> forall p :: !IdMatchAt(link, p)
    ensures id == [] || IsPatentId(id)
  {
    match FirstIdMatch(link, 0)
    case None => []
    case Some(p) => IdAt(link, p)
  }

  /** The identifier comes from the leftmost match, and it runs up to the first
      character after it that is not in `[A-Z0-9]`. */
  lemma PatentIdLeftmost(link: string, p: nat)
    requires IdMatchAt(link, p)
    requires forall q :: 0 <= q < p ==> !IdMatchAt(link, q)
    ensures PatentId(link) == IdAt(link, p)
    ensures var e := p + 8 + |PatentId(link)|;
      e <= |link| && (e == |link| || !IsIdChar(link[e]))
  {
    var r := FirstIdMatch(link, 0);
    assert r.Some?;
    assert r.value == p;
  }

  // ----------------------------------------------- fallback path: str.split

  /** Where the last piece of `s.split(sep)` starts, scanning from `from`:
      just after the last separator that a left-to-right scan whose
      occurrences do not overlap finds, or `from` when it finds none. */
  function PieceStart(s: string, sep: string, from: nat): (st: nat)
    requires sep != [] && from <= |s|
    ensures from <= st <= |s|
    ensures forall q :: st <= q ==> !OccursAt(s, sep, q)
    ensures st == from || (from + |sep| <= st && OccursAt(s, sep, st - |sep|))
    decreases |s| - from
  {
    var next := FindFrom(s, sep, from);
    if next.None? then from
    else PieceStart(s, sep, next.value + |sep|)
  }

  /** `s.split(sep)[-1]` */
  function LastPiece(s: string, sep: string): string
    requires sep != []
  {
    s[PieceStart(s, sep, 0)..]
  }

  /** Index of the first `/` at or after `i`, or `|s|`. */
  function SlashIndex(s: string, i: nat): (e: nat)
    requires i <= |s|
    ensures i <= e <= |s|
    ensures forall k :: i <= k < e ==> s[k] != '/'
    ensures e == |s| || s[e] == '/'
    decreases |s| - i
  {
    if i < |s| && s[i] != '/' then SlashIndex(s, i + 1) else i
  }

  /** `split` scans left to right and its occurrences do not overlap: in
      `/patent/patent/x` the second `/patent/` shares its `/` with the
      first, so the last piece is `patent/x`, not the `x` that the last
      occurrence would leave. */
  lemma OverlappingMarkerExample()
    ensures LastPiece("/patent/patent/x", PatentMarker) == "patent/x"
  {
    var s := "/patent/patent/x";
    assert OccursAt(s, PatentMarker, 0);
    assert FindFrom(s, PatentMarker, 0) == Some(0);
    assert s[8..16] != PatentMarker by { assert s[8] != '/'; }
    assert FindFrom(s, PatentMarker, 8) == None;
    assert PieceStart(s, PatentMarker, 8) == 8;
  }

  /** `s.split("/")[0]` */
  function FirstSegment(s: string): string {
    s[..SlashIndex(s, 0)]
  }

  /** `pat` occurs in `b` at `q` exactly when it occurs in `a + b` at `|a| + q`. */
  lemma OccursAtShift(a: string, b: string, pat: string, q: nat)
    ensures OccursAt(a + b, pat, |a| + q) <==> OccursAt(b, pat, q)
  {
    if q + |pat| <= |b| {
      assert (a + b)[|a| + q..|a| + q + |pat|] == b[q..q + |pat|];
    }
  }

  /** The last piece holds no separator. */
  lemma LastPieceHasNoSeparator(s: string, sep: string)
    requires sep != []
    ensures !Contains(LastPiece(s, sep), sep)
  {
    var st := PieceStart(s, sep, 0);
    var r := LastPiece(s, sep);
    assert s == s[..st] + r;
    forall q: nat ensures !OccursAt(r, sep, q) {
      OccursAtShift(s[..st], r, sep, q);
    }
  }

  /** `link.split("/patent/")[-1].split("/")[0]` */
  function FallbackPatentId(link: string): string {
    FirstSegment(LastPiece(link, PatentMarker))
  }

  /** The pieces of a link that contains `/patent/`, around its last piece. */
  lemma LastPieceSplit(link: string)
    requires Contains(link, PatentMarker)
    ensures var st := PieceStart(link, PatentMarker, 0);
      && 8 <= st && link[st - 8..st] == PatentMarker
      && link == link[..st - 8] + PatentMarker + LastPiece(link, PatentMarker)
  {
    var st := PieceStart(link, PatentMarker, 0);
    var i := FindFrom(link, PatentMarker, 0).value;
    assert OccursAt(link, PatentMarker, i);
    assert st != 0;
    assert link == link[..st - 8] + link[st - 8..st] + link[st..];
  }

  /** A last piece is the fallback identifier followed by a tail that is
      empty or starts with `/`. */
  lemma SegmentSplit(rest: string)
    ensures var id := FirstSegment(rest);
      && rest == id + rest[|id|..]
      && (rest[|id|..] == [] || rest[|id|..][0] == '/')
      && forall k :: 0 <= k < |id| ==> id[k] != '/'
  {
  }

  /** For a link that contains `/patent/`, the fallback identifier is the
      text between the last `/patent/` and the next `/` (or the end): the link
      is a head, `/patent/`, the identifier, and a tail that is empty or starts
      with `/`, and neither the identifier nor the tail holds `/patent/`. */
  lemma FallbackPatentIdSegment(link: string)
    requires Contains(link, PatentMarker)
    ensures var id := FallbackPatentId(link);
      exists head, tail ::
        && link == head + PatentMarker + id + tail
        && (tail == [] || tail[0] == '/')
        && !Contains(id + tail, PatentMarker)
        && forall k :: 0 <= k < |id| ==> id[k] != '/'
  {
    var st := PieceStart(link, PatentMarker, 0);
    var rest := LastPiece(link, PatentMarker);
    var id := FallbackPatentId(link);
    LastPieceSplit(link);
    SegmentSplit(rest);
    LastPieceHasNoSeparator(link, PatentMarker);
    var head, tail := link[..st - 8], rest[|id|..];
    assert id + tail == rest;
    var hm := head + PatentMarker;
    assert link == hm + rest;
    assert hm + id + tail == hm + (id + tail);
  }

  // ------------------------------------------- results on the patents host

  /** The only `/` characters of the origin are those of `https://`. */
  lemma OriginSlashes()
    ensures |PatentsOrigin| == 26
    ensures forall i :: 0 <= i < |PatentsOrigin| && PatentsOrigin[i] == '/' ==> i == 6 || i == 7
    ensures PatentsOrigin[13] == 't' && PatentsOrigin[14] == 's'
  {
    forall i | 0 <= i < |PatentsOrigin| && PatentsOrigin[i] == '/' ensures i == 6 || i == 7 {
      assert i == 0 || i == 1 || i == 2 || i == 3 || i == 4 || i == 5 || i == 6 || i == 7
        || i == 8 || i == 9 || i == 10 || i == 11 || i == 12 || i == 13 || i == 14 || i == 15
        || i == 16 || i == 17 || i == 18 || i == 19 || i == 20 || i == 21 || i == 22 || i == 23
        || i == 24 || i == 25;
    }
  }

  /** No `/patent/` starts inside the origin of a link on the patents host. */
  lemma NoMarkerInOrigin(t: string)
    ensures forall q :: 0 <= q < |PatentsOrigin| ==> !OccursAt(PatentsOrigin + t, PatentMarker, q)
  {
    OriginSlashes();
    var s := PatentsOrigin + t;
    forall q | 0 <= q < |PatentsOrigin| ensures !OccursAt(s, PatentMarker, q) {
      assert s[q] == PatentsOrigin[q];
      if q + 7 < |PatentsOrigin| { assert s[q + 7] == PatentsOrigin[q + 7]; }
    }
  }

  lemma {:induction false} IdRunEndShift(a: string, b: string, i: nat)
    requires i <= |b|
    ensures IdRunEnd(a + b, |a| + i) == |a| + IdRunEnd(b, i)
    decreases |b| - i
  {
    if i < |b| {
      assert (a + b)[|a| + i] == b[i];
      if IsIdChar(b[i]) { IdRunEndShift(a, b, i + 1); }
    }
  }

  /** The patent id on the main path: a result whose href is
      `/patent/` followed by an identifier-shaped run gets the link on the
      patents host and, as its patent id, exactly that run. */
  lemma ResolvedPatentId(href: string)
    requires IdMatchAt(href, 0)
    ensures ResolveLink(href) == PatentsOrigin + href
    ensures PatentId(ResolveLink(href)) == IdAt(href, 0)
  {
    MatchAfterOrigin(href);
    PatentIdAfterPrefix(PatentsOrigin, href);
  }

  /** A match at the start of `b`, with none starting inside `a`, is the
      leftmost match of `a + b`, and gives the same identifier. */
  lemma PatentIdAfterPrefix(a: string, b: string)
    requires IdMatchAt(b, 0) && IdMatchAt(a + b, |a|)
    requires forall q :: 0 <= q < |a| ==> !IdMatchAt(a + b, q)
    ensures PatentId(a + b) == IdAt(b, 0)
  {
    PatentIdLeftmost(a + b, |a|);
    IdRunEndShift(a, b, 10);
    SliceShift(a, b, 8, IdRunEnd(b, 10));
  }

  lemma SliceShift(a: string, b: string, i: nat, j: nat)
    requires i <= j <= |b|
    ensures (a + b)[|a| + i..|a| + j] == b[i..j]
  {
  }

  /** The leftmost match in a link on the patents host is the one of its href. */
  lemma MatchAfterOrigin(href: string)
    requires IdMatchAt(href, 0)
    ensures IdMatchAt(PatentsOrigin + href, 26)
    ensures forall q :: 0 <= q < 26 ==> !IdMatchAt(PatentsOrigin + href, q)
  {
    var link := PatentsOrigin + href;
    OriginSlashes();
    NoMarkerInOrigin(href);
    OccursAtShift(PatentsOrigin, href, PatentMarker, 0);
    assert link[34] == href[8] && link[35] == href[9] && link[36] == href[10];
  }

  /** In a link on the patents host whose path starts with `/patent/`, the
      first `/patent/` is the one right after the origin. */
  lemma MarkerAfterOrigin(href: string)
    requires StartsWith(href, PatentMarker)
    ensures FindFrom(PatentsOrigin + href, PatentMarker, 0) == Some(|PatentsOrigin|)
  {
    var link := PatentsOrigin + href;
    OriginSlashes();
    NoMarkerInOrigin(href);
    assert link[26..34] == href[..8];
    assert OccursAt(link, PatentMarker, 26);
  }

  /** The fallback path reads the same segment from such a link: the text
      after `/patent/` up to the next `/`, when no later `/patent/` follows. */
  lemma ResolvedFallbackPatentId(href: string)
    requires StartsWith(href, PatentMarker) && !Contains(href[8..], PatentMarker)
    ensures FallbackPatentId(PatentsOrigin + href) == FirstSegment(href[8..])
  {
    var link := PatentsOrigin + href;
    var after := href[8..];
    MarkerAfterOrigin(href);
    assert link == link[..34] + after;
    forall p | 34 <= p ensures !OccursAt(link, PatentMarker, p) {
      OccursAtShift(link[..34], after, PatentMarker, p - 34);
    }
    assert FindFrom(link, PatentMarker, 34).None?;
    assert LastPiece(link, PatentMarker) == after;
  }

  /** The href of a typical search result. */
  const ExampleHref: string := "/patent/US1234567A1/en"

  lemma ExampleMatch()
    ensures IdMatchAt(ExampleHref, 0) && IdAt(ExampleHref, 0) == "US1234567A1"
  {
    var href := ExampleHref;
    assert href[..8] == PatentMarker;
    assert !IsIdChar(href[19]);
    forall k | 10 <= k < 19 ensures IsIdChar(href[k]) {
      assert k == 10 || k == 11 || k == 12 || k == 13 || k == 14 || k == 15 || k == 16 || k == 17 || k == 18;
    }
    IdRunEndOfRun(href, 10, 19);
  }

  lemma ExampleTail()
    ensures ExampleHref[8..] == "US1234567A1/en"
    ensures !Contains(ExampleHref[8..], PatentMarker)
    ensures FirstSegment(ExampleHref[8..]) == "US1234567A1"
  {
    var tail := ExampleHref[8..];
    forall q | 0 <= q ensures !OccursAt(tail, PatentMarker, q) {
      if q + 8 <= |tail| {
        assert q == 0 || q == 1 || q == 2 || q == 3 || q == 4 || q == 5 || q == 6;
        assert tail[q..q + 8][0] == tail[q];
      }
    }
    forall k | 0 <= k < 11 ensures tail[k] != '/' {
      assert k == 0 || k == 1 || k == 2 || k == 3 || k == 4 || k == 5 || k == 6 || k == 7 || k == 8 || k == 9 || k == 10;
    }
    SlashIndexAt(tail, 0, 11);
  }

  /** A typical result: the href `/patent/US1234567A1/en` resolves to
      the link on the patents host, and both paths take `US1234567A1` as its
      identifier. */
  lemma PatentHrefExample()
    ensures ResolveLink(ExampleHref) == PatentsOrigin + ExampleHref
    ensures PatentId(ResolveLink(ExampleHref)) == "US1234567A1"
    ensures FallbackPatentId(PatentsOrigin + ExampleHref) == "US1234567A1"
  {
    ExampleMatch();
    ResolvedPatentId(ExampleHref);
    ExampleTail();
    ResolvedFallbackPatentId(ExampleHref);
  }

  /** `IdRunEnd` stops at the first character outside `[A-Z0-9]`. */
  lemma {:induction false} IdRunEndOfRun(s: string, i: nat, e: nat)
    requires i <= e < |s| && !IsIdChar(s[e])
    requires forall k :: i <= k < e ==> IsIdChar(s[k])
    ensures IdRunEnd(s, i) == e
    decreases e - i
  {
    if i < e { IdRunEndOfRun(s, i + 1, e); }
  }

  /** `SlashIndex` stops at the first `/`. */
  lemma {:induction false} SlashIndexAt(s: string, i: nat, e: nat)
    requires i <= e < |s| && s[e] == '/'
    requires forall k :: i <= k < e ==> s[k] != '/'
    ensures SlashIndex(s, i) == e
    decreases e - i
  {
    if i < e { SlashIndexAt(s, i + 1, e); }
  }
}
