/**
 * The sheet connector's client-side logic: pulling the spreadsheet id out of
 * a Google Sheets URL, and the guard that decides whether a sync request is
 * sent at all.
 *
 * The id is what the pattern `/spreadsheets/d/` followed by one or more
 * characters of `[a-zA-Z0-9-_]` captures, with the usual semantics of a
 * non-global regular-expression match: the leftmost position where the
 * whole pattern matches, and the greedy (longest) run of id characters there.
 */
module SheetConnector {
  import opened Wrappers

  /** The literal part of the pattern that precedes the captured id. */
  const Marker: string := "/spreadsheets/d/"

  /** A character of the class `[a-zA-Z0-9-_]`. */
  predicate IsIdChar(c: char) {
    ('a' <= c <= 'z') || ('A' <= c <= 'Z') || ('0' <= c <= '9') || c == '-' || c == '_'
  }

  /** What the capture group can hold: one or more id characters. */
  predicate IsSheetId(id: string) {
    |id| >= 1 && forall k :: 0 <= k < |id| ==> IsIdChar(id[k])
  }

  /** The marker occurs in `s` at position `i`. */
  predicate MarkerAt(s: string, i: nat) {
    i + |Marker| <= |s| && s[i..i + |Marker|] == Marker
  }

  /** The whole pattern matches at `i`: the marker, then at least one id character. */
  predicate MatchAt(s: string, i: nat) {
    MarkerAt(s, i) && i + |Marker| < |s| && IsIdChar(s[i + |Marker|])
  }

  /** `n` is the length of the longest run of id characters of `s` starting at `j`. */
  predicate MaximalRun(s: string, j: nat, n: nat) {
    j + n <= |s|
    && (forall k :: j <= k < j + n ==> IsIdChar(s[k]))
    && (j + n == |s| || !IsIdChar(s[j + n]))
  }

  /** The greedy run of id characters starting at `j`. */
  function IdRun(s: string, j: nat): (n: nat)
    requires j <= |s|
    ensures MaximalRun(s, j, n)
    decreases |s| - j
  {
    if j < |s| && IsIdChar(s[j]) then 1 + IdRun(s, j + 1) else 0
  }

  /** The leftmost position at or after `i` where the pattern matches. */
  function FindFrom(s: string, i: nat): (r: Option<nat>)
    requires i <= |s|
    ensures r.None? ==> forall k: nat :: i <= k ==> !MatchAt(s, k)
    ensures r.Some? ==> i <= r.value && MatchAt(s, r.value)
    ensures r.Some? ==> forall k: nat :: i <= k < r.value ==> !MatchAt(s, k)
    decreases |s| - i
  {
    if |s| <= i + |Marker| then None
    else if MatchAt(s, i) then Some(i)
    else FindFrom(s, i + 1)
  }

  /** The id captured from `url`, or `None` when the pattern does not match. */
  function ExtractSheetId(url: string): (r: Option<string>)
    ensures r.None? <==> forall i: nat :: !MatchAt(url, i)
    ensures r.Some? ==> IsSheetId(r.value)
  {
    match FindFrom(url, 0)
    case None => None
    case Some(i) =>
      var j := i + |Marker|;
      Some(url[j..j + IdRun(url, j)])
  }

  /**
   * The reference reading of the match: at the leftmost matching position the
   * captured id is the whole run of id characters after the marker.
   */
  lemma ExtractIsLeftmostMaximal(url: string, i: nat, n: nat)
    requires MatchAt(url, i)
    requires forall k: nat :: k < i ==> !MatchAt(url, k)
    requires MaximalRun(url, i + |Marker|, n)
    ensures ExtractSheetId(url) == Some(url[i + |Marker|..i + |Marker| + n])
  {
    var f := FindFrom(url, 0);
    assert f == Some(i) by {
      if f.None? || f.value != i {
        assert false;
      }
    }
    RunUnique(url, i + |Marker|, n, IdRun(url, i + |Marker|));
  }

  /** Conversely, a captured id comes from the leftmost match and is its whole run. */
  lemma ExtractedComesFromLeftmostMatch(url: string, id: string)
    requires ExtractSheetId(url) == Some(id)
    ensures exists i: nat ::
      MatchAt(url, i)
      && (forall k: nat :: k < i ==> !MatchAt(url, k))
      && MaximalRun(url, i + |Marker|, |id|)
      && id == url[i + |Marker|..i + |Marker| + |id|]
  {
    var i := FindFrom(url, 0).value;
    var j := i + |Marker|;
    var n := IdRun(url, j);
    assert id == url[j..j + n];
    assert MatchAt(url, i) && MaximalRun(url, j, n);
  }

  /** The id of a sharing link `https://docs.google.com/spreadsheets/d/<id>/...` is recovered. */
  lemma ExtractFromSharingLink(url: string, host: string, id: string, tail: string)
    requires host == "https://docs.google.com"
    requires url == host + Marker + id + tail
    requires IsSheetId(id)
    requires tail == [] || !IsIdChar(tail[0])
    ensures ExtractSheetId(url) == Some(id)
  {
    var j := |host| + |Marker|;
    assert url[|host|..j] == Marker;
    assert url[j..j + |id|] == id;
    forall k: nat | k < |host|
      ensures !MatchAt(url, k)
    {
      HostHasNoMarker(url, host, k);
    }
    ExtractIsLeftmostMaximal(url, |host|, |id|);
  }

  /** No position of the host part starts the marker. */
  lemma HostHasNoMarker(url: string, host: string, k: nat)
    requires host == "https://docs.google.com"
    requires |host| < |url| && url[..|host|] == host
    requires k < |host|
    ensures !MarkerAt(url, k)
  {
    assert url[k] == host[k];
    if host[k] == '/' {
      assert k == 6 || k == 7;
      assert url[k + 1] == host[k + 1] != 's';
    }
    assert Marker[0] == '/' && Marker[1] == 's';
  }

  /** The longest run of id characters at a position is unique. */
  lemma RunUnique(s: string, j: nat, n: nat, m: nat)
    requires MaximalRun(s, j, n) && MaximalRun(s, j, m)
    ensures n == m
  {
    if n != m {
      assert false;
    }
  }

  // ---------------------------------------------------------------------------
  // The sync guard

  /** The body of the request sent to the importer. */
  datatype SyncRequest = SyncRequest(sheetId: string, sheetName: string)

  /** What a click on the sync button does: warn about the URL, or send the request. */
  datatype SyncAction = RejectInvalidUrl | Invoke(request: SyncRequest)

  /**
   * The guard of the sync handler: a missing or empty id (the falsy values of
   * the id) stops the handler with a warning; otherwise the id and the sheet
   * name are sent.
   */
  function HandleSync(url: string, sheetName: string): (a: SyncAction)
    ensures a.Invoke? ==> IsSheetId(a.request.sheetId) && a.request.sheetName == sheetName
  {
    var sheetId := ExtractSheetId(url);
    if sheetId.None? || sheetId.value == "" then RejectInvalidUrl
    else Invoke(SyncRequest(sheetId.value, sheetName))
  }

  /** The handler sends a request exactly when the URL matches the pattern, carrying the captured id. */
  lemma InvokesIffMatch(url: string, sheetName: string)
    ensures HandleSync(url, sheetName).Invoke? <==> exists i: nat :: MatchAt(url, i)
    ensures HandleSync(url, sheetName).Invoke? ==> Some(HandleSync(url, sheetName).request.sheetId) == ExtractSheetId(url)
  {
  }

  /** A URL without the pattern is rejected before anything is sent. */
  lemma NoMatchIsRejected(url: string, sheetName: string)
    requires forall i: nat :: !MatchAt(url, i)
    ensures HandleSync(url, sheetName) == RejectInvalidUrl
  {
  }
}
