/** extract_html_table: cut the portal-summary table out of the assignments page by two
    literal markers, exactly as the scraper does it (a text search, not an HTML parse). */
module TableExtract {
  import opened PyStr

  /** The byte-exact opening tag of the portal-summary grid. */
  const StartMarker: string :=
    "<table class=\"Grid\" " + "cellspacing=\"0\" rules=\"all\" " +
    "bordercolor=\"#D8D8D8\" border=\"1\" " + "id=\"ctl00_DataContent_gvPortalSummary\""

  const EndMarker: string := "</table>"

  /** The first `</table>` at or after `start`, plus the marker's length. Since `find`
      yields -1 when nothing follows, this is never -1: it is at least 7. */
  function EndIndex(response: string, start: nat): (e: int)
    ensures e >= |EndMarker| - 1
  {
    Find(response, EndMarker, start) + |EndMarker|
  }

  /** extract_html_table. Its result is a piece of the page that either begins with the
      whole start marker or is itself a beginning of it (possibly empty); the lemmas below
      say which piece. */
  function ExtractHtmlTable(response: string): (r: string)
    ensures |r| <= |response|
    ensures StartMarker <= r || r <= StartMarker
  {
    var startIdx := Find(response, StartMarker, 0);
    if startIdx == -1 then ""
    else
      var endIdx := EndIndex(response, startIdx);
      if endIdx == -1 then ""   // never taken: endIdx >= 7
      else
        SliceFromMarkerShape(response, startIdx);
        Slice(response, startIdx, endIdx)
  }

  /** The slice cut out from a found start marker starts with the whole marker when a
      `</table>` follows, and is otherwise a (possibly empty) beginning of the marker. */
  lemma SliceFromMarkerShape(response: string, s: nat)
    requires s == Find(response, StartMarker, 0)
    ensures var r := Slice(response, s, EndIndex(response, s));
      Find(response, EndMarker, s) != -1 ==> StartMarker <= r
    ensures var r := Slice(response, s, EndIndex(response, s));
      Find(response, EndMarker, s) == -1 ==> r <= StartMarker
  {
    var e := Find(response, EndMarker, s);
    if e != -1 {
      NoEndMarkerInsideStartMarker(response, s);
      SliceStartsWith(response, StartMarker, s, e + |EndMarker|);
    } else if s < 7 {
      assert response[s..s + |StartMarker|] == StartMarker;
      assert response[s..7] == StartMarker[..7 - s];
    }
  }

  /** A page without the exact start marker yields the empty string. */
  lemma ExtractWithoutMarker(response: string)
    requires !Contains(response, StartMarker)
    ensures ExtractHtmlTable(response) == ""
  {
    FindFromStartIsContains(response, StartMarker);
  }

  /** The start marker holds no `/`, so no `</table>` can begin inside it. */
  lemma NoSlashInStartMarker()
    ensures forall j :: 0 <= j < |StartMarker| ==> StartMarker[j] != '/'
    ensures StartMarker[|StartMarker| - 1] == '"'
  {
  }

  /** No `</table>` can start inside an occurrence of the start marker: at each such
      position one character disagrees with `</table>`. */
  lemma NoEndMarkerInsideStartMarker(response: string, s: nat)
    requires OccursAt(response, StartMarker, s)
    ensures forall e :: s <= e < s + |StartMarker| ==> !OccursAt(response, EndMarker, e)
  {
    NoSlashInStartMarker();
    forall e | s <= e < s + |StartMarker|
      ensures !OccursAt(response, EndMarker, e)
    {
      if e + |EndMarker| > |response| {
      } else if e + 1 < s + |StartMarker| {
        assert response[e + 1] == StartMarker[e + 1 - s];
        assert response[e..e + |EndMarker|][1] != EndMarker[1];
      } else {
        assert response[e] == StartMarker[|StartMarker| - 1];
        assert response[e..e + |EndMarker|][0] != EndMarker[0];
      }
    }
  }

  /** The closed case of the extraction is a plain slice of the page. */
  lemma ExtractIsSlice(response: string, s: nat, e: nat)
    requires s == Find(response, StartMarker, 0)
    requires e == Find(response, EndMarker, s)
    ensures ExtractHtmlTable(response) == response[s..e + |EndMarker|]
  {
    assert EndIndex(response, s) == e + |EndMarker|;
  }

  /** The shape of the text between an opening marker `open` at `s` and the first `close`
      after it, when no `close` can begin inside `open`. */
  lemma ClosedSliceShape(response: string, open: string, close: string, s: nat, e: nat)
    requires OccursAt(response, open, s)
    requires forall k :: s <= k < s + |open| ==> !OccursAt(response, close, k)
    requires e == Find(response, close, s)
    ensures var r := response[s..e + |close|];
      open <= r && r[|r| - |close|..] == close && Find(r, close, 0) == |r| - |close|
  {
    SliceStartsWith(response, open, s, e + |close|);
    SliceEndsWith(response, close, s, e);
    SliceFindsFirst(response, close, s, e);
  }

  /** With the start marker at `s` and the first following `</table>` at `e`, the result is
      the text from `s` through the end of that `</table>`: it begins with the start marker,
      ends with `</table>`, and holds no earlier `</table>`. */
  lemma ExtractClosed(response: string, s: nat, e: nat)
    requires s == Find(response, StartMarker, 0)
    requires e == Find(response, EndMarker, s)
    ensures var r := ExtractHtmlTable(response);
      r == response[s..e + |EndMarker|] &&
      StartMarker <= r && r[|r| - |EndMarker|..] == EndMarker &&
      Find(r, EndMarker, 0) == |r| - |EndMarker|
  {
    ExtractIsSlice(response, s, e);
    NoEndMarkerInsideStartMarker(response, s);
    ClosedSliceShape(response, StartMarker, EndMarker, s, e);
  }

  /** With the start marker at `s` and no `</table>` after it, the dead guard is passed
      with an end index of 7 and the result is `response[s:7]`: empty once `s >= 7`, and
      otherwise the first `7 - s` characters of the start marker (`<table `, cut short). */
  lemma {:induction false} ExtractUnclosed(response: string, s: nat)
    requires s == Find(response, StartMarker, 0)
    requires Find(response, EndMarker, s) == -1
    ensures EndIndex(response, s) == 7
    ensures ExtractHtmlTable(response) == Slice(response, s, 7)
    ensures s >= 7 ==> ExtractHtmlTable(response) == ""
    ensures s < 7 ==> ExtractHtmlTable(response) == StartMarker[..7 - s]
  {
    if s < 7 {
      assert response[s..s + |StartMarker|] == StartMarker;
      assert response[s..7] == StartMarker[..7 - s];
    }
  }

  /** The extraction comes back empty exactly when the start marker is missing, or when no
      `</table>` follows it and it starts at index 7 or later. */
  lemma ExtractEmptyIff(response: string)
    ensures var s := Find(response, StartMarker, 0);
            ExtractHtmlTable(response) == "" <==>
              s == -1 || (s >= 7 && Find(response, EndMarker, s) == -1)
  {
    var s := Find(response, StartMarker, 0);
    if s != -1 {
      var e := Find(response, EndMarker, s);
      if e == -1 {
        ExtractUnclosed(response, s);
      } else {
        ExtractClosed(response, s, e);
      }
    }
  }
}
