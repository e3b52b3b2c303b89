/** The in-memory snapshot `latest_html_table` and the refresh routine
    fetch_and_store_assignments that overwrites it. */
module AssignmentCache {
  import opened Wrappers
  import opened PyStr
  import opened TableExtract
  import opened ColumnStrip
  import opened PortalLogin

  /** The table a refresh stores, or `None` when the refresh leaves the snapshot alone:
      after an exception (in an HTTP exchange, a token lookup or the HTML library), a
      rejected login, an error status on the assignments page, or a page from which no
      table could be extracted. */
  function RefreshedTable(portal: Portal, creds: Credentials,
                          lib: HtmlLibrary): (r: Option<string>)
    ensures r.Some? ==> LoginAndGetSession(portal, creds) == Completed(true)
    ensures r.Some? ==> portal.assignmentsPage.Completed? && ResponseOk(portal.assignmentsPage.value)
  {
    match CheckAssignments(portal, creds)
    case Raised => None
    case Completed(None) => None
    case Completed(Some(response)) =>
      if !ResponseOk(response) then None
      else
        var table := ExtractHtmlTable(response.text);
        if table == "" then None
        else Stripped(table, lib).ToOption()
  }

  /** `latest_html_table`: the served HTML and the time it was captured. */
  class Snapshot {
    var html: string
    var lastUpdated: string

    /** The snapshot before the first successful refresh. */
    constructor ()
      ensures html == "" && lastUpdated == ""
    {
      html := "";
      lastUpdated := "";
    }

    /** fetch_and_store_assignments, specified by `RefreshedTable`; `timestamp` is the
        capture time, already formatted. */
    method FetchAndStoreAssignments(portal: Portal, creds: Credentials,
                                    lib: HtmlLibrary,
                                    timestamp: string)
      modifies this
      ensures RefreshedTable(portal, creds, lib).None? ==>
        html == old(html) && lastUpdated == old(lastUpdated)
      ensures RefreshedTable(portal, creds, lib).Some? ==>
        html == RefreshedTable(portal, creds, lib).value && lastUpdated == timestamp
    {
      var response := CheckAssignments(portal, creds);
      if response.Raised? {
        return;  // the exception is logged and swallowed
      }
      if response.value.None? || !ResponseOk(response.value.value) {
        return;  // "Failed to fetch assignments."
      }
      var table := ExtractHtmlTable(response.value.value.text);
      if table == "" {
        return;  // "No HTML table found."
      }
      var modified := RemoveSubmissionColumn(table, lib);
      if modified.Raised? {
        return;  // the exception is logged and swallowed
      }
      html := modified.value;
      lastUpdated := timestamp;
    }
  }

  /** A rejected or failed login leaves the snapshot as it was. */
  lemma LoginFailureKeepsSnapshot(portal: Portal, creds: Credentials,
                                  lib: HtmlLibrary)
    requires LoginAndGetSession(portal, creds) != Completed(true)
    ensures RefreshedTable(portal, creds, lib) == None
  {
  }

  /** An exception from the HTML library while stripping leaves the snapshot as it was. */
  lemma StripFailureKeepsSnapshot(portal: Portal, creds: Credentials, lib: HtmlLibrary)
    requires portal.assignmentsPage.Completed?
    requires Stripped(ExtractHtmlTable(portal.assignmentsPage.value.text), lib).Raised?
    ensures RefreshedTable(portal, creds, lib) == None
  {
  }

  /** A refresh stores something exactly when the login is accepted, the assignments page
      arrives without an error status, the extraction is non-empty and stripping it does
      not raise; what it stores is the stripped table. */
  lemma RefreshStoresIff(portal: Portal, creds: Credentials,
                         lib: HtmlLibrary)
    ensures RefreshedTable(portal, creds, lib).Some? <==>
      LoginAndGetSession(portal, creds) == Completed(true) &&
      portal.assignmentsPage.Completed? && ResponseOk(portal.assignmentsPage.value) &&
      ExtractHtmlTable(portal.assignmentsPage.value.text) != "" &&
      Stripped(ExtractHtmlTable(portal.assignmentsPage.value.text), lib).Completed?
    ensures RefreshedTable(portal, creds, lib).Some? ==>
      RefreshedTable(portal, creds, lib).value ==
        Stripped(ExtractHtmlTable(portal.assignmentsPage.value.text), lib).value
  {
  }

  /** Nothing is stored from an assignments page that lacks the start marker. */
  lemma StoredPageHasMarker(portal: Portal, creds: Credentials,
                            lib: HtmlLibrary)
    ensures RefreshedTable(portal, creds, lib).Some? ==>
      Contains(portal.assignmentsPage.value.text, StartMarker)
  {
    if portal.assignmentsPage.Completed? && !Contains(portal.assignmentsPage.value.text, StartMarker) {
      ExtractWithoutMarker(portal.assignmentsPage.value.text);
    }
  }

  /** A page whose start marker sits at index `s < 7` with no `</table>` after it is not
      reported as a failure: the fragment `response[s:7]` is stripped and, unless the HTML
      library raises, stored. */
  lemma UnclosedFragmentIsStored(portal: Portal, creds: Credentials,
                                 lib: HtmlLibrary, s: nat)
    requires LoginAndGetSession(portal, creds) == Completed(true)
    requires portal.assignmentsPage.Completed? && ResponseOk(portal.assignmentsPage.value)
    requires s == Find(portal.assignmentsPage.value.text, StartMarker, 0) && s < 7
    requires Find(portal.assignmentsPage.value.text, EndMarker, s) == -1
    ensures RefreshedTable(portal, creds, lib) == Stripped(StartMarker[..7 - s], lib).ToOption()
  {
    ExtractUnclosed(portal.assignmentsPage.value.text, s);
  }
}
