/** `upload_to_sheet` and `duplicate_template` (main.py:157-189, 203-237)
    over an abstract spreadsheet: a map from tab title to the cell values
    of that tab. Which Sheets API calls fail is a parameter; every failure
    is an exception that `upload_to_sheet` catches, so the upload itself
    never raises. */
module Sheets {
  import opened Row

  /** The values of one tab, row by row. */
  type Values = seq<seq<Cell>>

  /** A spreadsheet: its titled tabs, plus the copies of the template that
      were made but never renamed (their titles are chosen by the service
      and are not modelled). */
  datatype Spreadsheet = Spreadsheet(tabs: map<string, Values>, strays: seq<Values>)

  /** The Sheets API calls the two functions make, in the order made. */
  datatype Call = ListTabs | FindTemplate | CopyTemplate | RenameCopy | ClearTab | WriteTab

  /** The title of the tab new tabs are copied from. */
  const Template := "template"

  /** The result of `duplicate_template`: the spreadsheet afterwards, and
      whether it raised. */
  datatype Duplicated = Duplicated(sheet: Spreadsheet, raised: bool)

  /** `duplicate_template(service, id, title)`: when no tab is titled
      "template" it returns without change; otherwise the template is
      copied and the copy renamed to `title`. A failing call raises, and a
      copy made before a failing rename stays behind untitled. */
  function DuplicateTemplate(s: Spreadsheet, title: string, failing: set<Call>): (d: Duplicated)
    ensures Template !in s.tabs ==> d == Duplicated(s, FindTemplate in failing)
    ensures failing == {} && Template in s.tabs ==>
              d == Duplicated(s.(tabs := s.tabs[title := s.tabs[Template]]), false)
    ensures forall t :: t in s.tabs && t != title ==> t in d.sheet.tabs && d.sheet.tabs[t] == s.tabs[t]
    ensures forall t :: t in d.sheet.tabs ==> t in s.tabs || t == title
    ensures title in d.sheet.tabs && title !in s.tabs ==> !d.raised && d.sheet.tabs[title] == s.tabs[Template]
  {
    if FindTemplate in failing then Duplicated(s, true)
    else if Template !in s.tabs then Duplicated(s, false)
    else if CopyTemplate in failing then Duplicated(s, true)
    else if RenameCopy in failing then Duplicated(s.(strays := s.strays + [s.tabs[Template]]), true)
    else Duplicated(s.(tabs := s.tabs[title := s.tabs[Template]]), false)
  }

  /** `upload_to_sheet(service, id, title, rows)`: make sure the tab exists
      (copying the template when it does not), clear it, then write `rows`
      into it. Any failing call ends the attempt there, silently. */
  function UploadToSheet(s: Spreadsheet, title: string, rows: Values, failing: set<Call>): (r: Spreadsheet)
    ensures forall t :: t in s.tabs && t != title ==> t in r.tabs && r.tabs[t] == s.tabs[t]
    ensures forall t :: t in r.tabs ==> t in s.tabs || t == title
    ensures title !in s.tabs && Template !in s.tabs ==> r == s
    ensures failing == {} && (title in s.tabs || Template in s.tabs) ==> r == s.(tabs := s.tabs[title := rows])
    ensures title in r.tabs ==>
              || r.tabs[title] == rows
              || r.tabs[title] == []
              || (title in s.tabs && r.tabs[title] == s.tabs[title])
              || (Template in s.tabs && r.tabs[title] == s.tabs[Template])
    ensures |s.strays| <= |r.strays| <= |s.strays| + 1 && r.strays[..|s.strays|] == s.strays
  {
    if ListTabs in failing then s
    else
      var d := if title in s.tabs then Duplicated(s, false) else DuplicateTemplate(s, title, failing);
      if d.raised || title !in d.sheet.tabs || ClearTab in failing then d.sheet
      else
        var cleared := d.sheet.(tabs := d.sheet.tabs[title := []]);
        if WriteTab in failing then cleared
        else cleared.(tabs := cleared.tabs[title := rows])
  }

  /** Without failures, uploading the same rows twice is uploading them
      once. */
  lemma UploadIdempotent(s: Spreadsheet, title: string, rows: Values)
    ensures UploadToSheet(UploadToSheet(s, title, rows, {}), title, rows, {}) == UploadToSheet(s, title, rows, {})
  {
  }

  /** Without failures, the rows written are what the tab reads back,
      whether the tab existed or was copied from the template. */
  lemma UploadReadsBack(s: Spreadsheet, title: string, rows: Values)
    requires title in s.tabs || Template in s.tabs
    ensures title in UploadToSheet(s, title, rows, {}).tabs
    ensures UploadToSheet(s, title, rows, {}).tabs[title] == rows
  {
  }

  /** The last upload to a tab decides its contents: an earlier upload to
      the same tab leaves no trace. */
  lemma LastUploadWins(s: Spreadsheet, title: string, first: Values, second: Values)
    requires title in s.tabs || Template in s.tabs
    ensures UploadToSheet(UploadToSheet(s, title, first, {}), title, second, {}) == UploadToSheet(s, title, second, {})
  {
  }

  /** What a fault-free upload leaves behind: the tab holds the rows when
      it existed or could be copied from the template; otherwise nothing
      changes. */
  function Written(s: Spreadsheet, title: string, rows: Values): Spreadsheet {
    if title in s.tabs || Template in s.tabs then s.(tabs := s.tabs[title := rows]) else s
  }

  lemma FaultFreeUpload(s: Spreadsheet, title: string, rows: Values)
    ensures UploadToSheet(s, title, rows, {}) == Written(s, title, rows)
  {
  }

  /** Uploads to different tabs, neither of them the template, do not
      interfere: their order does not matter. */
  lemma UploadsCommute(s: Spreadsheet, a: string, ra: Values, b: string, rb: Values)
    requires a != b && a != Template && b != Template
    ensures UploadToSheet(UploadToSheet(s, a, ra, {}), b, rb, {}) == UploadToSheet(UploadToSheet(s, b, rb, {}), a, ra, {})
  {
    FaultFreeUpload(s, a, ra);
    FaultFreeUpload(s, b, rb);
    FaultFreeUpload(Written(s, a, ra), b, rb);
    FaultFreeUpload(Written(s, b, rb), a, ra);
    WrittenCommute(s, a, ra, b, rb);
  }

  lemma WrittenCommute(s: Spreadsheet, a: string, ra: Values, b: string, rb: Values)
    requires a != b && a != Template && b != Template
    ensures Written(Written(s, a, ra), b, rb) == Written(Written(s, b, rb), a, ra)
  {
    if Template in s.tabs || (a in s.tabs && b in s.tabs) {
      assert s.tabs[a := ra][b := rb] == s.tabs[b := rb][a := ra];
    }
  }

  /** When a write fails after the clear succeeded, the tab is left empty:
      the old contents are lost. */
  lemma FailedWriteLeavesTabEmpty(s: Spreadsheet, title: string, rows: Values)
    requires title in s.tabs
    ensures UploadToSheet(s, title, rows, {WriteTab}).tabs == s.tabs[title := []]
  {
  }
}
