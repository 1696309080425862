/**
 * The state machine of the `ClientRecordManager` component. Each event
 * handler is one atomic, pure transition from state to state.
 */
module Manager {
  import opened Wrappers
  import opened Text
  import opened Records
  import opened Seqs
  import opened Merge
  import opened Pagination
  import opened Search

  /** The kinds of inline error the component reports. */
  datatype Error = NotJsonFile | NotAnArray | InvalidJson | EmailInUse

  /** The text shown for each kind of error. */
  function Message(e: Error): string {
    match e
    case NotJsonFile => "Please upload a valid JSON file."
    case NotAnArray => "The JSON file must contain an array of objects."
    case InvalidJson => "Invalid JSON file. Please upload a valid JSON."
    case EmailInUse => "This email is already in use. Please enter a unique email."
  }

  datatype State = State(
    baseData: seq<Record>,              // the live record list
    originalData: seq<Record>,          // the array of the last successful upload
    selectedFileName: Option<string>,   // name of the first successfully read file
    error: Option<string>,              // the message shown, if any; a new one replaces the old
    searchQuery: string,
    editingId: Field<Id>,               // `null` when no row is being edited
    currentPage: int)

  /** The state after the component mounts. */
  const Initial := State([], [], None, None, "", Null, 1)

  /** `!!selectedFileName`: an empty file name counts as no file. */
  predicate FileChosen(s: State) {
    s.selectedFileName.Some? && s.selectedFileName.value != ""
  }

  /** What `JSON.parse` made of the file text. */
  datatype Parsed = ParsedArray(items: seq<Record>) | ParsedNonArray | SyntaxError

  /** `event.target.files[0]`: nothing, or a file with its name, MIME type and parsed contents. */
  datatype Selection = NoFile | File(name: string, mimeType: string, content: Parsed)

  const JsonMime := "application/json"

  /**
   * The `FileReader` completion callback. An array becomes the last upload;
   * the first one replaces the list as it is, later ones are merged by email.
   */
  function OnLoad(s: State, fileName: string, content: Parsed): (r: State)
    ensures content.ParsedArray? ==>
      && r.originalData == content.items
      && r.error == None
      && r.searchQuery == s.searchQuery && r.editingId == s.editingId && r.currentPage == s.currentPage
    ensures content.ParsedArray? && !FileChosen(s) ==>
      r.baseData == content.items && r.selectedFileName == Some(fileName)
    ensures content.ParsedArray? && FileChosen(s) ==>
      && r.selectedFileName == s.selectedFileName
      && |s.baseData| <= |r.baseData|
      && r.baseData[..|s.baseData|] == s.baseData
      && r.baseData[|s.baseData|..] == Survivors(s.baseData, content.items)
    ensures !content.ParsedArray? ==>
      r == s.(error := Some(Message(if content.ParsedNonArray? then NotAnArray else InvalidJson)))
  {
    match content
    case ParsedArray(items) =>
      if !FileChosen(s) then
        s.(originalData := items, selectedFileName := Some(fileName), baseData := items, error := None)
      else
        s.(originalData := items, baseData := MergeData(s.baseData, items), error := None)
    case ParsedNonArray => s.(error := Some(Message(NotAnArray)))
    case SyntaxError => s.(error := Some(Message(InvalidJson)))
  }

  /** `handleFileUpload`: only a file of type `application/json` is read. */
  function Upload(s: State, sel: Selection): (r: State)
    ensures !(sel.File? && sel.mimeType == JsonMime) ==> r == s.(error := Some(Message(NotJsonFile)))
    ensures sel.File? && sel.mimeType == JsonMime ==> r == OnLoad(s, sel.name, sel.content)
  {
    if sel.File? && sel.mimeType == JsonMime then OnLoad(s, sel.name, sel.content)
    else s.(error := Some(Message(NotJsonFile)))
  }

  /** `handleSearch`: store the lower-cased query and go back to page 1. */
  function SetQuery(s: State, text: string): (r: State)
    ensures r.searchQuery == Lower(text)
    ensures forall i :: 0 <= i < |r.searchQuery| ==> !IsUpper(r.searchQuery[i])
    ensures r == s.(searchQuery := r.searchQuery, currentPage := 1)
  {
    s.(searchQuery := Lower(text), currentPage := 1)
  }

  /** `handleEdit`: move the single edit cursor to `id`. */
  function StartEdit(s: State, id: Field<Id>): (r: State)
    ensures r.editingId == id
    ensures r == s.(editingId := r.editingId)
  {
    s.(editingId := id)
  }

  function HasId(id: Field<Id>): Record -> bool {
    (r: Record) => r.id == id
  }

  function NotId(id: Field<Id>): Record -> bool {
    (r: Record) => r.id != id
  }

  /**
   * `handleSave`: refuse an email that occurs in the last uploaded file
   * (not the live list); otherwise give every record with this id the new
   * name and email and leave edit mode.
   */
  function Save(s: State, id: Field<Id>, name: Field<string>, email: Field<string>): (r: State)
    ensures email in Emails(s.originalData) ==>
      r == s.(error := Some(Message(EmailInUse)))
    ensures email !in Emails(s.originalData) ==>
      && r.error == None && r.editingId == Null
      && |r.baseData| == |s.baseData|
      && (forall i :: 0 <= i < |s.baseData| && s.baseData[i].id == id ==> r.baseData[i] == Record(id, name, email))
      && (forall i :: 0 <= i < |s.baseData| && s.baseData[i].id != id ==> r.baseData[i] == s.baseData[i])
    ensures r == s.(baseData := r.baseData, error := r.error, editingId := r.editingId)
  {
    if email in Emails(s.originalData) then s.(error := Some(Message(EmailInUse)))
    else
      s.(error := None,
         baseData := MapWhere(s.baseData, HasId(id), (x: Record) => x.(name := name, email := email)),
         editingId := Null)
  }

  /** The inline name input: every record with this id gets the typed name. */
  function EditName(s: State, id: Field<Id>, value: string): (r: State)
    ensures |r.baseData| == |s.baseData|
    ensures forall i :: 0 <= i < |s.baseData| && s.baseData[i].id == id ==>
      r.baseData[i] == s.baseData[i].(name := Val(value))
    ensures forall i :: 0 <= i < |s.baseData| && s.baseData[i].id != id ==> r.baseData[i] == s.baseData[i]
    ensures r == s.(baseData := r.baseData)
  {
    s.(baseData := MapWhere(s.baseData, HasId(id), (x: Record) => x.(name := Val(value))))
  }

  /** The inline email input: every record with this id gets the typed email, unchecked. */
  function EditEmail(s: State, id: Field<Id>, value: string): (r: State)
    ensures |r.baseData| == |s.baseData|
    ensures forall i :: 0 <= i < |s.baseData| && s.baseData[i].id == id ==>
      r.baseData[i] == s.baseData[i].(email := Val(value))
    ensures forall i :: 0 <= i < |s.baseData| && s.baseData[i].id != id ==> r.baseData[i] == s.baseData[i]
    ensures r == s.(baseData := r.baseData)
  {
    s.(baseData := MapWhere(s.baseData, HasId(id), (x: Record) => x.(email := Val(value))))
  }

  /**
   * `handleDelete`: drop every record with this id; if the page is now past
   * the last page of the whole list, move to that last page (0 for an empty list).
   */
  function Delete(s: State, id: Field<Id>): (r: State)
    ensures IsSubseq(r.baseData, s.baseData)
    ensures forall x :: x in r.baseData <==> x in s.baseData && x.id != id
    ensures forall x :: multiset(r.baseData)[x] == if x.id != id then multiset(s.baseData)[x] else 0
    ensures r.currentPage <= s.currentPage && r.currentPage <= PageCount(|r.baseData|)
    ensures r.currentPage == s.currentPage || r.currentPage == PageCount(|r.baseData|)
    ensures r == s.(baseData := r.baseData, currentPage := r.currentPage)
  {
    var kept := Filter(s.baseData, NotId(id));
    FilterMembers(s.baseData, NotId(id));
    FilterCounts(s.baseData, NotId(id));
    var pages := PageCount(|kept|);
    s.(baseData := kept, currentPage := if s.currentPage > pages then pages else s.currentPage)
  }

  /** The records the search lets through. */
  function Visible(s: State): seq<Record> {
    Filtered(s.baseData, s.searchQuery)
  }

  /** The table rows: the current page of the visible records. */
  function DisplayedRows(s: State): (rows: seq<Record>)
    ensures |rows| <= RecordsPerPage
    ensures forall k :: 0 <= k < |rows| ==> rows[k] in s.baseData && Matches(s.searchQuery, rows[k])
  {
    var v := Visible(s);
    var rows := PageSlice(v, s.currentPage);
    assert forall k :: 0 <= k < |rows| ==> rows[k] in v by {
      if s.currentPage < 1 {
        assert s.currentPage == 0 ==> rows == [];
        SliceMembers(v, s.currentPage);
      }
    }
    rows
  }

  /** The number of page buttons: enough pages for every visible record, and no more. */
  function PageButtons(s: State): (n: nat)
    ensures n * RecordsPerPage >= |Visible(s)|
    ensures n == 0 || (n - 1) * RecordsPerPage < |Visible(s)|
    ensures n == 0 <==> Visible(s) == []
  {
    PageCount(|Visible(s)|)
  }

  /** Clicking page button `p`; the button exists only for pages 1 to the page count. */
  function GoToPage(s: State, p: int): (r: State)
    requires 1 <= p <= PageButtons(s)
    ensures r.currentPage == p
    ensures 0 < |DisplayedRows(r)|
    ensures r == s.(currentPage := r.currentPage)
  {
    s.(currentPage := p)
  }

  /**
   * Row `k` of the table shows its inline inputs and its Save button:
   * `editingId === record.id`. Otherwise it shows Edit and Delete.
   */
  predicate RowInEditMode(s: State, k: int) {
    0 <= k < |DisplayedRows(s)| && s.editingId == DisplayedRows(s)[k].id
  }

  predicate RowHasButtons(s: State, k: int) {
    0 <= k < |DisplayedRows(s)| && s.editingId != DisplayedRows(s)[k].id
  }

  /**
   * The user events the component reacts to. Row events name a row of the
   * table as displayed; the handlers receive that row's record.
   */
  datatype Event =
    | FileSelected(sel: Selection)
    | QueryTyped(text: string)
    | EditClicked(row: int)
    | DeleteClicked(row: int)
    | SaveClicked(row: int)
    | NameTyped(row: int, value: string)
    | EmailTyped(row: int, value: string)
    | PageClicked(index: int)

  /** What every reachable state satisfies: a non-negative page and a lower-case query. */
  predicate Valid(s: State) {
    && s.currentPage >= 0
    && forall i :: 0 <= i < |s.searchQuery| ==> !IsUpper(s.searchQuery[i])
  }

  /**
   * Dispatch one event to its handler. An event on a control the table does
   * not show (a row past the page, Save on a row not in edit mode, Delete on
   * one that is) changes nothing.
   */
  function Step(s: State, e: Event): (r: State)
    ensures Valid(s) ==> Valid(r)
    ensures (e.SaveClicked? || e.NameTyped? || e.EmailTyped?) && !RowInEditMode(s, e.row) ==> r == s
    ensures (e.EditClicked? || e.DeleteClicked?) && !RowHasButtons(s, e.row) ==> r == s
    ensures e.PageClicked? && !(0 <= e.index < PageButtons(s)) ==> r == s
  {
    var rows := DisplayedRows(s);
    match e
    case FileSelected(sel) => Upload(s, sel)
    case QueryTyped(text) => SetQuery(s, text)
    case EditClicked(k) => if RowHasButtons(s, k) then StartEdit(s, rows[k].id) else s
    case DeleteClicked(k) => if RowHasButtons(s, k) then Delete(s, rows[k].id) else s
    case SaveClicked(k) =>
      if RowInEditMode(s, k) then Save(s, rows[k].id, rows[k].name, rows[k].email) else s
    case NameTyped(k, value) => if RowInEditMode(s, k) then EditName(s, rows[k].id, value) else s
    case EmailTyped(k, value) => if RowInEditMode(s, k) then EditEmail(s, rows[k].id, value) else s
    case PageClicked(i) => if 0 <= i < PageButtons(s) then GoToPage(s, i + 1) else s
  }

  /** Handle the events one after another. */
  function Run(s: State, events: seq<Event>): (r: State)
    ensures Valid(s) ==> Valid(r)
    decreases |events|
  {
    if events == [] then s else Run(Step(s, events[0]), events[1..])
  }

  /** From mount on, the page never goes negative and the query never holds an upper-case letter. */
  lemma ReachableStatesValid(events: seq<Event>)
    ensures Valid(Run(Initial, events))
  {
  }

  /** Uploading N records into a fresh component shows all N across the pages. */
  lemma FirstUploadShowsEveryRecord(name: string, items: seq<Record>)
    requires forall i :: 0 <= i < |items| ==> items[i].id.Val? || items[i].name.Val? || items[i].email.Val?
    ensures var r := Upload(Initial, File(name, JsonMime, ParsedArray(items)));
      Visible(r) == items && PageButtons(r) == PageCount(|items|)
  {
    EmptyQueryShowsAll(items);
  }

  /** The first upload is taken as it is: two records with one email both stay. */
  lemma FirstUploadKeepsDuplicates()
    ensures var a := Record(Val(NumId(1)), Val("Ann"), Val("a@x.org"));
      var b := Record(Val(NumId(2)), Val("Bea"), Val("a@x.org"));
      var r := Upload(Initial, File("clients.json", JsonMime, ParsedArray([a, b])));
      r.baseData == [a, b] && !DistinctEmails(r.baseData)
  {
    var a := Record(Val(NumId(1)), Val("Ann"), Val("a@x.org"));
    var b := Record(Val(NumId(2)), Val("Bea"), Val("a@x.org"));
    assert [a, b][0].email == [a, b][1].email;
  }

  /** A later upload keeps a list with distinct emails free of duplicates. */
  lemma MergedUploadKeepsDistinct(s: State, sel: Selection)
    requires FileChosen(s) && DistinctEmails(s.baseData)
    ensures DistinctEmails(Upload(s, sel).baseData)
  {
    if sel.File? && sel.mimeType == JsonMime && sel.content.ParsedArray? {
      MergeKeepsDistinct(s.baseData, sel.content.items);
    }
  }

  /**
   * A record of the last uploaded file cannot be saved with its own email:
   * the check looks at that file, not at the live list.
   */
  lemma SaveRejectsOwnEmail(s: State, rec: Record)
    requires rec in s.originalData
    ensures var r := Save(s, rec.id, rec.name, rec.email);
      r.baseData == s.baseData && r.error == Some(Message(EmailInUse))
  {
    assert rec.email in Emails(s.originalData);
  }

  /**
   * Save can give a second live record an email already in the list: after
   * uploading `[a, b]` and then `[b]`, only `b`'s email is checked against.
   */
  lemma SaveCanDuplicateLiveEmail()
    ensures var a := Record(Val(NumId(1)), Val("Ann"), Val("a@x.org"));
      var b := Record(Val(NumId(2)), Val("Bea"), Val("b@x.org"));
      var s1 := Upload(Initial, File("first.json", JsonMime, ParsedArray([a, b])));
      var s := Upload(s1, File("second.json", JsonMime, ParsedArray([b])));
      var r := Save(s, b.id, b.name, a.email);
      s.baseData == [a, b] && DistinctEmails(s.baseData) && r.error == None && !DistinctEmails(r.baseData)
  {
    var a := Record(Val(NumId(1)), Val("Ann"), Val("a@x.org"));
    var b := Record(Val(NumId(2)), Val("Bea"), Val("b@x.org"));
    var s1 := Upload(Initial, File("first.json", JsonMime, ParsedArray([a, b])));
    assert s1.baseData == [a, b] && FileChosen(s1);
    assert b.email in Emails([a, b]);
    assert Appended(Emails([a, b]), [b]) == [] by {
      assert [b][1..] == [];
    }
    var s := Upload(s1, File("second.json", JsonMime, ParsedArray([b])));
    assert s.baseData == [a, b];
    assert Emails(s.originalData) == {b.email};
    var r := Save(s, b.id, b.name, a.email);
    assert r.baseData[0] == a;
    assert r.baseData[1].email == a.email;
  }

  /** Deleting the only record on the last page moves the cursor back one page. */
  lemma DeleteOnlyRowOfLastPage(s: State, k: int)
    requires 0 <= k < |s.baseData|
    requires forall j :: 0 <= j < |s.baseData| && j != k ==> s.baseData[j].id != s.baseData[k].id
    requires |s.baseData| % RecordsPerPage == 1
    requires s.currentPage == PageCount(|s.baseData|)
    ensures Delete(s, s.baseData[k].id).currentPage == s.currentPage - 1
  {
    var id := s.baseData[k].id;
    FilterDropsOne(s.baseData, NotId(id), k);
    var m := |s.baseData| / RecordsPerPage;
    assert |s.baseData| == m * RecordsPerPage + 1;
    assert PageCount(|s.baseData|) == m + 1;
    assert PageCount(m * RecordsPerPage) == m;
  }

  /** Deleting the last remaining id empties the list and sets the page to 0. */
  lemma DeleteLastIdGoesToPageZero(s: State, id: Field<Id>)
    requires forall i :: 0 <= i < |s.baseData| ==> s.baseData[i].id == id
    requires s.currentPage >= 1
    ensures var r := Delete(s, id);
      r.baseData == [] && r.currentPage == 0 && DisplayedRows(r) == [] && PageButtons(r) == 0
  {
  }

  /** A query no record matches shows no rows and no page buttons. */
  lemma NoMatchShowsNothing(s: State)
    requires forall i :: 0 <= i < |s.baseData| ==> !Matches(s.searchQuery, s.baseData[i])
    ensures DisplayedRows(s) == [] && PageButtons(s) == 0
  {
  }

  /** Every visible record is a row of some page that has a button. */
  lemma EveryVisibleRecordHasAPage(s: State, i: int)
    requires 0 <= i < |Visible(s)|
    ensures exists p :: 1 <= p <= PageButtons(s) && Visible(s)[i] in DisplayedRows(s.(currentPage := p))
  {
    var p := i / RecordsPerPage + 1;
    PageOfIndex(Visible(s), i);
    assert DisplayedRows(s.(currentPage := p)) == PageSlice(Visible(s), p);
    assert Visible(s)[i] == PageSlice(Visible(s), p)[i % RecordsPerPage];
  }

  /**
   * `null` and a missing key are different emails: a `null` email in the last
   * upload does not block saving a record that has no email key.
   */
  lemma SaveNullIsNotMissing()
    ensures var b := Record(Val(NumId(2)), Val("Bo"), Missing);
      var s := Initial.(baseData := [b], originalData := [Record(Val(NumId(1)), Missing, Null)]);
      var r := Save(s, b.id, b.name, b.email);
      r.error == None && r.baseData == [b]
  {
    var b := Record(Val(NumId(2)), Val("Bo"), Missing);
    var o := Record(Val(NumId(1)), Missing, Null);
    assert Emails([o]) == {Null};
    var s := Initial.(baseData := [b], originalData := [o]);
    var r := Save(s, b.id, b.name, b.email);
    assert r.baseData[0] == b;
  }

  /** Deleting the row without an id key keeps the records whose id is `null`. */
  lemma DeleteMissingIdKeepsNullIds(s: State)
    ensures forall x :: x in s.baseData && x.id == Null ==> x in Delete(s, Missing).baseData
  {
  }

  /**
   * At mount the edit cursor is `null`, so after uploading a record whose id
   * is `null` its row already shows the inline inputs and Save button.
   */
  lemma NullIdRowStartsInEditMode()
    ensures var a := Record(Null, Val("Ann"), Val("a@x.org"));
      var s := Upload(Initial, File("clients.json", JsonMime, ParsedArray([a])));
      DisplayedRows(s) == [a] && RowInEditMode(s, 0) && !RowHasButtons(s, 0)
  {
    var a := Record(Null, Val("Ann"), Val("a@x.org"));
    var s := Upload(Initial, File("clients.json", JsonMime, ParsedArray([a])));
    EmptyQueryShowsAll([a]);
    assert Visible(s) == [a];
    assert PageSlice([a], 1) == [a];
  }
}
