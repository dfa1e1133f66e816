/**
  The three API handlers over an abstract view of the `form-build` directory:
  one entry per sub-directory, holding the form file (if any) and the rows of
  the answer file. Each handler is a pure function from the request and the
  directory tree to the response and the new tree.

  The clock and the configured domain and client keys are parameters.
  Filesystem errors and body-binding errors are not modelled.
 */
module Service {
  import opened Wrappers
  import opened Validation
  import opened Http
  import opened Gate
  import opened Answers
  import opened Decimal

  /** `form.json`: a form written by save-form, or a file that does not parse. */
  datatype FormFile = Stored(form: Form) | Unreadable

  /** One `form-build/<id>` directory. `answers` is empty when there is no answer file yet. */
  datatype Dir = Dir(formFile: Option<FormFile>, answers: seq<Row>)

  type Disk = map<string, Dir>

  const RootDir := "form-build"
  const SubmitPath := "/api/submit-form/"
  /** The fixed token embedded in every rendered form; it is never checked. */
  const FormToken := "x.y.z"
  const RedirectDelay: nat := 3

  const MissingParameterMessage := "Missing mandatory parameter"
  const NotFoundMessage := "Failed get form because the form not found or no longer exists"
  const InvalidFormDataMessage := "Invalid form data"
  const SavedMessage := "Form saved successfully"
  const InternalErrorText := "Internal Server Error"

  const EmptyDir := Dir(None, [])

  /** `MkdirAll`: the directory as it is, or a new empty one. */
  function DirOf(disk: Disk, id: string): Dir
  {
    if id in disk then disk[id] else EmptyDir
  }

  /** The path reported after a save, for a plain directory name. */
  function FormPath(id: string): string
  {
    RootDir + "/" + id + "/form.json"
  }

  /** The absolute submit URL given to the form page, for a plain form ID. */
  function SubmitUrl(domain: string, id: string): (url: string)
    ensures |url| == |domain| + |SubmitPath| + |id|
    ensures url[..|domain|] == domain && url[|url| - |id|..] == id
    ensures url[|domain|..|domain| + |SubmitPath|] == SubmitPath
  {
    domain + SubmitPath + id
  }

  /** Different forms of one deployment get different submit URLs. */
  lemma SubmitUrlInjective(domain: string, a: string, b: string)
    ensures SubmitUrl(domain, a) == SubmitUrl(domain, b) <==> a == b
  {
    if SubmitUrl(domain, a) == SubmitUrl(domain, b) {
      assert a == SubmitUrl(domain, a)[|domain| + |SubmitPath|..];
      assert b == SubmitUrl(domain, b)[|domain| + |SubmitPath|..];
    }
  }

  // ------------------------------------------------------------------
  // POST /api/save-form
  // ------------------------------------------------------------------

  /**
    The save-form handler behind the key gate: validate, then write the form
    file into the directory named after the millisecond timestamp `stamp`.
    An existing directory of that name is reused and its form file replaced.
   */
  function Save(disk: Disk, form: Form, stamp: nat): (Response, Disk)
  {
    var errors := ValidateForm(form);
    if errors != [] then
      (Response(StatusBadRequest, ValidationFailed(errors)), disk)
    else
      var id := Format(stamp);
      (Response(StatusOK, Saved(SavedMessage, FormPath(id))),
       disk[id := DirOf(disk, id).(formFile := Some(Stored(form)))])
  }

  /** The route: the client-key gate in front of `Save`. */
  function SaveForm(allowed: seq<string>, header: string, disk: Disk, form: Form, stamp: nat)
    : (r: (Response, Disk))
    ensures r.1 != disk ==> header != "" && header in allowed && ValidForm(form)
    ensures r.0.status == StatusOK <==> header != "" && header in allowed && ValidForm(form)
  {
    Guard(allowed, header, disk, (key: string, d: Disk) => Save(d, form, stamp))
  }

  // ------------------------------------------------------------------
  // GET /api/get-form/:formID
  // ------------------------------------------------------------------

  /** The get-form handler. It reads the tree and never changes it. */
  function GetForm(disk: Disk, domain: string, id: string): (r: Response)
    ensures r.status == StatusBadRequest <==> id == ""
    ensures r.status == StatusNotFound <==>
              id != "" && (id !in disk || disk[id].formFile.None?)
    ensures r.status == StatusOK <==>
              id != "" && id in disk && disk[id].formFile.Some? && disk[id].formFile.value.Stored?
    ensures r.status == StatusOK ==>
              r.body == FormPage(disk[id].formFile.value.form, SubmitUrl(domain, id), FormToken)
    ensures id != "" && id in disk && disk[id].formFile == Some(Unreadable) ==>
              r == Response(StatusInternalServerError, StatusText(InternalErrorText))
  {
    if id == "" then Response(StatusBadRequest, Message(MissingParameterMessage))
    else if id !in disk || disk[id].formFile.None? then Response(StatusNotFound, Message(NotFoundMessage))
    else
      match disk[id].formFile.value
      case Unreadable => Response(StatusInternalServerError, StatusText(InternalErrorText))
      case Stored(form) => Response(StatusOK, FormPage(form, SubmitUrl(domain, id), FormToken))
  }

  // ------------------------------------------------------------------
  // POST /api/submit-form/:formID
  // ------------------------------------------------------------------

  /**
    `c.Bind` into a `map[string]string`: Echo's default binder writes the
    path parameter `formID` first, then the body's members over it.
   */
  function Bind(pathId: string, body: map<string, string>): (formData: map<string, string>)
    ensures Get(formData, "formID") == if "formID" in body then body["formID"] else pathId
    ensures forall k :: k != "formID" ==> (k in formData <==> k in body)
    ensures forall k :: k in body ==> k in formData && formData[k] == body[k]
  {
    map["formID" := pathId] + body
  }

  /**
    The submit-form handler, after binding: `body` is the bound map. The
    target directory is named by its `formID`.
   */
  function SubmitForm(disk: Disk, body: map<string, string>): (Response, Disk)
  {
    var id := Get(body, "formID");
    if id == "" then
      (Response(StatusBadRequest, Message(InvalidFormDataMessage)), disk)
    else
      (Response(StatusOK, Redirect(RedirectDelay, Get(body, "referrer"))),
       Record(disk, id, EntryOf(body)))
  }

  /** `MkdirAll` on `form-build/<id>`, then one append to its answer file. */
  function Record(disk: Disk, id: string, e: Entry): Disk
  {
    var dir := DirOf(disk, id);
    disk[id := dir.(answers := AppendEntry(dir.answers, e))]
  }

  /**
    Recording touches only the directory it names (creating it if missing),
    and in it only the answer file.
   */
  lemma RecordOutcome(disk: Disk, id: string, e: Entry)
    ensures var disk' := Record(disk, id, e);
            && disk'.Keys == disk.Keys + {id}
            && (forall other :: other in disk && other != id ==> disk'[other] == disk[other])
            && disk'[id].formFile == DirOf(disk, id).formFile
            && disk'[id].answers == AppendEntry(DirOf(disk, id).answers, e)
  {
  }

  /**
    A submission without a `formID` is refused and touches nothing. Any
    other is answered with a redirect to its `referrer` and records its
    stripped answers under the directory its `formID` names.
   */
  lemma SubmitOutcome(disk: Disk, body: map<string, string>)
    ensures var (resp, disk') := SubmitForm(disk, body);
            Get(body, "formID") == "" ==>
              resp == Response(StatusBadRequest, Message(InvalidFormDataMessage)) && disk' == disk
    ensures var (resp, disk') := SubmitForm(disk, body);
            var id := Get(body, "formID");
            id != "" ==>
              && resp == Response(StatusOK, Redirect(RedirectDelay, Get(body, "referrer")))
              && disk' == Record(disk, id, EntryOf(body))
  {
  }

  /** The route: bind the path parameter and the body, then handle. */
  function SubmitRequest(disk: Disk, pathId: string, body: map<string, string>): (Response, Disk)
  {
    SubmitForm(disk, Bind(pathId, body))
  }

  /** The bound path parameter is a reserved key, so it never reaches the answer file. */
  lemma PathIdNeverRecorded(pathId: string, body: map<string, string>)
    ensures StripReserved(Bind(pathId, body)) == StripReserved(body)
    ensures EntryOf(Bind(pathId, body)) == EntryOf(body)
  {
    var a := StripReserved(Bind(pathId, body));
    var b := StripReserved(body);
    assert a.Keys == b.Keys;
  }

  /**
    A request is handled under the body's `formID` when it sends one, and
    under the path's `:formID` otherwise. Without either it is refused and
    touches nothing; otherwise it redirects to the body's `referrer` and
    records the body's answers under that form ID.
   */
  lemma SubmitRequestOutcome(disk: Disk, pathId: string, body: map<string, string>)
    ensures var id := if "formID" in body then body["formID"] else pathId;
            var (resp, disk') := SubmitRequest(disk, pathId, body);
            id == "" ==>
              resp == Response(StatusBadRequest, Message(InvalidFormDataMessage)) && disk' == disk
    ensures var id := if "formID" in body then body["formID"] else pathId;
            var (resp, disk') := SubmitRequest(disk, pathId, body);
            id != "" ==>
              && resp == Response(StatusOK, Redirect(RedirectDelay, Get(body, "referrer")))
              && disk' == Record(disk, id, EntryOf(body))
  {
    var formData := Bind(pathId, body);
    SubmitOutcome(disk, formData);
    PathIdNeverRecorded(pathId, body);
    assert Get(formData, "referrer") == Get(body, "referrer");
  }

  // ------------------------------------------------------------------
  // Properties across handlers
  // ------------------------------------------------------------------

  /** A saved form is served back as the page of its new ID. */
  lemma SaveThenGet(allowed: seq<string>, key: string, disk: Disk, form: Form, stamp: nat,
                    domain: string)
    requires key != "" && key in allowed && ValidForm(form)
    ensures var (resp, disk') := SaveForm(allowed, key, disk, form, stamp);
            var id := Format(stamp);
            && resp == Response(StatusOK, Saved(SavedMessage, FormPath(id)))
            && GetForm(disk', domain, id) == Response(StatusOK, FormPage(form, SubmitUrl(domain, id), FormToken))
  {
  }

  /** A rejected save, for any reason, writes nothing. */
  lemma RejectedSaveWritesNothing(allowed: seq<string>, header: string, disk: Disk, form: Form,
                                  stamp: nat)
    requires header == "" || header !in allowed || !ValidForm(form)
    ensures SaveForm(allowed, header, disk, form, stamp).1 == disk
    ensures header == "" ==>
              SaveForm(allowed, header, disk, form, stamp).0 == Response(StatusForbidden, Message(MissingKeyMessage))
    ensures header != "" && header !in allowed ==>
              SaveForm(allowed, header, disk, form, stamp).0 == Response(StatusForbidden, Message(UnknownKeyMessage))
    ensures header != "" && header in allowed ==>
              SaveForm(allowed, header, disk, form, stamp).0.status == StatusBadRequest
  {
  }

  /** Saving at a new timestamp leaves every other form's page as it was. */
  lemma SaveKeepsOtherForms(allowed: seq<string>, header: string, disk: Disk, form: Form,
                            stamp: nat, domain: string, other: string)
    requires other != Format(stamp)
    ensures GetForm(SaveForm(allowed, header, disk, form, stamp).1, domain, other)
            == GetForm(disk, domain, other)
  {
  }

  /**
    A save writes only the form file of its own directory: every existing
    directory stays, every other directory is unchanged, and no answer file
    changes, the saved directory's included.
   */
  lemma SaveWritesOnlyFormFile(allowed: seq<string>, header: string, disk: Disk, form: Form,
                               stamp: nat)
    ensures var disk' := SaveForm(allowed, header, disk, form, stamp).1;
            && disk.Keys <= disk'.Keys
            && (forall x :: x in disk && x != Format(stamp) ==> disk'[x] == disk[x])
            && (forall x :: x in disk' ==> disk'[x].answers == DirOf(disk, x).answers)
  {
  }

  /**
    An accepted submission appends to the answer file of its form ID: a
    header row only if the file was empty, a data row every time, and both
    with one entry per non-reserved key and no reserved key among them.
   */
  lemma SubmitAppends(disk: Disk, body: map<string, string>)
    requires Get(body, "formID") != ""
    ensures var id := Get(body, "formID");
            var before := DirOf(disk, id).answers;
            var after := SubmitForm(disk, body).1[id].answers;
            && after[..|before|] == before
            && (|after| == |before| + 2 <==> before == [])
            && (|after| == |before| + 1 <==> before != [])
            && |after[|after| - 1]| == |body.Keys - ReservedKeys|
            && (before == [] ==>
                  && |after[0]| == |body.Keys - ReservedKeys|
                  && forall k :: k in after[0] <==> k in body && k !in ReservedKeys)
  {
    var id := Get(body, "formID");
    var e := EntryOf(body);
    RecordOutcome(disk, id, e);
    StrippedKeys(body);
  }

  /** Answers to a form that was never saved do not make it servable. */
  lemma SubmitDoesNotCreateForm(disk: Disk, body: map<string, string>, domain: string)
    requires Get(body, "formID") != ""
    requires GetForm(disk, domain, Get(body, "formID")).status == StatusNotFound
    ensures GetForm(SubmitForm(disk, body).1, domain, Get(body, "formID")).status == StatusNotFound
  {
  }

  /** Several submissions, handled one after the other. */
  function SubmitAll(disk: Disk, bodies: seq<map<string, string>>): (disk': Disk)
    ensures disk.Keys <= disk'.Keys
    ensures forall i :: 0 <= i < |bodies| && Get(bodies[i], "formID") != "" ==>
              Get(bodies[i], "formID") in disk'
    decreases |bodies|
  {
    if |bodies| == 0 then disk
    else SubmitAll(SubmitForm(disk, bodies[0]).1, bodies[1..])
  }

  /** The file entries of several bodies, one per body, in order. */
  function EntriesOf(bodies: seq<map<string, string>>): (es: seq<Entry>)
    ensures |es| == |bodies|
    decreases |bodies|
  {
    if |bodies| == 0 then [] else [EntryOf(bodies[0])] + EntriesOf(bodies[1..])
  }

  lemma {:induction false} EntriesOfAt(bodies: seq<map<string, string>>, i: nat)
    requires i < |bodies|
    ensures EntriesOf(bodies)[i] == EntryOf(bodies[i])
    decreases i
  {
    var es := EntriesOf(bodies);
    var tail := bodies[1..];
    assert es == [EntryOf(bodies[0])] + EntriesOf(tail);
    if i > 0 {
      EntriesOfAt(tail, i - 1);
      assert tail[i - 1] == bodies[i];
      assert es[i] == EntriesOf(tail)[i - 1];
    }
  }

  lemma EntriesOfCons(bodies: seq<map<string, string>>)
    requires |bodies| > 0
    ensures EntriesOf(bodies)[0] == EntryOf(bodies[0])
    ensures EntriesOf(bodies)[1..] == EntriesOf(bodies[1..])
  {
    assert EntriesOf(bodies) == [EntryOf(bodies[0])] + EntriesOf(bodies[1..]);
  }

  /** Several entries recorded one after the other under the same form. */
  function RecordAll(disk: Disk, id: string, es: seq<Entry>): Disk
    decreases |es|
  {
    if |es| == 0 then disk else RecordAll(Record(disk, id, es[0]), id, es[1..])
  }

  lemma {:induction false} RecordAllAnswers(disk: Disk, id: string, es: seq<Entry>)
    requires |es| > 0 || id in disk
    ensures id in RecordAll(disk, id, es)
    ensures RecordAll(disk, id, es)[id].answers == AppendAll(DirOf(disk, id).answers, es)
    decreases |es|
  {
    if |es| > 0 {
      var next := Record(disk, id, es[0]);
      RecordOutcome(disk, id, es[0]);
      RecordAllAnswers(next, id, es[1..]);
      AppendAllCons(DirOf(disk, id).answers, es[0], es[1..]);
      assert es == [es[0]] + es[1..];
    }
  }

  /** Submissions that all name one form are that form's entries, recorded in order. */
  lemma {:induction false} SubmitAllToOneForm(disk: Disk, bodies: seq<map<string, string>>,
                                               id: string)
    requires id != ""
    requires forall i :: 0 <= i < |bodies| ==> Get(bodies[i], "formID") == id
    ensures SubmitAll(disk, bodies) == RecordAll(disk, id, EntriesOf(bodies))
    decreases |bodies|
  {
    if |bodies| > 0 {
      var tail := bodies[1..];
      EntriesOfCons(bodies);
      SubmitOutcome(disk, bodies[0]);
      var next := SubmitForm(disk, bodies[0]).1;
      forall i | 0 <= i < |tail| ensures Get(tail[i], "formID") == id {
        assert tail[i] == bodies[i + 1];
      }
      SubmitAllToOneForm(next, tail, id);
    }
  }

  /**
    n accepted submissions to a form with no answers yet leave exactly one
    header row, from the first submission, followed by the n data rows.
   */
  lemma SubmissionsFromEmptyFile(disk: Disk, bodies: seq<map<string, string>>, id: string)
    requires id != "" && |bodies| > 0
    requires forall i :: 0 <= i < |bodies| ==> Get(bodies[i], "formID") == id
    requires DirOf(disk, id).answers == []
    ensures var rows := SubmitAll(disk, bodies)[id].answers;
            && |rows| == |bodies| + 1
            && rows[0] == EntryOf(bodies[0]).header
            && forall i :: 0 <= i < |bodies| ==> rows[i + 1] == EntryOf(bodies[i]).data
  {
    var es := EntriesOf(bodies);
    SubmitAllToOneForm(disk, bodies, id);
    RecordAllAnswers(disk, id, es);
    FromEmptyFile(es);
    var rows := SubmitAll(disk, bodies)[id].answers;
    assert rows == [es[0].header] + DataRows(es);
    EntriesOfAt(bodies, 0);
    forall i | 0 <= i < |bodies|
      ensures rows[i + 1] == EntryOf(bodies[i]).data
    {
      DataRowsAt(es, i);
      EntriesOfAt(bodies, i);
    }
  }
}
