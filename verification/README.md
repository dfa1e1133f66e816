# form-builder, modelled in Dafny

This project models the core of the form-builder service, whose code is all in
`main.go`. The service has three HTTP endpoints:

- **save-form** stores a form schema. The request must pass the
  `x-client-key` gate and the struct validator.
- **get-form** renders a stored form as an HTML page with a submit URL.
- **submit-form** appends one answer to the form's CSV answer file. A header
  row is written first when the file is empty. The browser is then sent back
  to the referring page.

The model has one module per component:

| file | module | what it models |
|---|---|---|
| `validation.dfy` | `Validation` | `Field`, `Form`, the `validate` tags and the custom `fieldtype` rule |
| `gate.dfy` | `Gate` | `clientKeyMiddleware` |
| `strings.dfy` | `Strings` | the byte order of `sort.Strings`, and the sorted key list of a set |
| `answers.dfy` | `Answers` | stripping the reserved keys, `sortByKey`, the header and data rows, and the append to the CSV file |
| `decimal.dfy` | `Decimal` | `fmt.Sprintf("%d", timestamp)`, the directory name of a saved form |
| `http.dfy` | `Http` | status codes and response bodies |
| `service.dfy` | `Service` | the three handlers over an abstract `form-build` tree |
| `wrappers.dfy` | `Wrappers` | `Option` |

Each handler is a pure function. It takes the request and the directory tree,
and returns the response and the new tree. The tree maps a form ID to its
directory. A directory holds the form file, if there is one, and the rows of
the answer file.

Some inputs come from outside the handler, so they are parameters of the
model:

- the clock's millisecond timestamp;
- the configured domain;
- the list of allowed client keys.

Go's behaviour on missing values is kept:

- A missing map key reads as `""`.
- A missing header reads as `""`.
- A JSON body with no `fields` member binds a nil slice. It is modelled as
  `None`, which is distinct from an empty list.

## Model

| member | source | states |
|---|---|---|
| Validation.IsFieldType | main.go:41-57 | a type passes the `fieldtype` rule exactly when it is one of text, email, textarea, number, date, checkbox; so the empty type never passes |
| Validation.CheckField | main.go:27-32 | a field's error list is empty exactly when label and name are non-empty, the type is allowed and the name is ASCII alphanumeric; every error names this field's index and a rule the field really breaks, and every rule the field breaks is reported |
| Validation.CheckFields | main.go:36 | the `dive` over the list reports nothing exactly when every field is valid |
| Validation.CheckFieldsBlame | main.go:36 | every error from the `dive` names an index inside the list, and a rule that the field at that index breaks |
| Validation.CheckFieldsComplete | main.go:36 | every rule broken by a field of the list is reported, under that field's index |
| Validation.ValidateForm | main.go:27-37 | the verdict is empty exactly when the title is non-empty, `fields` is present (an empty list is accepted) and every field is valid; the error list holds exactly the errors the form justifies: every reported error is a rule the form breaks, and every rule it breaks is reported |
| Validation.BadFieldReported | main.go:36 | an invalid field at position i always yields an error carrying index start + i |
| Validation.OneBadFieldRejectsForm | main.go:36 | one invalid field rejects the whole form, with an error naming that field's index |
| Validation.PlaceholderIgnored | main.go:31 | two forms that differ only in placeholders get identical verdicts and identical error lists |
| Gate.FindKey | main.go:158-163 | the scan over the allowed keys succeeds exactly when the key is in the list |
| Gate.Authorize | main.go:154-164 | an empty header is denied as missing; a listed key is admitted as the client key; any other key is denied as unknown |
| Gate.Guard | main.go:152-166 | a denial answers 403 with its own message and leaves the state untouched; an admission is exactly one run of the wrapped handler |
| Gate.DenialsDiffer | main.go:155-164 | the missing-key and unknown-key denials carry different messages |
| Strings.SortedKeys | main.go:207-213 | the key list is strictly ascending in byte order and holds exactly the set's elements, once each |
| Strings.SortedUnique | main.go:213 | two strictly ascending lists with the same elements are equal, so the sorted key order is unique |
| Strings.Insert | main.go:213 | inserting a new key into an ascending list keeps it ascending and adds exactly that key |
| Decimal.Format | main.go:245 | the directory name is a non-empty string of decimal digits with no leading zero, except for 0 itself |
| Decimal.ParseFormat | main.go:244-245 | reading the directory name back as a decimal number gives the timestamp |
| Decimal.FormatInjective | main.go:244-245 | two timestamps give the same directory name exactly when they are equal |
| Answers.StripReserved | main.go:315-319 | the record keeps exactly the body's keys other than formID, clientXToken and referrer, each with its submitted value |
| Answers.SortByKey | main.go:205-222 | returns the keys in ascending order and a map with exactly the input's pairs |
| Answers.SortKeySet | main.go:207-213 | the collected and sorted keys are the set's unique ascending enumeration |
| Answers.Rebuild | main.go:216-219 | copying the pairs key by key in any complete key order rebuilds the input map |
| Answers.Columns | main.go:345-350 | the header row is ascending and holds exactly the record's keys, once each |
| Answers.ToEntry | main.go:345-359 | header and data row have one cell per record key; the header is ascending; the value in each column belongs to that column's key |
| Answers.RowWidths | main.go:345-359 | both rows have exactly as many cells as the body has non-reserved keys |
| Answers.AppendRows | main.go:336-362 | the append keeps the existing rows; it adds the header and then the data row exactly when the file was empty, and only the data row otherwise |
| Answers.LaterRowMatchesHeader | main.go:346-362 | a later answer with the same key set as the first puts each value under its own key's header cell |
| Answers.AppendAllToStartedFile | main.go:336-362 | appending n answers to a non-empty file adds exactly their n data rows, in order |
| Answers.FromEmptyFile | main.go:336-362 | n answers appended to an empty file give one header row, from the first answer, then n data rows in order |
| Answers.RowsAsWritten | main.go:346-359 | as written, whatever the two iteration orders, the header lists each record key exactly once and both rows have one cell per key and every data cell is one of the record's values; which value lands under which key is not fixed |
| Answers.RowsAsWrittenMisaligned | main.go:346-359 | two legal iterations of one two-key answer give an unsorted header and a value under the wrong column |
| Answers.ExampleSubmission | main.go:315-359 | the answer {formID 123, clientXToken x, referrer http://x, name Alice, email a@b.com} gives the header email,name and the data row a@b.com,Alice |
| Service.SubmitUrl | main.go:287 | the submit URL is the configured domain, then the fixed `/api/submit-form/` route, then the form ID |
| Service.SubmitUrlInjective | main.go:287 | two forms of one deployment never share a submit URL |
| Service.SaveForm | main.go:233-266 | the tree changes only for an admitted key and a valid form; the answer is 200 exactly in that case |
| Service.RejectedSaveWritesNothing | main.go:233-266 | a missing key, an unknown key and an invalid form each leave the tree unchanged, with 403 and its message, 403 and its message, and 400 respectively |
| Service.GetForm | main.go:268-294 | an empty ID gives 400; an ID with no form file gives 404; a form file that does not parse gives 500 "Internal Server Error"; a readable form gives 200 and the page with that form, its submit URL and the fixed token |
| Service.Bind | main.go:298-301 | the bound map's formID is the body's when the body sends one and the path's `:formID` otherwise; every other key is exactly the body's, with its value |
| Service.PathIdNeverRecorded | main.go:298-321 | the bound path parameter is stripped with the reserved keys, so the recorded answer is the body's alone |
| Service.SubmitRequestOutcome | main.go:297-368 | a request with no formID in the body and an empty path ID gives 400 and touches nothing; otherwise it redirects to the body's referrer and records the body's answers under the body's formID, or under the path's `:formID` when the body has none |
| Service.SaveThenGet | main.go:243-294 | a form saved at a timestamp is served back at that timestamp's ID, with its own submit URL |
| Service.SaveKeepsOtherForms | main.go:243-265 | a save leaves the page of every other form ID as it was |
| Service.SaveWritesOnlyFormFile | main.go:243-263 | a save, admitted or not, keeps every existing directory, leaves every directory other than its own unchanged, and changes no answer file, its own directory's included |
| Service.RecordOutcome | main.go:309-362 | recording an answer creates the form's directory if needed, changes only that directory's answer file, and appends exactly one entry there |
| Service.SubmitOutcome | main.go:297-368 | an empty formID gives 400 "Invalid form data" and the tree stays unchanged; any other formID gives a 3-second redirect to the referrer and records the stripped answer under that formID |
| Service.SubmitAppends | main.go:309-362 | an accepted submission keeps the existing rows, adds a header only to an empty file, and writes rows with one cell per non-reserved key |
| Service.SubmitDoesNotCreateForm | main.go:274-325 | answers to a never-saved form ID do not make that form servable |
| Service.RecordAllAnswers | main.go:324-362 | recording n entries under one form appends them to its answer file in order |
| Service.SubmitAllToOneForm | main.go:297-362 | n submissions naming one form are that form's answers, recorded in order |
| Service.SubmissionsFromEmptyFile | main.go:297-362 | n submissions to a form with no answers yet leave n + 1 rows: the first submission's header, then each submission's data row in order |

## Left out

- Echo routing, the logger and recover middleware, configuration loading,
  signals and shutdown are not modelled. They are wiring around the
  handlers.
- Bind failures are not modelled. On submit-form, a body that fails to bind
  gets the same 400 "Invalid form data" answer as an empty formID. On
  save-form it gets 400 "Invalid form structure". The save model starts from
  an already bound `Form`.
- JSON encoding and decoding of the form file is not modelled. The tree holds
  the form value itself, and a file that does not parse is `Unreadable`
  (500).
- The HTML template (`makeHTML`) is not modelled. The page is modelled as its
  three inputs: the form, the submit URL and the token. A missing or failing
  template gives 500 in the code and is not modelled.
- Filesystem failures are not modelled. A failing MkdirAll, Create,
  OpenFile, Stat or csv Write gives 500 in the code. The model assumes every
  filesystem call succeeds.
- The template file `form-build/form.html` is not part of the tree, so the
  form ID `form.html` is outside the model. For that ID the code answers 500
  on both get-form and submit-form. On get-form, `fileExists` treats every
  `os.Stat` error other than "does not exist" as "present". Here the error is
  "not a directory", and reading the file then fails. On submit-form,
  `MkdirAll` fails on the existing file.
- `filepath.Join` cleaning is not modelled. Form IDs are treated as plain
  directory names, so an ID containing `/` or `..` is outside the model.
- Service.SubmitUrl: the URL is stated for a plain ID only. `filepath.Join`
  would clean any other ID.
- Negative timestamps are not modelled. A timestamp is a `nat`, because the
  clock is after 1970.
- Concurrency is not modelled: the per-request mutex, and two saves in the
  same millisecond racing each other. The handlers are modelled one request
  at a time.
- The `clientXToken` is never checked by the code (a TODO), and the model
  only drops it.
- CSV quoting and escaping are not modelled. A row is a list of cells.
- Validation.ValidateForm: the error list is modelled as (path, tag) pairs.
  The code formats that list into an error text, and the model does not
  model the wording of that text.
- Fields: the code accepts an empty `fields` list, since `required` on a
  slice rejects only nil. A list with no fields is therefore valid here,
  although a non-empty list may have been intended.
- Service.GetForm: a whitespace-only form ID is not rejected by the code.
  The model treats it as any other ID, so it is not found unless such a
  directory exists.
- Service.Bind: `c.Bind` is modelled only for its effect on the answer
  map. The path parameter `formID` is bound first, and the decoded form
  values are bound over it. `body` stands for those decoded values. For a
  form-encoded body they also include the URL's query parameters, with the
  body's own value winning for a key that appears in both. So `?formID=7`
  with no `formID` in the body records under `7`. Query parameters are not
  modelled as a separate input.
- Strings are modelled as `seq<char>`, so keys and values are assumed to be
  valid UTF-8. A form-encoded `%FF` decodes to bytes that are not valid
  UTF-8; `sort.Strings` would order such bytes one by one, and the model
  does not represent them.

## Findings

| source | as written | input that shows it | evidently intended | confidence | as-written member | corrected member |
|---|---|---|---|---|---|---|
| main.go:346-359 | the header loop and the data loop each `range` over the map returned by `sortByKey`. Go map iteration order is unspecified and may differ between the two loops, so the sort has no effect | answer {email: a@b.com, name: Alice}; the header loop visits name, email and the data loop visits email, name | one ascending key order shared by the header and every data row | not executed | Answers.RowsAsWrittenMisaligned | Answers.ToEntry |

The rest of the model uses the corrected rows (`ToEntry`, via `EntryOf`).
