# Student admission system: a verified model of its core

The application takes admission requests from applicants and lets an admin
approve or reject them. Approved applicants can download a generated
admission letter. This project models the sequential core under the web
routes of `app.py`:

- the `student` and `admin` tables, including the uniqueness of application
  ids and usernames;
- the application-id generator;
- the three form validators;
- submission, status lookup and letter download;
- the review transition;
- the admin session gate, with login, logout, the dashboard and the two
  JSON views;
- the default-admin bootstrap.

Modules, one per concern:

- `Records` (records.dfy): the rows, plus the first-match query that
  `filter_by(...).first()` performs.
- `ApplicationId` (application_id.dfy): `"APP" + %Y%m%d + upper(str(uuid4())[:8])`,
  and a parser that reads an id back into its date and uuid prefix.
- `Forms` (forms.dfy): `ApplicationForm`, `LoginForm` and `ReviewForm` as
  functions that return the set of failing fields.
- `Lifecycle` (lifecycle.dfy): the new row, the review transition, the
  letter file name, the download decision, the lookups, authentication and
  the admin bootstrap. All of these are pure functions.
- `Listing` (listing.dfy): the dashboard's newest-first ordering and the
  JSON projections.
- `Admission` (admission.dfy): the class `AdmissionSystem`. It holds the
  two tables and `session['admin_id']` as fields, and its methods update
  them the way the views do.
- `Scenarios` (scenarios.dfy): a client that replays the integration test
  through the class's contracts.

What the code does, and the model with it:

- There is no "pending only" guard on review (app.py:263-273). A row can be
  reviewed any number of times, and each review overwrites the previous one.
- Rejecting a row that was approved earlier keeps its `admission_letter_path`.
  One might expect a letter name to be present exactly when the row is
  approved, but the code does not guarantee this:
  `Lifecycle.StaleLetterReachable` exhibits a rejected row that still names
  its letter. The invariant every row the model reaches keeps is
  `Lifecycle.WellFormed`:
  - the review date and the comments are set exactly when the row is not
    pending;
  - any letter name is the row's own;
  - an approved row has one.

  The comments half does not hold of the code in one case the model leaves
  out. A review POST without a `comments` field stores `admin_comments = None`
  on a reviewed row (see the `Forms.DecisionOf` line under "## Left out").
- Download still refuses such a row, because it checks the status first
  (`Lifecycle.NoDownloadAfterRejection`).
- A failed login leaves an existing session in place. Only a successful
  login sets `admin_id` (app.py:237-242).

The environment enters as parameters:

- the clock (`Timestamp` values, and `Date` for `datetime.now()`);
- the uuid4 randomness (its first 32 bits);
- the `Email()` validator;
- `check_password_hash`, and the hash computed by `generate_password_hash`;
- the file names `save_file` returned;
- `os.path.exists`.

Primary keys are modelled as position plus one. SQLite gives a new row the
largest key so far plus one, and nothing deletes rows.

## Model

| member | source | states |
|---|---|---|
| `Records.FirstIndex` | app.py:210 | The query finds the first row satisfying the filter, and finds nothing exactly when no row does. |
| `ApplicationId.GenerateApplicationId` | app.py:105-106 | An id has 19 characters: "APP", then eight decimal digits, then eight upper-case hex digits. |
| `ApplicationId.ParseGenerated` | app.py:105-106 | Parsing a generated id gives back the exact date and 32-bit uuid prefix it was built from. |
| `ApplicationId.GenerateInjective` | app.py:105-106 | Two generated ids are equal if and only if their dates and uuid prefixes are both equal. |
| `ApplicationId.FromToDigits` | app.py:106 | Zero-padded fixed-width rendering loses nothing for a value that fits the width. |
| `Forms.ApplicationAcceptedIff` | app.py:59-83 | The application form is accepted exactly when each field meets its bounds, its course is one of the six codes and both files pass the file validators. The bounds are: names 2..100 non-blank characters, phone 10..20, address 10..500, qualification 5..200, CGPA 1..10, email and date of birth non-blank, email passing the email check. |
| `Forms.UploadAcceptedIff` | app.py:76-83 | A file passes exactly when it is present, its name is non-empty, and its lower-cased name ends in .pdf, .jpg, .jpeg or .png. |
| `Forms.AcceptedApplicationFitsColumns` | app.py:36-44 | An accepted form's first name, last name, phone, previous qualification, CGPA and course each fit the width their `Student` column declares. |
| `Forms.LoginAcceptedIff` | app.py:86-89 | The login form is accepted exactly when username and password are both non-blank. |
| `Forms.DecisionOf` | app.py:91-94 | The review form is accepted exactly when the status is "approved" or "rejected" and the comments have at most 500 characters. The decision is Approve exactly when the status is "approved". |
| `Forms.ApplicationErrors` | app.py:59-83 | Only the eleven application-form fields are reported, each exactly when its own validator chain fails. First and last name fail when blank or outside 2..100 characters, and email when blank or refused by the email check. Phone fails outside 10..20, address outside 10..500, qualification outside 5..200 and CGPA outside 1..10, each also when blank. Date of birth fails when blank, and the course when it is not one of the six codes. Each file fails when it is missing, has an empty name or has a disallowed extension. |
| `Forms.LoginErrors` | app.py:86-89 | Only the two login fields are reported, each exactly when it is blank. |
| `Forms.ReviewErrors` | app.py:91-94 | Only status and comments are reported: the status exactly when it is not one of the two choices, the comments exactly when they exceed 500 characters. |
| `Forms.FormScenarios` | tests/test_forms.py:41-63 | Blank login fields are refused, and so are an empty status with 501 characters of comments. "admin"/"password123" is accepted, and so is an approval with a short comment. |
| `Lifecycle.LetterFilename` | app.py:119 | The letter name is "admission_letter_" + application id + ".pdf". |
| `Lifecycle.LetterFilenameInjective` | app.py:117-120 | Two application ids share a letter file name only when the ids are equal. |
| `Lifecycle.WellFormed` | app.py:263-271 | A well-formed approved row names its own letter file. |
| `Lifecycle.NewStudent` | app.py:180-193 | A new row is pending and well formed. Its review date, comments and letter path are unset. Its application date is the insertion instant. It holds the given id, application id, applicant fields and stored-file names. |
| `Lifecycle.Reviewed` | app.py:264-271 | A reviewed row has left pending and keeps its key and its application id. |
| `Lifecycle.ReviewedFields` | app.py:264-271 | A review sets the status to the decision, the comments to the given text and the review date to now, whatever the previous status was. Only on approval does it set the letter path to the row's own letter name; otherwise the old path stays. The id, application id, applicant fields, stored files and application date are unchanged. |
| `Lifecycle.ReviewPreservesWellFormed` | app.py:263-271 | A review keeps a row well formed. |
| `Lifecycle.ReReview` | app.py:263-271 | Approving and then rejecting a row leaves it rejected, with the second comments and date, and still naming its letter file. |
| `Lifecycle.StaleLetterReachable` | app.py:263-271 | A row that is inserted, approved and then rejected is well formed, rejected, and still has a letter path. |
| `Lifecycle.DownloadDecision` | app.py:219-232 | The letter is sent exactly when the row exists, is approved, has a non-empty letter path and that file exists. It is "not available" exactly when there is no row or the row is not approved. The file sent is the stored letter name, joined to the letters folder, under the download name "admission_letter_<id>.pdf". `fileExists` stands for `os.path.exists` of that joined path. |
| `Lifecycle.DownloadAfterApproval` | app.py:219-232 | After an approval the letter is sent as soon as its file exists. |
| `Lifecycle.NoDownloadAfterRejection` | app.py:222-224 | After a rejection the letter is never available, even if a stale path and file remain. |
| `Lifecycle.FindByApplicationId` | app.py:210 | A found position holds a row with that application id. Nothing is found exactly when no row has it. |
| `Lifecycle.FindById` | app.py:260 | A found position holds a row with that key. Nothing is found exactly when no row has it. |
| `Lifecycle.FindAdmin` | app.py:238 | A found position holds an admin with that username. Nothing is found exactly when no admin has it. |
| `Lifecycle.FindByApplicationIdExact` | app.py:208-216 | With unique application ids, lookup finds exactly the row carrying the id. It reports not-found exactly when no row carries it. |
| `Lifecycle.WithDefaultAdmin` | app.py:312-321 | The bootstrap keeps every existing admin row in place and leaves an 'admin' row in the table. It appends exactly one row, 'admin' with the next key and the given hash, exactly when no admin is named 'admin'. |
| `Lifecycle.DefaultAdminIdempotent` | app.py:312-321 | Running the bootstrap a second time changes nothing. |
| `Lifecycle.DefaultAdminExactlyOnce` | app.py:312-321 | After the bootstrap usernames are still unique, and exactly one row is named 'admin'. |
| `Lifecycle.Authenticate` | app.py:237-240 | A session id is produced only for an accepted form and an admin whose username matches and whose password check succeeds. With unique usernames and an accepted form, no id is produced exactly when no matching admin passes the check. |
| `Listing.SortNewestFirst` | app.py:254 | The dashboard list holds every row exactly once (same multiset), ordered by non-increasing application date. |
| `Records.StatusText` | app.py:45 | The status column holds one of "pending", "approved" and "rejected", each naming exactly one status. |
| `ApplicationId.ParseApplicationId` | app.py:105-106 | What the parser reads back fits the printed widths: a year below 10000, a month and day below 100, and a prefix below 2^32. |
| `Listing.SummaryOf` | app.py:284-292 | A summary carries its row's key and application id, the applicant's first and last name joined by a space, the email and the course. It also carries the text of the row's own status and its application date. |
| `Listing.DetailOf` | app.py:298-310 | A detail carries its row's key and application id, the applicant's names, email, phone, course and CGPA, and the text of the row's own status. It also carries the application date and the stored comments. |
| `Listing.Summaries` | app.py:283-292 | The API list has one summary per row, in table order. |
| `Admission.AdmissionSystem.constructor` | app.py:325 | Initially both tables are empty and nobody is logged in. |
| `Admission.AdmissionSystem.InsertStudent` | app.py:195-196 | The insert succeeds exactly when no row has the application id. On success it appends the new pending row with the next primary key. A duplicate leaves the table unchanged. The invariant is kept. |
| `Admission.AdmissionSystem.Apply` | app.py:172-199 | A refused form returns its failing fields and changes nothing. An accepted form appends a pending row under the generated id and returns that id. If the generated id is already taken, the result is an error and nothing changes. |
| `Admission.AdmissionSystem.CheckStatus` | app.py:208-216 | Returns the row with that application id, or not-found exactly when no row has it. Nothing changes. |
| `Admission.AdmissionSystem.DownloadLetter` | app.py:219-232 | Sends a letter exactly when an approved row has that id and its letter file exists. The file sent is always that row's own letter. The result is "not available" exactly when no approved row has that id. |
| `Admission.AdmissionSystem.AdminLogin` | app.py:235-244 | A successful authentication sets `admin_id` to that admin's id. A refused form or bad credentials returns the matching error and leaves the session as it was. The tables are unchanged. |
| `Admission.AdmissionSystem.AdminLogout` | app.py:247-249 | Clears `admin_id`, and changes nothing else. |
| `Admission.AdmissionSystem.AdminDashboard` | app.py:251-255 | Refused exactly when nobody is logged in, and it succeeds exactly when an admin is logged in. It then returns every row exactly once, newest first. |
| `Admission.AdmissionSystem.ReviewApplication` | app.py:257-277 | The order of outcomes: unauthenticated, then not found, then a refused form; each leaves the table unchanged. The review succeeds exactly when none of these apply. It then replaces only the reviewed row, by its reviewed version, whatever its previous status. |
| `Admission.AdmissionSystem.ApiApplications` | app.py:280-292 | Refused exactly when nobody is logged in, and it succeeds exactly when an admin is logged in. It then returns one summary per row, in table order. |
| `Admission.AdmissionSystem.ApiApplicationDetail` | app.py:294-310 | Refused when nobody is logged in, and not found when no row has that key. It succeeds exactly otherwise, with that row's projection. |
| `Admission.AdmissionSystem.CreateAdminUser` | app.py:312-321 | The admin table becomes the insert-if-absent of 'admin', and exactly one 'admin' row remains. |
| `Scenarios.IntegrationFormAccepted` | tests/test_integration.py:12-25 | The integration test's form is accepted. |
| `Scenarios.SubmitIntegrationForm` | tests/test_integration.py:27-33 | Submitting that form creates one pending row without a letter. |
| `Scenarios.LoginAsDefaultAdmin` | app.py:312-321 | After the bootstrap, logging in as 'admin' with the password 'admin123' whose hash was stored opens a session. |
| `Scenarios.ApproveAndDownload` | tests/test_integration.py:35-44 | After approval the row's status is approved, and its letter downloads. |
| `Scenarios.RejectApproved` | app.py:263-271 | Rejecting the approved row makes it rejected with the new comments. It keeps its letter name, and the letter is no longer available even though its file exists. |
| `Scenarios.ApprovalWorkflow` | app.py:97-103 | On a fresh system, a review before login is refused as unauthenticated. After login, approval makes the letter downloadable, and a later rejection withdraws it. |

## Left out

- Flask routing, templates, `flash`, redirects, the GET renderings of forms, `send_file` and `jsonify` (app.py:167-310) are not modelled. Only the effect of each POST or GET on the state, and the returned data, are modelled.
- CSRF checking inside `validate_on_submit` is not modelled; the tests switch it off.
- The 16 MiB request bound (`MAX_CONTENT_LENGTH`) is not modelled. The framework raises 413 when `apply` first reads the request body, when it builds `ApplicationForm()` (app.py:173). That happens before any state changes.
- SQLAlchemy sessions and transactions are not modelled: the tables are in-memory sequences. Concurrency is out of scope, and so is any compare-and-swap on review; the code has none.
- Admission.AdmissionSystem.InsertStudent: the unique constraint on `application_id` makes `db.session.commit()` (app.py:196) raise an IntegrityError, which the app turns into a 500 response. The model turns this exception into the result `Err(DuplicateApplicationId)` with the table unchanged. `Apply` does the same. By then `save_file` has already written both uploads, and the model does not show those orphaned files.
- The class models one client's session. Flask's `session` is a signed cookie per client, so another client without that cookie is still redirected to the login page (app.py:100-101). One `adminId` field stands for the cookie of the client being followed.
- SQLite does not enforce `String(n)` widths, and the model does not either.
- Forms.AcceptedApplicationFitsColumns: covers six columns only. The form does not bound `email` (`String(120)`) or `date_of_birth` (`String(20)`) (app.py:38, 41), so an accepted form can exceed those widths.
- PDF rendering in `generate_admission_letter` (app.py:122-162) is not modelled; only the file name it returns is kept. A rendering failure, which would abort the request, is not modelled.
- `save_file` (app.py:108-115), `secure_filename` and `os.makedirs` are not modelled. The stored-file names are parameters, and `os.path.exists` is the parameter `fileExists`.
- The `Email()` validator, `check_password_hash`, `generate_password_hash`, `uuid4` and `datetime.now`/`utcnow` are parameters.
- ApplicationId.GenerateApplicationId: requires a year from 1000 to 9999. `%Y` pads years below 1000 differently on different C libraries, and a real clock never gives such a year.
- Forms.UploadAcceptedIff: `str.lower()` is modelled on ASCII letters only. No character outside ASCII lower-cases to any letter of the four extensions, so the outcome of the check is the same.
- Admission.AdmissionSystem.CheckStatus: takes the application id as a string. A request without the field, where `request.form.get` returns None, is not modelled; it also finds nothing.
- Forms.DecisionOf: a review POST without a `comments` field is not modelled. The comments are always a string, whereas WTForms then gives None and app.py:265 stores `admin_comments = None`.
- Listing.Summaries: `Student.query.all()` (app.py:283) has no ORDER BY. The model lists the rows in table order, which is the order SQLite returns in practice but does not promise.
- Listing.SortNewestFirst: rows with equal application dates come out in table order. The database guarantees no particular order among them, so the contract states only the ordering and the multiset.
- Status is a datatype. The JSON views print it with `Records.StatusText`.
- config.py holds only configuration constants, and config.py is not part of this model.
