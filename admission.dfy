/** The application's state and its routes' effects on it: the `student` and
    `admin` tables and the session's `admin_id`, updated the way app.py's
    views update them once the framework has parsed the request.

    Primary keys are positions plus one: SQLite gives a new row the largest
    key so far plus one, and nothing here deletes rows. */
module Admission {

  import opened Records
  import opened Forms
  import opened ApplicationId
  import opened Lifecycle
  import opened Listing

  datatype Error =
    | InvalidForm(fields: set<Field>)   // the form is re-rendered with these fields' messages
    | DuplicateApplicationId            // the unique constraint refuses the commit
    | NotFound                          // get_or_404
    | Unauthenticated                   // login_required redirects to the login page
    | InvalidCredentials                // "Invalid username or password!"

  /** The `student` table's invariant: keys are positions plus one, every row
      is well formed and no two rows share an application id. */
  ghost predicate StudentTable(rows: seq<Student>)
  {
    && (forall i :: 0 <= i < |rows| ==> rows[i].id == i + 1 && WellFormed(rows[i]))
    && UniqueApplicationIds(rows)
  }

  /** Overwriting a row's review fields keeps the table invariant. */
  lemma StudentTableUpdate(rows: seq<Student>, i: nat, s: Student)
    requires StudentTable(rows) && i < |rows| && WellFormed(s)
    requires s.id == rows[i].id && s.applicationId == rows[i].applicationId
    ensures StudentTable(rows[i := s])
  {
    var r := rows[i := s];
    forall j, k | 0 <= j < k < |r| ensures r[j].applicationId != r[k].applicationId {
      assert r[j].applicationId == rows[j].applicationId && r[k].applicationId == rows[k].applicationId;
    }
  }

  /** In the table, `get(id)` finds the row at position `id - 1`. */
  lemma StudentTableKeys(rows: seq<Student>, id: nat)
    requires StudentTable(rows)
    ensures 1 <= id <= |rows| <==> FindById(rows, id) == Some(id - 1)
  {
    if 1 <= id <= |rows| {
      assert rows[id - 1].id == id;
    }
  }

  class AdmissionSystem {
    var students: seq<Student>
    var admins: seq<Admin>
    /** `session['admin_id']` of the one client the model follows, absent
        when that client has no admin logged in. */
    var adminId: Option<nat>

    ghost predicate Valid()
      reads this
    {
      && StudentTable(students)
      && (forall i :: 0 <= i < |admins| ==> admins[i].id == i + 1)
      && UniqueUsernames(admins)
      && (adminId.Some? ==> 1 <= adminId.value <= |admins|)
    }

    /** `db.create_all()` on an empty database, with a fresh session. */
    constructor ()
      ensures Valid()
      ensures students == [] && admins == [] && adminId == None
    {
      students, admins, adminId := [], [], None;
    }

    /** `db.session.add(Student(...))` and `commit()`. */
    method InsertStudent(applicationId: string, applicant: Applicant, degreeCertificate: Option<string>,
                         idProof: Option<string>, now: Timestamp) returns (r: Result<nat, Error>)
      requires Valid()
      modifies this
      ensures Valid()
      ensures admins == old(admins) && adminId == old(adminId)
      ensures r.Ok? <==> forall i :: 0 <= i < |old(students)| ==> old(students)[i].applicationId != applicationId
      ensures r.Ok? ==> r.value == |old(students)| + 1
      ensures r.Ok? ==>
        students == old(students) + [NewStudent(r.value, applicationId, applicant, degreeCertificate, idProof, now)]
      ensures r.Err? ==> r.error == DuplicateApplicationId && students == old(students)
    {
      if FindByApplicationId(students, applicationId).Some? {
        return Err(DuplicateApplicationId);
      }
      var id := |students| + 1;
      students := students + [NewStudent(id, applicationId, applicant, degreeCertificate, idProof, now)];
      r := Ok(id);
    }

    /** `apply` on a POST: validate the form, then store a new pending row
        under a generated application id and return that id. The two stored
        file names are what `save_file` returned for the uploads. */
    method Apply(form: ApplicationInput, isEmail: string -> bool, today: Date, timeLow: nat,
                 certificateName: string, idProofName: string, now: Timestamp)
      returns (r: Result<string, Error>)
      requires Valid() && ValidDate(today) && timeLow < 0x1_0000_0000
      modifies this
      ensures Valid()
      ensures admins == old(admins) && adminId == old(adminId)
      ensures ApplicationErrors(form, isEmail) != {} ==>
        r == Err(InvalidForm(ApplicationErrors(form, isEmail))) && students == old(students)
      ensures ApplicationErrors(form, isEmail) == {} ==>
        var appId := GenerateApplicationId(today, timeLow);
        if exists i :: 0 <= i < |old(students)| && old(students)[i].applicationId == appId
        then r == Err(DuplicateApplicationId) && students == old(students)
        else (r == Ok(appId) && students == old(students) +
          [NewStudent(|old(students)| + 1, appId, form.applicant, Some(certificateName), Some(idProofName), now)])
    {
      var errors := ApplicationErrors(form, isEmail);
      if errors != {} {
        return Err(InvalidForm(errors));
      }
      var appId := GenerateApplicationId(today, timeLow);
      var inserted := InsertStudent(appId, form.applicant, Some(certificateName), Some(idProofName), now);
      match inserted
      case Ok(_) => r := Ok(appId);
      case Err(e) => r := Err(e);
    }

    /** `check_status`: the row with this application id, if any. */
    method CheckStatus(applicationId: string) returns (r: Option<Student>)
      requires Valid()
      ensures r.Some? <==> exists i :: 0 <= i < |students| && students[i].applicationId == applicationId
      ensures r.Some? ==> r.value in students && r.value.applicationId == applicationId
    {
      var k := FindByApplicationId(students, applicationId);
      r := if k.Some? then Some(students[k.value]) else None;
    }

    /** `download_letter`. The file sent is always the row's own letter. */
    method DownloadLetter(applicationId: string, fileExists: string -> bool) returns (r: LetterOutcome)
      requires Valid()
      ensures r.SendLetter? <==>
        (exists i :: 0 <= i < |students| && students[i].applicationId == applicationId
                     && students[i].status == Approved)
        && fileExists(LetterFilename(applicationId))
      ensures r.SendLetter? ==> r == SendLetter(LetterFilename(applicationId), LetterFilename(applicationId))
      ensures r == NotAvailable <==>
        forall i :: 0 <= i < |students| && students[i].applicationId == applicationId
                    ==> students[i].status != Approved
    {
      var found := CheckStatus(applicationId);
      r := DownloadDecision(applicationId, found, fileExists);
      FindByApplicationIdExact(students, applicationId);
    }

    /** `admin_login` on a POST: a valid form naming an admin whose password
        checks logs that admin in; anything else leaves the session as it was. */
    method AdminLogin(form: LoginInput, checkPassword: (string, string) -> bool) returns (r: Result<nat, Error>)
      requires Valid()
      modifies this
      ensures Valid()
      ensures students == old(students) && admins == old(admins)
      ensures var a := Authenticate(admins, form, checkPassword);
        && (a.Some? ==> r == Ok(a.value) && adminId == a)
        && (a.None? && LoginErrors(form) != {} ==> r == Err(InvalidForm(LoginErrors(form))) && adminId == old(adminId))
        && (a.None? && LoginErrors(form) == {} ==> r == Err(InvalidCredentials) && adminId == old(adminId))
    {
      var a := Authenticate(admins, form, checkPassword);
      if a.Some? {
        adminId := a;
        r := Ok(a.value);
      } else if LoginErrors(form) != {} {
        r := Err(InvalidForm(LoginErrors(form)));
      } else {
        r := Err(InvalidCredentials);
      }
    }

    /** `admin_logout`: `session.pop('admin_id', None)`. */
    method AdminLogout()
      requires Valid()
      modifies this
      ensures Valid()
      ensures students == old(students) && admins == old(admins) && adminId == None
    {
      adminId := None;
    }

    /** `admin_dashboard`: every row exactly once, newest application first. */
    method AdminDashboard() returns (r: Result<seq<Student>, Error>)
      requires Valid()
      ensures adminId.None? <==> r == Err(Unauthenticated)
      ensures r.Ok? <==> adminId.Some?
      ensures r.Ok? ==> NewestFirst(r.value) && multiset(r.value) == multiset(students)
    {
      if adminId.None? {
        return Err(Unauthenticated);
      }
      r := Ok(SortNewestFirst(students));
    }

    /** `review_application` on a POST. Whatever the row's current status,
        an accepted form overwrites status, comments and review date and, on
        approval, names the letter; nothing else in the database changes. */
    method ReviewApplication(studentId: nat, form: ReviewInput, now: Timestamp) returns (r: Result<Student, Error>)
      requires Valid()
      modifies this
      ensures Valid()
      ensures admins == old(admins) && adminId == old(adminId)
      ensures old(adminId).None? ==> r == Err(Unauthenticated)
      ensures old(adminId).Some? && !(1 <= studentId <= |old(students)|) ==> r == Err(NotFound)
      ensures old(adminId).Some? && 1 <= studentId <= |old(students)| && DecisionOf(form).None? ==>
        r == Err(InvalidForm(ReviewErrors(form)))
      ensures r.Err? ==> students == old(students)
      ensures r.Ok? <==> old(adminId).Some? && 1 <= studentId <= |old(students)| && DecisionOf(form).Some?
      ensures r.Ok? ==>
        var i := studentId - 1;
        var s := Reviewed(old(students)[i], DecisionOf(form).value, form.comments, now);
        students == old(students)[i := s] && r == Ok(s)
    {
      if adminId.None? {
        return Err(Unauthenticated);
      }
      StudentTableKeys(students, studentId);
      var k := FindById(students, studentId);
      if k.None? {
        return Err(NotFound);
      }
      var i := k.value;
      var decision := DecisionOf(form);
      if decision.None? {
        return Err(InvalidForm(ReviewErrors(form)));
      }
      var d := decision.value;
      var s := students[i];
      ghost var reviewed := Reviewed(s, d, form.comments, now);
      ReviewPreservesWellFormed(s, d, form.comments, now);
      s := s.(status := StatusOf(d));
      s := s.(adminComments := Some(form.comments));
      s := s.(reviewDate := Some(now));
      if d == Approve {
        var letterFilename := LetterFilename(s.applicationId);
        s := s.(admissionLetterPath := Some(letterFilename));
      }
      assert s == reviewed;
      StudentTableUpdate(students, i, s);
      students := students[i := s];
      r := Ok(s);
    }

    /** `/api/applications`: one summary per row. */
    method ApiApplications() returns (r: Result<seq<Summary>, Error>)
      requires Valid()
      ensures adminId.None? <==> r == Err(Unauthenticated)
      ensures r.Ok? <==> adminId.Some?
      ensures r.Ok? ==> |r.value| == |students|
      ensures r.Ok? ==> forall i :: 0 <= i < |students| ==> r.value[i] == SummaryOf(students[i])
    {
      if adminId.None? {
        return Err(Unauthenticated);
      }
      r := Ok(Summaries(students));
    }

    /** `/api/application/<id>`. */
    method ApiApplicationDetail(studentId: nat) returns (r: Result<Detail, Error>)
      requires Valid()
      ensures adminId.None? ==> r == Err(Unauthenticated)
      ensures adminId.Some? && !(exists i :: 0 <= i < |students| && students[i].id == studentId) ==> r == Err(NotFound)
      ensures r.Ok? <==> adminId.Some? && exists i :: 0 <= i < |students| && students[i].id == studentId
      ensures r.Ok? ==> exists i :: 0 <= i < |students| && students[i].id == studentId
                                    && r.value == DetailOf(students[i])
    {
      if adminId.None? {
        return Err(Unauthenticated);
      }
      var k := FindById(students, studentId);
      if k.None? {
        return Err(NotFound);
      }
      r := Ok(DetailOf(students[k.value]));
    }

    /** `create_admin_user` with `hash` standing for
        `generate_password_hash('admin123')`: insert 'admin' only if absent. */
    method CreateAdminUser(hash: string)
      requires Valid()
      modifies this
      ensures Valid()
      ensures students == old(students) && adminId == old(adminId)
      ensures admins == WithDefaultAdmin(old(admins), hash)
      ensures CountUsername(admins, "admin") == 1
    {
      DefaultAdminExactlyOnce(admins, hash);
      if FindAdmin(admins, "admin").None? {
        admins := admins + [Admin(|admins| + 1, "admin", hash)];
      }
    }
  }
}
