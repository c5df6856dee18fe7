/** The life of one `Student` row: how `apply` creates it (app.py:180-193),
    how `review_application` rewrites it (app.py:264-271) and how
    `download_letter` decides whether its letter may be sent (app.py:219-232).

    The review transition applies whatever the current status is: the source
    has no "pending only" check, so a row can be reviewed again, and a
    rejection after an approval leaves the old letter name in place. */
module Lifecycle {

  import opened Records
  import opened Forms

  /** The file name `generate_admission_letter` writes and returns (app.py:119). */
  function LetterFilename(applicationId: string): (name: string)
    ensures |name| == |applicationId| + 21
    ensures name[..17] == "admission_letter_" && name[|name| - 4..] == ".pdf"
  {
    "admission_letter_" + applicationId + ".pdf"
  }

  /** Letters live in one shared folder; distinct applications never share a
      letter file. */
  lemma LetterFilenameInjective(a: string, b: string)
    ensures LetterFilename(a) == LetterFilename(b) <==> a == b
  {
    if LetterFilename(a) == LetterFilename(b) {
      assert a == LetterFilename(a)[17..|LetterFilename(a)| - 4];
      assert b == LetterFilename(b)[17..|LetterFilename(b)| - 4];
    }
  }

  /** The consistency every row keeps: the review date and the comments are
      set exactly when the row has left `pending`; a letter name, when
      present, is that of the row's own application id; an approved row has
      one. So an approved row always names its own letter. */
  predicate WellFormed(s: Student): (b: bool)
    ensures b && s.status == Approved ==> s.admissionLetterPath == Some(LetterFilename(s.applicationId))
  {
    && (s.status == Pending <==> s.reviewDate.None?)
    && (s.status == Pending <==> s.adminComments.None?)
    && (s.status == Pending ==> s.admissionLetterPath.None?)
    && (s.admissionLetterPath.Some? ==> s.admissionLetterPath.value == LetterFilename(s.applicationId))
    && (s.status == Approved ==> s.admissionLetterPath.Some?)
  }

  /** The row `Student(...)` builds with its column defaults: status 'pending',
      `application_date` the insertion instant, review fields unset. */
  function NewStudent(id: nat, applicationId: string, applicant: Applicant,
                      degreeCertificate: Option<string>, idProof: Option<string>,
                      now: Timestamp): (s: Student)
    ensures s.status == Pending && WellFormed(s)
    ensures s.reviewDate.None? && s.adminComments.None? && s.admissionLetterPath.None?
    ensures s.id == id && s.applicationId == applicationId && s.applicant == applicant
    ensures s.degreeCertificate == degreeCertificate && s.idProof == idProof
    ensures s.applicationDate == now
  {
    Student(id, applicationId, applicant, Pending, degreeCertificate, idProof, now, None, None, None)
  }

  function StatusOf(d: Decision): Status
  {
    match d
    case Approve => Approved
    case Reject => Rejected
  }

  /** The row after `review_application` with decision `d`, comments
      `comments` at instant `now`. */
  function Reviewed(s: Student, d: Decision, comments: string, now: Timestamp): (r: Student)
    ensures r.status != Pending && r.id == s.id && r.applicationId == s.applicationId
  {
    var r := s.(status := StatusOf(d), adminComments := Some(comments), reviewDate := Some(now));
    if d == Approve then r.(admissionLetterPath := Some(LetterFilename(s.applicationId))) else r
  }

  /** What a review changes and what it keeps, whatever the row's status was. */
  lemma ReviewedFields(s: Student, d: Decision, comments: string, now: Timestamp)
    ensures var r := Reviewed(s, d, comments, now);
      && r.status == (if d == Approve then Approved else Rejected)
      && r.adminComments == Some(comments)
      && r.reviewDate == Some(now)
      && r.admissionLetterPath == (if d == Approve then Some(LetterFilename(s.applicationId))
                                   else s.admissionLetterPath)
      && r.id == s.id && r.applicationId == s.applicationId && r.applicant == s.applicant
      && r.degreeCertificate == s.degreeCertificate && r.idProof == s.idProof
      && r.applicationDate == s.applicationDate
  {
  }

  lemma ReviewPreservesWellFormed(s: Student, d: Decision, comments: string, now: Timestamp)
    requires WellFormed(s)
    ensures WellFormed(Reviewed(s, d, comments, now))
  {
  }

  /** A second review overrides the first. An approval followed by a
      rejection leaves the row rejected but still naming its letter file. */
  lemma ReReview(s: Student, c1: string, t1: Timestamp, c2: string, t2: Timestamp)
    ensures var r := Reviewed(Reviewed(s, Approve, c1, t1), Reject, c2, t2);
      && r.status == Rejected
      && r.admissionLetterPath == Some(LetterFilename(s.applicationId))
      && r.adminComments == Some(c2) && r.reviewDate == Some(t2)
  {
  }

  /** The three answers of `download_letter`: the letter is not available (no
      such row, or not approved), its file is missing, or the file at `path`
      is sent under `downloadName`. `path` is the stored letter name, relative
      to the letters folder `PDF_FOLDER`. */
  datatype LetterOutcome = NotAvailable | LetterMissing | SendLetter(path: string, downloadName: string)

  /** `download_letter(applicationId)` given the row its lookup found and the
      file-system test `fileExists`. `fileExists(name)` stands for
      `os.path.exists` of `name` joined to the letters folder, and the file
      sent is that joined path (app.py:227-229). */
  function DownloadDecision(applicationId: string, found: Option<Student>,
                            fileExists: string -> bool): (r: LetterOutcome)
    ensures r.SendLetter? <==>
      && found.Some? && found.value.status == Approved
      && found.value.admissionLetterPath.Some? && found.value.admissionLetterPath.value != ""
      && fileExists(found.value.admissionLetterPath.value)
    ensures r.SendLetter? ==>
      r.path == found.value.admissionLetterPath.value && r.downloadName == LetterFilename(applicationId)
    ensures r == NotAvailable <==> found.None? || found.value.status != Approved
  {
    if found.None? || found.value.status != Approved then NotAvailable
    else if found.value.admissionLetterPath.Some? && found.value.admissionLetterPath.value != ""
            && fileExists(found.value.admissionLetterPath.value)
    then SendLetter(found.value.admissionLetterPath.value, LetterFilename(applicationId))
    else LetterMissing
  }

  /** Once approved, a row's letter is sent as soon as its file exists. */
  lemma DownloadAfterApproval(s: Student, comments: string, now: Timestamp, fileExists: string -> bool)
    requires fileExists(LetterFilename(s.applicationId))
    ensures DownloadDecision(s.applicationId, Some(Reviewed(s, Approve, comments, now)), fileExists)
            == SendLetter(LetterFilename(s.applicationId), LetterFilename(s.applicationId))
  {
  }

  /** A rejected row is refused its letter, even when an earlier approval
      left a letter name (and file) behind. */
  lemma NoDownloadAfterRejection(s: Student, comments: string, now: Timestamp, fileExists: string -> bool)
    ensures DownloadDecision(s.applicationId, Some(Reviewed(s, Reject, comments, now)), fileExists)
            == NotAvailable
  {
  }

  /** It is not the case that a letter name is present exactly when the row
      is approved: this row is reachable (insert, approve, reject) and well
      formed, yet it is rejected and names a letter. */
  lemma StaleLetterReachable(id: nat, applicationId: string, applicant: Applicant,
                             cert: Option<string>, proof: Option<string>,
                             t0: Timestamp, t1: Timestamp, t2: Timestamp)
    ensures var r := Reviewed(Reviewed(NewStudent(id, applicationId, applicant, cert, proof, t0),
                                       Approve, "", t1), Reject, "", t2);
      WellFormed(r) && r.status == Rejected && r.admissionLetterPath.Some?
  {
    var s := NewStudent(id, applicationId, applicant, cert, proof, t0);
    ReviewPreservesWellFormed(s, Approve, "", t1);
    ReviewPreservesWellFormed(Reviewed(s, Approve, "", t1), Reject, "", t2);
  }

  /** `filter_by(application_id=a).first()`. */
  function FindByApplicationId(rows: seq<Student>, a: string): (r: Option<nat>)
    ensures r.Some? ==> r.value < |rows| && rows[r.value].applicationId == a
    ensures r.None? <==> forall i :: 0 <= i < |rows| ==> rows[i].applicationId != a
  {
    FirstIndex(rows, (s: Student) => s.applicationId == a)
  }

  /** `Student.query.get(id)`. */
  function FindById(rows: seq<Student>, id: nat): (r: Option<nat>)
    ensures r.Some? ==> r.value < |rows| && rows[r.value].id == id
    ensures r.None? <==> forall i :: 0 <= i < |rows| ==> rows[i].id != id
  {
    FirstIndex(rows, (s: Student) => s.id == id)
  }

  predicate UniqueApplicationIds(rows: seq<Student>)
  {
    forall i, j :: 0 <= i < j < |rows| ==> rows[i].applicationId != rows[j].applicationId
  }

  /** With unique application ids, the lookup finds exactly the row carrying
      the id, and not-found means no row carries it. */
  lemma FindByApplicationIdExact(rows: seq<Student>, a: string)
    requires UniqueApplicationIds(rows)
    ensures forall i :: 0 <= i < |rows| && rows[i].applicationId == a ==> FindByApplicationId(rows, a) == Some(i)
    ensures FindByApplicationId(rows, a).None? <==> forall i :: 0 <= i < |rows| ==> rows[i].applicationId != a
  {
    var r := FindByApplicationId(rows, a);
    if r.Some? {
      assert rows[r.value].applicationId == a;
    }
  }

  /** `Admin.query.filter_by(username=u).first()`. */
  function FindAdmin(admins: seq<Admin>, username: string): (r: Option<nat>)
    ensures r.Some? ==> r.value < |admins| && admins[r.value].username == username
    ensures r.None? <==> forall i :: 0 <= i < |admins| ==> admins[i].username != username
  {
    FirstIndex(admins, (a: Admin) => a.username == username)
  }

  predicate UniqueUsernames(admins: seq<Admin>)
  {
    forall i, j :: 0 <= i < j < |admins| ==> admins[i].username != admins[j].username
  }

  function CountUsername(admins: seq<Admin>, username: string): nat
  {
    if admins == [] then 0
    else (if admins[0].username == username then 1 else 0) + CountUsername(admins[1..], username)
  }

  /** The admin table after `create_admin_user` with the freshly computed
      hash `hash`: an 'admin' row is appended only when none exists. */
  function WithDefaultAdmin(admins: seq<Admin>, hash: string): (r: seq<Admin>)
    ensures |admins| <= |r| <= |admins| + 1 && r[..|admins|] == admins
    ensures exists i :: 0 <= i < |r| && r[i].username == "admin"
    ensures |r| == |admins| + 1 <==> forall i :: 0 <= i < |admins| ==> admins[i].username != "admin"
    ensures |r| == |admins| + 1 ==> r[|admins|] == Admin(|admins| + 1, "admin", hash)
  {
    if FindAdmin(admins, "admin").Some? then admins
    else
      var r := admins + [Admin(|admins| + 1, "admin", hash)];
      assert r[|admins|].username == "admin";
      r
  }

  /** Running the bootstrap again changes nothing. */
  lemma DefaultAdminIdempotent(admins: seq<Admin>, h1: string, h2: string)
    ensures WithDefaultAdmin(WithDefaultAdmin(admins, h1), h2) == WithDefaultAdmin(admins, h1)
  {
    var once := WithDefaultAdmin(admins, h1);
    if FindAdmin(admins, "admin").None? {
      assert once[|admins|].username == "admin";
    }
  }

  lemma {:induction false} CountUsernameAbsent(admins: seq<Admin>, username: string)
    requires forall i :: 0 <= i < |admins| ==> admins[i].username != username
    ensures CountUsername(admins, username) == 0
  {
    if admins != [] {
      CountUsernameAbsent(admins[1..], username);
    }
  }

  lemma {:induction false} CountUsernameUnique(admins: seq<Admin>, k: nat)
    requires UniqueUsernames(admins) && k < |admins|
    ensures CountUsername(admins, admins[k].username) == 1
  {
    if k == 0 {
      CountUsernameAbsent(admins[1..], admins[0].username);
    } else {
      CountUsernameUnique(admins[1..], k - 1);
      assert admins[1..][k - 1] == admins[k];
    }
  }

  /** After the bootstrap usernames stay unique and exactly one row is named
      'admin'. */
  lemma DefaultAdminExactlyOnce(admins: seq<Admin>, hash: string)
    requires UniqueUsernames(admins)
    ensures UniqueUsernames(WithDefaultAdmin(admins, hash))
    ensures CountUsername(WithDefaultAdmin(admins, hash), "admin") == 1
  {
    var r := WithDefaultAdmin(admins, hash);
    if FindAdmin(admins, "admin").None? {
      assert r[|admins|].username == "admin";
    }
    var k := FindAdmin(r, "admin");
    assert k.Some?;
    CountUsernameUnique(r, k.value);
  }

  /** `admin_login`'s decision (app.py:237-240): the admin id the session
      takes, or None when the form is refused, no admin has that username, or
      `checkPassword(hash, password)` (check_password_hash) fails. */
  function Authenticate(admins: seq<Admin>, form: LoginInput,
                        checkPassword: (string, string) -> bool): (r: Option<nat>)
    ensures r.Some? ==> LoginErrors(form) == {}
    ensures r.Some? ==> exists i :: 0 <= i < |admins| && admins[i].username == form.username
                           && admins[i].id == r.value && checkPassword(admins[i].passwordHash, form.password)
    ensures UniqueUsernames(admins) && LoginErrors(form) == {} ==>
              (r.None? <==> forall i :: 0 <= i < |admins| && admins[i].username == form.username
                                        ==> !checkPassword(admins[i].passwordHash, form.password))
  {
    if LoginErrors(form) != {} then None
    else match FindAdmin(admins, form.username)
      case None => None
      case Some(k) =>
        if checkPassword(admins[k].passwordHash, form.password) then Some(admins[k].id) else None
  }
}
