/** The three WTForms forms of app.py:59-94 as pure validators. Each returns
    the set of fields whose validator chain fails; a form is accepted exactly
    when that set is empty.

    The validators are the library's: `DataRequired` fails on a missing or
    whitespace-only value, `Length(min, max)` bounds the number of characters
    (`max == -1` is "no upper bound"), a `SelectField` accepts only one of its
    choice values, `FileRequired` wants a file with a non-empty name, and
    `FileAllowed` wants the lower-cased file name to end in "." plus an
    allowed extension. The `Email()` validator is the caller-supplied
    predicate `isEmail`. */
module Forms {

  import opened Records

  /** An uploaded file as the form sees it. */
  datatype Upload = Upload(filename: string)

  /** The submitted application form: the applicant's columns plus two files. */
  datatype ApplicationInput = ApplicationInput(
    applicant: Applicant,
    degreeCertificate: Option<Upload>,
    idProof: Option<Upload>)

  datatype LoginInput = LoginInput(username: string, password: string)

  /** The review form: the chosen status value and the comments text. */
  datatype ReviewInput = ReviewInput(status: string, comments: string)

  datatype Decision = Approve | Reject

  datatype Field =
    | FirstName | LastName | Email | Phone | Address | DateOfBirth | CourseApplied
    | PreviousQualification | Cgpa | DegreeCertificate | IdProof
    | Username | Password | ReviewStatus | Comments

  /** The characters Python's `str.isspace()` holds for, which `strip()` removes. */
  predicate IsSpace(c: char)
  {
    var k := c as int;
    (9 <= k <= 13) || (28 <= k <= 32) || k == 0x85 || k == 0xA0 || k == 0x1680
    || (0x2000 <= k <= 0x200A) || k == 0x2028 || k == 0x2029 || k == 0x202F
    || k == 0x205F || k == 0x3000
  }

  /** `DataRequired()`: the value is not empty after `strip()`. */
  predicate DataRequired(s: string)
  {
    exists i :: 0 <= i < |s| && !IsSpace(s[i])
  }

  /** `Length(min, max)` on a string value. */
  predicate Length(s: string, min: int, max: int)
  {
    min <= |s| && (max == -1 || |s| <= max)
  }

  /** The values of the course `SelectField`. */
  const Courses: seq<string> := [
    "computer_science", "mechanical_engineering", "electrical_engineering",
    "civil_engineering", "business_administration", "data_science"]

  const AllowedExtensions: seq<string> := ["pdf", "jpg", "jpeg", "png"]

  const ReviewChoices: seq<string> := ["approved", "rejected"]

  function LowerChar(c: char): char
  {
    if 'A' <= c <= 'Z' then (c as int + 32) as char else c
  }

  /** `str.lower()` on the ASCII letters. */
  function LowerAscii(s: string): (l: string)
    ensures |l| == |s| && forall i :: 0 <= i < |s| ==> l[i] == LowerChar(s[i])
  {
    if s == [] then [] else [LowerChar(s[0])] + LowerAscii(s[1..])
  }

  predicate EndsWith(s: string, suffix: string)
  {
    |suffix| <= |s| && s[|s| - |suffix|..] == suffix
  }

  /** `FileRequired()`: a file was sent and its name is not empty. */
  predicate FileRequired(u: Option<Upload>)
  {
    u.Some? && u.value.filename != ""
  }

  /** `FileAllowed(AllowedExtensions)`: like the library's, it lets an absent
      file or one with an empty name through, leaving those to `FileRequired`. */
  predicate FileAllowed(u: Option<Upload>)
  {
    u.None? || u.value.filename == "" || exists e :: e in AllowedExtensions && EndsWith(LowerAscii(u.value.filename), "." + e)
  }

  /** `{f}` when the field's validators fail, `{}` when they pass. */
  function Failing(passes: bool, f: Field): set<Field>
  {
    if passes then {} else {f}
  }

  /** The fields `ApplicationForm` has. */
  const ApplicationFields: set<Field> := {
    FirstName, LastName, Email, Phone, Address, DateOfBirth, CourseApplied,
    PreviousQualification, Cgpa, DegreeCertificate, IdProof}

  /** The validator chain of one field of `ApplicationForm` (app.py:59-83). */
  predicate ApplicationFieldPasses(form: ApplicationInput, isEmail: string -> bool, f: Field)
  {
    var a := form.applicant;
    match f
    case FirstName => DataRequired(a.firstName) && Length(a.firstName, 2, 100)
    case LastName => DataRequired(a.lastName) && Length(a.lastName, 2, 100)
    case Email => DataRequired(a.email) && isEmail(a.email)
    case Phone => DataRequired(a.phone) && Length(a.phone, 10, 20)
    case Address => DataRequired(a.address) && Length(a.address, 10, 500)
    case DateOfBirth => DataRequired(a.dateOfBirth)
    case CourseApplied => a.courseApplied in Courses && DataRequired(a.courseApplied)
    case PreviousQualification =>
      DataRequired(a.previousQualification) && Length(a.previousQualification, 5, 200)
    case Cgpa => DataRequired(a.cgpa) && Length(a.cgpa, 1, 10)
    case DegreeCertificate => FileRequired(form.degreeCertificate) && FileAllowed(form.degreeCertificate)
    case IdProof => FileRequired(form.idProof) && FileAllowed(form.idProof)
    case _ => true
  }

  function FailingFields(form: ApplicationInput, isEmail: string -> bool): set<Field>
  {
    set f | f in ApplicationFields && !ApplicationFieldPasses(form, isEmail, f)
  }

  lemma FailingApplicantFields(form: ApplicationInput, isEmail: string -> bool)
    ensures var errors, a := FailingFields(form, isEmail), form.applicant;
      && (FirstName in errors <==> !(DataRequired(a.firstName) && 2 <= |a.firstName| <= 100))
      && (LastName in errors <==> !(DataRequired(a.lastName) && 2 <= |a.lastName| <= 100))
      && (Email in errors <==> !(DataRequired(a.email) && isEmail(a.email)))
      && (Phone in errors <==> !(DataRequired(a.phone) && 10 <= |a.phone| <= 20))
      && (Address in errors <==> !(DataRequired(a.address) && 10 <= |a.address| <= 500))
  {
    assert FirstName in ApplicationFields && LastName in ApplicationFields && Email in ApplicationFields;
    assert Phone in ApplicationFields && Address in ApplicationFields;
  }

  lemma FailingOtherFields(form: ApplicationInput, isEmail: string -> bool)
    ensures var errors, a := FailingFields(form, isEmail), form.applicant;
      && errors <= ApplicationFields
      && (DateOfBirth in errors <==> !DataRequired(a.dateOfBirth))
      && (CourseApplied in errors <==> a.courseApplied !in Courses)
      && (PreviousQualification in errors <==>
            !(DataRequired(a.previousQualification) && 5 <= |a.previousQualification| <= 200))
      && (Cgpa in errors <==> !(DataRequired(a.cgpa) && 1 <= |a.cgpa| <= 10))
      && (DegreeCertificate in errors <==>
            !(FileRequired(form.degreeCertificate) && FileAllowed(form.degreeCertificate)))
      && (IdProof in errors <==> !(FileRequired(form.idProof) && FileAllowed(form.idProof)))
  {
    if form.applicant.courseApplied in Courses {
      CoursesAreNotBlank(form.applicant.courseApplied);
    }
    assert DateOfBirth in ApplicationFields && CourseApplied in ApplicationFields;
    assert PreviousQualification in ApplicationFields && Cgpa in ApplicationFields;
    assert DegreeCertificate in ApplicationFields && IdProof in ApplicationFields;
  }

  /** The fields whose messages the re-rendered form shows: exactly those of
      `ApplicationForm` whose validator chain fails. */
  function ApplicationErrors(form: ApplicationInput, isEmail: string -> bool): (errors: set<Field>)
    ensures errors <= ApplicationFields
    ensures FirstName in errors <==>
      !(DataRequired(form.applicant.firstName) && 2 <= |form.applicant.firstName| <= 100)
    ensures LastName in errors <==>
      !(DataRequired(form.applicant.lastName) && 2 <= |form.applicant.lastName| <= 100)
    ensures Email in errors <==> !(DataRequired(form.applicant.email) && isEmail(form.applicant.email))
    ensures Phone in errors <==>
      !(DataRequired(form.applicant.phone) && 10 <= |form.applicant.phone| <= 20)
    ensures Address in errors <==>
      !(DataRequired(form.applicant.address) && 10 <= |form.applicant.address| <= 500)
    ensures DateOfBirth in errors <==> !DataRequired(form.applicant.dateOfBirth)
    ensures CourseApplied in errors <==> form.applicant.courseApplied !in Courses
    ensures PreviousQualification in errors <==>
      !(DataRequired(form.applicant.previousQualification)
        && 5 <= |form.applicant.previousQualification| <= 200)
    ensures Cgpa in errors <==> !(DataRequired(form.applicant.cgpa) && 1 <= |form.applicant.cgpa| <= 10)
    ensures DegreeCertificate in errors <==>
      !(FileRequired(form.degreeCertificate) && FileAllowed(form.degreeCertificate))
    ensures IdProof in errors <==> !(FileRequired(form.idProof) && FileAllowed(form.idProof))
  {
    var errors := FailingFields(form, isEmail);
    FailingApplicantFields(form, isEmail);
    FailingOtherFields(form, isEmail);
    errors
  }

  function LoginErrors(form: LoginInput): (errors: set<Field>)
    ensures errors <= {Username, Password}
    ensures Username in errors <==> !DataRequired(form.username)
    ensures Password in errors <==> !DataRequired(form.password)
  {
    Failing(DataRequired(form.username), Username) + Failing(DataRequired(form.password), Password)
  }

  /** The status is refused exactly when it is not one of the two choices
      (both are non-blank), the comments exactly when they exceed 500
      characters. */
  function ReviewErrors(form: ReviewInput): (errors: set<Field>)
    ensures errors <= {ReviewStatus, Comments}
    ensures ReviewStatus in errors <==> form.status !in ReviewChoices
    ensures Comments in errors <==> |form.comments| > 500
  {
    ReviewChoicesAreNotBlank();
    Failing(form.status in ReviewChoices && DataRequired(form.status), ReviewStatus)
    + Failing(Length(form.comments, -1, 500), Comments)
  }

  /** The decision an accepted review form carries, None when it is refused. */
  function DecisionOf(form: ReviewInput): (d: Option<Decision>)
    ensures d.Some? <==> (form.status == "approved" || form.status == "rejected") && |form.comments| <= 500
    ensures d == Some(Approve) <==> form.status == "approved" && |form.comments| <= 500
  {
    ReviewChoicesAreNotBlank();
    if ReviewErrors(form) == {} then Some(if form.status == "approved" then Approve else Reject)
    else None
  }

  lemma ReviewChoicesAreNotBlank()
    ensures DataRequired("approved") && DataRequired("rejected")
  {
    assert !IsSpace("approved"[0]) && !IsSpace("rejected"[0]);
  }

  /** A file passes both file validators exactly when it is present and its
      name ends, ignoring ASCII case, in one of the four extensions. */
  lemma UploadAcceptedIff(u: Option<Upload>)
    ensures FileRequired(u) && FileAllowed(u) <==>
      u.Some? && u.value.filename != "" &&
      (EndsWith(LowerAscii(u.value.filename), ".pdf") || EndsWith(LowerAscii(u.value.filename), ".jpg")
       || EndsWith(LowerAscii(u.value.filename), ".jpeg") || EndsWith(LowerAscii(u.value.filename), ".png"))
  {
    if u.Some? {
      var l := LowerAscii(u.value.filename);
      assert ".pdf" == "." + AllowedExtensions[0];
      assert ".jpg" == "." + AllowedExtensions[1];
      assert ".jpeg" == "." + AllowedExtensions[2];
      assert ".png" == "." + AllowedExtensions[3];
    }
  }

  /** The application form is accepted exactly under the closed bounds the
      form declares, stated field by field. */
  lemma ApplicationAcceptedIff(form: ApplicationInput, isEmail: string -> bool)
    ensures ApplicationErrors(form, isEmail) == {} <==>
      var a := form.applicant;
      && DataRequired(a.firstName) && 2 <= |a.firstName| <= 100
      && DataRequired(a.lastName) && 2 <= |a.lastName| <= 100
      && DataRequired(a.email) && isEmail(a.email)
      && DataRequired(a.phone) && 10 <= |a.phone| <= 20
      && DataRequired(a.address) && 10 <= |a.address| <= 500
      && DataRequired(a.dateOfBirth)
      && a.courseApplied in Courses
      && DataRequired(a.previousQualification) && 5 <= |a.previousQualification| <= 200
      && DataRequired(a.cgpa) && 1 <= |a.cgpa| <= 10
      && FileRequired(form.degreeCertificate) && FileAllowed(form.degreeCertificate)
      && FileRequired(form.idProof) && FileAllowed(form.idProof)
  {
    if ApplicationErrors(form, isEmail) == {} {
      assert FirstName !in ApplicationErrors(form, isEmail);
    }
  }

  lemma CoursesAreNotBlank(c: string)
    requires c in Courses
    ensures DataRequired(c)
  {
    assert !IsSpace(c[0]);
  }

  /** What an accepted form stores fits the widths the `Student` columns
      declare (String(100), String(20), String(200), String(10); the course
      codes fit String(100)). */
  lemma AcceptedApplicationFitsColumns(form: ApplicationInput, isEmail: string -> bool)
    requires ApplicationErrors(form, isEmail) == {}
    ensures |form.applicant.firstName| <= 100 && |form.applicant.lastName| <= 100
    ensures |form.applicant.phone| <= 20
    ensures |form.applicant.previousQualification| <= 200
    ensures |form.applicant.cgpa| <= 10
    ensures |form.applicant.courseApplied| <= 100
  {
    assert CourseApplied !in ApplicationErrors(form, isEmail);
  }

  /** The login form wants both fields non-blank. */
  lemma LoginAcceptedIff(form: LoginInput)
    ensures LoginErrors(form) == {} <==> DataRequired(form.username) && DataRequired(form.password)
  {
    if LoginErrors(form) == {} {
      assert Username !in LoginErrors(form);
      assert Password !in LoginErrors(form);
    }
  }

  /** The scenarios of the form tests: blank login fields and an empty status
      with 501 characters of comments are refused; "admin"/"password123" and
      an approval with a short comment are accepted. */
  lemma FormScenarios()
    ensures LoginErrors(LoginInput("", "")) == {Username, Password}
    ensures LoginErrors(LoginInput("admin", "password123")) == {}
    ensures ReviewErrors(ReviewInput("", seq(501, _ => 'x'))) == {ReviewStatus, Comments}
    ensures DecisionOf(ReviewInput("approved", "Good application")) == Some(Approve)
  {
    assert !IsSpace("admin"[0]) && !IsSpace("password123"[0]);
    assert !IsSpace("approved"[0]);
  }
}
