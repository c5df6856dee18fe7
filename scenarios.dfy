/** A client of the model that replays the integration tests'
    approval workflow (tests/test_integration.py) using only the contracts
    of AdmissionSystem: apply, a review before any login, bootstrap, login,
    approve, download, then a second review that rejects the approved row. */
module Scenarios {

  import opened Records
  import opened Forms
  import opened ApplicationId
  import opened Lifecycle
  import opened Admission

  lemma PdfUploadAccepted(name: string)
    requires name == "degree.pdf" || name == "id.pdf"
    ensures FileRequired(Some(Upload(name))) && FileAllowed(Some(Upload(name)))
  {
    var l := LowerAscii(name);
    assert l == name;
    assert EndsWith(l, "." + AllowedExtensions[0]);
  }

  /** The form data of the integration test (its uuid part fixed). */
  const IntegrationApplicant: Applicant :=
    Applicant("Integration", "Test", "integration.test.1a2b3c4d@example.com", "9999999999",
              "999 Integration Way", "1990-01-01", "business_administration",
              "Bachelor of Commerce", "8.0")

  const IntegrationForm: ApplicationInput :=
    ApplicationInput(IntegrationApplicant, Some(Upload("degree.pdf")), Some(Upload("id.pdf")))

  lemma IntegrationApplicantNotBlank()
    ensures var a := IntegrationApplicant;
      && DataRequired(a.firstName) && DataRequired(a.lastName) && DataRequired(a.email)
      && DataRequired(a.phone) && DataRequired(a.address) && DataRequired(a.dateOfBirth)
      && DataRequired(a.previousQualification) && DataRequired(a.cgpa)
  {
    var a := IntegrationApplicant;
    assert !IsSpace(a.firstName[0]) && !IsSpace(a.lastName[0]) && !IsSpace(a.email[0]);
    assert !IsSpace(a.phone[0]) && !IsSpace(a.address[0]) && !IsSpace(a.dateOfBirth[0]);
    assert !IsSpace(a.previousQualification[0]) && !IsSpace(a.cgpa[0]);
  }

  lemma IntegrationApplicantInBounds()
    ensures var a := IntegrationApplicant;
      && 2 <= |a.firstName| <= 100 && 2 <= |a.lastName| <= 100 && 10 <= |a.phone| <= 20
      && 10 <= |a.address| <= 500 && 5 <= |a.previousQualification| <= 200
      && 1 <= |a.cgpa| <= 10 && a.courseApplied in Courses
  {
    assert IntegrationApplicant.courseApplied == Courses[4];
  }

  lemma IntegrationFormAccepted(isEmail: string -> bool)
    requires isEmail(IntegrationApplicant.email)
    ensures ApplicationErrors(IntegrationForm, isEmail) == {}
  {
    IntegrationApplicantNotBlank();
    IntegrationApplicantInBounds();
    PdfUploadAccepted("degree.pdf");
    PdfUploadAccepted("id.pdf");
    ApplicationAcceptedIff(IntegrationForm, isEmail);
  }

  /** Step 1: the applicant submits the integration test's form. */
  method SubmitIntegrationForm(system: AdmissionSystem) returns (appId: string)
    requires system.Valid() && system.students == []
    modifies system
    ensures system.Valid() && system.admins == old(system.admins) && system.adminId == old(system.adminId)
    ensures |system.students| == 1 && system.students[0].id == 1
    ensures system.students[0].applicationId == appId
    ensures system.students[0].status == Pending && system.students[0].admissionLetterPath == None
  {
    var isEmail := (s: string) => s == IntegrationApplicant.email;
    IntegrationFormAccepted(isEmail);
    var applied := system.Apply(IntegrationForm, isEmail, Date(2026, 10, 14), 0x1234abcd,
                                "1a2b3c4d_degree.pdf", "5e6f7a8b_id.pdf", 100);
    appId := applied.value;
  }

  /** Step 2: bootstrap the default admin and log in with its password. */
  method LoginAsDefaultAdmin(system: AdmissionSystem)
    requires system.Valid() && system.admins == []
    modifies system
    ensures system.Valid() && system.students == old(system.students)
    ensures system.adminId.Some?
  {
    system.CreateAdminUser("hash-of-admin123");
    var checkPassword := (hash: string, password: string) => hash == "hash-of-admin123" && password == "admin123";
    assert !IsSpace("admin"[0]) && !IsSpace("admin123"[0]);
    var login := system.AdminLogin(LoginInput("admin", "admin123"), checkPassword);
    assert login == Ok(1);
  }

  /** Step 3: approve the row; its letter can then be downloaded. */
  method ApproveAndDownload(system: AdmissionSystem, appId: string) returns (letter: LetterOutcome)
    requires system.Valid() && system.adminId.Some?
    requires |system.students| == 1 && system.students[0].applicationId == appId
    modifies system
    ensures system.Valid() && system.adminId.Some?
    ensures |system.students| == 1 && system.students[0].applicationId == appId
    ensures system.students[0].status == Approved
    ensures letter == SendLetter(LetterFilename(appId), LetterFilename(appId))
  {
    ReviewChoicesAreNotBlank();
    var approved := system.ReviewApplication(1, ReviewInput("approved", "Integration test approval"), 200);
    assert approved.Ok?;
    var fileExists := (path: string) => path == LetterFilename(appId);
    letter := system.DownloadLetter(appId, fileExists);
  }

  /** Step 4: reject the approved row; it keeps its letter name, yet the
      letter is no longer available, even though its file still exists. */
  method RejectApproved(system: AdmissionSystem, appId: string) returns (letter: LetterOutcome)
    requires system.Valid() && system.adminId.Some?
    requires |system.students| == 1 && system.students[0].applicationId == appId
    requires system.students[0].status == Approved
    modifies system
    ensures system.Valid()
    ensures |system.students| == 1 && system.students[0].status == Rejected
    ensures system.students[0].admissionLetterPath == Some(LetterFilename(appId))
    ensures system.students[0].adminComments == Some("Reconsidered")
    ensures letter == NotAvailable
  {
    ReviewChoicesAreNotBlank();
    var rejected := system.ReviewApplication(1, ReviewInput("rejected", "Reconsidered"), 300);
    assert rejected.Ok?;
    letter := system.DownloadLetter(appId, (path: string) => true);
  }

  /** The whole workflow on a fresh system: a review before any login is
      refused and leaves the row pending; after login, approval makes the
      letter downloadable and a later rejection withdraws it. */
  method ApprovalWorkflow() returns (early: Result<Student, Error>, afterApproval: LetterOutcome,
                                     afterRejection: LetterOutcome)
    ensures early == Err(Unauthenticated)
    ensures afterApproval.SendLetter? && afterRejection == NotAvailable
  {
    var system := new AdmissionSystem();
    var appId := SubmitIntegrationForm(system);
    early := system.ReviewApplication(1, ReviewInput("approved", ""), 150);
    assert system.students[0].status == Pending;
    LoginAsDefaultAdmin(system);
    afterApproval := ApproveAndDownload(system, appId);
    afterRejection := RejectApproved(system, appId);
  }
}
