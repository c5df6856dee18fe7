/** The rows of the admission database: the `Student` and `Admin` tables
    (app.py, the two `db.Model` classes), and the generic first-match query
    that `filter_by(...).first()` performs on them. */
module Records {

  datatype Option<+T> = None | Some(value: T)

  datatype Result<+T, +E> = Ok(value: T) | Err(error: E)

  /** A `datetime` value. The core only stores and orders instants, so an
      integer (for example microseconds since an epoch) stands for one. */
  type Timestamp = int

  /** The `status` column; the source stores the strings of StatusText. */
  datatype Status = Pending | Approved | Rejected

  function StatusText(s: Status): (t: string)
    ensures t in ["pending", "approved", "rejected"]
    ensures s == Pending <==> t == "pending"
    ensures s == Approved <==> t == "approved"
    ensures s == Rejected <==> t == "rejected"
  {
    match s
    case Pending => "pending"
    case Approved => "approved"
    case Rejected => "rejected"
  }

  /** The applicant's own columns, copied verbatim from the application form. */
  datatype Applicant = Applicant(
    firstName: string,
    lastName: string,
    email: string,
    phone: string,
    address: string,
    dateOfBirth: string,
    courseApplied: string,
    previousQualification: string,
    cgpa: string)

  /** One row of the `student` table. `id` is the integer primary key,
      `applicationId` the public identity token (unique). The stored-file
      columns hold the names the upload store returned. */
  datatype Student = Student(
    id: nat,
    applicationId: string,
    applicant: Applicant,
    status: Status,
    degreeCertificate: Option<string>,
    idProof: Option<string>,
    applicationDate: Timestamp,
    reviewDate: Option<Timestamp>,
    adminComments: Option<string>,
    admissionLetterPath: Option<string>)

  /** One row of the `admin` table; `passwordHash` is an opaque salted hash. */
  datatype Admin = Admin(id: nat, username: string, passwordHash: string)

  /** The position of the first row satisfying `p`, as `query.filter_by(...).first()`
      returns it, or None when no row does. */
  function FirstIndex<T>(rows: seq<T>, p: T -> bool): (r: Option<nat>)
    ensures r.Some? ==> r.value < |rows| && p(rows[r.value])
    ensures r.Some? ==> forall j :: 0 <= j < r.value ==> !p(rows[j])
    ensures r.None? <==> forall j :: 0 <= j < |rows| ==> !p(rows[j])
  {
    if |rows| == 0 then None
    else if p(rows[0]) then Some(0)
    else match FirstIndex(rows[1..], p)
      case None => None
      case Some(k) => Some(k + 1)
  }
}
