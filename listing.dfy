/** The admin's read-only views of the `student` table: the dashboard list,
    newest application first (app.py:254), and the two JSON projections
    (app.py:282-310). */
module Listing {

  import opened Records

  /** Non-increasing `application_date`. */
  predicate NewestFirst(rows: seq<Student>)
  {
    forall i, j :: 0 <= i < j < |rows| ==> rows[i].applicationDate >= rows[j].applicationDate
  }

  lemma NewestFirstCons(h: Student, rows: seq<Student>)
    requires NewestFirst(rows)
    requires rows == [] || h.applicationDate >= rows[0].applicationDate
    ensures NewestFirst([h] + rows)
  {
    var r := [h] + rows;
    forall i, j | 0 <= i < j < |r| ensures r[i].applicationDate >= r[j].applicationDate {
      if i == 0 && j > 1 {
        assert rows[0].applicationDate >= rows[j - 1].applicationDate;
      }
    }
  }

  /** Places `x` into a list that is already newest-first. */
  function InsertByDate(x: Student, rows: seq<Student>): (r: seq<Student>)
    requires NewestFirst(rows)
    ensures NewestFirst(r)
    ensures multiset(r) == multiset(rows) + multiset{x}
    ensures r[0] == x || (rows != [] && r[0] == rows[0])
  {
    if rows == [] || x.applicationDate >= rows[0].applicationDate then
      NewestFirstCons(x, rows);
      [x] + rows
    else
      var rest := InsertByDate(x, rows[1..]);
      assert rows == [rows[0]] + rows[1..];
      NewestFirstCons(rows[0], rest);
      [rows[0]] + rest
  }

  /** `order_by(Student.application_date.desc()).all()`: every row exactly
      once, newest first. Rows with equal dates may come in any order in the
      database; this one keeps them in table order. */
  function SortNewestFirst(rows: seq<Student>): (r: seq<Student>)
    ensures NewestFirst(r)
    ensures multiset(r) == multiset(rows)
  {
    if rows == [] then []
    else
      assert rows == [rows[0]] + rows[1..];
      InsertByDate(rows[0], SortNewestFirst(rows[1..]))
  }

  /** One element of `/api/applications`. */
  datatype Summary = Summary(id: nat, applicationId: string, name: string, email: string,
                             course: string, status: string, applicationDate: Timestamp)

  /** `/api/application/<id>`. */
  datatype Detail = Detail(id: nat, applicationId: string, firstName: string, lastName: string,
                           email: string, phone: string, courseApplied: string, status: string,
                           cgpa: string, applicationDate: Timestamp, adminComments: Option<string>)

  /** A summary identifies its row, shows the applicant's full name, and
      reports the row's own status text. */
  function SummaryOf(s: Student): (r: Summary)
    ensures r.id == s.id && r.applicationId == s.applicationId
    ensures r.status == StatusText(s.status)
    ensures r.name == s.applicant.firstName + " " + s.applicant.lastName
    ensures r.email == s.applicant.email && r.course == s.applicant.courseApplied
    ensures r.applicationDate == s.applicationDate
  {
    Summary(s.id, s.applicationId, s.applicant.firstName + " " + s.applicant.lastName,
            s.applicant.email, s.applicant.courseApplied, StatusText(s.status), s.applicationDate)
  }

  /** A detail identifies its row, reports the row's own status text and
      copies the applicant's columns and the comments as stored. */
  function DetailOf(s: Student): (r: Detail)
    ensures r.id == s.id && r.applicationId == s.applicationId
    ensures r.status == StatusText(s.status)
    ensures r.firstName == s.applicant.firstName && r.lastName == s.applicant.lastName
    ensures r.email == s.applicant.email && r.phone == s.applicant.phone
    ensures r.courseApplied == s.applicant.courseApplied && r.cgpa == s.applicant.cgpa
    ensures r.applicationDate == s.applicationDate && r.adminComments == s.adminComments
  {
    Detail(s.id, s.applicationId, s.applicant.firstName, s.applicant.lastName, s.applicant.email,
           s.applicant.phone, s.applicant.courseApplied, StatusText(s.status), s.applicant.cgpa,
           s.applicationDate, s.adminComments)
  }

  /** `/api/applications`: one summary per row, in table order. */
  function Summaries(rows: seq<Student>): (r: seq<Summary>)
    ensures |r| == |rows|
    ensures forall i :: 0 <= i < |rows| ==> r[i] == SummaryOf(rows[i])
  {
    if rows == [] then [] else [SummaryOf(rows[0])] + Summaries(rows[1..])
  }
}
