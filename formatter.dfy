/** util/Formatter.java: the text the views show for grades, curriculum identifiers
    and dates. */
module Formatter {
  import opened Common
  import opened Model

  const NotGraded := "Not graded"
  const NotAvailable := "N/A"

  /** formatGrade: a missing grade reads "Not graded"; any other grade is shown as is. */
  function FormatGrade(grade: Option<string>): (text: string)
    ensures text != ""
    ensures Present(grade) ==> text == grade.value
    ensures !Present(grade) ==> text == NotGraded
  {
    if !Present(grade) then NotGraded else grade.value
  }

  /** For a grade that isValidGrade accepts, the text reads "Not graded" exactly when
      the registration is ungraded, and it is a letter grade otherwise. */
  lemma FormatValidGrade(grade: Option<string>)
    requires ValidGrade(grade)
    ensures FormatGrade(grade) == NotGraded <==> !Present(grade)
    ensures Present(grade) ==> FormatGrade(grade) in ValidGrades
  {
  }

  /** Two graded registrations show the same text only when they have the same grade. */
  lemma FormatGradeInjective(g1: Option<string>, g2: Option<string>)
    requires ValidGrade(g1) && ValidGrade(g2)
    requires FormatGrade(g1) == FormatGrade(g2)
    ensures Present(g1) <==> Present(g2)
    ensures Present(g1) ==> g1.value == g2.value
  {
    FormatValidGrade(g1);
    FormatValidGrade(g2);
  }

  /** formatCurriculumId: a missing identifier reads "N/A"; any other is shown as is. */
  function FormatCurriculumId(curriculumId: Option<string>): (text: string)
    ensures text != ""
    ensures Present(curriculumId) ==> text == curriculumId.value
    ensures !Present(curriculumId) ==> text == NotAvailable
  {
    if !Present(curriculumId) then NotAvailable else curriculumId.value
  }

  /** formatDate: a missing date reads "N/A". A present date is shown as the
      DateTimeFormatter text `dateText` the caller supplies. */
  function FormatDate(date: Option<Date>, dateText: string): (text: string)
    ensures date.None? ==> text == NotAvailable
    ensures date.Some? ==> text == dateText
  {
    if date.None? then NotAvailable else dateText
  }
}
