/**
 * The logic of the roster management page: the add/edit form, the CSV
 * import checks and the 56-row CSV template. The student provider and the
 * CSV parser are outside the model: what the parser returned and how the
 * provider's bulk insert ended are parameters, and every call made on the
 * provider is recorded in order.
 */
module StudentManagement {
  import opened Wrappers
  import opened Text
  import opened StudentSchema

  /** One parsed CSV row; a missing cell is the empty string. */
  datatype CsvRow = CsvRow(name: string, rollNumber: string, email: string)

  datatype FormData = FormData(name: string, rollNumber: string, email: string)

  /** A call made on the student provider. */
  datatype ProviderCall =
    | AddStudent(form: FormData)
    | UpdateStudent(form: FormData, id: string)
    | BulkAddStudents(rows: seq<CsvRow>)

  /** What reading the chosen file gave: no file chosen, a parser error, or rows. */
  datatype ParsedFile = NoFile | ParseFailed(message: string) | Parsed(rows: seq<CsvRow>)

  /** How the awaited bulk insert of the provider ended. */
  datatype BulkOutcome = BulkDone | BulkRejected(message: string)

  const EmptyForm: FormData := FormData("", "", "")
  /** The number of seats in the classroom. */
  const Capacity: nat := 56

  const NoDataMessage: string := "No valid data found in the CSV file."
  const NoValidMessage: string := "No valid student records found."
  const TooManyMessage: string := "Cannot import more than 56 students."

  /** The banner text for a failed read or bulk insert. */
  function ImportFailureMessage(message: string): (r: string)
    ensures message != "" ==> r == "Error importing CSV: " + message
    ensures message == "" ==> r == "Error importing CSV: Unknown error"
  {
    "Error importing CSV: " + OrElse(message, "Unknown error")
  }

  /** The banner text for a successful import of `count` rows. */
  function ImportSuccessMessage(count: nat): (r: string)
    ensures |r| > |"Successfully imported "| + |" student records."|
    ensures r[..|"Successfully imported "|] == "Successfully imported "
    ensures r[|r| - |" student records."|..] == " student records."
    ensures r[|"Successfully imported "|..|r| - |" student records."|] == NatToString(count)
  {
    "Successfully imported " + NatToString(count) + " student records."
  }

  /** Different counts are reported with different texts. */
  lemma ImportSuccessMessageInjective(a: nat, b: nat)
    requires ImportSuccessMessage(a) == ImportSuccessMessage(b)
    ensures a == b
  {
    var prefix := "Successfully imported ";
    var suffix := " student records.";
    var ma, mb := ImportSuccessMessage(a), ImportSuccessMessage(b);
    assert |ma| == |mb|;
    assert NatToString(a) == ma[|prefix|..|ma| - |suffix|];
    assert NatToString(b) == mb[|prefix|..|mb| - |suffix|];
    NatToStringInjective(a, b);
  }

  /** A row the import keeps: it has a name and a roll number. */
  predicate ValidRow(row: CsvRow)
  {
    row.name != "" && row.rollNumber != ""
  }

  /** `importedData.filter(s => s.name && s.rollNumber)`: the valid rows, in file order. */
  function ValidRows(rows: seq<CsvRow>): (r: seq<CsvRow>)
    ensures |r| <= |rows|
    ensures forall x :: x in r <==> x in rows && ValidRow(x)
  {
    if |rows| == 0 then []
    else if ValidRow(rows[0]) then [rows[0]] + ValidRows(rows[1..])
    else ValidRows(rows[1..])
  }

  /** The filter distributes over concatenation, so file order is kept. */
  lemma {:induction false} ValidRowsAppend(a: seq<CsvRow>, b: seq<CsvRow>)
    ensures ValidRows(a + b) == ValidRows(a) + ValidRows(b)
    decreases |a|
  {
    if |a| > 0 {
      assert (a + b)[1..] == a[1..] + b;
      ValidRowsAppend(a[1..], b);
    } else {
      assert a + b == b;
    }
  }

  /** A file whose every row is valid is kept whole. */
  lemma {:induction false} ValidRowsKeepsAll(rows: seq<CsvRow>)
    requires forall k :: 0 <= k < |rows| ==> ValidRow(rows[k])
    ensures ValidRows(rows) == rows
    decreases |rows|
  {
    if |rows| > 0 {
      ValidRowsKeepsAll(rows[1..]);
    }
  }

  /**
   * The checks of `handleImport`, in order: an empty file, no valid row,
   * more valid rows than seats. The cap is on the batch alone.
   */
  function ImportCheck(rows: seq<CsvRow>): (r: Result<seq<CsvRow>, string>)
    ensures |rows| == 0 ==> r == Failure(NoDataMessage)
    ensures |rows| > 0 && |ValidRows(rows)| == 0 ==> r == Failure(NoValidMessage)
    ensures |ValidRows(rows)| > Capacity ==> r == Failure(TooManyMessage)
    ensures r.Success? <==> 1 <= |ValidRows(rows)| <= Capacity
    ensures r.Success? ==> r.value == ValidRows(rows)
  {
    if |rows| == 0 then Failure(NoDataMessage)
    else
      var valid := ValidRows(rows);
      if |valid| == 0 then Failure(NoValidMessage)
      else if |valid| > Capacity then Failure(TooManyMessage)
      else Success(valid)
  }

  /**
   * Row `i` of the template, counted from 0: a valid row whose roll number
   * is the decimal text of 101 + i and whose name and email carry the
   * text of i + 1.
   */
  function TemplateRow(i: nat): (r: CsvRow)
    ensures ValidRow(r)
    ensures r.rollNumber == NatToString(101 + i)
    ensures r.name == "Student " + NatToString(i + 1)
    ensures r.email == "student" + NatToString(i + 1) + "@example.com"
  {
    CsvRow("Student " + NatToString(i + 1), NatToString(100 + i + 1), "student" + NatToString(i + 1) + "@example.com")
  }

  /** `generateCsvTemplate`: one placeholder row per seat. */
  function CsvTemplate(): (t: seq<CsvRow>)
    ensures |t| == Capacity
    ensures forall i :: 0 <= i < |t| ==> t[i] == TemplateRow(i)
  {
    seq(Capacity, i requires 0 <= i < Capacity => TemplateRow(i))
  }

  lemma TemplateEnds()
    ensures CsvTemplate()[0] == CsvRow("Student 1", "101", "student1@example.com")
    ensures CsvTemplate()[55] == CsvRow("Student 56", "156", "student56@example.com")
  {
    NatToStringExamples();
    assert NatToString(1) == "1";
    assert NatToString(10) == "10";
    assert NatToString(101) == "101";
  }

  /** Text placed between a fixed prefix and a fixed suffix can be read back. */
  lemma FramedInjective(prefix: string, a: string, b: string, suffix: string)
    requires prefix + a + suffix == prefix + b + suffix
    ensures a == b
  {
    var x, y := prefix + a + suffix, prefix + b + suffix;
    assert |a| == |b|;
    assert a == x[|prefix|..|prefix| + |a|];
    assert b == y[|prefix|..|prefix| + |b|];
  }

  /** Distinct template positions give distinct roll numbers, names and emails. */
  lemma TemplateRowsDistinct(i: nat, j: nat)
    requires i != j
    ensures TemplateRow(i).rollNumber != TemplateRow(j).rollNumber
    ensures TemplateRow(i).name != TemplateRow(j).name
    ensures TemplateRow(i).email != TemplateRow(j).email
  {
    var ni, nj := NatToString(i + 1), NatToString(j + 1);
    if ni == nj {
      NatToStringInjective(i + 1, j + 1);
    }
    if NatToString(100 + i + 1) == NatToString(100 + j + 1) {
      NatToStringInjective(100 + i + 1, 100 + j + 1);
    }
    if "Student " + ni == "Student " + nj {
      FramedInjective("Student ", ni, nj, "");
    }
    if "student" + ni + "@example.com" == "student" + nj + "@example.com" {
      FramedInjective("student", ni, nj, "@example.com");
    }
  }

  /** The template's rows have pairwise distinct roll numbers, names and emails. */
  lemma TemplateDistinct()
    ensures forall i, j :: 0 <= i < j < |CsvTemplate()| ==>
      && CsvTemplate()[i].rollNumber != CsvTemplate()[j].rollNumber
      && CsvTemplate()[i].name != CsvTemplate()[j].name
      && CsvTemplate()[i].email != CsvTemplate()[j].email
  {
    var t := CsvTemplate();
    forall i, j | 0 <= i < j < |t|
      ensures t[i].rollNumber != t[j].rollNumber && t[i].name != t[j].name && t[i].email != t[j].email
    {
      TemplateRowsDistinct(i, j);
    }
  }

  /** Every template row is valid, so importing the template takes all 56 rows. */
  lemma TemplateImports()
    ensures ValidRows(CsvTemplate()) == CsvTemplate()
    ensures ImportCheck(CsvTemplate()) == Success(CsvTemplate())
  {
    ValidRowsKeepsAll(CsvTemplate());
  }

  /** One valid row more than the template is refused as a whole. */
  lemma TemplatePlusOneRefused(extra: CsvRow)
    requires ValidRow(extra)
    ensures |ValidRows(CsvTemplate() + [extra])| == Capacity + 1
    ensures ImportCheck(CsvTemplate() + [extra]) == Failure(TooManyMessage)
  {
    ValidRowsAppend(CsvTemplate(), [extra]);
    TemplateImports();
    assert ValidRows([extra]) == [extra];
  }

  /** The page's own state and the calls it has made on the student provider. */
  class StudentManagementPage {
    /** The roster as the provider currently holds it. */
    var students: seq<Student>
    var formData: FormData
    /** The id of the student being edited; "" stands for null (not editing). */
    var editingId: string
    var importError: string
    var importSuccess: string
    var isImporting: bool
    var calls: seq<ProviderCall>

    constructor (roster: seq<Student>)
      ensures students == roster && formData == EmptyForm && editingId == ""
      ensures importError == "" && importSuccess == "" && !isImporting && calls == []
    {
      students := roster;
      formData := EmptyForm;
      editingId := "";
      importError := "";
      importSuccess := "";
      isImporting := false;
      calls := [];
    }

    /**
     * The `required` attribute of the name and roll number inputs: the
     * browser submits the form only when both are filled, the same test
     * the import applies to a CSV row.
     */
    predicate FormFilled()
      reads this
      ensures FormFilled() <==> ValidRow(CsvRow(formData.name, formData.rollNumber, formData.email))
    {
      formData.name != "" && formData.rollNumber != ""
    }

    /** The submit button is disabled, and the capacity notice shown, at 56 students or more. */
    predicate SubmitDisabled()
      reads this
      ensures SubmitDisabled() ==> |students| >= Capacity
      ensures !SubmitDisabled() ==> |students| + 1 <= Capacity
    {
      |students| >= Capacity
    }

    /** `handleSubmit`: update the student being edited, or add a new one; then clear the form. */
    method HandleSubmit()
      modifies this
      ensures old(editingId) != "" ==> calls == old(calls) + [UpdateStudent(old(formData), old(editingId))]
      ensures old(editingId) == "" ==> calls == old(calls) + [AddStudent(old(formData))]
      ensures formData == EmptyForm && editingId == ""
      ensures students == old(students) && isImporting == old(isImporting)
      ensures importError == old(importError) && importSuccess == old(importSuccess)
    {
      if editingId != "" {
        calls := calls + [UpdateStudent(formData, editingId)];
        editingId := "";
      } else {
        calls := calls + [AddStudent(formData)];
      }
      formData := EmptyForm;
    }

    /**
     * Pressing the submit button, which does nothing while it is disabled or
     * while a required input is empty.
     */
    method Submit()
      modifies this
      ensures old(SubmitDisabled()) || !old(FormFilled()) ==> unchanged(this)
      ensures !old(SubmitDisabled()) && old(FormFilled()) ==>
        && (old(editingId) != "" ==> calls == old(calls) + [UpdateStudent(old(formData), old(editingId))])
        && (old(editingId) == "" ==> calls == old(calls) + [AddStudent(old(formData))])
        && formData == EmptyForm && editingId == ""
        && students == old(students) && isImporting == old(isImporting)
        && importError == old(importError) && importSuccess == old(importSuccess)
    {
      if !SubmitDisabled() && FormFilled() {
        HandleSubmit();
      }
    }

    /** `handleCancel`: leave editing and clear the form, calling nothing. */
    method HandleCancel()
      modifies this
      ensures formData == EmptyForm && editingId == ""
      ensures calls == old(calls) && students == old(students) && isImporting == old(isImporting)
      ensures importError == old(importError) && importSuccess == old(importSuccess)
    {
      formData := EmptyForm;
      editingId := "";
    }

    /**
     * `handleImport`: with no file chosen nothing happens; otherwise the
     * banners are cleared, the checks of `ImportCheck` run in order, and only
     * a batch that passes them is handed to the provider's bulk insert.
     */
    method HandleImport(file: ParsedFile, outcome: BulkOutcome)
      modifies this
      ensures file.NoFile? ==> unchanged(this)
      ensures !file.NoFile? ==> !isImporting
      ensures students == old(students) && formData == old(formData) && editingId == old(editingId)
      ensures file.ParseFailed? ==>
        importError == ImportFailureMessage(file.message) && importSuccess == "" && calls == old(calls)
      ensures file.Parsed? && ImportCheck(file.rows).Failure? ==>
        importError == ImportCheck(file.rows).error && importSuccess == "" && calls == old(calls)
      ensures file.Parsed? && ImportCheck(file.rows).Success? ==>
        var valid := ImportCheck(file.rows).value;
        && calls == old(calls) + [BulkAddStudents(valid)]
        && (outcome.BulkDone? ==> importSuccess == ImportSuccessMessage(|valid|) && importError == "")
        && (outcome.BulkRejected? ==> importError == ImportFailureMessage(outcome.message) && importSuccess == "")
    {
      if file.NoFile? {
        return;
      }
      isImporting := true;
      importError := "";
      importSuccess := "";
      if file.ParseFailed? {
        importError := ImportFailureMessage(file.message);
        isImporting := false;
        return;
      }
      var importedData := file.rows;
      if |importedData| == 0 {
        importError := NoDataMessage;
        isImporting := false;
        return;
      }
      var validStudents := ValidRows(importedData);
      if |validStudents| == 0 {
        importError := NoValidMessage;
        isImporting := false;
        return;
      }
      if |validStudents| > Capacity {
        importError := TooManyMessage;
        isImporting := false;
        return;
      }
      calls := calls + [BulkAddStudents(validStudents)];
      if outcome.BulkRejected? {
        importError := ImportFailureMessage(outcome.message);
      } else {
        importSuccess := ImportSuccessMessage(|validStudents|);
      }
      isImporting := false;
    }
  }
}
