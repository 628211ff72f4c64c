/** The student record of the analysis script: a dictionary from column names to values.
    The first column of the input keeps its text; every other column holds an integer.
    The ranking step later adds the keys "total" and "rank" to the same dictionary. */
module Records {

  /** One dictionary value: the text of the identifier column or a parsed integer. */
  datatype Field = Text(text: string) | Number(n: int)

  /** The contents of one student dictionary. */
  type Row = map<string, Field>

  /** A student dictionary as a mutable object, shared between the loaded list and the ranked list. */
  class Student {
    var fields: Row

    constructor (fields: Row)
      ensures this.fields == fields
    {
      this.fields := fields;
    }
  }

  /** The three subjects the analysis hard-codes. */
  const Subjects: seq<string> := ["math", "science", "history"]

  /** `row[key]` exists and holds an integer, so it can be added and compared. */
  predicate HasNumber(row: Row, key: string)
  {
    key in row && row[key].Number?
  }

  function Score(row: Row, key: string): int
    requires HasNumber(row, key)
  {
    row[key].n
  }

  /** The row has integer math, science and history entries. */
  predicate HasSubjectScores(row: Row)
  {
    HasNumber(row, "math") && HasNumber(row, "science") && HasNumber(row, "history")
  }

  /** No student object occurs twice in the list. */
  predicate Distinct(students: seq<Student>)
  {
    forall i, j :: 0 <= i < j < |students| ==> students[i] != students[j]
  }

  lemma DistinctSnoc(students: seq<Student>, s: Student)
    requires Distinct(students) && s !in students
    ensures Distinct(students + [s])
  {
  }

  /** The current contents of every dictionary in the list, in list order. */
  function Rows(students: seq<Student>): (rows: seq<Row>)
    reads students
    ensures |rows| == |students|
    ensures forall k :: 0 <= k < |students| ==> rows[k] == students[k].fields
  {
    if students == [] then [] else Rows(students[..|students| - 1]) + [students[|students| - 1].fields]
  }
}
