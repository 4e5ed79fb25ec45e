/**
 * The teacher's question list: CSV import, delete and edit (both filters by `id`), and the
 * rows of the spreadsheet export.
 */
module Teacher {
  import opened Wrappers
  import opened Text
  import opened Numbers
  import opened Quiz

  /** `parts[k]?.trim() || ''`: the trimmed field, or `""` when the row is shorter. */
  function OptionalField(parts: seq<string>, k: nat): (r: string)
    ensures IsTrimmed(r)
    ensures k < |parts| ==> r == Trim(parts[k])
    ensures k >= |parts| ==> r == []
  {
    if k < |parts| then Trim(parts[k]) else []
  }

  /** The four trimmed option fields of a CSV row. */
  function RowOptions(parts: seq<string>): (opts: seq<string>)
    requires |parts| >= 5
    ensures |opts| == 4
  {
    [Trim(parts[1]), Trim(parts[2]), Trim(parts[3]), Trim(parts[4])]
  }

  /** The CSV row's cells, in the order `importCSV` reads them. */
  function Cells(line: string): seq<string> {
    Split(line, ',')
  }

  /** A question the import can produce: multiple choice, four non-empty trimmed options, no images. */
  predicate IsImportedShape(q: Question) {
    q.kind == MultipleChoice && q.optionImages == [] && q.text != []
    && |q.options| == 4 && forall k :: 0 <= k < 4 ==> q.options[k] != []
  }

  /** Every string in `s` is non-empty (`opts.every(o => o)`). */
  predicate NonEmptyAll(s: seq<string>) {
    forall k :: 0 <= k < |s| ==> s[k] != []
  }

  /** The row is not blank, has six fields, and its question and four options are non-empty once trimmed. */
  predicate Accepted(line: string) {
    var parts := Cells(line);
    Trim(line) != [] && |parts| >= 6 && Trim(parts[0]) != [] && NonEmptyAll(RowOptions(parts))
  }

  /** The fields one CSV row supplies. */
  datatype Row = Row(text: string, options: seq<string>, correctAnswer: int,
                     category: string, hint: string, explanation: string)

  /** One line of the CSV body: the fields of the question it adds, if it adds one. */
  function ParseRow(line: string): (r: Option<Row>)
    ensures r.Some? <==> Accepted(line)
    ensures r.Some? ==> r.value.text != [] && |r.value.options| == 4 && NonEmptyAll(r.value.options)
  {
    if Trim(line) == [] then None
    else
      var parts := Cells(line);
      if |parts| < 6 then None
      else
        var text := Trim(parts[0]);
        var opts := RowOptions(parts);
        if text != [] && NonEmptyAll(opts) then
          Some(Row(text, opts, ParseIntOrZero(parts[5]),
            OptionalField(parts, 6), OptionalField(parts, 7), OptionalField(parts, 8)))
        else None
  }

  /** The object `importCSV` pushes for an accepted row. */
  function Stamp(row: Row, id: int): (q: Question)
    ensures q.id == id && q.kind == MultipleChoice && q.optionImages == []
  {
    Question(id, MultipleChoice, row.text, row.options, row.correctAnswer, row.category, row.hint, row.explanation, [])
  }

  /** The lines after the header row. */
  function DataLines(csv: string): (lines: seq<string>)
    ensures |lines| == |Split(csv, '\n')| - 1
  {
    Split(csv, '\n')[1..]
  }

  /**
   * What the row loop appends for the first `n` of `lines`, given the row parser: an accepted
   * line `k` appends its row with id `clock(k) + count`, `count` being the number appended before
   * it. `clock(k)` is the value of `Date.now()` when line `k` is reached.
   */
  function Appended(lines: seq<string>, n: nat, clock: nat -> int, parse: string -> Option<Row>): (r: seq<Question>)
    requires n <= |lines|
    ensures |r| <= n
  {
    if n == 0 then []
    else
      var prev := Appended(lines, n - 1, clock, parse);
      match parse(lines[n - 1])
      case Some(row) => prev + [Stamp(row, clock(n - 1) + |prev|)]
      case None => prev
  }

  /** The positions among the first `n` lines that the parser accepts, in increasing order. */
  function Positions(lines: seq<string>, n: nat, parse: string -> Option<Row>): (ps: seq<nat>)
    requires n <= |lines|
    ensures forall j :: 0 <= j < |ps| ==> ps[j] < n && parse(lines[ps[j]]).Some?
    ensures forall j, l :: 0 <= j < l < |ps| ==> ps[j] < ps[l]
    ensures forall k :: 0 <= k < n && parse(lines[k]).Some? ==> k in ps
  {
    if n == 0 then []
    else
      var prev := Positions(lines, n - 1, parse);
      if parse(lines[n - 1]).Some? then prev + [n - 1] else prev
  }

  /** The `j`-th appended question has id `clock(k) + j`, `k` being the `j`-th accepted line. */
  lemma {:induction false} AppendedIds(lines: seq<string>, n: nat, clock: nat -> int, parse: string -> Option<Row>)
    requires n <= |lines|
    ensures var r, ps := Appended(lines, n, clock, parse), Positions(lines, n, parse);
      |r| == |ps| && forall j :: 0 <= j < |r| ==> r[j].id == clock(ps[j]) + j
  {
    if n > 0 {
      var prev, pp := Appended(lines, n - 1, clock, parse), Positions(lines, n - 1, parse);
      AppendedIds(lines, n - 1, clock, parse);
      match parse(lines[n - 1])
      case Some(row) =>
        assert Appended(lines, n, clock, parse) == prev + [Stamp(row, clock(n - 1) + |prev|)];
        assert Positions(lines, n, parse) == pp + [n - 1];
      case None =>
    }
  }

  /** The fields an accepted row must have: a question and four non-empty options. */
  predicate IsCompleteRow(row: Row) {
    row.text != [] && |row.options| == 4 && NonEmptyAll(row.options)
  }

  /** A parser that only accepts complete rows only appends well-formed multiple-choice questions. */
  lemma {:induction false} AppendedShape(lines: seq<string>, n: nat, clock: nat -> int, parse: string -> Option<Row>)
    requires n <= |lines|
    requires forall l :: parse(l).Some? ==> IsCompleteRow(parse(l).value)
    ensures forall j :: 0 <= j < |Appended(lines, n, clock, parse)| ==> IsImportedShape(Appended(lines, n, clock, parse)[j])
  {
    if n > 0 {
      AppendedShape(lines, n - 1, clock, parse);
    }
  }

  /** How many of the first `n` lines `accept` holds for. */
  function CountWhere(lines: seq<string>, n: nat, accept: string -> bool): nat
    requires n <= |lines|
  {
    |set k | 0 <= k < n && accept(lines[k])|
  }

  /** The number of questions appended is the number of lines `accept` holds for, when it describes the parser. */
  lemma {:induction false} AppendedCount(lines: seq<string>, n: nat, clock: nat -> int,
                                         parse: string -> Option<Row>, accept: string -> bool)
    requires n <= |lines|
    requires forall l :: parse(l).Some? <==> accept(l)
    ensures |Appended(lines, n, clock, parse)| == CountWhere(lines, n, accept)
  {
    if n > 0 {
      AppendedCount(lines, n - 1, clock, parse, accept);
      var before := set k | 0 <= k < n - 1 && accept(lines[k]);
      var now := set k | 0 <= k < n && accept(lines[k]);
      if accept(lines[n - 1]) {
        assert now == before + {n - 1};
      } else {
        assert now == before;
      }
    }
  }

  /** With a clock that never goes backwards, the appended ids strictly increase. */
  lemma AppendedIdsIncrease(lines: seq<string>, n: nat, clock: nat -> int, parse: string -> Option<Row>)
    requires n <= |lines|
    requires forall k, l :: 0 <= k <= l ==> clock(k) <= clock(l)
    ensures var r := Appended(lines, n, clock, parse);
      forall j, l :: 0 <= j < l < |r| ==> r[j].id < r[l].id
  {
    var ps := Positions(lines, n, parse);
    AppendedIds(lines, n, clock, parse);
    forall j, l | 0 <= j < l < |ps| ensures clock(ps[j]) + j < clock(ps[l]) + l {
      assert clock(ps[j]) <= clock(ps[l]);
    }
  }

  /** The questions `importCSV` appends for the file `csv`. */
  function Imported(csv: string, clock: nat -> int): seq<Question> {
    var lines := DataLines(csv);
    Appended(lines, |lines|, clock, ParseRow)
  }

  /** Every imported question is multiple choice, with a question, four non-empty options and no images. */
  lemma ImportedShape(csv: string, clock: nat -> int)
    ensures forall j :: 0 <= j < |Imported(csv, clock)| ==> IsImportedShape(Imported(csv, clock)[j])
  {
    var lines := DataLines(csv);
    forall l | ParseRow(l).Some? ensures IsCompleteRow(ParseRow(l).value) {
    }
    AppendedShape(lines, |lines|, clock, ParseRow);
  }

  lemma ParseRowAccepts()
    ensures forall l :: ParseRow(l).Some? <==> Accepted(l)
  {
  }

  /** The number of questions imported is the number of accepted lines after the header. */
  lemma ImportedCount(csv: string, clock: nat -> int)
    ensures |Imported(csv, clock)| == CountWhere(DataLines(csv), |DataLines(csv)|, Accepted)
  {
    var lines := DataLines(csv);
    assert Imported(csv, clock) == Appended(lines, |lines|, clock, ParseRow);
    ParseRowAccepts();
    AppendedCount(lines, |lines|, clock, ParseRow, Accepted);
  }

  /** With a clock that never goes backwards, the imported ids strictly increase, so no two coincide. */
  lemma ImportedIdsIncrease(csv: string, clock: nat -> int)
    requires forall k, l :: 0 <= k <= l ==> clock(k) <= clock(l)
    ensures forall j, l :: 0 <= j < l < |Imported(csv, clock)| ==> Imported(csv, clock)[j].id < Imported(csv, clock)[l].id
  {
    var lines := DataLines(csv);
    assert Imported(csv, clock) == Appended(lines, |lines|, clock, ParseRow);
    AppendedIdsIncrease(lines, |lines|, clock, ParseRow);
  }

  /** The fields of the CSV line that holds `row`: question, four options, answer index, category, hint, explanation. */
  function RowParts(row: Row): (parts: seq<string>)
    requires |row.options| == 4 && row.correctAnswer >= 0
    ensures |parts| == 9
  {
    [row.text] + row.options + [NatToDecimal(row.correctAnswer), row.category, row.hint, row.explanation]
  }

  /** The CSV line that holds `row`. */
  function CsvRow(row: Row): string
    requires |row.options| == 4 && row.correctAnswer >= 0
  {
    Join(RowParts(row), ',')
  }

  /** `s` can stand in a CSV field and comes back from `trim` unchanged. */
  predicate IsPlainField(s: string) {
    IsTrimmed(s) && ',' !in s
  }

  /** A complete row whose fields are all plain, with a non-negative answer index. */
  predicate IsWritableRow(row: Row) {
    IsCompleteRow(row) && row.correctAnswer >= 0
    && IsPlainField(row.text) && IsPlainField(row.category) && IsPlainField(row.hint)
    && IsPlainField(row.explanation)
    && forall k :: 0 <= k < 4 ==> IsPlainField(row.options[k])
  }

  lemma RowLineCells(row: Row)
    requires IsWritableRow(row)
    ensures Cells(CsvRow(row)) == RowParts(row)
  {
    var answer := NatToDecimal(row.correctAnswer);
    var parts := RowParts(row);
    assert ',' !in answer by {
      forall i | 0 <= i < |answer| ensures answer[i] != ',' {
        assert IsDigitOf(answer[i], false);
      }
    }
    assert IsPlainField(row.options[0]) && IsPlainField(row.options[1]);
    assert IsPlainField(row.options[2]) && IsPlainField(row.options[3]);
    assert forall k :: 0 <= k < |parts| ==> ',' !in parts[k];
    SplitOfJoin(parts, ',');
  }

  lemma RowLineNotBlank(row: Row)
    requires IsWritableRow(row)
    ensures Trim(CsvRow(row)) != []
  {
    var parts := RowParts(row);
    var line := CsvRow(row);
    assert line[..|row.text|] == row.text;
    assert line[0] == row.text[0];
    TrimNonEmpty(line, 0);
  }

  lemma RowPartsOptions(row: Row)
    requires IsWritableRow(row)
    ensures RowOptions(RowParts(row)) == row.options
  {
    var parts := RowParts(row);
    assert parts[1..5] == row.options;
    forall k | 0 <= k < 4 ensures Trim(row.options[k]) == row.options[k] {
      assert IsPlainField(row.options[k]);
      TrimOfTrimmed(row.options[k]);
    }
    assert RowOptions(parts) == [row.options[0], row.options[1], row.options[2], row.options[3]];
  }

  lemma RowPartsFields(row: Row)
    requires IsWritableRow(row)
    ensures var parts := RowParts(row);
      Trim(parts[0]) == row.text && RowOptions(parts) == row.options
      && ParseIntOrZero(parts[5]) == row.correctAnswer
      && OptionalField(parts, 6) == row.category && OptionalField(parts, 7) == row.hint
      && OptionalField(parts, 8) == row.explanation
  {
    TrimOfTrimmed(row.text);
    TrimOfTrimmed(row.category);
    TrimOfTrimmed(row.hint);
    TrimOfTrimmed(row.explanation);
    RowPartsOptions(row);
    ParseIntOfDecimal(row.correctAnswer);
  }

  /** A row whose fields hold no comma and no surrounding white space survives a trip through a CSV line. */
  lemma CsvRowRoundTrip(row: Row)
    requires IsWritableRow(row)
    ensures ParseRow(CsvRow(row)) == Some(row)
  {
    RowLineCells(row);
    RowLineNotBlank(row);
    RowPartsFields(row);
  }

  /** `questions.filter(x => x.id !== id)` */
  function WithoutId(qs: seq<Question>, id: int): (r: seq<Question>)
    ensures |r| <= |qs|
    ensures forall k :: 0 <= k < |r| ==> r[k].id != id
  {
    if qs == [] then []
    else if qs[0].id == id then WithoutId(qs[1..], id)
    else [qs[0]] + WithoutId(qs[1..], id)
  }

  /** Filtering keeps the order: it distributes over concatenation. */
  lemma {:induction false} WithoutIdAppend(a: seq<Question>, b: seq<Question>, id: int)
    ensures WithoutId(a + b, id) == WithoutId(a, id) + WithoutId(b, id)
  {
    if a == [] {
      assert a + b == b;
    } else {
      var ab := a + b;
      assert ab != [] && ab[0] == a[0];
      assert ab[1..] == a[1..] + b;
      WithoutIdAppend(a[1..], b, id);
      if a[0].id == id {
        assert WithoutId(ab, id) == WithoutId(a[1..] + b, id);
        assert WithoutId(a, id) == WithoutId(a[1..], id);
      } else {
        assert WithoutId(ab, id) == [a[0]] + WithoutId(a[1..] + b, id);
        assert WithoutId(a, id) == [a[0]] + WithoutId(a[1..], id);
      }
    }
  }

  /** The survivors of the filter are exactly the questions with another id. */
  lemma {:induction false} WithoutIdMembers(qs: seq<Question>, id: int, q: Question)
    ensures q in WithoutId(qs, id) <==> q in qs && q.id != id
  {
    if qs != [] {
      WithoutIdMembers(qs[1..], id, q);
      assert q in qs <==> q == qs[0] || q in qs[1..];
    }
  }

  /** Filtering leaves a list without the id untouched; deleting twice is deleting once. */
  lemma {:induction false} WithoutIdAbsent(qs: seq<Question>, id: int)
    requires forall k :: 0 <= k < |qs| ==> qs[k].id != id
    ensures WithoutId(qs, id) == qs
  {
    if qs != [] {
      WithoutIdAbsent(qs[1..], id);
    }
  }

  lemma WithoutIdIdempotent(qs: seq<Question>, id: int)
    ensures WithoutId(WithoutId(qs, id), id) == WithoutId(qs, id)
  {
    WithoutIdAbsent(WithoutId(qs, id), id);
  }

  /** `questions.find(x => x.id === id)` */
  function FindById(qs: seq<Question>, id: int): (r: Option<Question>)
    ensures r.None? <==> forall k :: 0 <= k < |qs| ==> qs[k].id != id
    ensures r.Some? ==> exists k :: (0 <= k < |qs| && qs[k] == r.value && r.value.id == id
      && forall l :: 0 <= l < k ==> qs[l].id != id)
  {
    if qs == [] then None
    else if qs[0].id == id then Some(qs[0])
    else
      var r := FindById(qs[1..], id);
      assert r.Some? ==> exists k :: (0 <= k < |qs| && qs[k] == r.value && r.value.id == id
        && forall l :: 0 <= l < k ==> qs[l].id != id) by {
        if r.Some? {
          var k :| 0 <= k < |qs[1..]| && qs[1..][k] == r.value && r.value.id == id
            && forall l :: 0 <= l < k ==> qs[1..][l].id != id;
          assert qs[k + 1] == r.value;
        }
      }
      r
  }

  /**
   * The text of the correct answer as the review screen shows it. An index outside the
   * options gives `undefined` in the source, an empty cell; here the empty string.
   */
  function AnswerText(q: Question): string {
    if q.kind == TrueFalse then (if q.correctAnswer == 0 then "True" else "False")
    else if 0 <= q.correctAnswer < |q.options| then q.options[q.correctAnswer]
    else []
  }

  /** One exported row: question, options, and the correct answer's text. */
  function ExportRow(q: Question): seq<string> {
    if q.kind == TrueFalse then [q.text, "True", "False", "", "", if q.correctAnswer == 0 then "True" else "False"]
    else [q.text] + q.options + [if 0 <= q.correctAnswer < |q.options| then q.options[q.correctAnswer] else []]
  }

  /**
   * The rows of the question spreadsheet (`exportQuestions`), `None` for an empty list.
   * `quizId` is `""` before a quiz link has been generated.
   */
  function ExportRows(quizId: string, questions: seq<Question>): (r: Option<seq<seq<string>>>)
    ensures r.None? <==> questions == []
    ensures r.Some? ==>
      var rows := r.value;
      |rows| == |questions| + 2
      && rows[0] == ["Quiz ID", if quizId == [] then "Not generated" else quizId, "", "", "", ""]
      && rows[1] == ["Question", "Option A", "Option B", "Option C", "Option D", "Correct Answer"]
      && forall k :: 0 <= k < |questions| ==>
        |rows[k + 2]| >= 2 && rows[k + 2][0] == questions[k].text
        && rows[k + 2][|rows[k + 2]| - 1] == AnswerText(questions[k])
        && (questions[k].kind == MultipleChoice ==> rows[k + 2][1..|rows[k + 2]| - 1] == questions[k].options)
        && (questions[k].kind == TrueFalse ==>
              rows[k + 2] == [questions[k].text, "True", "False", "", "", AnswerText(questions[k])])
  {
    if questions == [] then None
    else
      Some([["Quiz ID", if quizId == [] then "Not generated" else quizId, "", "", "", ""],
            ["Question", "Option A", "Option B", "Option C", "Option D", "Correct Answer"]]
           + seq(|questions|, k requires 0 <= k < |questions| => ExportRow(questions[k])))
  }

  /**
   * Whether the question editor can show `q`: the form has the two true/false radio buttons
   * valued 0 and 1, and four option text fields with radio buttons valued 0 to 3.
   */
  predicate FitsEditForm(q: Question) {
    if q.kind == TrueFalse then 0 <= q.correctAnswer <= 1
    else |q.options| <= 4 && 0 <= q.correctAnswer < 4
  }

  /** The teacher's question list, updated in place by import, delete and edit. */
  class QuestionBank {
    var questions: seq<Question>

    constructor(initial: seq<Question>)
      ensures questions == initial
    {
      questions := initial;
    }

    /** The `forEach` over the lines: appends each row the parser accepts, stamped with its id. */
    method AppendRows(lines: seq<string>, clock: nat -> int, parse: string -> Option<Row>) returns (count: nat)
      modifies this
      ensures questions == old(questions) + Appended(lines, |lines|, clock, parse)
      ensures count == |questions| - |old(questions)|
    {
      count := 0;
      var i := 0;
      while i < |lines|
        invariant 0 <= i <= |lines|
        invariant questions == old(questions) + Appended(lines, i, clock, parse)
        invariant count == |Appended(lines, i, clock, parse)|
      {
        var row := parse(lines[i]);
        if row.Some? {
          questions := questions + [Stamp(row.value, clock(i) + count)];
          count := count + 1;
        }
        i := i + 1;
      }
    }

    /** `importCSV`: drops the header line and appends every accepted row; returns how many. */
    method ImportCsv(csv: string, clock: nat -> int) returns (count: nat)
      modifies this
      ensures questions == old(questions) + Imported(csv, clock)
      ensures count == |Imported(csv, clock)|
    {
      count := AppendRows(DataLines(csv), clock, ParseRow);
    }

    /** The delete button's handler: drops every question with this id. */
    method DeleteQuestion(id: int)
      modifies this
      ensures questions == WithoutId(old(questions), id)
    {
      questions := WithoutId(questions, id);
    }

    /**
     * `editQuestion`: loads the first question with this id into the form (returned here) and
     * then removes every question with the id from the list; nothing changes when there is
     * none. Loading selects the radio button for the correct answer, and throws, before the
     * list is filtered, when the form has no such button or no text field for an option.
     */
    method EditQuestion(id: int) returns (loaded: Option<Question>)
      modifies this
      ensures loaded == FindById(old(questions), id)
      ensures questions == if loaded.Some? && FitsEditForm(loaded.value) then WithoutId(old(questions), id)
                           else old(questions)
    {
      loaded := FindById(questions, id);
      if loaded.Some? && FitsEditForm(loaded.value) {
        questions := WithoutId(questions, id);
      }
    }
  }
}
