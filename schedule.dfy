/** Building the CSV rows: for every parsed employee ID (outer loop) and
    every day of the inclusive range (inner loop) one record is appended,
    with the shift times copied through as given, empty venues, `ShiftDate`
    as `D/M/YYYY` and `EditType` `"ADD"`. */
module Schedule {
  import opened Text
  import opened EmployeeIds
  import opened Calendar
  import opened DateFormat

  /** One CSV record; the fields are in the order of the CSV columns. */
  datatype Row = Row(
    employeeId: string,
    logIn: string,
    logOut: string,
    logInVenue: string,
    logOutVenue: string,
    shiftDate: string,
    editType: string)

  /** The CSV header, in the order the record's keys are written. */
  const Columns: seq<string> :=
    ["EmployeeId", "LogIn", "LogOut", "LogInVenue", "LogOutVenue", "ShiftDate", "EditType"]

  const EditTypeAdd := "ADD"

  predicate AllValid(dates: seq<Date>) {
    forall k :: 0 <= k < |dates| ==> Valid(dates[k])
  }

  /** The record appended for one employee on one day. */
  function MakeRow(id: string, d: Date, shiftStart: string, shiftEnd: string): Row
    requires Valid(d)
  {
    Row(id, shiftStart, shiftEnd, "", "", FormatDate(d), EditTypeAdd)
  }

  /** The records of one employee: one per date, in date order. */
  function EmployeeRows(id: string, dates: seq<Date>, shiftStart: string, shiftEnd: string): (rows: seq<Row>)
    requires AllValid(dates)
    ensures |rows| == |dates|
  {
    if dates == [] then []
    else
      EmployeeRows(id, dates[..|dates| - 1], shiftStart, shiftEnd)
        + [MakeRow(id, dates[|dates| - 1], shiftStart, shiftEnd)]
  }

  /** The record of one employee at position `j` is the one for the day at
      position `j`. */
  lemma {:induction false} EmployeeRowsAt(id: string, dates: seq<Date>, shiftStart: string, shiftEnd: string, j: nat)
    requires AllValid(dates) && j < |dates|
    ensures EmployeeRows(id, dates, shiftStart, shiftEnd)[j] == MakeRow(id, dates[j], shiftStart, shiftEnd)
  {
    var n := |dates| - 1;
    if j < n {
      EmployeeRowsAt(id, dates[..n], shiftStart, shiftEnd, j);
    }
  }

  /** All records, employee by employee in input order. */
  function Expand(ids: seq<string>, dates: seq<Date>, shiftStart: string, shiftEnd: string): seq<Row>
    requires AllValid(dates)
  {
    if ids == [] then []
    else
      Expand(ids[..|ids| - 1], dates, shiftStart, shiftEnd)
        + EmployeeRows(ids[|ids| - 1], dates, shiftStart, shiftEnd)
  }

  /** Where the records of the employee at position `i` start when every
      employee has `n` records: `i * n`, counted up without multiplying. */
  function BlockStart(i: nat, n: nat): nat {
    if i == 0 then 0 else BlockStart(i - 1, n) + n
  }

  lemma {:induction false} BlockStartProduct(i: nat, n: nat)
    ensures BlockStart(i, n) == i * n
  {
    if i > 0 {
      BlockStartProduct(i - 1, n);
      MulStep(i - 1, 1, n);
    }
  }

  lemma {:induction false} BlockStartMonotone(i: nat, m: nat, n: nat)
    requires i < m
    ensures BlockStart(i, n) + n <= BlockStart(m, n)
  {
    if i + 1 < m {
      BlockStartMonotone(i, m - 1, n);
    }
  }

  lemma {:induction false} ExpandBlockLength(ids: seq<string>, dates: seq<Date>, shiftStart: string, shiftEnd: string)
    requires AllValid(dates)
    ensures |Expand(ids, dates, shiftStart, shiftEnd)| == BlockStart(|ids|, |dates|)
  {
    if ids != [] {
      ExpandBlockLength(ids[..|ids| - 1], dates, shiftStart, shiftEnd);
    }
  }

  /** One record per employee and day: the row count is the number of IDs
      times the number of days. */
  lemma ExpandLength(ids: seq<string>, dates: seq<Date>, shiftStart: string, shiftEnd: string)
    requires AllValid(dates)
    ensures |Expand(ids, dates, shiftStart, shiftEnd)| == |ids| * |dates|
  {
    ExpandBlockLength(ids, dates, shiftStart, shiftEnd);
    BlockStartProduct(|ids|, |dates|);
  }

  /** The loop of the generator: the outer loop runs over the employees,
      the inner one over the days, and each step appends one record. */
  method GenerateRows(ids: seq<string>, dates: seq<Date>, shiftStart: string, shiftEnd: string)
    returns (rows: seq<Row>)
    requires AllValid(dates)
    ensures rows == Expand(ids, dates, shiftStart, shiftEnd)
  {
    rows := [];
    for i := 0 to |ids|
      invariant rows == Expand(ids[..i], dates, shiftStart, shiftEnd)
    {
      for j := 0 to |dates|
        invariant rows == Expand(ids[..i], dates, shiftStart, shiftEnd)
                            + EmployeeRows(ids[i], dates[..j], shiftStart, shiftEnd)
      {
        rows := rows + [MakeRow(ids[i], dates[j], shiftStart, shiftEnd)];
        assert dates[..j + 1][..j] == dates[..j];
      }
      assert dates[..|dates|] == dates;
      assert ids[..i + 1][..i] == ids[..i];
    }
    assert ids[..|ids|] == ids;
  }

  /** What happens when "Generate CSV" is submitted: the IDs are parsed
      from the text area, the days enumerated, and the records built. */
  method GenerateSchedule(empIds: string, start: Date, end: Date, shiftStart: string, shiftEnd: string)
    returns (rows: seq<Row>)
    requires Valid(start) && Valid(end)
    ensures rows == Expand(ParseIds(empIds), DateRange(start, end), shiftStart, shiftEnd)
    ensures |rows| == |ParseIds(empIds)| * |DateRange(start, end)|
    ensures AllSpace(empIds) || Before(end, start) <==> rows == []
  {
    var ids := ParseIds(empIds);
    var dates := DateRange(start, end);
    rows := GenerateRows(ids, dates, shiftStart, shiftEnd);
    ExpandLength(ids, dates, shiftStart, shiftEnd);
    ParseIdsEmptyIff(empIds);
    ProductZero(|ids|, |dates|);
  }

  lemma ProductZero(a: nat, b: nat)
    ensures a * b == 0 <==> a == 0 || b == 0
  {
    if a > 0 && b > 0 {
      assert a * b >= b by {
        assert a * b == (a - 1) * b + b;
      }
    }
  }

  lemma CountLast(ids: seq<string>, x: string)
    requires ids != []
    ensures multiset(ids)[x]
         == multiset(ids[..|ids| - 1])[x] + (if ids[|ids| - 1] == x then 1 else 0)
  {
    assert ids == ids[..|ids| - 1] + [ids[|ids| - 1]];
  }

  lemma SumOfProducts(total1: nat, total2: nat, a: nat, b: nat, c: nat)
    requires total1 == a * c && total2 == b * c
    ensures total1 + total2 == (a + b) * c
  {
    MulStep(a, b, c);
  }

  lemma MulStep(a: nat, b: nat, c: nat)
    ensures (a + b) * c == a * c + b * c
  {
  }

  lemma IndexLeft(a: seq<Row>, b: seq<Row>, k: nat)
    requires k < |a|
    ensures k < |a + b| && (a + b)[k] == a[k]
  {
  }

  lemma IndexRight(a: seq<Row>, b: seq<Row>, j: nat)
    requires j < |b|
    ensures |a| + j < |a + b| && (a + b)[|a| + j] == b[j]
  {
  }

  lemma {:induction false} ExpandAtBlock(ids: seq<string>, dates: seq<Date>, shiftStart: string, shiftEnd: string, i: nat, j: nat)
    requires AllValid(dates) && i < |ids| && j < |dates|
    ensures BlockStart(i, |dates|) + j < |Expand(ids, dates, shiftStart, shiftEnd)|
    ensures Expand(ids, dates, shiftStart, shiftEnd)[BlockStart(i, |dates|) + j]
         == EmployeeRows(ids[i], dates, shiftStart, shiftEnd)[j]
  {
    var m := |ids| - 1;
    var prefix := Expand(ids[..m], dates, shiftStart, shiftEnd);
    var last := EmployeeRows(ids[m], dates, shiftStart, shiftEnd);
    ExpandBlockLength(ids[..m], dates, shiftStart, shiftEnd);
    if i < m {
      BlockStartMonotone(i, m, |dates|);
      ExpandAtBlock(ids[..m], dates, shiftStart, shiftEnd, i, j);
      assert ids[..m][i] == ids[i];
      IndexLeft(prefix, last, BlockStart(i, |dates|) + j);
    } else {
      IndexRight(prefix, last, j);
    }
  }

  /** Row order: employee-major in input order, dates in range order within
      each employee. Record number `i * |dates| + j` belongs to employee
      `ids[i]` on day `dates[j]`. */
  lemma ExpandAt(ids: seq<string>, dates: seq<Date>, shiftStart: string, shiftEnd: string, i: nat, j: nat)
    requires AllValid(dates) && i < |ids| && j < |dates|
    ensures i * |dates| + j < |Expand(ids, dates, shiftStart, shiftEnd)|
    ensures Expand(ids, dates, shiftStart, shiftEnd)[i * |dates| + j]
         == MakeRow(ids[i], dates[j], shiftStart, shiftEnd)
  {
    ExpandAtBlock(ids, dates, shiftStart, shiftEnd, i, j);
    EmployeeRowsAt(ids[i], dates, shiftStart, shiftEnd, j);
    BlockStartProduct(i, |dates|);
    var rows := Expand(ids, dates, shiftStart, shiftEnd);
    var k := BlockStart(i, |dates|) + j;
    assert k == i * |dates| + j;
    assert rows[k] == MakeRow(ids[i], dates[j], shiftStart, shiftEnd);
  }

  /** The `ShiftDate` text of some day in `dates`. */
  predicate IsShiftDateOf(shiftDate: string, dates: seq<Date>) {
    exists d :: d in dates && Valid(d) && FormatDate(d) == shiftDate
  }

  /** A record as the generator writes it: the shift times as entered,
      empty venues, edit type `"ADD"`, an employee of the list and the
      `ShiftDate` of a day of the list. */
  predicate Generated(r: Row, ids: seq<string>, dates: seq<Date>, shiftStart: string, shiftEnd: string) {
    r.logIn == shiftStart && r.logOut == shiftEnd
    && r.logInVenue == "" && r.logOutVenue == "" && r.editType == "ADD"
    && r.employeeId in ids && IsShiftDateOf(r.shiftDate, dates)
  }

  predicate AllGenerated(rows: seq<Row>, ids: seq<string>, dates: seq<Date>, shiftStart: string, shiftEnd: string) {
    forall p :: 0 <= p < |rows| ==> Generated(rows[p], ids, dates, shiftStart, shiftEnd)
  }

  /** No field but the employee and the date varies between records. */
  lemma {:induction false} ExpandFields(ids: seq<string>, dates: seq<Date>, shiftStart: string, shiftEnd: string)
    requires AllValid(dates)
    ensures AllGenerated(Expand(ids, dates, shiftStart, shiftEnd), ids, dates, shiftStart, shiftEnd)
  {
    if ids != [] {
      var m := |ids| - 1;
      var prefix := Expand(ids[..m], dates, shiftStart, shiftEnd);
      ExpandFields(ids[..m], dates, shiftStart, shiftEnd);
      var last := EmployeeRows(ids[m], dates, shiftStart, shiftEnd);
      var rows := Expand(ids, dates, shiftStart, shiftEnd);
      assert rows == prefix + last;
      forall p | 0 <= p < |rows| ensures Generated(rows[p], ids, dates, shiftStart, shiftEnd) {
        if p < |prefix| {
          assert rows[p] == prefix[p];
          assert Generated(prefix[p], ids[..m], dates, shiftStart, shiftEnd);
          var k :| 0 <= k < m && ids[..m][k] == prefix[p].employeeId;
          assert ids[k] == rows[p].employeeId;
        } else {
          var j := p - |prefix|;
          EmployeeRowsAt(ids[m], dates, shiftStart, shiftEnd, j);
          assert rows[p] == last[j] == MakeRow(ids[m], dates[j], shiftStart, shiftEnd);
          assert dates[j] in dates;
        }
      }
    }
  }

  /** Number of records carrying the key (`id`, `shiftDate`). */
  function KeyCount(rows: seq<Row>, id: string, shiftDate: string): nat {
    if rows == [] then 0
    else
      (if rows[0].employeeId == id && rows[0].shiftDate == shiftDate then 1 else 0)
        + KeyCount(rows[1..], id, shiftDate)
  }

  /** Number of days in `dates` whose `ShiftDate` text is `shiftDate`. */
  function DateCount(dates: seq<Date>, shiftDate: string): nat
    requires AllValid(dates)
  {
    if dates == [] then 0
    else (if FormatDate(dates[0]) == shiftDate then 1 else 0) + DateCount(dates[1..], shiftDate)
  }

  lemma {:induction false} KeyCountAppend(a: seq<Row>, b: seq<Row>, id: string, shiftDate: string)
    ensures KeyCount(a + b, id, shiftDate) == KeyCount(a, id, shiftDate) + KeyCount(b, id, shiftDate)
  {
    if a == [] {
      assert a + b == b;
    } else {
      assert (a + b)[1..] == a[1..] + b;
      KeyCountAppend(a[1..], b, id, shiftDate);
    }
  }

  lemma {:induction false} DateCountAppend(a: seq<Date>, d: Date, shiftDate: string)
    requires AllValid(a) && Valid(d)
    ensures AllValid(a + [d])
    ensures DateCount(a + [d], shiftDate) == DateCount(a, shiftDate) + (if FormatDate(d) == shiftDate then 1 else 0)
  {
    if a != [] {
      assert (a + [d])[1..] == a[1..] + [d];
      DateCountAppend(a[1..], d, shiftDate);
    }
  }

  lemma {:induction false} EmployeeRowsKeyCount(id: string, dates: seq<Date>, shiftStart: string, shiftEnd: string, x: string, shiftDate: string)
    requires AllValid(dates)
    ensures KeyCount(EmployeeRows(id, dates, shiftStart, shiftEnd), x, shiftDate)
         == if id == x then DateCount(dates, shiftDate) else 0
  {
    if dates != [] {
      var n := |dates| - 1;
      EmployeeRowsKeyCount(id, dates[..n], shiftStart, shiftEnd, x, shiftDate);
      var row := MakeRow(id, dates[n], shiftStart, shiftEnd);
      KeyCountAppend(EmployeeRows(id, dates[..n], shiftStart, shiftEnd), [row], x, shiftDate);
      assert [row][1..] == [];
      DateCountAppend(dates[..n], dates[n], shiftDate);
      assert dates[..n] + [dates[n]] == dates;
    }
  }

  /** Every key (employee, `ShiftDate`) occurs as many times as the
      employee occurs in the list times the number of days with that
      `ShiftDate`. */
  lemma {:induction false} ExpandKeyCount(ids: seq<string>, dates: seq<Date>, shiftStart: string, shiftEnd: string, x: string, shiftDate: string)
    requires AllValid(dates)
    ensures KeyCount(Expand(ids, dates, shiftStart, shiftEnd), x, shiftDate)
         == multiset(ids)[x] * DateCount(dates, shiftDate)
  {
    if ids != [] {
      var m := |ids| - 1;
      var prefix := Expand(ids[..m], dates, shiftStart, shiftEnd);
      var last := EmployeeRows(ids[m], dates, shiftStart, shiftEnd);
      var c := DateCount(dates, shiftDate);
      var one := if ids[m] == x then 1 else 0;
      ExpandKeyCount(ids[..m], dates, shiftStart, shiftEnd, x, shiftDate);
      KeyCountAppend(prefix, last, x, shiftDate);
      EmployeeRowsKeyCount(ids[m], dates, shiftStart, shiftEnd, x, shiftDate);
      CountLast(ids, x);
      SumOfProducts(KeyCount(prefix, x, shiftDate), KeyCount(last, x, shiftDate), multiset(ids[..m])[x], one, c);
    }
  }

  /** In a strictly ascending list of days, the `ShiftDate` of a day occurs
      once if the day is in the list and not at all otherwise. */
  lemma {:induction false} DateCountAscending(dates: seq<Date>, d: Date)
    requires AllValid(dates) && StrictlyAscending(dates) && Valid(d)
    ensures DateCount(dates, FormatDate(d)) == if d in dates then 1 else 0
  {
    if dates != [] {
      var rest := dates[1..];
      assert StrictlyAscending(rest) by {
        forall p, q | 0 <= p < q < |rest| ensures Before(rest[p], rest[q]) {
          assert rest[p] == dates[p + 1] && rest[q] == dates[q + 1];
        }
      }
      DateCountAscending(rest, d);
      FormatDateInjective(dates[0], d);
      assert dates[0] !in rest by {
        forall k | 0 <= k < |rest| ensures rest[k] != dates[0] {
          assert Before(dates[0], dates[k + 1]);
        }
      }
      assert d in dates <==> d == dates[0] || d in rest;
    }
  }

  /** Each (employee, day) key occurs in the generated rows exactly as often
      as the employee occurs among the parsed IDs when the day is in the
      range, and never otherwise; so for distinct IDs every pair occurs
      exactly once. */
  lemma ScheduleKeyCount(empIds: string, start: Date, end: Date, shiftStart: string, shiftEnd: string, id: string, d: Date)
    requires Valid(start) && Valid(end) && Valid(d)
    ensures KeyCount(Expand(ParseIds(empIds), DateRange(start, end), shiftStart, shiftEnd), id, FormatDate(d))
         == if AtOrBefore(start, d) && AtOrBefore(d, end) then multiset(ParseIds(empIds))[id] else 0
  {
    var dates := DateRange(start, end);
    ExpandKeyCount(ParseIds(empIds), dates, shiftStart, shiftEnd, id, FormatDate(d));
    DateRangeAscending(start, end);
    DateCountAscending(dates, d);
    DateRangeMembership(start, end, d);
  }
}
