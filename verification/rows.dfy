/** The row classifier: turns each ingested row into a task record, decides who
    may see it, and buckets it as pending, history or dropped. */
module Rows {
  import opened Optional
  import opened JsText
  import opened Cells
  import opened Dates
  import opened Response

  // ---------------------------------------------------------------------------
  // Column table (zero-based offsets of the spreadsheet columns A..T)

  const ColumnCount: nat := 20
  const ColB: nat := 1   // task id
  const ColE: nat := 4   // assignee
  const ColG: nat := 6   // start date
  const ColK: nat := 10  // planned date
  const ColL: nat := 11  // second marker
  const ColS: nat := 18  // verification date
  const ColT: nat := 19  // remarks

  /** The three columns whose values are normalised to DD/MM/YYYY. */
  predicate IsDateColumn(i: nat) {
    i == ColG || i == ColK || i == ColS
  }

  type Columns = s: seq<Cell> | |s| == ColumnCount witness seq(ColumnCount, _ => Null)

  /** One task record: synthetic id, 1-based sheet row, task id, and columns A..T. */
  datatype Task = Task(id: string, rowIndex: nat, taskId: Cell, cols: Columns)

  /** Cell `i` of a row; a missing cell reads as undefined, which behaves as null here. */
  function CellAt(values: seq<Cell>, i: nat): Cell {
    if i < |values| then values[i] else Null
  }

  /** Column `i` of the record: date columns are normalised when truthy and "" otherwise;
      every other column is `rowValues[i] || ""`. */
  function ColumnValue(values: seq<Cell>, i: nat, host: HostDateParser): (c: Cell)
    ensures c != Null
    ensures IsDateColumn(i) ==> c.Str?
    ensures IsDateColumn(i) && CellAt(values, i).Str? && IsCanonical(CellAt(values, i).s) ==> c == CellAt(values, i)
    ensures !Truthy(CellAt(values, i)) ==> c == Str("")
    ensures !IsDateColumn(i) && Truthy(CellAt(values, i)) ==> c == CellAt(values, i)
    ensures IsDateColumn(i) && Truthy(CellAt(values, i)) ==>
              c == Str(NormalizeDate(ToText(CellAt(values, i)), host))
  {
    var v := CellAt(values, i);
    if IsDateColumn(i) then (if Truthy(v) then Str(NormalizeDate(ToText(v), host)) else Str(""))
    else OrEmpty(v)
  }

  // ---------------------------------------------------------------------------
  // Synthetic ids

  /** `task_<taskId>_<row>` when the task id is truthy, else `row_<row>_<salt>` where
      the salt is the random suffix the page draws. */
  function MakeId(taskId: Cell, rowIndex: nat, salt: string): string {
    if Truthy(taskId) then "task_" + ToText(taskId) + "_" + NatToString(rowIndex)
    else "row_" + NatToString(rowIndex) + "_" + salt
  }

  /** The number of digits a string ends with. */
  function TrailingDigits(s: string): nat {
    if s == [] || !IsDigit(s[|s| - 1]) then 0 else 1 + TrailingDigits(s[..|s| - 1])
  }

  /** The number of digits a string starts with. */
  function LeadingDigits(s: string): nat {
    if s == [] || !IsDigit(s[0]) then 0 else 1 + LeadingDigits(s[1..])
  }

  /** After "_" and a numeral, the trailing digits are exactly the numeral's. */
  lemma {:induction false} TrailingDigitsAfterUnderscore(p: string, d: string)
    requires AllDigits(d)
    ensures TrailingDigits(p + "_" + d) == |d|
    decreases |d|
  {
    var x := p + "_" + d;
    if d != [] {
      var d' := d[..|d| - 1];
      assert x[..|x| - 1] == p + "_" + d';
      assert x[|x| - 1] == d[|d| - 1];
      TrailingDigitsAfterUnderscore(p, d');
    }
  }

  /** Before "_", the leading digits are exactly the numeral's. */
  lemma {:induction false} LeadingDigitsBeforeUnderscore(d: string, p: string)
    requires AllDigits(d)
    ensures LeadingDigits(d + "_" + p) == |d|
    decreases |d|
  {
    var x := d + "_" + p;
    if d != [] {
      assert x[1..] == d[1..] + "_" + p;
      assert x[0] == d[0];
      LeadingDigitsBeforeUnderscore(d[1..], p);
    }
  }

  /** Two strings ending in "_" and a numeral can only be equal if the numerals are. */
  lemma SameTrailingNumeral(p: string, d: string, q: string, e: string)
    requires AllDigits(d) && AllDigits(e)
    requires p + "_" + d == q + "_" + e
    ensures d == e
  {
    var x := p + "_" + d;
    TrailingDigitsAfterUnderscore(p, d);
    TrailingDigitsAfterUnderscore(q, e);
    assert |d| == |e|;
    assert d == x[|x| - |d|..];
    assert e == (q + "_" + e)[|x| - |e|..];
  }

  /** Two strings starting with a numeral and "_" can only be equal if the numerals are. */
  lemma SameLeadingNumeral(d: string, p: string, e: string, q: string)
    requires AllDigits(d) && AllDigits(e)
    requires d + "_" + p == e + "_" + q
    ensures d == e
  {
    var x := d + "_" + p;
    LeadingDigitsBeforeUnderscore(d, p);
    LeadingDigitsBeforeUnderscore(e, q);
    assert |d| == |e|;
    assert d == x[..|d|];
    assert e == (e + "_" + q)[..|e|];
  }

  /** Ids determine their row: whatever the task ids and random suffixes, rows at
      different positions never share an id. */
  lemma MakeIdDeterminesRow(a: Cell, i: nat, s: string, b: Cell, j: nat, t: string)
    ensures MakeId(a, i, s) == MakeId(b, j, t) ==> i == j
  {
    if Truthy(a) && Truthy(b) {
      TaskIdsDetermineRow(ToText(a), i, ToText(b), j);
    } else if !Truthy(a) && !Truthy(b) {
      RowIdsDetermineRow(i, s, j, t);
    } else {
      IdInitial(a, i, s);
      IdInitial(b, j, t);
    }
  }

  lemma TaskIdsDetermineRow(a: string, i: nat, b: string, j: nat)
    ensures "task_" + a + "_" + NatToString(i) == "task_" + b + "_" + NatToString(j) ==> i == j
  {
    if "task_" + a + "_" + NatToString(i) == "task_" + b + "_" + NatToString(j) {
      SameTrailingNumeral("task_" + a, NatToString(i), "task_" + b, NatToString(j));
      NatToStringInjective(i, j);
    }
  }

  lemma RowIdsDetermineRow(i: nat, s: string, j: nat, t: string)
    ensures "row_" + NatToString(i) + "_" + s == "row_" + NatToString(j) + "_" + t ==> i == j
  {
    var u := NatToString(i) + "_" + s;
    var v := NatToString(j) + "_" + t;
    assert "row_" + NatToString(i) + "_" + s == "row_" + u;
    assert "row_" + NatToString(j) + "_" + t == "row_" + v;
    if "row_" + u == "row_" + v {
      assert u == ("row_" + u)[4..];
      assert v == ("row_" + v)[4..];
      SameLeadingNumeral(NatToString(i), s, NatToString(j), t);
      NatToStringInjective(i, j);
    }
  }

  lemma IdInitial(a: Cell, i: nat, s: string)
    ensures MakeId(a, i, s)[0] == if Truthy(a) then 't' else 'r'
  {
  }

  // ---------------------------------------------------------------------------
  // Assignee gating

  /** Outcome of the assignee check: admitted, refused, or a fault when the page
      calls `toLowerCase` on a non-string assignee and the whole fetch throws. */
  datatype Gate = Admitted | Refused | GateFault

  /** The assignee: column E when it is truthy, otherwise the label "Unassigned". */
  function Assignee(values: seq<Cell>): (a: Cell)
    ensures Truthy(a)
    ensures !Truthy(CellAt(values, ColE)) ==> a == Str("Unassigned")
  {
    var e := CellAt(values, ColE);
    if Truthy(e) then e else Str("Unassigned")
  }

  function GateRow(values: seq<Cell>, user: string, role: string): Gate {
    if role == "admin" then Admitted
    else match Assignee(values)
      case Str(a) => if Lower(a) == Lower(user) then Admitted else Refused
      case _ => GateFault
  }

  /** An admin is admitted to every row; anyone else is admitted exactly when the
      assignee, read as "Unassigned" when empty, matches their name case-insensitively,
      and faults when the assignee is a number. */
  lemma GateRowCharacterised(values: seq<Cell>, user: string, role: string)
    ensures role == "admin" ==> GateRow(values, user, role) == Admitted
    ensures role != "admin" ==>
      (GateRow(values, user, role) == Admitted <==> Assignee(values).Str? && Lower(Assignee(values).s) == Lower(user))
    ensures role != "admin" ==> (GateRow(values, user, role) == GateFault <==> Assignee(values).Num?)
    ensures role != "admin" && !Truthy(CellAt(values, ColE)) ==>
      (GateRow(values, user, role) == Admitted <==> Lower(user) == "unassigned")
  {
    if role != "admin" && !Truthy(CellAt(values, ColE)) {
      assert Lower("Unassigned") == "unassigned";
    }
  }

  // ---------------------------------------------------------------------------
  // Buckets

  datatype Bucket = PendingBucket | HistoryBucket | Dropped

  predicate HasK(values: seq<Cell>) { !IsEmpty(CellAt(values, ColK)) }
  predicate HasL(values: seq<Cell>) { !IsEmpty(CellAt(values, ColL)) }
  predicate HasS(values: seq<Cell>) { !IsEmpty(CellAt(values, ColS)) }

  /** Pending when K and L are present and S is not; history when all three are. */
  function BucketOf(values: seq<Cell>): Bucket {
    if HasK(values) && HasL(values) && !HasS(values) then PendingBucket
    else if HasK(values) && HasL(values) && HasS(values) then HistoryBucket
    else Dropped
  }

  /** The buckets partition the rows: a row is dropped exactly when K or L is
      missing, and otherwise S alone decides between pending and history. */
  lemma BucketsPartition(values: seq<Cell>)
    ensures BucketOf(values) == Dropped <==> !HasK(values) || !HasL(values)
    ensures BucketOf(values) != Dropped ==> (BucketOf(values) == HistoryBucket <==> HasS(values))
  {
  }

  // ---------------------------------------------------------------------------
  // One row

  /** The record the page builds for the row at position `p` (0 is the header). */
  function BuildTask(values: seq<Cell>, p: nat, salt: string, host: HostDateParser): (t: Task)
    ensures t.rowIndex == p + 1
    ensures t.taskId == OrEmpty(CellAt(values, ColB)) == t.cols[ColB]
    ensures t.id == MakeId(t.taskId, p + 1, salt)
    ensures forall i :: 0 <= i < ColumnCount ==> t.cols[i] == ColumnValue(values, i, host)
  {
    var taskId := OrEmpty(CellAt(values, ColB));
    var cols: Columns := seq(ColumnCount, i requires 0 <= i => ColumnValue(values, i, host));
    Task(MakeId(taskId, p + 1, salt), p + 1, taskId, cols)
  }

  /** What the classifier does with one row. */
  datatype Verdict = Skip | ToPending(task: Task) | ToHistory(task: Task) | Fault

  /** What the loop over the rows does with the row at position `p`: the header
      is skipped, and a record keeps the row's position plus one and an id built from it. */
  function ClassifyRow(row: RawRow, p: nat, user: string, role: string, salt: string, host: HostDateParser): (v: Verdict)
    ensures p == 0 ==> v == Skip
    ensures v == Fault ==> role != "admin"
    ensures v.ToPending? || v.ToHistory? ==>
      v.task.rowIndex == p + 1 && v.task.id == MakeId(v.task.taskId, p + 1, salt)
  {
    if p == 0 then Skip
    else match RowValues(row)
      case None => Skip
      case Some(values) =>
        match GateRow(values, user, role)
        case GateFault => Fault
        case Refused => Skip
        case Admitted =>
          var t := BuildTask(values, p, salt, host);
          match BucketOf(values)
          case PendingBucket => ToPending(t)
          case HistoryBucket => ToHistory(t)
          case Dropped => Skip
  }

  /** What decides a verdict: a row past the header, of a known shape, admitted by
      the gate, goes to the bucket its K, L and S columns select, carrying the record
      built from it; a row of unknown shape is skipped; a gate fault is a fault. */
  lemma ClassifyRowDecides(row: RawRow, p: nat, user: string, role: string, salt: string, host: HostDateParser)
    ensures var v := ClassifyRow(row, p, user, role, salt, host);
      && (RowValues(row).None? ==> v == Skip)
      && (v.ToPending? || v.ToHistory? ==>
            && p > 0 && RowValues(row).Some?
            && GateRow(RowValues(row).value, user, role) == Admitted
            && v.task == BuildTask(RowValues(row).value, p, salt, host))
      && (v.ToPending? ==> BucketOf(RowValues(row).value) == PendingBucket)
      && (v.ToHistory? ==> BucketOf(RowValues(row).value) == HistoryBucket)
      && (p > 0 && RowValues(row).Some? ==>
            (v == Fault <==> GateRow(RowValues(row).value, user, role) == GateFault))
      && (p > 0 && RowValues(row).Some? && GateRow(RowValues(row).value, user, role) == Admitted ==>
            match BucketOf(RowValues(row).value)
            case PendingBucket => v.ToPending?
            case HistoryBucket => v.ToHistory?
            case Dropped => v == Skip)
  {
  }

  // ---------------------------------------------------------------------------
  // The whole fetch

  datatype Buckets = Buckets(pending: seq<Task>, history: seq<Task>)

  /** Environment of one fetch: who is asking, the random suffix drawn for each row
      position, and the engine's date parser. */
  datatype Requester = Requester(user: string, role: string, salts: nat -> string, host: HostDateParser)

  function VerdictAt(rows: seq<RawRow>, p: nat, who: Requester): Verdict
    requires p < |rows|
  {
    ClassifyRow(rows[p], p, who.user, who.role, who.salts(p), who.host)
  }

  /** Row indexes strictly increase along the list. */
  predicate Ascending(ts: seq<Task>) {
    forall i, j | 0 <= i < j < |ts| :: ts[i].rowIndex < ts[j].rowIndex
  }

  /** The verdicts of the first `n` rows, in row order. */
  function Verdicts(rows: seq<RawRow>, n: nat, who: Requester): (vs: seq<Verdict>)
    requires n <= |rows|
    ensures |vs| == n && forall p :: 0 <= p < n ==> vs[p] == VerdictAt(rows, p, who)
  {
    seq(n, p requires 0 <= p < n => VerdictAt(rows, p, who))
  }

  /** The `forEach` loop as a fold: each record is pushed onto its list in turn, and a
      fault anywhere aborts the whole loop. */
  function Gather(vs: seq<Verdict>): (r: Option<Buckets>)
    ensures r.None? <==> Fault in vs
  {
    if vs == [] then Some(Buckets([], []))
    else
      var k := |vs| - 1;
      assert vs == vs[..k] + [vs[k]];
      match Gather(vs[..k])
      case None => None
      case Some(b) =>
        match vs[k]
        case Fault => None
        case Skip => Some(b)
        case ToPending(t) => Some(Buckets(b.pending + [t], b.history))
        case ToHistory(t) => Some(Buckets(b.pending, b.history + [t]))
  }

  /** Verdicts as the classifier produces them: the header row yields no record, and
      the record of position `p` has sheet row `p + 1`. */
  predicate Positioned(vs: seq<Verdict>) {
    forall p :: 0 <= p < |vs| && (vs[p].ToPending? || vs[p].ToHistory?) ==>
      p >= 1 && vs[p].task.rowIndex == p + 1
  }

  /** Sound: every gathered record is the record of the verdict at its own position,
      in the list that verdict names. */
  lemma {:induction false} GatherSound(vs: seq<Verdict>)
    requires Positioned(vs) && Gather(vs).Some?
    ensures var b := Gather(vs).value;
      && (forall t :: t in b.pending ==> 1 <= t.rowIndex - 1 < |vs| && vs[t.rowIndex - 1] == ToPending(t))
      && (forall t :: t in b.history ==> 1 <= t.rowIndex - 1 < |vs| && vs[t.rowIndex - 1] == ToHistory(t))
  {
    if vs != [] {
      var k := |vs| - 1;
      var ws := vs[..k];
      assert forall p :: 0 <= p < k ==> ws[p] == vs[p];
      GatherSound(ws);
      var b := Gather(ws).value;
      var c := Gather(vs).value;
      var v := vs[k];
      if v.ToPending? {
        assert c.pending == b.pending + [v.task] && c.history == b.history;
      } else if v.ToHistory? {
        assert c.pending == b.pending && c.history == b.history + [v.task];
      } else {
        assert c == b;
      }
    }
  }

  /** Complete: the record of every pending or history verdict is in the matching list. */
  lemma {:induction false} GatherComplete(vs: seq<Verdict>)
    requires Gather(vs).Some?
    ensures var b := Gather(vs).value;
      && (forall p :: 0 <= p < |vs| && vs[p].ToPending? ==> vs[p].task in b.pending)
      && (forall p :: 0 <= p < |vs| && vs[p].ToHistory? ==> vs[p].task in b.history)
  {
    if vs != [] {
      var k := |vs| - 1;
      var ws := vs[..k];
      assert forall p :: 0 <= p < k ==> ws[p] == vs[p];
      GatherComplete(ws);
      var b := Gather(ws).value;
      var c := Gather(vs).value;
      var v := vs[k];
      if v.ToPending? {
        assert c.pending == b.pending + [v.task] && c.history == b.history;
      } else if v.ToHistory? {
        assert c.pending == b.pending && c.history == b.history + [v.task];
      } else {
        assert c == b;
      }
    }
  }

  lemma VerdictsPositioned(rows: seq<RawRow>, n: nat, who: Requester)
    requires n <= |rows|
    ensures Positioned(Verdicts(rows, n, who))
  {
  }

  /** The records the first `n` rows contribute, in row order; None when some row faults. */
  function Collect(rows: seq<RawRow>, n: nat, who: Requester): (r: Option<Buckets>)
    requires n <= |rows|
    ensures r.None? <==> exists p :: 0 <= p < n && VerdictAt(rows, p, who) == Fault
  {
    var vs := Verdicts(rows, n, who);
    assert Fault in vs <==> exists p :: 0 <= p < n && vs[p] == Fault;
    Gather(vs)
  }

  /** Sound: each pending record is the record of a row, at or after row 1 and
      before `n`, whose verdict is pending; the same for history. */
  lemma CollectSound(rows: seq<RawRow>, n: nat, who: Requester)
    requires n <= |rows| && Collect(rows, n, who).Some?
    ensures var b := Collect(rows, n, who).value;
      && (forall t :: t in b.pending ==> 1 <= t.rowIndex - 1 < n && VerdictAt(rows, t.rowIndex - 1, who) == ToPending(t))
      && (forall t :: t in b.history ==> 1 <= t.rowIndex - 1 < n && VerdictAt(rows, t.rowIndex - 1, who) == ToHistory(t))
  {
    VerdictsPositioned(rows, n, who);
    GatherSound(Verdicts(rows, n, who));
  }

  /** Complete: every row before `n` whose verdict is pending contributes its
      record to the pending list; the same for history. */
  lemma CollectComplete(rows: seq<RawRow>, n: nat, who: Requester)
    requires n <= |rows| && Collect(rows, n, who).Some?
    ensures var b := Collect(rows, n, who).value;
      && (forall p :: 0 <= p < n && VerdictAt(rows, p, who).ToPending? ==> VerdictAt(rows, p, who).task in b.pending)
      && (forall p :: 0 <= p < n && VerdictAt(rows, p, who).ToHistory? ==> VerdictAt(rows, p, who).task in b.history)
  {
    GatherComplete(Verdicts(rows, n, who));
  }

  /** The record came from a row at position 1..n-1 and carries the id built from
      that position. */
  predicate BuiltFromRow(t: Task, n: nat, who: Requester) {
    2 <= t.rowIndex <= n && t.id == MakeId(t.taskId, t.rowIndex, who.salts(t.rowIndex - 1))
  }

  predicate AllBuiltFromRows(ts: seq<Task>, n: nat, who: Requester) {
    forall k :: 0 <= k < |ts| ==> BuiltFromRow(ts[k], n, who)
  }

  /** No row index is shared between the two lists. */
  predicate RowsDisjoint(xs: seq<Task>, ys: seq<Task>) {
    forall i, j :: 0 <= i < |xs| && 0 <= j < |ys| ==> xs[i].rowIndex != ys[j].rowIndex
  }

  /** One step of Collect: the verdict of row `n - 1` appended to what came before. */
  lemma CollectStep(rows: seq<RawRow>, n: nat, who: Requester)
    requires 0 < n <= |rows| && Collect(rows, n, who).Some?
    ensures Collect(rows, n - 1, who).Some?
    ensures var b := Collect(rows, n - 1, who).value;
      var v := VerdictAt(rows, n - 1, who);
      Collect(rows, n, who).value ==
        if v.ToPending? then Buckets(b.pending + [v.task], b.history)
        else if v.ToHistory? then Buckets(b.pending, b.history + [v.task])
        else b
    ensures var v := VerdictAt(rows, n - 1, who);
      v.ToPending? || v.ToHistory? ==> v.task.rowIndex == n && BuiltFromRow(v.task, n, who)
  {
    var vs := Verdicts(rows, n, who);
    assert vs[..n - 1] == Verdicts(rows, n - 1, who);
  }

  /** Appending the record of row `n` to a list built from earlier rows keeps the
      list built from rows and in row order. */
  lemma AppendLaterRow(ts: seq<Task>, t: Task, n: nat, who: Requester)
    requires n > 0 && AllBuiltFromRows(ts, n - 1, who) && Ascending(ts)
    requires BuiltFromRow(t, n, who) && t.rowIndex == n
    ensures AllBuiltFromRows(ts + [t], n, who) && Ascending(ts + [t])
  {
    var us := ts + [t];
    assert forall k :: 0 <= k < |ts| ==> us[k] == ts[k];
  }

  /** A record of row `n` is disjoint from any list built from earlier rows. */
  lemma DisjointFromLaterRow(xs: seq<Task>, ys: seq<Task>, t: Task, n: nat, who: Requester)
    requires n > 0 && RowsDisjoint(xs, ys)
    requires AllBuiltFromRows(xs, n - 1, who) && AllBuiltFromRows(ys, n - 1, who) && t.rowIndex == n
    ensures RowsDisjoint(xs + [t], ys) && RowsDisjoint(xs, ys + [t])
  {
    var xt := xs + [t];
    var yt := ys + [t];
    assert forall k :: 0 <= k < |xs| ==> xt[k] == xs[k];
    assert forall k :: 0 <= k < |ys| ==> yt[k] == ys[k];
  }

  /** A list built from rows before `m` is built from rows before any later `n`. */
  lemma AllBuiltWeaken(ts: seq<Task>, m: nat, n: nat, who: Requester)
    requires m <= n && AllBuiltFromRows(ts, m, who)
    ensures AllBuiltFromRows(ts, n, who)
  {
  }

  /** Every collected record comes from a row past the header and before `n`, and
      carries the id built from that row's position. */
  lemma {:induction false} CollectShape(rows: seq<RawRow>, n: nat, who: Requester)
    requires n <= |rows| && Collect(rows, n, who).Some?
    ensures AllBuiltFromRows(Collect(rows, n, who).value.pending, n, who)
    ensures AllBuiltFromRows(Collect(rows, n, who).value.history, n, who)
    ensures Ascending(Collect(rows, n, who).value.pending)
    ensures Ascending(Collect(rows, n, who).value.history)
    ensures RowsDisjoint(Collect(rows, n, who).value.pending, Collect(rows, n, who).value.history)
  {
    if n > 0 {
      CollectStep(rows, n, who);
      CollectShape(rows, n - 1, who);
      var b := Collect(rows, n - 1, who).value;
      var c := Collect(rows, n, who).value;
      var v := VerdictAt(rows, n - 1, who);
      AllBuiltWeaken(b.pending, n - 1, n, who);
      AllBuiltWeaken(b.history, n - 1, n, who);
      if v.ToPending? {
        assert c == Buckets(b.pending + [v.task], b.history);
        AppendLaterRow(b.pending, v.task, n, who);
        DisjointFromLaterRow(b.pending, b.history, v.task, n, who);
      } else if v.ToHistory? {
        assert c == Buckets(b.pending, b.history + [v.task]);
        AppendLaterRow(b.history, v.task, n, who);
        DisjointFromLaterRow(b.pending, b.history, v.task, n, who);
      } else {
        assert c == b;
      }
    }
  }

  /** Every record carries a distinct id. */
  predicate DistinctIds(ts: seq<Task>) {
    forall i, j | 0 <= i < j < |ts| :: ts[i].id != ts[j].id
  }

  /** The result of one fetch, or the fault that aborted it. */
  datatype LoadError = AssigneeNotText

  /** `fetchSheetData` from the decoded payload on: the header row is skipped, every
      other row is classified, and a fault anywhere fails the whole load. */
  function Ingest(payload: Payload, who: Requester): (r: Result)
    ensures r.Failed? <==>
      exists p :: 0 <= p < |PayloadRows(payload)| && VerdictAt(PayloadRows(payload), p, who) == Fault
    ensures who.role == "admin" ==> r.Loaded?
    ensures r.Loaded? ==> Collect(PayloadRows(payload), |PayloadRows(payload)|, who) == Some(r.buckets)
  {
    var rows := PayloadRows(payload);
    match Collect(rows, |rows|, who)
    case None => Failed(AssigneeNotText)
    case Some(b) => Loaded(b)
  }

  datatype Result = Loaded(buckets: Buckets) | Failed(error: LoadError)

  /** Records built from distinct rows carry distinct ids. */
  lemma DistinctRowsDistinctIds(pending: seq<Task>, history: seq<Task>, n: nat, who: Requester)
    requires AllBuiltFromRows(pending, n, who) && AllBuiltFromRows(history, n, who)
    requires Ascending(pending) && Ascending(history) && RowsDisjoint(pending, history)
    ensures DistinctIds(pending + history)
  {
    var all := pending + history;
    forall i, j | 0 <= i < j < |all|
      ensures all[i].id != all[j].id
    {
      var x := all[i];
      var y := all[j];
      if j < |pending| {
        assert pending[i] == x && pending[j] == y;
      } else if i >= |pending| {
        assert history[i - |pending|] == x && history[j - |pending|] == y;
      } else {
        assert pending[i] == x && history[j - |pending|] == y;
      }
      assert BuiltFromRow(x, n, who) && BuiltFromRow(y, n, who);
      MakeIdDeterminesRow(x.taskId, x.rowIndex, who.salts(x.rowIndex - 1),
                          y.taskId, y.rowIndex, who.salts(y.rowIndex - 1));
    }
  }

  /** Records collected from one payload come from distinct rows, so their ids are
      all different, across both buckets. */
  lemma CollectIdsDistinct(rows: seq<RawRow>, who: Requester)
    requires Collect(rows, |rows|, who).Some?
    ensures DistinctIds(Collect(rows, |rows|, who).value.pending + Collect(rows, |rows|, who).value.history)
  {
    var b := Collect(rows, |rows|, who).value;
    CollectShape(rows, |rows|, who);
    DistinctRowsDistinctIds(b.pending, b.history, |rows|, who);
  }

  /** Records of one load carry distinct ids. */
  lemma IngestIdsDistinct(payload: Payload, who: Requester)
    requires Ingest(payload, who).Loaded?
    ensures DistinctIds(Ingest(payload, who).buckets.pending + Ingest(payload, who).buckets.history)
  {
    CollectIdsDistinct(PayloadRows(payload), who);
  }

  /** No record comes from the header: every loaded record's sheet row is at least 2. */
  lemma IngestSkipsHeader(payload: Payload, who: Requester)
    requires Ingest(payload, who).Loaded?
    ensures forall t :: t in Ingest(payload, who).buckets.pending + Ingest(payload, who).buckets.history ==>
      t.rowIndex >= 2
  {
    var rows := PayloadRows(payload);
    var b := Ingest(payload, who).buckets;
    CollectShape(rows, |rows|, who);
    forall t | t in b.pending + b.history
      ensures t.rowIndex >= 2
    {
      if t in b.pending {
        var k :| 0 <= k < |b.pending| && b.pending[k] == t;
      } else {
        var k :| 0 <= k < |b.history| && b.history[k] == t;
      }
    }
  }
}
