/** The page's state and its handlers, with React's hooks flattened into one
    immutable record and each handler one transition: checking and unchecking a
    row, typing a remark, select-all, and the submission reconciler that moves the
    selected pending records into history before the background write. */
module Session {
  import opened Optional
  import opened JsText
  import opened Cells
  import opened Dates
  import opened Response
  import opened Rows
  import opened Views

  /** Pending and history lists, the selection in insertion order (a JavaScript Set
      iterates in the order ids were added) and the remarks typed so far, by id. */
  datatype ViewState = ViewState(
    pending: seq<Task>,
    history: seq<Task>,
    selected: seq<string>,
    remarks: map<string, string>)

  // ---------------------------------------------------------------------------
  // Sequences of ids

  predicate Distinct(xs: seq<string>) {
    forall i, j | 0 <= i < j < |xs| :: xs[i] != xs[j]
  }

  lemma DistinctConcat(a: seq<string>, b: seq<string>)
    ensures Distinct(a + b) <==> Distinct(a) && Distinct(b) && forall x :: x in a ==> x !in b
  {
    if Distinct(a + b) {
      forall x | x in a
        ensures x !in b
      {
        var i :| 0 <= i < |a| && a[i] == x;
        assert (a + b)[i] == x;
        forall j | 0 <= j < |b|
          ensures b[j] != x
        {
          assert (a + b)[|a| + j] == b[j];
        }
      }
      forall i, j | 0 <= i < j < |a|
        ensures a[i] != a[j]
      {
        assert (a + b)[i] == a[i] && (a + b)[j] == a[j];
      }
      forall i, j | 0 <= i < j < |b|
        ensures b[i] != b[j]
      {
        assert (a + b)[|a| + i] == b[i] && (a + b)[|a| + j] == b[j];
      }
    }
    if Distinct(a) && Distinct(b) && forall x :: x in a ==> x !in b {
      forall i, j | 0 <= i < j < |a + b|
        ensures (a + b)[i] != (a + b)[j]
      {
        if j < |a| {
          assert (a + b)[i] == a[i] && (a + b)[j] == a[j];
        } else if i >= |a| {
          assert (a + b)[i] == b[i - |a|] && (a + b)[j] == b[j - |a|];
        } else {
          assert (a + b)[i] == a[i] && (a + b)[j] == b[j - |a|];
          assert a[i] in a && b[j - |a|] in b;
        }
      }
    }
  }

  /** A duplicate-free list has as many elements as its set. */
  lemma {:induction false} DistinctCardinality(xs: seq<string>)
    requires Distinct(xs)
    ensures |set x | x in xs| == |xs|
  {
    if xs != [] {
      var tail := xs[1..];
      DistinctCardinality(tail);
      assert (set x | x in xs) == {xs[0]} + (set x | x in tail);
      assert xs[0] !in tail;
    }
  }

  /** The ids of the records, in order. */
  function IdsOf(ts: seq<Task>): (r: seq<string>)
    ensures |r| == |ts|
    ensures forall i :: 0 <= i < |ts| ==> r[i] == ts[i].id
  {
    seq(|ts|, i requires 0 <= i < |ts| => ts[i].id)
  }

  lemma IdsOfConcat(a: seq<Task>, b: seq<Task>)
    ensures IdsOf(a + b) == IdsOf(a) + IdsOf(b)
  {
  }

  lemma IdsOfMember(ts: seq<Task>, t: Task)
    requires t in ts
    ensures t.id in IdsOf(ts)
  {
    var k :| 0 <= k < |ts| && ts[k] == t;
    assert IdsOf(ts)[k] == t.id;
  }

  /** The invariant every handler keeps: ids are unique across both lists, the
      selection has no repeats, and only pending records are selected. Remarks may
      outlive their selection (select-all keeps them), so they are not constrained. */
  predicate Wf(s: ViewState) {
    && Distinct(IdsOf(s.pending) + IdsOf(s.history))
    && Distinct(s.selected)
    && forall id :: id in s.selected ==> id in IdsOf(s.pending)
  }

  // ---------------------------------------------------------------------------
  // Loading

  datatype LoadOutcome = Ready(state: ViewState) | LoadFailed(error: LoadError)

  /** The state once `fetchSheetData` has run: the two buckets, nothing selected,
      no remarks; or the error that aborted the load. */
  function Load(payload: Payload, who: Requester): (r: LoadOutcome)
    ensures r.Ready? <==> Ingest(payload, who).Loaded?
    ensures r.Ready? ==> Wf(r.state) && r.state.selected == [] && r.state.remarks == map[]
    ensures r.Ready? ==>
      r.state.pending == Ingest(payload, who).buckets.pending && r.state.history == Ingest(payload, who).buckets.history
  {
    match Ingest(payload, who)
    case Failed(e) => LoadFailed(e)
    case Loaded(b) =>
      IngestIdsDistinct(payload, who);
      IdsOfConcat(b.pending, b.history);
      Ready(ViewState(b.pending, b.history, [], map[]))
  }

  // ---------------------------------------------------------------------------
  // Selection and remarks

  /** The selection with `id` taken out, the other ids in their order. */
  function RemoveId(xs: seq<string>, id: string): (r: seq<string>)
    ensures forall x :: x in r <==> x in xs && x != id
    ensures Subsequence(r, xs)
    ensures Distinct(xs) ==> Distinct(r)
  {
    if xs == [] then []
    else
      var rest := RemoveId(xs[1..], id);
      assert Distinct(xs) ==> xs[0] !in xs[1..] && Distinct(xs[1..]) by {
        if Distinct(xs) {
          forall k | 0 <= k < |xs| - 1 ensures xs[1..][k] != xs[0] {
            assert xs[1..][k] == xs[k + 1];
          }
        }
      }
      if xs[0] == id then
        assert rest != [] ==> rest[0] != xs[0] by {
          if rest != [] {
            assert rest[0] in rest;
          }
        }
        rest
      else
        var r := [xs[0]] + rest;
        assert r[1..] == rest;
        r
  }

  /** `handleSelectItem(id, isChecked)`: checking adds the id at the end of the
      selection (once) and leaves the remarks alone; unchecking removes the id and its
      remark together. The lists never change. */
  function SelectItem(s: ViewState, id: string, checked: bool): (r: ViewState)
    ensures r.pending == s.pending && r.history == s.history
    ensures checked ==> r.remarks == s.remarks
    ensures checked ==> forall x :: x in r.selected <==> x in s.selected || x == id
    ensures checked && id !in s.selected ==> r.selected == s.selected + [id]
    ensures checked && id in s.selected ==> r.selected == s.selected
    ensures !checked ==> forall x :: x in r.selected <==> x in s.selected && x != id
    ensures !checked ==> Subsequence(r.selected, s.selected)
    ensures !checked ==> id !in r.remarks
    ensures !checked ==> forall k :: k != id ==>
      (k in r.remarks <==> k in s.remarks) && (k in r.remarks ==> r.remarks[k] == s.remarks[k])
  {
    if checked then
      s.(selected := if id in s.selected then s.selected else s.selected + [id])
    else
      s.(selected := RemoveId(s.selected, id), remarks := s.remarks - {id})
  }

  /** Typing into a row's remark box: that id's remark becomes `text`, nothing else changes. */
  function SetRemark(s: ViewState, id: string, text: string): (r: ViewState)
    ensures r.pending == s.pending && r.history == s.history && r.selected == s.selected
    ensures id in r.remarks && r.remarks[id] == text
    ensures forall k :: k != id ==>
      (k in r.remarks <==> k in s.remarks) && (k in r.remarks ==> r.remarks[k] == s.remarks[k])
  {
    s.(remarks := s.remarks[id := text])
  }

  /** The ids without repeats, first occurrences kept in order. */
  function Dedup(xs: seq<string>): (r: seq<string>)
    ensures forall x :: x in r <==> x in xs
    ensures Distinct(r)
    ensures Distinct(xs) ==> r == xs
  {
    if xs == [] then []
    else
      var d := Dedup(xs[..|xs| - 1]);
      var last := xs[|xs| - 1];
      assert xs == xs[..|xs| - 1] + [last];
      if last in d then d else d + [last]
  }

  /** Position of the first occurrence of `x`. */
  function FirstIndex(xs: seq<string>, x: string): (k: nat)
    requires x in xs
    ensures k < |xs| && xs[k] == x && x !in xs[..k]
  {
    if xs[0] == x then 0 else 1 + FirstIndex(xs[1..], x)
  }

  lemma {:induction false} FirstIndexAppend(xs: seq<string>, y: string, x: string)
    requires x in xs
    ensures FirstIndex(xs + [y], x) == FirstIndex(xs, x)
  {
    if xs[0] != x {
      assert (xs + [y])[1..] == xs[1..] + [y];
      FirstIndexAppend(xs[1..], y, x);
    }
  }

  /** The Set iterates in order of first insertion: its ids are ordered by where each
      first occurs in the list. */
  lemma {:induction false} DedupFirstOccurrenceOrder(xs: seq<string>)
    ensures forall i, j :: 0 <= i < j < |Dedup(xs)| ==>
      Dedup(xs)[i] in xs && Dedup(xs)[j] in xs && FirstIndex(xs, Dedup(xs)[i]) < FirstIndex(xs, Dedup(xs)[j])
  {
    if xs != [] {
      var init := xs[..|xs| - 1];
      var last := xs[|xs| - 1];
      var d := Dedup(init);
      assert xs == init + [last];
      DedupFirstOccurrenceOrder(init);
      forall x | x in init
        ensures FirstIndex(xs, x) == FirstIndex(init, x)
      {
        FirstIndexAppend(init, last, x);
      }
      var r := Dedup(xs);
      assert r == if last in d then d else d + [last];
      forall i, j | 0 <= i < j < |r|
        ensures r[i] in xs && r[j] in xs && FirstIndex(xs, r[i]) < FirstIndex(xs, r[j])
      {
        assert r[i] == d[i] && r[i] in init;
        if j < |d| {
          assert r[j] == d[j] && r[j] in init;
        } else {
          assert r[j] == last && last !in init;
          assert FirstIndex(xs, last) == |init|;
        }
      }
    } else {
      assert |Dedup(xs)| == 0;
    }
  }

  /** `handleSelectAllItems`: checked, the selection becomes exactly the ids of the
      pending records the current search shows, replacing the old one, and the
      remarks stay; unchecked, selection and remarks are both emptied. */
  function SelectAll(s: ViewState, term: string, checked: bool): (r: ViewState)
    ensures r.pending == s.pending && r.history == s.history
    ensures checked ==> r.remarks == s.remarks && Distinct(r.selected)
    ensures checked ==> forall x :: x in r.selected <==>
      exists t :: t in s.pending && Matches(t, term) && t.id == x
    ensures !checked ==> r.selected == [] && r.remarks == map[]
    ensures checked && Distinct(IdsOf(s.pending)) ==> r.selected == IdsOf(PendingView(s.pending, term))
  {
    if checked then
      var shown := PendingView(s.pending, term);
      assert Distinct(IdsOf(s.pending)) ==> Distinct(IdsOf(shown)) by {
        if Distinct(IdsOf(s.pending)) {
          ShownIdsDistinct(s.pending, term);
        }
      }
      var r := s.(selected := Dedup(IdsOf(shown)));
      assert forall x :: x in IdsOf(shown) <==> exists t :: t in shown && t.id == x by {
        forall x | x in IdsOf(shown)
          ensures exists t :: t in shown && t.id == x
        {
          var k :| 0 <= k < |shown| && IdsOf(shown)[k] == x;
          assert shown[k] in shown;
        }
        forall t | t in shown
          ensures t.id in IdsOf(shown)
        {
          IdsOfMember(shown, t);
        }
      }
      r
    else
      s.(selected := [], remarks := map[])
  }

  /** With unique ids in pending, the shown records carry unique ids too, so the
      Set built from them keeps every id, in the order shown. */
  lemma ShownIdsDistinct(pending: seq<Task>, term: string)
    requires Distinct(IdsOf(pending))
    ensures Distinct(IdsOf(PendingView(pending, term)))
  {
    FilterKeepsDistinct(pending, term);
    PermutationKeepsDistinct(PendingView(pending, term), FilterTasks(pending, term));
  }

  /** Filtering a list with unique ids keeps the ids unique. */
  lemma {:induction false} FilterKeepsDistinct(ts: seq<Task>, term: string)
    requires Distinct(IdsOf(ts))
    ensures Distinct(IdsOf(FilterTasks(ts, term)))
  {
    if ts != [] {
      DistinctIdsTail(ts);
      FilterKeepsDistinct(ts[1..], term);
      var rest := FilterTasks(ts[1..], term);
      if Matches(ts[0], term) {
        forall t | t in rest
          ensures t.id != ts[0].id
        {
          IdsOfMember(ts[1..], t);
        }
        IdAbsent(rest, ts[0].id);
        PrependKeepsDistinct(ts[0], rest);
      }
    }
  }

  lemma IdAbsent(ts: seq<Task>, id: string)
    requires forall t :: t in ts ==> t.id != id
    ensures id !in IdsOf(ts)
  {
    forall k | 0 <= k < |ts|
      ensures IdsOf(ts)[k] != id
    {
      assert ts[k] in ts;
    }
  }

  /** In a list with unique ids no record occurs twice. */
  lemma {:induction false} DistinctIdsOccurOnce(ts: seq<Task>, t: Task)
    requires Distinct(IdsOf(ts))
    ensures multiset(ts)[t] <= 1
  {
    if ts != [] {
      DistinctIdsTail(ts);
      DistinctIdsOccurOnce(ts[1..], t);
      assert ts == [ts[0]] + ts[1..];
      if t == ts[0] {
        if t in ts[1..] {
          IdsOfMember(ts[1..], t);
        }
        assert multiset(ts[1..])[t] == 0;
      }
    }
  }

  /** Two positions holding the same record make it occur twice. */
  lemma TwoPositions(ts: seq<Task>, i: nat, j: nat)
    requires i < j < |ts| && ts[i] == ts[j]
    ensures multiset(ts)[ts[i]] >= 2
  {
    assert ts == ts[..j] + ts[j..];
    assert ts[i] in ts[..j] && ts[j] in ts[j..];
  }

  /** Reordering a list keeps its ids unique. */
  lemma PermutationKeepsDistinct(a: seq<Task>, b: seq<Task>)
    requires multiset(a) == multiset(b) && Distinct(IdsOf(b))
    ensures Distinct(IdsOf(a))
  {
    forall i, j | 0 <= i < j < |a|
      ensures IdsOf(a)[i] != IdsOf(a)[j]
    {
      if a[i] == a[j] {
        TwoPositions(a, i, j);
        DistinctIdsOccurOnce(b, a[i]);
      } else {
        assert a[i] in multiset(b) && a[j] in multiset(b);
        var k :| 0 <= k < |b| && b[k] == a[i];
        var l :| 0 <= l < |b| && b[l] == a[j];
        assert IdsOf(b)[k] != IdsOf(b)[l];
      }
    }
  }

  // ---------------------------------------------------------------------------
  // Submission

  /** The record carrying `id`, if any; `FindTaskFirst` shows it is the first one. */
  function FindTask(ts: seq<Task>, id: string): (r: Option<Task>)
    ensures r.Some? ==> r.value in ts && r.value.id == id
    ensures r.None? <==> id !in IdsOf(ts)
  {
    if ts == [] then None
    else if ts[0].id == id then Some(ts[0])
    else
      assert IdsOf(ts) == [ts[0].id] + IdsOf(ts[1..]);
      FindTask(ts[1..], id)
  }

  /** The record found is the earliest one carrying the id. */
  lemma {:induction false} FindTaskFirst(ts: seq<Task>, id: string, k: nat)
    requires k < |ts| && ts[k].id == id
    requires forall j :: 0 <= j < k ==> ts[j].id != id
    ensures FindTask(ts, id) == Some(ts[k])
  {
    if k > 0 {
      assert ts[0].id != id;
      assert forall j :: 0 <= j < k - 1 ==> ts[1..][j] == ts[j + 1];
      FindTaskFirst(ts[1..], id, k - 1);
    }
  }

  /** A selected id lacks a usable remark: none was typed, or it is only whitespace. */
  predicate RemarkMissing(remarks: map<string, string>, id: string) {
    id !in remarks || Trim(remarks[id]) == ""
  }

  /** The selected ids lacking a usable remark, in selection order. */
  function IdsMissingRemark(ids: seq<string>, remarks: map<string, string>): (r: seq<string>)
    ensures forall x :: x in r <==> x in ids && RemarkMissing(remarks, x)
    ensures Distinct(ids) ==> Distinct(r)
  {
    if ids == [] then []
    else if RemarkMissing(remarks, ids[0]) then [ids[0]] + IdsMissingRemark(ids[1..], remarks)
    else IdsMissingRemark(ids[1..], remarks)
  }

  /** Without repeats in the selection, the count reported is the number of
      selected ids lacking a remark. */
  lemma MissingRemarkCount(ids: seq<string>, remarks: map<string, string>)
    requires Distinct(ids)
    ensures |IdsMissingRemark(ids, remarks)| == |set id | id in ids && RemarkMissing(remarks, id)|
  {
    var missing := IdsMissingRemark(ids, remarks);
    DistinctCardinality(missing);
    assert (set id | id in missing) == (set id | id in ids && RemarkMissing(remarks, id));
  }

  /** The remark typed for `id`, or the empty string when there is none. */
  function RemarkOf(remarks: map<string, string>, id: string): string {
    if id in remarks then remarks[id] else ""
  }

  /** The history copy of a record: verification date and remark filled in, every
      other field kept. */
  function Verified(t: Task, stamp: string, remark: string): (h: Task)
    ensures h.id == t.id && h.rowIndex == t.rowIndex && h.taskId == t.taskId
    ensures h.cols[ColS] == Str(stamp) && h.cols[ColT] == Str(remark)
    ensures forall i :: 0 <= i < ColumnCount && i != ColS && i != ColT ==> h.cols[i] == t.cols[i]
  {
    t.(cols := t.cols[ColS := Str(stamp)][ColT := Str(remark)])
  }

  /** `submittedItemsForHistory`: one verified copy per selected id, in selection
      order. An id with no pending record contributes nothing. */
  function Promote(pending: seq<Task>, ids: seq<string>, remarks: map<string, string>, stamp: string): (r: seq<Task>)
    ensures |r| <= |ids|
  {
    if ids == [] then []
    else
      var rest := Promote(pending, ids[1..], remarks, stamp);
      match FindTask(pending, ids[0])
      case None => rest
      case Some(t) => [Verified(t, stamp, RemarkOf(remarks, ids[0]))] + rest
  }

  /** When every id names a pending record, the promoted list has one verified copy
      per id, position by position. */
  lemma {:induction false} PromoteReadBack(pending: seq<Task>, ids: seq<string>, remarks: map<string, string>, stamp: string)
    requires forall id :: id in ids ==> id in IdsOf(pending)
    ensures var r := Promote(pending, ids, remarks, stamp);
      && |r| == |ids|
      && forall i :: 0 <= i < |ids| ==>
           r[i] == Verified(FindTask(pending, ids[i]).value, stamp, RemarkOf(remarks, ids[i]))
  {
    if ids != [] {
      var tail := ids[1..];
      assert forall id :: id in tail ==> id in ids;
      PromoteReadBack(pending, tail, remarks, stamp);
      assert ids[0] in ids;
      PromoteStep(pending, ids, remarks, stamp);
      var rest := Promote(pending, tail, remarks, stamp);
      forall i | 0 < i < |ids|
        ensures ids[i] == tail[i - 1]
      {
      }
    }
  }

  lemma PromoteStep(pending: seq<Task>, ids: seq<string>, remarks: map<string, string>, stamp: string)
    requires ids != [] && ids[0] in IdsOf(pending)
    ensures Promote(pending, ids, remarks, stamp) ==
      [Verified(FindTask(pending, ids[0]).value, stamp, RemarkOf(remarks, ids[0]))] + Promote(pending, ids[1..], remarks, stamp)
  {
  }

  /** One entry of the background write. */
  datatype WriteRow = WriteRow(taskId: Cell, rowIndex: nat, verificationDate: string, remarks: string)

  /** `submissionData`: column B, sheet row, date and remark of each selected record. */
  function WriteRows(pending: seq<Task>, ids: seq<string>, remarks: map<string, string>, stamp: string): (r: seq<WriteRow>)
    ensures |r| <= |ids|
  {
    if ids == [] then []
    else
      var rest := WriteRows(pending, ids[1..], remarks, stamp);
      match FindTask(pending, ids[0])
      case None => rest
      case Some(t) => [WriteRow(t.cols[ColB], t.rowIndex, stamp, RemarkOf(remarks, ids[0]))] + rest
  }

  /** When every id names a pending record, the write has one row per id: that
      record's column B and sheet row, the date and the remark. */
  lemma {:induction false} WriteRowsReadBack(pending: seq<Task>, ids: seq<string>, remarks: map<string, string>, stamp: string)
    requires forall id :: id in ids ==> id in IdsOf(pending)
    ensures var r := WriteRows(pending, ids, remarks, stamp);
      && |r| == |ids|
      && forall i :: 0 <= i < |ids| ==>
           var t := FindTask(pending, ids[i]).value;
           r[i] == WriteRow(t.cols[ColB], t.rowIndex, stamp, RemarkOf(remarks, ids[i]))
  {
    if ids != [] {
      var tail := ids[1..];
      assert forall id :: id in tail ==> id in ids;
      WriteRowsReadBack(pending, tail, remarks, stamp);
      assert ids[0] in ids;
      WriteRowsStep(pending, ids, remarks, stamp);
      forall i | 0 < i < |ids|
        ensures ids[i] == tail[i - 1]
      {
      }
    }
  }

  lemma WriteRowsStep(pending: seq<Task>, ids: seq<string>, remarks: map<string, string>, stamp: string)
    requires ids != [] && ids[0] in IdsOf(pending)
    ensures var t := FindTask(pending, ids[0]).value;
      WriteRows(pending, ids, remarks, stamp) ==
        [WriteRow(t.cols[ColB], t.rowIndex, stamp, RemarkOf(remarks, ids[0]))] + WriteRows(pending, ids[1..], remarks, stamp)
  {
  }

  /** The records whose id is not among `ids`, in their original order. */
  function Without(ts: seq<Task>, ids: set<string>): (r: seq<Task>)
    ensures forall t :: t in r <==> t in ts && t.id !in ids
  {
    if ts == [] then []
    else if ts[0].id in ids then Without(ts[1..], ids)
    else [ts[0]] + Without(ts[1..], ids)
  }

  /** The records kept stay in their original order. */
  lemma {:induction false} WithoutKeepsOrder(ts: seq<Task>, ids: set<string>)
    ensures Subsequence(Without(ts, ids), ts)
  {
    if ts != [] {
      var rest := Without(ts[1..], ids);
      WithoutKeepsOrder(ts[1..], ids);
      if ts[0].id in ids {
        assert rest != [] ==> rest[0] != ts[0] by {
          if rest != [] {
            assert rest[0] in rest;
          }
        }
      } else {
        assert ([ts[0]] + rest)[1..] == rest;
      }
    }
  }

  /** The ids kept are exactly the ids of the list that are not removed. */
  lemma WithoutIds(ts: seq<Task>, ids: set<string>)
    ensures forall id :: id in IdsOf(Without(ts, ids)) <==> id in IdsOf(ts) && id !in ids
  {
    var r := Without(ts, ids);
    forall id | id in IdsOf(r)
      ensures id in IdsOf(ts) && id !in ids
    {
      var k :| 0 <= k < |r| && IdsOf(r)[k] == id;
      assert r[k] in r;
      IdsOfMember(ts, r[k]);
    }
    forall id | id in IdsOf(ts) && id !in ids
      ensures id in IdsOf(r)
    {
      var k :| 0 <= k < |ts| && IdsOf(ts)[k] == id;
      assert ts[k] in ts && ts[k].id == id;
      IdsOfMember(r, ts[k]);
    }
  }

  /** Removing records keeps the remaining ids unique. */
  lemma {:induction false} WithoutKeepsDistinct(ts: seq<Task>, ids: set<string>)
    requires Distinct(IdsOf(ts))
    ensures Distinct(IdsOf(Without(ts, ids)))
  {
    if ts != [] {
      var tail := ts[1..];
      DistinctIdsTail(ts);
      WithoutKeepsDistinct(tail, ids);
      if ts[0].id !in ids {
        WithoutIds(tail, ids);
        PrependKeepsDistinct(ts[0], Without(tail, ids));
      }
    }
  }

  lemma DistinctIdsTail(ts: seq<Task>)
    requires ts != [] && Distinct(IdsOf(ts))
    ensures Distinct(IdsOf(ts[1..])) && ts[0].id !in IdsOf(ts[1..])
  {
    assert IdsOf(ts) == [ts[0].id] + IdsOf(ts[1..]);
    DistinctConcat([ts[0].id], IdsOf(ts[1..]));
  }

  lemma PrependKeepsDistinct(t: Task, ts: seq<Task>)
    requires Distinct(IdsOf(ts)) && t.id !in IdsOf(ts)
    ensures Distinct(IdsOf([t] + ts))
  {
    IdsOfConcat([t], ts);
    assert IdsOf([t]) == [t.id];
    DistinctConcat([t.id], IdsOf(ts));
  }

  datatype SubmitOutcome = EmptySelection | MissingRemarks(count: nat) | Submitted(rows: seq<WriteRow>)

  /** `handleSubmit` up to the background write: an empty selection or a selected id
      without a usable remark is refused with nothing changed; otherwise the selected
      records leave the pending list, their verified copies (dated `today`) go to the
      front of the history, selection and remarks are cleared, and the write rows are
      produced. The write's own result never touches this state. */
  function Submit(s: ViewState, today: CalendarDate): (r: (ViewState, SubmitOutcome))
    ensures r.1 == EmptySelection <==> s.selected == []
    ensures r.1.MissingRemarks? <==>
      s.selected != [] && exists id :: id in s.selected && RemarkMissing(s.remarks, id)
    ensures r.1.MissingRemarks? && Distinct(s.selected) ==>
      r.1.count == |set id | id in s.selected && RemarkMissing(s.remarks, id)| > 0
    ensures !r.1.Submitted? ==> r.0 == s
    ensures r.1.Submitted? ==> r.0.selected == [] && r.0.remarks == map[]
    ensures r.1.Submitted? ==> forall id :: id in s.selected ==> !RemarkMissing(s.remarks, id)
  {
    if s.selected == [] then (s, EmptySelection)
    else
      var missing := IdsMissingRemark(s.selected, s.remarks);
      if |missing| > 0 then
        assert Distinct(s.selected) ==>
          |missing| == |set id | id in s.selected && RemarkMissing(s.remarks, id)| by {
          if Distinct(s.selected) {
            MissingRemarkCount(s.selected, s.remarks);
          }
        }
        assert missing[0] in missing;
        (s, MissingRemarks(|missing|))
      else
        assert missing == [];
        var stamp := FormatDate(today);
        var chosen := set id | id in s.selected;
        var moved := Promote(s.pending, s.selected, s.remarks, stamp);
        var rows := WriteRows(s.pending, s.selected, s.remarks, stamp);
        (ViewState(Without(s.pending, chosen), moved + s.history, [], map[]), Submitted(rows))
  }

  // ---------------------------------------------------------------------------
  // What a successful submission does

  /** The state and write rows a successful submission produces, spelled out. */
  lemma SubmitShape(s: ViewState, today: CalendarDate)
    requires Submit(s, today).1.Submitted?
    ensures var stamp := FormatDate(today);
      && Submit(s, today).0 == ViewState(
           Without(s.pending, set id | id in s.selected),
           Promote(s.pending, s.selected, s.remarks, stamp) + s.history, [], map[])
      && Submit(s, today).1.rows == WriteRows(s.pending, s.selected, s.remarks, stamp)
  {
  }

  lemma IntersectAddFresh(a: string, there: set<string>, ids: set<string>)
    requires a !in there
    ensures |ids * ({a} + there)| == |ids * there| + (if a in ids then 1 else 0)
  {
    if a in ids {
      assert ids * ({a} + there) == {a} + ids * there;
    } else {
      assert ids * ({a} + there) == ids * there;
    }
  }

  /** Removing a set of ids from a list with unique ids drops exactly one record per
      id the list holds. */
  lemma {:induction false} WithoutCount(ts: seq<Task>, ids: set<string>)
    requires Distinct(IdsOf(ts))
    ensures |Without(ts, ids)| + |ids * IdSet(ts)| == |ts|
  {
    if ts != [] {
      var a := ts[0].id;
      var tail := ts[1..];
      assert IdsOf(ts) == [a] + IdsOf(tail);
      DistinctConcat([a], IdsOf(tail));
      WithoutCount(tail, ids);
      IdSetCons(ts);
      IntersectAddFresh(a, IdSet(tail), ids);
      WithoutCons(ts, ids);
    }
  }

  /** The set of ids of a list. */
  function IdSet(ts: seq<Task>): set<string> {
    set x | x in IdsOf(ts)
  }

  lemma IdSetCons(ts: seq<Task>)
    requires ts != []
    ensures IdSet(ts) == {ts[0].id} + IdSet(ts[1..])
  {
    assert IdsOf(ts) == [ts[0].id] + IdsOf(ts[1..]);
  }

  lemma WithoutCons(ts: seq<Task>, ids: set<string>)
    requires ts != []
    ensures |Without(ts, ids)| == |Without(ts[1..], ids)| + (if ts[0].id in ids then 0 else 1)
  {
  }

  /** The ids of the promoted copies are the selection itself. */
  lemma PromotedIds(pending: seq<Task>, ids: seq<string>, remarks: map<string, string>, stamp: string)
    requires forall id :: id in ids ==> id in IdsOf(pending)
    ensures IdsOf(Promote(pending, ids, remarks, stamp)) == ids
  {
    PromoteReadBack(pending, ids, remarks, stamp);
  }

  lemma RemovesChosen(pending: seq<Task>, selected: seq<string>, others: seq<string>)
    requires Distinct(IdsOf(pending) + others) && Distinct(selected)
    requires forall id :: id in selected ==> id in IdsOf(pending)
    ensures |Without(pending, set id | id in selected)| == |pending| - |selected|
  {
    var chosen := set id | id in selected;
    DistinctConcat(IdsOf(pending), others);
    WithoutCount(pending, chosen);
    assert chosen * IdSet(pending) == chosen;
    DistinctCardinality(selected);
  }

  /** A successful submission takes out of the pending list exactly the selected
      records, keeping the others in order, one record per selected id. */
  lemma SubmitRemovesSelected(s: ViewState, today: CalendarDate)
    requires Wf(s)
    requires Submit(s, today).1.Submitted?
    ensures var n := Submit(s, today).0;
      && (forall t :: t in n.pending <==> t in s.pending && t.id !in s.selected)
      && Subsequence(n.pending, s.pending)
      && |n.pending| == |s.pending| - |s.selected|
  {
    SubmitShape(s, today);
    var chosen := set id | id in s.selected;
    RemovesChosen(s.pending, s.selected, IdsOf(s.history));
    WithoutKeepsOrder(s.pending, chosen);
  }

  /** A successful submission puts, in selection order and ahead of the old history,
      the verified copy of each selected pending record: dated today and carrying its
      remark. */
  lemma SubmitPromotesSelected(s: ViewState, today: CalendarDate)
    requires Wf(s)
    requires Submit(s, today).1.Submitted?
    ensures var n := Submit(s, today).0;
      && |n.history| == |s.history| + |s.selected|
      && n.history[|s.selected|..] == s.history
      && forall i :: 0 <= i < |s.selected| ==>
           && s.selected[i] in s.remarks
           && (exists t :: t in s.pending && t.id == s.selected[i] &&
                 n.history[i] == Verified(t, FormatDate(today), s.remarks[s.selected[i]]))
  {
    var stamp := FormatDate(today);
    var n := Submit(s, today).0;
    SubmitShape(s, today);
    var moved := Promote(s.pending, s.selected, s.remarks, stamp);
    PromoteReadBack(s.pending, s.selected, s.remarks, stamp);
    forall i | 0 <= i < |s.selected|
      ensures s.selected[i] in s.remarks
      ensures exists t :: (t in s.pending && t.id == s.selected[i] &&
                           n.history[i] == Verified(t, stamp, s.remarks[s.selected[i]]))
    {
      assert s.selected[i] in s.selected;
      var t := FindTask(s.pending, s.selected[i]).value;
      assert n.history[i] == moved[i];
    }
  }

  /** Each write row carries column B, sheet row, date and remark of the history
      record at the same position, and that record shows the same date and remark. */
  predicate WritesMatch(w: seq<WriteRow>, hs: seq<Task>, stamp: string) {
    && |w| <= |hs|
    && forall i :: 0 <= i < |w| ==>
         && w[i].taskId == hs[i].cols[ColB] && w[i].rowIndex == hs[i].rowIndex
         && w[i].verificationDate == stamp && hs[i].cols[ColS] == Str(stamp)
         && hs[i].cols[ColT] == Str(w[i].remarks)
  }

  lemma WritesMatchExtend(w: seq<WriteRow>, hs: seq<Task>, more: seq<Task>, stamp: string)
    requires WritesMatch(w, hs, stamp)
    ensures WritesMatch(w, hs + more, stamp)
  {
    forall i | 0 <= i < |w|
      ensures (hs + more)[i] == hs[i]
    {
    }
  }

  /** The write rows and the promoted copies agree position by position. */
  lemma WritesMatchPromoted(pending: seq<Task>, ids: seq<string>, remarks: map<string, string>, stamp: string)
    requires forall id :: id in ids ==> id in IdsOf(pending)
    ensures var w := WriteRows(pending, ids, remarks, stamp);
      && |w| == |ids|
      && WritesMatch(w, Promote(pending, ids, remarks, stamp), stamp)
  {
    var w := WriteRows(pending, ids, remarks, stamp);
    var p := Promote(pending, ids, remarks, stamp);
    PromoteReadBack(pending, ids, remarks, stamp);
    WriteRowsReadBack(pending, ids, remarks, stamp);
    forall i | 0 <= i < |ids|
      ensures && w[i].taskId == p[i].cols[ColB] && w[i].rowIndex == p[i].rowIndex
              && w[i].verificationDate == stamp && p[i].cols[ColS] == Str(stamp)
              && p[i].cols[ColT] == Str(w[i].remarks)
    {
      var t := FindTask(pending, ids[i]).value;
      assert p[i] == Verified(t, stamp, RemarkOf(remarks, ids[i]));
    }
  }

  /** The background write carries, row for row, what the new history shows: column
      B, sheet row, date and remark of each promoted copy. */
  lemma SubmitWritesHistory(s: ViewState, today: CalendarDate)
    requires Wf(s)
    requires Submit(s, today).1.Submitted?
    ensures |Submit(s, today).1.rows| == |s.selected|
    ensures WritesMatch(Submit(s, today).1.rows, Submit(s, today).0.history, FormatDate(today))
  {
    var stamp := FormatDate(today);
    SubmitShape(s, today);
    WritesMatchPromoted(s.pending, s.selected, s.remarks, stamp);
    WritesMatchExtend(WriteRows(s.pending, s.selected, s.remarks, stamp),
      Promote(s.pending, s.selected, s.remarks, stamp), s.history, stamp);
  }

  /** A successful submission keeps the invariant: the moved records' ids leave the
      pending list as they enter the history, and the selection is emptied. */
  lemma SubmitKeepsWf(s: ViewState, today: CalendarDate)
    requires Wf(s)
    ensures Wf(Submit(s, today).0)
  {
    var (n, out) := Submit(s, today);
    if out.Submitted? {
      var stamp := FormatDate(today);
      var chosen := set id | id in s.selected;
      var kept := Without(s.pending, chosen);
      var moved := Promote(s.pending, s.selected, s.remarks, stamp);
      assert n.pending == kept && n.history == moved + s.history;
      DistinctConcat(IdsOf(s.pending), IdsOf(s.history));
      WithoutIds(s.pending, chosen);
      WithoutKeepsDistinct(s.pending, chosen);
      PromotedIds(s.pending, s.selected, s.remarks, stamp);
      IdsOfConcat(moved, s.history);
      DistinctConcat(s.selected, IdsOf(s.history));
      DistinctConcat(IdsOf(kept), s.selected + IdsOf(s.history));
    }
  }

  /** The other handlers keep the invariant too; a row can only be checked if it is
      on the pending list, since only those rows show a box. */
  lemma SelectItemKeepsWf(s: ViewState, id: string, checked: bool)
    requires Wf(s)
    requires checked ==> id in IdsOf(s.pending)
    ensures Wf(SelectItem(s, id, checked))
  {
    if checked && id !in s.selected {
      DistinctConcat(s.selected, [id]);
    }
  }

  lemma SelectAllKeepsWf(s: ViewState, term: string, checked: bool)
    requires Wf(s)
    ensures Wf(SelectAll(s, term, checked))
  {
    var r := SelectAll(s, term, checked);
    forall x | x in r.selected
      ensures x in IdsOf(s.pending)
    {
      var t :| t in s.pending && Matches(t, term) && t.id == x;
      IdsOfMember(s.pending, t);
    }
  }

  lemma SetRemarkKeepsWf(s: ViewState, id: string, text: string)
    requires Wf(s)
    ensures Wf(SetRemark(s, id, text))
  {
  }
}
