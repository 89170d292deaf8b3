/** The projections the page derives for display: the case-insensitive search
    filter, and the date orders of the pending list (planned date, earliest first)
    and of the history list (verification date, latest first). */
module Views {
  import opened Optional
  import opened JsText
  import opened Cells
  import opened Dates
  import opened Rows

  // ---------------------------------------------------------------------------
  // Search

  /** Every field value of a record: id, row index, task id and the twenty columns. */
  function SearchValues(t: Task): (vs: seq<Cell>)
    ensures |vs| == 3 + ColumnCount
    ensures forall v :: v in vs <==> v == Str(t.id) || v == Num(t.rowIndex) || v == t.taskId || v in t.cols
  {
    [Str(t.id), Num(t.rowIndex), t.taskId] + t.cols
  }

  /** The search test: an empty term matches everything; otherwise some truthy value,
      as text and lower-cased, contains the lower-cased term. */
  predicate Matches(t: Task, term: string)
    ensures t.id != "" && Includes(Lower(t.id), Lower(term)) ==> Matches(t, term)
  {
    var id := Str(t.id);
    assert id in SearchValues(t) && ToText(id) == t.id;
    term == "" || exists v :: v in SearchValues(t) && Truthy(v) && Includes(Lower(ToText(v)), Lower(term))
  }

  /** Only the lower-cased term matters: the search ignores the term's case. */
  lemma MatchesIgnoresCase(t: Task, term: string)
    ensures Matches(t, term) <==> Matches(t, Lower(term))
  {
    LowerIdempotent(term);
    assert |Lower(term)| == |term|;
  }

  /** `xs` is `ys` with some elements left out, the rest in their original order. */
  predicate Subsequence<T(==)>(xs: seq<T>, ys: seq<T>) {
    if xs == [] then true
    else if ys == [] then false
    else if xs[0] == ys[0] then Subsequence(xs[1..], ys[1..])
    else Subsequence(xs, ys[1..])
  }

  /** The filtered list: the matching records, in their original order. */
  function FilterTasks(ts: seq<Task>, term: string): (r: seq<Task>)
    ensures forall t :: t in r <==> t in ts && Matches(t, term)
    ensures |r| <= |ts|
    ensures Subsequence(r, ts)
  {
    if ts == [] then []
    else if Matches(ts[0], term) then [ts[0]] + FilterTasks(ts[1..], term)
    else FilterTasks(ts[1..], term)
  }

  /** An empty search term leaves the list as it is. */
  lemma {:induction false} FilterEmptyTerm(ts: seq<Task>)
    ensures FilterTasks(ts, "") == ts
  {
    if ts != [] {
      FilterEmptyTerm(ts[1..]);
    }
  }

  /** Filtering twice with the same term is filtering once. */
  lemma {:induction false} FilterIdempotent(ts: seq<Task>, term: string)
    ensures FilterTasks(FilterTasks(ts, term), term) == FilterTasks(ts, term)
  {
    if ts != [] {
      FilterIdempotent(ts[1..], term);
    }
  }

  // ---------------------------------------------------------------------------
  // Date order

  /** The day number of a record's date column, None when it holds no readable date;
      only a string column can hold a date. */
  function KeyOf(t: Task, col: nat): Option<int>
    requires col < ColumnCount
  {
    match t.cols[col]
    case Str(s) => DateKey(s)
    case _ => None
  }

  /** The sort key of each record: its day number, or None when undated. */
  type KeyFn = Task -> Option<int>

  /** The key of column `col` as a function of the record. */
  function DateKeyOf(col: nat): KeyFn
    requires col < ColumnCount
  {
    t => KeyOf(t, col)
  }

  datatype Direction = Earliest | Latest

  /** A record keyed `a` may stand before one keyed `b`: an undated record never
      precedes a dated one, and day numbers follow the given direction. */
  predicate Before(a: Option<int>, b: Option<int>, dir: Direction) {
    b.Some? ==>
      && a.Some?
      && if dir == Earliest then a.value <= b.value else a.value >= b.value
  }

  predicate SortedBy(ts: seq<Task>, key: KeyFn, dir: Direction) {
    forall i, j | 0 <= i < j < |ts| :: Before(key(ts[i]), key(ts[j]), dir)
  }

  lemma BeforeTotal(a: Option<int>, b: Option<int>, dir: Direction)
    ensures Before(a, b, dir) || Before(b, a, dir)
  {
  }

  lemma BeforeTransitive(a: Option<int>, b: Option<int>, c: Option<int>, dir: Direction)
    requires Before(a, b, dir) && Before(b, c, dir)
    ensures Before(a, c, dir)
  {
  }

  /** A record that may precede every element of a sorted list may head it. */
  lemma ConsSorted(a: Task, ts: seq<Task>, key: KeyFn, dir: Direction)
    requires SortedBy(ts, key, dir)
    requires forall k :: 0 <= k < |ts| ==> Before(key(a), key(ts[k]), dir)
    ensures SortedBy([a] + ts, key, dir)
  {
    var r := [a] + ts;
    forall i, j | 0 <= i < j < |r|
      ensures Before(key(r[i]), key(r[j]), dir)
    {
      assert r[j] == ts[j - 1];
      if i > 0 {
        assert r[i] == ts[i - 1];
      }
    }
  }

  lemma SortedTail(ts: seq<Task>, key: KeyFn, dir: Direction)
    requires ts != [] && SortedBy(ts, key, dir)
    ensures SortedBy(ts[1..], key, dir)
  {
    var tail := ts[1..];
    forall i, j | 0 <= i < j < |tail|
      ensures Before(key(tail[i]), key(tail[j]), dir)
    {
      assert tail[i] == ts[i + 1] && tail[j] == ts[j + 1];
    }
  }

  /** Places `x` after every record it may follow. */
  function Insert(x: Task, ys: seq<Task>, key: KeyFn, dir: Direction): (r: seq<Task>)
    requires SortedBy(ys, key, dir)
    ensures multiset(r) == multiset(ys) + multiset{x}
    ensures SortedBy(r, key, dir)
  {
    if ys == [] then [x]
    else if !Before(key(ys[0]), key(x), dir) then
      BeforeTotal(key(ys[0]), key(x), dir);
      forall j | 0 <= j < |ys|
        ensures Before(key(x), key(ys[j]), dir)
      {
        if j > 0 {
          BeforeTransitive(key(x), key(ys[0]), key(ys[j]), dir);
        }
      }
      ConsSorted(x, ys, key, dir);
      [x] + ys
    else
      var tail := ys[1..];
      SortedTail(ys, key, dir);
      var rest := Insert(x, tail, key, dir);
      assert ys == [ys[0]] + tail;
      forall k | 0 <= k < |rest|
        ensures Before(key(ys[0]), key(rest[k]), dir)
      {
        assert rest[k] in multiset(tail) + multiset{x};
        if rest[k] != x {
          var m :| 0 <= m < |tail| && tail[m] == rest[k];
          assert ys[m + 1] == rest[k];
        }
      }
      ConsSorted(ys[0], rest, key, dir);
      [ys[0]] + rest
  }

  /** Insertion sort: a permutation in which every dated record precedes every
      undated one and dated records follow the direction. */
  function SortBy(ts: seq<Task>, key: KeyFn, dir: Direction): (r: seq<Task>)
    ensures multiset(r) == multiset(ts)
    ensures |r| == |ts|
    ensures SortedBy(r, key, dir)
  {
    if ts == [] then []
    else
      var init := ts[..|ts| - 1];
      var last := ts[|ts| - 1];
      assert ts == init + [last];
      assert multiset(ts) == multiset(init) + multiset{last};
      var r := Insert(last, SortBy(init, key, dir), key, dir);
      assert |r| == |multiset(r)| == |multiset(ts)| == |ts|;
      r
  }

  /** The record itself when it has key `k`, else nothing. */
  function KeyedPart(t: Task, key: KeyFn, k: Option<int>): seq<Task> {
    if key(t) == k then [t] else []
  }

  /** The records whose key is `k`, in list order. */
  function WithKey(ts: seq<Task>, key: KeyFn, k: Option<int>): seq<Task> {
    if ts == [] then []
    else KeyedPart(ts[0], key, k) + WithKey(ts[1..], key, k)
  }

  lemma WithKeyCons(t: Task, ts: seq<Task>, key: KeyFn, k: Option<int>)
    ensures WithKey([t] + ts, key, k) == KeyedPart(t, key, k) + WithKey(ts, key, k)
  {
    var r := [t] + ts;
    assert r[0] == t && r[1..] == ts;
  }

  lemma {:induction false} WithKeyAppend(a: seq<Task>, b: seq<Task>, key: KeyFn, k: Option<int>)
    ensures WithKey(a + b, key, k) == WithKey(a, key, k) + WithKey(b, key, k)
  {
    if a == [] {
      assert a + b == b;
    } else {
      assert a + b == [a[0]] + (a[1..] + b);
      assert a == [a[0]] + a[1..];
      WithKeyCons(a[0], a[1..] + b, key, k);
      WithKeyCons(a[0], a[1..], key, k);
      WithKeyAppend(a[1..], b, key, k);
    }
  }

  lemma {:induction false} WithKeyAbsent(ts: seq<Task>, key: KeyFn, k: Option<int>)
    requires forall j :: 0 <= j < |ts| ==> key(ts[j]) != k
    ensures WithKey(ts, key, k) == []
  {
    if ts != [] {
      assert forall j :: 0 <= j < |ts| - 1 ==> ts[1..][j] == ts[j + 1];
      WithKeyAbsent(ts[1..], key, k);
    }
  }

  /** A record that goes in front of a sorted list is the last of its key there:
      no record of the list shares its key. */
  lemma FrontHasNoPeers(x: Task, ys: seq<Task>, key: KeyFn, dir: Direction)
    requires SortedBy(ys, key, dir) && ys != [] && !Before(key(ys[0]), key(x), dir)
    ensures WithKey(ys, key, key(x)) == []
  {
    forall j | 0 <= j < |ys|
      ensures key(ys[j]) != key(x)
    {
      if j > 0 {
        assert Before(key(ys[0]), key(ys[j]), dir);
      }
    }
    WithKeyAbsent(ys, key, key(x));
  }

  /** Inserting a record puts it after every record with the same key, so among
      equal keys it ends up last. */
  lemma {:induction false} InsertWithKey(x: Task, ys: seq<Task>, key: KeyFn, dir: Direction, k: Option<int>)
    requires SortedBy(ys, key, dir)
    ensures WithKey(Insert(x, ys, key, dir), key, k) == WithKey(ys, key, k) + KeyedPart(x, key, k)
  {
    if ys == [] {
      InsertIntoEmpty(x, key, dir, k);
    } else if !Before(key(ys[0]), key(x), dir) {
      InsertAtFront(x, ys, key, dir, k);
    } else {
      SortedTail(ys, key, dir);
      InsertWithKey(x, ys[1..], key, dir, k);
      InsertFurther(x, ys, key, dir, k);
    }
  }

  lemma InsertIntoEmpty(x: Task, key: KeyFn, dir: Direction, k: Option<int>)
    ensures WithKey(Insert(x, [], key, dir), key, k) == WithKey([], key, k) + KeyedPart(x, key, k)
  {
    assert Insert(x, [], key, dir) == [x] + [];
    WithKeyCons(x, [], key, k);
    var here := KeyedPart(x, key, k);
    assert here + [] == [] + here;
  }

  lemma InsertAtFront(x: Task, ys: seq<Task>, key: KeyFn, dir: Direction, k: Option<int>)
    requires SortedBy(ys, key, dir) && ys != [] && !Before(key(ys[0]), key(x), dir)
    ensures WithKey(Insert(x, ys, key, dir), key, k) == WithKey(ys, key, k) + KeyedPart(x, key, k)
  {
    assert Insert(x, ys, key, dir) == [x] + ys;
    WithKeyCons(x, ys, key, k);
    var here := KeyedPart(x, key, k);
    var peers := WithKey(ys, key, k);
    if key(x) == k {
      FrontHasNoPeers(x, ys, key, dir);
      assert here + peers == [x] == peers + here;
    } else {
      assert here + peers == peers == peers + here;
    }
  }

  lemma InsertFurther(x: Task, ys: seq<Task>, key: KeyFn, dir: Direction, k: Option<int>)
    requires SortedBy(ys, key, dir) && ys != [] && Before(key(ys[0]), key(x), dir)
    requires SortedBy(ys[1..], key, dir)
    requires WithKey(Insert(x, ys[1..], key, dir), key, k) == WithKey(ys[1..], key, k) + KeyedPart(x, key, k)
    ensures WithKey(Insert(x, ys, key, dir), key, k) == WithKey(ys, key, k) + KeyedPart(x, key, k)
  {
    InsertPassesHead(x, ys, key, dir);
    assert ys == [ys[0]] + ys[1..];
    PrependKeepsWithKey(ys[0], Insert(x, ys[1..], key, dir), ys[1..], x, key, k);
  }

  /** A record that follows the head of a sorted list is inserted into its tail. */
  lemma InsertPassesHead(x: Task, ys: seq<Task>, key: KeyFn, dir: Direction)
    requires SortedBy(ys, key, dir) && ys != [] && Before(key(ys[0]), key(x), dir)
    ensures SortedBy(ys[1..], key, dir)
    ensures Insert(x, ys, key, dir) == [ys[0]] + Insert(x, ys[1..], key, dir)
  {
    SortedTail(ys, key, dir);
  }

  lemma PrependKeepsWithKey(y: Task, rest: seq<Task>, tail: seq<Task>, x: Task, key: KeyFn, k: Option<int>)
    requires WithKey(rest, key, k) == WithKey(tail, key, k) + KeyedPart(x, key, k)
    ensures WithKey([y] + rest, key, k) == WithKey([y] + tail, key, k) + KeyedPart(x, key, k)
  {
    WithKeyCons(y, rest, key, k);
    WithKeyCons(y, tail, key, k);
    var first := KeyedPart(y, key, k);
    var before := WithKey(tail, key, k);
    var here := KeyedPart(x, key, k);
    assert first + (before + here) == (first + before) + here;
  }

  /** The sort is stable: the records sharing any one key keep their input order. */
  lemma {:induction false} SortByStable(ts: seq<Task>, key: KeyFn, dir: Direction, k: Option<int>)
    ensures WithKey(SortBy(ts, key, dir), key, k) == WithKey(ts, key, k)
  {
    if ts != [] {
      var init := ts[..|ts| - 1];
      var last := ts[|ts| - 1];
      assert ts == init + [last];
      SortByLast(ts, key, dir);
      SortByStable(init, key, dir, k);
      InsertWithKey(last, SortBy(init, key, dir), key, dir, k);
      WithKeySnoc(init, last, key, k);
    }
  }

  /** The sort inserts the last record into the sorted rest. */
  lemma SortByLast(ts: seq<Task>, key: KeyFn, dir: Direction)
    requires ts != []
    ensures SortBy(ts, key, dir) == Insert(ts[|ts| - 1], SortBy(ts[..|ts| - 1], key, dir), key, dir)
  {
  }

  lemma WithKeySnoc(init: seq<Task>, last: Task, key: KeyFn, k: Option<int>)
    ensures WithKey(init + [last], key, k) == WithKey(init, key, k) + KeyedPart(last, key, k)
  {
    WithKeyAppend(init, [last], key, k);
    WithKeyCons(last, [], key, k);
    assert [last] == [last] + [];
    assert KeyedPart(last, key, k) + [] == KeyedPart(last, key, k);
  }

  /** The records ordered by their date column. */
  function SortByDate(ts: seq<Task>, col: nat, dir: Direction): (r: seq<Task>)
    requires col < ColumnCount
    ensures multiset(r) == multiset(ts)
    ensures forall i, j | 0 <= i < j < |r| :: Before(KeyOf(r[i], col), KeyOf(r[j], col), dir)
  {
    var r := SortBy(ts, DateKeyOf(col), dir);
    assert forall t :: DateKeyOf(col)(t) == KeyOf(t, col);
    r
  }

  /** The pending table: matching records, dated ones first by planned date (earliest
      first), undated ones last. */
  function PendingView(pending: seq<Task>, term: string): (r: seq<Task>)
    ensures forall t :: t in r <==> t in pending && Matches(t, term)
    ensures forall i, j | 0 <= i < j < |r| :: KeyOf(r[j], ColK).Some? ==>
      KeyOf(r[i], ColK).Some? && KeyOf(r[i], ColK).value <= KeyOf(r[j], ColK).value
    ensures multiset(r) == multiset(FilterTasks(pending, term))
  {
    var r := SortByDate(FilterTasks(pending, term), ColK, Earliest);
    assert forall t :: t in r <==> t in multiset(r);
    r
  }

  /** The history table: matching records, dated ones first by verification date
      (latest first), undated ones last. */
  function HistoryView(history: seq<Task>, term: string): (r: seq<Task>)
    ensures forall t :: t in r <==> t in history && Matches(t, term)
    ensures forall i, j | 0 <= i < j < |r| :: KeyOf(r[j], ColS).Some? ==>
      KeyOf(r[i], ColS).Some? && KeyOf(r[i], ColS).value >= KeyOf(r[j], ColS).value
    ensures multiset(r) == multiset(FilterTasks(history, term))
  {
    var r := SortByDate(FilterTasks(history, term), ColS, Latest);
    assert forall t :: t in r <==> t in multiset(r);
    r
  }

  /** Records planned for the same day keep their pending order in the table. */
  lemma PendingViewKeepsSameDayOrder(pending: seq<Task>, term: string, day: int)
    ensures WithKey(PendingView(pending, term), DateKeyOf(ColK), Some(day))
            == WithKey(FilterTasks(pending, term), DateKeyOf(ColK), Some(day))
  {
    SortByStable(FilterTasks(pending, term), DateKeyOf(ColK), Earliest, Some(day));
  }

  /** Records verified on the same day, such as one submitted batch, keep their
      history order in the table. */
  lemma HistoryViewKeepsSameDayOrder(history: seq<Task>, term: string, day: int)
    ensures WithKey(HistoryView(history, term), DateKeyOf(ColS), Some(day))
            == WithKey(FilterTasks(history, term), DateKeyOf(ColS), Some(day))
  {
    SortByStable(FilterTasks(history, term), DateKeyOf(ColS), Latest, Some(day));
  }
}
