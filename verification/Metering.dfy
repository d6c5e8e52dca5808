/** The usage meter: an append-only table of rows, and three aggregate queries over it
    that run one after the other with no transaction around them. */
module Metering {
  import opened Wrappers
  import opened Text
  import opened Timestamp

  datatype UsageEntry = UsageEntry(
    userId: string, email: string, resource: string, operation: string, bytes: int,
    latency: int, timestamp: Instant, success: bool, error: string)

  datatype Row = Row(
    userId: string, email: string, resource: string, operation: string, bytes: int,
    latencyMs: int, timestamp: string, success: bool, error: string)

  datatype UsageStats = UsageStats(
    totalRequests: nat, totalBytes: int, byResource: map<string, nat>, byOperation: map<string, nat>)

  /** What all three WHERE clauses ask for. */
  datatype Query = Query(userId: string, from: string, to: string)

  datatype Column = Resource | Operation

  /** time.Duration.Milliseconds: division that truncates toward zero. */
  function Milliseconds(nanoseconds: int): (ms: int)
    ensures -1_000_000 < nanoseconds - ms * 1_000_000 < 1_000_000
    ensures nanoseconds >= 0 ==> ms * 1_000_000 <= nanoseconds
    ensures nanoseconds <= 0 ==> ms * 1_000_000 >= nanoseconds
  {
    if nanoseconds >= 0 then nanoseconds / 1_000_000 else -(-nanoseconds / 1_000_000)
  }

  function RowOf(e: UsageEntry): Row {
    Row(e.userId, e.email, e.resource, e.operation, e.bytes,
        Milliseconds(e.latency), Format(e.timestamp), e.success, e.error)
  }

  /** The row holds the entry's fields. */
  ghost predicate Tells(row: Row, e: UsageEntry) {
    && row.userId == e.userId && row.email == e.email
    && row.resource == e.resource && row.operation == e.operation && row.bytes == e.bytes
    && (row.success <==> e.success) && row.error == e.error
    && -1_000_000 < e.latency - row.latencyMs * 1_000_000 < 1_000_000
    && (e.latency >= 0 ==> row.latencyMs * 1_000_000 <= e.latency)
    && (e.latency <= 0 ==> row.latencyMs * 1_000_000 >= e.latency)
    && row.timestamp == Format(e.timestamp)
    && (FourDigitYear(e.timestamp) ==> ReadTimestamp(row.timestamp) == Some(e.timestamp / 1_000_000_000))
  }

  lemma RowTells(e: UsageEntry)
    ensures Tells(RowOf(e), e)
  {
    hide Format, ReadTimestamp;
    if FourDigitYear(e.timestamp) { FormatReadsBack(e.timestamp); }
  }

  function RowsOf(entries: seq<UsageEntry>): (rows: seq<Row>)
    ensures |rows| == |entries|
  {
    if entries == [] then []
    else RowsOf(entries[..|entries| - 1]) + [RowOf(entries[|entries| - 1])]
  }

  function QueryFor(userId: string, from: Instant, to: Instant): Query {
    Query(userId, Format(from), Format(to))
  }

  predicate Matches(row: Row, q: Query) {
    row.userId == q.userId && TextBetween(row.timestamp, q.from, q.to)
  }

  function Select(log: seq<Row>, q: Query): seq<Row> {
    if log == [] then []
    else
      var last := |log| - 1;
      Select(log[..last], q) + if Matches(log[last], q) then [log[last]] else []
  }

  /** COALESCE(SUM(bytes), 0). */
  function SumBytes(rows: seq<Row>): int {
    if rows == [] then 0 else SumBytes(rows[..|rows| - 1]) + rows[|rows| - 1].bytes
  }

  function Key(row: Row, col: Column): string {
    match col
    case Resource => row.resource
    case Operation => row.operation
  }

  /** COUNT(*) of the group with one key. */
  function Tally(rows: seq<Row>, col: Column, key: string): nat {
    if rows == [] then 0
    else
      var last := |rows| - 1;
      Tally(rows[..last], col, key) + if Key(rows[last], col) == key then 1 else 0
  }

  function CountIn(m: map<string, nat>, k: string): nat {
    if k in m then m[k] else 0
  }

  /** The counts of all groups, row by row. */
  function Groups(rows: seq<Row>, col: Column): map<string, nat> {
    if rows == [] then map[]
    else
      var g, k := Groups(rows[..|rows| - 1], col), Key(rows[|rows| - 1], col);
      g[k := CountIn(g, k) + 1]
  }

  function Summary(rows1: seq<Row>, rows2: seq<Row>, rows3: seq<Row>): UsageStats {
    UsageStats(|rows1|, SumBytes(rows1), Groups(rows2, Resource), Groups(rows3, Operation))
  }

  /** The answer when the three queries see the table at three moments. */
  function Report(seen1: seq<Row>, seen2: seq<Row>, seen3: seq<Row>, q: Query): UsageStats {
    Summary(Select(seen1, q), Select(seen2, q), Select(seen3, q))
  }

  /** The rows an engine may return for SELECT col, COUNT(*) ... GROUP BY col, in any
      order: one for each value that occurs, with the number of its occurrences. */
  ghost predicate IsGroupBy(groups: seq<(string, nat)>, rows: seq<Row>, col: Column) {
    && (forall i, j :: 0 <= i < j < |groups| ==> groups[i].0 != groups[j].0)
    && (forall i :: 0 <= i < |groups| ==> groups[i].1 == Tally(rows, col, groups[i].0) > 0)
    && (forall k :: Tally(rows, col, k) > 0 ==> exists i :: 0 <= i < |groups| && groups[i].0 == k)
  }

  datatype Stage = Totals | ByResource | ByOperation

  /** How the database and the other goroutines behave during one GetUsage: the rows they
      insert between the queries, the order groups come back in, and which query fails. */
  datatype Database = Database(
    between1: seq<Row>, between2: seq<Row>,
    resourceRows: seq<(string, nat)>, operationRows: seq<(string, nat)>,
    failure: Option<Stage>)

  class SQLiteMeter {
    var rows: seq<Row>

    constructor ()
      ensures rows == []
    {
      rows := [];
    }

    /** Inserts one row, or fails and inserts none. The row tells everything the entry does,
        in whole milliseconds and whole seconds. */
    method Record(entry: UsageEntry, stored: bool) returns (ok: bool)
      modifies this
      ensures ok == stored
      ensures !ok ==> rows == old(rows)
      ensures ok ==> |rows| == |old(rows)| + 1 && rows[..|old(rows)|] == old(rows) && Tells(rows[|old(rows)|], entry)
      ensures rows == old(rows) + if ok then [RowOf(entry)] else []
    {
      if !stored { return false; }
      hide Format, ReadTimestamp;
      RowTells(entry);
      var latencyMs := Milliseconds(entry.latency);
      rows := rows + [Row(entry.userId, entry.email, entry.resource, entry.operation, entry.bytes, latencyMs,
                          Format(entry.timestamp), entry.success, entry.error)];
      return true;
    }

    method GetUsage(userId: string, from: Instant, to: Instant, db: Database)
      returns (r: Result<UsageStats, Stage>)
      requires IsGroupBy(db.resourceRows, Select(rows + db.between1, QueryFor(userId, from, to)), Resource)
      requires IsGroupBy(db.operationRows,
                         Select(rows + db.between1 + db.between2, QueryFor(userId, from, to)), Operation)
      modifies this
      ensures rows == match db.failure
                      case Some(Totals) => old(rows)
                      case Some(ByResource) => old(rows) + db.between1
                      case _ => old(rows) + db.between1 + db.between2
      ensures r == match db.failure
                   case Some(stage) => Err(stage)
                   case None => Ok(Report(old(rows), old(rows) + db.between1,
                                          old(rows) + db.between1 + db.between2, QueryFor(userId, from, to)))
    {
      hide Format, Tally, Groups, Select, SumBytes;
      var q := QueryFor(userId, from, to);
      var stats := UsageStats(0, 0, map[], map[]);

      if db.failure == Some(Totals) { return Err(Totals); }
      var selected := Select(rows, q);
      stats := stats.(totalRequests := |selected|, totalBytes := SumBytes(selected));

      rows := rows + db.between1;
      if db.failure == Some(ByResource) { return Err(ByResource); }
      var byResource := Collect(db.resourceRows, Select(rows, q), Resource);
      stats := stats.(byResource := byResource);

      rows := rows + db.between2;
      if db.failure == Some(ByOperation) { return Err(ByOperation); }
      var byOperation := Collect(db.operationRows, Select(rows, q), Operation);
      stats := stats.(byOperation := byOperation);

      return Ok(stats);
    }
  }

  /** The loop over a grouped result: each returned row sets one map entry, and whatever
      order the rows come in, the map is the same. */
  method Collect(groups: seq<(string, nat)>, ghost rows: seq<Row>, ghost col: Column)
    returns (counts: map<string, nat>)
    requires IsGroupBy(groups, rows, col)
    ensures counts == Groups(rows, col)
  {
    counts := map[];
    for i := 0 to |groups|
      invariant forall j :: 0 <= j < i ==> groups[j].0 in counts
      invariant forall k :: k in counts ==> counts[k] == Tally(rows, col, k) > 0
    {
      var (key, count) := groups[i];
      counts := counts[key := count];
    }
    forall k ensures k in counts <==> k in Groups(rows, col) {
      GroupCounts(rows, col, k);
    }
    forall k | k in counts ensures counts[k] == Groups(rows, col)[k] {
      GroupCounts(rows, col, k);
    }
  }

  /** The map holds exactly the values that occur, each with its number of occurrences. */
  lemma {:induction false} GroupCounts(rows: seq<Row>, col: Column, key: string)
    ensures CountIn(Groups(rows, col), key) == Tally(rows, col, key)
    ensures key in Groups(rows, col) <==> Tally(rows, col, key) > 0
  {
    if rows != [] { GroupCounts(rows[..|rows| - 1], col, key); }
  }

  lemma {:induction false} TallyPositive(rows: seq<Row>, col: Column, key: string)
    ensures Tally(rows, col, key) > 0 <==> exists i :: 0 <= i < |rows| && Key(rows[i], col) == key
  {
    if rows != [] {
      var last := |rows| - 1;
      TallyPositive(rows[..last], col, key);
      if i :| 0 <= i < |rows| && Key(rows[i], col) == key && i != last {
        assert Key(rows[..last][i], col) == key;
      }
    }
  }

  ghost function Pick(m: map<string, nat>): (k: string)
    requires m != map[]
    ensures k in m
  {
    var k :| k in m; k
  }

  /** An engine always has an answer to give: any grouping can be listed. */
  lemma GroupByExists(rows: seq<Row>, col: Column) returns (groups: seq<(string, nat)>)
    ensures IsGroupBy(groups, rows, col)
  {
    var m := Groups(rows, col);
    groups := Listing(m);
    forall k ensures CountIn(m, k) == Tally(rows, col, k) && (k in m <==> Tally(rows, col, k) > 0) {
      GroupCounts(rows, col, k);
    }
  }

  lemma {:induction false} Listing(m: map<string, nat>) returns (items: seq<(string, nat)>)
    ensures forall i, j :: 0 <= i < j < |items| ==> items[i].0 != items[j].0
    ensures forall i :: 0 <= i < |items| ==> items[i].0 in m && items[i].1 == m[items[i].0]
    ensures forall k :: k in m ==> exists i :: 0 <= i < |items| && items[i].0 == k
    decreases m
  {
    if m == map[] {
      return [];
    }
    var k := Pick(m);
    var rest := Listing(m - {k});
    items := [(k, m[k])] + rest;
    forall j | j in m ensures exists i :: 0 <= i < |items| && items[i].0 == j {
      if j == k {
        assert items[0].0 == j;
      } else {
        assert j in m - {k};
        var i :| 0 <= i < |rest| && rest[i].0 == j;
        assert items[i + 1].0 == j;
      }
    }
  }

  // ---------- conservation ----------

  ghost function Sum(m: map<string, nat>): nat {
    if m == map[] then 0 else m[Pick(m)] + Sum(m - {Pick(m)})
  }

  lemma {:induction false} SumTakeOut(m: map<string, nat>, k: string)
    requires k in m
    ensures Sum(m) == m[k] + Sum(m - {k})
    decreases m
  {
    var j := Pick(m);
    if j != k {
      SumTakeOut(m - {j}, k);
      SumTakeOut(m - {k}, j);
      assert m - {j} - {k} == m - {k} - {j};
    }
  }

  lemma SumPut(m: map<string, nat>, k: string, v: nat)
    ensures Sum(m[k := v]) == Sum(m) - (if k in m then m[k] else 0) + v
  {
    SumTakeOut(m[k := v], k);
    assert m[k := v] - {k} == m - {k};
    if k in m {
      SumTakeOut(m, k);
    } else {
      assert m - {k} == m;
    }
  }

  lemma TallyAppend(rows: seq<Row>, row: Row, col: Column, key: string)
    ensures Tally(rows + [row], col, key) == Tally(rows, col, key) + if Key(row, col) == key then 1 else 0
    ensures SumBytes(rows + [row]) == SumBytes(rows) + row.bytes
  {
  }

  lemma {:induction false} GroupsConserve(rows: seq<Row>, col: Column)
    ensures Sum(Groups(rows, col)) == |rows|
  {
    if rows != [] {
      var front, k := rows[..|rows| - 1], Key(rows[|rows| - 1], col);
      GroupsConserve(front, col);
      SumPut(Groups(front, col), k, CountIn(Groups(front, col), k) + 1);
    }
  }

  lemma {:induction false} SelectAppend(a: seq<Row>, b: seq<Row>, q: Query)
    ensures Select(a + b, q) == Select(a, q) + Select(b, q)
  {
    if b == [] {
      assert a + b == a;
    } else {
      var last := |b| - 1;
      SelectAppend(a, b[..last], q);
      assert (a + b)[..|a| + last] == a + b[..last];
    }
  }

  /** With nothing inserted during the call, both breakdowns add up to the total. */
  lemma QuietReportConserves(log: seq<Row>, q: Query)
    ensures var r := Report(log, log, log, q); r.totalRequests == Sum(r.byResource) == Sum(r.byOperation)
  {
    GroupsConserve(Select(log, q), Resource);
    GroupsConserve(Select(log, q), Operation);
  }

  /** Rows inserted between the queries can only make a later breakdown larger, and each
      comparison is an equality exactly when no matching row was inserted in between. */
  lemma TornReportOrder(log: seq<Row>, between1: seq<Row>, between2: seq<Row>, q: Query)
    ensures var r := Report(log, log + between1, log + between1 + between2, q);
            && r.totalRequests <= Sum(r.byResource) <= Sum(r.byOperation)
            && (r.totalRequests == Sum(r.byResource) <==> Select(between1, q) == [])
            && (Sum(r.byResource) == Sum(r.byOperation) <==> Select(between2, q) == [])
  {
    GroupsConserve(Select(log + between1, q), Resource);
    GroupsConserve(Select(log + between1 + between2, q), Operation);
    SelectAppend(log, between1, q);
    SelectAppend(log + between1, between2, q);
  }

  /** It happens: one row inserted after the first query is in both breakdowns and not in
      the total. */
  lemma TornReportHappens(t: Instant)
    ensures var row := Row("u", "", "db", "get", 0, 0, Format(t), true, "");
            var r := Report([], [row], [row], QueryFor("u", t, t));
            r.totalRequests == 0 && Sum(r.byResource) == Sum(r.byOperation) == 1
  {
    var row, q := Row("u", "", "db", "get", 0, 0, Format(t), true, ""), QueryFor("u", t, t);
    SelectPush([], row, q);
    assert [] + [row] == [row];
    GroupsConserve(Select([row], q), Resource);
    GroupsConserve(Select([row], q), Operation);
  }

  /** One more request: one entry of each breakdown moves, by one. */
  ghost predicate OneMore(before: UsageStats, after: UsageStats, row: Row) {
    && after.totalRequests == before.totalRequests + 1
    && after.totalBytes == before.totalBytes + row.bytes
    && after.byResource == before.byResource[row.resource := CountIn(before.byResource, row.resource) + 1]
    && after.byOperation == before.byOperation[row.operation := CountIn(before.byOperation, row.operation) + 1]
  }

  /** A Record counts once for the users and windows its row falls in. */
  lemma MatchingRecordCountsOnce(log: seq<Row>, row: Row, q: Query)
    requires Matches(row, q)
    ensures OneMore(Report(log, log, log, q), Report(log + [row], log + [row], log + [row], q), row)
  {
  }

  /** It moves nothing for anyone else. */
  lemma OtherRecordMovesNothing(log: seq<Row>, row: Row, q: Query)
    requires !Matches(row, q)
    ensures Report(log + [row], log + [row], log + [row], q) == Report(log, log, log, q)
  {
    SelectPush(log, row, q);
  }

  lemma SelectPush(log: seq<Row>, row: Row, q: Query)
    ensures Select(log + [row], q) == if Matches(row, q) then Select(log, q) + [row] else Select(log, q)
  {
  }

  // ---------- windows of time ----------

  predicate Hits(e: UsageEntry, userId: string, from: Instant, to: Instant) {
    e.userId == userId && Within(e.timestamp, from, to)
  }

  /** The rows of one user's entries in a window of instants, with no text compared. */
  function WindowRows(entries: seq<UsageEntry>, userId: string, from: Instant, to: Instant): seq<Row> {
    if entries == [] then []
    else
      var last := |entries| - 1;
      WindowRows(entries[..last], userId, from, to) +
      if Hits(entries[last], userId, from, to) then [RowOf(entries[last])] else []
  }

  ghost predicate AllFourDigit(entries: seq<UsageEntry>) {
    forall i :: 0 <= i < |entries| ==> FourDigitYear(entries[i].timestamp)
  }

  /** What the queries select by text is what happened in the window. */
  lemma {:induction false} SelectIsWindow(entries: seq<UsageEntry>, userId: string, from: Instant, to: Instant)
    requires AllFourDigit(entries) && FourDigitYear(to) && from < YEAR_10000
    ensures Select(RowsOf(entries), QueryFor(userId, from, to)) == WindowRows(entries, userId, from, to)
  {
    if entries != [] {
      var front, e := entries[..|entries| - 1], entries[|entries| - 1];
      SelectIsWindow(front, userId, from, to);
      WindowIsExact(e.timestamp, from, to);
      SelectPush(RowsOf(front), RowOf(e), QueryFor(userId, from, to));
    }
  }

  lemma WindowStep(entries: seq<UsageEntry>, e: UsageEntry, userId: string, from: Instant, to: Instant,
                   col: Column, key: string)
    ensures var w, w' := WindowRows(entries, userId, from, to), WindowRows(entries + [e], userId, from, to);
            if Hits(e, userId, from, to) then
              && |w'| == |w| + 1 && SumBytes(w') == SumBytes(w) + e.bytes
              && Tally(w', col, key) == Tally(w, col, key) + if Key(RowOf(e), col) == key then 1 else 0
            else w' == w
  {
  }

  ghost predicate SplitsAt(entries: seq<UsageEntry>, userId: string,
                           a: Instant, b: Instant, c: Instant, col: Column, key: string)
  {
    var u, v, w := WindowRows(entries, userId, a, b), WindowRows(entries, userId, b + SECOND, c),
                   WindowRows(entries, userId, a, c);
    && |u| + |v| == |w| && SumBytes(u) + SumBytes(v) == SumBytes(w)
    && Tally(u, col, key) + Tally(v, col, key) == Tally(w, col, key)
  }

  lemma SplitStep(front: seq<UsageEntry>, e: UsageEntry, userId: string,
                  a: Instant, b: Instant, c: Instant, col: Column, key: string)
    requires Seconds(a) <= Seconds(b) + 1 && Seconds(b) <= Seconds(c)
    requires SplitsAt(front, userId, a, b, c, col, key)
    ensures SplitsAt(front + [e], userId, a, b, c, col, key)
  {
    WindowStep(front, e, userId, a, b, col, key);
    WindowStep(front, e, userId, b + SECOND, c, col, key);
    WindowStep(front, e, userId, a, c, col, key);
    OneSideOfSplit(e.timestamp, a, b, c);
  }

  lemma {:induction false} WindowsSplit(entries: seq<UsageEntry>, userId: string,
                                        a: Instant, b: Instant, c: Instant, col: Column, key: string)
    requires Seconds(a) <= Seconds(b) + 1 && Seconds(b) <= Seconds(c)
    ensures SplitsAt(entries, userId, a, b, c, col, key)
  {
    if entries != [] {
      var front, e := entries[..|entries| - 1], entries[|entries| - 1];
      assert entries == front + [e];
      WindowsSplit(front, userId, a, b, c, col, key);
      SplitStep(front, e, userId, a, b, c, col, key);
    }
  }

  lemma OneSideOfSplit(t: Instant, a: Instant, b: Instant, c: Instant)
    requires Seconds(a) <= Seconds(b) + 1 && Seconds(b) <= Seconds(c)
    ensures Within(t, a, c) <==> Within(t, a, b) || Within(t, b + SECOND, c)
    ensures !(Within(t, a, b) && Within(t, b + SECOND, c))
  {
  }

  /** A report that counts these rows. */
  ghost predicate Counts(r: UsageStats, rows: seq<Row>, key: string) {
    && r.totalRequests == |rows| && r.totalBytes == SumBytes(rows)
    && CountIn(r.byResource, key) == Tally(rows, Resource, key)
    && CountIn(r.byOperation, key) == Tally(rows, Operation, key)
  }

  function UsageOf(entries: seq<UsageEntry>, userId: string, from: Instant, to: Instant): UsageStats {
    var log := RowsOf(entries);
    Report(log, log, log, QueryFor(userId, from, to))
  }

  /** The report over a window counts what happened in the window, with no text involved. */
  lemma ReportCountsWindow(entries: seq<UsageEntry>, userId: string, from: Instant, to: Instant, key: string)
    requires AllFourDigit(entries) && FourDigitYear(to) && from < YEAR_10000
    ensures Counts(UsageOf(entries, userId, from, to), WindowRows(entries, userId, from, to), key)
  {
    SelectIsWindow(entries, userId, from, to);
    GroupCounts(WindowRows(entries, userId, from, to), Resource, key);
    GroupCounts(WindowRows(entries, userId, from, to), Operation, key);
  }

  /** What a user did in a window, by its entries alone. */
  ghost function Window(entries: seq<UsageEntry>, userId: string, from: Instant, to: Instant): (w: set<nat>)
    ensures forall i :: i in w ==> i < |entries|
  {
    set i: nat | i < |entries| && entries[i].userId == userId
                 && from / 1_000_000_000 <= entries[i].timestamp / 1_000_000_000 <= to / 1_000_000_000
  }

  /** Those of some entries with one resource, or one operation. */
  ghost function Keyed(entries: seq<UsageEntry>, w: set<nat>, col: Column, key: string): set<nat>
    requires forall i :: i in w ==> i < |entries|
  {
    match col
    case Resource => set i | i in w && entries[i].resource == key
    case Operation => set i | i in w && entries[i].operation == key
  }

  lemma WindowPush(front: seq<UsageEntry>, e: UsageEntry, userId: string, from: Instant, to: Instant)
    ensures Window(front + [e], userId, from, to) ==
            Window(front, userId, from, to) + if Hits(e, userId, from, to) then {|front|} else {}
  {
    var w, w', n := Window(front, userId, from, to), Window(front + [e], userId, from, to), |front|;
    forall i: nat ensures i in w' <==> i in w || (i == n && Hits(e, userId, from, to)) {
      if i < n { assert (front + [e])[i] == front[i]; }
    }
  }

  lemma KeyedPush(front: seq<UsageEntry>, e: UsageEntry, w: set<nat>, hit: bool, col: Column, key: string)
    requires forall i :: i in w ==> i < |front|
    ensures var w' := w + if hit then {|front|} else {};
            Keyed(front + [e], w', col, key) ==
            Keyed(front, w, col, key) + if hit && Key(RowOf(e), col) == key then {|front|} else {}
  {
    hide Format;
    var n := |front|;
    var w' := w + if hit then {n} else {};
    forall i: nat
      ensures i in Keyed(front + [e], w', col, key) <==>
              i in Keyed(front, w, col, key) || (i == n && hit && Key(RowOf(e), col) == key)
    {
      if i < n { assert (front + [e])[i] == front[i]; }
    }
  }

  lemma {:induction false} WindowSize(entries: seq<UsageEntry>, userId: string, from: Instant, to: Instant,
                                      col: Column, key: string)
    ensures var rows, w := WindowRows(entries, userId, from, to), Window(entries, userId, from, to);
            |rows| == |w| && Tally(rows, col, key) == |Keyed(entries, w, col, key)|
  {
    if entries == [] {
      assert Window(entries, userId, from, to) == {} && Keyed(entries, {}, col, key) == {};
    } else {
      hide WindowRows, Tally, Window, Keyed, Hits, RowOf;
      var front, e := entries[..|entries| - 1], entries[|entries| - 1];
      assert entries == front + [e];
      WindowSize(front, userId, from, to, col, key);
      WindowStep(front, e, userId, from, to, col, key);
      WindowPush(front, e, userId, from, to);
      KeyedPush(front, e, Window(front, userId, from, to), Hits(e, userId, from, to), col, key);
      KeyedWithin(front, Window(front, userId, from, to), col, key);
    }
  }

  lemma KeyedWithin(entries: seq<UsageEntry>, w: set<nat>, col: Column, key: string)
    requires forall i :: i in w ==> i < |entries|
    ensures Keyed(entries, w, col, key) <= w && |entries| !in w
  {
  }

  /** So the figures of a quiet report are the numbers of the user's entries in the window,
      in all, with one resource, and with one operation. */
  lemma ReportCountsEntries(entries: seq<UsageEntry>, userId: string, from: Instant, to: Instant, key: string)
    requires AllFourDigit(entries) && FourDigitYear(to) && from < YEAR_10000
    ensures var r, w := UsageOf(entries, userId, from, to), Window(entries, userId, from, to);
            && r.totalRequests == |w|
            && CountIn(r.byResource, key) == |Keyed(entries, w, Resource, key)|
            && CountIn(r.byOperation, key) == |Keyed(entries, w, Operation, key)|
  {
    hide UsageOf, WindowRows, Tally, Window, Keyed;
    ReportCountsWindow(entries, userId, from, to, key);
    WindowSize(entries, userId, from, to, Resource, key);
    WindowSize(entries, userId, from, to, Operation, key);
  }

  ghost predicate AddUp(u: UsageStats, v: UsageStats, w: UsageStats, key: string) {
    && u.totalRequests + v.totalRequests == w.totalRequests
    && u.totalBytes + v.totalBytes == w.totalBytes
    && CountIn(u.byResource, key) + CountIn(v.byResource, key) == CountIn(w.byResource, key)
    && CountIn(u.byOperation, key) + CountIn(v.byOperation, key) == CountIn(w.byOperation, key)
  }

  /** Reports over adjacent windows add up, entry by entry, to the report over both. */
  lemma AdjacentWindowsAdd(entries: seq<UsageEntry>, userId: string, a: Instant, b: Instant, c: Instant, key: string)
    requires AllFourDigit(entries) && a <= b <= c
    requires FourDigitYear(b) && FourDigitYear(b + SECOND) && FourDigitYear(c)
    ensures AddUp(UsageOf(entries, userId, a, b), UsageOf(entries, userId, b + SECOND, c),
                  UsageOf(entries, userId, a, c), key)
  {
    hide Format;
    ReportCountsWindow(entries, userId, a, b, key);
    ReportCountsWindow(entries, userId, b + SECOND, c, key);
    ReportCountsWindow(entries, userId, a, c, key);
    WindowsSplit(entries, userId, a, b, c, Resource, key);
    WindowsSplit(entries, userId, a, b, c, Operation, key);
  }

  ghost predicate NoLower(near: UsageStats, far: UsageStats, key: string) {
    && near.totalRequests <= far.totalRequests
    && CountIn(near.byResource, key) <= CountIn(far.byResource, key)
    && CountIn(near.byOperation, key) <= CountIn(far.byOperation, key)
  }

  /** What is selected by one query is selected by a wider one. */
  lemma {:induction false} WiderSelects(log: seq<Row>, q: Query, q': Query, col: Column, key: string)
    requires forall row :: row in log && Matches(row, q) ==> Matches(row, q')
    ensures |Select(log, q)| <= |Select(log, q')|
    ensures Tally(Select(log, q), col, key) <= Tally(Select(log, q'), col, key)
  {
    if log != [] {
      var front, row := log[..|log| - 1], log[|log| - 1];
      hide Matches, Select, Tally;
      assert log == front + [row];
      WiderSelects(front, q, q', col, key);
      SelectPush(front, row, q);
      SelectPush(front, row, q');
      TallyAppend(Select(front, q), row, col, key);
      TallyAppend(Select(front, q'), row, col, key);
    }
  }

  lemma {:induction false} RowFrom(entries: seq<UsageEntry>, row: Row)
    requires row in RowsOf(entries)
    ensures exists e :: e in entries && row == RowOf(e)
  {
    var front, last := entries[..|entries| - 1], entries[|entries| - 1];
    if row in RowsOf(front) {
      RowFrom(front, row);
      var e :| e in front && row == RowOf(e);
      assert e in entries;
    } else {
      assert last in entries && row == RowOf(last);
    }
  }

  /** A start that is written no later than another one never lowers a figure. */
  lemma LowerTextNeverLowers(entries: seq<UsageEntry>, userId: string,
                             from: Instant, from': Instant, to: Instant, key: string)
    requires AllFourDigit(entries) && FourDigitYear(to) && from <= to
    requires AtMost(Format(from'), Format(LaterOf(from, 0)))
    ensures NoLower(UsageOf(entries, userId, from, to), UsageOf(entries, userId, from', to), key)
  {
    hide Format, TextBetween, Select, Tally, Groups, RowsOf, RowOf;
    var log, q, q' := RowsOf(entries), QueryFor(userId, from, to), QueryFor(userId, from', to);
    forall row | row in log && Matches(row, q) ensures Matches(row, q') {
      RowFrom(entries, row);
      var e :| e in entries && row == RowOf(e);
      TextStaysBetween(e, from, from', to);
    }
    WiderSelects(log, q, q', Resource, key);
    WiderSelects(log, q, q', Operation, key);
    GroupCounts(Select(log, q), Resource, key);
    GroupCounts(Select(log, q'), Resource, key);
    GroupCounts(Select(log, q), Operation, key);
    GroupCounts(Select(log, q'), Operation, key);
  }

  lemma TextStaysBetween(e: UsageEntry, from: Instant, from': Instant, to: Instant)
    requires FourDigitYear(e.timestamp) && FourDigitYear(to) && from <= to
    requires AtMost(Format(from'), Format(LaterOf(from, 0)))
    requires TextBetween(RowOf(e).timestamp, Format(from), Format(to))
    ensures TextBetween(RowOf(e).timestamp, Format(from'), Format(to))
  {
    hide Format;
    var t := e.timestamp;
    WindowIsExact(t, from, to);
    if from <= t {
      StartTextIsFirst(Format(from'), from, t);
    } else {
      TextOrder(from, t);
    }
  }

  /** And only such a start: one that is written later lowers some report. */
  lemma NeverLowersExactly(from: Instant, from': Instant, to: Instant)
    requires FourDigitYear(to) && from <= to
    ensures (forall entries, userId, key :: AllFourDigit(entries) ==>
               NoLower(UsageOf(entries, userId, from, to), UsageOf(entries, userId, from', to), key))
            <==> AtMost(Format(from'), Format(LaterOf(from, 0)))
  {
    hide Format, UsageOf, NoLower;
    if AtMost(Format(from'), Format(LaterOf(from, 0))) {
      forall entries, userId, key | AllFourDigit(entries)
        ensures NoLower(UsageOf(entries, userId, from, to), UsageOf(entries, userId, from', to), key)
      {
        LowerTextNeverLowers(entries, userId, from, from', to, key);
      }
    } else {
      var e := UsageEntry("", "", "", "", 0, 0, LaterOf(from, 0), true, "");
      EntryInWindow(e, from, to);
      EntryOutside(e, from', to);
      FewerIsLower(UsageOf([e], "", from, to), UsageOf([e], "", from', to));
      assert AllFourDigit([e]);
    }
  }

  lemma FewerIsLower(near: UsageStats, far: UsageStats)
    requires near.totalRequests > far.totalRequests
    ensures !NoLower(near, far, "")
  {
  }

  lemma EntryInWindow(e: UsageEntry, from: Instant, to: Instant)
    requires FourDigitYear(e.timestamp) && FourDigitYear(to) && from <= e.timestamp <= to
    ensures UsageOf([e], e.userId, from, to).totalRequests == 1
  {
    hide Format;
    WindowIsExact(e.timestamp, from, to);
    SelectPush([], RowOf(e), QueryFor(e.userId, from, to));
    assert RowsOf([e]) == [] + [RowOf(e)];
  }

  lemma EntryOutside(e: UsageEntry, from: Instant, to: Instant)
    requires !AtMost(Format(from), Format(e.timestamp))
    ensures UsageOf([e], e.userId, from, to).totalRequests == 0
  {
    hide Format;
    SelectPush([], RowOf(e), QueryFor(e.userId, from, to));
    assert RowsOf([e]) == [] + [RowOf(e)];
  }

  /** An earlier start never lowers a total or a count, even one before year 0. */
  lemma EarlierStartNeverLowers(entries: seq<UsageEntry>, userId: string,
                                from: Instant, from': Instant, to: Instant, key: string)
    requires AllFourDigit(entries) && FourDigitYear(to) && from' <= from <= to
    ensures NoLower(UsageOf(entries, userId, from, to), UsageOf(entries, userId, from', to), key)
  {
    hide Format, UsageOf;
    EarlierTextIsFirst(from, from');
    LowerTextNeverLowers(entries, userId, from, from', to, key);
  }

  /** A window whose start is written after its end selects nothing. */
  lemma {:induction false} NothingBetween(log: seq<Row>, userId: string, from: Instant, to: Instant)
    requires Less(Format(to), Format(from))
    ensures Select(log, QueryFor(userId, from, to)) == []
  {
    hide Format;
    if log != [] {
      NothingBetween(log[..|log| - 1], userId, from, to);
      var text := log[|log| - 1].timestamp;
      AtMostIsNotMore(Format(to), Format(from));
      if TextBetween(text, Format(from), Format(to)) { AtMostTransitive(Format(from), text, Format(to)); }
    }
  }
}
