// The solved-count report: who solved how many problems inside a time window
// of the local day, ranked by count, rendered as one chat message.

module Report {
  import opened Wrappers
  import opened Text
  import opened Seqs
  import opened Calendar
  import opened ClockTime
  import opened Codeforces
  import Monitor

  /** One linked user's fetch: the submissions, or None when the API did not answer 200. */
  datatype Fetch = Fetch(id: Monitor.UserId, handle: string, result: Option<seq<Submission>>)

  /** One line of the ranking before rendering. */
  datatype Row = Row(id: Monitor.UserId, handle: string, count: nat)

  /** The ways the command fails: a bad time argument (ValueError) or a queued submission (KeyError). */
  datatype ReportError = BadTime(e: TimeError) | MissingVerdict

  // ----- the users dictionary -----

  predicate DistinctIds(d: seq<Fetch>)
  {
    forall i, j :: 0 <= i < j < |d| ==> d[i].id != d[j].id
  }

  /** users[id] = value: an existing key keeps its place and takes the new value; a new key goes last. */
  function Store(d: seq<Fetch>, f: Fetch): seq<Fetch>
  {
    if d == [] then [f]
    else if d[0].id == f.id then [f] + d[1..]
    else [d[0]] + Store(d[1..], f)
  }

  /** The dictionary after storing every fetch in turn. */
  function Collect(fs: seq<Fetch>): seq<Fetch>
  {
    if fs == [] then [] else Store(Collect(fs[..|fs| - 1]), fs[|fs| - 1])
  }

  /** The last fetch made for a user, if any. */
  function LastFetch(fs: seq<Fetch>, id: Monitor.UserId): Option<Fetch>
  {
    if fs == [] then None
    else if fs[|fs| - 1].id == id then Some(fs[|fs| - 1])
    else LastFetch(fs[..|fs| - 1], id)
  }

  /** Storing keeps the keys distinct: a new key is appended, an existing one takes the new value in place. */
  lemma StoreSpec(d: seq<Fetch>, f: Fetch)
    requires DistinctIds(d)
    ensures DistinctIds(Store(d, f))
    ensures (forall i :: 0 <= i < |d| ==> d[i].id != f.id) ==> Store(d, f) == d + [f]
    ensures forall i :: 0 <= i < |d| && d[i].id == f.id ==> Store(d, f) == d[i := f]
  {
    if forall i :: 0 <= i < |d| ==> d[i].id != f.id {
      StoreNewKey(d, f);
      var r := d + [f];
      assert forall j :: 0 <= j < |d| ==> r[j] == d[j];
    } else {
      var k :| 0 <= k < |d| && d[k].id == f.id;
      forall i | 0 <= i < |d| && d[i].id == f.id ensures Store(d, f) == d[i := f] {
        StoreExistingKey(d, f, i);
      }
      StoreExistingKey(d, f, k);
    }
  }

  lemma {:induction false} StoreNewKey(d: seq<Fetch>, f: Fetch)
    requires forall i :: 0 <= i < |d| ==> d[i].id != f.id
    ensures Store(d, f) == d + [f]
  {
    if d != [] {
      assert forall i :: 0 <= i < |d[1..]| ==> d[1..][i].id != f.id by {
        forall i | 0 <= i < |d[1..]| ensures d[1..][i].id != f.id { assert d[1..][i] == d[i + 1]; }
      }
      StoreNewKey(d[1..], f);
      assert [d[0]] + (d[1..] + [f]) == d + [f];
    }
  }

  lemma {:induction false} StoreExistingKey(d: seq<Fetch>, f: Fetch, k: nat)
    requires DistinctIds(d) && k < |d| && d[k].id == f.id
    ensures Store(d, f) == d[k := f]
  {
    if k == 0 {
      assert [f] + d[1..] == d[0 := f];
    } else {
      assert d[0].id != f.id;
      assert DistinctIds(d[1..]) by {
        forall i, j | 0 <= i < j < |d[1..]| ensures d[1..][i].id != d[1..][j].id {
          assert d[1..][i] == d[i + 1] && d[1..][j] == d[j + 1];
        }
      }
      assert d[1..][k - 1] == d[k];
      StoreExistingKey(d[1..], f, k - 1);
      assert [d[0]] + d[1..][k - 1 := f] == d[k := f];
    }
  }

  /** c is the dictionary built from fs: each fetched user once, with its last fetch. */
  predicate Collected(fs: seq<Fetch>, c: seq<Fetch>)
  {
    DistinctIds(c) && |c| <= |fs|
    && (forall i :: 0 <= i < |c| ==> LastFetch(fs, c[i].id) == Some(c[i]))
    && (forall j :: 0 <= j < |fs| ==> exists i :: 0 <= i < |c| && c[i].id == fs[j].id)
  }

  /**
   * The dictionary holds each fetched user exactly once, with the value of
   * that user's last fetch, and every fetched user is in it.
   */
  lemma {:induction false} CollectSpec(fs: seq<Fetch>)
    ensures var c := Collect(fs);
            DistinctIds(c) && |c| <= |fs|
            && (forall i :: 0 <= i < |c| ==> LastFetch(fs, c[i].id) == Some(c[i]))
            && (forall j :: 0 <= j < |fs| ==> exists i :: 0 <= i < |c| && c[i].id == fs[j].id)
  {
    if fs != [] {
      var n := |fs| - 1;
      CollectSpec(fs[..n]);
      CollectStep(fs[..n], fs[n], Collect(fs[..n]));
      assert fs[..n] + [fs[n]] == fs;
    }
  }

  /** Storing one more fetch keeps the dictionary in step with the fetch list. */
  lemma CollectStep(init: seq<Fetch>, f: Fetch, c0: seq<Fetch>)
    requires Collected(init, c0)
    ensures Collected(init + [f], Store(c0, f))
  {
    StoreSpec(c0, f);
    if forall i :: 0 <= i < |c0| ==> c0[i].id != f.id {
      CollectStepNew(init, f, c0);
    } else {
      var k :| 0 <= k < |c0| && c0[k].id == f.id;
      CollectStepExisting(init, f, c0, k);
    }
  }

  lemma CollectStepNew(init: seq<Fetch>, f: Fetch, c0: seq<Fetch>)
    requires Collected(init, c0)
    requires forall i :: 0 <= i < |c0| ==> c0[i].id != f.id
    ensures Collected(init + [f], c0 + [f])
  {
    var fs, c, n := init + [f], c0 + [f], |init|;
    assert forall id :: id != f.id ==> LastFetch(fs, id) == LastFetch(init, id);
    forall j | 0 <= j < |fs| ensures exists i :: 0 <= i < |c| && c[i].id == fs[j].id {
      if j < n {
        assert fs[j] == init[j];
        var i :| 0 <= i < |c0| && c0[i].id == init[j].id;
        assert c[i] == c0[i];
      } else {
        assert c[|c0|] == f;
      }
    }
  }

  lemma CollectStepExisting(init: seq<Fetch>, f: Fetch, c0: seq<Fetch>, k: nat)
    requires Collected(init, c0) && k < |c0| && c0[k].id == f.id
    ensures Collected(init + [f], c0[k := f])
  {
    var fs, c, n := init + [f], c0[k := f], |init|;
    assert forall id :: id != f.id ==> LastFetch(fs, id) == LastFetch(init, id);
    forall j | 0 <= j < |fs| ensures exists i :: 0 <= i < |c| && c[i].id == fs[j].id {
      if j < n {
        assert fs[j] == init[j];
        var i :| 0 <= i < |c0| && c0[i].id == init[j].id;
        assert c[i].id == c0[i].id;
      } else {
        assert c[k] == f;
      }
    }
  }

  /** With no user linked twice the dictionary is the fetch list itself, in order. */
  lemma {:induction false} CollectDistinct(fs: seq<Fetch>)
    requires DistinctIds(fs)
    ensures Collect(fs) == fs
  {
    if fs != [] {
      var n := |fs| - 1;
      var init := fs[..n];
      assert DistinctIds(init);
      CollectDistinct(init);
      StoreSpec(init, fs[n]);
      assert init + [fs[n]] == fs;
    }
  }

  // ----- counting -----

  predicate Answered(f: Fetch) { f.result.Some? }

  predicate InWindow(s: Submission, start: int, end: int)
  {
    start <= s.creationTimeSeconds <= end
  }

  /** A submission counts when it lies in the window (both ends included) and was accepted. */
  predicate CountsAsSolved(s: Submission, start: int, end: int)
  {
    InWindow(s, start, end) && HasVerdict(s, "OK")
  }

  /** A queued submission inside the window: reading its verdict raises KeyError. */
  predicate VerdictMissingIn(subs: seq<Submission>, start: int, end: int)
  {
    exists i :: 0 <= i < |subs| && InWindow(subs[i], start, end) && subs[i].verdict.None?
  }

  /** How many of one user's submissions count. */
  function CountSolved(subs: seq<Submission>, start: int, end: int): Result<nat, ReportError>
  {
    if VerdictMissingIn(subs, start, end) then Err(MissingVerdict)
    else Ok(|Filter(subs, s => CountsAsSolved(s, start, end))|)
  }

  /** Counting a single submission: a queued one inside the window fails; only an accepted one inside counts. */
  lemma CountSolvedOne(s: Submission, start: int, end: int)
    ensures CountSolved([s], start, end)
            == if InWindow(s, start, end) && s.verdict.None? then Err(MissingVerdict)
               else Ok(if InWindow(s, start, end) && HasVerdict(s, "OK") then 1 else 0)
  {
    assert [s][1..] == [];
  }

  /** Counting is additive over concatenation, and a failure anywhere fails the whole. */
  lemma CountSolvedAppend(a: seq<Submission>, b: seq<Submission>, start: int, end: int)
    ensures CountSolved(a + b, start, end).Err?
            <==> (CountSolved(a, start, end).Err? || CountSolved(b, start, end).Err?)
    ensures CountSolved(a + b, start, end).Ok? ==>
              CountSolved(a + b, start, end).value == CountSolved(a, start, end).value + CountSolved(b, start, end).value
  {
    FilterAppend(a, b, s => CountsAsSolved(s, start, end));
    if VerdictMissingIn(a, start, end) {
      var i :| 0 <= i < |a| && InWindow(a[i], start, end) && a[i].verdict.None?;
      assert (a + b)[i] == a[i];
    }
    if VerdictMissingIn(b, start, end) {
      var i :| 0 <= i < |b| && InWindow(b[i], start, end) && b[i].verdict.None?;
      assert (a + b)[|a| + i] == b[i];
    }
    if VerdictMissingIn(a + b, start, end) {
      var i :| 0 <= i < |a + b| && InWindow((a + b)[i], start, end) && (a + b)[i].verdict.None?;
      if i < |a| { assert a[i] == (a + b)[i]; } else { assert b[i - |a|] == (a + b)[i]; }
    }
  }

  /**
   * The window DefaultWindow gives for the default arguments "0000" and
   * "2359" ends 60 seconds before the next local midnight: an accepted
   * submission at 23:59:30 local time is not counted.
   */
  lemma DefaultWindowMissesLastMinute(start: int, p: Problem)
    ensures CountSolved([Submission(start + 86400 - 30, Some("OK"), None, p)], start, start + 86400 - 60) == Ok(0)
  {
    CountSolvedOne(Submission(start + 86400 - 30, Some("OK"), None, p), start, start + 86400 - 60);
  }

  /** One row per answered user, in dictionary order, with that user's count. */
  function Tally(entries: seq<Fetch>, start: int, end: int): Result<seq<Row>, ReportError>
    requires forall i :: 0 <= i < |entries| ==> Answered(entries[i])
  {
    if entries == [] then Ok([])
    else
      assert Answered(entries[0]);
      match CountSolved(entries[0].result.value, start, end)
      case Err(e) => Err(e)
      case Ok(n) =>
        match Tally(entries[1..], start, end)
        case Err(e) => Err(e)
        case Ok(rows) => Ok([Row(entries[0].id, entries[0].handle, n)] + rows)
  }

  lemma {:induction false} TallySpec(entries: seq<Fetch>, start: int, end: int)
    requires forall i :: 0 <= i < |entries| ==> Answered(entries[i])
    ensures Tally(entries, start, end).Err?
            <==> exists i :: 0 <= i < |entries| && CountSolved(entries[i].result.value, start, end).Err?
    ensures Tally(entries, start, end).Err? ==> Tally(entries, start, end).error == MissingVerdict
    ensures var r := Tally(entries, start, end);
            r.Ok? ==> |r.value| == |entries|
                      && forall i :: 0 <= i < |entries| ==>
                           r.value[i] == Row(entries[i].id, entries[i].handle,
                                             CountSolved(entries[i].result.value, start, end).value)
  {
    if entries != [] {
      var rest := entries[1..];
      TallySpec(rest, start, end);
      forall i | 0 <= i < |rest| ensures rest[i] == entries[i + 1] { }
      if exists i :: 0 <= i < |entries| && CountSolved(entries[i].result.value, start, end).Err? {
        var i :| 0 <= i < |entries| && CountSolved(entries[i].result.value, start, end).Err?;
        if i > 0 { assert rest[i - 1] == entries[i]; }
      }
    }
  }

  // ----- ranking -----

  predicate NonIncreasing(s: seq<Row>)
  {
    forall i, j :: 0 <= i < j < |s| ==> s[i].count >= s[j].count
  }

  /** Put a row in front of the first row whose count is not larger. */
  function InsertByCount(x: Row, s: seq<Row>): seq<Row>
  {
    if s == [] || s[0].count <= x.count then [x] + s
    else [s[0]] + InsertByCount(x, s[1..])
  }

  /** sorted(..., key=-count): descending by count, ties in dictionary order. */
  function RankByCount(rows: seq<Row>): seq<Row>
  {
    if rows == [] then [] else InsertByCount(rows[0], RankByCount(rows[1..]))
  }

  /** The rows with a given count, in their order. */
  function WithCount(s: seq<Row>, c: int): seq<Row>
  {
    Filter(s, (r: Row) => r.count == c)
  }

  lemma {:induction false} InsertByCountPermutes(x: Row, s: seq<Row>)
    ensures multiset(InsertByCount(x, s)) == multiset(s) + multiset{x}
  {
    if s != [] && s[0].count > x.count {
      InsertByCountPermutes(x, s[1..]);
      assert s == [s[0]] + s[1..];
    }
  }

  lemma {:induction false} InsertByCountSorted(x: Row, s: seq<Row>)
    requires NonIncreasing(s)
    ensures NonIncreasing(InsertByCount(x, s))
  {
    if s != [] && s[0].count > x.count {
      var t := InsertByCount(x, s[1..]);
      InsertByCountSorted(x, s[1..]);
      InsertByCountPermutes(x, s[1..]);
      forall j | 0 <= j < |t| ensures t[j].count <= s[0].count {
        var y := t[j];
        assert y in multiset(t);
        if y != x {
          assert y in multiset(s[1..]);
        }
      }
    }
  }

  lemma {:induction false} InsertByCountClasses(x: Row, s: seq<Row>, c: int)
    ensures WithCount(InsertByCount(x, s), c) == WithCount([x], c) + WithCount(s, c)
  {
    if s == [] || s[0].count <= x.count {
      FilterAppend([x], s, (r: Row) => r.count == c);
    } else {
      var t := InsertByCount(x, s[1..]);
      InsertByCountClasses(x, s[1..], c);
      assert s == [s[0]] + s[1..];
      FilterAppend([s[0]], t, (r: Row) => r.count == c);
      FilterAppend([s[0]], s[1..], (r: Row) => r.count == c);
      assert [x][1..] == [] && [s[0]][1..] == [];
    }
  }

  /**
   * The ranking is a permutation of the rows, in non-increasing count order,
   * and rows with equal counts keep their relative order (a stable sort).
   */
  lemma {:induction false} RankByCountSpec(rows: seq<Row>)
    ensures multiset(RankByCount(rows)) == multiset(rows)
    ensures NonIncreasing(RankByCount(rows))
    ensures forall c :: WithCount(RankByCount(rows), c) == WithCount(rows, c)
  {
    if rows != [] {
      RankByCountSpec(rows[1..]);
      InsertByCountPermutes(rows[0], RankByCount(rows[1..]));
      InsertByCountSorted(rows[0], RankByCount(rows[1..]));
      assert rows == [rows[0]] + rows[1..];
      forall c ensures WithCount(RankByCount(rows), c) == WithCount(rows, c) {
        InsertByCountClasses(rows[0], RankByCount(rows[1..]), c);
        FilterAppend([rows[0]], rows[1..], (r: Row) => r.count == c);
      }
    }
  }

  /**
   * The stable descending order is unique: two orderings that are both
   * non-increasing and agree on every count class are equal.
   */
  lemma {:induction false} StableRankUnique(a: seq<Row>, b: seq<Row>)
    requires NonIncreasing(a) && NonIncreasing(b)
    requires forall c :: WithCount(a, c) == WithCount(b, c)
    ensures a == b
    decreases |a| + |b|
  {
    if a == [] && b == [] {
    } else if a == [] {
      assert false;
    } else if b == [] {
      HeadOfClass(a);
      assert false;
    } else {
      HeadOfClass(a);
      HeadOfClass(b);
      var ca, cb := a[0].count, b[0].count;
      MemberOfClass(b, WithCount(a, ca)[0], ca);
      MemberOfClass(a, WithCount(b, cb)[0], cb);
      assert ca == cb;
      assert a[0] == b[0];
      forall c ensures WithCount(a[1..], c) == WithCount(b[1..], c) {
        assert a == [a[0]] + a[1..] && b == [b[0]] + b[1..];
        FilterAppend([a[0]], a[1..], (r: Row) => r.count == c);
        FilterAppend([b[0]], b[1..], (r: Row) => r.count == c);
        var x := WithCount([a[0]], c);
        assert WithCount(a[1..], c) == WithCount(a, c)[|x|..];
        assert WithCount(b[1..], c) == WithCount(b, c)[|x|..];
      }
      StableRankUnique(a[1..], b[1..]);
    }
  }

  lemma HeadOfClass(s: seq<Row>)
    requires s != []
    ensures WithCount(s, s[0].count) != [] && WithCount(s, s[0].count)[0] == s[0]
  {
  }

  /** A member of a count class of a non-increasing list has a count no larger than its head's. */
  lemma MemberOfClass(s: seq<Row>, y: Row, c: int)
    requires s != [] && NonIncreasing(s)
    requires y in multiset(WithCount(s, c))
    ensures y.count == c && c <= s[0].count
  {
    FilterKeeps(s, (r: Row) => r.count == c);
    assert y in multiset(s);
    var k :| 0 <= k < |s| && s[k] == y;
  }

  // ----- rendering -----

  /** The rows that get a line: those with a positive count. */
  function Listed(ranked: seq<Row>): seq<Row>
  {
    Filter(ranked, (r: Row) => r.count > 0)
  }

  function RenderLine(r: Row): string
  {
    r.handle + " solved " + NatToString(r.count) + " problems\n"
  }

  function RenderLines(rows: seq<Row>): string
  {
    if rows == [] then "" else RenderLine(rows[0]) + RenderLines(rows[1..])
  }

  /** A rendered line reads back: the handle, then the count in decimal, between fixed words. */
  lemma RenderLineReadsBack(r: Row)
    ensures var s := RenderLine(r);
            var h := |r.handle|;
            |s| >= h + 8 + 1 + 10
            && s[..h] == r.handle && s[h..h + 8] == " solved "
            && s[|s| - 10..] == " problems\n"
            && AllDigits(s[h + 8..|s| - 10]) && DigitsValue(s[h + 8..|s| - 10]) == r.count
  {
    var d := NatToString(r.count);
    var s := RenderLine(r);
    var h := |r.handle|;
    assert s == r.handle + " solved " + d + " problems\n";
    assert s[h + 8..|s| - 10] == d;
    NatToStringValue(r.count);
  }

  /**
   * The listed rows are exactly the rows with a positive count, each once per
   * occurrence, and they come in non-increasing order of count.
   */
  lemma ListedRanking(rows: seq<Row>)
    ensures var l := Listed(RankByCount(rows));
            NonIncreasing(l)
            && (forall i :: 0 <= i < |l| ==> l[i].count > 0)
            && multiset(l) == multiset(Filter(rows, (r: Row) => r.count > 0))
  {
    var ranked := RankByCount(rows);
    RankByCountSpec(rows);
    var p := (r: Row) => r.count > 0;
    FilterKeeps(ranked, p);
    ListedPermutes(ranked, rows);
    ListedSorted(ranked);
  }

  /** Listing two permutations of each other gives permutations of each other. */
  lemma ListedPermutes(a: seq<Row>, b: seq<Row>)
    requires multiset(a) == multiset(b)
    ensures multiset(Listed(a)) == multiset(Filter(b, (r: Row) => r.count > 0))
  {
    var p := (r: Row) => r.count > 0;
    FilterKeeps(a, p);
    FilterKeeps(b, p);
    forall x ensures multiset(Listed(a))[x] == multiset(Filter(b, p))[x] { }
  }

  lemma {:induction false} ListedBounded(s: seq<Row>, b: int)
    requires forall i :: 0 <= i < |s| ==> s[i].count <= b
    ensures forall i :: 0 <= i < |Listed(s)| ==> Listed(s)[i].count <= b
  {
    if s != [] {
      ListedBounded(s[1..], b);
      assert Listed(s) == (if s[0].count > 0 then [s[0]] else []) + Listed(s[1..]);
    }
  }

  lemma {:induction false} ListedSorted(s: seq<Row>)
    requires NonIncreasing(s)
    ensures NonIncreasing(Listed(s))
  {
    if s != [] {
      var rest := Listed(s[1..]);
      ListedSorted(s[1..]);
      if s[0].count > 0 {
        ListedBounded(s[1..], s[0].count);
        var l := [s[0]] + rest;
        assert Listed(s) == l;
        forall i, j | 0 <= i < j < |l| ensures l[i].count >= l[j].count {
          if i > 0 { assert l[i] == rest[i - 1] && l[j] == rest[j - 1]; }
          else { assert l[j] == rest[j - 1]; }
        }
      } else {
        assert Listed(s) == [] + rest;
        assert [] + rest == rest;
      }
    }
  }

  // ----- the command -----

  const MonthAbbreviations: seq<string> :=
    ["Jan", "Feb", "Mar", "Apr", "May", "Jun", "Jul", "Aug", "Sep", "Oct", "Nov", "Dec"]

  /** strftime("%d %b") in the C locale. */
  function DayMonth(d: Date): (s: string)
    requires ValidDate(d)
    ensures |s| == 6 && IsDigit(s[0]) && IsDigit(s[1]) && s[2] == ' '
    ensures 10 * DigitValue(s[0]) + DigitValue(s[1]) == d.day
    ensures s[3..] == MonthAbbreviations[d.month - 1]
  {
    Pad2(d.day) + " " + MonthAbbreviations[d.month - 1]
  }

  function Header(d: Date, start12: string, end12: string): string
    requires ValidDate(d)
  {
    "**__Solved count for " + DayMonth(d) + ": " + start12 + " - " + end12 + "__**\n\n"
  }

  /** The window as Unix instants: the start time, then the end time, on the given date. */
  function Window(startStr: string, endStr: string, today: Date): Result<(int, int), ReportError>
  {
    match ConvertToUnixTime(startStr, today)
    case Err(e) => Err(BadTime(e))
    case Ok(startUnix) =>
      match ConvertToUnixTime(endStr, today)
      case Err(e) => Err(BadTime(e))
      case Ok(endUnix) => Ok((startUnix, endUnix))
  }

  /** The message for the tallied rows: the header with both times in 12-hour form, then the ranking. */
  function Message(startStr: string, endStr: string, headerDate: Date, rows: seq<Row>): Result<string, ReportError>
    requires ValidDate(headerDate)
  {
    match ConvertTo12hFormat(startStr)
    case Err(e) => Err(BadTime(e))
    case Ok(start12) =>
      match ConvertTo12hFormat(endStr)
      case Err(e) => Err(BadTime(e))
      case Ok(end12) => Ok(Header(headerDate, start12, end12) + RenderLines(Listed(RankByCount(rows))))
  }

  /**
   * The solved command. `today` is the date the window is laid on, `headerDate`
   * the date printed in the header (today at UTC+6). Failures surface in the
   * order the command meets them: the start and end times as Unix instants,
   * the counting, then the start and end times in 12-hour form.
   */
  function SolvedCommand(startStr: string, endStr: string, today: Date, headerDate: Date, fetches: seq<Fetch>)
    : Result<string, ReportError>
    requires ValidDate(headerDate)
  {
    match Window(startStr, endStr, today)
    case Err(e) => Err(e)
    case Ok(w) =>
      match Tally(Filter(Collect(fetches), Answered), w.0, w.1)
      case Err(e) => Err(e)
      case Ok(rows) => Message(startStr, endStr, headerDate, rows)
  }

  /**
   * A start time with leading whitespace passes the Unix conversion but not
   * the 12-hour one. The command fails; when the window and the tally both
   * succeed, the failure is the 12-hour conversion's ValueError, raised
   * after all users were fetched and counted.
   */
  lemma LeadingSpaceFailsLate(ws: string, startStr: string, endStr: string, today: Date, headerDate: Date,
                              fetches: seq<Fetch>)
    requires ValidDate(headerDate)
    requires ws != [] && forall i :: 0 <= i < |ws| ==> IsSpace(ws[i])
    ensures SolvedCommand(ws + startStr, endStr, today, headerDate, fetches).Err?
    ensures ConvertToUnixTime(ws + startStr, today) == ConvertToUnixTime(startStr, today)
    ensures var w := Window(ws + startStr, endStr, today);
            w.Ok? && Tally(Filter(Collect(fetches), Answered), w.value.0, w.value.1).Ok?
            ==> SolvedCommand(ws + startStr, endStr, today, headerDate, fetches) == Err(BadTime(InvalidFormat))
  {
    LeadingSpaceSkipped(ws, startStr, today);
    LeadingSpaceRejected(ws, startStr);
    Bad12hStartFails(ws + startStr, endStr, today, headerDate, fetches);
  }

  /** A start time the 12-hour conversion rejects fails the command, whatever else happens. */
  lemma Bad12hStartFails(startStr: string, endStr: string, today: Date, headerDate: Date, fetches: seq<Fetch>)
    requires ValidDate(headerDate)
    requires ConvertTo12hFormat(startStr).Err?
    ensures SolvedCommand(startStr, endStr, today, headerDate, fetches).Err?
  {
  }

  /**
   * What a successful report says: the header with both times in 12-hour
   * form, then one line per answered user with a positive count, in
   * non-increasing order of count, each count being that user's own count.
   */
  lemma SolvedCommandReport(startStr: string, endStr: string, today: Date, headerDate: Date, fetches: seq<Fetch>)
    requires ValidDate(headerDate)
    ensures var r := SolvedCommand(startStr, endStr, today, headerDate, fetches);
            var w := Window(startStr, endStr, today);
            var answered := Filter(Collect(fetches), Answered);
            r.Ok? ==>
              w.Ok? && Tally(answered, w.value.0, w.value.1).Ok?
              && var l := Listed(RankByCount(Tally(answered, w.value.0, w.value.1).value));
                 ConvertTo12hFormat(startStr).Ok? && ConvertTo12hFormat(endStr).Ok?
                 && r.value == Header(headerDate, ConvertTo12hFormat(startStr).value, ConvertTo12hFormat(endStr).value)
                               + RenderLines(l)
                 && NonIncreasing(l)
                 && forall i :: 0 <= i < |l| ==>
                      l[i].count > 0 && ListedFrom(answered, l[i], w.value.0, w.value.1)
  {
    var r := SolvedCommand(startStr, endStr, today, headerDate, fetches);
    var w := Window(startStr, endStr, today);
    if r.Ok? {
      var answered := Filter(Collect(fetches), Answered);
      var rows := Tally(answered, w.value.0, w.value.1).value;
      RowsFromAnswered(answered, w.value.0, w.value.1);
      ListedRanking(rows);
    }
  }

  /** The row is some answered user's: same id and handle, and the count is that user's count. */
  predicate ListedFrom(answered: seq<Fetch>, row: Row, start: int, end: int)
  {
    exists k :: 0 <= k < |answered| && answered[k].id == row.id && answered[k].handle == row.handle
                && answered[k].result.Some?
                && CountSolved(answered[k].result.value, start, end) == Ok(row.count)
  }

  /** Every listed row of a successful tally belongs to an answered user. */
  lemma RowsFromAnswered(answered: seq<Fetch>, start: int, end: int)
    requires forall i :: 0 <= i < |answered| ==> Answered(answered[i])
    requires Tally(answered, start, end).Ok?
    ensures var l := Listed(RankByCount(Tally(answered, start, end).value));
            forall i :: 0 <= i < |l| ==> ListedFrom(answered, l[i], start, end)
  {
    var rows := Tally(answered, start, end).value;
    TallySpec(answered, start, end);
    RankByCountSpec(rows);
    var l := Listed(RankByCount(rows));
    FilterKeeps(RankByCount(rows), (r: Row) => r.count > 0);
    forall i | 0 <= i < |l| ensures ListedFrom(answered, l[i], start, end) {
      assert l[i] in multiset(l);
      assert l[i] in multiset(rows);
      var k :| 0 <= k < |rows| && rows[k] == l[i];
      assert answered[k].id == l[i].id;
    }
  }
}
