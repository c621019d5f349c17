/**
 * The polling monitor of the solved cog (check_for_updates in
 * tle/cogs/solved.py). Every cycle visits the linked users in turn; for each
 * one whose submissions could be fetched it picks the new accepted or partial
 * submissions (the candidates), builds three embed fields per submission
 * worth announcing, and, when there was any candidate at all, sends the embed
 * and moves the user's watermark to the instant the cycle captured.
 */
module Monitor {
  import opened Wrappers
  import opened Text
  import opened Seqs
  import opened Codeforces

  type UserId = int

  /**
   * Why a cycle stops early: a KeyError reading "verdict" or "points" of a
   * submission, or a linked member the bot cannot look up (the author line
   * reads the member's avatar).
   */
  datatype Failure = MissingVerdict | MissingPoints | UnknownMember

  datatype Field = Field(name: string, value: string)

  /** The embed sent to the notification channel: author handle, fields, timestamp. */
  datatype Embed = Embed(author: string, fields: seq<Field>, timestamp: int)

  predicate IsNew(prevTime: int, s: Submission) { s.creationTimeSeconds > prevTime }

  predicate IsCandidate(prevTime: int, s: Submission)
  {
    IsNew(prevTime, s) && AcceptedOrPartial(s)
  }

  /** A new submission still in the queue: reading its verdict raises KeyError. */
  predicate MissingVerdictAfter(subs: seq<Submission>, prevTime: int)
  {
    exists i :: 0 <= i < |subs| && IsNew(prevTime, subs[i]) && subs[i].verdict.None?
  }

  /** The candidate list: new submissions whose verdict is OK or PARTIAL, in API order. */
  function Candidates(subs: seq<Submission>, prevTime: int): Result<seq<Submission>, Failure>
  {
    if MissingVerdictAfter(subs, prevTime) then Err(MissingVerdict)
    else Ok(Filter(subs, s => IsCandidate(prevTime, s)))
  }

  /** The candidates are exactly the new OK/PARTIAL submissions, each as often as fetched, in fetched order. */
  lemma CandidatesExact(subs: seq<Submission>, prevTime: int)
    ensures Candidates(subs, prevTime).Err? <==> MissingVerdictAfter(subs, prevTime)
    ensures var r := Candidates(subs, prevTime);
            r.Ok? ==> IsSubsequence(r.value, subs)
                      && forall x :: multiset(r.value)[x] == if IsCandidate(prevTime, x) then multiset(subs)[x] else 0
  {
    FilterKeeps(subs, s => IsCandidate(prevTime, s));
  }

  /** A candidate is announced unless it is a PARTIAL worth no points. */
  predicate Announced(s: Submission)
  {
    (HasVerdict(s, "OK") || HasVerdict(s, "PARTIAL"))
    && PointsReadable(s) && (HasVerdict(s, "PARTIAL") ==> s.points.value > 0)
  }

  /** p["points"] is read only for a partial verdict. */
  predicate PointsReadable(s: Submission)
  {
    HasVerdict(s, "PARTIAL") ==> s.points.Some?
  }

  predicate MissingPointsIn(problems: seq<Submission>)
  {
    exists i :: 0 <= i < |problems| && !PointsReadable(problems[i])
  }

  /**
   * The "Solved" value: the problem link, and for a partial verdict the points
   * earned. The field loop never builds it for a partial without points: that
   * raises KeyError first (see EmbedFields).
   */
  function SolvedValue(s: Submission): string
  {
    ProblemLink(s.problem)
    + (if HasVerdict(s, "PARTIAL") && s.points.Some? then PointsNote(s.points.value) else "")
  }

  /** " (<n> points)", the note after a partial solve. */
  function PointsNote(n: int): string
  {
    " (" + IntToString(n) + " points)"
  }

  /** The note reads back: " (", the points in decimal (after a minus sign if negative), " points)". */
  lemma PointsNoteReadsBack(n: int)
    ensures var t := PointsNote(n);
            |t| >= 11 && t[..2] == " (" && t[|t| - 8..] == " points)" && ReadsAsInt(t[2..|t| - 8], n)
  {
    var t := PointsNote(n);
    IntToStringReadsBack(n);
    assert t[2..|t| - 8] == IntToString(n);
  }

  /**
   * The Solved value reads back: it starts with the problem link; an OK
   * submission shows the link alone; a partial one adds " (", the points in
   * decimal (after a minus sign if negative) and " points)".
   */
  lemma SolvedValueReadsBack(s: Submission)
    ensures var v := SolvedValue(s);
            var link := ProblemLink(s.problem);
            var k := |link|;
            |v| >= k && v[..k] == link
            && (!(HasVerdict(s, "PARTIAL") && s.points.Some?) ==> v == link)
            && (HasVerdict(s, "PARTIAL") && s.points.Some? ==>
                  |v| >= k + 11 && v[k..k + 2] == " (" && v[|v| - 8..] == " points)"
                  && ReadsAsInt(v[k + 2..|v| - 8], s.points.value))
  {
    var link := ProblemLink(s.problem);
    if HasVerdict(s, "PARTIAL") && s.points.Some? {
      var note := PointsNote(s.points.value);
      assert SolvedValue(s) == link + note;
      PointsNoteReadsBack(s.points.value);
      NoteAfterLink(link, note, s.points.value);
    } else {
      assert SolvedValue(s) == link + "";
    }
  }

  /** A points note read back from behind any link. */
  lemma NoteAfterLink(link: string, t: string, n: int)
    requires |t| >= 11 && t[..2] == " (" && t[|t| - 8..] == " points)" && ReadsAsInt(t[2..|t| - 8], n)
    ensures var v := link + t;
            var k := |link|;
            |v| >= k + 11 && v[..k] == link && v[k..k + 2] == " (" && v[|v| - 8..] == " points)"
            && ReadsAsInt(v[k + 2..|v| - 8], n)
  {
    SliceAfter(link, t, 0, 2);
    SliceAfter(link, t, |t| - 8, |t|);
    SliceAfter(link, t, 2, |t| - 8);
    assert (link + t)[..|link|] == link;
  }

  function RatingValue(p: Problem): (v: string)
    ensures p.rating.None? <==> v == "XXXX"
    ensures p.rating.Some? ==> ReadsAsInt(v, p.rating.value)
  {
    match p.rating
    case Some(r) => IntToStringReadsBack(r); IntToString(r)
    case None => "XXXX"
  }

  function TagsValue(p: Problem): string
  {
    var t := Join(p.tags, ", ");
    if t == "" then "None" else t
  }

  /** The tag list prints as "None" when the problem has no tags (or a single empty one). */
  lemma TagsValueNone(p: Problem)
    ensures p.tags == [] || p.tags == [""] ==> TagsValue(p) == "None"
    ensures TagsValue(p) == "None" ==> p.tags == [] || p.tags == [""] || Join(p.tags, ", ") == "None"
  {
    JoinEmpty(p.tags, ", ");
  }

  /** The three fields one announced submission adds, in the order they are added. */
  function SubmissionFields(s: Submission): (f: seq<Field>)
    ensures |f| == 3 && f[0].name == "Solved" && f[1].name == "Rating" && f[2].name == "Tags"
    ensures f[0].value == SolvedValue(s) && f[1].value == RatingValue(s.problem) && f[2].value == TagsValue(s.problem)
  {
    [Field("Solved", SolvedValue(s)), Field("Rating", RatingValue(s.problem)), Field("Tags", TagsValue(s.problem))]
  }

  /**
   * What the field loop leaves in the embed after the given candidates:
   * zero-point partials are skipped; a partial without points raises KeyError.
   */
  function EmbedFields(problems: seq<Submission>): Result<seq<Field>, Failure>
  {
    if problems == [] then Ok([])
    else
      var p := problems[|problems| - 1];
      match EmbedFields(problems[..|problems| - 1])
      case Err(e) => Err(e)
      case Ok(f) =>
        if !PointsReadable(p) then Err(MissingPoints)
        else if HasVerdict(p, "PARTIAL") && p.points.value <= 0 then Ok(f)
        else Ok(f + SubmissionFields(p))
  }

  /** The fields of a list of announced submissions, three per submission. */
  function FieldsOf(ns: seq<Submission>): (f: seq<Field>)
    ensures |f| == 3 * |ns|
  {
    if ns == [] then [] else FieldsOf(ns[..|ns| - 1]) + SubmissionFields(ns[|ns| - 1])
  }

  /** Fields 3k, 3k+1 and 3k+2 of the list are the given three, in order. */
  predicate BlockAt(fields: seq<Field>, k: nat, block: seq<Field>)
    requires |block| == 3 && 3 * k + 3 <= |fields|
  {
    fields[3 * k] == block[0] && fields[3 * k + 1] == block[1] && fields[3 * k + 2] == block[2]
  }

  /** Submission k of the list owns fields 3k, 3k+1 and 3k+2: Solved, Rating, Tags. */
  lemma {:induction false} FieldsOfAt(ns: seq<Submission>, k: nat)
    requires k < |ns|
    ensures BlockAt(FieldsOf(ns), k, SubmissionFields(ns[k]))
    decreases |ns|
  {
    if k < |ns| - 1 {
      FieldsOfAt(ns[..|ns| - 1], k);
      assert ns[..|ns| - 1][k] == ns[k];
      FieldsOfGrow(ns, k, SubmissionFields(ns[k]));
    } else {
      FieldsOfUnfold(ns);
      BlockAtEnd(FieldsOf(ns[..|ns| - 1]), SubmissionFields(ns[|ns| - 1]), |ns| - 1);
    }
  }

  /** Appending a submission leaves the earlier blocks where they were. */
  lemma FieldsOfGrow(ns: seq<Submission>, k: nat, block: seq<Field>)
    requires k < |ns| - 1 && |block| == 3
    ensures BlockAt(FieldsOf(ns[..|ns| - 1]), k, block) ==> BlockAt(FieldsOf(ns), k, block)
  {
    FieldsOfUnfold(ns);
    if BlockAt(FieldsOf(ns[..|ns| - 1]), k, block) {
      BlockAtAppend(FieldsOf(ns[..|ns| - 1]), SubmissionFields(ns[|ns| - 1]), k, block);
    }
  }

  lemma FieldsOfUnfold(ns: seq<Submission>)
    requires ns != []
    ensures FieldsOf(ns) == FieldsOf(ns[..|ns| - 1]) + SubmissionFields(ns[|ns| - 1])
  {
  }

  lemma BlockAtAppend(init: seq<Field>, last: seq<Field>, k: nat, block: seq<Field>)
    requires |block| == 3 && 3 * k + 3 <= |init| && BlockAt(init, k, block)
    ensures BlockAt(init + last, k, block)
  {
  }

  lemma BlockAtEnd(init: seq<Field>, last: seq<Field>, k: nat)
    requires |last| == 3 && |init| == 3 * k
    ensures BlockAt(init + last, k, last)
  {
  }

  predicate AcceptedOrPartial(s: Submission) { HasVerdict(s, "OK") || HasVerdict(s, "PARTIAL") }

  function AnnouncedOf(problems: seq<Submission>): (ns: seq<Submission>)
    ensures forall i :: 0 <= i < |ns| ==> Announced(ns[i]) && PointsReadable(ns[i])
  {
    Filter(problems, Announced)
  }

  /**
   * The submissions that get fields are exactly the new ones worth
   * announcing, in API order: new, accepted or a partial with positive points.
   */
  lemma AnnouncedExactly(subs: seq<Submission>, prevTime: int)
    requires Candidates(subs, prevTime).Ok?
    ensures AnnouncedOf(Candidates(subs, prevTime).value) == Filter(subs, s => IsNew(prevTime, s) && Announced(s))
  {
    FilterFilter(subs, s => IsCandidate(prevTime, s), Announced, s => IsNew(prevTime, s) && Announced(s));
  }

  lemma {:induction false} EmbedFieldsAnnounced(problems: seq<Submission>)
    requires forall i :: 0 <= i < |problems| ==> AcceptedOrPartial(problems[i])
    ensures EmbedFields(problems).Err? <==> MissingPointsIn(problems)
    ensures !MissingPointsIn(problems) ==> EmbedFields(problems) == Ok(FieldsOf(AnnouncedOf(problems)))
  {
    if problems != [] {
      var n := |problems| - 1;
      var init, p := problems[..n], problems[n];
      assert problems == init + [p];
      EmbedFieldsAnnounced(init);
      MissingPointsSplit(problems);
      if !MissingPointsIn(problems) {
        AnnouncedAppend(init, p);
        assert AcceptedOrPartial(p);
        var f := FieldsOf(AnnouncedOf(init));
        assert EmbedFields(init) == Ok(f);
        if HasVerdict(p, "PARTIAL") && p.points.value <= 0 {
          assert !Announced(p);
          assert EmbedFields(problems) == Ok(f);
          assert f + [] == f;
        } else {
          assert Announced(p);
          assert EmbedFields(problems) == Ok(f + SubmissionFields(p));
        }
      }
    }
  }

  lemma MissingPointsSplit(problems: seq<Submission>)
    requires problems != []
    ensures var n := |problems| - 1;
            MissingPointsIn(problems)
            <==> (MissingPointsIn(problems[..n]) || !PointsReadable(problems[n]))
  {
    var n := |problems| - 1;
    if MissingPointsIn(problems[..n]) {
      var i :| 0 <= i < n && !PointsReadable(problems[..n][i]);
      assert problems[i] == problems[..n][i];
    }
    if MissingPointsIn(problems) {
      var i :| 0 <= i < |problems| && !PointsReadable(problems[i]);
      if i < n { assert problems[..n][i] == problems[i]; }
    }
  }

  lemma AnnouncedAppend(init: seq<Submission>, p: Submission)
    ensures FieldsOf(AnnouncedOf(init + [p]))
            == FieldsOf(AnnouncedOf(init)) + (if Announced(p) then SubmissionFields(p) else [])
  {
    FilterAppend(init, [p], Announced);
    var ns := Filter(init, Announced);
    if Announced(p) {
      assert Filter(init + [p], Announced) == ns + [p];
      assert (ns + [p])[..|ns|] == ns;
    } else {
      assert Filter(init + [p], Announced) == ns;
    }
  }

  /** The field loop over the candidates: three fields per announced submission, in order. */
  method BuildEmbedFields(problems: seq<Submission>) returns (r: Result<seq<Field>, Failure>)
    ensures r == EmbedFields(problems)
  {
    var fields: seq<Field> := [];
    var i := 0;
    while i < |problems|
      invariant 0 <= i <= |problems|
      invariant EmbedFields(problems[..i]) == Ok(fields)
    {
      var p := problems[i];
      assert problems[..i + 1][..i] == problems[..i];
      if !PointsReadable(p) {
        EmbedFieldsErrorPersists(problems, i + 1);
        return Err(MissingPoints);
      }
      if !(HasVerdict(p, "PARTIAL") && p.points.value <= 0) {
        fields := fields + SubmissionFields(p);
      }
      i := i + 1;
    }
    assert problems[..i] == problems;
    r := Ok(fields);
  }

  /** Once the field loop has raised, the later candidates cannot undo it. */
  lemma {:induction false} EmbedFieldsErrorPersists(problems: seq<Submission>, j: nat)
    requires j <= |problems| && EmbedFields(problems[..j]).Err?
    ensures EmbedFields(problems) == EmbedFields(problems[..j])
    decreases |problems| - j
  {
    if j < |problems| {
      assert problems[..j + 1][..j] == problems[..j];
      EmbedFieldsErrorPersists(problems, j + 1);
    } else {
      assert problems[..j] == problems;
    }
  }

  /**
   * One user's turn: the embed to send, if any. The send is gated on the
   * candidate list, not on the fields, so candidates that are all zero-point
   * partials still produce an (empty) embed.
   */
  function PollUser(handle: string, memberKnown: bool, subs: seq<Submission>, prevTime: int, now: int)
    : Result<Option<Embed>, Failure>
  {
    match Candidates(subs, prevTime)
    case Err(e) => Err(e)
    case Ok(problems) =>
      match EmbedFields(problems)
      case Err(e) => Err(e)
      case Ok(fields) =>
        if problems == [] then Ok(None)
        else if !memberKnown then Err(UnknownMember)
        else Ok(Some(Embed(handle, fields, now)))
  }

  /**
   * What the monitor knows of one linked user in one cycle: the member id and
   * handle, whether the bot could look the member up, the fetch result (None
   * for a non-200 response) and the instant captured after the fetch.
   */
  datatype PollInput = PollInput(id: UserId, handle: string, memberKnown: bool,
                                 fetch: Option<seq<Submission>>, captureTime: int)

  /** The watermark store's view of a user; one never polled reads as 0. */
  function Mark(marks: map<UserId, int>, id: UserId): int
  {
    if id in marks then marks[id] else 0
  }

  datatype CycleResult = CycleResult(sent: seq<Embed>, failure: Option<Failure>, marks: map<UserId, int>)

  /**
   * A whole cycle: users whose fetch failed are skipped, a failure ends the
   * cycle with nothing more sent or stored, and every sent embed moves its
   * user's watermark to the capture instant.
   */
  function Cycle(marks: map<UserId, int>, users: seq<PollInput>): CycleResult
    decreases |users|
  {
    if users == [] then CycleResult([], None, marks)
    else
      var u := users[0];
      if u.fetch.None? then Cycle(marks, users[1..])
      else match PollUser(u.handle, u.memberKnown, u.fetch.value, Mark(marks, u.id), u.captureTime)
        case Err(e) => CycleResult([], Some(e), marks)
        case Ok(None) => Cycle(marks, users[1..])
        case Ok(Some(embed)) =>
          var rest := Cycle(marks[u.id := u.captureTime], users[1..]);
          CycleResult([embed] + rest.sent, rest.failure, rest.marks)
  }

  /** The external user store, reduced to its per-user watermark. */
  class UserDb {
    var lastSolved: map<UserId, int>

    constructor (marks: map<UserId, int>)
      ensures lastSolved == marks
    {
      lastSolved := marks;
    }

    function LastSolvedTime(id: UserId): (t: int)
      reads this
      ensures id in lastSolved ==> t == lastSolved[id]
      ensures id !in lastSolved ==> t == 0
    {
      Mark(lastSolved, id)
    }

    method UpdateLastSolvedTime(id: UserId, t: int)
      modifies this
      ensures lastSolved == old(lastSolved)[id := t]
    {
      lastSolved := lastSolved[id := t];
    }
  }

  /** check_for_updates: one cycle over the linked users of every guild, in order. */
  method CheckForUpdates(db: UserDb, users: seq<PollInput>) returns (sent: seq<Embed>, failure: Option<Failure>)
    modifies db
    ensures CycleResult(sent, failure, db.lastSolved) == Cycle(old(db.lastSolved), users)
  {
    sent, failure := [], None;
    var i := 0;
    while i < |users|
      invariant 0 <= i <= |users|
      invariant var rest := Cycle(db.lastSolved, users[i..]);
                Cycle(old(db.lastSolved), users) == CycleResult(sent + rest.sent, rest.failure, rest.marks)
    {
      var u := users[i];
      assert users[i..][1..] == users[i + 1..];
      if u.fetch.Some? {
        var prevTime := db.LastSolvedTime(u.id);
        var now := u.captureTime;
        var problems := Candidates(u.fetch.value, prevTime);
        if problems.Err? {
          failure := Some(problems.error);
          return;
        }
        var fields := BuildEmbedFields(problems.value);
        if fields.Err? {
          failure := Some(fields.error);
          return;
        }
        if problems.value != [] {
          if !u.memberKnown {
            failure := Some(UnknownMember);
            return;
          }
          sent := sent + [Embed(u.handle, fields.value, now)];
          db.UpdateLastSolvedTime(u.id, now);
        }
      }
      i := i + 1;
    }
  }

  /**
   * One user's turn in full. A KeyError or an unknown member ends the cycle
   * with nothing sent or stored; otherwise the embed carries the fields of the
   * announced candidates, and it is sent, and the watermark moved to the
   * capture instant, exactly when the candidate list is non-empty.
   */
  lemma PollOneUser(marks: map<UserId, int>, u: PollInput)
    requires u.fetch.Some?
    ensures var c := Candidates(u.fetch.value, Mark(marks, u.id));
            var r := Cycle(marks, [u]);
            (c.Err? ==> r == CycleResult([], Some(MissingVerdict), marks))
            && (c.Ok? && MissingPointsIn(c.value) ==> r == CycleResult([], Some(MissingPoints), marks))
            && (c.Ok? && !MissingPointsIn(c.value) && c.value != [] && !u.memberKnown
                ==> r == CycleResult([], Some(UnknownMember), marks))
            && (c.Ok? && !MissingPointsIn(c.value) && c.value == [] ==> r == CycleResult([], None, marks))
            && (c.Ok? && !MissingPointsIn(c.value) && c.value != [] && u.memberKnown
                ==> r == CycleResult([Embed(u.handle, FieldsOf(AnnouncedOf(c.value)), u.captureTime)], None,
                                     marks[u.id := u.captureTime]))
  {
    var prev := Mark(marks, u.id);
    var c := Candidates(u.fetch.value, prev);
    assert [u][1..] == [];
    if c.Ok? {
      CandidatesAcceptedOrPartial(u.fetch.value, prev);
      EmbedFieldsAnnounced(c.value);
      EmbedFieldsOnlyMissingPoints(c.value);
      if !MissingPointsIn(c.value) && c.value != [] && u.memberKnown {
        var e := Embed(u.handle, FieldsOf(AnnouncedOf(c.value)), u.captureTime);
        assert PollUser(u.handle, u.memberKnown, u.fetch.value, prev, u.captureTime) == Ok(Some(e));
        var rest := Cycle(marks[u.id := u.captureTime], []);
        assert [e] + rest.sent == [e];
      }
    }
  }

  /** The field loop can only fail on a partial without points. */
  lemma {:induction false} EmbedFieldsOnlyMissingPoints(problems: seq<Submission>)
    ensures EmbedFields(problems).Err? ==> EmbedFields(problems).error == MissingPoints
  {
    if problems != [] {
      EmbedFieldsOnlyMissingPoints(problems[..|problems| - 1]);
    }
  }

  lemma CandidatesAcceptedOrPartial(subs: seq<Submission>, prevTime: int)
    requires Candidates(subs, prevTime).Ok?
    ensures var c := Candidates(subs, prevTime).value;
            forall i :: 0 <= i < |c| ==> AcceptedOrPartial(c[i]) && IsNew(prevTime, c[i])
  {
    var c := Candidates(subs, prevTime).value;
    forall i | 0 <= i < |c| ensures AcceptedOrPartial(c[i]) && IsNew(prevTime, c[i]) {
      assert (s => IsCandidate(prevTime, s))(c[i]);
    }
  }

  /**
   * The watermark gate looks at the candidates, not at the fields: when every
   * candidate is a partial worth no points, an embed without fields is still
   * sent and the watermark still moves.
   */
  lemma ZeroPointPartialsStillAdvance(marks: map<UserId, int>, u: PollInput)
    requires u.fetch.Some? && u.memberKnown
    requires var c := Candidates(u.fetch.value, Mark(marks, u.id));
             c.Ok? && c.value != []
             && forall i :: 0 <= i < |c.value| ==> HasVerdict(c.value[i], "PARTIAL") && c.value[i].points.Some?
                                                   && c.value[i].points.value <= 0
    ensures Cycle(marks, [u]) == CycleResult([Embed(u.handle, [], u.captureTime)], None, marks[u.id := u.captureTime])
  {
    var c := Candidates(u.fetch.value, Mark(marks, u.id));
    PollOneUser(marks, u);
    FilterNone(c.value, Announced);
  }

  /** No fetched submission is newer than the stored watermark: nothing is sent, nothing changes. */
  lemma {:induction false} NothingNewIsQuiet(marks: map<UserId, int>, u: PollInput)
    requires u.fetch.Some?
    requires forall i :: 0 <= i < |u.fetch.value| ==> u.fetch.value[i].creationTimeSeconds <= Mark(marks, u.id)
    ensures Cycle(marks, [u]) == CycleResult([], None, marks)
  {
    var prev := Mark(marks, u.id);
    FilterNone(u.fetch.value, s => IsCandidate(prev, s));
    PollOneUser(marks, u);
  }

  /**
   * A second pass over the same submissions, all created no later than the
   * first pass's capture instant, sends nothing and stores nothing, whether
   * or not the first pass moved the watermark.
   */
  lemma SecondPassIsQuiet(marks: map<UserId, int>, u: PollInput, captureTime: int)
    requires u.fetch.Some?
    requires forall i :: 0 <= i < |u.fetch.value| ==> u.fetch.value[i].creationTimeSeconds <= u.captureTime
    requires Cycle(marks, [u]).failure.None?
    ensures var after := Cycle(marks, [u]).marks;
            Cycle(after, [u.(captureTime := captureTime)]) == CycleResult([], None, after)
  {
    PollOneUser(marks, u);
    var after := Cycle(marks, [u]).marks;
    var prev := Mark(marks, u.id);
    var c := Candidates(u.fetch.value, prev);
    var v := u.(captureTime := captureTime);
    if c.value == [] {
      PollOneUser(marks, v);
    } else {
      NothingNewIsQuiet(after, v);
    }
  }

  predicate Fetched(u: PollInput) { u.fetch.Some? }

  /** A user whose fetch failed is skipped: the cycle goes on as if the user were not linked. */
  lemma {:induction false} FailedFetchesSkipped(marks: map<UserId, int>, users: seq<PollInput>)
    ensures Cycle(marks, users) == Cycle(marks, Filter(users, Fetched))
    decreases |users|
  {
    if users != [] {
      var u := users[0];
      if u.fetch.None? {
        FailedFetchesSkipped(marks, users[1..]);
        var tail := Filter(users[1..], Fetched);
        assert !Fetched(users[0]);
        assert Filter(users, Fetched) == [] + tail;
        assert [] + tail == tail;
        assert Cycle(marks, users) == Cycle(marks, users[1..]);
      } else {
        var kept := Filter(users, Fetched);
        assert kept[0] == u && kept[1..] == Filter(users[1..], Fetched);
        match PollUser(u.handle, u.memberKnown, u.fetch.value, Mark(marks, u.id), u.captureTime)
        case Err(_) =>
        case Ok(None) =>
          FailedFetchesSkipped(marks, users[1..]);
        case Ok(Some(_)) =>
          FailedFetchesSkipped(marks[u.id := u.captureTime], users[1..]);
      }
    }
  }

  /**
   * Watermarks are only ever set to capture instants: after a cycle every
   * user's watermark is its old value or the capture instant of one of that
   * user's turns, never a submission's creation time.
   */
  lemma {:induction false} MarksComeFromCaptures(marks: map<UserId, int>, users: seq<PollInput>)
    ensures var after := Cycle(marks, users).marks;
            marks.Keys <= after.Keys
            && forall id :: id in after ==>
                 (id in marks && after[id] == marks[id])
                 || exists i :: 0 <= i < |users| && users[i].id == id && after[id] == users[i].captureTime
    decreases |users|
  {
    if users != [] {
      var u := users[0];
      var after := Cycle(marks, users).marks;
      if u.fetch.Some? {
        match PollUser(u.handle, u.memberKnown, u.fetch.value, Mark(marks, u.id), u.captureTime)
        case Err(_) =>
        case Ok(None) =>
          MarksComeFromCaptures(marks, users[1..]);
          CapturesOfTail(marks, users, after);
        case Ok(Some(_)) =>
          var m := marks[u.id := u.captureTime];
          MarksComeFromCaptures(m, users[1..]);
          forall id | id in after
            ensures (id in marks && after[id] == marks[id])
                    || exists i :: 0 <= i < |users| && users[i].id == id && after[id] == users[i].captureTime
          {
            if id in m && after[id] == m[id] {
              if id == u.id { assert users[0].id == id; }
            } else {
              var i :| 0 <= i < |users[1..]| && users[1..][i].id == id && after[id] == users[1..][i].captureTime;
              assert users[i + 1] == users[1..][i];
            }
          }
      } else {
        MarksComeFromCaptures(marks, users[1..]);
        CapturesOfTail(marks, users, after);
      }
    }
  }

  lemma CapturesOfTail(marks: map<UserId, int>, users: seq<PollInput>, after: map<UserId, int>)
    requires users != []
    requires forall id :: id in after ==>
               (id in marks && after[id] == marks[id])
               || exists i :: 0 <= i < |users[1..]| && users[1..][i].id == id && after[id] == users[1..][i].captureTime
    ensures forall id :: id in after ==>
              (id in marks && after[id] == marks[id])
              || exists i :: 0 <= i < |users| && users[i].id == id && after[id] == users[i].captureTime
  {
    forall id | id in after && !(id in marks && after[id] == marks[id])
      ensures exists i :: 0 <= i < |users| && users[i].id == id && after[id] == users[i].captureTime
    {
      var i :| 0 <= i < |users[1..]| && users[1..][i].id == id && after[id] == users[1..][i].captureTime;
      assert users[i + 1] == users[1..][i];
    }
  }

  /** Capture instants that never run backwards and never precede a stored watermark. */
  predicate ClockAhead(marks: map<UserId, int>, users: seq<PollInput>)
  {
    (forall i, j :: 0 <= i < j < |users| ==> users[i].captureTime <= users[j].captureTime)
    && (forall i :: 0 <= i < |users| ==> Mark(marks, users[i].id) <= users[i].captureTime)
  }

  /** With a clock that does not run backwards, no watermark ever decreases. */
  lemma {:induction false} MarksNeverDecrease(marks: map<UserId, int>, users: seq<PollInput>)
    requires ClockAhead(marks, users)
    ensures forall id :: Mark(marks, id) <= Mark(Cycle(marks, users).marks, id)
    decreases |users|
  {
    if users != [] {
      var u := users[0];
      var rest := users[1..];
      assert ClockAhead(marks, rest) by {
        forall i | 0 <= i < |rest| ensures Mark(marks, rest[i].id) <= rest[i].captureTime {
          assert rest[i] == users[i + 1];
        }
      }
      if u.fetch.Some? {
        match PollUser(u.handle, u.memberKnown, u.fetch.value, Mark(marks, u.id), u.captureTime)
        case Err(_) =>
        case Ok(None) =>
          MarksNeverDecrease(marks, rest);
        case Ok(Some(_)) =>
          var m := marks[u.id := u.captureTime];
          assert ClockAhead(m, rest) by {
            forall i | 0 <= i < |rest| ensures Mark(m, rest[i].id) <= rest[i].captureTime {
              assert rest[i] == users[i + 1];
            }
          }
          MarksNeverDecrease(m, rest);
      } else {
        MarksNeverDecrease(marks, rest);
      }
    }
  }

  /**
   * A mixed-verdict poll: after watermark 50 come an accepted submission at
   * 100, a zero-point partial at 200 and a five-point partial at 300. Two
   * submissions are announced (six fields) and the watermark moves to the
   * capture instant, not to 300.
   */
  lemma MixedVerdictScenario(p: Problem, marks: map<UserId, int>, id: UserId, handle: string, now: int)
    requires Mark(marks, id) == 50
    ensures var s1 := Submission(100, Some("OK"), None, p);
            var s2 := Submission(200, Some("PARTIAL"), Some(0), p);
            var s3 := Submission(300, Some("PARTIAL"), Some(5), p);
            var r := Cycle(marks, [PollInput(id, handle, true, Some([s1, s2, s3]), now)]);
            r == CycleResult([Embed(handle, FieldsOf([s1, s3]), now)], None, marks[id := now])
            && |r.sent[0].fields| == 6
  {
    var s1 := Submission(100, Some("OK"), None, p);
    var s2 := Submission(200, Some("PARTIAL"), Some(0), p);
    var s3 := Submission(300, Some("PARTIAL"), Some(5), p);
    var subs := [s1, s2, s3];
    var u := PollInput(id, handle, true, Some(subs), now);
    assert !MissingVerdictAfter(subs, 50);
    assert Filter(subs, s => IsCandidate(50, s)) == subs by {
      FilterAll(subs, s => IsCandidate(50, s));
    }
    assert !MissingPointsIn(subs);
    assert AnnouncedOf(subs) == [s1, s3] by {
      assert Announced(s1) && !Announced(s2) && Announced(s3);
      assert subs[1..] == [s2, s3] && [s2, s3][1..] == [s3] && [s3][1..] == [];
      assert Filter([s3], Announced) == [s3];
      assert Filter([s2, s3], Announced) == [s3];
      assert Filter(subs, Announced) == [s1] + [s3];
    }
    PollOneUser(marks, u);
  }
}
