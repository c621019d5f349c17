/**
 * The submission records of the Codeforces user.status API, as far as the
 * solved cog reads them, and the problem link it prints for one.
 */
module Codeforces {
  import opened Wrappers
  import opened Text

  /** Contest ids from this value on belong to the gym. */
  const GymIdThreshold: int := 100000

  /** rating is absent for unrated problems. */
  datatype Problem = Problem(contestId: int, index: string, name: string, rating: Option<int>, tags: seq<string>)

  /**
   * verdict is absent while a submission waits in the judging queue; points
   * accompany partial-credit verdicts.
   */
  datatype Submission = Submission(
    creationTimeSeconds: int,
    verdict: Option<string>,
    points: Option<int>,
    problem: Problem)

  predicate HasVerdict(s: Submission, v: string) { s.verdict == Some(v) }

  const ProblemSiteRoot: string := "(https://codeforces.com/"

  /** The path segment of the problem URL: "contest" below the gym threshold, "gym" from it on. */
  function Section(contestId: int): (s: string)
    ensures s == "contest" || s == "gym"
    ensures s == "contest" <==> contestId < GymIdThreshold
  {
    if contestId < GymIdThreshold then "contest" else "gym"
  }

  /** "[name](https://codeforces.com/contest/<id>/problem/<index>)", or .../gym/... for gym contests. */
  function ProblemLink(p: Problem): string
  {
    "[" + p.name + "]" + ProblemSiteRoot + Section(p.contestId) + "/" + IntToString(p.contestId)
    + "/problem/" + p.index + ")"
  }

  /**
   * The link shows the problem name in brackets, then points into
   * codeforces.com/contest/ exactly when the contest id is below the gym
   * threshold, and into codeforces.com/gym/ otherwise; the path goes on with
   * the contest id in decimal, "/problem/", the problem index and a closing ")".
   */
  lemma ProblemLinkSection(p: Problem)
    ensures var s := ProblemLink(p);
            var k := |p.name| + 2 + |ProblemSiteRoot|;
            |s| > k + 7 && s[..k] == "[" + p.name + "]" + ProblemSiteRoot
            && (s[k..k + 8] == "contest/" <==> p.contestId < GymIdThreshold)
            && (s[k..k + 4] == "gym/" <==> p.contestId >= GymIdThreshold)
            && s[|s| - 1] == ')'
    ensures var s := ProblemLink(p);
            var j := |p.name| + 2 + |ProblemSiteRoot| + |Section(p.contestId)| + 1;
            var m := |s| - |p.index| - 10;
            j <= m && ReadsAsInt(s[j..m], p.contestId)
            && s[m..m + 9] == "/problem/" && s[m + 9..|s| - 1] == p.index
  {
    var s := ProblemLink(p);
    var k := |p.name| + 2 + |ProblemSiteRoot|;
    var sec := Section(p.contestId);
    assert s[k..k + |sec| + 1] == sec + "/";
    assert s[k] == sec[0] && s[k..k + 4][0] == s[k] && s[k..k + 8][0] == s[k];
    ProblemLinkPath(p);
  }

  /** After the section: the contest id in decimal, "/problem/", the index and ")". */
  lemma ProblemLinkPath(p: Problem)
    ensures var s := ProblemLink(p);
            var j := |p.name| + 2 + |ProblemSiteRoot| + |Section(p.contestId)| + 1;
            var m := |s| - |p.index| - 10;
            j <= m && ReadsAsInt(s[j..m], p.contestId)
            && s[m..m + 9] == "/problem/" && s[m + 9..|s| - 1] == p.index
  {
    var head := "[" + p.name + "]" + ProblemSiteRoot + Section(p.contestId) + "/";
    var d := IntToString(p.contestId);
    assert ProblemLink(p) == head + d + "/problem/" + p.index + ")";
    IntToStringReadsBack(p.contestId);
    LinkTail(head, d, p.index, p.contestId);
  }

  /** Behind any prefix, the numeral, "/problem/", the index and ")" read back. */
  lemma LinkTail(head: string, d: string, index: string, n: int)
    requires ReadsAsInt(d, n)
    ensures var s := head + d + "/problem/" + index + ")";
            var k := |head|;
            var m := |s| - |index| - 10;
            k + |d| == m && ReadsAsInt(s[k..m], n)
            && s[m..m + 9] == "/problem/" && s[m + 9..|s| - 1] == index
  {
    var s := head + d + "/problem/" + index + ")";
    var m := |s| - |index| - 10;
    assert s[|head|..m] == d;
    assert s[m..m + 9] == "/problem/";
    assert s[m + 9..|s| - 1] == index;
  }
}
