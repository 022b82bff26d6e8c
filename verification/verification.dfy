/** The review screen for generated problems
    (chapter12 data_generation/human_verification_ui.py): moving through
    the problem list, recording a reviewer's scores, and the summary of
    what has been reviewed. The Gradio layout and the JSON files are not
    modelled; the session is a value. */
module Verification {
  import opened Wrappers
  import opened Text
  import opened PyJson

  /* ---------------------------------------------------------------- */
  /* The verification records: a dict keyed by problem id             */
  /* ---------------------------------------------------------------- */

  /** The records are a Python dict keyed by problem id: an association
      list in insertion order, filed under each id's `HashKey`, so that
      `True` and `1` name the same record. */
  predicate KeysUnique(l: Ledger) {
    forall i, j :: 0 <= i < j < |l| ==> l[i].0 != l[j].0
  }

  /** `d.get(k)`. */
  function Lookup(l: Ledger, k: JValue): (r: Option<Entry>)
    ensures r.Some? <==> exists i :: 0 <= i < |l| && l[i].0 == k
  {
    if l == [] then None
    else if l[0].0 == k then Some(l[0].1)
    else
      var r := Lookup(l[1..], k);
      assert r.Some? <==> exists i :: 0 <= i < |l| && l[i].0 == k by {
        if exists i :: 0 <= i < |l| && l[i].0 == k {
          var i :| 0 <= i < |l| && l[i].0 == k;
          assert l[1..][i - 1].0 == k;
        }
      }
      r
  }

  /** `d[k] = v`: an existing entry is replaced where it stands, a new one
      goes last. */
  function Record(l: Ledger, k: JValue, v: Entry): (r: Ledger)
    ensures Lookup(r, k) == Some(v)
    ensures forall k' :: k' != k ==> Lookup(r, k') == Lookup(l, k')
    ensures |r| == if Lookup(l, k).Some? then |l| else |l| + 1
    ensures forall i :: 0 <= i < |r| ==> r[i].0 == k || exists j :: 0 <= j < |l| && l[j] == r[i]
  {
    if l == [] then [(k, v)]
    else if l[0].0 == k then [(k, v)] + l[1..]
    else
      var rest := Record(l[1..], k, v);
      var r := [l[0]] + rest;
      assert forall i :: 1 <= i < |r| ==> r[i] == rest[i - 1];
      assert forall j :: 0 <= j < |l| - 1 ==> l[1..][j] == l[j + 1];
      r
  }

  /** Recording keeps the keys of a dict unique. */
  lemma {:induction false} RecordKeepsKeysUnique(l: Ledger, k: JValue, v: Entry)
    requires KeysUnique(l)
    ensures KeysUnique(Record(l, k, v))
  {
    if l != [] && l[0].0 != k {
      RecordKeepsKeysUnique(l[1..], k, v);
      var rest := Record(l[1..], k, v);
      forall j | 0 <= j < |rest|
        ensures rest[j].0 != l[0].0
      {
        if rest[j].0 != k {
          var m :| 0 <= m < |l[1..]| && l[1..][m] == rest[j];
          assert l[m + 1] == rest[j];
        }
      }
      assert Record(l, k, v) == [l[0]] + rest;
    }
  }

  /** What `verify_problem` stores for a problem. */
  datatype Entry = Entry(
    problemId: JValue,
    correctness: int,
    clarity: int,
    difficultyMatch: int,
    completeness: int,
    totalScore: real,
    status: string,
    comments: string,
    verifiedAt: string)

  type Ledger = seq<(JValue, Entry)>

  /** The state of the screen: the loaded problems, the one shown, and the
      verification records. */
  datatype Session = Session(problems: seq<Dict>, index: nat, verifications: Ledger)

  /** A fresh screen shows the first problem. */
  function Open(problems: seq<Dict>, verifications: Ledger): (s: Session)
    ensures Positioned(s)
  {
    Session(problems, 0, verifications)
  }

  /** The index points at a problem, or stays at 0 when there is none. */
  predicate Positioned(s: Session) {
    if s.problems == [] then s.index == 0 else s.index < |s.problems|
  }

  /* ---------------------------------------------------------------- */
  /* Showing the current problem                                      */
  /* ---------------------------------------------------------------- */

  /** Python's `str(v)` for a JSON value; the `repr` of a list or a dict
      is a parameter. */
  function Str(v: JValue, repr: JValue -> string): string {
    match v
    case JNull => "None"
    case JBool(b) => if b then "True" else "False"
    case JInt(i) => Decimal(i)
    case JStr(s) => s
    case _ => repr(v)
  }

  /** The id a problem is filed under: `problem.get("id", "unknown")`. */
  function ProblemId(problem: Dict): (id: JValue)
    ensures HasKey(problem, "id") ==> Some(id) == Get(problem, "id")
    ensures !HasKey(problem, "id") ==> id == JStr("unknown")
  {
    match Get(problem, "id")
    case Some(v) => v
    case None => JStr("unknown")
  }

  /** `problem.get(k, default)` shown as text. */
  function Field(problem: Dict, k: string, default: string, repr: JValue -> string): string {
    match Get(problem, k)
    case Some(v) => Str(v, repr)
    case None => default
  }

  /** The six texts the screen shows. */
  datatype View = View(heading: string, problem: string, answer: string, solution: string, topic: string, comments: string)

  const NoProblemsView := View("无题目", "", "", "", "", "0/0")

  /** `get_current_problem`; `None` where the problem's id is a list or a
      dict, on which `verifications.get` raises `TypeError`. */
  function CurrentProblem(s: Session, repr: JValue -> string): (r: Option<View>)
    requires Positioned(s)
    ensures s.problems == [] <==> r == Some(NoProblemsView)
    ensures r.None? <==> s.problems != [] && HashKey(ProblemId(s.problems[s.index])).None?
    ensures s.problems != [] && r.Some? ==>
              r.value.heading == "题目 " + Decimal(s.index + 1) + "/" + Decimal(|s.problems|)
  {
    if s.problems == [] then Some(NoProblemsView)
    else
      var problem := s.problems[s.index];
      var key := HashKey(ProblemId(problem));
      if key.None? then None
      else
      var comments := match Lookup(s.verifications, key.value)
                      case Some(e) => e.comments
                      case None => "";
      var r := View("题目 " + Decimal(s.index + 1) + "/" + Decimal(|s.problems|),
                    Field(problem, "problem", "", repr),
                    "答案: " + Field(problem, "answer", "N/A", repr),
                    Field(problem, "solution", "", repr),
                    "主题: " + Field(problem, "topic", "N/A", repr),
                    comments);
      assert r.heading[0] != NoProblemsView.heading[0];
      Some(r)
  }

  /** The screen shows the comment of the problem's earlier verification,
      found under the id's hash key. */
  lemma ShowsEarlierComment(s: Session, repr: JValue -> string, key: JValue, e: Entry)
    requires Positioned(s) && s.problems != []
    requires HashKey(ProblemId(s.problems[s.index])) == Some(key)
    requires Lookup(s.verifications, key) == Some(e)
    ensures CurrentProblem(s, repr) != None
    ensures CurrentProblem(s, repr).value.comments == e.comments
  {
  }

  /* ---------------------------------------------------------------- */
  /* next_problem / prev_problem                                      */
  /* ---------------------------------------------------------------- */

  /** `next_problem`: one forward, but not past the last problem. */
  function Next(s: Session): (r: Session)
    ensures r.problems == s.problems && r.verifications == s.verifications
    ensures Positioned(s) ==> Positioned(r)
    ensures r.index == if s.index + 1 < |s.problems| then s.index + 1 else s.index
  {
    if s.index < |s.problems| - 1 then s.(index := s.index + 1) else s
  }

  /** `prev_problem`: one back, but not before the first problem. */
  function Prev(s: Session): (r: Session)
    ensures r.problems == s.problems && r.verifications == s.verifications
    ensures Positioned(s) ==> Positioned(r)
    ensures r.index == if s.index > 0 then s.index - 1 else 0
  {
    if s.index > 0 then s.(index := s.index - 1) else s
  }

  /** Going back undoes going forward, unless the last problem was
      already shown. */
  lemma PrevUndoesNext(s: Session)
    requires s.index + 1 < |s.problems|
    ensures Prev(Next(s)) == s
  {
  }

  /** Going forward undoes going back, unless the first problem was
      already shown. */
  lemma NextUndoesPrev(s: Session)
    requires Positioned(s) && s.index > 0
    ensures Next(Prev(s)) == s
  {
  }

  function NextTimes(s: Session, k: nat): Session {
    if k == 0 then s else Next(NextTimes(s, k - 1))
  }

  /** Pressing "next" `k` times moves `k` problems on, stopping at the
      last one. */
  lemma {:induction false} NextTimesStops(s: Session, k: nat)
    requires Positioned(s) && s.problems != []
    ensures NextTimes(s, k).index == if s.index + k < |s.problems| then s.index + k else |s.problems| - 1
    ensures NextTimes(s, k).problems == s.problems && NextTimes(s, k).verifications == s.verifications
  {
    if k > 0 {
      NextTimesStops(s, k - 1);
    }
  }

  /* ---------------------------------------------------------------- */
  /* verify_problem                                                   */
  /* ---------------------------------------------------------------- */

  /** The four scores a reviewer gives. */
  datatype Scores = Scores(correctness: int, clarity: int, difficultyMatch: int, completeness: int)

  /** `(correctness + clarity + difficulty_match + completeness) / 4`. */
  function TotalScore(sc: Scores): (t: real) {
    (sc.correctness + sc.clarity + sc.difficultyMatch + sc.completeness) as real / 4.0
  }

  function Min4(a: int, b: int, c: int, d: int): int {
    var x := if a <= b then a else b;
    var y := if c <= d then c else d;
    if x <= y then x else y
  }

  function Max4(a: int, b: int, c: int, d: int): int {
    var x := if a >= b then a else b;
    var y := if c >= d then c else d;
    if x >= y then x else y
  }

  /** The total is the mean: it lies between the lowest and the highest
      score, and equals them when all four agree. */
  lemma TotalScoreIsMean(sc: Scores)
    ensures Min4(sc.correctness, sc.clarity, sc.difficultyMatch, sc.completeness) as real <= TotalScore(sc)
    ensures TotalScore(sc) <= Max4(sc.correctness, sc.clarity, sc.difficultyMatch, sc.completeness) as real
    ensures sc.correctness == sc.clarity == sc.difficultyMatch == sc.completeness ==>
              TotalScore(sc) == sc.correctness as real
  {
  }

  /** What `verify_problem` answers. The score is shown with two decimals;
      the model keeps the exact value. */
  datatype Outcome = NothingToVerify | Unhashable | Verified(id: JValue, totalScore: real)

  /** `verify_problem`: with no problems nothing is recorded; a list or
      dict id cannot be a dict key and the assignment raises `TypeError`
      (`Unhashable`, nothing recorded); otherwise the current problem's
      entry is written under the id's hash key (replacing an earlier one)
      and the total reported. `now` is the clock's ISO timestamp. */
  function VerifyProblem(s: Session, sc: Scores, status: string, comments: string, now: string)
    : (r: (Session, Outcome))
    requires Positioned(s)
    ensures s.problems == [] <==> r.1 == NothingToVerify
    ensures r.1 == Unhashable <==> s.problems != [] && HashKey(ProblemId(s.problems[s.index])).None?
    ensures !r.1.Verified? ==> r.0 == s
    ensures r.0.problems == s.problems && r.0.index == s.index
    ensures r.1.Verified? ==>
              var id := ProblemId(s.problems[s.index]);
              var key := HashKey(id).value;
              && r.1 == Verified(id, TotalScore(sc))
              && Lookup(r.0.verifications, key)
                   == Some(Entry(id, sc.correctness, sc.clarity, sc.difficultyMatch, sc.completeness,
                                 TotalScore(sc), status, comments, now))
              && forall k :: k != key ==> Lookup(r.0.verifications, k) == Lookup(s.verifications, k)
  {
    if s.problems == [] then (s, NothingToVerify)
    else
      var id := ProblemId(s.problems[s.index]);
      var key := HashKey(id);
      if key.None? then (s, Unhashable)
      else
      var e := Entry(id, sc.correctness, sc.clarity, sc.difficultyMatch, sc.completeness,
                     TotalScore(sc), status, comments, now);
      (s.(verifications := Record(s.verifications, key.value, e)), Verified(id, e.totalScore))
  }

  /** `True` and `1` are one dict key: verifying a problem whose id is
      `true` replaces the record of a problem whose id is `1`. */
  lemma TrueAndOneShareRecord(s: Session, sc: Scores, status: string, comments: string, now: string, e: Entry)
    requires Positioned(s) && s.problems != []
    requires Get(s.problems[s.index], "id") == Some(JBool(true))
    requires Lookup(s.verifications, JInt(1)) == Some(e)
    ensures var r := VerifyProblem(s, sc, status, comments, now);
            && |r.0.verifications| == |s.verifications|
            && Lookup(r.0.verifications, JInt(1)).value.problemId == JBool(true)
  {
    assert HasKey(s.problems[s.index], "id");
  }

  /** Verifying a problem a second time replaces its entry: the number of
      verified problems grows only for a problem not verified before. */
  lemma VerifyCountsOnce(s: Session, sc: Scores, status: string, comments: string, now: string)
    requires Positioned(s) && s.problems != []
    ensures var l := VerifyProblem(s, sc, status, comments, now).0.verifications;
            var key := HashKey(ProblemId(s.problems[s.index]));
            |l| == if key.None? || Lookup(s.verifications, key.value).Some?
                   then |s.verifications| else |s.verifications| + 1
    ensures KeysUnique(s.verifications) ==> KeysUnique(VerifyProblem(s, sc, status, comments, now).0.verifications)
  {
    var id := ProblemId(s.problems[s.index]);
    var key := HashKey(id);
    var e := Entry(id, sc.correctness, sc.clarity, sc.difficultyMatch, sc.completeness,
                   TotalScore(sc), status, comments, now);
    if KeysUnique(s.verifications) && key.Some? {
      RecordKeepsKeysUnique(s.verifications, key.value, e);
    }
  }

  /* ---------------------------------------------------------------- */
  /* get_statistics                                                   */
  /* ---------------------------------------------------------------- */

  /** How many entries carry `status`. */
  function CountStatus(l: Ledger, status: string): (n: nat)
    ensures n <= |l|
  {
    if l == [] then 0
    else (if l[0].1.status == status then 1 else 0) + CountStatus(l[1..], status)
  }

  function SumScores(l: Ledger): real {
    if l == [] then 0.0 else l[0].1.totalScore + SumScores(l[1..])
  }

  /** What `get_statistics` reports. Percentages are formatted floats and
      are not modelled; a summary over no problems divides by zero. */
  datatype Statistics =
    | NoData
    | ZeroDivision
    | Summary(total: nat, verified: nat, unverified: int,
              approved: nat, rejected: nat, needsRevision: nat, averageScore: real)

  /** `get_statistics`. */
  function GetStatistics(s: Session): (r: Statistics)
    ensures s.verifications == [] <==> r == NoData
    ensures r.ZeroDivision? <==> s.verifications != [] && s.problems == []
    ensures r.Summary? ==> r.verified == |s.verifications| && r.total == |s.problems|
                           && r.unverified == r.total - r.verified
  {
    if s.verifications == [] then NoData
    else if |s.problems| == 0 then ZeroDivision
    else
      var l := s.verifications;
      Summary(|s.problems|, |l|, |s.problems| - |l|,
              CountStatus(l, "approved"), CountStatus(l, "rejected"), CountStatus(l, "needs_revision"),
              SumScores(l) / (|l| as real))
  }

  /** An entry has one status, so the three counts together never exceed
      the number of verified problems. */
  lemma {:induction false} StatusCountsBounded(l: Ledger)
    ensures CountStatus(l, "approved") + CountStatus(l, "rejected") + CountStatus(l, "needs_revision") <= |l|
  {
    if l != [] {
      StatusCountsBounded(l[1..]);
    }
  }

  lemma StatisticsCountsBounded(s: Session)
    requires GetStatistics(s).Summary?
    ensures var r := GetStatistics(s);
            r.approved + r.rejected + r.needsRevision <= r.verified
  {
    StatusCountsBounded(s.verifications);
  }

  /** Each entry counts once under its own status. */
  lemma {:induction false} CountStatusAppend(l: Ledger, k: JValue, e: Entry, status: string)
    ensures CountStatus(l + [(k, e)], status) == CountStatus(l, status) + if e.status == status then 1 else 0
  {
    if l != [] {
      assert (l + [(k, e)])[1..] == l[1..] + [(k, e)];
      CountStatusAppend(l[1..], k, e, status);
    }
  }

  /** Scores bounded by `lo` and `hi` average to a value between them. */
  lemma {:induction false} SumScoresBounded(l: Ledger, lo: real, hi: real)
    requires forall i :: 0 <= i < |l| ==> lo <= l[i].1.totalScore <= hi
    ensures |l| as real * lo <= SumScores(l) <= |l| as real * hi
  {
    if l != [] {
      SumScoresBounded(l[1..], lo, hi);
    }
  }

  lemma AverageScoreBounded(s: Session, lo: real, hi: real)
    requires forall i :: 0 <= i < |s.verifications| ==> lo <= s.verifications[i].1.totalScore <= hi
    requires GetStatistics(s).Summary?
    ensures lo <= GetStatistics(s).averageScore <= hi
  {
    var l := s.verifications;
    SumScoresBounded(l, lo, hi);
    var n := |l| as real;
    assert n > 0.0;
    assert lo * n <= SumScores(l) <= hi * n;
  }

  /** Scores from the 1 to 5 sliders give a total and an average within
      1 to 5. */
  lemma SliderScoresInRange(sc: Scores)
    requires 1 <= sc.correctness <= 5 && 1 <= sc.clarity <= 5
    requires 1 <= sc.difficultyMatch <= 5 && 1 <= sc.completeness <= 5
    ensures 1.0 <= TotalScore(sc) <= 5.0
  {
    TotalScoreIsMean(sc);
  }
}
