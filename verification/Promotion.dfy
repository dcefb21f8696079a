/** The promotion pass of `promote_large_question_corpus.py`: one greedy pass under two family
    caps, what it counts, and how far it can be from the best selection. */
module Promotion {
  import opened Wrappers
  import opened Names
  import Collections

  /** Digests and concept keys matter only through equality. */
  type Key = Name

  /** `valid` is what row validation finds, the two texts are stripped, and the keys are the digest of
      the solution and the concept identity. */
  datatype Row = Row(valid: bool, solution: string, explanation: string, solutionKey: Key, conceptKey: Key)

  /** The two ways rows form families. */
  datatype Kind = BySolution | ByConcept

  datatype Reason =
    | InvalidSourceRow | SolutionTooShort | ExplanationTooShort | SolutionFamilyCap | ConceptFamilyCap
    | PromotionLimitReached

  datatype Limits = Limits(maxPerSolution: int, maxPerConcept: int, maxRows: int) {
    function Cap(kind: Kind): int {
      match kind
      case BySolution => maxPerSolution
      case ByConcept => maxPerConcept
    }
  }

  datatype Report = Report(scanned: nat, promoted: nat, uniqueSolutionFamilies: nat, uniqueConceptFamilies: nat,
                           reasons: map<Reason, nat>)

  const MINIMUM_LENGTH := 20

  // ----- Selections -----

  function KeyOf(row: Row, kind: Kind): Key {
    match kind
    case BySolution => row.solutionKey
    case ByConcept => row.conceptKey
  }

  /** How many of the first `n` rows are selected. */
  ghost function Size(selected: seq<bool>, n: nat): nat
    requires n <= |selected|
  {
    if n == 0 then 0 else Size(selected, n - 1) + if selected[n - 1] then 1 else 0
  }

  /** How many of the first `n` rows are selected and belong to one of the families. */
  ghost function Within(selected: seq<bool>, rows: seq<Row>, kind: Kind, families: set<Key>, n: nat): nat
    requires n <= |selected| && n <= |rows|
  {
    if n == 0 then 0
    else Within(selected, rows, kind, families, n - 1) +
         if selected[n - 1] && KeyOf(rows[n - 1], kind) in families then 1 else 0
  }

  /** How many of the first `n` rows are selected and belong to the family. */
  ghost function InFamily(selected: seq<bool>, rows: seq<Row>, kind: Kind, family: Key, n: nat): nat
    requires n <= |selected| && n <= |rows|
  {
    if n == 0 then 0
    else InFamily(selected, rows, kind, family, n - 1) +
         if selected[n - 1] && KeyOf(rows[n - 1], kind) == family then 1 else 0
  }

  /** The families with a selected row among the first `n`. */
  ghost function Families(selected: seq<bool>, rows: seq<Row>, kind: Kind, n: nat): set<Key>
    requires n <= |selected| && n <= |rows|
  {
    set i | 0 <= i < n && selected[i] :: KeyOf(rows[i], kind)
  }

  /** What a cap allows a family to hold; one below zero allows no more than nothing. */
  function Room(cap: int): nat {
    if cap < 0 then 0 else cap
  }

  ghost predicate WithinCap(selected: seq<bool>, rows: seq<Row>, limits: Limits, kind: Kind) {
    && |rows| == |selected|
    && forall family :: InFamily(selected, rows, kind, family, |selected|) <= Room(limits.Cap(kind))
  }

  // ----- Specification -----

  predicate IsEligible(row: Row) {
    row.valid && |row.solution| >= MINIMUM_LENGTH && |row.explanation| >= MINIMUM_LENGTH
  }

  /** Why row `i` is left out, given what was promoted before it. */
  ghost function Refusal(rows: seq<Row>, limits: Limits, promoted: seq<bool>, i: nat): Option<Reason>
    requires i < |rows| && i <= |promoted|
  {
    var row := rows[i];
    if !row.valid then Some(InvalidSourceRow)
    else if |row.solution| < MINIMUM_LENGTH then Some(SolutionTooShort)
    else if |row.explanation| < MINIMUM_LENGTH then Some(ExplanationTooShort)
    else if InFamily(promoted, rows, BySolution, row.solutionKey, i) >= limits.maxPerSolution then
      Some(SolutionFamilyCap)
    else if InFamily(promoted, rows, ByConcept, row.conceptKey, i) >= limits.maxPerConcept then Some(ConceptFamilyCap)
    else None
  }

  /** Every row so far was promoted exactly when nothing spoke against it. */
  ghost predicate IsGreedy(rows: seq<Row>, limits: Limits, promoted: seq<bool>) {
    && |promoted| <= |rows|
    && forall i :: 0 <= i < |promoted| ==> (promoted[i] <==> Refusal(rows, limits, promoted, i) == None)
  }

  /** Which of the first `n` rows are promoted. */
  ghost function Promoted(rows: seq<Row>, limits: Limits, n: nat): (promoted: seq<bool>)
    requires n <= |rows|
    ensures |promoted| == n
  {
    if n == 0 then []
    else
      var before := Promoted(rows, limits, n - 1);
      before + [Refusal(rows, limits, before, n - 1) == None]
  }

  /** How many of the first `n` rows were left out for a reason. */
  ghost function Refused(rows: seq<Row>, limits: Limits, promoted: seq<bool>, reason: Reason, n: nat): nat
    requires n <= |promoted| <= |rows|
  {
    if n == 0 then 0
    else Refused(rows, limits, promoted, reason, n - 1) +
         if Refusal(rows, limits, promoted, n - 1) == Some(reason) then 1 else 0
  }

  /** The promoted rows, in order. */
  ghost function Selected(rows: seq<Row>, promoted: seq<bool>, n: nat): seq<Row>
    requires n <= |promoted| <= |rows|
  {
    if n == 0 then []
    else Selected(rows, promoted, n - 1) + if promoted[n - 1] then [rows[n - 1]] else []
  }

  function Count<K>(counts: map<K, nat>, key: K): nat {
    if key in counts then counts[key] else 0
  }

  /** The reasons count the refusals, and next to them how often the limit was reached. */
  ghost predicate Reported(reasons: map<Reason, nat>, rows: seq<Row>, limits: Limits, promoted: seq<bool>,
                           limited: nat)
    requires |promoted| <= |rows|
  {
    forall reason :: Count(reasons, reason) ==
      if reason == PromotionLimitReached then limited else Refused(rows, limits, promoted, reason, |promoted|)
  }

  /** What is written and reported when the first rows, as many as `promoted` tells of, were scanned. The
      scan ends early only at the limit, with the promotion that reaches it. */
  ghost predicate IsReport(rows: seq<Row>, limits: Limits, promoted: seq<bool>, output: seq<Row>, report: Report) {
    && report.scanned == |promoted| <= |rows|
    && output == Selected(rows, promoted, |promoted|) && report.promoted == |output| <= LimitOf(limits)
    && report.uniqueSolutionFamilies == |Families(promoted, rows, BySolution, |promoted|)|
    && report.uniqueConceptFamilies == |Families(promoted, rows, ByConcept, |promoted|)|
    && Reported(report.reasons, rows, limits, promoted, if |output| == LimitOf(limits) then 1 else 0)
    && (if |output| == LimitOf(limits) then promoted != [] && promoted[|promoted| - 1] else |promoted| == |rows|)
  }

  // ----- Program -----

  /** `main`, from the first row to the report. */
  method Promote(rows: seq<Row>, limits: Limits) returns (output: seq<Row>, report: Report)
    ensures report.scanned <= |rows|
    ensures IsReport(rows, limits, Promoted(rows, limits, report.scanned), output, report)
  {
    var solutionCounts: map<Key, nat>, conceptCounts: map<Key, nat> := map[], map[];
    var reasons: map<Reason, nat> := map[];
    output := [];
    ghost var promoted: seq<bool> := [];
    var scanned := 0;
    while scanned < |rows|
      invariant scanned <= |rows| && promoted == Promoted(rows, limits, scanned) && |output| < LimitOf(limits)
      invariant Passing(rows, limits, promoted, output, solutionCounts, conceptCounts, reasons)
    {
      var row := rows[scanned];
      scanned := scanned + 1;
      var reason := Judge(row, limits, solutionCounts, conceptCounts, rows, promoted);
      OneFurther(rows, limits, promoted, output, solutionCounts, conceptCounts, reasons, reason);
      promoted := promoted + [reason == None];
      if reason.Some? {
        reasons := Incremented(reasons, reason.value);
        continue;
      }
      solutionCounts := Incremented(solutionCounts, row.solutionKey);
      conceptCounts := Incremented(conceptCounts, row.conceptKey);
      output := output + [row];
      if |output| >= limits.maxRows {
        reasons := Incremented(reasons, PromotionLimitReached);
        break;
      }
    }
    report := Report(scanned, |output|, |solutionCounts|, |conceptCounts|, reasons);
  }

  /** `--max-rows`, which is looked at only after a promotion. */
  function LimitOf(limits: Limits): nat {
    if limits.maxRows <= 1 then 1 else limits.maxRows
  }

  function Incremented<K>(counts: map<K, nat>, key: K): (more: map<K, nat>)
    ensures more.Keys == counts.Keys + {key}
  {
    counts[key := Count(counts, key) + 1]
  }

  /** The gates one row passes or fails. */
  method Judge(row: Row, limits: Limits, solutionCounts: map<Key, nat>, conceptCounts: map<Key, nat>,
               ghost rows: seq<Row>, ghost promoted: seq<bool>)
    returns (reason: Option<Reason>)
    requires |promoted| < |rows| && row == rows[|promoted|]
    requires Tallies(solutionCounts, promoted, rows, BySolution) && Tallies(conceptCounts, promoted, rows, ByConcept)
    ensures reason == Refusal(rows, limits, promoted, |promoted|)
  {
    if !row.valid {
      return Some(InvalidSourceRow);
    }
    if |row.solution| < MINIMUM_LENGTH {
      return Some(SolutionTooShort);
    }
    if |row.explanation| < MINIMUM_LENGTH {
      return Some(ExplanationTooShort);
    }
    if Count(solutionCounts, row.solutionKey) >= limits.maxPerSolution {
      return Some(SolutionFamilyCap);
    }
    if Count(conceptCounts, row.conceptKey) >= limits.maxPerConcept {
      return Some(ConceptFamilyCap);
    }
    return None;
  }

  // ----- What the loop keeps -----

  /** A counter holds exactly the families selected from, each with its size. */
  ghost predicate Tallies(counts: map<Key, nat>, selected: seq<bool>, rows: seq<Row>, kind: Kind)
    requires |selected| <= |rows|
  {
    && counts.Keys == Families(selected, rows, kind, |selected|)
    && forall family :: Count(counts, family) == InFamily(selected, rows, kind, family, |selected|)
  }

  /** The state between two rows. */
  ghost predicate Passing(rows: seq<Row>, limits: Limits, promoted: seq<bool>, output: seq<Row>,
                          solutionCounts: map<Key, nat>, conceptCounts: map<Key, nat>, reasons: map<Reason, nat>)
  {
    && IsGreedy(rows, limits, promoted) && output == Selected(rows, promoted, |promoted|)
    && Tallies(solutionCounts, promoted, rows, BySolution) && Tallies(conceptCounts, promoted, rows, ByConcept)
    && Reported(reasons, rows, limits, promoted, 0)
  }

  lemma {:induction false} InFamilyPrefix(a: seq<bool>, b: seq<bool>, rows: seq<Row>, kind: Kind, family: Key, n: nat)
    requires n <= |a| && n <= |b| && n <= |rows| && forall i :: 0 <= i < n ==> a[i] == b[i]
    ensures InFamily(a, rows, kind, family, n) == InFamily(b, rows, kind, family, n)
  {
    if n > 0 {
      InFamilyPrefix(a, b, rows, kind, family, n - 1);
    }
  }

  lemma InFamilyStep(selected: seq<bool>, more: bool, rows: seq<Row>, kind: Kind, family: Key)
    requires |selected| < |rows|
    ensures InFamily(selected + [more], rows, kind, family, |selected| + 1) ==
      InFamily(selected, rows, kind, family, |selected|) +
      if more && KeyOf(rows[|selected|], kind) == family then 1 else 0
  {
    InFamilyPrefix(selected + [more], selected, rows, kind, family, |selected|);
  }

  lemma FamiliesStep(selected: seq<bool>, more: bool, rows: seq<Row>, kind: Kind)
    requires |selected| < |rows|
    ensures Families(selected + [more], rows, kind, |selected| + 1) ==
      Families(selected, rows, kind, |selected|) + if more then {KeyOf(rows[|selected|], kind)} else {}
  {
    var n, next := |selected|, selected + [more];
    var expected := Families(selected, rows, kind, n) + if more then {KeyOf(rows[n], kind)} else {};
    forall key | key in expected
      ensures key in Families(next, rows, kind, n + 1)
    {
      if key in Families(selected, rows, kind, n) {
        var i :| 0 <= i < n && selected[i] && KeyOf(rows[i], kind) == key;
        assert next[i];
      } else {
        assert next[n];
      }
    }
  }

  lemma OneTaller(counts: map<Key, nat>, selected: seq<bool>, rows: seq<Row>, kind: Kind, more: bool)
    requires |selected| < |rows| && Tallies(counts, selected, rows, kind)
    ensures Tallies(if more then Incremented(counts, KeyOf(rows[|selected|], kind)) else counts, selected + [more],
                    rows, kind)
  {
    forall family
      ensures InFamily(selected + [more], rows, kind, family, |selected| + 1) ==
        InFamily(selected, rows, kind, family, |selected|) +
        if more && KeyOf(rows[|selected|], kind) == family then 1 else 0
    {
      InFamilyStep(selected, more, rows, kind, family);
    }
    FamiliesStep(selected, more, rows, kind);
  }

  lemma RefusalPrefix(rows: seq<Row>, limits: Limits, a: seq<bool>, b: seq<bool>, i: nat)
    requires i < |rows| && i <= |a| && i <= |b| && forall j :: 0 <= j < i ==> a[j] == b[j]
    ensures Refusal(rows, limits, a, i) == Refusal(rows, limits, b, i)
  {
    InFamilyPrefix(a, b, rows, BySolution, rows[i].solutionKey, i);
    InFamilyPrefix(a, b, rows, ByConcept, rows[i].conceptKey, i);
  }

  /** The promoted rows of a family among the first `n`. */
  ghost function Members(selected: seq<bool>, rows: seq<Row>, kind: Kind, family: Key, n: nat): set<nat>
    requires n <= |selected| && n <= |rows|
  {
    set i: nat | i < n && selected[i] && KeyOf(rows[i], kind) == family
  }

  lemma MembersGrow(selected: seq<bool>, rows: seq<Row>, kind: Kind, family: Key, n: nat)
    requires n < |selected| && n < |rows|
    ensures |Members(selected, rows, kind, family, n + 1)| ==
      |Members(selected, rows, kind, family, n)| + if selected[n] && KeyOf(rows[n], kind) == family then 1 else 0
  {
    var now, before := Members(selected, rows, kind, family, n + 1), Members(selected, rows, kind, family, n);
    var isOne := selected[n] && KeyOf(rows[n], kind) == family;
    assert forall i: nat :: i in now <==> i in before || (i == n && isOne);
    assert now == if isOne then before + {n} else before;
  }

  lemma {:induction false} InFamilyCounts(selected: seq<bool>, rows: seq<Row>, kind: Kind, family: Key, n: nat)
    requires n <= |selected| && n <= |rows|
    ensures InFamily(selected, rows, kind, family, n) == |Members(selected, rows, kind, family, n)|
  {
    if n == 0 {
      assert Members(selected, rows, kind, family, 0) == {};
    } else {
      InFamilyCounts(selected, rows, kind, family, n - 1);
      MembersGrow(selected, rows, kind, family, n - 1);
    }
  }

  /** Why a row is left out: the first of five gates that it fails, the last two by the number of rows promoted
      before it with the same solution or the same concept. */
  lemma RefusalExactly(rows: seq<Row>, limits: Limits, promoted: seq<bool>, i: nat)
    requires i < |rows| && i <= |promoted|
    ensures
      var row, refusal := rows[i], Refusal(rows, limits, promoted, i);
      var passes := row.valid && |row.solution| >= 20 && |row.explanation| >= 20;
      var solutions := |set j: nat | j < i && promoted[j] && rows[j].solutionKey == row.solutionKey|;
      var concepts := |set j: nat | j < i && promoted[j] && rows[j].conceptKey == row.conceptKey|;
      && (refusal == Some(InvalidSourceRow) <==> !row.valid)
      && (refusal == Some(SolutionTooShort) <==> row.valid && |row.solution| < 20)
      && (refusal == Some(ExplanationTooShort) <==>
            row.valid && |row.solution| >= 20 && |row.explanation| < 20)
      && (refusal == Some(SolutionFamilyCap) <==> passes && solutions >= limits.maxPerSolution)
      && (refusal == Some(ConceptFamilyCap) <==>
            passes && solutions < limits.maxPerSolution && concepts >= limits.maxPerConcept)
      && (refusal == None <==>
            passes && solutions < limits.maxPerSolution && concepts < limits.maxPerConcept)
  {
    var row := rows[i];
    InFamilyCounts(promoted, rows, BySolution, row.solutionKey, i);
    InFamilyCounts(promoted, rows, ByConcept, row.conceptKey, i);
    assert Members(promoted, rows, BySolution, row.solutionKey, i) ==
      set j: nat | j < i && promoted[j] && rows[j].solutionKey == row.solutionKey;
    assert Members(promoted, rows, ByConcept, row.conceptKey, i) ==
      set j: nat | j < i && promoted[j] && rows[j].conceptKey == row.conceptKey;
  }

  lemma {:induction false} SelectedPrefix(rows: seq<Row>, a: seq<bool>, b: seq<bool>, n: nat)
    requires n <= |a| <= |rows| && n <= |b| <= |rows| && forall j :: 0 <= j < n ==> a[j] == b[j]
    ensures Selected(rows, a, n) == Selected(rows, b, n)
  {
    if n > 0 {
      SelectedPrefix(rows, a, b, n - 1);
    }
  }

  lemma {:induction false} RefusedPrefix(rows: seq<Row>, limits: Limits, a: seq<bool>, b: seq<bool>,
                                         reason: Reason, n: nat)
    requires n <= |a| <= |rows| && n <= |b| <= |rows| && forall j :: 0 <= j < n ==> a[j] == b[j]
    ensures Refused(rows, limits, a, reason, n) == Refused(rows, limits, b, reason, n)
  {
    if n > 0 {
      RefusedPrefix(rows, limits, a, b, reason, n - 1);
      RefusalPrefix(rows, limits, a, b, n - 1);
    }
  }

  /** The promoted rows are greedy, and greedy rows are the promoted ones. */
  lemma {:induction false} PromotedIsGreedy(rows: seq<Row>, limits: Limits, promoted: seq<bool>)
    requires |promoted| <= |rows|
    ensures IsGreedy(rows, limits, promoted) <==> promoted == Promoted(rows, limits, |promoted|)
  {
    if promoted != [] {
      var front, n := promoted[..|promoted| - 1], |promoted| - 1;
      PromotedIsGreedy(rows, limits, front);
      RefusalPrefix(rows, limits, front, promoted, n);
      if IsGreedy(rows, limits, promoted) {
        forall i | 0 <= i < n
          ensures front[i] <==> Refusal(rows, limits, front, i) == None
        {
          RefusalPrefix(rows, limits, promoted, front, i);
        }
        assert promoted == front + [promoted[n]];
      } else if promoted == Promoted(rows, limits, |promoted|) {
        assert front == Promoted(rows, limits, n);
        Judged(rows, limits, front, promoted);
      }
    }
  }

  lemma Judged(rows: seq<Row>, limits: Limits, promoted: seq<bool>, next: seq<bool>)
    requires |promoted| < |rows| && IsGreedy(rows, limits, promoted)
    requires next == promoted + [Refusal(rows, limits, promoted, |promoted|) == None]
    ensures IsGreedy(rows, limits, next)
  {
    forall i | 0 <= i < |next|
      ensures next[i] <==> Refusal(rows, limits, next, i) == None
    {
      RefusalPrefix(rows, limits, promoted, next, i);
    }
  }

  lemma RefusedStep(rows: seq<Row>, limits: Limits, promoted: seq<bool>, more: bool, reason: Reason)
    requires |promoted| < |rows|
    ensures Refused(rows, limits, promoted + [more], reason, |promoted| + 1) ==
      Refused(rows, limits, promoted, reason, |promoted|) +
      if Refusal(rows, limits, promoted, |promoted|) == Some(reason) then 1 else 0
  {
    RefusedPrefix(rows, limits, promoted + [more], promoted, reason, |promoted|);
    RefusalPrefix(rows, limits, promoted + [more], promoted, |promoted|);
  }

  lemma OneMore(reasons: map<Reason, nat>, rows: seq<Row>, limits: Limits, promoted: seq<bool>,
                reason: Option<Reason>)
    requires |promoted| < |rows| && Reported(reasons, rows, limits, promoted, 0)
    requires reason == Refusal(rows, limits, promoted, |promoted|)
    ensures Reported(if reason.Some? then Incremented(reasons, reason.value) else reasons, rows, limits,
                     promoted + [reason == None], 0)
  {
    forall r
      ensures Refused(rows, limits, promoted + [reason == None], r, |promoted| + 1) ==
        Refused(rows, limits, promoted, r, |promoted|) + if reason == Some(r) then 1 else 0
    {
      RefusedStep(rows, limits, promoted, reason == None, r);
    }
  }

  lemma {:induction false} OneFurther(rows: seq<Row>, limits: Limits, promoted: seq<bool>, output: seq<Row>,
                                      solutionCounts: map<Key, nat>, conceptCounts: map<Key, nat>,
                                      reasons: map<Reason, nat>, reason: Option<Reason>)
    requires |promoted| < |rows| && Passing(rows, limits, promoted, output, solutionCounts, conceptCounts, reasons)
    requires reason == Refusal(rows, limits, promoted, |promoted|)
    ensures
      var row, next := rows[|promoted|], promoted + [reason == None];
      if reason.Some?
      then Passing(rows, limits, next, output, solutionCounts, conceptCounts, Incremented(reasons, reason.value))
      else Passing(rows, limits, next, output + [row], Incremented(solutionCounts, row.solutionKey),
                   Incremented(conceptCounts, row.conceptKey), reasons)
  {
    Judged(rows, limits, promoted, promoted + [reason == None]);
    SelectedPrefix(rows, promoted, promoted + [reason == None], |promoted|);
    OneMore(reasons, rows, limits, promoted, reason);
    OneTaller(solutionCounts, promoted, rows, BySolution, reason == None);
    OneTaller(conceptCounts, promoted, rows, ByConcept, reason == None);
  }

  // ----- Nothing is lost -----

  /** Each scanned row is promoted or counted under one reason. */
  lemma {:induction false} EveryRowIsAccountedFor(rows: seq<Row>, limits: Limits, promoted: seq<bool>, n: nat)
    requires n <= |promoted| && IsGreedy(rows, limits, promoted)
    ensures n == |Selected(rows, promoted, n)| +
      Refused(rows, limits, promoted, InvalidSourceRow, n) +
      Refused(rows, limits, promoted, SolutionTooShort, n) +
      Refused(rows, limits, promoted, ExplanationTooShort, n) +
      Refused(rows, limits, promoted, SolutionFamilyCap, n) +
      Refused(rows, limits, promoted, ConceptFamilyCap, n)
  {
    if n > 0 {
      EveryRowIsAccountedFor(rows, limits, promoted, n - 1);
      var refusal := Refusal(rows, limits, promoted, n - 1);
      assert refusal != Some(PromotionLimitReached) && (promoted[n - 1] <==> refusal == None);
    }
  }

  /** The output holds the promoted rows and no others, each behind those promoted before it. */
  lemma {:induction false} SelectedAt(rows: seq<Row>, promoted: seq<bool>, i: nat, n: nat)
    requires i < n <= |promoted| <= |rows| && promoted[i]
    ensures |Selected(rows, promoted, i)| < |Selected(rows, promoted, n)|
    ensures Selected(rows, promoted, n)[|Selected(rows, promoted, i)|] == rows[i]
    decreases n
  {
    if i < n - 1 {
      SelectedAt(rows, promoted, i, n - 1);
    }
  }

  lemma {:induction false} SelectedCounts(rows: seq<Row>, promoted: seq<bool>, n: nat)
    requires n <= |promoted| <= |rows|
    ensures |Selected(rows, promoted, n)| == multiset(promoted[..n])[true]
  {
    if n > 0 {
      SelectedCounts(rows, promoted, n - 1);
      assert promoted[..n] == promoted[..n - 1] + [promoted[n - 1]];
    }
  }

  /** What the report says of a scan: its families are the distinct keys of the promoted rows, and it stopped early
      only with the promotion that reached the limit, which is looked at after promotions only. */
  lemma ReportTells(rows: seq<Row>, limits: Limits, promoted: seq<bool>, output: seq<Row>, report: Report)
    requires IsReport(rows, limits, promoted, output, report)
    ensures report.scanned == |promoted| && report.promoted == |output| == multiset(promoted)[true]
    ensures report.uniqueSolutionFamilies == |set i | 0 <= i < |promoted| && promoted[i] :: rows[i].solutionKey|
    ensures report.uniqueConceptFamilies == |set i | 0 <= i < |promoted| && promoted[i] :: rows[i].conceptKey|
    ensures
      var most := if limits.maxRows <= 1 then 1 else limits.maxRows;
      && |output| <= most && (|promoted| < |rows| ==> |output| == most)
      && (|output| == most ==> promoted[|promoted| - 1])
      && Count(report.reasons, PromotionLimitReached) == if |output| == most then 1 else 0
  {
    SelectedCounts(rows, promoted, |promoted|);
    assert promoted[..|promoted|] == promoted;
    SameKeys(rows, promoted);
  }

  lemma SameKeys(rows: seq<Row>, promoted: seq<bool>)
    requires |promoted| <= |rows|
    ensures Families(promoted, rows, BySolution, |promoted|) ==
      set i | 0 <= i < |promoted| && promoted[i] :: rows[i].solutionKey
    ensures Families(promoted, rows, ByConcept, |promoted|) ==
      set i | 0 <= i < |promoted| && promoted[i] :: rows[i].conceptKey
  {
  }

  lemma {:induction false} SelectedSize(rows: seq<Row>, promoted: seq<bool>, n: nat)
    requires n <= |promoted| <= |rows|
    ensures |Selected(rows, promoted, n)| == Size(promoted, n)
  {
    if n > 0 {
      SelectedSize(rows, promoted, n - 1);
    }
  }

  // ----- The caps -----

  lemma {:induction false} FamilyGrows(selected: seq<bool>, rows: seq<Row>, kind: Kind, family: Key, m: nat, n: nat)
    requires m <= n <= |selected| && n <= |rows|
    ensures InFamily(selected, rows, kind, family, m) <= InFamily(selected, rows, kind, family, n)
  {
    if m < n {
      FamilyGrows(selected, rows, kind, family, m, n - 1);
    }
  }

  /** No family is promoted from beyond its cap. */
  lemma {:induction false} CapsHold(rows: seq<Row>, limits: Limits, promoted: seq<bool>, kind: Kind, family: Key,
                                    n: nat)
    requires n <= |promoted| && IsGreedy(rows, limits, promoted)
    ensures InFamily(promoted, rows, kind, family, n) <= Room(limits.Cap(kind))
  {
    if n > 0 {
      CapsHold(rows, limits, promoted, kind, family, n - 1);
    }
  }

  ghost predicate IsFull(selected: seq<bool>, rows: seq<Row>, limits: Limits, kind: Kind, family: Key)
    requires |selected| <= |rows|
  {
    InFamily(selected, rows, kind, family, |selected|) == Room(limits.Cap(kind))
  }

  /** A row that passes the other gates and is left out has a family that is exactly at its cap. */
  lemma LeftOutMeetsFullFamily(rows: seq<Row>, limits: Limits, promoted: seq<bool>, i: nat)
    requires i < |promoted| && IsGreedy(rows, limits, promoted)
    requires IsEligible(rows[i]) && !promoted[i]
    ensures
      || IsFull(promoted, rows, limits, BySolution, rows[i].solutionKey)
      || IsFull(promoted, rows, limits, ByConcept, rows[i].conceptKey)
  {
    CapsHold(rows, limits, promoted, BySolution, rows[i].solutionKey, |promoted|);
    CapsHold(rows, limits, promoted, ByConcept, rows[i].conceptKey, |promoted|);
    FamilyGrows(promoted, rows, BySolution, rows[i].solutionKey, i, |promoted|);
    FamilyGrows(promoted, rows, ByConcept, rows[i].conceptKey, i, |promoted|);
  }

  // ----- At least half of the best -----

  /** A selection of eligible rows within both caps. */
  ghost predicate IsFeasible(rows: seq<Row>, limits: Limits, selected: seq<bool>) {
    && |selected| == |rows|
    && (forall i :: 0 <= i < |rows| && selected[i] ==> IsEligible(rows[i]))
    && WithinCap(selected, rows, limits, BySolution)
    && WithinCap(selected, rows, limits, ByConcept)
  }

  /** The families a selection has filled up. */
  ghost function Full(selected: seq<bool>, rows: seq<Row>, limits: Limits, kind: Kind): set<Key>
    requires |rows| == |selected|
  {
    set i | 0 <= i < |rows| && IsFull(selected, rows, limits, kind, KeyOf(rows[i], kind)) :: KeyOf(rows[i], kind)
  }

  lemma {:induction false} WithoutFamily(selected: seq<bool>, rows: seq<Row>, kind: Kind, families: set<Key>,
                                         family: Key, n: nat)
    requires n <= |selected| && n <= |rows| && family in families
    ensures Within(selected, rows, kind, families, n) ==
      Within(selected, rows, kind, families - {family}, n) + InFamily(selected, rows, kind, family, n)
  {
    if n > 0 {
      WithoutFamily(selected, rows, kind, families, family, n - 1);
    }
  }

  lemma {:induction false} WithinNone(selected: seq<bool>, rows: seq<Row>, kind: Kind, n: nat)
    requires n <= |selected| && n <= |rows|
    ensures Within(selected, rows, kind, {}, n) == 0
  {
    if n > 0 {
      WithinNone(selected, rows, kind, n - 1);
    }
  }

  /** From families that one selection has filled, no other within the cap takes more. */
  lemma {:induction false} FullFamiliesHoldMost(selected: seq<bool>, best: seq<bool>, rows: seq<Row>, limits: Limits,
                                                kind: Kind, families: set<Key>)
    requires |selected| == |best| == |rows| && WithinCap(best, rows, limits, kind)
    requires families <= Full(selected, rows, limits, kind)
    ensures Within(best, rows, kind, families, |rows|) <= Within(selected, rows, kind, families, |rows|)
    decreases |families|
  {
    if families == {} {
      WithinNone(best, rows, kind, |rows|);
      WithinNone(selected, rows, kind, |rows|);
    } else {
      var family := Collections.SomeMember(families);
      FullFamiliesHoldMost(selected, best, rows, limits, kind, families - {family});
      WithoutFamily(best, rows, kind, families, family, |rows|);
      WithoutFamily(selected, rows, kind, families, family, |rows|);
    }
  }

  /** Each row of the other selection is in a full family of one kind or the other, or was taken too. */
  lemma {:induction false} Charged(taken: seq<bool>, best: seq<bool>, rows: seq<Row>, fullSolutions: set<Key>,
                                   fullConcepts: set<Key>, n: nat)
    requires n <= |taken| && n <= |best| && n <= |rows|
    requires forall i :: 0 <= i < n && best[i] ==>
      rows[i].solutionKey in fullSolutions || rows[i].conceptKey in fullConcepts || taken[i]
    ensures Size(best, n) + Within(taken, rows, ByConcept, fullConcepts, n) <=
      Within(best, rows, BySolution, fullSolutions, n) + Within(best, rows, ByConcept, fullConcepts, n) + Size(taken, n)
  {
    if n > 0 {
      Charged(taken, best, rows, fullSolutions, fullConcepts, n - 1);
    }
  }

  lemma {:induction false} WithinFits(selected: seq<bool>, rows: seq<Row>, kind: Kind, families: set<Key>, n: nat)
    requires n <= |selected| && n <= |rows|
    ensures Within(selected, rows, kind, families, n) <= Size(selected, n)
  {
    if n > 0 {
      WithinFits(selected, rows, kind, families, n - 1);
    }
  }

  /** When every row was scanned, no selection within the caps has more than twice as many rows. */
  lemma GreedyIsHalfOptimal(rows: seq<Row>, limits: Limits, promoted: seq<bool>, best: seq<bool>)
    requires IsGreedy(rows, limits, promoted) && |promoted| == |rows|
    requires IsFeasible(rows, limits, best)
    ensures Size(best, |rows|) <= 2 * |Selected(rows, promoted, |rows|)|
  {
    var n := |rows|;
    var fullSolutions := Full(promoted, rows, limits, BySolution);
    var fullConcepts := Full(promoted, rows, limits, ByConcept);
    forall i | 0 <= i < n && best[i]
      ensures rows[i].solutionKey in fullSolutions || rows[i].conceptKey in fullConcepts || promoted[i]
    {
      if !promoted[i] {
        LeftOutMeetsFullFamily(rows, limits, promoted, i);
        assert KeyOf(rows[i], BySolution) == rows[i].solutionKey && KeyOf(rows[i], ByConcept) == rows[i].conceptKey;
      }
    }
    Charged(promoted, best, rows, fullSolutions, fullConcepts, n);
    FullFamiliesHoldMost(promoted, best, rows, limits, BySolution, fullSolutions);
    FullFamiliesHoldMost(promoted, best, rows, limits, ByConcept, fullConcepts);
    WithinFits(promoted, rows, BySolution, fullSolutions, n);
    SelectedSize(rows, promoted, n);
  }

  /** The promoted rows are such a selection themselves. */
  lemma GreedyIsFeasible(rows: seq<Row>, limits: Limits, promoted: seq<bool>)
    requires IsGreedy(rows, limits, promoted) && |promoted| == |rows|
    ensures IsFeasible(rows, limits, promoted)
  {
    forall kind, family
      ensures InFamily(promoted, rows, kind, family, |promoted|) <= Room(limits.Cap(kind))
    {
      CapsHold(rows, limits, promoted, kind, family, |promoted|);
    }
  }

  /** The factor of two is reached: a row that takes up the room of two others comes first. */
  lemma HalfIsAttained(rows: seq<Row>)
    requires |rows| == 3 && forall i :: 0 <= i < 3 ==> IsEligible(rows[i])
    requires rows[0].solutionKey == rows[1].solutionKey != rows[2].solutionKey
    requires rows[0].conceptKey == rows[2].conceptKey != rows[1].conceptKey
    ensures IsGreedy(rows, Limits(1, 1, 100), [true, false, false]) && Size([true, false, false], 3) == 1
    ensures IsFeasible(rows, Limits(1, 1, 100), [false, true, true]) && Size([false, true, true], 3) == 2
  {
    var limits, promoted, best := Limits(1, 1, 100), [true, false, false], [false, true, true];
    assert InFamily(promoted, rows, BySolution, rows[1].solutionKey, 1) == 1;
    assert Refusal(rows, limits, promoted, 0) == None;
    assert Refusal(rows, limits, promoted, 1) == Some(SolutionFamilyCap);
    assert InFamily(promoted, rows, BySolution, rows[2].solutionKey, 1) == 0;
    assert InFamily(promoted, rows, ByConcept, rows[2].conceptKey, 1) == 1;
    assert Refusal(rows, limits, promoted, 2) == Some(ConceptFamilyCap);
    forall kind, family
      ensures InFamily(best, rows, kind, family, 3) <= Room(limits.Cap(kind))
    {
      assert InFamily(best, rows, kind, family, 1) == 0;
      assert InFamily(best, rows, kind, family, 2) <= 1;
    }
  }
}
