/** `DuplicateTracker` and `prepare_stream`: which rows of a corpus file are accepted, how they are
    classified, and what the counters add up to. */
module CorpusPreparation {
  import opened Wrappers
  import opened Names
  import opened Collections

  datatype Disposition = HostableLicensed | ExternalReferenceOnly | RightsReviewRequired | RejectedProprietary

  datatype Classification = CanonicalCandidate | LegitimateVariant | ReferenceOnly | RejectedQuarantined

  /** A topic name with the slug it reduces to. */
  datatype Topic = Topic(slug: Name, name: Name)

  /** The columns of a row, grouped by what becomes of them when it is imported. Column values stand
      for themselves. */
  datatype Content = Content(identity: Name, body: Name, serving: Name, topic: Topic, subtopic: Topic,
                             explanation: Name, language: Name, solution: Name)

  /** A row of the file: its number, whether it validates, and the keys it is compared by. */
  datatype SourceRow = SourceRow(number: nat, valid: bool, id: Name, fingerprint: Name, concept: Name, content: Content)

  datatype PreparedRow = PreparedRow(row: SourceRow, classification: Classification)

  datatype Counters = Counters(parsed: nat, validated: nat, rejected: nat, duplicateIds: nat,
                               duplicateFingerprints: nat,
                               canonical: nat, variants: nat, reviewRequired: nat, referenceOnly: nat)

  const FAILURES_KEPT := 100

  // ----- Specification -----

  /** Valid, with an identifier no earlier valid row has. */
  ghost predicate FreshId(rows: seq<SourceRow>, i: nat)
    requires i < |rows|
  {
    rows[i].valid && forall j :: 0 <= j < i && rows[j].valid ==> rows[j].id != rows[i].id
  }

  /** Also with a fingerprint no earlier row with a fresh identifier has. */
  ghost predicate Accepted(rows: seq<SourceRow>, i: nat)
    requires i < |rows|
  {
    && FreshId(rows, i)
    && forall j {:trigger FreshId(rows, j)} :: 0 <= j < i && FreshId(rows, j) ==>
      rows[j].fingerprint != rows[i].fingerprint
  }

  /** Also the first of its concept family to be accepted. */
  ghost predicate FirstOfFamily(rows: seq<SourceRow>, i: nat)
    requires i < |rows|
  {
    && Accepted(rows, i)
    && forall j {:trigger Accepted(rows, j)} :: 0 <= j < i && Accepted(rows, j) ==> rows[j].concept != rows[i].concept
  }

  datatype Fate = Invalid | DuplicateId | DuplicateFingerprint | Canonical | Variant

  ghost function FateOf(rows: seq<SourceRow>, i: nat): Fate
    requires i < |rows|
  {
    if !rows[i].valid then Invalid
    else if !FreshId(rows, i) then DuplicateId
    else if !Accepted(rows, i) then DuplicateFingerprint
    else if FirstOfFamily(rows, i) then Canonical
    else Variant
  }

  /** How many of the first `n` rows meet a fate. */
  ghost function Tally(rows: seq<SourceRow>, fate: Fate, n: nat): nat
    requires n <= |rows|
  {
    if n == 0 then 0 else Tally(rows, fate, n - 1) + if FateOf(rows, n - 1) == fate then 1 else 0
  }

  function Classify(disposition: Disposition, conceptIsNew: bool): Classification {
    match disposition
    case RejectedProprietary => RejectedQuarantined
    case ExternalReferenceOnly => ReferenceOnly
    case _ => if conceptIsNew then CanonicalCandidate else LegitimateVariant
  }

  /** The accepted ones of the first `n` rows, in order, each with its classification. */
  ghost function Prepared(rows: seq<SourceRow>, disposition: Disposition, n: nat): seq<PreparedRow>
    requires n <= |rows|
  {
    if n == 0 then []
    else
      var before := Prepared(rows, disposition, n - 1);
      if Accepted(rows, n - 1)
      then before + [PreparedRow(rows[n - 1], Classify(disposition, FirstOfFamily(rows, n - 1)))]
      else before
  }

  /** What the counters say after `n` rows. */
  ghost function Counted(rows: seq<SourceRow>, disposition: Disposition, n: nat): Counters
    requires n <= |rows|
  {
    var duplicateIds, duplicateFingerprints := Tally(rows, DuplicateId, n), Tally(rows, DuplicateFingerprint, n);
    var firsts, others := Tally(rows, Canonical, n), Tally(rows, Variant, n);
    var familiesKept := disposition.HostableLicensed? || disposition.RightsReviewRequired?;
    Counters(
      n,
      firsts + others,
      Tally(rows, Invalid, n) + duplicateIds + duplicateFingerprints +
      (if disposition.RejectedProprietary? then firsts + others else 0),
      duplicateIds,
      duplicateFingerprints,
      if familiesKept then firsts else 0,
      if familiesKept then others else 0,
      if disposition.RightsReviewRequired? then firsts + others else 0,
      if disposition.ExternalReferenceOnly? then firsts + others else 0)
  }

  /** The first hundred rows that do not validate. */
  ghost function Failures(rows: seq<SourceRow>, n: nat): seq<nat>
    requires n <= |rows|
  {
    if n == 0 then []
    else
      var before := Failures(rows, n - 1);
      if !rows[n - 1].valid && |before| < FAILURES_KEPT then before + [rows[n - 1].number] else before
  }

  // ----- Program -----

  /** Three tables of unique values; an insertion says whether the value was new. */
  class DuplicateTracker {
    var ids: set<Name>
    var fingerprints: set<Name>
    var concepts: set<Name>

    constructor ()
      ensures ids == fingerprints == concepts == {}
    {
      ids, fingerprints, concepts := {}, {}, {};
    }

    method AddId(value: Name) returns (isNew: bool)
      modifies this`ids
      ensures isNew <==> value !in old(ids)
      ensures ids == old(ids) + {value}
    {
      isNew := value !in ids;
      ids := ids + {value};
    }

    method AddFingerprint(value: Name) returns (isNew: bool)
      modifies this`fingerprints
      ensures isNew <==> value !in old(fingerprints)
      ensures fingerprints == old(fingerprints) + {value}
    {
      isNew := value !in fingerprints;
      fingerprints := fingerprints + {value};
    }

    method AddConcept(value: Name) returns (isNew: bool)
      modifies this`concepts
      ensures isNew <==> value !in old(concepts)
      ensures concepts == old(concepts) + {value}
    {
      isNew := value !in concepts;
      concepts := concepts + {value};
    }
  }

  /** The generator `prepare_stream`, advanced one row of the file at a time. */
  class PreparedStream {
    const disposition: Disposition
    const tracker: DuplicateTracker
    var counters: Counters
    var failures: seq<nat>

    constructor (disposition: Disposition)
      ensures this.disposition == disposition && fresh(tracker)
      ensures Has([], 0)
    {
      this.disposition := disposition;
      tracker := new DuplicateTracker();
      counters := Counters(0, 0, 0, 0, 0, 0, 0, 0, 0);
      failures := [];
    }

    /** The state after the first `n` rows. */
    ghost predicate Has(rows: seq<SourceRow>, n: nat)
      requires n <= |rows|
      reads this, tracker
    {
      && Seen(rows, n, tracker.ids, tracker.fingerprints, tracker.concepts)
      && counters == Counted(rows, disposition, n)
      && failures == Failures(rows, n)
    }

    /** What the body of the loop does with row `n`: yield it classified, or reject it. */
    method Next(ghost rows: seq<SourceRow>, ghost n: nat, row: SourceRow) returns (yielded: Option<PreparedRow>)
      requires n < |rows| && rows[n] == row && Has(rows, n)
      modifies this, tracker
      ensures Has(rows, n + 1)
      ensures yielded == if Accepted(rows, n)
        then Some(PreparedRow(row, Classify(disposition, FirstOfFamily(rows, n)))) else None
    {
      RowIsCounted(counters, rows, disposition, n);
      counters := counters.(parsed := counters.parsed + 1);
      var fate := Track(rows, n, row);
      match fate {
        case Invalid =>
          counters := counters.(rejected := counters.rejected + 1);
          if |failures| < FAILURES_KEPT {
            failures := failures + [row.number];
          }
        case DuplicateId =>
          counters := counters.(duplicateIds := counters.duplicateIds + 1, rejected := counters.rejected + 1);
        case DuplicateFingerprint =>
          counters := counters.(duplicateFingerprints := counters.duplicateFingerprints + 1,
                                rejected := counters.rejected + 1);
        case _ =>
          counters := CountAccepted(counters, disposition, fate == Canonical);
      }
      yielded := if fate == Canonical || fate == Variant
        then Some(PreparedRow(row, Classify(disposition, fate == Canonical))) else None;
    }

    /** Validation and the three uniqueness checks, each reached only if the one before it passed. */
    method Track(ghost rows: seq<SourceRow>, ghost n: nat, row: SourceRow) returns (fate: Fate)
      requires n < |rows| && rows[n] == row
      requires Seen(rows, n, tracker.ids, tracker.fingerprints, tracker.concepts)
      modifies tracker
      ensures fate == FateOf(rows, n)
      ensures Seen(rows, n + 1, tracker.ids, tracker.fingerprints, tracker.concepts)
    {
      SetsGrow(rows, n);
      FateFromSets(rows, n);
      if !row.valid {
        return Invalid;
      }
      var idIsNew := tracker.AddId(row.id);
      if !idIsNew {
        return DuplicateId;
      }
      var fingerprintIsNew := tracker.AddFingerprint(row.fingerprint);
      if !fingerprintIsNew {
        return DuplicateFingerprint;
      }
      var conceptIsNew := tracker.AddConcept(row.concept);
      return if conceptIsNew then Canonical else Variant;
    }
  }

  ghost function ValidIds(rows: seq<SourceRow>, n: nat): set<Name>
    requires n <= |rows|
  {
    set j | 0 <= j < n && rows[j].valid :: rows[j].id
  }

  ghost function FreshFingerprints(rows: seq<SourceRow>, n: nat): set<Name>
    requires n <= |rows|
  {
    set j | 0 <= j < n && FreshId(rows, j) :: rows[j].fingerprint
  }

  /** The distinct concept families among the accepted rows. */
  ghost function Families(rows: seq<SourceRow>, n: nat): set<Name>
    requires n <= |rows|
  {
    set j | 0 <= j < n && Accepted(rows, j) :: rows[j].concept
  }

  /** What the tracker holds after `n` rows. */
  ghost predicate Seen(rows: seq<SourceRow>, n: nat, ids: set<Name>, fingerprints: set<Name>, concepts: set<Name>)
    requires n <= |rows|
  {
    ids == ValidIds(rows, n) && fingerprints == FreshFingerprints(rows, n) && concepts == Families(rows, n)
  }

  lemma SetsGrow(rows: seq<SourceRow>, n: nat)
    requires n < |rows|
    ensures ValidIds(rows, n + 1) == ValidIds(rows, n) + if rows[n].valid then {rows[n].id} else {}
    ensures FreshFingerprints(rows, n + 1) ==
      FreshFingerprints(rows, n) + if FreshId(rows, n) then {rows[n].fingerprint} else {}
    ensures Families(rows, n + 1) == Families(rows, n) + if Accepted(rows, n) then {rows[n].concept} else {}
  {
    IdsGrow(rows, n);
    FingerprintsGrow(rows, n);
    ConceptsGrow(rows, n);
  }

  lemma IdsGrow(rows: seq<SourceRow>, n: nat)
    requires n < |rows|
    ensures ValidIds(rows, n + 1) == ValidIds(rows, n) + if rows[n].valid then {rows[n].id} else {}
  {
    assert rows[n].valid ==> rows[n].id in ValidIds(rows, n + 1);
  }

  lemma FingerprintsGrow(rows: seq<SourceRow>, n: nat)
    requires n < |rows|
    ensures FreshFingerprints(rows, n + 1) ==
      FreshFingerprints(rows, n) + if FreshId(rows, n) then {rows[n].fingerprint} else {}
  {
    assert FreshId(rows, n) ==> rows[n].fingerprint in FreshFingerprints(rows, n + 1);
  }

  lemma ConceptsGrow(rows: seq<SourceRow>, n: nat)
    requires n < |rows|
    ensures Families(rows, n + 1) == Families(rows, n) + if Accepted(rows, n) then {rows[n].concept} else {}
  {
    assert Accepted(rows, n) ==> rows[n].concept in Families(rows, n + 1);
  }

  /** The fate of a row is decided by what the tracker holds when it is reached. */
  lemma FateFromSets(rows: seq<SourceRow>, n: nat)
    requires n < |rows|
    ensures FreshId(rows, n) <==> rows[n].valid && rows[n].id !in ValidIds(rows, n)
    ensures Accepted(rows, n) <==> FreshId(rows, n) && rows[n].fingerprint !in FreshFingerprints(rows, n)
    ensures FirstOfFamily(rows, n) <==> Accepted(rows, n) && rows[n].concept !in Families(rows, n)
  {
  }

  /** The counters moved by an accepted row. */
  function CountAccepted(c: Counters, disposition: Disposition, conceptIsNew: bool): Counters {
    var validated := c.(validated := c.validated + 1);
    var reviewed := if disposition == RightsReviewRequired
                    then validated.(reviewRequired := c.reviewRequired + 1) else validated;
    match Classify(disposition, conceptIsNew)
    case CanonicalCandidate => reviewed.(canonical := c.canonical + 1)
    case LegitimateVariant => reviewed.(variants := c.variants + 1)
    case ReferenceOnly => reviewed.(referenceOnly := c.referenceOnly + 1)
    case RejectedQuarantined => reviewed.(rejected := c.rejected + 1)
  }

  /** The counters moved by a row, after it has been counted as parsed. */
  ghost function CountFate(c: Counters, disposition: Disposition, fate: Fate): Counters {
    match fate
    case Invalid => c.(rejected := c.rejected + 1)
    case DuplicateId => c.(duplicateIds := c.duplicateIds + 1, rejected := c.rejected + 1)
    case DuplicateFingerprint => c.(duplicateFingerprints := c.duplicateFingerprints + 1, rejected := c.rejected + 1)
    case Canonical => CountAccepted(c, disposition, true)
    case Variant => CountAccepted(c, disposition, false)
  }

  lemma RowIsCounted(c: Counters, rows: seq<SourceRow>, disposition: Disposition, n: nat)
    requires n < |rows| && c == Counted(rows, disposition, n)
    ensures CountFate(c.(parsed := c.parsed + 1), disposition, FateOf(rows, n)) == Counted(rows, disposition, n + 1)
  {
    TallyGrows(rows, n);
  }

  lemma TallyGrows(rows: seq<SourceRow>, n: nat)
    requires n < |rows|
    ensures forall fate :: Tally(rows, fate, n + 1) == Tally(rows, fate, n) + if FateOf(rows, n) == fate then 1 else 0
  {
  }

  /** `c` is what the counters say when prepared row `j` is yielded. */
  ghost predicate IsSnapshot(rows: seq<SourceRow>, disposition: Disposition, j: nat, c: Counters) {
    exists i :: 0 <= i < |rows| && Accepted(rows, i) && |Prepared(rows, disposition, i)| == j &&
                c == Counted(rows, disposition, i + 1)
  }

  ghost predicate AreSnapshots(rows: seq<SourceRow>, disposition: Disposition, snapshots: seq<Counters>) {
    forall j :: 0 <= j < |snapshots| ==> IsSnapshot(rows, disposition, j, snapshots[j])
  }

  lemma SnapshotsGrow(rows: seq<SourceRow>, disposition: Disposition, snapshots: seq<Counters>, i: nat, c: Counters)
    requires AreSnapshots(rows, disposition, snapshots) && i < |rows| && Accepted(rows, i)
    requires |Prepared(rows, disposition, i)| == |snapshots| && c == Counted(rows, disposition, i + 1)
    ensures AreSnapshots(rows, disposition, snapshots + [c])
  {
    assert IsSnapshot(rows, disposition, |snapshots|, c);
  }

  /** Consuming the whole stream; `snapshots` are the counters as they stood at each row yielded. */
  method PrepareAll(rows: seq<SourceRow>, disposition: Disposition)
    returns (prepared: seq<PreparedRow>, snapshots: seq<Counters>, counters: Counters, failures: seq<nat>)
    ensures prepared == Prepared(rows, disposition, |rows|) && |snapshots| == |prepared|
    ensures AreSnapshots(rows, disposition, snapshots)
    ensures counters == Counted(rows, disposition, |rows|)
    ensures failures == Failures(rows, |rows|)
  {
    var stream := new PreparedStream(disposition);
    prepared, snapshots := [], [];
    for i := 0 to |rows|
      invariant fresh(stream) && fresh(stream.tracker)
      invariant stream.disposition == disposition && stream.Has(rows, i)
      invariant prepared == Prepared(rows, disposition, i) && |snapshots| == |prepared|
      invariant AreSnapshots(rows, disposition, snapshots)
    {
      var yielded := stream.Next(rows, i, rows[i]);
      if yielded.Some? {
        SnapshotsGrow(rows, disposition, snapshots, i, stream.counters);
        prepared := prepared + [yielded.value];
        snapshots := snapshots + [stream.counters];
      }
    }
    return prepared, snapshots, stream.counters, stream.failures;
  }

  // ----- What the counters mean -----

  /** Every row meets exactly one fate, so parsed rows are validated rows plus those rejected before
      classification, whatever the disposition. */
  lemma {:induction false} EveryRowIsCounted(rows: seq<SourceRow>, n: nat)
    requires n <= |rows|
    ensures n == Tally(rows, Invalid, n) + Tally(rows, DuplicateId, n) + Tally(rows, DuplicateFingerprint, n) +
      Tally(rows, Canonical, n) + Tally(rows, Variant, n)
  {
    if n > 0 {
      EveryRowIsCounted(rows, n - 1);
    }
  }

  lemma CountersBalance(c: Counters, rows: seq<SourceRow>, disposition: Disposition, n: nat)
    requires n <= |rows| && c == Counted(rows, disposition, n)
    ensures c.parsed == c.validated + Tally(rows, Invalid, n) + c.duplicateIds + c.duplicateFingerprints
    ensures !disposition.RejectedProprietary? ==> c.parsed == c.validated + c.rejected
    ensures disposition.RejectedProprietary? ==> c.parsed == c.rejected
    ensures c.validated == |Prepared(rows, disposition, n)|
  {
    EveryRowIsCounted(rows, n);
    PreparedIsCounted(rows, disposition, n);
  }

  lemma {:induction false} PreparedIsCounted(rows: seq<SourceRow>, disposition: Disposition, n: nat)
    requires n <= |rows|
    ensures |Prepared(rows, disposition, n)| == Tally(rows, Canonical, n) + Tally(rows, Variant, n)
  {
    if n > 0 {
      PreparedIsCounted(rows, disposition, n - 1);
    }
  }

  /** The prepared rows that got a classification. */
  ghost function ClassifiedAs(rows: seq<SourceRow>, disposition: Disposition, classification: Classification,
                              n: nat): nat
    requires n <= |rows|
  {
    multiset(Classifications(Prepared(rows, disposition, n)))[classification]
  }

  function Classifications(prepared: seq<PreparedRow>): seq<Classification> {
    if prepared == [] then []
    else Classifications(prepared[..|prepared| - 1]) + [prepared[|prepared| - 1].classification]
  }

  /** What a row of some fate adds to the classifications. */
  function Classified(disposition: Disposition, fate: Fate): seq<Classification> {
    if fate == Canonical then [Classify(disposition, true)]
    else if fate == Variant then [Classify(disposition, false)]
    else []
  }

  lemma OneMoreClassification(prepared: seq<PreparedRow>, row: PreparedRow)
    ensures Classifications(prepared + [row]) == Classifications(prepared) + [row.classification]
  {
    assert (prepared + [row])[..|prepared|] == prepared;
  }

  lemma ClassificationsGrow(rows: seq<SourceRow>, disposition: Disposition, n: nat)
    requires n < |rows|
    ensures Classifications(Prepared(rows, disposition, n + 1)) ==
      Classifications(Prepared(rows, disposition, n)) + Classified(disposition, FateOf(rows, n))
  {
    var before := Prepared(rows, disposition, n);
    if Accepted(rows, n) {
      OneMoreClassification(before, PreparedRow(rows[n], Classify(disposition, FirstOfFamily(rows, n))));
    }
  }

  /** How accepted rows are classified: by the disposition of the file alone if it is only referred to or
      rejected, and otherwise as canonical or variant of a concept family. */
  lemma ClassifiesExactly(disposition: Disposition, conceptIsNew: bool)
    ensures Classify(disposition, conceptIsNew) == RejectedQuarantined <==> disposition == RejectedProprietary
    ensures Classify(disposition, conceptIsNew) == ReferenceOnly <==> disposition == ExternalReferenceOnly
    ensures Classify(disposition, conceptIsNew) == CanonicalCandidate <==>
      disposition in {HostableLicensed, RightsReviewRequired} && conceptIsNew
    ensures Classify(disposition, conceptIsNew) == LegitimateVariant <==>
      disposition in {HostableLicensed, RightsReviewRequired} && !conceptIsNew
  {
  }

  /** What each of the nine counters counts: rows, accepted rows, those of one fate, or those of one classification. */
  lemma {:induction false} CountersTell(rows: seq<SourceRow>, disposition: Disposition, n: nat)
    requires n <= |rows|
    ensures
      var c := Counted(rows, disposition, n);
      && c.parsed == n && c.validated == |Prepared(rows, disposition, n)|
      && c.duplicateIds == Tally(rows, DuplicateId, n)
      && c.duplicateFingerprints == Tally(rows, DuplicateFingerprint, n)
      && c.canonical == ClassifiedAs(rows, disposition, CanonicalCandidate, n)
      && c.variants == ClassifiedAs(rows, disposition, LegitimateVariant, n)
      && c.referenceOnly == ClassifiedAs(rows, disposition, ReferenceOnly, n)
      && c.rejected == n - |Prepared(rows, disposition, n)| + ClassifiedAs(rows, disposition, RejectedQuarantined, n)
      && c.reviewRequired == if disposition == RightsReviewRequired then |Prepared(rows, disposition, n)| else 0
  {
    CountersBalance(Counted(rows, disposition, n), rows, disposition, n);
    ClassifiedExactly(rows, disposition, CanonicalCandidate, n);
    ClassifiedExactly(rows, disposition, LegitimateVariant, n);
    ClassifiedExactly(rows, disposition, ReferenceOnly, n);
    ClassifiedExactly(rows, disposition, RejectedQuarantined, n);
  }

  /** How often a classification comes up among so many canonical rows and variants. */
  function Share(c: Classification, disposition: Disposition, canonicals: nat, variants: nat): nat {
    (if c == Classify(disposition, true) then canonicals else 0) +
    (if c == Classify(disposition, false) then variants else 0)
  }

  lemma OneClassified(before: seq<Classification>, c: Classification, disposition: Disposition, fate: Fate,
                      canonicals: nat, variants: nat)
    requires multiset(before)[c] == Share(c, disposition, canonicals, variants)
    ensures multiset(before + Classified(disposition, fate))[c] ==
      Share(c, disposition, canonicals + if fate == Canonical then 1 else 0,
            variants + if fate == Variant then 1 else 0)
  {
    if Classified(disposition, fate) == [] {
      assert before + [] == before;
    }
  }

  ghost function Fates(rows: seq<SourceRow>, n: nat): seq<Fate>
    requires n <= |rows|
  {
    if n == 0 then [] else Fates(rows, n - 1) + [FateOf(rows, n - 1)]
  }

  /** The counters of duplicates and failures count the rows that met these fates. */
  lemma {:induction false} TallyCounts(rows: seq<SourceRow>, fate: Fate, n: nat)
    requires n <= |rows|
    ensures Tally(rows, fate, n) == multiset(Fates(rows, n))[fate]
  {
    if n > 0 {
      TallyCounts(rows, fate, n - 1);
      CountGrows(Fates(rows, n - 1), FateOf(rows, n - 1), fate);
    }
  }

  /** The classifications that rows of some fates get. */
  function ClassifiedAll(disposition: Disposition, fates: seq<Fate>): seq<Classification> {
    if fates == [] then []
    else ClassifiedAll(disposition, fates[..|fates| - 1]) + Classified(disposition, fates[|fates| - 1])
  }

  lemma {:induction false} ClassifiedShare(c: Classification, disposition: Disposition, fates: seq<Fate>)
    ensures multiset(ClassifiedAll(disposition, fates))[c] ==
      Share(c, disposition, multiset(fates)[Canonical], multiset(fates)[Variant])
  {
    if fates != [] {
      var front, last := fates[..|fates| - 1], fates[|fates| - 1];
      ClassifiedShare(c, disposition, front);
      ShareGrows(c, disposition, front, last);
      assert fates == front + [last];
    }
  }

  lemma ShareGrows(c: Classification, disposition: Disposition, front: seq<Fate>, last: Fate)
    requires multiset(ClassifiedAll(disposition, front))[c] ==
      Share(c, disposition, multiset(front)[Canonical], multiset(front)[Variant])
    ensures multiset(ClassifiedAll(disposition, front) + Classified(disposition, last))[c] ==
      Share(c, disposition, multiset(front + [last])[Canonical], multiset(front + [last])[Variant])
  {
    OneClassified(ClassifiedAll(disposition, front), c, disposition, last, multiset(front)[Canonical],
                  multiset(front)[Variant]);
    CountGrows(front, last, Canonical);
    CountGrows(front, last, Variant);
  }

  lemma OneMoreClassified(disposition: Disposition, fates: seq<Fate>, last: Fate)
    ensures ClassifiedAll(disposition, fates + [last]) ==
      ClassifiedAll(disposition, fates) + Classified(disposition, last)
  {
    assert (fates + [last])[..|fates|] == fates;
  }

  lemma {:induction false} ClassificationsAre(rows: seq<SourceRow>, disposition: Disposition, n: nat)
    requires n <= |rows|
    ensures Classifications(Prepared(rows, disposition, n)) == ClassifiedAll(disposition, Fates(rows, n))
  {
    if n > 0 {
      ClassificationsAre(rows, disposition, n - 1);
      ClassificationsStep(rows, disposition, n - 1);
    }
  }

  lemma ClassificationsStep(rows: seq<SourceRow>, disposition: Disposition, n: nat)
    requires n < |rows|
    requires Classifications(Prepared(rows, disposition, n)) == ClassifiedAll(disposition, Fates(rows, n))
    ensures Classifications(Prepared(rows, disposition, n + 1)) == ClassifiedAll(disposition, Fates(rows, n + 1))
  {
    var fate := FateOf(rows, n);
    ClassificationsGrow(rows, disposition, n);
    OneMoreClassified(disposition, Fates(rows, n), fate);
    assert Fates(rows, n + 1) == Fates(rows, n) + [fate];
  }

  lemma ClassifiedExactly(rows: seq<SourceRow>, disposition: Disposition, c: Classification, n: nat)
    requires n <= |rows|
    ensures ClassifiedAs(rows, disposition, c, n) ==
      Share(c, disposition, Tally(rows, Canonical, n), Tally(rows, Variant, n))
  {
    ClassificationsAre(rows, disposition, n);
    ClassifiedShare(c, disposition, Fates(rows, n));
    TallyCounts(rows, Canonical, n);
    TallyCounts(rows, Variant, n);
  }

  /** The fate of a row, told from the rows before it. */
  lemma FateExactly(rows: seq<SourceRow>, i: nat)
    requires i < |rows|
    ensures
      var row := rows[i];
      var idTaken := exists j :: 0 <= j < i && rows[j].valid && rows[j].id == row.id;
      var fingerprintTaken := exists j :: 0 <= j < i && FreshId(rows, j) && rows[j].fingerprint == row.fingerprint;
      var familyTaken := exists j :: 0 <= j < i && Accepted(rows, j) && rows[j].concept == row.concept;
      && (FateOf(rows, i) == Invalid <==> !row.valid)
      && (FateOf(rows, i) == DuplicateId <==> row.valid && idTaken)
      && (FateOf(rows, i) == DuplicateFingerprint <==> row.valid && !idTaken && fingerprintTaken)
      && (FateOf(rows, i) == Canonical <==> row.valid && !idTaken && !fingerprintTaken && !familyTaken)
      && (FateOf(rows, i) == Variant <==> row.valid && !idTaken && !fingerprintTaken && familyTaken)
  {
  }

  /** The failures kept are the numbers of the first hundred invalid rows, in order. */
  lemma {:induction false} FailuresTell(rows: seq<SourceRow>, n: nat, i: nat)
    requires i < n <= |rows| && !rows[i].valid && Tally(rows, Invalid, i) < 100
    ensures Tally(rows, Invalid, i) < |Failures(rows, n)|
    ensures Failures(rows, n)[Tally(rows, Invalid, i)] == rows[i].number
    decreases n
  {
    FailuresAreCounted(rows, n - 1);
    if i < n - 1 {
      FailuresTell(rows, n - 1, i);
    }
  }

  lemma {:induction false} FailuresAreCounted(rows: seq<SourceRow>, n: nat)
    requires n <= |rows|
    ensures |Failures(rows, n)| == if Tally(rows, Invalid, n) < 100 then Tally(rows, Invalid, n) else 100
  {
    if n > 0 {
      FailuresAreCounted(rows, n - 1);
      InvalidAreTallied(rows, n - 1);
    }
  }

  lemma InvalidAreTallied(rows: seq<SourceRow>, n: nat)
    requires n < |rows|
    ensures Tally(rows, Invalid, n + 1) == Tally(rows, Invalid, n) + if rows[n].valid then 0 else 1
  {
    assert FateOf(rows, n) == Invalid <==> !rows[n].valid;
  }

  lemma FamiliesGrow(rows: seq<SourceRow>, n: nat)
    requires n < |rows|
    ensures |Families(rows, n + 1)| == |Families(rows, n)| + if FirstOfFamily(rows, n) then 1 else 0
  {
    var before, family := Families(rows, n), rows[n].concept;
    SetsGrow(rows, n);
    FateFromSets(rows, n);
    if Accepted(rows, n) {
      assert Families(rows, n + 1) == before + {family};
      InsertSize(before, family);
    } else {
      assert Families(rows, n + 1) == before;
    }
  }

  lemma CanonicalsGrow(rows: seq<SourceRow>, n: nat)
    requires n < |rows|
    ensures Tally(rows, Canonical, n + 1) == Tally(rows, Canonical, n) + if FirstOfFamily(rows, n) then 1 else 0
  {
    assert FateOf(rows, n) == Canonical <==> FirstOfFamily(rows, n);
  }

  /** There are as many canonical rows as distinct families. */
  lemma {:induction false} CanonicalCountsFamilies(rows: seq<SourceRow>, n: nat)
    requires n <= |rows|
    ensures Tally(rows, Canonical, n) == |Families(rows, n)|
  {
    if n == 0 {
      NoFamilies(rows);
    } else {
      CanonicalCountsFamilies(rows, n - 1);
      BothGrow(rows, n - 1);
    }
  }

  lemma BothGrow(rows: seq<SourceRow>, n: nat)
    requires n < |rows|
    ensures Tally(rows, Canonical, n + 1) - |Families(rows, n + 1)| == Tally(rows, Canonical, n) - |Families(rows, n)|
  {
    CanonicalsGrow(rows, n);
    FamiliesGrow(rows, n);
  }

  lemma NoFamilies(rows: seq<SourceRow>)
    ensures |Families(rows, 0)| == 0
  {
    assert Families(rows, 0) == {};
  }

  /** The rows prepared are accepted rows of the file, in file order. */
  lemma {:induction false} PreparedAreAccepted(rows: seq<SourceRow>, disposition: Disposition, n: nat)
    requires n <= |rows| && Numbered(rows)
    ensures Ascending(Prepared(rows, disposition, n))
    ensures forall p :: p in Prepared(rows, disposition, n) ==>
      exists i :: 0 <= i < n && Accepted(rows, i) && p.row == rows[i]
  {
    if n > 0 {
      PreparedAreAccepted(rows, disposition, n - 1);
      var before := Prepared(rows, disposition, n - 1);
      forall a | 0 <= a < |before|
        ensures before[a].row.number < rows[n - 1].number
      {
        assert before[a] in before;
      }
    }
  }

  /** Every accepted row is prepared, as the first of its family or as a variant. */
  lemma {:induction false} AcceptedArePrepared(rows: seq<SourceRow>, disposition: Disposition, i: nat, n: nat)
    requires i < n <= |rows| && Accepted(rows, i)
    ensures PreparedRow(rows[i], Classify(disposition, FirstOfFamily(rows, i))) in Prepared(rows, disposition, n)
  {
    if i < n - 1 {
      AcceptedArePrepared(rows, disposition, i, n - 1);
    }
  }

  ghost predicate Numbered(rows: seq<SourceRow>) {
    forall i, j :: 0 <= i < j < |rows| ==> rows[i].number < rows[j].number
  }

  ghost predicate Ascending(prepared: seq<PreparedRow>) {
    forall a, b :: 0 <= a < b < |prepared| ==> prepared[a].row.number < prepared[b].row.number
  }

  lemma AcceptedAreUnique(rows: seq<SourceRow>, i: nat, j: nat)
    requires i < j < |rows| && Accepted(rows, i) && Accepted(rows, j)
    ensures rows[i].id != rows[j].id && rows[i].fingerprint != rows[j].fingerprint
  {
  }

  /** No two prepared rows share an identifier or a fingerprint. */
  lemma {:induction false} PreparedAreUnique(rows: seq<SourceRow>, disposition: Disposition, n: nat)
    requires n <= |rows| && Numbered(rows)
    ensures forall a, b :: 0 <= a < b < |Prepared(rows, disposition, n)| ==>
      KeysDiffer(Prepared(rows, disposition, n)[a].row, Prepared(rows, disposition, n)[b].row)
  {
    if n > 0 {
      PreparedAreUnique(rows, disposition, n - 1);
      if Accepted(rows, n - 1) {
        var before := Prepared(rows, disposition, n - 1);
        forall a | 0 <= a < |before|
          ensures KeysDiffer(before[a].row, rows[n - 1])
        {
          PreparedAreAccepted(rows, disposition, n - 1);
          assert before[a] in before;
          var i :| 0 <= i < n - 1 && Accepted(rows, i) && before[a].row == rows[i];
          AcceptedAreUnique(rows, i, n - 1);
        }
      }
    }
  }

  ghost predicate KeysDiffer(a: SourceRow, b: SourceRow) {
    a.id != b.id && a.fingerprint != b.fingerprint
  }
}
