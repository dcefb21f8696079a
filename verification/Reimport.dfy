/** Importing the same rows again: whatever rows one run of the import holds, repeated questions
    included, a second run changes no version and no pointer, and a run that was broken off is made
    good by a whole one. */
module Reimport {
  import opened Wrappers
  import opened Names
  import opened Versions

  /** The imports of one run: one version label, the same tracks, and hashes that tell rows apart. */
  ghost predicate IsOneRun(upserts: seq<Upsert>) {
    forall i, j :: 0 <= i < |upserts| && 0 <= j < |upserts| ==> FitTogether(upserts[i], upserts[j])
  }

  ghost predicate FitTogether(u: Upsert, v: Upsert) {
    u.version == v.version && u.seeded == v.seeded && (u.row.hash == v.row.hash ==> u == v)
  }

  /** An import that would change nothing. */
  predicate Settled(bank: Bank, u: Upsert) {
    !Republishes(bank, u) && !Writes(bank, u)
  }

  predicate HasTrack(u: Upsert) {
    TrackOf(u).Some?
  }

  /** The last of the first `n` imports that concerns a version and has a track. */
  ghost function Last(upserts: seq<Upsert>, n: nat, id: VersionId): (last: Option<nat>)
    requires n <= |upserts|
    ensures last.Some? ==> last.value < n && upserts[last.value].Id() == id && HasTrack(upserts[last.value])
  {
    if n == 0 then None
    else if upserts[n - 1].Id() == id && HasTrack(upserts[n - 1]) then Some(n - 1)
    else Last(upserts, n - 1, id)
  }

  /** None of the first `n` imports changes the version any more. */
  ghost predicate AllSettled(bank: Bank, upserts: seq<Upsert>, n: nat, id: VersionId)
    requires n <= |upserts|
  {
    forall i :: 0 <= i < n && upserts[i].Id() == id ==> Settled(bank, upserts[i])
  }

  /** None of them publishes the version. */
  ghost predicate NonePublishes(upserts: seq<Upsert>, n: nat, id: VersionId)
    requires n <= |upserts|
  {
    forall i :: 0 <= i < n && upserts[i].Id() == id && HasTrack(upserts[i]) ==> !upserts[i].publish
  }

  /** The version is what the last of them writes, and it waits for review. */
  ghost predicate IsLastWritten(bank: Bank, upserts: seq<Upsert>, n: nat, id: VersionId)
    requires n <= |upserts|
  {
    && NonePublishes(upserts, n, id) && Last(upserts, n, id).Some?
    && var u := upserts[Last(upserts, n, id).value];
       id in bank.versions && bank.versions[id] == Written(u, TrackOf(u).value)
  }

  ghost predicate IsReached(bank: Bank, upserts: seq<Upsert>, n: nat, id: VersionId)
    requires n <= |upserts|
  {
    AllSettled(bank, upserts, n, id) || IsLastWritten(bank, upserts, n, id)
  }

  // ----- Where a run ends -----

  lemma PublishedIsSettled(bank: Bank, u: Upsert)
    requires u.Id() in bank.versions && bank.versions[u.Id()].state == Published
    ensures Settled(bank, u)
  {
  }

  /** An import changes nothing exactly when it is settled. */
  lemma SettledExactly(bank: Bank, u: Upsert)
    ensures Upserted(bank, u) == bank <==> Settled(bank, u)
  {
    if !Settled(bank, u) {
      var after := Upserted(bank, u);
      assert u.Id() in after.versions;
      assert u.Id() in bank.versions ==> after.versions[u.Id()] != bank.versions[u.Id()];
    }
  }

  /** An import touches no other question's versions. */
  lemma OtherQuestionsStay(bank: Bank, u: Upsert, id: VersionId)
    requires IsSound(bank) && id.question != u.row.canonicalId
    ensures id in Upserted(bank, u).versions <==> id in bank.versions
    ensures id in bank.versions ==> Upserted(bank, u).versions[id] == bank.versions[id]
  {
    if u.row.canonicalId in bank.current {
      assert bank.current[u.row.canonicalId].question == u.row.canonicalId;
    }
  }

  lemma SettledElsewhere(bank: Bank, after: Bank, u: Upsert)
    requires u.Id() in bank.versions <==> u.Id() in after.versions
    requires u.Id() in bank.versions ==> bank.versions[u.Id()] == after.versions[u.Id()]
    ensures Settled(bank, u) == Settled(after, u)
  {
  }

  lemma OtherStaysReached(bank: Bank, upserts: seq<Upsert>, n: nat, id: VersionId)
    requires n < |upserts| && IsSound(bank) && IsReached(bank, upserts, n, id) && upserts[n].Id() != id
    requires upserts[n].version == id.version
    ensures IsReached(Upserted(bank, upserts[n]), upserts, n + 1, id)
  {
    OtherQuestionsStay(bank, upserts[n], id);
    if AllSettled(bank, upserts, n, id) {
      forall i | 0 <= i < n && upserts[i].Id() == id
        ensures Settled(Upserted(bank, upserts[n]), upserts[i])
      {
        SettledElsewhere(bank, Upserted(bank, upserts[n]), upserts[i]);
      }
    }
  }

  /** The step of an import that publishes, by writing or without: then nothing changes the version. */
  lemma PublishedIsReached(after: Bank, upserts: seq<Upsert>, n: nat, id: VersionId)
    requires n <= |upserts| && id in after.versions && after.versions[id].state == Published
    ensures AllSettled(after, upserts, n, id)
  {
    forall i | 0 <= i < n && upserts[i].Id() == id
      ensures Settled(after, upserts[i])
    {
      PublishedIsSettled(after, upserts[i]);
    }
  }

  /** An import that writes without publishing comes after none that publishes. */
  lemma WritingComesAfterNoPublication(bank: Bank, upserts: seq<Upsert>, n: nat)
    requires n < |upserts| && Writes(bank, upserts[n]) && !upserts[n].publish
    requires IsReached(bank, upserts, n, upserts[n].Id())
    ensures NonePublishes(upserts, n + 1, upserts[n].Id())
  {
    var id := upserts[n].Id();
    if AllSettled(bank, upserts, n, id) {
      forall i | 0 <= i < n && upserts[i].Id() == id && HasTrack(upserts[i])
        ensures !upserts[i].publish
      {
        assert Settled(bank, upserts[i]);
      }
    }
  }

  lemma OwnStaysReached(bank: Bank, upserts: seq<Upsert>, n: nat)
    requires n < |upserts| && IsOneRun(upserts) && IsReached(bank, upserts, n, upserts[n].Id())
    ensures IsReached(Upserted(bank, upserts[n]), upserts, n + 1, upserts[n].Id())
  {
    var u := upserts[n];
    if Settled(bank, u) {
      SettledExactly(bank, u);
      if !AllSettled(bank, upserts, n, u.Id()) {
        SettledStaysReached(bank, upserts, n);
      }
    } else if u.publish {
      PublishedIsReached(Upserted(bank, u), upserts, n + 1, u.Id());
    } else {
      WritingComesAfterNoPublication(bank, upserts, n);
    }
  }

  lemma SettledStaysReached(bank: Bank, upserts: seq<Upsert>, n: nat)
    requires n < |upserts| && IsOneRun(upserts) && IsLastWritten(bank, upserts, n, upserts[n].Id())
    requires Settled(bank, upserts[n])
    ensures IsLastWritten(bank, upserts, n + 1, upserts[n].Id())
  {
    var u, last := upserts[n], Last(upserts, n, upserts[n].Id()).value;
    if HasTrack(u) {
      assert FitTogether(u, upserts[last]);
      assert u == upserts[last];
    }
  }

  lemma {:induction false} EveryVersionIsReached(bank: Bank, upserts: seq<Upsert>, n: nat, id: VersionId)
    requires IsSound(bank) && n <= |upserts| && IsOneRun(upserts)
    ensures IsSound(Imported(bank, upserts, n))
    ensures IsReached(Imported(bank, upserts, n), upserts, n, id)
  {
    if n > 0 {
      EveryVersionIsReached(bank, upserts, n - 1, id);
      var before, u := Imported(bank, upserts, n - 1), upserts[n - 1];
      UpsertKeepsSound(before, u);
      if u.Id() == id {
        OwnStaysReached(before, upserts, n - 1);
      } else if u.version == id.version {
        OtherStaysReached(before, upserts, n - 1, id);
      } else {
        assert forall i :: 0 <= i < n ==> FitTogether(upserts[i], u);
      }
    }
  }

  // ----- A second run -----

  /** The version as some import of the run writes it, without publishing. */
  ghost predicate WrittenBy(now: Bank, upserts: seq<Upsert>, j: nat, id: VersionId) {
    && j < |upserts| && upserts[j].Id() == id && HasTrack(upserts[j])
    && id in now.versions && now.versions[id] == Written(upserts[j], TrackOf(upserts[j]).value)
  }

  ghost predicate WrittenBySome(now: Bank, upserts: seq<Upsert>, id: VersionId) {
    exists j :: WrittenBy(now, upserts, j, id)
  }

  /** The version will be written anew by the last import that concerns it. */
  ghost predicate WillBeRedone(end: Bank, upserts: seq<Upsert>, k: nat, id: VersionId) {
    && !AllSettled(end, upserts, |upserts|, id) && IsLastWritten(end, upserts, |upserts|, id)
    && k <= Last(upserts, |upserts|, id).value
  }

  ghost predicate SameVersion(a: Bank, b: Bank, id: VersionId) {
    (id in a.versions <==> id in b.versions) && (id in a.versions ==> a.versions[id] == b.versions[id])
  }

  /** After `k` imports of a second run a version is as it was at the end of the first, or as some import
      writes it and then yet to be redone. */
  ghost predicate IsOnTheWay(end: Bank, now: Bank, upserts: seq<Upsert>, k: nat, id: VersionId) {
    || SameVersion(end, now, id)
    || (WillBeRedone(end, upserts, k, id) && WrittenBySome(now, upserts, id))
  }

  lemma {:induction false} LastIsLast(upserts: seq<Upsert>, n: nat, id: VersionId, i: nat)
    requires i < n <= |upserts| && upserts[i].Id() == id && HasTrack(upserts[i])
    ensures Last(upserts, n, id).Some? && i <= Last(upserts, n, id).value
  {
    if i < n - 1 {
      LastIsLast(upserts, n - 1, id, i);
    }
  }

  lemma SomeWriter(now: Bank, upserts: seq<Upsert>, id: VersionId) returns (j: nat)
    requires WrittenBySome(now, upserts, id)
    ensures WrittenBy(now, upserts, j, id)
  {
    j :| WrittenBy(now, upserts, j, id);
  }

  lemma RedoneOrKept(end: Bank, now: Bank, upserts: seq<Upsert>, k: nat, j: nat, last: nat)
    requires k < |upserts| && IsOneRun(upserts) && HasTrack(upserts[k]) && k <= last
    requires !AllSettled(end, upserts, |upserts|, upserts[k].Id())
    requires IsLastWritten(end, upserts, |upserts|, upserts[k].Id())
    requires Last(upserts, |upserts|, upserts[k].Id()) == Some(last)
    requires WrittenBy(now, upserts, j, upserts[k].Id())
    ensures IsOnTheWay(end, Upserted(now, upserts[k]), upserts, k + 1, upserts[k].Id())
    ensures !upserts[k].publish
  {
    var u, id := upserts[k], upserts[k].Id();
    assert FitTogether(upserts[j], u) && FitTogether(u, upserts[last]);
    var next := Upserted(now, u);
    assert WrittenBy(next, upserts, if HasSameHash(now, u) then j else k, id);
    assert next.versions[id] == Written(u, TrackOf(u).value);
  }

  /** What the import's own version becomes in the second run; nothing else changes. */
  lemma OwnSecondStep(end: Bank, now: Bank, upserts: seq<Upsert>, k: nat)
    requires k < |upserts| && IsOneRun(upserts) && IsReached(end, upserts, |upserts|, upserts[k].Id())
    requires IsOnTheWay(end, now, upserts, k, upserts[k].Id())
    ensures IsOnTheWay(end, Upserted(now, upserts[k]), upserts, k + 1, upserts[k].Id())
    ensures Settled(now, upserts[k]) || !upserts[k].publish
  {
    var u, id := upserts[k], upserts[k].Id();
    if AllSettled(end, upserts, |upserts|, id) {
      SettledElsewhere(end, now, u);
    } else if HasTrack(u) {
      LastIsLast(upserts, |upserts|, id, k);
      var last := Last(upserts, |upserts|, id).value;
      if SameVersion(end, now, id) {
        assert WrittenBy(now, upserts, last, id);
      }
      var j := SomeWriter(now, upserts, id);
      RedoneOrKept(end, now, upserts, k, j, last);
    }
  }

  lemma OtherSecondStep(end: Bank, now: Bank, upserts: seq<Upsert>, k: nat, id: VersionId)
    requires k < |upserts| && upserts[k].Id() != id && (Settled(now, upserts[k]) || !upserts[k].publish)
    requires IsOnTheWay(end, now, upserts, k, id)
    ensures IsOnTheWay(end, Upserted(now, upserts[k]), upserts, k + 1, id)
  {
    var next := Upserted(now, upserts[k]);
    assert SameVersion(now, next, id);
    if WrittenBySome(now, upserts, id) {
      var j: nat :| WrittenBy(now, upserts, j, id);
      assert WrittenBy(next, upserts, j, id);
    }
  }

  lemma {:induction false} SecondRun(end: Bank, upserts: seq<Upsert>, k: nat)
    requires k <= |upserts| && IsOneRun(upserts)
    requires forall id :: IsReached(end, upserts, |upserts|, id)
    ensures Imported(end, upserts, k).current == end.current
    ensures forall id :: IsOnTheWay(end, Imported(end, upserts, k), upserts, k, id)
  {
    if k > 0 {
      SecondRun(end, upserts, k - 1);
      var now, u := Imported(end, upserts, k - 1), upserts[k - 1];
      OwnSecondStep(end, now, upserts, k - 1);
      forall id
        ensures IsOnTheWay(end, Upserted(now, u), upserts, k, id)
      {
        if id != u.Id() {
          OtherSecondStep(end, now, upserts, k - 1, id);
        }
      }
    }
  }

  lemma SameVersions(a: Bank, b: Bank)
    requires forall id :: SameVersion(a, b, id)
    ensures a.versions == b.versions
  {
    forall id | id in a.versions.Keys + b.versions.Keys
      ensures id in a.versions && id in b.versions && a.versions[id] == b.versions[id]
    {
      assert SameVersion(a, b, id);
    }
    assert a.versions.Keys == b.versions.Keys;
  }

  /** A second run over the same rows leaves every version and every pointer as the first did. */
  lemma RerunChangesNothing(bank: Bank, upserts: seq<Upsert>)
    requires IsSound(bank) && IsOneRun(upserts)
    ensures
      var end := Imported(bank, upserts, |upserts|);
      Imported(end, upserts, |upserts|) == end
  {
    var end := Imported(bank, upserts, |upserts|);
    forall id
      ensures IsReached(end, upserts, |upserts|, id)
    {
      EveryVersionIsReached(bank, upserts, |upserts|, id);
    }
    SecondRun(end, upserts, |upserts|);
    var again := Imported(end, upserts, |upserts|);
    forall id: VersionId
      ensures SameVersion(end, again, id)
    {
      assert IsOnTheWay(end, again, upserts, |upserts|, id);
    }
    SameVersions(end, again);
  }

  // ----- A run that was broken off -----

  lemma {:induction false} ImportedPrefix(bank: Bank, upserts: seq<Upsert>, k: nat, n: nat)
    requires n <= k <= |upserts|
    ensures Imported(bank, upserts[..k], n) == Imported(bank, upserts, n)
  {
    if n > 0 {
      ImportedPrefix(bank, upserts, k, n - 1);
    }
  }

  lemma {:induction false} ImportedOnwards(a: Bank, b: Bank, upserts: seq<Upsert>, k: nat, n: nat)
    requires k <= n <= |upserts| && Imported(a, upserts, k) == Imported(b, upserts, k)
    ensures Imported(a, upserts, n) == Imported(b, upserts, n)
  {
    if n > k {
      ImportedOnwards(a, b, upserts, k, n - 1);
    }
  }

  /** However many imports a run got through before it was broken off, a whole run after it ends where
      one undisturbed run would have. */
  lemma BrokenOffRunIsMadeGood(bank: Bank, upserts: seq<Upsert>, k: nat)
    requires IsSound(bank) && IsOneRun(upserts) && k <= |upserts|
    ensures Imported(Imported(bank, upserts, k), upserts, |upserts|) == Imported(bank, upserts, |upserts|)
  {
    var first := upserts[..k];
    var broken := Imported(bank, upserts, k);
    assert IsOneRun(first) by {
      assert forall i, j :: 0 <= i < k && 0 <= j < k ==> FitTogether(upserts[i], upserts[j]);
    }
    RerunChangesNothing(bank, first);
    ImportedPrefix(bank, upserts, k, k);
    ImportedPrefix(broken, upserts, k, k);
    ImportedOnwards(broken, bank, upserts, k, |upserts|);
  }

  // ----- When importing changes nothing -----

  /** At most one import a question, whatever their version labels, tracks and flags. */
  ghost predicate HaveDistinctIds(upserts: seq<Upsert>) {
    forall i, j :: 0 <= i < j < |upserts| ==> upserts[i].row.canonicalId != upserts[j].row.canonicalId
  }

  lemma {:induction false} OthersStay(bank: Bank, upserts: seq<Upsert>, m: nat, n: nat, id: VersionId)
    requires IsSound(bank) && m <= n <= |upserts|
    requires forall i :: m <= i < n ==> upserts[i].row.canonicalId != id.question
    ensures IsSound(Imported(bank, upserts, m))
    ensures SameVersion(Imported(bank, upserts, m), Imported(bank, upserts, n), id)
    decreases n
  {
    if m < n {
      OthersStay(bank, upserts, m, n - 1, id);
      ImportsKeepSound(bank, upserts, n - 1);
      OtherQuestionsStay(Imported(bank, upserts, n - 1), upserts[n - 1], id);
    } else {
      ImportsKeepSound(bank, upserts, m);
    }
  }

  lemma {:induction false} AllSettledChangeNothing(bank: Bank, upserts: seq<Upsert>, n: nat)
    requires n <= |upserts| && forall i :: 0 <= i < n ==> Settled(bank, upserts[i])
    ensures Imported(bank, upserts, n) == bank
  {
    if n > 0 {
      AllSettledChangeNothing(bank, upserts, n - 1);
      SettledExactly(bank, upserts[n - 1]);
    }
  }

  /** What one import leaves of its own version lasts: no other concerns the question. */
  lemma UnsettledShows(bank: Bank, upserts: seq<Upsert>, n: nat, i: nat)
    requires IsSound(bank) && HaveDistinctIds(upserts) && i < n <= |upserts|
    requires Imported(bank, upserts, n) == bank
    ensures Settled(bank, upserts[i])
  {
    var u, before, after := upserts[i], Imported(bank, upserts, i), Imported(bank, upserts, i + 1);
    OthersStay(bank, upserts, 0, i, u.Id());
    OthersStay(bank, upserts, i + 1, n, u.Id());
    SettledElsewhere(bank, before, u);
    SameVersionIsSettled(before, u);
  }

  lemma SameVersionIsSettled(bank: Bank, u: Upsert)
    ensures SameVersion(bank, Upserted(bank, u), u.Id()) <==> Settled(bank, u)
  {
  }

  /** Importing into any sound tables, by whatever labels they were written, changes nothing exactly when
      every row is settled: it has no track, or its content is there and published if it is to be, or
      other content is there and frozen. */
  lemma ChangesNothingExactly(bank: Bank, upserts: seq<Upsert>, n: nat)
    requires IsSound(bank) && HaveDistinctIds(upserts) && n <= |upserts|
    ensures Imported(bank, upserts, n) == bank <==> forall i :: 0 <= i < n ==> Settled(bank, upserts[i])
  {
    if Imported(bank, upserts, n) == bank {
      forall i | 0 <= i < n
        ensures Settled(bank, upserts[i])
      {
        UnsettledShows(bank, upserts, n, i);
      }
    } else if forall i :: 0 <= i < n ==> Settled(bank, upserts[i]) {
      AllSettledChangeNothing(bank, upserts, n);
    }
  }

  /** After a run with distinct questions every row is settled, so a second run changes nothing, even if
      its rows bear different version labels. */
  lemma DistinctRerunChangesNothing(bank: Bank, upserts: seq<Upsert>, n: nat)
    requires IsSound(bank) && HaveDistinctIds(upserts) && n <= |upserts|
    ensures forall i :: 0 <= i < n ==> Settled(Imported(bank, upserts, n), upserts[i])
    ensures Imported(Imported(bank, upserts, n), upserts, n) == Imported(bank, upserts, n)
  {
    var end := Imported(bank, upserts, n);
    forall i | 0 <= i < n
      ensures Settled(end, upserts[i])
    {
      var u, after := upserts[i], Imported(bank, upserts, i + 1);
      OwnImportSettles(Imported(bank, upserts, i), u);
      OthersStay(bank, upserts, i + 1, n, u.Id());
      SettledElsewhere(after, end, u);
    }
    AllSettledChangeNothing(end, upserts, n);
  }

  lemma OwnImportSettles(bank: Bank, u: Upsert)
    ensures Settled(Upserted(bank, u), u)
  {
  }

  // ----- Two version labels -----

  /** One version label is needed: when an older label is imported again after a newer one, the pointer
      goes back to it and both versions stay published. */
  lemma OlderLabelTakesOver(bank: Bank, older: Upsert, newer: Upsert)
    requires older.row.canonicalId == newer.row.canonicalId && older.version != newer.version
    requires HasTrack(older) && HasTrack(newer) && older.publish && newer.publish
    requires older.Id() !in bank.versions && newer.Id() !in bank.versions && older.row.canonicalId !in bank.current
    ensures
      var end := Upserted(Upserted(bank, older), newer);
      var again := Upserted(end, older);
      && IsLive(end, newer.Id()) && older.Id() in end.versions && end.versions[older.Id()].state == Deprecated
      && IsLive(again, older.Id()) && newer.Id() in again.versions && again.versions[newer.Id()].state == Published
  {
    var first := Upserted(bank, older);
    assert Writes(bank, older) && IsLive(first, older.Id());
    var end := Upserted(first, newer);
    assert Writes(first, newer) && Republishes(end, older);
  }
}
