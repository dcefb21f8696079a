/** Versions of questions and the pointer to the published one: the tables two scripts write, what one
    imported row and one launch do to them, and what every mixture of the two keeps. */
module Versions {
  import opened Wrappers
  import opened Names

  type Track = Name

  /** A version is identified by its question and its version label. */
  datatype VersionId = VersionId(question: Name, version: Name)

  datatype State =
    | Draft | AwaitingTechnicalReview | AwaitingEditorialReview | Approved | Published | Deprecated | Archived

  /** Content matters through its hash and the track it was written for; `validated` says whether the
      latest validation passed. */
  datatype Version = Version(hash: Name, track: Track, state: State, validated: bool)

  /** The tables: the versions, and each question's current published version if it has one. */
  datatype Bank = Bank(versions: map<VersionId, Version>, current: map<Name, VersionId>)

  datatype Row = Row(canonicalId: Name, hash: Name, tier: Name, candidates: seq<Track>)

  datatype Action = Inserted | Updated | Unchanged | UnseededTrack | ImmutableExisting

  /** A row to import, under which version label, among which tracks, and whether to publish it. */
  datatype Upsert = Upsert(row: Row, version: Name, seeded: set<Track>, publish: bool) {
    function Id(): VersionId {
      VersionId(row.canonicalId, version)
    }
  }

  /** A package to launch: its question, version label and hash. */
  datatype Target = Target(identifier: Name, version: Name, hash: Name) {
    function Id(): VersionId {
      VersionId(identifier, version)
    }
  }

  // ----- One imported row -----

  /** `resolve_track`: the first candidate that exists. */
  function Resolve(candidates: seq<Track>, seeded: set<Track>): Option<Track> {
    if candidates == [] then None
    else if candidates[0] in seeded then Some(candidates[0])
    else Resolve(candidates[1..], seeded)
  }

  function TrackOf(u: Upsert): Option<Track> {
    Resolve(u.row.candidates, u.seeded)
  }

  predicate IsFrozen(state: State) {
    state == Approved || state == Published
  }

  predicate HasSameHash(bank: Bank, u: Upsert) {
    u.Id() in bank.versions && bank.versions[u.Id()].hash == u.row.hash
  }

  /** The row writes its version: there is none yet, or another content that is not frozen. */
  predicate Writes(bank: Bank, u: Upsert) {
    && TrackOf(u).Some? && !HasSameHash(bank, u)
    && (u.Id() in bank.versions ==> !IsFrozen(bank.versions[u.Id()].state))
  }

  /** The row publishes the content that is there already. */
  predicate Republishes(bank: Bank, u: Upsert) {
    TrackOf(u).Some? && HasSameHash(bank, u) && u.publish && bank.versions[u.Id()].state != Published
  }

  function WithState(versions: map<VersionId, Version>, id: VersionId, state: State): map<VersionId, Version> {
    if id in versions then versions[id := versions[id].(state := state)] else versions
  }

  /** The current version gives way to another. */
  function Superseded(bank: Bank, id: VersionId): map<VersionId, Version> {
    if id.question in bank.current && bank.current[id.question] != id
    then WithState(bank.versions, bank.current[id.question], Deprecated)
    else bank.versions
  }

  function Written(u: Upsert, track: Track): Version {
    Version(u.row.hash, track, if u.publish then Published else AwaitingTechnicalReview, true)
  }

  function Upserted(bank: Bank, u: Upsert): Bank {
    var pointed := if u.publish then bank.current[u.row.canonicalId := u.Id()] else bank.current;
    if Republishes(bank, u) then Bank(WithState(bank.versions, u.Id(), Published), pointed)
    else if Writes(bank, u) then
      var versions := if u.publish then Superseded(bank, u.Id()) else bank.versions;
      Bank(versions[u.Id() := Written(u, TrackOf(u).value)], pointed)
    else bank
  }

  /** The first `n` of a list imported one after another. */
  function Imported(bank: Bank, upserts: seq<Upsert>, n: nat): Bank
    requires n <= |upserts|
  {
    if n == 0 then bank else Upserted(Imported(bank, upserts, n - 1), upserts[n - 1])
  }

  /** What is reported, and whether the version is published afterwards. */
  function Reported(bank: Bank, u: Upsert): (Action, bool) {
    if TrackOf(u) == None then (UnseededTrack, false)
    else if HasSameHash(bank, u) then (Unchanged, u.publish || bank.versions[u.Id()].state == Published)
    else if u.Id() !in bank.versions then (Inserted, u.publish)
    else if IsFrozen(bank.versions[u.Id()].state) then (ImmutableExisting, bank.versions[u.Id()].state == Published)
    else (Updated, u.publish)
  }

  /** The track found is the first candidate that exists. */
  lemma {:induction false} ResolveFindsFirst(candidates: seq<Track>, seeded: set<Track>)
    ensures Resolve(candidates, seeded) == None <==> forall i :: 0 <= i < |candidates| ==> candidates[i] !in seeded
    ensures Resolve(candidates, seeded).Some? ==>
      exists i :: 0 <= i < |candidates| && candidates[i] == Resolve(candidates, seeded).value &&
                  candidates[i] in seeded && forall j :: 0 <= j < i ==> candidates[j] !in seeded
  {
    if candidates != [] {
      var rest := candidates[1..];
      ResolveFindsFirst(rest, seeded);
      if candidates[0] !in seeded && Resolve(rest, seeded).Some? {
        var i :| 0 <= i < |rest| && rest[i] == Resolve(rest, seeded).value && rest[i] in seeded &&
                 forall j :: 0 <= j < i ==> rest[j] !in seeded;
        assert candidates[i + 1] == rest[i];
        assert forall j :: 0 <= j < i + 1 ==> candidates[j] !in seeded by {
          assert forall j :: 1 <= j < i + 1 ==> candidates[j] == rest[j - 1];
        }
      }
    }
  }

  /** What a row makes of its own version, in every case. */
  lemma OwnVersionAfter(bank: Bank, u: Upsert)
    ensures
      var id, after, track := VersionId(u.row.canonicalId, u.version), Upserted(bank, u), TrackOf(u);
      if track == None then after == bank
      else if id !in bank.versions then
        id in after.versions && after.versions[id] ==
          Version(u.row.hash, track.value, if u.publish then Published else AwaitingTechnicalReview, true)
      else
        var old0 := bank.versions[id];
        id in after.versions && after.versions[id] ==
          if old0.hash == u.row.hash then (if u.publish then old0.(state := Published) else old0)
          else if old0.state == Approved || old0.state == Published then old0
          else Version(u.row.hash, track.value, if u.publish then Published else AwaitingTechnicalReview, true)
  {
  }

  /** The pointer moves to the row's version exactly if the row publishes and the version was not published
      with its content; of the other versions only the superseded one changes, and only when the row
      writes. */
  lemma RestAfter(bank: Bank, u: Upsert)
    ensures
      var id, q, after := VersionId(u.row.canonicalId, u.version), u.row.canonicalId, Upserted(bank, u);
      var isSame := id in bank.versions && bank.versions[id].hash == u.row.hash;
      var isFrozen := id in bank.versions && bank.versions[id].state in {Approved, Published};
      var moves := TrackOf(u).Some? && u.publish &&
                   if isSame then bank.versions[id].state != Published else !isFrozen;
      && after.current == (if moves then bank.current[q := id] else bank.current)
      && (forall v :: v in bank.versions && v != id ==>
            v in after.versions && after.versions[v] ==
              if moves && !isSame && q in bank.current && bank.current[q] == v
              then bank.versions[v].(state := Deprecated) else bank.versions[v])
      && (forall v :: v in after.versions ==> v in bank.versions || v == id)
  {
  }

  /** What is reported, told from the tables before and after: a version that was not there is inserted, one
      whose content has changed updated, one that has the content already unchanged, and one with other content
      immutable. `published` says whether the version is published afterwards. */
  lemma ReportedExactly(bank: Bank, u: Upsert)
    ensures
      var id, after := VersionId(u.row.canonicalId, u.version), Upserted(bank, u);
      var (action, published) := Reported(bank, u);
      && (action == UnseededTrack <==> forall i :: 0 <= i < |u.row.candidates| ==> u.row.candidates[i] !in u.seeded)
      && (action == Inserted <==> id !in bank.versions && id in after.versions)
      && (action == Updated <==>
            id in bank.versions && id in after.versions && bank.versions[id].hash != after.versions[id].hash)
      && (action == Unchanged ==> id in bank.versions && bank.versions[id].hash == u.row.hash)
      && (action == ImmutableExisting ==>
            id in bank.versions && bank.versions[id].hash != u.row.hash && after == bank)
      && (published <==> action != UnseededTrack && after.versions[id].state == Published)
  {
    ResolveFindsFirst(u.row.candidates, u.seeded);
  }

  // ----- One launch -----

  datatype LaunchError = NotSynchronized | HashMismatch | NotValidated | OtherVersionPublished | NotAwaitingReview

  predicate IsLive(bank: Bank, id: VersionId) {
    && id in bank.versions && bank.versions[id].state == Published
    && id.question in bank.current && bank.current[id.question] == id
  }

  /** What keeps a target from being launched. */
  function Problem(bank: Bank, t: Target): Option<LaunchError> {
    if t.Id() !in bank.versions then Some(NotSynchronized)
    else if bank.versions[t.Id()].hash != t.hash then Some(HashMismatch)
    else if !bank.versions[t.Id()].validated then Some(NotValidated)
    else if IsLive(bank, t.Id()) then None
    else if t.identifier in bank.current && bank.current[t.identifier] != t.Id() then Some(OtherVersionPublished)
    else if bank.versions[t.Id()].state != AwaitingTechnicalReview then Some(NotAwaitingReview)
    else None
  }

  /** The target's version is there with the target's content and passed its latest validation; it is published
      and current already, or it awaits technical review and no other version is current. */
  ghost predicate IsLaunchable(bank: Bank, t: Target) {
    var id := VersionId(t.identifier, t.version);
    && id in bank.versions && bank.versions[id].hash == t.hash && bank.versions[id].validated
    && if t.identifier in bank.current
       then bank.current[t.identifier] == id && bank.versions[id].state in {Published, AwaitingTechnicalReview}
       else bank.versions[id].state == AwaitingTechnicalReview
  }

  /** Which of the five checks stops a target, in their order; none does exactly if it is launchable. */
  lemma ProblemExactly(bank: Bank, t: Target)
    ensures
      var id, current := VersionId(t.identifier, t.version), bank.current;
      var there := id in bank.versions;
      var same := there && bank.versions[id].hash == t.hash;
      var passed := same && bank.versions[id].validated;
      var live := passed && bank.versions[id].state == Published && t.identifier in current &&
                  current[t.identifier] == id;
      var other := t.identifier in current && current[t.identifier] != id;
      && (Problem(bank, t) == Some(NotSynchronized) <==> !there)
      && (Problem(bank, t) == Some(HashMismatch) <==> there && !same)
      && (Problem(bank, t) == Some(NotValidated) <==> same && !passed)
      && (Problem(bank, t) == Some(OtherVersionPublished) <==> passed && other)
      && (Problem(bank, t) == Some(NotAwaitingReview) <==>
            passed && !other && !live && bank.versions[id].state != AwaitingTechnicalReview)
      && (Problem(bank, t) == None <==> IsLaunchable(bank, t))
  {
  }

  function PublishedAlone(bank: Bank, id: VersionId): Bank {
    bank.(versions := WithState(bank.versions, id, Published), current := bank.current[id.question := id])
  }

  /** The first `n` targets launched. */
  function Launched(bank: Bank, targets: seq<Target>, n: nat): Bank
    requires n <= |targets|
  {
    if n == 0 then bank else PublishedAlone(Launched(bank, targets, n - 1), targets[n - 1].Id())
  }

  ghost predicate HaveDistinctQuestions(targets: seq<Target>) {
    forall i, j :: 0 <= i < j < |targets| ==> targets[i].identifier != targets[j].identifier
  }

  // ----- What every step keeps -----

  /** Each pointer names a published version of its own question. */
  ghost predicate IsSound(bank: Bank) {
    forall q :: q in bank.current ==> IsLive(bank, bank.current[q]) && bank.current[q].question == q
  }

  lemma UpsertKeepsSound(bank: Bank, u: Upsert)
    requires IsSound(bank)
    ensures IsSound(Upserted(bank, u))
  {
    var after, id := Upserted(bank, u), u.Id();
    forall q | q in after.current
      ensures IsLive(after, after.current[q]) && after.current[q].question == q
    {
      if q == id.question && u.publish && (Republishes(bank, u) || Writes(bank, u)) {
        assert after.current[q] == id && after.versions[id].state == Published;
      } else {
        assert q in bank.current && IsLive(bank, bank.current[q]);
      }
    }
  }

  lemma {:induction false} ImportsKeepSound(bank: Bank, upserts: seq<Upsert>, n: nat)
    requires IsSound(bank) && n <= |upserts|
    ensures IsSound(Imported(bank, upserts, n))
  {
    if n > 0 {
      ImportsKeepSound(bank, upserts, n - 1);
      UpsertKeepsSound(Imported(bank, upserts, n - 1), upserts[n - 1]);
    }
  }

  lemma PublishKeepsSound(bank: Bank, id: VersionId)
    requires IsSound(bank) && id in bank.versions
    ensures IsSound(PublishedAlone(bank, id))
  {
    var after := PublishedAlone(bank, id);
    forall q | q in after.current
      ensures IsLive(after, after.current[q]) && after.current[q].question == q
    {
      if q != id.question {
        assert q in bank.current && IsLive(bank, bank.current[q]);
      }
    }
  }

  lemma {:induction false} LaunchKeepsSound(bank: Bank, targets: seq<Target>, n: nat)
    requires IsSound(bank) && n <= |targets|
    requires forall i :: 0 <= i < n ==> targets[i].Id() in bank.versions
    ensures IsSound(Launched(bank, targets, n)) && Launched(bank, targets, n).versions.Keys == bank.versions.Keys
  {
    if n > 0 {
      LaunchKeepsSound(bank, targets, n - 1);
      PublishKeepsSound(Launched(bank, targets, n - 1), targets[n - 1].Id());
    }
  }

  /** No version frozen before is missing or has other content after. */
  ghost predicate KeepsFrozen(before: Bank, after: Bank) {
    forall id :: id in before.versions && IsFrozen(before.versions[id].state) ==> SameContent(before, after, id)
  }

  ghost predicate SameContent(before: Bank, after: Bank, id: VersionId)
    requires id in before.versions
  {
    && id in after.versions && after.versions[id].hash == before.versions[id].hash
    && after.versions[id].track == before.versions[id].track
    && after.versions[id].validated == before.versions[id].validated
  }

  lemma UpsertKeepsFrozen(bank: Bank, u: Upsert)
    ensures KeepsFrozen(bank, Upserted(bank, u))
  {
  }

  lemma {:induction false} LaunchKeepsContent(bank: Bank, targets: seq<Target>, n: nat)
    requires n <= |targets|
    ensures forall id :: id in bank.versions ==> SameContent(bank, Launched(bank, targets, n), id)
  {
    if n > 0 {
      LaunchKeepsContent(bank, targets, n - 1);
    }
  }

  /** A launch publishes exactly the targets' versions and changes nothing else about any version... */
  lemma {:induction false} VersionAfterLaunch(bank: Bank, targets: seq<Target>, n: nat, id: VersionId)
    requires n <= |targets| && forall i :: 0 <= i < n ==> targets[i].Id() in bank.versions
    ensures
      var after := Launched(bank, targets, n).versions;
      var isTarget := exists i :: 0 <= i < n && VersionId(targets[i].identifier, targets[i].version) == id;
      && (id in after <==> id in bank.versions)
      && (id in after ==>
            after[id] == if isTarget then bank.versions[id].(state := Published) else bank.versions[id])
  {
    if n > 0 {
      VersionAfterLaunch(bank, targets, n - 1, id);
      VersionAfterLaunch(bank, targets, n - 1, targets[n - 1].Id());
    }
  }

  /** ... and moves exactly the targets' questions' pointers to them. */
  lemma {:induction false} PointerAfterLaunch(bank: Bank, targets: seq<Target>, n: nat, q: Name)
    requires n <= |targets| && HaveDistinctQuestions(targets)
    ensures
      var after := Launched(bank, targets, n).current;
      && (forall i :: 0 <= i < n && targets[i].identifier == q ==>
            q in after && after[q] == VersionId(q, targets[i].version))
      && ((forall i :: 0 <= i < n ==> targets[i].identifier != q) ==>
            (q in after <==> q in bank.current) && (q in after ==> after[q] == bank.current[q]))
  {
    if n > 0 {
      PointerAfterLaunch(bank, targets, n - 1, q);
    }
  }

  // ----- Any mixture of imports and launches -----

  datatype Command = Import(upsert: Upsert) | Launch(targets: seq<Target>)

  ghost predicate CanLaunch(bank: Bank, targets: seq<Target>) {
    forall i :: 0 <= i < |targets| ==> Problem(bank, targets[i]) == None
  }

  lemma LaunchableExactly(bank: Bank, targets: seq<Target>)
    ensures CanLaunch(bank, targets) <==> forall t :: t in targets ==> IsLaunchable(bank, t)
  {
    forall t
      ensures Problem(bank, t) == None <==> IsLaunchable(bank, t)
    {
      ProblemExactly(bank, t);
    }
  }

  /** A launch that fails is rolled back. */
  ghost function After(bank: Bank, command: Command): Bank {
    match command
    case Import(u) => Upserted(bank, u)
    case Launch(targets) => if CanLaunch(bank, targets) then Launched(bank, targets, |targets|) else bank
  }

  ghost function AfterAll(bank: Bank, commands: seq<Command>, n: nat): Bank
    requires n <= |commands|
  {
    if n == 0 then bank else After(AfterAll(bank, commands, n - 1), commands[n - 1])
  }

  lemma CommandKeeps(bank: Bank, command: Command)
    requires IsSound(bank)
    ensures IsSound(After(bank, command)) && KeepsFrozen(bank, After(bank, command))
  {
    match command
    case Import(u) =>
      UpsertKeepsSound(bank, u);
      UpsertKeepsFrozen(bank, u);
    case Launch(targets) =>
      if CanLaunch(bank, targets) {
        forall i | 0 <= i < |targets|
          ensures targets[i].Id() in bank.versions
        {
          assert Problem(bank, targets[i]) == None;
        }
        LaunchKeepsSound(bank, targets, |targets|);
        LaunchKeepsContent(bank, targets, |targets|);
      }
  }

  /** Whatever is imported under whatever version label and launched in between, every pointer names a
      published version of its question, and no step touches the content of a version that was approved
      or published before it. */
  lemma {:induction false} EveryRunIsSound(bank: Bank, commands: seq<Command>, n: nat)
    requires IsSound(bank) && n <= |commands|
    ensures IsSound(AfterAll(bank, commands, n))
    ensures n < |commands| ==> KeepsFrozen(AfterAll(bank, commands, n), AfterAll(bank, commands, n + 1))
  {
    if n > 0 {
      EveryRunIsSound(bank, commands, n - 1);
      CommandKeeps(AfterAll(bank, commands, n - 1), commands[n - 1]);
    }
    if n < |commands| {
      CommandKeeps(AfterAll(bank, commands, n), commands[n]);
    }
  }

  // ----- At most one published version -----

  /** Every published version is the current one of its question. */
  ghost predicate OnlyCurrentPublished(bank: Bank) {
    forall id :: id in bank.versions && bank.versions[id].state == Published ==> IsLive(bank, id)
  }

  /** An import keeps that exactly unless it republishes unchanged content while another version is
      current, which then stays published beside it. */
  lemma PublishedStaysUniqueExactly(bank: Bank, u: Upsert)
    requires IsSound(bank) && OnlyCurrentPublished(bank)
    ensures OnlyCurrentPublished(Upserted(bank, u)) <==>
      !(Republishes(bank, u) && u.row.canonicalId in bank.current && bank.current[u.row.canonicalId] != u.Id())
  {
    var after, q := Upserted(bank, u), u.row.canonicalId;
    if Republishes(bank, u) && q in bank.current && bank.current[q] != u.Id() {
      var other := bank.current[q];
      assert IsLive(bank, other);
      assert after.versions[other].state == Published && !IsLive(after, other);
    } else {
      forall id | id in after.versions && after.versions[id].state == Published
        ensures IsLive(after, id)
      {
        if id != u.Id() {
          assert id in bank.versions && bank.versions[id].state == Published && IsLive(bank, id);
        }
      }
    }
  }
}
