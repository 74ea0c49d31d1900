/**
 The file-paste transaction of image_transfer.rs: stage, upload, protect, clean
 up, revalidate, write. Every interaction with a file system or the remote host
 may fail, as a fault pattern decides; the contracts hold for every pattern.
 */
module FilePaste {
  import opened Common
  import opened TransferAuthority

  type Content = int

  /** A UUID, fresh whenever one is generated. */
  type Id = nat

  datatype LocalPath = User(name: nat) | Staged(id: Id) | Clipboard(id: Id)

  /** One private remote directory and what it holds. */
  datatype Remote = Empty | Partial | Uploaded(content: Content) | Protected(content: Content)

  /** A failing step may have left its effect behind. */
  datatype Fault = Works | Fails | FailsHalfway

  datatype PasteError =
    | NoFiles
    | TooManyFiles
    | SourceRejected
    | BadDestination
    | ToolMissing
    | UploadFailed(cleanedUp: bool)
    | StagingLeft(uploadCleanedUp: bool)
    | SourceLeft(uploadCleanedUp: bool)
    | TransferFailedSourceLeft(transfer: PasteError)
    | Aborted(step: AbortStep, cleanedUp: bool)

  datatype AbortStep = FetchStep | RevalidateStep | PrepareStep | WriteStep

  /** What a removal that was cut short did to one directory. */
  datatype Fate = Gone | Emptied | Untouched

  /** What is typed into the terminal: remote uploads or local files. */
  datatype Pasted = Uploads(ids: seq<Id>) | Files(paths: seq<LocalPath>)

  datatype Effect = Typed(authority: Authority, pasted: Pasted) | CleanedUp

  const MAX_FILES: nat := 16

  type Locals = map<LocalPath, Content>
  type Remotes = map<Id, Remote>

  // ------------------------------------------------------------ specification

  /** Files the user or the clipboard named are neither removed nor changed. */
  ghost predicate OnlyStagingMoves(before: Locals, after: Locals) {
    forall p: LocalPath :: !p.Staged? ==> (p in before <==> p in after) && (p in before ==> after[p] == before[p])
  }

  function IdSet(ids: seq<Id>): set<Id> {
    set id | id in ids
  }

  function PathSet(paths: seq<LocalPath>): set<LocalPath> {
    set p | p in paths
  }

  /** One protected upload per source, in order. */
  function WithUploads(remote: Remotes, ids: seq<Id>, contents: seq<Content>): Remotes
    requires |ids| == |contents|
  {
    if ids == [] then remote
    else
      var n := |ids| - 1;
      WithUploads(remote, ids[..n], contents[..n])[ids[n] := Protected(contents[n])]
  }

  ghost predicate FreshIds(ids: seq<Id>, from: Id, to: Id) {
    && (forall k :: 0 <= k < |ids| ==> from <= ids[k] < to)
    && (forall j, k :: 0 <= j < k < |ids| ==> ids[j] != ids[k])
  }

  function Contents(local: Locals, paths: seq<LocalPath>): seq<Content>
    requires forall p :: p in paths ==> p in local
  {
    seq(|paths|, k requires 0 <= k < |paths| => local[paths[k]])
  }

  lemma {:induction false} UploadedKeys(remote: Remotes, ids: seq<Id>, contents: seq<Content>)
    requires |ids| == |contents|
    ensures var r := WithUploads(remote, ids, contents);
      && r.Keys == remote.Keys + IdSet(ids)
      && (forall id :: id in remote && id !in IdSet(ids) ==> r[id] == remote[id])
    decreases |ids|
  {
    if ids != [] {
      var n := |ids| - 1;
      UploadedKeys(remote, ids[..n], contents[..n]);
      LastId(ids);
    }
  }

  lemma {:induction false} UploadedAt(remote: Remotes, ids: seq<Id>, contents: seq<Content>, from: Id, to: Id, k: nat)
    requires |ids| == |contents| && FreshIds(ids, from, to) && k < |ids|
    ensures var r := WithUploads(remote, ids, contents); ids[k] in r && r[ids[k]] == Protected(contents[k])
    decreases |ids|
  {
    var n := |ids| - 1;
    if k < n {
      UploadedAt(remote, ids[..n], contents[..n], from, to, k);
    }
  }

  /** The specification of the uploads, entry by entry. */
  lemma UploadsAre(remote: Remotes, ids: seq<Id>, contents: seq<Content>, from: Id, to: Id)
    requires |ids| == |contents| && FreshIds(ids, from, to)
    ensures var r := WithUploads(remote, ids, contents);
      && r.Keys == remote.Keys + IdSet(ids)
      && (forall k :: 0 <= k < |ids| ==> r[ids[k]] == Protected(contents[k]))
      && (forall id :: id in remote && id !in IdSet(ids) ==> r[id] == remote[id])
  {
    UploadedKeys(remote, ids, contents);
    forall k | 0 <= k < |ids|
      ensures var r := WithUploads(remote, ids, contents); ids[k] in r && r[ids[k]] == Protected(contents[k])
    {
      UploadedAt(remote, ids, contents, from, to, k);
    }
  }

  lemma LastId(ids: seq<Id>)
    requires ids != []
    ensures IdSet(ids) == IdSet(ids[..|ids| - 1]) + {ids[|ids| - 1]}
  {
    assert ids == ids[..|ids| - 1] + [ids[|ids| - 1]];
  }

  /** Removing the directories of a rolled-back upload leaves the host as it was. */
  lemma RollbackRestores(remote: Remotes, ids: seq<Id>, contents: seq<Content>, from: Id, to: Id)
    requires |ids| == |contents| && FreshIds(ids, from, to) && forall id :: id in remote ==> id < from
    ensures WithUploads(remote, ids, contents) - IdSet(ids) == remote
  {
    UploadsAre(remote, ids, contents, from, to);
  }

  lemma NoUploads(remote: Remotes)
    ensures WithUploads(remote, [], []) == remote
  {
  }

  lemma UploadsSnoc(remote: Remotes, ids: seq<Id>, contents: seq<Content>, id: Id, content: Content)
    requires |ids| == |contents|
    ensures WithUploads(remote, ids + [id], contents + [content])
         == WithUploads(remote, ids, contents)[id := Protected(content)]
  {
    assert (ids + [id])[..|ids|] == ids && (contents + [content])[..|ids|] == contents;
  }

  lemma RollbackWithPartial(base: Remotes, reached: Remotes, partial: Remotes, ids: seq<Id>, id: Id)
    requires reached - IdSet(ids) == base && partial - {id} == reached
    ensures partial - IdSet(ids + [id]) == base
    ensures forall k :: k in base ==> k in partial && partial[k] == base[k]
  {
    assert IdSet(ids + [id]) == IdSet(ids) + {id};
    Kept(reached, IdSet(ids));
  }

  /** Only the directories `ids` lost anything, and nothing is new. */
  ghost predicate Shrinks(before: Remotes, after: Remotes, ids: set<Id>) {
    after.Keys <= before.Keys && forall k :: k in before && k !in ids ==> k in after && after[k] == before[k]
  }

  lemma Kept(remote: Remotes, removed: set<Id>)
    ensures forall k :: k in remote - removed ==> k in remote && remote[k] == (remote - removed)[k]
  {
  }

  ghost predicate Distinct(paths: seq<LocalPath>) {
    forall j, k :: 0 <= j < k < |paths| ==> paths[j] != paths[k]
  }

  /** Every path names an existing file. */
  ghost predicate Present(paths: seq<LocalPath>, local: Locals) {
    forall k :: 0 <= k < |paths| ==> paths[k] in local
  }

  /** Staged files of one transfer: fresh, distinct, holding their sources. */
  ghost predicate StagedFor(before: Locals, local: Locals, paths: seq<LocalPath>, staged: seq<LocalPath>, from: Id, to: Id) {
    && |staged| <= |paths| && PathSet(staged) <= local.Keys && local - PathSet(staged) == before
    && (forall k :: 0 <= k < |staged| ==> staged[k].Staged? && from <= staged[k].id < to)
    && (forall k :: 0 <= k < |staged| ==> paths[k] in before && local[staged[k]] == before[paths[k]])
    && Distinct(staged)
  }

  lemma StagedSnoc(before: Locals, local: Locals, paths: seq<LocalPath>, staged: seq<LocalPath>, from: Id, to: Id)
    requires StagedFor(before, local, paths, staged, from, to) && |staged| < |paths| && from <= to
    requires var p := paths[|staged|]; (p.User? || p.id < from) && p in local
    requires Staged(to) !in local
    ensures var one := Staged(to);
      StagedFor(before, local[one := local[paths[|staged|]]], paths, staged + [one], from, to + 1)
  {
    var i := |staged|;
    var after := local[Staged(to) := local[paths[i]]];
    var longer := staged + [Staged(to)];
    assert forall k :: 0 <= k < i ==> staged[k] in PathSet(staged);
    assert PathSet(longer) == PathSet(staged) + {Staged(to)};
    assert paths[i] !in PathSet(staged);
    assert paths[i] in before && before[paths[i]] == local[paths[i]] by {
      assert paths[i] in local - PathSet(staged);
    }
    assert Staged(to) !in before;
    assert after - PathSet(longer) == before;
    assert forall k :: 0 <= k < i ==> longer[k] == staged[k];
  }

  // ----------------------------------------------------------------- the hosts

  class Hosts {
    var local: Locals
    var remote: Remotes
    var nextId: Id
    var clock: nat
    /** Whether every clean-up step so far did what it was asked. */
    ghost var tidy: bool
    /** What happened after the transfer, in order. */
    ghost var log: seq<Effect>
    const faults: nat -> Fault
    /** How far an interrupted removal came, by the time it began. */
    const fates: (nat, Id) -> Fate
    /** What a path names once links and relative steps are resolved. */
    const canonical: LocalPath -> LocalPath

    constructor (faults: nat -> Fault, fates: (nat, Id) -> Fate, canonical: LocalPath -> LocalPath, local: Locals, remote: Remotes, nextId: Id)
      requires forall id :: id in remote ==> id < nextId
      requires forall p :: p in local && !p.User? ==> p.id < nextId
      ensures Valid() && tidy && log == [] && this.local == local && this.remote == remote
    {
      this.faults, this.fates, this.canonical := faults, fates, canonical;
      this.local, this.remote, this.nextId, this.clock := local, remote, nextId, 0;
      this.tidy, this.log := true, [];
    }

    ghost predicate Valid()
      reads this
    {
      && (forall id :: id in remote ==> id < nextId)
      && (forall p :: p in local && !p.User? ==> p.id < nextId)
    }

    /** No attempt of this stretch failed. */
    ghost predicate AllWork(from: nat, to: nat) {
      forall k :: from <= k < to ==> faults(k) == Works
    }

    lemma Stretch(from: nat, mid: nat, to: nat)
      requires from <= mid <= to
      ensures AllWork(from, to) <==> AllWork(from, mid) && AllWork(mid, to)
    {
    }

    method Attempt() returns (fault: Fault)
      modifies this`clock
      ensures fault == faults(old(clock)) && clock == old(clock) + 1
    {
      fault := faults(clock);
      clock := clock + 1;
    }

    method FreshId() returns (id: Id)
      requires Valid()
      modifies this`nextId
      ensures Valid() && id == old(nextId) && nextId == id + 1
    {
      id := nextId;
      nextId := nextId + 1;
    }

    /** Removing a file reports an error and changes nothing, or removes it. */
    method RemoveFile(path: LocalPath) returns (ok: bool)
      requires Valid()
      modifies this`local, this`clock, this`tidy
      ensures Valid() && local == if ok then old(local) - {path} else old(local)
      ensures tidy == (old(tidy) && ok)
      ensures clock == old(clock) + 1 && (ok <==> faults(old(clock)) == Works && path in old(local))
    {
      var fault := Attempt();
      ok := fault == Works && path in local;
      if ok {
        local := local - {path};
      }
      tidy := tidy && ok;
    }

    // ---------------------------------------------------------------- staging

    method StageRemoteSource(path: LocalPath) returns (r: Option<LocalPath>)
      requires Valid()
      modifies this`local, this`clock, this`tidy, this`nextId
      ensures Valid() && nextId == old(nextId) + 1
      ensures r.Some? ==> r.value == Staged(old(nextId)) && path in old(local)
      ensures r.Some? ==> r.value !in old(local) && local == old(local)[r.value := old(local)[path]] && tidy == old(tidy)
      ensures r.None? ==> local == old(local) || (!tidy && local - {Staged(old(nextId))} == old(local))
      ensures tidy ==> old(tidy)
      ensures clock > old(clock) && (r.Some? <==> path in old(local) && AllWork(old(clock), clock))
    {
      var id := FreshId();
      var source := Attempt();
      if source != Works || path !in local {
        return None;
      }
      var staged := Staged(id);
      var created := Attempt();
      if created == Works {
        local := local[staged := local[path]];
        return Some(staged);
      }
      if created == FailsHalfway {
        local := local[staged := 0];
        var removed := RemoveFile(staged);
        assert removed ==> local == old(local);
      }
      return None;
    }

    /** The sources were named before this transfer generated its UUIDs. */
    predicate Named(paths: seq<LocalPath>)
      reads this`nextId
    {
      forall p :: p in paths ==> p.User? || p.id < nextId
    }

    method StageRemoteSources(paths: seq<LocalPath>) returns (r: Result<seq<LocalPath>, PasteError>)
      requires Valid() && Named(paths)
      modifies this`local, this`clock, this`tidy, this`nextId
      ensures Valid() && nextId >= old(nextId) && OnlyStagingMoves(old(local), local)
      ensures r.Ok? ==> |r.value| == |paths| > 0 && StagedFor(old(local), local, paths, r.value, old(nextId), nextId) && tidy == old(tidy)
      ensures r.Err? && tidy ==> local == old(local)
      ensures tidy ==> old(tidy)
      ensures clock >= old(clock)
      ensures r.Ok? <==> 1 <= |paths| <= 16 && Present(paths, old(local)) && AllWork(old(clock), clock)
      ensures (r == Err(NoFiles) <==> |paths| == 0) && (r == Err(TooManyFiles) <==> |paths| > 16)
      ensures r.Err? ==> r.error.NoFiles? || r.error.TooManyFiles? || r.error.SourceRejected?
    {
      if paths == [] {
        return Err(NoFiles);
      }
      if |paths| > MAX_FILES {
        return Err(TooManyFiles);
      }
      assert AllWork(clock, clock);
      hide AllWork;
      var staged: seq<LocalPath> := [];
      for i := 0 to |paths|
        invariant Valid() && nextId >= old(nextId) && |staged| == i && tidy == old(tidy)
        invariant StagedFor(old(local), local, paths, staged, old(nextId), nextId)
        invariant clock >= old(clock) && AllWork(old(clock), clock)
      {
        ghost var begun, reached, next := clock, local, nextId;
        var one := StageRemoteSource(paths[i]);
        Stretch(old(clock), begun, clock);
        if one.None? {
          ghost var failed := clock;
          var _ := RemoveStagedSources(staged);
          Stretch(old(clock), failed, clock);
          return Err(SourceRejected);
        }
        StagedSnoc(old(local), reached, paths, staged, old(nextId), next);
        staged := staged + [one.value];
      }
      return Ok(staged);
    }

    /** Tries every file, whatever fails. */
    method RemoveStagedSources(paths: seq<LocalPath>) returns (ok: bool)
      requires Valid() && forall p :: p in paths ==> p.Staged?
      modifies this`local, this`clock, this`tidy
      ensures Valid() && OnlyStagingMoves(old(local), local)
      ensures ok ==> local == old(local) - PathSet(paths)
      ensures tidy == (old(tidy) && ok)
      ensures local.Keys <= old(local).Keys && forall p :: p in local ==> local[p] == old(local)[p]
      ensures forall p :: p in old(local) && p !in paths ==> p in local
      ensures clock == old(clock) + |paths| && (ok ==> AllWork(old(clock), clock))
      ensures Present(paths, old(local)) && Distinct(paths) && AllWork(old(clock), clock) ==> ok
    {
      ok := true;
      for i := 0 to |paths|
        invariant Valid() && tidy == (old(tidy) && ok)
        invariant ok ==> local == old(local) - PathSet(paths[..i])
        invariant local.Keys <= old(local).Keys && forall p :: p in local ==> local[p] == old(local)[p]
        invariant forall p :: p in old(local) && p !in paths ==> p in local
        invariant clock == old(clock) + i && (ok ==> AllWork(old(clock), clock))
        invariant Present(paths, old(local)) && Distinct(paths) ==>
          (AllWork(old(clock), clock) ==> ok) && Present(paths[i..], local)
      {
        assert paths[i..][0] == paths[i] && paths[i..][1..] == paths[i + 1..];
        var removed := RemoveFile(paths[i]);
        assert PathSet(paths[..i + 1]) == PathSet(paths[..i]) + {paths[i]};
        ok := ok && removed;
      }
      assert paths[..|paths|] == paths;
    }

    // -------------------------------------------------------------- uploading

    /** `rm -rf` of the given directories on the remote host, which may stop anywhere. */
    method RemoteCleanup(ids: seq<Id>) returns (ok: bool)
      requires Valid()
      modifies this`remote, this`clock, this`tidy
      ensures Valid() && Shrinks(old(remote), remote, IdSet(ids))
      ensures ok ==> remote == old(remote) - IdSet(ids)
      ensures tidy == (old(tidy) && ok)
      ensures clock == old(clock) + 1 && (ok <==> faults(old(clock)) == Works)
    {
      var fault := Attempt();
      if fault == Works {
        remote := remote - IdSet(ids);
      } else if fault == FailsHalfway {
        var begun := clock;
        remote := map id | id in remote && !(id in ids && fates(begun, id) == Gone) ::
          if id in ids && fates(begun, id) == Emptied then Empty else remote[id];
      }
      ok := fault == Works;
      tidy := tidy && ok;
    }

    /** mkdir, scp and chmod for one file. */
    method UploadOne(id: Id, content: Content) returns (ok: bool)
      requires Valid() && id < nextId && id !in remote
      modifies this`remote, this`clock
      ensures Valid()
      ensures ok ==> remote == old(remote)[id := Protected(content)]
      ensures remote - {id} == old(remote)
      ensures clock > old(clock) && (ok ==> clock == old(clock) + 3)
      ensures ok <==> forall k :: old(clock) <= k < old(clock) + 3 ==> faults(k) == Works
      ensures ok <==> AllWork(old(clock), clock)
    {
      var made := Attempt();
      if made != Fails {
        remote := remote[id := Empty];
      }
      if made != Works {
        return false;
      }
      var uploaded := Attempt();
      if uploaded == FailsHalfway {
        remote := remote[id := Partial];
        assert remote == old(remote)[id := Partial];
      }
      if uploaded != Works {
        return false;
      }
      remote := remote[id := Uploaded(content)];
      var protect := Attempt();
      if protect != Fails {
        remote := remote[id := Protected(content)];
        assert remote == old(remote)[id := Protected(content)];
      } else {
        assert remote == old(remote)[id := Uploaded(content)];
      }
      return protect == Works;
    }

    method UploadAll(staged: seq<LocalPath>) returns (r: Result<seq<Id>, PasteError>)
      requires Valid() && forall p :: p in staged ==> p in local
      modifies this`remote, this`clock, this`tidy, this`nextId
      ensures Valid() && nextId >= old(nextId)
      ensures r.Ok? ==> |r.value| == |staged| && FreshIds(r.value, old(nextId), nextId) && tidy == old(tidy)
      ensures r.Ok? ==> remote == WithUploads(old(remote), r.value, Contents(local, staged))
      ensures r.Err? && tidy ==> remote == old(remote)
      ensures tidy ==> old(tidy)
      ensures forall id :: id in old(remote) ==> id in remote && remote[id] == old(remote)[id]
      ensures clock > old(clock) && (r.Ok? <==> AllWork(old(clock), clock))
      ensures r.Err? ==> r.error.ToolMissing? || r.error.UploadFailed?
      ensures r.Err? && (r.error.UploadFailed? ==> r.error.cleanedUp) ==> remote == old(remote) && tidy == old(tidy)
    {
      hide WithUploads; hide IdSet;
      var tools := Attempt();
      assert AllWork(old(clock), clock) <==> tools == Works;
      if tools != Works {
        return Err(ToolMissing);
      }
      hide AllWork;
      var ids: seq<Id> := [];
      ghost var contents := Contents(local, staged);
      NoUploads(old(remote));
      for i := 0 to |staged|
        invariant Valid() && nextId >= old(nextId) && |ids| == i && tidy == old(tidy)
        invariant FreshIds(ids, old(nextId), nextId)
        invariant remote == WithUploads(old(remote), ids, contents[..i])
        invariant clock > old(clock) && AllWork(old(clock), clock)
      {
        ghost var reached := remote;
        RollbackRestores(old(remote), ids, contents[..i], old(nextId), nextId);
        var id := FreshId();
        ghost var before := ids;
        ids := ids + [id];
        ghost var begun := clock;
        var ok := UploadOne(id, local[staged[i]]);
        Stretch(old(clock), begun, clock);
        if !ok {
          RollbackWithPartial(old(remote), reached, remote, before, id);
          ghost var partial, failed := remote, clock;
          var cleaned := RemoteCleanup(ids);
          Stretch(old(clock), failed, clock);
          RolledBackKeeps(old(remote), partial, remote, ids);
          return Err(UploadFailed(cleaned));
        }
        UploadsSnoc(old(remote), before, contents[..i], id, contents[i]);
        assert contents[..i + 1] == contents[..i] + [contents[i]];
      }
      assert contents[..|staged|] == contents;
      RollbackRestores(old(remote), ids, contents, old(nextId), nextId);
      Kept(remote, IdSet(ids));
      return Ok(ids);
    }

    // --------------------------------------------------------------- transfer

    /** What a caller can see of an upload before it starts. */
    ghost predicate MaySend(paths: seq<LocalPath>, local: Locals, destinationOk: bool) {
      destinationOk && 1 <= |paths| <= 16 && Present(paths, local)
    }

    /** The remote arm of `transfer_paths`: all or nothing, whatever fails. */
    method TransferRemote(paths: seq<LocalPath>, destinationOk: bool) returns (r: Result<seq<Id>, PasteError>)
      requires Valid() && Named(paths)
      modifies this`local, this`remote, this`nextId, this`clock, this`tidy
      ensures Valid() && nextId >= old(nextId) && OnlyStagingMoves(old(local), local)
      ensures r.Ok? ==> |r.value| == |paths| && FreshIds(r.value, old(nextId), nextId) && tidy == old(tidy)
      ensures r.Ok? ==> local == old(local) && forall p :: p in paths ==> p in old(local)
      ensures r.Ok? ==> remote == WithUploads(old(remote), r.value, Contents(old(local), paths))
      ensures r.Err? && tidy ==> remote == old(remote) && local == old(local)
      ensures tidy ==> old(tidy)
      ensures forall id :: id in old(remote) ==> id in remote && remote[id] == old(remote)[id]
      ensures clock >= old(clock) && (r.Ok? <==> MaySend(paths, old(local), destinationOk) && AllWork(old(clock), clock))
      ensures r == Err(BadDestination) <==> !destinationOk
    {
      hide WithUploads;
      if !destinationOk {
        return Err(BadDestination);
      }
      var staging := StageRemoteSources(paths);
      if staging.Err? {
        return Err(staging.error);
      }
      hide AllWork;
      var staged := staging.value;
      ghost var from, begun := nextId, clock;
      ghost var sources := Contents(old(local), paths);
      assert Contents(local, staged) == sources;
      var upload := UploadAll(staged);
      Stretch(old(clock), begun, clock);
      ghost var uploaded := clock;
      var removed := RemoveStagedSources(staged);
      Stretch(old(clock), uploaded, clock);
      ghost var cleaned := clock;
      match upload {
        case Ok(ids) =>
          RollbackRestores(old(remote), ids, sources, from, nextId);
          UploadsAre(old(remote), ids, sources, from, nextId);
          if removed {
            return Ok(ids);
          }
          var rolledBack := RemoteCleanup(ids);
          Stretch(old(clock), cleaned, clock);
          return Err(StagingLeft(rolledBack));
        case Err(e) =>
          return Err(e);
      }
    }

    function Resolved(paths: seq<LocalPath>): seq<LocalPath> {
      seq(|paths|, i requires 0 <= i < |paths| => canonical(paths[i]))
    }

    /** The local arm of `transfer_paths`: inspection only. */
    method TransferLocal(paths: seq<LocalPath>) returns (r: Result<seq<LocalPath>, PasteError>)
      modifies this`clock
      ensures r.Err? ==> !r.error.Aborted?
      ensures r.Ok? ==> r.value == Resolved(paths)
      ensures clock >= old(clock)
      ensures r.Ok? <==> 1 <= |paths| <= 16 && Present(Resolved(paths), local) && AllWork(old(clock), clock)
    {
      if paths == [] {
        return Err(NoFiles);
      }
      if |paths| > MAX_FILES {
        return Err(TooManyFiles);
      }
      for i := 0 to |paths|
        invariant forall k :: 0 <= k < i ==> Resolved(paths)[k] in local
        invariant clock >= old(clock) && AllWork(old(clock), clock)
      {
        var inspected := Attempt();
        assert Resolved(paths)[i] == canonical(paths[i]);
        if inspected != Works || canonical(paths[i]) !in local {
          return Err(SourceRejected);
        }
      }
      return Ok(Resolved(paths));
    }

    /** After an upload the client's own clipboard file is removed as well; an
        upload whose source could not be removed is rolled back. */
    method ReconcileSourceCleanup(transfer: Result<seq<Id>, PasteError>, sourceRemoved: bool)
      returns (r: Result<seq<Id>, PasteError>)
      requires Valid()
      modifies this`remote, this`clock, this`tidy
      ensures Valid()
      ensures r.Ok? <==> transfer.Ok? && sourceRemoved
      ensures r.Ok? ==> r == transfer
      ensures transfer.Err? ==> r == Err(if sourceRemoved then transfer.error else TransferFailedSourceLeft(transfer.error))
      ensures transfer.Err? || sourceRemoved ==> remote == old(remote) && tidy == old(tidy)
      ensures transfer.Ok? && !sourceRemoved && tidy ==> remote == old(remote) - IdSet(transfer.value)
      ensures Shrinks(old(remote), remote, if transfer.Ok? then IdSet(transfer.value) else {})
      ensures tidy ==> old(tidy)
      ensures clock >= old(clock) && (transfer.Err? || sourceRemoved ==> clock == old(clock))
    {
      match transfer {
        case Ok(ids) =>
          if sourceRemoved {
            return Ok(ids);
          }
          var rolledBack := RemoteCleanup(ids);
          return Err(SourceLeft(rolledBack));
        case Err(e) =>
          return Err(if sourceRemoved then e else TransferFailedSourceLeft(e));
      }
    }

    // ------------------------------------------------------------- completion

    function RemovedOnAbort(authority: Authority, owned: Option<LocalPath>): set<LocalPath> {
      if authority.target.LocalTarget? && owned.Some? then {owned.value} else {}
    }

    function UploadedIds(pasted: Pasted): set<Id> {
      if pasted.Uploads? then IdSet(pasted.ids) else {}
    }

    method CleanupAbortedTransfer(authority: Authority, pasted: Pasted, owned: Option<LocalPath>) returns (ok: bool)
      requires Valid() && (authority.target.Ssh? <==> pasted.Uploads?)
      modifies this`local, this`remote, this`clock, this`tidy, this`log
      ensures Valid() && log == old(log) + [CleanedUp] && tidy == (old(tidy) && ok)
      ensures ok ==> remote == old(remote) - UploadedIds(pasted) && local == old(local) - RemovedOnAbort(authority, owned)
      ensures Shrinks(old(remote), remote, UploadedIds(pasted))
      ensures local == old(local) || local == old(local) - RemovedOnAbort(authority, owned)
      ensures clock >= old(clock) && (AllWork(old(clock), clock) && (owned.Some? ==> owned.value in old(local)) ==> ok)
    {
      log := log + [CleanedUp];
      match authority.target {
        case Ssh(_) =>
          ok := RemoteCleanup(pasted.ids);
          assert local == local - {};
        case LocalTarget =>
          ok := true;
          if owned.Some? {
            ok := RemoveFile(owned.value);
          }
          assert remote == remote - {};
      }
    }

    /** The service answers, and its snapshot grants the pane the same authority. */
    ghost predicate Grants(served: Option<Snapshot>, authority: Authority) {
      served.Some? && AuthorityFor(served.value, authority.pane) == Result.Ok(authority)
    }

    /** Fetches, revalidates, prepares and writes; the first step that fails is named. */
    method TypeIfGranted(authority: Authority, pasted: Pasted, served: Option<Snapshot>) returns (failed: Option<AbortStep>)
      modifies this`clock, this`log
      ensures clock > old(clock) && (failed.None? <==> Grants(served, authority) && AllWork(old(clock), clock))
      ensures failed == Some(FetchStep) <==> faults(old(clock)) != Works || served.None?
      ensures failed == Some(RevalidateStep) <==> faults(old(clock)) == Works && served.Some? && !Grants(served, authority)
      ensures failed == Some(WriteStep) <==>
        Grants(served, authority) && AllWork(old(clock), old(clock) + 2) && faults(old(clock) + 2) != Works
      ensures failed.None? ==> log == old(log) + [Typed(authority, pasted)]
      ensures log == old(log) || (Grants(served, authority) && log == old(log) + [Typed(authority, pasted)])
    {
      hide AuthorityFor;
      var fetched := Attempt();
      if fetched != Works || served.None? {
        return Some(FetchStep);
      }
      RevalidateIff(served.value, authority);
      if Revalidate(served.value, authority).Err? {
        return Some(RevalidateStep);
      }
      var prepared := Attempt();
      if prepared != Works {
        return Some(PrepareStep);
      }
      var wrote := Attempt();
      if wrote != Fails {
        log := log + [Typed(authority, pasted)];
      }
      return if wrote == Works then None else Some(WriteStep);
    }

    /** `complete_transferred_paste`. `served` is the snapshot the service answers
        with, if it answers. */
    method CompleteTransferredPaste(authority: Authority, pasted: Pasted, owned: Option<LocalPath>, served: Option<Snapshot>)
      returns (r: Result<(), PasteError>)
      requires Valid() && (authority.target.Ssh? <==> pasted.Uploads?)
      modifies this`local, this`remote, this`clock, this`tidy, this`log
      ensures Valid()
      // A write happens only after the authority was read again and found unchanged.
      ensures r.Ok? ==> log == old(log) + [Typed(authority, pasted)] && remote == old(remote) && local == old(local) && tidy == old(tidy)
      ensures r.Err? ==> r.error.Aborted?
      ensures r.Err? ==> log == old(log) + [CleanedUp] || log == old(log) + [Typed(authority, pasted), CleanedUp]
      ensures log != old(log) + [CleanedUp] ==> Grants(served, authority)
      ensures r.Err? && tidy ==>
        remote == old(remote) - UploadedIds(pasted) && local == old(local) - RemovedOnAbort(authority, owned)
      ensures Shrinks(old(remote), remote, UploadedIds(pasted))
      ensures local == old(local) || local == old(local) - RemovedOnAbort(authority, owned)
      ensures tidy ==> old(tidy)
      ensures clock >= old(clock) && (r.Ok? <==> Grants(served, authority) && AllWork(old(clock), clock))
      ensures r.Err? && r.error.cleanedUp ==> tidy == old(tidy)
      // Which step is blamed.
      ensures r.Err? && r.error.step == FetchStep <==> faults(old(clock)) != Works || served.None?
      ensures r.Err? && r.error.step == RevalidateStep <==>
        faults(old(clock)) == Works && served.Some? && !Grants(served, authority)
      ensures r.Err? && r.error.step == WriteStep <==>
        Grants(served, authority) && AllWork(old(clock), old(clock) + 2) && faults(old(clock) + 2) != Works
    {
      hide Grants; hide IdSet; hide AllWork;
      var failed := TypeIfGranted(authority, pasted, served);
      if failed.None? {
        return Ok(());
      }
      ghost var typed := clock;
      var cleaned := CleanupAbortedTransfer(authority, pasted, owned);
      Stretch(old(clock), typed, clock);
      return Err(Aborted(failed.value, cleaned));
    }

    // ------------------------------------------------------------ whole paste

    /** The background half of `start_file_paste` for a pane of another host: the
        upload, and then the client's own clipboard image is removed. */
    method TransferOwned(sources: seq<LocalPath>, owned: Option<LocalPath>, destinationOk: bool)
      returns (r: Result<seq<Id>, PasteError>, ghost ids: seq<Id>)
      requires Valid() && Named(sources)
      requires owned.Some? ==> owned.value.Clipboard? && sources == [owned.value]
      modifies this`local, this`remote, this`nextId, this`clock, this`tidy
      ensures Valid() && nextId >= old(nextId) && clock >= old(clock) && FreshIds(ids, old(nextId), nextId)
      ensures r.Ok? ==> r.value == ids && |ids| == |sources| && tidy == old(tidy)
      ensures r.Ok? ==> forall p :: p in sources ==> p in old(local)
      ensures r.Ok? ==> remote == WithUploads(old(remote), ids, Contents(old(local), sources))
      ensures r.Ok? ==> local == old(local) - OwnedSet(owned)
      ensures r.Ok? ==> remote - IdSet(ids) == old(remote)
      ensures r.Err? && tidy ==> remote == old(remote) && local == old(local) - OwnedSet(owned)
      ensures tidy ==> old(tidy)
      ensures forall id :: id in old(remote) ==> id in remote && remote[id] == old(remote)[id]
      ensures forall p: LocalPath :: p.User? ==> (p in local <==> p in old(local)) && (p in local ==> local[p] == old(local)[p])
      ensures r.Ok? <==> MaySend(sources, old(local), destinationOk) && AllWork(old(clock), clock)
    {
      hide WithUploads;
      var transfer := TransferRemote(sources, destinationOk);
      ids := if transfer.Ok? then transfer.value else [];
      ghost var contents := if transfer.Ok? then Contents(old(local), sources) else [];
      RollbackRestores(old(remote), ids, contents, old(nextId), nextId);
      if owned.None? {
        return transfer, ids;
      }
      ghost var uploaded, sent := remote, clock;
      assert transfer.Ok? ==> Present(sources, old(local)) && sources[0] == owned.value;
      var removed := RemoveFile(owned.value);
      Stretch(old(clock), sent, clock);
      ghost var reached := clock;
      r := ReconcileSourceCleanup(transfer, removed);
      Stretch(old(clock), reached, clock);
      RolledBackKeeps(old(remote), uploaded, remote, ids);
    }

    /** `start_file_paste` for a pane of another host. `owned` is the clipboard
        image the client wrote itself, when that is what is pasted. */
    method PasteRemote(
      authority: Authority, sources: seq<LocalPath>, owned: Option<LocalPath>, destinationOk: bool, served: Option<Snapshot>)
      returns (r: Result<(), PasteError>, ghost ids: seq<Id>)
      requires Valid() && Named(sources) && authority.target.Ssh? && log == []
      requires owned.Some? ==> owned.value.Clipboard? && sources == [owned.value]
      modifies this
      ensures Valid()
      // Success: one protected file per source, in order, typed once; nothing of ours is left behind.
      ensures r.Ok? ==> |ids| == |sources| && FreshIds(ids, old(nextId), nextId) && forall p :: p in sources ==> p in old(local)
      ensures r.Ok? ==> remote == WithUploads(old(remote), ids, Contents(old(local), sources))
      ensures r.Ok? ==> local == old(local) - OwnedSet(owned) && log == [Typed(authority, Uploads(ids))]
      // Failure with working clean-up: as if nothing had been uploaded or staged.
      ensures r.Err? && tidy ==> remote == old(remote) && local == old(local) - OwnedSet(owned)
      // In every case: the host's other files and the user's own files are untouched.
      ensures forall id :: id in old(remote) ==> id in remote && remote[id] == old(remote)[id]
      ensures forall p: LocalPath :: p.User? ==> (p in local <==> p in old(local)) && (p in local ==> local[p] == old(local)[p])
      ensures |log| > 0 && log[0].Typed? ==> Grants(served, authority)
      // It succeeds exactly when nothing stands in its way and every attempt works.
      ensures clock >= old(clock)
      ensures r.Ok? <==> MaySend(sources, old(local), destinationOk) && Grants(served, authority) && AllWork(old(clock), clock)
    {
      hide WithUploads; hide AllWork;
      var result;
      result, ids := TransferOwned(sources, owned, destinationOk);
      if result.Err? {
        return Err(result.error), ids;
      }
      ghost var uploaded, sent := remote, clock;
      r := CompleteTransferredPaste(authority, Uploads(result.value), None, served);
      Stretch(old(clock), sent, clock);
      RolledBackKeeps(old(remote), uploaded, remote, ids);
    }

    /** The same for a local pane: the files themselves are typed, and a clipboard
        image is removed only when the paste is aborted after inspection. */
    method PasteLocal(authority: Authority, sources: seq<LocalPath>, owned: Option<LocalPath>, served: Option<Snapshot>)
      returns (r: Result<(), PasteError>)
      requires Valid() && authority.target.LocalTarget? && log == []
      requires owned.Some? ==> owned.value.Clipboard? && sources == [owned.value]
      modifies this
      ensures Valid() && remote == old(remote)
      ensures r.Ok? ==> local == old(local) && log == [Typed(authority, Files(Resolved(sources)))]
      ensures r.Err? && tidy ==> local == if r.error.Aborted? then old(local) - OwnedSet(owned) else old(local)
      ensures OnlyStagingMoves(old(local), local) || (owned.Some? && local == old(local) - {owned.value})
      ensures |log| > 0 && log[0].Typed? ==> Grants(served, authority)
      ensures clock >= old(clock)
      ensures r.Ok? <==>
        && 1 <= |sources| <= 16 && Present(Resolved(sources), old(local)) && Grants(served, authority)
        && AllWork(old(clock), clock)
    {
      var transfer := TransferLocal(sources);
      if transfer.Err? {
        return Err(transfer.error);
      }
      r := CompleteTransferredPaste(authority, Files(transfer.value), owned, served);
    }

    function OwnedSet(owned: Option<LocalPath>): set<LocalPath> {
      if owned.Some? then {owned.value} else {}
    }
  }

  lemma RolledBackKeeps(base: Remotes, uploaded: Remotes, after: Remotes, ids: seq<Id>)
    requires forall id :: id in base ==> id in uploaded && uploaded[id] == base[id]
    requires forall id :: id in base ==> id !in ids
    requires Shrinks(uploaded, after, IdSet(ids))
    ensures forall id :: id in base ==> id in after && after[id] == base[id]
  {
  }
}
