/**
 The runtime artifact writer over a file system that can fail: what it tracks agrees with what is on
 disk, failed writes change nothing that counts, and its manifest lists exactly what it tracks.
 */
module ArtifactWriter {
  import opened Basics
  import opened Ordering
  import opened Utf8

  type Bytes = seq<Byte>

  /** A resolved path under the run directory, component by component. */
  type Target = seq<string>

  type Files = map<Target, Bytes>

  // ----- Paths -----

  datatype RefPath = RefPath(absolute: bool, parts: seq<string>)

  datatype Ref = Ref(id: string, path: RefPath, contentType: string)

  /** `_resolve_target`, without symbolic links. */
  function Resolve(path: RefPath): Option<Target> {
    if path.absolute then None
    else if ".." in path.parts then None
    else if path.parts == [] || path.parts[0] != "millforge" then None
    else Some(path.parts)
  }

  // ----- One write -----

  /** What goes wrong during one write, and whether the temporary file can then be removed. */
  datatype Fault = NoFault | NoTempFile | ShortWrite(written: Bytes) | NoReplace

  datatype Environment = Environment(suffix: string, fault: Fault, unlinks: bool)

  /** The temporary file next to the target. */
  function TempPath(target: Target, suffix: string): Target
    requires target != []
  {
    target[..|target| - 1] + ["." + target[|target| - 1] + ".tmp." + suffix]
  }

  lemma TempDiffers(target: Target, suffix: string)
    requires target != []
    ensures TempPath(target, suffix) != target
  {
    var name := target[|target| - 1];
    assert |"." + name + ".tmp." + suffix| > |name|;
    assert TempPath(target, suffix)[|target| - 1] != target[|target| - 1];
  }

  /** The fault that stops the write, if any: the run directory itself cannot be replaced. */
  function Effective(target: Target, fault: Fault): Fault {
    if fault.NoFault? && |target| < 2 then NoReplace else fault
  }

  /** The files after one atomic write, and whether it succeeded. */
  function WriteFile(files: Files, target: Target, content: Bytes, env: Environment): (Files, bool)
    requires target != []
  {
    var temp := TempPath(target, env.suffix);
    match Effective(target, env.fault)
    case NoFault => (files[target := content], true)
    case NoTempFile => (files, false)
    case ShortWrite(written) => (if env.unlinks then files else files[temp := written], false)
    case NoReplace => (if env.unlinks then files else files[temp := content], false)
  }

  /** The file system as the writer sees it. */
  class Disk {
    var files: Files

    constructor ()
      ensures files == map[]
    {
      files := map[];
    }

    method Put(path: Target, content: Bytes)
      modifies this
      ensures files == old(files)[path := content]
    {
      files := files[path := content];
    }

    /** Moves the temporary file over the target. */
    method Replace(temp: Target, target: Target)
      requires temp in files && temp != target
      modifies this
      ensures files == (old(files) - {temp})[target := old(files)[temp]]
    {
      var content := files[temp];
      files := (files - {temp})[target := content];
    }

    method Unlink(path: Target)
      modifies this
      ensures files == old(files) - {path}
    {
      files := files - {path};
    }
  }

  // ----- The writer -----

  /** The metadata tracked for one complete artifact. */
  datatype Tracked = Tracked(path: RefPath, mediaType: string, byteSize: nat, sha256: string, producer: string)

  datatype ManifestEntry = ManifestEntry(id: string, artifact: Tracked)

  /**
   What is handed to the manifest writer: a `dict` that names artifacts, data without an artifact list, or
   anything else that lists artifacts, a validated manifest or a mapping that is no `dict`.
   */
  datatype ManifestData = Dict(requested: seq<string>) | NoList | Validated(entries: seq<ManifestEntry>)

  datatype Written = Written(target: Target, mediaType: string, byteSize: nat, sha256: string,
                             entries: seq<ManifestEntry>)

  /** Everything a write can change. */
  datatype State = State(files: Files, artifacts: map<string, Tracked>, manifest: Option<Written>)

  /** The writer's fixed surroundings: the hash and the JSON text of a manifest, if its other fields are valid. */
  datatype Setting = Setting(sha: Bytes -> string, render: seq<ManifestEntry> -> Option<Bytes>, producer: string)

  const JSON_MEDIA_TYPE := "application/json"

  function MediaType(ref: Ref, fallback: string): string {
    if ref.contentType != "" then ref.contentType else fallback
  }

  /** One `_write_artifact` call: the state after it, and whether it succeeded. */
  function AfterWrite(s: State, setting: Setting, ref: Ref, content: Bytes, fallback: string,
                      env: Environment): (State, bool)
  {
    match Resolve(ref.path)
    case None => (s, false)
    case Some(target) =>
      var written := WriteFile(s.files, target, content, env);
      if !written.1 then (s.(files := written.0), false)
      else
        var tracked := Tracked(ref.path, MediaType(ref, fallback), |content|, setting.sha(content), setting.producer);
        (s.(files := written.0, artifacts := s.artifacts[ref.id := tracked]), true)
  }

  /** The ids of a list of entries are exactly the tracked ids, in strictly ascending order. */
  ghost predicate ListsExactly(entries: seq<ManifestEntry>, artifacts: map<string, Tracked>) {
    && (forall i, j :: 0 <= i < j < |entries| ==> Less(Codes(entries[i].id), Codes(entries[j].id)))
    && (forall e :: e in entries ==> e.id in artifacts && artifacts[e.id] == e.artifact)
    && (forall id :: id in artifacts ==> ManifestEntry(id, artifacts[id]) in entries)
  }

  /** There is only one such list. */
  lemma ListingUnique(a: seq<ManifestEntry>, b: seq<ManifestEntry>, artifacts: map<string, Tracked>)
    requires ListsExactly(a, artifacts) && ListsExactly(b, artifacts)
    ensures a == b
  {
    forall e ensures e in a <==> e in b {
    }
    AscendingUnique(a, b, EntryRank);
  }

  function EntryRank(e: ManifestEntry): Rank { Codes(e.id) }

  /** The checks of the manifest model on its entries. */
  predicate EntriesValid(entries: seq<ManifestEntry>) {
    (forall i, j :: 0 <= i < j < |entries| ==> entries[i].id != entries[j].id) &&
    forall i :: 0 <= i < |entries| ==> entries[i].id != "artifact_manifest"
  }

  /** The files a manifest write leaves, and what it recorded. */
  function AfterManifest(s: State, setting: Setting, ref: Ref, entries: seq<ManifestEntry>,
                         env: Environment): (State, bool)
  {
    match Resolve(ref.path)
    case None => (s, false)
    case Some(target) =>
      if !EntriesValid(entries) then (s, false)
      else
        match setting.render(entries)
        case None => (s, false)
        case Some(content) =>
          var written := WriteFile(s.files, target, content, env);
          if !written.1 then (s.(files := written.0), false)
          else
            (s.(files := written.0,
                manifest := Some(Written(target, MediaType(ref, JSON_MEDIA_TYPE), |content|, setting.sha(content),
                                         entries))), true)
  }

  lemma EntriesListExactly(ids: seq<string>, entries: seq<ManifestEntry>, artifacts: map<string, Tracked>)
    requires Ascending(ids, Codes) && |entries| == |ids|
    requires forall j :: 0 <= j < |ids| ==> ids[j] in artifacts
    requires forall j :: 0 <= j < |ids| ==> entries[j] == ManifestEntry(ids[j], artifacts[ids[j]])
    requires forall id :: id in artifacts ==> id in ids
    ensures ListsExactly(entries, artifacts)
  {
    forall i, j | 0 <= i < j < |entries| ensures Less(Codes(entries[i].id), Codes(entries[j].id)) {
      assert Less(Codes(ids[i]), Codes(ids[j]));
    }
    forall id | id in artifacts ensures ManifestEntry(id, artifacts[id]) in entries {
      var k :| 0 <= k < |ids| && ids[k] == id;
      assert entries[k] == ManifestEntry(id, artifacts[id]);
    }
  }

  class Writer {
    const disk: Disk
    const setting: Setting
    var artifacts: map<string, Tracked>
    var manifest: Option<Written>

    constructor (disk: Disk, setting: Setting)
      ensures this.disk == disk && this.setting == setting && artifacts == map[] && manifest.None?
    {
      this.disk := disk;
      this.setting := setting;
      this.artifacts := map[];
      this.manifest := None;
    }

    ghost function Now(): State
      reads this, disk
    {
      State(disk.files, artifacts, manifest)
    }

    /** `_atomic_write`: a temporary file is filled and moved over the target; on failure it is removed if it can be. */
    method AtomicWrite(target: Target, content: Bytes, env: Environment) returns (ok: bool)
      requires target != [] && TempPath(target, env.suffix) !in disk.files
      modifies disk
      ensures (disk.files, ok) == WriteFile(old(disk.files), target, content, env)
    {
      var temp := TempPath(target, env.suffix);
      TempDiffers(target, env.suffix);
      ghost var before := disk.files;
      var fault := Effective(target, env.fault);
      if fault.NoTempFile? {
        return false;
      }
      disk.Put(temp, if fault.ShortWrite? then fault.written else content);
      if fault.NoFault? {
        disk.Replace(temp, target);
        assert disk.files == before[target := content];
        return true;
      }
      if env.unlinks {
        disk.Unlink(temp);
        assert disk.files == before;
      }
      return false;
    }

    /** `_write_artifact`. */
    method WriteArtifact(ref: Ref, content: Bytes, fallback: string, env: Environment) returns (ok: bool)
      requires Resolve(ref.path).Some? ==> TempPath(Resolve(ref.path).value, env.suffix) !in disk.files
      modifies this, disk
      ensures (Now(), ok) == AfterWrite(old(Now()), setting, ref, content, fallback, env)
    {
      var target := Resolve(ref.path);
      if target.None? {
        return false;
      }
      ok := AtomicWrite(target.value, content, env);
      if ok {
        var mediaType, digest := MediaType(ref, fallback), setting.sha(content);
        artifacts := artifacts[ref.id := Tracked(ref.path, mediaType, |content|, digest, setting.producer)];
      }
    }

    /** The tracked and the requested ids together, sorted. */
    method ArtifactIds(requested: seq<string>) returns (r: seq<string>)
      ensures Ascending(r, Codes)
      ensures forall id :: id in r <==> id in artifacts || id in requested
    {
      var wanted := set id | id in requested;
      r := SortedSet(artifacts.Keys + wanted);
    }

    /** `_enrich_manifest_data`: the tracked artifacts in id order, unless some requested one is not tracked. */
    method EnrichManifest(requested: seq<string>) returns (r: Option<seq<ManifestEntry>>)
      ensures r.Some? <==> forall id :: id in requested ==> id in artifacts
      ensures r.Some? ==> ListsExactly(r.value, artifacts)
    {
      var artifactIds := ArtifactIds(requested);
      var entries: seq<ManifestEntry> := [];
      for i := 0 to |artifactIds|
        invariant |entries| == i
        invariant forall j :: 0 <= j < i ==>
                  artifactIds[j] in artifacts && entries[j] == ManifestEntry(artifactIds[j], artifacts[artifactIds[j]])
      {
        var id := artifactIds[i];
        assert id in artifactIds;
        if id !in artifacts {
          return None;
        }
        entries := entries + [ManifestEntry(id, artifacts[id])];
      }
      EntriesListExactly(artifactIds, entries, artifacts);
      return Some(entries);
    }

    /** `write_artifact_manifest`: a `dict` is enriched; anything else is written as it is. */
    method WriteManifest(ref: Ref, data: ManifestData, env: Environment) returns (ok: bool)
      requires Resolve(ref.path).Some? ==> TempPath(Resolve(ref.path).value, env.suffix) !in disk.files
      modifies this, disk
      ensures data.NoList? ==> !ok && Now() == old(Now())
      ensures data.Dict? && !(forall id :: id in data.requested ==> id in old(artifacts)) ==>
              !ok && Now() == old(Now())
      ensures data.Dict? && (forall id :: id in data.requested ==> id in old(artifacts)) ==>
                exists entries :: ListsExactly(entries, old(artifacts)) &&
                                  (Now(), ok) == AfterManifest(old(Now()), setting, ref, entries, env)
      ensures data.Validated? ==>
                (Now(), ok) == AfterManifest(old(Now()), setting, ref, data.entries, env)
    {
      var target := Resolve(ref.path);
      var entries: seq<ManifestEntry>;
      match data {
        case NoList => return false;
        case Dict(requested) =>
          var enriched := EnrichManifest(requested);
          if enriched.None? {
            return false;
          }
          entries := enriched.value;
        case Validated(given) => entries := given;
      }
      if target.None? || !EntriesValid(entries) {
        return false;
      }
      var content := setting.render(entries);
      if content.None? {
        return false;
      }
      ok := AtomicWrite(target.value, content.value, env);
      if ok {
        manifest := Some(Written(target.value, MediaType(ref, JSON_MEDIA_TYPE), |content.value|,
                                 setting.sha(content.value), entries));
      }
    }
  }

  // ----- What is tracked agrees with what is on disk -----

  /** The file at the tracked path has the recorded size and digest. */
  ghost predicate OnDisk(files: Files, artifact: Tracked, sha: Bytes -> string) {
    && Resolve(artifact.path).Some? && Resolve(artifact.path).value in files
    && artifact.byteSize == |files[Resolve(artifact.path).value]|
    && artifact.sha256 == sha(files[Resolve(artifact.path).value])
  }

  /** The manifest file holds the text of the listed entries, with the recorded size and digest. */
  ghost predicate ManifestOnDisk(files: Files, m: Written, setting: Setting) {
    && m.target in files && setting.render(m.entries) == Some(files[m.target])
    && m.byteSize == |files[m.target]| && m.sha256 == setting.sha(files[m.target])
  }

  ghost predicate Agrees(s: State, setting: Setting) {
    && (forall id :: id in s.artifacts ==> OnDisk(s.files, s.artifacts[id], setting.sha))
    && (s.manifest.Some? ==> ManifestOnDisk(s.files, s.manifest.value, setting))
  }

  datatype Op =
    | WriteOp(ref: Ref, content: Bytes, fallback: string, env: Environment)
    | ManifestOp(ref: Ref, data: ManifestData, env: Environment)

  /** One call of the writer, as its methods are specified. */
  ghost predicate Step(setting: Setting, s: State, op: Op, t: State, ok: bool) {
    match op
    case WriteOp(ref, content, fallback, env) => (t, ok) == AfterWrite(s, setting, ref, content, fallback, env)
    case ManifestOp(ref, data, env) =>
      match data
      case NoList => t == s && !ok
      case Dict(requested) =>
        if forall id :: id in requested ==> id in s.artifacts then
          exists entries ::
            ListsExactly(entries, s.artifacts) && (t, ok) == AfterManifest(s, setting, ref, entries, env)
        else t == s && !ok
      case Validated(entries) => (t, ok) == AfterManifest(s, setting, ref, entries, env)
  }

  /** `mkstemp` hands out a name that is not taken. */
  ghost predicate FreshTemp(s: State, op: Op) {
    Resolve(op.ref.path).Some? ==> TempPath(Resolve(op.ref.path).value, op.env.suffix) !in s.files
  }

  /** The call's target is not where another artifact, or a manifest, is kept. */
  ghost predicate Apart(s: State, op: Op) {
    && (forall id :: id in s.artifacts && (op.WriteOp? ==> id != op.ref.id) ==>
          Resolve(s.artifacts[id].path) != Resolve(op.ref.path))
    && (op.WriteOp? && s.manifest.Some? ==> Resolve(op.ref.path) != Some(s.manifest.value.target))
  }

  /** Every file of `before` other than the target is still there, unchanged. */
  ghost predicate OthersKept(before: Files, after: Files, target: Target) {
    forall path :: path in before && path != target ==> path in after && after[path] == before[path]
  }

  lemma WriteKeepsOthers(files: Files, target: Target, content: Bytes, env: Environment)
    requires target != [] && TempPath(target, env.suffix) !in files
    ensures var w := WriteFile(files, target, content, env);
            OthersKept(files, w.0, target) &&
            (w.1 ==> target in w.0 && w.0[target] == content) &&
            (!w.1 ==> OthersKept(files, w.0, TempPath(target, env.suffix)))
  {
    TempDiffers(target, env.suffix);
  }

  lemma StillOnDisk(before: Files, after: Files, target: Target, artifact: Tracked, sha: Bytes -> string)
    requires OthersKept(before, after, target) && OnDisk(before, artifact, sha) &&
             Resolve(artifact.path) != Some(target)
    ensures OnDisk(after, artifact, sha)
  {
  }

  /** A call that fails leaves the tracked artifacts, the recorded manifest and every existing file as they were. */
  lemma FailureChangesNothing(setting: Setting, s: State, op: Op, t: State)
    requires Step(setting, s, op, t, false) && FreshTemp(s, op)
    ensures t.artifacts == s.artifacts && t.manifest == s.manifest
    ensures forall path :: path in s.files ==> path in t.files && t.files[path] == s.files[path]
  {
    if Resolve(op.ref.path).Some? {
      var target := Resolve(op.ref.path).value;
      forall content { WriteKeepsOthers(s.files, target, content, op.env); }
    }
  }

  /** A successful write of one artifact keeps the agreement. */
  lemma WriteAgrees(setting: Setting, s: State, op: Op, t: State)
    requires op.WriteOp? && Step(setting, s, op, t, true) && FreshTemp(s, op) && Apart(s, op) && Agrees(s, setting)
    ensures Agrees(t, setting)
  {
    var target := Resolve(op.ref.path).value;
    WriteKeepsOthers(s.files, target, op.content, op.env);
    forall id | id in t.artifacts ensures OnDisk(t.files, t.artifacts[id], setting.sha) {
      if id != op.ref.id { StillOnDisk(s.files, t.files, target, s.artifacts[id], setting.sha); }
    }
  }

  lemma ManifestAgrees(setting: Setting, s: State, ref: Ref, entries: seq<ManifestEntry>, env: Environment,
                       data: ManifestData)
    requires FreshTemp(s, ManifestOp(ref, data, env)) && Apart(s, ManifestOp(ref, data, env)) && Agrees(s, setting)
    requires AfterManifest(s, setting, ref, entries, env).1
    ensures Agrees(AfterManifest(s, setting, ref, entries, env).0, setting)
  {
    var target := Resolve(ref.path).value;
    var t := AfterManifest(s, setting, ref, entries, env).0;
    WriteKeepsOthers(s.files, target, setting.render(entries).value, env);
    forall id | id in t.artifacts ensures OnDisk(t.files, t.artifacts[id], setting.sha) {
      StillOnDisk(s.files, t.files, target, s.artifacts[id], setting.sha);
    }
  }

  lemma AgreesAfterFailure(setting: Setting, s: State, t: State)
    requires Agrees(s, setting) && t.artifacts == s.artifacts && t.manifest == s.manifest
    requires forall path :: path in s.files ==> path in t.files && t.files[path] == s.files[path]
    ensures Agrees(t, setting)
  {
    forall id | id in t.artifacts ensures OnDisk(t.files, t.artifacts[id], setting.sha) {
      assert OnDisk(s.files, s.artifacts[id], setting.sha);
    }
  }

  /** Every call keeps the agreement. */
  lemma StepAgrees(setting: Setting, s: State, op: Op, t: State, ok: bool)
    requires Step(setting, s, op, t, ok) && FreshTemp(s, op) && Apart(s, op) && Agrees(s, setting)
    ensures Agrees(t, setting)
  {
    if !ok {
      FailureChangesNothing(setting, s, op, t);
      AgreesAfterFailure(setting, s, t);
    } else if op.WriteOp? {
      WriteAgrees(setting, s, op, t);
    } else {
      var entries :| (t, ok) == AfterManifest(s, setting, op.ref, entries, op.env);
      ManifestAgrees(setting, s, op.ref, entries, op.env, op.data);
    }
  }

  /**
   A written manifest lists exactly the tracked artifacts in strictly ascending order when it was
   handed in as a `dict`; handed in as anything else, exactly when it did so itself.
   */
  lemma ManifestListsTracked(setting: Setting, s: State, op: Op, t: State)
    requires op.ManifestOp? && Step(setting, s, op, t, true)
    ensures t.manifest.Some? && t.artifacts == s.artifacts
    ensures ListsExactly(t.manifest.value.entries, t.artifacts) <==>
            op.data.Dict? || (op.data.Validated? && ListsExactly(op.data.entries, s.artifacts))
  {
  }

  /** A validated manifest may name artifacts that were never written. */
  lemma StaleManifest(setting: Setting, ref: Ref, e: ManifestEntry, suffix: string)
    requires Resolve(ref.path).Some? && |Resolve(ref.path).value| >= 2
    requires e.id != "artifact_manifest" && setting.render([e]).Some?
    ensures var s := State(map[], map[], None);
            var t := AfterManifest(s, setting, ref, [e], Environment(suffix, NoFault, true));
            Step(setting, s, ManifestOp(ref, Validated([e]), Environment(suffix, NoFault, true)), t.0, true) &&
            t.0.manifest.Some? && !ListsExactly(t.0.manifest.value.entries, t.0.artifacts)
  {
    assert e in [e];
  }

  // ----- Where the writer writes -----

  /** A relative path without `..` that starts in the `millforge` directory. */
  ghost predicate SafePath(path: RefPath) {
    && !path.absolute && (forall part :: part in path.parts ==> part != "..")
    && |path.parts| >= 1 && path.parts[0] == "millforge"
  }

  /** Below the `millforge` directory. */
  predicate Inside(target: Target) {
    |target| >= 2 && target[0] == "millforge"
  }

  lemma ResolveExact(path: RefPath)
    ensures Resolve(path) == if SafePath(path) then Some(path.parts) else None
  {
  }

  /** The file is new, or has other contents than before. */
  predicate Touched(before: Files, after: Files, path: Target) {
    path in after && (path !in before || after[path] != before[path])
  }

  lemma TempInside(target: Target, suffix: string)
    requires Inside(target)
    ensures Inside(TempPath(target, suffix))
  {
  }

  /** One atomic write touches only its target, or on failure the temporary file beside it. */
  lemma WriteTouches(files: Files, target: Target, content: Bytes, env: Environment, path: Target)
    requires target != [] && Touched(files, WriteFile(files, target, content, env).0, path)
    ensures path == if WriteFile(files, target, content, env).1 then target else TempPath(target, env.suffix)
  {
  }

  /** Nothing fails, and the path lies below `millforge`. */
  ghost predicate Writable(op: Op) {
    SafePath(op.ref.path) && Inside(op.ref.path.parts) && op.env.fault.NoFault?
  }

  /** The media type the reference gives, or else the one of the kind of artifact. */
  ghost predicate HasMediaType(ref: Ref, fallback: string, mediaType: string) {
    if ref.contentType == "" then mediaType == fallback else mediaType == ref.contentType
  }

  /** What is tracked of one written artifact. */
  ghost predicate Describes(tracked: Tracked, setting: Setting, op: Op)
    requires op.WriteOp?
  {
    && tracked.path == op.ref.path && HasMediaType(op.ref, op.fallback, tracked.mediaType)
    && tracked.byteSize == |op.content| && tracked.sha256 == setting.sha(op.content)
    && tracked.producer == setting.producer
  }

  /** An artifact write succeeds exactly when it can; the file and what is tracked of it are then as they should be. */
  lemma WriteSucceedsExactly(setting: Setting, s: State, op: Op, t: State, ok: bool)
    requires op.WriteOp? && Step(setting, s, op, t, ok)
    ensures ok <==> Writable(op)
    ensures ok ==>
              && t.files == s.files[op.ref.path.parts := op.content] && t.manifest == s.manifest
              && op.ref.id in t.artifacts && Describes(t.artifacts[op.ref.id], setting, op)
              && t.artifacts == s.artifacts[op.ref.id := t.artifacts[op.ref.id]]
  {
    ResolveExact(op.ref.path);
  }

  /** What a failed write leaves: nothing new, or the temporary file with what was written to it. */
  lemma WriteLeaves(setting: Setting, s: State, op: Op, t: State)
    requires op.WriteOp? && Step(setting, s, op, t, false)
    ensures t.artifacts == s.artifacts && t.manifest == s.manifest
    ensures !SafePath(op.ref.path) || op.env.unlinks || op.env.fault.NoTempFile? ==> t.files == s.files
    ensures SafePath(op.ref.path) && !op.env.unlinks && !op.env.fault.NoTempFile? ==>
              var written := if op.env.fault.ShortWrite? then op.env.fault.written else op.content;
              t.files == s.files[TempPath(op.ref.path.parts, op.env.suffix) := written]
  {
    ResolveExact(op.ref.path);
  }

  /** Distinct ids, none of them the manifest's own. */
  ghost predicate EntriesFit(entries: seq<ManifestEntry>) {
    && (forall i, j :: 0 <= i < j < |entries| ==> entries[i].id != entries[j].id)
    && forall e :: e in entries ==> e.id != "artifact_manifest"
  }

  /** The entries a manifest call writes, if it writes any: those of the tracked artifacts, or the given ones. */
  ghost predicate ToBeListed(s: State, data: ManifestData, entries: seq<ManifestEntry>) {
    match data
    case NoList => false
    case Dict(requested) => (forall id :: id in requested ==> id in s.artifacts) && ListsExactly(entries, s.artifacts)
    case Validated(given) => entries == given
  }

  /** A manifest call succeeds exactly when it has entries that fit and can be written; it then writes their text. */
  lemma ManifestSucceedsExactly(setting: Setting, s: State, op: Op, t: State, ok: bool)
    requires op.ManifestOp? && Step(setting, s, op, t, ok)
    ensures ok ==> Writable(op) && t.artifacts == s.artifacts && t.manifest.Some? &&
                   var m := t.manifest.value;
                   && ToBeListed(s, op.data, m.entries) && EntriesFit(m.entries)
                   && setting.render(m.entries).Some? && t.files == s.files[m.target := setting.render(m.entries).value]
                   && m.target == op.ref.path.parts && HasMediaType(op.ref, JSON_MEDIA_TYPE, m.mediaType)
    ensures forall entries :: ToBeListed(s, op.data, entries) ==>
              (ok <==> Writable(op) && EntriesFit(entries) && setting.render(entries).Some?)
    ensures op.data.Dict? && !(forall id :: id in op.data.requested ==> id in s.artifacts) ==> !ok
  {
    ResolveExact(op.ref.path);
    forall entries: seq<ManifestEntry> ensures EntriesValid(entries) <==> EntriesFit(entries) {
      if EntriesFit(entries) {
        forall i | 0 <= i < |entries| ensures entries[i].id != "artifact_manifest" { assert entries[i] in entries; }
      }
    }
    forall entries | ToBeListed(s, op.data, entries)
      ensures ok <==> Writable(op) && EntriesFit(entries) && setting.render(entries).Some?
    {
      if op.data.Dict? {
        var other :| ListsExactly(other, s.artifacts) && (t, ok) == AfterManifest(s, setting, op.ref, other, op.env);
        ListingUnique(entries, other, s.artifacts);
      }
    }
  }

  /** An unsafe path is refused, whatever is written there, and nothing changes. */
  lemma UnsafeRefused(setting: Setting, s: State, op: Op, t: State, ok: bool)
    requires Step(setting, s, op, t, ok) && !SafePath(op.ref.path)
    ensures !ok && t == s
  {
    ResolveExact(op.ref.path);
  }

  /** The temporary file that a failed call addressed to `millforge` itself may leave beside it. */
  ghost predicate LeftBeside(op: Op, ok: bool, path: Target) {
    !ok && op.ref.path.parts == ["millforge"] && path == TempPath(["millforge"], op.env.suffix)
  }

  /** A call touches files below `millforge` only, but for what one addressed to `millforge` itself leaves. */
  lemma StaysInside(setting: Setting, s: State, op: Op, t: State, ok: bool, path: Target)
    requires Step(setting, s, op, t, ok) && Touched(s.files, t.files, path)
    ensures Inside(path) || LeftBeside(op, ok, path)
    ensures ok ==> path == op.ref.path.parts
  {
    ResolveExact(op.ref.path);
    var target := op.ref.path.parts;
    if SafePath(op.ref.path) {
      forall content: Bytes | Touched(s.files, WriteFile(s.files, target, content, op.env).0, path)
        ensures path == if WriteFile(s.files, target, content, op.env).1 then target
                        else TempPath(target, op.env.suffix)
      {
        WriteTouches(s.files, target, content, op.env, path);
      }
      if Inside(target) { TempInside(target, op.env.suffix); } else { assert target == ["millforge"]; }
    }
  }

  /** Over every run of calls not addressed to `millforge` itself, no file ever stands outside it. */
  lemma {:induction false} RunsStayInside(setting: Setting, ops: seq<Op>, states: seq<State>, oks: seq<bool>, n: nat,
                                          path: Target)
    requires Run(setting, ops, states, oks) && n <= |ops| && path in states[n].files
    requires forall op :: op in ops ==> op.ref.path.parts != ["millforge"]
    ensures Inside(path)
  {
    if n > 0 {
      assert RunStep(setting, ops, states, oks, n - 1);
      if Touched(states[n - 1].files, states[n].files, path) {
        StaysInside(setting, states[n - 1], ops[n - 1], states[n], oks[n - 1], path);
        assert ops[n - 1] in ops;
      } else {
        RunsStayInside(setting, ops, states, oks, n - 1, path);
      }
    }
  }

  // ----- Runs -----

  /** A sequence of calls from an empty run directory, with the state after each. */
  ghost predicate Run(setting: Setting, ops: seq<Op>, states: seq<State>, oks: seq<bool>) {
    && |states| == |ops| + 1 && |oks| == |ops|
    && states[0] == State(map[], map[], None)
    && forall i :: 0 <= i < |ops| ==>
         RunStep(setting, ops, states, oks, i)
  }

  ghost predicate RunStep(setting: Setting, ops: seq<Op>, states: seq<State>, oks: seq<bool>, i: nat)
    requires |states| == |ops| + 1 && |oks| == |ops| && i < |ops|
  {
    Step(setting, states[i], ops[i], states[i + 1], oks[i]) && FreshTemp(states[i], ops[i])
  }

  /** Different artifact ids are written to different targets, and manifests to others again. */
  ghost predicate DistinctTargets(ops: seq<Op>) {
    forall i, j :: 0 <= i < |ops| && 0 <= j < |ops| && Separate(ops[i], ops[j]) ==>
      Resolve(ops[i].ref.path) != Resolve(ops[j].ref.path)
  }

  predicate Separate(a: Op, b: Op) {
    a.WriteOp? && (b.ManifestOp? || a.ref.id != b.ref.id)
  }

  /** Everything tracked was put there by one of the calls. */
  ghost predicate WrittenBy(s: State, ops: seq<Op>) {
    && (forall id :: id in s.artifacts ==>
          exists op :: op in ops && op.WriteOp? && op.ref.id == id && op.ref.path == s.artifacts[id].path)
    && (s.manifest.Some? ==>
          exists op :: op in ops && op.ManifestOp? && Resolve(op.ref.path) == Some(s.manifest.value.target))
  }

  lemma WrittenByMore(setting: Setting, s: State, op: Op, t: State, ok: bool, ops: seq<Op>)
    requires WrittenBy(s, ops) && Step(setting, s, op, t, ok)
    ensures WrittenBy(t, ops + [op])
  {
    var all := ops + [op];
    assert op in all;
    forall id | id in t.artifacts
      ensures exists o :: o in all && o.WriteOp? && o.ref.id == id && o.ref.path == t.artifacts[id].path
    {
      if id in s.artifacts && t.artifacts[id] == s.artifacts[id] {
        var o :| o in ops && o.WriteOp? && o.ref.id == id && o.ref.path == s.artifacts[id].path;
        assert o in all;
      }
    }
    if t.manifest.Some? && t.manifest == s.manifest {
      var o :| o in ops && o.ManifestOp? && Resolve(o.ref.path) == Some(s.manifest.value.target);
      assert o in all;
    }
  }

  lemma ApartInRun(ops: seq<Op>, i: nat, s: State)
    requires DistinctTargets(ops) && i < |ops| && WrittenBy(s, ops[..i])
    ensures Apart(s, ops[i])
  {
    var op := ops[i];
    forall id | id in s.artifacts && (op.WriteOp? ==> id != op.ref.id)
      ensures Resolve(s.artifacts[id].path) != Resolve(op.ref.path)
    {
      var o :| o in ops[..i] && o.WriteOp? && o.ref.id == id && o.ref.path == s.artifacts[id].path;
      var j :| 0 <= j < i && ops[..i][j] == o;
      assert Separate(ops[j], ops[i]);
    }
    if op.WriteOp? && s.manifest.Some? {
      var o :| o in ops[..i] && o.ManifestOp? && Resolve(o.ref.path) == Some(s.manifest.value.target);
      var j :| 0 <= j < i && ops[..i][j] == o;
      assert Separate(ops[i], ops[j]);
    }
  }

  lemma {:induction false} RunInvariant(setting: Setting, ops: seq<Op>, states: seq<State>, oks: seq<bool>, n: nat)
    requires Run(setting, ops, states, oks) && DistinctTargets(ops) && n <= |ops|
    ensures Agrees(states[n], setting) && WrittenBy(states[n], ops[..n])
  {
    if n > 0 {
      RunInvariant(setting, ops, states, oks, n - 1);
      assert RunStep(setting, ops, states, oks, n - 1);
      ApartInRun(ops, n - 1, states[n - 1]);
      StepAgrees(setting, states[n - 1], ops[n - 1], states[n], oks[n - 1]);
      WrittenByMore(setting, states[n - 1], ops[n - 1], states[n], oks[n - 1], ops[..n - 1]);
      assert ops[..n] == ops[..n - 1] + [ops[n - 1]];
    }
  }

  /**
   Over every run of writes, some of which may fail, with distinct artifacts at distinct targets:
   each tracked artifact's recorded size and digest match the bytes on disk, and so do those of the
   last manifest; every failed call changed nothing that was tracked or stored.
   */
  lemma RunsAgree(setting: Setting, ops: seq<Op>, states: seq<State>, oks: seq<bool>, n: nat)
    requires Run(setting, ops, states, oks) && DistinctTargets(ops) && n < |ops|
    ensures Agrees(states[n + 1], setting)
    ensures !oks[n] ==>
              states[n + 1].artifacts == states[n].artifacts && states[n + 1].manifest == states[n].manifest &&
              forall path :: path in states[n].files ==>
                path in states[n + 1].files && states[n + 1].files[path] == states[n].files[path]
  {
    RunInvariant(setting, ops, states, oks, n + 1);
    assert RunStep(setting, ops, states, oks, n);
    if !oks[n] { FailureChangesNothing(setting, states[n], ops[n], states[n + 1]); }
  }

  /** The last of the first `n` calls that wrote the artifact, if any did. */
  function LastWrite(ops: seq<Op>, oks: seq<bool>, n: nat, id: string): (r: Option<nat>)
    requires n <= |ops| && |oks| == |ops|
    ensures r.Some? ==> r.value < n && ops[r.value].WriteOp? && ops[r.value].ref.id == id && oks[r.value]
    ensures forall k :: (if r.Some? then r.value + 1 else 0) <= k < n && oks[k] && ops[k].WriteOp? ==>
            ops[k].ref.id != id
  {
    if n == 0 then None
    else if oks[n - 1] && ops[n - 1].WriteOp? && ops[n - 1].ref.id == id then Some(n - 1)
    else LastWrite(ops, oks, n - 1, id)
  }

  /** What a successful write records. */
  function Recorded(setting: Setting, op: Op): Tracked
    requires op.WriteOp?
  {
    Tracked(op.ref.path, MediaType(op.ref, op.fallback), |op.content|, setting.sha(op.content), setting.producer)
  }

  /** In a run, what is tracked of an artifact is what its last successful write recorded. */
  lemma {:induction false} RunTracks(setting: Setting, ops: seq<Op>, states: seq<State>, oks: seq<bool>, n: nat,
                                     id: string)
    requires Run(setting, ops, states, oks) && n <= |ops|
    ensures var last := LastWrite(ops, oks, n, id);
            (id in states[n].artifacts <==> last.Some?) &&
            (last.Some? ==> states[n].artifacts[id] == Recorded(setting, ops[last.value]))
  {
    if n > 0 {
      RunTracks(setting, ops, states, oks, n - 1, id);
      assert RunStep(setting, ops, states, oks, n - 1);
    }
  }

  /** The ids are in strictly ascending order, and are those of the artifacts written so far, as last written. */
  ghost predicate ListsWritten(setting: Setting, entries: seq<ManifestEntry>, ops: seq<Op>, oks: seq<bool>, n: nat)
    requires n <= |ops| && |oks| == |ops|
  {
    && (forall i, j :: 0 <= i < j < |entries| ==> Less(Codes(entries[i].id), Codes(entries[j].id)))
    && (forall e :: e in entries ==>
          LastWrite(ops, oks, n, e.id).Some? &&
          e.artifact == Recorded(setting, ops[LastWrite(ops, oks, n, e.id).value]))
    && (forall id :: LastWrite(ops, oks, n, id).Some? ==> exists e :: e in entries && e.id == id)
  }

  /**
   In every run, a manifest written from a `dict` lists exactly the artifacts whose writes succeeded
   before it, each with the metadata of its last successful write.
   */
  lemma RunManifests(setting: Setting, ops: seq<Op>, states: seq<State>, oks: seq<bool>, n: nat)
    requires Run(setting, ops, states, oks) && n < |ops| && oks[n] && ops[n].ManifestOp? && ops[n].data.Dict?
    ensures states[n + 1].manifest.Some? && ListsWritten(setting, states[n + 1].manifest.value.entries, ops, oks, n)
  {
    assert RunStep(setting, ops, states, oks, n);
    ManifestListsTracked(setting, states[n], ops[n], states[n + 1]);
    var entries := states[n + 1].manifest.value.entries;
    forall e | e in entries
      ensures LastWrite(ops, oks, n, e.id).Some? &&
              e.artifact == Recorded(setting, ops[LastWrite(ops, oks, n, e.id).value])
    {
      RunTracks(setting, ops, states, oks, n, e.id);
    }
    forall id | LastWrite(ops, oks, n, id).Some? ensures exists e :: e in entries && e.id == id {
      RunTracks(setting, ops, states, oks, n, id);
      assert ManifestEntry(id, states[n].artifacts[id]) in entries;
    }
  }
}
