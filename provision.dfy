/**
 * The script's effects on the local disk: moving the legacy weight file
 * into place, fetch-or-skip of each planned weight file, and replacing the
 * model config by writing a temporary file and renaming it over the target.
 *
 * The disk is one map from path to entry. The remote store (the hub
 * download followed by the link into place) is an oracle saying whether
 * that fetch succeeds; the YAML reader and writer are opaque functions.
 */
module Provision {
  import opened Wrappers
  import opened Catalog
  import opened Prompt
  import opened Selection
  import opened OrderedMap
  import opened ConfigMerge

  /** What sits at a path: a file with its contents, or a directory. */
  datatype Entry = File(contents: string) | Dir

  type Disk = map<string, Entry>

  /** The contents a successful fetch links into place: the cached object for `file` of `repo`. */
  function Blob(repo: string, file: string): string {
    repo + ":" + file
  }

  const Sd14Name: string := "stable-diffusion-1.4"

  function LegacyPath(): string {
    Join(ModelDir, LegacyName)
  }

  // ---------------------------------------------------------------- specifications

  /**
   * `migrate_models_ckpt`: when the legacy file exists and the operator
   * agrees (yes by default), it is renamed to the 1.4 weights' file name.
   */
  function Migrated(cat: seq<Descriptor>, disk: Disk, consent: string): Disk
    requires InCatalog(cat, Sd14Name)
  {
    if LegacyPath() !in disk || !YesOrNo(consent, true) then disk
    else (disk - {LegacyPath()})[ModelPath(Lookup(cat, Sd14Name).file) := disk[LegacyPath()]]
  }

  /** `os.makedirs(dir, exist_ok=True)` for the one directory a destination needs. */
  function MakeDir(disk: Disk, dir: string): Disk {
    if dir in disk then disk else disk[dir := Dir]
  }

  /**
   * `conditional_download`: an existing destination is success with no
   * change; otherwise the directory is made and the fetch either links the
   * cached object into place (success) or fails and leaves the destination absent.
   */
  function Fetch(disk: Disk, repo: string, file: string, fetchOk: bool): (bool, Disk) {
    var dest := ModelPath(file);
    if dest in disk then (true, disk)
    else
      var made := MakeDir(disk, DirName(dest));
      if fetchOk then (true, made[dest := File(Blob(repo, file))]) else (false, made)
  }

  /** The names of a plan, in plan order. */
  function Names(plan: seq<Choice>): (names: seq<string>)
    ensures |names| == |plan|
    ensures forall i :: 0 <= i < |plan| ==> names[i] == plan[i].name
  {
    if plan == [] then [] else Names(plan[..|plan| - 1]) + [plan[|plan| - 1].name]
  }

  /** The fetch loop of `download_weight_datasets` over `names`: the success list and the disk after it. */
  function FetchAll(cat: seq<Descriptor>, disk: Disk, names: seq<string>, remote: (string, string) -> bool): (seq<string>, Disk)
    requires AllKnown(cat, names)
  {
    if names == [] then ([], disk)
    else
      var before := FetchAll(cat, disk, names[..|names| - 1], remote);
      var d := Lookup(cat, names[|names| - 1]);
      var after := Fetch(before.1, d.repoId, d.file, remote(d.repoId, d.file));
      (before.0 + (if after.0 then [names[|names| - 1]] else []), after.1)
  }

  /** How writing the temporary config file goes: no fault, or which step raises. */
  datatype IoFault = NoFault | OpenFails | WriteFails(written: nat) | RenameFails

  /**
   * The disk after writing `text` to the temporary file and renaming it over
   * the config: only a completed rename touches the config path.
   */
  function Persisted(disk: Disk, text: string, fault: IoFault): Disk {
    match fault
    case NoFault => (disk - {TempFile()})[ConfigFile := File(text)]
    case OpenFails => disk
    case WriteFails(n) => disk[TempFile() := File(text[..if n < |text| then n else |text|])]
    case RenameFails => disk[TempFile() := File(text)]
  }

  /** The YAML reader only yields well-formed mappings. */
  ghost predicate ParsesToMappings(parse: string -> Option<Conf>) {
    forall t :: parse(t).Some? ==> parse(t).value.Valid()
  }

  /**
   * `update_config_file`: the disk afterwards and whether the new config was
   * written. A missing or unreadable config, an unknown name or a stanza that
   * is not a mapping means nothing is written at all.
   */
  function ConfigUpdate(cat: seq<Descriptor>, disk: Disk, successful: seq<string>,
                        parse: string -> Option<Conf>, toYaml: Conf -> string, fault: IoFault): (Disk, bool)
  {
    if ConfigFile !in disk || disk[ConfigFile].Dir? then (disk, false)
    else
      var loaded := parse(disk[ConfigFile].contents);
      if loaded.None? then (disk, false)
      else
        var merged := Expected(cat, loaded.value, successful);
        if merged.Err? then (disk, false)
        else (Persisted(disk, ConfigPreamble + toYaml(merged.value), fault), fault == NoFault)
  }

  // ---------------------------------------------------------------- properties

  /** Where catalog entry `m` is installed. */
  function Dest(cat: seq<Descriptor>, m: string): string
    requires InCatalog(cat, m)
  {
    ModelPath(Lookup(cat, m).file)
  }

  /**
   * In a well-formed catalog, entries have distinct destinations, and no
   * destination is the directory a fetch creates, the config or its temp file.
   */
  lemma DestFacts(cat: seq<Descriptor>, a: string, b: string)
    requires WellFormed(cat) && InCatalog(cat, a) && InCatalog(cat, b)
    ensures Dest(cat, a) == Dest(cat, b) <==> a == b
    ensures Dest(cat, a) != DirName(Dest(cat, b))
    ensures Dest(cat, a) != ConfigFile && Dest(cat, a) != TempFile()
  {
    var fa, fb := Lookup(cat, a).file, Lookup(cat, b).file;
    assert fa == cat[IndexOf(cat, a).value].file && fb == cat[IndexOf(cat, b).value].file;
    ModelPathInjective(fa, fb);
    if a != b {
      FilesOfDistinctNames(cat, a, b);
    }
    ModelPathShape(fa);
    ModelPathShape(fb);
    assert |Dest(cat, a)| > |DirName(Dest(cat, b))|;
  }

  /**
   * Fetch-or-skip is idempotent: once a fetch has succeeded, fetching the
   * same file again succeeds without touching the remote store or the disk,
   * whatever the store would say. A failed fetch leaves no file at the destination.
   */
  lemma FetchIdempotent(disk: Disk, repo: string, file: string, fetchOk: bool, again: bool)
    requires file != [] && HasNoSlash(file)
    ensures var (ok, after) := Fetch(disk, repo, file, fetchOk);
      && (ok <==> ModelPath(file) in after)
      && (ok ==> Fetch(after, repo, file, again) == (true, after))
      && (ModelPath(file) in disk ==> (ok, after) == (true, disk))
  {
    ModelPathShape(file);
  }

  /**
   * Renaming the legacy file means a later fetch of the 1.4 weights finds
   * them in place: it succeeds without a download, and the file keeps the
   * legacy file's contents.
   */
  lemma MigrationThenFetch(cat: seq<Descriptor>, disk: Disk, consent: string, fetchOk: bool)
    requires WellFormed(cat) && InCatalog(cat, Sd14Name) && Lookup(cat, Sd14Name).file != LegacyName
    requires LegacyPath() in disk && YesOrNo(consent, true)
    ensures var migrated := Migrated(cat, disk, consent);
      var d := Lookup(cat, Sd14Name);
      && LegacyPath() !in migrated
      && ModelPath(d.file) in migrated && migrated[ModelPath(d.file)] == disk[LegacyPath()]
      && Fetch(migrated, d.repoId, d.file, fetchOk) == (true, migrated)
  {
    var d := Lookup(cat, Sd14Name);
    assert d.file == cat[IndexOf(cat, Sd14Name).value].file;
    ModelPathInjective(d.file, LegacyName);
  }

  /** The disk changes exactly when the legacy file is there and the operator agrees. */
  lemma MigrationOnlyOnConsent(cat: seq<Descriptor>, disk: Disk, consent: string)
    requires WellFormed(cat) && InCatalog(cat, Sd14Name) && Lookup(cat, Sd14Name).file != LegacyName
    ensures Migrated(cat, disk, consent) != disk <==> LegacyPath() in disk && YesOrNo(consent, true)
  {
    if LegacyPath() in disk && YesOrNo(consent, true) {
      MigrationThenFetch(cat, disk, consent, false);
    }
  }

  /** The script's catalog has the 1.4 entry, and its file is not the legacy name. */
  lemma Sd14InDatasets()
    ensures InCatalog(Datasets, Sd14Name)
    ensures Lookup(Datasets, Sd14Name) == Datasets[Sd14Index]
    ensures Lookup(Datasets, Sd14Name).file == "sd-v1-4.ckpt" != LegacyName
  {
    DatasetsWellFormed();
    IndexOfEntry(Datasets, Sd14Index);
  }

  /**
   * One fetch of a catalog entry: it succeeds exactly when the file was
   * present or the store delivers it, changes nothing already on disk, and
   * of all catalog destinations adds at most its own.
   */
  lemma FetchEffect(cat: seq<Descriptor>, disk: Disk, x: string, fetchOk: bool)
    requires WellFormed(cat) && InCatalog(cat, x)
    ensures var d := Lookup(cat, x);
      var (ok, after) := Fetch(disk, d.repoId, d.file, fetchOk);
      && (ok <==> Dest(cat, x) in disk || fetchOk)
      && (forall p :: p in disk ==> p in after && after[p] == disk[p])
      && (forall m :: InCatalog(cat, m) ==> (Dest(cat, m) in after <==> Dest(cat, m) in disk || (m == x && ok)))
  {
    var d := Lookup(cat, x);
    var (ok, after) := Fetch(disk, d.repoId, d.file, fetchOk);
    forall m | InCatalog(cat, m)
      ensures Dest(cat, m) in after <==> Dest(cat, m) in disk || (m == x && ok)
    {
      DestFacts(cat, m, x);
    }
  }

  /**
   * The fetch loop never removes or overwrites anything; an entry ends up
   * in the success list exactly when its file was already present or the
   * store delivered it, independently of how the other entries fared; and
   * a destination exists afterwards exactly when it existed before or its
   * entry succeeded.
   */
  lemma {:induction false} FetchAllEffects(cat: seq<Descriptor>, disk: Disk, names: seq<string>, remote: (string, string) -> bool)
    requires WellFormed(cat) && AllKnown(cat, names) && Distinct(names)
    ensures var (succ, after) := FetchAll(cat, disk, names, remote);
      && (forall p :: p in disk ==> p in after && after[p] == disk[p])
      && (forall m :: m in succ <==>
            (m in names && (Dest(cat, m) in disk || remote(Lookup(cat, m).repoId, Lookup(cat, m).file))))
      && (forall m :: InCatalog(cat, m) ==> (Dest(cat, m) in after <==> Dest(cat, m) in disk || m in succ))
  {
    if names != [] {
      var p, x := names[..|names| - 1], names[|names| - 1];
      assert names == p + [x];
      assert x !in p;
      FetchAllEffects(cat, disk, p, remote);
      var (s0, f0) := FetchAll(cat, disk, p, remote);
      var d := Lookup(cat, x);
      FetchEffect(cat, f0, x, remote(d.repoId, d.file));
      var (ok, f1) := Fetch(f0, d.repoId, d.file, remote(d.repoId, d.file));
      assert FetchAll(cat, disk, names, remote) == (s0 + (if ok then [x] else []), f1);
    }
  }

  /** The success list keeps plan order and names each entry once. */
  lemma {:induction false} FetchAllOrdered(cat: seq<Descriptor>, disk: Disk, names: seq<string>, remote: (string, string) -> bool)
    requires AllKnown(cat, names) && Distinct(names)
    ensures var succ := FetchAll(cat, disk, names, remote).0;
      && (forall m :: m in succ ==> m in names)
      && Distinct(succ)
      && OrderedIn(succ, names)
  {
    if names != [] {
      var p, x := names[..|names| - 1], names[|names| - 1];
      assert names == p + [x];
      assert x !in p;
      FetchAllOrdered(cat, disk, p, remote);
      var s0 := FetchAll(cat, disk, p, remote).0;
      var s := FetchAll(cat, disk, names, remote).0;
      forall i, j | 0 <= i < j < |s| ensures Before(names, s[i], s[j]) {
        if j < |s0| {
          BeforeExtend(p, x, s0[i], s0[j]);
        } else {
          assert s0[i] in s0;
          BeforeLast(p, x, s0[i]);
        }
      }
    }
  }

  /** A confirmed selection from a well-formed catalog is a valid plan for the fetch loop over that catalog. */
  lemma ChosenPlanFetchable(cat: seq<Descriptor>, plan: seq<Choice>)
    requires WellFormed(cat) && WellNumbered(cat, plan)
    ensures AllKnown(cat, Names(plan)) && Distinct(Names(plan))
  {
    forall m | m in Names(plan) ensures InCatalog(cat, m) {
      var j :| 0 <= j < |plan| && Names(plan)[j] == m;
      IndexOfEntry(cat, plan[j].index - 1);
    }
  }

  /**
   * The config path changes only through the final rename: it is never
   * created or removed, it keeps its old contents unless the new config was
   * written, and then it holds the preamble followed by the serialised merge.
   * Nothing but the config and the temp file is touched.
   */
  lemma ConfigReplacedOnlyByRename(cat: seq<Descriptor>, disk: Disk, successful: seq<string>,
                                   parse: string -> Option<Conf>, toYaml: Conf -> string, fault: IoFault)
    ensures var (after, written) := ConfigUpdate(cat, disk, successful, parse, toYaml, fault);
      && (ConfigFile in after <==> ConfigFile in disk)
      && (!written && ConfigFile in disk ==> after[ConfigFile] == disk[ConfigFile])
      && (written <==>
            (fault == NoFault && ConfigFile in disk && disk[ConfigFile].File?
             && parse(disk[ConfigFile].contents).Some?
             && Expected(cat, parse(disk[ConfigFile].contents).value, successful).Ok?))
      && (written ==>
            (TempFile() !in after
             && after[ConfigFile] == File(ConfigPreamble
                  + toYaml(Expected(cat, parse(disk[ConfigFile].contents).value, successful).value))))
      && (forall p :: p != ConfigFile && p != TempFile() ==>
            (p in after <==> p in disk) && (p in disk ==> after[p] == disk[p]))
  {
    TempFileShape();
  }

  lemma FetchAllStep(cat: seq<Descriptor>, disk: Disk, names: seq<string>, i: nat, remote: (string, string) -> bool)
    requires i < |names| && AllKnown(cat, names[..i]) && InCatalog(cat, names[i])
    ensures AllKnown(cat, names[..i + 1])
    ensures var before := FetchAll(cat, disk, names[..i], remote);
      var d := Lookup(cat, names[i]);
      var after := Fetch(before.1, d.repoId, d.file, remote(d.repoId, d.file));
      FetchAll(cat, disk, names[..i + 1], remote) == (before.0 + (if after.0 then [names[i]] else []), after.1)
  {
    assert names[..i + 1][..i] == names[..i];
  }

  lemma RemoveAfterUpdate(disk: Disk, p: string, e: Entry)
    ensures disk[p := e] - {p} == disk - {p}
  {
  }

  // ---------------------------------------------------------------- the disk

  class FileSystem {
    var disk: Disk

    constructor (initial: Disk)
      ensures disk == initial
    {
      disk := initial;
    }

    function Exists(path: string): bool
      reads this
    {
      path in disk
    }

    /** `migrate_models_ckpt`, with the operator's answer to its question. */
    method MigrateModelsCkpt(cat: seq<Descriptor>, consent: string)
      requires InCatalog(cat, Sd14Name)
      modifies this
      ensures disk == Migrated(cat, old(disk), consent)
    {
      if !Exists(LegacyPath()) {
        return;
      }
      var newName := Lookup(cat, Sd14Name).file;
      var rename := YesOrNo(consent, true);
      if rename {
        var legacy := disk[LegacyPath()];
        disk := (disk - {LegacyPath()})[ModelPath(newName) := legacy];
      }
    }

    /** `conditional_download`, with the remote store's outcome for this fetch. */
    method ConditionalDownload(repoId: string, modelName: string, fetchOk: bool) returns (success: bool)
      modifies this
      ensures (success, disk) == Fetch(old(disk), repoId, modelName, fetchOk)
    {
      var modelDest := Join(ModelDir, modelName);
      if Exists(modelDest) {
        return true;
      }
      var dir := DirName(modelDest);
      if !Exists(dir) {
        disk := disk[dir := Dir];
      }
      if !fetchOk {
        return false;
      }
      disk := disk[modelDest := File(Blob(repoId, modelName))];
      success := true;
    }

    /** `download_weight_datasets`: migrate, then fetch every planned entry in plan order. */
    method DownloadWeightDatasets(cat: seq<Descriptor>, models: seq<Choice>, consent: string,
                                  remote: (string, string) -> bool) returns (successful: seq<string>)
      requires InCatalog(cat, Sd14Name) && AllKnown(cat, Names(models))
      modifies this
      ensures (successful, disk) == FetchAll(cat, Migrated(cat, old(disk), consent), Names(models), remote)
    {
      MigrateModelsCkpt(cat, consent);
      ghost var start := disk;
      ghost var names := Names(models);
      successful := [];
      assert names[..0] == [];
      for i := 0 to |models|
        invariant AllKnown(cat, names[..i])
        invariant (successful, disk) == FetchAll(cat, start, names[..i], remote)
      {
        var mod := models[i].name;
        var repoId := Lookup(cat, mod).repoId;
        var filename := Lookup(cat, mod).file;
        FetchAllStep(cat, start, names, i, remote);
        ghost var before := FetchAll(cat, start, names[..i], remote);
        var success := ConditionalDownload(repoId, filename, remote(repoId, filename));
        ghost var after := Fetch(before.1, repoId, filename, remote(repoId, filename));
        assert success == after.0 && disk == after.1;
        if success {
          successful := successful + [mod];
        }
        assert successful == before.0 + (if after.0 then [names[i]] else []);
      }
      assert names[..|models|] == names;
    }

    /** `update_config_file`, with the YAML reader and writer and the point at which writing fails, if any. */
    method UpdateConfigFile(cat: seq<Descriptor>, successful: seq<string>,
                            parse: string -> Option<Conf>, toYaml: Conf -> string, fault: IoFault)
      returns (written: bool)
      requires Distinct(successful) && ParsesToMappings(parse)
      modifies this
      ensures (disk, written) == ConfigUpdate(cat, old(disk), successful, parse, toYaml, fault)
    {
      if !Exists(ConfigFile) || disk[ConfigFile].Dir? {
        return false;
      }
      var loaded := parse(disk[ConfigFile].contents);
      if loaded.None? {
        return false;
      }
      var merged := NewConfigFileContents(cat, loaded.value, successful);
      if merged.Err? {
        return false;
      }
      var yaml := toYaml(merged.value);
      var tmpfile := Join(DirName(ConfigFile), "new_config.tmp");
      var text := ConfigPreamble + yaml;
      match fault {
        case OpenFails =>
          return false;
        case WriteFails(n) =>
          disk := disk[tmpfile := File(text[..if n < |text| then n else |text|])];
          return false;
        case RenameFails =>
          disk := disk[tmpfile := File(text)];
          return false;
        case NoFault =>
          ghost var before := disk;
          disk := disk[tmpfile := File(text)];
          var contents := disk[tmpfile];
          disk := (disk - {tmpfile})[ConfigFile := contents];
          assert disk == (before - {TempFile()})[ConfigFile := File(text)] by {
            RemoveAfterUpdate(before, tmpfile, File(text));
          }
          written := true;
      }
    }
  }
}
