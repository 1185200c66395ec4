# Weight provisioning in `preload_models.py`

This project models the weight-provisioning engine of InvokeAI's
`scripts/preload_models.py` in Dafny and proves properties of the model.
The engine has five parts:

- **The catalog** (`Catalog`). This is the `Datasets` table of five
  downloadable weight files. Exactly one of them is an autoencoder (config
  `VAE`). The module also holds the constants for the model directory, the
  config paths and the config preamble, plus `os.path.join` and POSIX
  `os.path.dirname`.
- **Operator decisions** (`Prompt`, `Selection`).
  - `yes_or_no` is the function `YesOrNo`.
  - `select_datasets` is the method `SelectDatasets`. It reads a stream of
    typed responses and is proved against the recursive specification
    `Select`.
- **Fetch-or-skip on a disk** (`Provision`). The disk is a map from path to
  file contents or directory, and it is the one field of class
  `FileSystem`.
  - `migrate_models_ckpt`, `conditional_download` and
    `download_weight_datasets` are methods of that class.
  - Each method is proved against a specification function on the disk
    (`Migrated`, `Fetch`, `FetchAll`).
- **The config merge** (`OrderedMap`, `ConfigMerge`). The loaded config is
  an insertion-ordered dictionary (`OMap`), like Python's dict.
  `new_config_file_contents` is the method `NewConfigFileContents`. It has
  the script's two loops and is proved against the declarative
  specification `Expected`.
- **Replace-by-rename persistence** (`Provision.FileSystem.UpdateConfigFile`).
  The new config is written to `./configs/new_config.tmp` and then renamed
  over `./configs/models.yaml`. Any failure leaves the config untouched.

Three things the script calls are passed in as parameters:

- **The remote store.** The hub download followed by the link into place
  is an oracle `remote(repo, file)` that says whether the fetch succeeds.
- **The YAML reader and writer.** They are opaque functions `parse` and
  `toYaml`.
- **Write failures.** `IoFault` names the step of the temp-file write that
  raises, if any.

The catalog is also a parameter, `cat`. The lemmas that need the script's
own table take `Catalog.Datasets`, which `DatasetsWellFormed` proves
well-formed: distinct names, and distinct non-empty file names without a
slash.

Where the code and the design description disagree, the model follows the
code:

- **Missing config.** A missing `./configs/models.yaml` does not give an
  empty config. Loading it raises, the error is caught, and nothing is
  written (`ConfigUpdate`).
- **Defaults and autoencoder references.** Only stanzas written in this
  run lose an old `default` flag. Entries for other models keep theirs, so
  exactly one stanza *written in the run* is the default. An existing
  `vae` field also survives when no autoencoder was fetched.

## Model

| member | source | states |
|---|---|---|
| Catalog.DatasetsWellFormed | scripts/preload_models.py:32-78 | The catalog's names are distinct. Its file names are distinct, non-empty and contain no slash. |
| Catalog.ExactlyOneVae | scripts/preload_models.py:69-77 | Exactly one catalog entry is an autoencoder: the fifth, `ft-mse-improved-autoencoder-840000`. |
| Catalog.Lookup | scripts/preload_models.py:223-224 | Looking up a known name gives the catalog entry of that name. |
| Catalog.IndexOfEntry | scripts/preload_models.py:32-78 | In a well-formed catalog, every entry is found at its own position by name. |
| Catalog.ModelPathShape | scripts/preload_models.py:238-242 | A plain file name lands directly in `./models/ldm/stable-diffusion-v1/`, and the directory `makedirs` creates for it is `./models/ldm/stable-diffusion-v1`. |
| Catalog.ModelPathInjective | scripts/preload_models.py:238 | Two plain file names have the same destination only if they are equal. No destination is the config or its temp file. |
| Catalog.TempFileShape | scripts/preload_models.py:257 | The temp file is `./configs/new_config.tmp`, in the config's directory, and it is not the config itself. |
| Prompt.YesOrNo | scripts/preload_models.py:113-119 | An empty response gives the default. |
| Prompt.FirstCharacterDecides | scripts/preload_models.py:116-119 | Only the first character of a non-empty response counts. With a yes default, anything not starting with n/N agrees. With a no default, only a leading y/Y agrees. |
| Prompt.DefaultOnlyBreaksTies | scripts/preload_models.py:113-119 | A response accepted under a no default is also accepted under a yes default. The two defaults differ only on an empty response, or one that starts with none of y, Y, n, N. |
| Selection.PicksWellNumbered | scripts/preload_models.py:136-143 | Every pick in a round is a catalog name with its 1-based catalog position, and picks come in strictly increasing catalog order. |
| Selection.PicksExactly | scripts/preload_models.py:138-143 | Entry i is picked, numbered i+1, exactly when its own question was answered yes under that entry's recommended default. |
| Selection.DefaultsPickRecommended | scripts/preload_models.py:139-141 | Answering every question with Enter selects exactly the recommended entries. |
| Selection.SelectWellNumbered | scripts/preload_models.py:126-158 | Whatever the responses, a confirmed selection is well numbered. |
| Selection.DeclinedExactly | scripts/preload_models.py:150-158 | The result is None exactly when some round, after rounds that each ended in "not ok, change", ends in "not ok" and "do not change". |
| Selection.SelectDatasets | scripts/preload_models.py:126-158 | The loop's outcome is the specification `Select` of the response stream. A confirmed plan is well numbered. Running out of responses ends in `InputEnded`. |
| OrderedMap.OMap.Put | scripts/preload_models.py:297 | Assigning to a key keeps the keys distinct. An existing key keeps its place; a new key is appended. |
| ConfigMerge.Written | scripts/preload_models.py:280-282 | Exactly the non-autoencoder names of the success list become stanzas. |
| ConfigMerge.FindVae | scripts/preload_models.py:273-278 | The first loop fails with a KeyError exactly when a name is not in the catalog. Otherwise it yields the file of the last autoencoder in success order. |
| ConfigMerge.NewConfigFileContents | scripts/preload_models.py:269-298 | The merge loop yields exactly `Expected`. An unknown name, or an existing non-mapping entry for a written model, is an error. The result is a well-formed ordered map. |
| ConfigMerge.LastVaeNone | scripts/preload_models.py:276-278 | No autoencoder reference is found exactly when the success list has no autoencoder. |
| ConfigMerge.LastVaeIsLast | scripts/preload_models.py:276-278 | The reference found is the file of an autoencoder in the list that has no autoencoder after it. |
| ConfigMerge.WrittenOrdered | scripts/preload_models.py:280-282 | The stanzas are written in success-list order. |
| ConfigMerge.MergeKeepsOrder | scripts/preload_models.py:283-297 | Existing keys keep their places. The keys appended are exactly the written names that had no entry, in success order. |
| ConfigMerge.MergeLeavesOthers | scripts/preload_models.py:280-297 | Entries for names not written (not fetched, or autoencoders) are unchanged. An autoencoder never gains an entry. |
| ConfigMerge.StanzaOfIsManaged | scripts/preload_models.py:283-297 | Each written stanza is the existing stanza, or an empty one, with the managed fields rewritten. |
| ConfigMerge.ManagedStanza | scripts/preload_models.py:285-296 | A rewritten stanza has the catalog's description, joined weights path, joined config path, width and height. `default` is present only when it is asked for, and then it is true. `vae` is the autoencoder path when one is known and is otherwise left alone. Every other field is kept. |
| ConfigMerge.FirstIsFirstModel | scripts/preload_models.py:294-296 | The default goes to the first non-autoencoder name of the success list. |
| ConfigMerge.ExactlyOneDefault | scripts/preload_models.py:290-296 | Among the stanzas written, only the first one carries `default: True`, and at least one stanza is written. |
| ConfigMerge.VaePropagated | scripts/preload_models.py:291-292 | When an autoencoder was fetched, every written stanza references the last one fetched. Otherwise an existing `vae` field is kept. |
| ConfigMerge.UnmanagedKept | scripts/preload_models.py:283-297 | A written stanza keeps every unmanaged field of the existing stanza and gains no other unmanaged field. |
| Provision.DestFacts | scripts/preload_models.py:238-242 | In a well-formed catalog, entries have distinct destinations. No destination is the directory a fetch creates, the config or the temp file. |
| Provision.FetchIdempotent | scripts/preload_models.py:237-251 | A fetch succeeds exactly when the destination exists afterwards. An existing destination is success with no change. A second fetch after a success changes nothing, whatever the store says. |
| Provision.FetchEffect | scripts/preload_models.py:237-251 | One fetch succeeds exactly when the file was present or the store delivered it. It changes nothing already on disk and adds no other catalog destination. |
| Provision.MigrationThenFetch | scripts/preload_models.py:208-216 | After migration with consent, the legacy file is gone, the 1.4 file holds its contents, and a fetch of the 1.4 file succeeds without a download. |
| Provision.MigrationOnlyOnConsent | scripts/preload_models.py:208-216 | Migration changes the disk exactly when the legacy file is present and the operator agrees. |
| Provision.Sd14InDatasets | scripts/preload_models.py:51-59 | The catalog has the 1.4 entry. Its file is `sd-v1-4.ckpt`, not the legacy name. |
| Provision.FetchAllEffects | scripts/preload_models.py:219-234 | The fetch loop never removes or overwrites anything. An entry succeeds exactly when its file was present or the store delivered it, whatever happened to the other entries. A destination exists afterwards exactly when it existed before or its entry succeeded. |
| Provision.FetchAllOrdered | scripts/preload_models.py:222-231 | The success list names only planned entries, each once, in plan order. |
| Provision.ChosenPlanFetchable | scripts/preload_models.py:141-142 | A confirmed selection names only catalog entries, each once, so it is a valid plan for the fetch loop. |
| Provision.ConfigReplacedOnlyByRename | scripts/preload_models.py:254-265 | The config is never created or removed. It keeps its contents unless the new config was written. A write happens exactly when nothing failed, and then the config holds the preamble followed by the serialised merge and the temp file is gone. No other path changes. |
| Provision.FileSystem.MigrateModelsCkpt | scripts/preload_models.py:208-216 | The disk afterwards is `Migrated` of the disk before. |
| Provision.FileSystem.ConditionalDownload | scripts/preload_models.py:237-251 | The outcome and the new disk are `Fetch` of the old disk. |
| Provision.FileSystem.DownloadWeightDatasets | scripts/preload_models.py:219-234 | The success list and the new disk are `FetchAll` over the plan's names, starting from the migrated disk. |
| Provision.FileSystem.UpdateConfigFile | scripts/preload_models.py:254-265 | The new disk, and whether a config was written, are `ConfigUpdate` of the old disk. |

## Left out

- `authenticate`: the token store and password prompt. The token is only passed through to the download, and the store oracle stands in for that download.
- The support-model downloaders (`download_bert`, `download_kornia`, `download_clip`, `download_gfpgan`, `download_codeformer`, `download_clipseg`, `download_safety_checker`). They are thin wrappers over foreign libraries.
- The `__main__` block and its interrupt handling. The model starts from the engine's functions.
- All printed text, the menu listing and the default marker in the selection summary. These are output only.
- The hub download and `link_to`. They are the oracle `remote(repo, file)`. The contents a successful fetch links into place are an abstract `Blob(repo, file)`, and the shared download cache is not modelled.
- YAML parsing and serialisation. They are the opaque functions `parse` and `toYaml`. A config whose top level is not a mapping is assumed not to parse (`ParsesToMappings`).
- Key order inside a stanza. A stanza is a `map`, so where `default` lands after being removed and re-added is not modelled. Top-level key order is modelled.
- Non-scalar stanza values are the opaque `Other`.
- Provision.FileSystem.ConditionalDownload: a failing `makedirs` (raised outside the `try`, so it would abort the script) is not modelled, and ancestors of the models directory are not tracked.
- Provision.FileSystem.MigrateModelsCkpt: a failing `os.rename` would abort the script; it is not modelled.
- Provision.FileSystem.UpdateConfigFile: the preamble and the YAML body are one write of their concatenation. A partial write is `WriteFails(n)`, a prefix of that text.
- Standard input running out (EOFError) is `InputEnded`. Nothing in the script catches it.
