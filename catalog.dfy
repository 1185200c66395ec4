/**
 * The static catalog of weight files the provisioning script knows about,
 * the fixed locations it works with, and the path arithmetic
 * (`os.path.join`, `os.path.dirname`) it applies to them.
 */
module Catalog {
  import opened Wrappers

  /** One entry of the catalog: what to fetch, where from, and how to describe it in the config. */
  datatype Descriptor = Descriptor(
    name: string,
    description: string,
    repoId: string,
    config: string,
    file: string,
    recommended: bool,
    width: int,
    height: int)

  const ModelDir: string := "./models/ldm/stable-diffusion-v1/"
  const ConfigFile: string := "./configs/models.yaml"
  const SdConfigs: string := "./configs/stable-diffusion"

  /** The `config` value that marks an improved autoencoder (VAE) rather than a model. */
  const VaeConfig: string := "VAE"

  /** The legacy file name that older installs used for the 1.4 weights. */
  const LegacyName: string := "model.ckpt"

  /** The catalog, in the order the script presents and iterates it. */
  const Datasets: seq<Descriptor> := [
    Descriptor("stable-diffusion-1.5",
      "The newest Stable Diffusion version 1.5 weight file (4.27 GB)",
      "runwayml/stable-diffusion-v1-5", "v1-inference.yaml",
      "v1-5-pruned-emaonly.ckpt", true, 512, 512),
    Descriptor("inpainting-1.5",
      "RunwayML SD 1.5 model optimized for inpainting (4.27 GB)",
      "runwayml/stable-diffusion-inpainting", "v1-inpainting-inference.yaml",
      "sd-v1-5-inpainting.ckpt", true, 512, 512),
    Descriptor("stable-diffusion-1.4",
      "The original Stable Diffusion version 1.4 weight file (4.27 GB)",
      "CompVis/stable-diffusion-v-1-4-original", "v1-inference.yaml",
      "sd-v1-4.ckpt", false, 512, 512),
    Descriptor("waifu-diffusion-1.3",
      "Stable Diffusion 1.4 fine tuned on anime-styled images (4.27)",
      "hakurei/waifu-diffusion-v1-3", "v1-inference.yaml",
      "model-epoch09-float32.ckpt", false, 512, 512),
    Descriptor("ft-mse-improved-autoencoder-840000",
      "StabilityAI improved autoencoder fine-tuned for human faces (recommended; 335 MB)",
      "stabilityai/sd-vae-ft-mse-original", "VAE",
      "vae-ft-mse-840000-ema-pruned.ckpt", true, 512, 512)
  ]

  /** Position of the 1.4 weights in the catalog (the migration target). */
  const Sd14Index: nat := 2

  /** The comment block written ahead of the generated YAML. */
  const ConfigPreamble: string :=
    "# This file describes the alternative machine learning models\n"
    + "# available to InvokeAI script.\n"
    + "#\n"
    + "# To add a new model, follow the examples below. Each\n"
    + "# model requires a model config file, a weights file,\n"
    + "# and the width and height of the images it\n"
    + "# was trained on.\n"

  predicate IsVae(d: Descriptor) {
    d.config == VaeConfig
  }

  /** Names are unique keys, and every entry installs to its own plain file name. */
  predicate WellFormed(cat: seq<Descriptor>) {
    && (forall i, j :: 0 <= i < j < |cat| ==> cat[i].name != cat[j].name)
    && (forall i, j :: 0 <= i < j < |cat| ==> cat[i].file != cat[j].file)
    && (forall i :: 0 <= i < |cat| ==> cat[i].file != [] && HasNoSlash(cat[i].file))
  }

  /** The script's catalog is a well-formed dictionary. */
  lemma DatasetsWellFormed()
    ensures WellFormed(Datasets)
  {
    NamesDistinct();
    FilesDistinct();
    FilesPlain();
  }

  lemma FilesPlain()
    ensures forall i :: 0 <= i < |Datasets| ==> Datasets[i].file != [] && HasNoSlash(Datasets[i].file)
  {
    forall i | 0 <= i < |Datasets| ensures Datasets[i].file != [] && HasNoSlash(Datasets[i].file) {
      var f := Datasets[i].file;
      forall k | 0 <= k < |f| ensures f[k] != '/' {
      }
    }
  }

  lemma NamesDistinct()
    ensures forall i, j :: 0 <= i < j < |Datasets| ==> Datasets[i].name != Datasets[j].name
  {
  }

  lemma FilesDistinct()
    ensures forall i, j :: 0 <= i < j < |Datasets| ==> Datasets[i].file != Datasets[j].file
  {
  }

  /** Exactly one catalog entry is an autoencoder. */
  lemma ExactlyOneVae()
    ensures IsVae(Datasets[4])
    ensures forall i :: 0 <= i < |Datasets| && IsVae(Datasets[i]) ==> i == 4
  {
  }

  /** The index of `name` in `cat` at or after `from`, if any. */
  function IndexFrom(cat: seq<Descriptor>, name: string, from: nat): (r: Option<nat>)
    requires from <= |cat|
    ensures r.Some? ==> from <= r.value < |cat| && cat[r.value].name == name
    ensures r.None? ==> forall i :: from <= i < |cat| ==> cat[i].name != name
    decreases |cat| - from
  {
    if from == |cat| then None
    else if cat[from].name == name then Some(from)
    else IndexFrom(cat, name, from + 1)
  }

  /** Dictionary lookup `cat[name]`: the position of `name`, or None (a KeyError in the script). */
  function IndexOf(cat: seq<Descriptor>, name: string): (r: Option<nat>)
    ensures r.Some? ==> r.value < |cat| && cat[r.value].name == name
    ensures r.None? <==> forall i :: 0 <= i < |cat| ==> cat[i].name != name
  {
    IndexFrom(cat, name, 0)
  }

  predicate InCatalog(cat: seq<Descriptor>, name: string) {
    IndexOf(cat, name).Some?
  }

  function Lookup(cat: seq<Descriptor>, name: string): (d: Descriptor)
    requires InCatalog(cat, name)
    ensures d in cat && d.name == name
  {
    cat[IndexOf(cat, name).value]
  }

  /** In a well-formed catalog every entry is found under its own name, at its own position. */
  lemma IndexOfEntry(cat: seq<Descriptor>, i: nat)
    requires WellFormed(cat) && i < |cat|
    ensures IndexOf(cat, cat[i].name) == Some(i)
    ensures Lookup(cat, cat[i].name) == cat[i]
  {
  }

  /** In a well-formed catalog, distinct names have distinct files. */
  lemma FilesOfDistinctNames(cat: seq<Descriptor>, a: string, b: string)
    requires WellFormed(cat) && InCatalog(cat, a) && InCatalog(cat, b) && a != b
    ensures Lookup(cat, a).file != Lookup(cat, b).file
  {
    var i, j := IndexOf(cat, a).value, IndexOf(cat, b).value;
    assert i != j;
    if i > j {
      assert cat[j].file != cat[i].file;
    }
  }

  // ---------------------------------------------------------------- paths

  /** `os.path.join(dir, name)` for two components. */
  function Join(dir: string, name: string): string {
    if name != [] && name[0] == '/' then name
    else if dir == [] || dir[|dir| - 1] == '/' then dir + name
    else dir + "/" + name
  }

  predicate HasNoSlash(s: string) {
    forall i :: 0 <= i < |s| ==> s[i] != '/'
  }

  /** Index just past the last '/' of `p`, or 0 when `p` has none. */
  function LastSlashEnd(p: string): (i: nat)
    ensures i <= |p|
    ensures HasNoSlash(p[i..])
    ensures i > 0 ==> p[i - 1] == '/'
  {
    if p == [] then 0
    else if p[|p| - 1] == '/' then |p|
    else
      assert p[LastSlashEnd(p[..|p| - 1])..] == p[..|p| - 1][LastSlashEnd(p[..|p| - 1])..] + [p[|p| - 1]];
      LastSlashEnd(p[..|p| - 1])
  }

  function RStripSlashes(s: string): (r: string)
    ensures r <= s
    ensures r == [] || r[|r| - 1] != '/'
  {
    if s != [] && s[|s| - 1] == '/' then RStripSlashes(s[..|s| - 1]) else s
  }

  predicate AllSlashes(s: string) {
    forall i :: 0 <= i < |s| ==> s[i] == '/'
  }

  /** `os.path.dirname(p)` on POSIX. */
  function DirName(p: string): string {
    var head := p[..LastSlashEnd(p)];
    if head != [] && !AllSlashes(head) then RStripSlashes(head) else head
  }

  /** The local destination of a catalog file. */
  function ModelPath(file: string): string {
    Join(ModelDir, file)
  }

  /** Where the script writes the new config before renaming it into place. */
  function TempFile(): string {
    Join(DirName(ConfigFile), "new_config.tmp")
  }

  lemma {:induction false} LastSlashEndAppend(a: string, f: string)
    requires a != [] && a[|a| - 1] == '/'
    requires HasNoSlash(f)
    ensures LastSlashEnd(a + f) == |a|
    decreases |f|
  {
    if f == [] {
      assert a + f == a;
    } else {
      assert (a + f)[..|a + f| - 1] == a + f[..|f| - 1];
      LastSlashEndAppend(a, f[..|f| - 1]);
    }
  }

  /** A relative file name lands directly inside the models directory. */
  lemma ModelPathShape(file: string)
    requires file != [] && HasNoSlash(file)
    ensures ModelPath(file) == ModelDir + file
    ensures DirName(ModelPath(file)) == "./models/ldm/stable-diffusion-v1"
  {
    LastSlashEndAppend(ModelDir, file);
    assert (ModelDir + file)[..|ModelDir|] == ModelDir;
    assert RStripSlashes(ModelDir[..|ModelDir| - 1]) == ModelDir[..|ModelDir| - 1];
    assert ModelDir[..|ModelDir| - 1] == "./models/ldm/stable-diffusion-v1";
  }

  /** Distinct file names give distinct destinations, none of them the config or its temp file. */
  lemma ModelPathInjective(f: string, g: string)
    requires f != [] && HasNoSlash(f) && g != [] && HasNoSlash(g)
    ensures ModelPath(f) == ModelPath(g) <==> f == g
    ensures ModelPath(f) != ConfigFile && ModelPath(f) != TempFile()
  {
    ModelPathShape(f);
    ModelPathShape(g);
    if ModelPath(f) == ModelPath(g) {
      assert f == (ModelDir + f)[|ModelDir|..];
      assert g == (ModelDir + g)[|ModelDir|..];
    }
    ModelPathOutsideConfigs(f);
  }

  /**
   * Weight files live under `./models/...` and the config and its temp file
   * under `./configs/...`; the two trees already differ in their third
   * character ('m' against 'c'), which is the cheapest fact telling them apart.
   */
  lemma ModelPathOutsideConfigs(f: string)
    requires f != [] && HasNoSlash(f)
    ensures ModelPath(f) != ConfigFile && ModelPath(f) != TempFile()
  {
    ModelPathInitial(f);
    ConfigsInitial();
  }

  /** Every destination starts with `./m`, the models tree. */
  lemma ModelPathInitial(f: string)
    requires f != [] && HasNoSlash(f)
    ensures ModelPath(f)[2] == 'm'
  {
    ModelPathShape(f);
    assert ModelDir[2] == 'm';
  }

  /** The config and its temp file both start with `./c`, the configs tree. */
  lemma ConfigsInitial()
    ensures ConfigFile[2] == 'c' && TempFile()[2] == 'c'
  {
    TempFileShape();
  }

  /** The temp file sits beside the config and is a different path. */
  lemma TempFileShape()
    ensures DirName(ConfigFile) == "./configs"
    ensures TempFile() == "./configs/new_config.tmp"
    ensures TempFile() != ConfigFile
  {
    LastSlashEndAppend("./configs/", "models.yaml");
    assert ConfigFile == "./configs/" + "models.yaml";
    assert ConfigFile[..10] == "./configs/";
    assert RStripSlashes("./configs/") == RStripSlashes("./configs");
    assert TempFile()[10] != ConfigFile[10];
  }
}
