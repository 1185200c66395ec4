/**
 * `new_config_file_contents`: fold the successfully installed catalog
 * entries into the loaded model configuration. Autoencoder entries never
 * become stanzas; the last autoencoder fetched is referenced from every
 * stanza written; managed fields are overwritten and unmanaged ones kept;
 * the first stanza written is the default.
 */
module ConfigMerge {
  import opened Wrappers
  import opened Catalog
  import opened OrderedMap

  /** A scalar in a stanza; `Other` stands for any YAML value the tool does not interpret. */
  datatype Value = Str(s: string) | Int(i: int) | Bool(b: bool) | Other(text: string)

  /** A top-level entry of the config: a stanza (mapping) or anything else. */
  datatype Node = Mapping(fields: map<string, Value>) | Leaf(value: Value)

  type Conf = OMap<Node>

  /**
   * Why no new contents could be produced: a name the catalog does not know
   * (a KeyError) or an existing entry for a written model that is not a
   * mapping (item assignment on it raises).
   */
  datatype MergeError = UnknownModel | NotAMapping

  predicate Distinct(s: seq<string>) {
    forall i, j :: 0 <= i < j < |s| ==> s[i] != s[j]
  }

  predicate AllKnown(cat: seq<Descriptor>, s: seq<string>) {
    forall m :: m in s ==> InCatalog(cat, m)
  }

  /** The names that become stanzas: the non-autoencoder ones, in success order. */
  function Written(cat: seq<Descriptor>, s: seq<string>): (w: seq<string>)
    requires AllKnown(cat, s)
    ensures forall m {:trigger m in w} :: m in w <==> m in s && !IsVae(Lookup(cat, m))
    ensures |w| <= |s|
  {
    if s == [] then []
    else
      var last := s[|s| - 1];
      Written(cat, s[..|s| - 1]) + (if IsVae(Lookup(cat, last)) then [] else [last])
  }

  /** The file of the last autoencoder in success order, if any. */
  function LastVae(cat: seq<Descriptor>, s: seq<string>): Option<string>
    requires AllKnown(cat, s)
  {
    if s == [] then None
    else
      var last := s[|s| - 1];
      if IsVae(Lookup(cat, last)) then Some(Lookup(cat, last).file) else LastVae(cat, s[..|s| - 1])
  }

  /** The names of `w` that have no entry yet, in order: they are appended to the config. */
  function NewKeys<V>(vals: map<string, V>, w: seq<string>): (n: seq<string>)
    ensures forall m {:trigger m in n} :: m in n <==> m in w && m !in vals
  {
    if w == [] then []
    else NewKeys(vals, w[..|w| - 1]) + (if w[|w| - 1] in vals then [] else [w[|w| - 1]])
  }

  /** The existing stanza for `m`, or an empty one. */
  function Prior(vals: map<string, Node>, m: string): map<string, Value> {
    if m in vals && vals[m].Mapping? then vals[m].fields else map[]
  }

  /** A stanza after the tool rewrites it for catalog entry `d`. */
  function Managed(prior: map<string, Value>, d: Descriptor, vae: Option<string>, isDefault: bool): map<string, Value> {
    var s := prior["description" := Str(d.description)]
                  ["weights" := Str(Join(ModelDir, d.file))]
                  ["config" := Str(Join(SdConfigs, d.config))]
                  ["width" := Int(d.width)]
                  ["height" := Int(d.height)];
    var s := s - {"default"};
    var s := if vae.Some? && vae.value != [] then s["vae" := Str(Join(ModelDir, vae.value))] else s;
    if isDefault then s["default" := Bool(true)] else s
  }

  function First(w: seq<string>): Option<string> {
    if w == [] then None else Some(w[0])
  }

  /** The entry for `k` once every name of `w` has been written. */
  function MergedEntry(cat: seq<Descriptor>, conf: Conf, w: seq<string>, vae: Option<string>, first: Option<string>, k: string): Node
    requires forall m :: m in w ==> InCatalog(cat, m)
    requires k in conf.vals || k in w
  {
    if k in w then Mapping(Managed(Prior(conf.vals, k), Lookup(cat, k), vae, first == Some(k)))
    else conf.vals[k]
  }

  /** The config once every name of `w` has been written. */
  function Apply(cat: seq<Descriptor>, conf: Conf, w: seq<string>, vae: Option<string>, first: Option<string>): Conf
    requires forall m :: m in w ==> InCatalog(cat, m)
  {
    OMap(conf.keys + NewKeys(conf.vals, w),
         map k | k in conf.vals.Keys + (set m | m in w) :: MergedEntry(cat, conf, w, vae, first, k))
  }

  /** The config the tool produces from `conf` and the success list, when it produces one. */
  function Merged(cat: seq<Descriptor>, conf: Conf, s: seq<string>): Conf
    requires AllKnown(cat, s)
  {
    Apply(cat, conf, Written(cat, s), LastVae(cat, s), First(Written(cat, s)))
  }

  /** Some model to be written already has an entry that is not a mapping. */
  predicate Clash(vals: map<string, Node>, w: seq<string>) {
    exists m :: m in w && m in vals && vals[m].Leaf?
  }

  /** What `new_config_file_contents` yields, before serialisation. */
  function Expected(cat: seq<Descriptor>, conf: Conf, s: seq<string>): Result<Conf, MergeError> {
    if !AllKnown(cat, s) then Err(UnknownModel)
    else if Clash(conf.vals, Written(cat, s)) then Err(NotAMapping)
    else Ok(Merged(cat, conf, s))
  }

  // ---------------------------------------------------------------- the loops

  /**
   * The first loop of `new_config_file_contents`: look every name up in the
   * catalog (an unknown name raises KeyError) and remember the file of the
   * last autoencoder seen.
   */
  method FindVae(cat: seq<Descriptor>, successful: seq<string>) returns (r: Result<Option<string>, MergeError>)
    ensures r.Ok? <==> AllKnown(cat, successful)
    ensures r.Ok? ==> r.value == LastVae(cat, successful)
    ensures r.Err? ==> r.error == UnknownModel
  {
    var vae: Option<string> := None;
    for i := 0 to |successful|
      invariant AllKnown(cat, successful[..i])
      invariant vae == LastVae(cat, successful[..i])
    {
      var model := successful[i];
      assert successful[..i + 1][..i] == successful[..i];
      if !InCatalog(cat, model) {
        return Err(UnknownModel);
      }
      if IsVae(Lookup(cat, model)) {
        vae := Some(Lookup(cat, model).file);
      }
    }
    assert successful[..|successful|] == successful;
    r := Ok(vae);
  }

  /**
   * `new_config_file_contents` on an already loaded config: find the last
   * autoencoder, then rewrite one stanza per remaining name, in order.
   */
  method NewConfigFileContents(cat: seq<Descriptor>, conf: Conf, successful: seq<string>) returns (r: Result<Conf, MergeError>)
    requires conf.Valid() && Distinct(successful)
    ensures r == Expected(cat, conf, successful)
    ensures r.Ok? ==> r.value.Valid()
  {
    var found := FindVae(cat, successful);
    if found.Err? {
      return Err(UnknownModel);
    }
    var vae := found.value;
    ghost var first := First(Written(cat, successful));

    var defaultSelected := false;
    var cur := conf;
    ApplyNothing(cat, conf, successful, vae, first);
    for i := 0 to |successful|
      invariant cur == Apply(cat, conf, Written(cat, successful[..i]), vae, first)
      invariant cur.Valid()
      invariant defaultSelected <==> Written(cat, successful[..i]) != []
      invariant !Clash(conf.vals, Written(cat, successful[..i]))
    {
      var model := successful[i];
      if IsVae(Lookup(cat, model)) {
        SkipStep(cat, successful, i);
        continue;
      }
      WriteStep(cat, conf, successful, i, vae, first);
      if model in cur.vals && cur.vals[model].Leaf? {
        return Err(NotAMapping);
      }
      var stanza := if model in cur.vals then cur.vals[model].fields else map[];
      var d := Lookup(cat, model);
      stanza := stanza["description" := Str(d.description)];
      stanza := stanza["weights" := Str(Join(ModelDir, d.file))];
      stanza := stanza["config" := Str(Join(SdConfigs, d.config))];
      stanza := stanza["width" := Int(d.width)];
      stanza := stanza["height" := Int(d.height)];
      stanza := stanza - {"default"};
      if vae.Some? && vae.value != [] {
        stanza := stanza["vae" := Str(Join(ModelDir, vae.value))];
      }
      if !defaultSelected {
        stanza := stanza["default" := Bool(true)];
        defaultSelected := true;
      }
      cur := cur.Put(model, Mapping(stanza));
    }
    FinishMerge(cat, conf, successful, vae, first);
    r := Ok(cur);
  }

  lemma ApplyNothing(cat: seq<Descriptor>, conf: Conf, s: seq<string>, vae: Option<string>, first: Option<string>)
    requires conf.Valid() && AllKnown(cat, s)
    ensures AllKnown(cat, s[..0]) && Written(cat, s[..0]) == []
    ensures Apply(cat, conf, [], vae, first) == conf
    ensures !Clash(conf.vals, [])
  {
    assert s[..0] == [];
    var a := Apply(cat, conf, [], vae, first);
    assert a.keys == conf.keys;
    assert a.vals == conf.vals;
  }

  /** Closes the merge loop: once every name has been visited, the visited prefix is the whole success list. */
  lemma FinishMerge(cat: seq<Descriptor>, conf: Conf, s: seq<string>, vae: Option<string>, first: Option<string>)
    requires AllKnown(cat, s)
    ensures AllKnown(cat, s[..|s|]) && Written(cat, s[..|s|]) == Written(cat, s)
  {
    assert s[..|s|] == s;
  }

  /** Skipping an autoencoder leaves the written names as they were. */
  lemma SkipStep(cat: seq<Descriptor>, s: seq<string>, i: nat)
    requires AllKnown(cat, s) && i < |s| && IsVae(Lookup(cat, s[i]))
    ensures AllKnown(cat, s[..i]) && AllKnown(cat, s[..i + 1])
    ensures Written(cat, s[..i + 1]) == Written(cat, s[..i])
  {
    WrittenStep(cat, s, i);
    assert Written(cat, s[..i]) + [] == Written(cat, s[..i]);
  }

  /** One rewritten stanza: what the loop body needs to re-establish its invariant. */
  lemma WriteStep(cat: seq<Descriptor>, conf: Conf, s: seq<string>, i: nat, vae: Option<string>, first: Option<string>)
    requires conf.Valid() && AllKnown(cat, s) && Distinct(s) && i < |s| && !IsVae(Lookup(cat, s[i]))
    requires first == First(Written(cat, s))
    requires !Clash(conf.vals, Written(cat, s[..i]))
    ensures AllKnown(cat, s[..i]) && AllKnown(cat, s[..i + 1])
    ensures Written(cat, s[..i + 1]) == Written(cat, s[..i]) + [s[i]]
    ensures first == Some(s[i]) <==> Written(cat, s[..i]) == []
    ensures var cur := Apply(cat, conf, Written(cat, s[..i]), vae, first);
      && (s[i] in cur.vals <==> s[i] in conf.vals)
      && (s[i] in cur.vals ==> cur.vals[s[i]] == conf.vals[s[i]])
      && (s[i] in cur.vals && cur.vals[s[i]].Leaf? ==> Clash(conf.vals, Written(cat, s)))
      && (!(s[i] in cur.vals && cur.vals[s[i]].Leaf?) ==>
            !Clash(conf.vals, Written(cat, s[..i + 1]))
            && cur.Put(s[i], Mapping(Managed(Prior(conf.vals, s[i]), Lookup(cat, s[i]), vae, first == Some(s[i]))))
               == Apply(cat, conf, Written(cat, s[..i + 1]), vae, first))
  {
    var model := s[i];
    var w := Written(cat, s[..i]);
    WrittenStep(cat, s, i);
    FirstWritten(cat, s, i);
    assert model !in w by {
      assert forall j :: 0 <= j < i ==> s[..i][j] != model;
    }
    assert model in Written(cat, s);
    ApplyStep(cat, conf, w, model, vae, first);
  }

  lemma WrittenStep(cat: seq<Descriptor>, s: seq<string>, i: nat)
    requires AllKnown(cat, s) && i < |s|
    ensures AllKnown(cat, s[..i]) && AllKnown(cat, s[..i + 1])
    ensures Written(cat, s[..i + 1]) == Written(cat, s[..i]) + (if IsVae(Lookup(cat, s[i])) then [] else [s[i]])
  {
    assert s[..i + 1][..i] == s[..i];
  }

  /** Written names of a prefix are a prefix of the written names. */
  lemma {:induction false} WrittenPrefix(cat: seq<Descriptor>, s: seq<string>, i: nat)
    requires AllKnown(cat, s) && i <= |s|
    ensures AllKnown(cat, s[..i])
    ensures Written(cat, s[..i]) <= Written(cat, s)
    decreases |s| - i
  {
    if i < |s| {
      WrittenPrefix(cat, s, i + 1);
      WrittenStep(cat, s, i);
    } else {
      assert s[..i] == s;
    }
  }

  /** The name written at step `i` is the default exactly when nothing was written before it. */
  lemma FirstWritten(cat: seq<Descriptor>, s: seq<string>, i: nat)
    requires AllKnown(cat, s) && Distinct(s) && i < |s| && !IsVae(Lookup(cat, s[i]))
    ensures AllKnown(cat, s[..i])
    ensures First(Written(cat, s)) == Some(s[i]) <==> Written(cat, s[..i]) == []
  {
    WrittenPrefix(cat, s, i);
    WrittenPrefix(cat, s, i + 1);
    WrittenStep(cat, s, i);
    if Written(cat, s[..i]) != [] {
      var w0 := Written(cat, s[..i])[0];
      assert w0 in Written(cat, s[..i]);
      assert w0 in s[..i];
      assert Written(cat, s)[0] == w0;
    }
  }

  lemma NewKeysStep<V>(vals: map<string, V>, w: seq<string>, model: string)
    ensures NewKeys(vals, w + [model]) == NewKeys(vals, w) + (if model in vals then [] else [model])
  {
    assert (w + [model])[..|w + [model]| - 1] == w;
  }

  lemma ApplyStep(cat: seq<Descriptor>, conf: Conf, w: seq<string>, model: string, vae: Option<string>, first: Option<string>)
    requires forall m :: m in w ==> InCatalog(cat, m)
    requires InCatalog(cat, model) && model !in w
    requires conf.Valid()
    ensures Apply(cat, conf, w, vae, first).Put(model,
              Mapping(Managed(Prior(conf.vals, model), Lookup(cat, model), vae, first == Some(model))))
            == Apply(cat, conf, w + [model], vae, first)
  {
    ApplyStepKeys(cat, conf, w, model, vae, first,
      Mapping(Managed(Prior(conf.vals, model), Lookup(cat, model), vae, first == Some(model))));
    ApplyStepVals(cat, conf, w, model, vae, first);
  }

  lemma ApplyStepKeys(cat: seq<Descriptor>, conf: Conf, w: seq<string>, model: string, vae: Option<string>, first: Option<string>, node: Node)
    requires forall m :: m in w ==> InCatalog(cat, m)
    requires InCatalog(cat, model) && model !in w
    ensures Apply(cat, conf, w, vae, first).Put(model, node).keys == Apply(cat, conf, w + [model], vae, first).keys
  {
    var a := Apply(cat, conf, w, vae, first);
    var nk := NewKeys(conf.vals, w);
    assert a.keys == conf.keys + nk;
    assert model in a.vals <==> model in conf.vals by {
      assert model !in (set m | m in w);
    }
    NewKeysStep(conf.vals, w, model);
    if model !in conf.vals {
      assert conf.keys + (nk + [model]) == (conf.keys + nk) + [model];
    }
  }

  lemma ApplyStepVals(cat: seq<Descriptor>, conf: Conf, w: seq<string>, model: string, vae: Option<string>, first: Option<string>)
    requires forall m :: m in w ==> InCatalog(cat, m)
    requires InCatalog(cat, model) && model !in w
    requires conf.Valid()
    ensures Apply(cat, conf, w, vae, first).vals[model :=
              Mapping(Managed(Prior(conf.vals, model), Lookup(cat, model), vae, first == Some(model)))]
            == Apply(cat, conf, w + [model], vae, first).vals
  {
    var w' := w + [model];
    var a := Apply(cat, conf, w, vae, first).vals;
    var b := Apply(cat, conf, w', vae, first).vals;
    var node := Mapping(Managed(Prior(conf.vals, model), Lookup(cat, model), vae, first == Some(model)));
    var p := a[model := node];
    assert forall k :: k in w' <==> k in w || k == model;
    assert p.Keys == b.Keys;
    forall k | k in b
      ensures p[k] == b[k]
    {
      if k != model {
        EntryStep(cat, conf, w, model, vae, first, k);
      }
    }
  }

  lemma EntryStep(cat: seq<Descriptor>, conf: Conf, w: seq<string>, model: string, vae: Option<string>, first: Option<string>, k: string)
    requires forall m :: m in w ==> InCatalog(cat, m)
    requires InCatalog(cat, model) && k != model && (k in conf.vals || k in w)
    ensures MergedEntry(cat, conf, w + [model], vae, first, k) == MergedEntry(cat, conf, w, vae, first, k)
  {
    assert k in w + [model] <==> k in w;
  }

  // ---------------------------------------------------------------- properties of the merge

  /** `a` occurs before `b` in `s`. */
  ghost predicate Before(s: seq<string>, a: string, b: string) {
    exists i, j :: 0 <= i < j < |s| && s[i] == a && s[j] == b
  }

  /** The elements of `sub` occur in `s` in the same relative order. */
  ghost predicate OrderedIn(sub: seq<string>, s: seq<string>) {
    forall i, j :: 0 <= i < j < |sub| ==> Before(s, sub[i], sub[j])
  }

  lemma BeforeExtend(s: seq<string>, x: string, a: string, b: string)
    requires Before(s, a, b)
    ensures Before(s + [x], a, b)
  {
    var i, j :| 0 <= i < j < |s| && s[i] == a && s[j] == b;
    assert (s + [x])[i] == a && (s + [x])[j] == b;
  }

  lemma BeforeLast(s: seq<string>, x: string, a: string)
    requires a in s
    ensures Before(s + [x], a, x)
  {
    var i :| 0 <= i < |s| && s[i] == a;
    assert (s + [x])[i] == a && (s + [x])[|s|] == x;
  }

  /** The written names keep the success order. */
  lemma {:induction false} WrittenOrdered(cat: seq<Descriptor>, s: seq<string>)
    requires AllKnown(cat, s)
    ensures OrderedIn(Written(cat, s), s)
  {
    if s != [] {
      var p, x := s[..|s| - 1], s[|s| - 1];
      assert s == p + [x];
      WrittenOrdered(cat, p);
      var w, w' := Written(cat, p), Written(cat, s);
      forall i, j | 0 <= i < j < |w'| ensures Before(s, w'[i], w'[j]) {
        if j < |w| {
          BeforeExtend(p, x, w[i], w[j]);
        } else {
          assert w[i] in w;
          assert w[i] in p;
          BeforeLast(p, x, w[i]);
        }
      }
    }
  }

  /** The appended keys keep the order of the list they come from. */
  lemma {:induction false} NewKeysOrdered<V>(vals: map<string, V>, w: seq<string>)
    ensures OrderedIn(NewKeys(vals, w), w)
  {
    if w != [] {
      var p, x := w[..|w| - 1], w[|w| - 1];
      assert w == p + [x];
      NewKeysOrdered(vals, p);
      var n, n' := NewKeys(vals, p), NewKeys(vals, w);
      forall i, j | 0 <= i < j < |n'| ensures Before(w, n'[i], n'[j]) {
        if j < |n| {
          BeforeExtend(p, x, n[i], n[j]);
        } else {
          assert n[i] in n;
          assert n[i] in p;
          BeforeLast(p, x, n[i]);
        }
      }
    }
  }

  lemma OrderedTrans(a: seq<string>, b: seq<string>, c: seq<string>)
    requires OrderedIn(a, b) && OrderedIn(b, c) && Distinct(b)
    ensures OrderedIn(a, c)
  {
    forall i, j | 0 <= i < j < |a| ensures Before(c, a[i], a[j]) {
      assert Before(b, a[i], a[j]);
      var k, l :| 0 <= k < l < |b| && b[k] == a[i] && b[l] == a[j];
      assert Before(c, b[k], b[l]);
    }
  }

  lemma {:induction false} WrittenDistinct(cat: seq<Descriptor>, s: seq<string>)
    requires AllKnown(cat, s) && Distinct(s)
    ensures Distinct(Written(cat, s))
  {
    if s != [] {
      var p := s[..|s| - 1];
      WrittenDistinct(cat, p);
      assert s[|s| - 1] !in p;
      assert s[|s| - 1] !in Written(cat, p);
    }
  }

  /**
   * The merge keeps every existing key where it was and appends exactly the
   * written names that had no entry, in success order.
   */
  lemma MergeKeepsOrder(cat: seq<Descriptor>, conf: Conf, s: seq<string>)
    requires conf.Valid() && Distinct(s) && Expected(cat, conf, s).Ok?
    ensures var c := Expected(cat, conf, s).value;
      && conf.keys <= c.keys
      && (forall m :: m in c.keys[|conf.keys|..] <==> m in s && !IsVae(Lookup(cat, m)) && m !in conf.vals)
      && OrderedIn(c.keys[|conf.keys|..], s)
  {
    var c := Expected(cat, conf, s).value;
    var w := Written(cat, s);
    assert c.keys[|conf.keys|..] == NewKeys(conf.vals, w);
    NewKeysOrdered(conf.vals, w);
    WrittenOrdered(cat, s);
    WrittenDistinct(cat, s);
    OrderedTrans(NewKeys(conf.vals, w), w, s);
  }

  /**
   * Entries for names that were not written (not fetched this run, or
   * autoencoders) are left exactly as they were; autoencoders never gain an entry.
   */
  lemma MergeLeavesOthers(cat: seq<Descriptor>, conf: Conf, s: seq<string>)
    requires Expected(cat, conf, s).Ok?
    ensures var c := Expected(cat, conf, s).value;
      && (forall k :: k in conf.vals && (k !in s || IsVae(Lookup(cat, k))) ==> k in c.vals && c.vals[k] == conf.vals[k])
      && (forall m :: m in s && IsVae(Lookup(cat, m)) ==> (m in c.vals <==> m in conf.vals))
  {
  }

  /** The stanza written for `m`. */
  function StanzaOf(cat: seq<Descriptor>, conf: Conf, s: seq<string>, m: string): map<string, Value>
    requires Expected(cat, conf, s).Ok?
    requires m in s && !IsVae(Lookup(cat, m))
  {
    var c := Expected(cat, conf, s).value;
    assert m in Written(cat, s);
    c.vals[m].fields
  }

  lemma StanzaOfIsManaged(cat: seq<Descriptor>, conf: Conf, s: seq<string>, m: string)
    requires Expected(cat, conf, s).Ok?
    requires m in s && !IsVae(Lookup(cat, m))
    ensures StanzaOf(cat, conf, s, m) ==
      Managed(Prior(conf.vals, m), Lookup(cat, m), LastVae(cat, s), First(Written(cat, s)) == Some(m))
  {
    assert m in Written(cat, s);
  }

  /** The fields the tool manages, apart from the autoencoder reference. */
  const ManagedKeys: set<string> := {"description", "weights", "config", "width", "height", "default"}

  /**
   * A rewritten stanza: the catalog's values in the managed fields, the
   * default flag only when asked for, the autoencoder reference when one is
   * known, and every other field of the prior stanza untouched.
   */
  lemma ManagedStanza(prior: map<string, Value>, d: Descriptor, vae: Option<string>, isDefault: bool)
    ensures var r := Managed(prior, d, vae, isDefault);
      && r["description"] == Str(d.description)
      && r["weights"] == Str(Join(ModelDir, d.file))
      && r["config"] == Str(Join(SdConfigs, d.config))
      && r["width"] == Int(d.width) && r["height"] == Int(d.height)
      && ("default" in r <==> isDefault)
      && (isDefault ==> r["default"] == Bool(true))
      && (vae.Some? && vae.value != [] ==> r["vae"] == Str(Join(ModelDir, vae.value)))
      && (!(vae.Some? && vae.value != []) ==> ("vae" in r <==> "vae" in prior) && ("vae" in r ==> r["vae"] == prior["vae"]))
      && (forall k :: k !in ManagedKeys && k != "vae" ==> (k in r <==> k in prior) && (k in r ==> r[k] == prior[k]))
  {
  }

  /** No autoencoder was fetched exactly when `LastVae` finds none. */
  lemma {:induction false} LastVaeNone(cat: seq<Descriptor>, s: seq<string>)
    requires AllKnown(cat, s)
    ensures LastVae(cat, s).None? <==> forall i :: 0 <= i < |s| ==> !IsVae(Lookup(cat, s[i]))
  {
    if s != [] {
      var p := s[..|s| - 1];
      LastVaeNone(cat, p);
      if LastVae(cat, s).None? {
        forall i | 0 <= i < |s| ensures !IsVae(Lookup(cat, s[i])) {
          if i < |p| { assert s[i] == p[i]; }
        }
      }
    }
  }

  /** `LastVae` is the file of an autoencoder in the list with no autoencoder after it. */
  lemma {:induction false} LastVaeIsLast(cat: seq<Descriptor>, s: seq<string>)
    requires AllKnown(cat, s) && LastVae(cat, s).Some?
    ensures exists i :: (0 <= i < |s| && IsVae(Lookup(cat, s[i]))
      && LastVae(cat, s).value == Lookup(cat, s[i]).file
      && forall j :: i < j < |s| ==> !IsVae(Lookup(cat, s[j])))
  {
    var p := s[..|s| - 1];
    if !IsVae(Lookup(cat, s[|s| - 1])) {
      LastVaeIsLast(cat, p);
      var i :| 0 <= i < |p| && IsVae(Lookup(cat, p[i]))
        && LastVae(cat, p).value == Lookup(cat, p[i]).file
        && forall j :: i < j < |p| ==> !IsVae(Lookup(cat, p[j]));
      assert s[i] == p[i];
      forall j | i < j < |s| ensures !IsVae(Lookup(cat, s[j])) {
        if j < |p| { assert s[j] == p[j]; }
      }
    }
  }

  /** The default goes to the first non-autoencoder name of the success list. */
  lemma {:induction false} FirstIsFirstModel(cat: seq<Descriptor>, s: seq<string>)
    requires AllKnown(cat, s)
    ensures First(Written(cat, s)).Some? ==> exists i :: (0 <= i < |s| && s[i] == First(Written(cat, s)).value
      && !IsVae(Lookup(cat, s[i])) && forall j :: 0 <= j < i ==> IsVae(Lookup(cat, s[j])))
  {
    if s != [] {
      var p, x := s[..|s| - 1], s[|s| - 1];
      var w := Written(cat, p);
      assert Written(cat, s) == w + (if IsVae(Lookup(cat, x)) then [] else [x]);
      if w != [] {
        FirstIsFirstModel(cat, p);
        assert First(Written(cat, s)) == First(w);
        var i :| 0 <= i < |p| && p[i] == First(w).value
          && !IsVae(Lookup(cat, p[i])) && forall j :: 0 <= j < i ==> IsVae(Lookup(cat, p[j]));
        assert s[i] == p[i];
        forall j | 0 <= j < i ensures IsVae(Lookup(cat, s[j])) {
          assert s[j] == p[j];
        }
      } else if !IsVae(Lookup(cat, x)) {
        forall j | 0 <= j < |s| - 1 ensures IsVae(Lookup(cat, s[j])) {
          assert s[j] == p[j];
          assert p[j] in p;
          assert p[j] !in w;
        }
        assert s[|s| - 1] == First(Written(cat, s)).value;
      }
    }
  }

  /**
   * Exactly one stanza written in a run carries `default: True`: the one for
   * the first non-autoencoder name fetched.
   */
  lemma ExactlyOneDefault(cat: seq<Descriptor>, conf: Conf, s: seq<string>, m: string)
    requires Expected(cat, conf, s).Ok?
    requires m in s && !IsVae(Lookup(cat, m))
    ensures "default" in StanzaOf(cat, conf, s, m) <==> First(Written(cat, s)) == Some(m)
    ensures "default" in StanzaOf(cat, conf, s, m) ==> StanzaOf(cat, conf, s, m)["default"] == Bool(true)
    ensures First(Written(cat, s)).Some?
  {
    StanzaOfIsManaged(cat, conf, s, m);
    ManagedStanza(Prior(conf.vals, m), Lookup(cat, m), LastVae(cat, s), First(Written(cat, s)) == Some(m));
    assert m in Written(cat, s);
  }

  /**
   * When an autoencoder was fetched, every stanza written references the
   * last one fetched; when none was, an existing reference is left alone.
   */
  lemma VaePropagated(cat: seq<Descriptor>, conf: Conf, s: seq<string>, m: string)
    requires WellFormed(cat)
    requires Expected(cat, conf, s).Ok?
    requires m in s && !IsVae(Lookup(cat, m))
    ensures LastVae(cat, s).Some? ==>
      ("vae" in StanzaOf(cat, conf, s, m)
       && StanzaOf(cat, conf, s, m)["vae"] == Str(Join(ModelDir, LastVae(cat, s).value)))
    ensures LastVae(cat, s).None? ==>
      ("vae" in StanzaOf(cat, conf, s, m) <==> "vae" in Prior(conf.vals, m))
  {
    StanzaOfIsManaged(cat, conf, s, m);
    if LastVae(cat, s).Some? {
      LastVaeIsLast(cat, s);
      var i :| 0 <= i < |s| && IsVae(Lookup(cat, s[i])) && LastVae(cat, s).value == Lookup(cat, s[i]).file
        && forall j :: i < j < |s| ==> !IsVae(Lookup(cat, s[j]));
      var k := IndexOf(cat, s[i]).value;
      assert Lookup(cat, s[i]) == cat[k];
    }
    ManagedStanza(Prior(conf.vals, m), Lookup(cat, m), LastVae(cat, s), First(Written(cat, s)) == Some(m));
  }

  /**
   * A written stanza keeps every field of the existing stanza that the tool
   * does not manage, and gains no field it does not manage.
   */
  lemma UnmanagedKept(cat: seq<Descriptor>, conf: Conf, s: seq<string>, m: string, k: string)
    requires Expected(cat, conf, s).Ok?
    requires m in s && !IsVae(Lookup(cat, m))
    requires k !in ManagedKeys && k != "vae"
    ensures k in StanzaOf(cat, conf, s, m) <==> m in conf.vals && k in conf.vals[m].fields
    ensures k in StanzaOf(cat, conf, s, m) ==> StanzaOf(cat, conf, s, m)[k] == conf.vals[m].fields[k]
  {
    StanzaOfIsManaged(cat, conf, s, m);
    ManagedStanza(Prior(conf.vals, m), Lookup(cat, m), LastVae(cat, s), First(Written(cat, s)) == Some(m));
    assert m in Written(cat, s);
  }
}
