/**
 The detector's configuration (`config['smells']`) and the active-smell
 resolver `determine_active_smells`.
 */
module SmellConfig {
  import opened Seqs
  import opened Text

  /** The six smell kinds, the keys of the results map. */
  datatype Smell = LongMethod | GodClass | DuplicatedCode | LargeParameterList | MagicNumbers | FeatureEnvy

  /** The name of a kind, as written in the configuration and on the command line. */
  function SmellName(kind: Smell): string {
    match kind
    case LongMethod => "LongMethod"
    case GodClass => "GodClass"
    case DuplicatedCode => "DuplicatedCode"
    case LargeParameterList => "LargeParameterList"
    case MagicNumbers => "MagicNumbers"
    case FeatureEnvy => "FeatureEnvy"
  }

  /** The six kinds, in the order `analyze_file` runs them. */
  const SmellKinds: seq<Smell> :=
    [LongMethod, GodClass, DuplicatedCode, LargeParameterList, MagicNumbers, FeatureEnvy]

  /** Every kind is listed, and kinds are told apart by their names. */
  lemma SmellKindsComplete()
    ensures forall kind: Smell :: kind in SmellKinds
    ensures forall a: Smell, b: Smell :: SmellName(a) == SmellName(b) ==> a == b
  {
    forall kind: Smell ensures kind in SmellKinds {
      match kind
      case LongMethod => assert SmellKinds[0] == kind;
      case GodClass => assert SmellKinds[1] == kind;
      case DuplicatedCode => assert SmellKinds[2] == kind;
      case LargeParameterList => assert SmellKinds[3] == kind;
      case MagicNumbers => assert SmellKinds[4] == kind;
      case FeatureEnvy => assert SmellKinds[5] == kind;
    }
  }

  /** One entry `config['smells'][name]`: its `enabled` flag. */
  datatype SmellSettings = SmellSettings(name: string, enabled: bool)

  /** The loaded configuration: the `smells` entries in dictionary order, and the
      thresholds each detector reads from its own entry. */
  datatype Config = Config(
    smells: seq<SmellSettings>,
    maxLines: int,                 // LongMethod.max_lines
    maxMethods: int,               // GodClass.max_methods
    maxAttributes: int,            // GodClass.max_attributes
    minSimilarity: real,           // DuplicatedCode.min_similarity
    minLines: int,                 // DuplicatedCode.min_lines
    maxParameters: int,            // LargeParameterList.max_parameters
    allowedNumbers: seq<real>,     // MagicNumbers.allowed_numbers
    externalCallThreshold: real)   // FeatureEnvy.external_call_threshold

  /** `list(config['smells'].keys())`. */
  function SmellNames(smells: seq<SmellSettings>): (r: seq<string>)
    ensures |r| == |smells|
    ensures forall k :: 0 <= k < |smells| ==> r[k] == smells[k].name
  {
    seq(|smells|, k requires 0 <= k < |smells| => smells[k].name)
  }

  /** `config['smells'][name]['enabled']`: the flag of the entry with that key
      (false when there is none). */
  function IsEnabled(smells: seq<SmellSettings>, name: string): bool {
    if smells == [] then false
    else if smells[0].name == name then smells[0].enabled
    else IsEnabled(smells[1..], name)
  }

  /** Dictionary keys are distinct. */
  predicate DistinctNames(smells: seq<SmellSettings>) {
    forall a, b :: 0 <= a < b < |smells| ==> smells[a].name != smells[b].name
  }

  /** Looking a key up finds that key's own entry. */
  lemma {:induction false} IsEnabledFindsEntry(smells: seq<SmellSettings>, k: nat)
    requires DistinctNames(smells) && k < |smells|
    ensures IsEnabled(smells, smells[k].name) == smells[k].enabled
  {
    if k > 0 {
      assert smells[0].name != smells[k].name;
      assert smells[1..][k - 1] == smells[k];
      IsEnabledFindsEntry(smells[1..], k - 1);
    }
  }

  /** `get_default_config()`. */
  function DefaultConfig(): Config {
    Config(
      [SmellSettings(SmellName(LongMethod), true), SmellSettings(SmellName(GodClass), true),
       SmellSettings(SmellName(DuplicatedCode), true), SmellSettings(SmellName(LargeParameterList), true),
       SmellSettings(SmellName(MagicNumbers), true), SmellSettings(SmellName(FeatureEnvy), true)],
      50, 15, 10, 0.8, 5, 5, [0.0, 1.0, -1.0], 0.6)
  }

  /** `determine_active_smells(only_smells, exclude_smells)`. The two lists arrive as
      comma-separated strings; `""` stands for both `None` and the empty string,
      which Python treats alike (both are false). */
  function ActiveSmells(config: Config, only: string, exclude: string): (r: seq<string>)
    ensures forall s :: s in r ==> s in SmellNames(config.smells)
  {
    var allSmells := SmellNames(config.smells);
    var r :=
      if only != "" then
        Filter(Split(only, ','), s => s in allSmells)
      else if exclude != "" then
        var excluded := Split(exclude, ',');
        Filter(allSmells, s => s !in excluded)
      else
        Filter(allSmells, s => IsEnabled(config.smells, s));
    assert forall s :: s in r ==> s in allSmells by {
      FilterMembers(Split(only, ','), s => s in allSmells);
      FilterMembers(allSmells, s => s !in Split(exclude, ','));
      FilterMembers(allSmells, s => IsEnabled(config.smells, s));
    }
    r
  }

  /** With an only-list: the listed names that are configured, in only-list order
      and with their repetitions; unknown names are dropped without error. */
  lemma OnlyListSelection(config: Config, only: string, exclude: string)
    requires only != ""
    ensures var r, names, keys := ActiveSmells(config, only, exclude), Split(only, ','), SmellNames(config.smells);
      && (forall s :: s in r <==> s in names && s in keys)
      && (forall s :: multiset(r)[s] == if s in keys then multiset(names)[s] else 0)
      && IsSubsequence(r, names)
  {
    var names, keys := Split(only, ','), SmellNames(config.smells);
    var p := s => s in keys;
    assert ActiveSmells(config, only, exclude) == Filter(names, p);
    FilterMembers(names, p);
    forall s ensures multiset(Filter(names, p))[s] == if s in keys then multiset(names)[s] else 0 {
      FilterCounts(names, p, s);
    }
    FilterKeepsOrder(names, p);
  }

  /** Without an only-list but with an exclude-list: every configured name that is
      not excluded, in configuration order. */
  lemma ExcludeListSelection(config: Config, exclude: string)
    requires exclude != ""
    ensures var r, excluded, keys := ActiveSmells(config, "", exclude), Split(exclude, ','), SmellNames(config.smells);
      && (forall s :: s in r <==> s in keys && s !in excluded)
      && (forall s :: multiset(r)[s] == if s in excluded then 0 else multiset(keys)[s])
      && IsSubsequence(r, keys)
  {
    var excluded, keys := Split(exclude, ','), SmellNames(config.smells);
    var p := s => s !in excluded;
    assert ActiveSmells(config, "", exclude) == Filter(keys, p);
    FilterMembers(keys, p);
    forall s ensures multiset(Filter(keys, p))[s] == if s in excluded then 0 else multiset(keys)[s] {
      FilterCounts(keys, p, s);
    }
    FilterKeepsOrder(keys, p);
  }

  /** With neither list: the configured entries whose `enabled` flag is set, in
      configuration order. */
  lemma EnabledSelection(config: Config)
    requires DistinctNames(config.smells)
    ensures var r, keys := ActiveSmells(config, "", ""), SmellNames(config.smells);
      && (forall k :: 0 <= k < |config.smells| ==> (config.smells[k].name in r <==> config.smells[k].enabled))
      && (forall s :: s in r ==> s in keys)
      && IsSubsequence(r, keys)
  {
    var keys := SmellNames(config.smells);
    var p := s => IsEnabled(config.smells, s);
    assert ActiveSmells(config, "", "") == Filter(keys, p);
    FilterMembers(keys, p);
    forall k | 0 <= k < |config.smells|
      ensures config.smells[k].name in Filter(keys, p) <==> config.smells[k].enabled
    {
      IsEnabledFindsEntry(config.smells, k);
      assert keys[k] == config.smells[k].name;
    }
    FilterKeepsOrder(keys, p);
  }

  /** The default configuration enables every smell, so a run with neither list
      checks all six kinds in their canonical order. */
  lemma DefaultConfigRunsEverySmell()
    ensures ActiveSmells(DefaultConfig(), "", "") ==
      ["LongMethod", "GodClass", "DuplicatedCode", "LargeParameterList", "MagicNumbers", "FeatureEnvy"]
  {
    var config := DefaultConfig();
    var keys := SmellNames(config.smells);
    assert keys == ["LongMethod", "GodClass", "DuplicatedCode", "LargeParameterList", "MagicNumbers", "FeatureEnvy"];
    var p := s => IsEnabled(config.smells, s);
    forall k | 0 <= k < |keys| ensures p(keys[k]) {
      IsEnabledFindsEntry(config.smells, k);
    }
    FilterAll(keys, p);
  }
}
