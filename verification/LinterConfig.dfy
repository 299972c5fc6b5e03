/** The linter's configurations: a map keyed by object identity that has to behave like one keyed by value.
    `packages/jsts/src/linter/wrapper.ts`, class `LinterWrapper`. */
module LinterConfig {
  import opened Common
  import opened Paths

  datatype Language = Js | Ts
  datatype FileType = Main | Test

  /** The value of a configuration key. */
  datatype Key = Key(language: Language, fileType: FileType)

  datatype Target = One(fileType: FileType) | Many(fileTypes: seq<FileType>)

  datatype RuleConfig = RuleConfig(key: string, language: Option<Language>, fileTypeTarget: Target)

  /** The result of `createLinterConfig`; environments and globals never change within a wrapper. */
  datatype Config = Config(rules: seq<RuleConfig>)

  function TargetsOf(r: RuleConfig): seq<FileType> {
    match r.fileTypeTarget
    case One(fileType) => [fileType]
    case Many(fileTypes) => fileTypes
  }

  function LanguageOf(r: RuleConfig): Language {
    if r.language.Some? then r.language.value else Js
  }

  /** The rules that target `k`, in input order; a rule that names the file type twice counts twice. */
  function Group(rules: seq<RuleConfig>, k: Key): seq<RuleConfig> {
    if rules == [] then [] else Share(rules[0], TargetsOf(rules[0]), k) + Group(rules[1..], k)
  }

  /** What rule `r` contributes to the group of `k` through the file types `fileTypes`. */
  function Share(r: RuleConfig, fileTypes: seq<FileType>, k: Key): seq<RuleConfig> {
    if fileTypes == [] then []
    else if Key(LanguageOf(r), fileTypes[0]) == k then [r] + Share(r, fileTypes[1..], k)
    else Share(r, fileTypes[1..], k)
  }

  /** The rule is one for the language of `k`, JavaScript by default, and target `j` of it is the file type of `k`. */
  predicate Targets(r: RuleConfig, j: nat, k: Key) {
    && (r.language == Some(k.language) || (r.language == None && k.language == Js))
    && match r.fileTypeTarget
       case One(fileType) => j == 0 && fileType == k.fileType
       case Many(fileTypes) => j < |fileTypes| && fileTypes[j] == k.fileType
  }

  function Marks(r: RuleConfig, fileTypes: seq<FileType>, k: Key): (m: seq<seq<Found<RuleConfig>>>)
    ensures |m| == |fileTypes|
    ensures forall j :: 0 <= j < |m| ==> m[j] == if Key(LanguageOf(r), fileTypes[j]) == k then [Found([], r)] else []
  {
    seq(|fileTypes|, j requires 0 <= j < |fileTypes| =>
      if Key(LanguageOf(r), fileTypes[j]) == k then [Found([], r)] else [])
  }

  lemma {:induction false} MarksHoldShare(r: RuleConfig, fileTypes: seq<FileType>, k: Key)
    ensures Flat(AllValues(Marks(r, fileTypes, k))) == Share(r, fileTypes, k)
  {
    if fileTypes != [] {
      MarksHoldShare(r, fileTypes[1..], k);
      var marks := Marks(r, fileTypes, k);
      assert marks[1..] == Marks(r, fileTypes[1..], k);
      assert Values(marks[0]) == if Key(LanguageOf(r), fileTypes[0]) == k then [r] else [];
      assert [] + Share(r, fileTypes[1..], k) == Share(r, fileTypes[1..], k);
    }
  }

  function AllMarks(rules: seq<RuleConfig>, k: Key): (m: seq<seq<Found<RuleConfig>>>)
    ensures |m| == |rules|
    ensures forall i :: 0 <= i < |m| ==> m[i] == Spread(Marks(rules[i], TargetsOf(rules[i]), k), 0)
  {
    seq(|rules|, i requires 0 <= i < |rules| => Spread(Marks(rules[i], TargetsOf(rules[i]), k), 0))
  }

  lemma {:induction false} AllMarksHoldGroup(rules: seq<RuleConfig>, k: Key)
    ensures Flat(AllValues(AllMarks(rules, k))) == Group(rules, k)
  {
    if rules != [] {
      AllMarksHoldGroup(rules[1..], k);
      var marks := Marks(rules[0], TargetsOf(rules[0]), k);
      MarksHoldShare(rules[0], TargetsOf(rules[0]), k);
      ValuesSpread(marks, 0);
      assert AllMarks(rules, k)[1..] == AllMarks(rules[1..], k);
    }
  }

  ghost predicate IsTarget(rules: seq<RuleConfig>, k: Key, f: Found<RuleConfig>) {
    |f.path| == 2 && f.path[0] < |rules| && f.value == rules[f.path[0]] && Targets(f.value, f.path[1], k)
  }

  lemma MarksAreTargets(r: RuleConfig, k: Key, f: Found<RuleConfig>)
    ensures f in Spread(Marks(r, TargetsOf(r), k), 0) <==> |f.path| == 1 && f.value == r && Targets(r, f.path[0], k)
  {
    SpreadMembers(Marks(r, TargetsOf(r), k), 0, f);
    if |f.path| == 1 {
      assert f.path[1..] == [];
    }
  }

  /** A group holds one rule for every target that is the key, in the order of the rules and of their targets. */
  lemma GroupTargets(rules: seq<RuleConfig>, k: Key) returns (places: seq<Found<RuleConfig>>)
    ensures Group(rules, k) == Values(places) && InOrder(places, false)
    ensures forall f :: f in places <==> IsTarget(rules, k, f)
  {
    var all := AllMarks(rules, k);
    places := Spread(all, 0);
    AllMarksHoldGroup(rules, k);
    ValuesSpread(all, 0);
    forall i | 0 <= i < |all| ensures InOrder(all[i], false) {
      SpreadInOrder(Marks(rules[i], TargetsOf(rules[i]), k), 0, false);
    }
    SpreadInOrder(all, 0, false);
    forall f ensures f in places <==> IsTarget(rules, k, f) {
      SpreadMembers(all, 0, f);
      if f.path != [] && f.path[0] < |rules| {
        MarksAreTargets(rules[f.path[0]], k, Found(f.path[1..], f.value));
      }
    }
  }

  /** The members of a group are exactly the rules of its language that target its file type. */
  lemma GroupMembers(rules: seq<RuleConfig>, k: Key, r: RuleConfig)
    ensures r in Group(rules, k) <==>
      && r in rules
      && (r.language == Some(k.language) || (r.language == None && k.language == Js))
      && (r.fileTypeTarget == One(k.fileType)
          || (r.fileTypeTarget.Many? && k.fileType in r.fileTypeTarget.fileTypes))
  {
    var places := GroupTargets(rules, k);
    if r in Group(rules, k) {
      var n :| 0 <= n < |places| && Values(places)[n] == r;
      assert places[n] in places;
    }
    if r in rules {
      var i :| 0 <= i < |rules| && rules[i] == r;
      if r.fileTypeTarget.Many? && k.fileType in r.fileTypeTarget.fileTypes {
        var j :| 0 <= j < |r.fileTypeTarget.fileTypes| && r.fileTypeTarget.fileTypes[j] == k.fileType;
        IsMember(places, rules, k, i, j);
      } else {
        IsMember(places, rules, k, i, 0);
      }
    }
  }

  lemma IsMember(places: seq<Found<RuleConfig>>, rules: seq<RuleConfig>, k: Key, i: nat, j: nat)
    requires i < |rules| && forall f :: f in places <==> IsTarget(rules, k, f)
    ensures Targets(rules[i], j, k) ==> rules[i] in Values(places)
  {
    if Targets(rules[i], j, k) {
      var f := Found([i, j], rules[i]);
      assert IsTarget(rules, k, f);
      var n :| 0 <= n < |places| && places[n] == f;
      assert Values(places)[n] == rules[i];
    }
  }

  type Groups = map<Key, seq<RuleConfig>>

  function Get(g: Groups, k: Key): seq<RuleConfig> {
    if k in g then g[k] else []
  }

  /** `createConfig` on a map keyed by value: one rule under one key, under all its targets, and all rules. */
  function AddUnder(g: Groups, k: Key, r: RuleConfig): Groups {
    g[k := Get(g, k) + [r]]
  }

  function AddRule(g: Groups, r: RuleConfig, fileTypes: seq<FileType>): Groups
    decreases |fileTypes|
  {
    if fileTypes == [] then g else AddRule(AddUnder(g, Key(LanguageOf(r), fileTypes[0]), r), r, fileTypes[1..])
  }

  function AddRules(g: Groups, rules: seq<RuleConfig>): Groups
    decreases |rules|
  {
    if rules == [] then g else AddRules(AddRule(g, rules[0], TargetsOf(rules[0])), rules[1..])
  }

  lemma {:induction false} AddRuleGet(g: Groups, r: RuleConfig, fileTypes: seq<FileType>, k: Key)
    ensures var g' := AddRule(g, r, fileTypes);
            Get(g', k) == Get(g, k) + Share(r, fileTypes, k) && (k in g' <==> k in g || Share(r, fileTypes, k) != [])
    decreases |fileTypes|
  {
    if fileTypes != [] {
      AddRuleGet(AddUnder(g, Key(LanguageOf(r), fileTypes[0]), r), r, fileTypes[1..], k);
    }
  }

  lemma {:induction false} AddRuleKeys(g: Groups, r: RuleConfig, fileTypes: seq<FileType>)
    ensures g.Keys <= AddRule(g, r, fileTypes).Keys
    decreases |fileTypes|
  {
    if fileTypes != [] {
      AddRuleKeys(AddUnder(g, Key(LanguageOf(r), fileTypes[0]), r), r, fileTypes[1..]);
    }
  }

  /** The accumulated map holds exactly the non-empty groups. */
  lemma {:induction false} AddRulesGet(g: Groups, rules: seq<RuleConfig>, k: Key)
    ensures var g' := AddRules(g, rules);
            Get(g', k) == Get(g, k) + Group(rules, k) && (k in g' <==> k in g || Group(rules, k) != [])
    decreases |rules|
  {
    if rules != [] {
      AddRuleGet(g, rules[0], TargetsOf(rules[0]), k);
      AddRulesGet(AddRule(g, rules[0], TargetsOf(rules[0])), rules[1..], k);
    }
  }

  function Configs(g: Groups): map<Key, Config> {
    map k | k in g :: Config(g[k])
  }

  /** The configurations a sequence of requests should be served with. */
  function ConfigsFor(rules: seq<RuleConfig>, ks: seq<Key>): (r: seq<Config>)
    ensures |r| == |ks| && forall i :: 0 <= i < |ks| ==> r[i] == Config(Group(rules, ks[i]))
  {
    if ks == [] then [] else [Config(Group(rules, ks[0]))] + ConfigsFor(rules, ks[1..])
  }

  function Asked(requests: seq<Key>): set<Key> {
    if requests == [] then {} else {requests[0]} + Asked(requests[1..])
  }

  lemma {:induction false} AskedIff(requests: seq<Key>, k: Key)
    ensures k in Asked(requests) <==> k in requests
  {
    if requests != [] {
      AskedIff(requests[1..], k);
    }
  }

  /** A key object; two of them with the same fields are different keys of the map. */
  class ConfigurationKey {
    const value: Key

    constructor (value: Key)
      ensures this.value == value
    {
      this.value := value;
    }
  }

  class LinterWrapper {
    const inputRules: seq<RuleConfig>
    /** The configurations of the keys that have rules. */
    ghost const expected: map<Key, Config>
    var config: map<ConfigurationKey, Config>
    var configurationKeys: seq<ConfigurationKey>
    /** Where the interned key of every value stands. */
    ghost var position: map<Key, nat>

    /** The configurations seen as a map keyed by value: `k` is bound when its interned key is. */
    ghost predicate Stored(k: Key)
      requires Indexed()
      reads this
    {
      k in position && configurationKeys[position[k]] in config
    }

    /** Every value has at most one interned key. */
    ghost predicate Indexed()
      reads this
    {
      && (forall k :: k in position ==> position[k] < |configurationKeys| && configurationKeys[position[k]].value == k)
      && (forall i :: 0 <= i < |configurationKeys| ==>
            configurationKeys[i].value in position && position[configurationKeys[i].value] == i)
    }

    /** `key` itself is the interned key of its value. */
    ghost predicate Interns(key: ConfigurationKey)
      requires Indexed()
      reads this
    {
      key.value in position && configurationKeys[position[key.value]] == key
    }

    /** The configuration a key should get: that of its rules, or the default one without any. */
    ghost function Expected(k: Key): Config {
      if k in expected then expected[k] else Config([])
    }

    /** Every configuration belongs to an interned value and is the expected one. */
    ghost predicate Valid()
      reads this
    {
      Indexed() && forall key :: key in config ==> key.value in position && config[key] == Expected(key.value)
    }

    /** The identity-keyed `m` is the value-keyed `a`. */
    ghost predicate Refines<V>(m: map<ConfigurationKey, V>, a: map<Key, V>)
      requires Indexed()
      reads this
    {
      && (forall key :: key in m ==> Interns(key) && key.value in a && a[key.value] == m[key])
      && (forall k :: k in a ==> k in position && configurationKeys[position[k]] in m)
    }

    /** After `init`: only keys without rules may be missing. */
    ghost predicate Ready()
      reads this
    {
      Valid() && forall k :: k in expected ==> Stored(k)
    }

    constructor (inputRules: seq<RuleConfig>)
      ensures this.inputRules == inputRules && Valid()
      ensures config == map[] && configurationKeys == [] && position == map[]
      ensures expected == Configs(AddRules(map[], inputRules))
    {
      this.inputRules, config, configurationKeys, position := inputRules, map[], [], map[];
      expected := Configs(AddRules(map[], inputRules));
    }

    method LinterConfigurationKey(key: ConfigurationKey) returns (r: ConfigurationKey)
      requires Valid()
      modifies this`configurationKeys, this`position
      ensures Valid() && key.value in position && r == configurationKeys[position[key.value]]
      ensures if key.value in old(position)
              then configurationKeys == old(configurationKeys) && position == old(position)
              else r == key && configurationKeys == old(configurationKeys) + [key]
                   && position == old(position)[key.value := |old(configurationKeys)|]
    {
      for i := 0 to |configurationKeys|
        invariant configurationKeys == old(configurationKeys) && position == old(position)
        invariant forall j :: 0 <= j < i ==> configurationKeys[j].value != key.value
      {
        var v := configurationKeys[i];
        if v.value.language == key.value.language && v.value.fileType == key.value.fileType {
          return v;
        }
      }
      position := position[key.value := |configurationKeys|];
      configurationKeys := configurationKeys + [key];
      r := key;
    }

    /** Also a public entry point: asking for an unknown key interns it without giving it a configuration. */
    method GetConfig(key: ConfigurationKey) returns (c: Option<Config>)
      requires Valid()
      modifies this`configurationKeys, this`position
      ensures Valid() && position.Keys == old(position).Keys + {key.value}
      ensures c == if old(Stored(key.value)) then Some(Expected(key.value)) else None
      ensures forall k: Key :: Stored(k) <==> old(Stored(k))
      ensures if key.value in old(position)
              then position == old(position) && configurationKeys == old(configurationKeys)
              else Interns(key) && configurationKeys == old(configurationKeys) + [key]
    {
      var k := LinterConfigurationKey(key);
      c := if k in config then Some(config[k]) else None;
    }

    /** The last statement of a miss in `lint`: the key object at hand becomes a key of the map. */
    method StoreDefault(key: ConfigurationKey)
      requires Valid() && key.value in position && key !in config && key.value !in expected
      modifies this`config
      ensures Valid() && config == old(config)[key := Config([])]
      ensures forall k: Key :: Stored(k) <==> old(Stored(k)) || (k == key.value && Interns(key))
    {
      config := config[key := Config([])];
    }

    /** The cache part of `lint`: it always works with exactly the rules of the requested key. */
    method Lint(fileType: FileType, language: Language) returns (linterConfig: Config)
      requires Ready()
      modifies this
      ensures Ready() && position.Keys == old(position).Keys + {Key(language, fileType)}
      ensures linterConfig == Expected(Key(language, fileType))
      // A hit changes nothing. A miss stores one entry under a fresh key object, and later calls find it
      // exactly when no equal key had been interned before.
      ensures old(Stored(Key(language, fileType))) ==> config == old(config)
      ensures !old(Stored(Key(language, fileType))) ==> |config| == |old(config)| + 1
      ensures forall k: Key ::
        Stored(k) <==> old(Stored(k)) || (k == Key(language, fileType) && k !in old(position))
    {
      ghost var wanted := Key(language, fileType);
      assert wanted in expected ==> Stored(wanted);
      assert wanted in position ==> position[wanted] < |configurationKeys|;
      var key := new ConfigurationKey(Key(language, fileType));
      var found := GetConfig(key);
      if found.Some? {
        linterConfig := found.value;
      } else {
        linterConfig := Config([]);
        assert Interns(key) <==> wanted !in old(position);
        StoreDefault(key);
      }
    }

    /** One round of the inner loop of `createConfig`. */
    method AddRuleUnder(rulesByKey: map<ConfigurationKey, seq<RuleConfig>>, r: RuleConfig, fileType: FileType,
        ghost g: Groups)
      returns (after: map<ConfigurationKey, seq<RuleConfig>>)
      requires Valid() && Refines(rulesByKey, g)
      modifies this`configurationKeys, this`position
      ensures Valid() && position.Keys == old(position).Keys + {Key(LanguageOf(r), fileType)}
      ensures Refines(after, AddUnder(g, Key(LanguageOf(r), fileType), r))
    {
      var own := new ConfigurationKey(Key(LanguageOf(r), fileType));
      var key := LinterConfigurationKey(own);
      assert Refines(rulesByKey, g);
      var rules := if key in rulesByKey then rulesByKey[key] else [];
      after := rulesByKey[key := rules + [r]];
    }

    /** Only keys with rules were interned on top of those in `before`. */
    ghost predicate Grew(before: set<Key>, g: Groups)
      reads this
    {
      forall k :: k in position ==> k in before || k in g
    }

    /** The inner loop of `createConfig`. */
    method AddRuleToTargets(rulesByKey: map<ConfigurationKey, seq<RuleConfig>>, r: RuleConfig, ghost before: Groups)
      returns (after: map<ConfigurationKey, seq<RuleConfig>>)
      requires Valid() && Refines(rulesByKey, before)
      modifies this`configurationKeys, this`position
      ensures Valid() && Refines(after, AddRule(before, r, TargetsOf(r)))
      ensures Grew(old(position).Keys, AddRule(before, r, TargetsOf(r)))
    {
      var target := TargetsOf(r);
      after := rulesByKey;
      ghost var g := before;
      for j := 0 to |target|
        invariant Valid() && Refines(after, g) && Grew(old(position).Keys, g)
        invariant AddRule(g, r, target[j..]) == AddRule(before, r, target)
      {
        assert target[j..][0] == target[j] && target[j..][1..] == target[j + 1..];
        after := AddRuleUnder(after, r, target[j], g);
        g := AddUnder(g, Key(LanguageOf(r), target[j]), r);
      }
    }

    /** The first pass of `createConfig`. */
    method GroupRules() returns (rulesByKey: map<ConfigurationKey, seq<RuleConfig>>)
      requires Valid()
      modifies this`configurationKeys, this`position
      ensures Valid() && Refines(rulesByKey, AddRules(map[], inputRules))
      ensures Grew(old(position).Keys, AddRules(map[], inputRules))
    {
      rulesByKey := map[];
      ghost var g: Groups := map[];
      for i := 0 to |inputRules|
        invariant Valid() && Refines(rulesByKey, g) && Grew(old(position).Keys, g)
        invariant AddRules(g, inputRules[i..]) == AddRules(map[], inputRules)
      {
        var r := inputRules[i];
        assert inputRules[i..][0] == r && inputRules[i..][1..] == inputRules[i + 1..];
        AddRuleKeys(g, r, TargetsOf(r));
        rulesByKey := AddRuleToTargets(rulesByKey, r, g);
        g := AddRule(g, r, TargetsOf(r));
      }
    }

    /** The second pass turns groups into configurations. */
    method CreateConfig() returns (configByKey: map<ConfigurationKey, Config>)
      requires Valid()
      modifies this`configurationKeys, this`position
      ensures Valid() && Refines(configByKey, Configs(AddRules(map[], inputRules)))
      ensures Grew(old(position).Keys, AddRules(map[], inputRules))
    {
      var rulesByKey := GroupRules();
      configByKey := map[];
      var todo := rulesByKey.Keys;
      while todo != {}
        invariant todo <= rulesByKey.Keys
        invariant configByKey.Keys == rulesByKey.Keys - todo
        invariant forall key :: key in configByKey ==> configByKey[key] == Config(rulesByKey[key])
      {
        var key :| key in todo;
        configByKey := configByKey[key := Config(rulesByKey[key])];
        todo := todo - {key};
      }
    }

    /** From now on exactly the keys with rules are stored, even those interned before without any. */
    method Init()
      requires Valid() && expected == Configs(AddRules(map[], inputRules))
      modifies this
      ensures Ready() && forall k :: k in position ==> k in old(position) || k in expected
      ensures forall k: Key :: Stored(k) <==> k in expected
    {
      config := CreateConfig();
    }

    ghost function ExpectedOf(ks: seq<Key>): seq<Config> {
      if ks == [] then [] else [Expected(ks[0])] + ExpectedOf(ks[1..])
    }

    /** Every interned key has a configuration. */
    ghost predicate NothingPoisoned()
      reads this
    {
      Indexed() && forall k :: k in position ==> Stored(k)
    }

    method LintAll(requests: seq<Key>) returns (used: seq<Config>)
      requires Ready() && NothingPoisoned()
      modifies this
      ensures Ready() && NothingPoisoned() && position.Keys == old(position).Keys + Asked(requests)
      ensures used == ExpectedOf(requests)
    {
      used := [];
      ghost var asked := {};
      for i := 0 to |requests|
        invariant Ready() && NothingPoisoned() && position.Keys == old(position).Keys + asked
        invariant asked + Asked(requests[i..]) == Asked(requests)
        invariant used + ExpectedOf(requests[i..]) == ExpectedOf(requests)
      {
        var k := requests[i];
        assert requests[i..][0] == k && requests[i..][1..] == requests[i + 1..];
        asked := asked + {k};
        var c := Lint(k.fileType, k.language);
        used := used + [c];
      }
    }
  }

  /** One `init` followed by any sequence of `lint` calls: equal requests get equal configurations, and the map by
      identity has an interned entry for exactly the key values that have rules or were requested. */
  method Session(inputRules: seq<RuleConfig>, requests: seq<Key>) returns (wrapper: LinterWrapper, used: seq<Config>)
    ensures fresh(wrapper) && wrapper.inputRules == inputRules && wrapper.Ready()
    ensures used == ConfigsFor(inputRules, requests)
    ensures wrapper.NothingPoisoned()
    ensures forall k :: k in wrapper.position <==> Group(inputRules, k) != [] || k in requests
  {
    wrapper := new LinterWrapper(inputRules);
    wrapper.Init();
    used := wrapper.LintAll(requests);
    forall k: Key { AddRulesGet(map[], inputRules, k); }
    forall k: Key { AskedIff(requests, k); }
    ExpectedConfigs(wrapper, requests);
  }

  lemma {:induction false} ExpectedConfigs(wrapper: LinterWrapper, ks: seq<Key>)
    requires wrapper.expected == Configs(AddRules(map[], wrapper.inputRules))
    ensures wrapper.ExpectedOf(ks) == ConfigsFor(wrapper.inputRules, ks)
  {
    if ks != [] {
      AddRulesGet(map[], wrapper.inputRules, ks[0]);
      assert [] + Group(wrapper.inputRules, ks[0]) == Group(wrapper.inputRules, ks[0]);
      ExpectedConfigs(wrapper, ks[1..]);
    }
  }

  /** Asking `getConfig` for an unknown key first defeats the cache: every later `lint` adds one more entry. */
  method AskedBeforehand(wrapper: LinterWrapper, k: Key, times: nat)
    requires wrapper.Ready() && k !in wrapper.position
    modifies wrapper
    ensures wrapper.Ready() && !wrapper.Stored(k) && |wrapper.config| == |old(wrapper.config)| + times
  {
    var key := new ConfigurationKey(k);
    var none := wrapper.GetConfig(key);
    for i := 0 to times
      invariant wrapper.Ready() && k in wrapper.position && !wrapper.Stored(k)
      invariant |wrapper.config| == |old(wrapper.config)| + i
    {
      var c := wrapper.Lint(k.fileType, k.language);
    }
  }
}
