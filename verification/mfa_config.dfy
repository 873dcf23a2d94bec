/**
  Which factors an application demands: configuration files are read one after another and
  the one of highest priority wins (service/multifactor/config.go, multifactor.go).
 */
module MfaConfig {
  import opened AuthTypes
  import opened Collections
  import opened MultiFactor

  /** The spellings of a factor in a configuration file. */
  datatype MfaType =
    | PasswordName | FingerprintName | FaceName | AdName | UKeyName | IrisName
    | UnsupportedType(name: string)

  /** The spellings of an application class; Star is "*". */
  datatype AppName = Login | Lock | Authorization | Other | All | Star | UnsupportedApp(name: string)

  datatype Config = Config(applicationType: AppName, types: seq<MfaType>)

  function MfaTypeToAuthFlag(m: MfaType): Flag {
    match m
    case PasswordName => FLAG_PASSWORD
    case FingerprintName => FLAG_FINGERPRINT
    case FaceName => FLAG_FACE
    case AdName => FLAG_ACTIVE_DIRECTORY
    case UKeyName => FLAG_UKEY
    case IrisName => FLAG_IRIS
    case UnsupportedType(_) => Flag(0)
  }

  function AppNameToInt(a: AppName): int {
    match a
    case Login => 1
    case Lock => 2
    case Authorization => 3
    case Other => 4
    case _ => 0
  }

  predicate IsSupportedApp(a: AppName) {
    !a.UnsupportedApp? && !a.Star?
  }

  /** What a configuration has to satisfy: known application, factors known and all different. */
  ghost predicate WellFormed(c: Config) {
    && c.types != []
    && !c.applicationType.UnsupportedApp?
    && Distinct(c.types)
    && forall m | m in c.types :: !m.UnsupportedType?
  }

  method IsValidConfig(c: Config) returns (valid: bool)
    ensures valid <==> WellFormed(c)
  {
    if |c.types| <= 0 {
      return false;
    }
    if !IsSupportedApp(c.applicationType) {
      if c.applicationType != Star {
        return false;
      }
    }
    var seen: set<MfaType> := {};
    for i := 0 to |c.types|
      invariant seen == set m | m in c.types[..i]
      invariant Distinct(c.types[..i])
      invariant forall m | m in c.types[..i] :: !m.UnsupportedType?
    {
      assert c.types[..i + 1] == c.types[..i] + [c.types[i]];
      if c.types[i].UnsupportedType? {
        return false;
      }
      if c.types[i] in seen {
        return false;
      }
      seen := seen + {c.types[i]};
    }
    assert c.types[..|c.types|] == c.types;
    return true;
  }

  // ---------- what a valid configuration demands ----------

  function FactorOf(m: MfaType): AuthType {
    AuthFlagToType(MfaTypeToAuthFlag(m))
  }

  function FactorsOf(types: seq<MfaType>): (factors: seq<AuthType>)
    ensures |factors| == |types|
    ensures forall i | 0 <= i < |types| :: factors[i] == FactorOf(types[i])
  {
    if types == [] then [] else FactorsOf(types[..|types| - 1]) + [FactorOf(types[|types| - 1])]
  }

  method GetAuthTypeList(c: Config) returns (list: seq<Flag>)
    ensures |list| == |c.types| && forall i | 0 <= i < |list| :: list[i] == MfaTypeToAuthFlag(c.types[i])
  {
    list := [];
    for i := 0 to |c.types|
      invariant |list| == i && forall j | 0 <= j < i :: list[j] == MfaTypeToAuthFlag(c.types[j])
    {
      list := list + [MfaTypeToAuthFlag(c.types[i])];
    }
  }

  /** Each supported spelling stands for one factor, which no other spelling stands for. */
  lemma SupportedFactor(m: MfaType)
    requires !m.UnsupportedType?
    ensures !FactorOf(m).Unrecognised? && AuthTypeToFlag(FactorOf(m)) == MfaTypeToAuthFlag(m)
  {
  }

  /** The factor each spelling stands for. */
  lemma SpellingsExactly()
    ensures FactorsOf([PasswordName, FingerprintName, FaceName, AdName, UKeyName, IrisName])
            == [Password, Fingerprint, Face, ActiveDirectory, UKey, Iris]
  {
    FlagDeterminesType(Password);
    assert forall m | m in [PasswordName, FingerprintName, FaceName, AdName, UKeyName, IrisName] ::
        FactorOf(m) == (match m
                        case PasswordName => Password
                        case FingerprintName => Fingerprint
                        case FaceName => Face
                        case AdName => ActiveDirectory
                        case UKeyName => UKey
                        case _ => Iris);
  }

  lemma FactorOfInjective(m: MfaType, n: MfaType)
    requires !m.UnsupportedType? && !n.UnsupportedType? && FactorOf(m) == FactorOf(n)
    ensures m == n
  {
  }

  /**
    The factors of a valid configuration are recognised and pairwise distinct, and the flag
    list the controller works from is theirs: this is what its counters rest on.
   */
  lemma ValidConfigIsConfigurable(c: Config, list: seq<Flag>)
    requires WellFormed(c)
    requires |list| == |c.types| && forall i | 0 <= i < |list| :: list[i] == MfaTypeToAuthFlag(c.types[i])
    ensures Configurable(FactorsOf(c.types))
    ensures list == FlagsOf(FactorsOf(c.types))
  {
    var factors := FactorsOf(c.types);
    FlagsAt(factors);
    forall t | t in factors ensures !t.Unrecognised? {
      var i :| 0 <= i < |factors| && factors[i] == t;
      SupportedFactor(c.types[i]);
    }
    forall i, j | 0 <= i < j < |factors| ensures factors[i] != factors[j] {
      assert c.types[i] in c.types && c.types[j] in c.types;
      if factors[i] == factors[j] {
        FactorOfInjective(c.types[i], c.types[j]);
      }
    }
    forall i | 0 <= i < |list| ensures list[i] == FlagsOf(factors)[i] {
      SupportedFactor(c.types[i]);
    }
  }

  // ---------- loading ----------

  datatype FileInfo = FileInfo(appType: AppName, priority: int)

  /** One configuration file; a part that cannot be parsed is None. */
  datatype File = File(info: Option<FileInfo>, content: Option<Config>)

  datatype Entry = Entry(config: Config, priority: int)

  type Configs = map<AppName, Entry>

  /** The file is taken into account: it parses, is valid, and its name and content agree. */
  ghost predicate Accepted(f: File) {
    && f.info.Some? && f.content.Some?
    && IsSupportedApp(f.info.value.appType)
    && WellFormed(f.content.value)
    && (f.content.value.applicationType == f.info.value.appType
        || (f.info.value.appType == All && f.content.value.applicationType == Star))
  }

  ghost predicate Competes(f: File, key: AppName) {
    Accepted(f) && f.info.value.appType == key
  }

  /** File i is the first of the highest priority among those for the key. */
  ghost predicate Best(h: seq<File>, key: AppName, i: int) {
    && 0 <= i < |h| && Competes(h[i], key)
    && forall j | 0 <= j < |h| && Competes(h[j], key) ::
         h[j].info.value.priority < h[i].info.value.priority
         || (h[j].info.value.priority == h[i].info.value.priority && i <= j)
  }

  ghost predicate StoresAt(configs: Configs, h: seq<File>, key: AppName) {
    if key in configs
    then exists i :: Best(h, key, i) && configs[key] == Entry(h[i].content.value, h[i].info.value.priority)
    else forall j | 0 <= j < |h| :: !Competes(h[j], key)
  }

  /** The map holds the winner of every key for which some file was accepted. */
  ghost predicate Stores(configs: Configs, h: seq<File>) {
    forall key :: StoresAt(configs, h, key)
  }

  lemma Winner(configs: Configs, h: seq<File>, key: AppName) returns (i: int)
    requires Stores(configs, h) && key in configs
    ensures Best(h, key, i) && configs[key] == Entry(h[i].content.value, h[i].info.value.priority)
  {
    assert StoresAt(configs, h, key);
    i :| Best(h, key, i) && configs[key] == Entry(h[i].content.value, h[i].info.value.priority);
  }

  lemma StoresUnaccepted(configs: Configs, h: seq<File>, f: File)
    requires Stores(configs, h) && !Accepted(f)
    ensures Stores(configs, h + [f])
  {
    forall key ensures StoresAt(configs, h + [f], key) {
      assert StoresAt(configs, h, key);
      if key in configs {
        var i := Winner(configs, h, key);
        assert Best(h + [f], key, i);
      }
    }
  }

  function Loaded(configs: Configs, info: FileInfo, c: Config): Configs {
    if info.appType in configs && configs[info.appType].priority >= info.priority then configs
    else configs[info.appType := Entry(c, info.priority)]
  }

  lemma StoresLoaded(configs: Configs, h: seq<File>, f: File)
    requires Stores(configs, h) && Accepted(f)
    ensures Stores(Loaded(configs, f.info.value, f.content.value), h + [f])
  {
    var after := Loaded(configs, f.info.value, f.content.value);
    forall key ensures StoresAt(after, h + [f], key) {
      assert StoresAt(configs, h, key);
      if key in configs {
        var i := Winner(configs, h, key);
        if key == f.info.value.appType && configs[key].priority < f.info.value.priority {
          assert Best(h + [f], key, |h|);
        } else {
          assert Best(h + [f], key, i);
        }
      } else if key == f.info.value.appType {
        assert Best(h + [f], key, |h|);
      }
    }
  }

  lemma SameWinner(configs: Configs, h: seq<File>, configs': Configs, h': seq<File>, key: AppName)
    requires Stores(configs, h) && Stores(configs', h') && key in configs
    requires forall f :: f in h <==> f in h'
    requires forall f, g | f in h && g in h && Accepted(f) && Accepted(g) && f.info == g.info :: f == g
    ensures key in configs' && configs'[key] == configs[key]
  {
    var i := Winner(configs, h, key);
    assert h[i] in h';
    assert StoresAt(configs', h', key);
    assert key in configs';
    var j := Winner(configs', h', key);
    assert h'[j] in h;
    assert h[i].info == h'[j].info;
  }

  /** When no two files for one application tie, the order of loading does not matter. */
  lemma LoadOrderIrrelevant(configs: Configs, h: seq<File>, configs': Configs, h': seq<File>)
    requires Stores(configs, h) && Stores(configs', h')
    requires forall f :: f in h <==> f in h'
    requires forall f, g | f in h && g in h && Accepted(f) && Accepted(g) && f.info == g.info :: f == g
    ensures configs == configs'
  {
    forall key | key in configs ensures key in configs' && configs'[key] == configs[key] {
      SameWinner(configs, h, configs', h', key);
    }
    forall key | key in configs' ensures key in configs {
      SameWinner(configs', h', configs, h, key);
    }
  }

  // ---------- lookup ----------

  /** The entry of the application itself, else the entry for all applications. */
  function Lookup(configs: Configs, appType: int): Option<Config> {
    if appType == 1 && Login in configs then Some(configs[Login].config)
    else if appType == 2 && Lock in configs then Some(configs[Lock].config)
    else if appType == 3 && Authorization in configs then Some(configs[Authorization].config)
    else if appType == 4 && Other in configs then Some(configs[Other].config)
    else if All in configs then Some(configs[All].config)
    else None
  }

  /** The content of the first file of highest priority for the key. */
  ghost predicate Wins(h: seq<File>, key: AppName, c: Config) {
    exists i :: Best(h, key, i) && h[i].content == Some(c)
  }

  ghost predicate NoneFor(h: seq<File>, key: AppName) {
    forall j | 0 <= j < |h| :: !Competes(h[j], key)
  }

  lemma StoredWins(configs: Configs, h: seq<File>, key: AppName, c: Config)
    requires Stores(configs, h)
    ensures key in configs && configs[key].config == c <==> Wins(h, key, c)
    ensures key !in configs <==> NoneFor(h, key)
  {
    assert StoresAt(configs, h, key);
    if key in configs {
      var i := Winner(configs, h, key);
      assert Competes(h[i], key);
    }
  }

  /**
    From the files to the answer: an application gets the first accepted file of the highest
    priority for it; if there is none, and for every other number, that for all applications.
   */
  lemma AnswerOfFiles(configs: Configs, h: seq<File>, appType: int, key: AppName, c: Config)
    requires Stores(configs, h)
    requires (appType, key) in {(1, Login), (2, Lock), (3, Authorization), (4, Other)}
             || (key == All && appType !in {1, 2, 3, 4})
    ensures Lookup(configs, appType) == Some(c) <==> Wins(h, key, c) || (NoneFor(h, key) && Wins(h, All, c))
    ensures Lookup(configs, appType) == None <==> NoneFor(h, key) && NoneFor(h, All)
  {
    StoredWins(configs, h, key, c);
    StoredWins(configs, h, All, c);
  }

  /** A configuration is stored under its own application, "*" under All. */
  ghost predicate Filed(configs: Configs) {
    forall key | key in configs ::
      && IsSupportedApp(key) && WellFormed(configs[key].config)
      && (configs[key].config.applicationType == key
          || (key == All && configs[key].config.applicationType == Star))
  }

  lemma StoresFiled(configs: Configs, h: seq<File>)
    requires Stores(configs, h)
    ensures Filed(configs)
  {
    forall key | key in configs
      ensures Competes(File(Some(FileInfo(key, configs[key].priority)), Some(configs[key].config)), key)
    {
      var i := Winner(configs, h, key);
    }
  }

  class MFAConfig {
    var configs: Configs
    ghost var history: seq<File>

    ghost predicate Valid()
      reads this
    {
      Stores(configs, history)
    }

    constructor ()
      ensures Valid() && history == []
    {
      configs, history := map[], [];
    }

    method LoadConfigFile(f: File)
      requires Valid()
      requires f.info.Some? ==> IsSupportedApp(f.info.value.appType)
      modifies this
      ensures Valid() && history == old(history) + [f]
    {
      ghost var h := history;
      history := history + [f];
      if f.content.None? || f.info.None? {
        StoresUnaccepted(configs, h, f);
        return;
      }
      var info, c := f.info.value, f.content.value;
      var valid := IsValidConfig(c);
      if valid {
        if info.appType != c.applicationType {
          if !(info.appType == All && c.applicationType == Star) {
            StoresUnaccepted(configs, h, f);
            return;
          }
        }
        StoresLoaded(configs, h, f);
        if info.appType in configs {
          if configs[info.appType].priority < info.priority {
            configs := configs[info.appType := Entry(c, info.priority)];
          }
        } else {
          configs := configs[info.appType := Entry(c, info.priority)];
        }
      } else {
        StoresUnaccepted(configs, h, f);
      }
    }

    /** The entries are walked in an arbitrary order, on which the answer does not depend. */
    method GetConfig(appType: int) returns (c: Option<Config>)
      requires Valid()
      ensures c == Lookup(configs, appType)
      ensures c.Some? ==> WellFormed(c.value)
    {
      StoresFiled(configs, history);
      var rest := configs.Keys;
      while rest != {}
        invariant rest <= configs.Keys
        invariant forall key | key in configs && key !in rest ::
                    AppNameToInt(configs[key].config.applicationType) != appType
      {
        var key :| key in rest;
        if AppNameToInt(configs[key].config.applicationType) == appType {
          return Some(configs[key].config);
        }
        rest := rest - {key};
      }
      if All in configs {
        return Some(configs[All].config);
      }
      return None;
    }
  }
}
