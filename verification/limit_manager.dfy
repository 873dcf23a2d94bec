/**
  The table of limits as the daemon holds it: a map to limit objects that are updated in
  place (service/authenticate/manager.go). Every method is specified by the step of the
  table value it performs, so in particular no limit object is shared between two cells.
 */
module LimitManagers {
  import opened AuthTypes
  import opened Limits
  import opened LimitObjects
  import opened LimitTables

  class LimitManager {
    const config: seq<ConfigEntry>
    ghost const rules: Rules
    var users: set<UserKey>
    var limits: map<Key, Limit>

    /** Every limit object is stored under its own user and type, so it is shared with no other cell. */
    ghost predicate Valid()
      reads this
    {
      && Usable(rules)
      && (forall p | p in limits ::
            p.type0 in rules && limits[p].home == p && limits[p].type0 == p.type0 && limits[p].config == rules[p.type0])
    }

    /** Every user has a limit for every type. */
    ghost predicate Complete()
      reads this
    {
      forall p :: p in limits <==> p.user in users && p.type0 in rules
    }

    ghost function View(): Table<Record>
      reads this, limits.Values
    {
      Table(users, map p | p in limits :: limits[p].AsRecord())
    }

    constructor (config: seq<ConfigEntry>)
      requires Usable(Resolve(config))
      ensures Valid() && Complete() && this.config == config && rules == Resolve(config) && View() == Table({}, map[])
    {
      this.config, rules := config, Resolve(config);
      users, limits := {}, map[];
    }

    method AllowTx(k: UserKey, t: AuthType, now: int) returns (allowed: bool)
      requires Valid()
      modifies limits.Values
      ensures Valid()
      ensures View() == TableStep(rules, old(View()), Op.AllowTx(k, t, now))
      ensures Permission(allowed) == TableOutput(rules, old(View()), Op.AllowTx(k, t, now))
    {
      allowed := false;
      if Key(k, t) in limits {
        var verdict := limits[Key(k, t)].Allow(now);
        allowed := verdict.Allowed?;
      }
      UpdatedTable(rules, old(View()), View(), OneLimit(k, t), Queried(now));
    }

    method Fail(k: UserKey, t: AuthType, now: int)
      requires Valid()
      modifies limits.Values
      ensures Valid()
      ensures View() == TableStep(rules, old(View()), Op.Fail(k, t, now))
    {
      if Key(k, t) in limits {
        limits[Key(k, t)].Fail(now);
      }
      UpdatedTable(rules, old(View()), View(), OneLimit(k, t), Failed(now));
    }

    method Success(k: UserKey, t: AuthType, ghost now: int)
      requires Valid()
      modifies limits.Values
      ensures Valid()
      ensures View() == TableStep(rules, old(View()), Op.Success(k, t, now))
    {
      if Key(k, t) in limits {
        limits[Key(k, t)].Reset();
      }
      UpdatedTable(rules, old(View()), View(), OneLimit(k, t), Succeeded(now));
    }

    /** Clears each limit of the user once, in whatever order the map is walked. */
    method ClearEach(k: UserKey, ghost cleared: map<Key, Record>)
      requires cleared.Keys == limits.Keys && Valid()
      requires forall p | p in limits :: cleared[p] == ClearRecord(limits[p].config, limits[p].AsRecord())
      modifies limits.Values
      ensures forall p | p in limits ::
          limits[p].AsRecord() == if p.user == k then cleared[p] else old(limits[p].AsRecord())
    {
      var rest := set p | p in limits && p.user == k;
      while rest != {}
        invariant forall p | p in rest :: p in limits && p.user == k
        invariant forall p | p in limits ::
                    limits[p].AsRecord() == if p.user == k && p !in rest then cleared[p] else old(limits[p].AsRecord())
      {
        var p :| p in rest;
        limits[p].Clear();
        rest := rest - {p};
      }
    }

    method ResetLimits(k: UserKey, ghost now: int)
      requires Valid()
      modifies limits.Values
      ensures Valid()
      ensures View() == TableStep(rules, old(View()), Op.ResetLimits(k, now))
    {
      ghost var before := View();
      ClearEach(k, map p | p in limits :: ClearRecord(limits[p].config, limits[p].AsRecord()));
      UpdatedTable(rules, before, View(), WholeUser(k), FullyReset(now));
    }

    /** The limits the configuration lists; a later element for a type replaces an earlier one. */
    method ConfiguredLimits(ghost user: UserKey) returns (entry: map<AuthType, Limit>)
      ensures entry.Keys == ConfiguredTypes(config)
      ensures forall t | t in entry :: fresh(entry[t]) && IsNew(entry[t], Key(user, t), ConfigFor(config, t))
    {
      entry := map[];
      for i := 0 to |config|
        invariant entry.Keys == ConfiguredTypes(config[..i])
        invariant forall t | t in entry :: fresh(entry[t]) && IsNew(entry[t], Key(user, t), ConfigFor(config[..i], t))
      {
        var type0 := config[i].type0;
        ConfigGrows(config, i);
        if AuthTypeToFlag(type0) != Flag(0) {
          var l := new Limit(type0, config[i].limits, user);
          entry := entry[type0 := l];
        }
      }
      assert config[..|config|] == config;
    }

    /** Each of the types in rest gets a limit that is never in force. */
    method AddUnlimited(ghost user: UserKey, configured: map<AuthType, Limit>, types: set<AuthType>)
      returns (entry: map<AuthType, Limit>)
      requires types !! configured.Keys
      ensures entry.Keys == configured.Keys + types
      ensures forall t | t in configured :: entry[t] == configured[t]
      ensures forall t | t in types :: fresh(entry[t]) && IsNew(entry[t], Key(user, t), UNLIMITED)
    {
      entry := configured;
      var rest := types;
      while rest != {}
        invariant rest <= types && entry.Keys == configured.Keys + (types - rest)
        invariant forall t | t in configured :: entry[t] == configured[t]
        invariant forall t | t in types - rest :: fresh(entry[t]) && IsNew(entry[t], Key(user, t), UNLIMITED)
      {
        var t :| t in rest;
        var l := new Limit(t, UNLIMITED, user);
        entry, rest := entry[t := l], rest - {t};
      }
    }

    /** One limit per type; the types left out of the configuration are not limited. */
    method BuildEntry(ghost user: UserKey) returns (entry: map<AuthType, Limit>)
      ensures entry.Keys == Resolve(config).Keys
      ensures forall t | t in entry :: fresh(entry[t]) && IsNew(entry[t], Key(user, t), Resolve(config)[t])
    {
      var configured := ConfiguredLimits(user);
      entry := AddUnlimited(user, configured, ALL_AUTH_TYPES - configured.Keys);
      Resolved(config);
    }

    method Install(k: UserKey, entry: map<AuthType, Limit>)
      requires Valid() && Complete() && k !in users && entry.Keys == rules.Keys
      requires forall t | t in entry :: IsNew(entry[t], Key(k, t), rules[t])
      modifies this
      ensures Valid() && Complete() && users == old(users) + {k}
      ensures forall p :: p in limits <==> p in old(limits) || (p.user == k && p.type0 in entry)
      ensures forall p | p in limits :: limits[p] == if p in old(limits) then old(limits)[p] else entry[p.type0]
    {
      var keys := set t | t in entry :: Key(k, t);
      limits := limits + map p | p in keys :: entry[p.type0];
      users := users + {k};
    }

    method InitLimitsByUsername(k: UserKey)
      requires Valid() && Complete() && rules == Resolve(config)
      modifies this
      ensures Valid() && Complete()
      ensures View() == old(View()).Open(k, FreshEntry(rules))
      ensures fresh(limits.Values - old(limits.Values))
    {
      if k in users {
        return;
      }
      var entry := BuildEntry(k);
      Install(k, entry);
      OpenedTable(old(View()), View(), k, FreshEntry(rules));
    }

    method ExportAt(p: Key, now: int) returns (shown: Export)
      requires Valid() && p in limits
      modifies limits[p]
      ensures shown == ExportRecord(limits[p].config, old(limits[p].AsRecord()), now)
      ensures limits[p].AsRecord() == AllowRecord(limits[p].config, old(limits[p].AsRecord()), now).0
    {
      var verdict := limits[p].Allow(now);
      shown := Export(limits[p].unlockSecs, limits[p].numFailures, verdict);
    }

    /** Queries each limit of the user once, in whatever order the map is walked. */
    method QueryEach(k: UserKey, now: int, ghost queried: map<Key, Record>, ghost exports: map<Key, Export>)
      returns (result: map<AuthType, Export>)
      requires Valid() && limits.Keys == queried.Keys == exports.Keys
      requires forall p | p in limits :: queried[p] == AllowRecord(limits[p].config, limits[p].AsRecord(), now).0
      requires forall p | p in limits :: exports[p] == ExportRecord(limits[p].config, limits[p].AsRecord(), now)
      modifies limits.Values
      ensures forall p | p in limits ::
          limits[p].AsRecord() == if p.user == k then queried[p] else old(limits[p].AsRecord())
      ensures forall t :: t in result <==> Key(k, t) in limits
      ensures forall t | t in result :: result[t] == exports[Key(k, t)]
    {
      result := map[];
      var rest := set p | p in limits && p.user == k;
      while rest != {}
        invariant forall p | p in rest :: p in limits && p.user == k
        invariant forall p | p in limits ::
                    limits[p].AsRecord() == if p.user == k && p !in rest then queried[p] else old(limits[p].AsRecord())
        invariant forall t :: t in result <==> Key(k, t) in limits && Key(k, t) !in rest
        invariant forall t | t in result :: result[t] == exports[Key(k, t)]
      {
        var p :| p in rest;
        var shown := ExportAt(p, now);
        result, rest := result[limits[p].type0 := shown], rest - {p};
      }
    }

    /** The daemon publishes a list in the order of the walk; the result is that list by type. */
    method GetLimits(k: UserKey, now: int) returns (result: map<AuthType, Export>)
      requires Valid()
      modifies limits.Values
      ensures Valid()
      ensures View() == TableStep(rules, old(View()), Op.GetLimits(k, now))
      ensures Published(result) == TableOutput(rules, old(View()), Op.GetLimits(k, now))
    {
      ghost var before := View();
      result := QueryEach(k, now,
                          map p | p in limits :: AllowRecord(limits[p].config, limits[p].AsRecord(), now).0,
                          map p | p in limits :: ExportRecord(limits[p].config, limits[p].AsRecord(), now));
      UpdatedTable(rules, before, View(), WholeUser(k), Queried(now));
      ExportedUser(rules, before, k, now, result);
    }

    method RemoveAbsentUsers(existUserList: seq<string>)
      requires Valid() && Complete()
      modifies this
      ensures Valid() && Complete()
      ensures users == set k | k in old(users) && k.username in existUserList
      ensures forall p :: p in limits <==> p in old(limits) && p.user.username in existUserList
      ensures forall p | p in limits :: limits[p] == old(limits)[p]
    {
      var rest := users;
      while rest != {}
        invariant Valid() && rest <= users <= old(users)
        invariant forall k | k in old(users) :: k in users <==> k in rest || k.username in existUserList
        invariant forall p :: p in limits <==> p in old(limits) && p.user in users
        invariant forall p | p in limits :: limits[p] == old(limits)[p]
      {
        var k :| k in rest;
        rest := rest - {k};
        if k.username !in existUserList {
          users := users - {k};
          limits := map p | p in limits && p.user != k :: limits[p];
        }
      }
    }

    method KeepOnly(existUserList: seq<string>)
      requires Valid() && Complete()
      modifies this
      ensures Valid() && Complete() && limits.Values <= old(limits.Values)
      ensures View() == old(View()).Keep(set n | n in existUserList)
    {
      RemoveAbsentUsers(existUserList);
      KeptTable(old(View()), View(), set n | n in existUserList);
    }

    /** The handler of a change of the user list. */
    method UserListChanged(existUserList: seq<string>, ghost now: int)
      requires Valid() && Complete()
      modifies this, limits.Values
      ensures Valid() && Complete()
      ensures View() == TableStep(rules, old(View()), KeepUsers((set n | n in existUserList), now))
    {
      KeepOnly(existUserList);
      ResetLimits(UserKey(Local, ""), now);
    }

    method ListUser(k: UserKey) returns (list: seq<Saved>)
      requires Valid()
      ensures Lists(View(), k, list)
    {
      list := [];
      var rest := set p | p in limits && p.user == k;
      while rest != {}
        invariant forall p | p in rest :: p in limits && p.user == k
        invariant forall s | s in list :: Key(k, s.type0) in limits && Key(k, s.type0) !in rest
                    && s == SavedRecord(s.type0, limits[Key(k, s.type0)].AsRecord())
        invariant forall p | p in limits && p.user == k && p !in rest ::
            SavedRecord(p.type0, limits[p].AsRecord()) in list
        invariant forall i, j | 0 <= i < j < |list| :: list[i].type0 != list[j].type0
      {
        var p :| p in rest;
        var l := limits[p];
        list, rest := list + [Saved(l.type0, l.numFailures, l.lockAt)], rest - {p};
      }
    }

    method GetLimitStates() returns (states: map<UserKey, seq<Saved>>)
      requires Valid()
      ensures Saves(View(), states)
    {
      states := map[];
      var rest := users;
      while rest != {}
        invariant rest <= users && states.Keys == users - rest
        invariant forall k | k in states :: Lists(View(), k, states[k])
      {
        var k :| k in rest;
        var list := ListUser(k);
        states, rest := states[k := list], rest - {k};
      }
    }

    /** Takes over the saved failure counts and lock times of a user whose limits are new. */
    method LoadUserStates(k: UserKey, states: seq<Saved>)
      requires Valid()
      requires forall t | t in rules :: Key(k, t) in limits && limits[Key(k, t)].AsRecord() == FreshEntry(rules)[t]
      modifies limits.Values
      ensures forall p | p in limits ::
                limits[p].AsRecord() == if p.user == k then LoadUser(rules, states)[p.type0]
                    else old(limits[p].AsRecord())
    {
      for i := 0 to |states|
        invariant forall p | p in limits ::
                    limits[p].AsRecord()
                    == if p.user == k then LoadList(FreshEntry(rules), states[..i])[p.type0]
                        else old(limits[p].AsRecord())
      {
        LoadOneMore(FreshEntry(rules), states, i);
        if Key(k, states[i].type0) in limits {
          limits[Key(k, states[i].type0)].Restore(states[i].numFailures, states[i].lockAt);
        }
      }
      assert states[..|states|] == states;
    }

    method LoadNewUser(k: UserKey, states: seq<Saved>)
      requires Valid() && Complete() && rules == Resolve(config) && k !in users
      modifies this, limits.Values
      ensures Valid() && Complete() && users == old(users) + {k} && fresh(limits.Values - old(limits.Values))
      ensures forall p | p in limits ::
                limits[p].AsRecord()
                == if p.user == k then LoadUser(rules, states)[p.type0] else old(View()).cells[p]
    {
      InitLimitsByUsername(k);
      OpenedCells(old(View()), k, FreshEntry(rules));
      assert forall p | p in limits :: limits[p].AsRecord() == View().cells[p];
      LoadUserStates(k, states);
    }

    /** Rebuilds the table of a daemon that has just started from what was saved. */
    method LoadLimitStates(saved: map<UserKey, seq<Saved>>)
      requires Valid() && Complete() && rules == Resolve(config) && users == {}
      modifies this
      ensures Valid() && Complete()
      ensures View() == LoadTable(rules, saved)
    {
      var rest := saved.Keys;
      while rest != {}
        invariant Valid() && Complete() && fresh(limits.Values)
        invariant rest <= saved.Keys && users == saved.Keys - rest
        invariant forall p | p in limits :: limits[p].AsRecord() == LoadUser(rules, saved[p.user])[p.type0]
      {
        var k :| k in rest;
        rest := rest - {k};
        LoadNewUser(k, saved[k]);
      }
      LoadedTable(rules, saved, View());
    }

    /** Loads the state file, or the older one if there is none. */
    method LoadStateFiles(v1: StateFile<map<UserKey, seq<Saved>>>, older: StateFile<map<string, seq<Saved>>>)
      requires Valid() && Complete() && rules == Resolve(config) && users == {}
      modifies this
      ensures Valid() && Complete()
      ensures View() == LoadTable(rules, ChosenStates(v1, older))
    {
      var states: map<UserKey, seq<Saved>> := map[];
      match v1 {
        case Decoded(all) => states := all;
        case Refused(partial) => states := partial;
        case Missing =>
          if older.Decoded? {
            var local := set n | n in older.states :: UserKey(Local, n);
            var remote := set n | n in older.states :: UserKey(Remote, n);
            states := map k: UserKey | k in local + remote :: older.states[k.username];
          }
      }
      assert states == ChosenStates(v1, older);
      LoadLimitStates(states);
    }
  }
}
