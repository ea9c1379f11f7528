/**
 The tunnel object: its list of config objects, kept in step with the manager's lists
 and with the text in the configuration.
 */
module TunnelList {
  import opened Lists
  import opened CText
  import opened Store
  import opened Config
  import opened Tunnel
  import opened TunnelObject
  import opened TunnelServers

  /** A config object; it is told apart from others by identity. */
  class TunnelConfig {
    const settings: Settings

    constructor (settings: Settings)
      ensures this.settings == settings
    {
      this.settings := settings;
    }
  }

  function SettingsOf(configs: seq<TunnelConfig>): (l: seq<Settings>)
    ensures |l| == |configs| && forall i :: 0 <= i < |l| ==> l[i] == configs[i].settings
  {
    seq(|configs|, i requires 0 <= i < |configs| => configs[i].settings)
  }

  lemma SettingsConcat(a: seq<TunnelConfig>, b: seq<TunnelConfig>)
    ensures SettingsOf(a + b) == SettingsOf(a) + SettingsOf(b)
  {
  }

  /** The configuration after linphone_tunnel_save_config. */
  function SaveList(st: Sections, l: seq<Settings>): Sections {
    var text := ListText(l);
    Set(st, "tunnel", "server_addresses", if text.Some? then text.value else "")
  }

  /** The configs a load adds. */
  function LoadList(st: Sections): seq<Settings> {
    var text := Get(st, "tunnel", "server_addresses");
    if text.Some? then ReadWords(Words(text.value)) else []
  }

  /** Whatever was saved is what a load finds: the configs with a host, normalised. */
  lemma {:induction false} LoadUndoesSave(st: Sections, l: seq<Settings>)
    requires Wf(st) && AllClean(l)
    ensures Wf(SaveList(st, l)) && LoadList(SaveList(st, l)) == Saved(l)
  {
    hide Wf, Set, ListText, Words, ReadWords, Saved, AllClean;
    var text := ListText(l);
    AfterSet(st, "tunnel", "server_addresses", if text.Some? then text.value else "", "tunnel", "server_addresses");
    ListRoundTrip(l);
  }

  /** Where and how the list is stored: one config is its text, one more goes after a blank. */
  lemma SavedText(st: Sections, l: seq<Settings>, c: Settings)
    requires Wf(st) && c.host.Some?
    ensures Get(SaveList(st, []), "tunnel", "server_addresses") == None
    ensures Get(SaveList(st, l + [c]), "tunnel", "server_addresses")
            == match ListText(l)
               case None => ToText(c)
               case Some(s) => Some(s + " " + ToText(c).value)
  {
    hide Wf, Set, ToText;
    var after := l + [c];
    assert after[..|after| - 1] == l && after[|after| - 1] == c;
    TextIsNotEmpty(c);
    AfterSet(st, "tunnel", "server_addresses", "", "tunnel", "server_addresses");
    AfterSet(st, "tunnel", "server_addresses", ListText(after).value, "tunnel", "server_addresses");
  }

  lemma TextIsNotEmpty(c: Settings)
    ensures c.host.Some? ==> ToText(c).Some? && ToText(c).value != ""
  {
  }

  class LinphoneTunnel {
    const manager: TunnelManager
    const config: LpConfig
    var configList: seq<TunnelConfig>

    ghost predicate Valid()
      reads this, manager, config, config.sections
    {
      config.Valid() && Agrees(manager.Value(), SettingsOf(configList))
    }

    constructor (manager: TunnelManager, config: LpConfig)
      requires config.Valid() && Agrees(manager.Value(), [])
      ensures Valid() && configList == [] && this.manager == manager && this.config == config
    {
      this.manager, this.config, configList := manager, config, [];
    }

    /** linphone_tunnel_save_config */
    method SaveConfig()
      requires config.Valid()
      modifies config, config.sections
      ensures config.Valid() && fresh(config.Owned() - old(config.Owned()))
      ensures config.store == SaveList(old(config.store), SettingsOf(configList))
    {
      var text := JoinTexts();
      config.SetString("tunnel", "server_addresses", if text.Some? then text.value else "");
    }

    /** The loop of linphone_tunnel_save_config. */
    method JoinTexts() returns (tmp: Option<string>)
      ensures tmp == ListText(SettingsOf(configList))
    {
      hide ToText;
      tmp := None;
      ghost var l := SettingsOf(configList);
      for i := 0 to |configList|
        invariant tmp == ListText(l[..i])
      {
        assert l[..i + 1][..i] == l[..i];
        var text := ToText(configList[i].settings);
        if text.Some? {
          tmp := if tmp.Some? then Some(tmp.value + " " + text.value) else text;
        }
      }
      assert l[..|l|] == l;
    }

    /** linphone_tunnel_add_server_intern */
    method AddServerIntern(c: TunnelConfig)
      requires Agrees(manager.Value(), SettingsOf(configList))
      modifies this, manager
      ensures configList == old(configList) + [c]
      ensures manager.Value() == AddToManager(old(manager.Value()), c.settings)
      ensures Agrees(manager.Value(), SettingsOf(configList))
    {
      hide Agrees, Manager.AddPairWithMirror, Manager.AddServerWithMirror, Manager.AddPair, Manager.AddServer, ToUnsigned;
      var s := c.settings;
      if s.mirrorPort != -1 {
        if s.host2.Some? {
          manager.AddServerPairWithMirror(s.host, s.port, s.host2, s.port2, s.mirrorPort, ToUnsigned(s.delay));
        } else {
          manager.AddServerWithMirror(s.host, s.port, s.mirrorPort, ToUnsigned(s.delay));
        }
      } else if s.host2.Some? {
        manager.AddServerPair(s.host, s.port, s.host2, s.port2);
      } else {
        manager.AddServer(s.host, s.port);
      }
      hide AddToManager;
      AddAgrees(old(manager.Value()), SettingsOf(configList), s);
      SettingsConcat(configList, [c]);
      assert SettingsOf([c]) == [s];
      configList := configList + [c];
    }

    /** linphone_tunnel_add_server */
    method AddServer(c: TunnelConfig)
      requires Valid()
      modifies this, manager, config, config.sections
      ensures Valid() && configList == old(configList) + [c]
      ensures config.store == SaveList(old(config.store), SettingsOf(configList))
    {
      AddServerIntern(c);
      SaveConfig();
    }

    /** linphone_tunnel_refresh_config: the manager's lists are built anew. */
    method RefreshConfig()
      modifies this, manager
      ensures configList == old(configList)
      ensures Agrees(manager.Value(), SettingsOf(configList))
      ensures manager.Value() == AddAll(old(manager.Value()).CleanServers(), SettingsOf(configList))
      ensures old(manager.Value().Inv()) ==> (manager.Value().Inv() <==> !old(manager.detecting))
    {
      hide Agrees, AddToManager, AddAll, Manager.Inv, Manager.CleanServers;
      NothingAdded(manager.Value().CleanServers());
      var oldList := configList;
      configList := [];
      manager.CleanServers();
      CleanAgrees(old(manager.Value()));
      assert SettingsOf([]) == [];
      for i := 0 to |oldList|
        invariant configList == oldList[..i] && Agrees(manager.Value(), SettingsOf(configList))
        invariant manager.Value() == AddAll(old(manager.Value()).CleanServers(), SettingsOf(configList))
      {
        SettingsConcat(configList, [oldList[i]]);
        AddAllSnoc(old(manager.Value()).CleanServers(), SettingsOf(configList), oldList[i].settings);
        assert SettingsOf([oldList[i]]) == [oldList[i].settings];
        AddServerIntern(oldList[i]);
      }
      if old(manager.Value().Inv()) {
        RefreshKeepsInvExactly(old(manager.Value()), SettingsOf(configList));
      }
    }

    /** linphone_tunnel_remove_server: one occurrence of the object goes, if there is one. */
    method RemoveServer(c: TunnelConfig)
      requires Valid()
      modifies this, manager, config, config.sections
      ensures Valid() && configList == RemoveFirst(old(configList), c)
      ensures config.store == if c in old(configList) then SaveList(old(config.store), SettingsOf(configList))
                              else old(config.store)
    {
      hide Agrees, Manager.CleanServers, AddAll, Manager.Inv;
      NothingToRemove(configList, c);
      if c in configList {
        configList := RemoveFirst(configList, c);
        RefreshConfig();
        SaveConfig();
      }
    }

    /** linphone_tunnel_clean_servers */
    method CleanServers()
      requires Valid()
      modifies this, manager, config, config.sections
      ensures Valid() && configList == []
      ensures config.store == SaveList(old(config.store), [])
    {
      manager.CleanServers();
      CleanAgrees(old(manager.Value()));
      configList := [];
      assert SettingsOf([]) == [];
      SaveConfig();
    }

    /** linphone_tunnel_load_config: the loop advances over one word at a time, and ends
        with the text although the condition it tests never changes. */
    method LoadConfig()
      requires Valid()
      modifies this, manager
      ensures Valid() && config.store == old(config.store)
      ensures SettingsOf(configList) == SettingsOf(old(configList)) + LoadList(config.store)
    {
      var found := config.HasEntry("tunnel", "server_addresses");
      if found {
        var address := config.GetString("tunnel", "server_addresses", "");
        LoadWords(address);
      } else {
        assert SettingsOf(configList) + [] == SettingsOf(configList);
      }
    }

    method LoadWords(address: string)
      requires Valid()
      modifies this, manager
      ensures Agrees(manager.Value(), SettingsOf(configList))
      ensures SettingsOf(configList) == SettingsOf(old(configList)) + ReadWords(Words(address))
    {
      hide Agrees, FromText, AddToManager;
      var it := address;
      ghost var all := SettingsOf(configList) + ReadWords(Words(address));
      while address != ""
        invariant Agrees(manager.Value(), SettingsOf(configList))
        invariant SettingsOf(configList) + ReadWords(Words(it)) == all
        decreases |it|
      {
        var tmp := Word(it);
        if tmp == "" {
          break;
        }
        ghost var rest := ReadWords(Words(AfterWord(it)));
        assert Words(it)[1..] == Words(AfterWord(it));
        it := AfterWord(it);
        var settings := ConfigFromString(tmp);
        if settings.Some? {
          var c := new TunnelConfig(settings.value);
          SettingsConcat(configList, [c]);
          assert SettingsOf([c]) == [settings.value];
          Assoc(SettingsOf(configList), [settings.value], rest);
          AddServerIntern(c);
        } else {
          assert [] + rest == rest;
        }
      }
      assert Words(it) == [];
    }
  }

  lemma NothingToRemove<T>(s: seq<T>, x: T)
    ensures x !in s ==> RemoveFirst(s, x) == s
  {
  }

  /** After a restart with the same setting, the manager is told what it was told before. */
  lemma RestartKeepsTheLists(st: Sections, l: seq<Settings>, before: Manager, after: Manager)
    requires Wf(st) && AllClean(l) && before.dual == after.dual
    requires Agrees(before, l) && Agrees(after, LoadList(SaveList(st, l)))
    ensures after.servers == before.servers && after.pairs == before.pairs && after.mirrors == before.mirrors
  {
    LoadUndoesSave(st, l);
    SavedAgrees(l, before.dual);
  }
}
