/**
 Applying a provisioning document to a running configuration: the numbered
 authentication sections are pruned, the document is imported, and the factory file is
 read on top. When is applying the same document again of no effect?
 */
module RemoteProvisioning {
  import opened Lists
  import opened CText
  import opened Store
  import opened LineSyntax
  import opened Codecs
  import opened Config
  import opened Printer
  import opened Provisioning
  import opened Headers

  /** A document that could not be read asks for nothing. */
  function PutsFor(doc: Option<Node>): seq<Put> {
    match doc
    case Some(root) => PutsOf(root)
    case None => []
  }

  function Load(st: Sections, doc: Option<Node>): Sections {
    match doc
    case Some(root) => Provision(st, root)
    case None => st
  }

  /** linphone_remote_provisioning_apply, with the text of the factory file. */
  function ApplyDoc(st: Sections, doc: Option<Node>, factory: string): Sections {
    ParseText(Load(PruneFrom(st, 0), doc), factory)
  }

  method ApplyProvisioning(config: LpConfig, doc: Option<Node>, factory: Option<string>)
    requires config.Valid() && (factory.Some? ==> '\0' !in factory.value)
    modifies config, config.sections
    ensures config.Valid()
    ensures config.store == ApplyDoc(old(config.store), doc, if factory.Some? then factory.value else "")
  {
    hide Wf, PruneFrom, Provision;
    PruneAuthInfo(config);
    if doc.Some? {
      XmlConvert(config, doc.value);
    }
    NoFactoryFile(config.store);
    if factory.Some? {
      config.ParseFile(factory.value);
    }
  }

  lemma NoFactoryFile(st: Sections)
    ensures ParseText(st, "") == st
  {
  }

  // ------------------------------------------------------------ the pruning, by name

  /** The section is auth_info_j, and auth_info_0 to auth_info_j are all there. */
  ghost predicate InRun(has: string -> bool, section: string) {
    exists j: nat :: section == AuthSection(j) && forall i: nat :: i <= j ==> has(AuthSection(i))
  }

  function Names(st: Sections): string -> bool {
    (name: string) => HasSection(st, name)
  }

  lemma {:induction false} AfterOthers(st: Sections, i: nat, n: nat, section: string, key: string)
    ensures Get(Others(st, i, n), section, key) == if Numbered(section, i, n) then None else Get(st, section, key)
    ensures HasSection(Others(st, i, n), section) <==> HasSection(st, section) && !Numbered(section, i, n)
  {
    if st != [] {
      hide Numbered, AuthSection;
      AfterOthers(st[1..], i, n, section, key);
      SkipFirst(st, section, key);
      if !Numbered(st[0].name, i, n) {
        var kept := [st[0]] + Others(st[1..], i, n);
        assert kept[1..] == Others(st[1..], i, n);
        SkipFirst(kept, section, key);
      }
    }
  }

  lemma SkipFirst(st: Sections, section: string, key: string)
    requires st != []
    ensures st[0].name == section ==> HasSection(st, section) && Get(st, section, key) == ItemValue(st[0].items, key)
    ensures st[0].name != section ==>
              && Get(st, section, key) == Get(st[1..], section, key)
              && HasSection(st, section) == HasSection(st[1..], section)
  {
  }

  lemma AfterPrune(st: Sections, section: string, key: string)
    requires Wf(st)
    ensures Wf(PruneFrom(st, 0))
    ensures Get(PruneFrom(st, 0), section, key) == if InRun(Names(st), section) then None else Get(st, section, key)
    ensures HasSection(PruneFrom(st, 0), section) <==> HasSection(st, section) && !InRun(Names(st), section)
  {
    hide Wf, AuthSection, Get, HasSection, PruneFrom, Others;
    var n := PruneRemovesTheRun(st, 0);
    AfterOthers(st, 0, n, section, key);
    assert InRun(Names(st), section) <==> Numbered(section, 0, n) by {
      RunIsNumbered(st, section, n);
    }
  }

  lemma RunIsNumbered(st: Sections, section: string, n: nat)
    requires !HasSection(st, AuthSection(n)) && forall j: nat :: j < n ==> HasSection(st, AuthSection(j))
    ensures InRun(Names(st), section) <==> Numbered(section, 0, n)
  {
    hide AuthSection, HasSection;
    assert !Names(st)(AuthSection(n));
    if InRun(Names(st), section) {
      var j: nat :| section == AuthSection(j) && forall i: nat :: i <= j ==> Names(st)(AuthSection(i));
      assert j < n;
    }
    if Numbered(section, 0, n) {
      var j: nat :| 0 <= j < n && section == AuthSection(j);
      assert forall i: nat :: i <= j ==> Names(st)(AuthSection(i));
    }
  }

  // ------------------------------------------------------ one application, key by key

  /** What the factory file gives a key. */
  function Factory(factory: string, section: string, key: string): Option<string> {
    Look(ToMap(ParseText([], factory)), section, key)
  }

  /** The sections after one application, the one of the default proxy left aside. */
  ghost predicate HasAfter(st: Sections, doc: Option<Node>, factory: string, section: string) {
    || (HasSection(st, section) && !InRun(Names(st), section))
    || Brings(PutsFor(doc), section)
    || HasSection(ParseText([], factory), section)
  }

  predicate IsDefaultProxy(section: string, key: string) {
    (section, key) == ("sip", "default_proxy")
  }

  /** The value of a key after one application that finds it with the value x. */
  function ValueAfter(
      doc: Option<Node>, factory: string, proxy: bool, section: string, key: string, x: Option<string>): Option<string>
  {
    var imported := Effect(PutsFor(doc), section, key, x);
    OrElse(Factory(factory, section, key),
           if doc.Some? && IsDefaultProxy(section, key) then FixedValue(proxy, imported) else imported)
  }

  lemma AfterLoad(st: Sections, doc: Option<Node>, section: string, key: string)
    requires Wf(st)
    ensures Wf(Load(st, doc))
    ensures var proxy := HasSection(st, "proxy_0") || Brings(PutsFor(doc), "proxy_0");
            var imported := Effect(PutsFor(doc), section, key, Get(st, section, key));
            && Get(Load(st, doc), section, key)
               == (if doc.Some? && IsDefaultProxy(section, key) then FixedValue(proxy, imported) else imported)
            && (section != "sip" ==>
                  HasSection(Load(st, doc), section) == (HasSection(st, section) || Brings(PutsFor(doc), section)))
  {
    hide Wf, FixDefaultProxy, FixedValue, ApplyPuts, Get, HasSection, PutsOf;
    AfterPuts(st, PutsFor(doc), section, key);
    AfterPuts(st, PutsFor(doc), "proxy_0", key);
    if doc.Some? {
      AfterFix(ApplyPuts(st, PutsFor(doc)), section, key);
    } else {
      NothingPut(st);
    }
  }

  lemma AfterFactory(st: Sections, factory: string, section: string, key: string)
    requires Wf(st)
    ensures Wf(ParseText(st, factory))
    ensures Get(ParseText(st, factory), section, key) == OrElse(Factory(factory, section, key), Get(st, section, key))
    ensures HasSection(ParseText(st, factory), section) <==> HasSection(st, section) || HasSection(ParseText([], factory), section)
  {
    hide Wf, ParseText, Get, HasSection;
    ParseIsOverride(st, factory);
    ToMapLook(st, section, key);
    ToMapLook(ParseText(st, factory), section, key);
    hide ToMap;
    assert (section, key) in ToMap(ParseText(st, factory))
           <==> (section, key) in ToMap(st) || (section, key) in ToMap(ParseText([], factory));
  }

  lemma NotNumbered(name: string, j: nat)
    requires name == "sip" || name == "proxy_0"
    ensures name != AuthSection(j)
  {
    assert AuthSection(j)[0] == 'a';
  }

  lemma AfterApply(st: Sections, doc: Option<Node>, factory: string, section: string, key: string)
    requires Wf(st)
    ensures Wf(ApplyDoc(st, doc, factory))
    ensures var proxy := HasSection(st, "proxy_0") || Brings(PutsFor(doc), "proxy_0");
            var x := if InRun(Names(st), section) then None else Get(st, section, key);
            Get(ApplyDoc(st, doc, factory), section, key) == ValueAfter(doc, factory, proxy, section, key, x)
    ensures section != "sip" ==> HasSection(ApplyDoc(st, doc, factory), section) == HasAfter(st, doc, factory, section)
  {
    hide Wf, PruneFrom, Load, ParseText, Get, HasSection, Factory, Effect, Brings, AuthSection, FixedValue;
    var pruned := PruneFrom(st, 0);
    AfterPrune(st, section, key);
    AfterPrune(st, "proxy_0", key);
    ProxyIsNotNumbered(st);
    AfterLoad(pruned, doc, section, key);
    AfterFactory(Load(pruned, doc), factory, section, key);
  }

  /** The factory file has the last word; without its word, a key of a pruned section has
      what the document gives it from nothing, and one that no entry names keeps its value. */
  lemma WhoDecides(st: Sections, doc: Option<Node>, factory: string, section: string, key: string)
    requires Wf(st) && section != "sip"
    ensures var after := Get(ApplyDoc(st, doc, factory), section, key);
            var given := Get(ParseText([], factory), section, key);
            && (given.Some? ==> after == given)
            && (given.None? && (forall i :: 0 <= i < |PutsFor(doc)| ==>
                                  (PutsFor(doc)[i].section, PutsFor(doc)[i].key) != (section, key))
                ==> after == if InRun(Names(st), section) then None else Get(st, section, key))
  {
    hide Wf, ApplyDoc, Get, HasSection, InRun, ParseText, PutsFor, ToMap;
    AfterApply(st, doc, factory, section, key);
    ToMapLook(ParseText([], factory), section, key);
    var x := if InRun(Names(st), section) then None else Get(st, section, key);
    if forall i :: 0 <= i < |PutsFor(doc)| ==> (PutsFor(doc)[i].section, PutsFor(doc)[i].key) != (section, key) {
      NotNamed(PutsFor(doc), section, key, x);
    }
  }

  lemma {:induction false} NotNamed(ps: seq<Put>, section: string, key: string, x: Option<string>)
    requires forall i :: 0 <= i < |ps| ==> (ps[i].section, ps[i].key) != (section, key)
    ensures Effect(ps, section, key, x) == x
    decreases |ps|
  {
    if ps != [] {
      assert (ps[0].section, ps[0].key) != (section, key);
      NotNamed(ps[1..], section, key, x);
    }
  }

  // ------------------------------------------------------- applying the document again

  /** The numbered section lies in the run that one application leaves. */
  ghost predicate InRunAfter(st: Sections, doc: Option<Node>, factory: string, section: string) {
    InRun((name: string) => HasAfter(st, doc, factory, name), section)
  }

  /** An older section that the first application did not prune continues the run it
      leaves, with a value that neither the document nor the factory file gives. */
  ghost predicate OldValueStays(st: Sections, doc: Option<Node>, factory: string) {
    exists section, key :: IsOldValue(st, doc, factory, section, key)
  }

  ghost predicate IsOldValue(st: Sections, doc: Option<Node>, factory: string, section: string, key: string) {
    && InRunAfter(st, doc, factory, section) && !InRun(Names(st), section)
    && Get(st, section, key).Some?
    && !Forces(PutsFor(doc), section, key)
    && Effect(PutsFor(doc), section, key, None) != Get(st, section, key)
    && Factory(factory, section, key).None?
  }

  predicate Unset(x: Option<string>) {
    match x
    case Some(s) => ReadInt(s) == -1
    case None => true
  }

  /** Only the factory file has a first proxy, and nothing says which one is the default:
      the fix-up, done before that file is read, finds the proxy the second time. */
  predicate ProxyComesTooLate(st: Sections, doc: Option<Node>, factory: string) {
    && doc.Some?
    && !HasSection(st, "proxy_0") && !Brings(PutsFor(doc), "proxy_0")
    && HasSection(ParseText([], factory), "proxy_0")
    && Factory(factory, "sip", "default_proxy").None?
    && Unset(Effect(PutsFor(doc), "sip", "default_proxy", Get(st, "sip", "default_proxy")))
  }

  lemma FixIsIdle(x: Option<string>)
    ensures FixedValue(true, x) == x <==> !Unset(x)
    ensures FixedValue(false, x) == x
  {
    hide FormatInt, ReadInt;
    ReadIntBack(0);
  }

  /** A second pass over one key, from what the first pass left. */
  lemma PassTwice(
      doc: Option<Node>, factory: string, proxy: bool, late: bool, section: string, key: string, x: Option<string>)
    ensures var y := ValueAfter(doc, factory, proxy, section, key, x);
            ValueAfter(doc, factory, proxy || late, section, key, y) == y
            <==> !(doc.Some? && IsDefaultProxy(section, key) && !proxy && late
                   && Factory(factory, section, key).None?
                   && Unset(Effect(PutsFor(doc), section, key, x)))
  {
    hide Effect, Forces, Factory, FixedValue, Unset;
    var ps := PutsFor(doc);
    var y := ValueAfter(doc, factory, proxy, section, key, x);
    if Factory(factory, section, key).None? {
      if doc.Some? && IsDefaultProxy(section, key) && (proxy || !late) {
        EffectThenFix(ps, section, key, proxy, x);
      } else {
        FixIsIdle(Effect(ps, section, key, x));
        EffectTwice(ps, section, key, x, Effect(ps, section, key, x));
      }
    }
  }

  /** A pass over a key of a pruned section gives the same as a pass over its old value,
      unless that value survives. */
  lemma PassFromNothing(
      doc: Option<Node>, factory: string, proxy: bool, late: bool, section: string, key: string, x: Option<string>)
    requires section != "sip"
    ensures ValueAfter(doc, factory, proxy || late, section, key, None) == ValueAfter(doc, factory, proxy, section, key, x)
            <==> !(x.Some? && !Forces(PutsFor(doc), section, key)
                   && Effect(PutsFor(doc), section, key, None) != x && Factory(factory, section, key).None?)
  {
    hide Effect, Forces, Factory, FixedValue;
    var ps := PutsFor(doc);
    if x.Some? {
      if Forces(ps, section, key) {
        ForcedEffect(ps, section, key, x, None);
      } else {
        UnforcedEffect(ps, section, key, x);
      }
    }
  }

  lemma RunAfterIsRun(st: Sections, doc: Option<Node>, factory: string, section: string)
    requires Wf(st)
    ensures InRun(Names(ApplyDoc(st, doc, factory)), section) == InRunAfter(st, doc, factory, section)
    ensures InRunAfter(st, doc, factory, section) ==> section != "sip"
    ensures InRun(Names(st), section) ==> section != "sip"
  {
    hide Wf, HasAfter, ApplyDoc, AuthSection, HasSection;
    var once := ApplyDoc(st, doc, factory);
    forall i: nat
      ensures AuthSection(i) != "sip"
      ensures HasSection(once, AuthSection(i)) == HasAfter(st, doc, factory, AuthSection(i))
    {
      NotNumbered("sip", i);
      AfterApply(st, doc, factory, AuthSection(i), "");
    }
    assert forall i: nat :: Names(once)(AuthSection(i)) == HasAfter(st, doc, factory, AuthSection(i));
  }

  /** One key: the second application leaves it as the first did, or one of the two
      conditions shows at this very key. */
  lemma TwiceAt(st: Sections, doc: Option<Node>, factory: string, section: string, key: string)
    requires Wf(st)
    ensures var once := ApplyDoc(st, doc, factory);
            Get(ApplyDoc(once, doc, factory), section, key) == Get(once, section, key)
            <==> !IsOldValue(st, doc, factory, section, key)
                 && !(IsDefaultProxy(section, key) && ProxyComesTooLate(st, doc, factory))
  {
    hide Wf, ApplyDoc, Get, HasSection, Effect, Forces, Brings, Factory, ValueAfter, InRun, Unset, ParseText;
    var once := ApplyDoc(st, doc, factory);
    AfterApply(st, doc, factory, section, key);
    AfterApply(st, doc, factory, "proxy_0", key);
    AfterApply(once, doc, factory, section, key);
    RunAfterIsRun(st, doc, factory, section);
    ProxyIsNotNumbered(st);
    var proxy := HasSection(st, "proxy_0") || Brings(PutsFor(doc), "proxy_0");
    var late := HasSection(ParseText([], factory), "proxy_0");
    assert (HasSection(once, "proxy_0") || Brings(PutsFor(doc), "proxy_0")) == (proxy || late);
    var x := if InRun(Names(st), section) then None else Get(st, section, key);
    if InRunAfter(st, doc, factory, section) {
      PassFromNothing(doc, factory, proxy, late, section, key, x);
    } else {
      PassTwice(doc, factory, proxy, late, section, key, x);
    }
  }

  lemma ProxyIsNotNumbered(st: Sections)
    ensures !InRun(Names(st), "proxy_0") && "proxy_0" != "sip"
  {
    hide AuthSection;
    assert |"proxy_0"| != |"sip"|;
    forall j: nat
      ensures "proxy_0" != AuthSection(j)
    {
      NotNumbered("proxy_0", j);
    }
  }

  /** Applying the same document again changes no lookup if and only if no older section
      with a value of its own continues the run, and the fix-up has not missed a proxy. */
  lemma ApplyTwiceExactly(st: Sections, doc: Option<Node>, factory: string)
    requires Wf(st)
    ensures var once := ApplyDoc(st, doc, factory);
            ToMap(ApplyDoc(once, doc, factory)) == ToMap(once)
            <==> !OldValueStays(st, doc, factory) && !ProxyComesTooLate(st, doc, factory)
  {
    hide Wf, ApplyDoc, Get, IsOldValue, ProxyComesTooLate;
    var once := ApplyDoc(st, doc, factory);
    var twice := ApplyDoc(once, doc, factory);
    forall section, key
      ensures Get(twice, section, key) == Get(once, section, key)
              <==> !IsOldValue(st, doc, factory, section, key)
                   && !(IsDefaultProxy(section, key) && ProxyComesTooLate(st, doc, factory))
      ensures Look(ToMap(once), section, key) == Get(once, section, key)
      ensures Look(ToMap(twice), section, key) == Get(twice, section, key)
    {
      TwiceAt(st, doc, factory, section, key);
      ToMapLook(once, section, key);
      ToMapLook(twice, section, key);
    }
    hide ToMap;
    if ToMap(twice) == ToMap(once) {
      assert Get(twice, "sip", "default_proxy") == Get(once, "sip", "default_proxy");
      assert IsDefaultProxy("sip", "default_proxy");
    } else if !OldValueStays(st, doc, factory) && !ProxyComesTooLate(st, doc, factory) {
      ToMapIs(twice, ToMap(once));
    }
  }

  /** In particular when the numbered sections have no gap and a first proxy, if the
      factory file has one, is known without it. */
  lemma ApplyTwiceWithoutGaps(st: Sections, doc: Option<Node>, factory: string)
    requires Wf(st)
    requires forall j: nat :: HasSection(st, AuthSection(j)) ==> InRun(Names(st), AuthSection(j))
    requires HasSection(ParseText([], factory), "proxy_0") ==>
               HasSection(st, "proxy_0") || Brings(PutsFor(doc), "proxy_0")
    ensures var once := ApplyDoc(st, doc, factory);
            ToMap(ApplyDoc(once, doc, factory)) == ToMap(once)
  {
    hide Wf, ApplyDoc, ToMap, Brings, ParseText, HasSection, IsOldValue, InRun;
    ApplyTwiceExactly(st, doc, factory);
    forall section, key
      ensures !IsOldValue(st, doc, factory, section, key)
    {
      NoOldValue(st, doc, factory, section, key);
    }
  }

  lemma NoOldValue(st: Sections, doc: Option<Node>, factory: string, section: string, key: string)
    requires forall j: nat :: HasSection(st, AuthSection(j)) ==> InRun(Names(st), AuthSection(j))
    ensures !IsOldValue(st, doc, factory, section, key)
  {
    hide Effect, Forces, Factory, HasAfter, AuthSection, FindSection;
    assert Get(st, section, key).Some? ==> HasSection(st, section);
    hide HasSection, Get;
    assert InRunAfter(st, doc, factory, section) ==> exists j: nat :: section == AuthSection(j);
  }

  /** A document with one section and one entry. */
  function NewUser(): Node {
    Element("config", [], [Element("section", [Attr("name", AuthSection(0))],
                                   [Element("entry", [Attr("name", "username")], [Text("new")])])])
  }

  lemma PutsOfNewUser()
    ensures PutsOf(NewUser()) == [Put(AuthSection(0), "username", "new", false)]
  {
    hide AuthSection;
    var (section, attr) := (NewUser().children[0], Attr("name", "username"));
    var entry := section.children[0];
    assert NameOf([attr]) == Some("username") && NameOf(section.attrs) == Some(AuthSection(0));
    assert attr != Attr("overwrite", "true") by {
      assert |"name"| != |"overwrite"|;
    }
    assert PutsOfEntry(entry, AuthSection(0)) == [Put(AuthSection(0), "username", "new", false)];
    assert section.children[1..] == [] && NewUser().children[1..] == [];
  }

  /** A gap is enough for the condition to fail: auth_info_1 is left alone, a document
      brings auth_info_0, and then auth_info_1 is pruned by the second application. */
  lemma GapIsPrunedLater()
    ensures var (st, doc) := (Set([], AuthSection(1), "username", "old"), Some(NewUser()));
            var once := ApplyDoc(st, doc, "");
            && Get(once, AuthSection(1), "username") == Some("old")
            && Get(ApplyDoc(once, doc, ""), AuthSection(1), "username") == None
  {
    var root := NewUser();
    PutsOfNewUser();
    hide NewUser;
    hide Set, Get, HasSection, ApplyDoc, AuthSection, InRun, HasAfter, PutsOf, ParseText, ToMap;
    var (st, doc, name) := (Set([], AuthSection(1), "username", "old"), Some(root), AuthSection(1));
    var once := ApplyDoc(st, doc, "");
    GapAfter(st, root);
    AuthSectionsDiffer(0, 1);
    NotNumbered("sip", 1);
    var p := Put(AuthSection(0), "username", "new", false);
    assert [p][0] == p && [p][1..] == [];
    AfterApply(st, doc, "", name, "username");
    AfterApply(once, doc, "", name, "username");
    RunAfterIsRun(st, doc, "", name);
    assert Factory("", name, "username") == None by {
      NoFactoryFile([]);
      ToMapLook([], name, "username");
      EmptyStore(name, "username");
    }
    assert Effect([p], name, "username", Some("old")) == Some("old");
    assert Effect([p], name, "username", None) == None;
    assert PutsFor(doc) == [p];
  }

  lemma EmptyStore(section: string, key: string)
    ensures Wf([]) && Get([], section, key) == None && !HasSection([], section)
  {
  }

  lemma GapAfter(st: Sections, root: Node)
    requires st == Set([], AuthSection(1), "username", "old")
    requires PutsOf(root) == [Put(AuthSection(0), "username", "new", false)]
    ensures Wf(st) && Get(st, AuthSection(1), "username") == Some("old")
    ensures !InRun(Names(st), AuthSection(1)) && InRunAfter(st, Some(root), "", AuthSection(1))
  {
    hide Set, Get, HasSection, AuthSection, PutsOf, ParseText;
    EmptyStore(AuthSection(0), "username");
    EmptyStore(AuthSection(1), "username");
    AuthSectionsDiffer(0, 1);
    AfterSet([], AuthSection(1), "username", "old", AuthSection(0), "username");
    AfterSet([], AuthSection(1), "username", "old", AuthSection(1), "username");
    assert !Names(st)(AuthSection(0));
    OnlyRun(st, 1);
    var has := (name: string) => HasAfter(st, Some(root), "", name);
    assert has(AuthSection(0)) && has(AuthSection(1));
    assert forall i: nat :: i <= 1 ==> has(AuthSection(i));
  }

  /** A numbered section after a gap is not in the run. */
  lemma OnlyRun(st: Sections, j: nat)
    requires !Names(st)(AuthSection(0))
    ensures !InRun(Names(st), AuthSection(j))
  {
    hide AuthSection, HasSection;
  }

  /** A first proxy that only the factory file has becomes the default one application late. */
  lemma ProxyIsFoundLater()
    ensures var (doc, factory) := (Some(Element("config", [], [])), "[proxy_0]\n\n");
            var once := ApplyDoc([], doc, factory);
            && Get(once, "sip", "default_proxy") == None
            && Get(ApplyDoc(once, doc, factory), "sip", "default_proxy") == Some("0")
  {
    hide Get, HasSection, ApplyDoc, InRun, ParseText, ToMap, FormatInt;
    var (doc, factory) := (Some(Element("config", [], [])), "[proxy_0]\n\n");
    var once := ApplyDoc([], doc, factory);
    LoneProxy();
    EmptyStore("sip", "default_proxy");
    EmptyStore("proxy_0", "");
    AfterApply([], doc, factory, "sip", "default_proxy");
    AfterApply([], doc, factory, "proxy_0", "");
    AfterApply(once, doc, factory, "sip", "default_proxy");
    ProxyIsNotNumbered([]);
    ToMapLook(ParseText([], factory), "sip", "default_proxy");
    FormatZero();
  }

  lemma LoneProxy()
    ensures var st := ParseText([], "[proxy_0]\n\n");
            HasSection(st, "proxy_0") && Get(st, "sip", "default_proxy") == None
  {
    hide ParseText, FileText;
    var st := [NewSection("proxy_0")];
    assert PrintableSection(st[0]);
    ParseUndoesPrint(st);
    assert FileText(st) == "[proxy_0]\n\n" by {
      TextOfEmptySection("proxy_0");
    }
    assert "proxy_0" != "sip" by {
      assert |"proxy_0"| != |"sip"|;
    }
  }

  lemma TextOfEmptySection(name: string)
    ensures FileText([NewSection(name)]) == "[" + name + "]\n\n"
  {
    var st := [NewSection(name)];
    assert st[1..] == [] && FileText([]) == "";
    assert SectionText(st[0]) == "[" + name + "" + "]\n" + "" + "\n";
  }
}
