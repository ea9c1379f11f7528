/**
 Provisioning documents: importing one into the store (xml2lpc) and exporting the
 store as one (lpc2xml). The document is the tree the XML library hands over.
 */
module Provisioning {
  import opened Lists
  import opened CText
  import opened Store
  import opened Codecs
  import opened Config
  import opened SectionList

  datatype Attr = Attr(name: string, value: string)

  datatype Node =
    | Element(tag: string, attrs: seq<Attr>, children: seq<Node>)
    | Text(content: string)

  /** One entry of a document: a value for a key of a section. */
  datatype Put = Put(section: string, key: string, value: string, overwrite: bool)

  // ------------------------------------------------------ what a document asks for

  /** The last `name` attribute. */
  function NameOf(attrs: seq<Attr>): Option<string> {
    if attrs == [] then None
    else
      var last := attrs[|attrs| - 1];
      if last.name == "name" then Some(last.value) else NameOf(attrs[..|attrs| - 1])
  }

  predicate Overwrites(attrs: seq<Attr>) {
    Attr("overwrite", "true") in attrs
  }

  /** The text of the first child; an element there has no text of its own. */
  function ContentOf(children: seq<Node>): string {
    if children != [] && children[0].Text? then children[0].content else ""
  }

  /** An `entry` element with a name asks for one put; any other node for none. */
  function PutsOfEntry(n: Node, section: string): seq<Put> {
    if n.Element? && n.tag == "entry" && NameOf(n.attrs).Some? then
      [Put(section, NameOf(n.attrs).value, ContentOf(n.children), Overwrites(n.attrs))]
    else []
  }

  function PutsOfEntries(nodes: seq<Node>, section: string): seq<Put> {
    if nodes == [] then [] else PutsOfEntry(nodes[0], section) + PutsOfEntries(nodes[1..], section)
  }

  /** A `section` element with a name asks for the puts of its entries. */
  function PutsOfSection(n: Node): seq<Put> {
    if n.Element? && n.tag == "section" && NameOf(n.attrs).Some? then
      PutsOfEntries(n.children, NameOf(n.attrs).value)
    else []
  }

  function PutsOfSections(nodes: seq<Node>): seq<Put> {
    if nodes == [] then [] else PutsOfSection(nodes[0]) + PutsOfSections(nodes[1..])
  }

  function PutsOf(root: Node): seq<Put> {
    if root.Element? && root.tag == "config" then PutsOfSections(root.children) else []
  }

  // ------------------------------------------------------------------ the import

  /** An entry is stored when its key is absent or when it is to overwrite. */
  function ApplyPut(st: Sections, p: Put): Sections {
    if Get(st, p.section, p.key).None? || p.overwrite then Set(st, p.section, p.key, p.value) else st
  }

  function ApplyPuts(st: Sections, ps: seq<Put>): Sections
    decreases |ps|
  {
    if ps == [] then st else ApplyPuts(ApplyPut(st, ps[0]), ps[1..])
  }

  function Import(st: Sections, root: Node): Sections {
    ApplyPuts(st, PutsOf(root))
  }

  /** When provisioning brought a proxy and none was the default, it becomes so. */
  function FixDefaultProxy(st: Sections): Sections {
    if HasSection(st, "proxy_0") && GetInt(st, "sip", "default_proxy", -1) == -1
    then SetInt(st, "sip", "default_proxy", 0)
    else st
  }

  function Provision(st: Sections, root: Node): Sections {
    FixDefaultProxy(Import(st, root))
  }

  // ------------------------------------------------------- the import, key by key

  /** What a list of puts makes of the value of one key. */
  function Effect(ps: seq<Put>, section: string, key: string, x: Option<string>): Option<string>
    decreases |ps|
  {
    if ps == [] then x
    else
      var p := ps[0];
      var y := if p.section == section && p.key == key && (x.None? || p.overwrite)
               then (if p.value == "" then None else Some(p.value)) else x;
      Effect(ps[1..], section, key, y)
  }

  /** Some put for the key overwrites whatever is there. */
  predicate Forces(ps: seq<Put>, section: string, key: string) {
    ps != [] && ((ps[0].section == section && ps[0].key == key && ps[0].overwrite) || Forces(ps[1..], section, key))
  }

  /** Some put has a value for the section. */
  predicate Brings(ps: seq<Put>, section: string) {
    ps != [] && ((ps[0].section == section && ps[0].value != "") || Brings(ps[1..], section))
  }

  lemma AfterPut(st: Sections, p: Put, section: string, key: string)
    requires Wf(st)
    ensures Wf(ApplyPut(st, p))
    ensures Get(ApplyPut(st, p), section, key) == Effect([p], section, key, Get(st, section, key))
    ensures HasSection(ApplyPut(st, p), section)
            <==> HasSection(st, section) || (p.section == section && p.value != "")
  {
    AfterSet(st, p.section, p.key, p.value, section, key);
    assert [p][1..] == [];
  }

  lemma {:induction false} AfterPuts(st: Sections, ps: seq<Put>, section: string, key: string)
    requires Wf(st)
    ensures Wf(ApplyPuts(st, ps))
    ensures Get(ApplyPuts(st, ps), section, key) == Effect(ps, section, key, Get(st, section, key))
    ensures HasSection(ApplyPuts(st, ps), section)
            <==> HasSection(st, section) || Brings(ps, section)
    decreases |ps|
  {
    if ps != [] {
      AfterPut(st, ps[0], section, key);
      AfterPuts(ApplyPut(st, ps[0]), ps[1..], section, key);
      assert [ps[0]][1..] == [];
    }
  }

  /** After a put that overwrites, what was there before no longer matters. */
  lemma {:induction false} ForcedEffect(ps: seq<Put>, section: string, key: string, x: Option<string>, y: Option<string>)
    requires Forces(ps, section, key) || x == y
    ensures Effect(ps, section, key, x) == Effect(ps, section, key, y)
    decreases |ps|
  {
    if ps != [] {
      ForcedEffect(ps[1..], section, key, Effect([ps[0]], section, key, x), Effect([ps[0]], section, key, y));
      EffectOfOne(ps, section, key, x);
      EffectOfOne(ps, section, key, y);
    }
  }

  lemma EffectOfOne(ps: seq<Put>, section: string, key: string, x: Option<string>)
    requires ps != []
    ensures Effect(ps, section, key, x) == Effect(ps[1..], section, key, Effect([ps[0]], section, key, x))
    ensures Effect([ps[0]], section, key, x)
            == if ps[0].section == section && ps[0].key == key && (x.None? || ps[0].overwrite)
               then (if ps[0].value == "" then None else Some(ps[0].value)) else x
  {
    assert [ps[0]][1..] == [];
  }

  /** With no such put, a value that is there stays. */
  lemma {:induction false} UnforcedEffect(ps: seq<Put>, section: string, key: string, x: Option<string>)
    requires !Forces(ps, section, key) && x.Some?
    ensures Effect(ps, section, key, x) == x
    decreases |ps|
  {
    if ps != [] {
      UnforcedEffect(ps[1..], section, key, x);
    }
  }

  /** Importing twice is importing once, key by key; the same when in between a key
      that was given a value was not touched, or a change that an import undoes. */
  lemma EffectTwice(ps: seq<Put>, section: string, key: string, x: Option<string>, y: Option<string>)
    requires y == Effect(ps, section, key, x) || y.Some?
    ensures Effect(ps, section, key, y)
            == if Forces(ps, section, key) then Effect(ps, section, key, x) else y
  {
    if Forces(ps, section, key) {
      ForcedEffect(ps, section, key, x, y);
    } else if y.Some? {
      UnforcedEffect(ps, section, key, y);
    } else if x.Some? {
      UnforcedEffect(ps, section, key, x);
    }
  }

  lemma AfterFix(st: Sections, section: string, key: string)
    requires Wf(st)
    ensures Wf(FixDefaultProxy(st))
    ensures HasSection(FixDefaultProxy(st), "proxy_0") == HasSection(st, "proxy_0")
    ensures HasSection(FixDefaultProxy(st), section)
            <==> HasSection(st, section) || (section == "sip" && HasSection(st, "proxy_0"))
    ensures Get(FixDefaultProxy(st), section, key)
            == if (section, key) == ("sip", "default_proxy") then FixedValue(HasSection(st, "proxy_0"), Get(st, section, key))
               else Get(st, section, key)
  {
    hide ReadInt, FormatInt, Set, Wf;
    AfterSet(st, "sip", "default_proxy", FormatInt(0), section, key);
    AfterSet(st, "sip", "default_proxy", FormatInt(0), "proxy_0", key);
    DifferentNames();
    assert Get(st, "sip", "default_proxy").Some? ==> HasSection(st, "sip");
  }

  /** The fix-up gives the first proxy the part of default when there is one and none has it. */
  lemma FixExactly(st: Sections)
    requires Wf(st)
    ensures var before := Get(st, "sip", "default_proxy");
            Get(FixDefaultProxy(st), "sip", "default_proxy")
            == if HasSection(st, "proxy_0") && (before.None? || ReadInt(before.value) == -1) then Some("0") else before
  {
    hide ReadInt, Set, Wf, Get, HasSection, FormatInt, FixDefaultProxy;
    AfterFix(st, "sip", "default_proxy");
    assert FormatInt(0) == "0" by {
      FormatZero();
    }
  }

  lemma FormatZero()
    ensures FormatInt(0) == "0"
  {
  }

  lemma DifferentNames()
    ensures "proxy_0" != "sip"
  {
    assert |"proxy_0"| != |"sip"|;
  }

  /** The fix-up seen from the one key it can change. */
  function FixedValue(proxy: bool, x: Option<string>): Option<string> {
    if proxy && (match x case Some(s) => ReadInt(s) == -1 case None => true) then Some(FormatInt(0)) else x
  }

  /** Provisioning with the same document again changes no lookup and no section,
      whatever the document: duplicates, empty values, mixed flags and the fix-up. */
  lemma ProvisionTwice(st: Sections, root: Node)
    requires Wf(st)
    ensures var once := Provision(st, root);
            var twice := Provision(once, root);
            && Wf(once) && Wf(twice)
            && ToMap(twice) == ToMap(once)
            && (forall section :: HasSection(twice, section) == HasSection(once, section))
  {
    var once := Provision(st, root);
    var twice := Provision(once, root);
    forall section, key
      ensures Wf(once) && Wf(twice)
      ensures Get(twice, section, key) == Get(once, section, key)
      ensures HasSection(twice, section) == HasSection(once, section)
    {
      TwiceAtKey(st, PutsOf(root), section, key);
    }
    forall section
      ensures HasSection(twice, section) == HasSection(once, section)
    {
      TwiceAtKey(st, PutsOf(root), section, "");
    }
    forall section, key
      ensures Get(twice, section, key) == Look(ToMap(once), section, key)
    {
      assert Get(twice, section, key) == Get(once, section, key);
      assert (section, key) in ToMap(once) <==> Get(once, section, key).Some?;
    }
    TwiceAtKey(st, PutsOf(root), "", "");
    ToMapIs(twice, ToMap(once));
  }

  lemma TwiceAtKey(st: Sections, ps: seq<Put>, section: string, key: string)
    requires Wf(st)
    ensures var once := FixDefaultProxy(ApplyPuts(st, ps));
            var twice := FixDefaultProxy(ApplyPuts(once, ps));
            && Wf(once) && Wf(twice)
            && Get(twice, section, key) == Get(once, section, key)
            && HasSection(twice, section) == HasSection(once, section)
  {
    hide Wf, Effect, Forces, Brings, ApplyPuts, FixDefaultProxy, ReadInt, FormatInt, Get, HasSection, FixedValue;
    var a := ApplyPuts(st, ps);
    var once := FixDefaultProxy(a);
    var b := ApplyPuts(once, ps);
    AfterPuts(st, ps, section, key);
    AfterPuts(st, ps, "proxy_0", key);
    AfterFix(a, section, key);
    AfterPuts(once, ps, section, key);
    AfterPuts(once, ps, "proxy_0", key);
    AfterFix(b, section, key);
    var (proxy, x, y) := (HasSection(a, "proxy_0"), Get(st, section, key), Get(once, section, key));
    if (section, key) == ("sip", "default_proxy") {
      EffectThenFix(ps, section, key, proxy, x);
    } else {
      EffectTwice(ps, section, key, x, y);
    }
  }

  lemma EffectThenFix(ps: seq<Put>, section: string, key: string, proxy: bool, x: Option<string>)
    ensures var y := FixedValue(proxy, Effect(ps, section, key, x));
            FixedValue(proxy, Effect(ps, section, key, y)) == y
  {
    hide Effect, Forces;
    var y := FixedValue(proxy, Effect(ps, section, key, x));
    EffectTwice(ps, section, key, x, y);
    FixTwice(proxy, Effect(ps, section, key, x));
  }

  lemma FixTwice(proxy: bool, x: Option<string>)
    ensures FixedValue(proxy, FixedValue(proxy, x)) == FixedValue(proxy, x)
  {
    ReadIntBack(0);
  }

  // ------------------------------------------------------------------ the export

  predicate Commented(key: string) {
    "#" <= key
  }

  function EntryNode(item: Item, overwrite: bool): Node
    requires item.Entry?
  {
    Element("entry",
            [Attr("name", item.key)] + (if item.overwrite || overwrite then [Attr("overwrite", "true")] else []),
            [Text(item.value)])
  }

  predicate Exported(item: Item) {
    item.Entry? && !Commented(item.key) && !item.skip
  }

  function EntryNodes(items: seq<Item>, overwrite: bool): seq<Node> {
    if items == [] then []
    else if Exported(items[0]) then [EntryNode(items[0], overwrite)] + EntryNodes(items[1..], overwrite)
    else EntryNodes(items[1..], overwrite)
  }

  function SectionNode(sec: Section): Node {
    Element("section", [Attr("name", sec.name)], EntryNodes(sec.items, sec.overwrite))
  }

  function SectionNodes(st: Sections): seq<Node> {
    if st == [] then []
    else if st[0].skip then SectionNodes(st[1..])
    else [SectionNode(st[0])] + SectionNodes(st[1..])
  }

  function Export(st: Sections): Node {
    Element("config", [], SectionNodes(st))
  }

  // ------------------------------------------------------------- export then import

  /** The entry an export holds for a key, with its effective overwrite flag. */
  function ExportedEntry(st: Sections, section: string, key: string): Option<(string, bool)> {
    var i := FindSection(st, section);
    if i == |st| || st[i].skip then None
    else
      var j := FindSlot(st[i].items, KeySlot(key));
      if j == |st[i].items| || !Exported(st[i].items[j]) then None
      else Some((st[i].items[j].value, st[i].items[j].overwrite || st[i].overwrite))
  }

  /** What one exported entry makes of the value x a store already has. */
  function Merged(e: Option<(string, bool)>, x: Option<string>): Option<string> {
    match e
    case None => x
    case Some((value, overwrite)) => if x.None? || overwrite then Some(value) else x
  }

  lemma ReadEntryNode(item: Item, overwrite: bool, section: string)
    requires item.Entry?
    ensures PutsOfEntry(EntryNode(item, overwrite), section)
            == [Put(section, item.key, item.value, item.overwrite || overwrite)]
  {
    var name := Attr("name", item.key);
    var attrs := EntryNode(item, overwrite).attrs;
    assert |"overwrite"| != |"name"|;
    assert NameOf([name]) == Some(item.key);
    if item.overwrite || overwrite {
      assert attrs == [name, Attr("overwrite", "true")];
      assert attrs[..1] == [name];
      assert attrs[1] == Attr("overwrite", "true");
      assert NameOf(attrs) == NameOf([name]);
    } else {
      assert attrs == [name];
    }
    assert Overwrites(attrs) <==> item.overwrite || overwrite;
  }

  lemma {:induction false} EffectConcat(a: seq<Put>, b: seq<Put>, section: string, key: string, x: Option<string>)
    ensures Effect(a + b, section, key, x) == Effect(b, section, key, Effect(a, section, key, x))
    decreases |a|
  {
    if a == [] {
      assert a + b == b;
    } else {
      hide Effect;
      EffectOfOne(a + b, section, key, x);
      EffectOfOne(a, section, key, x);
      assert (a + b)[0] == a[0] && (a + b)[1..] == a[1..] + b;
      EffectConcat(a[1..], b, section, key, Effect([a[0]], section, key, x));
    }
  }

  /** The exported entries of one section, imported: at most one concerns a key. */
  lemma {:induction false} EffectOfEntries(
      items: seq<Item>, overwrite: bool, name: string, section: string, key: string, x: Option<string>)
    requires WfItems(items)
    ensures var j := FindSlot(items, KeySlot(key));
            Effect(PutsOfEntries(EntryNodes(items, overwrite), name), section, key, x)
            == if section == name && j < |items| && Exported(items[j])
               then Merged(Some((items[j].value, items[j].overwrite || overwrite)), x) else x
    decreases |items|
  {
    if items != [] {
      var item, rest := items[0], items[1..];
      assert items == [item] + rest;
      ConsWfItems(item, rest);
      EffectOfEntry(item, rest, overwrite, name, section, key, x);
      hide Effect, PutsOfEntries, EntryNodes, WfItems;
      var mine := Exported(item) && name == section && item.key == key;
      var y := if mine then Merged(Some((item.value, item.overwrite || overwrite)), x) else x;
      EffectOfEntries(rest, overwrite, name, section, key, y);
      FirstOrRest(items, KeySlot(key));
    }
  }

  lemma FirstOrRest(items: seq<Item>, slot: Slot)
    requires items != []
    ensures var (j, k) := (FindSlot(items, slot), FindSlot(items[1..], slot));
            if items[0].Slot() == slot then j == 0 else j == 1 + k && (j < |items| ==> items[j] == items[1..][k])
  {
  }

  /** The first exported entry concerns its own key only. */
  lemma EffectOfEntry(
      item: Item, rest: seq<Item>, overwrite: bool, name: string, section: string, key: string, x: Option<string>)
    requires item.Entry? ==> item.value != ""
    ensures Effect(PutsOfEntries(EntryNodes([item] + rest, overwrite), name), section, key, x)
            == Effect(PutsOfEntries(EntryNodes(rest, overwrite), name), section, key,
                      if Exported(item) && name == section && item.key == key
                      then Merged(Some((item.value, item.overwrite || overwrite)), x) else x)
  {
    assert ([item] + rest)[1..] == rest;
    if Exported(item) {
      ReadEntryNode(item, overwrite, name);
      hide Effect, EntryNode, PutsOfEntry;
      var p := Put(name, item.key, item.value, item.overwrite || overwrite);
      var puts := PutsOfEntries(EntryNodes(rest, overwrite), name);
      var nodes := [EntryNode(item, overwrite)] + EntryNodes(rest, overwrite);
      assert nodes[0] == EntryNode(item, overwrite) && nodes[1..] == EntryNodes(rest, overwrite);
      EffectConcat([p], puts, section, key, x);
      EffectOfOne([p], section, key, x);
    }
  }

  /** The exported entry of a key lies in the first section of the list or in the rest. */
  lemma ExportedEntryCons(st: Sections, section: string, key: string)
    requires Wf(st) && st != []
    ensures Wf(st[1..])
    ensures var (sec, rest) := (st[0], st[1..]);
            var j := FindSlot(sec.items, KeySlot(key));
            if sec.name != section then ExportedEntry(st, section, key) == ExportedEntry(rest, section, key)
            else ExportedEntry(rest, section, key) == None
                 && ExportedEntry(st, section, key)
                    == if sec.skip || j == |sec.items| || !Exported(sec.items[j]) then None
                       else Some((sec.items[j].value, sec.items[j].overwrite || sec.overwrite))
  {
    var rest := st[1..];
    assert forall i :: 0 <= i < |rest| ==> rest[i] == st[i + 1];
    if st[0].name == section {
      assert FindSection(rest, section) == |rest|;
    }
  }

  lemma PutsOfSectionNode(sec: Section)
    ensures PutsOfSection(SectionNode(sec)) == PutsOfEntries(EntryNodes(sec.items, sec.overwrite), sec.name)
  {
    var attrs := SectionNode(sec).attrs;
    assert attrs[|attrs| - 1] == Attr("name", sec.name);
  }

  lemma {:induction false} EffectOfExport(st: Sections, section: string, key: string, x: Option<string>)
    requires Wf(st)
    ensures Effect(PutsOfSections(SectionNodes(st)), section, key, x)
            == Merged(ExportedEntry(st, section, key), x)
    decreases |st|
  {
    if st != [] {
      hide Wf, Effect, PutsOfSection, SectionNode, ExportedEntry, EntryNodes, PutsOfEntries;
      var sec, rest := st[0], st[1..];
      ExportedEntryCons(st, section, key);
      if sec.skip {
        EffectOfExport(rest, section, key, x);
      } else {
        var nodes := [SectionNode(sec)] + SectionNodes(rest);
        assert nodes[0] == SectionNode(sec) && nodes[1..] == SectionNodes(rest);
        PutsOfSectionNode(sec);
        var puts := PutsOfSection(nodes[0]);
        EffectConcat(puts, PutsOfSections(nodes[1..]), section, key, x);
        assert WfItems(sec.items) by {
          FirstItemsWf(st);
        }
        EffectOfEntries(sec.items, sec.overwrite, sec.name, section, key, x);
        EffectOfExport(rest, section, key, Effect(puts, section, key, x));
      }
    }
  }

  lemma FirstItemsWf(st: Sections)
    requires Wf(st) && st != []
    ensures WfItems(st[0].items)
  {
  }

  /** Importing the export of c into d: c decides exactly the keys it exports that d
      lacks or that are flagged to overwrite, by entry or by section. */
  lemma ExportThenImport(c: Sections, d: Sections, section: string, key: string)
    requires Wf(c) && Wf(d)
    ensures Get(Import(d, Export(c)), section, key) == Merged(ExportedEntry(c, section, key), Get(d, section, key))
  {
    AfterPuts(d, PutsOf(Export(c)), section, key);
    EffectOfExport(c, section, key, Get(d, section, key));
  }

  /** Into an empty store: c without its skipped and commented entries. */
  lemma ExportThenImportAnew(c: Sections, section: string, key: string)
    requires Wf(c)
    ensures Get(Import([], Export(c)), section, key)
            == if ExportedEntry(c, section, key).Some? then Get(c, section, key) else None
  {
    ExportThenImport(c, [], section, key);
  }

  /** The same on the fields of the stores: a skipped entry, an entry of a skipped section
      and a key that begins with a hash are as good as absent; any other entry gives its
      value to a store that lacks one or is told to overwrite, by entry or by section. */
  lemma ImportOfExport(c: Sections, d: Sections, i: nat, j: nat)
    requires Wf(c) && Wf(d) && i < |c| && j < |c[i].items| && c[i].items[j].Entry?
    ensures var (sec, item) := (c[i], c[i].items[j]);
            var before := Get(d, sec.name, item.key);
            Get(Import(d, Export(c)), sec.name, item.key)
            == if item.skip || sec.skip || (item.key != "" && item.key[0] == '#') then before
               else if before.None? || item.overwrite || sec.overwrite then Some(item.value)
               else before
  {
    hide Import, Export;
    var (sec, item) := (c[i], c[i].items[j]);
    ExportThenImport(c, d, sec.name, item.key);
    SectionIsAt(c, sec.name, i);
    SlotIsAt(sec.items, KeySlot(item.key), j);
    assert Commented(item.key) <==> item.key != "" && item.key[0] == '#';
  }

  /** What c has no entry for is left alone. */
  lemma ImportLeavesOthers(c: Sections, d: Sections, section: string, key: string)
    requires Wf(c) && Wf(d)
    requires forall i, j :: 0 <= i < |c| && 0 <= j < |c[i].items| ==>
               !(c[i].name == section && c[i].items[j].Slot() == KeySlot(key))
    ensures Get(Import(d, Export(c)), section, key) == Get(d, section, key)
  {
    hide Import, Export;
    ExportThenImport(c, d, section, key);
  }

  lemma ExportCons(item: Item, items: seq<Item>, sec: Section, st: Sections, overwrite: bool)
    ensures EntryNodes([item] + items, overwrite)
            == (if Exported(item) then [EntryNode(item, overwrite)] else []) + EntryNodes(items, overwrite)
    ensures SectionNodes([sec] + st) == (if sec.skip then [] else [SectionNode(sec)]) + SectionNodes(st)
    ensures EntryNodes([], overwrite) == [] && SectionNodes([]) == []
  {
    hide EntryNode, Exported, SectionNode;
    assert ([item] + items)[0] == item && ([item] + items)[1..] == items;
    assert ([sec] + st)[0] == sec && ([sec] + st)[1..] == st;
  }

  /** Entries and sections are exported in the order of the store. */
  lemma {:induction false} ExportInOrder(a: seq<Item>, b: seq<Item>, overwrite: bool)
    ensures EntryNodes(a + b, overwrite) == EntryNodes(a, overwrite) + EntryNodes(b, overwrite)
  {
    hide *;
    if a == [] {
      ExportCons(Comment(""), [], NewSection(""), [], overwrite);
      assert a + b == b;
    } else {
      var (item, rest) := (a[0], a[1..]);
      ExportInOrder(rest, b, overwrite);
      ExportCons(item, rest, NewSection(""), [], overwrite);
      ExportCons(item, rest + b, NewSection(""), [], overwrite);
      assert a == [item] + rest && a + b == [item] + (rest + b);
      Assoc(EntryNodes([item], overwrite), EntryNodes(rest, overwrite), EntryNodes(b, overwrite));
      ExportCons(item, [], NewSection(""), [], overwrite);
      assert [item] + [] == [item];
    }
  }

  lemma {:induction false} SectionsInOrder(a: Sections, b: Sections)
    ensures SectionNodes(a + b) == SectionNodes(a) + SectionNodes(b)
  {
    hide *;
    if a == [] {
      ExportCons(Comment(""), [], NewSection(""), [], false);
      assert a + b == b;
    } else {
      var (sec, rest) := (a[0], a[1..]);
      SectionsInOrder(rest, b);
      ExportCons(Comment(""), [], sec, rest, false);
      ExportCons(Comment(""), [], sec, rest + b, false);
      assert a == [sec] + rest && a + b == [sec] + (rest + b);
      Assoc(if sec.skip then [] else [SectionNode(sec)], SectionNodes(rest), SectionNodes(b));
    }
  }

  // ------------------------------------------------------- the elements of a document

  /** The element has one name, wherever it stands among the attributes. */
  predicate IsNamed(attrs: seq<Attr>, name: string) {
    exists i :: 0 <= i < |attrs| && IsNameAt(attrs, name, i)
  }

  predicate IsNameAt(attrs: seq<Attr>, name: string, i: int) {
    0 <= i < |attrs| && attrs[i] == Attr("name", name) && forall j :: i < j < |attrs| ==> attrs[j].name != "name"
  }

  lemma {:induction false} NameIsLast(attrs: seq<Attr>, name: string, i: nat)
    requires IsNameAt(attrs, name, i)
    ensures NameOf(attrs) == Some(name)
    decreases |attrs|
  {
    if i < |attrs| - 1 {
      NameIsLast(attrs[..|attrs| - 1], name, i);
    }
  }

  lemma {:induction false} Nameless(attrs: seq<Attr>)
    requires forall j :: 0 <= j < |attrs| ==> attrs[j].name != "name"
    ensures NameOf(attrs) == None
    decreases |attrs|
  {
    if attrs != [] {
      Nameless(attrs[..|attrs| - 1]);
    }
  }

  lemma OneEntry(section: string, attrs: seq<Attr>, children: seq<Node>, key: string)
    requires IsNamed(attrs, key)
    ensures PutsOfEntry(Element("entry", attrs, children), section)
            == [Put(section, key, ContentOf(children), Overwrites(attrs))]
  {
    var i :| 0 <= i < |attrs| && IsNameAt(attrs, key, i);
    NameIsLast(attrs, key, i);
  }

  /** An entry that is told to overwrite, before or after any other attribute, stores its
      text whatever was there, and an empty text removes. */
  lemma OverwritingEntry(
      st: Sections, section: string, pre: seq<Attr>, post: seq<Attr>, children: seq<Node>, key: string, text: string)
    requires Wf(st) && IsNamed(pre + [Attr("overwrite", "true")] + post, key)
    requires if children == [] || children[0].Element? then text == "" else children[0] == Text(text)
    ensures var entry := Element("entry", pre + [Attr("overwrite", "true")] + post, children);
            Get(ApplyPuts(st, PutsOfEntry(entry, section)), section, key) == if text == "" then None else Some(text)
  {
    hide IsNamed, Wf, Set, Get;
    var attrs := pre + [Attr("overwrite", "true")] + post;
    assert attrs[|pre|] == Attr("overwrite", "true");
    OneEntry(section, attrs, children, key);
    AfterOnePut(st, Put(section, key, text, true), section, key);
  }

  /** Any other entry stores its text where nothing is, and leaves a value that is there. */
  lemma ModestEntry(st: Sections, section: string, attrs: seq<Attr>, children: seq<Node>, key: string, text: string)
    requires Wf(st) && IsNamed(attrs, key)
    requires forall i :: 0 <= i < |attrs| && attrs[i].name == "overwrite" ==> attrs[i].value != "true"
    requires if children == [] || children[0].Element? then text == "" else children[0] == Text(text)
    ensures Get(ApplyPuts(st, PutsOfEntry(Element("entry", attrs, children), section)), section, key)
            == if Get(st, section, key).Some? then Get(st, section, key) else if text == "" then None else Some(text)
  {
    hide IsNamed, Wf, Set, Get;
    OneEntry(section, attrs, children, key);
    AfterOnePut(st, Put(section, key, text, false), section, key);
  }

  lemma AfterOnePut(st: Sections, p: Put, section: string, key: string)
    requires Wf(st)
    ensures Get(ApplyPuts(st, [p]), section, key)
            == if (p.section, p.key) != (section, key) || (Get(st, section, key).Some? && !p.overwrite)
               then Get(st, section, key)
               else if p.value == "" then None else Some(p.value)
  {
    hide Wf, Set, Get;
    AfterSet(st, p.section, p.key, p.value, section, key);
    assert [p][1..] == [];
  }

  /** Text, comments, other elements and elements without a name ask for nothing. */
  lemma NoPutsOf(n: Node, section: string)
    requires n.Text? || n.tag != "entry" || (forall j :: 0 <= j < |n.attrs| ==> n.attrs[j].name != "name")
    ensures PutsOfEntry(n, section) == []
  {
    if n.Element? && n.tag == "entry" {
      Nameless(n.attrs);
    }
  }

  lemma NoPutsOfSection(n: Node)
    requires n.Text? || n.tag != "section" || (forall j :: 0 <= j < |n.attrs| ==> n.attrs[j].name != "name")
    ensures PutsOfSection(n) == []
  {
    if n.Element? && n.tag == "section" {
      Nameless(n.attrs);
    }
  }

  lemma PutsCons(n: Node, rest: seq<Node>, section: string)
    ensures PutsOfEntries([n] + rest, section) == PutsOfEntry(n, section) + PutsOfEntries(rest, section)
    ensures PutsOfSections([n] + rest) == PutsOfSection(n) + PutsOfSections(rest)
    ensures PutsOfEntries([], section) == [] && PutsOfSections([]) == []
  {
    hide PutsOfEntry, PutsOfSection;
    assert ([n] + rest)[0] == n && ([n] + rest)[1..] == rest;
  }

  lemma OneNode(n: Node, section: string)
    ensures PutsOfEntries([n], section) == PutsOfEntry(n, section)
    ensures PutsOfSections([n]) == PutsOfSection(n)
  {
    hide *;
    PutsCons(n, [], section);
    assert [n] + [] == [n];
  }

  lemma {:induction false} NodesConcat(a: seq<Node>, b: seq<Node>, section: string)
    ensures PutsOfEntries(a + b, section) == PutsOfEntries(a, section) + PutsOfEntries(b, section)
    ensures PutsOfSections(a + b) == PutsOfSections(a) + PutsOfSections(b)
    decreases |a|
  {
    hide *;
    if a == [] {
      PutsCons(Text(""), [], section);
      assert a + b == b;
    } else {
      var (n, rest) := (a[0], a[1..]);
      NodesConcat(rest, b, section);
      PutsCons(n, rest + b, section);
      PutsCons(n, rest, section);
      assert a == [n] + rest && a + b == [n] + (rest + b);
      Assoc(PutsOfEntry(n, section), PutsOfEntries(rest, section), PutsOfEntries(b, section));
      Assoc(PutsOfSection(n), PutsOfSections(rest), PutsOfSections(b));
    }
  }

  /** Such nodes may stand anywhere among the entries of a section. */
  lemma OtherNodesInSection(a: seq<Node>, n: Node, b: seq<Node>, section: string)
    requires n.Text? || n.tag != "entry" || (forall j :: 0 <= j < |n.attrs| ==> n.attrs[j].name != "name")
    ensures PutsOfEntries(a + [n] + b, section) == PutsOfEntries(a + b, section)
  {
    hide *;
    NoPutsOf(n, section);
    NodesConcat(a + [n], b, section);
    NodesConcat(a, [n], section);
    NodesConcat(a, b, section);
    OneNode(n, section);
  }

  /** And anywhere among the sections of a document; a root of another name asks for nothing. */
  lemma OtherNodesInDocument(attrs: seq<Attr>, a: seq<Node>, n: Node, b: seq<Node>, root: Node)
    requires n.Text? || n.tag != "section" || (forall j :: 0 <= j < |n.attrs| ==> n.attrs[j].name != "name")
    ensures PutsOf(Element("config", attrs, a + [n] + b)) == PutsOf(Element("config", attrs, a + b))
    ensures root.Text? || root.tag != "config" ==> PutsOf(root) == []
  {
    hide PutsOfSections;
    NoPutsOfSection(n);
    NodesConcat(a + [n], b, "");
    NodesConcat(a, [n], "");
    NodesConcat(a, b, "");
    OneNode(n, "");
  }

  /** A section element asks for its entries, in order and under its name, wherever it stands. */
  lemma SectionInDocument(attrs: seq<Attr>, a: seq<Node>, named: seq<Attr>, entries: seq<Node>, b: seq<Node>, name: string)
    requires IsNamed(named, name)
    ensures PutsOf(Element("config", attrs, a + [Element("section", named, entries)] + b))
            == PutsOfSections(a) + PutsOfEntries(entries, name) + PutsOfSections(b)
  {
    var n := Element("section", named, entries);
    var i :| 0 <= i < |named| && IsNameAt(named, name, i);
    NameIsLast(named, name, i);
    hide PutsOfEntries, PutsOfSections;
    NodesConcat(a + [n], b, "");
    NodesConcat(a, [n], "");
    OneNode(n, "");
  }

  // ------------------------------------------------------------------ the methods

  /** processEntry of xml2lpc.c */
  method ProcessEntry(config: LpConfig, element: Node, section: string)
    requires config.Valid() && element.Element? && element.tag == "entry"
    modifies config, config.sections
    ensures config.Valid() && fresh(config.Owned() - old(config.Owned()))
    ensures config.store == ApplyPuts(old(config.store), PutsOfEntry(element, section))
  {
    hide Wf, Set;
    var name, overwrite := ReadAttributes(element.attrs);
    var value := ContentOf(element.children);
    if name.Some? {
      ghost var p := Put(section, name.value, value, overwrite);
      assert PutsOfEntry(element, section) == [p] && [p][1..] == [];
      var found := config.HasEntry(section, name.value);
      if !found || overwrite {
        config.SetString(section, name.value, value);
      }
    }
  }

  /** The loop over attributes. */
  method ReadAttributes(attrs: seq<Attr>) returns (name: Option<string>, overwrite: bool)
    ensures name == NameOf(attrs) && (overwrite <==> Overwrites(attrs))
  {
    name, overwrite := None, false;
    for i := 0 to |attrs|
      invariant name == NameOf(attrs[..i]) && (overwrite <==> Attr("overwrite", "true") in attrs[..i])
    {
      assert attrs[..i + 1][..i] == attrs[..i];
      if attrs[i].name == "name" {
        name := Some(attrs[i].value);
        assert |"overwrite"| != |"name"|;
      } else if attrs[i].name == "overwrite" {
        if attrs[i].value == "true" {
          overwrite := true;
        }
      }
    }
    assert attrs[..|attrs|] == attrs;
  }

  /** processSection of xml2lpc.c, for a section element with a name. */
  method ProcessSection(config: LpConfig, children: seq<Node>, section: string)
    requires config.Valid()
    modifies config, config.sections
    ensures config.Valid() && fresh(config.Owned() - old(config.Owned()))
    ensures config.store == ApplyPuts(old(config.store), PutsOfEntries(children, section))
  {
    for i := 0 to |children|
      invariant config.Valid() && fresh(config.Owned() - old(config.Owned()))
      invariant ApplyPuts(config.store, PutsOfEntries(children[i..], section))
                == ApplyPuts(old(config.store), PutsOfEntries(children, section))
    {
      hide Wf, ApplyPut, PutsOfEntry, ApplyPuts;
      var n := children[i];
      assert children[i..][1..] == children[i + 1..];
      PutsConcat(config.store, PutsOfEntry(n, section), PutsOfEntries(children[i + 1..], section));
      if n.Element? && n.tag == "entry" {
        ProcessEntry(config, n, section);
      } else {
        NoPuts(config.store, n, section);
      }
    }
    NoPutsLeft(config.store, section);
  }

  lemma NoPuts(st: Sections, n: Node, section: string)
    requires !(n.Element? && n.tag == "entry")
    ensures ApplyPuts(st, PutsOfEntry(n, section)) == st
  {
  }

  lemma NoPutsLeft(st: Sections, section: string)
    ensures ApplyPuts(st, PutsOfEntries([], section)) == st && ApplyPuts(st, PutsOfSections([])) == st
  {
  }

  /** processConfig and processDoc of xml2lpc.c */
  method ProcessDoc(config: LpConfig, root: Node)
    requires config.Valid()
    modifies config, config.sections
    ensures config.Valid() && fresh(config.Owned() - old(config.Owned()))
    ensures config.store == Import(old(config.store), root)
  {
    if root.Element? && root.tag == "config" {
      for i := 0 to |root.children|
        invariant config.Valid() && fresh(config.Owned() - old(config.Owned()))
        invariant ApplyPuts(config.store, PutsOfSections(root.children[i..])) == Import(old(config.store), root)
      {
        hide Wf, PutsOfEntries, ApplyPut;
        var n := root.children[i];
        assert root.children[i..][1..] == root.children[i + 1..];
        PutsConcat(config.store, PutsOfSection(n), PutsOfSections(root.children[i + 1..]));
        hide ApplyPuts, PutsOfSections;
        NothingPut(config.store);
        if n.Element? && n.tag == "section" {
          var name, _ := ReadAttributes(n.attrs);
          if name.Some? {
            ProcessSection(config, n.children, name.value);
          }
        }
      }
    }
  }

  lemma NothingPut(st: Sections)
    ensures ApplyPuts(st, []) == st
  {
  }

  lemma {:induction false} PutsConcat(st: Sections, a: seq<Put>, b: seq<Put>)
    ensures ApplyPuts(st, a + b) == ApplyPuts(ApplyPuts(st, a), b)
    decreases |a|
  {
    if a == [] {
      assert a + b == b;
    } else {
      assert (a + b)[0] == a[0] && (a + b)[1..] == a[1..] + b;
      PutsConcat(ApplyPut(st, a[0]), a[1..], b);
    }
  }

  /** _linphone_config_xml_convert, once the document is parsed. */
  method XmlConvert(config: LpConfig, root: Node)
    requires config.Valid()
    modifies config, config.sections
    ensures config.Valid() && fresh(config.Owned() - old(config.Owned()))
    ensures config.store == Provision(old(config.store), root)
  {
    hide Wf, Import, ReadInt, FormatInt, HasSection, Get, Set;
    ProcessDoc(config, root);
    var sec := config.FindSection("proxy_0");
    var value := config.GetString("sip", "default_proxy", "-1");
    MinusOne();
    if sec != null && ReadInt(value) == -1 {
      config.SetString("sip", "default_proxy", FormatInt(0));
    }
  }

  lemma MinusOne()
    ensures ReadInt("-1") == -1
  {
    ReadIntBack(-1);
    assert Digits(1, Decimal) == "1";
    assert FormatInt(-1) == "-1";
  }

  /** processSection_cb of lpc2xml.c over the entries of one section. */
  method ExportSection(config: LpConfig, name: string) returns (nodes: seq<Node>)
    requires config.Valid() && HasSection(config.store, name)
    ensures var sec := config.store[FindSection(config.store, name)];
            nodes == EntryNodes(sec.items, sec.overwrite)
  {
    hide Wf;
    nodes := [];
    var sec := config.FindSection(name);
    ItemsOf(config, sec);
    for i := 0 to |sec.items|
      invariant nodes + EntryNodes(sec.items[i..], sec.overwrite) == EntryNodes(sec.items, sec.overwrite)
    {
      hide EntryNode, Get, EntryNodes;
      NextEntryNode(sec.items, i, sec.overwrite, nodes);
      if Exported(sec.items[i]) {
        var node := ExportEntry(config, sec, i);
        nodes := nodes + [node];
      }
    }
    assert EntryNodes([], sec.overwrite) == [];
  }

  lemma NextEntryNode(items: seq<Item>, i: nat, overwrite: bool, nodes: seq<Node>)
    requires i < |items|
    ensures nodes + EntryNodes(items[i..], overwrite)
            == (if Exported(items[i]) then nodes + [EntryNode(items[i], overwrite)] else nodes)
               + EntryNodes(items[i + 1..], overwrite)
  {
    hide EntryNode;
    assert items[i..][1..] == items[i + 1..];
  }

  /** processEntry of lpc2xml.c, for the i-th item of a section. */
  method ExportEntry(config: LpConfig, sec: LpSection, i: nat) returns (node: Node)
    requires config.Valid() && sec in config.sections
    requires i < |sec.items| && sec.items[i].Entry?
    ensures node == EntryNode(sec.items[i], sec.overwrite)
  {
    hide Wf;
    var item := sec.items[i];
    ItemsOf(config, sec);
    config.AtItsPlace(sec);
    SlotIsAt(sec.items, item.Slot(), i);
    var value := config.GetString(sec.name, item.key, "");
    assert value == item.value;
    hide Get;
    var attrs := [Attr("name", item.key)];
    if item.overwrite || sec.overwrite {
      attrs := attrs + [Attr("overwrite", "true")];
    }
    node := Element("entry", attrs, [Text(value)]);
  }

  lemma ItemsOf(config: LpConfig, sec: LpSection)
    requires config.Valid() && sec in config.sections
    ensures WfItems(sec.items)
  {
    config.AtItsPlace(sec);
  }

  /** processConfig_cb of lpc2xml.c over the sections. */
  method ExportConfig(config: LpConfig) returns (root: Node)
    requires config.Valid()
    ensures root == Export(config.store)
  {
    var nodes := [];
    for i := 0 to |config.sections|
      invariant nodes + SectionNodes(config.store[i..]) == SectionNodes(config.store)
    {
      var sec := config.sections[i];
      assert config.store[i..][1..] == config.store[i + 1..];
      SectionIsAt(config.store, sec.name, i);
      if !sec.skip {
        var entries := ExportSection(config, sec.name);
        nodes := nodes + [Element("section", [Attr("name", sec.name)], entries)];
      }
    }
    root := Element("config", [], nodes);
  }
}
