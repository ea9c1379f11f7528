/**
 The numbered entries of remote provisioning: the list of provisioning headers kept
 in `[misc] config-uri-header_N`, and the pruning of the `[auth_info_N]` sections.
 */
module Headers {
  import opened Lists
  import opened CText
  import opened Store
  import opened Config

  // ------------------------------------------------------------- numbered names

  function HeaderKey(i: nat): string {
    "config-uri-header_" + FormatInt(i)
  }

  function AuthSection(i: nat): string {
    "auth_info_" + FormatInt(i)
  }

  /** The first names of each kind, and where a header is stored. */
  lemma FirstNames()
    ensures HeaderKey(0) == "config-uri-header_0" && AuthSection(0) == "auth_info_0"
    ensures HeaderKey(1) == "config-uri-header_1" && AuthSection(1) == "auth_info_1"
  {
    assert FormatInt(0) == "0" && FormatInt(1) == "1";
  }

  lemma NumberedNamesDiffer(prefix: string, i: nat, j: nat)
    requires i != j
    ensures prefix + FormatInt(i) != prefix + FormatInt(j)
  {
    ReadBackDecimal(i, "");
    ReadBackDecimal(j, "");
    assert FormatInt(i) + "" == FormatInt(i) && FormatInt(j) + "" == FormatInt(j);
    assert (prefix + FormatInt(i))[|prefix|..] == FormatInt(i);
    assert (prefix + FormatInt(j))[|prefix|..] == FormatInt(j);
  }

  function HeaderAt(st: Sections, i: nat): Option<string> {
    Get(st, "misc", HeaderKey(i))
  }

  function MiscItems(st: Sections): seq<Item> {
    var i := FindSection(st, "misc");
    if i < |st| then st[i].items else []
  }

  lemma DropShortens(items: seq<Item>, key: string)
    requires ItemValue(items, key).Some?
    ensures |DropSlot(items, KeySlot(key))| < |items|
  {
  }

  /** Distinct keys need distinct items. */
  lemma {:induction false} KeysFit(items: seq<Item>, keys: seq<string>)
    requires WfItems(items) && forall i :: 0 <= i < |keys| ==> ItemValue(items, keys[i]).Some?
    requires forall i, j :: 0 <= i < j < |keys| ==> keys[i] != keys[j]
    ensures |keys| <= |items|
    decreases |keys|
  {
    hide WfItems, DropSlot, ItemValue, FindSlot;
    if keys != [] {
      var front, last := keys[..|keys| - 1], keys[|keys| - 1];
      var rest := DropSlot(items, KeySlot(last));
      DropShortens(items, last);
      AfterDropSlot(items, KeySlot(last), last);
      forall i | 0 <= i < |front|
        ensures ItemValue(rest, front[i]).Some?
      {
        AfterDropSlot(items, KeySlot(last), front[i]);
      }
      KeysFit(rest, front);
    }
  }

  /** A run of headers is no longer than the section. */
  lemma RunFits(items: seq<Item>, n: nat)
    requires WfItems(items) && forall j: nat :: j < n ==> ItemValue(items, HeaderKey(j)).Some?
    ensures n <= |items|
  {
    hide WfItems, ItemValue, HeaderKey;
    var keys := seq(n, i requires 0 <= i < n => HeaderKey(i));
    forall i, j | 0 <= i < j < n
      ensures keys[i] != keys[j]
    {
      HeaderKeysDiffer(i, j);
    }
    KeysFit(items, keys);
  }

  /** The first free index from i on. The bound is there for termination only: the
      search always finds a free index before it. */
  function FreeIndex(st: Sections, i: nat): nat
    decreases |MiscItems(st)| - i
  {
    if HeaderAt(st, i).None? || i >= |MiscItems(st)| then i else FreeIndex(st, i + 1)
  }

  lemma {:induction false} SearchEnds(st: Sections, i: nat)
    requires Wf(st) && forall j: nat :: j < i ==> HeaderAt(st, j).Some?
    ensures HeaderAt(st, FreeIndex(st, i)).None?
    ensures forall j: nat :: j < FreeIndex(st, i) ==> HeaderAt(st, j).Some?
    decreases |MiscItems(st)| - i
  {
    hide HeaderAt, MiscItems, Wf;
    if HeaderAt(st, i).Some? {
      FreeIndexIsBeyond(st, i);
      SearchEnds(st, i + 1);
    }
  }

  function Count(st: Sections): (n: nat)
    requires Wf(st)
    ensures HeaderAt(st, n).None? && forall j: nat :: j < n ==> HeaderAt(st, j).Some?
  {
    SearchEnds(st, 0);
    FreeIndex(st, 0)
  }

  lemma CountIs(st: Sections, n: nat)
    requires Wf(st) && HeaderAt(st, n).None? && forall j: nat :: j < n ==> HeaderAt(st, j).Some?
    ensures Count(st) == n
  {
  }

  // ---------------------------------------------------------------- the list

  /** linphone_core_get_provisioning_headers */
  function Headers(st: Sections): (l: seq<string>)
    requires Wf(st)
    ensures |l| == Count(st) && forall i :: 0 <= i < |l| ==> HeaderAt(st, i) == Some(l[i])
  {
    seq(Count(st), i requires 0 <= i < Count(st) => HeaderAt(st, i).value)
  }

  /** linphone_core_add_provisioning_header */
  function AddHeader(st: Sections, name: string, value: string): Sections
    requires Wf(st)
  {
    Set(st, "misc", HeaderKey(Count(st)), name + ":" + value)
  }

  /** linphone_core_clear_provisioning_headers, from index i on. */
  function ClearFrom(st: Sections, i: nat): Sections
    requires Wf(st)
    decreases |MiscItems(st)|
  {
    if HeaderAt(st, i).None? then st
    else
      AfterClean(st, i, "", "");
      ClearFrom(Set(st, "misc", HeaderKey(i), ""), i + 1)
  }

  lemma AfterClean(st: Sections, i: nat, section: string, key: string)
    requires Wf(st) && HeaderAt(st, i).Some?
    ensures var after := Set(st, "misc", HeaderKey(i), "");
            && Wf(after) && |MiscItems(after)| < |MiscItems(st)|
            && Get(after, section, key) == if section == "misc" && key == HeaderKey(i) then None else Get(st, section, key)
  {
    AfterSet(st, "misc", HeaderKey(i), "", section, key);
    var m := FindSection(st, "misc");
    SectionIsAt(Set(st, "misc", HeaderKey(i), ""), "misc", m);
  }

  /** No header has an index beyond the first free one. */
  ghost predicate GapFree(st: Sections)
    requires Wf(st)
  {
    forall i: nat :: HeaderAt(st, i).Some? ==> i < Count(st)
  }

  lemma AfterAdd(st: Sections, name: string, value: string, i: nat)
    requires Wf(st)
    ensures Wf(AddHeader(st, name, value))
    ensures HeaderAt(AddHeader(st, name, value), i)
            == if i == Count(st) then Some(name + ":" + value) else HeaderAt(st, i)
  {
    hide Wf, Set, Count;
    AfterSet(st, "misc", HeaderKey(Count(st)), name + ":" + value, "misc", HeaderKey(i));
    if i != Count(st) {
      NumberedNamesDiffer("config-uri-header_", i, Count(st));
    }
  }

  /** Where the first header is stored. */
  lemma FirstHeader(name: string, value: string)
    ensures Get(AddHeader([], name, value), "misc", "config-uri-header_0") == Some(name + ":" + value)
  {
    hide Set, HeaderKey, FreeIndex;
    assert Count([]) == 0 by {
      CountIs([], 0);
    }
    FirstNames();
    AfterAdd([], name, value, 0);
  }

  /** A header added is the last one read back, exactly when the index after the first
      free one is free too; a gap-free list stays gap-free. */
  lemma {:induction false} HeadersAfterAdd(st: Sections, name: string, value: string)
    requires Wf(st)
    ensures Wf(AddHeader(st, name, value))
    ensures Headers(AddHeader(st, name, value)) == Headers(st) + [name + ":" + value]
            <==> HeaderAt(st, Count(st) + 1).None?
    ensures GapFree(st) ==> HeaderAt(st, Count(st) + 1).None? && GapFree(AddHeader(st, name, value))
  {
    hide Wf, HeaderAt, AddHeader, FreeIndex;
    var (n, after) := (Count(st), AddHeader(st, name, value));
    forall i: nat
      ensures Wf(after)
      ensures HeaderAt(after, i) == if i == n then Some(name + ":" + value) else HeaderAt(st, i)
    {
      AfterAdd(st, name, value, i);
    }
    AfterAdd(st, name, value, n);
    AfterAdd(st, name, value, n + 1);
    if HeaderAt(st, n + 1).None? {
      CountIs(after, n + 1);
      forall i | 0 <= i < n + 1
        ensures Headers(after)[i] == (Headers(st) + [name + ":" + value])[i]
      {
        AfterAdd(st, name, value, i);
      }
    } else {
      assert Count(after) != n + 1;
    }
  }

  lemma HeaderKeysDiffer(i: nat, j: nat)
    requires i != j
    ensures HeaderKey(i) != HeaderKey(j)
  {
    NumberedNamesDiffer("config-uri-header_", i, j);
  }

  lemma NoneNumbered(key: string, i: nat)
    ensures !HeaderNumbered(key, i, i)
  {
  }

  predicate HeaderNumbered(key: string, i: nat, n: nat) {
    exists j: nat :: i <= j < n && key == HeaderKey(j)
  }

  lemma HeaderNumberedStep(key: string, i: nat, n: nat)
    requires i < n
    ensures HeaderNumbered(key, i, n) <==> key == HeaderKey(i) || HeaderNumbered(key, i + 1, n)
  {
    if key == HeaderKey(i) {
      assert HeaderNumbered(key, i, n);
    }
  }

  lemma {:induction false} AfterClearFrom(st: Sections, i: nat, section: string, key: string) returns (n: nat)
    requires Wf(st)
    ensures Wf(ClearFrom(st, i))
    ensures i <= n && HeaderAt(st, n).None? && forall j: nat :: i <= j < n ==> HeaderAt(st, j).Some?
    ensures Get(ClearFrom(st, i), section, key)
            == if section == "misc" && HeaderNumbered(key, i, n) then None
               else Get(st, section, key)
    decreases |MiscItems(st)|
  {
    hide Wf, Set, HeaderKey, HeaderNumbered;
    if HeaderAt(st, i).None? {
      n := i;
      NoneNumbered(key, i);
    } else {
      var after := Set(st, "misc", HeaderKey(i), "");
      AfterClean(st, i, section, key);
      n := AfterClearFrom(after, i + 1, section, key);
      HeaderNumberedStep(key, i, n);
      forall j: nat | i + 1 <= j <= n
        ensures HeaderAt(st, j) == HeaderAt(after, j)
      {
        HeaderKeysDiffer(j, i);
        AfterClean(st, i, "misc", HeaderKey(j));
      }
    }
  }

  /** Clearing removes exactly the headers a read would return, and touches nothing else. */
  lemma {:induction false} ClearRemovesHeaders(st: Sections, section: string, key: string)
    requires Wf(st)
    ensures Wf(ClearFrom(st, 0))
    ensures Get(ClearFrom(st, 0), section, key)
            == if section == "misc" && HeaderNumbered(key, 0, Count(st)) then None
               else Get(st, section, key)
  {
    var n := AfterClearFrom(st, 0, section, key);
    CountIs(st, n);
  }

  lemma HeadersAfterClear(st: Sections)
    requires Wf(st)
    ensures Wf(ClearFrom(st, 0)) && Headers(ClearFrom(st, 0)) == []
    ensures GapFree(st) ==> GapFree(ClearFrom(st, 0))
  {
    hide Wf, FreeIndex, ClearFrom;
    var after := ClearFrom(st, 0);
    forall i: nat
      ensures Wf(after)
      ensures HeaderAt(after, i) == if i < Count(st) then None else HeaderAt(st, i)
    {
      ClearRemovesHeaders(st, "misc", HeaderKey(i));
      forall j: nat | i != j
        ensures HeaderKey(i) != HeaderKey(j)
      {
        HeaderKeysDiffer(i, j);
      }
      assert HeaderNumbered(HeaderKey(i), 0, Count(st)) <==> i < Count(st);
    }
    assert HeaderAt(after, 0).None?;
    CountIs(after, 0);
  }

  // ------------------------------------------------------------- any use of the list

  datatype Use = Add(name: string, value: string) | Clear

  function DoUses(st: Sections, uses: seq<Use>): (r: Sections)
    requires Wf(st)
    ensures Wf(r)
    decreases |uses|
  {
    if uses == [] then st
    else
      match uses[0]
      case Add(name, value) =>
        AfterAdd(st, name, value, 0);
        DoUses(AddHeader(st, name, value), uses[1..])
      case Clear =>
        ClearRemovesHeaders(st, "", "");
        DoUses(ClearFrom(st, 0), uses[1..])
  }

  /** The headers the uses leave in a plain list. */
  function Expected(l: seq<string>, uses: seq<Use>): seq<string>
    decreases |uses|
  {
    if uses == [] then l
    else Expected(if uses[0].Add? then l + [uses[0].name + ":" + uses[0].value] else [], uses[1..])
  }

  /** From a gap-free start, any sequence of adds and clears keeps a plain list. */
  lemma {:induction false} UsesKeepAList(st: Sections, uses: seq<Use>)
    requires Wf(st) && GapFree(st)
    ensures GapFree(DoUses(st, uses))
    ensures Headers(DoUses(st, uses)) == Expected(Headers(st), uses)
    decreases |uses|
  {
    if uses != [] {
      match uses[0]
      case Add(name, value) =>
        HeadersAfterAdd(st, name, value);
        UsesKeepAList(AddHeader(st, name, value), uses[1..]);
      case Clear =>
        HeadersAfterClear(st);
        UsesKeepAList(ClearFrom(st, 0), uses[1..]);
    }
  }

  /** linphone_remote_provisioning_split_header: name and value, or nothing. */
  method SplitHeader(header: string) returns (r: Option<(string, string)>)
    ensures r == Split(header)
  {
    var index := 0;
    while index < |header| && header[index] != ':'
      invariant index <= |header| && ':' !in header[..index]
    {
      index := index + 1;
    }
    if index < |header| {
      FirstIndex(header[..index], ':', header[index + 1..]);
      assert header == header[..index] + [':'] + header[index + 1..];
      return Some((header[..index], header[index + 1..]));
    }
    assert header[..index] == header;
    FirstIndex(header, ':', "");
    return None;
  }

  function Split(header: string): Option<(string, string)> {
    var i := IndexOf(header, ':');
    if i == |header| then None else Some((header[..i], header[i + 1..]))
  }

  /** Any header is cut at its first colon, or not at all. */
  lemma SplitAtFirstColon(a: string, b: string)
    requires ':' !in a
    ensures Split(a + ":" + b) == Some((a, b)) && Split(a) == None
  {
    FirstIndex(a, ':', b);
    var header := a + ":" + b;
    assert header == a + [':'] + b;
    assert header[..|a|] == a && header[|a| + 1..] == b;
  }

  /** A header splits back into its name and value exactly when the name has no colon. */
  lemma SplitUndoesAdd(name: string, value: string)
    ensures Split(name + ":" + value) == Some((name, value)) <==> ':' !in name
  {
    var header := name + ":" + value;
    if ':' in name {
      var j :| 0 <= j < |name| && name[j] == ':';
      FirstIsNoLater(header, ':', j);
    } else {
      FirstIndex(name, ':', value);
      assert header == name + [':'] + value;
      assert header[..|name|] == name && header[|name| + 1..] == value;
    }
  }

  // ---------------------------------------------------------------- the pruning

  /** linphone_remote_provisioning_apply removes auth_info_0, auth_info_1, ... while they exist. */
  function PruneFrom(st: Sections, i: nat): Sections
    decreases |st|
  {
    if HasSection(st, AuthSection(i)) then PruneFrom(RemoveSection(st, AuthSection(i)), i + 1) else st
  }

  predicate Numbered(name: string, i: nat, n: nat) {
    exists j: nat :: i <= j < n && name == AuthSection(j)
  }

  /** The sections not numbered i to n - 1, in order. */
  function Others(st: Sections, i: nat, n: nat): Sections {
    if st == [] then []
    else if Numbered(st[0].name, i, n) then Others(st[1..], i, n)
    else [st[0]] + Others(st[1..], i, n)
  }

  lemma NumberedStep(name: string, i: nat, n: nat)
    requires i < n
    ensures Numbered(name, i, n) <==> name == AuthSection(i) || Numbered(name, i + 1, n)
  {
    if name == AuthSection(i) {
      assert Numbered(name, i, n);
    }
  }

  lemma {:induction false} OthersWithoutFirst(st: Sections, i: nat, n: nat)
    requires UniqueNames(st) && i < n
    ensures Others(RemoveSection(st, AuthSection(i)), i + 1, n) == Others(st, i, n)
  {
    if st != [] {
      hide Numbered, AuthSection;
      var (name, rest) := (AuthSection(i), st[1..]);
      assert forall j :: 0 <= j < |rest| ==> rest[j] == st[j + 1];
      NumberedStep(st[0].name, i, n);
      if st[0].name == name {
        assert RemoveSection(st, name) == rest;
        SameOthers(rest, i, n);
      } else {
        hide RemoveSection;
        RemoveBehind(st, name);
        var after := RemoveSection(rest, name);
        assert ([st[0]] + after)[0] == st[0] && ([st[0]] + after)[1..] == after;
        OthersWithoutFirst(rest, i, n);
      }
    }
  }

  lemma {:induction false} SameOthers(st: Sections, i: nat, n: nat)
    requires i < n && forall j :: 0 <= j < |st| ==> st[j].name != AuthSection(i)
    ensures Others(st, i + 1, n) == Others(st, i, n)
  {
    if st != [] {
      hide Numbered, AuthSection;
      NumberedStep(st[0].name, i, n);
      SameOthers(st[1..], i, n);
    }
  }

  lemma {:induction false} NoOthers(st: Sections, i: nat)
    ensures Others(st, i, i) == st
  {
    if st != [] {
      NoOthers(st[1..], i);
    }
  }

  lemma AuthSectionsDiffer(i: nat, j: nat)
    requires i != j
    ensures AuthSection(i) != AuthSection(j)
  {
    NumberedNamesDiffer("auth_info_", i, j);
  }

  /** The pruning removes exactly the maximal run of numbered sections and nothing else. */
  lemma {:induction false} PruneRemovesTheRun(st: Sections, i: nat) returns (n: nat)
    requires Wf(st)
    ensures i <= n && !HasSection(st, AuthSection(n))
    ensures forall j: nat :: i <= j < n ==> HasSection(st, AuthSection(j))
    ensures PruneFrom(st, i) == Others(st, i, n) && Wf(PruneFrom(st, i))
    decreases |st|
  {
    hide AuthSection, Others;
    if HasSection(st, AuthSection(i)) {
      hide Wf, HasSection;
      var after := RemoveSection(st, AuthSection(i));
      AfterRemoveSection(st, AuthSection(i), "", "");
      n := PruneRemovesTheRun(after, i + 1);
      OthersWithoutFirst(st, i, n);
      forall j: nat | i + 1 <= j <= n
        ensures HasSection(after, AuthSection(j)) == HasSection(st, AuthSection(j))
      {
        AuthSectionsDiffer(j, i);
        AfterRemoveSection(st, AuthSection(i), AuthSection(j), "");
      }
    } else {
      n := i;
      NoOthers(st, i);
    }
  }

  // ---------------------------------------------------------------- the methods

  /** linphone_core_add_provisioning_header */
  method AddProvisioningHeader(config: LpConfig, name: string, value: string)
    requires config.Valid()
    modifies config, config.sections
    ensures config.Valid() && config.store == AddHeader(old(config.store), name, value)
  {
    var count := FindFreeIndex(config);
    config.SetString("misc", HeaderKey(count), name + ":" + value);
  }

  /** The index search of linphone_core_add_provisioning_header. */
  method FindFreeIndex(config: LpConfig) returns (count: nat)
    requires config.Valid()
    ensures count == Count(config.store)
  {
    count := 0;
    var found := config.HasEntry("misc", HeaderKey(count));
    while found
      invariant found <==> HeaderAt(config.store, count).Some?
      invariant forall j: nat :: j < count ==> HeaderAt(config.store, j).Some?
      decreases |MiscItems(config.store)| - count, found
    {
      FreeIndexIsBeyond(config.store, count);
      count := count + 1;
      found := config.HasEntry("misc", HeaderKey(count));
    }
    CountIs(config.store, count);
  }

  lemma FreeIndexIsBeyond(st: Sections, i: nat)
    requires Wf(st) && forall j: nat :: j <= i ==> HeaderAt(st, j).Some?
    ensures i < |MiscItems(st)|
  {
    forall j: nat | j < i + 1
      ensures ItemValue(MiscItems(st), HeaderKey(j)).Some?
    {
      assert HeaderAt(st, j).Some?;
    }
    RunFits(MiscItems(st), i + 1);
  }

  /** linphone_core_get_provisioning_headers */
  method GetProvisioningHeaders(config: LpConfig) returns (headers: seq<string>)
    requires config.Valid()
    ensures headers == Headers(config.store)
  {
    hide Wf, HeaderKey, Get, MiscItems;
    headers := [];
    var count := 0;
    var found := config.HasEntry("misc", HeaderKey(count));
    while found
      invariant |headers| == count
      invariant found <==> HeaderAt(config.store, count).Some?
      invariant forall j: nat :: j < count ==> HeaderAt(config.store, j) == Some(headers[j])
      decreases |MiscItems(config.store)| - count, found
    {
      FreeIndexIsBeyond(config.store, count);
      var header := config.GetString("misc", HeaderKey(count), "");
      headers := headers + [header];
      count := count + 1;
      found := config.HasEntry("misc", HeaderKey(count));
    }
    CountIs(config.store, count);
  }

  /** linphone_core_clear_provisioning_headers */
  method ClearProvisioningHeaders(config: LpConfig)
    requires config.Valid()
    modifies config, config.sections
    ensures config.Valid() && config.store == ClearFrom(old(config.store), 0)
  {
    hide Wf, Set, HeaderKey, Get, MiscItems;
    var count := 0;
    var found := config.HasEntry("misc", HeaderKey(count));
    while found
      invariant config.Valid() && config.sections == old(config.sections)
      invariant found <==> HeaderAt(config.store, count).Some?
      invariant ClearFrom(config.store, count) == ClearFrom(old(config.store), 0)
      decreases |MiscItems(config.store)|, found
    {
      AfterClean(config.store, count, "", "");
      config.CleanEntry("misc", HeaderKey(count));
      count := count + 1;
      found := config.HasEntry("misc", HeaderKey(count));
    }
  }

  lemma RemoveShortens(st: Sections, name: string)
    requires HasSection(st, name)
    ensures |RemoveSection(st, name)| == |st| - 1
  {
  }

  /** The pruning loop of linphone_remote_provisioning_apply. */
  method PruneAuthInfo(config: LpConfig)
    requires config.Valid()
    modifies config
    ensures config.Valid() && fresh(config.Owned() - old(config.Owned()))
    ensures config.store == PruneFrom(old(config.store), 0)
  {
    hide Wf, AuthSection, RemoveSection, HasSection;
    var i := 0;
    var sec := config.FindSection(AuthSection(i));
    while sec != null
      invariant config.Valid() && fresh(config.Owned() - old(config.Owned()))
      invariant sec != null <==> HasSection(config.store, AuthSection(i))
      invariant PruneFrom(config.store, i) == PruneFrom(old(config.store), 0)
      decreases |config.store|, sec != null
    {
      RemoveShortens(config.store, AuthSection(i));
      config.CleanSection(AuthSection(i));
      i := i + 1;
      sec := config.FindSection(AuthSection(i));
    }
  }
}
