/**
 The configuration store as a value: an ordered list of sections, each with its
 header params and its ordered list of comments and entries. The functions say
 what the list operations of lpconfig.c leave behind; the lemmas say that, seen
 through lookups, they are the operations of a plain map.
 */
module Store {
  import opened Lists
  import opened CText

  datatype Param = Param(key: string, value: string)

  datatype Item =
    | Comment(text: string)
    | Entry(key: string, value: string, overwrite: bool, skip: bool)
  {
    function Slot(): Slot {
      match this
      case Comment(text) => CommentSlot(text)
      case Entry(key, _, _, _) => KeySlot(key)
    }
  }

  /** What identifies an item inside its section. */
  datatype Slot = CommentSlot(text: string) | KeySlot(key: string)

  datatype Section = Section(
    name: string, params: seq<Param>, items: seq<Item>, overwrite: bool, skip: bool)

  type Sections = seq<Section>

  function NewEntry(key: string, value: string): Item {
    Entry(key, value, false, false)
  }

  function NewSection(name: string): Section {
    Section(name, [], [], false, false)
  }

  // ------------------------------------------------------------------ finding

  /** The first section called name, or |st|. */
  function FindSection(st: Sections, name: string): (i: nat)
    ensures i <= |st|
    ensures i < |st| ==> st[i].name == name
    ensures forall j :: 0 <= j < i ==> st[j].name != name
  {
    if st == [] || st[0].name == name then 0 else 1 + FindSection(st[1..], name)
  }

  /** The first item in the slot, or |items|. */
  function FindSlot(items: seq<Item>, slot: Slot): (i: nat)
    ensures i <= |items|
    ensures i < |items| ==> items[i].Slot() == slot
    ensures forall j :: 0 <= j < i ==> items[j].Slot() != slot
  {
    if items == [] || items[0].Slot() == slot then 0 else 1 + FindSlot(items[1..], slot)
  }

  predicate HasSection(st: Sections, name: string) {
    FindSection(st, name) < |st|
  }

  function ItemValue(items: seq<Item>, key: string): Option<string> {
    var i := FindSlot(items, KeySlot(key));
    if i < |items| then Some(items[i].value) else None
  }

  function Get(st: Sections, name: string, key: string): Option<string> {
    var i := FindSection(st, name);
    if i < |st| then ItemValue(st[i].items, key) else None
  }

  // ------------------------------------------------------------------ changing

  /** An entry gets a new value where it stands, or is appended. */
  function PutItem(items: seq<Item>, key: string, value: string): seq<Item> {
    var i := FindSlot(items, KeySlot(key));
    if i < |items| then items[i := items[i].(value := value)] else items + [NewEntry(key, value)]
  }

  function DropSlot(items: seq<Item>, slot: Slot): seq<Item> {
    var i := FindSlot(items, slot);
    if i < |items| then Without(items, i) else items
  }

  /** A comment moves to the end of its section. */
  function PutComment(items: seq<Item>, text: string): seq<Item> {
    DropSlot(items, CommentSlot(text)) + [Comment(text)]
  }

  /** linphone_config_set_string; a null value is the empty string. */
  function Set(st: Sections, name: string, key: string, value: string): Sections {
    var i := FindSection(st, name);
    if i < |st| then
      st[i := st[i].(items := if value == "" then DropSlot(st[i].items, KeySlot(key))
                              else PutItem(st[i].items, key, value))]
    else if value == "" then st
    else st + [NewSection(name).(items := [NewEntry(key, value)])]
  }

  function WithItems(st: Sections, name: string, items: seq<Item>): Sections {
    var i := FindSection(st, name);
    if i < |st| then st[i := st[i].(items := items)] else st
  }

  function RemoveSection(st: Sections, name: string): Sections {
    var i := FindSection(st, name);
    if i < |st| then Without(st, i) else st
  }

  /** What reading a section header does to the list. */
  function OpenSection(st: Sections, name: string, params: seq<Param>): Sections {
    var i := FindSection(st, name);
    if i < |st| then st[i := st[i].(params := st[i].params + params)]
    else st + [NewSection(name).(params := params)]
  }

  function AddParams(st: Sections, name: string, params: seq<Param>): Sections {
    var i := FindSection(st, name);
    if i < |st| then st[i := st[i].(params := st[i].params + params)] else st
  }

  lemma OpenThenAddParams(st: Sections, name: string, params: seq<Param>)
    ensures AddParams(OpenSection(st, name, []), name, params) == OpenSection(st, name, params)
  {
    var after := OpenSection(st, name, []);
    var i := FindSection(st, name);
    if i < |st| {
      assert st[i].(params := st[i].params + []) == st[i];
      assert after == st;
    } else {
      FindLast(st, after[|st|]);
      assert [] + params == params;
    }
  }

  lemma FindLast(st: Sections, sec: Section)
    requires !HasSection(st, sec.name)
    ensures FindSection(st + [sec], sec.name) == |st|
  {
    var after := st + [sec];
    assert after[|st|] == sec;
    assert forall j :: 0 <= j < |st| ==> after[j] == st[j];
  }

  function PutCommentIn(st: Sections, name: string, text: string): Sections {
    var i := FindSection(st, name);
    if i < |st| then st[i := st[i].(items := PutComment(st[i].items, text))] else st
  }

  // ----------------------------------------------------------------- invariant

  predicate WfItems(items: seq<Item>) {
    && (forall i, j :: 0 <= i < j < |items| ==> items[i].Slot() != items[j].Slot())
    && (forall i :: 0 <= i < |items| && items[i].Entry? ==> items[i].value != "")
  }

  predicate UniqueNames(st: Sections) {
    forall i, j :: 0 <= i < j < |st| ==> st[i].name != st[j].name
  }

  /** Names are unique; so are keys and comments in a section; no value is empty. */
  predicate Wf(st: Sections) {
    && UniqueNames(st)
    && (forall i :: 0 <= i < |st| ==> WfItems(st[i].items))
  }

  // ------------------------------------------------------- lookups after changes

  lemma SlotIsAt(items: seq<Item>, slot: Slot, i: nat)
    requires WfItems(items) && i < |items| && items[i].Slot() == slot
    ensures FindSlot(items, slot) == i
  {
  }

  /** Putting one more item in front. */
  lemma ConsItem(item: Item, rest: seq<Item>, key: string)
    ensures ItemValue([item] + rest, key)
            == if item.Slot() == KeySlot(key) then Some(item.value) else ItemValue(rest, key)
  {
    var items := [item] + rest;
    assert items[1..] == rest;
    var i := FindSlot(rest, KeySlot(key));
    assert i < |rest| ==> items[i + 1] == rest[i];
  }

  lemma ConsWfItems(item: Item, rest: seq<Item>)
    requires WfItems([item] + rest)
    ensures WfItems(rest)
    ensures item.Entry? ==> item.value != "" && ItemValue(rest, item.key) == None
  {
    var items := [item] + rest;
    assert items[0] == item;
    assert forall i :: 0 <= i < |rest| ==> items[i + 1] == rest[i];
    forall i, j | 0 <= i < j < |rest|
      ensures rest[i].Slot() != rest[j].Slot()
    {
      assert items[i + 1].Slot() != items[j + 1].Slot();
    }
    forall i | 0 <= i < |rest|
      ensures rest[i].Slot() != item.Slot()
    {
      assert items[0].Slot() != items[i + 1].Slot();
    }
  }

  lemma WfItemsCons(item: Item, rest: seq<Item>)
    requires item.Entry? && item.value != "" && WfItems(rest) && ItemValue(rest, item.key) == None
    ensures WfItems([item] + rest)
  {
    hide FindSlot;
    var items := [item] + rest;
    assert forall i :: 0 < i < |items| ==> items[i] == rest[i - 1];
    assert FindSlot(rest, item.Slot()) == |rest|;
  }

  lemma AfterPutItem(items: seq<Item>, key: string, value: string, key': string)
    requires WfItems(items) && value != ""
    ensures WfItems(PutItem(items, key, value))
    ensures ItemValue(PutItem(items, key, value), key')
            == if key' == key then Some(value) else ItemValue(items, key')
  {
    var after := PutItem(items, key, value);
    var i := FindSlot(items, KeySlot(key));
    assert forall j :: 0 <= j < |items| ==> after[j].Slot() == items[j].Slot();
    var j := FindSlot(items, KeySlot(key'));
    if j < |items| {
      SlotIsAt(after, KeySlot(key'), j);
    } else if key' == key {
      SlotIsAt(after, KeySlot(key), i);
    }
  }

  lemma DroppedSlot(items: seq<Item>, slot: Slot)
    ensures forall j :: 0 <= j < |DropSlot(items, slot)| ==>
              DropSlot(items, slot)[j] == items[if j < FindSlot(items, slot) then j else j + 1]
    ensures if FindSlot(items, slot) < |items| then |DropSlot(items, slot)| == |items| - 1
            else DropSlot(items, slot) == items
  {
    hide FindSlot, Without;
    if FindSlot(items, slot) < |items| {
      WithoutAt(items, FindSlot(items, slot));
    }
  }

  lemma AfterDropSlot(items: seq<Item>, slot: Slot, key': string)
    requires WfItems(items)
    ensures WfItems(DropSlot(items, slot))
    ensures FindSlot(DropSlot(items, slot), slot) == |DropSlot(items, slot)|
    ensures ItemValue(DropSlot(items, slot), key')
            == if slot == KeySlot(key') then None else ItemValue(items, key')
  {
    hide DropSlot;
    DroppedSlot(items, slot);
    var (after, i, j) := (DropSlot(items, slot), FindSlot(items, slot), FindSlot(items, KeySlot(key')));
    if j < |items| && slot != KeySlot(key') {
      SlotIsAt(after, KeySlot(key'), if j < i then j else j - 1);
    }
  }

  lemma AfterPutComment(items: seq<Item>, text: string, key': string)
    requires WfItems(items)
    ensures WfItems(PutComment(items, text))
    ensures ItemValue(PutComment(items, text), key') == ItemValue(items, key')
  {
    var kept := DropSlot(items, CommentSlot(text));
    AfterDropSlot(items, CommentSlot(text), key');
    var after := PutComment(items, text);
    assert forall j :: 0 <= j < |kept| ==> after[j] == kept[j];
    var j := FindSlot(kept, KeySlot(key'));
    if j < |kept| {
      SlotIsAt(after, KeySlot(key'), j);
    }
  }

  lemma SectionIsAt(st: Sections, name: string, i: nat)
    requires UniqueNames(st) && i < |st| && st[i].name == name
    ensures FindSection(st, name) == i
  {
  }

  /** Changing one section in place leaves every other lookup alone. */
  lemma AfterUpdate(st: Sections, i: nat, sec: Section, name': string, key': string)
    requires Wf(st) && i < |st| && sec.name == st[i].name && WfItems(sec.items)
    ensures Wf(st[i := sec])
    ensures HasSection(st[i := sec], name') == HasSection(st, name')
    ensures Get(st[i := sec], name', key')
            == if name' == sec.name then ItemValue(sec.items, key') else Get(st, name', key')
  {
    var after := st[i := sec];
    assert forall j :: 0 <= j < |st| ==> after[j].name == st[j].name;
    var j := FindSection(st, name');
    if j < |st| {
      SectionIsAt(after, name', j);
    }
    if name' == sec.name {
      SectionIsAt(st, name', i);
    }
  }

  lemma AfterAppend(st: Sections, sec: Section, name': string, key': string)
    requires Wf(st) && !HasSection(st, sec.name) && WfItems(sec.items)
    ensures Wf(st + [sec])
    ensures HasSection(st + [sec], name') <==> HasSection(st, name') || name' == sec.name
    ensures Get(st + [sec], name', key')
            == if name' == sec.name then ItemValue(sec.items, key') else Get(st, name', key')
  {
    var after := st + [sec];
    assert forall j :: 0 <= j < |st| ==> after[j] == st[j];
    assert after[|st|] == sec;
    var j := FindSection(st, name');
    if j < |st| {
      SectionIsAt(after, name', j);
    } else if name' == sec.name {
      SectionIsAt(after, name', |st|);
    }
  }

  /** Get after set, removal by the empty value, and the frame on everything else. */
  lemma {:induction false} AfterSet(st: Sections, name: string, key: string, value: string, name': string, key': string)
    requires Wf(st)
    ensures Wf(Set(st, name, key, value))
    ensures Get(Set(st, name, key, value), name', key')
            == if (name', key') == (name, key) then (if value == "" then None else Some(value))
               else Get(st, name', key')
    ensures HasSection(Set(st, name, key, value), name')
            <==> HasSection(st, name') || (name' == name && value != "")
  {
    var i := FindSection(st, name);
    if i < |st| {
      var items := if value == "" then DropSlot(st[i].items, KeySlot(key)) else PutItem(st[i].items, key, value);
      if value == "" {
        AfterDropSlot(st[i].items, KeySlot(key), key');
      } else {
        AfterPutItem(st[i].items, key, value, key');
      }
      AfterUpdate(st, i, st[i].(items := items), name', key');
    } else if value != "" {
      AfterAppend(st, NewSection(name).(items := [NewEntry(key, value)]), name', key');
    }
  }

  lemma SetAppends(st: Sections, name: string, key: string, value: string)
    requires !HasSection(st, name)
    ensures Set(st, name, key, value)
            == if value == "" then st else st + [NewSection(name).(items := [NewEntry(key, value)])]
  {
  }

  /** Setting what is already there, or removing what is not, leaves the list as it is. */
  lemma SetNothing(st: Sections, name: string, key: string, value: string)
    requires Get(st, name, key) == if value == "" then None else Some(value)
    ensures Set(st, name, key, value) == st
  {
    var i := FindSection(st, name);
    if i < |st| {
      var items := st[i].items;
      var j := FindSlot(items, KeySlot(key));
      if j < |items| {
        assert items[j := items[j].(value := value)] == items;
      }
      assert st[i].(items := items) == st[i];
    }
  }

  /** Removing an entry leaves the list as it is exactly when there is no such entry. */
  lemma RemovingNothing(st: Sections, name: string, key: string)
    requires Wf(st)
    ensures Set(st, name, key, "") == st <==> Get(st, name, key).None?
  {
    hide Wf, Set, Get;
    AfterSet(st, name, key, "", name, key);
    if Get(st, name, key).None? {
      SetNothing(st, name, key, "");
    }
  }

  lemma RemovedSection(st: Sections, name: string)
    ensures forall j :: 0 <= j < |RemoveSection(st, name)| ==>
              RemoveSection(st, name)[j] == st[if j < FindSection(st, name) then j else j + 1]
    ensures if HasSection(st, name) then |RemoveSection(st, name)| == |st| - 1 else RemoveSection(st, name) == st
  {
    hide FindSection, Without;
    if FindSection(st, name) < |st| {
      WithoutAt(st, FindSection(st, name));
    }
  }

  lemma RemoveKeepsWf(st: Sections, name: string)
    requires Wf(st)
    ensures Wf(RemoveSection(st, name))
    ensures forall j :: 0 <= j < |RemoveSection(st, name)| ==> RemoveSection(st, name)[j].name != name
  {
    hide RemoveSection, WfItems;
    RemovedSection(st, name);
    var i := FindSection(st, name);
    if i == |st| {
      assert RemoveSection(st, name) == st;
    }
  }

  lemma AfterRemoveSection(st: Sections, name: string, name': string, key': string)
    requires Wf(st)
    ensures Wf(RemoveSection(st, name))
    ensures HasSection(RemoveSection(st, name), name') <==> HasSection(st, name') && name' != name
    ensures Get(RemoveSection(st, name), name', key') == if name' == name then None else Get(st, name', key')
  {
    hide RemoveSection, WfItems, ItemValue;
    RemovedSection(st, name);
    RemoveKeepsWf(st, name);
    var (after, i, j) := (RemoveSection(st, name), FindSection(st, name), FindSection(st, name'));
    if j < |st| && name' != name {
      SectionIsAt(after, name', if j < i then j else j - 1);
    }
  }

  lemma AfterOpenSection(st: Sections, name: string, params: seq<Param>, name': string, key': string)
    requires Wf(st)
    ensures Wf(OpenSection(st, name, params))
    ensures HasSection(OpenSection(st, name, params), name') <==> HasSection(st, name') || name' == name
    ensures Get(OpenSection(st, name, params), name', key') == Get(st, name', key')
  {
    var i := FindSection(st, name);
    if i < |st| {
      AfterUpdate(st, i, st[i].(params := st[i].params + params), name', key');
    } else {
      AfterAppend(st, NewSection(name).(params := params), name', key');
    }
  }

  lemma AfterPutCommentIn(st: Sections, name: string, text: string, name': string, key': string)
    requires Wf(st)
    ensures Wf(PutCommentIn(st, name, text))
    ensures HasSection(PutCommentIn(st, name, text), name') == HasSection(st, name')
    ensures Get(PutCommentIn(st, name, text), name', key') == Get(st, name', key')
  {
    var i := FindSection(st, name);
    if i < |st| {
      AfterPutComment(st[i].items, text, key');
      AfterUpdate(st, i, st[i].(items := PutComment(st[i].items, text)), name', key');
    }
  }

  // ------------------------------------------------ order, flags, params, comments

  /** The items in other slots, in order. */
  function Except(items: seq<Item>, slot: Slot): seq<Item> {
    if items == [] then []
    else if items[0].Slot() == slot then Except(items[1..], slot)
    else [items[0]] + Except(items[1..], slot)
  }

  /** The other sections, in order. */
  function ExceptSection(st: Sections, name: string): Sections {
    if st == [] then []
    else if st[0].name == name then ExceptSection(st[1..], name)
    else [st[0]] + ExceptSection(st[1..], name)
  }

  lemma {:induction false} ExceptNothing(items: seq<Item>, slot: Slot)
    requires forall j :: 0 <= j < |items| ==> items[j].Slot() != slot
    ensures Except(items, slot) == items
  {
    if items != [] {
      ExceptNothing(items[1..], slot);
    }
  }

  lemma ExceptCons(item: Item, rest: seq<Item>, slot: Slot)
    ensures Except([item] + rest, slot) == (if item.Slot() == slot then [] else [item]) + Except(rest, slot)
    ensures Except([], slot) == []
  {
    hide Item.Slot;
    assert ([item] + rest)[0] == item && ([item] + rest)[1..] == rest;
  }

  lemma {:induction false} ExceptConcat(a: seq<Item>, b: seq<Item>, slot: Slot)
    ensures Except(a + b, slot) == Except(a, slot) + Except(b, slot)
  {
    hide *;
    if a == [] {
      ExceptCons(Comment(""), [], slot);
      assert a + b == b;
    } else {
      var (item, rest) := (a[0], a[1..]);
      ExceptConcat(rest, b, slot);
      ExceptCons(item, rest, slot);
      ExceptCons(item, rest + b, slot);
      assert a == [item] + rest && a + b == [item] + (rest + b);
      Assoc(if item.Slot() == slot then [] else [item], Except(rest, slot), Except(b, slot));
    }
  }

  lemma ExceptOne(item: Item, slot: Slot)
    ensures Except([item], slot) == if item.Slot() == slot then [] else [item]
  {
    assert [item][1..] == [];
  }

  lemma ExceptAround(front: seq<Item>, item: Item, back: seq<Item>, slot: Slot)
    requires item.Slot() == slot
    requires forall j :: 0 <= j < |front| ==> front[j].Slot() != slot
    requires forall j :: 0 <= j < |back| ==> back[j].Slot() != slot
    ensures Except(front + [item] + back, slot) == front + back
  {
    hide Except;
    ExceptConcat(front + [item], back, slot);
    ExceptConcat(front, [item], slot);
    ExceptOne(item, slot);
    ExceptNothing(front, slot);
    ExceptNothing(back, slot);
    assert front + [] == front;
  }

  lemma InThree(items: seq<Item>, i: nat)
    requires WfItems(items) && i < |items|
    ensures items == items[..i] + [items[i]] + items[i + 1..]
    ensures forall j :: 0 <= j < i ==> items[..i][j].Slot() != items[i].Slot()
    ensures var back := items[i + 1..]; forall j :: 0 <= j < |back| ==> back[j].Slot() != items[i].Slot()
  {
    var back := items[i + 1..];
    assert forall j :: 0 <= j < |back| ==> back[j] == items[i + 1 + j];
  }

  /** Around the item in the slot, or all items when there is none. */
  lemma AroundSlot(items: seq<Item>, slot: Slot)
    requires WfItems(items)
    ensures var i := FindSlot(items, slot);
            Except(items, slot) == if i < |items| then items[..i] + items[i + 1..] else items
  {
    var i := FindSlot(items, slot);
    hide Except, FindSlot, WfItems;
    if i < |items| {
      InThree(items, i);
      ExceptAround(items[..i], items[i], items[i + 1..], slot);
    } else {
      ExceptNothing(items, slot);
    }
  }

  /** A removal leaves exactly the other items, in order. */
  lemma DropIsExcept(items: seq<Item>, slot: Slot)
    requires WfItems(items)
    ensures DropSlot(items, slot) == Except(items, slot)
  {
    hide Except, FindSlot;
    AroundSlot(items, slot);
  }

  /** A comment read again goes to the end; the other items stay in order. */
  lemma CommentMovesToEnd(items: seq<Item>, text: string)
    requires WfItems(items)
    ensures PutComment(items, text) == Except(items, CommentSlot(text)) + [Comment(text)]
  {
    hide Except, DropSlot;
    DropIsExcept(items, CommentSlot(text));
  }

  /** A value put keeps its place and its flags, or goes to the end without any; the other
      items stay as they are and in order. */
  lemma PutKeepsTheRest(items: seq<Item>, key: string, value: string)
    requires WfItems(items)
    ensures var (after, i) := (PutItem(items, key, value), FindSlot(items, KeySlot(key)));
            && i < |after| && Except(after, KeySlot(key)) == Except(items, KeySlot(key))
            && |after| == (if i < |items| then |items| else |items| + 1)
            && after[i] == (if i < |items| then Entry(key, value, items[i].overwrite, items[i].skip)
                            else Entry(key, value, false, false))
  {
    var (after, i) := (PutItem(items, key, value), FindSlot(items, KeySlot(key)));
    hide Except, FindSlot, WfItems;
    AroundSlot(items, KeySlot(key));
    if i < |items| {
      InThree(items, i);
      assert after == items[..i] + [after[i]] + items[i + 1..];
      ExceptAround(items[..i], after[i], items[i + 1..], KeySlot(key));
    } else {
      assert after == items + [after[i]] + [];
      ExceptAround(items, after[i], [], KeySlot(key));
      assert items + [] == items;
    }
  }

  /** Setting touches nothing but the items of the section, or adds a section at the end. */
  lemma SetKeepsTheRest(st: Sections, name: string, key: string, value: string)
    requires Wf(st)
    ensures var (after, i) := (Set(st, name, key, value), FindSection(st, name));
            if i < |st| then
              && |after| == |st| && after[i] == st[i].(items := after[i].items)
              && (forall j :: 0 <= j < |st| && j != i ==> after[j] == st[j])
              && after[i].items == if value == "" then Except(st[i].items, KeySlot(key))
                                   else PutItem(st[i].items, key, value)
            else
              after == if value == "" then st else st + [Section(name, [], [Entry(key, value, false, false)], false, false)]
  {
    hide Except, PutItem, DropSlot, FindSection, WfItems;
    var i := FindSection(st, name);
    if i < |st| {
      assert WfItems(st[i].items);
      DropIsExcept(st[i].items, KeySlot(key));
    }
  }

  lemma {:induction false} OthersAround(st: Sections, name: string)
    requires UniqueNames(st)
    ensures ExceptSection(st, name) == RemoveSection(st, name)
  {
    if st != [] {
      var rest := st[1..];
      assert forall j :: 0 <= j < |rest| ==> rest[j] == st[j + 1];
      OthersAround(rest, name);
      if st[0].name == name {
        assert FindSection(rest, name) == |rest|;
        assert RemoveSection(st, name) == rest;
      } else {
        RemoveBehind(st, name);
      }
    }
  }

  lemma RemoveBehind(st: Sections, name: string)
    requires st != [] && st[0].name != name
    ensures RemoveSection(st, name) == [st[0]] + RemoveSection(st[1..], name)
  {
    var k := FindSection(st[1..], name);
    if k < |st| - 1 {
      assert st[..k + 1] == [st[0]] + st[1..][..k] && st[k + 2..] == st[1..][k + 1..];
    } else {
      assert st == [st[0]] + st[1..];
    }
  }

  /** A header gives its params to the section there is, after those it has, or to a new
      one at the end, and changes nothing else. */
  lemma OpenKeepsTheRest(st: Sections, name: string, params: seq<Param>)
    ensures var (after, i) := (OpenSection(st, name, params), FindSection(st, name));
            if i < |st| then
              && |after| == |st| && after[i] == st[i].(params := st[i].params + params)
              && (forall j :: 0 <= j < |st| && j != i ==> after[j] == st[j])
            else after == st + [Section(name, params, [], false, false)]
  {
    hide FindSection;
  }

  // ------------------------------------------------------------- the map it is

  /** The store as a map from (section, key) to value. */
  function ToMap(st: Sections): (m: map<(string, string), string>)
    ensures forall p :: p in m <==> Get(st, p.0, p.1).Some?
    ensures forall p :: p in m ==> Get(st, p.0, p.1) == Some(m[p])
  {
    var ps := set i, j | 0 <= i < |st| && 0 <= j < |st[i].items| && st[i].items[j].Entry?
                :: (st[i].name, st[i].items[j].key);
    map p | p in ps && Get(st, p.0, p.1).Some? :: Get(st, p.0, p.1).value
  }

  function Look(m: map<(string, string), string>, name: string, key: string): Option<string> {
    if (name, key) in m then Some(m[(name, key)]) else None
  }

  lemma ToMapLook(st: Sections, name: string, key: string)
    ensures Look(ToMap(st), name, key) == Get(st, name, key)
  {
    assert (name, key) in ToMap(st) <==> Get(st, name, key).Some?;
  }

  lemma ToMapIs(st: Sections, m: map<(string, string), string>)
    requires forall name, key :: Get(st, name, key) == Look(m, name, key)
    ensures ToMap(st) == m
  {
    forall p: (string, string)
      ensures p in ToMap(st) <==> p in m
      ensures p in m ==> ToMap(st)[p] == m[p]
    {
      assert p == (p.0, p.1);
      assert Get(st, p.0, p.1) == Look(m, p.0, p.1);
    }
  }

  /** Set is map update, or map removal when the value is empty. */
  lemma {:induction false} SetIsMapUpdate(st: Sections, name: string, key: string, value: string)
    requires Wf(st)
    ensures Wf(Set(st, name, key, value))
    ensures ToMap(Set(st, name, key, value))
            == if value == "" then ToMap(st) - {(name, key)} else ToMap(st)[(name, key) := value]
  {
    var m := if value == "" then ToMap(st) - {(name, key)} else ToMap(st)[(name, key) := value];
    AfterSet(st, name, key, value, name, key);
    forall name', key'
      ensures Get(Set(st, name, key, value), name', key') == Look(m, name', key')
    {
      AfterSet(st, name, key, value, name', key');
      assert (name', key') in ToMap(st) <==> Get(st, name', key').Some?;
    }
    ToMapIs(Set(st, name, key, value), m);
  }

  lemma RemoveSectionIsMapRestriction(st: Sections, name: string)
    requires Wf(st)
    ensures Wf(RemoveSection(st, name))
    ensures ToMap(RemoveSection(st, name)) == map p | p in ToMap(st) && p.0 != name :: ToMap(st)[p]
  {
    var m := map p | p in ToMap(st) && p.0 != name :: ToMap(st)[p];
    AfterRemoveSection(st, name, name, "");
    forall name', key'
      ensures Get(RemoveSection(st, name), name', key') == Look(m, name', key')
    {
      AfterRemoveSection(st, name, name', key');
      assert (name', key') in ToMap(st) <==> Get(st, name', key').Some?;
    }
    ToMapIs(RemoveSection(st, name), m);
  }
}
