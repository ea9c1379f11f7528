/**
 The two texts a store is written as, the configuration file and the debugging
 dump, and what reading them back gives.
 */
module Printer {
  import opened Lists
  import opened CText
  import opened Store
  import opened LineSyntax

  // ---------------------------------------------------------------------- the texts

  /** Params and entries with an empty value are not written. */
  function ParamText(p: Param): string {
    if p.value != "" then " " + p.key + "=" + p.value else ""
  }

  function ParamsText(ps: seq<Param>): string {
    if ps == [] then "" else ParamText(ps[0]) + ParamsText(ps[1..])
  }

  function ItemText(item: Item): string {
    match item
    case Comment(text) => text + "\n"
    case Entry(key, value, _, _) => if value != "" then key + "=" + value + "\n" else ""
  }

  function ItemsText(items: seq<Item>): string {
    if items == [] then "" else ItemText(items[0]) + ItemsText(items[1..])
  }

  function SectionText(sec: Section): string {
    "[" + sec.name + ParamsText(sec.params) + "]\n" + ItemsText(sec.items) + "\n"
  }

  /** The configuration file. */
  function FileText(st: Sections): string {
    if st == [] then "" else SectionText(st[0]) + FileText(st[1..])
  }

  function DumpItems(items: seq<Item>): string {
    if items == [] then ""
    else if items[0].Entry? then "\t" + items[0].key + "=" + items[0].value + "\n" + DumpItems(items[1..])
    else DumpItems(items[1..])
  }

  /** linphone_config_dump */
  function DumpText(st: Sections): string {
    if st == [] then "" else "[" + st[0].name + "]\n" + DumpItems(st[0].items) + DumpText(st[1..])
  }

  lemma ItemsTextCons(item: Item, items: seq<Item>)
    ensures ItemsText([item] + items) == ItemText(item) + ItemsText(items) && ItemsText([]) == ""
    ensures DumpItems([]) == ""
    ensures DumpItems([item] + items)
            == (if item.Entry? then "\t" + item.key + "=" + item.value + "\n" else "") + DumpItems(items)
  {
    hide ItemText;
    assert ([item] + items)[1..] == items;
  }

  lemma ParamsTextCons(p: Param, ps: seq<Param>)
    ensures ParamsText([p] + ps) == ParamText(p) + ParamsText(ps) && ParamsText([]) == ""
  {
    hide ParamText;
    assert ([p] + ps)[1..] == ps;
  }

  lemma ShownWithValue(p: Param, item: Item)
    ensures ParamText(p) == if p.value == "" then "" else " " + p.key + "=" + p.value
    ensures ItemText(item) == match item
                              case Comment(text) => text + "\n"
                              case Entry(key, value, _, _) => if value == "" then "" else key + "=" + value + "\n"
  {
  }

  /** A section with one param and one item: in the file, where they do not show without a
      value, and in the dump, where params and comments never do. */
  lemma SectionFormat(name: string, p: Param, item: Item, overwrite: bool, skip: bool)
    ensures var st := [Section(name, [p], [item], overwrite, skip)];
            && FileText(st)
               == "[" + name + (if p.value == "" then "" else " " + p.key + "=" + p.value) + "]\n"
                  + (match item
                     case Comment(text) => text + "\n"
                     case Entry(key, value, _, _) => if value == "" then "" else key + "=" + value + "\n")
                  + "\n"
            && DumpText(st) == "[" + name + "]\n"
                               + if item.Entry? then "\t" + item.key + "=" + item.value + "\n" else ""
  {
    var sec := Section(name, [p], [item], overwrite, skip);
    ItemsTextCons(item, []);
    ParamsTextCons(p, []);
    ShownWithValue(p, item);
    assert [item] + [] == [item] && [p] + [] == [p] && [sec][1..] == [];
    hide ParamText, ItemText;
    assert FileText([]) == "" && DumpText([]) == "";
    hide ItemsText, ParamsText, DumpItems;
    var shown := if item.Entry? then "\t" + item.key + "=" + item.value + "\n" else "";
    assert DumpItems([item]) == shown + "" == shown;
  }

  // ---------------------------------------------------------------- well-formedness

  predicate PrintableName(name: string) {
    name != "" && NoSpace(name) && ']' !in name
  }

  predicate PrintableParam(p: Param) {
    && p.key != "" && NoSpace(p.key) && '=' !in p.key && ']' !in p.key && '\0' !in p.key
    && p.value != "" && NoSpace(p.value) && ']' !in p.value && '\0' !in p.value
  }

  predicate PrintableParams(ps: seq<Param>) {
    ps != [] ==> PrintableParam(ps[0]) && PrintableParams(ps[1..])
  }

  predicate PrintableValue(value: string) {
    value != "" && '\r' !in value && '\n' !in value && value[|value| - 1] != ' '
  }

  predicate PrintableKey(key: string) {
    key != "" && NoSpace(key) && '=' !in key
  }

  /** Flags are not part of the file, so a printable entry has none. */
  predicate PrintableItem(item: Item) {
    match item
    case Comment(text) => FirstChar(text, '#') && '\r' !in text && '\n' !in text
    case Entry(key, value, overwrite, skip) =>
      PrintableKey(key) && key[0] != '#' && key[0] != '[' && PrintableValue(value) && !overwrite && !skip
  }

  predicate PrintableItems(items: seq<Item>) {
    items != [] ==> PrintableItem(items[0]) && PrintableItems(items[1..])
  }

  predicate PrintableSection(sec: Section) {
    && PrintableName(sec.name) && !sec.overwrite && !sec.skip
    && PrintableParams(sec.params) && PrintableItems(sec.items)
  }

  /** The configurations the file format can express. */
  predicate Printable(st: Sections) {
    Wf(st) && forall i :: 0 <= i < |st| ==> PrintableSection(st[i])
  }

  lemma {:induction false} PrintableItemsAll(items: seq<Item>)
    ensures PrintableItems(items) <==> forall i :: 0 <= i < |items| ==> PrintableItem(items[i])
  {
    if items != [] {
      hide PrintableItem;
      PrintableItemsAll(items[1..]);
      assert forall i :: 0 < i < |items| ==> items[i] == items[1..][i - 1];
    }
  }

  lemma PrintableAfterChange(items: seq<Item>, key: string, value: string)
    requires PrintableItems(items)
    ensures PrintableItems(DropSlot(items, KeySlot(key)))
    ensures PrintableItem(NewEntry(key, value)) ==> PrintableItems(PutItem(items, key, value))
  {
    var i := FindSlot(items, KeySlot(key));
    PrintableItemsAll(items);
    PrintableItemsAll(DropSlot(items, KeySlot(key)));
    PrintableItemsAll(PutItem(items, key, value));
    DroppedSlot(items, KeySlot(key));
    assert i < |items| ==> PrintableItem(items[i]);
  }

  /** Setting a printable value keeps a configuration expressible in the file format. */
  lemma SetKeepsPrintable(st: Sections, name: string, key: string, value: string)
    requires Printable(st) && PrintableName(name)
    requires value == "" || PrintableItem(NewEntry(key, value))
    ensures Printable(Set(st, name, key, value))
  {
    hide Wf, PrintableName, PrintableItem, PrintableItems, PutItem, DropSlot;
    AfterSet(st, name, key, value, name, key);
    var i := FindSection(st, name);
    if i < |st| {
      assert PrintableSection(st[i]);
      PrintableAfterChange(st[i].items, key, value);
    } else if value != "" {
      LoneEntryIsPrintable(NewEntry(key, value));
    }
  }

  lemma LoneEntryIsPrintable(item: Item)
    requires PrintableItem(item)
    ensures PrintableItems([item])
  {
    assert [item][1..] == [];
  }

  // ------------------------------------------------------------- one line read back

  lemma ParamsTextStart(ps: seq<Param>)
    requires PrintableParams(ps)
    ensures ps != [] ==> ParamsText(ps) == " " + (ps[0].key + "=" + ps[0].value + ParamsText(ps[1..]))
    ensures ParamsText(ps) == "" <==> ps == []
    ensures ParamsText(ps) == "" || IsSpace(ParamsText(ps)[0])
  {
    if ps != [] {
      FourParts(ps[0].key, "=", ps[0].value, ParamsText(ps[1..]));
    }
  }

  lemma FourParts(a: string, b: string, c: string, d: string)
    ensures " " + a + b + c + d == " " + (a + b + c + d)
  {
  }

  lemma {:induction false} ParamsTextClean(ps: seq<Param>)
    requires PrintableParams(ps)
    ensures ']' !in ParamsText(ps) && '\0' !in ParamsText(ps) && '\n' !in ParamsText(ps)
  {
    if ps != [] {
      ParamsTextClean(ps[1..]);
      assert PrintableParam(ps[0]);
    }
  }

  lemma TwoWords(k: string, v: string, more: string)
    requires k != "" && NoSpace(k) && v != "" && NoSpace(v)
    requires more == "" || IsSpace(more[0])
    ensures Word(k + " " + v + more) == k
    ensures Word(AfterWord(k + " " + v + more)) == v
  {
    assert k + " " + v + more == "" + k + (" " + v + more);
    WordIs("", k, " " + v + more);
    WordIs(" ", v, more);
  }

  /** The buffer after the scan has replaced `=` by a blank, and what is left of it. */
  lemma PastOneParam(k: string, v: string, more: string)
    ensures (k + "=" + v + more)[|k| := ' '] == k + " " + v + more
    ensures (k + "=" + v + more + "\0")[|k| := ' '] == k + " " + v + more + "\0"
    ensures |k| + |v| + 2 <= |k + "=" + v + more + "\0"|
    ensures (k + " " + v + more + "\0")[|k| + |v| + 2..] == if more == "" then "" else more[1..] + "\0"
  {
    var t := k + " " + v + more + "\0";
    var after := more + "\0";
    assert t == (k + " " + v) + after;
    assert t[|k| + 1 + |v|..] == after;
    assert t[|k| + |v| + 2..] == after[1..];
  }

  /** One turn of the params scan on `k=v` followed by more, up to the bracket's NUL. */
  lemma ScanOneParam(k: string, v: string, more: string)
    requires PrintableParam(Param(k, v))
    requires (more == "" || IsSpace(more[0])) && '\0' !in more
    ensures FirstParam(k + "=" + v + more + "\0")
            == Some((Param(k, v), if more == "" then "" else more[1..] + "\0"))
  {
    hide Word, AfterWord, CString, IndexOf, FirstParam, PrintableParam;
    var written := k + "=" + v + more;
    WrittenParam(k, v, more);
    PastOneParam(k, v, more);
    assert NoSpace(k) && k != "" && NoSpace(v) && v != "" by {
      ParamWords(Param(k, v));
    }
    TwoWords(k, v, more);
    FirstParamAt(written + "\0", |k|);
  }

  lemma ParamWords(p: Param)
    requires PrintableParam(p)
    ensures p.key != "" && NoSpace(p.key) && p.value != "" && NoSpace(p.value)
  {
  }

  /** Where a written param ends and where its `=` stands. */
  lemma WrittenParam(k: string, v: string, more: string)
    requires PrintableParam(Param(k, v)) && '\0' !in more
    ensures CString(k + "=" + v + more + "\0") == k + "=" + v + more
    ensures IndexOf(k + "=" + v + more, '=') == |k| < |k + "=" + v + more|
  {
    hide CString, IndexOf;
    var written := k + "=" + v + more;
    CStringIs(written, []);
    assert written + "\0" == written + ['\0'] + [];
    FirstIndex(k, '=', v + more);
    assert written == k + ['='] + (v + more);
  }

  /** The params scan undoes the canonical writing of a params list. */
  lemma {:induction false} ScanWrittenParams(ps: seq<Param>)
    requires ps != [] && PrintableParams(ps)
    ensures ParamsText(ps) != ""
    ensures ScanParams(ParamsText(ps)[1..] + "\0") == ps
    decreases |ps|
  {
    hide FirstParam, ParamsText;
    ParamsTextStart(ps);
    var k, v, more := ps[0].key, ps[0].value, ParamsText(ps[1..]);
    var t := ParamsText(ps)[1..] + "\0";
    var rest := if more == "" then "" else more[1..] + "\0";
    assert t == k + "=" + v + more + "\0";
    ParamsTextStart(ps[1..]);
    assert FirstParam(t) == Some((ps[0], rest)) by {
      ParamsTextClean(ps[1..]);
      ScanOneParam(k, v, more);
    }
    assert ScanParams(rest) == ps[1..] by {
      if ps[1..] != [] {
        ScanWrittenParams(ps[1..]);
      }
    }
  }

  // ---------------------------------------------------- text after a printed header

  /** The last printed param always ends right at the bracket. */
  lemma {:induction false} PrintedEndsAtBracket(ps: seq<Param>)
    requires ps != [] && PrintableParams(ps)
    ensures ParamsText(ps) != "" && '\0' !in ParamsText(ps)
    ensures EndsAtBracket(ParamsText(ps)[1..])
    decreases |ps|
  {
    hide FirstParam, ParamsText, PrintableParam;
    ParamsTextStart(ps);
    ParamsTextStart(ps[1..]);
    ParamsTextClean(ps);
    var k, v, more := ps[0].key, ps[0].value, ParamsText(ps[1..]);
    assert ParamsText(ps)[1..] == k + "=" + v + more;
    ParamsTextClean(ps[1..]);
    ScanOneParam(k, v, more);
    if ps[1..] != [] {
      PrintedEndsAtBracket(ps[1..]);
      var rest := more[1..] + "\0";
      assert rest[..|rest| - 1] == more[1..];
    }
  }

  lemma HeaderThenText(name: string, params: string, post: string)
    requires PrintableName(name) && ']' !in params
    requires params == "" || IsSpace(params[0])
    ensures ClassifyHeader(name + params + "]" + post)
            == Header(name, if params == "" then [] else ScanParams(params[1..] + "\0" + post))
  {
    hide Word, IndexOf, ScanParams, ClassifyHeader;
    var inner := name + params;
    var t := name + params + "]" + post;
    assert t == inner + [']'] + post;
    FirstIndex(inner, ']', post);
    assert t[..|inner|] == inner && t[|inner| + 1..] == post;
    assert inner == "" + name + params;
    WordIs("", name, params);
    HeaderOf(t);
    if params != "" {
      assert t[|name| + 1..|inner|] == params[1..];
    }
  }

  /** Text after the bracket of a printed header is read for params exactly when the
      header has params of its own. */
  lemma TextAfterPrintedHeader(name: string, ps: seq<Param>, post: string)
    requires PrintableName(name) && PrintableParams(ps)
    ensures Classify("[" + name + ParamsText(ps) + "]" + post)
            == Header(name, if ps == [] then [] else ps + ScanParams(post))
  {
    hide ScanParams, EndsAtBracket, Word, IndexOf, ParamsText, ClassifyHeader;
    var params := ParamsText(ps);
    var line := "[" + name + params + "]" + post;
    assert line[0] == '[' && Indent(line) == 0;
    assert line[1..] == name + params + "]" + post;
    ParamsTextStart(ps);
    ParamsTextClean(ps);
    HeaderThenText(name, params, post);
    if ps != [] {
      PrintedEndsAtBracket(ps);
      ScanWrittenParams(ps);
      ScanBeyondBracket(params[1..], post);
    }
  }

  lemma HeaderReadBack(name: string, ps: seq<Param>)
    requires PrintableName(name) && PrintableParams(ps)
    ensures Classify("[" + name + ParamsText(ps) + "]") == Header(name, ps)
    ensures '\n' !in "[" + name + ParamsText(ps) + "]"
  {
    hide ParamsText, Classify;
    TextAfterPrintedHeader(name, ps, "");
    var line := "[" + name + ParamsText(ps) + "]";
    assert line + "" == line;
    FirstParamOfNothing();
    assert ScanParams("") == [] && ps + [] == ps;
    ParamsTextClean(ps);
    assert '\n' !in name by {
      assert NoSpace(name);
    }
  }

  /** The shortest kind of line where that shows: one param in the bracket, one behind it. */
  lemma ParamBehindTheBracket()
    ensures Classify("[s a=b]c=d") == Header("s", [Param("a", "b"), Param("c", "d")])
    ensures Classify("[s]c=d") == Header("s", [])
  {
    hide ScanParams, Classify;
    var ps := [Param("a", "b")];
    assert ps[1..] == [] && ParamsText(ps) == " a=b" && ParamsText([]) == "";
    TextAfterPrintedHeader("s", ps, "c=d");
    TextAfterPrintedHeader("s", [], "c=d");
    assert "[" + "s" + ParamsText(ps) + "]" + "c=d" == "[s a=b]c=d";
    assert "[" + "s" + ParamsText([]) + "]" + "c=d" == "[s]c=d";
    ScanLastParam("c", "d");
    assert "c" + "=" + "d" == "c=d";
    assert ps + [Param("c", "d")] == [Param("a", "b"), Param("c", "d")];
  }

  /** A pair at the very end of a line. */
  lemma ScanLastParam(k: string, v: string)
    requires PrintableParam(Param(k, v))
    ensures ScanParams(k + "=" + v) == [Param(k, v)]
  {
    hide Word, AfterWord, IndexOf, CString, FirstParam;
    var t := k + "=" + v;
    CStringIs(t, "");
    FirstIndex(k, '=', v);
    assert t == k + ['='] + v;
    FirstParamAt(t, |k|);
    TwoWords(k, v, "");
    assert t[|k| := ' '] == k + " " + v + "";
    FirstParamOfNothing();
  }

  lemma NoEolToCut(s: string)
    requires '\r' !in s && '\n' !in s
    ensures CutEol(s) == s
  {
    FirstIndex(s, '\n', "");
  }

  lemma CommentReadBack(text: string)
    requires PrintableItem(Comment(text))
    ensures Classify(text) == Remark(text)
  {
    NoEolToCut(text);
  }

  /** A key may be indented by a tab, as in the dump, or not at all, as in the file. */
  lemma EntryReadBack(indent: string, key: string, value: string)
    requires indent == "\t" || (indent == "" && key != "" && key[0] != '#' && key[0] != '[')
    requires PrintableKey(key) && PrintableValue(value)
    ensures Classify(indent + key + "=" + value) == Assign(key, value)
    ensures '\n' !in indent + key + "=" + value
  {
    var line := indent + key + "=" + value;
    assert line[0] == if indent == "" then key[0] else '\t';
    assert !IsSpace(key[0]);
    assert Indent(line) == 0;
    assert '=' !in indent + key;
    FirstIndex(indent + key, '=', value);
    assert line == indent + key + ['='] + value;
    assert line[..|indent + key|] == indent + key + "";
    assert line[|indent + key| + 1..] == value;
    WordIs(indent, key, "");
    NoEolToCut(value);
    assert TrimEnd(value) == value;
    assert '\n' !in key by {
      assert NoSpace(key);
    }
  }

  // ------------------------------------------------------------- a section read back

  function ItemMeaning(item: Item): Line {
    match item
    case Comment(text) => Remark(text)
    case Entry(key, value, _, _) => Assign(key, value)
  }

  function ItemsMeaning(items: seq<Item>): (ls: seq<Line>)
    ensures |ls| == |items|
  {
    if items == [] then [] else [ItemMeaning(items[0])] + ItemsMeaning(items[1..])
  }

  lemma ItemReadBack(item: Item, post: string)
    requires PrintableItem(item)
    ensures Meaning(Lines(ItemText(item) + post)) == [ItemMeaning(item)] + Meaning(Lines(post))
  {
    hide Classify, Lines, Meaning;
    match item
    case Comment(text) =>
      CommentReadBack(text);
      MeaningOfLine(text, post);
    case Entry(key, value, _, _) =>
      EntryReadBack("", key, value);
      var line := "" + key + "=" + value;
      MeaningOfLine(line, post);
      assert ItemText(item) == line + "\n";
  }

  lemma {:induction false} ItemsReadBack(items: seq<Item>, post: string)
    requires PrintableItems(items)
    ensures Meaning(Lines(ItemsText(items) + post)) == ItemsMeaning(items) + Meaning(Lines(post))
    decreases |items|
  {
    hide Classify, Lines, Meaning, ItemText;
    if items == [] {
      assert ItemsText(items) + post == post;
    } else {
      var item, rest := items[0], items[1..];
      ItemsReadBack(rest, post);
      ItemReadBack(item, ItemsText(rest) + post);
      Assoc(ItemText(item), ItemsText(rest), post);
      Assoc([ItemMeaning(item)], ItemsMeaning(rest), Meaning(Lines(post)));
    }
  }

  lemma MeaningOfLine(line: string, post: string)
    requires '\n' !in line
    ensures Meaning(Lines(line + "\n" + post)) == [Classify(line)] + Meaning(Lines(post))
  {
    FirstLine(line, post);
    MeaningCons(line, Lines(post));
  }

  function SectionMeaning(sec: Section): seq<Line> {
    [Header(sec.name, sec.params)] + ItemsMeaning(sec.items)
  }

  lemma FirstLineOfSection(sec: Section, post: string)
    ensures SectionText(sec) + post
            == "[" + sec.name + ParamsText(sec.params) + "]" + "\n" + (ItemsText(sec.items) + ("\n" + post))
  {
  }

  lemma BlankLine(post: string)
    ensures Meaning(Lines("\n" + post)) == [Nothing] + Meaning(Lines(post))
  {
    MeaningOfLine("", post);
    assert "" + "\n" + post == "\n" + post;
    assert Classify("") == Nothing;
  }

  lemma SectionReadBack(sec: Section, post: string)
    requires PrintableSection(sec)
    ensures Meaning(Lines(SectionText(sec) + post)) == SectionMeaning(sec) + [Nothing] + Meaning(Lines(post))
  {
    hide Classify, Lines, Meaning, ParamsText, ItemsText, SectionText, ItemsMeaning;
    var line := "[" + sec.name + ParamsText(sec.params) + "]";
    HeaderReadBack(sec.name, sec.params);
    FirstLineOfSection(sec, post);
    MeaningOfLine(line, ItemsText(sec.items) + ("\n" + post));
    ItemsReadBack(sec.items, "\n" + post);
    BlankLine(post);
  }

  predicate Plain(items: seq<Item>) {
    items != [] ==> (items[0].Entry? ==> !items[0].overwrite && !items[0].skip) && Plain(items[1..])
  }

  lemma PrintableIsPlain(items: seq<Item>)
    requires PrintableItems(items)
    ensures Plain(items)
  {
    if items != [] {
      PrintableIsPlain(items[1..]);
    }
  }

  /** Reading the lines of new items, in order, appends those items. */
  lemma {:induction false} RunItems(st: Sections, sec: Section, items: seq<Item>)
    requires !HasSection(st, sec.name)
    requires WfItems(sec.items + items) && Plain(items)
    ensures Run(Parse(st + [sec], Some(sec.name)), ItemsMeaning(items))
            == Parse(st + [sec.(items := sec.items + items)], Some(sec.name))
    decreases |items|
  {
    if items == [] {
      assert sec.items + items == sec.items;
    } else {
      var item := items[0];
      var all := sec.items + items;
      assert all[|sec.items|] == item;
      var sec' := sec.(items := sec.items + [item]);
      var i := FindSection(st + [sec], sec.name);
      assert i == |st| by {
        assert forall j :: 0 <= j < |st| ==> (st + [sec])[j] == st[j];
        assert (st + [sec])[|st|] == sec;
      }
      assert forall j :: 0 <= j < |sec.items| ==> all[j] == sec.items[j];
      assert FindSlot(sec.items, item.Slot()) == |sec.items|;
      assert (st + [sec])[i := sec'] == st + [sec'];
      assert Apply(Parse(st + [sec], Some(sec.name)), ItemMeaning(item)) == Parse(st + [sec'], Some(sec.name));
      assert sec'.items + items[1..] == all;
      assert ItemsMeaning(items)[0] == ItemMeaning(item) && ItemsMeaning(items)[1..] == ItemsMeaning(items[1..]);
      RunItems(st, sec', items[1..]);
    }
  }

  lemma RunSection(p: Parse, sec: Section)
    requires !HasSection(p.st, sec.name) && WfItems(sec.items) && Plain(sec.items)
    requires !sec.overwrite && !sec.skip
    ensures Run(p, SectionMeaning(sec)) == Parse(p.st + [sec], Some(sec.name))
  {
    var start := NewSection(sec.name).(params := sec.params);
    RunItems(p.st, start, sec.items);
    assert [] + sec.items == sec.items;
    assert start.(items := [] + sec.items) == sec;
    assert SectionMeaning(sec)[1..] == ItemsMeaning(sec.items);
    assert Apply(p, Header(sec.name, sec.params)) == Parse(p.st + [start], Some(sec.name));
  }

  lemma NewNames(front: Sections, sec: Section, back: Sections)
    requires Wf(front + [sec] + back)
    ensures Wf(front) && !HasSection(front, sec.name) && WfItems(sec.items)
  {
    var st := front + [sec] + back;
    assert forall j :: 0 <= j < |front| ==> st[j] == front[j];
    assert st[|front|] == sec;
  }

  lemma {:induction false} FileReadBack(p: Parse, secs: Sections)
    requires Wf(p.st + secs) && forall i :: 0 <= i < |secs| ==> PrintableSection(secs[i])
    ensures Run(p, Meaning(Lines(FileText(secs)))).st == p.st + secs
    decreases |secs|
  {
    if secs == [] {
      assert p.st + secs == p.st;
    } else {
      var sec, post := secs[0], FileText(secs[1..]);
      assert p.st + secs == p.st + [sec] + secs[1..];
      NewNames(p.st, sec, secs[1..]);
      SectionReadBack(sec, post);
      PrintableIsPlain(sec.items);
      RunSection(p, sec);
      var q := Parse(p.st + [sec], Some(sec.name));
      RunConcat(p, SectionMeaning(sec) + [Nothing], Meaning(Lines(post)));
      RunConcat(p, SectionMeaning(sec), [Nothing]);
      FileReadBack(q, secs[1..]);
    }
  }

  /** Parsing the file a configuration is printed as gives that configuration back:
      same sections, params, comments and entries, in the same order. */
  lemma ParseUndoesPrint(st: Sections)
    requires Printable(st)
    ensures ParseText([], FileText(st)) == st
  {
    assert [] + st == st;
    FileReadBack(Parse([], None), st);
  }

  // -------------------------------------------------------------------- the dump

  /** A section without what the dump leaves out: params, comments and flags. */
  function Bare(sec: Section): Section {
    NewSection(sec.name).(items := BareItems(sec.items))
  }

  function BareItems(items: seq<Item>): (es: seq<Item>)
    ensures Plain(es)
  {
    if items == [] then []
    else
      var rest := BareItems(items[1..]);
      if items[0].Entry? then
        var e := NewEntry(items[0].key, items[0].value);
        assert ([e] + rest)[1..] == rest;
        [e] + rest
      else rest
  }

  function BareAll(st: Sections): (r: Sections)
    ensures |r| == |st| && forall i :: 0 <= i < |st| ==> r[i] == Bare(st[i])
  {
    seq(|st|, i requires 0 <= i < |st| => Bare(st[i]))
  }

  /** Names with no white space or `]`, keys with no white space or `=`, printable values. */
  predicate Dumpable(st: Sections) {
    && Wf(st)
    && (forall i :: 0 <= i < |st| ==> PrintableName(st[i].name) && DumpableItems(st[i].items))
  }

  predicate DumpableItems(items: seq<Item>) {
    items != [] ==>
      && (items[0].Entry? ==> PrintableKey(items[0].key) && PrintableValue(items[0].value))
      && DumpableItems(items[1..])
  }

  lemma {:induction false} BareItemsWf(items: seq<Item>, key: string)
    requires WfItems(items)
    ensures WfItems(BareItems(items))
    ensures ItemValue(BareItems(items), key) == ItemValue(items, key)
    decreases |items|
  {
    if items != [] {
      var item, rest := items[0], items[1..];
      assert items == [item] + rest;
      ConsItem(item, rest, key);
      ConsWfItems(item, rest);
      BareItemsWf(rest, key);
      if item.Entry? {
        var e := NewEntry(item.key, item.value);
        BareItemsWf(rest, item.key);
        ConsItem(e, BareItems(rest), key);
        WfItemsCons(e, BareItems(rest));
      }
    }
  }

  lemma BareKeepsLookups(st: Sections, name: string, key: string)
    requires Wf(st)
    ensures Wf(BareAll(st))
    ensures Get(BareAll(st), name, key) == Get(st, name, key)
    ensures HasSection(BareAll(st), name) == HasSection(st, name)
  {
    var bare := BareAll(st);
    assert forall i :: 0 <= i < |st| ==> bare[i].name == st[i].name;
    forall i | 0 <= i < |st|
      ensures WfItems(bare[i].items)
    {
      BareItemsWf(st[i].items, key);
    }
    var i := FindSection(st, name);
    if i < |st| {
      SectionIsAt(bare, name, i);
      BareItemsWf(st[i].items, key);
    }
  }

  lemma {:induction false} DumpItemsReadBack(items: seq<Item>, post: string)
    requires DumpableItems(items)
    ensures Meaning(Lines(DumpItems(items) + post)) == ItemsMeaning(BareItems(items)) + Meaning(Lines(post))
    decreases |items|
  {
    hide Classify, Lines, Meaning, PrintableKey, PrintableValue;
    if items == [] {
      assert DumpItems(items) + post == post;
    } else {
      var item, rest := items[0], items[1..];
      var more := DumpItems(rest) + post;
      DumpItemsReadBack(rest, post);
      if item.Entry? {
        var line := "\t" + item.key + "=" + item.value;
        EntryReadBack("\t", item.key, item.value);
        MeaningOfLine(line, more);
        Assoc(line + "\n", DumpItems(rest), post);
        var e := NewEntry(item.key, item.value);
        assert ([e] + BareItems(rest))[1..] == BareItems(rest);
        Assoc([ItemMeaning(e)], ItemsMeaning(BareItems(rest)), Meaning(Lines(post)));
      } else {
        assert DumpItems(items) == DumpItems(rest);
      }
    }
  }

  lemma DumpSectionReadBack(sec: Section, post: string)
    requires PrintableName(sec.name) && DumpableItems(sec.items)
    ensures Meaning(Lines("[" + sec.name + "]\n" + DumpItems(sec.items) + post))
            == SectionMeaning(Bare(sec)) + Meaning(Lines(post))
  {
    hide Classify, Lines, Meaning, DumpItems;
    var line := "[" + sec.name + "]";
    var more := DumpItems(sec.items) + post;
    HeaderReadBack(sec.name, []);
    assert "[" + sec.name + ParamsText([]) + "]" == line;
    MeaningOfLine(line, more);
    DumpItemsReadBack(sec.items, post);
    assert "[" + sec.name + "]\n" + DumpItems(sec.items) + post == line + "\n" + more;
  }

  lemma FirstSectionDumped(st: Sections)
    requires st != []
    ensures BareAll(st) == [Bare(st[0])] + BareAll(st[1..])
    ensures DumpText(st) == "[" + st[0].name + "]\n" + DumpItems(st[0].items) + DumpText(st[1..])
  {
  }

  lemma {:induction false} DumpLinesReadBack(p: Parse, st: Sections)
    requires Wf(p.st + BareAll(st))
    requires forall i :: 0 <= i < |st| ==> PrintableName(st[i].name) && DumpableItems(st[i].items)
    ensures Run(p, Meaning(Lines(DumpText(st)))).st == p.st + BareAll(st)
    decreases |st|
  {
    if st == [] {
      assert p.st + BareAll(st) == p.st;
    } else {
      hide Run, Meaning, Lines, Wf, DumpableItems, PrintableName, DumpText, DumpItems, BareAll;
      var sec, post := Bare(st[0]), DumpText(st[1..]);
      FirstSectionDumped(st);
      Assoc(p.st, [sec], BareAll(st[1..]));
      NewNames(p.st, sec, BareAll(st[1..]));
      DumpSectionReadBack(st[0], post);
      RunSection(p, sec);
      RunConcat(p, SectionMeaning(sec), Meaning(Lines(post)));
      DumpLinesReadBack(Parse(p.st + [sec], Some(sec.name)), st[1..]);
    }
  }

  lemma DumpReadBack(st: Sections)
    requires Dumpable(st)
    ensures Wf(st) && ParseBuffer(DumpText(st)) == BareAll(st)
  {
    hide Wf, Classify;
    BlankLinesDoNotMatter(Parse([], None), DumpText(st));
    BareKeepsLookups(st, "", "");
    assert [] + BareAll(st) == BareAll(st);
    DumpLinesReadBack(Parse([], None), st);
  }

  /** Loading a dump from a buffer keeps every section and every lookup, in order,
      and drops exactly comments, header params and flags. */
  lemma LoadUndoesDump(st: Sections)
    requires Dumpable(st)
    ensures ParseBuffer(DumpText(st)) == BareAll(st)
    ensures Wf(BareAll(st)) && ToMap(BareAll(st)) == ToMap(st)
    ensures forall name :: HasSection(BareAll(st), name) == HasSection(st, name)
  {
    hide DumpText, Meaning, Run, Lines, Tokens, Get, HasSection, Dumpable, Wf, Look;
    DumpReadBack(st);
    BareKeepsLookups(st, "", "");
    forall name, key
      ensures Get(BareAll(st), name, key) == Look(ToMap(st), name, key)
      ensures HasSection(BareAll(st), name) == HasSection(st, name)
    {
      BareKeepsLookups(st, name, key);
      ToMapLook(st, name, key);
    }
    forall name ensures HasSection(BareAll(st), name) == HasSection(st, name) {
      BareKeepsLookups(st, name, "");
    }
    ToMapIs(BareAll(st), ToMap(st));
  }
}
