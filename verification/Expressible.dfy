/**
 What configuration files can express: a store is read back from the file it is written
 as exactly when it is printable. What any text reads as is nearly so; the rest is told
 by counting the entries of the file and by following the scan of each header's params.
 */
module Expressible {
  import opened Lists
  import opened CText
  import opened Store
  import opened LineSyntax
  import opened Printer

  // ------------------------------------------------------ what any text reads as

  predicate ReadParam(p: Param) {
    p.key != "" && NoSpace(p.key) && '\0' !in p.key && p.value != "" && NoSpace(p.value) && '\0' !in p.value
  }

  predicate ReadParams(ps: seq<Param>) {
    forall i :: 0 <= i < |ps| ==> ReadParam(ps[i])
  }

  /** Of a key, only its first character is not yet what the file format needs. */
  predicate ReadItem(item: Item) {
    match item
    case Comment(text) => FirstChar(text, '#') && '\r' !in text && '\n' !in text
    case Entry(key, value, overwrite, skip) => PrintableKey(key) && PrintableValue(value) && !overwrite && !skip
  }

  predicate ReadItems(items: seq<Item>) {
    forall i :: 0 <= i < |items| ==> ReadItem(items[i])
  }

  predicate ReadSection(sec: Section) {
    PrintableName(sec.name) && !sec.overwrite && !sec.skip && ReadParams(sec.params) && ReadItems(sec.items)
  }

  predicate ReadStore(st: Sections) {
    forall i :: 0 <= i < |st| ==> ReadSection(st[i])
  }

  predicate ReadLine(line: Line) {
    match line
    case Header(name, params) => PrintableName(name) && ReadParams(params)
    case Remark(text) => ReadItem(Comment(text))
    case Assign(key, value) => PrintableKey(key) && PrintableValue(value)
    case Nothing => true
  }

  lemma NoSecondWord(s: string)
    requires Word(s) == ""
    ensures Word(AfterWord(s)) == ""
  {
    var rest := s[Blanks(s)..];
    assert rest != "" ==> NonBlanks(rest) > 0;
  }

  lemma {:induction false} ScanIsRead(t: string)
    ensures ReadParams(ScanParams(t))
    decreases |t|
  {
    hide Word, AfterWord, IndexOf, CString;
    var live := CString(t);
    var q := IndexOf(live, '=');
    if q < |live| {
      var spaced := live[q := ' '];
      assert '\0' !in spaced;
      if Word(spaced) == "" {
        NoSecondWord(spaced);
      }
      FirstParamAt(t, q);
      match FirstParam(t)
      case None =>
      case Some((param, rest)) =>
        assert ReadParam(param) by {
          WordsAreRead(spaced, param);
        }
        ScanIsRead(rest);
    } else {
      NoParam(t);
    }
  }

  lemma WordsAreRead(spaced: string, param: Param)
    requires '\0' !in spaced && param.key == Word(spaced) != "" && param.value == Word(AfterWord(spaced)) != ""
    ensures ReadParam(param)
  {
    hide Word, Blanks;
    assert forall c :: c in AfterWord(spaced) ==> c in spaced;
  }

  lemma HeaderIsRead(t: string)
    ensures ReadLine(ClassifyHeader(t))
  {
    hide Word, ScanParams, ReadParams, IndexOf;
    var e := IndexOf(t, ']');
    if e < |t| {
      var name := Word(t[..e]);
      assert ']' !in name;
      if e > |name| {
        ScanIsRead(t[e := '\0'][|name| + 1..]);
      }
    }
    assert ReadParams([]) by {
      NoParamsRead();
    }
  }

  lemma NoParamsRead()
    ensures ReadParams([])
  {
  }

  lemma CutIsClean(s: string)
    requires '\n' !in s
    ensures '\r' !in CutEol(s) && '\n' !in CutEol(s)
  {
    hide IndexOf;
  }

  lemma AssignIsRead(line: string, q: nat)
    requires '\n' !in line && q == IndexOf(line, '=') < |line|
    ensures Word(line[..q]) != "" ==> PrintableKey(Word(line[..q]))
    ensures var value := TrimEnd(CutEol(line[q + 1..])); value != "" ==> PrintableValue(value)
  {
    hide Word, IndexOf, CutEol, TrimEnd;
    CutIsClean(line[q + 1..]);
  }

  lemma RemarkIsRead(line: string)
    requires '\n' !in line && FirstChar(line, '#')
    ensures ReadItem(Comment(CutEol(line)))
  {
    CutIsClean(line);
    var (n, cut) := (Indent(line), CutEol(line));
    assert n < |cut| by {
      hide Indent;
      assert forall j :: 0 <= j <= n ==> line[j] != '\r' && line[j] != '\n';
    }
    SameIndent(line, cut);
  }

  lemma {:induction false} SameIndent(s: string, prefix: string)
    requires prefix <= s && Indent(s) < |prefix|
    ensures Indent(prefix) == Indent(s)
  {
    if s[0] == ' ' {
      SameIndent(s[1..], prefix[1..]);
    }
  }

  lemma ClassifyIsRead(line: string)
    requires '\n' !in line
    ensures ReadLine(Classify(line))
  {
    hide ClassifyHeader, Word, CutEol, TrimEnd, ReadItem, PrintableKey, PrintableValue;
    ClassifyCases(line);
    if FirstChar(line, '[') {
      HeaderIsRead(line[Indent(line) + 1..]);
    } else if FirstChar(line, '#') {
      RemarkIsRead(line);
    } else if IndexOf(line, '=') < |line| {
      AssignIsRead(line, IndexOf(line, '='));
    }
  }

  lemma PutIsRead(items: seq<Item>, key: string, value: string)
    requires ReadItems(items) && PrintableKey(key) && PrintableValue(value)
    ensures ReadItems(PutItem(items, key, value))
  {
    hide PrintableKey, PrintableValue;
  }

  lemma CommentIsRead(items: seq<Item>, text: string)
    requires ReadItems(items) && ReadItem(Comment(text))
    ensures ReadItems(PutComment(items, text))
  {
    hide ReadItem, DropSlot;
    DroppedSlot(items, CommentSlot(text));
  }

  lemma NoItemsRead()
    ensures ReadItems([])
  {
  }

  lemma ApplyIsRead(p: Parse, line: Line)
    requires ReadStore(p.st) && ReadLine(line) && (p.cur.Some? ==> HasSection(p.st, p.cur.value))
    ensures ReadStore(Apply(p, line).st)
  {
    hide PrintableName, PrintableKey, ReadItems, ReadParam, PutItem, PutComment, FindSection;
    match line
    case Header(name, params) => NoItemsRead();
    case Remark(text) =>
      if p.cur.Some? && HasSection(p.st, p.cur.value) {
        CommentIsRead(p.st[FindSection(p.st, p.cur.value)].items, text);
      }
    case Assign(key, value) =>
      if p.cur.Some? && HasSection(p.st, p.cur.value) {
        PutIsRead(p.st[FindSection(p.st, p.cur.value)].items, key, value);
      }
    case Nothing =>
  }

  lemma {:induction false} RunIsRead(p: Parse, lines: seq<Line>)
    requires ReadStore(p.st) && p.Valid() && Proper(lines)
    requires forall i :: 0 <= i < |lines| ==> ReadLine(lines[i])
    ensures ReadStore(Run(p, lines).st)
    decreases |lines|
  {
    if lines != [] {
      hide ReadStore, ReadLine, Wf, Apply;
      assert Proper([lines[0]]);
      AfterLine(p, lines[0], "", "");
      ApplyIsRead(p, lines[0]);
      RunIsRead(Apply(p, lines[0]), lines[1..]);
    }
  }

  lemma {:induction false} MeaningIsRead(lines: seq<string>)
    requires forall l :: l in lines ==> '\n' !in l
    ensures forall i :: 0 <= i < |lines| ==> ReadLine(Meaning(lines)[i])
  {
    if lines != [] {
      hide ReadLine, Classify;
      ClassifyIsRead(lines[0]);
      MeaningIsRead(lines[1..]);
    }
  }

  /** Whatever the text. */
  lemma ParseIsRead(text: string)
    ensures ReadStore(ParseText([], text))
  {
    hide ReadLine, Classify, Run, Lines;
    MeaningIsProper(Lines(text));
    MeaningIsRead(Lines(text));
    RunIsRead(Parse([], None), Meaning(Lines(text)));
  }

  // ------------------------------------------------------------ counting entries

  function EntriesOf(items: seq<Item>): nat {
    if items == [] then 0 else (if items[0].Entry? then 1 else 0) + EntriesOf(items[1..])
  }

  function Entries(st: Sections): nat {
    if st == [] then 0 else EntriesOf(st[0].items) + Entries(st[1..])
  }

  function Assigns(lines: seq<Line>): nat {
    if lines == [] then 0 else (if lines[0].Assign? then 1 else 0) + Assigns(lines[1..])
  }

  lemma {:induction false} EntriesOfConcat(a: seq<Item>, b: seq<Item>)
    ensures EntriesOf(a + b) == EntriesOf(a) + EntriesOf(b)
  {
    if a == [] {
      assert a + b == b;
    } else {
      EntriesOfConcat(a[1..], b);
      assert (a + b)[1..] == a[1..] + b;
    }
  }

  lemma {:induction false} EntriesConcat(a: Sections, b: Sections)
    ensures Entries(a + b) == Entries(a) + Entries(b)
  {
    if a == [] {
      assert a + b == b;
    } else {
      EntriesConcat(a[1..], b);
      assert (a + b)[1..] == a[1..] + b;
    }
  }

  lemma {:induction false} AssignsConcat(a: seq<Line>, b: seq<Line>)
    ensures Assigns(a + b) == Assigns(a) + Assigns(b)
  {
    if a == [] {
      assert a + b == b;
    } else {
      AssignsConcat(a[1..], b);
      assert (a + b)[1..] == a[1..] + b;
    }
  }

  lemma EntriesUpdate(st: Sections, i: nat, sec: Section)
    requires i < |st|
    ensures Entries(st[i := sec]) == Entries(st) - EntriesOf(st[i].items) + EntriesOf(sec.items)
  {
    hide EntriesOf;
    assert st == st[..i] + ([st[i]] + st[i + 1..]);
    assert st[i := sec] == st[..i] + ([sec] + st[i + 1..]);
    EntriesConcat(st[..i], [st[i]] + st[i + 1..]);
    EntriesConcat(st[..i], [sec] + st[i + 1..]);
  }

  lemma OneItem(item: Item)
    ensures EntriesOf([item]) == if item.Entry? then 1 else 0
  {
    assert [item][1..] == [];
  }

  lemma EntriesOfUpdate(items: seq<Item>, i: nat, item: Item)
    requires i < |items| && (items[i].Entry? <==> item.Entry?)
    ensures EntriesOf(items[i := item]) == EntriesOf(items)
  {
    hide EntriesOf;
    assert items == items[..i] + ([items[i]] + items[i + 1..]);
    assert items[i := item] == items[..i] + ([item] + items[i + 1..]);
    EntriesOfConcat(items[..i], [items[i]] + items[i + 1..]);
    EntriesOfConcat(items[..i], [item] + items[i + 1..]);
    EntriesOfConcat([items[i]], items[i + 1..]);
    EntriesOfConcat([item], items[i + 1..]);
    OneItem(item);
    OneItem(items[i]);
  }

  lemma EntriesOfWithout(items: seq<Item>, i: nat)
    requires i < |items|
    ensures EntriesOf(Without(items, i)) <= EntriesOf(items)
  {
    hide EntriesOf;
    assert items == items[..i] + ([items[i]] + items[i + 1..]);
    EntriesOfConcat(items[..i], [items[i]] + items[i + 1..]);
    EntriesOfConcat([items[i]], items[i + 1..]);
    EntriesOfConcat(items[..i], items[i + 1..]);
  }

  lemma EntriesAfterPut(items: seq<Item>, key: string, value: string)
    ensures EntriesOf(PutItem(items, key, value)) <= EntriesOf(items) + 1
  {
    hide EntriesOf, FindSlot;
    var i := FindSlot(items, KeySlot(key));
    if i < |items| {
      EntriesOfUpdate(items, i, items[i].(value := value));
    } else {
      EntriesOfConcat(items, [NewEntry(key, value)]);
      OneItem(NewEntry(key, value));
    }
  }

  lemma EntriesAfterComment(items: seq<Item>, text: string)
    ensures EntriesOf(PutComment(items, text)) <= EntriesOf(items)
  {
    hide EntriesOf, FindSlot, Without;
    var i := FindSlot(items, CommentSlot(text));
    if i < |items| {
      EntriesOfWithout(items, i);
    }
    EntriesOfConcat(DropSlot(items, CommentSlot(text)), [Comment(text)]);
    OneItem(Comment(text));
  }

  lemma NewSectionEntries(name: string, params: seq<Param>)
    ensures Entries([NewSection(name).(params := params)]) == 0
  {
  }

  /** A line that assigns brings at most one entry, any other line none. */
  lemma EntriesAfterLine(p: Parse, line: Line)
    requires (p.cur.Some? ==> HasSection(p.st, p.cur.value)) && Proper([line])
    ensures Entries(Apply(p, line).st) <= Entries(p.st) + (if line.Assign? then 1 else 0)
  {
    hide EntriesOf, Entries, PutItem, PutComment, FindSection;
    assert Proper([line]) && [line][0] == line;
    match line
    case Header(name, params) =>
      var i := FindSection(p.st, name);
      if i < |p.st| {
        EntriesUpdate(p.st, i, p.st[i].(params := p.st[i].params + params));
      } else {
        EntriesConcat(p.st, [NewSection(name).(params := params)]);
        NewSectionEntries(name, params);
      }
    case Remark(text) =>
      if p.cur.Some? {
        var i := FindSection(p.st, p.cur.value);
        EntriesUpdate(p.st, i, p.st[i].(items := PutComment(p.st[i].items, text)));
        EntriesAfterComment(p.st[i].items, text);
      }
    case Assign(key, value) =>
      if p.cur.Some? {
        var i := FindSection(p.st, p.cur.value);
        EntriesUpdate(p.st, i, p.st[i].(items := PutItem(p.st[i].items, key, value)));
        EntriesAfterPut(p.st[i].items, key, value);
      }
    case Nothing =>
  }

  lemma {:induction false} EntriesAfterRun(p: Parse, lines: seq<Line>)
    requires p.Valid() && Proper(lines)
    ensures Entries(Run(p, lines).st) <= Entries(p.st) + Assigns(lines)
    decreases |lines|
  {
    if lines != [] {
      hide Entries, Wf, Apply;
      assert Proper([lines[0]]);
      AfterLine(p, lines[0], "", "");
      EntriesAfterLine(p, lines[0]);
      EntriesAfterRun(Apply(p, lines[0]), lines[1..]);
    }
  }

  // ----------------------------------------------------------- the lines of a file

  /** What the printed line of an item means, whatever its key starts with. */
  function ItemLine(item: Item): Line {
    match item
    case Comment(text) => Classify(text)
    case Entry(key, value, _, _) => Classify(key + "=" + value)
  }

  function ItemLines(items: seq<Item>): seq<Line> {
    if items == [] then [] else [ItemLine(items[0])] + ItemLines(items[1..])
  }

  function HeaderText(sec: Section): string {
    "[" + sec.name + ParamsText(sec.params) + "]"
  }

  function SectionLines(sec: Section): seq<Line> {
    [Classify(HeaderText(sec))] + ItemLines(sec.items) + [Nothing]
  }

  function FileLines(st: Sections): seq<Line> {
    if st == [] then [] else SectionLines(st[0]) + FileLines(st[1..])
  }

  lemma ItemLineRead(item: Item, post: string)
    requires ReadItem(item)
    ensures Meaning(Lines(ItemText(item) + post)) == [ItemLine(item)] + Meaning(Lines(post))
  {
    hide Classify, Lines, Meaning;
    match item
    case Comment(text) => MeaningOfLine(text, post);
    case Entry(key, value, _, _) =>
      assert '\n' !in key by {
        assert NoSpace(key);
      }
      var line := key + "=" + value;
      MeaningOfLine(line, post);
      assert ItemText(item) == line + "\n";
  }

  lemma {:induction false} ItemLinesRead(items: seq<Item>, post: string)
    requires ReadItems(items)
    ensures Meaning(Lines(ItemsText(items) + post)) == ItemLines(items) + Meaning(Lines(post))
    decreases |items|
  {
    hide Classify, Lines, Meaning, ItemText, ItemLine, ReadItem;
    if items == [] {
      assert ItemsText(items) + post == post;
    } else {
      var item, rest := items[0], items[1..];
      ItemLinesRead(rest, post);
      ItemLineRead(item, ItemsText(rest) + post);
      Assoc(ItemText(item), ItemsText(rest), post);
      Assoc([ItemLine(item)], ItemLines(rest), Meaning(Lines(post)));
    }
  }

  lemma {:induction false} ParamsOnOneLine(ps: seq<Param>)
    requires ReadParams(ps)
    ensures '\n' !in ParamsText(ps) && '\0' !in ParamsText(ps)
    ensures ps != [] ==> ParamsText(ps) == " " + (ps[0].key + "=" + ps[0].value + ParamsText(ps[1..]))
    ensures ParamsText(ps) == "" <==> ps == []
    ensures ParamsText(ps) == "" || ParamsText(ps)[0] == ' '
  {
    if ps != [] {
      assert ReadParam(ps[0]);
      ParamsOnOneLine(ps[1..]);
      FourParts(ps[0].key, "=", ps[0].value, ParamsText(ps[1..]));
    }
  }

  lemma SectionLinesRead(sec: Section, post: string)
    requires ReadSection(sec)
    ensures Meaning(Lines(SectionText(sec) + post)) == SectionLines(sec) + Meaning(Lines(post))
  {
    hide Classify, Lines, Meaning, ParamsText, ItemsText, SectionText, ItemLines, ReadItems, ReadParams;
    ParamsOnOneLine(sec.params);
    assert '\n' !in sec.name by {
      assert NoSpace(sec.name);
    }
    FirstLineOfSection(sec, post);
    MeaningOfLine(HeaderText(sec), ItemsText(sec.items) + ("\n" + post));
    ItemLinesRead(sec.items, "\n" + post);
    BlankLine(post);
  }

  lemma {:induction false} FileLinesRead(st: Sections)
    requires ReadStore(st)
    ensures Meaning(Lines(FileText(st))) == FileLines(st)
  {
    if st != [] {
      hide Meaning, Lines, ReadSection, SectionLines, SectionText;
      FileLinesRead(st[1..]);
      SectionLinesRead(st[0], FileText(st[1..]));
    }
  }

  // ------------------------------------------------------ counting the lost entries

  /** The line of an entry assigns exactly when the entry is printable. */
  lemma EntryAssigns(item: Item)
    requires ReadItem(item) && item.Entry?
    ensures ItemLine(item).Assign? <==> PrintableItem(item)
  {
    hide Word, IndexOf, CutEol, TrimEnd;
    var line := item.key + "=" + item.value;
    if item.key[0] == '#' || item.key[0] == '[' {
      assert line[0] == item.key[0] && Indent(line) == 0;
      ClassifyCases(line);
    } else {
      EntryReadBack("", item.key, item.value);
      assert "" + item.key + "=" + item.value == line;
    }
  }

  lemma CommentDoesNotAssign(text: string)
    requires ReadItem(Comment(text))
    ensures !ItemLine(Comment(text)).Assign? && PrintableItem(Comment(text))
  {
    ClassifyCases(text);
  }

  lemma {:induction false} AssignsOfItems(items: seq<Item>)
    requires ReadItems(items)
    ensures Assigns(ItemLines(items)) <= EntriesOf(items)
    ensures Assigns(ItemLines(items)) == EntriesOf(items) <==> PrintableItems(items)
  {
    if items != [] {
      hide ItemLine, ReadItem, PrintableItem;
      assert ReadItem(items[0]);
      AssignsOfItems(items[1..]);
      var lines := ItemLines(items);
      assert lines[0] == ItemLine(items[0]) && lines[1..] == ItemLines(items[1..]);
      match items[0]
      case Comment(text) => CommentDoesNotAssign(text);
      case Entry(_, _, _, _) => EntryAssigns(items[0]);
    }
  }

  lemma HeaderDoesNotAssign(sec: Section)
    ensures !Classify(HeaderText(sec)).Assign?
  {
    var line := HeaderText(sec);
    assert line[0] == '[' && Indent(line) == 0;
    hide ClassifyHeader;
    ClassifyCases(line);
    HeaderIsRead(line[1..]);
    hide Classify;
    NeverAssign(line[1..]);
  }

  lemma NeverAssign(t: string)
    ensures !ClassifyHeader(t).Assign?
  {
  }

  lemma AssignsOfSection(sec: Section)
    ensures Assigns(SectionLines(sec)) == Assigns(ItemLines(sec.items))
  {
    hide Assigns, ItemLines, HeaderText;
    var head := Classify(HeaderText(sec));
    AssignsConcat([head] + ItemLines(sec.items), [Nothing]);
    AssignsConcat([head], ItemLines(sec.items));
    HeaderDoesNotAssign(sec);
    LineAssigns(head);
    LineAssigns(Nothing);
  }

  lemma LineAssigns(line: Line)
    ensures Assigns([line]) == if line.Assign? then 1 else 0
  {
    assert [line][1..] == [];
  }

  lemma {:induction false} AssignsOfFile(st: Sections)
    requires ReadStore(st)
    ensures Assigns(FileLines(st)) <= Entries(st)
    ensures Assigns(FileLines(st)) == Entries(st) ==> forall i :: 0 <= i < |st| ==> PrintableItems(st[i].items)
  {
    if st != [] {
      hide Assigns, EntriesOf, SectionLines, ReadItems, PrintableItems;
      AssignsOfFile(st[1..]);
      AssignsConcat(SectionLines(st[0]), FileLines(st[1..]));
      AssignsOfSection(st[0]);
      assert ReadSection(st[0]);
      AssignsOfItems(st[0].items);
      assert forall i :: 0 < i < |st| ==> st[i] == st[1..][i - 1];
    }
  }

  // ------------------------------------------------------- following a params scan

  /** The buffer of a header from its params on, its closing bracket at the end: the
      first bracket is overwritten, whichever that is. */
  function Nulled(s: string): string
    requires ']' in s
  {
    s[IndexOf(s, ']') := '\0']
  }

  lemma NulledAt(pre: string, post: string)
    requires ']' !in pre
    ensures Nulled(pre + "]" + post) == pre + "\0" + post
  {
    hide IndexOf;
    FirstIndex(pre, ']', post);
    assert pre + "]" + post == pre + [']'] + post;
  }

  /** A bracket is overwritten, or read past, but not read before it is overwritten. */
  lemma NoBracketInParam(pre: string, post: string)
    requires ']' !in pre && '\0' !in pre
    ensures match FirstParam(pre + "\0" + post)
            case None => true
            case Some((param, _)) => ']' !in param.key && ']' !in param.value
  {
    hide Word, AfterWord, IndexOf, CString, FirstParam, Turn;
    var t := pre + "\0" + post;
    TextToNul(pre, post);
    var q := IndexOf(pre, '=');
    if q == |pre| {
      NoParam(t);
    } else {
      FirstParamAt(t, q);
      var spaced := pre[q := ' '];
      assert ']' !in spaced;
      WordsOf(spaced, ']');
      TurnParam(t, q, Word(spaced), Word(AfterWord(spaced)));
    }
  }

  lemma WordsOf(s: string, c: char)
    requires c !in s
    ensures c !in Word(s) && c !in Word(AfterWord(s))
  {
    hide Word;
  }

  lemma TurnParam(t: string, q: nat, key: string, value: string)
    requires q < |t|
    ensures match Turn(t, q, key, value)
            case None => true
            case Some((param, _)) => param == Param(key, value)
  {
  }

  /** A key with an `=` in it is not read back: it ends before the `=`, or begins after it. */
  lemma EqualsInKey(a: string, b: string, v: string, more: string, post: string)
    requires ReadParam(Param(a + "=" + b, v)) && '=' !in a
    requires '\0' !in more && (more == "" || IsSpace(more[0]))
    ensures match FirstParam(a + "=" + b + "=" + v + more + "\0" + post)
            case None => true
            case Some((param, _)) => param.key != a + "=" + b
  {
    hide Word, AfterWord, IndexOf, CString, FirstParam, Turn, ReadParam;
    var rest := b + "=" + v;
    var live := a + "=" + rest + more;
    KeyIsRead(a, b, v);
    assert a + "=" + b + "=" + v + more == live;
    assert '\0' !in live;
    TextToNul(live, post);
    EqualsAt(a, rest + more);
    assert live == a + "=" + (rest + more);
    var t := live + "\0" + post;
    FirstParamAt(t, |a|);
    var spaced := live[|a| := ' '];
    FirstWordOf(a, rest, more);
    TurnParam(t, |a|, Word(spaced), Word(AfterWord(spaced)));
    assert |rest| == |b| + 1 + |v| && |a + "=" + b| == |a| + 1 + |b|;
  }

  lemma EqualsAt(a: string, more: string)
    requires '=' !in a
    ensures IndexOf(a + "=" + more, '=') == |a|
  {
    FirstIndex(a, '=', more);
    assert a + "=" + more == a + ['='] + more;
  }

  lemma FirstWordOf(a: string, rest: string, more: string)
    requires NoSpace(a) && NoSpace(rest) && rest != "" && (more == "" || IsSpace(more[0]))
    ensures Word((a + "=" + rest + more)[|a| := ' ']) == if a == "" then rest else a
  {
    hide Word, AfterWord;
    var spaced := (a + "=" + rest + more)[|a| := ' '];
    if a == "" {
      WordIs(" ", rest, more);
      assert spaced == " " + rest + more;
    } else {
      WordIs("", a, " " + rest + more);
      assert spaced == "" + a + (" " + rest + more);
    }
  }

  lemma KeyIsRead(a: string, b: string, v: string)
    requires ReadParam(Param(a + "=" + b, v))
    ensures NoSpace(a) && NoSpace(b + "=" + v) && v != ""
    ensures '\0' !in a && '\0' !in b && '\0' !in v
  {
    var k := a + "=" + b;
    assert forall j :: 0 <= j < |a| ==> a[j] == k[j];
    assert forall j :: 0 <= j < |b| ==> b[j] == k[|a| + 1 + j];
  }

  /** Where the first bracket of a printed params list stands: in the first param, or
      after it with the rest of the list up to there. */
  lemma FirstBracket(kv: string, more: string) returns (pre: string, post: string)
    ensures kv + more + "]" == pre + "]" + post && ']' !in pre
    ensures ']' in kv ==> pre < kv
    ensures ']' !in kv ==> kv <= pre && pre[|kv|..] + "]" + post == more + "]"
  {
    var s := kv + more + "]";
    hide IndexOf;
    var e := IndexOf(s, ']');
    assert s[|s| - 1] == ']';
    FirstIsNoLater(s, ']', |s| - 1);
    pre, post := s[..e], s[e + 1..];
    assert s == pre + "]" + post;
    if ']' in kv {
      assert e < |kv| by {
        var j :| 0 <= j < |kv| && kv[j] == ']';
        assert s[j] == ']';
        assert e <= j by {
          FirstIsNoLater(s, ']', j);
        }
      }
      assert pre == kv[..e];
    } else {
      assert e >= |kv| by {
        assert forall j :: 0 <= j < |kv| ==> s[j] == kv[j];
      }
      assert pre == kv + pre[|kv|..];
      assert s[|kv|..] == more + "]" && s[|kv|..] == pre[|kv|..] + "]" + post;
    }
  }

  /** One turn on a printed param, when the first bracket comes later. */
  lemma OneParamBack(k: string, v: string, more: string, post: string)
    requires ReadParam(Param(k, v)) && ']' !in k && ']' !in v
    requires (more == "" || IsSpace(more[0])) && '\0' !in more
    ensures '=' in k ==> match FirstParam(k + "=" + v + more + "\0" + post)
                         case None => true
                         case Some((param, _)) => param.key != k
    ensures '=' !in k ==> FirstParam(k + "=" + v + more + "\0" + post)
                          == Some((Param(k, v), (if more == "" then "" else more[1..] + "\0") + post))
  {
    hide FirstParam;
    if '=' in k {
      var q := IndexOf(k, '=');
      hide IndexOf;
      assert k == k[..q] + "=" + k[q + 1..];
      EqualsInKey(k[..q], k[q + 1..], v, more, post);
    } else {
      assert '\0' !in k + "=" + v + more;
      ScanOneParam(k, v, more);
      FirstParamOf(k + "=" + v + more, post);
    }
  }

  lemma ScanHead(t: string, ps: seq<Param>)
    requires ScanParams(t) == ps != []
    ensures FirstParam(t).Some? && FirstParam(t).value.0 == ps[0] && ScanParams(FirstParam(t).value.1) == ps[1..]
  {
    hide FirstParam;
  }

  /** A params list that is read back from its header is printable. */
  lemma {:induction false} ReadBackParams(ps: seq<Param>)
    requires ps != [] && ReadParams(ps) && ParamsText(ps) != ""
    requires ScanParams(Nulled(ParamsText(ps)[1..] + "]")) == ps
    ensures PrintableParams(ps)
    decreases |ps|
  {
    hide FirstParam, ParamsText, Nulled, ScanParams, ReadParam;
    var (k, v, more) := (ps[0].key, ps[0].value, ParamsText(ps[1..]));
    var kv := k + "=" + v;
    ParamsOnOneLine(ps);
    ParamsOnOneLine(ps[1..]);
    assert ParamsText(ps)[1..] + "]" == kv + more + "]";
    var pre, post := FirstBracket(kv, more);
    NulledAt(pre, post);
    var t := pre + "\0" + post;
    ScanHead(t, ps);
    assert ReadParam(Param(k, v));
    if ']' in kv {
      assert '\0' !in pre by {
        NoNulInPair(k, v);
      }
      NoBracketInParam(pre, post);
    } else {
      var more' := pre[|kv|..];
      assert pre == kv + more';
      PrefixOfMore(more, more', post);
      OneParamBack(k, v, more', post);
      GoodPair(k, v);
      if more != "" {
        var rest := more'[1..] + "\0" + post;
        assert (more'[1..] + "\0") + post == rest;
        NulledAt(more'[1..], post);
        ReadBackParams(ps[1..]);
      }
    }
  }

  lemma NoNulInPair(k: string, v: string)
    requires ReadParam(Param(k, v))
    ensures '\0' !in k + "=" + v
  {
  }

  lemma GoodPair(k: string, v: string)
    requires ReadParam(Param(k, v)) && ']' !in k + "=" + v
    ensures ']' !in k && ']' !in v
    ensures '=' !in k ==> PrintableParam(Param(k, v))
  {
    assert forall j :: 0 <= j < |k| ==> (k + "=" + v)[j] == k[j];
    assert forall j :: 0 <= j < |v| ==> (k + "=" + v)[|k| + 1 + j] == v[j];
  }

  /** What of the rest of the list stands before its first bracket. */
  lemma PrefixOfMore(more: string, more': string, post: string)
    requires more' + "]" + post == more + "]" && (more == "" || more[0] == ' ') && '\0' !in more
    requires ']' !in more'
    ensures '\0' !in more' && (more' == "" <==> more == "")
    ensures more != "" ==> more'[0] == ' ' && more'[1..] + "]" + post == more[1..] + "]"
  {
    var (n, s) := (|more'|, more + "]");
    assert |s| == n + 1 + |post|;
    assert more' == s[..n] == more[..n];
    assert n == 0 ==> s[0] == ']';
    if more != "" {
      assert s[0] == ' ';
      assert s[1..] == more[1..] + "]";
      assert (more' + "]" + post)[1..] == more'[1..] + "]" + post;
    }
  }

  // ------------------------------------------------------------- the whole file

  /** The params a printed header is read with. */
  function ParamsBack(ps: seq<Param>): seq<Param> {
    if ps == [] || ParamsText(ps) == "" then [] else ScanParams(Nulled(ParamsText(ps)[1..] + "]"))
  }

  lemma HeaderBack(sec: Section)
    requires ReadSection(sec)
    ensures Classify(HeaderText(sec)) == Header(sec.name, ParamsBack(sec.params))
  {
    hide ParamsText, ScanParams, Nulled, ClassifyHeader, PrintableName, ReadParams, ReadItems;
    var (name, text) := (sec.name, ParamsText(sec.params));
    ParamsOnOneLine(sec.params);
    var line := HeaderText(sec);
    assert line[0] == '[' && Indent(line) == 0 && line[1..] == name + text + "]";
    ClassifyCases(line);
    var pre, post := FirstBracket("", text);
    assert "" + text + "]" == text + "]" && pre[0..] == pre;
    assert name + text + "]" == name + pre + "]" + post by {
      Regroup(name, text, pre, post);
    }
    if text == "" {
      assert pre == "" && post == "" by {
        assert |pre + "]" + post| == 1;
      }
    } else {
      PrefixOfMore(text, pre, post);
      NulledAt(pre[1..], post);
    }
    HeaderThenText(name, pre, post);
  }

  lemma Regroup(name: string, text: string, pre: string, post: string)
    requires text + "]" == pre + "]" + post
    ensures name + text + "]" == name + pre + "]" + post
  {
    assert name + text + "]" == name + (text + "]");
    assert name + pre + "]" + post == name + (pre + "]" + post);
  }

  /** The section as its printed lines give it back when its items are printable. */
  function Back(sec: Section): Section {
    sec.(params := ParamsBack(sec.params))
  }

  function BackAll(st: Sections): (r: Sections)
    ensures |r| == |st| && forall i :: 0 <= i < |st| ==> r[i] == Back(st[i])
  {
    seq(|st|, i requires 0 <= i < |st| => Back(st[i]))
  }

  lemma {:induction false} PrintableLines(items: seq<Item>)
    requires PrintableItems(items)
    ensures ItemLines(items) == ItemsMeaning(items) && Plain(items)
  {
    if items != [] {
      hide ItemLine, ItemMeaning, PrintableItem;
      PrintableLines(items[1..]);
      PrintableLine(items[0]);
      NoFlags(items[0]);
    }
  }

  lemma PrintableLine(item: Item)
    requires PrintableItem(item)
    ensures ItemLine(item) == ItemMeaning(item)
  {
    hide Classify, PrintableValue;
    match item
    case Comment(text) => CommentReadBack(text);
    case Entry(key, value, _, _) =>
      EntryReadBack("", key, value);
      assert "" + key + "=" + value == key + "=" + value;
  }

  lemma NoFlags(item: Item)
    ensures PrintableItem(item) && item.Entry? ==> !item.overwrite && !item.skip
  {
  }

  lemma SectionBack(p: Parse, sec: Section)
    requires ReadSection(sec) && PrintableItems(sec.items) && !HasSection(p.st, sec.name) && WfItems(sec.items)
    ensures Run(p, SectionLines(sec)) == Parse(p.st + [Back(sec)], Some(sec.name))
  {
    hide Classify, ParamsBack, HeaderText, ItemLines, ItemsMeaning, PrintableItems, WfItems, ReadParams, ReadItems;
    HeaderBack(sec);
    PrintableLines(sec.items);
    assert SectionLines(sec) == SectionMeaning(Back(sec)) + [Nothing];
    RunSection(p, Back(sec));
    RunConcat(p, SectionMeaning(Back(sec)), [Nothing]);
    RunNothing(Parse(p.st + [Back(sec)], Some(sec.name)));
  }

  lemma RunNothing(p: Parse)
    ensures Run(p, [Nothing]) == p
  {
    assert [Nothing][1..] == [];
  }

  lemma {:induction false} FileBack(p: Parse, st: Sections)
    requires ReadStore(st) && (forall i :: 0 <= i < |st| ==> PrintableItems(st[i].items)) && Wf(p.st + BackAll(st))
    ensures Run(p, FileLines(st)).st == p.st + BackAll(st)
    decreases |st|
  {
    hide Wf, PrintableItems, ReadSection, SectionLines;
    if st == [] {
      assert p.st + BackAll(st) == p.st;
    } else {
      hide Run;
      var rest := st[1..];
      assert BackAll(st) == [Back(st[0])] + BackAll(rest);
      Assoc(p.st, [Back(st[0])], BackAll(rest));
      NewNames(p.st, Back(st[0]), BackAll(rest));
      SectionBack(p, st[0]);
      RunConcat(p, SectionLines(st[0]), FileLines(rest));
      FileBack(Parse(p.st + [Back(st[0])], Some(st[0].name)), rest);
    }
  }

  lemma BackKeepsWf(st: Sections)
    requires Wf(st)
    ensures Wf([] + BackAll(st))
  {
    hide ParamsBack, WfItems;
    assert [] + BackAll(st) == BackAll(st);
  }

  /** No entry may be lost between the file and the store it is read as. */
  lemma ItemsArePrintable(st: Sections)
    requires ReadStore(st) && ParseText([], FileText(st)) == st
    ensures forall i :: 0 <= i < |st| ==> PrintableItems(st[i].items)
  {
    hide ReadStore, Meaning, Lines, FileText, FileLines, Run, Entries, Assigns, PrintableItems;
    FileLinesRead(st);
    MeaningIsProper(Lines(FileText(st)));
    EntriesAfterRun(Parse([], None), FileLines(st));
    assert Entries([]) == 0 by {
      NoEntries();
    }
    AssignsOfFile(st);
  }

  lemma NoEntries()
    ensures Entries([]) == 0
  {
  }

  lemma ParamsArePrintable(st: Sections, i: nat)
    requires ReadStore(st) && i < |st| && ParamsBack(st[i].params) == st[i].params
    ensures PrintableParams(st[i].params)
  {
    hide Nulled, ScanParams, ParamsText, PrintableParams, ReadItems;
    var ps := st[i].params;
    assert ReadSection(st[i]);
    if ps == [] {
      NoParamsPrintable();
    } else {
      ParamsOnOneLine(ps);
      ReadBackParams(ps);
    }
  }

  lemma NoParamsPrintable()
    ensures PrintableParams([])
  {
  }

  /** A well-formed store is read back from its file exactly when it is printable. */
  lemma PrintableExactly(st: Sections)
    requires Wf(st)
    ensures ParseText([], FileText(st)) == st <==> Printable(st)
  {
    hide Wf, PrintableItems, PrintableParams, ReadItems, ReadParams, FileText, FileLines, Meaning, Lines, Run, ParamsBack;
    if Printable(st) {
      ParseUndoesPrint(st);
    }
    if ParseText([], FileText(st)) == st {
      ParseIsRead(FileText(st));
      ItemsArePrintable(st);
      BackKeepsWf(st);
      FileLinesRead(st);
      FileBack(Parse([], None), st);
      assert st == BackAll(st);
      forall i | 0 <= i < |st|
        ensures PrintableSection(st[i])
      {
        assert st[i] == Back(st[i]) && ReadSection(st[i]);
        ParamsArePrintable(st, i);
      }
    }
  }

  lemma PrintableEntry(st: Sections, name: string, key: string)
    requires Printable(st) && Get(st, name, key).Some?
    ensures PrintableItem(NewEntry(key, Get(st, name, key).value))
  {
    hide PrintableName, PrintableParams, PrintableKey, PrintableValue, PrintableItems, FindSection, FindSlot;
    var sec := st[FindSection(st, name)];
    assert PrintableSection(sec);
    PrintableItemsAll(sec.items);
    assert PrintableItem(sec.items[FindSlot(sec.items, KeySlot(key))]);
  }

  /** One value set: it is read back, with everything else, exactly when its entry is printable. */
  lemma SetIsReadBackExactly(st: Sections, name: string, key: string, value: string)
    requires Printable(st) && PrintableName(name) && value != ""
    ensures var after := Set(st, name, key, value);
            ParseText([], FileText(after)) == after <==> PrintableItem(NewEntry(key, value))
  {
    hide Printable, PrintableName, PrintableItem, ParseText, FileText, Set, Get, Wf;
    assert Wf(st) by {
      PrintableIsWf(st);
    }
    AfterSet(st, name, key, value, name, key);
    PrintableExactly(Set(st, name, key, value));
    if Printable(Set(st, name, key, value)) {
      PrintableEntry(Set(st, name, key, value), name, key);
    }
    if PrintableItem(NewEntry(key, value)) {
      SetKeepsPrintable(st, name, key, value);
    }
  }

  lemma PrintableIsWf(st: Sections)
    requires Printable(st)
    ensures Wf(st)
  {
  }
}
