/**
 The configuration object: lookups, changes, the line parser, the two printers,
 saving and loading. The ghost field `store` is the value the section objects hold,
 and every method says what becomes of it.
 */
module Config {
  import opened Lists
  import opened CText
  import opened Store
  import opened LineSyntax
  import opened Printer
  import opened Durability
  import Refinement
  import Syncing
  import opened SectionList
  import opened LineBuffer

  class LpConfig {
    ghost var store: Sections
    var sections: seq<LpSection>
    var modified: bool
    var filename: Option<string>
    var readonly: bool
    var abortSync: bool

    ghost predicate Mirrors()
      reads this, sections
    {
      |store| == |sections| && forall i :: 0 <= i < |sections| ==> sections[i].Value() == store[i]
    }

    ghost predicate Valid()
      reads this, sections
    {
      Mirrors() && Wf(store)
    }

    constructor ()
      ensures Valid() && store == [] && sections == []
      ensures !modified && filename == None && !readonly && !abortSync
    {
      store, sections, modified := [], [], false;
      filename, readonly, abortSync := None, false, false;
    }

    /** The section objects; a method only ever adds new ones. */
    ghost function Owned(): set<LpSection>
      reads this
    {
      set s | s in sections
    }

    // ---------------------------------------------------------------- lookups

    method FindSection(name: string) returns (sec: LpSection?)
      requires Mirrors()
      ensures sec == null <==> !HasSection(store, name)
      ensures sec != null ==> sec in sections && sec.name == name
      ensures sec != null ==> sec == sections[Store.FindSection(store, name)]
    {
      var i := 0;
      while i < |sections|
        invariant i <= |sections|
        invariant forall j :: 0 <= j < i ==> store[j].name != name
      {
        if sections[i].name == name {
          return sections[i];
        }
        i := i + 1;
      }
      return null;
    }

    /** linphone_config_get_string */
    method GetString(name: string, key: string, default: string) returns (value: string)
      requires Valid()
      ensures value == match Get(store, name, key) case Some(v) => v case None => default
    {
      var sec := FindSection(name);
      if sec != null {
        var i := sec.Find(KeySlot(key));
        if i < |sec.items| {
          return sec.items[i].value;
        }
      }
      return default;
    }

    /** linphone_config_has_entry */
    method HasEntry(name: string, key: string) returns (r: bool)
      requires Valid()
      ensures r <==> Get(store, name, key).Some?
    {
      var sec := FindSection(name);
      if sec == null {
        return false;
      }
      var i := sec.Find(KeySlot(key));
      return i < |sec.items|;
    }

    // ---------------------------------------------------------------- changes

    /** Store and flag are what a change makes of what they were. */
    ghost predicate Altered(st: Sections, marked: bool, c: Refinement.Change)
      reads this
    {
      Refinement.Session(store, map[], modified)
      == Refinement.Do(Refinement.Session(st, map[], marked), Refinement.Alter(c))
    }

    /** Every section object is the one its name finds, and occurs once. */
    lemma AtItsPlace(sec: LpSection)
      requires Valid() && sec in sections
      ensures var i := Store.FindSection(store, sec.name);
              i < |sections| && sections[i] == sec && forall j :: 0 <= j < |sections| && sections[j] == sec ==> j == i
    {
      var i :| 0 <= i < |sections| && sections[i] == sec;
      SectionIsAt(store, sec.name, i);
      forall j | 0 <= j < |sections| && sections[j] == sec
        ensures j == i
      {
        SectionIsAt(store, sec.name, j);
      }
    }

    /** One section of the list gets new items. */
    method ReplaceItems(sec: LpSection, items: seq<Item>)
      requires Valid() && sec in sections
      modifies this`store, sec`items
      ensures Mirrors() && store == WithItems(old(store), sec.name, items)
    {
      AtItsPlace(sec);
      sec.items := items;
      store := WithItems(store, sec.name, items);
    }

    method AddSection(sec: LpSection)
      requires Mirrors()
      modifies this`store, this`sections
      ensures Mirrors() && sections == old(sections) + [sec] && store == old(store) + [sec.Value()]
    {
      sections, store := sections + [sec], store + [sec.Value()];
    }

    method AddSectionWith(name: string, key: string, value: string)
      requires Mirrors()
      modifies this`store, this`sections
      ensures Mirrors() && fresh(Owned() - old(Owned()))
      ensures store == old(store) + [NewSection(name).(items := [NewEntry(key, value)])]
    {
      var sec := new LpSection(name);
      sec.items := [NewEntry(key, value)];
      AddSection(sec);
    }

    /** The case of linphone_config_set_string where the section exists. */
    method SetIn(sec: LpSection, key: string, value: string) returns (done: bool)
      requires Valid() && sec in sections
      modifies this`store, sec`items
      ensures Mirrors() && store == Set(old(store), sec.name, key, value)
      ensures done <==> value == "" || Get(old(store), sec.name, key) != Some(value)
    {
      hide Wf;
      AtItsPlace(sec);
      done := true;
      var j := sec.Find(KeySlot(key));
      if j < |sec.items| {
        if value != "" {
          if value == sec.items[j].value {
            SetNothing(store, sec.name, key, value);
            return false;
          }
          ReplaceItems(sec, sec.items[j := sec.items[j].(value := value)]);
        } else {
          ReplaceItems(sec, Without(sec.items, j));
        }
      } else if value != "" {
        ReplaceItems(sec, sec.items + [NewEntry(key, value)]);
      } else {
        SetNothing(store, sec.name, key, "");
      }
    }

    /** linphone_config_set_string: nothing is marked modified when the value is already there. */
    method SetString(name: string, key: string, value: string)
      requires Valid()
      modifies this, sections
      ensures Valid() && fresh(Owned() - old(Owned()))
      ensures store == Set(old(store), name, key, value)
      ensures modified == (old(modified) || value == "" || Get(old(store), name, key) != Some(value))
      ensures Altered(old(store), old(modified), Refinement.SetValue(name, key, value))
    {
      ValueSet(store, modified, name, key, value);
      hide Wf, Set, Get, HasSection, Refinement.Do, Refinement.OnStore, Refinement.Marks;
      AfterSet(store, name, key, value, name, key);
      var sec := FindSection(name);
      var done := true;
      if sec != null {
        done := SetIn(sec, key, value);
      } else {
        SetAppends(store, name, key, value);
        NoLookup(store, name, key);
        if value != "" {
          AddSectionWith(name, key, value);
        }
      }
      if done {
        modified := true;
      }
    }

    static lemma ValueSet(st: Sections, marked: bool, name: string, key: string, value: string)
      ensures Refinement.Do(Refinement.Session(st, map[], marked), Refinement.Alter(Refinement.SetValue(name, key, value)))
              == Refinement.Session(Set(st, name, key, value), map[],
                                    marked || value == "" || Get(st, name, key) != Some(value))
    {
      hide Set, Get;
    }

    lemma NoLookup(st: Sections, name: string, key: string)
      requires !HasSection(st, name)
      ensures Get(st, name, key) == None
    {
    }

    /** One section object leaves the list. */
    method RemoveObject(sec: LpSection, ghost i: nat)
      requires Valid() && i < |sections| && sections[i] == sec
      modifies this`store, this`sections
      ensures Mirrors() && store == Without(old(store), i) && sections == Without(old(sections), i)
    {
      hide Wf, Without, RemoveFirst, Store.FindSection;
      assert sec !in sections[..i] by {
        AtItsPlace(sec);
      }
      RemoveFirstIs(sections, sec, i);
      WithoutAt(sections, i);
      WithoutAt(store, i);
      sections, store := RemoveFirst(sections, sec), Without(store, i);
    }

    static lemma RemovedIs(st: Sections, name: string)
      ensures RemoveSection(st, name)
              == if HasSection(st, name) then Without(st, Store.FindSection(st, name)) else st
    {
    }

    /** linphone_config_clean_section */
    method CleanSection(name: string)
      requires Valid()
      modifies this
      ensures Valid() && fresh(Owned() - old(Owned())) && modified
      ensures store == RemoveSection(old(store), name)
      ensures Altered(old(store), old(modified), Refinement.DropSection(name))
    {
      hide Wf, RemoveSection, Without;
      ghost var i := Store.FindSection(store, name);
      AfterRemoveSection(store, name, name, "");
      RemovedIs(store, name);
      if i < |sections| {
        WithoutAt(sections, i);
      }
      var sec := FindSection(name);
      if sec != null {
        RemoveObject(sec, i);
      }
      modified := true;
    }

    /** linphone_config_clean_entry does not set `modified`: the store changes unmarked
        exactly when the entry is there and nothing was marked before. */
    method CleanEntry(name: string, key: string)
      requires Valid()
      modifies this`store, sections
      ensures Valid() && store == Set(old(store), name, key, "")
      ensures modified || store == old(store) <==> old(modified) || Get(old(store), name, key).None?
      ensures Altered(old(store), old(modified), Refinement.DropEntry(name, key))
    {
      hide Wf;
      AfterSet(store, name, key, "", name, key);
      RemovingNothing(store, name, key);
      var sec := FindSection(name);
      if sec != null {
        var j := sec.Find(KeySlot(key));
        if j < |sec.items| {
          ReplaceItems(sec, Without(sec.items, j));
        } else {
          SetNothing(store, name, key, "");
        }
      }
    }

    // ---------------------------------------------------------------- parsing

    ghost function Current(cur: LpSection?): Option<string>
      reads cur
    {
      if cur == null then None else Some(cur.name)
    }

    /** A section header read into the list; the params follow. */
    method OpenHeader(name: string) returns (cur: LpSection)
      requires Valid()
      modifies this`store, this`sections
      ensures Valid() && fresh(Owned() - old(Owned())) && cur in sections && cur.name == name
      ensures store == OpenSection(old(store), name, [])
    {
      hide Wf;
      AfterOpenSection(store, name, [], name, "");
      var sec := FindSection(name);
      if sec == null {
        sec := new LpSection(name);
        AddSection(sec);
        assert sec.Value() == NewSection(name).(params := []);
      } else {
        ghost var there := store[Store.FindSection(store, name)];
        assert there.(params := there.params + []) == there;
      }
      cur := sec;
    }

    method ReadParams(line: array<char>, start: nat, cur: LpSection)
      requires Valid() && cur in sections
      requires Terminated(line[..]) && start <= line.Length
      modifies this`store, line, cur`params
      ensures Valid()
      ensures store == AddParams(old(store), cur.name, ScanParams(Rest(old(line[..]), start)))
    {
      AtItsPlace(cur);
      ghost var i := Store.FindSection(store, cur.name);
      ParseParams(line, start, cur);
      AfterUpdate(store, i, cur.Value(), "", "");
      store := store[i := cur.Value()];
    }

    static lemma ApplyHeader(p: Parse, name: string, params: seq<Param>)
      ensures Apply(p, Header(name, params)) == Parse(OpenSection(p.st, name, params), Some(name))
      ensures Apply(p, Nothing) == p
    {
    }

    /** The header whose `[` stands at pos1. */
    method ParseHeader(line: array<char>, pos1: nat, cur: LpSection?) returns (r: LpSection?)
      requires Valid() && (cur != null ==> cur in sections)
      requires Terminated(line[..]) && '\0' !in line[..line.Length - 1]
      requires pos1 < line.Length - 1 && line[pos1] == '['
      modifies this`store, this`sections, sections, line
      ensures Valid() && fresh(Owned() - old(Owned())) && (r != null ==> r in sections)
      ensures Parse(store, Current(r))
              == Apply(Parse(old(store), old(Current(cur))), ClassifyHeader(old(line[pos1 + 1..line.Length - 1])))
    {
      hide ScanParams, ClassifyHeader, Wf, Word, IndexOf, Strchr, CString, Rest, OpenSection, Apply;
      r := cur;
      ghost var buffer, t := line[..], line[pos1 + 1..line.Length - 1];
      FindBracket(buffer, pos1);
      var pos2 := Strchr(line[..], pos1, ']');
      if pos2 == -1 {
        HeaderCases(t, |t|, "", []);
        ApplyHeader(Parse(store, Current(cur)), "", []);
      } else {
        line[pos2] := '\0';
        assert line[..] == buffer[pos2 := '\0'];
        ghost var e := pos2 - pos1 - 1;
        ClosedHeader(buffer, pos1, e);
        var secname := Word(CString(line[..][pos1 + 1..]));
        ghost var params := if e > |secname| then ScanParams(t[e := '\0'][|secname| + 1..]) else [];
        HeaderCases(t, e, secname, params);
        ApplyHeader(Parse(store, Current(cur)), secname, params);
        if secname != "" {
          if pos2 > pos1 + 1 + |secname| {
            HeaderRest(buffer, pos1, e, |secname|);
          }
          r := OpenWithParams(line, secname, pos1 + 1 + |secname| + 1, pos2 > pos1 + 1 + |secname|);
        }
      }
    }

    /** The section of a header, with the params that stand in the buffer from start on, if any. */
    method OpenWithParams(line: array<char>, name: string, start: nat, params: bool) returns (cur: LpSection)
      requires Valid()
      requires Terminated(line[..]) && (params ==> start <= line.Length)
      modifies this`store, this`sections, sections, line
      ensures Valid() && fresh(Owned() - old(Owned())) && cur in sections && cur.name == name
      ensures store == OpenSection(old(store), name, if params then ScanParams(Rest(old(line[..]), start)) else [])
    {
      hide ScanParams, Wf, Rest, OpenSection, AddParams;
      cur := OpenHeader(name);
      if params {
        OpenThenAddParams(old(store), name, ScanParams(Rest(line[..], start)));
        ReadParams(line, start, cur);
      }
    }

    /** A comment goes to the end of the current section, once. */
    method PutComment(cur: LpSection, text: string)
      requires Valid() && cur in sections
      modifies this`store, cur`items
      ensures Valid() && store == PutCommentIn(old(store), cur.name, text)
    {
      hide Wf;
      AfterPutCommentIn(store, cur.name, text, "", "");
      AtItsPlace(cur);
      var j := cur.Find(CommentSlot(text));
      var kept := if j < |cur.items| then Without(cur.items, j) else cur.items;
      ReplaceItems(cur, kept + [Comment(text)]);
    }

    /** An entry of the current section is set, in place or at the end. */
    method PutValue(cur: LpSection, key: string, value: string)
      requires Valid() && cur in sections && value != ""
      modifies this`store, cur`items
      ensures Valid() && store == Set(old(store), cur.name, key, value)
    {
      hide Wf;
      AfterSet(store, cur.name, key, value, "", "");
      AtItsPlace(cur);
      var j := cur.Find(KeySlot(key));
      if j < |cur.items| {
        ReplaceItems(cur, cur.items[j := cur.items[j].(value := value)]);
      } else {
        ReplaceItems(cur, cur.items + [NewEntry(key, value)]);
      }
    }

    /** A line that is no header: a comment, an assignment or nothing. */
    method ParseItem(line: array<char>, cur: LpSection?)
      requires Valid() && (cur != null ==> cur in sections)
      requires Terminated(line[..]) && '\0' !in line[..line.Length - 1]
      requires !FirstChar(line[..line.Length - 1], '[')
      modifies this`store, sections, line
      ensures Valid() && Current(cur) == old(Current(cur))
      ensures Parse(store, Current(cur))
              == Apply(Parse(old(store), old(Current(cur))), Classify(old(line[..line.Length - 1])))
    {
      hide Classify, ClassifyHeader, CutEol, TrimEnd, Word, IndexOf, CString, Wf, Set, PutCommentIn;
      ghost var text := line[..line.Length - 1];
      ClassifyCases(text);
      var comment := IsAComment(line);
      if comment {
        if cur != null {
          WholeLine(line[..]);
          PutComment(cur, CutEol(CString(line[..])));
        }
      } else {
        var key, value := ParseAssignment(line);
        if key != "" && value != "" && cur != null {
          PutValue(cur, key, value);
        }
      }
    }

    /** linphone_config_parse_line */
    method ParseLine(line: array<char>, cur: LpSection?) returns (r: LpSection?)
      requires Valid() && (cur != null ==> cur in sections)
      requires Terminated(line[..]) && '\0' !in line[..line.Length - 1]
      modifies this`store, this`sections, sections, line
      ensures Valid() && fresh(Owned() - old(Owned())) && (r != null ==> r in sections)
      ensures Parse(store, Current(r))
              == Apply(Parse(old(store), old(Current(cur))), Classify(old(line[..line.Length - 1])))
    {
      hide Classify, ClassifyHeader, Wf, Apply, Indent, FirstChar, Word, IndexOf, CString, CutEol, TrimEnd;
      r := cur;
      ghost var text := line[..line.Length - 1];
      ClassifyCases(text);
      var pos1 := HeaderStart(line);
      if pos1 != -1 {
        assert line[pos1 + 1..line.Length - 1] == text[Indent(text) + 1..];
        r := ParseHeader(line, pos1, cur);
      } else {
        ParseItem(line, cur);
      }
    }

    /** The loops of linphone_config_parse and _linphone_config_init_from_buffer. */
    method ParseAll(lines: seq<string>)
      requires Valid() && forall l :: l in lines ==> '\0' !in l
      modifies this`store, this`sections, sections
      ensures Valid() && fresh(Owned() - old(Owned()))
      ensures store == Run(Parse(old(store), None), Meaning(lines)).st
    {
      hide Wf, Classify, Apply;
      var cur: LpSection? := null;
      var i := 0;
      while i < |lines|
        invariant i <= |lines|
        invariant Valid() && fresh(Owned() - old(Owned())) && (cur != null ==> cur in sections)
        invariant Run(Parse(store, Current(cur)), Meaning(lines[i..])) == Run(Parse(old(store), None), Meaning(lines))
      {
        var l := lines[i];
        var line := new char[|l| + 1](j requires 0 <= j <= |l| => if j < |l| then l[j] else '\0');
        assert line[..line.Length - 1] == l;
        assert lines[i..][1..] == lines[i + 1..];
        cur := ParseLine(line, cur);
        i := i + 1;
      }
    }

    /** linphone_config_parse, on a file holding text. */
    method ParseFile(text: string)
      requires Valid() && '\0' !in text
      modifies this`store, this`sections, sections
      ensures Valid() && fresh(Owned() - old(Owned())) && store == ParseText(old(store), text)
      ensures Altered(old(store), old(modified), Refinement.ReadFile(text))
    {
      hide Wf, ParseText;
      ParsedText(store, text);
      LinesOf(text, '\0');
      ParseAll(Lines(text));
    }

    static lemma ParsedText(st: Sections, text: string)
      ensures ParseText(st, text) == Run(Parse(st, None), Meaning(Lines(text))).st
    {
    }

    /** linphone_config_new_from_buffer */
    constructor FromBuffer(text: string)
      requires '\0' !in text
      ensures Valid() && store == ParseBuffer(text)
      ensures !modified && filename == None && !readonly && !abortSync
    {
      store, sections, modified := [], [], false;
      filename, readonly, abortSync := None, false, false;
      new;
      TokensOf(text, '\n', '\0');
      ParseAll(Tokens(text, '\n'));
    }

    // ---------------------------------------------------------------- writing

    /** The loop of lp_section_write over the params. */
    method WriteParams(params: seq<Param>, fs: FileSystem, name: string)
      requires fs.Valid()
      modifies fs
      ensures fs.Valid() && fs.log == old(fs.log) + Appends(name, ParamChunks(params))
    {
      ghost var chunks: seq<string> := [];
      for i := 0 to |params|
        invariant fs.Valid() && fs.log == old(fs.log) + Appends(name, chunks)
        invariant chunks + ParamChunks(params[i..]) == ParamChunks(params)
      {
        hide Appends, ParamText, ParamChunks, ExecAll, Effective;
        NextParamChunk(params, i, chunks);
        if params[i].value != "" {
          WritesOneMore(old(fs.log), name, chunks, ParamText(params[i]));
          var _ := fs.Do(Append(name, ParamText(params[i])));
          chunks := chunks + [ParamText(params[i])];
        }
      }
    }

    /** The loop of lp_section_write over the items. */
    method WriteItems(items: seq<Item>, fs: FileSystem, name: string)
      requires fs.Valid()
      modifies fs
      ensures fs.Valid() && fs.log == old(fs.log) + Appends(name, ItemChunks(items))
    {
      ghost var chunks: seq<string> := [];
      for i := 0 to |items|
        invariant fs.Valid() && fs.log == old(fs.log) + Appends(name, chunks)
        invariant chunks + ItemChunks(items[i..]) == ItemChunks(items)
      {
        hide Appends, ItemText, ItemChunks, ExecAll, Effective;
        NextItemChunk(items, i, chunks);
        if items[i].Comment? || items[i].value != "" {
          WritesOneMore(old(fs.log), name, chunks, ItemText(items[i]));
          var _ := fs.Do(Append(name, ItemText(items[i])));
          chunks := chunks + [ItemText(items[i])];
        }
      }
    }

    static lemma NextParamChunk(params: seq<Param>, i: nat, chunks: seq<string>)
      requires i < |params|
      ensures chunks + ParamChunks(params[i..])
              == (if params[i].value != "" then chunks + [ParamText(params[i])] else chunks) + ParamChunks(params[i + 1..])
    {
      hide ParamText;
      assert params[i..][1..] == params[i + 1..];
    }

    static lemma NextItemChunk(items: seq<Item>, i: nat, chunks: seq<string>)
      requires i < |items|
      ensures chunks + ItemChunks(items[i..])
              == (if items[i].Comment? || items[i].value != "" then chunks + [ItemText(items[i])] else chunks)
                 + ItemChunks(items[i + 1..])
    {
      hide ItemText;
      assert items[i..][1..] == items[i + 1..];
    }

    lemma WritesOneMore(before: seq<Op>, name: string, chunks: seq<string>, chunk: string)
      ensures (before + Appends(name, chunks)) + [Append(name, chunk)] == before + Appends(name, chunks + [chunk])
    {
      AppendsConcat(name, chunks, [chunk]);
      assert Appends(name, [chunk]) == [Append(name, chunk)];
      Assoc(before, Appends(name, chunks), [Append(name, chunk)]);
    }

    /** lp_section_write: one call of the device for each piece of text. */
    method WriteSection(sec: LpSection, fs: FileSystem, name: string)
      requires fs.Valid()
      modifies fs
      ensures fs.Valid() && fs.log == old(fs.log) + Appends(name, SectionChunks(sec.Value()))
    {
      hide Appends, ParamChunks, ItemChunks, SectionChunks, ExecAll, Effective;
      var _ := fs.Do(Append(name, "[" + sec.name));
      WriteParams(sec.params, fs, name);
      var _ := fs.Do(Append(name, "]\n"));
      WriteItems(sec.items, fs, name);
      var _ := fs.Do(Append(name, "\n"));
      SectionLog(old(fs.log), name, sec.Value());
    }

    lemma SectionLog(before: seq<Op>, name: string, sec: Section)
      ensures before + [Append(name, "[" + sec.name)] + Appends(name, ParamChunks(sec.params)) + [Append(name, "]\n")]
              + Appends(name, ItemChunks(sec.items)) + [Append(name, "\n")]
              == before + Appends(name, SectionChunks(sec))
    {
    }

    /** The loop over the sections in linphone_config_sync. */
    method WriteSections(fs: FileSystem, name: string)
      requires Valid() && fs.Valid()
      modifies fs
      ensures fs.Valid() && fs.log == old(fs.log) + Appends(name, FileChunks(store))
    {
      hide Wf;
      ghost var chunks: seq<string> := [];
      for i := 0 to |sections|
        invariant fs.Valid() && Mirrors()
        invariant fs.log == old(fs.log) + Appends(name, chunks)
        invariant chunks + FileChunks(store[i..]) == FileChunks(store)
      {
        hide Appends, SectionChunks, ExecAll, Effective;
        assert store[i..][1..] == store[i + 1..];
        WriteSection(sections[i], fs, name);
        AppendsConcat(name, chunks, SectionChunks(store[i]));
        Assoc(old(fs.log), Appends(name, chunks), Appends(name, SectionChunks(store[i])));
        Assoc(chunks, SectionChunks(store[i]), FileChunks(store[i + 1..]));
        chunks := chunks + SectionChunks(store[i]);
      }
    }

    /** linphone_config_sync: the operations of one save are tried one after the other,
        whatever fails, unless there is nothing to save to, the temporary file cannot be
        opened, or the save is to be aborted. */
    method Sync(fs: FileSystem, removeFirst: bool) returns (status: int)
      requires Valid() && fs.Valid()
      modifies fs, this`readonly, this`modified
      ensures Valid() && fs.Valid()
      ensures var tried := filename.Some? && !old(readonly);
              var begun := tried && fs.works(|old(fs.log)|);
              var ops := if !tried then []
                         else if !begun || abortSync then [Truncate(Temp(filename.value))]
                         else SaveOps(filename.value, store, removeFirst);
              && fs.log == old(fs.log) + ops
              && fs.files == ExecAll(old(fs.files), Effective(ops, fs.works, |old(fs.log)|))
              && modified == (old(modified) && (!begun || abortSync))
              && readonly == (old(readonly) || (tried && !begun))
              && status == (if filename.Some? && (old(readonly) || (begun && !abortSync)) then 0 else -1)
      ensures filename.Some? && !abortSync ==>
                var before := Syncing.Use(store, old(fs.files), old(modified), old(readonly));
                var works := (i: nat) => fs.works(|old(fs.log)| + i);
                Syncing.Use(store, fs.files, modified, readonly)
                == Syncing.Target(filename.value, removeFirst).Do(before, Syncing.Sync(works))
    {
      hide ExecAll, SaveOps, Effective;
      ExecNothing(fs.files);
      NoneEffective(fs.works, |fs.log|);
      if filename.Some? {
        EffectiveFrom(SaveOps(filename.value, store, removeFirst), fs.works, |fs.log|, 0);
        EffectiveOne(Truncate(Temp(filename.value)), fs.works, |fs.log|);
      }
      if filename.None? {
        return -1;
      }
      if readonly {
        return 0;
      }
      ghost var before := fs.log;
      var main := filename.value;
      var begun := fs.Do(Truncate(Temp(main)));
      if !begun || abortSync {
        fs.Since(before, [Truncate(Temp(main))]);
        readonly := !begun;
        return -1;
      }
      Save(fs, main, removeFirst, before);
      modified := false;
      status := 0;
    }

    /** The part of linphone_config_sync after the temporary file has been opened. */
    method Save(fs: FileSystem, main: string, removeFirst: bool, ghost before: seq<Op>)
      requires Valid() && fs.Valid() && fs.log == before + [Truncate(Temp(main))]
      modifies fs
      ensures Valid() && fs.Valid()
      ensures fs.log == before + SaveOps(main, store, removeFirst)
      ensures fs.files == ExecAll(ExecAll(fs.start, Effective(before, fs.works, 0)),
                                  Effective(SaveOps(main, store, removeFirst), fs.works, |before|))
    {
      hide Appends, FileChunks, Wf, ExecAll, Effective, SaveOps;
      WriteSections(fs, Temp(main));
      var _ := fs.Do(Flush(Temp(main)));
      if removeFirst {
        var _ := fs.Do(Remove(main));
      }
      var _ := fs.Do(Rename(Temp(main), main));
      SaveLog(before, main, store, removeFirst);
      fs.Since(before, SaveOps(main, store, removeFirst));
    }

    lemma SaveLog(before: seq<Op>, main: string, st: Sections, removeFirst: bool)
      ensures var written := before + [Truncate(Temp(main))] + Appends(Temp(main), FileChunks(st)) + [Flush(Temp(main))];
              before + SaveOps(main, st, removeFirst)
              == (if removeFirst then written + [Remove(main)] else written) + [Rename(Temp(main), main)]
    {
    }

    // ---------------------------------------------------------------- loading

    /** _linphone_config_init_from_files: main file, else temporary file, then the
        factory file on top. */
    method InitFromFiles(fs: FileSystem, main: string, unreadable: set<string>, factory: Option<string>)
        returns (ok: bool)
      requires Valid() && store == [] && sections == [] && !modified
      requires forall name :: name in fs.files ==> '\0' !in fs.files[name].text
      requires factory.Some? ==> '\0' !in factory.value
      modifies this
      ensures Valid()
      ensures var (d, tmp) := (fs.files, main + ".tmp");
              !ok <==> main != "" && (main in d || tmp in d)
                       && !Openable(d, main, unreadable) && !Openable(d, tmp, unreadable)
      ensures ok ==>
                var (d, tmp) := (fs.files, main + ".tmp");
                var loaded := if main != "" && Openable(d, main, unreadable) then ParseText([], d[main].text)
                              else if main != "" && Openable(d, tmp, unreadable) then ParseText([], d[tmp].text)
                              else [];
                store == (if factory.Some? then ParseText(loaded, factory.value) else loaded)
      ensures ok ==> !modified
      ensures filename == if main == "" then old(filename) else Some(main)
    {
      if main != "" {
        filename := Some(main);
        var tmp := Temp(main);
        var pFile: Option<string> := None;
        if main in fs.files && main !in unreadable {
          pFile := Some(fs.files[main].text);
        }
        if pFile.None? && tmp in fs.files && tmp !in unreadable {
          pFile := Some(fs.files[tmp].text);
        }
        if pFile.Some? {
          ParseFile(pFile.value);
          modified := false;
        } else if main in fs.files || tmp in fs.files {
          return false;
        }
      }
      if factory.Some? {
        ParseFile(factory.value);
      }
      return true;
    }

    // ---------------------------------------------------------------- the dump

    /** dump_section: the entries of the section found under the name. */
    method DumpSection(name: string, buffer: string) returns (r: string)
      requires Valid() && HasSection(store, name)
      ensures r == buffer + "[" + name + "]\n" + DumpItems(store[Store.FindSection(store, name)].items)
    {
      r := buffer + "[" + name + "]\n";
      ghost var head := r;
      var sec := FindSection(name);
      var i := 0;
      while i < |sec.items|
        invariant i <= |sec.items|
        invariant r + DumpItems(sec.items[i..]) == head + DumpItems(sec.items)
      {
        var item := sec.items[i];
        assert sec.items[i..][1..] == sec.items[i + 1..];
        if item.Entry? {
          SlotIsAt(sec.items, item.Slot(), i);
          var value := GetString(name, item.key, "");
          ghost var line := "\t" + item.key + "=" + value + "\n";
          Assoc(r, line, DumpItems(sec.items[i + 1..]));
          r := r + ("\t" + item.key + "=" + value + "\n");
        }
        i := i + 1;
      }
    }

    lemma PlaceOf(i: nat)
      requires Valid() && i < |sections|
      ensures Store.FindSection(store, sections[i].name) == i && sections[i].name == store[i].name
    {
      SectionIsAt(store, sections[i].name, i);
    }

    static lemma ThreeParts(buffer: string, name: string, items: string, rest: string)
      ensures buffer + ("[" + name + "]\n" + items + rest) == buffer + "[" + name + "]\n" + items + rest
    {
    }

    /** linphone_config_dump */
    method Dump() returns (buffer: string)
      requires Valid()
      ensures buffer == DumpText(store)
    {
      hide Wf, DumpItems;
      buffer := "";
      var i := 0;
      while i < |sections|
        invariant i <= |sections|
        invariant buffer + DumpText(store[i..]) == DumpText(store)
      {
        ghost var (name, rest) := (store[i].name, DumpText(store[i + 1..]));
        assert store[i..][1..] == store[i + 1..];
        PlaceOf(i);
        ThreeParts(buffer, name, DumpItems(store[i].items), rest);
        buffer := DumpSection(sections[i].name, buffer);
        i := i + 1;
      }
    }
  }
}
