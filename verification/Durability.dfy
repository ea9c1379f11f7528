/**
 Saving and loading: the file operations of one save, the recovery rule at load,
 and what survives crashes. The file system is a map from names to files, changed
 by single operations; a crash may put any text at all into a file that was not
 flushed since it was last written.
 */
module Durability {
  import opened Lists
  import opened CText
  import opened Store
  import opened LineSyntax
  import opened Printer

  datatype File = File(text: string, durable: bool)

  type Disk = map<string, File>

  datatype Op =
    | Truncate(name: string)
    | Append(name: string, text: string)
    | Flush(name: string)
    | Remove(name: string)
    | Rename(from: string, to: string)

  function Exec(d: Disk, op: Op): Disk {
    match op
    case Truncate(name) => d[name := File("", false)]
    case Append(name, text) => if name in d then d[name := File(d[name].text + text, false)] else d
    case Flush(name) => if name in d then d[name := d[name].(durable := true)] else d
    case Remove(name) => d - {name}
    case Rename(from, to) => if from in d then (d - {from})[to := d[from]] else d
  }

  function ExecAll(d: Disk, ops: seq<Op>): Disk
    decreases |ops|
  {
    if ops == [] then d else ExecAll(Exec(d, ops[0]), ops[1..])
  }

  /** d' is what may be found after a crash on d. */
  predicate CrashesTo(d: Disk, d': Disk) {
    && d'.Keys == d.Keys
    && (forall name :: name in d ==> d'[name].durable)
    && (forall name :: name in d && d[name].durable ==> d'[name] == d[name])
  }

  // -------------------------------------------------------------------- one save

  /** The texts written one by one, each by a single call. */
  function ParamChunks(ps: seq<Param>): seq<string> {
    if ps == [] then []
    else (if ps[0].value != "" then [ParamText(ps[0])] else []) + ParamChunks(ps[1..])
  }

  function ItemChunks(items: seq<Item>): seq<string> {
    if items == [] then []
    else (if items[0].Comment? || items[0].value != "" then [ItemText(items[0])] else []) + ItemChunks(items[1..])
  }

  function SectionChunks(sec: Section): seq<string> {
    ["[" + sec.name] + ParamChunks(sec.params) + ["]\n"] + ItemChunks(sec.items) + ["\n"]
  }

  function FileChunks(st: Sections): seq<string> {
    if st == [] then [] else SectionChunks(st[0]) + FileChunks(st[1..])
  }

  function Flat(chunks: seq<string>): string {
    if chunks == [] then "" else chunks[0] + Flat(chunks[1..])
  }

  lemma {:induction false} FlatConcat(a: seq<string>, b: seq<string>)
    ensures Flat(a + b) == Flat(a) + Flat(b)
  {
    if a == [] {
      assert a + b == b;
    } else {
      FlatConcat(a[1..], b);
      assert (a + b)[1..] == a[1..] + b;
      Assoc(a[0], Flat(a[1..]), Flat(b));
    }
  }

  lemma EmptyFlat(chunks: seq<string>)
    requires chunks == []
    ensures Flat(chunks) == ""
  {
  }

  lemma FlatSnoc(chunks: seq<string>, last: string)
    ensures Flat(chunks + [last]) == Flat(chunks) + last
  {
    FlatConcat(chunks, [last]);
    assert Flat([last]) == last + Flat([last][1..]);
  }

  lemma {:induction false} ParamChunksText(ps: seq<Param>)
    ensures Flat(ParamChunks(ps)) == ParamsText(ps)
  {
    if ps != [] {
      ParamChunksText(ps[1..]);
      FlatConcat([ParamText(ps[0])], ParamChunks(ps[1..]));
      FlatConcat([], ParamChunks(ps[1..]));
    }
  }

  lemma {:induction false} ItemChunksText(items: seq<Item>)
    ensures Flat(ItemChunks(items)) == ItemsText(items)
  {
    if items != [] {
      ItemChunksText(items[1..]);
      FlatConcat([ItemText(items[0])], ItemChunks(items[1..]));
      FlatConcat([], ItemChunks(items[1..]));
    }
  }

  lemma SectionChunksText(sec: Section)
    ensures Flat(SectionChunks(sec)) == SectionText(sec)
  {
    var (head, ps, close, items) := (["[" + sec.name], ParamChunks(sec.params), ["]\n"], ItemChunks(sec.items));
    FlatConcat(head + ps + close + items, ["\n"]);
    FlatConcat(head + ps + close, items);
    FlatConcat(head + ps, close);
    FlatConcat(head, ps);
    ParamChunksText(sec.params);
    ItemChunksText(sec.items);
  }

  lemma {:induction false} FileChunksText(st: Sections)
    ensures Flat(FileChunks(st)) == FileText(st)
  {
    if st != [] {
      FileChunksText(st[1..]);
      SectionChunksText(st[0]);
      FlatConcat(SectionChunks(st[0]), FileChunks(st[1..]));
    }
  }

  function Temp(main: string): (tmp: string)
    ensures tmp != main
  {
    var tmp := main + ".tmp";
    assert |tmp| != |main|;
    tmp
  }

  function Appends(name: string, chunks: seq<string>): (ops: seq<Op>)
    ensures |ops| == |chunks| && forall i :: 0 <= i < |ops| ==> ops[i] == Append(name, chunks[i])
  {
    seq(|chunks|, i requires 0 <= i < |chunks| => Append(name, chunks[i]))
  }

  lemma AppendsConcat(name: string, a: seq<string>, b: seq<string>)
    ensures Appends(name, a + b) == Appends(name, a) + Appends(name, b)
  {
  }

  /** What linphone_config_sync does to the disk. Where rename cannot replace a file
      (`removeFirst`), the main file is removed first. */
  function SaveOps(main: string, st: Sections, removeFirst: bool): seq<Op> {
    [Truncate(Temp(main))] + Appends(Temp(main), FileChunks(st)) + [Flush(Temp(main))]
    + (if removeFirst then [Remove(main)] else []) + [Rename(Temp(main), main)]
  }

  // -------------------------------------------------------------------- one load

  datatype Loaded = Loaded(st: Sections) | CannotRead

  /** Which file a load reads: the main file, else the temporary one. */
  function LoadFrom(d: Disk, main: string, unreadable: set<string>): Loaded {
    if main in d && main !in unreadable then Loaded(ParseText([], d[main].text))
    else if Temp(main) in d && Temp(main) !in unreadable then Loaded(ParseText([], d[Temp(main)].text))
    else if main in d || Temp(main) in d then CannotRead
    else Loaded([])
  }

  /** The file exists and can be opened. */
  predicate Openable(d: Disk, name: string, unreadable: set<string>) {
    name in d && name !in unreadable
  }

  /** The recovery rule: the main file, else the temporary one, an empty configuration when
      there is neither, and a failure when one exists and none can be opened. */
  lemma LoadFromExactly(d: Disk, main: string, unreadable: set<string>)
    ensures var (tmp, loaded) := (main + ".tmp", LoadFrom(d, main, unreadable));
            && (Openable(d, main, unreadable) ==> loaded == Whole(d[main].text))
            && (!Openable(d, main, unreadable) && Openable(d, tmp, unreadable) ==> loaded == Whole(d[tmp].text))
            && (main !in d && tmp !in d ==> loaded == Loaded([]))
            && (loaded == CannotRead
                <==> (main in d || tmp in d) && !Openable(d, main, unreadable) && !Openable(d, tmp, unreadable))
  {
    hide ParseText;
  }

  function Load(d: Disk, main: string): Loaded {
    LoadFrom(d, main, {})
  }

  /** The file a load reads, when all can be opened. */
  function Front(d: Disk, main: string): Option<File> {
    if main in d then Some(d[main]) else if Temp(main) in d then Some(d[Temp(main)]) else None
  }

  /** What a complete file loads as. */
  function Whole(text: string): Loaded {
    Loaded(ParseText([], text))
  }

  lemma {:induction false} WholeIsExact(st: Sections)
    requires Printable(st)
    ensures Whole(FileText(st)) == Loaded(st)
  {
    ParseUndoesPrint(st);
  }

  /** A load gives st: its whole file, and st itself when the file format can express it. */
  predicate IsConfig(loaded: Loaded, st: Sections) {
    loaded == Whole(FileText(st)) && (Printable(st) ==> loaded == Loaded(st))
  }

  lemma WholeIsConfig(st: Sections)
    ensures IsConfig(Whole(FileText(st)), st)
  {
    if Printable(st) {
      WholeIsExact(st);
    }
  }

  // ------------------------------------------------- runs with crashes and failures

  /** What the save under way has put into the temporary file: whether a write failed,
      and whether the flush worked. */
  datatype Draft = Draft(of: Sections, text: string, lost: bool, flushed: bool)

  /** The file last put where a load looks, as it was written. No configuration has been
      saved into it before the first rename. */
  datatype Placed = Placed(of: Option<Sections>, text: string, whole: bool, flushed: bool)

  /**
   The process and its disk. `store` is what the process holds, nothing after a
   crash; `pc` counts the operations done of the save under way, whose work is `draft`.
   `placed` is the work of the last rename executed, or of the last removal of the main
   file, which makes the temporary file the one that a load reads; it is `intact` while
   no crash has met it unflushed. `renamed` is the configuration of the last rename.
   */
  datatype State = State(
    disk: Disk, store: Option<Sections>, pc: Option<nat>, draft: Draft,
    placed: Placed, intact: bool, renamed: Option<Sections>)

  /** One operation of a save works or fails; a failure is only logged, except that
      without an open file there is no save. */
  datatype Step =
    | Edit(st: Sections)
    | BeginSave
    | SaveStep(works: bool)
    | Crash(disk: Disk)
    | Restart

  datatype Setup = Setup(main: string, removeFirst: bool) {
    function Ops(st: Sections): seq<Op> {
      SaveOps(main, st, removeFirst)
    }

    predicate Enabled(s: State, step: Step) {
      match step
      case Edit(_) => s.store.Some? && s.pc.None?
      case BeginSave => s.store.Some? && s.pc.None?
      case SaveStep(_) => s.pc.Some? && s.pc.value < |Ops(s.draft.of)|
      case Crash(d) => CrashesTo(s.disk, d)
      case Restart => s.store.None? && Load(s.disk, main).Loaded?
    }

    /** What an operation of the save means for its draft. */
    function Drafted(draft: Draft, op: Op, works: bool): Draft {
      match op
      case Append(_, text) => if works then draft.(text := draft.text + text) else draft.(lost := true)
      case Flush(_) => draft.(flushed := works)
      case _ => draft
    }

    function SaveStepOf(s: State, works: bool): State
      requires Enabled(s, SaveStep(works))
    {
      var (ops, k) := (Ops(s.draft.of), s.pc.value);
      var next := s.(pc := if k + 1 == |ops| || (k == 0 && !works) then None else Some(k + 1),
                     draft := Drafted(s.draft, ops[k], works));
      if !works then next
      else
        var done := next.(disk := Exec(s.disk, ops[k]));
        if ops[k].Remove? || ops[k].Rename? then
          done.(placed := Placed(Some(s.draft.of), s.draft.text, !s.draft.lost, s.draft.flushed), intact := true,
                renamed := if ops[k].Rename? then Some(s.draft.of) else s.renamed)
        else done
    }

    function Do(s: State, step: Step): State
      requires Enabled(s, step)
    {
      match step
      case Edit(st) => s.(store := Some(st))
      case BeginSave => s.(pc := Some(0), draft := Draft(s.store.value, "", false, false))
      case SaveStep(works) => SaveStepOf(s, works)
      case Crash(d) => s.(disk := d, store := None, pc := None, intact := s.intact && s.placed.flushed)
      case Restart => s.(store := Some(Load(s.disk, main).st))
    }

    predicate IsRun(s: State, steps: seq<Step>)
      decreases |steps|
    {
      steps != [] ==> Enabled(s, steps[0]) && IsRun(Do(s, steps[0]), steps[1..])
    }

    function End(s: State, steps: seq<Step>): State
      requires IsRun(s, steps)
      decreases |steps|
    {
      if steps == [] then s else End(Do(s, steps[0]), steps[1..])
    }

    /** Every save of the run begins with a main file in place. */
    predicate SavesWithMain(s: State, steps: seq<Step>)
      requires IsRun(s, steps)
      decreases |steps|
    {
      steps != [] ==>
        && (steps[0].BeginSave? ==> main in s.disk)
        && SavesWithMain(Do(s, steps[0]), steps[1..])
    }

    /** A flushed main file, and nothing done yet. */
    predicate Starts(s: State) {
      && main in s.disk && s.disk[main].durable && s.pc.None?
      && s.placed == Placed(None, s.disk[main].text, true, true) && s.intact && s.renamed.None?
    }

    /** The draft is what the chunks come to, or shorter when a write failed. */
    predicate Fits(draft: Draft, chunks: seq<string>) {
      if draft.lost then |draft.text| < |Flat(chunks)| else draft.text == Flat(chunks)
    }

    /** How many of n chunks have been tried after k operations. */
    function Tried(k: nat, n: nat): nat {
      if k == 0 then 0 else if k <= n + 1 then k - 1 else n
    }

    /** How far the save under way has got with the temporary file. */
    predicate Progress(s: State) {
      s.pc.Some? ==>
        var (chunks, k) := (FileChunks(s.draft.of), s.pc.value);
        && k < |Ops(s.draft.of)|
        && Fits(s.draft, chunks[..Tried(k, |chunks|)])
        && (k <= |chunks| + 1 ==> !s.draft.flushed)
        && (k >= 1 ==> Temp(main) in s.disk && s.disk[Temp(main)] == File(s.draft.text, s.draft.flushed))
    }

    predicate Inv(s: State) {
      && Progress(s)
      && Front(s.disk, main).Some?
      && (s.intact ==> Front(s.disk, main).value == File(s.placed.text, s.placed.flushed))
      && (s.placed.of.Some? ==> (s.placed.whole <==> s.placed.text == FileText(s.placed.of.value)))
      && (if main in s.disk then s.placed.of == s.renamed
          else removeFirst && s.placed.of == Some(s.draft.of)
               && (s.pc.Some? ==> s.pc.value == |FileChunks(s.draft.of)| + 3))
    }

    lemma OpAt(st: Sections, k: nat)
      requires k < |Ops(st)|
      ensures |Ops(st)| == |FileChunks(st)| + if removeFirst then 4 else 3
      ensures Ops(st)[k] ==
              var chunks := FileChunks(st);
              if k == 0 then Truncate(Temp(main))
              else if k <= |chunks| then Append(Temp(main), chunks[k - 1])
              else if k == |chunks| + 1 then Flush(Temp(main))
              else if k + 1 == |Ops(st)| then Rename(Temp(main), main)
              else Remove(main)
    {
    }

    /** One more chunk, written or not. */
    lemma FitsNext(draft: Draft, chunks: seq<string>, k: nat, works: bool)
      requires 1 <= k <= |chunks| && NoEmptyChunk(chunks) && Fits(draft, chunks[..k - 1])
      ensures Fits(Drafted(draft, Append(Temp(main), chunks[k - 1]), works), chunks[..k])
    {
      hide Flat;
      assert chunks[..k] == chunks[..k - 1] + [chunks[k - 1]];
      FlatSnoc(chunks[..k - 1], chunks[k - 1]);
    }

    /** After the flush, the draft is the whole configuration exactly when nothing was lost. */
    lemma FitsWhole(draft: Draft)
      requires Fits(draft, FileChunks(draft.of))
      ensures !draft.lost <==> draft.text == FileText(draft.of)
    {
      hide Flat, FileChunks, FileText;
      FileChunksText(draft.of);
    }

    lemma NothingDrafted(draft: Draft, chunks: seq<string>)
      ensures Fits(draft, chunks[..0]) <==> draft.text == "" && !draft.lost
    {
      hide Flat;
      EmptyFlat(chunks[..0]);
    }

    lemma SaveStepKeepsInv(s: State, works: bool)
      requires Inv(s) && Enabled(s, SaveStep(works))
      ensures Inv(Do(s, SaveStep(works)))
    {
      hide Inv, SaveStepOf, FileChunks;
      if s.pc.value <= |FileChunks(s.draft.of)| + 1 {
        WriteStepKeepsInv(s, works);
      } else {
        LastStepsKeepInv(s, works);
      }
    }

    /** Up to the flush. */
    lemma WriteStepKeepsInv(s: State, works: bool)
      requires Inv(s) && Enabled(s, SaveStep(works)) && s.pc.value <= |FileChunks(s.draft.of)| + 1
      ensures Inv(Do(s, SaveStep(works)))
    {
      hide FileText, FileChunks, Flat, SaveOps, Fits;
      var (chunks, k) := (FileChunks(s.draft.of), s.pc.value);
      OpAt(s.draft.of, k);
      if k == 0 {
        NothingDrafted(s.draft, chunks);
      } else if k <= |chunks| {
        FileChunksNotEmpty(s.draft.of);
        FitsNext(s.draft, chunks, k, works);
      } else {
        FitsFlushed(s.draft, chunks[..|chunks|], works);
      }
    }

    /** The removal and the rename. */
    lemma LastStepsKeepInv(s: State, works: bool)
      requires Inv(s) && Enabled(s, SaveStep(works)) && s.pc.value > |FileChunks(s.draft.of)| + 1
      ensures Inv(Do(s, SaveStep(works)))
    {
      hide FileText, FileChunks, Flat, SaveOps, Fits;
      var chunks := FileChunks(s.draft.of);
      OpAt(s.draft.of, s.pc.value);
      assert chunks[..|chunks|] == chunks;
      FitsWhole(s.draft);
    }

    lemma FitsFlushed(draft: Draft, chunks: seq<string>, works: bool)
      ensures Fits(draft.(flushed := works), chunks) == Fits(draft, chunks)
    {
    }

    lemma CrashKeepsInv(s: State, d: Disk)
      requires Inv(s) && CrashesTo(s.disk, d)
      ensures Inv(Do(s, Crash(d)))
    {
      hide FileText, FileChunks, SaveOps;
    }

    lemma BeginKeepsInv(s: State)
      requires Inv(s) && Enabled(s, BeginSave) && main in s.disk
      ensures Inv(Do(s, BeginSave))
    {
      hide FileText, FileChunks, Fits;
      OpAt(s.store.value, 0);
      NothingDrafted(Draft(s.store.value, "", false, false), FileChunks(s.store.value));
    }

    /** The process's own store is no part of the invariant. */
    lemma StoreDoesNotMatter(s: State, store: Option<Sections>)
      requires Inv(s)
      ensures Inv(s.(store := store))
    {
      hide FileText, FileChunks, Fits, SaveOps;
    }

    lemma StepKeepsInv(s: State, step: Step)
      requires Inv(s) && Enabled(s, step)
      requires step.BeginSave? ==> main in s.disk
      ensures Inv(Do(s, step))
    {
      hide Inv, CrashesTo, Load, Ops, SaveStepOf;
      match step
      case Edit(st) => StoreDoesNotMatter(s, Some(st));
      case BeginSave => BeginKeepsInv(s);
      case SaveStep(works) => SaveStepKeepsInv(s, works);
      case Crash(d) => CrashKeepsInv(s, d);
      case Restart => StoreDoesNotMatter(s, Some(Load(s.disk, main).st));
    }

    lemma {:induction false} RunKeepsInv(s: State, steps: seq<Step>)
      requires Inv(s) && IsRun(s, steps) && SavesWithMain(s, steps)
      ensures Inv(End(s, steps))
      decreases |steps|
    {
      if steps != [] {
        hide Inv, Do, Enabled;
        StepKeepsInv(s, steps[0]);
        RunKeepsInv(Do(s, steps[0]), steps[1..]);
      }
    }

    lemma StartHasInv(s: State)
      requires Starts(s)
      ensures Inv(s)
    {
    }

    /** A load gives what was last placed, unless a crash met it unflushed. */
    lemma InvMeansPlaced(s: State)
      requires Inv(s)
      ensures Load(s.disk, main) == Whole(Front(s.disk, main).value.text)
      ensures s.intact ==> Load(s.disk, main) == Whole(s.placed.text)
    {
    }

    lemma {:induction false} NothingPlaced(s: State, steps: seq<Step>)
      requires IsRun(s, steps)
      ensures End(s, steps).placed.of == None ==> End(s, steps).placed == s.placed
      decreases |steps|
    {
      if steps != [] {
        NothingPlaced(Do(s, steps[0]), steps[1..]);
      }
    }

    /** The configuration of the last save begun in the run. */
    function LastBegun(s: State, steps: seq<Step>): Option<Sections>
      requires IsRun(s, steps)
      decreases |steps|
    {
      if steps == [] then None
      else
        var later := LastBegun(Do(s, steps[0]), steps[1..]);
        if later.None? && steps[0].BeginSave? then s.store else later
    }

    lemma {:induction false} DraftIsLastBegun(s: State, steps: seq<Step>)
      requires IsRun(s, steps)
      ensures match LastBegun(s, steps)
              case Some(st) => End(s, steps).draft.of == st
              case None => End(s, steps).draft.of == s.draft.of
      decreases |steps|
    {
      if steps != [] {
        hide Do, Enabled;
        StepKeepsDraft(s, steps[0]);
        DraftIsLastBegun(Do(s, steps[0]), steps[1..]);
      }
    }

    lemma StepKeepsDraft(s: State, step: Step)
      requires Enabled(s, step)
      ensures Do(s, step).draft.of == if step.BeginSave? then s.store.value else s.draft.of
      ensures step.BeginSave? ==> s.store.Some?
    {
      hide SaveOps, Exec, Load, CrashesTo;
    }

    /** Without a save begun, no file comes or goes. */
    lemma {:induction false} NothingBegun(s: State, steps: seq<Step>)
      requires IsRun(s, steps) && s.pc.None? && LastBegun(s, steps).None?
      ensures End(s, steps).disk.Keys == s.disk.Keys && End(s, steps).pc.None?
      decreases |steps|
    {
      if steps != [] {
        NothingBegun(Do(s, steps[0]), steps[1..]);
      }
    }

    /** With an atomic rename the main file never goes away, so no run needs care. */
    lemma {:induction false} AtomicRenameKeepsMain(s: State, steps: seq<Step>)
      requires !removeFirst && Inv(s) && IsRun(s, steps)
      ensures SavesWithMain(s, steps)
      decreases |steps|
    {
      if steps != [] {
        hide Do, Enabled, Progress, Front;
        StepKeepsInv(s, steps[0]);
        AtomicRenameKeepsMain(Do(s, steps[0]), steps[1..]);
      }
    }

    // ---------------------------------------------------- runs in which nothing fails

    predicate NothingFails(steps: seq<Step>) {
      forall i :: 0 <= i < |steps| && steps[i].SaveStep? ==> steps[i].works
    }

    /** So far nothing has failed. */
    predicate Flawless(s: State) {
      && s.intact && s.placed.whole && s.placed.flushed
      && (s.pc.Some? ==> !s.draft.lost && (s.pc.value >= |FileChunks(s.draft.of)| + 2 ==> s.draft.flushed))
    }

    lemma StepIsFlawless(s: State, step: Step)
      requires Flawless(s) && Enabled(s, step) && (step.SaveStep? ==> step.works)
      ensures Flawless(Do(s, step))
    {
      hide FileChunks, SaveOps, Load, CrashesTo, Exec;
      match step
      case SaveStep(_) => OpAt(s.draft.of, s.pc.value);
      case BeginSave =>
      case _ =>
    }

    lemma {:induction false} RunIsFlawless(s: State, steps: seq<Step>)
      requires Flawless(s) && IsRun(s, steps) && NothingFails(steps)
      ensures Flawless(End(s, steps))
      decreases |steps|
    {
      if steps != [] {
        hide Flawless, Do, Enabled;
        StepIsFlawless(s, steps[0]);
        assert NothingFails(steps[1..]);
        RunIsFlawless(Do(s, steps[0]), steps[1..]);
      }
    }
  }

  /** No crash right now could change what a load gives. */
  ghost predicate CrashProof(d: Disk, main: string) {
    forall d': Disk :: CrashesTo(d, d') ==> Load(d', main) == Load(d, main)
  }

  /** The file a load reads survives every crash exactly when it was flushed. */
  lemma CrashProofExactly(setup: Setup, d: Disk)
    requires Front(d, setup.main).Some?
    ensures CrashProof(d, setup.main) <==> Front(d, setup.main).value.durable
  {
    var main := setup.main;
    if !Front(d, setup.main).value.durable {
      hide ParseText;
      var text := ThirdFile(Load(d, main), Load(d, main));
      var victim := if main in d then main else Temp(main);
      var d' := map name | name in d :: if name == victim then File(text, true) else d[name].(durable := true);
      assert d'.Keys == d.Keys;
      assert CrashesTo(d, d');
      assert Load(d', main) == Whole(text);
    }
  }

  /** Whole runs of edits, saves in which any operation may fail, crashes and restarts,
      from a flushed main file on, no save beginning without one: as long as no crash has
      met it unflushed, a load gives the file last placed, as it was written; that is the
      whole configuration exactly when no write of its save failed; and the next crash
      leaves it alone exactly when the flush of its save worked. */
  lemma {:induction false} RunsWithFailures(setup: Setup, s: State, steps: seq<Step>)
    requires setup.Starts(s) && setup.IsRun(s, steps) && setup.SavesWithMain(s, steps)
    ensures var s' := setup.End(s, steps);
            && (s'.intact ==> Load(s'.disk, setup.main) == Whole(s'.placed.text)
                              && (CrashProof(s'.disk, setup.main) <==> s'.placed.flushed))
            && (match s'.placed.of
                case None => s'.placed == s.placed
                case Some(st) => s'.placed.whole <==> s'.placed.text == FileText(st))
  {
    hide Setup.Starts, Setup.Progress, Load, CrashProof;
    setup.StartHasInv(s);
    setup.RunKeepsInv(s, steps);
    var s' := setup.End(s, steps);
    setup.NothingPlaced(s, steps);
    setup.InvMeansPlaced(s');
    CrashProofExactly(setup, s'.disk);
  }

  /** Crash safety when nothing else fails, with an atomic rename: from a flushed main
      file on, whatever the interleaving of edits, saves, crashes at any operation and
      restarts, loading gives the configuration of the last rename, whole. */
  lemma {:induction false} CrashSafety(main: string, s: State, steps: seq<Step>)
    requires Setup(main, false).Starts(s) && Setup(main, false).IsRun(s, steps)
    requires Setup(main, false).NothingFails(steps)
    ensures var s' := Setup(main, false).End(s, steps);
            match s'.renamed
            case None => Load(s'.disk, main) == Load(s.disk, main)
            case Some(st) => IsConfig(Load(s'.disk, main), st)
  {
    hide Setup.Progress, Load, IsConfig;
    var setup := Setup(main, false);
    setup.StartHasInv(s);
    setup.AtomicRenameKeepsMain(s, steps);
    LastPlacedWins(setup, s, steps);
  }

  /** What was last placed is what a load gives, when nothing fails. */
  lemma LastPlacedWins(setup: Setup, s: State, steps: seq<Step>)
    requires setup.Starts(s) && setup.IsRun(s, steps) && setup.SavesWithMain(s, steps) && setup.NothingFails(steps)
    ensures var s' := setup.End(s, steps);
            && setup.Inv(s')
            && match s'.placed.of
               case None => Load(s'.disk, setup.main) == Load(s.disk, setup.main)
               case Some(st) => IsConfig(Load(s'.disk, setup.main), st)
  {
    hide Setup.Progress, Load, IsConfig;
    setup.StartHasInv(s);
    setup.RunKeepsInv(s, steps);
    setup.RunIsFlawless(s, steps);
    setup.NothingPlaced(s, steps);
    var s' := setup.End(s, steps);
    setup.InvMeansPlaced(s');
    setup.InvMeansPlaced(s);
    if s'.placed.of.Some? {
      WholeIsConfig(s'.placed.of.value);
    }
  }

  /** Where the main file must be removed before the rename, as long as no save begins
      without a main file and nothing fails: whenever the main file is there, loading gives
      the configuration of the last rename, whole; when it is not, a save was begun and
      loading gives the configuration of the last one begun, whole. */
  lemma {:induction false} CrashSafetyRemoveFirst(main: string, s: State, steps: seq<Step>)
    requires Setup(main, true).Starts(s) && Setup(main, true).IsRun(s, steps)
    requires Setup(main, true).SavesWithMain(s, steps) && Setup(main, true).NothingFails(steps)
    ensures var s' := Setup(main, true).End(s, steps);
            if main in s'.disk then
              match s'.renamed
              case None => Load(s'.disk, main) == Load(s.disk, main)
              case Some(st) => IsConfig(Load(s'.disk, main), st)
            else
              match Setup(main, true).LastBegun(s, steps)
              case None => false
              case Some(st) => IsConfig(Load(s'.disk, main), st)
  {
    hide Setup.Progress, Load, IsConfig;
    var setup := Setup(main, true);
    LastPlacedWins(setup, s, steps);
    if main !in setup.End(s, steps).disk {
      setup.DraftIsLastBegun(s, steps);
      if setup.LastBegun(s, steps).None? {
        setup.NothingBegun(s, steps);
      }
    }
  }

  // ------------------------------------------------------- exactly when a save is safe

  /** Crashing after k operations of saving st on d can leave d'. */
  predicate CrashDuringSave(setup: Setup, d: Disk, st: Sections, k: nat, d': Disk) {
    k <= |setup.Ops(st)| && CrashesTo(ExecAll(d, setup.Ops(st)[..k]), d')
  }

  /** No crash point, and nothing a crash can leave, loads as anything but old or new. */
  ghost predicate SaveIsSafe(setup: Setup, d: Disk, st: Sections) {
    forall k: nat, d': Disk :: CrashDuringSave(setup, d, st, k, d') ==>
      Load(d', setup.main) in {Load(d, setup.main), Whole(FileText(st))}
  }

  function LoneSection(name: string): (st: Sections)
    ensures st != [] && st[0].name == name
  {
    [NewSection(name)]
  }

  lemma LoneIsExact(name: string)
    requires PrintableName(name)
    ensures Whole(FileText(LoneSection(name))) == Loaded(LoneSection(name))
  {
    hide Whole, FileText, PrintableName;
    var st := LoneSection(name);
    assert |st| == 1 && PrintableSection(st[0]);
    WholeIsExact(st);
  }

  /** Some file loads as neither of two given results. */
  lemma ThirdFile(a: Loaded, b: Loaded) returns (text: string)
    ensures Whole(text) !in {a, b}
  {
    hide Whole, FileText, LoneSection;
    var (x, y, z) := (LoneSection("x"), LoneSection("y"), LoneSection("z"));
    LoneIsExact("x");
    LoneIsExact("y");
    LoneIsExact("z");
    assert x[0].name[0] == 'x' && y[0].name[0] == 'y' && z[0].name[0] == 'z';
    text := FileText(if Loaded(x) !in {a, b} then x else if Loaded(y) !in {a, b} then y else z);
  }

  lemma {:induction false} ExecSnoc(d: Disk, ops: seq<Op>, k: nat)
    requires k < |ops|
    ensures ExecAll(d, ops[..k + 1]) == Exec(ExecAll(d, ops[..k]), ops[k])
    decreases k
  {
    if k > 0 {
      ExecSnoc(Exec(d, ops[0]), ops[1..], k - 1);
      assert ops[..k + 1][1..] == ops[1..][..k];
      assert ops[..k][1..] == ops[1..][..k - 1];
    } else {
      assert ops[..1] == [ops[0]];
    }
  }

  /** The first k operations of a save, seen as a state of the protocol. */
  lemma {:induction false} SaveReaches(setup: Setup, d: Disk, st: Sections, k: nat) returns (s: State)
    requires setup.main in d && d[setup.main].durable
    requires k <= |setup.Ops(st)|
    ensures setup.Inv(s) && setup.Flawless(s) && s.disk == ExecAll(d, setup.Ops(st)[..k]) && s.draft.of == st
    ensures s.placed.of == Some(st) || s.placed.text == d[setup.main].text
    ensures s.pc == if k < |setup.Ops(st)| then Some(k) else None
    decreases k
  {
    hide FileText, FileChunks, SaveOps, Setup.Progress, Front, Setup.Flawless;
    var ops := setup.Ops(st);
    if k == 0 {
      s := SaveStart(setup, d, st);
      assert ops[..0] == [];
    } else {
      var before := SaveReaches(setup, d, st, k - 1);
      setup.SaveStepKeepsInv(before, true);
      setup.StepIsFlawless(before, SaveStep(true));
      ExecSnoc(d, ops, k - 1);
      s := setup.Do(before, SaveStep(true));
    }
  }

  lemma SaveStart(setup: Setup, d: Disk, st: Sections) returns (s: State)
    requires setup.main in d && d[setup.main].durable
    ensures setup.Inv(s) && setup.Flawless(s) && s.disk == d && s.draft.of == st
    ensures s.placed.text == d[setup.main].text && s.pc == Some(0) && |setup.Ops(st)| > 0
  {
    hide FileText, FileChunks, Setup.Fits;
    s := State(d, Some(st), Some(0), Draft(st, "", false, false), Placed(None, d[setup.main].text, true, true), true, None);
    setup.NothingDrafted(s.draft, FileChunks(st));
  }

  lemma {:induction false} SafeWithMain(setup: Setup, d: Disk, st: Sections, k: nat, d': Disk)
    requires setup.main in d && d[setup.main].durable
    requires CrashDuringSave(setup, d, st, k, d')
    ensures Load(d', setup.main) in {Load(d, setup.main), Whole(FileText(st))}
  {
    hide FileText, FileChunks, Setup.Progress, ParseText;
    var s := SaveReaches(setup, d, st, k);
    assert setup.Enabled(s, Crash(d'));
    setup.CrashKeepsInv(s, d');
    setup.InvMeansPlaced(setup.Do(s, Crash(d')));
  }

  lemma SaveBegins(setup: Setup, st: Sections)
    ensures |setup.Ops(st)| > 0 && setup.Ops(st)[0] == Truncate(Temp(setup.main))
  {
  }

  /** The crash point at which a save without a flushed main file can lose everything:
      at once when an unflushed main file exists, else after the first operation. */
  lemma UnsafeWithoutMain(setup: Setup, d: Disk, st: Sections) returns (k: nat, d': Disk)
    requires !(setup.main in d && d[setup.main].durable)
    ensures CrashDuringSave(setup, d, st, k, d')
    ensures Load(d', setup.main) !in {Load(d, setup.main), Whole(FileText(st))}
  {
    hide FileText, FileChunks, SaveOps, ParseText;
    var (main, ops) := (setup.main, setup.Ops(st));
    assert |ops| > 0 && ops[0] == Truncate(Temp(main)) by {
      SaveBegins(setup, st);
    }
    var text := ThirdFile(Load(d, main), Whole(FileText(st)));
    k := if main in d then 0 else 1;
    var victim := if main in d then main else Temp(main);
    var before := ExecAll(d, ops[..k]);
    if main in d {
      assert ops[..0] == [];
    } else {
      ExecSnoc(d, ops, 0);
      assert ops[..0] == [];
    }
    d' := map name | name in before :: if name == victim then File(text, true) else before[name].(durable := true);
    assert d'.Keys == before.Keys;
  }

  /** A save survives every crash if and only if it begins with a flushed main file. */
  lemma SaveIsSafeExactly(setup: Setup, d: Disk, st: Sections)
    ensures SaveIsSafe(setup, d, st) <==> setup.main in d && d[setup.main].durable
  {
    if setup.main in d && d[setup.main].durable {
      forall k: nat, d': Disk | CrashDuringSave(setup, d, st, k, d')
        ensures Load(d', setup.main) in {Load(d, setup.main), Whole(FileText(st))}
      {
        SafeWithMain(setup, d, st, k, d');
      }
    } else {
      var k, d' := UnsafeWithoutMain(setup, d, st);
    }
  }

  // ------------------------------------------------------- operations that fail

  /** The operations that take effect when the i-th one tried works as works(from + i) says. */
  function Effective(ops: seq<Op>, works: nat -> bool, from: nat): seq<Op>
    decreases |ops|
  {
    if ops == [] then []
    else (if works(from) then [ops[0]] else []) + Effective(ops[1..], works, from + 1)
  }

  lemma {:induction false} EffectiveConcat(a: seq<Op>, b: seq<Op>, works: nat -> bool, from: nat)
    ensures Effective(a + b, works, from) == Effective(a, works, from) + Effective(b, works, from + |a|)
    decreases |a|
  {
    if a == [] {
      assert a + b == b;
    } else {
      assert (a + b)[0] == a[0] && (a + b)[1..] == a[1..] + b;
      EffectiveConcat(a[1..], b, works, from + 1);
      Assoc(if works(from) then [a[0]] else [], Effective(a[1..], works, from + 1), Effective(b, works, from + |a|));
    }
  }

  /** Counting from another number. */
  lemma {:induction false} EffectiveFrom(ops: seq<Op>, works: nat -> bool, start: nat, from: nat)
    ensures Effective(ops, works, start + from) == Effective(ops, (i: nat) => works(start + i), from)
    decreases |ops|
  {
    if ops != [] {
      EffectiveFrom(ops[1..], works, start, from + 1);
    }
  }

  lemma EffectiveOne(op: Op, works: nat -> bool, from: nat)
    ensures Effective([op], works, from) == if works(from) then [op] else []
  {
    assert [op][1..] == [];
  }

  /** The chunks whose write succeeds. */
  function Written(chunks: seq<string>, works: nat -> bool, from: nat): seq<string>
    decreases |chunks|
  {
    if chunks == [] then []
    else (if works(from) then [chunks[0]] else []) + Written(chunks[1..], works, from + 1)
  }

  predicate AllWork(works: nat -> bool, from: nat, n: nat) {
    forall i: nat :: from <= i < from + n ==> works(i)
  }

  lemma {:induction false} EffectiveAppends(name: string, chunks: seq<string>, works: nat -> bool, from: nat)
    ensures Effective(Appends(name, chunks), works, from) == Appends(name, Written(chunks, works, from))
    decreases |chunks|
  {
    if chunks != [] {
      var rest := Written(chunks[1..], works, from + 1);
      assert Appends(name, chunks)[1..] == Appends(name, chunks[1..]);
      EffectiveAppends(name, chunks[1..], works, from + 1);
      AppendsConcat(name, [chunks[0]], rest);
      assert Appends(name, [chunks[0]]) == [Append(name, chunks[0])];
      assert [] + rest == rest;
    }
  }

  predicate NoEmptyChunk(chunks: seq<string>) {
    forall i :: 0 <= i < |chunks| ==> chunks[i] != ""
  }

  lemma NoEmptyChunkConcat(a: seq<string>, b: seq<string>)
    requires NoEmptyChunk(a) && NoEmptyChunk(b)
    ensures NoEmptyChunk(a + b)
  {
  }

  lemma {:induction false} FileChunksNotEmpty(st: Sections)
    ensures NoEmptyChunk(FileChunks(st))
  {
    if st != [] {
      hide NoEmptyChunk;
      FileChunksNotEmpty(st[1..]);
      SectionChunksNotEmpty(st[0]);
      NoEmptyChunkConcat(SectionChunks(st[0]), FileChunks(st[1..]));
    } else {
      assert FileChunks(st) == [];
    }
  }

  lemma SectionChunksNotEmpty(sec: Section)
    ensures NoEmptyChunk(SectionChunks(sec))
  {
    hide ParamChunks, ItemChunks;
    var (head, ps, items) := (["[" + sec.name], ParamChunks(sec.params), ItemChunks(sec.items));
    ParamChunksNotEmpty(sec.params);
    ItemChunksNotEmpty(sec.items);
    NoEmptyChunkConcat(head, ps);
    NoEmptyChunkConcat(head + ps, ["]\n"]);
    NoEmptyChunkConcat(head + ps + ["]\n"], items);
    NoEmptyChunkConcat(head + ps + ["]\n"] + items, ["\n"]);
  }

  lemma {:induction false} ParamChunksNotEmpty(ps: seq<Param>)
    ensures NoEmptyChunk(ParamChunks(ps))
  {
    if ps != [] {
      ParamChunksNotEmpty(ps[1..]);
    }
  }

  lemma {:induction false} ItemChunksNotEmpty(items: seq<Item>)
    ensures NoEmptyChunk(ItemChunks(items))
  {
    if items != [] {
      ItemChunksNotEmpty(items[1..]);
    }
  }

  /** What is written is as long as the whole text only when nothing is lost. */
  lemma {:induction false} LostText(chunks: seq<string>, works: nat -> bool, from: nat)
    requires NoEmptyChunk(chunks)
    ensures |Flat(Written(chunks, works, from))| <= |Flat(chunks)|
    ensures |Flat(Written(chunks, works, from))| == |Flat(chunks)| <==> AllWork(works, from, |chunks|)
    ensures AllWork(works, from, |chunks|) ==> Written(chunks, works, from) == chunks
    decreases |chunks|
  {
    if chunks != [] {
      var rest := Written(chunks[1..], works, from + 1);
      LostText(chunks[1..], works, from + 1);
      assert AllWork(works, from, |chunks|) <==> works(from) && AllWork(works, from + 1, |chunks| - 1);
      assert Flat([chunks[0]] + rest) == chunks[0] + Flat(rest) by {
        assert ([chunks[0]] + rest)[1..] == rest;
      }
      assert [] + rest == rest;
    }
  }

  lemma {:induction false} AppendsGrow(d: Disk, name: string, chunks: seq<string>)
    requires name in d
    ensures var d' := ExecAll(d, Appends(name, chunks));
            && d'.Keys == d.Keys && d'[name].text == d[name].text + Flat(chunks)
            && (!d[name].durable ==> !d'[name].durable)
            && (forall other :: other in d && other != name ==> d'[other] == d[other])
    decreases |chunks|
  {
    if chunks == [] {
      assert d[name].text + "" == d[name].text;
    } else {
      var ops := Appends(name, chunks);
      assert ops[1..] == Appends(name, chunks[1..]);
      AppendsGrow(Exec(d, ops[0]), name, chunks[1..]);
      Assoc(d[name].text, chunks[0], Flat(chunks[1..]));
    }
  }

  /** The save up to the flush, whatever fails once the file is open: the temporary file
      holds exactly what was written, durable if the flush works, and nothing else has
      changed. */
  lemma AfterWrites(main: string, st: Sections, d: Disk, works: nat -> bool, from: nat)
    requires works(from)
    ensures var (tmp, chunks) := (Temp(main), FileChunks(st));
            var d' := ExecAll(d, Effective([Truncate(tmp)] + Appends(tmp, chunks) + [Flush(tmp)], works, from));
            && d'.Keys == d.Keys + {tmp}
            && d'[tmp] == File(Flat(Written(chunks, works, from + 1)), works(from + 1 + |chunks|))
            && (forall name :: name in d && name != tmp ==> d'[name] == d[name])
  {
    hide FileText, FileChunks, Written, Flat, Appends, ExecAll, Effective;
    var (tmp, chunks) := (Temp(main), FileChunks(st));
    var (first, appends, last) := ([Truncate(tmp)], Appends(tmp, chunks), [Flush(tmp)]);
    EffectiveConcat(first + appends, last, works, from);
    EffectiveConcat(first, appends, works, from);
    EffectiveOne(first[0], works, from);
    EffectiveOne(last[0], works, from + 1 + |chunks|);
    EffectiveAppends(tmp, chunks, works, from + 1);
    var written := Written(chunks, works, from + 1);
    ExecConcat(d, first, Appends(tmp, written));
    ExecOne(d, first[0]);
    var begun := Exec(d, first[0]);
    AppendsGrow(begun, tmp, written);
    var full := ExecAll(begun, Appends(tmp, written));
    ExecOne(full, last[0]);
    ExecNothing(full);
    ExecConcat(d, first + Appends(tmp, written), Effective(last, works, from + 1 + |chunks|));
    assert "" + Flat(written) == Flat(written);
  }

  /** The end of a save: the main file may be removed, then comes the rename. */
  lemma AfterRename(main: string, d: Disk, removeFirst: bool, works: nat -> bool, from: nat)
    requires Temp(main) in d
    ensures var tail := (if removeFirst then [Remove(main)] else []) + [Rename(Temp(main), main)];
            var (removed, renamed) := (removeFirst && works(from), works(from + |tail| - 1));
            var d' := ExecAll(d, Effective(tail, works, from));
            && (renamed ==> main in d' && d'[main] == d[Temp(main)] && Temp(main) !in d')
            && (!renamed && !removed ==> d' == d)
            && (!renamed && removed ==> d' == d - {main})
  {
    hide ExecAll, Effective;
    var (remove, rename) := (if removeFirst then [Remove(main)] else [], [Rename(Temp(main), main)]);
    EffectiveConcat(remove, rename, works, from);
    EffectiveOne(rename[0], works, from + |remove|);
    if removeFirst {
      EffectiveOne(remove[0], works, from);
    } else {
      NoneEffective(works, from);
    }
    var e := Effective(remove, works, from);
    ExecConcat(d, e, Effective(rename, works, from + |remove|));
    ExecNothing(d);
    ExecNothing(d - {main});
    ExecOne(d, Remove(main));
    ExecOne(d, rename[0]);
    ExecOne(d - {main}, rename[0]);
  }

  lemma NoneEffective(works: nat -> bool, from: nat)
    ensures Effective([], works, from) == []
  {
  }

  lemma ExecNothing(d: Disk)
    ensures ExecAll(d, []) == d
  {
  }

  /** A save whose temporary file can be opened, whatever else fails. Failures are only
      logged, so when the rename works, the main file is exactly what was written: the
      whole configuration if and only if no write failed. When the rename fails, a load
      gives what it gave before, or, when there is no main file, because there was none or
      because it was removed, what was written. */
  lemma FailuresAreCommitted(main: string, st: Sections, removeFirst: bool, d: Disk, works: nat -> bool, from: nat)
    requires works(from)
    ensures var ops := SaveOps(main, st, removeFirst);
            var d' := ExecAll(d, Effective(ops, works, from));
            var (removed, renamed) := (removeFirst && works(from + |ops| - 2), works(from + |ops| - 1));
            var text := Flat(Written(FileChunks(st), works, from + 1));
            && (text == FileText(st) <==> AllWork(works, from + 1, |FileChunks(st)|))
            && (renamed ==> d'[main := File(text, works(from + 1 + |FileChunks(st)|))] == d' && Temp(main) !in d')
            && Front(d', main).Some?
            && Front(d', main).value.text == (if renamed || removed || main !in d then text else d[main].text)
            && Load(d', main) == if renamed || removed || main !in d then Whole(text) else Load(d, main)
  {
    hide FileText, FileChunks, Written, Flat, Appends, ExecAll, Effective, ParseText;
    var (tmp, chunks) := (Temp(main), FileChunks(st));
    FileChunksText(st);
    FileChunksNotEmpty(st);
    LostText(chunks, works, from + 1);
    assert AllWork(works, from + 1, |chunks|) ==> Flat(Written(chunks, works, from + 1)) == FileText(st);
    var writes := [Truncate(tmp)] + Appends(tmp, chunks) + [Flush(tmp)];
    var tail := (if removeFirst then [Remove(main)] else []) + [Rename(tmp, main)];
    SaveInTwo(main, st, removeFirst);
    EffectiveConcat(writes, tail, works, from);
    ExecConcat(d, Effective(writes, works, from), Effective(tail, works, from + |writes|));
    AfterWrites(main, st, d, works, from);
    var full := ExecAll(d, Effective(writes, works, from));
    AfterRename(main, full, removeFirst, works, from + |writes|);
  }

  lemma SaveInTwo(main: string, st: Sections, removeFirst: bool)
    ensures var writes := [Truncate(Temp(main))] + Appends(Temp(main), FileChunks(st)) + [Flush(Temp(main))];
            var tail := (if removeFirst then [Remove(main)] else []) + [Rename(Temp(main), main)];
            SaveOps(main, st, removeFirst) == writes + tail && |writes| == |FileChunks(st)| + 2
  {
    hide FileChunks;
  }

  lemma ExecOne(d: Disk, op: Op)
    ensures ExecAll(d, [op]) == Exec(d, op)
  {
    assert [op][1..] == [];
  }

  // ------------------------------------------------------------ the device itself

  lemma {:induction false} ExecConcat(d: Disk, a: seq<Op>, b: seq<Op>)
    ensures ExecAll(d, a + b) == ExecAll(ExecAll(d, a), b)
    decreases |a|
  {
    if a == [] {
      assert a + b == b;
    } else {
      assert (a + b)[0] == a[0] && (a + b)[1..] == a[1..] + b;
      ExecConcat(Exec(d, a[0]), a[1..], b);
    }
  }

  /** The file system as a device, with the history of the operations tried on it. The
      k-th one works as works(k) says, and has no effect otherwise. */
  class FileSystem {
    var files: Disk
    var count: nat
    const works: nat -> bool
    ghost const start: Disk
    ghost var log: seq<Op>

    ghost predicate Valid()
      reads this
    {
      count == |log| && files == ExecAll(start, Effective(log, works, 0))
    }

    constructor (files: Disk, works: nat -> bool)
      ensures Valid() && this.files == files && this.works == works && log == []
    {
      this.files, this.works, count, start, log := files, works, 0, files, [];
    }

    method Do(op: Op) returns (ok: bool)
      requires Valid()
      modifies this
      ensures Valid() && log == old(log) + [op] && ok == works(|old(log)|)
    {
      hide ExecAll, Effective;
      EffectiveConcat(log, [op], works, 0);
      EffectiveOne(op, works, count);
      ExecConcat(start, Effective(log, works, 0), Effective([op], works, count));
      ExecOne(files, op);
      ExecNothing(files);
      ok := works(count);
      if ok {
        files := Exec(files, op);
      }
      log, count := log + [op], count + 1;
    }

    /** What a stretch of operations did, whatever came before. */
    lemma Since(before: seq<Op>, ops: seq<Op>)
      requires Valid() && log == before + ops
      ensures files == ExecAll(ExecAll(start, Effective(before, works, 0)), Effective(ops, works, |before|))
    {
      EffectiveConcat(before, ops, works, 0);
      ExecConcat(start, Effective(before, works, 0), Effective(ops, works, |before|));
    }
  }
}
