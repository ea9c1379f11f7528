/**
 The `modified` flag and the file: the flag is cleared by every sync that could open the
 temporary file, whatever failed afterwards. When can it be relied on that an unmarked
 configuration is the one in the file?
 */
module Syncing {
  import opened Lists
  import opened CText
  import opened Store
  import opened LineSyntax
  import opened Printer
  import opened Durability
  import opened Refinement

  datatype Use = Use(st: Sections, disk: Disk, modified: bool, readonly: bool)

  /** A sync, with which of its operations work. */
  datatype Act = Change(change: Refinement.Change) | Sync(works: nat -> bool)

  datatype Target = Target(main: string, removeFirst: bool) {
    function Ops(st: Sections): seq<Op> {
      SaveOps(main, st, removeFirst)
    }

    function Do(u: Use, a: Act): Use {
      match a
      case Change(c) => u.(st := OnStore(u.st, c), modified := u.modified || Marks(u.st, c))
      case Sync(works) =>
        if u.readonly then u
        else if !works(0) then u.(readonly := true)
        else u.(disk := ExecAll(u.disk, Effective(Ops(u.st), works, 0)), modified := false)
    }

    predicate InFile(d: Disk, st: Sections) {
      Front(d, main).Some? && Front(d, main).value.text == FileText(st)
    }

    /** Unmarked means that the file is the configuration's. */
    predicate Sound(u: Use) {
      u.modified || InFile(u.disk, u.st)
    }

    predicate SoundThroughout(u: Use, acts: seq<Act>)
      decreases |acts|
    {
      Sound(u) && (acts != [] ==> SoundThroughout(Do(u, acts[0]), acts[1..]))
    }

    /** The configuration stays one that the file format can express. */
    predicate StaysPrintable(u: Use, acts: seq<Act>)
      decreases |acts|
    {
      Printable(u.st) && (acts != [] ==> StaysPrintable(Do(u, acts[0]), acts[1..]))
    }

    /** A change that sets no flag and has an effect. */
    predicate ChangesUnmarked(st: Sections, c: Refinement.Change) {
      match c
      case DropEntry(section, key) => Get(st, section, key).Some?
      case ReadFile(text) => ParseText(st, text) != st
      case _ => false
    }

    /** The operations that work put the whole text where a load looks: when the rename
        worked, or nothing was there any more, all writes have; otherwise it was there. */
    predicate Lands(d: Disk, st: Sections, works: nat -> bool) {
      var n := |Ops(st)|;
      if works(n - 1) || (removeFirst && works(n - 2)) || main !in d then AllWork(works, 1, |FileChunks(st)|)
      else InFile(d, st)
    }

    /** The action goes wrong: an unmarked store changes, or a sync that got its file open
        clears the flag without putting the text in place. */
    predicate GoesWrong(u: Use, a: Act) {
      match a
      case Change(c) => ChangesUnmarked(u.st, c) && !u.modified
      case Sync(works) => !u.readonly && works(0) && !Lands(u.disk, u.st, works)
    }

    predicate NothingGoesWrong(u: Use, acts: seq<Act>)
      decreases |acts|
    {
      acts != [] ==> !GoesWrong(u, acts[0]) && NothingGoesWrong(Do(u, acts[0]), acts[1..])
    }

    /** A printable configuration is told from its file. */
    lemma FileTellsAll(a: Sections, b: Sections)
      requires Printable(a) && Printable(b)
      ensures FileText(a) == FileText(b) <==> a == b
    {
      hide Printable, FileText, ParseText;
      ParseUndoesPrint(a);
      ParseUndoesPrint(b);
    }

    lemma UnmarkedChangeExactly(st: Sections, c: Refinement.Change)
      requires Wf(st)
      ensures Marks(st, c) ==> !ChangesUnmarked(st, c)
      ensures !Marks(st, c) ==> (OnStore(st, c) == st <==> !ChangesUnmarked(st, c))
    {
      hide Wf, Set, ParseText, RemoveSection, Get;
      match c
      case SetValue(section, key, value) =>
        if !Marks(st, c) {
          SetNothing(st, section, key, value);
        }
      case DropSection(_) =>
      case DropEntry(section, key) => RemovingNothing(st, section, key);
      case ReadFile(_) =>
    }

    lemma SyncExactly(u: Use, works: nat -> bool)
      requires !u.readonly && works(0)
      ensures InFile(Do(u, Sync(works)).disk, u.st) <==> Lands(u.disk, u.st, works)
    {
      hide FileText, FileChunks, SaveOps, ExecAll, Effective, Written, Flat, Load, Front, AllWork, Whole;
      FailuresAreCommitted(main, u.st, removeFirst, u.disk, works, 0);
      FrontIsMain(u.disk);
    }

    lemma FrontIsMain(d: Disk)
      ensures main in d ==> Front(d, main) == Some(d[main])
    {
    }

    lemma SoundStep(u: Use, a: Act)
      requires Sound(u) && Printable(u.st) && Printable(Do(u, a).st)
      ensures Sound(Do(u, a)) <==> !GoesWrong(u, a)
    {
      hide Printable, OnStore, Marks, ChangesUnmarked, InFile, Lands, Ops;
      match a
      case Change(c) =>
        assert Wf(u.st) by {
          PrintableIsWf(u.st);
        }
        UnmarkedChangeExactly(u.st, c);
        SameFile(u.disk, u.st, OnStore(u.st, c));
      case Sync(works) =>
        if !u.readonly && works(0) {
          SyncExactly(u, works);
        }
    }

    lemma PrintableIsWf(st: Sections)
      requires Printable(st)
      ensures Wf(st)
    {
    }

    lemma SameFile(d: Disk, a: Sections, b: Sections)
      requires Printable(a) && Printable(b)
      ensures InFile(d, a) ==> (InFile(d, b) <==> a == b)
    {
      hide FileText, Printable;
      FileTellsAll(a, b);
    }

    /** Over any run of changes and syncs, in which any operation may fail: unmarked means
        that a load would give the configuration, at every moment, exactly when no
        unmarked store changes and every sync that clears the flag puts the text in place. */
    lemma {:induction false} FlagIsInFileExactly(u: Use, acts: seq<Act>)
      requires Sound(u) && StaysPrintable(u, acts)
      ensures SoundThroughout(u, acts) <==> NothingGoesWrong(u, acts)
      decreases |acts|
    {
      if acts != [] {
        hide Do, Sound, GoesWrong, Printable;
        assert StaysPrintable(Do(u, acts[0]), acts[1..]);
        SoundStep(u, acts[0]);
        if Sound(Do(u, acts[0])) {
          FlagIsInFileExactly(Do(u, acts[0]), acts[1..]);
        }
      }
    }

    /** What that is worth: an unmarked configuration is the one a load gives. */
    lemma UnmarkedIsLoaded(u: Use)
      requires Sound(u) && Printable(u.st) && !u.modified
      ensures Load(u.disk, main) == Loaded(u.st)
    {
      hide FileText, ParseText, Printable;
      WholeIsExact(u.st);
    }

    /** One write that fails in a sync that otherwise works is enough. */
    lemma LostWriteGoesUnmarked(u: Use, lost: nat)
      requires !u.readonly && 1 <= lost <= |FileChunks(u.st)|
      ensures var works := (i: nat) => i != lost;
              GoesWrong(u, Sync(works)) && !Sound(Do(u, Sync(works)))
    {
      hide FileText, FileChunks, ExecAll, Effective, Front, InFile;
      var works := (i: nat) => i != lost;
      assert !AllWork(works, 1, |FileChunks(u.st)|) by {
        assert 1 <= lost < 1 + |FileChunks(u.st)| && !works(lost);
      }
      SyncExactly(u, works);
    }
  }
}
