/**
 The whole store as a plain map: over any run of changes, the ordered list of sections
 and items behaves as the map from (section, key) to value that its lookups show.
 */
module Refinement {
  import opened Lists
  import opened CText
  import opened Store
  import opened LineSyntax

  /** Everything that changes values: the setters, the clean functions, reading a file. */
  datatype Change =
    | SetValue(section: string, key: string, value: string)
    | DropSection(section: string)
    | DropEntry(section: string, key: string)
    | ReadFile(text: string)

  type View = map<(string, string), string>

  function OnStore(st: Sections, c: Change): Sections {
    match c
    case SetValue(section, key, value) => Set(st, section, key, value)
    case DropSection(section) => RemoveSection(st, section)
    case DropEntry(section, key) => Set(st, section, key, "")
    case ReadFile(text) => ParseText(st, text)
  }

  function OnMap(m: View, c: Change): View {
    match c
    case SetValue(section, key, value) =>
      if value == "" then m - {(section, key)} else m[(section, key) := value]
    case DropSection(section) => map p | p in m && p.0 != section :: m[p]
    case DropEntry(section, key) => m - {(section, key)}
    case ReadFile(text) => m + ToMap(ParseText([], text))
  }

  function AllOnStore(st: Sections, cs: seq<Change>): Sections
    decreases |cs|
  {
    if cs == [] then st else AllOnStore(OnStore(st, cs[0]), cs[1..])
  }

  function AllOnMap(m: View, cs: seq<Change>): View
    decreases |cs|
  {
    if cs == [] then m else AllOnMap(OnMap(m, cs[0]), cs[1..])
  }

  lemma ChangeRefines(st: Sections, c: Change)
    requires Wf(st)
    ensures Wf(OnStore(st, c)) && ToMap(OnStore(st, c)) == OnMap(ToMap(st), c)
  {
    hide Wf, ToMap, Set, RemoveSection, ParseText, HasSection;
    match c
    case SetValue(section, key, value) => SetIsMapUpdate(st, section, key, value);
    case DropSection(section) => RemoveSectionIsMapRestriction(st, section);
    case DropEntry(section, key) => SetIsMapUpdate(st, section, key, "");
    case ReadFile(text) => ParseIsOverride(st, text);
  }

  /** Sections, keys and comments stay unique and values non-empty, and the lookups are
      those of the map the same changes make. */
  lemma {:induction false} RunRefines(st: Sections, cs: seq<Change>)
    requires Wf(st)
    ensures Wf(AllOnStore(st, cs)) && ToMap(AllOnStore(st, cs)) == AllOnMap(ToMap(st), cs)
    decreases |cs|
  {
    hide Wf, ToMap, OnStore, OnMap;
    if cs != [] {
      ChangeRefines(st, cs[0]);
      RunRefines(OnStore(st, cs[0]), cs[1..]);
    }
  }

  // ------------------------------------------------------------ the `modified` flag

  /** The configuration in use: its store, the values as of the last sync, and the flag.
      What a sync leaves in the file is another matter; see Syncing. */
  datatype Session = Session(st: Sections, saved: View, modified: bool)

  datatype Action = Alter(change: Change) | Save

  /** Which changes set the flag. */
  predicate Marks(st: Sections, c: Change) {
    match c
    case SetValue(section, key, value) => value == "" || Get(st, section, key) != Some(value)
    case DropSection(_) => true
    case DropEntry(_, _) => false
    case ReadFile(_) => false
  }

  function Do(s: Session, a: Action): Session {
    match a
    case Alter(c) => Session(OnStore(s.st, c), s.saved, s.modified || Marks(s.st, c))
    case Save => Session(s.st, ToMap(s.st), false)
  }

  /** What the flag is for: unmarked means that every value is as of the last sync. */
  predicate Sound(s: Session) {
    s.modified || ToMap(s.st) == s.saved
  }

  predicate SoundThroughout(s: Session, actions: seq<Action>)
    decreases |actions|
  {
    Sound(s) && (actions != [] ==> SoundThroughout(Do(s, actions[0]), actions[1..]))
  }

  /** The change sets no flag and still has an effect: an entry cleaned that is there,
      or a file read that has a value the store has not. */
  predicate Slips(st: Sections, c: Change) {
    match c
    case DropEntry(section, key) => Get(st, section, key).Some?
    case ReadFile(text) =>
      var over := ToMap(ParseText([], text));
      exists p :: p in over && Get(st, p.0, p.1) != Some(over[p])
    case _ => false
  }

  /** Every such change of the run meets a store that is marked already. */
  predicate SlipsOnlyWhenMarked(s: Session, actions: seq<Action>)
    decreases |actions|
  {
    actions != [] ==>
      && (actions[0].Alter? && Slips(s.st, actions[0].change) ==> s.modified)
      && SlipsOnlyWhenMarked(Do(s, actions[0]), actions[1..])
  }

  lemma ReadChangesExactly(m: View, over: View)
    ensures m + over == m <==> forall p :: p in over ==> p in m && m[p] == over[p]
  {
    if m + over == m {
      forall p | p in over
        ensures p in m && m[p] == over[p]
      {
        assert p in m + over && (m + over)[p] == over[p];
      }
    }
  }

  /** An unmarked change leaves the values alone exactly when it does not slip. */
  lemma UnmarkedChange(st: Sections, c: Change)
    requires Wf(st) && !Marks(st, c)
    ensures ToMap(OnStore(st, c)) == ToMap(st) <==> !Slips(st, c)
  {
    hide Wf, Set, ParseText, RemoveSection, Get;
    match c
    case SetValue(section, key, value) => SetNothing(st, section, key, value);
    case DropSection(_) =>
    case DropEntry(section, key) =>
      ChangeRefines(st, c);
      ToMapLook(st, section, key);
    case ReadFile(text) =>
      ChangeRefines(st, c);
      var over := ToMap(ParseText([], text));
      ReadChangesExactly(ToMap(st), over);
      forall p | p in over
        ensures Get(st, p.0, p.1) == Some(over[p]) <==> p in ToMap(st) && ToMap(st)[p] == over[p]
      {
        ToMapLook(st, p.0, p.1);
        assert p == (p.0, p.1);
      }
  }

  lemma SoundStep(s: Session, a: Action)
    requires Wf(s.st) && Sound(s)
    ensures Wf(Do(s, a).st)
    ensures Sound(Do(s, a)) <==> (a.Alter? && Slips(s.st, a.change) ==> s.modified)
  {
    hide Wf, OnStore, Slips, Marks, ToMap;
    if a.Alter? {
      ChangeRefines(s.st, a.change);
      if Marks(s.st, a.change) {
        MarkedDoesNotSlip(s.st, a.change);
      } else {
        UnmarkedChange(s.st, a.change);
      }
    }
  }

  lemma MarkedDoesNotSlip(st: Sections, c: Change)
    requires Marks(st, c)
    ensures !Slips(st, c)
  {
  }

  /** Over any run, unmarked means unchanged since the last sync at every moment exactly
      when every change that sets no flag but has an effect meets a marked store. */
  lemma {:induction false} FlagIsSoundExactly(s: Session, actions: seq<Action>)
    requires Wf(s.st) && Sound(s)
    ensures SoundThroughout(s, actions) <==> SlipsOnlyWhenMarked(s, actions)
    decreases |actions|
  {
    if actions != [] {
      hide Wf, Do, Sound, Slips;
      SoundStep(s, actions[0]);
      if Sound(Do(s, actions[0])) {
        FlagIsSoundExactly(Do(s, actions[0]), actions[1..]);
      } else {
        NotSoundThroughout(Do(s, actions[0]), actions[1..]);
      }
    }
  }

  lemma NotSoundThroughout(s: Session, actions: seq<Action>)
    requires !Sound(s)
    ensures !SoundThroughout(s, actions)
  {
  }

  /** Setting an entry, saving and cleaning the entry: the value is gone, the flag is not set. */
  lemma CleanGoesUnmarked()
    ensures var saved := Do(Do(Session([], map[], false), Alter(SetValue("s", "k", "v"))), Save);
            Sound(saved) && !Sound(Do(saved, Alter(DropEntry("s", "k"))))
  {
    hide Set, Get, ToMap;
    var start := Session([], map[], false);
    var filled := Do(start, Alter(SetValue("s", "k", "v")));
    AfterSet([], "s", "k", "v", "s", "k");
    SoundStep(Do(filled, Save), Alter(DropEntry("s", "k")));
  }
}
