/**
 The tunnel's server list: its text form in the configuration, and the list of config
 objects that the manager's own lists must follow.
 */
module TunnelServers {
  import opened Lists
  import opened CText
  import opened Store
  import opened Config
  import opened Codecs
  import opened Tunnel
  import opened TunnelObject

  /** The fields of a tunnel config; -1 for no mirror port. */
  datatype Settings = Settings(
    host: Option<string>, port: int32, mirrorPort: int32, delay: int32, host2: Option<string>, port2: int32)

  const Default := Settings(None, 443, 12345, 1000, None, 0)

  // ---------------------------------------------------------------- to text

  /** linphone_tunnel_config_to_string: nothing without a host. */
  function ToText(c: Settings): (r: Option<string>)
    ensures r.Some? <==> c.host.Some?
  {
    if c.host.None? then None
    else
      var first := c.host.value + ":" + FormatInt(c.port);
      var tail := if c.host2.Some? then "/" + c.host2.value + ":" + FormatInt(c.port2) else "";
      if c.mirrorPort != -1 then
        Some(first + ":" + FormatInt(c.mirrorPort) + ":" + FormatInt(c.delay) + tail)
      else Some(first + tail)
  }

  // -------------------------------------------------------------- from text

  /** The variables of the field loop; `pos` counts fields and wraps to 1 at the fifth. */
  datatype Fields = Fields(host: Option<string>, port: int32, mirrorPort: int32, delay: int32, pos: nat)

  function TakeField(f: Fields, field: string): Fields {
    match f.pos
    case 0 => f.(host := Some(field), pos := 1)
    case 1 => f.(port := Atoi(field), pos := 2)
    case 2 => f.(mirrorPort := Atoi(field), pos := 3)
    case 3 => f.(delay := Atoi(field), pos := 4)
    case _ => f.(pos := 1)
  }

  function TakeFields(f: Fields, fields: seq<string>): Fields
    decreases |fields|
  {
    if fields == [] then f else TakeFields(TakeField(f, fields[0]), fields[1..])
  }

  const NoFields := Fields(None, -1, -1, -1, 0)

  /** linphone_tunnel_config_from_string, from the fields of its two halves. */
  function FromFields(one: Fields, two: Option<Fields>): Option<Settings> {
    if one.pos < 2 then None
    else
      var c := Default.(
        host := one.host, port := one.port,
        mirrorPort := if one.pos >= 3 then one.mirrorPort else -1,
        delay := if one.pos == 4 then one.delay else Default.delay);
      Some(if two.Some? && two.value.pos >= 2 then c.(host2 := two.value.host, port2 := two.value.port) else c)
  }

  function FromText(s: string): Option<Settings> {
    var halves := Tokens(s, '/');
    var one := TakeFields(NoFields, if |halves| >= 1 then Tokens(halves[0], ':') else []);
    var two := if |halves| >= 2 then Some(TakeFields(one.(pos := 0), Tokens(halves[1], ':'))) else None;
    FromFields(one, two)
  }

  /** The field loop. */
  method ScanFields(start: Fields, text: string) returns (f: Fields)
    ensures f == TakeFields(start, Tokens(text, ':'))
  {
    var fields := Tokens(text, ':');
    f := start;
    for i := 0 to |fields|
      invariant TakeFields(f, fields[i..]) == TakeFields(start, fields)
    {
      assert fields[i..][1..] == fields[i + 1..];
      f := TakeField(f, fields[i]);
    }
  }

  method ConfigFromString(s: string) returns (c: Option<Settings>)
    ensures c == FromText(s)
  {
    var halves := Tokens(s, '/');
    var one := NoFields;
    if |halves| >= 1 {
      one := ScanFields(NoFields, halves[0]);
    }
    var two := None;
    if |halves| >= 2 {
      var f := ScanFields(one.(pos := 0), halves[1]);
      two := Some(f);
    }
    c := FromFields(one, two);
  }

  // ------------------------------------------------------------ the round trip

  predicate CleanHost(h: string) {
    h != "" && NoSpace(h) && ':' !in h && '/' !in h
  }

  predicate CleanSettings(c: Settings) {
    (c.host.Some? ==> CleanHost(c.host.value)) && (c.host2.Some? ==> CleanHost(c.host2.value))
  }

  /** What survives: a delay only with a mirror port, a second port only with its host. */
  function Normal(c: Settings): Settings {
    c.(delay := if c.mirrorPort == -1 then Default.delay else c.delay,
       port2 := if c.host2.None? then Default.port2 else c.port2)
  }

  lemma NumbersAreClean(i: int32)
    ensures FormatInt(i) != "" && NoSpace(FormatInt(i)) && ':' !in FormatInt(i) && '/' !in FormatInt(i)
    ensures Atoi(FormatInt(i)) == i
  {
    AtoiFormat(i, "");
    assert FormatInt(i) + "" == FormatInt(i);
  }

  lemma TwoTokens(a: string, d: char, b: string)
    requires a != "" && b != "" && d !in a && d !in b
    ensures Tokens(a + [d] + b, d) == [a, b]
  {
    FirstToken(a, d, b);
    FirstToken(b, d, "");
  }

  lemma {:induction false} FourTokens(a: string, b: string, c: string, e: string)
    requires a != "" && b != "" && c != "" && e != ""
    requires ':' !in a && ':' !in b && ':' !in c && ':' !in e
    ensures Tokens(a + ":" + b + ":" + c + ":" + e, ':') == [a, b, c, e]
  {
    hide Tokens;
    var rest := c + [':'] + e;
    Rejoin(a, b, c, e);
    FirstToken(a, ':', b + [':'] + rest);
    FirstToken(b, ':', rest);
    TwoTokens(c, ':', e);
    assert [a] + ([b] + [c, e]) == [a, b, c, e];
  }

  lemma Rejoin(a: string, b: string, c: string, e: string)
    ensures a + ":" + b + ":" + c + ":" + e == a + [':'] + (b + [':'] + (c + [':'] + e))
  {
  }

  /** The first half of a config's text, with its fields. */
  lemma {:induction false} FirstHalf(c: Settings, half: string)
    requires c.host.Some? && CleanSettings(c)
    requires half == if c.mirrorPort != -1
                     then c.host.value + ":" + FormatInt(c.port) + ":" + FormatInt(c.mirrorPort) + ":" + FormatInt(c.delay)
                     else c.host.value + ":" + FormatInt(c.port)
    ensures half != "" && '/' !in half && NoSpace(half)
    ensures TakeFields(NoFields, Tokens(half, ':'))
            == if c.mirrorPort != -1 then Fields(c.host, c.port, c.mirrorPort, c.delay, 4)
               else Fields(c.host, c.port, -1, -1, 2)
  {
    hide FormatInt, Atoi, Tokens;
    NumbersAreClean(c.port);
    NumbersAreClean(c.mirrorPort);
    NumbersAreClean(c.delay);
    if c.mirrorPort != -1 {
      var l := [c.host.value, FormatInt(c.port), FormatInt(c.mirrorPort), FormatInt(c.delay)];
      FourTokens(l[0], l[1], l[2], l[3]);
      TakeFour(l);
    } else {
      var l := [c.host.value, FormatInt(c.port)];
      TwoTokens(l[0], ':', l[1]);
      TakeTwo(NoFields, l);
    }
  }

  lemma TakeTwo(f: Fields, l: seq<string>)
    requires |l| == 2 && f.pos == 0
    ensures TakeFields(f, l) == f.(host := Some(l[0]), port := Atoi(l[1]), pos := 2)
  {
    assert l[1..] == [l[1]] && l[1..][1..] == [];
    hide Atoi;
    assert TakeFields(f, l) == TakeFields(TakeField(f, l[0]), l[1..]);
    assert TakeFields(TakeField(f, l[0]), l[1..]) == TakeFields(TakeField(TakeField(f, l[0]), l[1]), l[1..][1..]);
  }

  lemma TakeFour(l: seq<string>)
    requires |l| == 4
    ensures TakeFields(NoFields, l) == Fields(Some(l[0]), Atoi(l[1]), Atoi(l[2]), Atoi(l[3]), 4)
  {
    hide Atoi;
    var f1 := TakeField(NoFields, l[0]);
    var f2 := TakeField(f1, l[1]);
    var f3 := TakeField(f2, l[2]);
    assert l[1..][1..] == l[2..] && l[2..][1..] == l[3..] && l[3..][1..] == [];
    assert TakeFields(NoFields, l) == TakeFields(f1, l[1..]);
    assert TakeFields(f1, l[1..]) == TakeFields(f2, l[2..]);
    assert TakeFields(f2, l[2..]) == TakeFields(f3, l[3..]);
    assert TakeFields(f3, l[3..]) == TakeFields(TakeField(f3, l[3]), []);
  }

  /** Reading a config's text gives the config back up to normalisation. */
  lemma {:induction false} TextRoundTrip(c: Settings)
    requires c.host.Some? && CleanSettings(c)
    ensures FromText(ToText(c).value) == Some(Normal(c))
    ensures ToText(c).value != "" && NoSpace(ToText(c).value)
  {
    hide FormatInt, Atoi, TakeFields, Tokens;
    var half := if c.mirrorPort != -1
                then c.host.value + ":" + FormatInt(c.port) + ":" + FormatInt(c.mirrorPort) + ":" + FormatInt(c.delay)
                else c.host.value + ":" + FormatInt(c.port);
    FirstHalf(c, half);
    if c.host2.Some? {
      var (h2, p2) := (c.host2.value, FormatInt(c.port2));
      NumbersAreClean(c.port2);
      var second := h2 + ":" + p2;
      SecondHalf(half, h2, p2);
      assert Some(half + "/" + second) == ToText(c);
      TwoTokens(half, '/', second);
      TwoTokens(h2, ':', p2);
      TakeTwo(TakeFields(NoFields, Tokens(half, ':')).(pos := 0), [h2, p2]);
    } else {
      assert Some(half) == ToText(c) by {
        assert half + "" == half;
      }
      FirstToken(half, '/', "");
    }
  }

  lemma SecondHalf(half: string, h2: string, p2: string)
    ensures half + "/" + h2 + ":" + p2 == half + "/" + (h2 + ":" + p2)
    ensures half + ("/" + h2 + ":" + p2) == half + "/" + (h2 + ":" + p2)
  {
  }

  // ------------------------------------------------------------ any text, by its fields

  /** What the fields of the first half give. The first two are needed; a fifth starts the
      count again, so that the sixth is the port. */
  function ByFields(l: seq<string>): Option<Settings> {
    match |l|
    case 2 => Some(Settings(Some(l[0]), Atoi(l[1]), -1, 1000, None, 0))
    case 3 => Some(Settings(Some(l[0]), Atoi(l[1]), Atoi(l[2]), 1000, None, 0))
    case 4 => Some(Settings(Some(l[0]), Atoi(l[1]), Atoi(l[2]), Atoi(l[3]), None, 0))
    case 6 => Some(Settings(Some(l[0]), Atoi(l[5]), -1, 1000, None, 0))
    case _ => None
  }

  lemma {:induction false} TakeSnoc(f: Fields, l: seq<string>, last: string)
    ensures TakeFields(f, l + [last]) == TakeField(TakeFields(f, l), last)
    decreases |l|
  {
    hide TakeField;
    if l == [] {
      assert l + [last] == [last] && [last][1..] == [];
    } else {
      assert (l + [last])[0] == l[0] && (l + [last])[1..] == l[1..] + [last];
      TakeSnoc(TakeField(f, l[0]), l[1..], last);
    }
  }

  lemma TakeOneMore(f: Fields, l: seq<string>, k: nat)
    requires k < |l|
    ensures TakeFields(f, l[..k + 1]) == TakeField(TakeFields(f, l[..k]), l[k])
  {
    hide TakeField, TakeFields;
    assert l[..k + 1] == l[..k] + [l[k]];
    TakeSnoc(f, l[..k], l[k]);
  }

  lemma TakeNone(f: Fields, l: seq<string>)
    ensures TakeFields(f, l[..0]) == f
  {
  }

  /** The field loop, field by field. */
  lemma TakeSome(f: Fields, l: seq<string>)
    requires f.pos == 0
    ensures var g := TakeFields(f, l);
            && (|l| == 0 ==> g == f)
            && (|l| == 1 ==> g == f.(host := Some(l[0]), pos := 1))
            && (|l| == 2 ==> g == f.(host := Some(l[0]), port := Atoi(l[1]), pos := 2))
            && (|l| == 3 ==> g == f.(host := Some(l[0]), port := Atoi(l[1]), mirrorPort := Atoi(l[2]), pos := 3))
            && (|l| == 4 ==> g == Fields(Some(l[0]), Atoi(l[1]), Atoi(l[2]), Atoi(l[3]), 4))
            && (|l| == 5 ==> g == Fields(Some(l[0]), Atoi(l[1]), Atoi(l[2]), Atoi(l[3]), 1))
            && (|l| == 6 ==> g == Fields(Some(l[0]), Atoi(l[5]), Atoi(l[2]), Atoi(l[3]), 2))
  {
    hide Atoi, TakeFields;
    TakeNone(f, l);
    assert l[..|l|] == l;
    if |l| > 0 { TakeOneMore(f, l, 0); }
    if |l| > 1 { TakeOneMore(f, l, 1); }
    if |l| > 2 { TakeOneMore(f, l, 2); }
    if |l| > 3 { TakeOneMore(f, l, 3); }
    if |l| > 4 { TakeOneMore(f, l, 4); }
    if |l| > 5 { TakeOneMore(f, l, 5); }
  }

  /** A text without a slash is read by its fields between colons. */
  lemma HalfByFields(s: string)
    requires s != "" && '/' !in s && |Tokens(s, ':')| <= 6
    ensures FromText(s) == ByFields(Tokens(s, ':'))
  {
    hide Atoi, TakeFields, Tokens;
    FirstToken(s, '/', "");
    TakeSome(NoFields, Tokens(s, ':'));
  }

  /** The fields after the slash give the second host and its port, if there are two to
      four of them, to a config that the first half gives. */
  lemma SecondHalfByFields(first: string, second: string)
    requires first != "" && '/' !in first && second != "" && '/' !in second
    requires |Tokens(first, ':')| <= 6 && |Tokens(second, ':')| <= 5
    ensures var l := Tokens(second, ':');
            FromText(first + "/" + second)
            == match ByFields(Tokens(first, ':'))
               case None => None
               case Some(c) => Some(if 2 <= |l| <= 4 then c.(host2 := Some(l[0]), port2 := Atoi(l[1])) else c)
  {
    hide Atoi, TakeFields, Tokens;
    TwoTokens(first, '/', second);
    assert first + "/" + second == first + ['/'] + second;
    var one := TakeFields(NoFields, Tokens(first, ':'));
    TakeSome(NoFields, Tokens(first, ':'));
    TakeSome(one.(pos := 0), Tokens(second, ':'));
  }

  // ---------------------------------------------------------------- the list as text

  /** linphone_tunnel_save_config: the texts of the configs with a host, joined by blanks. */
  function ListText(l: seq<Settings>): Option<string> {
    if l == [] then None
    else
      var (front, last) := (ListText(l[..|l| - 1]), ToText(l[|l| - 1]));
      if last.None? then front
      else if front.None? then last
      else Some(front.value + " " + last.value)
  }

  function Words(s: string): seq<string>
    decreases |s|
  {
    if Word(s) == "" then []
    else
      assert |AfterWord(s)| < |s|;
      [Word(s)] + Words(AfterWord(s))
  }

  /** What a load reads from the words of a text, the unreadable ones left out. */
  function ReadWords(ws: seq<string>): seq<Settings> {
    if ws == [] then []
    else
      var c := FromText(ws[0]);
      (if c.Some? then [c.value] else []) + ReadWords(ws[1..])
  }

  /** The configs with a host, normalised, in order. */
  function Saved(l: seq<Settings>): seq<Settings> {
    if l == [] then []
    else
      var (front, last) := (Saved(l[..|l| - 1]), l[|l| - 1]);
      if last.host.None? then front else front + [Normal(last)]
  }

  predicate AllClean(l: seq<Settings>) {
    forall i :: 0 <= i < |l| ==> CleanSettings(l[i])
  }

  lemma WordsOfOne(w: string)
    requires w != "" && NoSpace(w)
    ensures Words(w) == [w] && Words("") == []
  {
    WordIs("", w, "");
    assert "" + w + "" == w;
    assert Word("") == "";
  }

  /** A word that follows others is the last one. */
  lemma {:induction false} WordsSnoc(s: string, w: string)
    requires w != "" && NoSpace(w)
    ensures Words(s + " " + w) == Words(s) + [w]
    decreases |s|
  {
    hide Word, AfterWord, Blanks;
    if Word(s) == "" {
      AllBlank(s);
      WordIs(s + " ", w, "");
      assert s + " " + w + "" == s + " " + w;
      WordsOfOne(w);
    } else {
      FirstWordStays(s, " " + w);
      Assoc(s, " ", w);
      Assoc(AfterWord(s), " ", w);
      WordsSnoc(AfterWord(s), w);
    }
  }

  lemma FirstWordStays(s: string, more: string)
    requires Word(s) != "" && more != "" && IsSpace(more[0])
    ensures |AfterWord(s)| < |s|
    ensures Word(s + more) == Word(s) && AfterWord(s + more) == AfterWord(s) + more
  {
    hide Word, AfterWord, Blanks;
    SplitWord(s);
    var (b, v, rest) := (s[..Blanks(s)], Word(s), AfterWord(s));
    assert s + more == b + v + (rest + more);
    WordIs(b, v, rest + more);
  }

  lemma AllBlank(s: string)
    requires Word(s) == ""
    ensures forall j :: 0 <= j < |s| ==> IsSpace(s[j])
  {
    var n := Blanks(s);
    assert n < |s| ==> NonBlanks(s[n..]) > 0;
  }

  lemma {:induction false} ReadWordsSnoc(ws: seq<string>, w: string)
    ensures ReadWords(ws + [w])
            == ReadWords(ws) + (match FromText(w) case Some(c) => [c] case None => [])
    decreases |ws|
  {
    hide FromText;
    ReadOneWord(w);
    if ws == [] {
      assert ws + [w] == [w];
    } else {
      var ws' := ws + [w];
      assert ws'[0] == ws[0] && ws'[1..] == ws[1..] + [w];
      ReadWordsSnoc(ws[1..], w);
      Assoc(match FromText(ws[0]) case Some(c) => [c] case None => [], ReadWords(ws[1..]), ReadWords([w]));
    }
  }

  /** Loading a saved list gives the configs that have a host, in order, normalised. */
  lemma {:induction false} ListRoundTrip(l: seq<Settings>)
    requires AllClean(l)
    ensures match ListText(l)
            case None => Saved(l) == []
            case Some(s) => s != "" && ReadWords(Words(s)) == Saved(l)
    decreases |l|
  {
    if l != [] {
      hide FromText, ToText, Words, ReadWords, CleanSettings, Normal;
      var (front, last) := (l[..|l| - 1], l[|l| - 1]);
      ListRoundTrip(front);
      if last.host.Some? {
        TextRoundTrip(last);
        var w := ToText(last).value;
        if ListText(front).None? {
          WordsOfOne(w);
          ReadOneWord(w);
        } else {
          var s := ListText(front).value;
          WordsSnoc(s, w);
          ReadWordsSnoc(Words(s), w);
        }
      }
    }
  }

  lemma ReadOneWord(w: string)
    ensures ReadWords([w]) == match FromText(w) case Some(c) => [c] case None => []
  {
    hide FromText;
    assert [w][1..] == [];
  }

  // ------------------------------------------------------- the manager's own lists

  /** An int as an unsigned one: a negative number wraps. */
  function ToUnsigned(i: int): (n: nat)
    ensures n < TWO_TO_THE_32 && (n - i) % TWO_TO_THE_32 == 0
  {
    i % TWO_TO_THE_32
  }

  function ServersOf(l: seq<Settings>, dual: bool): seq<Server> {
    if l == [] || dual then []
    else
      var (front, c) := (ServersOf(l[..|l| - 1], dual), l[|l| - 1]);
      if c.host.Some? && c.host2.None? then front + [Server(c.host.value, c.port)] else front
  }

  function PairsOf(l: seq<Settings>, dual: bool): seq<ServerPair> {
    if l == [] || !dual then []
    else
      var (front, c) := (PairsOf(l[..|l| - 1], dual), l[|l| - 1]);
      if c.host.Some? && c.host2.Some? then front + [ServerPair(c.host.value, c.port, c.host2.value, c.port2)] else front
  }

  /** A mirror is kept even for a config the dual setting excludes. */
  function MirrorsOf(l: seq<Settings>): seq<Mirror> {
    if l == [] then []
    else
      var (front, c) := (MirrorsOf(l[..|l| - 1]), l[|l| - 1]);
      if c.host.Some? && c.mirrorPort != -1
      then front + [Mirror(c.host.value, c.mirrorPort, ToUnsigned(c.delay))] else front
  }

  /** The manager's lists are the projections of the config list, in order. */
  predicate Agrees(m: Manager, l: seq<Settings>) {
    && m.servers == ServersOf(l, m.dual)
    && m.pairs == PairsOf(l, m.dual)
    && m.mirrors == MirrorsOf(l)
  }

  /** linphone_tunnel_add_server_intern, on the manager's side. */
  function AddToManager(m: Manager, c: Settings): Manager {
    if c.mirrorPort != -1 then
      if c.host2.Some? then
        m.AddPairWithMirror(c.host, c.port, c.host2, c.port2, c.mirrorPort, ToUnsigned(c.delay))
      else m.AddServerWithMirror(c.host, c.port, c.mirrorPort, ToUnsigned(c.delay))
    else if c.host2.Some? then m.AddPair(c.host, c.port, c.host2, c.port2)
    else m.AddServer(c.host, c.port)
  }

  lemma ProjectOneMore(l: seq<Settings>, c: Settings, dual: bool)
    ensures ServersOf(l + [c], dual)
            == ServersOf(l, dual) + if !dual && c.host.Some? && c.host2.None? then [Server(c.host.value, c.port)] else []
    ensures PairsOf(l + [c], dual)
            == PairsOf(l, dual)
               + if dual && c.host.Some? && c.host2.Some?
                 then [ServerPair(c.host.value, c.port, c.host2.value, c.port2)] else []
    ensures MirrorsOf(l + [c])
            == MirrorsOf(l)
               + if c.host.Some? && c.mirrorPort != -1
                 then [Mirror(c.host.value, c.mirrorPort, ToUnsigned(c.delay))] else []
  {
    var l' := l + [c];
    assert l'[..|l'| - 1] == l && l'[|l'| - 1] == c;
  }

  lemma AddAgrees(m: Manager, l: seq<Settings>, c: Settings)
    requires Agrees(m, l)
    ensures Agrees(AddToManager(m, c), l + [c]) && AddToManager(m, c).dual == m.dual
  {
    hide ServersOf, PairsOf, MirrorsOf, ToUnsigned;
    ProjectOneMore(l, c, m.dual);
  }

  lemma CleanAgrees(m: Manager)
    ensures Agrees(m.CleanServers(), []) && m.CleanServers().dual == m.dual
  {
  }

  function AddAll(m: Manager, l: seq<Settings>): Manager {
    if l == [] then m else AddToManager(AddAll(m, l[..|l| - 1]), l[|l| - 1])
  }

  lemma NothingAdded(m: Manager)
    ensures AddAll(m, []) == m
  {
  }

  lemma AddAllSnoc(m: Manager, l: seq<Settings>, c: Settings)
    ensures AddAll(m, l + [c]) == AddToManager(AddAll(m, l), c)
  {
    hide AddToManager;
    assert (l + [c])[..|l|] == l;
  }

  lemma {:induction false} AddAllOnlyAdds(m: Manager, l: seq<Settings>)
    ensures OnlyAdded(m, AddAll(m, l))
  {
    if l != [] {
      hide AddToManager, OnlyAdded;
      var before := AddAll(m, l[..|l| - 1]);
      AddAllOnlyAdds(m, l[..|l| - 1]);
      AddOnlyAdds(before, l[|l| - 1]);
      OnlyAddedTwice(m, before, AddAll(m, l));
    } else {
      assert AddAll(m, l) == m;
    }
  }

  lemma AddOnlyAdds(m: Manager, c: Settings)
    ensures OnlyAdded(m, AddToManager(m, c))
  {
    hide ToUnsigned, OnlyAdded, Manager.AddServer, Manager.AddServerWithMirror, Manager.AddPair, Manager.AddPairWithMirror;
    ServerOnlyAdds(m, c.host, c.port, c.mirrorPort, ToUnsigned(c.delay));
    PairOnlyAdds(m, c.host, c.port, c.host2, c.port2, c.mirrorPort, ToUnsigned(c.delay));
  }

  lemma OnlyAddedTwice(a: Manager, b: Manager, c: Manager)
    requires OnlyAdded(a, b) && OnlyAdded(b, c)
    ensures OnlyAdded(a, c)
  {
  }

  /** Building the manager's lists anew, from whatever configs, keeps the manager's
      invariant exactly when no detection runs: mirrors added after the clean do not
      bring the iterator back from the end of the list. */
  lemma RefreshKeepsInvExactly(m: Manager, l: seq<Settings>)
    requires m.Inv()
    ensures AddAll(m.CleanServers(), l).Inv() <==> !m.detecting
  {
    hide Manager.TaskInv, AddAll;
    m.CleanKeepsInvExactly();
    AddAllOnlyAdds(m.CleanServers(), l);
    AddedKeepsInv(m.CleanServers(), AddAll(m.CleanServers(), l));
  }

  /** Saving and loading does not change what the manager is told. */
  lemma {:induction false} SavedAgrees(l: seq<Settings>, dual: bool)
    ensures ServersOf(Saved(l), dual) == ServersOf(l, dual)
    ensures PairsOf(Saved(l), dual) == PairsOf(l, dual)
    ensures MirrorsOf(Saved(l)) == MirrorsOf(l)
    decreases |l|
  {
    if l != [] {
      var (front, last) := (l[..|l| - 1], l[|l| - 1]);
      SavedAgrees(front, dual);
      if last.host.Some? {
        var saved := Saved(front) + [Normal(last)];
        assert saved[..|saved| - 1] == Saved(front) && saved[|saved| - 1] == Normal(last);
      }
    }
  }
}
