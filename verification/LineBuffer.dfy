/**
 The line parser's work on its buffer: it cuts the line into strings by overwriting
 characters with NULs and blanks. Each method gives what the line grammar says about
 the text the buffer held at first.
 */
module LineBuffer {
  import opened Lists
  import opened CText
  import opened Store
  import opened LineSyntax
  import opened SectionList

  /** The buffer from position p on, without its final NUL; nothing beyond the end. */
  function Rest(buffer: seq<char>, p: nat): string
    requires buffer != []
  {
    if p < |buffer| then buffer[p..|buffer| - 1] else ""
  }

  /** strchr from position p on: an index into the buffer, or -1. */
  function Strchr(buffer: seq<char>, p: nat, c: char): (r: int)
    requires p <= |buffer|
    ensures -1 <= r < |buffer|
    ensures r != -1 ==> p <= r && buffer[r] == c
  {
    var s := CString(buffer[p..]);
    if IndexOf(s, c) < |s| then p + IndexOf(s, c) else -1
  }

  predicate Terminated(buffer: seq<char>) {
    buffer != [] && buffer[|buffer| - 1] == '\0'
  }

  lemma CStringOfRest(buffer: seq<char>, p: nat)
    requires Terminated(buffer) && p < |buffer|
    ensures CString(buffer[p..]) == CString(Rest(buffer, p))
    ensures p + |CString(buffer[p..])| < |buffer|
    ensures buffer[p..] == CString(buffer[p..]) + ['\0'] + buffer[p + |CString(buffer[p..])| + 1..]
  {
    hide CString;
    var t := Rest(buffer, p);
    assert buffer[p..] == t + ['\0'];
    CStringPadded(t);
    var live := buffer[p..];
    assert live[|live| - 1] == '\0';
    CStringSplit(live);
    SliceOfRest(buffer, p, |CString(live)| + 1);
  }

  lemma SliceOfRest(buffer: seq<char>, p: nat, n: nat)
    requires p + n <= |buffer|
    ensures buffer[p..][n..] == buffer[p + n..]
  {
  }

  /** Whether the line starts with c, and where, seen in the buffer. */
  lemma LineStart(buffer: seq<char>, c: char)
    requires Terminated(buffer) && '\0' !in buffer[..|buffer| - 1] && c != ' '
    ensures var (text, p) := (buffer[..|buffer| - 1], Strchr(buffer, 0, c));
            if FirstChar(text, c) then p == Indent(text)
            else p == -1 || exists j :: 0 <= j < p && buffer[j] != ' '
  {
    var text := buffer[..|buffer| - 1];
    assert Rest(buffer, 0) == text;
    StrchrIs(buffer, 0, c);
    var p := IndexOf(text, c);
    var n := Indent(text);
    if FirstChar(text, c) {
      assert text == text[..n] + [c] + text[n + 1..];
      FirstIndex(text[..n], c, text[n + 1..]);
    } else if n < p < |text| {
      assert buffer[n] != ' ';
    }
  }

  lemma WholeLine(buffer: seq<char>)
    requires Terminated(buffer) && '\0' !in buffer[..|buffer| - 1]
    ensures CString(buffer) == buffer[..|buffer| - 1]
  {
    CStringIs(buffer[..|buffer| - 1], []);
    assert buffer == buffer[..|buffer| - 1] + ['\0'] + [];
  }

  /** Where the closing bracket of a header at p is found. */
  lemma FindBracket(buffer: seq<char>, p: nat)
    requires Terminated(buffer) && '\0' !in buffer[..|buffer| - 1]
    requires p < |buffer| - 1 && buffer[p] == '['
    ensures var t := buffer[p + 1..|buffer| - 1];
            Strchr(buffer, p, ']') == if IndexOf(t, ']') < |t| then p + 1 + IndexOf(t, ']') else -1
  {
    hide CString, IndexOf, Strchr;
    var t := buffer[p + 1..|buffer| - 1];
    assert Rest(buffer, p) == ['['] + t;
    StrchrIs(buffer, p, ']');
    SkipBracket(t);
  }

  /** The header's inside, once that bracket is overwritten. */
  lemma ClosedHeader(buffer: seq<char>, p: nat, e: nat)
    requires Terminated(buffer) && '\0' !in buffer[..|buffer| - 1]
    requires p + 1 + e < |buffer| - 1
    ensures Terminated(buffer[p + 1 + e := '\0'])
    ensures CString(buffer[p + 1 + e := '\0'][p + 1..]) == buffer[p + 1..|buffer| - 1][..e]
  {
    hide CString;
    var t := buffer[p + 1..|buffer| - 1];
    CloseAt(buffer, p, e);
    CStringIs(t[..e], t[e + 1..] + ['\0']);
  }

  lemma CloseAt(buffer: seq<char>, p: nat, e: nat)
    requires Terminated(buffer) && p + 1 + e < |buffer| - 1
    ensures buffer[p + 1 + e := '\0'][p + 1..]
            == buffer[p + 1..|buffer| - 1][..e] + ['\0'] + (buffer[p + 1..|buffer| - 1][e + 1..] + ['\0'])
  {
  }

  lemma SkipBracket(t: string)
    ensures IndexOf(['['] + t, ']') == 1 + IndexOf(t, ']')
  {
    assert (['['] + t)[1..] == t;
  }

  lemma HeaderRest(buffer: seq<char>, p: nat, e: nat, n: nat)
    requires buffer != [] && p + 1 + e < |buffer| - 1 && n <= e
    ensures Rest(buffer[p + 1 + e := '\0'], p + 1 + n + 1) == buffer[p + 1..|buffer| - 1][e := '\0'][n + 1..]
  {
  }

  /** is_first_char */
  method IsFirstChar(line: array<char>, pos: nat) returns (r: bool)
    requires pos <= line.Length
    ensures r <==> forall j :: 0 <= j < pos ==> line[j] == ' '
  {
    var p := 0;
    while p < pos
      invariant p <= pos
      invariant forall j :: 0 <= j < p ==> line[j] == ' '
    {
      if line[p] != ' ' {
        return false;
      }
      p := p + 1;
    }
    return true;
  }

  /** Where the `[` of a section header stands, or -1 on any other line. */
  method HeaderStart(line: array<char>) returns (pos1: int)
    requires Terminated(line[..]) && '\0' !in line[..line.Length - 1]
    ensures var text := line[..line.Length - 1];
            if FirstChar(text, '[') then pos1 == Indent(text) < line.Length - 1 && line[pos1] == '[' else pos1 == -1
  {
    hide Strchr, Indent;
    LineStart(line[..], '[');
    pos1 := Strchr(line[..], 0, '[');
    if pos1 != -1 {
      var first := IsFirstChar(line, pos1);
      if !first {
        pos1 := -1;
      }
    }
  }

  /** is_a_comment */
  method IsAComment(line: array<char>) returns (r: bool)
    requires Terminated(line[..])
    ensures r <==> FirstChar(line[..line.Length - 1], '#')
  {
    ghost var text := line[..line.Length - 1];
    var p := 0;
    while line[p] == ' '
      invariant p < line.Length
      invariant forall j :: 0 <= j < p ==> line[j] == ' '
      decreases line.Length - p
    {
      p := p + 1;
    }
    assert Indent(text) == p;
    r := line[p] == '#';
  }

  /** The params of a section header, from position start of the buffer on. */
  method ParseParams(line: array<char>, start: nat, sec: LpSection)
    requires Terminated(line[..]) && start <= line.Length
    modifies line, sec`params
    ensures sec.params == old(sec.params) + ScanParams(Rest(old(line[..]), start))
  {
    hide ScanParams, Word, AfterWord, CString, IndexOf, Rest, Strchr;
    var pos2 := start;
    ghost var buffer := line[..];
    var pos1 := if pos2 < line.Length then Strchr(line[..], pos2, '=') else -1;
    NoMoreParams(buffer, pos2);
    ghost var left := ScanParams(Rest(buffer, pos2));
    while pos1 != -1
      invariant line[..] == buffer && Terminated(buffer)
      invariant pos1 != -1 ==> pos2 < |buffer| && pos1 == Strchr(buffer, pos2, '=')
      invariant pos1 == -1 ==> left == []
      invariant pos1 != -1 ==> left == ScanParams(Rest(buffer, pos2))
      invariant sec.params + left == old(sec.params) + ScanParams(Rest(old(line[..]), start))
      decreases if pos1 == -1 then 0 else line.Length + 1 - pos2
    {
      OneMoreParam(buffer, pos2, pos1);
      line[pos1] := ' ';
      buffer := buffer[pos1 := ' '];
      var live := CString(line[..][pos2..]);
      var key, value := Word(live), Word(AfterWord(live));
      if value != "" {
        left := left[1..];
        sec.params := sec.params + [Param(key, value)];
        pos2 := pos2 + |key| + |value| + 2;
        pos1 := if pos2 < line.Length then Strchr(line[..], pos2, '=') else -1;
        NoMoreParams(buffer, pos2);
      } else {
        pos1 := -1;
      }
    }
  }

  lemma NoMoreParams(buffer: seq<char>, p: nat)
    requires Terminated(buffer) && p <= |buffer|
    ensures p == |buffer| || Strchr(buffer, p, '=') == -1 ==> ScanParams(Rest(buffer, p)) == []
  {
    if p < |buffer| {
      CStringOfRest(buffer, p);
    }
  }

  /** One turn of the scan in the buffer is one turn of `ScanParams`. */
  lemma OneMoreParam(buffer: seq<char>, p: nat, q: nat)
    requires Terminated(buffer) && p < |buffer| && q == Strchr(buffer, p, '=')
    ensures q + 1 < |buffer| && Terminated(buffer[q := ' '])
    ensures var live := CString(buffer[q := ' '][p..]);
            var (key, value) := (Word(live), Word(AfterWord(live)));
            var p' := p + |key| + |value| + 2;
            if value == "" then ScanParams(Rest(buffer, p)) == []
            else p' <= |buffer|
                 && ScanParams(Rest(buffer, p)) == [Param(key, value)] + ScanParams(Rest(buffer[q := ' '], p'))
  {
    hide Word, AfterWord, CString, IndexOf, ScanParams, FirstParam, Rest, Strchr, Turn;
    var t := Rest(buffer, p);
    SpacedBuffer(buffer, p, q);
    var spaced := CString(t)[q - p := ' '];
    assert CString(buffer[q := ' '][p..]) == spaced;
    var (key, value) := (Word(spaced), Word(AfterWord(spaced)));
    FirstParamAt(t, q - p);
    ScanParamsOnce(t);
    assert value != "" ==> |key| + |value| + 1 <= |spaced| by {
      if value != "" {
        TwoWordsFit(spaced);
      }
    }
    TurnInBuffer(buffer, p, q, key, value);
  }

  lemma TurnInBuffer(buffer: seq<char>, p: nat, q: nat, key: string, value: string)
    requires buffer != [] && p <= q < |buffer| - 1
    requires value != "" ==> p + |key| + |value| + 2 <= |buffer|
    ensures |Rest(buffer, p)| > q - p
    ensures Turn(Rest(buffer, p), q - p, key, value)
            == if value == "" then None
               else Some((Param(key, value), Rest(buffer[q := ' '], p + |key| + |value| + 2)))
  {
    var (t, p') := (Rest(buffer, p), p + |key| + |value| + 2);
    if value != "" && p' < |buffer| {
      assert t[q - p := ' '][p' - p..] == buffer[q := ' '][p'..|buffer| - 1];
    }
  }

  lemma ScanParamsOnce(t: string)
    ensures ScanParams(t) == match FirstParam(t)
                             case None => []
                             case Some((param, rest)) => [param] + ScanParams(rest)
  {
    hide FirstParam;
  }

  /** Replacing the `=` of a live string does not change where it ends. */
  lemma SpacedBuffer(buffer: seq<char>, p: nat, q: nat)
    requires Terminated(buffer) && p < |buffer| && q == Strchr(buffer, p, '=')
    ensures p <= q < p + |CString(Rest(buffer, p))| < |buffer|
    ensures q - p == IndexOf(CString(Rest(buffer, p)), '=')
    ensures CString(buffer[q := ' '][p..]) == CString(Rest(buffer, p))[q - p := ' ']
  {
    hide CString, IndexOf;
    CStringOfRest(buffer, p);
    var live := CString(buffer[p..]);
    var post := buffer[p + |live| + 1..];
    var spaced := live[q - p := ' '];
    SplitUpdate(buffer, p, q, live, post);
    assert '\0' !in spaced;
    CStringIs(spaced, post);
  }

  lemma SplitUpdate(buffer: seq<char>, p: nat, q: nat, live: string, post: string)
    requires p <= q < p + |live| <= |buffer| && buffer[p..] == live + ['\0'] + post
    ensures buffer[q := ' '][p..] == live[q - p := ' '] + ['\0'] + post
  {
    assert buffer[q := ' '][p..] == buffer[p..][q - p := ' '];
  }

  /** The key and the value a line assigns; no key when it assigns nothing. */
  method ParseAssignment(line: array<char>) returns (key: string, value: string)
    requires Terminated(line[..]) && '\0' !in line[..line.Length - 1]
    modifies line
    ensures var text := old(line[..line.Length - 1]);
            var q := IndexOf(text, '=');
            if q == |text| then key == ""
            else key == Word(text[..q]) && (key != "" ==> value == TrimEnd(CutEol(text[q + 1..])))
  {
    hide Word, CutEol, TrimEnd, Strchr, CString, IndexOf;
    key, value := "", "";
    ghost var text := line[..line.Length - 1];
    assert Rest(line[..], 0) == text;
    StrchrIs(line[..], 0, '=');
    var pos1 := Strchr(line[..], 0, '=');
    if pos1 != -1 {
      ghost var (buffer, post) := (line[..], text[pos1 + 1..]);
      line[pos1] := '\0';
      assert line[..] == buffer[pos1 := '\0'];
      KeyPart(buffer, pos1);
      key := Word(CString(line[..]));
      if key != "" {
        pos1 := pos1 + 1;
        assert line[pos1..line.Length - 1] == post;
        value := CutValue(line, pos1);
      }
    }
  }

  /** The string a buffer holds once the character at q is overwritten. */
  lemma KeyPart(buffer: seq<char>, q: nat)
    requires Terminated(buffer) && '\0' !in buffer[..|buffer| - 1] && q < |buffer| - 1
    ensures CString(buffer[q := '\0']) == buffer[..|buffer| - 1][..q]
  {
    hide CString;
    var key := buffer[..|buffer| - 1][..q];
    assert buffer[q := '\0'] == key + ['\0'] + buffer[q + 1..];
    CStringIs(key, buffer[q + 1..]);
  }

  lemma StrchrIs(buffer: seq<char>, p: nat, c: char)
    requires Terminated(buffer) && p < |buffer| && '\0' !in Rest(buffer, p)
    ensures CString(buffer[p..]) == Rest(buffer, p)
    ensures Strchr(buffer, p, c)
            == if IndexOf(Rest(buffer, p), c) < |Rest(buffer, p)| then p + IndexOf(Rest(buffer, p), c) else -1
  {
    CStringOfRest(buffer, p);
    CStringIs(Rest(buffer, p), []);
  }

  /** The value from pos1 on: cut at the end of line, without trailing blanks. */
  method CutValue(line: array<char>, pos1: nat) returns (value: string)
    requires Terminated(line[..]) && pos1 < line.Length && '\0' !in line[pos1..line.Length - 1]
    modifies line
    ensures value == TrimEnd(CutEol(old(line[pos1..line.Length - 1])))
  {
    hide CutEol, CString;
    var pos2 := CutAtEol(line, pos1);
    pos2 := TrimBlanks(line, pos1, pos2);
    value := CString(line[..][pos1..]);
    ghost var post := line[pos2 + 1..];
    assert line[..][pos1..] == line[pos1..pos2] + ['\0'] + post;
    CStringIs(line[pos1..pos2], post);
  }

  /** Overwrites trailing blanks with NULs. */
  method TrimBlanks(line: array<char>, pos1: nat, end: nat) returns (pos2: nat)
    requires pos1 <= end < line.Length && line[end] == '\0' && '\0' !in line[pos1..end]
    modifies line
    ensures pos1 <= pos2 < line.Length && line[pos2] == '\0'
    ensures line[pos1..pos2] == TrimEnd(old(line[pos1..end]))
    ensures '\0' !in line[pos1..pos2]
  {
    pos2 := end;
    while pos1 < pos2 && line[pos2 - 1] == ' '
      invariant pos1 <= pos2 <= end && line[pos2] == '\0'
      invariant forall j :: pos1 <= j < pos2 ==> line[j] == old(line[j])
      invariant forall j :: pos2 <= j < end ==> old(line[j]) == ' '
    {
      line[pos2 - 1] := '\0';
      pos2 := pos2 - 1;
    }
    ghost var cut, kept := old(line[pos1..end]), line[pos1..pos2];
    TrimEndIs(kept, cut);
  }

  /** Ends the string at pos1 where its line ends, and returns that position. */
  method CutAtEol(line: array<char>, pos1: nat) returns (pos2: nat)
    requires Terminated(line[..]) && pos1 < line.Length && '\0' !in line[pos1..line.Length - 1]
    modifies line
    ensures pos1 <= pos2 < line.Length && line[pos2] == '\0'
    ensures line[pos1..pos2] == CutEol(old(line[pos1..line.Length - 1]))
    ensures '\0' !in line[pos1..pos2]
  {
    hide CString, IndexOf, CutEol;
    ghost var buffer, text := line[..], line[pos1..line.Length - 1];
    var p := FindEol(line, pos1);
    if p == -1 {
      pos2 := pos1 + |CString(line[..][pos1..])|;
    } else {
      pos2 := p;
      line[pos2] := '\0';
    }
    assert forall j :: pos1 <= j < pos2 ==> line[j] == buffer[j] == text[j - pos1];
  }

  /** The carriage return or else the newline that ends the text at pos1, or -1. */
  method FindEol(line: array<char>, pos1: nat) returns (p: int)
    requires Terminated(line[..]) && pos1 < line.Length && '\0' !in line[pos1..line.Length - 1]
    ensures p == -1 || pos1 <= p < line.Length - 1
    ensures var text := line[pos1..line.Length - 1];
            && CString(line[..][pos1..]) == text
            && CutEol(text) == if p == -1 then text else text[..p - pos1]
  {
    hide CString;
    ghost var buffer, text := line[..], line[pos1..line.Length - 1];
    assert Rest(buffer, pos1) == text;
    StrchrIs(buffer, pos1, '\r');
    StrchrIs(buffer, pos1, '\n');
    p := Strchr(line[..], pos1, '\r');
    if p == -1 {
      p := Strchr(line[..], pos1, '\n');
    }
    assert text[..|text|] == text;
  }
}
