/**
 The line grammar of configuration files: what one line means, what reading it
 does to the store, and what a whole text therefore stores. Lines hold no NUL.
 */
module LineSyntax {
  import opened Lists
  import opened CText
  import opened Store

  datatype Line =
    | Header(name: string, params: seq<Param>)
    | Remark(text: string)
    | Assign(key: string, value: string)
    | Nothing

  /** Only the blank itself counts as indentation, not every white space. */
  function Indent(s: string): (n: nat)
    ensures n <= |s|
    ensures forall j :: 0 <= j < n ==> s[j] == ' '
    ensures n < |s| ==> s[n] != ' '
  {
    if s == "" || s[0] != ' ' then 0 else 1 + Indent(s[1..])
  }

  predicate FirstChar(s: string, c: char) {
    Indent(s) < |s| && s[Indent(s)] == c
  }

  /** Cuts at the first carriage return or, when there is none, at the first newline. */
  function CutEol(s: string): (r: string)
    ensures r <= s
  {
    if '\r' in s then s[..IndexOf(s, '\r')] else s[..IndexOf(s, '\n')]
  }

  function TrimEnd(s: string): (r: string)
    ensures r <= s
    ensures r != "" ==> r[|r| - 1] != ' '
    ensures forall j :: |r| <= j < |s| ==> s[j] == ' '
  {
    if s != "" && s[|s| - 1] == ' ' then TrimEnd(s[..|s| - 1]) else s
  }

  /** What one line means. */
  function Classify(line: string): Line {
    if FirstChar(line, '[') then ClassifyHeader(line[Indent(line) + 1..])
    else if FirstChar(line, '#') then Remark(CutEol(line))
    else
      var q := IndexOf(line, '=');
      if q == |line| then Nothing
      else
        var key := Word(line[..q]);
        var value := TrimEnd(CutEol(line[q + 1..]));
        if key == "" || value == "" then Nothing else Assign(key, value)
  }

  /** The three kinds of line, as the parser tells them apart. */
  lemma ClassifyCases(line: string)
    ensures FirstChar(line, '[') ==> Classify(line) == ClassifyHeader(line[Indent(line) + 1..])
    ensures !FirstChar(line, '[') && FirstChar(line, '#') ==> Classify(line) == Remark(CutEol(line))
    ensures !FirstChar(line, '[') && !FirstChar(line, '#') ==>
              var q := IndexOf(line, '=');
              if q == |line| then Classify(line) == Nothing
              else
                var (key, value) := (Word(line[..q]), TrimEnd(CutEol(line[q + 1..])));
                Classify(line) == if key == "" || value == "" then Nothing else Assign(key, value)
  {
    hide Indent, Word, IndexOf, TrimEnd, CutEol, ClassifyHeader;
  }

  /** The text after `[`. The closing bracket is overwritten with a NUL, but the
      scan for params can step over it into the rest of the line. */
  function ClassifyHeader(t: string): Line {
    var e := IndexOf(t, ']');
    if e == |t| then Nothing
    else
      var name := Word(t[..e]);
      if name == "" then Nothing
      else Header(name, if e > |name| then ScanParams(t[e := '\0'][|name| + 1..]) else [])
  }

  lemma HeaderCases(t: string, e: nat, name: string, params: seq<Param>)
    requires e == IndexOf(t, ']') < |t| ==>
      name == Word(t[..e]) && |name| <= e
      && params == if e > |name| then ScanParams(t[e := '\0'][|name| + 1..]) else []
    ensures IndexOf(t, ']') == |t| ==> ClassifyHeader(t) == Nothing
    ensures e == IndexOf(t, ']') < |t| ==>
      ClassifyHeader(t) == if name == "" then Nothing else Header(name, params)
  {
    hide IndexOf, Word, ScanParams;
  }

  /** The pair of two words read from the buffer t whose first `=` stands at q, and the
      buffer from where the scan goes on: past two words and two separators, wherever
      those were. */
  function Turn(t: string, q: nat, key: string, value: string): (r: Option<(Param, string)>)
    requires q < |t|
    ensures r.Some? ==> |r.value.1| < |t|
  {
    var used := |key| + |value| + 2;
    if value == "" then None
    else Some((Param(key, value), if used <= |t| then t[q := ' '][used..] else ""))
  }

  /** The first `key=value` pair in the buffer t, and the rest of the buffer. */
  function FirstParam(t: string): (r: Option<(Param, string)>)
    ensures r.Some? ==> |r.value.1| < |t|
  {
    var live := CString(t);
    var q := IndexOf(live, '=');
    if q == |live| then None
    else
      var spaced := live[q := ' '];
      Turn(t, q, Word(spaced), Word(AfterWord(spaced)))
  }

  /** `FirstParam` when the first `=` stands at q. */
  lemma FirstParamAt(t: string, q: nat)
    requires q == IndexOf(CString(t), '=') < |CString(t)|
    ensures var spaced := CString(t)[q := ' '];
            FirstParam(t) == Turn(t, q, Word(spaced), Word(AfterWord(spaced)))
  {
    hide Word, AfterWord, IndexOf, Turn;
  }

  function ScanParams(t: string): seq<Param>
    decreases |t|
  {
    match FirstParam(t)
    case None => []
    case Some((param, rest)) => [param] + ScanParams(rest)
  }

  lemma {:induction false} TrimEndIs(kept: string, s: string)
    requires kept <= s && (forall j :: |kept| <= j < |s| ==> s[j] == ' ')
    requires kept == "" || kept[|kept| - 1] != ' '
    ensures TrimEnd(s) == kept
  {
    if |s| == |kept| {
      assert s == kept;
    } else {
      TrimEndIs(kept, s[..|s| - 1]);
    }
  }

  // ------------------------------------------------------- the lines, part by part

  predicate AllSpace(s: string) {
    forall j :: 0 <= j < |s| ==> IsSpace(s[j])
  }

  predicate AllBlank(s: string) {
    forall j :: 0 <= j < |s| ==> s[j] == ' '
  }

  /** What may follow the text of a line: nothing, a carriage return and anything, or a
      newline and anything without a carriage return. */
  predicate IsEol(eol: string) {
    eol == "" || eol[0] == '\r' || (eol[0] == '\n' && '\r' !in eol)
  }

  lemma CutEolIs(text: string, eol: string)
    requires '\r' !in text && '\n' !in text && IsEol(eol)
    ensures CutEol(text + eol) == text
  {
    hide IndexOf;
    var s := text + eol;
    if eol == "" {
      FirstIndex(text, '\n', "");
      assert s == text && s[..|text|] == text;
    } else {
      var c := eol[0];
      FirstIndex(text, c, eol[1..]);
      assert s == text + [c] + eol[1..];
      assert c == '\r' ==> s[|text|] == '\r';
      assert s[..|text|] == text;
    }
  }

  lemma {:induction false} IndentIs(blanks: string, rest: string)
    requires AllBlank(blanks) && (rest == "" || rest[0] != ' ')
    ensures Indent(blanks + rest) == |blanks|
  {
    if blanks == "" {
      assert blanks + rest == rest;
    } else {
      IndentIs(blanks[1..], rest);
      assert (blanks + rest)[1..] == blanks[1..] + rest;
    }
  }

  /** White space may stand before the key, and white space and more words between it and
      the first `=`; only blanks go at the end of the value. */
  lemma EntryLine(lead: string, key: string, mid: string, value: string, blanks: string, eol: string)
    requires AllSpace(lead) && key != "" && NoSpace(key) && '=' !in key
    requires AllBlank(lead) ==> key[0] != '#' && key[0] != '['
    requires (mid == "" || IsSpace(mid[0])) && '=' !in mid
    requires '\r' !in value && '\n' !in value && (value == "" || value[|value| - 1] != ' ')
    requires AllBlank(blanks) && IsEol(eol)
    ensures Classify(lead + key + mid + "=" + value + blanks + eol)
            == if value == "" then Nothing else Assign(key, value)
  {
    hide *;
    var (pre, post) := (lead + key + mid, value + blanks + eol);
    var line := pre + "=" + post;
    assert line == lead + key + mid + "=" + value + blanks + eol;
    assert line == lead + key + (mid + "=" + post);
    KeyPart(lead, key, mid, post);
    ValuePart(value, blanks, eol);
    FirstCharOfEntry(lead, key, mid + "=" + post);
    ClassifyCases(line);
  }

  lemma KeyPart(lead: string, key: string, mid: string, post: string)
    requires AllSpace(lead) && key != "" && NoSpace(key) && '=' !in key
    requires (mid == "" || IsSpace(mid[0])) && '=' !in mid
    ensures var (pre, line) := (lead + key + mid, lead + key + mid + "=" + post);
            && IndexOf(line, '=') == |pre| < |line|
            && Word(line[..|pre|]) == key && line[|pre| + 1..] == post
  {
    hide Word, IndexOf;
    var pre := lead + key + mid;
    var line := pre + "=" + post;
    assert line == pre + ['='] + post;
    assert '=' !in lead by {
      assert forall j :: 0 <= j < |lead| ==> lead[j] != '=';
    }
    FirstIndex(pre, '=', post);
    WordIs(lead, key, mid);
    assert line[..|pre|] == pre && line[|pre| + 1..] == post;
  }

  lemma ValuePart(value: string, blanks: string, eol: string)
    requires '\r' !in value && '\n' !in value && (value == "" || value[|value| - 1] != ' ')
    requires AllBlank(blanks) && IsEol(eol)
    ensures TrimEnd(CutEol(value + blanks + eol)) == value
  {
    hide CutEol, TrimEnd;
    assert '\r' !in value + blanks && '\n' !in value + blanks;
    CutEolIs(value + blanks, eol);
    TrimEndIs(value, value + blanks);
  }

  lemma FirstCharOfEntry(lead: string, key: string, rest: string)
    requires AllSpace(lead) && key != "" && NoSpace(key)
    requires AllBlank(lead) ==> key[0] != '#' && key[0] != '['
    ensures var line := lead + key + rest; !FirstChar(line, '[') && !FirstChar(line, '#')
  {
    var line := lead + key + rest;
    var n := Indent(line);
    assert forall j :: 0 <= j < |lead| ==> line[j] == lead[j];
    assert line[|lead|] == key[0] && !IsSpace(key[0]);
    assert n <= |lead|;
    if n == |lead| {
      assert forall j :: 0 <= j < |lead| ==> lead[j] == line[j] == ' ';
    }
  }

  /** A line without `=`, or with nothing but white space before it, means nothing. */
  lemma NoEntryLine(line: string, lead: string, rest: string)
    requires AllSpace(lead)
    ensures '=' !in line && !FirstChar(line, '[') && !FirstChar(line, '#') ==> Classify(line) == Nothing
    ensures Classify(lead + "=" + rest) == Nothing
  {
    hide CutEol, TrimEnd, ClassifyHeader, Indent, IndexOf;
    if '=' !in line {
      FirstIndex(line, '=', "");
      ClassifyCases(line);
    }
    var other := lead + "=" + rest;
    assert other == lead + ['='] + rest;
    assert forall j :: 0 <= j < |lead| ==> lead[j] != '=';
    FirstIndex(lead, '=', rest);
    assert other[..|lead|] == lead;
    assert Word(lead) == "" by {
      BlanksOf(lead, "");
      assert lead + "" == lead;
    }
    assert !FirstChar(other, '[') && !FirstChar(other, '#') by {
      FirstCharOfBlank(lead, rest);
    }
    ClassifyCases(other);
  }

  lemma FirstCharOfBlank(lead: string, rest: string)
    requires AllSpace(lead)
    ensures !FirstChar(lead + "=" + rest, '[') && !FirstChar(lead + "=" + rest, '#')
  {
    var line := lead + "=" + rest;
    assert forall j :: 0 <= j < |lead| ==> line[j] == lead[j];
    assert line[|lead|] == '=';
    assert Indent(line) <= |lead|;
  }

  /** A comment is kept with its indentation, up to the end of the line. */
  lemma CommentLine(blanks: string, text: string, eol: string)
    requires AllBlank(blanks) && '\r' !in text && '\n' !in text && IsEol(eol)
    ensures Classify(blanks + "#" + text + eol) == Remark(blanks + "#" + text)
  {
    hide Indent, CutEol, ClassifyHeader;
    var line := blanks + "#" + text + eol;
    assert line == blanks + ("#" + text + eol);
    IndentIs(blanks, "#" + text + eol);
    assert line[|blanks|] == '#';
    CutEolIs(blanks + "#" + text, eol);
    ClassifyCases(line);
  }

  /** A header may be indented and have white space before its name; what follows the
      name up to the bracket is for params only; without a bracket or a name it is none. */
  lemma HeaderLine(blanks: string, lead: string, name: string, rest: string, post: string)
    requires AllBlank(blanks) && AllSpace(lead) && NoSpace(name) && ']' !in name
    requires (rest == "" || IsSpace(rest[0])) && ']' !in rest && (name == "" ==> rest == "")
    ensures var line := Classify(blanks + "[" + lead + name + rest + "]" + post);
            if name == "" then line == Nothing
            else line.Header? && line.name == name && (lead == "" && rest == "" ==> line.params == [])
    ensures Classify(blanks + "[" + lead + name + rest) == Nothing
  {
    hide *;
    var inner := lead + name + rest;
    var t := inner + "]" + post;
    HeaderStarts(blanks, t);
    HeaderStarts(blanks, inner);
    FiveParts(blanks, lead, name, rest, post);
    HeaderName(lead, name, rest, post);
    HeaderOf(t);
    NoBracket(inner);
  }

  lemma FiveParts(blanks: string, lead: string, name: string, rest: string, post: string)
    ensures blanks + "[" + (lead + name + rest + "]" + post) == blanks + "[" + lead + name + rest + "]" + post
    ensures blanks + "[" + (lead + name + rest) == blanks + "[" + lead + name + rest
  {
  }

  lemma HeaderName(lead: string, name: string, rest: string, post: string)
    requires AllSpace(lead) && NoSpace(name) && ']' !in name
    requires (rest == "" || IsSpace(rest[0])) && ']' !in rest && (name == "" ==> rest == "")
    ensures var (inner, t) := (lead + name + rest, lead + name + rest + "]" + post);
            && ']' !in inner && ']' in t
            && IndexOf(t, ']') == |inner| && t[..|inner|] == inner && Word(inner) == name
            && (lead == "" && rest == "" ==> Inner(t).None?)
  {
    hide Word, IndexOf;
    var inner := lead + name + rest;
    var t := inner + "]" + post;
    assert ']' !in lead by {
      assert forall j :: 0 <= j < |lead| ==> lead[j] != ']';
    }
    FirstIndex(inner, ']', post);
    assert t == inner + [']'] + post && t[..|inner|] == inner && t[|inner|] == ']';
    if name == "" {
      assert inner == lead;
      OnlySpace(lead);
    } else {
      WordIs(lead, name, rest);
    }
  }

  lemma OnlySpace(s: string)
    requires AllSpace(s)
    ensures Word(s) == ""
  {
    BlanksOf(s, "");
    assert s + "" == s;
  }

  lemma NoBracket(t: string)
    requires ']' !in t
    ensures ClassifyHeader(t) == Nothing
  {
    FirstIndex(t, ']', "");
  }

  lemma HeaderStarts(blanks: string, t: string)
    requires AllBlank(blanks)
    ensures Classify(blanks + "[" + t) == ClassifyHeader(t)
  {
    hide Indent, ClassifyHeader;
    var line := blanks + "[" + t;
    assert line == blanks + ("[" + t);
    IndentIs(blanks, "[" + t);
    assert line[|blanks|] == '[' && line[|blanks| + 1..] == t;
    ClassifyCases(line);
  }

  // -------------------------------------------- params beyond the closing bracket

  /** The last pair read inside the bracket ends right at it: the scan, which skips a
      blank after each pair, then skips the NUL in the bracket's place. */
  predicate EndsAtBracket(inner: string)
    decreases |inner|
  {
    match FirstParam(inner + "\0")
    case None => false
    case Some((_, rest)) => rest == "" || EndsAtBracket(rest[..|rest| - 1])
  }

  /** Two words and the blank between them fit in the text they are read from. */
  lemma TwoWordsFit(s: string)
    requires Word(AfterWord(s)) != ""
    ensures |Word(s)| + |Word(AfterWord(s))| + 1 <= |s|
  {
    SplitWord(s);
    assert !IsSpace(Word(AfterWord(s))[0]);
    var rest := AfterWord(s);
    assert Blanks(rest) > 0 by {
      SplitWord(rest);
    }
  }

  lemma TextToNul(inner: string, post: string)
    requires '\0' !in inner
    ensures CString(inner + "\0" + post) == inner
  {
    CStringIs(inner, post);
    assert inner + "\0" + post == inner + ['\0'] + post;
  }

  lemma TurnThen(inner: string, post: string, q: nat, key: string, value: string)
    requires q < |inner| && '\0' !in inner
    requires value != "" ==> |key| + |value| + 1 <= |inner|
    ensures match Turn(inner + "\0", q, key, value)
            case None => Turn(inner + "\0" + post, q, key, value) == None
            case Some((param, rest)) =>
              && Turn(inner + "\0" + post, q, key, value) == Some((param, rest + post))
              && (rest != "" ==> '\0' !in rest[..|rest| - 1] && rest == rest[..|rest| - 1] + "\0")
  {
    var (spaced, used) := (inner[q := ' '], |key| + |value| + 2);
    assert (inner + "\0" + post)[q := ' '] == spaced + "\0" + post;
    assert (inner + "\0")[q := ' '] == spaced + "\0";
    if value != "" {
      if used <= |inner| {
        assert (spaced + "\0" + post)[used..] == spaced[used..] + "\0" + post;
        assert (spaced + "\0")[used..] == spaced[used..] + "\0";
      } else {
        assert (spaced + "\0" + post)[used..] == "" + post;
      }
    }
  }

  /** One turn on a buffer that goes on after the NUL leaves what follows it untouched. */
  lemma FirstParamOf(inner: string, post: string)
    requires '\0' !in inner
    ensures match FirstParam(inner + "\0")
            case None => FirstParam(inner + "\0" + post) == None
            case Some((param, rest)) =>
              && FirstParam(inner + "\0" + post) == Some((param, rest + post))
              && (rest != "" ==> '\0' !in rest[..|rest| - 1] && rest == rest[..|rest| - 1] + "\0")
  {
    hide Word, AfterWord, IndexOf, CString, FirstParam, Turn;
    TextToNul(inner, post);
    TextToNul(inner, "");
    assert inner + "\0" + "" == inner + "\0";
    var q := IndexOf(inner, '=');
    if q == |inner| {
      NoParam(inner + "\0" + post);
      NoParam(inner + "\0");
    } else {
      FirstParamAt(inner + "\0" + post, q);
      FirstParamAt(inner + "\0", q);
      var spaced := inner[q := ' '];
      if Word(AfterWord(spaced)) != "" {
        TwoWordsFit(spaced);
      }
      TurnThen(inner, post, q, Word(spaced), Word(AfterWord(spaced)));
    }
  }

  lemma NoParam(t: string)
    requires IndexOf(CString(t), '=') == |CString(t)|
    ensures FirstParam(t) == None
  {
  }

  /** The scan up to the bracket, and beyond it exactly when the last pair ends there. */
  lemma {:induction false} ScanBeyondBracket(inner: string, post: string)
    requires '\0' !in inner
    ensures ScanParams(inner + "\0" + post)
            == ScanParams(inner + "\0") + (if EndsAtBracket(inner) then ScanParams(post) else [])
    decreases |inner|
  {
    hide FirstParam;
    FirstParamOf(inner, post);
    match FirstParam(inner + "\0")
    case None =>
    case Some((param, rest)) =>
      FirstParamOfNothing();
      var beyond := if EndsAtBracket(inner) then ScanParams(post) else [];
      assert ScanParams(rest + post) == ScanParams(rest) + beyond by {
        if rest == "" {
          assert rest + post == post;
        } else {
          ScanBeyondBracket(rest[..|rest| - 1], post);
        }
      }
      Assoc([param], ScanParams(rest), beyond);
  }

  lemma FirstParamOfNothing()
    ensures FirstParam("") == None
  {
  }

  /** The text between the name and the bracket, if there is any. */
  function Inner(t: string): Option<string>
    requires ']' in t
  {
    var e := IndexOf(t, ']');
    var name := Word(t[..e]);
    if name != "" && |name| < e then Some(t[|name| + 1..e]) else None
  }

  lemma HeaderOf(t: string)
    requires ']' in t
    ensures var (e, name) := (IndexOf(t, ']'), Word(t[..IndexOf(t, ']')]));
            && e < |t|
            && ClassifyHeader(t)
               == if name == "" then Nothing
                  else Header(name, if Inner(t).Some? then ScanParams(Inner(t).value + "\0" + t[e + 1..]) else [])
  {
    hide Word, ScanParams, ClassifyHeader, IndexOf;
    var e := IndexOf(t, ']');
    assert e < |t|;
    var name := Word(t[..e]);
    HeaderCases(t, e, name, if e > |name| then ScanParams(t[e := '\0'][|name| + 1..]) else []);
    if name != "" && |name| < e {
      assert t[e := '\0'][|name| + 1..] == t[|name| + 1..e] + "\0" + t[e + 1..];
    }
  }

  /** A header keeps to the params inside its bracket, whatever follows it on the line,
      exactly when no pair ends at the bracket or no pair stands after it. */
  lemma HeaderKeepsToItsBracket(t: string)
    requires ']' in t && '\0' !in t
    ensures var e := IndexOf(t, ']');
            ClassifyHeader(t) == ClassifyHeader(t[..e + 1])
            <==> Inner(t).None? || !EndsAtBracket(Inner(t).value) || FirstParam(t[e + 1..]).None?
  {
    hide Word, FirstParam, EndsAtBracket, ScanParams, ClassifyHeader, IndexOf;
    hide Inner;
    var e := IndexOf(t, ']');
    HeaderOf(t);
    CutAfterBracket(t, e);
    HeaderOf(t[..e + 1]);
    if Inner(t).Some? {
      InnerIsText(t);
      ScanBeyondBracket(Inner(t).value, t[e + 1..]);
      ScansNothing(t[e + 1..]);
    }
  }

  lemma InnerIsText(t: string)
    requires ']' in t && '\0' !in t && Inner(t).Some?
    ensures '\0' !in Inner(t).value && Inner(t).value + "\0" + "" == Inner(t).value + "\0"
    ensures Word(t[..IndexOf(t, ']')]) != ""
  {
    hide Word, IndexOf;
  }

  lemma CutAfterBracket(t: string, e: nat)
    requires ']' in t && e == IndexOf(t, ']')
    ensures e < |t|
    ensures var cut := t[..e + 1];
            && ']' in cut && IndexOf(cut, ']') == e && cut[..e] == t[..e] && cut[e + 1..] == ""
            && Inner(cut) == Inner(t)
  {
    hide Word, IndexOf;
    assert e < |t|;
    var cut := t[..e + 1];
    assert cut == t[..e] + [']'] + "";
    FirstIndex(t[..e], ']', "");
    assert cut[..e] == t[..e];
    assert forall i {:trigger cut[i..e]} :: 0 <= i <= e ==> cut[i..e] == t[i..e];
  }

  /** A turn of the scan uses one character more than the text t has left. */
  predicate LooksBeyond(t: string)
    decreases |t|
  {
    match FirstParam(t)
    case None => false
    case Some((param, rest)) => |param.key| + |param.value| + 2 > |t| || LooksBeyond(rest)
  }

  /** One turn on a text without and with a NUL at its end. */
  lemma FirstParamAtEnd(t: string)
    requires '\0' !in t
    ensures match FirstParam(t + "\0")
            case None => FirstParam(t) == None
            case Some((param, rest)) =>
              && FirstParam(t) == Some((param, if rest == "" then "" else rest[..|rest| - 1]))
              && (rest == "" <==> |param.key| + |param.value| + 2 > |t|)
              && |param.key| + |param.value| + 2 <= |t| + 1
  {
    hide Word, AfterWord, IndexOf, CString, FirstParam, Turn;
    TextToNul(t, "");
    assert t + "\0" + "" == t + "\0";
    CStringIs(t, "");
    var q := IndexOf(t, '=');
    if q == |t| {
      NoParam(t);
      NoParam(t + "\0");
    } else {
      FirstParamAt(t, q);
      FirstParamAt(t + "\0", q);
      var spaced := t[q := ' '];
      if Word(AfterWord(spaced)) != "" {
        TwoWordsFit(spaced);
      }
      TurnAtEnd(t, q, Word(spaced), Word(AfterWord(spaced)));
    }
  }

  lemma TurnAtEnd(t: string, q: nat, key: string, value: string)
    requires q < |t| && (value != "" ==> |key| + |value| + 1 <= |t|)
    ensures match Turn(t + "\0", q, key, value)
            case None => Turn(t, q, key, value) == None
            case Some((param, rest)) =>
              && Turn(t, q, key, value) == Some((param, if rest == "" then "" else rest[..|rest| - 1]))
              && param == Param(key, value)
              && (rest == "" <==> |key| + |value| + 2 > |t|) && |key| + |value| + 2 <= |t| + 1
  {
    var used := |key| + |value| + 2;
    assert (t + "\0")[q := ' '] == t[q := ' '] + "\0";
    if value != "" && used <= |t| {
      var rest := (t[q := ' '] + "\0")[used..];
      assert rest[..|rest| - 1] == t[q := ' '][used..];
    }
  }

  lemma {:induction false} LooksBeyondText(t: string)
    requires '\0' !in t
    ensures LooksBeyond(t) <==> EndsAtBracket(t)
    decreases |t|
  {
    hide FirstParam;
    FirstParamAtEnd(t);
    FirstParamOf(t, "");
    match FirstParam(t + "\0")
    case None =>
    case Some((param, rest)) =>
      if rest != "" {
        LooksBeyondText(rest[..|rest| - 1]);
      }
  }

  /** The scan of a header looks beyond the end of its line, at what the memory happens to
      hold there, exactly when a pair ends at the bracket and another ends the line. */
  lemma {:induction false} LooksBeyondLine(inner: string, post: string)
    requires '\0' !in inner && '\0' !in post
    ensures LooksBeyond(inner + "\0" + post) <==> EndsAtBracket(inner) && EndsAtBracket(post)
    decreases |inner|
  {
    hide FirstParam;
    FirstParamAtEnd(inner);
    FirstParamOf(inner, post);
    match FirstParam(inner + "\0")
    case None =>
    case Some((param, rest)) =>
      if rest == "" {
        assert rest + post == post;
        LooksBeyondText(post);
      } else {
        LooksBeyondLine(rest[..|rest| - 1], post);
      }
  }

  lemma ScansNothing(t: string)
    ensures ScanParams(t) == [] <==> FirstParam(t).None?
  {
  }

  // ------------------------------------------------------------------ a whole text

  /** The parser between two lines: the store, and the section being filled. */
  datatype Parse = Parse(st: Sections, cur: Option<string>) {
    predicate Valid() {
      Wf(st) && (cur.Some? ==> HasSection(st, cur.value))
    }
  }

  function Apply(p: Parse, line: Line): Parse {
    match line
    case Header(name, params) => Parse(OpenSection(p.st, name, params), Some(name))
    case Remark(text) => if p.cur.Some? then p.(st := PutCommentIn(p.st, p.cur.value, text)) else p
    case Assign(key, value) => if p.cur.Some? then p.(st := Set(p.st, p.cur.value, key, value)) else p
    case Nothing => p
  }

  function Run(p: Parse, lines: seq<Line>): Parse
    decreases |lines|
  {
    if lines == [] then p else Run(Apply(p, lines[0]), lines[1..])
  }

  function Meaning(lines: seq<string>): (ls: seq<Line>)
    ensures |ls| == |lines|
  {
    if lines == [] then [] else [Classify(lines[0])] + Meaning(lines[1..])
  }

  /** linphone_config_parse: a file read on top of a store. */
  function ParseText(st: Sections, text: string): Sections {
    Run(Parse(st, None), Meaning(Lines(text))).st
  }

  /** _linphone_config_init_from_buffer: the lines of a buffer, as strtok cuts them. */
  function ParseBuffer(text: string): Sections {
    Run(Parse([], None), Meaning(Tokens(text, '\n'))).st
  }

  /** Files read one on top of the other, such as user file then factory file. */
  function ParseTexts(st: Sections, texts: seq<string>): Sections
    decreases |texts|
  {
    if texts == [] then st else ParseTexts(ParseText(st, texts[0]), texts[1..])
  }

  /** No line gives an entry an empty value, or a section an empty name. */
  predicate Proper(lines: seq<Line>) {
    forall i :: 0 <= i < |lines| ==>
      match lines[i]
      case Header(name, _) => name != ""
      case Assign(key, value) => key != "" && value != ""
      case _ => true
  }

  lemma {:induction false} MeaningIsProper(lines: seq<string>)
    ensures Proper(Meaning(lines))
  {
    if lines != [] {
      ClassifyIsProper(lines[0]);
      MeaningIsProper(lines[1..]);
      var line := Classify(lines[0]);
      assert [line][0] == line;
    }
  }

  lemma ClassifyIsProper(line: string)
    ensures Proper([Classify(line)])
  {
  }

  /** One line: what it does to any lookup, and that the store stays well formed. */
  lemma AfterLine(p: Parse, line: Line, name: string, key: string)
    requires p.Valid() && Proper([line])
    ensures Apply(p, line).Valid()
    ensures Get(Apply(p, line).st, name, key)
            == if line.Assign? && line.key == key && p.cur == Some(name) then Some(line.value)
               else Get(p.st, name, key)
    ensures HasSection(Apply(p, line).st, name)
            <==> HasSection(p.st, name) || (line.Header? && line.name == name)
  {
    assert Proper([line]) && [line][0] == line;
    match line
    case Header(n, params) =>
      AfterOpenSection(p.st, n, params, name, key);
      AfterOpenSection(p.st, n, params, n, key);
    case Remark(text) =>
      if p.cur.Some? {
        AfterPutCommentIn(p.st, p.cur.value, text, name, key);
        AfterPutCommentIn(p.st, p.cur.value, text, p.cur.value, key);
      }
    case Assign(k, v) =>
      if p.cur.Some? {
        AfterSet(p.st, p.cur.value, k, v, name, key);
        AfterSet(p.st, p.cur.value, k, v, p.cur.value, key);
      }
    case Nothing =>
  }

  /** The store stays well formed across any lines whatever. */
  lemma {:induction false} RunKeepsValid(p: Parse, lines: seq<Line>)
    requires p.Valid() && Proper(lines)
    ensures Run(p, lines).Valid()
    decreases |lines|
  {
    if lines != [] {
      assert Proper([lines[0]]);
      AfterLine(p, lines[0], "", "");
      RunKeepsValid(Apply(p, lines[0]), lines[1..]);
    }
  }

  lemma ParseKeepsWf(st: Sections, text: string)
    requires Wf(st)
    ensures Wf(ParseText(st, text))
  {
    MeaningIsProper(Lines(text));
    RunKeepsValid(Parse(st, None), Meaning(Lines(text)));
  }

  lemma {:induction false} RunConcat(p: Parse, front: seq<Line>, back: seq<Line>)
    ensures Run(p, front + back) == Run(Run(p, front), back)
    decreases |front|
  {
    if front == [] {
      assert front + back == back;
    } else {
      assert (front + back)[0] == front[0] && (front + back)[1..] == front[1..] + back;
      RunConcat(Apply(p, front[0]), front[1..], back);
    }
  }

  // ---------------------------------------------------------------- last writer wins

  /** The section a line is filed under: the last header above it. */
  function Heading(cur: Option<string>, lines: seq<Line>): Option<string> {
    if lines == [] then cur
    else
      var last := |lines| - 1;
      if lines[last].Header? then Some(lines[last].name) else Heading(cur, lines[..last])
  }

  /** Searching backwards, the first line that gives key of section name a value. */
  function LastWrite(cur: Option<string>, lines: seq<Line>, name: string, key: string): Option<string> {
    if lines == [] then None
    else
      var front, line := lines[..|lines| - 1], lines[|lines| - 1];
      if line.Assign? && line.key == key && Heading(cur, front) == Some(name) then Some(line.value)
      else LastWrite(cur, front, name, key)
  }

  function OrElse(a: Option<string>, b: Option<string>): Option<string> {
    if a.Some? then a else b
  }

  lemma {:induction false} LastWriterWins(p: Parse, lines: seq<Line>, name: string, key: string)
    requires p.Valid() && Proper(lines)
    ensures Run(p, lines).cur == Heading(p.cur, lines)
    ensures Get(Run(p, lines).st, name, key) == OrElse(LastWrite(p.cur, lines, name, key), Get(p.st, name, key))
    decreases |lines|
  {
    if lines != [] {
      var front, line := lines[..|lines| - 1], lines[|lines| - 1];
      LastWriterWins(p, front, name, key);
      RunKeepsValid(p, front);
      RunConcat(p, front, [line]);
      assert front + [line] == lines;
      assert Proper([line]);
      AfterLine(Run(p, front), line, name, key);
      assert Run(Run(p, front), [line]) == Apply(Run(p, front), line);
    }
  }

  predicate Opens(lines: seq<Line>, name: string) {
    exists i :: 0 <= i < |lines| && lines[i].Header? && lines[i].name == name
  }

  /** A text opens exactly the sections it has headers for. */
  lemma {:induction false} SectionsOfRun(p: Parse, lines: seq<Line>, name: string)
    requires p.Valid() && Proper(lines)
    ensures HasSection(Run(p, lines).st, name) <==> HasSection(p.st, name) || Opens(lines, name)
    decreases |lines|
  {
    if lines != [] {
      var line := lines[0];
      assert Proper([line]);
      AfterLine(p, line, name, "");
      SectionsOfRun(Apply(p, line), lines[1..], name);
      assert forall i :: 0 < i < |lines| ==> lines[i] == lines[1..][i - 1];
      assert Opens(lines, name) <==> (line.Header? && line.name == name) || Opens(lines[1..], name);
    }
  }

  /** Reading a file on top of a store is map override by the file read alone. */
  lemma ParseIsOverride(st: Sections, text: string)
    requires Wf(st)
    ensures Wf(ParseText(st, text)) && Wf(ParseText([], text))
    ensures ToMap(ParseText(st, text)) == ToMap(st) + ToMap(ParseText([], text))
    ensures forall name :: HasSection(ParseText(st, text), name)
                           <==> HasSection(st, name) || HasSection(ParseText([], text), name)
  {
    var lines := Meaning(Lines(text));
    MeaningIsProper(Lines(text));
    ParseKeepsWf(st, text);
    ParseKeepsWf([], text);
    var over := ToMap(ParseText([], text));
    forall name, key
      ensures Get(ParseText(st, text), name, key) == Look(ToMap(st) + over, name, key)
      ensures HasSection(ParseText(st, text), name) <==> HasSection(st, name) || HasSection(ParseText([], text), name)
    {
      LastWriterWins(Parse(st, None), lines, name, key);
      LastWriterWins(Parse([], None), lines, name, key);
      SectionsOfRun(Parse(st, None), lines, name);
      SectionsOfRun(Parse([], None), lines, name);
      assert (name, key) in ToMap(st) <==> Get(st, name, key).Some?;
      assert (name, key) in over <==> Get(ParseText([], text), name, key).Some?;
    }
    forall name
      ensures HasSection(ParseText(st, text), name) <==> HasSection(st, name) || HasSection(ParseText([], text), name)
    {
      assert Get(ParseText(st, text), name, "") == Look(ToMap(st) + over, name, "");
    }
    ToMapIs(ParseText(st, text), ToMap(st) + over);
  }

  /** What a stack of files stores, as maps. */
  function Layers(texts: seq<string>): map<(string, string), string> {
    if texts == [] then map[] else Layers(texts[..|texts| - 1]) + ToMap(ParseText([], texts[|texts| - 1]))
  }

  lemma {:induction false} ParseTextsSnoc(st: Sections, texts: seq<string>, text: string)
    ensures ParseTexts(st, texts + [text]) == ParseText(ParseTexts(st, texts), text)
    decreases |texts|
  {
    if texts == [] {
      assert texts + [text] == [text];
    } else {
      ParseTextsSnoc(ParseText(st, texts[0]), texts[1..], text);
      assert (texts + [text])[1..] == texts[1..] + [text];
    }
  }

  lemma OverrideIsAssociative<K, V>(a: map<K, V>, b: map<K, V>, c: map<K, V>)
    ensures (a + b) + c == a + (b + c)
  {
  }

  lemma OneMoreLayer(st: Sections, front: seq<string>, last: string)
    requires Wf(ParseTexts(st, front)) && ToMap(ParseTexts(st, front)) == ToMap(st) + Layers(front)
    ensures Wf(ParseTexts(st, front + [last]))
    ensures ToMap(ParseTexts(st, front + [last])) == ToMap(st) + Layers(front + [last])
  {
    hide Wf, ToMap, ParseText, ParseTexts, HasSection;
    ParseTextsSnoc(st, front, last);
    ParseIsOverride(ParseTexts(st, front), last);
    var texts := front + [last];
    assert texts[..|texts| - 1] == front && texts[|texts| - 1] == last;
    OverrideIsAssociative(ToMap(st), Layers(front), ToMap(ParseText([], last)));
  }

  /** Any number of files on top of any store: the last file that has a key decides it. */
  lemma {:induction false} LayeringIsOverride(st: Sections, texts: seq<string>)
    requires Wf(st)
    ensures Wf(ParseTexts(st, texts))
    ensures ToMap(ParseTexts(st, texts)) == ToMap(st) + Layers(texts)
    decreases |texts|
  {
    hide Wf, ToMap, ParseText;
    if texts == [] {
      assert ToMap(st) + map[] == ToMap(st);
    } else {
      hide ParseTexts, Layers;
      var front, last := texts[..|texts| - 1], texts[|texts| - 1];
      LayeringIsOverride(st, front);
      OneMoreLayer(st, front, last);
      assert front + [last] == texts;
    }
  }

  // --------------------------------------------------------------- lines and tokens

  function NonEmpty(lines: seq<string>): seq<string> {
    if lines == [] then []
    else if lines[0] == "" then NonEmpty(lines[1..])
    else [lines[0]] + NonEmpty(lines[1..])
  }

  lemma NonEmptyCons(line: string, lines: seq<string>)
    ensures NonEmpty([line] + lines) == if line == "" then NonEmpty(lines) else [line] + NonEmpty(lines)
  {
    assert ([line] + lines)[1..] == lines;
  }

  /** strtok drops the empty lines, and no others. */
  lemma {:induction false} TokensAreNonEmptyLines(text: string)
    ensures Tokens(text, '\n') == NonEmpty(Lines(text))
    decreases |text|
  {
    hide IndexOf;
    if text != "" {
      var i := IndexOf(text, '\n');
      if i < |text| {
        TokensAreNonEmptyLines(text[i + 1..]);
        NonEmptyCons(text[..i], Lines(text[i + 1..]));
      } else {
        NonEmptyCons(text[..i], []);
      }
    }
  }

  /** An empty line means nothing. */
  lemma {:induction false} EmptyLinesDoNotMatter(p: Parse, lines: seq<string>)
    ensures Run(p, Meaning(NonEmpty(lines))) == Run(p, Meaning(lines))
    decreases |lines|
  {
    if lines != [] {
      hide Run, Meaning, Classify, Apply;
      var (line, rest) := (lines[0], lines[1..]);
      EmptyLinesDoNotMatter(Apply(p, Classify(line)), rest);
      RunCons(p, line, rest);
      RunCons(p, line, NonEmpty(rest));
      EmptyLineMeansNothing(p);
      assert lines == [line] + rest;
    }
  }

  lemma EmptyLineMeansNothing(p: Parse)
    ensures Apply(p, Classify("")) == p
  {
  }

  lemma RunCons(p: Parse, line: string, lines: seq<string>)
    ensures Run(p, Meaning([line] + lines)) == Run(Apply(p, Classify(line)), Meaning(lines))
  {
    hide Classify, Apply;
    MeaningCons(line, lines);
  }

  /** So the two loops over the lines of a text come to the same. */
  lemma BlankLinesDoNotMatter(p: Parse, text: string)
    ensures Run(p, Meaning(Tokens(text, '\n'))) == Run(p, Meaning(Lines(text)))
  {
    hide *;
    TokensAreNonEmptyLines(text);
    EmptyLinesDoNotMatter(p, Lines(text));
  }

  lemma MeaningCons(line: string, lines: seq<string>)
    ensures Meaning([line] + lines) == [Classify(line)] + Meaning(lines)
    ensures ([Classify(line)] + Meaning(lines))[1..] == Meaning(lines)
  {
    assert ([line] + lines)[1..] == lines;
  }
}
