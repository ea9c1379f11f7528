/**
 Integers, ranges and string lists stored as text, and when reading one back gives
 what was written.
 */
module Codecs {
  import opened Lists
  import opened CText
  import opened Store
  import opened Config

  // ---------------------------------------------------------------- integers

  /** What follows the blanks and the sign of a number. */
  function Unsigned(s: string): string {
    var t := s[Blanks(s)..];
    t[Sign(t).1..]
  }

  predicate HexPrefix(d: string) {
    "0x" <= d || "0X" <= d
  }

  predicate OctalPrefix(d: string) {
    "0" <= d && !HexPrefix(d)
  }

  /** "%i" of sscanf: a prefix decides between base 16, base 8 and base 10. */
  function ScanInt(s: string): int {
    var d := Unsigned(s);
    Sign(s[Blanks(s)..]).0
    * (if HexPrefix(d) then ReadDigits(d[2..], Hex, 0)
       else if OctalPrefix(d) then ReadDigits(d, Octal, 0)
       else ReadDigits(d, Decimal, 0))
  }

  /** linphone_config_get_int on a stored value. */
  function ReadInt(s: string): int {
    ToInt32(if "0x" <= s then ReadDigits(s[2..], Hex, 0) else ScanInt(s))
  }

  function GetInt(st: Sections, name: string, key: string, default: int): int {
    match Get(st, name, key)
    case Some(s) => ReadInt(s)
    case None => default
  }

  function SetInt(st: Sections, name: string, key: string, i: int): Sections {
    Set(st, name, key, FormatInt(i))
  }

  /** "0x%x": a negative number is printed as its two's complement. */
  function FormatHex(i: int): (s: string)
    requires IsInt32(i)
    ensures s != ""
  {
    "0x" + Digits(i % TWO_TO_THE_32, Hex)
  }

  function GetInt64(st: Sections, name: string, key: string, default: int): int {
    match Get(st, name, key)
    case Some(s) => Atoll(s)
    case None => default
  }

  /** Printf writes no leading zero, so only the number 0 itself is read in octal. */
  lemma ScanUndoesFormat(i: int)
    ensures ScanInt(FormatInt(i)) == i
    ensures !("0x" <= FormatInt(i)) && !HexPrefix(Unsigned(FormatInt(i)))
    ensures OctalPrefix(Unsigned(FormatInt(i))) <==> i == 0
  {
    var s := FormatInt(i);
    var n := if i < 0 then -i else i;
    var d := Digits(n, Decimal);
    assert Blanks(s) == 0 && s[0..] == s;
    assert d[0] in d;
    assert Sign(s) == if i < 0 then (-1, 1) else (1, 0);
    assert s[Sign(s).1..] == d;
    if n == 0 {
      assert d == "0" && d[1..] == "";
      assert ReadDigits(d, Octal, 0) == ReadDigits("", Octal, 0) == 0;
    } else {
      ReadBackDigits(n, Decimal, "");
      assert d + "" == d;
    }
  }

  lemma ReadIntBack(i: int)
    requires IsInt32(i)
    ensures ReadInt(FormatInt(i)) == i
  {
    hide ScanInt, FormatInt;
    ScanUndoesFormat(i);
  }

  lemma {:induction false} IntRoundTrip(st: Sections, name: string, key: string, i: int, default: int)
    requires Wf(st) && IsInt32(i)
    ensures GetInt(SetInt(st, name, key, i), name, key, default) == i
    ensures OctalPrefix(Unsigned(FormatInt(i))) <==> i == 0
  {
    hide ReadInt, FormatInt, Set, Wf, OctalPrefix, Unsigned;
    AfterSet(st, name, key, FormatInt(i), name, key);
    ReadIntBack(i);
    ScanUndoesFormat(i);
  }

  lemma NothingToRead(u: nat)
    ensures ReadDigits("", Hex, u) == u
  {
  }

  lemma ReadHexBack(i: int)
    requires IsInt32(i)
    ensures ReadInt(FormatHex(i)) == i
  {
    hide Digits, ReadDigits, ScanInt;
    var u := i % TWO_TO_THE_32;
    var d := Digits(u, Hex);
    assert FormatHex(i)[2..] == d && d + "" == d;
    ReadBackDigits(u, Hex, "");
    assert ReadDigits("", Hex, u) == u by {
      NothingToRead(u);
    }
    assert ToInt32(u) == i;
  }

  lemma HexRoundTrip(st: Sections, name: string, key: string, i: int, default: int)
    requires Wf(st) && IsInt32(i)
    ensures GetInt(Set(st, name, key, FormatHex(i)), name, key, default) == i
  {
    hide ReadInt, FormatHex, Set, Wf;
    AfterSet(st, name, key, FormatHex(i), name, key);
    ReadHexBack(i);
  }

  lemma {:induction false} Int64RoundTrip(st: Sections, name: string, key: string, i: int, default: int)
    requires Wf(st) && IsInt64(i)
    ensures GetInt64(Set(st, name, key, FormatInt(i)), name, key, default) == i
  {
    hide Atoll, FormatInt, Set, Wf;
    AfterSet(st, name, key, FormatInt(i), name, key);
    AtollFormat(i);
  }

  /** A key without a value gives the default, whatever is read. */
  lemma MissingGivesDefault(st: Sections, name: string, key: string, default: int, dmin: int, dmax: int)
    requires Get(st, name, key) == None
    ensures GetInt(st, name, key, default) == default && GetInt64(st, name, key, default) == default
    ensures GetRange(st, name, key, dmin, dmax) == Range(dmin, dmax, true)
  {
  }

  lemma UnsignedIs(lead: string, sign: string, body: string)
    requires forall j :: 0 <= j < |lead| ==> IsSpace(lead[j])
    requires sign in {"", "-", "+"} && body != "" && !IsSpace(body[0]) && body[0] != '-' && body[0] != '+'
    ensures var s := lead + sign + body;
            && Unsigned(s) == body && Atoi(s) == ToInt32(Factor(sign) * ReadDigits(body, Decimal, 0))
            && Sign(s[Blanks(s)..]).0 == Factor(sign)
  {
    hide ReadDigits;
    var (s, t) := (lead + sign + body, sign + body);
    assert s == lead + t;
    assert t[0] == if sign == "" then body[0] else sign[0];
    BlanksOf(lead, t);
    assert s[|lead|..] == t && t[|sign|..] == body;
  }

  /** The digits of n in one base, up to the first character that is none. */
  lemma DigitsUpTo(n: nat, base: Base, post: string)
    requires post == "" || DigitValue(post[0]) >= base.Radix()
    ensures ReadDigits(Digits(n, base) + post, base, 0) == n
    ensures ReadDigits("0" + (Digits(n, base) + post), base, 0) == n
  {
    hide Digits, ReadDigits;
    ReadBackDigits(n, base, post);
    StopReading(post, base, n);
    ReadOneDigit(0, base, 0, Digits(n, base) + post);
    assert "0" == [DigitChar(0)] && base.Push(0, 0) == 0;
  }

  function Factor(sign: string): int {
    if sign == "-" then -1 else 1
  }

  /** What texts that printf did not write are read as: white space and a sign may stand
      first, a prefix decides the base, and the number ends where its digits end. */
  lemma OtherTexts(lead: string, sign: string, n: nat, post: string)
    requires forall j :: 0 <= j < |lead| ==> IsSpace(lead[j])
    requires sign in {"", "-", "+"} && (post == "" || DigitValue(post[0]) >= 16)
    ensures ScanInt(lead + sign + ("0x" + (Digits(n, Hex) + post))) == Factor(sign) * n
    ensures ScanInt(lead + sign + ("0X" + (Digits(n, Hex) + post))) == Factor(sign) * n
    ensures ScanInt(lead + sign + ("0" + (Digits(n, Octal) + post))) == Factor(sign) * n
    ensures n > 0 ==> ScanInt(lead + sign + (Digits(n, Decimal) + post)) == Factor(sign) * n
  {
    hide *;
    HexText(lead, sign, n, post);
    OctalText(lead, sign, n, post);
    if n > 0 {
      DecimalText(lead, sign, n, post);
    }
  }

  lemma HexText(lead: string, sign: string, n: nat, post: string)
    requires forall j :: 0 <= j < |lead| ==> IsSpace(lead[j])
    requires sign in {"", "-", "+"} && (post == "" || DigitValue(post[0]) >= 16)
    ensures ScanInt(lead + sign + ("0x" + (Digits(n, Hex) + post))) == Factor(sign) * n
    ensures ScanInt(lead + sign + ("0X" + (Digits(n, Hex) + post))) == Factor(sign) * n
  {
    hide Digits, ReadDigits, Unsigned;
    var h := Digits(n, Hex) + post;
    UnsignedIs(lead, sign, "0x" + h);
    UnsignedIs(lead, sign, "0X" + h);
    assert ("0x" + h)[2..] == h && ("0X" + h)[2..] == h;
    DigitsUpTo(n, Hex, post);
  }

  lemma OctalText(lead: string, sign: string, n: nat, post: string)
    requires forall j :: 0 <= j < |lead| ==> IsSpace(lead[j])
    requires sign in {"", "-", "+"} && (post == "" || DigitValue(post[0]) >= 8)
    ensures ScanInt(lead + sign + ("0" + (Digits(n, Octal) + post))) == Factor(sign) * n
  {
    hide Digits, ReadDigits, Unsigned, OctalPrefix, HexPrefix;
    var o := Digits(n, Octal) + post;
    UnsignedIs(lead, sign, "0" + o);
    DigitsUpTo(n, Octal, post);
    OctalStart(n, post);
  }

  lemma DecimalText(lead: string, sign: string, n: nat, post: string)
    requires n > 0 && forall j :: 0 <= j < |lead| ==> IsSpace(lead[j])
    requires sign in {"", "-", "+"} && (post == "" || DigitValue(post[0]) >= 10)
    ensures ScanInt(lead + sign + (Digits(n, Decimal) + post)) == Factor(sign) * n
  {
    hide Digits, ReadDigits, Unsigned;
    var d := Digits(n, Decimal) + post;
    StartsWithDigit(n);
    assert d[0] == Digits(n, Decimal)[0];
    UnsignedIs(lead, sign, d);
    DigitsUpTo(n, Decimal, post);
    assert !HexPrefix(d) && !OctalPrefix(d);
  }

  lemma OctalStart(n: nat, post: string)
    ensures var octal := "0" + (Digits(n, Octal) + post); OctalPrefix(octal) && !HexPrefix(octal)
  {
    var o := Digits(n, Octal);
    hide Digits;
    assert o[0] in o;
    assert ("0" + (o + post))[1] == o[0];
  }

  // ---------------------------------------------------------------- ranges

  datatype Range = Range(min: int, max: int, ok: bool)

  function FormatRange(min: int, max: int): (s: string)
    ensures s != ""
  {
    FormatInt(min) + "-" + FormatInt(max)
  }

  /** linphone_config_get_range */
  function GetRange(st: Sections, name: string, key: string, defaultMin: int, defaultMax: int): Range {
    match Get(st, name, key)
    case None => Range(defaultMin, defaultMax, true)
    case Some(s) =>
      var minus := IndexOf(s, '-');
      if minus == |s| || minus == 0 then Range(defaultMin, defaultMax, false)
      else Range(Atoi(s), Atoi(s[minus + 1..]), true)
  }

  lemma SplitRange(min: int, max: int)
    requires IsInt32(min) && IsInt32(max)
    ensures var s := FormatRange(min, max);
            var minus := IndexOf(s, '-');
            if min < 0 then minus == 0
            else 0 < minus < |s| && Atoi(s) == min && Atoi(s[minus + 1..]) == max
  {
    hide Atoi, FormatInt;
    var (a, b) := (FormatInt(min), FormatInt(max));
    var s := FormatRange(min, max);
    if min >= 0 {
      assert '-' !in a;
      FirstIndex(a, '-', b);
      assert s == a + ['-'] + b;
      AtoiFormat(min, "-" + b);
      assert s == a + ("-" + b);
      AtoiFormat(max, "");
      assert s[|a| + 1..] == b + "";
    } else {
      assert s[0] == '-';
    }
  }

  /** A stored range is read back exactly when its minimum is not negative; otherwise
      its own minus sign is taken for the separator and the defaults are returned. */
  lemma {:induction false} RangeRoundTrip(st: Sections, name: string, key: string, min: int, max: int, dmin: int, dmax: int)
    requires Wf(st) && IsInt32(min) && IsInt32(max)
    ensures GetRange(Set(st, name, key, FormatRange(min, max)), name, key, dmin, dmax)
            == if min >= 0 then Range(min, max, true) else Range(dmin, dmax, false)
  {
    hide FormatRange, Atoi, IndexOf, Set, Wf;
    AfterSet(st, name, key, FormatRange(min, max), name, key);
    SplitRange(min, max);
  }

  /** Any stored text: a minus sign that is not the first character separates the two
      numbers, otherwise the defaults are returned. */
  lemma RangeTexts(st: Sections, name: string, key: string, a: string, b: string, dmin: int, dmax: int)
    requires '-' !in a
    ensures Get(st, name, key) == Some(a + "-" + b) ==>
              GetRange(st, name, key, dmin, dmax)
              == if a == "" then Range(dmin, dmax, false) else Range(Atoi(a + "-" + b), Atoi(b), true)
    ensures Get(st, name, key) == Some(a) ==> GetRange(st, name, key, dmin, dmax) == Range(dmin, dmax, false)
  {
    hide Atoi, Get, IndexOf;
    FirstIndex(a, '-', b);
    var s := a + "-" + b;
    assert s == a + ['-'] + b && s[|a| + 1..] == b;
  }

  // ---------------------------------------------------------------- string lists

  /** The elements joined by commas; nothing at all for the empty list. */
  function Join(l: seq<string>): string {
    if l == [] then ""
    else if |l| == 1 then l[0]
    else l[0] + "," + Join(l[1..])
  }

  function Split(s: string): (l: seq<string>)
    ensures l != []
    decreases |s|
  {
    var i := IndexOf(s, ',');
    if i == |s| then [s] else [s[..i]] + Split(s[i + 1..])
  }

  predicate CommaFree(l: seq<string>) {
    forall i :: 0 <= i < |l| ==> ',' !in l[i]
  }

  lemma {:induction false} SplitUndoesJoin(l: seq<string>)
    requires l != [] && CommaFree(l)
    ensures Split(Join(l)) == l
    decreases |l|
  {
    var rest := Join(l[1..]);
    FirstIndex(l[0], ',', rest);
    if |l| > 1 {
      SplitUndoesJoin(l[1..]);
      var s := l[0] + [','] + rest;
      assert s == Join(l);
      assert s[..|l[0]|] == l[0] && s[|l[0]| + 1..] == rest;
    }
  }

  lemma JoinCons(first: string, rest: seq<string>)
    requires rest != []
    ensures Join([first] + rest) == first + "," + Join(rest)
  {
    assert ([first] + rest)[1..] == rest;
  }

  lemma {:induction false} JoinUndoesSplit(s: string)
    ensures Join(Split(s)) == s
    decreases |s|
  {
    hide IndexOf;
    var i := IndexOf(s, ',');
    if i < |s| {
      JoinUndoesSplit(s[i + 1..]);
      var rest := Split(s[i + 1..]);
      assert Split(s) == [s[..i]] + rest;
      JoinCons(s[..i], rest);
      assert s == s[..i] + "," + s[i + 1..];
    }
  }

  /** A list of comma-free strings is read back exactly, unless it is empty or the
      single empty string: then nothing is stored and the default is returned. */
  lemma StringListRoundTrip(st: Sections, name: string, key: string, l: seq<string>, default: seq<string>)
    requires Wf(st) && CommaFree(l)
    ensures (match Get(Set(st, name, key, Join(l)), name, key) case Some(s) => Split(s) case None => default)
            == if l == [] || l == [""] then default else l
  {
    AfterSet(st, name, key, Join(l), name, key);
    if l != [] {
      SplitUndoesJoin(l);
      assert Join(l) == "" ==> l == Split("");
      assert Split("") == [""];
    }
  }

  /** The loop of linphone_config_set_string_list; a null pointer for the empty list. */
  method JoinAll(list: seq<string>) returns (value: Option<string>)
    ensures value == if list == [] then None else Some(Join(list))
  {
    value := None;
    for i := 0 to |list|
      invariant value == if i == 0 then None else Some(Join(list[..i]))
    {
      if value.Some? {
        JoinSnoc(list[..i], list[i]);
        assert list[..i + 1] == list[..i] + [list[i]];
        value := Some(value.value + "," + list[i]);
      } else {
        assert list[..1] == [list[0]];
        value := Some(list[i]);
      }
    }
    assert list[..|list|] == list;
  }

  /** linphone_config_set_string_list */
  method SetStringList(config: LpConfig, name: string, key: string, list: seq<string>)
    requires config.Valid()
    modifies config, config.sections
    ensures config.Valid() && config.store == Set(old(config.store), name, key, Join(list))
  {
    var value := JoinAll(list);
    config.SetString(name, key, if value.Some? then value.value else "");
  }

  lemma {:induction false} JoinSnoc(l: seq<string>, last: string)
    requires l != []
    ensures Join(l + [last]) == Join(l) + "," + last
  {
    if |l| == 1 {
      assert (l + [last])[1..] == [last];
    } else {
      JoinSnoc(l[1..], last);
      assert (l + [last])[1..] == l[1..] + [last];
      Assoc(l[0] + ",", Join(l[1..]), "," + last);
      Assoc(Join(l[1..]), ",", last);
      Assoc(l[0] + "," + Join(l[1..]), ",", last);
    }
  }

  /** linphone_config_get_string_list */
  method GetStringList(config: LpConfig, name: string, key: string, default: seq<string>)
      returns (list: seq<string>)
    requires config.Valid()
    ensures list == match Get(config.store, name, key) case Some(s) => Split(s) case None => default
  {
    var found := config.HasEntry(name, key);
    if !found {
      return default;
    }
    var value := config.GetString(name, key, "");
    list := [];
    var ptr := Some(value);
    while ptr.Some?
      invariant list + (if ptr.Some? then Split(ptr.value) else []) == Split(value)
      decreases if ptr.Some? then 1 + |ptr.value| else 0
    {
      var i := IndexOf(ptr.value, ',');
      list := list + [ptr.value[..i]];
      assert ptr.value[..|ptr.value|] == ptr.value;
      ptr := if i < |ptr.value| then Some(ptr.value[i + 1..]) else None;
    }
  }
}
