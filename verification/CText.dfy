/**
 C strings as Dafny strings, and the few C library scanners and formatters the
 configuration code is written with: `strchr`, the `%s` conversion of `sscanf`,
 `strtok`, and the integer conversions.

 A search that yields a null pointer in C yields the length of the string here.
 */
module CText {
  import opened Lists

  /** The characters `isspace` accepts in the C locale. */
  predicate IsSpace(c: char) {
    c == ' ' || '\t' <= c <= '\r'
  }

  predicate NoSpace(s: string) {
    forall j :: 0 <= j < |s| ==> !IsSpace(s[j])
  }

  // ---------------------------------------------------------------- searching

  /** strchr */
  function IndexOf(s: string, c: char): (i: nat)
    ensures i <= |s|
    ensures i < |s| ==> s[i] == c
    ensures c !in s[..i]
  {
    if s == "" || s[0] == c then 0
    else
      var i := IndexOf(s[1..], c);
      assert s[..1 + i] == [s[0]] + s[1..][..i];
      1 + i
  }

  /** The first occurrence is the only index with the properties of `IndexOf`. */
  lemma FirstIndex(pre: string, c: char, post: string)
    requires c !in pre
    ensures IndexOf(pre + [c] + post, c) == |pre|
    ensures IndexOf(pre, c) == |pre|
  {
    var s := pre + [c] + post;
    assert s[|pre|] == c;
    assert forall j :: 0 <= j < |pre| ==> s[j] == pre[j];
  }

  lemma {:induction false} FirstIsNoLater(s: string, c: char, j: nat)
    requires j < |s| && s[j] == c
    ensures IndexOf(s, c) <= j
  {
    if s[0] != c {
      FirstIsNoLater(s[1..], c, j - 1);
    }
  }

  /** The C string a NUL-terminated buffer holds. */
  function CString(buffer: seq<char>): (s: string)
    ensures '\0' !in s
  {
    buffer[..IndexOf(buffer, '\0')]
  }

  lemma CStringIs(s: string, post: string)
    requires '\0' !in s
    ensures CString(s + ['\0'] + post) == s
    ensures CString(s) == s
  {
    FirstIndex(s, '\0', post);
  }

  lemma {:induction false} IndexOfPadded(s: string, c: char)
    ensures IndexOf(s + [c], c) == IndexOf(s, c)
  {
    if s != "" && s[0] != c {
      IndexOfPadded(s[1..], c);
      assert (s + [c])[1..] == s[1..] + [c];
    }
  }

  /** One more NUL at the end changes nothing. */
  lemma CStringPadded(s: string)
    ensures CString(s + ['\0']) == CString(s)
  {
    hide IndexOf;
    IndexOfPadded(s, '\0');
    assert (s + ['\0'])[..IndexOf(s, '\0')] == s[..IndexOf(s, '\0')];
  }

  lemma CStringSplit(buffer: seq<char>)
    requires '\0' in buffer
    ensures |CString(buffer)| < |buffer|
    ensures buffer == CString(buffer) + ['\0'] + buffer[|CString(buffer)| + 1..]
  {
    assert buffer[..|buffer|] == buffer;
  }

  // ------------------------------------------------------------ sscanf("%s")

  function Blanks(s: string): (n: nat)
    ensures n <= |s|
    ensures forall j :: 0 <= j < n ==> IsSpace(s[j])
    ensures n < |s| ==> !IsSpace(s[n])
  {
    if s == "" || !IsSpace(s[0]) then 0 else 1 + Blanks(s[1..])
  }

  function NonBlanks(s: string): (n: nat)
    ensures n <= |s|
    ensures NoSpace(s[..n])
    ensures n < |s| ==> IsSpace(s[n])
  {
    if s == "" || IsSpace(s[0]) then 0 else 1 + NonBlanks(s[1..])
  }

  /** One `%s`: the first word of s, empty when the conversion fails. */
  function Word(s: string): (w: string)
    ensures NoSpace(w)
    ensures |w| <= |s|
    ensures forall c :: c in w ==> c in s
  {
    var rest := s[Blanks(s)..];
    rest[..NonBlanks(rest)]
  }

  /** What follows the first word of s. */
  function AfterWord(s: string): (r: string)
    ensures Blanks(s) + |Word(s)| + |r| == |s|
  {
    s[Blanks(s) + |Word(s)|..]
  }

  lemma {:induction false} BlanksOf(blanks: string, post: string)
    requires forall j :: 0 <= j < |blanks| ==> IsSpace(blanks[j])
    requires post == "" || !IsSpace(post[0])
    ensures Blanks(blanks + post) == |blanks|
  {
    if blanks == "" {
      assert blanks + post == post;
    } else {
      BlanksOf(blanks[1..], post);
      assert (blanks + post)[1..] == blanks[1..] + post;
    }
  }

  lemma {:induction false} NonBlanksOf(w: string, post: string)
    requires NoSpace(w)
    requires post == "" || IsSpace(post[0])
    ensures NonBlanks(w + post) == |w|
  {
    if w == "" {
      assert w + post == post;
    } else {
      NonBlanksOf(w[1..], post);
      assert (w + post)[1..] == w[1..] + post;
    }
  }

  lemma WordIs(blanks: string, w: string, post: string)
    requires forall j :: 0 <= j < |blanks| ==> IsSpace(blanks[j])
    requires w != "" && NoSpace(w)
    requires post == "" || IsSpace(post[0])
    ensures Word(blanks + w + post) == w
    ensures AfterWord(blanks + w + post) == post
  {
    var s := blanks + w + post;
    assert s == blanks + (w + post);
    BlanksOf(blanks, w + post);
    NonBlanksOf(w, post);
    assert s[|blanks|..] == w + post;
    assert s[|blanks| + |w|..] == post;
  }

  /** A string is its leading blanks, its first word and what follows. */
  lemma SplitWord(s: string)
    ensures s == s[..Blanks(s)] + Word(s) + AfterWord(s)
    ensures AfterWord(s) == "" || IsSpace(AfterWord(s)[0])
    ensures Word(s) != "" ==> |AfterWord(s)| < |s|
  {
    var b := Blanks(s);
    var rest := s[b..];
    var n := NonBlanks(rest);
    hide Blanks, NonBlanks;
    assert AfterWord(s) == rest[n..];
    assert rest == rest[..n] + rest[n..];
    assert s == s[..b] + rest;
    Assoc(s[..b], rest[..n], rest[n..]);
  }

  // ------------------------------------------------------------------- strtok

  /** The tokens strtok yields for one delimiter: empty fields are skipped. */
  function Tokens(s: string, d: char): (ts: seq<string>)
    ensures forall t :: t in ts ==> t != "" && d !in t
  {
    if s == "" then []
    else
      var i := IndexOf(s, d);
      var rest := if i < |s| then Tokens(s[i + 1..], d) else [];
      if i == 0 then rest else [s[..i]] + rest
  }

  lemma FirstToken(t: string, d: char, post: string)
    requires t != "" && d !in t
    ensures Tokens(t + [d] + post, d) == [t] + Tokens(post, d)
    ensures Tokens(t, d) == [t]
  {
    FirstIndex(t, d, post);
    var s := t + [d] + post;
    assert s[..|t|] == t && s[|t| + 1..] == post;
    assert t[..|t|] == t;
  }

  /** The lines a file reader hands out: text between newlines, without the newline. */
  function Lines(text: string): (ls: seq<string>)
    ensures forall l :: l in ls ==> '\n' !in l
  {
    if text == "" then []
    else
      var i := IndexOf(text, '\n');
      [text[..i]] + (if i < |text| then Lines(text[i + 1..]) else [])
  }

  lemma FirstLine(l: string, post: string)
    requires '\n' !in l
    ensures Lines(l + "\n" + post) == [l] + Lines(post)
  {
    FirstIndex(l, '\n', post);
    var s := l + ['\n'] + post;
    assert s == l + "\n" + post;
    assert s[..|l|] == l && s[|l| + 1..] == post;
  }

  /** Cutting a text into tokens or lines brings in no new character. */
  lemma {:induction false} TokensOf(text: string, d: char, c: char)
    requires c !in text
    ensures forall t :: t in Tokens(text, d) ==> c !in t
    decreases |text|
  {
    if text != "" && IndexOf(text, d) < |text| {
      TokensOf(text[IndexOf(text, d) + 1..], d, c);
    }
  }

  lemma {:induction false} LinesOf(text: string, c: char)
    requires c !in text
    ensures forall l :: l in Lines(text) ==> c !in l
    decreases |text|
  {
    if text != "" && IndexOf(text, '\n') < |text| {
      LinesOf(text[IndexOf(text, '\n') + 1..], c);
    }
  }

  // ------------------------------------------------------- integer conversions

  const TWO_TO_THE_32 := 0x1_0000_0000
  const TWO_TO_THE_64 := 0x1_0000_0000_0000_0000

  predicate IsInt32(i: int) {
    -0x8000_0000 <= i < 0x8000_0000
  }

  type int32 = i: int | IsInt32(i)

  predicate IsInt64(i: int) {
    -0x8000_0000_0000_0000 <= i < 0x8000_0000_0000_0000
  }

  /** The low 32 bits as a signed integer. */
  function ToInt32(u: int): (i: int)
    ensures IsInt32(i) && (i - u) % TWO_TO_THE_32 == 0
  {
    var m := u % TWO_TO_THE_32;
    if m >= 0x8000_0000 then m - TWO_TO_THE_32 else m
  }

  /** The low 64 bits as a signed integer. */
  function ToInt64(u: int): (i: int)
    ensures IsInt64(i) && (i - u) % TWO_TO_THE_64 == 0
  {
    var m := u % TWO_TO_THE_64;
    if m >= 0x8000_0000_0000_0000 then m - TWO_TO_THE_64 else m
  }

  function DigitChar(d: nat): char
    requires d < 16
  {
    "0123456789abcdef"[d]
  }

  function DigitValue(c: char): nat {
    if '0' <= c <= '9' then c as nat - '0' as nat
    else if 'a' <= c <= 'z' then 10 + c as nat - 'a' as nat
    else if 'A' <= c <= 'Z' then 10 + c as nat - 'A' as nat
    else 36
  }

  datatype Base = Octal | Decimal | Hex {
    function Radix(): nat {
      match this
      case Octal => 8
      case Decimal => 10
      case Hex => 16
    }

    /** n without its last digit, and that digit. */
    function Split(n: nat): (r: (nat, nat))
      ensures r.1 < Radix()
      ensures r.0 < n || r.0 == n == 0
      ensures Push(r.0, r.1) == n
    {
      match this
      case Octal => (n / 8, n % 8)
      case Decimal => (n / 10, n % 10)
      case Hex => (n / 16, n % 16)
    }

    /** n with one more digit at the end. */
    function Push(n: nat, digit: nat): nat {
      match this
      case Octal => n * 8 + digit
      case Decimal => n * 10 + digit
      case Hex => n * 16 + digit
    }
  }

  /** The digits printf writes for n: "%u" in base 10, "%x" in base 16. */
  function Digits(n: nat, base: Base): (s: string)
    ensures s != "" && (n > 0 ==> s[0] != '0')
    ensures forall c :: c in s ==> DigitValue(c) < base.Radix()
    ensures NoSpace(s)
  {
    var (high, low) := base.Split(n);
    if high == 0 then [DigitChar(low)] else Digits(high, base) + [DigitChar(low)]
  }

  /** Reads the longest run of digits at the start of s, on top of acc. */
  function ReadDigits(s: string, base: Base, acc: nat): nat {
    if s == "" || DigitValue(s[0]) >= base.Radix() then acc
    else ReadDigits(s[1..], base, base.Push(acc, DigitValue(s[0])))
  }

  lemma ReadOneDigit(digit: nat, base: Base, acc: nat, post: string)
    requires digit < base.Radix()
    ensures ReadDigits([DigitChar(digit)] + post, base, acc) == ReadDigits(post, base, base.Push(acc, digit))
  {
    var s := [DigitChar(digit)] + post;
    assert s[1..] == post;
    assert DigitValue(DigitChar(digit)) == digit;
  }

  lemma {:induction false} ReadBackDigits(n: nat, base: Base, post: string)
    ensures ReadDigits(Digits(n, base) + post, base, 0) == ReadDigits(post, base, n)
    decreases n
  {
    hide ReadDigits, DigitChar;
    var (high, low) := base.Split(n);
    var d := [DigitChar(low)];
    if high == 0 {
      ReadOneDigit(low, base, 0, post);
      assert base.Push(0, low) == n;
      assert Digits(n, base) == d;
    } else {
      ReadBackDigits(high, base, d + post);
      ReadOneDigit(low, base, high, post);
      assert Digits(n, base) == Digits(high, base) + d;
      assert Digits(n, base) + post == Digits(high, base) + (d + post);
    }
  }

  /** "%i" and "%d" of printf. */
  function FormatInt(i: int): (s: string)
    ensures s != "" && NoSpace(s)
    ensures i >= 0 ==> forall c :: c in s ==> '0' <= c <= '9'
    ensures i < 0 ==> s[0] == '-'
    ensures forall c :: c in s ==> c == '-' || '0' <= c <= '9'
  {
    if i < 0 then "-" + Digits(-i, Decimal) else Digits(i, Decimal)
  }

  /** The optional sign of a number: its factor and its width. */
  function Sign(s: string): (int, nat) {
    if s != "" && s[0] == '-' then (-1, 1)
    else if s != "" && s[0] == '+' then (1, 1)
    else (1, 0)
  }

  /** Blanks, a sign, decimal digits; 0 when there are none. */
  function ReadDecimal(s: string): int {
    var t := s[Blanks(s)..];
    var (f, w) := Sign(t);
    f * ReadDigits(t[w..], Decimal, 0)
  }

  function Atoi(s: string): int32 {
    ToInt32(ReadDecimal(s))
  }

  function Atoll(s: string): (i: int)
    ensures IsInt64(i)
  {
    ToInt64(ReadDecimal(s))
  }

  lemma StopReading(post: string, base: Base, n: nat)
    requires post == "" || DigitValue(post[0]) >= base.Radix()
    ensures ReadDigits(post, base, n) == n
  {
  }

  lemma ReadBackDecimal(i: int, post: string)
    requires post == "" || DigitValue(post[0]) >= 10
    ensures ReadDecimal(FormatInt(i) + post) == i
  {
    hide Digits, ReadDigits, FormatInt;
    var n := if i < 0 then -i else i;
    var s := FormatInt(i) + post;
    FormatIsSigned(i, post);
    assert s[0..] == s;
    ReadBackDigits(n, Decimal, post);
    StopReading(post, Decimal, n);
  }

  lemma FormatIsSigned(i: int, post: string)
    ensures var s := FormatInt(i) + post;
            && Blanks(s) == 0
            && Sign(s) == (if i < 0 then (-1, 1) else (1, 0))
            && s[Sign(s).1..] == Digits(if i < 0 then -i else i, Decimal) + post
  {
    hide Digits;
    var d := Digits(if i < 0 then -i else i, Decimal);
    StartsWithDigit(if i < 0 then -i else i);
    if i < 0 {
      assert FormatInt(i) + post == "-" + (d + post);
    }
  }

  lemma StartsWithDigit(n: nat)
    ensures '0' <= Digits(n, Decimal)[0] <= '9'
  {
    var d := Digits(n, Decimal);
    hide Digits;
    assert d[0] in d;
  }

  lemma AtoiFormat(i: int, post: string)
    requires IsInt32(i) && (post == "" || DigitValue(post[0]) >= 10)
    ensures Atoi(FormatInt(i) + post) == i
  {
    hide ReadDecimal, FormatInt;
    ReadBackDecimal(i, post);
  }

  lemma AtollFormat(i: int)
    requires IsInt64(i)
    ensures Atoll(FormatInt(i)) == i
  {
    hide ReadDecimal, FormatInt;
    ReadBackDecimal(i, "");
    assert FormatInt(i) + "" == FormatInt(i);
  }
}
