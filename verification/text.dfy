/** The Python string primitives the library relies on, stated over `seq<char>`:
    `str.lower` (ASCII letters), `str.strip`/`lstrip`, `str.split`/`"/".join`,
    `str.endswith`, the `in` substring test, `str.find`/`rpartition`, and the
    decimal rendering and parsing done by `str(int)` and `int(str)`. */
module Text {
  import opened Wrappers

  // ---------------------------------------------------------------------------
  // Character classes
  // ---------------------------------------------------------------------------

  predicate IsAsciiUpper(c: char) {
    'A' <= c <= 'Z'
  }

  predicate IsAsciiLetter(c: char) {
    'A' <= c <= 'Z' || 'a' <= c <= 'z'
  }

  predicate IsAsciiDigit(c: char) {
    '0' <= c <= '9'
  }

  /** The characters for which Python's `str.isspace()` holds; `str.strip()`
      with no argument removes exactly these. */
  predicate IsPySpace(c: char) {
    || ('\U{9}' <= c <= '\U{D}') || ('\U{1C}' <= c <= '\U{20}')
    || c == '\U{85}' || c == '\U{A0}' || c == '\U{1680}'
    || ('\U{2000}' <= c <= '\U{200A}') || c == '\U{2028}' || c == '\U{2029}'
    || c == '\U{202F}' || c == '\U{205F}' || c == '\U{3000}'
  }

  // ---------------------------------------------------------------------------
  // Lower-casing
  // ---------------------------------------------------------------------------

  function LowerChar(c: char): char {
    if IsAsciiUpper(c) then (c as int + 32) as char else c
  }

  /** `str.lower()` restricted to ASCII letters; every other character is kept. */
  function Lower(s: string): (r: string)
    ensures |r| == |s|
    ensures forall i :: 0 <= i < |s| ==> r[i] == LowerChar(s[i])
  {
    seq(|s|, i requires 0 <= i < |s| => LowerChar(s[i]))
  }

  predicate IsLowerCase(s: string) {
    forall i :: 0 <= i < |s| ==> !IsAsciiUpper(s[i])
  }

  /** Lower-casing leaves no upper-case letter behind, changes nothing on
      lower-case text, and is therefore idempotent. */
  lemma {:induction false} LowerIsLowerCase(s: string)
    ensures IsLowerCase(Lower(s))
    ensures IsLowerCase(s) ==> Lower(s) == s
    ensures Lower(Lower(s)) == Lower(s)
  {
  }

  // ---------------------------------------------------------------------------
  // Searching
  // ---------------------------------------------------------------------------

  /** The index of the first character of `s` that lies in `cs`, or `|s|` when
      there is none (the minimum over `str.find` for each delimiter). */
  function FindFirst(s: string, cs: set<char>): (k: nat)
    ensures k <= |s|
    ensures forall j :: 0 <= j < k ==> s[j] !in cs
    ensures k < |s| ==> s[k] in cs
  {
    if |s| == 0 then 0
    else if s[0] in cs then 0
    else 1 + FindFirst(s[1..], cs)
  }

  /** The first index holding a character of `cs` is the one `FindFirst` finds. */
  lemma {:induction false} FindFirstAt(s: string, cs: set<char>, k: nat)
    requires k < |s| && s[k] in cs
    requires forall j :: 0 <= j < k ==> s[j] !in cs
    ensures FindFirst(s, cs) == k
  {
  }

  /** The part of `s` after its last `c`, or all of `s` when `c` does not occur:
      the third component of `s.rpartition(c)`. */
  function AfterLast(s: string, c: char): (r: string)
    ensures |r| <= |s| && r == s[|s| - |r|..]
    ensures c !in r
    ensures |r| < |s| ==> s[|s| - |r| - 1] == c
  {
    if |s| == 0 then ""
    else if s[|s| - 1] == c then ""
    else AfterLast(s[..|s| - 1], c) + [s[|s| - 1]]
  }

  /** A suffix free of `c` that is the whole text or follows a `c` is what
      `AfterLast` finds. */
  lemma {:induction false} AfterLastAt(s: string, c: char, t: string)
    requires |t| <= |s| && s[|s| - |t|..] == t && c !in t
    requires |t| < |s| ==> s[|s| - |t| - 1] == c
    ensures AfterLast(s, c) == t
  {
  }

  predicate StartsWith(s: string, prefix: string) {
    |prefix| <= |s| && s[..|prefix|] == prefix
  }

  /** `s.endswith(suffix)`. */
  predicate EndsWith(s: string, suffix: string) {
    |suffix| <= |s| && s[|s| - |suffix|..] == suffix
  }

  /** `needle` occurs in `hay` starting at index `i`. */
  predicate OccursAt(hay: string, needle: string, i: int) {
    0 <= i && i + |needle| <= |hay| && hay[i..i + |needle|] == needle
  }

  /** Python's `needle in hay` for strings, computed by scanning. */
  function Contains(hay: string, needle: string): (r: bool)
    ensures r <==> exists i :: OccursAt(hay, needle, i)
    decreases |hay|
  {
    if StartsWith(hay, needle) then
      assert OccursAt(hay, needle, 0);
      true
    else if |hay| == 0 then
      assert forall i :: !OccursAt(hay, needle, i);
      false
    else
      var r := Contains(hay[1..], needle);
      assert forall i :: OccursAt(hay[1..], needle, i) <==> OccursAt(hay, needle, i + 1);
      assert forall i :: OccursAt(hay, needle, i) ==> i == 0 || OccursAt(hay[1..], needle, i - 1);
      r
  }

  // ---------------------------------------------------------------------------
  // Stripping and filtering
  // ---------------------------------------------------------------------------

  /** Removes the longest prefix of `s` whose characters all satisfy `p`
      (`str.lstrip` with a character class). */
  function DropWhile(s: string, p: char -> bool): (r: string)
    ensures |r| <= |s| && r == s[|s| - |r|..]
    ensures forall i :: 0 <= i < |s| - |r| ==> p(s[i])
    ensures |r| > 0 ==> !p(r[0])
  {
    if |s| > 0 && p(s[0]) then
      var r := DropWhile(s[1..], p);
      assert s[1..][|s| - 1 - |r|..] == s[|s| - |r|..];
      assert forall i :: 1 <= i < |s| ==> s[1..][i - 1] == s[i];
      r
    else s
  }

  /** Removes the longest suffix of `s` whose characters all satisfy `p`
      (`str.rstrip` with a character class). */
  function DropWhileEnd(s: string, p: char -> bool): (r: string)
    ensures |r| <= |s| && r == s[..|r|]
    ensures forall i :: |r| <= i < |s| ==> p(s[i])
    ensures |r| > 0 ==> !p(r[|r| - 1])
  {
    if |s| > 0 && p(s[|s| - 1]) then
      var r := DropWhileEnd(s[..|s| - 1], p);
      assert s[..|s| - 1][..|r|] == s[..|r|];
      assert forall i :: 0 <= i < |s| - 1 ==> s[..|s| - 1][i] == s[i];
      r
    else s
  }

  /** `s.strip()`: removes leading and trailing Python whitespace. */
  function Strip(s: string): string {
    DropWhileEnd(DropWhile(s, IsPySpace), IsPySpace)
  }

  /** Stripping only ever removes characters: whatever `Strip(s)` contains, `s`
      contains, and text with no whitespace at either end is left as it is. */
  lemma {:induction false} StripKeepsCharacters(s: string)
    ensures forall c :: c in Strip(s) ==> c in s
    ensures (|s| == 0 || (!IsPySpace(s[0]) && !IsPySpace(s[|s| - 1]))) ==> Strip(s) == s
  {
    var t := DropWhile(s, IsPySpace);
    var a := |s| - |t|;
    forall c | c in Strip(s) ensures c in s {
      var i :| 0 <= i < |Strip(s)| && Strip(s)[i] == c;
      assert t[i] == c;
      assert s[a + i] == c;
    }
  }

  /** The characters of `s` that are not in `cs`, in order
      (`s.replace(c, "")` for every `c` in `cs`). */
  function RemoveChars(s: string, cs: set<char>): (r: string)
    ensures |r| <= |s|
    ensures forall i :: 0 <= i < |r| ==> r[i] !in cs
    ensures (forall i :: 0 <= i < |s| ==> s[i] !in cs) ==> r == s
    ensures forall c :: c in r ==> c in s
  {
    if |s| == 0 then ""
    else if s[0] in cs then RemoveChars(s[1..], cs)
    else [s[0]] + RemoveChars(s[1..], cs)
  }

  /** Removal drops every occurrence of the removed characters and keeps
      every other character as often as it occurs. */
  lemma {:induction false} RemoveCharsCounts(s: string, cs: set<char>)
    ensures forall c :: multiset(RemoveChars(s, cs))[c] == if c in cs then 0 else multiset(s)[c]
    decreases |s|
  {
    if |s| > 0 {
      assert s == [s[0]] + s[1..];
      RemoveCharsCounts(s[1..], cs);
    }
  }

  /** Removal works piecewise, so it keeps the order of what it keeps. */
  lemma {:induction false} RemoveCharsAppend(a: string, b: string, cs: set<char>)
    ensures RemoveChars(a + b, cs) == RemoveChars(a, cs) + RemoveChars(b, cs)
    decreases |a|
  {
    if |a| > 0 {
      assert (a + b)[1..] == a[1..] + b;
      RemoveCharsAppend(a[1..], b, cs);
    } else {
      assert a + b == b;
    }
  }

  // ---------------------------------------------------------------------------
  // Splitting and joining
  // ---------------------------------------------------------------------------

  /** `sep.join(parts)`. */
  function Join(parts: seq<string>, sep: char): string {
    if |parts| == 0 then ""
    else if |parts| == 1 then parts[0]
    else parts[0] + [sep] + Join(parts[1..], sep)
  }

  /** `s.split(sep)`: always at least one piece, and no piece contains `sep`
      (`JoinSplit` shows that joining the pieces back gives `s`). */
  function Split(s: string, sep: char): (r: seq<string>)
    ensures |r| >= 1
    ensures forall i :: 0 <= i < |r| ==> sep !in r[i]
    decreases |s|
  {
    if |s| == 0 then [""]
    else if s[0] == sep then [""] + Split(s[1..], sep)
    else
      var rest := Split(s[1..], sep);
      var r := [[s[0]] + rest[0]] + rest[1..];
      assert r[1..] == rest[1..];
      r
  }

  /** Joining the pieces of `s.split(sep)` with `sep` gives `s` back. */
  lemma {:induction false} JoinSplit(s: string, sep: char)
    ensures Join(Split(s, sep), sep) == s
    decreases |s|
  {
    if |s| > 0 {
      JoinSplit(s[1..], sep);
      var rest := Split(s[1..], sep);
      if s[0] == sep {
        assert Split(s, sep) == [""] + rest;
        assert ([""] + rest)[1..] == rest;
        assert s == [sep] + s[1..];
      } else {
        var r := Split(s, sep);
        assert r == [[s[0]] + rest[0]] + rest[1..];
        if |rest| == 1 {
          assert s == [s[0]] + rest[0];
        } else {
          assert r[1..] == rest[1..];
          assert Join(rest, sep) == rest[0] + [sep] + Join(rest[1..], sep);
          assert s == [s[0]] + s[1..];
        }
      }
    }
  }

  /** Splitting text that starts with a non-separator glues that character to
      the first piece of the rest. */
  lemma {:induction false} SplitCons(c: char, s: string, sep: char)
    requires c != sep
    ensures Split([c] + s, sep) == [[c] + Split(s, sep)[0]] + Split(s, sep)[1..]
  {
    assert ([c] + s)[1..] == s;
  }

  /** Splitting text that starts with the separator puts an empty piece first. */
  lemma {:induction false} SplitSeparatorCons(s: string, sep: char)
    ensures Split([sep] + s, sep) == [""] + Split(s, sep)
  {
    assert ([sep] + s)[1..] == s;
  }

  /** Splitting is a monoid morphism over the separator: the pieces of
      `a + [sep] + b` are the pieces of `a` followed by those of `b`. */
  lemma {:induction false} SplitAppend(a: string, b: string, sep: char)
    ensures Split(a + [sep] + b, sep) == Split(a, sep) + Split(b, sep)
    decreases |a|
  {
    if |a| == 0 {
      assert a + [sep] + b == [sep] + b;
      SplitSeparatorCons(b, sep);
    } else {
      SplitAppend(a[1..], b, sep);
      SplitAppendStep(a[0], a[1..], b, sep);
      assert [a[0]] + a[1..] == a;
    }
  }

  /** One character in front of both sides keeps `SplitAppend` true. */
  lemma {:induction false} SplitAppendStep(c: char, a: string, b: string, sep: char)
    requires Split(a + [sep] + b, sep) == Split(a, sep) + Split(b, sep)
    ensures Split([c] + a + [sep] + b, sep) == Split([c] + a, sep) + Split(b, sep)
  {
    var tail := a + [sep] + b;
    assert [c] + a + [sep] + b == [c] + tail;
    if c == sep {
      SplitAppendSeparatorStep(tail, a, b, sep);
    } else {
      SplitAppendCharStep(c, tail, a, b, sep);
    }
  }

  lemma {:induction false} SplitAppendSeparatorStep(tail: string, a: string, b: string, sep: char)
    requires Split(tail, sep) == Split(a, sep) + Split(b, sep)
    ensures Split([sep] + tail, sep) == Split([sep] + a, sep) + Split(b, sep)
  {
    SplitSeparatorCons(tail, sep);
    SplitSeparatorCons(a, sep);
    ConsAppend("", Split(a, sep), Split(b, sep));
  }

  lemma {:induction false} SplitAppendCharStep(c: char, tail: string, a: string, b: string, sep: char)
    requires c != sep
    requires Split(tail, sep) == Split(a, sep) + Split(b, sep)
    ensures Split([c] + tail, sep) == Split([c] + a, sep) + Split(b, sep)
  {
    var ra := Split(a, sep);
    var rb := Split(b, sep);
    SplitCons(c, tail, sep);
    SplitCons(c, a, sep);
    GlueFirst([c], ra, rb);
  }

  /** Putting one piece in front of a concatenation of piece lists. */
  lemma {:induction false} ConsAppend(x: string, ra: seq<string>, rb: seq<string>)
    ensures [x] + (ra + rb) == ([x] + ra) + rb
  {
  }

  /** Gluing text onto the first piece of a concatenation of piece lists. */
  lemma {:induction false} GlueFirst(x: string, ra: seq<string>, rb: seq<string>)
    requires |ra| >= 1
    ensures [x + (ra + rb)[0]] + (ra + rb)[1..] == ([x + ra[0]] + ra[1..]) + rb
  {
    assert (ra + rb)[0] == ra[0];
    assert (ra + rb)[1..] == ra[1..] + rb;
  }

  /** Text without the separator splits into itself alone. */
  lemma {:induction false} SplitNoSeparator(s: string, sep: char)
    requires sep !in s
    ensures Split(s, sep) == [s]
    decreases |s|
  {
    if |s| > 0 {
      assert sep !in s[1..];
      SplitNoSeparator(s[1..], sep);
      assert [s[0]] + s[1..] == s;
    }
  }

  /** Splitting inverts joining for pieces free of the separator. */
  lemma {:induction false} SplitJoin(parts: seq<string>, sep: char)
    requires |parts| >= 1
    requires forall i :: 0 <= i < |parts| ==> sep !in parts[i]
    ensures Split(Join(parts, sep), sep) == parts
    decreases |parts|
  {
    if |parts| == 1 {
      SplitNoSeparator(parts[0], sep);
    } else {
      SplitJoin(parts[1..], sep);
      SplitAppend(parts[0], Join(parts[1..], sep), sep);
      SplitNoSeparator(parts[0], sep);
      assert [parts[0]] + parts[1..] == parts;
    }
  }

  /** Appending text to the joined string extends the last piece. */
  lemma {:induction false} JoinExtendLast(parts: seq<string>, sep: char, tail: string)
    requires |parts| >= 1
    ensures Join(parts, sep) + tail
         == Join(parts[..|parts| - 1] + [parts[|parts| - 1] + tail], sep)
    decreases |parts|
  {
    if |parts| > 1 {
      var rest := parts[1..];
      var ext := parts[..|parts| - 1] + [parts[|parts| - 1] + tail];
      var joined := Join(rest, sep);
      assert Join(ext[1..], sep) == joined + tail by {
        JoinExtendLast(rest, sep, tail);
        assert ext[1..] == rest[..|rest| - 1] + [rest[|rest| - 1] + tail];
      }
      assert Join(ext, sep) == parts[0] + [sep] + Join(ext[1..], sep) by {
        assert ext[0] == parts[0];
      }
      assert Join(parts, sep) == parts[0] + [sep] + joined;
      assert (parts[0] + [sep] + joined) + tail == parts[0] + [sep] + (joined + tail);
    }
  }

  /** The list comprehension `[p for p in parts if p]`. */
  function NonEmpty(parts: seq<string>): (r: seq<string>)
    ensures |r| <= |parts|
    ensures forall i :: 0 <= i < |r| ==> r[i] != "" && r[i] in parts
  {
    if |parts| == 0 then []
    else if parts[0] == "" then NonEmpty(parts[1..])
    else [parts[0]] + NonEmpty(parts[1..])
  }

  lemma {:induction false} NonEmptyAppend(a: seq<string>, b: seq<string>)
    ensures NonEmpty(a + b) == NonEmpty(a) + NonEmpty(b)
    decreases |a|
  {
    if |a| > 0 {
      assert (a + b)[1..] == a[1..] + b;
      NonEmptyAppend(a[1..], b);
    } else {
      assert a + b == b;
    }
  }

  lemma {:induction false} NonEmptyIdentity(parts: seq<string>)
    requires forall i :: 0 <= i < |parts| ==> parts[i] != ""
    ensures NonEmpty(parts) == parts
    decreases |parts|
  {
    if |parts| > 0 {
      NonEmptyIdentity(parts[1..]);
      assert [parts[0]] + parts[1..] == parts;
    }
  }

  // ---------------------------------------------------------------------------
  // Decimal rendering (`str(int)`) and parsing (`int(str)`)
  // ---------------------------------------------------------------------------

  function DigitChar(d: nat): (c: char)
    requires d < 10
    ensures IsAsciiDigit(c)
  {
    ('0' as int + d) as char
  }

  function DigitValue(c: char): (d: nat)
    requires IsAsciiDigit(c)
    ensures d < 10
  {
    c as int - '0' as int
  }

  predicate AllDigits(s: string) {
    forall i :: 0 <= i < |s| ==> IsAsciiDigit(s[i])
  }

  /** `str(n)` for a natural number: the shortest decimal numeral. */
  function NatToDecimal(n: nat): (r: string)
    ensures |r| >= 1 && AllDigits(r)
    ensures |r| > 1 ==> r[0] != '0'
    decreases n
  {
    if n < 10 then [DigitChar(n)] else NatToDecimal(n / 10) + [DigitChar(n % 10)]
  }

  /** `str(i)` for an integer: a `-` sign in front of negative numbers. */
  function IntToDecimal(i: int): string {
    if i < 0 then "-" + NatToDecimal(-i) else NatToDecimal(i)
  }

  /** The value of a string of decimal digits (leading zeros allowed). */
  function DecimalValue(s: string): nat
    requires AllDigits(s)
  {
    if |s| == 0 then 0 else 10 * DecimalValue(s[..|s| - 1]) + DigitValue(s[|s| - 1])
  }

  /** Reading back a rendered natural number gives the number. */
  lemma {:induction false} DecimalRoundTrip(n: nat)
    ensures DecimalValue(NatToDecimal(n)) == n
    decreases n
  {
    if n >= 10 {
      DecimalRoundTrip(n / 10);
      var s := NatToDecimal(n);
      assert s[..|s| - 1] == NatToDecimal(n / 10);
    }
  }

  /** Digits with single underscores between them, as `int()` accepts:
      `1_000` is valid, `_1`, `1_` and `1__0` are not. */
  predicate DigitGroups(s: string) {
    && |s| >= 1
    && IsAsciiDigit(s[0])
    && IsAsciiDigit(s[|s| - 1])
    && (forall i :: 0 <= i < |s| ==> IsAsciiDigit(s[i]) || s[i] == '_')
    && (forall i :: 0 <= i < |s| - 1 && s[i] == '_' ==> s[i + 1] != '_')
  }

  lemma {:induction false} UnderscoresRemoved(s: string)
    requires forall i :: 0 <= i < |s| ==> IsAsciiDigit(s[i]) || s[i] == '_'
    ensures AllDigits(RemoveChars(s, {'_'}))
    decreases |s|
  {
    if |s| > 0 {
      UnderscoresRemoved(s[1..]);
    }
  }

  /** The value of unsigned digit groups, or `None` when the text is not one. */
  function ParseDigitGroups(s: string): Option<nat> {
    if DigitGroups(s) then
      UnderscoresRemoved(s);
      Some(DecimalValue(RemoveChars(s, {'_'})))
    else None
  }

  /** Python's `int(s)` on text: surrounding whitespace, an optional sign, then
      digit groups; `None` where Python raises `ValueError`. */
  function ParseInt(s: string): Option<int> {
    var (negative, digits) := SplitSign(Strip(s));
    match ParseDigitGroups(digits)
    case Some(n) => Some(if negative then -(n as int) else n)
    case None => None
  }

  /** An optional leading sign and the text after it. */
  function SplitSign(t: string): (r: (bool, string))
    ensures |r.1| <= |t|
  {
    if |t| > 0 && t[0] == '-' then (true, t[1..])
    else if |t| > 0 && t[0] == '+' then (false, t[1..])
    else (false, t)
  }

  /** Digit text without underscores is a single digit group. */
  lemma {:induction false} DigitsAreDigitGroup(d: string)
    requires |d| >= 1 && AllDigits(d)
    ensures ParseDigitGroups(d) == Some(DecimalValue(d))
  {
    assert DigitGroups(d);
    assert RemoveChars(d, {'_'}) == d;
  }

  /** Text that begins and ends with a non-space character is already stripped. */
  lemma {:induction false} StrippedWhenEndsAreNotSpace(s: string)
    requires |s| >= 1 && !IsPySpace(s[0]) && !IsPySpace(s[|s| - 1])
    ensures Strip(s) == s
  {
    assert DropWhile(s, IsPySpace) == s;
  }

  /** A rendered integer carries no whitespace at either end. */
  lemma {:induction false} RenderedIsStripped(i: int)
    ensures Strip(IntToDecimal(i)) == IntToDecimal(i)
  {
    var s := IntToDecimal(i);
    if i < 0 {
      var d := NatToDecimal(-i);
      assert s == "-" + d;
      assert s[|s| - 1] == d[|d| - 1];
      assert IsAsciiDigit(s[|s| - 1]);
      StrippedWhenEndsAreNotSpace(s);
    } else {
      assert IsAsciiDigit(s[0]) && IsAsciiDigit(s[|s| - 1]);
      StrippedWhenEndsAreNotSpace(s);
    }
  }

  /** Digit text parses to its value. */
  lemma {:induction false} ParseIntOfDigits(d: string)
    requires |d| >= 1 && AllDigits(d)
    ensures ParseInt(d) == Some(DecimalValue(d))
  {
    assert Strip(d) == d by {
      assert IsAsciiDigit(d[0]) && IsAsciiDigit(d[|d| - 1]);
      StrippedWhenEndsAreNotSpace(d);
    }
    assert SplitSign(d) == (false, d) by { assert IsAsciiDigit(d[0]); }
    DigitsAreDigitGroup(d);
  }

  /** Digit text after a `-` parses to the negated value. */
  lemma {:induction false} ParseIntOfNegatedDigits(d: string)
    requires |d| >= 1 && AllDigits(d)
    ensures ParseInt("-" + d) == Some(-(DecimalValue(d) as int))
  {
    var neg := "-" + d;
    assert Strip(neg) == neg && SplitSign(neg) == (true, d) by { NegatedDigitsParts(d); }
    assert ParseDigitGroups(d) == Some(DecimalValue(d)) by { DigitsAreDigitGroup(d); }
    ParseIntOfParts(neg, true, d, DecimalValue(d));
  }

  /** A minus sign followed by digits is already stripped and splits into its sign and digits. */
  lemma {:induction false} NegatedDigitsParts(d: string)
    requires |d| >= 1 && AllDigits(d)
    ensures Strip("-" + d) == "-" + d && SplitSign("-" + d) == (true, d)
  {
    var neg := "-" + d;
    assert neg[|neg| - 1] == d[|d| - 1];
    assert IsAsciiDigit(neg[|neg| - 1]);
    StrippedWhenEndsAreNotSpace(neg);
    assert neg[0] == '-' && neg[1..] == d;
  }

  /** `int(t)` of text that is already stripped, once its sign and digit groups are known. */
  lemma {:induction false} ParseIntOfParts(t: string, negative: bool, digits: string, n: nat)
    requires Strip(t) == t && SplitSign(t) == (negative, digits)
    requires ParseDigitGroups(digits) == Some(n)
    ensures negative ==> ParseInt(t) == Some(-(n as int))
    ensures !negative ==> ParseInt(t) == Some(n as int)
  {
  }

  /** `int(str(i)) == i`: parsing inverts decimal rendering. */
  lemma {:induction false} ParseIntRoundTrip(i: int)
    ensures ParseInt(IntToDecimal(i)) == Some(i)
  {
    if i < 0 {
      var d := NatToDecimal(-i);
      assert IntToDecimal(i) == "-" + d;
      assert DecimalValue(d) == -i by { DecimalRoundTrip(-i); }
      ParseIntOfNegatedDigits(d);
    } else {
      var d := NatToDecimal(i);
      assert IntToDecimal(i) == d;
      assert DecimalValue(d) == i by { DecimalRoundTrip(i); }
      ParseIntOfDigits(d);
    }
  }
}
