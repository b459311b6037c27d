/** Splitting, joining, trimming and searching strings, as Rust's str methods do. */
module Text {
  import opened Options

  // ---- split and join ----

  /** s.split(sep): always at least one part, and one more than there are separators. */
  function Split(s: string, sep: char): (parts: seq<string>)
    ensures |parts| > 0
  {
    if s == "" then [""]
    else
      var rest := Split(s[1..], sep);
      if s[0] == sep then [""] + rest else [[s[0]] + rest[0]] + rest[1..]
  }

  function Join(parts: seq<string>, sep: string): string {
    if parts == [] then ""
    else if |parts| == 1 then parts[0]
    else parts[0] + sep + Join(parts[1..], sep)
  }

  /** Joining undoes splitting. */
  lemma {:induction false} JoinSplit(s: string, sep: char)
    ensures Join(Split(s, sep), [sep]) == s
  {
    if s != "" {
      JoinSplit(s[1..], sep);
      var rest := Split(s[1..], sep);
      var parts := Split(s, sep);
      if s[0] == sep {
        assert parts[1..] == rest;
        assert Join(parts, [sep]) == [sep] + s[1..];
      } else {
        assert parts[1..] == rest[1..];
        assert Join(parts, [sep]) == [s[0]] + Join(rest, [sep]);
      }
    }
  }

  lemma {:induction false} SplitHasNoSeparators(s: string, sep: char)
    ensures forall p :: p in Split(s, sep) ==> sep !in p
  {
    if s != "" {
      SplitHasNoSeparators(s[1..], sep);
      var rest := Split(s[1..], sep);
      assert rest[0] in rest;
      forall p | p in Split(s, sep)
        ensures sep !in p
      {
        if s[0] != sep && p != Split(s, sep)[0] {
          assert p in rest[1..];
          assert p in rest;
        }
      }
    }
  }

  lemma {:induction false} SplitWithout(s: string, sep: char)
    requires sep !in s
    ensures Split(s, sep) == [s]
  {
    if s != "" {
      assert s == [s[0]] + s[1..];
      SplitWithout(s[1..], sep);
      assert Split(s, sep) == [[s[0]] + s[1..]];
    }
  }

  /** Splitting at a separator in the middle splits both sides. */
  lemma {:induction false} SplitConcat(a: string, b: string, sep: char)
    ensures Split(a + [sep] + b, sep) == Split(a, sep) + Split(b, sep)
  {
    var s := a + [sep] + b;
    if a == "" {
      assert s[1..] == b;
    } else {
      assert s[1..] == a[1..] + [sep] + b;
      SplitConcat(a[1..], b, sep);
    }
  }

  lemma {:induction false} JoinConcat(a: seq<string>, b: seq<string>, sep: string)
    requires a != [] && b != []
    ensures Join(a + b, sep) == Join(a, sep) + sep + Join(b, sep)
  {
    assert (a + b)[1..] == a[1..] + b;
    if |a| == 1 {
      assert a[1..] + b == b;
    } else {
      JoinConcat(a[1..], b, sep);
      assert Join(a + b, sep) == a[0] + sep + (Join(a[1..], sep) + sep + Join(b, sep));
    }
  }

  // ---- searching ----

  /** s.find(c): the first position of c. */
  function Find(s: string, c: char): (r: Option<nat>)
    ensures r.Some? ==> r.value < |s| && s[r.value] == c && c !in s[..r.value]
    ensures r.None? <==> c !in s
  {
    if s == "" then None
    else if s[0] == c then Some(0)
    else
      var r := Find(s[1..], c);
      if r.None? then None
      else assert s[..r.value + 1] == [s[0]] + s[1..][..r.value]; Some(r.value + 1)
  }

  /** s.rfind(c): the last position of c. */
  function FindLast(s: string, c: char): (r: Option<nat>)
    ensures r.Some? ==> r.value < |s| && s[r.value] == c && c !in s[r.value + 1..]
    ensures r.None? <==> c !in s
  {
    if s == "" then None
    else if s[|s| - 1] == c then Some(|s| - 1)
    else
      var init := s[..|s| - 1];
      var r := FindLast(init, c);
      assert s == init + [s[|s| - 1]];
      if r.None? then None
      else assert s[r.value + 1..] == init[r.value + 1..] + [s[|s| - 1]]; Some(r.value)
  }

  lemma {:induction false} FindAt(a: string, c: char, rest: string)
    requires c !in a
    ensures Find(a + [c] + rest, c) == Some(|a|)
  {
    if a != "" {
      assert (a + [c] + rest)[1..] == a[1..] + [c] + rest;
      FindAt(a[1..], c, rest);
    }
  }

  lemma {:induction false} FindNotAfter(s: string, c: char, k: nat)
    requires k < |s| && s[k] == c
    ensures Find(s, c).Some? && Find(s, c).value <= k
  {
    if s[0] != c {
      FindNotAfter(s[1..], c, k - 1);
    }
  }

  lemma {:induction false} FindLastAt(a: string, c: char, rest: string)
    requires c !in rest
    ensures FindLast(a + [c] + rest, c) == Some(|a|)
  {
    var s := a + [c] + rest;
    if rest != "" {
      var init := rest[..|rest| - 1];
      assert s[..|s| - 1] == a + [c] + init;
      assert s[|s| - 1] in rest;
      FindLastAt(a, c, init);
    }
  }

  predicate StartsWith(s: string, prefix: string) {
    |prefix| <= |s| && s[..|prefix|] == prefix
  }

  predicate EndsWith(s: string, suffix: string) {
    |suffix| <= |s| && s[|s| - |suffix|..] == suffix
  }

  /** s.strip_prefix(p) */
  function StripPrefix(s: string, prefix: string): Option<string> {
    if StartsWith(s, prefix) then Some(s[|prefix|..]) else None
  }

  /** The prefix test, as a cut of the text. */
  lemma StartsWithIff(s: string, prefix: string)
    ensures StartsWith(s, prefix) <==> exists rest :: s == prefix + rest
  {
    if StartsWith(s, prefix) {
      assert s == prefix + s[|prefix|..];
    }
  }

  /** s.splitn(n, sep): at most n parts, the last one holding the rest. */
  function SplitN(s: string, sep: char, n: nat): (parts: seq<string>)
    requires 0 < n
    ensures 0 < |parts| <= n
  {
    var at := Find(s, sep);
    if n == 1 || at.None? then [s]
    else [s[..at.value]] + SplitN(s[at.value + 1..], sep, n - 1)
  }

  // ---- ASCII case ----

  function LowerChar(c: char): char {
    if 'A' <= c <= 'Z' then c + 32 as char else c
  }

  function Lower(s: string): string {
    if s == "" then "" else [LowerChar(s[0])] + Lower(s[1..])
  }

  /** The same character, or the two cases of one ASCII letter. */
  predicate SameLetter(a: char, b: char) {
    || a == b
    || ('A' <= a <= 'Z' && 'a' <= b <= 'z' && a - 'A' == b - 'a')
    || ('a' <= a <= 'z' && 'A' <= b <= 'Z' && a - 'a' == b - 'A')
  }

  predicate EqualIgnoringCase(a: string, b: string) {
    |a| == |b| && forall i :: 0 <= i < |a| ==> SameLetter(a[i], b[i])
  }

  /** Folding identifies exactly the texts that differ in ASCII case alone. */
  lemma LowerEqualsIff(a: string, b: string)
    ensures Lower(a) == Lower(b) <==> EqualIgnoringCase(a, b)
  {
    LowerAt(a);
    LowerAt(b);
    if Lower(a) == Lower(b) {
      forall i | 0 <= i < |a|
        ensures SameLetter(a[i], b[i])
      {
        assert LowerChar(a[i]) == Lower(a)[i] == LowerChar(b[i]);
      }
    }
    if EqualIgnoringCase(a, b) {
      assert forall i :: 0 <= i < |a| ==> LowerChar(a[i]) == LowerChar(b[i]);
    }
  }

  lemma {:induction false} LowerAt(s: string)
    ensures |Lower(s)| == |s| && forall i :: 0 <= i < |s| ==> Lower(s)[i] == LowerChar(s[i])
  {
    if s != "" {
      LowerAt(s[1..]);
    }
  }

  lemma LowerConcat(a: string, b: string)
    ensures Lower(a + b) == Lower(a) + Lower(b)
  {
    LowerAt(a);
    LowerAt(b);
    LowerAt(a + b);
  }

  /** Folding leaves the cuts of a text where they are. */
  lemma LowerSlice(s: string, i: nat, j: nat)
    requires i <= j <= |s|
    ensures |Lower(s)| == |s| && Lower(s)[i..j] == Lower(s[i..j])
  {
    LowerAt(s);
    LowerAt(s[i..j]);
  }

  function LowerAll(parts: seq<string>): (r: seq<string>)
    ensures |r| == |parts|
  {
    if parts == [] then [] else [Lower(parts[0])] + LowerAll(parts[1..])
  }

  lemma {:induction false} LowerAllAt(parts: seq<string>, i: nat)
    requires i < |parts|
    ensures LowerAll(parts)[i] == Lower(parts[i])
  {
    if i > 0 {
      LowerAllAt(parts[1..], i - 1);
    }
  }

  lemma {:induction false} LowerAllConcat(a: seq<string>, b: seq<string>)
    ensures LowerAll(a + b) == LowerAll(a) + LowerAll(b)
  {
    if a == [] {
      assert a + b == b;
    } else {
      assert (a + b)[1..] == a[1..] + b;
      LowerAllConcat(a[1..], b);
    }
  }

  /** Folding case and splitting at a caseless separator commute. */
  lemma {:induction false} SplitLower(s: string, sep: char)
    requires !('A' <= sep <= 'Z') && !('a' <= sep <= 'z')
    ensures Split(Lower(s), sep) == LowerAll(Split(s, sep))
  {
    if s != "" {
      SplitLower(s[1..], sep);
      var rest := Split(s[1..], sep);
      assert Lower(s)[0] == LowerChar(s[0]) && Lower(s)[1..] == Lower(s[1..]);
      if s[0] == sep {
        assert ([""] + rest)[1..] == rest;
      } else {
        var first := [s[0]] + rest[0];
        assert first[1..] == rest[0];
        assert Lower(first) == [LowerChar(s[0])] + Lower(rest[0]);
        assert ([first] + rest[1..])[1..] == rest[1..];
      }
    }
  }

  // ---- trimming ----

  /** The characters with the Unicode White_Space property. */
  predicate IsWhitespace(c: char) {
    || '\t' <= c <= '\r'
    || c == ' '
    || c == '\U{85}' || c == '\U{A0}' || c == '\U{1680}'
    || '\U{2000}' <= c <= '\U{200A}'
    || c == '\U{2028}' || c == '\U{2029}' || c == '\U{202F}' || c == '\U{205F}' || c == '\U{3000}'
  }

  const WHITE_SPACE: seq<int> := [0x9, 0xA, 0xB, 0xC, 0xD, 0x20, 0x85, 0xA0, 0x1680, 0x2000, 0x2001, 0x2002, 0x2003,
                                  0x2004, 0x2005, 0x2006, 0x2007, 0x2008, 0x2009, 0x200A, 0x2028, 0x2029, 0x202F,
                                  0x205F, 0x3000]

  /** They are the code points PropList.txt of the Unicode character database lists. */
  lemma WhitespaceIff(c: char)
    ensures IsWhitespace(c) <==> c as int in WHITE_SPACE
  {
    if '\t' <= c <= '\r' {
      assert WHITE_SPACE[c as int - 0x9] == c as int;
    } else if '\U{2000}' <= c <= '\U{200A}' {
      assert WHITE_SPACE[9 + (c as int - 0x2000)] == c as int;
    } else if IsWhitespace(c) {
      assert c as int in [WHITE_SPACE[5], WHITE_SPACE[6], WHITE_SPACE[7], WHITE_SPACE[8], WHITE_SPACE[20],
                          WHITE_SPACE[21], WHITE_SPACE[22], WHITE_SPACE[23], WHITE_SPACE[24]];
    }
  }

  predicate Blank(s: string) {
    forall i :: 0 <= i < |s| ==> IsWhitespace(s[i])
  }

  function TrimStart(s: string): (r: string)
    ensures r != "" ==> !IsWhitespace(r[0])
    ensures forall c :: c in r ==> c in s
  {
    if s != "" && IsWhitespace(s[0]) then TrimStart(s[1..]) else s
  }

  function TrimEnd(s: string): (r: string)
    ensures r != "" ==> !IsWhitespace(r[|r| - 1])
    ensures StartsWith(s, r)
  {
    if s != "" && IsWhitespace(s[|s| - 1]) then TrimEnd(s[..|s| - 1]) else s
  }

  predicate IsTrimmed(s: string) {
    s == "" || (!IsWhitespace(s[0]) && !IsWhitespace(s[|s| - 1]))
  }

  /** s.trim() */
  function Trim(s: string): (r: string)
    ensures IsTrimmed(r)
    ensures IsTrimmed(s) ==> r == s
    ensures forall c :: c in r ==> c in s
  {
    var t := TrimStart(s);
    var r := TrimEnd(t);
    assert r <= t;
    r
  }

  lemma {:induction false} TrimStartDrops(s: string) returns (front: string)
    ensures Blank(front) && s == front + TrimStart(s)
  {
    front := "";
    if s != "" && IsWhitespace(s[0]) {
      var rest := TrimStartDrops(s[1..]);
      front := [s[0]] + rest;
    }
  }

  lemma {:induction false} TrimEndDrops(s: string) returns (back: string)
    ensures Blank(back) && s == TrimEnd(s) + back
  {
    back := "";
    if s != "" && IsWhitespace(s[|s| - 1]) {
      var rest := TrimEndDrops(s[..|s| - 1]);
      back := rest + [s[|s| - 1]];
    }
  }

  /** Trimming takes whitespace off both ends, all of it, and nothing else. */
  lemma TrimIff(s: string, r: string)
    ensures Trim(s) == r <==>
              IsTrimmed(r) && exists front, back :: Blank(front) && Blank(back) && s == front + r + back
  {
    hide TrimStart, TrimEnd, IsWhitespace;
    var t := Trimmed(s);
    forall front, back | IsTrimmed(r) && Blank(front) && Blank(back) && s == front + r + back
      ensures Trim(s) == r
    {
      TrimIsUnique(t.0, Trim(s), t.1, front, r, back);
    }
  }

  lemma Trimmed(s: string) returns (ends: (string, string))
    ensures Blank(ends.0) && Blank(ends.1) && s == ends.0 + Trim(s) + ends.1
  {
    var front := TrimStartDrops(s);
    var back := TrimEndDrops(TrimStart(s));
    ends := (front, back);
    assert s == front + (Trim(s) + back);
  }

  lemma TrimIsUnique(a: string, r: string, b: string, a': string, r': string, b': string)
    requires Blank(a) && Blank(b) && Blank(a') && Blank(b') && IsTrimmed(r) && IsTrimmed(r')
    requires a + r + b == a' + r' + b'
    ensures r == r'
  {
    hide IsWhitespace;
    var s := a + r + b;
    if r != "" {
      BlankEndsStop(s, |a|, a', r' + b');
      BlankEndsStop(s, |a| + |r| - 1, a' + r', b');
    }
    if r' != "" {
      BlankEndsStop(s, |a'|, a, r + b);
      BlankEndsStop(s, |a'| + |r'| - 1, a + r, b);
    }
    assert r == s[|a|..|a| + |r|] && r' == s[|a'|..|a'| + |r'|];
  }

  /** Blank text at either end stops at a character that is not. */
  lemma BlankEndsStop(s: string, k: nat, front: string, back: string)
    requires k < |s| && !IsWhitespace(s[k]) && s == front + back
    ensures Blank(front) ==> |front| <= k
    ensures Blank(back) ==> k < |front|
  {
    hide IsWhitespace;
    assert k < |front| ==> s[k] == front[k];
    assert k >= |front| ==> s[k] == back[k - |front|];
  }

  // ---- decimal numbers ----

  function Digit(d: nat): char
    requires d < 10
  {
    '0' + d as char
  }

  function Print(n: nat): (s: string)
    ensures s != ""
    ensures forall c :: c in s ==> '0' <= c <= '9'
  {
    if n < 10 then [Digit(n)] else Print(n / 10) + [Digit(n % 10)]
  }

  function Digits(s: string, acc: nat): Option<nat> {
    if s == "" then Some(acc)
    else if '0' <= s[0] <= '9' then Digits(s[1..], 10 * acc + (s[0] - '0') as nat)
    else None
  }

  /** s.parse::<uN>() for an unsigned type with the given exclusive limit: an optional plus sign, then digits. */
  function ParseUnsigned(s: string, limit: nat): Option<nat> {
    var body := if StartsWith(s, "+") then s[1..] else s;
    if body == "" then None
    else
      var n := Digits(body, 0);
      if n.Some? && n.value < limit then n else None
  }

  predicate AllDigits(s: string) {
    forall i :: 0 <= i < |s| ==> '0' <= s[i] <= '9'
  }

  /** What a decimal numeral stands for, the last digit being the units. */
  function Decimal(s: string): nat
    requires AllDigits(s)
  {
    if s == "" then 0
    else
      var last := s[|s| - 1];
      10 * Decimal(s[..|s| - 1]) + (last - '0') as nat
  }

  lemma {:induction false} DigitsIffNumeral(s: string)
    ensures Digits(s, 0).Some? <==> AllDigits(s)
    ensures AllDigits(s) ==> Digits(s, 0) == Some(Decimal(s))
  {
    if s != "" {
      var init, last := s[..|s| - 1], s[|s| - 1];
      DigitsIffNumeral(init);
      assert s == init + [last];
      assert AllDigits(s) <==> AllDigits(init) && '0' <= last <= '9' by {
        assert forall i :: 0 <= i < |init| ==> init[i] == s[i];
      }
      if '0' <= last <= '9' {
        assert last == Digit((last - '0') as nat);
      }
      DigitsLast(init, 0, last);
    }
  }

  lemma {:induction false} DigitsLast(s: string, acc: nat, c: char)
    ensures Digits(s + [c], acc) ==
            if Digits(s, acc).Some? && '0' <= c <= '9' then Some(10 * Digits(s, acc).value + (c - '0') as nat)
            else None
  {
    if s == "" {
      assert ([] + [c])[1..] == "";
    } else {
      assert (s + [c])[1..] == s[1..] + [c];
      if '0' <= s[0] <= '9' {
        DigitsLast(s[1..], 10 * acc + (s[0] - '0') as nat, c);
      }
    }
  }

  /** The texts that parse: an optional plus sign and a numeral below the limit. */
  lemma ParseUnsignedIff(s: string, limit: nat, n: nat)
    ensures ParseUnsigned(s, limit) == Some(n) <==>
              var body := if s != "" && s[0] == '+' then s[1..] else s;
              body != "" && AllDigits(body) && Decimal(body) == n && n < limit
  {
    hide Digits;
    var body := if s != "" && s[0] == '+' then s[1..] else s;
    assert StartsWith(s, "+") <==> s != "" && s[0] == '+';
    DigitsIffNumeral(body);
  }

  /** A printed number is its numeral without leading zeros. */
  lemma {:induction false} PrintIsNumeral(n: nat)
    ensures AllDigits(Print(n)) && Decimal(Print(n)) == n
    ensures n > 0 ==> Print(n)[0] != '0'
  {
    if n >= 10 {
      PrintIsNumeral(n / 10);
      var s := Print(n);
      assert s[..|s| - 1] == Print(n / 10);
    } else {
      assert Print(n)[..0] == "";
    }
  }

  lemma {:induction false} DigitsAppend(s: string, acc: nat, d: nat)
    requires d < 10 && Digits(s, acc).Some?
    ensures Digits(s + [Digit(d)], acc) == Some(10 * Digits(s, acc).value + d)
  {
    if s == "" {
      assert ([] + [Digit(d)])[1..] == "";
    } else {
      assert (s + [Digit(d)])[1..] == s[1..] + [Digit(d)];
      DigitsAppend(s[1..], 10 * acc + (s[0] - '0') as nat, d);
    }
  }

  lemma {:induction false} DigitsPrint(n: nat)
    ensures Digits(Print(n), 0) == Some(n)
  {
    if n >= 10 {
      DigitsPrint(n / 10);
      DigitsAppend(Print(n / 10), 0, n % 10);
    } else {
      assert Print(n)[1..] == "";
    }
  }

  /** Parsing undoes printing. */
  lemma ParsePrint(n: nat, limit: nat)
    requires n < limit
    ensures ParseUnsigned(Print(n), limit) == Some(n)
  {
    DigitsPrint(n);
    assert Print(n)[0] in Print(n);
  }
}
