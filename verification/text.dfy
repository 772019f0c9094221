/** String primitives the back office leans on, with the semantics of the
    runtime that executes them: .NET on the server (`string.Trim`,
    `IsNullOrWhiteSpace`, `ToLowerInvariant`, `Split`, `Replace`) and
    JavaScript in the browser (`trim`, `toLowerCase`, `includes`). */
module Text {

  // ---------------------------------------------------------------- whitespace

  /** Characters JavaScript's `trim()` and the regex class `\s` treat as space. */
  predicate IsJsSpace(c: char)
  {
    c == ' ' || c == '\t' || c == '\n' || c == '\U{000B}' || c == '\U{000C}' || c == '\r'
    || c == '\U{00A0}' || c == '\U{FEFF}' || c == '\U{1680}'
    || ('\U{2000}' <= c <= '\U{200A}')
    || c == '\U{2028}' || c == '\U{2029}' || c == '\U{202F}' || c == '\U{205F}' || c == '\U{3000}'
  }

  /** Characters .NET's `char.IsWhiteSpace` accepts (used by `Trim()` and
      `string.IsNullOrWhiteSpace`).  Unlike JavaScript it includes U+0085 and
      excludes U+FEFF. */
  predicate IsNetSpace(c: char)
  {
    ('\t' <= c <= '\r') || c == ' ' || c == '\U{0085}' || c == '\U{00A0}' || c == '\U{1680}'
    || ('\U{2000}' <= c <= '\U{200A}')
    || c == '\U{2028}' || c == '\U{2029}' || c == '\U{202F}' || c == '\U{205F}' || c == '\U{3000}'
  }

  /** Every character of `s` satisfies `sp`. */
  predicate AllSpace(s: string, sp: char -> bool)
  {
    forall i | 0 <= i < |s| :: sp(s[i])
  }

  /** `s` is `r` found at offset `i`, with only `sp` characters before and
      after it: what trimming may cut away. */
  predicate Framed(s: string, r: string, i: int, sp: char -> bool)
  {
    0 <= i <= |s| - |r| && r == s[i..i + |r|] && AllSpace(s[..i], sp) && AllSpace(s[i + |r|..], sp)
  }

  /** The test "is the character `c`". */
  function Is(c: char): char -> bool
  {
    x => x == c
  }

  /** Removes the leading characters satisfying `sp`. */
  function TrimStart(s: string, sp: char -> bool): (r: string)
    ensures |r| <= |s| && r == s[|s| - |r|..]
    ensures AllSpace(s[..|s| - |r|], sp)
    ensures |r| > 0 ==> !sp(r[0])
    decreases |s|
  {
    if |s| == 0 || !sp(s[0]) then s
    else
      var t := TrimStart(s[1..], sp);
      assert s[..|s| - |t|] == [s[0]] + s[1..][..|s| - 1 - |t|];
      t
  }

  /** Removes the trailing characters satisfying `sp`. */
  function TrimEnd(s: string, sp: char -> bool): (r: string)
    ensures |r| <= |s| && r == s[..|r|]
    ensures AllSpace(s[|r|..], sp)
    ensures |r| > 0 ==> !sp(r[|r| - 1])
    decreases |s|
  {
    if |s| == 0 || !sp(s[|s| - 1]) then s
    else
      var t := TrimEnd(s[..|s| - 1], sp);
      assert s[|t|..] == s[..|s| - 1][|t|..] + [s[|s| - 1]];
      t
  }

  /** Removes leading and trailing characters satisfying `sp`. */
  function Trim(s: string, sp: char -> bool): (r: string)
    ensures |r| <= |s|
    ensures |r| > 0 ==> !sp(r[0]) && !sp(r[|r| - 1])
    ensures exists i :: Framed(s, r, i, sp)
  {
    var a := TrimStart(s, sp);
    var r := TrimEnd(a, sp);
    var i := |s| - |a|;
    assert r == s[i..i + |r|] && s[i + |r|..] == a[|r|..];
    assert Framed(s, r, i, sp);
    r
  }

  /** The contract of `Trim` leaves no choice: two texts framed by spaces in
      `s` whose ends are not spaces are the same text. */
  lemma FramedUnique(s: string, r1: string, i1: int, r2: string, i2: int, sp: char -> bool)
    requires Framed(s, r1, i1, sp) && (|r1| > 0 ==> !sp(r1[0]) && !sp(r1[|r1| - 1]))
    requires Framed(s, r2, i2, sp) && (|r2| > 0 ==> !sp(r2[0]) && !sp(r2[|r2| - 1]))
    ensures r1 == r2
  {
    if |r1| > 0 && |r2| > 0 {
      StartsAtFirstNonSpace(s, r1, i1, r2, i2, sp);
      StartsAtFirstNonSpace(s, r2, i2, r1, i1, sp);
      EndsAtLastNonSpace(s, r1, i1, r2, i2, sp);
      EndsAtLastNonSpace(s, r2, i2, r1, i1, sp);
    } else if |r1| > 0 {
      NoNonSpaceOutside(s, r2, i2, sp, i1);
    } else if |r2| > 0 {
      NoNonSpaceOutside(s, r1, i1, sp, i2);
    }
  }

  /** A framed text with a non-space first character starts no later than
      any other framed text that is not empty. */
  lemma StartsAtFirstNonSpace(s: string, r1: string, i1: int, r2: string, i2: int, sp: char -> bool)
    requires Framed(s, r1, i1, sp) && |r1| > 0 && !sp(r1[0])
    requires Framed(s, r2, i2, sp) && |r2| > 0 && !sp(r2[|r2| - 1])
    ensures i2 <= i1
  {
  }

  /** Likewise at the other end. */
  lemma EndsAtLastNonSpace(s: string, r1: string, i1: int, r2: string, i2: int, sp: char -> bool)
    requires Framed(s, r1, i1, sp) && |r1| > 0 && !sp(r1[|r1| - 1])
    requires Framed(s, r2, i2, sp) && |r2| > 0 && !sp(r2[0])
    ensures i1 + |r1| <= i2 + |r2|
  {
  }

  /** An empty framed text means every character is a space. */
  lemma NoNonSpaceOutside(s: string, r: string, i: int, sp: char -> bool, k: int)
    requires Framed(s, r, i, sp) && |r| == 0 && 0 <= k < |s|
    ensures sp(s[k])
  {
    if k < i {
      assert s[..i][k] == s[k];
    } else {
      assert s[i..][k - i] == s[k];
    }
  }

  /** `Trim` is characterised by its contract: any text framed by spaces in
      `s` whose ends are not spaces is the trim of `s`. */
  lemma TrimIsFramedCore(s: string, r: string, i: int, sp: char -> bool)
    requires Framed(s, r, i, sp) && (|r| > 0 ==> !sp(r[0]) && !sp(r[|r| - 1]))
    ensures r == Trim(s, sp)
  {
    var t := Trim(s, sp);
    var j :| Framed(s, t, j, sp);
    FramedUnique(s, r, i, t, j, sp);
  }

  /** JavaScript `s.trim()`. */
  function JsTrim(s: string): string
  {
    Trim(s, IsJsSpace)
  }

  /** A string is empty after trimming exactly when it consists of spaces only:
      the test every page applies as `!field.trim()`. */
  lemma TrimEmptyIffAllSpace(s: string, sp: char -> bool)
    ensures |Trim(s, sp)| == 0 <==> AllSpace(s, sp)
  {
    var a := TrimStart(s, sp);
    var r := Trim(s, sp);
    if |r| == 0 {
      assert a[|r|..] == a;
      assert |a| == 0;
      assert s[..|s|] == s;
    } else {
      assert r == a[..|r|];
      assert a == s[|s| - |a|..];
      assert !sp(s[|s| - |a|]);
    }
  }

  /** .NET `string.IsNullOrWhiteSpace`, the model of `[Required]` on a string. */
  predicate NetBlank(s: string)
  {
    AllSpace(s, IsNetSpace)
  }

  /** JavaScript `!s.trim()`. */
  predicate JsBlank(s: string)
  {
    |JsTrim(s)| == 0
  }

  // ------------------------------------------------------------------ lengths

  /** `string.Length` in .NET and `.length` in JavaScript: the number of
      UTF-16 code units, two for a character outside the Basic Multilingual
      Plane. */
  function Utf16Length(s: string): (n: nat)
    ensures |s| <= n <= 2 * |s|
    ensures n == |s| <==> forall i | 0 <= i < |s| :: s[i] <= '\U{FFFF}'
    ensures n == 2 * |s| <==> forall i | 0 <= i < |s| :: s[i] > '\U{FFFF}'
  {
    if |s| == 0 then 0
    else
      var n := (if s[0] <= '\U{FFFF}' then 1 else 2) + Utf16Length(s[1..]);
      assert forall i | 1 <= i < |s| :: s[i] == s[1..][i - 1];
      n
  }

  /** Code units add up over a concatenation. */
  lemma {:induction false} Utf16LengthConcat(a: string, b: string)
    ensures Utf16Length(a + b) == Utf16Length(a) + Utf16Length(b)
    decreases |a|
  {
    if |a| > 0 {
      assert (a + b)[1..] == a[1..] + b;
      Utf16LengthConcat(a[1..], b);
    } else {
      assert a + b == b;
    }
  }

  // ------------------------------------------------------------- case mapping

  /** Upper-case letters of ASCII and Latin-1 (À..Þ without ×) plus Ÿ. */
  predicate IsUpperLetter(c: char)
  {
    ('A' <= c <= 'Z') || ('\U{00C0}' <= c <= '\U{00DE}' && c != '\U{00D7}') || c == '\U{0178}'
  }

  /** Lower-case letters of ASCII and Latin-1 (à..þ without ÷) plus ÿ. */
  predicate IsLowerLetter(c: char)
  {
    ('a' <= c <= 'z') || ('\U{00E0}' <= c <= '\U{00FE}' && c != '\U{00F7}') || c == '\U{00FF}'
  }

  function LowerChar(c: char): (r: char)
    ensures IsUpperLetter(c) ==> IsLowerLetter(r)
    ensures !IsUpperLetter(c) ==> r == c
  {
    if c == '\U{0178}' then '\U{00FF}'
    else if IsUpperLetter(c) then (c as int + 32) as char
    else c
  }

  function UpperChar(c: char): (r: char)
    ensures IsLowerLetter(c) ==> IsUpperLetter(r)
    ensures !IsLowerLetter(c) ==> r == c
  {
    if c == '\U{00FF}' then '\U{0178}'
    else if IsLowerLetter(c) then (c as int - 32) as char
    else c
  }

  /** Mapping to lower case forgets the case of a letter and nothing else. */
  lemma LowerUpperChar(c: char)
    ensures LowerChar(UpperChar(c)) == LowerChar(c)
    ensures UpperChar(LowerChar(c)) == UpperChar(c)
    ensures IsLowerLetter(c) ==> LowerChar(UpperChar(c)) == c
  {
  }

  /** `ToLower()` / `ToLowerInvariant()` / `toLowerCase()` over the modelled letters. */
  function Lower(s: string): (r: string)
    ensures |r| == |s|
    ensures forall i | 0 <= i < |s| :: r[i] == LowerChar(s[i])
  {
    seq(|s|, i requires 0 <= i < |s| => LowerChar(s[i]))
  }

  /** `ToUpper()` over the modelled letters. */
  function Upper(s: string): (r: string)
    ensures |r| == |s|
    ensures forall i | 0 <= i < |s| :: r[i] == UpperChar(s[i])
  {
    seq(|s|, i requires 0 <= i < |s| => UpperChar(s[i]))
  }

  /** Lower-casing is idempotent, so comparing `a.ToLower() == b.ToLower()`
      is an equivalence relation. */
  lemma LowerIdempotent(s: string)
    ensures Lower(Lower(s)) == Lower(s)
  {
  }

  /** Lower-casing distributes over concatenation. */
  lemma LowerConcat(a: string, b: string)
    ensures Lower(a + b) == Lower(a) + Lower(b)
  {
  }

  // ---------------------------------------------------------------- substrings

  /** `sub` occurs in `s` at position `i`. */
  predicate OccursAt(s: string, sub: string, i: int)
  {
    0 <= i && i + |sub| <= |s| && s[i..i + |sub|] == sub
  }

  /** JavaScript `s.includes(sub)`, scanning left to right. */
  function Includes(s: string, sub: string): (b: bool)
    ensures b ==> |sub| <= |s|
    ensures |sub| == 0 ==> b
    decreases |s|
  {
    if |sub| > |s| then false
    else if sub <= s then true
    else Includes(s[1..], sub)
  }

  /** The scan finds `sub` exactly when it occurs somewhere in `s`. */
  lemma {:induction false} IncludesIffOccurs(s: string, sub: string)
    ensures Includes(s, sub) <==> exists i :: OccursAt(s, sub, i)
    decreases |s|
  {
    if |sub| > |s| {
    } else if sub <= s {
      assert OccursAt(s, sub, 0);
    } else {
      IncludesIffOccurs(s[1..], sub);
      if Includes(s[1..], sub) {
        var i :| OccursAt(s[1..], sub, i);
        assert s[i + 1..i + 1 + |sub|] == s[1..][i..i + |sub|];
        assert OccursAt(s, sub, i + 1);
      } else {
        forall i | 0 <= i ensures !OccursAt(s, sub, i) {
          if i == 0 && |sub| <= |s| {
            assert s[i..i + |sub|] == s[..|sub|];
          } else if i > 0 && i + |sub| <= |s| {
            assert s[1..][i - 1..i - 1 + |sub|] == s[i..i + |sub|];
            assert !OccursAt(s[1..], sub, i - 1);
          }
        }
      }
    }
  }

  // ---------------------------------------------------------- character edits

  /** `s.Replace(a, b)` for one-character strings. */
  function ReplaceChar(s: string, a: char, b: char): (r: string)
    ensures |r| == |s|
    ensures forall i | 0 <= i < |s| :: r[i] == (if s[i] == a then b else s[i])
  {
    seq(|s|, i requires 0 <= i < |s| => if s[i] == a then b else s[i])
  }

  /** After replacing every `a`, no `a` is left (when `a != b`). */
  lemma ReplaceCharRemoves(s: string, a: char, b: char)
    requires a != b
    ensures a !in ReplaceChar(s, a, b)
  {
    var r := ReplaceChar(s, a, b);
    forall i | 0 <= i < |r| ensures r[i] != a {
    }
  }

  /** `s.TrimStart(c)`: drops every leading `c`. */
  function TrimStartChar(s: string, c: char): (r: string)
    ensures |r| <= |s| && r == s[|s| - |r|..]
    ensures forall i | 0 <= i < |s| - |r| :: s[i] == c
    ensures |r| > 0 ==> r[0] != c
    decreases |s|
  {
    if |s| > 0 && s[0] == c then TrimStartChar(s[1..], c) else s
  }

  /** `s.TrimEnd(c)`: drops every trailing `c`. */
  function TrimEndChar(s: string, c: char): (r: string)
    ensures |r| <= |s| && r == s[..|r|]
    ensures forall i | |r| <= i < |s| :: s[i] == c
    ensures |r| > 0 ==> r[|r| - 1] != c
    decreases |s|
  {
    if |s| > 0 && s[|s| - 1] == c then TrimEndChar(s[..|s| - 1], c) else s
  }

  /** `s.Trim(c)`: drops `c` from both ends. */
  function TrimChar(s: string, c: char): (r: string)
    ensures |r| <= |s|
    ensures |r| > 0 ==> r[0] != c && r[|r| - 1] != c
    ensures exists i :: Framed(s, r, i, Is(c))
  {
    var a := TrimStartChar(s, c);
    var r := TrimEndChar(a, c);
    FramedByRuns(s, a, r, c);
    r
  }

  /** `TrimChar` is characterised by its contract: any text framed by `c` in
      `s` that neither starts nor ends with `c` is the trim of `s`. */
  lemma TrimCharIsFramedCore(s: string, r: string, i: int, c: char)
    requires Framed(s, r, i, Is(c)) && (|r| > 0 ==> r[0] != c && r[|r| - 1] != c)
    ensures r == TrimChar(s, c)
  {
    var t := TrimChar(s, c);
    var j :| Framed(s, t, j, Is(c));
    FramedUnique(s, r, i, t, j, Is(c));
  }

  /** Cutting a run of `c` from the front and then from the back of `s`
      leaves the rest framed by `c` in `s`. */
  lemma FramedByRuns(s: string, a: string, r: string, c: char)
    requires |a| <= |s| && a == s[|s| - |a|..] && forall k | 0 <= k < |s| - |a| :: s[k] == c
    requires |r| <= |a| && r == a[..|r|] && forall k | |r| <= k < |a| :: a[k] == c
    ensures Framed(s, r, |s| - |a|, Is(c))
  {
    var i := |s| - |a|;
    assert r == s[i..i + |r|];
    RunOf(s, 0, i, c);
    RunOf(a, |r|, |a|, c);
    assert s[i + |r|..] == a[|r|..];
  }


  /** A stretch of copies of `c` consists of characters passing `Is(c)`. */
  lemma RunOf(s: string, lo: int, hi: int, c: char)
    requires 0 <= lo <= hi <= |s|
    requires forall k | lo <= k < hi :: s[k] == c
    ensures AllSpace(s[lo..hi], Is(c))
  {
    forall k | 0 <= k < hi - lo ensures Is(c)(s[lo..hi][k]) {
      assert s[lo..hi][k] == s[lo + k];
    }
  }



  /** Trimming keeps the inner part intact: a string that neither starts nor
      ends with `c` is its own trim, and trimming twice is trimming once. */
  lemma TrimCharFixpoint(s: string, c: char)
    ensures (|s| == 0 || (s[0] != c && s[|s| - 1] != c)) ==> TrimChar(s, c) == s
    ensures TrimChar(TrimChar(s, c), c) == TrimChar(s, c)
  {
  }

  // ------------------------------------------------------------ split and join

  /** Position of the first `c` in `s`. */
  function IndexOf(s: string, c: char): (k: nat)
    requires c in s
    ensures k < |s| && s[k] == c && c !in s[..k]
  {
    if s[0] == c then 0 else 1 + IndexOf(s[1..], c)
  }

  /** `s.Split(c)`: the pieces between occurrences of `c`, in order. */
  function Split(s: string, c: char): (r: seq<string>)
    ensures |r| >= 1
    ensures forall i | 0 <= i < |r| :: c !in r[i]
    decreases |s|
  {
    if c !in s then [s]
    else
      var k := IndexOf(s, c);
      [s[..k]] + Split(s[k + 1..], c)
  }

  /** `string.Join(c, parts)`. */
  function Join(parts: seq<string>, c: char): (r: string)
    ensures |parts| == 1 ==> r == parts[0]
  {
    if |parts| == 0 then ""
    else if |parts| == 1 then parts[0]
    else parts[0] + [c] + Join(parts[1..], c)
  }

  /** JavaScript `parts.join(sep)` with a multi-character separator. */
  function JoinWith(parts: seq<string>, sep: string): string
  {
    if |parts| == 0 then ""
    else if |parts| == 1 then parts[0]
    else parts[0] + sep + JoinWith(parts[1..], sep)
  }

  /** Joining the pieces of a split gives back the original string. */
  lemma {:induction false} JoinSplit(s: string, c: char)
    ensures Join(Split(s, c), c) == s
    decreases |s|
  {
    if c in s {
      var k := IndexOf(s, c);
      JoinSplit(s[k + 1..], c);
      var rest := Split(s[k + 1..], c);
      assert Split(s, c) == [s[..k]] + rest;
      assert ([s[..k]] + rest)[1..] == rest;
      assert s == s[..k] + [c] + s[k + 1..];
    }
  }

  /** Splitting a join of separator-free pieces gives back the pieces. */
  lemma {:induction false} SplitJoin(parts: seq<string>, c: char)
    requires |parts| >= 1
    requires forall i | 0 <= i < |parts| :: c !in parts[i]
    ensures Split(Join(parts, c), c) == parts
    decreases |parts|
  {
    if |parts| > 1 {
      var rest := Join(parts[1..], c);
      var s := parts[0] + [c] + rest;
      assert s[|parts[0]|] == c;
      IndexOfAfterFree(parts[0], c, rest);
      assert s[..|parts[0]|] == parts[0];
      assert s[|parts[0]| + 1..] == rest;
      SplitJoin(parts[1..], c);
    }
  }

  lemma IndexOfAfterFree(a: string, c: char, b: string)
    requires c !in a
    ensures c in a + [c] + b && IndexOf(a + [c] + b, c) == |a|
  {
    var s := a + [c] + b;
    assert s[|a|] == c;
    var k := IndexOf(s, c);
  }

  // --------------------------------------------------------- decimal numerals

  predicate IsDigit(c: char)
  {
    '0' <= c <= '9'
  }

  predicate AllDigits(s: string)
  {
    forall i | 0 <= i < |s| :: IsDigit(s[i])
  }

  function DigitChar(d: nat): (c: char)
    requires d < 10
    ensures IsDigit(c) && c as int - '0' as int == d
  {
    ('0' as int + d) as char
  }

  /** The decimal rendering of a natural number (`ToString()`, `${n}`). */
  function NatToString(n: nat): (r: string)
    ensures |r| >= 1 && AllDigits(r)
    ensures |r| > 1 ==> r[0] != '0'
    decreases n
  {
    if n < 10 then [DigitChar(n)] else NatToString(n / 10) + [DigitChar(n % 10)]
  }

  /** The value of a decimal numeral (leading zeros allowed). */
  function ParseNat(s: string): nat
    requires AllDigits(s)
  {
    if |s| == 0 then 0 else ParseNat(s[..|s| - 1]) * 10 + (s[|s| - 1] as int - '0' as int)
  }

  /** Rendering a number and reading it back gives the number. */
  lemma {:induction false} ParseNatToString(n: nat)
    ensures ParseNat(NatToString(n)) == n
    decreases n
  {
    if n >= 10 {
      ParseNatToString(n / 10);
      var s := NatToString(n);
      assert s[..|s| - 1] == NatToString(n / 10);
    }
  }

  /** Distinct numbers render differently, so ids in file names never collide. */
  lemma NatToStringInjective(m: nat, n: nat)
    ensures NatToString(m) == NatToString(n) ==> m == n
  {
    ParseNatToString(m);
    ParseNatToString(n);
  }

  /** Leading zeros do not change the value of a numeral. */
  lemma {:induction false} ParseNatLeadingZero(s: string)
    requires AllDigits(s)
    ensures AllDigits("0" + s) && ParseNat("0" + s) == ParseNat(s)
    decreases |s|
  {
    if |s| > 0 {
      var t := "0" + s;
      assert t[..|t| - 1] == "0" + s[..|s| - 1];
      ParseNatLeadingZero(s[..|s| - 1]);
    }
  }

  /** An integer rendered the JavaScript/.NET way, with a leading '-'. */
  function IntToString(i: int): (r: string)
    ensures |r| >= 1
    ensures i < 0 <==> r[0] == '-'
  {
    if i < 0 then "-" + NatToString(-i) else NatToString(i)
  }

  /** Left-pads `s` with `c` up to width `w` (the `dd`, `MM`, `yyyy` formats). */
  function PadLeft(s: string, w: nat, c: char): (r: string)
    ensures |r| == if |s| >= w then |s| else w
    ensures r[|r| - |s|..] == s
    ensures forall i | 0 <= i < |r| - |s| :: r[i] == c
    decreases w - |s|
  {
    if |s| >= w then s else PadLeft([c] + s, w, c)
  }

  /** A zero-padded numeral still denotes the same number. */
  lemma {:induction false} ParsePadded(n: nat, w: nat)
    ensures AllDigits(PadLeft(NatToString(n), w, '0'))
    ensures ParseNat(PadLeft(NatToString(n), w, '0')) == n
  {
    ParseNatToString(n);
    PaddedValue(NatToString(n), w);
  }

  lemma {:induction false} PaddedValue(s: string, w: nat)
    requires AllDigits(s)
    ensures AllDigits(PadLeft(s, w, '0')) && ParseNat(PadLeft(s, w, '0')) == ParseNat(s)
    decreases w - |s|
  {
    if |s| < w {
      ParseNatLeadingZero(s);
      assert [ '0' ] + s == "0" + s;
      PaddedValue("0" + s, w);
    }
  }
}
