/** Searching, splitting and joining strings, and numerals. A character stands for one UTF-16 code unit. */
module Text {
  import opened Wrappers

  // ---------- occurrences ----------

  predicate OccursAt(s: string, p: string, i: nat) {
    i + |p| <= |s| && s[i..i + |p|] == p
  }

  predicate Contains(s: string, p: string) {
    exists i :: 0 <= i <= |s| && OccursAt(s, p, i)
  }

  /** What occurs in a piece of a string occurs in the string. */
  lemma OccursInWhole(whole: string, at: nat, part: string, x: string, i: nat)
    requires OccursAt(whole, part, at) && OccursAt(part, x, i)
    ensures OccursAt(whole, x, at + i)
  {
    var j := at + i;
    forall k | 0 <= k < |x| ensures whole[j..j + |x|][k] == x[k] {
      assert whole[at..at + |part|][i + k] == part[i..i + |x|][k];
    }
  }

  /** What occurs in a string within a piece of it occurs in the piece. */
  lemma OccursInPart(whole: string, at: nat, part: string, x: string, i: nat)
    requires OccursAt(whole, part, at) && OccursAt(whole, x, i) && at <= i && i + |x| <= at + |part|
    ensures OccursAt(part, x, i - at)
  {
    var j := i - at;
    forall k | 0 <= k < |x| ensures part[j..j + |x|][k] == x[k] {
      assert whole[at..at + |part|][j + k] == whole[i..i + |x|][k];
    }
  }

  lemma ContainsTransitive(a: string, b: string, c: string)
    requires Contains(a, b) && Contains(b, c)
    ensures Contains(a, c)
  {
    hide OccursAt;
    var i: nat :| i <= |a| && OccursAt(a, b, i);
    var j: nat :| j <= |b| && OccursAt(b, c, j);
    OccursInWhole(a, i, b, c, j);
    OccursBound(b, c, j);
    OccursBound(a, b, i);
  }

  lemma OccursBound(s: string, x: string, i: nat)
    requires OccursAt(s, x, i)
    ensures i + |x| <= |s|
  {
  }

  /** The first occurrence of p in s. */
  function IndexOf(s: string, p: string): (r: Option<nat>)
    ensures r.Some? ==> OccursAt(s, p, r.value)
    ensures r.Some? ==> forall j: nat :: j < r.value ==> !OccursAt(s, p, j)
    ensures r.None? ==> !Contains(s, p)
    decreases |s|
  {
    if |s| < |p| then None
    else if s[..|p|] == p then Some(0)
    else
      var r := IndexOf(s[1..], p);
      assert forall j: nat :: 0 < j && OccursAt(s, p, j) ==> OccursAt(s[1..], p, j - 1);
      if r.None? then None else Some(r.value + 1)
  }

  // ---------- split and join ----------

  function Join(parts: seq<string>, sep: string): string {
    if parts == [] then ""
    else if |parts| == 1 then parts[0]
    else parts[0] + sep + Join(parts[1..], sep)
  }

  /** Splits at every leftmost, non-overlapping occurrence of the separator. */
  function Split(s: string, sep: string): (parts: seq<string>)
    requires sep != ""
    ensures parts != []
    ensures Join(parts, sep) == s
    ensures forall part :: part in parts ==> !Contains(part, sep)
    decreases |s|
  {
    var k := IndexOf(s, sep);
    if k.None? then [s]
    else
      var parts := Split(s[k.value + |sep|..], sep);
      FirstPartIsClean(s, sep, k.value);
      assert s == s[..k.value] + sep + s[k.value + |sep|..];
      [s[..k.value]] + parts
  }

  lemma FirstPartIsClean(s: string, sep: string, k: nat)
    requires sep != "" && OccursAt(s, sep, k) && forall j: nat :: j < k ==> !OccursAt(s, sep, j)
    ensures !Contains(s[..k], sep)
  {
    forall i: nat ensures OccursAt(s[..k], sep, i) ==> i < k && OccursAt(s, sep, i) {
      if i + |sep| <= k {
        assert s[i..i + |sep|] == s[..k][i..i + |sep|];
      }
    }
  }

  lemma AbsentCharacter(s: string, c: char)
    requires c !in s
    ensures !Contains(s, [c])
  {
    forall i: nat ensures !OccursAt(s, [c], i) {
      assert i < |s| ==> s[i] in s && s[i..i + 1][0] == s[i];
    }
  }

  lemma IndexOfCharacter(head: string, c: char, tail: string)
    requires c !in head
    ensures IndexOf(head + [c] + tail, [c]) == Some(|head|)
  {
    var s := head + [c] + tail;
    assert OccursAt(s, [c], |head|);
    assert Contains(s, [c]);
    forall j: nat | j < |head| ensures !OccursAt(s, [c], j) {
      assert s[j..j + 1][0] == s[j] == head[j] && head[j] in head;
    }
  }

  /** Splitting at a single character undoes joining with it. */
  lemma {:induction false} SplitOfJoin(parts: seq<string>, c: char)
    requires parts != [] && forall part :: part in parts ==> c !in part
    ensures Split(Join(parts, [c]), [c]) == parts
  {
    var s := Join(parts, [c]);
    var head := parts[0];
    if |parts| == 1 {
      AbsentCharacter(s, c);
    } else {
      var rest := Join(parts[1..], [c]);
      IndexOfCharacter(head, c, rest);
      assert s[..|head|] == head && s[|head| + |[c]|..] == rest;
      SplitOfJoin(parts[1..], c);
      assert Split(s, [c]) == [head] + Split(rest, [c]);
    }
  }

  /** White space to JavaScript: what `trim` drops and `\s` matches. */
  predicate IsSpace(c: char) {
    var n := c as int;
    9 <= n <= 13 || n == 32 || n == 160 || n == 0x1680 || 0x2000 <= n <= 0x200a || n == 0x2028 || n == 0x2029
    || n == 0x202f || n == 0x205f || n == 0x3000 || n == 0xfeff
  }

  // ---------- numerals ----------

  const DIGITS := "0123456789abcdef"

  /** The two bases numbers are printed in. */
  datatype Base = Ten | Sixteen

  function Size(base: Base): nat {
    if base.Ten? then 10 else 16
  }

  function Times(n: nat, base: Base): nat {
    if base.Ten? then 10 * n else 16 * n
  }

  function Quotient(n: nat, base: Base): nat {
    if base.Ten? then n / 10 else n / 16
  }

  function Remainder(n: nat, base: Base): (r: nat)
    ensures r < Size(base)
  {
    if base.Ten? then n % 10 else n % 16
  }

  lemma Division(n: nat, base: Base)
    ensures n == Times(Quotient(n, base), base) + Remainder(n, base)
    ensures n > 0 ==> Quotient(n, base) < n
  {
  }

  function Numeral(n: nat, base: Base): (s: string)
    ensures s != ""
    decreases n
  {
    if n < Size(base) then [DIGITS[n]]
    else
      Division(n, base);
      Numeral(Quotient(n, base), base) + [DIGITS[Remainder(n, base)]]
  }

  function Decimal(n: nat): string {
    Numeral(n, Ten)
  }

  /** The value of a digit in either case. */
  function DigitValue(c: char): Option<nat> {
    if '0' <= c <= '9' then Some(c as nat - '0' as nat)
    else if 'a' <= c <= 'f' then Some(c as nat - 'a' as nat + 10)
    else if 'A' <= c <= 'F' then Some(c as nat - 'A' as nat + 10)
    else None
  }

  predicate IsNumeral(s: string, base: Base) {
    s != "" && forall i :: 0 <= i < |s| ==> DigitValue(s[i]).Some? && DigitValue(s[i]).value < Size(base)
  }

  function ParseNumeral(s: string, base: Base): nat
    requires forall i :: 0 <= i < |s| ==> DigitValue(s[i]).Some?
  {
    if s == "" then 0 else Times(ParseNumeral(s[..|s| - 1], base), base) + DigitValue(s[|s| - 1]).value
  }

  lemma {:induction false} ParseOfNumeral(n: nat, base: Base)
    ensures IsNumeral(Numeral(n, base), base) && ParseNumeral(Numeral(n, base), base) == n
    decreases n
  {
    hide IsNumeral, ParseNumeral, Times, Quotient, Remainder, DigitValue;
    if n < Size(base) {
      DigitNumeral(n, base);
    } else {
      Division(n, base);
      ParseOfNumeral(Quotient(n, base), base);
      ParseAppend(Numeral(Quotient(n, base), base), Remainder(n, base), base);
    }
  }

  lemma DigitNumeral(d: nat, base: Base)
    requires d < Size(base)
    ensures IsNumeral([DIGITS[d]], base) && ParseNumeral([DIGITS[d]], base) == d
  {
    ParseAppend("", d, base);
    assert "" + [DIGITS[d]] == [DIGITS[d]];
    assert ParseNumeral("", base) == 0;
  }

  lemma ParseAppend(s: string, d: nat, base: Base)
    requires d < Size(base) && (s == "" || IsNumeral(s, base))
    ensures IsNumeral(s + [DIGITS[d]], base)
    ensures ParseNumeral(s + [DIGITS[d]], base) == Times(ParseNumeral(s, base), base) + d
  {
    DigitOfDigit(d);
    var t := s + [DIGITS[d]];
    assert t[..|t| - 1] == s;
  }

  lemma DigitOfDigit(d: nat)
    requires d < 16
    ensures DigitValue(DIGITS[d]) == Some(d)
  {
  }

  lemma NumeralInjective(m: nat, n: nat, base: Base)
    requires Numeral(m, base) == Numeral(n, base)
    ensures m == n
  {
    ParseOfNumeral(m, base);
    ParseOfNumeral(n, base);
  }

  lemma DecimalInjective(m: nat, n: nat)
    requires Decimal(m) == Decimal(n)
    ensures m == n
  {
    NumeralInjective(m, n, Ten);
  }
}
