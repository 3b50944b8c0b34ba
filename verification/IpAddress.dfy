/** The strict parsers of the diagnostics masker, against the text forms of RFC 4291 section 2.2. */
module IpAddress {
  import opened Wrappers
  import opened Text

  // ---------- dotted quads ----------

  predicate IsDigit(c: char) {
    '0' <= c <= '9'
  }

  /** One octet: no leading zero, at most 255. */
  function Octet(part: string): Option<nat> {
    if 1 <= |part| <= 3 && (forall i :: 0 <= i < |part| ==> IsDigit(part[i])) && (part == "0" || part[0] != '0')
       && ParseNumeral(part, Ten) <= 255
    then Some(ParseNumeral(part, Ten)) else None
  }

  function Octets(parts: seq<string>): (r: Option<seq<nat>>)
    ensures r.Some? ==> |r.value| == |parts|
  {
    if parts == [] then Some([])
    else
      var n := |parts| - 1;
      var before, last := Octets(parts[..n]), Octet(parts[n]);
      if before.None? || last.None? then None else Some(before.value + [last.value])
  }

  function Ipv4Of(text: string): (r: Option<seq<nat>>)
    ensures r.Some? ==> |r.value| == 4
  {
    var parts := Split(text, ".");
    if |parts| != 4 then None else Octets(parts)
  }

  method ParseIpv4(text: string) returns (r: Option<seq<nat>>)
    ensures r == Ipv4Of(text)
  {
    var parts := Split(text, ".");
    if |parts| != 4 {
      return None;
    }
    var octets: seq<nat> := [];
    for i := 0 to |parts|
      invariant Octets(parts[..i]) == Some(octets)
    {
      assert parts[..i + 1][..i] == parts[..i];
      var value := Octet(parts[i]);
      if value.None? {
        OctetsStop(parts, i);
        return None;
      }
      octets := octets + [value.value];
    }
    assert parts[..|parts|] == parts;
    return Some(octets);
  }

  lemma {:induction false} OctetsStop(parts: seq<string>, i: nat)
    requires i < |parts| && Octet(parts[i]).None?
    ensures Octets(parts).None?
    decreases |parts|
  {
    if i < |parts| - 1 {
      OctetsStop(parts[..|parts| - 1], i);
    }
  }

  ghost predicate IsIpv4(octets: seq<nat>) {
    |octets| == 4 && forall i :: 0 <= i < 4 ==> octets[i] <= 255
  }

  function Numerals(ns: seq<nat>, base: Base): (r: seq<string>)
    ensures |r| == |ns|
  {
    seq(|ns|, i requires 0 <= i < |ns| => Numeral(ns[i], base))
  }

  function Dotted(octets: seq<nat>): string {
    Join(Numerals(octets, Ten), ".")
  }

  /** A numeral without leading zeros is the one its value prints as. */
  lemma {:induction false} CanonicalNumeral(s: string)
    requires IsNumeral(s, Ten) && (|s| == 1 || s[0] != '0')
    ensures Decimal(ParseNumeral(s, Ten)) == s
    ensures s[0] != '0' ==> ParseNumeral(s, Ten) > 0
    decreases |s|
  {
    hide Decimal, ParseNumeral, IsNumeral, DigitValue;
    var n := |s| - 1;
    var d := LastDigit(s);
    assert s == s[..n] + [s[n]];
    if n == 0 {
      SmallDecimal(d);
    } else {
      CanonicalNumeral(s[..n]);
      AppendDigit(ParseNumeral(s[..n], Ten), d);
    }
  }

  lemma LastDigit(s: string) returns (d: nat)
    requires IsNumeral(s, Ten)
    ensures s != "" && d < 10 && s[|s| - 1] == DIGITS[d] && (s[|s| - 1] != '0' ==> d > 0)
    ensures |s| == 1 ==> ParseNumeral(s, Ten) == d
    ensures var head := s[..|s| - 1];
      |s| > 1 ==> IsNumeral(head, Ten) && ParseNumeral(s, Ten) == 10 * ParseNumeral(head, Ten) + d
  {
    var n := |s| - 1;
    d := DigitValue(s[n]).value;
    DigitNames(s[n]);
    if n == 0 {
      assert ParseNumeral(s[..n], Ten) == 0;
    }
  }

  lemma SmallDecimal(d: nat)
    requires d < 10
    ensures Decimal(d) == [DIGITS[d]]
  {
  }

  lemma AppendDigit(h: nat, d: nat)
    requires h > 0 && d < 10
    ensures Decimal(10 * h + d) == Decimal(h) + [DIGITS[d]]
  {
    var n := 10 * h + d;
    assert n / 10 == h && n % 10 == d;
  }

  lemma DigitNames(c: char)
    requires IsDigit(c)
    ensures DIGITS[DigitValue(c).value] == c
  {
    var d := c as int - '0' as int;
    assert d in {0, 1, 2, 3, 4, 5, 6, 7, 8, 9};
  }

  lemma {:induction false} DecimalShape(n: nat)
    ensures |Decimal(n)| >= 1 && (forall i :: 0 <= i < |Decimal(n)| ==> IsDigit(Decimal(n)[i]))
    ensures n > 0 ==> Decimal(n)[0] != '0'
    ensures n < 10 ==> |Decimal(n)| == 1
    ensures n < 100 ==> |Decimal(n)| <= 2
    ensures n < 1000 ==> |Decimal(n)| <= 3
    decreases n
  {
    if n >= 10 {
      DecimalShape(n / 10);
    }
  }

  lemma OctetIff(part: string, n: nat)
    ensures Octet(part) == Some(n) <==> n <= 255 && part == Decimal(n)
  {
    if Octet(part) == Some(n) {
      CanonicalNumeral(part);
    }
    if n <= 255 && part == Decimal(n) {
      DecimalShape(n);
      ParseOfNumeral(n, Ten);
    }
  }

  lemma {:induction false} OctetsIff(parts: seq<string>, ns: seq<nat>)
    ensures Octets(parts) == Some(ns) <==> (forall i :: 0 <= i < |ns| ==> ns[i] <= 255) && parts == Numerals(ns, Ten)
    decreases |parts|
  {
    hide Octet;
    if parts == [] {
      assert ns != [] ==> |Numerals(ns, Ten)| > 0;
    } else if ns != [] {
      var m, n := |parts| - 1, |ns| - 1;
      OctetsIff(parts[..m], ns[..n]);
      OctetIff(parts[m], ns[n]);
      assert parts == parts[..m] + [parts[m]] && ns == ns[..n] + [ns[n]];
      assert Numerals(ns, Ten) == Numerals(ns[..n], Ten) + [Decimal(ns[n])];
    }
  }

  /** The IPv4 parser accepts exactly the dotted quads it would print, as the octets it would print them from. */
  lemma Ipv4ParsesExactly(text: string, octets: seq<nat>)
    ensures Ipv4Of(text) == Some(octets) <==> IsIpv4(octets) && text == Dotted(octets)
  {
    if Ipv4Of(text) == Some(octets) {
      OctetsIff(Split(text, "."), octets);
    }
    if IsIpv4(octets) && text == Dotted(octets) {
      var parts := Numerals(octets, Ten);
      forall part | part in parts ensures '.' !in part {
        var i :| 0 <= i < 4 && parts[i] == part;
        DecimalShape(octets[i]);
      }
      SplitOfJoin(parts, '.');
      OctetsIff(parts, octets);
    }
  }

  // ---------- IPv6 groups ----------

  predicate IsGroup(s: string) {
    1 <= |s| <= 4 && IsNumeral(s, Sixteen)
  }

  function Groups(parts: seq<string>): Option<seq<nat>> {
    if parts == [] then Some([])
    else
      var n := |parts| - 1;
      var before := Groups(parts[..n]);
      if before.None? || !IsGroup(parts[n]) then None else Some(before.value + [ParseNumeral(parts[n], Sixteen)])
  }

  function HalfGroups(half: string): Option<seq<nat>> {
    if half == "" then Some([]) else Groups(Split(half, ":"))
  }

  method ParseGroups(half: string) returns (r: Option<seq<nat>>)
    ensures r == HalfGroups(half)
  {
    if |half| == 0 {
      return Some([]);
    }
    var parts := Split(half, ":");
    var groups: seq<nat> := [];
    for i := 0 to |parts|
      invariant Groups(parts[..i]) == Some(groups)
    {
      assert parts[..i + 1][..i] == parts[..i];
      if !IsGroup(parts[i]) {
        GroupsStop(parts, i);
        return None;
      }
      groups := groups + [ParseNumeral(parts[i], Sixteen)];
    }
    assert parts[..|parts|] == parts;
    return Some(groups);
  }

  lemma {:induction false} GroupsStop(parts: seq<string>, i: nat)
    requires i < |parts| && !IsGroup(parts[i])
    ensures Groups(parts).None?
    decreases |parts|
  {
    if i < |parts| - 1 {
      GroupsStop(parts[..|parts| - 1], i);
    }
  }

  function LastColon(s: string): (r: int)
    ensures -1 <= r < |s|
    ensures r >= 0 ==> s[r] == ':'
    ensures forall i :: r < i < |s| ==> s[i] != ':'
  {
    if s == "" then -1
    else if s[|s| - 1] == ':' then |s| - 1
    else LastColon(s[..|s| - 1])
  }

  function EndsWithColon(s: string): bool {
    s != "" && s[|s| - 1] == ':'
  }

  /** The text without its dotted tail, a "::" before the tail kept whole. */
  function Body(text: string): string {
    if '.' !in text then text
    else
      var colon := LastColon(text);
      var body := text[..if colon < 0 then 0 else colon];
      if EndsWithColon(body) then body + ":" else body
  }

  /** The two 16-bit groups four octets make. */
  function TwoGroups(octets: seq<nat>): (r: seq<nat>)
    requires |octets| == 4
    ensures |r| == 2
  {
    [octets[0] * 256 + octets[1], octets[2] * 256 + octets[3]]
  }

  function TailGroups(text: string): Option<seq<nat>> {
    if '.' !in text then Some([])
    else
      var octets := Ipv4Of(text[LastColon(text) + 1..]);
      if octets.None? then None
      else Some(TwoGroups(octets.value))
  }

  function ZeroGroups(n: nat): (r: seq<nat>)
    ensures |r| == n
  {
    seq(n, _ => 0)
  }

  function Ipv6Of(text: string): Option<seq<nat>> {
    var tail := TailGroups(text);
    var halves := Split(Body(text), "::");
    if tail.None? || |halves| > 2 then None
    else
      var head := HalfGroups(halves[0]);
      var rest := if |halves| == 2 then HalfGroups(halves[1]) else Some([]);
      if head.None? || rest.None? then None
      else
        var explicit := |head.value| + |rest.value| + |tail.value|;
        if |halves| == 2 then
          if explicit > 7 then None
          else Some(head.value + ZeroGroups(8 - explicit) + rest.value + tail.value)
        else if explicit == 8 then Some(head.value + tail.value)
        else None
  }

  /** The tail step of the parser: the dotted quad's groups and the text before it. */
  method TakeTail(text: string) returns (tail: Option<seq<nat>>, body: string)
    ensures tail == TailGroups(text) && (tail.Some? ==> body == Body(text))
  {
    hide Ipv4Of, TwoGroups;
    body := text;
    if '.' !in body {
      return Some([]), body;
    }
    var lastColon := LastColon(body);
    var octets := ParseIpv4(body[lastColon + 1..]);
    if octets.None? {
      return None, body;
    }
    body := body[..if lastColon < 0 then 0 else lastColon];
    if EndsWithColon(body) {
      body := body + ":";
    }
    return Some(TwoGroups(octets.value)), body;
  }

  method ParseIpv6(text: string) returns (r: Option<seq<nat>>)
    ensures r == Ipv6Of(text)
  {
    hide Body, TailGroups, HalfGroups;
    var tail, body := TakeTail(text);
    if tail.None? {
      return None;
    }
    var halves := Split(body, "::");
    if |halves| > 2 {
      return None;
    }
    var head := ParseGroups(halves[0]);
    var rest: Option<seq<nat>> := Some([]);
    if |halves| == 2 {
      rest := ParseGroups(halves[1]);
    }
    if head.None? || rest.None? {
      return None;
    }
    var explicit := |head.value| + |rest.value| + |tail.value|;
    if |halves| == 2 {
      if explicit > 7 {
        return None;
      }
      return Some(head.value + ZeroGroups(8 - explicit) + rest.value + tail.value);
    }
    return if explicit == 8 then Some(head.value + tail.value) else None;
  }
}
