/** The text forms of an IPv6 address (RFC 4291 section 2.2) and the theorem that the parser accepts
    exactly those, as the groups they stand for. */
module Ipv6Forms {
  import opened Wrappers
  import opened Text
  import opened IpAddress

  /** The groups before and after "::" (`gap` says whether there is one) and an optional dotted tail. */
  datatype Form = Form(head: seq<string>, gap: bool, rest: seq<string>, tail: Option<seq<nat>>)

  function TailCount(f: Form): nat {
    if f.tail.None? then 0 else 2
  }

  predicate AllGroups(parts: seq<string>) {
    forall i :: 0 <= i < |parts| ==> IsGroup(parts[i])
  }

  /** Groups are one to four hex digits of either case, "::" stands for at least one group, and there are eight in all. */
  ghost predicate IsForm(f: Form) {
    && AllGroups(f.head) && AllGroups(f.rest) && (f.tail.Some? ==> IsIpv4(f.tail.value))
    && if f.gap then |f.head| + |f.rest| + TailCount(f) <= 7
       else f.rest == [] && |f.head| + TailCount(f) == 8
  }

  function GroupText(f: Form): string {
    if f.gap then Join(f.head, ":") + "::" + Join(f.rest, ":") else Join(f.head, ":")
  }

  function Render(f: Form): string {
    if f.tail.None? then GroupText(f)
    else if f.gap && f.rest == [] then GroupText(f) + Dotted(f.tail.value)
    else GroupText(f) + ":" + Dotted(f.tail.value)
  }

  function GroupValues(parts: seq<string>): (r: seq<nat>)
    requires AllGroups(parts)
    ensures |r| == |parts|
  {
    seq(|parts|, i requires 0 <= i < |parts| => ParseNumeral(parts[i], Sixteen))
  }

  ghost function TailValues(f: Form): (r: seq<nat>)
    requires f.tail.Some? ==> IsIpv4(f.tail.value)
    ensures |r| == TailCount(f)
  {
    if f.tail.None? then [] else TwoGroups(f.tail.value)
  }

  /** The eight groups a form stands for. */
  ghost function Meaning(f: Form): (r: seq<nat>)
    requires IsForm(f)
    ensures |r| == 8
  {
    var explicit := |f.head| + |f.rest| + TailCount(f);
    GroupValues(f.head) + (if f.gap then ZeroGroups(8 - explicit) else []) + GroupValues(f.rest) + TailValues(f)
  }

  // ---------- the shape of joined groups ----------

  lemma GroupChars(s: string)
    requires IsGroup(s)
    ensures ':' !in s && '.' !in s
  {
  }

  lemma {:induction false} JoinedGroups(parts: seq<string>)
    requires AllGroups(parts)
    ensures var s := Join(parts, ":");
      && '.' !in s && !Contains(s, "::")
      && (s == "" <==> parts == [])
      && (s != "" ==> s[0] != ':' && s[|s| - 1] != ':')
  {
    if parts == [] {
    } else {
      GroupChars(parts[0]);
      JoinedGroups(parts[1..]);
      if |parts| == 1 {
        NoDoubleColon(parts[0]);
      } else {
        JoinNoDoubleColon(parts[0], Join(parts[1..], ":"));
      }
    }
  }

  lemma NoDoubleColon(s: string)
    requires ':' !in s
    ensures !Contains(s, "::")
  {
    forall i: nat ensures !OccursAt(s, "::", i) {
      assert i + 2 <= |s| ==> s[i..i + 2][0] == s[i] && s[i] in s;
    }
  }

  lemma JoinNoDoubleColon(s: string, t: string)
    requires ':' !in s && s != "" && t != "" && t[0] != ':' && !Contains(t, "::")
    ensures !Contains(s + ":" + t, "::")
  {
    var x := s + ":" + t;
    forall i: nat ensures !OccursAt(x, "::", i) {
      if i + 2 <= |x| {
        assert x[i..i + 2][0] == x[i] && x[i..i + 2][1] == x[i + 1];
        if i < |s| {
          assert x[i] == s[i] && s[i] in s;
        } else if i == |s| {
          assert x[i + 1] == t[0];
        } else {
          var j := i - |s| - 1;
          assert !OccursAt(t, "::", j);
          assert x[i] == t[j] && x[i + 1] == t[j + 1];
          assert t[j..j + 2] == [t[j], t[j + 1]] && x[i..i + 2] == [x[i], x[i + 1]];
        }
      }
    }
  }

  lemma SplitWithoutGap(s: string)
    requires !Contains(s, "::")
    ensures Split(s, "::") == [s]
  {
    var k := IndexOf(s, "::");
    if k.Some? {
      assert OccursAt(s, "::", k.value);
      assert Contains(s, "::");
      assert false;
    }
  }

  lemma SplitAtGap(h: string, r: string)
    requires !Contains(h, "::") && !Contains(r, "::")
    requires h != "" ==> h[|h| - 1] != ':'
    ensures Split(h + "::" + r, "::") == [h, r]
  {
    var x := h + "::" + r;
    assert x[|h|..|h| + 2] == "::";
    assert OccursAt(x, "::", |h|);
    assert Contains(x, "::");
    forall j: nat | j < |h| ensures !OccursAt(x, "::", j) {
      assert x[j..j + 2][0] == x[j] && x[j..j + 2][1] == x[j + 1];
      if j + 2 <= |h| {
        assert !OccursAt(h, "::", j);
        assert x[j..j + 2] == h[j..j + 2];
      } else {
        assert x[j] == h[|h| - 1];
      }
    }
    assert IndexOf(x, "::") == Some(|h|);
    assert x[..|h|] == h && x[|h| + |"::"|..] == r;
    SplitWithoutGap(r);
  }

  lemma {:induction false} GroupsOfValid(parts: seq<string>)
    requires AllGroups(parts)
    ensures Groups(parts) == Some(GroupValues(parts))
    decreases |parts|
  {
    if parts != [] {
      var n := |parts| - 1;
      GroupsOfValid(parts[..n]);
      assert GroupValues(parts) == GroupValues(parts[..n]) + [ParseNumeral(parts[n], Sixteen)];
    }
  }

  lemma HalfOfGroups(parts: seq<string>)
    requires AllGroups(parts)
    ensures HalfGroups(Join(parts, ":")) == Some(GroupValues(parts))
  {
    JoinedGroups(parts);
    if parts != [] {
      forall part | part in parts ensures ':' !in part {
        GroupChars(part);
      }
      SplitOfJoin(parts, ':');
    }
    GroupsOfValid(parts);
  }

  lemma {:induction false} GroupsAreValid(parts: seq<string>)
    requires Groups(parts).Some?
    ensures AllGroups(parts)
    decreases |parts|
  {
    if parts != [] {
      GroupsAreValid(parts[..|parts| - 1]);
      assert parts == parts[..|parts| - 1] + [parts[|parts| - 1]];
    }
  }

  function HalfParts(half: string): seq<string> {
    if half == "" then [] else Split(half, ":")
  }

  lemma HalfIsGroups(half: string)
    requires HalfGroups(half).Some?
    ensures AllGroups(HalfParts(half)) && Join(HalfParts(half), ":") == half
    ensures HalfGroups(half) == Some(GroupValues(HalfParts(half)))
  {
    if half != "" {
      GroupsAreValid(Split(half, ":"));
      GroupsOfValid(Split(half, ":"));
    }
  }

  // ---------- every form parses ----------

  lemma DottedShape(octets: seq<nat>)
    requires IsIpv4(octets)
    ensures Dotted(octets) != "" && '.' in Dotted(octets) && ':' !in Dotted(octets)
  {
    DecimalShape(octets[0]);
    DecimalShape(octets[1]);
    DecimalShape(octets[2]);
    DecimalShape(octets[3]);
    var a, b, c, d := Decimal(octets[0]), Decimal(octets[1]), Decimal(octets[2]), Decimal(octets[3]);
    assert Numerals(octets, Ten) == [a, b, c, d];
    JoinFour(a, b, c, d);
    var s := a + "." + (b + "." + (c + "." + d));
    assert s[|a|] == '.';
  }

  lemma JoinFour(a: string, b: string, c: string, d: string)
    ensures Join([a, b, c, d], ".") == a + "." + (b + "." + (c + "." + d))
  {
    assert [a, b, c, d][1..] == [b, c, d] && [b, c, d][1..] == [c, d] && [c, d][1..] == [d];
    assert Join([c, d], ".") == c + "." + d;
  }

  /** Taking the tail off a rendered form leaves its group text. */
  lemma RenderParts(f: Form)
    requires IsForm(f)
    ensures Body(Render(f)) == GroupText(f)
    ensures TailGroups(Render(f)) == Some(TailValues(f))
  {
    hide Body, TailGroups, Dotted, IsGroup, Ipv4Of, LastColon;
    if f.tail.None? {
      NoTail(f);
    } else {
      var octets := f.tail.value;
      DottedShape(octets);
      if f.gap && f.rest == [] {
        assert GroupText(f) == Join(f.head, ":") + "::" + "";
        GapBeforeTail(Join(f.head, ":"), Dotted(octets));
      } else {
        GroupTextEnd(f);
        ColonBeforeTail(GroupText(f), Dotted(octets));
      }
      Ipv4ParsesExactly(Dotted(octets), octets);
      TailOf(Render(f), octets);
    }
  }

  lemma NoTail(f: Form)
    requires IsForm(f) && f.tail.None?
    ensures Body(Render(f)) == GroupText(f) && TailGroups(Render(f)) == Some([])
  {
    hide IsGroup;
    JoinedGroups(f.head);
    JoinedGroups(f.rest);
  }

  lemma TailOf(text: string, octets: seq<nat>)
    requires '.' in text && Ipv4Of(text[LastColon(text) + 1..]) == Some(octets) && |octets| == 4
    ensures TailGroups(text) == Some(TwoGroups(octets))
  {
    hide Ipv4Of, LastColon, TwoGroups;
  }

  lemma ColonBeforeTail(groups: string, dotted: string)
    requires ':' !in dotted && '.' in dotted && groups != "" && !EndsWithColon(groups)
    ensures var text := groups + ":" + dotted;
      '.' in text && text[LastColon(text) + 1..] == dotted && Body(text) == groups
  {
    LastColonBefore(groups, dotted);
  }

  lemma GapBeforeTail(h: string, dotted: string)
    requires ':' !in dotted && '.' in dotted
    ensures var text := h + "::" + "" + dotted;
      '.' in text && text[LastColon(text) + 1..] == dotted && Body(text) == h + "::" + ""
  {
    LastColonBefore(h + ":", dotted);
    assert h + "::" + "" + dotted == h + ":" + ":" + dotted;
    assert h + ":" + ":" == h + "::" + "";
  }

  lemma GroupTextEnd(f: Form)
    requires IsForm(f) && f.tail.Some? && !(f.gap && f.rest == [])
    ensures GroupText(f) != "" && !EndsWithColon(GroupText(f))
  {
    JoinedGroups(f.head);
    JoinedGroups(f.rest);
  }

  lemma LastColonBefore(body: string, dotted: string)
    requires ':' !in dotted && '.' in dotted
    ensures var text := body + ":" + dotted;
      LastColon(text) == |body| && text[..|body|] == body && text[|body| + 1..] == dotted && '.' in text
  {
    var text := body + ":" + dotted;
    assert text[|body|] == ':';
    assert forall i :: |body| < i < |text| ==> text[i] == dotted[i - |body| - 1] && text[i] in dotted;
    var i :| 0 <= i < |dotted| && dotted[i] == '.';
    assert text[|body| + 1 + i] == '.';
  }

  lemma FormParses(f: Form)
    requires IsForm(f)
    ensures Ipv6Of(Render(f)) == Some(Meaning(f))
  {
    hide Body, TailGroups, HalfGroups, IsGroup, Render, AllGroups, Join, Split;
    RenderParts(f);
    JoinedGroups(f.head);
    JoinedGroups(f.rest);
    HalfOfGroups(f.head);
    HalfOfGroups(f.rest);
    if f.gap {
      SplitAtGap(Join(f.head, ":"), Join(f.rest, ":"));
    } else {
      SplitWithoutGap(Join(f.head, ":"));
      assert GroupValues(f.head) + [] + GroupValues(f.rest) + TailValues(f) == GroupValues(f.head) + TailValues(f);
    }
  }

  // ---------- only forms parse ----------

  /** The form read off a text that parses. */
  function FormOf(text: string): Form {
    var halves := Split(Body(text), "::");
    Form(HalfParts(halves[0]), |halves| == 2, if |halves| == 2 then HalfParts(halves[1]) else [],
         if '.' in text then Ipv4Of(text[LastColon(text) + 1..]) else None)
  }

  lemma ParsedIsForm(text: string)
    requires Ipv6Of(text).Some?
    ensures IsForm(FormOf(text)) && GroupText(FormOf(text)) == Body(text) && Render(FormOf(text)) == text
  {
    hide Ipv4Of, HalfGroups, IsGroup, Dotted;
    var f, halves := FormOf(text), Split(Body(text), "::");
    HalfIsGroups(halves[0]);
    JoinedGroups(f.head);
    if |halves| == 2 {
      HalfIsGroups(halves[1]);
      JoinedGroups(f.rest);
      assert Join(halves, "::") == halves[0] + "::" + halves[1] by {
        assert halves[1..] == [halves[1]];
      }
    }
    assert GroupText(f) == Body(text);
    if '.' in text {
      TailIsDotted(text, f);
    }
  }

  lemma LastOfGroups(f: Form)
    requires AllGroups(f.head) && AllGroups(f.rest) && GroupText(f) != "" && (!f.gap ==> f.rest == [])
    ensures GroupText(f)[|GroupText(f)| - 1] == ':' <==> f.gap && f.rest == []
  {
    hide IsGroup, AllGroups;
    JoinedGroups(f.head);
    JoinedGroups(f.rest);
  }

  lemma TailIsDotted(text: string, f: Form)
    requires '.' in text && f.tail.Some? && Ipv4Of(text[LastColon(text) + 1..]) == f.tail
    requires GroupText(f) == Body(text) && AllGroups(f.head) && AllGroups(f.rest) && (!f.gap ==> f.rest == [])
    requires Body(text) != ""
    ensures IsIpv4(f.tail.value) && Render(f) == text
  {
    hide Ipv4Of, IsGroup, Dotted, AllGroups, LastColon, Join, GroupText;
    var colon := LastColon(text);
    var dotted := text[colon + 1..];
    Ipv4ParsesExactly(dotted, f.tail.value);
    LastOfGroups(f);
    var body := text[..if colon < 0 then 0 else colon];
    assert colon >= 0;
    assert text == body + ":" + dotted;
  }

  /** The parser accepts a text exactly when it is a form of section 2.2, as the groups the form stands for. */
  lemma Ipv6ParsesExactly(text: string, groups: seq<nat>)
    ensures Ipv6Of(text) == Some(groups) <==> exists f :: IsForm(f) && Render(f) == text && Meaning(f) == groups
  {
    hide Ipv6Of, Render, Meaning, IsForm, FormOf;
    if Ipv6Of(text) == Some(groups) {
      ParsedIsForm(text);
      FormParses(FormOf(text));
      assert IsForm(FormOf(text)) && Render(FormOf(text)) == text && Meaning(FormOf(text)) == groups;
    }
    if f :| IsForm(f) && Render(f) == text && Meaning(f) == groups {
      FormParses(f);
    }
  }

  // ---------- canonical keys ----------

  ghost predicate IsIpv6(groups: seq<nat>) {
    |groups| == 8 && forall i :: 0 <= i < 8 ==> groups[i] < 0x1_0000
  }

  /** The masker's key for an address. */
  function Key(groups: seq<nat>): string {
    Join(Numerals(groups, Sixteen), ":")
  }

  lemma {:induction false} HexLength(n: nat)
    ensures n < 0x10 ==> |Numeral(n, Sixteen)| == 1
    ensures n < 0x100 ==> |Numeral(n, Sixteen)| <= 2
    ensures n < 0x1000 ==> |Numeral(n, Sixteen)| <= 3
    ensures n < 0x1_0000 ==> |Numeral(n, Sixteen)| <= 4
    ensures |Numeral(n, Sixteen)| >= 1
    decreases n
  {
    if n >= 16 {
      HexLength(n / 16);
    }
  }

  /** Parsing a canonical key gives back the groups it was printed from. */
  lemma KeyParsesBack(groups: seq<nat>)
    requires IsIpv6(groups)
    ensures Ipv6Of(Key(groups)) == Some(groups)
  {
    hide Ipv6Of;
    var parts := Numerals(groups, Sixteen);
    forall i | 0 <= i < 8 ensures IsGroup(parts[i]) && ParseNumeral(parts[i], Sixteen) == groups[i] {
      HexLength(groups[i]);
      ParseOfNumeral(groups[i], Sixteen);
    }
    var f := Form(parts, false, [], None);
    FormParses(f);
    assert GroupValues(parts) == groups;
    assert Meaning(f) == groups;
  }
}
