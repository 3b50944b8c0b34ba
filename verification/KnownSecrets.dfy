/** Scrubbing known secret values out of text. */
module KnownSecrets {
  import opened Wrappers
  import opened Text
  import StableSerialize
  import StringOrder
  import Utf8

  const MARKER := "[REDACTED:known]"
  const MIN_KNOWN_SECRET_LENGTH := 6

  // ---------- the encoded forms of a value ----------

  const UPPER_HEX := "0123456789ABCDEF"

  predicate IsUnescapedInUri(c: char) {
    'A' <= c <= 'Z' || 'a' <= c <= 'z' || '0' <= c <= '9' || c in "-_.!~*'()"
  }

  function PercentEncode(bytes: seq<nat>): string
    requires forall i :: 0 <= i < |bytes| ==> bytes[i] < 256
  {
    if bytes == [] then ""
    else ['%', UPPER_HEX[bytes[0] / 16], UPPER_HEX[bytes[0] % 16]] + PercentEncode(bytes[1..])
  }

  function EncodeUriComponent(s: string): string {
    if s == "" then ""
    else (if IsUnescapedInUri(s[0]) then [s[0]] else PercentEncode(Utf8.EncodeChar(s[0]))) + EncodeUriComponent(s[1..])
  }

  /** Verbatim, URL-encoded and JSON-escaped. */
  function EncodedForms(value: string): seq<string> {
    [value, EncodeUriComponent(value), StableSerialize.EscapeAll(value)]
  }

  predicate BracketFree(s: string) {
    '[' !in s && ']' !in s
  }

  /** A value without brackets has no form with brackets. */
  lemma FormsAreBracketFree(value: string)
    requires BracketFree(value) && value != ""
    ensures forall form :: form in EncodedForms(value) ==> BracketFree(form) && form != ""
  {
    hide IsUnescapedInUri, Utf8.EncodeChar, PercentEncode;
    UriIsBracketFree(value);
    JsonIsBracketFree(value);
    var forms := EncodedForms(value);
    forall form | form in forms ensures BracketFree(form) && form != "" {
      assert form == forms[0] || form == forms[1] || form == forms[2];
    }
  }

  lemma {:induction false} UriIsBracketFree(value: string)
    requires BracketFree(value)
    ensures BracketFree(EncodeUriComponent(value))
    ensures value != "" ==> EncodeUriComponent(value) != ""
  {
    hide Utf8.EncodeChar, PercentEncode;
    if value != "" {
      UriIsBracketFree(value[1..]);
      assert value[0] in value;
      PercentIsBracketFree(Utf8.EncodeChar(value[0]));
    }
  }

  lemma {:induction false} JsonIsBracketFree(value: string)
    requires BracketFree(value)
    ensures BracketFree(StableSerialize.EscapeAll(value))
    ensures value != "" ==> StableSerialize.EscapeAll(value) != ""
  {
    hide StableSerialize.Escape;
    if value != "" {
      JsonIsBracketFree(value[1..]);
      assert value[0] in value;
      EscapeIsBracketFree(value[0]);
    }
  }

  lemma {:induction false} PercentIsBracketFree(bytes: seq<nat>)
    requires forall i :: 0 <= i < |bytes| ==> bytes[i] < 256
    ensures BracketFree(PercentEncode(bytes))
    ensures bytes != [] ==> PercentEncode(bytes) != ""
  {
    if bytes != [] {
      assert BracketFree(UPPER_HEX);
      assert UPPER_HEX[bytes[0] / 16] in UPPER_HEX && UPPER_HEX[bytes[0] % 16] in UPPER_HEX;
      PercentIsBracketFree(bytes[1..]);
    }
  }

  lemma EscapeIsBracketFree(c: char)
    requires c != '[' && c != ']'
    ensures BracketFree(StableSerialize.Escape(c)) && StableSerialize.Escape(c) != ""
  {
    var s := StableSerialize.Escape(c);
    forall i | 0 <= i < |s| ensures s[i] != '[' && s[i] != ']' {
      if c as int < 32 {
        HexDigit(c as int / 16);
        HexDigit(c as int % 16);
      }
    }
  }

  lemma HexDigit(n: nat)
    requires n < 16
    ensures StableSerialize.HEX[n] != '[' && StableSerialize.HEX[n] != ']'
  {
  }

  // ---------- replacing every occurrence ----------

  function Replace(s: string, needle: string): string
    requires needle != ""
  {
    Join(Split(s, needle), MARKER)
  }

  /** The two strings agree wherever they lie over each other when the marker starts d places into the needle
      (d negative: the needle starts inside the marker). */
  predicate AgreeAt(needle: string, marker: string, d: int) {
    forall i :: 0 <= i < |needle| && 0 <= i - d < |marker| ==> needle[i] == marker[i - d]
  }

  /** Some occurrence of the needle could share a character with a marker. */
  predicate Clash(needle: string, marker: string) {
    exists d :: -|marker| < d < |needle| && AgreeAt(needle, marker, d)
  }

  lemma {:induction false} OccursInSomePart(parts: seq<string>, marker: string, needle: string)
    requires needle != "" && parts != [] && !Clash(needle, marker) && Contains(Join(parts, marker), needle)
    ensures exists part :: part in parts && Contains(part, needle)
    decreases |parts|
  {
    var s := Join(parts, marker);
    var i: nat :| i <= |s| && OccursAt(s, needle, i);
    if |parts| == 1 {
      assert parts[0] in parts && Contains(parts[0], needle);
    } else {
      var head, tail := parts[0], Join(parts[1..], marker);
      JoinPieces(head, marker, tail);
      var at := |head| + |marker|;
      if i + |needle| <= |head| {
        OccursInPart(s, 0, head, needle, i);
        assert head in parts && Contains(head, needle);
      } else if at <= i {
        OccursInPart(s, at, tail, needle, i);
        assert Contains(tail, needle);
        OccursInSomePart(parts[1..], marker, needle);
        var part :| part in parts[1..] && Contains(part, needle);
        assert part in parts;
      } else {
        MeetsMarker(s, |head|, marker, needle, i);
        assert false;
      }
    }
  }

  lemma JoinPieces(head: string, sep: string, tail: string)
    ensures var s := head + sep + tail;
      OccursAt(s, head, 0) && OccursAt(s, sep, |head|) && OccursAt(s, tail, |head| + |sep|)
  {
    var s := head + sep + tail;
    assert s[..|head|] == head && s[|head|..|head| + |sep|] == sep && s[|head| + |sep|..] == tail;
  }

  lemma MeetsMarker(s: string, at: nat, marker: string, needle: string, i: nat)
    requires OccursAt(s, marker, at) && OccursAt(s, needle, i) && i < at + |marker| && at < i + |needle|
    ensures Clash(needle, marker)
  {
    var d := at - i;
    forall k | 0 <= k < |needle| && 0 <= k - d < |marker| ensures needle[k] == marker[k - d] {
      assert s[i..i + |needle|][k] == s[at..at + |marker|][k - d];
    }
    assert AgreeAt(needle, marker, d);
  }

  /** What a part of a join contains, the join contains. */
  lemma {:induction false} PartOfJoin(parts: seq<string>, sep: string, part: string, x: string)
    requires part in parts && Contains(part, x)
    ensures Contains(Join(parts, sep), x)
    decreases |parts|
  {
    hide OccursAt;
    var s := Join(parts, sep);
    if |parts| > 1 {
      var head, tail := parts[0], Join(parts[1..], sep);
      JoinPieces(head, sep, tail);
      if part == head {
        assert Contains(s, head);
        ContainsTransitive(s, head, x);
      } else {
        PartOfJoin(parts[1..], sep, part, x);
        assert Contains(s, tail);
        ContainsTransitive(s, tail, x);
      }
    }
  }

  /** Replacing one needle removes it and recreates no needle that was gone. */
  lemma ReplaceKeepsClean(s: string, needle: string, other: string)
    requires needle != "" && other != "" && !Clash(other, MARKER)
    requires other == needle || !Contains(s, other)
    ensures !Contains(Replace(s, needle), other)
  {
    var parts := Split(s, needle);
    if Contains(Replace(s, needle), other) {
      OccursInSomePart(parts, MARKER, other);
      var part :| part in parts && Contains(part, other);
      PartOfJoin(parts, needle, part, other);
      assert false;
    }
  }

  // ---------- scrubbing ----------

  datatype Scrubbed = Scrubbed(text: string, replaced: nat)

  ghost predicate NonEmptyNeedles(needles: seq<string>) {
    forall i :: 0 <= i < |needles| ==> needles[i] != ""
  }

  function ScrubText(text: string, needles: seq<string>): string
    requires NonEmptyNeedles(needles)
  {
    if needles == [] then text
    else
      var k := |needles| - 1;
      Replace(ScrubText(text, needles[..k]), needles[k])
  }

  /** How often each needle in turn is replaced. */
  function Counts(text: string, needles: seq<string>): (r: seq<nat>)
    requires NonEmptyNeedles(needles)
    ensures |r| == |needles|
    decreases |needles|
  {
    if needles == [] then []
    else
      var k := |needles| - 1;
      Counts(text, needles[..k]) + [|Split(ScrubText(text, needles[..k]), needles[k])| - 1]
  }

  function Sum(counts: seq<nat>): nat {
    if counts == [] then 0 else Sum(counts[..|counts| - 1]) + counts[|counts| - 1]
  }

  /** The change in length those replacements make. */
  function LengthChange(counts: seq<nat>, needles: seq<string>): int
    requires |counts| == |needles|
  {
    if counts == [] then 0
    else
      var k := |counts| - 1;
      LengthChange(counts[..k], needles[..k]) + counts[k] * (|MARKER| - |needles[k]|)
  }

  lemma SplitAbsent(s: string, needle: string)
    requires needle != "" && !Contains(s, needle)
    ensures Split(s, needle) == [s] && Replace(s, needle) == s
  {
    forall j: nat ensures !OccursAt(s, needle, j) {
    }
  }

  function TotalLength(parts: seq<string>): nat {
    if parts == [] then 0 else |parts[0]| + TotalLength(parts[1..])
  }

  lemma {:induction false} JoinLength(parts: seq<string>, sep: string)
    requires parts != []
    ensures |Join(parts, sep)| == TotalLength(parts) + (|parts| - 1) * |sep|
  {
    if |parts| > 1 {
      JoinLength(parts[1..], sep);
      assert (|parts| - 1) * |sep| == (|parts| - 2) * |sep| + |sep|;
    }
  }

  lemma ReplaceLength(s: string, needle: string)
    requires needle != ""
    ensures |Replace(s, needle)| == |s| + (|Split(s, needle)| - 1) * (|MARKER| - |needle|)
  {
    var parts := Split(s, needle);
    JoinLength(parts, needle);
    JoinLength(parts, MARKER);
    Distribute(|parts| - 1, |MARKER|, |needle|);
  }

  lemma Distribute(n: int, a: int, b: int)
    ensures n * (a - b) == n * a - n * b
  {
  }

  lemma PrefixNonEmpty(needles: seq<string>)
    requires NonEmptyNeedles(needles) && needles != []
    ensures NonEmptyNeedles(needles[..|needles| - 1]) && needles[|needles| - 1] != ""
  {
  }

  /** The replacement counts account exactly for the change in length. */
  lemma {:induction false} CountsExplainLength(text: string, needles: seq<string>)
    requires NonEmptyNeedles(needles)
    ensures |ScrubText(text, needles)| == |text| + LengthChange(Counts(text, needles), needles)
    decreases |needles|
  {
    hide Split, Replace, NonEmptyNeedles;
    if needles != [] {
      var k := |needles| - 1;
      PrefixNonEmpty(needles);
      CountsExplainLength(text, needles[..k]);
      ReplaceLength(ScrubText(text, needles[..k]), needles[k]);
      assert Counts(text, needles)[..k] == Counts(text, needles[..k]);
    }
  }

  /** No needle is left in the output when none can share a character with the marker. */
  lemma {:induction false} ScrubLeavesNoNeedle(text: string, needles: seq<string>, i: nat)
    requires NonEmptyNeedles(needles) && i < |needles|
    requires forall j :: 0 <= j < |needles| ==> !Clash(needles[j], MARKER)
    ensures !Contains(ScrubText(text, needles), needles[i])
    decreases |needles|
  {
    var k := |needles| - 1;
    if i < k {
      ScrubLeavesNoNeedle(text, needles[..k], i);
    }
    ReplaceKeepsClean(ScrubText(text, needles[..k]), needles[k], needles[i]);
  }

  /** Without brackets, a needle can share a character with a marker only by lying inside it. */
  lemma ClashWithoutBrackets(needle: string)
    requires needle != "" && BracketFree(needle)
    ensures Clash(needle, MARKER) <==> Contains(MARKER, needle)
  {
    assert |MARKER| == 16;
    if Clash(needle, MARKER) {
      var d :| -16 < d < |needle| && AgreeAt(needle, MARKER, d);
      BracketFreeInside(needle, d);
      forall i | 0 <= i < |needle| ensures MARKER[-d..-d + |needle|][i] == needle[i] {
      }
      assert OccursAt(MARKER, needle, -d);
    }
    if Contains(MARKER, needle) {
      var i: int :| 0 <= i <= |MARKER| && OccursAt(MARKER, needle, i);
      forall k | 0 <= k < |needle| && 0 <= k + i < |MARKER| ensures needle[k] == MARKER[k + i] {
        assert MARKER[i..i + |needle|][k] == MARKER[i + k];
      }
      assert AgreeAt(needle, MARKER, -i);
    }
  }

  /** A needle that agrees with the marker at one of its ends has that bracket. */
  lemma BracketFreeInside(needle: string, d: int)
    requires BracketFree(needle) && -16 < d < |needle| && AgreeAt(needle, MARKER, d)
    ensures d < 0 && |needle| <= d + 15
  {
    hide BracketFree;
    if 0 <= d {
      assert needle[d] == MARKER[d - d] == '[';
      BracketInside(needle, d);
      assert false;
    }
    if d + 15 < |needle| {
      assert needle[d + 15] == MARKER[d + 15 - d] == ']';
      BracketInside(needle, d + 15);
      assert false;
    }
  }

  lemma BracketInside(needle: string, i: nat)
    requires i < |needle| && needle[i] in "[]"
    ensures !BracketFree(needle)
  {
    assert needle[i] in needle;
  }

  /** A marker once written is never lost: a replacement leaves the text alone or writes a marker. */
  lemma ReplaceKeepsMarker(s: string, needle: string)
    requires needle != "" && (Contains(s, MARKER) || Contains(s, needle))
    ensures Contains(Replace(s, needle), MARKER)
  {
    if Contains(s, needle) {
      var parts := Split(s, needle);
      assert parts[0] in parts;
      JoinPieces(parts[0], MARKER, Join(parts[1..], MARKER));
    } else {
      SplitAbsent(s, needle);
    }
  }

  lemma {:induction false} MarkerSurvives(text: string, needles: seq<string>, i: nat)
    requires NonEmptyNeedles(needles) && i < |needles|
    requires Contains(ScrubText(text, needles[..i]), needles[i])
    ensures Contains(ScrubText(text, needles), MARKER)
    decreases |needles|
  {
    hide Contains, Replace;
    var k := |needles| - 1;
    if i < k {
      assert needles[..k][..i] == needles[..i];
      MarkerSurvives(text, needles[..k], i);
    }
    ReplaceKeepsMarker(ScrubText(text, needles[..k]), needles[k]);
  }

  ghost predicate LongestFirst(needles: seq<string>) {
    forall i, j :: 0 <= i < j < |needles| ==> |needles[i]| >= |needles[j]| && needles[i] != needles[j]
  }

  lemma LongerIsAbsent(s: string, needle: string)
    requires |needle| >= |s| && needle != s
    ensures !Contains(s, needle)
  {
    assert s[0..|s|] == s;
  }

  /** A needle goes through all the needles before it unchanged: they are different and not shorter. */
  lemma {:induction false} NeedleReachesItsTurn(needles: seq<string>, i: nat, k: nat)
    requires NonEmptyNeedles(needles) && LongestFirst(needles) && k <= i < |needles|
    ensures ScrubText(needles[i], needles[..k]) == needles[i]
    decreases k
  {
    if k > 0 {
      assert needles[..k][..k - 1] == needles[..k - 1];
      NeedleReachesItsTurn(needles, i, k - 1);
      LongerIsAbsent(needles[i], needles[k - 1]);
      SplitAbsent(needles[i], needles[k - 1]);
    }
  }

  ghost predicate GoneFromEveryText(form: string, needles: seq<string>)
    requires NonEmptyNeedles(needles)
  {
    forall text: string :: !Contains(ScrubText(text, needles), form)
  }

  /** Needles without brackets are removed from every text exactly when none of them lies inside the marker. */
  lemma CleanIffNoNeedleInMarker(needles: seq<string>)
    requires NonEmptyNeedles(needles) && LongestFirst(needles)
    requires forall i :: 0 <= i < |needles| ==> BracketFree(needles[i])
    ensures (forall i :: 0 <= i < |needles| ==> GoneFromEveryText(needles[i], needles))
      <==> (forall i :: 0 <= i < |needles| ==> !Contains(MARKER, needles[i]))
  {
    if forall i :: 0 <= i < |needles| ==> !Contains(MARKER, needles[i]) {
      forall i | 0 <= i < |needles| ensures !Clash(needles[i], MARKER) {
        ClashWithoutBrackets(needles[i]);
      }
      forall i | 0 <= i < |needles| ensures GoneFromEveryText(needles[i], needles) {
        forall text: string ensures !Contains(ScrubText(text, needles), needles[i]) {
          ScrubLeavesNoNeedle(text, needles, i);
        }
      }
    }
    if i :| 0 <= i < |needles| && Contains(MARKER, needles[i]) {
      var text := needles[i];
      NeedleReachesItsTurn(needles, i, i);
      assert OccursAt(text, text, 0);
      MarkerSurvives(text, needles, i);
      ContainsTransitive(ScrubText(text, needles), MARKER, needles[i]);
      assert !GoneFromEveryText(needles[i], needles);
    }
  }

  // ---------- the needle list ----------

  function TrimStart(s: string): string {
    if s != "" && IsSpace(s[0]) then TrimStart(s[1..]) else s
  }

  function TrimEnd(s: string): string {
    if s != "" && IsSpace(s[|s| - 1]) then TrimEnd(s[..|s| - 1]) else s
  }

  function Trim(s: string): string {
    TrimEnd(TrimStart(s))
  }

  /** The elements of both lists in order of first appearance. */
  function AddAll(found: seq<string>, more: seq<string>): seq<string>
    decreases |more|
  {
    if more == [] then found
    else
      var k := |more| - 1;
      var before := AddAll(found, more[..k]);
      if more[k] in before then before else before + [more[k]]
  }

  function FormsOf(raw: string): seq<string> {
    if |Trim(raw)| < MIN_KNOWN_SECRET_LENGTH then [] else EncodedForms(Trim(raw))
  }

  function Collected(values: seq<string>): seq<string> {
    if values == [] then []
    else AddAll(Collected(values[..|values| - 1]), FormsOf(values[|values| - 1]))
  }

  function InsertByLength(x: string, s: seq<string>): (r: seq<string>)
    ensures multiset(r) == multiset(s) + multiset{x}
  {
    if s == [] then [x]
    else if |s[0]| >= |x| then
      assert s == [s[0]] + s[1..];
      [s[0]] + InsertByLength(x, s[1..])
    else [x] + s
  }

  /** The stable sort by falling length. */
  function SortByLength(s: seq<string>): (r: seq<string>)
    ensures multiset(r) == multiset(s)
  {
    if s == [] then []
    else
      assert s == s[..|s| - 1] + [s[|s| - 1]];
      InsertByLength(s[|s| - 1], SortByLength(s[..|s| - 1]))
  }

  function NeedleList(values: seq<string>): seq<string> {
    SortByLength(Collected(values))
  }

  lemma {:induction false} AddAllHolds(found: seq<string>, more: seq<string>)
    requires StringOrder.Distinct(found)
    ensures StringOrder.Distinct(AddAll(found, more))
    ensures forall x :: x in AddAll(found, more) <==> x in found || x in more
    decreases |more|
  {
    if more != [] {
      var k := |more| - 1;
      AddAllHolds(found, more[..k]);
      assert more == more[..k] + [more[k]];
    }
  }

  /** What the list is collected from: the forms of each value that is long enough once trimmed. */
  ghost predicate IsFormOf(x: string, raw: string) {
    |Trim(raw)| >= MIN_KNOWN_SECRET_LENGTH && x in EncodedForms(Trim(raw))
  }

  lemma {:induction false} CollectedHolds(values: seq<string>)
    ensures StringOrder.Distinct(Collected(values))
    ensures forall x :: x in Collected(values) <==> exists raw :: raw in values && IsFormOf(x, raw)
  {
    hide EncodedForms, Trim, AddAll;
    if values != [] {
      var k := |values| - 1;
      CollectedHolds(values[..k]);
      AddAllHolds(Collected(values[..k]), FormsOf(values[k]));
      assert values == values[..k] + [values[k]];
      forall x ensures x in FormsOf(values[k]) <==> IsFormOf(x, values[k]) {
      }
    }
  }

  lemma PrependLongest(x: string, s: seq<string>)
    requires LongestFirst(s)
    requires forall j :: 0 <= j < |s| ==> |x| >= |s[j]| && x != s[j]
    ensures LongestFirst([x] + s)
  {
    var r := [x] + s;
    forall i, j | 0 <= i < j < |r| ensures |r[i]| >= |r[j]| && r[i] != r[j] {
      if i > 0 {
        assert r[i] == s[i - 1] && r[j] == s[j - 1];
      }
    }
  }

  lemma {:induction false} InsertByLengthSorted(x: string, s: seq<string>)
    requires LongestFirst(s) && x !in s
    ensures LongestFirst(InsertByLength(x, s))
  {
    hide LongestFirst;
    if s == [] {
      PrependLongest(x, s);
      assert [x] + s == [x];
    } else if |s[0]| >= |x| {
      TailLongest(s);
      var r := InsertByLength(x, s[1..]);
      InsertByLengthSorted(x, s[1..]);
      forall j | 0 <= j < |r| ensures |s[0]| >= |r[j]| && s[0] != r[j] {
        assert r[j] in multiset(r);
        assert r[j] == x || r[j] in s[1..];
      }
      PrependLongest(s[0], r);
    } else {
      TailLongest(s);
      forall j | 0 <= j < |s| ensures |x| >= |s[j]| && x != s[j] {
        assert j > 0 ==> s[j] == s[1..][j - 1];
      }
      PrependLongest(x, s);
    }
  }

  lemma TailLongest(s: seq<string>)
    requires s != [] && LongestFirst(s)
    ensures LongestFirst(s[1..])
    ensures forall y :: y in s[1..] ==> |s[0]| >= |y| && s[0] != y
  {
    forall i, j | 0 <= i < j < |s[1..]| ensures |s[1..][i]| >= |s[1..][j]| && s[1..][i] != s[1..][j] {
      assert s[1..][i] == s[i + 1] && s[1..][j] == s[j + 1];
    }
  }

  lemma {:induction false} SortByLengthSorted(s: seq<string>)
    requires StringOrder.Distinct(s)
    ensures LongestFirst(SortByLength(s))
  {
    if s != [] {
      var k := |s| - 1;
      SortByLengthSorted(s[..k]);
      assert s[k] !in multiset(s[..k]);
      assert s[k] !in multiset(SortByLength(s[..k]));
      InsertByLengthSorted(s[k], SortByLength(s[..k]));
    }
  }

  /** The needle list holds exactly the forms of the long enough values, each once, longest first. */
  lemma NeedleListHolds(values: seq<string>)
    ensures LongestFirst(NeedleList(values))
    ensures forall x :: x in NeedleList(values) <==> exists raw :: raw in values && IsFormOf(x, raw)
  {
    hide EncodedForms, Trim, Collected;
    CollectedHolds(values);
    SortByLengthSorted(Collected(values));
    forall x ensures x in NeedleList(values) <==> x in Collected(values) {
      assert x in NeedleList(values) <==> x in multiset(NeedleList(values));
    }
  }

  lemma {:induction false} EncodedFormsNotEmpty(value: string)
    requires value != ""
    ensures forall form :: form in EncodedForms(value) ==> form != ""
  {
    hide StableSerialize.EscapeAll, StableSerialize.Escape;
    assert EncodeUriComponent(value) != "" by {
      assert Utf8.EncodeChar(value[0]) != [];
    }
    assert StableSerialize.EscapeAll(value) == StableSerialize.Escape(value[0]) + StableSerialize.EscapeAll(value[1..]) by {
      EscapeAllStep(value);
    }
  }

  lemma EscapeAllStep(value: string)
    requires value != ""
    ensures StableSerialize.EscapeAll(value) == StableSerialize.Escape(value[0]) + StableSerialize.EscapeAll(value[1..])
  {
  }

  lemma NeedleListUsable(values: seq<string>)
    ensures NonEmptyNeedles(NeedleList(values))
  {
    hide EncodedForms, Trim, Collected;
    NeedleListHolds(values);
    var needles := NeedleList(values);
    forall i | 0 <= i < |needles| ensures needles[i] != "" {
      assert needles[i] in needles;
      var raw :| raw in values && IsFormOf(needles[i], raw);
      EncodedFormsNotEmpty(Trim(raw));
    }
  }

  lemma {:induction false} TrimKeepsCharacters(s: string)
    ensures forall c :: c in TrimStart(s) ==> c in s
    ensures forall c :: c in TrimEnd(s) ==> c in s
    decreases |s|
  {
    if s != "" {
      TrimKeepsCharacters(s[1..]);
      TrimKeepsCharacters(s[..|s| - 1]);
    }
  }

  /** Values without brackets: every form of every long enough value is gone from every text exactly when no such form
      lies inside the marker. */
  lemma KnownSecretsVanish(values: seq<string>)
    requires forall i :: 0 <= i < |values| ==> BracketFree(values[i])
    ensures NonEmptyNeedles(NeedleList(values))
    ensures (forall raw, form :: raw in values && IsFormOf(form, raw) ==> GoneFromEveryText(form, NeedleList(values)))
      <==> (forall raw, form :: raw in values && IsFormOf(form, raw) ==> !Contains(MARKER, form))
  {
    hide EncodedForms, Trim, Collected, NeedleList, ScrubText, Contains, GoneFromEveryText, IsFormOf;
    NeedleListUsable(values);
    NeedleListHolds(values);
    var needles := NeedleList(values);
    forall i | 0 <= i < |needles| ensures BracketFree(needles[i]) {
      assert needles[i] in needles;
      var raw :| raw in values && IsFormOf(needles[i], raw);
      NeedleIsBracketFree(needles[i], raw);
    }
    CleanIffNoNeedleInMarker(needles);
    forall i | 0 <= i < |needles| ensures exists raw :: raw in values && IsFormOf(needles[i], raw) {
      assert needles[i] in needles;
    }
    forall raw, form | raw in values && IsFormOf(form, raw) ensures exists i :: 0 <= i < |needles| && needles[i] == form {
      assert form in needles;
    }
  }

  lemma NeedleIsBracketFree(x: string, raw: string)
    requires BracketFree(raw) && IsFormOf(x, raw)
    ensures BracketFree(x)
  {
    hide EncodedForms;
    TrimKeepsCharacters(raw);
    TrimKeepsCharacters(TrimStart(raw));
    FormsAreBracketFree(Trim(raw));
  }

  lemma {:induction false} PlainEncodes(s: string)
    requires forall i :: 0 <= i < |s| ==> IsUnescapedInUri(s[i])
    ensures EncodeUriComponent(s) == s
  {
    if s != "" {
      PlainEncodes(s[1..]);
      assert [s[0]] + s[1..] == s;
    }
  }

  lemma {:induction false} PlainEscapes(s: string)
    requires forall i :: 0 <= i < |s| ==> s[i] as int >= 32 && s[i] != '"' && s[i] != '\\'
    ensures StableSerialize.EscapeAll(s) == s
  {
    if s != "" {
      PlainEscapes(s[1..]);
      assert [s[0]] + s[1..] == s;
    }
  }

  const SECRET := "]abcdef"
  const URI_FORM := "%5Dabcdef"
  const REST := "abcdef"

  lemma SecretForms()
    ensures Trim(SECRET) == SECRET && EncodedForms(SECRET) == [SECRET, URI_FORM, SECRET]
  {
    hide StableSerialize.EscapeAll, EncodeUriComponent;
    assert !IsSpace(SECRET[0]) && !IsSpace(SECRET[|SECRET| - 1]);
    PlainEscapes(SECRET);
    SecretEncodes();
  }

  lemma SecretEncodes()
    ensures EncodeUriComponent(SECRET) == URI_FORM
  {
    hide PercentEncode;
    assert SECRET[1..] == REST;
    PlainEncodes(REST);
    BracketEncodes();
    assert !IsUnescapedInUri(SECRET[0]);
    assert "%5D" + REST == URI_FORM;
  }

  lemma BracketEncodes()
    ensures PercentEncode(Utf8.EncodeChar(']')) == "%5D"
  {
    var bytes := Utf8.EncodeChar(']');
    assert bytes == [0x5d] && bytes[1..] == [];
    assert PercentEncode([]) == "";
  }

  lemma SecretNeedles()
    ensures NeedleList([SECRET]) == [URI_FORM, SECRET]
  {
    hide Trim, EncodedForms;
    SecretForms();
    assert URI_FORM[0] != SECRET[0];
    assert [SECRET][..0] == [];
    ThreeForms(SECRET, URI_FORM);
    assert Collected([SECRET]) == AddAll([], FormsOf(SECRET));
    TwoSorted(SECRET, URI_FORM);
  }

  lemma ThreeForms(a: string, b: string)
    requires a != b
    ensures AddAll([], [a, b, a]) == [a, b]
  {
    assert [a, b, a][..2] == [a, b] && [a, b][..1] == [a] && [a][..0] == [];
    assert AddAll([], [a]) == [a];
    assert AddAll([], [a, b]) == [a, b];
  }

  lemma TwoSorted(a: string, b: string)
    requires |a| < |b|
    ensures SortByLength([a, b]) == [b, a]
  {
    assert [a, b][..1] == [a] && [a][..0] == [];
    assert SortByLength([a]) == [a];
  }

  lemma NoUriForm(s: string)
    requires s == SECRET + REST || s == MARKER
    ensures !Contains(s, URI_FORM)
  {
    hide Contains;
    assert URI_FORM[0] == '%';
    FirstCharacterAbsent(s, URI_FORM);
  }

  lemma SecretScrubbed()
    ensures ScrubText(SECRET + REST, [URI_FORM, SECRET]) == MARKER + REST
  {
    hide Contains, Replace;
    NoUriForm(SECRET + REST);
    SplitAbsent(SECRET + REST, URI_FORM);
    LeadingNeedle(SECRET, REST);
    var needles := [URI_FORM, SECRET];
    assert needles[..1] == [URI_FORM] && [URI_FORM][..0] == [];
    assert ScrubText(SECRET + REST, [URI_FORM]) == SECRET + REST;
  }

  lemma MarkerMakesSecret()
    ensures Contains(MARKER + REST, SECRET)
  {
    assert (MARKER + REST)[15..15 + |SECRET|] == SECRET;
    assert OccursAt(MARKER + REST, SECRET, 15);
  }

  /** With a bracket the claim can fail although no form lies inside the marker: the marker of the first replacement and
      what follows it make up the secret again. */
  lemma BracketSecretSurvives()
    ensures NonEmptyNeedles(NeedleList([SECRET]))
    ensures forall form :: IsFormOf(form, SECRET) ==> !Contains(MARKER, form)
    ensures Contains(ScrubText(SECRET + REST, NeedleList([SECRET])), SECRET)
  {
    hide EncodedForms, NeedleList, Trim, Contains, ScrubText;
    SecretForms();
    SecretNeedles();
    SecretScrubbed();
    MarkerMakesSecret();
    NoUriForm(MARKER);
    SecretOutsideMarker();
  }

  lemma FirstCharacterAbsent(s: string, needle: string)
    requires needle != "" && forall i :: 0 <= i < |s| ==> s[i] != needle[0]
    ensures !Contains(s, needle)
  {
    forall i: nat ensures !OccursAt(s, needle, i) {
      if i + |needle| <= |s| {
        assert s[i..i + |needle|][0] == s[i];
      }
    }
  }

  lemma SecretOutsideMarker()
    ensures !Contains(MARKER, SECRET)
  {
    forall i: nat ensures !OccursAt(MARKER, SECRET, i) {
      if i + |SECRET| <= |MARKER| {
        assert MARKER[i..i + |SECRET|][0] == MARKER[i];
      }
    }
  }

  lemma LeadingNeedle(needle: string, rest: string)
    requires needle != "" && |rest| < |needle|
    ensures Replace(needle + rest, needle) == MARKER + rest
  {
    hide Split, IndexOf;
    var s := needle + rest;
    assert s[..|needle|] == needle && s[|needle|..] == rest;
    assert IndexOf(s, needle) == Some(0) by {
      FoundAtStart(s, needle);
    }
    SplitAbsent(rest, needle);
    assert Split(s, needle) == [""] + Split(rest, needle) by {
      SplitAtStart(s, needle);
    }
    assert Join(["", rest], MARKER) == "" + MARKER + rest;
  }

  lemma FoundAtStart(s: string, needle: string)
    requires |needle| <= |s| && s[..|needle|] == needle
    ensures IndexOf(s, needle) == Some(0)
  {
  }

  lemma SplitAtStart(s: string, needle: string)
    requires needle != "" && |needle| <= |s| && IndexOf(s, needle) == Some(0)
    ensures Split(s, needle) == [""] + Split(s[|needle|..], needle)
  {
  }

  // ---------- the set ----------

  class KnownSecretSet {
    var needles: seq<string>

    ghost predicate Valid()
      reads this
    {
      NonEmptyNeedles(needles)
    }

    constructor (values: seq<string>)
      ensures Valid()
      ensures needles == NeedleList(values)
    {
      var found: seq<string> := [];
      for v := 0 to |values|
        invariant found == Collected(values[..v])
      {
        assert values[..v + 1][..v] == values[..v];
        var value := Trim(values[v]);
        if |value| < MIN_KNOWN_SECRET_LENGTH {
          continue;
        }
        var forms := EncodedForms(value);
        var before := found;
        for f := 0 to |forms|
          invariant found == AddAll(before, forms[..f])
        {
          assert forms[..f + 1][..f] == forms[..f];
          if forms[f] !in found {
            found := found + [forms[f]];
          }
        }
        assert forms[..|forms|] == forms;
      }
      assert values[..|values|] == values;
      needles := SortByLength(found);
      NeedleListUsable(values);
    }

    method Scrub(text: string) returns (output: string, replaced: nat)
      requires Valid()
      ensures output == ScrubText(text, needles)
      ensures replaced == Sum(Counts(text, needles))
    {
      output, replaced := text, 0;
      for i := 0 to |needles|
        invariant output == ScrubText(text, needles[..i])
        invariant replaced == Sum(Counts(text, needles[..i]))
      {
        assert needles[..i + 1][..i] == needles[..i];
        var counts := Counts(text, needles[..i + 1]);
        assert counts[..i] == Counts(text, needles[..i]);
        if !Contains(output, needles[i]) {
          SplitAbsent(output, needles[i]);
          continue;
        }
        var parts := Split(output, needles[i]);
        replaced := replaced + |parts| - 1;
        output := Join(parts, MARKER);
      }
      assert needles[..|needles|] == needles;
    }
  }
}
