/** UTF-8, as far as byte counts and cuts at line ends need it. */
module Utf8 {

  /** A character as one to four bytes. */
  function EncodeChar(c: char): (bytes: seq<nat>)
    ensures 1 <= |bytes| <= 4 && forall i :: 0 <= i < |bytes| ==> bytes[i] < 256
  {
    var n := c as int;
    if n < 0x80 then [n]
    else if n < 0x800 then [0xC0 + n / 0x40, 0x80 + n % 0x40]
    else if n < 0x1_0000 then [0xE0 + n / 0x1000, 0x80 + n / 0x40 % 0x40, 0x80 + n % 0x40]
    else [0xF0 + n / 0x4_0000, 0x80 + n / 0x1000 % 0x40, 0x80 + n / 0x40 % 0x40, 0x80 + n % 0x40]
  }

  function Encode(s: string): (bytes: seq<nat>)
    ensures |bytes| >= |s|
  {
    if s == "" then [] else EncodeChar(s[0]) + Encode(s[1..])
  }

  /** The decoder is only ever given bytes that encode a string; all it must do is give that string back. */
  ghost predicate Decodes(decode: seq<nat> -> string) {
    forall s: string :: decode(Encode(s)) == s
  }

  lemma {:induction false} EncodeConcat(s: string, t: string)
    ensures Encode(s + t) == Encode(s) + Encode(t)
  {
    hide EncodeChar;
    if s == "" {
      assert s + t == t;
    } else {
      var first, rest := EncodeChar(s[0]), Encode(s[1..]);
      EncodeConcat(s[1..], t);
      assert (s + t)[0] == s[0] && (s + t)[1..] == s[1..] + t;
      assert Encode(s + t) == first + (rest + Encode(t)) by {
        hide Encode;
        EncodeFirst(s + t);
      }
      assert first + (rest + Encode(t)) == (first + rest) + Encode(t);
    }
  }

  lemma EncodeFirst(s: string)
    requires s != ""
    ensures Encode(s) == EncodeChar(s[0]) + Encode(s[1..])
  {
  }

  lemma EncodeSplit(s: string, i: nat)
    requires i <= |s|
    ensures Encode(s) == Encode(s[..i]) + Encode(s[i..])
  {
    assert s == s[..i] + s[i..];
    EncodeConcat(s[..i], s[i..]);
  }

  predicate Ascii(s: string) {
    forall i :: 0 <= i < |s| ==> s[i] as int < 0x80
  }

  lemma {:induction false} AsciiBytes(s: string)
    requires Ascii(s)
    ensures |Encode(s)| == |s|
  {
    if s != "" {
      AsciiBytes(s[1..]);
    }
  }

  lemma NewlineIsAlone(c: char, i: nat)
    requires i < |EncodeChar(c)| && EncodeChar(c)[i] == 10
    ensures c == '\n' && i == 0
  {
  }

  /** A newline byte is never part of a longer character: what follows one encodes what follows a newline. */
  lemma {:induction false} CutAfterNewline(s: string, i: nat) returns (j: nat)
    requires i < |Encode(s)| && Encode(s)[i] == 10
    ensures 0 < j <= |s| && s[j - 1] == '\n' && Encode(s)[i + 1..] == Encode(s[j..])
  {
    hide EncodeChar;
    var first := EncodeChar(s[0]);
    if i < |first| {
      NewlineIsAlone(s[0], i);
      NewlineIsOneByte();
      j := 1;
    } else {
      var k := CutAfterNewline(s[1..], i - |first|);
      j := k + 1;
      assert s[1..][k..] == s[j..];
    }
  }

  lemma NewlineIsOneByte()
    ensures EncodeChar('\n') == [10] && Encode("\n") == [10]
  {
  }

  /** The byte before the cut at a newline is the newline. */
  lemma NewlineBeforeCut(s: string, j: nat)
    requires 0 < j <= |s| && s[j - 1] == '\n'
    ensures var n := |Encode(s[..j])|; 0 < n <= |Encode(s)| && Encode(s)[n - 1] == 10
  {
    EncodeSplit(s, j);
    EncodeSplit(s[..j], j - 1);
    assert s[..j][j - 1..] == "\n";
    NewlineIsOneByte();
    assert Encode(s[..j]) == Encode(s[..j][..j - 1]) + [10];
    assert Encode(s[..j])[|Encode(s[..j])| - 1] == 10;
  }

  /** A shorter suffix has fewer bytes. */
  lemma SuffixBytes(s: string, i: nat, j: nat)
    requires i < j <= |s|
    ensures |Encode(s[i..])| > |Encode(s[j..])|
  {
    EncodeSplit(s[i..], j - i);
    assert s[i..][j - i..] == s[j..];
  }
}
