/** Keeping the end of an over-long text, cut at a line end. */
module Tail {
  import opened Text
  import opened Utf8

  const NEWLINE := 10
  const MARKER_RESERVE_BYTES := 96

  /** No buffer is longer than this. */
  const MAX_BUFFER_BYTES := 0x20_0000_0000_0000

  datatype TailResult = TailResult(text: string, droppedBytes: nat)

  function TruncationMarker(droppedBytes: nat): string {
    "\U{2026}[truncated " + Decimal(droppedBytes) + " bytes from head]\n"
  }

  /** The first place of the byte from a position on, or -1. */
  function IndexOfByte(buffer: seq<nat>, b: nat, from: nat): (r: int)
    requires from <= |buffer|
    ensures r == -1 || from <= r < |buffer|
    ensures r >= 0 ==> buffer[r] == b && forall i :: from <= i < r ==> buffer[i] != b
    ensures r < 0 ==> forall i :: from <= i < |buffer| ==> buffer[i] != b
    decreases |buffer| - from
  {
    if from == |buffer| then -1
    else if buffer[from] == b then from
    else IndexOfByte(buffer, b, from + 1)
  }

  function DropPartialFirstLine(buffer: seq<nat>): seq<nat> {
    var index := IndexOfByte(buffer, NEWLINE, 0);
    if index < 0 then [] else buffer[index + 1..]
  }

  function Budget(maxBytes: int): nat {
    if maxBytes < MARKER_RESERVE_BYTES then 0 else maxBytes - MARKER_RESERVE_BYTES
  }

  function TailText(decode: seq<nat> -> string, text: string, maxBytes: int): TailResult {
    var buffer := Encode(text);
    if |buffer| <= maxBytes then TailResult(text, 0)
    else
      var kept := DropPartialFirstLine(buffer[|buffer| - Budget(maxBytes)..]);
      var droppedBytes: nat := |buffer| - |kept|;
      TailResult(TruncationMarker(droppedBytes) + decode(kept), droppedBytes)
  }

  // ---------- what is kept ----------

  /** Where a line of the text starts, or its end. */
  predicate LineStart(text: string, j: nat) {
    j <= |text| && (j == |text| || (j > 0 && text[j - 1] == '\n'))
  }

  /** An over-long text becomes the marker and its lines from j on: they fit the budget, and no earlier line start leaves
      less than the budget. */
  ghost predicate KeptFrom(text: string, maxBytes: int, r: TailResult, j: nat) {
    LineStart(text, j)
    && r.text == TruncationMarker(r.droppedBytes) + text[j..]
    && r.droppedBytes == |Encode(text[..j])|
    && |Encode(text[j..])| <= Budget(maxBytes)
    && forall i: nat :: i < j && LineStart(text, i) ==> |Encode(text[i..])| >= Budget(maxBytes)
  }

  lemma TailKeepsWholeLines(decode: seq<nat> -> string, text: string, maxBytes: int) returns (j: nat)
    requires Decodes(decode) && |Encode(text)| > maxBytes
    ensures KeptFrom(text, maxBytes, TailText(decode, text, maxBytes), j)
  {
    hide Encode, TruncationMarker, IndexOfByte;
    var buffer, budget := Encode(text), Budget(maxBytes);
    var start := |buffer| - budget;
    var index := IndexOfByte(buffer[start..], NEWLINE, 0);
    if index < 0 {
      j := |text|;
      assert text[j..] == "" && text[..j] == text;
      assert Encode("") == [] by {
        EmptyEncoding();
      }
    } else {
      j := CutAfterNewline(text, start + index);
      assert buffer[start..][index + 1..] == buffer[start + index + 1..];
    }
    EncodeSplit(text, j);
    var end := if index < 0 then |buffer| else start + index;
    forall k | start <= k < end ensures buffer[k] != NEWLINE {
      assert buffer[k] == buffer[start..][k - start];
    }
    forall i: nat | i < j && LineStart(text, i) ensures |Encode(text[i..])| >= budget {
      EncodeSplit(text, i);
      NewlineBeforeCut(text, i);
      SuffixBytes(text, i, j);
      var before := |Encode(text[..i])| - 1;
      assert before < start;
    }
  }

  lemma EmptyEncoding()
    ensures Encode("") == []
  {
  }

  // ---------- how long the result is ----------

  function Pow10(k: nat): nat {
    if k == 0 then 1 else 10 * Pow10(k - 1)
  }

  lemma {:induction false} DecimalLength(n: nat, k: nat)
    requires n < Pow10(k + 1)
    ensures 1 <= |Decimal(n)| <= k + 1 && Ascii(Decimal(n))
    decreases k
  {
    assert Ascii(DIGITS);
    if n >= 10 {
      if k == 0 {
        assert false;
      }
      DecimalLength(n / 10, k - 1);
    }
  }

  lemma BufferDigits()
    ensures MAX_BUFFER_BYTES < Pow10(16)
  {
    assert Pow10(4) == 10000;
    assert Pow10(8) == 10000 * Pow10(4);
    assert Pow10(12) == 10000 * Pow10(8);
    assert Pow10(16) == 10000 * Pow10(12);
  }

  lemma MarkerBytes(n: nat)
    requires n < MAX_BUFFER_BYTES
    ensures 32 < |Encode(TruncationMarker(n))| <= 48
  {
    BufferDigits();
    DecimalLength(n, 15);
    MarkerLayout(Decimal(n));
  }

  lemma MarkerLayout(digits: string)
    requires Ascii(digits)
    ensures |Encode("\U{2026}[truncated " + digits + " bytes from head]\n")| == 32 + |digits|
  {
    hide EncodeChar, Encode, Ascii;
    var head, tail := "\U{2026}[truncated ", " bytes from head]\n";
    EncodeConcat(head + digits, tail);
    EncodeConcat(head, digits);
    AsciiBytes(digits);
    MarkerHead();
    MarkerTail();
  }

  lemma MarkerHead()
    ensures |Encode("\U{2026}[truncated ")| == 14
  {
    hide Encode;
    assert "\U{2026}[truncated " == "\U{2026}" + "[truncated ";
    EncodeConcat("\U{2026}", "[truncated ");
    AsciiBytes("[truncated ");
    EllipsisBytes();
  }

  lemma EllipsisBytes()
    ensures |Encode("\U{2026}")| == 3
  {
    assert |EncodeChar('\U{2026}')| == 3;
  }

  lemma MarkerTail()
    ensures |Encode(" bytes from head]\n")| == 18
  {
    hide Encode;
    AsciiBytes(" bytes from head]\n");
  }

  /** The result stays within the cap exactly when the text does or the cap has room for the marker. */
  lemma TailFits(decode: seq<nat> -> string, text: string, maxBytes: int)
    requires Decodes(decode) && |Encode(text)| < MAX_BUFFER_BYTES
    ensures |Encode(TailText(decode, text, maxBytes).text)| <= maxBytes
      <==> |Encode(text)| <= maxBytes || |Encode(TruncationMarker(|Encode(text)|))| <= maxBytes
  {
    hide Encode, TruncationMarker, TailText;
    if |Encode(text)| <= maxBytes {
      ShortTextKept(decode, text, maxBytes);
    } else {
      var r := TailText(decode, text, maxBytes);
      var j := TailKeepsWholeLines(decode, text, maxBytes);
      EncodeSplit(text, j);
      EncodeConcat(TruncationMarker(r.droppedBytes), text[j..]);
      MarkerBytes(r.droppedBytes);
      MarkerBytes(|Encode(text)|);
    }
  }

  lemma ShortTextKept(decode: seq<nat> -> string, text: string, maxBytes: int)
    requires |Encode(text)| <= maxBytes
    ensures TailText(decode, text, maxBytes) == TailResult(text, 0)
  {
  }
}
