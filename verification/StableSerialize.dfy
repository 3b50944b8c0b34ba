/** The canonical text of a JSON-like value: object keys sorted, everything else as JSON.stringify prints it.
    Two values get the same text exactly when they are the same value up to key order. */
module StableSerialize {
  import opened Wrappers
  import opened StringOrder

  // ---------- values ----------

  /** A number stands for the text JavaScript prints for it, which determines it. */
  datatype Value =
    | Null
    | Undefined
    | Bool(b: bool)
    | Number(text: string)
    | String(s: string)
    | Array(items: seq<Value>)
    | Object(fields: seq<Field>)

  datatype Field = Field(key: string, value: Value)

  predicate IsNumberChar(c: char) {
    '0' <= c <= '9' || c in "+-.e"
  }

  predicate IsNumberText(t: string) {
    && t != "" && (t[0] == '-' || '0' <= t[0] <= '9')
    && forall i :: 0 <= i < |t| ==> IsNumberChar(t[i])
  }

  function Keys(fields: seq<Field>): (keys: seq<string>)
    ensures |keys| == |fields|
  {
    seq(|fields|, i requires 0 <= i < |fields| => fields[i].key)
  }

  /** Numbers print as numbers and no object has a key twice. */
  ghost predicate WellFormed(v: Value) {
    match v
    case Number(t) => IsNumberText(t)
    case Array(items) => forall i :: 0 <= i < |items| ==> WellFormed(items[i])
    case Object(fields) => Distinct(Keys(fields)) && forall i :: 0 <= i < |fields| ==> WellFormed(fields[i].value)
    case _ => true
  }

  function Get(fields: seq<Field>, key: string): (v: Value)
    requires key in Keys(fields)
    ensures exists i :: 0 <= i < |fields| && fields[i] == Field(key, v)
  {
    if fields[0].key == key then
      assert fields[0] == Field(key, fields[0].value);
      fields[0].value
    else
      assert forall i :: 0 <= i < |fields[1..]| ==> fields[1..][i] == fields[i + 1];
      assert key in Keys(fields[1..]) by {
        var i :| 0 <= i < |fields| && Keys(fields)[i] == key;
        assert Keys(fields[1..])[i - 1] == key;
      }
      Get(fields[1..], key)
  }

  // ---------- JSON string literals ----------

  const HEX := "0123456789abcdef"

  function Escape(c: char): (r: string)
    ensures r != "" && r[0] != '"'
  {
    if c == '"' then "\\\"" else if c == '\\' then "\\\\"
    else if c == 8 as char then "\\b" else if c == '\t' then "\\t" else if c == '\n' then "\\n"
    else if c == 12 as char then "\\f" else if c == '\r' then "\\r"
    else if c as int < 32 then "\\u00" + [HEX[c as int / 16], HEX[c as int % 16]]
    else [c]
  }

  function EscapeAll(s: string): string {
    if s == "" then "" else Escape(s[0]) + EscapeAll(s[1..])
  }

  function Quote(s: string): string {
    "\"" + EscapeAll(s) + "\""
  }

  lemma EscapeSelfDelimiting(c: char, d: char, r1: string, r2: string)
    requires Escape(c) + r1 == Escape(d) + r2
    ensures c == d && r1 == r2
  {
    var x, y := Escape(c), Escape(d);
    assert x[0] == (x + r1)[0] == (y + r2)[0] == y[0];
    if |x| > 1 && |y| > 1 {
      assert x[1] == (x + r1)[1] == (y + r2)[1] == y[1];
      if x[1] == 'u' {
        assert x[4] == (x + r1)[4] == (y + r2)[4] == y[4];
        assert x[5] == (x + r1)[5] == (y + r2)[5] == y[5];
        HexInjective(c as int / 16, d as int / 16);
        HexInjective(c as int % 16, d as int % 16);
      }
    }
    assert c == d;
    assert r1 == (x + r1)[|x|..] == (y + r2)[|y|..] == r2;
  }

  lemma HexInjective(m: nat, n: nat)
    requires m < 16 && n < 16 && HEX[m] == HEX[n]
    ensures m == n
  {
  }

  lemma EscapeAllStart(s: string, r: string)
    ensures var x := EscapeAll(s) + "\"" + r;
      && x != "" && (x[0] == '"' <==> s == "")
      && (s == "" ==> x == "\"" + r)
      && (s != "" ==> x == Escape(s[0]) + (EscapeAll(s[1..]) + "\"" + r))
  {
    hide Escape;
    if s != "" {
      var x, y := Escape(s[0]), EscapeAll(s[1..]);
      assert x + y + "\"" + r == x + (y + "\"" + r);
    }
  }

  lemma {:induction false} EscapeAllSelfDelimiting(s: string, t: string, r1: string, r2: string)
    requires EscapeAll(s) + "\"" + r1 == EscapeAll(t) + "\"" + r2
    ensures s == t && r1 == r2
  {
    hide Escape;
    EscapeAllStart(s, r1);
    EscapeAllStart(t, r2);
    if s == "" {
      StripFirst('"', r1, r2);
    } else {
      var u, v := EscapeAll(s[1..]) + "\"" + r1, EscapeAll(t[1..]) + "\"" + r2;
      EscapeSelfDelimiting(s[0], t[0], u, v);
      EscapeAllSelfDelimiting(s[1..], t[1..], r1, r2);
      assert s == [s[0]] + s[1..] && t == [t[0]] + t[1..];
    }
  }

  lemma QuoteSelfDelimiting(s: string, t: string, r1: string, r2: string)
    requires Quote(s) + r1 == Quote(t) + r2
    ensures s == t && r1 == r2
  {
    hide EscapeAll;
    assert (Quote(s) + r1)[1..] == EscapeAll(s) + "\"" + r1;
    assert (Quote(t) + r2)[1..] == EscapeAll(t) + "\"" + r2;
    EscapeAllSelfDelimiting(s, t, r1, r2);
  }

  // ---------- the serialiser ----------

  /** The text of a value other than undefined. */
  function Text(v: Value): string
    requires v != Undefined
    decreases v, 2
  {
    match v
    case Null => "null"
    case Bool(b) => if b then "true" else "false"
    case Number(t) => t
    case String(s) => Quote(s)
    case Array(_) => "[" + ItemsText(v, 0) + "]"
    case Object(fields) =>
      SortedKeysAreKeys(fields);
      "{" + FieldsText(v, Sort(Keys(fields))) + "}"
  }

  /** `join` prints an undefined element as nothing. */
  function ItemText(v: Value): string
    decreases v, 3
  {
    if v == Undefined then "" else Text(v)
  }

  function ItemsText(v: Value, i: nat): string
    requires v.Array? && i <= |v.items|
    decreases v, 1, |v.items| - i
  {
    if i == |v.items| then ""
    else if i == |v.items| - 1 then ItemText(v.items[i])
    else ItemText(v.items[i]) + "," + ItemsText(v, i + 1)
  }

  /** A template literal prints an undefined field as the word. */
  function FieldText(v: Value): string
    decreases v, 3
  {
    if v == Undefined then "undefined" else Text(v)
  }

  function FieldsText(v: Value, keys: seq<string>): string
    requires v.Object? && forall k :: k in keys ==> k in Keys(v.fields)
    decreases v, 1, |keys|
  {
    if keys == [] then ""
    else
      var head := Quote(keys[0]) + ":" + FieldText(Get(v.fields, keys[0]));
      if |keys| == 1 then head else head + "," + FieldsText(v, keys[1..])
  }

  lemma SortedKeysAreKeys(fields: seq<Field>)
    ensures forall k :: k in Sort(Keys(fields)) <==> k in Keys(fields)
  {
    forall k ensures k in Sort(Keys(fields)) <==> k in Keys(fields) {
      assert k in multiset(Sort(Keys(fields))) <==> k in multiset(Keys(fields));
    }
  }

  function Serialize(v: Value): Option<string> {
    if v == Undefined then None else Some(Text(v))
  }

  // ---------- sameness ----------

  /** `join` cannot tell a lone undefined element from no element. */
  function Items(v: Value): seq<Value>
    requires v.Array?
  {
    if v.items == [Undefined] then [] else v.items
  }

  /** Equality up to the order of object keys and the one collapse of `Items`. */
  ghost predicate Same(v: Value, w: Value)
    decreases v
  {
    match v
    case Array(_) =>
      && w.Array? && |Items(v)| == |Items(w)|
      && forall i :: 0 <= i < |Items(v)| ==> Same(Items(v)[i], Items(w)[i])
    case Object(fields) =>
      && w.Object?
      && (forall k :: k in Keys(fields) <==> k in Keys(w.fields))
      && forall k :: k in Keys(fields) && k in Keys(w.fields) ==> Same(Get(fields, k), Get(w.fields, k))
    case _ => v == w
  }

  // ---------- equal texts mean the same value ----------

  /** What may follow a value inside a text. */
  predicate Ends(rest: string) {
    rest == "" || rest[0] in ",]}"
  }

  /** The first character tells the kind of a value. */
  function FirstChar(v: Value): (c: char)
    requires WellFormed(v) && v != Undefined
    ensures c !in ",]}u"
  {
    match v
    case Null => 'n'
    case Bool(b) => if b then 't' else 'f'
    case Number(t) => t[0]
    case String(_) => '"'
    case Array(_) => '['
    case Object(_) => '{'
  }

  lemma TextStart(v: Value)
    requires WellFormed(v) && v != Undefined
    ensures Text(v) != "" && Text(v)[0] == FirstChar(v)
  {
  }

  /** How many characters at the start of a text can belong to a number. */
  function Span(x: string): nat {
    if x == "" || !IsNumberChar(x[0]) then 0 else 1 + Span(x[1..])
  }

  lemma {:induction false} SpanOfNumber(t: string, r: string)
    requires (forall i :: 0 <= i < |t| ==> IsNumberChar(t[i])) && Ends(r)
    ensures Span(t + r) == |t|
  {
    if t == "" {
      assert t + r == r;
    } else {
      assert (t + r)[1..] == t[1..] + r;
      SpanOfNumber(t[1..], r);
    }
  }

  lemma NumberSelfDelimiting(s: string, t: string, r1: string, r2: string)
    requires IsNumberText(s) && IsNumberText(t) && Ends(r1) && Ends(r2) && s + r1 == t + r2
    ensures s == t && r1 == r2
  {
    SpanOfNumber(s, r1);
    SpanOfNumber(t, r2);
    assert s == (s + r1)[..|s|] == (t + r2)[..|t|] == t;
    assert r1 == (s + r1)[|s|..] == (t + r2)[|t|..] == r2;
  }

  lemma StripFirst(c: char, x: string, y: string)
    requires [c] + x == [c] + y
    ensures x == y
  {
    assert ([c] + x)[1..] == x && ([c] + y)[1..] == y;
  }

  /** A text followed by an end is read back in one way only. */
  lemma {:induction false} TextSelfDelimiting(v: Value, w: Value, r1: string, r2: string)
    requires WellFormed(v) && WellFormed(w) && v != Undefined && w != Undefined
    requires Ends(r1) && Ends(r2) && Text(v) + r1 == Text(w) + r2
    ensures Same(v, w) && r1 == r2
    decreases v, 2
  {
    TextStart(v);
    TextStart(w);
    assert (Text(v) + r1)[0] == FirstChar(v) && (Text(w) + r2)[0] == FirstChar(w);
    match v
    case Null => AtomSelfDelimiting("null", r1, r2);
    case Bool(b) => AtomSelfDelimiting(if b then "true" else "false", r1, r2);
    case Number(t) => NumberSelfDelimiting(t, w.text, r1, r2);
    case String(s) => QuoteSelfDelimiting(s, w.s, r1, r2);
    case Array(_) =>
      Bracketed('[', ItemsText(v, 0), "]", r1);
      Bracketed('[', ItemsText(w, 0), "]", r2);
      ArraySelfDelimiting(v, w, r1, r2);
    case Object(_) =>
      SortedKeysAreKeys(v.fields);
      SortedKeysAreKeys(w.fields);
      var keys, keys' := Sort(Keys(v.fields)), Sort(Keys(w.fields));
      Bracketed('{', FieldsText(v, keys), "}", r1);
      Bracketed('{', FieldsText(w, keys'), "}", r2);
      FieldsSelfDelimiting(v, w, keys, keys', r1, r2);
  }

  lemma AtomSelfDelimiting(t: string, r1: string, r2: string)
    requires t + r1 == t + r2
    ensures r1 == r2
  {
    assert (t + r1)[|t|..] == r1 && (t + r2)[|t|..] == r2;
  }

  lemma Bracketed(open: char, body: string, close: string, rest: string)
    ensures ([open] + body + close + rest)[1..] == body + close + rest
  {
  }

  lemma {:induction false} ArraySelfDelimiting(v: Value, w: Value, r1: string, r2: string)
    requires WellFormed(v) && WellFormed(w) && v.Array? && w.Array?
    requires ItemsText(v, 0) + "]" + r1 == ItemsText(w, 0) + "]" + r2
    ensures Same(v, w) && r1 == r2
    decreases v, 1, |v.items| + 1
  {
    ItemsTextStart(v, 0, r1);
    ItemsTextStart(w, 0, r2);
    var x := ItemsText(v, 0) + "]" + r1;
    if Items(v) == [] || Items(w) == [] {
      assert x[0] == ']' && Items(v) == Items(w) == [];
      StripFirst(']', r1, r2);
    } else {
      ItemsSelfDelimiting(v, w, 0, r1, r2);
    }
  }

  /** Only a list of no visible elements starts with its closing bracket. */
  lemma ItemsTextStart(v: Value, i: nat, r: string)
    requires WellFormed(v) && v.Array? && i <= |v.items|
    ensures var x := ItemsText(v, i) + "]" + r;
      && x != ""
      && (x[0] == ']' <==> i == |v.items| || v.items[i..] == [Undefined])
      && (x[0] == ']' ==> x == "]" + r)
  {
    if i < |v.items| {
      if v.items[i] != Undefined {
        TextStart(v.items[i]);
      }
    }
  }

  lemma ItemsTextStep(v: Value, i: nat, r: string)
    requires v.Array? && i < |v.items|
    ensures ItemsText(v, i) + "]" + r
      == ItemText(v.items[i]) + if i == |v.items| - 1 then "]" + r else "," + (ItemsText(v, i + 1) + "]" + r)
  {
    hide ItemText;
    var x := ItemText(v.items[i]);
    if i == |v.items| - 1 {
      assert x + "]" + r == x + ("]" + r);
    } else {
      var y := ItemsText(v, i + 1);
      assert x + "," + y + "]" + r == x + ("," + (y + "]" + r));
    }
  }

  lemma ItemWellFormed(v: Value, i: nat)
    requires v.Array? && i < |v.items| && WellFormed(v)
    ensures WellFormed(v.items[i]) && v.items[i] < v
  {
  }

  lemma CommaEnds(s: string)
    requires s != "" && (s[0] == ',' || s[0] == ']' || s[0] == '}')
    ensures Ends(s)
  {
  }

  lemma {:induction false} ItemsSelfDelimiting(v: Value, w: Value, i: nat, r1: string, r2: string)
    requires WellFormed(v) && WellFormed(w) && v.Array? && w.Array?
    requires i < |v.items| && i < |w.items|
    requires ItemsText(v, i) + "]" + r1 == ItemsText(w, i) + "]" + r2
    ensures |v.items| == |w.items| && r1 == r2
    ensures forall k :: i <= k < |v.items| ==> Same(v.items[k], w.items[k])
    decreases v, 1, |v.items| - i
  {
    hide ItemsText, ItemText, Text, Same, WellFormed, Ends;
    ItemsTextStep(v, i, r1);
    ItemsTextStep(w, i, r2);
    ItemWellFormed(v, i);
    ItemWellFormed(w, i);
    var a := if i == |v.items| - 1 then "]" + r1 else "," + (ItemsText(v, i + 1) + "]" + r1);
    var b := if i == |w.items| - 1 then "]" + r2 else "," + (ItemsText(w, i + 1) + "]" + r2);
    CommaEnds(a);
    CommaEnds(b);
    ItemSelfDelimiting(v.items[i], w.items[i], a, b);
    if i == |v.items| - 1 {
      StripFirst(']', r1, r2);
    } else {
      StripFirst(',', ItemsText(v, i + 1) + "]" + r1, ItemsText(w, i + 1) + "]" + r2);
      ItemsSelfDelimiting(v, w, i + 1, r1, r2);
    }
  }

  lemma {:induction false} ItemSelfDelimiting(v: Value, w: Value, a: string, b: string)
    requires WellFormed(v) && WellFormed(w)
    requires a != "" && b != "" && Ends(a) && Ends(b) && ItemText(v) + a == ItemText(w) + b
    ensures Same(v, w) && a == b
    decreases v, 3
  {
    ItemTextStart(v, a);
    ItemTextStart(w, b);
    if v != Undefined {
      TextSelfDelimiting(v, w, a, b);
    }
  }

  lemma ItemTextStart(v: Value, a: string)
    requires WellFormed(v) && a != "" && Ends(a)
    ensures var x := ItemText(v) + a;
      x != "" && (x[0] in ",]}" <==> v == Undefined) && (v == Undefined ==> x == a)
  {
    if v != Undefined {
      TextStart(v);
      assert (ItemText(v) + a)[0] == FirstChar(v);
    }
  }

  lemma FieldTextStart(v: Value, a: string)
    requires WellFormed(v)
    ensures var x := FieldText(v) + a; x != "" && (x[0] == 'u' <==> v == Undefined)
  {
    if v != Undefined {
      TextStart(v);
      assert (FieldText(v) + a)[0] == FirstChar(v);
    }
  }

  lemma {:induction false} FieldSelfDelimiting(v: Value, w: Value, a: string, b: string)
    requires WellFormed(v) && WellFormed(w)
    requires Ends(a) && Ends(b) && FieldText(v) + a == FieldText(w) + b
    ensures Same(v, w) && a == b
    decreases v, 3
  {
    FieldTextStart(v, a);
    FieldTextStart(w, b);
    if v == Undefined {
      AtomSelfDelimiting("undefined", a, b);
    } else {
      TextSelfDelimiting(v, w, a, b);
    }
  }

  lemma Regroup(q: string, f: string, rest: string, r: string)
    ensures q + ":" + f + "}" + r == q + (":" + (f + ("}" + r)))
    ensures q + ":" + f + "," + rest + "}" + r == q + (":" + (f + ("," + (rest + "}" + r))))
  {
  }

  lemma FieldsTextStart(v: Value, keys: seq<string>, r: string)
    requires v.Object? && forall k :: k in keys ==> k in Keys(v.fields)
    ensures var x := FieldsText(v, keys) + "}" + r;
      && x != "" && (x[0] == '}' <==> keys == [])
      && (keys == [] ==> x == "}" + r)
      && (keys != [] ==>
            var a := if |keys| == 1 then "}" + r else "," + (FieldsText(v, keys[1..]) + "}" + r);
            x == Quote(keys[0]) + (":" + (FieldText(Get(v.fields, keys[0])) + a)))
  {
    hide Text, FieldText, EscapeAll, Get;
    if keys != [] {
      var rest := if |keys| == 1 then "" else FieldsText(v, keys[1..]);
      Regroup(Quote(keys[0]), FieldText(Get(v.fields, keys[0])), rest, r);
      assert Quote(keys[0])[0] == '"';
    }
  }

  lemma {:induction false} FieldsSelfDelimiting(v: Value, w: Value, keys: seq<string>, keys': seq<string>, r1: string, r2: string)
    requires WellFormed(v) && WellFormed(w) && v.Object? && w.Object?
    requires (forall k :: k in keys ==> k in Keys(v.fields)) && (forall k :: k in keys' ==> k in Keys(w.fields))
    requires FieldsText(v, keys) + "}" + r1 == FieldsText(w, keys') + "}" + r2
    ensures keys == keys' && r1 == r2
    ensures forall k :: k in keys ==> Same(Get(v.fields, k), Get(w.fields, k))
    decreases v, 1, |keys|
  {
    hide FieldsText, FieldText, Text, Quote, EscapeAll, Same, WellFormed, Ends, Get;
    var x, y := FieldsText(v, keys) + "}" + r1, FieldsText(w, keys') + "}" + r2;
    FieldsTextStart(v, keys, r1);
    FieldsTextStart(w, keys', r2);
    if keys == [] {
      StripFirst('}', r1, r2);
    } else {
      var f, g := Get(v.fields, keys[0]), Get(w.fields, keys'[0]);
      var a := if |keys| == 1 then "}" + r1 else "," + (FieldsText(v, keys[1..]) + "}" + r1);
      var b := if |keys'| == 1 then "}" + r2 else "," + (FieldsText(w, keys'[1..]) + "}" + r2);
      QuoteSelfDelimiting(keys[0], keys'[0], ":" + (FieldText(f) + a), ":" + (FieldText(g) + b));
      StripFirst(':', FieldText(f) + a, FieldText(g) + b);
      GetWellFormed(v, keys[0]);
      GetWellFormed(w, keys'[0]);
      CommaEnds(a);
      CommaEnds(b);
      FieldSelfDelimiting(f, g, a, b);
      if |keys| == 1 {
        StripFirst('}', r1, r2);
      } else {
        StripFirst(',', FieldsText(v, keys[1..]) + "}" + r1, FieldsText(w, keys'[1..]) + "}" + r2);
        FieldsSelfDelimiting(v, w, keys[1..], keys'[1..], r1, r2);
      }
      assert keys == [keys[0]] + keys[1..] && keys' == [keys'[0]] + keys'[1..];
    }
  }

  lemma GetWellFormed(v: Value, k: string)
    requires v.Object? && WellFormed(v) && k in Keys(v.fields)
    ensures WellFormed(Get(v.fields, k)) && Get(v.fields, k) < v
  {
    var i :| 0 <= i < |v.fields| && v.fields[i] == Field(k, Get(v.fields, k));
  }

  // ---------- the same value has one text ----------

  lemma {:induction false} SameText(v: Value, w: Value)
    requires WellFormed(v) && WellFormed(w) && Same(v, w)
    ensures ItemText(v) == ItemText(w) && FieldText(v) == FieldText(w)
    ensures v == Undefined <==> w == Undefined
    decreases v, 2
  {
    match v
    case Array(_) =>
      if Items(v) == [] {
        NoVisibleItems(v);
        NoVisibleItems(w);
      } else {
        SameItemsText(v, w, 0);
      }
    case Object(_) =>
      SortForgetsOrder(Keys(v.fields), Keys(w.fields));
      SortedKeysAreKeys(v.fields);
      SortedKeysAreKeys(w.fields);
      SameFieldsText(v, w, Sort(Keys(v.fields)));
    case _ =>
  }

  lemma NoVisibleItems(v: Value)
    requires v.Array? && Items(v) == []
    ensures ItemsText(v, 0) == ""
  {
    assert v.items == [] || (|v.items| == 1 && v.items[0] == Undefined);
  }

  lemma {:induction false} SameItemsText(v: Value, w: Value, i: nat)
    requires WellFormed(v) && WellFormed(w) && v.Array? && w.Array?
    requires |v.items| == |w.items| && i <= |v.items|
    requires forall k :: 0 <= k < |v.items| ==> Same(v.items[k], w.items[k])
    ensures ItemsText(v, i) == ItemsText(w, i)
    decreases v, 1, |v.items| - i
  {
    if i < |v.items| {
      SameText(v.items[i], w.items[i]);
      SameItemsText(v, w, i + 1);
    }
  }

  lemma {:induction false} SameFieldsText(v: Value, w: Value, keys: seq<string>)
    requires WellFormed(v) && WellFormed(w) && v.Object? && w.Object?
    requires forall k :: k in keys ==> k in Keys(v.fields) && k in Keys(w.fields)
    requires forall k :: k in keys ==> Same(Get(v.fields, k), Get(w.fields, k))
    ensures FieldsText(v, keys) == FieldsText(w, keys)
    decreases v, 1, |keys|
  {
    if keys != [] {
      GetWellFormed(v, keys[0]);
      GetWellFormed(w, keys[0]);
      SameText(Get(v.fields, keys[0]), Get(w.fields, keys[0]));
      SameFieldsText(v, w, keys[1..]);
    }
  }

  /** Two values serialise alike exactly when they are the same up to key order and the one collapse. */
  lemma SerializeDecidesSame(v: Value, w: Value)
    requires WellFormed(v) && WellFormed(w)
    ensures Serialize(v) == Serialize(w) <==> Same(v, w)
  {
    if Same(v, w) {
      SameText(v, w);
    }
    if Serialize(v) == Serialize(w) && v != Undefined {
      TextSelfDelimiting(v, w, "", "");
    }
  }

  /** The collapse is real: an array holding only undefined has the text of the empty array. */
  lemma LoneUndefinedCollapses()
    ensures Serialize(Array([Undefined])) == Serialize(Array([]))
    ensures Array([Undefined]) != Array([])
  {
    NoVisibleItems(Array([Undefined]));
  }

  // ---------- values that came out of JSON ----------

  /** Parsed JSON holds no undefined. */
  ghost predicate IsJson(v: Value) {
    match v
    case Undefined => false
    case Array(items) => forall i :: 0 <= i < |items| ==> IsJson(items[i])
    case Object(fields) => forall i :: 0 <= i < |fields| ==> IsJson(fields[i].value)
    case _ => true
  }

  /** Equality of values as maps, arrays and scalars. */
  ghost predicate Equal(v: Value, w: Value)
    decreases v
  {
    match v
    case Array(items) =>
      w.Array? && |items| == |w.items| && forall i :: 0 <= i < |items| ==> Equal(items[i], w.items[i])
    case Object(fields) =>
      && w.Object?
      && (forall k :: k in Keys(fields) <==> k in Keys(w.fields))
      && forall k :: k in Keys(fields) && k in Keys(w.fields) ==> Equal(Get(fields, k), Get(w.fields, k))
    case _ => v == w
  }

  lemma {:induction false} SameIsEqualOnJson(v: Value, w: Value)
    requires IsJson(v) && IsJson(w)
    ensures Same(v, w) <==> Equal(v, w)
    decreases v
  {
    if v.Array? && w.Array? {
      assert v.items == [Undefined] ==> IsJson(v.items[0]);
      assert w.items == [Undefined] ==> IsJson(w.items[0]);
      if |v.items| == |w.items| {
        forall i | 0 <= i < |v.items| ensures Same(v.items[i], w.items[i]) <==> Equal(v.items[i], w.items[i]) {
          SameIsEqualOnJson(v.items[i], w.items[i]);
        }
      }
    } else if v.Object? && w.Object? {
      forall k | k in Keys(v.fields) && k in Keys(w.fields)
        ensures Same(Get(v.fields, k), Get(w.fields, k)) <==> Equal(Get(v.fields, k), Get(w.fields, k))
      {
        var i :| 0 <= i < |v.fields| && v.fields[i] == Field(k, Get(v.fields, k));
        var j :| 0 <= j < |w.fields| && w.fields[j] == Field(k, Get(w.fields, k));
        assert IsJson(v.fields[i].value) && IsJson(w.fields[j].value);
        SameIsEqualOnJson(Get(v.fields, k), Get(w.fields, k));
      }
    }
  }

  /** On JSON the serialisation decides equality. */
  lemma SerializeDecidesEqual(v: Value, w: Value)
    requires WellFormed(v) && WellFormed(w) && IsJson(v) && IsJson(w)
    ensures Serialize(v) == Serialize(w) <==> Equal(v, w)
  {
    SerializeDecidesSame(v, w);
    SameIsEqualOnJson(v, w);
  }

  // ---------- field access ----------

  /** Property access: a missing property is undefined. */
  function Lookup(v: Value, key: string): Value {
    if v.Object? && key in Keys(v.fields) then Get(v.fields, key) else Undefined
  }

  lemma EqualLookup(v: Value, w: Value, key: string)
    requires Equal(v, w)
    ensures Equal(Lookup(v, key), Lookup(w, key))
  {
  }

  lemma LookupJson(v: Value, key: string)
    requires WellFormed(v) && IsJson(v)
    ensures WellFormed(Lookup(v, key)) && (Lookup(v, key) == Undefined || IsJson(Lookup(v, key)))
  {
    if v.Object? && key in Keys(v.fields) {
      var i :| 0 <= i < |v.fields| && v.fields[i] == Field(key, Get(v.fields, key));
      assert IsJson(v.fields[i].value);
    }
  }
}
