/** Address classes and the token issuer of the diagnostics masker. */
module IpMasking {
  import opened Wrappers
  import opened Text
  import opened IpAddress
  import opened Ipv6Forms

  datatype MaskClass =
    | PublicIpv4 | CgnatIpv4 | GlobalIpv6 | LinkLocalIpv6 | UlaIpv6 | MulticastIpv6 | OtherIpv6 | Mac

  function ClassName(cls: MaskClass): string {
    match cls
    case PublicIpv4 => "public-ipv4"
    case CgnatIpv4 => "cgnat-ipv4"
    case GlobalIpv6 => "global-ipv6"
    case LinkLocalIpv6 => "link-local-ipv6"
    case UlaIpv6 => "ula-ipv6"
    case MulticastIpv6 => "multicast-ipv6"
    case OtherIpv6 => "other-ipv6"
    case Mac => "mac"
  }

  // ---------- classification ----------

  /** `None` means the address stays readable: it identifies nothing outside the home network. */
  function ClassifyIpv4(o: seq<nat>): Option<MaskClass>
    requires |o| == 4
  {
    var a, b, c, d := o[0], o[1], o[2], o[3];
    if a == 10 || (a == 172 && 16 <= b <= 31) || (a == 192 && b == 168) || a == 127 || (a == 169 && b == 254)
       || 224 <= a <= 239 || (a == 0 && b == 0 && c == 0 && d == 0) || (a == 255 && b == 255 && c == 255 && d == 255)
    then None
    else if a == 100 && 64 <= b <= 127 then Some(CgnatIpv4)
    else Some(PublicIpv4)
  }

  datatype Verdict = Readable | EmbeddedV4(prefix: string, octets: seq<nat>) | Masked(cls: MaskClass)

  predicate ZeroUpTo(g: seq<nat>, from: nat, to: nat)
    requires from <= to <= |g|
  {
    forall i :: from <= i < to ==> g[i] == 0
  }

  /** The masks `& 0xffc0`, `& 0xfe00`, `& 0xff00` and `& 0xe000` keep the high bits of a 16-bit group. */
  function ClassifyIpv6(g: seq<nat>): (v: Verdict)
    requires |g| == 8
    ensures v.EmbeddedV4? ==> |v.octets| == 4
  {
    var embedded := [g[6] / 256, g[6] % 256, g[7] / 256, g[7] % 256];
    if ZeroUpTo(g, 0, 7) && g[7] <= 1 then Readable
    else if ZeroUpTo(g, 0, 5) && g[5] == 0xffff then EmbeddedV4("::ffff:", embedded)
    else if g[0] == 0x64 && g[1] == 0xff9b && ZeroUpTo(g, 2, 6) then EmbeddedV4("64:ff9b::", embedded)
    else if g[0] / 0x40 == 0xfe80 / 0x40 then Masked(LinkLocalIpv6)
    else if g[0] / 0x200 == 0xfc00 / 0x200 then Masked(UlaIpv6)
    else if g[0] / 0x100 == 0xff00 / 0x100 then Masked(MulticastIpv6)
    else if g[0] / 0x2000 == 0x2000 / 0x2000 then Masked(GlobalIpv6)
    else Masked(OtherIpv6)
  }

  // ---------- tokens ----------

  function TokenText(cls: MaskClass, n: nat): string {
    "<" + ClassName(cls) + "#" + Decimal(n) + ">"
  }

  function Id(cls: MaskClass, key: string): string {
    ClassName(cls) + "|" + key
  }

  lemma ClassNameShape(cls: MaskClass)
    ensures '|' !in ClassName(cls) && '#' !in ClassName(cls)
  {
  }

  lemma ClassNameInjective(a: MaskClass, b: MaskClass)
    requires ClassName(a) == ClassName(b)
    ensures a == b
  {
    var s, t := ClassName(a), ClassName(b);
    assert |s| == |t| && s[0] == t[0];
  }

  /** A text splits at the first separator in one way only. */
  lemma SeparatorUnique(a: string, b: string, c: char, x: string, y: string)
    requires c !in a && c !in b && a + [c] + x == b + [c] + y
    ensures a == b && x == y
  {
    IndexOfCharacter(a, c, x);
    IndexOfCharacter(b, c, y);
    assert |a| == |b|;
    assert a == (a + [c] + x)[..|a|] && b == (b + [c] + y)[..|b|];
    assert x == (a + [c] + x)[|a| + 1..] && y == (b + [c] + y)[|b| + 1..];
  }

  lemma IdInjective(c: MaskClass, k: string, d: MaskClass, l: string)
    requires Id(c, k) == Id(d, l)
    ensures c == d && k == l
  {
    ClassNameShape(c);
    ClassNameShape(d);
    SeparatorUnique(ClassName(c), ClassName(d), '|', k, l);
    ClassNameInjective(c, d);
  }

  lemma TokenInjective(c: MaskClass, m: nat, d: MaskClass, n: nat)
    requires TokenText(c, m) == TokenText(d, n)
    ensures c == d && m == n
  {
    hide ClassName, Decimal;
    ClassNameShape(c);
    ClassNameShape(d);
    var x, y := Decimal(m) + ">", Decimal(n) + ">";
    assert TokenText(c, m)[1..] == ClassName(c) + ['#'] + x;
    assert TokenText(d, n)[1..] == ClassName(d) + ['#'] + y;
    SeparatorUnique(ClassName(c), ClassName(d), '#', x, y);
    ClassNameInjective(c, d);
    assert Decimal(m) == x[..|x| - 1] && Decimal(n) == y[..|y| - 1];
    DecimalInjective(m, n);
  }

  // ---------- the history of requests ----------

  datatype Request = Request(cls: MaskClass, key: string)

  /** How many requests of the class the history holds. */
  function CountOf(history: seq<Request>, cls: MaskClass): nat {
    if history == [] then 0
    else CountOf(history[..|history| - 1], cls) + if history[|history| - 1].cls == cls then 1 else 0
  }

  predicate AllDistinct(history: seq<Request>) {
    forall i, j :: 0 <= i < j < |history| ==> history[i] != history[j]
  }

  /** The number of the i-th distinct request: its place among the requests of its class. */
  function Ordinal(history: seq<Request>, i: nat): nat
    requires i < |history|
  {
    CountOf(history[..i + 1], history[i].cls)
  }

  function TokenAt(history: seq<Request>, i: nat): string
    requires i < |history|
  {
    TokenText(history[i].cls, Ordinal(history, i))
  }

  lemma {:induction false} CountGrows(history: seq<Request>, m: nat, n: nat, cls: MaskClass)
    requires m <= n <= |history|
    ensures CountOf(history[..m], cls) <= CountOf(history[..n], cls)
    ensures m < n && history[n - 1].cls == cls ==> CountOf(history[..m], cls) < CountOf(history[..n], cls)
    decreases n
  {
    if m < n {
      assert history[..n][..n - 1] == history[..n - 1];
      CountGrows(history, m, n - 1, cls);
    }
  }

  /** Different requests of one history get different tokens. */
  lemma TokensDiffer(history: seq<Request>, i: nat, j: nat)
    requires i < |history| && j < |history|
    ensures TokenAt(history, i) == TokenAt(history, j) <==> i == j
  {
    hide TokenText, CountOf;
    if TokenAt(history, i) == TokenAt(history, j) {
      TokenInjective(history[i].cls, Ordinal(history, i), history[j].cls, Ordinal(history, j));
      if i < j {
        CountGrows(history, i + 1, j + 1, history[j].cls);
      } else if j < i {
        CountGrows(history, j + 1, i + 1, history[i].cls);
      }
    }
  }

  /** A later history never changes a token. */
  lemma TokensStay(history: seq<Request>, more: seq<Request>, i: nat)
    requires i < |history|
    ensures TokenAt(history + more, i) == TokenAt(history, i)
  {
    assert (history + more)[..i + 1] == history[..i + 1];
  }

  /** Within a class the numbers are 1, 2, ... without gaps. */
  lemma {:induction false} OrdinalsHaveNoGaps(history: seq<Request>, cls: MaskClass, n: nat)
    requires 1 <= n <= CountOf(history, cls)
    ensures exists i :: 0 <= i < |history| && history[i].cls == cls && Ordinal(history, i) == n
    decreases |history|
  {
    var last := |history| - 1;
    if history[last].cls == cls && CountOf(history, cls) == n {
      assert history[..last + 1] == history;
      assert Ordinal(history, last) == n;
    } else {
      OrdinalsHaveNoGaps(history[..last], cls, n);
      var i :| 0 <= i < last && history[..last][i].cls == cls && Ordinal(history[..last], i) == n;
      assert history[..last][..i + 1] == history[..i + 1];
      assert Ordinal(history, i) == n;
    }
  }

  // ---------- the masker ----------

  class IpMasker {
    var seen: map<string, string>
    var next: map<MaskClass, nat>
    ghost var history: seq<Request>

    /** The two maps say exactly what the history of distinct requests says. */
    ghost predicate Valid()
      reads this
    {
      && AllDistinct(history)
      && (forall cls :: (if cls in next then next[cls] else 0) == CountOf(history, cls))
      && (forall i :: 0 <= i < |history| ==>
            Id(history[i].cls, history[i].key) in seen
            && seen[Id(history[i].cls, history[i].key)] == TokenAt(history, i))
      && (forall id :: id in seen ==> exists i :: 0 <= i < |history| && id == Id(history[i].cls, history[i].key))
    }

    constructor ()
      ensures Valid() && history == []
    {
      seen, next, history := map[], map[], [];
    }

    /** Answers a known request with its token and numbers a new one next in its class. */
    method Token(cls: MaskClass, key: string) returns (token: string)
      requires Valid()
      modifies this
      ensures Valid()
      ensures history == if Request(cls, key) in old(history) then old(history) else old(history) + [Request(cls, key)]
      ensures exists i :: 0 <= i < |history| && history[i] == Request(cls, key) && token == TokenAt(history, i)
    {
      hide CountOf, Id, TokenText;
      var id := Id(cls, key);
      if id in seen {
        ghost var i :| 0 <= i < |history| && id == Id(history[i].cls, history[i].key);
        IdInjective(cls, key, history[i].cls, history[i].key);
        return seen[id];
      }
      var number := (if cls in next then next[cls] else 0) + 1;
      token := TokenText(cls, number);
      ghost var before := history;
      history := before + [Request(cls, key)];
      NewRequest(before, Request(cls, key));
      next := next[cls := number];
      seen := seen[id := token];
      forall i | 0 <= i < |before| ensures Id(before[i].cls, before[i].key) != id {
      }
      assert history[|before|] == Request(cls, key);
    }

    /** The token of an IPv4 address, or nothing when it stays readable. */
    method Ipv4Token(octets: seq<nat>) returns (token: Option<string>)
      requires Valid() && |octets| == 4
      modifies this
      ensures Valid() && old(history) <= history
      ensures token.None? <==> ClassifyIpv4(octets).None?
      ensures token.None? ==> history == old(history)
      ensures token.Some? ==>
        exists i :: 0 <= i < |history| && history[i] == Ipv4Request(octets) && token.value == TokenAt(history, i)
    {
      var cls := ClassifyIpv4(octets);
      if cls.None? {
        return None;
      }
      var t := Token(cls.value, Dotted(octets));
      return Some(t);
    }

    /** Masks one parsed IPv6 candidate; `keep` is the port and zone kept behind it. */
    method MaskIpv6(match_: string, groups: seq<nat>, keep: string) returns (r: string)
      requires Valid() && |groups| == 8
      modifies this
      ensures Valid() && old(history) <= history
      ensures MaskedRequest(groups).None? ==> r == match_ && history == old(history)
      ensures MaskedRequest(groups).Some? ==>
        exists i :: 0 <= i < |history| && history[i] == MaskedRequest(groups).value
                 && r == MaskPrefix(groups) + TokenAt(history, i) + keep
    {
      hide Key, Dotted, ClassifyIpv4, TokenAt, Valid, ClassifyIpv6;
      var verdict := ClassifyIpv6(groups);
      match verdict
      case Readable => return match_;
      case EmbeddedV4(prefix, octets) =>
        var v4 := Ipv4Token(octets);
        return if v4.None? then match_ else prefix + v4.value + keep;
      case Masked(cls) =>
        var t := Token(cls, Key(groups));
        assert "" + t == t;
        return t + keep;
    }
  }

  lemma NewRequest(before: seq<Request>, q: Request)
    ensures forall i :: 0 <= i < |before| ==> TokenAt(before + [q], i) == TokenAt(before, i)
    ensures TokenAt(before + [q], |before|) == TokenText(q.cls, CountOf(before, q.cls) + 1)
    ensures forall cls :: CountOf(before + [q], cls) == CountOf(before, cls) + if cls == q.cls then 1 else 0
  {
    hide TokenText;
    var after := before + [q];
    assert after[..|before|] == before && after[..|before| + 1] == after;
    forall i | 0 <= i < |before| ensures TokenAt(after, i) == TokenAt(before, i) {
      TokensStay(before, [q], i);
    }
  }

  /** The request an identifying IPv4 address makes. */
  function Ipv4Request(octets: seq<nat>): Request
    requires |octets| == 4
  {
    Request(if ClassifyIpv4(octets).Some? then ClassifyIpv4(octets).value else PublicIpv4, Dotted(octets))
  }

  /** The request an IPv6 address makes, if any. */
  function MaskedRequest(groups: seq<nat>): Option<Request>
    requires |groups| == 8
  {
    match ClassifyIpv6(groups)
    case Readable => None
    case EmbeddedV4(_, octets) => if ClassifyIpv4(octets).None? then None else Some(Ipv4Request(octets))
    case Masked(cls) => Some(Request(cls, Key(groups)))
  }

  function MaskPrefix(groups: seq<nat>): string
    requires |groups| == 8
  {
    match ClassifyIpv6(groups)
    case EmbeddedV4(prefix, _) => prefix
    case _ => ""
  }

  /** The plain, the IPv4-mapped and the 64:ff9b:: form of one IPv4 address make the same request, so they
      share one token. */
  lemma FormsShareOneToken(o: seq<nat>)
    requires IsIpv4(o)
    ensures var mapped, nat64 := [0, 0, 0, 0, 0, 0xffff] + TwoGroups(o), [0x64, 0xff9b, 0, 0, 0, 0] + TwoGroups(o);
      && MaskedRequest(mapped) == MaskedRequest(nat64)
      && MaskedRequest(mapped) == (if ClassifyIpv4(o).None? then None else Some(Ipv4Request(o)))
      && MaskPrefix(mapped) == "::ffff:" && MaskPrefix(nat64) == "64:ff9b::"
  {
    var mapped, nat64 := [0, 0, 0, 0, 0, 0xffff] + TwoGroups(o), [0x64, 0xff9b, 0, 0, 0, 0] + TwoGroups(o);
    EmbeddedOctets(o);
    var t := TwoGroups(o);
    assert mapped[6] == t[0] && mapped[7] == t[1] && nat64[6] == t[0] && nat64[7] == t[1];
    assert [t[0] / 256, t[0] % 256, t[1] / 256, t[1] % 256] == o;
    assert mapped[5] == 0xffff && nat64[0] == 0x64 && nat64[1] == 0xff9b;
    assert ClassifyIpv6(mapped) == EmbeddedV4("::ffff:", o);
    assert ClassifyIpv6(nat64) == EmbeddedV4("64:ff9b::", o);
  }

  lemma EmbeddedOctets(o: seq<nat>)
    requires IsIpv4(o)
    ensures var t := TwoGroups(o);
      t[0] / 256 == o[0] && t[0] % 256 == o[1] && t[1] / 256 == o[2] && t[1] % 256 == o[3]
  {
  }

  /** Two IPv6 addresses that are masked as themselves make the same request exactly when they are equal. */
  lemma Ipv6RequestsDiffer(g: seq<nat>, h: seq<nat>)
    requires IsIpv6(g) && IsIpv6(h) && ClassifyIpv6(g).Masked? && ClassifyIpv6(h).Masked?
    ensures MaskedRequest(g) == MaskedRequest(h) <==> g == h
  {
    KeyParsesBack(g);
    KeyParsesBack(h);
  }
}
