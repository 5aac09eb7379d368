/** Addresses of either family, CIDR networks, and when one holds the other. */
module Networks {
  import opened Wrappers
  import opened Text
  import opened Addresses

  datatype Ip = V4(value: nat) | V6(value: nat)

  datatype Network = Network(ip: Ip, prefix: nat)

  function Bits(ip: Ip): nat {
    if ip.V4? then 32 else 128
  }

  predicate SameFamily(a: Ip, b: Ip) {
    a.V4? == b.V4?
  }

  function ParseIp(value: string): Option<Ip> {
    match ParseIpv4(value)
    case Some(v) => Some(V4(v))
    case None =>
      match ParseIpv6(value)
      case Some(v) => Some(V6(v))
      case None => None
  }

  /** A prefix length: one to three digits, leading zeros allowed. */
  predicate IsPrefix(text: string, bits: nat) {
    1 <= |text| <= 3 && AllDigits(text) && Value(text) <= bits
  }

  function ParseNetwork(value: string): Option<Network> {
    var parts := Split(value, '/');
    if |parts| > 2 then None
    else
      match ParseIp(parts[0])
      case None => None
      case Some(ip) =>
        if |parts| == 1 then Some(Network(ip, Bits(ip)))
        else if IsPrefix(parts[1], Bits(ip)) then Some(Network(ip, Value(parts[1])))
        else None
  }

  lemma {:induction false} Pow2Positive(e: nat)
    ensures Pow(2, e) > 0
  {
    if e > 0 {
      Pow2Positive(e - 1);
    }
  }

  function Pow2(e: nat): (p: nat)
    ensures p > 0
  {
    Pow2Positive(e);
    Pow(2, e)
  }

  predicate ValidIp(ip: Ip) {
    ip.value < Pow2(Bits(ip))
  }

  predicate ValidNetwork(network: Network) {
    ValidIp(network.ip) && network.prefix <= Bits(network.ip)
  }

  /** Shifting away the host bits leaves the same number. */
  predicate Contains(network: Network, address: Ip) {
    && SameFamily(network.ip, address)
    && network.prefix <= Bits(network.ip)
    && var size := Pow2(Bits(network.ip) - network.prefix);
       network.ip.value / size == address.value / size
  }

  lemma {:induction false} PowAdd(base: nat, i: nat, j: nat)
    ensures Pow(base, i + j) == Pow(base, i) * Pow(base, j)
  {
    if i > 0 {
      PowAdd(base, i - 1, j);
      assert base * (Pow(base, i - 1) * Pow(base, j)) == base * Pow(base, i - 1) * Pow(base, j);
    }
  }

  lemma Pow2Of16()
    ensures Pow(2, 16) == 65536
  {
    assert Pow(2, 4) == 16;
    PowAdd(2, 4, 4);
    PowAdd(2, 8, 8);
  }

  lemma PowersOf2()
    ensures Pow(2, 32) == TWO_32 && Pow(2, 128) == TWO_128
  {
    Pow2Of16();
    PowAdd(2, 16, 16);
    PowAdd(2, 32, 32);
    PowAdd(2, 64, 64);
  }

  /** Whatever parses is in range: the address fits its family and the prefix its width. */
  lemma ParsedNetworkValid(value: string)
    requires ParseNetwork(value).Some?
    ensures ValidNetwork(ParseNetwork(value).value)
  {
    ParsedIpValid(Split(value, '/')[0]);
  }

  lemma ParsedIpValid(value: string)
    requires ParseIp(value).Some?
    ensures ValidIp(ParseIp(value).value)
  {
    PowersOf2();
    if ParseIpv4(value).Some? {
      Ipv4OnlyDotted(value);
    } else {
      AcceptedIsEightWords(value);
    }
  }

  // ----------------------------------------------------------- blocks of addresses

  lemma StepsApart(x: nat, y: nat, d: nat)
    ensures x < y ==> x * d + d <= y * d
  {
    if x < y {
      assert (x + 1) * d <= y * d;
    }
  }

  lemma QuotientUnique(a: nat, d: nat, q: nat)
    requires d > 0 && q * d <= a < q * d + d
    ensures a / d == q
  {
    StepsApart(a / d, q, d);
    StepsApart(q, a / d, d);
  }

  lemma QuotientIsInterval(a: nat, b: nat, d: nat)
    requires d > 0
    ensures a / d == b / d <==> a / d * d <= b < a / d * d + d
  {
    var q := a / d;
    if q * d <= b < q * d + d {
      QuotientUnique(b, d, q);
    }
  }

  /** First address of a network's block. */
  function Base(network: Network): nat
    requires network.prefix <= Bits(network.ip)
  {
    var size := Pow2(Bits(network.ip) - network.prefix);
    network.ip.value / size * size
  }

  /** A network holds exactly the addresses of one aligned block. */
  lemma ContainsIsBlock(network: Network, address: Ip)
    requires ValidNetwork(network) && SameFamily(network.ip, address)
    ensures Contains(network, address)
       <==> Base(network) <= address.value < Base(network) + Pow2(Bits(network.ip) - network.prefix)
  {
    var size := Pow2(Bits(network.ip) - network.prefix);
    QuotientIsInterval(network.ip.value, address.value, size);
  }

  lemma DivideBounds(a: nat, d: nat)
    requires d > 0
    ensures a / d * d <= a < a / d * d + d
  {
  }

  lemma MulMono(x: nat, y: nat, d: nat)
    requires x <= y
    ensures x * d <= y * d
  {
  }

  lemma Regroup(q: nat, d: nat, e: nat)
    ensures q * e * d == q * (d * e) && (q * e + e) * d == q * (d * e) + d * e
  {
  }

  lemma NestedBounds(a: nat, d: nat, e: nat, once: nat, twice: nat)
    requires once * d <= a < once * d + d && twice * e <= once < twice * e + e
    ensures twice * (d * e) <= a < twice * (d * e) + d * e
  {
    MulMono(twice * e, once, d);
    MulMono(once + 1, twice * e + e, d);
    assert (once + 1) * d == once * d + d;
    Regroup(twice, d, e);
  }

  lemma DivideTwice(a: nat, d: nat, e: nat)
    requires d > 0 && e > 0
    ensures d * e > 0 && a / (d * e) == a / d / e
  {
    DivideBounds(a, d);
    DivideBounds(a / d, e);
    NestedBounds(a, d, e, a / d, a / d / e);
    QuotientUnique(a, d * e, a / d / e);
  }

  /** Equal at a finer shift, equal at a coarser one. */
  lemma FinerAgreement(a: nat, b: nat, fine: nat, coarse: nat)
    requires fine <= coarse && a / Pow2(fine) == b / Pow2(fine)
    ensures a / Pow2(coarse) == b / Pow2(coarse)
  {
    PowAdd(2, fine, coarse - fine);
    DivideTwice(a, Pow2(fine), Pow2(coarse - fine));
    DivideTwice(b, Pow2(fine), Pow2(coarse - fine));
  }

  ghost predicate Within(inner: Network, outer: Network) {
    forall a :: Contains(inner, a) ==> Contains(outer, a)
  }

  ghost predicate Disjoint(n: Network, m: Network) {
    forall a :: !(Contains(n, a) && Contains(m, a))
  }

  /** The address is in both: the longer prefix gives the smaller block. */
  lemma LongerPrefixIsWithin(inner: Network, outer: Network, address: Ip)
    requires ValidNetwork(inner) && ValidNetwork(outer) && outer.prefix <= inner.prefix
    requires Contains(inner, address) && Contains(outer, address)
    ensures Within(inner, outer)
  {
    var fine, coarse := Bits(inner.ip) - inner.prefix, Bits(inner.ip) - outer.prefix;
    forall a | Contains(inner, a) ensures Contains(outer, a) {
      FinerAgreement(a.value, address.value, fine, coarse);
    }
  }

  /** Two networks of one family are nested or disjoint. */
  lemma NestedOrDisjoint(n: Network, m: Network)
    requires ValidNetwork(n) && ValidNetwork(m) && SameFamily(n.ip, m.ip)
    ensures Within(n, m) || Within(m, n) || Disjoint(n, m)
  {
    if !Disjoint(n, m) {
      var a :| Contains(n, a) && Contains(m, a);
      if m.prefix <= n.prefix {
        LongerPrefixIsWithin(n, m, a);
      } else {
        LongerPrefixIsWithin(m, n, a);
      }
    }
  }

  // ------------------------------------------------------- what network text looks like

  predicate IpChar(c: char) {
    IsHex(c) || c == '.' || c == ':'
  }

  predicate NetworkChar(c: char) {
    IpChar(c) || c == '/'
  }

  predicate NetworkText(s: string) {
    s != "" && forall c :: c in s ==> NetworkChar(c)
  }

  lemma PiecesChars(p: Pieces, x: char)
    requires WellFormedPieces(p) && x in RenderPieces(p)
    ensures IpChar(x)
  {
    TokensChars(p);
    JoinChars(Tokens(p), ':', x);
    if x != ':' {
      var i :| 0 <= i < |Tokens(p)| && x in Tokens(p)[i];
      assert PieceChars(Tokens(p)[i]);
    }
  }

  lemma IpText(value: string)
    requires ParseIp(value).Some?
    ensures value != "" && forall c :: c in value ==> IpChar(c)
  {
    if ParseIpv4(value).Some? {
      Ipv4OnlyDotted(value);
      DottedChars(ParseIpv4(value).value);
    } else {
      var f := AcceptedIsForm(value);
      forall x | x in value ensures IpChar(x) {
        match f {
          case Full(all) => PiecesChars(all, x);
          case Compressed(left, right) =>
            if x in RenderPieces(left) {
              PiecesChars(left, x);
            } else if x in RenderPieces(right) {
              PiecesChars(right, x);
            }
        }
      }
    }
  }

  /** Text that names a network has only hexadecimal digits, dots, colons and a slash. */
  lemma NetworkTextChars(value: string)
    requires ParseNetwork(value).Some?
    ensures NetworkText(value)
  {
    var parts := Split(value, '/');
    IpText(parts[0]);
    JoinSplit(value, '/');
    forall x | x in value ensures NetworkChar(x) {
      JoinChars(parts, '/', x);
      if x != '/' {
        var i :| 0 <= i < |parts| && x in parts[i];
        if i == 1 {
          var k :| 0 <= k < |parts[1]| && parts[1][k] == x;
          assert IsDigit(parts[1][k]);
        }
      }
    }
  }

  // ------------------------------------------------------ which text names which network

  /** Number of bits of an address: 32, or 128 for IPv6. */
  function IpWidth(ip: Ip): nat {
    match ip
    case V4(_) => 32
    case V6(_) => 128
  }

  lemma IpWidthIsBits(ip: Ip)
    ensures Bits(ip) == IpWidth(ip)
  {
  }

  /** An IPv4 form is its number; all other addresses are the parser's IPv6 addresses. */
  lemma IpExact(value: string, v: nat)
    ensures ParseIp(value) == Some(V4(v)) <==> v < 0x1_0000_0000 && value == Dotted(v)
    ensures ParseIp(value) == Some(V6(v)) <==> ParseIpv6(value) == Some(v) && ParseIpv4(value).None?
  {
    Ipv4Exact(value, v);
  }

  lemma WithoutSlash(value: string)
    requires '/' !in value
    ensures ParseNetwork(value)
         == match ParseIp(value)
            case None => None
            case Some(ip) => Some(Network(ip, IpWidth(ip)))
  {
    SplitOne(value, '/');
  }

  lemma IpHasNoSlash(value: string)
    requires ParseIp(value).Some?
    ensures '/' !in value
  {
    IpText(value);
    assert !IpChar('/');
  }

  /** Text without a slash names exactly the one address it spells. */
  lemma BareNetwork(value: string, address: Ip)
    requires '/' !in value && ParseNetwork(value).Some?
    ensures Contains(ParseNetwork(value).value, address) <==> ParseIp(value) == Some(address)
  {
    WithoutSlash(value);
    assert Pow2(0) == 1;
  }

  /** A prefix behind a slash: one to three digits, at most the width. */
  predicate PrefixText(digits: string, ip: Ip) {
    1 <= |digits| <= 3 && AllDigits(digits) && Value(digits) <= IpWidth(ip)
  }

  lemma WithSlash(text: string, digits: string)
    requires '/' !in text && '/' !in digits
    ensures ParseNetwork(text + "/" + digits)
         == match ParseIp(text)
            case None => None
            case Some(ip) => if PrefixText(digits, ip) then Some(Network(ip, Value(digits))) else None
  {
    SplitTwo(text, digits, '/');
    SplitOne(digits, '/');
  }

  lemma DigitsHaveNoSlash(digits: string)
    requires AllDigits(digits)
    ensures '/' !in digits
  {
  }

  /** An address, a slash and a prefix in decimal name that address with that prefix. */
  lemma PrefixedNetwork(text: string, ip: Ip, prefix: nat)
    requires ParseIp(text) == Some(ip) && prefix <= IpWidth(ip)
    ensures ParseNetwork(text + "/" + Decimal(prefix)) == Some(Network(ip, prefix))
  {
    IpHasNoSlash(text);
    DigitsHaveNoSlash(Decimal(prefix));
    WithSlash(text, Decimal(prefix));
    ValueDecimal(prefix);
    DecimalStart(prefix);
  }

  /** An address and a prefix text. */
  ghost predicate Prefixed(value: string, ip: Ip, prefix: nat) {
    exists text, digits :: PrefixedBy(value, text, digits, ip, prefix)
  }

  predicate PrefixedBy(value: string, text: string, digits: string, ip: Ip, prefix: nat) {
    value == text + "/" + digits && ParseIp(text) == Some(ip) && PrefixText(digits, ip) && Value(digits) == prefix
  }

  /** A text names a network: an address, which has its full width, or an address with a prefix behind a slash. */
  ghost predicate Names(value: string, ip: Ip, prefix: nat) {
    (ParseIp(value) == Some(ip) && prefix == IpWidth(ip)) || Prefixed(value, ip, prefix)
  }

  /** Exactly these texts parse, each to the network it names. */
  lemma NetworkExact(value: string, ip: Ip, prefix: nat)
    ensures ParseNetwork(value) == Some(Network(ip, prefix)) <==> Names(value, ip, prefix)
  {
    if ParseIp(value) == Some(ip) && prefix == IpWidth(ip) {
      IpHasNoSlash(value);
      WithoutSlash(value);
    }
    if Prefixed(value, ip, prefix) {
      var text, digits :| PrefixedBy(value, text, digits, ip, prefix);
      IpHasNoSlash(text);
      DigitsHaveNoSlash(digits);
      WithSlash(text, digits);
    }
    if ParseNetwork(value) == Some(Network(ip, prefix)) {
      var parts := Split(value, '/');
      JoinSplit(value, '/');
      SplitParts(value, '/');
      if |parts| == 2 {
        assert Join(parts[1..], '/') == parts[1];
        assert PrefixedBy(value, parts[0], parts[1], ip, prefix);
      }
    }
  }

  /** Two addresses in one aligned block of this size. */
  ghost predicate ShareBlock(a: nat, b: nat, size: nat) {
    exists q: nat :: q * size <= a < q * size + size && q * size <= b < q * size + size
  }

  /** An address lies in the aligned block around another one that a prefix leaves. */
  ghost predicate InBlock(ip: Ip, prefix: nat, address: Ip) {
    && prefix <= IpWidth(ip)
    && ip.V4? == address.V4?
    && ShareBlock(ip.value, address.value, Pow2(IpWidth(ip) - prefix))
  }

  /** A network holds an address exactly when the two lie in one such block. */
  lemma ContainsSharesBlock(network: Network, address: Ip)
    ensures Contains(network, address) <==> InBlock(network.ip, network.prefix, address)
  {
    IpWidthIsBits(network.ip);
    if network.prefix <= IpWidth(network.ip) {
      BlockQuotients(network.ip.value, address.value, Pow2(IpWidth(network.ip) - network.prefix));
    }
  }

  lemma BlockQuotients(a: nat, b: nat, size: nat)
    requires size > 0
    ensures a / size == b / size <==> ShareBlock(a, b, size)
  {
    QuotientIsInterval(a, b, size);
    DivideBounds(a, size);
    if ShareBlock(a, b, size) {
      var q: nat :| q * size <= a < q * size + size && q * size <= b < q * size + size;
      QuotientUnique(a, size, q);
      QuotientUnique(b, size, q);
    }
  }
}
