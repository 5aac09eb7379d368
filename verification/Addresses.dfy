/** IP addresses and networks as text: the parsers, and the text forms of RFC 4291 they are measured against. */
module Addresses {
  import opened Wrappers
  import opened Text

  const TWO_32: nat := 0x1_0000_0000

  // ------------------------------------------------------------------------ IPv4

  /** One octet: decimal digits without a leading zero, at most 255. */
  predicate IsOctet(part: string) {
    && AllDigits(part)
    && (part == "0" || (1 <= |part| <= 3 && part[0] != '0'))
    && Value(part) <= 255
  }

  function ParseIpv4(value: string): Option<nat> {
    var parts := Split(value, '.');
    if |parts| != 4 || exists i :: 0 <= i < 4 && !IsOctet(parts[i]) then None
    else Some(((Value(parts[0]) * 256 + Value(parts[1])) * 256 + Value(parts[2])) * 256 + Value(parts[3]))
  }

  /** The dotted form of a 32-bit number. */
  function Dotted(v: nat): string
    requires v < TWO_32
  {
    Decimal(v / 0x100_0000) + "." + Decimal(v / 0x1_0000 % 256) + "." + Decimal(v / 256 % 256) + "." + Decimal(v % 256)
  }

  lemma OctetDecimal(n: nat)
    requires n < 256
    ensures IsOctet(Decimal(n)) && Value(Decimal(n)) == n && '.' !in Decimal(n)
  {
    ValueDecimal(n);
    DecimalStart(n);
  }

  lemma OctetIsDecimal(part: string)
    requires IsOctet(part)
    ensures part == Decimal(Value(part))
  {
    DecimalValue(part);
  }

  lemma FourOctets(parts: seq<string>, value: string)
    requires |parts| == 4 && Split(value, '.') == parts
    requires IsOctet(parts[0]) && IsOctet(parts[1]) && IsOctet(parts[2]) && IsOctet(parts[3])
    ensures ParseIpv4(value)
         == Some(((Value(parts[0]) * 256 + Value(parts[1])) * 256 + Value(parts[2])) * 256 + Value(parts[3]))
  {
  }

  lemma Ipv4ParsesDotted(v: nat)
    requires v < TWO_32
    ensures ParseIpv4(Dotted(v)) == Some(v)
  {
    var a, b, c, d := v / 0x100_0000, v / 0x1_0000 % 256, v / 256 % 256, v % 256;
    OctetDecimal(a);
    OctetDecimal(b);
    OctetDecimal(c);
    OctetDecimal(d);
    QuadSplits(Decimal(a), Decimal(b), Decimal(c), Decimal(d));
    FourOctets([Decimal(a), Decimal(b), Decimal(c), Decimal(d)], Dotted(v));
    OctetsMakeNumber(v);
  }

  lemma QuadSplits(p: string, q: string, r: string, s: string)
    requires '.' !in p && '.' !in q && '.' !in r && '.' !in s
    ensures Split(p + "." + q + "." + r + "." + s, '.') == [p, q, r, s]
  {
    SplitFour(p, q, r, s, '.');
  }

  lemma OctetsMakeNumber(v: nat)
    requires v < TWO_32
    ensures v / 0x100_0000 < 256
    ensures ((v / 0x100_0000 * 256 + v / 0x1_0000 % 256) * 256 + v / 256 % 256) * 256 + v % 256 == v
  {
    assert v / 0x1_0000 / 256 == v / 0x100_0000;
    assert v / 256 / 256 == v / 0x1_0000;
  }

  lemma JoinFour(parts: seq<string>, c: char)
    requires |parts| == 4
    ensures Join(parts, c) == parts[0] + [c] + parts[1] + [c] + parts[2] + [c] + parts[3]
  {
    assert Join(parts[1..][1..][1..], c) == parts[3];
    assert Join(parts[1..][1..], c) == parts[2] + [c] + parts[3];
    assert Join(parts[1..], c) == parts[1] + [c] + (parts[2] + [c] + parts[3]);
  }

  lemma OctetsOfNumber(a: nat, b: nat, c: nat, d: nat)
    requires a < 256 && b < 256 && c < 256 && d < 256
    ensures var v := ((a * 256 + b) * 256 + c) * 256 + d;
            v < TWO_32 && v / 0x100_0000 == a && v / 0x1_0000 % 256 == b && v / 256 % 256 == c && v % 256 == d
  {
    var v := ((a * 256 + b) * 256 + c) * 256 + d;
    assert v / 256 == (a * 256 + b) * 256 + c;
    assert v / 0x1_0000 == a * 256 + b;
  }

  lemma Ipv4OnlyDotted(value: string)
    requires ParseIpv4(value).Some?
    ensures ParseIpv4(value).value < TWO_32 && value == Dotted(ParseIpv4(value).value)
  {
    var parts := Split(value, '.');
    forall i | 0 <= i < 4 ensures IsOctet(parts[i]) && parts[i] == Decimal(Value(parts[i])) {
      OctetIsDecimal(parts[i]);
    }
    OctetsOfNumber(Value(parts[0]), Value(parts[1]), Value(parts[2]), Value(parts[3]));
    JoinSplit(value, '.');
    JoinFour(parts, '.');
  }

  /** The parser accepts exactly the dotted forms, each as the number it shows. */
  lemma Ipv4Exact(value: string, v: nat)
    ensures ParseIpv4(value) == Some(v) <==> v < TWO_32 && value == Dotted(v)
  {
    if ParseIpv4(value).Some? {
      Ipv4OnlyDotted(value);
    }
    if v < TWO_32 {
      Ipv4ParsesDotted(v);
    }
  }

  lemma DottedChars(v: nat)
    requires v < TWO_32
    ensures '.' in Dotted(v) && forall c :: c in Dotted(v) ==> IsDigit(c) || c == '.'
  {
    var d := Decimal(v / 0x100_0000);
    assert Dotted(v)[|d|] == '.';
  }

  lemma UndottedIsNotIpv4(value: string)
    requires '.' !in value
    ensures ParseIpv4(value).None?
  {
    SplitOne(value, '.');
  }

  // ------------------------------------------------------------------ IPv6 groups

  predicate IsHex(c: char) {
    IsDigit(c) || 'a' <= c <= 'f' || 'A' <= c <= 'F'
  }

  function HexDigit(c: char): (d: nat)
    requires IsHex(c)
    ensures d < 16
  {
    if IsDigit(c) then DigitValue(c) else 10 + LowerChar(c) as int - 'a' as int
  }

  /** The sixteen digits in order, in either case, and no other character. */
  lemma HexTable(d: nat, c: char)
    requires d < 16
    ensures IsHex("0123456789abcdef"[d]) && HexDigit("0123456789abcdef"[d]) == d
    ensures IsHex("0123456789ABCDEF"[d]) && HexDigit("0123456789ABCDEF"[d]) == d
    ensures IsHex(c) ==> c == "0123456789abcdef"[HexDigit(c)] || c == "0123456789ABCDEF"[HexDigit(c)]
  {
  }

  predicate IsHexGroup(token: string) {
    1 <= |token| <= 4 && forall i :: 0 <= i < |token| ==> IsHex(token[i])
  }

  function HexValue(token: string): nat
    requires forall i :: 0 <= i < |token| ==> IsHex(token[i])
  {
    if token == "" then 0 else 16 * HexValue(token[..|token| - 1]) + HexDigit(token[|token| - 1])
  }

  /** The four hexadecimal digits of a 16-bit number. */
  function HexText(n: nat): string
    requires n < 65536
  {
    var digits := "0123456789abcdef";
    [digits[n / 4096], digits[n / 256 % 16], digits[n / 16 % 16], digits[n % 16]]
  }

  lemma FourDigits(n: nat)
    requires n < 65536
    ensures ((n / 4096 * 16 + n / 256 % 16) * 16 + n / 16 % 16) * 16 + n % 16 == n
  {
    assert n / 256 / 16 == n / 4096;
    assert n / 16 / 16 == n / 256;
  }

  lemma HexAppend(token: string, c: char)
    requires IsHex(c) && forall i :: 0 <= i < |token| ==> IsHex(token[i])
    ensures HexValue(token + [c]) == 16 * HexValue(token) + HexDigit(c)
  {
    assert (token + [c])[..|token|] == token;
  }

  lemma FourCharacters(a: char, b: char, c: char, d: char)
    requires IsHex(a) && IsHex(b) && IsHex(c) && IsHex(d)
    ensures IsHexGroup([a, b, c, d])
    ensures HexValue([a, b, c, d]) == ((HexDigit(a) * 16 + HexDigit(b)) * 16 + HexDigit(c)) * 16 + HexDigit(d)
  {
    HexAppend("", a);
    HexAppend([a], b);
    HexAppend([a, b], c);
    HexAppend([a, b, c], d);
    assert "" + [a] == [a] && [a] + [b] == [a, b] && [a, b] + [c] == [a, b, c] && [a, b, c] + [d] == [a, b, c, d];
  }

  /** Hexadecimal digits stand for the number they write. */
  lemma HexReadsBack(n: nat)
    requires n < 65536
    ensures IsHexGroup(HexText(n)) && HexValue(HexText(n)) == n
  {
    HexTable(n / 4096, '0');
    HexTable(n / 256 % 16, '0');
    HexTable(n / 16 % 16, '0');
    HexTable(n % 16, '0');
    FourCharacters(HexText(n)[0], HexText(n)[1], HexText(n)[2], HexText(n)[3]);
    FourDigits(n);
  }

  function Pow(base: nat, e: nat): nat {
    if e == 0 then 1 else base * Pow(base, e - 1)
  }

  lemma {:induction false} HexBound(token: string)
    requires forall i :: 0 <= i < |token| ==> IsHex(token[i])
    ensures HexValue(token) < Pow(16, |token|)
  {
    if token != "" {
      HexBound(token[..|token| - 1]);
    }
  }

  lemma GroupBound(token: string)
    requires IsHexGroup(token)
    ensures HexValue(token) < 65536
  {
    HexBound(token);
    assert Pow(16, 2) == 256 && Pow(16, 3) == 4096 && Pow(16, 4) == 65536;
  }

  /** The groups written between colons; an IPv4 form stands for two groups and comes last. */
  function SideGroups(tokens: seq<string>): Option<seq<nat>> {
    if tokens == [] then Some([])
    else if ParseIpv4(tokens[0]).Some? then
      var v := ParseIpv4(tokens[0]).value;
      if |tokens| == 1 then Some([v / 65536, v % 65536]) else None
    else if !IsHexGroup(tokens[0]) then None
    else Prepend([HexValue(tokens[0])], SideGroups(tokens[1..]))
  }

  function Prepend(groups: seq<nat>, rest: Option<seq<nat>>): Option<seq<nat>> {
    if rest.None? then None else Some(groups + rest.value)
  }

  lemma PrependTwice(a: seq<nat>, b: seq<nat>, rest: Option<seq<nat>>)
    ensures Prepend(a, Prepend(b, rest)) == Prepend(a + b, rest)
    ensures Prepend([], rest) == rest
  {
    if rest.Some? {
      assert a + (b + rest.value) == a + b + rest.value && [] + rest.value == rest.value;
    }
  }

  function Side(value: string): Option<seq<nat>> {
    if value == "" then Some([]) else SideGroups(Split(value, ':'))
  }

  method ParseIpv6Side(value: string) returns (r: Option<seq<nat>>)
    ensures r == Side(value)
  {
    if value == "" {
      return Some([]);
    }
    var tokens := Split(value, ':');
    var groups: seq<nat> := [];
    var index := 0;
    PrependTwice([], [], SideGroups(tokens));
    assert tokens[0..] == tokens;
    while index < |tokens|
      invariant 0 <= index <= |tokens|
      invariant SideGroups(tokens) == Prepend(groups, SideGroups(tokens[index..]))
    {
      assert tokens[index..][1..] == tokens[index + 1..];
      var next: seq<nat>;
      var ipv4 := ParseIpv4(tokens[index]);
      if ipv4.Some? {
        if index != |tokens| - 1 {
          return None;
        }
        next := [ipv4.value / 65536, ipv4.value % 65536];
        assert tokens[index + 1..] == [] && next + [] == next;
      } else {
        if !IsHexGroup(tokens[index]) {
          return None;
        }
        next := [HexValue(tokens[index])];
      }
      assert SideGroups(tokens[index..]) == Prepend(next, SideGroups(tokens[index + 1..]));
      PrependTwice(groups, next, SideGroups(tokens[index + 1..]));
      groups := groups + next;
      index := index + 1;
    }
    assert tokens[index..] == [] && groups + [] == groups;
    r := Some(groups);
  }

  function Zeros(n: nat): (s: seq<nat>)
    ensures |s| == n && forall i :: 0 <= i < n ==> s[i] == 0
  {
    if n == 0 then [] else [0] + Zeros(n - 1)
  }

  /** Shifting the groups in from the left, as the parser does. */
  function ShiftIn(result: nat, groups: seq<nat>): nat
    decreases |groups|
  {
    if groups == [] then result else ShiftIn(result * 65536 + groups[0], groups[1..])
  }

  /** Both sides together: eight groups, or at least one zero group where `::` stood. */
  function Combined(left: seq<nat>, right: seq<nat>, compressed: bool): Option<seq<nat>> {
    var missing := 8 - |left| - |right|;
    if (!compressed && missing != 0) || (compressed && missing < 1) then None
    else Some(left + Zeros(missing) + right)
  }

  /** The groups of an address, or nothing when the text is no address. */
  function Ipv6Groups(value: string): Option<seq<nat>> {
    var parts := SplitPair(value, ':', ':');
    if value == "" || '%' in value || |parts| > 2 then None
    else
      var left, right := Side(parts[0]), if |parts| == 2 then Side(parts[1]) else Some([]);
      if left.None? || right.None? then None else Combined(left.value, right.value, |parts| == 2)
  }

  function ParseIpv6(value: string): Option<nat> {
    if Ipv6Groups(value).None? then None else Some(ShiftIn(0, Ipv6Groups(value).value))
  }

  /** The number with these base-65536 digits, most significant first. */
  function Number(groups: seq<nat>): nat {
    if groups == [] then 0 else groups[0] * Pow(65536, |groups| - 1) + Number(groups[1..])
  }

  lemma {:induction false} ShiftInIsNumber(result: nat, groups: seq<nat>)
    ensures ShiftIn(result, groups) == result * Pow(65536, |groups|) + Number(groups)
    decreases |groups|
  {
    if groups != [] {
      ShiftInIsNumber(result * 65536 + groups[0], groups[1..]);
      var p := Pow(65536, |groups| - 1);
      assert (result * 65536 + groups[0]) * p == result * (65536 * p) + groups[0] * p;
    }
  }

  lemma {:induction false} ShiftInLast(result: nat, front: seq<nat>, last: nat)
    ensures ShiftIn(result, front + [last]) == ShiftIn(result, front) * 65536 + last
    decreases |front|
  {
    if front == [] {
      assert front + [last] == [last] && [last][1..] == [];
    } else {
      assert (front + [last])[1..] == front[1..] + [last];
      ShiftInLast(result * 65536 + front[0], front[1..], last);
    }
  }

  /** The last group is the least significant one. */
  lemma NumberLast(front: seq<nat>, last: nat)
    ensures Number([]) == 0 && Number(front + [last]) == Number(front) * 65536 + last
  {
    ShiftInIsNumber(0, front);
    ShiftInIsNumber(0, front + [last]);
    ShiftInLast(0, front, last);
  }

  predicate SixteenBit(groups: seq<nat>) {
    forall i :: 0 <= i < |groups| ==> groups[i] < 65536
  }

  lemma DigitBound(digit: nat, weight: nat, rest: nat)
    requires digit < 65536 && rest < weight
    ensures digit * weight + rest < 65536 * weight
  {
    assert digit * weight <= 65535 * weight;
  }

  lemma {:induction false} NumberBound(groups: seq<nat>)
    requires SixteenBit(groups)
    ensures Number(groups) < Pow(65536, |groups|)
  {
    if groups != [] {
      NumberBound(groups[1..]);
      DigitBound(groups[0], Pow(65536, |groups| - 1), Number(groups[1..]));
    }
  }

  lemma {:induction false} SideWords(tokens: seq<string>)
    requires SideGroups(tokens).Some?
    ensures SixteenBit(SideGroups(tokens).value)
  {
    if tokens != [] {
      if ParseIpv4(tokens[0]).Some? {
        Ipv4OnlyDotted(tokens[0]);
      } else {
        GroupBound(tokens[0]);
        SideWords(tokens[1..]);
      }
    }
  }

  lemma SideValueWords(value: string)
    requires Side(value).Some?
    ensures SixteenBit(Side(value).value)
  {
    if value != "" {
      SideWords(Split(value, ':'));
    }
  }

  const TWO_128: nat := 0x1_0000_0000_0000_0000_0000_0000_0000_0000

  /** Every accepted text gives eight 16-bit groups and the 128-bit number they spell. */
  lemma AcceptedIsEightWords(value: string)
    requires ParseIpv6(value).Some?
    ensures var groups := Ipv6Groups(value).value;
            |groups| == 8 && SixteenBit(groups) && ParseIpv6(value) == Some(Number(groups)) && Number(groups) < TWO_128
  {
    var parts := SplitPair(value, ':', ':');
    SideValueWords(parts[0]);
    if |parts| == 2 {
      SideValueWords(parts[1]);
    }
    var groups := Ipv6Groups(value).value;
    ShiftInIsNumber(0, groups);
    NumberBound(groups);
    EightWords();
  }

  lemma EightWords()
    ensures Pow(65536, 8) == TWO_128
  {
    assert Pow(65536, 2) == 0x1_0000_0000;
    assert Pow(65536, 4) == 0x1_0000_0000_0000_0000;
    assert Pow(65536, 6) == 0x1_0000_0000_0000_0000_0000_0000;
  }

  // ----------------------------------------------- the text forms of RFC 4291

  /** One side of an address: hexadecimal pieces, then possibly an IPv4 tail. */
  datatype Pieces = Pieces(hex: seq<string>, tail: Option<nat>)

  /** Section 2.2 of RFC 4291: all groups written, or one run of zero groups written `::`. */
  datatype Form = Full(all: Pieces) | Compressed(left: Pieces, right: Pieces)

  predicate WellFormedPieces(p: Pieces) {
    (forall i :: 0 <= i < |p.hex| ==> IsHexGroup(p.hex[i])) && (p.tail.Some? ==> p.tail.value < TWO_32)
  }

  function Width(p: Pieces): nat {
    |p.hex| + if p.tail.Some? then 2 else 0
  }

  /** What the parser accepts. */
  predicate WellFormed(f: Form) {
    match f
    case Full(all) => WellFormedPieces(all) && Width(all) == 8
    case Compressed(left, right) => WellFormedPieces(left) && WellFormedPieces(right) && Width(left) + Width(right) <= 7
  }

  /** What the RFC allows: the IPv4 tail stands at the very end. */
  predicate Rfc4291(f: Form) {
    WellFormed(f) && (f.Compressed? ==> f.left.tail.None?)
  }

  function Tokens(p: Pieces): seq<string>
    requires WellFormedPieces(p)
  {
    p.hex + if p.tail.Some? then [Dotted(p.tail.value)] else []
  }

  function RenderPieces(p: Pieces): string
    requires WellFormedPieces(p)
  {
    if Tokens(p) == [] then "" else Join(Tokens(p), ':')
  }

  function Render(f: Form): string
    requires WellFormed(f)
  {
    match f
    case Full(all) => RenderPieces(all)
    case Compressed(left, right) => RenderPieces(left) + [':', ':'] + RenderPieces(right)
  }

  function HexValues(hex: seq<string>): (groups: seq<nat>)
    requires forall i :: 0 <= i < |hex| ==> IsHexGroup(hex[i])
    ensures |groups| == |hex|
  {
    if hex == [] then []
    else
      assert IsHexGroup(hex[0]);
      [HexValue(hex[0])] + HexValues(hex[1..])
  }

  function PieceGroups(p: Pieces): (groups: seq<nat>)
    requires WellFormedPieces(p)
    ensures |groups| == Width(p)
  {
    HexValues(p.hex) + if p.tail.Some? then [p.tail.value / 65536, p.tail.value % 65536] else []
  }

  /** The eight groups a form stands for. */
  function Denotes(f: Form): (groups: seq<nat>)
    requires WellFormed(f)
    ensures |groups| == 8
  {
    match f
    case Full(all) => PieceGroups(all)
    case Compressed(left, right) =>
      PieceGroups(left) + Zeros(8 - Width(left) - Width(right)) + PieceGroups(right)
  }

  // Rendered pieces read back.

  lemma TailReadsBack(v: nat)
    requires v < TWO_32
    ensures SideGroups([Dotted(v)]) == Some([v / 65536, v % 65536])
  {
    Ipv4ParsesDotted(v);
  }

  lemma {:induction false} TokensGroups(hex: seq<string>, tail: seq<string>, groups: seq<nat>)
    requires forall i :: 0 <= i < |hex| ==> IsHexGroup(hex[i])
    requires SideGroups(tail) == Some(groups)
    ensures SideGroups(hex + tail) == Some(HexValues(hex) + groups)
    decreases |hex|
  {
    if hex == [] {
      assert hex + tail == tail && HexValues(hex) + groups == groups;
    } else {
      TokensGroups(hex[1..], tail, groups);
      assert (hex + tail)[1..] == hex[1..] + tail && (hex + tail)[0] == hex[0];
      UndottedIsNotIpv4(hex[0]);
      PrependTwice([HexValue(hex[0])], HexValues(hex[1..]), Some(groups));
    }
  }

  lemma PiecesGroups(p: Pieces)
    requires WellFormedPieces(p)
    ensures SideGroups(Tokens(p)) == Some(PieceGroups(p))
  {
    match p.tail
    case None => TokensGroups(p.hex, [], []);
    case Some(v) =>
      TailReadsBack(v);
      TokensGroups(p.hex, [Dotted(v)], [v / 65536, v % 65536]);
  }

  /** Characters of a piece: hexadecimal digits and dots. */
  predicate PieceChars(s: string) {
    forall i :: 0 <= i < |s| ==> IsHex(s[i]) || s[i] == '.'
  }

  lemma TokensChars(p: Pieces)
    requires WellFormedPieces(p)
    ensures forall i :: 0 <= i < |Tokens(p)| ==> Tokens(p)[i] != "" && PieceChars(Tokens(p)[i])
  {
    if p.tail.Some? {
      DottedChars(p.tail.value);
      var d := Dotted(p.tail.value);
      assert forall i :: 0 <= i < |d| ==> d[i] in d;
    }
  }

  lemma SidesReadBack(p: Pieces)
    requires WellFormedPieces(p)
    ensures Side(RenderPieces(p)) == Some(PieceGroups(p))
  {
    PiecesGroups(p);
    TokensChars(p);
    if Tokens(p) != [] {
      var tokens := Tokens(p);
      forall t | t in tokens ensures ':' !in t {
        var i :| 0 <= i < |tokens| && tokens[i] == t;
      }
      SplitJoin(tokens, ':');
      JoinStart(tokens);
    }
  }

  lemma JoinStart(tokens: seq<string>)
    requires tokens != [] && forall i :: 0 <= i < |tokens| ==> tokens[i] != ""
    ensures Join(tokens, ':') != "" && Join(tokens, ':')[0] == tokens[0][0]
  {
  }

  /** Joined pieces never show two colons in a row, and neither begin nor end with one. */
  lemma {:induction false} JoinedPieces(tokens: seq<string>)
    requires tokens != [] && forall i :: 0 <= i < |tokens| ==> tokens[i] != "" && PieceChars(tokens[i])
    ensures var s := Join(tokens, ':');
            s != "" && s[0] != ':' && s[|s| - 1] != ':' && !HasPair(s, ':', ':') && '%' !in s
  {
    if |tokens| > 1 {
      JoinedPieces(tokens[1..]);
      var first, rest := tokens[0], Join(tokens[1..], ':');
      var s := first + [':'] + rest;
      forall i | 0 <= i && i + 1 < |s| ensures !(s[i] == ':' && s[i + 1] == ':') {
        if i > |first| {
          assert s[i] == rest[i - |first| - 1] && s[i + 1] == rest[i - |first|];
        }
      }
    }
  }

  lemma RenderedPieces(p: Pieces)
    requires WellFormedPieces(p)
    ensures var s := RenderPieces(p);
            !HasPair(s, ':', ':') && '%' !in s && (s != "" ==> s[0] != ':' && s[|s| - 1] != ':')
    ensures Tokens(p) != [] ==> RenderPieces(p) != ""
  {
    TokensChars(p);
    if Tokens(p) != [] {
      JoinedPieces(Tokens(p));
    }
  }

  lemma FullReadsBack(all: Pieces)
    requires WellFormed(Full(all))
    ensures Ipv6Groups(RenderPieces(all)) == Some(PieceGroups(all))
  {
    var s := RenderPieces(all);
    RenderedPieces(all);
    SidesReadBack(all);
    SplitPairNone(s, ':', ':');
    assert PieceGroups(all) + Zeros(0) + [] == PieceGroups(all);
  }

  lemma CompressedSplits(left: Pieces, right: Pieces)
    requires WellFormed(Compressed(left, right))
    ensures var s := Render(Compressed(left, right));
            SplitPair(s, ':', ':') == [RenderPieces(left), RenderPieces(right)] && '%' !in s && s != ""
  {
    var l, r := RenderPieces(left), RenderPieces(right);
    RenderedPieces(left);
    RenderedPieces(right);
    SplitPairAt(l, r, ':', ':');
    SplitPairNone(r, ':', ':');
  }

  lemma TwoSides(value: string, left: seq<nat>, right: seq<nat>)
    requires |SplitPair(value, ':', ':')| == 2 && '%' !in value && value != ""
    requires Side(SplitPair(value, ':', ':')[0]) == Some(left) && Side(SplitPair(value, ':', ':')[1]) == Some(right)
    requires |left| + |right| <= 7
    ensures Ipv6Groups(value) == Some(left + Zeros(8 - |left| - |right|) + right)
  {
  }

  lemma CompressedReadsBack(left: Pieces, right: Pieces)
    requires WellFormed(Compressed(left, right))
    ensures Ipv6Groups(Render(Compressed(left, right))) == Some(Denotes(Compressed(left, right)))
  {
    CompressedSplits(left, right);
    SidesReadBack(left);
    SidesReadBack(right);
    TwoSides(Render(Compressed(left, right)), PieceGroups(left), PieceGroups(right));
  }

  /** Every form parses to the number it denotes; the forms of RFC 4291 are among them. */
  lemma FormsParse(f: Form)
    requires WellFormed(f)
    ensures ParseIpv6(Render(f)) == Some(Number(Denotes(f)))
  {
    match f {
      case Full(all) => FullReadsBack(all);
      case Compressed(left, right) => CompressedReadsBack(left, right);
    }
    ShiftInIsNumber(0, Denotes(f));
  }

  function HexTexts(groups: seq<nat>): (tokens: seq<string>)
    requires SixteenBit(groups)
    ensures |tokens| == |groups| && forall i :: 0 <= i < |groups| ==> tokens[i] == HexText(groups[i])
  {
    if groups == [] then [] else [HexText(groups[0])] + HexTexts(groups[1..])
  }

  lemma {:induction false} TextsReadBack(groups: seq<nat>)
    requires SixteenBit(groups)
    ensures forall i :: 0 <= i < |groups| ==> IsHexGroup(HexTexts(groups)[i])
    ensures HexValues(HexTexts(groups)) == groups
  {
    if groups != [] {
      HexReadsBack(groups[0]);
      TextsReadBack(groups[1..]);
      assert HexTexts(groups)[1..] == HexTexts(groups[1..]);
    }
  }

  /** Eight groups written out in four hexadecimal digits each, colons between them, are the number they spell. */
  lemma WrittenOut(groups: seq<nat>)
    requires |groups| == 8 && SixteenBit(groups)
    ensures ParseIpv6(Join(HexTexts(groups), ':')) == Some(Number(groups))
  {
    TextsReadBack(groups);
    var all := Pieces(HexTexts(groups), None);
    assert Tokens(all) == HexTexts(groups) && PieceGroups(all) == groups;
    FormsParse(Full(all));
  }

  // Accepted text is a rendered form.

  lemma TokenThenPieces(token: string, rest: Pieces)
    requires IsHexGroup(token) && WellFormedPieces(rest)
    ensures var p := Pieces([token] + rest.hex, rest.tail); WellFormedPieces(p) && Tokens(p) == [token] + Tokens(rest)
  {
  }

  lemma LastTokenIsTail(token: string)
    requires ParseIpv4(token).Some?
    ensures var p := Pieces([], ParseIpv4(token)); WellFormedPieces(p) && Tokens(p) == [token]
  {
    Ipv4OnlyDotted(token);
  }

  lemma {:induction false} TokensArePieces(tokens: seq<string>) returns (p: Pieces)
    requires SideGroups(tokens).Some?
    ensures WellFormedPieces(p) && Tokens(p) == tokens
  {
    if tokens == [] {
      p := Pieces([], None);
    } else if ParseIpv4(tokens[0]).Some? {
      LastTokenIsTail(tokens[0]);
      p := Pieces([], ParseIpv4(tokens[0]));
      assert tokens == [tokens[0]];
    } else {
      var rest := TokensArePieces(tokens[1..]);
      TokenThenPieces(tokens[0], rest);
      p := Pieces([tokens[0]] + rest.hex, rest.tail);
      assert tokens == [tokens[0]] + tokens[1..];
    }
  }

  lemma SideIsPieces(value: string) returns (p: Pieces)
    requires Side(value).Some?
    ensures WellFormedPieces(p) && RenderPieces(p) == value && Width(p) == |Side(value).value|
  {
    if value == "" {
      p := Pieces([], None);
    } else {
      p := TokensArePieces(Split(value, ':'));
      JoinSplit(value, ':');
    }
    SidesReadBack(p);
  }

  lemma AcceptedIsForm(value: string) returns (f: Form)
    requires ParseIpv6(value).Some?
    ensures WellFormed(f) && Render(f) == value
    ensures f.Compressed? <==> |SplitPair(value, ':', ':')| == 2
    ensures f.Compressed? ==> SplitPair(value, ':', ':')[0] == RenderPieces(f.left)
  {
    var parts := SplitPair(value, ':', ':');
    var left := SideIsPieces(parts[0]);
    if |parts| == 1 {
      SplitPairNone(value, ':', ':');
      f := Full(left);
    } else {
      var right := SideIsPieces(parts[1]);
      TwoPartsJoin(value);
      f := Compressed(left, right);
    }
  }

  lemma TwoPartsJoin(value: string)
    requires |SplitPair(value, ':', ':')| == 2
    ensures var parts := SplitPair(value, ':', ':'); value == parts[0] + [':', ':'] + parts[1]
  {
    var i := IndexOfPair(value, ':', ':');
    SplitPairNone(value[i + 2..], ':', ':');
    assert value == value[..i] + [':', ':'] + value[i + 2..];
  }

  ghost predicate IsRfc4291(value: string) {
    exists f :: Rfc4291(f) && Render(f) == value
  }

  /** The parser accepts an IPv4 tail before `::` too; apart from that, exactly the forms of the RFC. */
  lemma ParserVersusRfc(value: string)
    ensures IsRfc4291(value) <==>
            ParseIpv6(value).Some? && !(|SplitPair(value, ':', ':')| == 2 && '.' in SplitPair(value, ':', ':')[0])
  {
    if IsRfc4291(value) {
      var f :| Rfc4291(f) && Render(f) == value;
      FormsParse(f);
      RfcHasNoEarlyDot(f);
    }
    if ParseIpv6(value).Some? && !(|SplitPair(value, ':', ':')| == 2 && '.' in SplitPair(value, ':', ':')[0]) {
      var f := AcceptedIsForm(value);
      if f.Compressed? {
        NoDotNoTail(f.left);
      }
    }
  }

  lemma RfcHasNoEarlyDot(f: Form)
    requires Rfc4291(f)
    ensures var parts := SplitPair(Render(f), ':', ':'); !(|parts| == 2 && '.' in parts[0])
  {
    match f {
      case Full(all) =>
        RenderedPieces(all);
        SplitPairNone(RenderPieces(all), ':', ':');
      case Compressed(left, right) =>
        CompressedSplits(left, right);
        if left.hex != [] {
          HexJoinHasNoDot(left.hex);
          assert Tokens(left) == left.hex;
        }
    }
  }

  lemma {:induction false} HexJoinHasNoDot(tokens: seq<string>)
    requires tokens != [] && forall i :: 0 <= i < |tokens| ==> IsHexGroup(tokens[i])
    ensures '.' !in Join(tokens, ':')
  {
    if |tokens| > 1 {
      HexJoinHasNoDot(tokens[1..]);
    }
  }

  lemma {:induction false} JoinHolds(tokens: seq<string>, i: nat, c: char)
    requires i < |tokens| && c in tokens[i]
    ensures c in Join(tokens, ':')
  {
    if i > 0 {
      JoinHolds(tokens[1..], i - 1, c);
    }
  }

  lemma NoDotNoTail(p: Pieces)
    requires WellFormedPieces(p) && '.' !in RenderPieces(p)
    ensures p.tail.None?
  {
    if p.tail.Some? {
      DottedChars(p.tail.value);
      JoinHolds(Tokens(p), |p.hex|, '.');
    }
  }

  lemma DottedExample()
    ensures Dotted(0x0102_0304) == "1.2.3.4"
  {
  }

  /** The extra text the parser takes: an IPv4 form before the compression. */
  lemma DottedHead()
    ensures ParseIpv6("1.2.3.4::").Some? && !IsRfc4291("1.2.3.4::")
  {
    var left, right := Pieces([], Some(0x0102_0304)), Pieces([], None);
    DottedExample();
    assert RenderPieces(left) == "1.2.3.4" && RenderPieces(right) == "";
    assert Render(Compressed(left, right)) == "1.2.3.4::";
    FormsParse(Compressed(left, right));
    CompressedSplits(left, right);
    assert "1.2.3.4"[1] == '.';
    ParserVersusRfc("1.2.3.4::");
  }
}
