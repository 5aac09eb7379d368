/** DNS names on the wire, laid out and skipped, and the host names that are encoded into queries. */
module DnsNames {
  import opened Wrappers
  import opened Text

  type byte = x: int | 0 <= x < 256

  // ------------------------------------------------------ names as RFC 1035 lays them out

  /** Section 4.1.4 of RFC 1035: labels, then the root or a two-octet pointer. */
  datatype Name = Name(labels: seq<seq<byte>>, end: NameEnd)

  datatype NameEnd = Root | Pointer(high: byte, low: byte)

  predicate WellFormedName(name: Name) {
    && (forall i :: 0 <= i < |name.labels| ==> 1 <= |name.labels[i]| <= 63)
    && (name.end.Pointer? ==> name.end.high >= 192)
  }

  function EndOctets(end: NameEnd): seq<byte> {
    match end
    case Root => [0]
    case Pointer(high, low) => [high, low]
  }

  function LabelOctets(part: seq<byte>): seq<byte>
    requires |part| <= 63
  {
    [|part|] + part
  }

  function NameOctets(name: Name): (octets: seq<byte>)
    requires WellFormedName(name)
    ensures octets != []
    decreases |name.labels|
  {
    if name.labels == [] then EndOctets(name.end)
    else LabelOctets(name.labels[0]) + NameOctets(Name(name.labels[1..], name.end))
  }

  // --------------------------------------------------------------------- skipping

  /** The offset behind the name at an offset. */
  function SkipName(packet: seq<byte>, offset: nat): (next: Option<nat>)
    ensures next.Some? ==> offset < next.value <= |packet|
    decreases |packet| - offset
  {
    if offset >= |packet| then None
    else
      var length := packet[offset];
      if length == 0 then Some(offset + 1)
      else if length / 64 == 3 then if offset + 1 < |packet| then Some(offset + 2) else None
      else if length / 64 != 0 || offset + 1 + length > |packet| then None
      else SkipName(packet, offset + 1 + length)
  }

  method SkipDnsName(packet: seq<byte>, start: nat) returns (next: Option<nat>)
    ensures next == SkipName(packet, start)
  {
    var offset := start;
    while true
      invariant SkipName(packet, start) == SkipName(packet, offset)
      invariant start <= offset
      decreases |packet| - offset
    {
      if offset >= |packet| {
        return None;
      }
      var length: nat := packet[offset];
      offset := offset + 1;
      if length == 0 {
        return Some(offset);
      }
      if length / 64 == 3 {
        if offset >= |packet| {
          return None;
        }
        return Some(offset + 1);
      }
      if length / 64 != 0 {
        return None;
      }
      offset := offset + length;
      if offset > |packet| {
        return None;
      }
    }
  }

  lemma EndSkipped(pre: seq<byte>, end: NameEnd, post: seq<byte>)
    requires end.Pointer? ==> end.high >= 192
    ensures SkipName(pre + EndOctets(end) + post, |pre|) == Some(|pre| + |EndOctets(end)|)
  {
    var packet := pre + EndOctets(end) + post;
    assert packet[|pre|] == EndOctets(end)[0];
  }

  lemma LabelSkipped(pre: seq<byte>, part: seq<byte>, post: seq<byte>)
    requires 1 <= |part| <= 63
    ensures var packet := pre + (LabelOctets(part) + post);
            SkipName(packet, |pre|) == SkipName(packet, |pre + LabelOctets(part)|)
  {
    var packet := pre + (LabelOctets(part) + post);
    assert packet[|pre|] == |part|;
  }

  /** A name laid out anywhere in a packet is skipped exactly. */
  lemma {:induction false} NameSkipped(pre: seq<byte>, name: Name, post: seq<byte>)
    requires WellFormedName(name)
    ensures SkipName(pre + NameOctets(name) + post, |pre|) == Some(|pre| + |NameOctets(name)|)
    decreases |name.labels|
  {
    if name.labels == [] {
      EndSkipped(pre, name.end, post);
    } else {
      var part, rest := name.labels[0], Name(name.labels[1..], name.end);
      LabelSkipped(pre, part, NameOctets(rest) + post);
      NameSkipped(pre + LabelOctets(part), rest, post);
      assert pre + NameOctets(name) + post == pre + (LabelOctets(part) + (NameOctets(rest) + post));
      assert pre + NameOctets(name) + post == (pre + LabelOctets(part)) + NameOctets(rest) + post;
    }
  }

  /** Whatever is skipped is a name in that layout. */
  lemma {:induction false} SkippedIsName(packet: seq<byte>, offset: nat) returns (name: Name)
    requires SkipName(packet, offset).Some?
    ensures WellFormedName(name) && NameOctets(name) == packet[offset..SkipName(packet, offset).value]
    decreases |packet| - offset
  {
    var length := packet[offset];
    if length == 0 {
      name := Name([], Root);
    } else if length / 64 == 3 {
      name := Name([], Pointer(length, packet[offset + 1]));
    } else {
      var part := packet[offset + 1..offset + 1 + length];
      var rest := SkippedIsName(packet, offset + 1 + length);
      name := Name([part] + rest.labels, rest.end);
      assert name.labels[1..] == rest.labels;
      assert LabelOctets(part) == packet[offset..offset + 1 + length];
    }
  }

  // -------------------------------------------------------------------- host names

  predicate IsDot(c: char) {
    c == '.'
  }

  predicate HostLabel(part: string) {
    1 <= |part| <= 63 && part[0] != '-' && part[|part| - 1] != '-'
  }

  predicate HostChar(c: char) {
    IsDigit(c) || 'a' <= c <= 'z' || 'A' <= c <= 'Z' || c == '-' || c == '.'
  }

  predicate IsHostname(hostname: string) {
    && 1 <= |hostname| <= 253
    && (forall part :: part in Split(hostname, '.') ==> HostLabel(part))
    && (forall i :: 0 <= i < |hostname| ==> HostChar(hostname[i]))
  }

  /** A label of letters, digits and hyphens, with no hyphen at either end, of at most 63 octets (section 2.3.1 of
      RFC 1035, section 2.1 of RFC 1123). */
  predicate LdhLabel(part: string) {
    && 1 <= |part| <= 63 && part[0] != '-' && part[|part| - 1] != '-'
    && forall i :: 0 <= i < |part| ==> LdhCode(part[i] as int)
  }

  /** The ASCII codes of digits, capital and small letters, and the hyphen. */
  predicate LdhCode(code: int) {
    48 <= code <= 57 || 65 <= code <= 90 || 97 <= code <= 122 || code == 45
  }

  lemma LdhChar(c: char)
    ensures HostChar(c) <==> LdhCode(c as int) || c == '.'
  {
  }

  /** Such labels with dots between them. */
  ghost predicate DottedLabels(hostname: string, labels: seq<string>) {
    labels != [] && Join(labels, '.') == hostname && forall i :: 0 <= i < |labels| ==> LdhLabel(labels[i])
  }

  lemma HostnameHasLabels(hostname: string)
    requires IsHostname(hostname)
    ensures DottedLabels(hostname, Split(hostname, '.'))
  {
    var labels := Split(hostname, '.');
    JoinSplit(hostname, '.');
    SplitParts(hostname, '.');
    forall i | 0 <= i < |labels| ensures LdhLabel(labels[i]) {
      assert labels[i] in labels && HostLabel(labels[i]);
      forall k | 0 <= k < |labels[i]| ensures LdhCode(labels[i][k] as int) {
        assert labels[i][k] in labels[i];
        var j :| 0 <= j < |hostname| && hostname[j] == labels[i][k];
        assert HostChar(hostname[j]);
        LdhChar(hostname[j]);
      }
    }
  }

  lemma LdhHasNoDot(part: string)
    requires LdhLabel(part)
    ensures '.' !in part && HostLabel(part)
  {
  }

  lemma LabelsHostChars(hostname: string, labels: seq<string>, i: nat)
    requires DottedLabels(hostname, labels) && i < |hostname|
    ensures HostChar(hostname[i])
  {
    JoinChars(labels, '.', hostname[i]);
    LdhChar(hostname[i]);
    if hostname[i] != '.' {
      var k :| 0 <= k < |labels| && hostname[i] in labels[k];
      assert LdhLabel(labels[k]);
    }
  }

  lemma LabelsAreHostname(hostname: string, labels: seq<string>)
    requires DottedLabels(hostname, labels) && |hostname| <= 253
    ensures IsHostname(hostname)
  {
    forall p | p in labels ensures '.' !in p && HostLabel(p) {
      var i :| 0 <= i < |labels| && labels[i] == p;
      LdhHasNoDot(labels[i]);
    }
    SplitJoin(labels, '.');
    forall i | 0 <= i < |hostname| ensures HostChar(hostname[i]) {
      LabelsHostChars(hostname, labels, i);
    }
    assert labels[0] in labels;
  }

  /** Exactly the dotted labels of at most 253 characters are host names. */
  lemma HostnameExactly(hostname: string)
    ensures IsHostname(hostname) <==> |hostname| <= 253 && exists labels :: DottedLabels(hostname, labels)
  {
    if IsHostname(hostname) {
      HostnameHasLabels(hostname);
    }
    if |hostname| <= 253 && exists labels :: DottedLabels(hostname, labels) {
      var labels :| DottedLabels(hostname, labels);
      LabelsAreHostname(hostname, labels);
    }
  }

  function NormalizeHostname(value: string): Option<string> {
    var hostname := Lower(TrimEnd(Trim(value, RustSpace), IsDot));
    if IsHostname(hostname) then Some(hostname) else None
  }

  lemma LastPart(s: string, c: char)
    requires s != "" && s[|s| - 1] == c
    ensures "" in Split(s, c)
    decreases |s|
  {
    var i := IndexOf(s, c);
    assert i < |s| by {
      assert s[|s| - 1] in s;
    }
    if i == |s| - 1 {
      assert Split("", c) == [""];
      assert Split(s, c) == [s[..i]] + [""];
      assert Split(s, c)[1] == "";
    } else {
      LastPart(s[i + 1..], c);
    }
  }

  /** An accepted host name is a fixed point. */
  lemma NormalizedIsFixed(value: string)
    requires NormalizeHostname(value).Some?
    ensures NormalizeHostname(NormalizeHostname(value).value) == NormalizeHostname(value)
  {
    var hostname := NormalizeHostname(value).value;
    LowerIdempotent(TrimEnd(Trim(value, RustSpace), IsDot));
    HostnameTight(hostname);
  }

  lemma HostnameTight(hostname: string)
    requires IsHostname(hostname)
    ensures Trim(hostname, RustSpace) == hostname && TrimEnd(hostname, IsDot) == hostname
  {
    assert HostChar(hostname[0]) && HostChar(hostname[|hostname| - 1]);
    TrimTight(hostname, RustSpace);
    if hostname[|hostname| - 1] == '.' {
      LastPart(hostname, '.');
    }
  }

  lemma DotsAreNoSpace(dots: string)
    requires AllSpace(dots, IsDot)
    ensures forall i :: 0 <= i < |dots| ==> !RustSpace(dots[i])
  {
  }

  lemma LowerHostname(hostname: string)
    requires IsHostname(hostname)
    ensures Tight(hostname, RustSpace) && TrimEnd(hostname, IsDot) == hostname
  {
    HostnameTight(hostname);
    TrimSpec(hostname, RustSpace);
  }

  function LowerAll(labels: seq<string>): (lowered: seq<string>)
    ensures |lowered| == |labels| && forall i :: 0 <= i < |labels| ==> lowered[i] == Lower(labels[i])
  {
    if labels == [] then [] else [Lower(labels[0])] + LowerAll(labels[1..])
  }

  lemma LowerAppend(a: string, b: string)
    ensures Lower(a + b) == Lower(a) + Lower(b)
  {
  }

  lemma {:induction false} LowerJoined(labels: seq<string>)
    requires labels != []
    ensures Join(LowerAll(labels), '.') == Lower(Join(labels, '.'))
  {
    if |labels| > 1 {
      LowerJoined(labels[1..]);
      assert LowerAll(labels)[1..] == LowerAll(labels[1..]);
      LowerAppend(labels[0] + ".", Join(labels[1..], '.'));
      LowerAppend(labels[0], ".");
      assert Lower(".") == ".";
    }
  }

  lemma LowerLabel(part: string)
    requires LdhLabel(part)
    ensures LdhLabel(Lower(part))
  {
    forall i | 0 <= i < |part| ensures LdhCode(Lower(part)[i] as int) && (Lower(part)[i] == '-' ==> part[i] == '-') {
      assert LdhCode(part[i] as int);
    }
  }

  /** The case of its letters does not matter to a host name. */
  lemma LowerIsHostname(hostname: string)
    requires IsHostname(hostname)
    ensures IsHostname(Lower(hostname))
  {
    var labels := Split(hostname, '.');
    HostnameHasLabels(hostname);
    LowerJoined(labels);
    forall i | 0 <= i < |labels| ensures LdhLabel(LowerAll(labels)[i]) {
      LowerLabel(labels[i]);
    }
    LabelsAreHostname(Lower(hostname), LowerAll(labels));
  }

  /** White space around a host name and dots behind it do not matter, and its letters become small. */
  lemma DecoratedHostname(pre: string, hostname: string, dots: string, post: string)
    requires IsHostname(hostname)
    requires AllSpace(pre, RustSpace) && AllSpace(post, RustSpace) && AllSpace(dots, IsDot)
    ensures NormalizeHostname(pre + (hostname + dots) + post) == Some(Lower(hostname))
  {
    LowerIsHostname(hostname);
    LowerHostname(hostname);
    DotsAreNoSpace(dots);
    TrimPadded(pre, hostname + dots, post, RustSpace);
    TrimEndDrops(hostname, dots, IsDot);
  }

  // ----------------------------------------------------------------------- queries

  datatype QueryError = LabelTooLong | BadName

  /** Text whose characters stand for single octets. */
  predicate IsOctetText(s: string) {
    forall i :: 0 <= i < |s| ==> s[i] as int < 256
  }

  function Octets(s: string): (octets: seq<byte>)
    requires IsOctetText(s)
    ensures |octets| == |s| && forall i :: 0 <= i < |s| ==> octets[i] == s[i] as int
  {
    if s == "" then [] else [s[0] as int] + Octets(s[1..])
  }

  predicate OctetTexts(labels: seq<string>) {
    forall i :: 0 <= i < |labels| ==> IsOctetText(labels[i])
  }

  function AllOctets(labels: seq<string>): (octets: seq<seq<byte>>)
    requires OctetTexts(labels)
    ensures |octets| == |labels| && forall i :: 0 <= i < |labels| ==> octets[i] == Octets(labels[i])
  {
    if labels == [] then [] else [Octets(labels[0])] + AllOctets(labels[1..])
  }

  /** The first label that cannot be encoded decides the error. */
  function LabelsError(labels: seq<string>): (error: Option<QueryError>)
    ensures error.None? <==> forall i :: 0 <= i < |labels| ==> 1 <= |labels[i]| <= 63
  {
    if labels == [] then None
    else if |labels[0]| > 255 then Some(LabelTooLong)
    else if |labels[0]| == 0 || |labels[0]| > 63 then Some(BadName)
    else LabelsError(labels[1..])
  }

  function U16Octets(n: nat): seq<byte>
    requires n < 65536
  {
    [n / 256, n % 256]
  }

  function QueryHeader(queryId: nat): seq<byte>
    requires queryId < 65536
  {
    U16Octets(queryId) + [1, 0, 0, 1, 0, 0, 0, 0, 0, 0]
  }

  lemma LabelsAreOctets(host: string)
    requires IsOctetText(host)
    ensures OctetTexts(Split(TrimEnd(host, IsDot), '.'))
  {
    var trimmed := TrimEnd(host, IsDot);
    var labels := Split(trimmed, '.');
    TrimEndSpec(host, IsDot);
    SplitParts(trimmed, '.');
    forall i, k | 0 <= i < |labels| && 0 <= k < |labels[i]| ensures labels[i][k] as int < 256 {
      assert labels[i] in labels && labels[i][k] in labels[i];
      var j :| 0 <= j < |trimmed| && trimmed[j] == labels[i][k];
      assert host[j] == trimmed[j];
    }
  }

  function HostLabels(host: string): (labels: seq<string>)
    requires IsOctetText(host)
    ensures OctetTexts(labels)
  {
    LabelsAreOctets(host);
    Split(TrimEnd(host, IsDot), '.')
  }

  /** The name of a query, or why there is none. */
  function QueryName(host: string): Result<Name, QueryError>
    requires IsOctetText(host)
  {
    match LabelsError(HostLabels(host))
    case Some(error) => Err(error)
    case None => Ok(Name(AllOctets(HostLabels(host)), Root))
  }

  /** The labels' octets in order, without the root. */
  function LabelsOctets(labels: seq<string>): seq<byte>
    requires OctetTexts(labels) && LabelsError(labels).None?
  {
    if labels == [] then [] else LabelOctets(Octets(labels[0])) + LabelsOctets(labels[1..])
  }

  lemma {:induction false} LabelsThenRoot(labels: seq<string>)
    requires OctetTexts(labels) && LabelsError(labels).None?
    ensures NameOctets(Name(AllOctets(labels), Root)) == LabelsOctets(labels) + [0]
  {
    if labels != [] {
      LabelsThenRoot(labels[1..]);
      assert AllOctets(labels)[1..] == AllOctets(labels[1..]);
    }
  }

  function QueryPacket(name: Name, qtype: nat, queryId: nat): seq<byte>
    requires WellFormedName(name) && qtype < 65536 && queryId < 65536
  {
    QueryHeader(queryId) + NameOctets(name) + (U16Octets(qtype) + U16Octets(1))
  }

  /** A query: its ID, recursion desired, one question and no records; the name's labels with their lengths, the root,
      the type and class IN (sections 4.1.1 and 4.1.2 of RFC 1035). */
  lemma QueryLayout(name: Name, qtype: nat, queryId: nat)
    requires WellFormedName(name) && qtype < 65536 && queryId < 65536
    ensures var packet, end := QueryPacket(name, qtype, queryId), 12 + |NameOctets(name)|;
            && |packet| == end + 4
            && packet[0] as int * 256 + packet[1] as int == queryId
            && packet[2..12] == [1, 0, 0, 1, 0, 0, 0, 0, 0, 0]
            && packet[12..end] == NameOctets(name)
            && packet[end] as int * 256 + packet[end + 1] as int == qtype && packet[end + 2..] == [0, 1]
  {
  }

  /** The loop over the labels. */
  method PushLabels(start: seq<byte>, labels: seq<string>) returns (r: Result<seq<byte>, QueryError>)
    requires OctetTexts(labels)
    ensures r == if LabelsError(labels).Some? then Err(LabelsError(labels).value) else Ok(start + LabelsOctets(labels))
  {
    var packet := start;
    var i := 0;
    assert labels[i..] == labels;
    while i < |labels|
      invariant 0 <= i <= |labels| && LabelsError(labels) == LabelsError(labels[i..])
      invariant LabelsError(labels).None? ==> start + LabelsOctets(labels) == packet + LabelsOctets(labels[i..])
    {
      assert labels[i..][0] == labels[i] && labels[i..][1..] == labels[i + 1..];
      if |labels[i]| > 255 {
        return Err(LabelTooLong);
      }
      if |labels[i]| == 0 || |labels[i]| > 63 {
        return Err(BadName);
      }
      FirstLabelMoves(packet, labels[i..]);
      packet := packet + LabelOctets(Octets(labels[i]));
      i := i + 1;
    }
    assert labels[i..] == [] && packet + [] == packet;
    r := Ok(packet);
  }

  lemma FirstLabelMoves(packet: seq<byte>, labels: seq<string>)
    requires labels != [] && OctetTexts(labels) && 1 <= |labels[0]| <= 63
    ensures LabelsError(labels) == LabelsError(labels[1..])
    ensures LabelsError(labels).None? ==>
              packet + LabelsOctets(labels) == (packet + LabelOctets(Octets(labels[0]))) + LabelsOctets(labels[1..])
  {
    if LabelsError(labels).None? {
      Reassociate(packet, LabelOctets(Octets(labels[0])), LabelsOctets(labels[1..]));
    }
  }

  lemma Reassociate(a: seq<byte>, b: seq<byte>, c: seq<byte>)
    ensures a + (b + c) == (a + b) + c
  {
  }

  method BuildDnsQuery(host: string, qtype: nat, queryId: nat) returns (r: Result<seq<byte>, QueryError>)
    requires IsOctetText(host) && qtype < 65536 && queryId < 65536
    ensures match QueryName(host)
            case Err(error) => r == Err(error)
            case Ok(name) => r == Ok(QueryPacket(name, qtype, queryId))
  {
    var pushed := PushLabels(QueryHeader(queryId), HostLabels(host));
    if pushed.Err? {
      return Err(pushed.error);
    }
    LabelsThenRoot(HostLabels(host));
    var packet := pushed.value + [0];
    assert packet == QueryHeader(queryId) + (LabelsOctets(HostLabels(host)) + [0]);
    packet := packet + (U16Octets(qtype) + U16Octets(1));
    r := Ok(packet);
  }

  // ------------------------------------------------- host names encoded into queries

  lemma {:induction false} LabelsLength(labels: seq<string>)
    requires labels != [] && OctetTexts(labels) && LabelsError(labels).None?
    ensures |LabelsOctets(labels)| == |Join(labels, '.')| + 1
  {
    if |labels| > 1 {
      LabelsLength(labels[1..]);
    }
  }

  lemma HostnameOctets(hostname: string)
    requires IsHostname(hostname)
    ensures IsOctetText(hostname)
  {
    forall i | 0 <= i < |hostname| ensures hostname[i] as int < 256 {
      assert HostChar(hostname[i]);
    }
  }

  lemma HostnameLabels(hostname: string)
    requires IsHostname(hostname)
    ensures IsOctetText(hostname) && HostLabels(hostname) == Split(hostname, '.')
    ensures LabelsError(HostLabels(hostname)).None?
  {
    HostnameOctets(hostname);
    HostnameTight(hostname);
    var labels := Split(hostname, '.');
    forall i | 0 <= i < |labels| ensures 1 <= |labels[i]| <= 63 {
      assert labels[i] in labels && HostLabel(labels[i]);
    }
  }

  lemma HostnameName(hostname: string)
    requires IsHostname(hostname)
    ensures IsOctetText(hostname) && QueryName(hostname).Ok? && WellFormedName(QueryName(hostname).value)
    ensures |NameOctets(QueryName(hostname).value)| == |hostname| + 2
  {
    var labels := HostLabels(hostname);
    HostnameLabels(hostname);
    LabelsThenRoot(labels);
    LabelsLength(labels);
    JoinSplit(hostname, '.');
  }

  lemma QuerySkips(name: Name, qtype: nat, queryId: nat)
    requires WellFormedName(name) && qtype < 65536 && queryId < 65536
    ensures var packet := QueryPacket(name, qtype, queryId); SkipName(packet, 12) == Some(|packet| - 4)
  {
    NameSkipped(QueryHeader(queryId), name, U16Octets(qtype) + U16Octets(1));
  }

  /** A host name the configuration accepts encodes into a name of at most 255 octets, and skipping from behind the
      header lands exactly four octets before the end of the query. */
  lemma HostnameEncodes(value: string, qtype: nat, queryId: nat)
    requires NormalizeHostname(value).Some? && qtype < 65536 && queryId < 65536
    ensures var hostname := NormalizeHostname(value).value;
            && IsOctetText(hostname) && QueryName(hostname).Ok? && WellFormedName(QueryName(hostname).value)
            && |NameOctets(QueryName(hostname).value)| == |hostname| + 2 <= 255
            && var packet := QueryPacket(QueryName(hostname).value, qtype, queryId);
               SkipName(packet, 12) == Some(|packet| - 4)
  {
    var hostname := NormalizeHostname(value).value;
    HostnameName(hostname);
    QuerySkips(QueryName(hostname).value, qtype, queryId);
  }
}
