/** The string operations the configuration and cursor formats are built from. */
module Text {
  // -------------------------------------------------------- split and join

  /** Index of the first `c`, or the length when there is none. */
  function IndexOf(s: string, c: char): (i: nat)
    ensures i <= |s| && c !in s[..i] && (i < |s| ==> s[i] == c)
  {
    if s == "" || s[0] == c then 0
    else
      assert s[..1 + IndexOf(s[1..], c)] == [s[0]] + s[1..][..IndexOf(s[1..], c)];
      1 + IndexOf(s[1..], c)
  }

  function Split(s: string, c: char): (parts: seq<string>)
    ensures parts != []
    decreases |s|
  {
    var i := IndexOf(s, c);
    if i == |s| then [s] else [s[..i]] + Split(s[i + 1..], c)
  }

  function Join(parts: seq<string>, c: char): string
    requires parts != []
  {
    if |parts| == 1 then parts[0] else parts[0] + [c] + Join(parts[1..], c)
  }

  lemma IndexOfFirst(s: string, c: char, i: nat)
    requires i <= |s| && c !in s[..i] && (i < |s| ==> s[i] == c)
    ensures IndexOf(s, c) == i
  {
    assert forall k :: 0 <= k < i ==> s[k] in s[..i];
    assert forall k :: 0 <= k < IndexOf(s, c) ==> s[k] in s[..IndexOf(s, c)];
  }

  lemma {:induction false} JoinSplit(s: string, c: char)
    ensures Join(Split(s, c), c) == s
    decreases |s|
  {
    var i := IndexOf(s, c);
    if i < |s| {
      JoinSplit(s[i + 1..], c);
      JoinCons(s[..i], Split(s[i + 1..], c), c);
      Reassembled(s, c, i);
    }
  }

  lemma Reassembled(s: string, c: char, i: nat)
    requires i < |s| && s[i] == c
    ensures s == s[..i] + [c] + s[i + 1..]
  {
  }

  lemma JoinCons(first: string, parts: seq<string>, c: char)
    requires parts != []
    ensures Join([first] + parts, c) == first + [c] + Join(parts, c)
  {
    assert ([first] + parts)[1..] == parts;
  }

  lemma {:induction false} SplitParts(s: string, c: char)
    ensures forall p :: p in Split(s, c) ==> c !in p && forall x :: x in p ==> x in s
    decreases |s|
  {
    var i := IndexOf(s, c);
    if i < |s| {
      SplitParts(s[i + 1..], c);
      forall p | p in Split(s, c) ensures c !in p && forall x :: x in p ==> x in s {
        if p != s[..i] {
          assert p in Split(s[i + 1..], c);
        }
      }
    }
  }

  lemma {:induction false} SplitJoin(parts: seq<string>, c: char)
    requires parts != [] && forall p :: p in parts ==> c !in p
    ensures Split(Join(parts, c), c) == parts
  {
    var s := Join(parts, c);
    if |parts| == 1 {
      assert parts == [s] && s in parts;
      SplitOne(s, c);
    } else {
      SplitJoin(parts[1..], c);
      assert parts == [parts[0]] + parts[1..];
      JoinCons(parts[0], parts[1..], c);
      SplitTwo(parts[0], Join(parts[1..], c), c);
    }
  }

  lemma {:induction false} JoinChars(parts: seq<string>, c: char, x: char)
    requires parts != [] && x in Join(parts, c)
    ensures x == c || exists i :: 0 <= i < |parts| && x in parts[i]
  {
    if |parts| > 1 && x !in parts[0] && x != c {
      JoinChars(parts[1..], c, x);
      var i :| 0 <= i < |parts| - 1 && x in parts[1..][i];
      assert x in parts[i + 1];
    }
  }

  /** A string without the separator is one part. */
  lemma SplitOne(s: string, c: char)
    requires c !in s
    ensures Split(s, c) == [s]
  {
    IndexOfFirst(s, c, |s|);
  }

  lemma SplitTwo(a: string, b: string, c: char)
    requires c !in a
    ensures Split(a + [c] + b, c) == [a] + Split(b, c)
  {
    var s := a + [c] + b;
    assert s[..|a|] == a;
    IndexOfFirst(s, c, |a|);
    assert Split(s, c) == [s[..|a|]] + Split(s[|a| + 1..], c);
    assert s[|a| + 1..] == b;
  }

  lemma SplitThree(q: string, r: string, s: string, c: char)
    requires c !in q && c !in r && c !in s
    ensures Split(q + [c] + r + [c] + s, c) == [q, r, s]
  {
    SplitOne(s, c);
    SplitTwo(r, s, c);
    ThreeParts(q, r, s, c);
    SplitTwo(q, r + [c] + s, c);
  }

  lemma ThreeParts(q: string, r: string, s: string, c: char)
    ensures q + [c] + r + [c] + s == q + [c] + (r + [c] + s)
    ensures [q] + ([r] + [s]) == [q, r, s]
  {
  }

  lemma SplitFour(p: string, q: string, r: string, s: string, c: char)
    requires c !in p && c !in q && c !in r && c !in s
    ensures Split(p + [c] + q + [c] + r + [c] + s, c) == [p, q, r, s]
  {
    SplitThree(q, r, s, c);
    FourParts(p, q, r, s, c);
    SplitTwo(p, q + [c] + r + [c] + s, c);
  }

  lemma FourParts(p: string, q: string, r: string, s: string, c: char)
    ensures p + [c] + q + [c] + r + [c] + s == p + [c] + (q + [c] + r + [c] + s)
    ensures [p] + [q, r, s] == [p, q, r, s]
  {
  }

  // ----------------------------------------- splitting at a two-character mark

  /** Index of the first occurrence of `a` followed by `b`, or the length. */
  function IndexOfPair(s: string, a: char, b: char): (i: nat)
    ensures i == |s| || (i + 1 < |s| && s[i] == a && s[i + 1] == b)
    ensures forall j :: 0 <= j < i && j + 1 < |s| ==> !(s[j] == a && s[j + 1] == b)
  {
    if |s| < 2 then |s|
    else if s[0] == a && s[1] == b then 0
    else 1 + IndexOfPair(s[1..], a, b)
  }

  function SplitPair(s: string, a: char, b: char): (parts: seq<string>)
    ensures parts != []
    decreases |s|
  {
    var i := IndexOfPair(s, a, b);
    if i == |s| then [s] else [s[..i]] + SplitPair(s[i + 2..], a, b)
  }

  ghost predicate HasPair(s: string, a: char, b: char) {
    exists i :: 0 <= i && i + 1 < |s| && s[i] == a && s[i + 1] == b
  }

  lemma SplitPairNone(s: string, a: char, b: char)
    ensures |SplitPair(s, a, b)| == 1 <==> !HasPair(s, a, b)
    ensures !HasPair(s, a, b) ==> SplitPair(s, a, b) == [s]
  {
  }

  /** Splitting at the first mark, when the text before it neither holds one nor runs into it. */
  lemma SplitPairAt(l: string, r: string, a: char, b: char)
    requires a != b || l == "" || l[|l| - 1] != a
    requires !HasPair(l, a, b)
    ensures SplitPair(l + [a, b] + r, a, b) == [l] + SplitPair(r, a, b)
  {
    var s := l + [a, b] + r;
    forall j | 0 <= j < |l| ensures !(s[j] == a && s[j + 1] == b) {
      assert s[j] == l[j] && (j + 1 < |l| ==> s[j + 1] == l[j + 1]) && (j + 1 == |l| ==> s[j + 1] == a);
    }
    assert s[|l|] == a && s[|l| + 1] == b;
    assert IndexOfPair(s, a, b) == |l|;
    assert s[..|l|] == l && s[|l| + 2..] == r;
  }

  /** A text splits in two exactly at its only mark. */
  lemma SplitPairExactly(s: string, l: string, r: string, a: char, b: char)
    requires a != b
    ensures SplitPair(s, a, b) == [l, r] <==> s == l + [a, b] + r && !HasPair(l, a, b) && !HasPair(r, a, b)
  {
    if s == l + [a, b] + r && !HasPair(l, a, b) && !HasPair(r, a, b) {
      SplitPairAt(l, r, a, b);
      SplitPairNone(r, a, b);
    }
    if SplitPair(s, a, b) == [l, r] {
      TwoPairParts(s, l, r, a, b);
    }
  }

  lemma TwoPairParts(s: string, l: string, r: string, a: char, b: char)
    requires SplitPair(s, a, b) == [l, r]
    ensures s == l + [a, b] + r && !HasPair(l, a, b) && !HasPair(r, a, b)
  {
    var i := IndexOfPair(s, a, b);
    SplitPairNone(s, a, b);
    SplitPairNone(s[i + 2..], a, b);
    assert ([s[..i]] + SplitPair(s[i + 2..], a, b))[0] == s[..i];
    assert ([s[..i]] + SplitPair(s[i + 2..], a, b))[1..] == SplitPair(s[i + 2..], a, b);
    assert [l, r][1..] == [r];
  }

  /** A character that is neither of the two keeps marks on its sides apart. */
  lemma NoPairAcross(l: string, mid: char, r: string, a: char, b: char)
    requires mid != a && mid != b && !HasPair(l, a, b) && !HasPair(r, a, b)
    ensures !HasPair(l + [mid] + r, a, b)
  {
    var s := l + [mid] + r;
    forall i | 0 <= i && i + 1 < |s| ensures !(s[i] == a && s[i + 1] == b) {
      if i + 1 < |l| {
        assert s[i] == l[i] && s[i + 1] == l[i + 1];
      } else if i > |l| {
        assert s[i] == r[i - |l| - 1] && s[i + 1] == r[i - |l|];
      }
    }
  }

  lemma NoPairWithout(s: string, a: char, b: char)
    requires a !in s || b !in s
    ensures !HasPair(s, a, b)
  {
  }

  lemma PairInside(l: string, m: string, r: string, a: char, b: char)
    requires HasPair(m, a, b)
    ensures HasPair(l + m + r, a, b)
  {
    var i :| 0 <= i && i + 1 < |m| && m[i] == a && m[i + 1] == b;
    var s := l + m + r;
    assert s[|l| + i] == a && s[|l| + i + 1] == b;
  }

  lemma IndexOfPairIs(s: string, a: char, b: char, i: nat)
    requires i == |s| || (i + 1 < |s| && s[i] == a && s[i + 1] == b)
    requires forall j :: 0 <= j < i && j + 1 < |s| ==> !(s[j] == a && s[j + 1] == b)
    ensures IndexOfPair(s, a, b) == i
  {
  }

  lemma IndexOfPairPrefix(pre: string, s: string, a: char, b: char)
    requires a !in pre
    ensures IndexOfPair(pre + s, a, b) == |pre| + IndexOfPair(s, a, b)
  {
    var i, whole := IndexOfPair(s, a, b), pre + s;
    forall j | 0 <= j < |pre| + i && j + 1 < |whole| ensures !(whole[j] == a && whole[j + 1] == b) {
      if j < |pre| {
        assert whole[j] == pre[j] && pre[j] in pre;
      } else {
        assert whole[j] == s[j - |pre|] && whole[j + 1] == s[j + 1 - |pre|];
      }
    }
    IndexOfPairIs(whole, a, b, |pre| + i);
  }

  /** Characters before a text that are not the mark's first go to the first part. */
  lemma SplitPairPrefix(pre: string, s: string, a: char, b: char)
    requires a !in pre
    ensures SplitPair(pre + s, a, b) == [pre + SplitPair(s, a, b)[0]] + SplitPair(s, a, b)[1..]
  {
    var i := IndexOfPair(s, a, b);
    IndexOfPairPrefix(pre, s, a, b);
    if i < |s| {
      SplitPairFound(s, i, a, b);
      PrefixFound(pre, s, i, a, b);
      HeadAndTail(s[..i], SplitPair(s[i + 2..], a, b));
    }
  }

  lemma PrefixFound(pre: string, s: string, i: nat, a: char, b: char)
    requires i + 1 < |s| && IndexOfPair(pre + s, a, b) == |pre| + i
    ensures SplitPair(pre + s, a, b) == [pre + s[..i]] + SplitPair(s[i + 2..], a, b)
  {
    PrefixSlices(pre, s, i);
    SplitPairParts(pre + s, |pre| + i, pre + s[..i], s[i + 2..], a, b);
  }

  lemma HeadAndTail(first: string, parts: seq<string>)
    ensures ([first] + parts)[0] == first && ([first] + parts)[1..] == parts
  {
  }

  lemma PrefixSlices(pre: string, s: string, i: nat)
    requires i + 1 < |s|
    ensures (pre + s)[..|pre| + i] == pre + s[..i] && (pre + s)[|pre| + i + 2..] == s[i + 2..]
  {
  }

  lemma SplitPairFound(s: string, i: nat, a: char, b: char)
    requires i < |s| && IndexOfPair(s, a, b) == i
    ensures SplitPair(s, a, b) == [s[..i]] + SplitPair(s[i + 2..], a, b)
  {
  }

  lemma SplitPairParts(s: string, i: nat, first: string, rest: string, a: char, b: char)
    requires i + 1 < |s| && IndexOfPair(s, a, b) == i && s[..i] == first && s[i + 2..] == rest
    ensures SplitPair(s, a, b) == [first] + SplitPair(rest, a, b)
  {
  }

  lemma IndexOfPairSuffix(s: string, post: string, a: char, b: char)
    requires b !in post
    ensures var i := IndexOfPair(s, a, b); IndexOfPair(s + post, a, b) == if i == |s| then |s + post| else i
  {
    var i, whole := IndexOfPair(s, a, b), s + post;
    var at := if i == |s| then |whole| else i;
    forall j | 0 <= j < at && j + 1 < |whole| ensures !(whole[j] == a && whole[j + 1] == b) {
      if j + 1 < |s| {
        assert whole[j] == s[j] && whole[j + 1] == s[j + 1];
      } else {
        assert whole[j + 1] == post[j + 1 - |s|];
      }
    }
    IndexOfPairIs(whole, a, b, at);
  }

  function LastExtended(parts: seq<string>, post: string): seq<string>
    requires parts != []
  {
    parts[..|parts| - 1] + [parts[|parts| - 1] + post]
  }

  lemma LastOfCons(first: string, parts: seq<string>, post: string)
    requires parts != []
    ensures LastExtended([first] + parts, post) == [first] + LastExtended(parts, post)
  {
  }

  lemma SuffixSlices(s: string, post: string, i: nat)
    requires i + 1 < |s|
    ensures (s + post)[..i] == s[..i] && (s + post)[i + 2..] == s[i + 2..] + post
  {
  }

  lemma SuffixStep(s: string, post: string, i: nat, a: char, b: char)
    requires i + 1 < |s| && IndexOfPair(s, a, b) == i && IndexOfPair(s + post, a, b) == i
    requires SplitPair(s[i + 2..] + post, a, b) == LastExtended(SplitPair(s[i + 2..], a, b), post)
    ensures SplitPair(s + post, a, b) == LastExtended(SplitPair(s, a, b), post)
  {
    SplitPairFound(s, i, a, b);
    SuffixSlices(s, post, i);
    SplitPairParts(s + post, i, s[..i], s[i + 2..] + post, a, b);
    LastOfCons(s[..i], SplitPair(s[i + 2..], a, b), post);
  }

  /** Characters behind a text that are not the mark's second go to the last part. */
  lemma {:induction false} SplitPairSuffix(s: string, post: string, a: char, b: char)
    requires b !in post
    ensures SplitPair(s + post, a, b) == LastExtended(SplitPair(s, a, b), post)
    decreases |s|
  {
    var i := IndexOfPair(s, a, b);
    IndexOfPairSuffix(s, post, a, b);
    if i < |s| {
      SplitPairSuffix(s[i + 2..], post, a, b);
      SuffixStep(s, post, i, a, b);
    }
  }

  // ------------------------------------------------------------------ trimming

  /** White space removed by JavaScript's `trim`. */
  predicate JsSpace(c: char) {
    '\t' <= c <= '\r' || c == ' ' || c == '\U{A0}' || c == '\U{1680}' || '\U{2000}' <= c <= '\U{200A}'
    || c == '\U{2028}' || c == '\U{2029}' || c == '\U{202F}' || c == '\U{205F}' || c == '\U{3000}' || c == '\U{FEFF}'
  }

  /** White space removed by Rust's `trim`. */
  predicate RustSpace(c: char) {
    '\t' <= c <= '\r' || c == ' ' || c == '\U{85}' || c == '\U{A0}' || c == '\U{1680}' || '\U{2000}' <= c <= '\U{200A}'
    || c == '\U{2028}' || c == '\U{2029}' || c == '\U{202F}' || c == '\U{205F}' || c == '\U{3000}'
  }

  /** The code points ECMAScript's WhiteSpace and LineTerminator name, and those of Unicode's White_Space. */
  lemma SpaceCodes(c: char)
    ensures JsSpace(c) <==>
            c as int in {9, 10, 11, 12, 13, 32, 160, 5760, 8232, 8233, 8239, 8287, 12288, 65279}
            || 8192 <= c as int <= 8202
    ensures RustSpace(c) <==>
            c as int in {9, 10, 11, 12, 13, 32, 133, 160, 5760, 8232, 8233, 8239, 8287, 12288}
            || 8192 <= c as int <= 8202
  {
  }

  function TrimStart(s: string, space: char -> bool): string {
    if s != "" && space(s[0]) then TrimStart(s[1..], space) else s
  }

  function TrimEnd(s: string, space: char -> bool): string {
    if s != "" && space(s[|s| - 1]) then TrimEnd(s[..|s| - 1], space) else s
  }

  function Trim(s: string, space: char -> bool): string {
    TrimEnd(TrimStart(s, space), space)
  }

  /** Nothing to trim. */
  predicate Tight(s: string, space: char -> bool) {
    s == "" || (!space(s[0]) && !space(s[|s| - 1]))
  }

  lemma TrimTight(s: string, space: char -> bool)
    requires Tight(s, space)
    ensures Trim(s, space) == s
  {
  }

  lemma {:induction false} TrimStartSpec(s: string, space: char -> bool)
    ensures var t := TrimStart(s, space);
            |t| <= |s| && t == s[|s| - |t|..] && (t != "" ==> !space(t[0]))
            && forall i :: 0 <= i < |s| - |t| ==> space(s[i])
  {
    if s != "" && space(s[0]) {
      TrimStartSpec(s[1..], space);
      var t := TrimStart(s[1..], space);
      assert s[1..][|s| - 1 - |t|..] == s[|s| - |t|..];
      forall i | 0 <= i < |s| - |t| ensures space(s[i]) {
        assert i == 0 || s[i] == s[1..][i - 1];
      }
    }
  }

  lemma {:induction false} TrimEndSpec(s: string, space: char -> bool)
    ensures var t := TrimEnd(s, space);
            |t| <= |s| && t == s[..|t|] && (t != "" ==> !space(t[|t| - 1]))
            && forall i :: |t| <= i < |s| ==> space(s[i])
  {
    if s != "" && space(s[|s| - 1]) {
      TrimEndSpec(s[..|s| - 1], space);
    }
  }

  lemma TrimSpec(s: string, space: char -> bool)
    ensures Tight(Trim(s, space), space)
    ensures |Trim(s, space)| <= |s|
    ensures forall c :: c in Trim(s, space) ==> c in s
  {
    TrimStartSpec(s, space);
    TrimEndSpec(TrimStart(s, space), space);
  }

  lemma TrimTwice(s: string)
    ensures Trim(Trim(s, JsSpace), JsSpace) == Trim(s, JsSpace)
  {
    TrimSpec(s, JsSpace);
    TrimTight(Trim(s, JsSpace), JsSpace);
  }

  predicate AllSpace(s: string, space: char -> bool) {
    forall i :: 0 <= i < |s| ==> space(s[i])
  }

  /** A text is white space, its trimmed form, and white space. */
  lemma TrimParts(s: string, space: char -> bool) returns (pre: string, post: string)
    ensures s == pre + Trim(s, space) + post && AllSpace(pre, space) && AllSpace(post, space)
  {
    TrimStartSpec(s, space);
    var rest := TrimStart(s, space);
    TrimEndSpec(rest, space);
    pre := s[..|s| - |rest|];
    post := rest[|Trim(s, space)|..];
  }

  lemma {:induction false} TrimEndDrops(s: string, post: string, space: char -> bool)
    requires AllSpace(post, space)
    ensures TrimEnd(s + post, space) == TrimEnd(s, space)
    decreases |post|
  {
    if post == "" {
      assert s + post == s;
    } else {
      TrimEndDrops(s, post[..|post| - 1], space);
      assert (s + post)[..|s + post| - 1] == s + post[..|post| - 1];
    }
  }

  lemma {:induction false} TrimStartDrops(pre: string, s: string, space: char -> bool)
    requires AllSpace(pre, space)
    ensures TrimStart(pre + s, space) == TrimStart(s, space)
    decreases |pre|
  {
    if pre == "" {
      assert pre + s == s;
    } else {
      TrimStartDrops(pre[1..], s, space);
      assert (pre + s)[1..] == pre[1..] + s;
    }
  }

  /** White space around a tight text is what trimming removes. */
  lemma TrimPadded(pre: string, s: string, post: string, space: char -> bool)
    requires Tight(s, space) && AllSpace(pre, space) && AllSpace(post, space)
    ensures Trim(pre + s + post, space) == s
  {
    TrimStartDrops(pre, s + post, space);
    assert pre + s + post == pre + (s + post);
    if s == "" {
      TrimStartDrops(post, "", space);
      assert post + "" == post && s + post == post;
    } else {
      assert TrimStart(s + post, space) == s + post;
      TrimEndDrops(s, post, space);
    }
  }

  /** Trimming the end first changes nothing. */
  lemma TrimOfTrimEnd(s: string, space: char -> bool)
    ensures Trim(TrimEnd(s, space), space) == Trim(s, space)
  {
    TrimEndSpec(s, space);
    var t := TrimEnd(s, space);
    var pre, post := TrimParts(t, space);
    var tail := s[|t|..];
    TrimSpec(t, space);
    assert AllSpace(post + tail, space);
    assert s == pre + Trim(t, space) + (post + tail);
    TrimPadded(pre, Trim(t, space), post + tail, space);
  }

  function WordEnd(s: string, space: char -> bool): (i: nat)
    ensures i <= |s| && (forall k :: 0 <= k < i ==> !space(s[k])) && (i < |s| ==> space(s[i]))
  {
    if s == "" || space(s[0]) then 0 else 1 + WordEnd(s[1..], space)
  }

  /** The maximal runs without white space. */
  function Words(s: string, space: char -> bool): seq<string>
    decreases |s|
  {
    TrimStartSpec(s, space);
    var t := TrimStart(s, space);
    if t == "" then [] else [t[..WordEnd(t, space)]] + Words(t[WordEnd(t, space)..], space)
  }

  predicate IsWord(s: string, space: char -> bool) {
    s != "" && forall i :: 0 <= i < |s| ==> !space(s[i])
  }

  lemma {:induction false} WordsAreWords(s: string, space: char -> bool)
    ensures forall i :: 0 <= i < |Words(s, space)| ==> IsWord(Words(s, space)[i], space)
    decreases |s|
  {
    TrimStartSpec(s, space);
    var t := TrimStart(s, space);
    if t != "" {
      WordsAreWords(t[WordEnd(t, space)..], space);
    }
  }

  lemma WordEndIs(s: string, space: char -> bool, i: nat)
    requires i <= |s| && (forall k :: 0 <= k < i ==> !space(s[k])) && (i < |s| ==> space(s[i]))
    ensures WordEnd(s, space) == i
  {
  }

  lemma OneWord(a: string, space: char -> bool)
    requires IsWord(a, space)
    ensures Words(a, space) == [a]
  {
    WordEndIs(a, space, |a|);
    assert a[..|a|] == a && a[|a|..] == "";
  }

  lemma TwoWords(a: string, b: string, space: char -> bool)
    requires IsWord(a, space) && IsWord(b, space) && space(' ')
    ensures Words(a + " " + b, space) == [a, b]
  {
    var s := a + " " + b;
    WordEndIs(s, space, |a|);
    assert TrimStart(s, space) == s;
    assert s[..|a|] == a && s[|a|..] == " " + b;
    OneWord(b, space);
    assert (" " + b)[1..] == b;
    assert TrimStart(" " + b, space) == b == TrimStart(b, space);
    assert Words(" " + b, space) == Words(b, space);
  }

  /** Two words with a leading space, trimmed. */
  lemma TwoWordsTrimmed(a: string, b: string, space: char -> bool)
    requires IsWord(a, space) && IsWord(b, space) && space(' ')
    ensures Words(Trim(" " + a + " " + b, space), space) == [a, b]
  {
    var s := a + " " + b;
    assert " " + a + " " + b == " " + s && (" " + s)[1..] == s;
    assert TrimStart(" " + s, space) == TrimStart(s, space) == s;
    assert s[|s| - 1] == b[|b| - 1];
    assert TrimEnd(s, space) == s;
    TwoWords(a, b, space);
  }

  // ------------------------------------------------------------------- numbers

  predicate IsDigit(c: char) {
    '0' <= c <= '9'
  }

  predicate AllDigits(s: string) {
    forall i :: 0 <= i < |s| ==> IsDigit(s[i])
  }

  function DigitValue(c: char): nat
    requires IsDigit(c)
  {
    c as int - '0' as int
  }

  function DigitChar(d: nat): (c: char)
    requires d < 10
    ensures IsDigit(c) && DigitValue(c) == d
  {
    '0' + d as char
  }

  lemma DigitTable(d: nat)
    requires d < 10
    ensures DigitChar(d) == "0123456789"[d] && DigitValue("0123456789"[d]) == d
  {
  }

  /** The number a run of decimal digits denotes. */
  function Value(s: string): nat
    requires AllDigits(s)
  {
    if s == "" then 0 else 10 * Value(s[..|s| - 1]) + DigitValue(s[|s| - 1])
  }

  function Decimal(n: nat): (s: string)
    ensures s != "" && AllDigits(s)
  {
    if n < 10 then [DigitChar(n)] else Decimal(n / 10) + [DigitChar(n % 10)]
  }

  lemma {:induction false} ValueDecimal(n: nat)
    ensures Value(Decimal(n)) == n
  {
    if n < 10 {
      assert [DigitChar(n)][..0] == "";
    } else {
      ValueDecimal(n / 10);
      assert Decimal(n)[..|Decimal(n)| - 1] == Decimal(n / 10);
    }
  }

  /** Digits without a leading zero are how `Decimal` writes their value. */
  lemma {:induction false} DecimalValue(s: string)
    requires s != "" && AllDigits(s) && (|s| > 1 ==> s[0] != '0')
    ensures Decimal(Value(s)) == s
    ensures |s| > 1 ==> Value(s) >= 10
  {
    if |s| == 1 {
      assert s[..0] == "";
    } else {
      var front := s[..|s| - 1];
      DecimalValue(front);
      if |front| == 1 {
        assert front[..0] == "";
      }
      assert s == front + [s[|s| - 1]];
    }
  }

  lemma {:induction false} DecimalStart(n: nat)
    ensures n > 0 ==> Decimal(n)[0] != '0'
    ensures n < 10 ==> |Decimal(n)| == 1
    ensures n < 1000 ==> |Decimal(n)| <= 3
  {
    if n >= 10 {
      DecimalStart(n / 10);
      if n < 1000 {
        if n / 10 >= 10 {
          DecimalStart(n / 100);
          assert n / 10 / 10 == n / 100;
        }
      }
    }
  }

  // ---------------------------------------------------------------- letter case

  /** ASCII lower case. */
  function LowerChar(c: char): char {
    if 'A' <= c <= 'Z' then c + 32 as char else c
  }

  lemma LowerTable(c: char)
    ensures forall i :: 0 <= i < 26 ==>
              LowerChar("ABCDEFGHIJKLMNOPQRSTUVWXYZ"[i]) == "abcdefghijklmnopqrstuvwxyz"[i]
    ensures c !in "ABCDEFGHIJKLMNOPQRSTUVWXYZ" ==> LowerChar(c) == c
  {
    if 'A' <= c <= 'Z' {
      assert "ABCDEFGHIJKLMNOPQRSTUVWXYZ"[c as int - 65] == c;
    }
  }

  function Lower(s: string): (t: string)
    ensures |t| == |s| && forall i :: 0 <= i < |s| ==> t[i] == LowerChar(s[i])
  {
    if s == "" then "" else [LowerChar(s[0])] + Lower(s[1..])
  }

  lemma LowerIdempotent(s: string)
    ensures Lower(Lower(s)) == Lower(s)
  {
  }
}
