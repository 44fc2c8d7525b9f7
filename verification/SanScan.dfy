/**
 The search of a subjectAltName for the peer's name (src/tls12_chainverify.c):
 a flat scan over DER that descends into SEQUENCE and [0] and skips everything else.
 */
module SanScan {
  import opened Bytes
  import opened Der

  const DOT: Byte := 0x2e
  const STAR: Byte := 0x2a

  // ----- host names -----

  /** tolower in the C locale. */
  function Lower(b: Byte): Byte {
    if 0x41 <= b <= 0x5a then b + 0x20 else b
  }

  /** Letters lose their case, and nothing else changes. */
  lemma LowerLetters(c: char)
    requires c as int < 128
    ensures 'A' <= c <= 'Z' ==> Lower(c as int) == c as int - 'A' as int + 'a' as int
    ensures !('A' <= c <= 'Z') ==> Lower(c as int) == c as int
  {
  }

  predicate SameIgnoringCase(a: seq<Byte>, b: seq<Byte>) {
    |a| == |b| && forall i :: 0 <= i < |a| ==> Lower(a[i]) == Lower(b[i])
  }

  /** `pattern` is "*" and what remains of `host` after its first label, which is not empty. */
  ghost predicate WildcardMatches(pattern: seq<Byte>, host: seq<Byte>) {
    && |pattern| >= 2 && pattern[0] == STAR && pattern[1] == DOT
    && exists name, rest :: host == name + rest && name != [] && DOT !in name && SameIgnoringCase(pattern[1..], rest)
  }

  ghost predicate Matches(pattern: seq<Byte>, host: seq<Byte>) {
    SameIgnoringCase(pattern, host) || WildcardMatches(pattern, host)
  }

  function Octets(s: string): (r: seq<Byte>)
    requires forall i :: 0 <= i < |s| ==> s[i] as int < 128
    ensures |r| == |s| && forall i :: 0 <= i < |s| ==> r[i] == s[i] as int
  {
    seq(|s|, i requires 0 <= i < |s| => s[i] as int)
  }

  /** A wildcard takes one label, neither none nor two, and case does not count. */
  lemma WildcardExamples()
    ensures Matches(Octets("*.aB"), Octets("x.Ab"))
    ensures !Matches(Octets("*.ab"), Octets("ab")) && !Matches(Octets("*.ab"), Octets(".ab"))
    ensures !Matches(Octets("*.ab"), Octets("x.y.ab")) && !Matches(Octets("*ab"), Octets("xab"))
  {
    WildcardAtFirstDot(Octets("*.aB"), Octets("x.Ab"), 1);
    WildcardAtFirstDot(Octets("*.ab"), Octets("ab"), 2);
    WildcardAtFirstDot(Octets("*.ab"), Octets(".ab"), 0);
    WildcardAtFirstDot(Octets("*.ab"), Octets("x.y.ab"), 1);
    assert Octets("*ab")[0] == 0x2a && Octets("xab")[0] == 0x78;
    hide WildcardMatches;
    assert !WildcardMatches(Octets("*ab"), Octets("xab")) by { NoDotNoWildcard(Octets("*ab"), Octets("xab")); }
  }

  lemma NoDotNoWildcard(pattern: seq<Byte>, host: seq<Byte>)
    requires |pattern| >= 2 && pattern[1] != 0x2e
    ensures !WildcardMatches(pattern, host)
  {
  }

  method EqualIgnoringCase(a: seq<Byte>, b: seq<Byte>) returns (eq: bool)
    requires |a| == |b|
    ensures eq == SameIgnoringCase(a, b)
  {
    for i := 0 to |a|
      invariant forall k :: 0 <= k < i ==> Lower(a[k]) == Lower(b[k])
    {
      if Lower(a[i]) != Lower(b[i]) {
        return false;
      }
    }
    return true;
  }

  /** memchr for a dot; `|host|` stands for NULL. */
  method FindDot(host: seq<Byte>) returns (dot: nat)
    ensures dot <= |host| && DOT !in host[..dot]
    ensures dot < |host| ==> host[dot] == DOT
  {
    dot := 0;
    while dot < |host| && host[dot] != DOT
      invariant dot <= |host| && DOT !in host[..dot]
    {
      dot := dot + 1;
    }
  }

  lemma FirstDotUnique(host: seq<Byte>, i: nat, j: nat)
    requires i < |host| && DOT !in host[..i] && host[i] == DOT
    requires j <= |host| && DOT !in host[..j] && (j < |host| ==> host[j] == DOT)
    ensures i == j
  {
    if i < j {
      NoDotBefore(host, j, i);
    } else if j < i {
      NoDotBefore(host, i, j);
    }
  }

  lemma NoDotBefore(host: seq<Byte>, n: nat, k: nat)
    requires k < n <= |host| && DOT !in host[..n]
    ensures host[k] != DOT
  {
    assert host[..n][k] == host[k];
  }

  /** The split that a wildcard match speaks of is the one at the first dot. */
  lemma WildcardAtFirstDot(pattern: seq<Byte>, host: seq<Byte>, dot: nat)
    requires |pattern| >= 2 && pattern[0] == STAR && pattern[1] == DOT
    requires dot <= |host| && DOT !in host[..dot] && (dot < |host| ==> host[dot] == DOT)
    ensures WildcardMatches(pattern, host) <==> dot >= 1 && SameIgnoringCase(pattern[1..], host[dot..])
  {
    if WildcardMatches(pattern, host) {
      var name, rest :| host == name + rest && name != [] && DOT !in name && SameIgnoringCase(pattern[1..], rest);
      assert Lower(pattern[1..][0]) == Lower(rest[0]);
      assert rest[0] == DOT && host[|name|] == DOT;
      assert host[..|name|] == name;
      FirstDotUnique(host, |name|, dot);
      assert host[dot..] == rest;
    }
    if dot >= 1 && SameIgnoringCase(pattern[1..], host[dot..]) {
      assert host == host[..dot] + host[dot..];
    }
  }

  method HostnameMatches(pattern: seq<Byte>, host: seq<Byte>) returns (r: bool)
    ensures r == Matches(pattern, host)
  {
    if |pattern| == |host| {
      var eq := EqualIgnoringCase(pattern, host);
      if eq {
        return true;
      }
    }
    if |pattern| >= 2 && pattern[0] == STAR && pattern[1] == DOT {
      var dot := FindDot(host);
      WildcardAtFirstDot(pattern, host, dot);
      if dot < |host| && |host| - dot == |pattern| - 1 {
        var eq := EqualIgnoringCase(pattern[1..], host[dot..]);
        if eq && dot >= 1 {
          return true;
        }
      }
    }
    return false;
  }

  // ----- the scan -----

  const DNS_NAME: Byte := 0x82

  predicate Constructed(tag: Byte) {
    tag == 0x30 || tag == 0xa0
  }

  /** What the scan of `d` answers. */
  ghost predicate Scan(d: seq<Byte>, host: seq<Byte>)
    decreases |d|
  {
    if |d| < 2 then false
    else if !LengthOk(d[1..]) then Scan(d[1..], host)
    else
      var off, len := 1 + LengthSize(d[1]), LengthValue(d[1..]);
      if Constructed(d[0]) then Scan(d[off..], host)
      else
        || (d[0] == DNS_NAME && 0 < len && off + len <= |d| && Matches(d[off..off + len], host))
        || (off + len <= |d| && Scan(d[off + len..], host))
  }

  /** Scan, one header at a time, by position. */
  lemma ScanStep(der: seq<Byte>, i: nat, host: seq<Byte>)
    requires i + 2 <= |der|
    ensures !LengthOk(der[i + 1..]) ==> Scan(der[i..], host) == Scan(der[i + 1..], host)
    ensures LengthOk(der[i + 1..]) ==>
              var off, len := i + 1 + LengthSize(der[i + 1]), LengthValue(der[i + 1..]);
              && off <= |der|
              && (Constructed(der[i]) ==> Scan(der[i..], host) == Scan(der[off..], host))
              && (!Constructed(der[i]) ==>
                    Scan(der[i..], host) ==
                    (|| (der[i] == DNS_NAME && 0 < len && off + len <= |der| && Matches(der[off..off + len], host))
                     || (off + len <= |der| && Scan(der[off + len..], host))))
  {
    hide Matches, LengthValue;
    var d := der[i..];
    assert d[1..] == der[i + 1..] && d[1] == der[i + 1];
    if LengthOk(d[1..]) {
      var size, len := 1 + LengthSize(d[1]), LengthValue(d[1..]);
      assert d[size..] == der[i + size..];
      if size + len <= |d| {
        assert d[size..size + len] == der[i + size..i + size + len];
        assert d[size + len..] == der[i + size + len..];
      }
    }
  }

  /** Buffers up to this length never take the scan's index beyond an int. */
  const BUFFER_LIMIT: nat := 0x8000_0000 - LENGTH_LIMIT - 2

  /**
   san_der_matches_host on any octets: every index is within the buffer, no int
   overflows, and the loop ends.
   */
  method SanMatchesHost(der: seq<Byte>, host: seq<Byte>) returns (r: bool)
    requires |der| <= BUFFER_LIMIT
    ensures r == Scan(der, host)
  {
    hide Matches, LengthValue, LengthSize, LengthOk;
    var derlen := |der| as int32;
    var i: int32 := 0;
    assert der[0..] == der;
    while i + 2 <= derlen
      invariant 0 <= i as int < |der| + LENGTH_LIMIT
      invariant Scan(der, host) == (i <= derlen && Scan(der[i..], host))
      decreases derlen - i
    {
      ScanStep(der, i as nat, host);
      hide Scan;
      var tag := der[i];
      var ok, len, size := ReadLength(der, i as nat + 1);
      if !ok {
        i := i + 1;
      } else if Constructed(tag) {
        i := i + 1 + size as int32;
      } else {
        var off := i + 1 + size as int32;
        if tag == DNS_NAME && off + len <= derlen && len > 0 {
          var hit := HostnameMatches(der[off..off + len], host);
          if hit {
            return true;
          }
        }
        i := off + len;
      }
    }
    return false;
  }

  /** A dNSName header at `i`, its content at `j` to `k`, which matches. */
  ghost predicate NamedAt(d: seq<Byte>, host: seq<Byte>, i: nat, j: nat, k: nat) {
    && i < j <= k <= |d| && d[i] == DNS_NAME && LengthOk(d[i + 1..])
    && j == i + 1 + LengthSize(d[i + 1]) && k == j + LengthValue(d[i + 1..]) > j
    && Matches(d[j..k], host)
  }

  /** A match is never made up: some dNSName header in the buffer is followed by the matching octets. */
  lemma {:induction false} ScanSound(d: seq<Byte>, host: seq<Byte>)
    requires Scan(d, host)
    ensures exists i, j, k :: NamedAt(d, host, i, j, k)
    decreases |d|, 0
  {
    hide Matches;
    if !LengthOk(d[1..]) {
      ScanSoundLater(d, 1, host);
      return;
    }
    var off, len := 1 + LengthSize(d[1]), LengthValue(d[1..]);
    if Constructed(d[0]) {
      ScanSoundLater(d, off, host);
    } else if off + len <= |d| && Scan(d[off + len..], host) {
      ScanSoundLater(d, off + len, host);
    } else {
      assert NamedAt(d, host, 0, off, off + len);
    }
  }

  lemma {:induction false} ScanSoundLater(d: seq<Byte>, n: nat, host: seq<Byte>)
    requires 0 < n <= |d| && Scan(d[n..], host)
    ensures exists i, j, k :: NamedAt(d, host, i, j, k)
    decreases |d| - n, 1
  {
    ScanSound(d[n..], host);
    var i, j, k :| NamedAt(d[n..], host, i, j, k);
    NamedLater(d, n, host, i, j, k);
  }

  lemma NamedLater(d: seq<Byte>, n: nat, host: seq<Byte>, i: nat, j: nat, k: nat)
    requires n <= |d| && NamedAt(d[n..], host, i, j, k)
    ensures NamedAt(d, host, n + i, n + j, n + k)
  {
    hide Matches, LengthOk, LengthValue, LengthSize;
    var e := d[n..];
    assert e[j..k] == d[n + j..n + k] && e[i + 1..] == d[n + i + 1..] && e[i + 1] == d[n + i + 1];
  }

  // ----- what a DER encoder writes -----

  /** Elements that the scan takes as a whole, and those it looks into. */
  datatype Element = Leaf(tag: Byte, content: seq<Byte>) | Node(tag: Byte, children: Elements)

  datatype Elements = Nil | Cons(head: Element, tail: Elements)

  function Encode(e: Element): seq<Byte>
    requires Encodable(e)
    decreases e, 1
  {
    match e
    case Leaf(tag, content) => [tag] + Length(|content|) + content
    case Node(tag, children) => [tag] + Length(|EncodeAll(children)|) + EncodeAll(children)
  }

  function EncodeAll(es: Elements): seq<Byte>
    requires AllEncodable(es)
    decreases es, 1
  {
    match es
    case Nil => []
    case Cons(e, rest) => Encode(e) + EncodeAll(rest)
  }

  predicate Encodable(e: Element)
    decreases e, 0
  {
    match e
    case Leaf(tag, content) => !Constructed(tag) && |content| < LENGTH_LIMIT
    case Node(tag, children) => Constructed(tag) && AllEncodable(children) && |EncodeAll(children)| < LENGTH_LIMIT
  }

  predicate AllEncodable(es: Elements)
    decreases es, 0
  {
    match es
    case Nil => true
    case Cons(e, rest) => Encodable(e) && AllEncodable(rest)
  }

  /** Some non-empty dNSName among the leaves matches. */
  ghost predicate Names(e: Element, host: seq<Byte>) {
    match e
    case Leaf(tag, content) => tag == DNS_NAME && content != [] && Matches(content, host)
    case Node(_, children) => AnyNames(children, host)
  }

  ghost predicate AnyNames(es: Elements, host: seq<Byte>) {
    match es
    case Nil => false
    case Cons(e, rest) => Names(e, host) || AnyNames(rest, host)
  }

  lemma ScanHeader(tag: Byte, n: nat, rest: seq<Byte>, host: seq<Byte>)
    requires n < LENGTH_LIMIT
    ensures var d := [tag] + Length(n) + rest;
            && (Constructed(tag) ==> Scan(d, host) == Scan(rest, host))
            && (!Constructed(tag) && n <= |rest| ==>
                  Scan(d, host) == ((tag == DNS_NAME && 0 < n && Matches(rest[..n], host)) || Scan(rest[n..], host)))
  {
    hide Scan, Matches, LengthOk, LengthSize, LengthValue, Length;
    var d := [tag] + Length(n) + rest;
    assert d[0..] == d && d[1..] == Length(n) + rest;
    LengthRoundTrip(n, rest);
    ScanStep(d, 0, host);
    var off := 1 + |Length(n)|;
    assert d[1] == (Length(n) + rest)[0];
    assert d[off..] == rest;
    if n <= |rest| {
      assert d[off..off + n] == rest[..n] && d[off + n..] == rest[n..];
    }
  }

  lemma ScanLeaf(tag: Byte, content: seq<Byte>, rest: seq<Byte>, host: seq<Byte>)
    requires !Constructed(tag) && |content| < LENGTH_LIMIT
    ensures Scan([tag] + Length(|content|) + content + rest, host) <==>
            (tag == DNS_NAME && content != [] && Matches(content, host)) || Scan(rest, host)
  {
    hide Scan, Matches, Length;
    ScanHeader(tag, |content|, content + rest, host);
    assert (content + rest)[..|content|] == content && (content + rest)[|content|..] == rest;
    assert [tag] + Length(|content|) + content + rest == [tag] + Length(|content|) + (content + rest);
  }

  lemma {:induction false} ScanElement(e: Element, rest: seq<Byte>, host: seq<Byte>)
    requires Encodable(e)
    ensures Scan(Encode(e) + rest, host) <==> Names(e, host) || Scan(rest, host)
  {
    hide Scan, Matches, Length;
    match e
    case Leaf(tag, content) =>
      ScanLeaf(tag, content, rest, host);
    case Node(tag, children) =>
      var body := EncodeAll(children);
      ScanHeader(tag, |body|, body + rest, host);
      assert Encode(e) + rest == [tag] + Length(|body|) + (body + rest);
      ScanElements(children, rest, host);
  }

  lemma {:induction false} ScanElements(es: Elements, rest: seq<Byte>, host: seq<Byte>)
    requires AllEncodable(es)
    ensures Scan(EncodeAll(es) + rest, host) <==> AnyNames(es, host) || Scan(rest, host)
  {
    hide Scan, Matches, Length;
    match es
    case Nil =>
      assert EncodeAll(es) + rest == rest;
    case Cons(e, others) =>
      ScanElement(e, EncodeAll(others) + rest, host);
      ScanElements(others, rest, host);
      assert EncodeAll(es) + rest == Encode(e) + (EncodeAll(others) + rest);
  }

  /** On encoded elements, however deeply they nest, the flat scan searches exactly the leaves. */
  lemma ScanExact(e: Element, host: seq<Byte>)
    requires Encodable(e)
    ensures Scan(Encode(e), host) <==> Names(e, host)
  {
    ScanElement(e, [], host);
    assert Encode(e) + [] == Encode(e);
  }

  // ----- subjectAltName -----

  /** A GeneralName other than otherName: all of them are leaves to the scan. */
  datatype GeneralName = GeneralName(tag: Byte, content: seq<Byte>)

  function ElementsOf(names: seq<GeneralName>): Elements {
    if names == [] then Nil
    else Cons(Leaf(names[0].tag, names[0].content), ElementsOf(names[1..]))
  }

  function San(names: seq<GeneralName>): Element {
    Node(0x30, ElementsOf(names))
  }

  lemma {:induction false} AnyNamesExactly(names: seq<GeneralName>, host: seq<Byte>)
    ensures AnyNames(ElementsOf(names), host) <==>
            exists n :: n in names && n.tag == DNS_NAME && n.content != [] && Matches(n.content, host)
  {
    if names != [] {
      AnyNamesExactly(names[1..], host);
      assert names == [names[0]] + names[1..];
    }
  }

  /** The scan accepts an encoded subjectAltName exactly when one of its dNSNames matches. */
  lemma SanExact(names: seq<GeneralName>, host: seq<Byte>)
    requires Encodable(San(names))
    ensures Scan(Encode(San(names)), host) <==>
            exists n :: n in names && n.tag == DNS_NAME && n.content != [] && Matches(n.content, host)
  {
    ScanExact(San(names), host);
    AnyNamesExactly(names, host);
  }

  lemma MatchesItself(host: seq<Byte>)
    ensures Matches(host, host)
  {
  }

  /** An otherName is looked into: alone in a subjectAltName, it is accepted exactly when a leaf inside it matches. */
  lemma OtherNameSearched(inside: Elements, host: seq<Byte>)
    requires Encodable(Node(0x30, Cons(Node(0xa0, inside), Nil)))
    ensures Scan(Encode(Node(0x30, Cons(Node(0xa0, inside), Nil))), host) <==> AnyNames(inside, host)
  {
    hide Scan, Encode, Matches;
    var other := Node(0xa0, inside);
    ScanExact(Node(0x30, Cons(other, Nil)), host);
    assert AnyNames(Cons(other, Nil), host) <==> Names(other, host);
  }

  /** The host "a" is found in an otherName, where no dNSName of the list is. */
  lemma OtherNameMatches()
    ensures Scan([0x30, 5, 0xa0, 3, 0x82, 1, 0x61], [0x61])
  {
    hide Scan, Matches;
    var host: seq<Byte> := [0x61];
    MatchesItself(host);
    ShortHeader(0x30, 5, [0xa0, 3, 0x82, 1, 0x61], host);
    ShortHeader(0xa0, 3, [0x82, 1, 0x61], host);
    ShortHeader(0x82, 1, host, host);
    assert [0x30, 5] + [0xa0, 3, 0x82, 1, 0x61] == [0x30, 5, 0xa0, 3, 0x82, 1, 0x61];
    assert [0xa0, 3] + [0x82, 1, 0x61] == [0xa0, 3, 0x82, 1, 0x61];
    assert [0x82, 1] + host == [0x82, 1, 0x61];
  }

  /** A directoryName is skipped, whatever it contains. */
  lemma DirectoryNameSkipped()
    ensures !Scan([0x30, 5, 0xa4, 3, 0x82, 1, 0x61], [0x61])
  {
    hide Scan, Matches;
    var host: seq<Byte> := [0x61];
    ShortHeader(0x30, 5, [0xa4, 3, 0x82, 1, 0x61], host);
    assert [0x30, 5] + [0xa4, 3, 0x82, 1, 0x61] == [0x30, 5, 0xa4, 3, 0x82, 1, 0x61];
    ScanLeaf(0xa4, [0x82, 1, 0x61], [], host);
    ScanNothing(host);
    assert Length(3) == [3];
    assert [0xa4] + [3] + [0x82, 1, 0x61] + [] == [0xa4, 3, 0x82, 1, 0x61];
  }

  lemma ScanNothing(host: seq<Byte>)
    ensures !Scan([], host)
  {
  }

  lemma ShortHeader(tag: Byte, n: nat, rest: seq<Byte>, host: seq<Byte>)
    requires n < 0x80
    ensures tag in {0x30, 0xa0} ==> Scan([tag, n] + rest, host) == Scan(rest, host)
    ensures tag == DNS_NAME && 0 < n == |rest| && Matches(rest, host) ==> Scan([tag, n] + rest, host)
  {
    hide Scan, Matches;
    ScanHeader(tag, n, rest, host);
    assert [tag] + Length(n) + rest == [tag, n] + rest;
    assert rest[..|rest|] == rest;
  }
}
