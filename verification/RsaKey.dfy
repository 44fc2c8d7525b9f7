/** Modulus and exponent from an encoded RSA public key (src/tls12_chainverify.c): SEQUENCE of two INTEGERs. */
module RsaKey {
  import opened Wrappers
  import opened Bytes
  import opened Der

  /** A value and the position after it. */
  datatype Integer = Integer(value: seq<Byte>, next: nat)

  datatype Key = Key(modulus: seq<Byte>, exponent: seq<Byte>)

  /** One leading zero octet, the sign, is dropped. */
  function Unsigned(content: seq<Byte>): seq<Byte> {
    if |content| > 1 && content[0] == 0 then content[1..] else content
  }

  /** What tls12_der_int reads at `q`. */
  function IntegerAt(d: seq<Byte>, q: nat): Option<Integer> {
    if q + 1 >= |d| || d[q] != 2 || !LengthOk(d[q + 1..]) then None
    else
      var off, len := q + 1 + LengthSize(d[q + 1]), LengthValue(d[q + 1..]);
      if off + len > |d| then None else Some(Integer(Unsigned(d[off..off + len]), off + len))
  }

  method DerInt(d: seq<Byte>, q: nat) returns (r: Option<Integer>)
    ensures r == IntegerAt(d, q)
    ensures r.Some? ==> r.value.next <= |d|
  {
    hide LengthOk, LengthSize, LengthValue;
    if q >= |d| || d[q] != 2 || q + 1 >= |d| {
      return None;
    }
    var ok, len, size := ReadLength(d, q + 1);
    if !ok {
      return None;
    }
    var off := q + 1 + size;
    var end := off + len as nat;
    if end > |d| {
      return None;
    }
    ghost var content := d[off..end];
    if len > 1 && d[off] == 0 {
      off := off + 1;
      assert d[off..end] == content[1..];
    }
    return Some(Integer(d[off..end], end));
  }

  /** Position after the tag and length of the outer SEQUENCE; its length is not looked at. */
  function BodyAt(d: seq<Byte>): nat
    requires d != []
  {
    if |d| == 1 then 1 else if d[1] < 0x80 then 2 else 2 + (d[1] - 0x80)
  }

  function ExtractSpec(d: seq<Byte>): Option<Key> {
    if d == [] || d[0] != 0x30 then None
    else
      match IntegerAt(d, BodyAt(d))
      case None => None
      case Some(n) =>
        match IntegerAt(d, n.next)
        case None => None
        case Some(e) =>
          if 0 < |n.value| < 2048 && 0 < |e.value| < 16 then Some(Key(n.value, e.value)) else None
  }

  method ExtractRsaPublicKey(d: seq<Byte>) returns (r: Option<Key>)
    ensures r == ExtractSpec(d)
  {
    if |d| == 0 || d[0] != 0x30 {
      return None;
    }
    hide IntegerAt;
    var q := 1;
    if |d| > 1 {
      if d[1] < 0x80 {
        q := 2;
      } else {
        var nb := d[1] - 0x80;
        q := 2 + nb;
      }
    }
    var n := DerInt(d, q);
    if n.None? {
      return None;
    }
    var e := DerInt(d, n.value.next);
    if e.None? {
      return None;
    }
    var nl, el := |n.value.value|, |e.value.value|;
    if nl > 0 && el > 0 && nl < 2048 && el < 16 {
      return Some(Key(n.value.value, e.value.value));
    }
    return None;
  }

  // ----- what an encoder writes -----

  /** The octets of a positive number, most significant first, without leading zeros. */
  predicate Magnitude(m: seq<Byte>) {
    m != [] && m[0] != 0
  }

  /** A positive INTEGER has its top bit clear. */
  function Content(m: seq<Byte>): seq<Byte>
    requires Magnitude(m)
  {
    if m[0] >= 0x80 then [0] + m else m
  }

  function EncodeInteger(m: seq<Byte>): seq<Byte>
    requires Magnitude(m) && |m| + 1 < LENGTH_LIMIT
  {
    [2] + Length(|Content(m)|) + Content(m)
  }

  function EncodeKey(k: Key): seq<Byte>
    requires Magnitude(k.modulus) && Magnitude(k.exponent) && |k.modulus| + |k.exponent| + 16 < LENGTH_LIMIT
  {
    var body := EncodeInteger(k.modulus) + EncodeInteger(k.exponent);
    [0x30] + Length(|body|) + body
  }

  lemma UnsignedContent(m: seq<Byte>)
    requires Magnitude(m)
    ensures Unsigned(Content(m)) == m && |Content(m)| <= |m| + 1
  {
  }

  lemma IntegerRoundTrip(before: seq<Byte>, m: seq<Byte>, after: seq<Byte>)
    requires Magnitude(m) && |m| + 1 < LENGTH_LIMIT
    ensures IntegerAt(before + EncodeInteger(m) + after, |before|)
         == Some(Integer(m, |before| + |EncodeInteger(m)|))
  {
    hide LengthOk, LengthSize, LengthValue, Length, Unsigned;
    var d, q, c := before + EncodeInteger(m) + after, |before|, Content(m);
    UnsignedContent(m);
    assert d[q] == 2;
    assert d[q + 1..] == Length(|c|) + (c + after);
    LengthRoundTrip(|c|, c + after);
    assert d[q + 1] == (Length(|c|) + (c + after))[0];
    var off := q + 1 + |Length(|c|)|;
    assert d[off..off + |c|] == c;
  }

  lemma EncodedSize(m: seq<Byte>)
    requires Magnitude(m) && |m| + 1 < LENGTH_LIMIT
    ensures |EncodeInteger(m)| <= |m| + 6
  {
  }

  lemma BodyAtIs(n: nat, body: seq<Byte>)
    requires n < LENGTH_LIMIT
    ensures BodyAt([0x30] + Length(n) + body) == 1 + |Length(n)|
  {
    var d := [0x30] + Length(n) + body;
    assert d[1] == Length(n)[0];
  }

  /** Extraction gives back the encoded key, exactly when the two numbers are within the sizes it allows. */
  lemma KeyRoundTrip(k: Key)
    requires Magnitude(k.modulus) && Magnitude(k.exponent) && |k.modulus| + |k.exponent| + 16 < LENGTH_LIMIT
    ensures ExtractSpec(EncodeKey(k)) == if |k.modulus| < 2048 && |k.exponent| < 16 then Some(k) else None
  {
    hide IntegerAt, EncodeInteger, BodyAt, Length;
    EncodedSize(k.modulus);
    EncodedSize(k.exponent);
    var n, e := EncodeInteger(k.modulus), EncodeInteger(k.exponent);
    var head := [0x30] + Length(|n + e|);
    BodyAtIs(|n + e|, n + e);
    IntegerRoundTrip(head, k.modulus, e);
    IntegerRoundTrip(head + n, k.exponent, []);
    assert EncodeKey(k) == head + n + e == head + n + e + [];
  }

  /** One zero in front is a sign and goes; a second one stays, and so does a lone one. */
  lemma SignOctet(m: seq<Byte>)
    ensures m != [] ==> Unsigned([0] + m) == m
    ensures |m| <= 1 || m[0] != 0 ==> Unsigned(m) == m
  {
    assert ([0] + m)[1..] == m;
  }

  const SMALL_KEY: seq<Byte> := [0x30, 9, 2, 2, 0, 0x9b, 2, 3, 1, 0, 1]

  lemma FirstInteger()
    ensures IntegerAt(SMALL_KEY, 2) == Some(Integer([0x9b], 6))
  {
    var d := SMALL_KEY;
    assert d[3..][0] == 2 && d[4..6] == [0] + [0x9b];
    SignOctet([0x9b]);
  }

  lemma SecondInteger()
    ensures IntegerAt(SMALL_KEY, 6) == Some(Integer([1, 0, 1], 11))
  {
    var d := SMALL_KEY;
    assert d[7..][0] == 3 && d[8..11] == [1, 0, 1];
    SignOctet([1, 0, 1]);
  }

  /** The octets of a small key: a modulus with its top bit set and the exponent 65537. */
  lemma SmallKey()
    ensures ExtractSpec([0x30, 9, 2, 2, 0, 0x9b, 2, 3, 1, 0, 1]) == Some(Key([0x9b], [1, 0, 1]))
  {
    FirstInteger();
    SecondInteger();
    hide IntegerAt;
    assert BodyAt(SMALL_KEY) == 2;
  }
}
