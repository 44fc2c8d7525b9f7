/** DER lengths (section 10.1 of X.690) as the scanners in src/tls12_chainverify.c read them. */
module Der {
  import opened Bytes

  /** A signed C int: a value outside it would be an overflow. */
  newtype int32 = x: int | -0x8000_0000 <= x < 0x8000_0000

  const LENGTH_LIMIT := 0x100_0000

  /** The shortest encoding of a length below 2^24. */
  function Length(n: nat): (r: seq<Byte>)
    requires n < LENGTH_LIMIT
    ensures 1 <= |r| <= 4
  {
    if n < 0x80 then [n]
    else if n < 0x100 then [0x81, n]
    else if n < 0x1_0000 then [0x82, n / 256, n % 256]
    else [0x83, n / 65536, n / 256 % 256, n % 256]
  }

  /** Number of octets in a length field that starts with `b`. */
  function LengthSize(b: Byte): (r: nat) {
    if b < 0x80 then 1 else b - 0x7f
  }

  /** Whether the length field at the start of `d` is one that is understood and lies within `d`. */
  predicate LengthOk(d: seq<Byte>) {
    d != [] && (d[0] >= 0x80 ==> 0x81 <= d[0] <= 0x83 && LengthSize(d[0]) <= |d|)
  }

  /** The length that the field at the start of `d` says. */
  function LengthValue(d: seq<Byte>): (r: nat)
    requires LengthOk(d)
    ensures r < LENGTH_LIMIT
  {
    if d[0] < 0x80 then d[0]
    else if d[0] == 0x81 then d[1]
    else if d[0] == 0x82 then d[1] as nat * 256 + d[2]
    else d[1] as nat * 65536 + d[2] as nat * 256 + d[3]
  }

  /** The shortest form that holds the number. */
  lemma LengthShortest(n: nat)
    requires n < LENGTH_LIMIT
    ensures |Length(n)| == if n < 0x80 then 1 else if n < 0x100 then 2 else if n < 0x1_0000 then 3 else 4
  {
  }

  /** No indefinite length, none of more than three octets, and none that is cut off. */
  lemma LengthRefused(d: seq<Byte>)
    ensures LengthOk(d) <==> d != [] && (d[0] < 0x80 || (0x80 < d[0] < 0x84 && |d| > d[0] - 0x80))
  {
  }

  /** The long form is a count of octets and then a big-endian number. */
  lemma LengthIsBigEndian(d: seq<Byte>)
    requires LengthOk(d)
    ensures d[0] < 0x80 ==> LengthSize(d[0]) == 1 && LengthValue(d) == d[0]
    ensures d[0] >= 0x80 ==>
              LengthSize(d[0]) == 1 + (d[0] - 0x80) <= |d| && LengthValue(d) == FromBigEndian(d[1..LengthSize(d[0])])
  {
    if d[0] >= 0x80 {
      var s := d[1..LengthSize(d[0])];
      assert s[..1] == [d[1]] && FromBigEndian([d[1]]) == d[1];
      if |s| >= 2 {
        assert s[..2][..1] == s[..1] && FromBigEndian(s[..2]) == d[1] as nat * 256 + d[2];
      }
      if |s| == 3 {
        assert s[..3] == s;
      }
    }
  }

  /** Reading a length undoes writing it, whatever follows. */
  lemma LengthRoundTrip(n: nat, rest: seq<Byte>)
    requires n < LENGTH_LIMIT
    ensures var d := Length(n) + rest;
            LengthOk(d) && LengthSize(d[0]) == |Length(n)| && LengthValue(d) == n
  {
    var d := Length(n) + rest;
    assert forall i :: 0 <= i < |Length(n)| ==> d[i] == Length(n)[i];
  }

  /** The length field at `at`, read octet by octet into an int. */
  method ReadLength(d: seq<Byte>, at: nat) returns (ok: bool, len: int32, size: nat)
    requires at < |d|
    ensures ok == LengthOk(d[at..])
    ensures ok ==> size == LengthSize(d[at]) && len as int == LengthValue(d[at..])
  {
    if d[at] < 0x80 {
      return true, d[at] as int32, 1;
    }
    var nb := d[at] - 0x80;
    if nb < 1 || nb > 3 || at + 1 + nb > |d| {
      return false, 0, 0;
    }
    len := 0;
    for k := 0 to nb
      invariant k == 0 ==> len == 0
      invariant k == 1 ==> len as int == d[at + 1]
      invariant k == 2 ==> len as int == d[at + 1] as nat * 256 + d[at + 2]
      invariant k == 3 ==> len as int == LengthValue(d[at..])
    {
      len := len * 256 + d[at + 1 + k] as int32;
    }
    return true, len, 1 + nb;
  }
}
