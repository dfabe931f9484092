/** UTF-8, as far as the models need it: text as bytes, injectively, with NUL only for NUL. */
module Utf8 {
  import opened Common

  /** The bytes of one code point. */
  function EncodeChar(c: char): (bytes: seq<byte>)
    ensures 1 <= |bytes| <= 4
    ensures 0 in bytes <==> c == '\0'
  {
    var n := c as int;
    if n < 0x80 then [n as byte]
    else if n < 0x800 then [(0xC0 + n / 64) as byte, Tail(n)]
    else if n < 0x1_0000 then [(0xE0 + n / 4096) as byte, Tail(n / 64), Tail(n)]
    else [(0xF0 + n / 262144) as byte, Tail(n / 4096), Tail(n / 64), Tail(n)]
  }

  function Tail(n: nat): byte {
    (0x80 + n % 64) as byte
  }

  function Encode(s: string): seq<byte> {
    if s == "" then [] else EncodeChar(s[0]) + Encode(s[1..])
  }

  predicate IsTail(b: byte) {
    0x80 <= b < 0xC0
  }

  /** The length of the well-formed sequence a byte string starts with (section 4 of RFC 3629), or 0. */
  function SequenceLength(bytes: seq<byte>): (n: nat)
    ensures n <= 4 && n <= |bytes|
  {
    if bytes == [] then 0
    else
      var b := bytes[0];
      if b < 0x80 then 1
      else if 0xC2 <= b < 0xE0 && |bytes| >= 2 && IsTail(bytes[1]) then 2
      else if 0xE0 <= b < 0xF0 && |bytes| >= 3 && IsTail(bytes[1]) && IsTail(bytes[2]) &&
        (b == 0xE0 ==> bytes[1] >= 0xA0) && (b == 0xED ==> bytes[1] < 0xA0) then 3
      else if 0xF0 <= b < 0xF5 && |bytes| >= 4 && IsTail(bytes[1]) && IsTail(bytes[2]) && IsTail(bytes[3]) &&
        (b == 0xF0 ==> bytes[1] >= 0x90) && (b == 0xF4 ==> bytes[1] < 0x90) then 4
      else 0
  }

  /** What `std::str::from_utf8` accepts. */
  predicate Valid(bytes: seq<byte>)
    decreases |bytes|
  {
    bytes == [] || (SequenceLength(bytes) > 0 && Valid(bytes[SequenceLength(bytes)..]))
  }

  lemma SequenceLengthConcat(a: seq<byte>, b: seq<byte>)
    requires SequenceLength(a) > 0
    ensures SequenceLength(a + b) == SequenceLength(a)
  {
  }

  /** Accepted bytes begin with one well-formed sequence, and accepted bytes follow it. */
  lemma FirstSequence(bytes: seq<byte>) returns (head: seq<byte>, rest: seq<byte>)
    requires Valid(bytes) && bytes != []
    ensures bytes == head + rest && 0 < |head| == SequenceLength(head) && Valid(rest)
  {
    var n := SequenceLength(bytes);
    head, rest := bytes[..n], bytes[n..];
  }

  lemma ValidBehind(head: seq<byte>, rest: seq<byte>)
    requires 0 < |head| == SequenceLength(head) && Valid(rest)
    ensures Valid(head + rest)
  {
    SequenceLengthConcat(head, rest);
    assert (head + rest)[|head|..] == rest;
  }

  lemma {:induction false} ValidConcat(a: seq<byte>, b: seq<byte>)
    requires Valid(a) && Valid(b)
    ensures Valid(a + b)
    decreases |a|
  {
    if a == [] {
      assert a + b == b;
    } else {
      var head, rest := FirstSequence(a);
      ValidConcat(rest, b);
      ValidBehind(head, rest + b);
      Associative(head, rest, b);
    }
  }

  lemma Associative(a: seq<byte>, b: seq<byte>, c: seq<byte>)
    ensures (a + b) + c == a + (b + c)
  {
  }

  lemma {:induction false} EncodeConcat(a: string, b: string)
    ensures Encode(a + b) == Encode(a) + Encode(b)
  {
    if a == "" {
      assert a + b == b;
    } else {
      EncodeConcat(a[1..], b);
      assert (a + b)[1..] == a[1..] + b;
      Associative(EncodeChar(a[0]), Encode(a[1..]), Encode(b));
    }
  }

  /** The lead byte fixes how many bytes a code point has. */
  function Length(lead: byte): nat {
    if lead < 0x80 then 1 else if lead < 0xE0 then 2 else if lead < 0xF0 then 3 else 4
  }

  /** No encoded code point is a proper prefix of another, and each has its own bytes. */
  lemma CharPrefix(c: char, d: char, s: seq<byte>, t: seq<byte>)
    requires EncodeChar(c) + s == EncodeChar(d) + t
    ensures c == d && s == t
  {
    var a, b := EncodeChar(c), EncodeChar(d);
    assert (a + s)[0] == a[0] && (b + t)[0] == b[0];
    assert Length(a[0]) == |a| && Length(b[0]) == |b|;
    assert a == (a + s)[..|a|] && b == (b + t)[..|b|];
    assert s == (a + s)[|a|..] && t == (b + t)[|b|..];
    CharSpelled(c);
    CharSpelled(d);
  }

  /** The code point a multi-byte encoding spells. */
  function Spelled(bytes: seq<byte>): int {
    if |bytes| == 1 then bytes[0] as int
    else if |bytes| == 2 then (bytes[0] as int - 0xC0) * 64 + (bytes[1] as int - 0x80)
    else if |bytes| == 3 then (bytes[0] as int - 0xE0) * 4096 + (bytes[1] as int - 0x80) * 64 + (bytes[2] as int - 0x80)
    else if |bytes| == 4 then
      (bytes[0] as int - 0xF0) * 262144 + (bytes[1] as int - 0x80) * 4096 +
      (bytes[2] as int - 0x80) * 64 + (bytes[3] as int - 0x80)
    else 0
  }

  lemma CharSpelled(c: char)
    ensures Spelled(EncodeChar(c)) == c as int
  {
    var n := c as int;
    assert n / 64 / 64 == n / 4096 && n / 4096 / 64 == n / 262144;
  }

  lemma {:induction false} EncodeInjective(a: string, b: string)
    requires Encode(a) == Encode(b)
    ensures a == b
  {
    if a != "" && b != "" {
      CharPrefix(a[0], b[0], Encode(a[1..]), Encode(b[1..]));
      EncodeInjective(a[1..], b[1..]);
      assert a == [a[0]] + a[1..] && b == [b[0]] + b[1..];
    }
  }

  lemma {:induction false} NulOnlyFromNul(s: string)
    ensures 0 in Encode(s) <==> '\0' in s
  {
    if s != "" {
      NulOnlyFromNul(s[1..]);
      assert s == [s[0]] + s[1..];
    }
  }
}
