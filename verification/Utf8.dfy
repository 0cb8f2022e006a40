/** UTF-8 (section 3 of RFC 3629): the bytes of a string, and the string back from them. */
module Utf8 {
  import opened Prelude

  function EncodeChar(c: char): (xs: seq<Octet>)
    ensures 1 <= |xs| <= 4
  {
    var v := c as int;
    var q := v / 0x40;
    var r := q / 0x40;
    if v < 0x80 then [v]
    else if v < 0x800 then [0xC0 + q, 0x80 + v % 0x40]
    else if v < 0x1_0000 then [0xE0 + r, 0x80 + q % 0x40, 0x80 + v % 0x40]
    else [0xF0 + r / 0x40, 0x80 + r % 0x40, 0x80 + q % 0x40, 0x80 + v % 0x40]
  }

  function EncodeAll(s: string): (xs: seq<Octet>)
  {
    if s == [] then [] else EncodeChar(s[0]) + EncodeAll(s[1..])
  }

  function Encode(s: string): (b: Bytes)
  {
    FromOctets(EncodeAll(s))
  }

  /** How many octets a sequence with this first octet has; nothing for a continuation octet. */
  function Length(x: Octet): (n: Option<nat>)
    ensures n.Some? ==> 1 <= n.value <= 4
  {
    if x < 0x80 then Some(1)
    else if x < 0xC0 then None
    else if x < 0xE0 then Some(2)
    else if x < 0xF0 then Some(3)
    else if x < 0xF8 then Some(4)
    else None
  }

  predicate Continues(x: Octet) { 0x80 <= x < 0xC0 }

  /** The number a sequence of octets spells. */
  function Spelled(xs: seq<Octet>): (v: Option<nat>)
    requires 1 <= |xs| <= 4 && Length(xs[0]) == Some(|xs|)
  {
    var a: int := xs[0];
    if |xs| == 1 then Some(a)
    else if !Continues(xs[1]) then None
    else
      var b: int := xs[1] - 0x80;
      if |xs| == 2 then Some((a - 0xC0) * 0x40 + b)
      else if !Continues(xs[2]) then None
      else
        var c: int := xs[2] - 0x80;
        if |xs| == 3 then Some(((a - 0xE0) * 0x40 + b) * 0x40 + c)
        else if !Continues(xs[3]) then None
        else
          var d: int := xs[3] - 0x80;
          Some((((a - 0xF0) * 0x40 + b) * 0x40 + c) * 0x40 + d)
  }

  /** The shortest sequence is the only one allowed for a number. */
  predicate Shortest(v: nat, n: nat)
  {
    n == if v < 0x80 then 1 else if v < 0x800 then 2 else if v < 0x1_0000 then 3 else 4
  }

  predicate IsScalar(v: nat) { v < 0xD800 || 0xE000 <= v < 0x11_0000 }

  function DecodeAll(xs: seq<Octet>): (r: Option<string>)
    decreases |xs|
  {
    if xs == [] then Some([])
    else
      var n :- Length(xs[0]);
      if n > |xs| then None
      else
        var v :- Spelled(xs[..n]);
        if !IsScalar(v) || !Shortest(v, n) then None
        else
          var rest :- DecodeAll(xs[n..]);
          Some([v as char] + rest)
  }

  function Decode(b: Bytes): (r: Option<string>)
  {
    DecodeAll(Octets(b))
  }

  lemma CharInverse(c: char)
    ensures var xs := EncodeChar(c);
      && Length(xs[0]) == Some(|xs|) && Spelled(xs) == Some(c as int)
      && IsScalar(c as int) && Shortest(c as int, |xs|)
  {
  }

  lemma {:induction false} AllInverse(s: string)
    ensures DecodeAll(EncodeAll(s)) == Some(s)
  {
    hide EncodeChar, Length, Spelled, IsScalar, Shortest;
    if s != [] {
      var head, tail := EncodeChar(s[0]), EncodeAll(s[1..]);
      CharInverse(s[0]);
      AllInverse(s[1..]);
      assert (head + tail)[0] == head[0] && (head + tail)[..|head|] == head && (head + tail)[|head|..] == tail;
      assert [s[0]] + s[1..] == s;
    }
  }

  /** Every string is recovered from its bytes. */
  lemma RoundTrip(s: string)
    ensures Decode(Encode(s)) == Some(s)
  {
    FromOctetsInverse(EncodeAll(s));
    AllInverse(s);
  }

  /** The characters of the examples in section 7 of RFC 3629, one for each length up to four. */
  lemma Rfc3629Vectors()
    ensures EncodeChar('A') == [0x41] && EncodeChar('\U{0391}') == [0xCE, 0x91]
    ensures EncodeChar('\U{2262}') == [0xE2, 0x89, 0xA2] && EncodeChar('\U{233B4}') == [0xF0, 0xA3, 0x8E, 0xB4]
  {
  }
}
