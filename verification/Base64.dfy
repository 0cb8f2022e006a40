/** Standard base64 with padding (section 4 of RFC 4648), decoded as Go's StdEncoding does. */
module Base64 {
  import opened Prelude

  function Letter(v: int): (c: char)
    requires 0 <= v < 64
    ensures c != '=' && c != '\r' && c != '\n'
  {
    if v < 26 then 'A' + v as char
    else if v < 52 then 'a' + (v - 26) as char
    else if v < 62 then '0' + (v - 52) as char
    else if v == 62 then '+'
    else '/'
  }

  function Sextet(c: char): (r: Option<int>)
    ensures r.Some? ==> 0 <= r.value < 64 && Letter(r.value) == c
  {
    if 'A' <= c <= 'Z' then Some(c as int - 'A' as int)
    else if 'a' <= c <= 'z' then Some(c as int - 'a' as int + 26)
    else if '0' <= c <= '9' then Some(c as int - '0' as int + 52)
    else if c == '+' then Some(62)
    else if c == '/' then Some(63)
    else None
  }

  lemma SextetOfLetter(v: int)
    requires 0 <= v < 64
    ensures Sextet(Letter(v)) == Some(v)
  {
  }

  /** One group of up to three octets as four characters. */
  function Group(xs: seq<Octet>): (s: string)
    requires 1 <= |xs| <= 3
    ensures |s| == 4 && forall i :: 0 <= i < 4 ==> s[i] != '\r' && s[i] != '\n'
  {
    var x := xs[0];
    var y := if |xs| > 1 then xs[1] else 0;
    var z := if |xs| > 2 then xs[2] else 0;
    [Letter(x / 4), Letter(x % 4 * 16 + y / 16),
     if |xs| > 1 then Letter(y % 16 * 4 + z / 64) else '=',
     if |xs| > 2 then Letter(z % 64) else '=']
  }

  function EncodeGroups(xs: seq<Octet>): (s: string)
    ensures forall i :: 0 <= i < |s| ==> s[i] != '\r' && s[i] != '\n'
  {
    if xs == [] then []
    else if |xs| <= 3 then Group(xs)
    else Group(xs[..3]) + EncodeGroups(xs[3..])
  }

  function Encode(b: Bytes): (s: string)
    ensures forall i :: 0 <= i < |s| ==> s[i] != '\r' && s[i] != '\n'
  {
    EncodeGroups(Octets(b))
  }

  /** The octets of one group of four characters, or nothing if it is not a well-formed group. */
  function Ungroup(s: string): (r: Option<seq<Octet>>)
    requires |s| == 4
    ensures r.Some? ==> 1 <= |r.value| <= 3
  {
    var p, q, u, v := Sextet(s[0]), Sextet(s[1]), Sextet(s[2]), Sextet(s[3]);
    if p.None? || q.None? then None
    else
      var x := p.value * 4 + q.value / 16;
      if s[2] == '=' then (if s[3] == '=' then Some([x]) else None)
      else if u.None? then None
      else
        var y := q.value % 16 * 16 + u.value / 4;
        if s[3] == '=' then Some([x, y])
        else if v.None? then None
        else Some([x, y, u.value % 4 * 64 + v.value])
  }

  function DecodeGroups(s: string): (r: Option<seq<Octet>>)
  {
    if s == [] then Some([])
    else if |s| < 4 then None
    else
      var head := Ungroup(s[..4]);
      if head.None? then None
      else if |head.value| < 3 then (if |s| == 4 then head else None)
      else
        var rest := DecodeGroups(s[4..]);
        if rest.None? then None else Some(head.value + rest.value)
  }

  /** Carriage returns and line feeds are skipped wherever they stand. */
  function StripNewlines(s: string): (t: string)
  {
    if s == [] then []
    else if s[0] == '\r' || s[0] == '\n' then StripNewlines(s[1..])
    else [s[0]] + StripNewlines(s[1..])
  }

  function Decode(s: string): (r: Option<Bytes>)
  {
    var xs := DecodeGroups(StripNewlines(s));
    if xs.None? then None else Some(FromOctets(xs.value))
  }

  /** Splitting three octets into four sextets loses nothing. */
  lemma Regroup(x: Octet, y: Octet, z: Octet)
    ensures x / 4 * 4 + (x % 4 * 16 + y / 16) / 16 == x
    ensures (x % 4 * 16 + y / 16) % 16 * 16 + (y % 16 * 4 + z / 64) / 4 == y
    ensures (y % 16 * 4 + z / 64) % 4 * 64 + z % 64 == z
  {
  }

  lemma GroupInverse(xs: seq<Octet>)
    requires 1 <= |xs| <= 3
    ensures Ungroup(Group(xs)) == Some(xs)
  {
    hide Letter, Sextet;
    var x := xs[0];
    var y := if |xs| > 1 then xs[1] else 0;
    var z := if |xs| > 2 then xs[2] else 0;
    SextetOfLetter(x / 4);
    SextetOfLetter(x % 4 * 16 + y / 16);
    SextetOfLetter(y % 16 * 4 + z / 64);
    SextetOfLetter(z % 64);
    Regroup(x, y, z);
    assert |xs| == 1 ==> xs == [x];
    assert |xs| == 2 ==> xs == [x, y];
    assert |xs| == 3 ==> xs == [x, y, z];
  }

  lemma {:induction false} GroupsInverse(xs: seq<Octet>)
    ensures DecodeGroups(EncodeGroups(xs)) == Some(xs)
  {
    hide Group, Ungroup;
    var s := EncodeGroups(xs);
    if xs != [] {
      if |xs| <= 3 {
        GroupInverse(xs);
        assert s[..4] == s && s[4..] == [];
        assert xs + [] == xs;
      } else {
        GroupInverse(xs[..3]);
        GroupsInverse(xs[3..]);
        assert s[..4] == Group(xs[..3]) && s[4..] == EncodeGroups(xs[3..]);
        assert xs == xs[..3] + xs[3..];
      }
    }
  }

  lemma {:induction false} NothingToStrip(s: string)
    requires forall i :: 0 <= i < |s| ==> s[i] != '\r' && s[i] != '\n'
    ensures StripNewlines(s) == s
  {
    if s != [] { NothingToStrip(s[1..]); }
  }

  /** Decoding undoes encoding for every byte string. */
  lemma RoundTrip(b: Bytes)
    ensures Decode(Encode(b)) == Some(b)
  {
    NothingToStrip(Encode(b));
    GroupsInverse(Octets(b));
    OctetsInverse(b);
  }

  lemma {:induction false} StripAppend(a: string, b: string)
    ensures StripNewlines(a + b) == StripNewlines(a) + StripNewlines(b)
  {
    if a == [] {
      assert a + b == b;
    } else {
      assert (a + b)[1..] == a[1..] + b;
      StripAppend(a[1..], b);
    }
  }

  /** A line break anywhere in the text makes no difference. */
  lemma LineBreaksIgnored(a: string, b: string)
    ensures Decode(a + "\n" + b) == Decode(a + b) && Decode(a + "\r" + b) == Decode(a + b)
  {
    StripAppend(a, b);
    StripAppend(a + "\n", b);
    StripAppend(a, "\n");
    StripAppend(a + "\r", b);
    StripAppend(a, "\r");
    assert "\n"[1..] == [] && "\r"[1..] == [];
    assert StripNewlines("\n") == [] && StripNewlines("\r") == [];
    assert StripNewlines(a + "\n" + b) == StripNewlines(a + b) && StripNewlines(a + "\r" + b) == StripNewlines(a + b);
  }

  // ---- The alphabet ----

  /** The letters are those of table 1 of RFC 4648. */
  lemma LettersAre()
    ensures
      [Letter(0), Letter(1), Letter(2), Letter(3), Letter(4), Letter(5), Letter(6), Letter(7), Letter(8),
       Letter(9), Letter(10), Letter(11), Letter(12), Letter(13), Letter(14), Letter(15), Letter(16),
       Letter(17), Letter(18), Letter(19), Letter(20), Letter(21), Letter(22), Letter(23), Letter(24),
       Letter(25)]
      == "ABCDEFGHIJKLMNOPQRSTUVWXYZ"
    ensures
      [Letter(26), Letter(27), Letter(28), Letter(29), Letter(30), Letter(31), Letter(32), Letter(33),
       Letter(34), Letter(35), Letter(36), Letter(37), Letter(38), Letter(39), Letter(40), Letter(41),
       Letter(42), Letter(43), Letter(44), Letter(45), Letter(46), Letter(47), Letter(48), Letter(49),
       Letter(50), Letter(51)]
      == "abcdefghijklmnopqrstuvwxyz"
    ensures
      [Letter(52), Letter(53), Letter(54), Letter(55), Letter(56), Letter(57), Letter(58), Letter(59),
       Letter(60), Letter(61), Letter(62), Letter(63)]
      == "0123456789+/"
  {
  }

  /** Three octets and the four letters of their group spell the same 24-bit number, the most significant part first. */
  lemma GroupSpells(x: Octet, y: Octet, z: Octet, s: seq<int>)
    requires |s| == 4 && (forall i :: 0 <= i < 4 ==> 0 <= s[i] < 64)
    requires ((s[0] * 64 + s[1]) * 64 + s[2]) * 64 + s[3] == (x * 256 + y) * 256 + z
    ensures Group([x, y, z]) == [Letter(s[0]), Letter(s[1]), Letter(s[2]), Letter(s[3])]
    ensures z == 0 ==> Group([x, y]) == [Letter(s[0]), Letter(s[1]), Letter(s[2]), '=']
    ensures y == 0 && z == 0 ==> Group([x]) == [Letter(s[0]), Letter(s[1]), '=', '=']
  {
    hide Letter;
    assert s[0] == x / 4 && s[1] == x % 4 * 16 + y / 16 && s[2] == y % 16 * 4 + z / 64 && s[3] == z % 64;
  }

  /** The test vectors "f", "fo" and "foo" of section 10 of RFC 4648, group by group. */
  lemma Rfc4648Vectors()
    ensures Group([0x66]) == "Zg==" && Group([0x66, 0x6F]) == "Zm8=" && Group([0x66, 0x6F, 0x6F]) == "Zm9v"
  {
  }

  // ---- What decodes contains no foreign character ----

  predicate InAlphabet(c: char) { Sextet(c).Some? || c == '=' || c == '\r' || c == '\n' }

  lemma {:induction false} GroupsInAlphabet(s: string)
    requires DecodeGroups(s).Some?
    ensures forall i :: 0 <= i < |s| ==> InAlphabet(s[i])
  {
    hide Sextet;
    if s != [] {
      if |s| > 4 { GroupsInAlphabet(s[4..]); }
      forall i | 0 <= i < |s| ensures InAlphabet(s[i]) {
        if i < 4 { assert s[..4][i] == s[i]; } else { assert s[4..][i - 4] == s[i]; }
      }
    }
  }

  lemma {:induction false} StripKeeps(s: string, i: nat)
    requires i < |s| && s[i] != '\r' && s[i] != '\n'
    ensures s[i] in StripNewlines(s)
  {
    if i > 0 { StripKeeps(s[1..], i - 1); }
  }

  /** A text that decodes consists of letters of the alphabet, padding and line breaks. */
  lemma DecodableInAlphabet(s: string)
    requires Decode(s).Some?
    ensures forall i :: 0 <= i < |s| ==> InAlphabet(s[i])
  {
    hide Sextet;
    var t := StripNewlines(s);
    GroupsInAlphabet(t);
    forall i | 0 <= i < |s| ensures InAlphabet(s[i]) {
      if s[i] != '\r' && s[i] != '\n' {
        StripKeeps(s, i);
        var k :| 0 <= k < |t| && t[k] == s[i];
      }
    }
  }
}
