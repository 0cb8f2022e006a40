/**
 * canonical_snapshot_bytes of tools/verify_snapshot.rs: the bytes a snapshot signature covers, and a decoder
 * that recovers every printed field from them. Strings are sequences of Unicode scalar values, escaped as
 * serde_json does within section 7 of RFC 8259.
 */
module CanonicalJson {
  import opened Prelude
  import Decimal
  import Utf8

  datatype FileEntry = FileEntry(path: string, mode: nat, modTime: string, size: nat, chunkHashes: seq<string>)

  datatype SnapshotMetadata = SnapshotMetadata(
    id: string, parent: Option<string>, timestamp: string, root: string, files: seq<FileEntry>,
    signerPub: string, signature: string)

  // ---- Strings ----

  function HexDigit(d: int): char
    requires 0 <= d < 16
  {
    if d < 10 then '0' + d as char else 'a' + (d - 10) as char
  }

  function EscapeChar(c: char): (s: string)
    ensures 1 <= |s|
  {
    if c == '\"' then "\\\""
    else if c == '\\' then "\\\\"
    else if c == 8 as char then "\\b"
    else if c == '\t' then "\\t"
    else if c == '\n' then "\\n"
    else if c == 12 as char then "\\f"
    else if c == '\r' then "\\r"
    else if c < ' ' then "\\u00" + [HexDigit(c as int / 16), HexDigit(c as int % 16)]
    else [c]
  }

  function Escape(s: string): string
  {
    if s == [] then [] else EscapeChar(s[0]) + Escape(s[1..])
  }

  function Quote(s: string): (q: string)
    ensures q != [] && q[0] == '\"'
  {
    "\"" + (Escape(s) + "\"")
  }

  // ---- A reader for strings (section 7 of RFC 8259) ----

  function HexValue(c: char): (r: Option<int>)
    ensures r.Some? ==> 0 <= r.value < 16
  {
    if '0' <= c <= '9' then Some(c as int - '0' as int)
    else if 'a' <= c <= 'f' then Some(c as int - 'a' as int + 10)
    else if 'A' <= c <= 'F' then Some(c as int - 'A' as int + 10)
    else None
  }

  /** The number four hexadecimal digits spell. */
  function HexFour(t: string): (r: Option<int>)
    requires |t| == 4
    ensures r.Some? ==> 0 <= r.value < 0x1_0000
  {
    var a :- HexValue(t[0]);
    var b :- HexValue(t[1]);
    var c :- HexValue(t[2]);
    var d :- HexValue(t[3]);
    Some(((a * 16 + b) * 16 + c) * 16 + d)
  }

  /** What a character after a backslash stands for. */
  function ShortForm(c: char): (r: Option<char>)
  {
    if c == '\"' || c == '\\' || c == '/' then Some(c)
    else if c == 'b' then Some(8 as char)
    else if c == 't' then Some('\t')
    else if c == 'n' then Some('\n')
    else if c == 'f' then Some(12 as char)
    else if c == 'r' then Some('\r')
    else None
  }

  /**
   * The character the text starts with, unescaped, and how much of the text spells it. A control character that is
   * not escaped is refused, and so is half of a surrogate pair.
   */
  function UnescapeOne(t: string): (r: Option<(char, nat)>)
    ensures r.Some? ==> 1 <= r.value.1 <= |t|
  {
    if t == [] || t[0] < ' ' then None
    else if t[0] != '\\' then Some((t[0], 1))
    else if |t| < 2 then None
    else if ShortForm(t[1]).Some? then Some((ShortForm(t[1]).value, 2))
    else if t[1] != 'u' || |t| < 6 then None
    else
      var v :- HexFour(t[2..6]);
      if 0xD800 <= v < 0xE000 then None else Some((v as char, 6))
  }

  /** The string up to the closing quote, and the text after it. */
  function ParseBody(t: string): (r: Option<(string, string)>)
    ensures r.Some? ==> |r.value.1| < |t|
    decreases |t|
  {
    if t == [] then None
    else if t[0] == '\"' then Some(([], t[1..]))
    else
      var one := UnescapeOne(t);
      if one.None? then None
      else
        var rest := ParseBody(t[one.value.1..]);
        if rest.None? then None else Some(([one.value.0] + rest.value.0, rest.value.1))
  }

  function ParseString(t: string): (r: Option<(string, string)>)
    ensures r.Some? ==> |r.value.1| < |t|
  {
    if t != [] && t[0] == '\"' then ParseBody(t[1..]) else None
  }

  lemma UnescapeInverse(c: char, t: string)
    ensures UnescapeOne(EscapeChar(c) + t) == Some((c, |EscapeChar(c)|)) && EscapeChar(c)[0] != '\"'
  {
    var e := EscapeChar(c);
    assert forall i :: 0 <= i < |e| ==> (e + t)[i] == e[i];
    if |e| == 6 {
      hide HexFour, HexDigit;
      assert (e + t)[2..6] == ['0', '0', HexDigit(c as int / 16), HexDigit(c as int % 16)];
      HexFourInverse(c as int / 16, c as int % 16);
    } else {
      hide HexFour;
    }
  }

  lemma HexFourInverse(hi: int, lo: int)
    requires 0 <= hi < 16 && 0 <= lo < 16
    ensures HexFour(['0', '0', HexDigit(hi), HexDigit(lo)]) == Some(hi * 16 + lo)
  {
    HexInverse(hi);
    HexInverse(lo);
  }

  lemma HexInverse(d: int)
    requires 0 <= d < 16
    ensures HexValue(HexDigit(d)) == Some(d) && HexDigit(d) == "0123456789abcdef"[d]
  {
  }

  lemma {:induction false} BodyInverse(s: string, rest: string)
    ensures ParseBody(Escape(s) + ("\"" + rest)) == Some((s, rest))
  {
    hide EscapeChar, UnescapeOne;
    var tail := "\"" + rest;
    if s == [] {
      assert Escape(s) + tail == tail && tail[1..] == rest;
    } else {
      var e := EscapeChar(s[0]);
      var t := Escape(s[1..]) + tail;
      assert Escape(s) + tail == e + t;
      UnescapeInverse(s[0], t);
      assert (e + t)[|e|..] == t && (e + t)[0] == e[0];
      BodyInverse(s[1..], rest);
      assert [s[0]] + s[1..] == s;
    }
  }

  lemma StringInverse(s: string, rest: string)
    ensures ParseString(Quote(s) + rest) == Some((s, rest))
  {
    hide Escape, ParseBody;
    assert Quote(s) + rest == "\"" + (Escape(s) + ("\"" + rest));
    BodyInverse(s, rest);
  }

  // ---- The escaping is the shortest, and the one serde_json chooses ----

  /** Which characters are escaped, and how. */
  lemma EscapeForms(c: char)
    ensures |EscapeChar(c)| == 2 <==> c in {'\"', '\\', 8 as char, '\t', '\n', 12 as char, '\r'}
    ensures |EscapeChar(c)| == 2 ==> EscapeChar(c)[0] == '\\' && ShortForm(EscapeChar(c)[1]) == Some(c)
    ensures |EscapeChar(c)| == 6 <==> c < ' ' && c !in {8 as char, '\t', '\n', 12 as char, '\r'}
    ensures |EscapeChar(c)| == 6 ==>
      EscapeChar(c) == "\\u00" + ["0123456789abcdef"[c as int / 16], "0123456789abcdef"[c as int % 16]]
    ensures |EscapeChar(c)| == 1 <==> c >= ' ' && c != '\"' && c != '\\'
    ensures |EscapeChar(c)| == 1 ==> EscapeChar(c) == [c]
  {
    if |EscapeChar(c)| == 6 {
      HexInverse(c as int / 16);
      HexInverse(c as int % 16);
    }
  }

  /** Text without quotes, backslashes and control characters is printed as it is, and no other text is. */
  lemma {:induction false} PlainIff(s: string)
    ensures |Escape(s)| >= |s|
    ensures Escape(s) == s <==> forall i :: 0 <= i < |s| ==> s[i] >= ' ' && s[i] != '\"' && s[i] != '\\'
  {
    hide EscapeChar;
    if s != [] {
      PlainIff(s[1..]);
      EscapeForms(s[0]);
      assert s == [s[0]] + s[1..];
      if EscapeChar(s[0]) == [s[0]] { assert Escape(s)[1..] == Escape(s[1..]); }
    }
  }

  /** No text the reader accepts for a character is shorter than its escape. */
  lemma UnescapeShortest(t: string)
    requires UnescapeOne(t).Some? && t[0] != '\"'
    ensures |EscapeChar(UnescapeOne(t).value.0)| <= UnescapeOne(t).value.1
  {
  }

  lemma {:induction false} BodyShortest(t: string)
    requires ParseBody(t).Some?
    ensures |Escape(ParseBody(t).value.0)| + 1 + |ParseBody(t).value.1| <= |t|
    decreases |t|
  {
    hide EscapeChar, UnescapeOne;
    if t[0] != '\"' {
      UnescapeShortest(t);
      var n := UnescapeOne(t).value.1;
      BodyShortest(t[n..]);
      var s := ParseBody(t).value.0;
      assert s[0] == UnescapeOne(t).value.0 && s[1..] == ParseBody(t[n..]).value.0;
    }
  }

  /** Of all texts that read as `s`, the quoted form is a shortest one. */
  lemma QuoteShortest(s: string, t: string)
    requires ParseString(t) == Some((s, ""))
    ensures |Quote(s)| <= |t|
  {
    BodyShortest(t[1..]);
  }

  // ---- Numbers and fixed text ----

  function DigitsIn(t: string): (n: nat)
    ensures n <= |t| && (forall i :: 0 <= i < n ==> Decimal.IsDigit(t[i])) && (n < |t| ==> !Decimal.IsDigit(t[n]))
  {
    if t == [] || !Decimal.IsDigit(t[0]) then 0 else 1 + DigitsIn(t[1..])
  }

  function ParseNumber(t: string): (r: Option<(nat, string)>)
    ensures r.Some? ==> |r.value.1| < |t|
  {
    var n := DigitsIn(t);
    if n == 0 then None else Some((Decimal.Value(t[..n]), t[n..]))
  }

  lemma NumberInverse(n: nat, rest: string)
    requires rest != [] && !Decimal.IsDigit(rest[0])
    ensures ParseNumber(Decimal.Print(n) + rest) == Some((n, rest))
  {
    var s := Decimal.Print(n);
    var t := s + rest;
    var k := DigitsIn(t);
    assert t[|s|] == rest[0];
    assert k <= |s|;
    assert k == |s|;
    assert t[..k] == s && t[k..] == rest;
    Decimal.PrintedValue(n);
  }

  function Expect(lit: string, t: string): (r: Option<string>)
    ensures r.Some? ==> |r.value| == |t| - |lit|
  {
    if lit <= t then Some(t[|lit|..]) else None
  }

  lemma ExpectInverse(lit: string, rest: string)
    ensures Expect(lit, lit + rest) == Some(rest)
  {
  }

  // ---- The printer, as the list of texts it pushes ----

  /** Separated entries: a comma before every entry but the first. */
  function More(groups: seq<seq<string>>): (ts: seq<string>)
  {
    if groups == [] then [] else [","] + groups[0] + More(groups[1..])
  }

  function Separated(groups: seq<seq<string>>): (ts: seq<string>)
  {
    if groups == [] then [] else groups[0] + More(groups[1..])
  }

  lemma {:induction false} MoreSnoc(groups: seq<seq<string>>, g: seq<string>)
    ensures More(groups + [g]) == More(groups) + [","] + g
  {
    if groups == [] {
      assert groups + [g] == [g] && [g][1..] == [];
    } else {
      MoreSnoc(groups[1..], g);
      assert (groups + [g])[1..] == groups[1..] + [g];
    }
  }

  lemma SeparatedSnoc(groups: seq<seq<string>>, g: seq<string>)
    ensures Separated(groups + [g]) == if groups == [] then g else Separated(groups) + [","] + g
  {
    if groups == [] {
      assert groups + [g] == [g] && [g][1..] == [];
    } else {
      MoreSnoc(groups[1..], g);
      assert (groups + [g])[1..] == groups[1..] + [g];
    }
  }

  function HashGroups(hs: seq<string>): (gs: seq<seq<string>>)
    ensures |gs| == |hs| && forall i :: 0 <= i < |hs| ==> gs[i] == [Quote(hs[i])]
  {
    seq(|hs|, i requires 0 <= i < |hs| => [Quote(hs[i])])
  }

  function FileHead(fe: FileEntry): seq<string>
  {
    ["{", "\"path\":", Quote(fe.path), ",\"mode\":", Decimal.Print(fe.mode), ",\"mod_time\":", Quote(fe.modTime),
     ",\"size\":", Decimal.Print(fe.size), ",\"chunk_hashes\":["]
  }

  function FileTexts(fe: FileEntry): seq<string>
  {
    FileHead(fe) + (Separated(HashGroups(fe.chunkHashes)) + ["]", "}"])
  }

  function FileGroups(files: seq<FileEntry>): (gs: seq<seq<string>>)
    ensures |gs| == |files| && forall i :: 0 <= i < |files| ==> gs[i] == FileTexts(files[i])
  {
    seq(|files|, i requires 0 <= i < |files| => FileTexts(files[i]))
  }

  function PrintParent(parent: Option<string>): string
  {
    if parent.Some? then Quote(parent.value) else "null"
  }

  function Head(snap: SnapshotMetadata): seq<string>
  {
    ["{", "\"id\":", Quote(snap.id), ",\"parent\":", PrintParent(snap.parent), ",\"timestamp\":", Quote(snap.timestamp),
     ",\"root\":", Quote(snap.root), ",\"files\":["]
  }

  function Tail(snap: SnapshotMetadata): seq<string>
  {
    ["]", ",\"signer_pub\":", Quote(snap.signerPub), "}"]
  }

  /** The canonical text: fixed field order, no blanks, the signature left out. */
  function Canonical(snap: SnapshotMetadata): string
  {
    Flatten(Head(snap) + (Separated(FileGroups(snap.files)) + Tail(snap)))
  }

  // ---- The printing loops ----

  /** One more separated entry. */
  lemma SeparatedText(groups: seq<seq<string>>, g: seq<string>)
    ensures Flatten(Separated(groups + [g]))
         == (if groups == [] then "" else Flatten(Separated(groups)) + ",") + Flatten(g)
  {
    SeparatedSnoc(groups, g);
    if groups != [] {
      FlattenAppend(Separated(groups) + [","], g);
      FlattenSnoc(Separated(groups), ",");
    }
  }

  lemma HashStep(hs: seq<string>, i: nat)
    requires i < |hs|
    ensures Flatten(Separated(HashGroups(hs[..i + 1])))
         == (if i == 0 then "" else Flatten(Separated(HashGroups(hs[..i]))) + ",") + Quote(hs[i])
  {
    assert HashGroups(hs[..i + 1]) == HashGroups(hs[..i]) + [[Quote(hs[i])]];
    SeparatedText(HashGroups(hs[..i]), [Quote(hs[i])]);
    FlattenOne(Quote(hs[i]));
  }

  lemma NoEntries()
    ensures Flatten(Separated([])) == ""
  {
  }

  method PrintHashes(s0: string, hs: seq<string>) returns (s: string)
    ensures s == s0 + Flatten(Separated(HashGroups(hs)))
  {
    hide Flatten, Separated, Quote;
    s := s0;
    var first := true;
    ghost var text := "";
    NoEntries();
    assert HashGroups(hs[..0]) == [];
    for i := 0 to |hs|
      invariant text == Flatten(Separated(HashGroups(hs[..i]))) && s == s0 + text
      invariant first <==> i == 0
    {
      HashStep(hs, i);
      if !first {
        s, text := s + ",", text + ",";
      }
      first := false;
      s, text := s + Quote(hs[i]), (if i == 0 then "" else text) + Quote(hs[i]);
    }
    assert hs[..|hs|] == hs;
  }

  /** Several pushes in a row. */
  lemma {:induction false} PushedAll(s: string, first: seq<string>, second: seq<string>)
    ensures s + Flatten(first) + Flatten(second) == s + Flatten(first + second)
  {
    FlattenAppend(first, second);
  }

  method PrintFile(s0: string, fe: FileEntry) returns (s: string)
    ensures s == s0 + Flatten(FileTexts(fe))
  {
    s := s0 + "{";
    s := s + "\"path\":" + Quote(fe.path);
    s := s + ",\"mode\":" + Decimal.Print(fe.mode);
    s := s + ",\"mod_time\":" + Quote(fe.modTime);
    s := s + ",\"size\":" + Decimal.Print(fe.size);
    s := s + ",\"chunk_hashes\":[";
    FlattenTen(s0, FileHead(fe));
    s := PrintHashes(s, fe.chunkHashes);
    ghost var hashes := Separated(HashGroups(fe.chunkHashes));
    s := s + "]" + "}";
    FlattenTwo("]", "}");
    PushedAll(s0 + Flatten(FileHead(fe)), hashes, ["]", "}"]);
    PushedAll(s0, FileHead(fe), hashes + ["]", "}"]);
  }

  lemma FlattenTwo(a: string, b: string)
    ensures Flatten([a, b]) == a + b
  {
    assert [a, b][1..] == [b] && [b][1..] == [];
    assert Flatten([b]) == b + Flatten([]);
  }

  lemma FlattenTen(s: string, t: seq<string>)
    requires |t| == 10
    ensures s + t[0] + t[1] + t[2] + t[3] + t[4] + t[5] + t[6] + t[7] + t[8] + t[9] == s + Flatten(t)
  {
    hide Flatten;
    FlattenFive(s, t[..5]);
    FlattenFive(s + Flatten(t[..5]), t[5..]);
    assert t == t[..5] + t[5..];
    PushedAll(s, t[..5], t[5..]);
  }

  lemma FlattenFour(s: string, t: seq<string>)
    requires |t| == 4
    ensures s + t[0] + t[1] + t[2] + t[3] == s + Flatten(t)
  {
    hide Flatten;
    assert t[..2] == [t[0], t[1]] && t[2..] == [t[2], t[3]] && t == t[..2] + t[2..];
    FlattenAppend(t[..2], t[2..]);
    FlattenTwo(t[0], t[1]);
    FlattenTwo(t[2], t[3]);
  }

  lemma FlattenFive(s: string, t: seq<string>)
    requires |t| == 5
    ensures s + t[0] + t[1] + t[2] + t[3] + t[4] == s + Flatten(t)
  {
    hide Flatten;
    FlattenFour(s, t[..4]);
    assert t == t[..4] + [t[4]];
    FlattenSnoc(t[..4], t[4]);
  }

  lemma FileStep(files: seq<FileEntry>, i: nat)
    requires i < |files|
    ensures Flatten(Separated(FileGroups(files[..i + 1])))
         == (if i == 0 then "" else Flatten(Separated(FileGroups(files[..i]))) + ",") + Flatten(FileTexts(files[i]))
  {
    assert FileGroups(files[..i + 1]) == FileGroups(files[..i]) + [FileTexts(files[i])];
    SeparatedText(FileGroups(files[..i]), FileTexts(files[i]));
  }

  method PrintFiles(s0: string, files: seq<FileEntry>) returns (s: string)
    ensures s == s0 + Flatten(Separated(FileGroups(files)))
  {
    hide FileTexts, Flatten, Separated;
    s := s0;
    var first := true;
    ghost var text := "";
    NoEntries();
    assert FileGroups(files[..0]) == [];
    for i := 0 to |files|
      invariant text == Flatten(Separated(FileGroups(files[..i]))) && s == s0 + text
      invariant first <==> i == 0
    {
      FileStep(files, i);
      if !first {
        s, text := s + ",", text + ",";
      }
      first := false;
      s := PrintFile(s, files[i]);
      text := (if i == 0 then "" else text) + Flatten(FileTexts(files[i]));
    }
    assert files[..|files|] == files;
  }

  /** The bytes a signature covers. */
  function CanonicalBytes(snap: SnapshotMetadata): Bytes { Utf8.Encode(Canonical(snap)) }

  /** canonical_snapshot_bytes, push by push. */
  method CanonicalSnapshot(snap: SnapshotMetadata) returns (b: Bytes)
    ensures b == CanonicalBytes(snap)
  {
    hide Flatten, Quote, Separated, FileGroups, Utf8.Encode;
    var s := "";
    s := s + "{";
    s := s + "\"id\":" + Quote(snap.id);
    if snap.parent.Some? {
      s := s + ",\"parent\":" + Quote(snap.parent.value);
    } else {
      s := s + ",\"parent\":" + "null";
    }
    s := s + ",\"timestamp\":" + Quote(snap.timestamp);
    s := s + ",\"root\":" + Quote(snap.root);
    s := s + ",\"files\":[";
    FlattenTen("", Head(snap));
    s := PrintFiles(s, snap.files);
    ghost var files := Separated(FileGroups(snap.files));
    PushedAll("", Head(snap), files);
    assert s == Flatten(Head(snap) + files);
    s := s + "]";
    s := s + ",\"signer_pub\":" + Quote(snap.signerPub);
    s := s + "}";
    FlattenFour(Flatten(Head(snap) + files), Tail(snap));
    FlattenAppend(Head(snap) + files, Tail(snap));
    assert Head(snap) + files + Tail(snap) == Head(snap) + (files + Tail(snap));
    return Utf8.Encode(s);
  }

  // ---- The decoder ----

  type Parser<!T> = string -> Option<(T, string)>

  /** Entries after the first, each behind a comma, up to the closing bracket. */
  function ParseMore<T>(item: Parser<T>, t: string): (r: Option<(seq<T>, string)>)
    decreases |t|
  {
    if t == [] then None
    else if t[0] == ']' then Some(([], t[1..]))
    else if t[0] != ',' then None
    else
      var (x, t') :- item(t[1..]);
      if |t'| >= |t| then None
      else
        var (xs, rest) :- ParseMore(item, t');
        Some(([x] + xs, rest))
  }

  function ParseList<T>(item: Parser<T>, t: string): (r: Option<(seq<T>, string)>)
  {
    if t != [] && t[0] == ']' then Some(([], t[1..]))
    else
      var (x, t') :- item(t);
      var (xs, rest) :- ParseMore(item, t');
      Some(([x] + xs, rest))
  }

  /** `item` reads back each printed group, whatever follows it. */
  ghost predicate Reads<T(!new)>(item: Parser<T>, groups: seq<seq<string>>, xs: seq<T>)
  {
    && |groups| == |xs|
    && forall i, rest :: 0 <= i < |xs| ==> item(Flatten(groups[i]) + rest) == Some((xs[i], rest))
  }

  lemma {:induction false} MoreInverse<T(!new)>(item: Parser<T>, groups: seq<seq<string>>, xs: seq<T>, rest: string)
    requires Reads(item, groups, xs)
    ensures ParseMore(item, Flatten(More(groups)) + ("]" + rest)) == Some((xs, rest))
  {
    hide Flatten, More;
    var tail := "]" + rest;
    if xs == [] {
      NoMore(groups);
      assert Flatten(More(groups)) + tail == tail && tail[1..] == rest;
    } else {
      var after := Flatten(More(groups[1..])) + tail;
      var t := "," + (Flatten(groups[0]) + after);
      MoreText(groups, tail);
      assert t[1..] == Flatten(groups[0]) + after && t[0] == ',';
      ReadsTail(item, groups, xs);
      MoreInverse(item, groups[1..], xs[1..], rest);
      assert item(t[1..]) == Some((xs[0], after));
      assert [xs[0]] + xs[1..] == xs;
    }
  }

  lemma NoMore(groups: seq<seq<string>>)
    requires groups == []
    ensures Flatten(More(groups)) == ""
  {
  }

  lemma ReadsTail<T(!new)>(item: Parser<T>, groups: seq<seq<string>>, xs: seq<T>)
    requires Reads(item, groups, xs) && xs != []
    ensures Reads(item, groups[1..], xs[1..])
  {
    forall i, rest | 0 <= i < |xs[1..]|
      ensures item(Flatten(groups[1..][i]) + rest) == Some((xs[1..][i], rest))
    {
      assert groups[1..][i] == groups[i + 1] && xs[1..][i] == xs[i + 1];
    }
  }

  lemma MoreText(groups: seq<seq<string>>, tail: string)
    requires groups != []
    ensures Flatten(More(groups)) + tail == "," + (Flatten(groups[0]) + (Flatten(More(groups[1..])) + tail))
  {
    hide Flatten;
    var rest := More(groups[1..]);
    assert More(groups) == [","] + (groups[0] + rest);
    FlattenAppend([","], groups[0] + rest);
    FlattenAppend(groups[0], rest);
    FlattenOne(",");
    Regroup(",", Flatten(groups[0]), Flatten(rest), tail);
  }

  lemma Regroup(a: string, b: string, c: string, d: string)
    ensures (a + (b + c)) + d == a + (b + (c + d))
  {
  }

  lemma FlattenOne(a: string)
    ensures Flatten([a]) == a
  {
    assert Flatten([a]) == a + Flatten([a][1..]);
  }

  lemma ListInverse<T(!new)>(item: Parser<T>, groups: seq<seq<string>>, xs: seq<T>, rest: string)
    requires Reads(item, groups, xs)
    requires forall i :: 0 <= i < |groups| ==> Flatten(groups[i]) != [] && Flatten(groups[i])[0] != ']'
    ensures ParseList(item, Flatten(Separated(groups)) + ("]" + rest)) == Some((xs, rest))
  {
    hide Flatten, More, ParseMore;
    var tail := "]" + rest;
    if xs == [] {
      NoEntries();
      assert Flatten(Separated(groups)) + tail == tail && tail[1..] == rest;
    } else {
      var after := Flatten(More(groups[1..])) + tail;
      FlattenAppend(groups[0], More(groups[1..]));
      assert Flatten(Separated(groups)) + tail == Flatten(groups[0]) + after;
      ReadsTail(item, groups, xs);
      MoreInverse(item, groups[1..], xs[1..], rest);
      assert [xs[0]] + xs[1..] == xs;
    }
  }

  function DecodeFileHead(t: string): (r: Option<((string, nat, string, nat), string)>)
  {
    var t :- Expect("{", t);
    var t :- Expect("\"path\":", t);
    var (path, t) :- ParseString(t);
    var t :- Expect(",\"mode\":", t);
    var (mode, t) :- ParseNumber(t);
    var t :- Expect(",\"mod_time\":", t);
    var (modTime, t) :- ParseString(t);
    var t :- Expect(",\"size\":", t);
    var (size, t) :- ParseNumber(t);
    var t :- Expect(",\"chunk_hashes\":[", t);
    Some(((path, mode, modTime, size), t))
  }

  function DecodeFile(t: string): (r: Option<(FileEntry, string)>)
  {
    var ((path, mode, modTime, size), t) :- DecodeFileHead(t);
    var (hashes, t) :- ParseList(ParseString, t);
    var t :- Expect("}", t);
    Some((FileEntry(path, mode, modTime, size, hashes), t))
  }

  function ParseParent(t: string): (r: Option<(Option<string>, string)>)
  {
    if "null" <= t then Some((None, t[4..]))
    else
      var (p, t) :- ParseString(t);
      Some((Some(p), t))
  }

  function DecodeHead(t: string): (r: Option<((string, Option<string>, string, string), string)>)
  {
    var t :- Expect("{", t);
    var t :- Expect("\"id\":", t);
    var (id, t) :- ParseString(t);
    var t :- Expect(",\"parent\":", t);
    var (parent, t) :- ParseParent(t);
    var t :- Expect(",\"timestamp\":", t);
    var (timestamp, t) :- ParseString(t);
    var t :- Expect(",\"root\":", t);
    var (root, t) :- ParseString(t);
    var t :- Expect(",\"files\":[", t);
    Some(((id, parent, timestamp, root), t))
  }

  /** Reads a canonical text back; the signature, which it does not contain, is left empty. */
  function Decode(t: string): (r: Option<SnapshotMetadata>)
  {
    var ((id, parent, timestamp, root), t) :- DecodeHead(t);
    var (files, t) :- ParseList(DecodeFile, t);
    var t :- Expect(",\"signer_pub\":", t);
    var (signerPub, t) :- ParseString(t);
    var t :- Expect("}", t);
    if t == "" then Some(SnapshotMetadata(id, parent, timestamp, root, files, signerPub, "")) else None
  }

  // ---- The decoder inverts the printer ----

  /** The text from position `i` of the pushed list on, followed by `rest`. */
  function From(ts: seq<string>, i: nat, rest: string): string
    requires i <= |ts|
  {
    Flatten(ts[i..]) + rest
  }

  lemma Peel(ts: seq<string>, i: nat, rest: string)
    requires i < |ts|
    ensures From(ts, i, rest) == ts[i] + From(ts, i + 1, rest)
  {
    assert ts[i..][1..] == ts[i + 1..];
  }

  lemma PeelTen(ts: seq<string>, rest: string)
    requires |ts| == 10
    ensures Flatten(ts) + rest == From(ts, 0, rest)
    ensures forall i :: 0 <= i < 10 ==> From(ts, i, rest) == ts[i] + From(ts, i + 1, rest)
    ensures From(ts, 10, rest) == rest
  {
    assert ts[0..] == ts && ts[10..] == [];
    forall i | 0 <= i < 10 ensures From(ts, i, rest) == ts[i] + From(ts, i + 1, rest) {
      Peel(ts, i, rest);
    }
  }

  lemma FileHeadInverse(fe: FileEntry, rest: string)
    ensures DecodeFileHead(Flatten(FileHead(fe)) + rest) == Some(((fe.path, fe.mode, fe.modTime, fe.size), rest))
  {
    hide Expect, ParseString, ParseNumber, Quote, From, Decimal.Print;
    var ts := FileHead(fe);
    PeelTen(ts, rest);
    ExpectInverse(ts[0], From(ts, 1, rest));
    ExpectInverse(ts[1], From(ts, 2, rest));
    StringInverse(fe.path, From(ts, 3, rest));
    ExpectInverse(ts[3], From(ts, 4, rest));
    assert From(ts, 5, rest) == ts[5] + From(ts, 6, rest) && From(ts, 9, rest) == ts[9] + From(ts, 10, rest);
    NumberInverse(fe.mode, From(ts, 5, rest));
    ExpectInverse(ts[5], From(ts, 6, rest));
    StringInverse(fe.modTime, From(ts, 7, rest));
    ExpectInverse(ts[7], From(ts, 8, rest));
    NumberInverse(fe.size, From(ts, 9, rest));
    ExpectInverse(ts[9], From(ts, 10, rest));
  }

  lemma HashesRead(hs: seq<string>)
    ensures Reads(ParseString, HashGroups(hs), hs)
    ensures forall i :: 0 <= i < |hs| ==> Flatten(HashGroups(hs)[i]) != [] && Flatten(HashGroups(hs)[i])[0] != ']'
  {
    hide ParseString, Quote;
    forall i, rest | 0 <= i < |hs|
      ensures ParseString(Flatten(HashGroups(hs)[i]) + rest) == Some((hs[i], rest))
    {
      FlattenOne(Quote(hs[i]));
      StringInverse(hs[i], rest);
    }
    forall i | 0 <= i < |hs|
      ensures Flatten(HashGroups(hs)[i]) == Quote(hs[i])
    {
      FlattenOne(Quote(hs[i]));
    }
  }

  lemma FileText(fe: FileEntry, rest: string)
    ensures Flatten(FileTexts(fe)) + rest
         == Flatten(FileHead(fe)) + (Flatten(Separated(HashGroups(fe.chunkHashes))) + ("]" + ("}" + rest)))
  {
    hide Flatten, Separated, FileHead;
    var hashes := Separated(HashGroups(fe.chunkHashes));
    FlattenAppend(FileHead(fe), hashes + ["]", "}"]);
    FlattenAppend(hashes, ["]", "}"]);
    FlattenTwo("]", "}");
  }

  lemma FileInverse(fe: FileEntry, rest: string)
    ensures DecodeFile(Flatten(FileTexts(fe)) + rest) == Some((fe, rest))
  {
    hide DecodeFileHead, ParseList, FileHead, FileTexts, HashGroups, Separated, Flatten, Expect;
    FileText(fe, rest);
    FileHeadInverse(fe, Flatten(Separated(HashGroups(fe.chunkHashes))) + ("]" + ("}" + rest)));
    HashesRead(fe.chunkHashes);
    ListInverse(ParseString, HashGroups(fe.chunkHashes), fe.chunkHashes, "}" + rest);
    ExpectInverse("}", rest);
  }

  lemma FilesRead(files: seq<FileEntry>)
    ensures Reads(DecodeFile, FileGroups(files), files)
    ensures forall i :: 0 <= i < |files| ==>
      Flatten(FileGroups(files)[i]) != [] && Flatten(FileGroups(files)[i])[0] != ']'
  {
    hide DecodeFile;
    forall i, rest | 0 <= i < |files|
      ensures DecodeFile(Flatten(FileGroups(files)[i]) + rest) == Some((files[i], rest))
    {
      FileInverse(files[i], rest);
    }
    forall i | 0 <= i < |files|
      ensures Flatten(FileGroups(files)[i]) != [] && Flatten(FileGroups(files)[i])[0] == '{'
    {
      assert FileTexts(files[i])[0] == "{";
    }
  }

  lemma ParentInverse(parent: Option<string>, rest: string)
    ensures ParseParent(PrintParent(parent) + rest) == Some((parent, rest))
  {
    hide ParseString, Quote;
    var t := PrintParent(parent) + rest;
    if parent.Some? {
      assert t[0] == '\"';
      StringInverse(parent.value, rest);
    } else {
      assert t[..4] == "null" && t[4..] == rest;
    }
  }

  lemma HeadInverse(snap: SnapshotMetadata, rest: string)
    ensures DecodeHead(Flatten(Head(snap)) + rest) == Some(((snap.id, snap.parent, snap.timestamp, snap.root), rest))
  {
    hide Expect, ParseString, ParseParent, PrintParent, Quote, From;
    var ts := Head(snap);
    PeelTen(ts, rest);
    ExpectInverse(ts[0], From(ts, 1, rest));
    ExpectInverse(ts[1], From(ts, 2, rest));
    StringInverse(snap.id, From(ts, 3, rest));
    ExpectInverse(ts[3], From(ts, 4, rest));
    ParentInverse(snap.parent, From(ts, 5, rest));
    ExpectInverse(ts[5], From(ts, 6, rest));
    StringInverse(snap.timestamp, From(ts, 7, rest));
    ExpectInverse(ts[7], From(ts, 8, rest));
    StringInverse(snap.root, From(ts, 9, rest));
    ExpectInverse(ts[9], From(ts, 10, rest));
  }

  /** What follows the list of files. */
  function Closing(snap: SnapshotMetadata): string
  {
    ",\"signer_pub\":" + (Quote(snap.signerPub) + "}")
  }

  lemma CanonicalText(snap: SnapshotMetadata)
    ensures Canonical(snap)
         == Flatten(Head(snap)) + (Flatten(Separated(FileGroups(snap.files))) + ("]" + Closing(snap)))
  {
    hide Flatten, Separated, FileGroups, Head, Quote;
    var files := Separated(FileGroups(snap.files));
    FlattenAppend(Head(snap), files + Tail(snap));
    FlattenAppend(files, Tail(snap));
    TailText(snap);
  }

  lemma TailText(snap: SnapshotMetadata)
    ensures Flatten(Tail(snap)) == "]" + Closing(snap)
  {
    hide Flatten, Quote;
    FlattenFour("", Tail(snap));
    assert "" + Flatten(Tail(snap)) == Flatten(Tail(snap));
  }

  /** Decoding recovers the whole record except its signature. */
  lemma DecodeCanonical(snap: SnapshotMetadata)
    ensures Decode(Canonical(snap)) == Some(snap.(signature := ""))
  {
    hide Canonical, DecodeHead, DecodeFile, ParseList, ParseString, Quote, Head, Separated, FileGroups, Flatten, Expect;
    var pub := Quote(snap.signerPub);
    CanonicalText(snap);
    HeadInverse(snap, Flatten(Separated(FileGroups(snap.files))) + ("]" + Closing(snap)));
    FilesRead(snap.files);
    ListInverse(DecodeFile, FileGroups(snap.files), snap.files, Closing(snap));
    ExpectInverse(",\"signer_pub\":", pub + "}");
    StringInverse(snap.signerPub, "}");
    ExpectInverse("}", "");
    assert "}" + "" == "}";
  }

  /** Two records have the same canonical text exactly when they agree on every field but the signature. */
  lemma CanonicalInjective(a: SnapshotMetadata, b: SnapshotMetadata)
    ensures Canonical(a) == Canonical(b) <==> a.(signature := "") == b.(signature := "")
  {
    hide Canonical, Decode;
    DecodeCanonical(a);
    DecodeCanonical(b);
    SignatureNotPrinted(a);
    SignatureNotPrinted(b);
  }

  lemma SignatureNotPrinted(a: SnapshotMetadata)
    ensures Canonical(a) == Canonical(a.(signature := ""))
  {
    assert Head(a) == Head(a.(signature := "")) && Tail(a) == Tail(a.(signature := ""));
  }

  // ---- The same for the bytes ----

  function DecodeBytes(b: Bytes): (r: Option<SnapshotMetadata>)
  {
    var t :- Utf8.Decode(b);
    Decode(t)
  }

  /** The signed bytes determine the whole record except its signature. */
  lemma DecodeCanonicalBytes(snap: SnapshotMetadata)
    ensures DecodeBytes(CanonicalBytes(snap)) == Some(snap.(signature := ""))
  {
    hide Canonical, Decode, Utf8.Encode, Utf8.Decode;
    Utf8.RoundTrip(Canonical(snap));
    DecodeCanonical(snap);
  }

  /** Two records have the same canonical bytes exactly when they agree on every field but the signature. */
  lemma CanonicalBytesInjective(a: SnapshotMetadata, b: SnapshotMetadata)
    ensures CanonicalBytes(a) == CanonicalBytes(b) <==> a.(signature := "") == b.(signature := "")
  {
    hide Canonical, DecodeBytes, Utf8.Encode;
    DecodeCanonicalBytes(a);
    DecodeCanonicalBytes(b);
    SignatureNotPrinted(a);
    SignatureNotPrinted(b);
  }

  // ---- The text in full ----

  /** No quote, no backslash and no control character. */
  predicate Plain(s: string)
  {
    forall i :: 0 <= i < |s| ==> s[i] >= ' ' && s[i] != '\"' && s[i] != '\\'
  }

  lemma PlainQuote(s: string)
    requires Plain(s)
    ensures Quote(s) == "\"" + (s + "\"")
  {
    hide Escape;
    PlainIff(s);
  }

  /** A file entry of plain strings with one hash, spelled out piece by piece. */
  lemma SpelledFile(path: string, time: string, h: string)
    requires Plain(path) && Plain(time) && Plain(h)
    ensures Flatten(FileTexts(FileEntry(path, 7, time, 42, [h])))
         == ("" + "{" + "\"path\":" + ("\"" + (path + "\"")) + ",\"mode\":" + "7"
             + ",\"mod_time\":" + ("\"" + (time + "\"")) + ",\"size\":" + "42" + ",\"chunk_hashes\":[")
            + (("\"" + (h + "\"")) + ("]" + "}"))
  {
    hide Quote, Flatten, Plain;
    var fe := FileEntry(path, 7, time, 42, [h]);
    PlainQuote(path);
    PlainQuote(time);
    PlainQuote(h);
    assert Decimal.Print(7) == "7" && Decimal.Print(42) == "42";
    FileText(fe, "");
    FlattenTen("", FileHead(fe));
    OneHash(h);
    assert "]" + ("}" + "") == "]" + "}";
    assert Flatten(FileTexts(fe)) + "" == Flatten(FileTexts(fe)) && "" + Flatten(FileHead(fe)) == Flatten(FileHead(fe));
  }

  lemma OneHash(h: string)
    ensures Flatten(Separated(HashGroups([h]))) == Quote(h)
  {
    hide Quote, Flatten;
    assert HashGroups([h]) == [[Quote(h)]] && [[Quote(h)]][1..] == [];
    assert Separated(HashGroups([h])) == [Quote(h)];
    FlattenOne(Quote(h));
  }

  /** A snapshot of plain strings without parent and files, spelled out piece by piece; the signature is not in it. */
  lemma SpelledSnapshot(id: string, time: string, root: string, pub: string, signature: string)
    requires Plain(id) && Plain(time) && Plain(root) && Plain(pub)
    ensures Canonical(SnapshotMetadata(id, None, time, root, [], pub, signature))
         == ("" + "{" + "\"id\":" + ("\"" + (id + "\"")) + ",\"parent\":" + "null"
             + ",\"timestamp\":" + ("\"" + (time + "\"")) + ",\"root\":" + ("\"" + (root + "\"")) + ",\"files\":[")
            + ("]" + (",\"signer_pub\":" + (("\"" + (pub + "\"")) + "}")))
  {
    hide Quote, Flatten, Plain, Canonical;
    var snap := SnapshotMetadata(id, None, time, root, [], pub, signature);
    PlainQuote(id);
    PlainQuote(time);
    PlainQuote(root);
    PlainQuote(pub);
    CanonicalText(snap);
    FlattenTen("", Head(snap));
    NoEntries();
    assert FileGroups([]) == [];
    assert "" + Flatten(Head(snap)) == Flatten(Head(snap)) && "" + ("]" + Closing(snap)) == "]" + Closing(snap);
  }
}
