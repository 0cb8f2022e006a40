/** internal/ratelimit/limiter.go: the X-Forwarded-For parser and the resource accounting. */
module RateLimit {
  import opened Prelude

  // ---- Trimming ----

  predicate Blank(c: char) { c == ' ' || c == '\t' }

  predicate AllBlank(s: string) { forall i :: 0 <= i < |s| ==> Blank(s[i]) }

  /** Nothing to trim at either end. */
  predicate Trimmed(s: string) { s == [] || (!Blank(s[0]) && !Blank(s[|s| - 1])) }

  function TrimLeft(s: string): string { if s != [] && Blank(s[0]) then TrimLeft(s[1..]) else s }

  function TrimRight(s: string): string { if s != [] && Blank(s[|s| - 1]) then TrimRight(s[..|s| - 1]) else s }

  function Trim(s: string): string { TrimRight(TrimLeft(s)) }

  method TrimBlanks(s: string) returns (t: string)
    ensures t == Trim(s)
  {
    var start, end := 0, |s|;
    while start < end && (s[start] == ' ' || s[start] == '\t')
      invariant 0 <= start <= end == |s|
      invariant TrimLeft(s) == TrimLeft(s[start..])
    {
      assert s[start..][1..] == s[start + 1..];
      start := start + 1;
    }
    assert s[start..end] == s[start..] && TrimLeft(s[start..]) == s[start..];
    while start < end && (s[end - 1] == ' ' || s[end - 1] == '\t')
      invariant start <= end <= |s|
      invariant Trim(s) == TrimRight(s[start..end])
    {
      assert s[start..end][..end - 1 - start] == s[start..end - 1];
      end := end - 1;
    }
    return s[start..end];
  }

  lemma {:induction false} TrimLeftPadded(a: string, x: string)
    requires AllBlank(a)
    ensures TrimLeft(a + x) == TrimLeft(x)
  {
    if a == [] {
      assert a + x == x;
    } else {
      assert (a + x)[1..] == a[1..] + x;
      TrimLeftPadded(a[1..], x);
    }
  }

  lemma {:induction false} TrimRightPadded(x: string, b: string)
    requires AllBlank(b)
    ensures TrimRight(x + b) == TrimRight(x)
  {
    if b == [] {
      assert x + b == x;
    } else {
      assert (x + b)[..|x + b| - 1] == x + b[..|b| - 1];
      TrimRightPadded(x, b[..|b| - 1]);
    }
  }

  /** Blanks around a trimmed, non-empty text are exactly what trimming removes. */
  lemma TrimPadded(a: string, x: string, b: string)
    requires AllBlank(a) && AllBlank(b) && Trimmed(x) && x != []
    ensures Trim(a + x + b) == x
  {
    assert a + x + b == a + (x + b);
    TrimLeftPadded(a, x + b);
    assert TrimLeft(x + b) == x + b;
    TrimRightPadded(x, b);
  }

  /** Trimming cuts blanks off both ends, and nothing else. */
  lemma {:induction false} TrimCutsBlanks(s: string) returns (a: string, b: string)
    ensures s == a + Trim(s) + b && AllBlank(a) && AllBlank(b) && Trimmed(Trim(s))
  {
    a := LeftBlanks(s);
    b := RightBlanks(TrimLeft(s));
    assert s == a + (Trim(s) + b);
    if Trim(s) != [] { assert Trim(s)[0] == TrimLeft(s)[0]; }
  }

  lemma {:induction false} LeftBlanks(s: string) returns (a: string)
    ensures s == a + TrimLeft(s) && AllBlank(a) && (TrimLeft(s) != [] ==> !Blank(TrimLeft(s)[0]))
  {
    if s != [] && Blank(s[0]) {
      a := LeftBlanks(s[1..]);
      a := [s[0]] + a;
    } else {
      a := [];
    }
  }

  lemma {:induction false} RightBlanks(s: string) returns (b: string)
    ensures s == TrimRight(s) + b && AllBlank(b) && (TrimRight(s) != [] ==> !Blank(TrimRight(s)[|TrimRight(s)| - 1]))
  {
    if s != [] && Blank(s[|s| - 1]) {
      b := RightBlanks(s[..|s| - 1]);
      assert s == s[..|s| - 1] + [s[|s| - 1]];
      b := b + [s[|s| - 1]];
    } else {
      b := [];
    }
  }

  // ---- Splitting ----

  /** The position of the first separator, or the length. */
  function Find(s: string, sep: char): (j: nat)
    ensures j <= |s| && (forall k :: 0 <= k < j ==> s[k] != sep) && (j < |s| ==> s[j] == sep)
  {
    if s == [] || s[0] == sep then 0 else 1 + Find(s[1..], sep)
  }

  /** Ordinary splitting: one field more than there are separators. */
  function Fields(s: string, sep: char): (fs: seq<string>)
  {
    var j := Find(s, sep);
    if j == |s| then [s] else [s[..j]] + Fields(s[j + 1..], sep)
  }

  /** What splitAndTrim computes: no field after a separator that ends the text, none for the empty text. */
  function SplitTrimmed(s: string, sep: char): (fs: seq<string>)
  {
    if s == [] then []
    else
      var j := Find(s, sep);
      [Trim(s[..j])] + if j == |s| then [] else SplitTrimmed(s[j + 1..], sep)
  }

  function TrimAll(fs: seq<string>): seq<string>
  {
    if fs == [] then [] else [Trim(fs[0])] + TrimAll(fs[1..])
  }

  function NonEmpty(fs: seq<string>): seq<string>
  {
    if fs == [] then [] else (if fs[0] == [] then [] else [fs[0]]) + NonEmpty(fs[1..])
  }

  method SplitAndTrim(s: string, sep: char) returns (parts: seq<string>)
    ensures parts == SplitTrimmed(s, sep)
  {
    hide SplitTrimmed, Trim, Find;
    parts := [];
    var i := 0;
    assert s[0..] == s;
    while i < |s|
      invariant 0 <= i <= |s| + 1
      invariant SplitTrimmed(s, sep) == parts + if i <= |s| then SplitTrimmed(s[i..], sep) else []
    {
      var j := i;
      while j < |s| && s[j] != sep
        invariant i <= j <= |s| && forall k :: i <= k < j ==> s[k] != sep
      {
        j := j + 1;
      }
      SplitStep(s, sep, i, j);
      var part := TrimBlanks(s[i..j]);
      parts := parts + [part];
      i := j + 1;
    }
    SplitEnd(s, sep);
  }

  lemma SplitStep(s: string, sep: char, i: nat, j: nat)
    requires i <= j <= |s| && i < |s| && (forall k :: i <= k < j ==> s[k] != sep) && (j < |s| ==> s[j] == sep)
    ensures SplitTrimmed(s[i..], sep) == [Trim(s[i..j])] + if j == |s| then [] else SplitTrimmed(s[j + 1..], sep)
  {
    hide Trim, Find;
    FindIs(s[i..], sep, j - i);
    assert s[i..][..j - i] == s[i..j];
    assert j < |s| ==> s[i..][j - i + 1..] == s[j + 1..];
  }

  lemma SplitEnd(s: string, sep: char)
    ensures SplitTrimmed(s[|s|..], sep) == []
  {
  }

  lemma FindIs(s: string, sep: char, j: nat)
    requires j <= |s| && (forall k :: 0 <= k < j ==> s[k] != sep) && (j < |s| ==> s[j] == sep)
    ensures Find(s, sep) == j
  {
  }

  lemma {:induction false} NonEmptyAppend(a: seq<string>, b: seq<string>)
    ensures NonEmpty(a + b) == NonEmpty(a) + NonEmpty(b)
  {
    if a == [] {
      assert a + b == b;
    } else {
      assert (a + b)[1..] == a[1..] + b;
      NonEmptyAppend(a[1..], b);
    }
  }

  method ParseXff(xff: string) returns (ips: seq<string>)
    ensures ips == NonEmpty(SplitTrimmed(xff, ','))
  {
    var parts := SplitAndTrim(xff, ',');
    ips := [];
    for i := 0 to |parts|
      invariant ips == NonEmpty(parts[..i])
    {
      assert parts[..i + 1] == parts[..i] + [parts[i]];
      NonEmptyAppend(parts[..i], [parts[i]]);
      assert NonEmpty([parts[i]]) == if parts[i] == [] then [] else [parts[i]];
      if parts[i] != "" { ips := ips + [parts[i]]; }
    }
    assert parts[..|parts|] == parts;
  }

  /** For the parser the missing last field makes no difference: it is split, trim each, drop the empty ones. */
  lemma {:induction false} ParsesFields(s: string, sep: char)
    ensures NonEmpty(SplitTrimmed(s, sep)) == NonEmpty(TrimAll(Fields(s, sep)))
  {
    var j := Find(s, sep);
    if s == [] {
      assert Fields(s, sep) == [s] && [s][1..] == [];
      assert TrimAll([s]) == [Trim(s)] + [] && [Trim(s)][1..] == [];
    } else if j == |s| {
      assert s[..j] == s && [s][1..] == [];
      assert TrimAll([s]) == [Trim(s)] + TrimAll([]);
    } else {
      ParsesFields(s[j + 1..], sep);
      var rest := Fields(s[j + 1..], sep);
      assert ([s[..j]] + rest)[1..] == rest;
      NonEmptyAppend([Trim(s[..j])], TrimAll(rest));
      NonEmptyAppend([Trim(s[..j])], SplitTrimmed(s[j + 1..], sep));
    }
  }

  // ---- Printing a header and parsing it back ----

  /** One entry with blanks around it. */
  datatype Entry = Entry(left: string, item: string, right: string)
  {
    function Text(): string { left + item + right }

    predicate Valid() { AllBlank(left) && AllBlank(right) && item != [] && Trimmed(item) && ',' !in item }
  }

  function Header(es: seq<Entry>): string
  {
    if es == [] then [] else if |es| == 1 then es[0].Text() else es[0].Text() + "," + Header(es[1..])
  }

  function Items(es: seq<Entry>): (xs: seq<string>)
  {
    if es == [] then [] else [es[0].item] + Items(es[1..])
  }

  /** Any list of non-empty, trimmed, comma-free items is recovered from its padded, comma-joined header. */
  lemma {:induction false} HeaderRoundTrip(es: seq<Entry>)
    requires forall i :: 0 <= i < |es| ==> es[i].Valid()
    ensures NonEmpty(SplitTrimmed(Header(es), ',')) == Items(es)
  {
    if es != [] {
      var e, rest := es[0], es[1..];
      var text, h := e.Text(), Header(es);
      TrimPadded(e.left, e.item, e.right);
      assert forall k :: 0 <= k < |text| ==> text[k] != ',' by {
        assert e.Valid();
      }
      HeaderRoundTrip(rest);
      FindIs(h, ',', |text|);
      assert h[..|text|] == text;
      if |es| == 1 {
        assert rest == [] && h == text;
        assert SplitTrimmed(h, ',') == [e.item];
        assert [e.item][1..] == [];
      } else {
        assert h[|text| + 1..] == Header(rest);
        NonEmptyAppend([e.item], SplitTrimmed(Header(rest), ','));
        assert [e.item][1..] == [];
      }
    }
  }

  /** In plain characters: items without comma, space and tab, padded with spaces and tabs, are recovered. */
  lemma PlainHeaderRoundTrip(es: seq<Entry>)
    requires forall i :: 0 <= i < |es| ==>
      es[i].item != "" && ',' !in es[i].item && ' ' !in es[i].item && '\t' !in es[i].item
    requires forall i :: 0 <= i < |es| ==>
      && (forall k :: 0 <= k < |es[i].left| ==> es[i].left[k] == ' ' || es[i].left[k] == '\t')
      && (forall k :: 0 <= k < |es[i].right| ==> es[i].right[k] == ' ' || es[i].right[k] == '\t')
    ensures NonEmpty(SplitTrimmed(Header(es), ',')) == Items(es)
  {
    HeaderRoundTrip(es);
  }

  // ---- Memory accounting in 64-bit integers ----

  const TWO_63: int := 0x8000_0000_0000_0000
  const TWO_64: int := 0x1_0000_0000_0000_0000

  predicate IsInt64(x: int) { -TWO_63 <= x < TWO_63 }

  /** Two's complement wrap-around. */
  function Wrap(x: int): (r: int)
    ensures -0x8000_0000_0000_0000 <= r < 0x8000_0000_0000_0000 && (x - r) % 0x1_0000_0000_0000_0000 == 0
    ensures IsInt64(x) ==> r == x
  {
    (x + TWO_63) % TWO_64 - TWO_63
  }

  predicate Admits(current: int, max: int, bytes: int) { Wrap(current + bytes) <= max }

  function AfterRelease(current: int, bytes: int): int { Max(0, Wrap(current - bytes)) }

  class ResourceLimiter {
    const maxMemory: int
    var currentMemory: int

    constructor (maxMemory: int)
      ensures this.maxMemory == maxMemory && currentMemory == 0
    {
      this.maxMemory, currentMemory := maxMemory, 0;
    }

    method AllocateMemory(bytes: int) returns (ok: bool)
      modifies this
      ensures ok <==> Admits(old(currentMemory), maxMemory, bytes)
      ensures currentMemory == if ok then Wrap(old(currentMemory) + bytes) else old(currentMemory)
    {
      if Wrap(currentMemory + bytes) > maxMemory { return false; }
      currentMemory := Wrap(currentMemory + bytes);
      return true;
    }

    method ReleaseMemory(bytes: int)
      modifies this
      ensures currentMemory == AfterRelease(old(currentMemory), bytes)
    {
      currentMemory := Wrap(currentMemory - bytes);
      if currentMemory < 0 { currentMemory := 0; }
    }
  }

  /** The limit is enforced as intended exactly when the sum does not leave the 64-bit range. */
  lemma AdmissionExactIff(current: int, max: int, bytes: int)
    requires 0 <= current <= max < TWO_63 && 0 <= bytes < TWO_63
    ensures (Admits(current, max, bytes) <==> current + bytes <= max) <==> current + bytes < TWO_63
  {
    if current + bytes >= TWO_63 {
      assert Wrap(current + bytes) == current + bytes - TWO_64;
    }
  }

  /** Callers: allocate some bytes, or release an allocation that is still outstanding, by position. */
  datatype Request = Allocate(bytes: int) | Release(slot: nat)

  datatype Ledger = Ledger(current: int, held: seq<int>)

  function Serve(l: Ledger, max: int, r: Request): Ledger
  {
    match r
    case Allocate(bytes) =>
      if Admits(l.current, max, bytes) then Ledger(Wrap(l.current + bytes), l.held + [bytes]) else l
    case Release(k) =>
      if k < |l.held| then Ledger(AfterRelease(l.current, l.held[k]), l.held[..k] + l.held[k + 1..]) else l
  }

  function ServeAll(l: Ledger, max: int, rs: seq<Request>): Ledger
    decreases |rs|
  {
    if rs == [] then l else ServeAll(Serve(l, max, rs[0]), max, rs[1..])
  }

  function Sum(xs: seq<int>): int { if xs == [] then 0 else xs[0] + Sum(xs[1..]) }

  lemma {:induction false} SumAppend(a: seq<int>, b: seq<int>)
    ensures Sum(a + b) == Sum(a) + Sum(b)
  {
    if a == [] {
      assert a + b == b;
    } else {
      assert (a + b)[1..] == a[1..] + b;
      SumAppend(a[1..], b);
    }
  }

  lemma SumRemove(xs: seq<int>, k: nat)
    requires k < |xs|
    ensures Sum(xs) == xs[k] + Sum(xs[..k] + xs[k + 1..])
  {
    hide Sum;
    var before, after := xs[..k], xs[k + 1..];
    assert xs == before + ([xs[k]] + after);
    SumAppend(before, [xs[k]] + after);
    SumAppend([xs[k]], after);
    SumOne(xs[k]);
    SumAppend(before, after);
  }

  lemma SumOne(x: int)
    ensures Sum([x]) == x
  {
    assert [x][1..] == [];
  }

  lemma {:induction false} SumNonNegative(xs: seq<int>)
    requires forall i :: 0 <= i < |xs| ==> xs[i] >= 0
    ensures Sum(xs) >= 0
  {
    if xs != [] { SumNonNegative(xs[1..]); }
  }

  ghost predicate Balanced(l: Ledger, max: int)
  {
    && (forall i :: 0 <= i < |l.held| ==> l.held[i] >= 0)
    && l.current == Sum(l.held) && 0 <= l.current <= max
  }

  /** The sum that admission computes for this request fits into 64 bits. */
  predicate Fits(l: Ledger, r: Request) { r.Allocate? ==> l.current + r.bytes < TWO_63 }

  predicate NoOverflow(l: Ledger, max: int, rs: seq<Request>)
    decreases |rs|
  {
    rs == [] || (Fits(l, rs[0]) && NoOverflow(Serve(l, max, rs[0]), max, rs[1..]))
  }

  /** The books are right before, between and after all requests. */
  ghost predicate AlwaysBalanced(l: Ledger, max: int, rs: seq<Request>)
    decreases |rs|
  {
    Balanced(l, max) && (rs == [] || AlwaysBalanced(Serve(l, max, rs[0]), max, rs[1..]))
  }

  lemma ServeBalancedIff(l: Ledger, max: int, r: Request)
    requires Balanced(l, max) && max < TWO_63
    requires r.Allocate? ==> 0 <= r.bytes < TWO_63
    ensures Balanced(Serve(l, max, r), max) <==> Fits(l, r)
  {
    match r
    case Allocate(bytes) =>
      SumAppend(l.held, [bytes]);
      SumOne(bytes);
      if l.current + bytes >= TWO_63 { assert Wrap(l.current + bytes) == l.current + bytes - TWO_64; }
    case Release(k) =>
      if k < |l.held| {
        SumRemove(l.held, k);
        SumNonNegative(l.held[..k] + l.held[k + 1..]);
      }
  }

  /**
   * Over any history of allocations and of releases of what is held, the counter is always the sum held and within
   * the limit if and only if no allocation makes the sum leave the 64-bit range.
   */
  lemma {:induction false} AccountingExactIff(l: Ledger, max: int, rs: seq<Request>)
    requires Balanced(l, max) && max < TWO_63
    requires forall i :: 0 <= i < |rs| && rs[i].Allocate? ==> 0 <= rs[i].bytes < TWO_63
    ensures AlwaysBalanced(l, max, rs) <==> NoOverflow(l, max, rs)
    decreases |rs|
  {
    hide Balanced, Serve;
    if rs != [] {
      ServeBalancedIff(l, max, rs[0]);
      if Fits(l, rs[0]) { AccountingExactIff(Serve(l, max, rs[0]), max, rs[1..]); }
    }
  }

  /** So without overflow the books are right at the end. */
  lemma {:induction false} AccountingIsExact(l: Ledger, max: int, rs: seq<Request>)
    requires Balanced(l, max) && max < TWO_63 && NoOverflow(l, max, rs)
    requires forall i :: 0 <= i < |rs| && rs[i].Allocate? ==> 0 <= rs[i].bytes < TWO_63
    ensures Balanced(ServeAll(l, max, rs), max)
    decreases |rs|
  {
    hide Balanced, Serve;
    if rs != [] {
      ServeBalancedIff(l, max, rs[0]);
      AccountingIsExact(Serve(l, max, rs[0]), max, rs[1..]);
    }
  }

  /** One huge request on top of a single byte wraps around and is let in. */
  lemma OverflowIsAdmitted()
    ensures Admits(1, 536_870_912, TWO_63 - 1) && Wrap(1 + (TWO_63 - 1)) < 0
  {
    assert Wrap(TWO_63) == -TWO_63;
  }
}
