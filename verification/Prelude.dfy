/** Vocabulary shared by every component: optional values, results, bytes and list helpers. */
module Prelude {

  datatype Option<+T> = None | Some(value: T) {
    predicate IsFailure() { None? }

    function PropagateFailure<U>(): Option<U>
      requires None?
    {
      None
    }

    function Extract(): T
      requires Some?
    {
      value
    }
  }

  datatype Result<+T, +E> = Ok(value: T) | Err(error: E)

  type Bytes = seq<bv8>

  /** Concatenation of a list of lists, in order. */
  function Flatten<T>(parts: seq<seq<T>>): (whole: seq<T>)
  {
    if parts == [] then [] else parts[0] + Flatten(parts[1..])
  }

  lemma {:induction false} FlattenAppend<T>(a: seq<seq<T>>, b: seq<seq<T>>)
    ensures Flatten(a + b) == Flatten(a) + Flatten(b)
  {
    if a == [] {
      assert a + b == b;
    } else {
      assert (a + b)[1..] == a[1..] + b;
      FlattenAppend(a[1..], b);
    }
  }

  lemma FlattenSnoc<T>(a: seq<seq<T>>, x: seq<T>)
    ensures Flatten(a + [x]) == Flatten(a) + x
  {
    FlattenAppend(a, [x]);
    assert Flatten([x]) == x + Flatten([]);
  }

  /** No element occurs at two positions. */
  ghost predicate Distinct<T(!new)>(s: seq<T>)
  {
    forall i, j :: 0 <= i < j < |s| ==> s[i] != s[j]
  }

  function Elements<T>(s: seq<T>): (r: set<T>)
  {
    set x | x in s
  }

  function Max(a: int, b: int): int { if a < b then b else a }

  function Min(a: int, b: int): int { if a < b then a else b }

  /** `t` is obtained from `s` by dropping elements and keeping the order of the rest. */
  predicate Subsequence<T(==)>(t: seq<T>, s: seq<T>)
    decreases |s|
  {
    t == [] || (s != [] && if t[0] == s[0] then Subsequence(t[1..], s[1..]) else Subsequence(t, s[1..]))
  }

  /** Bytes as numbers, and back. */
  type Octet = x: int | 0 <= x < 256

  function Octets(b: Bytes): (xs: seq<Octet>)
    ensures |xs| == |b|
  {
    seq(|b|, i requires 0 <= i < |b| => b[i] as int)
  }

  function FromOctets(xs: seq<Octet>): (b: Bytes)
    ensures |b| == |xs|
  {
    seq(|xs|, i requires 0 <= i < |xs| => xs[i] as bv8)
  }

  lemma OctetsInverse(b: Bytes)
    ensures FromOctets(Octets(b)) == b
  {
    forall i | 0 <= i < |b| ensures FromOctets(Octets(b))[i] == b[i] {
      assert (b[i] as int) as bv8 == b[i];
    }
  }

  lemma FromOctetsInverse(xs: seq<Octet>)
    ensures Octets(FromOctets(xs)) == xs
  {
    forall i | 0 <= i < |xs| ensures Octets(FromOctets(xs))[i] == xs[i] {
      OctetInverse(xs[i]);
    }
  }

  lemma OctetInverse(x: Octet)
    ensures (x as bv8) as int == x
  {
    var b := ByteOf(x);
    assert (b as int) as bv8 == b;
  }

  lemma {:induction false} ByteOf(x: Octet) returns (b: bv8)
    ensures b as int == x
  {
    if x == 0 {
      b := 0;
    } else {
      b := ByteOf(x - 1);
      NextByte(b);
      b := b + 1;
    }
  }

  lemma NextByte(b: bv8)
    requires b != 255
    ensures (b + 1) as int == b as int + 1
  {
  }

  // ---- The order in which bolt visits keys ----

  /**
   * Strictly before in lexicographic order. UTF-8 keeps the order of the characters, so this is the order of the
   * bytes.
   */
  predicate Below(a: string, b: string)
  {
    b != [] && (a == [] || a[0] < b[0] || (a[0] == b[0] && Below(a[1..], b[1..])))
  }

  /** `a` and `b` agree up to `k`, and there `a` ends or has the smaller character. */
  ghost predicate DiffersAt(a: string, b: string, k: nat)
  {
    k <= |a| && k < |b| && a[..k] == b[..k] && (k == |a| || a[k] < b[k])
  }

  lemma {:induction false} BelowIff(a: string, b: string)
    ensures Below(a, b) <==> exists k: nat :: DiffersAt(a, b, k)
  {
    if a == [] || b == [] || a[0] != b[0] {
      if b != [] && (a == [] || a[0] < b[0]) { assert DiffersAt(a, b, 0); }
      if exists k: nat :: DiffersAt(a, b, k) {
        var k: nat :| DiffersAt(a, b, k);
        assert k == 0;
      }
    } else {
      BelowIff(a[1..], b[1..]);
      if Below(a, b) {
        var k: nat :| DiffersAt(a[1..], b[1..], k);
        assert a[..k + 1] == [a[0]] + a[1..][..k] && b[..k + 1] == [b[0]] + b[1..][..k];
        assert DiffersAt(a, b, k + 1);
      }
      if exists k: nat :: DiffersAt(a, b, k) {
        var k: nat :| DiffersAt(a, b, k);
        assert a[1..][..k - 1] == a[..k][1..] && b[1..][..k - 1] == b[..k][1..];
        assert DiffersAt(a[1..], b[1..], k - 1);
      }
    }
  }

  lemma {:induction false} BelowTotal(a: string, b: string)
    ensures a == b || Below(a, b) || Below(b, a)
  {
    if a != [] && b != [] && a[0] == b[0] {
      BelowTotal(a[1..], b[1..]);
      if a[1..] == b[1..] { assert a == [a[0]] + a[1..] && b == [b[0]] + b[1..]; }
    }
  }

  lemma {:induction false} BelowTransitive(a: string, b: string, c: string)
    requires Below(a, b) && Below(b, c)
    ensures Below(a, c)
  {
    if a != [] && a[0] == b[0] && b[0] == c[0] { BelowTransitive(a[1..], b[1..], c[1..]); }
  }

  predicate IsLeast(k: string, xs: set<string>) { k in xs && forall x :: x in xs ==> x == k || Below(k, x) }

  lemma {:induction false} LeastExists(xs: set<string>)
    requires xs != {}
    ensures exists k :: IsLeast(k, xs)
  {
    var x :| x in xs;
    if xs == {x} {
      assert IsLeast(x, xs);
    } else {
      LeastExists(xs - {x});
      var k :| IsLeast(k, xs - {x});
      BelowTotal(k, x);
      var least := if Below(x, k) then x else k;
      forall y | y in xs && y != least ensures Below(least, y) {
        if y != x && y != k && least == x { BelowTransitive(x, k, y); }
      }
      assert IsLeast(least, xs);
    }
  }

  method Least(xs: set<string>) returns (k: string)
    requires xs != {}
    ensures IsLeast(k, xs)
  {
    hide Below;
    LeastExists(xs);
    ghost var least :| IsLeast(least, xs);
    assert least in xs && forall x :: x in xs ==> x == least || Below(least, x);
    k :| k in xs && forall x :: x in xs ==> x == k || Below(k, x);
  }

  ghost predicate Ascending(keys: seq<string>)
  {
    forall i, j :: 0 <= i < j < |keys| ==> Below(keys[i], keys[j])
  }

  /** The keys of a bucket as bolt visits them: each once, in ascending order. */
  method InOrder(xs: set<string>) returns (keys: seq<string>)
    ensures Distinct(keys) && Ascending(keys) && forall x :: x in keys <==> x in xs
  {
    hide Below, Distinct, Ascending;
    keys := [];
    var todo := xs;
    assert Distinct(keys) && Ascending(keys) by { Nothing(keys); }
    while todo != {}
      invariant Distinct(keys) && Ascending(keys) && todo <= xs
      invariant forall x :: x in keys <==> x in xs && x !in todo
      invariant forall y, x :: y in keys && x in todo ==> Below(y, x)
      decreases |todo|
    {
      var k := Least(todo);
      OneMore(keys, k);
      keys, todo := keys + [k], todo - {k};
    }
  }

  lemma Nothing(keys: seq<string>)
    requires keys == []
    ensures Distinct(keys) && Ascending(keys)
  {
  }

  lemma OneMore(keys: seq<string>, k: string)
    requires Distinct(keys) && Ascending(keys) && k !in keys && forall y :: y in keys ==> Below(y, k)
    ensures Distinct(keys + [k]) && Ascending(keys + [k])
  {
    hide Below;
  }
}
