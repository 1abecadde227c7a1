/**
 The order of object keys: by UTF-16 code units, compared as the program does through their
 big-endian bytes.
 */
module KeyOrder {

  // ---------- lexicographic order ----------

  predicate LexLess(a: seq<int>, b: seq<int>) {
    b != [] && (a == [] || a[0] < b[0] || (a[0] == b[0] && LexLess(a[1..], b[1..])))
  }

  lemma {:induction false} LexIrreflexive(a: seq<int>)
    ensures !LexLess(a, a)
  {
    if a != [] {
      LexIrreflexive(a[1..]);
    }
  }

  lemma {:induction false} LexTransitive(a: seq<int>, b: seq<int>, c: seq<int>)
    requires LexLess(a, b) && LexLess(b, c)
    ensures LexLess(a, c)
  {
    if a != [] && a[0] == b[0] == c[0] {
      LexTransitive(a[1..], b[1..], c[1..]);
    }
  }

  lemma {:induction false} LexTotal(a: seq<int>, b: seq<int>)
    ensures a == b || LexLess(a, b) || LexLess(b, a)
  {
    if a != [] && b != [] && a[0] == b[0] {
      LexTotal(a[1..], b[1..]);
      assert a == [a[0]] + a[1..] && b == [b[0]] + b[1..];
    }
  }

  // ---------- UTF-16 ----------

  /** One code unit, or a surrogate pair. */
  function CharUnits(c: char): (u: seq<int>)
    ensures |u| == 1 || |u| == 2
    ensures forall i :: 0 <= i < |u| ==> 0 <= u[i] < 0x10000
    ensures |u| == 2 <==> 0xD800 <= u[0] < 0xDC00
    ensures |u| == 1 ==> u[0] == c as int
    ensures |u| == 2 ==> 0xDC00 <= u[1] < 0xE000 && 0x10000 + 0x400 * (u[0] - 0xD800) + (u[1] - 0xDC00) == c as int
  {
    var n := c as int;
    if n < 0x10000 then [n] else [0xD800 + (n - 0x10000) / 0x400, 0xDC00 + (n - 0x10000) % 0x400]
  }

  function Units(s: string): (u: seq<int>)
    ensures forall i :: 0 <= i < |u| ==> 0 <= u[i] < 0x10000
    ensures s != "" ==> u != []
  {
    if s == "" then [] else CharUnits(s[0]) + Units(s[1..])
  }

  /** Every unit as two bytes, high byte first. */
  function BigEndian(u: seq<int>): seq<int> {
    if u == [] then [] else [u[0] / 256, u[0] % 256] + BigEndian(u[1..])
  }

  /** What the program sorts by. */
  function SortKey(s: string): seq<int> {
    BigEndian(Units(s))
  }

  /** Comparing big-endian bytes is comparing code units. */
  lemma {:induction false} BytesOrderIsUnitOrder(a: seq<int>, b: seq<int>)
    requires forall i :: 0 <= i < |a| ==> 0 <= a[i] < 0x10000
    requires forall i :: 0 <= i < |b| ==> 0 <= b[i] < 0x10000
    ensures LexLess(BigEndian(a), BigEndian(b)) <==> LexLess(a, b)
  {
    if a != [] && b != [] {
      BytesOrderIsUnitOrder(a[1..], b[1..]);
      FirstUnit(a[0], b[0], BigEndian(a[1..]), BigEndian(b[1..]));
    }
  }

  lemma FirstUnit(x: int, y: int, rest: seq<int>, rest': seq<int>)
    requires 0 <= x < 0x10000 && 0 <= y < 0x10000
    ensures LexLess([x / 256, x % 256] + rest, [y / 256, y % 256] + rest') <==> x < y || (x == y && LexLess(rest, rest'))
  {
    var a, b := [x / 256, x % 256] + rest, [y / 256, y % 256] + rest';
    assert a[1..][0] == x % 256 && b[1..][0] == y % 256;
    assert a[1..][1..] == rest && b[1..][1..] == rest';
    assert x == 256 * (x / 256) + x % 256 && y == 256 * (y / 256) + y % 256;
  }

  lemma CharUnitsInjective(c: char, d: char)
    requires CharUnits(c) == CharUnits(d)
    ensures c == d
  {
    if |CharUnits(c)| == 2 {
      assert c as int - 0x10000 == 0x400 * ((c as int - 0x10000) / 0x400) + (c as int - 0x10000) % 0x400;
      assert d as int - 0x10000 == 0x400 * ((d as int - 0x10000) / 0x400) + (d as int - 0x10000) % 0x400;
    }
  }

  lemma {:induction false} UnitsInjective(s: string, t: string)
    requires Units(s) == Units(t)
    ensures s == t
  {
    if s != "" && t != "" {
      var u := Units(s);
      assert u[0] == CharUnits(s[0])[0] == CharUnits(t[0])[0];
      assert CharUnits(s[0]) == u[..|CharUnits(s[0])|] && CharUnits(t[0]) == u[..|CharUnits(t[0])|];
      assert Units(s[1..]) == u[|CharUnits(s[0])|..] && Units(t[1..]) == u[|CharUnits(t[0])|..];
      CharUnitsInjective(s[0], t[0]);
      UnitsInjective(s[1..], t[1..]);
      assert s == [s[0]] + s[1..] && t == [t[0]] + t[1..];
    }
  }

  predicate KeyLess(a: string, b: string) {
    LexLess(SortKey(a), SortKey(b))
  }

  /** The program's key comparison is the standard's order by UTF-16 code units. */
  lemma KeyOrderIsUnitOrder(a: string, b: string)
    ensures KeyLess(a, b) <==> LexLess(Units(a), Units(b))
  {
    BytesOrderIsUnitOrder(Units(a), Units(b));
  }

  // ---------- the order spelled out ----------

  /** Equal before position k, where a has ended or has the smaller entry. */
  ghost predicate SmallerAt(a: seq<int>, b: seq<int>, k: nat) {
    k <= |a| && k < |b| && a[..k] == b[..k] && (k == |a| || a[k] < b[k])
  }

  lemma {:induction false} LexIsSmallerSomewhere(a: seq<int>, b: seq<int>) returns (k: nat)
    requires LexLess(a, b)
    ensures SmallerAt(a, b, k)
  {
    if a == [] || a[0] < b[0] {
      k := 0;
    } else {
      k := LexIsSmallerSomewhere(a[1..], b[1..]);
      assert a[..k + 1] == [a[0]] + a[1..][..k] && b[..k + 1] == [b[0]] + b[1..][..k];
      k := k + 1;
    }
  }

  lemma {:induction false} SmallerSomewhereIsLex(a: seq<int>, b: seq<int>, k: nat)
    requires SmallerAt(a, b, k)
    ensures LexLess(a, b)
  {
    if k > 0 {
      assert a[0] == a[..k][0] && b[0] == b[..k][0];
      assert a[1..][..k - 1] == a[..k][1..] && b[1..][..k - 1] == b[..k][1..];
      SmallerSomewhereIsLex(a[1..], b[1..], k - 1);
    }
  }

  /** At the first place where the code units of the two keys differ, a's is smaller or a has ended. */
  ghost predicate ComesBefore(a: string, b: string) {
    exists k: nat ::
      && k <= |Units(a)| && k < |Units(b)|
      && Units(a)[..k] == Units(b)[..k]
      && (k == |Units(a)| || Units(a)[k] < Units(b)[k])
  }

  /** Sorting by big-endian bytes puts a before b exactly at such a first difference. */
  lemma KeyOrderIsFirstDifference(a: string, b: string)
    ensures KeyLess(a, b) <==> ComesBefore(a, b)
  {
    hide LexLess, KeyLess, Units;
    KeyOrderIsUnitOrder(a, b);
    if LexLess(Units(a), Units(b)) {
      var k := LexIsSmallerSomewhere(Units(a), Units(b));
    }
    if k: nat :| SmallerAt(Units(a), Units(b), k) {
      SmallerSomewhereIsLex(Units(a), Units(b), k);
    }
    assert ComesBefore(a, b) ==> exists k: nat :: SmallerAt(Units(a), Units(b), k) by {
      if ComesBefore(a, b) {
        var k: nat :|
          && k <= |Units(a)| && k < |Units(b)|
          && Units(a)[..k] == Units(b)[..k]
          && (k == |Units(a)| || Units(a)[k] < Units(b)[k]);
        assert SmallerAt(Units(a), Units(b), k);
      }
    }
  }

  lemma {:induction false} UnitsAppend(a: string, b: string)
    ensures Units(a + b) == Units(a) + Units(b)
  {
    hide CharUnits;
    if a == "" {
      assert a + b == b;
    } else {
      assert (a + b)[1..] == a[1..] + b;
      UnitsAppend(a[1..], b);
    }
  }

  /** A key comes before every longer key that starts with it. */
  lemma PrefixComesFirst(a: string, s: string)
    requires s != ""
    ensures KeyLess(a, a + s)
  {
    hide KeyLess, Units;
    UnitsAppend(a, s);
    var k := |Units(a)|;
    assert Units(s) != [] by { SomeUnit(s); }
    assert Units(a)[..k] == Units(a + s)[..k];
    KeyOrderIsFirstDifference(a, a + s);
  }

  lemma SomeUnit(s: string)
    requires s != ""
    ensures Units(s) != []
  {
  }

  /** A strict total order on keys. */
  lemma KeyOrderIsStrictTotal(a: string, b: string, c: string)
    ensures !KeyLess(a, a)
    ensures KeyLess(a, b) && KeyLess(b, c) ==> KeyLess(a, c)
    ensures a == b || KeyLess(a, b) || KeyLess(b, a)
  {
    hide LexLess, Units;
    KeyOrderIsUnitOrder(a, a);
    KeyOrderIsUnitOrder(a, b);
    KeyOrderIsUnitOrder(b, a);
    KeyOrderIsUnitOrder(b, c);
    KeyOrderIsUnitOrder(a, c);
    LexIrreflexive(Units(a));
    LexTotal(Units(a), Units(b));
    if KeyLess(a, b) && KeyLess(b, c) {
      LexTransitive(Units(a), Units(b), Units(c));
    }
    if Units(a) == Units(b) {
      UnitsInjective(a, b);
    }
  }
}
