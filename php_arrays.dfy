/** The part of PHP's value model the provider relies on: the values that
    appear in an options array or a decoded token response, the language
    constructs `empty` and `isset`, string conversion, and `array_intersect`
    on lists of strings. */
module PhpArrays {

  /** A PHP value. The only arrays represented are lists of strings, which is
      the shape of a scope list; floats and objects are not represented. */
  datatype Value = Null | Bool(b: bool) | Int(i: int) | Str(s: string) | List(items: seq<string>)

  /** `empty($v)` on a value that exists: null, false, 0, "", "0" and []. */
  predicate Empty(v: Value)
  {
    match v
    case Null => true
    case Bool(b) => !b
    case Int(i) => i == 0
    case Str(s) => s == "" || s == "0"
    case List(items) => items == []
  }

  /** `empty($m[$k])`: an absent key reads as empty, without a notice. */
  predicate EmptyAt(m: map<string, Value>, k: string)
  {
    k !in m || Empty(m[k])
  }

  /** `isset($m[$k])`: the key is present and its value is not null. */
  predicate IsSet(m: map<string, Value>, k: string)
  {
    k in m && m[k] != Null
  }

  /** `$m[$k]` read as an rvalue: an absent key yields null (with a notice). */
  function Lookup(m: map<string, Value>, k: string): (v: Value)
    ensures k in m ==> v == m[k]
    ensures k !in m ==> v == Null
  {
    if k in m then m[k] else Null
  }

  /** Two arrays agree on key `k`: both lack it, or both hold the same value. */
  predicate SameAt(m: map<string, Value>, m': map<string, Value>, k: string)
  {
    (k in m <==> k in m') && (k in m ==> m[k] == m'[k])
  }

  /** Decimal digits of a natural number, most significant first, without
      leading zeros. */
  function NatString(n: nat): (s: string)
    ensures |s| >= 1
    ensures forall i :: 0 <= i < |s| ==> '0' <= s[i] <= '9'
    ensures n >= 1 ==> s[0] != '0'
  {
    if n < 10 then [(48 + n) as char] else NatString(n / 10) + [(48 + n % 10) as char]
  }

  /** The number a string of decimal digits denotes, most significant first. */
  function DecimalValue(s: string): int
  {
    if s == [] then 0 else 10 * DecimalValue(s[..|s| - 1]) + (s[|s| - 1] as int - 48)
  }

  /** The digits of `NatString(n)` denote `n`. */
  lemma {:induction false} NatStringValue(n: nat)
    ensures DecimalValue(NatString(n)) == n
  {
    if n >= 10 {
      var s := NatString(n);
      assert s[..|s| - 1] == NatString(n / 10);
      NatStringValue(n / 10);
    }
  }

  /** The string form of any integer denotes it: a non-negative one is its
      digits, a negative one is `-` followed by the digits of its magnitude. */
  lemma IntStringValue(i: int)
    ensures i >= 0 ==> DecimalValue(PhpString(Int(i))) == i
    ensures i < 0 ==> PhpString(Int(i))[0] == '-' && DecimalValue(PhpString(Int(i))[1..]) == -i
  {
    if i < 0 {
      var digits := NatString(-i);
      var s := "-" + digits;
      assert PhpString(Int(i)) == s;
      assert s[1..] == digits;
      NatStringValue(-i);
    } else {
      NatStringValue(i);
    }
  }

  /** Different natural numbers have different digit strings. */
  lemma NatStringInjective(m: nat, n: nat)
    requires NatString(m) == NatString(n)
    ensures m == n
  {
    NatStringValue(m);
    NatStringValue(n);
  }

  /** Different integers have different string forms. */
  lemma IntStringInjective(i: int, j: int)
    requires PhpString(Int(i)) == PhpString(Int(j))
    ensures i == j
  {
    if i < 0 && j < 0 {
      var s := "-" + NatString(-i);
      var t := "-" + NatString(-j);
      assert s[1..] == NatString(-i) && t[1..] == NatString(-j);
      NatStringInjective(-i, -j);
    } else if i >= 0 && j >= 0 {
      NatStringInjective(i, j);
    }
  }

  /** The string conversion PHP applies to an operand of `.`. */
  function PhpString(v: Value): (s: string)
    ensures v.Str? ==> s == v.s
    ensures v == Null || v == Bool(false) ==> s == ""
  {
    match v
    case Null => ""
    case Bool(b) => if b then "1" else ""
    case Int(i) => if i < 0 then "-" + NatString(-i) else NatString(i)
    case Str(s) => s
    case List(_) => "Array"
  }

  /** No element occurs twice. */
  predicate Distinct(s: seq<string>)
  {
    forall i, j :: 0 <= i < j < |s| ==> s[i] != s[j]
  }

  /** The elements of a list, as a set. */
  function Elements(s: seq<string>): set<string>
  {
    set x | x in s
  }

  /** `array_intersect($a, $b)`: the entries of `a` whose value occurs in `b`,
      in the order of `a` and with the multiplicity they have in `a`. Only
      its entries matter here (the source counts them), not its keys. */
  function Intersect(a: seq<string>, b: seq<string>): (r: seq<string>)
    ensures |r| <= |a|
    ensures forall i :: 0 <= i < |r| ==> r[i] in a && r[i] in b
  {
    if a == [] then []
    else if a[0] in b then [a[0]] + Intersect(a[1..], b)
    else Intersect(a[1..], b)
  }

  /** `array_intersect` keeps each value of `b` exactly as often as it occurs
      in `a`, and drops every other value. */
  lemma {:induction false} IntersectMultiplicity(a: seq<string>, b: seq<string>)
    ensures forall x :: multiset(Intersect(a, b))[x] == if x in b then multiset(a)[x] else 0
  {
    if a != [] {
      IntersectMultiplicity(a[1..], b);
      assert a == [a[0]] + a[1..];
    }
  }

  /** Intersection distributes over concatenation of the first list. */
  lemma {:induction false} IntersectAppend(a: seq<string>, a': seq<string>, b: seq<string>)
    ensures Intersect(a + a', b) == Intersect(a, b) + Intersect(a', b)
  {
    if a == [] {
      assert a + a' == a';
    } else {
      assert (a + a')[1..] == a[1..] + a';
      IntersectAppend(a[1..], a', b);
    }
  }

  /** The intersection keeps every entry of `a` exactly when every entry of
      `a` lies in `b`; this is what the source's "count minus count of the
      intersection is zero" test decides. */
  lemma {:induction false} IntersectKeepsAll(a: seq<string>, b: seq<string>)
    ensures |Intersect(a, b)| == |a| <==> forall i :: 0 <= i < |a| ==> a[i] in b
    ensures (forall i :: 0 <= i < |a| ==> a[i] in b) ==> Intersect(a, b) == a
  {
    if a != [] {
      IntersectKeepsAll(a[1..], b);
      if a[0] in b {
        assert forall i :: 1 <= i < |a| ==> a[i] == a[1..][i - 1];
      } else {
        assert |Intersect(a[1..], b)| <= |a[1..]|;
      }
    }
  }

  /** Nothing of `a` survives when no entry of `a` lies in `b`. */
  lemma {:induction false} IntersectNone(a: seq<string>, b: seq<string>)
    requires forall i :: 0 <= i < |a| ==> a[i] !in b
    ensures Intersect(a, b) == []
  {
    if a != [] {
      IntersectNone(a[1..], b);
    }
  }

  /** Appending entries that lie outside `b` to a list that lies inside it
      leaves the intersection equal to the original list. */
  lemma IntersectWithOutsiders(a: seq<string>, extra: seq<string>, b: seq<string>)
    requires forall i :: 0 <= i < |a| ==> a[i] in b
    requires forall i :: 0 <= i < |extra| ==> extra[i] !in b
    ensures Intersect(a + extra, b) == a
  {
    IntersectAppend(a, extra, b);
    IntersectKeepsAll(a, b);
    IntersectNone(extra, b);
  }

  /** A list without duplicates keeps none after intersection. */
  lemma {:induction false} IntersectDistinct(a: seq<string>, b: seq<string>)
    requires Distinct(a)
    ensures Distinct(Intersect(a, b))
  {
    if a != [] {
      IntersectDistinct(a[1..], b);
      var rest := Intersect(a[1..], b);
      assert forall i :: 0 <= i < |rest| ==> rest[i] in a[1..];
      assert a[0] !in a[1..];
    }
  }

  /** An entry of `a` that lies in `b` is an entry of the intersection. */
  lemma {:induction false} IntersectMember(a: seq<string>, b: seq<string>, x: string)
    requires x in a && x in b
    ensures x in Intersect(a, b)
  {
    if a[0] != x {
      IntersectMember(a[1..], b, x);
    }
  }

  /** The size of the intersection depends only on the entries of `a`, not on
      their order. */
  lemma {:induction false} IntersectSizeOrderFree(a: seq<string>, a': seq<string>, b: seq<string>)
    requires multiset(a) == multiset(a')
    ensures |Intersect(a, b)| == |Intersect(a', b)|
  {
    if a != [] {
      assert a[0] in multiset(a');
      var j :| 0 <= j < |a'| && a'[j] == a[0];
      var rest' := a'[..j] + a'[j + 1..];
      assert a' == a'[..j] + [a'[j]] + a'[j + 1..];
      assert a == [a[0]] + a[1..];
      calc {
        multiset(a[1..]);
        multiset(a) - multiset{a[0]};
        multiset(a'[..j]) + multiset{a'[j]} + multiset(a'[j + 1..]) - multiset{a[0]};
        multiset(rest');
      }
      IntersectSizeOrderFree(a[1..], rest', b);
      IntersectAppend(a'[..j], [a'[j]], b);
      IntersectAppend(a'[..j] + [a'[j]], a'[j + 1..], b);
      IntersectAppend(a'[..j], a'[j + 1..], b);
      assert Intersect([a[0]], b) == if a[0] in b then [a[0]] else [];
    }
  }

  /** A list without duplicates has as many distinct elements as entries. */
  lemma {:induction false} DistinctElements(s: seq<string>)
    requires Distinct(s)
    ensures |Elements(s)| == |s|
  {
    if s != [] {
      DistinctElements(s[1..]);
      assert Elements(s) == {s[0]} + Elements(s[1..]);
      assert s[0] !in Elements(s[1..]);
    }
  }

  /** A subset of a finite set is no larger than it. */
  lemma SubsetSize(a: set<string>, b: set<string>)
    requires a <= b
    ensures |a| <= |b|
    ensures |a| == |b| ==> a == b
  {
    assert b == a + (b - a);
    assert a * (b - a) == {};
    if a != b {
      var x :| x in b - a;
      assert |b - a| >= 1;
    }
  }
}
