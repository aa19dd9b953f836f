/** Python's ordering of str values and sorted() over the keys of a dict:
    the order in which both range queries visit the leaderboard. */
module KeyOrder {

  /** Python's `a < b` on str: lexicographic by code point, with a proper
      prefix before the longer string. */
  predicate Less(a: string, b: string)
    decreases |a|
  {
    if a == [] then b != []
    else if b == [] then false
    else a[0] < b[0] || (a[0] == b[0] && Less(a[1..], b[1..]))
  }

  lemma {:induction false} LessIrreflexive(a: string)
    ensures !Less(a, a)
    decreases |a|
  {
    if a != [] {
      LessIrreflexive(a[1..]);
    }
  }

  lemma {:induction false} LessTransitive(a: string, b: string, c: string)
    requires Less(a, b) && Less(b, c)
    ensures Less(a, c)
    decreases |a|
  {
    if a != [] && a[0] == b[0] && b[0] == c[0] {
      LessTransitive(a[1..], b[1..], c[1..]);
    }
  }

  lemma {:induction false} LessTotal(a: string, b: string)
    requires a != b
    ensures Less(a, b) || Less(b, a)
    decreases |a|
  {
    if a != [] && b != [] && a[0] == b[0] {
      assert a == [a[0]] + a[1..] && b == [b[0]] + b[1..];
      LessTotal(a[1..], b[1..]);
    }
  }

  lemma {:induction false} LessAsymmetric(a: string, b: string)
    requires Less(a, b)
    ensures !Less(b, a)
  {
    if Less(b, a) {
      LessTransitive(a, b, a);
      LessIrreflexive(a);
    }
  }

  /** Ascending and without repetition. */
  predicate StrictlySorted(ks: seq<string>) {
    forall i, j :: 0 <= i < j < |ks| ==> Less(ks[i], ks[j])
  }

  /** m is the smallest element of s. */
  predicate IsLeast(m: string, s: set<string>) {
    m in s && forall x :: x in s && x != m ==> Less(m, x)
  }

  lemma {:induction false} LeastExists(s: set<string>)
    requires s != {}
    ensures exists m :: IsLeast(m, s)
    decreases |s|
  {
    var x :| x in s;
    if s != {x} {
      LeastExists(s - {x});
      var m :| IsLeast(m, s - {x});
      if Less(x, m) {
        forall y | y in s && y != x ensures Less(x, y) {
          if y != m { LessTransitive(x, m, y); }
        }
        assert IsLeast(x, s);
      } else {
        LessTotal(x, m);
        assert IsLeast(m, s);
      }
    } else {
      assert IsLeast(x, s);
    }
  }

  lemma LeastUnique(m1: string, m2: string, s: set<string>)
    requires IsLeast(m1, s) && IsLeast(m2, s)
    ensures m1 == m2
  {
    if m1 != m2 {
      LessAsymmetric(m1, m2);
    }
  }

  /** The keys of a dict in the order sorted() lists them: the least key,
      then the sorted rest. */
  ghost function SortedKeys(s: set<string>): seq<string>
    decreases |s|
  {
    if s == {} then []
    else
      LeastExists(s);
      var m :| IsLeast(m, s);
      [m] + SortedKeys(s - {m})
  }

  /** sorted() lists every key exactly once, in ascending order. */
  lemma {:induction false} SortedKeysSpec(s: set<string>)
    ensures StrictlySorted(SortedKeys(s))
    ensures forall k :: k in SortedKeys(s) <==> k in s
    ensures |SortedKeys(s)| == |s|
    decreases |s|
  {
    if s != {} {
      var ks := SortedKeys(s);
      var m := ks[0];
      assert IsLeast(m, s) && ks == [m] + SortedKeys(s - {m});
      var rest := SortedKeys(s - {m});
      SortedKeysSpec(s - {m});
      assert forall j :: 0 <= j < |rest| ==> rest[j] in rest && rest[j] in s - {m};
      assert forall j :: 0 < j < |ks| ==> ks[j] == rest[j - 1];
    }
  }

  lemma SortedKeysUnfold(s: set<string>, m: string)
    requires IsLeast(m, s)
    ensures SortedKeys(s) == [m] + SortedKeys(s - {m})
  {
    var ks := SortedKeys(s);
    assert IsLeast(ks[0], s) && ks == [ks[0]] + SortedKeys(s - {ks[0]});
    LeastUnique(ks[0], m, s);
  }

  /** The smallest element of a non-empty set. */
  method Least(s: set<string>) returns (m: string)
    requires s != {}
    ensures IsLeast(m, s)
  {
    LeastExists(s);
    m :| IsLeast(m, s);
  }

  /** sorted(d): the keys of d in ascending order. */
  method SortKeys<V>(d: map<string, V>) returns (ks: seq<string>)
    ensures ks == SortedKeys(d.Keys)
  {
    ks := [];
    var rest := d.Keys;
    while rest != {}
      invariant ks + SortedKeys(rest) == SortedKeys(d.Keys)
      decreases |rest|
    {
      var m := Least(rest);
      SortedKeysUnfold(rest, m);
      ks := ks + [m];
      rest := rest - {m};
    }
  }

  /** A strictly sorted list is determined by its elements: whatever builds
      it, a sorted result with the right elements is the sorted() order. */
  lemma {:induction false} SortedUnique(a: seq<string>, b: seq<string>)
    requires StrictlySorted(a) && StrictlySorted(b)
    requires forall k :: k in a <==> k in b
    ensures a == b
    decreases |a|
  {
    if a == [] {
      assert forall i :: 0 <= i < |b| ==> b[i] in a;
    } else {
      assert b != [] by { assert a[0] in b; }
      forall x | x in b && x != a[0] ensures Less(a[0], x) {
        var j :| 0 <= j < |a| && a[j] == x;
      }
      forall x | x in a && x != b[0] ensures Less(b[0], x) {
        var j :| 0 <= j < |b| && b[j] == x;
      }
      var s := set x | x in a;
      LeastUnique(a[0], b[0], s);
      TailsAgree(a, b);
      TailsAgree(b, a);
      SortedUnique(a[1..], b[1..]);
      assert a == [a[0]] + a[1..] && b == [b[0]] + b[1..];
    }
  }

  lemma TailsAgree(a: seq<string>, b: seq<string>)
    requires a != [] && b != [] && a[0] == b[0]
    requires StrictlySorted(a) && forall k :: k in a ==> k in b
    ensures forall k :: k in a[1..] ==> k in b[1..]
  {
    forall k | k in a[1..] ensures k in b[1..] {
      var i :| 0 <= i < |a[1..]| && a[1..][i] == k;
      assert Less(a[0], a[i + 1]);
      LessIrreflexive(a[0]);
      assert k in b;
      var j :| 0 <= j < |b| && b[j] == k;
      assert b[1..][j - 1] == k;
    }
  }
}
