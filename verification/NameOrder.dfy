/** File names in the order of `slices.Sort`: lexicographic by character. */
module NameOrder {

  predicate Before(a: string, b: string) {
    if b == "" then false
    else if a == "" then true
    else a[0] < b[0] || (a[0] == b[0] && Before(a[1..], b[1..]))
  }

  /** The names agree up to the index, and there the first one ends or has the smaller character. */
  ghost predicate DiffersAt(a: string, b: string, i: nat) {
    && i <= |a| && i < |b| && a[..i] == b[..i]
    && (i == |a| || a[i] < b[i])
  }

  lemma {:induction false} SamePrefix(a: string, b: string, i: nat)
    requires 0 < i && DiffersAt(a, b, i)
    ensures a[0] == b[0]
  {
    assert a[..i][0] == b[..i][0];
  }

  /** What comes first: the smaller character at the first difference, or a proper prefix. */
  lemma {:induction false} BeforeMeans(a: string, b: string)
    ensures Before(a, b) <==> exists i: nat :: DiffersAt(a, b, i)
  {
    if a != "" && b != "" && a[0] == b[0] {
      BeforeMeans(a[1..], b[1..]);
      if i: nat :| DiffersAt(a, b, i) {
        assert i > 0 && a[1..][..i - 1] == a[..i][1..] && b[1..][..i - 1] == b[..i][1..];
        assert DiffersAt(a[1..], b[1..], i - 1);
      }
      if i: nat :| DiffersAt(a[1..], b[1..], i) {
        assert a[..i + 1] == [a[0]] + a[1..][..i] && b[..i + 1] == [b[0]] + b[1..][..i];
        assert DiffersAt(a, b, i + 1);
      }
    } else {
      assert DiffersAt(a, b, 0) <==> b != "" && (a == "" || a[0] < b[0]);
      forall i: nat | DiffersAt(a, b, i)
        ensures i == 0
      {
        if i > 0 {
          SamePrefix(a, b, i);
        }
      }
    }
  }

  lemma {:induction false} BeforeTotal(a: string, b: string)
    ensures Before(a, b) || Before(b, a) || a == b
  {
    if a != "" && b != "" && a[0] == b[0] {
      BeforeTotal(a[1..], b[1..]);
      assert a == [a[0]] + a[1..] && b == [b[0]] + b[1..];
    }
  }

  lemma {:induction false} BeforeTransitive(a: string, b: string, c: string)
    requires Before(a, b) && Before(b, c)
    ensures Before(a, c)
  {
    if a != "" && a[0] == b[0] && b[0] == c[0] {
      BeforeTransitive(a[1..], b[1..], c[1..]);
    }
  }

  lemma {:induction false} BeforeIrreflexive(a: string)
    ensures !Before(a, a)
  {
    if a != "" {
      BeforeIrreflexive(a[1..]);
    }
  }

  ghost predicate IsFirst(names: set<string>, first: string) {
    first in names && forall n :: n in names && n != first ==> Before(first, n)
  }

  lemma {:induction false} FirstExists(names: set<string>) returns (first: string)
    requires names != {}
    ensures IsFirst(names, first)
  {
    var some :| some in names;
    var rest := names - {some};
    assert forall n :: n in names ==> n == some || n in rest;
    if rest == {} {
      first := some;
    } else {
      first := FirstExists(rest);
      BeforeTotal(first, some);
      if Before(some, first) {
        forall n | n in names && n != some
          ensures Before(some, n)
        {
          if n != first {
            BeforeTransitive(some, first, n);
          }
        }
        first := some;
      }
    }
  }

  /** The names in ascending order. */
  ghost function Sorted(names: set<string>): (s: seq<string>)
    ensures forall n :: n in s <==> n in names
    ensures forall i, j :: 0 <= i < j < |s| ==> Before(s[i], s[j])
  {
    if names == {} then []
    else
      assert exists first :: IsFirst(names, first) by {
        var first := FirstExists(names);
      }
      var first :| IsFirst(names, first);
      [first] + Sorted(names - {first})
  }

  ghost predicate Ascending(s: seq<string>) {
    forall i, j :: 0 <= i < j < |s| ==> Before(s[i], s[j])
  }

  /** Names have one ascending order. */
  lemma {:induction false} AscendingUnique(a: seq<string>, b: seq<string>)
    requires Ascending(a) && Ascending(b) && forall n :: n in a <==> n in b
    ensures a == b
  {
    assert (a != [] ==> a[0] in b) && (b != [] ==> b[0] in a);
    if a != [] && b != [] {
      AscendingHead(a, b[0]);
      AscendingHead(b, a[0]);
      if a[0] != b[0] {
        BeforeTransitive(a[0], b[0], a[0]);
        BeforeIrreflexive(a[0]);
      }
      forall n
        ensures n in a[1..] <==> n in b[1..]
      {
        AscendingTail(a, n);
        AscendingTail(b, n);
      }
      AscendingUnique(a[1..], b[1..]);
    }
  }

  lemma {:induction false} AscendingHead(s: seq<string>, n: string)
    requires Ascending(s) && n in s
    ensures n == s[0] || Before(s[0], n)
  {
  }

  lemma {:induction false} AscendingTail(s: seq<string>, n: string)
    requires Ascending(s) && s != []
    ensures n in s[1..] <==> n in s && n != s[0]
  {
    BeforeIrreflexive(s[0]);
  }

  /** The names of a directory's children, sorted. */
  method Sort(names: set<string>) returns (s: seq<string>)
    ensures s == Sorted(names)
  {
    s := [];
    var rest := names;
    while rest != {}
      invariant rest <= names && Ascending(s)
      invariant forall n :: n in s <==> n in names && n !in rest
      invariant forall n, m :: n in s && m in rest ==> Before(n, m)
    {
      var first := First(rest);
      s, rest := s + [first], rest - {first};
    }
    AscendingUnique(s, Sorted(names));
  }

  method First(names: set<string>) returns (first: string)
    requires names != {}
    ensures IsFirst(names, first)
  {
    first :| first in names;
    var rest := names - {first};
    while rest != {}
      invariant rest <= names && first in names - rest
      invariant forall n :: n in names - rest && n != first ==> Before(first, n)
    {
      var n :| n in rest;
      if Before(n, first) {
        forall m | m in names - rest
          ensures Before(n, m)
        {
          if m != first {
            BeforeTransitive(n, first, m);
          }
        }
        first := n;
      } else {
        BeforeTotal(n, first);
      }
      rest := rest - {n};
    }
  }
}
