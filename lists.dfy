/**
 * Operations of List<T> and LINQ that the core relies on, over Dafny sequences.
 */
module Lists {

  /** No element occurs twice. */
  ghost predicate NoDup<T>(s: seq<T>) {
    forall i, j | 0 <= i < j < |s| :: s[i] != s[j]
  }

  /** The elements of a sequence as a set (new HashSet<T>(s)). */
  ghost function Elements<T>(s: seq<T>): set<T> {
    set x | x in s
  }

  /** Enumerable.Distinct: each element at its first occurrence, in order. */
  function Distinct<T(==)>(s: seq<T>): (r: seq<T>)
    ensures NoDup(r)
    ensures forall i | 0 <= i < |r| :: r[i] in s
    ensures forall i | 0 <= i < |s| :: s[i] in r
    ensures |r| <= |s|
  {
    if |s| == 0 then []
    else
      var rest := Distinct(s[..|s| - 1]);
      if s[|s| - 1] in rest then rest else rest + [s[|s| - 1]]
  }

  /** Distinct changes nothing exactly when nothing repeats, so the source's duplicate
      test `types.Distinct().Count() != types.Length` is the negation of NoDup. */
  lemma {:induction false} DistinctKeepsLengthIff<T>(s: seq<T>)
    ensures |Distinct(s)| == |s| <==> NoDup(s)
  {
    if |s| > 0 {
      var p, l := s[..|s| - 1], s[|s| - 1];
      assert s == p + [l];
      DistinctKeepsLengthIff(p);
      if l in p {
        var k :| 0 <= k < |p| && p[k] == l;
        assert s[k] == s[|s| - 1];
      } else {
        assert NoDup(s) <==> NoDup(p);
      }
    }
  }

  /** On a duplicate-free sequence Distinct is the identity. */
  lemma {:induction false} DistinctOfNoDup<T>(s: seq<T>)
    requires NoDup(s)
    ensures Distinct(s) == s
  {
    if |s| > 0 {
      var p := s[..|s| - 1];
      assert NoDup(p);
      DistinctOfNoDup(p);
      assert s == p + [s[|s| - 1]];
    }
  }

  /** A duplicate-free sequence has as many elements as its set. */
  lemma {:induction false} NoDupCardinality<T>(s: seq<T>)
    requires NoDup(s)
    ensures |Elements(s)| == |s|
  {
    if |s| > 0 {
      var p, l := s[..|s| - 1], s[|s| - 1];
      assert NoDup(p);
      NoDupCardinality(p);
      assert s == p + [l];
      assert Elements(s) == Elements(p) + {l};
      assert l !in Elements(p);
    }
  }

  /** List<T>.Remove: drops the first occurrence of x, if any. */
  function RemoveFirst<T(==)>(s: seq<T>, x: T): (r: seq<T>)
    ensures x !in s ==> r == s
    ensures x in s ==> |r| == |s| - 1
  {
    if |s| == 0 then []
    else if s[0] == x then s[1..]
    else [s[0]] + RemoveFirst(s[1..], x)
  }

  /** Removing the only occurrence of x leaves exactly the other elements. */
  lemma {:induction false} RemoveFirstOfNoDup<T(!new)>(s: seq<T>, x: T)
    requires NoDup(s)
    ensures NoDup(RemoveFirst(s, x))
    ensures forall y :: y in RemoveFirst(s, x) <==> y in s && y != x
  {
    if |s| > 0 {
      assert NoDup(s[1..]) by {
        forall i, j | 0 <= i < j < |s[1..]| ensures s[1..][i] != s[1..][j] {
          assert s[1..][i] == s[i + 1] && s[1..][j] == s[j + 1];
        }
      }
      if s[0] != x {
        RemoveFirstOfNoDup(s[1..], x);
        var r := RemoveFirst(s[1..], x);
        assert s[0] !in s[1..];
        assert forall i, j | 0 <= i < j < |[s[0]] + r| :: ([s[0]] + r)[i] != ([s[0]] + r)[j];
      }
    }
  }

  /** List<T>.FindIndex with an equality predicate: the first index holding x, or -1. */
  function IndexOf<T(==)>(s: seq<T>, x: T): (i: int)
    ensures -1 <= i < |s|
    ensures i == -1 <==> x !in s
    ensures 0 <= i ==> s[i] == x && x !in s[..i]
  {
    if |s| == 0 then -1
    else if s[0] == x then 0
    else
      var j := IndexOf(s[1..], x);
      assert s[1..][..(if j < 0 then 0 else j)] == s[1..(if j < 0 then 1 else j + 1)];
      if j < 0 then -1 else j + 1
  }

  /** List<T>.RemoveAt. */
  function RemoveAt<T>(s: seq<T>, i: nat): (r: seq<T>)
    requires i < |s|
    ensures |r| == |s| - 1
    ensures forall k | 0 <= k < i :: r[k] == s[k]
    ensures forall k | i <= k < |r| :: r[k] == s[k + 1]
  {
    s[..i] + s[i + 1..]
  }

  /** Swapping position i with the last position and then dropping the last position is the
      same as overwriting position i with the last element and dropping the last position. */
  lemma SwapThenDropLast<T>(s: seq<T>, i: nat)
    requires i < |s|
    ensures s[i := s[|s| - 1]][|s| - 1 := s[i]][..|s| - 1] == s[i := s[|s| - 1]][..|s| - 1]
  {
  }

  /** An update of a key that is then removed leaves no trace. */
  lemma UpdateThenRemove<K, V>(m: map<K, V>, a: K, u: V, b: K, v: V)
    ensures m[a := u][b := v] - {a} == m[b := v] - {a}
  {
  }
  /** List<T>.Add of a new element keeps a duplicate-free list duplicate-free. */
  lemma NoDupAppend<T>(s: seq<T>, x: T)
    requires NoDup(s) && x !in s
    ensures NoDup(s + [x]) && Elements(s + [x]) == Elements(s) + {x}
  {
  }

  /** List<T>.Remove(x) is RemoveAt(IndexOf(x)) when x occurs. */
  lemma {:induction false} RemoveFirstIsRemoveAt<T>(s: seq<T>, x: T)
    requires x in s
    ensures 0 <= IndexOf(s, x) && RemoveFirst(s, x) == RemoveAt(s, IndexOf(s, x))
  {
    if s[0] == x {
      assert RemoveAt(s, 0) == s[1..];
    } else {
      assert x in s[1..];
      RemoveFirstIsRemoveAt(s[1..], x);
      var i := IndexOf(s[1..], x);
      assert IndexOf(s, x) == i + 1;
      var r := RemoveAt(s[1..], i);
      assert RemoveAt(s, i + 1) == [s[0]] + r by {
        forall k | 0 <= k < |s| - 1 ensures RemoveAt(s, i + 1)[k] == ([s[0]] + r)[k] {
          if k > 0 {
            assert ([s[0]] + r)[k] == r[k - 1];
          }
        }
      }
    }
  }

  /** RemoveAt on a duplicate-free list drops exactly the removed element. */
  lemma RemoveAtOfNoDup<T>(s: seq<T>, i: nat)
    requires NoDup(s) && i < |s|
    ensures NoDup(RemoveAt(s, i)) && Elements(RemoveAt(s, i)) == Elements(s) - {s[i]}
  {
    var r := RemoveAt(s, i);
    forall y | y in Elements(s) - {s[i]} ensures y in Elements(r) {
      var k :| 0 <= k < |s| && s[k] == y;
      if k < i {
        assert r[k] == y;
      } else {
        assert r[k - 1] == y;
      }
    }
  }

  /** Two duplicate-free lists with no common element concatenate to a duplicate-free list. */
  lemma NoDupConcat<T>(a: seq<T>, b: seq<T>)
    requires NoDup(a) && NoDup(b) && forall i, j | 0 <= i < |a| && 0 <= j < |b| :: a[i] != b[j]
    ensures NoDup(a + b)
  {
    forall i, j | 0 <= i < j < |a + b| ensures (a + b)[i] != (a + b)[j] {
      if i < |a| && |a| <= j {
        assert (a + b)[i] == a[i] && (a + b)[j] == b[j - |a|];
      }
    }
  }
}
