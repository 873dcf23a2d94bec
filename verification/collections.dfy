/** Small facts about sequences and sets that several components rest on. */
module Collections {
  datatype Option<T> = None | Some(value: T)

  predicate Distinct<T(==)>(s: seq<T>) {
    forall i, j | 0 <= i < j < |s| :: s[i] != s[j]
  }

  function Members<T>(s: seq<T>): set<T> {
    set x | x in s
  }

  /** A sequence has as many members as places exactly when nothing occurs twice. */
  lemma {:induction false} MembersSize<T>(s: seq<T>)
    ensures |Members(s)| <= |s|
    ensures |Members(s)| == |s| <==> Distinct(s)
  {
    if s != [] {
      var init, last := s[..|s| - 1], s[|s| - 1];
      MembersSize(init);
      assert s == init + [last];
      assert Members(s) == Members(init) + {last};
      if last in init {
        var i :| 0 <= i < |init| && init[i] == last;
        assert s[i] == s[|s| - 1];
        assert Members(s) == Members(init);
      } else if Distinct(init) {
        assert forall i | 0 <= i < |init| :: init[i] in init;
      } else {
        var i, j :| 0 <= i < j < |init| && init[i] == init[j];
        assert s[i] == s[j];
      }
    }
  }

  lemma {:induction false} SubsetSize<T>(a: set<T>, b: set<T>)
    requires a <= b
    ensures |a| <= |b|
    ensures |a| == |b| ==> a == b
  {
    if a != {} {
      var x :| x in a;
      SubsetSize(a - {x}, b - {x});
      assert a == a - {x} + {x} && b == b - {x} + {x};
    }
  }

  /** c interleaves a and b, keeping the order of each. */
  ghost predicate Merged<T(!new)>(a: seq<T>, b: seq<T>, c: seq<T>)
    decreases |c|
  {
    if c == [] then a == [] && b == []
    else
      var last := c[|c| - 1];
      || (a != [] && a[|a| - 1] == last && Merged(a[..|a| - 1], b, c[..|c| - 1]))
      || (b != [] && b[|b| - 1] == last && Merged(a, b[..|b| - 1], c[..|c| - 1]))
  }

  /** Appending one element to the left part and to the whole keeps them merged. */
  lemma MergedLeft<T(!new)>(a: seq<T>, b: seq<T>, c: seq<T>, e: seq<T>)
    requires Merged(a, b, c) && |e| <= 1
    ensures Merged(a + e, b, c + e)
  {
    if |e| == 1 {
      assert (a + e)[..|a|] == a && (c + e)[..|c|] == c;
    } else {
      assert a + e == a && c + e == c;
    }
  }

  lemma MergedRight<T(!new)>(a: seq<T>, b: seq<T>, c: seq<T>, e: seq<T>)
    requires Merged(a, b, c) && |e| <= 1
    ensures Merged(a, b + e, c + e)
  {
    if |e| == 1 {
      assert (b + e)[..|b|] == b && (c + e)[..|c|] == c;
    } else {
      assert b + e == b && c + e == c;
    }
  }
}
