/** Order-preserving selection of the elements of a sequence by a parallel
    sequence of flags: the shape shared by filtering bubbles that left the
    screen and by dropping bubbles consumed in a collision pass. */
module Selection {

  /** The elements of `s` whose flag in `keep` is set, in their original order. */
  function Select<T>(s: seq<T>, keep: seq<bool>): seq<T>
    requires |keep| == |s|
  {
    if s == [] then []
    else (if keep[0] then [s[0]] else []) + Select(s[1..], keep[1..])
  }

  /** The positions whose flag in `keep` is set, in increasing order. */
  function SelectedIndices(keep: seq<bool>): seq<nat>
  {
    if keep == [] then []
    else (if keep[0] then [0] else []) + Shifted(SelectedIndices(keep[1..]))
  }

  function Shifted(idx: seq<nat>): (r: seq<nat>)
    ensures |r| == |idx|
    ensures forall k :: 0 <= k < |idx| ==> r[k] == idx[k] + 1
  {
    seq(|idx|, k requires 0 <= k < |idx| => idx[k] + 1)
  }

  function Negated(keep: seq<bool>): (r: seq<bool>)
    ensures |r| == |keep|
    ensures forall k :: 0 <= k < |keep| ==> r[k] == !keep[k]
  {
    seq(|keep|, k requires 0 <= k < |keep| => !keep[k])
  }

  ghost predicate StrictlyIncreasing(idx: seq<nat>)
  {
    forall k, l :: 0 <= k < l < |idx| ==> idx[k] < idx[l]
  }

  /** `r` is exactly the elements of `s` at the positions flagged in `keep`,
      listed in their original order. */
  ghost predicate SelectedAt<T>(r: seq<T>, s: seq<T>, keep: seq<bool>, idx: seq<nat>)
    requires |keep| == |s|
  {
    && |r| == |idx|
    && StrictlyIncreasing(idx)
    && (forall k :: 0 <= k < |idx| ==> idx[k] < |s| && r[k] == s[idx[k]])
    && (forall j :: 0 <= j < |s| ==> (j in idx <==> keep[j]))
  }

  lemma SelectCharacterized<T>(s: seq<T>, keep: seq<bool>)
    requires |keep| == |s|
    ensures SelectedAt(Select(s, keep), s, keep, SelectedIndices(keep))
  {
    SelectedValues(s, keep);
    IndicesIncreasing(keep);
    IndicesComplete(keep);
    var idx := SelectedIndices(keep);
    forall j | 0 <= j < |s| && j in idx
      ensures keep[j]
    {
      var k :| 0 <= k < |idx| && idx[k] == j;
    }
  }

  lemma {:induction false} SelectedValues<T>(s: seq<T>, keep: seq<bool>)
    requires |keep| == |s|
    ensures |Select(s, keep)| == |SelectedIndices(keep)|
    ensures forall k :: 0 <= k < |SelectedIndices(keep)| ==>
      SelectedIndices(keep)[k] < |s| && keep[SelectedIndices(keep)[k]] &&
      Select(s, keep)[k] == s[SelectedIndices(keep)[k]]
  {
    if s != [] {
      SelectedValues(s[1..], keep[1..]);
      var tail := SelectedIndices(keep[1..]);
      var head: seq<nat> := if keep[0] then [0] else [];
      var idx := head + Shifted(tail);
      var r := Select(s, keep);
      assert idx == SelectedIndices(keep);
      assert r == (if keep[0] then [s[0]] else []) + Select(s[1..], keep[1..]);
      forall k | 0 <= k < |idx|
        ensures idx[k] < |s| && keep[idx[k]] && r[k] == s[idx[k]]
      {
        if k >= |head| {
          assert idx[k] == tail[k - |head|] + 1;
          assert r[k] == Select(s[1..], keep[1..])[k - |head|];
        }
      }
    }
  }

  lemma {:induction false} IndicesIncreasing(keep: seq<bool>)
    ensures StrictlyIncreasing(SelectedIndices(keep))
  {
    if keep != [] {
      IndicesIncreasing(keep[1..]);
      var tail := SelectedIndices(keep[1..]);
      var head: seq<nat> := if keep[0] then [0] else [];
      var idx := head + Shifted(tail);
      assert idx == SelectedIndices(keep);
      forall k, l | 0 <= k < l < |idx|
        ensures idx[k] < idx[l]
      {
        if k >= |head| {
          assert idx[k] == tail[k - |head|] + 1;
        }
        assert idx[l] == tail[l - |head|] + 1;
      }
    }
  }

  lemma {:induction false} IndicesComplete(keep: seq<bool>)
    ensures forall j :: 0 <= j < |keep| && keep[j] ==> j in SelectedIndices(keep)
  {
    if keep != [] {
      IndicesComplete(keep[1..]);
      var tail := SelectedIndices(keep[1..]);
      var head: seq<nat> := if keep[0] then [0] else [];
      var idx := head + Shifted(tail);
      assert idx == SelectedIndices(keep);
      forall j | 0 <= j < |keep| && keep[j]
        ensures j in idx
      {
        if j > 0 {
          assert keep[1..][j - 1];
          var k :| 0 <= k < |tail| && tail[k] == j - 1;
          assert idx[|head| + k] == j;
        }
      }
    }
  }

  lemma {:induction false} SelectAppend<T>(a: seq<T>, ka: seq<bool>, b: seq<T>, kb: seq<bool>)
    requires |ka| == |a| && |kb| == |b|
    ensures Select(a + b, ka + kb) == Select(a, ka) + Select(b, kb)
  {
    if a == [] {
      assert a + b == b && ka + kb == kb;
    } else {
      var ab, kab := a + b, ka + kb;
      assert ab[0] == a[0] && kab[0] == ka[0];
      assert ab[1..] == a[1..] + b;
      assert kab[1..] == ka[1..] + kb;
      SelectAppend(a[1..], ka[1..], b, kb);
      var head := if ka[0] then [a[0]] else [];
      calc {
        Select(ab, kab);
        head + Select(a[1..] + b, ka[1..] + kb);
        head + (Select(a[1..], ka[1..]) + Select(b, kb));
        (head + Select(a[1..], ka[1..])) + Select(b, kb);
      }
    }
  }

  /** Selecting by a set of flags and by their negation splits `s` into two
      parts that together hold every element exactly once. */
  lemma {:induction false} SelectPartition<T>(s: seq<T>, keep: seq<bool>)
    requires |keep| == |s|
    ensures |Select(s, keep)| + |Select(s, Negated(keep))| == |s|
    ensures multiset(Select(s, keep)) + multiset(Select(s, Negated(keep))) == multiset(s)
  {
    if s != [] {
      assert Negated(keep)[1..] == Negated(keep[1..]);
      SelectPartition(s[1..], keep[1..]);
      assert s == [s[0]] + s[1..];
    }
  }

  lemma {:induction false} SelectAll<T>(s: seq<T>, keep: seq<bool>)
    requires |keep| == |s|
    requires forall j :: 0 <= j < |s| ==> keep[j]
    ensures Select(s, keep) == s
  {
    if s != [] {
      SelectAll(s[1..], keep[1..]);
    }
  }

  lemma {:induction false} SelectNone<T>(s: seq<T>, keep: seq<bool>)
    requires |keep| == |s|
    requires forall j :: 0 <= j < |s| ==> !keep[j]
    ensures Select(s, keep) == []
  {
    if s != [] {
      SelectNone(s[1..], keep[1..]);
    }
  }
}
