/** The change gate: whether a non-forced cycle has anything to report. */
module Gate {
  import opened JsValues
  import opened Graph
  import opened Usage

  function Lookup(m: map<string, seq<NodeRef>>, k: string): Option<seq<NodeRef>> {
    if k in m then Some(m[k]) else None
  }

  /** `haveSameElements(a, b)`: both lists present, of equal length, and every
      element of `a` found in `b`. A missing list never matches, not even
      another missing one. This is weaker than multiset equality. */
  predicate HaveSameElements(a: Option<seq<NodeRef>>, b: Option<seq<NodeRef>>): (r: bool)
    ensures a.None? || b.None? ==> !r
    ensures a.Some? && b.Some? && a.value == b.value ==> r
  {
    a.Some? && b.Some? && |a.value| == |b.value| && forall v :: v in a.value ==> v in b.value
  }

  /** A bucket whose references were only reordered still matches: the gate
      never reports a change of order alone. */
  lemma PermutedBucketMatches(a: seq<NodeRef>, b: seq<NodeRef>)
    requires multiset(a) == multiset(b)
    ensures HaveSameElements(Some(a), Some(b))
  {
    assert |a| == |multiset(a)| == |multiset(b)| == |b|;
    forall v | v in a
      ensures v in b
    {
      assert v in multiset(a);
    }
  }

  /** The three-part condition under which a non-forced cycle stops without
      pushing: every current bucket matches the previous one, every previous
      bucket matches the current one, and the tab name is the same. */
  predicate Suppressed(current: map<string, seq<NodeRef>>, previous: map<string, seq<NodeRef>>,
                       tabName: string, previousTabName: Option<string>): (r: bool)
    ensures r ==> current.Keys == previous.Keys && previousTabName == Some(tabName)
    ensures r ==> forall k :: k in current ==> |current[k]| == |previous[k]|
  {
    (forall k :: k in current ==> HaveSameElements(Lookup(previous, k), Some(current[k]))) &&
    (forall k :: k in previous ==> HaveSameElements(Lookup(current, k), Some(previous[k]))) &&
    previousTabName == Some(tabName)
  }

  /** Two buckets of equal length holding the same elements, counted as sets. */
  predicate SameLengthAndElements(a: seq<NodeRef>, b: seq<NodeRef>) {
    |a| == |b| && (forall v :: v in a ==> v in b) && (forall v :: v in b ==> v in a)
  }

  /** The gate suppresses exactly when both maps have the same keys, each
      pair of buckets has the same length and the same elements, and the tab
      is unchanged. */
  lemma SuppressedIff(current: map<string, seq<NodeRef>>, previous: map<string, seq<NodeRef>>,
                      tabName: string, previousTabName: Option<string>)
    ensures Suppressed(current, previous, tabName, previousTabName) <==>
      current.Keys == previous.Keys &&
      (forall k :: k in current ==> SameLengthAndElements(current[k], previous[k])) &&
      previousTabName == Some(tabName)
  {
    if Suppressed(current, previous, tabName, previousTabName) {
      forall k | k in current
        ensures k in previous && SameLengthAndElements(current[k], previous[k])
      {
        assert HaveSameElements(Lookup(previous, k), Some(current[k]));
        assert HaveSameElements(Lookup(current, k), Some(previous[k]));
      }
      forall k | k in previous
        ensures k in current
      {
        assert HaveSameElements(Lookup(current, k), Some(previous[k]));
      }
    }
  }

  /** The order of comparison does not matter. */
  lemma SuppressedSymmetric(a: map<string, seq<NodeRef>>, b: map<string, seq<NodeRef>>, tabA: string, tabB: string)
    ensures Suppressed(a, b, tabA, Some(tabB)) <==> Suppressed(b, a, tabB, Some(tabA))
  {
  }

  /** Nothing changed, nothing is pushed. */
  lemma SuppressedReflexive(m: map<string, seq<NodeRef>>, tabName: string)
    ensures Suppressed(m, m, tabName, Some(tabName))
  {
  }

  /** A bucket that appears, disappears or differs, or a new tab, is always
      reported. */
  lemma ChangeDetected(current: map<string, seq<NodeRef>>, previous: map<string, seq<NodeRef>>,
                       tabName: string, previousTabName: Option<string>, k: string)
    requires (k in current) != (k in previous) ||
             (k in current && k in previous && exists v :: v in current[k] && v !in previous[k]) ||
             previousTabName != Some(tabName)
    ensures !Suppressed(current, previous, tabName, previousTabName)
  {
    SuppressedIff(current, previous, tabName, previousTabName);
  }

  /** The gate counts elements as sets: two buckets with different
      multiplicities can still match. */
  lemma NotMultisetEquality(x: NodeRef, y: NodeRef)
    requires x != y
    ensures HaveSameElements(Some([x, x, y]), Some([x, y, y]))
    ensures HaveSameElements(Some([x, y, y]), Some([x, x, y]))
    ensures multiset([x, x, y]) != multiset([x, y, y])
  {
    assert multiset([x, x, y])[x] == 2;
    assert multiset([x, y, y])[x] == 1;
  }

  lemma {:induction false} DistinctMultiplicity(s: seq<NodeRef>, v: NodeRef)
    requires Distinct(s)
    ensures multiset(s)[v] == if v in s then 1 else 0
  {
    if s != [] {
      var t := s[1..];
      assert s == [s[0]] + t;
      assert Distinct(t) by {
        forall i, j | 0 <= i < j < |t| ensures t[i] != t[j] {
          assert t[i] == s[i + 1] && t[j] == s[j + 1];
        }
      }
      DistinctMultiplicity(t, v);
      assert s[0] !in t by {
        forall i | 0 <= i < |t| ensures t[i] != s[0] {
          assert t[i] == s[i + 1];
        }
      }
    }
  }

  /** For duplicate-free buckets, matching both ways is multiset equality. */
  lemma DistinctSameElementsIsMultisetEquality(a: seq<NodeRef>, b: seq<NodeRef>)
    requires Distinct(a) && Distinct(b)
    ensures HaveSameElements(Some(a), Some(b)) && HaveSameElements(Some(b), Some(a)) <==> multiset(a) == multiset(b)
  {
    if HaveSameElements(Some(a), Some(b)) && HaveSameElements(Some(b), Some(a)) {
      forall v
        ensures multiset(a)[v] == multiset(b)[v]
      {
        DistinctMultiplicity(a, v);
        DistinctMultiplicity(b, v);
      }
    }
    if multiset(a) == multiset(b) {
      assert |a| == |multiset(a)| == |multiset(b)| == |b|;
      forall v | v in a ensures v in b {
        assert v in multiset(a);
      }
      forall v | v in b ensures v in a {
        assert v in multiset(b);
      }
    }
  }

  /** When every bucket is duplicate-free, as it is for a registry whose nodes
      have pairwise different `{id, type}` references, the gate is exactly
      multiset equality of the buckets plus an unchanged tab. */
  lemma SuppressedIsMultisetEquality(current: map<string, seq<NodeRef>>, previous: map<string, seq<NodeRef>>,
                                     tabName: string, previousTabName: Option<string>)
    requires forall k :: k in current ==> Distinct(current[k])
    requires forall k :: k in previous ==> Distinct(previous[k])
    ensures Suppressed(current, previous, tabName, previousTabName) <==>
      current.Keys == previous.Keys &&
      (forall k :: k in current ==> multiset(current[k]) == multiset(previous[k])) &&
      previousTabName == Some(tabName)
  {
    SuppressedIff(current, previous, tabName, previousTabName);
    if current.Keys == previous.Keys {
      forall k | k in current
        ensures SameLengthAndElements(current[k], previous[k]) <==> multiset(current[k]) == multiset(previous[k])
      {
        DistinctSameElementsIsMultisetEquality(current[k], previous[k]);
      }
    }
  }
}
