/** The canonical form `json.dumps(..., sort_keys=True)` serialises: every
    dict, at every depth, has its items sorted by key before it is written. */
module CanonicalJson {
  import opened PyValues

  /** Python's `<` on str: code point by code point, a proper prefix first. */
  predicate KeyLess(a: string, b: string) {
    if |a| == 0 then |b| > 0
    else if |b| == 0 then false
    else if a[0] == b[0] then KeyLess(a[1..], b[1..])
    else a[0] < b[0]
  }

  lemma {:induction false} KeyLessIrreflexive(a: string)
    ensures !KeyLess(a, a)
  {
    if |a| > 0 { KeyLessIrreflexive(a[1..]); }
  }

  lemma {:induction false} KeyLessTransitive(a: string, b: string, c: string)
    requires KeyLess(a, b) && KeyLess(b, c)
    ensures KeyLess(a, c)
  {
    if |a| > 0 && |b| > 0 && |c| > 0 && a[0] == b[0] == c[0] {
      KeyLessTransitive(a[1..], b[1..], c[1..]);
    }
  }

  /** Any two different keys are ordered one way or the other. */
  lemma {:induction false} KeyLessTotal(a: string, b: string)
    requires a != b
    ensures KeyLess(a, b) || KeyLess(b, a)
  {
    if |a| > 0 && |b| > 0 && a[0] == b[0] {
      assert a[0] == b[0];
      assert a == [a[0]] + a[1..] && b == [b[0]] + b[1..];
      KeyLessTotal(a[1..], b[1..]);
    }
  }

  /** Items in strictly increasing key order. */
  predicate Sorted(ms: seq<Member>) {
    forall i, j :: 0 <= i < j < |ms| ==> KeyLess(ms[i].key, ms[j].key)
  }

  /** Inserts `m` in front of the first item whose key is greater. */
  function Insert(m: Member, s: seq<Member>): (r: seq<Member>)
    ensures multiset(r) == multiset(s) + multiset{m}
  {
    if |s| == 0 then [m]
    else if KeyLess(m.key, s[0].key) then [m] + s
    else
      assert s == [s[0]] + s[1..];
      [s[0]] + Insert(m, s[1..])
  }

  /** The items of a dict in sorted key order, as the encoder's
      `sorted(dct.items())` yields them. */
  function SortMembers(ms: seq<Member>): (r: seq<Member>)
    ensures multiset(r) == multiset(ms)
  {
    if |ms| == 0 then []
    else
      assert ms == [ms[0]] + ms[1..];
      Insert(ms[0], SortMembers(ms[1..]))
  }

  lemma {:induction false} InsertSorted(m: Member, s: seq<Member>)
    requires Sorted(s)
    requires forall x :: x in s ==> x.key != m.key
    ensures Sorted(Insert(m, s))
  {
    if |s| > 0 && KeyLess(m.key, s[0].key) {
      forall k | 0 <= k < |s| ensures KeyLess(m.key, s[k].key) {
        if k > 0 { KeyLessTransitive(m.key, s[0].key, s[k].key); }
      }
    } else if |s| > 0 {
      assert s[0] in s;
      KeyLessTotal(m.key, s[0].key);
      InsertSorted(m, s[1..]);
      var r := Insert(m, s);
      var t := Insert(m, s[1..]);
      assert r == [s[0]] + t;
      forall k | 0 <= k < |t|
        ensures KeyLess(s[0].key, t[k].key)
      {
        assert t[k] in multiset(t);
        if t[k] != m {
          assert t[k] in s[1..];
          var i :| 0 <= i < |s[1..]| && s[1..][i] == t[k];
          assert s[i + 1] == t[k];
        }
      }
    }
  }

  /** A dict's items come out sorted. */
  lemma {:induction false} SortMembersSorted(ms: seq<Member>)
    requires DistinctKeys(ms)
    ensures Sorted(SortMembers(ms))
  {
    if |ms| > 0 {
      SortMembersSorted(ms[1..]);
      forall x | x in SortMembers(ms[1..])
        ensures x.key != ms[0].key
      {
        assert x in multiset(ms[1..]);
        var i :| 0 <= i < |ms[1..]| && ms[1..][i] == x;
        assert ms[i + 1] == x;
      }
      InsertSorted(ms[0], SortMembers(ms[1..]));
    }
  }

  /** The first item of a sorted sequence is its least; two sorted
      sequences with the same items start alike. */
  lemma SortedHeadsEqual(a: seq<Member>, b: seq<Member>)
    requires Sorted(a) && Sorted(b)
    requires |a| > 0 && |b| > 0
    requires a[0] in b && b[0] in a
    ensures a[0] == b[0]
  {
    var i :| 0 <= i < |b| && b[i] == a[0];
    var j :| 0 <= j < |a| && a[j] == b[0];
    if i != 0 {
      if j != 0 {
        KeyLessTransitive(a[0].key, b[0].key, a[0].key);
      }
      KeyLessIrreflexive(a[0].key);
      assert false;
    }
  }

  /** Two strictly sorted item sequences with the same items are the same
      sequence: the sorted order of a dict's items depends only on which
      items the dict holds, not on how it was built. */
  lemma {:induction false} SortedSameItems(a: seq<Member>, b: seq<Member>)
    requires Sorted(a) && Sorted(b)
    requires forall x :: x in a <==> x in b
    ensures a == b
    decreases |a|
  {
    if |a| == 0 {
      assert a == [];
      assert forall x :: x in multiset(b) ==> x in a;
      assert multiset(b) == multiset{};
      assert |b| == |multiset(b)| == 0;
    } else {
      assert a[0] in b;
      SortedHeadsEqual(a, b);
      SortedTail(a);
      SortedTail(b);
      forall x ensures x in a[1..] <==> x in b[1..] {
        SortedTailItems(a, x);
        SortedTailItems(b, x);
      }
      SortedSameItems(a[1..], b[1..]);
    }
  }

  /** The tail of a strictly sorted sequence holds every item but the head. */
  lemma SortedTailItems(a: seq<Member>, x: Member)
    requires Sorted(a) && |a| > 0
    ensures x in a[1..] <==> x in a && x != a[0]
  {
    if x in a[1..] {
      var k :| 0 <= k < |a[1..]| && a[1..][k] == x;
      assert KeyLess(a[0].key, a[k + 1].key);
      KeyLessIrreflexive(a[0].key);
    }
    if x in a && x != a[0] {
      var k :| 0 <= k < |a| && a[k] == x;
      assert a[1..][k - 1] == x;
    }
  }

  lemma SortedTail(a: seq<Member>)
    requires Sorted(a) && |a| > 0
    ensures Sorted(a[1..])
  {
  }

  /** What `json.dumps(j, sort_keys=True)` serialises: `j` with the items of
      every dict sorted by key, sorting before the values are visited. */
  function SortKeys(j: Json): (r: Json)
    ensures j.JDict? <==> r.JDict?
    ensures j.JDict? ==> |r.members| == |j.members|
    ensures j.JList? <==> r.JList?
    ensures j.JList? ==> |r.items| == |j.items|
    ensures j.JList? ==> forall i :: 0 <= i < |j.items| ==> r.items[i] == SortKeys(j.items[i])
    ensures !j.JDict? && !j.JList? ==> r == j
  {
    match j
    case JList(items) =>
      JList(seq(|items|, i requires 0 <= i < |items| => SortKeys(items[i])))
    case JDict(ms) =>
      var sorted := SortMembers(ms);
      JDict(seq(|sorted|, i requires 0 <= i < |sorted| =>
        assert sorted[i] in multiset(ms);
        Member(sorted[i].key, SortKeys(sorted[i].value))))
    case _ => j
  }

  /** The items of a canonical dict are sorted, hence distinct. */
  lemma CanonicalItemsSorted(ms: seq<Member>)
    requires DistinctKeys(ms)
    ensures Sorted(SortKeys(JDict(ms)).members)
    ensures DistinctKeys(SortKeys(JDict(ms)).members)
  {
    var sorted := SortMembers(ms);
    var out := SortKeys(JDict(ms)).members;
    SortMembersSorted(ms);
    forall a, b | 0 <= a < b < |out| ensures KeyLess(out[a].key, out[b].key) {
      assert out[a].key == sorted[a].key && out[b].key == sorted[b].key;
    }
    forall a, b | 0 <= a < b < |out| ensures out[a].key != out[b].key {
      KeyLessIrreflexive(out[a].key);
    }
  }

  /** Sorting only reorders a dict: every key keeps its value, in canonical
      form, and a missing key stays missing. */
  lemma {:induction false} SortKeysKeepsItems(ms: seq<Member>, key: string)
    requires DistinctKeys(ms)
    ensures var before := Subscript(JDict(ms), key);
      Subscript(SortKeys(JDict(ms)), key)
        == if before.Ok? then Ok(SortKeys(before.value)) else Err(KeyError(key))
  {
    var sorted := SortMembers(ms);
    var out := SortKeys(JDict(ms)).members;
    CanonicalItemsSorted(ms);
    var before := Subscript(JDict(ms), key);
    if before.Ok? {
      assert Member(key, before.value) in multiset(sorted);
      var i :| 0 <= i < |sorted| && sorted[i] == Member(key, before.value);
      assert out[i] == Member(key, SortKeys(before.value));
      SubscriptFindsMember(out, key, SortKeys(before.value));
    } else {
      forall i | 0 <= i < |out| ensures out[i].key != key {
        assert sorted[i] in multiset(ms);
        var k :| 0 <= k < |ms| && ms[k] == sorted[i];
      }
    }
  }

  /** The canonical form is a fixed point: canonicalising it again changes
      nothing. */
  lemma {:induction false} SortKeysIdempotent(j: Json)
    requires WellFormed(j)
    ensures SortKeys(SortKeys(j)) == SortKeys(j)
    decreases j
  {
    match j
    case JList(items) =>
      var once := SortKeys(j).items;
      forall i | 0 <= i < |items| ensures SortKeys(once[i]) == once[i] {
        SortKeysIdempotent(items[i]);
      }
    case JDict(ms) =>
      var out := SortKeys(j).members;
      CanonicalItemsSorted(ms);
      SortMembersOfSorted(out);
      forall i | 0 <= i < |out| ensures SortKeys(out[i].value) == out[i].value {
        CanonicalItemFrom(ms, i);
        var k :| 0 <= k < |ms| && out[i] == Member(ms[k].key, SortKeys(ms[k].value));
        SortKeysIdempotent(ms[k].value);
      }
      assert SortKeys(JDict(out)).members == out;
    case _ =>
  }

  /** Sorting an already sorted item sequence leaves it as it is. */
  lemma SortMembersOfSorted(ms: seq<Member>)
    requires Sorted(ms) && DistinctKeys(ms)
    ensures SortMembers(ms) == ms
  {
    SortMembersSorted(ms);
    forall x ensures x in SortMembers(ms) <==> x in ms {
      assert x in multiset(SortMembers(ms)) <==> x in multiset(ms);
    }
    SortedSameItems(SortMembers(ms), ms);
  }

  /** `a` and `b` hold the same data and differ at most in the insertion
      order of dict items, at any depth. This is Python's `==` except for
      numbers: numbers Python calls equal but `json.dumps` prints
      differently (True, 1 and 1.0; 0.0 and -0.0) count as different, and
      floats are compared by bit pattern, so a NaN counts as equal to
      itself. */
  predicate SameUpToOrder(a: Json, b: Json) {
    match a
    case JList(xs) =>
      && b.JList? && |xs| == |b.items|
      && forall i :: 0 <= i < |xs| ==> SameUpToOrder(xs[i], b.items[i])
    case JDict(ms) =>
      && b.JDict?
      && (forall i :: 0 <= i < |ms| ==> MatchedIn(ms[i], b.members))
      && (forall j :: 0 <= j < |b.members| ==> MatchedBy(ms, b.members[j]))
    case _ => a == b
  }

  /** Some item of `ns` has the key of `m` and the same value. */
  predicate MatchedIn(m: Member, ns: seq<Member>) {
    exists j :: 0 <= j < |ns| && ns[j].key == m.key && SameUpToOrder(m.value, ns[j].value)
  }

  /** Some item of `ms` has the key of `n` and the same value. */
  predicate MatchedBy(ms: seq<Member>, n: Member) {
    exists i :: 0 <= i < |ms| && ms[i].key == n.key && SameUpToOrder(ms[i].value, n.value)
  }

  /** Every value is the same as itself. */
  lemma {:induction false} SameUpToOrderReflexive(j: Json)
    ensures SameUpToOrder(j, j)
  {
    match j
    case JList(xs) =>
      forall i | 0 <= i < |xs| ensures SameUpToOrder(xs[i], xs[i]) {
        SameUpToOrderReflexive(xs[i]);
      }
    case JDict(ms) =>
      forall i | 0 <= i < |ms| ensures MatchedIn(ms[i], ms) && MatchedBy(ms, ms[i]) {
        SameUpToOrderReflexive(ms[i].value);
        assert ms[i].key == ms[i].key && SameUpToOrder(ms[i].value, ms[i].value);
      }
    case _ =>
  }

  /** A dict and any reordering of its items hold the same data. */
  lemma PermutedDictSame(ms1: seq<Member>, ms2: seq<Member>)
    requires multiset(ms1) == multiset(ms2)
    ensures SameUpToOrder(JDict(ms1), JDict(ms2))
  {
    forall i | 0 <= i < |ms1| ensures MatchedIn(ms1[i], ms2) {
      assert ms1[i] in multiset(ms2);
      var j :| 0 <= j < |ms2| && ms2[j] == ms1[i];
      SameUpToOrderReflexive(ms1[i].value);
    }
    forall j | 0 <= j < |ms2| ensures MatchedBy(ms1, ms2[j]) {
      assert ms2[j] in multiset(ms1);
      var i :| 0 <= i < |ms1| && ms1[i] == ms2[j];
      SameUpToOrderReflexive(ms2[j].value);
    }
  }

  /** Replacing one value of a dict by the same data leaves the dict the
      same data. */
  lemma DictValueCongruence(ms: seq<Member>, k: int, v: Json)
    requires 0 <= k < |ms|
    requires SameUpToOrder(ms[k].value, v)
    ensures SameUpToOrder(JDict(ms), JDict(ms[k := Member(ms[k].key, v)]))
  {
    var ns := ms[k := Member(ms[k].key, v)];
    forall i | 0 <= i < |ms| ensures MatchedIn(ms[i], ns) && MatchedBy(ms, ns[i]) {
      if i != k {
        assert ns[i] == ms[i];
        SameUpToOrderReflexive(ms[i].value);
      } else {
        assert ns[i] == Member(ms[i].key, v);
      }
      MatchedInAt(ms[i], ns, i);
      MatchedByAt(ms, ns[i], i);
    }
    assert |ns| == |ms|;
    SameDictFromMatches(ms, ns);
  }

  lemma SameDictFromMatches(ms: seq<Member>, ns: seq<Member>)
    requires forall i :: 0 <= i < |ms| ==> MatchedIn(ms[i], ns)
    requires forall j :: 0 <= j < |ns| ==> MatchedBy(ms, ns[j])
    ensures SameUpToOrder(JDict(ms), JDict(ns))
  {
  }

  /** Replacing one item of a list by the same data leaves the list the
      same data. */
  lemma ListItemCongruence(xs: seq<Json>, k: int, v: Json)
    requires 0 <= k < |xs|
    requires SameUpToOrder(xs[k], v)
    ensures SameUpToOrder(JList(xs), JList(xs[k := v]))
  {
    forall i | 0 <= i < |xs| && i != k ensures SameUpToOrder(xs[i], xs[i]) {
      SameUpToOrderReflexive(xs[i]);
    }
  }

  /** Item `i` of a canonical dict is some item of the original dict with
      its value in canonical form. */
  lemma CanonicalItemFrom(ms: seq<Member>, i: int)
    requires 0 <= i < |SortKeys(JDict(ms)).members|
    ensures exists k :: 0 <= k < |ms| &&
              SortKeys(JDict(ms)).members[i] == Member(ms[k].key, SortKeys(ms[k].value))
  {
    var sorted := SortMembers(ms);
    assert sorted[i] in multiset(ms);
    var k :| 0 <= k < |ms| && ms[k] == sorted[i];
  }

  /** Every item of a dict appears, with its value in canonical form, in the
      canonical dict. */
  lemma CanonicalItemTo(ms: seq<Member>, k: int)
    requires 0 <= k < |ms|
    ensures Member(ms[k].key, SortKeys(ms[k].value)) in SortKeys(JDict(ms)).members
  {
    var sorted := SortMembers(ms);
    assert ms[k] in multiset(sorted);
    var i :| 0 <= i < |sorted| && sorted[i] == ms[k];
    assert SortKeys(JDict(ms)).members[i] == Member(ms[k].key, SortKeys(ms[k].value));
  }

  /** The sorted-key form holds the same data as the value it was made
      from: sorting only reorders dict items, at every depth. */
  lemma {:induction false} SortKeysSameData(j: Json)
    ensures SameUpToOrder(j, SortKeys(j))
  {
    match j
    case JList(xs) =>
      forall i | 0 <= i < |xs| ensures SameUpToOrder(xs[i], SortKeys(j).items[i]) {
        SortKeysSameData(xs[i]);
      }
    case JDict(ms) =>
      var out := SortKeys(j).members;
      forall k | 0 <= k < |ms| ensures MatchedIn(ms[k], out) {
        CanonicalItemTo(ms, k);
        var i :| 0 <= i < |out| && out[i] == Member(ms[k].key, SortKeys(ms[k].value));
        SortKeysSameData(ms[k].value);
        MatchedInAt(ms[k], out, i);
      }
      forall i | 0 <= i < |out| ensures MatchedBy(ms, out[i]) {
        CanonicalItemFrom(ms, i);
        var k :| 0 <= k < |ms| && out[i] == Member(ms[k].key, SortKeys(ms[k].value));
        SortKeysSameData(ms[k].value);
        MatchedByAt(ms, out[i], k);
      }
      SameDictFromMatches(ms, out);
    case _ =>
  }

  lemma MatchedInAt(m: Member, ns: seq<Member>, j: int)
    requires 0 <= j < |ns| && ns[j].key == m.key && SameUpToOrder(m.value, ns[j].value)
    ensures MatchedIn(m, ns)
  {
  }

  lemma MatchedByAt(ms: seq<Member>, n: Member, i: int)
    requires 0 <= i < |ms| && ms[i].key == n.key && SameUpToOrder(ms[i].value, n.value)
    ensures MatchedBy(ms, n)
  {
  }

  /** Values that differ only in the insertion order of dict items, at any
      depth, have one canonical form: `sort_keys=True` serialises them alike. */
  lemma {:induction false} SortKeysIgnoresInsertionOrder(a: Json, b: Json)
    requires WellFormed(a) && WellFormed(b)
    requires SameUpToOrder(a, b)
    ensures SortKeys(a) == SortKeys(b)
    decreases a, 1
  {
    match a
    case JList(xs) =>
      forall i | 0 <= i < |xs| ensures SortKeys(xs[i]) == SortKeys(b.items[i]) {
        SortKeysIgnoresInsertionOrder(xs[i], b.items[i]);
      }
    case JDict(ms1) =>
      CanonicalItemsSorted(ms1);
      CanonicalItemsSorted(b.members);
      CanonicalCoversForward(a, b);
      CanonicalCoversBackward(a, b);
      SortedSameItems(SortKeys(a).members, SortKeys(b).members);
    case _ =>
  }

  /** Every canonical item of `a` is a canonical item of `b`. */
  lemma {:induction false} CanonicalCoversForward(a: Json, b: Json)
    requires a.JDict? && b.JDict? && WellFormed(a) && WellFormed(b)
    requires SameUpToOrder(a, b)
    ensures forall x :: x in SortKeys(a).members ==> x in SortKeys(b).members
    decreases a, 0
  {
    var ms1, ms2 := a.members, b.members;
    forall x | x in SortKeys(a).members ensures x in SortKeys(b).members {
      var i :| 0 <= i < |SortKeys(a).members| && SortKeys(a).members[i] == x;
      CanonicalItemFrom(ms1, i);
      var k :| 0 <= k < |ms1| && x == Member(ms1[k].key, SortKeys(ms1[k].value));
      assert MatchedIn(ms1[k], ms2);
      var j :| 0 <= j < |ms2| && ms2[j].key == ms1[k].key
               && SameUpToOrder(ms1[k].value, ms2[j].value);
      SortKeysIgnoresInsertionOrder(ms1[k].value, ms2[j].value);
      CanonicalItemTo(ms2, j);
    }
  }

  /** Every canonical item of `b` is a canonical item of `a`. */
  lemma {:induction false} CanonicalCoversBackward(a: Json, b: Json)
    requires a.JDict? && b.JDict? && WellFormed(a) && WellFormed(b)
    requires SameUpToOrder(a, b)
    ensures forall x :: x in SortKeys(b).members ==> x in SortKeys(a).members
    decreases a, 0
  {
    var ms1, ms2 := a.members, b.members;
    forall x | x in SortKeys(b).members ensures x in SortKeys(a).members {
      var i :| 0 <= i < |SortKeys(b).members| && SortKeys(b).members[i] == x;
      CanonicalItemFrom(ms2, i);
      var j :| 0 <= j < |ms2| && x == Member(ms2[j].key, SortKeys(ms2[j].value));
      assert MatchedBy(ms1, ms2[j]);
      var k :| 0 <= k < |ms1| && ms1[k].key == ms2[j].key
               && SameUpToOrder(ms1[k].value, ms2[j].value);
      SortKeysIgnoresInsertionOrder(ms1[k].value, ms2[j].value);
      CanonicalItemTo(ms1, k);
    }
  }
}
