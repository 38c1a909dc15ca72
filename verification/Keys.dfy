/** The order of a sorted set: by score, then by name (zless in zset.cpp). */
module Keys {
  import opened Bytes

  datatype Key = Key(score: real, name: ByteString)

  /** memcmp over the first n bytes. */
  function MemCmp(a: ByteString, b: ByteString, n: nat): int
    requires n <= |a| && n <= |b|
  {
    if n == 0 then 0
    else if a[0] != b[0] then (if a[0] < b[0] then -1 else 1)
    else MemCmp(a[1..], b[1..], n - 1)
  }

  /** zless. */
  predicate ZLess(a: Key, b: Key) {
    if a.score != b.score then a.score < b.score
    else
      var minLen := if |a.name| < |b.name| then |a.name| else |b.name|;
      var cmp := MemCmp(a.name, b.name, minLen);
      if cmp != 0 then cmp < 0 else |a.name| < |b.name|
  }

  /** The lexicographic order on names. */
  predicate NameLess(a: ByteString, b: ByteString) {
    b != [] && (a == [] || a[0] < b[0] || (a[0] == b[0] && NameLess(a[1..], b[1..])))
  }

  lemma {:induction false} CompareIsNameLess(a: ByteString, b: ByteString)
    ensures var n := if |a| < |b| then |a| else |b|; var cmp := MemCmp(a, b, n);
      NameLess(a, b) <==> if cmp != 0 then cmp < 0 else |a| < |b|
  {
    if a != [] && b != [] {
      CompareIsNameLess(a[1..], b[1..]);
    }
  }

  /** zless orders by score and breaks ties by name. */
  lemma ZLessIsLexicographic(a: Key, b: Key)
    ensures ZLess(a, b) <==> a.score < b.score || (a.score == b.score && NameLess(a.name, b.name))
  {
    CompareIsNameLess(a.name, b.name);
  }

  lemma {:induction false} NameLessIsTotal(a: ByteString, b: ByteString)
    ensures NameLess(a, b) ==> !NameLess(b, a)
    ensures NameLess(a, b) || NameLess(b, a) <==> a != b
  {
    if a != [] && b != [] {
      NameLessIsTotal(a[1..], b[1..]);
      assert a == [a[0]] + a[1..] && b == [b[0]] + b[1..];
    }
  }

  lemma {:induction false} NameLessIsTransitive(a: ByteString, b: ByteString, c: ByteString)
    requires NameLess(a, b) && NameLess(b, c)
    ensures NameLess(a, c)
  {
    if a != [] && b != [] && c != [] && a[0] == b[0] == c[0] {
      NameLessIsTransitive(a[1..], b[1..], c[1..]);
    }
  }

  /** zless is a strict total order on keys. */
  lemma ZLessIsTotalOrder(a: Key, b: Key, c: Key)
    ensures ZLess(a, b) ==> !ZLess(b, a)
    ensures ZLess(a, b) || ZLess(b, a) <==> a != b
    ensures ZLess(a, b) && ZLess(b, c) ==> ZLess(a, c)
  {
    ZLessIsLexicographic(a, b);
    ZLessIsLexicographic(b, a);
    ZLessIsLexicographic(b, c);
    ZLessIsLexicographic(a, c);
    NameLessIsTotal(a.name, b.name);
    if NameLess(a.name, b.name) && NameLess(b.name, c.name) {
      NameLessIsTransitive(a.name, b.name, c.name);
    }
  }

  /** Strictly ascending. */
  predicate Sorted(s: seq<Key>) {
    forall i, j :: 0 <= i < j < |s| ==> ZLess(s[i], s[j])
  }

  /** The number of keys at the front of s that are below the probe. */
  function LowerBound(s: seq<Key>, probe: Key): (k: nat)
    ensures k <= |s|
  {
    if s == [] || !ZLess(s[0], probe) then 0 else 1 + LowerBound(s[1..], probe)
  }

  lemma {:induction false} LowerBoundAt(s: seq<Key>, probe: Key, k: nat)
    requires k <= |s| && (forall i :: 0 <= i < k ==> ZLess(s[i], probe)) && (k < |s| ==> !ZLess(s[k], probe))
    ensures LowerBound(s, probe) == k
  {
    if k > 0 {
      assert forall i :: 0 <= i < k - 1 ==> s[1..][i] == s[i + 1];
      LowerBoundAt(s[1..], probe, k - 1);
    }
  }

  /** In a sorted sequence the lower bound separates the keys below the probe from the others. */
  lemma {:induction false} LowerBoundSeparates(s: seq<Key>, probe: Key, i: nat)
    requires Sorted(s) && i < |s|
    ensures i < LowerBound(s, probe) <==> ZLess(s[i], probe)
  {
    ZLessIsTotalOrder(s[0], s[i], probe);
    if i > 0 && ZLess(s[0], probe) {
      LowerBoundSeparates(s[1..], probe, i - 1);
    }
  }

  /** A set of keys has one sorted listing. */
  lemma {:induction false} SortedIsUnique(a: seq<Key>, b: seq<Key>)
    requires Sorted(a) && Sorted(b) && forall key :: key in a <==> key in b
    ensures a == b
  {
    if a != [] {
      assert a[0] in a;
      assert b != [];
    }
    if b != [] {
      assert b[0] in b;
      assert a != [];
      SameFirst(a, b);
      RestSame(a, b);
      SortedIsUnique(a[1..], b[1..]);
      assert a == [a[0]] + a[1..] && b == [b[0]] + b[1..];
    }
  }

  lemma {:induction false} SameFirst(a: seq<Key>, b: seq<Key>)
    requires Sorted(a) && Sorted(b) && a != [] && b != [] && a[0] in b && b[0] in a
    ensures a[0] == b[0]
  {
    var i :| 0 <= i < |b| && b[i] == a[0];
    var j :| 0 <= j < |a| && a[j] == b[0];
    ZLessIsTotalOrder(a[0], b[0], a[0]);
  }

  lemma {:induction false} InRest(s: seq<Key>, key: Key)
    requires Sorted(s) && s != []
    ensures key in s[1..] <==> key in s && key != s[0]
  {
    assert s == [s[0]] + s[1..];
    ZLessIsTotalOrder(key, key, key);
  }

  lemma {:induction false} RestSame(a: seq<Key>, b: seq<Key>)
    requires Sorted(a) && Sorted(b) && a != [] && b != [] && a[0] == b[0] && forall key :: key in a <==> key in b
    ensures forall key :: key in a[1..] <==> key in b[1..]
  {
    forall key
      ensures key in a[1..] <==> key in b[1..]
    {
      InRest(a, key);
      InRest(b, key);
    }
  }
}
