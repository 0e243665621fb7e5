/**
 * The array helpers of keymaster.js, stated on sequences: `index`,
 * `compareArray`, and the `Array.prototype` operations the library relies on
 * (`indexOf`, `splice(i, 1)`).
 */
module Arrays {

  /** No element occurs twice. */
  predicate NoDuplicates<T(==)>(a: seq<T>)
  {
    forall i, j :: 0 <= i < j < |a| ==> a[i] != a[j]
  }

  /**
   * `index(array, item)`: the loop runs from the end towards the front, so the
   * position found is the LAST one holding `item`; -1 when there is none.
   */
  function Index<T(==)>(a: seq<T>, item: T): (r: int)
    ensures -1 <= r < |a|
    ensures r == -1 <==> item !in a
    ensures r >= 0 ==> a[r] == item && item !in a[r + 1..]
  {
    if |a| == 0 then -1
    else if a[|a| - 1] == item then |a| - 1
    else
      var front := a[..|a| - 1];
      assert a == front + [a[|a| - 1]];
      var i := Index(front, item);
      assert i >= 0 ==> a[i + 1..] == front[i + 1..] + [a[|a| - 1]];
      i
  }

  /** `Array.prototype.indexOf`: the FIRST position holding `item`; -1 when there is none. */
  function IndexOf<T(==)>(a: seq<T>, item: T): (r: int)
    ensures -1 <= r < |a|
    ensures r == -1 <==> item !in a
    ensures r >= 0 ==> a[r] == item && item !in a[..r]
  {
    if |a| == 0 then -1
    else if a[0] == item then 0
    else
      var i := IndexOf(a[1..], item);
      assert a == [a[0]] + a[1..];
      assert i >= 0 ==> a[..i + 1] == [a[0]] + a[1..][..i];
      if i == -1 then -1 else i + 1
  }

  /** `splice(i, 1)`: the element at `i` is taken out, the others close up in order. */
  function RemoveAt<T>(a: seq<T>, i: nat): (r: seq<T>)
    requires i < |a|
    ensures |r| == |a| - 1
    ensures forall j :: 0 <= j < i ==> r[j] == a[j]
    ensures forall j :: i <= j < |r| ==> r[j] == a[j + 1]
    ensures multiset(r) == multiset(a) - multiset{a[i]}
  {
    assert a == a[..i] + [a[i]] + a[i + 1..];
    a[..i] + a[i + 1..]
  }

  /**
   * `compareArray(a1, a2)`: equal lengths and `===` at every position, so it
   * decides sequence equality (order-sensitive, not set equality).
   */
  function CompareArray<T(==)>(a1: seq<T>, a2: seq<T>): (r: bool)
    ensures r <==> a1 == a2
  {
    if |a1| != |a2| then false
    else if |a1| == 0 then true
    else
      assert a1 == [a1[0]] + a1[1..] && a2 == [a2[0]] + a2[1..];
      a1[0] == a2[0] && CompareArray(a1[1..], a2[1..])
  }

  /** Splicing out one element of a list without duplicates removes that value entirely and keeps the rest distinct. */
  lemma RemoveAtDistinct<T>(a: seq<T>, i: nat)
    requires i < |a|
    ensures NoDuplicates(a) ==> NoDuplicates(RemoveAt(a, i)) && a[i] !in RemoveAt(a, i)
  {
    if !NoDuplicates(a) {
      return;
    }
    var r := RemoveAt(a, i);
    forall j, k | 0 <= j < k < |r| ensures r[j] != r[k] {
      var j' := if j < i then j else j + 1;
      var k' := if k < i then k else k + 1;
      assert r[j] == a[j'] && r[k] == a[k'];
    }
    forall j | 0 <= j < |r| ensures r[j] != a[i] {
      var j' := if j < i then j else j + 1;
      assert r[j] == a[j'];
    }
  }

  /** Splicing out one element leaves every other value present exactly when it was before. */
  lemma RemoveAtOthers<T>(a: seq<T>, i: nat)
    requires i < |a|
    ensures forall c :: c != a[i] ==> (c in RemoveAt(a, i) <==> c in a)
  {
    var r := RemoveAt(a, i);
    forall c | c != a[i] ensures c in r <==> c in a {
      assert c in r <==> multiset(r)[c] > 0;
      assert c in a <==> multiset(a)[c] > 0;
    }
  }

  /** Concatenation regroups; stated once so that callers need not re-derive it. */
  lemma Associative<T>(a: seq<T>, b: seq<T>, c: seq<T>)
    ensures (a + b) + c == a + (b + c)
  {
  }
}
