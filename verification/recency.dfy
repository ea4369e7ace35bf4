/**
 * The recency list of the cache, abstracted from Go's `container/list` to a
 * sequence of keys: index 0 is the front (most recently used), the last index
 * is the back (least recently used). Only the list operations the cache uses
 * are modelled: push to the front, move to the front, remove, and the back.
 */
module Recency {

  /** No element occurs twice. */
  predicate Distinct<K(==, !new)>(s: seq<K>) {
    forall i, j :: 0 <= i < j < |s| ==> s[i] != s[j]
  }

  /** The list with `k` taken out; RemoveAt states that the others keep their order. */
  function Remove<K(==, !new)>(s: seq<K>, k: K): (r: seq<K>)
    ensures forall x :: x in r <==> x in s && x != k
    ensures k !in s ==> r == s
    ensures Distinct(s) ==> Distinct(r)
    ensures Distinct(s) && k in s ==> |r| == |s| - 1
  {
    if s == [] then []
    else if s[0] == k then Remove(s[1..], k)
    else
      var rest := Remove(s[1..], k);
      assert Distinct(s) ==> Distinct([s[0]] + rest) by {
        if Distinct(s) {
          forall i, j | 0 <= i < j < |[s[0]] + rest| ensures ([s[0]] + rest)[i] != ([s[0]] + rest)[j] {
            if i == 0 {
              assert ([s[0]] + rest)[j] == rest[j - 1];
              assert rest[j - 1] in s[1..];
              assert s[0] !in s[1..] by {
                forall m | 0 <= m < |s[1..]| ensures s[1..][m] != s[0] { assert s[1..][m] == s[m + 1]; }
              }
            }
          }
        }
      }
      [s[0]] + rest
  }

  /** `k` moved to the front; the others keep their relative order. */
  function MoveToFront<K(==, !new)>(s: seq<K>, k: K): (r: seq<K>)
    requires k in s
    ensures |r| > 0 && r[0] == k
    ensures forall x :: x in r <==> x in s
    ensures Distinct(s) ==> Distinct(r) && |r| == |s|
    ensures Remove(r, k) == Remove(s, k)
  {
    assert ([k] + Remove(s, k))[1..] == Remove(s, k);
    [k] + Remove(s, k)
  }

  /**
   * In a list without duplicates, removing the element at position `i` leaves
   * exactly the elements before it followed by those after it, in their order.
   */
  lemma {:induction false} RemoveAt<K(!new)>(s: seq<K>, i: int)
    requires Distinct(s) && 0 <= i < |s|
    ensures Remove(s, s[i]) == s[..i] + s[i + 1..]
  {
    var t := s[1..];
    assert Distinct(t);
    if i == 0 {
      assert s[0] !in t by {
        forall m | 0 <= m < |t| ensures t[m] != s[0] { assert t[m] == s[m + 1]; }
      }
    } else {
      assert t[i - 1] == s[i];
      RemoveAt(t, i - 1);
      assert s[0] != s[i];
      assert s[..i] + s[i + 1..] == [s[0]] + (t[..i - 1] + t[i..]);
    }
  }

  /** The elements of a list, as a set. */
  ghost function Elements<K(!new)>(s: seq<K>): set<K> {
    set x | x in s
  }

  /** A list without duplicates has as many elements as positions. */
  lemma {:induction false} DistinctCardinality<K(!new)>(s: seq<K>)
    requires Distinct(s)
    ensures |Elements(s)| == |s|
  {
    if s != [] {
      var t := s[1..];
      assert Distinct(t);
      DistinctCardinality(t);
      assert s[0] !in Elements(t) by {
        forall m | 0 <= m < |t| ensures t[m] != s[0] { assert t[m] == s[m + 1]; }
      }
      assert Elements(s) == {s[0]} + Elements(t) by {
        assert s == [s[0]] + t;
      }
    }
  }
}
