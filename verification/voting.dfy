/**
 * `find_most_common(values)`: `Counter(values).most_common(1)[0][0]`. A
 * Counter keeps its keys in the order of their first occurrence, and
 * `most_common` ranks them by count with a stable sort, so the answer is the
 * value of highest count that was seen first.
 */
module Voting {

  /** Number of occurrences of x in s. */
  function Count<T(==)>(s: seq<T>, x: T): (n: nat)
    ensures n <= |s|
    ensures n > 0 <==> x in s
  {
    if s == [] then 0 else Count(s[..|s| - 1], x) + (if s[|s| - 1] == x then 1 else 0)
  }

  /** Position of the first occurrence of x in s. */
  function FirstIndex<T(==)>(s: seq<T>, x: T): (k: nat)
    requires x in s
    ensures k < |s| && s[k] == x
    ensures forall i :: 0 <= i < k ==> s[i] != x
  {
    if s[0] == x then 0 else 1 + FirstIndex(s[1..], x)
  }

  /** The keys of `Counter(s)`: each distinct value once, in order of first occurrence. */
  function Keys<T(==)>(s: seq<T>): seq<T>
  {
    if s == [] then []
    else
      var d := Keys(s[..|s| - 1]);
      if s[|s| - 1] in d then d else d + [s[|s| - 1]]
  }

  /** The keys are exactly the values of s, ordered by where each first occurs. */
  lemma {:induction false} KeysSpec<T>(s: seq<T>)
    ensures forall x :: x in Keys(s) <==> x in s
    ensures forall i, j :: 0 <= i < j < |Keys(s)| ==> FirstIndex(s, Keys(s)[i]) < FirstIndex(s, Keys(s)[j])
  {
    if s != [] {
      var init, last := s[..|s| - 1], s[|s| - 1];
      KeysSpec(init);
      assert s == init + [last];
      var d := Keys(init);
      forall y | y in init
        ensures FirstIndex(s, y) == FirstIndex(init, y)
      {
        var k := FirstIndex(init, y);
        assert s[k] == y;
      }
      if last !in d {
        assert last !in init;
        assert FirstIndex(s, last) == |s| - 1;
        var d' := d + [last];
        forall i, j | 0 <= i < j < |d'|
          ensures FirstIndex(s, d'[i]) < FirstIndex(s, d'[j])
        {
          assert d'[i] == d[i] && d[i] in d;
          if j < |d| {
            assert d'[j] == d[j] && d'[i] == d[i];
          }
        }
      }
    }
  }

  /**
   * `most_common(1)[0][0]` over the keys: the first key whose count is the
   * largest; a later key wins only with a strictly larger count.
   */
  function MostCommon<T(==)>(keys: seq<T>, values: seq<T>): (v: T)
    requires |keys| > 0
  {
    if |keys| == 1 then keys[0]
    else
      var m := MostCommon(keys[..|keys| - 1], values);
      if Count(values, keys[|keys| - 1]) > Count(values, m) then keys[|keys| - 1] else m
  }

  /**
   * The winner is a key, no key has a higher count, and every key before it
   * has a strictly lower count.
   */
  lemma {:induction false} MostCommonSpec<T>(keys: seq<T>, values: seq<T>)
    requires |keys| > 0
    ensures exists w {:trigger keys[w]} :: 0 <= w < |keys| && keys[w] == MostCommon(keys, values) &&
              forall i :: 0 <= i < w ==> Count(values, keys[i]) < Count(values, keys[w])
    ensures forall k :: k in keys ==> Count(values, k) <= Count(values, MostCommon(keys, values))
  {
    if |keys| > 1 {
      var init := keys[..|keys| - 1];
      MostCommonSpec(init, values);
      var m := MostCommon(init, values);
      var w :| 0 <= w < |init| && init[w] == m && forall i :: 0 <= i < w ==> Count(values, init[i]) < Count(values, init[w]);
      assert keys == init + [keys[|keys| - 1]];
      if Count(values, keys[|keys| - 1]) > Count(values, m) {
        assert keys[|keys| - 1] == MostCommon(keys, values);
        forall i | 0 <= i < |keys| - 1
          ensures Count(values, keys[i]) < Count(values, keys[|keys| - 1])
        {
          assert keys[i] in init;
        }
      } else {
        assert keys[w] == init[w];
      }
    } else {
      assert keys[0] == MostCommon(keys, values);
    }
  }

  /**
   * `find_most_common`: an element of the non-empty list with the highest
   * count; among the elements of that count, the one that occurs first.
   */
  function FindMostCommon<T(==)>(values: seq<T>): (v: T)
    requires |values| > 0
    ensures v in values
    ensures forall x :: x in values ==> Count(values, x) <= Count(values, v)
    ensures forall k :: 0 <= k < |values| && Count(values, values[k]) == Count(values, v) ==>
              FirstIndex(values, v) <= k
  {
    var keys := Keys(values);
    KeysSpec(values);
    assert values[0] in keys;
    MostCommonSpec(keys, values);
    var v := MostCommon(keys, values);
    FirstOfMaximal(values, keys, v);
    v
  }

  /** Why the winner over the keys is the first-seen value of the highest count. */
  lemma FirstOfMaximal<T>(values: seq<T>, keys: seq<T>, v: T)
    requires forall x :: x in keys <==> x in values
    requires forall i, j :: 0 <= i < j < |keys| ==> FirstIndex(values, keys[i]) < FirstIndex(values, keys[j])
    requires exists w {:trigger keys[w]} :: 0 <= w < |keys| && keys[w] == v &&
               forall i :: 0 <= i < w ==> Count(values, keys[i]) < Count(values, keys[w])
    ensures forall k :: 0 <= k < |values| && Count(values, values[k]) == Count(values, v) ==>
              FirstIndex(values, v) <= k
  {
    var w :| 0 <= w < |keys| && keys[w] == v && forall i :: 0 <= i < w ==> Count(values, keys[i]) < Count(values, keys[w]);
    forall k | 0 <= k < |values| && Count(values, values[k]) == Count(values, v)
      ensures FirstIndex(values, v) <= k
    {
      var x := values[k];
      assert x in keys;
      var i :| 0 <= i < |keys| && keys[i] == x;
      if i > w {
        assert FirstIndex(values, keys[w]) < FirstIndex(values, keys[i]);
      }
    }
  }
}
