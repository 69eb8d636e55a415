/** Values shared by every part of the model: optional values, results and the
    exceptions the Python code raises, and Python dictionaries seen as a key
    order plus a map. */
module Basics {

  datatype Option<T> = None | Some(value: T)

  /** One constructor per exception raised by the modelled code. */
  datatype Error =
    | InvalidMode                                  // ValueError: unknown euler_angle_type
    | NotARotation                                 // AttributeError: .as_euler called on raw angles
    | MissingKey(key: int)                         // KeyError on a dictionary lookup
    | AttitudesWithoutManeuvers(difference: int)   // ValueError: too many attitudes
    | ManeuversWithoutAttitudes(difference: int)   // ValueError: too few attitudes

  datatype Result<T> = Ok(value: T) | Err(error: Error)

  /** `keys` is the iteration order of a Python dictionary whose entries are `d`:
      every key of `d` exactly once. */
  ghost predicate IsKeyOrder<V>(keys: seq<int>, d: map<int, V>) {
    && (forall i, j :: 0 <= i < j < |keys| ==> keys[i] != keys[j])
    && (forall k :: k in d <==> k in keys)
  }

  /** The integers lo, lo + 1, ..., hi - 1 in ascending order. */
  function Range(lo: int, hi: int): (r: seq<int>)
    ensures |r| == if lo <= hi then hi - lo else 0
    ensures forall i :: 0 <= i < |r| ==> r[i] == lo + i
    ensures forall k :: k in r <==> lo <= k < hi
    decreases hi - lo
  {
    if hi <= lo then [] else Range(lo, hi - 1) + [hi - 1]
  }

  /** Dropping the last key of the order drops that entry of the dictionary. */
  lemma KeyOrderDropLast<V>(keys: seq<int>, d: map<int, V>)
    requires IsKeyOrder(keys, d) && keys != []
    ensures IsKeyOrder(keys[..|keys| - 1], d - {keys[|keys| - 1]})
  {
    var rest := keys[..|keys| - 1];
    forall k | k in rest
      ensures k in d && k != keys[|keys| - 1]
    {
      var i :| 0 <= i < |rest| && rest[i] == k;
      assert keys[i] == k;
    }
    forall k | k in d && k != keys[|keys| - 1]
      ensures k in rest
    {
      var i :| 0 <= i < |keys| && keys[i] == k;
      assert rest[i] == k;
    }
  }

  /** A dictionary has as many entries as its iteration order has keys. */
  lemma {:induction false} KeyOrderLength<V>(keys: seq<int>, d: map<int, V>)
    requires IsKeyOrder(keys, d)
    ensures |d| == |keys|
  {
    if keys != [] {
      var last := keys[|keys| - 1];
      var smaller := d - {last};
      KeyOrderDropLast(keys, d);
      KeyOrderLength(keys[..|keys| - 1], smaller);
      assert last in d && last !in smaller.Keys;
      assert d.Keys == smaller.Keys + {last};
      assert |d.Keys| == |smaller.Keys| + 1;
      assert |d| == |d.Keys| && |smaller| == |smaller.Keys|;
    } else {
      assert forall k :: k in d ==> k in keys;
      assert d == map[];
    }
  }

  /** A dictionary keyed by exactly the integers lo..hi-1 has hi - lo entries. */
  lemma RangeMapSize<V>(d: map<int, V>, lo: int, hi: int)
    requires lo <= hi
    requires forall k :: k in d <==> lo <= k < hi
    ensures |d| == hi - lo
  {
    KeyOrderLength(Range(lo, hi), d);
  }

  /** Dropping the last element of lo..hi-1 leaves lo..hi-2. */
  lemma RangeDropLast(lo: int, hi: int)
    requires lo < hi
    ensures Range(lo, hi)[..hi - lo - 1] == Range(lo, hi - 1)
  {
  }
}
