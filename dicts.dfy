/**
 * Python dictionaries with string keys, in insertion order: a sequence of
 * `(key, value)` pairs. Assigning to an existing key keeps its position;
 * assigning to a new key appends it.
 */
module Dicts {
  import opened Wrappers

  type Dict<V> = seq<(string, V)>

  /** Dictionary keys are distinct. */
  ghost predicate UniqueKeys<V>(d: Dict<V>)
  {
    forall i, j | 0 <= i < j < |d| :: d[i].0 != d[j].0
  }

  /** `key in d`. */
  predicate HasKey<V>(d: Dict<V>, key: string)
  {
    exists i | 0 <= i < |d| :: d[i].0 == key
  }

  /** Position of `key` in insertion order. */
  function IndexOf<V>(d: Dict<V>, key: string): (r: Option<nat>)
    ensures r.Some? ==> r.value < |d| && d[r.value].0 == key
    ensures r.Some? ==> forall j | 0 <= j < r.value :: d[j].0 != key
    ensures r.None? <==> !HasKey(d, key)
    decreases |d|
  {
    if |d| == 0 then None
    else if d[0].0 == key then Some(0)
    else match IndexOf(d[1..], key)
         case None => None
         case Some(i) => Some(i + 1)
  }

  /** `d.get(key)`. */
  function Get<V>(d: Dict<V>, key: string): (r: Option<V>)
    ensures r.Some? <==> HasKey(d, key)
  {
    match IndexOf(d, key)
    case None => None
    case Some(i) => Some(d[i].1)
  }

  /** `d[key] = v`: an existing key keeps its position and gets the new value; a new key is appended. */
  function Put<V>(d: Dict<V>, key: string, v: V): (r: Dict<V>)
    ensures HasKey(d, key) ==> |r| == |d|
    ensures !HasKey(d, key) ==> r == d + [(key, v)]
    ensures forall i | 0 <= i < |d| :: r[i].0 == d[i].0
    ensures Get(r, key) == Some(v)
    ensures forall k | k != key :: Get(r, k) == Get(d, k)
    ensures UniqueKeys(d) ==> UniqueKeys(r)
  {
    match IndexOf(d, key)
    case None =>
      var r := d + [(key, v)];
      assert forall k | k != key :: IndexOf(r, k) == IndexOf(d, k) by {
        forall k | k != key ensures IndexOf(r, k) == IndexOf(d, k) { IndexOfAppend(d, (key, v), k); }
      }
      assert IndexOf(r, key) == Some(|d|) by { IndexOfAppend(d, (key, v), key); }
      r
    case Some(i) =>
      var r := d[i := (key, v)];
      assert forall k | k != key :: IndexOf(r, k) == IndexOf(d, k) by {
        forall k | k != key ensures IndexOf(r, k) == IndexOf(d, k) { IndexOfUpdate(d, i, v, k); }
      }
      assert IndexOf(r, key) == Some(i) by { IndexOfUpdate(d, i, v, key); }
      r
  }

  lemma {:induction false} IndexOfAppend<V>(d: Dict<V>, e: (string, V), k: string)
    ensures IndexOf(d + [e], k) == if HasKey(d, k) then IndexOf(d, k) else if e.0 == k then Some(|d|) else None
    decreases |d|
  {
    if |d| > 0 {
      assert (d + [e])[1..] == d[1..] + [e];
      IndexOfAppend(d[1..], e, k);
      assert HasKey(d, k) <==> d[0].0 == k || HasKey(d[1..], k) by {
        if HasKey(d[1..], k) { var j :| 0 <= j < |d[1..]| && d[1..][j].0 == k; assert d[j + 1].0 == k; }
        if HasKey(d, k) && d[0].0 != k { var j :| 0 <= j < |d| && d[j].0 == k; assert d[1..][j - 1].0 == k; }
      }
    }
  }

  lemma {:induction false} IndexOfUpdate<V>(d: Dict<V>, i: nat, v: V, k: string)
    requires i < |d| && IndexOf(d, d[i].0) == Some(i)
    ensures IndexOf(d[i := (d[i].0, v)], k) == IndexOf(d, k)
    decreases |d|
  {
    if i > 0 {
      assert d[0].0 != d[i].0;
      assert d[i := (d[i].0, v)][1..] == d[1..][i - 1 := (d[i].0, v)];
      IndexOfUpdate(d[1..], i - 1, v, k);
    }
  }

  /** Storing the value a key already has changes nothing. */
  lemma PutSame<V>(d: Dict<V>, key: string, v: V)
    requires Get(d, key) == Some(v)
    ensures Put(d, key, v) == d
  {
    var i := IndexOf(d, key).value;
    assert d[i] == (key, v);
    assert d[i := (key, v)] == d;
  }

  /** The last write to `key` in a list of dictionary assignments, if any. */
  function LastWrite<V>(ws: seq<(string, V)>, key: string): (r: Option<V>)
    ensures r.None? <==> forall i | 0 <= i < |ws| :: ws[i].0 != key
    ensures r.Some? ==> exists i | 0 <= i < |ws| :: ws[i] == (key, r.value)
    decreases |ws|
  {
    if |ws| == 0 then None
    else if ws[|ws| - 1].0 == key then Some(ws[|ws| - 1].1)
    else
      var r := LastWrite(ws[..|ws| - 1], key);
      assert forall i | 0 <= i < |ws| - 1 :: ws[..|ws| - 1][i] == ws[i];
      r
  }

  /** The assignments `d[k] = v`, one after another. */
  function PutAll<V>(d: Dict<V>, ws: seq<(string, V)>): Dict<V>
    decreases |ws|
  {
    if |ws| == 0 then d
    else Put(PutAll(d, ws[..|ws| - 1]), ws[|ws| - 1].0, ws[|ws| - 1].1)
  }

  /** After a run of assignments each key holds its last assigned value; unassigned keys keep theirs. */
  lemma {:induction false} PutAllLastWrite<V>(d: Dict<V>, ws: seq<(string, V)>, key: string)
    ensures Get(PutAll(d, ws), key) == if LastWrite(ws, key).Some? then LastWrite(ws, key) else Get(d, key)
    decreases |ws|
  {
    if |ws| > 0 {
      PutAllLastWrite(d, ws[..|ws| - 1], key);
    }
  }

  lemma {:induction false} PutAllConcat<V>(d: Dict<V>, a: seq<(string, V)>, b: seq<(string, V)>)
    ensures PutAll(d, a + b) == PutAll(PutAll(d, a), b)
    decreases |b|
  {
    if |b| == 0 {
      assert a + b == a;
    } else {
      assert (a + b)[..|a + b| - 1] == a + b[..|b| - 1];
      PutAllConcat(d, a, b[..|b| - 1]);
    }
  }

  lemma {:induction false} LastWriteConcat<V>(a: seq<(string, V)>, b: seq<(string, V)>, key: string)
    ensures LastWrite(a + b, key) == if LastWrite(b, key).Some? then LastWrite(b, key) else LastWrite(a, key)
    decreases |b|
  {
    if |b| == 0 {
      assert a + b == a;
    } else {
      assert (a + b)[..|a + b| - 1] == a + b[..|b| - 1];
      LastWriteConcat(a, b[..|b| - 1], key);
    }
  }

  /** One more assignment from the list. */
  lemma PutAllSnoc<V>(d: Dict<V>, ws: seq<(string, V)>, i: nat)
    requires i < |ws|
    ensures PutAll(d, ws[..i + 1]) == Put(PutAll(d, ws[..i]), ws[i].0, ws[i].1)
  {
    assert ws[..i + 1][..i] == ws[..i];
  }

  /** A key assigned somewhere in the list is present afterwards. */
  lemma PutAllHasWritten<V>(d: Dict<V>, ws: seq<(string, V)>, i: nat)
    requires i < |ws|
    ensures HasKey(PutAll(d, ws), ws[i].0)
  {
    PutAllLastWrite(d, ws, ws[i].0);
  }

  /** A key present before the assignments is present after them. */
  lemma PutAllKeepsKey<V>(d: Dict<V>, ws: seq<(string, V)>, key: string)
    requires HasKey(d, key)
    ensures HasKey(PutAll(d, ws), key)
  {
    PutAllLastWrite(d, ws, key);
  }
}
