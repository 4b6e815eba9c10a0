/**
 * The order of the game list: `sorted(games, key=sort_key)` where the key
 * puts parents before clones and orders each group by the lower-cased
 * display name.
 */
module GameList {
  import opened Text

  /** One listed game: ROM name, display name, and whether it is a clone. */
  datatype Game = Game(rom: string, display: string, isClone: bool)

  /** `sort_key`: `(1 if is_clone else 0, display_name.lower())`. */
  datatype SortKey = SortKey(clonePriority: nat, alpha: string)

  function KeyOf(g: Game): SortKey
  {
    SortKey(if g.isClone then 1 else 0, Lower(g.display))
  }

  /** Python's tuple comparison `a <= b` on sort keys. */
  predicate KeyLe(a: SortKey, b: SortKey)
  {
    a.clonePriority < b.clonePriority || (a.clonePriority == b.clonePriority && LexLe(a.alpha, b.alpha))
  }

  lemma KeyLeTotal(a: SortKey, b: SortKey)
    ensures KeyLe(a, b) || KeyLe(b, a)
  {
    LexLeTotal(a.alpha, b.alpha);
  }

  lemma KeyLeTransitive(a: SortKey, b: SortKey, c: SortKey)
    requires KeyLe(a, b) && KeyLe(b, c)
    ensures KeyLe(a, c)
  {
    if a.clonePriority == b.clonePriority == c.clonePriority {
      LexLeTransitive(a.alpha, b.alpha, c.alpha);
    }
  }

  /** Every game's key is at most the key of every game after it. */
  predicate Sorted(gs: seq<Game>)
  {
    forall i, j | 0 <= i < j < |gs| :: KeyLe(KeyOf(gs[i]), KeyOf(gs[j]))
  }

  /** Inserts `g` before the first game whose key is not smaller, so that `g` precedes games with an equal key. */
  function Insert(g: Game, gs: seq<Game>): (r: seq<Game>)
    ensures multiset(r) == multiset(gs) + multiset{g}
    decreases |gs|
  {
    if |gs| == 0 then [g]
    else if KeyLe(KeyOf(g), KeyOf(gs[0])) then [g] + gs
    else
      assert gs == [gs[0]] + gs[1..];
      [gs[0]] + Insert(g, gs[1..])
  }

  /** A list stays sorted when a game whose key is at most every key in it is put in front. */
  lemma SortedCons(g: Game, gs: seq<Game>)
    requires Sorted(gs) && forall j | 0 <= j < |gs| :: KeyLe(KeyOf(g), KeyOf(gs[j]))
    ensures Sorted([g] + gs)
  {
    var r := [g] + gs;
    forall i, j | 0 <= i < j < |r| ensures KeyLe(KeyOf(r[i]), KeyOf(r[j])) {
      assert r[j] == gs[j - 1];
      if i > 0 { assert r[i] == gs[i - 1]; }
    }
  }

  /** A bound below `g` and below every game of `gs` is below every game of the insertion. */
  lemma InsertLowerBound(a: SortKey, g: Game, gs: seq<Game>)
    requires KeyLe(a, KeyOf(g)) && forall j | 0 <= j < |gs| :: KeyLe(a, KeyOf(gs[j]))
    ensures forall j | 0 <= j < |Insert(g, gs)| :: KeyLe(a, KeyOf(Insert(g, gs)[j]))
  {
    var r := Insert(g, gs);
    forall j | 0 <= j < |r| ensures KeyLe(a, KeyOf(r[j])) {
      assert r[j] in multiset(r);
      if r[j] != g {
        assert r[j] in multiset(gs);
        var k :| 0 <= k < |gs| && gs[k] == r[j];
      }
    }
  }

  lemma {:induction false} InsertSorted(g: Game, gs: seq<Game>)
    requires Sorted(gs)
    ensures Sorted(Insert(g, gs))
    decreases |gs|
  {
    if |gs| == 0 {
    } else if KeyLe(KeyOf(g), KeyOf(gs[0])) {
      forall j | 0 <= j < |gs| ensures KeyLe(KeyOf(g), KeyOf(gs[j])) {
        if j > 0 { KeyLeTransitive(KeyOf(g), KeyOf(gs[0]), KeyOf(gs[j])); }
      }
      SortedCons(g, gs);
    } else {
      KeyLeTotal(KeyOf(g), KeyOf(gs[0]));
      var rest := gs[1..];
      assert Sorted(rest) by {
        forall i, j | 0 <= i < j < |rest| ensures KeyLe(KeyOf(rest[i]), KeyOf(rest[j])) {
          assert rest[i] == gs[i + 1] && rest[j] == gs[j + 1];
        }
      }
      InsertSorted(g, rest);
      assert forall j | 0 <= j < |rest| :: KeyLe(KeyOf(gs[0]), KeyOf(rest[j])) by {
        forall j | 0 <= j < |rest| ensures KeyLe(KeyOf(gs[0]), KeyOf(rest[j])) { assert rest[j] == gs[j + 1]; }
      }
      InsertLowerBound(KeyOf(gs[0]), g, rest);
      SortedCons(gs[0], Insert(g, rest));
    }
  }

  /** `sorted(games, key=sort_key)`, as an insertion sort from the back of the list. */
  function SortGames(gs: seq<Game>): (r: seq<Game>)
    ensures multiset(r) == multiset(gs)
    decreases |gs|
  {
    if |gs| == 0 then []
    else
      assert gs == [gs[0]] + gs[1..];
      Insert(gs[0], SortGames(gs[1..]))
  }

  /** The sorted list is ordered by the key and holds exactly the listed games. */
  lemma {:induction false} SortGamesSorted(gs: seq<Game>)
    ensures Sorted(SortGames(gs))
    ensures multiset(SortGames(gs)) == multiset(gs) && |SortGames(gs)| == |gs|
    decreases |gs|
  {
    if |gs| > 0 {
      SortGamesSorted(gs[1..]);
      InsertSorted(gs[0], SortGames(gs[1..]));
    }
    assert |multiset(SortGames(gs))| == |multiset(gs)|;
  }

  /** In the sorted list every game after a clone is a clone: parents come first. */
  lemma ClonesAfterParents(gs: seq<Game>, i: nat, j: nat)
    requires i < j < |SortGames(gs)| && SortGames(gs)[i].isClone
    ensures SortGames(gs)[j].isClone
  {
    SortGamesSorted(gs);
    var r := SortGames(gs);
    assert KeyLe(KeyOf(r[i]), KeyOf(r[j]));
  }

  /** Within each group the lower-cased display names are in order. */
  lemma GroupAlphabetical(gs: seq<Game>, i: nat, j: nat)
    requires i < j < |SortGames(gs)|
    requires SortGames(gs)[i].isClone == SortGames(gs)[j].isClone
    ensures LexLe(Lower(SortGames(gs)[i].display), Lower(SortGames(gs)[j].display))
  {
    SortGamesSorted(gs);
  }

  /** A list already in order comes back unchanged: the sort moves nothing it need not move. */
  lemma {:induction false} SortGamesSortedUnchanged(gs: seq<Game>)
    requires Sorted(gs)
    ensures SortGames(gs) == gs
    decreases |gs|
  {
    if |gs| > 0 {
      assert Sorted(gs[1..]) by {
        forall i, j | 0 <= i < j < |gs[1..]| ensures KeyLe(KeyOf(gs[1..][i]), KeyOf(gs[1..][j])) {
          assert gs[1..][i] == gs[i + 1] && gs[1..][j] == gs[j + 1];
        }
      }
      SortGamesSortedUnchanged(gs[1..]);
      if |gs| > 1 {
        assert KeyLe(KeyOf(gs[0]), KeyOf(gs[1..][0]));
      }
      assert [gs[0]] + gs[1..] == gs;
    }
  }
}
