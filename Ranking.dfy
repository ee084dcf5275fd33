/**
 * The abstract view of ConcreteLeaderboard: the players in level-0 order as a
 * sequence of (id, score) entries, best first, and the operations on that
 * sequence that addScore, removePlayer and getTopN perform.
 */
module Ranking {

  datatype Option<T> = None | Some(value: T)

  datatype Entry = Entry(id: int, score: int)

  /** a comes before b: higher score first, lower id first among equal scores. */
  predicate Precedes(a: Entry, b: Entry) {
    a.score > b.score || (a.score == b.score && a.id < b.id)
  }

  /** Whether a new entry goes before an existing one; the end of the list (None) always admits it. */
  predicate ShouldInsertBefore(e: Entry, existing: Option<Entry>) {
    match existing
    case None => true
    case Some(x) => Precedes(e, x)
  }

  /** ShouldInsertBefore is the order Precedes, extended by the end of the list. */
  lemma ShouldInsertBeforeIsPrecedes(e: Entry, x: Entry)
    ensures ShouldInsertBefore(e, Some(x)) <==> Precedes(e, x)
    ensures ShouldInsertBefore(e, None)
  {
  }

  /** Precedes is a strict total order on entries. */
  lemma PrecedesTotalOrder(a: Entry, b: Entry, c: Entry)
    ensures !Precedes(a, a)
    ensures Precedes(a, b) ==> !Precedes(b, a)
    ensures Precedes(a, b) && Precedes(b, c) ==> Precedes(a, c)
    ensures a != b ==> Precedes(a, b) || Precedes(b, a)
  {
  }

  /** Strictly sorted by Precedes. */
  ghost predicate Ordered(es: seq<Entry>) {
    forall i, j :: 0 <= i < j < |es| ==> Precedes(es[i], es[j])
  }

  function Ids(es: seq<Entry>): (r: seq<int>)
    ensures |r| == |es| && forall i :: 0 <= i < |es| ==> r[i] == es[i].id
  {
    if es == [] then [] else [es[0].id] + Ids(es[1..])
  }

  /** No player appears twice. */
  ghost predicate UniqueIds(es: seq<Entry>) {
    forall i, j :: 0 <= i < j < |es| ==> es[i].id != es[j].id
  }

  /** The score of every player on the board. */
  function ScoreMap(es: seq<Entry>): map<int, int> {
    if es == [] then map[] else ScoreMap(es[1..])[es[0].id := es[0].score]
  }

  /** The entry placed before the first entry it should precede. */
  function InsertSorted(es: seq<Entry>, e: Entry): seq<Entry> {
    if es == [] then [e]
    else if ShouldInsertBefore(e, Some(es[0])) then [e] + es
    else [es[0]] + InsertSorted(es[1..], e)
  }

  /** The board without the player's entry. */
  function Without(es: seq<Entry>, id: int): seq<Entry> {
    if es == [] then []
    else if es[0].id == id then Without(es[1..], id)
    else [es[0]] + Without(es[1..], id)
  }

  /** The score addScore gives the player: the old score plus delta, or delta for a new player. */
  function NewScore(es: seq<Entry>, id: int, delta: int): int {
    var m := ScoreMap(es);
    if id in m then m[id] + delta else delta
  }

  /** addScore on the abstract board: drop the old entry, insert the new one in order. */
  function AddScore(es: seq<Entry>, id: int, delta: int): seq<Entry> {
    InsertSorted(Without(es, id), Entry(id, NewScore(es, id, delta)))
  }

  /** How many entries getTopN(n) returns: a negative n converts to a huge unsigned bound. */
  function Limit(size: nat, n: int): (k: nat)
    ensures k <= size
  {
    if n < 0 || n > size then size else n
  }

  /** The ids getTopN(n) returns. */
  function TopN(es: seq<Entry>, n: int): seq<int> {
    Ids(es[..Limit(|es|, n)])
  }

  lemma {:induction false} IdsIn(es: seq<Entry>, id: int)
    ensures id in Ids(es) <==> exists i :: 0 <= i < |es| && es[i].id == id
  {
    var r := Ids(es);
    if id in r {
      var i :| 0 <= i < |r| && r[i] == id;
      assert es[i].id == id;
    }
  }

  /** The score map holds exactly the players listed, with their listed scores. */
  lemma {:induction false} ScoreMapSpec(es: seq<Entry>)
    requires UniqueIds(es)
    ensures forall id :: id in ScoreMap(es) <==> id in Ids(es)
    ensures forall i :: 0 <= i < |es| ==> ScoreMap(es)[es[i].id] == es[i].score
  {
    if es != [] {
      ScoreMapSpec(es[1..]);
      assert Ids(es) == [es[0].id] + Ids(es[1..]);
      forall i | 0 < i < |es| ensures ScoreMap(es)[es[i].id] == es[i].score {
        assert es[1..][i - 1] == es[i];
      }
    }
  }

  lemma {:induction false} WithoutSpec(es: seq<Entry>, id: int)
    ensures multiset(Without(es, id)) <= multiset(es)
    ensures forall x :: x in Without(es, id) <==> x in es && x.id != id
    ensures id !in Ids(es) ==> Without(es, id) == es
  {
    if es != [] {
      WithoutSpec(es[1..], id);
      assert es == [es[0]] + es[1..];
      assert id !in Ids(es) ==> id !in Ids(es[1..]) by {
        assert Ids(es) == [es[0].id] + Ids(es[1..]);
      }
    }
  }

  /** Removing a player keeps every other player unique. */
  lemma {:induction false} WithoutUnique(es: seq<Entry>, id: int)
    requires UniqueIds(es)
    ensures UniqueIds(Without(es, id))
  {
    if es != [] {
      WithoutUnique(es[1..], id);
      WithoutSpec(es[1..], id);
      var w := Without(es[1..], id);
      forall x | x in w ensures es[0].id != x.id {
        var j :| 0 <= j < |es[1..]| && es[1..][j] == x;
        assert es[j + 1] == x;
      }
    }
  }

  /** Removing a player keeps the board sorted. */
  lemma {:induction false} WithoutOrdered(es: seq<Entry>, id: int)
    requires Ordered(es)
    ensures Ordered(Without(es, id))
  {
    if es != [] {
      WithoutOrdered(es[1..], id);
      WithoutSpec(es[1..], id);
      var w := Without(es[1..], id);
      forall x | x in w ensures Precedes(es[0], x) {
        var j :| 0 <= j < |es[1..]| && es[1..][j] == x;
        assert es[j + 1] == x;
      }
    }
  }

  /** Removing a player deletes exactly that player's score. */
  lemma {:induction false} WithoutScores(es: seq<Entry>, id: int)
    requires UniqueIds(es)
    ensures ScoreMap(Without(es, id)) == ScoreMap(es) - {id}
  {
    if es != [] {
      WithoutScores(es[1..], id);
      if es[0].id == id {
        ScoreMapSpec(es[1..]);
        IdsIn(es[1..], id);
      }
    }
  }

  /** Removing twice is removing once. */
  lemma {:induction false} WithoutIdempotent(es: seq<Entry>, id: int)
    ensures Without(Without(es, id), id) == Without(es, id)
  {
    if es != [] {
      WithoutIdempotent(es[1..], id);
    }
  }

  lemma {:induction false} InsertSortedSpec(es: seq<Entry>, e: Entry)
    ensures multiset(InsertSorted(es, e)) == multiset(es) + multiset{e}
  {
    if es != [] && !ShouldInsertBefore(e, Some(es[0])) {
      InsertSortedSpec(es[1..], e);
      assert es == [es[0]] + es[1..];
    }
  }

  /** An entry that precedes every entry of a sorted board, with a new id, can go in front. */
  lemma Prepend(x: Entry, r: seq<Entry>)
    requires Ordered(r) && UniqueIds(r)
    requires forall y | y in r :: Precedes(x, y) && x.id != y.id
    ensures Ordered([x] + r) && UniqueIds([x] + r)
  {
    var r' := [x] + r;
    forall i, j | 0 <= i < j < |r'| ensures Precedes(r'[i], r'[j]) && r'[i].id != r'[j].id {
      assert r'[j] == r[j - 1];
      if i > 0 {
        assert r'[i] == r[i - 1];
      } else {
        assert r[j - 1] in r;
      }
    }
  }

  /** Inserting a new player keeps the board sorted and the players unique. */
  lemma {:induction false} InsertSortedOrdered(es: seq<Entry>, e: Entry)
    requires Ordered(es) && UniqueIds(es)
    requires forall x | x in es :: x.id != e.id
    ensures Ordered(InsertSorted(es, e)) && UniqueIds(InsertSorted(es, e))
  {
    if es != [] && !ShouldInsertBefore(e, Some(es[0])) {
      InsertSortedOrdered(es[1..], e);
      InsertSortedSpec(es[1..], e);
      var r := InsertSorted(es[1..], e);
      forall x | x in r ensures Precedes(es[0], x) && es[0].id != x.id {
        assert x in multiset(r);
        if x != e {
          var j :| 0 <= j < |es[1..]| && es[1..][j] == x;
          assert es[j + 1] == x;
        }
      }
      Prepend(es[0], r);
    } else if es != [] {
      forall x | x in es ensures Precedes(e, x) && e.id != x.id {
        var j :| 0 <= j < |es| && es[j] == x;
        if j > 0 {
          assert Precedes(es[0], es[j]);
        }
      }
      Prepend(e, es);
    }
  }

  /** Inserting a new player sets that player's score and nobody else's. */
  lemma {:induction false} InsertSortedScores(es: seq<Entry>, e: Entry)
    requires UniqueIds(es)
    requires forall x | x in es :: x.id != e.id
    ensures ScoreMap(InsertSorted(es, e)) == ScoreMap(es)[e.id := e.score]
  {
    if es != [] && !ShouldInsertBefore(e, Some(es[0])) {
      InsertSortedScores(es[1..], e);
      assert ScoreMap(es)[e.id := e.score] == ScoreMap(es[1..])[e.id := e.score][es[0].id := es[0].score];
    }
  }

  /** addScore keeps the board sorted and the players unique. */
  lemma AddScoreOrdered(es: seq<Entry>, id: int, delta: int)
    requires Ordered(es) && UniqueIds(es)
    ensures Ordered(AddScore(es, id, delta)) && UniqueIds(AddScore(es, id, delta))
  {
    var w, e := Without(es, id), Entry(id, NewScore(es, id, delta));
    WithoutOrdered(es, id);
    WithoutUnique(es, id);
    WithoutSpec(es, id);
    InsertSortedOrdered(w, e);
  }

  /** addScore sets the player's score to NewScore and leaves every other player's score alone. */
  lemma AddScoreScores(es: seq<Entry>, id: int, delta: int)
    requires UniqueIds(es)
    ensures ScoreMap(AddScore(es, id, delta)) == ScoreMap(es)[id := NewScore(es, id, delta)]
  {
    var w, e := Without(es, id), Entry(id, NewScore(es, id, delta));
    WithoutUnique(es, id);
    WithoutSpec(es, id);
    WithoutScores(es, id);
    InsertSortedScores(w, e);
  }

  lemma {:induction false} WithoutInserted(es: seq<Entry>, e: Entry)
    requires forall x | x in es :: x.id != e.id
    ensures Without(InsertSorted(es, e), e.id) == es
  {
    if es == [] {
    } else if ShouldInsertBefore(e, Some(es[0])) {
      WithoutSpec(es, e.id);
      IdsIn(es, e.id);
    } else {
      WithoutInserted(es[1..], e);
    }
  }

  /**
   * What addScore learns from its level-0 scan: the player's new score (the found entry's score
   * plus delta, or delta alone), and that the board without the player no longer lists it.
   */
  lemma ScanResult(es: seq<Entry>, id: int, delta: int, found: bool, p: nat)
    requires UniqueIds(es)
    requires found ==> p < |es| && es[p].id == id
    requires !found ==> id !in Ids(es)
    ensures NewScore(es, id, delta) == if found then es[p].score + delta else delta
    ensures !found ==> Without(es, id) == es
    ensures id !in Ids(Without(es, id))
  {
    ScoreMapSpec(es);
    WithoutSpec(es, id);
    WithoutRemoves(es, id);
  }

  /** After Without the player is gone. */
  lemma WithoutRemoves(es: seq<Entry>, id: int)
    ensures id !in Ids(Without(es, id))
  {
    WithoutSpec(es, id);
    IdsIn(Without(es, id), id);
  }

  /** Two addScore calls for one player amount to one call with the summed delta. */
  lemma AddScoreTwice(es: seq<Entry>, id: int, a: int, b: int)
    requires UniqueIds(es)
    ensures AddScore(AddScore(es, id, a), id, b) == AddScore(es, id, a + b)
  {
    var w := Without(es, id);
    var e := Entry(id, NewScore(es, id, a));
    var r := InsertSorted(w, e);
    WithoutSpec(es, id);
    WithoutUnique(es, id);
    WithoutInserted(w, e);
    InsertSortedScores(w, e);
    assert NewScore(r, id, b) == NewScore(es, id, a + b);
  }

  /** On a sorted board the entries that precede e form a prefix; s is its length. */
  lemma SplitIndex(es: seq<Entry>, e: Entry) returns (s: nat)
    requires Ordered(es)
    ensures s <= |es| && forall p :: 0 <= p < |es| ==> (Precedes(es[p], e) <==> p < s)
  {
    s := 0;
    while s < |es| && Precedes(es[s], e)
      invariant s <= |es| && forall p :: 0 <= p < s ==> Precedes(es[p], e)
    {
      s := s + 1;
    }
    forall p | s < p < |es| ensures !Precedes(es[p], e) {
      assert Precedes(es[s], es[p]);
    }
  }

  /** Inserting a new player puts the entry right after the entries that precede it. */
  lemma {:induction false} InsertAt(es: seq<Entry>, e: Entry, s: nat)
    requires Ordered(es) && s <= |es|
    requires forall p :: 0 <= p < |es| ==> (Precedes(es[p], e) <==> p < s)
    requires forall x | x in es :: x.id != e.id
    ensures InsertSorted(es, e) == es[..s] + [e] + es[s..]
  {
    if es != [] {
      if s == 0 {
        assert Precedes(e, es[0]);
      } else {
        assert !Precedes(e, es[0]);
        InsertAt(es[1..], e, s - 1);
        assert es[..s] == [es[0]] + es[1..][..s - 1];
        assert es[s..] == es[1..][s - 1..];
      }
    }
  }

  /** Removing a listed player cuts that player's entry out of the board. */
  lemma {:induction false} WithoutAt(es: seq<Entry>, t: nat)
    requires UniqueIds(es) && t < |es|
    ensures Without(es, es[t].id) == es[..t] + es[t + 1..]
  {
    var id := es[t].id;
    if t == 0 {
      IdsIn(es[1..], id);
      WithoutSpec(es[1..], id);
    } else {
      WithoutAt(es[1..], t - 1);
      assert es[1..][t - 1] == es[t];
      assert es[..t] == [es[0]] + es[1..][..t - 1];
      assert es[t + 1..] == es[1..][t..];
    }
  }

  /** getTopN(n) for n >= 0 returns the first min(n, size) players, best first. */
  lemma TopNSpec(es: seq<Entry>, n: int)
    requires Ordered(es)
    ensures n >= 0 ==> |TopN(es, n)| == (if n < |es| then n else |es|)
    ensures n < 0 ==> TopN(es, n) == Ids(es)
    ensures forall i :: 0 <= i < |TopN(es, n)| ==> TopN(es, n)[i] == es[i].id
    ensures forall i, j :: 0 <= i < |TopN(es, n)| <= j < |es| ==> Precedes(es[i], es[j])
  {
    assert es[..|es|] == es;
  }
}
