/**
 * ConcretePlayerTable: a fixed table of 101 slots mapping a player id to a
 * name, with collisions resolved by double hashing. Probe i of a key visits
 * slot (key % 101 + i * (97 - key % 97)) % 101.
 */
module Players {

  /** The number of slots; 101 is prime, so every probe sequence visits every slot. */
  const Size := 101

  datatype Slot = Slot(key: int, value: string, used: bool)

  /** The slot value the default `Player()` constructor produces, as the table is first filled. */
  const Empty := Slot(-1, "", false)

  lemma NoSmallFactor(d: int, e: int)
    requires 2 <= d <= 10
    ensures d * e != Size
  {
    assert d == 2 || d == 3 || d == 4 || d == 5 || d == 6 || d == 7 || d == 8 || d == 9 || d == 10;
  }

  lemma ProductGrows(d: int, e: int)
    requires d > 10 && e > 10
    ensures d * e > Size
  {
    assert d * e >= 11 * e;
  }

  lemma SizeIsPrime(d: int, e: int)
    requires d >= 1 && e >= 1 && d * e == Size
    ensures d == 1 || e == 1
  {
    if d > 10 && e > 10 {
      ProductGrows(d, e);
    } else if 2 <= d <= 10 {
      NoSmallFactor(d, e);
    } else if 2 <= e <= 10 {
      NoSmallFactor(e, d);
    }
  }

  lemma {:induction false} NoZeroDivisor(d: int, h: int)
    requires 1 <= d < Size && 1 <= h < Size
    ensures (d * h) % Size != 0
    decreases d
  {
    if (d * h) % Size == 0 {
      var t := (d * h) / Size;
      assert d * h == Size * t;
      var q, r := Size / d, Size % d;
      assert Size == q * d + r;
      if r == 0 {
        SizeIsPrime(d, q);
      } else {
        assert r * h == Size * h - q * (d * h) by {
          assert Size * h == (q * d + r) * h;
        }
        assert r * h == Size * (h - q * t);
        assert (r * h) % Size == 0;
        NoZeroDivisor(r, h);
      }
    }
  }

  function Hash1(key: int): (h: int)
    requires key >= 0
    ensures 0 <= h < Size
  {
    key % Size
  }

  function Hash2(key: int): (h: int)
    requires key >= 0
    ensures 1 <= h <= 97
  {
    97 - key % 97
  }

  function Probe(key: int, i: nat): (p: int)
    requires key >= 0
    ensures 0 <= p < Size
  {
    (Hash1(key) + i * Hash2(key)) % Size
  }

  lemma ProbesDistinct(key: int, i: nat, j: nat)
    requires key >= 0 && i < j < Size
    ensures Probe(key, i) != Probe(key, j)
  {
    var h1, h2 := Hash1(key), Hash2(key);
    var a, b := h1 + i * h2, h1 + j * h2;
    if a % Size == b % Size {
      Distribute(i, j, h2);
      DiffResidue(a, b);
      NoZeroDivisor(j - i, h2);
    }
  }

  lemma Distribute(i: int, j: int, h: int)
    ensures j * h - i * h == (j - i) * h
  {
  }

  /** Two numbers with the same residue differ by a multiple of Size. */
  lemma DiffResidue(a: int, b: int)
    requires a % Size == b % Size
    ensures (b - a) % Size == 0
  {
    var qa, qb := a / Size, b / Size;
    assert a == Size * qa + a % Size && b == Size * qb + b % Size;
    assert b - a == Size * (qb - qa);
  }

  ghost function Probed(key: int, n: nat): set<int>
    requires key >= 0
  {
    set i: nat | i < n :: Probe(key, i)
  }

  ghost function Slots(n: nat): (s: set<int>)
    ensures forall p :: p in s <==> 0 <= p < n
  {
    if n == 0 then {} else Slots(n - 1) + {n - 1}
  }

  lemma {:induction false} ProbedSize(key: int, n: nat)
    requires key >= 0 && n <= Size
    ensures |Probed(key, n)| == n
  {
    if n > 0 {
      ProbedSize(key, n - 1);
      assert Probed(key, n) == Probed(key, n - 1) + {Probe(key, n - 1)};
      forall i: nat | i < n - 1 ensures Probe(key, i) != Probe(key, n - 1) {
        ProbesDistinct(key, i, n - 1);
      }
    }
  }

  lemma {:induction false} SlotsSize(n: nat)
    ensures |Slots(n)| == n
  {
    if n > 0 {
      SlotsSize(n - 1);
    }
  }

  lemma SubsetSize(a: set<int>, b: set<int>)
    requires a <= b
    ensures |a| <= |b|
  {
    assert b == a + (b - a);
  }

  lemma ProbesCover(key: int, p: int)
    requires key >= 0 && 0 <= p < Size
    ensures exists i: nat :: i < Size && Probe(key, i) == p
  {
    if p !in Probed(key, Size) {
      var a, b := Probed(key, Size), Slots(Size) - {p};
      SubsetSize(a, b);
      ProbedSize(key, Size);
      SlotsSize(Size);
    }
  }

  /** Key k's probe q lands on a slot that holds another key. */
  predicate Blocked(s: seq<Slot>, k: int, q: nat)
    requires |s| == Size && k >= 0
  {
    s[Probe(k, q)].used && s[Probe(k, q)].key != k
  }

  /** Slot j was reached at probe step st[j] of its key, past slots holding other keys. */
  ghost predicate Placed(s: seq<Slot>, st: seq<nat>, j: int)
    requires |s| == Size && |st| == Size && 0 <= j < Size
  {
    var k := s[j].key;
    k >= 0 && st[j] < Size && Probe(k, st[j]) == j &&
    forall q: nat :: q < st[j] ==> Blocked(s, k, q)
  }

  /** The table invariant: every stored key is on its own probe path, and no key is stored twice. */
  ghost predicate Wellformed(s: seq<Slot>, st: seq<nat>) {
    |s| == Size && |st| == Size &&
    (forall j :: 0 <= j < Size && s[j].used ==> Placed(s, st, j)) &&
    (forall i, j :: 0 <= i < j < Size && s[i].used && s[j].used ==> s[i].key != s[j].key)
  }

  /** The id-to-name mapping a well-formed table stores. */
  ghost function ContentsOf(s: seq<Slot>, st: seq<nat>): map<int, string>
    requires Wellformed(s, st)
  {
    map j | 0 <= j < Size && s[j].used :: s[j].key := s[j].value
  }

  ghost predicate Full(s: seq<Slot>)
    requires |s| == Size
  {
    forall j :: 0 <= j < Size ==> s[j].used
  }

  /** A key is absent once its probe sequence meets an empty slot or is blocked all the way. */
  lemma Absent(s: seq<Slot>, st: seq<nat>, k: int, i: nat)
    requires Wellformed(s, st) && k >= 0 && i <= Size
    requires forall q: nat :: q < i ==> Blocked(s, k, q)
    requires i == Size || !s[Probe(k, i)].used
    ensures k !in ContentsOf(s, st)
  {
    forall j | 0 <= j < Size && s[j].used ensures s[j].key != k {
      assert Placed(s, st, j);
      if st[j] < i {
        assert Blocked(s, k, st[j]);
      } else if st[j] > i {
        assert Blocked(s, s[j].key, i);
      }
    }
  }

  /** When every probe of a key is blocked, no slot is free. */
  lemma BlockedFull(s: seq<Slot>, k: int)
    requires |s| == Size && k >= 0
    requires forall q: nat :: q < Size ==> Blocked(s, k, q)
    ensures Full(s)
  {
    forall j | 0 <= j < Size ensures s[j].used {
      ProbesCover(k, j);
      var i: nat :| i < Size && Probe(k, i) == j;
      assert Blocked(s, k, i);
    }
  }

  /** Where a stored key sits. */
  lemma Lookup(s: seq<Slot>, st: seq<nat>, j: int)
    requires Wellformed(s, st) && 0 <= j < Size && s[j].used
    ensures s[j].key in ContentsOf(s, st) && ContentsOf(s, st)[s[j].key] == s[j].value
  {
  }

  /** The slot a stored key sits in. */
  lemma Find(s: seq<Slot>, st: seq<nat>, key: int) returns (j: int)
    requires Wellformed(s, st) && key in ContentsOf(s, st)
    ensures 0 <= j < Size && s[j].used && s[j].key == key && ContentsOf(s, st)[key] == s[j].value
  {
    j :| 0 <= j < Size && s[j].used && s[j].key == key;
    Lookup(s, st, j);
  }

  /** Renaming the player in an occupied slot keeps the invariant. */
  lemma RenameKeeps(s: seq<Slot>, st: seq<nat>, j: int, name: string)
    requires Wellformed(s, st) && 0 <= j < Size && s[j].used
    ensures Wellformed(s[j := s[j].(value := name)], st)
  {
    var s' := s[j := s[j].(value := name)];
    forall i | 0 <= i < Size && s'[i].used ensures Placed(s', st, i) {
      assert Placed(s, st, i);
      forall q: nat | q < st[i] ensures Blocked(s', s[i].key, q) {
        assert Blocked(s, s[i].key, q);
      }
    }
  }

  /** Renaming the player in an occupied slot updates that one entry. */
  lemma Rename(s: seq<Slot>, st: seq<nat>, j: int, name: string)
    requires Wellformed(s, st) && 0 <= j < Size && s[j].used
    ensures Wellformed(s[j := s[j].(value := name)], st)
    ensures ContentsOf(s[j := s[j].(value := name)], st) == ContentsOf(s, st)[s[j].key := name]
  {
    var s' := s[j := s[j].(value := name)];
    RenameKeeps(s, st, j, name);
    var m, m' := ContentsOf(s, st), ContentsOf(s', st);
    Lookup(s, st, j);
    forall key | key in m' ensures key in m && m'[key] == m[s[j].key := name][key] {
      var i := Find(s', st, key);
      Lookup(s, st, i);
    }
    forall key | key in m ensures key in m' {
      var i := Find(s, st, key);
      Lookup(s', st, i);
    }
  }

  /**
   * Storing a new key in the free slot its probe i reached, past slots
   * holding other keys, keeps the invariant.
   */
  lemma ClaimKeeps(s: seq<Slot>, st: seq<nat>, j: int, i: nat, k: int, name: string)
    requires Wellformed(s, st) && k >= 0 && i < Size && Probe(k, i) == j && !s[j].used
    requires forall q: nat :: q < i ==> Blocked(s, k, q)
    requires k !in ContentsOf(s, st)
    ensures Wellformed(s[j := Slot(k, name, true)], st[j := i])
  {
    var s', st' := s[j := Slot(k, name, true)], st[j := i];
    forall x | 0 <= x < Size && s[x].used ensures s[x].key != k {
      Lookup(s, st, x);
    }
    forall q: nat | q < i ensures Blocked(s', k, q) {
      assert Blocked(s, k, q);
    }
    forall x | 0 <= x < Size && s'[x].used ensures Placed(s', st', x) {
      if x != j {
        assert Placed(s, st, x);
        forall q: nat | q < st[x] ensures Blocked(s', s[x].key, q) {
          assert Blocked(s, s[x].key, q);
        }
      }
    }
  }

  /** Storing a new key that way adds that one entry. */
  lemma Claim(s: seq<Slot>, st: seq<nat>, j: int, i: nat, k: int, name: string)
    requires Wellformed(s, st) && k >= 0 && i < Size && Probe(k, i) == j && !s[j].used
    requires forall q: nat :: q < i ==> Blocked(s, k, q)
    requires k !in ContentsOf(s, st)
    ensures Wellformed(s[j := Slot(k, name, true)], st[j := i])
    ensures ContentsOf(s[j := Slot(k, name, true)], st[j := i]) == ContentsOf(s, st)[k := name]
  {
    var s', st' := s[j := Slot(k, name, true)], st[j := i];
    ClaimKeeps(s, st, j, i, k, name);
    var m, m' := ContentsOf(s, st), ContentsOf(s', st');
    Lookup(s', st', j);
    forall key | key in m' ensures m'[key] == m[k := name][key] {
      var x := Find(s', st', key);
      if x != j {
        Lookup(s, st, x);
      }
    }
    forall key | key in m ensures key in m' {
      var x := Find(s, st, key);
      Lookup(s', st', x);
    }
  }

  class PlayerTable {
    var slots: array<Slot>
    /** For each occupied slot, the probe step at which its key was stored. */
    ghost var step: seq<nat>

    ghost predicate Valid()
      reads this, slots
    {
      Wellformed(slots[..], step)
    }

    ghost function Contents(): map<int, string>
      requires Valid()
      reads this, slots
    {
      ContentsOf(slots[..], step)
    }

    constructor()
      ensures Valid() && fresh(slots)
      ensures Contents() == map[]
    {
      slots := new Slot[Size](_ => Empty);
      step := seq(Size, _ => 0);
    }

    method Search(k: int) returns (name: string)
      requires Valid() && k >= 0
      ensures name == (if k in Contents() then Contents()[k] else "")
    {
      var h1, h2 := Hash1(k), Hash2(k);
      var i := 0;
      while i < Size
        invariant 0 <= i <= Size
        invariant forall q: nat :: q < i ==> Blocked(slots[..], k, q)
      {
        var index := (h1 + i * h2) % Size;
        assert index == Probe(k, i);
        if !slots[index].used {
          Absent(slots[..], step, k, i);
          return "";
        }
        if slots[index].key == k {
          return slots[index].value;
        }
        i := i + 1;
      }
      Absent(slots[..], step, k, Size);
      return "";
    }

    /**
     * Stores the name under the id, replacing an existing name; `stored` is
     * false exactly when the id is new and all 101 slots are taken.
     */
    method Insert(k: int, name: string) returns (stored: bool)
      requires Valid() && k >= 0
      modifies this, slots
      ensures Valid() && slots == old(slots)
      ensures stored <==> k in old(Contents()) || !Full(old(slots[..]))
      ensures Contents() == if stored then old(Contents())[k := name] else old(Contents())
    {
      var h1, h2 := Hash1(k), Hash2(k);
      for i := 0 to Size
        invariant forall q: nat :: q < i ==> Blocked(slots[..], k, q)
      {
        var index := (h1 + i * h2) % Size;
        assert index == Probe(k, i);
        if slots[index].used && slots[index].key == k {
          Rename(slots[..], step, index, name);
          assert k in Contents();
          slots[index] := slots[index].(value := name);
          return true;
        }
        if !slots[index].used {
          Absent(slots[..], step, k, i);
          Claim(slots[..], step, index, i, k, name);
          slots[index] := Slot(k, name, true);
          step := step[index := i];
          return true;
        }
      }
      Absent(slots[..], step, k, Size);
      BlockedFull(slots[..], k);
      return false;
    }
  }
}
