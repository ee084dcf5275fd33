/**
 * ServerKernel::minIntervals: the length of the shortest CPU schedule for a
 * list of tasks (letters 'A'..'Z') when two runs of the same task must be
 * more than `n` slots apart, computed by the closed formula
 * max((maxFreq - 1) * (n + 1) + countOfMaxFreq, |tasks|).
 */
module Kernel {

  /** Bucket b (0..25) holds the task letter 'A' + b. */
  const Buckets := 26

  predicate IsTask(c: char) {
    'A' <= c <= 'Z'
  }

  function Letter(b: nat): (c: char)
    requires b < Buckets
    ensures IsTask(c) && c as int - 'A' as int == b
  {
    ('A' as int + b) as char
  }

  /** How often task c occurs in the list. */
  function Freq(tasks: seq<char>, c: char): nat {
    multiset(tasks)[c]
  }

  /** The largest frequency among buckets 0..b-1, starting from 0 as minIntervals' max_freq does. */
  function MaxFreqUpTo(tasks: seq<char>, b: nat): nat
    requires b <= Buckets
  {
    if b == 0 then 0
    else
      var m := MaxFreqUpTo(tasks, b - 1);
      if Freq(tasks, Letter(b - 1)) > m then Freq(tasks, Letter(b - 1)) else m
  }

  function MaxFreq(tasks: seq<char>): nat {
    MaxFreqUpTo(tasks, Buckets)
  }

  /** How many of buckets 0..b-1 hold exactly m tasks. */
  function CountWithFreq(tasks: seq<char>, m: nat, b: nat): nat
    requires b <= Buckets
  {
    if b == 0 then 0
    else CountWithFreq(tasks, m, b - 1) + (if Freq(tasks, Letter(b - 1)) == m then 1 else 0)
  }

  function CountMaxFreq(tasks: seq<char>): nat {
    CountWithFreq(tasks, MaxFreq(tasks), Buckets)
  }

  /** The value minIntervals returns, in terms of the task counts. */
  function Intervals(tasks: seq<char>, n: int): int {
    if n == 0 then |tasks|
    else
      var calculated := (MaxFreq(tasks) - 1) * (n + 1) + CountMaxFreq(tasks);
      if calculated > |tasks| then calculated else |tasks|
  }

  /** MaxFreq is the largest count of any task letter, and some letter attains it. */
  lemma {:induction false} MaxFreqUpToIsMax(tasks: seq<char>, b: nat)
    requires b <= Buckets
    ensures forall b' :: 0 <= b' < b ==> Freq(tasks, Letter(b')) <= MaxFreqUpTo(tasks, b)
    ensures b > 0 ==> exists b' :: 0 <= b' < b && Freq(tasks, Letter(b')) == MaxFreqUpTo(tasks, b)
  {
    if b > 0 {
      MaxFreqUpToIsMax(tasks, b - 1);
    }
  }

  lemma MaxFreqIsMax(tasks: seq<char>)
    ensures forall c :: IsTask(c) ==> Freq(tasks, c) <= MaxFreq(tasks)
    ensures exists c :: IsTask(c) && Freq(tasks, c) == MaxFreq(tasks)
  {
    MaxFreqUpToIsMax(tasks, Buckets);
    forall c | IsTask(c) ensures Freq(tasks, c) <= MaxFreq(tasks) {
      var b := c as int - 'A' as int;
      assert Letter(b) == c;
    }
    var b' :| 0 <= b' < Buckets && Freq(tasks, Letter(b')) == MaxFreq(tasks);
    assert IsTask(Letter(b'));
  }

  /** The schedule is never shorter than the task list. */
  lemma IntervalsAtLeastTasks(tasks: seq<char>, n: int)
    ensures Intervals(tasks, n) >= |tasks|
  {
  }

  method MinIntervals(tasks: seq<char>, n: int) returns (r: int)
    requires forall i :: 0 <= i < |tasks| ==> IsTask(tasks[i])
    ensures r == Intervals(tasks, n)
  {
    if n == 0 {
      return |tasks|;
    }
    var freq := new nat[Buckets](_ => 0);
    var i := 0;
    while i < |tasks|
      invariant 0 <= i <= |tasks|
      invariant forall b :: 0 <= b < Buckets ==> freq[b] == Freq(tasks[..i], Letter(b))
    {
      var b := tasks[i] as int - 'A' as int;
      assert Letter(b) == tasks[i];
      assert tasks[..i + 1] == tasks[..i] + [tasks[i]];
      freq[b] := freq[b] + 1;
      i := i + 1;
    }
    assert tasks[..i] == tasks;

    var maxFreq := 0;
    var b := 0;
    while b < Buckets
      invariant 0 <= b <= Buckets
      invariant maxFreq == MaxFreqUpTo(tasks, b)
    {
      if freq[b] > maxFreq {
        maxFreq := freq[b];
      }
      b := b + 1;
    }

    var countMaxFreq := 0;
    b := 0;
    while b < Buckets
      invariant 0 <= b <= Buckets
      invariant countMaxFreq == CountWithFreq(tasks, maxFreq, b)
    {
      if freq[b] == maxFreq {
        countMaxFreq := countMaxFreq + 1;
      }
      b := b + 1;
    }

    var calculated := (maxFreq - 1) * (n + 1) + countMaxFreq;
    r := if calculated > |tasks| then calculated else |tasks|;
  }

  /** Buckets b0..b-1 that hold no task change neither the maximum nor the count of a positive frequency. */
  lemma {:induction false} EmptyBuckets(tasks: seq<char>, m: nat, b0: nat, b: nat)
    requires b0 <= b <= Buckets && m > 0
    requires forall b' :: b0 <= b' < b ==> Letter(b') !in tasks
    ensures MaxFreqUpTo(tasks, b) == MaxFreqUpTo(tasks, b0)
    ensures CountWithFreq(tasks, m, b) == CountWithFreq(tasks, m, b0)
  {
    if b > b0 {
      EmptyBuckets(tasks, m, b0, b - 1);
    }
  }

  /** The minIntervals examples of the test driver: {A,A,B} with n = 2 gives 4. */
  lemma ExampleAAB()
    ensures Intervals(['A', 'A', 'B'], 2) == 4
  {
    var t := ['A', 'A', 'B'];
    assert Freq(t, Letter(0)) == 2 && Freq(t, Letter(1)) == 1;
    EmptyBuckets(t, 2, 2, Buckets);
    assert MaxFreq(t) == 2 && CountMaxFreq(t) == 1;
  }

  /** {A,A,A} with n = 2 gives 7. */
  lemma ExampleAAA()
    ensures Intervals(['A', 'A', 'A'], 2) == 7
  {
    var t := ['A', 'A', 'A'];
    assert Freq(t, Letter(0)) == 3 && Freq(t, Letter(1)) == 0;
    EmptyBuckets(t, 3, 2, Buckets);
    assert MaxFreq(t) == 3 && CountMaxFreq(t) == 1;
  }

  /** {A,A,A,B,B,B} with n = 2 gives 8. */
  lemma ExampleAAABBB()
    ensures Intervals(['A', 'A', 'A', 'B', 'B', 'B'], 2) == 8
  {
    var t := ['A', 'A', 'A', 'B', 'B', 'B'];
    assert Freq(t, Letter(0)) == 3 && Freq(t, Letter(1)) == 3;
    EmptyBuckets(t, 3, 2, Buckets);
    assert MaxFreq(t) == 3 && CountMaxFreq(t) == 2;
  }

  lemma {:induction false} NoTasks(b: nat)
    requires b <= Buckets
    ensures MaxFreqUpTo([], b) == 0 && CountWithFreq([], 0, b) == b
  {
    if b > 0 {
      NoTasks(b - 1);
    }
  }

  /** With no tasks and a nonzero cooldown all 26 buckets tie at frequency 0. */
  lemma EmptyTasks(n: int)
    requires n != 0
    ensures Intervals([], n) == (if 25 - n > 0 then 25 - n else 0)
  {
    NoTasks(Buckets);
  }
}
