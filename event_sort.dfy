/** The sort of FMCopilot/analysis_tool.py line 30: the production events are
    sorted in place, ascending by their parsed timestamp. Python's list sort
    is stable, so events with the same timestamp keep their order. */
module EventSort {
  import opened JsonValue

  /** An event with the key its timestamp gives it (seconds in the calendar). */
  datatype Stamped = Stamped(seconds: int, event: map<string, Json>)

  /** Ascending by timestamp. */
  predicate Sorted(s: seq<Stamped>) {
    forall i, j :: 0 <= i < j < |s| ==> s[i].seconds <= s[j].seconds
  }

  /** The events of `s` stamped with time `t`, in their order in `s`. */
  function WithTime(s: seq<Stamped>, t: int): (r: seq<Stamped>)
    ensures |r| <= |s|
  {
    if s == [] then []
    else (if s[0].seconds == t then [s[0]] else []) + WithTime(s[1..], t)
  }

  /** `r` rearranges `s` (same multiset of events) and keeps the order of the
      events that share a timestamp: what a stable sort may do and nothing
      more. */
  ghost predicate StablePermutation(s: seq<Stamped>, r: seq<Stamped>) {
    multiset(s) == multiset(r) && forall t :: WithTime(s, t) == WithTime(r, t)
  }

  lemma {:induction false} WithTimeAppend(a: seq<Stamped>, b: seq<Stamped>, t: int)
    ensures WithTime(a + b, t) == WithTime(a, t) + WithTime(b, t)
  {
    if a == [] {
      assert a + b == b;
    } else {
      var head := if a[0].seconds == t then [a[0]] else [];
      calc {
        WithTime(a + b, t);
        == { assert (a + b)[0] == a[0]; assert (a + b)[1..] == a[1..] + b; }
        head + WithTime(a[1..] + b, t);
        == { WithTimeAppend(a[1..], b, t); }
        head + (WithTime(a[1..], t) + WithTime(b, t));
      }
    }
  }

  /** Swapping two neighbours with different timestamps keeps a stable
      permutation. */
  lemma SwapNeighbours(s: seq<Stamped>, j: int)
    requires 0 < j < |s| && s[j - 1].seconds != s[j].seconds
    ensures StablePermutation(s, s[j - 1 := s[j]][j := s[j - 1]])
  {
    var x, y := s[j - 1], s[j];
    var pre, post := s[..j - 1], s[j + 1..];
    var r := s[j - 1 := y][j := x];
    assert s == pre + [x, y] + post;
    assert r == pre + [y, x] + post;
    forall t
      ensures WithTime(s, t) == WithTime(r, t)
    {
      WithTimeMiddle(pre, [x, y], post, t);
      WithTimeMiddle(pre, [y, x], post, t);
      WithTimePair(x, y, t);
    }
  }

  /** `WithTime` of a sequence split in three. */
  lemma WithTimeMiddle(pre: seq<Stamped>, m: seq<Stamped>, post: seq<Stamped>, t: int)
    ensures WithTime(pre + m + post, t) == WithTime(pre, t) + WithTime(m, t) + WithTime(post, t)
  {
    WithTimeAppend(pre + m, post, t);
    WithTimeAppend(pre, m, t);
  }

  /** Two events with different timestamps can trade places without changing
      the events of any one timestamp. */
  lemma WithTimePair(x: Stamped, y: Stamped, t: int)
    requires x.seconds != y.seconds
    ensures WithTime([x, y], t) == WithTime([y, x], t)
  {
    assert [x, y][1..] == [y] && [y, x][1..] == [x];
    assert [x][1..] == [] && [y][1..] == [];
  }

  /** Events `0..n` of `a` are in order of time. */
  ghost predicate SortedPrefix(a: seq<Stamped>, n: int)
    requires 0 <= n <= |a|
  {
    forall p, q :: 0 <= p < q < n ==> a[p].seconds <= a[q].seconds
  }

  /** Midway through moving the event at `j` left: apart from it, events
      `0..i` are in order, and it is earlier than every event after it. */
  ghost predicate Inserting(s: seq<Stamped>, i: int, j: int)
    requires 0 <= j <= i < |s|
  {
    && (forall p, q :: 0 <= p < q <= i && p != j && q != j ==> s[p].seconds <= s[q].seconds)
    && (forall q :: j < q <= i ==> s[j].seconds < s[q].seconds)
  }

  /** Before the first swap the event at `i` is the only one out of place. */
  lemma InsertingStart(s: seq<Stamped>, i: int)
    requires 0 <= i < |s| && SortedPrefix(s, i)
    ensures Inserting(s, i, i)
  {
  }

  /** Swapping the moving event with a later neighbour keeps `Inserting`. */
  lemma InsertingSwap(s: seq<Stamped>, i: int, j: int)
    requires 0 < j <= i < |s| && Inserting(s, i, j)
    requires s[j].seconds < s[j - 1].seconds
    ensures Inserting(s[j - 1 := s[j]][j := s[j - 1]], i, j - 1)
  {
    var r := s[j - 1 := s[j]][j := s[j - 1]];
    forall p, q | 0 <= p < q <= i && p != j - 1 && q != j - 1
      ensures r[p].seconds <= r[q].seconds
    {
      if q == j {
        assert r[q] == s[j - 1];
        if p < j - 1 {
          assert r[p] == s[p];
        }
      } else if p == j {
        assert r[p] == s[j - 1] && r[q] == s[q];
      } else {
        assert r[p] == s[p] && r[q] == s[q];
      }
    }
    forall q | j - 1 < q <= i
      ensures r[j - 1].seconds < r[q].seconds
    {
      if q > j {
        assert r[q] == s[q];
      }
    }
  }

  /** Once the moving event is not earlier than its left neighbour, events
      `0..i` are in order. */
  lemma InsertingDone(s: seq<Stamped>, i: int, j: int)
    requires 0 <= j <= i < |s| && Inserting(s, i, j)
    requires j == 0 || s[j - 1].seconds <= s[j].seconds
    ensures SortedPrefix(s, i + 1)
  {
    forall p, q | 0 <= p < q <= i
      ensures s[p].seconds <= s[q].seconds
    {
      if q == j && p < j - 1 {
        assert s[p].seconds <= s[j - 1].seconds;
      } else if p == j && q > j {
        assert s[j].seconds < s[q].seconds;
      }
    }
  }

  /** A stable permutation of a stable permutation is one. */
  lemma StablePermutationTrans(s: seq<Stamped>, r: seq<Stamped>, u: seq<Stamped>)
    requires StablePermutation(s, r) && StablePermutation(r, u)
    ensures StablePermutation(s, u)
  {
    forall t
      ensures WithTime(s, t) == WithTime(u, t)
    {
      assert WithTime(s, t) == WithTime(r, t);
    }
  }

  /** One swap of `InsertLeft` keeps both of its loop invariants. */
  lemma InsertStep(s: seq<Stamped>, before: seq<Stamped>, after: seq<Stamped>, i: int, j: int)
    requires 0 < j <= i < |before| && Inserting(before, i, j)
    requires StablePermutation(s, before)
    requires before[j].seconds < before[j - 1].seconds
    requires after == before[j - 1 := before[j]][j := before[j - 1]]
    ensures Inserting(after, i, j - 1) && StablePermutation(s, after)
  {
    SwapNeighbours(before, j);
    StablePermutationTrans(s, before, after);
    InsertingSwap(before, i, j);
  }

  /** Swaps the event at `j` with its left neighbour. */
  method SwapLeft(a: array<Stamped>, j: int)
    requires 0 < j < a.Length
    modifies a
    ensures a[..] == old(a[..])[j - 1 := old(a[j])][j := old(a[j - 1])]
  {
    a[j - 1], a[j] := a[j], a[j - 1];
  }

  /** One step of insertion sort: moves `a[i]` left past the events with a
      later timestamp, so that `a[..i + 1]` is in order and the events after
      it stay where they were. */
  method InsertLeft(a: array<Stamped>, i: int)
    requires 0 <= i < a.Length && SortedPrefix(a[..], i)
    modifies a
    ensures SortedPrefix(a[..], i + 1)
    ensures StablePermutation(old(a[..]), a[..])
    ensures a[i + 1..] == old(a[i + 1..])
  {
    ghost var start := a[..];
    ghost var cur := start;
    InsertingStart(start, i);
    var j := i;
    while 0 < j && a[j].seconds < a[j - 1].seconds
      invariant cur == a[..]
      invariant 0 <= j <= i
      invariant Inserting(cur, i, j)
      invariant StablePermutation(start, cur)
      invariant cur[i + 1..] == start[i + 1..]
    {
      SwapLeft(a, j);
      InsertStep(start, cur, a[..], i, j);
      cur := a[..];
      j := j - 1;
    }
    InsertingDone(cur, i, j);
  }

  /** Insertion sort by timestamp, moving each event left past the events
      with a later timestamp only, which keeps ties in their order. */
  method SortByOccurred(a: array<Stamped>)
    modifies a
    ensures Sorted(a[..])
    ensures StablePermutation(old(a[..]), a[..])
  {
    var i := 0;
    while i < a.Length
      invariant 0 <= i <= a.Length
      invariant SortedPrefix(a[..], i)
      invariant StablePermutation(old(a[..]), a[..])
    {
      InsertLeft(a, i);
      i := i + 1;
    }
  }

  /** The events `WithTime` picks are events of `s` with that time. */
  lemma {:induction false} WithTimeMembers(s: seq<Stamped>, t: int)
    ensures forall x :: x in WithTime(s, t) ==> x in s && x.seconds == t
  {
    if s != [] {
      WithTimeMembers(s[1..], t);
    }
  }

  /** A nonempty sequence has events at the time of its first event. */
  lemma FirstTimeTaken(r: seq<Stamped>)
    requires r != []
    ensures WithTime(r, r[0].seconds) != []
  {
  }

  /** Two time-ordered sequences that agree on the events of every
      timestamp are equal. */
  lemma {:induction false} SortedTiesDetermine(r1: seq<Stamped>, r2: seq<Stamped>)
    requires Sorted(r1) && Sorted(r2)
    requires forall t :: WithTime(r1, t) == WithTime(r2, t)
    ensures r1 == r2
    decreases |r1|
  {
    if r1 == [] || r2 == [] {
      if r1 != [] {
        FirstTimeTaken(r1);
      } else if r2 != [] {
        FirstTimeTaken(r2);
      }
    } else {
      var k1, k2 := r1[0].seconds, r2[0].seconds;
      WithTimeMembers(r1, k2);
      WithTimeMembers(r2, k1);
      assert WithTime(r2, k1) != [] && WithTime(r2, k1)[0] in r2;
      assert WithTime(r1, k2) != [] && WithTime(r1, k2)[0] in r1;
      assert k1 == k2;
      assert WithTime(r1, k1)[0] == r1[0] && WithTime(r2, k1)[0] == r2[0];
      forall t
        ensures WithTime(r1[1..], t) == WithTime(r2[1..], t)
      {
        var head := if r1[0].seconds == t then [r1[0]] else [];
        assert WithTime(r1, t) == head + WithTime(r1[1..], t);
        assert WithTime(r2, t) == head + WithTime(r2[1..], t);
        assert WithTime(r1[1..], t) == WithTime(r1, t)[|head|..];
        assert WithTime(r2[1..], t) == WithTime(r2, t)[|head|..];
      }
      SortedTiesDetermine(r1[1..], r2[1..]);
      assert r1 == [r1[0]] + r1[1..] && r2 == [r2[0]] + r2[1..];
    }
  }

  /** A stable sort has only one possible result: whatever sorted stable
      permutation of the events `SortByOccurred` leaves is the one Python's
      stable `list.sort` produces. */
  lemma StableSortIsUnique(s: seq<Stamped>, r1: seq<Stamped>, r2: seq<Stamped>)
    requires Sorted(r1) && StablePermutation(s, r1)
    requires Sorted(r2) && StablePermutation(s, r2)
    ensures r1 == r2
  {
    SortedTiesDetermine(r1, r2);
  }
}
