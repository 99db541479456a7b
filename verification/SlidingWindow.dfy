/** Sliding-window counters: deques that are pushed at the back and pruned only at the front. */
module SlidingWindow {
  import opened Bytes

  /** What pruning leaves: the front is dropped while it is older than the cutoff. */
  function Pruned<T>(q: seq<T>, time: T -> int, cutoff: int): (r: seq<T>)
    ensures |r| <= |q|
  {
    if q != [] && time(q[0]) < cutoff then Pruned(q[1..], time, cutoff) else q
  }

  function Itself(t: int): int { t }

  class RateCounter {
    var timestamps: seq<int>
    /** Every call to `Record` so far. */
    ghost var history: seq<Call<int>>

    ghost predicate Valid()
      reads this
    { timestamps == Deque(history, Itself) }

    constructor ()
      ensures Valid() && history == []
    {
      timestamps, history := [], [];
    }

    method Prune(now: int, window: nat)
      modifies this`timestamps
      ensures timestamps == Pruned(old(timestamps), Itself, now - window)
    {
      var cutoff := now - window;
      while timestamps != [] && timestamps[0] < cutoff
        invariant Pruned(timestamps, Itself, cutoff) == Pruned(old(timestamps), Itself, cutoff)
        decreases |timestamps|
      {
        timestamps := timestamps[1..];
      }
    }

    method Record(now: int, window: nat) returns (count: nat)
      requires Valid()
      modifies this
      ensures Valid() && history == old(history) + [Call(now, window)] && count == |timestamps|
      ensures Forward(history, Itself) ==> count == |InWindow(history, Itself)|
    {
      hide Deque, Pruned, Forward, InWindow;
      timestamps := timestamps + [now];
      Prune(now, window);
      history := history + [Call(now, window)];
      assert history[..|history| - 1] == old(history);
      DequeNext(history, Itself);
      if Forward(history, Itself) {
        RateIsExact(history, Itself);
      }
      count := |timestamps|;
    }
  }

  datatype Observation = Observation(ip: seq<byte>, vlan: Option<nat>, timestamp: int)

  function Time(o: Observation): int { o.timestamp }

  function Ips(os: seq<Observation>): set<seq<byte>> { set o <- os :: o.ip }

  class MacFlapTracker {
    var observations: seq<Observation>
    /** Every call to `Record` so far. */
    ghost var history: seq<Call<Observation>>

    ghost predicate Valid()
      reads this
    { observations == Deque(history, Time) }

    constructor ()
      ensures Valid() && history == []
    {
      observations, history := [], [];
    }

    method Prune(cutoff: int)
      modifies this`observations
      ensures observations == Pruned(old(observations), Time, cutoff)
    {
      while observations != [] && observations[0].timestamp < cutoff
        invariant Pruned(observations, Time, cutoff) == Pruned(old(observations), Time, cutoff)
        decreases |observations|
      {
        observations := observations[1..];
      }
    }

    method Record(ip: seq<byte>, vlan: Option<nat>, now: int, window: nat) returns (count: nat)
      requires Valid()
      modifies this
      ensures Valid() && history == old(history) + [Call(Observation(ip, vlan, now), window)]
      ensures count == |Ips(observations)|
      ensures Forward(history, Time) ==> count == |IpsOf(history, InWindow(history, Time))|
    {
      hide Deque, Pruned, Forward, InWindow, Ips, IpsOf;
      observations := observations + [Observation(ip, vlan, now)];
      Prune(now - window);
      history := history + [Call(Observation(ip, vlan, now), window)];
      assert history[..|history| - 1] == old(history);
      DequeNext(history, Time);
      count := CountDistinct(observations);
      if Forward(history, Time) {
        FlapIsExact(history);
      }
    }
  }

  function Elements<T(==)>(s: seq<T>): set<T> { set x <- s }

  predicate NoRepeats<T(==)>(s: seq<T>) { forall i, j :: 0 <= i < j < |s| ==> s[i] != s[j] }

  lemma {:induction false} NoRepeatsSize<T>(s: seq<T>)
    requires NoRepeats(s)
    ensures |Elements(s)| == |s|
  {
    if s == [] {
      assert Elements(s) == {};
    } else {
      var front, last := s[..|s| - 1], s[|s| - 1];
      NoRepeatsSize(front);
      assert Elements(s) == Elements(front) + {last};
    }
  }

  method CountDistinct(os: seq<Observation>) returns (count: nat)
    ensures count == |Ips(os)|
  {
    var seen: seq<seq<byte>> := [];
    for i := 0 to |os|
      invariant NoRepeats(seen)
      invariant Elements(seen) == Ips(os[..i])
    {
      assert os[..i + 1] == os[..i] + [os[i]];
      assert Ips(os[..i + 1]) == Ips(os[..i]) + {os[i].ip};
      if os[i].ip !in seen {
        ghost var before := seen;
        seen := seen + [os[i].ip];
        assert Elements(seen) == Elements(before) + {os[i].ip};
      } else {
        assert os[i].ip in Elements(seen);
      }
    }
    NoRepeatsSize(seen);
    assert os[..|os|] == os;
    count := |seen|;
  }

  // ======== Whole runs ========

  /** A recorded item with the window it was recorded under. */
  datatype Call<T> = Call(item: T, window: nat)

  function Cutoff<T>(c: Call<T>, time: T -> int): int { time(c.item) - c.window }

  function Items<T>(calls: seq<Call<T>>): (s: seq<T>)
    ensures |s| == |calls|
  { seq(|calls|, i requires 0 <= i < |calls| => calls[i].item) }

  function Deque<T>(calls: seq<Call<T>>, time: T -> int): (q: seq<T>)
    ensures |q| <= |calls|
  {
    if calls == [] then [] else
    var last := calls[|calls| - 1];
    Pruned(Deque(calls[..|calls| - 1], time) + [last.item], time, Cutoff(last, time))
  }

  /** Times and cutoffs never go back; with one fixed window the second follows from the first. */
  ghost predicate Forward<T>(calls: seq<Call<T>>, time: T -> int) {
    forall i, j :: 0 <= i <= j < |calls| ==>
      time(calls[i].item) <= time(calls[j].item) && Cutoff(calls[i], time) <= Cutoff(calls[j], time)
  }

  ghost predicate InOrder<T>(calls: seq<Call<T>>, time: T -> int) {
    forall i, j :: 0 <= i <= j < |calls| ==> time(calls[i].item) <= time(calls[j].item)
  }

  ghost predicate OneWindow<T>(calls: seq<Call<T>>, window: nat) {
    forall i :: 0 <= i < |calls| ==> calls[i].window == window
  }

  lemma FixedWindow<T>(calls: seq<Call<T>>, time: T -> int, window: nat)
    requires OneWindow(calls, window) && InOrder(calls, time)
    ensures Forward(calls, time)
  {
  }

  /** Pruning cuts a sequence at its first recent item. */
  lemma {:induction false} PrunedAt<T>(q: seq<T>, time: T -> int, cutoff: int) returns (k: nat)
    ensures k <= |q| && Pruned(q, time, cutoff) == q[k..]
    ensures forall i :: 0 <= i < k ==> time(q[i]) < cutoff
    ensures k < |q| ==> time(q[k]) >= cutoff
  {
    if q != [] && time(q[0]) < cutoff {
      var m := PrunedAt(q[1..], time, cutoff);
      k := m + 1;
      assert q[1..][m..] == q[k..];
      forall i | 0 <= i < k ensures time(q[i]) < cutoff {
        if i > 0 { assert q[i] == q[1..][i - 1]; }
      }
    } else {
      k := 0;
    }
  }

  /** Whatever the times, the deque holds the latest items in the order they came. */
  lemma {:induction false} DequeIsSuffix<T>(calls: seq<Call<T>>, time: T -> int) returns (k: nat)
    ensures k <= |calls| && Deque(calls, time) == Items(calls)[k..]
    ensures Forward(calls, time) && calls != [] ==>
              var cutoff := Cutoff(calls[|calls| - 1], time);
              forall i :: 0 <= i < |calls| ==> (time(calls[i].item) >= cutoff <==> i >= k)
  {
    if calls == [] { return 0; }
    hide Deque, Pruned;
    DequeNext(calls, time);
    var n := |calls| - 1;
    var front, last := calls[..n], calls[n];
    var k0 := DequeIsSuffix(front, time);
    SuffixGrows(calls, k0);
    var q := Deque(front, time) + [last.item];
    var m := PrunedAt(q, time, Cutoff(last, time));
    k := k0 + m;
    SuffixOfSuffix(Items(calls), k0, m);
    if Forward(calls, time) {
      ForwardFront(calls, time);
      hide Forward, Items;
      CutAt(calls, time, k0, k);
    }
  }

  lemma SuffixGrows<T>(calls: seq<Call<T>>, k: nat)
    requires calls != [] && k < |calls|
    ensures var n := |calls| - 1; Items(calls)[k..] == Items(calls[..n])[k..] + [calls[n].item]
  {
  }

  lemma SuffixOfSuffix<T>(s: seq<T>, k: nat, m: nat)
    requires k + m <= |s|
    ensures s[k..][m..] == s[k + m..]
  {
  }

  lemma ForwardFront<T>(calls: seq<Call<T>>, time: T -> int)
    requires calls != [] && Forward(calls, time)
    ensures Forward(calls[..|calls| - 1], time)
  {
  }

  lemma CutAt<T>(calls: seq<Call<T>>, time: T -> int, k0: nat, k: nat)
    requires calls != [] && Forward(calls, time) && k0 <= k <= |calls|
    requires var n := |calls| - 1;
             && (n > 0 ==> forall i :: 0 <= i < n ==> (time(calls[i].item) >= Cutoff(calls[n - 1], time) <==> i >= k0))
             && (n == 0 ==> k0 == 0)
    requires var cutoff, q := Cutoff(calls[|calls| - 1], time), Items(calls)[k0..];
             && (forall i :: 0 <= i < k - k0 ==> time(q[i]) < cutoff)
             && (k - k0 < |q| ==> time(q[k - k0]) >= cutoff)
    ensures var cutoff := Cutoff(calls[|calls| - 1], time);
            forall i :: 0 <= i < |calls| ==> (time(calls[i].item) >= cutoff <==> i >= k)
  {
    var n := |calls| - 1;
    var cutoff, q := Cutoff(calls[n], time), Items(calls)[k0..];
    forall i | 0 <= i < |calls| ensures time(calls[i].item) >= cutoff <==> i >= k {
      if i >= k {
        assert q[k - k0] == calls[k].item;
        assert time(calls[k].item) <= time(calls[i].item);
      } else if i >= k0 {
        assert q[i - k0] == calls[i].item;
      } else {
        assert Cutoff(calls[n - 1], time) <= cutoff;
      }
    }
  }

  /** The calls whose item lies in the window of the last call. */
  function InWindow<T>(calls: seq<Call<T>>, time: T -> int): set<nat>
    requires calls != []
  {
    var last := calls[|calls| - 1];
    set i | 0 <= i < |calls| && Cutoff(last, time) <= time(calls[i].item) <= time(last.item)
  }

  function Range(k: nat, n: nat): (r: set<nat>)
    requires k <= n
    ensures (forall i: nat :: i in r <==> k <= i < n) && |r| == n - k
  {
    if k == n then {} else Range(k, n - 1) + {n - 1}
  }

  /** Over every run whose times and cutoffs never go back, the count returned by the last call is the
      number of all events ever recorded that lie in its window. */
  lemma RateIsExact<T>(calls: seq<Call<T>>, time: T -> int)
    requires calls != [] && Forward(calls, time)
    ensures |Deque(calls, time)| == |InWindow(calls, time)|
  {
    var k := DequeIsSuffix(calls, time);
    assert InWindow(calls, time) == Range(k, |calls|);
  }

  function IpsOf(calls: seq<Call<Observation>>, chosen: set<nat>): set<seq<byte>>
    requires forall i <- chosen :: i < |calls|
  {
    set i <- chosen :: calls[i].item.ip
  }

  lemma SuffixIps(calls: seq<Call<Observation>>, k: nat)
    requires k <= |calls|
    ensures Ips(Items(calls)[k..]) == IpsOf(calls, Range(k, |calls|))
  {
    hide Range;
    var q := Items(calls)[k..];
    forall ip | ip in IpsOf(calls, Range(k, |calls|)) ensures ip in Ips(q) {
      var i :| i in Range(k, |calls|) && calls[i].item.ip == ip;
      assert q[i - k] == calls[i].item;
    }
    forall ip | ip in Ips(q) ensures ip in IpsOf(calls, Range(k, |calls|)) {
      var j :| 0 <= j < |q| && q[j].ip == ip;
      assert k + j in Range(k, |calls|) && calls[k + j].item == q[j];
    }
  }

  /** Likewise, the addresses counted are exactly those of all observations in the window. */
  lemma FlapIsExact(calls: seq<Call<Observation>>)
    requires calls != [] && Forward(calls, Time)
    ensures Ips(Deque(calls, Time)) == IpsOf(calls, InWindow(calls, Time))
  {
    hide Deque, Ips, IpsOf, Range;
    var k := DequeIsSuffix(calls, Time);
    assert InWindow(calls, Time) == Range(k, |calls|);
    SuffixIps(calls, k);
  }

  // ======== Exactly when the deque is the window ========

  /** The deque holds the items of exactly the calls that lie in the window of the last one. */
  ghost predicate Exact<T>(calls: seq<Call<T>>, time: T -> int)
    requires calls != []
  {
    InWindow(calls, time) == Range(|calls| - |Deque(calls, time)|, |calls|)
  }

  lemma OrderedIsExact<T>(calls: seq<Call<T>>, time: T -> int)
    requires calls != [] && Forward(calls, time)
    ensures Exact(calls, time)
  {
    hide Range;
    var k := DequeIsSuffix(calls, time);
    assert |Deque(calls, time)| == |calls| - k;
    assert InWindow(calls, time) == Range(k, |calls|);
  }

  lemma LastStays<T>(calls: seq<Call<T>>, time: T -> int)
    requires calls != []
    ensures var q := Deque(calls, time); q != [] && q[|q| - 1] == calls[|calls| - 1].item
  {
    hide Deque;
    var last := calls[|calls| - 1];
    DequeNext(calls, time);
    var q := Deque(calls[..|calls| - 1], time) + [last.item];
    assert time(q[|q| - 1]) >= Cutoff(last, time);
    var k := PrunedAt(q, time, Cutoff(last, time));
  }

  lemma DequeNext<T>(calls: seq<Call<T>>, time: T -> int)
    requires calls != []
    ensures var last := calls[|calls| - 1];
            Deque(calls, time) == Pruned(Deque(calls[..|calls| - 1], time) + [last.item], time, Cutoff(last, time))
  {
  }

  /** A time below the one before it: the earlier item stays, and lies after the window. */
  lemma StepBackMiscounts<T>(calls: seq<Call<T>>, time: T -> int)
    requires |calls| >= 2
    requires var n := |calls| - 1; time(calls[n].item) < time(calls[n - 1].item)
    ensures !Exact(calls, time)
  {
    hide Deque, Pruned;
    var n := |calls| - 1;
    var front, last := calls[..n], calls[n];
    LastStays(front, time);
    DequeNext(calls, time);
    var p := Deque(front, time);
    var q := p + [last.item];
    var k := PrunedAt(q, time, Cutoff(last, time));
    assert q[|p| - 1] == calls[n - 1].item;
    assert k <= |p| - 1;
    assert n - 1 in Range(|calls| - |Deque(calls, time)|, |calls|);
    assert n - 1 !in InWindow(calls, time);
  }

  lemma {:induction false} StepBack<T>(calls: seq<Call<T>>, time: T -> int) returns (n: nat)
    requires !InOrder(calls, time)
    ensures 0 < n < |calls| && time(calls[n].item) < time(calls[n - 1].item)
    decreases |calls|
  {
    var m := |calls| - 1;
    if m > 0 && time(calls[m].item) < time(calls[m - 1].item) {
      n := m;
    } else {
      assert !InOrder(calls[..m], time) by {
        if InOrder(calls[..m], time) {
          forall i, j | 0 <= i <= j < |calls| ensures time(calls[i].item) <= time(calls[j].item) {
            assert forall u, v :: 0 <= u <= v < m ==> time(calls[..m][u].item) <= time(calls[..m][v].item);
            if j == m && i < m { assert time(calls[..m][i].item) <= time(calls[..m][m - 1].item); }
            else if j < m { assert time(calls[..m][i].item) <= time(calls[..m][j].item); }
          }
        }
      }
      n := StepBack(calls[..m], time);
    }
  }

  /** With one fixed window, the deque is the window after every call if and only if the times never
      go back. Counts alone can agree by accident; the calls they count cannot. */
  lemma ExactIff<T>(calls: seq<Call<T>>, time: T -> int, window: nat)
    requires OneWindow(calls, window)
    ensures (forall n :: 0 < n <= |calls| ==> Exact(calls[..n], time)) <==> InOrder(calls, time)
  {
    hide Exact;
    if InOrder(calls, time) {
      forall n | 0 < n <= |calls| ensures Exact(calls[..n], time) {
        FixedWindow(calls[..n], time, window);
        OrderedIsExact(calls[..n], time);
      }
    } else {
      var n := StepBack(calls, time);
      StepBackMiscounts(calls[..n + 1], time);
    }
  }

  /** An example of an accident: the last count is right, but of the wrong events. */
  lemma CountsAgreeByAccident()
    ensures var calls := [Call(0, 5), Call(6, 5), Call(4, 5)];
            |Deque(calls, Itself)| == |InWindow(calls, Itself)| && !Exact(calls, Itself)
  {
    var calls := [Call(0, 5), Call(6, 5), Call(4, 5)];
    assert calls[..2] == [Call(0, 5), Call(6, 5)];
    assert calls[..2][..1] == [Call(0, 5)];
    assert calls[..2][..1][..0] == [];
    assert Deque(calls[..2][..1], Itself) == [0];
    assert Deque(calls[..2], Itself) == [6] by { assert [0, 6][1..] == [6] && Pruned([6], Itself, 1) == [6]; }
    assert Deque(calls, Itself) == [6, 4];
    assert InWindow(calls, Itself) == {0, 2};
    StepBackMiscounts(calls, Itself);
  }
}
