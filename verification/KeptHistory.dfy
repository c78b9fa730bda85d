/**
 * The audit chain as it is stored: of everything recorded only the latest thousand entries stay, and they are
 * read in order of time.  What a reader of the history sees is, at best, the end of each attribute's chain.
 *
 * A history row has an identifier of its own; here it is the position at which its entry was recorded.
 */
module KeptHistories {
  import opened Bytes
  import opened Audit
  import opened Inventory
  import opened TypedColumns

  // ---------------------------------------------------------------- what may be kept

  /** The limit check behind one insertion: nothing up to the limit, else the excess oldest rows go, ties
      broken arbitrarily. */
  ghost predicate Limited(all: History, rows: set<nat>, kept: set<nat>) {
    && kept <= rows
    && |kept| == Min(|rows|, MAX_HISTORY)
    && forall i, j :: i in rows && i !in kept && j in kept ==> InTime(all, i, j)
  }

  ghost predicate InTime(all: History, i: nat, j: nat) {
    i < |all| && j < |all| && all[i].at <= all[j].at
  }

  /** The rows some choice of the database leaves after each entry was inserted and the limit checked. */
  ghost predicate Streamed(all: History, kept: set<nat>) {
    if all == [] then kept == {}
    else
      var n := |all| - 1;
      exists before: set<nat> :: Streamed(all[..n], before) && Limited(all, before + {n}, kept)
  }

  /** A thousand rows, if there are that many, none older than another. */
  ghost predicate Keeps(all: History, kept: set<nat>) {
    Limited(all, Range(|all|), kept)
  }

  predicate Below(i: nat, n: nat) {
    i < n
  }

  ghost function Range(n: nat): (rows: set<nat>)
    ensures forall i: nat :: i in rows <==> i < n
  {
    set i: nat | i < n && Below(i, n)
  }

  lemma {:induction false} RangeSize(n: nat)
    ensures |Range(n)| == n
  {
    if n > 0 {
      RangeSize(n - 1);
      assert Range(n) == Range(n - 1) + {n - 1};
    } else {
      assert Range(0) == {};
    }
  }

  lemma SubsetSize(a: set<nat>, b: set<nat>)
    requires a <= b
    ensures |a| <= |b|
    ensures |a| == |b| ==> a == b
  {
    assert b == a + (b - a);
  }

  lemma Missing(a: set<nat>, b: set<nat>) returns (x: nat)
    requires |a| < |b|
    ensures x in b && x !in a
  {
    if b <= a {
      SubsetSize(b, a);
      assert false;
    } else {
      x :| x in b && x !in a;
    }
  }

  lemma {:induction false} StreamedKeeps(all: History, kept: set<nat>)
    requires Streamed(all, kept)
    ensures Keeps(all, kept)
  {
    RangeSize(|all|);
    if all == [] {
      assert Range(0) == {};
    } else {
      var n := |all| - 1;
      var before :| Streamed(all[..n], before) && Limited(all, before + {n}, kept);
      StreamedKeeps(all[..n], before);
      NextKeeps(all, before, kept);
    }
  }

  lemma NextKeeps(all: History, before: set<nat>, kept: set<nat>)
    requires all != [] && Keeps(all[..|all| - 1], before) && Limited(all, before + {|all| - 1}, kept)
    ensures Keeps(all, kept)
  {
    var n := |all| - 1;
    RangeSize(n);
    RangeSize(|all|);
    assert n !in before;
    assert |before + {n}| == |before| + 1;
    forall i, j | i in Range(|all|) && i !in kept && j in kept ensures InTime(all, i, j) {
      if i !in before + {n} {
        DroppedBefore(all, before, kept, i, j);
      }
    }
  }

  /** A row dropped earlier is no later than one kept now, the newest included. */
  lemma DroppedBefore(all: History, before: set<nat>, kept: set<nat>, i: nat, j: nat)
    requires all != [] && Keeps(all[..|all| - 1], before) && Limited(all, before + {|all| - 1}, kept)
    requires i < |all| - 1 && i !in before && j in kept
    ensures InTime(all, i, j)
  {
    var n := |all| - 1;
    assert i in Range(n);
    if j in before {
      assert InTime(all[..n], i, j);
    } else {
      RangeSize(n);
      if |before| < MAX_HISTORY {
        SubsetSize(before, Range(n));
        assert false;
      } else {
        assert n !in before;
        assert |before + {n}| == |before| + 1;
        var x := Missing(kept, before + {n});
        assert InTime(all[..n], i, x) && InTime(all, x, j);
      }
    }
  }

  lemma {:induction false} KeepsStreamed(all: History, kept: set<nat>)
    requires Keeps(all, kept)
    ensures Streamed(all, kept)
  {
    RangeSize(|all|);
    if all == [] {
      assert Range(0) == {};
    } else {
      var n := |all| - 1;
      var before := KeptBefore(all, kept);
      KeepsStreamed(all[..n], before);
    }
  }

  ghost predicate Before(all: History, i: nat, j: nat) {
    i < |all| && j < |all| && i != j && (all[i].at < all[j].at || (all[i].at == all[j].at && j < i))
  }

  /** The row read last: the latest, and among rows of one time the one written first. */
  lemma {:induction false} ReadLast(all: History, rows: set<nat>) returns (last: nat)
    requires rows != {} && forall i :: i in rows ==> i < |all|
    ensures last in rows && forall i :: i in rows && i != last ==> Before(all, i, last)
    decreases |rows|
  {
    var x :| x in rows;
    last := x;
    if rows != {x} {
      var other := ReadLast(all, rows - {x});
      if Before(all, x, other) { last := other; }
      assert rows == (rows - {x}) + {x};
    }
  }

  /** What was kept before the last insertion, given what is kept after it. */
  lemma KeptBefore(all: History, kept: set<nat>) returns (before: set<nat>)
    requires all != [] && Keeps(all, kept)
    ensures Keeps(all[..|all| - 1], before) && Limited(all, before + {|all| - 1}, kept)
  {
    var n := |all| - 1;
    RangeSize(n);
    RangeSize(n + 1);
    assert Range(n + 1) == Range(n) + {n};
    if n < MAX_HISTORY {
      SubsetSize(kept, Range(n + 1));
      before := Range(n);
    } else if n !in kept {
      before := kept;
      assert forall i, j :: i in Range(n) && i !in kept && j in kept ==> InTime(all, i, j);
    } else {
      before := ReplaceNewest(all, kept);
    }
  }

  /** Before the newest row came, the latest of the dropped ones stood in its place. */
  lemma ReplaceNewest(all: History, kept: set<nat>) returns (before: set<nat>)
    requires |all| > MAX_HISTORY && Keeps(all, kept) && |all| - 1 in kept
    ensures Keeps(all[..|all| - 1], before) && Limited(all, before + {|all| - 1}, kept)
  {
    var m := LatestDropped(all, kept);
    before := kept - {|all| - 1} + {m};
    ReplacedKeeps(all, kept, m);
    ReplacedLimits(all, kept, m);
  }

  lemma LatestDropped(all: History, kept: set<nat>) returns (m: nat)
    requires |all| > MAX_HISTORY && Keeps(all, kept)
    ensures |kept| == MAX_HISTORY && m in Range(|all|) && m !in kept
    ensures forall i :: i in Range(|all|) && i !in kept ==> InTime(all, i, m)
  {
    RangeSize(|all|);
    var dropped := Range(|all|) - kept;
    assert Range(|all|) == dropped + kept;
    m := ReadLast(all, dropped);
    assert forall i :: i in dropped && i != m ==> Before(all, i, m);
  }

  lemma ReplacedLimits(all: History, kept: set<nat>, m: nat)
    requires |all| > MAX_HISTORY && Keeps(all, kept) && |all| - 1 in kept && m !in kept && m in Range(|all|)
    ensures Limited(all, kept - {|all| - 1} + {m} + {|all| - 1}, kept)
  {
    RangeSize(|all|);
    var rows := kept + {m};
    assert rows == kept - {|all| - 1} + {m} + {|all| - 1};
    assert |rows| == |kept| + 1;
  }

  lemma ReplacedKeeps(all: History, kept: set<nat>, m: nat)
    requires |all| > MAX_HISTORY && Keeps(all, kept) && |all| - 1 in kept && m !in kept && m < |all|
    requires forall i :: i in Range(|all|) && i !in kept ==> InTime(all, i, m)
    ensures Keeps(all[..|all| - 1], kept - {|all| - 1} + {m})
  {
    var n := |all| - 1;
    RangeSize(n);
    RangeSize(n + 1);
    var before := kept - {n} + {m};
    assert |kept - {n}| == |kept| - 1;
    forall i, j | i in Range(n) && i !in before && j in before ensures InTime(all[..n], i, j) {
      assert i in Range(n + 1) && i !in kept;
      assert j != m ==> InTime(all, i, j);
    }
  }

  /** The stored rows, exactly: what insertions and limit checks can leave, ties broken in any way, is a
      thousand rows of which none is older than a dropped one, and every such choice can come about. */
  lemma StreamedExactly(all: History, kept: set<nat>)
    ensures Streamed(all, kept) <==> Keeps(all, kept)
  {
    if Streamed(all, kept) { StreamedKeeps(all, kept); }
    if Keeps(all, kept) { KeepsStreamed(all, kept); }
  }

  // ---------------------------------------------------------------- rows and entries

  /** The entries of the rows, oldest row first. */
  ghost function Chosen(all: History, rows: set<nat>): History {
    if all == [] then []
    else
      var n := |all| - 1;
      Chosen(all[..n], rows) + if n in rows then [all[n]] else []
  }

  lemma {:induction false} ChosenAgree(all: History, rows: set<nat>, rows': set<nat>)
    requires forall i :: 0 <= i < |all| ==> (i in rows <==> i in rows')
    ensures Chosen(all, rows) == Chosen(all, rows')
  {
    if all != [] { ChosenAgree(all[..|all| - 1], rows, rows'); }
  }

  lemma {:induction false} ChosenAre(all: History, rows: set<nat>, e: Entry)
    requires e in Chosen(all, rows)
    ensures exists i :: i in rows && i < |all| && all[i] == e
  {
    var n := |all| - 1;
    if n in rows && e == all[n] {
    } else {
      ChosenAre(all[..n], rows, e);
    }
  }

  lemma {:induction false} ChosenSize(all: History, rows: set<nat>)
    requires rows <= Range(|all|)
    ensures |Chosen(all, rows)| == |rows|
    ensures multiset(all) == multiset(Chosen(all, rows)) + multiset(Chosen(all, Range(|all|) - rows))
  {
    if all == [] {
      assert rows == {};
    } else {
      var n := |all| - 1;
      assert all == all[..n] + [all[n]];
      ChosenSize(all[..n], rows - {n});
      ChosenAgree(all[..n], rows, rows - {n});
      ChosenAgree(all[..n], Range(|all|) - rows, Range(n) - (rows - {n}));
      assert n in rows ==> |rows| == |rows - {n}| + 1;
      assert n !in rows ==> rows - {n} == rows;
    }
  }

  lemma WithoutLast(all: History, kept: multiset<Entry>, dropped: multiset<Entry>)
    requires all != [] && multiset(all) == kept + dropped
    ensures var init, e := all[..|all| - 1], all[|all| - 1];
            multiset(init) == if e in kept then (kept - multiset{e}) + dropped else kept + (dropped - multiset{e})
  {
    var init, e := all[..|all| - 1], all[|all| - 1];
    assert all == init + [e];
    assert multiset(init) == (kept + dropped) - multiset{e};
    assert e in multiset(all);
  }

  /** Rows for a given division of the entries. */
  lemma {:induction false} PickRows(all: History, kept: multiset<Entry>, dropped: multiset<Entry>)
    returns (rows: set<nat>)
    requires multiset(all) == kept + dropped
    ensures rows <= Range(|all|) && multiset(Chosen(all, rows)) == kept
    decreases |all|
  {
    if all == [] {
      rows := {};
      assert kept == multiset{};
    } else {
      hide *;
      var n := |all| - 1;
      WithoutLast(all, kept, dropped);
      if all[n] in kept {
        var before := PickRows(all[..n], kept - multiset{all[n]}, dropped);
        rows := before + {n};
        PickLast(all, before, kept);
      } else {
        rows := PickRows(all[..n], kept, dropped - multiset{all[n]});
        PassLast(all, rows);
      }
    }
  }

  lemma PickLast(all: History, before: set<nat>, kept: multiset<Entry>)
    requires all != [] && all[|all| - 1] in kept && before <= Range(|all| - 1)
    requires multiset(Chosen(all[..|all| - 1], before)) == kept - multiset{all[|all| - 1]}
    ensures before + {|all| - 1} <= Range(|all|) && multiset(Chosen(all, before + {|all| - 1})) == kept
  {
    ChosenAgree(all[..|all| - 1], before + {|all| - 1}, before);
  }

  lemma PassLast(all: History, rows: set<nat>)
    requires all != [] && rows <= Range(|all| - 1)
    ensures rows <= Range(|all|) && Chosen(all, rows) == Chosen(all[..|all| - 1], rows)
  {
  }

  lemma {:induction false} InChosen(all: History, rows: set<nat>, i: nat)
    requires i < |all| && i in rows
    ensures all[i] in multiset(Chosen(all, rows))
  {
    if i < |all| - 1 { InChosen(all[..|all| - 1], rows, i); }
  }

  /** A stored history, exactly: its entries are the latest thousand recorded, in the sense in which the
      repository keeps them, precisely when they are those of rows the limit can leave. */
  lemma RowsExactly(all: History, kept: History)
    ensures (exists dropped :: LatestKept(all, kept, dropped))
              <==> exists rows :: Streamed(all, rows) && multiset(Chosen(all, rows)) == multiset(kept)
  {
    if dropped :| LatestKept(all, kept, dropped) {
      var rows := LatestAreRows(all, kept, dropped);
      KeepsStreamed(all, rows);
    }
    if rows :| Streamed(all, rows) && multiset(Chosen(all, rows)) == multiset(kept) {
      StreamedKeeps(all, rows);
      RowsAreLatest(all, kept, rows);
    }
  }

  lemma Cancel(a: multiset<Entry>, b: multiset<Entry>, c: multiset<Entry>)
    requires a + b == a + c
    ensures b == c
  {
    assert (a + b) - a == b && (a + c) - a == c;
  }

  lemma LatestAreRows(all: History, kept: History, dropped: History) returns (rows: set<nat>)
    requires LatestKept(all, kept, dropped)
    ensures Keeps(all, rows) && multiset(Chosen(all, rows)) == multiset(kept)
  {
    rows := PickRows(all, multiset(kept), multiset(dropped));
    var others := Range(|all|) - rows;
    ChosenSize(all, rows);
    SizeOfParts(all, kept, dropped);
    MultisetSize(kept);
    MultisetSize(Chosen(all, rows));
    RangeSize(|all|);
    Cancel(multiset(kept), multiset(Chosen(all, others)), multiset(dropped));
    forall i, j | i in Range(|all|) && i !in rows && j in rows ensures InTime(all, i, j) {
      InChosen(all, others, i);
      InChosen(all, rows, j);
    }
  }

  lemma RowsAreLatest(all: History, kept: History, rows: set<nat>)
    requires Keeps(all, rows) && multiset(Chosen(all, rows)) == multiset(kept)
    ensures LatestKept(all, kept, Chosen(all, Range(|all|) - rows))
  {
    var others := Range(|all|) - rows;
    var dropped := Chosen(all, others);
    ChosenSize(all, rows);
    MultisetSize(kept);
    MultisetSize(Chosen(all, rows));
    RangeSize(|all|);
    SizeOfParts(all, kept, dropped);
    forall d, k | d in dropped && k in kept ensures d.at <= k.at {
      assert multiset(Chosen(all, rows))[k] > 0;
      ChosenAre(all, others, d);
      ChosenAre(all, rows, k);
      var i: nat :| i in others && i < |all| && all[i] == d;
      var j: nat :| j in rows && j < |all| && all[j] == k;
      assert InTime(all, i, j);
    }
  }

  // ---------------------------------------------------------------- what may be shown

  ghost predicate RowOf(all: History, field: Field, i: nat) {
    i < |all| && all[i].field == field
  }

  /** The kept rows of an attribute in order of time; rows of one time may come in any order. */
  ghost predicate Reads(all: History, kept: set<nat>, field: Field, shown: seq<nat>) {
    && (forall i :: i in shown <==> i in kept && RowOf(all, field, i))
    && (forall a, b :: 0 <= a < b < |shown| ==> shown[a] != shown[b])
    && (forall a, b :: 0 <= a < b < |shown| ==> InTime(all, shown[a], shown[b]))
  }

  /** No row of the attribute outside `rows` was written after one in them. */
  ghost predicate AreLast(all: History, field: Field, rows: set<nat>) {
    forall i, j :: RowOf(all, field, i) && RowOf(all, field, j) && i !in rows && j in rows ==> i < j
  }

  ghost predicate Rising(shown: seq<nat>) {
    forall a, b :: 0 <= a < b < |shown| ==> shown[a] < shown[b]
  }

  /** Fewer than a thousand rows are later, so the limit leaves room for the row. */
  ghost predicate CanStay(all: History, i: nat) {
    i < |all| && |Later(all, all[i].at)| < 1000
  }

  /** More than a thousand rows are not earlier, so the limit may drop the row. */
  ghost predicate CanGo(all: History, i: nat) {
    i < |all| && |Later(all, all[i].at - 1)| > 1000
  }

  ghost function Later(all: History, t: int): (rows: set<nat>)
    ensures forall i: nat :: i in rows <==> i < |all| && all[i].at > t
  {
    set i: nat | i < |all| && all[i].at > t
  }

  /** A row that can stay, and behind it one of the same attribute with the same or an earlier time. */
  ghost predicate Tied(all: History, field: Field, i: nat, j: nat) {
    i < j && RowOf(all, field, i) && RowOf(all, field, j) && CanStay(all, i) && all[i].at >= all[j].at
  }

  ghost predicate Untied(all: History, field: Field) {
    forall i: nat, j: nat :: !Tied(all, field, i, j)
  }

  lemma KeptCanStay(all: History, kept: set<nat>, i: nat)
    requires Keeps(all, kept) && i in kept
    ensures CanStay(all, i)
  {
    var later := Later(all, all[i].at);
    forall l | l in later ensures l in kept {
      assert l in Range(|all|);
      assert l !in kept ==> InTime(all, l, i);
    }
    SubsetSize(later + {i}, kept);
  }

  lemma DroppedCanGo(all: History, kept: set<nat>, j: nat)
    requires Keeps(all, kept) && j !in kept && j < |all|
    ensures CanGo(all, j)
  {
    RangeSize(|all|);
    if |kept| == |all| {
      SubsetSize(kept, Range(|all|));
      assert false;
    } else {
      forall l | l in kept ensures l in Later(all, all[j].at - 1) {
        assert InTime(all, j, l);
      }
      SubsetSize(kept + {j}, Later(all, all[j].at - 1));
    }
  }

  // ---------------------------------------------------------------- a choice that keeps one row and drops another

  lemma {:induction false} AnyKept(all: History) returns (kept: set<nat>)
    ensures Keeps(all, kept)
    decreases |all|
  {
    if all == [] {
      kept := {};
      assert Range(0) == {};
    } else {
      var n := |all| - 1;
      var before := AnyKept(all[..n]);
      RangeSize(n);
      var rows := before + {n};
      assert n !in before && |rows| == |before| + 1;
      var oldest := OldestOf(all, rows);
      kept := if n < MAX_HISTORY then rows else rows - {oldest};
      NextKeeps(all, before, kept);
    }
  }

  lemma {:induction false} OldestOf(all: History, rows: set<nat>) returns (least: nat)
    requires rows != {} && forall x :: x in rows ==> x < |all|
    ensures least in rows && forall x :: x in rows ==> InTime(all, least, x)
    decreases |rows|
  {
    var x :| x in rows;
    least := x;
    if rows != {x} {
      assert rows == (rows - {x}) + {x};
      var other := OldestOf(all, rows - {x});
      if all[other].at < all[x].at { least := other; }
    }
  }

  /** A choice of the limit that keeps a given row, if any does. */
  lemma KeepOne(all: History, i: nat) returns (kept: set<nat>)
    requires CanStay(all, i)
    ensures Keeps(all, kept) && i in kept
  {
    kept := AnyKept(all);
    if i !in kept {
      RangeSize(|all|);
      if |kept| == |all| {
        SubsetSize(kept, Range(|all|));
        assert false;
      } else {
        var x := Missing(Later(all, all[i].at), kept);
        assert i in Range(|all|) && InTime(all, i, x);
        Swap(all, kept, x, i);
        kept := kept - {x} + {i};
      }
    }
  }

  lemma KeepAndDrop(all: History, i: nat, j: nat) returns (kept: set<nat>)
    requires i != j && CanStay(all, i) && CanGo(all, j)
    ensures Keeps(all, kept) && i in kept && j !in kept
  {
    kept := KeepOne(all, i);
    if j in kept {
      var x := Missing(kept, Later(all, all[j].at - 1));
      assert x in Range(|all|) && InTime(all, x, j);
      Swap(all, kept, j, x);
      kept := kept - {j} + {x};
    }
  }

  lemma Swap(all: History, kept: set<nat>, j: nat, x: nat)
    requires Keeps(all, kept) && j in kept && x !in kept && x < |all| && all[x].at == all[j].at
    ensures Keeps(all, kept - {j} + {x})
  {
    var kept' := kept - {j} + {x};
    assert |kept - {j}| == |kept| - 1;
    forall a, b | a in Range(|all|) && a !in kept' && b in kept' ensures InTime(all, a, b) {
      assert x in Range(|all|);
      assert a != j ==> InTime(all, a, if b == x then j else b);
      assert b != x ==> InTime(all, x, b);
    }
  }

  // ---------------------------------------------------------------- a reading order that turns ties around

  lemma {:induction false} ReadBackwards(all: History, rows: set<nat>) returns (shown: seq<nat>)
    requires forall i :: i in rows ==> i < |all|
    ensures forall i :: i in shown <==> i in rows
    ensures forall a, b :: 0 <= a < b < |shown| ==> Before(all, shown[a], shown[b])
    decreases |rows|
  {
    if rows == {} {
      shown := [];
    } else {
      var last := ReadLast(all, rows);
      var init := ReadBackwards(all, rows - {last});
      shown := init + [last];
      forall a | 0 <= a < |init| ensures Before(all, init[a], last) {
        assert init[a] in init;
      }
    }
  }

  /** The kept rows of an attribute, rows of one time in reverse. */
  lemma ReadKept(all: History, field: Field, kept: set<nat>) returns (shown: seq<nat>)
    requires Keeps(all, kept)
    ensures Reads(all, kept, field, shown)
    ensures forall a, b :: 0 <= a < b < |shown| ==> Before(all, shown[a], shown[b])
  {
    var rows := set x | x in kept && RowOf(all, field, x);
    shown := ReadBackwards(all, rows);
    forall a, b | 0 <= a < b < |shown| ensures shown[a] != shown[b] && InTime(all, shown[a], shown[b]) {
      assert Before(all, shown[a], shown[b]);
    }
  }

  // ---------------------------------------------------------------- ties, exactly

  ghost predicate AlwaysLast(all: History, field: Field) {
    forall kept :: Streamed(all, kept) ==> AreLast(all, field, kept)
  }

  /** What the limit drops, exactly: however it breaks ties, the rows it leaves of an attribute are the ones
      written last, precisely when no row that can stay is followed by one of the attribute, of the same or an
      earlier time, that can go. */
  lemma DropsExactly(all: History, field: Field)
    ensures AlwaysLast(all, field) <==> forall i: nat, j: nat :: Tied(all, field, i, j) ==> !CanGo(all, j)
  {
    hide Streamed, CanStay, CanGo, Keeps;
    if i: nat, j: nat :| Tied(all, field, i, j) && CanGo(all, j) {
      var kept := KeepAndDrop(all, i, j);
      StreamedExactly(all, kept);
      assert !AreLast(all, field, kept);
    } else {
      forall kept | Streamed(all, kept) ensures AreLast(all, field, kept) {
        StreamedExactly(all, kept);
        forall i, j | RowOf(all, field, i) && RowOf(all, field, j) && i !in kept && j in kept ensures i < j {
          OutIsEarlier(all, kept, i, j);
          assert i != j;
          assert j < i ==> Tied(all, field, j, i);
        }
      }
    }
  }

  /** Of rows recorded in order of time that means: no two rows of the attribute share the time at which the
      limit cuts. */
  lemma DropsExactlyInOrder(all: History, field: Field)
    requires forall i, j :: 0 <= i < j < |all| ==> all[i].at <= all[j].at
    ensures AlwaysLast(all, field) <==>
              forall i: nat, j: nat ::
                i < j && RowOf(all, field, i) && RowOf(all, field, j) && all[i].at == all[j].at ==>
                !(|Later(all, all[i].at)| < 1000 < |Later(all, all[i].at - 1)|)
  {
    hide AlwaysLast;
    DropsExactly(all, field);
    forall i: nat, j: nat | i < j && RowOf(all, field, i) && RowOf(all, field, j)
      ensures Tied(all, field, i, j) && CanGo(all, j) <==>
                all[i].at == all[j].at && |Later(all, all[i].at)| < 1000 < |Later(all, all[i].at - 1)|
    {
    }
  }

  lemma OutIsEarlier(all: History, kept: set<nat>, i: nat, j: nat)
    requires Keeps(all, kept) && i < |all| && i !in kept && j in kept
    ensures InTime(all, i, j) && CanGo(all, i) && CanStay(all, j)
  {
    assert i in Range(|all|);
    DroppedCanGo(all, kept, i);
    KeptCanStay(all, kept, j);
  }

  ghost predicate AlwaysTheEnd(all: History, field: Field) {
    forall kept, shown ::
      Streamed(all, kept) && Reads(all, kept, field, shown) ==> AreLast(all, field, kept) && Rising(shown)
  }

  /** What the history shows, exactly: whatever the limit drops and in whatever order rows of one time are
      read, it shows the rows of an attribute written last in the order in which they were written, precisely
      when no row that can stay is followed by one of the attribute with the same or an earlier time. */
  lemma ShowsExactly(all: History, field: Field)
    ensures AlwaysTheEnd(all, field) <==> Untied(all, field)
  {
    hide Streamed, CanStay, Keeps, Reads;
    if i: nat, j: nat :| Tied(all, field, i, j) {
      var kept := KeepOne(all, i);
      StreamedExactly(all, kept);
      var shown := ReadKept(all, field, kept);
      TieShows(all, field, kept, shown, i, j);
    } else {
      DropsExactly(all, field);
      forall kept, shown | Streamed(all, kept) && Reads(all, kept, field, shown) ensures Rising(shown) {
        StreamedExactly(all, kept);
        UntiedRises(all, field, kept, shown);
      }
    }
  }

  lemma TieShows(all: History, field: Field, kept: set<nat>, shown: seq<nat>, i: nat, j: nat)
    requires Tied(all, field, i, j) && i in kept && Reads(all, kept, field, shown)
    requires forall a, b :: 0 <= a < b < |shown| ==> Before(all, shown[a], shown[b])
    ensures !(AreLast(all, field, kept) && Rising(shown))
  {
    if j in kept {
      assert i in shown && j in shown;
      var a :| 0 <= a < |shown| && shown[a] == j;
      var b :| 0 <= b < |shown| && shown[b] == i;
      assert a < b;
    }
  }

  lemma UntiedRises(all: History, field: Field, kept: set<nat>, shown: seq<nat>)
    requires Keeps(all, kept) && Reads(all, kept, field, shown) && Untied(all, field)
    ensures Rising(shown)
  {
    hide CanStay;
    forall a, b | 0 <= a < b < |shown| ensures shown[a] < shown[b] {
      assert shown[a] in shown && shown[b] in shown && InTime(all, shown[a], shown[b]);
      KeptCanStay(all, kept, shown[b]);
      assert !Tied(all, field, shown[b], shown[a]);
    }
  }

  // ---------------------------------------------------------------- the entries shown

  ghost function Entries(all: History, shown: seq<nat>): (entries: History)
    requires forall a :: 0 <= a < |shown| ==> shown[a] < |all|
  {
    seq(|shown|, a requires 0 <= a < |shown| => all[shown[a]])
  }

  /** `shown` lists the last of the attribute's rows, in the order in which they were written. */
  ghost predicate IsEnd(all: History, field: Field, shown: seq<nat>) {
    && Rising(shown)
    && (forall a :: 0 <= a < |shown| ==> RowOf(all, field, shown[a]))
    && forall i, a :: RowOf(all, field, i) && 0 <= a < |shown| && shown[a] <= i ==> i in shown
  }

  lemma {:induction false} EntriesOfEnd(all: History, field: Field, shown: seq<nat>)
    requires IsEnd(all, field, shown)
    ensures |shown| <= |Of(all, field)|
    ensures Entries(all, shown) == Of(all, field)[|Of(all, field)| - |shown|..]
    decreases |all|
  {
    if shown == [] {
      assert Of(all, field)[|Of(all, field)|..] == [];
    } else {
      hide IsEnd;
      var before := EndBefore(all, field, shown);
      EntriesOfEnd(all[..|all| - 1], field, before);
    }
  }

  lemma EndBefore(all: History, field: Field, shown: seq<nat>) returns (before: seq<nat>)
    requires IsEnd(all, field, shown) && shown != []
    ensures all != [] && IsEnd(all[..|all| - 1], field, before)
    ensures Entries(all, shown)
              == Entries(all[..|all| - 1], before) + if RowOf(all, field, |all| - 1) then [all[|all| - 1]] else []
  {
    var k := |shown| - 1;
    assert RowOf(all, field, shown[k]);
    var n := |all| - 1;
    if RowOf(all, field, n) {
      LastShown(all, field, shown);
      before := shown[..k];
    } else {
      before := shown;
    }
    EndOfInit(all, field, shown, before);
  }

  lemma LastShown(all: History, field: Field, shown: seq<nat>)
    requires all != [] && IsEnd(all, field, shown) && shown != [] && RowOf(all, field, |all| - 1)
    ensures shown[|shown| - 1] == |all| - 1
  {
    assert RowOf(all, field, shown[0]);
    assert |all| - 1 in shown;
    var a :| 0 <= a < |shown| && shown[a] == |all| - 1;
  }

  lemma EndOfInit(all: History, field: Field, shown: seq<nat>, before: seq<nat>)
    requires IsEnd(all, field, shown) && before <= shown && all != []
    requires forall i :: i in shown ==> i in before || i == |all| - 1
    requires forall a :: 0 <= a < |before| ==> before[a] < |all| - 1
    ensures IsEnd(all[..|all| - 1], field, before)
  {
    forall i, a | RowOf(all[..|all| - 1], field, i) && 0 <= a < |before| && before[a] <= i ensures i in before {
      assert RowOf(all, field, i) && shown[a] == before[a];
    }
  }

  // ---------------------------------------------------------------- what operations write

  lemma EntryTimes(db: Columns, d: Record, op: Op)
    ensures forall e :: e in Apply(db, d, op).1 ==> e.at == OpTime(op)
  {
    if op.Redetect? { FillTimes(d, op.o); }
  }

  lemma FillTimes(d: Record, o: Observation)
    ensures forall e :: e in FillEntries(d, o) ==> e.at == o.at
  {
  }

  lemma {:induction false} ApplyAllConcat(db: Columns, d: Record, a: seq<Op>, b: seq<Op>)
    ensures var (d1, entries) := ApplyAll(db, d, a);
            var (d2, more) := ApplyAll(db, d1, b);
            ApplyAll(db, d, a + b) == (d2, entries + more)
    decreases |b|
  {
    hide Apply;
    if b == [] {
      assert a + b == a;
      assert ApplyAll(db, d, a).1 + [] == ApplyAll(db, d, a).1;
    } else {
      var n := |b| - 1;
      assert (a + b)[..|a + b| - 1] == a + b[..n];
      ApplyAllConcat(db, d, a, b[..n]);
      var (d1, entries) := ApplyAll(db, d, a);
      var (d2, more) := ApplyAll(db, d1, b[..n]);
      var (d3, last) := Apply(db, d2, b[n]);
      assert (entries + more) + last == entries + (more + last);
    }
  }

  /** The operations behind the `n`-th entry of an attribute. */
  lemma {:induction false} OpsOfEntries(db: Columns, d: Record, ops: seq<Op>, field: Field, n: nat) returns (m: nat)
    requires n <= |Of(ApplyAll(db, d, ops).1, field)|
    ensures m <= |ops| && |Of(ApplyAll(db, d, ops[..m]).1, field)| == n
    ensures n == 0 ==> m == 0
    decreases |ops|
  {
    hide Apply, Of;
    if n == 0 {
      m := 0;
      assert ops[..0] == [];
      NothingOf(field);
    } else if ops == [] {
      NothingOf(field);
      assert false;
    } else {
      var k := |ops| - 1;
      var init := ops[..k];
      var (d1, entries) := ApplyAll(db, d, init);
      OfConcat(entries, Apply(db, d1, ops[k]).1, field);
      OpLinks(db, d1, ops[k], field);
      if n <= |Of(entries, field)| {
        m := OpsOfEntries(db, d, init, field, n);
        assert init[..m] == ops[..m];
      } else {
        m := |ops|;
        assert ops[..m] == ops;
      }
    }
  }

  lemma NothingOf(field: Field)
    ensures Of([], field) == []
  {
  }

  // ---------------------------------------------------------------- the stored chain

  /** The stored chain, exactly.  Where no ties mislead, what the history shows of an attribute is what the
      operations from some `m`-th on wrote, and it leads link by link from the value the attribute had before
      them to its current value precisely when none of them distorts the attribute; `m` is zero, so that value
      is the one at creation, when nothing of the attribute was dropped. */
  lemma KeptChain(db: Columns, d: Record, ops: seq<Op>, field: Field, kept: set<nat>, shown: seq<nat>)
    returns (m: nat)
    requires var all := ApplyAll(db, d, ops).1;
             Streamed(all, kept) && Reads(all, kept, field, shown) && Untied(all, field)
    ensures m <= |ops| && forall a :: 0 <= a < |shown| ==> shown[a] < |ApplyAll(db, d, ops).1|
    ensures |shown| == |Of(ApplyAll(db, d, ops).1, field)| ==> m == 0
    ensures var (now, all) := ApplyAll(db, d, ops);
            var before := ApplyAll(db, d, ops[..m]).0;
            var entries := Entries(all, shown);
            && entries == Of(ApplyAll(db, before, ops[m..]).1, field)
            && (Chain(entries, Attribute(before, field), Attribute(now, field)) <==> NoneDistorts(db, ops[m..], field))
  {
    var all := ApplyAll(db, d, ops).1;
    ShownIsEnd(all, field, kept, shown);
    hide *;
    EntriesOfEnd(all, field, shown);
    m := EndOfOps(db, d, ops, field, |Of(all, field)| - |shown|);
    AuditChain(db, ApplyAll(db, d, ops[..m]).0, ops[m..], field);
  }

  /** The operations that wrote an attribute's entries from the `n`-th on. */
  lemma EndOfOps(db: Columns, d: Record, ops: seq<Op>, field: Field, n: nat) returns (m: nat)
    requires n <= |Of(ApplyAll(db, d, ops).1, field)|
    ensures m <= |ops| && (n == 0 ==> m == 0)
    ensures var rest := ApplyAll(db, ApplyAll(db, d, ops[..m]).0, ops[m..]);
            && rest.0 == ApplyAll(db, d, ops).0
            && Of(ApplyAll(db, d, ops).1, field)[n..] == Of(rest.1, field)
  {
    hide *;
    m := OpsOfEntries(db, d, ops, field, n);
    var (before, written) := ApplyAll(db, d, ops[..m]);
    assert ops == ops[..m] + ops[m..];
    ApplyAllConcat(db, d, ops[..m], ops[m..]);
    OfConcat(written, ApplyAll(db, before, ops[m..]).1, field);
  }

  lemma ShownIsEnd(all: History, field: Field, kept: set<nat>, shown: seq<nat>)
    requires Streamed(all, kept) && Reads(all, kept, field, shown) && Untied(all, field)
    ensures IsEnd(all, field, shown) && forall a :: 0 <= a < |shown| ==> shown[a] < |all|
  {
    hide Streamed, Untied;
    ShowsExactly(all, field);
    assert AreLast(all, field, kept) && Rising(shown);
    forall a | 0 <= a < |shown| ensures RowOf(all, field, shown[a]) && shown[a] in kept {
      assert shown[a] in shown;
    }
    forall i, a | RowOf(all, field, i) && 0 <= a < |shown| && shown[a] <= i ensures i in shown {
      assert shown[a] in shown && shown[a] in kept;
    }
  }

  function OpTime(op: Op): int {
    match op
    case Redetect(o) => o.at
    case Update(_, _, at) => at
  }

  /** The clock moves on between operations.  One operation may write several entries, of different
      attributes, at the same time. */
  ghost predicate Ticking(ops: seq<Op>) {
    forall i, j :: 0 <= i < j < |ops| ==> OpTime(ops[i]) < OpTime(ops[j])
  }

  /** A clock that moves on between operations leaves no ties. */
  lemma TickingUntied(db: Columns, d: Record, ops: seq<Op>, field: Field)
    requires Ticking(ops)
    ensures Untied(ApplyAll(db, d, ops).1, field)
  {
    var all := ApplyAll(db, d, ops).1;
    forall i: nat, j: nat | i < j && RowOf(all, field, i) && RowOf(all, field, j) ensures all[i].at < all[j].at {
      WrittenInOrder(db, d, ops, field, i, j);
    }
  }

  lemma {:induction false} WrittenInOrder(db: Columns, d: Record, ops: seq<Op>, field: Field, i: nat, j: nat)
    requires Ticking(ops) && i < j
    requires RowOf(ApplyAll(db, d, ops).1, field, i) && RowOf(ApplyAll(db, d, ops).1, field, j)
    ensures ApplyAll(db, d, ops).1[i].at < ApplyAll(db, d, ops).1[j].at
    decreases |ops|
  {
    hide Apply, Of;
    var n := |ops| - 1;
    var init := ops[..n];
    var (d1, entries) := ApplyAll(db, d, init);
    var more := Apply(db, d1, ops[n]).1;
    var all := entries + more;
    if j < |entries| {
      WrittenInOrder(db, d, init, field, i, j);
    } else {
      EntryTimes(db, d1, ops[n]);
      assert all[j] == more[j - |entries|];
      if i < |entries| {
        var k := WrittenBy(db, d, init, i);
        assert OpTime(ops[k]) < OpTime(ops[n]);
      } else {
        OpLinks(db, d1, ops[n], field);
        TwoOf(more, field, i - |entries|, j - |entries|);
        assert false;
      }
    }
  }

  /** The operation that wrote an entry. */
  lemma {:induction false} WrittenBy(db: Columns, d: Record, ops: seq<Op>, i: nat) returns (k: nat)
    requires i < |ApplyAll(db, d, ops).1|
    ensures k < |ops| && OpTime(ops[k]) == ApplyAll(db, d, ops).1[i].at
    decreases |ops|
  {
    hide Apply;
    var n := |ops| - 1;
    var (d1, entries) := ApplyAll(db, d, ops[..n]);
    if i < |entries| {
      k := WrittenBy(db, d, ops[..n], i);
    } else {
      k := n;
      EntryTimes(db, d1, ops[n]);
      assert ApplyAll(db, d, ops).1[i] == Apply(db, d1, ops[n]).1[i - |entries|];
    }
  }

  lemma {:induction false} TwoOf(entries: History, field: Field, i: nat, j: nat)
    requires i < j && RowOf(entries, field, i) && RowOf(entries, field, j)
    ensures |Of(entries, field)| >= 2
    decreases |entries|
  {
    var n := |entries| - 1;
    if j < n {
      TwoOf(entries[..n], field, i, j);
    } else {
      OneOf(entries[..n], field, i);
    }
  }

  lemma {:induction false} OneOf(entries: History, field: Field, i: nat)
    requires RowOf(entries, field, i)
    ensures |Of(entries, field)| >= 1
    decreases |entries|
  {
    if i < |entries| - 1 { OneOf(entries[..|entries| - 1], field, i); }
  }

  // ---------------------------------------------------------------- two entries of one time

  /** Explicit updates that are not refused write one entry each. */
  lemma {:induction false} UpdatesWrite(db: Columns, d: Record, ops: seq<Op>)
    requires forall i :: 0 <= i < |ops| ==> ops[i].Update? && !Refused(db, ops[i])
    ensures var all := ApplyAll(db, d, ops).1;
            |all| == |ops| && forall i :: 0 <= i < |ops| ==>
              all[i].field == ops[i].field && all[i].after == ops[i].value && all[i].at == ops[i].at
  {
    if ops != [] {
      var n := |ops| - 1;
      hide Refused, Updated, Attribute;
      UpdatesWrite(db, d, ops[..n]);
    }
  }

  lemma {:induction false} VendorKept(db: Columns, d: Record, ops: seq<Op>)
    requires forall i :: 0 <= i < |ops| ==> ops[i].Update? && ops[i].field == Model
    ensures ApplyAll(db, d, ops).0.vendor == d.vendor
  {
    if ops != [] { VendorKept(db, d, ops[..|ops| - 1]); }
  }

  /** Two updates of one attribute at one time, and 999 later ones of another. */
  function TiedOps(vendor: string, at: int): (ops: seq<Op>)
    ensures |ops| == 1001
  {
    [Update(Vendor, Some(vendor), at), Update(Vendor, None, at)]
      + seq(999, i => Update(Model, None, at + 1))
  }

  /** Ties do mislead: after two updates of one time the limit may drop the newer entry, and then the history
      never leads to the current value. */
  lemma TieBreaksChain(db: Columns, d: Record, vendor: string, at: int) returns (kept: set<nat>)
    requires Stored(db, Vendor, vendor).Some?
    ensures var (now, all) := ApplyAll(db, d, TiedOps(vendor, at));
            && |all| == 1001 && Streamed(all, kept) && Reads(all, kept, Vendor, [0])
            && forall from :: !Chain(Entries(all, [0]), from, now.vendor)
  {
    var ops := TiedOps(vendor, at);
    var (now, all) := ApplyAll(db, d, ops);
    UpdatesWrite(db, d, ops);
    kept := SecondDropped(all);
    TiedVendor(db, d, vendor, at);
    forall from ensures !Chain(Entries(all, [0]), from, now.vendor) {
      assert Entries(all, [0])[0] == all[0];
    }
  }

  lemma SecondDropped(all: History) returns (kept: set<nat>)
    requires |all| == MAX_HISTORY + 1 && forall i :: 0 <= i < |all| ==> all[i].at >= all[1].at
    ensures Streamed(all, kept) && forall i: nat :: i in kept <==> i < |all| && i != 1
  {
    kept := Range(|all|) - {1};
    RangeSize(|all|);
    assert Range(|all|) == kept + {1};
    KeepsStreamed(all, kept);
  }

  lemma TiedVendor(db: Columns, d: Record, vendor: string, at: int)
    ensures ApplyAll(db, d, TiedOps(vendor, at)).0.vendor == None
  {
    var first := [Update(Vendor, Some(vendor), at), Update(Vendor, None, at)];
    var rest := seq(999, i => Update(Model, None, at + 1));
    ApplyAllConcat(db, d, first, rest);
    VendorKept(db, ApplyAll(db, d, first).0, rest);
    assert first[..1] == [first[0]];
  }
}
