/**
 * The audit history of one device: a chain of old and new values per attribute, kept as the thousand
 * latest entries.
 */
module Audit {
  import opened Bytes

  const MAX_HISTORY: nat := 1000

  datatype Field = Vendor | Model | Firmware | DeviceType | Protocols | IpAddress

  datatype Entry = Entry(field: Field, before: Option<string>, after: Option<string>, at: int)

  type History = seq<Entry>

  // ---------------------------------------------------------------- the thousand latest

  /** What enforcing the limit may do: nothing up to the limit, else drop the excess oldest entries,
      ties broken arbitrarily. */
  ghost predicate Trimmed(entries: History, kept: History, dropped: History) {
    && multiset(entries) == multiset(kept) + multiset(dropped)
    && (|entries| <= MAX_HISTORY ==> dropped == [])
    && (|entries| > MAX_HISTORY ==> |kept| == MAX_HISTORY)
    && forall d, k :: d in dropped && k in kept ==> d.at <= k.at
  }

  /** `kept` and `dropped` are what streaming `all` through the limit left: at most a thousand entries,
      none of them older than any dropped one. */
  ghost predicate LatestKept(all: History, kept: History, dropped: History) {
    && multiset(all) == multiset(kept) + multiset(dropped)
    && |kept| <= MAX_HISTORY
    && (dropped != [] ==> |kept| == MAX_HISTORY)
    && forall d, k :: d in dropped && k in kept ==> d.at <= k.at
  }

  lemma InMultiset(a: History, b: History, c: History, e: Entry)
    requires multiset(a) == multiset(b) + multiset(c)
    ensures e in a <==> e in b || e in c
  {
    assert e in a <==> multiset(a)[e] > 0;
    assert e in b <==> multiset(b)[e] > 0;
    assert e in c <==> multiset(c)[e] > 0;
  }

  lemma SizeOfParts(a: History, b: History, c: History)
    requires multiset(a) == multiset(b) + multiset(c)
    ensures |a| == |b| + |c|
  {
    MultisetSize(a);
    MultisetSize(b);
    MultisetSize(c);
  }

  lemma {:induction false} MultisetSize(a: History)
    ensures |multiset(a)| == |a|
  {
    if a != [] {
      var n := |a| - 1;
      assert a == a[..n] + [a[n]];
      MultisetSize(a[..n]);
    }
  }

  /** One more entry, in any order of time, and the history is still the latest thousand. */
  lemma LatestKeptStep(all: History, kept: History, dropped: History, e: Entry, kept': History, dropped': History)
    requires LatestKept(all, kept, dropped) && Trimmed(kept + [e], kept', dropped')
    ensures LatestKept(all + [e], kept', dropped + dropped')
  {
    SizeOfParts(kept + [e], kept', dropped');
    forall d, k | d in dropped + dropped' && k in kept' ensures d.at <= k.at {
      InMultiset(kept + [e], kept', dropped', k);
      if d !in dropped' && k !in kept {
        assert k == e && |dropped'| == 1;
        var x := dropped'[0];
        assert x in dropped';
        InMultiset(kept + [e], kept', dropped', x);
        OneRemoved(kept, e, kept', x);
      }
    }
    assert multiset(all + [e]) == multiset(all) + multiset{e};
    assert multiset(kept + [e]) == multiset(kept) + multiset{e};
    assert multiset(dropped + dropped') == multiset(dropped) + multiset(dropped');
    Exchange(multiset(all), multiset(kept), multiset(dropped), multiset{e}, multiset(kept'), multiset(dropped'));
  }

  lemma Exchange(all: multiset<Entry>, kept: multiset<Entry>, dropped: multiset<Entry>, added: multiset<Entry>,
                 kept': multiset<Entry>, dropped': multiset<Entry>)
    requires all == kept + dropped && kept + added == kept' + dropped'
    ensures all + added == kept' + (dropped + dropped')
  {
    assert (kept + dropped) + added == (kept + added) + dropped;
  }

  lemma OneRemoved(kept: History, e: Entry, kept': History, x: Entry)
    requires multiset(kept + [e]) == multiset(kept') + multiset([x]) && e in kept' && e !in kept
    ensures x in kept
  {
    assert multiset(kept + [e]) == multiset(kept) + multiset{e};
    assert multiset(kept)[e] == 0 && multiset(kept')[e] >= 1;
    assert multiset(kept + [e])[e] == 1;
    assert multiset([x]) == multiset{x};
    assert [x][0] == x;
    InMultiset(kept + [e], kept', [x], x);
  }

  /** One insertion, with the choice the database made at the limit check behind it. */
  datatype Insertion = Insertion(entry: Entry, kept: History, dropped: History)

  ghost function Inserted(run: seq<Insertion>): History {
    if run == [] then [] else Inserted(run[..|run| - 1]) + [run[|run| - 1].entry]
  }

  ghost function Kept(run: seq<Insertion>): History {
    if run == [] then [] else run[|run| - 1].kept
  }

  ghost function Dropped(run: seq<Insertion>): History {
    if run == [] then [] else Dropped(run[..|run| - 1]) + run[|run| - 1].dropped
  }

  /** Every insertion trims what the one before it kept. */
  ghost predicate Possible(run: seq<Insertion>) {
    run == [] ||
    (var init, last := run[..|run| - 1], run[|run| - 1];
     Possible(init) && Trimmed(Kept(init) + [last.entry], last.kept, last.dropped))
  }

  /** The bounded log is a streaming top thousand: after any sequence of insertions, however ties are
      broken, at most a thousand entries remain and none discarded is later than any kept. */
  lemma {:induction false} StreamingLatest(run: seq<Insertion>)
    requires Possible(run)
    ensures LatestKept(Inserted(run), Kept(run), Dropped(run))
    ensures |Kept(run)| <= 1000 && (Dropped(run) != [] ==> |Kept(run)| == 1000)
  {
    if run != [] {
      hide LatestKept, Trimmed;
      var init, last := run[..|run| - 1], run[|run| - 1];
      StreamingLatest(init);
      LatestKeptStep(Inserted(init), Kept(init), Dropped(init), last.entry, last.kept, last.dropped);
    }
  }

  // ---------------------------------------------------------------- the chain

  /** The entries of one attribute. */
  function Of(entries: History, field: Field): History {
    if entries == [] then []
    else Of(entries[..|entries| - 1], field)
         + if entries[|entries| - 1].field == field then [entries[|entries| - 1]] else []
  }

  /** The entries lead from `from` to `to`: each starts where the previous one ended. */
  ghost predicate Chain(entries: History, from: Option<string>, to: Option<string>) {
    if entries == [] then from == to
    else
      var last := entries[|entries| - 1];
      last.after == to && Chain(entries[..|entries| - 1], from, last.before)
  }

  lemma {:induction false} OfConcat(a: History, b: History, field: Field)
    ensures Of(a + b, field) == Of(a, field) + Of(b, field)
    decreases |b|
  {
    if b == [] {
      assert a + b == a;
    } else {
      var n := |b| - 1;
      assert (a + b)[..|a + b| - 1] == a + b[..n];
      OfConcat(a, b[..n], field);
    }
  }

  lemma ChainExtend(entries: History, e: Entry, from: Option<string>, to: Option<string>)
    ensures Chain(entries + [e], from, to) <==> Chain(entries, from, e.before) && e.after == to
  {
    assert (entries + [e])[..|entries|] == entries;
  }
}
