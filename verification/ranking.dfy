/**
 The ordering of a results report: options by descending vote count, options
 with equal counts in their original order (Python's `sorted` with
 `reverse=True` is stable).
 */
module Ranking {
  import opened Polls

  predicate NonIncreasing(s: seq<OptionEntry>) {
    forall i, j :: 0 <= i < j < |s| ==> s[i].count >= s[j].count
  }

  /** The options of `s` with exactly `c` votes, in the order of `s`. */
  function WithCount(s: seq<OptionEntry>, c: nat): seq<OptionEntry>
    decreases |s|
  {
    if s == [] then []
    else (if s[0].count == c then [s[0]] else []) + WithCount(s[1..], c)
  }

  /** Places `x` into a ranked list after every option with at least as many votes. */
  function Insert(ranked: seq<OptionEntry>, x: OptionEntry): (r: seq<OptionEntry>)
    ensures multiset(r) == multiset(ranked) + multiset{x}
    decreases |ranked|
  {
    if ranked == [] then [x]
    else if ranked[0].count >= x.count then
      assert ranked == [ranked[0]] + ranked[1..];
      [ranked[0]] + Insert(ranked[1..], x)
    else
      [x] + ranked
  }

  /** Inserting keeps every count under a bound that `x` and the list already respect. */
  lemma {:induction false} InsertBounded(ranked: seq<OptionEntry>, x: OptionEntry, b: nat)
    requires x.count <= b
    requires forall k :: 0 <= k < |ranked| ==> ranked[k].count <= b
    ensures forall k :: 0 <= k < |Insert(ranked, x)| ==> Insert(ranked, x)[k].count <= b
    decreases |ranked|
  {
    if ranked != [] && ranked[0].count >= x.count {
      InsertBounded(ranked[1..], x, b);
    }
  }

  /** A head no smaller than anything in a non-increasing tail keeps the list non-increasing. */
  lemma ConsSorted(h: OptionEntry, t: seq<OptionEntry>)
    requires NonIncreasing(t)
    requires forall k :: 0 <= k < |t| ==> t[k].count <= h.count
    ensures NonIncreasing([h] + t)
  {
    var s := [h] + t;
    forall i, j | 0 <= i < j < |s| ensures s[i].count >= s[j].count {
      assert s[j] == t[j - 1];
      if i > 0 {
        assert s[i] == t[i - 1];
      }
    }
  }

  lemma {:induction false} InsertSorted(ranked: seq<OptionEntry>, x: OptionEntry)
    requires NonIncreasing(ranked)
    ensures NonIncreasing(Insert(ranked, x))
    decreases |ranked|
  {
    if ranked == [] {
      assert Insert(ranked, x) == [x];
    } else if ranked[0].count >= x.count {
      var t := Insert(ranked[1..], x);
      assert NonIncreasing(ranked[1..]);
      InsertSorted(ranked[1..], x);
      InsertBounded(ranked[1..], x, ranked[0].count);
      assert Insert(ranked, x) == [ranked[0]] + t;
      ConsSorted(ranked[0], t);
    } else {
      assert Insert(ranked, x) == [x] + ranked;
      ConsSorted(x, ranked);
    }
  }

  /** The options in results order: non-increasing counts, the same options. */
  function Rank(opts: seq<OptionEntry>): (r: seq<OptionEntry>)
    ensures NonIncreasing(r)
    ensures multiset(r) == multiset(opts)
    decreases |opts|
  {
    if opts == [] then []
    else
      var init, x := opts[..|opts| - 1], opts[|opts| - 1];
      assert opts == init + [x];
      InsertSorted(Rank(init), x);
      Insert(Rank(init), x)
  }

  lemma AppendAssoc(a: seq<OptionEntry>, b: seq<OptionEntry>, c: seq<OptionEntry>)
    ensures a + (b + c) == (a + b) + c
  {
  }

  /** The options of `s` with count `c`: the head's contribution, then the tail's. */
  lemma WithCountCons(s: seq<OptionEntry>, c: nat)
    requires s != []
    ensures WithCount(s, c) == (if s[0].count == c then [s[0]] else []) + WithCount(s[1..], c)
  {
  }

  lemma {:induction false} WithCountAppend(s: seq<OptionEntry>, t: seq<OptionEntry>, c: nat)
    ensures WithCount(s + t, c) == WithCount(s, c) + WithCount(t, c)
    decreases |s|
  {
    if s == [] {
      assert s + t == t;
      assert WithCount(s, c) == [];
    } else {
      var h := if s[0].count == c then [s[0]] else [];
      calc {
        WithCount(s + t, c);
        { assert (s + t)[0] == s[0]; assert (s + t)[1..] == s[1..] + t; WithCountCons(s + t, c); }
        h + WithCount(s[1..] + t, c);
        { WithCountAppend(s[1..], t, c); }
        h + (WithCount(s[1..], c) + WithCount(t, c));
        { AppendAssoc(h, WithCount(s[1..], c), WithCount(t, c)); }
        (h + WithCount(s[1..], c)) + WithCount(t, c);
        { WithCountCons(s, c); }
        WithCount(s, c) + WithCount(t, c);
      }
    }
  }

  lemma {:induction false} WithCountNone(s: seq<OptionEntry>, c: nat)
    requires forall k :: 0 <= k < |s| ==> s[k].count < c
    ensures WithCount(s, c) == []
    decreases |s|
  {
    if s != [] {
      WithCountNone(s[1..], c);
    }
  }

  /** Inserting `x` puts it after every option of the ranked list with the same count. */
  lemma {:induction false} WithCountInsert(ranked: seq<OptionEntry>, x: OptionEntry, c: nat)
    requires NonIncreasing(ranked)
    ensures WithCount(Insert(ranked, x), c) == WithCount(ranked, c) + (if x.count == c then [x] else [])
    decreases |ranked|
  {
    var hx := if x.count == c then [x] else [];
    if ranked == [] {
      assert Insert(ranked, x) == [x];
      WithCountCons([x], c);
      assert [x][1..] == [];
    } else if ranked[0].count >= x.count {
      var h := if ranked[0].count == c then [ranked[0]] else [];
      var rest := Insert(ranked[1..], x);
      assert NonIncreasing(ranked[1..]);
      calc {
        WithCount(Insert(ranked, x), c);
        { assert Insert(ranked, x) == [ranked[0]] + rest; }
        WithCount([ranked[0]] + rest, c);
        { WithCountCons([ranked[0]] + rest, c); assert ([ranked[0]] + rest)[1..] == rest; }
        h + WithCount(rest, c);
        { WithCountInsert(ranked[1..], x, c); }
        h + (WithCount(ranked[1..], c) + hx);
        { AppendAssoc(h, WithCount(ranked[1..], c), hx); }
        (h + WithCount(ranked[1..], c)) + hx;
        { WithCountCons(ranked, c); }
        WithCount(ranked, c) + hx;
      }
    } else {
      assert Insert(ranked, x) == [x] + ranked;
      WithCountCons([x] + ranked, c);
      assert ([x] + ranked)[1..] == ranked;
      if x.count == c {
        WithCountNone(ranked, c);
        assert WithCount(ranked, c) == [];
      }
    }
  }

  /**
   Stability: for every vote count, the options with that count appear in the
   ranking in the same order as in the poll.
   */
  lemma {:induction false} RankStable(opts: seq<OptionEntry>, c: nat)
    ensures WithCount(Rank(opts), c) == WithCount(opts, c)
    decreases |opts|
  {
    if opts != [] {
      var init := opts[..|opts| - 1];
      var x := opts[|opts| - 1];
      var hx := if x.count == c then [x] else [];
      calc {
        WithCount(Rank(opts), c);
        { RankSnoc(init, x); assert init + [x] == opts; }
        WithCount(Insert(Rank(init), x), c);
        { WithCountInsert(Rank(init), x, c); }
        WithCount(Rank(init), c) + hx;
        { RankStable(init, c); }
        WithCount(init, c) + hx;
        { WithCountCons([x], c); assert [x][1..] == []; }
        WithCount(init, c) + WithCount([x], c);
        { WithCountAppend(init, [x], c); assert init + [x] == opts; }
        WithCount(opts, c);
      }
    }
  }

  /**
   A ranking is determined by the two properties: any non-increasing list that
   keeps, for every count, the options with that count in poll order, is the ranking.
   */
  lemma {:induction false} RankUnique(opts: seq<OptionEntry>, r: seq<OptionEntry>)
    requires NonIncreasing(r)
    requires forall c: nat :: WithCount(r, c) == WithCount(opts, c)
    ensures r == Rank(opts)
  {
    forall c: nat ensures WithCount(r, c) == WithCount(Rank(opts), c) {
      RankStable(opts, c);
    }
    SortedEqual(r, Rank(opts));
  }

  lemma PrefixCancel(h: seq<OptionEntry>, x: seq<OptionEntry>, y: seq<OptionEntry>)
    requires h + x == h + y
    ensures x == y
  {
    assert x == (h + x)[|h|..];
    assert y == (h + y)[|h|..];
  }

  /** Two non-increasing lists with the same options of every count are equal. */
  lemma {:induction false} SortedEqual(a: seq<OptionEntry>, b: seq<OptionEntry>)
    requires NonIncreasing(a) && NonIncreasing(b)
    requires forall c: nat :: WithCount(a, c) == WithCount(b, c)
    ensures a == b
    decreases |a| + |b|
  {
    if a == [] && b == [] {
    } else if a == [] {
      WithCountCons(b, b[0].count);
      assert false;
    } else if b == [] {
      WithCountCons(a, a[0].count);
      assert false;
    } else {
      // The largest count comes first in both lists, with the same first option.
      FirstOfTop(a, b);
      FirstOfTop(b, a);
      var c0 := a[0].count;
      WithCountCons(a, c0);
      WithCountCons(b, c0);
      assert a[0] == WithCount(a, c0)[0] && b[0] == WithCount(b, c0)[0];
      forall c: nat ensures WithCount(a[1..], c) == WithCount(b[1..], c) {
        WithCountCons(a, c);
        WithCountCons(b, c);
        PrefixCancel(if a[0].count == c then [a[0]] else [], WithCount(a[1..], c), WithCount(b[1..], c));
      }
      assert NonIncreasing(a[1..]) && NonIncreasing(b[1..]);
      SortedEqual(a[1..], b[1..]);
      assert a == [a[0]] + a[1..];
      assert b == [b[0]] + b[1..];
    }
  }

  /** Under equal per-count contents, the head of `a` has no fewer votes than the head of `b`. */
  lemma FirstOfTop(a: seq<OptionEntry>, b: seq<OptionEntry>)
    requires a != [] && b != []
    requires NonIncreasing(a)
    requires forall c: nat :: WithCount(a, c) == WithCount(b, c)
    ensures a[0].count >= b[0].count
  {
    var c := b[0].count;
    assert WithCount(b, c) == [b[0]] + WithCount(b[1..], c);
    if a[0].count < c {
      WithCountNone(a, c);
      assert false;
    }
  }

  lemma RankSnoc(s: seq<OptionEntry>, x: OptionEntry)
    ensures Rank(s + [x]) == Insert(Rank(s), x)
  {
    assert (s + [x])[..|s|] == s;
  }

  /** The options of a three-element list with count `c`. */
  lemma WithCountThree(a: OptionEntry, b: OptionEntry, d: OptionEntry, c: nat)
    ensures WithCount([a, b, d], c) ==
      (if a.count == c then [a] else []) + (if b.count == c then [b] else []) + (if d.count == c then [d] else [])
  {
    var s := [a, b, d];
    WithCountCons(s, c);
    assert s[1..] == [b, d];
    WithCountCons([b, d], c);
    assert [b, d][1..] == [d];
    WithCountCons([d], c);
    assert [d][1..] == [];
  }

  /** The example of a poll with counts 5, 5, 2 under keys 1, 2, 3: the ranking keeps key order among the tie. */
  lemma RankTieExample()
    ensures var e1, e2, e3 := OptionEntry("1", "a", 5), OptionEntry("2", "b", 5), OptionEntry("3", "c", 2);
      Rank([e1, e2, e3]) == [e1, e2, e3]
  {
    var e1, e2, e3 := OptionEntry("1", "a", 5), OptionEntry("2", "b", 5), OptionEntry("3", "c", 2);
    RankUnique([e1, e2, e3], [e1, e2, e3]);
  }

  /** Counts 2, 5, 5 under keys 1, 2, 3 rank as 2, 3, 1. */
  lemma RankReorderExample()
    ensures var e1, e2, e3 := OptionEntry("1", "a", 2), OptionEntry("2", "b", 5), OptionEntry("3", "c", 5);
      Rank([e1, e2, e3]) == [e2, e3, e1]
  {
    var e1, e2, e3 := OptionEntry("1", "a", 2), OptionEntry("2", "b", 5), OptionEntry("3", "c", 5);
    forall c: nat ensures WithCount([e2, e3, e1], c) == WithCount([e1, e2, e3], c) {
      WithCountThree(e2, e3, e1, c);
      WithCountThree(e1, e2, e3, c);
    }
    RankUnique([e1, e2, e3], [e2, e3, e1]);
  }
}
