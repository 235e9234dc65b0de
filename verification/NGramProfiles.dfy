/**
 Profiles of the most frequent n-grams, selected with a heap of bounded size while
 the counts are read in n-gram order.
 */
module NGramProfiles {
  import opened StringOrder

  datatype NGramFreq = NGramFreq(ngram: string, freq: nat)

  /** Most frequent first; among equally frequent ones, in n-gram order. */
  predicate Less(a: NGramFreq, b: NGramFreq) {
    a.freq > b.freq || (a.freq == b.freq && Before(a.ngram, b.ngram))
  }

  lemma LessTotal(a: NGramFreq, b: NGramFreq)
    ensures a == b || Less(a, b) || Less(b, a)
    ensures !(Less(a, b) && Less(b, a)) && !Less(a, a)
  {
    BeforeTotal(a.ngram, b.ngram);
    BeforeTotal(a.ngram, a.ngram);
  }

  lemma LessTransitive(a: NGramFreq, b: NGramFreq, c: NGramFreq)
    requires Less(a, b) && Less(b, c)
    ensures Less(a, c)
  {
    if a.freq == c.freq {
      BeforeTransitive(a.ngram, b.ngram, c.ngram);
    }
  }

  type Items = seq<NGramFreq>

  ghost predicate Ordered(s: Items) {
    forall i, j :: 0 <= i < j < |s| ==> Less(s[i], s[j])
  }

  ghost predicate Distinct(s: Items) {
    forall i, j :: 0 <= i < j < |s| ==> s[i] != s[j]
  }

  ghost function Elements(s: Items): set<NGramFreq> {
    set i | 0 <= i < |s| :: s[i]
  }

  // --------------------------------------------------------- the full sort

  /** The first of a set of items. */
  ghost predicate IsFirst(s: set<NGramFreq>, m: NGramFreq) {
    m in s && forall x :: x in s && x != m ==> Less(m, x)
  }

  lemma {:induction false} FirstExists(s: set<NGramFreq>)
    requires s != {}
    ensures exists m :: IsFirst(s, m)
    decreases |s|
  {
    var x :| x in s;
    if s == {x} {
      assert IsFirst(s, x);
    } else {
      FirstExists(s - {x});
      var y :| IsFirst(s - {x}, y);
      LessTotal(x, y);
      if Less(x, y) {
        forall z | z in s && z != x
          ensures Less(x, z)
        {
          if z != y {
            LessTransitive(x, y, z);
          }
        }
        assert IsFirst(s, x);
      } else {
        assert IsFirst(s, y);
      }
    }
  }

  ghost function First(s: set<NGramFreq>): (m: NGramFreq)
    requires s != {}
    ensures IsFirst(s, m)
  {
    FirstExists(s);
    var m :| IsFirst(s, m);
    m
  }

  /** All items of a set, sorted. */
  ghost function FullSort(s: set<NGramFreq>): Items
    decreases |s|
  {
    if s == {} then [] else [First(s)] + FullSort(s - {First(s)})
  }

  /** `r` holds the `k` first items of `s`, or all of them, in order. */
  ghost predicate Leads(r: Items, s: set<NGramFreq>, k: nat) {
    && Ordered(r) && Elements(r) <= s
    && |r| == (if |s| < k then |s| else k)
    && forall x, y :: x in s && x !in Elements(r) && y in Elements(r) ==> Less(y, x)
  }

  /** That pins `r` down: it is the beginning of the full sort. */
  lemma {:induction false} LeadsIsPrefix(r: Items, s: set<NGramFreq>, k: nat)
    requires Leads(r, s, k)
    ensures |r| <= |FullSort(s)| == |s| && r == FullSort(s)[..|r|]
    decreases |s|
  {
    FullSortLength(s);
    if r != [] {
      var m := First(s);
      FirstIsFirst(r, s, k, m);
      var t, rest := r[1..], s - {m};
      assert r == [m] + t;
      forall x
        ensures x in Elements(t) <==> x in Elements(r) && x != m
      {
        ElementsTail(r, x);
      }
      assert Leads(t, rest, k - 1);
      LeadsIsPrefix(t, rest, k - 1);
      assert FullSort(s)[..|r|] == [m] + FullSort(rest)[..|t|];
    }
  }

  lemma ElementsTail(r: Items, x: NGramFreq)
    requires r != [] && Ordered(r)
    ensures x in Elements(r[1..]) <==> x in Elements(r) && x != r[0]
  {
    var t := r[1..];
    if x in Elements(t) {
      var i :| 0 <= i < |t| && t[i] == x;
      assert r[i + 1] == x;
      LessTotal(r[0], r[0]);
    }
    if x in Elements(r) && x != r[0] {
      var i :| 0 <= i < |r| && r[i] == x;
      assert t[i - 1] == x;
    }
  }

  lemma FirstIsFirst(r: Items, s: set<NGramFreq>, k: nat, m: NGramFreq)
    requires Leads(r, s, k) && r != [] && IsFirst(s, m)
    ensures r[0] == m
  {
    assert r[0] in Elements(r);
    LessTotal(r[0], m);
    assert m in Elements(r);
    var i :| 0 <= i < |r| && r[i] == m;
  }

  lemma {:induction false} FullSortLength(s: set<NGramFreq>)
    ensures |FullSort(s)| == |s|
    decreases |s|
  {
    if s != {} {
      FullSortLength(s - {First(s)});
    }
  }

  // ----------------------------------------------------- selecting the first

  /** `held` is the set of the `k` first items of `seen`, or all of them. */
  ghost predicate Selected(held: set<NGramFreq>, seen: set<NGramFreq>, k: nat) {
    && held <= seen && |held| == (if |seen| < k then |seen| else k)
    && forall x, y :: x in seen - held && y in held ==> Less(y, x)
  }

  ghost predicate IsLast(s: set<NGramFreq>, m: NGramFreq) {
    m in s && forall x :: x in s && x != m ==> Less(x, m)
  }

  /** An item better than the worst one held takes its place. */
  lemma SelectBetter(held: set<NGramFreq>, seen: set<NGramFreq>, k: nat, worst: NGramFreq, x: NGramFreq)
    requires Selected(held, seen, k) && |held| == k && IsLast(held, worst)
    requires x !in seen && Less(x, worst)
    ensures Selected(held + {x} - {worst}, seen + {x}, k)
  {
    var now := held + {x} - {worst};
    LessTotal(x, x);
    assert now == (held - {worst}) + {x};
    forall z, y | z in seen + {x} - now && y in now
      ensures Less(y, z)
    {
      if z == worst {
      } else {
        assert Less(worst, z);
        assert Less(y, worst);
        LessTransitive(y, worst, z);
      }
    }
  }

  /** An item worse than all those held is passed over. */
  lemma SelectWorse(held: set<NGramFreq>, seen: set<NGramFreq>, k: nat, worst: NGramFreq, x: NGramFreq)
    requires Selected(held, seen, k) && |held| == k && IsLast(held, worst)
    requires x !in seen && Less(worst, x)
    ensures Selected(held, seen + {x}, k)
  {
    forall z, y | z in seen + {x} - held && y in held
      ensures Less(y, z)
    {
      if z == x && y != worst {
        LessTransitive(y, worst, x);
      }
    }
  }

  // --------------------------------------------- heap operations on a vector

  /** What the caller of the heap operations relies on: the front is last of all. */
  ghost predicate HeapFront(s: Items) {
    s != [] ==> forall i :: 0 < i < |s| ==> !Less(s[0], s[i])
  }

  ghost predicate Permuted(s: Items, t: Items) {
    |s| == |t| && Elements(s) == Elements(t) && (Distinct(s) ==> Distinct(t))
  }

  lemma Swapped(s: Items, i: nat, j: nat)
    requires i < |s| && j < |s|
    ensures Permuted(s, s[i := s[j]][j := s[i]])
  {
    var t := s[i := s[j]][j := s[i]];
    forall x | x in Elements(s)
      ensures x in Elements(t)
    {
      var k :| 0 <= k < |s| && s[k] == x;
      assert t[if k == i then j else if k == j then i else k] == x;
    }
    forall x | x in Elements(t)
      ensures x in Elements(s)
    {
      var k :| 0 <= k < |t| && t[k] == x;
      assert s[if k == i then j else if k == j then i else k] == x;
    }
  }

  method MakeHeap(items: Items) returns (heap: Items)
    ensures HeapFront(heap) && Permuted(items, heap)
  {
    if items == [] {
      return items;
    }
    var at := 0;
    LessTotal(items[0], items[0]);
    for i := 1 to |items|
      invariant 0 <= at < i
      invariant forall j :: 0 <= j < i ==> !Less(items[at], items[j])
    {
      LessTotal(items[at], items[i]);
      if Less(items[at], items[i]) {
        forall j | 0 <= j < i
          ensures !Less(items[i], items[j])
        {
          if Less(items[i], items[j]) {
            LessTransitive(items[at], items[i], items[j]);
          }
        }
        at := i;
      }
      LessTotal(items[at], items[at]);
    }
    Swapped(items, 0, at);
    heap := items[0 := items[at]][at := items[0]];
  }

  /** Adds the last item to the heap formed by the others. */
  method PushHeap(items: Items) returns (heap: Items)
    requires items != [] && HeapFront(items[..|items| - 1])
    ensures HeapFront(heap) && Permuted(items, heap)
  {
    heap := MakeHeap(items);
  }

  /** Moves the front to the end and makes a heap of the others. */
  method PopHeap(heap: Items) returns (items: Items)
    requires heap != [] && HeapFront(heap)
    ensures |items| == |heap| && Permuted(heap, items)
    ensures items[|items| - 1] == heap[0] && HeapFront(items[..|items| - 1])
  {
    var n := |heap| - 1;
    Swapped(heap, 0, n);
    var swapped := heap[0 := heap[n]][n := heap[0]];
    var rest := MakeHeap(swapped[..n]);
    items := rest + [heap[0]];
    assert items[..n] == rest;
    PermutedBefore(swapped, rest);
  }

  lemma PermutedBefore(s: Items, rest: Items)
    requires s != [] && Permuted(s[..|s| - 1], rest)
    ensures Permuted(s, rest + [s[|s| - 1]])
  {
    var n := |s| - 1;
    var t := rest + [s[n]];
    forall x
      ensures x in Elements(s) <==> x in Elements(t)
    {
      ElementsLast(s, x);
      assert t[..n] == rest;
      ElementsLast(t, x);
    }
    if Distinct(s) {
      forall i, j | 0 <= i < j < |t|
        ensures t[i] != t[j]
      {
        if j == n {
          assert rest[i] in Elements(rest);
          var k :| 0 <= k < n && s[..n][k] == rest[i];
          assert s[k] == rest[i];
        }
      }
    }
  }

  lemma ElementsLast(s: Items, x: NGramFreq)
    requires s != []
    ensures x in Elements(s) <==> x in Elements(s[..|s| - 1]) || x == s[|s| - 1]
  {
    var n := |s| - 1;
    if x in Elements(s) && x != s[n] {
      var i :| 0 <= i < |s| && s[i] == x;
      assert s[..n][i] == x;
    }
    if x in Elements(s[..n]) {
      var i :| 0 <= i < n && s[..n][i] == x;
      assert s[i] == x;
    }
  }

  /** Sorts a heap into order, by moving the front to the end again and again. */
  method SortHeap(heap: Items) returns (items: Items)
    requires HeapFront(heap) && Distinct(heap)
    ensures Ordered(items) && Permuted(heap, items)
  {
    items := heap;
    var n := |heap|;
    assert items[..n] == items && items[n..] == [];
    while n > 0
      invariant 0 <= n <= |items| == |heap| && Permuted(heap, items)
      invariant HeapFront(items[..n]) && Ordered(items[n..])
      invariant forall i, j :: 0 <= i < n <= j < |items| ==> Less(items[i], items[j])
    {
      var front, tail := items[..n], items[n..];
      assert items == front + tail;
      var popped := PopHeap(front);
      ReplacedFront(heap, front, popped, tail);
      items := popped + tail;
      n := n - 1;
      FrontIsLast(front, popped);
      assert items[..n] == popped[..n];
      assert items[n] == front[0] && items[n..] == [front[0]] + tail;
    }
    assert items[0..] == items;
  }

  lemma ReplacedFront(heap: Items, front: Items, popped: Items, tail: Items)
    requires Permuted(heap, front + tail) && Permuted(front, popped) && Distinct(heap)
    ensures Permuted(heap, popped + tail)
    ensures forall i, j ::
              (0 <= i < |popped| && 0 <= j < |tail| && forall k :: 0 <= k < |front| ==> Less(front[k], tail[j])) ==>
              Less(popped[i], tail[j])
    ensures Distinct(front) && Distinct(popped)
  {
    var s, t := front + tail, popped + tail;
    assert s[..|front|] == front;
    assert Distinct(front);
    forall x
      ensures x in Elements(s) <==> x in Elements(t)
    {
      ElementsConcat(front, tail, x);
      ElementsConcat(popped, tail, x);
    }
    forall i | 0 <= i < |popped|
      ensures exists k :: 0 <= k < |front| && front[k] == popped[i]
    {
      assert popped[i] in Elements(popped);
    }
    forall i, j | 0 <= i < j < |t|
      ensures t[i] != t[j]
    {
      if i < |front| <= j {
        var k :| 0 <= k < |front| && front[k] == popped[i];
        assert s[k] != s[j];
      } else if |front| <= i {
        assert s[i] != s[j];
      }
    }
  }

  lemma ElementsConcat(s: Items, t: Items, x: NGramFreq)
    ensures x in Elements(s + t) <==> x in Elements(s) || x in Elements(t)
  {
    if x in Elements(s) {
      var i :| 0 <= i < |s| && s[i] == x;
      assert (s + t)[i] == x;
    }
    if x in Elements(t) {
      var i :| 0 <= i < |t| && t[i] == x;
      assert (s + t)[|s| + i] == x;
    }
  }

  lemma FrontIsLast(front: Items, popped: Items)
    requires front != [] && HeapFront(front) && Distinct(popped) && Permuted(front, popped)
    requires popped[|popped| - 1] == front[0]
    ensures forall i :: 0 <= i < |popped| - 1 ==> Less(popped[i], front[0])
  {
    forall i | 0 <= i < |popped| - 1
      ensures Less(popped[i], front[0])
    {
      assert popped[i] in Elements(popped);
      var k :| 0 <= k < |front| && front[k] == popped[i];
      LessTotal(popped[i], front[0]);
    }
  }

  // ---------------------------------------------------- building the profile

  type Counts = map<string, nat>

  function Item(counts: Counts, ngram: string): NGramFreq
    requires ngram in counts
  {
    NGramFreq(ngram, counts[ngram])
  }

  ghost function AllItems(counts: Counts): set<NGramFreq> {
    set t | t in counts :: Item(counts, t)
  }

  /** `all` are the items of the n-grams `keys`, in n-gram order. */
  ghost predicate Listing(counts: Counts, keys: seq<string>, all: Items) {
    && Sorted(keys) && |all| == |keys|
    && forall i :: 0 <= i < |keys| ==> keys[i] in counts && all[i] == Item(counts, keys[i])
  }

  lemma ListingDistinct(counts: Counts, keys: seq<string>, all: Items)
    requires Listing(counts, keys, all)
    ensures Distinct(all)
  {
    forall i, j | 0 <= i < j < |all|
      ensures all[i] != all[j]
    {
      BeforeTotal(keys[i], keys[j]);
      assert Before(keys[i], keys[j]);
      BeforeTotal(keys[j], keys[j]);
    }
  }

  lemma ListingElements(counts: Counts, keys: seq<string>, all: Items)
    requires Listing(counts, keys, all) && forall t :: t in keys <==> t in counts.Keys
    ensures Elements(all) == AllItems(counts)
  {
    forall x | x in AllItems(counts)
      ensures x in Elements(all)
    {
      var i :| 0 <= i < |keys| && keys[i] == x.ngram;
      assert all[i] == x;
    }
  }

  lemma {:induction false} DistinctSize(s: Items)
    requires Distinct(s)
    ensures |Elements(s)| == |s|
  {
    if s != [] {
      var n := |s| - 1;
      DistinctSize(s[..n]);
      assert s[n] !in Elements(s[..n]);
      forall x
        ensures x in Elements(s) <==> x in Elements(s[..n]) + {s[n]}
      {
        ElementsLast(s, x);
      }
      assert Elements(s) == Elements(s[..n]) + {s[n]};
    }
  }

  lemma HeapFrontIsLast(heap: Items)
    requires heap != [] && HeapFront(heap) && Distinct(heap)
    ensures IsLast(Elements(heap), heap[0])
  {
    assert heap[0] in Elements(heap);
    forall x | x in Elements(heap) && x != heap[0]
      ensures Less(x, heap[0])
    {
      var i :| 0 <= i < |heap| && heap[i] == x;
      LessTotal(x, heap[0]);
    }
  }

  lemma AllSelected(items: Items, k: nat)
    requires Distinct(items) && |items| <= k
    ensures Selected(Elements(items), Elements(items), k)
  {
    DistinctSize(items);
  }

  /** The next n-gram in order, compared with the worst item held. */
  lemma NextItem(counts: Counts, keys: seq<string>, all: Items, n: nat, worst: NGramFreq)
    requires Listing(counts, keys, all) && n < |all| && worst in Elements(all[..n])
    ensures Elements(all[..n + 1]) == Elements(all[..n]) + {all[n]} && all[n] !in Elements(all[..n])
    ensures if all[n].freq > worst.freq then Less(all[n], worst) else Less(worst, all[n])
  {
    var i :| 0 <= i < n && all[..n][i] == worst;
    assert Before(keys[i], keys[n]);
    ListingDistinct(counts, keys, all);
    assert all[..n + 1][..n] == all[..n];
    forall x
      ensures x in Elements(all[..n + 1]) <==> x in Elements(all[..n]) + {all[n]}
    {
      ElementsLast(all[..n + 1], x);
    }
  }

  /** Adds an item to the heap and takes the worst one out. */
  method Replace(heap: Items, x: NGramFreq) returns (next: Items)
    requires heap != [] && HeapFront(heap) && Distinct(heap) && x !in Elements(heap)
    requires Less(x, heap[0])
    ensures HeapFront(next) && Distinct(next) && |next| == |heap|
    ensures Elements(next) == Elements(heap) + {x} - {heap[0]}
  {
    var pushed := heap + [x];
    assert pushed[..|heap|] == heap;
    forall i | 0 <= i < |heap|
      ensures pushed[i] != x
    {
      assert heap[i] in Elements(heap);
    }
    var both := PushHeap(pushed);
    HeapFrontIsLast(heap);
    HeapFrontIsLast(both);
    forall y
      ensures y in Elements(both) <==> y in Elements(heap) + {x}
    {
      ElementsLast(pushed, y);
    }
    assert heap[0] in Elements(both);
    LessTotal(both[0], heap[0]);
    LessTotal(both[0], x);
    var popped := PopHeap(both);
    next := popped[..|heap|];
    forall y
      ensures y in Elements(next) <==> y in Elements(heap) + {x} - {heap[0]}
    {
      ElementsLast(popped, y);
    }
  }

  datatype SortedProfile = SortedProfile(maxNgrams: nat, ngrams: seq<string>)

  ghost function Names(items: Items): (names: seq<string>)
    ensures |names| == |items|
    ensures forall i :: 0 <= i < |items| ==> names[i] == items[i].ngram
  {
    seq(|items|, i requires 0 <= i < |items| => items[i].ngram)
  }

  /** The n-grams a profile of at most `k` keeps: the beginning of the full sort. */
  ghost function MostFrequent(counts: Counts, k: nat): seq<string> {
    var all := FullSort(AllItems(counts));
    Names(if |all| < k then all else all[..k])
  }

  /** The selected items, sorted, are the most frequent ones. */
  lemma SelectionSorted(counts: Counts, keys: seq<string>, all: Items, sorted: Items, k: nat)
    requires Listing(counts, keys, all) && forall t :: t in keys <==> t in counts.Keys
    requires Ordered(sorted) && Distinct(sorted) && Selected(Elements(sorted), Elements(all), k)
    ensures Names(sorted) == MostFrequent(counts, k)
  {
    ListingElements(counts, keys, all);
    DistinctSize(sorted);
    assert Leads(sorted, Elements(all), k);
    LeadsIsPrefix(sorted, Elements(all), k);
    var full := FullSort(AllItems(counts));
    assert sorted == if |full| < k then full else full[..k];
  }

  method Fill(counts: Counts, keys: seq<string>, maxNgrams: nat, ghost all: Items) returns (items: Items)
    requires Listing(counts, keys, all)
    ensures |items| <= |keys| && items == all[..|items|]
    ensures |items| == (if |keys| < maxNgrams then |keys| else maxNgrams)
    ensures Distinct(items)
  {
    ListingDistinct(counts, keys, all);
    items := [];
    while |items| < maxNgrams && |items| < |keys|
      invariant |items| <= |keys| && |items| <= maxNgrams && items == all[..|items|]
    {
      items := items + [Item(counts, keys[|items|])];
    }
  }

  lemma HeldIsSeen(held: set<NGramFreq>, seen: set<NGramFreq>, k: nat, worst: NGramFreq)
    requires Selected(held, seen, k) && IsLast(held, worst)
    ensures held <= seen && worst in held
  {
  }

  method Select(counts: Counts, keys: seq<string>, start: Items, ghost all: Items) returns (items: Items)
    requires Listing(counts, keys, all) && 0 < |start| <= |all|
    requires HeapFront(start) && Distinct(start) && Elements(start) == Elements(all[..|start|])
    ensures HeapFront(items) && Distinct(items) && |items| == |start|
    ensures Selected(Elements(items), Elements(all), |start|)
  {
    hide Selected, IsLast, Distinct, HeapFront, Less, Elements, Sorted;
    items := start;
    AllSelected(start, |start|);
    var minFreq := items[0].freq;
    for n := |start| to |keys|
      invariant HeapFront(items) && Distinct(items) && |items| == |start| && minFreq == items[0].freq
      invariant Selected(Elements(items), Elements(all[..n]), |start|)
    {
      HeapFrontIsLast(items);
      DistinctSize(items);
      HeldIsSeen(Elements(items), Elements(all[..n]), |start|, items[0]);
      NextItem(counts, keys, all, n, items[0]);
      if counts[keys[n]] > minFreq {
        SelectBetter(Elements(items), Elements(all[..n]), |start|, items[0], all[n]);
        items := Replace(items, Item(counts, keys[n]));
        minFreq := items[0].freq;
      } else {
        SelectWorse(Elements(items), Elements(all[..n]), |start|, items[0], all[n]);
      }
    }
    assert all[..|keys|] == all;
  }

  lemma {:induction false} ItemsSize(counts: Counts, keys: set<string>)
    requires keys <= counts.Keys
    ensures |set t | t in keys :: Item(counts, t)| == |keys|
    decreases |keys|
  {
    if keys != {} {
      var u :| u in keys;
      var rest := keys - {u};
      ItemsSize(counts, rest);
      var items := set t | t in rest :: Item(counts, t);
      assert (set t | t in keys :: Item(counts, t)) == items + {Item(counts, u)};
      assert Item(counts, u) !in items;
    }
  }

  /** The one n-gram goes before the other in a profile. */
  ghost predicate Outranks(counts: Counts, t: string, u: string)
    requires t in counts && u in counts
  {
    counts[t] > counts[u] || (counts[t] == counts[u] && Before(t, u))
  }

  /** The most frequent n-grams, by their counts. */
  lemma MostFrequentAre(counts: Counts, k: nat)
    ensures var ngrams := MostFrequent(counts, k);
      && |ngrams| == (if |counts| < k then |counts| else k)
      && (forall i :: 0 <= i < |ngrams| ==> ngrams[i] in counts)
      && (forall i, j :: 0 <= i < j < |ngrams| ==> ngrams[i] != ngrams[j] && Outranks(counts, ngrams[i], ngrams[j]))
      && (forall i, t :: 0 <= i < |ngrams| && t in counts && t !in ngrams ==> Outranks(counts, ngrams[i], t))
  {
    hide FullSort, AllItems, MostFrequent, Before, ListsCounts, Outranks;
    var full, ngrams := FullSort(AllItems(counts)), MostFrequent(counts, k);
    FullSortIsOf(counts);
    MostFrequentNames(counts, k);
    forall i | 0 <= i < |ngrams|
      ensures ngrams[i] in counts
    {
      ListedCounts(counts, full, i);
    }
    forall i, j | 0 <= i < j < |full|
      ensures full[i].ngram in counts && full[j].ngram in counts && full[i].ngram != full[j].ngram
      ensures Outranks(counts, full[i].ngram, full[j].ngram)
    {
      InOrder(counts, full, i, j);
    }
    forall i, t | 0 <= i < |ngrams| && t in counts && t !in ngrams
      ensures Outranks(counts, ngrams[i], t)
    {
      var m := PlaceOf(counts, full, t);
      assert forall n :: 0 <= n < |ngrams| ==> full[n].ngram != t;
    }
  }

  /** The items are those of all n-grams, in order. */
  ghost predicate ListsCounts(counts: Counts, full: Items) {
    && Ordered(full)
    && (forall i :: 0 <= i < |full| ==> full[i].ngram in counts && counts[full[i].ngram] == full[i].freq)
    && (forall t :: t in counts ==> exists m :: 0 <= m < |full| && full[m] == NGramFreq(t, counts[t]))
  }

  lemma ListedCounts(counts: Counts, full: Items, i: nat)
    requires ListsCounts(counts, full) && i < |full|
    ensures full[i].ngram in counts
  {
  }

  lemma InOrder(counts: Counts, full: Items, i: nat, j: nat)
    requires ListsCounts(counts, full) && i < j < |full|
    ensures full[i].ngram in counts && full[j].ngram in counts && full[i].ngram != full[j].ngram
    ensures Outranks(counts, full[i].ngram, full[j].ngram)
  {
    assert Less(full[i], full[j]);
    LessTotal(full[i], full[i]);
  }

  lemma PlaceOf(counts: Counts, full: Items, t: string) returns (m: nat)
    requires ListsCounts(counts, full) && t in counts
    ensures m < |full| && full[m].ngram == t
  {
    m :| m < |full| && full[m] == NGramFreq(t, counts[t]);
  }

  lemma MostFrequentNames(counts: Counts, k: nat)
    ensures var full, ngrams := FullSort(AllItems(counts)), MostFrequent(counts, k);
      && |ngrams| == (if |full| < k then |full| else k) <= |full|
      && forall n :: 0 <= n < |ngrams| ==> ngrams[n] == full[n].ngram
  {
  }

  /** The full sort lists every n-gram with its count. */
  lemma FullSortIsOf(counts: Counts)
    ensures var full := FullSort(AllItems(counts));
      |full| == |counts| && ListsCounts(counts, full)
  {
    var full := FullSort(AllItems(counts));
    FullSortIsSort(AllItems(counts));
    FullSortLength(AllItems(counts));
    ItemsSize(counts, counts.Keys);
    assert AllItems(counts) == set t | t in counts.Keys :: Item(counts, t);
    hide FullSort, Ordered;
    forall i | 0 <= i < |full|
      ensures full[i].ngram in counts && counts[full[i].ngram] == full[i].freq
    {
      assert full[i] in Elements(full);
    }
    forall t | t in counts
      ensures exists m :: 0 <= m < |full| && full[m] == NGramFreq(t, counts[t])
    {
      assert Item(counts, t) in Elements(full);
    }
  }

  /** Keeps the most frequent n-grams, most frequent first. */
  method Build(counts: Counts, maxNgrams: nat) returns (profile: SortedProfile)
    ensures var ngrams := profile.ngrams;
      && |ngrams| == (if |counts| < maxNgrams then |counts| else maxNgrams)
      && (forall i :: 0 <= i < |ngrams| ==> ngrams[i] in counts)
      && (forall i, j :: 0 <= i < j < |ngrams| ==> ngrams[i] != ngrams[j] && Outranks(counts, ngrams[i], ngrams[j]))
      && (forall i, t :: 0 <= i < |ngrams| && t in counts && t !in ngrams ==> Outranks(counts, ngrams[i], t))
    ensures profile == SortedProfile(maxNgrams, MostFrequent(counts, maxNgrams))
  {
    hide MostFrequent, Outranks;
    MostFrequentAre(counts, maxNgrams);
    var ngrams := Kept(counts, maxNgrams);
    profile := SortedProfile(maxNgrams, ngrams);
  }

  method Kept(counts: Counts, maxNgrams: nat) returns (ngrams: seq<string>)
    ensures ngrams == MostFrequent(counts, maxNgrams)
  {
    hide FullSort, MostFrequent, Less, Distinct, HeapFront, Selected, Ordered, Elements, Sorted;
    var keys := Listed(counts.Keys);
    ghost var all: Items := seq(|keys|, i requires 0 <= i < |keys| && keys[i] in counts => Item(counts, keys[i]));
    ListingDistinct(counts, keys, all);
    var items := Fill(counts, keys, maxNgrams, all);
    if items == [] {
      NothingKept(counts, keys, all, maxNgrams);
      return [];
    }
    var heap := MakeHeap(items);
    heap := Select(counts, keys, heap, all);
    items := SortHeap(heap);
    SelectionShorter(Elements(items), all, |items|, maxNgrams);
    SelectionSorted(counts, keys, all, items, maxNgrams);
    ngrams := [];
    for i := 0 to |items|
      invariant |ngrams| == i && forall j :: 0 <= j < i ==> ngrams[j] == items[j].ngram
    {
      ngrams := ngrams + [items[i].ngram];
    }
  }

  lemma NothingKept(counts: Counts, keys: seq<string>, all: Items, k: nat)
    requires Listing(counts, keys, all) && forall t :: t in keys <==> t in counts.Keys
    requires k == 0 || keys == []
    ensures MostFrequent(counts, k) == []
  {
    ListingElements(counts, keys, all);
  }

  lemma SelectionShorter(held: set<NGramFreq>, all: Items, n: nat, k: nat)
    requires Distinct(all) && Selected(held, Elements(all), n) && n == (if |all| < k then |all| else k)
    ensures Selected(held, Elements(all), k)
  {
    DistinctSize(all);
  }

  // ------------------------------------- positions, and the n-grams from them

  datatype Profile = Profile(maxNgrams: nat, positions: map<string, nat>)

  predicate NoRepeats(ngrams: seq<string>) {
    forall i, j :: 0 <= i < j < |ngrams| ==> ngrams[i] != ngrams[j]
  }

  predicate InRange(positions: map<string, nat>) {
    forall t :: t in positions ==> positions[t] < |positions|
  }

  /** Distinct n-grams stand at distinct positions below their number. */
  ghost predicate Numbered(positions: map<string, nat>) {
    && InRange(positions)
    && (forall t, u :: t in positions && u in positions && positions[t] == positions[u] ==> t == u)
  }

  /** `positions` says where each n-gram stands; for a repeated one, its last place. */
  ghost predicate PositionsOf(ngrams: seq<string>, positions: map<string, nat>) {
    && (forall t :: t in positions <==> t in ngrams)
    && (forall t :: t in positions ==> positions[t] < |ngrams| && ngrams[positions[t]] == t)
    && (forall t, i :: t in positions && positions[t] < i < |ngrams| ==> ngrams[i] != t)
  }

  method InitFromSorted(sorted: SortedProfile) returns (profile: Profile)
    ensures profile.maxNgrams == sorted.maxNgrams && PositionsOf(sorted.ngrams, profile.positions)
  {
    var positions: map<string, nat> := map[];
    for i := 0 to |sorted.ngrams|
      invariant PositionsOf(sorted.ngrams[..i], positions)
    {
      assert sorted.ngrams[..i + 1] == sorted.ngrams[..i] + [sorted.ngrams[i]];
      positions := positions[sorted.ngrams[i] := i];
    }
    assert sorted.ngrams[..|sorted.ngrams|] == sorted.ngrams;
    profile := Profile(sorted.maxNgrams, positions);
  }

  /** Each slot of `ngrams` holds an n-gram that stands there; nothing, if none does. */
  ghost predicate NGramsOf(positions: map<string, nat>, ngrams: seq<string>) {
    && |ngrams| == |positions|
    && (forall t :: t in positions && positions[t] < |ngrams| ==>
          ngrams[positions[t]] in positions && positions[ngrams[positions[t]]] == positions[t])
    && (forall i :: 0 <= i < |ngrams| && i !in positions.Values ==> ngrams[i] == "")
  }

  /** The slots filled by the n-grams `seen`. */
  ghost predicate FilledBy(positions: map<string, nat>, seen: seq<string>, ngrams: seq<string>) {
    && |ngrams| == |positions|
    && (forall t :: t in seen && t in positions && positions[t] < |ngrams| ==>
          ngrams[positions[t]] in positions && positions[ngrams[positions[t]]] == positions[t])
    && (forall i :: 0 <= i < |ngrams| && i !in positions.Values ==> ngrams[i] == "")
  }

  lemma NothingFilled(positions: map<string, nat>, ngrams: seq<string>)
    requires |ngrams| == |positions| && forall i :: 0 <= i < |ngrams| ==> ngrams[i] == ""
    ensures FilledBy(positions, [], ngrams)
  {
  }

  lemma FillOne(positions: map<string, nat>, seen: seq<string>, ngrams: seq<string>, t: string)
    requires FilledBy(positions, seen, ngrams) && t in positions && positions[t] < |ngrams|
    ensures FilledBy(positions, seen + [t], ngrams[positions[t] := t])
  {
    assert positions[t] in positions.Values;
  }

  lemma AllFilled(positions: map<string, nat>, keys: seq<string>, ngrams: seq<string>)
    requires FilledBy(positions, keys, ngrams) && forall t :: t in keys <==> t in positions.Keys
    ensures NGramsOf(positions, ngrams)
  {
  }

  method InitFromNGram(profile: Profile) returns (sorted: SortedProfile)
    requires InRange(profile.positions)
    ensures sorted.maxNgrams == profile.maxNgrams && NGramsOf(profile.positions, sorted.ngrams)
  {
    hide FilledBy, Sorted;
    var positions := profile.positions;
    var ngrams := seq(|positions|, _ => "");
    var keys := Listed(positions.Keys);
    NothingFilled(positions, ngrams);
    for i := 0 to |keys|
      invariant |ngrams| == |positions| && FilledBy(positions, keys[..i], ngrams)
    {
      assert keys[..i + 1] == keys[..i] + [keys[i]];
      FillOne(positions, keys[..i], ngrams, keys[i]);
      ngrams := ngrams[positions[keys[i]] := keys[i]];
    }
    assert keys[..|keys|] == keys;
    AllFilled(positions, keys, ngrams);
    sorted := SortedProfile(profile.maxNgrams, ngrams);
  }

  lemma {:induction false} NamesSize(ngrams: seq<string>)
    ensures |set t | t in ngrams| <= |ngrams|
    ensures NoRepeats(ngrams) ==> |set t | t in ngrams| == |ngrams|
    ensures !NoRepeats(ngrams) ==> |set t | t in ngrams| < |ngrams|
  {
    if ngrams != [] {
      var n := |ngrams| - 1;
      var before := ngrams[..n];
      NamesSize(before);
      assert ngrams == before + [ngrams[n]];
      assert (set t | t in ngrams) == (set t | t in before) + {ngrams[n]};
      assert NoRepeats(ngrams) <==> NoRepeats(before) && ngrams[n] !in before;
      if ngrams[n] in before {
        assert (set t | t in ngrams) == (set t | t in before);
      }
    }
  }

  /** The positions leave the size of the map exactly when an n-gram is repeated. */
  lemma PositionsFit(ngrams: seq<string>, positions: map<string, nat>)
    requires PositionsOf(ngrams, positions)
    ensures InRange(positions) <==> NoRepeats(ngrams)
  {
    NamesSize(ngrams);
    assert positions.Keys == set t | t in ngrams;
    if ngrams != [] {
      assert ngrams[|ngrams| - 1] in positions;
    }
  }

  /** The n-grams read back from their positions are the same list. */
  lemma SortedRoundTrip(ngrams: seq<string>, positions: map<string, nat>, back: seq<string>)
    requires PositionsOf(ngrams, positions) && NoRepeats(ngrams) && NGramsOf(positions, back)
    ensures back == ngrams
  {
    NamesSize(ngrams);
    assert positions.Keys == set t | t in ngrams;
    forall i | 0 <= i < |ngrams|
      ensures back[i] == ngrams[i]
    {
      assert ngrams[i] in positions;
    }
  }

  lemma {:induction false} ImageSize(positions: map<string, nat>, keys: set<string>)
    requires Numbered(positions) && keys <= positions.Keys
    ensures |set t | t in keys :: positions[t]| == |keys|
    decreases |keys|
  {
    if keys != {} {
      var u :| u in keys;
      var rest := keys - {u};
      ImageSize(positions, rest);
      var image := set t | t in rest :: positions[t];
      assert (set t | t in keys :: positions[t]) == image + {positions[u]};
      assert positions[u] !in image;
    }
  }

  ghost function Below(n: nat): (slots: set<nat>)
    ensures |slots| == n && forall i: nat :: i in slots <==> i < n
  {
    if n == 0 then {} else Below(n - 1) + {n - 1}
  }

  lemma SameSize(s: set<nat>, t: set<nat>)
    requires s <= t && |s| == |t|
    ensures s == t
  {
    assert t == s + (t - s);
    assert |t| == |s| + |t - s|;
  }

  /** Distinct positions below the size leave no slot empty. */
  lemma EverySlotTaken(positions: map<string, nat>, i: nat)
    requires Numbered(positions) && i < |positions|
    ensures exists t :: t in positions && positions[t] == i
  {
    ImageSize(positions, positions.Keys);
    var image := set t | t in positions.Keys :: positions[t];
    SameSize(image, Below(|positions|));
    assert i in image;
  }

  /** The positions of the list made from a numbered profile are the profile's. */
  lemma NumberedRoundTrip(positions: map<string, nat>, ngrams: seq<string>, back: map<string, nat>)
    requires Numbered(positions) && NGramsOf(positions, ngrams) && PositionsOf(ngrams, back)
    ensures back == positions
  {
    forall i | 0 <= i < |ngrams|
      ensures ngrams[i] in positions && positions[ngrams[i]] == i
    {
      EverySlotTaken(positions, i);
      var t :| t in positions && positions[t] == i;
    }
    hide NGramsOf;
    SamePositions(positions, ngrams, back);
  }

  lemma SamePositions(positions: map<string, nat>, ngrams: seq<string>, back: map<string, nat>)
    requires forall t :: t in positions ==> positions[t] < |ngrams| && ngrams[positions[t]] == t
    requires forall i :: 0 <= i < |ngrams| ==> ngrams[i] in positions && positions[ngrams[i]] == i
    requires PositionsOf(ngrams, back)
    ensures back == positions
  {
    assert forall t :: t in back <==> t in positions;
  }

  lemma {:induction false} FullSortIsSort(s: set<NGramFreq>)
    ensures Ordered(FullSort(s)) && Elements(FullSort(s)) == s
    decreases |s|
  {
    if s != {} {
      var m := First(s);
      var rest := FullSort(s - {m});
      FullSortIsSort(s - {m});
      assert forall i :: 0 <= i < |rest| ==> rest[i] in Elements(rest);
      forall x
        ensures x in Elements([m] + rest) <==> x in s
      {
        ElementsConcat([m], rest, x);
        assert x in Elements([m]) <==> x == m by {
          assert [m][0] == m;
        }
      }
    }
  }

  /** A built profile repeats no n-gram, so its positions number it exactly. */
  lemma BuiltProfileNumbered(counts: Counts, k: nat, positions: map<string, nat>)
    requires PositionsOf(MostFrequent(counts, k), positions)
    ensures NoRepeats(MostFrequent(counts, k)) && Numbered(positions)
  {
    var full := FullSort(AllItems(counts));
    FullSortIsSort(AllItems(counts));
    forall i, j | 0 <= i < j < |full|
      ensures full[i].ngram != full[j].ngram
    {
      assert full[i] in Elements(full) && full[j] in Elements(full);
      LessTotal(full[i], full[j]);
      LessTotal(full[j], full[j]);
    }
    var ngrams := MostFrequent(counts, k);
    assert NoRepeats(ngrams);
    PositionsFit(ngrams, positions);
  }
}
