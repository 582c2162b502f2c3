/** All orderings of a list, by inserting its first item everywhere in every ordering of the rest. */
module Permutations {
  import opened Collections

  function InsertAt<T>(s: seq<T>, i: nat, item: T): seq<T>
    requires i <= |s|
  {
    s[..i] + [item] + s[i..]
  }

  /** The insertions at the first n places. */
  function Insertions<T>(s: seq<T>, item: T, n: nat): (r: seq<seq<T>>)
    requires n <= |s| + 1
    ensures |r| == n && forall i :: 0 <= i < n ==> r[i] == InsertAt(s, i, item)
  {
    if n == 0 then [] else Insertions(s, item, n - 1) + [InsertAt(s, n - 1, item)]
  }

  /** Into every list of subs, at each of its places. */
  function InsertIntoAll<T>(subs: seq<seq<T>>, item: T): seq<seq<T>> {
    if subs == [] then []
    else
      var last := subs[|subs| - 1];
      InsertIntoAll(subs[..|subs| - 1], item) + Insertions(last, item, |last| + 1)
  }

  function Orderings<T>(items: seq<T>): seq<seq<T>> {
    if |items| <= 1 then [items] else InsertIntoAll(Orderings(items[1..]), items[0])
  }

  method Permutations<T>(inputList: seq<T>) returns (outLists: seq<seq<T>>)
    ensures outLists == Orderings(inputList)
    decreases |inputList|
  {
    hide InsertIntoAll;
    outLists := [];
    if |inputList| > 1 {
      var item := inputList[0];
      var subLists := Permutations(inputList[1..]);
      InsertIntoNone(item);
      for k := 0 to |subLists|
        invariant outLists == InsertIntoAll(subLists[..k], item)
      {
        OrderingLength(inputList[1..], k);
        InsertIntoOneMore(subLists, k, item);
        outLists := InsertEverywhere(subLists[k], item, |inputList|, outLists);
      }
      assert subLists[..|subLists|] == subLists;
    } else {
      outLists := [inputList];
    }
  }

  /** The inner loop over the places of one list. */
  method InsertEverywhere<T>(subList: seq<T>, item: T, places: nat, before: seq<seq<T>>)
    returns (outLists: seq<seq<T>>)
    requires places == |subList| + 1
    ensures outLists == before + Insertions(subList, item, places)
  {
    outLists := before;
    for i := 0 to places
      invariant outLists == before + Insertions(subList, item, i)
    {
      outLists := outLists + [InsertAt(subList, i, item)];
    }
  }

  lemma InsertIntoNone<T>(item: T)
    ensures InsertIntoAll([], item) == []
  {
  }

  lemma InsertIntoOneMore<T>(subs: seq<seq<T>>, k: nat, item: T)
    requires k < |subs|
    ensures InsertIntoAll(subs[..k + 1], item)
         == InsertIntoAll(subs[..k], item) + Insertions(subs[k], item, |subs[k]| + 1)
  {
    assert subs[..k + 1][..k] == subs[..k];
  }

  lemma InInsertIntoAll<T>(subs: seq<seq<T>>, item: T, p: seq<T>)
    ensures p in InsertIntoAll(subs, item) <==>
      exists k, i :: 0 <= k < |subs| && 0 <= i <= |subs[k]| && p == InsertAt(subs[k], i, item)
  {
  }

  lemma InsertAtItems<T>(s: seq<T>, i: nat, item: T)
    requires i <= |s|
    ensures multiset(InsertAt(s, i, item)) == multiset(s) + multiset{item}
  {
    SplitItems(s, i);
  }

  lemma SplitItems<T>(s: seq<T>, i: nat)
    requires i <= |s|
    ensures multiset(s) == multiset(s[..i]) + multiset(s[i..])
  {
    assert s == s[..i] + s[i..];
  }

  /** Every listed ordering is a rearrangement of the items. */
  lemma {:induction false} OrderingsSound<T>(items: seq<T>, p: seq<T>)
    requires p in Orderings(items)
    ensures multiset(p) == multiset(items)
    decreases |items|
  {
    hide InsertAt, InsertIntoAll;
    if 1 < |items| {
      var subs := Orderings(items[1..]);
      InInsertIntoAll(subs, items[0], p);
      var k, i :| 0 <= k < |subs| && 0 <= i <= |subs[k]| && p == InsertAt(subs[k], i, items[0]);
      OrderingsSound(items[1..], subs[k]);
      InsertAtItems(subs[k], i, items[0]);
      FirstItem(items);
    }
  }

  lemma OrderingLength<T>(items: seq<T>, k: nat)
    requires k < |Orderings(items)|
    ensures |Orderings(items)[k]| == |items|
  {
    OrderingsSound(items, Orderings(items)[k]);
    assert |multiset(Orderings(items)[k])| == |multiset(items)|;
  }

  /** A rearrangement arises by inserting the first item into a rearrangement of the rest. */
  lemma TakeOutFirst<T>(items: seq<T>, p: seq<T>) returns (q: seq<T>, i: nat)
    requires items != [] && multiset(p) == multiset(items)
    ensures i <= |q| && p == InsertAt(q, i, items[0]) && multiset(q) == multiset(items[1..])
  {
    hide InsertAt;
    var item := items[0];
    FirstItem(items);
    assert item in multiset(p);
    i :| 0 <= i < |p| && p[i] == item;
    q := p[..i] + p[i + 1..];
    PutBack(p, i);
    InsertAtItems(q, i, item);
    CancelOne(multiset(q), multiset(items[1..]), item);
  }

  lemma PutBack<T>(p: seq<T>, i: nat)
    requires i < |p|
    ensures InsertAt(p[..i] + p[i + 1..], i, p[i]) == p
  {
  }

  lemma FirstItem<T>(items: seq<T>)
    requires items != []
    ensures multiset(items) == multiset(items[1..]) + multiset{items[0]}
  {
    PutBack(items, 0);
    assert items[..0] + items[1..] == items[1..];
    InsertAtItems(items[1..], 0, items[0]);
  }

  lemma CancelOne<T>(a: multiset<T>, b: multiset<T>, x: T)
    requires a + multiset{x} == b + multiset{x}
    ensures a == b
  {
    forall y ensures a[y] == b[y] {
      assert (a + multiset{x})[y] == (b + multiset{x})[y];
    }
  }

  /** Every rearrangement of the items is listed. */
  lemma {:induction false} OrderingsComplete<T>(items: seq<T>, p: seq<T>)
    requires multiset(p) == multiset(items)
    ensures p in Orderings(items)
    decreases |items|
  {
    hide InsertAt, InsertIntoAll;
    assert |multiset(p)| == |multiset(items)|;
    if items != [] {
      var q, i := TakeOutFirst(items, p);
      if |items| == 1 {
        assert |multiset(q)| == 0;
        assert p == items;
      } else {
        OrderingsComplete(items[1..], q);
        var subs := Orderings(items[1..]);
        var k :| 0 <= k < |subs| && subs[k] == q;
        InInsertIntoAll(subs, items[0], p);
      }
    }
  }

  function Factorial(n: nat): nat {
    if n == 0 then 1 else n * Factorial(n - 1)
  }

  lemma {:induction false} InsertIntoAllSize<T>(subs: seq<seq<T>>, item: T, n: nat)
    requires forall k :: 0 <= k < |subs| ==> |subs[k]| == n
    ensures |InsertIntoAll(subs, item)| == |subs| * (n + 1)
  {
    hide InsertAt;
    if subs != [] {
      InsertIntoAllSize(subs[..|subs| - 1], item, n);
      assert |InsertIntoAll(subs, item)| == (|subs| - 1) * (n + 1) + (n + 1);
    }
  }

  /** There are as many as the factorial says, repeated items or not. */
  lemma {:induction false} OrderingsCount<T>(items: seq<T>)
    ensures |Orderings(items)| == Factorial(|items|)
    decreases |items|
  {
    if 1 < |items| {
      var subs := Orderings(items[1..]);
      OrderingsCount(items[1..]);
      forall k | 0 <= k < |subs| ensures |subs[k]| == |items| - 1 {
        OrderingLength(items[1..], k);
      }
      InsertIntoAllSize(subs, items[0], |items| - 1);
    } else {
      assert Factorial(1) == 1;
    }
  }

  /** Where a new item was inserted, and into what, can be told from the result. */
  lemma InsertAtInjective<T>(s: seq<T>, t: seq<T>, i: nat, j: nat, item: T)
    requires i <= |s| && j <= |t| && item !in s && item !in t
    requires InsertAt(s, i, item) == InsertAt(t, j, item)
    ensures s == t && i == j
  {
    var p := InsertAt(s, i, item);
    assert p[i] == item;
    assert forall k :: 0 <= k < |p| && k != j ==> p[k] == t[if k < j then k else k - 1];
    assert i == j;
    assert p[..i] == s[..i] && p[i + 1..] == s[i..];
    assert p[..j] == t[..j] && p[j + 1..] == t[j..];
    assert s == s[..i] + s[i..] && t == t[..j] + t[j..];
  }

  lemma {:induction false} InsertIntoAllNoDup<T>(subs: seq<seq<T>>, item: T)
    requires NoDup(subs) && forall k :: 0 <= k < |subs| ==> item !in subs[k]
    ensures NoDup(InsertIntoAll(subs, item))
  {
    if subs != [] {
      var front, last := subs[..|subs| - 1], subs[|subs| - 1];
      var before, ins := InsertIntoAll(front, item), Insertions(last, item, |last| + 1);
      InsertIntoAllNoDup(front, item);
      forall i, j | 0 <= i < j < |ins| ensures ins[i] != ins[j] {
        if ins[i] == ins[j] {
          InsertAtInjective(last, last, i, j, item);
        }
      }
      forall p | p in before ensures p !in ins {
        InInsertIntoAll(front, item, p);
        var k, i :| 0 <= k < |front| && 0 <= i <= |front[k]| && p == InsertAt(front[k], i, item);
        assert front[k] == subs[k] && subs[k] != last;
        forall j | 0 <= j < |ins| ensures ins[j] != p {
          if ins[j] == p {
            InsertAtInjective(front[k], last, i, j, item);
          }
        }
      }
      NoDupAppend(before, ins);
    }
  }

  /** Distinct items give pairwise distinct orderings. */
  lemma {:induction false} OrderingsDistinct<T>(items: seq<T>)
    requires NoDup(items)
    ensures NoDup(Orderings(items))
    decreases |items|
  {
    if 1 < |items| {
      var subs := Orderings(items[1..]);
      OrderingsDistinct(items[1..]);
      forall k | 0 <= k < |subs| ensures items[0] !in subs[k] {
        OrderingsSound(items[1..], subs[k]);
        assert items[0] !in items[1..];
        assert items[0] !in multiset(subs[k]);
      }
      InsertIntoAllNoDup(subs, items[0]);
    }
  }

  lemma {:induction false} InsertedAt<T>(subs: seq<seq<T>>, item: T, n: nat, k: nat, i: nat)
    requires (forall j :: 0 <= j < |subs| ==> |subs[j]| == n) && k < |subs| && i <= n
    ensures k * (n + 1) + i < |InsertIntoAll(subs, item)|
    ensures InsertIntoAll(subs, item)[k * (n + 1) + i] == subs[k][..i] + [item] + subs[k][i..]
  {
    var front := subs[..|subs| - 1];
    InsertIntoAllSize(front, item, n);
    if k < |front| {
      InsertedAt(front, item, n, k, i);
    }
  }

  /** The order of the listing: the first item goes through all places of one ordering of the rest after another. */
  lemma OrderingAt<T>(items: seq<T>, k: nat, i: nat)
    requires 1 < |items| && k < |Orderings(items[1..])| && i < |items|
    ensures var rest, n := Orderings(items[1..])[k], k * |items| + i;
            |rest| == |items| - 1 && n < |Orderings(items)|
            && Orderings(items)[n] == rest[..i] + [items[0]] + rest[i..]
  {
    hide InsertIntoAll;
    var subs := Orderings(items[1..]);
    forall j | 0 <= j < |subs| ensures |subs[j]| == |items| - 1 {
      OrderingLength(items[1..], j);
    }
    InsertedAt(subs, items[0], |items| - 1, k, i);
  }
}
