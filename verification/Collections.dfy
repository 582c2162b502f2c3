/** Small vocabulary shared by every part of the model. */
module Collections {

  datatype Option<+T> = None | Some(value: T)

  /** No value occurs twice. */
  ghost predicate NoDup<T>(s: seq<T>) {
    forall i, j :: 0 <= i < j < |s| ==> s[i] != s[j]
  }

  function Elems<T>(s: seq<T>): set<T> {
    set x | x in s
  }

  lemma NoDupBound<T>(s: seq<T>, bound: set<T>)
    requires NoDup(s) && Elems(s) <= bound
    ensures |s| <= |bound|
  {
    if s == [] {
    } else {
      var front, last := s[..|s| - 1], s[|s| - 1];
      assert s == front + [last];
      assert last in Elems(s);
      forall x | x in Elems(front) ensures x in bound - {last} {
        assert x in Elems(s);
      }
      NoDupBound(front, bound - {last});
    }
  }

  lemma ElemsAppend<T>(s: seq<T>, t: seq<T>)
    ensures Elems(s + t) == Elems(s) + Elems(t)
  {
  }

  lemma ElemsUpTo<T>(s: seq<T>, i: nat)
    requires i < |s|
    ensures Elems(s[..i + 1]) == Elems(s[..i]) + {s[i]}
    ensures s[i] in Elems(s) && (NoDup(s) ==> s[i] !in Elems(s[..i]))
  {
  }

  lemma NoDupAppend<T>(s: seq<T>, t: seq<T>)
    ensures NoDup(s + t) <==> NoDup(s) && NoDup(t) && Elems(s) !! Elems(t)
  {
    var st := s + t;
    if NoDup(st) {
      forall i, j | 0 <= i < |s| && 0 <= j < |t| ensures s[i] != t[j] {
        assert st[i] != st[|s| + j];
      }
      forall i, j | 0 <= i < j < |t| ensures t[i] != t[j] {
        assert st[|s| + i] != st[|s| + j];
      }
      forall i, j | 0 <= i < j < |s| ensures s[i] != s[j] {
        assert st[i] != st[j];
      }
    }
    if NoDup(s) && NoDup(t) && Elems(s) !! Elems(t) {
      forall i, j | 0 <= i < j < |st| ensures st[i] != st[j] {
        if i < |s| <= j {
          assert st[i] in Elems(s) && st[j] in Elems(t);
        }
      }
    }
  }

  lemma NoDupPush<T>(s: seq<T>, x: T)
    requires NoDup(s) && x !in s
    ensures NoDup(s + [x])
  {
  }

  /** Concatenation of a list of lists. */
  function Flatten<T>(ss: seq<seq<T>>): seq<T> {
    if ss == [] then [] else Flatten(ss[..|ss| - 1]) + ss[|ss| - 1]
  }

  lemma {:induction false} InFlatten<T>(ss: seq<seq<T>>, x: T)
    ensures x in Flatten(ss) <==> exists i :: 0 <= i < |ss| && x in ss[i]
  {
    if ss != [] {
      var front, last := ss[..|ss| - 1], ss[|ss| - 1];
      InFlatten(front, x);
      assert x in Flatten(ss) <==> x in Flatten(front) || x in last;
      assert forall i :: 0 <= i < |front| ==> ss[i] == front[i];
    }
  }

  /** The keys of a map in some order: a dictionary's own, unspecified, order. */
  method KeysInSomeOrder<K(==), V>(m: map<K, V>) returns (keys: seq<K>)
    ensures NoDup(keys)
    ensures Elems(keys) == m.Keys
  {
    keys := [];
    var rest := m.Keys;
    while rest != {}
      invariant NoDup(keys)
      invariant rest <= m.Keys && Elems(keys) == m.Keys - rest
    {
      var k :| k in rest;
      assert k !in Elems(keys);
      ElemsAppend(keys, [k]);
      keys := keys + [k];
      rest := rest - {k};
    }
  }
}
