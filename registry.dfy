/**
 * The process registry `MyProcesses` as the sequence of its entries in
 * enumeration order: lookup (`TryGetValue`), insertion where the table
 * places the key (`Add`), removal (`Remove`), and the choice of the entry a
 * stop command targets.
 */
module Registry {
  import opened Wrappers

  type Entry<V> = (int, V)

  predicate UniqueKeys<V>(es: seq<Entry<V>>)
  {
    forall i, j :: 0 <= i < j < |es| ==> es[i].0 != es[j].0
  }

  predicate HasKey<V>(es: seq<Entry<V>>, k: int)
  {
    exists i :: 0 <= i < |es| && es[i].0 == k
  }

  /** `TryGetValue`: the value of the first entry with key `k`. */
  function Find<V>(es: seq<Entry<V>>, k: int): (r: Option<V>)
    ensures r.None? <==> !HasKey(es, k)
    ensures r.Some? ==> exists i :: 0 <= i < |es| && es[i] == (k, r.value)
  {
    if es == [] then None
    else if es[0].0 == k then Some(es[0].1)
    else
      var r := Find(es[1..], k);
      assert forall i :: 1 <= i < |es| ==> es[i] == es[1..][i - 1];
      r
  }

  /** `Remove(k)`: every entry but the one with key `k`, in their order. */
  function Remove<V>(es: seq<Entry<V>>, k: int): seq<Entry<V>>
  {
    if es == [] then []
    else if es[0].0 == k then Remove(es[1..], k)
    else [es[0]] + Remove(es[1..], k)
  }

  /** Removing each key of `ks` in turn. */
  function RemoveAll<V>(es: seq<Entry<V>>, ks: seq<int>): seq<Entry<V>>
    decreases |ks|
  {
    if ks == [] then es else RemoveAll(Remove(es, ks[0]), ks[1..])
  }

  /**
   * One enumeration order of `xs`: position by position, `code` picks which
   * of the remaining elements comes next (the one at its index, or the first
   * when the index is past the end or the code has run out).
   */
  function Arrange<T>(xs: seq<T>, code: seq<nat>): (r: seq<T>)
    ensures |r| == |xs| && multiset(r) == multiset(xs)
    decreases |xs|
  {
    if xs == [] then []
    else
      var i := if code != [] && code[0] < |xs| then code[0] else 0;
      assert xs == xs[..i] + [xs[i]] + xs[i + 1..];
      [xs[i]] + Arrange(xs[..i] + xs[i + 1..], if code == [] then [] else code[1..])
  }

  /**
   * `Add(k, v)`: the new entry joins the table, and the table then
   * enumerates its entries in the order `order` picks. A resize rehashes
   * every entry, so the old entries need not keep their relative order.
   */
  function Add<V>(es: seq<Entry<V>>, e: Entry<V>, order: seq<nat>): seq<Entry<V>>
  {
    Arrange(es + [e], order)
  }

  /** The entry `Last()` enumerates. */
  function LastEntry<V>(es: seq<Entry<V>>): Entry<V>
    requires es != []
  {
    es[|es| - 1]
  }

  /** Which entry a stop command targets. */
  datatype Resolution<V> = NoEntries | Missing(pid: int) | Target(key: int, value: V)

  /**
   * `StopProcess`'s choice: nothing on an empty registry, the entry for an
   * explicit pid if there is one, otherwise the last enumerated entry.
   */
  function Resolve<V>(es: seq<Entry<V>>, pid: Option<int>): Resolution<V>
  {
    if es == [] then NoEntries
    else if pid.None? then Target(LastEntry(es).0, LastEntry(es).1)
    else match Find(es, pid.value)
      case None => Missing(pid.value)
      case Some(v) => Target(pid.value, v)
  }

  /** With unique keys, the lookup of an entry's key finds that entry's value. */
  lemma {:induction false} FindAt<V>(es: seq<Entry<V>>, i: nat)
    requires UniqueKeys(es) && i < |es|
    ensures Find(es, es[i].0) == Some(es[i].1)
  {
    if i > 0 {
      assert es[1..][i - 1] == es[i];
      FindAt(es[1..], i - 1);
    }
  }

  /** The entries left by `Remove` are the entries whose key differs. */
  lemma {:induction false} RemoveMembers<V>(es: seq<Entry<V>>, k: int)
    ensures forall e :: e in Remove(es, k) <==> e in es && e.0 != k
  {
    if es != [] {
      RemoveMembers(es[1..], k);
      assert forall e :: e in es <==> e == es[0] || e in es[1..] by { assert es == [es[0]] + es[1..]; }
    }
  }

  lemma MemberOfRemove<V>(es: seq<Entry<V>>, k: int, e: Entry<V>)
    requires e in Remove(es, k)
    ensures e in es && e.0 != k
  {
    RemoveMembers(es, k);
  }

  /** A key is present exactly when some entry holds it. */
  lemma HasKeyMember<V>(es: seq<Entry<V>>, k: int)
    ensures HasKey(es, k) <==> exists e :: e in es && e.0 == k
  {
    if HasKey(es, k) {
      var i :| 0 <= i < |es| && es[i].0 == k;
      assert es[i] in es;
    }
  }

  /** Removal keeps keys unique. */
  lemma {:induction false} RemoveUnique<V>(es: seq<Entry<V>>, k: int)
    requires UniqueKeys(es)
    ensures UniqueKeys(Remove(es, k))
  {
    if es != [] {
      RemoveUnique(es[1..], k);
      if es[0].0 != k {
        var tail := Remove(es[1..], k);
        var r := [es[0]] + tail;
        RemoveMembers(es[1..], k);
        forall j | 0 <= j < |tail| ensures tail[j].0 != es[0].0 {
          var e := tail[j];
          assert e in tail;
          MemberOfRemove(es[1..], k, e);
          var i :| 0 <= i < |es[1..]| && es[1..][i] == e;
          assert es[i + 1] == e;
        }
        forall i, j | 0 <= i < j < |r| ensures r[i].0 != r[j].0 {
          if i == 0 { assert r[j] == tail[j - 1]; } else { assert r[i] == tail[i - 1] && r[j] == tail[j - 1]; }
        }
      }
    }
  }

  /** With unique keys, `Find` gives `v` for `k` exactly when the entry `(k, v)` is present. */
  lemma FindMember<V>(es: seq<Entry<V>>, k: int, v: V)
    requires UniqueKeys(es)
    ensures Find(es, k) == Some(v) <==> (k, v) in es
  {
    if (k, v) in es {
      var i :| 0 <= i < |es| && es[i] == (k, v);
      FindAt(es, i);
    }
  }

  /** Removing an absent key changes nothing. */
  lemma {:induction false} RemoveAbsent<V>(es: seq<Entry<V>>, k: int)
    requires !HasKey(es, k)
    ensures Remove(es, k) == es
  {
    if es != [] {
      RemoveAbsent(es[1..], k);
      assert es == [es[0]] + es[1..];
    }
  }

  /** Removing a present key removes exactly one entry when keys are unique. */
  lemma {:induction false} RemovePresentLength<V>(es: seq<Entry<V>>, k: int)
    requires UniqueKeys(es) && HasKey(es, k)
    ensures |Remove(es, k)| == |es| - 1
  {
    if es[0].0 == k {
      assert !HasKey(es[1..], k) by {
        forall i | 0 <= i < |es[1..]| ensures es[1..][i].0 != k { assert es[1..][i] == es[i + 1]; }
      }
      RemoveAbsent(es[1..], k);
    } else {
      var i :| 0 <= i < |es| && es[i].0 == k;
      assert es[1..][i - 1].0 == k;
      RemovePresentLength(es[1..], k);
    }
  }

  /**
   * Removing key `k` removes exactly that key: it is then absent, every other
   * key keeps its value, no entry is added, and an absent key changes nothing.
   */
  lemma RemoveSpec<V>(es: seq<Entry<V>>, k: int)
    requires UniqueKeys(es)
    ensures UniqueKeys(Remove(es, k))
    ensures Find(Remove(es, k), k) == None
    ensures forall k' :: k' != k ==> Find(Remove(es, k), k') == Find(es, k')
    ensures forall e :: e in Remove(es, k) <==> e in es && e.0 != k
    ensures !HasKey(es, k) ==> Remove(es, k) == es
    ensures HasKey(es, k) ==> |Remove(es, k)| == |es| - 1
  {
    var r := Remove(es, k);
    RemoveMembers(es, k);
    RemoveUnique(es, k);
    HasKeyMember(r, k);
    forall k' | k' != k ensures Find(r, k') == Find(es, k') {
      var f := Find(es, k');
      if f.Some? {
        FindMember(es, k', f.value);
        FindMember(r, k', f.value);
      } else {
        HasKeyMember(es, k');
        HasKeyMember(r, k');
      }
    }
    if !HasKey(es, k) { RemoveAbsent(es, k); }
    if HasKey(es, k) { RemovePresentLength(es, k); }
  }

  /** Removing a sequence of keys: each of them is absent afterwards, every other key keeps its value. */
  lemma {:induction false} RemoveAllSpec<V>(es: seq<Entry<V>>, ks: seq<int>)
    requires UniqueKeys(es)
    decreases |ks|
    ensures UniqueKeys(RemoveAll(es, ks))
    ensures forall k :: Find(RemoveAll(es, ks), k) == if k in ks then None else Find(es, k)
  {
    if ks != [] {
      RemoveSpec(es, ks[0]);
      RemoveAllSpec(Remove(es, ks[0]), ks[1..]);
      assert forall k :: k in ks <==> k == ks[0] || k in ks[1..] by { assert ks == [ks[0]] + ks[1..]; }
    }
  }

  /** The entries left by `RemoveAll` are the entries whose key is not among those removed. */
  lemma {:induction false} RemoveAllMembers<V>(es: seq<Entry<V>>, ks: seq<int>)
    ensures forall e :: e in RemoveAll(es, ks) <==> e in es && e.0 !in ks
    decreases |ks|
  {
    if ks != [] {
      RemoveMembers(es, ks[0]);
      RemoveAllMembers(Remove(es, ks[0]), ks[1..]);
      assert forall k :: k in ks <==> k == ks[0] || k in ks[1..] by { assert ks == [ks[0]] + ks[1..]; }
    }
  }

  /** An entry left by `RemoveAll` is an old entry whose key was not removed. */
  lemma MemberOfRemoveAll<V>(es: seq<Entry<V>>, ks: seq<int>, e: Entry<V>)
    requires e in RemoveAll(es, ks)
    ensures e in es && e.0 !in ks
  {
    RemoveAllMembers(es, ks);
  }

  /** Removing one more key after a sequence of keys is removing the longer sequence. */
  lemma {:induction false} RemoveAllSnoc<V>(es: seq<Entry<V>>, ks: seq<int>, k: int)
    ensures RemoveAll(es, ks + [k]) == Remove(RemoveAll(es, ks), k)
    decreases |ks|
  {
    if ks != [] {
      assert (ks + [k])[1..] == ks[1..] + [k];
      RemoveAllSnoc(Remove(es, ks[0]), ks[1..], k);
    }
  }

  /** A code starting with an index in range puts that element first. */
  lemma ArrangeStep<T>(xs: seq<T>, i: nat, tail: seq<nat>)
    requires i < |xs|
    ensures Arrange(xs, [i] + tail) == [xs[i]] + Arrange(xs[..i] + xs[i + 1..], tail)
  {
    assert ([i] + tail)[0] == i && ([i] + tail)[1..] == tail;
  }

  /** Taking out the element at `i` takes one occurrence out of the multiset. */
  lemma MultisetWithout<T>(xs: seq<T>, i: nat)
    requires i < |xs|
    ensures multiset(xs[..i] + xs[i + 1..]) == multiset(xs) - multiset{xs[i]}
  {
    assert xs == xs[..i] + [xs[i]] + xs[i + 1..];
  }

  /** The first element of a reordering sits somewhere in the original. */
  lemma PickFirst<T>(xs: seq<T>, r: seq<T>) returns (i: nat)
    requires multiset(r) == multiset(xs) && r != []
    ensures i < |xs| && xs[i] == r[0]
    ensures multiset(r[1..]) == multiset(xs[..i] + xs[i + 1..])
  {
    i := IndexOfPermuted(xs, r, r[0]);
    RestPermuted(xs, r, i);
  }

  /** An element of a reordering has a position in the original. */
  lemma IndexOfPermuted<T>(xs: seq<T>, r: seq<T>, x: T) returns (i: nat)
    requires multiset(r) == multiset(xs) && x in r
    ensures i < |xs| && xs[i] == x
  {
    assert x in multiset(xs);
    i :| 0 <= i < |xs| && xs[i] == x;
  }

  /** Taking the same element out of both keeps two reorderings reorderings of each other. */
  lemma RestPermuted<T>(xs: seq<T>, r: seq<T>, i: nat)
    requires multiset(r) == multiset(xs) && r != [] && i < |xs| && xs[i] == r[0]
    ensures multiset(r[1..]) == multiset(xs[..i] + xs[i + 1..])
  {
    MultisetWithout(xs, i);
    MultisetTail(r);
  }

  /** Dropping the head takes one occurrence of it out of the multiset. */
  lemma MultisetTail<T>(r: seq<T>)
    requires r != []
    ensures multiset(r[1..]) == multiset(r) - multiset{r[0]}
  {
    assert r == [r[0]] + r[1..];
  }

  /** Every order of `xs` is one that some code picks. */
  lemma {:induction false} ArrangeReachesAll<T>(xs: seq<T>, r: seq<T>) returns (code: seq<nat>)
    requires multiset(r) == multiset(xs)
    ensures Arrange(xs, code) == r
    decreases |xs|
  {
    if r == [] {
      assert |xs| == |multiset(xs)| == 0;
      return [];
    }
    assert r == [r[0]] + r[1..];
    var i := PickFirst(xs, r);
    var tail := ArrangeReachesAll(xs[..i] + xs[i + 1..], r[1..]);
    code := [i] + tail;
    ArrangeStep(xs, i, tail);
  }

  /** With distinct keys, no entry occurs twice. */
  lemma {:induction false} UniqueKeysSingle<V>(es: seq<Entry<V>>, x: Entry<V>)
    requires UniqueKeys(es)
    ensures multiset(es)[x] <= 1
    decreases |es|
  {
    if es != [] {
      assert es == [es[0]] + es[1..];
      UniqueKeysSingle(es[1..], x);
      if es[0] == x {
        assert x !in es[1..] by {
          forall j | 0 <= j < |es[1..]| ensures es[1..][j] != x {
            assert es[1..][j] == es[j + 1];
          }
        }
      }
    }
  }

  /** An element at two positions occurs at least twice. */
  lemma TwiceAt<T>(r: seq<T>, i: nat, j: nat)
    requires i < j < |r| && r[i] == r[j]
    ensures multiset(r)[r[i]] >= 2
  {
    assert r == r[..j] + r[j..];
    assert r[i] in r[..j] && r[j] in r[j..];
  }

  /** Reordering keeps the keys distinct and every lookup unchanged. */
  lemma PermutedRegistry<V>(es: seq<Entry<V>>, r: seq<Entry<V>>)
    requires UniqueKeys(es) && multiset(r) == multiset(es)
    ensures UniqueKeys(r)
    ensures forall k :: Find(r, k) == Find(es, k)
  {
    forall i, j | 0 <= i < j < |r| ensures r[i].0 != r[j].0 {
      if r[i] == r[j] {
        TwiceAt(r, i, j);
        UniqueKeysSingle(es, r[i]);
      } else {
        assert r[i] in multiset(es) && r[j] in multiset(es);
        var a :| 0 <= a < |es| && es[a] == r[i];
        var b :| 0 <= b < |es| && es[b] == r[j];
      }
    }
    assert UniqueKeys(r);
    forall k ensures Find(r, k) == Find(es, k) {
      PermutedHasKey(es, r, k);
      if HasKey(es, k) {
        var v := Find(es, k).value;
        FindMember(es, k, v);
        assert (k, v) in multiset(r);
        FindMember(r, k, v);
      }
    }
  }

  /** Reordering keeps the set of keys. */
  lemma PermutedHasKey<V>(es: seq<Entry<V>>, r: seq<Entry<V>>, k: int)
    requires multiset(r) == multiset(es)
    ensures HasKey(r, k) <==> HasKey(es, k)
  {
    if HasKey(r, k) {
      var i :| 0 <= i < |r| && r[i].0 == k;
      assert r[i] in multiset(es);
      var j :| 0 <= j < |es| && es[j] == r[i];
    }
    if HasKey(es, k) {
      var j :| 0 <= j < |es| && es[j].0 == k;
      assert es[j] in multiset(r);
      var i :| 0 <= i < |r| && r[i] == es[j];
    }
  }

  /** A new key appended at the end keeps the keys distinct. */
  lemma AppendUnique<V>(es: seq<Entry<V>>, e: Entry<V>)
    requires UniqueKeys(es) && !HasKey(es, e.0)
    ensures UniqueKeys(es + [e])
  {
    var r := es + [e];
    forall i, j | 0 <= i < j < |r| ensures r[i].0 != r[j].0 {
      assert r[i] == es[i];
    }
  }

  /**
   * Adding a key that is absent, in whatever order the table then
   * enumerates: the key maps to its value, every other key keeps its value,
   * the entries are the old ones and the new one, and the keys stay distinct.
   */
  lemma AddSpec<V>(es: seq<Entry<V>>, e: Entry<V>, order: seq<nat>)
    requires UniqueKeys(es) && !HasKey(es, e.0)
    ensures UniqueKeys(Add(es, e, order))
    ensures Find(Add(es, e, order), e.0) == Some(e.1)
    ensures forall k :: k != e.0 ==> Find(Add(es, e, order), k) == Find(es, k)
    ensures multiset(Add(es, e, order)) == multiset(es) + multiset{e}
  {
    var appended := es + [e];
    AppendUnique(es, e);
    PermutedRegistry(appended, Add(es, e, order));
    FindAt(appended, |es|);
    forall k | k != e.0 ensures Find(appended, k) == Find(es, k) {
      if Find(es, k).Some? {
        FindMember(es, k, Find(es, k).value);
        FindMember(appended, k, Find(es, k).value);
      } else if Find(appended, k).Some? {
        FindMember(appended, k, Find(appended, k).value);
        FindMember(es, k, Find(appended, k).value);
      }
    }
  }

  /** An entry after `Add` is an old entry or the new one. */
  lemma MemberOfAdd<V>(es: seq<Entry<V>>, e: Entry<V>, order: seq<nat>, x: Entry<V>)
    ensures x in Add(es, e, order) <==> x in es || x == e
  {
    assert multiset(Add(es, e, order)) == multiset(es + [e]);
    assert x in Add(es, e, order) <==> x in multiset(es + [e]);
  }

  /** With no pid the target is the last enumerated entry, and it is found under its own key. */
  lemma ResolveLast<V>(es: seq<Entry<V>>)
    requires UniqueKeys(es) && es != []
    ensures Resolve(es, None) == Target(LastEntry(es).0, LastEntry(es).1)
    ensures Find(es, LastEntry(es).0) == Some(LastEntry(es).1)
  {
    FindAt(es, |es| - 1);
  }

  /** An explicit pid is a target exactly when it is registered; an empty registry has no target. */
  lemma ResolvePid<V>(es: seq<Entry<V>>, pid: int)
    ensures Resolve(es, Some(pid)).Target? <==> HasKey(es, pid)
    ensures Resolve(es, Some(pid)).Missing? <==> es != [] && !HasKey(es, pid)
    ensures Resolve(es, Some(pid)).NoEntries? <==> es == []
  {
  }

  /** After the target of an explicit pid is removed, stopping that pid again finds nothing. */
  lemma StopTwiceMisses<V>(es: seq<Entry<V>>, pid: int)
    requires UniqueKeys(es)
    ensures !Resolve(Remove(es, pid), Some(pid)).Target?
  {
    RemoveSpec(es, pid);
  }
}
