/** The two std::map<int, ...> result tables of ThreadPool, results and
    img_results, as values. A worker stores an entry by first erasing
    begin(), the smallest frame id, when the table holds more than 100
    entries, and then calling insert, which keeps an entry already present
    under that id. A consumer takes an entry out by id. */
module ResultTable {

  /** The table size past which a store first evicts: size() > 100. */
  const EvictAbove: nat := 100

  /** Every finite non-empty set of ids has a smallest one. */
  lemma {:induction false} HasMinimum(keys: set<int>)
    requires keys != {}
    ensures exists k :: k in keys && forall j :: j in keys ==> k <= j
    decreases |keys|
  {
    if forall x :: x !in keys {
      assert false;
    }
    var x :| x in keys;
    var rest := keys - {x};
    if rest == {} {
      assert keys == {x};
    } else {
      HasMinimum(rest);
      var k :| k in rest && forall j :: j in rest ==> k <= j;
      var low := if x < k then x else k;
      forall j | j in keys
        ensures low <= j
      {
        if j != x {
          assert j in rest;
        }
      }
    }
  }

  /** begin()->first of a std::map<int, V>: the smallest id. */
  function MinKey(keys: set<int>): (k: int)
    requires keys != {}
    ensures k in keys && forall j :: j in keys ==> k <= j
  {
    HasMinimum(keys);
    var k :| k in keys && forall j :: j in keys ==> k <= j; k
  }

  /** The table after the eviction test. */
  function Evict<V>(m: map<int, V>): map<int, V>
  {
    if |m| > EvictAbove then m - {MinKey(m.Keys)} else m
  }

  /** erase(begin()) if size() > 100, then insert({id, v}). */
  function Store<V>(m: map<int, V>, id: int, v: V): map<int, V>
  {
    var e := Evict(m);
    if id in e then e else e[id := v]
  }

  /** Erasing a present id removes one entry. */
  lemma RemoveOne<V>(m: map<int, V>, k: int)
    requires k in m
    ensures |m - {k}| == |m| - 1
  {
    assert (m - {k}).Keys == m.Keys - {k};
  }

  /** Adding an absent id adds one entry. */
  lemma AddOne<V>(m: map<int, V>, k: int, v: V)
    requires k !in m
    ensures |m[k := v]| == |m| + 1
  {
    assert m[k := v].Keys == m.Keys + {k};
  }

  /** A store never lets a table of at most 101 entries grow past 101. */
  lemma StoreBound<V>(m: map<int, V>, id: int, v: V)
    requires |m| <= EvictAbove + 1
    ensures |Store(m, id, v)| <= EvictAbove + 1
  {
    var e := Evict(m);
    if |m| > EvictAbove {
      assert m.Keys != {} by { assert |m.Keys| == |m|; }
      RemoveOne(m, MinKey(m.Keys));
    }
    if id !in e {
      AddOne(e, id, v);
    }
  }

  /** What a store does, entry by entry: when the table was over 100 entries
      the smallest id is gone (unless it is the id stored), the id stored is
      present and keeps an existing value, and every other entry is kept. */
  lemma StoreEffect<V>(m: map<int, V>, id: int, v: V)
    ensures var r := Store(m, id, v);
            id in r &&
            (|m| > EvictAbove ==> m.Keys != {} && var low := MinKey(m.Keys);
               (low != id ==> low !in r) &&
               (id in m && id != low ==> r[id] == m[id]) &&
               (id !in m || id == low ==> r[id] == v) &&
               forall k :: k in m && k != low && k != id ==> k in r && r[k] == m[k]) &&
            (|m| <= EvictAbove ==>
               r[id] == (if id in m then m[id] else v) &&
               forall k :: k in m && k != id ==> k in r && r[k] == m[k]) &&
            forall k :: k in r ==> k in m || k == id
  {
    if |m| > EvictAbove {
      assert |m.Keys| == |m|;
    }
  }

  /** insert never overwrites: an id already stored, and not the one
      evicted, keeps the value it had. */
  lemma StoreNeverOverwrites<V>(m: map<int, V>, id: int, v: V)
    requires id in m && (|m| > EvictAbove ==> id != MinKey(m.Keys))
    ensures Store(m, id, v) == Evict(m)
    ensures Store(m, id, v)[id] == m[id]
  {
  }

  /** results[id] then results.erase(id): the value and the table without
      exactly that id. */
  function Take<V>(m: map<int, V>, id: int): (r: (V, map<int, V>))
    requires id in m
    ensures r.0 == m[id] && id !in r.1 && |r.1| == |m| - 1
    ensures forall k :: k in r.1 <==> k in m && k != id
    ensures forall k :: k in r.1 ==> r.1[k] == m[k]
  {
    RemoveOne(m, id);
    (m[id], m - {id})
  }

  /** An entry to store: a frame id and its value. */
  datatype Entry<V> = Entry(id: int, value: V)

  predicate Increasing<V>(es: seq<Entry<V>>)
  {
    forall i, j :: 0 <= i < j < |es| ==> es[i].id < es[j].id
  }

  /** The table after storing each entry in order. */
  function StoreEach<V>(m: map<int, V>, es: seq<Entry<V>>): map<int, V>
  {
    if es == [] then m
    else
      var last := es[|es| - 1];
      Store(StoreEach(m, es[..|es| - 1]), last.id, last.value)
  }

  /** The entries es[lo..hi) as a table. */
  function Window<V>(es: seq<Entry<V>>, lo: nat, hi: nat): map<int, V>
    requires lo <= hi <= |es|
    decreases hi
  {
    if hi == lo then map[] else Window(es, lo, hi - 1)[es[hi - 1].id := es[hi - 1].value]
  }

  /** For increasing ids, the window holds exactly its entries, between its
      first and last id. */
  lemma {:induction false} WindowShape<V>(es: seq<Entry<V>>, lo: nat, hi: nat)
    requires lo <= hi <= |es| && Increasing(es)
    ensures |Window(es, lo, hi)| == hi - lo
    ensures forall i :: lo <= i < hi ==>
              es[i].id in Window(es, lo, hi) && Window(es, lo, hi)[es[i].id] == es[i].value
    ensures forall k :: k in Window(es, lo, hi) ==> lo < hi && es[lo].id <= k <= es[hi - 1].id
    decreases hi
  {
    if hi > lo {
      WindowShape(es, lo, hi - 1);
      var w := Window(es, lo, hi - 1);
      assert es[hi - 1].id !in w;
      AddOne(w, es[hi - 1].id, es[hi - 1].value);
    }
  }

  /** Dropping the first id of a window of increasing ids. */
  lemma {:induction false} WindowDropFirst<V>(es: seq<Entry<V>>, lo: nat, hi: nat)
    requires lo < hi <= |es| && Increasing(es)
    ensures Window(es, lo, hi) - {es[lo].id} == Window(es, lo + 1, hi)
    decreases hi
  {
    if hi - 1 > lo {
      WindowDropFirst(es, lo, hi - 1);
      var k := es[hi - 1].id;
      var w := Window(es, lo, hi - 1);
      assert k != es[lo].id;
      assert w[k := es[hi - 1].value] - {es[lo].id} == (w - {es[lo].id})[k := es[hi - 1].value];
    } else {
      assert Window(es, lo, hi - 1) == map[];
    }
  }

  /** The first entry kept once n entries have been stored. */
  function KeptFrom(n: nat): nat
  {
    if n > EvictAbove + 1 then n - (EvictAbove + 1) else 0
  }

  /** One more entry with a larger id moves the window forward. */
  lemma StoreNext<V>(es: seq<Entry<V>>, n: nat)
    requires 0 < n <= |es| && Increasing(es)
    ensures Store(Window(es, KeptFrom(n - 1), n - 1), es[n - 1].id, es[n - 1].value)
            == Window(es, KeptFrom(n), n)
  {
    var lo := KeptFrom(n - 1);
    var w := Window(es, lo, n - 1);
    var e := es[n - 1];
    WindowShape(es, lo, n - 1);
    if |w| > EvictAbove {
      assert MinKey(w.Keys) == es[lo].id;
      WindowDropFirst(es, lo, n - 1);
      assert Evict(w) == Window(es, lo + 1, n - 1);
      WindowShape(es, lo + 1, n - 1);
    } else {
      assert Evict(w) == w;
    }
  }

  /** Storing entries with increasing ids into an empty table leaves exactly
      the newest 101 of them: the reorder window of the detector. */
  lemma {:induction false} StoreIncreasing<V>(es: seq<Entry<V>>, n: nat)
    requires n <= |es| && Increasing(es)
    ensures StoreEach(map[], es[..n]) == Window(es, KeptFrom(n), n)
    decreases n
  {
    if n > 0 {
      var prefix, e := es[..n], es[n - 1];
      assert prefix[..n - 1] == es[..n - 1];
      assert prefix[n - 1] == e;
      var before := StoreEach(map[], es[..n - 1]);
      assert StoreEach(map[], prefix) == Store(before, e.id, e.value);
      StoreIncreasing(es, n - 1);
      assert before == Window(es, KeptFrom(n - 1), n - 1);
      StoreNext(es, n);
    }
  }
}
