/** Python's `dict` where its iteration order matters: entries plus first-insertion order. */
module OrderedDict {
  import opened Wrappers
  import opened Seqs
  import opened OptionSeqs


  datatype Dict<K(==,!new), V> = Dict(order: seq<K>, entries: map<K, V>) {

    /** Every key listed once, and exactly the keys of the entries. */
    ghost predicate Valid() {
      && (forall i, j :: 0 <= i < j < |order| ==> order[i] != order[j])
      && (forall k :: k in entries <==> k in order)
    }

    /** `d[k] = v`: a new key goes to the end, an existing key keeps its place. */
    function Put(k: K, v: V): (d: Dict<K, V>)
      ensures d.entries == entries[k := v]
      ensures d.order == if k in entries then order else order + [k]
    {
      Dict(if k in entries then order else order + [k], entries[k := v])
    }

    /** `if k not in d: d[k] = v`. */
    function PutIfAbsent(k: K, v: V): (d: Dict<K, V>)
      ensures d.entries == if k in entries then entries else entries[k := v]
      ensures d.order == if k in entries then order else order + [k]
    {
      if k in entries then this else Put(k, v)
    }

    /** Assigning a key keeps every key listed once. */
    lemma PutValid(k: K, v: V)
      requires Valid()
      ensures Put(k, v).Valid() && PutIfAbsent(k, v).Valid()
    {
    }

    /** `d.items()`: the key-value pairs in iteration order. */
    function Items(): (ps: seq<(K, V)>)
      requires Valid()
      ensures |ps| == |order|
      ensures forall i :: 0 <= i < |ps| ==> ps[i] == (order[i], entries[order[i]])
    {
      seq(|order|, i requires 0 <= i < |order| => (order[i], entries[order[i]]))
    }

    /** `d.values()`: the values in iteration order. */
    function Values(): (vs: seq<V>)
      requires Valid()
      ensures |vs| == |order|
      ensures forall i :: 0 <= i < |vs| ==> vs[i] == entries[order[i]]
    {
      seq(|order|, i requires 0 <= i < |order| => entries[order[i]])
    }
  }

  /** `{}`. */
  function Empty<K(==,!new), V>(): (d: Dict<K, V>)
    ensures d.order == [] && d.entries == map[]
  {
    Dict([], map[])
  }

  /** The dict built by `d[k] = v` for each pair in turn. */
  function FromPairs<K(==,!new), V>(ps: seq<(K, V)>): Dict<K, V> {
    if ps == [] then Empty() else FromPairs(ps[..|ps| - 1]).Put(ps[|ps| - 1].0, ps[|ps| - 1].1)
  }

  /** Built by assignments, the dict lists every key once. */
  lemma {:induction false} FromPairsValid<K(!new), V>(ps: seq<(K, V)>)
    ensures FromPairs(ps).Valid() && FromPairsFirst(ps).Valid()
  {
    if ps != [] {
      var init := ps[..|ps| - 1];
      FromPairsValid(init);
      FromPairs(init).PutValid(ps[|ps| - 1].0, ps[|ps| - 1].1);
      FromPairsFirst(init).PutValid(ps[|ps| - 1].0, ps[|ps| - 1].1);
    }
  }

  /** One more pair is one more assignment. */
  lemma FromPairsSnoc<K(!new), V>(ps: seq<(K, V)>, p: (K, V))
    ensures FromPairs(ps + [p]) == FromPairs(ps).Put(p.0, p.1)
  {
    SnocFront(ps, p);
  }

  /** An entry comes from a pair with its key and value. */
  lemma {:induction false} FromPairsSource<K(!new), V>(ps: seq<(K, V)>, k: K)
    requires k in FromPairs(ps).entries
    ensures exists i :: 0 <= i < |ps| && ps[i] == (k, FromPairs(ps).entries[k])
  {
    var n := |ps| - 1;
    if k == ps[n].0 {
      assert ps[n] == (k, FromPairs(ps).entries[k]);
    } else {
      var init := ps[..n];
      FromPairsSource(init, k);
      var i :| 0 <= i < n && init[i] == (k, FromPairs(init).entries[k]);
      assert ps[i] == (k, FromPairs(ps).entries[k]);
    }
  }

  /** A pair's key is present. */
  lemma {:induction false} FromPairsHas<K(!new), V>(ps: seq<(K, V)>, i: nat)
    requires i < |ps|
    ensures ps[i].0 in FromPairs(ps).entries
  {
    var n := |ps| - 1;
    if i < n {
      var init := ps[..n];
      assert init[i] == ps[i];
      FromPairsHas(init, i);
    }
  }

  /** Every entry comes from a pair, and every pair's key is present. */
  lemma FromPairsKeys<K(!new), V>(ps: seq<(K, V)>)
    ensures forall k :: k in FromPairs(ps).entries ==> exists i :: 0 <= i < |ps| && ps[i] == (k, FromPairs(ps).entries[k])
    ensures forall i :: 0 <= i < |ps| ==> ps[i].0 in FromPairs(ps).entries
  {
    forall k | k in FromPairs(ps).entries
      ensures exists i :: 0 <= i < |ps| && ps[i] == (k, FromPairs(ps).entries[k])
    {
      FromPairsSource(ps, k);
    }
    forall i | 0 <= i < |ps|
      ensures ps[i].0 in FromPairs(ps).entries
    {
      FromPairsHas(ps, i);
    }
  }


  /** Last wins: a pair with no later pair of the same key gives that key its value. */
  lemma {:induction false} FromPairsLastWins<K(!new), V>(ps: seq<(K, V)>, i: nat)
    requires i < |ps|
    requires forall j :: i < j < |ps| ==> ps[j].0 != ps[i].0
    ensures ps[i].0 in FromPairs(ps).entries && FromPairs(ps).entries[ps[i].0] == ps[i].1
  {
    var n := |ps| - 1;
    if i < n {
      var init := ps[..n];
      assert init[i] == ps[i];
      FromPairsLastWins(init, i);
    }
  }

  /**
   * Last wins over a list where some elements carry no pair: a pair with no
   * later pair of the same key gives that key its value.
   */
  lemma {:induction false} FromSomesLastWins<K(!new), V>(xs: seq<Option<(K, V)>>, j: nat, k: K, v: V)
    requires j < |xs| && xs[j] == Some((k, v))
    requires forall l :: j < l < |xs| && xs[l].Some? ==> xs[l].value.0 != k
    ensures k in FromPairs(Somes(xs)).entries && FromPairs(Somes(xs)).entries[k] == v
  {
    var n := |xs| - 1;
    var init := xs[..n];
    if j == n {
      FromPairsSnoc(Somes(init), (k, v));
    } else if xs[n].Some? {
      assert init[j] == xs[j];
      FromSomesLastWins(init, j, k, v);
      assert xs[n].value.0 != k;
      FromPairsSnoc(Somes(init), xs[n].value);
    } else {
      assert init[j] == xs[j];
      FromSomesLastWins(init, j, k, v);
      assert Somes(xs) == Somes(init) + [] == Somes(init);
    }
  }

  /** The dict built by `if k not in d: d[k] = v` for each pair in turn. */
  function FromPairsFirst<K(==,!new), V>(ps: seq<(K, V)>): Dict<K, V> {
    if ps == [] then Empty() else FromPairsFirst(ps[..|ps| - 1]).PutIfAbsent(ps[|ps| - 1].0, ps[|ps| - 1].1)
  }

  /** An entry comes from a pair with its key and value, under first-wins. */
  lemma {:induction false} FromPairsFirstSource<K(!new), V>(ps: seq<(K, V)>, k: K)
    requires k in FromPairsFirst(ps).entries
    ensures exists i :: 0 <= i < |ps| && ps[i] == (k, FromPairsFirst(ps).entries[k])
  {
    var n := |ps| - 1;
    var init := ps[..n];
    if k in FromPairsFirst(init).entries {
      FromPairsFirstSource(init, k);
      var i :| 0 <= i < n && init[i] == (k, FromPairsFirst(init).entries[k]);
      assert ps[i] == (k, FromPairsFirst(ps).entries[k]);
    } else {
      assert ps[n] == (k, FromPairsFirst(ps).entries[k]);
    }
  }

  /** A pair's key is present, under first-wins. */
  lemma {:induction false} FromPairsFirstHas<K(!new), V>(ps: seq<(K, V)>, i: nat)
    requires i < |ps|
    ensures ps[i].0 in FromPairsFirst(ps).entries
  {
    var n := |ps| - 1;
    if i < n {
      var init := ps[..n];
      assert init[i] == ps[i];
      FromPairsFirstHas(init, i);
    }
  }

  /** Every entry comes from a pair, and every pair's key is present, under first-wins. */
  lemma FromPairsFirstKeys<K(!new), V>(ps: seq<(K, V)>)
    ensures forall k :: k in FromPairsFirst(ps).entries ==> exists i :: 0 <= i < |ps| && ps[i] == (k, FromPairsFirst(ps).entries[k])
    ensures forall i :: 0 <= i < |ps| ==> ps[i].0 in FromPairsFirst(ps).entries
  {
    forall k | k in FromPairsFirst(ps).entries
      ensures exists i :: 0 <= i < |ps| && ps[i] == (k, FromPairsFirst(ps).entries[k])
    {
      FromPairsFirstSource(ps, k);
    }
    forall i | 0 <= i < |ps|
      ensures ps[i].0 in FromPairsFirst(ps).entries
    {
      FromPairsFirstHas(ps, i);
    }
  }


  /** First wins: a pair with no earlier pair of the same key gives that key its value. */
  lemma {:induction false} FromPairsFirstWins<K(!new), V>(ps: seq<(K, V)>, i: nat)
    requires i < |ps|
    requires forall j :: 0 <= j < i ==> ps[j].0 != ps[i].0
    ensures ps[i].0 in FromPairsFirst(ps).entries && FromPairsFirst(ps).entries[ps[i].0] == ps[i].1
  {
    var n := |ps| - 1;
    var init := ps[..n];
    if i < n {
      assert init[i] == ps[i];
      assert forall j :: 0 <= j < i ==> init[j] == ps[j];
      FromPairsFirstWins(init, i);
    } else if ps[i].0 in FromPairsFirst(init).entries {
      FromPairsFirstSource(init, ps[i].0);
      assert false;
    }
  }

  /** Later pairs never remove or change what earlier pairs put, under first-wins. */
  lemma {:induction false} FromPairsFirstAppend<K(!new), V>(ps: seq<(K, V)>, qs: seq<(K, V)>)
    ensures |FromPairsFirst(ps).order| <= |FromPairsFirst(ps + qs).order|
    ensures FromPairsFirst(ps + qs).order[..|FromPairsFirst(ps).order|] == FromPairsFirst(ps).order
    decreases |qs|
  {
    if qs == [] {
      assert ps + qs == ps;
    } else {
      var init := qs[..|qs| - 1];
      assert ps + qs == (ps + init) + [qs[|qs| - 1]];
      assert (ps + qs)[..|ps + qs| - 1] == ps + init;
      FromPairsFirstAppend(ps, init);
    }
  }

  /** One more pair is one more `if k not in d: d[k] = v`. */
  lemma FromPairsFirstSnoc<K(!new), V>(ps: seq<(K, V)>, p: (K, V))
    ensures FromPairsFirst(ps + [p]) == FromPairsFirst(ps).PutIfAbsent(p.0, p.1)
  {
    SnocFront(ps, p);
  }

  /** A key the first pairs put keeps its value whatever pairs follow, under first-wins. */
  lemma {:induction false} FromPairsFirstKeep<K(!new), V>(ps: seq<(K, V)>, qs: seq<(K, V)>, k: K)
    requires k in FromPairsFirst(ps).entries
    ensures k in FromPairsFirst(ps + qs).entries
    ensures FromPairsFirst(ps + qs).entries[k] == FromPairsFirst(ps).entries[k]
    decreases |qs|
  {
    if qs == [] {
      AppendEmpty(ps);
    } else {
      var init := qs[..|qs| - 1];
      AppendSnoc(ps, qs);
      FromPairsFirstSnoc(ps + init, qs[|qs| - 1]);
      FromPairsFirstKeep(ps, init, k);
    }
  }

  /** A key the first pairs did not put gets what the later pairs alone would give it, under first-wins. */
  lemma {:induction false} FromPairsFirstFresh<K(!new), V>(ps: seq<(K, V)>, qs: seq<(K, V)>, k: K)
    requires k !in FromPairsFirst(ps).entries
    ensures k in FromPairsFirst(ps + qs).entries <==> k in FromPairsFirst(qs).entries
    ensures k in FromPairsFirst(qs).entries ==> FromPairsFirst(ps + qs).entries[k] == FromPairsFirst(qs).entries[k]
    decreases |qs|
  {
    if qs == [] {
      AppendEmpty(ps);
    } else {
      var init := qs[..|qs| - 1];
      AppendSnoc(ps, qs);
      FromPairsFirstSnoc(ps + init, qs[|qs| - 1]);
      FromPairsFirstFresh(ps, init, k);
    }
  }

  /** Re-inserting a dict's items, first-wins, gives back its entries. */
  lemma FromPairsFirstItems<K(!new), V>(d: Dict<K, V>, k: K)
    requires d.Valid()
    ensures k in FromPairsFirst(d.Items()).entries <==> k in d.entries
    ensures k in d.entries ==> FromPairsFirst(d.Items()).entries[k] == d.entries[k]
  {
    var ps := d.Items();
    if k in d.entries {
      var i :| 0 <= i < |d.order| && d.order[i] == k;
      FromPairsFirstWins(ps, i);
    }
    if k in FromPairsFirst(ps).entries {
      FromPairsFirstSource(ps, k);
    }
  }
}
