/** A Python `dict` from strings to strings: its entries in insertion order, which
    is the order `for key in d` visits them. */
module PyDict {
  import opened Wrappers

  type Dict = seq<(string, string)>

  function Keys(d: Dict): (r: seq<string>)
    ensures |r| == |d| && forall i :: 0 <= i < |d| ==> r[i] == d[i].0
  {
    if d == [] then [] else [d[0].0] + Keys(d[1..])
  }

  /** No key appears twice, as in every Python dict. */
  predicate KeysUnique(d: Dict) {
    forall i, j :: 0 <= i < j < |d| ==> d[i].0 != d[j].0
  }

  /** `d.get(k)`. */
  function Get(d: Dict, k: string): (r: Option<string>)
    ensures r.None? <==> k !in Keys(d)
    ensures r.Some? ==> (k, r.value) in d
  {
    if d == [] then None
    else if d[0].0 == k then Some(d[0].1)
    else Get(d[1..], k)
  }

  /** `d[k] = v`; what it does to the keys and to lookups is stated by the lemmas
      below. */
  function Put(d: Dict, k: string, v: string): Dict {
    if d == [] then [(k, v)]
    else if d[0].0 == k then [(k, v)] + d[1..]
    else [d[0]] + Put(d[1..], k, v)
  }

  /** A new key is added at the end; a key already present keeps its place. */
  lemma {:induction false} PutKeys(d: Dict, k: string, v: string)
    ensures Keys(Put(d, k, v)) == if k in Keys(d) then Keys(d) else Keys(d) + [k]
  {
    if d != [] {
      assert Keys(d) == [d[0].0] + Keys(d[1..]);
      if d[0].0 != k {
        PutKeys(d[1..], k, v);
        assert Keys(Put(d, k, v)) == [d[0].0] + Keys(Put(d[1..], k, v));
      } else {
        assert Keys(Put(d, k, v)) == [k] + Keys(d[1..]);
      }
    }
  }

  /** After `d[k] = v`, looking up `k` gives `v` and every other key gives what
      it gave before. */
  lemma {:induction false} PutGet(d: Dict, k: string, v: string, j: string)
    ensures Get(Put(d, k, v), j) == if j == k then Some(v) else Get(d, j)
  {
    if d != [] && d[0].0 != k {
      PutGet(d[1..], k, v, j);
      assert Put(d, k, v)[1..] == Put(d[1..], k, v);
    }
  }

  /** `d[k] = v` never makes a key appear twice. */
  lemma PutUnique(d: Dict, k: string, v: string)
    requires KeysUnique(d)
    ensures KeysUnique(Put(d, k, v))
  {
    var r := Put(d, k, v);
    PutKeys(d, k, v);
    assert forall i, j :: 0 <= i < j < |r| ==> Keys(r)[i] != Keys(r)[j];
  }

  /** In a dict with unique keys, the value stored at an entry is what `get` finds. */
  lemma {:induction false} GetEntry(d: Dict, i: nat)
    requires KeysUnique(d) && i < |d|
    ensures Get(d, d[i].0) == Some(d[i].1)
  {
    if i > 0 {
      assert d[0].0 != d[i].0;
      assert d[1..][i - 1] == d[i];
      GetEntry(d[1..], i - 1);
    }
  }

  /** The dict built by storing the pairs one after the other, as `dict(pairs)`
      does. */
  function FromPairs(pairs: seq<(string, string)>): Dict {
    if pairs == [] then []
    else
      var last := pairs[|pairs| - 1];
      Put(FromPairs(pairs[..|pairs| - 1]), last.0, last.1)
  }

  /** No key is stored twice. */
  lemma {:induction false} FromPairsUnique(pairs: seq<(string, string)>)
    ensures KeysUnique(FromPairs(pairs))
  {
    if pairs != [] {
      var last := pairs[|pairs| - 1];
      FromPairsUnique(pairs[..|pairs| - 1]);
      PutUnique(FromPairs(pairs[..|pairs| - 1]), last.0, last.1);
    }
  }

  /** A key is stored exactly when some pair has it. */
  lemma {:induction false} FromPairsAbsent(pairs: seq<(string, string)>, k: string)
    ensures Get(FromPairs(pairs), k).None? <==> forall i :: 0 <= i < |pairs| ==> pairs[i].0 != k
  {
    if pairs != [] {
      var n := |pairs| - 1;
      FromPairsSnoc(pairs);
      FromPairsAbsent(pairs[..n], k);
      PutGet(FromPairs(pairs[..n]), pairs[n].0, pairs[n].1, k);
      InitPairs(pairs);
    }
  }

  /** Dropping the final pair keeps every other pair in its place. */
  lemma InitPairs(pairs: seq<(string, string)>)
    requires pairs != []
    ensures forall i :: 0 <= i < |pairs| - 1 ==> pairs[..|pairs| - 1][i] == pairs[i]
  {
  }

  /** A later pair with the same key overwrites an earlier one: the value stored
      under a key is that of the last pair with that key. */
  lemma {:induction false} FromPairsLast(pairs: seq<(string, string)>, i: nat)
    requires i < |pairs|
    requires forall j :: i < j < |pairs| ==> pairs[j].0 != pairs[i].0
    ensures Get(FromPairs(pairs), pairs[i].0) == Some(pairs[i].1)
  {
    var n := |pairs| - 1;
    var init := pairs[..n];
    FromPairsSnoc(pairs);
    PutGet(FromPairs(init), pairs[n].0, pairs[n].1, pairs[i].0);
    if i < n {
      assert pairs[n].0 != pairs[i].0;
      InitKeepsLast(pairs, i);
      FromPairsLast(init, i);
    }
  }

  /** The dict of some pairs is the dict of all but the last, with the last stored. */
  lemma FromPairsSnoc(pairs: seq<(string, string)>)
    requires pairs != []
    ensures FromPairs(pairs) == Put(FromPairs(pairs[..|pairs| - 1]), pairs[|pairs| - 1].0, pairs[|pairs| - 1].1)
  {
  }

  /** Dropping the final pair keeps pair `i < n` and what follows it. */
  lemma InitKeepsLast(pairs: seq<(string, string)>, i: nat)
    requires i < |pairs| - 1
    requires forall j :: i < j < |pairs| ==> pairs[j].0 != pairs[i].0
    ensures var init := pairs[..|pairs| - 1];
      init[i] == pairs[i] && forall j :: i < j < |init| ==> init[j].0 != init[i].0
  {
  }
}
