/** Maximal runs of equal consecutive keys: the grouping that both passes of
    `render_svg` in scripts/make_screenshots.py perform on one row of cells
    (background rectangles group by background colour, text spans by
    foreground colour and weight). */
module RunLength {
  /** `len` consecutive keys equal to `key`, starting at index `start`. */
  datatype Run<K> = Run(start: nat, len: nat, key: K)

  predicate Covers<K>(r: Run<K>, x: int) {
    r.start <= x < r.start + r.len
  }

  /** The length of the maximal run of keys equal to keys[i] that starts at i. */
  function RunLen<K(==)>(keys: seq<K>, i: nat): (n: nat)
    requires i < |keys|
    ensures 1 <= n <= |keys| - i
    ensures forall j :: i <= j < i + n ==> keys[j] == keys[i]
    ensures i + n == |keys| || keys[i + n] != keys[i]
    decreases |keys| - i
  {
    if i + 1 < |keys| && keys[i + 1] == keys[i] then 1 + RunLen(keys, i + 1) else 1
  }

  /** Every run ends by position n. */
  predicate Within<K>(rs: seq<Run<K>>, n: nat) {
    forall k :: 0 <= k < |rs| ==> rs[k].start + rs[k].len <= n
  }

  /** The maximal runs of keys[i..], left to right. */
  function RunsFrom<K(==)>(keys: seq<K>, i: nat): (rs: seq<Run<K>>)
    requires i <= |keys|
    ensures Within(rs, |keys|)
    decreases |keys| - i
  {
    if i == |keys| then []
    else
      var n := RunLen(keys, i);
      [Run(i, n, keys[i])] + RunsFrom(keys, i + n)
  }

  function Runs<K(==)>(keys: seq<K>): seq<Run<K>> {
    RunsFrom(keys, 0)
  }

  /** The reference definition: rs splits keys[lo..] into nonempty runs, left
      to right and without gaps, each holding one key, no two neighbours
      holding the same key. */
  predicate Tiling<K(==)>(rs: seq<Run<K>>, keys: seq<K>, lo: nat)
    decreases |rs|
  {
    if rs == [] then lo == |keys|
    else
      rs[0].start == lo && 1 <= rs[0].len && lo + rs[0].len <= |keys|
      && (forall j :: lo <= j < lo + rs[0].len ==> keys[j] == rs[0].key)
      && (|rs| > 1 ==> rs[1].key != rs[0].key)
      && Tiling(rs[1..], keys, lo + rs[0].len)
  }

  /** A run that starts at i, holds only keys[i] and cannot be extended is
      the maximal one. */
  lemma RunLenUnique<K>(keys: seq<K>, i: nat, n: nat)
    requires i < |keys| && 1 <= n && i + n <= |keys|
    requires forall j :: i <= j < i + n ==> keys[j] == keys[i]
    requires i + n == |keys| || keys[i + n] != keys[i]
    ensures n == RunLen(keys, i)
  {
    var m := RunLen(keys, i);
  }

  /** A run followed by a tiling of what comes after it is a tiling. */
  lemma TilingCons<K>(r: Run<K>, tail: seq<Run<K>>, keys: seq<K>, lo: nat)
    requires r.start == lo && 1 <= r.len && lo + r.len <= |keys|
    requires forall j :: lo <= j < lo + r.len ==> keys[j] == r.key
    requires tail != [] ==> tail[0].key != r.key
    requires Tiling(tail, keys, lo + r.len)
    ensures Tiling([r] + tail, keys, lo)
  {
    assert ([r] + tail)[1..] == tail;
  }

  lemma {:induction false} RunsFromTile<K>(keys: seq<K>, i: nat)
    requires i <= |keys|
    ensures Tiling(RunsFrom(keys, i), keys, i)
    decreases |keys| - i
  {
    if i < |keys| {
      var n := RunLen(keys, i);
      var tail := RunsFrom(keys, i + n);
      RunsFromTile(keys, i + n);
      if tail != [] {
        assert tail[0].key == keys[i + n];
      }
      TilingCons(Run(i, n, keys[i]), tail, keys, i);
    }
  }

  /** Runs is a tiling of the whole row ... */
  lemma RunsTile<K>(keys: seq<K>)
    ensures Tiling(Runs(keys), keys, 0)
  {
    RunsFromTile(keys, 0);
  }

  /** The first run of a tiling is the maximal run at its start. */
  lemma TilingHead<K>(rs: seq<Run<K>>, keys: seq<K>, lo: nat)
    requires Tiling(rs, keys, lo) && rs != []
    ensures lo < |keys| && rs[0] == Run(lo, RunLen(keys, lo), keys[lo])
  {
    var n := rs[0].len;
    assert keys[lo] == rs[0].key;
    if lo + n < |keys| {
      var tail := rs[1..];
      assert tail != [] && tail[0] == rs[1];
      assert keys[lo + n] == tail[0].key;
    }
    RunLenUnique(keys, lo, n);
  }

  lemma {:induction false} TilingUnique<K>(rs: seq<Run<K>>, keys: seq<K>, lo: nat)
    requires Tiling(rs, keys, lo)
    ensures lo <= |keys| && rs == RunsFrom(keys, lo)
    decreases |rs|
  {
    if rs != [] {
      TilingHead(rs, keys, lo);
      var n := RunLen(keys, lo);
      var tail := rs[1..];
      assert Tiling(tail, keys, lo + n);
      TilingUnique(tail, keys, lo + n);
      calc {
        rs;
        [rs[0]] + tail;
        [Run(lo, n, keys[lo])] + RunsFrom(keys, lo + n);
        RunsFrom(keys, lo);
      }
    } else {
      assert RunsFrom(keys, lo) == [];
    }
  }

  /** ... and the only one. */
  lemma RunsUnique<K>(rs: seq<Run<K>>, keys: seq<K>)
    requires Tiling(rs, keys, 0)
    ensures rs == Runs(keys)
  {
    TilingUnique(rs, keys, 0);
  }

  /** The shape of a tiling, stated index by index. */
  lemma {:induction false} TilingShape<K>(rs: seq<Run<K>>, keys: seq<K>, lo: nat)
    requires Tiling(rs, keys, lo)
    ensures rs == [] <==> lo == |keys|
    ensures rs != [] ==> rs[0].start == lo && rs[|rs| - 1].start + rs[|rs| - 1].len == |keys|
    ensures forall k :: 0 <= k < |rs| ==>
      lo <= rs[k].start && 1 <= rs[k].len && rs[k].start + rs[k].len <= |keys|
    ensures forall k :: 0 <= k < |rs| - 1 ==>
      rs[k].start + rs[k].len == rs[k + 1].start && rs[k].key != rs[k + 1].key
    decreases |rs|
  {
    if rs != [] {
      var tail := rs[1..];
      TilingShape(tail, keys, lo + rs[0].len);
      forall k | 0 <= k < |rs| - 1
        ensures rs[k].start + rs[k].len == rs[k + 1].start && rs[k].key != rs[k + 1].key
      {
        if k > 0 {
          assert rs[k] == tail[k - 1] && rs[k + 1] == tail[k];
        }
      }
    }
  }

  /** Every position of keys[lo..] lies in a run holding its key. */
  lemma {:induction false} TilingCovers<K>(rs: seq<Run<K>>, keys: seq<K>, lo: nat, x: int)
    requires Tiling(rs, keys, lo) && lo <= x < |keys|
    ensures exists k :: 0 <= k < |rs| && Covers(rs[k], x) && rs[k].key == keys[x]
    decreases |rs|
  {
    if x >= lo + rs[0].len {
      var tail := rs[1..];
      TilingCovers(tail, keys, lo + rs[0].len, x);
      var k :| 0 <= k < |tail| && Covers(tail[k], x) && tail[k].key == keys[x];
      assert rs[k + 1] == tail[k];
    } else {
      assert Covers(rs[0], x);
    }
  }

  /** Every position a run covers lies in keys[lo..] and holds the run's key. */
  lemma {:induction false} TilingKeys<K>(rs: seq<Run<K>>, keys: seq<K>, lo: nat, k: nat, x: int)
    requires Tiling(rs, keys, lo) && k < |rs| && Covers(rs[k], x)
    ensures lo <= x < |keys| && keys[x] == rs[k].key
    decreases |rs|
  {
    if k > 0 {
      var tail := rs[1..];
      assert tail[k - 1] == rs[k];
      TilingKeys(tail, keys, lo + rs[0].len, k - 1, x);
    }
  }

  /** The concatenation of the slices of text the runs select. */
  function Pieces<K, T>(rs: seq<Run<K>>, text: seq<T>): seq<T>
    requires forall k :: 0 <= k < |rs| ==> rs[k].start + rs[k].len <= |text|
  {
    if rs == [] then []
    else text[rs[0].start..rs[0].start + rs[0].len] + Pieces(rs[1..], text)
  }

  /** The slices a tiling selects put text[lo..] back together. */
  lemma {:induction false} TilingPieces<K, T>(rs: seq<Run<K>>, keys: seq<K>, lo: nat, text: seq<T>)
    requires Tiling(rs, keys, lo) && |text| == |keys|
    ensures forall k :: 0 <= k < |rs| ==> rs[k].start + rs[k].len <= |text|
    ensures lo <= |text| && Pieces(rs, text) == text[lo..]
    decreases |rs|
  {
    TilingShape(rs, keys, lo);
    if rs != [] {
      var n := rs[0].len;
      TilingPieces(rs[1..], keys, lo + n, text);
      assert text[lo..] == text[lo..lo + n] + text[lo + n..];
    }
  }

  /** Runs after one more key: the last run grows when it holds the same key,
      otherwise a run of length one is added. */
  function Append<K(==)>(rs: seq<Run<K>>, k: K, n: nat): seq<Run<K>> {
    if rs != [] && rs[|rs| - 1].key == k then
      rs[..|rs| - 1] + [rs[|rs| - 1].(len := rs[|rs| - 1].len + 1)]
    else
      rs + [Run(n, 1, k)]
  }

  lemma {:induction false} TilingAppend<K>(rs: seq<Run<K>>, keys: seq<K>, lo: nat, k: K)
    requires Tiling(rs, keys, lo)
    ensures Tiling(Append(rs, k, |keys|), keys + [k], lo)
    decreases |rs|
  {
    var keys' := keys + [k];
    var a := Append(rs, k, |keys|);
    if rs == [] {
      assert a == [Run(|keys|, 1, k)];
      assert a[1..] == [];
    } else if |rs| == 1 && rs[0].key == k {
      var r := rs[0].(len := rs[0].len + 1);
      assert a == [r];
      assert a[1..] == [];
      assert rs[1..] == [];
      forall j | lo <= j < lo + r.len
        ensures keys'[j] == r.key
      {
        if j < |keys| {
          assert keys'[j] == keys[j];
        }
      }
    } else {
      var tail := rs[1..];
      TilingAppend(tail, keys, lo + rs[0].len, k);
      var at := Append(tail, k, |keys|);
      assert a == [rs[0]] + at;
      assert a[1..] == at;
      TilingShape(rs, keys, lo);
      forall j | lo <= j < lo + rs[0].len
        ensures keys'[j] == rs[0].key
      {
        assert keys'[j] == keys[j];
      }
      if tail != [] {
        assert at[0].key == tail[0].key;
      }
    }
  }

  /** Extending the keys by one extends the runs by `Append`. */
  lemma RunsSnoc<K>(keys: seq<K>, k: K)
    ensures Runs(keys + [k]) == Append(Runs(keys), k, |keys|)
  {
    RunsTile(keys);
    TilingAppend(Runs(keys), keys, 0, k);
    RunsUnique(Append(Runs(keys), k, |keys|), keys + [k]);
  }

  /** A row of one key is one run. */
  lemma UniformOneRun<K>(keys: seq<K>, k: K)
    requires keys != [] && forall j :: 0 <= j < |keys| ==> keys[j] == k
    ensures Runs(keys) == [Run(0, |keys|, k)]
  {
    var rs := [Run(0, |keys|, k)];
    assert rs[1..] == [];
    RunsUnique(rs, keys);
  }
}
