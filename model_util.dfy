/**
 * Copying 3-element vector slots in and out of flat model-data arrays.
 * Slot `index` of a data array occupies positions 3*index, 3*index+1 and
 * 3*index+2. The slot functions are generic in the element type; the
 * methods work on arrays of `real`, and the rounding of a store into a
 * Float32Array is not modelled.
 */
module ModelUtil {

  /**
   * What `out` holds after `out.set(data.subarray(3*index, 3*index+3))`:
   * `subarray` clamps its bounds to the array, so only the positions of the
   * slot that lie inside `data` are copied and the rest of `out` is kept.
   */
  function Fetched<T>(out: seq<T>, data: seq<T>, index: nat): (r: seq<T>)
    requires |out| == 3
  {
    seq(3, k requires 0 <= k < 3 => if 3 * index + k < |data| then data[3 * index + k] else out[k])
  }

  /** What `data` holds after `data.set(v, 3*index)`, when the slot fits. */
  function Stored<T>(data: seq<T>, v: seq<T>, index: nat): (r: seq<T>)
    requires |v| == 3 && 3 * index + 3 <= |data|
  {
    data[..3 * index] + v + data[3 * index + 3..]
  }

  /** A store writes exactly the slot: the slot holds `v`, every other position is kept. */
  lemma StoredWritesSlotOnly<T>(data: seq<T>, v: seq<T>, index: nat)
    requires |v| == 3 && 3 * index + 3 <= |data|
    ensures |Stored(data, v, index)| == |data|
    ensures Stored(data, v, index)[3 * index..3 * index + 3] == v
    ensures forall k :: 0 <= k < |data| && !(3 * index <= k < 3 * index + 3) ==> Stored(data, v, index)[k] == data[k]
  {
    var r := Stored(data, v, index);
    assert r[3 * index..3 * index + 3] == v;
  }

  /** A slot lying wholly inside the data is fetched whole. */
  lemma FetchedWholeSlot<T>(out: seq<T>, data: seq<T>, index: nat)
    requires |out| == 3 && 3 * index + 3 <= |data|
    ensures Fetched(out, data, index) == data[3 * index..3 * index + 3]
  {
  }

  /** Fetching the slot just stored gives back the stored vector. */
  lemma FetchAfterStore<T>(out: seq<T>, data: seq<T>, v: seq<T>, index: nat)
    requires |out| == 3 && |v| == 3 && 3 * index + 3 <= |data|
    ensures Fetched(out, Stored(data, v, index), index) == v
  {
    StoredWritesSlotOnly(data, v, index);
    FetchedWholeSlot(out, Stored(data, v, index), index);
  }

  /** Storing into one slot does not affect what is fetched from another. */
  lemma FetchOtherSlot<T>(out: seq<T>, data: seq<T>, v: seq<T>, i: nat, j: nat)
    requires |out| == 3 && |v| == 3 && 3 * j + 3 <= |data| && i != j
    ensures Fetched(out, Stored(data, v, j), i) == Fetched(out, data, i)
  {
    StoredWritesSlotOnly(data, v, j);
  }

  /** `getVector3`: copy slot `index` of `data` into the 3-vector `out`. */
  method GetVector3(out: array<real>, data: array<real>, index: nat)
    requires out.Length == 3
    modifies out
    ensures out[..] == Fetched(old(out[..]), old(data[..]), index)
    ensures out != data ==> data[..] == old(data[..])
  {
    var src := data[..];
    var lo := if 3 * index < |src| then 3 * index else |src|;
    var hi := if 3 * index + 3 < |src| then 3 * index + 3 else |src|;
    var k := 0;
    while k < hi - lo
      invariant 0 <= k <= hi - lo <= 3
      invariant forall m :: 0 <= m < k ==> out[m] == src[lo + m]
      invariant forall m :: k <= m < 3 ==> out[m] == old(out[m])
      invariant out != data ==> data[..] == src
    {
      out[k] := src[lo + k];
      k := k + 1;
    }
  }

  /**
   * `putVector3`: store the 3-vector `v` into slot `index` of `data`.
   * `TypedArray.set` throws a RangeError when the slot does not fit; the
   * model returns false then and leaves `data` as it was.
   */
  method PutVector3(v: array<real>, data: array<real>, index: nat) returns (ok: bool)
    requires v.Length == 3
    modifies data
    ensures ok <==> 3 * index + 3 <= data.Length
    ensures ok ==> data[..] == Stored(old(data[..]), old(v[..]), index)
    ensures !ok ==> data[..] == old(data[..])
  {
    if 3 * index + 3 > data.Length {
      return false;
    }
    var src := v[..];
    var k := 0;
    while k < 3
      invariant 0 <= k <= 3
      invariant forall m :: 0 <= m < data.Length ==>
        data[m] == if 3 * index <= m < 3 * index + k then src[m - 3 * index] else old(data[m])
    {
      data[3 * index + k] := src[k];
      k := k + 1;
    }
    ok := true;
    StoredWritesSlotOnly(old(data[..]), src, index);
  }

  /**
   * `getTriangle`: copy the three slots named by `indexData[offset]`,
   * `indexData[offset+1]` and `indexData[offset+2]` into `out[0..3]`. An
   * index read past the end of `indexData` is `undefined` in JavaScript,
   * which makes the slot bounds NaN and the copied range empty.
   */
  method GetTriangle(out: array<array<real>>, data: array<real>, indexData: array<nat>, offset: nat)
    requires out.Length >= 3
    requires forall k :: 0 <= k < 3 ==> out[k].Length == 3 && out[k] != data
    requires forall i, j :: 0 <= i < j < 3 ==> out[i] != out[j]
    modifies set k | 0 <= k < 3 :: out[k]
    ensures forall k :: 0 <= k < 3 ==>
      out[k][..] == if offset + k < indexData.Length then Fetched(old(out[k][..]), data[..], indexData[offset + k])
                    else old(out[k][..])
    ensures data[..] == old(data[..])
  {
    var k := 0;
    while k < 3
      invariant 0 <= k <= 3
      invariant data[..] == old(data[..])
      invariant forall m :: 0 <= m < k ==>
        out[m][..] == if offset + m < indexData.Length then Fetched(old(out[m][..]), data[..], indexData[offset + m])
                      else old(out[m][..])
      invariant forall m :: k <= m < 3 ==> out[m][..] == old(out[m][..])
    {
      if offset + k < indexData.Length {
        var vec := out[k];
        assert vec in set i | 0 <= i < 3 :: out[i];
        GetVector3(vec, data, indexData[offset + k]);
      }
      k := k + 1;
    }
  }
}
